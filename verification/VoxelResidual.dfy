/**
 Matching a point against the planes of an octree.

 The two gates (distance in the plane, distance to the plane against its uncertainty) and the probability
 density are parameters: floating-point formulas over the plane and the point.
 */
module VoxelResidual {
  import opened Common
  import opened VoxelTree

  datatype Gates = Gates(inRange: (Plane, Point) -> bool, inSigma: (Plane, Point) -> bool,
          density: (Plane, Point) -> real)
  {
    predicate Pass(h: Hit, pv: Point) { inRange(h.plane, pv) && inSigma(h.plane, pv) }
    function Density(h: Hit, pv: Point): real { density(h.plane, pv) }
  }

  /** A plane of the tree and the layer it was found at. */
  datatype Hit = Hit(plane: Plane, layer: nat)

  /** is_sucess, prob, and what was last written to single_ptpl and pv.normal. */
  datatype Match = Match(success: bool, prob: real, best: Option<Hit>)

  const NO_MATCH := Match(false, 0.0, None)

  function Consider(gates: Gates, pv: Point, h: Hit, m: Match): Match {
    if gates.inRange(h.plane, pv) then
      if gates.inSigma(h.plane, pv) then
        if gates.density(h.plane, pv) > m.prob then Match(true, gates.density(h.plane, pv), Some(h))
        else m.(success := true)
      else m
    else m
  }

  /** The recursion of build_single_residual. */
  function Search(cfg: Config, gates: Gates, pv: Point, n: Tree, m: Match): Match
    requires n.Node? && Shaped(cfg, n)
    decreases n, 9
  {
    if n.plane.isPlane then Consider(gates, pv, Hit(n.plane, n.layer), m)
    else if n.layer < cfg.maxLayer then SearchKids(cfg, gates, pv, n, 8, m)
    else m
  }

  function SearchKids(cfg: Config, gates: Gates, pv: Point, n: Tree, j: nat, m: Match): Match
    requires n.Node? && Shaped(cfg, n) && j <= 8
    decreases n, j
  {
    if j == 0 then m
    else
      var m' := SearchKids(cfg, gates, pv, n, j - 1, m);
      if n.kids[j - 1].Absent? then m' else Search(cfg, gates, pv, n.kids[j - 1], m')
  }

  // ----- the planes that are candidates

  /** The topmost planes of the tree: a plane hides whatever is below it. */
  function TopPlanes(cfg: Config, n: Tree): seq<Hit>
    requires n.Node? && Shaped(cfg, n)
    decreases n, 9
  {
    if n.plane.isPlane then [Hit(n.plane, n.layer)]
    else if n.layer < cfg.maxLayer then KidPlanes(cfg, n, 8)
    else []
  }

  function KidPlanes(cfg: Config, n: Tree, j: nat): seq<Hit>
    requires n.Node? && Shaped(cfg, n) && j <= 8
    decreases n, j
  {
    if j == 0 then []
    else KidPlanes(cfg, n, j - 1) + if n.kids[j - 1].Absent? then [] else TopPlanes(cfg, n.kids[j - 1])
  }

  /** From `n` down the octants of `path` there is a plane, with no plane above it. */
  predicate Visible(n: Tree, path: seq<nat>, h: Hit) {
    n.Node? &&
    if path == [] then n.plane.isPlane && h == Hit(n.plane, n.layer)
    else !n.plane.isPlane && path[0] < |n.kids| && Visible(n.kids[path[0]], path[1..], h)
  }

  ghost predicate Seen(n: Tree, h: Hit) {
    exists path: seq<nat> :: Visible(n, path, h)
  }

  /** A plane hides what is below it; other nodes show what their children show. */
  lemma SeenBelow(n: Tree, h: Hit)
    ensures n.Node? && n.plane.isPlane ==> (Seen(n, h) <==> h == Hit(n.plane, n.layer))
    ensures n.Node? && !n.plane.isPlane ==> (Seen(n, h) <==> exists k :: 0 <= k < |n.kids| && Seen(n.kids[k], h))
    ensures n.Absent? ==> !Seen(n, h)
  {
    if n.Node? && n.plane.isPlane {
      assert h == Hit(n.plane, n.layer) ==> Visible(n, [], h);
    } else if n.Node? {
      if path: seq<nat> :| Visible(n, path, h) {
        assert Visible(n.kids[path[0]], path[1..], h);
      }
      if k :| 0 <= k < |n.kids| && Seen(n.kids[k], h) {
        var below: seq<nat> :| Visible(n.kids[k], below, h);
        assert ([k] + below)[1..] == below;
        assert Visible(n, [k] + below, h);
      }
    }
  }

  /** The candidates are exactly the planes that no plane is above, at whatever depth. */
  lemma {:induction false} TopPlanesExactly(cfg: Config, n: Tree, h: Hit)
    requires n.Node? && Shaped(cfg, n)
    ensures h in TopPlanes(cfg, n) <==> Seen(n, h)
    decreases n, 9
  {
    hide Seen;
    SeenBelow(n, h);
    if !n.plane.isPlane {
      if n.layer < cfg.maxLayer {
        KidPlanesExactly(cfg, n, 8, h);
      } else {
        forall k | 0 <= k < 8 ensures !Seen(n.kids[k], h) {
          assert NO_KIDS[k] == Absent;
          SeenBelow(n.kids[k], h);
        }
      }
    }
  }

  lemma {:induction false} KidPlanesExactly(cfg: Config, n: Tree, j: nat, h: Hit)
    requires n.Node? && Shaped(cfg, n) && j <= 8
    ensures h in KidPlanes(cfg, n, j) <==> exists k :: 0 <= k < j && Seen(n.kids[k], h)
    decreases n, j
  {
    hide Seen;
    if j != 0 {
      KidPlanesExactly(cfg, n, j - 1, h);
      SeenBelow(n.kids[j - 1], h);
      if n.kids[j - 1].Node? {
        TopPlanesExactly(cfg, n.kids[j - 1], h);
      }
    }
  }

  /** The candidates of octants 0 to 7 come in this order, each octant's in one piece. */
  lemma {:induction false} KidOrder(cfg: Config, n: Tree, j: nat, k: nat)
    requires n.Node? && Shaped(cfg, n) && k < j <= 8
    ensures var at := |KidPlanes(cfg, n, k)|;
            var own := if n.kids[k].Absent? then [] else TopPlanes(cfg, n.kids[k]);
            && at + |own| <= |KidPlanes(cfg, n, j)|
            && KidPlanes(cfg, n, j)[..at] == KidPlanes(cfg, n, k)
            && KidPlanes(cfg, n, j)[at..at + |own|] == own
    decreases j
  {
    hide TopPlanes;
    if k < j - 1 {
      KidOrder(cfg, n, j - 1, k);
    }
  }

  function Scan(gates: Gates, pv: Point, hits: seq<Hit>, m: Match): Match {
    if hits == [] then m
    else Consider(gates, pv, hits[|hits| - 1], Scan(gates, pv, hits[..|hits| - 1], m))
  }

  lemma {:induction false} ScanAppend(gates: Gates, pv: Point, a: seq<Hit>, b: seq<Hit>, m: Match)
    ensures Scan(gates, pv, a + b, m) == Scan(gates, pv, b, Scan(gates, pv, a, m))
    decreases |b|
  {
    if b == [] {
      assert a + b == a;
    } else {
      assert (a + b)[..|a + b| - 1] == a + b[..|b| - 1];
      ScanAppend(gates, pv, a, b[..|b| - 1], m);
    }
  }

  lemma {:induction false} SearchScans(cfg: Config, gates: Gates, pv: Point, n: Tree, m: Match)
    requires n.Node? && Shaped(cfg, n)
    ensures Search(cfg, gates, pv, n, m) == Scan(gates, pv, TopPlanes(cfg, n), m)
    decreases n, 9
  {
    if !n.plane.isPlane && n.layer < cfg.maxLayer {
      SearchKidsScans(cfg, gates, pv, n, 8, m);
    }
  }

  lemma {:induction false} SearchKidsScans(cfg: Config, gates: Gates, pv: Point, n: Tree, j: nat, m: Match)
    requires n.Node? && Shaped(cfg, n) && j <= 8
    ensures SearchKids(cfg, gates, pv, n, j, m) == Scan(gates, pv, KidPlanes(cfg, n, j), m)
    decreases n, j
  {
    if j != 0 {
      SearchKidsScans(cfg, gates, pv, n, j - 1, m);
      var m' := SearchKids(cfg, gates, pv, n, j - 1, m);
      var kid := n.kids[j - 1];
      if kid.Node? {
        SearchScans(cfg, gates, pv, kid, m');
        ScanAppend(gates, pv, KidPlanes(cfg, n, j - 1), TopPlanes(cfg, kid), m);
      } else {
        assert KidPlanes(cfg, n, j - 1) + [] == KidPlanes(cfg, n, j - 1);
      }
    }
  }

  // ----- what the search finds

  predicate Gated(gates: Gates, pv: Point, hits: seq<Hit>) {
    exists i :: 0 <= i < |hits| && gates.Pass(hits[i], pv)
  }

  /** `h` is the first of the gated hits of greatest density, and that density is positive. */
  ghost predicate FirstDensest(gates: Gates, pv: Point, hits: seq<Hit>, h: Hit) {
    exists i :: 0 <= i < |hits| && hits[i] == h && gates.Pass(h, pv) && gates.Density(h, pv) > 0.0
             && (forall k :: 0 <= k < |hits| && gates.Pass(hits[k], pv) ==>
                  gates.Density(hits[k], pv) <= gates.Density(h, pv))
             && (forall k :: 0 <= k < i && gates.Pass(hits[k], pv) ==>
                  gates.Density(hits[k], pv) < gates.Density(h, pv))
  }

  lemma {:induction false} ScanFinds(gates: Gates, pv: Point, hits: seq<Hit>)
    ensures var r := Scan(gates, pv, hits, NO_MATCH);
            && (r.success <==> Gated(gates, pv, hits))
            && (r.best.Some? ==>
                  FirstDensest(gates, pv, hits, r.best.value) && r.prob == gates.Density(r.best.value, pv))
            && (r.best.None? ==>
                  && r.prob == 0.0
                  && forall k :: 0 <= k < |hits| && gates.Pass(hits[k], pv) ==> gates.Density(hits[k], pv) <= 0.0)
    decreases |hits|
  {
    if hits != [] {
      var init, last := hits[..|hits| - 1], hits[|hits| - 1];
      ScanFinds(gates, pv, init);
      assert forall k :: 0 <= k < |hits| ==> hits[k] == if k < |init| then init[k] else last;
      var r0, r := Scan(gates, pv, init, NO_MATCH), Scan(gates, pv, hits, NO_MATCH);
      if Gated(gates, pv, init) {
        var i :| 0 <= i < |init| && gates.Pass(init[i], pv);
        assert gates.Pass(hits[i], pv);
      }
      if gates.Pass(last, pv) {
        assert gates.Pass(hits[|init|], pv);
      }
      if r.best.Some? {
        var i: nat;
        if r == r0 || r == r0.(success := true) {
          i :| 0 <= i < |init| && init[i] == r0.best.value
               && (forall k :: 0 <= k < i && gates.Pass(init[k], pv) ==>
                    gates.Density(init[k], pv) < gates.Density(r0.best.value, pv));
        } else {
          i := |init|;
        }
        assert hits[i] == r.best.value;
      }
    }
  }

  /**
   build_single_residual is an argmax: it succeeds iff some topmost plane passes both gates, and then, densities
   being positive, it reports the first topmost gated plane of greatest density.
   */
  lemma ResidualIsArgmax(cfg: Config, gates: Gates, pv: Point, n: Tree)
    requires n.Node? && Shaped(cfg, n)
    requires forall h :: gates.Pass(h, pv) ==> gates.Density(h, pv) > 0.0
    ensures var r := Search(cfg, gates, pv, n, NO_MATCH);
            && (r.success <==> Gated(gates, pv, TopPlanes(cfg, n)))
            && (r.success <==> r.best.Some?)
            && (r.success ==>
                  FirstDensest(gates, pv, TopPlanes(cfg, n), r.best.value) && r.prob == gates.Density(r.best.value, pv))
  {
    SearchScans(cfg, gates, pv, n, NO_MATCH);
    ScanFinds(gates, pv, TopPlanes(cfg, n));
  }

  /** A search that fails leaves the match as it was, so a second search starts afresh. */
  lemma FailedSearchIsClean(cfg: Config, gates: Gates, pv: Point, n: Tree)
    requires n.Node? && Shaped(cfg, n) && !Search(cfg, gates, pv, n, NO_MATCH).success
    ensures Search(cfg, gates, pv, n, NO_MATCH) == NO_MATCH
  {
    SearchScans(cfg, gates, pv, n, NO_MATCH);
    ScanFinds(gates, pv, TopPlanes(cfg, n));
  }
}
