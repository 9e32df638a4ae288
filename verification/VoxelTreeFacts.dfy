/** Properties of the octree over single updates and over whole runs of updates. */
module VoxelTreeFacts {
  import opened VoxelTree

  // ----- lookup agrees with insertion

  predicate Holds(n: Tree, p: Point)
    requires n.Node?
  {
    p in n.points || !n.enabled
  }

  lemma {:induction false} InOctant(center: Vec, points: seq<Point>, p: Point)
    requires p in points
    ensures p in Octant(center, points, LeafNum(center, p.w))
  {
    var last := points[|points| - 1];
    if p != last {
      InOctant(center, points[..|points| - 1], p);
    }
  }

  lemma {:induction false} FindAfterInit(cfg: Config, bound: nat, n: Tree, p: Point)
    requires Bounds(cfg, bound) && Collecting(cfg, bound, n) && p in n.points
    ensures Inv(cfg, bound, Init(cfg, n)) && Holds(Find(cfg, Init(cfg, n), p.w), p)
    decreases cfg.maxLayer - n.layer
  {
    InitInv(cfg, bound, n);
    if |n.points| > n.threshold && !cfg.fit(n.points).isPlane && n.layer < cfg.maxLayer {
      var k := LeafNum(n.center, p.w);
      InOctant(n.center, n.points, p);
      var fitted := n.(plane := cfg.fit(n.points));
      InitLeafAt(cfg, fitted, 8, k);
      OctantPoints(n.center, n.quarter, n.points, k);
      FindAfterInit(cfg, bound, FilledLeaf(cfg, fitted, k), p);
    }
  }

  /**
   After inserting `p`, the node that find_correspond returns for it holds `p` or is frozen, through every
   split, re-fit, loss of planarity and freeze.
   */
  lemma {:induction false} FindAfterUpdate(cfg: Config, bound: nat, n: Tree, p: Point)
    requires Bounds(cfg, bound) && n.Node? && Inv(cfg, bound, n) && InCube(n.center, n.quarter, p.w)
    ensures Inv(cfg, bound, Update(cfg, n, p)) && Holds(Find(cfg, Update(cfg, n, p), p.w), p)
    decreases cfg.maxLayer - n.layer
  {
    UpdateInv(cfg, bound, n, p);
    if !n.init {
      FindAfterInit(cfg, bound, Push(n, p), p);
    } else if n.plane.isPlane {
      PlaneFind(cfg, bound, n, p);
    } else if n.layer < cfg.maxLayer {
      LeafInv(cfg, bound, n, p.w);
      FindAfterUpdate(cfg, bound, Leaf(cfg, n, p.w), p);
    }
  }

  lemma PlaneFind(cfg: Config, bound: nat, n: Tree, p: Point)
    requires Bounds(cfg, bound) && n.Node? && Inv(cfg, bound, n) && n.init && n.plane.isPlane
    ensures var r := Update(cfg, n, p);
            r.kids == NO_KIDS && Shaped(cfg, r) && Find(cfg, r, p.w) == r && Holds(r, p)
  {
    var k := LeafNum(n.center, p.w);
    assert NO_KIDS[k] == Absent;
  }

  // ----- no inserted point is lost except by freezing

  /** Some node on the octant path of `p` holds it, or some node on that path is frozen. */
  predicate Retained(cfg: Config, n: Tree, p: Point)
    requires Shaped(cfg, n)
  {
    n.Node? && (Holds(n, p) || (n.layer < cfg.maxLayer && Retained(cfg, n.kids[LeafNum(n.center, p.w)], p)))
  }

  lemma {:induction false} FindRetains(cfg: Config, n: Tree, p: Point)
    requires n.Node? && Shaped(cfg, n) && Holds(Find(cfg, n, p.w), p)
    ensures Retained(cfg, n, p)
  {
    if n.init && !n.plane.isPlane && n.layer < cfg.maxLayer && n.kids[LeafNum(n.center, p.w)].Node? {
      FindRetains(cfg, n.kids[LeafNum(n.center, p.w)], p);
    }
  }

  /** Later updates, with whatever points, keep every retained point retained. */
  lemma {:induction false} UpdateRetains(cfg: Config, bound: nat, n: Tree, p: Point, q: Point)
    requires Bounds(cfg, bound) && n.Node? && Inv(cfg, bound, n) && InCube(n.center, n.quarter, p.w)
    requires Retained(cfg, n, q)
    ensures Inv(cfg, bound, Update(cfg, n, p)) && Retained(cfg, Update(cfg, n, p), q)
    decreases cfg.maxLayer - n.layer
  {
    UpdateInv(cfg, bound, n, p);
    var k := LeafNum(n.center, q.w);
    if !n.init {
      assert NO_KIDS[k] == Absent;
    } else if n.plane.isPlane {
      assert NO_KIDS[k] == Absent;
    } else if n.layer < cfg.maxLayer && !Holds(n, q) && k == LeafNum(n.center, p.w) {
      LeafInv(cfg, bound, n, p.w);
      UpdateRetains(cfg, bound, Leaf(cfg, n, p.w), p, q);
    }
  }

  // ----- what never changes back

  /**
   `b` may follow `a`: nodes keep their place and are never removed, initialisation and freezing are final, a
   frozen node's plane never changes again, and above max_layer_ a split node never becomes a plane again.
   */
  predicate Evolves(cfg: Config, a: Tree, b: Tree)
    requires Shaped(cfg, a) && Shaped(cfg, b)
  {
    a.Node? ==>
      && b.Node? && b.layer == a.layer && b.threshold == a.threshold && b.center == a.center && b.quarter == a.quarter
      && (a.init ==> b.init)
      && (!a.enabled ==> !b.enabled && b.plane == a.plane && b.points == a.points)
      && (a.init && !a.plane.isPlane && a.layer < cfg.maxLayer ==> b.plane == a.plane)
      && forall k :: 0 <= k < 8 ==> Evolves(cfg, a.kids[k], b.kids[k])
  }

  lemma {:induction false} EvolvesReflexive(cfg: Config, a: Tree)
    requires Shaped(cfg, a)
    ensures Evolves(cfg, a, a)
  {
    if a.Node? {
      forall k | 0 <= k < 8 ensures Evolves(cfg, a.kids[k], a.kids[k]) {
        EvolvesReflexive(cfg, a.kids[k]);
      }
    }
  }

  lemma {:induction false} EvolvesTransitive(cfg: Config, a: Tree, b: Tree, c: Tree)
    requires Shaped(cfg, a) && Shaped(cfg, b) && Shaped(cfg, c)
    requires Evolves(cfg, a, b) && Evolves(cfg, b, c)
    ensures Evolves(cfg, a, c)
  {
    if a.Node? {
      forall k | 0 <= k < 8 ensures Evolves(cfg, a.kids[k], c.kids[k]) {
        EvolvesTransitive(cfg, a.kids[k], b.kids[k], c.kids[k]);
      }
    }
  }

  lemma {:induction false} UpdateEvolves(cfg: Config, bound: nat, n: Tree, p: Point)
    requires Bounds(cfg, bound) && n.Node? && Inv(cfg, bound, n) && InCube(n.center, n.quarter, p.w)
    ensures Inv(cfg, bound, Update(cfg, n, p)) && Evolves(cfg, n, Update(cfg, n, p))
    decreases cfg.maxLayer - n.layer
  {
    hide Init;
    UpdateInv(cfg, bound, n, p);
    var r := Update(cfg, n, p);
    forall k | 0 <= k < 8 ensures Evolves(cfg, n.kids[k], r.kids[k]) {
      if n.init && !n.plane.isPlane && n.layer < cfg.maxLayer && k == LeafNum(n.center, p.w) {
        if n.kids[k].Node? {
          LeafInv(cfg, bound, n, p.w);
          UpdateEvolves(cfg, bound, n.kids[k], p);
        }
      } else {
        EvolvesReflexive(cfg, n.kids[k]);
        assert NO_KIDS[k] == Absent;
      }
    }
  }

  // ----- when a node freezes, and when its plane is fitted again

  /**
   A node freezes exactly when it is initialised to a plane by more than max_points_num_ points, or when a point makes
   the buffer of a plane that many, or the buffer of a node at the bottom more; splitting never freezes.
   */
  lemma FreezesExactly(cfg: Config, n: Tree, p: Point)
    requires cfg.Valid() && n.Node? && Shaped(cfg, n) && n.enabled
    ensures var size, r := |n.points| + 1, Update(cfg, n, p);
            !r.enabled <==>
              if !n.init then size > n.threshold && size > cfg.maxPointsNum && cfg.fit(n.points + [p]).isPlane
              else if n.plane.isPlane then size >= cfg.maxPointsNum
              else n.layer == cfg.maxLayer && size > cfg.maxPointsNum
  {
  }

  /** Points buffered one after the other. */
  function BufferAll(cfg: Config, n: Tree, ps: seq<Point>): (r: Tree)
    requires n.Node?
    ensures r.Node?
  {
    if ps == [] then n else Buffer(cfg, BufferAll(cfg, n, ps[..|ps| - 1]), ps[|ps| - 1])
  }

  lemma NextSix(k: nat, m: nat)
    requires m == k % 6
    ensures (k + 1) % 6 == if m == 5 then 0 else m + 1
  {
  }

  /** The plane is fitted again at every sixth point, to all points so far, and at no other. */
  lemma {:induction false} RefitEverySixth(cfg: Config, n: Tree, ps: seq<Point>)
    requires n.Node? && n.newPoints == 0 && n.plane == cfg.fit(n.points)
    ensures var r := BufferAll(cfg, n, ps);
            && r.points == n.points + ps && r.newPoints == |ps| % 6
            && r.plane == cfg.fit(n.points + ps[..|ps| - |ps| % 6])
    decreases |ps|
  {
    if ps == [] {
      assert n.points + [] == n.points;
    } else {
      var k := |ps| - 1;
      RefitEverySixth(cfg, n, ps[..k]);
      NextSix(k, k % 6);
      assert n.points + ps[..k] + [ps[k]] == n.points + ps;
      if |ps| % 6 != 0 {
        assert ps[..k][..k - k % 6] == ps[..|ps| - |ps| % 6];
      } else {
        assert ps[..|ps|] == ps;
      }
    }
  }

  // ----- runs

  predicate AllInCube(center: Vec, quarter: real, ps: seq<Point>) {
    forall i :: 0 <= i < |ps| ==> InCube(center, quarter, ps[i].w)
  }

  ghost function UpdateAll(cfg: Config, bound: nat, n: Tree, ps: seq<Point>): (r: Tree)
    requires Bounds(cfg, bound) && n.Node? && Inv(cfg, bound, n) && AllInCube(n.center, n.quarter, ps)
    ensures r.Node? && Inv(cfg, bound, r) && r.center == n.center && r.quarter == n.quarter
    decreases |ps|
  {
    if ps == [] then n
    else
      var init := UpdateAll(cfg, bound, n, ps[..|ps| - 1]);
      UpdateInv(cfg, bound, init, ps[|ps| - 1]);
      Update(cfg, init, ps[|ps| - 1])
  }

  /**
   Over every run of updates: the tree only evolves as `Evolves` says, every point inserted so far is retained,
   and the newest point is where find_correspond looks.
   */
  lemma {:induction false} RunKeeps(cfg: Config, bound: nat, n: Tree, ps: seq<Point>)
    requires Bounds(cfg, bound) && n.Node? && Inv(cfg, bound, n) && AllInCube(n.center, n.quarter, ps)
    ensures var r := UpdateAll(cfg, bound, n, ps);
            && Evolves(cfg, n, r)
            && (forall i :: 0 <= i < |ps| ==> Retained(cfg, r, ps[i]))
            && (ps != [] ==> Holds(Find(cfg, r, ps[|ps| - 1].w), ps[|ps| - 1]))
    decreases |ps|
  {
    hide Update;
    hide Evolves;
    hide Retained;
    hide Find;
    if ps == [] {
      EvolvesReflexive(cfg, n);
    } else {
      var init, p := ps[..|ps| - 1], ps[|ps| - 1];
      RunKeeps(cfg, bound, n, init);
      var m := UpdateAll(cfg, bound, n, init);
      UpdateEvolves(cfg, bound, m, p);
      FindAfterUpdate(cfg, bound, m, p);
      var r := Update(cfg, m, p);
      EvolvesTransitive(cfg, n, m, r);
      FindRetains(cfg, r, p);
      forall i | 0 <= i < |init| ensures Retained(cfg, r, ps[i]) {
        assert ps[i] == init[i];
        UpdateRetains(cfg, bound, m, p, ps[i]);
      }
    }
  }
}
