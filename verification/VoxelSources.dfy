/** Where the points in the buffers of the voxel map come from: none is made up, reordered, or left out in between. */
module VoxelSources {
  import opened VoxelTree
  import opened VoxelTreeFacts
  import opened VoxelMap

  /** The node is one that a point sent to it is buffered in. */
  predicate Collects(cfg: Config, n: Tree)
    requires n.Node?
  {
    n.enabled && (!n.init || n.plane.isPlane || n.layer >= cfg.maxLayer)
  }

  /** The points are those from number `a` up to `b`. */
  predicate Stretch(points: seq<Point>, ps: seq<Point>, a: nat, b: nat) {
    a <= b <= |ps| && points == ps[a..b]
  }

  /**
   `ps` are the points sent to the node so far. Its buffer is a stretch of them without gaps, which reaches up to the
   newest as long as the node collects. It was initialised only by more points than its threshold, and frozen only by
   max_points_num_ points or more. And so for its children and the points of their octants.
   */
  ghost predicate Sourced(cfg: Config, n: Tree, ps: seq<Point>)
    requires Shaped(cfg, n)
  {
    n.Node? ==>
      && (exists a, b :: Stretch(n.points, ps, a, b) && (Collects(cfg, n) ==> b == |ps|))
      && Sent(cfg, n, |ps|)
      && forall k :: 0 <= k < 8 ==> Sourced(cfg, n.kids[k], Octant(n.center, ps, k))
  }

  predicate Sent(cfg: Config, n: Tree, count: nat)
    requires n.Node?
  {
    && (n.init ==> count > n.threshold)
    && (!n.enabled ==> count >= cfg.maxPointsNum)
  }

  lemma {:induction false} OctantAppend(center: Vec, a: seq<Point>, b: seq<Point>, k: nat)
    ensures Octant(center, a + b, k) == Octant(center, a, k) + Octant(center, b, k)
    decreases |b|
  {
    if b == [] {
      assert a + b == a;
    } else {
      assert (a + b)[..|a + b| - 1] == a + b[..|b| - 1];
      OctantAppend(center, a, b[..|b| - 1], k);
    }
  }

  lemma OctantNext(center: Vec, ps: seq<Point>, p: Point, k: nat)
    ensures Octant(center, ps + [p], k) == Octant(center, ps, k) + if LeafNum(center, p.w) == k then [p] else []
  {
    assert (ps + [p])[..|ps|] == ps;
  }

  /** An octant of the newest points is made of the newest points of the octant. */
  lemma OctantStretch(center: Vec, points: seq<Point>, ps: seq<Point>, a: nat, k: nat) returns (c: nat)
    requires Stretch(points, ps, a, |ps|)
    ensures var octant := Octant(center, ps, k); Stretch(Octant(center, points, k), octant, c, |octant|)
  {
    assert ps == ps[..a] + points;
    OctantAppend(center, ps[..a], points, k);
    c := |Octant(center, ps[..a], k)|;
  }

  /** A node without children, initialised or not, that has just been given the newest points. */
  lemma LoneSourced(cfg: Config, n: Tree, ps: seq<Point>, a: nat, b: nat)
    requires n.Node? && Shaped(cfg, n) && n.kids == NO_KIDS
    requires Stretch(n.points, ps, a, b) && (Collects(cfg, n) ==> b == |ps|) && Sent(cfg, n, |ps|)
    ensures Sourced(cfg, n, ps)
  {
    assert forall k :: 0 <= k < 8 ==> NO_KIDS[k] == Absent;
  }

  lemma {:induction false} InitSourced(cfg: Config, bound: nat, n: Tree, ps: seq<Point>, a: nat)
    requires Bounds(cfg, bound) && Collecting(cfg, bound, n) && Stretch(n.points, ps, a, |ps|)
    ensures Inv(cfg, bound, Init(cfg, n)) && Sourced(cfg, Init(cfg, n), ps)
    decreases cfg.maxLayer - n.layer, 1
  {
    InitInv(cfg, bound, n);
    var r := Init(cfg, n);
    var fitted := n.(plane := cfg.fit(n.points));
    if |n.points| > n.threshold && !fitted.plane.isPlane && n.layer < cfg.maxLayer {
      assert r.points == n.points && r.kids == InitLeaves(cfg, fitted, 8);
      forall k | 0 <= k < 8 ensures Sourced(cfg, r.kids[k], Octant(n.center, ps, k)) {
        InitLeafSourced(cfg, bound, n, ps, a, k);
      }
    } else if r.points == n.points {
      LoneSourced(cfg, r, ps, a, |ps|);
    } else {
      LoneSourced(cfg, r, ps, |ps|, |ps|);
    }
  }

  lemma {:induction false} InitLeafSourced(cfg: Config, bound: nat, n: Tree, ps: seq<Point>, a: nat, k: nat)
    requires Bounds(cfg, bound) && Collecting(cfg, bound, n) && Stretch(n.points, ps, a, |ps|)
    requires n.layer < cfg.maxLayer && k < 8
    ensures var kid := InitLeaves(cfg, n.(plane := cfg.fit(n.points)), 8)[k];
            Inv(cfg, bound, kid) && Sourced(cfg, kid, Octant(n.center, ps, k))
    decreases cfg.maxLayer - n.layer, 0
  {
    var fitted := n.(plane := cfg.fit(n.points));
    InitLeafAt(cfg, fitted, 8, k);
    var leaf := FilledLeaf(cfg, fitted, k);
    if leaf.Node? {
      OctantPoints(n.center, n.quarter, n.points, k);
      var c := OctantStretch(n.center, n.points, ps, a, k);
      InitSourced(cfg, bound, leaf, Octant(n.center, ps, k), c);
    }
  }

  /** A leaf that is missing has been sent points that nobody kept; the new one starts from here. */
  lemma LeafSourced(cfg: Config, n: Tree, w: Vec, ps: seq<Point>)
    requires cfg.Valid() && n.Node? && Shaped(cfg, n) && n.layer < cfg.maxLayer && Sourced(cfg, n, ps)
    ensures Sourced(cfg, Leaf(cfg, n, w), Octant(n.center, ps, LeafNum(n.center, w)))
  {
    var k := LeafNum(n.center, w);
    var octant := Octant(n.center, ps, k);
    if n.kids[k].Absent? {
      LoneSourced(cfg, NewLeaf(cfg, n, k), octant, |octant|, |octant|);
    }
  }

  /** A node that takes no part in an update keeps its stretch. */
  lemma StretchOn(points: seq<Point>, ps: seq<Point>, a: nat, b: nat, p: Point)
    requires Stretch(points, ps, a, b)
    ensures Stretch(points, ps + [p], a, b)
    ensures b == |ps| ==> Stretch(points + [p], ps + [p], a, |ps| + 1)
  {
  }

  /** Every buffer stays a stretch of what was sent to its node, through splits, re-fits and freezes. */
  lemma {:induction false} UpdateSourced(cfg: Config, bound: nat, n: Tree, p: Point, ps: seq<Point>)
    requires Bounds(cfg, bound) && n.Node? && Inv(cfg, bound, n) && InCube(n.center, n.quarter, p.w)
    requires Sourced(cfg, n, ps)
    ensures Inv(cfg, bound, Update(cfg, n, p)) && Sourced(cfg, Update(cfg, n, p), ps + [p])
    decreases cfg.maxLayer - n.layer
  {
    UpdateInv(cfg, bound, n, p);
    var a, b :| Stretch(n.points, ps, a, b) && (Collects(cfg, n) ==> b == |ps|);
    StretchOn(n.points, ps, a, b, p);
    if !n.init {
      CollectMore(cfg, bound, n, p);
      InitSourced(cfg, bound, Push(n, p), ps + [p], a);
    } else if !n.plane.isPlane && n.layer < cfg.maxLayer {
      SplitSourced(cfg, bound, n, p, ps);
    } else {
      BufferSourced(cfg, bound, n, p, ps, a, b);
    }
  }

  /** A node without children buffers the point, freezes with it, or takes no notice of it. */
  lemma BufferSourced(cfg: Config, bound: nat, n: Tree, p: Point, ps: seq<Point>, a: nat, b: nat)
    requires Bounds(cfg, bound) && n.Node? && Inv(cfg, bound, n) && InCube(n.center, n.quarter, p.w)
    requires n.init && (n.plane.isPlane || n.layer >= cfg.maxLayer)
    requires Stretch(n.points, ps, a, b) && (Collects(cfg, n) ==> b == |ps|) && Sent(cfg, n, |ps|)
    ensures Inv(cfg, bound, Update(cfg, n, p)) && Sourced(cfg, Update(cfg, n, p), ps + [p])
  {
    UpdateInv(cfg, bound, n, p);
    hide Inv;
    hide Init;
    StretchOn(n.points, ps, a, b, p);
    var r, all := Update(cfg, n, p), ps + [p];
    StretchSize(n.points, ps, a, b);
    if r.points == n.points + [p] {
      LoneSourced(cfg, r, all, a, |all|);
    } else if r.points == [] {
      LoneSourced(cfg, r, all, |all|, |all|);
    } else {
      LoneSourced(cfg, r, all, a, b);
    }
  }

  lemma StretchSize(points: seq<Point>, ps: seq<Point>, a: nat, b: nat)
    requires Stretch(points, ps, a, b)
    ensures |points| <= |ps| && Stretch([], ps, |ps|, |ps|)
  {
  }

  lemma {:induction false} SplitSourced(cfg: Config, bound: nat, n: Tree, p: Point, ps: seq<Point>)
    requires Bounds(cfg, bound) && n.Node? && Inv(cfg, bound, n) && InCube(n.center, n.quarter, p.w)
    requires Sourced(cfg, n, ps) && n.init && !n.plane.isPlane && n.layer < cfg.maxLayer
    ensures Inv(cfg, bound, Update(cfg, n, p)) && Sourced(cfg, Update(cfg, n, p), ps + [p])
    decreases cfg.maxLayer - n.layer, 0
  {
    UpdateInv(cfg, bound, n, p);
    LeafInv(cfg, bound, n, p.w);
    LeafSourced(cfg, n, p.w, ps);
    var r, num := Update(cfg, n, p), LeafNum(n.center, p.w);
    UpdateSourced(cfg, bound, Leaf(cfg, n, p.w), p, Octant(n.center, ps, num));
    forall k | 0 <= k < 8 ensures Sourced(cfg, r.kids[k], Octant(n.center, ps + [p], k)) {
      OctantNext(n.center, ps, p, k);
      if k != num {
        assert r.kids[k] == n.kids[k] && Octant(n.center, ps + [p], k) == Octant(n.center, ps, k);
      }
    }
    var a, b :| Stretch(n.points, ps, a, b);
    StretchOn(n.points, ps, a, b, p);
    assert r.points == n.points;
  }

  /** Over every run of updates of one tree. */
  lemma {:induction false} RunSourced(cfg: Config, bound: nat, n: Tree, before: seq<Point>, ps: seq<Point>)
    requires Bounds(cfg, bound) && n.Node? && Inv(cfg, bound, n) && AllInCube(n.center, n.quarter, ps)
    requires Sourced(cfg, n, before)
    ensures Sourced(cfg, UpdateAll(cfg, bound, n, ps), before + ps)
    decreases |ps|
  {
    hide Sourced;
    if ps == [] {
      assert before + ps == before;
    } else {
      var front, p := ps[..|ps| - 1], ps[|ps| - 1];
      RunSourced(cfg, bound, n, before, front);
      UpdateSourced(cfg, bound, UpdateAll(cfg, bound, n, front), p, before + front);
      assert before + front + [p] == before + ps;
    }
  }

  // ----- the map

  /** The points of cell `key`, in order. */
  function CellPoints(size: real, ps: seq<Point>, key: Key): seq<Point>
    requires size > 0.0
  {
    if ps == [] then []
    else
      var last := ps[|ps| - 1];
      CellPoints(size, ps[..|ps| - 1], key) + if KeyOf(last.w, size) == key then [last] else []
  }

  lemma CellNext(size: real, ps: seq<Point>, p: Point, key: Key)
    requires size > 0.0
    ensures CellPoints(size, ps + [p], key) == CellPoints(size, ps, key) + if KeyOf(p.w, size) == key then [p] else []
  {
    assert (ps + [p])[..|ps|] == ps;
  }

  /** Every tree of the map is sourced from the points of its cell among `ps`. */
  ghost predicate MapSourced(cfg: Config, bound: nat, size: real, m: map<Key, Tree>, ps: seq<Point>)
    requires cfg.Valid() && size > 0.0 && MapInv(cfg, bound, size, m)
  {
    forall key :: key in m ==> RootInv(cfg, bound, size, key, m[key]) && Sourced(cfg, m[key], CellPoints(size, ps, key))
  }

  lemma InsertSourced(cfg: Config, bound: nat, size: real, m: map<Key, Tree>, p: Point, ps: seq<Point>)
    requires Bounds(cfg, bound) && size > 0.0 && MapInv(cfg, bound, size, m) && MapSourced(cfg, bound, size, m, ps)
    ensures MapSourced(cfg, bound, size, Insert(cfg, bound, size, m, p), ps + [p])
  {
    hide Sourced;
    hide KeyOf;
    hide KeyCenter;
    var r, at := Insert(cfg, bound, size, m, p), KeyOf(p.w, size);
    RootForInv(cfg, bound, size, m, p);
    var root, cell := RootFor(cfg, size, m, at), CellPoints(size, ps, at);
    if at !in m {
      LoneSourced(cfg, root, cell, |cell|, |cell|);
    }
    UpdateSourced(cfg, bound, root, p, cell);
    forall key | key in r
      ensures RootInv(cfg, bound, size, key, r[key]) && Sourced(cfg, r[key], CellPoints(size, ps + [p], key))
    {
      CellNext(size, ps, p, key);
      if key != at {
        assert r[key] == m[key] && CellPoints(size, ps + [p], key) == CellPoints(size, ps, key);
      }
    }
  }

  function Added(ops: seq<MapOp>): seq<Point> {
    if ops == [] then []
    else Added(ops[..|ops| - 1]) + if ops[|ops| - 1].Add? then [ops[|ops| - 1].p] else []
  }

  /** Over every run of insertions and clearings. */
  lemma {:induction false} ClearingRunSourced(cfg: Config, bound: nat, size: real, m: map<Key, Tree>,
          before: seq<Point>, ops: seq<MapOp>)
    requires Bounds(cfg, bound) && size > 0.0 && MapInv(cfg, bound, size, m) && MapSourced(cfg, bound, size, m, before)
    ensures MapSourced(cfg, bound, size, ApplyAll(cfg, bound, size, m, ops), before + Added(ops))
    decreases |ops|
  {
    hide MapSourced;
    hide MapInv;
    hide Apply;
    if ops == [] {
      assert before + [] == before;
    } else {
      var front, op := ops[..|ops| - 1], ops[|ops| - 1];
      ClearingRunSourced(cfg, bound, size, m, before, front);
      ApplySourced(cfg, bound, size, ApplyAll(cfg, bound, size, m, front), op, before + Added(front));
      var more := if op.Add? then [op.p] else [];
      assert before + Added(ops) == before + Added(front) + more;
    }
  }

  lemma ApplySourced(cfg: Config, bound: nat, size: real, m: map<Key, Tree>, op: MapOp, ps: seq<Point>)
    requires Bounds(cfg, bound) && size > 0.0 && MapInv(cfg, bound, size, m) && MapSourced(cfg, bound, size, m, ps)
    ensures MapSourced(cfg, bound, size, Apply(cfg, bound, size, m, op), ps + if op.Add? then [op.p] else [])
  {
    hide Sourced;
    match op {
      case Add(p) => InsertSourced(cfg, bound, size, m, p, ps);
      case Clear(box) =>
        ClearedInv(cfg, bound, size, m, box);
        assert ps + [] == ps;
    }
  }

  /** The first loop of BuildVoxelMap buffers in each cell exactly its points, in order. */
  lemma {:induction false} GatherExact(cfg: Config, size: real, ps: seq<Point>, key: Key)
    requires cfg.Valid() && size > 0.0
    ensures var m := Gather(cfg, size, ps);
            CellPoints(size, ps, key) == if key in m then m[key].points else []
  {
    hide KeyOf;
    if ps != [] {
      GatherExact(cfg, size, ps[..|ps| - 1], key);
    }
  }

  lemma BuildSourced(cfg: Config, bound: nat, size: real, first: seq<Point>)
    requires Bounds(cfg, bound) && size > 0.0 && |first| <= bound
    ensures MapInv(cfg, bound, size, Build(cfg, size, first))
    ensures MapSourced(cfg, bound, size, Build(cfg, size, first), first)
  {
    hide Sourced;
    hide Init;
    hide KeyOf;
    hide KeyCenter;
    BuildKeeps(cfg, bound, size, first);
    GatherCollects(cfg, size, first);
    var g := Gather(cfg, size, first);
    forall key | key in g
      ensures Shaped(cfg, Init(cfg, g[key])) && Sourced(cfg, Init(cfg, g[key]), CellPoints(size, first, key))
    {
      GatherExact(cfg, size, first, key);
      CollectsMore(cfg, |first|, bound, g[key]);
      InitSourced(cfg, bound, g[key], g[key].points, 0);
    }
  }

  /**
   From the first scan on, over every interleaving of insertions and clearings: every buffer of the map is a stretch,
   without gaps and in order, of the points that were inserted into its cell and octant, and reaches up to the newest of
   them as long as its node collects.
   */
  lemma WholeRunSourced(cfg: Config, bound: nat, size: real, first: seq<Point>, later: seq<MapOp>)
    requires Bounds(cfg, bound) && size > 0.0 && |first| <= bound
    ensures var m := Build(cfg, size, first);
            && MapInv(cfg, bound, size, m)
            && MapSourced(cfg, bound, size, ApplyAll(cfg, bound, size, m, later), first + Added(later))
  {
    hide MapSourced;
    hide Build;
    BuildSourced(cfg, bound, size, first);
    ClearingRunSourced(cfg, bound, size, Build(cfg, size, first), first, later);
  }
}
