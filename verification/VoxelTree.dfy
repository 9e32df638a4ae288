/**
 The adaptive voxel octree of the LiDAR map, as values.

 A tree node buffers points, fits a plane to them, splits when the fit is not planar, and freezes when it has
 enough points. `Init`, `Update` and `Find` specify init_octo_tree/cut_octo_tree, UpdateOctoTree and
 find_correspond; the mutable tree of VoxelOctoTree.dfy is proved against them.

 The plane fit (an eigen-decomposition) is a parameter of every statement: all results hold for every
 deterministic fit.
 */
module VoxelTree {

  datatype Vec = Vec(x: real, y: real, z: real)

  /** A world point; `covariance` stands for the measurement fields that only the fit and the gates read. */
  datatype Point = Point(w: Vec, covariance: seq<real>)

  datatype Plane = Plane(isPlane: bool, normal: Vec, center: Vec, d: real, radius: real, covariance: seq<real>)

  const ORIGIN := Vec(0.0, 0.0, 0.0)
  const NO_PLANE := Plane(false, ORIGIN, ORIGIN, 0.0, 0.0, [])
  const UPDATE_SIZE_THRESHOLD: nat := 5

  datatype Config = Config(maxLayer: nat, layerInitNum: seq<nat>, maxPointsNum: nat, fit: seq<Point> -> Plane)
  {
    /** layer_init_num_ is indexed by every layer up to max_layer_. */
    predicate Valid() { |layerInitNum| > maxLayer }
  }

  datatype Tree = Absent | Node(
    layer: nat,
    threshold: nat,        // points_size_threshold_
    center: Vec,           // voxel_center_
    quarter: real,         // quater_length_: a quarter of the cube's edge
    points: seq<Point>,    // temp_points_
    newPoints: nat,        // new_points_
    init: bool,            // init_octo_
    enabled: bool,         // update_enable_
    plane: Plane,          // *plane_ptr_
    kids: seq<Tree>)       // leaves_

  const NO_KIDS: seq<Tree> := [Absent, Absent, Absent, Absent, Absent, Absent, Absent, Absent]

  // ----- octants

  function LeafNum(center: Vec, w: Vec): (k: nat)
    ensures k < 8
  {
    (if w.x > center.x then 4 else 0) + (if w.y > center.y then 2 else 0) + (if w.z > center.z then 1 else 0)
  }

  function ChildCenter(center: Vec, quarter: real, k: nat): Vec {
    Vec(if k / 4 % 2 == 1 then center.x + quarter else center.x - quarter,
        if k / 2 % 2 == 1 then center.y + quarter else center.y - quarter,
        if k % 2 == 1 then center.z + quarter else center.z - quarter)
  }

  predicate InCube(center: Vec, quarter: real, w: Vec) {
    && center.x - 2.0 * quarter <= w.x <= center.x + 2.0 * quarter
    && center.y - 2.0 * quarter <= w.y <= center.y + 2.0 * quarter
    && center.z - 2.0 * quarter <= w.z <= center.z + 2.0 * quarter
  }

  predicate InInterior(center: Vec, quarter: real, w: Vec) {
    && center.x - 2.0 * quarter < w.x < center.x + 2.0 * quarter
    && center.y - 2.0 * quarter < w.y < center.y + 2.0 * quarter
    && center.z - 2.0 * quarter < w.z < center.z + 2.0 * quarter
  }

  /** The eight child cubes tile the parent's: they cover it, stay inside it, and overlap only on faces. */
  lemma ChildrenTile(center: Vec, quarter: real, w: Vec, k: nat)
    requires quarter > 0.0 && k < 8
    ensures InCube(center, quarter, w) ==> InCube(ChildCenter(center, quarter, LeafNum(center, w)), quarter / 2.0, w)
    ensures InCube(ChildCenter(center, quarter, k), quarter / 2.0, w) ==> InCube(center, quarter, w)
    ensures InInterior(ChildCenter(center, quarter, k), quarter / 2.0, w) ==> LeafNum(center, w) == k
  {
    var j := LeafNum(center, w);
    assert j / 4 % 2 == 1 <==> w.x > center.x;
    assert j / 2 % 2 == 1 <==> w.y > center.y;
    assert j % 2 == 1 <==> w.z > center.z;
    assert k == 4 * (k / 4 % 2) + 2 * (k / 2 % 2) + k % 2;
  }

  // ----- construction and splitting

  function NewLeaf(cfg: Config, n: Tree, k: nat): (leaf: Tree)
    requires cfg.Valid() && n.Node? && n.layer < cfg.maxLayer
    ensures leaf.Node? && leaf.layer == n.layer + 1
  {
    Node(n.layer + 1, cfg.layerInitNum[n.layer + 1], ChildCenter(n.center, n.quarter, k), n.quarter / 2.0,
         [], 0, false, true, NO_PLANE, NO_KIDS)
  }

  /** The points that belong to octant `k`, in order. */
  function Octant(center: Vec, points: seq<Point>, k: nat): seq<Point> {
    if points == [] then []
    else
      var last := points[|points| - 1];
      Octant(center, points[..|points| - 1], k) + if LeafNum(center, last.w) == k then [last] else []
  }

  function FilledLeaf(cfg: Config, n: Tree, k: nat): Tree
    requires cfg.Valid() && n.Node? && n.layer < cfg.maxLayer
  {
    var points := Octant(n.center, n.points, k);
    if points == [] then Absent else Fill(NewLeaf(cfg, n, k), points)
  }

  /** Buffer one more point and count it as new. */
  function Push(n: Tree, p: Point): Tree
    requires n.Node?
  {
    n.(newPoints := n.newPoints + 1, points := n.points + [p])
  }

  function Fill(n: Tree, points: seq<Point>): Tree
    requires n.Node?
  {
    n.(points := points, newPoints := |points|)
  }

  function Freeze(n: Tree): Tree
    requires n.Node?
  {
    n.(enabled := false, points := [], newPoints := 0)
  }

  function Init(cfg: Config, n: Tree): (r: Tree)
    requires cfg.Valid() && n.Node? && n.layer <= cfg.maxLayer
    decreases cfg.maxLayer - n.layer, 9
  {
    if |n.points| <= n.threshold then n
    else
      var fitted := n.(plane := cfg.fit(n.points));
      var m := fitted.(init := true, newPoints := 0);
      if m.plane.isPlane then
        if |n.points| > cfg.maxPointsNum then Freeze(m) else m
      else if n.layer >= cfg.maxLayer then m
      else m.(kids := InitLeaves(cfg, fitted, 8))
  }

  /** The first `j` leaves after a cut, each filled with its octant and initialised in turn. */
  function InitLeaves(cfg: Config, n: Tree, j: nat): (leaves: seq<Tree>)
    requires cfg.Valid() && n.Node? && n.layer < cfg.maxLayer && j <= 8
    ensures |leaves| == j
    decreases cfg.maxLayer - n.layer, j
  {
    if j == 0 then []
    else
      var leaf := FilledLeaf(cfg, n, j - 1);
      InitLeaves(cfg, n, j - 1) + [if leaf.Absent? then Absent else Init(cfg, leaf)]
  }

  lemma {:induction false} InitLeafAt(cfg: Config, n: Tree, j: nat, k: nat)
    requires cfg.Valid() && n.Node? && n.layer < cfg.maxLayer && k < j <= 8
    ensures var leaf := FilledLeaf(cfg, n, k);
            InitLeaves(cfg, n, j)[k] == if leaf.Absent? then Absent else Init(cfg, leaf)
    decreases j
  {
    if k < j - 1 {
      InitLeafAt(cfg, n, j - 1, k);
    }
  }

  /** Structure that every operation relies on and keeps. */
  predicate Shaped(cfg: Config, n: Tree) {
    n.Node? ==>
      && n.layer <= cfg.maxLayer
      && |n.kids| == 8
      && (n.layer == cfg.maxLayer ==> n.kids == NO_KIDS)
      && forall k :: 0 <= k < 8 ==> Shaped(cfg, n.kids[k]) && (n.kids[k].Node? ==> n.kids[k].layer == n.layer + 1)
  }

  /** Buffer one more point; refit once more than UPDATE_SIZE_THRESHOLD points are new. */
  function Buffer(cfg: Config, n: Tree, p: Point): Tree
    requires n.Node?
  {
    var m := Push(n, p);
    if m.newPoints > UPDATE_SIZE_THRESHOLD then m.(plane := cfg.fit(m.points), newPoints := 0) else m
  }

  /** Where UpdateOctoTree sends `p` when the node is split: the octant's leaf, created if missing. */
  function Leaf(cfg: Config, n: Tree, w: Vec): (leaf: Tree)
    requires cfg.Valid() && n.Node? && Shaped(cfg, n) && n.layer < cfg.maxLayer
    ensures leaf.Node? && Shaped(cfg, leaf) && leaf.layer == n.layer + 1
  {
    var k := LeafNum(n.center, w);
    if n.kids[k].Absent? then NewLeaf(cfg, n, k) else n.kids[k]
  }

  function Update(cfg: Config, n: Tree, p: Point): (r: Tree)
    requires cfg.Valid() && n.Node? && Shaped(cfg, n)
    ensures r.Node?
    decreases cfg.maxLayer - n.layer
  {
    if !n.init then
      Init(cfg, Push(n, p))
    else if n.plane.isPlane then
      if !n.enabled then n
      else
        var m := Buffer(cfg, n, p);
        if |m.points| >= cfg.maxPointsNum then Freeze(m) else m
    else if n.layer < cfg.maxLayer then
      n.(kids := n.kids[LeafNum(n.center, p.w) := Update(cfg, Leaf(cfg, n, p.w), p)])
    else if !n.enabled then n
    else
      var m := Buffer(cfg, n, p);
      if |m.points| > cfg.maxPointsNum then Freeze(m) else m
  }

  function Find(cfg: Config, n: Tree, w: Vec): (r: Tree)
    requires n.Node? && Shaped(cfg, n)
    ensures r.Node?
  {
    if !n.init || n.plane.isPlane || n.layer >= cfg.maxLayer then n
    else
      var kid := n.kids[LeafNum(n.center, w)];
      if kid.Node? then Find(cfg, kid, w) else n
  }

  // ----- the invariant of every reachable tree

  /**
   What every reachable node satisfies. `bound` limits the buffers; `bound >= maxPointsNum` and
   `bound > threshold` for every layer, so the least such bound is max(max_points_num_, largest threshold + 1).
   */
  predicate NodeInv(cfg: Config, bound: nat, n: Tree)
    requires cfg.Valid() && n.Node? && n.layer <= cfg.maxLayer
  {
    && n.threshold == cfg.layerInitNum[n.layer]
    && n.quarter > 0.0
    // an uninitialised node only collects, and has at most `threshold` points
    && (!n.init ==> n.enabled && n.kids == NO_KIDS && n.plane == NO_PLANE && n.newPoints == |n.points| <= n.threshold)
    // the cached plane lags behind the buffer by the newest `newPoints` points, at most five
    && (n.init && n.enabled ==>
          && n.newPoints <= UPDATE_SIZE_THRESHOLD && n.newPoints <= |n.points|
          && n.plane == cfg.fit(n.points[..|n.points| - n.newPoints]))
    // a frozen node is initialised and holds nothing
    && (!n.enabled ==> n.init && n.points == [] && n.newPoints == 0)
    // a plane that still collects is not over max_points_num_
    && (n.init && n.enabled && n.plane.isPlane ==> |n.points| <= cfg.maxPointsNum)
    // planes are leaves
    && (n.plane.isPlane ==> n.kids == NO_KIDS)
    // buffers are bounded, and hold only points of the node's own cube
    && |n.points| <= bound
    && (forall i :: 0 <= i < |n.points| ==> InCube(n.center, n.quarter, n.points[i].w))
    // children sit in their octants
    && (forall k :: 0 <= k < |n.kids| && n.kids[k].Node? ==>
          n.kids[k].center == ChildCenter(n.center, n.quarter, k) && n.kids[k].quarter == n.quarter / 2.0)
  }

  predicate Inv(cfg: Config, bound: nat, n: Tree)
    requires cfg.Valid()
    decreases n
  {
    n.Node? ==>
      && Shaped(cfg, n)
      && NodeInv(cfg, bound, n)
      && forall k :: 0 <= k < 8 ==> Inv(cfg, bound, n.kids[k])
  }

  predicate Bounds(cfg: Config, bound: nat) {
    && cfg.Valid()
    && cfg.maxPointsNum <= bound
    && forall i :: 0 <= i <= cfg.maxLayer ==> cfg.layerInitNum[i] < bound
  }

  /** A node that has only collected points so far, possibly one too many. */
  predicate Collecting(cfg: Config, bound: nat, n: Tree)
    requires cfg.Valid()
  {
    && n.Node? && n.layer <= cfg.maxLayer && n.threshold == cfg.layerInitNum[n.layer] && n.quarter > 0.0
    && !n.init && n.enabled && n.kids == NO_KIDS && n.plane == NO_PLANE
    && n.newPoints == |n.points| <= bound
    && forall i :: 0 <= i < |n.points| ==> InCube(n.center, n.quarter, n.points[i].w)
  }

  lemma {:induction false} OctantPoints(center: Vec, quarter: real, points: seq<Point>, k: nat)
    requires quarter > 0.0 && k < 8 && forall i :: 0 <= i < |points| ==> InCube(center, quarter, points[i].w)
    ensures |Octant(center, points, k)| <= |points|
    ensures forall i :: 0 <= i < |Octant(center, points, k)| ==>
              InCube(ChildCenter(center, quarter, k), quarter / 2.0, Octant(center, points, k)[i].w)
  {
    if points != [] {
      OctantPoints(center, quarter, points[..|points| - 1], k);
      ChildrenTile(center, quarter, points[|points| - 1].w, k);
    }
  }

  lemma {:induction false} InitInv(cfg: Config, bound: nat, n: Tree)
    requires Bounds(cfg, bound) && Collecting(cfg, bound, n)
    ensures Inv(cfg, bound, Init(cfg, n))
    decreases cfg.maxLayer - n.layer, 1
  {
    var fitted := n.(plane := cfg.fit(n.points));
    if |n.points| > n.threshold && !fitted.plane.isPlane && n.layer < cfg.maxLayer {
      forall k | 0 <= k < 8 ensures ChildInv(cfg, bound, n, k, InitLeaves(cfg, fitted, 8)[k]) {
        InitLeafInv(cfg, bound, n, k);
      }
    }
    assert n.points[..|n.points|] == n.points;
  }

  /** `kid` is the missing or well-formed child of `n` in octant `k`. */
  predicate ChildInv(cfg: Config, bound: nat, n: Tree, k: nat, kid: Tree)
    requires cfg.Valid() && n.Node?
  {
    Inv(cfg, bound, kid) &&
    (kid.Node? ==>
       kid.layer == n.layer + 1 && kid.center == ChildCenter(n.center, n.quarter, k) && kid.quarter == n.quarter / 2.0)
  }

  lemma {:induction false} InitLeafInv(cfg: Config, bound: nat, n: Tree, k: nat)
    requires Bounds(cfg, bound) && Collecting(cfg, bound, n) && n.layer < cfg.maxLayer && k < 8
    ensures ChildInv(cfg, bound, n, k, InitLeaves(cfg, n.(plane := cfg.fit(n.points)), 8)[k])
    decreases cfg.maxLayer - n.layer, 0
  {
    var fitted := n.(plane := cfg.fit(n.points));
    OctantPoints(n.center, n.quarter, n.points, k);
    InitLeafAt(cfg, fitted, 8, k);
    var leaf := FilledLeaf(cfg, fitted, k);
    if leaf.Node? {
      InitInv(cfg, bound, leaf);
      InitPlace(cfg, leaf);
    }
  }

  lemma InitPlace(cfg: Config, n: Tree)
    requires cfg.Valid() && n.Node? && n.layer <= cfg.maxLayer
    ensures var r := Init(cfg, n); r.Node? && r.layer == n.layer && r.center == n.center && r.quarter == n.quarter
  {
  }

  lemma LeafInv(cfg: Config, bound: nat, n: Tree, w: Vec)
    requires Bounds(cfg, bound) && n.Node? && Inv(cfg, bound, n) && InCube(n.center, n.quarter, w)
    requires n.layer < cfg.maxLayer
    ensures var leaf := Leaf(cfg, n, w);
            && Inv(cfg, bound, leaf)
            && leaf.center == ChildCenter(n.center, n.quarter, LeafNum(n.center, w))
            && leaf.quarter == n.quarter / 2.0 && InCube(leaf.center, leaf.quarter, w)
  {
    ChildrenTile(n.center, n.quarter, w, 0);
  }

  /** Replacing one child by a tree that keeps the invariant and the child's place keeps the invariant. */
  lemma ReplaceKidInv(cfg: Config, bound: nat, n: Tree, k: nat, kid: Tree)
    requires Bounds(cfg, bound) && n.Node? && Inv(cfg, bound, n) && k < 8
    requires n.init && !n.plane.isPlane && n.layer < cfg.maxLayer
    requires kid.Node? && Inv(cfg, bound, kid) && kid.layer == n.layer + 1
    requires kid.center == ChildCenter(n.center, n.quarter, k) && kid.quarter == n.quarter / 2.0
    ensures Inv(cfg, bound, n.(kids := n.kids[k := kid]))
  {
  }

  /** One update keeps the invariant, for every point of the node's cube. */
  lemma {:induction false} UpdateInv(cfg: Config, bound: nat, n: Tree, p: Point)
    requires Bounds(cfg, bound) && n.Node? && Inv(cfg, bound, n) && InCube(n.center, n.quarter, p.w)
    ensures Inv(cfg, bound, Update(cfg, n, p))
    ensures var r := Update(cfg, n, p); r.layer == n.layer && r.center == n.center && r.quarter == n.quarter
    decreases cfg.maxLayer - n.layer
  {
    hide Init;
    hide NodeInv;
    hide Buffer;
    if !n.init {
      CollectMore(cfg, bound, n, p);
      InitInv(cfg, bound, Push(n, p));
      InitPlace(cfg, Push(n, p));
    } else if !n.plane.isPlane && n.layer < cfg.maxLayer {
      LeafInv(cfg, bound, n, p.w);
      var leaf := Leaf(cfg, n, p.w);
      UpdateInv(cfg, bound, leaf, p);
      ReplaceKidInv(cfg, bound, n, LeafNum(n.center, p.w), Update(cfg, leaf, p));
    } else if n.enabled {
      BufferingInv(cfg, bound, n, p);
    }
  }

  lemma CollectMore(cfg: Config, bound: nat, n: Tree, p: Point)
    requires Bounds(cfg, bound) && n.Node? && Inv(cfg, bound, n) && InCube(n.center, n.quarter, p.w) && !n.init
    ensures Collecting(cfg, bound, Push(n, p))
  {
  }

  /** A node that buffers, and freezes when it is full, keeps the invariant. */
  lemma BufferingInv(cfg: Config, bound: nat, n: Tree, p: Point)
    requires Bounds(cfg, bound) && n.Node? && Inv(cfg, bound, n) && InCube(n.center, n.quarter, p.w)
    requires n.init && n.enabled && (n.plane.isPlane || n.layer >= cfg.maxLayer)
    ensures var r := Update(cfg, n, p);
            Inv(cfg, bound, r) && r.layer == n.layer && r.center == n.center && r.quarter == n.quarter
  {
    hide Init;
    hide Fill;
    BufferInv(cfg, bound, n, p);
  }

  lemma BufferInv(cfg: Config, bound: nat, n: Tree, p: Point)
    requires Bounds(cfg, bound) && n.Node? && Inv(cfg, bound, n) && InCube(n.center, n.quarter, p.w)
    requires n.init && n.enabled
    ensures var m := Buffer(cfg, n, p);
            && m.newPoints <= UPDATE_SIZE_THRESHOLD && m.newPoints <= |m.points|
            && m.plane == cfg.fit(m.points[..|m.points| - m.newPoints])
            && forall i :: 0 <= i < |m.points| ==> InCube(n.center, n.quarter, m.points[i].w)
  {
    var m := Buffer(cfg, n, p);
    if m.newPoints == 0 {
      assert m.points[..|m.points|] == m.points;
    } else {
      assert m.points[..|m.points| - m.newPoints] == n.points[..|n.points| - n.newPoints];
    }
  }
}
