/** The voxel map: octree roots keyed by the cell of a uniform grid (VoxelMapManager). */
module VoxelMap {
  import opened VoxelTree
  import opened VoxelTreeFacts

  datatype Key = Key(x: int, y: int, z: int)

  /** Conversion of a floating-point number to an integer: towards zero. */
  function Truncate(r: real): int { if r >= 0.0 then r.Floor else -((-r).Floor) }

  /** The scaled coordinate, one less when it is negative. */
  function Loc(w: real, size: real): real
    requires size > 0.0
  {
    if w / size < 0.0 then w / size - 1.0 else w / size
  }

  function KeyOf(w: Vec, size: real): Key
    requires size > 0.0
  {
    Key(Truncate(Loc(w.x, size)), Truncate(Loc(w.y, size)), Truncate(Loc(w.z, size)))
  }

  function KeyCenter(key: Key, size: real): Vec {
    Vec((0.5 + key.x as real) * size, (0.5 + key.y as real) * size, (0.5 + key.z as real) * size)
  }

  /** The key is the floor of the scaled coordinate, except that an exact negative multiple goes one cell down. */
  lemma TruncatedIsFloor(w: real, size: real)
    requires size > 0.0
    ensures var q := w / size;
            Truncate(Loc(w, size)) == if q < 0.0 && q == q.Floor as real then q.Floor - 1 else q.Floor
  {
  }

  lemma Unscale(w: real, size: real)
    requires size > 0.0
    ensures w / size * size == w
  {
  }

  lemma Between(k: real, q: real, size: real, w: real)
    requires size > 0.0 && k <= q <= k + 1.0 && w == q * size
    ensures k * size <= w <= k * size + size
  {
    var below, above := q - k, k + 1.0 - q;
    assert below * size >= 0.0 && below * size == w - k * size;
    assert above * size >= 0.0 && above * size == k * size + size - w;
  }

  lemma Half(k: real, size: real)
    ensures (0.5 + k) * size == k * size + size / 2.0
  {
  }

  lemma CellBrackets(w: real, size: real)
    requires size > 0.0
    ensures var k := Truncate(Loc(w, size)); k as real <= w / size <= k as real + 1.0
  {
    TruncatedIsFloor(w, size);
  }

  lemma CellHolds(w: real, size: real)
    requires size > 0.0
    ensures var c := (0.5 + Truncate(Loc(w, size)) as real) * size;
            c - 2.0 * (size / 4.0) <= w <= c + 2.0 * (size / 4.0)
  {
    hide Truncate;
    hide Loc;
    var k := Truncate(Loc(w, size)) as real;
    CellBrackets(w, size);
    Unscale(w, size);
    Between(k, w / size, size, w);
    Half(k, size);
    var low := k * size;
    assert low <= w <= low + size;
    assert (0.5 + k) * size == low + size / 2.0;
  }

  /** Every point lies in the closed cube of its cell, boundary cases included. */
  lemma RootHolds(w: Vec, size: real)
    requires size > 0.0
    ensures InCube(KeyCenter(KeyOf(w, size), size), size / 4.0, w)
  {
    hide Truncate;
    hide Loc;
    CellHolds(w.x, size);
    CellHolds(w.y, size);
    CellHolds(w.z, size);
  }

  // ----- the map as a value

  function NewRoot(cfg: Config, size: real, key: Key): (root: Tree)
    requires cfg.Valid()
    ensures root.Node?
  {
    Node(0, cfg.layerInitNum[0], KeyCenter(key, size), size / 4.0, [], 0, false, true, NO_PLANE, NO_KIDS)
  }

  predicate RootInv(cfg: Config, bound: nat, size: real, key: Key, n: Tree)
    requires cfg.Valid()
  {
    n.Node? && n.layer == 0 && n.center == KeyCenter(key, size) && n.quarter == size / 4.0 && Inv(cfg, bound, n)
  }

  ghost predicate MapInv(cfg: Config, bound: nat, size: real, m: map<Key, Tree>)
    requires cfg.Valid()
  {
    forall key :: key in m ==> RootInv(cfg, bound, size, key, m[key])
  }

  /** The tree that a point of cell `key` is inserted into. */
  function RootFor(cfg: Config, size: real, m: map<Key, Tree>, key: Key): Tree
    requires cfg.Valid()
  {
    if key in m then m[key] else NewRoot(cfg, size, key)
  }

  lemma NewRootInv(cfg: Config, bound: nat, size: real, key: Key)
    requires Bounds(cfg, bound) && size > 0.0
    ensures RootInv(cfg, bound, size, key, NewRoot(cfg, size, key))
  {
    var root := NewRoot(cfg, size, key);
    assert forall k :: 0 <= k < 8 ==> NO_KIDS[k] == Absent;
    assert Shaped(cfg, root);
    assert NodeInv(cfg, bound, root);
  }

  lemma RootForInv(cfg: Config, bound: nat, size: real, m: map<Key, Tree>, p: Point)
    requires Bounds(cfg, bound) && size > 0.0 && MapInv(cfg, bound, size, m)
    ensures var root := RootFor(cfg, size, m, KeyOf(p.w, size));
            RootInv(cfg, bound, size, KeyOf(p.w, size), root) && InCube(root.center, root.quarter, p.w)
  {
    RootHolds(p.w, size);
    NewRootInv(cfg, bound, size, KeyOf(p.w, size));
  }

  ghost function Insert(cfg: Config, bound: nat, size: real, m: map<Key, Tree>, p: Point): (r: map<Key, Tree>)
    requires Bounds(cfg, bound) && size > 0.0 && MapInv(cfg, bound, size, m)
    ensures MapInv(cfg, bound, size, r)
  {
    var key := KeyOf(p.w, size);
    RootForInv(cfg, bound, size, m, p);
    UpdateInv(cfg, bound, RootFor(cfg, size, m, key), p);
    m[key := Update(cfg, RootFor(cfg, size, m, key), p)]
  }

  /** UpdateVoxelMap: the points of a scan, one after the other. */
  ghost function InsertAll(cfg: Config, bound: nat, size: real, m: map<Key, Tree>, ps: seq<Point>): (r: map<Key, Tree>)
    requires Bounds(cfg, bound) && size > 0.0 && MapInv(cfg, bound, size, m)
    ensures MapInv(cfg, bound, size, r)
    decreases |ps|
  {
    if ps == [] then m else Insert(cfg, bound, size, InsertAll(cfg, bound, size, m, ps[..|ps| - 1]), ps[|ps| - 1])
  }

  /** The cell of `p` exists and some node on the path of `p` in it holds `p` or is frozen. */
  ghost predicate Kept(cfg: Config, bound: nat, size: real, m: map<Key, Tree>, p: Point)
    requires cfg.Valid() && size > 0.0 && MapInv(cfg, bound, size, m)
  {
    var key := KeyOf(p.w, size);
    key in m && RootInv(cfg, bound, size, key, m[key]) && Retained(cfg, m[key], p)
  }

  /** `b` may follow `a`: no cell disappears and every tree only evolves. */
  ghost predicate MapEvolves(cfg: Config, bound: nat, size: real, a: map<Key, Tree>, b: map<Key, Tree>)
    requires cfg.Valid() && MapInv(cfg, bound, size, a) && MapInv(cfg, bound, size, b)
  {
    forall key :: key in a ==>
      && key in b && RootInv(cfg, bound, size, key, a[key]) && RootInv(cfg, bound, size, key, b[key])
      && Evolves(cfg, a[key], b[key])
  }

  /** The tree holds `p`, or is frozen, at the node that find_correspond returns for it. */
  predicate Found(cfg: Config, n: Tree, p: Point)
    requires cfg.Valid()
  {
    n.Node? && Shaped(cfg, n) && Holds(Find(cfg, n, p.w), p) && Retained(cfg, n, p)
  }

  lemma InsertKeeps(cfg: Config, bound: nat, size: real, m: map<Key, Tree>, p: Point, q: Point)
    requires Bounds(cfg, bound) && size > 0.0 && MapInv(cfg, bound, size, m)
    ensures var r := Insert(cfg, bound, size, m, p);
            && Kept(cfg, bound, size, r, p) && KeyOf(p.w, size) in r && Found(cfg, r[KeyOf(p.w, size)], p)
            && (Kept(cfg, bound, size, m, q) ==> Kept(cfg, bound, size, r, q))
  {
    var key := KeyOf(p.w, size);
    RootForInv(cfg, bound, size, m, p);
    var root := RootFor(cfg, size, m, key);
    FindAfterUpdate(cfg, bound, root, p);
    FindRetains(cfg, Update(cfg, root, p), p);
    if Kept(cfg, bound, size, m, q) && KeyOf(q.w, size) == key {
      UpdateRetains(cfg, bound, root, p, q);
    }
  }

  lemma InsertEvolves(cfg: Config, bound: nat, size: real, m: map<Key, Tree>, p: Point)
    requires Bounds(cfg, bound) && size > 0.0 && MapInv(cfg, bound, size, m)
    ensures MapEvolves(cfg, bound, size, m, Insert(cfg, bound, size, m, p))
  {
    var r, key := Insert(cfg, bound, size, m, p), KeyOf(p.w, size);
    RootForInv(cfg, bound, size, m, p);
    UpdateEvolves(cfg, bound, RootFor(cfg, size, m, key), p);
    forall k | k in m ensures Evolves(cfg, m[k], r[k]) {
      if k != key {
        EvolvesReflexive(cfg, m[k]);
      }
    }
  }

  lemma MapEvolvesReflexive(cfg: Config, bound: nat, size: real, a: map<Key, Tree>)
    requires cfg.Valid() && MapInv(cfg, bound, size, a)
    ensures MapEvolves(cfg, bound, size, a, a)
  {
    forall k | k in a ensures RootInv(cfg, bound, size, k, a[k]) && Evolves(cfg, a[k], a[k]) {
      EvolvesReflexive(cfg, a[k]);
    }
  }

  lemma MapEvolvesTransitive(cfg: Config, bound: nat, size: real,
          a: map<Key, Tree>, b: map<Key, Tree>, c: map<Key, Tree>)
    requires cfg.Valid() && MapInv(cfg, bound, size, a) && MapInv(cfg, bound, size, b) && MapInv(cfg, bound, size, c)
    requires MapEvolves(cfg, bound, size, a, b) && MapEvolves(cfg, bound, size, b, c)
    ensures MapEvolves(cfg, bound, size, a, c)
  {
    forall k | k in a
      ensures k in c && RootInv(cfg, bound, size, k, a[k]) && RootInv(cfg, bound, size, k, c[k])
                && Evolves(cfg, a[k], c[k])
    {
      EvolvesTransitive(cfg, a[k], b[k], c[k]);
    }
  }

  /**
   Over every run of UpdateVoxelMap: trees only evolve, every point inserted so far is kept, and the newest one is
   found where find_correspond looks.
   */
  lemma {:induction false} MapRunKeeps(cfg: Config, bound: nat, size: real, m: map<Key, Tree>, ps: seq<Point>)
    requires Bounds(cfg, bound) && size > 0.0 && MapInv(cfg, bound, size, m)
    ensures var r := InsertAll(cfg, bound, size, m, ps);
            && MapEvolves(cfg, bound, size, m, r)
            && (forall i :: 0 <= i < |ps| ==> Kept(cfg, bound, size, r, ps[i]))
            && (ps != [] ==> var p := ps[|ps| - 1]; KeyOf(p.w, size) in r && Found(cfg, r[KeyOf(p.w, size)], p))
    decreases |ps|
  {
    hide Found;
    hide KeyOf;
    hide Kept;
    hide MapEvolves;
    hide Insert;
    hide MapInv;
    if ps == [] {
      MapEvolvesReflexive(cfg, bound, size, m);
    } else {
      var init, p := ps[..|ps| - 1], ps[|ps| - 1];
      MapRunKeeps(cfg, bound, size, m, init);
      var before := InsertAll(cfg, bound, size, m, init);
      var r := Insert(cfg, bound, size, before, p);
      InsertEvolves(cfg, bound, size, before, p);
      MapEvolvesTransitive(cfg, bound, size, m, before, r);
      InsertKeeps(cfg, bound, size, before, p, p);
      forall i | 0 <= i < |ps| ensures Kept(cfg, bound, size, r, ps[i]) {
        InsertKeeps(cfg, bound, size, before, p, ps[i]);
        assert i < |init| ==> ps[i] == init[i];
      }
    }
  }

  // ----- the first scan: BuildVoxelMap

  /** Every point goes into the buffer of its cell's root. */
  function Gather(cfg: Config, size: real, ps: seq<Point>): (m: map<Key, Tree>)
    requires cfg.Valid() && size > 0.0
    ensures forall key :: key in m ==> m[key].Node? && m[key].layer == 0
  {
    if ps == [] then map[]
    else
      var m, p := Gather(cfg, size, ps[..|ps| - 1]), ps[|ps| - 1];
      m[KeyOf(p.w, size) := Push(RootFor(cfg, size, m, KeyOf(p.w, size)), p)]
  }

  /** Then every root is initialised. */
  function Build(cfg: Config, size: real, ps: seq<Point>): map<Key, Tree>
    requires cfg.Valid() && size > 0.0
  {
    Initialised(cfg, Gather(cfg, size, ps))
  }

  predicate Initialisable(m: map<Key, Tree>) {
    forall key :: key in m ==> m[key].Node? && m[key].layer == 0
  }

  function Initialised(cfg: Config, m: map<Key, Tree>): map<Key, Tree>
    requires cfg.Valid() && Initialisable(m)
  {
    map key | key in m :: Init(cfg, m[key])
  }

  /** The root of `key` has collected at most `limit` points. */
  ghost predicate RootCollects(cfg: Config, limit: nat, size: real, key: Key, n: Tree)
    requires cfg.Valid()
  {
    n.Node? && n.layer == 0 && n.center == KeyCenter(key, size) && n.quarter == size / 4.0 && Collecting(cfg, limit, n)
  }

  lemma PushCollects(cfg: Config, limit: nat, size: real, m: map<Key, Tree>, p: Point)
    requires cfg.Valid() && size > 0.0
    requires forall key :: key in m ==> RootCollects(cfg, limit, size, key, m[key])
    ensures var key := KeyOf(p.w, size);
            var root := RootFor(cfg, size, m, key);
            root.Node? && RootCollects(cfg, limit + 1, size, key, Push(root, p))
  {
    hide KeyOf;
    hide KeyCenter;
    hide InCube;
    RootHolds(p.w, size);
  }

  lemma {:induction false} GatherCollects(cfg: Config, size: real, ps: seq<Point>)
    requires cfg.Valid() && size > 0.0
    ensures var m := Gather(cfg, size, ps);
            && (forall key :: key in m ==> RootCollects(cfg, |ps|, size, key, m[key]))
            && forall i :: 0 <= i < |ps| ==> KeyOf(ps[i].w, size) in m && ps[i] in m[KeyOf(ps[i].w, size)].points
  {
    if ps != [] {
      hide KeyOf;
      hide KeyCenter;
      hide InCube;
      var init, p := ps[..|ps| - 1], ps[|ps| - 1];
      GatherCollects(cfg, size, init);
      PushCollects(cfg, |init|, size, Gather(cfg, size, init), p);
      assert forall i :: 0 <= i < |init| ==> init[i] == ps[i];
    }
  }

  /** Collecting within a smaller limit. */
  lemma CollectsMore(cfg: Config, limit: nat, bound: nat, n: Tree)
    requires cfg.Valid() && Collecting(cfg, limit, n) && limit <= bound
    ensures Collecting(cfg, bound, n)
  {
  }

  lemma BuildRoot(cfg: Config, bound: nat, size: real, key: Key, n: Tree, limit: nat)
    requires Bounds(cfg, bound) && size > 0.0 && limit <= bound && RootCollects(cfg, limit, size, key, n)
    ensures RootInv(cfg, bound, size, key, Init(cfg, n))
    ensures forall p :: p in n.points ==> Found(cfg, Init(cfg, n), p)
  {
    hide Init;
    CollectsMore(cfg, limit, bound, n);
    InitInv(cfg, bound, n);
    InitPlace(cfg, n);
    forall p | p in n.points ensures Found(cfg, Init(cfg, n), p) {
      FindAfterInit(cfg, bound, n, p);
      FindRetains(cfg, Init(cfg, n), p);
    }
  }

  /**
   The map built from a first scan of at most `bound` points satisfies the invariant, and every point of the scan is
   found where find_correspond looks.
   */
  lemma BuildKeeps(cfg: Config, bound: nat, size: real, ps: seq<Point>)
    requires Bounds(cfg, bound) && size > 0.0 && |ps| <= bound
    ensures var m := Build(cfg, size, ps);
            && MapInv(cfg, bound, size, m)
            && forall i :: 0 <= i < |ps| ==>
                 Kept(cfg, bound, size, m, ps[i]) && Holds(Find(cfg, m[KeyOf(ps[i].w, size)], ps[i].w), ps[i])
  {
    hide RootInv;
    hide RootCollects;
    hide Init;
    hide KeyOf;
    hide Find;
    hide Retained;
    var g := Gather(cfg, size, ps);
    GatherCollects(cfg, size, ps);
    forall key | key in g
      ensures RootInv(cfg, bound, size, key, Init(cfg, g[key]))
      ensures forall p :: p in g[key].points ==> Found(cfg, Init(cfg, g[key]), p)
    {
      BuildRoot(cfg, bound, size, key, g[key], |ps|);
    }
  }

  // ----- insertions and the clearing of far cells, in any order

  /** The box of cells that sliding keeps. */
  datatype Box = Box(max: Key, min: Key)
  {
    predicate Outside(loc: Key) {
      loc.x > max.x || loc.x < min.x || loc.y > max.y || loc.y < min.y || loc.z > max.z || loc.z < min.z
    }
  }

  ghost function Cleared(m: map<Key, Tree>, box: Box): map<Key, Tree> {
    map key | key in m && !box.Outside(key) :: m[key]
  }

  /** Clearing keeps the invariant, and every point of a cell that stays. */
  lemma ClearedInv(cfg: Config, bound: nat, size: real, m: map<Key, Tree>, box: Box)
    requires cfg.Valid() && size > 0.0 && MapInv(cfg, bound, size, m)
    ensures MapInv(cfg, bound, size, Cleared(m, box))
    ensures forall p: Point :: Kept(cfg, bound, size, Cleared(m, box), p) <==>
              Kept(cfg, bound, size, m, p) && !box.Outside(KeyOf(p.w, size))
  {
    hide RootInv;
    hide KeyOf;
  }

  datatype MapOp = Add(p: Point) | Clear(box: Box)

  ghost function Apply(cfg: Config, bound: nat, size: real, m: map<Key, Tree>, op: MapOp): (r: map<Key, Tree>)
    requires Bounds(cfg, bound) && size > 0.0 && MapInv(cfg, bound, size, m)
    ensures MapInv(cfg, bound, size, r)
  {
    match op
    case Add(p) => Insert(cfg, bound, size, m, p)
    case Clear(box) => ClearedInv(cfg, bound, size, m, box); Cleared(m, box)
  }

  ghost function ApplyAll(cfg: Config, bound: nat, size: real, m: map<Key, Tree>, ops: seq<MapOp>): (r: map<Key, Tree>)
    requires Bounds(cfg, bound) && size > 0.0 && MapInv(cfg, bound, size, m)
    ensures MapInv(cfg, bound, size, r)
    decreases |ops|
  {
    if ops == [] then m else Apply(cfg, bound, size, ApplyAll(cfg, bound, size, m, ops[..|ops| - 1]), ops[|ops| - 1])
  }

  /** The operation does not clear cell `key`. */
  predicate Spares(op: MapOp, key: Key) {
    op.Clear? ==> !op.box.Outside(key)
  }

  /** No operation from number `k` on clears cell `key`. */
  predicate Spared(ops: seq<MapOp>, k: nat, key: Key) {
    forall i :: k <= i < |ops| ==> Spares(ops[i], key)
  }

  predicate AddsTo(op: MapOp, size: real, key: Key)
    requires size > 0.0
  {
    op.Add? && KeyOf(op.p.w, size) == key
  }

  /** What an operation does to the points in the map and to the cells of the map. */
  lemma ApplyKeeps(cfg: Config, bound: nat, size: real, m: map<Key, Tree>, op: MapOp)
    requires Bounds(cfg, bound) && size > 0.0 && MapInv(cfg, bound, size, m)
    ensures var r := Apply(cfg, bound, size, m, op);
            && (op.Add? ==> Kept(cfg, bound, size, r, op.p))
            && (forall q: Point :: Kept(cfg, bound, size, m, q) && Spares(op, KeyOf(q.w, size)) ==>
                 Kept(cfg, bound, size, r, q))
            && forall key :: key in r <==> AddsTo(op, size, key) || (key in m && Spares(op, key))
  {
    hide KeyOf;
    hide RootInv;
    hide RootFor;
    hide Update;
    match op {
      case Add(p) =>
        hide Kept;
        forall q: Point
          ensures Kept(cfg, bound, size, m, q) ==> Kept(cfg, bound, size, Insert(cfg, bound, size, m, p), q)
        {
          InsertKeeps(cfg, bound, size, m, p, q);
        }
        InsertKeeps(cfg, bound, size, m, p, p);
      case Clear(box) =>
        ClearedInv(cfg, bound, size, m, box);
    }
  }

  lemma SparedFront(ops: seq<MapOp>, k: nat, key: Key)
    requires ops != [] && k < |ops|
    ensures Spared(ops, k, key) <==> Spared(ops[..|ops| - 1], k, key) && Spares(ops[|ops| - 1], key)
  {
    var front := ops[..|ops| - 1];
    assert forall i :: k <= i < |front| ==> front[i] == ops[i];
    if Spared(ops, k, key) {
      assert forall i :: k <= i < |front| ==> Spares(ops[i], key);
    }
  }

  /**
   Over every run of insertions and clearings: a point of the map at the start, and a point inserted on the way, is
   kept unless its cell has been cleared since.
   */
  lemma {:induction false} ClearingRunKeeps(cfg: Config, bound: nat, size: real, m: map<Key, Tree>, ops: seq<MapOp>)
    requires Bounds(cfg, bound) && size > 0.0 && MapInv(cfg, bound, size, m)
    ensures var r := ApplyAll(cfg, bound, size, m, ops);
            && (forall q: Point :: Kept(cfg, bound, size, m, q) && Spared(ops, 0, KeyOf(q.w, size)) ==>
                  Kept(cfg, bound, size, r, q))
            && forall i :: 0 <= i < |ops| && ops[i].Add? && Spared(ops, i + 1, KeyOf(ops[i].p.w, size)) ==>
                 Kept(cfg, bound, size, r, ops[i].p)
    decreases |ops|
  {
    if ops != [] {
      hide KeyOf;
      hide Kept;
      hide Apply;
      hide MapInv;
      hide Spared;
      hide Spares;
      hide RootInv;
      hide Bounds;
      var n := |ops| - 1;
      var front, before, r := ops[..n], ApplyAll(cfg, bound, size, m, ops[..n]), ApplyAll(cfg, bound, size, m, ops);
      ClearingRunKeeps(cfg, bound, size, m, front);
      ApplyKeeps(cfg, bound, size, before, ops[n]);
      forall q: Point | Kept(cfg, bound, size, m, q) && Spared(ops, 0, KeyOf(q.w, size))
        ensures Kept(cfg, bound, size, r, q)
      {
        SparedFront(ops, 0, KeyOf(q.w, size));
      }
      forall i | 0 <= i < n && ops[i].Add? && Spared(ops, i + 1, KeyOf(ops[i].p.w, size))
        ensures Kept(cfg, bound, size, r, ops[i].p)
      {
        assert front[i] == ops[i];
        SparedFront(ops, i + 1, KeyOf(ops[i].p.w, size));
      }
    }
  }

  /** The tree of a cell that no operation clears only evolves. */
  lemma {:induction false} ClearingRunEvolves(cfg: Config, bound: nat, size: real, m: map<Key, Tree>, ops: seq<MapOp>,
          key: Key)
    requires Bounds(cfg, bound) && size > 0.0 && MapInv(cfg, bound, size, m)
    requires key in m && Spared(ops, 0, key)
    ensures var r := ApplyAll(cfg, bound, size, m, ops);
            && key in r && RootInv(cfg, bound, size, key, m[key]) && RootInv(cfg, bound, size, key, r[key])
            && Evolves(cfg, m[key], r[key])
    decreases |ops|
  {
    hide KeyOf;
    hide Update;
    hide RootFor;
    if ops == [] {
      EvolvesReflexive(cfg, m[key]);
    } else {
      var front, op := ops[..|ops| - 1], ops[|ops| - 1];
      SparedFront(ops, 0, key);
      ClearingRunEvolves(cfg, bound, size, m, front, key);
      var before := ApplyAll(cfg, bound, size, m, front);
      ApplyEvolves(cfg, bound, size, before, op, key);
      EvolvesTransitive(cfg, m[key], before[key], Apply(cfg, bound, size, before, op)[key]);
    }
  }

  lemma ApplyEvolves(cfg: Config, bound: nat, size: real, m: map<Key, Tree>, op: MapOp, key: Key)
    requires Bounds(cfg, bound) && size > 0.0 && MapInv(cfg, bound, size, m) && key in m && Spares(op, key)
    ensures var r := Apply(cfg, bound, size, m, op);
            && key in r && RootInv(cfg, bound, size, key, m[key]) && RootInv(cfg, bound, size, key, r[key])
            && Evolves(cfg, m[key], r[key])
  {
    hide Evolves;
    hide RootInv;
    match op {
      case Add(p) => InsertEvolves(cfg, bound, size, m, p);
      case Clear(box) =>
        ClearedInv(cfg, bound, size, m, box);
        assert RootInv(cfg, bound, size, key, m[key]);
        Reflexive(cfg, bound, size, key, m[key]);
    }
  }

  lemma Reflexive(cfg: Config, bound: nat, size: real, key: Key, n: Tree)
    requires cfg.Valid() && RootInv(cfg, bound, size, key, n)
    ensures Shaped(cfg, n) && Evolves(cfg, n, n)
  {
    EvolvesReflexive(cfg, n);
  }

  /** Something is inserted into cell `key` that is not cleared afterwards. */
  predicate AddedSince(size: real, ops: seq<MapOp>, key: Key)
    requires size > 0.0
  {
    exists i :: 0 <= i < |ops| && AddsTo(ops[i], size, key) && Spared(ops, i + 1, key)
  }

  lemma AddedFront(size: real, ops: seq<MapOp>, key: Key)
    requires size > 0.0 && ops != []
    ensures var front, last := ops[..|ops| - 1], ops[|ops| - 1];
            AddedSince(size, ops, key) <==>
              AddsTo(last, size, key) || (AddedSince(size, front, key) && Spares(last, key))
  {
    hide KeyOf;
    var n := |ops| - 1;
    var front, last := ops[..n], ops[n];
    if i :| 0 <= i < n && AddsTo(ops[i], size, key) && Spared(ops, i + 1, key) {
      SparedFront(ops, i + 1, key);
      assert AddsTo(front[i], size, key);
    }
    if i :| 0 <= i < n && AddsTo(front[i], size, key) && Spared(front, i + 1, key) {
      SparedFront(ops, i + 1, key);
      assert AddsTo(ops[i], size, key);
    }
    if AddsTo(last, size, key) {
      assert Spared(ops, n + 1, key);
    }
  }

  /** Cell `key` is in the map after a run exactly when it was there, or was inserted into, and is not cleared since. */
  lemma {:induction false} CellsExactly(cfg: Config, bound: nat, size: real, m: map<Key, Tree>, ops: seq<MapOp>,
          key: Key)
    requires Bounds(cfg, bound) && size > 0.0 && MapInv(cfg, bound, size, m)
    ensures key in ApplyAll(cfg, bound, size, m, ops) <==>
              (key in m && Spared(ops, 0, key)) || AddedSince(size, ops, key)
    decreases |ops|
  {
    if ops != [] {
      hide AddedSince;
      hide Spares;
      hide AddsTo;
      hide Kept;
      hide Apply;
      hide MapInv;
      var n := |ops| - 1;
      var front, last := ops[..n], ops[n];
      CellsExactly(cfg, bound, size, m, front, key);
      ApplyKeeps(cfg, bound, size, ApplyAll(cfg, bound, size, m, front), last);
      SparedFront(ops, 0, key);
      AddedFront(size, ops, key);
    }
  }

  /**
   From the first scan on: no point leaves the map except by freezing or when its cell is cleared, and the tree of a
   cell that is not cleared only evolves.
   */
  lemma WholeRun(cfg: Config, bound: nat, size: real, first: seq<Point>, later: seq<MapOp>)
    requires Bounds(cfg, bound) && size > 0.0 && |first| <= bound
    ensures var m := Build(cfg, size, first);
            && MapInv(cfg, bound, size, m)
            && var r := ApplyAll(cfg, bound, size, m, later);
            && (forall key :: key in m && Spared(later, 0, key) ==>
                  && key in r && RootInv(cfg, bound, size, key, m[key]) && RootInv(cfg, bound, size, key, r[key])
                  && Evolves(cfg, m[key], r[key]))
            && (forall p :: p in first && Spared(later, 0, KeyOf(p.w, size)) ==> Kept(cfg, bound, size, r, p))
            && forall i :: 0 <= i < |later| && later[i].Add? && Spared(later, i + 1, KeyOf(later[i].p.w, size)) ==>
                 Kept(cfg, bound, size, r, later[i].p)
  {
    hide Kept;
    hide MapInv;
    hide ApplyAll;
    hide Build;
    hide Spared;
    hide KeyOf;
    BuildKeeps(cfg, bound, size, first);
    hide RootInv;
    hide Evolves;
    var m := Build(cfg, size, first);
    ClearingRunKeeps(cfg, bound, size, m, later);
    forall key | key in m && Spared(later, 0, key)
      ensures key in ApplyAll(cfg, bound, size, m, later) &&
              RootInv(cfg, bound, size, key, ApplyAll(cfg, bound, size, m, later)[key])
      ensures RootInv(cfg, bound, size, key, m[key]) && Evolves(cfg, m[key], ApplyAll(cfg, bound, size, m, later)[key])
    {
      ClearingRunEvolves(cfg, bound, size, m, later, key);
    }
  }
}
