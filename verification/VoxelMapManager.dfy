/** The map manager as the program keeps it: a hash map of heap octrees, updated in place. */
module VoxelMapManager {
  import opened Common
  import opened VoxelTree
  import opened VoxelResidual
  import opened VoxelMap
  import opened VoxelOctoTree

  // ----- matching a scan against the map

  /**
   The neighbouring cell tried when the point's own cell gives no match. The comparison mixes the scaled
   coordinate (already lowered by one when negative) with the root's centre in metres, as the program does.
   */
  function NearCoord(loc: real, center: real, quarter: real, k: int): int {
    if loc > center + quarter then k + 1 else if loc < center - quarter then k - 1 else k
  }

  function NearKey(w: Vec, size: real, root: Tree): Key
    requires size > 0.0 && root.Node?
  {
    var key := KeyOf(w, size);
    Key(NearCoord(Loc(w.x, size), root.center.x, root.quarter, key.x),
        NearCoord(Loc(w.y, size), root.center.y, root.quarter, key.y),
        NearCoord(Loc(w.z, size), root.center.z, root.quarter, key.z))
  }

  /** The coordinate of the cell that is tried for coordinate `w`. */
  function Tried(w: real, size: real): int
    requires size > 0.0
  {
    var k := Truncate(Loc(w, size));
    NearCoord(Loc(w, size), CellCenter(k, size), size / 4.0, k)
  }

  function CellCenter(k: int, size: real): real {
    (0.5 + k as real) * size
  }

  /** The cell next to `w`: beyond the face that `w` is nearer to than a quarter of the edge. */
  function Neighbour(w: real, size: real): int
    requires size > 0.0
  {
    var k := Truncate(Loc(w, size));
    if w > (k as real + 0.75) * size then k + 1 else if w < (k as real + 0.25) * size then k - 1 else k
  }

  lemma NearKeyTried(w: Vec, size: real, root: Tree)
    requires size > 0.0 && root.Node? && root.center == KeyCenter(KeyOf(w, size), size) && root.quarter == size / 4.0
    ensures NearKey(w, size, root) == Key(Tried(w.x, size), Tried(w.y, size), Tried(w.z, size))
  {
    CenterAt(KeyOf(w, size), size);
    hide KeyCenter;
    hide CellCenter;
    hide Loc;
    hide NearCoord;
    hide Truncate;
  }

  lemma CenterAt(key: Key, size: real)
    ensures KeyCenter(key, size) == Vec(CellCenter(key.x, size), CellCenter(key.y, size), CellCenter(key.z, size))
  {
  }

  /** At most one cell away, up only from above the centre and down only from below it, in the program's units. */
  lemma TriedIsNear(w: real, size: real)
    requires size > 0.0
    ensures var k := Truncate(Loc(w, size));
            var center := (0.5 + k as real) * size;
            && k - 1 <= Tried(w, size) <= k + 1
            && (Tried(w, size) > k ==> Loc(w, size) > center)
            && (Tried(w, size) < k ==> Loc(w, size) < center)
  {
  }

  lemma Scaled(t: real, size: real)
    requires size > 0.0
    ensures t * size / size == t
  {
  }

  /** In cell 0, `w` being `t` edges in. */
  lemma InCellZero(t: real, size: real)
    requires size > 0.0 && 0.0 <= t < 1.0
    ensures Truncate(Loc(t * size, size)) == 0 && Loc(t * size, size) == t
  {
    Scaled(t, size);
  }

  lemma Compare(a: real, b: real, size: real)
    requires size > 0.0
    ensures a < b <==> a * size < b * size
  {
    if a < b {
      assert (b - a) * size > 0.0;
    } else {
      assert (a - b) * size >= 0.0;
    }
  }

  /** A coordinate in cell 0 for which the wrong cell is tried, at every size but one. */
  function Mistaken(size: real): real {
    if size < 1.0 then 0.75 else if size < 1.3 then 0.75 * size else 0.9
  }

  lemma WrongCell(size: real)
    requires size > 0.0 && size != 1.0
    ensures var w := Mistaken(size) * size; w >= 0.0 && Tried(w, size) != Neighbour(w, size)
  {
    var t := Mistaken(size);
    InCellZero(t, size);
    Compare(0.75, t, size);
    Compare(t, 0.25, size);
    assert t * size >= 0.0;
    hide Truncate;
    hide Loc;
    assert (0.5 + 0.0) * size + size / 4.0 == 0.75 * size;
  }

  lemma RightCell(w: real)
    requires w >= 0.0
    ensures Tried(w, 1.0) == Neighbour(w, 1.0)
  {
  }

  /**
   The comparison mixes scaled and metric coordinates: the cell tried is the neighbour for all coordinates from zero on
   exactly at size 1; below zero, at that size, exactly within a quarter of the lower face.
   */
  lemma TriedExactly(size: real)
    requires size > 0.0
    ensures (forall w: real :: w >= 0.0 ==> Tried(w, size) == Neighbour(w, size)) <==> size == 1.0
    ensures forall w: real :: w < 0.0 ==>
              (Tried(w, 1.0) == Neighbour(w, 1.0) <==> w < Truncate(Loc(w, 1.0)) as real + 0.25)
  {
    if size == 1.0 {
      forall w: real | w >= 0.0 ensures Tried(w, size) == Neighbour(w, size) {
        RightCell(w);
      }
    } else {
      WrongCell(size);
    }
    forall w: real | w < 0.0
      ensures Tried(w, 1.0) == Neighbour(w, 1.0) <==> w < Truncate(Loc(w, 1.0)) as real + 0.25
    {
      TriedBelowZero(w);
    }
  }

  lemma TriedBelowZero(w: real)
    requires w < 0.0
    ensures Tried(w, 1.0) == Neighbour(w, 1.0) <==> w < Truncate(Loc(w, 1.0)) as real + 0.25
  {
    TruncatedIsFloor(w, 1.0);
  }

  ghost predicate AllShaped(cfg: Config, m: map<Key, Tree>) {
    forall key :: key in m ==> m[key].Node? && Shaped(cfg, m[key]) && m[key].layer == 0
  }

  /** The match of one point: its own cell first, then, if that failed, one neighbour. */
  ghost function MatchPoint(cfg: Config, gates: Gates, size: real, m: map<Key, Tree>, pv: Point): Match
    requires size > 0.0 && AllShaped(cfg, m)
  {
    var key := KeyOf(pv.w, size);
    if key !in m then NO_MATCH
    else
      var r := Search(cfg, gates, pv, m[key], NO_MATCH);
      var near := NearKey(pv.w, size, m[key]);
      if !r.success && near in m then Search(cfg, gates, pv, m[near], r) else r
  }

  /** A correspondence: the point and what was recorded about its plane. */
  datatype Residual = Residual(pv: Point, best: Option<Hit>)

  /** One residual for each point that matched, in input order. */
  ghost function Residuals(cfg: Config, gates: Gates, size: real, m: map<Key, Tree>, pvs: seq<Point>): seq<Residual>
    requires size > 0.0 && AllShaped(cfg, m)
  {
    if pvs == [] then []
    else
      var last := pvs[|pvs| - 1];
      var r := MatchPoint(cfg, gates, size, m, last);
      Residuals(cfg, gates, size, m, pvs[..|pvs| - 1]) + if r.success then [Residual(last, r.best)] else []
  }

  // ----- what matching finds

  /** The planes among which the match is chosen: those of the own cell, or, if none is gated, of the neighbour. */
  ghost function Candidates(cfg: Config, gates: Gates, size: real, m: map<Key, Tree>, pv: Point): seq<Hit>
    requires size > 0.0 && AllShaped(cfg, m)
  {
    var key := KeyOf(pv.w, size);
    if key !in m then []
    else
      var own, near := TopPlanes(cfg, m[key]), NearKey(pv.w, size, m[key]);
      if Gated(gates, pv, own) || near !in m then own else TopPlanes(cfg, m[near])
  }

  /**
   A match is an argmax over its candidates: it succeeds iff one of them is gated, and then reports the first gated one
   of greatest density, unless no gated one has positive density; a match that fails reports nothing.
   */
  lemma MatchIsArgmax(cfg: Config, gates: Gates, size: real, m: map<Key, Tree>, pv: Point)
    requires size > 0.0 && AllShaped(cfg, m)
    ensures var r, hits := MatchPoint(cfg, gates, size, m, pv), Candidates(cfg, gates, size, m, pv);
            && (r.success <==> Gated(gates, pv, hits))
            && (r.best.Some? ==>
                  FirstDensest(gates, pv, hits, r.best.value) && r.prob == gates.Density(r.best.value, pv))
            && (r.best.None? ==>
                  forall k :: 0 <= k < |hits| && gates.Pass(hits[k], pv) ==> gates.Density(hits[k], pv) <= 0.0)
            && (!r.success ==> r == NO_MATCH)
  {
    hide FirstDensest;
    hide Shaped;
    hide Scan;
    hide TopPlanes;
    hide Search;
    var key := KeyOf(pv.w, size);
    ScanFinds(gates, pv, Candidates(cfg, gates, size, m, pv));
    if key in m {
      SearchScans(cfg, gates, pv, m[key], NO_MATCH);
      ScanFinds(gates, pv, TopPlanes(cfg, m[key]));
      var near := NearKey(pv.w, size, m[key]);
      if near in m && !Gated(gates, pv, TopPlanes(cfg, m[key])) {
        FailedSearchIsClean(cfg, gates, pv, m[key]);
        SearchScans(cfg, gates, pv, m[near], NO_MATCH);
        if !Gated(gates, pv, TopPlanes(cfg, m[near])) {
          FailedSearchIsClean(cfg, gates, pv, m[near]);
        }
      } else if !Gated(gates, pv, TopPlanes(cfg, m[key])) {
        FailedSearchIsClean(cfg, gates, pv, m[key]);
      }
    }
  }

  /** Densities are positive where both gates pass, as those of a normal distribution are. */
  ghost predicate PositiveDensities(gates: Gates) {
    forall h: Hit, pv: Point :: gates.Pass(h, pv) ==> gates.Density(h, pv) > 0.0
  }

  /** The residual of a point reports the first densest of the gated candidates. */
  ghost predicate IsArgmax(cfg: Config, gates: Gates, size: real, m: map<Key, Tree>, r: Residual)
    requires size > 0.0 && AllShaped(cfg, m)
  {
    r.best.Some? && FirstDensest(gates, r.pv, Candidates(cfg, gates, size, m, r.pv), r.best.value)
  }

  /** The residuals belong to the points with a gated candidate, in input order, and each is an argmax. */
  lemma {:induction false} ResidualsAreArgmaxes(cfg: Config, gates: Gates, size: real, m: map<Key, Tree>,
          pvs: seq<Point>)
    requires size > 0.0 && AllShaped(cfg, m) && PositiveDensities(gates)
    ensures var rs := Residuals(cfg, gates, size, m, pvs);
            && (forall i :: 0 <= i < |rs| ==> IsArgmax(cfg, gates, size, m, rs[i]))
            && seq(|rs|, i requires 0 <= i < |rs| => rs[i].pv) == GatedPoints(cfg, gates, size, m, pvs)
  {
    if pvs != [] {
      hide MatchPoint;
      hide Candidates;
      hide AllShaped;
      hide Gated;
      var front, last := pvs[..|pvs| - 1], pvs[|pvs| - 1];
      ResidualsAreArgmaxes(cfg, gates, size, m, front);
      MatchIsArgmax(cfg, gates, size, m, last);
      if Gated(gates, last, Candidates(cfg, gates, size, m, last)) {
        GatedDense(gates, last, Candidates(cfg, gates, size, m, last));
      }
      hide FirstDensest;
    }
  }

  lemma GatedDense(gates: Gates, pv: Point, hits: seq<Hit>)
    requires PositiveDensities(gates) && Gated(gates, pv, hits)
    ensures exists k :: 0 <= k < |hits| && gates.Pass(hits[k], pv) && gates.Density(hits[k], pv) > 0.0
  {
  }

  /** The points that have a gated candidate. */
  ghost function GatedPoints(cfg: Config, gates: Gates, size: real, m: map<Key, Tree>, pvs: seq<Point>): seq<Point>
    requires size > 0.0 && AllShaped(cfg, m)
  {
    if pvs == [] then []
    else
      var last := pvs[|pvs| - 1];
      GatedPoints(cfg, gates, size, m, pvs[..|pvs| - 1]) +
      if Gated(gates, last, Candidates(cfg, gates, size, m, last)) then [last] else []
  }

  lemma InsertReady(cfg: Config, bound: nat, size: real, m: map<Key, Tree>, p: Point)
    requires Bounds(cfg, bound) && size > 0.0 && MapInv(cfg, bound, size, m)
    ensures var key := KeyOf(p.w, size);
            var root := RootFor(cfg, size, m, key);
            && root.Node? && Shaped(cfg, root) && Tidy(root)
            && Insert(cfg, bound, size, m, p) == m[key := Update(cfg, root, p)]
  {
    RootForInv(cfg, bound, size, m, p);
    InvTidy(cfg, bound, RootFor(cfg, size, m, KeyOf(p.w, size)));
  }

  /** Cells outside the box are gone, except those in `todo`; nothing else has changed. */
  ghost predicate Clearing(before: map<Key, Tree>, now: map<Key, Tree>, todo: set<Key>, box: Box) {
    && (forall k :: k in before && (k in todo || !box.Outside(k)) ==> k in now && now[k] == before[k])
    && (forall k :: k in now ==> k in before && (k in todo || !box.Outside(k)))
  }

  lemma ClearOne(before: map<Key, Tree>, now: map<Key, Tree>, todo: set<Key>, key: Key, box: Box)
    requires Clearing(before, now, todo, box) && key in todo
    ensures Clearing(before, if box.Outside(key) then now - {key} else now, todo - {key}, box)
  {
  }

  lemma AllCleared(before: map<Key, Tree>, now: map<Key, Tree>, box: Box)
    requires Clearing(before, now, {}, box)
    ensures now == Cleared(before, box)
  {
  }

  /** A root that has only collected. */
  predicate Ready(cfg: Config, n: Tree) {
    n.Node? && n.layer == 0 && n.kids == NO_KIDS && cfg.Valid()
  }

  predicate AllReady(cfg: Config, m: map<Key, Tree>) {
    forall key :: key in m ==> Ready(cfg, m[key])
  }

  /** The gathered roots, those outside `todo` initialised. */
  ghost function Initialising(cfg: Config, gathered: map<Key, Tree>, todo: set<Key>): map<Key, Tree>
  {
    map key | key in gathered ::
      if key in todo || !Ready(cfg, gathered[key]) then gathered[key] else Init(cfg, gathered[key])
  }

  lemma NextRoot(cfg: Config, gathered: map<Key, Tree>, todo: set<Key>, key: Key)
    requires AllReady(cfg, gathered) && key in todo && key in gathered
    ensures var view := Initialising(cfg, gathered, todo);
            && key in view && view[key] == gathered[key] && Ready(cfg, view[key])
            && view[key := Init(cfg, view[key])] == Initialising(cfg, gathered, todo - {key})
  {
    hide Init;
  }

  lemma GatheredReady(cfg: Config, size: real, ps: seq<Point>)
    requires cfg.Valid() && size > 0.0
    ensures AllReady(cfg, Gather(cfg, size, ps))
  {
    GatherCollects(cfg, size, ps);
  }

  lemma NoRoots(cfg: Config, gathered: map<Key, Tree>)
    ensures Initialising(cfg, gathered, gathered.Keys) == gathered
  {
    hide Init;
  }

  lemma AllRoots(cfg: Config, gathered: map<Key, Tree>)
    requires cfg.Valid() && AllReady(cfg, gathered)
    ensures Initialisable(gathered) && Initialising(cfg, gathered, {}) == Initialised(cfg, gathered)
  {
    hide Init;
  }

  class Manager {
    const cfg: Config
    const size: real
    var voxelMap: map<Key, OctoNode>

    ghost const bound: nat
    ghost var view: map<Key, Tree>
    ghost var repr: set<OctoNode>

    /** The tree at `key` is well formed, inside the footprint, and has the value in `view`. */
    ghost predicate Good(key: Key)
      requires key in voxelMap
      reads this, voxelMap[key], voxelMap[key].repr
    {
      var t := voxelMap[key];
      t in t.repr && t.repr <= repr && t.Valid() && t.cfg == cfg && t.layer == 0 && key in view && t.view == view[key]
    }

    ghost predicate Framed()
      reads this, voxelMap.Values
    {
      forall key :: key in voxelMap ==> voxelMap[key] in repr && voxelMap[key].repr <= repr
    }

    ghost predicate Apart()
      reads this, voxelMap.Values
    {
      forall a, b :: a in voxelMap && b in voxelMap && a != b ==> voxelMap[a].repr !! voxelMap[b].repr
    }

    ghost predicate Valid()
      reads this, repr, voxelMap.Values
    {
      Linked() && MapInv(cfg, bound, size, view)
    }

    /** The heap represents `view`. */
    ghost predicate Linked()
      reads this, repr, voxelMap.Values
    {
      && size > 0.0 && Bounds(cfg, bound)
      && view.Keys == voxelMap.Keys
      && Framed()
      && (forall key :: key in voxelMap ==> Good(key))
      && Apart()
    }

    constructor (cfg: Config, size: real, ghost bound: nat)
      requires size > 0.0 && Bounds(cfg, bound)
      ensures Valid() && view == map[] && fresh(repr)
    {
      this.cfg, this.size, this.bound := cfg, size, bound;
      voxelMap, view := map[], map[];
      repr := {};
    }

    /** The body of UpdateVoxelMap's loop. */
    method InsertPoint(p: Point)
      requires Valid()
      modifies this`voxelMap, this`view, this`repr, repr
      ensures Valid() && fresh(repr - old(repr))
      ensures view == Insert(cfg, bound, size, old(view), p)
    {
      hide Good;
      hide RootInv;
      hide Inv;
      hide OctoNode.Valid;
      var position := KeyOf(p.w, size);
      InsertReady(cfg, bound, size, view, p);
      hide Insert;
      hide Update;
      hide MapInv;
      hide RootFor;
      hide KeyOf;
      hide Shaped;
      hide Tidy;
      var root := RootAt(position);
      UpdateRoot(root, p, position);
      Store(position, root);
    }

    method RootAt(position: Key) returns (root: OctoNode)
      requires cfg.Valid() && view.Keys == voxelMap.Keys && Apart() && forall key :: key in voxelMap ==> Good(key)
      ensures root.Valid() && root.cfg == cfg && root.layer == 0 && root in root.repr
      ensures root.view == RootFor(cfg, size, view, position)
      ensures if position in voxelMap then root == voxelMap[position] && root.repr <= repr else fresh(root.repr)
      ensures forall key :: key in voxelMap && key != position ==> voxelMap[key].repr !! root.repr
    {
      if position in voxelMap {
        assert Good(position);
        root := voxelMap[position];
      } else {
        root := new OctoNode(cfg, 0, cfg.layerInitNum[0], KeyCenter(position, size), size / 4.0);
      }
    }

    /** Update one root; the other trees stay as they are. */
    method UpdateRoot(root: OctoNode, p: Point, ghost position: Key)
      requires root.Valid() && root in root.repr && root.cfg == cfg && cfg.Valid()
      requires Shaped(cfg, root.view) && Tidy(root.view)
      requires Apart() && forall key :: key in voxelMap && key != position ==>
                Good(key) && voxelMap[key].repr !! root.repr
      modifies root.repr
      ensures root.Valid() && root in root.repr && root.view == Update(cfg, old(root.view), p)
      ensures fresh(root.repr - old(root.repr))
      ensures forall key :: key in voxelMap && key != position ==>
                Good(key) && voxelMap[key].repr !! root.repr && voxelMap[key].repr == old(voxelMap[key].repr)
    {
      hide OctoNode.Valid;
      hide Update;
      root.UpdateOctoTree(p);
      forall key | key in voxelMap && key != position ensures Good(key) {
        assert old(Good(key));
      }
    }

    /** Point the map at a changed root and take over its footprint. */
    method Store(position: Key, root: OctoNode)
      requires root.Valid() && root in root.repr && root.cfg == cfg && root.layer == 0 && view.Keys == voxelMap.Keys
      requires forall key :: key in voxelMap && key != position ==> Good(key) && voxelMap[key].repr !! root.repr
      requires forall a, b :: a in voxelMap && b in voxelMap && a != b && a != position && b != position ==>
                 voxelMap[a].repr !! voxelMap[b].repr
      modifies this`voxelMap, this`view, this`repr
      ensures view == old(view)[position := root.view] && view.Keys == voxelMap.Keys
      ensures repr == old(repr) + root.repr
      ensures Framed() && Apart() && forall key :: key in voxelMap ==> Good(key)
    {
      hide OctoNode.Valid;
      voxelMap := voxelMap[position := root];
      view := view[position := root.view];
      repr := repr + root.repr;
      forall key | key in voxelMap && key != position ensures Good(key) {
        assert old(Good(key));
      }
    }

    method UpdateVoxelMap(ps: seq<Point>)
      requires Valid()
      modifies this`voxelMap, this`view, this`repr, repr
      ensures Valid() && fresh(repr - old(repr))
      ensures view == InsertAll(cfg, bound, size, old(view), ps)
    {
      hide OctoNode.Valid;
      for i := 0 to |ps|
        invariant Valid() && fresh(repr - old(repr))
        invariant view == InsertAll(cfg, bound, size, old(view), ps[..i])
      {
        assert ps[..i + 1][..i] == ps[..i];
        InsertPoint(ps[i]);
      }
      assert ps[..|ps|] == ps;
    }

    // ----- the first scan

    /** One round of BuildVoxelMap's first loop: buffer a point in its cell's root. */
    method GatherPoint(p: Point)
      requires Linked()
      modifies this`voxelMap, this`view, this`repr, repr
      ensures Linked() && fresh(repr - old(repr)) && view.Keys == voxelMap.Keys
      ensures var key := KeyOf(p.w, size);
              var root := RootFor(cfg, size, old(view), key);
              root.Node? && view == old(view)[key := Push(root, p)]
    {
      hide Good;
      hide OctoNode.Valid;
      hide KeyOf;
      hide RootFor;
      hide Push;
      var position := KeyOf(p.w, size);
      var root := RootAt(position);
      CollectAt(root, p, position);
      Store(position, root);
    }

    method CollectAt(root: OctoNode, p: Point, ghost position: Key)
      requires root.Valid() && root in root.repr
      requires forall key :: key in voxelMap && key != position ==> Good(key) && voxelMap[key].repr !! root.repr
      modifies root`points, root`newPoints, root`view
      ensures root.Valid() && root.view.Node? && old(root.view).Node? && root.view == Push(old(root.view), p)
      ensures forall key :: key in voxelMap && key != position ==> Good(key) && voxelMap[key].repr !! root.repr
    {
      assert old(root.view).Node?;
      hide OctoNode.Valid;
      hide Push;
      root.Collect(p);
      forall key | key in voxelMap && key != position ensures Good(key) {
        assert old(Good(key));
      }
    }

    /** One round of the second loop: initialise a root. */
    method InitRoot(position: Key)
      requires Linked() && position in voxelMap && position in view && Ready(cfg, view[position])
      modifies this`voxelMap, this`view, this`repr, repr
      ensures Linked() && fresh(repr - old(repr)) && voxelMap.Keys == old(voxelMap.Keys)
      ensures view == old(view)[position := Init(cfg, old(view)[position])]
    {
      hide OctoNode.Valid;
      hide Init;
      assert Good(position);
      var root := voxelMap[position];
      InitAt(root, position);
      hide Good;
      Store(position, root);
    }

    method InitAt(root: OctoNode, ghost position: Key)
      requires root.Valid() && root in root.repr && cfg.Valid() && root.cfg == cfg && root.layer == 0
      requires root.view.kids == NO_KIDS
      requires Apart() && forall key :: key in voxelMap && key != position ==>
                Good(key) && voxelMap[key].repr !! root.repr
      modifies root
      ensures root.Valid() && root in root.repr && fresh(root.repr - old(root.repr))
      ensures old(root.view).Node? && root.view == Init(cfg, old(root.view))
      ensures forall key :: key in voxelMap && key != position ==>
                Good(key) && voxelMap[key].repr !! root.repr && voxelMap[key].repr == old(voxelMap[key].repr)
    {
      root.Leafless();
      assert root.view.Node?;
      hide OctoNode.Valid;
      hide Init;
      root.InitOctoTree();
      forall key | key in voxelMap && key != position ensures Good(key) {
        assert old(Good(key));
      }
    }

    /** The first loop. */
    method GatherAll(ps: seq<Point>)
      requires Linked() && view == map[]
      modifies this`voxelMap, this`view, this`repr, repr
      ensures Linked() && fresh(repr - old(repr))
      ensures view == Gather(cfg, size, ps) && view.Keys == voxelMap.Keys
    {
      assert size > 0.0 && cfg.Valid() && view.Keys == voxelMap.Keys;
      hide Linked;
      hide Init;
      for i := 0 to |ps|
        invariant Linked() && fresh(repr - old(repr))
        invariant size > 0.0 && cfg.Valid() && view.Keys == voxelMap.Keys && view == Gather(cfg, size, ps[..i])
      {
        assert ps[..i + 1][..i] == ps[..i];
        GatherPoint(ps[i]);
      }
      assert ps[..|ps|] == ps;
    }

    /** Initialise some root of `todo`. */
    method InitNext(ghost gathered: map<Key, Tree>, todo: set<Key>) returns (todo': set<Key>)
      requires Linked() && todo != {} && todo <= voxelMap.Keys == gathered.Keys
      requires AllReady(cfg, gathered) && view == Initialising(cfg, gathered, todo)
      modifies this`voxelMap, this`view, this`repr, repr
      ensures Linked() && fresh(repr - old(repr)) && voxelMap.Keys == old(voxelMap.Keys)
      ensures view == Initialising(cfg, gathered, todo') && todo' < todo
    {
      hide Linked;
      hide Initialising;
      hide AllReady;
      hide Ready;
      assert (forall key :: key !in todo) ==> todo == {};
      var key :| key in todo;
      NextRoot(cfg, gathered, todo, key);
      InitRoot(key);
      todo' := todo - {key};
    }

    /** The second loop, in any order. */
    method InitAll()
      requires Linked() && cfg.Valid() && AllReady(cfg, view) && view.Keys == voxelMap.Keys
      modifies this`voxelMap, this`view, this`repr, repr
      ensures Linked() && fresh(repr - old(repr))
      ensures Initialisable(old(view)) && view == Initialised(cfg, old(view))
    {
      hide Linked;
      hide Good;
      hide OctoNode.Valid;
      hide Init;
      hide Initialising;
      hide AllReady;
      hide Ready;
      hide Initialised;
      hide Initialisable;
      ghost var gathered := view;
      var todo := voxelMap.Keys;
      NoRoots(cfg, gathered);
      while todo != {}
        invariant Linked() && fresh(repr - old(repr))
        invariant todo <= voxelMap.Keys == gathered.Keys
        invariant view == Initialising(cfg, gathered, todo)
        decreases todo
      {
        todo := InitNext(gathered, todo);
      }
      AllRoots(cfg, gathered);
    }

    /** BuildVoxelMap: the first scan, into an empty map. */
    method BuildVoxelMap(ps: seq<Point>)
      requires Valid() && view == map[] && |ps| <= bound
      modifies this`voxelMap, this`view, this`repr, repr
      ensures Valid() && fresh(repr - old(repr))
      ensures view == Build(cfg, size, ps)
    {
      assert size > 0.0 && Bounds(cfg, bound);
      hide Linked;
      hide Init;
      hide Gather;
      GatherAll(ps);
      GatheredReady(cfg, size, ps);
      InitAll();
      hide RootInv;
      hide MapInv;
      hide Kept;
      BuildKeeps(cfg, bound, size, ps);
    }

    // ----- sliding the map

    /** Take one cell out of the map. */
    method EraseCell(key: Key)
      requires Linked()
      modifies this`voxelMap, this`view
      ensures Linked() && view == old(view) - {key} && voxelMap.Keys == old(voxelMap.Keys) - {key}
    {
      hide OctoNode.Valid;
      voxelMap := voxelMap - {key};
      view := view - {key};
      forall k | k in voxelMap ensures Good(k) {
        assert old(Good(k));
      }
    }

    /** The loop of clearMemOutOfMap. */
    method EraseOutside(box: Box)
      requires Linked() && view.Keys == voxelMap.Keys
      modifies this`voxelMap, this`view
      ensures Linked() && view == Cleared(old(view), box)
    {
      hide Linked;
      hide Good;
      hide OctoNode.Valid;
      hide Cleared;
      ghost var before := view;
      var todo := voxelMap.Keys;
      while todo != {}
        invariant Linked() && todo <= voxelMap.Keys == view.Keys
        invariant Clearing(before, view, todo, box)
        decreases todo
      {
        assert (forall k :: k !in todo) ==> todo == {};
        var key :| key in todo;
        hide Clearing;
        ClearOne(before, view, todo, key, box);
        if box.Outside(key) {
          EraseCell(key);
        }
        todo := todo - {key};
      }
      AllCleared(before, view, box);
    }

    /** clearMemOutOfMap: exactly the cells outside the box go, the others keep their trees. */
    method ClearMemOutOfMap(box: Box)
      requires Valid()
      modifies this`voxelMap, this`view
      ensures Valid() && view == Cleared(old(view), box)
      ensures forall key :: key in voxelMap <==>
                && key in old(voxelMap) && box.min.x <= key.x <= box.max.x
                && box.min.y <= key.y <= box.max.y && box.min.z <= key.z <= box.max.z
    {
      hide Good;
      hide OctoNode.Valid;
      hide MapInv;
      ghost var before := view;
      EraseOutside(box);
      ClearedInv(cfg, bound, size, before, box);
    }

    // ----- residuals

    lemma Shapes()
      requires Valid()
      ensures AllShaped(cfg, view)
    {
    }

    method MatchOne(gates: Gates, pv: Point) returns (r: Match)
      requires Valid() && AllShaped(cfg, view)
      ensures r == MatchPoint(cfg, gates, size, view, pv)
    {
      var position := KeyOf(pv.w, size);
      if position !in voxelMap {
        return NO_MATCH;
      }
      assert Good(position);
      var octo := voxelMap[position];
      r := octo.BuildSingleResidual(gates, pv, 0, NO_MATCH);
      if !r.success {
        var near := Key(NearCoord(Loc(pv.w.x, size), octo.center.x, octo.quarter, position.x),
                        NearCoord(Loc(pv.w.y, size), octo.center.y, octo.quarter, position.y),
                        NearCoord(Loc(pv.w.z, size), octo.center.z, octo.quarter, position.z));
        if near in voxelMap {
          assert Good(near);
          r := voxelMap[near].BuildSingleResidual(gates, pv, 0, r);
        }
      }
    }

    /**
     BuildResidualListOMP. `order` is the order in which the parallel loop happens to run: every index once or
     more, in any order. The list does not depend on it.
     */
    method BuildResidualList(gates: Gates, pvs: seq<Point>, order: seq<nat>) returns (list: seq<Residual>)
      requires Valid()
      requires forall i :: 0 <= i < |order| ==> order[i] < |pvs|
      requires forall i :: 0 <= i < |pvs| ==> i in order
      ensures AllShaped(cfg, view) && list == Residuals(cfg, gates, size, view, pvs)
    {
      Shapes();
      hide MatchPoint;
      hide Valid;
      var useful, all := MatchAll(gates, pvs, order);
      list := [];
      for i := 0 to |pvs|
        invariant list == Residuals(cfg, gates, size, view, pvs[..i])
      {
        assert pvs[..i + 1][..i] == pvs[..i];
        if useful[i] {
          list := list + [all[i]];
        }
      }
      assert pvs[..|pvs|] == pvs;
    }

    /** The parallel loop: each round writes only its own entries. */
    method MatchAll(gates: Gates, pvs: seq<Point>, order: seq<nat>) returns (useful: seq<bool>, all: seq<Residual>)
      requires Valid() && AllShaped(cfg, view)
      requires forall i :: 0 <= i < |order| ==> order[i] < |pvs|
      requires forall i :: 0 <= i < |pvs| ==> i in order
      ensures |useful| == |pvs| == |all|
      ensures forall j :: 0 <= j < |pvs| ==> Recorded(gates, pvs[j], useful[j], all[j])
    {
      assert size > 0.0;
      hide MatchPoint;
      hide Valid;
      hide Recorded;
      useful := seq(|pvs|, _ => false);
      all := seq(|pvs|, i requires 0 <= i < |pvs| => Residual(pvs[i], None));
      for k := 0 to |order|
        invariant |useful| == |pvs| == |all|
        invariant forall j :: 0 <= j < |pvs| && j in order[..k] ==> Recorded(gates, pvs[j], useful[j], all[j])
      {
        var i := order[k];
        var m := MatchOne(gates, pvs[i]);
        RecordedBy(gates, pvs[i], m, all[i]);
        useful := useful[i := m.success];
        if m.success {
          all := all[i := Residual(pvs[i], m.best)];
        }
        assert order[..k + 1] == order[..k] + [i];
      }
      assert order[..|order|] == order;
    }

    lemma RecordedBy(gates: Gates, pv: Point, m: Match, entry: Residual)
      requires size > 0.0 && AllShaped(cfg, view) && m == MatchPoint(cfg, gates, size, view, pv)
      ensures Recorded(gates, pv, m.success, if m.success then Residual(pv, m.best) else entry)
    {
    }

    /** The entries of useful_ptpl and all_ptpl_list for `pv` hold its match. */
    ghost predicate Recorded(gates: Gates, pv: Point, useful: bool, entry: Residual)
      requires size > 0.0 && AllShaped(cfg, view)
      reads this
    {
      var m := MatchPoint(cfg, gates, size, view, pv);
      useful == m.success && (m.success ==> entry == Residual(pv, m.best))
    }
  }
}
