/**
 The octree as the program keeps it: nodes on the heap, updated in place.

 `view` is the value of the tree below a node; every method is proved to change it exactly as the functions of
 VoxelTree say. The inline array leaves_[8] is a sequence-valued field: like the array it is part of the node
 and is shared with nobody.
 */
module VoxelOctoTree {
  import opened VoxelTree
  import opened VoxelResidual

  const NO_LEAVES: seq<OctoNode?> := [null, null, null, null, null, null, null, null]

  /** Handing out one more point pushes it to its octant's leaf and to no other. */
  lemma {:induction false} FilledStep(cfg: Config, n: Tree, before: seq<Point>, p: Point)
    requires cfg.Valid() && n.Node? && n.layer < cfg.maxLayer
    ensures forall k :: 0 <= k < 8 ==>
              var leaf := FilledLeaf(cfg, n.(points := before), k);
              FilledLeaf(cfg, n.(points := before + [p]), k) ==
              if k != LeafNum(n.center, p.w) then leaf
              else Push(if leaf.Absent? then NewLeaf(cfg, n, k) else leaf, p)
  {
    assert (before + [p])[..|before|] == before;
    forall k | 0 <= k < 8
      ensures Octant(n.center, before + [p], k) ==
              Octant(n.center, before, k) + if LeafNum(n.center, p.w) == k then [p] else []
    {
    }
  }

  /** Nodes that only collect have no leaves; `Inv` implies it. */
  predicate Tidy(n: Tree) {
    n.Node? ==> (!n.init ==> n.kids == NO_KIDS) && forall k :: 0 <= k < |n.kids| ==> Tidy(n.kids[k])
  }

  lemma {:induction false} InvTidy(cfg: Config, bound: nat, n: Tree)
    requires cfg.Valid() && Inv(cfg, bound, n)
    ensures Tidy(n)
  {
    if n.Node? {
      forall k | 0 <= k < 8 ensures Tidy(n.kids[k]) {
        InvTidy(cfg, bound, n.kids[k]);
      }
    }
  }

  lemma LeafTidy(cfg: Config, n: Tree, w: Vec)
    requires cfg.Valid() && n.Node? && Shaped(cfg, n) && Tidy(n) && n.layer < cfg.maxLayer
    ensures Tidy(Leaf(cfg, n, w))
  {
  }

  class OctoNode {
    const cfg: Config
    const layer: nat
    const threshold: nat
    var center: Vec
    var quarter: real
    var points: seq<Point>
    var newPoints: nat
    var init: bool
    var enabled: bool
    var plane: Plane
    var leaves: seq<OctoNode?>

    ghost var view: Tree
    ghost var repr: set<OctoNode>

    /** The fields of this node with the given children's values. */
    ghost function Own(kids: seq<Tree>): Tree
      reads this
    {
      Node(layer, threshold, center, quarter, points, newPoints, init, enabled, plane, kids)
    }

    ghost predicate Valid()
      reads this, repr
      decreases repr
    {
      && this in repr
      && |leaves| == 8
      && view.Node? && |view.kids| == 8 && view == Own(view.kids)
      && (forall k :: 0 <= k < 8 ==> leaves[k] == null ==> view.kids[k] == Absent)
      && (forall k :: 0 <= k < 8 && leaves[k] != null ==>
            && leaves[k] in repr && leaves[k].repr <= repr && this !in leaves[k].repr
            && leaves[k].Valid()
            && leaves[k].view == view.kids[k] && leaves[k].cfg == cfg && leaves[k].layer == layer + 1)
      && (forall j, k :: 0 <= j < k < 8 && leaves[j] != null && leaves[k] != null ==>
            leaves[j].repr !! leaves[k].repr)
    }

    constructor (cfg: Config, layer: nat, threshold: nat, center: Vec, quarter: real)
      ensures Valid() && repr == {this} && leaves == NO_LEAVES
      ensures this.cfg == cfg && this.layer == layer && this.threshold == threshold
      ensures view == Node(layer, threshold, center, quarter, [], 0, false, true, NO_PLANE, NO_KIDS)
    {
      this.cfg, this.layer, this.threshold, this.center, this.quarter := cfg, layer, threshold, center, quarter;
      points, newPoints, init, enabled, plane := [], 0, false, true, NO_PLANE;
      leaves := NO_LEAVES;
      repr := {this};
      view := Node(layer, threshold, center, quarter, [], 0, false, true, NO_PLANE, NO_KIDS);
    }

    /** Bring `view` up to date after a change to this node's own fields. */
    ghost method Refresh()
      requires view.Node?
      modifies this`view
      ensures view == Own(old(view).kids)
    {
      view := Own(view.kids);
    }

    // ----- small steps, each keeping the tree in order

    /** init_plane on the node's own buffer. */
    method InitPlane()
      requires Valid()
      modifies this`plane, this`view
      ensures Valid() && view == old(view).(plane := cfg.fit(old(view).points))
    {
      plane := cfg.fit(points);
      Refresh();
    }

    /** Stop updating and give the buffer back. */
    method FreezeNode()
      requires Valid()
      modifies this`enabled, this`points, this`newPoints, this`view
      ensures Valid() && view == Freeze(old(view))
    {
      enabled := false;
      points := [];
      newPoints := 0;
      Refresh();
    }

    method ResetNewPoints()
      requires Valid()
      modifies this`newPoints, this`view
      ensures Valid() && view == old(view).(newPoints := 0)
    {
      newPoints := 0;
      Refresh();
    }

    method MarkInitialised()
      requires Valid()
      modifies this`init, this`newPoints, this`view
      ensures Valid() && view == old(view).(init := true, newPoints := 0)
    {
      init := true;
      newPoints := 0;
      Refresh();
    }

    /** Push one point and count it as new. */
    method Collect(p: Point)
      requires Valid()
      modifies this`points, this`newPoints, this`view
      ensures Valid()
      ensures view == Push(old(view), p)
    {
      newPoints := newPoints + 1;
      points := points + [p];
      Refresh();
    }

    // ----- splitting

    /** `leaf` is the childless node, or the missing leaf, with value `tree`. */
    ghost predicate Lone(leaf: OctoNode?, tree: Tree)
      reads leaf
    {
      if leaf == null then tree == Absent
      else
        && tree.Node? && leaf.repr == {leaf} && leaf.Valid() && leaf.leaves == NO_LEAVES
        && leaf.view == tree && leaf.cfg == cfg && leaf.layer == layer + 1
    }

    /** The first loop of cut_octo_tree: hand every buffered point to its octant's leaf. */
    method Distribute(ghost n: Tree)
      requires cfg.Valid() && n.Node? && layer < cfg.maxLayer && leaves == NO_LEAVES
      requires n.layer == layer && n.center == center && n.quarter == quarter && n.points == points
      modifies this`leaves
      ensures |leaves| == 8
      ensures forall k :: 0 <= k < 8 ==>
                Lone(leaves[k], FilledLeaf(cfg, n, k)) && (leaves[k] != null ==> fresh(leaves[k]))
      ensures forall j, k :: 0 <= j < k < 8 && leaves[j] != null ==> leaves[j] != leaves[k]
    {
      for i := 0 to |points|
        invariant |leaves| == 8
        invariant forall k :: 0 <= k < 8 ==> Lone(leaves[k], FilledLeaf(cfg, n.(points := points[..i]), k))
        invariant forall k :: 0 <= k < 8 && leaves[k] != null ==> fresh(leaves[k])
        invariant forall j, k :: 0 <= j < k < 8 && leaves[j] != null ==> leaves[j] != leaves[k]
      {
        assert points[..i + 1] == points[..i] + [points[i]];
        Hand(points[i], n, points[..i]);
      }
      assert points[..|points|] == points;
      assert n.(points := points) == n;
    }

    /** One round of that loop; `before` are the points handed out so far. */
    method Hand(p: Point, ghost n: Tree, ghost before: seq<Point>)
      requires cfg.Valid() && n.Node? && layer < cfg.maxLayer && |leaves| == 8
      requires n.layer == layer && n.center == center && n.quarter == quarter
      requires forall k :: 0 <= k < 8 ==> Lone(leaves[k], FilledLeaf(cfg, n.(points := before), k)) && leaves[k] != this
      requires forall j, k :: 0 <= j < k < 8 && leaves[j] != null ==> leaves[j] != leaves[k]
      modifies this`leaves, leaves
      ensures |leaves| == 8
      ensures forall k :: 0 <= k < 8 ==> Lone(leaves[k], FilledLeaf(cfg, n.(points := before + [p]), k))
      ensures forall k :: 0 <= k < 8 && leaves[k] != null ==> leaves[k] == old(leaves[k]) || fresh(leaves[k])
      ensures forall j, k :: 0 <= j < k < 8 && leaves[j] != null ==> leaves[j] != leaves[k]
    {
      var num := LeafNum(center, p.w);
      FilledStep(cfg, n, before, p);
      hide FilledLeaf;
      Create(num, n);
      label created:
      leaves[num].Collect(p);
      forall k | 0 <= k < 8 && k != num ensures Lone(leaves[k], FilledLeaf(cfg, n.(points := before + [p]), k)) {
        assert old@created(Lone(leaves[k], FilledLeaf(cfg, n.(points := before), k)));
      }
    }

    /** Make sure that leaf `num` exists. */
    method Create(num: nat, ghost n: Tree)
      requires cfg.Valid() && n.Node? && layer < cfg.maxLayer && |leaves| == 8 && num < 8
      requires n.layer == layer && n.center == center && n.quarter == quarter
      modifies this`leaves
      ensures |leaves| == 8 && forall k :: 0 <= k < 8 && k != num ==> leaves[k] == old(leaves[k])
      ensures old(leaves[num]) != null ==> leaves[num] == old(leaves[num])
      ensures old(leaves[num]) == null ==>
                leaves[num] != null && fresh(leaves[num]) && Lone(leaves[num], NewLeaf(cfg, n, num))
    {
      if leaves[num] == null {
        var created := new OctoNode(cfg, layer + 1, cfg.layerInitNum[layer + 1],
                                    ChildCenter(center, quarter, num), quarter / 2.0);
        leaves := leaves[num := created];
      }
    }

    /** The value of a leaf once the second loop of cut_octo_tree has passed it. */
    static ghost function Done(cfg: Config, n: Tree, k: nat): Tree
      requires cfg.Valid() && n.Node? && n.layer < cfg.maxLayer
    {
      var filled := FilledLeaf(cfg, n, k);
      if filled.Absent? then Absent else Init(cfg, filled)
    }

    static lemma DoneAt(cfg: Config, n: Tree, k: nat)
      requires cfg.Valid() && n.Node? && n.layer < cfg.maxLayer && k < 8
      ensures InitLeaves(cfg, n, 8)[k] == Done(cfg, n, k)
    {
      InitLeafAt(cfg, n, 8, k);
    }

    /** `leaf` is a child, or missing, with value `tree`. */
    ghost predicate Child(leaf: OctoNode?, tree: Tree)
      reads leaf, if leaf == null then {} else leaf.repr
    {
      if leaf == null then tree == Absent
      else
        && tree.Node? && this !in leaf.repr && leaf.Valid()
        && leaf.view == tree && leaf.cfg == cfg && leaf.layer == layer + 1
    }

    /** cut_octo_tree. */
    method CutOctoTree()
      requires Valid() && cfg.Valid() && layer <= cfg.maxLayer && leaves == NO_LEAVES
      modifies this`leaves, this`newPoints, this`view, this`repr
      ensures Valid() && fresh(repr - old(repr))
      ensures layer == cfg.maxLayer ==> view == old(view) && leaves == NO_LEAVES
      ensures layer < cfg.maxLayer ==>
                view == old(view).(kids := InitLeaves(cfg, old(view), 8), newPoints := view.newPoints)
      decreases cfg.maxLayer - layer, 3
    {
      if layer >= cfg.maxLayer {
        return;
      }
      ghost var n := view;
      Distribute(n);
      ghost var cut, footprint := leaves, repr;
      assert forall o: OctoNode :: o in cut ==> fresh(o);
      assert n == Own(n.kids);
      hide Valid;
      hide FilledLeaf;
      hide Done;
      SettleAll(n);
      assert forall o :: o in repr ==> o in footprint || fresh(o) || o in cut;
      forall k | 0 <= k < 8 ensures InitLeaves(cfg, n, 8)[k] == Done(cfg, n, k) {
        DoneAt(cfg, n, k);
      }
      Adopt(InitLeaves(cfg, n, 8));
    }

    /** The second loop of cut_octo_tree. */
    method SettleAll(ghost n: Tree)
      requires cfg.Valid() && n.Node? && n.layer == layer < cfg.maxLayer && |leaves| == 8 && this in repr
      requires forall k :: 0 <= k < 8 ==> Lone(leaves[k], FilledLeaf(cfg, n, k)) && leaves[k] != this
      requires forall j, k :: 0 <= j < k < 8 && leaves[j] != null ==> leaves[j] != leaves[k]
      modifies this`newPoints, this`repr, leaves
      ensures this in repr && Apart() && forall o :: o in repr ==> o in old(repr) || fresh(o) || o in leaves
      ensures forall k :: 0 <= k < 8 ==> Child(leaves[k], Done(cfg, n, k)) && Inside(k)
      decreases cfg.maxLayer - layer, 2
    {
      assert Apart();
      hide Valid;
      hide FilledLeaf;
      hide Done;
      for i := 0 to 8
        invariant this in repr && Apart() && forall o :: o in repr ==> o in old(repr) || fresh(o) || o in leaves
        invariant forall k :: 0 <= k < i ==> Child(leaves[k], Done(cfg, n, k)) && Inside(k)
        invariant forall k :: i <= k < 8 ==> Lone(leaves[k], FilledLeaf(cfg, n, k))
      {
        SettleRound(i, n);
      }
    }

    /** Distinct leaves have disjoint footprints. */
    ghost predicate Apart()
      requires |leaves| == 8
      reads this, leaves
    {
      && (forall k :: 0 <= k < 8 && leaves[k] != null ==> leaves[k] in leaves[k].repr)
      && (forall j, k :: 0 <= j < k < 8 && leaves[j] != null && leaves[k] != null ==> leaves[j].repr !! leaves[k].repr)
    }

    /** Leaf `k` lies inside this node's footprint. */
    ghost predicate Inside(k: nat)
      requires |leaves| == 8 && k < 8
      reads this, leaves
    {
      leaves[k] != null ==> leaves[k] in repr && leaves[k].repr <= repr
    }

    /** Make the leaves' values this node's children. */
    ghost method Adopt(kids: seq<Tree>)
      requires |leaves| == 8 && |kids| == 8 && this in repr && Apart()
      requires forall k :: 0 <= k < 8 ==> Child(leaves[k], kids[k]) && Inside(k)
      modifies this`view
      ensures Valid() && view == Own(kids)
    {
      view := Own(kids);
      assert forall k :: 0 <= k < 8 ==> Child(leaves[k], kids[k]) && Inside(k);
    }

    /** What a round does to the node: leaf `i` is settled and joins the footprint; the others stay as they were. */
    method SettleRound(i: nat, ghost n: Tree)
      requires cfg.Valid() && n.Node? && n.layer == layer < cfg.maxLayer && |leaves| == 8 && i < 8
      requires this in repr && Apart()
      requires forall k :: 0 <= k < i ==> Child(leaves[k], Done(cfg, n, k)) && Inside(k)
      requires forall k :: i <= k < 8 ==> Lone(leaves[k], FilledLeaf(cfg, n, k)) && leaves[k] != this
      modifies this`newPoints, this`repr, leaves[i]
      ensures this in repr && Apart() && fresh(repr - old(repr) - (if leaves[i] == null then {} else {leaves[i]}))
      ensures forall k :: 0 <= k <= i ==> Child(leaves[k], Done(cfg, n, k)) && Inside(k)
      ensures forall k :: i < k < 8 ==> Lone(leaves[k], FilledLeaf(cfg, n, k))
      decreases cfg.maxLayer - layer, 1
    {
      hide Done;
      hide FilledLeaf;
      hide Init;
      SettleLeaf(i, n);
      if leaves[i] != null {
        repr := repr + leaves[i].repr;
      }
      forall k | 0 <= k < 8 && k != i
        ensures leaves[k] != null ==> leaves[k] != leaves[i] && leaves[k].repr == old(leaves[k].repr)
      {
      }
      forall k | 0 <= k < i ensures Child(leaves[k], Done(cfg, n, k)) && Inside(k) {
        assert old(Child(leaves[k], Done(cfg, n, k)) && Inside(k));
      }
    }

    /**
     One round of the second loop. The loop body repeats init_octo_tree on the leaf; in addition it clears this
     node's own new_points_ when the leaf freezes.
     */
    method SettleLeaf(i: nat, ghost n: Tree)
      requires cfg.Valid() && n.Node? && n.layer == layer < cfg.maxLayer && |leaves| == 8 && i < 8
      requires Lone(leaves[i], FilledLeaf(cfg, n, i)) && leaves[i] != this
      modifies this`newPoints, leaves[i]
      ensures Child(leaves[i], Done(cfg, n, i))
      ensures leaves[i] != null ==> fresh(leaves[i].repr - {leaves[i]})
      decreases cfg.maxLayer - layer, 0
    {
      var leaf := leaves[i];
      if leaf != null {
        leaf.InitOctoTree();
        if !leaf.enabled {
          newPoints := 0;
        }
      }
    }

    /** init_octo_tree. */
    method InitOctoTree()
      requires Valid() && cfg.Valid() && layer <= cfg.maxLayer && leaves == NO_LEAVES
      modifies this
      ensures Valid() && fresh(repr - old(repr))
      ensures view == Init(cfg, old(view))
      decreases cfg.maxLayer - layer, 4
    {
      if |points| > threshold {
        InitPlane();
        if plane.isPlane {
          if |points| > cfg.maxPointsNum {
            FreezeNode();
          }
        } else {
          CutOctoTree();
        }
        MarkInitialised();
      }
    }

    /** A node whose value has no children has no leaves. */
    lemma Leafless()
      requires Valid() && view.kids == NO_KIDS
      ensures leaves == NO_LEAVES
    {
      assert forall k :: 0 <= k < 8 ==> view.kids[k] == Absent;
    }

    // ----- updating and lookup

    /** The buffering part of UpdateOctoTree: push, and refit when more than five points are new. */
    method BufferPoint(p: Point)
      requires Valid()
      modifies this`points, this`newPoints, this`plane, this`view
      ensures Valid() && view == Buffer(cfg, old(view), p)
    {
      Collect(p);
      if newPoints > UPDATE_SIZE_THRESHOLD {
        InitPlane();
        ResetNewPoints();
      }
    }

    /** UpdateOctoTree. */
    method UpdateOctoTree(p: Point)
      requires Valid() && cfg.Valid() && Shaped(cfg, view) && Tidy(view)
      modifies repr
      ensures Valid() && fresh(repr - old(repr))
      ensures view == Update(cfg, old(view), p)
      decreases cfg.maxLayer - layer
    {
      if !init {
        Collect(p);
        if |points| > threshold {
          InitOctoTree();
        }
      } else if plane.isPlane {
        if enabled {
          BufferPoint(p);
          if |points| >= cfg.maxPointsNum {
            FreezeNode();
          }
        }
      } else if layer < cfg.maxLayer {
        UpdateLeaf(p);
      } else if enabled {
        BufferPoint(p);
        if |points| > cfg.maxPointsNum {
          FreezeNode();
        }
      }
    }

    /** Pass `p` on to its octant's leaf, creating it if it is missing. */
    method UpdateLeaf(p: Point)
      requires Valid() && cfg.Valid() && Shaped(cfg, view) && Tidy(view) && layer < cfg.maxLayer
      modifies repr
      ensures Valid() && fresh(repr - old(repr))
      ensures view == old(view).(kids := old(view).kids[LeafNum(old(center), p.w) :=
                                           Update(cfg, Leaf(cfg, old(view), p.w), p)])
      decreases cfg.maxLayer - layer, 2
    {
      hide Update;
      var num := LeafNum(center, p.w);
      Others(num);
      var leaf := LeafAt(num);
      LeafTidy(cfg, view, p.w);
      Give(leaf, p, num);
    }

    /** Pass `p` on to a leaf and put the leaf in its place. */
    method Give(leaf: OctoNode, p: Point, num: nat)
      requires |leaves| == 8 && view.Node? && |view.kids| == 8 && num < 8 && this in repr && this !in leaf.repr
      requires Apart() && forall k :: 0 <= k < 8 && k != num ==> Child(leaves[k], view.kids[k]) && Inside(k)
      requires Child(leaf, leaf.view) && cfg.Valid() && layer < cfg.maxLayer && Shaped(cfg, leaf.view)
                && Tidy(leaf.view)
      requires forall k :: 0 <= k < 8 && k != num && leaves[k] != null ==> leaves[k].repr !! leaf.repr
      modifies this`leaves, this`repr, this`view, leaf.repr
      ensures Valid() && repr == old(repr) + leaf.repr && fresh(leaf.repr - old(leaf.repr))
      ensures view == Own(old(view).kids[num := Update(cfg, old(leaf.view), p)])
      decreases cfg.maxLayer - layer, 1
    {
      hide Update;
      hide Valid;
      hide Shaped;
      hide Tidy;
      ghost var kids := view.kids;
      PassDown(leaf, p, num);
      Replant(num, leaf, kids);
    }

    /** Update leaf `num`, leaving its siblings as they are. */
    method PassDown(leaf: OctoNode, p: Point, ghost num: nat)
      requires |leaves| == 8 && view.Node? && |view.kids| == 8 && num < 8
      requires Apart() && forall k :: 0 <= k < 8 && k != num ==> Child(leaves[k], view.kids[k]) && Inside(k)
      requires Child(leaf, leaf.view) && cfg.Valid() && layer < cfg.maxLayer && Shaped(cfg, leaf.view)
                && Tidy(leaf.view)
      requires forall k :: 0 <= k < 8 && k != num && leaves[k] != null ==> leaves[k].repr !! leaf.repr
      modifies leaf.repr
      ensures Child(leaf, Update(cfg, old(leaf.view), p)) && fresh(leaf.repr - old(leaf.repr))
      ensures forall k :: 0 <= k < 8 && k != num ==> Child(leaves[k], view.kids[k]) && Inside(k)
      ensures forall k :: 0 <= k < 8 && k != num && leaves[k] != null ==>
                leaves[k].repr == old(leaves[k].repr) && leaves[k].repr !! leaf.repr
      decreases cfg.maxLayer - layer, 0
    {
      hide Update;
      hide Shaped;
      hide Tidy;
      leaf.UpdateOctoTree(p);
      forall k | 0 <= k < 8 && k != num ensures Child(leaves[k], view.kids[k]) && Inside(k) {
        assert old(Child(leaves[k], view.kids[k]) && Inside(k));
      }
    }

    /** What a valid tree says about the siblings of leaf `num`. */
    lemma Others(num: nat)
      requires Valid() && num < 8
      ensures forall k :: 0 <= k < 8 ==> Child(leaves[k], view.kids[k]) && Inside(k)
      ensures forall k :: 0 <= k < 8 && k != num && leaves[k] != null ==>
                leaves[k] in leaves[k].repr
                    && (leaves[num] != null ==> leaves[k].repr !! leaves[num].repr && leaves[num] in leaves[num].repr)
      ensures Apart()
    {
    }

    /** Store a changed leaf and its footprint. */
    method Replant(num: nat, leaf: OctoNode, ghost kids: seq<Tree>)
      requires |leaves| == 8 && |kids| == 8 && this in repr && num < 8
      requires forall k :: 0 <= k < 8 && k != num ==> Child(leaves[k], kids[k]) && Inside(k)
      requires forall j, k :: 0 <= j < k < 8 && j != num && k != num && leaves[j] != null && leaves[k] != null ==>
                 leaves[j].repr !! leaves[k].repr
      requires forall k :: 0 <= k < 8 && k != num && leaves[k] != null ==>
                 leaves[k] in leaves[k].repr && leaves[k].repr !! leaf.repr
      requires Child(leaf, leaf.view)
      modifies this`leaves, this`repr, this`view
      ensures Valid() && view == Own(kids[num := leaf.view]) && repr == old(repr) + leaf.repr
    {
      leaves := leaves[num := leaf];
      repr := repr + leaf.repr;
      forall k | 0 <= k < 8 ensures Child(leaves[k], kids[num := leaf.view][k]) && Inside(k) {
        assert k != num ==> old(Child(leaves[k], kids[k]) && Inside(k));
      }
      Adopt(kids[num := leaf.view]);
    }

    method LeafAt(num: nat) returns (leaf: OctoNode)
      requires Valid() && cfg.Valid() && layer < cfg.maxLayer && num < 8
      ensures leaf.Valid() && leaf.cfg == cfg && leaf.layer == layer + 1 && this !in leaf.repr
      ensures if leaves[num] == null then fresh(leaf) && leaf.repr == {leaf} && leaf.view == NewLeaf(cfg, view, num)
              else leaf == leaves[num] && leaf.view == view.kids[num]
    {
      if leaves[num] == null {
        leaf := new OctoNode(cfg, layer + 1, cfg.layerInitNum[layer + 1],
                             ChildCenter(center, quarter, num), quarter / 2.0);
      } else {
        leaf := leaves[num];
      }
    }

    /** find_correspond. */
    method FindCorrespond(w: Vec) returns (node: OctoNode)
      requires Valid() && Shaped(cfg, view)
      ensures node in repr && node.Valid() && node.view == Find(cfg, view, w)
      decreases cfg.maxLayer - layer
    {
      if !init || plane.isPlane || layer >= cfg.maxLayer {
        return this;
      }
      var leaf := leaves[LeafNum(center, w)];
      if leaf == null {
        return this;
      }
      node := leaf.FindCorrespond(w);
    }

    /** build_single_residual: scan the planes below this node, keeping the densest that passes both gates. */
    method BuildSingleResidual(gates: Gates, pv: Point, currentLayer: nat, m: Match) returns (r: Match)
      requires Valid() && Shaped(cfg, view) && currentLayer == layer
      ensures r == Search(cfg, gates, pv, view, m)
      decreases cfg.maxLayer - layer
    {
      if plane.isPlane {
        return Consider(gates, pv, Hit(plane, currentLayer), m);
      }
      r := m;
      if currentLayer < cfg.maxLayer {
        for i := 0 to 8
          invariant r == SearchKids(cfg, gates, pv, view, i, m)
        {
          var leaf := leaves[i];
          if leaf != null {
            r := leaf.BuildSingleResidual(gates, pv, currentLayer + 1, r);
          }
        }
      }
    }
  }
}
