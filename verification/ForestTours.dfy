/** Walks over the forest blocks, and what a greedy collection tour is made of (forest_planner.py). */
module ForestTours {
  import opened Common

  type Graph = map<int, seq<int>>

  // ----- walks

  /** Consecutive blocks are neighbours. */
  predicate Edges(g: Graph, w: seq<int>) {
    forall i :: 0 <= i < |w| - 1 ==> w[i] in g && w[i + 1] in g[w[i]]
  }

  /** `w` is a walk along edges from `a` to `b`. */
  predicate Walk(g: Graph, a: int, b: int, w: seq<int>) {
    w != [] && w[0] == a && w[|w| - 1] == b && Edges(g, w)
  }

  ghost predicate Reaches(g: Graph, a: int, b: int) {
    exists w :: Walk(g, a, b, w)
  }

  ghost predicate ShortestWalk(g: Graph, a: int, b: int, w: seq<int>) {
    Walk(g, a, b, w) && forall w' :: Walk(g, a, b, w') ==> |w| <= |w'|
  }

  /** Every neighbour is a block of the map, so looking up a reached block never fails. */
  predicate Closed(g: Graph) {
    forall u, i :: u in g && 0 <= i < |g[u]| ==> g[u][i] in g
  }

  lemma {:induction false} WalkStays(g: Graph, a: int, b: int, w: seq<int>)
    requires Closed(g) && a in g && Walk(g, a, b, w)
    ensures b in g
    decreases |w|
  {
    if |w| > 1 {
      var init := w[..|w| - 1];
      assert forall i :: 0 <= i < |init| ==> init[i] == w[i];
      WalkStays(g, a, w[|w| - 2], init);
      assert w[|w| - 2 + 1] in g[w[|w| - 2]];
    }
  }

  lemma {:induction false} ShortestExists(g: Graph, a: int, b: int, w: seq<int>)
    requires Walk(g, a, b, w)
    ensures exists s :: ShortestWalk(g, a, b, s)
    decreases |w|
  {
    if v :| Walk(g, a, b, v) && |v| < |w| {
      ShortestExists(g, a, b, v);
    } else {
      assert ShortestWalk(g, a, b, w);
    }
  }

  /** The number of blocks on a shortest walk, 0 if there is none: the key the planner minimises. */
  ghost function PathLength(g: Graph, a: int, b: int): (n: nat)
    ensures n == 0 <==> !Reaches(g, a, b)
    ensures forall w :: ShortestWalk(g, a, b, w) ==> |w| == n
  {
    if !Reaches(g, a, b) then
      0
    else
      var w :| Walk(g, a, b, w);
      ShortestExists(g, a, b, w);
      var s :| ShortestWalk(g, a, b, s);
      |s|
  }

  lemma StandingStill(g: Graph, a: int)
    ensures ShortestWalk(g, a, a, [a]) && PathLength(g, a, a) == 1
  {
    assert Walk(g, a, a, [a]);
  }

  /** No block is followed by itself. */
  predicate NoStutter(w: seq<int>) {
    forall i :: 0 <= i < |w| - 1 ==> w[i] != w[i + 1]
  }

  /** A repeated block can be left out. */
  lemma CutRepeat(g: Graph, a: int, b: int, w: seq<int>, i: nat)
    requires Walk(g, a, b, w) && i < |w| - 1 && w[i] == w[i + 1]
    ensures Walk(g, a, b, w[..i] + w[i + 1..])
  {
    var cut := w[..i] + w[i + 1..];
    assert forall k :: 0 <= k < |cut| ==> cut[k] == if k <= i then w[k] else w[k + 1];
  }

  lemma ShortestNeverStutters(g: Graph, a: int, b: int, w: seq<int>)
    requires ShortestWalk(g, a, b, w)
    ensures NoStutter(w)
  {
    forall i | 0 <= i < |w| - 1 ensures w[i] != w[i + 1] {
      if w[i] == w[i + 1] {
        CutRepeat(g, a, b, w, i);
      }
    }
  }

  lemma JoinWalks(g: Graph, a: int, b: int, c: int, v: seq<int>, w: seq<int>)
    requires Walk(g, a, b, v) && Walk(g, b, c, w)
    ensures Walk(g, a, c, v[..|v| - 1] + w)
    ensures NoStutter(v) && NoStutter(w) ==> NoStutter(v[..|v| - 1] + w)
  {
    var n := |v| - 1;
    var all := v[..n] + w;
    assert forall k :: 0 <= k < |all| ==> all[k] == if k <= n then v[k] else w[k - n];
    forall i | 0 <= i < |all| - 1 ensures all[i] in g && all[i + 1] in g[all[i]] {
      if i >= n {
        assert w[i - n + 1] in g[w[i - n]];
      }
    }
    if NoStutter(v) && NoStutter(w) {
      forall i | 0 <= i < |all| - 1 ensures all[i] != all[i + 1] {
        if i >= n {
          assert w[i - n + 1] != w[i - n];
        }
      }
    }
  }

  // ----- tours

  type Leg = w: seq<int> | w != [] witness [0]

  function Last(leg: Leg): int {
    leg[|leg| - 1]
  }

  /** A shortest walk from `cur` to one of the goals that no other goal is nearer than. */
  ghost predicate NearestLeg(g: Graph, cur: int, goals: set<int>, leg: Leg) {
    && Last(leg) in goals
    && ShortestWalk(g, cur, Last(leg), leg)
    && forall r :: r in goals ==> |leg| <= PathLength(g, cur, r)
  }

  /** Where the tour stands after these legs. */
  function End(start: int, legs: seq<Leg>): int {
    if legs == [] then start else Last(legs[|legs| - 1])
  }

  /** The targets no leg has ended at. */
  function Left(targets: set<int>, legs: seq<Leg>): set<int> {
    if legs == [] then targets else Left(targets, legs[..|legs| - 1]) - {Last(legs[|legs| - 1])}
  }

  /** Each leg goes to a nearest target among those left at that point. */
  ghost predicate Greedy(g: Graph, start: int, targets: set<int>, legs: seq<Leg>) {
    legs == [] ||
    var before := legs[..|legs| - 1];
    && Greedy(g, start, targets, before)
    && NearestLeg(g, End(start, before), Left(targets, before), legs[|legs| - 1])
  }

  /** The legs one after the other, without the block each ends at. */
  function Joined(legs: seq<Leg>): seq<int> {
    if legs == [] then [] else Joined(legs[..|legs| - 1]) + legs[|legs| - 1][..|legs[|legs| - 1]| - 1]
  }

  /** The collection stops when nothing is left, or when something left cannot be reached. */
  ghost predicate Stops(g: Graph, cur: int, left: set<int>) {
    left == {} || exists r :: r in left && !Reaches(g, cur, r)
  }

  const ENTRANCES: seq<int> := [1, 2, 3]

  ghost predicate AllReachable(g: Graph, cur: int, blocks: seq<int>) {
    forall e :: e in blocks ==> Reaches(g, cur, e)
  }

  /** The last leg: to the first of the nearest entrances, and nothing as soon as one entrance cannot be reached. */
  ghost predicate ExitLeg(g: Graph, cur: int, leg: seq<int>) {
    if AllReachable(g, cur, ENTRANCES) then
      exists k :: 0 <= k < |ENTRANCES| && FirstNearest(g, cur, ENTRANCES, k) && ShortestWalk(g, cur, ENTRANCES[k], leg)
    else
      leg == []
  }

  /** Candidate k has the least path length, and is the first with it. */
  ghost predicate FirstNearest(g: Graph, cur: int, candidates: seq<int>, k: nat)
    requires k < |candidates|
  {
    && (forall j :: 0 <= j < |candidates| ==> PathLength(g, cur, candidates[k]) <= PathLength(g, cur, candidates[j]))
    && (forall j :: 0 <= j < k ==> PathLength(g, cur, candidates[k]) < PathLength(g, cur, candidates[j]))
  }

  /** One more leg in front of its end, put where the tour stood. */
  lemma JoinedStep(start: int, legs: seq<Leg>)
    requires legs != []
    ensures var before, leg := legs[..|legs| - 1], legs[|legs| - 1];
            var sofar := Joined(before) + [End(start, before)];
            Joined(legs) + [End(start, legs)] == sofar[..|sofar| - 1] + leg
  {
    var before, leg := legs[..|legs| - 1], legs[|legs| - 1];
    assert leg == leg[..|leg| - 1] + [Last(leg)];
    assert (Joined(before) + [End(start, before)])[..|Joined(before)|] == Joined(before);
  }

  /** The legs of a tour join into a walk that does not stutter. */
  lemma {:induction false} LegsJoin(g: Graph, start: int, targets: set<int>, legs: seq<Leg>)
    requires Greedy(g, start, targets, legs)
    ensures Walk(g, start, End(start, legs), Joined(legs) + [End(start, legs)])
    ensures NoStutter(Joined(legs) + [End(start, legs)])
  {
    if legs == [] {
      assert Joined(legs) + [End(start, legs)] == [start];
    } else {
      hide Walk;
      hide NoStutter;
      hide Joined;
      var before, leg := legs[..|legs| - 1], legs[|legs| - 1];
      var here := End(start, before);
      LegsJoin(g, start, targets, before);
      ShortestNeverStutters(g, here, Last(leg), leg);
      JoinWalks(g, start, here, Last(leg), Joined(before) + [here], leg);
      JoinedStep(start, legs);
    }
  }

  /** Every target that is no longer left is on the way. */
  lemma {:induction false} TargetsVisited(g: Graph, start: int, targets: set<int>, legs: seq<Leg>, t: int)
    requires Greedy(g, start, targets, legs) && t in targets && t !in Left(targets, legs)
    ensures t in Joined(legs) + [End(start, legs)]
  {
    if legs != [] {
      var before, leg := legs[..|legs| - 1], legs[|legs| - 1];
      JoinedStep(start, legs);
      if t in Left(targets, before) {
        assert t == Last(leg);
      } else {
        TargetsVisited(g, start, targets, before, t);
        assert leg[0] == End(start, before);
      }
    }
  }

  // ----- when the whole tour succeeds

  ghost predicate StronglyConnected(g: Graph) {
    forall a, b :: a in g && b in g ==> Reaches(g, a, b)
  }

  lemma {:induction false} EndKnown(g: Graph, start: int, targets: set<int>, legs: seq<Leg>)
    requires Greedy(g, start, targets, legs)
    ensures End(start, legs) in targets + {start} && Left(targets, legs) <= targets
  {
    if legs != [] {
      EndKnown(g, start, targets, legs[..|legs| - 1]);
    }
  }

  /** The legs of plan_route: greedy ones until it stops, then the one to an entrance. */
  ghost predicate Tour(g: Graph, start: int, targets: set<int>, legs: seq<Leg>, exitLeg: seq<int>) {
    && Greedy(g, start, targets, legs)
    && Stops(g, End(start, legs), Left(targets, legs))
    && ExitLeg(g, End(start, legs), exitLeg)
  }

  /** The route of such legs; None stands for the failure of the code on an empty one. */
  function Route(legs: seq<Leg>, exitLeg: seq<int>): Option<seq<int>> {
    if Joined(legs) + exitLeg == [] then None else Some(Joined(legs) + exitLeg)
  }

  /** A walk from the start that visits every target and ends at an entrance. */
  ghost predicate Complete(g: Graph, start: int, targets: set<int>, route: seq<int>) {
    && route != [] && Walk(g, start, route[|route| - 1], route) && route[|route| - 1] in ENTRANCES
    && forall t :: t in targets ==> t in route
  }

  /**
   On a strongly connected map holding the start, the targets and the entrances, the tour is a walk from the start
   that visits every target and ends at an entrance no other entrance is nearer than to the last target.
   */
  lemma TourIsComplete(g: Graph, start: int, targets: set<int>, legs: seq<Leg>, exitLeg: seq<int>)
    requires StronglyConnected(g) && targets + {start} <= g.Keys && forall e :: e in ENTRANCES ==> e in g
    requires Tour(g, start, targets, legs, exitLeg)
    ensures exitLeg != [] && forall e :: e in ENTRANCES ==> |exitLeg| <= PathLength(g, End(start, legs), e)
    ensures Complete(g, start, targets, Joined(legs) + exitLeg)
  {
    EndKnown(g, start, targets, legs);
    LegsJoin(g, start, targets, legs);
    var here := End(start, legs);
    assert Left(targets, legs) == {};
    assert AllReachable(g, here, ENTRANCES);
    var k :| 0 <= k < |ENTRANCES| && FirstNearest(g, here, ENTRANCES, k)
             && ShortestWalk(g, here, ENTRANCES[k], exitLeg);
    JoinWalks(g, start, here, ENTRANCES[k], Joined(legs) + [here], exitLeg);
    assert (Joined(legs) + [here])[..|Joined(legs)|] == Joined(legs);
    forall t | t in targets ensures t in Joined(legs) + exitLeg {
      TargetsVisited(g, start, targets, legs, t);
      assert exitLeg[0] == here;
    }
  }

  // ----- when planning fails

  lemma {:induction false} FirstLegReaches(g: Graph, start: int, targets: set<int>, legs: seq<Leg>)
    requires Greedy(g, start, targets, legs) && legs != []
    ensures forall t :: t in targets ==> Reaches(g, start, t)
  {
    var before := legs[..|legs| - 1];
    if before != [] {
      FirstLegReaches(g, start, targets, before);
    }
  }

  lemma {:induction false} NoStepTaken(g: Graph, start: int, targets: set<int>, legs: seq<Leg>)
    requires Greedy(g, start, targets, legs) && (Joined(legs) == [] || targets <= {start})
    ensures Joined(legs) == [] && End(start, legs) == start
    ensures targets <= Left(targets, legs) + {start}
  {
    if legs != [] {
      var before, leg := legs[..|legs| - 1], legs[|legs| - 1];
      NoStepTaken(g, start, targets, before);
      EndKnown(g, start, targets, before);
      if targets <= {start} {
        StandingStill(g, start);
      }
      assert |leg| == 1;
    }
  }

  /** An entrance is out of reach, and so is a target, unless there is none but the start. */
  ghost predicate NoRoute(g: Graph, start: int, targets: set<int>) {
    !AllReachable(g, start, [1, 2, 3]) && (targets <= {start} || exists t :: t in targets && !Reaches(g, start, t))
  }

  /** The route stays empty, and the code fails on it, exactly under that condition. */
  lemma RouteEmptyExactly(g: Graph, start: int, targets: set<int>, legs: seq<Leg>, exitLeg: seq<int>)
    requires Tour(g, start, targets, legs, exitLeg)
    ensures Joined(legs) + exitLeg == [] <==> NoRoute(g, start, targets)
  {
    EndKnown(g, start, targets, legs);
    StandingStill(g, start);
    if legs != [] {
      FirstLegReaches(g, start, targets, legs);
    }
    if Joined(legs) == [] || targets <= {start} {
      NoStepTaken(g, start, targets, legs);
    }
  }

  /** With a start that leads nowhere and nothing to collect there is no route. */
  lemma DeadEnd()
    ensures NoRoute(map[5 := []], 5, {})
  {
    var g: Graph := map[5 := []];
    assert !Reaches(g, 5, 1) by {
      forall path ensures !Walk(g, 5, 1, path) {
        assert |path| > 1 ==> path[0 + 1] !in g[5];
      }
    }
    assert ENTRANCES[0] == 1;
  }

  // ----- dropping repeated blocks

  /** A block equal to the one kept last is dropped. */
  function Dedup(s: seq<int>): (r: seq<int>)
    ensures s != [] ==> r != [] && r[|r| - 1] == s[|s| - 1]
  {
    if |s| <= 1 then s
    else
      var kept := Dedup(s[..|s| - 1]);
      if s[|s| - 1] != kept[|kept| - 1] then kept + [s[|s| - 1]] else kept
  }

  lemma StutterSnoc(s: seq<int>, x: int)
    requires s != []
    ensures NoStutter(s + [x]) <==> NoStutter(s) && s[|s| - 1] != x
  {
    var t := s + [x];
    assert forall i :: 0 <= i < |s| ==> t[i] == s[i];
    if NoStutter(t) {
      assert t[|s| - 1] != t[|s| - 1 + 1];
      forall i | 0 <= i < |s| - 1 ensures s[i] != s[i + 1] {
        assert t[i] != t[i + 1];
      }
    }
  }

  /** Dropping repeats gives a list without repeats, and changes nothing exactly when there were none. */
  lemma {:induction false} DedupChangesNothing(s: seq<int>)
    ensures NoStutter(Dedup(s)) && |Dedup(s)| <= |s|
    ensures Dedup(s) == s <==> NoStutter(s)
  {
    if |s| > 1 {
      hide NoStutter;
      var init, last := s[..|s| - 1], s[|s| - 1];
      assert s == init + [last];
      DedupChangesNothing(init);
      StutterSnoc(init, last);
      StutterSnoc(Dedup(init), last);
    }
  }

  /** The route of a tour has no repeats to drop. */
  lemma TourNeverStutters(g: Graph, start: int, targets: set<int>, legs: seq<Leg>, exitLeg: seq<int>)
    requires Tour(g, start, targets, legs, exitLeg)
    ensures Dedup(Joined(legs) + exitLeg) == Joined(legs) + exitLeg
  {
    var here := End(start, legs);
    var all := Joined(legs) + [here];
    LegsJoin(g, start, targets, legs);
    assert all[..|Joined(legs)|] == Joined(legs);
    if exitLeg != [] {
      var k :| 0 <= k < |ENTRANCES| && FirstNearest(g, here, ENTRANCES, k)
               && ShortestWalk(g, here, ENTRANCES[k], exitLeg);
      ShortestNeverStutters(g, here, ENTRANCES[k], exitLeg);
      JoinWalks(g, start, here, ENTRANCES[k], all, exitLeg);
    } else {
      assert forall i :: 0 <= i < |Joined(legs)| ==> Joined(legs)[i] == all[i];
      assert Joined(legs) + exitLeg == Joined(legs);
    }
    DedupChangesNothing(Joined(legs) + exitLeg);
  }

  lemma TourFacts(g: Graph, start: int, targets: set<int>, legs: seq<Leg>, exitLeg: seq<int>)
    requires start in g && Tour(g, start, targets, legs, exitLeg)
    ensures Dedup(Joined(legs) + exitLeg) == Joined(legs) + exitLeg
    ensures Joined(legs) + exitLeg == [] <==> NoRoute(g, start, targets)
    ensures StronglyConnected(g) && targets + {1, 2, 3} <= g.Keys ==>
              Complete(g, start, targets, Joined(legs) + exitLeg)
    ensures Complete(g, start, targets, Joined(legs) + exitLeg) ==> Joined(legs) + exitLeg != []
  {
    TourNeverStutters(g, start, targets, legs, exitLeg);
    RouteEmptyExactly(g, start, targets, legs, exitLeg);
    if StronglyConnected(g) && targets + {1, 2, 3} <= g.Keys {
      assert targets + {start} <= g.Keys;
      TourIsComplete(g, start, targets, legs, exitLeg);
    }
  }
}
