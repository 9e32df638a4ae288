/** Shortest paths over the forest blocks and the collection tour built on them (forest_planner.py). */
module ForestPlanner {
  import opened Common
  import opened ForestTours

  function SetOf(s: seq<int>): set<int> {
    set x | x in s
  }

  // ----- the priority queue (heapq on pairs)

  type Queue = multiset<(nat, int)>

  predicate Precedes(a: (nat, int), b: (nat, int)) {
    a.0 < b.0 || (a.0 == b.0 && a.1 <= b.1)
  }

  predicate IsLeast(q: Queue, m: (nat, int)) {
    m in q && forall x :: x in q ==> Precedes(m, x)
  }

  lemma {:induction false} LeastExists(q: Queue)
    requires |q| > 0
    ensures exists m :: IsLeast(q, m)
    decreases |q|
  {
    var x :| x in q;
    var rest := q - multiset{x};
    assert forall y :: y in q ==> y == x || y in rest;
    if |rest| == 0 {
      assert IsLeast(q, x);
    } else {
      LeastExists(rest);
      var m :| IsLeast(rest, m);
      assert IsLeast(q, if Precedes(m, x) then m else x);
    }
  }

  // ----- what the search maintains

  predicate Tables(g: Graph, dist: map<int, nat>, done: set<int>) {
    done <= dist.Keys <= g.Keys
  }

  /**
   dist, prev and the queue while blocks are expanded in order of distance. `done` are the expanded blocks and
   `level` is the distance last popped. While block `cur` is being expanded, its first `i` neighbours are seen.
   */
  ghost predicate SearchInv(g: Graph, start: int, dist: map<int, nat>, prev: map<int, Option<int>>, queue: Queue,
                            done: set<int>, level: nat)
  {
    && start in dist && dist[start] == 0
    && prev.Keys == dist.Keys && Tables(g, dist, done)
    && prev[start] == None
    // every other seen block hangs on its predecessor
    && (forall v :: v in dist && v != start ==>
          && prev[v].Some? && prev[v].value in dist && prev[v].value in g
          && v in g[prev[v].value] && dist[v] == dist[prev[v].value] + 1)
    // the queue holds each seen, unexpanded block once, with its distance; distances span one step
    && (forall x: (nat, int) :: x in queue ==>
          queue[x] == 1 && x.1 in dist && dist[x.1] == x.0 && x.1 !in done && level <= x.0 <= level + 1)
    && (forall v :: v in dist && v !in done ==> (dist[v], v) in queue)
    && (forall v :: v in done ==> dist[v] <= level)
  }

  /** The first `n` neighbours of `u` have been seen, at most one step further. */
  ghost predicate Seen(g: Graph, dist: map<int, nat>, u: int, n: nat)
    requires u in g && u in dist && n <= |g[u]|
  {
    forall i :: 0 <= i < n ==> g[u][i] in dist && dist[g[u][i]] <= dist[u] + 1
  }

  ghost predicate Expanded(g: Graph, dist: map<int, nat>, done: set<int>)
    requires Tables(g, dist, done)
  {
    forall u :: u in done ==> Seen(g, dist, u, |g[u]|)
  }

  /** How the main loop ends: the goal was popped, or nothing is left in the queue. */
  ghost predicate Finished(g: Graph, start: int, goal: int, dist: map<int, nat>, prev: map<int, Option<int>>,
                           queue: Queue, done: set<int>, level: nat)
  {
    && SearchInv(g, start, dist, prev, queue, done, level)
    && Expanded(g, dist, done - {goal})
    && (if goal in done then dist[goal] == level else queue == multiset{})
  }

  /** On a walk from the start, block number i is seen at distance at most i, as far as the search went. */
  lemma {:induction false} WalkSeen(g: Graph, start: int, goal: int, dist: map<int, nat>, prev: map<int, Option<int>>,
                                    queue: Queue, done: set<int>, level: nat, w: seq<int>, i: nat)
    requires Finished(g, start, goal, dist, prev, queue, done, level)
    requires i < |w| && w[0] == start && Edges(g, w)
    requires goal in done ==> i <= level
    ensures w[i] in dist && dist[w[i]] <= i
  {
    if i > 0 {
      WalkSeen(g, start, goal, dist, prev, queue, done, level, w, i - 1);
      var u := w[i - 1];
      var entry := (dist[u], u);
      assert u in done || entry in queue;
      assert w[i - 1 + 1] in g[u];
      assert Seen(g, dist, u, |g[u]|);
    }
  }

  /** Every walk from the start to the goal is at least as long as the distance found, and without one there is none. */
  lemma NoShorterWalk(g: Graph, start: int, goal: int, dist: map<int, nat>, prev: map<int, Option<int>>,
                      queue: Queue, done: set<int>, level: nat, w: seq<int>)
    requires Finished(g, start, goal, dist, prev, queue, done, level)
    requires Walk(g, start, goal, w)
    ensures goal in dist && dist[goal] < |w|
  {
    if goal !in done || |w| <= level {
      WalkSeen(g, start, goal, dist, prev, queue, done, level, w, |w| - 1);
    }
  }

  ghost predicate Extends(dist: map<int, nat>, dist': map<int, nat>) {
    dist.Keys <= dist'.Keys && forall x :: x in dist ==> dist'[x] == dist[x]
  }

  lemma SeenStays(g: Graph, dist: map<int, nat>, dist': map<int, nat>, u: int, n: nat)
    requires u in g && u in dist && n <= |g[u]|
    requires Seen(g, dist, u, n) && Extends(dist, dist')
    ensures Seen(g, dist', u, n)
  {
    assert u in dist' && dist'[u] == dist[u];
    forall i | 0 <= i < n ensures g[u][i] in dist' && dist'[g[u][i]] <= dist'[u] + 1 {
      var v := g[u][i];
      assert v in dist && dist[v] <= dist[u] + 1;
      assert v in dist';
      assert dist'[v] == dist[v];
    }
  }

  lemma ExpandedGrows(g: Graph, dist: map<int, nat>, dist': map<int, nat>, done: set<int>, u: int)
    requires Tables(g, dist, done) && Tables(g, dist', done) && u in done
    requires Expanded(g, dist, done - {u}) && Extends(dist, dist') && Seen(g, dist', u, |g[u]|)
    ensures Expanded(g, dist', done)
  {
    forall x | x in done ensures Seen(g, dist', x, |g[x]|) {
      if x != u {
        SeenStays(g, dist, dist', x, |g[x]|);
      }
    }
  }

  /** Popping the least entry raises the level to its distance and expands its block: the entry is never stale. */
  lemma Popped(g: Graph, start: int, dist: map<int, nat>, prev: map<int, Option<int>>, queue: Queue, done: set<int>,
               level: nat, top: (nat, int))
    requires SearchInv(g, start, dist, prev, queue, done, level) && IsLeast(queue, top)
    ensures top.1 in dist && dist[top.1] == top.0 && top.1 !in done && top.1 in g
    ensures SearchInv(g, start, dist, prev, queue - multiset{top}, done + {top.1}, top.0)
  {
  }

  /** The predecessors of a seen block lead back to the start, one distance at a time. */
  ghost predicate Chain(prev: map<int, Option<int>>, goal: int, path: seq<int>, cur: Option<int>) {
    && (forall x :: x in path ==> x in prev)
    && (forall i :: 0 <= i < |path| - 1 ==> path[i] in prev && prev[path[i]] == Some(path[i + 1]))
    && (if path == [] then cur == Some(goal)
        else path[0] == goal && path[|path| - 1] in prev && cur == prev[path[|path| - 1]])
  }

  function Reverse(s: seq<int>): (r: seq<int>)
    ensures |r| == |s| && forall i :: 0 <= i < |s| ==> r[i] == s[|s| - 1 - i]
  {
    if s == [] then [] else Reverse(s[1..]) + [s[0]]
  }

  lemma ChainIsWalk(g: Graph, start: int, dist: map<int, nat>, prev: map<int, Option<int>>, queue: Queue,
                    done: set<int>, level: nat, goal: int, path: seq<int>)
    requires SearchInv(g, start, dist, prev, queue, done, level)
    requires path != [] && Chain(prev, goal, path, None)
    ensures Walk(g, start, goal, Reverse(path))
  {
    hide Reverse;
    var w := Reverse(path);
    forall i | 0 <= i < |w| - 1 ensures w[i] in g && w[i + 1] in g[w[i]] {
      var k := |path| - 2 - i;
      assert prev[path[k]] == Some(path[k + 1]);
      assert w[i] == path[k + 1] && w[i + 1] == path[k];
    }
  }

  // ----- Dijkstra

  class Planner {
    const graph: Graph

    constructor (graph: Graph)
      ensures this.graph == graph
    {
      this.graph := graph;
    }

    /** One relaxation: the body of the loop over the neighbours. */
    method Relax(dist: map<int, nat>, prev: map<int, Option<int>>, queue: Queue, u: int, v: int, d: nat,
                 ghost start: int, ghost done: set<int>)
      returns (dist': map<int, nat>, prev': map<int, Option<int>>, queue': Queue)
      requires SearchInv(graph, start, dist, prev, queue, done, d)
      requires u in done && dist[u] == d && v in graph[u] && v in graph
      ensures SearchInv(graph, start, dist', prev', queue', done, d)
      ensures v in dist' && dist'[v] <= d + 1
      ensures Extends(dist, dist') && Tables(graph, dist', done)
    {
      dist', prev', queue' := dist, prev, queue;
      var nd := d + 1;
      if v !in dist || nd < dist[v] {
        dist' := dist[v := nd];
        prev' := prev[v := Some(u)];
        queue' := queue + multiset{(nd, v)};
      }
    }

    /** Expand one popped block: relax all its neighbours. */
    method Expand(dist: map<int, nat>, prev: map<int, Option<int>>, queue: Queue, d: nat, u: int,
                  ghost start: int, ghost done: set<int>)
      returns (dist': map<int, nat>, prev': map<int, Option<int>>, queue': Queue)
      requires Closed(graph) && u in done && Tables(graph, dist, done) && dist[u] == d
      requires SearchInv(graph, start, dist, prev, queue, done, d) && Expanded(graph, dist, done - {u})
      ensures SearchInv(graph, start, dist', prev', queue', done, d)
      ensures Tables(graph, dist', done) && Expanded(graph, dist', done)
    {
      hide SearchInv;
      dist', prev', queue' := dist, prev, queue;
      for i := 0 to |graph[u]|
        invariant SearchInv(graph, start, dist', prev', queue', done, d)
        invariant Tables(graph, dist', done) && Extends(dist, dist')
        invariant Seen(graph, dist', u, i)
      {
        ghost var before := dist';
        dist', prev', queue' := Relax(dist', prev', queue', u, graph[u][i], d, start, done);
        SeenStays(graph, before, dist', u, i);
      }
      ExpandedGrows(graph, dist, dist', done, u);
    }

    /** The main loop of shortest_path: expand blocks until the goal is popped or none is left. */
    method Explore(start: int, goal: int)
      returns (dist: map<int, nat>, prev: map<int, Option<int>>)
      requires Closed(graph) && start in graph
      ensures exists queue, done, level :: Finished(graph, start, goal, dist, prev, queue, done, level)
    {
      dist := map[start := 0];
      prev := map[start := None];
      var pq: Queue := multiset{(0, start)};
      ghost var done, level := {}, 0;
      assert SearchInv(graph, start, dist, prev, pq, done, level);
      hide SearchInv;
      while |pq| > 0
        invariant SearchInv(graph, start, dist, prev, pq, done, level)
        invariant Tables(graph, dist, done) && Expanded(graph, dist, done)
        invariant goal !in done
        decreases graph.Keys - done, |pq|
      {
        LeastExists(pq);
        var top :| IsLeast(pq, top);
        var d, u := top.0, top.1;
        Popped(graph, start, dist, prev, pq, done, level, top);
        pq := pq - multiset{top};
        level, done := d, done + {u};
        assert Expanded(graph, dist, done - {u});
        if d <= dist[u] {
          if u == goal {
            assert Finished(graph, start, goal, dist, prev, pq, done, level);
            return;
          }
          dist, prev, pq := Expand(dist, prev, pq, d, u, start, done);
        }
      }
      assert Finished(graph, start, goal, dist, prev, pq, done, level);
    }

    method ShortestPath(start: int, goal: int) returns (path: seq<int>)
      requires Closed(graph) && (start in graph || start == goal)
      ensures if Reaches(graph, start, goal) then ShortestWalk(graph, start, goal, path) else path == []
      ensures |path| == PathLength(graph, start, goal)
    {
      if start == goal {
        StandingStill(graph, start);
        return [start];
      }
      var dist, prev := Explore(start, goal);
      ghost var queue, done, level :| Finished(graph, start, goal, dist, prev, queue, done, level);
      if goal !in prev {
        forall w ensures !Walk(graph, start, goal, w) {
          if Walk(graph, start, goal, w) {
            NoShorterWalk(graph, start, goal, dist, prev, queue, done, level, w);
          }
        }
        return [];
      }
      path := WalkBack(start, goal, dist, prev, queue, done, level);
      forall w | Walk(graph, start, goal, w) ensures |path| <= |w| {
        NoShorterWalk(graph, start, goal, dist, prev, queue, done, level, w);
      }
    }

    /** Follow the predecessors from the goal and turn the path round. */
    method WalkBack(start: int, goal: int, dist: map<int, nat>, prev: map<int, Option<int>>,
                    ghost queue: Queue, ghost done: set<int>, ghost level: nat)
      returns (path: seq<int>)
      requires SearchInv(graph, start, dist, prev, queue, done, level) && goal in prev
      ensures Walk(graph, start, goal, path) && |path| == dist[goal] + 1
    {
      var back: seq<int> := [];
      var cur := Some(goal);
      while cur.Some?
        invariant Chain(prev, goal, back, cur)
        invariant cur.Some? ==> cur.value in prev && |back| + dist[cur.value] == dist[goal]
        invariant cur.None? ==> back != [] && |back| == dist[goal] + 1
        decreases if cur.Some? then dist[cur.value] + 1 else 0
      {
        var at := cur.value;
        back := back + [at];
        cur := prev[at];
        assert at in dist;
        assert at == start || (cur.Some? && dist[at] == dist[cur.value] + 1);
      }
      ChainIsWalk(graph, start, dist, prev, queue, done, level, goal, back);
      path := Reverse(back);
    }

    /** The number of steps between two blocks; 0 also stands for "cannot be reached". */
    method BlockDistance(a: int, b: int) returns (steps: nat)
      requires Closed(graph) && (a in graph || a == b)
      ensures steps == 0 <==> a == b || !Reaches(graph, a, b)
      ensures steps > 0 ==> PathLength(graph, a, b) == steps + 1
    {
      var path := ShortestPath(a, b);
      StandingStill(graph, a);
      assert |path| == 1 ==> path[0] == a && path[0] == b;
      steps := if |path| - 1 > 0 then |path| - 1 else 0;
    }

    /** The first of the candidates whose shortest path is shortest (min with a key). */
    method Nearest(cur: int, candidates: seq<int>) returns (k: nat)
      requires Closed(graph) && cur in graph && candidates != []
      ensures k < |candidates| && FirstNearest(graph, cur, candidates, k)
    {
      hide PathLength;
      hide ShortestWalk;
      k := 0;
      var path := ShortestPath(cur, candidates[0]);
      var least := |path|;
      for i := 1 to |candidates|
        invariant k < i && least == PathLength(graph, cur, candidates[k])
        invariant forall j :: 0 <= j < i ==> least <= PathLength(graph, cur, candidates[j])
        invariant forall j :: 0 <= j < k ==> least < PathLength(graph, cur, candidates[j])
      {
        path := ShortestPath(cur, candidates[i]);
        if |path| < least {
          k, least := i, |path|;
        }
      }
    }

    /** Go to a nearest target while one is left and all that are left can be reached. */
    method Collect(start: int, targets: set<int>) returns (route: seq<int>, cur: int, ghost legs: seq<Leg>)
      requires Closed(graph) && start in graph
      ensures Greedy(graph, start, targets, legs)
      ensures Stops(graph, End(start, legs), Left(targets, legs))
      ensures route == Joined(legs) && cur == End(start, legs) && cur in graph
    {
      var unvisited := targets;
      route, cur, legs := [], start, [];
      assert Greedy(graph, start, targets, legs) && Left(targets, legs) == targets && Joined(legs) == [];
      hide Greedy;
      hide Left;
      hide Joined;
      hide FirstNearest;
      hide PathLength;
      while unvisited != {}
        invariant Greedy(graph, start, targets, legs)
        invariant unvisited == Left(targets, legs)
        invariant route == Joined(legs) && cur == End(start, legs) && cur in graph
        decreases |unvisited|
      {
        var listed := Listed(unvisited);
        assert (forall t :: t !in unvisited) ==> unvisited == {};
        var k := Nearest(cur, listed);
        var best := listed[k];
        var leg := ShortestPath(cur, best);
        if leg == [] {
          break;
        }
        AddLeg(graph, start, targets, legs, listed, k, leg);
        WalkStays(graph, cur, best, leg);
        route := route + leg[..|leg| - 1];
        ghost var next: Leg := leg;
        legs := legs + [next];
        cur := best;
        unvisited := unvisited - {best};
      }
    }

    /**
     The whole route, or None where the code fails on an empty one: exactly when there is no route at all. On a
     strongly connected map it is complete.
     */
    method PlanRoute(start: int, targets: seq<int>) returns (route: Option<seq<int>>)
      requires Closed(graph) && start in graph
      ensures exists legs, exitLeg :: Tour(graph, start, SetOf(targets), legs, exitLeg) && route == Route(legs, exitLeg)
      ensures route == None <==> NoRoute(graph, start, SetOf(targets))
      ensures StronglyConnected(graph) && SetOf(targets) + {1, 2, 3} <= graph.Keys ==>
                route.Some? && Complete(graph, start, SetOf(targets), route.value)
    {
      hide Greedy;
      hide Joined;
      hide Stops;
      hide NoRoute;
      hide Complete;
      hide StronglyConnected;
      hide Dedup;
      hide Reaches;
      hide ShortestWalk;
      var walked, cur;
      ghost var legs;
      walked, cur, legs := Collect(start, SetOf(targets));
      var k := Nearest(cur, ENTRANCES);
      var exitPath := ShortestPath(cur, ENTRANCES[k]);
      ghost var exitLeg := exitPath;
      assert ExitLeg(graph, cur, exitLeg);
      if exitPath != [] {
        walked := walked + exitPath;
      }
      assert walked == Joined(legs) + exitLeg;
      TourFacts(graph, start, SetOf(targets), legs, exitLeg);
      if walked == [] {
        route := None;
      } else {
        var deduped := WithoutRepeats(walked);
        route := Some(deduped);
      }
      assert Tour(graph, start, SetOf(targets), legs, exitLeg) && route == Route(legs, exitLeg);
    }
  }

  /** The set in whatever order Python iterates over it. */
  method Listed(s: set<int>) returns (q: seq<int>)
    ensures forall x :: x in q <==> x in s
  {
    q := [];
    var rest := s;
    while rest != {}
      invariant forall x :: x in s <==> x in rest || x in q
      decreases |rest|
    {
      assert (forall y :: y !in rest) ==> rest == {};
      var x :| x in rest;
      q := q + [x];
      rest := rest - {x};
    }
  }

  /** The de-duplication pass of plan_route. */
  method WithoutRepeats(route: seq<int>) returns (deduped: seq<int>)
    requires route != []
    ensures deduped == Dedup(route)
  {
    deduped := [route[0]];
    assert route[..1] == [route[0]];
    for i := 1 to |route|
      invariant deduped == Dedup(route[..i])
    {
      assert route[..i + 1][..i] == route[..i];
      if route[i] != deduped[|deduped| - 1] {
        deduped := deduped + [route[i]];
      }
    }
    assert route[..|route|] == route;
  }

  lemma NearestListed(g: Graph, cur: int, left: set<int>, listed: seq<int>, k: nat, leg: seq<int>)
    requires forall x :: x in listed <==> x in left
    requires k < |listed| && FirstNearest(g, cur, listed, k)
    requires leg != [] && ShortestWalk(g, cur, listed[k], leg)
    ensures Last(leg) == listed[k] && NearestLeg(g, cur, left, leg)
  {
    PathLengthIs(g, cur, listed[k], leg);
    hide ShortestWalk;
    hide PathLength;
    forall r | r in left ensures |leg| <= PathLength(g, cur, r) {
      var j :| 0 <= j < |listed| && listed[j] == r;
    }
  }

  lemma PathLengthIs(g: Graph, a: int, b: int, w: seq<int>)
    requires ShortestWalk(g, a, b, w)
    ensures PathLength(g, a, b) == |w| && w != [] && Last(w) == b
  {
  }

  /** The leg to the first nearest of the targets left continues the tour. */
  lemma AddLeg(g: Graph, start: int, targets: set<int>, legs: seq<Leg>, listed: seq<int>, k: nat, leg: seq<int>)
    requires Greedy(g, start, targets, legs) && forall x :: x in listed <==> x in Left(targets, legs)
    requires k < |listed| && FirstNearest(g, End(start, legs), listed, k)
    requires leg != [] && ShortestWalk(g, End(start, legs), listed[k], leg)
    ensures Last(leg) == listed[k]
    ensures Greedy(g, start, targets, legs + [leg]) && Left(targets, legs + [leg]) == Left(targets, legs) - {listed[k]}
    ensures Joined(legs + [leg]) == Joined(legs) + leg[..|leg| - 1] && End(start, legs + [leg]) == listed[k]
  {
    NearestListed(g, End(start, legs), Left(targets, legs), listed, k, leg);
    hide FirstNearest;
    hide ShortestWalk;
    hide NearestLeg;
    assert (legs + [leg])[..|legs|] == legs;
  }

  // ----- the map of the forest

  const FOREST_LAYOUT: Graph := map[
    1 := [2, 5], 2 := [1, 3, 6], 3 := [2, 4, 7],
    4 := [3, 8], 5 := [1, 6, 9], 6 := [2, 5, 7, 10],
    7 := [3, 6, 8, 11], 8 := [4, 7, 12], 9 := [5, 10],
    10 := [6, 9, 11], 11 := [7, 10, 12], 12 := [8, 11]]

  /** Blocks 1 to 12 lie in rows of four. */
  function Row(b: int): int { (b - 1) / 4 }

  function Column(b: int): int { (b - 1) % 4 }

  predicate Adjacent(a: int, b: int) {
    || (Row(a) == Row(b) && (Column(b) == Column(a) + 1 || Column(a) == Column(b) + 1))
    || (Column(a) == Column(b) && (Row(b) == Row(a) + 1 || Row(a) == Row(b) + 1))
  }

  /** The default map holds exactly the blocks of that grid, each with exactly the blocks beside it, in rising order. */
  lemma LayoutIsGrid(a: int)
    ensures a in FOREST_LAYOUT <==> 1 <= a <= 12
    ensures a in FOREST_LAYOUT ==>
              && (forall b :: b in FOREST_LAYOUT[a] <==> 1 <= b <= 12 && Adjacent(a, b))
              && (forall i, j :: 0 <= i < j < |FOREST_LAYOUT[a]| ==> FOREST_LAYOUT[a][i] < FOREST_LAYOUT[a][j])
  {
    if 1 <= a <= 12 {
      forall b ensures b in FOREST_LAYOUT[a] <==> 1 <= b <= 12 && Adjacent(a, b) {
        NeighboursOf(a, b);
      }
    }
  }

  lemma NeighboursOf(a: int, b: int)
    requires 1 <= a <= 12
    ensures b in FOREST_LAYOUT[a] <==> 1 <= b <= 12 && Adjacent(a, b)
  {
    var n := FOREST_LAYOUT[a];
    assert b in n <==> b == n[0] || b == n[1] || (|n| > 2 && b == n[2]) || (|n| > 3 && b == n[3]);
  }

  /** A closed walk over every block connects the map. */
  lemma ClosedWalkConnects(g: Graph, a: int, loop: seq<int>)
    requires Walk(g, a, a, loop) && forall b :: b in g ==> b in loop
    ensures StronglyConnected(g)
  {
    forall x, y | x in g && y in g ensures Reaches(g, x, y) {
      var i :| 0 <= i < |loop| && loop[i] == x;
      var j :| 0 <= j < |loop| && loop[j] == y;
      Slice(g, loop, i, |loop| - 1);
      Slice(g, loop, 0, j);
      JoinWalks(g, x, a, y, loop[i..|loop|], loop[0..j + 1]);
    }
  }

  lemma Slice(g: Graph, w: seq<int>, i: nat, j: nat)
    requires Edges(g, w) && i <= j < |w|
    ensures Walk(g, w[i], w[j], w[i..j + 1])
  {
    var part := w[i..j + 1];
    assert forall k :: 0 <= k < |part| ==> part[k] == w[i + k];
    forall k | 0 <= k < |part| - 1 ensures part[k] in g && part[k + 1] in g[part[k]] {
      assert w[i + k + 1] in g[w[i + k]];
    }
  }

  const WAY_OUT: seq<int> := [1, 2, 3, 4, 8, 12, 11, 10]
  const WAY_BACK: seq<int> := [10, 9, 5, 6, 7, 3, 2, 1]
  const ROUND: seq<int> := [1, 2, 3, 4, 8, 12, 11, 10, 9, 5, 6, 7, 3, 2, 1]

  lemma WayOutIsWalk()
    ensures Walk(FOREST_LAYOUT, 1, 10, WAY_OUT)
  {
    assert FOREST_LAYOUT[1][0] == 2;
    assert FOREST_LAYOUT[2][1] == 3;
    assert FOREST_LAYOUT[3][1] == 4;
    assert FOREST_LAYOUT[4][1] == 8;
    assert FOREST_LAYOUT[8][2] == 12;
    assert FOREST_LAYOUT[12][1] == 11;
    assert FOREST_LAYOUT[11][1] == 10;
  }

  lemma WayBackIsWalk()
    ensures Walk(FOREST_LAYOUT, 10, 1, WAY_BACK)
  {
    assert FOREST_LAYOUT[10][1] == 9;
    assert FOREST_LAYOUT[9][0] == 5;
    assert FOREST_LAYOUT[5][1] == 6;
    assert FOREST_LAYOUT[6][2] == 7;
    assert FOREST_LAYOUT[7][0] == 3;
    assert FOREST_LAYOUT[3][0] == 2;
    assert FOREST_LAYOUT[2][0] == 1;
  }

  lemma RoundIsWalk()
    ensures Walk(FOREST_LAYOUT, 1, 1, ROUND)
  {
    hide Walk;
    WayOutIsWalk();
    WayBackIsWalk();
    JoinWalks(FOREST_LAYOUT, 1, 10, 1, WAY_OUT, WAY_BACK);
    assert ROUND == WAY_OUT[..|WAY_OUT| - 1] + WAY_BACK;
  }

  lemma RoundVisitsAll()
    ensures forall b :: b in FOREST_LAYOUT <==> 1 <= b <= 12
    ensures forall b :: b in FOREST_LAYOUT ==> b in ROUND
  {
    forall b | b in FOREST_LAYOUT ensures b in ROUND {
      assert ROUND[if b <= 4 then b - 1 else if b <= 7 then b + 4 else if b == 8 then 4 else 17 - b] == b;
    }
  }

  /** The default map is closed and strongly connected, so tours over its blocks are complete. */
  lemma LayoutConnected()
    ensures Closed(FOREST_LAYOUT) && StronglyConnected(FOREST_LAYOUT)
  {
    assert Closed(FOREST_LAYOUT);
    hide Closed;
    hide Walk;
    RoundIsWalk();
    RoundVisitsAll();
    ClosedWalkConnects(FOREST_LAYOUT, 1, ROUND);
  }
}
