/** What the synchroniser guarantees over whole runs. */
module SynchroniserFacts {
  import opened Synchroniser

  // ----- following points through a cut

  /**
   A way of identifying a point given the base time of the place it is in. `PAYLOAD` ignores times; `CAPTURE`
   gives the absolute capture time.
   */
  type Tag = (Pt, real) -> (int, real)

  const PAYLOAD: Tag := (p: Pt, base: real) => (p.payload, 0.0)
  const CAPTURE: Tag := (p: Pt, base: real) => (p.payload, base + p.curvature / 1000.0)

  /** Re-basing a point does not change what it is identified by. */
  ghost predicate Stable(tag: Tag) {
    forall p: Pt, from: real, to: real :: tag(Rebase(p, from, to), to) == tag(p, from)
  }

  ghost predicate Timeless(tag: Tag) {
    forall p: Pt, a: real, b: real :: tag(p, a) == tag(p, b)
  }

  lemma TagsAreStable()
    ensures Stable(PAYLOAD) && Stable(CAPTURE) && Timeless(PAYLOAD)
  {
  }

  /** How many of the points are identified by `x`. */
  function Count(tag: Tag, x: (int, real), points: seq<Pt>, base: real): nat {
    if points == [] then 0
    else Count(tag, x, points[..|points| - 1], base) + if tag(points[|points| - 1], base) == x then 1 else 0
  }

  /** The same for the first `n` buffered clouds. */
  function CloudCount(tag: Tag, x: (int, real), raw: seq<seq<Pt>>, times: seq<real>, n: nat): nat
    requires n <= |raw| && n <= |times|
  {
    if n == 0 then 0 else CloudCount(tag, x, raw, times, n - 1) + Count(tag, x, raw[n - 1], times[n - 1])
  }

  lemma {:induction false} CountAppend(tag: Tag, x: (int, real), a: seq<Pt>, b: seq<Pt>, base: real)
    ensures Count(tag, x, a + b, base) == Count(tag, x, a, base) + Count(tag, x, b, base)
    decreases |b|
  {
    if b == [] {
      assert a + b == a;
    } else {
      assert (a + b)[..|a + b| - 1] == a + b[..|b| - 1];
      CountAppend(tag, x, a, b[..|b| - 1], base);
    }
  }

  lemma {:induction false} CountTimeless(tag: Tag, x: (int, real), points: seq<Pt>, a: real, b: real)
    requires Timeless(tag)
    ensures Count(tag, x, points, a) == Count(tag, x, points, b)
  {
    if points != [] {
      CountTimeless(tag, x, points[..|points| - 1], a, b);
      assert tag(points[|points| - 1], a) == tag(points[|points| - 1], b);
    }
  }

  lemma CountRebased(tag: Tag, x: (int, real), before: seq<Pt>, p: Pt, from: real, to: real)
    requires Stable(tag)
    ensures Count(tag, x, before + [Rebase(p, from, to)], to) ==
              Count(tag, x, before, to) + if tag(p, from) == x then 1 else 0
  {
    CountAppend(tag, x, before, [Rebase(p, from, to)], to);
    assert tag(Rebase(p, from, to), to) == tag(p, from);
  }

  lemma {:induction false} CloudSplit(tag: Tag, x: (int, real), points: seq<Pt>, header: real, base: real,
          capture: real)
    requires Stable(tag)
    ensures Count(tag, x, EarlyPoints(points, header, base, capture), base)
          + Count(tag, x, LatePoints(points, header, capture), capture) == Count(tag, x, points, header)
  {
    if points != [] {
      var n := |points| - 1;
      CloudSplit(tag, x, points[..n], header, base, capture);
      hide Rebase;
      hide Early;
      hide Stable;
      var p := points[n];
      var e, l := EarlyPoints(points[..n], header, base, capture), LatePoints(points[..n], header, capture);
      if Early(p, header, capture) {
        CountRebased(tag, x, e, p, header, base);
        assert l + [] == l;
      } else {
        CountRebased(tag, x, l, p, header, capture);
        assert e + [] == e;
      }
    }
  }

  /** Cutting the first `n` clouds splits their points and changes no identification. */
  lemma {:induction false} CutSplit(tag: Tag, x: (int, real), raw: seq<seq<Pt>>, times: seq<real>, n: nat,
          base: real, capture: real)
    requires Stable(tag) && n <= |raw| && n <= |times|
    ensures Count(tag, x, CutEarly(raw, times, n, base, capture), base)
          + Count(tag, x, CutLate(raw, times, n, capture), capture)
         == CloudCount(tag, x, raw, times, n)
  {
    hide EarlyPoints;
    hide LatePoints;
    if n != 0 {
      CutSplit(tag, x, raw, times, n - 1, base, capture);
      CloudSplit(tag, x, raw[n - 1], times[n - 1], base, capture);
      var e, l := EarlyPoints(raw[n - 1], times[n - 1], base, capture), LatePoints(raw[n - 1], times[n - 1], capture);
      CountAppend(tag, x, CutEarly(raw, times, n - 1, base, capture), e, base);
      CountAppend(tag, x, CutLate(raw, times, n - 1, capture), l, capture);
    }
  }

  lemma {:induction false} CloudsDrop(tag: Tag, x: (int, real), raw: seq<seq<Pt>>, times: seq<real>, n: nat, m: nat)
    requires n <= m <= |raw| && m <= |times|
    ensures CloudCount(tag, x, raw, times, m) ==
              CloudCount(tag, x, raw, times, n) + CloudCount(tag, x, raw[n..], times[n..], m - n)
    decreases m - n
  {
    if n < m {
      CloudsDrop(tag, x, raw, times, n, m - 1);
      assert raw[n..][m - 1 - n] == raw[m - 1] && times[n..][m - 1 - n] == times[m - 1];
    }
  }

  lemma {:induction false} CloudsPrefix(tag: Tag, x: (int, real), raw: seq<seq<Pt>>, times: seq<real>,
          raw': seq<seq<Pt>>, times': seq<real>, n: nat)
    requires n <= |raw| && n <= |times| && raw <= raw' && times <= times'
    ensures CloudCount(tag, x, raw, times, n) == CloudCount(tag, x, raw', times', n)
  {
    if n != 0 {
      CloudsPrefix(tag, x, raw, times, raw', times', n - 1);
    }
  }

  // ----- conservation over runs

  /** Points received by one event. */
  function ReceivedBy(tag: Tag, x: (int, real), e: Event): nat {
    match e
    case Lidar(t, points) => Count(tag, x, points, t)
    case _ => 0
  }

  function Received(tag: Tag, x: (int, real), es: seq<Event>): nat {
    if es == [] then 0 else Received(tag, x, es[..|es| - 1]) + ReceivedBy(tag, x, es[|es| - 1])
  }

  /** Points inside: carried to the next cut, or buffered, each cloud with the stamp it is going to be cut with. */
  function Held(tag: Tag, x: (int, real), s: State): nat
    requires |s.raw| <= |s.times|
  {
    Count(tag, x, s.next, s.cut) + CloudCount(tag, x, s.raw, s.times, |s.raw|)
  }

  /** Points handed to the LIO update, identified relative to the base they were handed out with. */
  function Handed(tag: Tag, x: (int, real), log: seq<Entry>): nat {
    if log == [] then 0
    else
      var last := log[|log| - 1];
      Handed(tag, x, log[..|log| - 1]) + if last.LioEntry? then Count(tag, x, last.points, last.base) else 0
  }

  predicate Aligned(s: State) {
    |s.raw| == |s.times|
  }

  /** Buffered points that a lidar frame clears because its stamp goes back. */
  function DroppedBy(tag: Tag, x: (int, real), s: State, e: Event): nat
    requires Formed(s)
  {
    if e.Lidar? && e.t < s.lastLidar then CloudCount(tag, x, s.raw, s.times, |s.raw|) else 0
  }

  function Dropped(tag: Tag, x: (int, real), cfg: Config, es: seq<Event>): nat {
    if es == [] then 0
    else
      var n := |es| - 1;
      Dropped(tag, x, cfg, es[..n]) + DroppedBy(tag, x, Run(cfg, INITIAL, es[..n]), es[n])
  }

  /** The event is not a lidar frame whose stamp goes back while clouds are buffered. */
  predicate InOrder(s: State, e: Event) {
    e.Lidar? ==> e.t >= s.lastLidar || s.raw == []
  }

  /** The same for every event from number `k` on. */
  predicate InOrderFrom(cfg: Config, es: seq<Event>, k: nat) {
    forall n :: k <= n < |es| ==> InOrder(Run(cfg, INITIAL, es[..n]), es[n])
  }

  /** Frames in order keep every cloud with its own stamp. */
  lemma StepAligned(cfg: Config, s: State, e: Event)
    requires Formed(s) && Aligned(s) && InOrder(s, e)
    ensures Aligned(Step(cfg, s, e))
  {
  }

  /** A frame that goes back while clouds are buffered leaves stamps without clouds; nothing else does. */
  lemma LoopBackMisaligns(s: State, t: real, points: seq<Pt>)
    requires Formed(s) && Aligned(s)
    ensures Aligned(LidarCbk(s, t, points)) <==> t >= s.lastLidar || s.raw == []
  {
  }

  /** Two frames, the second one earlier: its points get the stamp of the first. */
  lemma LoopBackWitness(cfg: Config, p: Pt, q: Pt)
    ensures var s := Run(cfg, INITIAL, [Lidar(1.0, [p])] + [Lidar(0.5, [q])]);
            s.raw == [[q]] && s.times == [1.0, 0.5] && !Aligned(s)
  {
    RunStep(cfg, [], Lidar(1.0, [p]));
    assert [] + [Lidar(1.0, [p])] == [Lidar(1.0, [p])];
    RunStep(cfg, [Lidar(1.0, [p])], Lidar(0.5, [q]));
  }

  lemma RunStep(cfg: Config, es: seq<Event>, e: Event)
    ensures Run(cfg, INITIAL, es + [e]) == Step(cfg, Run(cfg, INITIAL, es), e)
  {
    assert (es + [e])[..|es|] == es;
  }

  /** Whether this step cuts the buffers. */
  predicate Cuts(cfg: Config, s: State, e: Event)
    requires Formed(s)
  {
    e.Tick? && |TickStep(cfg, s).log| > |s.log| && s.phase != Lio
  }

  lemma CutConserves(tag: Tag, x: (int, real), cfg: Config, s: State, capture: real)
    requires Stable(tag) && Formed(s) && s.times != [] && (Timeless(tag) || Base(s) == s.cut)
    ensures var r := CutStep(cfg, s, capture);
            Held(tag, x, r) + Handed(tag, x, r.log) == Held(tag, x, s) + Handed(tag, x, s.log)
  {
    hide CutEarly;
    hide CutLate;
    hide Rebase;
    hide Stable;
    hide Process;
    hide Integrate;
    hide PopImus;
    var r, n, base := CutStep(cfg, s, capture), Consumed(s.raw, s.times, capture), Base(s);
    CutSplit(tag, x, s.raw, s.times, n, base, capture);
    CloudsDrop(tag, x, s.raw, s.times, n, |s.raw|);
    CountAppend(tag, x, s.next, CutEarly(s.raw, s.times, n, base, capture), base);
    if Timeless(tag) {
      CountTimeless(tag, x, s.next, base, s.cut);
    }
    assert r.log[..|r.log| - 1] == s.log;
  }

  lemma NoPoints(tag: Tag, x: (int, real), t: real)
    ensures Count(tag, x, [], t) == 0
  {
  }

  /** A cloud comes in: what a loop-back clears is dropped, the rest is buffered. */
  lemma CloudConserves(tag: Tag, x: (int, real), s: State, t: real, points: seq<Pt>)
    requires Formed(s) && (Timeless(tag) || (Aligned(s) && InOrder(s, Lidar(t, points))))
    ensures var r := LidarCbk(s, t, points);
            Held(tag, x, r) + DroppedBy(tag, x, s, Lidar(t, points)) == Held(tag, x, s) + Count(tag, x, points, t)
  {
    hide Timeless;
    hide Count;
    if points != [] {
      var kept := if t < s.lastLidar then [] else s.raw;
      var raw, times := kept + [points], s.times + [t];
      CloudsPrefix(tag, x, kept, s.times, raw, times, |kept|);
      assert CloudCount(tag, x, raw, times, |raw|) ==
          CloudCount(tag, x, kept, s.times, |kept|) + Count(tag, x, points, times[|kept|]);
      if Timeless(tag) {
        CountTimeless(tag, x, points, times[|kept|], t);
      }
    } else {
      NoPoints(tag, x, t);
    }
  }

  lemma StepConserves(tag: Tag, x: (int, real), cfg: Config, s: State, e: Event)
    requires Stable(tag) && Formed(s)
    requires Timeless(tag) || (Aligned(s) && InOrder(s, e) && (Cuts(cfg, s, e) ==> Base(s) == s.cut))
    ensures var r := Step(cfg, s, e);
            Held(tag, x, r) + Handed(tag, x, r.log) + DroppedBy(tag, x, s, e) ==
              Held(tag, x, s) + Handed(tag, x, s.log) + ReceivedBy(tag, x, e)
  {
    hide CutBuffers;
    hide CutStep;
    hide Process;
    hide Integrate;
    hide CutEarly;
    hide CutLate;
    hide Consumed;
    hide PopImus;
    hide Segments;
    hide Covered;
    hide Early;
    var r := Step(cfg, s, e);
    if e.Lidar? {
      CloudConserves(tag, x, s, e.t, e.points);
    } else if e.Tick? && Ready(s) {
      var capture := s.imgs[0] + cfg.exposure;
      if s.phase == Lio {
        assert r.log[..|r.log| - 1] == s.log;
      } else if capture >= Base(s) + 0.00001 && Covered(s, capture) {
        CutConserves(tag, x, cfg, s, capture);
      }
    }
  }

  /**
   On every run whatever, the points received are exactly the points handed to LIO plus those carried to the next cut
   plus those still buffered plus those cleared by frames whose stamps go back, counting repetitions.
   */
  lemma {:induction false} PayloadsConserved(cfg: Config, x: (int, real), es: seq<Event>)
    ensures var s := Run(cfg, INITIAL, es);
            Received(PAYLOAD, x, es) == Handed(PAYLOAD, x, s.log) + Held(PAYLOAD, x, s) + Dropped(PAYLOAD, x, cfg, es)
    decreases |es|
  {
    TagsAreStable();
    if es != [] {
      var n := |es| - 1;
      PayloadsConserved(cfg, x, es[..n]);
      StepConserves(PAYLOAD, x, cfg, Run(cfg, INITIAL, es[..n]), es[n]);
    }
  }

  /** Nothing is dropped, and every cloud keeps its own stamp, when no stamp goes back while clouds are buffered. */
  lemma {:induction false} InOrderDropsNothing(tag: Tag, x: (int, real), cfg: Config, es: seq<Event>)
    requires InOrderFrom(cfg, es, 0)
    ensures Dropped(tag, x, cfg, es) == 0 && Aligned(Run(cfg, INITIAL, es))
    decreases |es|
  {
    if es != [] {
      var n := |es| - 1;
      OrderPrefix(cfg, es, 0);
      InOrderDropsNothing(tag, x, cfg, es[..n]);
      assert InOrder(Run(cfg, INITIAL, es[..n]), es[n]);
      StepAligned(cfg, Run(cfg, INITIAL, es[..n]), es[n]);
    }
  }

  lemma OrderPrefix(cfg: Config, es: seq<Event>, k: nat)
    requires es != [] && InOrderFrom(cfg, es, k)
    ensures InOrderFrom(cfg, es[..|es| - 1], k)
  {
    var front := es[..|es| - 1];
    forall n | k <= n < |front| ensures InOrder(Run(cfg, INITIAL, front[..n]), front[n]) {
      assert front[..n] == es[..n] && front[n] == es[n];
    }
  }

  // ----- LIO and VIO alternate

  predicate LogAlternates(log: seq<Entry>) {
    forall i :: 0 <= i < |log| ==> (log[i].LioEntry? <==> i % 2 == 0) && (i % 2 == 1 ==> log[i].time == log[i - 1].time)
  }

  predicate PhaseInv(cfg: Config, s: State) {
    && LogAlternates(s.log)
    && (s.phase == Wait <==> s.log == [])
    && (s.phase == Lio <==> |s.log| % 2 == 1)
    && (s.phase == Lio ==> s.imgs != [] && s.imgs[0] + cfg.exposure == s.cut)
    && (s.log != [] ==> s.log[|s.log| - 1].time == s.cut)
  }

  lemma AppendAlternates(log: seq<Entry>, e: Entry)
    requires LogAlternates(log) && (e.LioEntry? <==> |log| % 2 == 0)
    requires |log| % 2 == 1 ==> e.time == log[|log| - 1].time
    ensures LogAlternates(log + [e]) && |log + [e]| % 2 == 1 - |log| % 2
  {
  }

  lemma StepPhase(cfg: Config, s: State, e: Event)
    requires Formed(s) && PhaseInv(cfg, s)
    ensures PhaseInv(cfg, Step(cfg, s, e))
  {
    hide LogAlternates;
    hide Process;
    hide CutEarly;
    hide CutLate;
    hide Consumed;
    hide PopImus;
    hide Integrate;
    hide Covered;
    if e.Tick? && Ready(s) {
      TickPhase(cfg, s);
    }
  }

  lemma TickPhase(cfg: Config, s: State)
    requires Formed(s) && Ready(s) && PhaseInv(cfg, s)
    ensures PhaseInv(cfg, TickStep(cfg, s))
  {
    hide LogAlternates;
    hide Process;
    hide CutEarly;
    hide CutLate;
    hide Consumed;
    hide PopImus;
    hide Integrate;
    hide Covered;
    var r := TickStep(cfg, s);
    if r.log != s.log {
      assert r.log == s.log + [r.log[|s.log|]];
      AppendAlternates(s.log, r.log[|s.log|]);
    }
  }

  /** LIO and VIO steps strictly alternate, LIO first, and each VIO step has the time of the LIO step before it. */
  lemma {:induction false} LioVioAlternate(cfg: Config, es: seq<Event>)
    ensures PhaseInv(cfg, Run(cfg, INITIAL, es))
    decreases |es|
  {
    if es != [] {
      LioVioAlternate(cfg, es[..|es| - 1]);
      StepPhase(cfg, Run(cfg, INITIAL, es[..|es| - 1]), es[|es| - 1]);
    }
  }

  // ----- after IMU initialisation

  /**
   After initialisation the propagation of every cut starts where the previous cut ended, and so does its base, if that
   was not before time zero: a negative base stands for "not set".
   */
  predicate LogChained(log: seq<Entry>) {
    forall i :: 0 <= i < |log| && log[i].LioEntry? && !log[i].initialising ==>
      i >= 2 && log[i].beg == log[i - 2].time && (log[i - 2].time >= 0.0 ==> log[i].base == log[i - 2].time)
  }

  predicate BaseInv(s: State) {
    && (!s.needInit ==> s.phase != Wait && s.propEnd == s.cut && (s.phase == Vio ==> BaseAfter(s)))
    && LogChained(s.log)
  }

  /** The base is the last cut, or, if that was before time zero, possibly the stamp of the first cloud by now. */
  predicate BaseAfter(s: State) {
    s.base == s.cut || (s.cut < 0.0 && s.times != [] && s.base == s.times[0])
  }

  lemma AppendChained(log: seq<Entry>, e: Entry)
    requires LogAlternates(log) && LogChained(log)
    requires e.LioEntry? && !e.initialising ==>
               && |log| > 0 && |log| % 2 == 0 && e.beg == log[|log| - 1].time
               && (e.beg >= 0.0 ==> e.base == e.beg)
    ensures LogChained(log + [e])
  {
    if e.LioEntry? && !e.initialising {
      assert log[|log| - 1].time == log[|log| - 2].time;
    }
  }

  lemma StepBase(cfg: Config, s: State, e: Event)
    requires Formed(s) && PhaseInv(cfg, s) && BaseInv(s)
    ensures BaseInv(Step(cfg, s, e))
    ensures Cuts(cfg, s, e) && !s.needInit ==> Base(s) == if s.cut >= 0.0 then s.cut else s.times[0]
  {
    hide LogAlternates;
    hide LogChained;
    hide CutEarly;
    hide CutLate;
    hide Consumed;
    hide PopImus;
    hide Integrate;
    hide Covered;
    if e.Tick? && Ready(s) {
      TickBase(cfg, s);
    }
  }

  lemma TickBase(cfg: Config, s: State)
    requires Formed(s) && Ready(s) && PhaseInv(cfg, s) && BaseInv(s)
    ensures BaseInv(TickStep(cfg, s))
  {
    hide LogAlternates;
    hide LogChained;
    hide CutEarly;
    hide CutLate;
    hide Consumed;
    hide PopImus;
    hide Integrate;
    hide Covered;
    var r := TickStep(cfg, s);
    if r.log != s.log {
      assert r.log == s.log + [r.log[|s.log|]];
      AppendChained(s.log, r.log[|s.log|]);
    }
  }

  /**
   On every run, once IMU initialisation is over: the next cut starts from the previous one, or from the stamp of the
   first cloud when the previous cut was before time zero.
   */
  lemma {:induction false} RunBase(cfg: Config, es: seq<Event>)
    ensures var s := Run(cfg, INITIAL, es);
            && PhaseInv(cfg, s) && BaseInv(s)
            && (!s.needInit && s.phase == Vio && s.times != [] ==>
                  Base(s) == if s.cut >= 0.0 then s.cut else s.times[0])
    decreases |es|
  {
    if es != [] {
      var n := |es| - 1;
      RunBase(cfg, es[..n]);
      var s := Run(cfg, INITIAL, es[..n]);
      StepPhase(cfg, s, es[n]);
      StepBase(cfg, s, es[n]);
    }
  }

  lemma StepKeepsInitialised(cfg: Config, s: State, e: Event)
    requires Formed(s) && !s.needInit
    ensures !Step(cfg, s, e).needInit
  {
  }

  // ----- stamps from time zero on

  /** No lidar frame is from before time zero; a base before zero stands for "not set". */
  predicate StampsOk(es: seq<Event>) {
    forall i :: 0 <= i < |es| ==> StampOk(es[i])
  }

  predicate StampOk(e: Event) {
    e.Lidar? ==> e.t >= 0.0
  }

  /** Nothing is cut before zero, and while initialisation lasts the base stays behind the cut. */
  predicate InitInv(s: State) {
    && s.cut >= 0.0
    && (forall i :: 0 <= i < |s.times| ==> s.times[i] >= 0.0)
    && (s.needInit && s.phase != Wait ==> 0.0 <= s.base < s.cut)
  }

  lemma TickInit(cfg: Config, s: State)
    requires Formed(s) && Ready(s) && InitInv(s)
    ensures InitInv(TickStep(cfg, s))
  {
    hide CutEarly;
    hide CutLate;
    hide Consumed;
    hide PopImus;
    hide Integrate;
    hide Covered;
  }

  lemma StepInit(cfg: Config, s: State, e: Event)
    requires Formed(s) && InitInv(s) && StampOk(e)
    ensures InitInv(Step(cfg, s, e))
  {
    hide CutStep;
    hide Process;
    hide Covered;
    if e.Tick? && Ready(s) {
      TickInit(cfg, s);
      hide InitInv;
    }
  }

  lemma {:induction false} RunInit(cfg: Config, es: seq<Event>)
    requires StampsOk(es)
    ensures InitInv(Run(cfg, INITIAL, es))
    decreases |es|
  {
    if es != [] {
      RunInit(cfg, es[..|es| - 1]);
      StepInit(cfg, Run(cfg, INITIAL, es[..|es| - 1]), es[|es| - 1]);
    }
  }

  lemma RunNothing(cfg: Config)
    ensures Run(cfg, INITIAL, []) == INITIAL
  {
  }

  lemma RunPrefix(cfg: Config, es: seq<Event>, k: nat)
    requires k < |es|
    ensures Run(cfg, INITIAL, es[..k + 1]) == Step(cfg, Run(cfg, INITIAL, es[..k]), es[k])
  {
    assert es[..k + 1] == es[..k] + [es[k]];
    RunStep(cfg, es[..k], es[k]);
  }

  /** A cloud from before time zero and one from zero on, and an image between them. */
  const EARLY: seq<Event> :=
    [Lidar(-2.0, [Pt(1, 500.0)]), Lidar(0.0, [Pt(2, 100.0)]), Imu(-1.0), Imu(0.1), Image(-0.5), Tick, Tick]

  const EARLY_CONFIG: Config := Config(0.0, 0)

  const EARLY_BUFFERED: State :=
    INITIAL.(raw := [[Pt(1, 500.0)], [Pt(2, 100.0)]], times := [-2.0, 0.0], lastLidar := 0.0,
             imus := [-1.0, 0.1], lastImu := 0.1, imgs := [-0.5], lastImg := -0.5)

  lemma EarlyBuffered()
    ensures Run(EARLY_CONFIG, INITIAL, EARLY[..5]) == EARLY_BUFFERED
  {
    RunNothing(EARLY_CONFIG);
    hide Run;
    assert EARLY[..0] == [];
    RunPrefix(EARLY_CONFIG, EARLY, 0);
    RunPrefix(EARLY_CONFIG, EARLY, 1);
    RunPrefix(EARLY_CONFIG, EARLY, 2);
    RunPrefix(EARLY_CONFIG, EARLY, 3);
    RunPrefix(EARLY_CONFIG, EARLY, 4);
  }

  lemma EarlyCut()
    ensures var s := TickStep(EARLY_CONFIG, EARLY_BUFFERED);
            && s.phase == Lio && !s.needInit && s.cut == -0.5 && s.times == [0.0] && |s.raw| == 1
            && s.imus == [0.1] && s.imgs == [-0.5]
  {
    hide CutEarly;
    hide CutLate;
    hide Segments;
    var s := EARLY_BUFFERED;
    assert s.imus[1..] == [0.1] && s.times[1..] == [0.0] && s.raw[1..] == [[Pt(2, 100.0)]];
    assert PopImus(s.imus, -2.0, -0.5).0 == [-1.0] && PopImus(s.imus, -2.0, -0.5).1 == [0.1];
    assert Consumed(s.raw, s.times, -0.5) == 1;
  }

  lemma EarlyVio(s: State)
    requires Formed(s) && s.phase == Lio && !s.needInit && s.cut == -0.5 && s.times == [0.0] && |s.raw| == 1
    requires s.imus == [0.1] && s.imgs == [-0.5]
    ensures var r := TickStep(EARLY_CONFIG, s);
            !r.needInit && r.phase == Vio && r.cut == -0.5 && r.times == [0.0] && Base(r) == 0.0
  {
    hide CutStep;
    hide Covered;
  }

  /** A run after which the next cut does not start from the previous one, at -0.5, but from the cloud at 0.0. */
  lemma EarlyCutForgotten()
    ensures var s := Run(EARLY_CONFIG, INITIAL, EARLY);
            !s.needInit && s.phase == Vio && s.cut == -0.5 && s.times == [0.0] && Base(s) == 0.0
  {
    EarlyBuffered();
    EarlyCut();
    EarlyVio(TickStep(EARLY_CONFIG, EARLY_BUFFERED));
    hide TickStep;
    RunPrefix(EARLY_CONFIG, EARLY, 5);
    RunPrefix(EARLY_CONFIG, EARLY, 6);
    hide Run;
    assert EARLY[..7] == EARLY;
  }

  // ----- capture times

  /**
   Once IMU initialisation is over (after the first `k` events, say), cutting and carrying keep every point's
   absolute capture time: what was held or handed on before, and what was received since, is what is held or
   handed on now, identified by payload and base time plus offset.
   */
  lemma {:induction false} CaptureTimesConserved(cfg: Config, x: (int, real), es: seq<Event>, k: nat)
    requires k <= |es| && InOrderFrom(cfg, es, k) && StampsOk(es)
    requires !Run(cfg, INITIAL, es[..k]).needInit && Aligned(Run(cfg, INITIAL, es[..k]))
    ensures !Run(cfg, INITIAL, es).needInit && Aligned(Run(cfg, INITIAL, es))
    ensures var s0, s1 := Run(cfg, INITIAL, es[..k]), Run(cfg, INITIAL, es);
            Held(CAPTURE, x, s1) + Handed(CAPTURE, x, s1.log) + Received(CAPTURE, x, es[..k]) ==
            Held(CAPTURE, x, s0) + Handed(CAPTURE, x, s0.log) + Received(CAPTURE, x, es)
    decreases |es|
  {
    if k == |es| {
      assert es[..k] == es;
    } else {
      var n := |es| - 1;
      assert es[..n][..k] == es[..k];
      OrderPrefix(cfg, es, k);
      assert InOrder(Run(cfg, INITIAL, es[..n]), es[n]);
      CaptureTimesConserved(cfg, x, es[..n], k);
      RunBase(cfg, es[..n]);
      RunInit(cfg, es[..n]);
      StepKeepsTimes(cfg, x, Run(cfg, INITIAL, es[..n]), es[n]);
      hide Step;
      hide PhaseInv;
      hide BaseInv;
      hide InitInv;
      hide InOrderFrom;
      hide StampsOk;
      hide Held;
      hide Handed;
      hide Aligned;
    }
  }

  /** One event after initialisation. */
  lemma StepKeepsTimes(cfg: Config, x: (int, real), s: State, e: Event)
    requires Formed(s) && PhaseInv(cfg, s) && BaseInv(s) && InitInv(s) && !s.needInit && Aligned(s) && InOrder(s, e)
    ensures var r := Step(cfg, s, e);
            && !r.needInit && Aligned(r)
            && Held(CAPTURE, x, r) + Handed(CAPTURE, x, r.log) ==
                 Held(CAPTURE, x, s) + Handed(CAPTURE, x, s.log) + ReceivedBy(CAPTURE, x, e)
  {
    TagsAreStable();
    StepBase(cfg, s, e);
    StepKeepsInitialised(cfg, s, e);
    StepAligned(cfg, s, e);
    hide Step;
    hide Stable;
    hide Timeless;
    hide PhaseInv;
    hide BaseInv;
    hide Held;
    hide Handed;
    StepConserves(CAPTURE, x, cfg, s, e);
    assert DroppedBy(CAPTURE, x, s, e) == 0 by {
      NoneBuffered(CAPTURE, x, s);
    }
  }

  lemma NoneBuffered(tag: Tag, x: (int, real), s: State)
    requires Formed(s)
    ensures s.raw == [] ==> CloudCount(tag, x, s.raw, s.times, |s.raw|) == 0
  {
  }

  // ----- before initialisation is over

  /** A cut hands a carried point on with the capture time it was carried with exactly when its base is the last cut. */
  lemma CarriedByCut(s: State, capture: real, i: nat)
    requires Formed(s) && s.times != [] && i < |s.next|
    ensures var log := CutBuffers(s, capture).log;
            && |log| == |s.log| + 1 && log[|s.log|].LioEntry? && |log[|s.log|].points| > i
            && log[|s.log|].points[i] == s.next[i]
            && (CAPTURE(s.next[i], log[|s.log|].base) == CAPTURE(s.next[i], s.cut) <==> Base(s) == s.cut)
  {
    hide CutEarly;
    hide CutLate;
    hide Consumed;
    hide PopImus;
    hide Integrate;
  }

  lemma {:induction false} EarlyCaptured(points: seq<Pt>, header: real, base: real, capture: real)
    ensures forall i :: 0 <= i < |EarlyPoints(points, header, base, capture)| ==>
              CAPTURE(EarlyPoints(points, header, base, capture)[i], base).1 < capture
  {
    if points != [] {
      EarlyCaptured(points[..|points| - 1], header, base, capture);
    }
  }

  lemma {:induction false} CutCaptured(raw: seq<seq<Pt>>, times: seq<real>, n: nat, base: real, capture: real)
    requires n <= |raw| && n <= |times|
    ensures forall i :: 0 <= i < |CutEarly(raw, times, n, base, capture)| ==>
              CAPTURE(CutEarly(raw, times, n, base, capture)[i], base).1 < capture
  {
    if n != 0 {
      CutCaptured(raw, times, n - 1, base, capture);
      EarlyCaptured(raw[n - 1], times[n - 1], base, capture);
    }
  }

  /** When point `i` of what the cut hands on was captured: a carried one is relative to the cut before. */
  function CapturedAt(s: State, e: Entry, i: nat): real
    requires e.LioEntry? && i < |e.points|
  {
    CAPTURE(e.points[i], if i < |s.next| then s.cut else e.base).1
  }

  /**
   A cut hands on all carried points, however late they were captured: everything handed on was captured by the cut
   exactly when no carried offset exceeds the distance of the two cuts.
   */
  lemma HandedByCut(s: State, capture: real)
    requires Formed(s) && s.times != []
    ensures var log := CutBuffers(s, capture).log;
            && |log| == |s.log| + 1 && log[|s.log|].LioEntry? && |s.next| <= |log[|s.log|].points|
            && ((forall i :: 0 <= i < |log[|s.log|].points| ==> CapturedAt(s, log[|s.log|], i) <= capture) <==>
                forall i :: 0 <= i < |s.next| ==> s.next[i].curvature <= (capture - s.cut) * 1000.0)
  {
    var n, base := Consumed(s.raw, s.times, capture), Base(s);
    CutCaptured(s.raw, s.times, n, base, capture);
    var e := CutBuffers(s, capture).log[|s.log|];
    var early := CutEarly(s.raw, s.times, n, base, capture);
    hide CutEarly;
    hide CutLate;
    hide Consumed;
    hide PopImus;
    hide Integrate;
    assert e.points == s.next + early && e.base == base;
    forall i | |s.next| <= i < |e.points| ensures CapturedAt(s, e, i) <= capture {
      assert e.points[i] == early[i - |s.next|];
    }
    forall i | 0 <= i < |s.next|
      ensures CapturedAt(s, e, i) <= capture <==> s.next[i].curvature <= (capture - s.cut) * 1000.0
    {
      assert e.points[i] == s.next[i];
    }
  }

  /**
   On every run with lidar stamps from zero on, a cut starts from the last one exactly when IMU initialisation is over;
   so a point that was carried is handed on with its capture time exactly then, and with another time before.
   */
  lemma CarriedTimeExactly(cfg: Config, es: seq<Event>, i: nat)
    requires StampsOk(es)
    requires var s := Run(cfg, INITIAL, es); s.phase == Vio && Cuts(cfg, s, Tick) && i < |s.next|
    ensures var s := Run(cfg, INITIAL, es);
            var log := TickStep(cfg, s).log;
            && |log| == |s.log| + 1 && log[|s.log|].LioEntry? && |log[|s.log|].points| > i
            && log[|s.log|].points[i] == s.next[i]
            && (CAPTURE(s.next[i], log[|s.log|].base) == CAPTURE(s.next[i], s.cut) <==> !s.needInit)
  {
    RunBase(cfg, es);
    RunInit(cfg, es);
    var s := Run(cfg, INITIAL, es);
    hide Run;
    hide CutBuffers;
    hide LogAlternates;
    hide LogChained;
    hide Covered;
    CarriedByCut(s, s.imgs[0] + cfg.exposure, i);
  }

  /** One cloud with a late point, images at 1.0 and 1.1: the point is carried over the first cut. */
  const CARRYING: seq<Event> :=
    [Lidar(0.0, [Pt(1, 1500.0)]), Imu(1.0), Imu(1.2), Image(1.0), Tick, Lidar(1.0, [Pt(2, 500.0)]), Tick, Image(1.1)]

  const CARRY_CONFIG: Config := Config(0.0, 10)

  /** The state before the first cut of that run, and after it. */
  const BEFORE_CUT: State := INITIAL.(raw := [[Pt(1, 1500.0)]], times := [0.0], lastLidar := 0.0,
                                      imus := [1.0, 1.2], lastImu := 1.2, imgs := [1.0], lastImg := 1.0)
  const AFTER_CUT: State := BEFORE_CUT.(raw := [], times := [], imus := [1.2], phase := Lio, base := 0.0, cut := 1.0,
                                        next := [Pt(1, 500.0)], firstFrame := false, count := 2, propImu := 1.0,
                                        log := [LioEntry(1.0, 0.0, [], [1.0], 0.0, [], true)])

  lemma UpToCut()
    ensures Run(CARRY_CONFIG, INITIAL, CARRYING[..4]) == BEFORE_CUT
  {
    RunNothing(CARRY_CONFIG);
    hide Run;
    assert CARRYING[..0] == [];
    RunPrefix(CARRY_CONFIG, CARRYING, 0);
    RunPrefix(CARRY_CONFIG, CARRYING, 1);
    RunPrefix(CARRY_CONFIG, CARRYING, 2);
    RunPrefix(CARRY_CONFIG, CARRYING, 3);
  }

  lemma CutParts()
    ensures var s := BEFORE_CUT;
            && PopImus(s.imus, 0.0, 1.0).0 == [1.0] && PopImus(s.imus, 0.0, 1.0).1 == [1.2]
            && Consumed(s.raw, s.times, 1.0) == 1
            && CutEarly(s.raw, s.times, 1, 0.0, 1.0) == [] && CutLate(s.raw, s.times, 1, 1.0) == [Pt(1, 500.0)]
  {
    var s := BEFORE_CUT;
    assert s.imus[1..] == [1.2];
    assert s.raw[0][..0] == [];
    assert Rebase(Pt(1, 1500.0), 0.0, 1.0) == Pt(1, 500.0);
  }

  lemma CutState()
    ensures CutBuffers(BEFORE_CUT, 1.0) == BEFORE_CUT.(raw := [], times := [], imus := [1.2], phase := Lio, base := 0.0,
              cut := 1.0, next := [Pt(1, 500.0)], log := [LioEntry(1.0, 0.0, [], [1.0], 0.0, [], true)])
  {
    CutParts();
    hide PopImus;
    hide Consumed;
    hide CutEarly;
    hide CutLate;
    hide Segments;
    var s, r := BEFORE_CUT, CutBuffers(BEFORE_CUT, 1.0);
    assert s.raw[1..] == [] && s.times[1..] == [] && s.next + [] == [];
    assert r.log == [LioEntry(1.0, 0.0, [], [1.0], 0.0, [], true)];
  }

  lemma TheCut()
    ensures TickStep(CARRY_CONFIG, BEFORE_CUT) == AFTER_CUT
  {
    CutParts();
    CutState();
    hide PopImus;
    hide CutBuffers;
  }

  /** The state before the next cut. */
  const CARRIED: State := AFTER_CUT.(raw := [[Pt(2, 500.0)]], times := [1.0], lastLidar := 1.0, phase := Vio,
                                     imgs := [1.1], lastImg := 1.1, log := AFTER_CUT.log + [VioEntry(1.0)])

  lemma PastCut()
    ensures var s := LidarCbk(AFTER_CUT, 1.0, [Pt(2, 500.0)]);
            && Formed(s) && TickStep(CARRY_CONFIG, s) == CARRIED.(imgs := [], lastImg := 1.0)
    ensures ImgCbk(CARRIED.(imgs := [], lastImg := 1.0), 1.1) == CARRIED
  {
    hide CutStep;
  }

  lemma AfterCut()
    ensures Run(CARRY_CONFIG, INITIAL, CARRYING) == CARRIED
  {
    UpToCut();
    TheCut();
    PastCut();
    hide Run;
    hide TickStep;
    hide LidarCbk;
    hide ImgCbk;
    RunPrefix(CARRY_CONFIG, CARRYING, 4);
    RunPrefix(CARRY_CONFIG, CARRYING, 5);
    RunPrefix(CARRY_CONFIG, CARRYING, 6);
    RunPrefix(CARRY_CONFIG, CARRYING, 7);
    assert CARRYING[..8] == CARRYING;
  }

  /**
   A run on which a carried point is handed on with a wrong capture time, 0.5 instead of 1.5, and with a cut at 1.1,
   before it was captured.
   */
  lemma CarryingMistimes()
    ensures var s := Run(CARRY_CONFIG, INITIAL, CARRYING);
            && s.needInit && s.next == [Pt(1, 500.0)] && CAPTURE(s.next[0], s.cut) == (1, 1.5)
            && var log := TickStep(CARRY_CONFIG, s).log;
            && |log| == 3 && log[2].LioEntry? && |log[2].points| > 0
            && log[2].time == 1.1 && log[2].points[0] == s.next[0] && CAPTURE(log[2].points[0], log[2].base) == (1, 0.5)
  {
    AfterCut();
    hide Run;
    CarriedByCut(CARRIED, 1.1, 0);
    hide CutEarly;
    hide CutLate;
    hide Consumed;
    hide PopImus;
    hide Integrate;
  }

  // ----- IMU windows and integrated time

  predicate Sorted(ts: seq<real>) {
    forall i, j :: 0 <= i < j < |ts| ==> ts[i] <= ts[j]
  }

  predicate Within(ts: seq<real>, lo: real, hi: real) {
    forall i :: 0 <= i < |ts| ==> lo < ts[i] <= hi
  }

  function Between(ts: seq<real>, lo: real, hi: real): seq<real> {
    if ts == [] then [] else (if lo < ts[0] <= hi then [ts[0]] else []) + Between(ts[1..], lo, hi)
  }

  /** How many samples of a sorted buffer are not later than `capture`. */
  function Popped(imus: seq<real>, capture: real): (k: nat)
    ensures k <= |imus|
  {
    if imus == [] || imus[0] > capture then 0 else 1 + Popped(imus[1..], capture)
  }

  /** Exactly the samples up to `capture` leave a sorted buffer. */
  lemma {:induction false} PoppedExact(imus: seq<real>, base: real, capture: real)
    requires Sorted(imus)
    ensures PopImus(imus, base, capture).1 == imus[Popped(imus, capture)..]
    ensures forall i :: 0 <= i < |imus| ==> (i < Popped(imus, capture) <==> imus[i] <= capture)
  {
    if imus != [] && imus[0] <= capture {
      PoppedExact(imus[1..], base, capture);
      var k := Popped(imus[1..], capture);
      assert imus[1..][k..] == imus[k + 1..];
      assert forall i :: 0 < i < |imus| ==> imus[i] == imus[1..][i - 1];
    }
  }

  /** The window of a sorted buffer is every sample in (base, capture], in order. */
  lemma {:induction false} WindowExact(imus: seq<real>, base: real, capture: real)
    requires Sorted(imus)
    ensures PopImus(imus, base, capture).0 == Between(imus, base, capture)
  {
    if imus == [] || imus[0] > capture {
      NoneBetween(imus, base, capture);
    } else {
      WindowExact(imus[1..], base, capture);
    }
  }

  lemma {:induction false} WindowOrdered(imus: seq<real>, base: real, capture: real)
    requires Sorted(imus)
    ensures Sorted(Between(imus, base, capture)) && Within(Between(imus, base, capture), base, capture)
  {
    if imus != [] {
      WindowOrdered(imus[1..], base, capture);
      BetweenFrom(imus[1..], base, capture, imus[0]);
      SortedCons(imus[0], Between(imus[1..], base, capture));
    }
  }

  lemma SortedCons(t: real, ts: seq<real>)
    requires Sorted(ts) && forall i :: 0 <= i < |ts| ==> t <= ts[i]
    ensures Sorted([t] + ts)
  {
    assert forall i :: 0 < i < |[t] + ts| ==> ([t] + ts)[i] == ts[i - 1];
  }

  lemma {:induction false} NoneBetween(ts: seq<real>, lo: real, hi: real)
    requires forall i :: 0 <= i < |ts| ==> ts[i] > hi
    ensures Between(ts, lo, hi) == []
  {
    if ts != [] {
      NoneBetween(ts[1..], lo, hi);
    }
  }

  lemma {:induction false} BetweenFrom(ts: seq<real>, lo: real, hi: real, least: real)
    requires forall i :: 0 <= i < |ts| ==> least <= ts[i]
    ensures forall i :: 0 <= i < |Between(ts, lo, hi)| ==> least <= Between(ts, lo, hi)[i]
  {
    if ts != [] {
      BetweenFrom(ts[1..], lo, hi, least);
    }
  }

  function Sum(dts: seq<real>): real {
    if dts == [] then 0.0 else Sum(dts[..|dts| - 1]) + dts[|dts| - 1]
  }

  predicate NonNegatives(dts: seq<real>) {
    forall i :: 0 <= i < |dts| ==> dts[i] >= 0.0
  }

  lemma SumSnoc(dts: seq<real>, d: real)
    ensures Sum(dts + [d]) == Sum(dts) + d
  {
    assert (dts + [d])[..|dts|] == dts;
  }

  /** Length of step `n` of a window, counted from one: p is the sample before the window. */
  function StepLength(p: real, w: seq<real>, beg: real, end: real, n: nat): real
    requires 1 <= n <= |w|
  {
    var head := if n == 1 then p else w[n - 2];
    if head < beg then w[n - 1] - beg else if n < |w| then w[n - 1] - head else end - head
  }

  lemma SegmentStep(p: real, w: seq<real>, beg: real, end: real, n: nat)
    requires Within(w, beg, end) && 1 <= n <= |w|
    ensures Segments([p] + w, beg, end, n) == Segments([p] + w, beg, end, n - 1) + [StepLength(p, w, beg, end, n)]
    ensures Sum(Segments([p] + w, beg, end, n)) ==
              Sum(Segments([p] + w, beg, end, n - 1)) + StepLength(p, w, beg, end, n)
  {
    var v := [p] + w;
    assert v[n] == w[n - 1] && v[n - 1] == if n == 1 then p else w[n - 2];
    SumSnoc(Segments(v, beg, end, n - 1), StepLength(p, w, beg, end, n));
  }

  lemma {:induction false} InnerSegments(p: real, w: seq<real>, beg: real, end: real, n: nat)
    requires p <= beg && Sorted(w) && Within(w, beg, end) && n < |w|
    ensures var dts := Segments([p] + w, beg, end, n);
            NonNegatives(dts) && Sum(dts) == if n == 0 then 0.0 else w[n - 1] - beg
  {
    hide Segments;
    hide Sum;
    if n != 0 {
      InnerSegments(p, w, beg, end, n - 1);
      SegmentStep(p, w, beg, end, n);
      assert n > 1 ==> beg < w[n - 2] <= w[n - 1];
    } else {
      NoSegments([p] + w, beg, end);
    }
  }

  lemma NoSegments(v: seq<real>, beg: real, end: real)
    requires v != []
    ensures Segments(v, beg, end, 0) == [] && Sum([]) == 0.0
  {
  }

  lemma LastStep(p: real, w: seq<real>, beg: real, end: real)
    requires p <= beg && Within(w, beg, end) && w != []
    ensures beg < end
    ensures var d := StepLength(p, w, beg, end, |w|);
            && d >= 0.0
            && (if |w| > 1 then beg < w[|w| - 2] && d == end - w[|w| - 2]
                else beg < w[0] && d == if p < beg then w[0] - beg else end - beg)
  {
  }

  /**
   The steps of one window never run backwards, and they add up to the propagated interval exactly when the window
   has two samples or more, or one that starts or ends the interval, or the interval is empty.
   */
  lemma SegmentsTelescope(p: real, w: seq<real>, beg: real, end: real)
    requires p <= beg <= end && Sorted(w) && Within(w, beg, end)
    ensures var dts := Segments([p] + w, beg, end, |w|);
            && NonNegatives(dts)
            && (Sum(dts) == end - beg <==> |w| >= 2 || (|w| == 1 && (p == beg || w[0] == end)) || beg == end)
  {
    hide Segments;
    hide Sum;
    hide Sorted;
    hide Within;
    hide StepLength;
    if w == [] {
      NoSegments([p] + w, beg, end);
    } else {
      InnerSegments(p, w, beg, end, |w| - 1);
      SegmentStep(p, w, beg, end, |w|);
      LastStep(p, w, beg, end);
    }
  }

  /**
   What a LIO entry of the log says: its samples lie in (base, time]; nothing is integrated during initialisation; and if
   its base is where its propagation starts and the samples are sorted, the integration steps never run backwards and
   two samples or more make them add up.
   */
  predicate EntryTimed(e: Entry) {
    e.LioEntry? ==>
      && e.base < e.time && Within(e.imus, e.base, e.time)
      && (e.initialising ==> e.dts == [])
      && (!e.initialising && e.base == e.beg && Sorted(e.imus) ==>
            NonNegatives(e.dts) && (|e.imus| >= 2 ==> Sum(e.dts) == e.time - e.beg))
  }

  predicate LogTimed(log: seq<Entry>) {
    forall i :: 0 <= i < |log| ==> EntryTimed(log[i])
  }

  /** Images are buffered in order, none of them before the newest cut. */
  predicate ImgOrder(imgs: seq<real>, lastImg: real, exposure: real, cut: real, started: bool) {
    && (forall i, j :: 0 <= i < j < |imgs| ==> imgs[i] <= imgs[j])
    && (forall i :: 0 <= i < |imgs| ==> imgs[i] <= lastImg)
    && (started ==> cut <= lastImg + exposure && forall i :: 0 <= i < |imgs| ==> cut <= imgs[i] + exposure)
  }

  predicate ImgInv(cfg: Config, s: State) {
    ImgOrder(s.imgs, s.lastImg, cfg.exposure, s.cut, s.phase != Wait)
  }

  /** Taking the first image, and cutting at it, keep the order; so does a later image. */
  lemma ImgOrderKept(imgs: seq<real>, lastImg: real, exposure: real, cut: real, started: bool, t: real)
    requires ImgOrder(imgs, lastImg, exposure, cut, started)
    ensures imgs != [] ==> ImgOrder(imgs[1..], lastImg, exposure, cut, started)
    ensures imgs != [] ==> ImgOrder(imgs, lastImg, exposure, imgs[0] + exposure, true)
    ensures t >= lastImg ==> ImgOrder(imgs + [t], t, exposure, cut, started)
  {
  }

  predicate TimeInv(cfg: Config, s: State) {
    ImgInv(cfg, s) && (!s.needInit ==> s.propImu <= s.propEnd) && LogTimed(s.log)
  }

  lemma {:induction false} PoppedWithin(imus: seq<real>, base: real, capture: real)
    ensures Within(PopImus(imus, base, capture).0, base, capture)
  {
    if imus != [] && imus[0] <= capture {
      PoppedWithin(imus[1..], base, capture);
    }
  }

  lemma CutEntryTimed(s: State, capture: real)
    requires Formed(s) && s.times != [] && Base(s) < capture && (!s.needInit ==> s.propImu <= s.propEnd)
    ensures var log := CutBuffers(s, capture).log; log[..|s.log|] == s.log && EntryTimed(log[|s.log|])
  {
    hide CutEarly;
    hide CutLate;
    hide Consumed;
    hide PopImus;
    hide Segments;
    hide Sum;
    var w := PopImus(s.imus, Base(s), capture).0;
    PoppedWithin(s.imus, Base(s), capture);
    if !s.needInit && Base(s) == s.propEnd && Sorted(w) {
      SegmentsTelescope(s.propImu, w, s.propEnd, capture);
    }
  }

  lemma ProcessImu(cfg: Config, s: State, w: seq<real>, end: real)
    requires forall i :: 0 <= i < |w| ==> w[i] <= end
    requires !s.needInit ==> s.propImu <= s.propEnd <= end
    ensures var r := Process(cfg, s, w, end); !r.needInit ==> r.propImu <= r.propEnd
  {
  }

  lemma CutLog(s: State, capture: real)
    requires Formed(s) && s.times != [] && LogTimed(s.log) && Base(s) < capture
              && (!s.needInit ==> s.propImu <= s.propEnd)
    ensures LogTimed(CutBuffers(s, capture).log)
  {
    CutEntryTimed(s, capture);
    hide CutBuffers;
    hide EntryTimed;
    var log := CutBuffers(s, capture).log;
    assert forall i :: 0 <= i < |s.log| ==> log[i] == log[..|s.log|][i];
  }

  lemma CutTimed(cfg: Config, s: State, capture: real)
    requires Formed(s) && s.times != [] && TimeInv(cfg, s) && Base(s) + 0.00001 <= capture
    requires !s.needInit ==> s.propEnd <= capture
    ensures var r := CutStep(cfg, s, capture); LogTimed(r.log) && (!r.needInit ==> r.propImu <= r.propEnd)
  {
    CutLog(s, capture);
    PoppedWithin(s.imus, Base(s), capture);
    hide CutEarly;
    hide CutLate;
    hide Consumed;
    hide PopImus;
    hide Integrate;
    hide LogTimed;
    ProcessImu(cfg, CutBuffers(s, capture), PopImus(s.imus, Base(s), capture).0, capture);
    hide Process;
  }

  lemma StepImg(cfg: Config, s: State, e: Event)
    requires Formed(s) && PhaseInv(cfg, s) && ImgInv(cfg, s)
    ensures ImgInv(cfg, Step(cfg, s, e))
  {
    hide CutEarly;
    hide CutLate;
    hide Consumed;
    hide PopImus;
    hide Integrate;
    hide Covered;
    hide Process;
    hide PhaseInv;
    hide ImgOrder;
    ImgOrderKept(s.imgs, s.lastImg, cfg.exposure, s.cut, s.phase != Wait, if e.Image? then e.t else s.lastImg);
  }

  lemma VioTimed(log: seq<Entry>, time: real)
    requires LogTimed(log)
    ensures LogTimed(log + [VioEntry(time)])
  {
    hide EntryTimed;
    assert EntryTimed(VioEntry(time)) by {
      NotLio(time);
    }
  }

  lemma NotLio(time: real)
    ensures EntryTimed(VioEntry(time))
  {
  }

  lemma TickTime(cfg: Config, s: State)
    requires Formed(s) && Ready(s) && PhaseInv(cfg, s) && BaseInv(s) && TimeInv(cfg, s)
    ensures var r := TickStep(cfg, s); LogTimed(r.log) && (!r.needInit ==> r.propImu <= r.propEnd)
  {
    hide CutStep;
    hide Covered;
    hide LogAlternates;
    hide LogChained;
    hide LogTimed;
    hide Process;
    var capture := s.imgs[0] + cfg.exposure;
    if s.phase == Lio {
      VioTimed(s.log, capture);
      ProcessImu(cfg, s.(phase := Vio, imgs := s.imgs[1..], log := s.log + [VioEntry(capture)]), [], capture);
    } else if capture >= Base(s) + 0.00001 && Covered(s, capture) {
      CutTimed(cfg, s, capture);
    }
  }

  lemma StepTime(cfg: Config, s: State, e: Event)
    requires Formed(s) && PhaseInv(cfg, s) && BaseInv(s) && TimeInv(cfg, s)
    ensures TimeInv(cfg, Step(cfg, s, e))
  {
    StepImg(cfg, s, e);
    hide LogTimed;
    hide ImgInv;
    if e.Tick? && Ready(s) {
      TickTime(cfg, s);
      hide TickStep;
    }
  }

  lemma {:induction false} RunTimed(cfg: Config, es: seq<Event>)
    ensures TimeInv(cfg, Run(cfg, INITIAL, es))
    decreases |es|
  {
    if es != [] {
      var n := |es| - 1;
      RunTimed(cfg, es[..n]);
      RunBase(cfg, es[..n]);
      StepTime(cfg, Run(cfg, INITIAL, es[..n]), es[n]);
    }
  }

  // ----- the IMU buffer is sorted, for positive stamps

  /** The driver fix brings every stamp within half a second of the newest cloud, by whole seconds. */
  lemma FixedStampNear(stamp: real, offset: real, lastLidar: real)
    ensures var t := ImuStamp(stamp, offset, true, lastLidar);
            var shift := t - (stamp - offset);
            Abs(lastLidar - t) <= 0.5 && shift == shift.Floor as real
  {
    assert (Round(lastLidar - (stamp - offset)) as real).Floor == Round(lastLidar - (stamp - offset));
  }

  /** The buffer is sorted and does not run ahead of the last stamp. */
  predicate ImuSorted(s: State) {
    Sorted(s.imus) && forall i :: 0 <= i < |s.imus| ==> s.imus[i] <= s.lastImu
  }

  /**
   imu_cbk keeps a non-empty buffer in order exactly when the sample is not earlier than the last one, or is turned
   away; an earlier one is turned away only when the last stamp is positive or no cloud has come yet.
   */
  lemma ImuOrderExactly(s: State, t: real)
    requires ImuSorted(s) && s.imus != [] && s.imus[|s.imus| - 1] == s.lastImu
    ensures Sorted(ImuCbk(s, t).imus) <==> t >= s.lastImu || s.lastImu > 0.0 || s.lastLidar < 0.0
  {
    if s.lastLidar >= 0.0 && s.lastImu <= 0.0 {
      var imus := ImuCbk(s, t).imus;
      assert imus[|s.imus| - 1] == s.lastImu && imus[|s.imus|] == t;
    }
  }

  predicate ImuOk(e: Event) {
    e.Imu? ==> e.t > 0.0
  }

  predicate LogSorted(log: seq<Entry>) {
    forall i :: 0 <= i < |log| && log[i].LioEntry? ==> Sorted(log[i].imus)
  }

  predicate SortedInv(s: State) {
    ImuSorted(s) && (s.lastImu > 0.0 || s.imus == []) && LogSorted(s.log)
  }

  lemma CutSorted(s: State, capture: real)
    requires Formed(s) && s.times != [] && SortedInv(s)
    ensures SortedInv(CutBuffers(s, capture))
  {
    hide CutEarly;
    hide CutLate;
    hide Consumed;
    hide PopImus;
    hide Integrate;
    PoppedExact(s.imus, Base(s), capture);
    WindowExact(s.imus, Base(s), capture);
    WindowOrdered(s.imus, Base(s), capture);
    var log := CutBuffers(s, capture).log;
    assert forall i :: 0 <= i < |s.log| ==> log[i] == s.log[i];
  }

  lemma StepSorted(cfg: Config, s: State, e: Event)
    requires Formed(s) && SortedInv(s) && ImuOk(e)
    ensures SortedInv(Step(cfg, s, e))
  {
    hide CutBuffers;
    hide Process;
    hide Covered;
    if e.Tick? && Ready(s) {
      var capture := s.imgs[0] + cfg.exposure;
      if s.phase != Lio && capture >= Base(s) + 0.00001 && Covered(s, capture) {
        CutSorted(s, capture);
      }
    }
  }

  /** With positive stamps every window ever handed on is sorted. */
  lemma {:induction false} RunSorted(cfg: Config, es: seq<Event>)
    requires forall i :: 0 <= i < |es| ==> ImuOk(es[i])
    ensures SortedInv(Run(cfg, INITIAL, es))
    decreases |es|
  {
    if es != [] {
      RunSorted(cfg, es[..|es| - 1]);
      StepSorted(cfg, Run(cfg, INITIAL, es[..|es| - 1]), es[|es| - 1]);
    }
  }

  // ----- integrated time

  /** Integrated time of the `n` LIO steps after the one at index `a` of the log. */
  function Integrated(log: seq<Entry>, a: nat, n: nat): real
    requires a + 2 * n < |log| && a % 2 == 0 && LogAlternates(log)
  {
    if n == 0 then 0.0 else Integrated(log, a, n - 1) + Sum(log[a + 2 * n].dts)
  }

  /**
   Those steps come after initialisation, from a cut at or after time zero, and have two IMU samples or more each, in
   order.
   */
  predicate WellSampled(log: seq<Entry>, a: nat, n: nat)
    requires a + 2 * n < |log| && a % 2 == 0 && LogAlternates(log)
  {
    n == 0 ||
    (&& WellSampled(log, a, n - 1) && !log[a + 2 * n].initialising && log[a + 2 * n - 2].time >= 0.0
     && |log[a + 2 * n].imus| >= 2 && Sorted(log[a + 2 * n].imus))
  }

  /** Their windows are adjacent: each lies in (previous cut, this cut]. */
  predicate Adjacent(log: seq<Entry>, a: nat, n: nat)
    requires a + 2 * n < |log| && a % 2 == 0 && LogAlternates(log)
  {
    n == 0 || (Adjacent(log, a, n - 1) && Within(log[a + 2 * n].imus, log[a + 2 * n - 2].time, log[a + 2 * n].time))
  }

  /** One well-sampled step: it integrates the time since the cut before it, over a window that starts there. */
  lemma StepTelescopes(log: seq<Entry>, k: nat)
    requires 2 <= k < |log| && LogChained(log) && LogTimed(log) && log[k].LioEntry? && !log[k].initialising
    requires log[k - 2].time >= 0.0 && |log[k].imus| >= 2 && Sorted(log[k].imus)
    ensures Sum(log[k].dts) == log[k].time - log[k - 2].time && Within(log[k].imus, log[k - 2].time, log[k].time)
  {
    assert EntryTimed(log[k]);
    assert log[k].beg == log[k].base == log[k - 2].time;
  }

  lemma {:induction false} LogTelescopes(log: seq<Entry>, a: nat, n: nat)
    requires a + 2 * n < |log| && a % 2 == 0 && LogAlternates(log) && LogChained(log) && LogTimed(log)
    requires WellSampled(log, a, n)
    ensures Integrated(log, a, n) == log[a + 2 * n].time - log[a].time && Adjacent(log, a, n)
  {
    hide LogChained;
    hide LogTimed;
    hide Sorted;
    hide Within;
    hide Sum;
    if n != 0 {
      LogTelescopes(log, a, n - 1);
      assert (a + 2 * n) % 2 == 0 && log[a + 2 * n].LioEntry?;
      StepTelescopes(log, a + 2 * n);
    }
  }

  /**
   On every run: the integration steps of n consecutive LIO steps after initialisation, each with two IMU samples
   or more in order, add up to the time between the cuts, and their windows are adjacent.
   */
  lemma IntegratedTimeTelescopes(cfg: Config, es: seq<Event>, a: nat, n: nat)
    requires var log := Run(cfg, INITIAL, es).log;
             LogAlternates(log) && a + 2 * n < |log| && a % 2 == 0 && WellSampled(log, a, n)
    ensures var log := Run(cfg, INITIAL, es).log;
            Integrated(log, a, n) == log[a + 2 * n].time - log[a].time && Adjacent(log, a, n)
  {
    RunTimed(cfg, es);
    RunBase(cfg, es);
    LogTelescopes(Run(cfg, INITIAL, es).log, a, n);
  }
}
