/** The streams end to end: which images, samples and clouds the synchroniser takes in, and that it hands each on. */
module SynchroniserStreams {
  import opened Synchroniser
  import opened SynchroniserFacts

  // ----- what the callbacks take in

  /** An image is taken exactly when a cloud has come and it is 20 ms or more after the last one taken. */
  predicate TakesImage(s: State, t: real) {
    s.lastLidar >= 0.0 && t - s.lastImg >= 0.02
  }

  /** A sample is taken exactly when a cloud has come and it is neither before the last one nor over 0.2 s after. */
  predicate TakesImu(s: State, t: real) {
    s.lastLidar >= 0.0 && (s.lastImu <= 0.0 || s.lastImu <= t <= s.lastImu + 0.2)
  }

  lemma TakenExactly(s: State, t: real)
    ensures ImgCbk(s, t) == if TakesImage(s, t) then s.(imgs := s.imgs + [t], lastImg := t) else s
    ensures ImuCbk(s, t) == if TakesImu(s, t) then s.(imus := s.imus + [t], lastImu := t) else s
  {
  }

  /** The callbacks touch buffers and stamps only, each its own. */
  lemma CallbackKinds(cfg: Config, s: State, e: Event)
    requires Formed(s) && !e.Tick?
    ensures var r := Step(cfg, s, e);
            && r == s.(raw := r.raw, times := r.times, lastLidar := r.lastLidar, imus := r.imus, lastImu := r.lastImu,
                       imgs := r.imgs, lastImg := r.lastImg)
            && (!e.Imu? ==> r.imus == s.imus && r.lastImu == s.lastImu)
            && (!e.Image? ==> r.imgs == s.imgs && r.lastImg == s.lastImg)
            && (!e.Lidar? ==> r.raw == s.raw && r.times == s.times && r.lastLidar == s.lastLidar)
            && s.times <= r.times
  {
  }

  // ----- what one tick does

  /** The tick waits: at most the base is set. */
  predicate Waits(s: State, r: State) {
    r == s.(base := r.base) && (r.base == s.base || (s.phase != Lio && s.times != [] && r.base == Base(s)))
  }

  /** The tick gives up the first image, which is from before the base. */
  predicate GivesUp(cfg: Config, s: State, r: State) {
    && s.phase != Lio && s.imgs != [] && s.times != []
    && s.imgs[0] + cfg.exposure < Base(s) + 0.00001 && r == s.(base := Base(s), imgs := s.imgs[1..])
  }

  /** The tick cuts at the first image's capture time, which clouds and samples have reached. */
  predicate CutsAt(cfg: Config, s: State, r: State) {
    && s.phase != Lio && Ready(s) && Formed(s) && s.times != []
    && var capture := s.imgs[0] + cfg.exposure;
    && Base(s) + 0.00001 <= capture <= s.imus[|s.imus| - 1]
    && capture <= NewestEnd(s)
    && |r.log| > |s.log| && r.log == s.log + [r.log[|s.log|]]
    && IsCut(r.log[|s.log|], s, capture)
    && r == s.(raw := r.raw, times := r.times, imus := PopImus(s.imus, Base(s), capture).1, phase := Lio,
               base := r.base, cut := capture, next := r.next, needInit := r.needInit, firstFrame := r.firstFrame,
               count := r.count, propEnd := r.propEnd, propImu := r.propImu, log := r.log)
    && r.times == s.times[Consumed(s.raw, s.times, capture)..] && r.raw == s.raw[Consumed(s.raw, s.times, capture)..]
  }

  predicate IsCut(e: Entry, s: State, capture: real)
    requires s.times != []
  {
    && e.LioEntry? && e.time == capture && e.base == Base(s) && e.imus == PopImus(s.imus, Base(s), capture).0
    && e.initialising == s.needInit
  }

  /** The last point of the newest cloud. */
  function NewestEnd(s: State): real
    requires Formed(s) && s.raw != []
  {
    var newest := s.raw[|s.raw| - 1];
    s.times[|s.times| - 1] + newest[|newest| - 1].curvature / 1000.0
  }

  /** The tick hands the first image to the VIO update. */
  predicate UsesImage(cfg: Config, s: State, r: State) {
    && s.phase == Lio && s.imgs != []
    && r == s.(imgs := s.imgs[1..], phase := Vio, log := s.log + [VioEntry(s.imgs[0] + cfg.exposure)], base := r.base,
               propEnd := r.propEnd)
    && (s.needInit ==> r.base == s.base && r.propEnd == s.propEnd)
  }

  lemma TickKinds(cfg: Config, s: State)
    requires Formed(s)
    ensures var r := TickStep(cfg, s); Waits(s, r) || GivesUp(cfg, s, r) || CutsAt(cfg, s, r) || UsesImage(cfg, s, r)
  {
    hide CutEarly;
    hide CutLate;
    hide Consumed;
    hide PopImus;
    hide Integrate;
  }

  /**
   A tick cuts exactly when there are clouds, samples and an image, the last cut has been handed to VIO, and the capture
   time is past the base and reached by the newest cloud and the newest sample.
   */
  lemma CutsExactly(cfg: Config, s: State)
    requires Formed(s)
    ensures Cuts(cfg, s, Tick) <==>
              && s.phase != Lio && s.raw != [] && s.imgs != [] && s.imus != []
              && Base(s) + 0.00001 <= s.imgs[0] + cfg.exposure <= NewestEnd(s)
              && s.imgs[0] + cfg.exposure <= s.imus[|s.imus| - 1]
  {
    hide CutEarly;
    hide CutLate;
    hide Consumed;
    hide PopImus;
    hide Integrate;
  }

  /** Whether the event is a tick that cuts, or one that hands an image on, by the log. */
  lemma KindByLog(cfg: Config, s: State)
    requires Formed(s)
    ensures var r := TickStep(cfg, s);
            && (CutsAt(cfg, s, r) ==> r.phase == Lio && |r.log| == |s.log| + 1)
            && (UsesImage(cfg, s, r) ==> r.phase == Vio)
  {
    hide CutEarly;
    hide CutLate;
    hide Consumed;
    hide PopImus;
    hide Integrate;
    hide TickStep;
  }

  // ----- IMU samples

  /** The samples taken in during a run. */
  function TakenImus(cfg: Config, es: seq<Event>): seq<real> {
    if es == [] then []
    else
      var n := |es| - 1;
      TakenImus(cfg, es[..n]) +
      if es[n].Imu? && TakesImu(Run(cfg, INITIAL, es[..n]), es[n].t) then [es[n].t] else []
  }

  /** All windows handed on, one after the other. */
  function Windows(log: seq<Entry>): seq<real> {
    if log == [] then []
    else
      var last := log[|log| - 1];
      Windows(log[..|log| - 1]) + if last.LioEntry? then last.imus else []
  }

  function CutTimes(log: seq<Entry>): seq<real> {
    if log == [] then []
    else
      var last := log[|log| - 1];
      CutTimes(log[..|log| - 1]) + if last.LioEntry? then [last.time] else []
  }

  /** The samples after `base` that do not have the very time of a cut. */
  function Fresh(ts: seq<real>, base: real, cuts: seq<real>): seq<real> {
    if ts == [] then [] else (if ts[0] > base && ts[0] !in cuts then [ts[0]] else []) + Fresh(ts[1..], base, cuts)
  }

  lemma {:induction false} FreshAppend(a: seq<real>, b: seq<real>, base: real, cuts: seq<real>)
    ensures Fresh(a + b, base, cuts) == Fresh(a, base, cuts) + Fresh(b, base, cuts)
  {
    if a == [] {
      assert a + b == b;
    } else {
      assert (a + b)[1..] == a[1..] + b;
      FreshAppend(a[1..], b, base, cuts);
    }
  }

  lemma {:induction false} FreshAgain(ts: seq<real>, base: real, cuts: seq<real>, c: real)
    ensures Fresh(Fresh(ts, base, cuts), base, cuts + [c]) == Fresh(ts, base, cuts + [c])
  {
    if ts != [] {
      FreshAgain(ts[1..], base, cuts, c);
      var first := if ts[0] > base && ts[0] !in cuts then [ts[0]] else [];
      FreshAppend(first, Fresh(ts[1..], base, cuts), base, cuts + [c]);
      if first != [] {
        assert first[1..] == [];
      }
    }
  }

  /** Popping loses nothing that is fresh, if all samples up to the window's base are stale. */
  lemma {:induction false} FreshPop(imus: seq<real>, from: real, capture: real, base: real, cuts: seq<real>)
    requires forall i :: 0 <= i < |imus| && imus[i] <= from ==> imus[i] <= base || imus[i] in cuts
    ensures var popped := PopImus(imus, from, capture);
            Fresh(imus, base, cuts) == Fresh(popped.0, base, cuts) + Fresh(popped.1, base, cuts)
  {
    if imus == [] || imus[0] > capture {
      FreshNone(base, cuts);
    } else {
      assert forall i :: 0 <= i < |imus[1..]| ==> imus[1..][i] == imus[i + 1];
      FreshPop(imus[1..], from, capture, base, cuts);
      PopFirst(imus, from, capture);
      var rest := PopImus(imus[1..], from, capture);
      var first := if imus[0] > base && imus[0] !in cuts then [imus[0]] else [];
      FreshCons(imus[0], imus[1..], base, cuts);
      FreshCons(imus[0], rest.0, base, cuts);
      assert [imus[0]] + imus[1..] == imus;
      Assoc(first, Fresh(rest.0, base, cuts), Fresh(rest.1, base, cuts));
      hide Fresh;
      hide PopImus;
    }
  }

  lemma PopFirst(imus: seq<real>, from: real, capture: real)
    requires imus != [] && imus[0] <= capture
    ensures var popped, rest := PopImus(imus, from, capture), PopImus(imus[1..], from, capture);
            popped.1 == rest.1 && popped.0 == if imus[0] > from then [imus[0]] + rest.0 else rest.0
  {
  }

  lemma Assoc(a: seq<real>, b: seq<real>, c: seq<real>)
    ensures a + (b + c) == a + b + c && [] + b == b
  {
  }

  lemma FreshNone(base: real, cuts: seq<real>)
    ensures Fresh([], base, cuts) == []
  {
  }

  lemma FreshCons(t: real, ts: seq<real>, base: real, cuts: seq<real>)
    ensures Fresh([t] + ts, base, cuts) == (if t > base && t !in cuts then [t] else []) + Fresh(ts, base, cuts)
  {
    assert ([t] + ts)[1..] == ts;
  }

  /** What the buffer holds is not from before the newest cut. */
  predicate Behind(s: State) {
    s.phase != Wait ==> s.lastImu > 0.0 && s.cut <= s.lastImu && forall i :: 0 <= i < |s.imus| ==> s.cut <= s.imus[i]
  }

  lemma CutBehind(cfg: Config, s: State, r: State)
    requires CutsAt(cfg, s, r) && Sorted(s.imus) && s.lastImu > 0.0
    requires forall i :: 0 <= i < |s.imus| ==> s.imus[i] <= s.lastImu
    ensures Behind(r)
  {
    hide Consumed;
    hide NewestEnd;
    hide PopImus;
    PoppedExact(s.imus, Base(s), r.cut);
  }

  lemma StepBehind(cfg: Config, s: State, e: Event)
    requires Formed(s) && SortedInv(s) && ImuOk(e) && Behind(s)
    ensures Behind(Step(cfg, s, e))
  {
    hide LogSorted;
    match e {
      case Tick =>
        TickKinds(cfg, s);
        var r := TickStep(cfg, s);
        if CutsAt(cfg, s, r) {
          assert s.imus != [];
          CutBehind(cfg, s, r);
        }
        hide TickStep;
        hide CutsAt;
      case Imu(t) =>
        ImuBehind(s, t);
        hide ImuCbk;
      case _ =>
    }
  }

  lemma ImuBehind(s: State, t: real)
    requires Behind(s)
    ensures Behind(ImuCbk(s, t))
  {
    TakenExactly(s, t);
    hide ImuCbk;
  }

  /** On every run with positive stamps no IMU sample comes behind a cut. */
  lemma {:induction false} RunBehind(cfg: Config, es: seq<Event>)
    requires forall i :: 0 <= i < |es| ==> ImuOk(es[i])
    ensures Behind(Run(cfg, INITIAL, es))
    decreases |es|
  {
    if es != [] {
      var n := |es| - 1;
      RunBehind(cfg, es[..n]);
      RunSorted(cfg, es[..n]);
      StepBehind(cfg, Run(cfg, INITIAL, es[..n]), es[n]);
    }
  }

  /** The base of the first cut of the run. */
  function FirstBase(log: seq<Entry>): real {
    if log == [] || !log[0].LioEntry? then 0.0 else log[0].base
  }

  predicate ImusKept(s: State, taken: seq<real>) {
    if s.log == [] then s.imus == taken
    else
      var base, cuts := FirstBase(s.log), CutTimes(s.log);
      Fresh(taken, base, cuts) == Fresh(Windows(s.log) + s.imus, base, cuts)
  }

  /** A window is taken off the buffer: what is fresh after the cut is in the windows or the buffer, in order. */
  lemma FreshCut(taken: seq<real>, windows: seq<real>, imus: seq<real>, from: real, c: real,
          base: real, cuts: seq<real>)
    requires Fresh(taken, base, cuts) == Fresh(windows + imus, base, cuts)
    requires forall i :: 0 <= i < |imus| && imus[i] <= from ==> imus[i] <= base || imus[i] in cuts + [c]
    ensures var popped := PopImus(imus, from, c);
            Fresh(taken, base, cuts + [c]) == Fresh(windows + popped.0 + popped.1, base, cuts + [c])
  {
    hide Fresh;
    hide PopImus;
    var popped := PopImus(imus, from, c);
    FreshAgain(taken, base, cuts, c);
    FreshAgain(windows + imus, base, cuts, c);
    FreshPop(imus, from, c, base, cuts + [c]);
    FreshAppend(windows, imus, base, cuts + [c]);
    FreshAppend(windows, popped.0, base, cuts + [c]);
    FreshAppend(windows + popped.0, popped.1, base, cuts + [c]);
    Assoc(Fresh(windows, base, cuts + [c]), Fresh(popped.0, base, cuts + [c]), Fresh(popped.1, base, cuts + [c]));
  }

  lemma LogGrows(log: seq<Entry>, e: Entry)
    ensures Windows(log + [e]) == Windows(log) + if e.LioEntry? then e.imus else []
    ensures CutTimes(log + [e]) == CutTimes(log) + if e.LioEntry? then [e.time] else []
    ensures FirstBase(log + [e]) == if log == [] && e.LioEntry? then e.base else FirstBase(log)
  {
    assert (log + [e])[..|log|] == log;
  }

  /** A cut, when the buffer holds what was taken in and not handed on. */
  lemma CutKeepsImus(cfg: Config, s: State, r: State, taken: seq<real>)
    requires CutsAt(cfg, s, r) && ImusKept(s, taken) && (s.phase == Wait <==> s.log == []) && Behind(s)
    requires s.phase != Wait ==> Base(s) <= s.cut && s.cut in CutTimes(s.log)
    ensures ImusKept(r, taken)
  {
    hide Consumed;
    hide NewestEnd;
    hide PopImus;
    hide Fresh;
    var e := r.log[|s.log|];
    LogGrows(s.log, e);
    NothingYet();
    var base, cuts := FirstBase(r.log), CutTimes(s.log);
    hide Windows;
    hide CutTimes;
    hide FirstBase;
    assert [] + s.imus == s.imus;
    FreshCut(taken, Windows(s.log), s.imus, Base(s), e.time, base, cuts);
  }

  lemma NothingYet()
    ensures Windows([]) == [] && CutTimes([]) == [] && InitSamples([]) == 0
  {
  }

  /** The newest cut is in the log, and the base of the next one is not after it. */
  predicate BaseBefore(s: State) {
    s.phase != Wait ==> s.cut in CutTimes(s.log) && (s.phase == Vio && s.times != [] ==> Base(s) <= s.cut)
  }

  lemma RunBaseBefore(cfg: Config, es: seq<Event>)
    requires StampsOk(es)
    ensures BaseBefore(Run(cfg, INITIAL, es))
  {
    RunInit(cfg, es);
    RunBase(cfg, es);
    RunLogged(cfg, es);
    var s := Run(cfg, INITIAL, es);
    hide Run;
    hide PhaseInv;
    hide BaseInv;
    hide InitInv;
    if s.phase == Vio && s.times != [] {
      BaseNotAfter(s);
    }
  }

  /** The newest cut is in the log. */
  predicate Logged(s: State) {
    s.phase != Wait ==> s.cut in CutTimes(s.log)
  }

  lemma StepLogged(cfg: Config, s: State, e: Event)
    requires Formed(s) && Logged(s)
    ensures Logged(Step(cfg, s, e))
  {
    if e.Tick? {
      TickLogged(cfg, s);
    } else {
      CallbackKinds(cfg, s, e);
      hide Step;
    }
    hide TickStep;
  }

  lemma TickLogged(cfg: Config, s: State)
    requires Formed(s) && Logged(s)
    ensures Logged(TickStep(cfg, s))
  {
    TickKinds(cfg, s);
    var r := TickStep(cfg, s);
    hide TickStep;
    if CutsAt(cfg, s, r) {
      CutLogged(cfg, s, r);
    } else if UsesImage(cfg, s, r) {
      LogGrows(s.log, r.log[|s.log|]);
      hide CutTimes;
      assert CutTimes(s.log) + [] == CutTimes(s.log);
    }
    hide CutsAt;
    hide CutTimes;
  }

  lemma CutLogged(cfg: Config, s: State, r: State)
    requires CutsAt(cfg, s, r)
    ensures Logged(r)
  {
    var e := r.log[|s.log|];
    LogGrows(s.log, e);
    assert r.log == s.log + [e] && e.time == r.cut;
    hide CutsAt;
    hide CutTimes;
  }

  lemma {:induction false} RunLogged(cfg: Config, es: seq<Event>)
    ensures Logged(Run(cfg, INITIAL, es))
    decreases |es|
  {
    if es != [] {
      RunLogged(cfg, es[..|es| - 1]);
      StepLogged(cfg, Run(cfg, INITIAL, es[..|es| - 1]), es[|es| - 1]);
    }
  }

  lemma BaseNotAfter(s: State)
    requires InitInv(s) && s.phase == Vio && s.times != []
    requires !s.needInit ==> Base(s) == s.cut
    ensures Base(s) <= s.cut
  {
  }

  /**
   Every IMU sample taken in after the base of the first cut is handed on in exactly one window, in order, or still
   buffered, unless it has the very time of a cut.
   */
  lemma {:induction false} RunKeepsImus(cfg: Config, es: seq<Event>)
    requires StampsOk(es) && forall i :: 0 <= i < |es| ==> ImuOk(es[i])
    ensures ImusKept(Run(cfg, INITIAL, es), TakenImus(cfg, es))
    decreases |es|
  {
    if es != [] {
      var n := |es| - 1;
      RunKeepsImus(cfg, es[..n]);
      RunBehind(cfg, es[..n]);
      RunBaseBefore(cfg, es[..n]);
      LioVioAlternate(cfg, es[..n]);
      StepKeepsImus(cfg, Run(cfg, INITIAL, es[..n]), es[n], TakenImus(cfg, es[..n]));
    }
  }

  lemma StepKeepsImus(cfg: Config, s: State, e: Event, taken: seq<real>)
    requires Formed(s) && ImusKept(s, taken) && PhaseInv(cfg, s) && Behind(s) && BaseBefore(s)
    ensures ImusKept(Step(cfg, s, e), taken + if e.Imu? && TakesImu(s, e.t) then [e.t] else [])
  {
    assert taken + [] == taken;
    match e {
      case Tick =>
        TickKeepsImus(cfg, s, taken);
      case Imu(t) =>
        TakenExactly(s, t);
        if TakesImu(s, t) && s.log != [] {
          FreshMore(taken, s, t);
        }
      case Lidar(t, points) =>
        SameImus(s, LidarCbk(s, t, points), taken);
      case Image(t) =>
        SameImus(s, ImgCbk(s, t), taken);
    }
  }

  lemma SameImus(s: State, r: State, taken: seq<real>)
    requires ImusKept(s, taken) && r.log == s.log && r.imus == s.imus
    ensures ImusKept(r, taken)
  {
  }

  lemma TickKeepsImus(cfg: Config, s: State, taken: seq<real>)
    requires Formed(s) && ImusKept(s, taken) && PhaseInv(cfg, s) && Behind(s) && BaseBefore(s)
    ensures ImusKept(TickStep(cfg, s), taken)
  {
    TickKinds(cfg, s);
    var r := TickStep(cfg, s);
    hide TickStep;
    hide Fresh;
    if CutsAt(cfg, s, r) {
      CutKeepsImus(cfg, s, r, taken);
    } else if UsesImage(cfg, s, r) {
      LogGrows(s.log, r.log[|s.log|]);
      assert Windows(s.log) + [] == Windows(s.log) && CutTimes(s.log) + [] == CutTimes(s.log);
    } else {
      SameImus(s, r, taken);
    }
  }

  lemma FreshMore(taken: seq<real>, s: State, t: real)
    requires s.log != [] && ImusKept(s, taken)
    ensures ImusKept(s.(imus := s.imus + [t], lastImu := t), taken + [t])
  {
    var base, cuts := FirstBase(s.log), CutTimes(s.log);
    FreshAppend(taken, [t], base, cuts);
    FreshAppend(Windows(s.log) + s.imus, [t], base, cuts);
    assert Windows(s.log) + s.imus + [t] == Windows(s.log) + (s.imus + [t]);
  }

  // ----- the end of initialisation, and the sample that propagation goes on from

  /** Samples handed on while IMU initialisation lasted. */
  function InitSamples(log: seq<Entry>): nat {
    if log == [] then 0
    else
      var last := log[|log| - 1];
      InitSamples(log[..|log| - 1]) + if last.LioEntry? && last.initialising then |last.imus| else 0
  }

  /**
   Propagation goes on from the last sample handed on. Initialisation counts the samples from one, and is over as soon
   as there are any and the count exceeds MAX_INI_COUNT.
   */
  predicate InitCounted(cfg: Config, s: State) {
    var n, all := InitSamples(s.log), Windows(s.log);
    && (all != [] ==> s.propImu == all[|all| - 1])
    && (s.firstFrame <==> n == 0) && s.count == 1 + n
    && (s.needInit <==> n == 0 || 1 + n <= cfg.maxIniCount)
  }

  lemma TickCounts(cfg: Config, s: State)
    requires Formed(s) && InitCounted(cfg, s)
    ensures InitCounted(cfg, TickStep(cfg, s))
  {
    TickKinds(cfg, s);
    var r := TickStep(cfg, s);
    if CutsAt(cfg, s, r) {
      CutProcess(cfg, s, r);
      CutCounts(cfg, s, r);
    } else if UsesImage(cfg, s, r) {
      VioProcess(cfg, s);
      UseCounts(cfg, s, r);
    } else {
      SameCounts(cfg, s, r);
    }
    hide TickStep;
    hide CutsAt;
    hide UsesImage;
    hide InitCounted;
  }

  lemma UseCounts(cfg: Config, s: State, r: State)
    requires InitCounted(cfg, s) && UsesImage(cfg, s, r)
    requires r.propImu == s.propImu && r.needInit == s.needInit && r.firstFrame == s.firstFrame && r.count == s.count
    ensures InitCounted(cfg, r)
  {
    LogGrows(s.log, r.log[|s.log|]);
    SamplesGrow(s.log, r.log[|s.log|]);
    hide Windows;
    hide InitSamples;
    assert Windows(s.log) + [] == Windows(s.log);
  }

  lemma CutCounts(cfg: Config, s: State, r: State)
    requires CutsAt(cfg, s, r) && InitCounted(cfg, s) && |r.log| > |s.log| && r.log[|s.log|].LioEntry?
    requires ProcessedCut(cfg, s, r, r.log[|s.log|].imus)
    ensures InitCounted(cfg, r)
  {
    hide CutsAt;
    var e := r.log[|s.log|];
    CutEntry(cfg, s, r);
    LogGrows(s.log, e);
    SamplesGrow(s.log, e);
    hide Windows;
    hide InitSamples;
    assert e.imus != [] ==> (Windows(s.log) + e.imus)[|Windows(s.log) + e.imus| - 1] == e.imus[|e.imus| - 1];
    assert Windows(s.log) + [] == Windows(s.log);
  }

  lemma CutEntry(cfg: Config, s: State, r: State)
    requires CutsAt(cfg, s, r)
    ensures |r.log| == |s.log| + 1 && r.log == s.log + [r.log[|s.log|]]
    ensures r.log[|s.log|].LioEntry? && r.log[|s.log|].initialising == s.needInit
  {
    hide PopImus;
    hide Consumed;
    hide NewestEnd;
  }

  /** What Process2 makes of the window `imus`. */
  predicate ProcessedCut(cfg: Config, s: State, r: State, imus: seq<real>) {
    && r.propImu == (if imus == [] then s.propImu else imus[|imus| - 1])
    && if s.needInit && imus != [] then
         && !r.firstFrame && r.count == (if s.firstFrame then 1 else s.count) + |imus|
         && (r.needInit <==> r.count <= cfg.maxIniCount)
       else
         r.needInit == s.needInit && r.firstFrame == s.firstFrame && r.count == s.count
  }

  lemma SamplesGrow(log: seq<Entry>, e: Entry)
    ensures InitSamples(log + [e]) == InitSamples(log) + if e.LioEntry? && e.initialising then |e.imus| else 0
  {
    assert (log + [e])[..|log|] == log;
  }

  lemma CutProcess(cfg: Config, s: State, r: State)
    requires Formed(s) && r == TickStep(cfg, s) && CutsAt(cfg, s, r)
    ensures ProcessedCut(cfg, s, r, r.log[|s.log|].imus)
  {
    hide CutEarly;
    hide CutLate;
    hide Consumed;
    hide PopImus;
    hide Integrate;
  }

  lemma VioProcess(cfg: Config, s: State)
    requires Formed(s) && UsesImage(cfg, s, TickStep(cfg, s))
    ensures var r := TickStep(cfg, s);
            r.propImu == s.propImu && r.needInit == s.needInit && r.firstFrame == s.firstFrame && r.count == s.count
  {
    hide TickStep;
  }

  /** On every run. */
  lemma {:induction false} RunCounts(cfg: Config, es: seq<Event>)
    ensures InitCounted(cfg, Run(cfg, INITIAL, es))
    decreases |es|
  {
    if es != [] {
      var n := |es| - 1;
      RunCounts(cfg, es[..n]);
      StepInitCounts(cfg, Run(cfg, INITIAL, es[..n]), es[n]);
    } else {
      NothingYet();
    }
  }

  lemma StepInitCounts(cfg: Config, s: State, e: Event)
    requires Formed(s) && InitCounted(cfg, s)
    ensures InitCounted(cfg, Step(cfg, s, e))
  {
    if e.Tick? {
      TickCounts(cfg, s);
    } else {
      CallbackKinds(cfg, s, e);
      SameCounts(cfg, s, Step(cfg, s, e));
    }
    hide Step;
    hide TickStep;
    hide InitCounted;
  }

  lemma SameCounts(cfg: Config, s: State, r: State)
    requires InitCounted(cfg, s) && r.log == s.log && r.propImu == s.propImu
    requires r.firstFrame == s.firstFrame && r.count == s.count && r.needInit == s.needInit
    ensures InitCounted(cfg, r)
  {
  }

  // ----- images

  function TakenImages(cfg: Config, es: seq<Event>): seq<real> {
    if es == [] then []
    else
      var n := |es| - 1;
      TakenImages(cfg, es[..n]) +
      if es[n].Image? && TakesImage(Run(cfg, INITIAL, es[..n]), es[n].t) then [es[n].t] else []
  }

  /** The images behind the VIO steps so far: their capture times less the exposure. */
  function UsedImages(log: seq<Entry>, exposure: real): seq<real> {
    if log == [] then []
    else
      var last := log[|log| - 1];
      UsedImages(log[..|log| - 1], exposure) + if last.VioEntry? then [last.time - exposure] else []
  }

  /** Buffered images are 20 ms apart, and at least that far behind the newest cut, but for the one that it is at. */
  predicate Apart(cfg: Config, s: State) {
    && (forall i :: 0 <= i < |s.imgs| - 1 ==> s.imgs[i + 1] - s.imgs[i] >= 0.02)
    && (s.imgs != [] ==> s.imgs[|s.imgs| - 1] <= s.lastImg)
    && (s.phase != Wait ==> s.cut - cfg.exposure <= s.lastImg)
    && (s.phase == Lio ==> s.imgs != [] && s.imgs[0] + cfg.exposure == s.cut)
    && (s.phase == Vio && s.imgs != [] ==> s.imgs[0] + cfg.exposure >= s.cut + 0.02)
  }

  lemma ImageApart(cfg: Config, s: State, t: real)
    requires Apart(cfg, s)
    ensures Apart(cfg, ImgCbk(s, t))
  {
    TakenExactly(s, t);
    hide ImgCbk;
  }

  lemma StepApart(cfg: Config, s: State, e: Event)
    requires Formed(s) && Apart(cfg, s)
    ensures Apart(cfg, Step(cfg, s, e))
  {
    if e.Tick? {
      TickApart(cfg, s);
    } else if e.Image? {
      ImageApart(cfg, s, e.t);
    } else {
      CallbackKinds(cfg, s, e);
      hide Step;
    }
    hide TickStep;
    hide ImgCbk;
  }

  lemma TickApart(cfg: Config, s: State)
    requires Formed(s) && Apart(cfg, s)
    ensures Apart(cfg, TickStep(cfg, s))
  {
    TickKinds(cfg, s);
    hide TickStep;
    hide PopImus;
    hide Consumed;
    hide NewestEnd;
    hide IsCut;
    FirstIsLeast(s.imgs);
  }

  lemma {:induction false} FirstIsLeast(ts: seq<real>)
    requires forall i :: 0 <= i < |ts| - 1 ==> ts[i + 1] - ts[i] >= 0.02
    ensures ts != [] ==> ts[0] <= ts[|ts| - 1]
  {
    if |ts| > 1 {
      var front := ts[..|ts| - 1];
      assert forall i :: 0 <= i < |front| ==> front[i] == ts[i];
      FirstIsLeast(front);
      assert ts[|ts| - 2 + 1] - ts[|ts| - 2] >= 0.02;
    }
  }

  /**
   The images used and those still buffered are the ones taken in, in order, but for the first `dropped`; these were
   from before the base of the first cut.
   */
  predicate ImagesKept(cfg: Config, s: State, taken: seq<real>, dropped: nat) {
    && dropped <= |taken| && UsedImages(s.log, cfg.exposure) + s.imgs == taken[dropped..]
    && (dropped > 0 && s.log == [] ==> s.times != [] && AllBefore(taken[..dropped], Base(s) - cfg.exposure))
    && (s.log != [] ==> AllBefore(taken[..dropped], FirstBase(s.log) - cfg.exposure))
  }

  predicate AllBefore(ts: seq<real>, base: real) {
    forall i :: 0 <= i < |ts| ==> ts[i] < base + 0.00001
  }

  lemma UsedGrow(log: seq<Entry>, e: Entry, exposure: real)
    ensures UsedImages(log + [e], exposure) ==
              UsedImages(log, exposure) + if e.VioEntry? then [e.time - exposure] else []
  {
    assert (log + [e])[..|log|] == log;
  }

  /** Once there is a cut no image is given up: those buffered are later than it, and the base is not. */
  lemma NoneGivenUp(cfg: Config, s: State, r: State)
    requires Apart(cfg, s) && BaseBefore(s) && s.phase != Wait
    ensures !GivesUp(cfg, s, r)
  {
  }

  lemma TickKeepsImages(cfg: Config, s: State, taken: seq<real>, dropped: nat) returns (d: nat)
    requires Formed(s) && Apart(cfg, s) && BaseBefore(s) && (s.phase == Wait <==> s.log == [])
    requires ImagesKept(cfg, s, taken, dropped)
    ensures ImagesKept(cfg, TickStep(cfg, s), taken, d)
  {
    TickKinds(cfg, s);
    var r := TickStep(cfg, s);
    hide TickStep;
    d := dropped;
    if CutsAt(cfg, s, r) {
      CutKeepsImages(cfg, s, r, taken, d);
    } else if UsesImage(cfg, s, r) {
      UseKeepsImages(cfg, s, r, taken, d);
    } else if GivesUp(cfg, s, r) {
      if s.phase != Wait {
        NoneGivenUp(cfg, s, r);
      }
      d := GiveUpFirst(cfg, s, r, taken, dropped);
    } else {
      SameImages(cfg, s, r, taken, d);
    }
    hide CutsAt;
    hide UsesImage;
    hide GivesUp;
    hide ImagesKept;
  }

  lemma SameImages(cfg: Config, s: State, r: State, taken: seq<real>, dropped: nat)
    requires ImagesKept(cfg, s, taken, dropped)
    requires r.log == s.log && r.imgs == s.imgs && (s.times != [] ==> r.times != [] && Base(r) == Base(s))
    ensures ImagesKept(cfg, r, taken, dropped)
  {
    hide UsedImages;
    hide AllBefore;
  }

  lemma CutKeepsImages(cfg: Config, s: State, r: State, taken: seq<real>, dropped: nat)
    requires CutsAt(cfg, s, r) && ImagesKept(cfg, s, taken, dropped)
    ensures ImagesKept(cfg, r, taken, dropped)
  {
    hide PopImus;
    hide Consumed;
    hide NewestEnd;
    var e := r.log[|s.log|];
    UsedGrow(s.log, e, cfg.exposure);
    LogGrows(s.log, e);
    hide FirstBase;
    assert UsedImages(s.log, cfg.exposure) + [] == UsedImages(s.log, cfg.exposure);
    hide UsedImages;
  }

  lemma UseKeepsImages(cfg: Config, s: State, r: State, taken: seq<real>, dropped: nat)
    requires UsesImage(cfg, s, r) && ImagesKept(cfg, s, taken, dropped) && s.log != []
    ensures ImagesKept(cfg, r, taken, dropped)
  {
    var used := UsedImages(s.log, cfg.exposure);
    UsedGrow(s.log, r.log[|s.log|], cfg.exposure);
    LogGrows(s.log, r.log[|s.log|]);
    hide UsedImages;
    hide FirstBase;
    assert used + s.imgs == used + [s.imgs[0]] + s.imgs[1..];
  }

  lemma GiveUpFirst(cfg: Config, s: State, r: State, taken: seq<real>, dropped: nat) returns (d: nat)
    requires GivesUp(cfg, s, r) && s.log == [] && ImagesKept(cfg, s, taken, dropped)
    ensures ImagesKept(cfg, r, taken, d)
  {
    assert UsedImages(s.log, cfg.exposure) == [] && [] + s.imgs == s.imgs && [] + r.imgs == r.imgs;
    d := dropped + 1;
    assert s.imgs == taken[dropped..] && r.imgs == taken[d..];
    assert taken[..d] == taken[..dropped] + [s.imgs[0]];
  }

  lemma StepKeepsImages(cfg: Config, s: State, e: Event, taken: seq<real>, dropped: nat) returns (d: nat)
    requires Formed(s) && Apart(cfg, s) && BaseBefore(s) && (s.phase == Wait <==> s.log == [])
    requires ImagesKept(cfg, s, taken, dropped)
    ensures ImagesKept(cfg, Step(cfg, s, e), taken + if e.Image? && TakesImage(s, e.t) then [e.t] else [], d)
  {
    assert taken + [] == taken;
    d := dropped;
    if e.Tick? {
      d := TickKeepsImages(cfg, s, taken, dropped);
    } else {
      var r := Step(cfg, s, e);
      CallbackKinds(cfg, s, e);
      if e.Image? {
        ImageKeepsImages(cfg, s, e.t, taken, d);
      } else {
        SameImages(cfg, s, r, taken, d);
      }
    }
    hide TickStep;
    hide ImagesKept;
    hide Apart;
    hide BaseBefore;
  }

  lemma ImageKeepsImages(cfg: Config, s: State, t: real, taken: seq<real>, dropped: nat)
    requires ImagesKept(cfg, s, taken, dropped)
    ensures ImagesKept(cfg, ImgCbk(s, t), taken + if TakesImage(s, t) then [t] else [], dropped)
  {
    TakenExactly(s, t);
    hide ImgCbk;
    hide AllBefore;
    assert taken + [] == taken;
    if TakesImage(s, t) {
      var used := UsedImages(s.log, cfg.exposure);
      hide UsedImages;
      assert used + (s.imgs + [t]) == (used + s.imgs) + [t];
      assert (taken + [t])[dropped..] == taken[dropped..] + [t] && (taken + [t])[..dropped] == taken[..dropped];
    }
  }

  /**
   Every image taken in becomes exactly one VIO step, in order, or is still waiting, but for the first few, from before
   the base of the first cut.
   */
  lemma {:induction false} RunKeepsImages(cfg: Config, es: seq<Event>) returns (dropped: nat)
    requires StampsOk(es)
    ensures Apart(cfg, Run(cfg, INITIAL, es))
    ensures ImagesKept(cfg, Run(cfg, INITIAL, es), TakenImages(cfg, es), dropped)
    decreases |es|
  {
    if es == [] {
      dropped := 0;
    } else {
      var n := |es| - 1;
      dropped := RunKeepsImages(cfg, es[..n]);
      RunBaseBefore(cfg, es[..n]);
      LioVioAlternate(cfg, es[..n]);
      StepApart(cfg, Run(cfg, INITIAL, es[..n]), es[n]);
      dropped := StepKeepsImages(cfg, Run(cfg, INITIAL, es[..n]), es[n], TakenImages(cfg, es[..n]), dropped);
    }
  }

  // ----- clouds

  /** The time of the last point of the newest cloud received. */
  function ReceivedEnd(es: seq<Event>): real {
    if es == [] then 0.0
    else
      var e := es[|es| - 1];
      if e.Lidar? && e.points != [] then e.t + e.points[|e.points| - 1].curvature / 1000.0
      else ReceivedEnd(es[..|es| - 1])
  }

  /** Each cloud starts when the one before it has ended, or later, and its last point is not before its start. */
  predicate Following(es: seq<Event>) {
    forall n :: 0 <= n < |es| && es[n].Lidar? && es[n].points != [] ==>
      es[n].t >= ReceivedEnd(es[..n]) && es[n].points[|es[n].points| - 1].curvature >= 0.0
  }

  /** The last stamp is that of the newest buffered cloud, the newest buffered cloud is the newest received. */
  predicate NewestBuffered(s: State, end: real) {
    && (s.times != [] ==> s.lastLidar == s.times[|s.times| - 1])
    && (Formed(s) && s.raw != [] ==> NewestEnd(s) == end)
  }

  lemma StepNewest(cfg: Config, s: State, e: Event, end: real, end': real)
    requires Formed(s) && NewestBuffered(s, end)
    requires end' == if e.Lidar? && e.points != [] then e.t + e.points[|e.points| - 1].curvature / 1000.0 else end
    ensures NewestBuffered(Step(cfg, s, e), end')
  {
    if e.Tick? {
      TickNewest(cfg, s, end);
    } else if !e.Lidar? {
      CallbackKinds(cfg, s, e);
      hide Step;
    }
    hide TickStep;
  }

  lemma TickNewest(cfg: Config, s: State, end: real)
    requires Formed(s) && NewestBuffered(s, end)
    ensures NewestBuffered(TickStep(cfg, s), end)
  {
    TickKinds(cfg, s);
    hide TickStep;
    hide PopImus;
    hide Consumed;
    hide IsCut;
  }

  lemma FollowingFront(es: seq<Event>)
    requires es != [] && Following(es)
    ensures Following(es[..|es| - 1])
  {
    var front := es[..|es| - 1];
    forall n | 0 <= n < |front| && front[n].Lidar? && front[n].points != []
      ensures front[n].t >= ReceivedEnd(front[..n]) && front[n].points[|front[n].points| - 1].curvature >= 0.0
    {
      assert front[..n] == es[..n] && front[n] == es[n];
    }
  }

  /**
   A cut waits for the clouds: when they follow one another, no cut is after the last point received, so whatever comes
   later was captured after it.
   */
  lemma {:induction false} CutsWaitForClouds(cfg: Config, es: seq<Event>)
    requires Following(es)
    ensures var s := Run(cfg, INITIAL, es);
            NewestBuffered(s, ReceivedEnd(es)) && (s.phase != Wait ==> s.cut <= ReceivedEnd(es))
    decreases |es|
  {
    if es != [] {
      var n := |es| - 1;
      FollowingFront(es);
      CutsWaitForClouds(cfg, es[..n]);
      var s := Run(cfg, INITIAL, es[..n]);
      StepNewest(cfg, s, es[n], ReceivedEnd(es[..n]), ReceivedEnd(es));
      CutWaits(cfg, s, es[n], ReceivedEnd(es[..n]));
      assert es[n].Lidar? && es[n].points != [] ==> ReceivedEnd(es) >= ReceivedEnd(es[..n]);
    }
  }

  lemma CutWaits(cfg: Config, s: State, e: Event, end: real)
    requires Formed(s) && NewestBuffered(s, end) && (s.phase != Wait ==> s.cut <= end)
    ensures var r := Step(cfg, s, e); r.phase != Wait ==> r.cut <= end
  {
    if e.Tick? {
      TickKinds(cfg, s);
      hide PopImus;
      hide Consumed;
      hide IsCut;
    } else {
      CallbackKinds(cfg, s, e);
      hide Step;
    }
    hide TickStep;
  }

  /** A cut takes all buffered clouds that start by its time, and no other. */
  lemma {:induction false} ConsumedExactly(raw: seq<seq<Pt>>, times: seq<real>, capture: real)
    requires |raw| <= |times| && forall i, j :: 0 <= i < j < |times| ==> times[i] <= times[j]
    ensures forall i :: 0 <= i < |raw| ==> (i < Consumed(raw, times, capture) <==> times[i] <= capture)
  {
    if raw != [] && times[0] <= capture {
      var rest := times[1..];
      assert forall i :: 0 <= i < |rest| ==> rest[i] == times[i + 1];
      ConsumedExactly(raw[1..], rest, capture);
      forall i | 0 <= i < |raw| ensures i < Consumed(raw, times, capture) <==> times[i] <= capture {
        assert i > 0 ==> rest[i - 1] == times[i];
      }
    }
  }

  /** The points of a cloud that are early, or those that are not, in the order they have there. */
  function Select(points: seq<Pt>, header: real, capture: real, early: bool): seq<Pt> {
    if points == [] then []
    else
      var rest := Select(points[1..], header, capture, early);
      if (points[0].curvature / 1000.0 + header < capture) == early then [points[0]] + rest else rest
  }

  function Payloads(points: seq<Pt>): seq<int> {
    seq(|points|, i requires 0 <= i < |points| => points[i].payload)
  }

  lemma {:induction false} SelectSnoc(points: seq<Pt>, p: Pt, header: real, capture: real, early: bool)
    ensures var chosen := (p.curvature / 1000.0 + header < capture) == early;
            Select(points + [p], header, capture, early) ==
              Select(points, header, capture, early) + if chosen then [p] else []
  {
    if points == [] {
      assert [] + [p] == [p];
    } else {
      assert (points + [p])[1..] == points[1..] + [p];
      SelectSnoc(points[1..], p, header, capture, early);
    }
  }

  lemma PayloadsSnoc(points: seq<Pt>, p: Pt)
    ensures Payloads(points + [p]) == Payloads(points) + [p.payload]
  {
  }

  /** Splitting a cloud keeps the order: those captured before the cut go to this one, the others to the next. */
  lemma {:induction false} SplitInOrder(points: seq<Pt>, header: real, base: real, capture: real)
    ensures Payloads(EarlyPoints(points, header, base, capture)) == Payloads(Select(points, header, capture, true))
    ensures Payloads(LatePoints(points, header, capture)) == Payloads(Select(points, header, capture, false))
  {
    if points != [] {
      var n := |points| - 1;
      var p := points[n];
      assert points == points[..n] + [p];
      SplitInOrder(points[..n], header, base, capture);
      SelectSnoc(points[..n], p, header, capture, true);
      SelectSnoc(points[..n], p, header, capture, false);
      OnePoint(points, header, base, capture);
      PayloadsSnoc(EarlyPoints(points[..n], header, base, capture), Rebase(p, header, base));
      PayloadsSnoc(LatePoints(points[..n], header, capture), Rebase(p, header, capture));
      PayloadsSnoc(Select(points[..n], header, capture, true), p);
      PayloadsSnoc(Select(points[..n], header, capture, false), p);
      hide EarlyPoints;
      hide LatePoints;
      hide Select;
      hide Payloads;
    }
  }

  lemma OnePoint(points: seq<Pt>, header: real, base: real, capture: real)
    requires points != []
    ensures var n := |points| - 1;
            var p := points[n];
            var early := EarlyPoints(points[..n], header, base, capture);
            var late := LatePoints(points[..n], header, capture);
            if p.curvature / 1000.0 + header < capture then
              EarlyPoints(points, header, base, capture) == early + [Rebase(p, header, base)] &&
              LatePoints(points, header, capture) == late
            else
              EarlyPoints(points, header, base, capture) == early &&
              LatePoints(points, header, capture) == late + [Rebase(p, header, capture)]
  {
  }

  /** Over clouds in order, earlier clouds first. */
  function SelectAll(raw: seq<seq<Pt>>, times: seq<real>, capture: real, early: bool): seq<Pt>
    requires |raw| <= |times|
  {
    if raw == [] then []
    else Select(raw[0], times[0], capture, early) + SelectAll(raw[1..], times[1..], capture, early)
  }

  lemma {:induction false} SelectAllSnoc(raw: seq<seq<Pt>>, times: seq<real>, capture: real, early: bool)
    requires 0 < |raw| == |times|
    ensures var n := |raw| - 1;
            SelectAll(raw, times, capture, early) ==
              SelectAll(raw[..n], times[..n], capture, early) + Select(raw[n], times[n], capture, early)
    decreases |raw|
  {
    hide Select;
    var n := |raw| - 1;
    if n > 0 {
      SelectAllSnoc(raw[1..], times[1..], capture, early);
      assert raw[..n][1..] == raw[1..][..n - 1] && times[..n][1..] == times[1..][..n - 1];
    }
  }

  lemma PayloadsAppend(a: seq<Pt>, b: seq<Pt>)
    ensures Payloads(a + b) == Payloads(a) + Payloads(b)
  {
  }

  /** What a cut takes from the buffered clouds, and what it carries over, is in the order of reception. */
  lemma {:induction false} CutInOrder(raw: seq<seq<Pt>>, times: seq<real>, n: nat, base: real, capture: real)
    requires n <= |raw| && n <= |times|
    ensures Payloads(CutEarly(raw, times, n, base, capture)) == Payloads(SelectAll(raw[..n], times[..n], capture, true))
    ensures Payloads(CutLate(raw, times, n, capture)) == Payloads(SelectAll(raw[..n], times[..n], capture, false))
  {
    if n != 0 {
      var i := n - 1;
      CutInOrder(raw, times, i, base, capture);
      SplitInOrder(raw[i], times[i], base, capture);
      assert raw[..n][..i] == raw[..i] && times[..n][..i] == times[..i];
      SelectAllSnoc(raw[..n], times[..n], capture, true);
      SelectAllSnoc(raw[..n], times[..n], capture, false);
      PayloadsAppend(CutEarly(raw, times, i, base, capture), EarlyPoints(raw[i], times[i], base, capture));
      PayloadsAppend(CutLate(raw, times, i, capture), LatePoints(raw[i], times[i], capture));
      PayloadsAppend(SelectAll(raw[..i], times[..i], capture, true), Select(raw[i], times[i], capture, true));
      PayloadsAppend(SelectAll(raw[..i], times[..i], capture, false), Select(raw[i], times[i], capture, false));
      hide Payloads;
      hide Select;
      hide SelectAll;
      hide EarlyPoints;
      hide LatePoints;
    }
  }

  // ----- a gap in the IMU stream

  /** No IMU stamp is within 0.2 s of the last one taken in. */
  predicate BeyondGap(lastImu: real, es: seq<Event>) {
    forall i :: 0 <= i < |es| && es[i].Imu? ==> es[i].t > lastImu + 0.2
  }

  predicate Stalled(s: State, r: State) {
    && r.lastImu == s.lastImu && |r.imus| <= |s.imus| && r.imus == s.imus[|s.imus| - |r.imus|..]
    && |s.log| <= |r.log|
    && forall i :: |s.log| <= i < |r.log| && r.log[i].LioEntry? ==> r.log[i].time <= s.lastImu
  }

  lemma StepStalls(cfg: Config, s: State, r: State, e: Event)
    requires Formed(r) && Stalled(s, r) && s.lastImu > 0.0 && (e.Imu? ==> e.t > s.lastImu + 0.2)
    requires SortedInv(r)
    ensures Stalled(s, Step(cfg, r, e))
  {
    if e.Tick? {
      TickStalls(cfg, s, r);
    } else {
      CallbackKinds(cfg, r, e);
      if e.Imu? {
        TakenExactly(r, e.t);
      }
      hide Step;
      hide SortedInv;
    }
  }

  lemma TickStalls(cfg: Config, s: State, r: State)
    requires Formed(r) && Stalled(s, r) && SortedInv(r)
    ensures Stalled(s, TickStep(cfg, r))
  {
    TickKinds(cfg, r);
    var r' := TickStep(cfg, r);
    hide TickStep;
    if CutsAt(cfg, r, r') {
      CutStalls(cfg, s, r, r');
    }
    hide CutsAt;
    hide SortedInv;
  }

  lemma CutStalls(cfg: Config, s: State, r: State, r': State)
    requires CutsAt(cfg, r, r') && Stalled(s, r) && SortedInv(r)
    ensures Stalled(s, r')
  {
    hide CutsAt;
    hide SortedInv;
    CutPops(cfg, r, r');
    CutRecorded(cfg, r, r');
    SuffixOf(s.imus, r.imus, Popped(r.imus, r'.cut));
    assert forall i :: 0 <= i < |r.log| ==> r'.log[i] == r'.log[..|r.log|][i];
  }

  lemma CutPops(cfg: Config, s: State, r: State)
    requires CutsAt(cfg, s, r) && SortedInv(s)
    ensures r.cut <= s.lastImu && r.imus == s.imus[Popped(s.imus, r.cut)..]
  {
    PoppedExact(s.imus, Base(s), r.cut);
    hide Consumed;
    hide NewestEnd;
    hide LogSorted;
    hide PopImus;
  }

  lemma CutRecorded(cfg: Config, s: State, r: State)
    requires CutsAt(cfg, s, r)
    ensures |r.log| == |s.log| + 1 && r.log[..|s.log|] == s.log
    ensures r.log[|s.log|].time == r.cut && r.lastImu == s.lastImu
  {
    hide PopImus;
    hide Consumed;
    hide NewestEnd;
  }

  lemma SuffixOf(a: seq<real>, b: seq<real>, k: nat)
    requires k <= |b| <= |a| && b == a[|a| - |b|..]
    ensures b[k..] == a[|a| - |b[k..]|..]
  {
  }

  /**
   A gap of more than 0.2 s is final: once the stamps are beyond it no sample is taken in again, whatever comes later,
   and no cut is made after the last sample.
   */
  lemma {:induction false} GapIsForever(cfg: Config, s: State, later: seq<Event>)
    requires Formed(s) && SortedInv(s) && s.lastImu > 0.0 && BeyondGap(s.lastImu, later)
    ensures Stalled(s, Run(cfg, s, later)) && SortedInv(Run(cfg, s, later))
    decreases |later|
  {
    if later == [] {
      assert s.imus[0..] == s.imus;
    } else {
      var n := |later| - 1;
      assert forall i :: 0 <= i < n ==> later[..n][i] == later[i];
      GapIsForever(cfg, s, later[..n]);
      var r, e := Run(cfg, s, later[..n]), later[n];
      assert e.Imu? ==> ImuOk(e);
      hide Stalled;
      hide SortedInv;
      StepStalls(cfg, s, r, e);
      StepSorted(cfg, r, e);
    }
  }
}
