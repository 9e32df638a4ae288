/**
 The LIVO-mode sensor synchroniser and the time keeping of the IMU propagation, as values.

 Callbacks fill three buffers; each tick tries to cut the buffered data at the next image's capture time and
 hands the cut to the LIO update, then to the VIO update. Times are real numbers; a point's `curvature` is its
 offset in milliseconds from a base time that depends on where the point currently is.
 */
module Synchroniser {

  /** `payload` stands for the fields that the synchroniser copies. */
  datatype Pt = Pt(payload: int, curvature: real)

  datatype Phase = Wait | Vio | Lio

  /** `exposure` is exposure_time_init, `maxIniCount` is MAX_INI_COUNT. */
  datatype Config = Config(exposure: real, maxIniCount: nat)

  /** What one successful tick handed on. */
  datatype Entry =
    | LioEntry(time: real, base: real, points: seq<Pt>, imus: seq<real>, beg: real, dts: seq<real>, initialising: bool)
    | VioEntry(time: real)

  datatype State = State(
    raw: seq<seq<Pt>>,       // lid_raw_data_buffer
    times: seq<real>,        // lid_header_time_buffer
    imgs: seq<real>,         // img_time_buffer
    imus: seq<real>,         // stamps of imu_buffer
    lastLidar: real, lastImu: real, lastImg: real,
    phase: Phase,            // lio_vio_flg
    base: real,              // last_lio_update_time
    cut: real,               // lio_time of the newest LIO cut
    next: seq<Pt>,           // pcl_proc_next
    needInit: bool,          // imu_need_init
    firstFrame: bool,        // b_first_frame
    count: nat,              // init_iter_num
    propEnd: real,           // last_prop_end_time
    propImu: real,           // stamp of last_imu
    log: seq<Entry>)         // history

  const INITIAL := State([], [], [], [], -1.0, -1.0, -1.0, Wait, -1.0, 0.0, [], true, true, 1, 0.0, 0.0, [])

  datatype Event = Lidar(t: real, points: seq<Pt>) | Imu(t: real) | Image(t: real) | Tick

  // ----- callbacks

  /** livox_pcl_cbk, after preprocessing. A stamp that goes back clears the clouds but not their stamps. */
  function LidarCbk(s: State, t: real, points: seq<Pt>): State {
    var s' := if t < s.lastLidar then s.(raw := []) else s;
    if points == [] then s'
    else s'.(raw := s'.raw + [points], times := s'.times + [t], lastLidar := t)
  }

  /** To the nearest whole number, halves away from zero. */
  function Round(x: real): int { if x >= 0.0 then (x + 0.5).Floor else -(0.5 - x).Floor }

  /** The stamp that imu_cbk goes on with: the offset is taken off, and the driver fix adds whole seconds. */
  function ImuStamp(stamp: real, offset: real, driverFix: bool, lastLidar: real): real {
    var t := stamp - offset;
    if driverFix then t + Round(lastLidar - t) as real else t
  }

  /** imu_cbk; `t` is the corrected stamp. */
  function ImuCbk(s: State, t: real): State {
    if s.lastLidar < 0.0 then s
    else if s.lastImu > 0.0 && t < s.lastImu then s
    else if s.lastImu > 0.0 && t > s.lastImu + 0.2 then s
    else s.(lastImu := t, imus := s.imus + [t])
  }

  function Abs(x: real): real { if x < 0.0 then -x else x }

  /** img_cbk; `t` includes the configured offset. */
  function ImgCbk(s: State, t: real): State {
    if Abs(t - s.lastImg) < 0.001 then s
    else if s.lastLidar < 0.0 then s
    else if t < s.lastImg then s
    else if t - s.lastImg < 0.02 then s
    else s.(imgs := s.imgs + [t], lastImg := t)
  }

  // ----- cutting

  /** Samples after `base` up to `capture`, and what stays buffered. */
  function PopImus(imus: seq<real>, base: real, capture: real): (r: (seq<real>, seq<real>)) {
    if imus == [] || imus[0] > capture then ([], imus)
    else
      var rest := PopImus(imus[1..], base, capture);
      ((if imus[0] > base then [imus[0]] else []) + rest.0, rest.1)
  }

  predicate Early(p: Pt, header: real, capture: real) {
    p.curvature < (capture - header) * 1000.0
  }

  function Rebase(p: Pt, from: real, to: real): Pt {
    p.(curvature := p.curvature + (from - to) * 1000.0)
  }

  /** The points of one cloud that belong to this cut, relative to `base`. */
  function EarlyPoints(points: seq<Pt>, header: real, base: real, capture: real): seq<Pt> {
    if points == [] then []
    else
      var n := |points| - 1;
      EarlyPoints(points[..n], header, base, capture) +
      if Early(points[n], header, capture) then [Rebase(points[n], header, base)] else []
  }

  /** The points of one cloud that are carried to the next cut, relative to `capture`. */
  function LatePoints(points: seq<Pt>, header: real, capture: real): seq<Pt> {
    if points == [] then []
    else
      var n := |points| - 1;
      LatePoints(points[..n], header, capture) +
      if Early(points[n], header, capture) then [] else [Rebase(points[n], header, capture)]
  }

  /** How many of the buffered clouds this cut consumes. */
  function Consumed(raw: seq<seq<Pt>>, times: seq<real>, capture: real): (n: nat)
    ensures n <= |raw| && n <= |times|
  {
    if raw == [] || times == [] || times[0] > capture then 0 else 1 + Consumed(raw[1..], times[1..], capture)
  }

  function CutEarly(raw: seq<seq<Pt>>, times: seq<real>, n: nat, base: real, capture: real): seq<Pt>
    requires n <= |raw| && n <= |times|
  {
    if n == 0 then []
    else CutEarly(raw, times, n - 1, base, capture) + EarlyPoints(raw[n - 1], times[n - 1], base, capture)
  }

  function CutLate(raw: seq<seq<Pt>>, times: seq<real>, n: nat, capture: real): seq<Pt>
    requires n <= |raw| && n <= |times|
  {
    if n == 0 then [] else CutLate(raw, times, n - 1, capture) + LatePoints(raw[n - 1], times[n - 1], capture)
  }

  // ----- IMU propagation times (UndistortPcl)

  /**
   The integration steps over the samples `v` (the last one of the previous window first) from `beg` to `end`:
   segment `i` joins samples i and i+1.
   */
  function Segments(v: seq<real>, beg: real, end: real, n: nat): (dts: seq<real>)
    requires n < |v|
    decreases n
  {
    if n == 0 then []
    else
      var i := n - 1;
      var before := Segments(v, beg, end, i);
      if v[i + 1] < beg then before
      else if v[i] < beg then before + [v[i + 1] - beg]
      else if i != |v| - 2 then before + [v[i + 1] - v[i]]
      else before + [end - v[i]]
  }

  /** IMU_init and the gate around it: `end` is the time of the step being processed. */
  function InitStep(cfg: Config, s: State, imus: seq<real>, end: real): State {
    if imus == [] then s
    else
      var count := (if s.firstFrame then 1 else s.count) + |imus|;
      var done := count > cfg.maxIniCount;
      s.(firstFrame := false, count := count, propImu := imus[|imus| - 1], needInit := !done,
         propEnd := if done then end else if s.firstFrame then 0.0 else s.propEnd)
  }

  /** Process2 for the step that `sync_packages` just handed on. */
  function Process(cfg: Config, s: State, imus: seq<real>, end: real): (r: State)
    ensures r == s.(base := r.base, needInit := r.needInit, firstFrame := r.firstFrame, count := r.count,
                    propEnd := r.propEnd, propImu := r.propImu)
  {
    if s.needInit then InitStep(cfg, s, imus, end)
    else
      var v := [s.propImu] + imus;
      s.(base := end, propEnd := end, propImu := v[|v| - 1])
  }

  // ----- one tick: sync_packages in LIVO mode, then processImu

  /** meas.last_lio_update_time is set from the first header when it is still negative. */
  function Base(s: State): real
    requires s.times != []
  {
    if s.base < 0.0 then s.times[0] else s.base
  }

  predicate Ready(s: State) {
    s.raw != [] && s.imgs != [] && s.imus != []
  }

  /** The buffers reach past the capture time. */
  predicate Covered(s: State, capture: real)
    requires s.raw != [] && s.times != [] && s.imus != [] && s.raw[|s.raw| - 1] != []
  {
    var newest := s.raw[|s.raw| - 1];
    && capture <= s.times[|s.times| - 1] + newest[|newest| - 1].curvature / 1000.0
    && capture <= s.imus[|s.imus| - 1]
  }

  /** Buffers that the callbacks keep: clouds are never empty, and no cloud lacks a stamp. */
  predicate Formed(s: State) {
    |s.raw| <= |s.times| && forall i :: 0 <= i < |s.raw| ==> s.raw[i] != []
  }

  /** The integration steps of the window `imus`; none while IMU initialisation lasts. */
  function Integrate(initialising: bool, propImu: real, imus: seq<real>, beg: real, end: real): seq<real> {
    if initialising then [] else var v := [propImu] + imus; Segments(v, beg, end, |v| - 1)
  }

  /** The buffers after a cut at `capture`, and the record of what was handed on. */
  function CutBuffers(s: State, capture: real): (r: State)
    requires Formed(s) && s.times != []
    ensures Formed(r) && |r.log| == |s.log| + 1
  {
    var base := Base(s);
    var n := Consumed(s.raw, s.times, capture);
    var popped := PopImus(s.imus, base, capture);
    var entry := LioEntry(capture, base, s.next + CutEarly(s.raw, s.times, n, base, capture), popped.0,
                          s.propEnd, Integrate(s.needInit, s.propImu, popped.0, s.propEnd, capture), s.needInit);
    s.(raw := s.raw[n..], times := s.times[n..], imus := popped.1, phase := Lio, base := base, cut := capture,
       next := CutLate(s.raw, s.times, n, capture), log := s.log + [entry])
  }

  function CutStep(cfg: Config, s: State, capture: real): (r: State)
    requires Formed(s) && s.times != []
    ensures Formed(r) && |r.log| == |s.log| + 1
  {
    Process(cfg, CutBuffers(s, capture), PopImus(s.imus, Base(s), capture).0, capture)
  }

  function TickStep(cfg: Config, s: State): (r: State)
    requires Formed(s)
    ensures Formed(r)
  {
    if !Ready(s) then s
    else
      var capture := s.imgs[0] + cfg.exposure;
      if s.phase == Lio then
        Process(cfg, s.(phase := Vio, imgs := s.imgs[1..], log := s.log + [VioEntry(capture)]), [], capture)
      else if capture < Base(s) + 0.00001 then s.(base := Base(s), imgs := s.imgs[1..])
      else if !Covered(s, capture) then s.(base := Base(s))
      else CutStep(cfg, s, capture)
  }

  function Step(cfg: Config, s: State, e: Event): (r: State)
    requires Formed(s)
    ensures Formed(r)
  {
    match e
    case Lidar(t, points) => LidarCbk(s, t, points)
    case Imu(t) => ImuCbk(s, t)
    case Image(t) => ImgCbk(s, t)
    case Tick => TickStep(cfg, s)
  }

  function Run(cfg: Config, s: State, es: seq<Event>): (r: State)
    requires Formed(s)
    ensures Formed(r)
    decreases |es|
  {
    if es == [] then s else Step(cfg, Run(cfg, s, es[..|es| - 1]), es[|es| - 1])
  }
}
