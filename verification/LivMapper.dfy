/** The synchroniser and the IMU time keeping as the mutable programs they are, proved against Synchroniser. */
module LivMapper {
  import opened Synchroniser

  /** Setting the base beforehand, as sync_packages does, changes nothing for the cut. */
  lemma BaseOnce(cfg: Config, s: State, capture: real)
    requires Formed(s) && s.times != []
    ensures Base(s.(base := Base(s))) == Base(s)
    ensures CutStep(cfg, s.(base := Base(s)), capture) == CutStep(cfg, s, capture)
  {
    hide PopImus;
    hide Consumed;
    hide CutEarly;
    hide CutLate;
    hide Process;
    hide Integrate;
    assert CutBuffers(s.(base := Base(s)), capture) == CutBuffers(s, capture);
  }

  class Mapper {
    const cfg: Config
    const imuOffset: real
    const driverFix: bool
    var lidRaw: seq<seq<Pt>>
    var lidTimes: seq<real>
    var imgTimes: seq<real>
    var imuBuffer: seq<real>
    var lastLidar: real
    var lastImu: real
    var lastImg: real
    var phase: Phase
    var lastLioUpdate: real
    var procCur: seq<Pt>
    var procNext: seq<Pt>
    var needInit: bool
    var firstFrame: bool
    var initCount: nat
    var lastPropEnd: real
    var propImu: real
    ghost var cut: real
    ghost var log: seq<Entry>

    ghost function View(): State
      reads this
    {
      State(lidRaw, lidTimes, imgTimes, imuBuffer, lastLidar, lastImu, lastImg, phase, lastLioUpdate, cut, procNext,
            needInit, firstFrame, initCount, lastPropEnd, propImu, log)
    }

    constructor (cfg: Config, imuOffset: real, driverFix: bool)
      ensures this.cfg == cfg && this.imuOffset == imuOffset && this.driverFix == driverFix && View() == INITIAL
    {
      this.cfg, this.imuOffset, this.driverFix := cfg, imuOffset, driverFix;
      lidRaw, lidTimes, imgTimes, imuBuffer := [], [], [], [];
      lastLidar, lastImu, lastImg := -1.0, -1.0, -1.0;
      phase, lastLioUpdate := Wait, -1.0;
      procCur, procNext := [], [];
      needInit, firstFrame, initCount, lastPropEnd, propImu := true, true, 1, 0.0, 0.0;
      cut, log := 0.0, [];
    }

    method LivoxPclCbk(t: real, points: seq<Pt>)
      modifies this
      ensures View() == LidarCbk(old(View()), t, points)
    {
      if t < lastLidar {
        lidRaw := [];
      }
      if points == [] {
        return;
      }
      lidRaw := lidRaw + [points];
      lidTimes := lidTimes + [t];
      lastLidar := t;
    }

    method ReceiveImu(stamp: real)
      modifies this
      ensures View() == ImuCbk(old(View()), ImuStamp(stamp, imuOffset, driverFix, old(lastLidar)))
    {
      if lastLidar < 0.0 { return; }
      var t := stamp - imuOffset;
      if driverFix {
        t := t + Round(lastLidar - t) as real;
      }
      if lastImu > 0.0 && t < lastImu { return; }
      if lastImu > 0.0 && t > lastImu + 0.2 { return; }
      lastImu := t;
      imuBuffer := imuBuffer + [t];
    }

    method ReceiveImage(t: real)
      modifies this
      ensures View() == ImgCbk(old(View()), t)
    {
      if Abs(t - lastImg) < 0.001 { return; }
      if lastLidar < 0.0 { return; }
      if t < lastImg { return; }
      if t - lastImg < 0.02 { return; }
      imgTimes := imgTimes + [t];
      lastImg := t;
    }

    /** Move the IMU samples up to `capture` out of the buffer, keeping those after the last update. */
    method TakeImus(capture: real) returns (imus: seq<real>)
      modifies this`imuBuffer
      ensures imus == PopImus(old(imuBuffer), lastLioUpdate, capture).0
      ensures imuBuffer == PopImus(old(imuBuffer), lastLioUpdate, capture).1
    {
      imus := [];
      while imuBuffer != []
        invariant imus + PopImus(imuBuffer, lastLioUpdate, capture).0 ==
                    PopImus(old(imuBuffer), lastLioUpdate, capture).0
        invariant PopImus(imuBuffer, lastLioUpdate, capture).1 == PopImus(old(imuBuffer), lastLioUpdate, capture).1
        decreases |imuBuffer|
      {
        if imuBuffer[0] > capture {
          break;
        }
        if imuBuffer[0] > lastLioUpdate {
          imus := imus + [imuBuffer[0]];
        }
        imuBuffer := imuBuffer[1..];
      }
    }

    /** Distribute one cloud over this cut and the next. */
    method SplitCloud(pcl: seq<Pt>, header: real, capture: real)
      modifies this`procCur, this`procNext
      ensures procCur == old(procCur) + EarlyPoints(pcl, header, lastLioUpdate, capture)
      ensures procNext == old(procNext) + LatePoints(pcl, header, capture)
    {
      var maxOffsetMs := (capture - header) * 1000.0;
      for i := 0 to |pcl|
        invariant procCur == old(procCur) + EarlyPoints(pcl[..i], header, lastLioUpdate, capture)
        invariant procNext == old(procNext) + LatePoints(pcl[..i], header, capture)
      {
        assert pcl[..i + 1][..i] == pcl[..i];
        var pt := pcl[i];
        if pt.curvature < maxOffsetMs {
          procCur := procCur + [pt.(curvature := pt.curvature + (header - lastLioUpdate) * 1000.0)];
        } else {
          procNext := procNext + [pt.(curvature := pt.curvature + (header - capture) * 1000.0)];
        }
      }
      assert pcl[..|pcl|] == pcl;
    }

    /** Cut the buffered clouds at `capture`. */
    method TakeClouds(capture: real)
      requires |lidRaw| <= |lidTimes|
      modifies this`lidRaw, this`lidTimes, this`procCur, this`procNext
      ensures var n := Consumed(old(lidRaw), old(lidTimes), capture);
              && lidRaw == old(lidRaw)[n..] && lidTimes == old(lidTimes)[n..]
              && procCur == old(procNext) + CutEarly(old(lidRaw), old(lidTimes), n, lastLioUpdate, capture)
              && procNext == CutLate(old(lidRaw), old(lidTimes), n, capture)
    {
      hide EarlyPoints;
      hide LatePoints;
      procCur := procNext;
      procNext := [];
      ghost var k := 0;
      while lidRaw != []
        invariant k <= |old(lidRaw)| && lidRaw == old(lidRaw)[k..] && lidTimes == old(lidTimes)[k..]
        invariant k + Consumed(lidRaw, lidTimes, capture) == Consumed(old(lidRaw), old(lidTimes), capture)
        invariant procCur == old(procNext) + CutEarly(old(lidRaw), old(lidTimes), k, lastLioUpdate, capture)
        invariant procNext == CutLate(old(lidRaw), old(lidTimes), k, capture)
        decreases |lidRaw|
      {
        if lidTimes[0] > capture {
          break;
        }
        assert lidRaw[0] == old(lidRaw)[k] && lidTimes[0] == old(lidTimes)[k];
        SplitCloud(lidRaw[0], lidTimes[0], capture);
        lidRaw := lidRaw[1..];
        lidTimes := lidTimes[1..];
        k := k + 1;
      }
    }

    /** The forward-propagation loop of UndistortPcl: the time step of every segment it integrates. */
    method Propagate(imus: seq<real>, end: real) returns (dts: seq<real>)
      ensures var v := [propImu] + imus; dts == Segments(v, lastPropEnd, end, |v| - 1)
    {
      var v := [propImu] + imus;
      dts := [];
      for i := 0 to |v| - 1
        invariant dts == Segments(v, lastPropEnd, end, i)
      {
        var head, tail := v[i], v[i + 1];
        if tail < lastPropEnd {
          continue;
        }
        var dt;
        if head < lastPropEnd {
          dt := tail - lastPropEnd;
        } else if i != |v| - 2 {
          dt := tail - head;
        } else {
          dt := end - head;
        }
        dts := dts + [dt];
      }
    }

    /** IMU_init: start over on the first frame, then count the samples. */
    method CountSamples(imus: seq<real>)
      modifies this`firstFrame, this`initCount, this`lastPropEnd
      ensures !firstFrame && initCount == (if old(firstFrame) then 1 else old(initCount)) + |imus|
      ensures lastPropEnd == if old(firstFrame) then 0.0 else old(lastPropEnd)
    {
      if firstFrame {
        initCount, lastPropEnd, firstFrame := 1, 0.0, false;
      }
      for i := 0 to |imus|
        modifies this`initCount
        invariant initCount == (if old(firstFrame) then 1 else old(initCount)) + i
      {
        initCount := initCount + 1;
      }
    }

    /** IMU_init and the test that ends initialisation. */
    method ImuInit(imus: seq<real>, end: real)
      requires needInit
      modifies this`needInit, this`firstFrame, this`initCount, this`lastPropEnd, this`propImu
      ensures View() == InitStep(cfg, old(View()), imus, end)
    {
      if imus == [] {
        return;
      }
      CountSamples(imus);
      propImu := imus[|imus| - 1];
      if initCount > cfg.maxIniCount {
        needInit := false;
        lastPropEnd := end;
      }
      ghost var r := InitStep(cfg, old(View()), imus, end);
      assert needInit == r.needInit && firstFrame == r.firstFrame && initCount == r.count;
      assert lastPropEnd == r.propEnd && propImu == r.propImu;
    }

    /** Process2: initialise from the samples, or propagate over them. */
    method Process2(imus: seq<real>, end: real) returns (dts: seq<real>)
      modifies this`lastLioUpdate, this`needInit, this`firstFrame, this`initCount, this`lastPropEnd, this`propImu
      ensures View() == Process(cfg, old(View()), imus, end)
      ensures dts == Integrate(old(needInit), old(propImu), imus, old(lastPropEnd), end)
    {
      hide Segments;
      dts := [];
      if needInit {
        hide InitStep;
        ImuInit(imus, end);
      } else {
        dts := Propagate(imus, end);
        var v := [propImu] + imus;
        lastLioUpdate := end;
        propImu := v[|v| - 1];
        lastPropEnd := end;
      }
    }

    /** One round of the main loop: sync_packages, and processImu if it succeeds. */
    method Spin() returns (ok: bool)
      requires Formed(View())
      modifies this
      ensures View() == TickStep(cfg, old(View())) && Formed(View())
      ensures ok <==> |log| > |old(log)|
    {
      hide PopImus;
      hide Consumed;
      hide CutEarly;
      hide CutLate;
      hide Process;
      hide Integrate;
      hide CutStep;
      if lidRaw == [] || imgTimes == [] || imuBuffer == [] {
        return false;
      }
      var capture := imgTimes[0] + cfg.exposure;
      if phase == Lio {
        TakeImage(capture);
        return true;
      }
      if lastLioUpdate < 0.0 {
        lastLioUpdate := lidTimes[0];
      }
      var newest := lidRaw[|lidRaw| - 1];
      var lidNewest := lidTimes[|lidTimes| - 1] + newest[|newest| - 1].curvature / 1000.0;
      var imuNewest := imuBuffer[|imuBuffer| - 1];
      if capture < lastLioUpdate + 0.00001 {
        imgTimes := imgTimes[1..];
        return false;
      }
      if capture > lidNewest || capture > imuNewest {
        return false;
      }
      BaseOnce(cfg, old(View()), capture);
      CutAt(capture);
      ok := true;
    }

    /** The LIO case: hand the image on to the VIO update. */
    method TakeImage(capture: real)
      requires imgTimes != []
      modifies this
      ensures View() == Process(cfg, old(View()).(phase := Vio, imgs := old(imgTimes)[1..],
                                                  log := old(log) + [VioEntry(capture)]), [], capture)
    {
      hide Process;
      phase := Vio;
      imgTimes := imgTimes[1..];
      log := log + [VioEntry(capture)];
      var none := Process2([], capture);
    }

    method CutAt(capture: real)
      requires Formed(View()) && lidTimes != [] && lastLioUpdate == Base(View())
      modifies this
      ensures View() == CutStep(cfg, old(View()), capture)
    {
      ghost var s := View();
      var imus := TakeBuffers(capture);
      hide CutBuffers;
      hide PopImus;
      hide Process;
      hide Integrate;
      var dts := Process2(imus, capture);
    }

    /** The data-cutting part of sync_packages. */
    method TakeBuffers(capture: real) returns (imus: seq<real>)
      requires Formed(View()) && lidTimes != [] && lastLioUpdate == Base(View())
      modifies this`imuBuffer, this`lidRaw, this`lidTimes, this`procCur, this`procNext, this`phase, this`cut, this`log
      ensures View() == CutBuffers(old(View()), capture)
      ensures imus == PopImus(old(imuBuffer), old(lastLioUpdate), capture).0
    {
      hide PopImus;
      hide Consumed;
      hide CutEarly;
      hide CutLate;
      hide Integrate;
      ghost var r := CutBuffers(View(), capture);
      imus := TakeImus(capture);
      TakeClouds(capture);
      assert lidRaw == r.raw && lidTimes == r.times && imuBuffer == r.imus && procNext == r.next;
      HandOn(imus, capture);
      assert log == r.log;
    }

    /** Announce the cut to the LIO update. */
    method HandOn(imus: seq<real>, capture: real)
      modifies this`phase, this`cut, this`log
      ensures phase == Lio && cut == capture
      ensures log == old(log) + [LioEntry(capture, lastLioUpdate, procCur, imus, lastPropEnd,
                                          Integrate(needInit, propImu, imus, lastPropEnd, capture), needInit)]
    {
      phase := Lio;
      cut := capture;
      log := log + [LioEntry(capture, lastLioUpdate, procCur, imus, lastPropEnd,
                             Integrate(needInit, propImu, imus, lastPropEnd, capture), needInit)];
    }
  }
}
