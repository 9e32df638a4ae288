/**
 What arrives at the other end of the R2 link: delivery through noise, recovery from an arbitrary parser
 state, and rejection of damaged or over-long frames.
 */
module R2Link {
  import opened Common
  import opened R2Frames
  import opened R2Parsers

  /** No sync pair occurs inside `s`. */
  ghost predicate NoPair(s: seq<byte>) {
    forall i :: 0 <= i < |s| - 1 ==> s[i] == SYNC1 ==> s[i + 1] != SYNC2
  }

  predicate Hunting(s: RxState) {
    s == IDLE || s == HALF_SYNC
  }

  predicate Fits(f: Frame) {
    |f.payload| <= 64
  }

  lemma EncodeShape(f: Frame)
    requires |f.payload| < 0x1_0000
    ensures |Encode(f)| == HEADER_SIZE + |f.payload| + 1
    ensures Encode(f)[..2] == [SYNC1, SYNC2]
    ensures LenOf(Encode(f)[3], Encode(f)[4]) == |f.payload|
    ensures Checked(Encode(f)) == [f]
  {
    LengthRoundTrip(|f.payload|);
    var e := Encode(f);
    assert e[HEADER_SIZE..|e| - 1] == f.payload;
  }

  /** From either hunting state a valid frame is dispatched whole, and the automaton is idle again. */
  lemma FeedEncoded(s: RxState, f: Frame)
    requires Hunting(s) && Fits(f)
    ensures Feed(s, Encode(f)).0 == IDLE && Feed(s, Encode(f)).1 == [f]
  {
    EncodeShape(f);
    FeedFrame(Encode(f));
    FeedQuiet(IDLE, Encode(f));
    FeedQuiet(HALF_SYNC, Encode(f));
  }

  /** Pair-free noise moves the automaton between its hunting states only. */
  lemma {:induction false} FeedNoise(s: RxState, noise: seq<byte>)
    requires Hunting(s) && NoPair(noise) && (s == HALF_SYNC && noise != [] ==> noise[0] != SYNC2)
    ensures Hunting(Feed(s, noise).0) && Feed(s, noise).1 == []
    decreases |noise|
  {
    if noise != [] {
      FeedQuiet(s, noise);
      if noise[0] == SYNC1 && |noise| > 1 {
        assert noise[1] != SYNC2;
      }
      assert forall i :: 0 <= i < |noise[1..]| ==> noise[1..][i] == noise[i + 1];
      FeedNoise(Step(s, noise[0]).0, noise[1..]);
    }
  }

  // ----- delivery through noise

  datatype Item = Item(noise: seq<byte>, frame: Frame)

  function Stream(items: seq<Item>): seq<byte> {
    if items == [] then [] else items[0].noise + Encode(items[0].frame) + Stream(items[1..])
  }

  function Frames(items: seq<Item>): seq<Frame> {
    if items == [] then [] else [items[0].frame] + Frames(items[1..])
  }

  ghost predicate QuietItems(items: seq<Item>, limit: nat) {
    forall i :: 0 <= i < |items| ==> NoPair(items[i].noise) && |items[i].frame.payload| <= limit
  }

  /** The firmware dispatches each frame once and in order, whatever pair-free noise surrounds them. */
  lemma {:induction false} FirmwareDelivers(items: seq<Item>, tail: seq<byte>)
    requires QuietItems(items, MAX_PAYLOAD) && NoPair(tail)
    ensures Feed(IDLE, Stream(items) + tail).1 == Frames(items)
    ensures Hunting(Feed(IDLE, Stream(items) + tail).0)
    decreases |items|
  {
    hide Encode;
    if items == [] {
      assert Stream(items) + tail == tail;
      FeedNoise(IDLE, tail);
    } else {
      var noise, e, rest := items[0].noise, Encode(items[0].frame), Stream(items[1..]) + tail;
      assert Stream(items) + tail == noise + (e + rest);
      FeedNoise(IDLE, noise);
      FeedAppend(IDLE, noise, e + rest);
      FeedEncoded(Feed(IDLE, noise).0, items[0].frame);
      FeedAppend(Feed(IDLE, noise).0, e, rest);
      FirmwareDelivers(items[1..], tail);
    }
  }

  lemma {:induction false} ParseNoise(noise: seq<byte>, rest: seq<byte>)
    requires NoPair(noise) && |rest| >= HEADER_SIZE && rest[0] == SYNC1
    ensures Parse(noise + rest) == Parse(rest)
    decreases |noise|
  {
    if noise == [] {
      assert noise + rest == rest;
    } else {
      var s := noise + rest;
      assert s[0] != SYNC1 || s[1] != SYNC2 by {
        if |noise| > 1 {
          assert s[0] == noise[0] && s[1] == noise[1];
        }
      }
      assert s[1..] == noise[1..] + rest;
      assert forall i :: 0 <= i < |noise[1..]| ==> noise[1..][i] == noise[i + 1];
      ParseNoise(noise[1..], rest);
    }
  }

  lemma {:induction false} ParseTail(tail: seq<byte>)
    requires NoPair(tail)
    ensures Parse(tail).0 == []
    decreases |tail|
  {
    if |tail| >= HEADER_SIZE {
      assert tail[0] == SYNC1 ==> tail[1] != SYNC2;
      assert forall i :: 0 <= i < |tail[1..]| ==> tail[1..][i] == tail[i + 1];
      ParseTail(tail[1..]);
    }
  }

  lemma ParseEncoded(f: Frame, rest: seq<byte>)
    requires |f.payload| < 0x1_0000
    ensures Parse(Encode(f) + rest).0 == [f] + Parse(rest).0
    ensures Parse(Encode(f) + rest).1 == Parse(rest).1
  {
    EncodeShape(f);
    var e, s := Encode(f), Encode(f) + rest;
    assert s[0] == e[..2][0] && s[1] == e[..2][1] && s[3] == e[3] && s[4] == e[4];
    assert s[..|e|] == e && s[|e|..] == rest;
  }

  /** The bridge handles each frame once and in order, up to the largest length the header can announce. */
  lemma {:induction false} BridgeDelivers(items: seq<Item>, tail: seq<byte>)
    requires QuietItems(items, 0xFFFF) && NoPair(tail)
    ensures Parse(Stream(items) + tail).0 == Frames(items)
    decreases |items|
  {
    hide Encode;
    hide Parse;
    if items == [] {
      assert Stream(items) + tail == tail;
      ParseTail(tail);
    } else {
      var noise, e, rest := items[0].noise, Encode(items[0].frame), Stream(items[1..]) + tail;
      assert Stream(items) + tail == noise + (e + rest);
      EncodeShape(items[0].frame);
      ParseNoise(noise, e + rest);
      ParseEncoded(items[0].frame, rest);
      BridgeDelivers(items[1..], tail);
    }
  }

  // ----- frames the firmware must not dispatch

  lemma {:induction false} DispatchedFit(s: RxState, bytes: seq<byte>, f: Frame)
    requires Reachable(s) && f in Feed(s, bytes).1
    ensures Fits(f)
    decreases |bytes|
  {
    FeedCons(s, bytes);
    if f !in Step(s, bytes[0]).1 {
      DispatchedFit(Step(s, bytes[0]).0, bytes[1..], f);
    }
  }

  /** The firmware delivers a printed frame exactly when its payload is within RC_FRAME_MAX_PAYLOAD. */
  lemma DeliveredIffFits(f: Frame)
    requires |f.payload| < 0x1_0000
    ensures f in Feed(IDLE, Encode(f)).1 <==> Fits(f)
  {
    if Fits(f) {
      FeedEncoded(IDLE, f);
    } else if f in Feed(IDLE, Encode(f)).1 {
      DispatchedFit(IDLE, Encode(f), f);
    }
  }

  /** One altered byte in CMD, PAYLOAD or CHKSUM: nothing is dispatched and the automaton is idle again. */
  lemma SingleErrorRejected(f: Frame, i: nat, x: byte)
    requires Fits(f) && (i == 2 || HEADER_SIZE <= i < |Encode(f)|) && Encode(f)[i] != x
    ensures Feed(IDLE, Encode(f)[i := x]).0 == IDLE && Feed(IDLE, Encode(f)[i := x]).1 == []
  {
    EncodeShape(f);
    var e := Encode(f);
    var d := e[i := x];
    assert d[..2] == e[..2];
    FeedFrame(d);
    var n := HEADER_SIZE + |f.payload|;
    var seed := Xor(Xor(f.cmd, Lo(|f.payload|)), Hi(|f.payload|));
    if i == 2 {
      assert d[HEADER_SIZE..n] == f.payload;
      ChecksumDetectsCommand(f.cmd, x, f.payload);
    } else if i < n {
      assert d[HEADER_SIZE..n] == f.payload[i - HEADER_SIZE := x];
      XorFoldDetects(seed, f.payload, i - HEADER_SIZE, x);
    } else {
      assert d[HEADER_SIZE..n] == f.payload;
    }
  }

  // ----- recovery from an arbitrary state

  /** The bytes after the sync pair contain no sync pair. */
  ghost predicate CleanBody(f: Frame) {
    NoPair(Encode(f)[2..])
  }

  function FrameStream(fs: seq<Frame>): seq<byte> {
    if fs == [] then [] else Encode(fs[0]) + FrameStream(fs[1..])
  }

  /** Where frame `i` starts in the stream. */
  function Offset(fs: seq<Frame>, i: nat): nat
    requires i <= |fs|
  {
    if i == 0 then 0 else |Encode(fs[0])| + Offset(fs[1..], i - 1)
  }

  lemma {:induction false} FeedFrames(s: RxState, fs: seq<Frame>)
    requires Hunting(s) && forall f :: f in fs ==> Fits(f)
    ensures Feed(s, FrameStream(fs)).1 == fs
    decreases |fs|
  {
    if fs != [] {
      FeedEncoded(s, fs[0]);
      FeedAppend(s, Encode(fs[0]), FrameStream(fs[1..]));
      FeedFrames(IDLE, fs[1..]);
    }
  }

  lemma StepCollects(held: seq<byte>, b: byte)
    requires Waiting(held)
    ensures |held| < MAX_FRAME
    ensures || (Step(RxState(2, held), b).0 == IDLE && |Step(RxState(2, held), b).1| <= 1)
            || (Waiting(held + [b]) && Step(RxState(2, held), b) == (RxState(2, held + [b]), []))
  {
    StepReachable(RxState(2, held), b);
  }

  /**
   Feeding a collecting automaton either keeps it collecting or makes it idle within its buffer, with at most
   one frame (a misread one) dispatched.
   */
  lemma {:induction false} CollectOrIdle(held: seq<byte>, s: seq<byte>) returns (q: nat)
    requires Waiting(held)
    ensures q <= |s| && |held| + q <= MAX_FRAME && |Feed(RxState(2, held), s[..q]).1| <= 1
    ensures || (1 <= q && Feed(RxState(2, held), s[..q]).0 == IDLE)
            || (&& q == |s| && Waiting(held + s)
                && Feed(RxState(2, held), s[..q]).0 == RxState(2, held + s)
                && Feed(RxState(2, held), s[..q]).1 == [])
    decreases |s|
  {
    hide Checked;
    if s == [] {
      q := 0;
      assert held + s == held;
    } else {
      var st := RxState(2, held);
      StepCollects(held, s[0]);
      if Step(st, s[0]).0 == IDLE {
        q := 1;
        FeedCons(st, s[..1]);
        assert s[..1][1..] == [] && Feed(IDLE, []) == (IDLE, []);
      } else {
        var q' := CollectOrIdle(held + [s[0]], s[1..]);
        q := q' + 1;
        assert s[..q][1..] == s[1..][..q'];
        FeedQuiet(st, s[..q]);
        assert held + [s[0]] + s[1..] == held + s;
      }
    }
  }

  /** What is left of a frame after at least one of its bytes holds no sync pair. */
  lemma CleanRest(f: Frame, q: nat)
    requires CleanBody(f) && 1 <= q <= |Encode(f)|
    ensures NoPair(Encode(f)[q..])
  {
    var e := Encode(f);
    forall i | 0 <= i < |e[q..]| - 1 && e[q..][i] == SYNC1
      ensures e[q..][i + 1] != SYNC2
    {
      if q + i >= 2 {
        assert e[2..][q + i - 2] == e[q..][i] && e[2..][q + i - 1] == e[q..][i + 1];
      }
    }
  }

  /** Once idle in the middle of a clean frame, the automaton hunts through the rest of it. */
  lemma IdleWithin(s: RxState, f: Frame, q: nat)
    requires Reachable(s) && CleanBody(f) && 1 <= q <= |Encode(f)| && Feed(s, Encode(f)[..q]).0 == IDLE
    ensures Hunting(Feed(s, Encode(f)).0) && Feed(s, Encode(f)).1 == Feed(s, Encode(f)[..q]).1
  {
    hide Encode;
    hide Checked;
    hide Feed;
    hide NoPair;
    var e := Encode(f);
    assert e == e[..q] + e[q..];
    CleanRest(f, q);
    FeedNoise(IDLE, e[q..]);
    FeedAppend(s, e[..q], e[q..]);
  }

  lemma FeedNothing(s: RxState)
    requires Reachable(s)
    ensures Feed(s, []) == (s, [])
  {
  }

  /**
   Self-stabilisation. Whatever reachable state the automaton is in, at most one misread frame is dispatched,
   and every frame that starts RC_FRAME_MAX_SIZE or more bytes into the stream is dispatched, in order.
   */
  lemma {:induction false} SelfStabilises(s: RxState, fs: seq<Frame>) returns (junk: seq<Frame>, j: nat)
    requires Reachable(s)
    requires forall f :: f in fs ==> Fits(f) && CleanBody(f)
    ensures |junk| <= 1 && j <= |fs| && Feed(s, FrameStream(fs)).1 == junk + fs[j..]
    ensures j > 0 ==> Offset(fs, j - 1) + (if s.sync == 2 then |s.held| else MAX_FRAME) < MAX_FRAME
    decreases |fs|
  {
    hide Encode;
    hide Checked;
    hide CleanBody;
    hide Feed;
    hide LenOf;
    if Hunting(s) {
      junk, j := [], 0;
      FeedFrames(s, fs);
    } else if fs == [] {
      junk, j := [], 0;
      FeedNothing(s);
    } else {
      var e, rest := Encode(fs[0]), FrameStream(fs[1..]);
      assert Fits(fs[0]);
      EncodeShape(fs[0]);
      var q := CollectOrIdle(s.held, e);
      FeedAppend(s, e, rest);
      if Feed(s, e[..q]).0 == IDLE && 1 <= q {
        junk, j := Feed(s, e[..q]).1, 1;
        IdleWithin(s, fs[0], q);
        FeedFrames(Feed(s, e).0, fs[1..]);
      } else {
        assert e[..q] == e;
        var j';
        junk, j' := SelfStabilises(RxState(2, s.held + e), fs[1..]);
        j := j' + 1;
        assert fs[1..][j'..] == fs[j..];
      }
    }
  }

  lemma {:induction false} OffsetMonotone(fs: seq<Frame>, i: nat, k: nat)
    requires i <= k <= |fs|
    ensures Offset(fs, i) <= Offset(fs, k)
    decreases i
  {
    if i != 0 {
      OffsetMonotone(fs[1..], i - 1, k - 1);
    }
  }

  lemma LateFramesArrive(s: RxState, fs: seq<Frame>, i: nat)
    requires Reachable(s)
    requires forall f :: f in fs ==> Fits(f) && CleanBody(f)
    requires i < |fs| && Offset(fs, i) >= MAX_FRAME
    ensures |Feed(s, FrameStream(fs)).1| >= |fs| - i
    ensures var out := Feed(s, FrameStream(fs)).1; out[|out| - (|fs| - i)..] == fs[i..]
  {
    hide Encode;
    hide Feed;
    var junk, j := SelfStabilises(s, fs);
    if j > i {
      OffsetMonotone(fs, i, j - 1);
    }
  }
}
