/**
 The two receivers of the R2 link.

 `Step`/`Feed` specify the firmware's byte-at-a-time automaton, `Parse` the bridge's buffered parser; the mutable
 programs of R2Receivers are proved against them. The lemmas relate the two parsers to each other.
 */
module R2Parsers {
  import opened Common
  import opened R2Frames

  // ----- the firmware automaton (remote_control.c, rc_feed_byte)

  /** `sync` is rx_sync; `held` is what is live in rx_buf, namely rx_buf[..rx_idx] unless rx_sync is 0. */
  datatype RxState = RxState(sync: nat, held: seq<byte>)

  const IDLE := RxState(0, [])
  const HALF_SYNC := RxState(1, [SYNC1])
  const SYNCED := RxState(2, [SYNC1, SYNC2])

  /** `held` is a frame prefix that the automaton is still waiting to see completed. */
  predicate Waiting(held: seq<byte>) {
    && 2 <= |held|
    && held[..2] == [SYNC1, SYNC2]
    && (HEADER_SIZE <= |held| ==>
          LenOf(held[3], held[4]) <= MAX_PAYLOAD && |held| < HEADER_SIZE + LenOf(held[3], held[4]) + 1)
  }

  predicate Reachable(s: RxState) {
    s == IDLE || s == HALF_SYNC || (s.sync == 2 && Waiting(s.held))
  }

  /** The frame in a complete buffer, if its checksum is right. */
  function Checked(held: seq<byte>): (frames: seq<Frame>)
    requires HEADER_SIZE < |held|
  {
    var payload := held[HEADER_SIZE..|held| - 1];
    if Checksum(held[2], payload) == held[|held| - 1] then [Frame(held[2], payload)] else []
  }

  /** A buffer as long as its header says is taken exactly when all bytes after the sync pair XOR to zero. */
  lemma CheckedExactly(held: seq<byte>)
    requires HEADER_SIZE < |held| == HEADER_SIZE + LenOf(held[3], held[4]) + 1
    ensures Checked(held) == if XorFold(0, held[2..]) == 0 then [Frame(held[2], held[5..|held| - 1])] else []
  {
    hide XorFold;
    var payload := held[HEADER_SIZE..|held| - 1];
    HeaderBytes(held[3], held[4]);
    SumZeroExactly(held[2], payload, held[|held| - 1]);
    hide Checksum;
    hide LenOf;
    hide Lo;
    hide Hi;
    assert held[2..] == [held[2], held[3], held[4]] + payload + [held[|held| - 1]];
  }

  lemma HeaderBytes(lo: byte, hi: byte)
    ensures Lo(LenOf(lo, hi)) == lo && Hi(LenOf(lo, hi)) == hi
  {
  }

  function Step(s: RxState, b: byte): (RxState, seq<Frame>)
    requires Reachable(s)
  {
    if s.sync == 0 then
      (if b == SYNC1 then HALF_SYNC else IDLE, [])
    else if s.sync == 1 then
      (if b == SYNC2 then SYNCED else if b == SYNC1 then HALF_SYNC else IDLE, [])
    else
      var held := s.held + [b];
      if |held| < HEADER_SIZE then (RxState(2, held), [])
      else
        var len := LenOf(held[3], held[4]);
        if len > MAX_PAYLOAD then (IDLE, [])
        else if |held| >= HEADER_SIZE + len + 1 then (IDLE, Checked(held))
        else (RxState(2, held), [])
  }

  lemma StepReachable(s: RxState, b: byte)
    requires Reachable(s)
    ensures Reachable(Step(s, b).0)
  {
    if s.sync == 2 {
      assert (s.held + [b])[..2] == s.held[..2];
    }
  }

  function Feed(s: RxState, bytes: seq<byte>): (r: (RxState, seq<Frame>))
    requires Reachable(s)
    ensures Reachable(r.0)
    decreases |bytes|
  {
    if bytes == [] then (s, [])
    else
      StepReachable(s, bytes[0]);
      var now := Step(s, bytes[0]);
      var rest := Feed(now.0, bytes[1..]);
      (rest.0, now.1 + rest.1)
  }

  lemma FeedCons(s: RxState, bytes: seq<byte>)
    requires Reachable(s) && bytes != []
    ensures Reachable(Step(s, bytes[0]).0)
    ensures Feed(s, bytes).0 == Feed(Step(s, bytes[0]).0, bytes[1..]).0
    ensures Feed(s, bytes).1 == Step(s, bytes[0]).1 + Feed(Step(s, bytes[0]).0, bytes[1..]).1
  {
    StepReachable(s, bytes[0]);
  }

  /** A step that dispatches nothing can be taken without trace. */
  lemma FeedQuiet(s: RxState, bytes: seq<byte>)
    requires Reachable(s) && bytes != [] && Step(s, bytes[0]).1 == []
    ensures Reachable(Step(s, bytes[0]).0)
    ensures Feed(s, bytes) == Feed(Step(s, bytes[0]).0, bytes[1..])
  {
    StepReachable(s, bytes[0]);
    var later := Feed(Step(s, bytes[0]).0, bytes[1..]).1;
    assert [] + later == later;
  }

  lemma {:induction false} FeedAppend(s: RxState, a: seq<byte>, b: seq<byte>)
    requires Reachable(s)
    ensures Feed(s, a + b).0 == Feed(Feed(s, a).0, b).0
    ensures Feed(s, a + b).1 == Feed(s, a).1 + Feed(Feed(s, a).0, b).1
    decreases |a|
  {
    hide Checked;
    if a == [] {
      assert a + b == b;
    } else {
      StepReachable(s, a[0]);
      assert (a + b)[0] == a[0] && (a + b)[1..] == a[1..] + b;
      FeedAppend(Step(s, a[0]).0, a[1..], b);
      FeedCons(s, a);
      FeedCons(s, a + b);
    }
  }

  /** While a frame is incomplete the automaton only collects. */
  lemma {:induction false} FeedCollects(held: seq<byte>, more: seq<byte>)
    requires Waiting(held) && Waiting(held + more)
    ensures Feed(RxState(2, held), more).0 == RxState(2, held + more)
    ensures Feed(RxState(2, held), more).1 == []
    decreases |more|
  {
    hide Checked;
    if more == [] {
      assert held + more == held;
    } else {
      var held' := held + [more[0]];
      assert held' + more[1..] == held + more;
      assert held'[..2] == held[..2];
      assert HEADER_SIZE <= |held'| ==> held'[3] == (held + more)[3] && held'[4] == (held + more)[4];
      FeedCollects(held', more[1..]);
      FeedCons(RxState(2, held), more);
    }
  }

  /** The last byte of a frame of acceptable length ends it, whatever the checksum says. */
  lemma FeedCompletes(held: seq<byte>, more: seq<byte>)
    requires Waiting(held) && |more| > 0
    requires Waiting((held + more)[..|held + more| - 1])
    requires HEADER_SIZE < |held + more|
    requires |held + more| == HEADER_SIZE + LenOf((held + more)[3], (held + more)[4]) + 1
    ensures Feed(RxState(2, held), more).0 == IDLE
    ensures Feed(RxState(2, held), more).1 == Checked(held + more)
  {
    hide Checked;
    var init, last := more[..|more| - 1], more[|more| - 1];
    assert more == init + [last];
    assert (held + more)[..|held + more| - 1] == held + init;
    FeedCollects(held, init);
    FeedAppend(RxState(2, held), init, [last]);
    assert (held + init) + [last] == held + more;
    FeedCons(RxState(2, held + init), [last]);
  }

  /** A header that announces too much sends the automaton back to hunting. */
  lemma FeedTooLong(lead: seq<byte>)
    requires |lead| == HEADER_SIZE && lead[..2] == [SYNC1, SYNC2] && LenOf(lead[3], lead[4]) > MAX_PAYLOAD
    ensures Feed(IDLE, lead).0 == IDLE && Feed(IDLE, lead).1 == []
  {
    var x := lead[2..4];
    assert [SYNC1, SYNC2] + x == lead[..4];
    FeedSync(lead[..4]);
    FeedCollects([SYNC1, SYNC2], x);
    assert lead == lead[..4] + [lead[4]];
    FeedAppend(IDLE, lead[..4], [lead[4]]);
    assert lead[..4][2..] == x;
    FeedCons(RxState(2, lead[..4]), [lead[4]]);
  }

  lemma FeedSync(lead: seq<byte>)
    requires |lead| >= 2 && lead[..2] == [SYNC1, SYNC2]
    ensures Feed(IDLE, lead) == Feed(SYNCED, lead[2..])
  {
    assert lead[0] == lead[..2][0] && lead[1] == lead[..2][1];
    var tail := lead[1..];
    assert tail[1..] == lead[2..];
    FeedQuiet(IDLE, lead);
    FeedQuiet(HALF_SYNC, tail);
  }

  // ----- the bridge parser (serial_bridge.py, _parse_rx)

  /** Frames handled, and the bytes left in rx_buffer. */
  function Parse(buffer: seq<byte>): (r: (seq<Frame>, seq<byte>))
    decreases |buffer|
  {
    if |buffer| < HEADER_SIZE then ([], buffer)
    else if buffer[0] != SYNC1 || buffer[1] != SYNC2 then Parse(buffer[1..])
    else
      var size := HEADER_SIZE + LenOf(buffer[3], buffer[4]) + 1;
      if |buffer| < size then ([], buffer)
      else
        var rest := Parse(buffer[size..]);
        (Checked(buffer[..size]) + rest.0, rest.1)
  }

  /** No header that the parser recognises in `buffer` announces more than the firmware accepts. */
  predicate NoLongHeader(buffer: seq<byte>)
    decreases |buffer|
  {
    |buffer| < HEADER_SIZE ||
    if buffer[0] != SYNC1 || buffer[1] != SYNC2 then NoLongHeader(buffer[1..])
    else
      var len := LenOf(buffer[3], buffer[4]);
      len <= 64 &&
      (|buffer| < HEADER_SIZE + len + 1 || NoLongHeader(buffer[HEADER_SIZE + len + 1..]))
  }

  lemma ParseOne(s: seq<byte>, size: nat)
    requires HEADER_SIZE < size <= |s| && s[0] == SYNC1 && s[1] == SYNC2
    requires size == HEADER_SIZE + LenOf(s[3], s[4]) + 1
    ensures Parse(s).0 == Checked(s[..size]) + Parse(s[size..]).0
    ensures Parse(s).1 == Parse(s[size..]).1
  {
    hide Checked;
  }

  /** Splitting a stream into read chunks does not change what the bridge handles. */
  lemma {:induction false} ParseAppend(a: seq<byte>, b: seq<byte>)
    ensures Parse(a + b).0 == Parse(a).0 + Parse(Parse(a).1 + b).0
    ensures Parse(a + b).1 == Parse(Parse(a).1 + b).1
    decreases |a|
  {
    hide Checked;
    if |a| < HEADER_SIZE {
    } else if a[0] != SYNC1 || a[1] != SYNC2 {
      assert (a + b)[1..] == a[1..] + b;
      ParseAppend(a[1..], b);
    } else {
      var size := HEADER_SIZE + LenOf(a[3], a[4]) + 1;
      if |a| >= size {
        assert (a + b)[..size] == a[..size];
        assert (a + b)[size..] == a[size..] + b;
        ParseAppend(a[size..], b);
        ParseOne(a + b, size);
        ParseOne(a, size);
      }
    }
  }

  // ----- the firmware refines the bridge

  /** A short or unfinished rest makes the firmware dispatch nothing. */
  lemma FeedShort(s: seq<byte>)
    requires |s| < HEADER_SIZE
    ensures Feed(IDLE, s).1 == []
  {
    FeedFew(IDLE, s);
  }

  lemma {:induction false} FeedFew(st: RxState, s: seq<byte>)
    requires Reachable(st) && (if st.sync == 0 then 0 else |st.held|) + |s| <= HEADER_SIZE
    ensures Feed(st, s).1 == []
    decreases |s|
  {
    if s != [] {
      StepReachable(st, s[0]);
      FeedFew(Step(st, s[0]).0, s[1..]);
    }
  }

  /** A byte that does not start a sync pair is dropped without trace. */
  lemma FeedSkips(s: seq<byte>)
    requires |s| >= 2 && (s[0] != SYNC1 || s[1] != SYNC2)
    ensures Feed(IDLE, s) == Feed(IDLE, s[1..])
  {
    FeedQuiet(IDLE, s);
    if s[0] == SYNC1 {
      FeedQuiet(HALF_SYNC, s[1..]);
      FeedQuiet(IDLE, s[1..]);
    }
  }

  lemma FeedFrame(s: seq<byte>)
    requires |s| > HEADER_SIZE && s[..2] == [SYNC1, SYNC2] && LenOf(s[3], s[4]) <= MAX_PAYLOAD
    requires |s| == HEADER_SIZE + LenOf(s[3], s[4]) + 1
    ensures Feed(IDLE, s).0 == IDLE && Feed(IDLE, s).1 == Checked(s)
  {
    hide Feed;
    hide Checked;
    FeedSync(s);
    var more := s[2..];
    assert [SYNC1, SYNC2] + more == s;
    assert s[..|s| - 1][..2] == s[..2];
    FeedCompletes([SYNC1, SYNC2], more);
  }

  /**
   Main result: on a stream without over-long headers the firmware dispatches exactly the frames the bridge
   handles, and it is left in the state that the bridge's remaining bytes would put it in.
   */
  lemma {:induction false} FirmwareRefinesBridge(s: seq<byte>)
    requires NoLongHeader(s)
    ensures Feed(IDLE, s).1 == Parse(s).0
    ensures Feed(IDLE, s).0 == Feed(IDLE, Parse(s).1).0
    decreases |s|
  {
    hide Checked;
    if |s| < HEADER_SIZE {
      FeedShort(s);
    } else if s[0] != SYNC1 || s[1] != SYNC2 {
      FirmwareRefinesBridge(s[1..]);
      FeedSkips(s);
    } else {
      assert s[..2] == [SYNC1, SYNC2];
      var size := HEADER_SIZE + LenOf(s[3], s[4]) + 1;
      if |s| < size {
        FeedSync(s);
        assert [SYNC1, SYNC2] + s[2..] == s;
        FeedCollects([SYNC1, SYNC2], s[2..]);
      } else {
        var frame, rest := s[..size], s[size..];
        assert s == frame + rest;
        assert frame[..2] == s[..2];
        FeedFrame(frame);
        FeedAppend(IDLE, frame, rest);
        FirmwareRefinesBridge(rest);
      }
    }
  }

  /** A short valid frame: header announcing no payload, and its checksum. */
  const PROBE: Frame := Frame(0, [])

  /** The firmware is one PROBE ahead of the bridge on `t`. */
  predicate Ahead(t: seq<byte>) {
    Feed(IDLE, t).1 == Parse(t).0 + [PROBE]
  }

  /**
   The condition is needed: every stream with an over-long header has a prefix after which one further valid
   frame is dispatched by the firmware and not handled by the bridge, which still waits for the long payload.
   */
  lemma {:induction false} LongHeaderSplits(s: seq<byte>) returns (k: nat)
    requires !NoLongHeader(s)
    ensures k <= |s| && Ahead(s[..k] + Encode(PROBE))
    decreases |s|
  {
    hide Ahead;
    hide Feed;
    hide Parse;
    hide Encode;
    var probe := Encode(PROBE);
    ProbeFrame();
    if s[0] != SYNC1 || s[1] != SYNC2 {
      var k' := LongHeaderSplits(s[1..]);
      k := k' + 1;
      assert (s[..k] + probe)[1..] == s[1..][..k'] + probe;
      assert s[1..][..0] + probe == probe;
      AheadSkip(s[..k] + probe);
    } else {
      var size := HEADER_SIZE + LenOf(s[3], s[4]) + 1;
      if size > MAX_FRAME {
        k := HEADER_SIZE;
        AheadHere(s[..k], probe);
      } else {
        var k' := LongHeaderSplits(s[size..]);
        k := size + k';
        var t' := s[size..][..k'] + probe;
        assert s[..k] == s[..size] + s[size..][..k'];
        assert s[..size] + s[size..][..k'] + probe == s[..size] + t';
        AheadFrame(s[..size], t');
      }
    }
  }

  lemma AheadSkip(t: seq<byte>)
    requires |t| > HEADER_SIZE && (t[0] != SYNC1 || t[1] != SYNC2) && Ahead(t[1..])
    ensures Ahead(t)
  {
    FeedSkips(t);
  }

  lemma AheadHere(lead: seq<byte>, probe: seq<byte>)
    requires |lead| == HEADER_SIZE && lead[0] == SYNC1 && lead[1] == SYNC2 && LenOf(lead[3], lead[4]) > MAX_PAYLOAD
    requires probe == Encode(PROBE)
    ensures Ahead(lead + probe)
  {
    hide Checked;
    assert lead[..2] == [SYNC1, SYNC2];
    ProbeFrame();
    FeedTooLong(lead);
    FeedAppend(IDLE, lead, probe);
    assert Parse(lead + probe) == ([], lead + probe);
  }

  lemma AheadFrame(frame: seq<byte>, t: seq<byte>)
    requires |frame| > HEADER_SIZE && frame[0] == SYNC1 && frame[1] == SYNC2
    requires LenOf(frame[3], frame[4]) <= MAX_PAYLOAD && |frame| == HEADER_SIZE + LenOf(frame[3], frame[4]) + 1
    requires Ahead(t)
    ensures Ahead(frame + t)
  {
    hide Checked;
    assert frame[..2] == [SYNC1, SYNC2];
    FeedFrame(frame);
    FeedAppend(IDLE, frame, t);
    assert (frame + t)[..|frame|] == frame && (frame + t)[|frame|..] == t;
  }

  lemma ProbeFrame()
    ensures Encode(PROBE) == [SYNC1, SYNC2, 0, 0, 0, 0]
    ensures Feed(IDLE, Encode(PROBE)).1 == [PROBE]
    ensures Parse(Encode(PROBE)).0 == [PROBE]
    ensures !Ahead(Encode(PROBE))
  {
    assert Xor(0, 0) == 0;
    var e := Encode(PROBE);
    assert e == [SYNC1, SYNC2, 0, 0, 0, 0];
    assert e[..2] == [SYNC1, SYNC2];
    FeedFrame(e);
    assert e[..6] == e;
    assert Checked(e) == [PROBE];
    assert Parse(e[6..]) == ([], []);
  }
}
