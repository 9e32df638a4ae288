/** The two receivers as the mutable programs they are, proved against `Feed` and `Parse`. */
module R2Receivers {
  import opened Common
  import opened R2Frames
  import opened R2Parsers

  /** The firmware's receive state: rx_buf, rx_idx and rx_sync. Dispatched frames are logged in `dispatched`. */
  class Firmware {
    var rxBuf: array<byte>
    var rxIdx: nat
    var rxSync: nat
    var dispatched: seq<Frame>
    ghost var received: seq<byte>  // every byte fed since initialisation

    ghost function State(): RxState
      requires rxIdx <= rxBuf.Length
      reads this, rxBuf
    {
      if rxSync == 0 then IDLE else RxState(rxSync, rxBuf[..rxIdx])
    }

    ghost predicate Shape()
      reads this, rxBuf
    {
      rxBuf.Length == MAX_FRAME && rxIdx <= rxBuf.Length && Reachable(State())
    }

    ghost predicate Valid()
      reads this, rxBuf
    {
      Shape() && State() == Feed(IDLE, received).0 && dispatched == Feed(IDLE, received).1
    }

    constructor ()
      ensures Valid() && fresh(rxBuf) && received == [] && dispatched == []
    {
      rxBuf := new byte[MAX_FRAME];
      rxIdx, rxSync := 0, 0;
      dispatched, received := [], [];
    }

    /** One byte from the UART, with the history it extends. */
    method Receive(b: byte)
      requires Valid()
      modifies this, rxBuf
      ensures Valid() && rxBuf == old(rxBuf)
      ensures received == old(received) + [b]
    {
      FeedAppend(IDLE, received, [b]);
      FeedCons(State(), [b]);
      FeedByte(b);
      received := received + [b];
    }

    /** rc_feed_byte. No index into rx_buf is out of range, on any byte stream. */
    method FeedByte(b: byte)
      requires Shape()
      modifies this`rxIdx, this`rxSync, this`dispatched, rxBuf
      ensures Shape()
      ensures State() == Step(old(State()), b).0
      ensures dispatched == old(dispatched) + Step(old(State()), b).1
    {
      StepReachable(State(), b);
      if rxSync == 0 {
        if b == SYNC1 {
          rxBuf[0], rxIdx, rxSync := b, 1, 1;
        }
      } else if rxSync == 1 {
        if b == SYNC2 {
          rxBuf[1], rxIdx, rxSync := b, 2, 2;
        } else {
          rxSync := 0;
          if b == SYNC1 {
            rxBuf[0], rxIdx, rxSync := b, 1, 1;
          }
        }
      } else {
        Collect(b);
      }
    }

    /** The third case of rc_feed_byte: inside a frame. */
    method Collect(b: byte)
      requires Shape() && rxSync == 2
      modifies this`rxIdx, this`rxSync, this`dispatched, rxBuf
      ensures rxIdx <= rxBuf.Length
      ensures State() == Step(old(State()), b).0
      ensures dispatched == old(dispatched) + Step(old(State()), b).1
    {
      ghost var held := State().held + [b];
      rxBuf[rxIdx], rxIdx := b, rxIdx + 1;
      assert rxBuf[..rxIdx] == held;
      if rxIdx >= HEADER_SIZE {
        assert held[2] == rxBuf[2] && held[3] == rxBuf[3] && held[4] == rxBuf[4];
        var cmd := rxBuf[2];
        var len := LenOf(rxBuf[3], rxBuf[4]);
        if len > MAX_PAYLOAD {
          rxSync := 0;
        } else {
          var frameSize := HEADER_SIZE + len + 1;
          if rxIdx >= frameSize {
            var payload := rxBuf[HEADER_SIZE..HEADER_SIZE + len];
            assert payload == held[HEADER_SIZE..|held| - 1];
            var chk := CalcChk(cmd, payload);
            if chk == rxBuf[frameSize - 1] {
              dispatched := dispatched + [Frame(cmd, payload)];
            }
            rxSync := 0;
          }
        }
      }
    }
  }

  /** The bridge's receive state; frames passed to _handle_downlink are logged in `handled`. */
  class Bridge {
    var rxBuffer: seq<byte>
    var handled: seq<Frame>
    ghost var received: seq<byte>  // every byte read from the port

    /** However the stream was cut into reads, the bridge is where one parse of the whole stream would be. */
    ghost predicate Valid()
      reads this
    {
      handled == Parse(received).0 && rxBuffer == Parse(received).1
    }

    constructor ()
      ensures Valid() && received == [] && handled == []
    {
      rxBuffer, handled, received := [], [], [];
    }

    /** One read: rx_buffer.extend(data), then _parse_rx. */
    method Receive(data: seq<byte>)
      requires Valid()
      modifies this
      ensures Valid() && received == old(received) + data
    {
      ParseAppend(received, data);
      received := received + data;
      rxBuffer := rxBuffer + data;
      ParseRx();
    }

    method ParseRx()
      modifies this
      ensures handled == old(handled) + Parse(old(rxBuffer)).0
      ensures rxBuffer == Parse(old(rxBuffer)).1
      ensures received == old(received)
    {
      hide Checked;
      while |rxBuffer| >= HEADER_SIZE
        invariant handled + Parse(rxBuffer).0 == old(handled) + Parse(old(rxBuffer)).0
        invariant Parse(rxBuffer).1 == Parse(old(rxBuffer)).1
        invariant received == old(received)
        decreases |rxBuffer|
      {
        if rxBuffer[0] != SYNC1 || rxBuffer[1] != SYNC2 {
          rxBuffer := rxBuffer[1..];
          continue;
        }
        var cmd := rxBuffer[2];
        var payLen := LenOf(rxBuffer[3], rxBuffer[4]);
        var size := HEADER_SIZE + payLen + 1;
        if |rxBuffer| < size {
          break;
        }
        ParseOne(rxBuffer, size);
        TakeFrame(cmd, payLen);
      }
    }

    /** The part of the loop that consumes one complete frame, whether or not its checksum is right. */
    method TakeFrame(cmd: byte, payLen: nat)
      requires |rxBuffer| >= HEADER_SIZE + payLen + 1 && cmd == rxBuffer[2]
      modifies this
      ensures rxBuffer == old(rxBuffer)[HEADER_SIZE + payLen + 1..]
      ensures handled == old(handled) + Checked(old(rxBuffer)[..HEADER_SIZE + payLen + 1])
      ensures received == old(received)
    {
      ghost var whole := rxBuffer[..HEADER_SIZE + payLen + 1];
      var payload := rxBuffer[HEADER_SIZE..HEADER_SIZE + payLen];
      assert payload == whole[HEADER_SIZE..|whole| - 1];
      var chk := rxBuffer[HEADER_SIZE + payLen];
      var expected := CalcChk(cmd, payload);
      rxBuffer := rxBuffer[HEADER_SIZE + payLen + 1..];
      if chk != expected {
        return;
      }
      handled := handled + [Frame(cmd, payload)];
    }
  }

  /** Both receivers on one stream: with headers within the firmware's limit they have seen the same frames. */
  lemma ReceiversAgree(firmware: Firmware, bridge: Bridge)
    requires firmware.Valid() && bridge.Valid()
    requires firmware.received == bridge.received && NoLongHeader(firmware.received)
    ensures firmware.dispatched == bridge.handled
  {
    FirmwareRefinesBridge(firmware.received);
  }
}
