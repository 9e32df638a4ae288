/**
 The R2 serial frame: A5 5A CMD LEN_LO LEN_HI PAYLOAD CHKSUM.

 Both ends of the link share this layout: the STM32 firmware (C) and the ROS bridge (Python). This module
 fixes the layout, the XOR checksum and the printers of both sides.
 */
module R2Frames {
  import opened Common

  // Bitwise exclusive or of two `n`-bit numbers, least significant bit first.
  function XorBits(n: nat, a: nat, b: nat): (r: nat)
    ensures r < Pow2(n)
  {
    if n == 0 then 0 else (a % 2 + b % 2) % 2 + 2 * XorBits(n - 1, a / 2, b / 2)
  }

  function Xor(a: byte, b: byte): byte {
    assert Pow2(8) == 256;
    XorBits(8, a, b)
  }

  lemma LastBit(a: nat, b: nat, c: nat, x: nat, y: nat)
    requires (a % 2 + b % 2) % 2 + 2 * x == (a % 2 + c % 2) % 2 + 2 * y
    ensures x == y && b % 2 == c % 2
  {
  }

  lemma {:induction false} XorBitsCancel(n: nat, a: nat, b: nat, c: nat)
    requires b < Pow2(n) && c < Pow2(n) && XorBits(n, a, b) == XorBits(n, a, c)
    ensures b == c
  {
    if n != 0 {
      LastBit(a, b, c, XorBits(n - 1, a / 2, b / 2), XorBits(n - 1, a / 2, c / 2));
      XorBitsCancel(n - 1, a / 2, b / 2, c / 2);
    }
  }

  lemma {:induction false} XorBitsSym(n: nat, a: nat, b: nat)
    ensures XorBits(n, a, b) == XorBits(n, b, a)
  {
    if n != 0 {
      XorBitsSym(n - 1, a / 2, b / 2);
    }
  }

  lemma {:induction false} XorBitsSelf(n: nat, a: nat)
    ensures XorBits(n, a, a) == 0
  {
    if n != 0 {
      XorBitsSelf(n - 1, a / 2);
    }
  }

  lemma {:induction false} XorBitsZero(n: nat, a: nat)
    requires a < Pow2(n)
    ensures XorBits(n, 0, a) == a
  {
    if n != 0 {
      XorBitsZero(n - 1, a / 2);
    }
  }

  /** Equal bytes, and no others, cancel; zero changes nothing. */
  lemma XorCancels(a: byte, b: byte)
    ensures Xor(a, b) == 0 <==> a == b
    ensures Xor(0, a) == a
  {
    assert Pow2(8) == 256;
    XorBitsSelf(8, a);
    XorBitsZero(8, a);
    XorInjective(a, a, b);
  }

  lemma XorInjective(a: byte, b: byte, c: byte)
    ensures Xor(a, b) == Xor(a, c) <==> b == c
    ensures Xor(b, a) == Xor(c, a) <==> b == c
  {
    assert Pow2(8) == 256;
    XorBitsSym(8, a, b);
    XorBitsSym(8, a, c);
    if Xor(a, b) == Xor(a, c) {
      XorBitsCancel(8, a, b, c);
    }
  }

  const SYNC1: byte := 0xA5
  const SYNC2: byte := 0x5A
  const HEADER_SIZE: nat := 5
  const MAX_PAYLOAD: nat := 64
  const MAX_FRAME: nat := HEADER_SIZE + MAX_PAYLOAD + 1

  datatype Frame = Frame(cmd: byte, payload: seq<byte>)

  // The length field is a 16-bit little-endian number.
  function Lo(n: nat): byte { n % 256 }
  function Hi(n: nat): byte { n / 256 % 256 }
  function LenOf(lo: byte, hi: byte): nat { lo + 256 * hi }

  lemma LengthRoundTrip(n: nat)
    requires n < 0x1_0000
    ensures LenOf(Lo(n), Hi(n)) == n
  {
  }

  function XorFold(acc: byte, data: seq<byte>): byte
    decreases |data|
  {
    if data == [] then acc else XorFold(Xor(acc, data[0]), data[1..])
  }

  function Checksum(cmd: byte, payload: seq<byte>): byte {
    XorFold(Xor(Xor(cmd, Lo(|payload|)), Hi(|payload|)), payload)
  }

  function Encode(f: Frame): seq<byte> {
    [SYNC1, SYNC2, f.cmd, Lo(|f.payload|), Hi(|f.payload|)] + f.payload + [Checksum(f.cmd, f.payload)]
  }

  lemma {:induction false} XorFoldSnoc(acc: byte, data: seq<byte>, b: byte)
    ensures XorFold(acc, data + [b]) == Xor(XorFold(acc, data), b)
    decreases |data|
  {
    if data == [] {
      assert data + [b] == [b];
    } else {
      assert (data + [b])[1..] == data[1..] + [b];
      XorFoldSnoc(Xor(acc, data[0]), data[1..], b);
    }
  }

  /** The firmware's checksum loop; the Python bridge runs the same loop over the same three seeds. */
  method CalcChk(cmd: byte, data: seq<byte>) returns (chk: byte)
    ensures chk == Checksum(cmd, data)
  {
    chk := cmd;
    chk := Xor(chk, Lo(|data|));
    chk := Xor(chk, Hi(|data|));
    ghost var seed := chk;
    for i := 0 to |data|
      invariant chk == XorFold(seed, data[..i])
    {
      chk := Xor(chk, data[i]);
      assert data[..i + 1] == data[..i] + [data[i]];
      XorFoldSnoc(seed, data[..i], data[i]);
    }
    assert data[..|data|] == data;
  }

  /** The firmware's printer: one byte at a time to the UART. */
  method SendFrame(cmd: byte, data: seq<byte>) returns (sent: seq<byte>)
    ensures sent == Encode(Frame(cmd, data))
  {
    var chk := CalcChk(cmd, data);
    sent := [];
    sent := sent + [SYNC1];
    sent := sent + [SYNC2];
    sent := sent + [cmd];
    sent := sent + [Lo(|data|)];
    sent := sent + [Hi(|data|)];
    for i := 0 to |data|
      invariant sent == [SYNC1, SYNC2, cmd, Lo(|data|), Hi(|data|)] + data[..i]
    {
      sent := sent + [data[i]];
    }
    sent := sent + [chk];
  }

  // ----- the frame on the wire

  /** The bytes of a frame, whatever functions print it. */
  lemma FrameLayout(f: Frame)
    ensures var e, n := Encode(f), |f.payload|;
            && |e| == n + 6 && e[0] == 0xA5 && e[1] == 0x5A && e[2] == f.cmd
            && e[3] == n % 256 && e[4] == n / 256 % 256 && e[5..n + 5] == f.payload
  {
  }

  lemma {:induction false} XorFoldAppend(acc: byte, a: seq<byte>, b: seq<byte>)
    ensures XorFold(acc, a + b) == XorFold(XorFold(acc, a), b)
    decreases |a|
  {
    if a == [] {
      assert a + b == b;
    } else {
      assert (a + b)[1..] == a[1..] + b;
      XorFoldAppend(Xor(acc, a[0]), a[1..], b);
    }
  }

  /** Command, length bytes, payload and one more byte XOR to zero exactly when that byte is the checksum. */
  lemma SumZeroExactly(cmd: byte, payload: seq<byte>, last: byte)
    ensures XorFold(0, [cmd, Lo(|payload|), Hi(|payload|)] + payload + [last]) == 0 <==> last == Checksum(cmd, payload)
  {
    var l, h := Lo(|payload|), Hi(|payload|);
    XorFoldSnoc(0, [cmd, l, h] + payload, last);
    XorFoldAppend(0, [cmd, l, h], payload);
    SeedFold(cmd, l, h);
    XorCancels(Checksum(cmd, payload), last);
  }

  lemma SeedFold(a: byte, b: byte, c: byte)
    ensures XorFold(0, [a, b, c]) == Xor(Xor(a, b), c)
  {
    XorCancels(a, a);
    assert [a, b, c][1..] == [b, c] && [b, c][1..] == [c] && [c][1..] == [];
    assert XorFold(Xor(Xor(a, b), c), []) == Xor(Xor(a, b), c);
    assert XorFold(Xor(a, b), [c]) == XorFold(Xor(Xor(a, b), c), []);
    assert XorFold(a, [b, c]) == XorFold(Xor(a, b), [c]);
  }

  /** In every frame printed, all bytes after the sync pair XOR to zero. */
  lemma FrameSumsToZero(f: Frame)
    ensures XorFold(0, Encode(f)[2..]) == 0
  {
    SumZeroExactly(f.cmd, f.payload, Checksum(f.cmd, f.payload));
    assert Encode(f)[2..] ==
           [f.cmd, Lo(|f.payload|), Hi(|f.payload|)] + f.payload + [Checksum(f.cmd, f.payload)];
  }

  // ----- what the checksum detects

  lemma {:induction false} XorFoldSeed(a: byte, b: byte, data: seq<byte>)
    ensures XorFold(a, data) == XorFold(b, data) <==> a == b
    decreases |data|
  {
    if data != [] {
      XorFoldSeed(Xor(a, data[0]), Xor(b, data[0]), data[1..]);
      XorInjective(data[0], a, b);
    }
  }

  /** Changing one payload byte always changes the checksum. */
  lemma {:induction false} XorFoldDetects(acc: byte, data: seq<byte>, i: nat, x: byte)
    requires i < |data| && data[i] != x
    ensures XorFold(acc, data[i := x]) != XorFold(acc, data)
    decreases |data|
  {
    var data' := data[i := x];
    if i == 0 {
      assert data'[1..] == data[1..];
      XorInjective(acc, x, data[0]);
      XorFoldSeed(Xor(acc, x), Xor(acc, data[0]), data[1..]);
    } else {
      assert data'[1..] == data[1..][i - 1 := x];
      XorFoldDetects(Xor(acc, data[0]), data[1..], i - 1, x);
    }
  }

  lemma ChecksumDetectsCommand(cmd: byte, cmd': byte, payload: seq<byte>)
    requires cmd != cmd'
    ensures Checksum(cmd, payload) != Checksum(cmd', payload)
  {
    var l, h := Lo(|payload|), Hi(|payload|);
    XorInjective(l, cmd, cmd');
    XorInjective(h, Xor(cmd, l), Xor(cmd', l));
    XorFoldSeed(Xor(Xor(cmd, l), h), Xor(Xor(cmd', l), h), payload);
  }
}
