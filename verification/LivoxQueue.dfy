/**
 The packet queue of one lidar in the Livox driver (comm/ldq.cpp): a ring whose read and write positions are 32-bit
 counters that run on and wrap around, taken modulo the power-of-two size only to address the ring.
 */
module LivoxQueue {
  import opened Common

  const WRAP: nat := 0x1_0000_0000

  lemma {:induction false} Pow2Adds(a: nat, b: nat)
    ensures Pow2(a + b) == Pow2(a) * Pow2(b)
  {
    if a != 0 {
      Pow2Adds(a - 1, b);
    }
  }

  lemma Pow2Of32()
    ensures Pow2(32) == WRAP
  {
    assert Pow2(8) == 256;
    Pow2Adds(8, 8);
    Pow2Adds(16, 16);
  }

  predicate PowerOf2(n: nat) {
    exists k :: 0 <= k < 32 && n == Pow2(k)
  }

  /** A power of two below the counter range divides it. */
  lemma DividesWrap(n: nat)
    requires PowerOf2(n)
    ensures 0 < n <= 0x8000_0000 && exists q: nat :: WRAP == q * n
  {
    var k :| 0 <= k < 32 && n == Pow2(k);
    Pow2Of32();
    Pow2Adds(32 - k, k);
    assert WRAP == Pow2(32 - k) * n;
    Pow2Adds(31 - k, k);
    AtLeast(Pow2(31 - k), n);
  }

  lemma AtLeast(a: nat, b: nat)
    requires a > 0
    ensures a * b >= b
  {
  }

  /** RoundupPowerOf2: the least power of two that is not below the size, or the greatest that 32 bits hold. */
  method RoundupPowerOf2(size: nat) returns (power: nat)
    ensures PowerOf2(power)
    ensures if size <= 0x8000_0000 then size <= power && (power == 1 || power / 2 < size) else power == 0x8000_0000
  {
    power := 0;
    for i := 0 to 32
      invariant i > 0 ==> PowerOf2(power) && power == Pow2(i - 1)
      invariant i > 0 ==> power < size
    {
      power := Pow2(i);
      if size <= power {
        DividesWrap(power);
        return;
      }
    }
    Pow2Of32();
    Pow2Adds(31, 1);
  }

  // ----- addressing

  /** The cell a counter addresses; `counter & mask` for a power of two. */
  function Slot(counter: nat, size: nat): (slot: nat)
    requires size > 0
    ensures slot < size
  {
    counter % size
  }

  lemma Multiples(n: int, size: nat)
    ensures n >= 1 ==> n * size >= size
    ensures n <= -1 ==> n * size + size <= 0
  {
  }

  lemma Difference(a: int, b: int, size: nat)
    ensures (a - b) * size == a * size - b * size
  {
  }

  /** Numbers with the same remainder that are less than `size` apart are equal. */
  lemma SameSlot(a: nat, b: nat, size: nat)
    requires size > 0 && a <= b < a + size && Slot(a, size) == Slot(b, size)
    ensures a == b
  {
    Difference(b / size, a / size, size);
    Multiples(b / size - a / size, size);
  }

  lemma SlotOf(x: nat, q: nat, r: nat, size: nat)
    requires size > 0 && x == q * size + r && r < size
    ensures Slot(x, size) == r
  {
    Difference(q, x / size, size);
    Multiples(q - x / size, size);
  }

  lemma SlotStep(x: nat, size: nat)
    requires size > 0
    ensures Slot(x + 1, size) == if Slot(x, size) + 1 < size then Slot(x, size) + 1 else 0
  {
    var q, r := x / size, x % size;
    Difference(q + 1, q, size);
    if r + 1 < size {
      SlotOf(x + 1, q, r + 1, size);
    } else {
      SlotOf(x + 1, q + 1, 0, size);
    }
  }

  /** Wrapping a counter does not move the cell it addresses, because the ring size divides the counter range. */
  lemma WrapKeepsSlot(x: nat, size: nat)
    requires PowerOf2(size) && x < 2 * WRAP
    ensures size > 0 && Slot(x % WRAP, size) == Slot(x, size)
  {
    DividesWrap(size);
    var q: nat :| WRAP == q * size;
    if x >= WRAP {
      var y := x - WRAP;
      Difference(y / size + q, y / size, size);
      SlotOf(x, y / size + q, y % size, size);
    }
  }

  /** The contents of a ring: `used` cells from the one `rd` addresses. */
  ghost function Ring<T>(cells: seq<T>, rd: nat, used: nat): (s: seq<T>)
    requires |cells| > 0
    ensures |s| == used
    decreases used
  {
    if used == 0 then [] else [cells[Slot(rd, |cells|)]] + Ring(cells, rd + 1, used - 1)
  }

  lemma {:induction false} RingBySlot<T>(cells: seq<T>, a: nat, b: nat, used: nat)
    requires |cells| > 0 && Slot(a, |cells|) == Slot(b, |cells|)
    ensures Ring(cells, a, used) == Ring(cells, b, used)
    decreases used
  {
    if used > 0 {
      SlotStep(a, |cells|);
      SlotStep(b, |cells|);
      RingBySlot(cells, a + 1, b + 1, used - 1);
    }
  }

  /** Writing the cell behind the last one extends the contents, as long as there is room. */
  lemma {:induction false} RingPush<T>(cells: seq<T>, rd: nat, used: nat, x: T)
    requires used < |cells|
    ensures Ring(cells[Slot(rd + used, |cells|) := x], rd, used + 1) == Ring(cells, rd, used) + [x]
    decreases used
  {
    var slot := Slot(rd + used, |cells|);
    if used > 0 {
      if Slot(rd, |cells|) == slot {
        SameSlot(rd, rd + used, |cells|);
      }
      RingPush(cells, rd + 1, used - 1, x);
    } else {
      assert Ring(cells[slot := x], rd + 1, 0) == [];
    }
  }

  // ----- the queue

  class LidarQueue<T(0)> {
    const size: nat
    const storage: array<T>
    var rd: nat
    var wr: nat

    /** How many packets are in the queue: the distance of the counters, modulo the wrap. */
    function Used(): nat
      reads this
    {
      (wr - rd) % WRAP
    }

    ghost predicate Valid()
      reads this
    {
      && PowerOf2(size) && 0 < size == storage.Length
      && rd < WRAP && wr < WRAP && Used() <= size
    }

    /** The packets in the order they were pushed. */
    ghost function Contents(): (s: seq<T>)
      requires Valid()
      reads this, storage
      ensures |s| == Used()
    {
      Ring(storage[..], rd, Used())
    }

    /** InitQueue: the ring has the size asked for, rounded up to a power of two where 32 bits hold one. */
    constructor (queueSize: nat)
      ensures Valid() && Contents() == [] && fresh(storage)
      ensures if queueSize <= 0x8000_0000 then queueSize <= size && (size == 1 || size / 2 < queueSize)
              else size == 0x8000_0000
    {
      var power := RoundupPowerOf2(queueSize);
      DividesWrap(power);
      size := power;
      storage := new T[power];
      rd, wr := 0, 0;
    }

    predicate IsEmpty()
      requires Valid()
      reads this, storage
      ensures IsEmpty() <==> Contents() == []
    {
      rd == wr
    }

    predicate IsFull()
      requires Valid()
      reads this, storage
      ensures IsFull() <==> |Contents()| == size
    {
      Used() > size - 1
    }

    /** QueuePushAny, called when the queue is not full. */
    method Push(x: T)
      requires Valid() && !IsFull()
      modifies this`wr, storage
      ensures Valid() && Contents() == old(Contents()) + [x]
    {
      hide Slot;
      hide Ring;
      ghost var cells, used := storage[..], Used();
      DividesWrap(size);
      CounterAt(rd, wr);
      WrapKeepsSlot(rd + used, size);
      RingPush(cells, rd, used, x);
      storage[Slot(wr, size)] := x;
      assert storage[..] == cells[Slot(wr, size) := x];
      Advanced(rd, wr);
      wr := (wr + 1) % WRAP;
    }

    /** QueuePop: the packet pushed first; nothing from an empty queue. */
    method Pop() returns (packet: Option<T>)
      requires Valid()
      modifies this`rd
      ensures Valid()
      ensures if old(Contents()) == [] then packet == None && Contents() == []
              else packet.Some? && old(Contents()) == [packet.value] + Contents()
    {
      hide Slot;
      hide Ring;
      if IsEmpty() {
        return None;
      }
      ghost var cells := storage[..];
      RingPop(cells, rd, Used());
      WrapKeepsSlot(rd + 1, size);
      RingBySlot(cells, (rd + 1) % WRAP, rd + 1, Used() - 1);
      packet := Some(storage[Slot(rd, size)]);
      Retreated(rd, wr);
      rd := (rd + 1) % WRAP;
    }
  }

  lemma RingPop<T>(cells: seq<T>, rd: nat, used: nat)
    requires |cells| > 0 && used > 0
    ensures Ring(cells, rd, used) == [cells[Slot(rd, |cells|)]] + Ring(cells, rd + 1, used - 1)
  {
  }

  lemma Retreated(rd: nat, wr: nat)
    requires rd < WRAP && wr < WRAP && rd != wr
    ensures (wr - (rd + 1) % WRAP) % WRAP == (wr - rd) % WRAP - 1
  {
  }

  lemma CounterAt(rd: nat, wr: nat)
    requires rd < WRAP && wr < WRAP
    ensures wr == (rd + (wr - rd) % WRAP) % WRAP && (wr - rd) % WRAP < WRAP
  {
  }

  lemma Advanced(rd: nat, wr: nat)
    requires rd < WRAP && wr < WRAP && (wr - rd) % WRAP + 1 < WRAP
    ensures ((wr + 1) % WRAP - rd) % WRAP == (wr - rd) % WRAP + 1
  {
  }
}
