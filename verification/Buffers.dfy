/** The byte buffer (sources/Base/Buffer.cpp): clipped from the front, grown at the back, moved or
    reallocated when it lacks room, it behaves as a plain sequence. */
module Buffers {
  import opened Bytes
  import opened SevenBit

  // ---- Capacities --------------------------------------------------------------------------

  /** a | b */
  function Or(a: nat, b: nat): nat {
    if a == 0 then b
    else if b == 0 then a
    else (if a % 2 == 1 || b % 2 == 1 then 1 else 0) + 2 * Or(a / 2, b / 2)
  }

  lemma {:induction false} OrBit(a: nat, b: nat, i: nat)
    ensures Bit(Or(a, b), i) <==> Bit(a, i) || Bit(b, i)
  {
    if a == 0 || b == 0 {
      NoBit(i);
    } else {
      assert Or(a, b) / 2 == Or(a / 2, b / 2);
      if i > 0 { OrBit(a / 2, b / 2, i - 1); }
    }
  }

  lemma {:induction false} OrBelow(a: nat, b: nat, n: nat)
    requires a < Pow2(n) && b < Pow2(n)
    ensures Or(a, b) < Pow2(n)
  {
    if a != 0 && b != 0 { OrBelow(a / 2, b / 2, n - 1); }
  }

  lemma {:induction false} ShrBit(v: nat, w: nat, i: nat)
    ensures Bit(Shr(v, w), i) <==> Bit(v, w + i)
    ensures Shr(v, w) <= v
  {
    if w > 0 { ShrBit(v / 2, w - 1, i); }
  }

  /** The number of binary digits. */
  function Width(v: nat): (n: nat)
    ensures v < Pow2(n) && (n > 0 ==> Pow2(n - 1) <= v && Bit(v, n - 1))
  {
    if v == 0 then 0 else 1 + Width(v / 2)
  }

  /** The w highest of n bits are set. */
  predicate TopOnes(v: nat, n: nat, w: nat) {
    v < Pow2(n) && forall i: nat :: n - w <= i < n ==> Bit(v, i)
  }

  /** One step of the smearing doubles the bits that are set. */
  lemma SmearStep(v: nat, n: nat, w: nat)
    requires TopOnes(v, n, w)
    ensures TopOnes(Or(v, Shr(v, w)), n, 2 * w)
  {
    hide Or, Bit, Shr;
    ShrBit(v, w, 0);
    OrBelow(v, Shr(v, w), n);
    forall i: nat | n - 2 * w <= i < n ensures Bit(Or(v, Shr(v, w)), i) {
      OrBit(v, Shr(v, w), i);
      ShrBit(v, w, i);
    }
  }

  lemma {:induction false} AllOnes(v: nat, n: nat)
    requires v < Pow2(n) && forall i: nat :: i < n ==> Bit(v, i)
    ensures v == Pow2(n) - 1
  {
    if n > 0 {
      assert Bit(v, 0);
      forall i: nat | i < n - 1 ensures Bit(v / 2, i) { assert Bit(v, i + 1); }
      AllOnes(v / 2, n - 1);
    }
  }

  /** The shifts of Buffer::Allocator::ComputeCapacity. */
  function Smear(v: nat): nat {
    var c := Or(v, Shr(v, 1));
    var c := Or(c, Shr(c, 2));
    var c := Or(c, Shr(c, 4));
    var c := Or(c, Shr(c, 8));
    Or(c, Shr(c, 16))
  }

  lemma SmearFills(v: nat)
    requires 0 < v < 0x1_0000_0000
    ensures Smear(v) == Pow2(Width(v)) - 1
  {
    hide Or, Shr, Bit;
    var n := Width(v);
    var c1 := Or(v, Shr(v, 1));
    var c2 := Or(c1, Shr(c1, 2));
    var c4 := Or(c2, Shr(c2, 4));
    var c8 := Or(c4, Shr(c4, 8));
    SmearStep(v, n, 1);
    SmearStep(c1, n, 2);
    SmearStep(c2, n, 4);
    SmearStep(c4, n, 8);
    SmearStep(c8, n, 16);
    Within32(v);
    AllOnes(Smear(v), n);
  }

  lemma Within32(v: nat)
    requires 0 < v < 0x1_0000_0000
    ensures Width(v) <= 32 && (Width(v) == 32 <==> v >= 0x8000_0000)
  {
    hide Bit, Pow2;
    var n := Width(v);
    Pow2Words();
    assert Pow2(32) == 2 * Pow2(31) by { Pow2Twice(31); }
    if n > 33 { Pow2Increases(32, n - 1); }
    if n < 31 { Pow2Increases(n, 31); }
  }

  lemma Pow2Twice(n: nat)
    ensures Pow2(n + 1) == 2 * Pow2(n)
  {
  }

  function ComputeCapacity(size: uint32): (r: uint32)
    ensures r >= size
  {
    if size <= 16 then 16
    else
      SmearFills(size - 1);
      var capacity := U32(Smear(size - 1) + 1);
      CapacityHolds(size);
      if capacity != 0 then capacity else size
  }

  /** What the increment after the smearing gives: the next power of two, or 0 past the 32 bits. */
  lemma CapacityHolds(size: uint32)
    requires size > 16
    ensures var n := Width(size - 1);
      && Pow2(n - 1) < size <= Pow2(n)
      && U32(Smear(size - 1) + 1) == if size > 0x8000_0000 then 0 else Pow2(n)
  {
    hide Smear, Bit, Pow2;
    SmearFills(size - 1);
    Within32(size - 1);
    Pow2Words();
    if Width(size - 1) < 32 { Pow2Increases(Width(size - 1), 32); }
  }

  /** Up to half of the 32-bit range the capacity is a power of two, at least 16 and the size, and
      no other such power is less; beyond, it is the size itself. */
  lemma CapacityLeast(size: uint32) returns (k: nat)
    ensures var r := ComputeCapacity(size);
      if size > 0x8000_0000 then r == size
      else r == Pow2(k) && 16 <= r && size <= r && forall j: nat :: 16 <= Pow2(j) && size <= Pow2(j) ==> r <= Pow2(j)
  {
    hide Smear, Bit, Pow2;
    if size <= 16 {
      k := 4;
      Pow2Of4();
    } else {
      CapacityHolds(size);
      k := Width(size - 1);
      if size <= 0x8000_0000 {
        forall j: nat | size <= Pow2(j) ensures Pow2(k) <= Pow2(j) { LeastPower(k, j, size); }
      }
    }
  }

  lemma LeastPower(k: nat, j: nat, size: nat)
    requires k > 0 && Pow2(k - 1) < size <= Pow2(j)
    ensures Pow2(k) <= Pow2(j)
  {
    hide Pow2;
    if j < k - 1 { Pow2Increases(j, k - 1); }
    if j > k { Pow2Increases(k, j); }
  }

  lemma Pow2Of4()
    ensures Pow2(4) == 16
  {
    assert Pow2(4) == 16 * Pow2(0);
  }

  /** Bytes written after some others, in memory. */
  lemma Appended(before: seq<byte>, after: seq<byte>, offset: nat, at: nat, data: seq<byte>)
    requires offset <= at && at + |data| <= |before| == |after|
    requires after[at..at + |data|] == data && after[..at] == before[..at]
    ensures after[offset..at + |data|] == before[offset..at + |data|][..at - offset] + data
  {
    assert before[offset..at + |data|][..at - offset] == before[..at][offset..];
    assert after[offset..at + |data|] == after[..at][offset..] + after[at..at + |data|];
  }

  // ---- The buffer --------------------------------------------------------------------------

  class Buffer {
    /** The memory allocated; its `capacity` bytes from `offset` on are the buffer's. */
    var store: array<byte>
    var offset: nat
    var size: nat
    var capacity: nat

    ghost predicate Valid()
      reads this
    {
      offset + capacity == store.Length && size <= capacity
    }

    ghost function Contents(): (s: seq<byte>)
      reads this, store
      requires Valid()
      ensures |s| == size
    {
      store[offset..offset + size]
    }

    constructor (data: seq<byte>)
      requires |data| < 0x1_0000_0000
      ensures Valid() && Contents() == data && fresh(store)
    {
      var capacity := if data == [] then 0 else ComputeCapacity(|data|);
      store := new byte[capacity](i requires 0 <= i < capacity => if i < |data| then data[i] else 0);
      offset, size, this.capacity := 0, |data|, capacity;
      new;
      assert store[0..|data|] == data;
    }

    /** Drops bytes from the front, in place. */
    method Clip(n: nat)
      requires Valid()
      modifies this
      ensures Valid() && store == old(store)
      ensures Contents() == if n >= |old(Contents())| then [] else old(Contents())[n..]
    {
      if n >= size {
        Unclip();
        size := 0;
        return;
      }
      offset := offset + n;
      size := size - n;
      capacity := capacity - n;
    }

    /** Takes back the room clipped at the front, whatever it holds. */
    method Unclip()
      requires Valid()
      modifies this`offset, this`capacity
      ensures offset + capacity == store.Length && offset == 0 && capacity >= old(capacity)
    {
      capacity := capacity + offset;
      offset := 0;
    }

    /** Moves the contents to the front of the memory. */
    method MoveToFront(from: nat, count: nat)
      requires from + count <= store.Length
      modifies store
      ensures store[..count] == old(store[from..from + count])
    {
      var i := 0;
      while i < count
        invariant i <= count
        invariant forall k :: 0 <= k < i ==> store[k] == old(store[from + k])
        invariant forall k :: from + i <= k < store.Length ==> store[k] == old(store[k])
      {
        store[i] := store[from + i];
        i := i + 1;
      }
    }

    /** Another memory, with the first bytes of the old contents. */
    method Reallocate(newSize: uint32, count: nat, from: nat)
      requires from + count <= store.Length && count <= newSize
      modifies this
      ensures Valid() && size == newSize && fresh(store) && offset == 0 && capacity == ComputeCapacity(newSize)
      ensures store[..count] == old(store[from..from + count])
    {
      var memory := new byte[ComputeCapacity(newSize)](_ => 0);
      var i := 0;
      while i < count
        invariant i <= count
        invariant forall k :: 0 <= k < i ==> memory[k] == old(store[from + k])
        modifies memory
      {
        memory[i] := store[from + i];
        i := i + 1;
      }
      store, offset, capacity, size := memory, 0, memory.Length, newSize;
    }

    /** Another size: what remains is kept if asked for; bytes that are new hold anything. */
    method Resize(newSize: uint32, preserve: bool)
      requires Valid()
      modifies this, store
      ensures Valid() && size == newSize
      ensures store == old(store) || (fresh(store) && capacity == ComputeCapacity(newSize))
      ensures preserve && newSize <= old(size) ==> Contents() == old(Contents())[..newSize]
      ensures preserve && newSize > old(size) ==> Contents()[..old(size)] == old(Contents())
    {
      if newSize <= capacity {
        ghost var least := if newSize < size then newSize else size;
        assert store[offset..offset + newSize][..least] == Contents()[..least];
        if offset > 0 && !preserve { Unclip(); }
        size := newSize;
        return;
      }
      Grow(newSize, if preserve then size else 0);
    }

    /** Beyond the capacity: within the memory if the room clipped at its front suffices. */
    method Grow(newSize: uint32, count: nat)
      requires Valid() && newSize > capacity && count <= size
      modifies this, store
      ensures Valid() && size == newSize
      ensures store == old(store) || (fresh(store) && capacity == ComputeCapacity(newSize))
      ensures Contents()[..count] == old(Contents())[..count]
    {
      var from := offset;
      ghost var kept := Contents()[..count];
      assert store[from..from + count] == kept;
      Unclip();
      if newSize <= capacity {
        MoveToFront(from, count);
        size := newSize;
        assert store[..count] == Contents()[..count];
        return;
      }
      Reallocate(newSize, count, from);
      assert store[..count] == Contents()[..count];
    }

    /** The sum of the sizes is a 32-bit one. */
    method Append(data: seq<byte>)
      requires Valid() && |Contents()| + |data| < 0x1_0000_0000
      modifies this, store
      ensures Valid() && Contents() == old(Contents()) + data
    {
      var oldSize := size;
      Resize(size + |data|, true);
      var at := offset + oldSize;
      ghost var before := store[..];
      Copy(at, data);
      Appended(before, store[..], offset, at, data);
    }

    method Copy(at: nat, data: seq<byte>)
      requires at + |data| <= store.Length
      modifies store
      ensures store[at..at + |data|] == data && store[..at] == old(store[..at])
    {
      var i := 0;
      while i < |data|
        invariant i <= |data|
        invariant forall k :: 0 <= k < at ==> store[k] == old(store[k])
        invariant forall k :: at <= k < at + i ==> store[k] == data[k - at]
      {
        store[at + i] := data[i];
        i := i + 1;
      }
    }
  }
}
