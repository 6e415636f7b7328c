/** Bytes, big-endian integers and the cursor arithmetic shared by the wire formats
    (sources/Base/BinaryReader.cpp, sources/Base/BinaryWriter.cpp). */
module Bytes {

  type byte = b: int | 0 <= b < 256

  type uint64 = n: int | 0 <= n < 0x1_0000_0000_0000_0000

  type uint32 = n: int | 0 <= n < 0x1_0000_0000

  /** An integer as 32 bits hold it. */
  function U32(v: int): uint32 {
    v % 0x1_0000_0000
  }

  lemma U32Adds(a: int, b: int)
    ensures U32(U32(a) + b) == U32(a + b)
  {
    var m, q := 0x1_0000_0000, a / 0x1_0000_0000;
    assert a + b == (U32(a) + b) + m * q;
    Remainder(U32(a) + b, m, q);
  }

  lemma Remainder(r: int, m: int, q: int)
    requires m > 0
    ensures (r + m * q) % m == r % m
  {
    var x := r / m;
    assert r + m * q == m * (x + q) + r % m;
    var y, z := (r + m * q) / m, (r + m * q) % m;
    assert m * (y - x - q) == r % m - z;
    assert y - x - q >= 1 ==> m * (y - x - q) >= m;
    assert y - x - q <= -1 ==> m * (y - x - q) <= -m;
  }

  datatype Option<+T> = None | Some(value: T)

  /** A value read from the front of a byte string, and the bytes left after it. */
  datatype Parsed<+T> = Parsed(value: T, rest: seq<byte>)

  // ---- Big-endian fields -------------------------------------------------------------------

  function Be16(v: int): (s: seq<byte>)
    requires 0 <= v < 0x1_0000
  {
    [v / 0x100, v % 0x100]
  }

  function Be24(v: int): (s: seq<byte>)
    requires 0 <= v < 0x100_0000
  {
    [v / 0x1_0000, v / 0x100 % 0x100, v % 0x100]
  }

  function Be32(v: int): (s: seq<byte>)
    requires 0 <= v < 0x1_0000_0000
  {
    [v / 0x100_0000, v / 0x1_0000 % 0x100, v / 0x100 % 0x100, v % 0x100]
  }

  /** Reading past the end moves to the end and yields 0 (BinaryReader::read). */
  function Parse8(s: seq<byte>): (p: Parsed<byte>)
  {
    if s == [] then Parsed(0, []) else Parsed(s[0], s[1..])
  }

  function Parse16(s: seq<byte>): (p: Parsed<int>)
    ensures 0 <= p.value < 0x1_0000
  {
    if |s| < 2 then Parsed(0, []) else Parsed((s[0] as int) * 0x100 + s[1], s[2..])
  }

  function Parse24(s: seq<byte>): (p: Parsed<int>)
    ensures 0 <= p.value < 0x100_0000
  {
    if |s| < 3 then Parsed(0, []) else Parsed((s[0] as int) * 0x1_0000 + (s[1] as int) * 0x100 + s[2], s[3..])
  }

  function Parse32(s: seq<byte>): (p: Parsed<int>)
    ensures 0 <= p.value < 0x1_0000_0000
  {
    if |s| < 4 then Parsed(0, [])
    else Parsed((s[0] as int) * 0x100_0000 + (s[1] as int) * 0x1_0000 + (s[2] as int) * 0x100 + s[3], s[4..])
  }

  // Each fixed-width read inverts its write and leaves what follows untouched.

  lemma RoundTrip8(v: byte, tail: seq<byte>)
    ensures Parse8([v] + tail) == Parsed(v, tail)
  {
    assert ([v] + tail)[1..] == tail;
  }

  lemma RoundTrip16(v: int, tail: seq<byte>)
    requires 0 <= v < 0x1_0000
    ensures Parse16(Be16(v) + tail) == Parsed(v, tail)
  {
    assert (Be16(v) + tail)[2..] == tail;
  }

  lemma RoundTrip24(v: int, tail: seq<byte>)
    requires 0 <= v < 0x100_0000
    ensures Parse24(Be24(v) + tail) == Parsed(v, tail)
  {
    assert (Be24(v) + tail)[3..] == tail;
    Digits24(v);
  }

  lemma RoundTrip32(v: int, tail: seq<byte>)
    requires 0 <= v < 0x1_0000_0000
    ensures Parse32(Be32(v) + tail) == Parsed(v, tail)
  {
    assert (Be32(v) + tail)[4..] == tail;
    Digits32(v);
  }

  lemma Digits24(v: int)
    requires v >= 0
    ensures v / 0x1_0000 * 0x1_0000 + v / 0x100 % 0x100 * 0x100 + v % 0x100 == v
  {
    var q, r := v / 0x100, v % 0x100;
    var s, t := q / 0x100, q % 0x100;
    assert v == 0x1_0000 * s + (0x100 * t + r);
    Quotient(0x1_0000, s, 0x100 * t + r);
  }

  lemma Digits32(v: int)
    requires v >= 0
    ensures v / 0x100_0000 * 0x100_0000 + v / 0x1_0000 % 0x100 * 0x1_0000 + v / 0x100 % 0x100 * 0x100 + v % 0x100 == v
  {
    Digits24(v);
    var q, r := v / 0x1_0000, v % 0x1_0000;
    var s, t := q / 0x100, q % 0x100;
    assert v == 0x100_0000 * s + (0x1_0000 * t + r);
    Quotient(0x100_0000, s, 0x1_0000 * t + r);
  }

  lemma Quotient(d: int, q: int, r: int)
    requires 0 <= r < d && q >= 0
    ensures (d * q + r) / d == q
  {
    var x, y := (d * q + r) / d, (d * q + r) % d;
    assert x - q >= 1 ==> d * (x - q) >= d;
    assert x - q <= -1 ==> d * (x - q) <= -d;
    assert d * (x - q) == r - y;
  }

  function Min(a: nat, b: nat): nat {
    if a < b then a else b
  }

  function Pow2(n: nat): (p: nat)
    ensures p >= 1
  {
    if n == 0 then 1 else 2 * Pow2(n - 1)
  }

  /** v & (1 << k) */
  predicate Bit(v: nat, k: nat) {
    if k == 0 then v % 2 == 1 else Bit(v / 2, k - 1)
  }

  lemma {:induction false} NoBit(k: nat)
    ensures !Bit(0, k)
  {
    if k > 0 { NoBit(k - 1); }
  }

  lemma {:induction false} Pow2Increases(m: nat, n: nat)
    requires m < n
    ensures Pow2(m) < Pow2(n)
  {
    if m < n - 1 { Pow2Increases(m, n - 1); }
  }

  lemma Pow2Words()
    ensures Pow2(8) == 0x100 && Pow2(32) == 0x1_0000_0000
  {
    assert Pow2(4) == 16 * Pow2(0) && Pow2(8) == 16 * Pow2(4);
    assert Pow2(12) == 16 * Pow2(8) && Pow2(16) == 16 * Pow2(12);
    assert Pow2(20) == 16 * Pow2(16) && Pow2(24) == 16 * Pow2(20);
    assert Pow2(28) == 16 * Pow2(24) && Pow2(32) == 16 * Pow2(28);
  }

  // ---- Concatenation -----------------------------------------------------------------------

  function Concat<T>(pieces: seq<seq<T>>): (s: seq<T>)
  {
    if pieces == [] then [] else Concat(pieces[..|pieces| - 1]) + pieces[|pieces| - 1]
  }

  lemma ConcatSnoc<T>(pieces: seq<seq<T>>, last: seq<T>)
    ensures Concat(pieces + [last]) == Concat(pieces) + last
  {
    assert (pieces + [last])[..|pieces|] == pieces;
  }

  lemma {:induction false} ConcatAppend<T>(a: seq<seq<T>>, b: seq<seq<T>>)
    ensures Concat(a + b) == Concat(a) + Concat(b)
  {
    if b == [] {
      assert a + b == a;
    } else {
      var init, last := b[..|b| - 1], b[|b| - 1];
      ConcatAppend(a, init);
      assert a + b == (a + init) + [last];
      ConcatSnoc(a + init, last);
      assert Concat(a) + (Concat(init) + last) == (Concat(a) + Concat(init)) + last;
    }
  }

  lemma CutTail(s: seq<byte>, i: nat, j: nat)
    requires i <= j <= |s|
    ensures s[i..] == s[i..j] + s[j..]
  {
  }

  lemma SliceOfSlice(s: seq<byte>, from: nat, to: nat, n: nat)
    requires from + n <= to <= |s|
    ensures s[from..to][..n] == s[from..from + n]
  {
  }

  /** n copies of one byte. */
  function Repeated(b: byte, n: nat): (s: seq<byte>)
    ensures |s| == n
    ensures forall i :: 0 <= i < n ==> s[i] == b
  {
    seq(n, _ => b)
  }
}
