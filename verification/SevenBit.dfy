/** The 7-bit integer codec (BinaryWriter::write7Bit, BinaryReader::read7Bit,
    Binary::Get7BitSize): base-128 groups, most significant first, each but the last carrying a
    continuation bit; a value that needs all `limit` bytes keeps the eight bits of the last. */
module SevenBit {
  import opened Bytes

  function Pow128(n: nat): (p: nat)
    ensures p >= 1
  {
    if n == 0 then 1 else 128 * Pow128(n - 1)
  }

  lemma {:induction false} Pow128Increasing(m: nat, n: nat)
    requires m <= n
    ensures Pow128(m) <= Pow128(n)
  {
    if m < n { Pow128Increasing(m, n - 1); }
  }

  /** The values a `limit`-byte code can carry: seven bits a byte, eight in the last. */
  predicate Codable(v: int, limit: nat)
  {
    limit >= 2 && 0 <= v < 256 * Pow128(limit - 1)
  }

  /** The unsigned types the library instantiates the codec with, and the explicit 4-byte limit. */
  lemma CodableWidths(v: int)
    requires 0 <= v
    ensures v < 0x1_0000 ==> Codable(v, 3)
    ensures v < 0x2000_0000 <==> Codable(v, 4)
    ensures v < 0x1_0000_0000 ==> Codable(v, 5)
    ensures v < 0x1_0000_0000_0000_0000 <==> Codable(v, 9)
  {
    assert Pow128(2) == 128 * 128;
    assert Pow128(3) == 128 * 128 * 128;
    assert Pow128(4) == 128 * 128 * 128 * 128;
    assert Pow128(6) == 128 * 128 * 128 * 128 * 128 * 128;
    assert Pow128(8) == 128 * 128 * Pow128(6);
  }

  /** The number of base-128 digits of v. */
  function Digits(v: nat): (n: nat)
    ensures n >= 1
  {
    if v < 128 then 1 else 1 + Digits(v / 128)
  }

  lemma {:induction false} DigitsBound(v: nat, n: nat)
    requires n >= 1
    ensures Digits(v) <= n <==> v < Pow128(n)
  {
    if v < 128 {
      assert Pow128(1) == 128;
      Pow128Increasing(1, n);
    } else if n == 1 {
      assert Pow128(1) == 128;
    } else {
      DigitsBound(v / 128, n - 1);
    }
  }

  /** n digits of v, least significant last, each with the continuation bit. */
  function Groups(v: nat, n: nat): (s: seq<byte>)
    ensures |s| == n
  {
    if n == 0 then [] else Groups(v / 128, n - 1) + [128 + v % 128]
  }

  function Encode7Bit(v: nat, limit: nat): (s: seq<byte>)
    requires limit >= 2
  {
    if v >= Pow128(limit - 1) then Groups(v / 256, limit - 1) + [v % 256]
    else Groups(v / 128, Digits(v) - 1) + [v % 128]
  }

  function Parse7Bit(s: seq<byte>, limit: nat, acc: nat := 0): (p: Parsed<nat>)
    requires limit >= 1
    ensures |p.rest| <= |s|
    decreases limit
  {
    var Parsed(b, rest) := Parse8(s);
    if limit == 1 then Parsed(acc * 256 + b, rest)
    else if b >= 128 then Parse7Bit(rest, limit - 1, acc * 128 + b % 128)
    else Parsed(acc * 128 + b, rest)
  }

  lemma Shift(acc: nat, p: nat, q: nat, r: nat)
    ensures (acc * p + q) * 128 + r == acc * (128 * p) + (128 * q + r)
  {
  }

  /** One byte of a code. */
  lemma ParseOne(s: seq<byte>, limit: nat, acc: nat)
    requires limit >= 1
    ensures var Parsed(b, rest) := Parse8(s);
      Parse7Bit(s, limit, acc)
      == if limit == 1 then Parsed(acc * 256 + b, rest)
         else if b >= 128 then Parse7Bit(rest, limit - 1, acc * 128 + b % 128)
         else Parsed(acc * 128 + b, rest)
  {
  }

  /** Reading n continuation groups accumulates their value and leaves the rest. */
  lemma {:induction false} ParseGroups(v: nat, n: nat, tail: seq<byte>, limit: nat, acc: nat)
    requires n < limit && v < Pow128(n)
    ensures Parse7Bit(Groups(v, n) + tail, limit, acc)
         == Parse7Bit(tail, limit - n, acc * Pow128(n) + v)
  {
    hide Parse7Bit;
    if n == 0 {
      assert Groups(v, 0) + tail == tail;
    } else {
      var q, r := v / 128, v % 128;
      var last: seq<byte> := [128 + r];
      var p := Pow128(n - 1);
      assert Groups(v, n) + tail == Groups(q, n - 1) + (last + tail);
      ParseGroups(q, n - 1, last + tail, limit, acc);
      assert (last + tail)[1..] == tail;
      ParseOne(last + tail, limit - (n - 1), acc * p + q);
      Shift(acc, p, q, r);
    }
  }

  /** What is read from n continuation groups of `hi` and a last byte. */
  lemma ParseLast(hi: nat, lo: byte, n: nat, tail: seq<byte>, limit: nat)
    requires n < limit && hi < Pow128(n)
    requires n < limit - 1 ==> lo < 128
    ensures Parse7Bit(Groups(hi, n) + [lo] + tail, limit)
         == Parsed(if n == limit - 1 then hi * 256 + lo else hi * 128 + lo, tail)
  {
    assert Groups(hi, n) + [lo] + tail == Groups(hi, n) + ([lo] + tail);
    ParseGroups(hi, n, [lo] + tail, limit, 0);
    assert ([lo] + tail)[1..] == tail;
  }

  /** `read7Bit` inverts `write7Bit` and consumes exactly its bytes. */
  lemma RoundTrip7Bit(v: nat, limit: nat, tail: seq<byte>)
    requires Codable(v, limit)
    ensures Parse7Bit(Encode7Bit(v, limit) + tail, limit) == Parsed(v, tail)
  {
    if v >= Pow128(limit - 1) {
      ParseLast(v / 256, v % 256, limit - 1, tail, limit);
    } else {
      var n := Digits(v) - 1;
      DigitsBound(v, limit - 1);
      DigitsBound(v, n + 1);
      ParseLast(v / 128, v % 128, n, tail, limit);
    }
  }

  /** The size of a code: as many bytes as digits, capped by the limit. */
  function Size7Bit(v: nat, limit: nat): (n: nat)
    requires limit >= 2
    ensures 1 <= n <= limit
    ensures n == |Encode7Bit(v, limit)|
  {
    if Digits(v) < limit then DigitsBound(v, limit - 1); Digits(v) else DigitsBound(v, limit - 1); limit
  }

  lemma {:induction false} ParseBound(s: seq<byte>, limit: nat, acc: nat)
    requires limit >= 1
    ensures Parse7Bit(s, limit, acc).value < (acc + 1) * (2 * Pow128(limit))
  {
    var Parsed(b, rest) := Parse8(s);
    if limit > 1 {
      var p := 2 * Pow128(limit - 1);
      if b >= 128 {
        ParseBound(rest, limit - 1, acc * 128 + b % 128);
        Distribute(acc * 128 + b % 128 + 1, acc, p);
      } else {
        Distribute(128, acc, p);
      }
    }
  }

  lemma Distribute(a: nat, acc: nat, p: nat)
    requires a <= (acc + 1) * 128 && p >= 2
    ensures a * p <= (acc + 1) * (128 * p) && acc * 128 + 128 <= (acc + 1) * (128 * p)
  {
    assert (acc + 1) * (128 * p) == ((acc + 1) * 128) * p;
  }

  /** A 9-byte code is a 64-bit value. */
  lemma Parse7Is64Bits(s: seq<byte>)
    ensures Parse7Bit(s, 9).value < 0x1_0000_0000_0000_0000
  {
    ParseBound(s, 9, 0);
    CodableWidths(0x1_0000_0000_0000_0000);
  }

  // ---- The loops ---------------------------------------------------------------------------

  /** v >> bits */
  function Shr(v: nat, bits: nat): (r: nat)
  {
    if bits == 0 then v else Shr(v / 2, bits - 1)
  }

  lemma {:induction false} ShrShr(v: nat, a: nat, b: nat)
    ensures Shr(v, a + b) == Shr(Shr(v, a), b)
  {
    if a > 0 { ShrShr(v / 2, a - 1, b); }
  }

  lemma ShrByte(v: nat)
    ensures Shr(v, 7) == v / 128 && Shr(v, 8) == v / 256
  {
    var a := v / 2 / 2 / 2 / 2;
    assert a == v / 16;
    assert Shr(v, 3 + 4) == Shr(v / 2, 2 + 4) == Shr(v / 2 / 2, 1 + 4) == Shr(v / 2 / 2 / 2, 4) == Shr(a, 3);
    assert Shr(v, 4 + 4) == Shr(v / 2, 3 + 4) == Shr(v / 2 / 2, 2 + 4) == Shr(v / 2 / 2 / 2, 1 + 4) == Shr(a, 4);
    assert Shr(a, 3) == Shr(a / 2, 2) == Shr(a / 2 / 2, 1) == Shr(a / 2 / 2 / 2, 0) == a / 8;
    assert Shr(a, 4) == Shr(a / 2, 3) == Shr(a / 2 / 2, 2) == Shr(a / 2 / 2 / 2, 1) == Shr(a / 2 / 2 / 2 / 2, 0) == a / 16;
  }

  lemma Shr7(v: nat, bits: nat)
    ensures Shr(v, bits + 7) == Shr(v, bits) / 128
    ensures Shr(v, 7) == v / 128 && Shr(v, 8) == v / 256
  {
    ShrShr(v, bits, 7);
    ShrByte(Shr(v, bits));
    ShrByte(v);
  }

  lemma {:induction false} ShrDigits(v: nat, n: nat)
    ensures Shr(v, 7 * n) == 0 <==> v < Pow128(n)
  {
    if n > 0 {
      ShrShr(v, 7, 7 * (n - 1));
      Shr7(v, 0);
      ShrDigits(v / 128, n - 1);
    }
  }

  /** The search for the shift of the leading group: 7 bits for each digit after the first, and
      one more when the value needs every byte. */
  method LeadingShift(v: nat, limit: nat) returns (bits: nat, ghost n: nat)
    requires limit >= 3
    ensures v >= Pow128(limit - 1) ==> n == limit - 1 && bits == 7 * n + 1
    ensures v < Pow128(limit - 1) ==> n == Digits(v) - 1 && bits == 7 * n
  {
    bits, n := (limit - 1) * 7 + 1, limit - 1;
    ShrDigits(v, limit - 1);
    if Shr(v, bits - 1) == 0 {
      bits, n := bits - 8, n - 1;
      while Shr(v, bits) == 0
        invariant bits == 7 * n && 1 <= n
        invariant v < Pow128(n + 1)
        decreases n
      {
        ShrDigits(v, n);
        bits, n := bits - 7, n - 1;
        if bits == 0 { break; }
      }
      if n > 0 { ShrDigits(v, n); DigitsBound(v, n); }
      DigitsBound(v, n + 1);
    }
  }

  /** The bytes appended by `write7Bit`: the groups from the leading one downwards, then the last
      byte, which keeps eight bits when one bit of shift is left. */
  method Write7Bit(v: nat, limit: nat) returns (s: seq<byte>)
    requires limit >= 3
    ensures s == Encode7Bit(v, limit)
  {
    ghost var n;
    var bits;
    bits, n := LeadingShift(v, limit);
    ghost var odd := bits - 7 * n;
    s := [];
    while bits > 1
      invariant 0 <= |s| <= n && (odd == 0 || odd == 1)
      invariant bits == 7 * (n - |s|) + odd
      invariant s == Groups(Shr(v, bits + 7), |s|)
      decreases bits
    {
      Shr7(v, bits);
      s := s + [128 + Shr(v, bits) % 128];
      bits := bits - 7;
    }
    Shr7(v, 0);
    s := s + [if bits != 0 then v % 256 else v % 128];
  }

  method Get7BitSize(v: nat, limit: nat) returns (n: nat)
    requires limit >= 2 && Codable(v, limit)
    ensures n == |Encode7Bit(v, limit)|
  {
    n := 1;
    var value: nat := v / 128;
    while value != 0
      invariant 1 <= n <= limit
      invariant Digits(v) == if value == 0 then n else n + Digits(value)
      decreases value
    {
      var within := n < limit;
      n := n + 1;
      if !within { break; }
      value := value / 128;
    }
    DigitsBound(v, limit - 1);
    DigitsBound(v, limit + 1);
    DigitsBound(v, limit);
    n := n - (if value != 0 then 1 else 0);
  }
}
