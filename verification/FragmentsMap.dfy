/** The map of available fragments, as one peer writes it (GroupMedia::updateFragmentMap) and
    another reads it (PeerMedia::handleFragmentsMap, PeerMedia::hasFragment). */
module FragmentsMap {
  import opened Bytes
  import opened OrderedMap
  import opened SevenBit

  const GROUP_FRAGMENTS_MAP: byte := 0x22

  predicate Available(fragments: set<nat>, first: nat, id: int) {
    id >= first && id in fragments
  }

  /** Bits k to 7 of the byte that starts at an index: bit k tells the fragment k before it. */
  function MapBits(fragments: set<nat>, first: nat, index: int, k: nat): (v: nat)
    requires k <= 8
    ensures v < Pow2(8 - k)
    decreases 8 - k
  {
    if k == 8 then 0
    else (if Available(fragments, first, index - k) then 1 else 0) + 2 * MapBits(fragments, first, index, k + 1)
  }

  function MapByte(fragments: set<nat>, first: nat, index: int): byte {
    Pow2Words();
    MapBits(fragments, first, index, 0)
  }

  lemma BitStep(v: nat, low: bool, i: nat)
    ensures Bit((if low then 1 else 0) + 2 * v, i) <==> if i == 0 then low else Bit(v, i - 1)
  {
    assert ((if low then 1 else 0) + 2 * v) / 2 == v;
  }

  lemma {:induction false} MapBitsTell(fragments: set<nat>, first: nat, index: int, k: nat, i: nat)
    requires k <= i < 8
    ensures Bit(MapBits(fragments, first, index, k), i - k) <==> Available(fragments, first, index - i)
    decreases i - k
  {
    hide MapBits, Bit, Available;
    MapBitsStep(fragments, first, index, k);
    BitStep(MapBits(fragments, first, index, k + 1), Available(fragments, first, index - k), i - k);
    if k < i { MapBitsTell(fragments, first, index, k + 1, i); }
  }

  /** One byte for eight fragments, from an index downwards. */
  function MapBytes(fragments: set<nat>, first: nat, index: int): seq<byte>
    decreases index
  {
    if index < first || index < 8 then []
    else [MapByte(fragments, first, index)] + MapBytes(fragments, first, index - 8)
  }

  /** The bytes the map needs: one bit for each fragment before the last one. */
  function MapSize(first: nat, last: nat): nat
    requires first <= last
  {
    (last - first) / 8 + if (last - first) % 8 > 0 then 1 else 0
  }

  lemma MapSizeStep(first: nat, index: nat)
    requires first <= index
    ensures MapSize(first, index + 1) == 1 + if index < first + 8 then 0 else MapSize(first, index - 7)
  {
  }

  /** The loop stops at 8: it writes the whole map if and only if no byte starts between the first
      fragment and 8. In particular it does when the first fragment is at least 8. */
  lemma {:induction false} MapWritten(fragments: set<nat>, first: nat, index: nat)
    requires first <= index
    ensures |MapBytes(fragments, first, index)| == MapSize(first, index + 1) <==> index % 8 < first
    ensures |MapBytes(fragments, first, index)| <= MapSize(first, index + 1)
    decreases index
  {
    hide MapByte, MapSize;
    MapSizeStep(first, index);
    EightBefore(index);
    if index >= first + 8 { MapWritten(fragments, first, index - 8); }
  }

  lemma EightBefore(index: nat)
    ensures index < 8 ==> index % 8 == index
    ensures index >= 8 ==> (index - 8) % 8 == index % 8
  {
  }

  lemma {:induction false} MapByteAt(fragments: set<nat>, first: nat, index: int, j: nat)
    requires j < |MapBytes(fragments, first, index)|
    ensures MapBytes(fragments, first, index)[j] == MapByte(fragments, first, index - 8 * j)
    decreases j
  {
    hide MapByte;
    if j > 0 { MapByteAt(fragments, first, index - 8, j - 1); }
  }

  // ---- The writer --------------------------------------------------------------------------

  /** The bits of one byte. */
  method WriteByte(fragments: set<nat>, first: nat, index: nat) returns (currentByte: byte)
    requires index >= 8
    ensures currentByte == MapByte(fragments, first, index)
  {
    var value, weight := 0, 1;
    var fragment := 0;
    while fragment < 8 && index - fragment >= first
      invariant fragment <= 8 && weight == Pow2(fragment)
      invariant value + weight * MapBits(fragments, first, index, fragment) == MapBits(fragments, first, index, 0)
      decreases 8 - fragment
    {
      ghost var rest := MapBits(fragments, first, index, fragment + 1);
      Weigh(weight, if Available(fragments, first, index - fragment) then 1 else 0, rest);
      if index - fragment in fragments { value := value + weight; }
      weight := 2 * weight;
      fragment := fragment + 1;
    }
    NoneBelow(fragments, first, index, fragment);
    assert weight * 0 == 0;
    ghost var whole := MapByte(fragments, first, index);
    currentByte := value;
  }

  lemma Weigh(weight: nat, bit: nat, rest: nat)
    ensures weight * (bit + 2 * rest) == weight * bit + (2 * weight) * rest
  {
  }

  lemma {:induction false} NoneBelow(fragments: set<nat>, first: nat, index: int, k: nat)
    requires k <= 8 && (k == 8 || index - k < first)
    ensures MapBits(fragments, first, index, k) == 0
    decreases 8 - k
  {
    if k < 8 { NoneBelow(fragments, first, index, k + 1); }
  }

  /** The publisher's own way: it has every fragment. */
  method WriteOnes(count: nat) returns (bytes: seq<byte>)
    requires count >= 1
    ensures bytes == Ones(count)
  {
    bytes := [];
    var nbFragments := count;
    while nbFragments > 8
      invariant nbFragments >= 1 && bytes + Ones(nbFragments) == Ones(count)
    {
      assert Ones(nbFragments) == [0xFF] + Ones(nbFragments - 8);
      assert (bytes + [0xFF]) + Ones(nbFragments - 8) == bytes + ([0xFF] + Ones(nbFragments - 8));
      bytes := bytes + [0xFF];
      nbFragments := nbFragments - 8;
    }
    var lastByte := OnesByte(nbFragments);
    bytes := bytes + [lastByte];
  }

  method OnesByte(count: nat) returns (lastByte: byte)
    requires 1 <= count <= 8
    ensures Ones(count) == [lastByte]
  {
    var value, nbFragments := 1, count - 1;
    while nbFragments > 0
      invariant nbFragments <= count - 1 && value == Pow2(count - nbFragments) - 1
    {
      value := 2 * value + 1;
      nbFragments := nbFragments - 1;
    }
    OnesFit(count);
    lastByte := value;
  }

  lemma OnesFit(n: nat)
    requires n <= 8
    ensures Pow2(n) <= 256
  {
    Pow2Words();
    if n < 8 { Pow2Increases(n, 8); }
  }

  function Ones(count: nat): seq<byte>
    requires count >= 1
  {
    if count <= 8 then OnesFit(count); [Pow2(count) - 1] else [0xFF] + Ones(count - 8)
  }

  lemma {:induction false} AllBits(fragments: set<nat>, first: nat, index: nat, k: nat, n: nat)
    requires k <= n <= 8 && first + n <= index + 1 && (n == 8 || first + n == index + 1)
    requires forall id :: first <= id <= index ==> id in fragments
    ensures MapBits(fragments, first, index, k) == Pow2(n - k) - 1
    decreases n - k
  {
    hide MapBits, Pow2;
    if k == n {
      NoneBelow(fragments, first, index, k);
    } else {
      assert index - k in fragments;
      AllBits(fragments, first, index, k + 1, n);
      MapBitsStep(fragments, first, index, k);
    }
    Pow2Step(n - k);
  }

  lemma Pow2Step(n: nat)
    ensures Pow2(n) == if n == 0 then 1 else 2 * Pow2(n - 1)
  {
  }

  lemma MapBitsStep(fragments: set<nat>, first: nat, index: int, k: nat)
    requires k < 8
    ensures MapBits(fragments, first, index, k)
         == (if Available(fragments, first, index - k) then 1 else 0) + 2 * MapBits(fragments, first, index, k + 1)
  {
  }

  /** On a contiguous set both ways write the same bytes. */
  lemma {:induction false} PublisherAgrees(fragments: set<nat>, first: nat, index: nat)
    requires first <= index && index % 8 < first
    requires forall id :: first <= id <= index ==> id in fragments
    ensures MapBytes(fragments, first, index) == Ones(index + 1 - first)
    decreases index
  {
    hide MapBits, Pow2;
    var n := if index + 1 - first <= 8 then index + 1 - first else 8;
    AllBits(fragments, first, index, 0, n);
    Pow2Words();
    var rest := MapBytes(fragments, first, index - 8);
    if index + 1 - first > 8 {
      assert (index - 8) % 8 == index % 8;
      PublisherAgrees(fragments, first, index - 8);
    }
  }

  lemma {:induction false} Greatest(keys: set<nat>) returns (k: nat)
    requires keys != {}
    ensures k in keys && forall j :: j in keys ==> j <= k
  {
    var m :| m in keys;
    var rest := keys - {m};
    k := m;
    if rest != {} {
      var r := Greatest(rest);
      if r > m { k := r; }
    }
    forall j | j in keys ensures j <= k {
      assert j == m || j in rest;
    }
  }

  lemma HasGreatest(keys: set<nat>)
    requires keys != {}
    ensures exists k :: k in keys && forall j :: j in keys ==> j <= k
  {
    var k := Greatest(keys);
  }

  function Last(keys: set<nat>): (k: nat)
    requires keys != {}
    ensures k in keys && forall j :: j in keys ==> j <= k
  {
    HasGreatest(keys);
    var k :| k in keys && forall j :: j in keys ==> j <= k;
    k
  }

  function Bitmap(fragments: set<nat>): seq<byte>
    requires fragments != {}
  {
    if First(fragments) == Last(fragments) then []
    else MapBytes(fragments, First(fragments), Last(fragments) - 1)
  }

  /** The bitmap as it is sent: its buffer is resized to the size of the whole map and filled from
      the front, so a byte that is not written is what the buffer held. */
  function Sent(fragments: set<nat>, held: seq<byte>): (bytes: seq<byte>)
    requires fragments != {} && |held| == MapSize(First(fragments), Last(fragments))
    ensures |bytes| == |held|
  {
    BitmapFits(fragments);
    Bitmap(fragments) + held[|Bitmap(fragments)|..]
  }

  lemma BitmapFits(fragments: set<nat>)
    requires fragments != {}
    ensures |Bitmap(fragments)| <= MapSize(First(fragments), Last(fragments))
  {
    hide MapBytes, MapSize;
    if First(fragments) < Last(fragments) {
      MapWritten(fragments, First(fragments), Last(fragments) - 1);
    }
  }

  lemma {:induction false} OnesSize(first: nat, last: nat)
    requires first < last
    ensures |Ones(last - first)| == MapSize(first, last)
    decreases last
  {
    if last - first > 8 { OnesSize(first, last - 8); }
  }

  /** GroupMedia::updateFragmentMap, for a media that is not closed. */
  method UpdateFragmentMap(fragments: set<nat>, isPublisher: bool, held: seq<byte>) returns (message: seq<byte>)
    requires fragments != {} && Last(fragments) < 0x1_0000_0000_0000_0000
    requires |held| == MapSize(First(fragments), Last(fragments))
    requires isPublisher ==> forall id :: First(fragments) <= id <= Last(fragments) ==> id in fragments
    ensures var first, last := First(fragments), Last(fragments);
      message == [GROUP_FRAGMENTS_MAP] + Encode7Bit(last, 9)
               + (if first == last then [] else if isPublisher then Ones(last - first) else Sent(fragments, held))
  {
    hide Encode7Bit, MapByte, MapSize;
    var firstFragment, lastFragment := First(fragments), Last(fragments);
    var nbFragments := lastFragment - firstFragment;
    var id := Write7Bit(lastFragment, 9);
    message := [GROUP_FRAGMENTS_MAP] + id;
    if nbFragments == 0 { return; }
    var bits: seq<byte> := [];
    if isPublisher {
      bits := WriteOnes(nbFragments);
      OnesSize(firstFragment, lastFragment);
    } else {
      bits := WriteBits(fragments, firstFragment, lastFragment);
      BitmapFits(fragments);
    }
    message := message + (bits + held[|bits|..]);
    assert isPublisher ==> bits + held[|bits|..] == bits;
  }

  /** The loop over the bytes, from the last fragment but one downwards. */
  method WriteBits(fragments: set<nat>, firstFragment: nat, lastFragment: nat) returns (bits: seq<byte>)
    requires fragments != {} && firstFragment == First(fragments) < lastFragment == Last(fragments)
    ensures bits == Bitmap(fragments)
  {
    hide MapByte;
    bits := [];
    var index: int := lastFragment - 1;
    while index >= firstFragment && index >= 8
      invariant index >= -1
      invariant bits + MapBytes(fragments, firstFragment, index) == Bitmap(fragments)
      decreases index
    {
      var currentByte := WriteByte(fragments, firstFragment, index);
      ghost var rest := MapBytes(fragments, firstFragment, index - 8);
      assert (bits + [currentByte]) + rest == bits + ([currentByte] + rest);
      bits := bits + [currentByte];
      index := index - 8;
    }
    assert bits + [] == bits;
  }

  // ---- The reader --------------------------------------------------------------------------

  class PeerMedia {
    var idFragmentsMapIn: nat
    var fragmentsMap: seq<byte>

    constructor ()
      ensures idFragmentsMapIn == 0 && fragmentsMap == []
    {
      idFragmentsMapIn, fragmentsMap := 0, [];
    }

    /** The publisher ignores maps; otherwise one older than the last is ignored, and one without
        bytes moves the id alone. */
    method HandleFragmentsMap(isPublisher: bool, id: nat, data: seq<byte>)
      modifies this
      ensures var newer := !isPublisher && id > old(idFragmentsMapIn);
        && idFragmentsMapIn == (if newer then id else old(idFragmentsMapIn))
        && fragmentsMap == if newer && data != [] then data else old(fragmentsMap)
    {
      if isPublisher || id <= idFragmentsMapIn { return; }
      idFragmentsMapIn := id;
      if data == [] { return; }
      fragmentsMap := data;
    }

    /** Whether the peer has this fragment; None when the byte just after the map is looked at. */
    method HasFragment(index: nat) returns (has: Option<bool>)
      ensures has == Has(idFragmentsMapIn, fragmentsMap, index)
    {
      if idFragmentsMapIn == 0 || idFragmentsMapIn < index { return Some(false); }
      if idFragmentsMapIn == index { return Some(true); }
      var offset := (idFragmentsMapIn - index - 1) / 8 % 0x1_0000_0000;
      var rest := (idFragmentsMapIn - index - 1) % 8;
      if offset > |fragmentsMap| { return Some(false); }
      if offset == |fragmentsMap| { return None; }
      has := Some(Bit(fragmentsMap[offset], rest));
    }
  }

  function Has(id: nat, bytes: seq<byte>, index: nat): Option<bool> {
    if id == 0 || id < index then Some(false)
    else if id == index then Some(true)
    else
      var offset := (id - index - 1) / 8 % 0x1_0000_0000;
      if offset > |bytes| then Some(false)
      else if offset == |bytes| then None
      else Some(Bit(bytes[offset], (id - index - 1) % 8))
  }

  /** No offset of so many bits exceeds 32 bits. */
  predicate Near(last: nat, i: nat) {
    last <= i + 0x8_0000_0000
  }

  /** What the writer would answer; there is no answer in the byte after a map of this size. */
  function Truth(fragments: set<nat>, last: nat, size: nat, i: nat): Option<bool> {
    if i < last && (last - i - 1) / 8 == size then None else Some(i in fragments)
  }

  /** For every fragment, earlier or later than the map ones included, the answer is whether the
      writer has it. */
  ghost predicate Agrees(fragments: set<nat>, held: seq<byte>)
    requires fragments != {} && |held| == MapSize(First(fragments), Last(fragments))
  {
    forall i: nat :: Near(Last(fragments), i) ==>
      Has(Last(fragments), Sent(fragments, held), i) == Truth(fragments, Last(fragments), |held|, i)
  }

  lemma WholeAgrees(fragments: set<nat>, held: seq<byte>, i: nat)
    requires fragments != {} && First(fragments) < Last(fragments) && Last(fragments) - First(fragments) < 0x1_0000_0000
    requires |held| == MapSize(First(fragments), Last(fragments))
    requires (Last(fragments) - 1) % 8 < First(fragments) && Near(Last(fragments), i)
    ensures Has(Last(fragments), Sent(fragments, held), i) == Truth(fragments, Last(fragments), |held|, i)
  {
    hide MapBytes, MapByte, MapBits, Bit, MapSize;
    var first, last := First(fragments), Last(fragments);
    MapWritten(fragments, first, last - 1);
    assert Sent(fragments, held) == Bitmap(fragments);
    if i < last {
      var j, k := (last - i - 1) / 8, (last - i - 1) % 8;
      OffsetFits(first, last, i);
      if j < |held| {
        MapByteAt(fragments, first, last - 1, j);
        ByteTells(fragments, first, last - 1 - 8 * j, k);
      }
    }
  }

  /** When the loop leaves a byte out, the first fragment is one it should have told. */
  lemma FirstLost(fragments: set<nat>, held: seq<byte>)
    requires fragments != {} && First(fragments) < Last(fragments) && Last(fragments) - First(fragments) < 0x1_0000_0000
    requires |held| == MapSize(First(fragments), Last(fragments)) && held[|held| - 1] == 0
    requires (Last(fragments) - 1) % 8 >= First(fragments)
    ensures Has(Last(fragments), Sent(fragments, held), First(fragments)) == Some(false)
  {
    hide MapBytes, MapByte, MapBits, Bit;
    var first, last := First(fragments), Last(fragments);
    MapWritten(fragments, first, last - 1);
    Inside(first, last, first);
    var bytes := Sent(fragments, held);
    assert (last - first - 1) / 8 == |bytes| - 1;
    assert bytes[|bytes| - 1] == held[|held| - 1];
    NoBit((last - first - 1) % 8);
  }

  /** The peer that receives a map answers for every fragment exactly as the peer that wrote it would,
      whatever the buffer held before, if and only if no byte of the
      map starts below the id 8. */
  lemma MapAgrees(fragments: set<nat>)
    requires fragments != {} && First(fragments) < Last(fragments) && Last(fragments) - First(fragments) < 0x1_0000_0000
    ensures (forall held: seq<byte> :: |held| == MapSize(First(fragments), Last(fragments)) ==> Agrees(fragments, held))
       <==> (Last(fragments) - 1) % 8 < First(fragments)
  {
    hide MapSize, Sent, Has;
    var first, last := First(fragments), Last(fragments);
    if (last - 1) % 8 < first {
      forall held: seq<byte> | |held| == MapSize(first, last) ensures Agrees(fragments, held) {
        forall i: nat | Near(last, i) ensures Has(last, Sent(fragments, held), i) == Truth(fragments, last, |held|, i) {
          WholeAgrees(fragments, held, i);
        }
      }
    } else {
      Inside(first, last, first);
      var held := Repeated(0, MapSize(first, last));
      FirstLost(fragments, held);
      assert Near(last, first) && Truth(fragments, last, |held|, first) == Some(true);
      assert !Agrees(fragments, held);
    }
  }

  /** A peer that has the fragments 1 to 3 and whose buffer was empty: the first is not told. */
  lemma LowIdsLost()
    ensures var fragments: set<nat> := {1, 2, 3};
      && First(fragments) == 1 && Last(fragments) == 3 && MapSize(1, 3) == 1
      && Has(3, Sent(fragments, [0]), 1) == Some(false)
  {
    hide Has, Sent;
    var fragments: set<nat> := {1, 2, 3};
    FirstLost(fragments, [0]);
  }

  lemma ByteTells(fragments: set<nat>, first: nat, index: int, k: nat)
    requires k < 8
    ensures Bit(MapByte(fragments, first, index), k) <==> Available(fragments, first, index - k)
  {
    MapBitsTell(fragments, first, index, 0, k);
  }

  lemma Inside(first: nat, last: nat, i: nat)
    requires first <= i < last && last - first < 0x1_0000_0000
    ensures var j := (last - i - 1) / 8;
      j < MapSize(first, last) && j % 0x1_0000_0000 == j && last - 1 - 8 * j - (last - i - 1) % 8 == i
  {
  }

  lemma OffsetFits(first: nat, last: nat, i: nat)
    requires first < last && i < last && Near(last, i)
    ensures var j := (last - i - 1) / 8;
      && j % 0x1_0000_0000 == j && last - 1 - 8 * j - (last - i - 1) % 8 == i && (j >= MapSize(first, last) ==> i < first)
  {
  }

  /** The message carries the id and the bytes. */
  lemma MessageDecodes(last: nat, bytes: seq<byte>)
    requires last < 0x1_0000_0000_0000_0000
    ensures var message := [GROUP_FRAGMENTS_MAP] + Encode7Bit(last, 9) + bytes;
      Parse8(message) == Parsed(GROUP_FRAGMENTS_MAP, message[1..]) && Parse7Bit(message[1..], 9) == Parsed(last, bytes)
  {
    hide Encode7Bit, Parse7Bit;
    var message := [GROUP_FRAGMENTS_MAP] + Encode7Bit(last, 9) + bytes;
    CodableWidths(last);
    RoundTrip7Bit(last, 9, bytes);
    assert message[1..] == Encode7Bit(last, 9) + bytes;
  }
}
