/** The fragments a NetGroup publisher makes of its media packets (GroupMedia::onMedia). */
module GroupFragments {
  import opened Bytes

  const NETGROUP_MAX_PACKET_SIZE := 959

  datatype Marker = Data | Start | Next | End

  datatype Media = Media(kind: byte, time: nat, payload: seq<byte>)

  datatype Fragment = Fragment(marker: Marker, splittedId: byte, kind: byte, time: nat, payload: seq<byte>)

  /** How many fragments follow the first, as its 8-bit counter holds it. */
  function SplitCount(size: nat): byte
    requires size > 0
  {
    (size / NETGROUP_MAX_PACKET_SIZE - (if size % NETGROUP_MAX_PACKET_SIZE == 0 then 1 else 0)) % 256
  }

  function MarkerAt(size: nat, i: nat, left: nat): Marker {
    if size <= NETGROUP_MAX_PACKET_SIZE then Data else if left == 0 then End else if i == 0 then Start else Next
  }

  function PartAt(payload: seq<byte>, i: nat, left: nat): seq<byte>
    requires i * NETGROUP_MAX_PACKET_SIZE <= |payload|
    requires left > 0 ==> (i + 1) * NETGROUP_MAX_PACKET_SIZE <= |payload|
  {
    var rest := payload[i * NETGROUP_MAX_PACKET_SIZE..];
    if left > 0 then rest[..NETGROUP_MAX_PACKET_SIZE] else rest
  }

  lemma PartFits(size: nat, i: nat)
    requires size > 0 && i <= SplitCount(size)
    ensures i * NETGROUP_MAX_PACKET_SIZE <= size
    ensures i < SplitCount(size) ==> (i + 1) * NETGROUP_MAX_PACKET_SIZE <= size
  {
  }

  function FragmentAt(m: Media, i: nat): Fragment
    requires m.payload != [] && i <= SplitCount(|m.payload|)
  {
    var size := |m.payload|;
    var left := SplitCount(size) - i;
    PartFits(size, i);
    Fragment(MarkerAt(size, i, left), left, m.kind, m.time, PartAt(m.payload, i, left))
  }

  function Split(m: Media): (fragments: seq<Fragment>)
    requires m.payload != []
    ensures |fragments| == SplitCount(|m.payload|) as int + 1
  {
    seq(SplitCount(|m.payload|) as int + 1, i requires 0 <= i <= SplitCount(|m.payload|) as int => FragmentAt(m, i))
  }

  /** The splitting loop: nothing is made of an empty packet. */
  method OnMedia(m: Media) returns (fragments: seq<Fragment>)
    ensures fragments == if m.payload == [] then [] else Split(m)
  {
    hide FragmentAt;
    fragments := [];
    var size := |m.payload|;
    if size == 0 { return; }
    var splitCounter: int := SplitCount(size);
    var position := 0;
    ghost var count: nat := SplitCount(size);
    while splitCounter >= 0
      invariant -1 <= splitCounter == count - |fragments|
      invariant splitCounter >= 0 ==> position == |fragments| * NETGROUP_MAX_PACKET_SIZE
      invariant fragments == Split(m)[..|fragments|]
    {
      PartFits(size, |fragments|);
      var marker :=
        if size <= NETGROUP_MAX_PACKET_SIZE then Data
        else if splitCounter == 0 then End
        else if position == 0 then Start
        else Next;
      var fragmentSize := if splitCounter > 0 then NETGROUP_MAX_PACKET_SIZE else size - position;
      var fragment := Fragment(marker, splitCounter, m.kind, m.time, m.payload[position..position + fragmentSize]);
      assert fragment == FragmentAt(m, |fragments|) by { AtPosition(m, |fragments|, position, fragmentSize); }
      fragments := fragments + [fragment];
      position := position + fragmentSize;
      splitCounter := splitCounter - 1;
    }
  }

  lemma AtPosition(m: Media, i: nat, position: nat, size: nat)
    requires m.payload != [] && i <= SplitCount(|m.payload|) && position == i * NETGROUP_MAX_PACKET_SIZE
    requires size == if i < SplitCount(|m.payload|) then NETGROUP_MAX_PACKET_SIZE else |m.payload| - position
    ensures position + size <= |m.payload| && (position == 0 <==> i == 0)
    ensures FragmentAt(m, i)
         == Fragment(MarkerAt(|m.payload|, i, SplitCount(|m.payload|) - i), SplitCount(|m.payload|) - i, m.kind, m.time,
                     m.payload[position..position + size])
  {
    PartFits(|m.payload|, i);
  }

  /** The fragments concatenate to the packet, whatever its size. */
  function Payload(fragments: seq<Fragment>): seq<byte> {
    if fragments == [] then [] else Payload(fragments[..|fragments| - 1]) + fragments[|fragments| - 1].payload
  }

  lemma {:induction false} SplitPrefix(m: Media, j: nat)
    requires m.payload != [] && j <= SplitCount(|m.payload|)
    ensures j * NETGROUP_MAX_PACKET_SIZE <= |m.payload|
    ensures Payload(Split(m)[..j]) == m.payload[..j * NETGROUP_MAX_PACKET_SIZE]
  {
    hide SplitCount;
    PartFits(|m.payload|, j);
    if j > 0 {
      SplitPrefix(m, j - 1);
      PartFits(|m.payload|, j - 1);
      assert Split(m)[..j][..j - 1] == Split(m)[..j - 1];
    }
  }

  lemma SplitJoins(m: Media)
    requires m.payload != []
    ensures Payload(Split(m)) == m.payload
  {
    hide SplitCount;
    var k := SplitCount(|m.payload|);
    SplitPrefix(m, k);
    PartFits(|m.payload|, k);
    assert Split(m)[..|Split(m)| - 1] == Split(m)[..k];
  }

  /** No fragment is empty and all but the last are as large as they may be; the last one is no larger
      if and only if the packet has at most 256 times that size. */
  lemma SplitSizes(m: Media, i: nat)
    requires m.payload != [] && i < |Split(m)|
    ensures i < |Split(m)| - 1 ==> |Split(m)[i].payload| == 959
    ensures i == |Split(m)| - 1 ==> (1 <= |Split(m)[i].payload| <= 959 <==> |m.payload| <= 959 * 256)
    ensures |Split(m)[i].payload| >= 1
  {
    PartFits(|m.payload|, i);
  }

  /** The packets whose number of fragments the 8-bit fields can tell: one, or 2 to 255. */
  predicate Mergeable(m: Media) {
    && m.payload != [] && SplitCount(|m.payload|) < 255
    && (|m.payload| <= NETGROUP_MAX_PACKET_SIZE <==> SplitCount(|m.payload|) == 0)
  }

  lemma SmallMergeable(m: Media)
    requires 0 < |m.payload| <= NETGROUP_MAX_PACKET_SIZE * 255
    ensures Mergeable(m)
  {
  }

  // ---- A publisher's whole stream ----------------------------------------------------------

  predicate AllMergeable(packets: seq<Media>) {
    forall p :: 0 <= p < |packets| ==> Mergeable(packets[p])
  }

  /** Every fragment of the stream; the one at index i has id i + 1. */
  function Publish(packets: seq<Media>): seq<Fragment>
    requires AllMergeable(packets)
  {
    if packets == [] then []
    else Publish(packets[..|packets| - 1]) + Split(packets[|packets| - 1])
  }

  /** The id of the last fragment of the first p packets. */
  function LastId(packets: seq<Media>, p: nat): nat
    requires AllMergeable(packets) && p <= |packets|
  {
    |Publish(packets[..p])|
  }

  lemma {:induction false} PublishPrefix(packets: seq<Media>, p: nat)
    requires AllMergeable(packets) && p <= |packets|
    ensures LastId(packets, p) <= |Publish(packets)|
    ensures Publish(packets)[..LastId(packets, p)] == Publish(packets[..p])
  {
    hide Split, Mergeable;
    if p == |packets| {
      assert packets[..p] == packets;
    } else {
      var init := packets[..|packets| - 1];
      PublishPrefix(init, p);
      assert init[..p] == packets[..p];
    }
  }

  lemma PublishOne(packets: seq<Media>, p: nat)
    requires AllMergeable(packets) && p < |packets|
    ensures Publish(packets[..p + 1]) == Publish(packets[..p]) + Split(packets[p])
  {
    hide Split, Mergeable;
    assert packets[..p + 1][..p] == packets[..p];
  }

  /** Where packet p lies. */
  lemma PacketLies(packets: seq<Media>, p: nat)
    requires AllMergeable(packets) && p < |packets|
    ensures LastId(packets, p + 1) == LastId(packets, p) + |Split(packets[p])| <= |Publish(packets)|
    ensures Publish(packets)[LastId(packets, p)..LastId(packets, p + 1)] == Split(packets[p])
  {
    hide Split, Mergeable;
    PublishPrefix(packets, p + 1);
    PublishOne(packets, p);
    var t, e := LastId(packets, p), LastId(packets, p + 1);
    assert Publish(packets)[..e][t..] == Publish(packets)[t..e];
  }

  lemma {:induction false} Locate(packets: seq<Media>, k: nat) returns (p: nat)
    requires AllMergeable(packets) && 1 <= k <= |Publish(packets)|
    ensures p < |packets| && LastId(packets, p) < k <= LastId(packets, p + 1)
  {
    hide Split, Mergeable;
    assert packets != [];
    p := |packets| - 1;
    assert packets[..p + 1] == packets;
    if k <= LastId(packets, p) {
      var init := packets[..p];
      p := Locate(init, k);
      assert init[..p] == packets[..p] && init[..p + 1] == packets[..p + 1];
    }
  }

  lemma {:induction false} LastIdIncreases(packets: seq<Media>, p: nat, q: nat)
    requires AllMergeable(packets) && p < q <= |packets|
    ensures LastId(packets, p) < LastId(packets, q)
  {
    hide Mergeable;
    PacketLies(packets, q - 1);
    if p < q - 1 { LastIdIncreases(packets, p, q - 1); }
  }

  /** No packet, or the last fragment of one. */
  ghost predicate Boundary(packets: seq<Media>, k: nat)
    requires AllMergeable(packets)
  {
    exists p: nat :: p <= |packets| && LastId(packets, p) == k
  }

  /** A fragment in its packet. */
  lemma FragmentOf(packets: seq<Media>, p: nat, k: nat)
    requires AllMergeable(packets) && p < |packets| && LastId(packets, p) < k <= LastId(packets, p + 1)
    ensures k <= |Publish(packets)| && k - LastId(packets, p) - 1 <= SplitCount(|packets[p].payload|)
    ensures Publish(packets)[k - 1] == FragmentAt(packets[p], k - LastId(packets, p) - 1)
  {
    hide SplitCount, FragmentAt, Mergeable, Split, LastId, Publish;
    MergeableNotEmpty(packets[p]);
    PacketLies(packets, p);
    var t, e := LastId(packets, p), LastId(packets, p + 1);
    SplitAt(packets[p], k - t - 1);
    assert Publish(packets)[t..e][k - t - 1] == Publish(packets)[k - 1];
  }

  lemma SplitAt(m: Media, i: nat)
    requires m.payload != [] && i < |Split(m)|
    ensures i <= SplitCount(|m.payload|) && Split(m)[i] == FragmentAt(m, i)
  {
  }

  lemma MergeableNotEmpty(m: Media)
    requires Mergeable(m)
    ensures m.payload != []
  {
  }

  /** Exactly the fragments marked Data or Start begin a packet. */
  lemma MarkerTells(packets: seq<Media>, k: nat) returns (p: nat)
    requires AllMergeable(packets) && 1 <= k <= |Publish(packets)|
    ensures p < |packets| && LastId(packets, p) < k <= LastId(packets, p + 1)
    ensures var f := Publish(packets)[k - 1];
      && ((f.marker.Data? || f.marker.Start?) <==> k == LastId(packets, p) + 1)
      && ((f.marker.Data? || f.marker.Start?) <==> Boundary(packets, k - 1))
      && (f.marker.Data? ==> LastId(packets, p + 1) == k)
      && f.kind == packets[p].kind && f.time == packets[p].time
  {
    hide SplitCount, LastId;
    p := Locate(packets, k);
    FragmentOf(packets, p, k);
    PacketLies(packets, p);
    assert Mergeable(packets[p]);
    if k == LastId(packets, p) + 1 {
      assert Boundary(packets, k - 1);
    } else if Boundary(packets, k - 1) {
      var q: nat :| q <= |packets| && LastId(packets, q) == k - 1;
      if q > p + 1 { LastIdIncreases(packets, p + 1, q); }
      if q < p { LastIdIncreases(packets, q, p); }
    }
  }
}
