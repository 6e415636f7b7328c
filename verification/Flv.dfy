/** The FLV stream (Adobe FLV file format specification v10.1, Annex E) as Invoker::read prints it
    and Invoker::write parses it, both a piece at a time (sources/Invoker.cpp). */
module Flv {
  import opened Bytes

  datatype Media = Media(kind: byte, time: int, payload: seq<byte>)

  const TYPE_AUDIO: byte := 0x08
  const TYPE_VIDEO: byte := 0x09
  const TYPE_DATA: byte := 0x12

  /** "FLV", version 1, audio and video, then the size of this header and of no tag before. */
  const FlvHeader: seq<byte> := [0x46, 0x4C, 0x56, 1, 5, 0, 0, 0, 9, 0, 0, 0, 0]

  predicate IsTime(time: int) {
    0 <= time < 0x1_0000_0000
  }

  /** The 24-bit fields keep the low bits of what they are given. */
  function TagHeader(m: Media): (s: seq<byte>)
    requires IsTime(m.time)
    ensures |s| == 11
  {
    [m.kind] + (Be24(|m.payload| % 0x100_0000) + (Be24(m.time % 0x100_0000) + ([m.time / 0x100_0000] + Be24(0))))
  }

  function TagFooter(m: Media): (s: seq<byte>)
    ensures |s| == 4
  {
    Be32((11 + |m.payload|) % 0x1_0000_0000)
  }

  function Tag(m: Media): seq<byte>
    requires IsTime(m.time)
  {
    TagHeader(m) + (m.payload + TagFooter(m))
  }

  predicate AllTimed(ms: seq<Media>) {
    forall i :: 0 <= i < |ms| ==> IsTime(ms[i].time)
  }

  function Tags(ms: seq<Media>): seq<byte>
    requires AllTimed(ms)
  {
    if ms == [] then [] else Tag(ms[0]) + Tags(ms[1..])
  }

  lemma {:induction false} TagsSnoc(ms: seq<Media>, m: Media)
    requires AllTimed(ms) && IsTime(m.time)
    ensures AllTimed(ms + [m]) && Tags(ms + [m]) == Tags(ms) + Tag(m)
  {
    hide Tag;
    if ms == [] {
      assert (ms + [m])[1..] == [];
    } else {
      TagsSnoc(ms[1..], m);
      assert (ms + [m])[1..] == ms[1..] + [m];
    }
  }

  // ---- The parser --------------------------------------------------------------------------

  /** The packet being received, if its header was; `size` is what its payload lacks. `taken`
      counts the payload bytes ever received. */
  datatype WriteState = WriteState(open: Option<seq<byte>>, kind: byte, time: int, size: nat, taken: nat, pushed: seq<Media>)

  const NewWrite := WriteState(None, 0, 0, 0, 0, [])

  predicate Forwarded(kind: byte) {
    kind == TYPE_AUDIO || kind == TYPE_VIDEO || kind == TYPE_DATA
  }

  /** Other types are dropped. */
  function PushedOne(m: Media): seq<Media> {
    if Forwarded(m.kind) then [m] else []
  }

  function OpenPacket(w: WriteState, header: seq<byte>): WriteState
    requires |header| == 11
  {
    w.(open := Some([]), kind := header[0], size := Parse24(header[1..]).value,
       time := Parse24(header[4..]).value + (header[7] as int) * 0x100_0000)
  }

  function TakePart(w: WriteState, n: nat, part: seq<byte>): WriteState
    requires w.open.Some? && n <= w.size && |part| == n
  {
    w.(open := Some(w.open.value + part), size := w.size - n, taken := w.taken + n)
  }

  function Push(w: WriteState): WriteState
    requires w.open.Some?
  {
    w.(open := None,
       pushed := w.pushed + PushedOne(Media(w.kind, w.time, w.open.value)))
  }

  /** One turn of the loop; `more` when a packet was completed. */
  datatype Turn = Turn(state: WriteState, rest: seq<byte>, more: bool)

  /** The packet is complete once its payload and the size of its tag were received. */
  function Finish(w: WriteState, rest: seq<byte>): Turn
    requires w.open.Some?
  {
    if w.size > 0 || |rest| < 4 then Turn(w, rest, false) else Turn(Push(w), rest[4..], true)
  }

  function Resume(w: WriteState, data: seq<byte>): Turn
    requires w.open.Some?
  {
    var n := Min(w.size, |data|);
    Finish(TakePart(w, n, data[..n]), data[n..])
  }

  function OneTurn(w: WriteState, data: seq<byte>): Turn {
    if w.open.Some? then Resume(w, data)
    else if |data| < 11 then Turn(w, data, false)
    else Resume(OpenPacket(w, data[..11]), data[11..])
  }

  lemma TurnAdvances(w: WriteState, data: seq<byte>)
    ensures var t := OneTurn(w, data); t.more ==> |t.rest| < |data|
    ensures |OneTurn(w, data).rest| <= |data|
  {
  }

  datatype Fed = Fed(state: WriteState, rest: seq<byte>)

  /** The parsing loop: what it makes of these bytes, and those it leaves. */
  function Feed(w: WriteState, data: seq<byte>): Fed
    decreases |data|
  {
    if data == [] then Fed(w, [])
    else
      var t := OneTurn(w, data);
      TurnAdvances(w, data);
      if t.more then Feed(t.state, t.rest) else Fed(t.state, t.rest)
  }

  lemma ResumeMore(w: WriteState, a: seq<byte>, b: seq<byte>)
    requires w.open.Some? && Resume(w, a).more
    ensures Resume(w, a + b) == Turn(Resume(w, a).state, Resume(w, a).rest + b, true)
  {
    var n := w.size;
    assert (a + b)[..n] == a[..n];
    assert (a + b)[n..] == a[n..] + b;
    assert (a[n..] + b)[4..] == a[n..][4..] + b;
  }

  /** Its payload has come, or there is none: its end is waited for. */
  lemma ResumeWaits(w: WriteState, a: seq<byte>, b: seq<byte>)
    requires w.open.Some? && !Resume(w, a).more && w.size <= |a|
    ensures var t := Resume(w, a); t.state.open.Some? && Resume(w, a + b) == Resume(t.state, t.rest + b)
  {
    hide Finish;
    var n := w.size;
    assert (a + b)[..n] == a[..n] && (a + b)[n..] == a[n..] + b;
    var c := TakePart(w, n, a[..n]);
    assert Finish(c, a[n..]) == Turn(c, a[n..], false) by { Unfinished(c, a[n..]); }
    var rest := a[n..] + b;
    assert rest[..0] == [] && rest[0..] == rest && c.open.value + [] == c.open.value;
    assert TakePart(c, 0, []) == c;
  }

  lemma Unfinished(w: WriteState, rest: seq<byte>)
    requires w.open.Some? && !Finish(w, rest).more
    ensures Finish(w, rest) == Turn(w, rest, false)
  {
  }

  /** Part of its payload has come. */
  lemma ResumePart(w: WriteState, a: seq<byte>, b: seq<byte>)
    requires w.open.Some? && w.size > |a|
    ensures var t := Resume(w, a); t.state.open.Some? && Resume(w, a + b) == Resume(t.state, t.rest + b)
  {
    hide Finish;
    var n, k := |a|, Min(w.size - |a|, |b|);
    assert a[..n] == a && a[n..] == [];
    var c := TakePart(w, n, a);
    assert Finish(c, []) == Turn(c, [], false) by { Pending(c); }
    assert [] + b == b && Min(w.size, |a + b|) == n + k;
    assert (a + b)[..n + k] == a + b[..k] && (a + b)[n + k..] == b[k..];
    TakeTwice(w, a, b[..k]);
  }

  lemma TakeTwice(w: WriteState, a: seq<byte>, b: seq<byte>)
    requires w.open.Some? && |a| + |b| <= w.size
    ensures TakePart(TakePart(w, |a|, a), |b|, b) == TakePart(w, |a| + |b|, a + b)
  {
    assert (w.open.value + a) + b == w.open.value + (a + b);
  }

  lemma Pending(w: WriteState)
    requires w.open.Some?
    ensures Finish(w, []) == Turn(w, [], false)
  {
  }

  lemma ResumeStopped(w: WriteState, a: seq<byte>, b: seq<byte>)
    requires w.open.Some? && !Resume(w, a).more
    ensures var t := Resume(w, a); t.state.open.Some? && Resume(w, a + b) == Resume(t.state, t.rest + b)
  {
    hide Resume;
    if w.size <= |a| { ResumeWaits(w, a, b); } else { ResumePart(w, a, b); }
  }

  /** Completing a packet does not look beyond it; not completing it loses nothing. */
  lemma TurnCut(w: WriteState, a: seq<byte>, b: seq<byte>)
    ensures var t := OneTurn(w, a);
      if t.more then OneTurn(w, a + b) == Turn(t.state, t.rest + b, true)
      else OneTurn(w, a + b) == OneTurn(t.state, t.rest + b)
  {
    hide Resume, OpenPacket;
    if w.open.Some? {
      if Resume(w, a).more { ResumeMore(w, a, b); } else { ResumeStopped(w, a, b); }
    } else if |a| >= 11 {
      assert (a + b)[..11] == a[..11] && (a + b)[11..] == a[11..] + b;
      var o := OpenPacket(w, a[..11]);
      assert o.open.Some? by { Opens(w, a[..11]); }
      if Resume(o, a[11..]).more { ResumeMore(o, a[11..], b); } else { ResumeStopped(o, a[11..], b); }
    }
  }

  lemma Opens(w: WriteState, header: seq<byte>)
    requires |header| == 11
    ensures OpenPacket(w, header).open.Some?
  {
  }

  /** However the bytes are cut, with the ones left over presented again, the parser ends in the
      same state and leaves the same bytes. */
  lemma {:induction false} FeedCut(w: WriteState, a: seq<byte>, b: seq<byte>)
    ensures var f := Feed(w, a); Feed(f.state, f.rest + b) == Feed(w, a + b)
    decreases |a|
  {
    hide OneTurn;
    if a == [] {
      assert [] + b == a + b == b;
    } else {
      var t := OneTurn(w, a);
      TurnAdvances(w, a);
      TurnCut(w, a, b);
      if t.more {
        FeedCut(t.state, t.rest, b);
      } else if t.rest + b == [] {
        assert a + b == a;
      }
    }
  }

  /** What is presented at each call is what the last one left, and the next piece. */
  function FeedPieces(f: Fed, pieces: seq<seq<byte>>): Fed
    decreases |pieces|
  {
    if pieces == [] then f else FeedPieces(Feed(f.state, f.rest + pieces[0]), pieces[1..])
  }

  lemma {:induction false} FeedPiecesWhole(w: WriteState, before: seq<byte>, pieces: seq<seq<byte>>)
    ensures FeedPieces(Feed(w, before), pieces) == Feed(w, before + Concat(pieces))
    decreases |pieces|
  {
    hide Feed, Concat;
    if pieces == [] {
      assert before + Concat<byte>([]) == before by { NoPieces(); }
    } else {
      FeedCut(w, before, pieces[0]);
      FeedPiecesWhole(w, before + pieces[0], pieces[1..]);
      FirstPiece(pieces);
      assert before + (pieces[0] + Concat(pieces[1..])) == (before + pieces[0]) + Concat(pieces[1..]);
    }
  }

  lemma NoPieces()
    ensures Concat<byte>([]) == []
  {
  }

  lemma FirstPiece(pieces: seq<seq<byte>>)
    requires pieces != []
    ensures Concat(pieces) == pieces[0] + Concat(pieces[1..])
  {
    assert [pieces[0]] + pieces[1..] == pieces;
    ConcatAppend([pieces[0]], pieces[1..]);
    assert [] + [pieces[0]] == [pieces[0]];
    ConcatSnoc([], pieces[0]);
  }

  // ---- The round trip ----------------------------------------------------------------------

  function Pushed(ms: seq<Media>): seq<Media> {
    if ms == [] then [] else PushedOne(ms[0]) + Pushed(ms[1..])
  }

  predicate Printable(m: Media) {
    IsTime(m.time) && |m.payload| < 0x100_0000
  }

  lemma HeaderLayout(m: Media)
    requires IsTime(m.time)
    ensures var h := TagHeader(m);
      && h[0] == m.kind && h[1..] == Be24(|m.payload| % 0x100_0000) + h[4..]
      && h[4..] == Be24(m.time % 0x100_0000) + h[7..] && h[7] == m.time / 0x100_0000
  {
  }

  lemma HeaderOpens(w: WriteState, m: Media)
    requires Printable(m)
    ensures OpenPacket(w, TagHeader(m)) == w.(open := Some([]), kind := m.kind, time := m.time, size := |m.payload|)
  {
    hide Be24, TagHeader, Parse24;
    HeaderLayout(m);
    var h := TagHeader(m);
    RoundTrip24(|m.payload|, h[4..]);
    RoundTrip24(m.time % 0x100_0000, h[7..]);
  }

  /** A whole tag gives its packet and leaves what follows. */
  lemma TagPushed(w: WriteState, m: Media, rest: seq<byte>)
    requires w.open.None? && Printable(m)
    ensures var t := OneTurn(w, Tag(m) + rest);
      && t.more && t.rest == rest && t.state.open.None?
      && t.state.pushed == w.pushed + PushedOne(m)
  {
    hide TagHeader, OpenPacket, TagFooter;
    var data := Tag(m) + rest;
    assert data[..11] == TagHeader(m);
    assert data[11..] == m.payload + (TagFooter(m) + rest);
    HeaderOpens(w, m);
    var n := |m.payload|;
    assert data[11..][..n] == m.payload;
    assert data[11..][n..] == TagFooter(m) + rest;
    assert (TagFooter(m) + rest)[4..] == rest;
    assert [] + m.payload == m.payload;
  }

  lemma {:induction false} TagsPushed(w: WriteState, ms: seq<Media>)
    requires w.open.None? && forall i :: 0 <= i < |ms| ==> Printable(ms[i])
    ensures AllTimed(ms)
    ensures var f := Feed(w, Tags(ms));
      f.rest == [] && f.state.open.None? && f.state.pushed == w.pushed + Pushed(ms)
    decreases |ms|
  {
    hide Tag, OneTurn, Feed, PushedOne, Printable;
    forall i | 0 <= i < |ms| ensures IsTime(ms[i].time) { Times(ms[i]); }
    if ms == [] {
      FedNothing(w);
    } else {
      TagPushed(w, ms[0], Tags(ms[1..]));
      var t := OneTurn(w, Tags(ms));
      TagLength(ms[0]);
      FedTurn(w, Tags(ms));
      TagsPushed(t.state, ms[1..]);
      assert (w.pushed + PushedOne(ms[0])) + Pushed(ms[1..]) == w.pushed + Pushed(ms);
    }
  }

  lemma Times(m: Media)
    requires Printable(m)
    ensures IsTime(m.time)
  {
  }

  lemma FedNothing(w: WriteState)
    ensures Feed(w, []) == Fed(w, [])
  {
  }

  lemma FedTurn(w: WriteState, data: seq<byte>)
    requires data != [] && OneTurn(w, data).more
    ensures Feed(w, data) == Feed(OneTurn(w, data).state, OneTurn(w, data).rest)
  {
    hide OneTurn;
    TurnAdvances(w, data);
  }

  lemma TagLength(m: Media)
    requires IsTime(m.time)
    ensures |Tag(m)| > 0
  {
  }

  /** Exactly the packets of the audio, video and data types are handed over. */
  lemma {:induction false} PushedExactly(ms: seq<Media>)
    ensures forall m :: m in Pushed(ms) <==> m in ms && m.kind in {0x08, 0x09, 0x12}
    ensures (forall m :: m in ms ==> m.kind in {0x08, 0x09, 0x12}) ==> Pushed(ms) == ms
  {
    if ms != [] {
      PushedExactly(ms[1..]);
      assert ms == [ms[0]] + ms[1..];
      assert forall m :: m in ms <==> m == ms[0] || m in ms[1..];
    }
  }

  /** The size that follows a tag is that of the tag, and the field before its payload is 0. */
  lemma TagReads(m: Media, rest: seq<byte>)
    requires IsTime(m.time) && |m.payload| < 0x100_0000
    ensures var tag := Tag(m); var n := |m.payload| + 11;
      && |tag| == n + 4 && Parse32(tag[n..] + rest) == Parsed(n, rest)
      && Parse24(tag[8..]).value == 0 && tag[11..n] == m.payload
  {
    hide TagHeader, TagFooter, Be32, Parse32, Parse24;
    assert TagHeader(m)[8..] == Be24(0) by { HeaderEnds(m); }
    assert Tag(m)[8..] == TagHeader(m)[8..] + (m.payload + TagFooter(m));
    RoundTrip24(0, m.payload + TagFooter(m));
    FooterBytes(m);
    assert Tag(m)[|m.payload| + 11..] == TagFooter(m);
    RoundTrip32(|m.payload| + 11, rest);
  }

  lemma HeaderEnds(m: Media)
    requires IsTime(m.time)
    ensures TagHeader(m)[8..] == Be24(0)
  {
  }

  lemma FooterBytes(m: Media)
    ensures TagFooter(m) == Be32((11 + |m.payload|) % 0x1_0000_0000)
  {
  }

  /** What the header of the stream tells: the format and its version, that there is audio and video,
      its own size, and that of no tag before. */
  lemma HeaderTells(rest: seq<byte>)
    ensures var s := FlvHeader + rest;
      && s[..3] == ['F' as int, 'L' as int, 'V' as int] && s[3] == 1 && Bit(s[4], 0) && Bit(s[4], 2)
      && Parse32(s[5..]) == Parsed(9, s[9..]) && Parse32(s[9..]) == Parsed(0, rest)
  {
    var s := FlvHeader + rest;
    assert s[5..] == Be32(9) + s[9..];
    assert s[9..] == Be32(0) + rest;
    RoundTrip32(9, s[9..]);
    RoundTrip32(0, rest);
    FiveBits();
  }

  lemma FiveBits()
    ensures Bit(5, 0) && Bit(5, 2)
  {
    assert Bit(1, 0);
    assert Bit(2, 1);
  }

  /** Nothing pushed is taken back by later bytes. */
  lemma {:induction false} FeedExtends(w: WriteState, data: seq<byte>)
    ensures w.pushed <= Feed(w, data).state.pushed
    decreases |data|
  {
    hide OneTurn;
    if data != [] {
      var t := OneTurn(w, data);
      TurnAdvances(w, data);
      assert w.pushed <= t.state.pushed by { TurnExtends(w, data); }
      if t.more { FeedExtends(t.state, t.rest); }
    }
  }

  lemma TurnExtends(w: WriteState, data: seq<byte>)
    ensures w.pushed <= OneTurn(w, data).state.pushed
  {
  }

  function Stream(ms: seq<Media>): seq<byte>
    requires AllTimed(ms)
  {
    FlvHeader + Tags(ms)
  }

  lemma PrefixPushed(ms: seq<Media>, data: seq<byte>)
    requires forall i :: 0 <= i < |ms| ==> Printable(ms[i])
    requires AllTimed(ms) && data <= Tags(ms)
    ensures var f := Feed(NewWrite, data);
      && f.state.pushed <= Pushed(ms)
      && (data == Tags(ms) ==> f.state.pushed == Pushed(ms) && f.rest == [] && f.state.open.None?)
  {
    hide Feed, Tags, Pushed;
    var tail := Tags(ms)[|data|..];
    assert data + tail == Tags(ms);
    FeedCut(NewWrite, data, tail);
    var f := Feed(NewWrite, data);
    FeedExtends(f.state, f.rest + tail);
    TagsPushed(NewWrite, ms);
    assert [] + Pushed(ms) == Pushed(ms);
  }

  lemma AfterHeader(first: seq<byte>, more: seq<byte>, tags: seq<byte>)
    requires |first| >= 13 && first + more <= FlvHeader + tags
    ensures first[..13] == FlvHeader && first[13..] + more <= tags
    ensures first + more == FlvHeader + tags <==> first[13..] + more == tags
  {
    var whole := FlvHeader + tags;
    assert first + more == first[..13] + (first[13..] + more);
    assert whole[..13] == FlvHeader && whole[13..] == tags;
    assert whole[..|first + more|][..13] == (first + more)[..13] == first[..13];
    assert whole[..|first + more|][13..] == first[13..] + more;
    assert whole[..|first + more|][13..] == tags[..|first + more| - 13];
  }

  /** The stream of these packets, cut in any pieces the first of which holds its header, gives
      exactly the audio, video and data packets; cut short, it gives some of the first of them. */
  lemma RoundTrip(ms: seq<Media>, first: seq<byte>, pieces: seq<seq<byte>>)
    requires forall i :: 0 <= i < |ms| ==> Printable(ms[i])
    requires AllTimed(ms) && |first| >= 13 && first + Concat(pieces) <= Stream(ms)
    ensures first[..13] == FlvHeader
    ensures var f := FeedPieces(Feed(NewWrite, first[13..]), pieces);
      && f.state.pushed <= Pushed(ms)
      && (first + Concat(pieces) == Stream(ms) ==> f.state.pushed == Pushed(ms) && f.rest == [] && f.state.open.None?)
  {
    hide Feed, FeedPieces, Tags, Pushed, Concat;
    AfterHeader(first, Concat(pieces), Tags(ms));
    FeedPiecesWhole(NewWrite, first[13..], pieces);
    PrefixPushed(ms, first[13..] + Concat(pieces));
  }

  // ---- The printer -------------------------------------------------------------------------

  /** What happens to the printed stream: a packet joins it, or its next bytes are read. */
  datatype Step = Join(m: Media) | Take(bytes: seq<byte>)

  function Joined(steps: seq<Step>): seq<Media> {
    if steps == [] then []
    else Joined(steps[..|steps| - 1]) + match steps[|steps| - 1] { case Join(m) => [m] case Take(_) => [] }
  }

  function Taken(steps: seq<Step>): seq<byte> {
    if steps == [] then []
    else Taken(steps[..|steps| - 1]) + match steps[|steps| - 1] { case Join(_) => [] case Take(bytes) => bytes }
  }

  /** The bytes still to read, step by step, starting with the header of the stream. */
  predicate Conserves(pending: seq<seq<byte>>, steps: seq<Step>) {
    && |pending| == |steps| + 1 && pending[0] == FlvHeader
    && forall i :: 0 <= i < |steps| ==>
      match steps[i]
      case Join(m) => IsTime(m.time) && pending[i + 1] == pending[i] + Tag(m)
      case Take(bytes) => bytes + pending[i + 1] == pending[i]
  }

  /** What was read and what is left to read are the stream of the packets that joined it, whatever
      the sizes of the reads and their order with the packets. */
  lemma {:induction false} ReadsPrint(pending: seq<seq<byte>>, steps: seq<Step>, n: nat)
    requires Conserves(pending, steps) && n <= |steps|
    ensures AllTimed(Joined(steps[..n])) && Taken(steps[..n]) + pending[n] == Stream(Joined(steps[..n]))
  {
    hide Tag, Tags, Joined, Taken;
    if n == 0 {
      assert steps[..0] == [];
      NoSteps();
    } else {
      ReadsPrint(pending, steps, n - 1);
      LastStep(steps, n);
      ConservesAt(pending, steps, n - 1);
      var before := Taken(steps[..n - 1]);
      match steps[n - 1]
      case Join(m) =>
        var ms := Joined(steps[..n - 1]);
        TagsSnoc(ms, m);
        assert FlvHeader + (Tags(ms) + Tag(m)) == (FlvHeader + Tags(ms)) + Tag(m);
        assert before + (pending[n - 1] + Tag(m)) == (before + pending[n - 1]) + Tag(m);
      case Take(bytes) =>
        assert (before + bytes) + pending[n] == before + (bytes + pending[n]);
    }
  }

  lemma ConservesAt(pending: seq<seq<byte>>, steps: seq<Step>, i: nat)
    requires Conserves(pending, steps) && i < |steps|
    ensures match steps[i]
      case Join(m) => IsTime(m.time) && pending[i + 1] == pending[i] + Tag(m)
      case Take(bytes) => bytes + pending[i + 1] == pending[i]
  {
  }

  lemma NoSteps()
    ensures Joined([]) == [] && Taken([]) == [] && Tags([]) == []
  {
  }

  lemma LastStep(steps: seq<Step>, n: nat)
    requires 0 < n <= |steps|
    ensures match steps[n - 1]
      case Join(m) => Joined(steps[..n]) == Joined(steps[..n - 1]) + [m] && Taken(steps[..n]) == Taken(steps[..n - 1])
      case Take(bytes) => Joined(steps[..n]) == Joined(steps[..n - 1]) && Taken(steps[..n]) == Taken(steps[..n - 1]) + bytes
  {
    assert steps[..n][..n - 1] == steps[..n - 1];
    assert Joined(steps[..n - 1]) + [] == Joined(steps[..n - 1]) && Taken(steps[..n - 1]) + [] == Taken(steps[..n - 1]);
  }

  /** What a reader was given, cut in any pieces, parses to the audio, video and data packets printed
      so far; to all of them when nothing was left to read. */
  lemma PrintThenParse(pending: seq<seq<byte>>, steps: seq<Step>, first: seq<byte>, pieces: seq<seq<byte>>)
    requires Conserves(pending, steps) && forall m :: m in Joined(steps) ==> Printable(m)
    requires |first| >= 13 && first + Concat(pieces) == Taken(steps)
    ensures var f := FeedPieces(Feed(NewWrite, first[13..]), pieces);
      && f.state.pushed <= Pushed(Joined(steps))
      && (pending[|steps|] == [] ==> f.state.pushed == Pushed(Joined(steps)) && f.rest == [])
  {
    hide Feed, FeedPieces, Tags, Pushed, Concat, Joined, Taken, Printable;
    ReadsPrint(pending, steps, |steps|);
    assert steps[..|steps|] == steps;
    var ms := Joined(steps);
    assert Taken(steps) <= Stream(ms);
    assert pending[|steps|] == [] ==> Taken(steps) + [] == Taken(steps);
    RoundTrip(ms, first, pieces);
  }
}
