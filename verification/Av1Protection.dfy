/** Which bytes of an AV1 frame are sealed, byte for byte, written without the ranges of the layout parsers. */
module Av1Protection {
  import opened Common
  import opened Aead
  import opened Av1Layout
  import opened Av1Cipher
  import opened Av1RoundTrip
  import Leb128

  // ---------- What is sealed ----------

  /** A payload is sealed but for the first byte of a frame header (type 3) or a frame (type 6). */
  predicate SealedPart(obuType: nat, start: nat, end: nat, i: nat) {
    start <= i < end && !(i == start && (obuType == 3 || obuType == 6))
  }

  /** Where the payload of an OBU begins whose extent an outer length gave. */
  function BodyStart(data: Bytes, start: nat): nat
    requires start < |data|
  {
    var body := start + 1 + data[start] / 4 % 2;
    if data[start] / 2 % 2 == 0 then body
    else
      match Leb128.Read(data, body)
      case None => body
      case Some(size) => body + size.length
  }

  predicate SealedBody(data: Bytes, start: nat, end: nat, i: nat)
    requires end <= |data|
  {
    start < end && SealedPart(data[start] / 8, BodyStart(data, start), end, i)
  }

  /** The extent of an element behind its length. */
  function Extent(data: Bytes, at: nat): (nat, nat) {
    match Leb128.Read(data, at)
    case None => (at, at)
    case Some(len) => (at + len.length, at + len.length + len.value)
  }

  /** The extent of element number `index`, at `at`: an OBU, an OBU behind its length, or the rest of the packet. */
  function ExtentOf(format: Format, data: Bytes, at: nat, index: nat): (nat, nat) {
    match format
    case SizeField => if at < |data| && ObuAt(data, at).Some? then (at, ObuAt(data, at).value.end) else (at, at)
    case AnnexB => Extent(data, at)
    case Rtp(z, w) => if index + 1 == w then (at, |data|) else Extent(data, at)
  }

  predicate SealedIn(format: Format, data: Bytes, at: nat, index: nat, i: nat)
    requires at < |data|
  {
    var (start, end) := ExtentOf(format, data, at, index);
    end <= |data| &&
    match format
    case SizeField => var o := ObuAt(data, at); o.Some? && SealedPart(o.value.obuType, o.value.start, o.value.end, i)
    case AnnexB => SealedBody(data, start, end, i)
    case Rtp(z, w) => if z && index == 0 then start <= i < end else SealedBody(data, start, end, i)
  }

  /** The element after which the parser reads no more: an OBU without a size field, or the last of a counted packet. */
  predicate StopsAt(format: Format, data: Bytes, at: nat, index: nat) {
    match format
    case SizeField => at < |data| && ObuAt(data, at).Some? && !ObuAt(data, at).value.hasSize
    case AnnexB => false
    case Rtp(z, w) => 0 < w <= index + 1
  }

  /** Reading from `from`, the parser comes to the element number `index` at `at`. */
  ghost predicate Visited(format: Format, data: Bytes, from: nat, k: nat, at: nat, index: nat)
    decreases |data| - from
  {
    if from >= |data| then false
    else if at == from && index == k then true
    else
      var end := ExtentOf(format, data, from, k).1;
      from < end && !StopsAt(format, data, from, k) && Visited(format, data, end, k + 1, at, index)
  }

  lemma ProtectedCovers(obuType: nat, start: nat, end: nat, i: nat)
    ensures Covered(Protected(obuType, start, end), i) == SealedPart(obuType, start, end, i)
  {
    var ranges := Protected(obuType, start, end);
    assert ranges != [] ==> ranges[0] in ranges;
  }

  lemma InnerPayloadCovers(data: Bytes, start: nat, end: nat, i: nat)
    requires start < end <= |data| && InnerPayload(data, start, end).Some?
    ensures Covered(InnerPayload(data, start, end).value, i) == SealedBody(data, start, end, i)
  {
    var h := ParseHeader(data[start]).value;
    assert h.obuType == data[start] / 8 && HeaderLen(h) == 1 + data[start] / 4 % 2;
    ProtectedCovers(h.obuType, BodyStart(data, start), end, i);
  }

  /** What an element contributes: its end, whether it is the last one, and exactly which bytes it seals. */
  predicate Contributes(e: Element, format: Format, data: Bytes, at: nat, index: nat, i: nat)
    requires at < |data|
  {
    && e.next == ExtentOf(format, data, at, index).1 && e.last == StopsAt(format, data, at, index)
    && Covered(e.ranges, i) == SealedIn(format, data, at, index, i)
  }

  lemma ElementCovers(format: Format, data: Bytes, at: nat, index: nat, i: nat)
    requires at < |data| && ElementAt(format, data, at, index).Some?
    ensures Contributes(ElementAt(format, data, at, index).value, format, data, at, index, i)
  {
    match format
    case SizeField =>
      var o := ObuAt(data, at).value;
      ProtectedCovers(o.obuType, o.start, o.end, i);
    case AnnexB => AnnexBElementCovers(data, at, index, i);
    case Rtp(z, w) => RtpElementCovers(data, z, w, at, index, i);
  }

  lemma AnnexBElementIs(data: Bytes, at: nat) returns (start: nat, end: nat)
    requires at < |data| && AnnexBElement(data, at).Some?
    ensures (start, end) == Extent(data, at) && start <= end <= |data|
    ensures start == end ==> AnnexBElement(data, at) == Some(Element([], end, false))
    ensures start < end ==>
      && InnerPayload(data, start, end).Some?
      && AnnexBElement(data, at) == Some(Element(InnerPayload(data, start, end).value, end, false))
  {
    start, end := Extent(data, at).0, Extent(data, at).1;
  }

  lemma AnnexBElementCovers(data: Bytes, at: nat, index: nat, i: nat)
    requires at < |data| && AnnexBElement(data, at).Some?
    ensures Contributes(AnnexBElement(data, at).value, AnnexB, data, at, index, i)
  {
    var start, end := AnnexBElementIs(data, at);
    if start < end {
      InnerPayloadCovers(data, start, end, i);
    }
  }

  /** What the body of an RTP element covers, behind its length if it has one. */
  predicate BodyCovers(e: Element, data: Bytes, continued: bool, start: nat, end: nat, i: nat)
    requires end <= |data|
  {
    e.next == end && Covered(e.ranges, i) == if continued then start <= i < end else SealedBody(data, start, end, i)
  }

  lemma RtpBodyCovers(data: Bytes, continued: bool, start: nat, end: nat, stop: bool, i: nat)
    requires start <= end <= |data| && RtpBody(data, continued, start, end, stop).Some?
    ensures BodyCovers(RtpBody(data, continued, start, end, stop).value, data, continued, start, end, i)
    ensures RtpBody(data, continued, start, end, stop).value.last == stop
  {
    var e := RtpBody(data, continued, start, end, stop).value;
    if start < end && !continued {
      InnerPayloadCovers(data, start, end, i);
    } else {
      assert e.ranges != [] ==> e.ranges[0] in e.ranges;
    }
  }

  lemma RtpElementIs(data: Bytes, z: bool, w: nat, at: nat, index: nat) returns (start: nat, end: nat)
    requires at < |data| && RtpElement(data, z, w, at, index).Some?
    ensures (start, end) == ExtentOf(Rtp(z, w), data, at, index) && start <= end <= |data|
    ensures RtpElement(data, z, w, at, index) == RtpBody(data, z && index == 0, start, end, StopsAt(Rtp(z, w), data, at, index))
  {
    start, end := ExtentOf(Rtp(z, w), data, at, index).0, ExtentOf(Rtp(z, w), data, at, index).1;
  }

  lemma RtpElementCovers(data: Bytes, z: bool, w: nat, at: nat, index: nat, i: nat)
    requires at < |data| && RtpElement(data, z, w, at, index).Some?
    ensures Contributes(RtpElement(data, z, w, at, index).value, Rtp(z, w), data, at, index, i)
  {
    var start, end := RtpElementIs(data, z, w, at, index);
    RtpBodyCovers(data, z && index == 0, start, end, StopsAt(Rtp(z, w), data, at, index), i);
  }

  lemma CoveredByParts(xs: seq<Range>, ys: seq<Range>, i: nat)
    ensures Covered(xs + ys, i) == (Covered(xs, i) || Covered(ys, i))
  {
    var both := xs + ys;
    assert forall k :: 0 <= k < |xs| ==> both[k] == xs[k];
    assert forall k :: 0 <= k < |ys| ==> both[|xs| + k] == ys[k];
  }

  lemma OutsideIsClear(ranges: seq<Range>, lo: nat, hi: nat, i: nat)
    requires InOrder(ranges, lo, hi) && !(lo <= i < hi)
    ensures !Covered(ranges, i)
  {
    InOrderEnds(ranges, lo, hi);
  }

  /** Within the element at `from`, the layout covers what this element seals; behind it, what the rest covers. */
  lemma FirstElementCovers(format: Format, data: Bytes, from: nat, k: nat, i: nat)
    requires from < |data| && RangesFrom(format, data, from, k).Some?
    ensures ElementAt(format, data, from, k).Some?
    ensures var e := ElementAt(format, data, from, k).value; var covered := Covered(RangesFrom(format, data, from, k).value, i);
      && (i < e.next || e.last ==> covered == Covered(e.ranges, i))
      && (e.next <= i && !e.last ==>
            RangesFrom(format, data, e.next, k + 1).Some?
            && covered == Covered(RangesFrom(format, data, e.next, k + 1).value, i))
  {
    var e := ElementAt(format, data, from, k).value;
    if !e.last {
      var rest := RangesFrom(format, data, e.next, k + 1).value;
      RangesFromInOrder(format, data, e.next, k + 1);
      CoveredByParts(e.ranges, rest, i);
      if i < e.next {
        OutsideIsClear(rest, e.next, |data|, i);
      } else {
        OutsideIsClear(e.ranges, from, e.next, i);
      }
    }
  }

  /** Whatever element the parser comes to, the layout seals in it what the element itself says, and nothing else. */
  lemma {:induction false} VisitedCovers(format: Format, data: Bytes, from: nat, k: nat, at: nat, index: nat, i: nat)
    requires from <= |data| && RangesFrom(format, data, from, k).Some? && Visited(format, data, from, k, at, index)
    requires at <= i < ExtentOf(format, data, at, index).1
    ensures at < |data|
    ensures Covered(RangesFrom(format, data, from, k).value, i) == SealedIn(format, data, at, index, i)
    decreases |data| - from
  {
    FirstElementCovers(format, data, from, k, i);
    ElementCovers(format, data, from, k, i);
    if !(at == from && index == k) {
      var end := ExtentOf(format, data, from, k).1;
      VisitedBehind(format, data, end, k + 1, at, index);
      VisitedCovers(format, data, end, k + 1, at, index, i);
    }
  }

  lemma {:induction false} VisitedBehind(format: Format, data: Bytes, from: nat, k: nat, at: nat, index: nat)
    requires Visited(format, data, from, k, at, index)
    ensures from <= at
    decreases |data| - from
  {
    if !(at == from && index == k) {
      VisitedBehind(format, data, ExtentOf(format, data, from, k).1, k + 1, at, index);
    }
  }

  /** A sealed byte lies in an element the parser comes to, which seals it. */
  lemma {:induction false} CoveredIsVisited(format: Format, data: Bytes, from: nat, k: nat, i: nat)
      returns (at: nat, index: nat)
    requires from <= |data| && RangesFrom(format, data, from, k).Some?
    requires Covered(RangesFrom(format, data, from, k).value, i)
    ensures Visited(format, data, from, k, at, index) && at < |data| && at <= i < ExtentOf(format, data, at, index).1
    decreases |data| - from
  {
    assert from < |data|;
    FirstElementCovers(format, data, from, k, i);
    ElementCovers(format, data, from, k, i);
    var e := ElementAt(format, data, from, k).value;
    if i < e.next || e.last {
      at, index := from, k;
      if !(from <= i < e.next) {
        OutsideIsClear(e.ranges, from, e.next, i);
      }
    } else {
      at, index := CoveredIsVisited(format, data, e.next, k + 1, i);
    }
  }

  /** A byte of the data that some element the parser comes to seals. */
  ghost predicate Sealed(format: Format, data: Bytes, from: nat, i: nat) {
    exists at: nat, index: nat :: Visited(format, data, from, 0, at, index) && SealedAt(format, data, at, index, i)
  }

  predicate SealedAt(format: Format, data: Bytes, at: nat, index: nat, i: nat) {
    at < |data| && at <= i < ExtentOf(format, data, at, index).1 && SealedIn(format, data, at, index, i)
  }

  lemma SealedIff(format: Format, data: Bytes, from: nat, i: nat)
    requires from <= |data| && RangesFrom(format, data, from, 0).Some?
    ensures Covered(RangesFrom(format, data, from, 0).value, i) == Sealed(format, data, from, i)
  {
    if Covered(RangesFrom(format, data, from, 0).value, i) {
      var at, index := CoveredIsVisited(format, data, from, 0, i);
      VisitedCovers(format, data, from, 0, at, index, i);
      assert SealedAt(format, data, at, index, i);
    }
    if Sealed(format, data, from, i) {
      var at: nat, index: nat :|
        Visited(format, data, from, 0, at, index) && SealedAt(format, data, at, index, i);
      VisitedCovers(format, data, from, 0, at, index, i);
    }
  }

  // ---------- The layouts of the four parsers ----------

  /** Byte `i` is sealed: read off the bytes in front of it, format by format. */
  ghost predicate SealedByte(parser: Parser, data: Bytes, i: nat) {
    match parser
    case SizeFieldStream => Sealed(SizeField, data, 0, i)
    case AnnexBStream => Sealed(AnnexB, data, 0, i)
    case RtpPayload => SealedInPacket(data, i)
    case RtxPayload => |data| > 2 && i >= 2 && SealedInPacket(data[2..], i - 2)
  }

  ghost predicate SealedInPacket(data: Bytes, i: nat) {
    data != [] && Sealed(Rtp(data[0] >= 0x80, data[0] / 16 % 4), data, 1, i)
  }

  lemma PacketIff(data: Bytes, i: nat)
    requires RtpRanges(data).Some?
    ensures Covered(RtpRanges(data).value, i) == SealedInPacket(data, i)
  {
    SealedIff(RtpFormat(data[0]), data, 1, i);
  }

  lemma ShiftCovers(ranges: seq<Range>, i: nat)
    ensures Covered(Shift(ranges, 2), i) == (i >= 2 && Covered(ranges, i - 2))
  {
    var shifted := Shift(ranges, 2);
    if Covered(shifted, i) {
      var k :| 0 <= k < |shifted| && shifted[k].start <= i < shifted[k].end;
      assert ranges[k].start <= i - 2 < ranges[k].end;
    }
    if i >= 2 && Covered(ranges, i - 2) {
      var k :| 0 <= k < |ranges| && ranges[k].start <= i - 2 < ranges[k].end;
      assert shifted[k].start <= i < shifted[k].end;
    }
  }

  /** Every layout any parser returns covers exactly the sealed bytes. */
  lemma LayoutCoversSealed(parser: Parser, data: Bytes, i: nat)
    requires Parse(parser, data).Some?
    ensures Covered(Parse(parser, data).value, i) == SealedByte(parser, data, i)
  {
    match parser
    case SizeFieldStream => SealedIff(SizeField, data, 0, i);
    case AnnexBStream => SealedIff(AnnexB, data, 0, i);
    case RtpPayload => PacketIff(data, i);
    case RtxPayload =>
      var inner := data[2..];
      ShiftCovers(RtpRanges(inner).value, i);
      if i >= 2 {
        PacketIff(inner, i - 2);
      }
  }

  /**
   * In a readable stream, of every OBU that is read, the last one without a size field too, the layout covers
   * the payload, but for its first byte if the type is 3 or 6, and no other byte.
   */
  lemma ObuIsSealed(data: Bytes, at: nat, index: nat, i: nat)
    requires Readable(data) && Visited(SizeField, data, 0, 0, at, index)
    ensures at < |data| && ObuAt(data, at).Some?
    ensures var o := ObuAt(data, at).value;
      at <= i < o.end ==>
        Covered(Parse(SizeFieldStream, data).value, i)
          == (o.start <= i && !(i == o.start && (o.obuType == 3 || o.obuType == 6)))
  {
    VisitedIsRead(data, 0, 0, at, index);
    if at <= i < ObuAt(data, at).value.end {
      VisitedCovers(SizeField, data, 0, 0, at, index, i);
    }
  }

  lemma {:induction false} VisitedIsRead(data: Bytes, from: nat, k: nat, at: nat, index: nat)
    requires from <= |data| && RangesFrom(SizeField, data, from, k).Some? && Visited(SizeField, data, from, k, at, index)
    ensures at < |data| && ObuAt(data, at).Some?
    decreases |data| - from
  {
    assert ObuAt(data, from).Some?;
    if !(at == from && index == k) {
      VisitedIsRead(data, ObuAt(data, from).value.end, k + 1, at, index);
    }
  }

  /** And every byte belongs to an OBU that is read. */
  lemma {:induction false} EveryByteIsRead(data: Bytes, from: nat, k: nat, i: nat) returns (at: nat, index: nat)
    requires from <= i < |data| && RangesFrom(SizeField, data, from, k).Some?
    ensures Visited(SizeField, data, from, k, at, index) && at <= i < ExtentOf(SizeField, data, at, index).1
    decreases |data| - from
  {
    var o := ObuAt(data, from).value;
    if i < o.end {
      at, index := from, k;
    } else {
      at, index := EveryByteIsRead(data, o.end, k + 1, i);
    }
  }

  // ---------- What is read ----------

  /** The OBU in `[start, end)` has a header and, if it says so, a size field that fit. */
  predicate BodyReads(data: Bytes, start: nat, end: nat)
    requires start < end <= |data|
  {
    && data[start] < 0x80 && data[start] % 2 == 0 && start + 1 + data[start] / 4 % 2 <= end
    && (data[start] / 2 % 2 == 1 ==> Leb128.Read(data, start + 1 + data[start] / 4 % 2).Some?)
    && BodyStart(data, start) <= end
  }

  /** The OBU at `at` ends within the data: behind its size field, or with the data if it has none. */
  predicate ObuReads(data: Bytes, at: nat)
    requires at < |data|
  {
    BodyReads(data, at, |data|) && (data[at] / 2 % 2 == 1 ==>
      BodyStart(data, at) + Leb128.Read(data, at + 1 + data[at] / 4 % 2).value.value <= |data|)
  }

  /** The element can be read: its length, where it has one, and the OBU in it. */
  predicate ElementReads(format: Format, data: Bytes, at: nat, index: nat)
    requires at < |data|
  {
    var (start, end) := ExtentOf(format, data, at, index);
    match format
    case SizeField => ObuReads(data, at)
    case AnnexB => Leb128.Read(data, at).Some? && end <= |data| && (start < end ==> BodyReads(data, start, end))
    case Rtp(z, w) =>
      && (index + 1 != w ==> Leb128.Read(data, at).Some?) && end <= |data|
      && (start < end && !(z && index == 0) ==> BodyReads(data, start, end))
  }

  lemma InnerReads(data: Bytes, start: nat, end: nat)
    requires start < end <= |data|
    ensures InnerPayload(data, start, end).Some? == BodyReads(data, start, end)
  {
  }

  lemma ObuReadsIff(data: Bytes, at: nat)
    requires at < |data|
    ensures ObuAt(data, at).Some? == ObuReads(data, at)
  {
  }

  lemma AnnexBReadsIff(data: Bytes, at: nat, start: nat, end: nat)
    requires at < |data| && (start, end) == Extent(data, at)
    ensures AnnexBElement(data, at).Some? ==
      (Leb128.Read(data, at).Some? && end <= |data| && (start < end ==> InnerPayload(data, start, end).Some?))
  {
  }

  lemma RtpReadsIff(data: Bytes, z: bool, w: nat, at: nat, index: nat, start: nat, end: nat)
    requires at < |data| && (start, end) == ExtentOf(Rtp(z, w), data, at, index)
    ensures RtpElement(data, z, w, at, index).Some? ==
      ((index + 1 != w ==> Leb128.Read(data, at).Some?) && end <= |data|
       && (start < end && !(z && index == 0) ==> InnerPayload(data, start, end).Some?))
  {
  }

  lemma ElementReadsIff(format: Format, data: Bytes, at: nat, index: nat)
    requires at < |data|
    ensures ElementAt(format, data, at, index).Some? == ElementReads(format, data, at, index)
  {
    var (start, end) := ExtentOf(format, data, at, index);
    match format
    case SizeField => ObuReadsIff(data, at);
    case AnnexB =>
      AnnexBReadsIff(data, at, start, end);
      if start < end <= |data| {
        InnerReads(data, start, end);
      }
    case Rtp(z, w) =>
      RtpReadsIff(data, z, w, at, index, start, end);
      if start < end <= |data| {
        InnerReads(data, start, end);
      }
  }

  predicate CanRead(format: Format, data: Bytes, at: nat, index: nat) {
    at < |data| && ElementReads(format, data, at, index)
  }

  /** Every element the parser comes to can be read. */
  ghost predicate AllRead(format: Format, data: Bytes, from: nat, k: nat) {
    forall at: nat, index: nat {:trigger Visited(format, data, from, k, at, index)} ::
      Visited(format, data, from, k, at, index) ==> CanRead(format, data, at, index)
  }

  lemma VisitedStep(format: Format, data: Bytes, from: nat, k: nat, end: nat, at: nat, index: nat)
    requires from < |data| && from < end == ExtentOf(format, data, from, k).1
    ensures Visited(format, data, from, k, at, index)
        == ((at == from && index == k) || (!StopsAt(format, data, from, k) && Visited(format, data, end, k + 1, at, index)))
  {
  }

  lemma AllReadStep(format: Format, data: Bytes, from: nat, k: nat, end: nat)
    requires from < |data| && from < end == ExtentOf(format, data, from, k).1 && ElementReads(format, data, from, k)
    ensures AllRead(format, data, from, k) == (StopsAt(format, data, from, k) || AllRead(format, data, end, k + 1))
  {
    if !AllRead(format, data, from, k) {
      var at: nat, index: nat :| Visited(format, data, from, k, at, index) && !CanRead(format, data, at, index);
      VisitedStep(format, data, from, k, end, at, index);
    }
    if !StopsAt(format, data, from, k) && !AllRead(format, data, end, k + 1) {
      var at: nat, index: nat :| Visited(format, data, end, k + 1, at, index) && !CanRead(format, data, at, index);
      VisitedStep(format, data, from, k, end, at, index);
    }
  }

  /** The parser succeeds exactly if every element it comes to can be read. */
  lemma {:induction false} ReadsIff(format: Format, data: Bytes, from: nat, k: nat)
    requires from <= |data|
    ensures RangesFrom(format, data, from, k).Some? == AllRead(format, data, from, k)
    decreases |data| - from
  {
    if from < |data| {
      match ElementAt(format, data, from, k)
      case None =>
        ElementReadsIff(format, data, from, k);
        assert Visited(format, data, from, k, from, k);
      case Some(e) =>
        ElementReadsIff(format, data, from, k);
        ElementCovers(format, data, from, k, from);
        AllReadStep(format, data, from, k, e.next);
        if !e.last {
          ReadsIff(format, data, e.next, k + 1);
        }
    }
  }

  /** And so for each of the four: an RTP payload has two bytes, of which the first has its low bits zero. */
  lemma ParsesIff(parser: Parser, data: Bytes)
    ensures Parse(parser, data).Some? ==
      match parser
      case SizeFieldStream => AllRead(SizeField, data, 0, 0)
      case AnnexBStream => AllRead(AnnexB, data, 0, 0)
      case RtpPayload => PacketReads(data)
      case RtxPayload => |data| > 2 && PacketReads(data[2..])
  {
    match parser
    case SizeFieldStream => ReadsIff(SizeField, data, 0, 0);
    case AnnexBStream => ReadsIff(AnnexB, data, 0, 0);
    case RtpPayload => PacketReadsIff(data);
    case RtxPayload =>
      if |data| > 2 {
        PacketReadsIff(data[2..]);
      }
  }

  ghost predicate PacketReads(data: Bytes) {
    |data| >= 2 && data[0] % 8 == 0 && AllRead(Rtp(data[0] >= 0x80, data[0] / 16 % 4), data, 1, 0)
  }

  lemma PacketReadsIff(data: Bytes)
    ensures RtpRanges(data).Some? == PacketReads(data)
  {
    if data != [] {
      ReadsIff(RtpFormat(data[0]), data, 1, 0);
    }
  }

  // ---------- No range is empty ----------

  predicate NoneEmpty(ranges: seq<Range>) {
    forall r :: r in ranges ==> r.start < r.end
  }

  lemma InnerIsNotEmpty(data: Bytes, start: nat, end: nat)
    requires start < end <= |data| && InnerPayload(data, start, end).Some?
    ensures NoneEmpty(InnerPayload(data, start, end).value)
  {
  }

  lemma RtpIsNotEmpty(data: Bytes, continued: bool, start: nat, end: nat, stop: bool)
    requires start <= end <= |data| && RtpBody(data, continued, start, end, stop).Some?
    ensures NoneEmpty(RtpBody(data, continued, start, end, stop).value.ranges)
  {
    if start < end && !continued {
      InnerIsNotEmpty(data, start, end);
    }
  }

  lemma ElementIsNotEmpty(format: Format, data: Bytes, at: nat, index: nat)
    requires at < |data| && ElementAt(format, data, at, index).Some?
    ensures NoneEmpty(ElementAt(format, data, at, index).value.ranges)
  {
    match format
    case SizeField =>
    case AnnexB =>
      var (start, end) := Extent(data, at);
      if start < end {
        InnerIsNotEmpty(data, start, end);
      }
    case Rtp(z, w) =>
      var start, end := RtpElementIs(data, z, w, at, index);
      RtpIsNotEmpty(data, z && index == 0, start, end, StopsAt(Rtp(z, w), data, at, index));
  }

  lemma {:induction false} RangesAreNotEmpty(format: Format, data: Bytes, from: nat, k: nat)
    requires from <= |data| && RangesFrom(format, data, from, k).Some?
    ensures NoneEmpty(RangesFrom(format, data, from, k).value)
    decreases |data| - from
  {
    if from < |data| {
      var e := ElementAt(format, data, from, k).value;
      ElementIsNotEmpty(format, data, from, k);
      if !e.last {
        RangesAreNotEmpty(format, data, e.next, k + 1);
      }
    }
  }

  // ---------- What encryption does to a frame ----------

  /** The bytes of `data[lo..hi]` at the given places, in order. */
  ghost function Picked(data: Bytes, places: iset<nat>, lo: nat, hi: nat): Bytes
    requires lo <= hi <= |data|
    decreases hi - lo
  {
    if lo == hi then [] else (if lo in places then [data[lo]] else []) + Picked(data, places, lo + 1, hi)
  }

  lemma {:induction false} PickedSplit(data: Bytes, places: iset<nat>, lo: nat, mid: nat, hi: nat)
    requires lo <= mid <= hi <= |data|
    ensures Picked(data, places, lo, hi) == Picked(data, places, lo, mid) + Picked(data, places, mid, hi)
    decreases mid - lo
  {
    if lo < mid {
      PickedSplit(data, places, lo + 1, mid, hi);
    }
  }

  lemma {:induction false} PickedAll(data: Bytes, places: iset<nat>, lo: nat, hi: nat)
    requires lo <= hi <= |data| && forall i :: lo <= i < hi ==> i in places
    ensures Picked(data, places, lo, hi) == data[lo..hi]
    decreases hi - lo
  {
    if lo < hi {
      PickedAll(data, places, lo + 1, hi);
    }
  }

  lemma {:induction false} PickedNone(data: Bytes, places: iset<nat>, lo: nat, hi: nat)
    requires lo <= hi <= |data| && forall i :: lo <= i < hi ==> i !in places
    ensures Picked(data, places, lo, hi) == []
    decreases hi - lo
  {
    if lo < hi {
      PickedNone(data, places, lo + 1, hi);
    }
  }

  lemma PickedRange(data: Bytes, places: iset<nat>, lo: nat, r: Range)
    requires lo <= r.start <= r.end <= |data|
    requires forall i: nat :: lo <= i < r.end ==> (i in places <==> r.start <= i)
    ensures Picked(data, places, lo, |data|) == data[r.start..r.end] + Picked(data, places, r.end, |data|)
  {
    PickedNone(data, places, lo, r.start);
    PickedAll(data, places, r.start, r.end);
    PickedSplit(data, places, lo, r.start, |data|);
    PickedSplit(data, places, r.start, r.end, |data|);
  }

  ghost predicate Places(places: iset<nat>, ranges: seq<Range>, lo: nat, hi: nat) {
    forall i: nat :: lo <= i < hi ==> (i in places) == Covered(ranges, i)
  }

  lemma PlacesOfFirst(places: iset<nat>, ranges: seq<Range>, lo: nat, hi: nat)
    requires ranges != [] && InOrder(ranges, lo, hi) && Places(places, ranges, lo, hi)
    ensures forall i: nat :: lo <= i < ranges[0].end ==> (i in places <==> ranges[0].start <= i)
    ensures Places(places, ranges[1..], ranges[0].end, hi)
  {
    var r, rest := ranges[0], ranges[1..];
    InOrderEnds(rest, r.end, hi);
    assert ranges == [r] + rest;
    forall i: nat | lo <= i < hi
      ensures Covered(ranges, i) == (r.start <= i < r.end || Covered(rest, i))
    {
      CoveredByParts([r], rest, i);
      assert [r][0] == r;
    }
  }

  /** What is extracted are the covered bytes, in the order of the frame. */
  lemma {:induction false} ExtractPicks(data: Bytes, ranges: seq<Range>, places: iset<nat>, lo: nat)
    requires lo <= |data| && InOrder(ranges, lo, |data|) && Places(places, ranges, lo, |data|)
    ensures Extract(data, ranges) == Picked(data, places, lo, |data|)
    decreases |ranges|
  {
    if ranges == [] {
      PickedNone(data, places, lo, |data|);
    } else {
      var r := ranges[0];
      InOrderEnds(ranges, lo, |data|);
      PlacesOfFirst(places, ranges, lo, |data|);
      PickedRange(data, places, lo, r);
      ExtractPicks(data, ranges[1..], places, r.end);
    }
  }

  ghost function SealedPlaces(data: Bytes): iset<nat> {
    iset i: nat | SealedByte(SizeFieldStream, data, i)
  }

  lemma SealedPlacesAre(data: Bytes)
    requires Readable(data)
    ensures Places(SealedPlaces(data), Parse(SizeFieldStream, data).value, 0, |data|)
  {
    forall i: nat | 0 <= i < |data|
      ensures (i in SealedPlaces(data)) == Covered(Parse(SizeFieldStream, data).value, i)
    {
      LayoutCoversSealed(SizeFieldStream, data, i);
    }
  }

  lemma SealedParts(c: Cipher, iv: Bytes, keyIndex: Byte, plain: Bytes) returns (ranges: seq<Range>)
    requires Readable(plain) && Correct(c)
    ensures InOrder(ranges, 0, |plain|) && Parse(SizeFieldStream, plain) == Some(ranges)
    ensures SameOutside(plain, Cover(c, iv, plain), ranges, 0, |plain|)
    ensures var meta := Seal(c, iv, keyIndex, plain);
      c.seal(iv, Extract(plain, ranges), []) == Extract(Cover(c, iv, plain), ranges) + meta.tag
      && meta == Metadata(keyIndex, iv, meta.tag) && |meta.tag| == 16
  {
    var text, box;
    ranges, text, box := CoverParts(c, iv, plain);
    assert box == box[..|text|] + box[|text|..];
  }

  /**
   * The frame that is sent: it has the length of the plain one plus 34 bytes; every byte that is not sealed
   * stands; the sealed bytes, in order, are the ciphertext of the sealed bytes, in order; an OBU of type 5 and 32
   * bytes with the magic, the key index, the nonce and the tag comes last.
   */
  lemma EncryptedFrame(c: Cipher, iv: Bytes, keyIndex: Byte, plain: Bytes) returns (cover: Bytes, tag: Bytes)
    requires Readable(plain) && Correct(c) && |iv| == 12
    ensures |cover| == |plain| && |tag| == 16
    ensures Encrypt(c, iv, keyIndex, plain) == Ok(cover + [0x2a, 32, 0x4c, 0x4b, 1, keyIndex] + iv + tag)
    ensures forall i :: 0 <= i < |plain| && !SealedByte(SizeFieldStream, plain, i) ==> cover[i] == plain[i]
    ensures c.seal(iv, Picked(plain, SealedPlaces(plain), 0, |plain|), [])
        == Picked(cover, SealedPlaces(plain), 0, |plain|) + tag
  {
    var ranges := SealedParts(c, iv, keyIndex, plain);
    cover, tag := Cover(c, iv, plain), Seal(c, iv, keyIndex, plain).tag;
    FrameShape(c, iv, keyIndex, plain, cover, Metadata(keyIndex, iv, tag));
    ClearStays(plain, cover, ranges);
    SealedPicks(plain, cover, ranges);
  }

  lemma ClearStays(plain: Bytes, cover: Bytes, ranges: seq<Range>)
    requires Parse(SizeFieldStream, plain) == Some(ranges) && SameOutside(plain, cover, ranges, 0, |plain|)
    ensures forall i :: 0 <= i < |plain| && !SealedByte(SizeFieldStream, plain, i) ==> cover[i] == plain[i]
  {
    forall i | 0 <= i < |plain| && !SealedByte(SizeFieldStream, plain, i)
      ensures cover[i] == plain[i]
    {
      LayoutCoversSealed(SizeFieldStream, plain, i);
    }
  }

  lemma SealedPicks(plain: Bytes, cover: Bytes, ranges: seq<Range>)
    requires Readable(plain) && Parse(SizeFieldStream, plain) == Some(ranges) && |cover| == |plain|
    requires InOrder(ranges, 0, |plain|)
    ensures Extract(plain, ranges) == Picked(plain, SealedPlaces(plain), 0, |plain|)
    ensures Extract(cover, ranges) == Picked(cover, SealedPlaces(plain), 0, |plain|)
  {
    SealedPlacesAre(plain);
    ExtractPicks(plain, ranges, SealedPlaces(plain), 0);
    ExtractPicks(cover, ranges, SealedPlaces(plain), 0);
  }

  lemma FrameShape(c: Cipher, iv: Bytes, keyIndex: Byte, plain: Bytes, cover: Bytes, meta: Metadata)
    requires Readable(plain) && Correct(c) && |iv| == 12
    requires cover == Cover(c, iv, plain) && meta == Seal(c, iv, keyIndex, plain)
    ensures |cover| == |plain|
    ensures Encrypt(c, iv, keyIndex, plain) == Ok(cover + [0x2a, 32, 0x4c, 0x4b, 1, meta.keyIndex] + meta.iv + meta.tag)
  {
    CoverShape(c, iv, keyIndex, plain);
    MetadataBytes(cover, meta);
  }

  lemma MetadataBytes(cover: Bytes, meta: Metadata)
    ensures cover + MetadataObu(meta) == cover + [0x2a, 32, 0x4c, 0x4b, 1, meta.keyIndex] + meta.iv + meta.tag
  {
    assert Leb128.Write(32) == [32];
    assert MetadataObu(meta) == [0x2a, 32, 0x4c, 0x4b, 1, meta.keyIndex] + meta.iv + meta.tag;
  }

  // ---------- Keyframes ----------

  /** A frame header or frame whose first payload byte has show_existing_frame and frame_type 0: its last three bits. */
  predicate KeyframeAt(data: Bytes, at: nat) {
    at < |data| && ObuAt(data, at).Some? &&
    var o := ObuAt(data, at).value;
    (o.obuType == 3 || o.obuType == 6) && o.start < o.end && data[o.start] % 8 == 0
  }

  ghost predicate VisitsKeyframe(data: Bytes, from: nat, k: nat) {
    exists at: nat, index: nat {:trigger Visited(SizeField, data, from, k, at, index)} ::
      Visited(SizeField, data, from, k, at, index) && KeyframeAt(data, at)
  }

  lemma VisitsKeyframeStep(data: Bytes, from: nat, k: nat, end: nat)
    requires from < end && ExtentOf(SizeField, data, from, k).1 == end && from < |data| && end <= |data|
    ensures VisitsKeyframe(data, from, k)
        == (KeyframeAt(data, from) || (!StopsAt(SizeField, data, from, k) && VisitsKeyframe(data, end, k + 1)))
  {
    assert Visited(SizeField, data, from, k, from, k);
    if VisitsKeyframe(data, from, k) {
      var at: nat, index: nat :| Visited(SizeField, data, from, k, at, index) && KeyframeAt(data, at);
      if !(at == from && index == k) {
        assert Visited(SizeField, data, end, k + 1, at, index);
      }
    }
    if !StopsAt(SizeField, data, from, k) && VisitsKeyframe(data, end, k + 1) {
      var at: nat, index: nat :| Visited(SizeField, data, end, k + 1, at, index) && KeyframeAt(data, at);
      assert Visited(SizeField, data, from, k, at, index);
    }
  }

  /** A keyframe is detected exactly if one of the OBUs that are read is one. */
  lemma {:induction false} KeyframeIff(data: Bytes, from: nat, k: nat)
    requires from <= |data|
    ensures KeyframeFrom(data, from) == VisitsKeyframe(data, from, k)
    decreases |data| - from
  {
    if from < |data| && ObuAt(data, from).Some? {
      var o := ObuAt(data, from).value;
      assert IsKeyframeObu(data, o) == KeyframeAt(data, from);
      KeyframeIff(data, o.end, k + 1);
      VisitsKeyframeStep(data, from, k, o.end);
    }
  }
}
