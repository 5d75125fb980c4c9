/** The layout parsers of av1_e2ee.go: which bytes of an AV1 frame are protected. */
module Av1Layout {
  import opened Common
  import Leb128

  const OBU_FRAME_HEADER := 3
  const OBU_METADATA := 5
  const OBU_FRAME := 6

  /** A half-open byte range. */
  datatype Range = Range(start: nat, end: nat)

  datatype Layout = Layout(ranges: seq<Range>, length: int)

  // ---------- OBU headers ----------

  datatype Header = Header(obuType: nat, extension: bool, hasSize: bool)

  function ParseHeader(b: Byte): Option<Header> {
    if b >= 0x80 || b % 2 != 0 then None
    else Some(Header(b / 8 % 16, b / 4 % 2 == 1, b / 2 % 2 == 1))
  }

  function HeaderLen(h: Header): nat {
    if h.extension then 2 else 1
  }

  predicate KeepsFirstByte(obuType: nat) {
    obuType == OBU_FRAME_HEADER || obuType == OBU_FRAME
  }

  function ClearPrefix(obuType: nat, start: nat, end: nat): nat {
    if KeepsFirstByte(obuType) && start < end then 1 else 0
  }

  /** The protected part of an OBU payload `[start, end)`: all of it but the clear prefix. */
  function Protected(obuType: nat, start: nat, end: nat): seq<Range> {
    var from := start + ClearPrefix(obuType, start, end);
    if from < end then [Range(from, end)] else []
  }

  /** An OBU of the low-overhead format; without a size field it runs to the end of the data. */
  datatype Obu = Obu(obuType: nat, hasSize: bool, start: nat, end: nat)

  function ObuAt(data: Bytes, offset: nat): (r: Option<Obu>)
    requires offset < |data|
    ensures r.Some? ==> offset < r.value.start <= r.value.end <= |data|
  {
    match ParseHeader(data[offset])
    case None => None
    case Some(h) =>
      var body := offset + HeaderLen(h);
      if body > |data| then None
      else if !h.hasSize then Some(Obu(h.obuType, false, body, |data|))
      else
        match Leb128.Read(data, body)
        case None => None
        case Some(size) =>
          var start := body + size.length;
          if start + size.value > |data| then None
          else Some(Obu(h.obuType, true, start, start + size.value))
  }

  /** An OBU whose extent `[start, end)` an outer length gave; an inner size field is skipped, not trusted. */
  function InnerPayload(data: Bytes, start: nat, end: nat): (r: Option<seq<Range>>)
    requires start < end <= |data|
  {
    match ParseHeader(data[start])
    case None => None
    case Some(h) =>
      var body := start + HeaderLen(h);
      if body > end then None
      else if !h.hasSize then Some(Protected(h.obuType, body, end))
      else
        match Leb128.Read(data, body)
        case None => None
        case Some(size) =>
          if body + size.length > end then None
          else Some(Protected(h.obuType, body + size.length, end))
  }

  // ---------- One element of each format ----------

  /** The three element formats; an RTP payload carries its Z flag and W count. */
  datatype Format = SizeField | AnnexB | Rtp(z: bool, w: nat)

  /** What one element contributes, where the next one starts, and whether the parser stops there. */
  datatype Element = Element(ranges: seq<Range>, next: nat, last: bool)

  function SizeFieldElement(data: Bytes, offset: nat): Option<Element>
    requires offset < |data|
  {
    match ObuAt(data, offset)
    case None => None
    case Some(o) => Some(Element(Protected(o.obuType, o.start, o.end), o.end, !o.hasSize))
  }

  function AnnexBElement(data: Bytes, offset: nat): Option<Element>
    requires offset < |data|
  {
    match Leb128.Read(data, offset)
    case None => None
    case Some(len) =>
      var start := offset + len.length;
      var end := start + len.value;
      if end > |data| then None
      else if len.value == 0 then Some(Element([], end, false))
      else
        match InnerPayload(data, start, end)
        case None => None
        case Some(ranges) => Some(Element(ranges, end, false))
  }

  function RtpElement(data: Bytes, z: bool, w: nat, offset: nat, index: nat): Option<Element>
    requires offset < |data|
  {
    var stop := w > 0 && index + 1 >= w;
    if w > 0 && index + 1 == w then RtpBody(data, z && index == 0, offset, |data|, stop)
    else RtpPrefixed(data, z && index == 0, offset, stop)
  }

  function RtpPrefixed(data: Bytes, continued: bool, offset: nat, stop: bool): (r: Option<Element>)
    requires offset < |data|
    ensures r.Some? ==> offset < r.value.next <= |data| && InOrder(r.value.ranges, offset, r.value.next)
  {
    match Leb128.Read(data, offset)
    case None => None
    case Some(len) =>
      var start := offset + len.length;
      if start + len.value > |data| then None
      else RtpBody(data, continued, start, start + len.value, stop)
  }

  /** The first element of a packet with Z set continues an OBU: it has no header and is protected whole. */
  function RtpBody(data: Bytes, continued: bool, start: nat, end: nat, stop: bool): (r: Option<Element>)
    requires start <= end <= |data|
    ensures r.Some? ==> r.value.next == end && InOrder(r.value.ranges, start, end)
  {
    if start >= end then Some(Element([], end, stop))
    else if continued then Some(Element([Range(start, end)], end, stop))
    else
      match InnerPayload(data, start, end)
      case None => None
      case Some(ranges) => Some(Element(ranges, end, stop))
  }

  function ElementAt(format: Format, data: Bytes, offset: nat, index: nat): (r: Option<Element>)
    requires offset < |data|
    ensures r.Some? ==> offset < r.value.next <= |data| && InOrder(r.value.ranges, offset, r.value.next)
  {
    match format
    case SizeField => SizeFieldElement(data, offset)
    case AnnexB => AnnexBElement(data, offset)
    case Rtp(z, w) => RtpElement(data, z, w, offset, index)
  }

  // ---------- Whole frames ----------

  /** The protected ranges from `offset` on; `None` is a parse error. */
  function RangesFrom(format: Format, data: Bytes, offset: nat, index: nat): (r: Option<seq<Range>>)
    requires offset <= |data|
    decreases |data| - offset
  {
    if offset == |data| then Some([])
    else
      match ElementAt(format, data, offset, index)
      case None => None
      case Some(e) =>
        if e.last then Some(e.ranges) else Prepend(e.ranges, RangesFrom(format, data, e.next, index + 1))
  }

  function Prepend(ranges: seq<Range>, rest: Option<seq<Range>>): Option<seq<Range>> {
    if rest.None? then None else Some(ranges + rest.value)
  }

  function Total(ranges: seq<Range>): int {
    if ranges == [] then 0 else ranges[0].end - ranges[0].start + Total(ranges[1..])
  }

  function ToLayout(ranges: Option<seq<Range>>): Option<Layout> {
    if ranges.None? then None else Some(Layout(ranges.value, Total(ranges.value)))
  }

  function RtpFormat(header: Byte): Format {
    Rtp(header >= 0x80, header / 16 % 4)
  }

  function RtpRanges(data: Bytes): Option<seq<Range>> {
    if |data| < 2 || data[0] % 8 != 0 then None else RangesFrom(RtpFormat(data[0]), data, 1, 0)
  }

  function Shift(ranges: seq<Range>, delta: nat): (r: seq<Range>)
    ensures |r| == |ranges|
    ensures forall k :: 0 <= k < |r| ==> r[k] == Range(ranges[k].start + delta, ranges[k].end + delta)
  {
    if ranges == [] then [] else [Range(ranges[0].start + delta, ranges[0].end + delta)] + Shift(ranges[1..], delta)
  }

  function RtxRanges(data: Bytes): Option<seq<Range>> {
    if |data| < 3 then None
    else
      match RtpRanges(data[2..])
      case None => None
      case Some(inner) => Some(Shift(inner, 2))
  }

  /** The four parsers the layout search tries. */
  datatype Parser = SizeFieldStream | AnnexBStream | RtpPayload | RtxPayload

  function Parse(parser: Parser, data: Bytes): Option<seq<Range>> {
    match parser
    case SizeFieldStream => RangesFrom(SizeField, data, 0, 0)
    case AnnexBStream => RangesFrom(AnnexB, data, 0, 0)
    case RtpPayload => RtpRanges(data)
    case RtxPayload => RtxRanges(data)
  }

  // ---------- Shape of a layout ----------

  /** Ranges lie in `[lo, hi)`, do not overlap and come in ascending order. */
  predicate InOrder(ranges: seq<Range>, lo: nat, hi: nat) {
    if ranges == [] then lo <= hi
    else lo <= ranges[0].start <= ranges[0].end <= hi && InOrder(ranges[1..], ranges[0].end, hi)
  }

  predicate Covered(ranges: seq<Range>, i: nat) {
    exists k :: 0 <= k < |ranges| && ranges[k].start <= i < ranges[k].end
  }

  /** `a` and `b` can differ inside `ranges` only. */
  predicate SameOutside(a: Bytes, b: Bytes, ranges: seq<Range>, lo: nat, hi: nat) {
    |a| == |b| && hi <= |a| && forall i :: lo <= i < hi && !Covered(ranges, i) ==> a[i] == b[i]
  }

  lemma {:induction false} InOrderWiden(ranges: seq<Range>, lo: nat, lo': nat, hi: nat, hi': nat)
    requires InOrder(ranges, lo, hi) && lo' <= lo && hi <= hi'
    ensures InOrder(ranges, lo', hi')
    decreases |ranges|
  {
    if ranges != [] {
      InOrderWiden(ranges[1..], ranges[0].end, ranges[0].end, hi, hi');
    }
  }

  lemma {:induction false} InOrderAppend(xs: seq<Range>, ys: seq<Range>, lo: nat, mid: nat, hi: nat)
    requires InOrder(xs, lo, mid) && InOrder(ys, mid, hi)
    ensures InOrder(xs + ys, lo, hi)
    decreases |xs|
  {
    if xs == [] {
      assert xs + ys == ys;
      InOrderWiden(ys, mid, lo, hi, hi);
    } else {
      assert (xs + ys)[1..] == xs[1..] + ys;
      InOrderAppend(xs[1..], ys, xs[0].end, mid, hi);
      InOrderEnds(ys, mid, hi);
      InOrderEnds(xs[1..], xs[0].end, mid);
    }
  }

  lemma {:induction false} InOrderEnds(ranges: seq<Range>, lo: nat, hi: nat)
    requires InOrder(ranges, lo, hi)
    ensures lo <= hi
    ensures forall k :: 0 <= k < |ranges| ==> lo <= ranges[k].start <= ranges[k].end <= hi
    decreases |ranges|
  {
    if ranges != [] {
      InOrderEnds(ranges[1..], ranges[0].end, hi);
    }
  }

  lemma {:induction false} RangesFromInOrder(format: Format, data: Bytes, offset: nat, index: nat)
    requires offset <= |data| && RangesFrom(format, data, offset, index).Some?
    ensures InOrder(RangesFrom(format, data, offset, index).value, offset, |data|)
    decreases |data| - offset
  {
    if offset < |data| {
      var e := ElementAt(format, data, offset, index).value;
      if e.last {
        InOrderWiden(e.ranges, offset, offset, e.next, |data|);
      } else {
        RangesFromInOrder(format, data, e.next, index + 1);
        InOrderAppend(e.ranges, RangesFrom(format, data, e.next, index + 1).value, offset, e.next, |data|);
      }
    }
  }

  lemma {:induction false} InOrderShift(ranges: seq<Range>, delta: nat, lo: nat, hi: nat)
    requires InOrder(ranges, lo, hi)
    ensures InOrder(Shift(ranges, delta), lo + delta, hi + delta)
    decreases |ranges|
  {
    if ranges != [] {
      InOrderShift(ranges[1..], delta, ranges[0].end, hi);
    }
  }

  /** Every layout any parser returns is in bounds, ascending and disjoint. */
  lemma ParseInOrder(parser: Parser, data: Bytes)
    requires Parse(parser, data).Some?
    ensures InOrder(Parse(parser, data).value, 0, |data|)
  {
    match parser
    case SizeFieldStream => RangesFromInOrder(SizeField, data, 0, 0);
    case AnnexBStream => RangesFromInOrder(AnnexB, data, 0, 0);
    case RtpPayload =>
      RangesFromInOrder(RtpFormat(data[0]), data, 1, 0);
      InOrderWiden(RtpRanges(data).value, 1, 0, |data|, |data|);
    case RtxPayload =>
      var inner := data[2..];
      RangesFromInOrder(RtpFormat(inner[0]), inner, 1, 0);
      InOrderShift(RtpRanges(inner).value, 2, 1, |inner|);
      InOrderWiden(RtxRanges(data).value, 3, 0, |data|, |data|);
  }

  // ---------- The parsers read clear bytes only ----------

  lemma InnerPayloadLocal(a: Bytes, b: Bytes, start: nat, end: nat)
    requires |a| == |b| && start < end <= |a| && InnerPayload(a, start, end).Some?
    requires SameOutside(a, b, InnerPayload(a, start, end).value, start, end)
    ensures InnerPayload(b, start, end) == InnerPayload(a, start, end)
  {
    assert a[start] == b[start];
    var h := ParseHeader(a[start]).value;
    var body := start + HeaderLen(h);
    if h.hasSize {
      var size := Leb128.Read(a, body).value;
      assert SameOn(a, b, body, body + size.length);
      Leb128.ReadLocal(a, b, body);
    }
  }

  /** A sized OBU is read the same way in any data that holds it; an unsized one needs the same end of data. */
  lemma ObuAtLocal(a: Bytes, b: Bytes, offset: nat)
    requires offset < |a| && ObuAt(a, offset).Some?
    requires |a| == |b| || (ObuAt(a, offset).value.hasSize && ObuAt(a, offset).value.end <= |b|)
    requires SameOn(a, b, offset, ObuAt(a, offset).value.start)
    ensures ObuAt(b, offset) == ObuAt(a, offset)
  {
    var h := ParseHeader(a[offset]).value;
    if h.hasSize {
      Leb128.ReadLocal(a, b, offset + HeaderLen(h));
    }
  }

  lemma SameBefore(a: Bytes, b: Bytes, ranges: seq<Range>, lo: nat, mid: nat, hi: nat)
    requires lo <= mid <= hi && InOrder(ranges, mid, hi) && SameOutside(a, b, ranges, lo, hi)
    ensures SameOn(a, b, lo, mid) && SameOutside(a, b, ranges, mid, hi)
  {
    InOrderEnds(ranges, mid, hi);
    assert forall i :: lo <= i < mid ==> !Covered(ranges, i);
  }

  lemma LengthLocal(a: Bytes, b: Bytes, offset: nat, len: Leb128.Leb, ranges: seq<Range>, end: nat)
    requires |a| == |b| && offset < |a| && Leb128.Read(a, offset) == Some(len) && offset + len.length <= end <= |a|
    requires InOrder(ranges, offset + len.length, end) && SameOutside(a, b, ranges, offset, end)
    ensures Leb128.Read(b, offset) == Some(len) && SameOutside(a, b, ranges, offset + len.length, end)
  {
    SameBefore(a, b, ranges, offset, offset + len.length, end);
    Leb128.ReadLocal(a, b, offset);
  }

  lemma AnnexBElementIs(b: Bytes, offset: nat, len: Leb128.Leb, ranges: seq<Range>, end: nat)
    requires offset < |b| && Leb128.Read(b, offset) == Some(len) && end == offset + len.length + len.value <= |b|
    requires if len.value == 0 then ranges == [] else InnerPayload(b, offset + len.length, end) == Some(ranges)
    ensures AnnexBElement(b, offset) == Some(Element(ranges, end, false))
  {
  }

  lemma AnnexBElementWith(a: Bytes, b: Bytes, offset: nat, len: Leb128.Leb, ranges: seq<Range>, end: nat)
    requires |a| == |b| && offset < |a| && Leb128.Read(a, offset) == Some(len)
    requires end == offset + len.length + len.value <= |a|
    requires if len.value == 0 then ranges == [] else InnerPayload(a, offset + len.length, end) == Some(ranges)
    requires InOrder(ranges, offset + len.length, end) && SameOutside(a, b, ranges, offset, end)
    ensures AnnexBElement(b, offset) == Some(Element(ranges, end, false))
  {
    LengthLocal(a, b, offset, len, ranges, end);
    if len.value > 0 {
      InnerPayloadLocal(a, b, offset + len.length, end);
    }
    AnnexBElementIs(b, offset, len, ranges, end);
  }

  lemma AnnexBElementLocal(a: Bytes, b: Bytes, offset: nat)
    requires |a| == |b| && offset < |a| && AnnexBElement(a, offset).Some?
    requires var e := AnnexBElement(a, offset).value; e.next <= |a| && SameOutside(a, b, e.ranges, offset, e.next)
    ensures AnnexBElement(b, offset) == AnnexBElement(a, offset)
  {
    var e := AnnexBElement(a, offset).value;
    AnnexBElementWith(a, b, offset, Leb128.Read(a, offset).value, e.ranges, e.next);
  }

  lemma RtpBodyLocal(a: Bytes, b: Bytes, continued: bool, start: nat, end: nat, stop: bool)
    requires |a| == |b| && start <= end <= |a| && RtpBody(a, continued, start, end, stop).Some?
    requires SameOutside(a, b, RtpBody(a, continued, start, end, stop).value.ranges, start, end)
    ensures RtpBody(b, continued, start, end, stop) == RtpBody(a, continued, start, end, stop)
  {
    if start < end && !continued {
      InnerPayloadLocal(a, b, start, end);
    }
  }

  lemma RtpPrefixedIs(b: Bytes, continued: bool, offset: nat, stop: bool, len: Leb128.Leb, e: Element)
    requires offset < |b| && Leb128.Read(b, offset) == Some(len) && offset + len.length + len.value <= |b|
    requires RtpBody(b, continued, offset + len.length, offset + len.length + len.value, stop) == Some(e)
    ensures RtpPrefixed(b, continued, offset, stop) == Some(e)
  {
  }

  lemma RtpPrefixedHas(a: Bytes, continued: bool, offset: nat, stop: bool, e: Element) returns (len: Leb128.Leb)
    requires offset < |a| && RtpPrefixed(a, continued, offset, stop) == Some(e)
    ensures Leb128.Read(a, offset) == Some(len) && offset + len.length + len.value == e.next <= |a|
    ensures RtpBody(a, continued, offset + len.length, e.next, stop) == Some(e)
  {
    len := Leb128.Read(a, offset).value;
  }

  lemma RtpPrefixedLocal(a: Bytes, b: Bytes, continued: bool, offset: nat, stop: bool, e: Element)
    requires |a| == |b| && offset < |a| && RtpPrefixed(a, continued, offset, stop) == Some(e)
    requires SameOutside(a, b, e.ranges, offset, e.next)
    ensures RtpPrefixed(b, continued, offset, stop) == Some(e)
  {
    var len := RtpPrefixedHas(a, continued, offset, stop, e);
    RtpPrefixedWith(a, b, continued, offset, stop, len, e);
  }

  lemma RtpPrefixedWith(a: Bytes, b: Bytes, continued: bool, offset: nat, stop: bool, len: Leb128.Leb, e: Element)
    requires |a| == |b| && offset < |a| && Leb128.Read(a, offset) == Some(len)
    requires e.next <= |a| && offset + len.length + len.value == e.next && SameOutside(a, b, e.ranges, offset, e.next)
    requires RtpBody(a, continued, offset + len.length, e.next, stop) == Some(e)
    ensures RtpPrefixed(b, continued, offset, stop) == Some(e)
  {
    LengthLocal(a, b, offset, len, e.ranges, e.next);
    RtpBodyLocal(a, b, continued, offset + len.length, e.next, stop);
    RtpPrefixedIs(b, continued, offset, stop, len, e);
  }

  lemma RtpElementLocal(a: Bytes, b: Bytes, z: bool, w: nat, offset: nat, index: nat)
    requires |a| == |b| && offset < |a| && RtpElement(a, z, w, offset, index).Some?
    requires var e := RtpElement(a, z, w, offset, index).value; e.next <= |a| && SameOutside(a, b, e.ranges, offset, e.next)
    ensures RtpElement(b, z, w, offset, index) == RtpElement(a, z, w, offset, index)
  {
    var stop := w > 0 && index + 1 >= w;
    if w > 0 && index + 1 == w {
      RtpBodyLocal(a, b, z && index == 0, offset, |a|, stop);
    } else {
      RtpPrefixedLocal(a, b, z && index == 0, offset, stop, RtpElement(a, z, w, offset, index).value);
    }
  }

  lemma ElementLocal(format: Format, a: Bytes, b: Bytes, offset: nat, index: nat)
    requires |a| == |b| && offset < |a| && ElementAt(format, a, offset, index).Some?
    requires var e := ElementAt(format, a, offset, index).value; SameOutside(a, b, e.ranges, offset, e.next)
    ensures ElementAt(format, b, offset, index) == ElementAt(format, a, offset, index)
  {
    match format
    case SizeField => ObuAtLocal(a, b, offset);
    case AnnexB => AnnexBElementLocal(a, b, offset);
    case Rtp(z, w) => RtpElementLocal(a, b, z, w, offset, index);
  }

  /** Restricting the covering ranges to one side of a cut. */
  lemma SameOutsideSplit(a: Bytes, b: Bytes, xs: seq<Range>, ys: seq<Range>, lo: nat, mid: nat, hi: nat)
    requires InOrder(xs, lo, mid) && InOrder(ys, mid, hi)
    requires SameOutside(a, b, xs + ys, lo, hi)
    ensures SameOutside(a, b, xs, lo, mid) && SameOutside(a, b, ys, mid, hi)
  {
    InOrderEnds(xs, lo, mid);
    InOrderEnds(ys, mid, hi);
    forall i | lo <= i < mid && !Covered(xs, i)
      ensures !Covered(xs + ys, i)
    {
    }
    forall i | mid <= i < hi && !Covered(ys, i)
      ensures !Covered(xs + ys, i)
    {
    }
  }

  lemma {:induction false} RangesFromLocal(format: Format, a: Bytes, b: Bytes, offset: nat, index: nat)
    requires offset <= |a| && RangesFrom(format, a, offset, index).Some?
    requires SameOutside(a, b, RangesFrom(format, a, offset, index).value, offset, |a|)
    ensures RangesFrom(format, b, offset, index) == RangesFrom(format, a, offset, index)
    decreases |a| - offset
  {
    if offset < |a| {
      var e := ElementAt(format, a, offset, index).value;
      if e.last {
        ElementLocal(format, a, b, offset, index);
      } else {
        var rest := RangesFrom(format, a, e.next, index + 1).value;
        RangesFromInOrder(format, a, e.next, index + 1);
        SameOutsideSplit(a, b, e.ranges, rest, offset, e.next, |a|);
        ElementLocal(format, a, b, offset, index);
        RangesFromLocal(format, a, b, e.next, index + 1);
      }
    }
  }

  lemma RtpRangesLocal(a: Bytes, b: Bytes)
    requires RtpRanges(a).Some? && SameOutside(a, b, RtpRanges(a).value, 0, |a|)
    ensures RtpRanges(b) == RtpRanges(a)
  {
    RangesFromInOrder(RtpFormat(a[0]), a, 1, 0);
    InOrderEnds(RtpRanges(a).value, 1, |a|);
    assert !Covered(RtpRanges(a).value, 0);
    RangesFromLocal(RtpFormat(a[0]), a, b, 1, 0);
  }

  /** Whatever replaces the protected bytes, the parser finds the same layout again. */
  lemma ParseLocal(parser: Parser, a: Bytes, b: Bytes)
    requires Parse(parser, a).Some? && SameOutside(a, b, Parse(parser, a).value, 0, |a|)
    ensures Parse(parser, b) == Parse(parser, a)
  {
    match parser
    case SizeFieldStream => RangesFromLocal(SizeField, a, b, 0, 0);
    case AnnexBStream => RangesFromLocal(AnnexB, a, b, 0, 0);
    case RtpPayload => RtpRangesLocal(a, b);
    case RtxPayload =>
      var inner := RtpRanges(a[2..]).value;
      forall i | 0 <= i < |a| - 2 && !Covered(inner, i)
        ensures a[2..][i] == b[2..][i]
      {
        assert !Covered(Shift(inner, 2), i + 2);
        assert a[i + 2] == b[i + 2];
      }
      RtpRangesLocal(a[2..], b[2..]);
  }

  // ---------- The loops ----------

  lemma SizeFieldNext(data: Bytes, offset: nat, index: nat, before: seq<Range>)
    requires offset < |data| && ObuAt(data, offset).Some?
    ensures var o := ObuAt(data, offset).value; var more := before + Protected(o.obuType, o.start, o.end);
      Prepend(before, RangesFrom(SizeField, data, offset, index))
        == if o.hasSize then Prepend(more, RangesFrom(SizeField, data, o.end, index + 1)) else Some(more)
  {
    var o := ObuAt(data, offset).value;
    if o.hasSize {
      PrependAppend(before, Protected(o.obuType, o.start, o.end), RangesFrom(SizeField, data, o.end, index + 1));
    }
  }

  lemma ProtectedTotal(before: seq<Range>, obuType: nat, start: nat, end: nat)
    requires start <= end
    ensures var from := start + ClearPrefix(obuType, start, end);
      Total(before + Protected(obuType, start, end)) == Total(before) + if from < end then end - from else 0
  {
    TotalAppend(before, Protected(obuType, start, end));
  }

  /** What is left to do from `offset` on completes `ranges` to `goal`. */
  ghost predicate Completes(ranges: seq<Range>, data: Bytes, offset: nat, index: nat, goal: Option<seq<Range>>)
    requires offset <= |data|
  {
    Prepend(ranges, RangesFrom(SizeField, data, offset, index)) == goal
  }

  /** One OBU: its protected range, if any, is appended. */
  method AddObu(o: Obu, ranges: seq<Range>, total: int) returns (ranges': seq<Range>, total': int)
    requires o.start <= o.end && total == Total(ranges)
    ensures ranges' == ranges + Protected(o.obuType, o.start, o.end) && total' == Total(ranges')
  {
    ProtectedTotal(ranges, o.obuType, o.start, o.end);
    var from := o.start + ClearPrefix(o.obuType, o.start, o.end);
    if from < o.end {
      return ranges + [Range(from, o.end)], total + o.end - from;
    }
    assert ranges + [] == ranges;
    return ranges, total;
  }

  lemma CompletesNext(ranges: seq<Range>, data: Bytes, offset: nat, index: nat, goal: Option<seq<Range>>, o: Obu)
    requires offset < |data| && ObuAt(data, offset) == Some(o) && Completes(ranges, data, offset, index, goal)
    ensures var more := ranges + Protected(o.obuType, o.start, o.end);
      if o.hasSize then Completes(more, data, o.end, index + 1, goal) else goal == Some(more)
  {
    SizeFieldNext(data, offset, index, ranges);
  }

  lemma CompletesNone(ranges: seq<Range>, data: Bytes, offset: nat, index: nat, goal: Option<seq<Range>>)
    requires offset < |data| && ObuAt(data, offset) == None && Completes(ranges, data, offset, index, goal)
    ensures goal == None
  {
  }

  lemma CompletesAll(ranges: seq<Range>, data: Bytes, index: nat, goal: Option<seq<Range>>)
    requires Completes(ranges, data, |data|, index, goal)
    ensures goal == Some(ranges)
  {
    assert ranges + [] == ranges;
  }

  method SizeFieldLayout(data: Bytes) returns (r: Option<Layout>)
    ensures r == ToLayout(Parse(SizeFieldStream, data))
  {
    var ranges: seq<Range>, total, offset := [], 0, 0;
    ghost var index := 0;
    ghost var goal := Parse(SizeFieldStream, data);
    PrependNothing(goal);
    while offset < |data|
      invariant offset <= |data| && total == Total(ranges)
      invariant Completes(ranges, data, offset, index, goal)
    {
      var o := ObuAt(data, offset);
      if o.None? {
        CompletesNone(ranges, data, offset, index, goal);
        return None;
      }
      CompletesNext(ranges, data, offset, index, goal, o.value);
      ranges, total := AddObu(o.value, ranges, total);
      offset := o.value.end;
      if !o.value.hasSize {
        return Some(Layout(ranges, total));
      }
      index := index + 1;
    }
    CompletesAll(ranges, data, index, goal);
    r := Some(Layout(ranges, total));
  }

  method AnnexBLayout(data: Bytes) returns (r: Option<Layout>)
    ensures r == ToLayout(Parse(AnnexBStream, data))
  {
    var ranges: seq<Range>, total, offset := [], 0, 0;
    ghost var index := 0;
    PrependNothing(Parse(AnnexBStream, data));
    while offset < |data|
      invariant offset <= |data| && total == Total(ranges)
      invariant Prepend(ranges, RangesFrom(AnnexB, data, offset, index)) == Parse(AnnexBStream, data)
    {
      var e := AnnexBElement(data, offset);
      if e.None? {
        return None;
      }
      PrependAppend(ranges, e.value.ranges, RangesFrom(AnnexB, data, e.value.next, index + 1));
      TotalAppend(ranges, e.value.ranges);
      ranges := ranges + e.value.ranges;
      total := total + Total(e.value.ranges);
      offset := e.value.next;
      index := index + 1;
    }
    assert ranges + [] == ranges;
    r := Some(Layout(ranges, total));
  }

  method RtpLayout(data: Bytes) returns (r: Option<Layout>)
    ensures r == ToLayout(Parse(RtpPayload, data))
  {
    if |data| < 2 || data[0] % 8 != 0 {
      return None;
    }
    var z, w := data[0] >= 0x80, data[0] / 16 % 4;
    var ranges: seq<Range>, total, offset, index := [], 0, 1, 0;
    PrependNothing(Parse(RtpPayload, data));
    while offset < |data|
      invariant offset <= |data| && total == Total(ranges)
      invariant Prepend(ranges, RangesFrom(Rtp(z, w), data, offset, index)) == Parse(RtpPayload, data)
    {
      var e := RtpElement(data, z, w, offset, index);
      if e.None? {
        return None;
      }
      PrependAppend(ranges, e.value.ranges, RangesFrom(Rtp(z, w), data, e.value.next, index + 1));
      TotalAppend(ranges, e.value.ranges);
      ranges := ranges + e.value.ranges;
      total := total + Total(e.value.ranges);
      offset := e.value.next;
      index := index + 1;
      if e.value.last {
        assert Parse(RtpPayload, data) == Some(ranges);
        break;
      }
    }
    assert ranges + [] == ranges;
    r := Some(Layout(ranges, total));
  }

  method RtxLayout(data: Bytes) returns (r: Option<Layout>)
    ensures r == ToLayout(Parse(RtxPayload, data))
  {
    if |data| < 3 {
      return None;
    }
    var inner := RtpLayout(data[2..]);
    if inner.None? {
      return None;
    }
    var ranges := ShiftRanges(inner.value.ranges, 2);
    r := Some(Layout(ranges, Total(ranges)));
  }

  method ShiftRanges(inner: seq<Range>, delta: nat) returns (ranges: seq<Range>)
    ensures ranges == Shift(inner, delta)
  {
    ranges := [];
    for k := 0 to |inner|
      invariant |ranges| == k
      invariant forall i :: 0 <= i < k ==> ranges[i] == Range(inner[i].start + delta, inner[i].end + delta)
    {
      ranges := ranges + [Range(inner[k].start + delta, inner[k].end + delta)];
    }
  }

  lemma TotalAppend(xs: seq<Range>, ys: seq<Range>)
    ensures Total(xs + ys) == Total(xs) + Total(ys)
  {
    if xs == [] {
      assert xs + ys == ys;
    } else {
      assert (xs + ys)[1..] == xs[1..] + ys;
    }
  }

  lemma PrependNothing(rest: Option<seq<Range>>)
    ensures Prepend([], rest) == rest
  {
    if rest.Some? {
      assert [] + rest.value == rest.value;
    }
  }

  lemma PrependAppend(xs: seq<Range>, ys: seq<Range>, rest: Option<seq<Range>>)
    ensures Prepend(xs, Prepend(ys, rest)) == Prepend(xs + ys, rest)
  {
    if rest.Some? {
      assert xs + (ys + rest.value) == (xs + ys) + rest.value;
    }
  }

  // ---------- OBUs as a sender writes them ----------

  function HeaderByte(h: Header): nat {
    8 * h.obuType + (if h.extension then 4 else 0) + (if h.hasSize then 2 else 0)
  }

  /** A header byte is read exactly if it is one: a type of four bits, two flags, the other two bits zero. */
  lemma HeaderReadIff(b: Byte, h: Header)
    ensures ParseHeader(b) == Some(h) <==> h.obuType < 16 && b == HeaderByte(h)
  {
    var e, s := if h.extension then 1 else 0, if h.hasSize then 1 else 0;
    assert HeaderByte(h) == 8 * h.obuType + 4 * e + 2 * s;
    if h.obuType < 16 && b == HeaderByte(h) {
      HeaderBits(h.obuType, e, s);
    }
    if ParseHeader(b) == Some(h) {
      HeaderParts(b);
    }
  }

  lemma HeaderParts(b: Byte)
    requires b < 0x80 && b % 2 == 0
    ensures b / 8 < 16 && b / 8 % 16 == b / 8 && b == 8 * (b / 8) + 4 * (b / 4 % 2) + 2 * (b / 2 % 2)
  {
  }

  lemma HeaderBits(t: nat, e: nat, s: nat)
    requires t < 16 && e < 2 && s < 2
    ensures var b := 8 * t + 4 * e + 2 * s; b < 0x80 && b % 2 == 0 && b / 8 == t && b / 4 % 2 == e && b / 2 % 2 == s
  {
    var b := 8 * t + 4 * e + 2 * s;
    assert b / 2 == 4 * t + 2 * e + s;
    assert b / 4 == 2 * t + e;
  }

  /** An OBU as a sender writes it: header, extension byte if the header says so, size field if it says so, payload. */
  function WrittenObu(h: Header, extension: Byte, payload: Bytes): Bytes
    requires h.obuType < 16
  {
    [HeaderByte(h)] + (if h.extension then [extension] else []) + SizeBytes(h, payload) + payload
  }

  function SizeBytes(h: Header, payload: Bytes): Bytes {
    if h.hasSize then Leb128.Write(|payload|) else []
  }

  /** Reading a written OBU gives its type and its payload, wherever it stands; without a size it must be the last. */
  lemma WrittenObuIsRead(pre: Bytes, h: Header, extension: Byte, payload: Bytes, post: Bytes, written: Bytes)
    requires h.obuType < 16 && |payload| < 0x1_0000_0000 && (h.hasSize || post == [])
    requires written == WrittenObu(h, extension, payload)
    ensures var data, end, size := pre + written + post, |pre| + |written|, |payload|;
      && ObuAt(data, |pre|) == Some(Obu(h.obuType, h.hasSize, end - size, end)) && data[end - size..end] == payload
  {
    var front := pre + [HeaderByte(h)] + (if h.extension then [extension] else []);
    var size := SizeBytes(h, payload);
    assert pre + written + post == front + size + (payload + post);
    assert ParseHeader(front[|pre|]) == Some(h) by {
      HeaderReadIff(HeaderByte(h), h);
    }
    assert h.hasSize ==> Leb128.Read(front + size + (payload + post), |front|) == Some(Leb128.Leb(|payload|, |size|)) by {
      Leb128.RoundTrip(front, |payload|, payload + post);
    }
    FrontIsRead(front, |pre|, h, size, payload, post);
  }

  lemma FrontIsRead(front: Bytes, at: nat, h: Header, size: Bytes, payload: Bytes, post: Bytes)
    requires at < |front| && |front| == at + HeaderLen(h) && ParseHeader(front[at]) == Some(h)
    requires if h.hasSize then Leb128.Read(front + size + (payload + post), |front|) == Some(Leb128.Leb(|payload|, |size|))
             else size == [] && post == []
    ensures var data, start := front + size + (payload + post), |front| + |size|;
      && ObuAt(data, at) == Some(Obu(h.obuType, h.hasSize, start, start + |payload|))
      && data[start..start + |payload|] == payload
  {
  }
}
