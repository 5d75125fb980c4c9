/** AV1 frame encryption of av1_e2ee.go: sealing, the metadata OBU, splitting and opening. */
module Av1Cipher {
  import opened Common
  import opened Aead
  import opened Av1Layout
  import Leb128

  // ---------- Reading and writing ranges ----------

  predicate ValidRange(r: Range, length: nat) {
    r.start <= r.end <= length
  }

  predicate ValidLayout(layout: Layout, length: nat) {
    (forall r :: r in layout.ranges ==> ValidRange(r, length)) && Total(layout.ranges) == layout.length
  }

  function Extract(data: Bytes, ranges: seq<Range>): Bytes {
    if ranges == [] then []
    else (if ValidRange(ranges[0], |data|) then data[ranges[0].start..ranges[0].end] else []) + Extract(data, ranges[1..])
  }

  /** The bytes the forward ranges ask for. */
  function Demand(ranges: seq<Range>): nat {
    if ranges == [] then 0
    else (if ranges[0].start <= ranges[0].end then ranges[0].end - ranges[0].start else 0) + Demand(ranges[1..])
  }

  function Write(data: Bytes, ranges: seq<Range>, source: Bytes): (r: Result<Bytes>)
    requires Demand(ranges) <= |source|
    ensures r.Ok? ==> |r.value| == |data|
    decreases |ranges|
  {
    if ranges == [] then Ok(data)
    else if !ValidRange(ranges[0], |data|) then Err
    else
      var n := ranges[0].end - ranges[0].start;
      Write(data[..ranges[0].start] + source[..n] + data[ranges[0].end..], ranges[1..], source[n..])
  }

  method ExtractRanges(data: Bytes, ranges: seq<Range>) returns (out: Bytes)
    ensures out == Extract(data, ranges)
  {
    out := [];
    for k := 0 to |ranges|
      invariant out + Extract(data, ranges[k..]) == Extract(data, ranges)
    {
      var r := ranges[k];
      if r.end < r.start || r.end > |data| {
        assert out + ([] + Extract(data, ranges[k..][1..])) == out + Extract(data, ranges[k + 1..]);
        continue;
      }
      assert out + (data[r.start..r.end] + Extract(data, ranges[k..][1..]))
          == (out + data[r.start..r.end]) + Extract(data, ranges[k + 1..]);
      out := out + data[r.start..r.end];
    }
  }

  /** What the remaining ranges will write is what all of them write. */
  ghost predicate WritesOn(data: Bytes, ranges: seq<Range>, source: Bytes, goal: Result<Bytes>) {
    Demand(ranges) <= |source| && Write(data, ranges, source) == goal
  }

  lemma WriteStep(data: Bytes, ranges: seq<Range>, source: Bytes, goal: Result<Bytes>, k: nat, readOffset: nat)
    requires k < |ranges| && readOffset <= |source| && WritesOn(data, ranges[k..], source[readOffset..], goal)
    ensures var r := ranges[k];
      if !ValidRange(r, |data|) then goal == Err
      else
        var next := readOffset + r.end - r.start;
        next <= |source|
        && WritesOn(data[..r.start] + source[readOffset..next] + data[r.end..], ranges[k + 1..], source[next..], goal)
  {
    var r := ranges[k];
    assert ranges[k..][0] == r && ranges[k..][1..] == ranges[k + 1..];
    if ValidRange(r, |data|) {
      var n := r.end - r.start;
      assert source[readOffset..][..n] == source[readOffset..readOffset + n];
      assert source[readOffset..][n..] == source[readOffset + n..];
    }
  }

  method WriteRanges(target: array<Byte>, ranges: seq<Range>, source: Bytes, total: int) returns (ok: bool)
    requires Demand(ranges) <= total
    modifies target
    ensures ok ==> |source| == total && Write(old(target[..]), ranges, source) == Ok(target[..])
    ensures |source| != total ==> target[..] == old(target[..])
    ensures !ok ==> |source| != total || Write(old(target[..]), ranges, source).Err?
  {
    if |source| != total {
      return false;
    }
    ghost var goal := Write(target[..], ranges, source);
    var readOffset := 0;
    assert ranges[0..] == ranges && source[0..] == source;
    for k := 0 to |ranges|
      invariant 0 <= readOffset <= |source|
      invariant WritesOn(target[..], ranges[k..], source[readOffset..], goal)
    {
      var r := ranges[k];
      WriteStep(target[..], ranges, source, goal, k, readOffset);
      if r.end < r.start || r.end > target.Length {
        return false;
      }
      var n := r.end - r.start;
      CopyInto(target, r.start, source[readOffset..readOffset + n]);
      readOffset := readOffset + n;
    }
    return true;
  }

  /** Go's `copy` into a slice of the target. */
  method CopyInto(target: array<Byte>, at: nat, source: Bytes)
    requires at + |source| <= target.Length
    modifies target
    ensures target[..] == old(target[..])[..at] + source + old(target[..])[at + |source|..]
  {
    ghost var before := target[..];
    for i := 0 to |source|
      invariant forall k :: 0 <= k < target.Length ==> target[k] == if at <= k < at + i then source[k - at] else before[k]
    {
      target[at + i] := source[i];
    }
    assert target[..] == before[..at] + source + before[at + |source|..];
  }

  lemma {:induction false} ExtractLength(data: Bytes, ranges: seq<Range>)
    requires forall r :: r in ranges ==> ValidRange(r, |data|)
    ensures |Extract(data, ranges)| == Total(ranges) == Demand(ranges)
    decreases |ranges|
  {
    if ranges != [] {
      ExtractLength(data, ranges[1..]);
    }
  }

  lemma InOrderIsValid(ranges: seq<Range>, lo: nat, hi: nat)
    requires InOrder(ranges, lo, hi)
    ensures ValidLayout(Layout(ranges, Total(ranges)), hi)
  {
    InOrderEnds(ranges, lo, hi);
  }

  /** Extraction sees nothing of what lies before the ranges. */
  lemma {:induction false} ExtractAgrees(a: Bytes, b: Bytes, ranges: seq<Range>, lo: nat, hi: nat)
    requires |a| == |b| && InOrder(ranges, lo, hi) && hi <= |a| && SameOn(a, b, lo, hi)
    ensures Extract(a, ranges) == Extract(b, ranges)
    decreases |ranges|
  {
    if ranges != [] {
      InOrderEnds(ranges, lo, hi);
      ExtractAgrees(a, b, ranges[1..], ranges[0].end, hi);
      assert a[ranges[0].start..ranges[0].end] == b[ranges[0].start..ranges[0].end];
    }
  }

  /** Writing succeeds, touches the ranges only, and what was written can be read back. */
  lemma {:induction false} WriteThenExtract(data: Bytes, ranges: seq<Range>, source: Bytes, lo: nat)
    requires InOrder(ranges, lo, |data|) && Total(ranges) == |source|
    ensures Demand(ranges) == Total(ranges)
    ensures Write(data, ranges, source).Ok?
    ensures Extract(Write(data, ranges, source).value, ranges) == source
    ensures SameOutside(data, Write(data, ranges, source).value, ranges, 0, |data|)
    ensures SameOn(data, Write(data, ranges, source).value, 0, lo)
    decreases |ranges|
  {
    InOrderIsValid(ranges, lo, |data|);
    ExtractLength(data, ranges);
    InOrderEnds(ranges, lo, |data|);
    if ranges != [] {
      var r := ranges[0];
      var n := r.end - r.start;
      var next := data[..r.start] + source[..n] + data[r.end..];
      InOrderIsValid(ranges[1..], r.end, |data|);
      ExtractLength(data, ranges[1..]);
      WriteThenExtract(next, ranges[1..], source[n..], r.end);
      var w := Write(data, ranges, source).value;
      assert w[r.start..r.end] == source[..n];
      assert source[..n] + source[n..] == source;
      OutsideAll(data, next, w, ranges);
    }
  }

  lemma OutsideAll(data: Bytes, next: Bytes, w: Bytes, ranges: seq<Range>)
    requires ranges != [] && |next| == |data| && SameOutside(next, w, ranges[1..], 0, |data|)
    requires forall i :: 0 <= i < |data| && !(ranges[0].start <= i < ranges[0].end) ==> next[i] == data[i]
    ensures SameOutside(data, w, ranges, 0, |data|)
  {
    forall i | 0 <= i < |data| && !Covered(ranges, i)
      ensures data[i] == w[i]
    {
      assert !(ranges[0].start <= i < ranges[0].end);
      assert forall k :: 0 <= k < |ranges[1..]| ==> ranges[1..][k] == ranges[k + 1];
      assert !Covered(ranges[1..], i);
    }
  }

  /** Two frames that agree outside the ranges and inside them are the same frame. */
  lemma {:induction false} SameEverywhere(a: Bytes, b: Bytes, ranges: seq<Range>, lo: nat)
    requires |a| == |b| && InOrder(ranges, lo, |a|)
    requires SameOutside(a, b, ranges, lo, |a|) && Extract(a, ranges) == Extract(b, ranges)
    ensures SameOn(a, b, lo, |a|)
    decreases |ranges|
  {
    InOrderEnds(ranges, lo, |a|);
    if ranges == [] {
      assert forall i :: lo <= i < |a| ==> !Covered(ranges, i);
    } else {
      var r := ranges[0];
      assert InOrder([r], lo, r.end);
      assert [r] + ranges[1..] == ranges;
      SameOutsideSplit(a, b, [r], ranges[1..], lo, r.end, |a|);
      var ea, eb := Extract(a, ranges[1..]), Extract(b, ranges[1..]);
      assert (a[r.start..r.end] + ea)[..r.end - r.start] == a[r.start..r.end];
      assert (b[r.start..r.end] + eb)[..r.end - r.start] == b[r.start..r.end];
      assert (a[r.start..r.end] + ea)[r.end - r.start..] == ea;
      assert (b[r.start..r.end] + eb)[r.end - r.start..] == eb;
      SameEverywhere(a, b, ranges[1..], r.end);
      forall i | lo <= i < r.end
        ensures a[i] == b[i]
      {
        if i >= r.start {
          assert a[i] == a[r.start..r.end][i - r.start] && b[i] == b[r.start..r.end][i - r.start];
        } else {
          assert !Covered([r], i);
        }
      }
    }
  }

  /** Putting back what was extracted restores the frame, whatever the ranges held meanwhile. */
  lemma WriteRestores(data: Bytes, ranges: seq<Range>, cover: Bytes)
    requires InOrder(ranges, 0, |data|) && |cover| == Total(ranges)
    ensures Demand(ranges) == Total(ranges) == |Extract(data, ranges)|
    ensures Write(data, ranges, cover).Ok?
      && Write(Write(data, ranges, cover).value, ranges, Extract(data, ranges)) == Ok(data)
      && Write(data, ranges, Extract(data, ranges)) == Ok(data)
  {
    InOrderIsValid(ranges, 0, |data|);
    ExtractLength(data, ranges);
    WriteThenExtract(data, ranges, cover, 0);
    var c := Write(data, ranges, cover).value;
    var plain := Extract(data, ranges);
    WriteThenExtract(c, ranges, plain, 0);
    WriteThenExtract(data, ranges, plain, 0);
    var back, same := Write(c, ranges, plain).value, Write(data, ranges, plain).value;
    assert SameOutside(data, back, ranges, 0, |data|);
    SameEverywhere(data, back, ranges, 0);
    SameEverywhere(data, same, ranges, 0);
    assert back == data && same == data;
  }

  // ---------- Layout candidates ----------

  /** The parsers in the order the first byte suggests. */
  function ParserOrder(first: Byte): (order: seq<Parser>)
    ensures first < 0x80 && first % 2 == 0 ==> |order| > 0 && order[0] == SizeFieldStream
  {
    var looksLikeObu := first < 0x80 && first % 2 == 0;
    var looksLikeRtp := first % 8 == 0;
    if looksLikeObu && looksLikeRtp then [SizeFieldStream, AnnexBStream, RtpPayload, RtxPayload]
    else if looksLikeObu then [SizeFieldStream, AnnexBStream, RtxPayload]
    else if looksLikeRtp then [RtpPayload, RtxPayload, SizeFieldStream, AnnexBStream]
    else [SizeFieldStream, AnnexBStream, RtpPayload, RtxPayload]
  }

  /** Distinct valid layouts, in parser order, after the ones already `found`. */
  function Collect(data: Bytes, parsers: seq<Parser>, found: seq<Layout>): (r: seq<Layout>)
    requires forall l :: l in found ==> ValidLayout(l, |data|)
    ensures found <= r && forall l :: l in r ==> ValidLayout(l, |data|)
    decreases |parsers|
  {
    if parsers == [] then found else Collect(data, parsers[1..], Consider(data, ToLayout(Parse(parsers[0], data)), found))
  }

  function Consider(data: Bytes, layout: Option<Layout>, found: seq<Layout>): (r: seq<Layout>)
    requires forall l :: l in found ==> ValidLayout(l, |data|)
    ensures found <= r && forall l :: l in r ==> ValidLayout(l, |data|)
  {
    if layout.None? || !ValidLayout(layout.value, |data|) || layout.value in found then found
    else found + [layout.value]
  }

  /** An empty list stands for the error of the original. */
  function Candidates(data: Bytes): (r: seq<Layout>)
    ensures forall l :: l in r ==> ValidLayout(l, |data|)
  {
    if data == [] then [] else Collect(data, ParserOrder(data[0]), [])
  }

  method RunParser(parser: Parser, data: Bytes) returns (r: Option<Layout>)
    ensures r == ToLayout(Parse(parser, data))
  {
    match parser
    case SizeFieldStream => r := SizeFieldLayout(data);
    case AnnexBStream => r := AnnexBLayout(data);
    case RtpPayload => r := RtpLayout(data);
    case RtxPayload => r := RtxLayout(data);
  }

  method ComputeCandidates(data: Bytes) returns (layouts: seq<Layout>)
    ensures layouts == Candidates(data)
  {
    if |data| == 0 {
      return [];
    }
    var parsers := ParserOrder(data[0]);
    layouts := [];
    for k := 0 to |parsers|
      invariant forall l :: l in layouts ==> ValidLayout(l, |data|)
      invariant Collect(data, parsers[k..], layouts) == Candidates(data)
    {
      var layout := RunParser(parsers[k], data);
      if layout.Some? && ValidLayout(layout.value, |data|) && layout.value !in layouts {
        layouts := layouts + [layout.value];
      }
    }
  }

  /** Every layout any frame can be given is ascending, disjoint, in bounds, and its length is its total. */
  lemma {:induction false} CollectedInOrder(data: Bytes, parsers: seq<Parser>, found: seq<Layout>)
    requires forall l :: l in found ==> ValidLayout(l, |data|) && InOrder(l.ranges, 0, |data|)
    ensures forall l :: l in Collect(data, parsers, found) ==> InOrder(l.ranges, 0, |data|) && l.length == Total(l.ranges)
    decreases |parsers|
  {
    if parsers != [] {
      if Parse(parsers[0], data).Some? {
        ParseInOrder(parsers[0], data);
      }
      CollectedInOrder(data, parsers[1..], Consider(data, ToLayout(Parse(parsers[0], data)), found));
    }
  }

  /** The layouts of the parsers that accept the data. */
  ghost predicate Accepted(data: Bytes, l: Layout) {
    exists p: Parser :: ToLayout(Parse(p, data)) == Some(l)
  }

  lemma {:induction false} CollectedIff(data: Bytes, parsers: seq<Parser>, found: seq<Layout>, l: Layout)
    requires forall k :: k in found ==> ValidLayout(k, |data|)
    ensures l in Collect(data, parsers, found) <==> l in found || exists p :: p in parsers && ToLayout(Parse(p, data)) == Some(l)
    decreases |parsers|
  {
    if parsers != [] {
      var layout := ToLayout(Parse(parsers[0], data));
      assert layout.Some? ==> ValidLayout(layout.value, |data|) by {
        if layout.Some? {
          ParseInOrder(parsers[0], data);
          InOrderIsValid(layout.value.ranges, 0, |data|);
        }
      }
      CollectedIff(data, parsers[1..], Consider(data, layout, found), l);
      assert forall p :: p in parsers <==> p == parsers[0] || p in parsers[1..];
    }
  }

  /** Every parser that can accept the data is tried: the candidates are the layouts of all parsers that do. */
  lemma CandidatesAreAccepted(data: Bytes, l: Layout)
    requires data != []
    ensures l in Candidates(data) <==> Accepted(data, l)
  {
    var order := ParserOrder(data[0]);
    CollectedIff(data, order, [], l);
    forall p: Parser | ToLayout(Parse(p, data)) == Some(l)
      ensures p in order
    {
      assert p == RtpPayload ==> data[0] % 8 == 0;
    }
  }

  lemma {:induction false} CollectedFirst(data: Bytes, parsers: seq<Parser>, found: seq<Layout>)
    requires found != [] && forall k :: k in found ==> ValidLayout(k, |data|)
    ensures Collect(data, parsers, found) != [] && Collect(data, parsers, found)[0] == found[0]
    decreases |parsers|
  {
    if parsers != [] {
      CollectedFirst(data, parsers[1..], Consider(data, ToLayout(Parse(parsers[0], data)), found));
    }
  }

  function First(layouts: seq<Layout>): Option<Layout> {
    if layouts == [] then None else Some(layouts[0])
  }

  function FirstSome(layouts: seq<Option<Layout>>): Option<Layout> {
    if layouts == [] || layouts[0].Some? then (if layouts == [] then None else layouts[0]) else FirstSome(layouts[1..])
  }

  lemma {:induction false} CollectedIsFirst(data: Bytes, parsers: seq<Parser>, layouts: seq<Option<Layout>>)
    requires |layouts| == |parsers| && forall k :: 0 <= k < |parsers| ==> layouts[k] == ToLayout(Parse(parsers[k], data))
    ensures First(Collect(data, parsers, [])) == FirstSome(layouts)
    decreases |parsers|
  {
    if parsers != [] {
      if layouts[0].Some? {
        ParseInOrder(parsers[0], data);
        InOrderIsValid(layouts[0].value.ranges, 0, |data|);
        assert Consider(data, layouts[0], []) == [layouts[0].value];
        CollectedFirst(data, parsers[1..], [layouts[0].value]);
      } else {
        CollectedIsFirst(data, parsers[1..], layouts[1..]);
      }
    }
  }

  function ChooseLayout(parser: Parser, sized: Option<Layout>, annexB: Option<Layout>, rtp: Option<Layout>,
      rtx: Option<Layout>): Option<Layout>
  {
    match parser
    case SizeFieldStream => sized
    case AnnexBStream => annexB
    case RtpPayload => rtp
    case RtxPayload => rtx
  }

  lemma {:induction false} InThisOrder(first: Byte, sized: Option<Layout>, annexB: Option<Layout>, rtp: Option<Layout>,
      rtx: Option<Layout>, tried: seq<Option<Layout>>)
    requires first % 8 != 0 ==> rtp == None
    requires |tried| == |ParserOrder(first)|
    requires forall k :: 0 <= k < |tried| ==> tried[k] == ChooseLayout(ParserOrder(first)[k], sized, annexB, rtp, rtx)
    ensures FirstSome(tried)
      == FirstSome(if first >= 0x80 && first % 8 == 0 then [rtp, rtx, sized, annexB] else [sized, annexB, rtp, rtx])
  {
    if first < 0x80 && first % 2 == 0 && first % 8 != 0 {
      assert tried == [sized, annexB, rtx];
      assert tried[1..] == [annexB, rtx] && tried[1..][1..] == [rtx];
    } else {
      assert tried == if first >= 0x80 && first % 8 == 0 then [rtp, rtx, sized, annexB] else [sized, annexB, rtp, rtx];
    }
  }

  ghost predicate TheseLayouts(data: Bytes, sized: Option<Layout>, annexB: Option<Layout>, rtp: Option<Layout>,
      rtx: Option<Layout>)
  {
    && sized == ToLayout(Parse(SizeFieldStream, data)) && annexB == ToLayout(Parse(AnnexBStream, data))
    && rtp == ToLayout(Parse(RtpPayload, data)) && rtx == ToLayout(Parse(RtxPayload, data))
  }

  lemma RtpIsRefused(data: Bytes)
    requires data != [] && data[0] % 8 != 0
    ensures ToLayout(Parse(RtpPayload, data)) == None
  {
  }

  lemma ChosenIsMade(data: Bytes, parser: Parser, sized: Option<Layout>, annexB: Option<Layout>, rtp: Option<Layout>,
      rtx: Option<Layout>)
    requires TheseLayouts(data, sized, annexB, rtp, rtx)
    ensures ChooseLayout(parser, sized, annexB, rtp, rtx) == ToLayout(Parse(parser, data))
  {
  }

  lemma AllAreMade(data: Bytes, order: seq<Parser>, sized: Option<Layout>, annexB: Option<Layout>, rtp: Option<Layout>,
      rtx: Option<Layout>) returns (tried: seq<Option<Layout>>)
    requires TheseLayouts(data, sized, annexB, rtp, rtx)
    ensures |tried| == |order|
    ensures forall k :: 0 <= k < |tried| ==> tried[k] == ChooseLayout(order[k], sized, annexB, rtp, rtx)
    ensures First(Collect(data, order, [])) == FirstSome(tried)
  {
    tried := seq(|order|, k requires 0 <= k < |order| => ChooseLayout(order[k], sized, annexB, rtp, rtx));
    forall k | 0 <= k < |order|
      ensures tried[k] == ToLayout(Parse(order[k], data))
    {
      ChosenIsMade(data, order[k], sized, annexB, rtp, rtx);
    }
    CollectedIsFirst(data, order, tried);
  }

  /** What cannot be an OBU but can be an RTP payload is read as one first, anything else as a size-field stream. */
  lemma FirstCandidate(data: Bytes, sized: Option<Layout>, annexB: Option<Layout>, rtp: Option<Layout>, rtx: Option<Layout>)
    requires data != [] && TheseLayouts(data, sized, annexB, rtp, rtx)
    ensures First(Candidates(data))
      == FirstSome(if data[0] >= 0x80 && data[0] % 8 == 0 then [rtp, rtx, sized, annexB] else [sized, annexB, rtp, rtx])
  {
    if data[0] % 8 != 0 {
      RtpIsRefused(data);
    }
    var tried := AllAreMade(data, ParserOrder(data[0]), sized, annexB, rtp, rtx);
    InThisOrder(data[0], sized, annexB, rtp, rtx, tried);
  }

  // ---------- The metadata OBU ----------

  datatype Metadata = Metadata(keyIndex: Byte, iv: Bytes, tag: Bytes)

  const MAGIC: Bytes := [0x4c, 0x4b, 1]

  function MetadataObu(meta: Metadata): Bytes {
    [OBU_METADATA * 8 + 2] + Leb128.Write(32) + MAGIC + [meta.keyIndex] + meta.iv + meta.tag
  }

  function ParseMetadata(payload: Bytes): Option<Metadata> {
    if |payload| != 32 || payload[..3] != MAGIC then None
    else Some(Metadata(payload[3], payload[4..16], payload[16..32]))
  }

  predicate GoodMetadata(meta: Metadata) {
    |meta.iv| == IV_LENGTH && |meta.tag| == TAG_LENGTH
  }

  // ---------- Encryption ----------

  function Encrypt(c: Cipher, iv: Bytes, keyIndex: Byte, plain: Bytes): Result<Bytes> {
    if plain == [] then Ok([])
    else if Candidates(plain) == [] then Err
    else EncryptWith(c, iv, keyIndex, plain, Candidates(plain)[0])
  }

  function EncryptWith(c: Cipher, iv: Bytes, keyIndex: Byte, plain: Bytes, layout: Layout): Result<Bytes>
    requires ValidLayout(layout, |plain|)
  {
    ExtractLength(plain, layout.ranges);
    var text := Extract(plain, layout.ranges);
    var box := c.seal(iv, text, []);
    if |box| != |text| + TAG_LENGTH || |iv| != IV_LENGTH then Err
    else
      match Write(plain, layout.ranges, box[..|text|])
      case Err => Err
      case Ok(out) => Ok(out + MetadataObu(Metadata(keyIndex, iv, box[|text|..])))
  }

  method BuildMetadataObu(meta: Metadata) returns (r: Result<Bytes>)
    ensures r == if GoodMetadata(meta) then Ok(MetadataObu(meta)) else Err
  {
    if |meta.iv| != IV_LENGTH || |meta.tag| != TAG_LENGTH {
      return Err;
    }
    var size := Leb128.WriteLeb128(32);
    return Ok([OBU_METADATA * 8 + 2] + size + MAGIC + [meta.keyIndex] + meta.iv + meta.tag);
  }

  /** A copy of the frame with the protected bytes overwritten in place. */
  method Overwrite(data: Bytes, layout: Layout, source: Bytes) returns (r: Result<Bytes>)
    requires ValidLayout(layout, |data|) && |source| == layout.length
    ensures Demand(layout.ranges) <= |source| && r == Write(data, layout.ranges, source)
  {
    ExtractLength(data, layout.ranges);
    var out := new Byte[|data|](i requires 0 <= i < |data| => data[i]);
    assert out[..] == data;
    var ok := WriteRanges(out, layout.ranges, source, layout.length);
    if !ok {
      return Err;
    }
    return Ok(out[..]);
  }

  method EncryptLayout(c: Cipher, iv: Bytes, keyIndex: Byte, plain: Bytes, layout: Layout) returns (r: Result<Bytes>)
    requires ValidLayout(layout, |plain|)
    ensures r == EncryptWith(c, iv, keyIndex, plain, layout)
  {
    var text := ExtractRanges(plain, layout.ranges);
    ExtractLength(plain, layout.ranges);
    var box := c.seal(iv, text, []);
    if |box| != |text| + TAG_LENGTH {
      return Err;
    }
    var metaObu := BuildMetadataObu(Metadata(keyIndex, iv, box[|text|..]));
    if metaObu.Err? {
      return Err;
    }
    var out := Overwrite(plain, layout, box[..|text|]);
    if out.Err? {
      return Err;
    }
    return Ok(out.value + metaObu.value);
  }

  /** The caller draws the IV at random. */
  method EncryptObuStream(c: Cipher, iv: Bytes, keyIndex: Byte, plain: Bytes) returns (r: Result<Bytes>)
    ensures r == Encrypt(c, iv, keyIndex, plain)
  {
    if |plain| == 0 {
      return Ok([]);
    }
    var layouts := ComputeCandidates(plain);
    if |layouts| == 0 {
      return Err;
    }
    r := EncryptLayout(c, iv, keyIndex, plain, layouts[0]);
  }

  // ---------- Splitting a received stream ----------

  datatype Chunk = Chunk(payload: Bytes, meta: Metadata)

  datatype Split = Split(chunks: seq<Chunk>, rest: Bytes)

  function IsMetadata(data: Bytes, o: Obu): bool
    requires o.start <= o.end <= |data|
  {
    o.obuType == OBU_METADATA && ParseMetadata(data[o.start..o.end]).Some?
  }

  /** The chunks closed from `offset` on and the bytes left open at the end; `None` is a parse error. */
  function SplitFrom(data: Bytes, offset: nat, current: Bytes): Option<Split>
    requires offset <= |data|
    decreases |data| - offset
  {
    if offset == |data| then Some(Split([], current))
    else
      match ObuAt(data, offset)
      case None => None
      case Some(o) =>
        if !o.hasSize then None
        else if IsMetadata(data, o) then
          AddChunk(Chunk(current, ParseMetadata(data[o.start..o.end]).value), SplitFrom(data, o.end, []))
        else SplitFrom(data, o.end, current + data[offset..o.end])
  }

  function AddChunk(chunk: Chunk, rest: Option<Split>): Option<Split> {
    if rest.None? then None else Some(Split([chunk] + rest.value.chunks, rest.value.rest))
  }

  function SplitChunks(data: Bytes): Result<seq<Chunk>> {
    if data == [] then Ok([])
    else
      match SplitFrom(data, 0, [])
      case None => Err
      case Some(s) => if s.chunks == [] || s.rest != [] then Err else Ok(s.chunks)
  }

  function AddChunks(chunks: seq<Chunk>, rest: Option<Split>): Option<Split> {
    if rest.None? then None else Some(Split(chunks + rest.value.chunks, rest.value.rest))
  }

  method SplitEncryptedChunks(data: Bytes) returns (r: Result<seq<Chunk>>)
    ensures r == SplitChunks(data)
  {
    if |data| == 0 {
      return Ok([]);
    }
    var chunks: seq<Chunk>, current: Bytes, offset := [], [], 0;
    assert AddChunks([], SplitFrom(data, 0, [])) == SplitFrom(data, 0, []) by {
      var s := SplitFrom(data, 0, []);
      assert s.Some? ==> [] + s.value.chunks == s.value.chunks;
    }
    while offset < |data|
      invariant offset <= |data|
      invariant AddChunks(chunks, SplitFrom(data, offset, current)) == SplitFrom(data, 0, [])
    {
      var o := ObuAt(data, offset);
      if o.None? || !o.value.hasSize {
        return Err;
      }
      if o.value.obuType == OBU_METADATA {
        var meta := ParseMetadata(data[o.value.start..o.value.end]);
        if meta.Some? {
          ghost var rest := SplitFrom(data, o.value.end, []);
          assert rest.Some? ==>
            chunks + ([Chunk(current, meta.value)] + rest.value.chunks)
            == (chunks + [Chunk(current, meta.value)]) + rest.value.chunks;
          chunks := chunks + [Chunk(current, meta.value)];
          current := [];
          offset := o.value.end;
          continue;
        }
      }
      current := current + data[offset..o.value.end];
      offset := o.value.end;
    }
    assert chunks + [] == chunks;
    if |chunks| == 0 || |current| != 0 {
      return Err;
    }
    r := Ok(chunks);
  }

  function NonEmpty(chunks: seq<Chunk>): seq<Chunk> {
    if chunks == [] then []
    else (if chunks[0].payload == [] then [] else [chunks[0]]) + NonEmpty(chunks[1..])
  }

  function Merged(chunks: seq<Chunk>): Bytes {
    if chunks == [] then [] else chunks[0].payload + Merged(chunks[1..])
  }

  // ---------- Decryption ----------

  function OpenWith(c: Cipher, payload: Bytes, meta: Metadata, layout: Layout): Option<Bytes>
    requires ValidLayout(layout, |payload|)
  {
    ExtractLength(payload, layout.ranges);
    var box := Extract(payload, layout.ranges);
    if |box| != layout.length then None
    else
      match c.open(meta.iv, box + meta.tag, [])
      case None => None
      case Some(text) =>
        if |text| != layout.length then None
        else
          match Write(payload, layout.ranges, text)
          case Err => None
          case Ok(out) => Some(out)
  }

  function OpenFirst(c: Cipher, payload: Bytes, meta: Metadata, layouts: seq<Layout>): Result<Bytes>
    requires forall l :: l in layouts ==> ValidLayout(l, |payload|)
    decreases |layouts|
  {
    if layouts == [] then Err
    else
      match OpenWith(c, payload, meta, layouts[0])
      case Some(out) => Ok(out)
      case None => OpenFirst(c, payload, meta, layouts[1..])
  }

  function DecryptPayload(c: Cipher, payload: Bytes, meta: Metadata): Result<Bytes> {
    if !GoodMetadata(meta) then Err else OpenFirst(c, payload, meta, Candidates(payload))
  }

  function DecryptEach(c: Cipher, chunks: seq<Chunk>): Result<Bytes>
    decreases |chunks|
  {
    if chunks == [] then Ok([])
    else
      match DecryptPayload(c, chunks[0].payload, chunks[0].meta)
      case Err => Err
      case Ok(out) =>
        match DecryptEach(c, chunks[1..])
        case Err => Err
        case Ok(rest) => Ok(out + rest)
  }

  predicate SameMetadata(chunks: seq<Chunk>) {
    forall i :: 1 <= i < |chunks| ==> chunks[i].meta == chunks[0].meta
  }

  function DecryptChunks(c: Cipher, chunks: seq<Chunk>): Result<Bytes> {
    if chunks == [] then Err
    else if |chunks| == 1 then DecryptPayload(c, chunks[0].payload, chunks[0].meta)
    else
      var whole := DecryptPayload(c, Merged(chunks), chunks[|chunks| - 1].meta);
      if SameMetadata(chunks) && whole.Ok? then whole else DecryptEach(c, chunks)
  }

  /** A dropped frame is the empty byte string, like Go's nil slice. */
  function Decrypt(c: Cipher, sif: Option<Bytes>, encrypted: Bytes): Result<Bytes> {
    if encrypted == [] then Ok([])
    else if sif.Some? && HasSuffix(encrypted, sif.value) then Ok([])
    else
      match SplitChunks(encrypted)
      case Err => Err
      case Ok(chunks) => DecryptChunks(c, NonEmpty(chunks))
  }

  method OpenLayout(c: Cipher, payload: Bytes, meta: Metadata, layout: Layout) returns (r: Option<Bytes>)
    requires ValidLayout(layout, |payload|)
    ensures r == OpenWith(c, payload, meta, layout)
  {
    var box := ExtractRanges(payload, layout.ranges);
    ExtractLength(payload, layout.ranges);
    if |box| != layout.length {
      return None;
    }
    var text := c.open(meta.iv, box + meta.tag, []);
    if text.None? || |text.value| != layout.length {
      return None;
    }
    var out := Overwrite(payload, layout, text.value);
    return if out.Ok? then Some(out.value) else None;
  }

  method DecryptPayloadWithMeta(c: Cipher, payload: Bytes, meta: Metadata) returns (r: Result<Bytes>)
    ensures r == DecryptPayload(c, payload, meta)
  {
    if |meta.iv| != IV_LENGTH || |meta.tag| != TAG_LENGTH {
      return Err;
    }
    var layouts := ComputeCandidates(payload);
    for k := 0 to |layouts|
      invariant OpenFirst(c, payload, meta, layouts[k..]) == DecryptPayload(c, payload, meta)
    {
      var out := OpenLayout(c, payload, meta, layouts[k]);
      if out.Some? {
        return Ok(out.value);
      }
    }
    return Err;
  }

  method DecryptObuStream(c: Cipher, sif: Option<Bytes>, encrypted: Bytes) returns (r: Result<Bytes>)
    ensures r == Decrypt(c, sif, encrypted)
  {
    if |encrypted| == 0 || (sif.Some? && HasSuffix(encrypted, sif.value)) {
      return Ok([]);
    }
    var split := SplitEncryptedChunks(encrypted);
    if split.Err? {
      return Err;
    }
    var chunks := NonEmpty(split.value);
    if |chunks| == 0 {
      return Err;
    }
    if |chunks| == 1 {
      r := DecryptPayloadWithMeta(c, chunks[0].payload, chunks[0].meta);
      return;
    }
    if SameMetadata(chunks) {
      r := DecryptPayloadWithMeta(c, Merged(chunks), chunks[|chunks| - 1].meta);
      if r.Ok? {
        return;
      }
    }
    r := DecryptEachChunk(c, chunks);
  }

  method DecryptEachChunk(c: Cipher, chunks: seq<Chunk>) returns (r: Result<Bytes>)
    ensures r == DecryptEach(c, chunks)
  {
    var out: Bytes := [];
    JoinedAssociates([], [], DecryptEach(c, chunks));
    assert chunks[0..] == chunks;
    for k := 0 to |chunks|
      invariant DecryptEach(c, chunks) == Joined(out, DecryptEach(c, chunks[k..]))
    {
      var part := DecryptPayloadWithMeta(c, chunks[k].payload, chunks[k].meta);
      if part.Err? {
        return Err;
      }
      assert chunks[k..][0] == chunks[k] && chunks[k..][1..] == chunks[k + 1..];
      JoinedAssociates(out, part.value, DecryptEach(c, chunks[k + 1..]));
      out := out + part.value;
    }
    assert out + [] == out;
    r := Ok(out);
  }
}
