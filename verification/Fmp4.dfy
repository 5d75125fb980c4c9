/** Splitting fragmented MP4 segments into initialization and media data (fmp4_processor.go). */
module Fmp4 {
  import opened Common

  const STYP: Bytes := [0x73, 0x74, 0x79, 0x70]

  function BigEndian(bytes: Bytes): nat {
    if bytes == [] then 0 else BigEndian(bytes[..|bytes| - 1]) * 256 + bytes[|bytes| - 1]
  }

  function SizeAt(data: Bytes, pos: nat): nat
    requires pos + 8 <= |data|
  {
    BigEndian(data[pos..pos + 4])
  }

  function KindAt(data: Bytes, pos: nat): Bytes
    requires pos + 8 <= |data|
  {
    data[pos + 4..pos + 8]
  }

  /** moof or styp. */
  predicate IsMedia(kind: Bytes) {
    |kind| == 4
    && ((kind[0] == 0x6d && kind[1] == 0x6f && kind[2] == 0x6f && kind[3] == 0x66)
        || (kind[0] == 0x73 && kind[1] == 0x74 && kind[2] == 0x79 && kind[3] == 0x70))
  }

  /** What reading a header finds: nothing left, a header cut short, or a header. Four bytes and nothing more count as nothing. */
  datatype Header = End | Broken | Found

  function HeaderAt(data: Bytes, pos: nat): (h: Header)
    ensures h == Found ==> pos + 8 <= |data|
  {
    if pos >= |data| || |data| - pos == 4 then End
    else if |data| - pos < 8 then Broken
    else Found
  }

  /**
   * The walk keeps the reader's position and the sum of the sizes apart: they differ once a size is below 8,
   * because the reader never goes back over a header.
   */
  function BoundaryFrom(data: Bytes, pos: nat, offset: nat): (r: Result<nat>)
    ensures r.Ok? ==> r.value <= |data| || offset > |data|
    decreases |data| - pos
  {
    match HeaderAt(data, pos)
    case End => Ok(|data|)
    case Broken => Err
    case Found =>
      var size := SizeAt(data, pos);
      if offset + size > |data| then Err
      else if IsMedia(KindAt(data, pos)) then Ok(offset)
      else BoundaryFrom(data, pos + if size > 8 then size else 8, offset + size)
  }

  function Boundary(data: Bytes): (r: Result<nat>)
    ensures r.Ok? ==> r.value <= |data|
  {
    BoundaryFrom(data, 0, 0)
  }

  method FindInitSegmentBoundary(data: Bytes) returns (r: Result<nat>)
    ensures r == Boundary(data)
  {
    var pos, offset := 0, 0;
    while true
      invariant 0 <= pos && 0 <= offset && BoundaryFrom(data, pos, offset) == Boundary(data)
      decreases |data| - pos
    {
      var header := HeaderAt(data, pos);
      if header == End {
        break;
      }
      if header == Broken {
        return Err;
      }
      var size := SizeAt(data, pos);
      var boxEnd := offset + size;
      if boxEnd > |data| {
        return Err;
      }
      if IsMedia(KindAt(data, pos)) {
        return Ok(offset);
      }
      pos := pos + 8;
      if size > 8 {
        pos := pos + (size - 8);
      }
      offset := boxEnd;
    }
    return Ok(|data|);
  }

  // ---------- Processing a segment ----------

  /** What is returned, and what the initialization file holds afterwards. */
  datatype Processed = Processed(media: Result<Bytes>, init: Option<Bytes>)

  function Process(data: Bytes, index: nat, init: Option<Bytes>): Processed {
    if |data| < 8 || Boundary(data).Err? then Processed(Err, init)
    else
      var b := Boundary(data).value;
      Processed(Ok(if b >= |data| then data else data[b..]), if index == 0 && b > 0 then Some(data[..b]) else init)
  }

  /** The disk is the contents of the initialization file. */
  class Disk {
    var init: Option<Bytes>

    constructor (init: Option<Bytes>)
      ensures this.init == init
    {
      this.init := init;
    }

    method ProcessFmp4Segment(data: Bytes, index: nat) returns (r: Result<Bytes>)
      modifies this
      ensures Processed(r, init) == Process(data, index, old(init))
    {
      if |data| < 8 {
        return Err;
      }
      var boundary := FindInitSegmentBoundary(data);
      if boundary.Err? {
        return Err;
      }
      if index == 0 && boundary.value > 0 {
        init := Some(data[..boundary.value]);
      }
      if boundary.value >= |data| {
        return Ok(data);
      }
      return Ok(data[boundary.value..]);
    }
  }

  function StypBox(brand: Bytes): (r: Bytes)
    ensures |r| == 28
  {
    [0, 0, 0, 28] + STYP + [0x63, 0x6d, 0x66, 0x32] + [0, 0, 0, 0] + [0x69, 0x73, 0x6f, 0x36] + [0x63, 0x6d, 0x66, 0x63]
    + if |brand| == 4 then brand else [0x69, 0x73, 0x6f, 0x36]
  }

  function EnsureStyp(media: Bytes, brand: Bytes): Bytes {
    if |media| < 8 || media[4..8] == STYP then media else StypBox(brand) + media
  }

  /** The initialization file and the media data together are the segment exactly if the segment has media data. */
  lemma SplitConservesIff(data: Bytes, before: Option<Bytes>)
    requires |data| >= 8 && Boundary(data).Ok? && Boundary(data).value > 0
    ensures var p := Process(data, 0, before);
      p.media.Ok? && p.init.Some? && (p.init.value + p.media.value == data <==> Boundary(data).value < |data|)
  {
    var b := Boundary(data).value;
    assert data == data[..b] + data[b..];
    if b == |data| {
      assert |data[..b] + data| == 2 * |data|;
    }
  }

  // ---------- Well-formed boxes ----------

  /** A box by its four-byte kind and its body. */
  datatype Box = Box(kind: Bytes, body: Bytes)

  predicate Sound(box: Box) {
    |box.kind| == 4 && 8 + |box.body| < 0x1_0000_0000
  }

  function Size(box: Box): nat {
    8 + |box.body|
  }

  /** The low `k` bytes of `n`, the highest first. */
  function BytesOf(n: nat, k: nat): (r: Bytes)
    ensures |r| == k
  {
    if k == 0 then [] else BytesOf(n / 256, k - 1) + [n % 256]
  }

  function Encode(box: Box): (r: Bytes)
    requires Sound(box)
    ensures |r| == Size(box)
  {
    BytesOf(Size(box), 4) + box.kind + box.body
  }

  predicate AllSound(boxes: seq<Box>) {
    forall i :: 0 <= i < |boxes| ==> Sound(boxes[i])
  }

  function EncodeAll(boxes: seq<Box>): Bytes
    requires AllSound(boxes)
  {
    if boxes == [] then [] else Encode(boxes[0]) + EncodeAll(boxes[1..])
  }

  /** How many boxes come before the first media box. */
  function InitCount(boxes: seq<Box>): (n: nat)
    ensures n <= |boxes|
  {
    if boxes == [] || IsMedia(boxes[0].kind) then 0 else 1 + InitCount(boxes[1..])
  }

  lemma {:induction false} InitCountIs(boxes: seq<Box>)
    ensures forall i :: 0 <= i < InitCount(boxes) ==> !IsMedia(boxes[i].kind)
    ensures InitCount(boxes) < |boxes| ==> IsMedia(boxes[InitCount(boxes)].kind)
  {
    if boxes != [] && !IsMedia(boxes[0].kind) {
      InitCountIs(boxes[1..]);
    }
  }

  /** The sum of their sizes. */
  function InitSize(boxes: seq<Box>): nat {
    if boxes == [] || IsMedia(boxes[0].kind) then 0 else Size(boxes[0]) + InitSize(boxes[1..])
  }

  lemma BigEndianOfFour(a: Byte, b: Byte, c: Byte, d: Byte)
    ensures BigEndian([a, b, c, d]) == ((a * 256 + b) * 256 + c) * 256 + d
  {
    var one: Bytes, two: Bytes, three: Bytes, four: Bytes := [a], [a, b], [a, b, c], [a, b, c, d];
    assert one[..0] == [] && BigEndian(one) == a;
    assert two[..1] == one && BigEndian(two) == a * 256 + b;
    assert three[..2] == two && BigEndian(three) == (a * 256 + b) * 256 + c;
    assert four[..3] == three && four[3] == d;
  }

  function Pow256(k: nat): nat {
    if k == 0 then 1 else 256 * Pow256(k - 1)
  }

  lemma {:induction false} BytesOfIsRead(n: nat, k: nat)
    requires n < Pow256(k)
    ensures BigEndian(BytesOf(n, k)) == n
  {
    if k > 0 {
      BytesOfIsRead(n / 256, k - 1);
      var r := BytesOf(n, k);
      assert r[..|r| - 1] == BytesOf(n / 256, k - 1);
    }
  }

  /** What the walk reads at the start of an encoded box. */
  lemma HeaderOfBox(data: Bytes, pos: nat, box: Box, rest: Bytes)
    requires Sound(box) && pos <= |data| && data[pos..] == Encode(box) + rest
    ensures HeaderAt(data, pos) == Found && SizeAt(data, pos) == Size(box) && KindAt(data, pos) == box.kind
    ensures pos + Size(box) <= |data| && data[pos + Size(box)..] == rest
  {
    var n := Size(box);
    assert Pow256(4) == 0x1_0000_0000;
    BytesOfIsRead(n, 4);
    assert Encode(box) + rest == BytesOf(n, 4) + box.kind + (box.body + rest);
    CutThree(data, pos, BytesOf(n, 4), box.kind, box.body + rest);
    assert data[pos + n..] == data[pos + 8..][|box.body|..];
  }

  lemma WalkStep(data: Bytes, pos: nat, size: nat)
    requires HeaderAt(data, pos) == Found && SizeAt(data, pos) == size && size >= 8 && pos + size <= |data|
    ensures BoundaryFrom(data, pos, pos)
      == if IsMedia(KindAt(data, pos)) then Ok(pos) else BoundaryFrom(data, pos + size, pos + size)
  {
  }

  /** The walk steps over an encoded box. */
  lemma WalkOver(data: Bytes, pos: nat, box: Box, rest: Bytes)
    requires Sound(box) && pos <= |data| && data[pos..] == Encode(box) + rest
    ensures pos + Size(box) <= |data| && data[pos + Size(box)..] == rest
    ensures BoundaryFrom(data, pos, pos)
      == if IsMedia(box.kind) then Ok(pos) else BoundaryFrom(data, pos + Size(box), pos + Size(box))
  {
    HeaderOfBox(data, pos, box, rest);
    WalkStep(data, pos, Size(box));
  }

  lemma InitSizeStep(boxes: seq<Box>)
    requires boxes != []
    ensures InitSize(boxes) == if IsMedia(boxes[0].kind) then 0 else Size(boxes[0]) + InitSize(boxes[1..])
  {
  }

  lemma FirstBox(data: Bytes, pos: nat, boxes: seq<Box>, box: Box, rest: seq<Box>)
    requires AllSound(boxes) && boxes != [] && box == boxes[0] && rest == boxes[1..]
    requires pos <= |data| && data[pos..] == EncodeAll(boxes)
    ensures pos + Size(box) <= |data| && AllSound(rest) && data[pos + Size(box)..] == EncodeAll(rest)
    ensures BoundaryFrom(data, pos, pos)
      == if IsMedia(box.kind) then Ok(pos) else BoundaryFrom(data, pos + Size(box), pos + Size(box))
  {
    WalkOver(data, pos, box, EncodeAll(rest));
  }

  /** The walk stops at the first media box, or at the end. */
  lemma {:induction false} WalkFrom(data: Bytes, pos: nat, boxes: seq<Box>, stop: nat)
    requires AllSound(boxes) && pos <= |data| && data[pos..] == EncodeAll(boxes) && stop == pos + InitSize(boxes)
    ensures BoundaryFrom(data, pos, pos) == Ok(stop)
    decreases |boxes|
  {
    if boxes == [] {
      StrayEnd(data, pos, []);
    } else {
      var box, rest := boxes[0], boxes[1..];
      FirstBox(data, pos, boxes, box, rest);
      InitSizeStep(boxes);
      if !IsMedia(box.kind) {
        WalkFrom(data, pos + Size(box), rest, stop);
      }
    }
  }

  /** The boundary is the sum of the sizes of the boxes before the first moof or styp. */
  lemma BoundaryIsInitSize(boxes: seq<Box>)
    requires AllSound(boxes)
    ensures Boundary(EncodeAll(boxes)) == Ok(InitSize(boxes))
  {
    var data := EncodeAll(boxes);
    assert data[0..] == data;
    WalkFrom(data, 0, boxes, InitSize(boxes));
  }

  /** The encoded boxes fall into those before the first media box and the rest. */
  lemma {:induction false} EncodeParts(boxes: seq<Box>)
    requires AllSound(boxes)
    ensures var n := InitCount(boxes);
      EncodeAll(boxes) == EncodeAll(boxes[..n]) + EncodeAll(boxes[n..]) && |EncodeAll(boxes[..n])| == InitSize(boxes)
  {
    var n := InitCount(boxes);
    if n == 0 {
      assert boxes[..0] == [] && boxes[0..] == boxes;
    } else {
      var rest := boxes[1..];
      EncodeParts(rest);
      assert boxes[..n][0] == boxes[0] && boxes[..n][1..] == rest[..n - 1] && boxes[n..] == rest[n - 1..];
      Regroup(Encode(boxes[0]), EncodeAll(rest[..n - 1]), EncodeAll(rest[n - 1..]));
    }
  }

  lemma {:induction false} NoSize(boxes: seq<Box>)
    ensures InitSize(boxes) == 0 <==> InitCount(boxes) == 0
  {
  }

  lemma PartsOf(boxes: seq<Box>, n: nat, data: Bytes, head: Bytes, tail: Bytes)
    requires AllSound(boxes) && n == InitCount(boxes) < |boxes|
    requires data == EncodeAll(boxes) && head == EncodeAll(boxes[..n]) && tail == EncodeAll(boxes[n..])
    ensures data == head + tail && Boundary(data) == Ok(|head|) && (n > 0) == (|head| > 0) && |tail| >= 8
  {
    assert data == head + tail && |head| == InitSize(boxes) by { EncodeParts(boxes); }
    BoundaryIsInitSize(boxes);
    NoSize(boxes);
    NotEmpty(boxes[n..]);
  }

  /** For boxes with media among them, a segment is cut exactly between the boxes. */
  lemma SplitsBetweenBoxes(boxes: seq<Box>, n: nat, data: Bytes, head: Bytes, tail: Bytes, index: nat, before: Option<Bytes>)
    requires AllSound(boxes) && n == InitCount(boxes) < |boxes|
    requires data == EncodeAll(boxes) && head == EncodeAll(boxes[..n]) && tail == EncodeAll(boxes[n..])
    ensures Process(data, index, before) == Processed(Ok(tail), if index == 0 && n > 0 then Some(head) else before)
  {
    Split(data, head, tail, n > 0, index, before) by {
      PartsOf(boxes, n, data, head, tail);
    }
  }

  lemma NotEmpty(boxes: seq<Box>)
    requires AllSound(boxes) && boxes != []
    ensures |EncodeAll(boxes)| >= 8
  {
  }

  lemma Split(data: Bytes, head: Bytes, tail: Bytes, hasInit: bool, index: nat, before: Option<Bytes>)
    requires data == head + tail && Boundary(data) == Ok(|head|) && |tail| >= 8 && hasInit == (|head| > 0)
    ensures Process(data, index, before) == Processed(Ok(tail), if index == 0 && hasInit then Some(head) else before)
  {
    assert data[..|head|] == head && data[|head|..] == tail;
  }

  // ---------- What is written ----------

  predicate MoofOrStyp(kind: Bytes) {
    kind == [0x6d, 0x6f, 0x6f, 0x66] || kind == [0x73, 0x74, 0x79, 0x70]
  }

  /** The first of the boxes that is a moof or a styp. */
  predicate FirstMediaIs(boxes: seq<Box>, n: nat) {
    n < |boxes| && MoofOrStyp(boxes[n].kind) && forall i :: 0 <= i < n ==> !MoofOrStyp(boxes[i].kind)
  }

  lemma {:induction false} InitCountIsFirstMedia(boxes: seq<Box>, n: nat)
    requires FirstMediaIs(boxes, n)
    ensures InitCount(boxes) == n
    decreases |boxes|
  {
    assert IsMedia(boxes[0].kind) == MoofOrStyp(boxes[0].kind);
    if n > 0 {
      assert !MoofOrStyp(boxes[0].kind);
      assert forall i :: 0 <= i < |boxes| - 1 ==> boxes[1..][i] == boxes[i + 1];
      InitCountIsFirstMedia(boxes[1..], n - 1);
    }
  }

  /** A styp box of 28 bytes: major brand cmf2, version 0, compatible with iso6, cmfc and the brand, or iso6 again. */
  predicate SegmentTypeBox(box: Box, brand: Bytes) {
    && box.kind == [0x73, 0x74, 0x79, 0x70] && |box.body| == 20
    && box.body[..4] == [0x63, 0x6d, 0x66, 0x32] && box.body[4..8] == [0, 0, 0, 0]
    && box.body[8..12] == [0x69, 0x73, 0x6f, 0x36] && box.body[12..16] == [0x63, 0x6d, 0x66, 0x63]
    && box.body[16..] == if |brand| == 4 then brand else [0x69, 0x73, 0x6f, 0x36]
  }

  lemma StypParts(brand: Bytes, last: Bytes, styp: Bytes)
    requires styp == StypBox(brand) && last == (if |brand| == 4 then brand else [0x69, 0x73, 0x6f, 0x36])
    ensures styp[..4] == [0, 0, 0, 28] && styp[4..8] == [0x73, 0x74, 0x79, 0x70] && styp[8..12] == [0x63, 0x6d, 0x66, 0x32]
    ensures styp[12..16] == [0, 0, 0, 0] && styp[16..20] == [0x69, 0x73, 0x6f, 0x36]
    ensures styp[20..24] == [0x63, 0x6d, 0x66, 0x63] && styp[24..] == last
  {
  }

  lemma TwentyEight()
    ensures BytesOf(28, 4) == [0, 0, 0, 28]
  {
    assert BytesOf(0, 2) == BytesOf(0, 1) + [0] && BytesOf(0, 1) == [0];
    assert BytesOf(28, 4) == BytesOf(0, 3) + [28] && BytesOf(0, 3) == BytesOf(0, 2) + [0];
  }

  lemma StypBoxIsBox(brand: Bytes) returns (box: Box)
    ensures SegmentTypeBox(box, brand) && Sound(box) && StypBox(brand) == Encode(box)
  {
    var styp := StypBox(brand);
    box := Box(styp[4..8], styp[8..]);
    StypParts(brand, styp[24..], styp) by {
      assert styp[24..] == if |brand| == 4 then brand else [0x69, 0x73, 0x6f, 0x36];
    }
    TwentyEight();
    assert styp == styp[..4] + styp[4..8] + styp[8..];
    assert styp[8..][..4] == styp[8..12] && styp[8..][4..8] == styp[12..16];
    assert styp[8..][8..12] == styp[16..20] && styp[8..][12..16] == styp[20..24] && styp[8..][16..] == styp[24..];
  }

  /** The media data is kept, behind at most one such box: none if it is shorter than a header or begins with a styp. */
  lemma StypInFront(media: Bytes, brand: Bytes) returns (box: Box)
    ensures SegmentTypeBox(box, brand) && Sound(box)
    ensures EnsureStyp(media, brand)
      == if |media| < 8 || media[4..8] == [0x73, 0x74, 0x79, 0x70] then media else Encode(box) + media
  {
    box := StypBoxIsBox(brand);
  }

  /**
   * What the first pass leaves of boxes with media among them: the boxes in front of the first moof or styp in the
   * initialization file, if this is segment 0 and there are any, and the rest in the segment, behind one more box if it
   * does not begin with a styp. Together, without that box, they are the segment.
   */
  lemma WrittenBoxes(boxes: seq<Box>, n: nat, data: Bytes, index: nat, before: Option<Bytes>, brand: Bytes) returns (box: Box)
    requires AllSound(boxes) && FirstMediaIs(boxes, n) && data == EncodeAll(boxes)
    ensures SegmentTypeBox(box, brand) && Sound(box)
    ensures var first, head, tail := Process(data, index, before), EncodeAll(boxes[..n]), EncodeAll(boxes[n..]);
      && first.media == Ok(tail) && first.init == (if index == 0 && n > 0 then Some(head) else before)
      && EnsureStyp(tail, brand) == (if boxes[n].kind == [0x73, 0x74, 0x79, 0x70] then tail else Encode(box) + tail)
      && head + tail == data
  {
    var head, tail := EncodeAll(boxes[..n]), EncodeAll(boxes[n..]);
    InitCountIsFirstMedia(boxes, n);
    EncodeParts(boxes);
    SplitsBetweenBoxes(boxes, n, data, head, tail, index, before);
    box := StypInFront(tail, brand);
    assert tail[0..] == Encode(boxes[n]) + EncodeAll(boxes[n..][1..]);
    HeaderOfBox(tail, 0, boxes[n], EncodeAll(boxes[n..][1..]));
  }

  // ---------- The second pass ----------

  /** Data that starts with a media box. */
  predicate StartsWithMedia(data: Bytes) {
    |data| >= 8 && SizeAt(data, 0) <= |data| && IsMedia(KindAt(data, 0))
  }

  /** Once data starts with a media box, processing it changes nothing and does not touch the initialization file. */
  lemma MediaIsKept(data: Bytes, index: nat, init: Option<Bytes>)
    requires StartsWithMedia(data)
    ensures Process(data, index, init) == Processed(Ok(data), init)
  {
    assert data[0..] == data;
  }

  lemma StypKeepsMedia(media: Bytes, brand: Bytes)
    requires StartsWithMedia(media)
    ensures StartsWithMedia(EnsureStyp(media, brand)) && EnsureStyp(EnsureStyp(media, brand), brand) == EnsureStyp(media, brand)
  {
    var r := EnsureStyp(media, brand);
    if r != media {
      assert r[4..8] == STYP;
      assert r[0..4] == [0, 0, 0, 28];
      BigEndianOfFour(0, 0, 0, 28);
    }
  }

  /** A second pass over what was written returns it as it is, leaves the initialization file alone, and adds no styp. */
  predicate SecondPassKeeps(written: Bytes, index: nat, init: Option<Bytes>, brand: Bytes) {
    Process(written, index, init) == Processed(Ok(written), init) && EnsureStyp(written, brand) == written
  }

  lemma KeptOnceStarted(media: Bytes, index: nat, init: Option<Bytes>, brand: Bytes)
    requires StartsWithMedia(media)
    ensures SecondPassKeeps(EnsureStyp(media, brand), index, init, brand)
  {
    StypKeepsMedia(media, brand);
    MediaIsKept(EnsureStyp(media, brand), index, init);
  }

  /** What stands behind a styp box is not looked at. */
  lemma PrefixedStarts(media: Bytes, brand: Bytes)
    requires |media| >= 8 && media[4..8] != STYP
    ensures StartsWithMedia(EnsureStyp(media, brand)) && EnsureStyp(EnsureStyp(media, brand), brand) == EnsureStyp(media, brand)
  {
    var r := EnsureStyp(media, brand);
    assert r[4..8] == STYP && r[0..4] == [0, 0, 0, 28];
    BigEndianOfFour(0, 0, 0, 28);
  }

  /** Long enough for a header, and if that is a styp header, its box is not cut short. */
  predicate Settled(media: Bytes) {
    |media| >= 8 && (media[4..8] == STYP ==> SizeAt(media, 0) <= |media|)
  }

  lemma SettledIff(media: Bytes, index: nat, init: Option<Bytes>, brand: Bytes)
    ensures SecondPassKeeps(EnsureStyp(media, brand), index, init, brand) <==> Settled(media)
  {
    if |media| >= 8 {
      if media[4..8] == STYP {
        if SizeAt(media, 0) <= |media| {
          KeptOnceStarted(media, index, init, brand);
        }
      } else {
        PrefixedStarts(media, brand);
        MediaIsKept(EnsureStyp(media, brand), index, init);
      }
    }
  }

  /**
   * The recorder's pass over any segment, and then the uploader's: the same data and the same initialization file, if
   * and only if the first pass left at least eight bytes and no styp box that is cut short.
   */
  lemma SecondPassChangesNothingIff(data: Bytes, index: nat, before: Option<Bytes>, brand: Bytes)
    requires Process(data, index, before).media.Ok?
    ensures var first := Process(data, index, before);
      SecondPassKeeps(EnsureStyp(first.media.value, brand), index, first.init, brand) <==> Settled(first.media.value)
  {
    var first := Process(data, index, before);
    SettledIff(first.media.value, index, first.init, brand);
  }

  /** For boxes, with media among them or without, that is always so. */
  lemma SecondPassChangesNothing(boxes: seq<Box>, data: Bytes, index: nat, before: Option<Bytes>, brand: Bytes)
    requires AllSound(boxes) && boxes != [] && data == EncodeAll(boxes)
    ensures var first := Process(data, index, before);
      first.media.Ok? && SecondPassKeeps(EnsureStyp(first.media.value, brand), index, first.init, brand)
  {
    BoundaryIsInitSize(boxes);
    NotEmpty(boxes);
    var media := Process(data, index, before).media.value;
    assert Settled(media) by { BoxesSettle(boxes, data, index, before); }
    SecondPassChangesNothingIff(data, index, before, brand);
  }

  lemma BoxesSettle(boxes: seq<Box>, data: Bytes, index: nat, before: Option<Bytes>)
    requires AllSound(boxes) && boxes != [] && data == EncodeAll(boxes) && |data| >= 8 && Boundary(data) == Ok(InitSize(boxes))
    ensures Process(data, index, before).media.Ok? && Settled(Process(data, index, before).media.value)
  {
    var n := InitCount(boxes);
    if n < |boxes| {
      var tail := EncodeAll(boxes[n..]);
      SplitsBetweenBoxes(boxes, n, data, EncodeAll(boxes[..n]), tail, index, before);
      InitCountIs(boxes);
      BoxesStartWithMedia(boxes[n..]);
    } else {
      EncodeParts(boxes);
      assert boxes[..n] == boxes;
      assert data[0..] == Encode(boxes[0]) + EncodeAll(boxes[1..]);
      HeaderOfBox(data, 0, boxes[0], EncodeAll(boxes[1..]));
      InitCountIs(boxes);
      assert !IsMedia(boxes[0].kind);
    }
  }

  lemma BoxesStartWithMedia(boxes: seq<Box>)
    requires AllSound(boxes) && boxes != [] && IsMedia(boxes[0].kind)
    ensures StartsWithMedia(EncodeAll(boxes))
  {
    var data := EncodeAll(boxes);
    assert data[0..] == Encode(boxes[0]) + EncodeAll(boxes[1..]);
    HeaderOfBox(data, 0, boxes[0], EncodeAll(boxes[1..]));
  }

  // ---------- Where the walk is lenient, and where it is not ----------

  function WithStray(total: nat, stray: nat): Result<nat> {
    if stray == 0 || stray == 4 then Ok(total) else Err
  }

  lemma StrayEnd(data: Bytes, pos: nat, tail: Bytes)
    requires pos <= |data| && data[pos..] == tail && |tail| < 8
    ensures BoundaryFrom(data, pos, pos) == WithStray(|data|, |tail|)
  {
  }

  lemma NoMediaStep(boxes: seq<Box>)
    requires boxes != [] && InitCount(boxes) == |boxes|
    ensures !IsMedia(boxes[0].kind) && InitCount(boxes[1..]) == |boxes[1..]|
  {
  }

  /** Behind boxes without media, four stray bytes go unnoticed; one to three, or five to seven, are an error. */
  lemma {:induction false} StrayBytes(data: Bytes, pos: nat, boxes: seq<Box>, tail: Bytes)
    requires AllSound(boxes) && InitCount(boxes) == |boxes| && |tail| < 8
    requires pos <= |data| && data[pos..] == EncodeAll(boxes) + tail
    ensures BoundaryFrom(data, pos, pos) == WithStray(|data|, |tail|)
    decreases |boxes|
  {
    if boxes == [] {
      StrayEnd(data, pos, tail);
    } else {
      var box, rest := boxes[0], boxes[1..];
      NoMediaStep(boxes);
      StrayStep(data, pos, boxes, box, rest, tail);
      StrayBytes(data, pos + Size(box), rest, tail);
    }
  }

  lemma StrayStep(data: Bytes, pos: nat, boxes: seq<Box>, box: Box, rest: seq<Box>, tail: Bytes)
    requires AllSound(boxes) && boxes != [] && box == boxes[0] && rest == boxes[1..] && !IsMedia(box.kind)
    requires pos <= |data| && data[pos..] == EncodeAll(boxes) + tail
    ensures var next := pos + Size(box);
      next <= |data| && AllSound(rest) && data[next..] == EncodeAll(rest) + tail
      && BoundaryFrom(data, pos, pos) == BoundaryFrom(data, next, next)
  {
    assert EncodeAll(boxes) == Encode(box) + EncodeAll(rest);
    Regroup(Encode(box), EncodeAll(rest), tail);
    WalkOver(data, pos, box, EncodeAll(rest) + tail);
  }

  /** Where the reader stands when it meets the first media header, whatever the sizes add up to. */
  function MediaAt(data: Bytes, pos: nat): Option<nat>
    decreases |data| - pos
  {
    if HeaderAt(data, pos) != Found then None
    else if IsMedia(KindAt(data, pos)) then Some(pos)
    else MediaAt(data, pos + Stride(data, pos))
  }

  /** How far the reader goes from one header to the next: never back over the header. */
  function Stride(data: Bytes, pos: nat): (n: nat)
    requires pos + 8 <= |data|
    ensures n >= 8
  {
    if SizeAt(data, pos) > 8 then SizeAt(data, pos) else 8
  }

  /** No header before the first media header gives a size below 8. */
  predicate SizesCover(data: Bytes, pos: nat)
    decreases |data| - pos
  {
    HeaderAt(data, pos) == Found && !IsMedia(KindAt(data, pos)) ==>
      SizeAt(data, pos) >= 8 && SizesCover(data, pos + Stride(data, pos))
  }

  lemma {:induction false} WalkFindsMediaIff(data: Bytes, pos: nat, offset: nat)
    requires MediaAt(data, pos).Some? && BoundaryFrom(data, pos, offset).Ok? && offset <= pos
    ensures BoundaryFrom(data, pos, offset) == Ok(MediaAt(data, pos).value) <==> offset == pos && SizesCover(data, pos)
    ensures BoundaryFrom(data, pos, offset).value <= MediaAt(data, pos).value
    decreases |data| - pos
  {
    if !IsMedia(KindAt(data, pos)) {
      WalkFindsMediaIff(data, pos + Stride(data, pos), offset + SizeAt(data, pos));
    }
  }

  /** The boundary is where the first media header stands if and only if no size before it is below 8; else it is too early. */
  lemma BoundaryIsMediaIff(data: Bytes)
    requires MediaAt(data, 0).Some? && Boundary(data).Ok?
    ensures Boundary(data) == Ok(MediaAt(data, 0).value) <==> SizesCover(data, 0)
    ensures Boundary(data).value <= MediaAt(data, 0).value
  {
    WalkFindsMediaIff(data, 0, 0);
  }

  /** A header with a size below 8 is walked over, but its size no longer counts: the boundary falls before it. */
  lemma ShortSizeMisplacesBoundary(data: Bytes)
    requires |data| >= 16 && SizeAt(data, 0) == 0 && !IsMedia(KindAt(data, 0))
    requires SizeAt(data, 8) <= |data| && IsMedia(KindAt(data, 8))
    ensures Boundary(data) == Ok(0)
  {
    assert BoundaryFrom(data, 8, 0) == Ok(0);
  }

  /** Forty bytes: a header of size 0, a box of 24 bytes that ends in the header of a long styp box, and a moof header. */
  predicate HidesStyp(data: Bytes) {
    |data| == 40 && SizeAt(data, 0) == 0 && !IsMedia(KindAt(data, 0)) && SizeAt(data, 8) == 24 && !IsMedia(KindAt(data, 8))
    && SizeAt(data, 24) > 16 && KindAt(data, 24) == STYP && SizeAt(data, 32) == 8 && IsMedia(KindAt(data, 32))
  }

  /** Such a segment is cut in front of the styp header, and the second pass fails. */
  lemma SecondPassFails(data: Bytes, index: nat, before: Option<Bytes>, brand: Bytes)
    requires HidesStyp(data)
    ensures var first := Process(data, index, before);
      first.media == Ok(data[24..]) && Process(EnsureStyp(data[24..], brand), index, first.init).media.Err?
  {
    assert BoundaryFrom(data, 32, 24) == Ok(24);
    assert BoundaryFrom(data, 8, 0) == Ok(24);
    var media := data[24..];
    assert media[0..4] == data[24..28] && media[4..8] == STYP;
    assert HeaderAt(media, 0) == Found && SizeAt(media, 0) > |media|;
  }

  /** A header in the middle of some bytes. */
  lemma HeaderIn(data: Bytes, pre: Bytes, size: Bytes, kind: Bytes, post: Bytes)
    requires |size| == |kind| == 4 && data == pre + (size + kind) + post
    ensures |pre| + 8 <= |data| && SizeAt(data, |pre|) == BigEndian(size) && KindAt(data, |pre|) == kind
  {
    assert data[|pre|..|pre| + 4] == size;
    assert data[|pre| + 4..|pre| + 8] == kind;
  }

  lemma HidesStypExists() returns (data: Bytes)
    ensures HidesStyp(data)
  {
    var other, moof: Bytes := [1, 1, 1, 1], [0x6d, 0x6f, 0x6f, 0x66];
    var size0: Bytes, size8: Bytes, size17: Bytes, size24: Bytes := [0, 0, 0, 0], [0, 0, 0, 8], [0, 0, 0, 17], [0, 0, 0, 24];
    var first, second, gap := size0 + other, size24 + other, size0 + size0;
    var styp, last := size17 + STYP, size8 + moof;
    data := first + second + gap + styp + last;
    BigEndianOfFour(0, 0, 0, 0);
    BigEndianOfFour(0, 0, 0, 8);
    BigEndianOfFour(0, 0, 0, 17);
    BigEndianOfFour(0, 0, 0, 24);
    HeaderIn(data, [], size0, other, second + gap + styp + last) by {
      assert data == [] + first + (second + gap + styp + last);
    }
    HeaderIn(data, first, size24, other, gap + styp + last) by {
      assert data == first + second + (gap + styp + last);
    }
    HeaderIn(data, first + second + gap, size17, STYP, last);
    HeaderIn(data, first + second + gap + styp, size8, moof, []) by {
      assert data == first + second + gap + styp + last + [];
    }
  }
}
