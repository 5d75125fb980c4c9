/** What AV1 frame encryption promises: the receiver gets the frame back, and keyframes stay visible. */
module Av1RoundTrip {
  import opened Common
  import opened Aead
  import opened Av1Layout
  import opened Av1Cipher
  import Leb128

  // ---------- Keyframe detection on the OBU stream ----------

  function KeyframeFrom(data: Bytes, offset: nat): bool
    requires offset <= |data|
    decreases |data| - offset
  {
    if offset == |data| then false
    else
      match ObuAt(data, offset)
      case None => false
      case Some(o) =>
        IsKeyframeObu(data, o) || (o.hasSize && KeyframeFrom(data, o.end))
  }

  /** show_existing_frame is bit 0 of the first payload byte, frame_type its bits 1 and 2. */
  function IsKeyframeObu(data: Bytes, o: Obu): bool
    requires o.start <= o.end <= |data|
  {
    KeepsFirstByte(o.obuType) && o.start < o.end && data[o.start] % 2 == 0 && data[o.start] / 2 % 4 == 0
  }

  method IsKeyframe(data: Bytes) returns (r: bool)
    ensures r == KeyframeFrom(data, 0)
  {
    var offset := 0;
    while offset < |data|
      invariant offset <= |data| && KeyframeFrom(data, offset) == KeyframeFrom(data, 0)
    {
      var o := ObuAt(data, offset);
      if o.None? {
        return false;
      }
      if KeepsFirstByte(o.value.obuType) && o.value.start < o.value.end {
        var b := data[o.value.start];
        if b % 2 == 0 && b / 2 % 4 == 0 {
          return true;
        }
      }
      offset := o.value.end;
      if !o.value.hasSize {
        break;
      }
    }
    return false;
  }

  // ---------- Streams whose OBUs all carry a size field ----------

  /** The OBUs from `offset` on; `None` when one is malformed or has no size field. */
  function ObusFrom(data: Bytes, offset: nat): Option<seq<Obu>>
    requires offset <= |data|
    decreases |data| - offset
  {
    if offset == |data| then Some([])
    else
      match ObuAt(data, offset)
      case None => None
      case Some(o) =>
        if !o.hasSize then None
        else
          match ObusFrom(data, o.end)
          case None => None
          case Some(rest) => Some([o] + rest)
  }

  predicate SizedStream(data: Bytes) {
    data != [] && ObusFrom(data, 0).Some?
  }

  lemma {:induction false} ObusWithin(data: Bytes, offset: nat)
    requires offset <= |data| && ObusFrom(data, offset).Some?
    ensures forall o :: o in ObusFrom(data, offset).value ==> offset < o.start <= o.end <= |data|
    decreases |data| - offset
  {
    if offset < |data| {
      ObusWithin(data, ObuAt(data, offset).value.end);
    }
  }

  lemma {:induction false} SizedStreamHasLayout(data: Bytes, offset: nat, index: nat)
    requires offset <= |data| && ObusFrom(data, offset).Some?
    ensures RangesFrom(SizeField, data, offset, index).Some?
    decreases |data| - offset
  {
    if offset < |data| {
      SizedStreamHasLayout(data, ObuAt(data, offset).value.end, index + 1);
    }
  }

  /** What the size-field parser reads, and the sender therefore encrypts: the last OBU may lack its size field. */
  predicate Readable(data: Bytes) {
    data != [] && Parse(SizeFieldStream, data).Some?
  }

  lemma SizedIsReadable(data: Bytes)
    requires SizedStream(data)
    ensures Readable(data)
  {
    SizedStreamHasLayout(data, 0, 0);
  }

  /** Encryption leaves every header, every size field and every keyframe byte where it was. */
  lemma {:induction false} ClearBytesStay(plain: Bytes, cover: Bytes, offset: nat, index: nat)
    requires offset <= |plain| && RangesFrom(SizeField, plain, offset, index).Some?
    requires SameOutside(plain, cover, RangesFrom(SizeField, plain, offset, index).value, offset, |plain|)
    ensures ObusFrom(cover, offset) == ObusFrom(plain, offset)
    ensures KeyframeFrom(cover, offset) == KeyframeFrom(plain, offset)
    decreases |plain| - offset
  {
    if offset < |plain| {
      var o := ObuAt(plain, offset).value;
      var e := SizeFieldElement(plain, offset).value;
      if o.hasSize {
        RangesFromInOrder(SizeField, plain, o.end, index + 1);
        SameOutsideSplit(plain, cover, e.ranges, RangesFrom(SizeField, plain, o.end, index + 1).value, offset, o.end, |plain|);
        ClearBytesStay(plain, cover, o.end, index + 1);
      }
      ElementLocal(SizeField, plain, cover, offset, index);
      SameObu(plain, cover, offset, o, e.ranges);
    }
  }

  lemma SameObu(plain: Bytes, cover: Bytes, offset: nat, o: Obu, ranges: seq<Range>)
    requires offset < |plain| && ObuAt(plain, offset) == Some(o) && ranges == Protected(o.obuType, o.start, o.end)
    requires SameOutside(plain, cover, ranges, offset, o.end)
    ensures ObuAt(cover, offset) == Some(o) && IsKeyframeObu(cover, o) == IsKeyframeObu(plain, o)
  {
    assert forall i :: offset <= i < o.start ==> !Covered(ranges, i);
    ObuAtLocal(plain, cover, offset);
    if KeepsFirstByte(o.obuType) && o.start < o.end {
      assert !Covered(ranges, o.start);
    }
  }

  // ---------- Appending the metadata OBU ----------

  lemma MetadataObuParses(cover: Bytes, meta: Metadata)
    requires GoodMetadata(meta)
    ensures var data := cover + MetadataObu(meta);
      |MetadataObu(meta)| == 34
      && ObuAt(data, |cover|) == Some(Obu(OBU_METADATA, true, |cover| + 2, |data|))
      && ParseMetadata(data[|cover| + 2..]) == Some(meta)
  {
    var data := cover + MetadataObu(meta);
    var body := MAGIC + [meta.keyIndex] + meta.iv + meta.tag;
    assert Leb128.Write(32) == [32];
    assert MetadataObu(meta) == [42, 32] + body;
    assert data == (cover + [42]) + Leb128.Write(32) + body;
    Leb128.RoundTrip(cover + [42], 32, body);
    assert data[|cover| + 2..] == body;
    assert body[..3] == MAGIC && body[4..16] == meta.iv && body[16..32] == meta.tag;
  }

  /** An OBU of `cover` that a receiver would take for a metadata OBU. */
  predicate Lookalike(cover: Bytes, offset: nat)
    requires offset <= |cover| && ObusFrom(cover, offset).Some?
  {
    ObusWithin(cover, offset);
    exists o :: o in ObusFrom(cover, offset).value && IsMetadata(cover, o)
  }

  function PayloadTotal(chunks: seq<Chunk>): nat {
    if chunks == [] then 0 else |chunks[0].payload| + PayloadTotal(chunks[1..])
  }

  lemma SplitAtMetadata(cover: Bytes, meta: Metadata, current: Bytes)
    requires GoodMetadata(meta)
    ensures SplitFrom(cover + MetadataObu(meta), |cover|, current) == Some(Split([Chunk(current, meta)], []))
  {
    var data := cover + MetadataObu(meta);
    MetadataObuParses(cover, meta);
    assert data[|cover| + 2..|data|] == data[|cover| + 2..];
    assert SplitFrom(data, |data|, []) == Some(Split([], []));
    assert [Chunk(current, meta)] + [] == [Chunk(current, meta)];
  }

  lemma LookalikeStep(cover: Bytes, offset: nat)
    requires offset < |cover| && ObusFrom(cover, offset).Some?
    ensures var o := ObuAt(cover, offset).value;
      Lookalike(cover, offset) == (IsMetadata(cover, o) || Lookalike(cover, o.end))
  {
    var o := ObuAt(cover, offset).value;
    ObusWithin(cover, o.end);
    assert ObusFrom(cover, offset).value == [o] + ObusFrom(cover, o.end).value;
  }

  /** What splitting an encrypted frame leaves: the whole frame in one chunk, or, torn apart, less than that. */
  predicate SplitsTo(whole: Bytes, torn: bool, meta: Metadata, s: Option<Split>) {
    && s.Some? && s.value.rest == [] && s.value.chunks != [] && PayloadTotal(s.value.chunks) <= |whole|
    && (if torn then PayloadTotal(s.value.chunks) < |whole| else s.value.chunks == [Chunk(whole, meta)])
  }

  predicate SplitsInto(cover: Bytes, meta: Metadata, offset: nat, current: Bytes, s: Option<Split>)
    requires offset <= |cover| && ObusFrom(cover, offset).Some?
  {
    SplitsTo(current + cover[offset..], Lookalike(cover, offset), meta, s)
  }

  lemma SplitMetadataStep(cover: Bytes, meta: Metadata, offset: nat, current: Bytes, o: Obu)
    requires offset < |cover| && ObusFrom(cover, offset).Some? && ObuAt(cover, offset) == Some(o) && IsMetadata(cover, o)
    requires o.hasSize && o.end <= |cover| && ObusFrom(cover, o.end).Some?
    requires SplitsInto(cover, meta, o.end, [], SplitFrom(cover + MetadataObu(meta), o.end, []))
    ensures SplitsInto(cover, meta, offset, current, SplitFrom(cover + MetadataObu(meta), offset, current))
  {
    var data := cover + MetadataObu(meta);
    ObuAtLocal(cover, data, offset);
    assert data[o.start..o.end] == cover[o.start..o.end];
    LookalikeStep(cover, offset);
    var s := SplitFrom(data, o.end, []);
    var first := Chunk(current, ParseMetadata(data[o.start..o.end]).value);
    assert ([first] + s.value.chunks)[1..] == s.value.chunks;
  }

  lemma SplitFromPlain(data: Bytes, offset: nat, current: Bytes, o: Obu)
    requires offset < |data| && ObuAt(data, offset) == Some(o) && o.hasSize && !IsMetadata(data, o)
    ensures SplitFrom(data, offset, current) == SplitFrom(data, o.end, current + data[offset..o.end])
  {
  }

  lemma JoinTail(current: Bytes, cover: Bytes, offset: nat, end: nat)
    requires offset <= end <= |cover|
    ensures current + cover[offset..end] + cover[end..] == current + cover[offset..]
  {
  }

  lemma SplitPlainStep(cover: Bytes, meta: Metadata, offset: nat, current: Bytes, o: Obu)
    requires offset < |cover| && ObusFrom(cover, offset).Some? && ObuAt(cover, offset) == Some(o) && !IsMetadata(cover, o)
    requires o.hasSize && o.end <= |cover| && ObusFrom(cover, o.end).Some?
    requires var more := current + cover[offset..o.end];
      SplitsInto(cover, meta, o.end, more, SplitFrom(cover + MetadataObu(meta), o.end, more))
    ensures SplitsInto(cover, meta, offset, current, SplitFrom(cover + MetadataObu(meta), offset, current))
  {
    var data := cover + MetadataObu(meta);
    assert data[offset..o.end] == cover[offset..o.end];
    assert ObuAt(data, offset) == Some(o) by { ObuAtLocal(cover, data, offset); }
    assert !IsMetadata(data, o) by { assert data[o.start..o.end] == cover[o.start..o.end]; }
    SplitFromPlain(data, offset, current, o);
    LookalikeStep(cover, offset);
    JoinTail(current, cover, offset, o.end);
  }

  /** Splitting an encrypted frame: one chunk with the whole frame, unless a lookalike tears it apart. */
  lemma {:induction false} SplitEncrypted(cover: Bytes, meta: Metadata, offset: nat, current: Bytes)
    requires offset <= |cover| && ObusFrom(cover, offset).Some? && GoodMetadata(meta)
    ensures SplitsInto(cover, meta, offset, current, SplitFrom(cover + MetadataObu(meta), offset, current))
    decreases |cover| - offset
  {
    if offset == |cover| {
      SplitAtMetadata(cover, meta, current);
      assert current + cover[offset..] == current;
      assert PayloadTotal([Chunk(current, meta)]) == |current|;
    } else {
      var o := ObuAt(cover, offset).value;
      if IsMetadata(cover, o) {
        SplitEncrypted(cover, meta, o.end, []);
        SplitMetadataStep(cover, meta, offset, current, o);
      } else {
        SplitEncrypted(cover, meta, o.end, current + cover[offset..o.end]);
        SplitPlainStep(cover, meta, offset, current, o);
      }
    }
  }

  lemma UnsizedStays(cover: Bytes, tail: Bytes, offset: nat, o: Obu)
    requires offset < |cover| && ObuAt(cover, offset) == Some(o) && !o.hasSize
    ensures ObuAt(cover + tail, offset) == Some(Obu(o.obuType, false, o.start, |cover + tail|))
  {
  }

  /** An OBU without a size field among those of a frame makes the splitter reject it. */
  lemma {:induction false} UnsizedIsRejected(cover: Bytes, meta: Metadata, offset: nat, index: nat, current: Bytes)
    requires offset <= |cover| && RangesFrom(SizeField, cover, offset, index).Some? && ObusFrom(cover, offset).None?
    ensures SplitFrom(cover + MetadataObu(meta), offset, current) == None
    decreases |cover| - offset
  {
    var data := cover + MetadataObu(meta);
    var o := ObuAt(cover, offset).value;
    if o.hasSize {
      ObuAtLocal(cover, data, offset);
      UnsizedIsRejected(cover, meta, o.end, index + 1, []);
      UnsizedIsRejected(cover, meta, o.end, index + 1, current + data[offset..o.end]);
    } else {
      UnsizedStays(cover, MetadataObu(meta), offset, o);
    }
  }

  // ---------- Decryption never lengthens ----------

  lemma {:induction false} OpenKeepsLength(c: Cipher, payload: Bytes, meta: Metadata, layouts: seq<Layout>)
    requires forall l :: l in layouts ==> ValidLayout(l, |payload|)
    ensures var r := OpenFirst(c, payload, meta, layouts); r.Ok? ==> |r.value| == |payload|
    decreases |layouts|
  {
    if layouts != [] {
      OpenKeepsLength(c, payload, meta, layouts[1..]);
    }
  }

  lemma DecryptPayloadLength(c: Cipher, payload: Bytes, meta: Metadata)
    ensures var r := DecryptPayload(c, payload, meta); r.Ok? ==> |r.value| == |payload|
  {
    OpenKeepsLength(c, payload, meta, Candidates(payload));
  }

  lemma {:induction false} DecryptEachLength(c: Cipher, chunks: seq<Chunk>)
    ensures var r := DecryptEach(c, chunks); r.Ok? ==> |r.value| == PayloadTotal(chunks)
    decreases |chunks|
  {
    if chunks != [] {
      DecryptPayloadLength(c, chunks[0].payload, chunks[0].meta);
      DecryptEachLength(c, chunks[1..]);
    }
  }

  lemma {:induction false} ChunkTotals(chunks: seq<Chunk>)
    ensures PayloadTotal(NonEmpty(chunks)) == PayloadTotal(chunks) == |Merged(chunks)|
    decreases |chunks|
  {
    if chunks != [] {
      ChunkTotals(chunks[1..]);
      assert NonEmpty(chunks) ==
        (if chunks[0].payload == [] then NonEmpty(chunks[1..]) else [chunks[0]] + NonEmpty(chunks[1..]));
    }
  }

  lemma DecryptChunksLength(c: Cipher, chunks: seq<Chunk>)
    ensures var r := DecryptChunks(c, chunks); r.Ok? ==> |r.value| == PayloadTotal(chunks)
  {
    if chunks != [] {
      ChunkTotals(chunks);
      DecryptPayloadLength(c, chunks[0].payload, chunks[0].meta);
      DecryptPayloadLength(c, Merged(chunks), chunks[|chunks| - 1].meta);
      DecryptEachLength(c, chunks);
      assert |chunks| == 1 ==> PayloadTotal(chunks[1..]) == 0;
    }
  }

  // ---------- The encrypted frame ----------

  /** The sender's layout of a readable stream: the size-field parser comes first and accepts it. */
  lemma SenderLayout(plain: Bytes)
    requires Readable(plain)
    ensures InOrder(Parse(SizeFieldStream, plain).value, 0, |plain|)
    ensures Candidates(plain) != [] && Some(Candidates(plain)[0]) == ToLayout(Parse(SizeFieldStream, plain))
  {
    ParseInOrder(SizeFieldStream, plain);
    var ranges := Parse(SizeFieldStream, plain).value;
    InOrderIsValid(ranges, 0, |plain|);
    assert ObuAt(plain, 0).Some?;
    var order := ParserOrder(plain[0]);
    assert Consider(plain, ToLayout(Parse(order[0], plain)), []) == [Layout(ranges, Total(ranges))];
  }

  /** The ciphertext body of an encrypted frame, in place of the plain one. */
  function Cover(c: Cipher, iv: Bytes, plain: Bytes): Bytes
    requires Readable(plain) && Correct(c)
  {
    SenderLayout(plain);
    var ranges := Parse(SizeFieldStream, plain).value;
    var text := Extract(plain, ranges);
    InOrderIsValid(ranges, 0, |plain|);
    ExtractLength(plain, ranges);
    WriteThenExtract(plain, ranges, c.seal(iv, text, [])[..|text|], 0);
    Write(plain, ranges, c.seal(iv, text, [])[..|text|]).value
  }

  function Seal(c: Cipher, iv: Bytes, keyIndex: Byte, plain: Bytes): Metadata
    requires Readable(plain) && Correct(c)
  {
    SenderLayout(plain);
    var text := Extract(plain, Parse(SizeFieldStream, plain).value);
    Metadata(keyIndex, iv, c.seal(iv, text, [])[|text|..])
  }

  /** The sender's layout, and what it seals. */
  lemma CoverParts(c: Cipher, iv: Bytes, plain: Bytes) returns (ranges: seq<Range>, text: Bytes, box: Bytes)
    requires Readable(plain) && Correct(c)
    ensures ranges == Parse(SizeFieldStream, plain).value && InOrder(ranges, 0, |plain|) && Demand(ranges) == Total(ranges)
    ensures ValidLayout(Layout(ranges, Total(ranges)), |plain|) && text == Extract(plain, ranges) && |text| == Total(ranges)
    ensures box == c.seal(iv, text, []) && |box| == |text| + TAG_LENGTH
    ensures Write(plain, ranges, box[..|text|]) == Ok(Cover(c, iv, plain))
    ensures Extract(Cover(c, iv, plain), ranges) == box[..|text|]
    ensures SameOutside(plain, Cover(c, iv, plain), ranges, 0, |plain|)
  {
    SenderLayout(plain);
    ranges := Parse(SizeFieldStream, plain).value;
    text := Extract(plain, ranges);
    box := c.seal(iv, text, []);
    InOrderIsValid(ranges, 0, |plain|);
    ExtractLength(plain, ranges);
    WriteThenExtract(plain, ranges, box[..|text|], 0);
  }

  /** The ciphertext has the same OBUs, and the same layout. */
  lemma CoverReads(c: Cipher, iv: Bytes, plain: Bytes)
    requires Readable(plain) && Correct(c)
    ensures |Cover(c, iv, plain)| == |plain| && Readable(Cover(c, iv, plain))
    ensures Parse(SizeFieldStream, Cover(c, iv, plain)) == Parse(SizeFieldStream, plain)
    ensures ObusFrom(Cover(c, iv, plain), 0) == ObusFrom(plain, 0)
    ensures KeyframeFrom(Cover(c, iv, plain), 0) == KeyframeFrom(plain, 0)
  {
    var ranges, text, box := CoverParts(c, iv, plain);
    var cover := Cover(c, iv, plain);
    ParseLocal(SizeFieldStream, plain, cover);
    ClearBytesStay(plain, cover, 0, 0);
  }

  lemma OpensLayout(c: Cipher, cover: Bytes, meta: Metadata, layout: Layout, box: Bytes, text: Bytes, plain: Bytes)
    requires ValidLayout(layout, |cover|) && Extract(cover, layout.ranges) == box && |box| == layout.length == |text|
    requires c.open(meta.iv, box + meta.tag, []) == Some(text)
    requires Demand(layout.ranges) <= |text| && Write(cover, layout.ranges, text) == Ok(plain)
    ensures OpenWith(c, cover, meta, layout) == Some(plain)
  {
  }

  /** And it opens. */
  lemma CoverOpens(c: Cipher, iv: Bytes, keyIndex: Byte, plain: Bytes)
    requires Readable(plain) && Correct(c) && |iv| == IV_LENGTH
    ensures DecryptPayload(c, Cover(c, iv, plain), Seal(c, iv, keyIndex, plain)) == Ok(plain)
  {
    var ranges, text, box := CoverParts(c, iv, plain);
    var cover, meta := Cover(c, iv, plain), Seal(c, iv, keyIndex, plain);
    CoverReads(c, iv, plain);
    SenderLayout(cover);
    WriteRestores(plain, ranges, box[..|text|]);
    assert box[..|text|] + meta.tag == box;
    OpensLayout(c, cover, meta, Layout(ranges, Total(ranges)), box[..|text|], text, plain);
  }

  lemma CoverShape(c: Cipher, iv: Bytes, keyIndex: Byte, plain: Bytes)
    requires Readable(plain) && Correct(c) && |iv| == IV_LENGTH
    ensures Encrypt(c, iv, keyIndex, plain) == Ok(Cover(c, iv, plain) + MetadataObu(Seal(c, iv, keyIndex, plain)))
    ensures |Cover(c, iv, plain)| == |plain| && Readable(Cover(c, iv, plain))
    ensures ObusFrom(Cover(c, iv, plain), 0) == ObusFrom(plain, 0)
    ensures KeyframeFrom(Cover(c, iv, plain), 0) == KeyframeFrom(plain, 0)
    ensures GoodMetadata(Seal(c, iv, keyIndex, plain))
    ensures DecryptPayload(c, Cover(c, iv, plain), Seal(c, iv, keyIndex, plain)) == Ok(plain)
  {
    var ranges, text, box := CoverParts(c, iv, plain);
    SenderLayout(plain);
    CoverReads(c, iv, plain);
    CoverOpens(c, iv, keyIndex, plain);
  }

  /** The frame does not look injected, and no OBU of its ciphertext reads as a metadata OBU. */
  predicate ComesBack(cover: Bytes, encrypted: Bytes, sif: Option<Bytes>)
    requires SizedStream(cover)
  {
    !(sif.Some? && HasSuffix(encrypted, sif.value)) && !Lookalike(cover, 0)
  }

  lemma SizedComesBackIff(c: Cipher, iv: Bytes, keyIndex: Byte, sif: Option<Bytes>, plain: Bytes)
    requires Correct(c) && |iv| == IV_LENGTH && Readable(plain) && SizedStream(plain)
    ensures Encrypt(c, iv, keyIndex, plain).Ok? && SizedStream(Cover(c, iv, plain))
    ensures var encrypted := Encrypt(c, iv, keyIndex, plain).value;
      Decrypt(c, sif, encrypted) == Ok(plain) <==> ComesBack(Cover(c, iv, plain), encrypted, sif)
  {
    CoverShape(c, iv, keyIndex, plain);
    var cover, meta := Cover(c, iv, plain), Seal(c, iv, keyIndex, plain);
    var encrypted := cover + MetadataObu(meta);
    SplitEncrypted(cover, meta, 0, []);
    var chunks := SplitFrom(encrypted, 0, []).value.chunks;
    assert SplitChunks(encrypted) == Ok(chunks);
    ChunkTotals(chunks);
    DecryptChunksLength(c, NonEmpty(chunks));
    if !Lookalike(cover, 0) {
      assert [] + cover[0..] == cover;
      assert NonEmpty(chunks) == chunks == [Chunk(cover, meta)];
    }
  }

  lemma UnsizedIsLost(c: Cipher, iv: Bytes, keyIndex: Byte, sif: Option<Bytes>, plain: Bytes)
    requires Correct(c) && |iv| == IV_LENGTH && Readable(plain) && !SizedStream(plain)
    ensures Encrypt(c, iv, keyIndex, plain).Ok? && Decrypt(c, sif, Encrypt(c, iv, keyIndex, plain).value) != Ok(plain)
  {
    CoverShape(c, iv, keyIndex, plain);
    UnsizedIsRejected(Cover(c, iv, plain), Seal(c, iv, keyIndex, plain), 0, 0, []);
  }

  /**
   * For every frame the size-field parser reads: the receiver gets exactly the frame back if and only if every OBU has a
   * size field, the frame does not look injected, and no OBU of the ciphertext reads as a metadata OBU.
   */
  lemma RoundTrip(c: Cipher, iv: Bytes, keyIndex: Byte, sif: Option<Bytes>, plain: Bytes)
    requires Correct(c) && |iv| == IV_LENGTH && Readable(plain)
    ensures Encrypt(c, iv, keyIndex, plain).Ok? && (SizedStream(plain) ==> SizedStream(Cover(c, iv, plain)))
    ensures var encrypted := Encrypt(c, iv, keyIndex, plain).value;
      Decrypt(c, sif, encrypted) == Ok(plain) <==> SizedStream(plain) && ComesBack(Cover(c, iv, plain), encrypted, sif)
  {
    if SizedStream(plain) {
      SizedComesBackIff(c, iv, keyIndex, sif, plain);
    } else {
      UnsizedIsLost(c, iv, keyIndex, sif, plain);
    }
  }

  /** Only a metadata OBU of 32 bytes can be taken for the appended one. */
  lemma NoLookalike(cover: Bytes, plain: Bytes)
    requires ObusFrom(cover, 0).Some? && ObusFrom(cover, 0) == ObusFrom(plain, 0)
    requires forall o :: o in ObusFrom(plain, 0).value ==> !(o.obuType == OBU_METADATA && o.end - o.start == 32)
    ensures !Lookalike(cover, 0)
  {
    ObusWithin(cover, 0);
  }

  /** What the sender can check beforehand: without 32-byte metadata OBUs, exactly the frames of sized OBUs come back. */
  lemma RoundTripWithoutMetadata(c: Cipher, iv: Bytes, keyIndex: Byte, sif: Option<Bytes>, plain: Bytes)
    requires Correct(c) && |iv| == IV_LENGTH && Readable(plain)
    requires SizedStream(plain) ==>
      forall o :: o in ObusFrom(plain, 0).value ==> !(o.obuType == OBU_METADATA && o.end - o.start == 32)
    ensures Encrypt(c, iv, keyIndex, plain).Ok?
    ensures var encrypted := Encrypt(c, iv, keyIndex, plain).value;
      Decrypt(c, sif, encrypted) == Ok(plain) <==> SizedStream(plain) && !(sif.Some? && HasSuffix(encrypted, sif.value))
  {
    RoundTrip(c, iv, keyIndex, sif, plain);
    if SizedStream(plain) {
      assert !Lookalike(Cover(c, iv, plain), 0) by {
        CoverShape(c, iv, keyIndex, plain);
        NoLookalike(Cover(c, iv, plain), plain);
      }
    }
  }

  /** The recorder may look for keyframes before it decrypts. */
  lemma KeyframeVisible(c: Cipher, iv: Bytes, keyIndex: Byte, plain: Bytes)
    requires Correct(c) && |iv| == IV_LENGTH && Readable(plain)
    ensures Encrypt(c, iv, keyIndex, plain).Ok?
    ensures KeyframeFrom(Encrypt(c, iv, keyIndex, plain).value, 0) == KeyframeFrom(plain, 0)
  {
    CoverShape(c, iv, keyIndex, plain);
    KeyframeIgnoresMetadata(Cover(c, iv, plain), Seal(c, iv, keyIndex, plain), 0, 0);
  }

  /** An unsized frame OBU without a payload takes the metadata OBU for its payload, but not for a keyframe. */
  lemma MetadataIsNoKeyframe(cover: Bytes, meta: Metadata, offset: nat, o: Obu)
    requires offset < |cover| && ObuAt(cover, offset) == Some(o) && !o.hasSize
    ensures KeyframeFrom(cover + MetadataObu(meta), offset) == KeyframeFrom(cover, offset)
  {
    UnsizedStays(cover, MetadataObu(meta), offset, o);
    assert MetadataObu(meta)[0] == 42;
  }

  lemma {:induction false} KeyframeIgnoresMetadata(cover: Bytes, meta: Metadata, offset: nat, index: nat)
    requires offset <= |cover| && RangesFrom(SizeField, cover, offset, index).Some? && GoodMetadata(meta)
    ensures KeyframeFrom(cover + MetadataObu(meta), offset) == KeyframeFrom(cover, offset)
    decreases |cover| - offset
  {
    var data := cover + MetadataObu(meta);
    if offset == |cover| {
      MetadataObuParses(cover, meta);
    } else {
      var o := ObuAt(cover, offset).value;
      if o.hasSize {
        ObuAtLocal(cover, data, offset);
        KeyframeIgnoresMetadata(cover, meta, o.end, index + 1);
      } else {
        MetadataIsNoKeyframe(cover, meta, offset, o);
      }
    }
  }

  // ---------- Where it fails ----------

  lemma NoSecrecyCover(iv: Bytes, plain: Bytes)
    requires Readable(plain) && Correct(NoSecrecy)
    ensures Cover(NoSecrecy, iv, plain) == plain
  {
    SenderLayout(plain);
    var ranges := Parse(SizeFieldStream, plain).value;
    var text := Extract(plain, ranges);
    InOrderIsValid(ranges, 0, |plain|);
    ExtractLength(plain, ranges);
    assert NoSecrecy.seal(iv, text, [])[..|text|] == text;
    WriteRestores(plain, ranges, text);
  }

  lemma MetadataIsLookalike(meta: Metadata)
    requires GoodMetadata(meta)
    ensures var plain := MetadataObu(meta); SizedStream(plain) && Lookalike(plain, 0)
  {
    var plain := MetadataObu(meta);
    assert [] + plain == plain;
    MetadataObuParses([], meta);
    var o := Obu(OBU_METADATA, true, 2, |plain|);
    assert ObuAt(plain, 0) == Some(o) && ObusFrom(plain, |plain|) == Some([]);
    assert ObusFrom(plain, 0) == Some([o] + []);
    assert plain[2..|plain|] == plain[2..];
    assert IsMetadata(plain, o);
    assert o in ObusFrom(plain, 0).value;
  }

  /** A frame whose ciphertext reads as the appended metadata is lost: here, with a cipher that leaves the text as it is. */
  lemma LookalikeIsLost(iv: Bytes, keyIndex: Byte, meta: Metadata)
    requires GoodMetadata(meta) && |iv| == IV_LENGTH
    ensures SizedStream(MetadataObu(meta)) && Encrypt(NoSecrecy, iv, keyIndex, MetadataObu(meta)).Ok?
    ensures Decrypt(NoSecrecy, None, Encrypt(NoSecrecy, iv, keyIndex, MetadataObu(meta)).value) != Ok(MetadataObu(meta))
  {
    NoSecrecyIsCorrect();
    MetadataIsLookalike(meta);
    SizedIsReadable(MetadataObu(meta));
    NoSecrecyCover(iv, MetadataObu(meta));
    RoundTrip(NoSecrecy, iv, keyIndex, None, MetadataObu(meta));
  }
}
