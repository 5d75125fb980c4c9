/** Several sealed parts in one received sample: frames in a row, or one frame sealed in pieces (av1_e2ee.go). */
module Av1Chunks {
  import opened Common
  import opened Aead
  import opened Av1Layout
  import opened Av1Cipher
  import opened Av1RoundTrip

  // ---------- Splitting ----------

  /** A metadata OBU: type 5, and at its end the magic, the key index, the nonce and the tag. */
  predicate Carries(obu: Bytes, meta: Metadata) {
    |obu| > 32 && obu[0] / 8 == 5 && obu[|obu| - 32..] == [0x4c, 0x4b, 1, meta.keyIndex] + meta.iv + meta.tag
  }

  predicate AllCarry(obus: seq<Bytes>, chunks: seq<Chunk>) {
    |obus| == |chunks| && forall k :: 0 <= k < |obus| ==> Carries(obus[k], chunks[k].meta)
  }

  /** The chunks in order, each followed by its metadata OBU. */
  function Woven(chunks: seq<Chunk>, obus: seq<Bytes>): Bytes
    requires |obus| == |chunks|
  {
    if chunks == [] then [] else chunks[0].payload + obus[0] + Woven(chunks[1..], obus[1..])
  }

  lemma MetadataFound(data: Bytes, offset: nat, o: Obu)
    requires offset < |data| && ObuAt(data, offset) == Some(o) && IsMetadata(data, o)
    ensures Carries(data[offset..o.end], ParseMetadata(data[o.start..o.end]).value)
  {
    var obu, payload := data[offset..o.end], data[o.start..o.end];
    assert obu[0] == data[offset] && obu[|obu| - 32..] == payload;
    assert payload == payload[..3] + [payload[3]] + payload[4..16] + payload[16..32];
  }

  lemma WovenCons(chunk: Chunk, obu: Bytes, chunks: seq<Chunk>, obus: seq<Bytes>)
    requires AllCarry(obus, chunks) && Carries(obu, chunk.meta)
    ensures AllCarry([obu] + obus, [chunk] + chunks)
    ensures Woven([chunk] + chunks, [obu] + obus) == chunk.payload + obu + Woven(chunks, obus)
  {
    assert ([chunk] + chunks)[1..] == chunks && ([obu] + obus)[1..] == obus;
  }

  lemma TailInTwo(current: Bytes, data: Bytes, offset: nat, end: nat)
    requires offset <= end <= |data|
    ensures current + data[offset..] == (current + data[offset..end]) + data[end..]
  {
  }

  /** Splitting loses and moves nothing: the chunks with the metadata OBUs between them, and the rest, are the bytes. */
  lemma {:induction false} SplitConserves(data: Bytes, offset: nat, current: Bytes, s: Split) returns (obus: seq<Bytes>)
    requires offset <= |data| && SplitFrom(data, offset, current) == Some(s)
    ensures AllCarry(obus, s.chunks) && Woven(s.chunks, obus) + s.rest == current + data[offset..]
    decreases |data| - offset
  {
    if offset == |data| {
      obus := [];
      assert [] + s.rest == current + data[offset..];
    } else {
      var o := ObuAt(data, offset).value;
      TailInTwo(current, data, offset, o.end);
      if IsMetadata(data, o) {
        var next := SplitFrom(data, o.end, []).value;
        var rest := SplitConserves(data, o.end, [], next);
        assert [] + data[o.end..] == data[o.end..];
        MetadataFound(data, offset, o);
        obus := [data[offset..o.end]] + rest;
        WovenCons(s.chunks[0], data[offset..o.end], next.chunks, rest);
        Regroup(current + data[offset..o.end], Woven(next.chunks, rest), next.rest);
      } else {
        obus := SplitConserves(data, o.end, current + data[offset..o.end], s);
      }
    }
  }

  /** A sample that is accepted for decryption is its chunks and their metadata, in order, to the last byte. */
  lemma AcceptedIsWoven(data: Bytes) returns (obus: seq<Bytes>)
    requires data != [] && SplitChunks(data).Ok?
    ensures var chunks := SplitChunks(data).value; chunks != [] && AllCarry(obus, chunks) && Woven(chunks, obus) == data
  {
    var s := SplitFrom(data, 0, []).value;
    obus := SplitConserves(data, 0, [], s);
    assert Woven(s.chunks, obus) + [] == Woven(s.chunks, obus) && [] + data[0..] == data;
  }

  /** Dropping the chunks without a payload drops no byte. */
  lemma {:induction false} NonEmptyMerges(chunks: seq<Chunk>)
    ensures Merged(NonEmpty(chunks)) == Merged(chunks)
    ensures forall k :: 0 <= k < |NonEmpty(chunks)| ==> NonEmpty(chunks)[k].payload != []
    decreases |chunks|
  {
    if chunks != [] {
      NonEmptyMerges(chunks[1..]);
      assert chunks[0].payload == [] ==> [] + NonEmpty(chunks[1..]) == NonEmpty(chunks[1..]);
      assert chunks[0].payload != [] ==> ([chunks[0]] + NonEmpty(chunks[1..]))[1..] == NonEmpty(chunks[1..]);
    }
  }

  // ---------- Frames in a row ----------

  /** A frame and what it is sealed with. */
  datatype Frame = Frame(iv: Bytes, keyIndex: Byte, plain: Bytes)

  ghost predicate AllReadable(c: Cipher, frames: seq<Frame>) {
    Correct(c) && forall k :: 0 <= k < |frames| ==> Readable(frames[k].plain) && |frames[k].iv| == 12
  }

  function SealedChunk(c: Cipher, f: Frame): Chunk
    requires Correct(c) && Readable(f.plain)
  {
    Chunk(Cover(c, f.iv, f.plain), Seal(c, f.iv, f.keyIndex, f.plain))
  }

  function Chunks(c: Cipher, frames: seq<Frame>): (r: seq<Chunk>)
    requires AllReadable(c, frames)
    ensures |r| == |frames| && forall k :: 0 <= k < |r| ==> r[k] == SealedChunk(c, frames[k])
  {
    if frames == [] then [] else [SealedChunk(c, frames[0])] + Chunks(c, frames[1..])
  }

  function Plains(frames: seq<Frame>): Bytes {
    if frames == [] then [] else frames[0].plain + Plains(frames[1..])
  }

  lemma {:induction false} EachIsDecrypted(c: Cipher, frames: seq<Frame>)
    requires AllReadable(c, frames)
    ensures DecryptEach(c, Chunks(c, frames)) == Ok(Plains(frames))
    decreases |frames|
  {
    if frames != [] {
      var f := frames[0];
      EachIsDecrypted(c, frames[1..]);
      CoverOpens(c, f.iv, f.keyIndex, f.plain);
      assert Chunks(c, frames)[1..] == Chunks(c, frames[1..]);
    }
  }

  /** Frames sealed with different nonces that come in one sample come back one after the other. */
  lemma FramesInARow(c: Cipher, frames: seq<Frame>, i: nat, j: nat)
    requires AllReadable(c, frames) && i < j < |frames| && frames[i].iv != frames[j].iv
    ensures DecryptChunks(c, Chunks(c, frames)) == Ok(Plains(frames))
  {
    var chunks := Chunks(c, frames);
    EachIsDecrypted(c, frames);
    assert chunks[i].meta.iv == frames[i].iv && chunks[j].meta.iv == frames[j].iv;
    assert !SameMetadata(chunks);
  }

  // ---------- One frame sealed in pieces ----------

  lemma {:induction false} MergedIs(pieces: seq<Bytes>, meta: Metadata, chunks: seq<Chunk>)
    requires |chunks| == |pieces| && forall k :: 0 <= k < |pieces| ==> chunks[k] == Chunk(pieces[k], meta)
    ensures Merged(chunks) == Flatten(pieces)
    decreases |pieces|
  {
    if pieces != [] {
      MergedIs(pieces[1..], meta, chunks[1..]);
    }
  }

  /** A sealed frame that comes in pieces, with the frame's metadata behind each of them, comes back whole. */
  lemma PiecesComeBack(c: Cipher, f: Frame, pieces: seq<Bytes>, chunks: seq<Chunk>)
    requires Correct(c) && Readable(f.plain) && |f.iv| == 12 && pieces != [] && Flatten(pieces) == Cover(c, f.iv, f.plain)
    requires |chunks| == |pieces|
    requires forall k :: 0 <= k < |pieces| ==> chunks[k] == Chunk(pieces[k], Seal(c, f.iv, f.keyIndex, f.plain))
    ensures DecryptChunks(c, chunks) == Ok(f.plain)
  {
    var meta := Seal(c, f.iv, f.keyIndex, f.plain);
    MergedIs(pieces, meta, chunks);
    CoverOpens(c, f.iv, f.keyIndex, f.plain);
    if |chunks| == 1 {
      FlattenOne(pieces[0]);
      assert pieces == [pieces[0]];
    }
  }
}
