/** Normalizing, sealing, packetizing, reassembling and opening an H.264 frame, end to end. */
module H264Transport {
  import opened Common
  import opened Aead
  import opened AnnexB
  import opened H264Rtp
  import opened H264Cipher
  import Rbsp
  import FrameAssembly

  /** The NAL units in front of the first slice. */
  predicate NoSlices(nals: seq<Bytes>) {
    forall k :: 0 <= k < |nals| ==> ClosedNoSlice(nals[k])
  }

  predicate ClosedNoSlice(nal: Bytes) {
    Closed(nal) && !IsSlice(nal[0])
  }

  /** `data` continues at `i` with the framed units `pre` and one more start code. */
  predicate StartsWith(data: Bytes, i: nat, pre: seq<Bytes>) {
    i + |Frame(pre)| + 4 < |data| && data[i..i + |Frame(pre)| + 4] == Frame(pre) + START_CODE
  }

  lemma StepOver(data: Bytes, i: nat, pre: seq<Bytes>)
    requires pre != [] && StartsWith(data, i, pre)
    ensures i + 4 + |pre[0]| < |data| && StartsWith(data, i + 4 + |pre[0]|, pre[1..])
    ensures data[i..i + 4] == START_CODE && data[i + 4..i + 4 + |pre[0]|] == pre[0]
    ensures data[i + 4 + |pre[0]|..i + 8 + |pre[0]|] == START_CODE
  {
    var nal, rest := pre[0], Frame(pre[1..]) + START_CODE;
    var all := data[i..i + |Frame(pre)| + 4];
    assert all == START_CODE + nal + rest;
    var head := data[..i + |Frame(pre)| + 4];
    assert head[i..] == all;
    CutThree(head, i, START_CODE, nal, rest);
    var end := i + 4 + |nal|;
    assert head[end..] == data[end..end + |Frame(pre[1..])| + 4];
    assert rest[..4] == START_CODE;
    assert data[end..end + 4] == head[end..][..4];
    assert data[i..i + 4] == head[i..i + 4] && data[i + 4..end] == head[i + 4..end];
  }

  /** One framed, closed unit that is no slice: the scanner finds it and goes on behind it. */
  lemma ScanOverOne(data: Bytes, i: nat, end: nat, nal: Bytes)
    requires end == i + 4 + |nal| && end + 4 < |data| && ClosedNoSlice(nal)
    requires data[i..i + 4] == START_CODE && data[i + 4..end] == nal && data[end..end + 4] == START_CODE
    ensures UnitsFrom(data, i) == [nal] + UnitsFrom(data, end)
    ensures FirstSlice(data, Scan(data, i)) == FirstSlice(data, Scan(data, end))
  {
    CodeOfStartCode(data, i);
    CodedUnitEnd(data, i + 4, nal, true);
    UnitsCons(data, i, i + 4, end);
    assert data[i + 4] == data[i + 4..end][0];
    assert ([Nal(i + 4, end)] + Scan(data, end))[1..] == Scan(data, end);
  }

  lemma UnitStep(data: Bytes, i: nat, pre: seq<Bytes>) returns (end: nat)
    requires pre != [] && StartsWith(data, i, pre) && NoSlices(pre)
    ensures end + |Frame(pre[1..])| == i + |Frame(pre)| && StartsWith(data, end, pre[1..]) && NoSlices(pre[1..])
    ensures UnitsFrom(data, i) == [pre[0]] + UnitsFrom(data, end)
    ensures FirstSlice(data, Scan(data, i)) == FirstSlice(data, Scan(data, end))
  {
    var nal := pre[0];
    end := i + 4 + |nal|;
    StepOver(data, i, pre);
    assert ClosedNoSlice(nal);
    ScanOverOne(data, i, end, nal);
  }

  /** Scanning steps over the units before the first slice. */
  lemma {:induction false} UnitsOver(data: Bytes, i: nat, pre: seq<Bytes>, j: nat)
    requires StartsWith(data, i, pre) && NoSlices(pre) && j == i + |Frame(pre)|
    ensures UnitsFrom(data, i) == pre + UnitsFrom(data, j)
    decreases |pre|
  {
    var tail := UnitsFrom(data, j);
    if pre == [] {
      assert pre + tail == tail;
    } else {
      var end := UnitStep(data, i, pre);
      UnitsOver(data, end, pre[1..], j);
      ConsAppend(pre, tail);
    }
  }

  lemma ConsAppend(pre: seq<Bytes>, tail: seq<Bytes>)
    requires pre != []
    ensures [pre[0]] + (pre[1..] + tail) == pre + tail
  {
    assert [pre[0]] + pre[1..] == pre;
    Regroup([pre[0]], pre[1..], tail);
  }

  lemma {:induction false} SlicesOver(data: Bytes, i: nat, pre: seq<Bytes>, j: nat)
    requires StartsWith(data, i, pre) && NoSlices(pre) && j == i + |Frame(pre)|
    ensures FirstSlice(data, Scan(data, i)) == FirstSlice(data, Scan(data, j))
    decreases |pre|
  {
    if pre != [] {
      var end := UnitStep(data, i, pre);
      SlicesOver(data, end, pre[1..], j);
    }
  }

  /** The start code that `StartsWith` puts behind the units. */
  lemma CodeBehind(data: Bytes, pre: seq<Bytes>, j: nat)
    requires StartsWith(data, 0, pre) && j == |Frame(pre)|
    ensures data[j..j + 4] == START_CODE
  {
    var head := data[0..j + 4];
    assert data[j..j + 4] == head[j..];
    assert (Frame(pre) + START_CODE)[j..] == START_CODE;
  }

  /** A slice right after the start code at `j` is the first slice. */
  lemma SliceHere(data: Bytes, j: nat)
    requires j + 4 < |data| && data[j..j + 4] == START_CODE && IsSlice(data[j + 4])
    ensures FirstSlice(data, Scan(data, j)) == Some(j + 4)
  {
    CodeOfStartCode(data, j);
    assert NalEnd(data, j + 4) > j + 4;
    assert Scan(data, j) == [Nal(j + 4, NalEnd(data, j + 4))] + Scan(data, NalEnd(data, j + 4));
  }

  /** A normalized frame cut at its first slice: the units before it and the rest. */
  predicate CutAtSlice(frame: Bytes, pre: seq<Bytes>) {
    var s := |Frame(pre)| + 4;
    NoSlices(pre) && StartsWith(frame, 0, pre) && s + 2 < |frame| && IsSlice(frame[s])
  }

  lemma PrefixOfCut(frame: Bytes, pre: seq<Bytes>, defaultSize: int)
    requires CutAtSlice(frame, pre)
    ensures HasSlice(frame) && SenderPrefix(frame, defaultSize) == |Frame(pre)| + 6
  {
    var j := |Frame(pre)|;
    assert FirstSlice(frame, Scan(frame, 0)) == Some(j + 4) by {
      SlicesOver(frame, 0, pre, j);
      CodeBehind(frame, pre, j);
      SliceHere(frame, j);
    }
  }

  /** The clear bytes and the first sealed bytes form a 3-byte start code across the seam. */
  predicate Seam(data: Bytes, slice: nat) {
    slice + 3 < |data| && data[slice + 1] == 0 && data[slice + 2] == 0 && data[slice + 3] == 1
  }

  /** A slice header byte, a clear byte and escaped bytes hold no start code, if none spans the seam. */
  lemma EscapedTailIsClosed(tail: Bytes, escaped: Bytes)
    requires |tail| > 3 && tail[2..] == escaped && Rbsp.Clean(escaped) && tail[0] != 0
    requires !(tail[1] == 0 && tail[2] == 0 && tail[3] == 1)
    ensures Closed(tail)
  {
    forall j | 0 <= j < |tail|
      ensures NoCode(tail, j)
    {
      if j >= 2 {
        assert Rbsp.CleanAt(escaped, j - 2);
      }
    }
  }

  /** An encrypted frame: the clear prefix of the plain one, then clean escaped bytes. */
  predicate Encrypted(data: Bytes, frame: Bytes, n: nat, escaped: Bytes) {
    n < |frame| && data == frame[..n] + escaped && |escaped| >= 16 && Rbsp.Clean(escaped)
  }

  lemma EncryptedShape(c: Cipher, iv: Bytes, frame: Bytes, pre: seq<Bytes>, defaultSize: int, n: nat) returns (escaped: Bytes)
    requires CutAtSlice(frame, pre) && n == |Frame(pre)| + 6
    requires |c.seal(iv, frame[n..], frame[..n])| >= TAG_LENGTH
    ensures Encrypted(Encrypt(c, iv, frame, defaultSize), frame, n, escaped)
    ensures escaped == Rbsp.Escape(SealedPayload(c, iv, frame, n))
  {
    PrefixOfCut(frame, pre, defaultSize);
    var payload := SealedPayload(c, iv, frame, n);
    escaped := Rbsp.Escape(payload);
    EscapedIsNoShorter(payload);
    Rbsp.EscapedIsClean(payload);
  }

  lemma EncryptedStartsWith(data: Bytes, frame: Bytes, pre: seq<Bytes>, j: nat, escaped: Bytes)
    requires CutAtSlice(frame, pre) && j == |Frame(pre)| && Encrypted(data, frame, j + 6, escaped)
    ensures StartsWith(data, 0, pre) && |data| > j + 8 && data[j + 4] == frame[j + 4] && data[j + 6..] == escaped
    ensures data == Frame(pre) + START_CODE + data[j + 4..]
  {
    assert data[0..j + 4] == frame[0..j + 4];
    assert data == data[0..j + 4] + data[j + 4..];
  }

  /**
   * Cutting the encrypted frame into NAL units and framing them again gives the encrypted frame back if and only
   * if no start code formed across the seam between the clear prefix and the sealed payload.
   */
  lemma SurvivesFraming(data: Bytes, frame: Bytes, pre: seq<Bytes>, j: nat, escaped: Bytes)
    requires CutAtSlice(frame, pre) && j == |Frame(pre)| && Encrypted(data, frame, j + 6, escaped)
    ensures j + 4 < |data|
    ensures Frame(Units(data)) == data <==> !Seam(data, j + 4)
    ensures !Seam(data, j + 4) ==> Units(data) == pre + [data[j + 4..]]
  {
    EncryptedStartsWith(data, frame, pre, j, escaped);
    UnitsOver(data, 0, pre, j);
    CodeBehind(data, pre, j);
    if Seam(data, j + 4) {
      SeamSplits(data, j, escaped);
      FrameAppend(pre, [[data[j + 4]], data[j + 8..]]);
    } else {
      assert Open(data[j + 4..]) by {
        assert data[j + 4..][2..] == data[j + 6..];
        EscapedTailIsClosed(data[j + 4..], escaped);
        ClosedIsOpen(data[j + 4..]);
      }
      TailIsOneUnit(data, j);
      FrameAppend(pre, [data[j + 4..]]);
      Regroup(Frame(pre), START_CODE, data[j + 4..]);
    }
  }

  lemma LastUnit(data: Bytes, i: nat, start: nat)
    requires i < |data| && CodeLen(data, i) > 0 && start == i + CodeLen(data, i) && Open(data[start..])
    ensures UnitsFrom(data, i) == [data[start..]]
  {
    OpenUnitEnd(data, start);
    UnitsCons(data, i, start, |data|);
    assert data[start..|data|] == data[start..];
    assert UnitsFrom(data, |data|) == [];
  }

  lemma TailIsOneUnit(data: Bytes, j: nat)
    requires j + 4 < |data| && data[j..j + 4] == START_CODE && Open(data[j + 4..])
    ensures UnitsFrom(data, j) == [data[j + 4..]]
    ensures Frame([data[j + 4..]]) == START_CODE + data[j + 4..]
  {
    FrameOne(data[j + 4..]);
    CodeOfStartCode(data, j);
    LastUnit(data, j, j + 4);
  }

  /** A start code across the seam splits the slice in two, and framing the parts adds a byte. */
  lemma SeamSplits(data: Bytes, j: nat, escaped: Bytes)
    requires j + 8 < |data| && data[j..j + 4] == START_CODE && data[j + 4] != 0
    requires data[j + 5] == 0 && data[j + 6] == 0 && data[j + 7] == 1
    requires data[j + 6..] == escaped && Rbsp.Clean(escaped)
    ensures UnitsFrom(data, j) == [[data[j + 4]], data[j + 8..]]
    ensures |Frame([[data[j + 4]], data[j + 8..]])| == |data| - j + 1
  {
    var first, rest: Bytes := [data[j + 4]], data[j + 8..];
    assert UnitsFrom(data, j) == [first] + UnitsFrom(data, j + 5) by { UnitBeforeSeam(data, j); }
    assert UnitsFrom(data, j + 5) == [rest] by {
      AfterSeamIsClosed(data, j, escaped);
      ClosedIsOpen(rest);
      LastUnit(data, j + 5, j + 8);
    }
    assert [first] + [rest] == [first, rest];
    FrameOfTwo(first, rest);
  }

  lemma UnitBeforeSeam(data: Bytes, j: nat)
    requires j + 8 < |data| && data[j..j + 4] == START_CODE && data[j + 4] != 0
    requires data[j + 5] == 0 && data[j + 6] == 0 && data[j + 7] == 1
    ensures UnitsFrom(data, j) == [[data[j + 4]]] + UnitsFrom(data, j + 5)
  {
    CodeOfStartCode(data, j);
    assert CodeAt(data, j + 5);
    NalEndUnique(data, j + 4, j + 5);
    assert data[j + 4..j + 5] == [data[j + 4]];
    UnitsCons(data, j, j + 4, j + 5);
  }

  lemma AfterSeamIsClosed(data: Bytes, j: nat, escaped: Bytes)
    requires j + 8 < |data| && data[j + 6..] == escaped && Rbsp.Clean(escaped)
    ensures Closed(data[j + 8..])
  {
    var rest := data[j + 8..];
    forall k | 0 <= k < |rest|
      ensures NoCode(rest, k)
    {
      assert Rbsp.CleanAt(escaped, k + 2);
    }
  }

  lemma FrameOfTwo(a: Bytes, b: Bytes)
    ensures |Frame([a, b])| == |a| + |b| + 8
  {
    FrameOne(b);
    assert [a, b][1..] == [b];
  }

  // ---------- What a start code across the seam does ----------

  lemma FrameOfSplit(pre: seq<Bytes>, header: Byte, tail: Bytes)
    ensures Frame(pre + [[header], tail]) == (Frame(pre) + START_CODE + [header, 0]) + ([0, 0, 1] + tail)
  {
    FrameOne(tail);
    FrameCons([header], [tail]);
    assert [[header]] + [tail] == [[header], tail];
    FrameAppend(pre, [[header], tail]);
    assert START_CODE == [0, 0, 0, 1];
    assert START_CODE + [header] + (START_CODE + tail) == START_CODE + [header, 0] + ([0, 0, 1] + tail);
  }

  lemma SeamBytes(data: Bytes, j: nat, escaped: Bytes)
    requires j + 8 < |data| && data[j + 6..] == escaped && data[j + 5] == 0 && data[j + 6] == 0 && data[j + 7] == 1
    ensures [0] + escaped == [0, 0, 1] + data[j + 8..] && escaped[0] == 0 && escaped[1] == 1
    ensures data[j + 4..j + 6] == [data[j + 4], 0]
  {
    assert escaped[0] == data[j + 6] && escaped[1] == data[j + 7];
    assert escaped[2..] == data[j + 8..];
    assert escaped == [0, 1] + escaped[2..];
  }

  lemma SeamUnits(data: Bytes, frame: Bytes, pre: seq<Bytes>, j: nat, escaped: Bytes)
    requires CutAtSlice(frame, pre) && j == |Frame(pre)| && Encrypted(data, frame, j + 6, escaped) && Seam(data, j + 4)
    ensures |data| > j + 8 && Units(data) == pre + [[data[j + 4]], data[j + 8..]]
  {
    EncryptedStartsWith(data, frame, pre, j, escaped);
    CodeBehind(data, pre, j);
    assert UnitsFrom(data, j) == [[data[j + 4]], data[j + 8..]] by { SeamSplits(data, j, escaped); }
    UnitsOver(data, 0, pre, j);
  }

  lemma ClearPart(data: Bytes, frame: Bytes, pre: seq<Bytes>, j: nat, escaped: Bytes)
    requires CutAtSlice(frame, pre) && j == |Frame(pre)| && Encrypted(data, frame, j + 6, escaped)
    ensures |data| > j + 8 && data[j + 6..] == escaped
    ensures frame[..j + 6] == Frame(pre) + START_CODE + data[j + 4..j + 6]
  {
    EncryptedStartsWith(data, frame, pre, j, escaped);
    assert data[..j + 6] == frame[..j + 6];
    assert data[..j + 6] == data[0..j + 4] + data[j + 4..j + 6];
  }

  /** Reassembled across the seam, the sealed bytes are preceded by one more zero. */
  lemma ReassembledAcrossSeam(data: Bytes, frame: Bytes, pre: seq<Bytes>, j: nat, escaped: Bytes)
    requires CutAtSlice(frame, pre) && j == |Frame(pre)| && Encrypted(data, frame, j + 6, escaped) && Seam(data, j + 4)
    ensures Frame(Units(data)) == frame[..j + 6] + ([0] + escaped) && escaped[0] == 0 && escaped[1] == 1
  {
    SeamUnits(data, frame, pre, j, escaped);
    ClearPart(data, frame, pre, j, escaped);
    SeamBytes(data, j, escaped);
    FrameOfSplit(pre, data[j + 4], data[j + 8..]);
  }

  /** With the additional zero neither attempt opens. */
  lemma ShiftedFails(c: Cipher, iv: Bytes, frame: Bytes, n: nat, escaped: Bytes)
    requires |iv| == IV_LENGTH && n < |frame| && OpensOnly(c, iv, frame[n..], frame[..n])
    requires escaped == Rbsp.Escape(SealedPayload(c, iv, frame, n)) && |escaped| > 1 && escaped[0] == 0 && escaped[1] == 1
    ensures TryBoth(c, frame[..n] + ([0] + escaped), n) == None
  {
    var payload := SealedPayload(c, iv, frame, n);
    var data := frame[..n] + ([0] + escaped);
    EscapedIsNoShorter(payload);
    RawAttemptFails(c, iv, frame, n, [0] + escaped);
    assert data[..n] == frame[..n] && data[n..] == [0] + escaped;
    assert Rbsp.Unescape([0] + escaped) == [0] + payload by {
      Rbsp.UnescapeOne(0, escaped);
      Rbsp.RoundTrip(payload);
    }
    RawAttemptFails(c, iv, frame, n, [0] + payload);
  }

  /** Bytes that do not open with the sender's prefix do not open at all. */
  lemma OnlyItsPrefixOpens(c: Cipher, iv: Bytes, sif: Option<Bytes>, frame: Bytes, n: nat, data: Bytes, plain: Bytes, key: bool)
    requires n <= |frame| && OpensOnly(c, iv, frame[n..], frame[..n]) && TryBoth(c, data, n) == None
    ensures DecryptFrame(c, sif, data) != Ok(Opened(plain, key))
  {
    var m := ReceiverPrefix(data);
    if m != n {
      OtherPrefixFails(c, iv, frame, n, data, m);
    }
    FallbacksFail(c, iv, frame, n, data, m, FALLBACKS);
  }

  lemma {:induction false} FallbacksFail(c: Cipher, iv: Bytes, frame: Bytes, n: nat, data: Bytes, tried: nat, sizes: seq<nat>)
    requires n <= |frame| && OpensOnly(c, iv, frame[n..], frame[..n]) && TryBoth(c, data, n) == None
    ensures TryFallbacks(c, data, tried, sizes) == None
    decreases |sizes|
  {
    if sizes != [] {
      if sizes[0] != n {
        OtherPrefixFails(c, iv, frame, n, data, sizes[0]);
      }
      FallbacksFail(c, iv, frame, n, data, tried, sizes[1..]);
    }
  }

  /** What is sealed here, and how the sealed frame falls apart. */
  predicate Sealed(c: Cipher, iv: Bytes, frame: Bytes, pre: seq<Bytes>, defaultSize: int, data: Bytes) {
    CutAtSlice(frame, pre) && |iv| == IV_LENGTH && data == Encrypt(c, iv, frame, defaultSize)
  }

  ghost predicate Ideal(c: Cipher, iv: Bytes, frame: Bytes, pre: seq<Bytes>) {
    |Frame(pre)| + 6 <= |frame| && OpensOnly(c, iv, frame[|Frame(pre)| + 6..], frame[..|Frame(pre)| + 6])
  }

  predicate IsInjected(data: Bytes, sif: Option<Bytes>) {
    sif.Some? && HasSuffix(data, sif.value)
  }

  /**
   * A sealed frame that is cut into NAL units and framed again comes back if and only if no start code formed across
   * the seam and it does not end like an injected frame.
   */
  lemma SealedFrameComesBack(c: Cipher, iv: Bytes, sif: Option<Bytes>, frame: Bytes, pre: seq<Bytes>, defaultSize: int, data: Bytes)
    requires Sealed(c, iv, frame, pre, defaultSize, data) && Ideal(c, iv, frame, pre)
    ensures DecryptFrame(c, sif, Frame(Units(data))) == Ok(Opened(frame, HasIdr(frame)))
      <==> !Seam(data, |Frame(pre)| + 4) && !IsInjected(data, sif)
  {
    var j := |Frame(pre)|;
    var n := j + 6;
    PrefixOfCut(frame, pre, defaultSize);
    var escaped := EncryptedShape(c, iv, frame, pre, defaultSize, n);
    if Seam(data, j + 4) {
      ReassembledAcrossSeam(data, frame, pre, j, escaped);
      ShiftedFails(c, iv, frame, n, escaped);
      OnlyItsPrefixOpens(c, iv, sif, frame, n, Frame(Units(data)), frame, HasIdr(frame));
    } else {
      SurvivesFraming(data, frame, pre, j, escaped);
      if !IsInjected(data, sif) {
        FramesWithSlicesComeBack(c, iv, sif, frame, defaultSize);
      }
    }
  }

  /** Without a seam start code each NAL unit of a sealed frame can be sent, if those of the frame can. */
  lemma SealedIsSendable(c: Cipher, iv: Bytes, frame: Bytes, pre: seq<Bytes>, defaultSize: int, data: Bytes)
    requires Sealed(c, iv, frame, pre, defaultSize, data) && Ideal(c, iv, frame, pre)
    requires AllSendable(pre) && frame[|Frame(pre)| + 4] < 0x80 && !Seam(data, |Frame(pre)| + 4)
    ensures Frame(Units(data)) == data && AllSendable(Units(data))
  {
    var j := |Frame(pre)|;
    PrefixOfCut(frame, pre, defaultSize);
    var escaped := EncryptedShape(c, iv, frame, pre, defaultSize, j + 6);
    SurvivesFraming(data, frame, pre, j, escaped);
    assert data[j + 4] == frame[j + 4] by { EncryptedStartsWith(data, frame, pre, j, escaped); }
    UnitsAreSendable(pre, data[j + 4..]);
  }

  lemma UnitsAreSendable(pre: seq<Bytes>, last: Bytes)
    requires AllSendable(pre) && last != [] && last[0] < 0x80 && IsSlice(last[0])
    ensures AllSendable(pre + [last])
  {
  }

  // ---------- The frames that are sealed are normalized ----------

  /** The first slice is unit `k`, and it is longer than its two clear bytes. */
  predicate FirstSliceIs(nals: seq<Bytes>, k: nat) {
    k < |nals| && |nals[k]| >= 3 && IsSlice(nals[k][0]) && forall i :: 0 <= i < k ==> nals[i] != [] && !IsSlice(nals[i][0])
  }

  lemma CutOfFrame(nals: seq<Bytes>, k: nat)
    requires Sound(nals) && FirstSliceIs(nals, k)
    ensures CutAtSlice(Frame(nals), nals[..k]) && Frame(nals)[|Frame(nals[..k])| + 4] == nals[k][0]
  {
    var pre, slice, rest := nals[..k], nals[k], nals[k + 1..];
    var frame := Frame(nals);
    assert nals == pre + ([slice] + rest);
    FrameAppend(pre, [slice] + rest);
    FrameCons(slice, rest);
    var head := Frame(pre) + START_CODE;
    assert frame == head + (slice + Frame(rest));
    assert frame[0..|head|] == head && frame[|head|] == slice[0];
    assert forall i :: 0 <= i < k ==> ClosedNoSlice(pre[i]);
  }

  /**
   * What is sent of a frame whose first slice (types 1 to 5) is unit `k`: the units in front of it, its start code and
   * its first two bytes stand; what follows is the emulation-prevented box of the rest, bound to them, with the nonce,
   * its length and key 0.
   */
  lemma SealedSample(c: Cipher, iv: Bytes, nals: seq<Bytes>, k: nat, defaultSize: int)
    requires |iv| == 12 && Sound(nals) && k < |nals| && |nals[k]| >= 3 && 1 <= nals[k][0] % 32 <= 5
    requires forall i :: 0 <= i < k ==> nals[i] != [] && !(1 <= nals[i][0] % 32 <= 5)
    ensures var front, data := Frame(nals[..k]) + [0, 0, 0, 1] + nals[k][..2], Encrypt(c, iv, Frame(nals), defaultSize);
      var rest := nals[k][2..] + Frame(nals[k + 1..]);
      && front <= data && front + rest == Frame(nals)
      && Rbsp.Unescape(data[|front|..]) == c.seal(iv, rest, front) + iv + [12, 0]
  {
    var frame, rest, n := Frame(nals), nals[k][2..] + Frame(nals[k + 1..]), |Frame(nals[..k])| + 6;
    var front := Frame(nals[..k]) + [0, 0, 0, 1] + nals[k][..2];
    CutOfFrame(nals, k);
    PrefixOfCut(frame, nals[..k], defaultSize);
    FrameInTwo(nals, k, front, rest);
    Rbsp.RoundTrip(SealedPayload(c, iv, frame, n));
    SealedInTwo(c, iv, frame, n, front, rest);
  }

  lemma FrameInTwo(nals: seq<Bytes>, k: nat, front: Bytes, rest: Bytes)
    requires k < |nals| && |nals[k]| >= 3
    requires front == Frame(nals[..k]) + [0, 0, 0, 1] + nals[k][..2] && rest == nals[k][2..] + Frame(nals[k + 1..])
    ensures Frame(nals) == front + rest
  {
    assert nals == nals[..k] + ([nals[k]] + nals[k + 1..]);
    FrameAppend(nals[..k], [nals[k]] + nals[k + 1..]);
    FrameCons(nals[k], nals[k + 1..]);
    assert nals[k] == nals[k][..2] + nals[k][2..];
  }

  lemma SealedInTwo(c: Cipher, iv: Bytes, frame: Bytes, n: nat, front: Bytes, rest: Bytes)
    requires frame == front + rest && n == |front|
    ensures frame[..n] == front && SealedPayload(c, iv, frame, n) == c.seal(iv, rest, front) + iv + [12, 0]
  {
    assert frame[..n] == front && frame[n..] == rest;
  }

  /** A normalized frame with a slice of at least three bytes is cut at its first slice. */
  lemma NormalizedIsCut(sample: Bytes, k: nat)
    requires FirstSliceIs(Kept(Units(sample)), k)
    ensures CutAtSlice(Normalize(sample), Kept(Units(sample))[..k])
    ensures Normalize(sample)[|Frame(Kept(Units(sample))[..k])| + 4] == Kept(Units(sample))[k][0]
  {
    ScanIsSound(sample, 0);
    KeptIsSound(Units(sample));
    CutOfFrame(Kept(Units(sample)), k);
  }

  // ---------- End to end ----------

  /** A sample of the encoder: its units without types 9 and 12, the first slice among them at `k`, and what is sealed. */
  predicate Published(c: Cipher, iv: Bytes, sample: Bytes, k: nat, defaultSize: int, data: Bytes) {
    FirstSliceIs(Kept(Units(sample)), k) && |iv| == IV_LENGTH && data == Encrypt(c, iv, Normalize(sample), defaultSize)
  }

  /** Where the sealed bytes of a published sample begin. */
  function SealedFrom(sample: Bytes, k: nat): nat
    requires k <= |Kept(Units(sample))|
  {
    |Frame(Kept(Units(sample))[..k])| + 6
  }

  ghost predicate SealsIdeally(c: Cipher, iv: Bytes, sample: Bytes, k: nat)
    requires k <= |Kept(Units(sample))|
  {
    Ideal(c, iv, Normalize(sample), Kept(Units(sample))[..k])
  }

  predicate HasSeam(sample: Bytes, k: nat, data: Bytes)
    requires k <= |Kept(Units(sample))|
  {
    Seam(data, SealedFrom(sample, k) - 2)
  }

  /** The packets of the sealed frame's units, whole, fragmented or aggregated, have arrived in any order but for the marker. */
  predicate Sent(data: Bytes, groups: seq<Group>, timestamp: nat, seqNum: nat, sent: seq<Packet>, history: seq<Packet>,
                 sorted: seq<Packet>) {
    && SendableGroups(groups) && AllUnits(groups) == Units(data) && sent == Packetize(groups, timestamp, seqNum)
    && seqNum < SEQ && |sent| <= SEQ && FrameAssembly.Arrived(history, sent, timestamp)
    && FrameAssembly.IsSorting(sorted, FrameAssembly.Pending(history, timestamp) + [sent[|sent| - 1]])
  }

  predicate DeliversFrame(r: Result<Option<FrameAssembly.DecryptedFrame>>, frame: Bytes, timestamp: nat) {
    r == Ok(Some(FrameAssembly.DecryptedFrame(frame, timestamp, HasIdr(frame))))
  }

  lemma DeliveredIff(c: Cipher, sif: Option<Bytes>, sorted: seq<Packet>, timestamp: nat, bytes: Bytes, frame: Bytes)
    requires AssembleFrom(sorted, None) == Ok(bytes) && frame != []
    ensures DeliversFrame(FrameAssembly.Deliver(c, sif, sorted, timestamp), frame, timestamp)
      <==> DecryptFrame(c, sif, bytes) == Ok(Opened(frame, HasIdr(frame)))
  {
  }

  lemma UnwrappedDelivers(c: Cipher, iv: Bytes, sif: Option<Bytes>, frame: Bytes, pre: seq<Bytes>, defaultSize: int, data: Bytes,
      groups: seq<Group>, timestamp: nat, seqNum: nat, sent: seq<Packet>, history: seq<Packet>, sorted: seq<Packet>)
    requires Sealed(c, iv, frame, pre, defaultSize, data) && Ideal(c, iv, frame, pre)
    requires Sent(data, groups, timestamp, seqNum, sent, history, sorted) && seqNum + |sent| <= SEQ
    ensures DeliversFrame(FrameAssembly.Deliver(c, sif, sorted, timestamp), frame, timestamp)
      <==> !Seam(data, |Frame(pre)| + 4) && !IsInjected(data, sif)
  {
    assert AssembleFrom(sorted, None) == Ok(Frame(Units(data))) by {
      FrameAssembly.AnyOrderAssembles(history, groups, timestamp, seqNum, sent, sorted);
      FrameAssembly.WholeIsAfter(groups);
      assert Units(data) + [] == Units(data);
    }
    SealedFrameComesBack(c, iv, sif, frame, pre, defaultSize, data);
    DeliveredIff(c, sif, sorted, timestamp, Frame(Units(data)), frame);
  }

  // ---------- Sequence numbers that wrap ----------

  /** To open, the bytes must begin with the sender's clear prefix. */
  lemma NeedsClearPrefix(c: Cipher, iv: Bytes, frame: Bytes, n: nat, data: Bytes)
    requires n <= |frame| && OpensOnly(c, iv, frame[n..], frame[..n]) && (n <= |data| ==> data[..n] != frame[..n])
    ensures TryBoth(c, data, n) == None
  {
    if n < |data| {
      var unescaped := data[..n] + Rbsp.Unescape(data[n..]);
      assert unescaped[..n] == data[..n];
    }
  }

  lemma SamePart(data: Bytes, frame: Bytes, n: nat, lo: nat, hi: nat)
    requires lo <= hi <= n && n <= |data| && n <= |frame| && data[..n] == frame[..n]
    ensures data[lo..hi] == frame[lo..hi]
  {
    assert data[lo..hi] == data[..n][lo..hi] && frame[lo..hi] == frame[..n][lo..hi];
  }

  lemma UnitAt(data: Bytes, j: nat)
    requires j + 4 < |data| && data[j..j + 4] == START_CODE && data[j + 4] != 0
    ensures UnitsFrom(data, j) != []
  {
    CodeOfStartCode(data, j);
    assert NalEnd(data, j + 4) > j + 4;
    UnitsCons(data, j, j + 4, NalEnd(data, j + 4));
  }

  lemma PrefixStarts(data: Bytes, frame: Bytes, pre: seq<Bytes>, n: nat)
    requires CutAtSlice(frame, pre) && n == |Frame(pre)| + 6 && n <= |data| && data[..n] == frame[..n]
    ensures StartsWith(data, 0, pre) && data[n - 2] != 0
  {
    SamePart(data, frame, n, 0, n - 2);
    SamePart(data, frame, n, n - 2, n - 1);
    assert data[n - 2] == data[n - 2..n - 1][0] && frame[n - 2] == frame[n - 2..n - 1][0];
  }

  /** What begins with the clear prefix has the units in front of the slice first, and at least one more. */
  lemma PrefixUnits(data: Bytes, frame: Bytes, pre: seq<Bytes>, n: nat)
    requires CutAtSlice(frame, pre) && n == |Frame(pre)| + 6 && n <= |data| && data[..n] == frame[..n]
    ensures |Units(data)| > |pre| && Units(data)[..|pre|] == pre
  {
    PrefixStarts(data, frame, pre, n);
    UnitsOver(data, 0, pre, n - 6);
    CodeBehind(data, pre, n - 6);
    UnitAt(data, n - 6);
  }

  /** A cut somewhere in the units: nothing is lost and neither part is empty, or a fragmented unit is lost. */
  predicate IsCut(all: seq<Bytes>, before: seq<Bytes>, lost: Option<Bytes>, after: seq<Bytes>) {
    match lost
    case None => all == before + after && before != [] && after != []
    case Some(nal) => all == before + [nal] + after && |nal| > MTU
  }

  lemma WrapIsCut(groups: seq<Group>, k: nat) returns (lost: Option<Bytes>)
    requires SendableGroups(groups) && 0 < k < PacketTotal(groups)
    ensures IsCut(AllUnits(groups), UnitsBefore(groups, k), lost, UnitsAfter(groups, k))
  {
    if Between(groups, k) {
      CutUnits(groups, k);
      FrameAssembly.BeforeIsPart(groups, k);
      FrameAssembly.AfterIsPart(groups, k);
      lost := None;
    } else {
      var nal := CutLoses(groups, k);
      lost := Some(nal);
    }
  }

  /** The units in front of the slice do not stand in front of anything, unless the slice, a single byte, stands last. */
  predicate Misplaced(units: seq<Bytes>, pre: seq<Bytes>, slice: Bytes) {
    |units| > |pre| && units[..|pre|] == pre ==> |slice| == 1 && units[|units| - 1] == slice
  }

  /** So with the parts exchanged. */
  lemma ExchangedDiffers(pre: seq<Bytes>, slice: Bytes, rest: seq<Bytes>, before: seq<Bytes>, lost: Option<Bytes>,
      after: seq<Bytes>)
    requires NoSlices(pre) && slice != [] && IsSlice(slice[0]) && |rest| <= 1 && (rest != [] ==> |slice| == 1)
    requires IsCut(pre + [slice] + rest, before, lost, after)
    ensures Misplaced(after + before, pre, slice)
  {
    var all, units := pre + [slice] + rest, after + before;
    var gap := if lost.None? then 0 else 1;
    assert all[|pre|] == slice && |all| == |before| + gap + |after|;
    if |before| > |pre| {
      assert before[|pre|] == slice;
    } else if |before| + gap <= |pre| {
      var at := |pre| - |before| - gap;
      assert after[at] == all[|pre|];
      assert units[at] == slice;
      if at < |pre| {
        assert ClosedNoSlice(pre[at]) && pre[at] != units[at];
        assert |units| > |pre| ==> units[..|pre|][at] == units[at];
      }
    } else {
      assert lost == Some(slice);
    }
  }

  /** Bytes that end in a start code and one byte do not open. */
  lemma EndingInCodeFails(c: Cipher, iv: Bytes, frame: Bytes, n: nat, data: Bytes)
    requires |iv| == IV_LENGTH && n <= |frame| && OpensOnly(c, iv, frame[n..], frame[..n])
    requires |data| >= 2 && data[|data| - 2] == 1
    ensures TryBoth(c, data, n) == None
  {
    OneByteIvFails(c, iv, frame, n, data);
    if n + 2 <= |data| {
      var tail := data[n..];
      assert tail[|tail| - 2] == 1;
      Rbsp.LastTwoStay(tail);
      OneByteIvFails(c, iv, frame, n, data[..n] + Rbsp.Unescape(tail));
    } else if n < |data| {
      assert |data[n..]| == 1;
    }
  }

  lemma OneByteIvFails(c: Cipher, iv: Bytes, frame: Bytes, n: nat, data: Bytes)
    requires |iv| == IV_LENGTH && n <= |frame| && OpensOnly(c, iv, frame[n..], frame[..n])
    requires |data| >= 2 && data[|data| - 2] == 1
    ensures TryOpen(c, data, n) == None
  {
    var ivStart := |data| - 3;
    if n < ivStart {
      assert |data[ivStart..ivStart + 1]| == 1;
    }
  }

  lemma EndsInCode(units: seq<Bytes>, slice: Bytes, r: Bytes)
    requires units != [] && |slice| == 1 && units[|units| - 1] == slice && r == Frame(units)
    ensures |r| >= 2 && r[|r| - 2] == 1
  {
    var front := units[..|units| - 1];
    assert units == front + [slice];
    FrameAppend(front, [slice]);
    FrameOne(slice);
  }

  /** Units that do not come behind the units in front of the slice do not open. */
  lemma WrongUnitsFail(c: Cipher, iv: Bytes, sif: Option<Bytes>, frame: Bytes, pre: seq<Bytes>, units: seq<Bytes>, slice: Bytes)
    requires CutAtSlice(frame, pre) && Ideal(c, iv, frame, pre) && |iv| == IV_LENGTH && FrameAssembly.AllClosed(units)
    requires Misplaced(units, pre, slice)
    ensures DecryptFrame(c, sif, Frame(units)) != Ok(Opened(frame, HasIdr(frame)))
  {
    var n := |Frame(pre)| + 6;
    FrameAssembly.ClosedIsSound(units);
    UnitsOfFrame(units);
    WrongUnitsTried(c, iv, frame, pre, n, units, slice, Frame(units));
    OnlyItsPrefixOpens(c, iv, sif, frame, n, Frame(units), frame, HasIdr(frame));
  }

  lemma WrongUnitsTried(c: Cipher, iv: Bytes, frame: Bytes, pre: seq<Bytes>, n: nat, units: seq<Bytes>, slice: Bytes, r: Bytes)
    requires CutAtSlice(frame, pre) && n == |Frame(pre)| + 6 <= |frame| && OpensOnly(c, iv, frame[n..], frame[..n])
    requires |iv| == IV_LENGTH && r == Frame(units) && Units(r) == units
    requires Misplaced(units, pre, slice)
    ensures TryBoth(c, r, n) == None
  {
    if n <= |r| && r[..n] == frame[..n] {
      assert |units| > |pre| && units[..|pre|] == pre by { PrefixUnits(r, frame, pre, n); }
      EndsInCode(units, slice, r);
      EndingInCodeFails(c, iv, frame, n, r);
    } else {
      NeedsClearPrefix(c, iv, frame, n, r);
    }
  }

  /** The units of a sealed frame: those in front of the slice, the slice or its first byte, and what was split off. */
  predicate FallsInto(data: Bytes, pre: seq<Bytes>, slice: Bytes, rest: seq<Bytes>) {
    Units(data) == pre + [slice] + rest && FrameAssembly.AllClosed(Units(data)) && slice != [] && IsSlice(slice[0])
    && if Seam(data, |Frame(pre)| + 4) then |slice| == |rest| == 1 else rest == []
  }

  lemma SealedUnits(c: Cipher, iv: Bytes, frame: Bytes, pre: seq<Bytes>, defaultSize: int, data: Bytes)
    returns (slice: Bytes, rest: seq<Bytes>)
    requires Sealed(c, iv, frame, pre, defaultSize, data) && Ideal(c, iv, frame, pre)
    ensures FallsInto(data, pre, slice, rest)
  {
    var j := |Frame(pre)|;
    PrefixOfCut(frame, pre, defaultSize);
    var escaped := EncryptedShape(c, iv, frame, pre, defaultSize, j + 6);
    if Seam(data, j + 4) {
      slice, rest := SplitUnits(data, frame, pre, j, escaped);
    } else {
      slice := WholeUnits(data, frame, pre, j, escaped);
      rest := [];
    }
  }

  lemma SplitUnits(data: Bytes, frame: Bytes, pre: seq<Bytes>, j: nat, escaped: Bytes) returns (slice: Bytes, rest: seq<Bytes>)
    requires CutAtSlice(frame, pre) && j == |Frame(pre)| && Encrypted(data, frame, j + 6, escaped) && Seam(data, j + 4)
    ensures FallsInto(data, pre, slice, rest)
  {
    ClearPart(data, frame, pre, j, escaped);
    SeamUnits(data, frame, pre, j, escaped);
    AfterSeamIsClosed(data, j, escaped);
    assert data[j + 4] == frame[j + 4] by { EncryptedStartsWith(data, frame, pre, j, escaped); }
    slice, rest := [data[j + 4]], [data[j + 8..]];
    assert pre + [slice] + rest == pre + [slice, data[j + 8..]];
    UnitsAreClosed(pre, slice, rest);
  }

  lemma WholeUnits(data: Bytes, frame: Bytes, pre: seq<Bytes>, j: nat, escaped: Bytes) returns (slice: Bytes)
    requires CutAtSlice(frame, pre) && j == |Frame(pre)| && Encrypted(data, frame, j + 6, escaped) && !Seam(data, j + 4)
    ensures FallsInto(data, pre, slice, [])
  {
    SurvivesFraming(data, frame, pre, j, escaped);
    TailIsClosed(data, frame, pre, j, escaped);
    assert data[j + 4] == frame[j + 4] by { EncryptedStartsWith(data, frame, pre, j, escaped); }
    slice := data[j + 4..];
    assert pre + [slice] + [] == pre + [slice];
    UnitsAreClosed(pre, slice, []);
  }

  lemma UnitsAreClosed(pre: seq<Bytes>, slice: Bytes, rest: seq<Bytes>)
    requires NoSlices(pre) && Closed(slice) && forall i :: 0 <= i < |rest| ==> Closed(rest[i])
    ensures FrameAssembly.AllClosed(pre + [slice] + rest)
  {
    assert forall i :: 0 <= i < |pre| ==> ClosedNoSlice(pre[i]);
  }

  lemma TailIsClosed(data: Bytes, frame: Bytes, pre: seq<Bytes>, j: nat, escaped: Bytes)
    requires CutAtSlice(frame, pre) && j == |Frame(pre)| && Encrypted(data, frame, j + 6, escaped) && !Seam(data, j + 4)
    ensures j + 4 < |data| && Closed(data[j + 4..])
  {
    EncryptedStartsWith(data, frame, pre, j, escaped);
    assert data[j + 4..][2..] == data[j + 6..];
    EscapedTailIsClosed(data[j + 4..], escaped);
  }

  lemma ExchangedIsWrong(data: Bytes, pre: seq<Bytes>, slice: Bytes, rest: seq<Bytes>, groups: seq<Group>, k: nat)
    requires NoSlices(pre) && FallsInto(data, pre, slice, rest)
    requires SendableGroups(groups) && AllUnits(groups) == Units(data) && 0 < k < PacketTotal(groups)
    ensures FrameAssembly.AllClosed(FrameAssembly.Exchanged(groups, k)) && Misplaced(FrameAssembly.Exchanged(groups, k), pre, slice)
  {
    var lost := WrapIsCut(groups, k);
    ExchangedDiffers(pre, slice, rest, UnitsBefore(groups, k), lost, UnitsAfter(groups, k));
    FrameAssembly.ExchangedIsClosed(groups, k);
  }

  /** A sealed frame whose units have changed places, or lost one, does not come back. */
  lemma WrappedIsLost(c: Cipher, iv: Bytes, sif: Option<Bytes>, frame: Bytes, pre: seq<Bytes>, defaultSize: int, data: Bytes,
      groups: seq<Group>, k: nat)
    requires Sealed(c, iv, frame, pre, defaultSize, data) && Ideal(c, iv, frame, pre)
    requires SendableGroups(groups) && AllUnits(groups) == Units(data) && 0 < k < PacketTotal(groups)
    ensures DecryptFrame(c, sif, Frame(FrameAssembly.Exchanged(groups, k))) != Ok(Opened(frame, HasIdr(frame)))
  {
    var slice, rest := SealedUnits(c, iv, frame, pre, defaultSize, data);
    ExchangedIsWrong(data, pre, slice, rest, groups, k);
    WrongUnitsFail(c, iv, sif, frame, pre, FrameAssembly.Exchanged(groups, k), slice);
  }

  lemma WrappedNotDelivered(c: Cipher, iv: Bytes, sif: Option<Bytes>, frame: Bytes, pre: seq<Bytes>, defaultSize: int, data: Bytes,
      groups: seq<Group>, timestamp: nat, seqNum: nat, sent: seq<Packet>, history: seq<Packet>, sorted: seq<Packet>)
    requires Sealed(c, iv, frame, pre, defaultSize, data) && Ideal(c, iv, frame, pre)
    requires Sent(data, groups, timestamp, seqNum, sent, history, sorted) && seqNum + |sent| > SEQ
    ensures !DeliversFrame(FrameAssembly.Deliver(c, sif, sorted, timestamp), frame, timestamp)
  {
    var wrap := FrameAssembly.Wrap(seqNum, |sent|);
    FrameAssembly.AnyOrderAssembles(history, groups, timestamp, seqNum, sent, sorted);
    TotalIs(groups, timestamp, seqNum);
    WrappedIsLost(c, iv, sif, frame, pre, defaultSize, data, groups, wrap);
    DeliveredIff(c, sif, sorted, timestamp, Frame(FrameAssembly.Exchanged(groups, wrap)), frame);
  }

  /**
   * End to end: a sample is normalized, sealed, cut into NAL units and sent; however its packets arrive, as long as the
   * marker comes last, the receiver delivers the normalized sample with the right keyframe flag if and only if the
   * sequence number does not wrap, no start code formed across the seam, and the sealed frame does not end like an
   * injected one.
   */
  lemma AnyOrderDelivers(c: Cipher, iv: Bytes, sif: Option<Bytes>, sample: Bytes, k: nat, defaultSize: int, data: Bytes,
      groups: seq<Group>, timestamp: nat, seqNum: nat, sent: seq<Packet>, history: seq<Packet>, sorted: seq<Packet>)
    requires Published(c, iv, sample, k, defaultSize, data) && SealsIdeally(c, iv, sample, k)
    requires Sent(data, groups, timestamp, seqNum, sent, history, sorted)
    ensures DeliversFrame(FrameAssembly.Deliver(c, sif, sorted, timestamp), Normalize(sample), timestamp)
      <==> seqNum + |sent| <= SEQ && !HasSeam(sample, k, data) && !IsInjected(data, sif)
  {
    var frame, pre := Normalize(sample), Kept(Units(sample))[..k];
    NormalizedIsCut(sample, k);
    if seqNum + |sent| <= SEQ {
      UnwrappedDelivers(c, iv, sif, frame, pre, defaultSize, data, groups, timestamp, seqNum, sent, history, sorted);
    } else {
      WrappedNotDelivered(c, iv, sif, frame, pre, defaultSize, data, groups, timestamp, seqNum, sent, history, sorted);
    }
  }

  // ---------- What was split off need not be a unit that can be sent ----------

  function Payloads(ps: seq<Packet>): (r: seq<Bytes>)
    ensures |r| == |ps|
  {
    seq(|ps|, i requires 0 <= i < |ps| => ps[i].payload)
  }

  lemma {:induction false} OnlyPayloadsMatter(a: seq<Packet>, b: seq<Packet>, state: Option<Fua>)
    requires Payloads(a) == Payloads(b)
    ensures AssembleFrom(a, state) == AssembleFrom(b, state)
    decreases |a|
  {
    assert |a| == |Payloads(a)| == |b|;
    if a != [] {
      assert Payloads(a)[0] == Payloads(b)[0];
      assert Payloads(a[1..]) == Payloads(a)[1..] && Payloads(b[1..]) == Payloads(b)[1..];
      match ProcessPacket(state, a[0].payload)
      case Err =>
      case Ok(s) => OnlyPayloadsMatter(a[1..], b[1..], s.state);
    }
  }

  predicate Framed(bytes: Bytes) {
    bytes == [] || (|bytes| >= 4 && bytes[..4] == START_CODE)
  }

  /** Whatever packets hold, what is put together from them begins with a start code. */
  lemma {:induction false} AssembledIsFramed(ps: seq<Packet>, state: Option<Fua>)
    requires AssembleFrom(ps, state).Ok?
    ensures Framed(AssembleFrom(ps, state).value)
    decreases |ps|
  {
    if ps != [] {
      var s := ProcessPacket(state, ps[0].payload).value;
      AssembledIsFramed(ps[1..], s.state);
      assert Framed(s.out);
      assert s.out == [] ==> s.out + AssembleFrom(ps[1..], s.state).value == AssembleFrom(ps[1..], s.state).value;
    }
  }

  /** The box must begin as it was sealed. */
  lemma OtherBoxFails(c: Cipher, iv: Bytes, frame: Bytes, n: nat, tail: Bytes)
    requires n <= |frame| && OpensOnly(c, iv, frame[n..], frame[..n])
    requires |tail| >= 2 && tail[1] != c.seal(iv, frame[n..], frame[..n])[1]
    ensures TryOpen(c, frame[..n] + tail, n) == None
  {
    var data := frame[..n] + tail;
    if |data| >= n + 30 {
      var ivStart := |data| - 2 - data[|data| - 2];
      if 0 < data[|data| - 2] <= 16 {
        assert data[n..ivStart][1] == tail[1];
      }
    }
  }

  lemma ZerosFail(c: Cipher, iv: Bytes, frame: Bytes, n: nat, tail: Bytes)
    requires n <= |frame| && OpensOnly(c, iv, frame[n..], frame[..n]) && c.seal(iv, frame[n..], frame[..n])[1] == 1
    requires |tail| >= 3 && tail[0] == 0 && tail[1] == 0 && tail[2] == 1
    ensures TryBoth(c, frame[..n] + tail, n) == None
  {
    var data := frame[..n] + tail;
    assert data[..n] == frame[..n] && data[n..] == tail;
    OtherBoxFails(c, iv, frame, n, tail);
    ZerosStay(tail);
    OtherBoxFails(c, iv, frame, n, Rbsp.Unescape(tail));
  }

  lemma SplitBytes(pre: seq<Bytes>, header: Byte, more: Bytes, front: Bytes)
    requires front == Frame(pre) + START_CODE + [header, 0] && Framed(more)
    ensures if more == [] then |Frame(pre + [[header]])| < |front|
      else Frame(pre + [[header]]) + more == front + ([0, 0, 1] + more[4..])
  {
    FrameAppend(pre, [[header]]);
    FrameOne([header]);
    if more != [] {
      assert more == [0] + ([0, 0, 1] + more[4..]);
      assert [header] + [0] == [header, 0];
    }
  }

  /** A split slice without the part split off, or with anything put together in its place, does not open. */
  lemma SplitFails(c: Cipher, iv: Bytes, frame: Bytes, pre: seq<Bytes>, n: nat, header: Byte, more: Bytes)
    requires n <= |frame| && OpensOnly(c, iv, frame[n..], frame[..n]) && c.seal(iv, frame[n..], frame[..n])[1] == 1
    requires frame[..n] == Frame(pre) + START_CODE + [header, 0] && Framed(more)
    ensures TryBoth(c, Frame(pre + [[header]]) + more, n) == None
  {
    SplitBytes(pre, header, more, frame[..n]);
    if more != [] {
      ZerosFail(c, iv, frame, n, [0, 0, 1] + more[4..]);
    }
  }

  lemma ZerosStay(tail: Bytes)
    requires |tail| >= 3 && tail[0] == 0 && tail[1] == 0 && tail[2] == 1
    ensures |Rbsp.Unescape(tail)| >= 2 && Rbsp.Unescape(tail)[1] == 0
  {
    assert Rbsp.Unescape(tail) == [tail[0]] + Rbsp.Unescape(tail[1..]);
    assert Rbsp.Unescape(tail[1..]) == [tail[1]] + Rbsp.Unescape(tail[1..][1..]);
  }

  /** The units up to the first byte of the slice are sent as before, and what was split off in any packets whatever. */
  predicate SentSplit(pre: seq<Bytes>, header: Byte, groups: seq<Group>, tail: seq<Packet>, timestamp: nat, seqNum: nat,
                      sent: seq<Packet>, history: seq<Packet>, sorted: seq<Packet>) {
    && SendableGroups(groups) && AllUnits(groups) == pre + [[header]]
    && Payloads(sent) == Payloads(Packetize(groups, timestamp, seqNum) + tail)
    && InRun(sent, timestamp, seqNum) && MarkedLast(sent, true) && seqNum + |sent| <= SEQ && seqNum < SEQ
    && FrameAssembly.Arrived(history, sent, timestamp)
    && FrameAssembly.IsSorting(sorted, FrameAssembly.Pending(history, timestamp) + [sent[|sent| - 1]])
  }

  lemma SplitAssembles(pre: seq<Bytes>, header: Byte, groups: seq<Group>, tail: seq<Packet>, timestamp: nat, seqNum: nat,
      sent: seq<Packet>, history: seq<Packet>, sorted: seq<Packet>)
    requires SentSplit(pre, header, groups, tail, timestamp, seqNum, sent, history, sorted)
    ensures AssembleFrom(sorted, None) == Joined(Frame(pre + [[header]]), AssembleFrom(tail, None))
  {
    FrameAssembly.SortedIsSent(history, sent, timestamp, seqNum, sorted);
    OnlyPayloadsMatter(sent, Packetize(groups, timestamp, seqNum) + tail, None);
    WholeAssembles(groups, timestamp, seqNum, tail);
  }

  /** A frame with a start code across the seam is not delivered either, however the part split off is sent and read. */
  lemma SplitIsNotDelivered(c: Cipher, iv: Bytes, sif: Option<Bytes>, sample: Bytes, k: nat, defaultSize: int, data: Bytes,
      groups: seq<Group>, tail: seq<Packet>, timestamp: nat, seqNum: nat, sent: seq<Packet>, history: seq<Packet>,
      sorted: seq<Packet>)
    requires Published(c, iv, sample, k, defaultSize, data) && SealsIdeally(c, iv, sample, k) && HasSeam(sample, k, data)
    requires SentSplit(Kept(Units(sample))[..k], data[SealedFrom(sample, k) - 2], groups, tail, timestamp, seqNum, sent, history,
                       sorted)
    ensures !DeliversFrame(FrameAssembly.Deliver(c, sif, sorted, timestamp), Normalize(sample), timestamp)
  {
    var frame, pre, n := Normalize(sample), Kept(Units(sample))[..k], SealedFrom(sample, k);
    NormalizedIsCut(sample, k);
    var header := SplitPrefix(c, iv, frame, pre, defaultSize, data, n);
    SplitAssembles(pre, header, groups, tail, timestamp, seqNum, sent, history, sorted);
    if AssembleFrom(tail, None).Ok? {
      var more := AssembleFrom(tail, None).value;
      AssembledIsFramed(tail, None);
      SplitFails(c, iv, frame, pre, n, header, more);
      OnlyItsPrefixOpens(c, iv, sif, frame, n, Frame(pre + [[header]]) + more, frame, HasIdr(frame));
      DeliveredIff(c, sif, sorted, timestamp, Frame(pre + [[header]]) + more, frame);
    }
  }

  lemma SplitPrefix(c: Cipher, iv: Bytes, frame: Bytes, pre: seq<Bytes>, defaultSize: int, data: Bytes, n: nat)
    returns (header: Byte)
    requires Sealed(c, iv, frame, pre, defaultSize, data) && Ideal(c, iv, frame, pre)
    requires n == |Frame(pre)| + 6 && Seam(data, n - 2)
    ensures header == data[n - 2] && frame[..n] == Frame(pre) + START_CODE + [header, 0]
    ensures |c.seal(iv, frame[n..], frame[..n])| >= TAG_LENGTH && c.seal(iv, frame[n..], frame[..n])[1] == 1
  {
    header := data[n - 2];
    SeamIff(c, iv, frame, pre, defaultSize, data);
    PrefixOfCut(frame, pre, defaultSize);
    var escaped := EncryptedShape(c, iv, frame, pre, defaultSize, n);
    ClearPart(data, frame, pre, n - 6, escaped);
    assert data[n - 2..n] == [header, 0];
  }

  // ---------- Where it fails ----------

  /** The first two bytes are never escaped. */
  lemma FirstBytesStay(payload: Bytes)
    requires |payload| >= 3
    ensures var escaped := Rbsp.Escape(payload); |escaped| > 1 && escaped[0] == payload[0] && escaped[1] == payload[1]
  {
    var rest := payload[1..];
    var zeros := if payload[0] == 0 then 1 else 0;
    assert Rbsp.Escape(payload) == [payload[0]] + Rbsp.EscapeFrom(rest, zeros);
    assert Rbsp.EscapeFrom(rest, zeros)[0] == rest[0];
  }

  /** A start code forms across the seam exactly if the clear part ends in a zero byte and the ciphertext begins with 00 01. */
  lemma SeamIff(c: Cipher, iv: Bytes, frame: Bytes, pre: seq<Bytes>, defaultSize: int, data: Bytes)
    requires Sealed(c, iv, frame, pre, defaultSize, data) && Ideal(c, iv, frame, pre)
    ensures var n := |Frame(pre)| + 6; var box := c.seal(iv, frame[n..], frame[..n]);
      |box| >= TAG_LENGTH && (Seam(data, n - 2) <==> frame[n - 1] == 0 && box[0] == 0 && box[1] == 1)
  {
    var n := |Frame(pre)| + 6;
    PrefixOfCut(frame, pre, defaultSize);
    var escaped := EncryptedShape(c, iv, frame, pre, defaultSize, n);
    FirstBytesStay(SealedPayload(c, iv, frame, n));
    assert data[n - 1] == frame[n - 1] && data[n] == escaped[0] && data[n + 1] == escaped[1];
  }

  /** A frame whose clear part ends in a zero byte is lost whenever the ciphertext begins with 00 01. */
  lemma SeamIsLost(c: Cipher, iv: Bytes, sif: Option<Bytes>, frame: Bytes, pre: seq<Bytes>, defaultSize: int, data: Bytes)
    requires Sealed(c, iv, frame, pre, defaultSize, data) && Ideal(c, iv, frame, pre)
    requires var n := |Frame(pre)| + 6; var box := c.seal(iv, frame[n..], frame[..n]);
      |box| >= TAG_LENGTH && frame[n - 1] == 0 && box[0] == 0 && box[1] == 1
    ensures DecryptFrame(c, sif, Frame(Units(data))) != Ok(Opened(frame, HasIdr(frame)))
  {
    SeamIff(c, iv, frame, pre, defaultSize, data);
    SealedFrameComesBack(c, iv, sif, frame, pre, defaultSize, data);
  }

  lemma OneSlice(frame: Bytes)
    requires frame == [0, 0, 0, 1, 0x65, 0, 7]
    ensures Frame([]) == [] && CutAtSlice(frame, []) && frame[6..] == [7]
  {
    assert frame[0..4] == [] + START_CODE;
  }

  /** Such a frame and such a cipher. */
  lemma LostExample(c: Cipher, iv: Bytes, sif: Option<Bytes>, frame: Bytes, box: Bytes, defaultSize: int, data: Bytes)
    requires frame == [0, 0, 0, 1, 0x65, 0, 7] && |iv| == IV_LENGTH && box == [0, 1] + seq(15, _ => 5)
    requires c == OnlyThis(iv, [7], frame[..6], box) && data == Encrypt(c, iv, frame, defaultSize)
    ensures OpensOnly(c, iv, frame[6..], frame[..6])
    ensures DecryptFrame(c, sif, Frame(Units(data))) != Ok(Opened(frame, HasIdr(frame)))
  {
    OneSlice(frame);
    OnlyThisOpensOnly(iv, [7], frame[..6], box);
    SeamIsLost(c, iv, sif, frame, [], defaultSize, data);
  }
}
