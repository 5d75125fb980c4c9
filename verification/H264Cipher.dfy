/** H.264 frame encryption: encryptSample of publisher.go and decryptVideoFrame of frame_assembler.go. */
module H264Cipher {
  import opened Common
  import opened Aead
  import opened AnnexB
  import opened Rbsp

  // ---------- The clear prefix ----------

  /** Slice types 1 to 5. */
  predicate IsSlice(b: Byte) {
    1 <= b % 32 <= 5
  }

  predicate Inside(data: Bytes, nals: seq<Nal>) {
    forall k :: 0 <= k < |nals| ==> nals[k].start < nals[k].end <= |data|
  }

  /** Where the first slice NAL unit starts. */
  function FirstSlice(data: Bytes, nals: seq<Nal>): Option<nat>
    requires Inside(data, nals)
  {
    if nals == [] then None
    else if IsSlice(data[nals[0].start]) then Some(nals[0].start)
    else FirstSlice(data, nals[1..])
  }

  /** Start of the NAL unit the prefix is measured from: the first slice, or else the first unit. */
  function Anchor(data: Bytes, nals: seq<Nal>): nat
    requires nals != [] && Inside(data, nals)
  {
    match FirstSlice(data, nals)
    case Some(start) => start
    case None => nals[0].start
  }

  function Min(a: nat, b: nat): nat {
    if a < b then a else b
  }

  function SenderPrefix(frame: Bytes, defaultSize: int): nat {
    var nals := Scan(frame, 0);
    if nals == [] then Min(if defaultSize <= 0 then 10 else defaultSize, |frame|)
    else Min(Anchor(frame, nals) + 2, |frame|)
  }

  function ReceiverPrefix(frame: Bytes): nat {
    var nals := Scan(frame, 0);
    if nals == [] then 10 else Anchor(frame, nals) + 2
  }

  method FindAnchor(data: Bytes, nals: seq<Nal>) returns (start: nat)
    requires nals != [] && Inside(data, nals)
    ensures start == Anchor(data, nals)
  {
    for k := 0 to |nals|
      invariant FirstSlice(data, nals[k..]) == FirstSlice(data, nals)
    {
      if IsSlice(data[nals[k].start]) {
        return nals[k].start;
      }
    }
    return nals[0].start;
  }

  method ComputeUnencryptedBytes(annexB: Bytes, defaultSize: int) returns (n: nat)
    ensures n == SenderPrefix(annexB, defaultSize)
  {
    var nals := FindNalUnits(annexB);
    if |nals| == 0 {
      n := if defaultSize <= 0 then 10 else defaultSize;
    } else {
      var start := FindAnchor(annexB, nals);
      n := start + 2;
    }
    if n > |annexB| {
      n := |annexB|;
    }
  }

  // ---------- Sealing ----------

  /** Ciphertext with tag, IV, IV length and key ID. */
  function SealedPayload(c: Cipher, iv: Bytes, frame: Bytes, n: nat): Bytes
    requires n <= |frame|
  {
    c.seal(iv, frame[n..], frame[..n]) + iv + [IV_LENGTH, 0]
  }

  function Encrypt(c: Cipher, iv: Bytes, frame: Bytes, defaultSize: int): Bytes {
    var n := SenderPrefix(frame, defaultSize);
    if |frame| <= n then frame else frame[..n] + Escape(SealedPayload(c, iv, frame, n))
  }

  method EncryptSample(c: Cipher, iv: Bytes, sample: Bytes, defaultSize: int) returns (r: Bytes)
    ensures r == Encrypt(c, iv, sample, defaultSize)
  {
    var n := ComputeUnencryptedBytes(sample, defaultSize);
    if |sample| <= n {
      return sample;
    }
    var payload := AddRbspEscaping(SealedPayload(c, iv, sample, n));
    return sample[..n] + payload;
  }

  // ---------- Opening ----------

  function TryOpen(c: Cipher, data: Bytes, n: nat): Option<Bytes> {
    if |data| < n + 30 then None
    else
      var ivLength := data[|data| - 2];
      var ivStart := |data| - 2 - ivLength;
      if ivLength == 0 || ivLength > 16 || ivStart <= n then None
      else
        match c.open(data[ivStart..ivStart + ivLength], data[n..ivStart], data[..n])
        case None => None
        case Some(text) => Some(data[..n] + text)
  }

  /** First the bytes as received, then with the emulation prevention bytes removed. */
  function TryBoth(c: Cipher, data: Bytes, n: nat): Option<Bytes> {
    var raw := TryOpen(c, data, n);
    if raw.Some? then raw
    else if n < |data| && HasEscapeBytes(data[n..]) && |Unescape(data[n..])| != |data| - n then
      TryOpen(c, data[..n] + Unescape(data[n..]), n)
    else None
  }

  method DecryptWithAad(c: Cipher, data: Bytes, n: nat) returns (r: Option<Bytes>)
    ensures r == TryBoth(c, data, n)
  {
    r := TryOpen(c, data, n);
    if r.Some? || n >= |data| {
      return;
    }
    var escaped := HasRbspEscapeBytes(data[n..]);
    if !escaped {
      return;
    }
    var payload := RemoveRbspEscaping(data[n..]);
    if |payload| != |data| - n {
      r := TryOpen(c, data[..n] + payload, n);
    }
  }

  const FALLBACKS: seq<nat> := [10, 0, 1, 2, 4, 6, 8, 12, 14, 16]

  function TryFallbacks(c: Cipher, data: Bytes, tried: nat, sizes: seq<nat>): Option<Bytes> {
    if sizes == [] then None
    else if sizes[0] == tried || |data| < sizes[0] + 30 then TryFallbacks(c, data, tried, sizes[1..])
    else
      var r := TryBoth(c, data, sizes[0]);
      if r.Some? then r else TryFallbacks(c, data, tried, sizes[1..])
  }

  function OpenFrame(c: Cipher, data: Bytes): Option<Bytes> {
    var n := ReceiverPrefix(data);
    var r := TryBoth(c, data, n);
    if r.Some? then r else TryFallbacks(c, data, n, FALLBACKS)
  }

  /** Some IDR slice (type 5) is among the units. */
  predicate HasIdr(frame: Bytes) {
    var nals := Scan(frame, 0);
    exists k :: 0 <= k < |nals| && frame[nals[k].start] % 32 == 5
  }

  /** A keyframe is a frame with a unit of type 5. */
  lemma IdrIff(frame: Bytes)
    ensures HasIdr(frame) <==> exists k :: 0 <= k < |Units(frame)| && Units(frame)[k][0] % 32 == 5
  {
    var nals, units := Scan(frame, 0), Units(frame);
    if HasIdr(frame) {
      var k :| 0 <= k < |nals| && frame[nals[k].start] % 32 == 5;
      assert units[k][0] % 32 == 5;
    }
    if k :| 0 <= k < |units| && units[k][0] % 32 == 5 {
      assert frame[nals[k].start] % 32 == 5;
    }
  }

  datatype Opened = Injected | Opened(frame: Bytes, keyframe: bool)

  function DecryptFrame(c: Cipher, sif: Option<Bytes>, data: Bytes): Result<Opened> {
    if sif.Some? && HasSuffix(data, sif.value) then Ok(Injected)
    else
      match OpenFrame(c, data)
      case None => Err
      case Some(frame) => Ok(Opened(frame, HasIdr(frame)))
  }

  method DetectKeyframe(annexB: Bytes) returns (r: bool)
    ensures r == HasIdr(annexB)
  {
    var nals := FindNalUnits(annexB);
    for k := 0 to |nals|
      invariant forall i :: 0 <= i < k ==> annexB[nals[i].start] % 32 != 5
    {
      if annexB[nals[k].start] % 32 == 5 {
        return true;
      }
    }
    return false;
  }

  method DecryptVideoFrame(c: Cipher, sif: Option<Bytes>, data: Bytes) returns (r: Result<Opened>)
    ensures r == DecryptFrame(c, sif, data)
  {
    if sif.Some? && HasSuffix(data, sif.value) {
      return Ok(Injected);
    }
    var nals := FindNalUnits(data);
    var n := 10;
    if |nals| > 0 {
      var start := FindAnchor(data, nals);
      n := start + 2;
    }
    var plain := DecryptWithAad(c, data, n);
    if plain.None? {
      plain := FallbackSizes(c, data, n);
    }
    if plain.None? {
      return Err;
    }
    var keyframe := DetectKeyframe(plain.value);
    return Ok(Opened(plain.value, keyframe));
  }

  method FallbackSizes(c: Cipher, data: Bytes, tried: nat) returns (r: Option<Bytes>)
    ensures r == TryFallbacks(c, data, tried, FALLBACKS)
  {
    for k := 0 to |FALLBACKS|
      invariant TryFallbacks(c, data, tried, FALLBACKS[k..]) == TryFallbacks(c, data, tried, FALLBACKS)
    {
      if FALLBACKS[k] == tried || |data| < FALLBACKS[k] + 30 {
        continue;
      }
      var plain := DecryptWithAad(c, data, FALLBACKS[k]);
      if plain.Some? {
        return plain;
      }
    }
    return None;
  }

  // ---------- One sealed frame, one prefix length ----------

  /** The sealed frame opens with its own prefix, whether or not it was escaped. */
  lemma OpensWithItsPrefix(c: Cipher, iv: Bytes, frame: Bytes, n: nat)
    requires |iv| == IV_LENGTH && n < |frame| && OpensOnly(c, iv, frame[n..], frame[..n])
    ensures TryBoth(c, frame[..n] + Escape(SealedPayload(c, iv, frame, n)), n) == Some(frame)
  {
    var payload := SealedPayload(c, iv, frame, n);
    var escaped := Escape(payload);
    var data := frame[..n] + escaped;
    OpensUnescaped(c, iv, frame, n);
    assert data[..n] == frame[..n] && data[n..] == escaped;
    ChangeIsNoticed(payload);
    Rbsp.RoundTrip(payload);
    if escaped != payload {
      RawAttemptFails(c, iv, frame, n, escaped);
    }
  }

  lemma OpensUnescaped(c: Cipher, iv: Bytes, frame: Bytes, n: nat)
    requires |iv| == IV_LENGTH && n < |frame| && OpensOnly(c, iv, frame[n..], frame[..n])
    ensures TryOpen(c, frame[..n] + SealedPayload(c, iv, frame, n), n) == Some(frame)
  {
    var box := c.seal(iv, frame[n..], frame[..n]);
    var data := frame[..n] + SealedPayload(c, iv, frame, n);
    assert data == frame[..n] + box + iv + [IV_LENGTH, 0];
    var ivStart := |data| - 2 - IV_LENGTH;
    assert data[..n] == frame[..n] && data[n..ivStart] == box && data[ivStart..ivStart + IV_LENGTH] == iv;
    assert frame[..n] + frame[n..] == frame;
  }

  /** Escaped bytes that differ from the sealed ones never open as they are. */
  lemma RawAttemptFails(c: Cipher, iv: Bytes, frame: Bytes, n: nat, escaped: Bytes)
    requires |iv| == IV_LENGTH && n < |frame| && OpensOnly(c, iv, frame[n..], frame[..n])
    requires |escaped| > |SealedPayload(c, iv, frame, n)|
    ensures TryOpen(c, frame[..n] + escaped, n) == None
  {
    var data := frame[..n] + escaped;
    var ivLength := data[|data| - 2];
    var ivStart := |data| - 2 - ivLength;
    if 0 < ivLength <= 16 && n < ivStart {
      var iv', box := data[ivStart..ivStart + ivLength], data[n..ivStart];
      assert |box| + |iv'| + 2 == |escaped|;
      assert iv' != iv || |box| != |c.seal(iv, frame[n..], frame[..n])|;
      assert c.open(iv', box, data[..n]) == None;
    }
  }

  /** With any other prefix length nothing opens: the associated data would have another length. */
  lemma OtherPrefixFails(c: Cipher, iv: Bytes, frame: Bytes, n: nat, data: Bytes, m: nat)
    requires n <= |frame| && OpensOnly(c, iv, frame[n..], frame[..n]) && m != n
    ensures TryBoth(c, data, m) == None
  {
    OpenNeedsPrefix(c, iv, frame, n, data, m);
    if m < |data| {
      OpenNeedsPrefix(c, iv, frame, n, data[..m] + Unescape(data[m..]), m);
    }
  }

  lemma OpenNeedsPrefix(c: Cipher, iv: Bytes, frame: Bytes, n: nat, data: Bytes, m: nat)
    requires n <= |frame| && OpensOnly(c, iv, frame[n..], frame[..n]) && m != n
    ensures TryOpen(c, data, m) == None
  {
    if |data| >= m + 30 {
      assert |data[..m]| != |frame[..n]|;
    }
  }

  lemma {:induction false} FallbacksFind(c: Cipher, iv: Bytes, frame: Bytes, n: nat, tried: nat, sizes: seq<nat>)
    requires |iv| == IV_LENGTH && n < |frame| && OpensOnly(c, iv, frame[n..], frame[..n]) && tried != n
    ensures var data := frame[..n] + Escape(SealedPayload(c, iv, frame, n));
      TryFallbacks(c, data, tried, sizes) == if n in sizes then Some(frame) else None
    decreases |sizes|
  {
    if sizes != [] {
      var data := frame[..n] + Escape(SealedPayload(c, iv, frame, n));
      OpensWithItsPrefix(c, iv, frame, n);
      EscapedIsNoShorter(SealedPayload(c, iv, frame, n));
      if sizes[0] != n {
        OtherPrefixFails(c, iv, frame, n, data, sizes[0]);
      }
      FallbacksFind(c, iv, frame, n, tried, sizes[1..]);
      assert n in sizes <==> sizes[0] == n || n in sizes[1..];
    }
  }

  lemma EscapedIsNoShorter(data: Bytes)
    ensures |Escape(data)| >= |data|
  {
    ChangeIsNoticed(data);
    Rbsp.RoundTrip(data);
  }

  /**
   * The receiver gets the frame back, with the right keyframe flag, if and only if the bytes do not end like an
   * injected frame and the sender's prefix is the receiver's guess or one of the fallbacks.
   */
  lemma DecryptsExactly(c: Cipher, iv: Bytes, sif: Option<Bytes>, frame: Bytes, defaultSize: int)
    requires |iv| == IV_LENGTH && |frame| > SenderPrefix(frame, defaultSize)
    requires var n := SenderPrefix(frame, defaultSize); OpensOnly(c, iv, frame[n..], frame[..n])
    ensures var n := SenderPrefix(frame, defaultSize); var data := Encrypt(c, iv, frame, defaultSize);
      DecryptFrame(c, sif, data) == Ok(Opened(frame, HasIdr(frame)))
      <==> !(sif.Some? && HasSuffix(data, sif.value))
           && (ReceiverPrefix(data) == n || n in {0, 1, 2, 4, 6, 8, 10, 12, 14, 16})
  {
    var n := SenderPrefix(frame, defaultSize);
    var data := Encrypt(c, iv, frame, defaultSize);
    var m := ReceiverPrefix(data);
    OpensWithItsPrefix(c, iv, frame, n);
    if m != n {
      OtherPrefixFails(c, iv, frame, n, data, m);
      FallbacksFind(c, iv, frame, n, m, FALLBACKS);
    }
  }

  // ---------- What is sealed ----------

  lemma {:induction false} FirstSliceIff(data: Bytes, nals: seq<Nal>)
    requires Inside(data, nals)
    ensures FirstSlice(data, nals).None? <==> forall k :: 0 <= k < |nals| ==> !(1 <= data[nals[k].start] % 32 <= 5)
    decreases |nals|
  {
    if nals != [] {
      FirstSliceIff(data, nals[1..]);
      assert forall k :: 1 <= k < |nals| ==> nals[1..][k - 1] == nals[k];
    }
  }

  lemma NoSliceFound(frame: Bytes, nals: seq<Bytes>)
    requires Units(frame) == nals && forall k :: 0 <= k < |nals| ==> !(1 <= nals[k][0] % 32 <= 5)
    ensures FirstSlice(frame, Scan(frame, 0)) == None
  {
    var found := Scan(frame, 0);
    forall k | 0 <= k < |found|
      ensures !(1 <= frame[found[k].start] % 32 <= 5)
    {
      assert nals[k][0] == frame[found[k].start];
    }
    FirstSliceIff(frame, found);
  }

  lemma FirstUnitStart(frame: Bytes, nals: seq<Bytes>)
    requires nals != [] && Sound(nals) && frame == Frame(nals)
    ensures Scan(frame, 0) != [] && Scan(frame, 0)[0].start == 4
  {
    FrameIsStream(nals);
    var units := Long(nals);
    var rest := Stream(units[1..]);
    Regroup(CodeOf(true), nals[0], rest);
    assert frame[0..] == frame;
    var start, end := StreamStep(frame, 0, units, rest);
    FrameCons(nals[0], nals[1..]);
    assert nals == [nals[0]] + nals[1..];
    assert frame[0..4] == START_CODE;
    CodeOfStartCode(frame, 0);
  }

  /** Without units it takes what the caller asks for, or ten bytes if that is nothing, as far as there are so many. */
  lemma PrefixWithoutUnits(frame: Bytes, defaultSize: int)
    requires Units(frame) == []
    ensures SenderPrefix(frame, defaultSize)
      == var n := if defaultSize > 0 then defaultSize else 10; if n <= |frame| then n else |frame|
  {
  }

  /** Exactly what is no longer than its prefix is sent as it is. */
  lemma ShortStaysIff(c: Cipher, iv: Bytes, frame: Bytes, defaultSize: int)
    requires Correct(c)
    ensures Encrypt(c, iv, frame, defaultSize) == frame <==> |frame| <= SenderPrefix(frame, defaultSize)
  {
    var n := SenderPrefix(frame, defaultSize);
    if |frame| > n {
      RoundTrip(SealedPayload(c, iv, frame, n));
      ChangeIsNoticed(SealedPayload(c, iv, frame, n));
    }
  }

  /** Without a slice, the prefix ends two bytes into the first unit. */
  lemma PrefixWithoutSlice(nals: seq<Bytes>, defaultSize: int)
    requires nals != [] && Sound(nals) && forall k :: 0 <= k < |nals| ==> nals[k] != [] && !(1 <= nals[k][0] % 32 <= 5)
    ensures SenderPrefix(Frame(nals), defaultSize) == if |Frame(nals)| < 6 then |Frame(nals)| else 6
  {
    UnitsOfFrame(nals);
    NoSliceFound(Frame(nals), nals);
    FirstUnitStart(Frame(nals), nals);
  }

  // ---------- Both sides find the same first slice ----------

  lemma {:induction false} FirstSliceInside(data: Bytes, i: nat)
    requires i <= |data| && Inside(data, Scan(data, i)) && FirstSlice(data, Scan(data, i)).Some?
    ensures var s := FirstSlice(data, Scan(data, i)).value; i + 3 <= s < |data| && IsSlice(data[s])
    decreases |data| - i
  {
    var n := CodeLen(data, i);
    if n == 0 {
      FirstSliceInside(data, i + 1);
    } else {
      var end := NalEnd(data, i + n);
      if i + n == end || !IsSlice(data[i + n]) {
        ScanCons(data, i);
        FirstSliceInside(data, end);
      }
    }
  }

  lemma ScanCons(data: Bytes, i: nat)
    requires i < |data| && CodeLen(data, i) > 0
    ensures var start := i + CodeLen(data, i); var end := NalEnd(data, start);
      Scan(data, end) == if start < end then Scan(data, i)[1..] else Scan(data, i)
  {
    var start := i + CodeLen(data, i);
    var end := NalEnd(data, start);
    if start < end {
      assert ([Nal(start, end)] + Scan(data, end))[1..] == Scan(data, end);
    } else {
      assert [] + Scan(data, end) == Scan(data, end);
    }
  }

  /** Up to a first slice, scanning sees only bytes in front of it. */
  lemma SameCodeLen(a: Bytes, b: Bytes, i: nat, s: nat)
    requires i + 3 <= s && s + 2 < |a| && s + 2 < |b| && SameOn(a, b, 0, s + 1)
    ensures CodeLen(a, i) == CodeLen(b, i)
  {
  }

  lemma {:induction false} SameNalEnd(a: Bytes, b: Bytes, j: nat, s: nat)
    requires s + 2 < |a| && s + 2 < |b| && SameOn(a, b, 0, s + 1)
    requires j <= |a| && NalEnd(a, j) + 3 <= s
    ensures NalEnd(b, j) == NalEnd(a, j)
    decreases |a| - j
  {
    if !CodeAt(a, j) {
      SameNalEnd(a, b, j + 1, s);
    }
  }

  lemma SliceHere(b: Bytes, i: nat, start: nat)
    requires i < |b| && CodeLen(b, i) > 0 && start == i + CodeLen(b, i) && start < |b| && IsSlice(b[start])
    ensures FirstSlice(b, Scan(b, i)) == Some(start)
  {
    assert b[start] != 0 && NalEnd(b, start) > start;
    assert Scan(b, i)[0] == Nal(start, NalEnd(b, start));
  }

  lemma ScanUnit(b: Bytes, i: nat, start: nat, end: nat)
    requires i < |b| && CodeLen(b, i) > 0 && start == i + CodeLen(b, i) && end == NalEnd(b, start)
    ensures Scan(b, i) == if start < end then [Nal(start, end)] + Scan(b, end) else Scan(b, end)
  {
    assert [] + Scan(b, end) == Scan(b, end);
  }

  lemma TailSlice(b: Bytes, nals: seq<Nal>, nal: Nal, rest: seq<Nal>)
    requires Inside(b, nals) && nals == [nal] + rest && nal.start < |b| && !IsSlice(b[nal.start])
    ensures Inside(b, rest) && FirstSlice(b, nals) == FirstSlice(b, rest)
  {
    assert nals[1..] == rest;
    assert forall k :: 0 <= k < |rest| ==> rest[k] == nals[k + 1];
  }

  lemma SliceLater(b: Bytes, i: nat, start: nat, end: nat)
    requires i < |b| && CodeLen(b, i) > 0 && start == i + CodeLen(b, i) && end == NalEnd(b, start)
    requires start < end ==> !IsSlice(b[start])
    ensures FirstSlice(b, Scan(b, i)) == FirstSlice(b, Scan(b, end))
  {
    ScanUnit(b, i, start, end);
    if start < end {
      TailSlice(b, Scan(b, i), Nal(start, end), Scan(b, end));
    }
  }

  /** The first slice of `b` from `i` on is at `s`. */
  predicate SliceAt(b: Bytes, i: nat, s: nat)
    requires i <= |b|
  {
    FirstSlice(b, Scan(b, i)) == Some(s)
  }

  lemma SliceStep(b: Bytes, i: nat, s: nat)
    requires i < |b| && CodeLen(b, i) == 0
    ensures SliceAt(b, i, s) == SliceAt(b, i + 1, s)
  {
  }

  lemma SliceUnit(b: Bytes, i: nat, start: nat, end: nat, s: nat)
    requires i < |b| && CodeLen(b, i) > 0 && start == i + CodeLen(b, i) && end == NalEnd(b, start)
    ensures SliceAt(b, i, s) == if start < end && IsSlice(b[start]) then s == start else SliceAt(b, end, s)
  {
    if start < end && IsSlice(b[start]) {
      SliceHere(b, i, start);
    } else {
      SliceLater(b, i, start, end);
    }
  }

  lemma SliceInside(b: Bytes, i: nat, s: nat)
    requires i <= |b| && SliceAt(b, i, s)
    ensures i + 3 <= s < |b|
  {
    FirstSliceInside(b, i);
  }

  /** Whatever follows the first slice's header byte, the first slice is found at the same place. */
  lemma {:induction false} SameFirstSlice(a: Bytes, b: Bytes, i: nat, s: nat)
    requires i <= |a| && i <= |b| && SliceAt(a, i, s)
    requires s + 2 < |a| && s + 2 < |b| && SameOn(a, b, 0, s + 1)
    ensures SliceAt(b, i, s)
    decreases |a| - i
  {
    SliceInside(a, i, s);
    SameCodeLen(a, b, i, s);
    var n := CodeLen(a, i);
    if n == 0 {
      SliceStep(a, i, s);
      SameFirstSlice(a, b, i + 1, s);
      SliceStep(b, i, s);
    } else {
      var start := i + n;
      var end := NalEnd(a, start);
      SliceUnit(a, i, start, end, s);
      if start < end && IsSlice(a[start]) {
        SliceHere(b, i, start);
      } else {
        SliceInside(a, end, s);
        SameNalEnd(a, b, start, s);
        SameFirstSlice(a, b, end, s);
        SliceUnit(b, i, start, end, s);
      }
    }
  }

  predicate HasSlice(frame: Bytes) {
    FirstSlice(frame, Scan(frame, 0)).Some?
  }

  /** The clear-prefix length the receiver computes on the encrypted frame is the sender's. */
  lemma SamePrefix(c: Cipher, iv: Bytes, frame: Bytes, defaultSize: int)
    requires HasSlice(frame) && |frame| > SenderPrefix(frame, defaultSize)
    requires var n := SenderPrefix(frame, defaultSize); |c.seal(iv, frame[n..], frame[..n])| >= TAG_LENGTH
    ensures ReceiverPrefix(Encrypt(c, iv, frame, defaultSize)) == SenderPrefix(frame, defaultSize)
  {
    var n := SenderPrefix(frame, defaultSize);
    var data := Encrypt(c, iv, frame, defaultSize);
    var s := FirstSlice(frame, Scan(frame, 0)).value;
    assert n == s + 2;
    EscapedIsNoShorter(SealedPayload(c, iv, frame, n));
    assert forall i :: 0 <= i < n ==> data[i] == frame[i];
    SameFirstSlice(frame, data, 0, s);
  }

  /** Every frame with a slice, longer than its clear prefix, comes back. */
  lemma FramesWithSlicesComeBack(c: Cipher, iv: Bytes, sif: Option<Bytes>, frame: Bytes, defaultSize: int)
    requires |iv| == IV_LENGTH && HasSlice(frame) && |frame| > SenderPrefix(frame, defaultSize)
    requires var n := SenderPrefix(frame, defaultSize); OpensOnly(c, iv, frame[n..], frame[..n])
    ensures var data := Encrypt(c, iv, frame, defaultSize);
      !(sif.Some? && HasSuffix(data, sif.value)) ==>
      DecryptFrame(c, sif, data) == Ok(Opened(frame, HasIdr(frame)))
  {
    SamePrefix(c, iv, frame, defaultSize);
    DecryptsExactly(c, iv, sif, frame, defaultSize);
  }
}
