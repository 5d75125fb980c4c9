/** What a reader of the AV1 depacketizer's output finds: every OBU of the sender, each with a size field. */
module Av1Output {
  import opened Common
  import opened Leb128
  import opened Av1Depacketizer
  import opened Av1Reassembly
  import Av1Layout

  /** What an OBU carries behind its header and its size field, if it has one. */
  function PayloadOf(obu: Bytes): Bytes
    requires WellFormedObu(obu)
  {
    var h := 1 + obu[0] / 4 % 2;
    if obu[0] / 2 % 2 == 0 then obu[h..] else obu[h + ReadLong(obu, h).value.length..]
  }

  /** The reserved bit is zero, and a size field takes no more than the five bytes of 32 bits. */
  predicate Plain(obu: Bytes)
    requires WellFormedObu(obu)
  {
    obu[0] % 2 == 0 && (obu[0] / 2 % 2 == 1 ==> ReadLong(obu, 1 + obu[0] / 4 % 2).value.length <= 5)
  }

  /** The layout parser reads at `at` an OBU with a size field, the type, flags, extension and payload of `obu`. */
  predicate ReadsAs(out: Bytes, at: nat, obu: Bytes)
    requires WellFormedObu(obu)
  {
    at < |out| && Av1Layout.ObuAt(out, at).Some? &&
    var o := Av1Layout.ObuAt(out, at).value;
    && o.hasSize && o.obuType == obu[0] / 8 && out[o.start..o.end] == PayloadOf(obu)
    && out[at] / 4 == obu[0] / 4 && out[at] / 2 % 2 == 1 && out[at] % 2 == obu[0] % 2
    && (obu[0] / 4 % 2 == 1 ==> out[at + 1] == obu[1])
  }

  /** From `at` on, `out` is read as these OBUs, in order, and nothing else. */
  predicate Reads(out: Bytes, at: nat, obus: seq<Bytes>)
    requires AllWellFormed(obus)
    decreases |obus|
  {
    if obus == [] then at == |out|
    else ReadsAs(out, at, obus[0]) && Reads(out, Av1Layout.ObuAt(out, at).value.end, obus[1..])
  }

  // ---------- The two size-field readers ----------

  lemma {:induction false} ReadLongShift(pre: Bytes, obu: Bytes, post: Bytes, offset: nat)
    requires ReadLong(obu, offset).Some?
    ensures ReadLong(pre + obu + post, |pre| + offset) == ReadLong(obu, offset)
    decreases |obu| - offset
  {
    assert (pre + obu + post)[|pre| + offset] == obu[offset];
    if obu[offset] >= 128 {
      ReadLongShift(pre, obu, post, offset + 1);
    }
  }

  lemma LongDigit(v: nat, b: Byte, rest: nat, k: nat, value: nat)
    requires k < 5 && v == b % 128 + 128 * rest && value + v * Weight(k) < UINT32
    ensures Accumulate(value, b, k) < UINT32 && Accumulate(value, b, k) + rest * Weight(k + 1) == value + v * Weight(k)
  {
    assert v % 128 == b % 128 && v / 128 == rest;
    DigitRead(b, k, v, value);
  }

  /** Five bytes and 32 bits are read alike by both. */
  lemma {:induction false} ReadFromLong(data: Bytes, offset: nat, k: nat, value: nat, r: Leb)
    requires k < 5 && value < UINT32 && ReadLong(data, offset + k) == Some(r)
    requires k + r.length <= 5 && value + r.value * Weight(k) < UINT32
    ensures ReadFrom(data, offset, k, value) == Some(Leb(value + r.value * Weight(k), k + r.length))
    decreases 5 - k
  {
    var b := data[offset + k];
    if b < 128 {
      LongDigit(r.value, b, 0, k, value);
      assert 0 * Weight(k + 1) == 0;
    } else {
      var rest := ReadLong(data, offset + k + 1).value;
      LongDigit(r.value, b, rest.value, k, value);
      ReadFromLong(data, offset, k + 1, Accumulate(value, b, k), rest);
    }
  }

  /** A longer size field is refused. */
  lemma {:induction false} LongIsCut(data: Bytes, offset: nat, k: nat, value: nat)
    requires k < 5 && value < UINT32 && ReadLong(data, offset + k).Some?
    requires k + ReadLong(data, offset + k).value.length > 5
    ensures ReadFrom(data, offset, k, value) == None
    decreases 5 - k
  {
    if k < 4 {
      LongIsCut(data, offset, k + 1, Accumulate(value, data[offset + k], k));
    }
  }

  // ---------- One OBU ----------

  function HeaderOf(obu: Bytes): Av1Layout.Header
    requires obu != []
  {
    Av1Layout.Header(obu[0] / 8, obu[0] / 4 % 2 == 1, true)
  }

  lemma InsertedParts(obu: Bytes, n: nat, h: Av1Layout.Header, extension: Byte)
    requires HeaderSize(obu) == Some(n) && !HasSize(obu) && h.obuType < 16 && h.hasSize
    requires obu[0] + 2 == Av1Layout.HeaderByte(h) && obu[1..n] == if h.extension then [extension] else []
    ensures WithSize(obu) == Av1Layout.WrittenObu(h, extension, obu[n..])
  {
    assert Av1Layout.SizeBytes(h, obu[n..]) == Write(|obu| - n);
  }

  lemma WithSizeIsWritten(obu: Bytes) returns (h: Av1Layout.Header, extension: Byte, payload: Bytes)
    requires WellFormedObu(obu) && obu[0] / 2 % 2 == 0 && obu[0] % 2 == 0
    ensures h == HeaderOf(obu) && h.obuType < 16 && payload == PayloadOf(obu)
    ensures WithSize(obu) == Av1Layout.WrittenObu(h, extension, payload)
  {
    h, extension, payload := HeaderOf(obu), if obu[0] / 4 % 2 == 1 then obu[1] else 0, PayloadOf(obu);
    Av1Layout.HeaderParts(obu[0]);
    InsertedParts(obu, HeaderSize(obu).value, h, extension);
  }

  lemma InsertedFront(pre: Bytes, obu: Bytes, w: Bytes, post: Bytes)
    requires WellFormedObu(obu) && obu[0] / 2 % 2 == 0 && w == WithSize(obu)
    ensures |w| > 1 && (pre + w + post)[|pre|] == obu[0] + 2
    ensures obu[0] / 4 % 2 == 1 ==> (pre + w + post)[|pre| + 1] == obu[1]
  {
  }

  lemma InsertedIsRead(pre: Bytes, obu: Bytes, post: Bytes)
    requires WellFormedObu(obu) && obu[0] / 2 % 2 == 0 && obu[0] % 2 == 0 && |PayloadOf(obu)| < UINT32
    ensures ReadsAs(pre + WithSize(obu) + post, |pre|, obu)
    ensures Av1Layout.ObuAt(pre + WithSize(obu) + post, |pre|).value.end == |pre| + |WithSize(obu)|
  {
    var w := WithSize(obu);
    var h, extension, payload := WithSizeIsWritten(obu);
    Av1Layout.WrittenObuIsRead(pre, h, extension, payload, post, w);
    InsertedFront(pre, obu, w, post);
    SizeBitSet(obu[0]);
  }

  lemma SizeBitSet(b: Byte)
    requires b / 2 % 2 == 0
    ensures (b + 2) / 4 == b / 4 && (b + 2) / 2 % 2 == 1 && (b + 2) % 2 == b % 2
  {
  }

  lemma KeptSize(pre: Bytes, obu: Bytes, post: Bytes, h: nat, size: Leb)
    requires ReadLong(obu, h) == Some(size) && size.value < UINT32
    ensures Read(pre + obu + post, |pre| + h) == if size.length <= 5 then Some(size) else None
  {
    ReadLongShift(pre, obu, post, h);
    ReadCut(pre + obu + post, |pre| + h, size);
  }

  lemma ReadCut(data: Bytes, offset: nat, size: Leb)
    requires ReadLong(data, offset) == Some(size) && size.value < UINT32
    ensures Read(data, offset) == if size.length <= 5 then Some(size) else None
  {
    if size.length <= 5 {
      assert size.value * Weight(0) == size.value;
      ReadFromLong(data, offset, 0, 0, size);
    } else {
      LongIsCut(data, offset, 0, 0);
    }
  }

  lemma NoneWithoutSize(data: Bytes, at: nat, h: Av1Layout.Header)
    requires at < |data| && Av1Layout.ParseHeader(data[at]) == Some(h) && h.hasSize
    requires Read(data, at + Av1Layout.HeaderLen(h)) == None
    ensures Av1Layout.ObuAt(data, at) == None
  {
  }

  lemma KeptCut(pre: Bytes, obu: Bytes, post: Bytes, n: nat, m: nat)
    requires 0 < n <= m <= |obu|
    ensures pre + obu + post == (pre + obu[..n]) + obu[n..m] + (obu[m..] + post)
    ensures (pre + obu + post)[|pre|] == obu[0] == (pre + obu[..n])[|pre|]
  {
    assert obu == obu[..n] + obu[n..m] + obu[m..];
  }

  lemma KeptParts(pre: Bytes, obu: Bytes, post: Bytes, n: nat, size: Leb, h: Av1Layout.Header)
    requires obu != [] && Av1Layout.ParseHeader(obu[0]) == Some(h) && h.hasSize && Av1Layout.HeaderLen(h) == n <= |obu|
    requires ReadLong(obu, n) == Some(size) && |obu| == n + size.length + size.value && size.value < UINT32
    ensures var end := |pre| + |obu|;
      Av1Layout.ObuAt(pre + obu + post, |pre|)
        == if size.length <= 5 then Some(Av1Layout.Obu(h.obuType, true, end - size.value, end)) else None
  {
    var data := pre + obu + post;
    var front, field, payload := pre + obu[..n], obu[n..n + size.length], obu[n + size.length..];
    KeptSize(pre, obu, post, n, size);
    KeptCut(pre, obu, post, n, n + size.length);
    if size.length <= 5 {
      Av1Layout.FrontIsRead(front, |pre|, h, field, payload, post);
    } else {
      NoneWithoutSize(data, |pre|, h);
    }
  }

  lemma KeptObu(pre: Bytes, obu: Bytes, post: Bytes)
    requires WellFormedObu(obu) && obu[0] / 2 % 2 == 1 && |PayloadOf(obu)| < UINT32
    ensures var end := |pre| + |obu|;
      Av1Layout.ObuAt(pre + obu + post, |pre|)
        == if Plain(obu) then Some(Av1Layout.Obu(obu[0] / 8, true, end - |PayloadOf(obu)|, end)) else None
  {
    if obu[0] % 2 == 0 {
      var n := 1 + obu[0] / 4 % 2;
      KeptParts(pre, obu, post, n, ReadLong(obu, n).value, HeaderOf(obu));
    } else {
      assert (pre + obu + post)[|pre|] == obu[0];
    }
  }

  lemma KeptIsRead(pre: Bytes, obu: Bytes, post: Bytes)
    requires WellFormedObu(obu) && obu[0] / 2 % 2 == 1 && |PayloadOf(obu)| < UINT32
    ensures ReadsAs(pre + obu + post, |pre|, obu) == Plain(obu)
    ensures Plain(obu) ==> Av1Layout.ObuAt(pre + obu + post, |pre|).value.end == |pre| + |obu|
  {
    var data, end := pre + obu + post, |pre| + |obu|;
    KeptObu(pre, obu, post);
    assert data[|pre|..end] == obu;
    assert data[|pre|] == obu[0] && (obu[0] / 4 % 2 == 1 ==> data[|pre| + 1] == obu[1]);
    assert data[end - |PayloadOf(obu)|..end] == PayloadOf(obu);
  }

  /** What one OBU becomes in the output is read as that OBU exactly if it is plain, whatever stands around it. */
  lemma EmittedIsRead(pre: Bytes, obu: Bytes, post: Bytes)
    requires WellFormedObu(obu) && |PayloadOf(obu)| < UINT32
    ensures ReadsAs(pre + WithSize(obu) + post, |pre|, obu) == Plain(obu)
    ensures Plain(obu) ==> Av1Layout.ObuAt(pre + WithSize(obu) + post, |pre|).value.end == |pre| + |WithSize(obu)|
  {
    if obu[0] / 2 % 2 == 1 {
      KeptIsRead(pre, obu, post);
    } else if obu[0] % 2 == 0 {
      InsertedIsRead(pre, obu, post);
    } else {
      assert (pre + WithSize(obu) + post)[|pre|] == obu[0] + 2;
      assert (obu[0] + 2) % 2 == 1;
    }
  }

  /** A header that is whole, without the top bit, and a size field, if there is one, that ends with the last element. */
  predicate Accepted(obu: Bytes, last: nat) {
    0 < |obu| && obu[0] < 128 &&
    var h := 1 + obu[0] / 4 % 2;
    && h <= |obu|
    && (obu[0] / 2 % 2 == 0 || match ReadLong(obu, h) case None => false case Some(size) => last == h + size.length + size.value)
  }

  /** Exactly such an OBU is passed on. */
  lemma EmitsIff(obu: Bytes, last: nat)
    ensures Emit(obu, last).Some? == Accepted(obu, last)
  {
  }

  // ---------- The whole output ----------

  ghost predicate AllPlain(obus: seq<Bytes>)
    requires AllWellFormed(obus)
  {
    forall k :: 0 <= k < |obus| ==> Plain(obus[k])
  }

  /** Payloads of less than 2^32 bytes. */
  ghost predicate AllSmall(obus: seq<Bytes>)
    requires AllWellFormed(obus)
  {
    forall k :: 0 <= k < |obus| ==> |PayloadOf(obus[k])| < UINT32
  }

  lemma {:induction false} AllAreRead(pre: Bytes, obus: seq<Bytes>)
    requires AllWellFormed(obus) && AllSmall(obus)
    ensures Reads(pre + Flatten(WithSizes(obus)), |pre|, obus) == AllPlain(obus)
    decreases |obus|
  {
    if obus == [] {
      assert pre + Flatten(WithSizes(obus)) == pre;
    } else {
      var first, rest := WithSize(obus[0]), obus[1..];
      var post := Flatten(WithSizes(rest));
      var out := pre + first + post;
      assert pre + Flatten(WithSizes(obus)) == out;
      EmittedIsRead(pre, obus[0], post);
      AllAreRead(pre + first, rest);
      assert AllPlain(obus) == (Plain(obus[0]) && AllPlain(rest)) by {
        assert obus == [obus[0]] + rest;
      }
    }
  }

  /**
   * The output of all packets, however the OBUs were cut: it is read back as the sender's OBUs, in order, each with
   * a size field, its type, its extension and exactly its payload, if and only if they are all plain.
   */
  lemma OutputIsRead(packets: seq<Packet>, obus: seq<Bytes>)
    requires LegalChain(packets, false) && obus == Obus(Reassembled(packets, []))
    requires AllWellFormed(obus) && AllSmall(obus)
    ensures forall p :: p in packets ==> LegalPacket(p)
    ensures Run([], packets).Ok? ==> Reads(Run([], packets).value, 0, obus) == AllPlain(obus)
  {
    DepacketizesAnyCut(packets);
    AllAreRead([], obus);
    assert [] + Flatten(WithSizes(obus)) == Flatten(WithSizes(obus));
  }
}
