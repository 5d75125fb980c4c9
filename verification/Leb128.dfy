/** The unsigned LEB128 codec of av1_e2ee.go (section 4.10.5 of the AV1 specification, cut to 32 bits). */
module Leb128 {
  import opened Common

  const UINT32: int := 0x1_0000_0000

  /** A decoded value and the number of bytes it took. */
  datatype Leb = Leb(value: nat, length: nat)

  function Weight(k: nat): (w: nat)
    ensures w > 0
  {
    if k == 0 then 1 else 128 * Weight(k - 1)
  }

  /** `digit << 7 * k`. */
  function Shifted(digit: nat, k: nat): nat {
    if k == 0 then digit else 128 * Shifted(digit, k - 1)
  }

  lemma {:induction false} ShiftedIs(digit: nat, k: nat)
    ensures Shifted(digit, k) == digit * Weight(k)
  {
    if k > 0 {
      ShiftedIs(digit, k - 1);
      assert digit * (128 * Weight(k - 1)) == 128 * (digit * Weight(k - 1));
    }
  }

  /** `value += uint32(b & 0x7f) << 7 * length`, in 32 bits. */
  function Accumulate(value: nat, b: Byte, length: nat): (v: nat)
    ensures v < UINT32
  {
    (value + Shifted(b % 128, length)) % UINT32
  }

  /** The decoder with `length` bytes already folded into `value`. */
  function ReadFrom(data: Bytes, offset: nat, length: nat, value: nat): (r: Option<Leb>)
    requires length < 5 && value < UINT32
    ensures r.Some? ==> length < r.value.length <= 5 && offset + r.value.length <= |data| && r.value.value < UINT32
    decreases 5 - length
  {
    if offset + length >= |data| then None
    else
      var b := data[offset + length];
      var v := Accumulate(value, b, length);
      if b < 128 then Some(Leb(v, length + 1))
      else if length + 1 >= 5 then None
      else ReadFrom(data, offset, length + 1, v)
  }

  function Read(data: Bytes, offset: nat): (r: Option<Leb>)
    ensures r.Some? ==> 0 < r.value.length <= 5 && offset + r.value.length <= |data| && r.value.value < UINT32
  {
    ReadFrom(data, offset, 0, 0)
  }

  function Write(value: nat): (out: Bytes)
    ensures |out| >= 1
  {
    if value < 128 then [value] else [value % 128 + 128] + Write(value / 128)
  }

  method ReadLeb128(data: Bytes, offset: nat) returns (r: Option<Leb>)
    ensures r == Read(data, offset)
  {
    var value: nat, weight: nat, length: nat := 0, 1, 0;
    while offset + length < |data|
      invariant length < 5 && weight == Weight(length) && value < UINT32
      invariant ReadFrom(data, offset, length, value) == Read(data, offset)
      decreases |data| - offset - length
    {
      var b := data[offset + length];
      ShiftedIs(b % 128, length);
      value := (value + (b % 128) * weight) % UINT32;
      length := length + 1;
      if b < 128 {
        return Some(Leb(value, length));
      }
      weight := weight * 128;
      if length >= 5 {
        return None;
      }
    }
    return None;
  }

  method WriteLeb128(value: nat) returns (out: Bytes)
    ensures out == Write(value)
  {
    out := [];
    var v: nat := value;
    while v >= 0x80
      invariant out + Write(v) == Write(value)
    {
      assert out + Write(v) == (out + [v % 128 + 128]) + Write(v / 128);
      out := out + [v % 128 + 128];
      v := v / 128;
    }
    out := out + [v];
  }

  /** The decoder reads nothing but the bytes it reports. */
  lemma {:induction false} ReadFromLocal(a: Bytes, b: Bytes, offset: nat, length: nat, value: nat)
    requires length < 5 && value < UINT32
    requires var r := ReadFrom(a, offset, length, value);
      r.Some? && SameOn(a, b, offset + length, offset + r.value.length)
    ensures ReadFrom(b, offset, length, value) == ReadFrom(a, offset, length, value)
    decreases 5 - length
  {
    var x := a[offset + length];
    assert x == b[offset + length];
    if x >= 128 {
      ReadFromLocal(a, b, offset, length + 1, Accumulate(value, x, length));
    }
  }

  lemma ReadLocal(a: Bytes, b: Bytes, offset: nat)
    requires var r := Read(a, offset); r.Some? && SameOn(a, b, offset, offset + r.value.length)
    ensures Read(b, offset) == Read(a, offset)
  {
    ReadFromLocal(a, b, offset, 0, 0);
  }

  lemma SplitDigits(v: nat, w: nat)
    ensures v * w == (v % 128) * w + (v / 128) * (128 * w)
    ensures v >= 128 ==> 128 * w <= v * w
  {
    var q, d := v / 128, v % 128;
    assert v == d + 128 * q;
    assert (d + 128 * q) * w == d * w + (128 * q) * w;
    assert (128 * q) * w == q * (128 * w);
    if v >= 128 {
      assert v * w == 128 * w + (v - 128) * w && (v - 128) * w >= 0;
    }
  }

  lemma WeightFour()
    ensures Weight(4) == 0x1000_0000
  {
    assert Weight(2) == 128 * Weight(1) && Weight(1) == 128;
    assert Weight(4) == 128 * Weight(3) && Weight(3) == 128 * Weight(2);
  }

  /** `s` continues in `data` at `pos`. */
  predicate At(data: Bytes, pos: nat, s: Bytes) {
    pos + |s| <= |data| && data[pos..pos + |s|] == s
  }

  lemma AccumulateDigit(value: nat, b: Byte, digit: nat, k: nat)
    requires digit < 128 && b % 128 == digit && value + digit * Weight(k) < UINT32
    ensures digit * Weight(k) >= 0 && Accumulate(value, b, k) == value + digit * Weight(k)
  {
    ShiftedIs(digit, k);
  }

  lemma {:induction false} ReadFromWrite(data: Bytes, offset: nat, k: nat, v: nat, value: nat)
    requires k < 5 && value < UINT32 && At(data, offset + k, Write(v))
    requires value + v * Weight(k) < UINT32
    ensures ReadFrom(data, offset, k, value) == Some(Leb(value + v * Weight(k), k + |Write(v)|))
    decreases v
  {
    assert data[offset + k..offset + k + |Write(v)|][0] == Write(v)[0];
    DigitRead(data[offset + k], k, v, value);
    if v >= 128 {
      assert data[offset + k + 1..offset + k + 1 + |Write(v / 128)|] == Write(v)[1..];
      ReadFromWrite(data, offset, k + 1, v / 128, value + (v % 128) * Weight(k));
    }
  }

  lemma DigitRead(b: Byte, k: nat, v: nat, value: nat)
    requires k < 5 && b % 128 == v % 128 && value + v * Weight(k) < UINT32
    ensures Accumulate(value, b, k) == value + (v % 128) * Weight(k)
    ensures value + (v % 128) * Weight(k) + (v / 128) * Weight(k + 1) == value + v * Weight(k)
    ensures v >= 128 ==> k < 4
  {
    SplitDigits(v, Weight(k));
    assert (v / 128) * (128 * Weight(k)) >= 0;
    AccumulateDigit(value, b, v % 128, k);
    if v >= 128 {
      WeightFour();
    }
  }

  /** Decoding what the encoder wrote gives the value back, wherever it stands. */
  lemma RoundTrip(pre: Bytes, v: nat, post: Bytes)
    requires v < UINT32
    ensures Read(pre + Write(v) + post, |pre|) == Some(Leb(v, |Write(v)|))
  {
    assert v * Weight(0) == v;
    ReadFromWrite(pre + Write(v) + post, |pre|, 0, v, 0);
  }
}
