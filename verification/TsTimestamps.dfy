/** Bit-level PTS, DTS and PCR codecs and modular subtraction of ts_normalize.go (ISO/IEC 13818-1, 2.4.3). */
module TsTimestamps {
  import opened Common

  const PTS_MODULO: nat := 0x2_0000_0000
  const PCR_MODULO: nat := 0x400_0000_0000
  /** Where a PCR field really wraps: 300 ticks for each of 2^33 base values. */
  const PCR_WRAP: nat := 300 * 0x2_0000_0000

  // ---------- PTS and DTS ----------

  function DecodePts(data: Bytes): (value: nat)
    requires |data| == 5
    ensures value < PTS_MODULO
  {
    JoinPts(data[0] / 2 % 8, data[1], data[2] / 2, data[3], data[4] / 2)
  }

  /** The five groups of bits of a timestamp: 3, 8, 7, 8 and 7 of them. */
  function JoinPts(a: nat, b: nat, c: nat, d: nat, e: nat): nat {
    a * 0x4000_0000 + b * 0x40_0000 + c * 0x8000 + d * 0x80 + e
  }

  function PtsPrefix(data: Bytes): nat
    requires |data| == 5
  {
    data[0] / 16 * 16
  }

  /** The marker bits are 1; the upper four bits of the first byte are the prefix. */
  function EncodePts(value: nat, prefix: nat): (data: Bytes)
    requires prefix < 256
    ensures |data| == 5
  {
    var v := value % PTS_MODULO;
    [prefix / 16 * 16 + v / 0x4000_0000 * 2 + 1,
     v / 0x40_0000 % 256,
     v / 0x8000 % 128 * 2 + 1,
     v / 0x80 % 256,
     v % 128 * 2 + 1]
  }

  lemma PtsJoin(v: nat, w: nat, x: nat, y: nat, a: nat, b: nat, c: nat, d: nat, e: nat)
    requires v == 128 * w + e && w == 256 * x + d && x == 128 * y + c && y == 256 * a + b
    ensures v == JoinPts(a, b, c, d, e)
  {
  }

  lemma PtsShifts(v: nat)
    ensures v / 0x8000 == v / 0x80 / 256 && v / 0x40_0000 == v / 0x8000 / 128 && v / 0x4000_0000 == v / 0x40_0000 / 256
  {
  }

  lemma PtsGroups(v: nat)
    requires v < PTS_MODULO
    ensures v / 0x4000_0000 < 8
    ensures JoinPts(v / 0x4000_0000, v / 0x40_0000 % 256, v / 0x8000 % 128, v / 0x80 % 256, v % 128) == v
  {
    PtsShifts(v);
    PtsJoin(v, v / 0x80, v / 0x8000, v / 0x40_0000, v / 0x4000_0000, v / 0x40_0000 % 256, v / 0x8000 % 128,
            v / 0x80 % 256, v % 128);
  }

  /** What decoding sees of each encoded byte. */
  lemma PtsBytes(prefix: nat, a: nat, c: nat, e: nat)
    requires prefix < 256 && a < 8 && c < 128 && e < 128
    ensures (prefix / 16 * 16 + a * 2 + 1) / 2 % 8 == a && (prefix / 16 * 16 + a * 2 + 1) / 16 * 16 == prefix / 16 * 16
    ensures (c * 2 + 1) / 2 == c && (e * 2 + 1) / 2 == e
  {
  }

  /** Decoding what was encoded gives the value modulo 2^33 and the prefix. */
  lemma PtsRoundTrip(value: nat, prefix: nat)
    requires prefix < 256
    ensures DecodePts(EncodePts(value, prefix)) == value % PTS_MODULO
    ensures PtsPrefix(EncodePts(value, prefix)) == prefix / 16 * 16
  {
    var v := value % PTS_MODULO;
    PtsGroups(v);
    PtsBytes(prefix, v / 0x4000_0000, v / 0x8000 % 128, v % 128);
  }

  /** Bytes as one number, the highest first. */
  function Word(high: nat, low: nat): nat {
    high * 256 + low
  }

  lemma FifteenBits(w: nat)
    ensures w / 128 % 256 * 128 + w % 128 == w % 0x8000
  {
    var q := w / 128;
    BitGroups(w, q, w % 128, q / 256, q % 256);
  }

  lemma BitGroups(w: nat, q: nat, low: nat, k: nat, high: nat)
    requires w == q * 128 + low && low < 128 && q == k * 256 + high && high < 256
    ensures high * 128 + low == w % 0x8000
  {
    assert w == 0x8000 * k + (high * 128 + low);
    ModUnique(w, k, high * 128 + low, 0x8000);
  }

  /** As the standard draws it: 3, 15 and 15 bits of the value, each group followed by a marker bit of 1. */
  lemma PtsLayout(value: nat, prefix: nat)
    requires prefix < 256
    ensures var data, v := EncodePts(value, prefix), value % 0x2_0000_0000;
      && data[0] == prefix / 16 * 16 + v / 0x4000_0000 * 2 + 1
      && Word(data[1], data[2]) == v / 0x8000 % 0x8000 * 2 + 1 && Word(data[3], data[4]) == v % 0x8000 * 2 + 1
  {
    var v := value % PTS_MODULO;
    FifteenBits(v);
    FifteenBits(v / 0x8000);
    assert v / 0x8000 / 128 == v / 0x40_0000;
  }

  lemma PtsIsRead(data: Bytes)
    requires |data| == 5
    ensures DecodePts(data) == JoinWords(data[0] / 2 % 8, Word(data[1], data[2]) / 2, Word(data[3], data[4]) / 2)
  {
    HalfWord(data[1], data[2]);
    HalfWord(data[3], data[4]);
    WordsJoin(data[0] / 2 % 8, data[1], data[2] / 2, data[3], data[4] / 2);
  }

  function JoinWords(a: nat, b: nat, c: nat): nat {
    a * 0x4000_0000 + b * 0x8000 + c
  }

  lemma WordsJoin(a: nat, b: nat, c: nat, d: nat, e: nat)
    ensures JoinWords(a, b * 128 + c, d * 128 + e) == JoinPts(a, b, c, d, e)
  {
  }

  lemma HalfWord(high: nat, low: nat)
    ensures Word(high, low) / 2 == high * 128 + low / 2
  {
    assert Word(high, low) == 2 * (high * 128 + low / 2) + low % 2;
  }

  // ---------- PCR ----------

  function DecodePcr(data: Bytes): (value: nat)
    requires |data| == 6
    ensures value < PCR_MODULO
  {
    BaseOf(data) * 300 + ExtOf(data)
  }

  function BaseOf(data: Bytes): (base: nat)
    requires |data| == 6
    ensures base < PTS_MODULO
  {
    JoinPcrBase(data[0], data[1], data[2], data[3], data[4] / 128)
  }

  function ExtOf(data: Bytes): (ext: nat)
    requires |data| == 6
    ensures ext < 512
  {
    JoinPcrExt(data[4] % 2, data[5])
  }

  function JoinPcrBase(a: nat, b: nat, c: nat, d: nat, e: nat): nat {
    a * 0x200_0000 + b * 0x2_0000 + c * 0x200 + d * 2 + e
  }

  function JoinPcrExt(high: nat, low: nat): nat {
    high * 256 + low
  }

  /** Bytes keep the low eight bits of each shifted base; the six reserved bits are 1. */
  function EncodePcr(value: nat): (data: Bytes)
    ensures |data| == 6
  {
    var total := value % PCR_MODULO;
    PcrFields(total / 300, total % 300)
  }

  function PcrFields(base: nat, ext: nat): (data: Bytes)
    requires ext < 300
    ensures |data| == 6
  {
    [base / 0x200_0000 % 256, base / 0x2_0000 % 256, base / 0x200 % 256, base / 2 % 256,
     base % 2 * 128 + 0x7e + ext / 256, ext % 256]
  }

  lemma PcrJoin(base: nat, v: nat, w: nat, x: nat, y: nat, z: nat, a: nat, b: nat, c: nat, d: nat, e: nat)
    requires base == 2 * v + e && v == 256 * w + d && w == 256 * x + c && x == 256 * y + b && y == 256 * z + a
    requires a < 256 && b < 256 && c < 256 && d < 256 && e < 2
    ensures base == PTS_MODULO * z + JoinPcrBase(a, b, c, d, e) && JoinPcrBase(a, b, c, d, e) < PTS_MODULO
  {
  }

  lemma PcrShifts(base: nat)
    ensures base / 0x200 == base / 2 / 256 && base / 0x2_0000 == base / 0x200 / 256
    ensures base / 0x200_0000 == base / 0x2_0000 / 256
  {
  }

  lemma PcrGroups(base: nat)
    ensures JoinPcrBase(base / 0x200_0000 % 256, base / 0x2_0000 % 256, base / 0x200 % 256, base / 2 % 256, base % 2)
      == base % PTS_MODULO
  {
    var v, w, x, y := base / 2, base / 0x200, base / 0x2_0000, base / 0x200_0000;
    assert w == v / 256 && x == w / 256 && y == x / 256 by { PcrShifts(base); }
    PcrJoin(base, v, w, x, y, y / 256, y % 256, x % 256, w % 256, v % 256, base % 2);
  }

  lemma PcrSplit(total: nat)
    requires total < PCR_MODULO
    ensures total % PCR_WRAP == total / 300 % PTS_MODULO * 300 + total % 300
  {
  }

  lemma PcrBytes(base: nat, ext: nat)
    requires ext < 300
    ensures var last := base % 2 * 128 + 0x7e + ext / 256;
      last / 128 == base % 2 && JoinPcrExt(last % 2, ext % 256) == ext
  {
  }

  lemma PcrFieldsDecode(base: nat, ext: nat)
    requires ext < 300
    ensures DecodePcr(PcrFields(base, ext)) == base % PTS_MODULO * 300 + ext
  {
    BaseDecode(base, ext);
    ExtDecode(base, ext);
  }

  lemma BaseDecode(base: nat, ext: nat)
    requires ext < 300
    ensures BaseOf(PcrFields(base, ext)) == base % PTS_MODULO
  {
    PcrBytes(base, ext);
    PcrGroups(base);
    var data := PcrFields(base, ext);
    assert data[4] / 128 == base % 2;
  }

  lemma ExtDecode(base: nat, ext: nat)
    requires ext < 300
    ensures ExtOf(PcrFields(base, ext)) == ext
  {
    PcrBytes(base, ext);
  }

  /** A PCR comes back modulo what its field can hold. */
  lemma PcrRoundTrip(value: nat)
    ensures DecodePcr(EncodePcr(value)) == value % PCR_MODULO % PCR_WRAP
  {
    var total := value % PCR_MODULO;
    PcrSplit(total);
    PcrFieldsDecode(total / 300, total % 300);
  }

  /** As the standard draws it: 33 bits of base, six reserved bits of 1, and 9 bits of extension. */
  lemma PcrLayout(value: nat)
    ensures var data, total := EncodePcr(value), value % 0x400_0000_0000; var base := total / 300 % 0x2_0000_0000;
      && Word(Word(Word(data[0], data[1]), data[2]), data[3]) == base / 2
      && Word(data[4], data[5]) == base % 2 * 0x8000 + 0x3f * 0x200 + total % 300
  {
    var total := value % PCR_MODULO;
    PcrGroups(total / 300);
  }

  lemma PcrIsRead(data: Bytes)
    requires |data| == 6
    ensures DecodePcr(data)
      == (Word(Word(Word(data[0], data[1]), data[2]), data[3]) * 2 + data[4] / 128) * 300 + Word(data[4], data[5]) % 512
  {
    NineBits(data[4], data[5]);
  }

  lemma NineBits(high: nat, low: nat)
    requires low < 256
    ensures Word(high, low) % 512 == high % 2 * 256 + low
  {
    assert Word(high, low) == high / 2 * 512 + (high % 2 * 256 + low);
  }

  // ---------- Modular subtraction ----------

  function SubMod(value: nat, offset: nat, modulo: nat): nat
    requires modulo > 0
  {
    if offset == 0 then value % modulo
    else if value >= offset then (value - offset) % modulo
    else
      var rem := (offset - value) % modulo;
      if rem == 0 then 0 else (modulo - rem) % modulo
  }

  /** The three cases are one: subtraction in the integers modulo `modulo`. */
  lemma SubModIsModular(value: nat, offset: nat, modulo: nat)
    requires modulo > 0
    ensures SubMod(value, offset, modulo) == (value - offset) % modulo
  {
    if value < offset {
      var d: int := offset - value;
      var rem := d % modulo;
      assert -d % modulo == if rem == 0 then 0 else modulo - rem by { NegativeIs(d, modulo); }
      assert rem != 0 ==> (modulo - rem) % modulo == modulo - rem;
      assert value - offset == -d;
    }
  }

  lemma NegativeIs(d: int, modulo: nat)
    requires modulo > 0
    ensures -d % modulo == if d % modulo == 0 then 0 else modulo - d % modulo
  {
    NegativeMod(d, d / modulo, d % modulo, modulo);
  }

  lemma NegativeMod(d: int, q: int, rem: int, modulo: nat)
    requires modulo > 0 && d == modulo * q + rem && 0 <= rem < modulo
    ensures -d % modulo == if rem == 0 then 0 else modulo - rem
  {
    if rem == 0 {
      assert -d == modulo * -q;
      ModUnique(-d, -q, 0, modulo);
    } else {
      assert modulo * (-q - 1) == -(modulo * q) - modulo;
      ModUnique(-d, -q - 1, modulo - rem, modulo);
    }
  }

  lemma ModUnique(x: int, q: int, r: int, m: int)
    requires m > 0 && 0 <= r < m && x == m * q + r
    ensures x % m == r
  {
    var q', r' := x / m, x % m;
    assert x == m * q' + r';
    var k := q - q';
    assert m * k == m * q - m * q';
    AtLeast(m, k);
    AtLeast(m, -k);
    assert m * (-k) == -(m * k);
  }

  lemma AtLeast(m: int, k: int)
    requires m > 0
    ensures k >= 1 ==> m * k >= m
  {
  }

  // ---------- Shifting a field ----------

  function ShiftPts(field: Bytes, offset: nat): (r: Bytes)
    requires |field| == 5
    ensures |r| == 5
  {
    EncodePts(SubMod(DecodePts(field), offset, PTS_MODULO), PtsPrefix(field))
  }

  function ShiftPcr(field: Bytes, offset: nat): (r: Bytes)
    requires |field| == 6
    ensures |r| == 6
  {
    EncodePcr(SubMod(DecodePcr(field), offset, PCR_MODULO))
  }

  lemma EncodedDifference(value: nat, prefix: nat, offset: nat)
    requires prefix < 256
    ensures DecodePts(EncodePts(SubMod(value, offset, PTS_MODULO), prefix)) == (value - offset) % PTS_MODULO
  {
    var v := SubMod(value, offset, PTS_MODULO);
    SubModIsModular(value, offset, PTS_MODULO);
    PtsRoundTrip(v, prefix);
    Reduced(value - offset, v, PTS_MODULO);
  }

  lemma Reduced(x: int, v: nat, m: nat)
    requires m > 0 && v == x % m
    ensures v % m == v
  {
  }

  /** A rewritten timestamp is the old one minus the offset, modulo 2^33. */
  lemma ShiftPtsMeaning(field: Bytes, offset: nat)
    requires |field| == 5
    ensures DecodePts(ShiftPts(field, offset)) == (DecodePts(field) - offset) % PTS_MODULO
  {
    EncodedDifference(DecodePts(field), PtsPrefix(field), offset);
  }

  /** The four prefix bits stay. */
  lemma ShiftPtsPrefix(field: Bytes, offset: nat)
    requires |field| == 5
    ensures PtsPrefix(ShiftPts(field, offset)) == PtsPrefix(field)
  {
    var prefix := PtsPrefix(field);
    PtsRoundTrip(SubMod(DecodePts(field), offset, PTS_MODULO), prefix);
    Aligned(field[0]);
  }

  lemma Aligned(b: nat)
    ensures b / 16 * 16 / 16 * 16 == b / 16 * 16
  {
  }

  lemma EncodedPcrDifference(value: nat, offset: nat)
    ensures DecodePcr(EncodePcr(SubMod(value, offset, PCR_MODULO))) == (value - offset) % PCR_MODULO % PCR_WRAP
  {
    var v := SubMod(value, offset, PCR_MODULO);
    SubModIsModular(value, offset, PCR_MODULO);
    PcrRoundTrip(v);
    Reduced(value - offset, v, PCR_MODULO);
  }

  lemma ShiftPcrMeaning(field: Bytes, offset: nat)
    requires |field| == 6
    ensures DecodePcr(ShiftPcr(field, offset)) == (DecodePcr(field) - offset) % PCR_MODULO % PCR_WRAP
  {
    EncodedPcrDifference(DecodePcr(field), offset);
  }

  /** Shifting both ends of an interval leaves its length modulo 2^33. */
  lemma ShiftedDifference(first: nat, last: nat, offset: nat)
    ensures ((last - offset) % PTS_MODULO - (first - offset) % PTS_MODULO) % PTS_MODULO == (last - first) % PTS_MODULO
  {
  }
}
