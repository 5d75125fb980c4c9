/** What normalization keeps and reaches: durations, and a second run that finds nothing to do. */
module TsInvariance {
  import opened Common
  import opened TsTimestamps
  import opened TsPackets
  import opened TsNormalize

  // ---------- The duration of a segment ----------

  function FirstFrom(data: Bytes, i: nat): Option<nat>
    decreases |data| - i
  {
    if i + PACKET_SIZE > |data| then None
    else
      var pts := ExtractPts(data[i..i + PACKET_SIZE]);
      if pts.Some? then pts else FirstFrom(data, i + PACKET_SIZE)
  }

  function LastFrom(data: Bytes, i: int): Option<nat>
    requires i + PACKET_SIZE <= |data|
  {
    if i < 0 then None
    else
      var pts := ExtractPts(data[i..i + PACKET_SIZE]);
      if pts.Some? then pts else LastFrom(data, i - PACKET_SIZE)
  }

  /** In 90 kHz ticks, from the first PTS to the last; `None` when a scan meets none. */
  function Between(first: Option<nat>, last: Option<nat>): Option<int> {
    if first.None? || last.None? then None
    else if last.value >= first.value then Some(last.value - first.value)
    else Some(PTS_MODULO - first.value + last.value)
  }

  function Duration(data: Bytes): Option<int> {
    Between(FirstFrom(data, 0), LastFrom(data, |data| - PACKET_SIZE))
  }

  method CalculateSegmentDuration(data: Bytes) returns (r: Option<int>)
    ensures r == Duration(data)
  {
    var first: Option<nat>, last: Option<nat> := None, None;
    var i := 0;
    while i + PACKET_SIZE <= |data| && first.None?
      invariant 0 <= i
      invariant FirstFrom(data, 0) == if first.Some? then first else FirstFrom(data, i)
    {
      first := ExtractPts(data[i..i + PACKET_SIZE]);
      i := i + PACKET_SIZE;
    }
    var j := |data| - PACKET_SIZE;
    while j >= 0 && last.None?
      invariant j + PACKET_SIZE <= |data|
      invariant LastFrom(data, |data| - PACKET_SIZE) == if last.Some? then last else LastFrom(data, j)
    {
      last := ExtractPts(data[j..j + PACKET_SIZE]);
      j := j - PACKET_SIZE;
    }
    if first.None? || last.None? {
      return None;
    }
    if last.value >= first.value {
      return Some(last.value - first.value);
    }
    return Some(PTS_MODULO - first.value + last.value);
  }

  lemma {:induction false} FirstBelow(data: Bytes, i: nat)
    ensures FirstFrom(data, i).Some? ==> FirstFrom(data, i).value < PTS_MODULO
    decreases |data| - i
  {
    if i + PACKET_SIZE <= |data| {
      FirstBelow(data, i + PACKET_SIZE);
      ExtractBelow(data[i..i + PACKET_SIZE]);
    }
  }

  lemma {:induction false} LastBelow(data: Bytes, i: int)
    requires i + PACKET_SIZE <= |data|
    ensures LastFrom(data, i).Some? ==> LastFrom(data, i).value < PTS_MODULO
  {
    if i >= 0 {
      LastBelow(data, i - PACKET_SIZE);
      ExtractBelow(data[i..i + PACKET_SIZE]);
    }
  }

  lemma ExtractBelow(p: Bytes)
    ensures ExtractPts(p).Some? ==> ExtractPts(p).value < PTS_MODULO
  {
  }

  predicate Below(t: Option<nat>) {
    t.Some? ==> t.value < PTS_MODULO
  }

  /** Both branches are one, the length of the interval modulo 2^33, and shifting both ends keeps it. */
  lemma BetweenShifted(first: Option<nat>, last: Option<nat>, offset: nat)
    requires Below(first) && Below(last)
    ensures first.Some? && last.Some? ==> Between(first, last) == Some((last.value - first.value) % PTS_MODULO)
    ensures Between(Shifted(first, offset), Shifted(last, offset)) == Between(first, last)
  {
    if first.Some? && last.Some? {
      BetweenIsModular(first.value, last.value);
      ShiftedDifference(first.value, last.value, offset);
      BetweenIsModular((first.value - offset) % PTS_MODULO, (last.value - offset) % PTS_MODULO);
    }
  }

  lemma BetweenIsModular(first: nat, last: nat)
    requires first < PTS_MODULO && last < PTS_MODULO
    ensures Between(Some(first), Some(last)) == Some((last - first) % PTS_MODULO)
  {
  }

  lemma {:induction false} FirstIsAt(data: Bytes, k: nat, i: nat)
    requires k <= i < Count(data) && ExtractPts(PacketAt(data, i)).Some?
    requires forall j :: k <= j < i ==> ExtractPts(PacketAt(data, j)).None?
    ensures FirstFrom(data, k * PACKET_SIZE) == ExtractPts(PacketAt(data, i))
    decreases i - k
  {
    assert PacketAt(data, k) == data[k * PACKET_SIZE..k * PACKET_SIZE + PACKET_SIZE];
    if k < i {
      FirstIsAt(data, k + 1, i);
    }
  }

  lemma {:induction false} LastIsAt(data: Bytes, k: nat, i: nat)
    requires i <= k < Count(data) && ExtractPts(PacketAt(data, i)).Some?
    requires forall j :: i < j <= k ==> ExtractPts(PacketAt(data, j)).None?
    ensures LastFrom(data, k * PACKET_SIZE) == ExtractPts(PacketAt(data, i))
    decreases k - i
  {
    assert PacketAt(data, k) == data[k * PACKET_SIZE..k * PACKET_SIZE + PACKET_SIZE];
    if i < k {
      LastIsAt(data, k - 1, i);
    }
  }

  /** For whole packets, the duration is the time from the first PTS to the last, modulo 2^33 ticks. */
  lemma DurationIs(data: Bytes, count: nat, first: nat, last: nat, a: nat, b: nat)
    requires |data| == count * 188 && first <= last < count
    requires ExtractPts(PacketAt(data, first)) == Some(a) && ExtractPts(PacketAt(data, last)) == Some(b)
    requires forall j :: 0 <= j < first || last < j < count ==> ExtractPts(PacketAt(data, j)).None?
    ensures Duration(data) == Some((b - a) % 0x2_0000_0000)
  {
    assert Count(data) == count;
    FirstIsAt(data, 0, first);
    LastIsAt(data, count - 1, last);
    assert (count - 1) * PACKET_SIZE == |data| - PACKET_SIZE;
    ExtractBelow(PacketAt(data, first));
    ExtractBelow(PacketAt(data, last));
    BetweenIsModular(a, b);
  }

  lemma ExtractShifted(data: Bytes, o: Offsets, k: nat)
    requires k < Count(data) && Synced(data) && Fits(data)
    ensures ExtractPts(PacketAt(RewriteAll(data, o), k)) == Shifted(ExtractPts(PacketAt(data, k)), o.pts)
  {
    var p := PacketAt(data, k);
    PacketOfRewritten(data, o, k);
    assert p[0] == SYNC && PcrFits(p);
    RewriteStays(p, o.pts, o.pcr);
    ReadersAgree(p);
    ReadersAgree(Rewrite(p, o.pts, o.pcr));
    PtsShifted(p, o.pts, o.pcr);
  }

  /** What the second reader sees of each packet of `r` is what it saw in `data`, shifted. */
  predicate AllShifted(data: Bytes, r: Bytes, offset: nat) {
    |r| == |data|
    && forall k :: 0 <= k < Count(data) ==> ExtractPts(PacketAt(r, k)) == Shifted(ExtractPts(PacketAt(data, k)), offset)
  }

  lemma {:induction false} FirstShifted(data: Bytes, r: Bytes, offset: nat, k: nat)
    requires AllShifted(data, r, offset) && k <= Count(data)
    ensures FirstFrom(r, k * PACKET_SIZE) == Shifted(FirstFrom(data, k * PACKET_SIZE), offset)
    decreases Count(data) - k
  {
    if k < Count(data) {
      assert ExtractPts(PacketAt(r, k)) == Shifted(ExtractPts(PacketAt(data, k)), offset);
      FirstShifted(data, r, offset, k + 1);
      assert (k + 1) * PACKET_SIZE == k * PACKET_SIZE + PACKET_SIZE;
    }
  }

  lemma LastStep(data: Bytes, r: Bytes, i: nat, offset: nat)
    requires |r| == |data| && i + PACKET_SIZE <= |data|
    requires ExtractPts(r[i..i + PACKET_SIZE]) == Shifted(ExtractPts(data[i..i + PACKET_SIZE]), offset)
    requires LastFrom(r, i - PACKET_SIZE) == Shifted(LastFrom(data, i - PACKET_SIZE), offset)
    ensures LastFrom(r, i) == Shifted(LastFrom(data, i), offset)
  {
  }

  lemma {:induction false} LastShifted(data: Bytes, r: Bytes, offset: nat, k: nat, i: int)
    requires AllShifted(data, r, offset) && k <= Count(data) && i == k * PACKET_SIZE - PACKET_SIZE
    ensures LastFrom(r, i) == Shifted(LastFrom(data, i), offset)
  {
    if k > 0 {
      assert ExtractPts(PacketAt(r, k - 1)) == Shifted(ExtractPts(PacketAt(data, k - 1)), offset);
      LastShifted(data, r, offset, k - 1, i - PACKET_SIZE);
      LastStep(data, r, i, offset);
    }
  }

  lemma DurationOfShifted(data: Bytes, r: Bytes, offset: nat)
    requires |r| == |data| && FirstFrom(r, 0) == Shifted(FirstFrom(data, 0), offset)
    requires LastFrom(r, |r| - PACKET_SIZE) == Shifted(LastFrom(data, |data| - PACKET_SIZE), offset)
    ensures Duration(r) == Duration(data)
  {
    FirstBelow(data, 0);
    LastBelow(data, |data| - PACKET_SIZE);
    BetweenShifted(FirstFrom(data, 0), LastFrom(data, |data| - PACKET_SIZE), offset);
  }

  lemma WholePackets(data: Bytes)
    requires |data| % PACKET_SIZE == 0
    ensures Count(data) * PACKET_SIZE == |data|
  {
  }

  lemma RewrittenIsShifted(data: Bytes, o: Offsets)
    requires Synced(data) && Fits(data)
    ensures AllShifted(data, RewriteAll(data, o), o.pts)
  {
    forall k | 0 <= k < Count(data)
      ensures ExtractPts(PacketAt(RewriteAll(data, o), k)) == Shifted(ExtractPts(PacketAt(data, k)), o.pts)
    {
      ExtractShifted(data, o, k);
    }
  }

  lemma ShiftedLastsAsLong(data: Bytes, r: Bytes, offset: nat)
    requires AllShifted(data, r, offset) && |data| % PACKET_SIZE == 0
    ensures Duration(r) == Duration(data)
  {
    FirstShifted(data, r, offset, 0);
    WholePackets(data);
    LastShifted(data, r, offset, Count(data), |data| - PACKET_SIZE);
    DurationOfShifted(data, r, offset);
  }

  /** Normalizing a segment of whole packets does not change how long it lasts, even when a timestamp wraps. */
  lemma DurationUnchanged(data: Bytes, o: Offsets)
    requires Fits(data) && |data| % PACKET_SIZE == 0 && NormalizeFile(data, o).Ok?
    ensures Duration(NormalizeFile(data, o).value) == Duration(data)
  {
    if o.pts != 0 || o.pcr != 0 {
      RewrittenIsShifted(data, o);
      ShiftedLastsAsLong(data, RewriteAll(data, o), o.pts);
    }
  }

  // ---------- Files that do not end on the packet grid ----------

  lemma BetweenIff(first: Option<nat>, last: Option<nat>, last': Option<nat>, offset: nat)
    requires Below(first) && Below(last) && Below(last')
    ensures Between(Shifted(first, offset), last') == Between(first, last)
      <==> first.None? || last' == Shifted(last, offset)
  {
    if first.Some? && last.Some? && last'.Some? {
      var f := (first.value - offset) % PTS_MODULO;
      ShiftedDifference(first.value, last.value, offset);
      BetweenIsModular(first.value, last.value);
      BetweenIsModular(f, last'.value);
      SameResidue(last'.value, (last.value - offset) % PTS_MODULO, f);
    }
  }

  lemma SameResidue(a: nat, b: nat, c: nat)
    requires a < PTS_MODULO && b < PTS_MODULO
    ensures (a - c) % PTS_MODULO == (b - c) % PTS_MODULO <==> a == b
  {
  }

  lemma ShiftedByZero(t: Option<nat>)
    requires Below(t)
    ensures Shifted(t, 0) == t
  {
  }

  /**
   * For any file: the forward scan sees the packets, shifted, so that whether the duration stays is decided by the
   * backward scan, which starts 188 bytes before the end: it must find what it found before, shifted.
   */
  lemma DurationUnchangedIff(data: Bytes, o: Offsets)
    requires Fits(data) && NormalizeFile(data, o).Ok?
    ensures var r := NormalizeFile(data, o).value;
      Duration(r) == Duration(data) <==>
      FirstFrom(data, 0).None? || LastFrom(r, |r| - PACKET_SIZE) == Shifted(LastFrom(data, |data| - PACKET_SIZE), o.pts)
  {
    var r := NormalizeFile(data, o).value;
    assert FirstFrom(r, 0) == Shifted(FirstFrom(data, 0), o.pts) by {
      if o.pts == 0 && o.pcr == 0 {
        FirstBelow(data, 0);
        ShiftedByZero(FirstFrom(data, 0));
      } else {
        RewrittenIsShifted(data, o);
        FirstShifted(data, r, o.pts, 0);
      }
    }
    DurationIff(data, r, o.pts);
  }

  lemma DurationIff(data: Bytes, r: Bytes, offset: nat)
    requires |r| == |data| && FirstFrom(r, 0) == Shifted(FirstFrom(data, 0), offset)
    ensures Duration(r) == Duration(data) <==>
      FirstFrom(data, 0).None? || LastFrom(r, |r| - PACKET_SIZE) == Shifted(LastFrom(data, |data| - PACKET_SIZE), offset)
  {
    FirstBelow(data, 0);
    LastBelow(data, |data| - PACKET_SIZE);
    LastBelow(r, |r| - PACKET_SIZE);
    BetweenIff(FirstFrom(data, 0), LastFrom(data, |data| - PACKET_SIZE), LastFrom(r, |r| - PACKET_SIZE), offset);
  }

  /** The bytes the reader looks at: the header and as far as a PTS behind the payload's start would go. */
  predicate Reads(p: Packet, j: nat) {
    j == 0 || (p[0] == SYNC && (j < 5 || (PayloadAt(p).Some? && PayloadAt(p).value <= j < PayloadAt(p).value + 14)))
  }

  lemma SameRead(p: Packet, q: Packet)
    requires forall j :: 0 <= j < PACKET_SIZE && Reads(p, j) ==> q[j] == p[j]
    ensures ExtractPts(q) == ExtractPts(p)
  {
    if p[0] == SYNC && PayloadAt(p).Some? {
      var at := PayloadAt(p).value;
      if at + 14 <= PACKET_SIZE {
        assert q[at + 9..at + 14] == p[at + 9..at + 14];
      }
    }
  }

  /** The byte belongs to a timestamp of the packet it lies in. */
  predicate InTimestamp(data: Bytes, i: nat) {
    i / PACKET_SIZE < Count(data) && InField(PacketAt(data, i / PACKET_SIZE), i % PACKET_SIZE)
  }

  lemma OutsideStays(data: Bytes, o: Offsets, i: nat)
    requires Fits(data) && i < |data| && !InTimestamp(data, i)
    ensures RewriteAll(data, o)[i] == data[i]
  {
    if i / PACKET_SIZE < Count(data) {
      RewriteStays(PacketAt(data, i / PACKET_SIZE), o.pts, o.pcr);
    }
  }

  /** Nothing the reader looks at in the 188 bytes at `i` belongs to a timestamp. */
  predicate Aside(data: Bytes, i: nat)
    requires i + PACKET_SIZE <= |data|
  {
    var p: Packet := data[i..i + PACKET_SIZE];
    forall j :: 0 <= j < PACKET_SIZE && Reads(p, j) ==> !InTimestamp(data, i + j)
  }

  /** So it is wherever the backward scan from `i` looks. */
  predicate LooksAside(data: Bytes, i: int)
    requires i + PACKET_SIZE <= |data|
  {
    i < 0 || (Aside(data, i) && (ExtractPts(data[i..i + PACKET_SIZE]).Some? || LooksAside(data, i - PACKET_SIZE)))
  }

  lemma AsideStays(data: Bytes, o: Offsets, r: Bytes, i: nat)
    requires Fits(data) && r == RewriteAll(data, o) && i + PACKET_SIZE <= |data| && Aside(data, i)
    ensures ExtractPts(r[i..i + PACKET_SIZE]) == ExtractPts(data[i..i + PACKET_SIZE])
  {
    var p: Packet, q: Packet := data[i..i + PACKET_SIZE], r[i..i + PACKET_SIZE];
    forall j | 0 <= j < PACKET_SIZE && Reads(p, j)
      ensures q[j] == p[j]
    {
      OutsideStays(data, o, i + j);
    }
    SameRead(p, q);
  }

  lemma {:induction false} LastStays(data: Bytes, o: Offsets, r: Bytes, i: int)
    requires Fits(data) && r == RewriteAll(data, o) && i + PACKET_SIZE <= |data| && LooksAside(data, i)
    ensures LastFrom(r, i) == LastFrom(data, i)
  {
    if i >= 0 {
      AsideStays(data, o, r, i);
      if ExtractPts(data[i..i + PACKET_SIZE]).None? {
        LastStays(data, o, r, i - PACKET_SIZE);
      }
    }
  }

  lemma LastOfNormalized(data: Bytes, o: Offsets, r: Bytes, i: int)
    requires Fits(data) && NormalizeFile(data, o) == Ok(r) && i + PACKET_SIZE <= |data| && LooksAside(data, i)
    ensures |r| == |data| && LastFrom(r, i) == LastFrom(data, i)
  {
    if o.pts != 0 || o.pcr != 0 {
      LastStays(data, o, r, i);
    }
  }

  lemma ShiftedStaysIff(t: Option<nat>, offset: nat)
    requires Below(t)
    ensures t == Shifted(t, offset) <==> t.None? || offset % PTS_MODULO == 0
  {
  }

  lemma SameLastIff(first: Option<nat>, last: Option<nat>, last': Option<nat>, offset: nat)
    requires Below(last) && last' == last
    ensures first.None? || last' == Shifted(last, offset) <==> first.None? || last.None? || offset % PTS_MODULO == 0
  {
    ShiftedStaysIff(last, offset);
  }

  lemma DurationBySameLast(data: Bytes, o: Offsets, r: Bytes)
    requires Fits(data) && NormalizeFile(data, o) == Ok(r) && |r| == |data|
    requires LastFrom(r, |r| - PACKET_SIZE) == LastFrom(data, |data| - PACKET_SIZE)
    ensures Duration(r) == Duration(data) <==>
      FirstFrom(data, 0).None? || LastFrom(data, |data| - PACKET_SIZE).None? || o.pts % PTS_MODULO == 0
  {
    DurationUnchangedIff(data, o);
    LastBelow(data, |data| - PACKET_SIZE);
    SameLastIff(FirstFrom(data, 0), LastFrom(data, |data| - PACKET_SIZE), LastFrom(r, |r| - PACKET_SIZE), o.pts);
  }

  /**
   * When the backward scan, off the grid, looks at no timestamp: the duration stays if and only if one of the scans finds
   * no PTS, or the timestamps are shifted by nothing.
   */
  lemma OffGridDurationIff(data: Bytes, o: Offsets)
    requires Fits(data) && NormalizeFile(data, o).Ok? && LooksAside(data, |data| - PACKET_SIZE)
    ensures Duration(NormalizeFile(data, o).value) == Duration(data) <==>
      FirstFrom(data, 0).None? || LastFrom(data, |data| - PACKET_SIZE).None? || o.pts % PTS_MODULO == 0
  {
    var r := NormalizeFile(data, o).value;
    LastOfNormalized(data, o, r, |data| - PACKET_SIZE);
    DurationBySameLast(data, o, r);
  }

  /** A packet with an adaptation field of 16 bytes and a PTS of zero. */
  predicate Adapted(p: Packet) {
    p[0] == SYNC && p[1] == SYNC && p[3] == 0x30 && p[4] == 16 && p[5] == 0
    && p[21] == 0 && p[22] == 0 && p[23] == 1 && p[28] == 0x80 && ZeroFrom(p, 30)
  }

  /** A packet without one, and a PTS of zero. */
  predicate Plain(p: Packet) {
    p[0] == SYNC && p[1] == 0x40 && p[3] == 16 && p[4] == 0 && p[5] == 0 && p[6] == 1 && p[11] == 0x80 && ZeroFrom(p, 13)
  }

  predicate ZeroFrom(p: Packet, at: nat)
    requires at + 5 <= PACKET_SIZE
  {
    p[at] == 0 && p[at + 1] == 0 && p[at + 2] == 0 && p[at + 3] == 0 && p[at + 4] == 0
  }

  lemma ZeroPts(p: Packet, at: nat)
    requires at + 5 <= PACKET_SIZE && ZeroFrom(p, at)
    ensures DecodePts(p[at..at + 5]) == 0
  {
    var field := p[at..at + 5];
    assert field[0] == 0 && field[1] == 0 && field[2] == 0 && field[3] == 0 && field[4] == 0;
  }

  lemma AdaptedPts(p: Packet)
    requires Adapted(p)
    ensures PtsAt(p) == Some(30) && DtsAt(p) == None && !HasPcr(p) && ExtractPts(p) == Some(0)
  {
    assert PesAt(p) == Some(21);
    ZeroPts(p, 30);
    ReadersAgree(p);
  }

  lemma PlainPts(p: Packet)
    requires Plain(p)
    ensures ExtractPts(p) == Some(0)
  {
    assert PesAt(p) == Some(4);
    ZeroPts(p, 13);
    ReadersAgree(p);
  }

  lemma FirstIs(data: Bytes, t: nat)
    requires |data| >= PACKET_SIZE && ExtractPts(data[0..0 + PACKET_SIZE]) == Some(t)
    ensures FirstFrom(data, 0) == Some(t)
  {
  }

  lemma LastIs(data: Bytes, i: nat, t: nat)
    requires i + PACKET_SIZE <= |data| && ExtractPts(data[i..i + PACKET_SIZE]) == Some(t)
    ensures LastFrom(data, i) == Some(t)
  {
  }

  /** One packet and one more byte; the last 188 bytes, off the grid, read as another packet. */
  predicate IsOffGrid(data: Bytes) {
    |data| == PACKET_SIZE + 1 && Adapted(data[0..0 + PACKET_SIZE]) && Plain(data[1..1 + PACKET_SIZE])
  }

  lemma OnePacket(data: Bytes)
    requires |data| == PACKET_SIZE + 1
    ensures Count(data) == 1 && PacketAt(data, 0) == data[0..0 + PACKET_SIZE]
  {
  }

  lemma OffGridPacket(data: Bytes, p: Packet)
    requires IsOffGrid(data) && p == data[0..0 + PACKET_SIZE]
    ensures Count(data) == 1 && PacketAt(data, 0) == p && Fits(data) && Synced(data)
    ensures PtsAt(p) == Some(30) && DtsAt(p) == None && !HasPcr(p)
  {
    OnePacket(data);
    AdaptedPts(p);
  }

  lemma OffGridReads(data: Bytes)
    requires IsOffGrid(data)
    ensures FirstFrom(data, 0) == Some(0) && LastFrom(data, |data| - PACKET_SIZE) == Some(0)
  {
    assert FirstFrom(data, 0) == Some(0) by {
      AdaptedPts(data[0..0 + PACKET_SIZE]);
      FirstIs(data, 0);
    }
    assert LastFrom(data, 1) == Some(0) by {
      PlainPts(data[1..1 + PACKET_SIZE]);
      LastIs(data, 1, 0);
    }
  }

  /** The packet at its end reads nothing of the other's PTS. */
  lemma OffGridLooksAside(data: Bytes, p: Packet, q: Packet)
    requires IsOffGrid(data) && p == data[0..0 + PACKET_SIZE] && q == data[1..1 + PACKET_SIZE]
    ensures LooksAside(data, |data| - PACKET_SIZE)
  {
    OffGridPacket(data, p);
    PlainPts(q);
    forall j | 0 <= j < PACKET_SIZE && Reads(q, j)
      ensures !InTimestamp(data, 1 + j)
    {
      assert j < 18 && (1 + j) / PACKET_SIZE == 0 && (1 + j) % PACKET_SIZE == 1 + j;
    }
    assert Aside(data, 1);
  }

  /** Such a file. */
  lemma OffGridExists() returns (data: Bytes)
    ensures IsOffGrid(data)
  {
    data := seq(PACKET_SIZE + 1, i =>
      if i == 0 || i == 1 then SYNC else if i == 2 then 0x40 else if i == 3 then 0x30 else if i == 4 then 16
      else if i == 7 || i == 23 then 1 else if i == 12 || i == 28 then 0x80 else 0);
    var p, q: Packet := data[0..0 + PACKET_SIZE], data[1..1 + PACKET_SIZE];
    assert forall i :: 0 <= i < PACKET_SIZE ==> p[i] == data[i];
    assert Adapted(p);
    assert q[0] == data[1] && q[1] == data[2] && q[3] == data[4] && q[4] == data[5] && q[5] == data[6] && q[6] == data[7];
    assert q[11] == data[12] && ZeroFrom(q, 13) by {
      assert q[11] == data[12] && q[13] == data[14] && q[14] == data[15] && q[15] == data[16] && q[16] == data[17];
      assert q[17] == data[18];
    }
    assert Plain(q);
  }

  /** For such a file, normalizing changes the duration: the PTS at its end stays. */
  lemma OffGridChangesDuration(data: Bytes, o: Offsets)
    requires IsOffGrid(data) && o.pts == 1
    ensures Fits(data) && NormalizeFile(data, o).Ok? && Duration(NormalizeFile(data, o).value) != Duration(data)
  {
    OffGridPacket(data, data[0..0 + PACKET_SIZE]);
    OffGridReads(data);
    OffGridLooksAside(data, data[0..0 + PACKET_SIZE], data[1..1 + PACKET_SIZE]);
    OffGridDurationIff(data, o);
  }

  /** Packet by packet: nothing but timestamp fields changes, and every PTS and DTS is shifted by the same offset. */
  lemma NormalizedPacket(data: Bytes, o: Offsets, k: nat)
    requires Fits(data) && Synced(data) && k < Count(data)
    ensures var p, q := PacketAt(data, k), PacketAt(RewriteAll(data, o), k);
      SameButFields(p, q) && Pts(q) == Shifted(Pts(p), o.pts) && Dts(q) == Shifted(Dts(p), o.pts)
  {
    var p := PacketAt(data, k);
    var q := PacketAt(RewriteAll(data, o), k);
    PacketOfRewritten(data, o, k);
    assert SameButFields(p, q) by { RewriteStays(p, o.pts, o.pcr); }
    assert Pts(q) == Shifted(Pts(p), o.pts) by { PtsShifted(p, o.pts, o.pcr); }
    assert Dts(q) == Shifted(Dts(p), o.pts) by { DtsShifted(p, o.pts, o.pcr); }
  }

  // ---------- Analysing what was normalized ----------

  function ShiftedPcr(t: Option<nat>, offset: nat): Option<nat> {
    if t.None? then None else Some((t.value - offset) % PCR_MODULO % PCR_WRAP)
  }

  lemma TimestampShifted(p: Packet, o: Offsets)
    requires PcrFits(p)
    ensures Timestamp(Rewrite(p, o.pts, o.pcr)) == Shifted(Timestamp(p), o.pts)
  {
    var q := Rewrite(p, o.pts, o.pcr);
    assert Pts(q) == Shifted(Pts(p), o.pts) by { PtsShifted(p, o.pts, o.pcr); }
    assert Dts(q) == Shifted(Dts(p), o.pts) by { DtsShifted(p, o.pts, o.pcr); }
    KeepShifted(q, p, o.pts);
  }

  lemma KeepShifted(q: Packet, p: Packet, offset: nat)
    requires Pts(q) == Shifted(Pts(p), offset) && Dts(q) == Shifted(Dts(p), offset)
    ensures Timestamp(q) == Shifted(Timestamp(p), offset)
  {
  }

  lemma ClockShifted(p: Packet, o: Offsets)
    requires PcrFits(p)
    ensures Pcr(Rewrite(p, o.pts, o.pcr)) == ShiftedPcr(Pcr(p), o.pcr)
  {
    if HasPcr(p) {
      PcrRewritten(p, o.pts, o.pcr);
    } else {
      assert !HasPcr(Rewrite(p, o.pts, o.pcr)) by { RewriteStays(p, o.pts, o.pcr); }
    }
  }

  /** Ending the scan: what was found, shifted by itself. */
  lemma FoundShifted(pts: nat, pcr: Option<nat>, o: Offsets)
    requires o == Offsets(pts % PTS_MODULO, (if pcr.Some? then pcr.value else pts * 300) % PCR_MODULO)
    ensures Shifted(Some(pts), o.pts) == Some(0) && (pcr.Some? ==> ShiftedPcr(pcr, o.pcr) == Some(0))
  {
    SelfDifference(pts, PTS_MODULO);
    if pcr.Some? {
      SelfDifference(pcr.value, PCR_MODULO);
    }
  }

  lemma FoundNext(p: Packet, q: Packet, o: Offsets, pts: Option<nat>, pcr: Option<nat>)
    requires Timestamp(q) == Shifted(Timestamp(p), o.pts) && Pcr(q) == ShiftedPcr(Pcr(p), o.pcr)
    ensures Keep(Shifted(pts, o.pts), Timestamp(q)) == Shifted(Keep(pts, Timestamp(p)), o.pts)
    ensures Keep(ShiftedPcr(pcr, o.pcr), Pcr(q)) == ShiftedPcr(Keep(pcr, Pcr(p)), o.pcr)
  {
  }

  /** The offsets found in a file shifted by exactly those offsets are zero. */
  lemma {:induction false} AnalysisFindsZero(data: Bytes, r: Bytes, o: Offsets, k: nat, pts: Option<nat>, pcr: Option<nat>)
    requires r == RewriteAll(data, o) && k <= Count(data) && Fits(data) && AnalyzeFrom(data, k, pts, pcr) == Ok(o)
    ensures AnalyzeFrom(r, k, Shifted(pts, o.pts), ShiftedPcr(pcr, o.pcr)) == Ok(Offsets(0, 0))
    decreases Count(data) - k
  {
    if k == Count(data) || (pts.Some? && pcr.Some?) {
      FoundShifted(pts.value, pcr, o);
    } else {
      var p, q := PacketAt(data, k), PacketAt(r, k);
      assert q[0] == p[0] && Timestamp(q) == Shifted(Timestamp(p), o.pts) && Pcr(q) == ShiftedPcr(Pcr(p), o.pcr) by {
        PacketOfRewritten(data, o, k);
        TimestampShifted(p, o);
        ClockShifted(p, o);
        RewriteStays(p, o.pts, o.pcr);
      }
      FoundNext(p, q, o, pts, pcr);
      AnalysisFindsZero(data, r, o, k + 1, Keep(pts, Timestamp(p)), Keep(pcr, Pcr(p)));
    }
  }

  lemma SelfDifference(v: nat, m: nat)
    requires m > 0
    ensures (v - v % m) % m == 0
  {
    ModUnique(v - v % m, v / m, 0, m);
  }

  lemma NormalizedStartsAtZero(data: Bytes)
    requires Fits(data) && Analyze(data).Ok? && NormalizeFile(data, Analyze(data).value).Ok?
    ensures Analyze(NormalizeFile(data, Analyze(data).value).value) == Ok(Offsets(0, 0))
  {
    var o := Analyze(data).value;
    if o.pts != 0 || o.pcr != 0 {
      AnalysisFindsZero(data, RewriteAll(data, o), o, 0, None, None);
    }
  }

  // ---------- A whole directory ----------

  datatype Outcome = Outcome(files: seq<Bytes>, ok: bool)

  /** The first file named output.ts, or the first file. */
  function Reference(isOutput: seq<bool>): (r: nat)
    ensures isOutput != [] ==> r < |isOutput|
  {
    if true in isOutput then FirstTrue(isOutput) else 0
  }

  function FirstTrue(s: seq<bool>): (r: nat)
    requires true in s
    ensures r < |s| && s[r] && true !in s[..r]
  {
    if s[0] then 0
    else
      var r := FirstTrue(s[1..]);
      assert s[..r + 1] == [s[0]] + s[1..][..r];
      r + 1
  }

  /** File after file; a failure leaves the earlier ones rewritten and the later ones untouched. */
  function NormalizeEach(files: seq<Bytes>, o: Offsets): (r: Outcome)
    ensures |r.files| == |files|
  {
    if files == [] then Outcome([], true)
    else
      match NormalizeFile(files[0], o)
      case Err => Outcome(files, false)
      case Ok(file) =>
        var rest := NormalizeEach(files[1..], o);
        Outcome([file] + rest.files, rest.ok)
  }

  function Normalize(files: seq<Bytes>, isOutput: seq<bool>): (r: Outcome)
    requires |files| == |isOutput|
    ensures |r.files| == |files|
  {
    if files == [] then Outcome(files, true)
    else
      match Analyze(files[Reference(isOutput)])
      case Err => Outcome(files, false)
      case Ok(o) => NormalizeEach(files, o)
  }

  lemma {:induction false} FirstTrueIs(s: seq<bool>, r: nat)
    requires r < |s| && s[r] && true !in s[..r]
    ensures FirstTrue(s) == r
  {
    if r > 0 {
      assert s[0] == s[..r][0];
      assert s[1..][..r - 1] == s[..r][1..];
      FirstTrueIs(s[1..], r - 1);
    }
  }

  method SelectReference(isOutput: seq<bool>) returns (r: nat)
    ensures r == Reference(isOutput)
    ensures if true in isOutput then r < |isOutput| && isOutput[r] && true !in isOutput[..r] else r == 0
  {
    r := 0;
    while r < |isOutput|
      invariant r <= |isOutput|
      invariant true !in isOutput[..r]
    {
      if isOutput[r] {
        FirstTrueIs(isOutput, r);
        return;
      }
      assert isOutput[..r + 1] == isOutput[..r] + [isOutput[r]];
      r := r + 1;
    }
    assert isOutput[..r] == isOutput;
    return 0;
  }

  method NormalizeHlsTimestamps(disk: array<Bytes>, isOutput: seq<bool>) returns (ok: bool)
    requires disk.Length == |isOutput|
    modifies disk
    ensures Outcome(disk[..], ok) == Normalize(old(disk[..]), isOutput)
  {
    if disk.Length == 0 {
      return true;
    }
    var reference := SelectReference(isOutput);
    var offsets := AnalyzeTsOffsets(disk[reference]);
    if offsets.Err? {
      return false;
    }
    ok := NormalizeFiles(disk, offsets.value);
  }

  method NormalizeFiles(disk: array<Bytes>, o: Offsets) returns (ok: bool)
    modifies disk
    ensures Outcome(disk[..], ok) == NormalizeEach(old(disk[..]), o)
  {
    ghost var files := disk[..];
    ghost var goal := NormalizeEach(files, o);
    var i := 0;
    assert disk[..0] == [] && files[0..] == files;
    while i < disk.Length
      invariant 0 <= i <= disk.Length
      invariant disk[i..] == files[i..]
      invariant Continues(disk[..i], files[i..], o, goal)
    {
      ghost var done, left, before := disk[..i], files[i..], disk[..];
      SetSlices(before, i);
      var file := NormalizeTsFile(disk[i], o);
      if file.Err? {
        return false;
      }
      disk[i] := file.value;
      assert disk[..] == before[i := file.value];
      SetSlices(disk[..], i);
      OneFile(done, left, o, goal);
      i := i + 1;
    }
    assert disk[..i] == disk[..] && files[i..] == [];
    assert disk[..] + [] == disk[..];
    return true;
  }

  lemma SetSlices(disk: seq<Bytes>, i: nat)
    requires i < |disk|
    ensures disk == disk[..i] + disk[i..] && disk[i..][0] == disk[i] && disk[i..][1..] == disk[i + 1..]
    ensures disk[..i + 1] == disk[..i] + [disk[i]]
  {
  }

  /** With `done` rewritten and `left` to do, the run will end in `goal`. */
  predicate Continues(done: seq<Bytes>, left: seq<Bytes>, o: Offsets, goal: Outcome) {
    var rest := NormalizeEach(left, o);
    done + rest.files == goal.files && rest.ok == goal.ok
  }

  lemma OneFile(done: seq<Bytes>, left: seq<Bytes>, o: Offsets, goal: Outcome)
    requires left != [] && NormalizeFile(left[0], o).Ok? && Continues(done, left, o, goal)
    ensures Continues(done + [NormalizeFile(left[0], o).value], left[1..], o, goal)
  {
    var file, rest := NormalizeFile(left[0], o).value, NormalizeEach(left[1..], o).files;
    assert done + ([file] + rest) == (done + [file]) + rest;
  }

  lemma {:induction false} EachReached(files: seq<Bytes>, o: Offsets, j: nat)
    requires j < |files| && forall i :: 0 <= i <= j ==> NormalizeFile(files[i], o).Ok?
    ensures NormalizeEach(files, o).files[j] == NormalizeFile(files[j], o).value
  {
    if j > 0 {
      EachReached(files[1..], o, j - 1);
    }
  }

  lemma {:induction false} EachSucceeds(files: seq<Bytes>, o: Offsets)
    ensures NormalizeEach(files, o).ok <==> forall i :: 0 <= i < |files| ==> NormalizeFile(files[i], o).Ok?
  {
    if files != [] {
      EachSucceeds(files[1..], o);
      assert forall i :: 0 < i < |files| ==> files[i] == files[1..][i - 1];
    }
  }

  lemma {:induction false} ZeroChangesNothing(files: seq<Bytes>)
    ensures NormalizeEach(files, Offsets(0, 0)) == Outcome(files, true)
  {
    if files != [] {
      ZeroChangesNothing(files[1..]);
      assert files == [files[0]] + files[1..];
    }
  }

  /** The first file that cannot be normalized. */
  predicate FailsAt(files: seq<Bytes>, o: Offsets, j: nat) {
    j < |files| && NormalizeFile(files[j], o).Err? && forall i :: 0 <= i < j ==> NormalizeFile(files[i], o).Ok?
  }

  lemma {:induction false} SomeFails(files: seq<Bytes>, o: Offsets, i: nat) returns (j: nat)
    requires i < |files| && NormalizeFile(files[i], o).Err?
    ensures j <= i && FailsAt(files, o, j)
    decreases i
  {
    if k :| 0 <= k < i && NormalizeFile(files[k], o).Err? {
      j := SomeFails(files, o, k);
    } else {
      j := i;
    }
  }

  /** A run rewrites the files in front of the first failure; that file and those behind it stay as they were. */
  lemma {:induction false} FailureStops(files: seq<Bytes>, o: Offsets, j: nat, i: nat)
    requires FailsAt(files, o, j) && i < |files|
    ensures var r := NormalizeEach(files, o);
      !r.ok && r.files[i] == if i < j then NormalizeFile(files[i], o).value else files[i]
    decreases j
  {
    if j > 0 {
      assert files[1..][j - 1] == files[j] && forall k :: 0 <= k < j - 1 ==> files[1..][k] == files[k + 1];
      FailureStops(files[1..], o, j - 1, if i > 0 then i - 1 else 0);
    }
  }

  /** The run gets as far as its reference file. */
  predicate ReachesReference(files: seq<Bytes>, isOutput: seq<bool>)
    requires |files| == |isOutput| && files != []
  {
    match Analyze(files[Reference(isOutput)])
    case Err => false
    case Ok(o) => forall i :: 0 <= i <= Reference(isOutput) ==> NormalizeFile(files[i], o).Ok?
  }

  lemma NothingLeft(files: seq<Bytes>, isOutput: seq<bool>)
    requires |files| == |isOutput| && files != [] && Fits(files[Reference(isOutput)]) && ReachesReference(files, isOutput)
    ensures var after := Normalize(files, isOutput).files; Normalize(after, isOutput) == Outcome(after, true)
  {
    var at := Reference(isOutput);
    EachReached(files, Analyze(files[at]).value, at);
    NormalizedStartsAtZero(files[at]);
    ZeroChangesNothing(Normalize(files, isOutput).files);
  }

  /**
   * A run that fails in front of its reference file, or at it, leaves the reference as it was: the next run finds the
   * same offsets, fails at the same file, and shifts the files in front of it again.
   */
  lemma ShiftsAgain(files: seq<Bytes>, isOutput: seq<bool>, o: Offsets, j: nat)
    requires |files| == |isOutput| && files != [] && Analyze(files[Reference(isOutput)]) == Ok(o)
    requires FailsAt(files, o, j) && j <= Reference(isOutput)
    ensures var after := Normalize(files, isOutput).files;
      Normalize(after, isOutput) == NormalizeEach(after, o) && FailsAt(after, o, j)
  {
    var after := NormalizeEach(files, o).files;
    FailureStops(files, o, j, Reference(isOutput));
    FailureStops(files, o, j, j);
    forall i | 0 <= i < j
      ensures NormalizeFile(after[i], o).Ok?
    {
      FailureStops(files, o, j, i);
      StillSynced(files[i], o);
    }
  }

  lemma StillSynced(data: Bytes, o: Offsets)
    requires NormalizeFile(data, o).Ok?
    ensures NormalizeFile(NormalizeFile(data, o).value, o).Ok?
  {
    if o.pts != 0 || o.pcr != 0 {
      var r := RewriteAll(data, o);
      forall k | 0 <= k < Count(r)
        ensures PacketAt(r, k)[0] == SYNC
      {
        PacketOfRewritten(data, o, k);
        FirstByteStays(PacketAt(data, k), o);
      }
    }
  }

  lemma FirstByteStays(p: Packet, o: Offsets)
    ensures Rewrite(p, o.pts, o.pcr)[0] == p[0]
  {
  }

  /**
   * A later run changes nothing and succeeds if and only if the first one got as far as its reference file, whether or
   * not it got through the files behind it.
   */
  lemma NextRunChangesNothing(files: seq<Bytes>, isOutput: seq<bool>)
    requires |files| == |isOutput| && files != [] && Fits(files[Reference(isOutput)])
    ensures var after := Normalize(files, isOutput).files;
      Normalize(after, isOutput) == Outcome(after, true) <==> ReachesReference(files, isOutput)
  {
    var at := Reference(isOutput);
    if ReachesReference(files, isOutput) {
      NothingLeft(files, isOutput);
    } else if Analyze(files[at]).Ok? {
      var o := Analyze(files[at]).value;
      var i: nat :| i <= at && NormalizeFile(files[i], o).Err?;
      var j := SomeFails(files, o, i);
      ShiftsAgain(files, isOutput, o, j);
      FailureStops(Normalize(files, isOutput).files, o, j, j);
    }
  }

  /** In particular a successful run is idempotent. */
  lemma SecondRunChangesNothing(files: seq<Bytes>, isOutput: seq<bool>)
    requires |files| == |isOutput| && files != [] && Fits(files[Reference(isOutput)])
    requires Normalize(files, isOutput).ok
    ensures var after := Normalize(files, isOutput).files; Normalize(after, isOutput) == Outcome(after, true)
  {
    EachSucceeds(files, Analyze(files[Reference(isOutput)]).value);
    NextRunChangesNothing(files, isOutput);
  }

  /** So after such a failure a second run has taken every timestamp of a file in front of it back twice. */
  lemma ShiftedTwice(files: seq<Bytes>, isOutput: seq<bool>, o: Offsets, j: nat, i: nat, k: nat)
    requires |files| == |isOutput| && files != [] && Analyze(files[Reference(isOutput)]) == Ok(o) && o != Offsets(0, 0)
    requires FailsAt(files, o, j) && j <= Reference(isOutput) && i < j && Fits(files[i]) && k < Count(files[i])
    ensures var twice := Normalize(Normalize(files, isOutput).files, isOutput).files[i];
      |twice| == |files[i]| && Pts(PacketAt(twice, k)) == Shifted(Shifted(Pts(PacketAt(files[i], k)), o.pts), o.pts)
  {
    var after := Normalize(files, isOutput).files;
    ShiftsAgain(files, isOutput, o, j);
    FailureStops(files, o, j, i);
    FailureStops(after, o, j, i);
    NormalizedPacket(files[i], o, k);
    StillFits(files[i], o);
    NormalizedPacket(after[i], o, k);
  }

  lemma StillFits(data: Bytes, o: Offsets)
    requires Fits(data) && Synced(data)
    ensures Fits(RewriteAll(data, o))
  {
    forall k | 0 <= k < Count(data)
      ensures PcrFits(PacketAt(RewriteAll(data, o), k))
    {
      PacketOfRewritten(data, o, k);
      RewriteStays(PacketAt(data, k), o.pts, o.pcr);
    }
  }

  // ---------- Where the standard's requirement matters ----------

  /** With an adaptation field of exactly 6 bytes the PCR's last byte lands on the start code, and the PTS is lost. */
  lemma CrowdedLosesPts(p: Packet, ptsOffset: nat, pcrOffset: nat)
    requires HasPcr(p) && p[4] == 6 && ShiftPcr(p[PCR_AT..PCR_AT + 6], pcrOffset)[5] != 0
    ensures Pts(Rewrite(p, ptsOffset, pcrOffset)).None?
  {
    var m := RewritePcr(p, pcrOffset);
    var field := ShiftPcr(p[PCR_AT..PCR_AT + 6], pcrOffset);
    assert m[PCR_AT..PCR_AT + 6][5] == field[5];
    assert PesAt(m).None?;
  }

  /** Where the PCR's last byte happens to come out as the zero that was there, nothing is lost. */
  lemma CrowdedKeeps(p: Packet, ptsOffset: nat, pcrOffset: nat)
    requires HasPcr(p) && p[4] == 6 && Pts(p).Some? && ShiftPcr(p[PCR_AT..PCR_AT + 6], pcrOffset)[5] == 0
    ensures Pts(Rewrite(p, ptsOffset, pcrOffset)) == Shifted(Pts(p), ptsOffset)
    ensures Dts(Rewrite(p, ptsOffset, pcrOffset)) == Shifted(Dts(p), ptsOffset)
  {
    var m := RewritePcr(p, pcrOffset);
    CrowdedPcr(p, pcrOffset, m);
    CrowdedShifts(p, m, ptsOffset);
  }

  lemma CrowdedPcr(p: Packet, pcrOffset: nat, m: Packet)
    requires HasPcr(p) && p[4] == 6 && Pts(p).Some? && ShiftPcr(p[PCR_AT..PCR_AT + 6], pcrOffset)[5] == 0
    requires m == RewritePcr(p, pcrOffset)
    ensures PesAt(p) == Some(11) && Control(p) >= 2
    ensures forall i :: 0 <= i < PACKET_SIZE && !(PCR_AT <= i < PCR_AT + 5) ==> m[i] == p[i]
  {
    var field := ShiftPcr(p[PCR_AT..PCR_AT + 6], pcrOffset);
    assert m[11] == m[PCR_AT..PCR_AT + 6][5] == field[5];
  }

  lemma CrowdedShifts(p: Packet, m: Packet, ptsOffset: nat)
    requires PesAt(p) == Some(11) && Control(p) >= 2 && Pts(p).Some?
    requires forall i :: 0 <= i < PACKET_SIZE && !(PCR_AT <= i < PCR_AT + 5) ==> m[i] == p[i]
    ensures Pts(RewritePes(m, ptsOffset)) == Shifted(Pts(p), ptsOffset)
    ensures Dts(RewritePes(m, ptsOffset)) == Shifted(Dts(p), ptsOffset)
  {
    var q := RewritePes(m, ptsOffset);
    SameFromPes(p, m);
    RewritePesShape(m, ptsOffset);
    SameFromPes(m, q);
    PesShifted(m, ptsOffset);
    assert PtsAt(p) == Some(20);
    assert m[20..25] == p[20..25] && m[25..30] == p[25..30];
    PtsFrom(p, q, ptsOffset);
    DtsFrom(p, q, ptsOffset);
  }

  /** A packet whose PES header starts at 11 keeps its timestamps' places when only later bytes, or bytes before it, change. */
  lemma SameFromPes(p: Packet, q: Packet)
    requires PesAt(p) == Some(11) && Control(p) >= 2
    requires forall i :: 0 <= i < 20 && !(PCR_AT <= i < PCR_AT + 5) ==> q[i] == p[i]
    ensures PesAt(q) == Some(11) && PtsAt(q) == PtsAt(p) && DtsAt(q) == DtsAt(p) && Control(q) == Control(p)
  {
  }

  /** A packet with a PTS keeps it, shifted, if and only if the PCR fits its adaptation field or its last byte comes out as zero. */
  lemma PtsKeptIff(p: Packet, ptsOffset: nat, pcrOffset: nat)
    requires Pts(p).Some?
    ensures Pts(Rewrite(p, ptsOffset, pcrOffset)) == Shifted(Pts(p), ptsOffset)
      <==> PcrFits(p) || ShiftPcr(p[PCR_AT..PCR_AT + 6], pcrOffset)[5] == 0
  {
    if PcrFits(p) {
      PtsShifted(p, ptsOffset, pcrOffset);
    } else if ShiftPcr(p[PCR_AT..PCR_AT + 6], pcrOffset)[5] == 0 {
      CrowdedKeeps(p, ptsOffset, pcrOffset);
    } else {
      CrowdedLosesPts(p, ptsOffset, pcrOffset);
    }
  }

  /** And so it is with a DTS. */
  lemma DtsKeptIff(p: Packet, ptsOffset: nat, pcrOffset: nat)
    requires Dts(p).Some?
    ensures Dts(Rewrite(p, ptsOffset, pcrOffset)) == Shifted(Dts(p), ptsOffset)
      <==> PcrFits(p) || ShiftPcr(p[PCR_AT..PCR_AT + 6], pcrOffset)[5] == 0
  {
    if PcrFits(p) {
      DtsShifted(p, ptsOffset, pcrOffset);
    } else if ShiftPcr(p[PCR_AT..PCR_AT + 6], pcrOffset)[5] == 0 {
      CrowdedKeeps(p, ptsOffset, pcrOffset);
    } else {
      CrowdedLosesPts(p, ptsOffset, pcrOffset);
    }
  }

  function Crowded(): Packet {
    seq(PACKET_SIZE, i =>
      if i == 0 then SYNC else if i == 1 then 0x40 else if i == 3 then 0x30 else if i == 4 then 6
      else if i == 5 then 0x10 else if i == 10 then 0x7e else if i == 13 then 1 else if i == 18 then 0x80
      else if i == 20 then 0x21 else if i == 22 || i == 24 then 1 else 0)
  }

  predicate IsCrowded(p: Packet) {
    p[1] == 0x40 && p[3] == 0x30 && p[4] == 6 && p[5] == 0x10
    && p[6] == 0 && p[7] == 0 && p[8] == 0 && p[9] == 0 && p[10] == 0x7e && p[11] == 0
    && p[12] == 0 && p[13] == 1 && p[18] == 0x80
  }

  lemma CrowdedPes(p: Packet)
    requires IsCrowded(p)
    ensures HasPcr(p) && Pts(p).Some?
  {
    assert PesAt(p) == Some(11);
  }

  lemma CrowdedIsLost(p: Packet, offset: nat)
    requires IsCrowded(p) && HasPcr(p) && offset == 1
    ensures Pts(Rewrite(p, offset, offset)).None?
  {
    var field := p[PCR_AT..PCR_AT + 6];
    var value := DecodePcr(field);
    DecodesToZero(field, 0);
    ShiftedFromZero(field, value, offset);
    CrowdedLosesPts(p, offset, offset);
  }

  /** Such a packet: accepted by the code, carrying a PTS, and left without one. */
  lemma CrowdedExample(offset: nat)
    requires offset == 1
    ensures HasPcr(Crowded()) && Pts(Crowded()).Some? && Pts(Rewrite(Crowded(), offset, offset)).None?
  {
    var p := Crowded();
    CrowdedPes(p);
    CrowdedIsLost(p, offset);
  }

  lemma DecodesToZero(field: Bytes, zero: nat)
    requires |field| == 6 && field[0] == 0 && field[1] == 0 && field[2] == 0 && field[3] == 0 && field[4] == 0x7e && field[5] == 0
    requires zero == 0
    ensures DecodePcr(field) == zero
  {
    PcrFieldsDecode(zero, zero);
    var encoded := PcrFields(zero, zero);
    assert encoded[0] == 0 && encoded[1] == 0 && encoded[2] == 0 && encoded[3] == 0 && encoded[4] == 0x7e && encoded[5] == 0;
    assert field == encoded;
  }

  lemma ShiftedFromZero(field: Bytes, value: nat, offset: nat)
    requires |field| == 6 && DecodePcr(field) == value && value == 0 && offset == 1
    ensures ShiftPcr(field, offset)[5] == 3
  {
    var shifted := SubMod(value, offset, PCR_MODULO);
    BelowOne(value, offset);
    LastByte(shifted);
  }

  lemma BelowOne(value: nat, offset: nat)
    requires value == 0 && offset == 1
    ensures SubMod(value, offset, PCR_MODULO) == PCR_MODULO - 1
  {
  }

  lemma LastByte(value: nat)
    requires value == PCR_MODULO - 1
    ensures EncodePcr(value)[5] == 3
  {
    assert value % 300 == 3;
  }
}
