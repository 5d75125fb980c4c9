/** Normalizing the timestamps of a recording's segments, and measuring a segment (ts_normalize.go, hls_fix.go). */
module TsNormalize {
  import opened Common
  import opened TsTimestamps
  import opened TsPackets

  datatype Offsets = Offsets(pts: nat, pcr: nat)

  /** Whole packets; a shorter remainder of the file is never looked at. */
  function Count(data: Bytes): (n: nat)
    ensures n * PACKET_SIZE <= |data| < n * PACKET_SIZE + PACKET_SIZE
  {
    |data| / PACKET_SIZE
  }

  function PacketAt(data: Bytes, k: nat): Packet
    requires k < Count(data)
  {
    data[k * PACKET_SIZE..k * PACKET_SIZE + PACKET_SIZE]
  }

  predicate Synced(data: Bytes) {
    SyncedUpTo(data, Count(data))
  }

  predicate SyncedUpTo(data: Bytes, n: nat)
    requires n <= Count(data)
  {
    forall k :: 0 <= k < n ==> PacketAt(data, k)[0] == SYNC
  }

  /** The standard's requirement on every packet: room for a PCR in an adaptation field that announces one. */
  predicate Fits(data: Bytes) {
    forall k :: 0 <= k < Count(data) ==> PcrFits(PacketAt(data, k))
  }

  // ---------- Finding the offsets ----------

  function Timestamp(p: Packet): Option<nat> {
    if Pts(p).Some? then Pts(p) else Dts(p)
  }

  function Keep(found: Option<nat>, seen: Option<nat>): Option<nat> {
    if found.Some? then found else seen
  }

  /** The scan stops as soon as it has both, so later packets need not be synchronized. */
  function AnalyzeFrom(data: Bytes, k: nat, pts: Option<nat>, pcr: Option<nat>): Result<Offsets>
    requires k <= Count(data)
    decreases Count(data) - k
  {
    if k == Count(data) || (pts.Some? && pcr.Some?) then
      if pts.None? then Err
      else Ok(Offsets(pts.value % PTS_MODULO, (if pcr.Some? then pcr.value else pts.value * 300) % PCR_MODULO))
    else
      var p := PacketAt(data, k);
      if p[0] != SYNC then Err
      else AnalyzeFrom(data, k + 1, Keep(pts, Timestamp(p)), Keep(pcr, Pcr(p)))
  }

  function Analyze(data: Bytes): Result<Offsets> {
    AnalyzeFrom(data, 0, None, None)
  }

  method AnalyzeTsOffsets(data: Bytes) returns (r: Result<Offsets>)
    ensures r == Analyze(data)
  {
    var pts: Option<nat>, pcr: Option<nat> := None, None;
    var k := 0;
    while k < Count(data) && !(pts.Some? && pcr.Some?)
      invariant k <= Count(data)
      invariant AnalyzeFrom(data, k, pts, pcr) == Analyze(data)
    {
      var p := PacketAt(data, k);
      if p[0] != SYNC {
        return Err;
      }
      pts, pcr := Keep(pts, Timestamp(p)), Keep(pcr, Pcr(p));
      k := k + 1;
    }
    if pts.None? {
      return Err;
    }
    if pcr.None? {
      pcr := Some(pts.value * 300);
    }
    return Ok(Offsets(pts.value % PTS_MODULO, pcr.value % PCR_MODULO));
  }

  /** The first PTS in the file; a packet without a PTS may give its DTS. */
  function FirstTimestamp(data: Bytes, k: nat): Option<nat>
    requires k <= Count(data)
    decreases Count(data) - k
  {
    if k == Count(data) then None
    else if Pts(PacketAt(data, k)).Some? then Pts(PacketAt(data, k))
    else if Dts(PacketAt(data, k)).Some? then Dts(PacketAt(data, k))
    else FirstTimestamp(data, k + 1)
  }

  function FirstPcr(data: Bytes, k: nat): Option<nat>
    requires k <= Count(data)
    decreases Count(data) - k
  {
    if k == Count(data) then None
    else if Pcr(PacketAt(data, k)).Some? then Pcr(PacketAt(data, k))
    else FirstPcr(data, k + 1)
  }

  /** What the file's clocks begin with; 27 MHz ticks are 300 for each tick of 90 kHz. */
  predicate Begins(o: Offsets, pts: Option<nat>, pcr: Option<nat>) {
    pts.Some? && o.pts == pts.value % 0x2_0000_0000
    && o.pcr == (if pcr.Some? then pcr.value else pts.value * 300) % 0x400_0000_0000
  }

  lemma {:induction false} AnalyzeFromIs(data: Bytes, k: nat, pts: Option<nat>, pcr: Option<nat>)
    requires k <= Count(data) && AnalyzeFrom(data, k, pts, pcr).Ok?
    ensures Begins(AnalyzeFrom(data, k, pts, pcr).value, Keep(pts, FirstTimestamp(data, k)), Keep(pcr, FirstPcr(data, k)))
    decreases Count(data) - k
  {
    if !(k == Count(data) || (pts.Some? && pcr.Some?)) {
      var p := PacketAt(data, k);
      AnalyzeFromIs(data, k + 1, Keep(pts, Timestamp(p)), Keep(pcr, Pcr(p)));
    }
  }

  lemma {:induction false} AnalyzeFromFinds(data: Bytes, k: nat, pts: Option<nat>, pcr: Option<nat>)
    requires k <= Count(data) && forall j :: 0 <= j < Count(data) ==> PacketAt(data, j)[0] == 0x47
    ensures AnalyzeFrom(data, k, pts, pcr).Ok? == Keep(pts, FirstTimestamp(data, k)).Some?
    decreases Count(data) - k
  {
    if !(k == Count(data) || (pts.Some? && pcr.Some?)) {
      var p := PacketAt(data, k);
      AnalyzeFromFinds(data, k + 1, Keep(pts, Timestamp(p)), Keep(pcr, Pcr(p)));
    }
  }

  /** The offsets are the first timestamp and the first PCR of the file, or what the timestamp amounts to without a PCR. */
  lemma AnalyzeIs(data: Bytes)
    requires Analyze(data).Ok?
    ensures Begins(Analyze(data).value, FirstTimestamp(data, 0), FirstPcr(data, 0))
  {
    AnalyzeFromIs(data, 0, None, None);
  }

  /** In a synchronized file they are found exactly if there is a timestamp. */
  lemma AnalyzeFindsIff(data: Bytes)
    requires forall j :: 0 <= j < Count(data) ==> PacketAt(data, j)[0] == 0x47
    ensures Analyze(data).Ok? == FirstTimestamp(data, 0).Some?
  {
    AnalyzeFromFinds(data, 0, None, None);
  }

  /** A file is left unwritten exactly if there is something to subtract and some packet does not begin with 0x47. */
  lemma NormalizeFailsIff(data: Bytes, o: Offsets)
    ensures NormalizeFile(data, o).Err?
      <==> (o.pts != 0 || o.pcr != 0) && exists k :: 0 <= k < Count(data) && PacketAt(data, k)[0] != 0x47
  {
  }

  // ---------- Rewriting a file ----------

  function RewriteAll(data: Bytes, o: Offsets): (r: Bytes)
    ensures |r| == |data|
  {
    seq(|data|, i requires 0 <= i < |data| =>
      if i / PACKET_SIZE < Count(data) then Rewrite(PacketAt(data, i / PACKET_SIZE), o.pts, o.pcr)[i % PACKET_SIZE]
      else data[i])
  }

  /** Zero offsets leave the file alone; an unsynchronized packet leaves it unwritten. */
  function NormalizeFile(data: Bytes, o: Offsets): Result<Bytes> {
    if o.pts == 0 && o.pcr == 0 then Ok(data)
    else if Synced(data) then Ok(RewriteAll(data, o))
    else Err
  }

  lemma PacketOfRewritten(data: Bytes, o: Offsets, k: nat)
    requires k < Count(data)
    ensures PacketAt(RewriteAll(data, o), k) == Rewrite(PacketAt(data, k), o.pts, o.pcr)
  {
    var r, p := RewriteAll(data, o), Rewrite(PacketAt(data, k), o.pts, o.pcr);
    forall j | 0 <= j < PACKET_SIZE
      ensures PacketAt(r, k)[j] == p[j]
    {
      OnGrid(k, j);
    }
  }

  lemma OnGrid(k: nat, j: nat)
    requires j < PACKET_SIZE
    ensures (k * PACKET_SIZE + j) / PACKET_SIZE == k && (k * PACKET_SIZE + j) % PACKET_SIZE == j
  {
  }

  /** In place: only the 188 bytes at `at` change, to the rewritten packet. */
  method RewritePacket(data: array<Byte>, at: nat, o: Offsets)
    requires at + PACKET_SIZE <= data.Length
    modifies data
    ensures data[at..at + PACKET_SIZE] == Rewrite(old(data[at..at + PACKET_SIZE]), o.pts, o.pcr)
    ensures forall i :: 0 <= i < data.Length && !(at <= i < at + PACKET_SIZE) ==> data[i] == old(data[i])
  {
    var p: Packet := data[at..at + PACKET_SIZE];
    if HasPcr(p) {
      WriteField(data, at, PCR_AT, ShiftPcr(p[PCR_AT..PCR_AT + 6], o.pcr));
    }
    WriteTimestamps(data, at, o);
  }

  method WriteTimestamps(data: array<Byte>, at: nat, o: Offsets)
    requires at + PACKET_SIZE <= data.Length
    modifies data
    ensures data[at..at + PACKET_SIZE] == RewritePes(old(data[at..at + PACKET_SIZE]), o.pts)
    ensures forall i :: 0 <= i < data.Length && !(at <= i < at + PACKET_SIZE) ==> data[i] == old(data[i])
  {
    var p: Packet := data[at..at + PACKET_SIZE];
    var field := PtsAt(p);
    if field.Some? {
      WriteTimestamp(data, at, field.value, o);
      if DtsAt(p).Some? {
        WriteTimestamp(data, at, field.value + 5, o);
      }
    }
  }

  method WriteTimestamp(data: array<Byte>, at: nat, field: nat, o: Offsets)
    requires at + PACKET_SIZE <= data.Length && field + 5 <= PACKET_SIZE
    modifies data
    ensures data[at..at + PACKET_SIZE] == RewriteTimestamp(old(data[at..at + PACKET_SIZE]), field, o.pts)
    ensures forall i :: 0 <= i < data.Length && !(at <= i < at + PACKET_SIZE) ==> data[i] == old(data[i])
  {
    var p: Packet := data[at..at + PACKET_SIZE];
    WriteField(data, at, field, ShiftPts(p[field..field + 5], o.pts));
  }

  method WriteField(data: array<Byte>, at: nat, field: nat, bytes: Bytes)
    requires at + PACKET_SIZE <= data.Length && field + |bytes| <= PACKET_SIZE
    modifies data
    ensures data[at..at + PACKET_SIZE] == Put(old(data[at..at + PACKET_SIZE]), field, bytes)
    ensures forall i :: 0 <= i < data.Length && !(at <= i < at + PACKET_SIZE) ==> data[i] == old(data[i])
  {
    var j := 0;
    while j < |bytes|
      invariant 0 <= j <= |bytes|
      invariant forall i :: 0 <= i < data.Length ==>
        data[i] == if at + field <= i < at + field + j then bytes[i - at - field] else old(data[i])
    {
      data[at + field + j] := bytes[j];
      j := j + 1;
    }
    ghost var p := Put(old(data[at..at + PACKET_SIZE]), field, bytes);
    forall i | 0 <= i < PACKET_SIZE
      ensures data[at..at + PACKET_SIZE][i] == p[i]
    {
      assert field <= i < field + |bytes| ==> p[i] == p[field..field + |bytes|][i - field];
    }
  }

  /** One turn of the loop: the buffer is rewritten up to packet `k` and still the file's from there. */
  method RewriteNext(data: array<Byte>, file: Bytes, o: Offsets, k: nat) returns (synced: bool)
    requires data.Length == |file| && k < Count(file)
    requires data[..k * PACKET_SIZE] == RewriteAll(file, o)[..k * PACKET_SIZE]
    requires data[k * PACKET_SIZE..] == file[k * PACKET_SIZE..]
    modifies data
    ensures synced == (PacketAt(file, k)[0] == SYNC)
    ensures synced ==> data[..(k + 1) * PACKET_SIZE] == RewriteAll(file, o)[..(k + 1) * PACKET_SIZE]
    ensures synced ==> data[(k + 1) * PACKET_SIZE..] == file[(k + 1) * PACKET_SIZE..]
  {
    var at := k * PACKET_SIZE;
    ghost var before, rest := data[..at], data[at + PACKET_SIZE..];
    SliceOf(data[..], file, at, at + PACKET_SIZE);
    assert data[at..at + PACKET_SIZE] == PacketAt(file, k);
    synced := data[at] == SYNC;
    assert data[at] == data[at..at + PACKET_SIZE][0];
    if synced {
      RewritePacket(data, at, o);
      assert data[..at] == before;
      assert data[at + PACKET_SIZE..] == rest;
      PacketOfRewritten(file, o, k);
      SlicesJoin(data[..], RewriteAll(file, o), at, at + PACKET_SIZE);
    }
  }

  method NormalizeTsFile(file: Bytes, o: Offsets) returns (r: Result<Bytes>)
    ensures r == NormalizeFile(file, o)
  {
    if o.pts == 0 && o.pcr == 0 {
      return Ok(file);
    }
    var data := new Byte[|file|](i requires 0 <= i < |file| => file[i]);
    var k := 0;
    assert data[..] == file;
    while k < Count(file)
      invariant 0 <= k <= Count(file)
      invariant SyncedUpTo(file, k)
      invariant data[..k * PACKET_SIZE] == RewriteAll(file, o)[..k * PACKET_SIZE]
      invariant data[k * PACKET_SIZE..] == file[k * PACKET_SIZE..]
    {
      var synced := RewriteNext(data, file, o, k);
      if !synced {
        return Err;
      }
      k := k + 1;
    }
    TailStays(file, o);
    SlicesMeet(data[..], RewriteAll(file, o), Count(file) * PACKET_SIZE);
    return Ok(data[..]);
  }

  lemma SliceOf(a: Bytes, b: Bytes, lo: nat, hi: nat)
    requires |a| == |b| && lo <= hi <= |a| && a[lo..] == b[lo..]
    ensures a[lo..hi] == b[lo..hi] && a[hi..] == b[hi..]
  {
    assert a[lo..hi] == a[lo..][..hi - lo];
    assert b[lo..hi] == b[lo..][..hi - lo];
    assert a[hi..] == a[lo..][hi - lo..];
    assert b[hi..] == b[lo..][hi - lo..];
  }

  lemma SlicesJoin(a: Bytes, b: Bytes, lo: nat, hi: nat)
    requires |a| == |b| && lo <= hi <= |a| && a[..lo] == b[..lo] && a[lo..hi] == b[lo..hi]
    ensures a[..hi] == b[..hi]
  {
    assert a[..hi] == a[..lo] + a[lo..hi];
    assert b[..hi] == b[..lo] + b[lo..hi];
  }

  lemma SlicesMeet(a: Bytes, b: Bytes, at: nat)
    requires |a| == |b| && at <= |a| && a[..at] == b[..at] && a[at..] == b[at..]
    ensures a == b
  {
    assert a == a[..at] + a[at..];
    assert b == b[..at] + b[at..];
  }

  /** A remainder shorter than a packet stays. */
  lemma TailStays(data: Bytes, o: Offsets)
    ensures RewriteAll(data, o)[Count(data) * PACKET_SIZE..] == data[Count(data) * PACKET_SIZE..]
  {
  }
}
