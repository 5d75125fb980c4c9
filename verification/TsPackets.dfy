/** MPEG-TS packets: where their timestamps stand, and rewriting them in place (ts_normalize.go, hls_fix.go). */
module TsPackets {
  import opened Common
  import opened TsTimestamps

  const PACKET_SIZE := 188
  const SYNC: Byte := 0x47
  const PCR_AT := 6

  type Packet = p: Bytes | |p| == PACKET_SIZE witness seq(PACKET_SIZE, _ => 0)

  function Control(p: Packet): nat {
    p[3] / 16 % 4
  }

  /** Where the payload would start; `None` when the adaptation field overruns the packet. */
  function PayloadAt(p: Packet): Option<nat> {
    if Control(p) < 2 then Some(4)
    else if 5 + p[4] > PACKET_SIZE then None
    else Some(5 + p[4])
  }

  /** The adaptation field says it holds a PCR, and is at least 6 long. */
  predicate HasPcr(p: Packet) {
    Control(p) >= 2 && 5 + p[4] <= PACKET_SIZE && p[4] >= 6 && p[5] / 16 % 2 == 1
  }

  /** Start of a PES header whose timestamp flags can be read. */
  function PesAt(p: Packet): (r: Option<nat>)
    ensures r.Some? ==> 4 <= r.value <= PACKET_SIZE - 9
  {
    match PayloadAt(p)
    case None => None
    case Some(offset) =>
      if Control(p) % 2 == 1 && offset < PACKET_SIZE && p[1] / 64 % 2 == 1 && offset + 6 <= PACKET_SIZE
        && p[offset] == 0 && p[offset + 1] == 0 && p[offset + 2] == 1 && offset + 9 <= PACKET_SIZE
      then Some(offset) else None
  }

  function TimestampFlags(p: Packet, pes: nat): nat
    requires pes <= PACKET_SIZE - 9
  {
    p[pes + 7] / 64
  }

  function PtsAt(p: Packet): (r: Option<nat>)
    ensures r.Some? ==> PesAt(p).Some? && r.value == PesAt(p).value + 9 && r.value + 5 <= PACKET_SIZE
  {
    match PesAt(p)
    case None => None
    case Some(pes) => if TimestampFlags(p, pes) >= 2 && pes + 14 <= PACKET_SIZE then Some(pes + 9) else None
  }

  function DtsAt(p: Packet): (r: Option<nat>)
    ensures r.Some? ==> PtsAt(p).Some? && r.value == PtsAt(p).value + 5 && r.value + 5 <= PACKET_SIZE
  {
    match PesAt(p)
    case None => None
    case Some(pes) => if TimestampFlags(p, pes) == 3 && pes + 19 <= PACKET_SIZE then Some(pes + 14) else None
  }

  // ---------- Two readers ----------

  function Pts(p: Packet): Option<nat> {
    match PtsAt(p) case None => None case Some(at) => Some(DecodePts(p[at..at + 5]))
  }

  function Dts(p: Packet): Option<nat> {
    match DtsAt(p) case None => None case Some(at) => Some(DecodePts(p[at..at + 5]))
  }

  function Pcr(p: Packet): Option<nat> {
    if HasPcr(p) then Some(DecodePcr(p[PCR_AT..PCR_AT + 6])) else None
  }

  /** The second, independent reader: extractPTSFromPacket of hls_fix.go, branch by branch. */
  function ExtractPts(p: Bytes): Option<nat> {
    if |p| != PACKET_SIZE || p[0] != SYNC then None
    else
      var control := p[3] / 16 % 4;
      var adaptation := control == 2 || control == 3;
      if adaptation && 5 + p[4] > |p| then None
      else
        var offset: nat := if adaptation then 5 + p[4] else 4;
        if !(control == 1 || control == 3) || offset >= |p| then None
        else if p[1] / 64 % 2 == 0 then None
        else if offset + 6 > |p| then None
        else if p[offset] != 0 || p[offset + 1] != 0 || p[offset + 2] != 1 then None
        else if offset + 9 > |p| then None
        else if p[offset + 7] / 64 % 4 < 2 then None
        else if offset + 14 > |p| then None
        else Some(DecodePts(p[offset + 9..offset + 14]))
  }

  /** Both readers see the same PTS in every synchronized packet. */
  lemma ReadersAgree(p: Packet)
    requires p[0] == SYNC
    ensures ExtractPts(p) == Pts(p)
  {
  }

  /** Behind the adaptation field, if the packet has one. */
  function PayloadStart(p: Packet): nat {
    var length: nat := p[4];
    if p[3] / 32 % 2 == 1 then 5 + length else 4
  }

  /** A payload that starts here, with a PES start code and header. */
  predicate StartsPes(p: Packet, at: nat) {
    p[3] / 16 % 2 == 1 && p[1] / 64 % 2 == 1 && at + 9 <= 188 && p[at] == 0 && p[at + 1] == 0 && p[at + 2] == 1
  }

  lemma PesIs(p: Packet)
    ensures PesAt(p) == if StartsPes(p, PayloadStart(p)) then Some(PayloadStart(p)) else None
  {
    ControlBits(p[3]);
  }

  /** Where the standard puts the PTS and the DTS, bit by bit, and what they must leave room for. */
  lemma TimestampsAre(p: Packet, at: nat)
    requires at == PayloadStart(p)
    ensures Pts(p) == if StartsPes(p, at) && p[at + 7] / 128 == 1 && at + 14 <= 188 then Some(DecodePts(p[at + 9..at + 14]))
                      else None
    ensures Dts(p) == if StartsPes(p, at) && p[at + 7] / 64 == 3 && at + 19 <= 188 then Some(DecodePts(p[at + 14..at + 19]))
                      else None
  {
    PesIs(p);
  }

  /** And the PCR, for which the code wants six bytes of adaptation field. */
  lemma PcrIs(p: Packet)
    ensures Pcr(p) == if p[3] / 32 % 2 == 1 && 6 <= p[4] <= 183 && p[5] / 16 % 2 == 1 then Some(DecodePcr(p[6..12])) else None
  {
    ControlBits(p[3]);
  }

  lemma ControlBits(b: Byte)
    ensures (b / 16 % 4 >= 2) == (b / 32 % 2 == 1) && b / 16 % 4 % 2 == b / 16 % 2
  {
  }

  // ---------- Rewriting ----------

  /** `p` with `bytes` written at `at`. */
  function Put(p: Bytes, at: nat, bytes: Bytes): (r: Bytes)
    requires at + |bytes| <= |p|
    ensures |r| == |p| && r[at..at + |bytes|] == bytes
    ensures forall i :: 0 <= i < |p| && !(at <= i < at + |bytes|) ==> r[i] == p[i]
  {
    p[..at] + bytes + p[at + |bytes|..]
  }

  function RewritePcr(p: Packet, pcrOffset: nat): (q: Packet) {
    if !HasPcr(p) then p
    else Put(p, PCR_AT, ShiftPcr(p[PCR_AT..PCR_AT + 6], pcrOffset))
  }

  function RewriteTimestamp(p: Packet, at: nat, ptsOffset: nat): (q: Packet)
    requires at + 5 <= PACKET_SIZE
  {
    Put(p, at, ShiftPts(p[at..at + 5], ptsOffset))
  }

  /** PTS and DTS, located in the packet as the PCR step left it. */
  function RewritePes(p: Packet, ptsOffset: nat): (q: Packet) {
    match PtsAt(p)
    case None => p
    case Some(at) =>
      var q := RewriteTimestamp(p, at, ptsOffset);
      if DtsAt(p).Some? then RewriteTimestamp(q, at + 5, ptsOffset) else q
  }

  function Rewrite(p: Packet, ptsOffset: nat, pcrOffset: nat): (q: Packet) {
    RewritePes(RewritePcr(p, pcrOffset), ptsOffset)
  }

  /**
   * The PCR field needs seven bytes of adaptation field, the flag byte and six more; the code checks for six.
   * With exactly six the PCR's last byte is the first payload byte.
   */
  predicate PcrFits(p: Packet) {
    HasPcr(p) ==> p[4] >= 7
  }

  /** The bytes a packet's timestamps occupy. */
  predicate InField(p: Packet, i: nat) {
    (HasPcr(p) && PCR_AT <= i < PCR_AT + 6)
    || (PtsAt(p).Some? && PtsAt(p).value <= i < PtsAt(p).value + 5)
    || (DtsAt(p).Some? && DtsAt(p).value <= i < DtsAt(p).value + 5)
  }

  /** The same packet but for its timestamp fields. */
  predicate SameButFields(p: Packet, q: Packet) {
    forall i :: 0 <= i < PACKET_SIZE && !InField(p, i) ==> p[i] == q[i]
  }

  /** What the parser looks at lies outside the fields, if the PCR fits its adaptation field. */
  lemma FieldsStay(p: Packet, q: Packet)
    requires PcrFits(p) && SameButFields(p, q)
    ensures Control(q) == Control(p) && PayloadAt(q) == PayloadAt(p) && HasPcr(q) == HasPcr(p)
    ensures PesAt(q) == PesAt(p) && PtsAt(q) == PtsAt(p) && DtsAt(q) == DtsAt(p) && q[0] == p[0] && PcrFits(q)
  {
    assert forall i :: 0 <= i < 6 ==> !InField(p, i);
    if PayloadAt(p).Some? {
      var o := PayloadAt(p).value;
      assert Control(p) < 2 ==> !HasPcr(p);
      assert forall i :: o <= i < o + 9 && i < PACKET_SIZE ==> !InField(p, i);
    }
  }

  lemma RewritePcrStays(p: Packet, pcrOffset: nat)
    requires PcrFits(p)
    ensures var q := RewritePcr(p, pcrOffset);
      SameButFields(p, q) && forall i :: 0 <= i < PACKET_SIZE && !(HasPcr(p) && PCR_AT <= i < PCR_AT + 6) ==> q[i] == p[i]
  {
  }

  /** Slices outside a written field are untouched. */
  lemma PutElsewhere(p: Bytes, at: nat, bytes: Bytes, lo: nat, hi: nat)
    requires at + |bytes| <= |p| && lo <= hi <= |p| && (hi <= at || at + |bytes| <= lo)
    ensures Put(p, at, bytes)[lo..hi] == p[lo..hi]
  {
  }

  lemma RewritePesShape(p: Packet, ptsOffset: nat)
    ensures var q := RewritePes(p, ptsOffset);
      (forall i :: 0 <= i < PACKET_SIZE && !(PtsAt(p).Some? && PtsAt(p).value <= i < PtsAt(p).value + 10) ==> q[i] == p[i])
      && (forall i :: 0 <= i < PACKET_SIZE && !InField(p, i) ==> q[i] == p[i])
  {
  }

  /** Normalizing touches nothing but the PCR, PTS and DTS fields, and leaves them where they were. */
  lemma RewriteStays(p: Packet, ptsOffset: nat, pcrOffset: nat)
    requires PcrFits(p)
    ensures var q := Rewrite(p, ptsOffset, pcrOffset);
      SameButFields(p, q) && q[0] == p[0] && PcrFits(q)
      && HasPcr(q) == HasPcr(p) && PtsAt(q) == PtsAt(p) && DtsAt(q) == DtsAt(p)
  {
    var m := RewritePcr(p, pcrOffset);
    RewritePcrStays(p, pcrOffset);
    FieldsStay(p, m);
    RewritePesShape(m, ptsOffset);
    var q := Rewrite(p, ptsOffset, pcrOffset);
    forall i | 0 <= i < PACKET_SIZE && !InField(p, i)
      ensures p[i] == q[i]
    {
      assert !InField(m, i);
    }
    FieldsStay(p, q);
  }

  function Shifted(t: Option<nat>, offset: nat): Option<nat> {
    if t.None? then None else Some((t.value - offset) % PTS_MODULO)
  }

  lemma PesShifted(m: Packet, ptsOffset: nat)
    requires PtsAt(m).Some?
    ensures var at := PtsAt(m).value; RewritePes(m, ptsOffset)[at..at + 5] == ShiftPts(m[at..at + 5], ptsOffset)
    ensures DtsAt(m).Some? ==>
      var at := DtsAt(m).value; RewritePes(m, ptsOffset)[at..at + 5] == ShiftPts(m[at..at + 5], ptsOffset)
  {
    var at := PtsAt(m).value;
    var q := RewriteTimestamp(m, at, ptsOffset);
    if DtsAt(m).Some? {
      PutElsewhere(m, at, ShiftPts(m[at..at + 5], ptsOffset), at + 5, at + 10);
      PutElsewhere(q, at + 5, ShiftPts(q[at + 5..at + 10], ptsOffset), at, at + 5);
    }
  }

  /** The PCR step does not reach the PES timestamps. */
  lemma PcrStepKeepsSlice(p: Packet, pcrOffset: nat, lo: nat, hi: nat)
    requires PcrFits(p) && lo <= hi <= PACKET_SIZE && (HasPcr(p) ==> PCR_AT + 6 <= lo)
    ensures RewritePcr(p, pcrOffset)[lo..hi] == p[lo..hi]
  {
    if HasPcr(p) {
      PutElsewhere(p, PCR_AT, ShiftPcr(p[PCR_AT..PCR_AT + 6], pcrOffset), lo, hi);
    }
  }

  lemma PtsBytesShifted(p: Packet, ptsOffset: nat, pcrOffset: nat)
    requires PcrFits(p) && PtsAt(p).Some?
    ensures var at := PtsAt(p).value; Rewrite(p, ptsOffset, pcrOffset)[at..at + 5] == ShiftPts(p[at..at + 5], ptsOffset)
    ensures DtsAt(p).Some? ==>
      var at := DtsAt(p).value; Rewrite(p, ptsOffset, pcrOffset)[at..at + 5] == ShiftPts(p[at..at + 5], ptsOffset)
  {
    var m := RewritePcr(p, pcrOffset);
    FieldsStay(p, m) by { RewritePcrStays(p, pcrOffset); }
    PesShifted(m, ptsOffset);
    var at := PtsAt(p).value;
    assert HasPcr(p) ==> PCR_AT + 6 <= at by {
      if HasPcr(p) { PcrIsBeforePts(p); }
    }
    PcrStepKeepsSlice(p, pcrOffset, at, at + 5);
    if DtsAt(p).Some? {
      PcrStepKeepsSlice(p, pcrOffset, at + 5, at + 10);
    }
  }

  lemma PtsFrom(p: Packet, q: Packet, ptsOffset: nat)
    requires PtsAt(q) == PtsAt(p)
    requires PtsAt(p).Some? ==>
      var at := PtsAt(p).value; q[at..at + 5] == ShiftPts(p[at..at + 5], ptsOffset)
    ensures Pts(q) == Shifted(Pts(p), ptsOffset)
  {
    if PtsAt(p).Some? {
      ShiftPtsMeaning(p[PtsAt(p).value..PtsAt(p).value + 5], ptsOffset);
    }
  }

  /** Every PTS becomes itself minus the offset, modulo 2^33. */
  lemma PtsShifted(p: Packet, ptsOffset: nat, pcrOffset: nat)
    requires PcrFits(p)
    ensures Pts(Rewrite(p, ptsOffset, pcrOffset)) == Shifted(Pts(p), ptsOffset)
  {
    PtsFrom(p, Rewrite(p, ptsOffset, pcrOffset), ptsOffset) by {
      RewriteStays(p, ptsOffset, pcrOffset);
      if PtsAt(p).Some? {
        PtsBytesShifted(p, ptsOffset, pcrOffset);
      }
    }
  }

  lemma DtsFrom(p: Packet, q: Packet, ptsOffset: nat)
    requires DtsAt(q) == DtsAt(p)
    requires DtsAt(p).Some? ==>
      var at := DtsAt(p).value; q[at..at + 5] == ShiftPts(p[at..at + 5], ptsOffset)
    ensures Dts(q) == Shifted(Dts(p), ptsOffset)
  {
    if DtsAt(p).Some? {
      ShiftPtsMeaning(p[DtsAt(p).value..DtsAt(p).value + 5], ptsOffset);
    }
  }

  /** And so does every DTS. */
  lemma DtsShifted(p: Packet, ptsOffset: nat, pcrOffset: nat)
    requires PcrFits(p)
    ensures Dts(Rewrite(p, ptsOffset, pcrOffset)) == Shifted(Dts(p), ptsOffset)
  {
    DtsFrom(p, Rewrite(p, ptsOffset, pcrOffset), ptsOffset) by {
      RewriteStays(p, ptsOffset, pcrOffset);
      if DtsAt(p).Some? {
        PtsBytesShifted(p, ptsOffset, pcrOffset);
      }
    }
  }

  lemma PcrIsBeforePts(p: Packet)
    requires PcrFits(p) && HasPcr(p) && PtsAt(p).Some?
    ensures PCR_AT + 6 <= PtsAt(p).value
  {
  }

  lemma PcrShiftedIn(p: Packet, q: Packet, pcrOffset: nat)
    requires q[PCR_AT..PCR_AT + 6] == ShiftPcr(p[PCR_AT..PCR_AT + 6], pcrOffset)
    ensures DecodePcr(q[PCR_AT..PCR_AT + 6]) == (DecodePcr(p[PCR_AT..PCR_AT + 6]) - pcrOffset) % PCR_MODULO % PCR_WRAP
  {
    ShiftPcrMeaning(p[PCR_AT..PCR_AT + 6], pcrOffset);
  }

  /** The PCR becomes what modular subtraction at 2^42 leaves after the field has cut it. */
  lemma PcrRewritten(p: Packet, ptsOffset: nat, pcrOffset: nat)
    requires PcrFits(p) && HasPcr(p)
    ensures Pcr(Rewrite(p, ptsOffset, pcrOffset)) == Some((Pcr(p).value - pcrOffset) % PCR_MODULO % PCR_WRAP)
  {
    var q := Rewrite(p, ptsOffset, pcrOffset);
    assert HasPcr(q) by { RewriteStays(p, ptsOffset, pcrOffset); }
    PcrShiftedIn(p, q, pcrOffset) by { PcrBytesShifted(p, ptsOffset, pcrOffset); }
  }

  lemma PcrBytesShifted(p: Packet, ptsOffset: nat, pcrOffset: nat)
    requires PcrFits(p) && HasPcr(p)
    ensures Rewrite(p, ptsOffset, pcrOffset)[PCR_AT..PCR_AT + 6] == ShiftPcr(p[PCR_AT..PCR_AT + 6], pcrOffset)
  {
    var m := RewritePcr(p, pcrOffset);
    PesLeavesPcr(p, m, ptsOffset) by { RewritePcrStays(p, pcrOffset); }
    assert RewritePes(m, ptsOffset)[PCR_AT..PCR_AT + 6] == m[PCR_AT..PCR_AT + 6];
  }

  lemma PesLeavesPcr(p: Packet, m: Packet, ptsOffset: nat)
    requires PcrFits(p) && HasPcr(p) && SameButFields(p, m)
    ensures forall i :: PCR_AT <= i < PCR_AT + 6 ==> RewritePes(m, ptsOffset)[i] == m[i]
  {
    FieldsStay(p, m);
    RewritePesShape(m, ptsOffset);
    if PtsAt(p).Some? {
      PcrIsBeforePts(p);
    }
  }

  /**
   * For PCR values the field can hold, the rewritten PCR is the true difference modulo the field's own wrap
   * (300 * 2^33) if and only if the PCR is not smaller than the offset: 2^42 is not a multiple of that wrap.
   */
  lemma PcrCorrectIffNotSmaller(p: Packet, ptsOffset: nat, pcrOffset: nat)
    requires PcrFits(p) && HasPcr(p) && Pcr(p).value < PCR_WRAP && pcrOffset < PCR_WRAP
    ensures Pcr(Rewrite(p, ptsOffset, pcrOffset)) == Some((Pcr(p).value - pcrOffset) % PCR_WRAP)
      <==> Pcr(p).value >= pcrOffset
  {
    var value := Pcr(p).value;
    assert Pcr(Rewrite(p, ptsOffset, pcrOffset)) == Some((value - pcrOffset) % PCR_MODULO % PCR_WRAP) by {
      PcrRewritten(p, ptsOffset, pcrOffset);
    }
    WrapsDiffer(value, pcrOffset);
  }

  lemma WrapsDiffer(value: nat, offset: nat)
    requires value < PCR_WRAP && offset < PCR_WRAP
    ensures (value - offset) % PCR_MODULO % PCR_WRAP == (value - offset) % PCR_WRAP <==> value >= offset
  {
    if value < offset {
      var d := offset - value;
      assert (value - offset) % PCR_MODULO == PCR_MODULO - d;
      assert (value - offset) % PCR_WRAP == PCR_WRAP - d;
    }
  }
}
