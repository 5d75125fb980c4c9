/** Frames from out-of-order RTP packets: FrameAssembler.AddPacket of frame_assembler.go. */
module FrameAssembly {
  import opened Common
  import opened Aead
  import opened AnnexB
  import opened H264Rtp
  import opened H264Cipher

  /** An injected frame is delivered with empty data. */
  datatype DecryptedFrame = DecryptedFrame(data: Bytes, timestamp: nat, keyframe: bool)

  // ---------- Sorting by sequence number ----------

  predicate Sorted(ps: seq<Packet>) {
    ps == [] || ((forall q :: q in multiset(ps[1..]) ==> ps[0].seqNum <= q.seqNum) && Sorted(ps[1..]))
  }

  /** What `sort.Slice` promises; it is free to order equal sequence numbers as it likes. */
  predicate IsSorting(sorted: seq<Packet>, ps: seq<Packet>) {
    Sorted(sorted) && multiset(sorted) == multiset(ps)
  }

  lemma Uncons(ps: seq<Packet>)
    requires ps != []
    ensures multiset(ps) == multiset{ps[0]} + multiset(ps[1..])
  {
    assert ps == [ps[0]] + ps[1..];
  }

  function Insert(p: Packet, sorted: seq<Packet>): (r: seq<Packet>)
    requires Sorted(sorted)
    ensures Sorted(r) && multiset(r) == multiset{p} + multiset(sorted)
  {
    if sorted == [] then [p]
    else
      Uncons(sorted);
      if p.seqNum <= sorted[0].seqNum then
        assert ([p] + sorted)[1..] == sorted;
        [p] + sorted
      else
        var rest := Insert(p, sorted[1..]);
        assert ([sorted[0]] + rest)[1..] == rest;
        [sorted[0]] + rest
  }

  function SortBySeq(ps: seq<Packet>): (r: seq<Packet>)
    ensures IsSorting(r, ps)
  {
    if ps == [] then []
    else
      Uncons(ps);
      Insert(ps[0], SortBySeq(ps[1..]))
  }

  predicate StrictlyIncreasing(ps: seq<Packet>) {
    ps == [] || ((forall q :: q in multiset(ps[1..]) ==> ps[0].seqNum < q.seqNum) && StrictlyIncreasing(ps[1..]))
  }

  /** With distinct sequence numbers there is one sorted order. */
  lemma {:induction false} SortingIsUnique(sorted: seq<Packet>, sent: seq<Packet>)
    requires StrictlyIncreasing(sent) && IsSorting(sorted, sent)
    ensures sorted == sent
    decreases |sent|
  {
    assert |sorted| == |multiset(sorted)| == |multiset(sent)| == |sent|;
    if sent != [] {
      FirstIsSame(sorted, sent);
      SortingIsUnique(sorted[1..], sent[1..]);
      assert sorted == [sorted[0]] + sorted[1..] && sent == [sent[0]] + sent[1..];
    }
  }

  lemma FirstIsSame(sorted: seq<Packet>, sent: seq<Packet>)
    requires sorted != [] && sent != [] && StrictlyIncreasing(sent) && IsSorting(sorted, sent)
    ensures sorted[0] == sent[0] && IsSorting(sorted[1..], sent[1..])
  {
    Uncons(sorted);
    Uncons(sent);
    assert sent[0] in multiset(sorted) && sorted[0] in multiset(sent);
    assert multiset(sorted[1..]) == multiset(sorted) - multiset{sent[0]};
    assert multiset(sent[1..]) == multiset(sent) - multiset{sent[0]};
  }

  // ---------- The packets waiting for a timestamp ----------

  /** The packets of timestamp `t` that arrived since the last marker of `t`. */
  function Pending(history: seq<Packet>, t: nat): seq<Packet> {
    if history == [] then []
    else
      var p := history[|history| - 1];
      var before := Pending(history[..|history| - 1], t);
      if p.payload == [] || p.timestamp != t then before
      else if p.marker then []
      else before + [p]
  }

  function Queue(pending: map<nat, seq<Packet>>, t: nat): seq<Packet> {
    if t in pending then pending[t] else []
  }

  function Deliver(c: Cipher, sif: Option<Bytes>, packets: seq<Packet>, timestamp: nat): Result<Option<DecryptedFrame>> {
    match AssembleFrom(packets, None)
    case Err => Err
    case Ok(bytes) =>
      match DecryptFrame(c, sif, bytes)
      case Err => Err
      case Ok(Injected) => Ok(Some(DecryptedFrame([], timestamp, false)))
      case Ok(Opened(frame, keyframe)) => Ok(Some(DecryptedFrame(frame, timestamp, keyframe)))
  }

  class Assembler {
    var pendingPackets: map<nat, seq<Packet>>
    var fuaState: Option<Fua>
    const cipher: Cipher
    const sif: Option<Bytes>
    ghost var history: seq<Packet>

    ghost predicate Valid()
      reads this
    {
      forall t: nat :: Queue(pendingPackets, t) == Pending(history, t)
    }

    constructor (cipher: Cipher, sif: Option<Bytes>)
      ensures Valid() && history == [] && this.cipher == cipher && this.sif == sif
    {
      this.cipher, this.sif := cipher, sif;
      pendingPackets, fuaState, history := map[], None, [];
    }

    /** The frame is complete when its marker packet arrives; until then the packet waits. */
    method AddPacket(p: Packet) returns (r: Result<Option<DecryptedFrame>>)
      requires Valid()
      modifies this
      ensures Valid() && history == old(history) + [p]
      ensures p.payload == [] || !p.marker ==> r == Ok(None)
      ensures p.payload != [] && p.marker ==>
        exists sorted :: IsSorting(sorted, Pending(old(history), p.timestamp) + [p])
          && r == Deliver(cipher, sif, sorted, p.timestamp)
    {
      history := history + [p];
      assert history[..|history| - 1] == old(history);
      if |p.payload| == 0 {
        return Ok(None);
      }
      var packets := Queue(pendingPackets, p.timestamp) + [p];
      if !p.marker {
        pendingPackets := pendingPackets[p.timestamp := packets];
        return Ok(None);
      }
      pendingPackets := pendingPackets - {p.timestamp};
      var sorted := SortBySeq(packets);
      var bytes := AssembleAnnexB(sorted);
      if bytes.Err? {
        return Err;
      }
      var plain := DecryptVideoFrame(cipher, sif, bytes.value);
      match plain
      case Err => r := Err;
      case Ok(Injected) => r := Ok(Some(DecryptedFrame([], p.timestamp, false)));
      case Ok(Opened(frame, keyframe)) => r := Ok(Some(DecryptedFrame(frame, p.timestamp, keyframe)));
    }

    method AssembleAnnexB(packets: seq<Packet>) returns (r: Result<Bytes>)
      modifies this`fuaState
      ensures r == AssembleFrom(packets, None)
    {
      var out: Bytes := [];
      fuaState := None;
      JoinedAssociates([], [], AssembleFrom(packets, None));
      for k := 0 to |packets|
        invariant Joined(out, AssembleFrom(packets[k..], fuaState)) == AssembleFrom(packets, None)
      {
        assert packets[k..][0] == packets[k] && packets[k..][1..] == packets[k + 1..];
        var step := ProcessPacket(fuaState, packets[k].payload);
        if step.Err? {
          return Err;
        }
        JoinedAssociates(out, step.value.out, AssembleFrom(packets[k + 1..], step.value.state));
        out := out + step.value.out;
        fuaState := step.value.state;
      }
      assert out + [] == out;
      r := Ok(out);
    }
  }

  // ---------- Any arrival order ----------

  /** The non-empty packets of timestamp `t`, in arrival order. */
  function Arrivals(history: seq<Packet>, t: nat): seq<Packet> {
    if history == [] then []
    else
      var p := history[|history| - 1];
      Arrivals(history[..|history| - 1], t) + (if p.payload != [] && p.timestamp == t then [p] else [])
  }

  lemma {:induction false} PendingIsArrivals(history: seq<Packet>, t: nat)
    requires forall k :: 0 <= k < |Arrivals(history, t)| ==> !Arrivals(history, t)[k].marker
    ensures Pending(history, t) == Arrivals(history, t)
    decreases |history|
  {
    if history != [] {
      var p := history[|history| - 1];
      var before := Arrivals(history[..|history| - 1], t);
      assert forall k :: 0 <= k < |before| ==> before[k] == Arrivals(history, t)[k];
      if p.payload != [] && p.timestamp == t {
        assert Arrivals(history, t)[|before|] == p;
      }
      PendingIsArrivals(history[..|history| - 1], t);
    }
  }

  /** A packet of a frame that is not its last carries no marker. */
  lemma OnlyLastMarked(sent: seq<Packet>, arrived: seq<Packet>)
    requires sent != [] && MarkedLast(sent, true) && multiset(arrived) == multiset(sent[..|sent| - 1])
    ensures forall k :: 0 <= k < |arrived| ==> !arrived[k].marker
  {
    forall k | 0 <= k < |arrived|
      ensures !arrived[k].marker
    {
      assert arrived[k] in multiset(sent[..|sent| - 1]);
    }
  }

  lemma AllPending(history: seq<Packet>, sent: seq<Packet>, timestamp: nat)
    requires sent != [] && MarkedLast(sent, true)
    requires multiset(Arrivals(history, timestamp)) == multiset(sent[..|sent| - 1])
    ensures multiset(Pending(history, timestamp) + [sent[|sent| - 1]]) == multiset(sent)
  {
    var front, last := sent[..|sent| - 1], sent[|sent| - 1];
    assert Pending(history, timestamp) == Arrivals(history, timestamp) by {
      OnlyLastMarked(sent, Arrivals(history, timestamp));
      PendingIsArrivals(history, timestamp);
    }
    assert sent == front + [last];
  }

  // ---------- Sequence numbers that wrap ----------

  /** After how many packets the sequence number wraps; 0 if it does not. */
  function Wrap(seqNum: nat, n: nat): nat
    requires seqNum < SEQ
  {
    if seqNum + n <= SEQ then 0 else SEQ - seqNum
  }

  function Rotated<T>(s: seq<T>, k: nat): seq<T>
    requires k <= |s|
  {
    s[k..] + s[..k]
  }

  lemma {:induction false} IncreasingByIndex(ps: seq<Packet>)
    requires forall i, j :: 0 <= i < j < |ps| ==> ps[i].seqNum < ps[j].seqNum
    ensures StrictlyIncreasing(ps)
    decreases |ps|
  {
    if ps != [] {
      IncreasingByIndex(ps[1..]);
      forall q | q in multiset(ps[1..])
        ensures ps[0].seqNum < q.seqNum
      {
        assert q in ps[1..];
      }
    }
  }

  lemma RotatedIncreases(sent: seq<Packet>, timestamp: nat, seqNum: nat)
    requires InRun(sent, timestamp, seqNum) && seqNum < SEQ && |sent| <= SEQ
    ensures Wrap(seqNum, |sent|) <= |sent| && StrictlyIncreasing(Rotated(sent, Wrap(seqNum, |sent|)))
  {
    var k := Wrap(seqNum, |sent|);
    var r := Rotated(sent, k);
    forall i | 0 <= i < |sent|
      ensures sent[i].seqNum == (seqNum + i) % SEQ
    {
      assert RunPacket(sent[i], timestamp, (seqNum + i) % SEQ);
    }
    IncreasingByIndex(r);
  }

  lemma RotatedContents<T>(s: seq<T>, k: nat)
    requires k <= |s|
    ensures multiset(Rotated(s, k)) == multiset(s)
  {
    assert s == s[..k] + s[k..];
  }

  /** Sorting a run of packets gives it back, rotated to where the sequence number wraps. */
  lemma SortedIsRotated(sent: seq<Packet>, timestamp: nat, seqNum: nat, sorted: seq<Packet>)
    requires InRun(sent, timestamp, seqNum) && seqNum < SEQ && |sent| <= SEQ && IsSorting(sorted, sent)
    ensures Wrap(seqNum, |sent|) <= |sent| && sorted == Rotated(sent, Wrap(seqNum, |sent|))
  {
    var k := Wrap(seqNum, |sent|);
    RotatedIncreases(sent, timestamp, seqNum);
    RotatedContents(sent, k);
    SortingIsUnique(sorted, Rotated(sent, k));
  }

  /** The packets of a frame have arrived in any order but for the marker, among packets of other frames. */
  predicate Arrived(history: seq<Packet>, sent: seq<Packet>, timestamp: nat) {
    sent != [] && multiset(Arrivals(history, timestamp)) == multiset(sent[..|sent| - 1])
  }

  /** Without a wrap, sorting what has arrived gives back what was sent. */
  lemma SortedIsSent(history: seq<Packet>, sent: seq<Packet>, timestamp: nat, seqNum: nat, sorted: seq<Packet>)
    requires InRun(sent, timestamp, seqNum) && MarkedLast(sent, true) && seqNum < SEQ && |sent| <= SEQ
    requires Arrived(history, sent, timestamp) && IsSorting(sorted, Pending(history, timestamp) + [sent[|sent| - 1]])
    ensures Wrap(seqNum, |sent|) <= |sent| && sorted == Rotated(sent, Wrap(seqNum, |sent|))
    ensures seqNum + |sent| <= SEQ ==> sorted == sent
  {
    AllPending(history, sent, timestamp);
    SortedIsRotated(sent, timestamp, seqNum, sorted);
    assert sent[0..] + sent[..0] == sent;
  }

  /**
   * However the packets of a frame arrive, with the marker last: what the assembler puts together is the units behind
   * the wrap of the sequence number and then those before it, without the unit the wrap falls into.
   */
  lemma AnyOrderAssembles(history: seq<Packet>, groups: seq<Group>, timestamp: nat, seqNum: nat, sent: seq<Packet>,
      sorted: seq<Packet>)
    requires SendableGroups(groups) && sent == Packetize(groups, timestamp, seqNum) && seqNum < SEQ && |sent| <= SEQ
    requires Arrived(history, sent, timestamp) && IsSorting(sorted, Pending(history, timestamp) + [sent[|sent| - 1]])
    ensures var k := Wrap(seqNum, |sent|);
      AssembleFrom(sorted, None) == Ok(Frame(Exchanged(groups, k)))
  {
    PacketizeIsNumbered(groups, timestamp, seqNum);
    SortedIsSent(history, sent, timestamp, seqNum, sorted);
    RotatedAssembles(groups, timestamp, seqNum, Wrap(seqNum, |sent|));
  }

  predicate AllClosed(nals: seq<Bytes>) {
    forall k :: 0 <= k < |nals| ==> Closed(nals[k])
  }

  lemma ClosedIsSound(nals: seq<Bytes>)
    requires AllClosed(nals)
    ensures Sound(nals)
  {
    if nals != [] {
      ClosedIsOpen(nals[|nals| - 1]);
    }
  }

  /** Units without start codes can be told from their frame. */
  lemma SameFrame(a: seq<Bytes>, b: seq<Bytes>)
    requires AllClosed(a) && AllClosed(b)
    ensures Frame(a) == Frame(b) <==> a == b
  {
    ClosedIsSound(a);
    ClosedIsSound(b);
    UnitsOfFrame(a);
    UnitsOfFrame(b);
  }

  /** The units put together, first those behind the wrap. */
  function Exchanged(groups: seq<Group>, k: nat): seq<Bytes>
    requires SendableGroups(groups)
  {
    UnitsAfter(groups, k) + UnitsBefore(groups, k)
  }

  lemma ExchangedIsClosed(groups: seq<Group>, k: nat)
    requires SendableGroups(groups) && AllClosed(AllUnits(groups))
    ensures AllClosed(Exchanged(groups, k))
  {
    forall i | 0 <= i < |Exchanged(groups, k)|
      ensures Closed(Exchanged(groups, k)[i])
    {
      var nal := Exchanged(groups, k)[i];
      assert nal in UnitsAfter(groups, k) || nal in UnitsBefore(groups, k);
      PartsAreUnits(groups, k, nal);
    }
  }

  /**
   * The frame is rebuilt if and only if the sequence number wraps between two groups, if at all, and the units before
   * and behind the wrap can be exchanged without a difference.
   */
  lemma RebuildsIff(history: seq<Packet>, groups: seq<Group>, timestamp: nat, seqNum: nat, sent: seq<Packet>, sorted: seq<Packet>)
    requires SendableGroups(groups) && sent == Packetize(groups, timestamp, seqNum) && seqNum < SEQ && |sent| <= SEQ
    requires Arrived(history, sent, timestamp) && IsSorting(sorted, Pending(history, timestamp) + [sent[|sent| - 1]])
    requires AllClosed(AllUnits(groups))
    ensures var k := Wrap(seqNum, |sent|); var before, after := UnitsBefore(groups, k), UnitsAfter(groups, k);
      AssembleFrom(sorted, None) == Ok(Frame(AllUnits(groups))) <==> Between(groups, k) && after + before == before + after
  {
    var k := Wrap(seqNum, |sent|);
    AnyOrderAssembles(history, groups, timestamp, seqNum, sent, sorted);
    TotalIs(groups, timestamp, seqNum);
    CutUnits(groups, k);
    ExchangedIsClosed(groups, k);
    SameFrame(Exchanged(groups, k), AllUnits(groups));
  }

  lemma GroupNotEmpty(g: Group)
    requires SendableGroup(g)
    ensures UnitsOf(g) != []
  {
    if g.Aggregated? {
      assert StapBody([]) == Some([]);
    }
  }

  lemma BeforeIsPart(groups: seq<Group>, k: nat)
    requires SendableGroups(groups) && k > 0 && Between(groups, k) && groups != []
    ensures UnitsBefore(groups, k) != []
  {
    GroupNotEmpty(groups[0]);
  }

  /** The first unit does not come again, as an access unit delimiter or parameter set does not. */
  predicate FirstIsUnique(nals: seq<Bytes>) {
    nals != [] && forall i :: 0 < i < |nals| ==> nals[i] != nals[0]
  }

  lemma NoExchange(before: seq<Bytes>, after: seq<Bytes>)
    requires before != [] && after != [] && FirstIsUnique(before + after)
    ensures after + before != before + after
  {
    assert (before + after)[|before|] == after[0];
  }

  /** For a frame whose first unit is unique: it is rebuilt if and only if the sequence number does not wrap. */
  lemma AnyOrderRebuilds(history: seq<Packet>, groups: seq<Group>, timestamp: nat, seqNum: nat, sent: seq<Packet>,
      sorted: seq<Packet>)
    requires SendableGroups(groups) && sent == Packetize(groups, timestamp, seqNum) && seqNum < SEQ && |sent| <= SEQ
    requires Arrived(history, sent, timestamp) && IsSorting(sorted, Pending(history, timestamp) + [sent[|sent| - 1]])
    requires AllClosed(AllUnits(groups)) && FirstIsUnique(AllUnits(groups))
    ensures AssembleFrom(sorted, None) == Ok(Frame(AllUnits(groups))) <==> seqNum + |sent| <= SEQ
  {
    var k := Wrap(seqNum, |sent|);
    var before, after := UnitsBefore(groups, k), UnitsAfter(groups, k);
    RebuildsIff(history, groups, timestamp, seqNum, sent, sorted);
    TotalIs(groups, timestamp, seqNum);
    if k == 0 {
      WholeIsAfter(groups);
      assert after + [] == [] + after;
    } else if Between(groups, k) {
      CutUnits(groups, k);
      BeforeIsPart(groups, k);
      AfterIsPart(groups, k);
      NoExchange(before, after);
    }
  }

  lemma WholeIsAfter(groups: seq<Group>)
    requires SendableGroups(groups)
    ensures UnitsBefore(groups, 0) == [] && UnitsAfter(groups, 0) == AllUnits(groups)
  {
    if groups != [] {
      PacketsCount(groups[0], 0, 0, false);
    }
  }

  lemma {:induction false} AfterIsPart(groups: seq<Group>, k: nat)
    requires SendableGroups(groups) && Between(groups, k) && k < PacketTotal(groups)
    ensures UnitsAfter(groups, k) != []
    decreases |groups|
  {
    if k == 0 {
      BeforeIsPart(groups, Packets(groups[0])) by { PacketsCount(groups[0], 0, 0, false); }
    } else {
      AfterIsPart(groups[1..], k - Packets(groups[0]));
    }
  }

  lemma OneWhole(nal: Bytes)
    requires Sendable(nal)
    ensures SendableGroups([Whole(nal)]) && PacketTotal([Whole(nal)]) == 1
    ensures AllUnits([Whole(nal)]) == [nal] && UnitsBefore([Whole(nal)], 0) == []
  {
    assert [Whole(nal)][1..] == [];
    assert AllUnits([]) == [] && [nal] + [] == [nal];
  }

  lemma TwoUnits(a: Bytes, b: Bytes, groups: seq<Group>)
    requires Sendable(a) && Sendable(b) && groups == [Whole(a), Whole(b)]
    ensures SendableGroups(groups) && PacketTotal(groups) == 2
    ensures UnitsBefore(groups, 1) == [a] && UnitsAfter(groups, 1) == [b]
  {
    OneWhole(b);
    assert groups[1..] == [Whole(b)];
    assert SendableGroup(groups[0]) && SendableGroup(groups[1]);
    assert [a] + [] == [a];
  }

  /** Two whole units with the wrap between them: the second comes out first. */
  lemma WrapSwapsUnits(a: Bytes, b: Bytes, timestamp: nat, seqNum: nat, groups: seq<Group>, sent: seq<Packet>, sorted: seq<Packet>)
    requires Sendable(a) && Sendable(b) && seqNum + 1 == SEQ && groups == [Whole(a), Whole(b)] && SendableGroups(groups)
    requires sent == Packetize(groups, timestamp, seqNum) && IsSorting(sorted, sent)
    ensures AssembleFrom(sorted, None) == Ok(Frame([b, a]))
  {
    TwoUnits(a, b, groups);
    TotalIs(groups, timestamp, seqNum);
    PacketizeIsNumbered(groups, timestamp, seqNum);
    SortedIsRotated(sent, timestamp, seqNum, sorted);
    RotatedAssembles(groups, timestamp, seqNum, 1);
    assert [b] + [a] == [b, a];
  }
}
