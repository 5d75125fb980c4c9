/** FU-A reassembly under loss and reordering: EncryptedH264Depacketizer of e2ee_h264.go. */
module FuaDepacketizer {
  import opened Common
  import opened H264Rtp

  datatype State = State(buffer: Bytes, lastSeq: nat, hasLastSeq: bool, assemblyTs: nat, hasAssembly: bool)

  const INITIAL := State([], 0, false, 0, false)

  /** The new state and the NAL unit a fragment completed, if any. */
  datatype Step = Step(state: State, nal: Option<Bytes>)

  predicate IsFragment(p: Packet) {
    |p.payload| >= 2 && p.payload[0] % 32 == TYPE_FUA
  }

  predicate IsStart(p: Packet) {
    IsFragment(p) && p.payload[1] >= 0x80
  }

  predicate IsEnd(p: Packet) {
    IsFragment(p) && p.payload[1] / 64 % 2 == 1
  }

  function Body(p: Packet): Bytes {
    if IsFragment(p) then p.payload[2..] else []
  }

  function NextSeq(seqNum: nat): nat {
    (seqNum + 1) % SEQ
  }

  /** Sequence and timestamp tracking, which every non-empty packet goes through. */
  function Track(st: State, p: Packet): State {
    var kept := if st.hasLastSeq && p.seqNum != NextSeq(st.lastSeq) then st.(buffer := [], hasAssembly := false) else st;
    var seen := kept.(lastSeq := p.seqNum, hasLastSeq := true);
    if seen.hasAssembly && p.timestamp != seen.assemblyTs then seen.(buffer := [], hasAssembly := false) else seen
  }

  function Fragment(st: State, p: Packet): Step
    requires IsFragment(p)
  {
    var begun := if IsStart(p) then st.(buffer := [], assemblyTs := p.timestamp, hasAssembly := true) else st;
    if !begun.hasAssembly then Step(begun, None)
    else
      var buffer := begun.buffer + p.payload[2..];
      if IsEnd(p) then
        Step(begun.(buffer := [], hasAssembly := false), Some([Nri(p.payload[0]) + p.payload[1] % 32] + buffer))
      else Step(begun.(buffer := buffer), None)
  }

  function Process(st: State, p: Packet): Step {
    if p.payload == [] then Step(st, None)
    else if IsFragment(p) then Fragment(Track(st, p), p)
    else Step(Track(st, p), None)
  }

  /** What a call returns; `decrypt` is the frame decryption, the empty string Go's nil. */
  function Returned(decrypt: Bytes -> Result<Bytes>, st: State, p: Packet): Result<Bytes> {
    if p.payload == [] then Ok([])
    else
      var nalType := p.payload[0] % 32;
      if 1 <= nalType <= 23 then decrypt(p.payload)
      else if nalType == TYPE_STAPA then Ok(p.payload)
      else if nalType != TYPE_FUA || |p.payload| < 2 then Err
      else
        match Process(st, p).nal
        case None => Ok([])
        case Some(nal) => decrypt(nal)
  }

  class Depacketizer {
    var fuaBuffer: Bytes
    var lastSeq: nat
    var hasLastSeq: bool
    var assemblyTs: nat
    var hasAssembly: bool
    const decrypt: Bytes -> Result<Bytes>

    function Now(): State
      reads this
    {
      State(fuaBuffer, lastSeq, hasLastSeq, assemblyTs, hasAssembly)
    }

    constructor (decrypt: Bytes -> Result<Bytes>)
      ensures Now() == INITIAL && this.decrypt == decrypt
    {
      this.decrypt := decrypt;
      fuaBuffer, lastSeq, hasLastSeq, assemblyTs, hasAssembly := [], 0, false, 0, false;
    }

    method ProcessRtp(p: Packet) returns (r: Result<Bytes>)
      modifies this
      ensures Now() == Process(old(Now()), p).state
      ensures r == Returned(decrypt, old(Now()), p)
    {
      if |p.payload| == 0 {
        return Ok([]);
      }
      if hasLastSeq {
        if p.seqNum != NextSeq(lastSeq) {
          ResetAssembly();
        }
      }
      lastSeq := p.seqNum;
      hasLastSeq := true;
      if hasAssembly && p.timestamp != assemblyTs {
        ResetAssembly();
      }
      var nalType := p.payload[0] % 32;
      if 1 <= nalType <= 23 {
        r := decrypt(p.payload);
      } else if nalType == TYPE_STAPA {
        r := Ok(p.payload);
      } else if nalType == TYPE_FUA {
        r := ProcessFua(p);
      } else {
        r := Err;
      }
    }

    method ProcessFua(p: Packet) returns (r: Result<Bytes>)
      requires |p.payload| >= 1 && p.payload[0] % 32 == TYPE_FUA
      modifies this
      ensures |p.payload| < 2 ==> Now() == old(Now()) && r == Err
      ensures |p.payload| >= 2 ==> Now() == Fragment(old(Now()), p).state
      ensures |p.payload| >= 2 ==> r == match Fragment(old(Now()), p).nal case None => Ok([]) case Some(nal) => decrypt(nal)
    {
      if |p.payload| < 2 {
        return Err;
      }
      var indicator, header := p.payload[0], p.payload[1];
      if header >= 0x80 {
        ResetAssembly();
        assemblyTs := p.timestamp;
        hasAssembly := true;
      }
      if !hasAssembly {
        return Ok([]);
      }
      fuaBuffer := fuaBuffer + p.payload[2..];
      if header / 64 % 2 == 1 {
        var nal: Bytes := [Nri(indicator) + header % 32] + fuaBuffer;
        ResetAssembly();
        r := decrypt(nal);
        return;
      }
      return Ok([]);
    }

    method ResetAssembly()
      modifies this`fuaBuffer, this`hasAssembly
      ensures fuaBuffer == [] && !hasAssembly
    {
      fuaBuffer := [];
      hasAssembly := false;
    }
  }

  // ---------- Whole runs ----------

  /** The state after the non-empty packets `heard`, in arrival order, with any loss and reordering. */
  function After(heard: seq<Packet>): State
    decreases |heard|
  {
    if heard == [] then INITIAL else Process(After(heard[..|heard| - 1]), heard[|heard| - 1]).state
  }

  /** The NAL unit the last of the packets completes. */
  function Completed(heard: seq<Packet>): Option<Bytes> {
    if heard == [] then None else Process(After(heard[..|heard| - 1]), heard[|heard| - 1]).nal
  }

  predicate NonEmptyPayloads(heard: seq<Packet>) {
    forall k :: 0 <= k < |heard| ==> heard[k].payload != []
  }

  /** From `s` on: consecutive sequence numbers modulo 2^16 and one timestamp. */
  predicate Contiguous(heard: seq<Packet>, s: nat) {
    forall k :: s < k < |heard| ==> Follows(heard, k) && heard[k].timestamp == heard[s].timestamp
  }

  predicate Follows(heard: seq<Packet>, k: nat)
    requires 0 < k < |heard|
  {
    heard[k].seqNum == NextSeq(heard[k - 1].seqNum)
  }

  /** A start fragment at `s`, nothing but contiguous packets after it, no further start and no end. */
  predicate OpenSince(heard: seq<Packet>, s: nat) {
    s < |heard| && IsStart(heard[s]) && !IsEnd(heard[s]) && Contiguous(heard, s) && AllInner(heard, s)
  }

  predicate AllInner(heard: seq<Packet>, s: nat) {
    forall k :: s < k < |heard| ==> Inner(heard[k])
  }

  predicate Inner(p: Packet) {
    !IsStart(p) && !IsEnd(p)
  }

  /** A whole span `[s, |heard|)`: opened by a start fragment, closed by an end fragment, contiguous in between. */
  predicate Span(heard: seq<Packet>, s: nat) {
    s < |heard| && IsStart(heard[s]) && IsEnd(heard[|heard| - 1]) && Contiguous(heard, s)
    && (forall k :: s < k < |heard| ==> !IsStart(heard[k])) && (forall k :: s <= k < |heard| - 1 ==> !IsEnd(heard[k]))
  }

  function Bodies(ps: seq<Packet>): Bytes {
    if ps == [] then [] else Bodies(ps[..|ps| - 1]) + Body(ps[|ps| - 1])
  }

  /** The NAL unit a span spells: the header rebuilt from the end fragment and all fragment bodies. */
  function SpanNal(heard: seq<Packet>, s: nat): Bytes
    requires Span(heard, s)
  {
    Spelled(heard[|heard| - 1], heard[s..])
  }

  function Spelled(last: Packet, ps: seq<Packet>): Bytes
    requires IsFragment(last)
  {
    [Nri(last.payload[0]) + last.payload[1] % 32] + Bodies(ps)
  }

  /** What the state says about the packets heard. */
  ghost predicate Explains(heard: seq<Packet>, st: State) {
    && st.hasLastSeq == (heard != [])
    && (heard != [] ==> st.lastSeq == heard[|heard| - 1].seqNum)
    && (!st.hasAssembly ==> st.buffer == [] && forall s :: !OpenSince(heard, s))
    && (st.hasAssembly ==> exists s :: OpenSince(heard, s) && OpenState(heard, s, st))
  }

  predicate OpenState(heard: seq<Packet>, s: nat, st: State)
    requires s < |heard|
  {
    st.assemblyTs == heard[s].timestamp && st.buffer == Bodies(heard[s..])
  }

  /** The next packet in sequence, with the timestamp of the assembly open since `s`. */
  predicate Continues(heard: seq<Packet>, s: nat, p: Packet)
    requires s < |heard|
  {
    p.seqNum == NextSeq(heard[|heard| - 1].seqNum) && p.timestamp == heard[s].timestamp
  }

  lemma BodiesStep(heard: seq<Packet>, p: Packet, s: nat)
    requires s < |heard|
    ensures Bodies((heard + [p])[s..]) == Bodies(heard[s..]) + Body(p)
  {
    assert (heard + [p])[s..] == heard[s..] + [p];
    assert (heard[s..] + [p])[..|heard| - s] == heard[s..];
  }

  lemma ContiguousStep(heard: seq<Packet>, p: Packet, s: nat)
    requires s < |heard|
    ensures Contiguous(heard + [p], s) <==> Contiguous(heard, s) && Continues(heard, s, p)
  {
    var all := heard + [p];
    assert forall k :: 0 < k < |heard| ==> Follows(all, k) == Follows(heard, k) && all[k] == heard[k];
    if Contiguous(all, s) {
      assert Follows(all, |heard|) && all[|heard|] == p;
    }
  }

  lemma InnerStep(heard: seq<Packet>, p: Packet, s: nat)
    requires s < |heard|
    ensures AllInner(heard + [p], s) <==> AllInner(heard, s) && Inner(p)
  {
    var all := heard + [p];
    assert all[|heard|] == p && forall k :: 0 <= k < |heard| ==> all[k] == heard[k];
  }

  /** One more packet keeps an open assembly open, or closes it. */
  lemma OpenSinceStep(heard: seq<Packet>, p: Packet, s: nat)
    requires s < |heard|
    ensures OpenSince(heard + [p], s) <==> OpenSince(heard, s) && Continues(heard, s, p) && Inner(p)
  {
    ContiguousStep(heard, p, s);
    InnerStep(heard, p, s);
  }

  /** Behind the last packet of a span there is an open assembly, unless it is its first. */
  lemma SpanStep(heard: seq<Packet>, p: Packet, s: nat)
    requires s < |heard|
    ensures Span(heard + [p], s) <==> OpenSince(heard, s) && Continues(heard, s, p) && IsEnd(p) && !IsStart(p)
  {
    ContiguousStep(heard, p, s);
    var all := heard + [p];
    assert all[|heard|] == p && forall k :: 0 <= k < |heard| ==> all[k] == heard[k];
    if Span(all, s) {
      assert AllInner(heard, s);
    }
    if OpenSince(heard, s) {
      assert forall k :: s < k < |heard| ==> Inner(all[k]);
    }
  }

  lemma OpenSinceLast(heard: seq<Packet>, p: Packet)
    ensures OpenSince(heard + [p], |heard|) <==> IsStart(p) && !IsEnd(p)
    ensures Span(heard + [p], |heard|) <==> IsStart(p) && IsEnd(p)
    ensures (heard + [p])[|heard|..] == [p] && Bodies([p]) == Body(p)
  {
    assert (heard + [p])[|heard|..] == [p];
    assert [p][..0] == [];
  }

  /** Two starts cannot both be open. */
  lemma OpenSinceUnique(heard: seq<Packet>, s: nat, t: nat)
    requires OpenSince(heard, s) && OpenSince(heard, t)
    ensures s == t
  {
    assert !IsStart(heard[t]) || s >= t;
  }

  /** Whatever was open is discarded by a packet that does not continue it, and kept by one that does. */
  lemma TrackExplains(heard: seq<Packet>, st: State, p: Packet)
    requires Explains(heard, st)
    ensures Track(st, p).hasAssembly <==> exists s :: OpenSince(heard, s) && Continues(heard, s, p)
    ensures forall s :: OpenSince(heard, s) && Continues(heard, s, p) ==> OpenState(heard, s, Track(st, p))
    ensures !Track(st, p).hasAssembly ==> Track(st, p).buffer == []
  {
    if st.hasAssembly {
      var s: nat :| OpenSince(heard, s) && OpenState(heard, s, st);
      forall t | OpenSince(heard, t)
        ensures t == s
      {
        OpenSinceUnique(heard, s, t);
      }
    }
  }

  /** Only at `s` an assembly can be open, or a span have begun. */
  ghost predicate OnlyAt(heard: seq<Packet>, s: nat) {
    forall t :: OpenSince(heard, t) || Span(heard, t) ==> t == s
  }

  ghost predicate Nothing(heard: seq<Packet>) {
    forall s :: !OpenSince(heard, s) && !Span(heard, s)
  }

  /** The state explains what was heard, and a NAL unit was completed exactly if that ends in a span. */
  ghost predicate Told(heard: seq<Packet>, step: Step) {
    Explains(heard, step.state) && (step.nal.Some? <==> exists s :: Span(heard, s))
    && forall s :: Span(heard, s) ==> step.nal == Some(SpanNal(heard, s))
  }

  lemma StartIsOnly(heard: seq<Packet>, p: Packet)
    requires IsStart(p)
    ensures OnlyAt(heard + [p], |heard|)
  {
    forall s: nat | OpenSince(heard + [p], s) || Span(heard + [p], s)
      ensures s == |heard|
    {
      if s < |heard| {
        OpenSinceStep(heard, p, s);
        SpanStep(heard, p, s);
      }
    }
  }

  lemma ContinuedIsOnly(heard: seq<Packet>, p: Packet, s: nat)
    requires !IsStart(p) && OpenSince(heard, s)
    ensures OnlyAt(heard + [p], s)
  {
    forall t: nat | OpenSince(heard + [p], t) || Span(heard + [p], t)
      ensures t == s
    {
      OpenSinceLast(heard, p);
      if t < |heard| {
        OpenSinceStep(heard, p, t);
        SpanStep(heard, p, t);
        OpenSinceUnique(heard, s, t);
      }
    }
  }

  lemma NothingContinued(heard: seq<Packet>, p: Packet)
    requires !IsStart(p) && forall s :: !(OpenSince(heard, s) && Continues(heard, s, p))
    ensures Nothing(heard + [p])
  {
    forall s: nat
      ensures !OpenSince(heard + [p], s) && !Span(heard + [p], s)
    {
      OpenSinceLast(heard, p);
      if s < |heard| {
        OpenSinceStep(heard, p, s);
        SpanStep(heard, p, s);
      }
    }
  }

  /** A span has ended: its NAL unit is complete and nothing is under assembly. */
  lemma ToldEnd(heard: seq<Packet>, s: nat, step: Step)
    requires Span(heard, s) && OnlyAt(heard, s) && !OpenSince(heard, s) && step.nal == Some(SpanNal(heard, s))
    requires step.state.hasLastSeq && step.state.lastSeq == heard[|heard| - 1].seqNum
    requires !step.state.hasAssembly && step.state.buffer == []
    ensures Told(heard, step)
  {
  }

  /** An assembly is open. */
  lemma ToldOpen(heard: seq<Packet>, s: nat, step: Step)
    requires OpenSince(heard, s) && OnlyAt(heard, s) && !Span(heard, s) && step.nal == None
    requires step.state.hasLastSeq && step.state.lastSeq == heard[|heard| - 1].seqNum
    requires step.state.hasAssembly && OpenState(heard, s, step.state)
    ensures Told(heard, step)
  {
  }

  lemma ToldNothing(heard: seq<Packet>, step: Step)
    requires heard != [] && Nothing(heard) && step.nal == None
    requires step.state.hasLastSeq && step.state.lastSeq == heard[|heard| - 1].seqNum
    requires !step.state.hasAssembly && step.state.buffer == []
    ensures Told(heard, step)
  {
  }

  lemma StartExplains(heard: seq<Packet>, st: State, p: Packet)
    requires IsStart(p)
    ensures Told(heard + [p], Process(st, p))
  {
    var all := heard + [p];
    OpenSinceLast(heard, p);
    StartIsOnly(heard, p);
    assert [] + p.payload[2..] == Body(p);
    if IsEnd(p) {
      ToldEnd(all, |heard|, Process(st, p));
    } else {
      ToldOpen(all, |heard|, Process(st, p));
    }
  }

  lemma ContinuedExplains(heard: seq<Packet>, st: State, p: Packet, s: nat)
    requires OpenSince(heard, s) && Continues(heard, s, p) && p.payload != [] && !IsStart(p)
    requires Track(st, p).hasAssembly && OpenState(heard, s, Track(st, p))
    ensures Told(heard + [p], Process(st, p))
  {
    var all := heard + [p];
    ContinuedIsOnly(heard, p, s);
    OpenSinceStep(heard, p, s);
    SpanStep(heard, p, s);
    BodiesStep(heard, p, s);
    if IsEnd(p) {
      ToldEnd(all, s, Process(st, p));
    } else {
      assert all[s] == heard[s];
      assert !IsFragment(p) ==> Bodies(heard[s..]) + [] == Bodies(heard[s..]);
      ToldOpen(all, s, Process(st, p));
    }
  }

  /** One packet: the state keeps explaining what was heard, and completes exactly the spans. */
  lemma ProcessExplains(heard: seq<Packet>, st: State, p: Packet)
    requires Explains(heard, st) && p.payload != []
    ensures Told(heard + [p], Process(st, p))
  {
    if IsStart(p) {
      StartExplains(heard, st, p);
    } else {
      TrackExplains(heard, st, p);
      if Track(st, p).hasAssembly {
        var s: nat :| OpenSince(heard, s) && Continues(heard, s, p);
        ContinuedExplains(heard, st, p, s);
      } else {
        NothingContinued(heard, p);
        ToldNothing(heard + [p], Process(st, p));
      }
    }
  }

  lemma {:induction false} AfterExplains(heard: seq<Packet>)
    requires NonEmptyPayloads(heard)
    ensures Explains(heard, After(heard))
    decreases |heard|
  {
    if heard != [] {
      var before, p := heard[..|heard| - 1], heard[|heard| - 1];
      AfterExplains(before);
      ProcessExplains(before, After(before), p);
      assert before + [p] == heard;
    }
  }

  /**
   * In any run, with any loss and reordering, a NAL unit is completed by FU-A exactly when the packets end in a
   * whole span, and then it is what the span spells.
   */
  lemma CompletedExactlyBySpans(heard: seq<Packet>)
    requires NonEmptyPayloads(heard)
    ensures Completed(heard).Some? <==> exists s :: Span(heard, s)
    ensures forall s :: Span(heard, s) ==> Completed(heard) == Some(SpanNal(heard, s))
  {
    if heard != [] {
      var before, p := heard[..|heard| - 1], heard[|heard| - 1];
      AfterExplains(before);
      ProcessExplains(before, After(before), p);
      assert before + [p] == heard;
    }
  }

  // ---------- Nothing lost: the sender's NAL unit ----------

  lemma {:induction false} BodiesCons(p: Packet, rest: seq<Packet>)
    ensures Bodies([p] + rest) == Body(p) + Bodies(rest)
    decreases |rest|
  {
    var all := [p] + rest;
    if rest == [] {
      assert all[..0] == [] && all == [p];
    } else {
      var init, last := rest[..|rest| - 1], rest[|rest| - 1];
      assert all[..|all| - 1] == [p] + init && all[|all| - 1] == last;
      BodiesCons(p, init);
      assert Body(p) + (Bodies(init) + Body(last)) == (Body(p) + Bodies(init)) + Body(last);
    }
  }

  /** A fragment of `nal`: the header bits in both bytes, S on the first one only, E on the last one only. */
  predicate FragmentOf(nal: Bytes, p: Packet, first: bool, last: bool) {
    nal != [] && IsFragment(p) && Nri(p.payload[0]) == Nri(nal[0]) && p.payload[1] % 32 == nal[0] % 32
    && IsStart(p) == first && (IsEnd(p) ==> last) && (last && !first ==> IsEnd(p))
  }

  lemma OneFragment(nal: Bytes, offset: nat, p: Packet)
    requires |nal| > 1 && offset < |nal| - 1 && p.payload == FuPayload(nal, offset)
    ensures FragmentOf(nal, p, offset == 0, ChunkEnd(|nal| - 1, offset) == |nal| - 1)
    ensures Body(p) == nal[1..][offset..ChunkEnd(|nal| - 1, offset)]
  {
    FuBits(nal[0], if offset == 0 then 0x80 else if ChunkEnd(|nal| - 1, offset) >= |nal| - 1 then 0x40 else 0);
  }

  /** The packets are fragments of `nal`, the first of them its first one if `fromStart`. */
  predicate FragmentsOf(nal: Bytes, ps: seq<Packet>, fromStart: bool) {
    forall k :: 0 <= k < |ps| ==> FragmentOf(nal, ps[k], fromStart && k == 0, k == |ps| - 1)
  }

  lemma {:induction false} FragmentsSpell(nal: Bytes, timestamp: nat, seqNum: nat, offset: nat, isLast: bool)
    requires |nal| > 1 && offset <= |nal| - 1
    ensures Bodies(Fragments(nal, timestamp, seqNum, offset, isLast)) == nal[1..][offset..]
    decreases |nal| - offset
  {
    if offset < |nal| - 1 {
      var end := ChunkEnd(|nal| - 1, offset);
      var first := Packet(FuPayload(nal, offset), seqNum, timestamp, end >= |nal| - 1 && isLast);
      var rest := Fragments(nal, timestamp, (seqNum + 1) % SEQ, end, isLast);
      assert Body(first) == nal[1..][offset..end] by { OneFragment(nal, offset, first); }
      FragmentsSpell(nal, timestamp, (seqNum + 1) % SEQ, end, isLast);
      BodiesCons(first, rest);
      SliceJoin(nal[1..], offset, end);
    }
  }

  lemma SliceJoin(body: Bytes, lo: nat, hi: nat)
    requires lo <= hi <= |body|
    ensures body[lo..hi] + body[hi..] == body[lo..]
  {
  }

  lemma {:induction false} FragmentsAreOf(nal: Bytes, timestamp: nat, seqNum: nat, offset: nat, isLast: bool)
    requires |nal| > 1 && offset <= |nal| - 1
    ensures FragmentsOf(nal, Fragments(nal, timestamp, seqNum, offset, isLast), offset == 0)
    decreases |nal| - offset
  {
    if offset < |nal| - 1 {
      var end := ChunkEnd(|nal| - 1, offset);
      var first := Packet(FuPayload(nal, offset), seqNum, timestamp, end >= |nal| - 1 && isLast);
      var rest := Fragments(nal, timestamp, (seqNum + 1) % SEQ, end, isLast);
      OneFragment(nal, offset, first);
      FragmentsAreOf(nal, timestamp, (seqNum + 1) % SEQ, end, isLast);
      FragmentsOfCons(nal, first, rest, offset == 0);
    }
  }

  lemma FragmentsOfCons(nal: Bytes, first: Packet, rest: seq<Packet>, fromStart: bool)
    requires FragmentOf(nal, first, fromStart, rest == []) && FragmentsOf(nal, rest, false)
    ensures FragmentsOf(nal, [first] + rest, fromStart)
  {
    assert forall k :: 1 <= k < |[first] + rest| ==> ([first] + rest)[k] == rest[k - 1];
  }

  lemma SpanOfFragments(heard: seq<Packet>, ps: seq<Packet>, nal: Bytes, timestamp: nat, seqNum: nat)
    requires |ps| > 1 && InRun(ps, timestamp, seqNum) && FragmentsOf(nal, ps, true)
    ensures Span(heard + ps, |heard|)
  {
    var all, s := heard + ps, |heard|;
    assert forall k :: s <= k < |all| ==> all[k] == ps[k - s];
    forall k | s < k < |all|
      ensures Follows(all, k) && all[k].timestamp == all[s].timestamp
    {
      assert RunPacket(ps[0], timestamp, (seqNum + 0) % SEQ);
      assert RunPacket(ps[k - s], timestamp, (seqNum + (k - s)) % SEQ);
      assert RunPacket(ps[k - s - 1], timestamp, (seqNum + (k - s - 1)) % SEQ);
      AddMod(seqNum + (k - s - 1), 1);
    }
    forall k | s <= k < |all|
      ensures FragmentOf(nal, all[k], k == s, k == |all| - 1)
    {
      assert FragmentOf(nal, ps[k - s], k - s == 0, k - s == |ps| - 1);
    }
  }

  lemma SpanSpells(heard: seq<Packet>, ps: seq<Packet>, nal: Bytes)
    requires |ps| > 1 && FragmentsOf(nal, ps, true) && Bodies(ps) == nal[1..] && nal[0] < 0x80
    requires Span(heard + ps, |heard|)
    ensures SpanNal(heard + ps, |heard|) == nal
  {
    var last := ps[|ps| - 1];
    assert FragmentOf(nal, last, true && |ps| - 1 == 0, true);
    assert Spelled(last, ps) == nal by { LastSpells(ps, last, nal); }
    assert (heard + ps)[|heard|..] == ps;
  }

  lemma LastSpells(ps: seq<Packet>, last: Packet, nal: Bytes)
    requires FragmentOf(nal, last, false, true) && Bodies(ps) == nal[1..] && nal[0] < 0x80
    ensures Spelled(last, ps) == nal
  {
    HeaderIsRebuilt(nal, last);
    assert [nal[0]] + nal[1..] == nal;
  }

  lemma HeaderIsRebuilt(nal: Bytes, p: Packet)
    requires FragmentOf(nal, p, false, true) && nal[0] < 0x80
    ensures Nri(p.payload[0]) + p.payload[1] % 32 == nal[0]
  {
    FuBits(nal[0], 0);
  }

  lemma SeveralFragments(nal: Bytes, timestamp: nat, seqNum: nat, isLast: bool)
    requires |nal| > MTU
    ensures |Fragments(nal, timestamp, seqNum, 0, isLast)| > 1
  {
    assert |Fragments(nal, timestamp, (seqNum + 1) % SEQ, MTU - 2, isLast)| > 0;
  }

  /** A fragmented NAL unit that arrives without loss comes out whole, whatever was heard before. */
  lemma WholeNalCompletes(heard: seq<Packet>, nal: Bytes, timestamp: nat, seqNum: nat, isLast: bool)
    requires NonEmptyPayloads(heard) && Sendable(nal) && |nal| > MTU && seqNum < SEQ
    ensures Completed(heard + Fragments(nal, timestamp, seqNum, 0, isLast)) == Some(nal)
  {
    var ps := Fragments(nal, timestamp, seqNum, 0, isLast);
    FragmentsAreNumbered(nal, timestamp, seqNum, 0, isLast);
    FragmentsSpell(nal, timestamp, seqNum, 0, isLast);
    FragmentsAreOf(nal, timestamp, seqNum, 0, isLast);
    SeveralFragments(nal, timestamp, seqNum, isLast);
    assert nal[1..][0..] == nal[1..];
    SpanWithin(heard, ps, nal, timestamp, seqNum);
  }

  lemma SpanWithin(heard: seq<Packet>, ps: seq<Packet>, nal: Bytes, timestamp: nat, seqNum: nat)
    requires NonEmptyPayloads(heard) && nal != [] && nal[0] < 0x80
    requires |ps| > 1 && InRun(ps, timestamp, seqNum) && FragmentsOf(nal, ps, true) && Bodies(ps) == nal[1..]
    ensures Completed(heard + ps) == Some(nal)
  {
    assert forall k :: 0 <= k < |ps| ==> RunPacket(ps[k], timestamp, (seqNum + k) % SEQ);
    SpanOfFragments(heard, ps, nal, timestamp, seqNum);
    SpanSpells(heard, ps, nal);
    CompletedExactlyBySpans(heard + ps);
  }

  /** What goes on to decryption: a unit sent whole as it is, an aggregation undecrypted; what is no H.264 payload fails. */
  lemma ReturnedByType(decrypt: Bytes -> Result<Bytes>, st: State, p: Packet)
    requires p.payload != [] && p.payload[0] % 32 != 28
    ensures Returned(decrypt, st, p)
      == if 1 <= p.payload[0] % 32 <= 23 then decrypt(p.payload)
         else if p.payload[0] % 32 == 24 then Ok(p.payload) else Err
  {
  }

  /** A fragment without its second header byte fails; one that does not end a unit returns nothing. */
  lemma ReturnedOfFragment(decrypt: Bytes -> Result<Bytes>, st: State, p: Packet)
    requires p.payload != [] && p.payload[0] % 32 == 28
    ensures |p.payload| == 1 ==> Returned(decrypt, st, p) == Err
    ensures |p.payload| > 1 && p.payload[1] / 64 % 2 == 0 ==> Returned(decrypt, st, p) == Ok([])
  {
  }

  /** And a fragmented unit once its last fragment has come, whatever was heard before; until then nothing is returned. */
  lemma FragmentedIsDecrypted(decrypt: Bytes -> Result<Bytes>, heard: seq<Packet>, nal: Bytes, timestamp: nat, seqNum: nat,
      isLast: bool, ps: seq<Packet>)
    requires NonEmptyPayloads(heard) && Sendable(nal) && |nal| > 1200 && seqNum < 0x1_0000
    requires ps == Fragments(nal, timestamp, seqNum, 0, isLast)
    ensures ps != [] && Returned(decrypt, After(heard + ps[..|ps| - 1]), ps[|ps| - 1]) == decrypt(nal)
    ensures forall st: State, k :: 0 <= k < |ps| - 1 ==> Returned(decrypt, st, ps[k]) == Ok([])
  {
    WholeNalCompletes(heard, nal, timestamp, seqNum, isLast);
    SeveralFragments(nal, timestamp, seqNum, isLast);
    FragmentsAreOf(nal, timestamp, seqNum, 0, isLast);
    var n := |ps| - 1;
    assert FragmentOf(nal, ps[n], false, true);
    forall st: State, k | 0 <= k < n
      ensures Returned(decrypt, st, ps[k]) == Ok([])
    {
      assert FragmentOf(nal, ps[k], k == 0, false);
    }
    assert (heard + ps)[..|heard + ps| - 1] == heard + ps[..n] && (heard + ps)[|heard + ps| - 1] == ps[n];
  }
}
