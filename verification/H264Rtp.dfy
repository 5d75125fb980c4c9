/** H.264 over RTP (RFC 6184): FU-A fragmentation, STAP-A, and assembleAnnexB on the receiving side. */
module H264Rtp {
  import opened Common
  import opened AnnexB

  const MTU := 1200
  const SEQ := 0x1_0000
  const TYPE_STAPA := 24
  const TYPE_FUA := 28

  datatype Packet = Packet(payload: Bytes, seqNum: nat, timestamp: nat, marker: bool)

  function Nri(b: Byte): nat {
    b / 32 % 4 * 32
  }

  // ---------- fragmentNALToFUA ----------

  function ChunkEnd(bodyLength: nat, offset: nat): nat {
    if offset + (MTU - 2) > bodyLength then bodyLength else offset + (MTU - 2)
  }

  /** S on the first fragment, E on the last, the NAL type in both. */
  function FuHeader(nal: Bytes, offset: nat): Byte
    requires 0 < |nal|
  {
    (if offset == 0 then 0x80 else if ChunkEnd(|nal| - 1, offset) >= |nal| - 1 then 0x40 else 0) + nal[0] % 32
  }

  function FuPayload(nal: Bytes, offset: nat): Bytes
    requires 0 < |nal| && offset < |nal| - 1
  {
    [Nri(nal[0]) + TYPE_FUA, FuHeader(nal, offset)] + nal[1..][offset..ChunkEnd(|nal| - 1, offset)]
  }

  /**
   * A fragment byte by byte: type 28 with the unit's importance bits, then the start bit, the end bit and the unit's
   * type, then the body of the unit from `offset` on; 1200 bytes, unless it is the last one.
   */
  lemma FragmentBytes(nal: Bytes, offset: nat)
    requires 0 < |nal| && offset < |nal| - 1
    ensures var p, end := FuPayload(nal, offset), offset + |FuPayload(nal, offset)| - 2;
      && p[0] < 0x80 && p[0] / 32 % 4 == nal[0] / 32 % 4 && p[0] % 32 == 28
      && (p[1] / 128 == 1 <==> offset == 0) && (p[1] / 64 % 2 == 1 <==> offset > 0 && end == |nal| - 1)
      && p[1] / 32 % 2 == 0 && p[1] % 32 == nal[0] % 32
      && p[2..] == nal[1 + offset..1 + end] && |p| <= 1200 && (|p| == 1200 || end == |nal| - 1)
  {
    var payload := FuPayload(nal, offset);
    assert payload[0] == Nri(nal[0]) + TYPE_FUA && payload[1] == FuHeader(nal, offset);
    var n := nal[0] / 32 % 4;
    assert n * 32 == Nri(nal[0]) && (n * 32 + 28) / 32 == n;
    assert nal[1..][offset..ChunkEnd(|nal| - 1, offset)] == nal[1 + offset..1 + ChunkEnd(|nal| - 1, offset)];
  }

  /** The fragments of the body of `nal` from `offset` on. */
  function Fragments(nal: Bytes, timestamp: nat, seqNum: nat, offset: nat, isLast: bool): seq<Packet>
    requires 0 < |nal| && offset <= |nal| - 1
    decreases |nal| - offset
  {
    if offset == |nal| - 1 then []
    else
      var end := ChunkEnd(|nal| - 1, offset);
      [Packet(FuPayload(nal, offset), seqNum, timestamp, end >= |nal| - 1 && isLast)]
      + Fragments(nal, timestamp, (seqNum + 1) % SEQ, end, isLast)
  }

  method FragmentNal(nal: Bytes, timestamp: nat, startSeqNum: nat, isLast: bool)
    returns (packets: seq<Packet>, nextSeqNum: nat)
    requires startSeqNum < SEQ
    ensures |nal| <= MTU ==> packets == [] && nextSeqNum == startSeqNum
    ensures |nal| > MTU ==> packets == Fragments(nal, timestamp, startSeqNum, 0, isLast)
    ensures nextSeqNum == (startSeqNum + |packets|) % SEQ
  {
    packets, nextSeqNum := [], startSeqNum;
    if |nal| <= MTU {
      return;
    }
    var body := nal[1..];
    var offset, index := 0, 0;
    while offset < |body|
      invariant offset <= |body| && (index == 0 <==> offset == 0) && index >= 0 && nextSeqNum < SEQ
      invariant packets + Fragments(nal, timestamp, nextSeqNum, offset, isLast)
             == Fragments(nal, timestamp, startSeqNum, 0, isLast)
      invariant nextSeqNum == (startSeqNum + |packets|) % SEQ
    {
      var end := offset + (MTU - 2);
      if end > |body| {
        end := |body|;
      }
      var header := nal[0] % 32;
      if index == 0 {
        header := 0x80 + nal[0] % 32;
      } else if end >= |body| {
        header := 0x40 + nal[0] % 32;
      }
      var packet := Packet([Nri(nal[0]) + TYPE_FUA, header] + body[offset..end], nextSeqNum, timestamp,
                           end >= |body| && isLast);
      assert packet == Packet(FuPayload(nal, offset), nextSeqNum, timestamp, end >= |nal| - 1 && isLast);
      ghost var tail := Fragments(nal, timestamp, (nextSeqNum + 1) % SEQ, end, isLast);
      assert Fragments(nal, timestamp, nextSeqNum, offset, isLast) == [packet] + tail;
      Regroup(packets, [packet], tail);
      AddMod(startSeqNum + |packets|, 1);
      packets := packets + [packet];
      nextSeqNum := (nextSeqNum + 1) % SEQ;
      offset := end;
      index := index + 1;
    }
  }

  /** Packets of one timestamp with consecutive sequence numbers, none of them empty. */
  predicate InRun(ps: seq<Packet>, timestamp: nat, seqNum: nat) {
    forall k :: 0 <= k < |ps| ==> RunPacket(ps[k], timestamp, (seqNum + k) % SEQ)
  }

  predicate RunPacket(p: Packet, timestamp: nat, seqNum: nat) {
    p.payload != [] && p.timestamp == timestamp && p.seqNum == seqNum
  }

  /** Exactly the last packet carries the marker, if `isLast`. */
  predicate MarkedLast(ps: seq<Packet>, isLast: bool) {
    forall k :: 0 <= k < |ps| ==> ps[k].marker == (isLast && k == |ps| - 1)
  }

  lemma RunAppend(xs: seq<Packet>, ys: seq<Packet>, timestamp: nat, seqNum: nat)
    requires InRun(xs, timestamp, seqNum) && InRun(ys, timestamp, (seqNum + |xs|) % SEQ)
    ensures InRun(xs + ys, timestamp, seqNum)
  {
    forall k | |xs| <= k < |xs + ys|
      ensures RunPacket((xs + ys)[k], timestamp, (seqNum + k) % SEQ)
    {
      assert RunPacket(ys[k - |xs|], timestamp, ((seqNum + |xs|) % SEQ + (k - |xs|)) % SEQ);
      AddMod(seqNum + |xs|, k - |xs|);
    }
  }

  lemma AddMod(a: nat, b: nat)
    ensures (a % SEQ + b) % SEQ == (a + b) % SEQ
  {
  }

  predicate FitMtu(ps: seq<Packet>) {
    forall k :: 0 <= k < |ps| ==> |ps[k].payload| <= MTU
  }

  /** Fragments fit the MTU, number consecutively, share the timestamp, and only the last may carry the marker. */
  lemma {:induction false} FragmentsAreNumbered(nal: Bytes, timestamp: nat, seqNum: nat, offset: nat, isLast: bool)
    requires 0 < |nal| && offset <= |nal| - 1 && seqNum < SEQ
    ensures InRun(Fragments(nal, timestamp, seqNum, offset, isLast), timestamp, seqNum)
    ensures MarkedLast(Fragments(nal, timestamp, seqNum, offset, isLast), isLast)
    ensures FitMtu(Fragments(nal, timestamp, seqNum, offset, isLast))
    ensures offset < |nal| - 1 ==> Fragments(nal, timestamp, seqNum, offset, isLast) != []
    decreases |nal| - offset
  {
    if offset < |nal| - 1 {
      var end := ChunkEnd(|nal| - 1, offset);
      var first := Packet(FuPayload(nal, offset), seqNum, timestamp, end >= |nal| - 1 && isLast);
      var rest := Fragments(nal, timestamp, (seqNum + 1) % SEQ, end, isLast);
      FragmentsAreNumbered(nal, timestamp, (seqNum + 1) % SEQ, end, isLast);
      RunAppend([first], rest, timestamp, seqNum);
      MarkedCons(first, rest, isLast);
    }
  }

  lemma MarkedCons(first: Packet, rest: seq<Packet>, isLast: bool)
    requires first.marker == (isLast && rest == []) && MarkedLast(rest, isLast) && |first.payload| <= MTU && FitMtu(rest)
    ensures MarkedLast([first] + rest, isLast) && FitMtu([first] + rest)
  {
    var ps := [first] + rest;
    assert forall k :: 1 <= k < |ps| ==> ps[k] == rest[k - 1];
  }

  // ---------- STAP-A ----------

  /** The aggregation payload without its header byte; `None` when a NAL unit is too large. */
  function StapBody(nals: seq<Bytes>): Option<Bytes> {
    if nals == [] then Some([])
    else if |nals[0]| > 0xFFFF then None
    else
      match StapBody(nals[1..])
      case None => None
      case Some(rest) =>
        Some(if nals[0] == [] then rest else [|nals[0]| / 256, |nals[0]| % 256] + nals[0] + rest)
  }

  function BuildStap(nals: seq<Bytes>): Result<Bytes> {
    match StapBody(nals)
    case None => Err
    case Some(body) => if body == [] then Err else Ok([0x78] + body)
  }

  function After(payload: Bytes, rest: Option<Bytes>): Option<Bytes> {
    if rest.None? then None else Some(payload + rest.value)
  }

  lemma AfterAssociates(a: Bytes, b: Bytes, rest: Option<Bytes>)
    ensures After(a, After(b, rest)) == After(a + b, rest)
  {
    if rest.Some? {
      assert a + (b + rest.value) == (a + b) + rest.value;
    }
  }

  method BuildParameterSets(nals: seq<Bytes>) returns (r: Result<Bytes>)
    ensures r == BuildStap(nals)
  {
    var payload: Bytes := [0x78];
    for k := 0 to |nals|
      invariant |payload| >= 1 && After(payload, StapBody(nals[k..])) == After([0x78], StapBody(nals))
    {
      var nal := nals[k];
      assert nals[k..][0] == nal && nals[k..][1..] == nals[k + 1..];
      if |nal| == 0 {
        continue;
      }
      if |nal| > 0xFFFF {
        return Err;
      }
      ghost var piece: Bytes := [|nal| / 256, |nal| % 256] + nal;
      AfterAssociates(payload, piece, StapBody(nals[k + 1..]));
      assert payload + [|nal| / 256, |nal| % 256] + nal == payload + piece;
      payload := payload + [|nal| / 256, |nal| % 256] + nal;
    }
    assert After(payload, Some([])) == Some(payload) by { assert payload + [] == payload; }
    if |payload| <= 1 {
      return Err;
    }
    return Ok(payload);
  }

  function Size16(high: nat, low: nat): nat {
    high * 256 + low
  }

  /** The NAL units of an aggregation packet from `offset` on. */
  function ParseStap(payload: Bytes, offset: nat): Result<seq<Bytes>>
    decreases |payload| - offset
  {
    if offset + 2 > |payload| then Ok([])
    else
      var size := Size16(payload[offset], payload[offset + 1]);
      var start := offset + 2;
      if size == 0 then ParseStap(payload, start)
      else if start + size > |payload| then Err
      else
        Joined([payload[start..start + size]], ParseStap(payload, start + size))
  }

  method ParseStapA(payload: Bytes) returns (r: Result<seq<Bytes>>)
    ensures r == ParseStap(payload, 1)
  {
    var nals: seq<Bytes> := [];
    var offset := 1;
    JoinedAssociates([], [], ParseStap(payload, 1));
    while offset + 2 <= |payload|
      invariant Joined(nals, ParseStap(payload, offset)) == ParseStap(payload, 1)
      decreases |payload| - offset
    {
      var size := Size16(payload[offset], payload[offset + 1]);
      offset := offset + 2;
      if size == 0 {
        continue;
      }
      if offset + size > |payload| {
        return Err;
      }
      var nal := payload[offset..offset + size];
      JoinedAssociates(nals, [nal], ParseStap(payload, offset + size));
      nals := nals + [nal];
      offset := offset + size;
    }
    assert nals + [] == nals;
    return Ok(nals);
  }

  function NonEmptyNals(nals: seq<Bytes>): seq<Bytes> {
    if nals == [] then [] else (if nals[0] == [] then [] else [nals[0]]) + NonEmptyNals(nals[1..])
  }

  lemma StapStep(payload: Bytes, offset: nat, nal: Bytes, rest: Bytes)
    requires offset <= |payload| && nal != [] && |nal| <= 0xFFFF
    requires payload[offset..] == [|nal| / 256, |nal| % 256] + nal + rest
    ensures var next := offset + 2 + |nal|; next <= |payload| && payload[next..] == rest
    ensures ParseStap(payload, offset) == Joined([nal], ParseStap(payload, offset + 2 + |nal|))
  {
    var size: Bytes := [|nal| / 256, |nal| % 256];
    CutThree(payload, offset, size, nal, rest);
    SizeRead(payload, offset, |nal|);
  }

  lemma {:induction false} StapRoundTripFrom(payload: Bytes, offset: nat, nals: seq<Bytes>)
    requires offset <= |payload| && StapBody(nals) == Some(payload[offset..])
    ensures ParseStap(payload, offset) == Ok(NonEmptyNals(nals))
    decreases |nals|
  {
    if nals != [] {
      if nals[0] == [] {
        StapRoundTripFrom(payload, offset, nals[1..]);
        assert NonEmptyNals(nals) == NonEmptyNals(nals[1..]);
      } else {
        StapStep(payload, offset, nals[0], StapBody(nals[1..]).value);
        StapRoundTripFrom(payload, offset + 2 + |nals[0]|, nals[1..]);
      }
    }
  }

  lemma SizeRead(payload: Bytes, offset: nat, size: nat)
    requires size <= 0xFFFF && offset + 2 <= |payload| && payload[offset..offset + 2] == [size / 256, size % 256]
    ensures Size16(payload[offset], payload[offset + 1]) == size
  {
    assert payload[offset] == payload[offset..offset + 2][0] && payload[offset + 1] == payload[offset..offset + 2][1];
  }

  /** What injectParameterSets packs, parseSTAPA unpacks. */
  lemma StapRoundTrip(nals: seq<Bytes>)
    requires BuildStap(nals).Ok?
    ensures ParseStap(BuildStap(nals).value, 1) == Ok(NonEmptyNals(nals))
  {
    var payload := BuildStap(nals).value;
    assert payload[1..] == StapBody(nals).value;
    StapRoundTripFrom(payload, 1, nals);
  }

  // ---------- Sending a frame ----------

  predicate Sendable(nal: Bytes) {
    nal != [] && nal[0] < 0x80 && 1 <= nal[0] % 32 <= 23
  }

  predicate AllSendable(nals: seq<Bytes>) {
    forall k :: 0 <= k < |nals| ==> Sendable(nals[k])
  }

  /** What is sent at once: a NAL unit in one packet, one as FU-A fragments, or several in an aggregation packet. */
  datatype Group = Whole(nal: Bytes) | Fragmented(nal: Bytes) | Aggregated(nals: seq<Bytes>)

  function UnitsOf(g: Group): seq<Bytes> {
    match g
    case Whole(nal) => [nal]
    case Fragmented(nal) => [nal]
    case Aggregated(nals) => nals
  }

  predicate SendableGroup(g: Group) {
    match g
    case Whole(nal) => Sendable(nal)
    case Fragmented(nal) => Sendable(nal) && |nal| > MTU
    case Aggregated(nals) => AllSendable(nals) && BuildStap(nals).Ok?
  }

  predicate SendableGroups(groups: seq<Group>) {
    forall k :: 0 <= k < |groups| ==> SendableGroup(groups[k])
  }

  function GroupPackets(g: Group, timestamp: nat, seqNum: nat, isLast: bool): seq<Packet>
    requires SendableGroup(g)
  {
    match g
    case Whole(nal) => [Packet(nal, seqNum, timestamp, isLast)]
    case Fragmented(nal) => Fragments(nal, timestamp, seqNum, 0, isLast)
    case Aggregated(nals) => [Packet(BuildStap(nals).value, seqNum, timestamp, isLast)]
  }

  function AllUnits(groups: seq<Group>): seq<Bytes> {
    if groups == [] then [] else UnitsOf(groups[0]) + AllUnits(groups[1..])
  }

  function Packetize(groups: seq<Group>, timestamp: nat, seqNum: nat): seq<Packet>
    requires SendableGroups(groups)
  {
    if groups == [] then []
    else
      var first := GroupPackets(groups[0], timestamp, seqNum, |groups| == 1);
      first + Packetize(groups[1..], timestamp, (seqNum + |first|) % SEQ)
  }

  /** How many packets a group takes. */
  function Packets(g: Group): (n: nat)
    requires SendableGroup(g)
  {
    match g
    case Fragmented(nal) => |Fragments(nal, 0, 0, 0, false)|
    case _ => 1
  }

  lemma {:induction false} SameCount(nal: Bytes, timestamp: nat, seqNum: nat, timestamp': nat, seqNum': nat, offset: nat,
      isLast: bool, isLast': bool)
    requires 0 < |nal| && offset <= |nal| - 1
    ensures |Fragments(nal, timestamp, seqNum, offset, isLast)| == |Fragments(nal, timestamp', seqNum', offset, isLast')|
    decreases |nal| - offset
  {
    if offset < |nal| - 1 {
      SameCount(nal, timestamp, (seqNum + 1) % SEQ, timestamp', (seqNum' + 1) % SEQ, ChunkEnd(|nal| - 1, offset), isLast, isLast');
    }
  }

  lemma PacketsCount(g: Group, timestamp: nat, seqNum: nat, isLast: bool)
    requires SendableGroup(g)
    ensures |GroupPackets(g, timestamp, seqNum, isLast)| == Packets(g) > 0
  {
    if g.Fragmented? {
      SameCount(g.nal, timestamp, seqNum, 0, 0, 0, isLast, false);
      assert ChunkEnd(|g.nal| - 1, 0) > 0;
    }
  }

  lemma PacketizeCons(groups: seq<Group>, timestamp: nat, seqNum: nat, first: seq<Packet>, next: nat)
    requires SendableGroups(groups) && groups != []
    requires first == GroupPackets(groups[0], timestamp, seqNum, |groups| == 1) && next == (seqNum + |first|) % SEQ
    ensures SendableGroups(groups[1..])
    ensures Packetize(groups, timestamp, seqNum) == first + Packetize(groups[1..], timestamp, next)
  {
  }

  /** A packetized frame, its first group's packets and the rest. */
  lemma SplitFirst(groups: seq<Group>, timestamp: nat, seqNum: nat, ps: seq<Packet>)
    returns (first: seq<Packet>, next: nat, more: seq<Packet>)
    requires SendableGroups(groups) && groups != [] && ps == Packetize(groups, timestamp, seqNum)
    ensures first == GroupPackets(groups[0], timestamp, seqNum, |groups| == 1) && |first| == Packets(groups[0]) > 0
    ensures next == (seqNum + |first|) % SEQ
    ensures SendableGroups(groups[1..]) && more == Packetize(groups[1..], timestamp, next) && ps == first + more
  {
    first := GroupPackets(groups[0], timestamp, seqNum, |groups| == 1);
    next := (seqNum + |first|) % SEQ;
    PacketizeCons(groups, timestamp, seqNum, first, next);
    more := Packetize(groups[1..], timestamp, next);
    PacketsCount(groups[0], timestamp, seqNum, |groups| == 1);
  }

  /** A packetized frame is one run of packets, and exactly its last packet carries the marker. */
  lemma {:induction false} PacketizeIsNumbered(groups: seq<Group>, timestamp: nat, seqNum: nat)
    requires SendableGroups(groups) && seqNum < SEQ
    ensures InRun(Packetize(groups, timestamp, seqNum), timestamp, seqNum)
    ensures MarkedLast(Packetize(groups, timestamp, seqNum), true)
    ensures groups != [] ==> Packetize(groups, timestamp, seqNum) != []
    decreases |groups|
  {
    if groups != [] {
      var first, next, rest := SplitFirst(groups, timestamp, seqNum, Packetize(groups, timestamp, seqNum));
      GroupIsNumbered(groups[0], timestamp, seqNum, |groups| == 1);
      PacketizeIsNumbered(groups[1..], timestamp, next);
      RunAppend(first, rest, timestamp, seqNum);
      assert rest == [] <==> |groups| == 1;
      MarkedAppend(first, rest);
    }
  }

  lemma GroupIsNumbered(g: Group, timestamp: nat, seqNum: nat, isLast: bool)
    requires SendableGroup(g) && seqNum < SEQ
    ensures var ps := GroupPackets(g, timestamp, seqNum, isLast);
      ps != [] && InRun(ps, timestamp, seqNum) && MarkedLast(ps, isLast)
  {
    if g.Fragmented? {
      FragmentsAreNumbered(g.nal, timestamp, seqNum, 0, isLast);
    }
  }

  lemma MarkedAppend(xs: seq<Packet>, ys: seq<Packet>)
    requires xs != [] && MarkedLast(xs, ys == []) && MarkedLast(ys, true)
    ensures MarkedLast(xs + ys, true)
  {
  }

  // ---------- assembleAnnexB ----------

  /** A NAL unit under reassembly: its rebuilt header and the fragments so far. */
  datatype Fua = Fua(header: Byte, buffer: Bytes)

  datatype FuaStep = FuaStep(state: Option<Fua>, done: Option<Bytes>)

  function ProcessFua(state: Option<Fua>, payload: Bytes): Result<FuaStep> {
    if |payload| < 2 then Err
    else if payload[1] >= 0x80 then Ok(FuaStep(Some(Fua(Nri(payload[0]) + payload[1] % 32, payload[2..])), None))
    else
      match state
      case None => Ok(FuaStep(None, None))
      case Some(f) =>
        var buffer := f.buffer + payload[2..];
        if payload[1] / 64 % 2 == 1 then Ok(FuaStep(None, Some([f.header] + buffer)))
        else Ok(FuaStep(Some(Fua(f.header, buffer)), None))
  }

  datatype PacketStep = PacketStep(state: Option<Fua>, out: Bytes)

  function ProcessPacket(state: Option<Fua>, payload: Bytes): Result<PacketStep> {
    if payload == [] then Ok(PacketStep(state, []))
    else
      var nalType := payload[0] % 32;
      if 1 <= nalType <= 23 then Ok(PacketStep(state, START_CODE + payload))
      else if nalType == TYPE_STAPA then
        match ParseStap(payload, 1)
        case Err => Err
        case Ok(nals) => Ok(PacketStep(state, Frame(nals)))
      else if nalType == TYPE_FUA then
        match ProcessFua(state, payload)
        case Err => Err
        case Ok(s) => Ok(PacketStep(s.state, if s.done.Some? then START_CODE + s.done.value else []))
      else Ok(PacketStep(state, if |payload| > 1 then START_CODE + payload else []))
  }

  function AssembleFrom(packets: seq<Packet>, state: Option<Fua>): Result<Bytes> {
    if packets == [] then Ok([])
    else
      match ProcessPacket(state, packets[0].payload)
      case Err => Err
      case Ok(s) => Joined(s.out, AssembleFrom(packets[1..], s.state))
  }

  lemma FuBits(header: Byte, flag: nat)
    requires flag == 0 || flag == 0x40 || flag == 0x80
    ensures flag + header % 32 < 256 && (flag + header % 32) % 32 == header % 32
    ensures (flag + header % 32 >= 0x80) == (flag == 0x80)
    ensures flag != 0x80 ==> ((flag + header % 32) / 64 % 2 == 1) == (flag == 0x40)
    ensures (Nri(header) + TYPE_FUA) % 32 == TYPE_FUA && Nri(header) + TYPE_FUA < 256
    ensures Nri(Nri(header) + TYPE_FUA) == Nri(header)
    ensures header < 0x80 ==> Nri(header) + header % 32 == header
  {
  }

  lemma AssembleCons(p: Packet, rest: seq<Packet>, state: Option<Fua>)
    ensures AssembleFrom([p] + rest, state) ==
      match ProcessPacket(state, p.payload)
      case Err => Err
      case Ok(s) => Joined(s.out, AssembleFrom(rest, s.state))
  {
    assert ([p] + rest)[1..] == rest;
  }

  /** What a fragment with this header, these flags and this share of the body does to the reassembly state. */
  lemma FuaStepIs(state: Option<Fua>, payload: Bytes, header: Byte, chunk: Bytes, starts: bool, ends: bool)
    requires |payload| >= 2 && payload[2..] == chunk && Nri(payload[0]) + payload[1] % 32 == header
    requires (payload[1] >= 0x80) == starts && (!starts ==> (payload[1] / 64 % 2 == 1) == ends)
    requires !starts ==> state.Some? && state.value.header == header
    ensures ProcessFua(state, payload) ==
      if starts then Ok(FuaStep(Some(Fua(header, chunk)), None))
      else if ends then Ok(FuaStep(None, Some([header] + (state.value.buffer + chunk))))
      else Ok(FuaStep(Some(Fua(header, state.value.buffer + chunk)), None))
  {
  }

  lemma FuaPacket(state: Option<Fua>, payload: Bytes, s: FuaStep)
    requires payload != [] && payload[0] % 32 == 28 && ProcessFua(state, payload) == Ok(s)
    ensures ProcessPacket(state, payload) == Ok(PacketStep(s.state, if s.done.Some? then START_CODE + s.done.value else []))
  {
  }

  lemma FragmentIs(nal: Bytes, offset: nat, payload: Bytes, end: nat)
    requires |nal| > MTU && Sendable(nal) && offset < |nal| - 1
    requires payload == FuPayload(nal, offset) && end == ChunkEnd(|nal| - 1, offset)
    ensures |payload| >= 2 && payload[2..] == nal[1..][offset..end] && payload[0] % 32 == 28
    ensures Nri(payload[0]) + payload[1] % 32 == nal[0] && (payload[1] >= 0x80) == (offset == 0)
    ensures offset > 0 ==> (payload[1] / 64 % 2 == 1) == (end == |nal| - 1)
  {
    FuBits(nal[0], if offset == 0 then 0x80 else if end >= |nal| - 1 then 0x40 else 0);
    assert payload[0] == Nri(nal[0]) + TYPE_FUA && payload[1] == FuHeader(nal, offset);
  }

  lemma BodyGrows(nal: Bytes, offset: nat, end: nat)
    requires 0 < |nal| && offset <= end <= |nal| - 1
    ensures nal[1..][..offset] + nal[1..][offset..end] == nal[1..][..end]
    ensures offset == 0 ==> nal[1..][offset..end] == nal[1..][..end]
    ensures end == |nal| - 1 ==> [nal[0]] + nal[1..][..end] == nal
  {
  }

  /** What one fragment does to the reassembly state. */
  lemma FragmentStep(nal: Bytes, offset: nat, state: Option<Fua>)
    requires |nal| > MTU && Sendable(nal) && offset < |nal| - 1
    requires offset > 0 ==> state == Some(Fua(nal[0], nal[1..][..offset]))
    ensures var end := ChunkEnd(|nal| - 1, offset);
      ProcessPacket(state, FuPayload(nal, offset)) ==
      Ok(if offset > 0 && end == |nal| - 1 then PacketStep(None, START_CODE + nal)
         else PacketStep(Some(Fua(nal[0], nal[1..][..end])), []))
  {
    var payload, end := FuPayload(nal, offset), ChunkEnd(|nal| - 1, offset);
    var chunk := nal[1..][offset..end];
    FragmentIs(nal, offset, payload, end);
    FuaStepIs(state, payload, nal[0], chunk, offset == 0, end == |nal| - 1);
    FuaPacket(state, payload, ProcessFua(state, payload).value);
    BodyGrows(nal, offset, end);
  }

  /** The fragments of a NAL unit, from any offset on, complete it. */
  lemma {:induction false} FragmentsComplete(nal: Bytes, timestamp: nat, seqNum: nat, offset: nat, isLast: bool,
      state: Option<Fua>, rest: seq<Packet>)
    requires |nal| > MTU && Sendable(nal) && offset < |nal| - 1
    requires offset > 0 ==> state == Some(Fua(nal[0], nal[1..][..offset]))
    ensures AssembleFrom(Fragments(nal, timestamp, seqNum, offset, isLast) + rest, state)
      == Joined(START_CODE + nal, AssembleFrom(rest, None))
    decreases |nal| - offset
  {
    var end := ChunkEnd(|nal| - 1, offset);
    var first := Packet(FuPayload(nal, offset), seqNum, timestamp, end >= |nal| - 1 && isLast);
    var tail := Fragments(nal, timestamp, (seqNum + 1) % SEQ, end, isLast);
    assert ([first] + tail) + rest == [first] + (tail + rest);
    AssembleCons(first, tail + rest, state);
    FragmentStep(nal, offset, state);
    if end == |nal| - 1 {
      assert tail + rest == rest;
    } else {
      FragmentsComplete(nal, timestamp, (seqNum + 1) % SEQ, end, isLast, Some(Fua(nal[0], nal[1..][..end])), rest);
      JoinedAssociates([], [], Joined(START_CODE + nal, AssembleFrom(rest, None)));
    }
  }

  lemma {:induction false} AllKept(nals: seq<Bytes>)
    requires AllSendable(nals)
    ensures NonEmptyNals(nals) == nals
  {
    if nals != [] {
      AllKept(nals[1..]);
      assert nals == [nals[0]] + nals[1..];
    }
  }

  lemma AggregationStep(nals: seq<Bytes>)
    requires AllSendable(nals) && BuildStap(nals).Ok?
    ensures ProcessPacket(None, BuildStap(nals).value) == Ok(PacketStep(None, Frame(nals)))
  {
    var payload := BuildStap(nals).value;
    StapRoundTrip(nals);
    AllKept(nals);
    assert payload[0] == 0x78;
  }

  /** The packets of a group rebuild its units, and leave nothing under reassembly. */
  lemma GroupComplete(g: Group, timestamp: nat, seqNum: nat, isLast: bool, rest: seq<Packet>)
    requires SendableGroup(g)
    ensures AssembleFrom(GroupPackets(g, timestamp, seqNum, isLast) + rest, None)
      == Joined(Frame(UnitsOf(g)), AssembleFrom(rest, None))
  {
    match g
    case Fragmented(nal) =>
      FragmentsComplete(nal, timestamp, seqNum, 0, isLast, None, rest);
      FrameOne(nal);
    case Whole(nal) =>
      AssembleCons(Packet(nal, seqNum, timestamp, isLast), rest, None);
      FrameOne(nal);
    case Aggregated(nals) =>
      AggregationStep(nals);
      AssembleCons(Packet(BuildStap(nals).value, seqNum, timestamp, isLast), rest, None);
  }

  lemma {:induction false} WholeAssembles(groups: seq<Group>, timestamp: nat, seqNum: nat, rest: seq<Packet>)
    requires SendableGroups(groups)
    ensures AssembleFrom(Packetize(groups, timestamp, seqNum) + rest, None)
      == Joined(Frame(AllUnits(groups)), AssembleFrom(rest, None))
    decreases |groups|
  {
    if groups == [] {
      assert [] + rest == rest;
      JoinedAssociates([], [], AssembleFrom(rest, None));
    } else {
      var first := GroupPackets(groups[0], timestamp, seqNum, |groups| == 1);
      var next := (seqNum + |first|) % SEQ;
      var more := Packetize(groups[1..], timestamp, next);
      Regroup(first, more, rest);
      GroupComplete(groups[0], timestamp, seqNum, |groups| == 1, more + rest);
      WholeAssembles(groups[1..], timestamp, next, rest);
      JoinFrames(UnitsOf(groups[0]), AllUnits(groups[1..]), AssembleFrom(rest, None));
    }
  }

  lemma JoinFrames(a: seq<Bytes>, b: seq<Bytes>, rest: Result<Bytes>)
    ensures Joined(Frame(a), Joined(Frame(b), rest)) == Joined(Frame(a + b), rest)
  {
    FrameAppend(a, b);
    JoinedAssociates(Frame(a), Frame(b), rest);
  }

  /** In sequence order, the packets of a frame rebuild exactly the frame with 4-byte start codes. */
  lemma AssembleRebuilds(groups: seq<Group>, timestamp: nat, seqNum: nat)
    requires SendableGroups(groups)
    ensures AssembleFrom(Packetize(groups, timestamp, seqNum), None) == Ok(Frame(AllUnits(groups)))
  {
    var ps := Packetize(groups, timestamp, seqNum);
    assert ps + [] == ps;
    assert Frame(AllUnits(groups)) + [] == Frame(AllUnits(groups));
    WholeAssembles(groups, timestamp, seqNum, []);
  }

  // ---------- A run of packets cut in two ----------

  /** The units of the groups that lie wholly within the first `k` packets. */
  function UnitsBefore(groups: seq<Group>, k: nat): seq<Bytes>
    requires SendableGroups(groups)
  {
    if groups == [] || k < Packets(groups[0]) then []
    else UnitsOf(groups[0]) + UnitsBefore(groups[1..], k - Packets(groups[0]))
  }

  /** The units of the groups that lie wholly behind them. */
  function UnitsAfter(groups: seq<Group>, k: nat): seq<Bytes>
    requires SendableGroups(groups)
  {
    if groups == [] || k == 0 then AllUnits(groups)
    else if k < Packets(groups[0]) then AllUnits(groups[1..])
    else UnitsAfter(groups[1..], k - Packets(groups[0]))
  }

  /** The cut after `k` packets falls between two groups. */
  predicate Between(groups: seq<Group>, k: nat)
    requires SendableGroups(groups)
  {
    k == 0 || (groups != [] && k >= Packets(groups[0]) && Between(groups[1..], k - Packets(groups[0])))
  }

  /** A fragment whose start is missing is passed over. */
  lemma OrphanStep(nal: Bytes, offset: nat)
    requires |nal| > MTU && Sendable(nal) && 0 < offset < |nal| - 1
    ensures ProcessPacket(None, FuPayload(nal, offset)) == Ok(PacketStep(None, []))
  {
    FuBits(nal[0], if ChunkEnd(|nal| - 1, offset) >= |nal| - 1 then 0x40 else 0);
  }

  lemma {:induction false} OrphansIgnored(nal: Bytes, timestamp: nat, seqNum: nat, offset: nat, isLast: bool, rest: seq<Packet>)
    requires |nal| > MTU && Sendable(nal) && 0 < offset <= |nal| - 1
    ensures AssembleFrom(Fragments(nal, timestamp, seqNum, offset, isLast) + rest, None) == AssembleFrom(rest, None)
    decreases |nal| - offset
  {
    if offset == |nal| - 1 {
      assert [] + rest == rest;
    } else {
      var end := ChunkEnd(|nal| - 1, offset);
      var first := Packet(FuPayload(nal, offset), seqNum, timestamp, end >= |nal| - 1 && isLast);
      var tail := Fragments(nal, timestamp, (seqNum + 1) % SEQ, end, isLast);
      assert ([first] + tail) + rest == [first] + (tail + rest);
      OrphanStep(nal, offset);
      AssembleCons(first, tail + rest, None);
      OrphansIgnored(nal, timestamp, (seqNum + 1) % SEQ, end, isLast, rest);
      JoinedAssociates([], [], AssembleFrom(rest, None));
    }
  }

  /** From the second fragment on, what follows is fragments without their start. */
  lemma {:induction false} TailIgnored(nal: Bytes, timestamp: nat, seqNum: nat, offset: nat, isLast: bool, k: nat,
      rest: seq<Packet>)
    requires |nal| > MTU && Sendable(nal) && offset < |nal| - 1
    requires 0 < k <= |Fragments(nal, timestamp, seqNum, offset, isLast)|
    ensures AssembleFrom(Fragments(nal, timestamp, seqNum, offset, isLast)[k..] + rest, None) == AssembleFrom(rest, None)
    decreases k
  {
    var end := ChunkEnd(|nal| - 1, offset);
    var all := Fragments(nal, timestamp, seqNum, offset, isLast);
    var tail := Fragments(nal, timestamp, (seqNum + 1) % SEQ, end, isLast);
    assert all[1..] == tail && all[k..] == tail[k - 1..];
    if k == 1 {
      assert tail[0..] == tail;
      OrphansIgnored(nal, timestamp, (seqNum + 1) % SEQ, end, isLast, rest);
    } else {
      TailIgnored(nal, timestamp, (seqNum + 1) % SEQ, end, isLast, k - 1, rest);
    }
  }

  /** Fragments without their end rebuild nothing. */
  lemma {:induction false} HeadIgnored(nal: Bytes, timestamp: nat, seqNum: nat, offset: nat, isLast: bool, k: nat,
      state: Option<Fua>)
    requires |nal| > MTU && Sendable(nal) && offset < |nal| - 1
    requires offset > 0 ==> state == Some(Fua(nal[0], nal[1..][..offset]))
    requires k < |Fragments(nal, timestamp, seqNum, offset, isLast)|
    ensures AssembleFrom(Fragments(nal, timestamp, seqNum, offset, isLast)[..k], state) == Ok([])
    decreases k
  {
    if k > 0 {
      var end := ChunkEnd(|nal| - 1, offset);
      var first := Packet(FuPayload(nal, offset), seqNum, timestamp, end >= |nal| - 1 && isLast);
      var tail := Fragments(nal, timestamp, (seqNum + 1) % SEQ, end, isLast);
      var after := Some(Fua(nal[0], nal[1..][..end]));
      assert Fragments(nal, timestamp, seqNum, offset, isLast)[..k] == [first] + tail[..k - 1];
      FragmentStep(nal, offset, state);
      AssembleCons(first, tail[..k - 1], state);
      HeadIgnored(nal, timestamp, (seqNum + 1) % SEQ, end, isLast, k - 1, after);
      JoinedAssociates<Byte>([], [], Ok([]));
    }
  }

  lemma TailWithin(g: Group, timestamp: nat, seqNum: nat, isLast: bool, k: nat, rest: seq<Packet>)
    requires SendableGroup(g) && 0 < k < Packets(g) == |GroupPackets(g, timestamp, seqNum, isLast)|
    ensures AssembleFrom(GroupPackets(g, timestamp, seqNum, isLast)[k..] + rest, None) == AssembleFrom(rest, None)
  {
    TailIgnored(g.nal, timestamp, seqNum, 0, isLast, k, rest);
  }

  lemma HeadWithin(g: Group, timestamp: nat, seqNum: nat, isLast: bool, k: nat)
    requires SendableGroup(g) && k < Packets(g) == |GroupPackets(g, timestamp, seqNum, isLast)|
    ensures AssembleFrom(GroupPackets(g, timestamp, seqNum, isLast)[..k], None) == Ok([])
  {
    if k > 0 {
      HeadIgnored(g.nal, timestamp, seqNum, 0, isLast, k, None);
    }
  }

  lemma CutInside<T>(a: seq<T>, b: seq<T>, k: nat)
    requires k <= |a|
    ensures (a + b)[..k] == a[..k] && (a + b)[k..] == a[k..] + b
  {
  }

  lemma CutBehind<T>(a: seq<T>, b: seq<T>, k: nat)
    requires |a| <= k <= |a| + |b|
    ensures (a + b)[..k] == a + b[..k - |a|] && (a + b)[k..] == b[k - |a|..]
  {
  }

  /** The packets behind the first `k` rebuild the units that lie wholly behind them. */
  lemma {:induction false} TailAssembles(groups: seq<Group>, timestamp: nat, seqNum: nat, k: nat, rest: seq<Packet>,
      ps: seq<Packet>)
    requires SendableGroups(groups) && ps == Packetize(groups, timestamp, seqNum) && k <= |ps|
    ensures AssembleFrom(ps[k..] + rest, None) == Joined(Frame(UnitsAfter(groups, k)), AssembleFrom(rest, None))
    decreases |groups|
  {
    if groups == [] || k == 0 {
      assert ps[k..] == ps;
      WholeAssembles(groups, timestamp, seqNum, rest);
      return;
    } else {
      var first, next, more := SplitFirst(groups, timestamp, seqNum, ps);
      if k < |first| {
        assert ps[k..] == first[k..] + more by { CutInside(first, more, k); }
        TailOfFirst(groups, timestamp, seqNum, k, rest, first, next, more);
        return;
      } else {
        var j := k - |first|;
        assert ps[k..] == more[j..] by { CutBehind(first, more, k); }
        AfterStep(groups, k, j);
        TailAssembles(groups[1..], timestamp, next, j, rest, more);
      }
    }
  }

  lemma AfterStep(groups: seq<Group>, k: nat, j: nat)
    requires SendableGroups(groups) && groups != [] && k == Packets(groups[0]) + j
    ensures UnitsAfter(groups, k) == UnitsAfter(groups[1..], j)
  {
    PacketsCount(groups[0], 0, 0, false);
  }

  lemma TailOfFirst(groups: seq<Group>, timestamp: nat, seqNum: nat, k: nat, rest: seq<Packet>, first: seq<Packet>, next: nat,
      more: seq<Packet>)
    requires SendableGroups(groups) && groups != [] && first == GroupPackets(groups[0], timestamp, seqNum, |groups| == 1)
    requires |first| == Packets(groups[0]) && 0 < k < |first| && more == Packetize(groups[1..], timestamp, next)
    ensures AssembleFrom((first[k..] + more) + rest, None) == Joined(Frame(AllUnits(groups[1..])), AssembleFrom(rest, None))
  {
    Regroup(first[k..], more, rest);
    TailWithin(groups[0], timestamp, seqNum, |groups| == 1, k, more + rest);
    WholeAssembles(groups[1..], timestamp, next, rest);
  }

  lemma BeforeStep(groups: seq<Group>, k: nat, j: nat)
    requires SendableGroups(groups) && groups != [] && k == Packets(groups[0]) + j
    ensures Frame(UnitsBefore(groups, k)) == Frame(UnitsOf(groups[0])) + Frame(UnitsBefore(groups[1..], j))
  {
    FrameAppend(UnitsOf(groups[0]), UnitsBefore(groups[1..], j));
  }

  lemma HeadBehind(groups: seq<Group>, timestamp: nat, seqNum: nat, k: nat, first: seq<Packet>, head: seq<Packet>)
    requires SendableGroups(groups) && groups != [] && first == GroupPackets(groups[0], timestamp, seqNum, |groups| == 1)
    requires |first| == Packets(groups[0]) <= k
    requires AssembleFrom(head, None) == Ok(Frame(UnitsBefore(groups[1..], k - |first|)))
    ensures AssembleFrom(first + head, None) == Ok(Frame(UnitsBefore(groups, k)))
  {
    GroupComplete(groups[0], timestamp, seqNum, |groups| == 1, head);
    BeforeStep(groups, k, k - |first|);
  }

  /** The first `k` packets rebuild the units that lie wholly within them. */
  lemma {:induction false} HeadAssembles(groups: seq<Group>, timestamp: nat, seqNum: nat, k: nat, ps: seq<Packet>)
    requires SendableGroups(groups) && ps == Packetize(groups, timestamp, seqNum) && k <= |ps|
    ensures AssembleFrom(ps[..k], None) == Ok(Frame(UnitsBefore(groups, k)))
    decreases |groups|
  {
    if groups == [] {
      assert ps[..k] == [];
    } else {
      var first, next, more := SplitFirst(groups, timestamp, seqNum, ps);
      if k < |first| {
        CutInside(first, more, k);
        HeadWithin(groups[0], timestamp, seqNum, |groups| == 1, k);
      } else {
        CutBehind(first, more, k);
        HeadAssembles(groups[1..], timestamp, next, k - |first|, more);
        HeadBehind(groups, timestamp, seqNum, k, first, more[..k - |first|]);
      }
    }
  }

  /** The second part of a run first, then the first: the unit the cut falls into is lost, and the others change places. */
  lemma RotatedAssembles(groups: seq<Group>, timestamp: nat, seqNum: nat, k: nat)
    requires SendableGroups(groups) && k <= |Packetize(groups, timestamp, seqNum)|
    ensures var ps := Packetize(groups, timestamp, seqNum);
      AssembleFrom(ps[k..] + ps[..k], None) == Ok(Frame(UnitsAfter(groups, k) + UnitsBefore(groups, k)))
  {
    var ps := Packetize(groups, timestamp, seqNum);
    TailAssembles(groups, timestamp, seqNum, k, ps[..k], ps);
    HeadAssembles(groups, timestamp, seqNum, k, ps);
    FrameAppend(UnitsAfter(groups, k), UnitsBefore(groups, k));
  }

  /** Exactly a cut within a group loses units. */
  lemma {:induction false} CutUnits(groups: seq<Group>, k: nat)
    requires SendableGroups(groups) && k <= PacketTotal(groups)
    ensures if Between(groups, k) then UnitsBefore(groups, k) + UnitsAfter(groups, k) == AllUnits(groups)
      else |UnitsBefore(groups, k)| + |UnitsAfter(groups, k)| < |AllUnits(groups)|
    decreases |groups|
  {
    if groups != [] {
      PacketsCount(groups[0], 0, 0, false);
      if k >= Packets(groups[0]) {
        var j := k - Packets(groups[0]);
        CutUnits(groups[1..], j);
        Regroup(UnitsOf(groups[0]), UnitsBefore(groups[1..], j), UnitsAfter(groups[1..], j));
      } else if k == 0 {
        assert [] + AllUnits(groups) == AllUnits(groups);
      }
    }
  }

  /** That is the unit it falls into, which was fragmented. */
  lemma {:induction false} CutLoses(groups: seq<Group>, k: nat) returns (lost: Bytes)
    requires SendableGroups(groups) && k <= PacketTotal(groups) && !Between(groups, k)
    ensures UnitsBefore(groups, k) + [lost] + UnitsAfter(groups, k) == AllUnits(groups) && |lost| > MTU
    decreases |groups|
  {
    if k < Packets(groups[0]) {
      lost := groups[0].nal;
      assert [] + [lost] + AllUnits(groups[1..]) == AllUnits(groups);
    } else {
      var j := k - Packets(groups[0]);
      PacketsCount(groups[0], 0, 0, false);
      lost := CutLoses(groups[1..], j);
      RegroupThree(UnitsOf(groups[0]), UnitsBefore(groups[1..], j), [lost], UnitsAfter(groups[1..], j));
    }
  }

  lemma RegroupThree<T>(a: seq<T>, b: seq<T>, c: seq<T>, d: seq<T>)
    ensures (a + b) + c + d == a + (b + c + d)
  {
  }

  lemma {:induction false} PartsAreUnits(groups: seq<Group>, k: nat, nal: Bytes)
    requires SendableGroups(groups) && (nal in UnitsBefore(groups, k) || nal in UnitsAfter(groups, k))
    ensures nal in AllUnits(groups)
    decreases |groups|
  {
    if k > 0 && nal !in UnitsOf(groups[0]) && k >= Packets(groups[0]) {
      PartsAreUnits(groups[1..], k - Packets(groups[0]), nal);
    }
  }

  function PacketTotal(groups: seq<Group>): nat
    requires SendableGroups(groups)
  {
    if groups == [] then 0 else Packets(groups[0]) + PacketTotal(groups[1..])
  }

  lemma {:induction false} TotalIs(groups: seq<Group>, timestamp: nat, seqNum: nat)
    requires SendableGroups(groups)
    ensures |Packetize(groups, timestamp, seqNum)| == PacketTotal(groups)
    decreases |groups|
  {
    if groups != [] {
      PacketsCount(groups[0], timestamp, seqNum, |groups| == 1);
      var n := |GroupPackets(groups[0], timestamp, seqNum, |groups| == 1)|;
      TotalIs(groups[1..], timestamp, (seqNum + n) % SEQ);
    }
  }
}
