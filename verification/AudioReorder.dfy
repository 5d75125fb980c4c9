/** Reordering audio packets by 16-bit sequence number before they are pushed (recorder.go). */
module AudioReorder {
  import opened Common
  import PreAudio

  const WRAP := 0x1_0000
  const HALF := 0x8000
  const MAX_BUFFERED := 512
  const MISSING_WAIT := 200
  const STARTUP_WINDOW := 250
  const STARTUP_DEADLINE := 750
  const STARTUP_PACKETS := 20
  const PRE_BUFFER_MAX := 500

  type Seq16 = n: nat | n < WRAP

  /** A packet stands at some place in its sender's stream; the header carries 16 bits of it. */
  datatype Packet = Packet(position: nat, payload: Bytes) {
    function SeqNum(): Seq16 {
      Key(position)
    }
  }

  /** The sign of the 16-bit difference. */
  predicate SeqLess(a: Seq16, b: Seq16) {
    (a - b) % WRAP >= HALF
  }

  // ---------- The earliest sequence number ----------

  /** One pass over the keys in the order the map yields them. */
  function MinOver(order: seq<Seq16>): (m: Seq16)
    requires order != []
    ensures m in order
  {
    var n := |order| - 1;
    if n == 0 then order[0]
    else
      var before := MinOver(order[..n]);
      if SeqLess(order[n], before) then order[n] else before
  }

  /** No other key is before it. */
  predicate Least(keys: set<Seq16>, m: Seq16) {
    m in keys && forall k :: k in keys && k != m ==> !SeqLess(k, m)
  }

  /** All the keys, each once. */
  ghost predicate Enumerates(order: seq<Seq16>, keys: set<Seq16>) {
    (forall k :: k in keys <==> k in order) && forall i, j :: 0 <= i < j < |order| ==> order[i] != order[j]
  }

  lemma SeqLessTotal(a: Seq16, b: Seq16)
    requires a != b && !SeqLess(a, b)
    ensures SeqLess(b, a)
  {
  }

  /** All keys lie within the half circle after `m`. */
  predicate HalfCircle(keys: set<Seq16>, m: Seq16) {
    m in keys && forall k :: k in keys ==> (k - m) % 0x1_0000 < 0x8000
  }

  /** The least key is the one from which all keys lie within half the circle. */
  lemma LeastIsHalfCircle(keys: set<Seq16>, m: Seq16)
    ensures Least(keys, m) <==> HalfCircle(keys, m)
  {
    if Least(keys, m) {
      forall k | k in keys
        ensures (k - m) % WRAP < HALF
      {
        assert k != m ==> !SeqLess(k, m);
      }
    }
  }

  lemma {:induction false} LeastIsFound(order: seq<Seq16>, keys: set<Seq16>, m: Seq16)
    requires Least(keys, m) && m in order && forall k :: k in order ==> k in keys
    ensures MinOver(order) == m
  {
    var n := |order| - 1;
    if n > 0 {
      var front := order[..n];
      assert order == front + [order[n]];
      if m in front {
        LeastIsFound(front, keys, m);
      } else {
        SeqLessTotal(MinOver(front), m);
      }
    }
  }

  lemma {:induction false} AnOrder(keys: set<Seq16>) returns (order: seq<Seq16>)
    ensures Enumerates(order, keys)
    decreases |keys|
  {
    if keys == {} {
      order := [];
    } else {
      var k :| k in keys;
      var rest := AnOrder(keys - {k});
      order := rest + [k];
    }
  }

  /** Every iteration order of the map gives the same answer. */
  ghost predicate OrderIndependent(keys: set<Seq16>) {
    exists m: Seq16 :: AlwaysMin(keys, m)
  }

  ghost predicate AlwaysMin(keys: set<Seq16>, m: Seq16) {
    forall order: seq<Seq16> :: Enumerates(order, keys) && order != [] ==> MinOver(order) == m
  }

  lemma AlwaysMinIsLeast(keys: set<Seq16>, m: Seq16)
    requires keys != {} && AlwaysMin(keys, m)
    ensures Least(keys, m)
  {
    var some := AnOrder(keys);
    var x :| x in keys;
    assert x in some && MinOver(some) == m;
    forall k | k in keys && k != m
      ensures !SeqLess(k, m)
    {
      var rest := AnOrder(keys - {k});
      var order := rest + [k];
      assert m in keys - {k} && m in rest;
      assert Enumerates(order, keys);
      assert order[..|order| - 1] == rest;
      assert MinOver(order) == m;
    }
  }

  lemma LeastIsAlwaysMin(keys: set<Seq16>, m: Seq16)
    requires Least(keys, m)
    ensures AlwaysMin(keys, m)
  {
    forall order: seq<Seq16> | Enumerates(order, keys) && order != []
      ensures MinOver(order) == m
    {
      LeastIsFound(order, keys, m);
    }
  }

  /**
   * The scan's answer does not depend on the order in which the map yields its keys if and only if
   * some key has all the others within the half circle after it.
   */
  lemma MinIsOrderIndependentIff(keys: set<Seq16>)
    requires keys != {}
    ensures OrderIndependent(keys) <==> exists m :: HalfCircle(keys, m)
  {
    if OrderIndependent(keys) {
      var m: Seq16 :| AlwaysMin(keys, m);
      AlwaysMinIsLeast(keys, m);
      LeastIsHalfCircle(keys, m);
      assert HalfCircle(keys, m);
    }
    if m: Seq16 :| HalfCircle(keys, m) {
      LeastIsHalfCircle(keys, m);
      LeastIsAlwaysMin(keys, m);
    }
  }

  /** Three keys spread around the circle have no least one. */
  lemma SpreadKeysDisagree()
    ensures !OrderIndependent({0, 0x5555, 0xAAAA})
  {
    var keys: set<Seq16> := {0, 0x5555, 0xAAAA};
    MinIsOrderIndependentIff(keys);
    assert (0xAAAA - 0) % WRAP >= HALF && (0 - 0x5555) % WRAP >= HALF && (0x5555 - 0xAAAA) % WRAP >= HALF;
  }

  // ---------- Flushing ----------

  type Buffer = map<Seq16, Packet>

  /** A pushed packet with the unwrapped counter it was pushed at. */
  datatype Push = Push(counter: nat, packet: Packet)

  datatype Flushed = Flushed(buf: Buffer, counter: nat, missing: Option<int>, pushed: seq<Push>, ok: bool)

  function Key(counter: nat): Seq16 {
    counter % WRAP
  }

  predicate TimedOut(missing: Option<int>, now: int) {
    missing.Some? && now - missing.value >= MISSING_WAIT
  }

  /**
   * Takes packets from the expected one on; at a gap it waits, and after 200 ms takes the packet for lost.
   * Each turn makes the buffer smaller, or uses up the timeout.
   */
  function Flush(buf: Buffer, counter: nat, missing: Option<int>, now: int, accepts: Packet -> bool): Flushed
    decreases |buf|, if TimedOut(missing, now) then 1 else 0
  {
    var e := Key(counter);
    if e in buf then
      var p := buf[e];
      RemovedSize(buf, e);
      if p.payload == [] then Flush(buf - {e}, counter + 1, None, now, accepts)
      else if !accepts(p) then Flushed(buf - {e}, counter + 1, None, [], false)
      else
        var rest := Flush(buf - {e}, counter + 1, None, now, accepts);
        rest.(pushed := [Push(counter, p)] + rest.pushed)
    else if missing.None? then Flushed(buf, counter, Some(now), [], true)
    else if TimedOut(missing, now) then Flush(buf, counter + 1, Some(now), now, accepts)
    else Flushed(buf, counter, missing, [], true)
  }

  /** Packets are filed under their own sequence number. */
  predicate Filed(buf: Buffer) {
    forall k :: k in buf ==> buf[k].SeqNum() == k
  }

  /** Counters strictly increase, from `lo` and below `hi`, and agree with the sequence numbers. */
  predicate Increasing(pushed: seq<Push>, lo: nat, hi: nat) {
    (forall i :: 0 <= i < |pushed| ==> lo <= pushed[i].counter < hi && Key(pushed[i].counter) == pushed[i].packet.SeqNum())
    && forall i, j :: 0 <= i < j < |pushed| ==> pushed[i].counter < pushed[j].counter
  }

  /** Each packet taken moves the counter on by one, and a packet given up by one more: at most one in a flush. */
  lemma {:induction false} FlushMoves(buf: Buffer, counter: nat, missing: Option<int>, now: int, accepts: Packet -> bool)
    ensures var r := Flush(buf, counter, missing, now, accepts);
      r.counter == counter + |buf| - |r.buf|
        + if missing.Some? && now - missing.value >= 200 && counter % 0x1_0000 !in buf then 1 else 0
    decreases |buf|, if TimedOut(missing, now) then 1 else 0
  {
    var e := Key(counter);
    if e in buf {
      RemovedSize(buf, e);
      FlushMoves(buf - {e}, counter + 1, None, now, accepts);
    } else if TimedOut(missing, now) {
      FlushMoves(buf, counter + 1, Some(now), now, accepts);
    }
  }

  lemma {:induction false} FlushFiled(buf: Buffer, counter: nat, missing: Option<int>, now: int, accepts: Packet -> bool)
    requires Filed(buf)
    ensures var r := Flush(buf, counter, missing, now, accepts); Filed(r.buf) && |r.buf| <= |buf|
    decreases |buf|, if TimedOut(missing, now) then 1 else 0
  {
    var e := Key(counter);
    if e in buf {
      RemovedSize(buf, e);
      FlushFiled(buf - {e}, counter + 1, None, now, accepts);
    } else if TimedOut(missing, now) {
      FlushFiled(buf, counter + 1, Some(now), now, accepts);
    }
  }

  lemma FlushForward(buf: Buffer, counter: nat, missing: Option<int>, now: int, accepts: Packet -> bool)
    requires Filed(buf)
    ensures counter <= Flush(buf, counter, missing, now, accepts).counter
  {
    FlushFiled(buf, counter, missing, now, accepts);
    FlushMoves(buf, counter, missing, now, accepts);
  }

  lemma IncreasingCons(p: Push, rest: seq<Push>, lo: nat, hi: nat)
    requires p.counter == lo < hi && Key(lo) == p.packet.SeqNum() && Increasing(rest, lo + 1, hi)
    ensures Increasing([p] + rest, lo, hi)
  {
  }

  lemma IncreasingFrom(pushed: seq<Push>, lo: nat, hi: nat)
    requires Increasing(pushed, lo + 1, hi)
    ensures Increasing(pushed, lo, hi)
  {
  }

  lemma {:induction false} FlushIncreasing(buf: Buffer, counter: nat, missing: Option<int>, now: int, accepts: Packet -> bool)
    requires Filed(buf)
    ensures var r := Flush(buf, counter, missing, now, accepts); Increasing(r.pushed, counter, r.counter)
    decreases |buf|, if TimedOut(missing, now) then 1 else 0
  {
    var e := Key(counter);
    if e in buf {
      var rest := Flush(buf - {e}, counter + 1, None, now, accepts);
      RemovedSize(buf, e);
      FlushIncreasing(buf - {e}, counter + 1, None, now, accepts);
      IncreasingFrom(rest.pushed, counter, rest.counter);
      if buf[e].payload != [] && accepts(buf[e]) {
        FlushForward(buf - {e}, counter + 1, None, now, accepts);
        IncreasingCons(Push(counter, buf[e]), rest.pushed, counter, rest.counter);
      }
    } else if TimedOut(missing, now) {
      FlushIncreasing(buf, counter + 1, Some(now), now, accepts);
      var rest := Flush(buf, counter + 1, Some(now), now, accepts);
      IncreasingFrom(rest.pushed, counter, rest.counter);
    }
  }

  /** If the expected packet is there, at least that one leaves the buffer. */
  lemma FlushShrinks(buf: Buffer, counter: nat, missing: Option<int>, now: int, accepts: Packet -> bool)
    requires Filed(buf) && Key(counter) in buf
    ensures |Flush(buf, counter, missing, now, accepts).buf| < |buf|
  {
    RemovedSize(buf, Key(counter));
    FlushFiled(buf - {Key(counter)}, counter + 1, None, now, accepts);
  }

  // ---------- One turn of the loop, on values ----------

  /** The reorder buffer with the unwrapped value of the expected number, and everything pushed so far. */
  datatype State = State(buf: Buffer, counter: nat, expectedSet: bool, missing: Option<int>, started: bool, collecting: bool,
                         until: int, deadline: int, pre: seq<Packet>, pushed: seq<Push>)

  /** Of two packets with one number the first stays. */
  function Insert(buf: Buffer, packet: Packet): Buffer {
    if packet.SeqNum() in buf then buf else buf[packet.SeqNum() := packet]
  }

  /** The first packet with each sequence number. */
  function FirstOfEach(packets: seq<Packet>): Buffer {
    if packets == [] then map[] else Insert(FirstOfEach(packets[..|packets| - 1]), packets[|packets| - 1])
  }

  ghost predicate KeepsAll(arrange: seq<Packet> -> seq<Packet>) {
    forall ps: seq<Packet> :: multiset(arrange(ps)) == multiset(ps)
  }

  lemma SameSize(a: seq<Packet>, b: seq<Packet>)
    requires multiset(a) == multiset(b)
    ensures |a| == |b|
  {
    assert |a| == |multiset(a)| && |b| == |multiset(b)|;
  }

  predicate DistinctNumbers(packets: seq<Packet>) {
    forall i, j :: 0 <= i < j < |packets| ==> packets[i].SeqNum() != packets[j].SeqNum()
  }

  /** With distinct numbers every packet is filed. */
  lemma {:induction false} FiledOnce(packets: seq<Packet>, key: Seq16, packet: Packet)
    requires DistinctNumbers(packets)
    ensures key in FirstOfEach(packets) && FirstOfEach(packets)[key] == packet <==> packet in packets && packet.SeqNum() == key
  {
    if packets != [] {
      var front, last := packets[..|packets| - 1], packets[|packets| - 1];
      assert packets == front + [last];
      FiledOnce(front, key, packet);
      forall q | q in front
        ensures q.SeqNum() != last.SeqNum()
      {
        var i :| 0 <= i < |front| && front[i] == q;
        assert packets[i] == q;
      }
      if last.SeqNum() in FirstOfEach(front) {
        FiledOnce(front, last.SeqNum(), FirstOfEach(front)[last.SeqNum()]);
      }
    }
  }

  /** Then the order in which packets were kept does not matter to what is collected of them. */
  lemma AnyOrderCollects(a: seq<Packet>, b: seq<Packet>)
    requires multiset(a) == multiset(b) && DistinctNumbers(a) && DistinctNumbers(b)
    ensures FirstOfEach(a) == FirstOfEach(b)
  {
    var x, y := FirstOfEach(a), FirstOfEach(b);
    forall key: Seq16
      ensures key in x <==> key in y
      ensures key in x ==> x[key] == y[key]
    {
      if key in x {
        SameFiled(a, b, key);
      }
      if key in y {
        SameFiled(b, a, key);
      }
    }
    assert x.Keys == y.Keys;
  }

  lemma SameFiled(a: seq<Packet>, b: seq<Packet>, key: Seq16)
    requires multiset(a) == multiset(b) && DistinctNumbers(a) && DistinctNumbers(b) && key in FirstOfEach(a)
    ensures key in FirstOfEach(b) && FirstOfEach(b)[key] == FirstOfEach(a)[key]
  {
    var p := FirstOfEach(a)[key];
    FiledOnce(a, key, p);
    assert p in multiset(b);
    FiledOnce(b, key, p);
  }

  lemma KeptNext(packets: seq<Packet>, i: nat)
    requires i < |packets|
    ensures FirstOfEach(packets[..i + 1]) == Insert(FirstOfEach(packets[..i]), packets[i])
  {
    assert packets[..i + 1][..i] == packets[..i];
  }

  lemma OneMore(buf: Buffer, packet: Packet)
    requires Filed(buf)
    ensures Filed(Insert(buf, packet)) && |Insert(buf, packet)| <= |buf| + 1
  {
  }

  /** Recording is not allowed: everything is forgotten but the packets kept for later. */
  function Waited(s: State): State {
    s.(started := false, collecting := false, expectedSet := false, missing := None, buf := map[])
  }

  /** The newest 500 packets are kept. */
  function Keeping(s: State, arrival: Option<Packet>): State {
    if arrival.None? then s
    else s.(pre := (if |s.pre| >= 500 then s.pre[1..] else s.pre) + [arrival.value])
  }

  /** Collecting starts with the packets kept so far. */
  function Begun(s: State, now: int): State {
    if s.started then s
    else s.(started := true, collecting := true, until := now + STARTUP_WINDOW, deadline := now + STARTUP_DEADLINE,
            buf := FirstOfEach(s.pre), pre := [])
  }

  predicate CollectingEnds(s: State, arrived: int) {
    s.collecting && (|s.buf| >= STARTUP_PACKETS || arrived > s.until || arrived > s.deadline)
  }

  /** The expected number is unwrapped to the first value from here on that agrees with it. */
  predicate Next(from: nat, to: nat) {
    from <= to < from + WRAP
  }

  /** The scan finds `m` in some order of the keys. */
  ghost predicate FoundIn(keys: set<Seq16>, m: Seq16) {
    exists order: seq<Seq16> :: order != [] && Enumerates(order, keys) && MinOver(order) == m
  }

  ghost predicate Ended(s: State, arrived: int, t: State) {
    if CollectingEnds(s, arrived) then
      t == s.(counter := t.counter, expectedSet := true, collecting := false, missing := None)
      && Next(s.counter, t.counter) && FoundIn(s.buf.Keys, Key(t.counter))
    else t == s
  }

  predicate ClosestAfter(buf: Buffer, from: Seq16, m: Seq16) {
    m in buf && forall k :: k in buf ==> (m - from) % WRAP <= (k - from) % WRAP
  }

  /** With too much buffered, packets are taken for lost up to the closest one that is there. */
  predicate Jumped(s: State, t: State) {
    if |s.buf| > MAX_BUFFERED then
      t == s.(counter := t.counter, missing := None)
      && Next(s.counter, t.counter) && ClosestAfter(s.buf, Key(s.counter), Key(t.counter))
    else t == s
  }

  function Flushing(s: State, now: int, accepts: Packet -> bool): Flushed {
    if s.expectedSet then Flush(s.buf, s.counter, s.missing, now, accepts)
    else Flushed(s.buf, s.counter, s.missing, [], true)
  }

  function Drained(s: State, r: Flushed): State {
    s.(buf := r.buf, counter := r.counter, missing := r.missing, pushed := s.pushed + r.pushed)
  }

  // ---------- Where packets belong in the stream ----------

  /** The counter from `c` on that a key stands for. */
  function Unwrap(c: nat, key: Seq16): (k: nat)
    ensures c <= k < c + WRAP && Key(k) == key
  {
    c + (key - c) % WRAP
  }

  lemma UnwrapKey(c: nat, k: nat)
    requires c <= k < c + WRAP
    ensures Unwrap(c, Key(k)) == k
  {
  }

  /** Every packet was pushed at its own place in the stream. */
  predicate AtOwnPlaces(pushed: seq<Push>) {
    forall i :: 0 <= i < |pushed| ==> pushed[i].counter == pushed[i].packet.position
  }

  /** The counter has not passed a place, and is less than a cycle away from it. */
  predicate Ahead(counter: nat, place: nat) {
    counter <= place < counter + WRAP
  }

  /** Every buffered packet is to be pushed at its own place; an empty one is not pushed. */
  predicate Due(buf: Buffer, counter: nat) {
    forall k {:trigger buf[k]} :: k in buf && buf[k].payload != [] ==> Ahead(counter, buf[k].position)
  }

  predicate InPlace(s: State) {
    AtOwnPlaces(s.pushed) && Due(s.buf, s.counter)
  }

  /** Passing one place does not matter to a packet with another number. */
  lemma AheadNext(counter: nat, place: nat)
    requires Key(place) != Key(counter)
    ensures Ahead(counter, place) <==> Ahead(counter + 1, place)
  {
  }

  lemma DueNext(buf: Buffer, counter: nat)
    requires Filed(buf) && Key(counter) !in buf
    ensures Due(buf, counter) <==> Due(buf, counter + 1)
  {
    forall k | k in buf
      ensures Ahead(counter, buf[k].position) <==> Ahead(counter + 1, buf[k].position)
    {
      AheadNext(counter, buf[k].position);
    }
  }

  /** The packet expected now is at its own place if and only if that place is the counter. */
  lemma DueTaken(buf: Buffer, counter: nat)
    requires Filed(buf) && Key(counter) in buf
    ensures var p, rest := buf[Key(counter)], buf - {Key(counter)};
      Filed(rest) && (Due(buf, counter) <==> (p.payload != [] ==> p.position == counter) && Due(rest, counter + 1))
  {
    var p, rest := buf[Key(counter)], buf - {Key(counter)};
    assert Key(p.position) == Key(counter);
    assert Ahead(counter, p.position) <==> p.position == counter by { SameKey(counter, p.position); }
    DueNext(rest, counter);
    if Due(buf, counter) {
      assert forall k :: k in rest ==> rest[k] == buf[k];
    }
    if Due(rest, counter) {
      assert forall k :: k in buf && k != Key(counter) ==> k in rest && buf[k] == rest[k];
    }
  }

  lemma SameKey(counter: nat, place: nat)
    requires Key(place) == Key(counter)
    ensures Ahead(counter, place) <==> place == counter
  {
    if Ahead(counter, place) {
      UnwrapKey(counter, place);
      UnwrapKey(counter, counter);
    }
  }

  lemma PlacesCons(p: Push, rest: seq<Push>)
    ensures AtOwnPlaces([p] + rest) <==> p.counter == p.packet.position && AtOwnPlaces(rest)
  {
    var all := [p] + rest;
    assert all[0] == p && forall i :: 0 <= i < |rest| ==> all[i + 1] == rest[i];
    if AtOwnPlaces(all) {
      forall i | 0 <= i < |rest|
        ensures rest[i].counter == rest[i].packet.position
      {
        assert all[i + 1].counter == all[i + 1].packet.position;
      }
    }
  }

  /** While the sink accepts, flushing neither brings a packet to its place nor takes it away. */
  lemma {:induction false} FlushKeepsPlaces(buf: Buffer, counter: nat, missing: Option<int>, now: int, accepts: Packet -> bool)
    requires Filed(buf) && Flush(buf, counter, missing, now, accepts).ok
    ensures var r := Flush(buf, counter, missing, now, accepts);
      Due(buf, counter) <==> AtOwnPlaces(r.pushed) && Due(r.buf, r.counter)
    decreases |buf|, if TimedOut(missing, now) then 1 else 0
  {
    var e := Key(counter);
    if e in buf {
      var p, rest := buf[e], Flush(buf - {e}, counter + 1, None, now, accepts);
      RemovedSize(buf, e);
      DueTaken(buf, counter);
      FlushKeepsPlaces(buf - {e}, counter + 1, None, now, accepts);
      PlacesCons(Push(counter, p), rest.pushed);
    } else if TimedOut(missing, now) {
      DueNext(buf, counter);
      FlushKeepsPlaces(buf, counter + 1, Some(now), now, accepts);
    }
  }

  lemma JumpDistance(from: nat, to: nat)
    requires Next(from, to)
    ensures to - from == (Key(to) - Key(from)) % WRAP
  {
  }

  /** A jump over places where nothing is buffered does not matter to what is. */
  lemma AheadAfterJump(from: nat, to: nat, place: nat)
    requires Next(from, to) && (Key(to) - Key(from)) % WRAP <= (Key(place) - Key(from)) % WRAP
    ensures Ahead(from, place) <==> Ahead(to, place)
  {
    JumpDistance(from, to);
    if Ahead(from, place) {
      JumpDistance(from, place);
    }
    if Ahead(to, place) {
      JumpDistance(to, place);
      SumOfDistances(Key(from), Key(to), Key(place));
    }
  }

  lemma SumOfDistances(a: Seq16, b: Seq16, c: Seq16)
    requires (b - a) % WRAP <= (c - a) % WRAP
    ensures (b - a) % WRAP + (c - b) % WRAP == (c - a) % WRAP
  {
  }

  lemma JumpKeepsPlaces(s: State, t: State)
    requires Filed(s.buf) && Jumped(s, t)
    ensures InPlace(t) <==> InPlace(s)
  {
    if |s.buf| > MAX_BUFFERED {
      forall k | k in s.buf
        ensures Ahead(s.counter, s.buf[k].position) <==> Ahead(t.counter, s.buf[k].position)
      {
        AheadAfterJump(s.counter, t.counter, s.buf[k].position);
      }
    }
  }

  // ---------- Any run ----------

  /** One turn while recording is allowed: what arrives, if it can be decrypted, and the clock. */
  datatype Turn = Turn(arrival: Option<Packet>, now: int, arrived: int, flushed: int)

  function Stored(s: State, packet: Packet): State {
    s.(buf := Insert(s.buf, packet))
  }

  /** A turn leads from `s` to `t`, in the order of the keys the map happens to yield. */
  ghost predicate Leads(s: State, turn: Turn, accepts: Packet -> bool, t: State) {
    match turn.arrival
    case None => t == Begun(s, turn.now)
    case Some(packet) =>
      exists ended: State, jumped: State ::
        Ended(Stored(Begun(s, turn.now), packet), turn.arrived, ended) && Jumped(ended, jumped)
        && t == Drained(jumped, Flushing(jumped, turn.flushed, accepts))
  }

  /** Flushing goes on: the start is known. */
  predicate Flowing(s: State) {
    s.started && s.expectedSet && !s.collecting && Filed(s.buf)
  }

  /** The packet's number is not passed yet, or the packet makes no difference. */
  predicate InTime(s: State, packet: Packet) {
    packet.SeqNum() in s.buf || packet.payload == [] || Ahead(s.counter, packet.position)
  }

  lemma StoredDue(buf: Buffer, counter: nat, packet: Packet)
    requires Filed(buf)
    ensures Filed(Insert(buf, packet))
    ensures Due(Insert(buf, packet), counter) <==>
      Due(buf, counter) && (packet.SeqNum() in buf || packet.payload == [] || Ahead(counter, packet.position))
  {
    var k := packet.SeqNum();
    if k !in buf {
      var more := buf[k := packet];
      assert more[k] == packet && forall l :: l in buf ==> l in more && more[l] == buf[l];
      if Due(more, counter) {
        assert forall l :: l in buf ==> buf[l] == more[l];
      }
    }
  }

  lemma {:induction false} AcceptingIsOk(buf: Buffer, counter: nat, missing: Option<int>, now: int, accepts: Packet -> bool)
    requires forall p :: accepts(p)
    ensures Flush(buf, counter, missing, now, accepts).ok
    decreases |buf|, if TimedOut(missing, now) then 1 else 0
  {
    var e := Key(counter);
    if e in buf {
      RemovedSize(buf, e);
      AcceptingIsOk(buf - {e}, counter + 1, None, now, accepts);
    } else if TimedOut(missing, now) {
      AcceptingIsOk(buf, counter + 1, Some(now), now, accepts);
    }
  }

  lemma PlacesAppend(a: seq<Push>, b: seq<Push>)
    ensures AtOwnPlaces(a + b) <==> AtOwnPlaces(a) && AtOwnPlaces(b)
  {
    var all := a + b;
    assert forall i :: 0 <= i < |a| ==> all[i] == a[i];
    assert forall i :: 0 <= i < |b| ==> all[|a| + i] == b[i];
    if AtOwnPlaces(all) {
      forall i | 0 <= i < |b|
        ensures b[i].counter == b[i].packet.position
      {
        assert all[|a| + i].counter == all[|a| + i].packet.position;
      }
    }
  }

  lemma DrainKeepsPlaces(s: State, now: int, accepts: Packet -> bool)
    requires Flowing(s) && forall p :: accepts(p)
    ensures var t := Drained(s, Flushing(s, now, accepts)); Flowing(t) && (InPlace(t) <==> InPlace(s))
  {
    AcceptingIsOk(s.buf, s.counter, s.missing, now, accepts);
    FlushKeepsPlaces(s.buf, s.counter, s.missing, now, accepts);
    FlushFiled(s.buf, s.counter, s.missing, now, accepts);
    PlacesAppend(s.pushed, Flushing(s, now, accepts).pushed);
  }

  /** After a turn everything is at its place, pushed or waiting, if and only if it was so before and the arrival was in time. */
  lemma TurnInPlaceIff(s: State, turn: Turn, accepts: Packet -> bool, t: State)
    requires Flowing(s) && Leads(s, turn, accepts, t) && forall p :: accepts(p)
    ensures Flowing(t) && (InPlace(t) <==> InPlace(s) && (turn.arrival.Some? ==> InTime(s, turn.arrival.value)))
  {
    if turn.arrival.Some? {
      var stored := Stored(s, turn.arrival.value);
      var ended: State, jumped: State :| Ended(stored, turn.arrived, ended) && Jumped(ended, jumped)
        && t == Drained(jumped, Flushing(jumped, turn.flushed, accepts));
      StoredDue(s.buf, s.counter, turn.arrival.value);
      assert ended == stored;
      JumpKeepsPlaces(stored, jumped);
      DrainKeepsPlaces(jumped, turn.flushed, accepts);
    }
  }

  ghost predicate IsRun(states: seq<State>, turns: seq<Turn>, accepts: Packet -> bool) {
    |states| == |turns| + 1 && forall i :: 0 <= i < |turns| ==> LeadsAt(states, turns, accepts, i)
  }

  ghost predicate LeadsAt(states: seq<State>, turns: seq<Turn>, accepts: Packet -> bool, i: nat)
    requires i < |turns| && i + 1 < |states|
  {
    Leads(states[i], turns[i], accepts, states[i + 1])
  }

  /** Whatever arrives in the `i`-th turn is in time. */
  predicate InTimeAt(states: seq<State>, turns: seq<Turn>, i: nat)
    requires i < |turns| && i < |states|
  {
    turns[i].arrival.Some? ==> InTime(states[i], turns[i].arrival.value)
  }

  predicate AllInTime(states: seq<State>, turns: seq<Turn>, from: nat, to: nat)
    requires to <= |turns| && to <= |states|
  {
    forall i :: from <= i < to ==> InTimeAt(states, turns, i)
  }

  lemma StepInPlaceIff(states: seq<State>, turns: seq<Turn>, accepts: Packet -> bool, i: nat)
    requires IsRun(states, turns, accepts) && (forall p :: accepts(p)) && i < |turns| && Flowing(states[i])
    ensures Flowing(states[i + 1]) && InPlace(states[i + 1]) == (InPlace(states[i]) && InTimeAt(states, turns, i))
  {
    assert LeadsAt(states, turns, accepts, i);
    TurnInPlaceIff(states[i], turns[i], accepts, states[i + 1]);
  }

  lemma OneMoreInTime(states: seq<State>, turns: seq<Turn>, from: nat, to: nat)
    requires from <= to < |turns| && to < |states|
    ensures AllInTime(states, turns, from, to + 1) <==> AllInTime(states, turns, from, to) && InTimeAt(states, turns, to)
  {
  }

  /**
   * Over any run, with any loss, duplication, reordering and timeouts: after collecting, everything stays at its own
   * place in the stream, pushed or waiting, if and only if it was there and no packet arrives after its number was
   * passed, or a cycle early.
   */
  lemma {:induction false} InPlaceIff(states: seq<State>, turns: seq<Turn>, accepts: Packet -> bool, e: nat, n: nat)
    requires IsRun(states, turns, accepts) && (forall p :: accepts(p)) && e <= n <= |turns| && Flowing(states[e])
    ensures Flowing(states[n])
    ensures InPlace(states[n]) <==> InPlace(states[e]) && AllInTime(states, turns, e, n)
    decreases n
  {
    if e < n {
      InPlaceIff(states, turns, accepts, e, n - 1);
      OneMoreInTime(states, turns, e, n - 1);
      StepInPlaceIff(states, turns, accepts, n - 1);
    }
  }

  /** The turn that ends collecting, with all that was collected in the half circle after `m`. */
  predicate EndsCollecting(s: State, turn: Turn, m: Seq16) {
    s.started && s.collecting && !s.expectedSet && Filed(s.buf) && turn.arrival.Some?
    && var stored := Stored(s, turn.arrival.value);
    CollectingEnds(stored, turn.arrived) && HalfCircle(stored.buf.Keys, m)
  }

  /** All that was pushed before is in its place, and all that was collected is due from `m` on. */
  predicate CollectedInPlace(s: State, packet: Packet, m: Seq16) {
    AtOwnPlaces(s.pushed) && Due(Insert(s.buf, packet), Unwrap(s.counter, m))
  }

  /** Then `m` is the number expected when collecting ends. */
  lemma EndsAtFirst(s: State, arrived: int, t: State, m: Seq16)
    requires CollectingEnds(s, arrived) && Ended(s, arrived, t) && HalfCircle(s.buf.Keys, m)
    ensures t.counter == Unwrap(s.counter, m)
  {
    LeastIsHalfCircle(s.buf.Keys, m);
    var order: seq<Seq16> :| order != [] && Enumerates(order, s.buf.Keys) && MinOver(order) == Key(t.counter);
    LeastIsFound(order, s.buf.Keys, m);
    UnwrapKey(s.counter, t.counter);
  }

  /** That turn puts everything in its place if and only if all that was collected is due from there on. */
  lemma EndInPlaceIff(s: State, turn: Turn, accepts: Packet -> bool, t: State, m: Seq16)
    requires EndsCollecting(s, turn, m) && Leads(s, turn, accepts, t) && forall p :: accepts(p)
    ensures Flowing(t) && (InPlace(t) <==> CollectedInPlace(s, turn.arrival.value, m))
  {
    var stored := Stored(s, turn.arrival.value);
    var ended: State, jumped: State :| Ended(stored, turn.arrived, ended) && Jumped(ended, jumped)
      && t == Drained(jumped, Flushing(jumped, turn.flushed, accepts));
    EndsAtFirst(stored, turn.arrived, ended, m);
    OneMore(s.buf, turn.arrival.value);
    JumpKeepsPlaces(ended, jumped);
    DrainKeepsPlaces(jumped, turn.flushed, accepts);
  }

  /** So over a whole run, from the turn `e` that ends collecting. */
  lemma WholeRunInPlaceIff(states: seq<State>, turns: seq<Turn>, accepts: Packet -> bool, e: nat, m: Seq16)
    requires IsRun(states, turns, accepts) && (forall p :: accepts(p)) && e < |turns| && EndsCollecting(states[e], turns[e], m)
    ensures InPlace(states[|turns|]) <==>
      CollectedInPlace(states[e], turns[e].arrival.value, m) && AllInTime(states, turns, e + 1, |turns|)
  {
    FlowsAfter(states, turns, accepts, e, m);
    InPlaceIff(states, turns, accepts, e + 1, |turns|);
  }

  lemma FlowsAfter(states: seq<State>, turns: seq<Turn>, accepts: Packet -> bool, e: nat, m: Seq16)
    requires IsRun(states, turns, accepts) && (forall p :: accepts(p)) && e < |turns| && EndsCollecting(states[e], turns[e], m)
    ensures Flowing(states[e + 1])
    ensures InPlace(states[e + 1]) <==> CollectedInPlace(states[e], turns[e].arrival.value, m)
  {
    assert LeadsAt(states, turns, accepts, e);
    EndInPlaceIff(states[e], turns[e], accepts, states[e + 1], m);
  }

  /** What is pushed at its own place is pushed in the order of the stream, and once. */
  lemma InPlaceIsInOrder(pushed: seq<Push>, lo: nat, hi: nat, i: nat, j: nat)
    requires Increasing(pushed, lo, hi) && AtOwnPlaces(pushed) && i < j < |pushed|
    ensures pushed[i].packet.position < pushed[j].packet.position
  {
  }

  // ---------- Where it fails ----------

  /** A late packet stays, keeps out the next one with its number, and is pushed in its place. */
  lemma LateKeepsNewerOut(buf: Buffer, late: Packet, newer: Packet, missing: Option<int>, now: int, accepts: Packet -> bool)
    requires Filed(buf) && newer.SeqNum() in buf && buf[newer.SeqNum()] == late
    requires late.payload != [] && accepts(late)
    ensures Insert(buf, newer) == buf
    ensures var r := Flush(buf, newer.position, missing, now, accepts); r.pushed != [] && r.pushed[0] == Push(newer.position, late)
  {
  }

  /** Such packets: one that came too late at place 50, and the one a cycle later. */
  lemma LateExample(now: int, accepts: Packet -> bool)
    requires forall p :: accepts(p)
    ensures var late, newer := Packet(50, [1]), Packet(50 + WRAP, [2]);
      var r := Flush(Insert(map[50 := late], newer), newer.position, None, now, accepts);
      r.pushed != [] && r.pushed[0] == Push(50 + WRAP, late)
  {
    var late, newer := Packet(50, [1]), Packet(50 + WRAP, [2]);
    LateKeepsNewerOut(map[50 := late], late, newer, None, now, accepts);
  }

  /** The jump on overflow goes forward in 16-bit order if and only if some number lies in the half circle ahead. */
  lemma JumpIsForwardIff(buf: Buffer, from: Seq16, m: Seq16)
    requires ClosestAfter(buf, from, m)
    ensures !SeqLess(m, from) <==> exists k :: k in buf && (k - from) % 0x1_0000 < 0x8000
  {
    if !SeqLess(m, from) {
      assert m in buf && (m - from) % 0x1_0000 < 0x8000;
    }
  }

  lemma {:induction false} RangeSize(keys: set<nat>, lo: nat, n: nat)
    requires forall k :: k in keys <==> lo <= k < lo + n
    ensures |keys| == n
    decreases n
  {
    if n == 0 {
      assert keys == {};
    } else {
      RangeSize(keys - {lo + n - 1}, lo, n - 1);
    }
  }

  /** It is made exactly with more than 512 packets buffered, and leads to one of them. */
  lemma JumpsAbove(s: State, t: State)
    requires Jumped(s, t)
    ensures if |s.buf| <= 512 then t == s else t == s.(counter := t.counter, missing := None) && t.counter % 0x1_0000 in s.buf
    ensures s.counter <= t.counter && forall c :: s.counter <= c < t.counter && |s.buf| > 512 ==> c % 0x1_0000 !in s.buf
  {
    if |s.buf| > 512 {
      forall c | s.counter <= c < t.counter
        ensures c % 0x1_0000 !in s.buf
      {
        CloserIsAbsent(s.buf, s.counter, c, t.counter);
      }
    }
  }

  lemma AheadOf(from: nat, c: nat)
    requires from <= c < from + WRAP
    ensures (Key(c) - Key(from)) % WRAP == c - from
  {
    assert c / WRAP == from / WRAP || c / WRAP == from / WRAP + 1;
  }

  lemma CloserIsAbsent(buf: Buffer, from: nat, c: nat, to: nat)
    requires from <= c < to < from + 0x1_0000 && ClosestAfter(buf, Key(from), Key(to))
    ensures c % 0x1_0000 !in buf
  {
    AheadOf(from, c);
    AheadOf(from, to);
    assert Key(c) == c % 0x1_0000;
  }

  /** It goes back with 513 packets numbered 100 to 612 and 1000 expected. */
  lemma JumpsBack(buf: Buffer)
    requires forall k :: k in buf.Keys <==> 100 <= k < 613
    ensures |buf| > 512 && ClosestAfter(buf, 1000, 100) && SeqLess(100, 1000)
  {
    RangeSize(buf.Keys, 100, 513);
    assert |buf| == |buf.Keys|;
    forall k | k in buf
      ensures (100 - 1000) % WRAP <= (k - 1000) % WRAP
    {
      assert k in buf.Keys;
    }
  }

  // ---------- The loop the source runs ----------

  class Reorder {
    var buf: Buffer
    var expected: Seq16
    var expectedSet: bool
    var missing: Option<int>
    var started: bool
    var collecting: bool
    var collectUntil: int
    var collectDeadline: int
    /** Packets kept while recording is not allowed. */
    var pre: seq<Packet>
    /** The unwrapped value of `expected`. */
    ghost var counter: nat
    ghost var pushed: seq<Push>

    /** What holds whenever the loop looks for the next packet. */
    ghost predicate Valid()
      reads this
    {
      Filed(buf) && |buf| <= MAX_BUFFERED && |pre| <= PRE_BUFFER_MAX
      && (expectedSet ==> expected == Key(counter))
      && (started ==> expectedSet || collecting) && (!started ==> buf == map[] && !expectedSet && !collecting)
      && Increasing(pushed, 0, counter)
    }

    constructor ()
      ensures Valid() && pushed == [] && pre == [] && !started && counter == 0
    {
      buf, expected, expectedSet, missing, started, collecting := map[], 0, false, None, false, false;
      collectUntil, collectDeadline, pre, counter, pushed := 0, 0, [], 0, [];
    }

    ghost function Now(): State
      reads this
    {
      State(buf, counter, expectedSet, missing, started, collecting, collectUntil, collectDeadline, pre, pushed)
    }

    /** Keeps the newest 500. */
    method EnqueuePreAudio(packet: Packet)
      requires |pre| <= PRE_BUFFER_MAX
      modifies `pre
      ensures pre == (if |old(pre)| >= 500 then old(pre)[1..] else old(pre)) + [packet]
      ensures |pre| <= PRE_BUFFER_MAX
    {
      if |pre| >= PRE_BUFFER_MAX {
        pre := pre[1..];
      }
      pre := pre + [packet];
    }

    /** The head of a turn while recording is not allowed. */
    method Forget()
      requires Valid()
      modifies this
      ensures Valid() && Now() == Waited(old(Now()))
    {
      started, collecting, expectedSet, missing, buf := false, false, false, None, map[];
    }

    /** A turn while recording is not allowed. `arrival` is `None` when the packet could not be decrypted. */
    method Wait(arrival: Option<Packet>)
      requires Valid()
      modifies this
      ensures Valid() && Now() == Keeping(Waited(old(Now())), arrival)
    {
      Forget();
      if arrival.Some? {
        EnqueuePreAudio(arrival.value);
      }
    }

    /** The packets kept so far are dropped when recording is activated. */
    method ClearKept()
      requires Valid()
      modifies `pre
      ensures Valid() && Now() == old(Now()).(pre := [])
    {
      pre := [];
    }

    /**
     * At a recording's first keyframe the kept packets, received at `times`, are trimmed and sorted; of the sorting, whose
     * comparison wraps around, nothing is assumed but that it keeps the packets.
     */
    method TrimKept(times: seq<int>, now: int, arrange: seq<Packet> -> seq<Packet>) returns (k: nat, ghost r: nat)
      requires Valid() && |times| == |pre| && KeepsAll(arrange)
      modifies `pre
      ensures Valid() && k <= |times| && PreAudio.TrimmedAt(times, now, r, k)
      ensures Now() == old(Now()).(pre := arrange(old(pre)[k..]))
    {
      k, r := PreAudio.FindTrim(times, now);
      SameSize(arrange(pre[k..]), pre[k..]);
      pre := arrange(pre[k..]);
    }

    /** Starts collecting, with the packets kept so far; of several with one number the first stays. */
    method Begin(now: int)
      requires Valid()
      modifies this
      ensures Valid() && Now() == Begun(old(Now()), now)
    {
      if started {
        return;
      }
      started, collecting := true, true;
      collectUntil, collectDeadline := now + STARTUP_WINDOW, now + STARTUP_DEADLINE;
      TakeKept();
    }

    method TakeKept()
      requires buf == map[]
      modifies `buf, `pre
      ensures buf == FirstOfEach(old(pre)) && |buf| <= |old(pre)| && Filed(buf) && pre == []
    {
      ghost var all := pre;
      ghost var taken := 0;
      while pre != []
        invariant taken <= |all| && pre == all[taken..]
        invariant buf == FirstOfEach(all[..taken]) && |buf| <= taken && Filed(buf)
        decreases |pre|
      {
        KeptNext(all, taken);
        OneMore(buf, pre[0]);
        if pre[0].SeqNum() !in buf {
          buf := buf[pre[0].SeqNum() := pre[0]];
        }
        pre := pre[1..];
        taken := taken + 1;
      }
      assert all[..taken] == all;
    }

    method MinSeqInBuffer() returns (m: Seq16, ghost order: seq<Seq16>)
      requires buf != map[]
      ensures m in buf && order != [] && Enumerates(order, buf.Keys) && m == MinOver(order)
    {
      var keys := buf.Keys;
      m :| m in keys;
      keys := keys - {m};
      order := [m];
      while keys != {}
        invariant order != [] && m == MinOver(order) && m in buf
        invariant keys <= buf.Keys && Enumerates(order, buf.Keys - keys)
      {
        var k :| k in keys;
        assert (order + [k])[..|order|] == order;
        if SeqLess(k, m) {
          m := k;
        }
        order := order + [k];
        keys := keys - {k};
        assert forall x :: x in buf.Keys - keys <==> x in order;
      }
    }

    /** The buffered number closest after the expected one. */
    method Closest() returns (best: Seq16)
      requires |buf| > 1
      ensures ClosestAfter(buf, expected, best)
    {
      best := expected;
      var dist := 0xFFFF;
      var keys := buf.Keys;
      while keys != {}
        invariant forall k :: k in buf && k !in keys ==> dist <= (k - expected) % WRAP
        invariant keys <= buf.Keys && (dist == 0xFFFF || (best in buf && dist == (best - expected) % WRAP))
      {
        var k :| k in keys;
        var d := (k - expected) % WRAP;
        if d < dist {
          dist, best := d, k;
        }
        keys := keys - {k};
      }
      ClosestFound(buf, expected, best, dist);
    }

    method TryFlush(now: int, accepts: Packet -> bool) returns (ok: bool)
      requires expectedSet ==> expected == Key(counter)
      modifies `buf, `expected, `missing, `counter, `pushed
      ensures !expectedSet ==> ok && buf == old(buf) && counter == old(counter) && missing == old(missing) && pushed == old(pushed)
      ensures expectedSet ==> expected == Key(counter)
      ensures expectedSet ==>
        var r := Flush(old(buf), old(counter), old(missing), now, accepts);
        buf == r.buf && counter == r.counter && missing == r.missing && ok == r.ok && pushed == old(pushed) + r.pushed
    {
      if !expectedSet {
        return true;
      }
      ghost var goal := Flush(buf, counter, missing, now, accepts);
      ghost var before := pushed;
      ghost var done: seq<Push> := [];
      ok := true;
      var more := true;
      while more
        invariant expected == Key(counter) && pushed == before + done
        invariant if more then ok && goal == Prefixed(done, Flush(buf, counter, missing, now, accepts))
          else goal == Flushed(buf, counter, missing, done, ok)
        decreases more, |buf|, if TimedOut(missing, now) then 1 else 0
      {
        ghost var item: seq<Push>;
        more, ok, item := FlushOne(now, accepts);
        JoinTurn(before, done, item, Flush(buf, counter, missing, now, accepts));
        done := done + item;
      }
    }

    /** Expects `m` next: the counter moves to the first value from here on that agrees with it. */
    method Expect(m: Seq16)
      requires Increasing(pushed, 0, counter)
      modifies `expected, `missing, `counter
      ensures expected == m == Key(counter) && missing == None && old(counter) <= counter < old(counter) + WRAP
      ensures Increasing(pushed, 0, counter)
    {
      Congruent(counter, m);
      counter := counter + (m - Key(counter)) % WRAP;
      expected, missing := m, None;
    }

    /**
     * A turn while recording is allowed: `now` when it starts, `arrived` after the read, `flushed` when flushing.
     * The buffer is within its bound again when the next turn starts.
     */
    method Receive(arrival: Option<Packet>, now: int, arrived: int, flushed: int, accepts: Packet -> bool)
      returns (alive: bool, ghost ended: State, ghost jumped: State)
      requires Valid()
      modifies this
      ensures Valid() && started && old(pushed) <= pushed && old(counter) <= counter
      ensures Leads(old(Now()), Turn(arrival, now, arrived, flushed), accepts, Now())
      ensures arrival.None? ==> alive && Now() == Begun(old(Now()), now)
      ensures arrival.Some? ==>
        Ended(Stored(Begun(old(Now()), now), arrival.value), arrived, ended) && Jumped(ended, jumped)
      ensures arrival.Some? ==>
        var r := Flushing(jumped, flushed, accepts);
        Now() == Drained(jumped, r) && alive == r.ok
    {
      Begin(now);
      ended, jumped := Now(), Now();
      if arrival.None? {
        return true, ended, jumped;
      }
      alive, ended, jumped := Take(arrival.value, arrived, flushed, accepts);
    }

    /** The rest of such a turn, once a packet has been read. */
    method Take(packet: Packet, arrived: int, flushed: int, accepts: Packet -> bool)
      returns (alive: bool, ghost ended: State, ghost jumped: State)
      requires Valid() && started
      modifies this
      ensures Valid() && started && old(pushed) <= pushed && old(counter) <= counter
      ensures Ended(Stored(old(Now()), packet), arrived, ended) && Jumped(ended, jumped)
      ensures var r := Flushing(jumped, flushed, accepts); Now() == Drained(jumped, r) && alive == r.ok
    {
      Store(packet);
      EndCollecting(arrived);
      ended := Now();
      JumpForward();
      jumped := Now();
      alive := Drain(flushed, accepts);
    }

    /** What holds in the middle of such a turn, with at most `limit` packets buffered. */
    ghost predicate Running(limit: nat)
      reads this
    {
      Filed(buf) && |buf| <= limit && |pre| <= PRE_BUFFER_MAX
      && (expectedSet ==> expected == Key(counter))
      && started && (expectedSet || collecting)
      && Increasing(pushed, 0, counter)
    }

    /** Of two packets with one number the first stays. */
    method Store(packet: Packet)
      requires Running(MAX_BUFFERED)
      modifies `buf
      ensures Running(MAX_BUFFERED + 1) && packet.SeqNum() in buf && buf == Insert(old(buf), packet)
    {
      if packet.SeqNum() !in buf {
        buf := buf[packet.SeqNum() := packet];
      }
    }

    method EndCollecting(arrived: int)
      requires Running(MAX_BUFFERED + 1) && buf != map[]
      modifies `expected, `expectedSet, `missing, `collecting, `counter
      ensures Running(MAX_BUFFERED + 1) && old(counter) <= counter
      ensures |buf| >= STARTUP_PACKETS ==> expectedSet
      ensures Ended(old(Now()), arrived, Now())
    {
      if collecting && (|buf| >= STARTUP_PACKETS || arrived > collectUntil || arrived > collectDeadline) {
        ExpectFirst();
      }
    }

    /** Expects the earliest number collected. */
    method ExpectFirst()
      requires Running(MAX_BUFFERED + 1) && buf != map[]
      modifies `expected, `expectedSet, `missing, `collecting, `counter
      ensures Running(MAX_BUFFERED + 1) && expectedSet
      ensures Now() == old(Now()).(counter := counter, expectedSet := true, collecting := false, missing := None)
      ensures Next(old(counter), counter) && FoundIn(buf.Keys, Key(counter))
    {
      var m, order := MinSeqInBuffer();
      assert FoundIn(buf.Keys, m);
      Expect(m);
      expectedSet, collecting := true, false;
    }

    /** With too much buffered, packets are taken for lost up to the closest one that is there. */
    method JumpForward()
      requires Running(MAX_BUFFERED + 1) && (|buf| > MAX_BUFFERED ==> expectedSet)
      modifies `expected, `missing, `counter
      ensures Running(MAX_BUFFERED + 1) && old(counter) <= counter
      ensures |buf| > MAX_BUFFERED ==> expected in buf
      ensures Jumped(old(Now()), Now())
    {
      if |buf| > MAX_BUFFERED {
        if expectedSet {
          var best := Closest();
          Expect(best);
        } else {
          // Collecting ends at twenty packets, so the source's second fallback is never reached.
          assert false;
        }
      }
    }

    method Drain(flushed: int, accepts: Packet -> bool) returns (alive: bool)
      requires Running(MAX_BUFFERED + 1) && (|buf| > MAX_BUFFERED ==> expectedSet && expected in buf)
      modifies `buf, `expected, `missing, `counter, `pushed
      ensures Running(MAX_BUFFERED) && old(pushed) <= pushed && old(counter) <= counter
      ensures var r := Flushing(old(Now()), flushed, accepts); Now() == Drained(old(Now()), r) && alive == r.ok
    {
      FlushFiled(buf, counter, missing, flushed, accepts);
      FlushForward(buf, counter, missing, flushed, accepts);
      FlushIncreasing(buf, counter, missing, flushed, accepts);
      if expectedSet && expected in buf {
        FlushShrinks(buf, counter, missing, flushed, accepts);
      }
      ghost var before, at := pushed, counter;
      ghost var goal := Flush(buf, counter, missing, flushed, accepts);
      alive := TryFlush(flushed, accepts);
      if expectedSet {
        IncreasingOn(before, goal.pushed, at, counter);
      }
    }

    /** One turn of the loop: takes a packet, gives one up, or stops. */
    method FlushOne(now: int, accepts: Packet -> bool) returns (more: bool, ok: bool, ghost item: seq<Push>)
      requires expected == Key(counter)
      modifies `buf, `expected, `missing, `counter, `pushed
      ensures expected == Key(counter) && pushed == old(pushed) + item
      ensures more ==> ok
      ensures more ==> old(Flush(buf, counter, missing, now, accepts)) == Prefixed(item, Flush(buf, counter, missing, now, accepts))
      ensures !more ==> old(Flush(buf, counter, missing, now, accepts)) == Flushed(buf, counter, missing, [], ok) && item == []
      ensures more ==> |buf| < old(|buf|) || (|buf| == old(|buf|) && old(TimedOut(missing, now)) && !TimedOut(missing, now))
    {
      if expected in buf {
        more, item := TakeExpected(now, accepts);
        return more, more, item;
      }
      more := PassGap(now, accepts);
      return more, true, [];
    }

    /** The expected packet leaves the buffer, and is pushed unless it is empty. */
    method TakeExpected(now: int, accepts: Packet -> bool) returns (ok: bool, ghost item: seq<Push>)
      requires expected == Key(counter) && expected in buf
      modifies `buf, `expected, `missing, `counter, `pushed
      ensures expected == Key(counter) && pushed == old(pushed) + item && |buf| < old(|buf|)
      ensures old(Flush(buf, counter, missing, now, accepts)) ==
        if ok then Prefixed(item, Flush(buf, counter, missing, now, accepts)) else Flushed(buf, counter, missing, [], false)
      ensures !ok ==> item == []
    {
      var packet := buf[expected];
      RemovedSize(buf, expected);
      KeyNext(counter);
      buf := buf - {expected};
      missing := None;
      expected, counter := (expected + 1) % WRAP, counter + 1;
      item := [];
      ok := packet.payload == [] || accepts(packet);
      if packet.payload != [] && ok {
        item := [Push(counter - 1, packet)];
        pushed := pushed + item;
      }
    }

    /** At a gap: after 200 ms the packet is given up. */
    method PassGap(now: int, accepts: Packet -> bool) returns (more: bool)
      requires expected == Key(counter) && expected !in buf
      modifies `expected, `missing, `counter
      ensures expected == Key(counter) && more == old(TimedOut(missing, now)) && !TimedOut(missing, now)
      ensures old(Flush(buf, counter, missing, now, accepts)) ==
        if more then Flush(buf, counter, missing, now, accepts) else Flushed(buf, counter, missing, [], true)
    {
      if missing.None? {
        missing := Some(now);
        return false;
      }
      more := now - missing.value >= MISSING_WAIT;
      if more {
        KeyNext(counter);
        expected, counter := (expected + 1) % WRAP, counter + 1;
        missing := Some(now);
      }
    }
  }

  lemma Congruent(counter: nat, m: Seq16)
    ensures Key(counter + (m - Key(counter)) % WRAP) == m
  {
  }

  lemma IncreasingOn(a: seq<Push>, b: seq<Push>, middle: nat, end: nat)
    requires Increasing(a, 0, middle) && Increasing(b, middle, end) && middle <= end
    ensures Increasing(a + b, 0, end)
  {
  }

  lemma KeyNext(counter: nat)
    ensures Key(counter + 1) == (Key(counter) + 1) % WRAP
  {
  }

  lemma JoinTurn(before: seq<Push>, done: seq<Push>, item: seq<Push>, rest: Flushed)
    ensures before + done + item == before + (done + item)
    ensures Prefixed(done, Prefixed(item, rest)) == Prefixed(done + item, rest)
  {
    assert done + (item + rest.pushed) == (done + item) + rest.pushed;
  }

  function Prefixed(done: seq<Push>, rest: Flushed): Flushed {
    rest.(pushed := done + rest.pushed)
  }

  lemma ClosestFound(buf: Buffer, from: Seq16, best: Seq16, dist: nat)
    requires |buf| > 1 && forall k :: k in buf ==> dist <= (k - from) % WRAP
    requires dist == 0xFFFF || (best in buf && dist == (best - from) % WRAP)
    ensures ClosestAfter(buf, from, best)
  {
    if dist == 0xFFFF {
      OneFarthest(buf, from);
    }
  }

  lemma OneFarthest(buf: Buffer, expected: Seq16)
    requires forall k :: k in buf ==> (k - expected) % WRAP == 0xFFFF
    ensures |buf| <= 1
  {
    var far: Seq16 := (expected + 0xFFFF) % WRAP;
    assert forall k :: k in buf ==> k == far;
    assert buf.Keys <= {far};
    if buf.Keys == {far} {
      assert |buf| == |buf.Keys| == 1;
    } else {
      assert buf.Keys == {};
      assert |buf| == |buf.Keys| == 0;
    }
  }
}
