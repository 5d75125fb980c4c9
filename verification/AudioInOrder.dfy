/** A gapless audio stream, shuffled within the buffer's reach, is pushed in order (recorder.go). */
module AudioInOrder {
  import opened Common
  import opened AudioReorder

  /** The farthest a packet may arrive from its place without overflowing the buffer. */
  const REACH := 511

  /** An endless stream: the packet with each unwrapped counter, none empty and all accepted. */
  datatype Stream = Stream(packet: nat -> Packet, accepts: Packet -> bool)

  ghost predicate Sound(stream: Stream) {
    forall k: nat {:trigger stream.packet(k)} ::
      var p := stream.packet(k); p.position == k && p.payload != [] && stream.accepts(p)
  }

  predicate Near(counter: nat, first: nat, i: nat, reach: nat) {
    first <= counter && first + i <= counter + reach && counter <= first + i + reach
  }

  /** The counters `first`, `first + 1`, ... in some order, each within reach of its place. */
  ghost predicate Shuffled(arrivals: seq<nat>, first: nat, reach: nat) {
    reach <= REACH
    && (forall i :: 0 <= i < |arrivals| ==> Near(arrivals[i], first, i, reach) && arrivals[i] < first + |arrivals|)
    && (forall i, j :: 0 <= i < j < |arrivals| ==> arrivals[i] != arrivals[j])
    && (forall k :: first <= k < first + |arrivals| ==> k in arrivals)
  }

  /** The readings of the clock: no packet arrives so late that the 200 ms wait for it runs out. */
  ghost predicate Prompt(times: nat -> int, reach: nat) {
    forall i: nat, j: nat {:trigger times(i), times(j)} :: i <= j <= i + reach + 1 ==> times(j) - times(i) < 200
  }

  /** The clock at the head of each turn, after each read, and when flushing after so many arrivals. */
  datatype Clock = Clock(starts: nat -> int, arrived: nat -> int, flushes: nat -> int)

  /**
   * A stream, the order in which its packets arrive, and the clock meanwhile. The first `kept` arrivals come while
   * recording is not allowed yet.
   */
  datatype Run = Run(stream: Stream, arrivals: seq<nat>, first: nat, reach: nat, clock: Clock, kept: nat)

  ghost predicate Legal(run: Run) {
    Sound(run.stream) && Shuffled(run.arrivals, run.first, run.reach) && Prompt(run.clock.flushes, run.reach)
    && run.first < 0x1_0000 && run.kept <= |run.arrivals| && run.kept <= 500
  }

  /** Collecting can end with the `i`-th arrival: with twenty packets, or after the window. */
  predicate EndsAt(run: Run, i: nat) {
    run.kept < i
    && var began, now := run.clock.starts(run.kept), run.clock.arrived(i - 1);
    i >= 20 || now > began + 250 || now > began + 750
  }

  predicate NoneEnds(run: Run, n: nat) {
    forall i: nat :: i <= n ==> !EndsAt(run, i)
  }

  /** So many packets are collected before any is pushed. */
  predicate IsCollected(run: Run, m: nat) {
    0 < m <= |run.arrivals| && EndsAt(run, m) && NoneEnds(run, m - 1)
  }

  function Arrival(run: Run, i: nat): Packet
    requires i < |run.arrivals|
  {
    run.stream.packet(run.arrivals[i])
  }

  /** The packets from `lo` up to `hi`, in order. */
  function InOrder(stream: Stream, lo: nat, hi: nat): (r: seq<Push>)
    requires lo <= hi
    ensures |r| == hi - lo
  {
    seq(hi - lo, i requires 0 <= i => Push(lo + i, stream.packet(lo + i)))
  }

  // ---------- Unwrapping ----------

  lemma UnwrapNext(c: nat, key: Seq16)
    requires key != Key(c)
    ensures Unwrap(c + 1, key) == Unwrap(c, key)
  {
    UnwrapKey(c + 1, Unwrap(c, key));
  }

  // ---------- What is waiting ----------

  /** Everything before `c` has arrived, and the buffer holds exactly what has arrived from `c` on. */
  ghost predicate Waiting(stream: Stream, first: nat, arrived: set<nat>, buf: Buffer, c: nat) {
    first <= c && |buf| == |arrived| - (c - first)
    && (forall k :: first <= k < c ==> k in arrived)
    && (forall k :: k in arrived ==> k < c + WRAP)
    && (forall k {:trigger Key(k)} :: k in arrived && k >= c ==> Key(k) in buf && buf[Key(k)] == stream.packet(k))
    && (forall key {:trigger Unwrap(c, key)} :: key in buf ==> Unwrap(c, key) in arrived)
  }

  /** Taking the expected packet. */
  lemma TakeOne(stream: Stream, first: nat, arrived: set<nat>, buf: Buffer, c: nat)
    requires Waiting(stream, first, arrived, buf, c) && Key(c) in buf
    ensures c in arrived && buf[Key(c)] == stream.packet(c)
    ensures Waiting(stream, first, arrived, buf - {Key(c)}, c + 1)
  {
    var rest := buf - {Key(c)};
    UnwrapKey(c, c);
    assert Unwrap(c, Key(c)) in arrived;
    RemovedSize(buf, Key(c));
    forall k | k in arrived && k >= c + 1
      ensures Key(k) in rest && rest[Key(k)] == stream.packet(k)
    {
      UnwrapKey(c, k);
    }
    forall key | key in rest
      ensures Unwrap(c + 1, key) in arrived
    {
      UnwrapNext(c, key);
    }
  }

  /** A gap: the expected packet has not arrived. */
  lemma GapIsReal(stream: Stream, first: nat, arrived: set<nat>, buf: Buffer, c: nat)
    requires Waiting(stream, first, arrived, buf, c) && Key(c) !in buf
    ensures c !in arrived
  {
  }

  lemma InOrderFrom(stream: Stream, lo: nat, hi: nat)
    requires lo < hi
    ensures InOrder(stream, lo, hi) == [Push(lo, stream.packet(lo))] + InOrder(stream, lo + 1, hi)
  {
  }

  /** Flushing pushes a run of packets in order and stops at the first that has not arrived. */
  lemma {:induction false} FlushInOrder(stream: Stream, first: nat, arrived: set<nat>, buf: Buffer, c: nat,
                                        missing: Option<int>, now: int)
    requires Sound(stream) && Waiting(stream, first, arrived, buf, c) && !TimedOut(missing, now)
    ensures var r := Flush(buf, c, missing, now, stream.accepts);
      r.ok && c <= r.counter && Waiting(stream, first, arrived, r.buf, r.counter) && r.counter !in arrived
      && r.pushed == InOrder(stream, c, r.counter)
    ensures var r := Flush(buf, c, missing, now, stream.accepts);
      r.missing.Some? && (r.missing == Some(now) || (r.missing == missing && r.counter == c))
    decreases |buf|
  {
    if Key(c) in buf {
      TakeOne(stream, first, arrived, buf, c);
      RemovedSize(buf, Key(c));
      FlushInOrder(stream, first, arrived, buf - {Key(c)}, c + 1, None, now);
      InOrderFrom(stream, c, Flush(buf, c, missing, now, stream.accepts).counter);
    } else {
      GapIsReal(stream, first, arrived, buf, c);
    }
  }

  // ---------- Arrivals ----------

  function Arrived(arrivals: seq<nat>, i: nat): set<nat>
    requires i <= |arrivals|
  {
    if i == 0 then {} else Arrived(arrivals, i - 1) + {arrivals[i - 1]}
  }

  lemma {:induction false} ArrivedIs(arrivals: seq<nat>, first: nat, i: nat, k: nat)
    requires i <= |arrivals|
    ensures k in Arrived(arrivals, i) <==> k in arrivals[..i]
  {
    if i > 0 {
      ArrivedIs(arrivals, first, i - 1, k);
      assert arrivals[..i] == arrivals[..i - 1] + [arrivals[i - 1]];
    }
  }

  lemma {:induction false} InArrived(arrivals: seq<nat>, i: nat, p: nat)
    requires i <= |arrivals| && p < |arrivals|
    ensures p < i ==> arrivals[p] in Arrived(arrivals, i)
  {
    if i > 0 {
      InArrived(arrivals, i - 1, p);
    }
  }

  lemma NotYet(arrivals: seq<nat>, first: nat, reach: nat, i: nat, j: nat)
    requires Shuffled(arrivals, first, reach) && i <= j < |arrivals|
    ensures arrivals[j] !in Arrived(arrivals, i)
  {
    ArrivedIs(arrivals, first, i, arrivals[j]);
  }

  lemma {:induction false} ArrivedCount(arrivals: seq<nat>, first: nat, reach: nat, i: nat)
    requires Shuffled(arrivals, first, reach) && i <= |arrivals|
    ensures |Arrived(arrivals, i)| == i
  {
    if i > 0 {
      ArrivedCount(arrivals, first, reach, i - 1);
      NotYet(arrivals, first, reach, i - 1, i - 1);
    }
  }

  /** One more packet, from the expected one on. */
  lemma InsertOne(stream: Stream, first: nat, arrived: set<nat>, buf: Buffer, c: nat, x: nat)
    requires Sound(stream) && Waiting(stream, first, arrived, buf, c) && x !in arrived && c <= x < c + WRAP
    ensures var r := Insert(buf, stream.packet(x));
      Waiting(stream, first, arrived + {x}, r, c) && |r| == |buf| + 1
  {
    UnwrapKey(c, x);
    assert stream.packet(x).SeqNum() == Key(x);
    assert Key(x) !in buf;
    var r := Insert(buf, stream.packet(x));
    forall k | k in arrived + {x} && k >= c
      ensures Key(k) in r && r[Key(k)] == stream.packet(k)
    {
      UnwrapKey(c, k);
    }
  }

  /** A packet that is still missing is not late by more than its reach, so the others have not run far ahead. */
  lemma NotFarAhead(stream: Stream, arrivals: seq<nat>, first: nat, reach: nat, i: nat, buf: Buffer, c: nat)
    requires Shuffled(arrivals, first, reach) && i < |arrivals|
    requires Waiting(stream, first, Arrived(arrivals, i), buf, c) && c !in Arrived(arrivals, i)
    ensures i - (c - first) <= reach && c <= arrivals[i] < c + 2 * reach + 1
  {
    NotYet(arrivals, first, reach, i, i);
    if c < first + |arrivals| {
      assert c in arrivals;
      var p :| 0 <= p < |arrivals| && arrivals[p] == c;
      InArrived(arrivals, i, p);
    }
  }

  lemma InsertNext(stream: Stream, arrivals: seq<nat>, first: nat, reach: nat, i: nat, buf: Buffer, c: nat)
    requires Sound(stream) && Shuffled(arrivals, first, reach) && i < |arrivals|
    requires Waiting(stream, first, Arrived(arrivals, i), buf, c) && c <= arrivals[i] < c + WRAP
    ensures Waiting(stream, first, Arrived(arrivals, i + 1), Insert(buf, stream.packet(arrivals[i])), c)
  {
    assert arrivals[i] !in Arrived(arrivals, i) by { NotYet(arrivals, first, reach, i, i); }
    InsertOne(stream, first, Arrived(arrivals, i), buf, c, arrivals[i]);
  }

  /** What has arrived from the first packet on is what is buffered, while everything is collected. */
  lemma CollectNext(run: Run, i: nat, buf: Buffer)
    requires Legal(run) && i < |run.arrivals| && i < MAX_BUFFERED
    requires Waiting(run.stream, run.first, Arrived(run.arrivals, i), buf, run.first)
    ensures Waiting(run.stream, run.first, Arrived(run.arrivals, i + 1), Insert(buf, Arrival(run, i)), run.first)
  {
    assert Near(run.arrivals[i], run.first, i, run.reach);
    InsertNext(run.stream, run.arrivals, run.first, run.reach, i, buf, run.first);
  }

  lemma CollectedCount(run: Run, m: nat, buf: Buffer)
    requires Legal(run) && m <= |run.arrivals| && Waiting(run.stream, run.first, Arrived(run.arrivals, m), buf, run.first)
    ensures |buf| == m
  {
    ArrivedCount(run.arrivals, run.first, run.reach, m);
  }

  /** Of the numbers collected, the first packet's is the least if and only if it is among them. */
  lemma FirstIsLeast(run: Run, m: nat, buf: Buffer)
    requires Legal(run) && m <= |run.arrivals| && m <= MAX_BUFFERED
    requires Waiting(run.stream, run.first, Arrived(run.arrivals, m), buf, run.first)
    ensures run.first in run.arrivals[..m] <==> Key(run.first) in buf
    ensures run.first in run.arrivals[..m] <==> Least(buf.Keys, Key(run.first))
  {
    ArrivedIs(run.arrivals, run.first, m, run.first);
    UnwrapKey(run.first, run.first);
    if run.first in run.arrivals[..m] {
      forall k | k in Arrived(run.arrivals, m)
        ensures k < run.first + HALF
      {
        ArrivedIs(run.arrivals, run.first, m, k);
        ArrivedNear(run.arrivals, run.first, run.reach, m, k);
      }
      FirstOfWaiting(run.stream, run.first, Arrived(run.arrivals, m), buf);
    }
  }

  /** So the scan finds it exactly in that case. */
  lemma FirstIsFoundIff(run: Run, m: nat, buf: Buffer, c: nat)
    requires Legal(run) && m <= |run.arrivals| && m <= MAX_BUFFERED && c < WRAP
    requires Waiting(run.stream, run.first, Arrived(run.arrivals, m), buf, run.first) && FoundIn(buf.Keys, Key(c))
    ensures c == run.first <==> run.first in run.arrivals[..m]
    ensures Key(c) in buf
  {
    FirstIsLeast(run, m, buf);
    FoundIff(buf.Keys, run.first, c);
  }

  lemma FoundIff(keys: set<Seq16>, first: nat, c: nat)
    requires first < WRAP && c < WRAP && FoundIn(keys, Key(c)) && (Key(first) in keys <==> Least(keys, Key(first)))
    ensures Key(c) in keys && (c == first <==> Key(first) in keys)
  {
    var order: seq<Seq16> :| order != [] && Enumerates(order, keys) && MinOver(order) == Key(c);
    if Key(first) in keys {
      LeastIsFound(order, keys, Key(first));
    }
  }

  lemma FirstOfWaiting(stream: Stream, first: nat, arrived: set<nat>, buf: Buffer)
    requires Waiting(stream, first, arrived, buf, first) && first in arrived && forall k :: k in arrived ==> k < first + HALF
    ensures Least(buf.Keys, Key(first))
  {
    forall key | key in buf.Keys
      ensures (key - Key(first)) % WRAP < HALF
    {
      SameDistance(first, Unwrap(first, key));
    }
    LeastIsHalfCircle(buf.Keys, Key(first));
  }

  lemma ArrivedNear(arrivals: seq<nat>, first: nat, reach: nat, m: nat, k: nat)
    requires Shuffled(arrivals, first, reach) && m <= |arrivals| && k in arrivals[..m]
    ensures k < first + m + reach
  {
    var j :| 0 <= j < m && arrivals[..m][j] == k;
    assert arrivals[j] == k;
  }

  lemma SameDistance(a: nat, b: nat)
    requires a <= b < a + WRAP
    ensures (Key(b) - Key(a)) % WRAP == b - a
  {
    var q, r := a / WRAP, b / WRAP;
    assert a == WRAP * q + Key(a) && b == WRAP * r + Key(b);
  }

  /** The gap at the `place`-th packet was noticed after `i` arrivals at the latest, when everything before it had arrived. */
  ghost predicate Noticed(missing: Option<int>, times: nat -> int, place: int, i: nat) {
    missing.Some? ==> exists j: nat :: place <= j <= i && times(j) == missing.value
  }

  lemma NoticedInTime(missing: Option<int>, times: nat -> int, place: int, i: nat, reach: nat)
    requires Prompt(times, reach) && Noticed(missing, times, place, i) && i - place <= reach
    ensures !TimedOut(missing, times(i + 1))
  {
    if missing.Some? {
      var j: nat :| place <= j <= i && times(j) == missing.value;
      assert times(i + 1) - times(j) < MISSING_WAIT;
    }
  }

  /** A run from the first packet on has been pushed, in order, up to the first still missing. */
  ghost predicate SoFar(stream: Stream, first: nat, arrived: set<nat>, times: nat -> int, i: nat, r: Flushed) {
    r.ok && first <= r.counter && r.pushed == InOrder(stream, first, r.counter) && r.counter !in arrived
    && Waiting(stream, first, arrived, r.buf, r.counter) && Noticed(r.missing, times, r.counter - first, i)
  }

  lemma NoticedNext(old': Flushed, r: Flushed, times: nat -> int, first: nat, arrived: set<nat>, stream: Stream, i: nat)
    requires Waiting(stream, first, arrived, r.buf, r.counter) && |arrived| == i + 1
    requires Noticed(old'.missing, times, old'.counter - first, i)
    requires r.missing == Some(times(i + 1)) || (r.missing == old'.missing && r.counter == old'.counter)
    ensures Noticed(r.missing, times, r.counter - first, i + 1)
  {
    assert r.counter - first <= i + 1;
  }

  lemma RunStep(stream: Stream, first: nat, arrived: set<nat>, times: nat -> int, before: Flushed, x: nat, i: nat, reach: nat)
    requires Sound(stream) && Prompt(times, reach) && SoFar(stream, first, arrived, times, i, before)
    requires |arrived| == i && i - (before.counter - first) <= reach
    requires x !in arrived && before.counter <= x < before.counter + WRAP
    ensures var r := Flush(Insert(before.buf, stream.packet(x)), before.counter, before.missing, times(i + 1), stream.accepts);
      SoFar(stream, first, arrived + {x}, times, i + 1, r.(pushed := before.pushed + r.pushed))
  {
    InsertOne(stream, first, arrived, before.buf, before.counter, x);
    NoticedInTime(before.missing, times, before.counter - first, i, reach);
    var buf := Insert(before.buf, stream.packet(x));
    FlushInOrder(stream, first, arrived + {x}, buf, before.counter, before.missing, times(i + 1));
    var r := Flush(buf, before.counter, before.missing, times(i + 1), stream.accepts);
    NoticedNext(before, r, times, first, arrived + {x}, stream, i);
    InOrderOn(stream, first, before.counter, r.counter);
  }

  /** And so it stays with every arrival. */
  lemma RunNext(run: Run, before: Flushed, i: nat)
    requires Legal(run) && i < |run.arrivals|
    requires SoFar(run.stream, run.first, Arrived(run.arrivals, i), run.clock.flushes, i, before)
    ensures var buf, now := Insert(before.buf, Arrival(run, i)), run.clock.flushes(i + 1);
      var r := Flush(buf, before.counter, before.missing, now, run.stream.accepts);
      SoFar(run.stream, run.first, Arrived(run.arrivals, i + 1), run.clock.flushes, i + 1, r.(pushed := before.pushed + r.pushed))
  {
    NotFarAhead(run.stream, run.arrivals, run.first, run.reach, i, before.buf, before.counter);
    NotYet(run.arrivals, run.first, run.reach, i, i);
    ArrivedCount(run.arrivals, run.first, run.reach, i);
    RunStep(run.stream, run.first, Arrived(run.arrivals, i), run.clock.flushes, before, run.arrivals[i], i, run.reach);
  }

  /** It begins so when the first packet was collected in time. */
  lemma RunBegins(run: Run, m: nat, buf: Buffer)
    requires Legal(run) && m <= |run.arrivals|
    requires Waiting(run.stream, run.first, Arrived(run.arrivals, m), buf, run.first)
    ensures var r := Flush(buf, run.first, None, run.clock.flushes(m), run.stream.accepts);
      SoFar(run.stream, run.first, Arrived(run.arrivals, m), run.clock.flushes, m, r)
  {
    FlushInOrder(run.stream, run.first, Arrived(run.arrivals, m), buf, run.first, None, run.clock.flushes(m));
    ArrivedCount(run.arrivals, run.first, run.reach, m);
    var r := Flush(buf, run.first, None, run.clock.flushes(m), run.stream.accepts);
    assert r.missing == Some(run.clock.flushes(m)) && r.counter - run.first <= m;
  }

  lemma InOrderOn(stream: Stream, lo: nat, mid: nat, hi: nat)
    requires lo <= mid <= hi
    ensures InOrder(stream, lo, mid) + InOrder(stream, mid, hi) == InOrder(stream, lo, hi)
  {
  }

  /** The buffer never overflows on such a stream, so nothing is skipped. */
  lemma NeverOverflows(run: Run, before: Flushed, i: nat)
    requires Legal(run) && i < |run.arrivals|
    requires SoFar(run.stream, run.first, Arrived(run.arrivals, i), run.clock.flushes, i, before)
    ensures |Insert(before.buf, Arrival(run, i))| <= 512
  {
    NotFarAhead(run.stream, run.arrivals, run.first, run.reach, i, before.buf, before.counter);
    ArrivedCount(run.arrivals, run.first, run.reach, i);
  }

  /** In the end everything has been pushed. */
  lemma ComesOutInOrder(run: Run, r: Flushed)
    requires Legal(run)
    requires SoFar(run.stream, run.first, Arrived(run.arrivals, |run.arrivals|), run.clock.flushes, |run.arrivals|, r)
    ensures r.pushed == InOrder(run.stream, run.first, run.first + |run.arrivals|) && r.buf == map[]
  {
    var n := |run.arrivals|;
    ArrivedCount(run.arrivals, run.first, run.reach, n);
    assert run.arrivals[..n] == run.arrivals;
    assert r.counter >= run.first + n by {
      if r.counter < run.first + n {
        assert r.counter in run.arrivals;
        ArrivedIs(run.arrivals, run.first, n, r.counter);
      }
    }
  }

  // ---------- The loop itself ----------

  /** The turn with the `i`-th arrival leads from `s` to `t`; `alive`: the loop goes on. */
  ghost predicate Turned(run: Run, i: nat, s: State, t: State, alive: bool)
    requires i < |run.arrivals|
  {
    if i < run.kept then alive && t == Keeping(Waited(s), Some(Arrival(run, i)))
    else exists ended: State, jumped: State :: TurnedVia(run, i, s, ended, jumped, t, alive)
  }

  ghost predicate TurnedVia(run: Run, i: nat, s: State, ended: State, jumped: State, t: State, alive: bool)
    requires i < |run.arrivals|
  {
    Ended(Stored(Begun(s, run.clock.starts(i)), Arrival(run, i)), run.clock.arrived(i), ended) && Jumped(ended, jumped)
    && t == Drained(jumped, FlushedAt(jumped, run, i)) && alive == FlushedAt(jumped, run, i).ok
  }

  function FlushedAt(s: State, run: Run, i: nat): Flushed {
    Flushing(s, run.clock.flushes(i + 1), run.stream.accepts)
  }

  predicate Starts(s: State) {
    s.counter == 0 && s.pushed == [] && s.pre == [] && !s.started && !s.expectedSet
  }

  /** Only after the last turn the loop may not go on. */
  ghost predicate TurnAt(run: Run, states: seq<State>, alive: bool, k: nat)
    requires k < |run.arrivals| && k + 1 < |states|
  {
    Turned(run, k, states[k], states[k + 1], alive || k + 2 < |states|)
  }

  /** The states after each arrival so far; `alive`: the loop goes on. */
  ghost predicate Comes(run: Run, states: seq<State>, alive: bool) {
    0 < |states| <= |run.arrivals| + 1 && Starts(states[0]) && (|states| == 1 ==> alive)
    && forall k: nat :: k < |states| - 1 ==> TurnAt(run, states, alive, k)
  }

  lemma ComesOn(run: Run, states: seq<State>, t: State, alive: bool)
    requires Comes(run, states, true) && |states| <= |run.arrivals|
    requires Turned(run, |states| - 1, states[|states| - 1], t, alive)
    ensures Comes(run, states + [t], alive)
  {
    var more := states + [t];
    forall k: nat | k < |states|
      ensures TurnAt(run, more, alive, k)
    {
      if k < |states| - 1 {
        assert TurnAt(run, states, true, k);
      }
    }
  }

  function Progress(s: State): Flushed {
    Flushed(s.buf, s.counter, s.missing, s.pushed, true)
  }

  /** The first packet pushed is the stream's if and only if that one was among the `m` collected. */
  predicate StartsRight(pushed: seq<Push>, run: Run, m: nat)
    requires m <= |run.arrivals|
  {
    pushed != [] && (pushed[0].counter == run.first <==> run.first in run.arrivals[..m])
  }

  /** What has been collected, or kept to be collected. */
  function Gathered(s: State): Buffer {
    if s.started then s.buf else FirstOfEach(s.pre)
  }

  /** Where the loop is after `i` arrivals, `seen`: waiting, or collecting, or flushing since the `m`-th. */
  ghost predicate Reached(s: State, run: Run, m: nat, i: nat, seen: set<nat>)
    requires m <= i <= |run.arrivals|
  {
    (s.started <==> i > run.kept)
    && if s.expectedSet then FlowsOn(s, run, m, i, seen) else m == i && Collecting(s, run, i, seen)
  }

  ghost predicate Collecting(s: State, run: Run, i: nat, seen: set<nat>) {
    s.counter == 0 && s.pushed == [] && Waiting(run.stream, run.first, seen, Gathered(s), run.first) && NoneEnds(run, i)
    && if s.started then s.collecting && s.pre == [] && Timed(s, run) else |s.pre| == i
  }

  /** The window was set when recording was allowed. */
  predicate Timed(s: State, run: Run) {
    var began := run.clock.starts(run.kept);
    s.until == began + 250 && s.deadline == began + 750
  }

  ghost predicate FlowsOn(s: State, run: Run, m: nat, i: nat, seen: set<nat>)
    requires m <= i <= |run.arrivals|
  {
    s.started && s.pre == [] && !s.collecting && IsCollected(run, m) && StartsRight(s.pushed, run, m)
    && (run.first in run.arrivals[..m] ==> SoFar(run.stream, run.first, seen, run.clock.flushes, i, Progress(s)))
  }

  /** A turn in which collecting goes on. */
  lemma StillCollecting(stored: State, arrived: int, ended: State, jumped: State)
    requires stored.collecting && !stored.expectedSet && |stored.buf| <= MAX_BUFFERED
    requires Ended(stored, arrived, ended) && Jumped(ended, jumped) && !ended.expectedSet
    ensures jumped == stored
  {
  }

  /** Collecting ends with this turn if and only if the run says so. */
  lemma EndsWithTurn(run: Run, i: nat, stored: State, ended: State)
    requires run.kept <= i && stored.collecting && !stored.expectedSet && Timed(stored, run) && |stored.buf| == i + 1
    requires Ended(stored, run.clock.arrived(i), ended) && NoneEnds(run, i)
    ensures ended.expectedSet <==> EndsAt(run, i + 1)
    ensures ended.expectedSet && i < |run.arrivals| ==> IsCollected(run, i + 1)
    ensures !ended.expectedSet ==> NoneEnds(run, i + 1)
  {
  }

  /** The turn in which it ends: from now on the packets are pushed, at once the one found. */
  lemma StopsCollecting(run: Run, m: nat, stored: State, arrived: int, ended: State, jumped: State)
    requires Legal(run) && m <= |run.arrivals| && m <= MAX_BUFFERED
    requires stored.collecting && !stored.expectedSet && stored.counter == 0 && stored.pushed == [] && |stored.buf| == m
    requires Waiting(run.stream, run.first, Arrived(run.arrivals, m), stored.buf, run.first)
    requires Ended(stored, arrived, ended) && Jumped(ended, jumped) && ended.expectedSet
    ensures jumped == stored.(counter := jumped.counter, expectedSet := true, collecting := false, missing := None)
    ensures jumped.counter == run.first <==> run.first in run.arrivals[..m]
    ensures var r := Flushing(jumped, run.clock.flushes(m), run.stream.accepts);
      r.pushed != [] && r.pushed[0].counter == jumped.counter
  {
    FirstIsFoundIff(run, m, stored.buf, ended.counter);
    OneIsPushed(run, Arrived(run.arrivals, m), stored.buf, jumped.counter, run.clock.flushes(m));
  }

  lemma OneIsPushed(run: Run, seen: set<nat>, buf: Buffer, c: nat, now: int)
    requires Legal(run) && Waiting(run.stream, run.first, seen, buf, run.first) && Key(c) in buf
    ensures var r := Flush(buf, c, None, now, run.stream.accepts); r.pushed != [] && r.pushed[0].counter == c
  {
    var k := Unwrap(run.first, Key(c));
    assert k in seen && buf[Key(k)] == run.stream.packet(k);
  }

  /** A later turn: the packet is stored, nothing overflows, and what can go goes. */
  lemma GoesOn(run: Run, i: nat, before: State, stored: State, arrived: int, ended: State, jumped: State)
    requires Legal(run) && i < |run.arrivals| && !before.collecting && before.expectedSet
    requires SoFar(run.stream, run.first, Arrived(run.arrivals, i), run.clock.flushes, i, Progress(before))
    requires stored == before.(buf := Insert(before.buf, Arrival(run, i)))
    requires Ended(stored, arrived, ended) && Jumped(ended, jumped)
    ensures var r := Flushing(jumped, run.clock.flushes(i + 1), run.stream.accepts);
      r.ok && SoFar(run.stream, run.first, Arrived(run.arrivals, i + 1), run.clock.flushes, i + 1, Progress(Drained(jumped, r)))
  {
    NeverOverflows(run, Progress(before), i);
    RunNext(run, Progress(before), i);
  }

  /** A turn after collecting. */
  lemma FlowTurn(run: Run, m: nat, i: nat, before: State, ended: State, jumped: State)
    requires Legal(run) && m <= i < |run.arrivals| && run.kept <= i && before.expectedSet
    requires Reached(before, run, m, i, Arrived(run.arrivals, i))
    requires Ended(Stored(before, Arrival(run, i)), run.clock.arrived(i), ended) && Jumped(ended, jumped)
    ensures var r := Flushing(jumped, run.clock.flushes(i + 1), run.stream.accepts);
      Reached(Drained(jumped, r), run, m, i + 1, Arrived(run.arrivals, i + 1))
      && (r.ok || (jumped.expectedSet && run.first !in run.arrivals[..m]))
  {
    if run.first in run.arrivals[..m] {
      GoesOn(run, i, before, Stored(before, Arrival(run, i)), run.clock.arrived(i), ended, jumped);
    }
  }

  /** The packets collected with this turn's. */
  lemma CollectTurn(run: Run, i: nat, before: State, stored: State)
    requires Legal(run) && i < |run.arrivals| && run.kept <= i && !before.expectedSet
    requires Reached(before, run, i, i, Arrived(run.arrivals, i))
    requires stored == Stored(Begun(before, run.clock.starts(i)), Arrival(run, i))
    ensures stored.started && stored.collecting && !stored.expectedSet && stored.pre == [] && Timed(stored, run)
    ensures stored.counter == 0 && stored.pushed == [] && |stored.buf| == i + 1 <= MAX_BUFFERED
    ensures Waiting(run.stream, run.first, Arrived(run.arrivals, i + 1), stored.buf, run.first)
  {
    assert i < MAX_BUFFERED by { assert !EndsAt(run, i); }
    CollectNext(run, i, Gathered(before));
    CollectedCount(run, i + 1, stored.buf);
  }

  lemma FlowStarts(run: Run, m: nat, jumped: State, r: Flushed)
    requires jumped.started && jumped.expectedSet && !jumped.collecting && jumped.pre == [] && jumped.pushed == []
    requires IsCollected(run, m) && m > run.kept && r.pushed != [] && r.pushed[0].counter == jumped.counter
    requires jumped.counter == run.first <==> run.first in run.arrivals[..m]
    requires jumped.counter == run.first ==> SoFar(run.stream, run.first, Arrived(run.arrivals, m), run.clock.flushes, m, r)
    ensures Reached(Drained(jumped, r), run, m, m, Arrived(run.arrivals, m))
  {
    assert jumped.pushed + r.pushed == r.pushed;
    assert r.ok ==> Progress(Drained(jumped, r)) == r;
  }

  /** A turn while packets are collected, in which that ends. */
  lemma LastCollected(run: Run, i: nat, stored: State, ended: State, jumped: State)
    requires Legal(run) && i < |run.arrivals| && run.kept <= i && NoneEnds(run, i)
    requires stored.started && stored.collecting && !stored.expectedSet && stored.pre == [] && Timed(stored, run)
    requires stored.counter == 0 && stored.pushed == [] && |stored.buf| == i + 1 <= MAX_BUFFERED
    requires Waiting(run.stream, run.first, Arrived(run.arrivals, i + 1), stored.buf, run.first)
    requires Ended(stored, run.clock.arrived(i), ended) && Jumped(ended, jumped)
    requires ended.expectedSet
    ensures var r := FlushedAt(jumped, run, i);
      Reached(Drained(jumped, r), run, i + 1, i + 1, Arrived(run.arrivals, i + 1))
      && (r.ok || run.first !in run.arrivals[..i + 1])
    ensures jumped.expectedSet
  {
    EndsWithTurn(run, i, stored, ended);
    StopsCollecting(run, i + 1, stored, run.clock.arrived(i), ended, jumped);
    RunBegins(run, i + 1, stored.buf);
    FlowStarts(run, i + 1, jumped, FlushedAt(jumped, run, i));
  }

  /** And one in which it goes on. */
  lemma OneCollected(run: Run, i: nat, stored: State, ended: State, jumped: State)
    requires Legal(run) && i < |run.arrivals| && run.kept <= i && NoneEnds(run, i)
    requires stored.started && stored.collecting && !stored.expectedSet && stored.pre == [] && Timed(stored, run)
    requires stored.counter == 0 && stored.pushed == [] && |stored.buf| == i + 1 <= MAX_BUFFERED
    requires Waiting(run.stream, run.first, Arrived(run.arrivals, i + 1), stored.buf, run.first)
    requires Ended(stored, run.clock.arrived(i), ended) && Jumped(ended, jumped)
    requires !ended.expectedSet
    ensures var r := FlushedAt(jumped, run, i);
      r.ok && Reached(Drained(jumped, r), run, i + 1, i + 1, Arrived(run.arrivals, i + 1))
  {
    EndsWithTurn(run, i, stored, ended);
    StillCollecting(stored, run.clock.arrived(i), ended, jumped);
  }

  /** One turn of the loop once recording is allowed. */
  lemma TurnReaches(run: Run, m: nat, i: nat, before: State, ended: State, jumped: State) returns (m': nat)
    requires Legal(run) && m <= i < |run.arrivals| && run.kept <= i && Reached(before, run, m, i, Arrived(run.arrivals, i))
    requires Ended(Stored(Begun(before, run.clock.starts(i)), Arrival(run, i)), run.clock.arrived(i), ended)
    requires Jumped(ended, jumped)
    ensures var r := FlushedAt(jumped, run, i);
      m' <= i + 1 && Reached(Drained(jumped, r), run, m', i + 1, Arrived(run.arrivals, i + 1))
      && (r.ok || (jumped.expectedSet && run.first !in run.arrivals[..m']))
  {
    if before.expectedSet {
      m' := m;
      FlowTurn(run, m, i, before, ended, jumped);
    } else {
      m' := i + 1;
      var stored := Stored(Begun(before, run.clock.starts(i)), Arrival(run, i));
      CollectTurn(run, i, before, stored);
      if ended.expectedSet {
        LastCollected(run, i, stored, ended, jumped);
      } else {
        OneCollected(run, i, stored, ended, jumped);
      }
    }
  }

  /** A packet that is kept while recording is not allowed. */
  lemma WaitReaches(run: Run, i: nat, before: State, t: State)
    requires Legal(run) && i < run.kept && Reached(before, run, i, i, Arrived(run.arrivals, i)) && !before.expectedSet
    requires t == Keeping(Waited(before), Some(Arrival(run, i)))
    ensures Reached(t, run, i + 1, i + 1, Arrived(run.arrivals, i + 1)) && !t.expectedSet
  {
    CollectNext(run, i, Gathered(before));
    KeptOne(before.pre, Arrival(run, i));
  }

  lemma KeptOne(pre: seq<Packet>, packet: Packet)
    ensures FirstOfEach(pre + [packet]) == Insert(FirstOfEach(pre), packet)
  {
    var all := pre + [packet];
    assert all[..|all|] == all && all[..|pre|] == pre;
    KeptNext(all, |pre|);
  }

  lemma NextReaches(run: Run, m: nat, i: nat, s: State, t: State, alive: bool) returns (m': nat)
    requires Legal(run) && m <= i < |run.arrivals| && Reached(s, run, m, i, Arrived(run.arrivals, i))
    requires Turned(run, i, s, t, alive)
    ensures m' <= i + 1 && Reached(t, run, m', i + 1, Arrived(run.arrivals, i + 1))
    ensures alive || (t.expectedSet && run.first !in run.arrivals[..m'])
  {
    if i < run.kept {
      m' := i + 1;
      WaitReaches(run, i, s, t);
    } else {
      var ended: State, jumped: State :| TurnedVia(run, i, s, ended, jumped, t, alive);
      m' := TurnReaches(run, m, i, s, ended, jumped);
    }
  }

  lemma StartReached(run: Run, s: State)
    requires Starts(s)
    ensures Reached(s, run, 0, 0, Arrived(run.arrivals, 0))
  {
  }

  /** Wherever the loop comes to, or where it ended early. */
  lemma {:induction false} LoopReaches(run: Run, states: seq<State>, alive: bool, i: nat) returns (m: nat)
    requires Legal(run) && Comes(run, states, alive) && i < |states|
    ensures m <= i && Reached(states[i], run, m, i, Arrived(run.arrivals, i))
    ensures alive || i < |states| - 1 || (states[i].expectedSet && run.first !in run.arrivals[..m])
    decreases i
  {
    if i == 0 {
      m := 0;
      StartReached(run, states[0]);
    } else {
      var n := LoopReaches(run, states, alive, i - 1);
      assert TurnAt(run, states, alive, i - 1);
      m := NextReaches(run, n, i - 1, states[i - 1], states[i], alive || i < |states| - 1);
    }
  }

  predicate AllInOrder(s: State, run: Run) {
    s.pushed == InOrder(run.stream, run.first, run.first + |run.arrivals|) && s.buf == map[]
  }

  /** Where a run ends: with everything collected, or with everything in order if the first packet was. */
  predicate Over(s: State, run: Run, m: nat) {
    if s.expectedSet then IsCollected(run, m) && s.pushed != [] && (AllInOrder(s, run) <==> run.first in run.arrivals[..m])
    else NoneEnds(run, |run.arrivals|) && s.pushed == []
  }

  lemma EndReached(s: State, run: Run, m: nat, i: nat)
    requires Legal(run) && run.arrivals != [] && m <= i == |run.arrivals| && Reached(s, run, m, i, Arrived(run.arrivals, i))
    ensures Over(s, run, m)
  {
    if s.expectedSet {
      InOrderFrom(run.stream, run.first, run.first + |run.arrivals|);
      if run.first in run.arrivals[..m] {
        ComesOutInOrder(run, Progress(s));
      }
    }
  }

  lemma EndEarly(s: State, run: Run, m: nat, i: nat)
    requires run.arrivals != [] && m <= i <= |run.arrivals| && Reached(s, run, m, i, Arrived(run.arrivals, i))
    requires s.expectedSet && run.first !in run.arrivals[..m]
    ensures Over(s, run, m)
  {
    InOrderFrom(run.stream, run.first, run.first + |run.arrivals|);
  }

  /**
   * What a run leads to. Nothing is pushed if and only if collecting never ends; and if `m` packets are collected,
   * everything is pushed in order if and only if the first is among them.
   */
  ghost predicate Done(s: State, run: Run) {
    (s.pushed == [] <==> NoneEnds(run, |run.arrivals|))
    && forall m: nat :: IsCollected(run, m) ==> (AllInOrder(s, run) <==> run.first in run.arrivals[..m])
  }

  lemma OverIsDone(s: State, run: Run, m: nat)
    requires Over(s, run, m)
    ensures Done(s, run)
  {
    if s.expectedSet {
      assert EndsAt(run, m);
      forall n: nat | IsCollected(run, n)
        ensures n == m
      {
        CollectedIsUnique(run, m, n);
      }
    }
  }

  lemma CollectedIsUnique(run: Run, m: nat, n: nat)
    requires IsCollected(run, m) && IsCollected(run, n)
    ensures m == n
  {
  }

  lemma LoopIsDone(run: Run, states: seq<State>, alive: bool, i: nat)
    requires Legal(run) && run.arrivals != [] && Comes(run, states, alive) && |states| == i + 1
    requires alive ==> i == |run.arrivals|
    ensures Done(states[i], run)
  {
    var m := LoopReaches(run, states, alive, i);
    if alive {
      EndReached(states[i], run, m, i);
    } else {
      EndEarly(states[i], run, m, i);
    }
    OverIsDone(states[i], run, m);
  }

  /** More packets collected than the stream is shuffled by: the first is among them. */
  lemma FirstIsCollected(run: Run, m: nat)
    requires Legal(run) && run.reach < m <= |run.arrivals|
    ensures run.first in run.arrivals[..m]
  {
    assert run.first in run.arrivals;
    var p :| 0 <= p < |run.arrivals| && run.arrivals[p] == run.first;
    assert Near(run.arrivals[p], run.first, p, run.reach);
    assert run.arrivals[..m][p] == run.first;
  }

  method TakeTurn(r: Reorder, run: Run, i: nat) returns (alive: bool)
    requires r.Valid() && i < |run.arrivals|
    modifies r
    ensures r.Valid() && Turned(run, i, old(r.Now()), r.Now(), alive)
  {
    if i < run.kept {
      r.Wait(Some(Arrival(run, i)));
      return true;
    }
    ghost var ended, jumped;
    alive, ended, jumped := r.Receive(Some(Arrival(run, i)), run.clock.starts(i), run.clock.arrived(i), run.clock.flushes(i + 1),
                                      run.stream.accepts);
    assert TurnedVia(run, i, old(r.Now()), ended, jumped, r.Now(), alive);
  }

  /**
   * The loop over a whole stream, of which the first packets, 500 at most, come before recording is allowed. When it is
   * allowed it collects twenty packets, or for as long as the window; what it pushes then is everything, in order, if
   * and only if the first packet was among those.
   */
  method Replay(run: Run) returns (r: Reorder)
    requires Legal(run) && run.arrivals != []
    ensures fresh(r) && r.Valid() && Done(r.Now(), run)
  {
    r := new Reorder();
    var i, alive := 0, true;
    ghost var states := [r.Now()];
    while alive && i < |run.arrivals|
      invariant 0 <= i <= |run.arrivals| && fresh(r) && r.Valid()
      invariant |states| == i + 1 && states[i] == r.Now() && Comes(run, states, alive)
      decreases |run.arrivals| - i
    {
      alive := TakeTurn(r, run, i);
      ComesOn(run, states, r.Now(), alive);
      states, i := states + [r.Now()], i + 1;
    }
    LoopIsDone(run, states, alive, i);
  }
}
