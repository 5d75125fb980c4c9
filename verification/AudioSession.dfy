/** The recorder together with its audio reorder buffer: which packets the audio events of the log are (recorder.go). */
module AudioSession {
  import opened Common
  import Recorder
  import opened AudioReorder
  import PreAudio

  type Event = Recorder.Event

  /** The audio events among the first of a log. */
  function AudioCount(log: seq<Event>): nat {
    if log == [] then 0 else AudioCount(log[..|log| - 1]) + if log[|log| - 1].Audio? then 1 else 0
  }

  lemma {:induction false} CountAppend(a: seq<Event>, b: seq<Event>)
    ensures AudioCount(a + b) == AudioCount(a) + AudioCount(b)
    decreases |b|
  {
    if b == [] {
      assert a + b == a;
    } else {
      var n := |b| - 1;
      assert (a + b)[..|a + b| - 1] == a + b[..n];
      CountAppend(a, b[..n]);
    }
  }

  lemma {:induction false} CountAudios(n: nat, epoch: nat)
    ensures AudioCount(Recorder.Audios(n, epoch)) == n
  {
    if n > 0 {
      var all := Recorder.Audios(n, epoch);
      assert all[..|all| - 1] == Recorder.Audios(n - 1, epoch);
      CountAudios(n - 1, epoch);
    }
  }

  lemma {:induction false} CountNone(log: seq<Event>)
    requires forall e :: e in log ==> !e.Audio?
    ensures AudioCount(log) == 0
  {
    if log != [] {
      CountNone(log[..|log| - 1]);
    }
  }

  /** A video turn adds no audio. */
  lemma VideoCounts(log: seq<Event>, after: seq<Event>, todo: Recorder.Todo, key: bool, last: nat, callback: bool, injects: bool,
      runs: bool, accepted: bool)
    requires after == log + Recorder.Adds(todo, key, last, callback, injects, runs, accepted)
    ensures AudioCount(after) == AudioCount(log)
  {
    var added := Recorder.Adds(todo, key, last, callback, injects, runs, accepted);
    CountNone(added);
    CountAppend(log, added);
  }

  class Session {
    const recorder: Recorder.Recorder
    const reorder: Reorder
    /** The audio loop has returned. */
    var stopped: bool

    /** The audio events of the log are the packets pushed, one for one and in order. */
    ghost predicate Valid()
      reads this, recorder, reorder
    {
      recorder.Valid() && reorder.Valid()
      && AudioCount(recorder.log) == |reorder.pushed|
      && (recorder.audio.AudioAllowed? ==> reorder.started) && (recorder.audio.AudioWaiting? ==> !reorder.started)
    }

    constructor (sprop: seq<Bytes>)
      ensures Valid() && fresh(recorder) && fresh(reorder) && recorder.log == [] && !stopped
    {
      recorder := new Recorder.Recorder(sprop);
      reorder := new Reorder();
      stopped := false;
    }

    /** Recording starts over, and what both pre-buffers hold is dropped. */
    method ActivateRecording()
      requires Valid()
      modifies recorder, reorder
      ensures Valid() && recorder.active && recorder.pending && recorder.preVideo == []
      ensures recorder.log == old(recorder.log) + [Recorder.Activated]
      ensures reorder.Now() == old(reorder.Now()).(pre := [])
    {
      CountAppend(recorder.log, [Recorder.Activated]);
      CountNone([Recorder.Activated]);
      recorder.ActivateRecording();
      reorder.ClearKept();
    }

    /** The head of an audio turn. */
    method CheckAudio(now: int)
      requires Valid() && !stopped && recorder.audio == Recorder.AudioIdle
      modifies recorder, reorder
      ensures Valid() && recorder.log == old(recorder.log)
      ensures recorder.audio == if recorder.active && !recorder.pending then Recorder.AudioAllowed else Recorder.AudioWaiting
      ensures var s := old(reorder.Now());
        reorder.Now() == if recorder.audio == Recorder.AudioAllowed then Begun(s, now) else Waited(s)
    {
      recorder.CheckAudio();
      if recorder.audio == Recorder.AudioAllowed {
        reorder.Begin(now);
      } else {
        reorder.Forget();
      }
    }

    /** The rest of an audio turn; `arrival` is `None` when the packet could not be decrypted. */
    method ReadAudio(arrival: Option<Packet>, arrived: int, flushed: int, accepts: Packet -> bool)
      requires Valid() && !stopped && recorder.audio != Recorder.AudioIdle
      modifies this, recorder, reorder
      ensures Valid() && recorder.audio == Recorder.AudioIdle && old(reorder.pushed) <= reorder.pushed
      ensures recorder.log == old(recorder.log) + Recorder.Audios(|reorder.pushed| - |old(reorder.pushed)|, recorder.allowedIn)
      ensures Read(old(recorder.audio), old(reorder.Now()), arrival, arrived, flushed, accepts, reorder.Now(), !stopped)
    {
      ghost var pushes := Deal(arrival, arrived, flushed, accepts);
      LogAudio(pushes);
    }

    method LogAudio(ghost pushes: nat)
      requires recorder.Valid() && recorder.audio != Recorder.AudioIdle
      requires recorder.audio == Recorder.AudioWaiting ==> pushes == 0
      modifies recorder
      ensures recorder.Valid() && recorder.audio == Recorder.AudioIdle && recorder.allowedIn == old(recorder.allowedIn)
      ensures recorder.log == old(recorder.log) + Recorder.Audios(pushes, recorder.allowedIn)
      ensures AudioCount(recorder.log) == AudioCount(old(recorder.log)) + pushes
    {
      ghost var log := recorder.log;
      CountAudios(pushes, recorder.allowedIn);
      CountAppend(log, Recorder.Audios(pushes, recorder.allowedIn));
      recorder.ReadAudio(pushes);
    }

    method Deal(arrival: Option<Packet>, arrived: int, flushed: int, accepts: Packet -> bool) returns (ghost pushes: nat)
      requires reorder.Valid() && !stopped && recorder.audio != Recorder.AudioIdle
      requires reorder.started == (recorder.audio == Recorder.AudioAllowed)
      modifies `stopped, reorder
      ensures reorder.Valid() && old(reorder.pushed) <= reorder.pushed && pushes == |reorder.pushed| - |old(reorder.pushed)|
      ensures recorder.audio == Recorder.AudioWaiting ==> pushes == 0
      ensures Read(recorder.audio, old(reorder.Now()), arrival, arrived, flushed, accepts, reorder.Now(), !stopped)
    {
      pushes := 0;
      if recorder.audio == Recorder.AudioAllowed {
        if arrival.Some? {
          var alive: bool;
          alive, pushes := TakeArrival(arrival.value, arrived, flushed, accepts);
          stopped := !alive;
        }
      } else if arrival.Some? {
        reorder.EnqueuePreAudio(arrival.value);
      }
    }

    // ---------- Video ----------

    method TakeVideo()
      requires Valid() && recorder.phase == Recorder.Idle && !recorder.stopped
      modifies recorder
      ensures Valid() && recorder.log == old(recorder.log) && reorder.Now() == old(reorder.Now())
    {
      recorder.TakeVideo();
    }

    method CheckVideo(arrival: Bytes)
      requires Valid() && (recorder.phase.Reading? || recorder.phase.Holding?) && !recorder.stopped
      modifies recorder
      ensures Valid() && recorder.log == old(recorder.log) && reorder.Now() == old(reorder.Now())
    {
      recorder.CheckVideo(arrival);
    }

    /** Where the callback of the first keyframe activates recording, the audio kept so far is dropped as well. */
    method FinishVideo(callback: bool, injects: bool, starts: bool, accepted: bool)
      requires Valid() && recorder.phase.Decided?
      modifies recorder, reorder
      ensures Valid() <==> recorder.Valid()
      ensures recorder.Valid() == !(old(recorder.late) && accepted)
      ensures var p, runs := old(recorder.phase), old(recorder.pipelineStarted) || starts;
        var inject := old(recorder.Injects(recorder.sets, injects));
        recorder.log == old(recorder.log)
          + Recorder.Adds(p.todo, p.key, old(|recorder.received|) - 1, callback, inject, runs, accepted)
        && reorder.Now() == if callback && p.todo == Recorder.Greet && p.key then old(reorder.Now()).(pre := [])
                            else old(reorder.Now())
    {
      var activates := callback && recorder.phase.todo == Recorder.Greet && recorder.phase.key;
      RecordVideo(callback, injects, starts, accepted);
      if activates {
        reorder.ClearKept();
      }
    }

    method RecordVideo(callback: bool, injects: bool, starts: bool, accepted: bool)
      requires recorder.Valid() && recorder.phase.Decided?
      modifies recorder
      ensures recorder.audio == old(recorder.audio) && AudioCount(recorder.log) == AudioCount(old(recorder.log))
      ensures recorder.Valid() == !(old(recorder.late) && accepted)
      ensures var p, runs := old(recorder.phase), old(recorder.pipelineStarted) || starts;
        var inject := old(recorder.Injects(recorder.sets, injects));
        recorder.log == old(recorder.log)
          + Recorder.Adds(p.todo, p.key, old(|recorder.received|) - 1, callback, inject, runs, accepted)
    {
      ghost var log, p, last, runs := recorder.log, recorder.phase, |recorder.received| - 1, recorder.pipelineStarted || starts;
      ghost var inject := recorder.Injects(recorder.sets, injects);
      recorder.FinishVideo(callback, injects, starts, accepted);
      VideoCounts(log, recorder.log, p.todo, p.key, last, callback, inject, runs, accepted);
    }

    /** At the end of a recording's first keyframe the audio kept so far is trimmed, and then audio may start. */
    method EndVideo(times: seq<int>, now: int, arrange: seq<Packet> -> seq<Packet>) returns (k: nat, ghost r: nat)
      requires Valid() && recorder.phase == Recorder.Primed && |times| == |reorder.pre| && KeepsAll(arrange)
      modifies recorder, reorder
      ensures (Valid() <==> recorder.Valid()) && recorder.Valid() == !old(recorder.late)
      ensures recorder.log == old(recorder.log) && !recorder.pending && recorder.phase == Recorder.Idle
      ensures k <= |times| && PreAudio.TrimmedAt(times, now, r, k)
      ensures reorder.Now() == old(reorder.Now()).(pre := arrange(old(reorder.pre)[k..]))
    {
      k, r := reorder.TrimKept(times, now, arrange);
      recorder.EndVideo();
    }

    method TakeArrival(packet: Packet, arrived: int, flushed: int, accepts: Packet -> bool) returns (alive: bool, ghost pushes: nat)
      requires reorder.Valid() && reorder.started
      modifies reorder
      ensures reorder.Valid() && reorder.started && old(reorder.pushed) <= reorder.pushed
      ensures pushes == |reorder.pushed| - |old(reorder.pushed)|
      ensures Taken(old(reorder.Now()), packet, arrived, flushed, accepts, reorder.Now(), alive)
    {
      ghost var before := |reorder.pushed|;
      ghost var ended: State, jumped: State;
      alive, ended, jumped := reorder.Take(packet, arrived, flushed, accepts);
      pushes := |reorder.pushed| - before;
    }
  }

  /** Taking a packet leads from `s` to `t`, in the order of the keys the map happens to yield. */
  ghost predicate Taken(s: State, packet: Packet, arrived: int, flushed: int, accepts: Packet -> bool, t: State, alive: bool) {
    exists ended: State, jumped: State ::
      Ended(Stored(s, packet), arrived, ended) && Jumped(ended, jumped)
      && t == Drained(jumped, Flushing(jumped, flushed, accepts)) && alive == Flushing(jumped, flushed, accepts).ok
  }

  /** What the rest of an audio turn makes of the buffer, as the check at its head decided; `alive`: the loop goes on. */
  ghost predicate Read(check: Recorder.AudioPhase, s: State, arrival: Option<Packet>, arrived: int, flushed: int,
                       accepts: Packet -> bool, t: State, alive: bool) {
    if check != Recorder.AudioAllowed then t == Keeping(s, arrival) && alive
    else if arrival.None? then t == s && alive
    else Taken(s, arrival.value, arrived, flushed, accepts, t, alive)
  }
}
