/** The recorder's gating: activation, the first keyframe, the pre-buffer, and when audio may flow (recorder.go). */
module Recorder {
  import opened Common
  import opened RecorderKeyframes
  import opened H264Rtp

  const PRE_VIDEO_MAX := 300

  // ---------- The log of what was pushed ----------

  /** Video packets are named by their position among all packets received. */
  datatype Event =
    | Activated
    | Injected
    | Video(index: nat)
    | Audio(epoch: nat)

  /** The last video packet since the last activation. */
  function LastVideo(log: seq<Event>): Option<nat> {
    if log == [] then None
    else
      match log[|log| - 1]
      case Activated => None
      case Video(i) => Some(i)
      case _ => LastVideo(log[..|log| - 1])
  }

  /** Whether parameter sets were injected since the last activation. */
  predicate HasInjected(log: seq<Event>) {
    log != []
    && match log[|log| - 1]
       case Activated => false
       case Injected => true
       case _ => HasInjected(log[..|log| - 1])
  }

  function Epoch(log: seq<Event>): nat {
    if log == [] then 0
    else Epoch(log[..|log| - 1]) + if log[|log| - 1] == Activated then 1 else 0
  }

  /** A video packet was pushed during the given epoch. */
  predicate HasVideo(log: seq<Event>, epoch: nat) {
    log != [] && ((log[|log| - 1].Video? && Epoch(log) == epoch) || HasVideo(log[..|log| - 1], epoch))
  }

  /** Nothing but empty packets between two positions. */
  predicate OnlyEmpty(received: seq<Bytes>, lo: nat, hi: nat) {
    forall k :: lo <= k < hi && k < |received| ==> received[k] == []
  }

  /** What may follow a log: the rules every event obeys when it is pushed. */
  predicate MayFollow(log: seq<Event>, e: Event, received: seq<Bytes>) {
    match e
    case Activated => true
    case Injected => LastVideo(log).None? && !HasInjected(log) && Epoch(log) > 0
    case Video(i) =>
      i < |received| && Epoch(log) > 0 && received[i] != []
      && (match LastVideo(log)
          case None => IsKeyframe(received[i])
          case Some(v) => v < i && OnlyEmpty(received, v + 1, i))
    case Audio(epoch) => HasVideo(log, epoch)
  }

  predicate Orderly(log: seq<Event>, received: seq<Bytes>) {
    log == [] || (Orderly(log[..|log| - 1], received) && MayFollow(log[..|log| - 1], log[|log| - 1], received))
  }

  lemma {:induction false} OrderlyStays(log: seq<Event>, received: seq<Bytes>, packet: Bytes)
    requires Orderly(log, received)
    ensures Orderly(log, received + [packet])
  {
    if log != [] {
      OrderlyStays(log[..|log| - 1], received, packet);
    }
  }

  function Audios(n: nat, epoch: nat): seq<Event> {
    if n == 0 then [] else Audios(n - 1, epoch) + [Audio(epoch)]
  }

  lemma AudiosNext(log: seq<Event>, n: nat, epoch: nat)
    ensures log + Audios(n, epoch) + [Audio(epoch)] == log + Audios(n + 1, epoch)
  {
  }

  lemma {:induction false} LastVideoBounds(log: seq<Event>, received: seq<Bytes>)
    requires Orderly(log, received) && LastVideo(log).Some?
    ensures LastVideo(log).value < |received|
  {
    if !log[|log| - 1].Video? {
      LastVideoBounds(log[..|log| - 1], received);
    }
  }

  /** What one more event changes. */
  lemma Appended(log: seq<Event>, e: Event)
    ensures (log + [e])[..|log + [e]| - 1] == log
    ensures LastVideo(log + [e]) == if e == Activated then None else if e.Video? then Some(e.index) else LastVideo(log)
    ensures HasInjected(log + [e]) == (e != Activated && (e == Injected || HasInjected(log)))
    ensures Epoch(log + [e]) == Epoch(log) + if e == Activated then 1 else 0
  {
    assert (log + [e])[..|log + [e]| - 1] == log;
  }

  lemma AppendedVideo(log: seq<Event>, e: Event, epoch: nat)
    ensures HasVideo(log + [e], epoch) == ((e.Video? && Epoch(log) == epoch) || HasVideo(log, epoch))
  {
    Appended(log, e);
  }

  /** Which kinds of parameter sets a list of units holds. */
  function SetsIn(nals: seq<Bytes>): Sets {
    if nals == [] then Sets(false, false)
    else Or(if nals[0] == [] then Sets(false, false) else OfType(NalType(nals[0][0])), SetsIn(nals[1..]))
  }

  lemma {:induction false} SetsInIff(nals: seq<Bytes>)
    ensures SetsIn(nals) == Sets(SomeOfType(nals, 7), SomeOfType(nals, 8))
  {
    if nals != [] {
      SetsInIff(nals[1..]);
      assert nals == [nals[0]] + nals[1..];
      SomeOfTypeCons(nals[0], nals[1..], 7);
      SomeOfTypeCons(nals[0], nals[1..], 8);
    }
  }

  /** A packet joins the warm-up packets, of which the newest 300 are kept. */
  function Enqueued(kept: seq<Bytes>, packet: Bytes): seq<Bytes> {
    (if |kept| >= 300 then kept[1..] else kept) + [packet]
  }

  /** What is to become of a packet: greeted while no keyframe was seen yet, kept, pushed, or the start of a recording. */
  datatype Todo = Greet | Keep | Begin | Push

  /** What the flags say; `key`: the packet is a keyframe. */
  function Decide(ready: bool, active: bool, pending: bool, key: bool): Todo {
    if !ready then Greet else if !active then Keep else if !pending then Push else if key then Begin else Keep
  }

  /** What a packet's turn adds to the log; `injects`: parameter sets are sent ahead; `runs`: the pipeline is started. */
  function Adds(todo: Todo, key: bool, last: nat, callback: bool, injects: bool, runs: bool, accepted: bool): seq<Event> {
    match todo
    case Greet => if key && callback then [Activated] else []
    case Keep => []
    case Push => if accepted then [Video(last)] else []
    case Begin => (if injects then [Injected] else []) + if runs && accepted then [Video(last)] else []
  }

  /** Whether it ends the loop. */
  predicate Ends(todo: Todo, runs: bool, accepted: bool) {
    (todo == Push && !accepted) || (todo == Begin && !(runs && accepted))
  }

  /** The loop ends exactly when a packet that was to be pushed is not. */
  lemma EndsIff(todo: Todo, key: bool, last: nat, callback: bool, injects: bool, runs: bool, accepted: bool)
    ensures Ends(todo, runs, accepted)
      <==> (todo == Push || todo == Begin) && Video(last) !in Adds(todo, key, last, callback, injects, runs, accepted)
  {
  }

  // ---------- The recorder ----------

  /**
   * The video loop between its turns, waiting in a read, holding a packet from the pre-buffer, past its look at the
   * flags, or past the push of a recording's first keyframe, with the pending flag still to be cleared.
   */
  datatype Phase =
    | Idle
    | Reading
    | Holding(packet: Bytes)
    | Decided(packet: Bytes, fromBuffer: bool, key: bool, todo: Todo)
    | Primed

  /** The audio loop between its turns, or past its check: allowed to push, or not. */
  datatype AudioPhase = AudioIdle | AudioAllowed | AudioWaiting

  /** The warm-up packets after a packet's turn: one that was read joins them, unless it is recorded or passed over. */
  function Waiting(phase: Phase, kept: seq<Bytes>): seq<Bytes>
    requires phase.Decided?
  {
    if phase.fromBuffer then kept
    else if phase.todo == Keep || (phase.todo == Greet && phase.key) then Enqueued(kept, phase.packet)
    else kept
  }

  /**
   * A packet that is read is kept for later until recording begins with it: before the handshake only a keyframe, and
   * then every packet while recording is not active, or active but waiting for a keyframe.
   */
  lemma WaitingIff(ready: bool, active: bool, pending: bool, key: bool, packet: Bytes, fromBuffer: bool, kept: seq<Bytes>)
    ensures Waiting(Decided(packet, fromBuffer, key, Decide(ready, active, pending, key)), kept)
      == if !fromBuffer && (if ready then !active || (pending && !key) else key)
         then (if |kept| < 300 then kept else kept[1..]) + [packet] else kept
  {
  }

  class Recorder {
    var active: bool
    var pending: bool
    var handshakeReady: bool
    var pipelineStarted: bool
    var preVideo: seq<Bytes>
    var sets: Sets
    var injectedSprop: bool
    const sprop: seq<Bytes>
    var phase: Phase
    var audio: AudioPhase
    /** The video loop has returned. */
    var stopped: bool
    /** The epoch in which the audio loop last passed its check. */
    ghost var allowedIn: nat
    /** Recording was activated again where the video loop no longer looks at the flags. */
    ghost var late: bool
    ghost var received: seq<Bytes>
    ghost var log: seq<Event>

    /** The packet most recently received, not yet pushed. */
    ghost predicate Newest(packet: Bytes)
      reads this
    {
      packet != [] && received != [] && received[|received| - 1] == packet
    }

    /** What always holds of the log, the flags and the buffer. */
    ghost predicate Sound()
      reads this
    {
      Orderly(log, received) && |preVideo| <= PRE_VIDEO_MAX
      && (active <==> Epoch(log) > 0) && (pending ==> active) && (active && !handshakeReady ==> pending)
      && (audio.AudioAllowed? ==> active && HasVideo(log, allowedIn))
    }

    /** No keyframe has been pushed since the last activation. */
    ghost predicate Awaiting()
      reads this
    {
      LastVideo(log).None? && (!stopped ==> !HasInjected(log))
    }

    /** A recording goes on, and nothing was left out of what was received before `end`. */
    ghost predicate Recording(end: int)
      reads this
    {
      LastVideo(log).Some? && LastVideo(log).value < end && HasVideo(log, Epoch(log))
      && (!stopped ==> OnlyEmpty(received, LastVideo(log).value + 1, end))
    }

    /** Its first keyframe has just been pushed. */
    ghost predicate Started()
      reads this
    {
      received != [] && LastVideo(log) == Some(|received| - 1) && HasVideo(log, Epoch(log))
    }

    /** What holds of a packet between the look at the flags and what they say is to become of it. */
    ghost predicate Pondered(packet: Bytes, key: bool, todo: Todo)
      reads this
    {
      Newest(packet) && key == IsKeyframe(packet) && !stopped && (active ==> preVideo == [])
      && (todo == Greet <==> !handshakeReady) && (todo == Keep ==> active ==> pending)
      && (todo == Begin ==> key && active && pending) && (todo == Push ==> active && (late <==> pending))
    }

    ghost predicate InPhase()
      reads this
    {
      (late ==> phase.Primed? || (phase.Decided? && phase.todo == Push))
      && match phase
         case Idle => active && preVideo != [] ==> pending && |preVideo| == 1 && Newest(preVideo[0])
         case Reading => active ==> preVideo == []
         case Holding(packet) => active && pending && preVideo == [] && Newest(packet)
         case Decided(packet, fromBuffer, key, todo) => Pondered(packet, key, todo)
         case Primed => active && pending && handshakeReady && preVideo == [] && received != [] && !stopped
    }

    ghost predicate Valid()
      reads this
    {
      Sound() && InPhase()
      && (active && pending ==> if phase.Primed? && !late then Started() else Awaiting())
      && (active && !pending ==> preVideo == [] && Recording(Settled()))
    }

    /** How many of the packets received have been dealt with. */
    ghost function Settled(): int
      reads `phase, `received
    {
      if phase.Decided? then |received| - 1 else |received|
    }

    constructor (sprop: seq<Bytes>)
      ensures this.sprop == sprop && sets == Sets(false, false) && !injectedSprop && !pipelineStarted
      ensures Valid() && log == [] && received == [] && preVideo == []
      ensures !active && !handshakeReady && !stopped && phase == Idle && audio == AudioIdle
    {
      active, pending, handshakeReady, pipelineStarted, injectedSprop, stopped := false, false, false, false, false, false;
      preVideo, sets, phase, audio, late, received, log := [], Sets(false, false), Idle, AudioIdle, false, [], [];
      this.sprop := sprop;
    }

    /** Grows the log by an event, which may follow it or not. */
    ghost method Log(e: Event)
      requires Orderly(log, received)
      modifies `log
      ensures log == old(log) + [e] && (Orderly(log, received) <==> MayFollow(old(log), e, received))
      ensures LastVideo(log) == if e == Activated then None else if e.Video? then Some(e.index) else LastVideo(old(log))
      ensures HasInjected(log) == (e != Activated && (e == Injected || HasInjected(old(log))))
      ensures Epoch(log) == Epoch(old(log)) + if e == Activated then 1 else 0
      ensures HasVideo(log, allowedIn) == ((e.Video? && Epoch(old(log)) == allowedIn) || HasVideo(old(log), allowedIn))
      ensures e != Activated ==> HasVideo(log, Epoch(log)) == (e.Video? || HasVideo(old(log), Epoch(old(log))))
    {
      Appended(log, e);
      AppendedVideo(log, e, allowedIn);
      AppendedVideo(log, e, Epoch(log + [e]));
      log := log + [e];
    }

    /** One atomic step: recording starts over at the next keyframe, and the warm-up packets are discarded. */
    method ActivateRecording()
      requires Valid()
      modifies `active, `pending, `preVideo, `late, `log
      ensures Valid() && active && pending && preVideo == [] && log == old(log) + [Activated]
      ensures late == (phase.Primed? || (phase.Decided? && phase.todo == Push))
    {
      active, pending, preVideo := true, true, [];
      late := phase.Primed? || (phase.Decided? && phase.todo == Push);
      Log(Activated);
    }

    // ---------- Audio ----------

    /** The check at the head of the audio loop. */
    method CheckAudio()
      requires Valid() && audio == AudioIdle
      modifies `audio, `allowedIn
      ensures Valid() && audio == if active && !pending then AudioAllowed else AudioWaiting
      ensures audio == AudioAllowed ==> allowedIn == Epoch(log)
    {
      allowedIn := Epoch(log);
      audio := if active && !pending then AudioAllowed else AudioWaiting;
    }

    /**
     * The rest of the turn, once a packet has been read: as many pushes as the reorder buffer yields, or none. What is
     * pushed precedes the keyframe of the current activation if and only if that keyframe is still awaited: it is
     * pending, and not just pushed with the flag about to be cleared.
     */
    method ReadAudio(ghost pushes: nat)
      requires Valid() && audio != AudioIdle
      modifies `audio, `log
      ensures Valid() && audio == AudioIdle
      ensures log == old(log) + if old(audio) == AudioAllowed then Audios(pushes, allowedIn) else []
      ensures old(audio) == AudioAllowed ==> active && (old(LastVideo(log)).None? <==> pending && (phase.Primed? ==> late))
    {
      if audio == AudioAllowed {
        AwaitedIff();
        PushAudios(pushes);
      }
      audio := AudioIdle;
    }

    lemma AwaitedIff()
      requires Valid() && active
      ensures LastVideo(log).None? <==> pending && (phase.Primed? ==> late)
    {
    }

    ghost method PushAudios(n: nat)
      requires Valid() && audio == AudioAllowed
      modifies `log
      ensures Valid() && log == old(log) + Audios(n, allowedIn)
    {
      if n > 0 {
        PushAudios(n - 1);
        AudiosNext(old(log), n - 1, allowedIn);
        PushAudio();
      }
    }

    ghost method PushAudio()
      requires Valid() && audio == AudioAllowed
      modifies `log
      ensures Valid() && log == old(log) + [Audio(allowedIn)]
    {
      Log(Audio(allowedIn));
    }

    // ---------- Video ----------

    method EnqueuePreVideo(packet: Bytes)
      requires |preVideo| <= PRE_VIDEO_MAX
      modifies `preVideo
      ensures preVideo == Enqueued(old(preVideo), packet)
      ensures |preVideo| <= PRE_VIDEO_MAX
    {
      if |preVideo| >= PRE_VIDEO_MAX {
        preVideo := preVideo[1..];
      }
      preVideo := preVideo + [packet];
    }

    /** The head of the video loop: a packet from the pre-buffer once recording is active, or else a blocking read. */
    method TakeVideo()
      requires Valid() && phase == Idle && !stopped
      modifies `phase, `preVideo
      ensures Valid()
      ensures if active && old(preVideo) != [] then phase == Holding(old(preVideo)[0]) && preVideo == old(preVideo)[1..]
        else phase == Reading && preVideo == old(preVideo)
    {
      if active && preVideo != [] {
        phase, preVideo := Holding(preVideo[0]), preVideo[1..];
      } else {
        phase := Reading;
      }
    }

    /** The packet has been received, or taken up, and is looked at; an empty one ends the turn. */
    method CheckVideo(arrival: Bytes)
      requires Valid() && (phase.Reading? || phase.Holding?) && !stopped
      modifies `phase, `received, `sets
      ensures Valid()
      ensures received == (if old(phase) == Reading then old(received) + [arrival] else old(received)) && received != []
      ensures var packet := if old(phase).Holding? then old(phase).packet else arrival;
        sets == Or(old(sets), ParameterSets(packet))
        && phase == if packet == [] then Idle
                    else Decided(packet, old(phase).Holding?, IsKeyframe(packet),
                                 Decide(handshakeReady, active, pending, IsKeyframe(packet)))
    {
      var fromBuffer := phase.Holding?;
      var packet := Receive(arrival);
      var found := DetectParameterSets(packet);
      sets := Or(sets, found);
      if packet == [] {
        PassOver();
        return;
      }
      var key := IsH264Keyframe(packet);
      Look(packet, fromBuffer, key);
    }

    method Look(packet: Bytes, fromBuffer: bool, key: bool)
      requires Fresh(packet) && packet != [] && key == IsKeyframe(packet)
      modifies `phase
      ensures Valid() && phase == Decided(packet, fromBuffer, key, Decide(handshakeReady, active, pending, key))
    {
      phase := Decided(packet, fromBuffer, key, Decide(handshakeReady, active, pending, key));
    }

    method PassOver()
      requires Fresh([])
      modifies `phase
      ensures Valid() && phase == Idle
    {
      phase := Idle;
    }

    /** The newest packet has been received but not yet looked at. */
    ghost predicate Fresh(packet: Bytes)
      reads this
    {
      Sound() && !late && !stopped && received != [] && received[|received| - 1] == packet && (active ==> preVideo == [])
      && (active && pending ==> Awaiting()) && (active && !pending ==> Recording(|received| - 1))
    }

    method Receive(arrival: Bytes) returns (packet: Bytes)
      requires Valid() && (phase.Reading? || phase.Holding?) && !stopped
      modifies `received
      ensures received == if phase.Reading? then old(received) + [arrival] else old(received)
      ensures packet == (if phase.Holding? then phase.packet else arrival) && Fresh(packet)
    {
      if phase.Holding? {
        return phase.packet;
      }
      OrderlyStays(log, received, arrival);
      received := received + [arrival];
      return arrival;
    }

    /** What becomes of the packet, as decided when the flags were looked at. */
    method FinishVideo(callback: bool, injects: bool, starts: bool, accepted: bool)
      requires Valid() && phase.Decided?
      modifies `phase, `preVideo, `handshakeReady, `pipelineStarted, `sets, `injectedSprop
      modifies `pending, `active, `stopped, `late, `log
      ensures Valid() == !(old(late) && accepted)
      ensures var todo, runs := old(phase).todo, old(pipelineStarted) || starts;
        log == old(log) + Adds(todo, old(phase).key, |received| - 1, callback, old(Injects(sets, injects)), runs, accepted)
        && stopped == Ends(todo, runs, accepted) && phase == if todo == Begin && !stopped then Primed else Idle
      ensures var begins := old(phase).todo == Begin; var injected := begins && old(Injects(sets, injects));
        && sets == (if injected then Or(old(sets), SetsIn(sprop)) else old(sets))
        && injectedSprop == (old(injectedSprop) || injected) && pipelineStarted == (old(pipelineStarted) || (begins && starts))
      ensures handshakeReady == (old(handshakeReady) || (old(phase).todo == Greet && old(phase).key)) && !late
      ensures if old(phase).todo == Greet && old(phase).key && callback then active && pending && preVideo == []
        else active == old(active) && pending == old(pending) && preVideo == Waiting(old(phase), old(preVideo))
    {
      if phase.todo == Greet {
        GreetPacket(callback);
      } else if phase.todo == Keep {
        KeepPacket();
      } else {
        RecordPacket(injects, starts, accepted);
      }
    }

    method RecordPacket(injects: bool, starts: bool, accepted: bool)
      requires Valid() && phase.Decided? && (phase.todo == Begin || phase.todo == Push)
      modifies `phase, `pipelineStarted, `sets, `injectedSprop, `stopped, `late, `log
      ensures Valid() == !(old(late) && accepted) && !late
      ensures var todo, runs := old(phase).todo, old(pipelineStarted) || starts;
        log == old(log) + Adds(todo, old(phase).key, |received| - 1, false, old(Injects(sets, injects)), runs, accepted)
        && stopped == Ends(todo, runs, accepted) && phase == if todo == Begin && !stopped then Primed else Idle
      ensures var begins := old(phase).todo == Begin; var injected := begins && old(Injects(sets, injects));
        && sets == (if injected then Or(old(sets), SetsIn(sprop)) else old(sets))
        && injectedSprop == (old(injectedSprop) || injected) && pipelineStarted == (old(pipelineStarted) || (begins && starts))
    {
      if phase.todo == Begin {
        BeginRecording(injects, starts, accepted);
      } else {
        PushPacket(accepted);
      }
    }

    /** Before the handshake only a keyframe counts; its callback may activate recording. */
    method GreetPacket(callback: bool)
      requires Valid() && phase.Decided? && phase.todo == Greet
      modifies `phase, `preVideo, `handshakeReady, `active, `pending, `late, `log
      ensures Valid() && phase == Idle && handshakeReady == old(phase).key && !late
      ensures log == old(log) + if old(phase).key && callback then [Activated] else []
      ensures if old(phase).key && callback then active && pending && preVideo == []
        else active == old(active) && pending == old(pending) && preVideo == Waiting(old(phase), old(preVideo))
    {
      if phase.key {
        if !phase.fromBuffer {
          EnqueuePreVideo(phase.packet);
        }
        handshakeReady := true;
      }
      var key := phase.key;
      phase := Idle;
      if key && callback {
        ActivateRecording();
      }
    }

    method KeepPacket()
      requires Valid() && phase.Decided? && phase.todo == Keep
      modifies `phase, `preVideo
      ensures Valid() && phase == Idle
      ensures preVideo == Waiting(old(phase), old(preVideo))
    {
      if !phase.fromBuffer {
        EnqueuePreVideo(phase.packet);
      }
      phase := Idle;
    }

    /**
     * A packet of a running recording is pushed. If recording was activated again since the flags were looked at, it is
     * pushed as the first packet of the new recording, keyframe or not, while a keyframe is still waited for.
     */
    method PushPacket(accepted: bool)
      requires Valid() && phase.Decided? && phase.todo == Push
      modifies `phase, `stopped, `late, `log
      ensures Valid() == !(old(late) && accepted)
      ensures phase == Idle && !late && stopped == !accepted
      ensures log == old(log) + if accepted then [Video(|received| - 1)] else []
      ensures Orderly(log, received) <==> !(old(late) && accepted && !old(phase).key)
    {
      if !accepted {
        stopped, phase, late := true, Idle, false;
        return;
      }
      Log(Video(|received| - 1));
      phase, late := Idle, false;
    }

    /** Pushing video is foreign: `accepted` says whether it succeeds. A failure ends the loop. */
    method PushVideo(accepted: bool)
      requires Orderly(log, received) && received != [] && (accepted ==> MayFollow(log, Video(|received| - 1), received))
      modifies `log, `stopped
      ensures Orderly(log, received) && log == old(log) + (if accepted then [Video(|received| - 1)] else [])
      ensures stopped == (old(stopped) || !accepted) && Epoch(log) == old(Epoch(log))
      ensures LastVideo(log) == if accepted then Some(|received| - 1) else old(LastVideo(log))
      ensures old(HasVideo(log, allowedIn)) ==> HasVideo(log, allowedIn)
      ensures accepted || old(HasVideo(log, Epoch(log))) ==> HasVideo(log, Epoch(log))
      ensures !accepted ==> HasInjected(log) == old(HasInjected(log))
    {
      if accepted {
        Log(Video(|received| - 1));
      } else {
        stopped := true;
      }
    }

    /** The parameter sets known from the codec description, sent ahead of the first keyframe. */
    method InjectParameterSets(accepted: bool)
      requires Orderly(log, received) && MayFollow(log, Injected, received)
      modifies `log, `sets, `injectedSprop
      ensures Orderly(log, received) && Epoch(log) == old(Epoch(log)) && LastVideo(log) == None
      ensures log == old(log) + (if accepted && BuildStap(sprop).Ok? then [Injected] else [])
      ensures injectedSprop == (old(injectedSprop) || (accepted && BuildStap(sprop).Ok?))
      ensures sets == if accepted && BuildStap(sprop).Ok? then Or(old(sets), SetsIn(sprop)) else old(sets)
      ensures old(HasVideo(log, allowedIn)) ==> HasVideo(log, allowedIn)
    {
      var payload := BuildParameterSets(sprop);
      if payload.Ok? && accepted {
        Log(Injected);
        injectedSprop := true;
        sets := Or(sets, SetsIn(sprop));
      }
    }

    /** Whether there are parameter sets to inject ahead of a keyframe, besides those already seen. */
    predicate WantsSets(known: Sets)
      reads `injectedSprop
    {
      (!known.sps || !known.pps) && sprop != [] && !injectedSprop
    }

    /** Whether they are injected, if the pipeline takes them. */
    ghost predicate Injects(known: Sets, injects: bool)
      reads `injectedSprop
    {
      WantsSets(known) && BuildStap(sprop).Ok? && injects
    }

    /** The first keyframe of a recording: parameter sets if needed, the pipeline, the keyframe, and only then audio. */
    method BeginRecording(injects: bool, starts: bool, accepted: bool)
      requires Valid() && phase.Decided? && phase.todo == Begin
      modifies `phase, `pipelineStarted, `sets, `injectedSprop, `stopped, `log
      ensures Valid() && !late
      ensures var runs := old(pipelineStarted) || starts;
        log == old(log) + Adds(Begin, true, |received| - 1, false, old(Injects(sets, injects)), runs, accepted)
        && stopped == !(runs && accepted) && phase == if stopped then Idle else Primed
      ensures (|log| > |old(log)| && log[|old(log)|] == Injected)
        == (injects && !(old(sets).sps && old(sets).pps) && sprop != [] && !old(injectedSprop) && BuildStap(sprop).Ok?)
      ensures injects && BuildStap(sprop).Ok? && !old(injectedSprop) ==> sets == Or(old(sets), SetsIn(sprop))
      ensures sets == (if old(Injects(sets, injects)) then Or(old(sets), SetsIn(sprop)) else old(sets))
      ensures injectedSprop == (old(injectedSprop) || old(Injects(sets, injects)))
      ensures pipelineStarted == (old(pipelineStarted) || starts)
    {
      if WantsSets(sets) {
        InjectParameterSets(injects);
      }
      StartWithKeyframe(starts, accepted);
    }

    /** The state in which a keyframe starts a recording. */
    ghost predicate ReadyToBegin()
      reads this
    {
      Sound() && phase.Decided? && Newest(phase.packet) && IsKeyframe(phase.packet) && !stopped && !late
      && active && pending && handshakeReady && preVideo == [] && LastVideo(log).None?
    }

    method StartWithKeyframe(starts: bool, accepted: bool)
      requires ReadyToBegin()
      modifies `phase, `pipelineStarted, `stopped, `log
      ensures Valid() && stopped == !((old(pipelineStarted) || starts) && accepted)
      ensures phase == (if stopped then Idle else Primed) && log == old(log) + (if stopped then [] else [Video(|received| - 1)])
      ensures pipelineStarted == (old(pipelineStarted) || starts)
    {
      if !pipelineStarted && !starts {
        stopped, phase := true, Idle;
        return;
      }
      pipelineStarted := true;
      PushVideo(accepted);
      phase := if stopped then Idle else Primed;
    }

    /**
     * The end of that turn: the pending flag is cleared. If recording was activated again since the keyframe was pushed,
     * that flag was the new activation's, and nothing waits for a keyframe any more.
     */
    method EndVideo()
      requires Valid() && phase == Primed
      modifies `phase, `pending, `late
      ensures Valid() == !old(late)
      ensures phase == Idle && active && !pending && !late && preVideo == []
    {
      // The pre-buffer is empty whenever recording starts, so the source's priming loop has nothing to push.
      assert preVideo == [];
      phase, pending, late := Idle, false, false;
    }
  }

  // ---------- What an orderly log means ----------

  lemma {:induction false} OrderlyAt(log: seq<Event>, received: seq<Bytes>, j: nat)
    requires Orderly(log, received) && j < |log|
    ensures Orderly(log[..j], received) && MayFollow(log[..j], log[j], received)
  {
    var n := |log| - 1;
    if j < n {
      OrderlyAt(log[..n], received, j);
      assert log[..n][..j] == log[..j];
    }
  }

  /** Without a video packet since an activation there is no last one. */
  lemma {:induction false} NoVideoSince(log: seq<Event>, i: nat)
    requires i < |log| && log[i] == Activated && forall k :: i < k < |log| ==> log[k] != Activated && !log[k].Video?
    ensures LastVideo(log) == None
  {
    if i < |log| - 1 {
      NoVideoSince(log[..|log| - 1], i);
    }
  }

  /** The first video packet pushed after an activation is a keyframe: it shows an IDR slice, an SPS or a PPS. */
  lemma FirstVideoIsKeyframe(log: seq<Event>, received: seq<Bytes>, i: nat, j: nat)
    requires Orderly(log, received) && i < j < |log| && log[i] == Activated && log[j].Video?
    requires forall k :: i < k < j ==> log[k] != Activated && !log[k].Video?
    ensures log[j].index < |received| && ShowsKeyframe(received[log[j].index])
  {
    OrderlyAt(log, received, j);
    NoVideoSince(log[..j], i);
    KeyframeIff(received[log[j].index]);
  }

  /** Parameter sets are injected only ahead of that first packet. */
  lemma InjectionComesFirst(log: seq<Event>, received: seq<Bytes>, i: nat, j: nat)
    requires Orderly(log, received) && i < j < |log| && log[i].Video? && log[j] == Injected
    ensures exists k :: i < k < j && log[k] == Activated
  {
    OrderlyAt(log, received, j);
    SomeVideoSince(log[..j], i);
  }

  lemma {:induction false} SomeVideoSince(log: seq<Event>, i: nat)
    requires i < |log| && log[i].Video?
    ensures LastVideo(log).Some? || exists k :: i < k < |log| && log[k] == Activated
  {
    var n := |log| - 1;
    if i < n && log[n] != Activated && !log[n].Video? {
      SomeVideoSince(log[..n], i);
      if k :| i < k < n && log[..n][k] == Activated {
        assert log[k] == Activated;
      }
    }
  }

  function NonEmpty(packets: seq<Bytes>): seq<Bytes> {
    if packets == [] then []
    else NonEmpty(packets[..|packets| - 1]) + if packets[|packets| - 1] == [] then [] else [packets[|packets| - 1]]
  }

  /** The first video packet since the last activation. */
  function FirstVideo(log: seq<Event>): Option<nat> {
    if log == [] then None
    else
      match log[|log| - 1]
      case Activated => None
      case Video(i) =>
        var before := FirstVideo(log[..|log| - 1]);
        if before.Some? then before else Some(i)
      case _ => FirstVideo(log[..|log| - 1])
  }

  /** The packets pushed since the last activation. */
  function Recorded(log: seq<Event>, received: seq<Bytes>): seq<Bytes> {
    if log == [] then []
    else
      match log[|log| - 1]
      case Activated => []
      case Video(i) => Recorded(log[..|log| - 1], received) + if i < |received| then [received[i]] else []
      case _ => Recorded(log[..|log| - 1], received)
  }

  lemma {:induction false} NonEmptySkips(received: seq<Bytes>, lo: nat, mid: nat, hi: nat)
    requires lo <= mid <= hi <= |received| && OnlyEmpty(received, mid, hi)
    ensures NonEmpty(received[lo..hi]) == NonEmpty(received[lo..mid])
  {
    if mid < hi {
      NonEmptySkips(received, lo, mid, hi - 1);
      assert received[lo..hi][..|received[lo..hi]| - 1] == received[lo..hi - 1];
    }
  }

  lemma NonEmptyNext(received: seq<Bytes>, lo: nat, hi: nat)
    requires lo <= hi < |received| && received[hi] != []
    ensures NonEmpty(received[lo..hi + 1]) == NonEmpty(received[lo..hi]) + [received[hi]]
  {
    assert received[lo..hi + 1][..hi - lo] == received[lo..hi];
  }

  /** The first and the last video packet, and every non-empty one between, in order. */
  ghost predicate GapFree(recorded: seq<Bytes>, first: Option<nat>, last: Option<nat>, received: seq<Bytes>) {
    (first.None? ==> last.None? && recorded == [])
    && (first.Some? ==> last.Some? && first.value <= last.value < |received| && IsKeyframe(received[first.value])
                         && recorded == NonEmpty(received[first.value..last.value + 1]))
  }

  lemma GapFreeNext(recorded: seq<Bytes>, first: Option<nat>, last: Option<nat>, received: seq<Bytes>, i: nat)
    requires GapFree(recorded, first, last, received) && i < |received| && received[i] != []
    requires if last.None? then IsKeyframe(received[i]) else last.value < i && OnlyEmpty(received, last.value + 1, i)
    ensures GapFree(recorded + [received[i]], if first.Some? then first else Some(i), Some(i), received)
  {
    if first.None? {
      NonEmptyNext(received, i, i);
      assert received[i..i] == [];
    } else {
      NonEmptySkips(received, first.value, last.value + 1, i);
      NonEmptyNext(received, first.value, i);
    }
  }

  /** What was pushed since an activation: every non-empty packet from a keyframe on, in order, up to the last pushed. */
  lemma {:induction false} RecordedIsGapFree(log: seq<Event>, received: seq<Bytes>)
    requires Orderly(log, received)
    ensures GapFree(Recorded(log, received), FirstVideo(log), LastVideo(log), received)
  {
    if log != [] {
      var front, e := log[..|log| - 1], log[|log| - 1];
      RecordedIsGapFree(front, received);
      if e.Video? {
        GapFreeNext(Recorded(front, received), FirstVideo(front), LastVideo(front), received, e.index);
      }
    }
  }

  /**
   * While recording, that is every non-empty packet received from the keyframe on, but for one still to be dealt with: a
   * suffix without a gap.
   */
  lemma RecordedIsASuffix(r: Recorder)
    requires r.Valid() && r.active && !r.pending && !r.stopped
    ensures FirstVideo(r.log).Some?
    ensures var f, end := FirstVideo(r.log).value, r.Settled();
      f < end <= |r.received| && IsKeyframe(r.received[f]) && Recorded(r.log, r.received) == NonEmpty(r.received[f..end])
  {
    RecordedIsGapFree(r.log, r.received);
    NonEmptySkips(r.received, FirstVideo(r.log).value, LastVideo(r.log).value + 1, r.Settled());
  }

  // ---------- Audio ----------

  lemma {:induction false} VideoOf(log: seq<Event>, epoch: nat)
    requires HasVideo(log, epoch)
    ensures exists i :: 0 <= i < |log| && log[i].Video? && Epoch(log[..i]) == epoch
  {
    var n := |log| - 1;
    if log[n].Video? && Epoch(log) == epoch {
      assert Epoch(log[..n]) == epoch;
    } else {
      VideoOf(log[..n], epoch);
      var i :| 0 <= i < n && log[..n][i].Video? && Epoch(log[..n][..i]) == epoch;
      assert log[..n][..i] == log[..i];
    }
  }

  /** Audio is pushed only after a video packet of the epoch in which the audio loop was allowed to push it. */
  lemma AudioFollowsVideo(log: seq<Event>, received: seq<Bytes>, j: nat)
    requires Orderly(log, received) && j < |log| && log[j].Audio?
    ensures exists i :: 0 <= i < j && log[i].Video? && Epoch(log[..i]) == log[j].epoch
  {
    OrderlyAt(log, received, j);
    VideoOf(log[..j], log[j].epoch);
    var i :| 0 <= i < j && log[..j][i].Video? && Epoch(log[..j][..i]) == log[j].epoch;
    assert log[..j][..i] == log[..i];
  }

  lemma {:induction false} VideoInEpoch(log: seq<Event>, i: nat)
    requires i < |log| && log[i].Video? && Epoch(log[..i]) == Epoch(log)
    ensures LastVideo(log).Some?
  {
    var n := |log| - 1;
    if i < n {
      assert log[..n][..i] == log[..i];
      EpochGrows(log[..n], i);
      if !log[n].Video? {
        VideoInEpoch(log[..n], i);
      }
    }
  }

  lemma {:induction false} EpochGrows(log: seq<Event>, i: nat)
    requires i <= |log|
    ensures Epoch(log[..i]) <= Epoch(log)
  {
    if i < |log| {
      var n := |log| - 1;
      assert log[..n][..i] == log[..i];
      EpochGrows(log[..n], i);
    } else {
      assert log[..i] == log;
    }
  }

  /**
   * No audio precedes the first keyframe of its own epoch. In particular none is pushed between the first
   * activation and the first keyframe.
   */
  lemma NoAudioBeforeKeyframe(log: seq<Event>, received: seq<Bytes>, j: nat)
    requires Orderly(log, received) && j < |log| && log[j] == Audio(Epoch(log[..j]))
    ensures LastVideo(log[..j]).Some?
  {
    AudioFollowsVideo(log, received, j);
    var i :| 0 <= i < j && log[i].Video? && Epoch(log[..i]) == log[j].epoch;
    assert log[..j][..i] == log[..i];
    VideoInEpoch(log[..j], i);
  }

  lemma FirstEpoch()
    ensures Epoch([Activated, Video(1)]) == 1 && Audios(1, 1) == [Audio(1)]
  {
    assert [Activated, Video(1)][..1] == [Activated] && [Activated][..0] == [];
    assert Audios(0, 1) == [];
  }

  /** A second activation can come between the audio loop's check and its push: then audio does precede the keyframe. */
  method AudioCrossesActivation() returns (r: Recorder)
    ensures r.Valid() && r.log == [Activated, Video(1), Activated, Audio(1)] && r.pending
  {
    r := RecordOne();
    FirstEpoch();
    r.CheckAudio();
    r.ActivateRecording();
    r.ReadAudio(1);
  }

  /** It can come between the video loop's look at the flags and its push: then the recording starts with any packet. */
  method VideoCrossesActivation() returns (r: Recorder)
    ensures r.log == [Activated, Video(1), Activated, Video(2)] && |r.received| == 3 && !IsKeyframe(r.received[2])
    ensures !Orderly(r.log, r.received) && r.pending
  {
    r := RecordOne();
    LookAt(r, [1]);
    r.ActivateRecording();
    r.FinishVideo(false, false, true, true);
  }

  /** And between the keyframe's push and the clearing of the flag: then no keyframe is waited for. */
  method FlagIsLost() returns (r: Recorder)
    ensures r.log == [Activated, Video(1), Activated] && r.active && !r.pending && LastVideo(r.log) == None
  {
    r := BeginOne();
    r.ActivateRecording();
    r.EndVideo();
    Appended([Activated, Video(1)], Activated);
  }

  /** A packet is read and looked at. */
  method LookAt(r: Recorder, packet: Bytes)
    requires r.Valid() && r.phase == Idle && !r.stopped && r.preVideo == [] && packet != []
    modifies r`phase, r`preVideo, r`received, r`sets
    ensures r.Valid() && r.received == old(r.received) + [packet] && r.preVideo == []
    ensures r.sets == Or(old(r.sets), ParameterSets(packet))
    ensures r.phase
      == Decided(packet, false, IsKeyframe(packet), Decide(r.handshakeReady, r.active, r.pending, IsKeyframe(packet)))
  {
    r.TakeVideo();
    r.CheckVideo(packet);
  }

  /** The shortest way to a recording: a warm-up keyframe whose callback activates, and another keyframe. */
  method RecordOne() returns (r: Recorder)
    ensures fresh(r) && r.Valid() && r.log == [Activated, Video(1)] && r.active && !r.pending && r.audio == AudioIdle
    ensures r.phase == Idle && !r.stopped && r.handshakeReady && r.preVideo == [] && |r.received| == 2
  {
    r := BeginOne();
    r.EndVideo();
  }

  method BeginOne() returns (r: Recorder)
    ensures fresh(r) && r.Valid() && r.log == [Activated, Video(1)] && r.phase == Primed && r.audio == AudioIdle && !r.late
    ensures r.handshakeReady && |r.received| == 2
  {
    r := WarmUp([]);
    LookAt(r, [5]);
    r.FinishVideo(false, false, true, true);
  }

  method WarmUp(sprop: seq<Bytes>) returns (r: Recorder)
    ensures fresh(r) && r.Valid() && r.log == [Activated] && |r.received| == 1 && r.preVideo == [] && r.audio == AudioIdle
    ensures r.active && r.pending && r.handshakeReady && !r.stopped && r.phase == Idle && r.sprop == sprop
    ensures r.sets == Sets(false, false) && !r.injectedSprop
  {
    r := new Recorder(sprop);
    WholeIsKeyframeIff([5]);
    LookAt(r, [5]);
    r.FinishVideo(true, false, true, true);
  }

  /** A recording whose description holds both parameter sets begins with them, and then the keyframe. */
  method SetsComeFirst() returns (r: Recorder)
    ensures r.log == [Activated, Injected, Video(1)] && r.sets == Sets(true, true) && r.injectedSprop
    ensures |r.received| == 2 && r.sprop == [[0x67], [0x68]]
  {
    r := WarmUp([[0x67], [0x68]]);
    WholeIsKeyframeIff([5]);
    LookAt(r, [5]);
    TwoSets([0x67], [0x68]);
    r.FinishVideo(false, true, true, true);
  }

  lemma TwoSets(sps: Bytes, pps: Bytes)
    requires sps == [0x67] && pps == [0x68]
    ensures BuildStap([sps, pps]).Ok? && SetsIn([sps, pps]) == Sets(true, true)
  {
    assert [sps, pps][1..] == [pps] && [pps][1..] == [];
    assert StapBody([pps]).Some?;
  }
}
