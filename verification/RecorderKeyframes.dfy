/** Recognizing keyframes and parameter sets in RTP payloads (recorder.go). */
module RecorderKeyframes {
  import opened Common
  import opened H264Rtp

  const TYPE_IDR := 5
  const TYPE_SPS := 7
  const TYPE_PPS := 8

  function NalType(b: Byte): nat {
    b % 32
  }

  predicate KeyType(t: nat) {
    t == TYPE_SPS || t == TYPE_PPS || t == TYPE_IDR
  }

  /** Some aggregated unit from `offset` on opens a keyframe; a length that overruns the payload ends the search. */
  predicate StapHasKey(payload: Bytes, offset: nat)
    decreases |payload| - offset
  {
    if offset + 2 > |payload| then false
    else
      var size := Size16(payload[offset], payload[offset + 1]);
      var at := offset + 2;
      at + size <= |payload| && ((size > 0 && KeyType(NalType(payload[at]))) || StapHasKey(payload, at + size))
  }

  predicate IsKeyframe(payload: Bytes) {
    payload != []
    && var t := NalType(payload[0]);
       if KeyType(t) then true
       else if t == TYPE_STAPA then StapHasKey(payload, 1)
       else t == TYPE_FUA && |payload| >= 2 && payload[1] >= 0x80 && NalType(payload[1]) == TYPE_IDR
  }

  method IsH264Keyframe(payload: Bytes) returns (key: bool)
    ensures key == IsKeyframe(payload)
  {
    if payload == [] {
      return false;
    }
    var t := NalType(payload[0]);
    if KeyType(t) {
      return true;
    }
    if t == TYPE_STAPA {
      var offset := 1;
      while offset < |payload|
        invariant 0 <= offset && StapHasKey(payload, offset) == StapHasKey(payload, 1)
        decreases |payload| - offset
      {
        if offset + 2 > |payload| {
          break;
        }
        var size := Size16(payload[offset], payload[offset + 1]);
        offset := offset + 2;
        if offset + size > |payload| {
          return false;
        }
        if size > 0 && KeyType(NalType(payload[offset])) {
          return true;
        }
        offset := offset + size;
      }
      return false;
    }
    if t == TYPE_FUA {
      return |payload| >= 2 && payload[1] >= 0x80 && NalType(payload[1]) == TYPE_IDR;
    }
    return false;
  }

  // ---------- Parameter sets ----------

  datatype Sets = Sets(sps: bool, pps: bool)

  function Or(a: Sets, b: Sets): Sets {
    Sets(a.sps || b.sps, a.pps || b.pps)
  }

  function OfType(t: nat): Sets {
    Sets(t == TYPE_SPS, t == TYPE_PPS)
  }

  /** Here an empty unit ends the search, unlike above. */
  function StapSets(payload: Bytes, offset: nat): Sets
    decreases |payload| - offset
  {
    if offset + 2 > |payload| then Sets(false, false)
    else
      var size := Size16(payload[offset], payload[offset + 1]);
      var at := offset + 2;
      if size == 0 || at + size > |payload| then Sets(false, false)
      else Or(OfType(NalType(payload[at])), StapSets(payload, at + size))
  }

  function ParameterSets(payload: Bytes): Sets {
    if payload == [] then Sets(false, false)
    else
      var t := NalType(payload[0]);
      if t == TYPE_STAPA then StapSets(payload, 1)
      else if t != TYPE_FUA then OfType(t)
      else if |payload| < 2 || payload[1] < 0x80 then Sets(false, false)
      else OfType(NalType(payload[1]))
  }

  method DetectParameterSets(payload: Bytes) returns (sets: Sets)
    ensures sets == ParameterSets(payload)
  {
    sets := Sets(false, false);
    if payload == [] {
      return;
    }
    var t := NalType(payload[0]);
    if t == TYPE_STAPA {
      var offset := 1;
      while offset + 2 <= |payload|
        invariant 0 < offset && Or(sets, StapSets(payload, offset)) == StapSets(payload, 1)
        decreases |payload| - offset
      {
        var size := Size16(payload[offset], payload[offset + 1]);
        offset := offset + 2;
        if size <= 0 || offset + size > |payload| {
          return;
        }
        sets := Or(sets, OfType(NalType(payload[offset])));
        offset := offset + size;
      }
      return;
    }
    if t == TYPE_FUA {
      if |payload| >= 2 && payload[1] >= 0x80 {
        sets := OfType(NalType(payload[1]));
      }
      return;
    }
    sets := OfType(t);
  }

  /** A payload that carries a parameter set counts as a keyframe, unless it is the first fragment of one. */
  lemma SetsAreKeyframes(payload: Bytes)
    requires ParameterSets(payload) != Sets(false, false)
    ensures IsKeyframe(payload) <==> NalType(payload[0]) != TYPE_FUA
  {
    if NalType(payload[0]) == TYPE_STAPA {
      StapSetsHaveKey(payload, 1);
    }
  }

  lemma {:induction false} StapSetsHaveKey(payload: Bytes, offset: nat)
    requires StapSets(payload, offset) != Sets(false, false)
    ensures StapHasKey(payload, offset)
    decreases |payload| - offset
  {
    var size := Size16(payload[offset], payload[offset + 1]);
    var at := offset + 2;
    if !KeyType(NalType(payload[at])) {
      StapSetsHaveKey(payload, at + size);
    }
  }

  // ---------- What is sent as a keyframe is recognized as one ----------

  /** An IDR slice (type 5), a sequence parameter set (type 7) or a picture parameter set (type 8). */
  predicate OpensKeyframe(nal: Bytes) {
    nal != [] && (nal[0] % 32 == 5 || nal[0] % 32 == 7 || nal[0] % 32 == 8)
  }

  predicate SomeOpens(nals: seq<Bytes>) {
    exists k :: 0 <= k < |nals| && OpensKeyframe(nals[k])
  }

  lemma SomeOpensCons(nal: Bytes, rest: seq<Bytes>)
    ensures SomeOpens([nal] + rest) == (OpensKeyframe(nal) || SomeOpens(rest))
  {
    var nals := [nal] + rest;
    assert nals[0] == nal && forall k :: 0 <= k < |rest| ==> nals[k + 1] == rest[k];
  }

  /** The units of an aggregation packet, up to a length that overruns it. */
  function Aggregated(payload: Bytes, offset: nat): seq<Bytes>
    decreases |payload| - offset
  {
    if offset + 2 > |payload| then []
    else
      var size := Size16(payload[offset], payload[offset + 1]);
      var at := offset + 2;
      if at + size > |payload| then []
      else (if size == 0 then [] else [payload[at..at + size]]) + Aggregated(payload, at + size)
  }

  /** Without an overrun these are the units the packet parses into. */
  lemma {:induction false} ParsedAreAggregated(payload: Bytes, offset: nat)
    requires ParseStap(payload, offset).Ok?
    ensures ParseStap(payload, offset).value == Aggregated(payload, offset)
    decreases |payload| - offset
  {
    if offset + 2 <= |payload| {
      ParsedAreAggregated(payload, offset + 2 + Size16(payload[offset], payload[offset + 1]));
    }
  }

  lemma {:induction false} StapHasKeyIff(payload: Bytes, offset: nat)
    ensures StapHasKey(payload, offset) == SomeOpens(Aggregated(payload, offset))
    decreases |payload| - offset
  {
    if offset + 2 <= |payload| {
      var at, size := offset + 2, Size16(payload[offset], payload[offset + 1]);
      if at + size <= |payload| {
        var rest := Aggregated(payload, at + size);
        StapHasKeyIff(payload, at + size);
        UnitOpens(payload, offset, at, size, rest);
      }
    }
  }

  lemma UnitOpens(payload: Bytes, offset: nat, at: nat, size: nat, rest: seq<Bytes>)
    requires at == offset + 2 && at + size <= |payload| && size == Size16(payload[offset], payload[offset + 1])
    requires rest == Aggregated(payload, at + size)
    ensures SomeOpens(Aggregated(payload, offset)) == ((size > 0 && KeyType(NalType(payload[at]))) || SomeOpens(rest))
  {
    AggregatedStep(payload, offset, at, size, rest);
    if size > 0 {
      assert payload[at..at + size][0] == payload[at];
      SomeOpensCons(payload[at..at + size], rest);
    }
  }

  lemma AggregatedStep(payload: Bytes, offset: nat, at: nat, size: nat, rest: seq<Bytes>)
    requires at == offset + 2 && at + size <= |payload| && size == Size16(payload[offset], payload[offset + 1])
    requires rest == Aggregated(payload, at + size)
    ensures Aggregated(payload, offset) == if size > 0 then [payload[at..at + size]] + rest else rest
  {
    assert [] + rest == rest;
  }

  /** An aggregation packet is a keyframe exactly when one of the units it parses into is SPS, PPS or IDR. */
  lemma StapKeyIff(payload: Bytes)
    requires payload != [] && payload[0] % 32 == 24 && ParseStap(payload, 1).Ok?
    ensures IsKeyframe(payload) == SomeOpens(ParseStap(payload, 1).value)
  {
    StapHasKeyIff(payload, 1);
    ParsedAreAggregated(payload, 1);
  }

  /** A unit sent whole is a keyframe exactly if it is SPS, PPS or IDR. */
  lemma WholeIsKeyframeIff(nal: Bytes)
    requires nal != [] && nal[0] % 32 != 24 && nal[0] % 32 != 28
    ensures IsKeyframe(nal) == OpensKeyframe(nal)
    ensures ParameterSets(nal) == Sets(nal[0] % 32 == 7, nal[0] % 32 == 8)
  {
  }

  /** A payload that opens a keyframe: by itself, by a unit it aggregates, or as the first fragment of an IDR slice. */
  predicate ShowsKeyframe(payload: Bytes) {
    || OpensKeyframe(payload)
    || (payload != [] && payload[0] % 32 == 24 && SomeOpens(Aggregated(payload, 1)))
    || (|payload| > 1 && payload[0] % 32 == 28 && payload[1] / 128 == 1 && payload[1] % 32 == 5)
  }

  lemma KeyframeIff(payload: Bytes)
    ensures IsKeyframe(payload) == ShowsKeyframe(payload)
  {
    StapHasKeyIff(payload, 1);
  }

  /** Injected parameter sets are recognized as a keyframe exactly when one of them is SPS, PPS or IDR. */
  lemma InjectedIsKeyframeIff(nals: seq<Bytes>)
    requires BuildStap(nals).Ok?
    ensures IsKeyframe(BuildStap(nals).value) == SomeOpens(nals)
  {
    var payload := BuildStap(nals).value;
    StapRoundTrip(nals);
    StapKeyIff(payload);
    NonEmptyOpens(nals);
  }

  lemma {:induction false} NonEmptyOpens(nals: seq<Bytes>)
    ensures SomeOpens(NonEmptyNals(nals)) == SomeOpens(nals)
    decreases |nals|
  {
    if nals != [] {
      var rest := NonEmptyNals(nals[1..]);
      NonEmptyOpens(nals[1..]);
      assert nals == [nals[0]] + nals[1..];
      SomeOpensCons(nals[0], nals[1..]);
      SomeOpensCons(nals[0], rest);
      assert [] + rest == rest;
    }
  }

  /** Of the fragments of a unit exactly the first is a keyframe, and only if the unit is an IDR slice. */
  lemma FragmentIsKeyframeIff(nal: Bytes, offset: nat)
    requires 0 < |nal| && offset < |nal| - 1
    ensures IsKeyframe(FuPayload(nal, offset)) <==> offset == 0 && nal[0] % 32 == 5
    ensures ParameterSets(FuPayload(nal, offset)) == Sets(offset == 0 && nal[0] % 32 == 7, offset == 0 && nal[0] % 32 == 8)
  {
    FragmentBytes(nal, offset);
  }

  // ---------- Parameter sets in an aggregation ----------

  predicate SomeOfType(nals: seq<Bytes>, t: nat) {
    exists k :: 0 <= k < |nals| && nals[k] != [] && nals[k][0] % 32 == t
  }

  lemma SomeOfTypeCons(nal: Bytes, rest: seq<Bytes>, t: nat)
    ensures SomeOfType([nal] + rest, t) == ((nal != [] && nal[0] % 32 == t) || SomeOfType(rest, t))
  {
    var nals := [nal] + rest;
    assert nals[0] == nal && forall k :: 0 <= k < |rest| ==> nals[k + 1] == rest[k];
  }

  /** No unit of zero length among those from `offset` on. */
  predicate NoneEmpty(payload: Bytes, offset: nat)
    decreases |payload| - offset
  {
    offset + 2 > |payload| ||
    var size := Size16(payload[offset], payload[offset + 1]);
    size > 0 && NoneEmpty(payload, offset + 2 + size)
  }

  lemma {:induction false} StapSetsIff(payload: Bytes, offset: nat)
    requires NoneEmpty(payload, offset)
    ensures var nals := Aggregated(payload, offset);
      StapSets(payload, offset) == Sets(SomeOfType(nals, 7), SomeOfType(nals, 8))
    decreases |payload| - offset
  {
    if offset + 2 <= |payload| {
      var at, size := offset + 2, Size16(payload[offset], payload[offset + 1]);
      if at + size <= |payload| {
        StapSetsIff(payload, at + size);
        SomeOfTypeCons(payload[at..at + size], Aggregated(payload, at + size), 7);
        SomeOfTypeCons(payload[at..at + size], Aggregated(payload, at + size), 8);
      }
    }
  }

  /** Without empty units an aggregation packet shows the parameter sets among its units. */
  lemma AggregatedSets(payload: Bytes)
    requires payload != [] && payload[0] % 32 == 24 && NoneEmpty(payload, 1)
    ensures var nals := Aggregated(payload, 1);
      ParameterSets(payload) == Sets(SomeOfType(nals, 7), SomeOfType(nals, 8))
  {
    StapSetsIff(payload, 1);
  }

  /** A fragment shows a parameter set only if it is the first one of it. */
  lemma FragmentSets(payload: Bytes)
    requires |payload| > 1 && payload[0] % 32 == 28
    ensures ParameterSets(payload)
      == Sets(payload[1] / 128 == 1 && payload[1] % 32 == 7, payload[1] / 128 == 1 && payload[1] % 32 == 8)
  {
  }
}
