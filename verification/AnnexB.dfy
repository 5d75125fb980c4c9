/** The Annex B scanner (findH264NALUnits, findNALUnits) and normalizeH264AnnexBStartCodes. */
module AnnexB {
  import opened Common

  const START_CODE: Bytes := [0, 0, 0, 1]

  /** A NAL unit: the bytes `[start, end)` after a start code. */
  datatype Nal = Nal(start: nat, end: nat)

  /** Length of the start code at `i`, 0 if there is none. */
  function CodeLen(data: Bytes, i: nat): (n: nat)
    ensures n > 0 ==> i + n <= |data|
  {
    if i + 4 <= |data| && data[i] == 0 && data[i + 1] == 0 && data[i + 2] == 0 && data[i + 3] == 1 then 4
    else if i + 3 <= |data| && data[i] == 0 && data[i + 1] == 0 && data[i + 2] == 1 then 3
    else 0
  }

  /** The inner search's test for a start code, which it applies only up to three bytes before the end. */
  predicate CodeAt(data: Bytes, j: nat)
    requires j + 3 < |data|
  {
    data[j] == 0 && data[j + 1] == 0 && (data[j + 2] == 1 || (data[j + 2] == 0 && data[j + 3] == 1))
  }

  /** The first start code the inner search sees from `j` on, or the end of the data. */
  function NalEnd(data: Bytes, j: nat): (end: nat)
    requires j <= |data|
    ensures j <= end <= |data|
    decreases |data| - j
  {
    if j + 3 >= |data| then |data|
    else if CodeAt(data, j) then j
    else NalEnd(data, j + 1)
  }

  lemma {:induction false} NalEndIsFirst(data: Bytes, j: nat)
    requires j <= |data|
    ensures var end := NalEnd(data, j);
      (forall k :: j <= k < end && k + 3 < |data| ==> !CodeAt(data, k))
      && (end < |data| ==> end + 3 < |data| && CodeAt(data, end))
    decreases |data| - j
  {
    if j + 3 < |data| && !CodeAt(data, j) {
      NalEndIsFirst(data, j + 1);
    }
  }

  function Scan(data: Bytes, i: nat): (nals: seq<Nal>)
    requires i <= |data|
    ensures forall k :: 0 <= k < |nals| ==> i < nals[k].start < nals[k].end <= |data|
    decreases |data| - i
  {
    if i == |data| then []
    else
      var n := CodeLen(data, i);
      if n == 0 then Scan(data, i + 1)
      else
        var end := NalEnd(data, i + n);
        (if i + n < end then [Nal(i + n, end)] else []) + Scan(data, end)
  }

  method FindNalUnits(data: Bytes) returns (units: seq<Nal>)
    ensures units == Scan(data, 0)
  {
    units := [];
    var i := 0;
    while i < |data|
      invariant i <= |data| && units + Scan(data, i) == Scan(data, 0)
    {
      var n := CodeLen(data, i);
      if n == 0 {
        i := i + 1;
        continue;
      }
      var nalStart := i + n;
      var nalEnd := FindNalEnd(data, nalStart);
      Regroup(units, if nalStart < nalEnd then [Nal(nalStart, nalEnd)] else [], Scan(data, nalEnd));
      if nalStart < nalEnd {
        units := units + [Nal(nalStart, nalEnd)];
      }
      i := nalEnd;
    }
  }

  method FindNalEnd(data: Bytes, nalStart: nat) returns (nalEnd: nat)
    requires nalStart <= |data|
    ensures nalEnd == NalEnd(data, nalStart)
  {
    var j := nalStart;
    while j < |data| - 3
      invariant nalStart <= j <= |data| && NalEnd(data, j) == NalEnd(data, nalStart)
    {
      if CodeAt(data, j) {
        return j;
      }
      j := j + 1;
    }
    return |data|;
  }

  function Slices(data: Bytes, nals: seq<Nal>): (r: seq<Bytes>)
    requires forall k :: 0 <= k < |nals| ==> nals[k].start <= nals[k].end <= |data|
    ensures |r| == |nals| && forall k :: 0 <= k < |r| ==> r[k] == data[nals[k].start..nals[k].end]
  {
    if nals == [] then [] else [data[nals[0].start..nals[0].end]] + Slices(data, nals[1..])
  }

  /** The NAL units found from `i` on, as byte strings. */
  function UnitsFrom(data: Bytes, i: nat): (r: seq<Bytes>)
    requires i <= |data|
    ensures forall k :: 0 <= k < |r| ==> r[k] != []
  {
    Slices(data, Scan(data, i))
  }

  function Units(data: Bytes): (r: seq<Bytes>)
    ensures forall k :: 0 <= k < |r| ==> r[k] != []
  {
    UnitsFrom(data, 0)
  }

  lemma UnitsSkip(data: Bytes, i: nat)
    requires i < |data| && (CodeLen(data, i) == 0 || i + CodeLen(data, i) == NalEnd(data, i + CodeLen(data, i)))
    ensures UnitsFrom(data, i) == UnitsFrom(data, if CodeLen(data, i) == 0 then i + 1 else i + CodeLen(data, i))
  {
    if CodeLen(data, i) > 0 {
      var end := i + CodeLen(data, i);
      assert [] + Scan(data, end) == Scan(data, end);
    }
  }

  lemma UnitsCons(data: Bytes, i: nat, start: nat, end: nat)
    requires i < |data| && CodeLen(data, i) > 0 && start == i + CodeLen(data, i)
    requires end == NalEnd(data, start) && start < end
    ensures UnitsFrom(data, i) == [data[start..end]] + UnitsFrom(data, end)
  {
    assert Scan(data, i) == [Nal(start, end)] + Scan(data, end);
    SlicesCons(data, Nal(start, end), Scan(data, end));
  }

  function NalType(nal: Bytes): nat {
    if nal == [] then 0 else nal[0] % 32
  }

  /** Pion's payloader drops access unit delimiters and filler data. */
  predicate Dropped(nal: Bytes) {
    NalType(nal) == 9 || NalType(nal) == 12
  }

  function Kept(nals: seq<Bytes>): seq<Bytes> {
    if nals == [] then []
    else (if Dropped(nals[0]) then [] else [nals[0]]) + Kept(nals[1..])
  }

  /** A frame in the normal form: every NAL unit after a 4-byte start code. */
  function Frame(nals: seq<Bytes>): Bytes {
    if nals == [] then [] else START_CODE + nals[0] + Frame(nals[1..])
  }

  lemma FrameCons(nal: Bytes, rest: seq<Bytes>)
    ensures Frame([nal] + rest) == START_CODE + nal + Frame(rest)
  {
    assert ([nal] + rest)[1..] == rest;
  }

  lemma {:induction false} FrameAppend(xs: seq<Bytes>, ys: seq<Bytes>)
    ensures Frame(xs + ys) == Frame(xs) + Frame(ys)
    decreases |xs|
  {
    if xs == [] {
      assert xs + ys == ys;
    } else {
      assert (xs + ys)[1..] == xs[1..] + ys;
      FrameAppend(xs[1..], ys);
    }
  }

  lemma FrameOne(nal: Bytes)
    ensures Frame([nal]) == START_CODE + nal
  {
    FrameCons(nal, []);
    assert [nal] + [] == [nal];
  }

  function Normalize(data: Bytes): Bytes {
    if Units(data) == [] then data else Frame(Kept(Units(data)))
  }

  method NormalizeStartCodes(data: Bytes) returns (normalized: Bytes)
    ensures normalized == Normalize(data)
  {
    var units := FindNalUnits(data);
    if |units| == 0 {
      return data;
    }
    normalized := [];
    ghost var nals := Units(data);
    for k := 0 to |units|
      invariant normalized + Frame(Kept(nals[k..])) == Frame(Kept(nals))
    {
      var nal := data[units[k].start..units[k].end];
      assert nals[k..][0] == nal && nals[k..][1..] == nals[k + 1..];
      ghost var rest := Kept(nals[k + 1..]);
      if nal[0] % 32 == 9 || nal[0] % 32 == 12 {
        assert Kept(nals[k..]) == rest;
        continue;
      }
      FrameCons(nal, rest);
      Regroup(normalized, START_CODE + nal, Frame(rest));
      Regroup(normalized, START_CODE, nal);
      normalized := normalized + START_CODE + nal;
    }
  }

  // ---------- NAL units that survive a re-scan ----------

  /** No start code the inner search would see if `nal` came last. */
  predicate Open(nal: Bytes) {
    nal != [] && forall j :: 0 <= j < |nal| - 3 ==> !CodeAt(nal, j)
  }

  /** No 00 00 01 at `j`. */
  predicate NoCode(nal: Bytes, j: nat) {
    j + 2 < |nal| ==> !(nal[j] == 0 && nal[j + 1] == 0 && nal[j + 2] == 1)
  }

  /** No 00 00 01 anywhere. */
  predicate Closed(nal: Bytes) {
    nal != [] && forall j :: 0 <= j < |nal| ==> NoCode(nal, j)
  }

  /** All NAL units but the last are free of start codes; the last may end in 00 00 01. */
  predicate Sound(nals: seq<Bytes>) {
    nals == [] || (Open(nals[|nals| - 1]) && forall k :: 0 <= k < |nals| - 1 ==> Closed(nals[k]))
  }

  lemma ClosedIsOpen(nal: Bytes)
    requires Closed(nal)
    ensures Open(nal)
  {
    forall j | 0 <= j < |nal| - 3
      ensures !CodeAt(nal, j)
    {
      assert NoCode(nal, j) && NoCode(nal, j + 1);
    }
  }

  /** Each unit the scanner cuts ends at the first start code after its own. */
  lemma UnitShape(data: Bytes, start: nat)
    requires start <= |data| && start < NalEnd(data, start)
    ensures var end := NalEnd(data, start); var nal := data[start..end];
      if end < |data| then Closed(nal) else Open(nal)
  {
    var end := NalEnd(data, start);
    var nal := data[start..end];
    NalEndIsFirst(data, start);
    if end < |data| {
      forall j | 0 <= j < |nal|
        ensures NoCode(nal, j)
      {
        if j + 2 < |nal| {
          assert !CodeAt(data, start + j);
        }
      }
    } else {
      forall j | 0 <= j < |nal| - 3
        ensures !CodeAt(nal, j)
      {
        assert !CodeAt(data, start + j);
      }
    }
  }

  lemma {:induction false} ScanIsSound(data: Bytes, i: nat)
    requires i <= |data|
    ensures Sound(UnitsFrom(data, i))
    decreases |data| - i
  {
    if i < |data| {
      var n := CodeLen(data, i);
      if n == 0 {
        UnitsSkip(data, i);
        ScanIsSound(data, i + 1);
      } else {
        ScanIsSound(data, NalEnd(data, i + n));
        UnitIsSound(data, i, i + n, NalEnd(data, i + n));
      }
    }
  }

  lemma UnitIsSound(data: Bytes, i: nat, start: nat, end: nat)
    requires i < |data| && CodeLen(data, i) > 0 && start == i + CodeLen(data, i) && end == NalEnd(data, start)
    requires Sound(UnitsFrom(data, end))
    ensures Sound(UnitsFrom(data, i))
  {
    if start < end {
      UnitShape(data, start);
      UnitsCons(data, i, start, end);
      SoundCons(data[start..end], UnitsFrom(data, end));
    } else {
      UnitsSkip(data, i);
    }
  }

  lemma SlicesCons(data: Bytes, nal: Nal, rest: seq<Nal>)
    requires nal.start <= nal.end <= |data| && forall k :: 0 <= k < |rest| ==> rest[k].start <= rest[k].end <= |data|
    ensures forall k :: 0 <= k < |[nal] + rest| ==> ([nal] + rest)[k].start <= ([nal] + rest)[k].end <= |data|
    ensures Slices(data, [nal] + rest) == [data[nal.start..nal.end]] + Slices(data, rest)
  {
    assert ([nal] + rest)[1..] == rest;
  }

  lemma SoundCons(nal: Bytes, rest: seq<Bytes>)
    requires Sound(rest) && (if rest == [] then Open(nal) || Closed(nal) else Closed(nal))
    ensures Sound([nal] + rest)
  {
    if Closed(nal) {
      ClosedIsOpen(nal);
    }
  }

  lemma SoundTail(nals: seq<Bytes>)
    requires Sound(nals) && nals != []
    ensures Sound(nals[1..]) && (if nals[1..] == [] then Open(nals[0]) else Closed(nals[0]) && nals[1..][0] != [])
  {
    var rest := nals[1..];
    if rest != [] {
      assert rest[|rest| - 1] == nals[|nals| - 1];
      assert forall k :: 0 <= k < |rest| - 1 ==> rest[k] == nals[k + 1];
    }
  }

  lemma {:induction false} KeptIsSound(nals: seq<Bytes>)
    requires Sound(nals)
    ensures Sound(Kept(nals)) && Kept(Kept(nals)) == Kept(nals)
    decreases |nals|
  {
    if nals != [] {
      var rest := Kept(nals[1..]);
      SoundTail(nals);
      KeptIsSound(nals[1..]);
      if Dropped(nals[0]) {
        assert Kept(nals) == rest;
      } else {
        assert Kept(nals) == [nals[0]] + rest && ([nals[0]] + rest)[1..] == rest;
        if nals[1..] == [] {
          assert rest == [];
        }
        SoundCons(nals[0], rest);
      }
    }
  }

  // ---------- Where a unit ends ----------

  lemma OpenUnitEnd(data: Bytes, start: nat)
    requires start <= |data| && Open(data[start..])
    ensures NalEnd(data, start) == |data|
  {
    forall k | start <= k && k + 3 < |data|
      ensures !CodeAt(data, k)
    {
      assert !CodeAt(data[start..], k - start);
    }
    NalEndUnique(data, start, |data|);
  }

  lemma {:induction false} NalEndUnique(data: Bytes, start: nat, end: nat)
    requires start <= end <= |data|
    requires forall k :: start <= k < end && k + 3 < |data| ==> !CodeAt(data, k)
    requires end < |data| ==> end + 3 < |data| && CodeAt(data, end)
    ensures NalEnd(data, start) == end
    decreases |data| - start
  {
    if start + 3 < |data| && start < end {
      NalEndUnique(data, start + 1, end);
    }
  }

  lemma CodeOfStartCode(data: Bytes, i: nat)
    requires i + 4 <= |data| && data[i..i + 4] == START_CODE
    ensures CodeLen(data, i) == 4
    ensures i + 4 < |data| ==> CodeAt(data, i)
  {
    assert data[i] == START_CODE[0] && data[i + 1] == START_CODE[1];
    assert data[i + 2] == START_CODE[2] && data[i + 3] == START_CODE[3];
  }

  // ---------- Start codes of either length ----------

  /** A unit behind a start code of three or of four bytes. */
  datatype Coded = Coded(long: bool, nal: Bytes)

  function CodeOf(long: bool): Bytes {
    if long then [0, 0, 0, 1] else [0, 0, 1]
  }

  function Stream(units: seq<Coded>): Bytes {
    if units == [] then []
    else CodeOf(units[0].long) + units[0].nal + Stream(units[1..])
  }

  function Nals(units: seq<Coded>): seq<Bytes> {
    if units == [] then [] else [units[0].nal] + Nals(units[1..])
  }

  /** Units free of start codes, none ending in a zero that a following short code would take for its own. */
  predicate Separate(units: seq<Coded>) {
    units == [] || (Separate(units[1..]) &&
      if |units| == 1 then Open(units[0].nal)
      else Closed(units[0].nal) && (units[1].long || units[0].nal[|units[0].nal| - 1] != 0))
  }

  lemma CodeRead(data: Bytes, i: nat, long: bool)
    requires i + |CodeOf(long)| <= |data| && data[i..i + |CodeOf(long)|] == CodeOf(long)
    ensures CodeLen(data, i) == |CodeOf(long)| && (i + |CodeOf(long)| < |data| ==> CodeAt(data, i))
  {
    assert forall k :: 0 <= k < |CodeOf(long)| ==> data[i + k] == CodeOf(long)[k];
  }

  /** A closed unit ends where the next start code stands, whatever its length. */
  lemma CodedUnitEnd(data: Bytes, start: nat, nal: Bytes, long: bool)
    requires start + |nal| + |CodeOf(long)| < |data| && data[start..start + |nal|] == nal && Closed(nal)
    requires data[start + |nal|..start + |nal| + |CodeOf(long)|] == CodeOf(long)
    requires long || nal[|nal| - 1] != 0
    ensures NalEnd(data, start) == start + |nal|
  {
    var end := start + |nal|;
    CodeRead(data, end, long);
    assert forall k :: 0 <= k < |CodeOf(long)| ==> data[end + k] == CodeOf(long)[k];
    assert forall j :: 0 <= j < |nal| ==> data[start + j] == data[start..end][j];
    forall k | start <= k < end && k + 3 < |data|
      ensures !CodeAt(data, k)
    {
      assert NoCode(nal, k - start);
      if k + 1 < end {
        assert NoCode(nal, k + 1 - start);
      }
    }
    NalEndUnique(data, start, end);
  }

  lemma UnitBeforeCode(data: Bytes, start: nat, nal: Bytes, long: bool, tail: Bytes)
    requires start <= |data| && data[start..] == nal + CodeOf(long) + tail && tail != [] && Closed(nal)
    requires long || nal[|nal| - 1] != 0
    ensures NalEnd(data, start) == start + |nal|
  {
    CutThree(data, start, nal, CodeOf(long), tail);
    CodedUnitEnd(data, start, nal, long);
  }

  lemma StreamTail(nal: Bytes, rest: seq<Coded>) returns (tail: Bytes)
    requires rest != [] && rest[0].nal != []
    ensures tail != [] && nal + Stream(rest) == nal + CodeOf(rest[0].long) + tail
  {
    tail := rest[0].nal + Stream(rest[1..]);
    Regroup(CodeOf(rest[0].long), rest[0].nal, Stream(rest[1..]));
    Regroup(nal, CodeOf(rest[0].long), tail);
  }

  lemma SeparateHead(units: seq<Coded>)
    requires units != [] && Separate(units)
    ensures var nal, rest := units[0].nal, units[1..];
      if rest == [] then Open(nal) else Closed(nal) && rest[0].nal != [] && (rest[0].long || nal[|nal| - 1] != 0)
  {
  }

  lemma StreamUnitEnd(data: Bytes, start: nat, units: seq<Coded>)
    requires units != [] && start <= |data| && data[start..] == units[0].nal + Stream(units[1..]) && Separate(units)
    ensures NalEnd(data, start) == start + |units[0].nal|
  {
    var nal, rest := units[0].nal, units[1..];
    SeparateHead(units);
    if rest == [] {
      assert data[start..] == nal;
      OpenUnitEnd(data, start);
    } else {
      var tail := StreamTail(nal, rest);
      UnitBeforeCode(data, start, nal, rest[0].long, tail);
    }
  }

  lemma CodeCut(data: Bytes, i: nat, long: bool, tail: Bytes)
    requires i <= |data| && data[i..] == CodeOf(long) + tail && tail != []
    ensures var start := i + |CodeOf(long)|; start < |data| && data[start..] == tail && CodeLen(data, i) == |CodeOf(long)|
  {
    var code := CodeOf(long);
    CutThree(data, i, code, tail, []);
    CodeRead(data, i, long);
  }

  lemma UnitCut(data: Bytes, i: nat, start: nat, end: nat, nal: Bytes, rest: Bytes)
    requires i < start <= |data| && data[start..] == nal + rest && nal != [] && end == start + |nal|
    requires CodeLen(data, i) == start - i && NalEnd(data, start) == end
    ensures end <= |data| && data[end..] == rest && UnitsFrom(data, i) == [nal] + UnitsFrom(data, end)
  {
    CutThree(data, start, nal, rest, []);
    UnitsCons(data, i, start, end);
  }

  lemma StreamStep(data: Bytes, i: nat, units: seq<Coded>, rest: Bytes) returns (start: nat, end: nat)
    requires units != [] && Separate(units) && rest == Stream(units[1..])
    requires i <= |data| && data[i..] == CodeOf(units[0].long) + (units[0].nal + rest)
    ensures i < start < end <= |data| && data[start..] == units[0].nal + rest && end == start + |units[0].nal|
    ensures CodeLen(data, i) == start - i && NalEnd(data, start) == end
  {
    CodeCut(data, i, units[0].long, units[0].nal + rest);
    start := i + |CodeOf(units[0].long)|;
    StreamUnitEnd(data, start, units);
    end := start + |units[0].nal|;
  }

  lemma {:induction false} ScanStream(data: Bytes, i: nat, units: seq<Coded>)
    requires i <= |data| && data[i..] == Stream(units) && Separate(units)
    ensures UnitsFrom(data, i) == Nals(units)
    decreases |units|
  {
    if units == [] {
      assert i == |data|;
    } else {
      var rest := Stream(units[1..]);
      Regroup(CodeOf(units[0].long), units[0].nal, rest);
      var start, end := StreamStep(data, i, units, rest);
      UnitCut(data, i, start, end, units[0].nal, rest);
      ScanStream(data, end, units[1..]);
    }
  }

  function Long(nals: seq<Bytes>): seq<Coded> {
    if nals == [] then [] else [Coded(true, nals[0])] + Long(nals[1..])
  }

  lemma {:induction false} FrameIsStream(nals: seq<Bytes>)
    requires Sound(nals)
    ensures Stream(Long(nals)) == Frame(nals) && Nals(Long(nals)) == nals && Separate(Long(nals))
    decreases |nals|
  {
    if nals != [] {
      var rest := Long(nals[1..]);
      SoundTail(nals);
      FrameIsStream(nals[1..]);
      assert Long(nals)[1..] == rest && (nals[1..] == [] <==> rest == []);
    }
  }

  /** Sound NAL units survive being framed and scanned again. */
  lemma UnitsOfFrame(nals: seq<Bytes>)
    requires Sound(nals)
    ensures Units(Frame(nals)) == nals
  {
    FrameIsStream(nals);
    assert Frame(nals)[0..] == Frame(nals);
    ScanStream(Frame(nals), 0, Long(nals));
  }

  /** Re-scanning a normalized frame finds the input's NAL units, types 9 and 12 aside. */
  lemma NormalizeKeepsUnits(data: Bytes)
    requires Units(data) != []
    ensures Units(Normalize(data)) == Kept(Units(data))
  {
    ScanIsSound(data, 0);
    KeptIsSound(Units(data));
    UnitsOfFrame(Kept(Units(data)));
  }

  // ---------- What normalization keeps ----------

  /** Neither an access unit delimiter (type 9) nor filler data (type 12). */
  predicate Carried(nal: Bytes) {
    nal != [] && nal[0] % 32 != 9 && nal[0] % 32 != 12
  }

  function CarriedCount(nals: seq<Bytes>): nat {
    if nals == [] then 0 else (if Carried(nals[0]) then 1 else 0) + CarriedCount(nals[1..])
  }

  /** `kept` are the carried ones of `nals`, in order: each stands behind those that were carried before it. */
  ghost predicate AreCarried(kept: seq<Bytes>, nals: seq<Bytes>) {
    |kept| == CarriedCount(nals) && forall i: nat :: i < |nals| && Carried(nals[i]) ==> CarriedTo(kept, nals, i)
  }

  ghost predicate CarriedTo(kept: seq<Bytes>, nals: seq<Bytes>, i: nat)
    requires i < |nals|
  {
    CarriedCount(nals[..i]) < |kept| && kept[CarriedCount(nals[..i])] == nals[i]
  }

  lemma CarriedNext(first: Bytes, rest: seq<Bytes>, kept: seq<Bytes>, i: nat)
    requires first != [] && i <= |rest| && Carried(([first] + rest)[i]) && (i > 0 ==> CarriedTo(kept, rest, i - 1))
    ensures CarriedTo((if Carried(first) then [first] else []) + kept, [first] + rest, i)
  {
    if i > 0 {
      assert ([first] + rest)[..i] == [first] + rest[..i - 1];
      assert ([first] + rest[..i - 1])[1..] == rest[..i - 1];
    }
  }

  lemma {:induction false} KeptAreCarried(nals: seq<Bytes>)
    requires forall k :: 0 <= k < |nals| ==> nals[k] != []
    ensures AreCarried(Kept(nals), nals)
    decreases |nals|
  {
    if nals != [] {
      var rest := nals[1..];
      KeptAreCarried(rest);
      assert nals == [nals[0]] + rest;
      forall i: nat | i < |nals| && Carried(nals[i])
        ensures CarriedTo(Kept(nals), nals, i)
      {
        CarriedNext(nals[0], rest, Kept(rest), i);
      }
    }
  }

  /** The units of a normalized sample are those of the sample, in order, without types 9 and 12. */
  lemma NormalizedUnits(data: Bytes)
    requires Units(data) != []
    ensures AreCarried(Units(Normalize(data)), Units(data))
  {
    NormalizeKeepsUnits(data);
    KeptAreCarried(Units(data));
  }

  lemma {:induction false} KeptAll(nals: seq<Bytes>)
    requires forall k :: 0 <= k < |nals| ==> Carried(nals[k])
    ensures Kept(nals) == nals
    decreases |nals|
  {
    if nals != [] {
      KeptAll(nals[1..]);
    }
  }

  /**
   * What normalization is for: units behind start codes of either length come out behind start codes of four bytes,
   * in order, without types 9 and 12.
   */
  lemma NormalizesAnyCodes(units: seq<Coded>)
    requires units != [] && Separate(units)
    ensures Units(Stream(units)) == Nals(units)
    ensures AreCarried(Units(Normalize(Stream(units))), Nals(units))
    ensures Normalize(Stream(units)) == Frame(Units(Normalize(Stream(units))))
  {
    var data := Stream(units);
    assert data[0..] == data;
    ScanStream(data, 0, units);
    NormalizedUnits(data);
    NormalizeKeepsUnits(data);
  }

  /** A framed list of sound units without these types stays as it is. */
  lemma CleanFrameStays(nals: seq<Bytes>)
    requires nals != [] && Sound(nals) && forall k :: 0 <= k < |nals| ==> Carried(nals[k])
    ensures Normalize(Frame(nals)) == Frame(nals)
  {
    UnitsOfFrame(nals);
    KeptAll(nals);
  }

  lemma NormalizeIdempotent(data: Bytes)
    ensures Normalize(Normalize(data)) == Normalize(data)
  {
    if Units(data) != [] {
      NormalizeKeepsUnits(data);
      ScanIsSound(data, 0);
      KeptIsSound(Units(data));
    }
  }
}
