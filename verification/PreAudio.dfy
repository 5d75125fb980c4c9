/** Trimming the audio kept before a recording's first keyframe: trimPreAudioBuffer of recorder.go. */
module PreAudio {

  /** How much is kept from before the keyframe, and how long a pause counts as a restart of the publisher. */
  const PREROLL := 300
  const RESTART_GAP := 50

  function Gap(times: seq<int>, i: nat): int
    requires 0 < i < |times|
  {
    times[i] - times[i - 1]
  }

  /** The packets in front of `r` are too old, and the one at `r` is not. */
  predicate FirstRecent(times: seq<int>, now: int, r: nat) {
    r <= |times| && (forall i :: 0 <= i < r ==> times[i] < now - PREROLL) && (r < |times| ==> times[r] >= now - PREROLL)
  }

  /** No pause behind `r` is longer than the one in front of `k`, and none in front of that is as long. */
  predicate WidestAt(times: seq<int>, r: nat, k: nat) {
    r < k < |times| && forall i :: r < i < |times| ==> Gap(times, i) <= Gap(times, k) && (i < k ==> Gap(times, i) < Gap(times, k))
  }

  /** No pause behind `r` is long enough for a restart. */
  predicate Unbroken(times: seq<int>, r: nat) {
    forall i :: r < i < |times| ==> Gap(times, i) < RESTART_GAP
  }

  /** What is kept begins at `k`: at the first packet recent enough, or behind the longest pause, if it is that long. */
  predicate TrimmedAt(times: seq<int>, now: int, r: nat, k: nat) {
    FirstRecent(times, now, r)
    && if k == r then Unbroken(times, r) else WidestAt(times, r, k) && Gap(times, k) >= RESTART_GAP
  }

  method FindTrim(times: seq<int>, now: int) returns (k: nat, ghost r: nat)
    ensures k <= |times| && TrimmedAt(times, now, r, k)
  {
    k := 0;
    while k < |times| && times[k] < now - PREROLL
      invariant 0 <= k <= |times| && forall i :: 0 <= i < k ==> times[i] < now - PREROLL
    {
      k := k + 1;
    }
    r := k;
    var cut, widest := FindWidest(times, k);
    if cut > k && widest >= RESTART_GAP {
      k := cut;
    }
  }

  /** The longest pause behind `r`, and where it ends; `r` itself if there is none. */
  method FindWidest(times: seq<int>, r: nat) returns (cut: nat, widest: int)
    requires r <= |times|
    ensures if cut == r then widest == 0 && forall i :: r < i < |times| ==> Gap(times, i) <= 0
      else WidestAt(times, r, cut) && widest == Gap(times, cut) > 0
  {
    cut, widest := r, 0;
    var i := r + 1;
    while i < |times|
      invariant r < i && (i <= |times| || i == r + 1)
      invariant forall j :: r < j < i && j < |times| ==> Gap(times, j) <= widest
      invariant if cut == r then widest == 0
        else r < cut < i && cut < |times| && widest == Gap(times, cut) > 0 && forall j :: r < j < cut ==> Gap(times, j) < widest
    {
      if Gap(times, i) > widest {
        cut, widest := i, Gap(times, i);
      }
      i := i + 1;
    }
  }

  predicate Ordered(times: seq<int>) {
    forall i, j :: 0 <= i <= j < |times| ==> times[i] <= times[j]
  }

  /** While the clock does not go back, nothing older than 300 ms is kept. */
  lemma KeptIsRecent(times: seq<int>, now: int, r: nat, k: nat, i: nat)
    requires Ordered(times) && TrimmedAt(times, now, r, k) && k <= i < |times|
    ensures times[i] >= now - 300
  {
  }

  /** And everything that is no older is kept, if there is no pause of 50 ms or more in it. */
  lemma RecentIsKept(times: seq<int>, now: int, r: nat, k: nat, i: nat)
    requires Ordered(times) && TrimmedAt(times, now, r, k) && i < |times| && times[i] >= now - 300
    requires forall j :: 0 < j < |times| && times[j - 1] >= now - 300 ==> times[j] - times[j - 1] < 50
    ensures k <= i
  {
    assert r <= i && times[r] >= now - 300;
    assert Unbroken(times, r);
  }

  /** If there is one, longer than any other, what is kept begins behind it. */
  lemma KeptBehindPause(times: seq<int>, now: int, r: nat, k: nat, j: nat)
    requires Ordered(times) && TrimmedAt(times, now, r, k)
    requires 0 < j < |times| && times[j - 1] >= now - 300 && times[j] - times[j - 1] >= 50
    requires forall i :: 0 < i < |times| && i != j && times[i - 1] >= now - 300 ==>
        times[i] - times[i - 1] < times[j] - times[j - 1]
    ensures k == j
  {
    assert r <= j - 1;
    assert Gap(times, j) >= RESTART_GAP;
    if k != r {
      assert Gap(times, j) <= Gap(times, k) && times[r] <= times[k - 1];
    }
  }

  /**
   * What is kept comes from one publication, without a long pause in it, if and only if no pause behind the longest one
   * is long.
   */
  lemma KeptIsUnbrokenIff(times: seq<int>, now: int, r: nat, k: nat, w: nat)
    requires TrimmedAt(times, now, r, k) && WidestAt(times, r, w)
    ensures Unbroken(times, k) <==> Unbroken(times, w)
  {
    if k != r {
      assert k == w;
    } else {
      assert Unbroken(times, w);
    }
  }

  /** Two restarts within the preroll, the first pause longer: the packets between them stay. */
  lemma TwoRestartsStay()
    ensures TrimmedAt([0, 100, 160], 200, 0, 1) && !Unbroken([0, 100, 160], 1)
  {
    var times := [0, 100, 160];
    assert Gap(times, 1) == 100 && Gap(times, 2) == 60;
  }
}
