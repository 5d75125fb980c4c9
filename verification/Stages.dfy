/** The pipeline's stage list, kept in order by a bubble sort (media_pipeline.go). */
module Stages {
  import opened Lists

  /** A stage object; `id` tells it from others with the same name and priority. */
  datatype Stage = Stage(id: nat, name: string, priority: int)

  // ---------- Stable sorting ----------

  function With(p: int): Stage -> bool {
    (s: Stage) => s.priority == p
  }

  function Named(name: string): Stage -> bool {
    (s: Stage) => s.name != name
  }

  predicate Sorted(s: seq<Stage>) {
    forall i, j :: 0 <= i < j < |s| ==> s[i].priority <= s[j].priority
  }

  /** The same stages, and those of each priority in the same order. */
  ghost predicate SameOrder(a: seq<Stage>, b: seq<Stage>) {
    forall p :: Select(a, With(p)) == Select(b, With(p))
  }

  ghost predicate StableSort(r: seq<Stage>, s: seq<Stage>) {
    Sorted(r) && SameOrder(r, s)
  }

  /** A list has only one stable sort. */
  lemma {:induction false} StableSortIsUnique(a: seq<Stage>, b: seq<Stage>, s: seq<Stage>)
    requires StableSort(a, s) && StableSort(b, s)
    ensures a == b
  {
    Unique(a, b);
  }

  lemma NonEmpty(s: seq<Stage>)
    ensures s != [] ==> Select(s, With(s[0].priority)) != []
  {
  }

  lemma SelectTail(s: seq<Stage>, p: int)
    requires s != []
    ensures var head := if s[0].priority == p then 1 else 0;
      head <= |Select(s, With(p))| && Select(s[1..], With(p)) == Select(s, With(p))[head..]
  {
  }

  lemma TailsSameOrder(a: seq<Stage>, b: seq<Stage>)
    requires a != [] && b != [] && a[0] == b[0] && SameOrder(a, b)
    ensures SameOrder(a[1..], b[1..])
  {
    forall p
      ensures Select(a[1..], With(p)) == Select(b[1..], With(p))
    {
      assert Select(a, With(p)) == Select(b, With(p));
      SelectTail(a, p);
      SelectTail(b, p);
    }
  }

  lemma EmptyTogether(a: seq<Stage>, b: seq<Stage>)
    requires SameOrder(a, b)
    ensures a == [] <==> b == []
  {
    NonEmpty(a);
    NonEmpty(b);
  }

  lemma SortedTail(a: seq<Stage>)
    requires Sorted(a) && a != []
    ensures Sorted(a[1..])
  {
  }

  lemma {:induction false} Unique(a: seq<Stage>, b: seq<Stage>)
    requires Sorted(a) && Sorted(b) && SameOrder(a, b)
    ensures a == b
  {
    EmptyTogether(a, b);
    if a != [] {
      SameFirst(a, b);
      TailsSameOrder(a, b);
      SortedTail(a);
      SortedTail(b);
      Unique(a[1..], b[1..]);
      assert a == [a[0]] + a[1..] && b == [b[0]] + b[1..];
    }
  }

  lemma SameFirst(a: seq<Stage>, b: seq<Stage>)
    requires Sorted(a) && Sorted(b) && SameOrder(a, b) && a != [] && b != []
    ensures a[0] == b[0]
  {
    var p, q := a[0].priority, b[0].priority;
    assert a[0] in Select(a, With(p)) && Select(a, With(p)) == Select(b, With(p));
    assert b[0] in Select(b, With(q)) && Select(a, With(q)) == Select(b, With(q));
    assert p == q;
    assert Select(a, With(p))[0] == a[0] && Select(b, With(p))[0] == b[0];
  }

  lemma SelectPair(x: Stage, y: Stage, p: int)
    requires x.priority != y.priority
    ensures Select([x, y], With(p)) == Select([y, x], With(p))
  {
    assert [x, y][1..] == [y] && [y, x][1..] == [x] && [x][1..] == [] && [y][1..] == [];
  }

  lemma SelectThree(a: seq<Stage>, m: seq<Stage>, b: seq<Stage>, p: int)
    ensures Select(a + m + b, With(p)) == Select(a, With(p)) + Select(m, With(p)) + Select(b, With(p))
  {
    SelectAppend(a + m, b, With(p));
    SelectAppend(a, m, With(p));
  }

  /** Swapping neighbours of different priority moves no stage past another of its own priority. */
  lemma SwapKeepsOrder(s: seq<Stage>, j: nat)
    requires j + 1 < |s| && s[j].priority != s[j + 1].priority
    ensures SameOrder(s[j := s[j + 1]][j + 1 := s[j]], s)
  {
    var x, y := s[j], s[j + 1];
    var front, back := s[..j], s[j + 2..];
    var r := s[j := y][j + 1 := x];
    assert s == front + [x, y] + back && r == front + [y, x] + back;
    forall p
      ensures Select(r, With(p)) == Select(s, With(p))
    {
      SelectThree(front, [x, y], back, p);
      SelectThree(front, [y, x], back, p);
      SelectPair(x, y, p);
    }
  }

  lemma {:induction false} SelectSorted(s: seq<Stage>, keep: Stage -> bool)
    requires Sorted(s)
    ensures Sorted(Select(s, keep))
  {
    if s != [] {
      var rest := Select(s[1..], keep);
      SelectSorted(s[1..], keep);
      forall k | 0 <= k < |rest|
        ensures s[0].priority <= rest[k].priority
      {
        assert rest[k] in s[1..];
      }
    }
  }

  /** Removing by name commutes with stable sorting. */
  lemma RemovalKeepsStableSort(r: seq<Stage>, s: seq<Stage>, name: string)
    requires StableSort(r, s)
    ensures StableSort(Select(r, Named(name)), Select(s, Named(name)))
  {
    SelectSorted(r, Named(name));
    forall p
      ensures Select(Select(r, Named(name)), With(p)) == Select(Select(s, Named(name)), With(p))
    {
      SelectsCommute(r, Named(name), With(p));
      SelectsCommute(s, Named(name), With(p));
      assert Select(r, With(p)) == Select(s, With(p));
    }
  }

  lemma AppendKeepsOrder(r: seq<Stage>, s: seq<Stage>, x: Stage)
    requires SameOrder(r, s)
    ensures SameOrder(r + [x], s + [x])
  {
    forall p
      ensures Select(r + [x], With(p)) == Select(s + [x], With(p))
    {
      SelectAppend(r, [x], With(p));
      SelectAppend(s, [x], With(p));
      assert Select(r, With(p)) == Select(s, With(p));
    }
  }

  // ---------- The list the source sorts in place ----------

  /** The last `i` stages are in place: sorted, and nothing before them belongs after any of them. */
  predicate TailDone(s: seq<Stage>, i: nat)
    requires i <= |s|
  {
    forall a, b :: 0 <= a < b < |s| && |s| - i <= b ==> s[a].priority <= s[b].priority
  }

  predicate LargestAt(s: seq<Stage>, j: nat)
    requires j < |s|
  {
    forall a :: 0 <= a < j ==> s[a].priority <= s[j].priority
  }

  lemma SwapKeepsTail(s: seq<Stage>, i: nat, j: nat)
    requires j + 1 < |s| - i && i <= |s| && TailDone(s, i) && LargestAt(s, j) && s[j].priority > s[j + 1].priority
    ensures var r := s[j := s[j + 1]][j + 1 := s[j]]; TailDone(r, i) && LargestAt(r, j + 1)
  {
  }

  lemma SameOrderOn(a: seq<Stage>, b: seq<Stage>, c: seq<Stage>)
    requires SameOrder(a, b) && SameOrder(b, c)
    ensures SameOrder(a, c)
  {
    forall p
      ensures Select(a, With(p)) == Select(c, With(p))
    {
      assert Select(a, With(p)) == Select(b, With(p)) && Select(b, With(p)) == Select(c, With(p));
    }
  }

  class Pipeline {
    var stages: seq<Stage>
    /** The stages added and not removed, in the order they were added. */
    ghost var added: seq<Stage>

    ghost predicate Valid()
      reads this
    {
      StableSort(stages, added)
    }

    constructor ()
      ensures Valid() && added == []
    {
      stages, added := [], [];
    }

    method SortStages()
      modifies `stages
      ensures StableSort(stages, old(stages))
    {
      var i := 0;
      while i < |stages| - 1
        invariant 0 <= i <= |stages| == |old(stages)| && (i < |stages| || i == 0)
        invariant TailDone(stages, i)
        invariant SameOrder(stages, old(stages))
      {
        BubbleUp(i);
        i := i + 1;
      }
    }

    /** The inner loop carries the largest of the first `n - i` stages to their end. */
    method BubbleUp(i: nat)
      requires i < |stages| - 1 && TailDone(stages, i)
      modifies `stages
      ensures |stages| == |old(stages)| && TailDone(stages, i + 1) && SameOrder(stages, old(stages))
    {
      var n := |stages|;
      var j := 0;
      while j < n - i - 1
        invariant 0 <= j <= n - i - 1 && n == |stages|
        invariant TailDone(stages, i) && LargestAt(stages, j)
        invariant SameOrder(stages, old(stages))
      {
        if stages[j].priority > stages[j + 1].priority {
          ghost var before := stages;
          stages := stages[j := stages[j + 1]][j + 1 := stages[j]];
          SwapKeepsOrder(before, j);
          SwapKeepsTail(before, i, j);
          SameOrderOn(stages, before, old(stages));
        }
        j := j + 1;
      }
    }

    method AddStage(stage: Stage)
      requires Valid()
      modifies this
      ensures Valid() && added == old(added) + [stage]
    {
      AppendKeepsOrder(stages, added, stage);
      stages, added := stages + [stage], added + [stage];
      SortStages();
    }

    method RemoveStage(name: string)
      requires Valid()
      modifies this
      ensures Valid() && added == Select(old(added), Named(name))
    {
      var list, filtered := stages, [];
      RemovalKeepsStableSort(list, added, name);
      ghost var goal := Select(added, Named(name));
      for i := 0 to |list|
        invariant filtered == Select(list[..i], Named(name))
      {
        SelectNext(list, i, Named(name));
        if list[i].name != name {
          filtered := filtered + [list[i]];
        }
      }
      assert list[..|list|] == list;
      stages, added := filtered, goal;
    }
  }

  // ---------- Any sequence of additions and removals ----------

  datatype Change = Add(stage: Stage) | Remove(name: string)

  function Survivors(changes: seq<Change>): seq<Stage> {
    if changes == [] then []
    else
      var before := Survivors(changes[..|changes| - 1]);
      match changes[|changes| - 1]
      case Add(stage) => before + [stage]
      case Remove(name) => Select(before, Named(name))
  }

  /** A stage that was added and whose name has not been removed since. */
  predicate Lasts(changes: seq<Change>, i: nat)
    requires i < |changes|
  {
    changes[i].Add? && forall j :: i < j < |changes| ==> changes[j] != Remove(changes[i].stage.name)
  }

  function Lasted(changes: seq<Change>, i: nat): seq<Stage>
    requires i < |changes|
  {
    if Lasts(changes, i) then [changes[i].stage] else []
  }

  /** Those among the first `n` changes, in order. */
  function Lasting(changes: seq<Change>, n: nat): seq<Stage>
    requires n <= |changes|
  {
    if n == 0 then [] else Lasting(changes, n - 1) + Lasted(changes, n - 1)
  }

  /** What one more change leaves of a list. */
  function Left(list: seq<Stage>, last: Change): seq<Stage> {
    match last
    case Add(_) => list
    case Remove(name) => Select(list, Named(name))
  }

  lemma LeftAppend(a: seq<Stage>, b: seq<Stage>, last: Change)
    ensures Left(a + b, last) == Left(a, last) + Left(b, last)
  {
    if last.Remove? {
      SelectAppend(a, b, Named(last.name));
    }
  }

  lemma LastedStep(changes: seq<Change>, i: nat)
    requires i < |changes| - 1
    ensures Lasted(changes, i) == Left(Lasted(changes[..|changes| - 1], i), changes[|changes| - 1])
  {
    var front, last := changes[..|changes| - 1], changes[|changes| - 1];
    assert forall j :: 0 <= j < |front| ==> front[j] == changes[j];
    assert Lasts(changes, i) == (Lasts(front, i) && last != Remove(changes[i].stage.name));
    if Lasts(front, i) && last.Remove? {
      SelectOne(changes[i].stage, Named(last.name));
    }
  }

  lemma {:induction false} LastingStep(changes: seq<Change>, n: nat)
    requires n < |changes|
    ensures Lasting(changes, n) == Left(Lasting(changes[..|changes| - 1], n), changes[|changes| - 1])
  {
    var front, last := changes[..|changes| - 1], changes[|changes| - 1];
    if n > 0 {
      LastingStep(changes, n - 1);
      LastedStep(changes, n - 1);
      LeftAppend(Lasting(front, n - 1), Lasted(front, n - 1), last);
      assert Lasting(front, n) == Lasting(front, n - 1) + Lasted(front, n - 1);
    }
  }

  /** What survives a sequence of changes: every stage added that was not removed by name later, in order. */
  lemma {:induction false} SurvivorsLast(changes: seq<Change>)
    ensures Survivors(changes) == Lasting(changes, |changes|)
    decreases |changes|
  {
    if changes != [] {
      var n := |changes| - 1;
      SurvivorsLast(changes[..n]);
      LastingStep(changes, n);
    }
  }

  method Apply(changes: seq<Change>) returns (p: Pipeline)
    ensures fresh(p) && StableSort(p.stages, Survivors(changes))
    ensures forall i, j :: 0 <= i < j < |p.stages| ==> p.stages[i].priority <= p.stages[j].priority
  {
    p := new Pipeline();
    for i := 0 to |changes|
      invariant p.Valid() && p.added == Survivors(changes[..i])
    {
      assert changes[..i + 1][..i] == changes[..i];
      match changes[i]
      case Add(stage) => p.AddStage(stage);
      case Remove(name) => p.RemoveStage(name);
    }
    assert changes[..|changes|] == changes;
  }
}
