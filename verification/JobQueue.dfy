/** The priority queue of pending jobs: a binary heap with back-indices that refines a sorted list (job_queue.go). */
module JobQueue {

  /** What a queued item never changes. Higher priorities come first, then earlier times. */
  datatype Entry = Entry(id: string, priority: int, time: int)

  predicate Before(a: Entry, b: Entry) {
    if a.priority != b.priority then a.priority > b.priority else a.time < b.time
  }

  // ---------- The sorted list ----------

  predicate Sorted(line: seq<Entry>) {
    forall i, j :: 0 <= i < j < |line| ==> !Before(line[j], line[i])
  }

  /** Sorted and without ties, as when every job is enqueued later than the ones it finds waiting. */
  predicate Strict(line: seq<Entry>) {
    forall i, j :: 0 <= i < j < |line| ==> Before(line[i], line[j])
  }

  /** Behind everything that is not after it. */
  function Insert(line: seq<Entry>, e: Entry): (r: seq<Entry>)
    ensures |r| == |line| + 1
  {
    if line == [] then [e]
    else if Before(e, line[0]) then [e] + line
    else [line[0]] + Insert(line[1..], e)
  }

  /** Without the first occurrence of `e`. */
  function Without(line: seq<Entry>, e: Entry): (r: seq<Entry>)
    requires e in line
    ensures |r| == |line| - 1
  {
    if line[0] == e then line[1..] else [line[0]] + Without(line[1..], e)
  }

  lemma {:induction false} InsertContents(line: seq<Entry>, e: Entry)
    ensures multiset(Insert(line, e)) == multiset(line) + multiset{e}
  {
    if line != [] {
      assert line == [line[0]] + line[1..];
      InsertContents(line[1..], e);
    }
  }

  lemma {:induction false} InsertSorted(line: seq<Entry>, e: Entry)
    requires Sorted(line)
    ensures Sorted(Insert(line, e))
  {
    if line != [] && !Before(e, line[0]) {
      var rest := Insert(line[1..], e);
      InsertSorted(line[1..], e);
      forall j | 0 <= j < |rest|
        ensures !Before(rest[j], line[0])
      {
        InsertContents(line[1..], e);
        assert rest[j] in multiset(rest);
        assert rest[j] == e || rest[j] in line[1..];
      }
    }
  }

  lemma {:induction false} WithoutContents(line: seq<Entry>, e: Entry)
    requires e in line
    ensures multiset(Without(line, e)) == multiset(line) - multiset{e}
  {
    assert line == [line[0]] + line[1..];
    if line[0] != e {
      WithoutContents(line[1..], e);
    }
  }

  lemma {:induction false} WithoutSorted(line: seq<Entry>, e: Entry)
    requires e in line && Sorted(line)
    ensures Sorted(Without(line, e))
  {
    if line[0] != e {
      var rest := Without(line[1..], e);
      WithoutSorted(line[1..], e);
      forall j | 0 <= j < |rest|
        ensures !Before(rest[j], line[0])
      {
        WithoutContents(line[1..], e);
        assert rest[j] in multiset(rest);
        assert rest[j] in line[1..];
      }
    }
  }

  /** Without ties the head is the only entry that nothing comes before. */
  lemma HeadIsBest(line: seq<Entry>, e: Entry)
    requires Strict(line) && e in line && forall f :: f in line ==> !Before(f, e)
    ensures line[0] == e && Without(line, e) == line[1..]
  {
    var i :| 0 <= i < |line| && line[i] == e;
    assert !Before(line[0], e);
  }

  predicate Latest(line: seq<Entry>, e: Entry) {
    forall f :: f in line ==> f.time < e.time
  }

  /** Enqueueing later than everything waiting creates no tie. */
  lemma {:induction false} LatestTiesWithNone(line: seq<Entry>, e: Entry)
    requires Strict(line) && Latest(line, e)
    ensures Strict(Insert(line, e))
  {
    if line != [] && !Before(e, line[0]) {
      var rest := Insert(line[1..], e);
      LatestTiesWithNone(line[1..], e);
      InsertContents(line[1..], e);
      assert line[0] in line;
      forall j | 0 <= j < |rest|
        ensures Before(line[0], rest[j])
      {
        assert rest[j] in multiset(rest);
        assert rest[j] == e || rest[j] in line[1..];
      }
    }
  }

  lemma {:induction false} WithoutTies(line: seq<Entry>, e: Entry)
    requires Strict(line) && e in line
    ensures Strict(Without(line, e))
  {
    if line[0] != e {
      var rest := Without(line[1..], e);
      WithoutTies(line[1..], e);
      WithoutContents(line[1..], e);
      forall j | 0 <= j < |rest|
        ensures Before(line[0], rest[j])
      {
        assert rest[j] in multiset(rest);
        assert rest[j] in line[1..];
      }
    }
  }

  lemma SameHead(a: seq<Entry>, b: seq<Entry>)
    requires a != [] && b != [] && Strict(a) && Strict(b) && a[0] in b && b[0] in a
    ensures a[0] == b[0]
  {
    var i :| 0 <= i < |b| && b[i] == a[0];
    var j :| 0 <= j < |a| && a[j] == b[0];
  }

  /** However it was built up, what is waiting leaves in one order. */
  lemma {:induction false} OrderIsDetermined(a: seq<Entry>, b: seq<Entry>)
    requires Strict(a) && Strict(b) && multiset(a) == multiset(b)
    ensures a == b
  {
    assert |a| == |multiset(a)| == |multiset(b)| == |b|;
    if a != [] {
      assert a[0] in multiset(b) && b[0] in multiset(a);
      SameHead(a, b);
      assert a == [a[0]] + a[1..] && b == [b[0]] + b[1..];
      assert multiset(a[1..]) == multiset(a) - multiset{a[0]};
      assert multiset(b[1..]) == multiset(b) - multiset{b[0]};
      OrderIsDetermined(a[1..], b[1..]);
    }
  }

  /** Higher priorities leave first, and jobs of one priority in the order they came. */
  lemma FirstInFirstOut(line: seq<Entry>, i: nat, j: nat)
    requires Strict(line) && i < |line| && j < |line|
    ensures i < j <==> (line[i].priority > line[j].priority
                        || (line[i].priority == line[j].priority && line[i].time < line[j].time))
  {
    assert i < j ==> Before(line[i], line[j]);
    assert j < i ==> Before(line[j], line[i]);
  }

  // ---------- Heaps ----------

  function Parent(k: nat): nat
    requires k > 0
  {
    (k - 1) / 2
  }

  predicate InOrder(s: seq<Entry>, k: nat)
    requires 0 < k < |s|
  {
    !Before(s[k], s[Parent(k)])
  }

  predicate Heap(s: seq<Entry>, n: nat)
    requires n <= |s|
  {
    forall k {:trigger InOrder(s, k)} :: 0 < k < n ==> InOrder(s, k)
  }

  /** In order except around position `i`, whose children still respect its parent. */
  predicate HeapBut(s: seq<Entry>, n: nat, i: nat)
    requires n <= |s|
  {
    (forall k {:trigger InOrder(s, k)} :: 0 < k < n && k != i && Parent(k) != i ==> InOrder(s, k))
    && (0 < i < |s| ==> forall k {:trigger s[k]} :: 0 < k < n && Parent(k) == i ==> !Before(s[k], s[Parent(i)]))
  }

  /** The children of `i` are in order with it. */
  predicate BelowFits(s: seq<Entry>, n: nat, i: nat)
    requires n <= |s|
  {
    forall k {:trigger InOrder(s, k)} :: 0 < k < n && Parent(k) == i ==> InOrder(s, k)
  }

  predicate AboveFits(s: seq<Entry>, n: nat, i: nat)
    requires n <= |s|
  {
    0 < i < n ==> InOrder(s, i)
  }

  function Exchanged(s: seq<Entry>, i: nat, j: nat): (r: seq<Entry>)
    requires i < |s| && j < |s|
    ensures |r| == |s|
  {
    s[i := s[j]][j := s[i]]
  }

  lemma {:induction false} RootIsBest(s: seq<Entry>, n: nat, k: nat)
    requires n <= |s| && Heap(s, n) && k < n
    ensures !Before(s[k], s[0])
  {
    if k > 0 {
      assert InOrder(s, k);
      RootIsBest(s, n, Parent(k));
    }
  }

  /** One step up keeps the heap in order but around the new position. */
  lemma StepUp(s: seq<Entry>, n: nat, j: nat)
    requires 0 < j < n <= |s| && HeapBut(s, n, j) && BelowFits(s, n, j) && Before(s[j], s[Parent(j)])
    ensures var r := Exchanged(s, Parent(j), j); HeapBut(r, n, Parent(j)) && BelowFits(r, n, Parent(j))
  {
    var p := Parent(j);
    var r := Exchanged(s, p, j);
    forall k | 0 < k < n
      ensures k != p && Parent(k) != p ==> InOrder(r, k)
      ensures Parent(k) == p ==> InOrder(r, k)
      ensures Parent(k) == p && p > 0 ==> !Before(r[k], r[Parent(p)])
    {
      if k != p && k != j {
        assert Parent(k) != j ==> InOrder(s, k);
      }
      if p > 0 {
        assert InOrder(s, p);
      }
    }
  }

  predicate BestChild(s: seq<Entry>, n: nat, i: nat, j: nat)
    requires j < n <= |s|
  {
    forall k {:trigger s[k]} :: 0 < k < n && Parent(k) == i ==> !Before(s[k], s[j])
  }

  lemma FitsBelowBest(s: seq<Entry>, n: nat, i: nat, j: nat)
    requires i < j < n <= |s| && BestChild(s, n, i, j) && !Before(s[j], s[i])
    ensures BelowFits(s, n, i)
  {
  }

  /** One step down, to the better child. */
  lemma StepDown(s: seq<Entry>, n: nat, i: nat, j: nat)
    requires i < j < n <= |s| && Parent(j) == i && HeapBut(s, n, i) && Before(s[j], s[i])
    requires BestChild(s, n, i, j)
    ensures var r := Exchanged(s, i, j); HeapBut(r, n, j) && AboveFits(r, n, j) && AboveFits(r, n, i)
  {
    var r := Exchanged(s, i, j);
    forall k | 0 < k < n
      ensures k != j && Parent(k) != j ==> InOrder(r, k)
      ensures Parent(k) == j ==> !Before(r[k], r[Parent(j)])
    {
      if Parent(k) == j {
        assert InOrder(s, k);
      }
      if k != i && Parent(k) != i && Parent(k) != j {
        assert InOrder(s, k);
      }
    }
  }

  lemma HeapFromParts(s: seq<Entry>, n: nat, i: nat)
    requires n <= |s| && HeapBut(s, n, i) && BelowFits(s, n, i) && AboveFits(s, n, i)
    ensures Heap(s, n)
  {
  }

  // ---------- The queue the source updates in place ----------

  class Item {
    const entry: Entry
    var index: int

    constructor (entry: Entry)
      ensures this.entry == entry
    {
      this.entry := entry;
      index := 0;
    }
  }

  function Entries(items: seq<Item>): (r: seq<Entry>)
    ensures |r| == |items|
  {
    seq(|items|, i requires 0 <= i < |items| => items[i].entry)
  }

  predicate Indexed(items: seq<Item>)
    reads items
  {
    forall i :: 0 <= i < |items| ==> items[i].index == i
  }

  lemma ExchangeContents(s: seq<Entry>, i: nat, j: nat)
    requires i < |s| && j < |s|
    ensures multiset(Exchanged(s, i, j)) == multiset(s)
  {
  }

  /** Item `i` is the first with this identifier. */
  predicate IsFirst(items: seq<Item>, id: string, i: nat)
    requires i < |items|
  {
    items[i].entry.id == id && forall k :: 0 <= k < i ==> items[k].entry.id != id
  }

  predicate Within(items: seq<Item>, all: seq<Item>) {
    forall k :: 0 <= k < |items| ==> items[k] in all
  }

  class Queue {
    var items: seq<Item>
    const maxSize: int
    var closed: bool
    /** The sorted list this queue stands for. */
    ghost var line: seq<Entry>

    ghost predicate Valid()
      reads this, items
    {
      Indexed(items) && Heap(Entries(items), |items|)
      && Sorted(line) && multiset(line) == multiset(Entries(items))
      && (maxSize > 0 ==> |items| <= maxSize)
    }

    constructor (maxSize: int)
      ensures Valid() && line == [] && !closed && this.maxSize == maxSize
    {
      items, closed, line := [], false, [];
      this.maxSize := maxSize;
    }

    method Swap(i: nat, j: nat)
      requires i < |items| && j < |items| && Indexed(items)
      modifies `items, items[i], items[j]
      ensures items == old(items)[i := old(items[j])][j := old(items[i])] && Indexed(items)
      ensures Entries(items) == Exchanged(old(Entries(items)), i, j)
      ensures multiset(Entries(items)) == old(multiset(Entries(items)))
    {
      ExchangeContents(Entries(items), i, j);
      ghost var before := Entries(items);
      items := items[i := items[j]][j := items[i]];
      items[i].index := i;
      items[j].index := j;
      assert Entries(items) == Exchanged(before, i, j);
    }

    /** container/heap's `up`: from `j0` towards the root, among the first `n` items. */
    method Up(j0: nat, ghost n: nat)
      requires j0 < n <= |items| && Indexed(items)
      requires HeapBut(Entries(items), n, j0) && BelowFits(Entries(items), n, j0)
      modifies `items, items
      ensures |items| == old(|items|) && Indexed(items) && Heap(Entries(items), n)
      ensures Within(items, old(items)) && items[n..] == old(items[n..])
      ensures multiset(Entries(items)) == old(multiset(Entries(items)))
    {
      var j: nat := j0;
      while j > 0 && Before(items[j].entry, items[Parent(j)].entry)
        invariant j < n <= |items| == |old(items)| && Indexed(items)
        invariant HeapBut(Entries(items), n, j) && BelowFits(Entries(items), n, j)
        invariant Within(items, old(items)) && items[n..] == old(items[n..])
        invariant multiset(Entries(items)) == old(multiset(Entries(items)))
      {
        StepUp(Entries(items), n, j);
        Swap(Parent(j), j);
        j := Parent(j);
      }
      HeapFromParts(Entries(items), n, j);
    }

    method BetterChild(i: nat, n: nat) returns (j: nat)
      requires 2 * i + 1 < n <= |items|
      ensures i < j < n && Parent(j) == i && BestChild(Entries(items), n, i, j)
    {
      j := 2 * i + 1;
      if j + 1 < n && Before(items[j + 1].entry, items[j].entry) {
        j := j + 1;
      }
    }

    /** container/heap's `down`: from `i0` to the leaves of the first `n` items; tells whether anything moved. */
    method Down(i0: nat, n: nat) returns (moved: bool)
      requires i0 <= n <= |items| && Indexed(items)
      requires HeapBut(Entries(items), n, i0)
      modifies `items, items
      ensures |items| == old(|items|) && Indexed(items)
      ensures moved ==> Heap(Entries(items), n)
      ensures !moved ==> items == old(items) && BelowFits(Entries(items), n, i0)
      ensures Within(items, old(items)) && items[n..] == old(items[n..])
      ensures multiset(Entries(items)) == old(multiset(Entries(items)))
    {
      var i: nat := i0;
      while true
        invariant i0 <= i <= n <= |items| == |old(items)| && Indexed(items)
        invariant HeapBut(Entries(items), n, i)
        invariant if i == i0 then items == old(items) else AboveFits(Entries(items), n, i)
        invariant Within(items, old(items)) && items[n..] == old(items[n..])
        invariant multiset(Entries(items)) == old(multiset(Entries(items)))
        decreases n - i
      {
        if 2 * i + 1 >= n {
          break;
        }
        var j := BetterChild(i, n);
        if !Before(items[j].entry, items[i].entry) {
          FitsBelowBest(Entries(items), n, i, j);
          break;
        }
        StepDown(Entries(items), n, i, j);
        Swap(i, j);
        i := j;
      }
      assert BelowFits(Entries(items), n, i);
      moved := i > i0;
      if moved {
        HeapFromParts(Entries(items), n, i);
      }
    }

    /** The heap interface's `Pop`: takes the last item off the slice. */
    method Pop() returns (item: Item)
      requires items != [] && Indexed(items)
      modifies `items, items[|items| - 1]
      ensures items == old(items[..|items| - 1]) && item == old(items[|items| - 1]) && item.index == -1
      ensures Indexed(items)
    {
      item := items[|items| - 1];
      item.index := -1;
      items := items[..|items| - 1];
    }
  
    // ---------- The operations ----------

    method Enqueue(id: string, priority: int, now: int) returns (ok: bool)
      requires Valid()
      modifies this, items
      ensures Valid() && closed == old(closed)
      ensures ok == (!closed && !(maxSize > 0 && old(|line|) >= maxSize))
      ensures line == if ok then Insert(old(line), Entry(id, priority, now)) else old(line)
      ensures old(Strict(line)) && old(Latest(line, Entry(id, priority, now))) ==> Strict(line)
      ensures forall k :: 0 <= k < |items| ==> items[k] in old(items) || fresh(items[k])
    {
      LineLength(line, items);
      if closed {
        return false;
      }
      if maxSize > 0 && |items| >= maxSize {
        return false;
      }
      var item := new Item(Entry(id, priority, now));
      if Strict(line) && Latest(line, item.entry) {
        LatestTiesWithNone(line, item.entry);
      }
      Add(item);
      return true;
    }

    method Add(item: Item)
      requires Valid() && item !in items && !(maxSize > 0 && |items| >= maxSize)
      modifies `items, `line, items, item
      ensures Valid() && line == Insert(old(line), item.entry) && Within(items, old(items) + [item])
    {
      Push(item);
      InsertContents(line, item.entry);
      InsertSorted(line, item.entry);
      line := Insert(line, item.entry);
    }

    /** container/heap's `Push`. */
    method Push(item: Item)
      requires Indexed(items) && Heap(Entries(items), |items|) && item !in items
      modifies `items, items, item
      ensures |items| == old(|items|) + 1 && Indexed(items) && Heap(Entries(items), |items|)
      ensures multiset(Entries(items)) == old(multiset(Entries(items))) + multiset{item.entry}
      ensures Within(items, old(items) + [item])
    {
      ghost var before := Entries(items);
      item.index := |items|;
      items := items + [item];
      assert Entries(items) == before + [item.entry];
      Appended(before, item.entry);
      Up(|items| - 1, |items|);
    }

    /** Exchanges the item at `i` with the last one and restores the order of the rest. */
    method MoveToEnd(i: nat)
      requires i < |items| && Indexed(items) && Heap(Entries(items), |items|)
      modifies `items, items
      ensures |items| == old(|items|) && Indexed(items) && Heap(Entries(items), |items| - 1)
      ensures items[|items| - 1] == old(items[i]) && Within(items, old(items))
      ensures multiset(Entries(items)) == old(multiset(Entries(items)))
    {
      var n := |items| - 1;
      if n != i {
        RemovedAt(Entries(items), i);
        Swap(i, n);
        var moved := Down(i, n);
        if !moved {
          Up(i, n);
        }
      }
    }

    /** container/heap's `Remove`; its `Pop` is the case `i == 0`, where going up never moves anything. */
    method Remove(i: nat) returns (item: Item)
      requires Valid() && i < |items|
      modifies this, items
      ensures Valid() && closed == old(closed)
      ensures item == old(items[i]) && item.entry in old(line) && line == Without(old(line), item.entry)
      ensures Within(items, old(items))
    {
      MoveToEnd(i);
      ghost var s := Entries(items);
      item := Pop();
      assert Entries(items) == s[..|s| - 1];
      LastRemoved(s, line);
      line := Without(line, item.entry);
    }

    method Dequeue() returns (item: Item?)
      requires Valid()
      modifies this, items
      ensures Valid() && closed == old(closed)
      ensures old(line) == [] ==> item == null && line == []
      ensures old(line) != [] ==> item != null && item.entry in old(line) && line == Without(old(line), item.entry)
      ensures old(line) != [] && Strict(old(line)) ==> item.entry == old(line)[0] && line == old(line)[1..]
      ensures Within(items, old(items))
    {
      LineLength(line, items);
      if |items| == 0 {
        return null;
      }
      BestFirst(line, items);
      item := Remove(0);
    }

    method Peek() returns (item: Item?)
      requires Valid()
      ensures line == [] ==> item == null
      ensures line != [] ==> item != null && item.entry in line && forall f :: f in line ==> !Before(f, item.entry)
      ensures line != [] && Strict(line) ==> item.entry == line[0]
    {
      LineLength(line, items);
      if |items| == 0 {
        return null;
      }
      BestFirst(line, items);
      item := items[0];
    }

    /** The first item of the slice with this identifier, in the order of the heap. */
    method RemoveJob(id: string) returns (found: bool, ghost removed: Entry)
      requires Valid()
      modifies this, items
      ensures Valid() && closed == old(closed)
      ensures found <==> exists e :: e in old(line) && e.id == id
      ensures if found then removed in old(line) && removed.id == id && line == Without(old(line), removed)
        else line == old(line)
      ensures found ==> exists i :: 0 <= i < |old(items)| && IsFirst(old(items), id, i) && old(items)[i].entry == removed
      ensures old(Strict(line)) ==> Strict(line)
    {
      removed := Entry("", 0, 0);
      for i := 0 to |items|
        invariant forall k :: 0 <= k < i ==> items[k].entry.id != id
      {
        if items[i].entry.id == id {
          ghost var before := line;
          assert IsFirst(items, id, i);
          var item := Remove(i);
          if Strict(before) {
            WithoutTies(before, item.entry);
          }
          return true, item.entry;
        }
      }
      SameMembers(line, items);
      return false, removed;
    }

    method Clear()
      requires Valid()
      modifies this
      ensures Valid() && line == [] && closed == old(closed)
    {
      items, line := [], [];
    }

    method Close()
      requires Valid()
      modifies `closed
      ensures Valid() && line == old(line) && closed
    {
      closed := true;
    }

    method Size() returns (n: nat)
      requires Valid()
      ensures n == |line|
    {
      LineLength(line, items);
      return |items|;
    }
  }

  lemma HeadMoves(all: seq<Entry>, out: seq<Entry>, first: Entry, rest: seq<Entry>)
    requires all == out + ([first] + rest)
    ensures all == (out + [first]) + rest
  {
  }

  method TakeFirst(q: Queue) returns (first: Entry)
    requires q.Valid() && Strict(q.line) && q.items != []
    modifies q, q.items
    ensures q.Valid() && Strict(q.line) && old(q.line) == [first] + q.line && Within(q.items, old(q.items))
  {
    LineLength(q.line, q.items);
    ghost var before := q.line;
    var item := q.Dequeue();
    StrictTail(before);
    return item.entry;
  }

  lemma StrictTail(line: seq<Entry>)
    requires Strict(line) && line != []
    ensures Strict(line[1..]) && line == [line[0]] + line[1..]
  {
  }

  /** Taking job after job until none is left. */
  method Drain(q: Queue) returns (out: seq<Entry>)
    requires q.Valid() && Strict(q.line)
    modifies q, q.items
    ensures q.Valid() && q.line == [] && out == old(q.line)
  {
    out := [];
    ghost var all := q.line;
    ghost var others := q.items;
    while q.items != []
      invariant q.Valid() && Strict(q.line) && all == out + q.line
      invariant Within(q.items, others)
      decreases |q.line|
    {
      var first := TakeFirst(q);
      HeadMoves(all, out, first, q.line);
      out := out + [first];
    }
    LineLength(q.line, q.items);
    assert out + [] == out;
  }

  lemma LineLength(line: seq<Entry>, items: seq<Item>)
    requires multiset(line) == multiset(Entries(items))
    ensures |line| == |items|
  {
    assert |multiset(line)| == |line| && |multiset(Entries(items))| == |Entries(items)|;
  }

  lemma SameMembers(line: seq<Entry>, items: seq<Item>)
    requires multiset(line) == multiset(Entries(items))
    ensures forall e :: e in line <==> e in Entries(items)
  {
    forall e
      ensures e in line <==> e in Entries(items)
    {
      assert e in line <==> e in multiset(line);
      assert e in Entries(items) <==> e in multiset(Entries(items));
    }
  }

  /** A heap without its last element is a heap. */
  lemma LastRemoved(s: seq<Entry>, line: seq<Entry>)
    requires s != [] && Heap(s, |s| - 1) && multiset(line) == multiset(s) && Sorted(line)
    ensures var n, e := |s| - 1, s[|s| - 1];
      Heap(s[..n], n) && e in line && Sorted(Without(line, e)) && multiset(Without(line, e)) == multiset(s[..n])
  {
    var n, e := |s| - 1, s[|s| - 1];
    assert s == s[..n] + [e];
    assert e in multiset(line);
    WithoutContents(line, e);
    WithoutSorted(line, e);
    forall k | 0 < k < n
      ensures InOrder(s[..n], k)
    {
      assert InOrder(s, k);
    }
  }

  lemma BestFirst(line: seq<Entry>, items: seq<Item>)
    requires items != [] && multiset(line) == multiset(Entries(items)) && Heap(Entries(items), |items|) && Sorted(line)
    ensures var e := items[0].entry;
      e in line && (forall f :: f in line ==> !Before(f, e)) && (Strict(line) ==> line[0] == e && Without(line, e) == line[1..])
  {
    var e := items[0].entry;
    SameMembers(line, items);
    assert Entries(items)[0] == e;
    forall f | f in line
      ensures !Before(f, e)
    {
      var k :| 0 <= k < |items| && Entries(items)[k] == f;
      RootIsBest(Entries(items), |items|, k);
    }
    if Strict(line) {
      HeadIsBest(line, e);
    }
  }

  /** A new last element disturbs nothing but itself. */
  lemma Appended(s: seq<Entry>, e: Entry)
    requires Heap(s, |s|)
    ensures var n := |s| + 1; HeapBut(s + [e], n, |s|) && BelowFits(s + [e], n, |s|)
  {
    forall k | 0 < k < |s|
      ensures InOrder(s + [e], k)
    {
      assert InOrder(s, k);
    }
  }

  /** Moving the last element to position `i` disturbs nothing but `i`. */
  lemma RemovedAt(s: seq<Entry>, i: nat)
    requires i < |s| - 1 && Heap(s, |s|)
    ensures HeapBut(Exchanged(s, i, |s| - 1), |s| - 1, i)
  {
    var n := |s| - 1;
    var r := Exchanged(s, i, n);
    forall k | 0 < k < n
      ensures k != i && Parent(k) != i ==> InOrder(r, k)
      ensures Parent(k) == i && i > 0 ==> !Before(r[k], r[Parent(i)])
    {
      assert InOrder(s, k);
      if i > 0 {
        assert InOrder(s, i);
      }
    }
  }
}
