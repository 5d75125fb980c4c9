/** Merging face groups: connected components of the above-threshold relation (faces_gocv.go). */
module FaceGroups {
  import opened GroupDsu

  // ---------- Chains of similar groups ----------

  type Edges = set<(nat, nat)>

  predicate Adjacent(edges: Edges, x: nat, y: nat) {
    (x, y) in edges || (y, x) in edges
  }

  predicate Chain(edges: Edges, path: seq<nat>) {
    path != [] && forall k :: 0 <= k < |path| - 1 ==> Adjacent(edges, path[k], path[k + 1])
  }

  /** A chain of adjacent pairs leads from `x` to `y`. */
  ghost predicate Connected(edges: Edges, x: nat, y: nat) {
    exists path: seq<nat> :: Chain(edges, path) && path[0] == x && path[|path| - 1] == y
  }

  lemma ConnectedSelf(edges: Edges, x: nat)
    ensures Connected(edges, x, x)
  {
    assert Chain(edges, [x]);
  }

  lemma ConnectedByEdge(edges: Edges, x: nat, y: nat)
    requires Adjacent(edges, x, y)
    ensures Connected(edges, x, y)
  {
    assert Chain(edges, [x, y]);
  }

  lemma ConnectedBack(edges: Edges, x: nat, y: nat)
    requires Connected(edges, x, y)
    ensures Connected(edges, y, x)
  {
    var path: seq<nat> :| Chain(edges, path) && path[0] == x && path[|path| - 1] == y;
    var n := |path|;
    var back := seq(n, i requires 0 <= i < n => path[n - 1 - i]);
    forall k | 0 <= k < n - 1
      ensures Adjacent(edges, back[k], back[k + 1])
    {
      assert Adjacent(edges, path[n - 2 - k], path[n - 2 - k + 1]);
    }
    assert Chain(edges, back);
  }

  lemma ConnectedOn(edges: Edges, x: nat, y: nat, z: nat)
    requires Connected(edges, x, y) && Connected(edges, y, z)
    ensures Connected(edges, x, z)
  {
    var p: seq<nat> :| Chain(edges, p) && p[0] == x && p[|p| - 1] == y;
    var q: seq<nat> :| Chain(edges, q) && q[0] == y && q[|q| - 1] == z;
    var path := p + q[1..];
    forall k | 0 <= k < |path| - 1
      ensures Adjacent(edges, path[k], path[k + 1])
    {
      if k < |p| - 1 {
        assert Adjacent(edges, p[k], p[k + 1]);
      } else {
        assert Adjacent(edges, q[k - |p| + 1], q[k - |p| + 2]);
      }
    }
    assert Chain(edges, path);
  }

  lemma ConnectedMore(edges: Edges, more: Edges, x: nat, y: nat)
    requires edges <= more && Connected(edges, x, y)
    ensures Connected(more, x, y)
  {
    var path: seq<nat> :| Chain(edges, path) && path[0] == x && path[|path| - 1] == y;
    assert Chain(more, path);
  }

  /** The classes are exactly the connected components. */
  ghost predicate Components(edges: Edges, roots: seq<nat>) {
    Sound(edges, roots) && Complete(edges, roots)
  }

  ghost predicate Sound(edges: Edges, roots: seq<nat>) {
    forall x :: 0 <= x < |roots| ==> Connected(edges, x, roots[x])
  }

  ghost predicate Complete(edges: Edges, roots: seq<nat>) {
    forall x, y :: (x, y) in edges ==> x < |roots| && y < |roots| && roots[x] == roots[y]
  }

  lemma {:induction false} ChainStays(edges: Edges, roots: seq<nat>, path: seq<nat>)
    requires Complete(edges, roots) && Chain(edges, path) && path[0] < |roots|
    ensures path[|path| - 1] < |roots| && roots[path[|path| - 1]] == roots[path[0]]
  {
    if |path| > 1 {
      assert Adjacent(edges, path[0], path[0 + 1]);
      assert Chain(edges, path[1..]) by {
        forall k | 0 <= k < |path| - 2
          ensures Adjacent(edges, path[1..][k], path[1..][k + 1])
        {
          assert Adjacent(edges, path[k + 1], path[k + 1 + 1]);
        }
      }
      ChainStays(edges, roots, path[1..]);
    }
  }

  /** Two nodes share a representative if and only if a chain of edges joins them. */
  lemma SameClassIffConnected(edges: Edges, roots: seq<nat>, x: nat, y: nat)
    requires Components(edges, roots) && x < |roots| && y < |roots|
    ensures roots[x] == roots[y] <==> Connected(edges, x, y)
  {
    if roots[x] == roots[y] {
      ConnectedBack(edges, y, roots[y]);
      ConnectedOn(edges, x, roots[x], y);
    }
    if Connected(edges, x, y) {
      var path: seq<nat> :| Chain(edges, path) && path[0] == x && path[|path| - 1] == y;
      ChainStays(edges, roots, path);
    }
  }

  /** Joining the classes of `a` and `b` accounts for the new edge between them, whichever representative survives. */
  lemma JoinAddsEdge(edges: Edges, roots: seq<nat>, a: nat, b: nat, child: nat, top: nat)
    requires Components(edges, roots) && a < |roots| && b < |roots| && {child, top} == {roots[a], roots[b]}
    ensures Components(edges + {(a, b)}, Joined(roots, child, top))
  {
    var more, joined := edges + {(a, b)}, Joined(roots, child, top);
    assert Connected(more, child, top) by {
      ConnectedMore(edges, more, a, roots[a]);
      ConnectedMore(edges, more, b, roots[b]);
      ConnectedByEdge(more, a, b);
      ConnectedBack(more, a, roots[a]);
      ConnectedOn(more, roots[a], a, b);
      ConnectedOn(more, roots[a], b, roots[b]);
      ConnectedBack(more, roots[a], roots[b]);
    }
    forall x | 0 <= x < |roots|
      ensures Connected(more, x, joined[x])
    {
      ConnectedMore(edges, more, x, roots[x]);
      if roots[x] == child {
        ConnectedOn(more, x, child, top);
      }
    }
  }

  // ---------- The double loop ----------

  /** Pairs i < j met before the pair (i, j), in the loops' order, that reach the threshold. */
  function EdgesBefore(n: nat, similar: (nat, nat) -> bool, i: nat, j: nat): Edges {
    set x, y | 0 <= x < n && 0 <= y < n && x < y && (x < i || (x == i && y < j)) && similar(x, y) :: (x, y)
  }

  function AllEdges(n: nat, similar: (nat, nat) -> bool): Edges {
    set x, y | 0 <= x < n && 0 <= y < n && x < y && similar(x, y) :: (x, y)
  }

  method UnionPair(d: Dsu, a: nat, b: nat, ghost edges: Edges)
    requires d.Valid() && a < d.parent.Length && b < d.parent.Length && Components(edges, d.roots)
    modifies d`roots, d.parent, d.rank
    ensures d.Valid() && Components(edges + {(a, b)}, d.roots)
  {
    ghost var before := d.roots;
    d.Union(a, b);
    if d.roots == Joined(before, before[a], before[b]) {
      JoinAddsEdge(edges, before, a, b, before[a], before[b]);
    } else {
      JoinAddsEdge(edges, before, a, b, before[b], before[a]);
    }
  }

  lemma NextPair(n: nat, similar: (nat, nat) -> bool, i: nat, j: nat)
    requires i < j < n
    ensures EdgesBefore(n, similar, i, j + 1)
      == if similar(i, j) then EdgesBefore(n, similar, i, j) + {(i, j)} else EdgesBefore(n, similar, i, j)
  {
  }

  lemma NextRow(n: nat, similar: (nat, nat) -> bool, i: nat)
    requires i < n
    ensures EdgesBefore(n, similar, i, n) == EdgesBefore(n, similar, i + 1, i + 2)
  {
  }

  lemma FirstAndLastRow(n: nat, similar: (nat, nat) -> bool)
    ensures EdgesBefore(n, similar, 0, 1) == {} && EdgesBefore(n, similar, n, n + 1) == AllEdges(n, similar)
  {
  }

  lemma SingletonComponents(roots: seq<nat>)
    requires forall x :: 0 <= x < |roots| ==> roots[x] == x
    ensures Components({}, roots)
  {
    forall x | 0 <= x < |roots|
      ensures Connected({}, x, roots[x])
    {
      ConnectedSelf({}, x);
    }
  }

  method UnionSimilar(n: nat, similar: (nat, nat) -> bool) returns (d: Dsu)
    ensures fresh(d) && d.Valid() && fresh(d.parent) && fresh(d.rank) && d.parent.Length == n
    ensures Components(AllEdges(n, similar), d.roots)
  {
    d := new Dsu(n);
    FirstAndLastRow(n, similar);
    SingletonComponents(d.roots);
    for i := 0 to n
      invariant d.Valid()
      invariant Components(EdgesBefore(n, similar, i, i + 1), d.roots)
    {
      UnionRow(d, n, similar, i);
      NextRow(n, similar, i);
    }
  }

  /** The inner loop: one group and those behind it. */
  method UnionRow(d: Dsu, n: nat, similar: (nat, nat) -> bool, i: nat)
    requires d.Valid() && d.parent.Length == n && i < n && Components(EdgesBefore(n, similar, i, i + 1), d.roots)
    modifies d, d.parent, d.rank
    ensures d.Valid()
    ensures Components(EdgesBefore(n, similar, i, n), d.roots)
  {
    for j := i + 1 to n
      invariant d.Valid()
      invariant Components(EdgesBefore(n, similar, i, j), d.roots)
    {
      NextPair(n, similar, i, j);
      if similar(i, j) {
        UnionPair(d, i, j, EdgesBefore(n, similar, i, j));
      }
    }
  }

  // ---------- What the merged groups hold ----------

  type Feature = seq<real>

  datatype Contents = Contents(exemplars: seq<Feature>, files: seq<string>, primaryRef: string)

  const EMPTY := Contents([], [], "")

  /** Lists are appended; the first non-empty reference wins. */
  function Add(c: Contents, d: Contents): Contents {
    Contents(c.exemplars + d.exemplars, c.files + d.files, if c.primaryRef == "" then d.primaryRef else c.primaryRef)
  }

  /** Everything of class `r`, in the order of its members. */
  function Collect(values: seq<Contents>, roots: seq<nat>, r: nat): Contents
    requires |values| == |roots|
  {
    if values == [] then EMPTY
    else
      var n := |values| - 1;
      var before := Collect(values[..n], roots[..n], r);
      if roots[n] == r then Add(before, values[n]) else before
  }

  /** The representatives, ordered by the first member of their class. */
  function Leaders(roots: seq<nat>): seq<nat> {
    if roots == [] then []
    else
      var n := |roots| - 1;
      var before := Leaders(roots[..n]);
      if roots[n] in before then before else before + [roots[n]]
  }

  lemma {:induction false} LeadersCover(roots: seq<nat>)
    ensures forall r :: r in Leaders(roots) <==> r in roots
    ensures DistinctLeaders(Leaders(roots))
  {
    if roots != [] {
      LeadersCover(roots[..|roots| - 1]);
      assert roots == roots[..|roots| - 1] + [roots[|roots| - 1]];
    }
  }

  /** The identifier of the merged group that group `i` goes to. */
  ghost function Owner(roots: seq<nat>, i: nat): (k: nat)
    requires i < |roots|
    ensures k < |Leaders(roots)| && Leaders(roots)[k] == roots[i]
  {
    LeadersCover(roots);
    assert roots[i] in Leaders(roots);
    var k :| 0 <= k < |Leaders(roots)| && Leaders(roots)[k] == roots[i];
    k
  }

  /** Two groups end up in the same merged group if and only if a chain of above-threshold pairs joins them. */
  lemma SameOwnerIffConnected(n: nat, similar: (nat, nat) -> bool, roots: seq<nat>, i: nat, j: nat)
    requires |roots| == n && Components(AllEdges(n, similar), roots) && i < n && j < n
    ensures Owner(roots, i) == Owner(roots, j) <==> Connected(AllEdges(n, similar), i, j)
  {
    LeadersCover(roots);
    SameClassIffConnected(AllEdges(n, similar), roots, i, j);
  }

  function FirstMember(roots: seq<nat>, r: nat): (i: nat)
    requires r in roots
    ensures i < |roots| && roots[i] == r && r !in roots[..i]
  {
    if roots[0] == r then 0
    else
      var i := FirstMember(roots[1..], r);
      assert roots[..i + 1] == [roots[0]] + roots[1..][..i];
      i + 1
  }

  lemma {:induction false} FirstMemberIn(roots: seq<nat>, r: nat, i: nat)
    requires i < |roots| && roots[i] == r && r !in roots[..i]
    ensures FirstMember(roots, r) == i
  {
    if i > 0 {
      assert roots[0] == roots[..i][0];
      assert roots[1..][..i - 1] == roots[..i][1..];
      FirstMemberIn(roots[1..], r, i - 1);
    }
  }

  /** New identifiers follow the order of first members. */
  lemma {:induction false} LeadersInFirstMemberOrder(roots: seq<nat>, k: nat, l: nat)
    requires k < l < |Leaders(roots)|
    ensures Leaders(roots)[k] in roots && Leaders(roots)[l] in roots
    ensures FirstMember(roots, Leaders(roots)[k]) < FirstMember(roots, Leaders(roots)[l])
  {
    var n := |roots| - 1;
    var front := roots[..n];
    LeadersCover(roots);
    LeadersCover(front);
    if l < |Leaders(front)| {
      LeadersInFirstMemberOrder(front, k, l);
      SameFirstMember(roots, Leaders(front)[k]);
      SameFirstMember(roots, Leaders(front)[l]);
    } else {
      SameFirstMember(roots, Leaders(front)[k]);
      FirstMemberIn(roots, roots[n], n);
    }
  }

  lemma SameFirstMember(roots: seq<nat>, r: nat)
    requires roots != [] && r in roots[..|roots| - 1]
    ensures r in roots && FirstMember(roots, r) == FirstMember(roots[..|roots| - 1], r)
  {
    var front := roots[..|roots| - 1];
    var i := FirstMember(front, r);
    assert roots[..i] == front[..i];
    FirstMemberIn(roots, r, i);
  }

  // ---------- What a merged group holds ----------

  /** What class `r` holds of the groups in front of `i`, and then what group `i` holds, comes first, in that order. */
  lemma {:induction false} MemberOrder(values: seq<Contents>, roots: seq<nat>, r: nat, i: nat)
    requires |values| == |roots| && i < |roots| && roots[i] == r
    ensures Collect(values[..i], roots[..i], r).exemplars + values[i].exemplars <= Collect(values, roots, r).exemplars
    ensures Collect(values[..i], roots[..i], r).files + values[i].files <= Collect(values, roots, r).files
    decreases |values|
  {
    var n := |values| - 1;
    if i < n {
      assert values[..n][..i] == values[..i] && roots[..n][..i] == roots[..i];
      MemberOrder(values[..n], roots[..n], r, i);
    }
  }

  /** Its reference is that of the first member that has one. */
  lemma {:induction false} FirstReference(values: seq<Contents>, roots: seq<nat>, r: nat, i: nat)
    requires |values| == |roots| && i < |roots| && roots[i] == r && values[i].primaryRef != ""
    requires forall j :: 0 <= j < i && roots[j] == r ==> values[j].primaryRef == ""
    ensures Collect(values, roots, r).primaryRef == values[i].primaryRef
    decreases |values|
  {
    var n := |values| - 1;
    if i < n {
      FirstReference(values[..n], roots[..n], r, i);
    } else {
      NoReference(values[..n], roots[..n], r);
    }
  }

  lemma {:induction false} NoReference(values: seq<Contents>, roots: seq<nat>, r: nat)
    requires |values| == |roots| && forall j :: 0 <= j < |roots| && roots[j] == r ==> values[j].primaryRef == ""
    ensures Collect(values, roots, r).primaryRef == ""
    decreases |values|
  {
    if values != [] {
      NoReference(values[..|values| - 1], roots[..|values| - 1], r);
    }
  }

  // ---------- Conservation ----------

  function ExemplarsOf(c: Contents): seq<Feature> {
    c.exemplars
  }

  function FilesOf(c: Contents): seq<string> {
    c.files
  }

  /** All that a list of groups holds of one kind. */
  ghost function Pool<T>(values: seq<Contents>, of: Contents -> seq<T>): multiset<T> {
    if values == [] then multiset{}
    else Pool(values[..|values| - 1], of) + multiset(of(values[|values| - 1]))
  }

  /** A kind of which an empty group holds nothing, and whose lists are appended. */
  ghost predicate Additive<T>(of: Contents -> seq<T>) {
    of(EMPTY) == [] && forall c, d :: of(Add(c, d)) == of(c) + of(d)
  }

  /** The contents of every merged group. */
  function Merged(values: seq<Contents>, roots: seq<nat>, leaders: seq<nat>): (r: seq<Contents>)
    requires |values| == |roots|
    ensures |r| == |leaders|
  {
    seq(|leaders|, k requires 0 <= k < |leaders| => Collect(values, roots, leaders[k]))
  }

  lemma {:induction false} NotAMember(values: seq<Contents>, roots: seq<nat>, r: nat)
    requires |values| == |roots| && r !in roots
    ensures Collect(values, roots, r) == EMPTY
  {
    if values != [] {
      NotAMember(values[..|values| - 1], roots[..|roots| - 1], r);
    }
  }

  predicate DistinctLeaders(leaders: seq<nat>) {
    forall k, l :: 0 <= k < l < |leaders| ==> leaders[k] != leaders[l]
  }

  /** Adding one group to the lists adds what it holds to exactly one of distinct leaders. */
  lemma {:induction false} OneMore<T>(values: seq<Contents>, roots: seq<nat>, leaders: seq<nat>, n: nat, of: Contents -> seq<T>)
    requires |values| == |roots| == n + 1 && DistinctLeaders(leaders) && Additive(of)
    ensures Pool(Merged(values, roots, leaders), of) == Pool(Merged(values[..n], roots[..n], leaders), of)
      + if roots[n] in leaders then multiset(of(values[n])) else multiset{}
    decreases |leaders|
  {
    if leaders != [] {
      var m := |leaders| - 1;
      var after, before := Merged(values, roots, leaders), Merged(values[..n], roots[..n], leaders);
      OneMore(values, roots, leaders[..m], n, of);
      assert after[..m] == Merged(values, roots, leaders[..m]);
      assert before[..m] == Merged(values[..n], roots[..n], leaders[..m]);
      assert leaders == leaders[..m] + [leaders[m]];
      assert Pool(after, of) == Pool(after[..m], of) + multiset(of(after[m]));
      assert Pool(before, of) == Pool(before[..m], of) + multiset(of(before[m]));
      assert multiset(of(after[m]))
        == multiset(of(before[m])) + if roots[n] == leaders[m] then multiset(of(values[n])) else multiset{};
    }
  }

  /** A leader seen for the first time has collected nothing yet. */
  lemma NewLeaderIsEmpty(values: seq<Contents>, roots: seq<nat>, n: nat)
    requires |values| == |roots| == n + 1
    ensures var before := Merged(values[..n], roots[..n], Leaders(roots[..n]));
      Merged(values[..n], roots[..n], Leaders(roots)) == before
      || Merged(values[..n], roots[..n], Leaders(roots)) == before + [EMPTY]
  {
    if Leaders(roots) != Leaders(roots[..n]) {
      LeadersCover(roots[..n]);
      NotAMember(values[..n], roots[..n], roots[n]);
    }
  }

  /** Nothing is lost or duplicated. */
  lemma {:induction false} Conserved<T>(values: seq<Contents>, roots: seq<nat>, of: Contents -> seq<T>)
    requires |values| == |roots| && Additive(of)
    ensures Pool(Merged(values, roots, Leaders(roots)), of) == Pool(values, of)
  {
    if values != [] {
      var n := |values| - 1;
      Conserved(values[..n], roots[..n], of);
      LeadersCover(roots);
      assert roots[n] in roots;
      OneMore(values, roots, Leaders(roots), n, of);
      assert Pool(Merged(values[..n], roots[..n], Leaders(roots)), of)
        == Pool(Merged(values[..n], roots[..n], Leaders(roots[..n])), of) by {
        NewLeaderIsEmpty(values, roots, n);
        EmptyAddsNothing(Merged(values[..n], roots[..n], Leaders(roots[..n])), of);
      }
    }
  }

  lemma EmptyAddsNothing<T>(values: seq<Contents>, of: Contents -> seq<T>)
    requires Additive(of)
    ensures Pool(values + [EMPTY], of) == Pool(values, of)
  {
    assert (values + [EMPTY])[..|values|] == values;
  }

  lemma ExemplarsConserved(values: seq<Contents>, roots: seq<nat>)
    requires |values| == |roots|
    ensures Pool(Merged(values, roots, Leaders(roots)), ExemplarsOf) == Pool(values, ExemplarsOf)
  {
    Conserved(values, roots, ExemplarsOf);
  }

  lemma FilesConserved(values: seq<Contents>, roots: seq<nat>)
    requires |values| == |roots|
    ensures Pool(Merged(values, roots, Leaders(roots)), FilesOf) == Pool(values, FilesOf)
  {
    Conserved(values, roots, FilesOf);
  }

  // ---------- The groups the source updates in place ----------

  class FaceGroup {
    var id: int
    var exemplars: seq<Feature>
    var files: seq<string>
    var primaryRef: string

    constructor (id: int)
      ensures this.id == id && Value() == EMPTY
    {
      this.id := id;
      exemplars, files, primaryRef := [], [], "";
    }

    function Value(): Contents
      reads this
    {
      Contents(exemplars, files, primaryRef)
    }
  }

  function Values(groups: seq<FaceGroup>): (r: seq<Contents>)
    reads groups
    ensures |r| == |groups|
  {
    seq(|groups|, i requires 0 <= i < |groups| reads groups => groups[i].Value())
  }

  method MoveInto(dst: FaceGroup, g: FaceGroup)
    requires dst != g
    modifies dst, g
    ensures dst.Value() == Add(old(dst.Value()), old(g.Value())) && g.Value() == EMPTY
    ensures dst.id == old(dst.id) && g.id == old(g.id)
  {
    dst.exemplars := dst.exemplars + g.exemplars;
    dst.files := dst.files + g.files;
    if dst.primaryRef == "" {
      dst.primaryRef := g.primaryRef;
    }
    g.exemplars, g.files, g.primaryRef := [], [], "";
  }

  predicate Distinct(groups: seq<FaceGroup>) {
    forall i, j :: 0 <= i < j < |groups| ==> groups[i] != groups[j]
  }

  function Reaching(similarity: (nat, nat) -> real, threshold: real): (nat, nat) -> bool {
    (i: nat, j: nat) => similarity(i, j) >= threshold
  }

  /** Of each two neighbours of a path, the earlier group and the later one reach the threshold. */
  predicate SimilarPath(n: nat, similarity: (nat, nat) -> real, threshold: real, path: seq<nat>) {
    path != [] && forall k :: 0 <= k < |path| - 1 ==> SimilarPair(n, similarity, threshold, path[k], path[k + 1])
  }

  predicate SimilarPair(n: nat, similarity: (nat, nat) -> real, threshold: real, x: nat, y: nat) {
    x < n && y < n && ((x < y && similarity(x, y) >= threshold) || (y < x && similarity(y, x) >= threshold))
  }

  lemma AdjacentIff(n: nat, similarity: (nat, nat) -> real, threshold: real, x: nat, y: nat)
    ensures Adjacent(AllEdges(n, Reaching(similarity, threshold)), x, y) == SimilarPair(n, similarity, threshold, x, y)
  {
  }

  lemma ChainIff(n: nat, similarity: (nat, nat) -> real, threshold: real, path: seq<nat>)
    ensures Chain(AllEdges(n, Reaching(similarity, threshold)), path) == SimilarPath(n, similarity, threshold, path)
  {
    if path != [] {
      forall k | 0 <= k < |path| - 1
        ensures Adjacent(AllEdges(n, Reaching(similarity, threshold)), path[k], path[k + 1])
          == SimilarPair(n, similarity, threshold, path[k], path[k + 1])
      {
        AdjacentIff(n, similarity, threshold, path[k], path[k + 1]);
      }
    }
  }

  ghost predicate SimilarPathFrom(n: nat, similarity: (nat, nat) -> real, threshold: real, i: nat, j: nat) {
    exists path: seq<nat> :: SimilarPath(n, similarity, threshold, path) && path[0] == i && path[|path| - 1] == j
  }

  /** Two groups are merged into one if and only if a path of pairs that reach the threshold leads from one to the other. */
  lemma TogetherIffSimilar(n: nat, similarity: (nat, nat) -> real, threshold: real, roots: seq<nat>, i: nat, j: nat)
    requires |roots| == n && i < n && j < n && Components(AllEdges(n, Reaching(similarity, threshold)), roots)
    ensures Owner(roots, i) == Owner(roots, j) <==> SimilarPathFrom(n, similarity, threshold, i, j)
  {
    var edges := AllEdges(n, Reaching(similarity, threshold));
    SameOwnerIffConnected(n, Reaching(similarity, threshold), roots, i, j);
    if Connected(edges, i, j) {
      var path: seq<nat> :| Chain(edges, path) && path[0] == i && path[|path| - 1] == j;
      ChainIff(n, similarity, threshold, path);
    }
    if SimilarPathFrom(n, similarity, threshold, i, j) {
      var path: seq<nat> :|
        SimilarPath(n, similarity, threshold, path) && path[0] == i && path[|path| - 1] == j;
      ChainIff(n, similarity, threshold, path);
    }
  }

  method MergeFaceGroups(recognizer: bool, groups: seq<FaceGroup>, similarity: (nat, nat) -> real, threshold: real)
    returns (merged: seq<FaceGroup>, ghost roots: seq<nat>)
    requires Distinct(groups)
    modifies groups
    ensures !recognizer || |groups| < 2 || threshold <= 0.0 ==>
      merged == groups && Values(groups) == old(Values(groups))
    ensures recognizer && |groups| >= 2 && threshold > 0.0 ==>
      |roots| == |groups| && Components(AllEdges(|groups|, Reaching(similarity, threshold)), roots)
      && Values(merged) == Merged(old(Values(groups)), roots, Leaders(roots))
      && (forall k :: 0 <= k < |merged| ==> fresh(merged[k]) && merged[k].id == k)
      && (forall i :: 0 <= i < |groups| ==> groups[i].Value() == EMPTY)
  {
    roots := [];
    if !recognizer || |groups| < 2 {
      return groups, roots;
    }
    if threshold <= 0.0 {
      return groups, roots;
    }
    var n := |groups|;
    var d := UnionSimilar(n, Reaching(similarity, threshold));
    roots := d.roots;
    ghost var values := Values(groups);
    merged := Gather(d, groups, values);
  }

  predicate Apart(groups: seq<FaceGroup>, merged: seq<FaceGroup>) {
    forall i, k :: 0 <= i < |groups| && 0 <= k < |merged| ==> groups[i] != merged[k]
  }

  predicate Holds(groups: seq<FaceGroup>, values: seq<Contents>)
    reads groups
  {
    |values| == |groups| && forall k :: 0 <= k < |groups| ==> groups[k].Value() == values[k]
  }

  /** The second loop: after `i` groups. */
  ghost predicate Gathered(groups: seq<FaceGroup>, values: seq<Contents>, roots: seq<nat>, i: nat,
                           rootToGroup: map<nat, FaceGroup>, merged: seq<FaceGroup>)
    reads groups, merged
  {
    |values| == |groups| == |roots| && i <= |groups| && Distinct(groups) && Distinct(merged) && Apart(groups, merged)
    && Indexed(rootToGroup, merged, Leaders(roots[..i]))
    && (forall k :: 0 <= k < |merged| ==> merged[k].id == k)
    && Holds(merged, Merged(values[..i], roots[..i], Leaders(roots[..i])))
    && (forall j :: 0 <= j < |groups| ==> groups[j].Value() == if j < i then EMPTY else values[j])
  }

  /** The map finds the merged group of each leader, and nothing else. */
  predicate Indexed(rootToGroup: map<nat, FaceGroup>, merged: seq<FaceGroup>, leaders: seq<nat>) {
    |merged| == |leaders| && rootToGroup.Keys == (set r | r in leaders)
    && forall k :: 0 <= k < |leaders| ==> rootToGroup[leaders[k]] == merged[k]
  }

  lemma CollectStep(values: seq<Contents>, roots: seq<nat>, i: nat, r: nat)
    requires |values| == |roots| && i < |values|
    ensures Collect(values[..i + 1], roots[..i + 1], r)
      == if roots[i] == r then Add(Collect(values[..i], roots[..i], r), values[i]) else Collect(values[..i], roots[..i], r)
  {
    assert values[..i + 1][..i] == values[..i] && roots[..i + 1][..i] == roots[..i];
  }

  lemma LeadersStep(roots: seq<nat>, i: nat)
    requires i < |roots|
    ensures Leaders(roots[..i + 1])
      == if roots[i] in Leaders(roots[..i]) then Leaders(roots[..i]) else Leaders(roots[..i]) + [roots[i]]
  {
    assert roots[..i + 1][..i] == roots[..i];
  }

  /** A group of a class seen before is added to it. */
  lemma MergedOld(values: seq<Contents>, roots: seq<nat>, i: nat, k: nat)
    requires |values| == |roots| && i < |values| && k < |Leaders(roots[..i])| && Leaders(roots[..i])[k] == roots[i]
    ensures Leaders(roots[..i + 1]) == Leaders(roots[..i])
    ensures var before := Merged(values[..i], roots[..i], Leaders(roots[..i]));
      Merged(values[..i + 1], roots[..i + 1], Leaders(roots[..i])) == before[k := Add(before[k], values[i])]
  {
    LeadersStep(roots, i);
    LeadersCover(roots[..i]);
    var leaders := Leaders(roots[..i]);
    forall l | 0 <= l < |leaders|
      ensures Collect(values[..i + 1], roots[..i + 1], leaders[l])
        == if l == k then Add(Collect(values[..i], roots[..i], leaders[l]), values[i])
           else Collect(values[..i], roots[..i], leaders[l])
    {
      CollectStep(values, roots, i, leaders[l]);
    }
  }

  /** A group of a new class starts it. */
  lemma MergedNew(values: seq<Contents>, roots: seq<nat>, i: nat)
    requires |values| == |roots| && i < |values| && roots[i] !in Leaders(roots[..i])
    ensures Leaders(roots[..i + 1]) == Leaders(roots[..i]) + [roots[i]]
    ensures Merged(values[..i + 1], roots[..i + 1], Leaders(roots[..i]) + [roots[i]])
      == Merged(values[..i], roots[..i], Leaders(roots[..i])) + [Add(EMPTY, values[i])]
  {
    LeadersStep(roots, i);
    LeadersCover(roots[..i]);
    var leaders := Leaders(roots[..i]);
    forall l | 0 <= l < |leaders|
      ensures Collect(values[..i + 1], roots[..i + 1], leaders[l]) == Collect(values[..i], roots[..i], leaders[l])
    {
      CollectStep(values, roots, i, leaders[l]);
    }
    CollectStep(values, roots, i, roots[i]);
    NotAMember(values[..i], roots[..i], roots[i]);
  }

  method GatherOld(groups: seq<FaceGroup>, i: nat, dst: FaceGroup, rootToGroup: map<nat, FaceGroup>, merged: seq<FaceGroup>,
                   ghost values: seq<Contents>, ghost roots: seq<nat>, ghost k: nat)
    requires i < |groups| && Gathered(groups, values, roots, i, rootToGroup, merged)
    requires k < |merged| && Leaders(roots[..i])[k] == roots[i] && dst == merged[k]
    modifies dst, groups[i]
    ensures Gathered(groups, values, roots, i + 1, rootToGroup, merged)
  {
    ghost var before := Merged(values[..i], roots[..i], Leaders(roots[..i]));
    MoveInto(dst, groups[i]);
    assert Holds(merged, before[k := Add(before[k], values[i])]);
    MergedOld(values, roots, i, k);
  }

  method GatherNew(groups: seq<FaceGroup>, i: nat, dst: FaceGroup, rootToGroup: map<nat, FaceGroup>, merged: seq<FaceGroup>,
                   ghost values: seq<Contents>, ghost roots: seq<nat>)
    requires i < |groups| && Gathered(groups, values, roots, i, rootToGroup, merged) && roots[i] !in rootToGroup
    requires dst !in groups && dst !in merged && dst.Value() == EMPTY && dst.id == |merged|
    modifies dst, groups[i]
    ensures Gathered(groups, values, roots, i + 1, rootToGroup[roots[i] := dst], merged + [dst])
  {
    ghost var before := Merged(values[..i], roots[..i], Leaders(roots[..i]));
    MoveInto(dst, groups[i]);
    assert Holds(merged + [dst], before + [Add(EMPTY, values[i])]);
    MergedNew(values, roots, i);
  }

  method GatherOne(groups: seq<FaceGroup>, i: nat, root: nat, rootToGroup: map<nat, FaceGroup>, merged: seq<FaceGroup>,
                   ghost values: seq<Contents>, ghost roots: seq<nat>)
    returns (rootToGroup': map<nat, FaceGroup>, merged': seq<FaceGroup>)
    requires i < |groups| && Gathered(groups, values, roots, i, rootToGroup, merged) && root == roots[i]
    modifies groups, merged
    ensures Gathered(groups, values, roots, i + 1, rootToGroup', merged')
    ensures forall k :: 0 <= k < |merged'| ==> fresh(merged'[k]) || (k < |merged| && merged'[k] == merged[k])
  {
    if root in rootToGroup {
      ghost var k :| 0 <= k < |merged| && Leaders(roots[..i])[k] == root;
      GatherOld(groups, i, rootToGroup[root], rootToGroup, merged, values, roots, k);
      rootToGroup', merged' := rootToGroup, merged;
    } else {
      var dst := new FaceGroup(|merged|);
      GatherNew(groups, i, dst, rootToGroup, merged, values, roots);
      rootToGroup', merged' := rootToGroup[root := dst], merged + [dst];
    }
  }

  lemma NothingGathered(groups: seq<FaceGroup>, values: seq<Contents>, roots: seq<nat>)
    requires Distinct(groups) && values == Values(groups) && |roots| == |groups|
    ensures Gathered(groups, values, roots, 0, map[], [])
  {
    forall j | 0 <= j < |groups|
      ensures groups[j].Value() == values[j]
    {
      assert Values(groups)[j] == groups[j].Value();
    }
  }

  lemma AllGathered(groups: seq<FaceGroup>, values: seq<Contents>, roots: seq<nat>, rootToGroup: map<nat, FaceGroup>,
                    merged: seq<FaceGroup>)
    requires Gathered(groups, values, roots, |groups|, rootToGroup, merged)
    ensures Values(merged) == Merged(values, roots, Leaders(roots))
    ensures forall k :: 0 <= k < |merged| ==> merged[k].id == k
    ensures forall i :: 0 <= i < |groups| ==> groups[i].Value() == EMPTY
  {
    assert values[..|groups|] == values && roots[..|groups|] == roots;
    assert Values(merged) == Merged(values, roots, Leaders(roots));
  }

  method Gather(d: Dsu, groups: seq<FaceGroup>, ghost values: seq<Contents>) returns (merged: seq<FaceGroup>)
    requires d.Valid() && d.parent.Length == |groups| && Distinct(groups) && values == Values(groups)
    modifies groups, d.parent
    ensures Values(merged) == Merged(values, d.roots, Leaders(d.roots))
    ensures forall k :: 0 <= k < |merged| ==> fresh(merged[k]) && merged[k].id == k
    ensures forall i :: 0 <= i < |groups| ==> groups[i].Value() == EMPTY
  {
    var rootToGroup: map<nat, FaceGroup> := map[];
    merged := [];
    ghost var roots := d.roots;
    NothingGathered(groups, values, roots);
    var i := 0;
    while i < |groups|
      invariant i <= |groups| && d.Valid() && d.roots == roots
      invariant Gathered(groups, values, roots, i, rootToGroup, merged)
      invariant forall k :: 0 <= k < |merged| ==> fresh(merged[k])
    {
      var root, _ := d.Find(i);
      rootToGroup, merged := GatherOne(groups, i, root, rootToGroup, merged, values, roots);
      i := i + 1;
    }
    AllGathered(groups, values, roots, rootToGroup, merged);
  }
}
