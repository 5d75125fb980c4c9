/** Vocabulary shared by every component: bytes, byte strings and the two outcome types. */
module Common {

  /** A byte is its unsigned value; masks and shifts of the Go code are written as `/` and `%`. */
  type Byte = b: int | 0 <= b < 256 witness 0

  type Bytes = seq<Byte>

  datatype Option<+T> = None | Some(value: T)

  /** Go's `(value, error)` pair; the text of the error is not modelled. */
  datatype Result<+T> = Ok(value: T) | Err

  predicate HasSuffix(data: Bytes, suffix: Bytes) {
    |suffix| <= |data| && data[|data| - |suffix|..] == suffix
  }

  /** Ending in a trailer is consisting of something and the trailer. */
  lemma SuffixIff(data: Bytes, suffix: Bytes)
    ensures HasSuffix(data, suffix) <==> exists pre: Bytes :: data == pre + suffix
  {
    if HasSuffix(data, suffix) {
      assert data == data[..|data| - |suffix|] + suffix;
    }
  }

  function Flatten<T>(parts: seq<seq<T>>): seq<T> {
    if parts == [] then [] else parts[0] + Flatten(parts[1..])
  }

  lemma {:induction false} FlattenAppend<T>(xs: seq<seq<T>>, ys: seq<seq<T>>)
    ensures Flatten(xs + ys) == Flatten(xs) + Flatten(ys)
  {
    if xs == [] {
      assert xs + ys == ys;
    } else {
      assert (xs + ys)[0] == xs[0] && (xs + ys)[1..] == xs[1..] + ys;
      FlattenAppend(xs[1..], ys);
    }
  }

  lemma FlattenOne<T>(x: seq<T>)
    ensures Flatten([x]) == x
  {
    assert [x][1..] == [];
  }

  lemma Regroup<T>(a: seq<T>, b: seq<T>, c: seq<T>)
    ensures a + (b + c) == (a + b) + c && a + ([] + c) == a + c
  {
  }

  lemma RemovedSize<K, V>(m: map<K, V>, key: K)
    requires key in m
    ensures |m - {key}| == |m| - 1
  {
    assert (m - {key}).Keys == m.Keys - {key};
    assert |m.Keys| == |m| && |(m - {key}).Keys| == |m - {key}|;
  }

  /** `out` in front of what is still to come, unless that is an error. */
  function Joined<T>(out: seq<T>, rest: Result<seq<T>>): Result<seq<T>> {
    if rest.Err? then Err else Ok(out + rest.value)
  }

  lemma JoinedAssociates<T>(a: seq<T>, b: seq<T>, rest: Result<seq<T>>)
    ensures Joined(a, Joined(b, rest)) == Joined(a + b, rest)
    ensures Joined([], rest) == rest
  {
    if rest.Ok? {
      assert a + (b + rest.value) == (a + b) + rest.value;
      assert [] + rest.value == rest.value;
    }
  }

  /** Two byte strings agree on `[lo, hi)`. */
  predicate SameOn(a: Bytes, b: Bytes, lo: nat, hi: nat) {
    hi <= |a| && hi <= |b| && forall i :: lo <= i < hi ==> a[i] == b[i]
  }

  /** Cutting a tail into its three parts. */
  lemma CutThree<T>(data: seq<T>, offset: nat, x: seq<T>, y: seq<T>, z: seq<T>)
    requires offset <= |data| && data[offset..] == x + y + z
    ensures var p := offset + |x|; var q := p + |y|;
      q <= |data| && data[offset..p] == x && data[p..q] == y && data[q..] == z
  {
    var t := data[offset..];
    assert data[offset..offset + |x|] == t[..|x|] == x;
    assert data[offset + |x|..offset + |x| + |y|] == t[|x|..|x| + |y|] == y;
    assert data[offset + |x| + |y|..] == t[|x| + |y|..] == z;
  }
}
