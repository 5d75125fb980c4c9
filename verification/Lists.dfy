/** Selecting elements of a list, as the filtering loops of media_pipeline.go do. */
module Lists {

  /** The elements that satisfy `keep`, in order. */
  function Select<T(!new)>(s: seq<T>, keep: T -> bool): (r: seq<T>)
    ensures forall x :: x in r <==> x in s && keep(x)
  {
    if s == [] then [] else (if keep(s[0]) then [s[0]] else []) + Select(s[1..], keep)
  }

  lemma {:induction false} SelectAppend<T(!new)>(a: seq<T>, b: seq<T>, keep: T -> bool)
    ensures Select(a + b, keep) == Select(a, keep) + Select(b, keep)
  {
    if a == [] {
      assert a + b == b;
    } else {
      assert (a + b)[1..] == a[1..] + b;
      SelectAppend(a[1..], b, keep);
    }
  }

  lemma {:induction false} SelectsCommute<T(!new)>(s: seq<T>, f: T -> bool, g: T -> bool)
    ensures Select(Select(s, f), g) == Select(Select(s, g), f)
  {
    if s != [] {
      SelectsCommute(s[1..], f, g);
      var a := if f(s[0]) then [s[0]] else [];
      var b := if g(s[0]) then [s[0]] else [];
      SelectAppend(a, Select(s[1..], f), g);
      SelectAppend(b, Select(s[1..], g), f);
    }
  }

  lemma SelectOne<T(!new)>(x: T, keep: T -> bool)
    ensures Select([x], keep) == if keep(x) then [x] else []
  {
    assert [x][1..] == [];
  }

  lemma SelectNext<T(!new)>(s: seq<T>, i: nat, keep: T -> bool)
    requires i < |s|
    ensures Select(s[..i + 1], keep) == Select(s[..i], keep) + if keep(s[i]) then [s[i]] else []
  {
    assert s[..i + 1] == s[..i] + [s[i]];
    SelectAppend(s[..i], [s[i]], keep);
    SelectOne(s[i], keep);
  }
}
