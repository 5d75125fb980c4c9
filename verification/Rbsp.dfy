/** Emulation prevention (section 7.4.1 of ITU-T H.264): addRBSPEscaping and removeRBSPEscaping. */
module Rbsp {
  import opened Common

  const EMULATION: Byte := 3

  /** Escaping after `zeros` consecutive zero bytes. */
  function EscapeFrom(data: Bytes, zeros: nat): Bytes {
    if data == [] then []
    else
      var b := data[0];
      if b <= EMULATION && zeros >= 2 then [EMULATION] + ([b] + EscapeFrom(data[1..], if b == 0 then 1 else 0))
      else [b] + EscapeFrom(data[1..], if b == 0 then zeros + 1 else 0)
  }

  function Escape(data: Bytes): Bytes {
    if |data| < 3 then data else EscapeFrom(data, 0)
  }

  predicate EscapeHere(data: Bytes) {
    |data| > 3 && data[0] == 0 && data[1] == 0 && data[2] == EMULATION && data[3] <= EMULATION
  }

  function Unescape(data: Bytes): Bytes {
    if data == [] then []
    else if EscapeHere(data) then [0, 0] + Unescape(data[3..])
    else [data[0]] + Unescape(data[1..])
  }

  /** One byte escaped. */
  lemma EscapeOne(out: Bytes, data: Bytes, zeros: nat)
    requires data != []
    ensures var b := data[0]; var inserted := b <= EMULATION && zeros >= 2;
      var next := if b != 0 then 0 else if inserted then 1 else zeros + 1;
      out + EscapeFrom(data, zeros) == (if inserted then out + [EMULATION] else out) + [b] + EscapeFrom(data[1..], next)
  {
    var b := data[0];
    if b <= EMULATION && zeros >= 2 {
      var tail := EscapeFrom(data[1..], if b == 0 then 1 else 0);
      assert out + ([EMULATION] + ([b] + tail)) == out + [EMULATION] + [b] + tail;
    } else {
      var tail := EscapeFrom(data[1..], if b == 0 then zeros + 1 else 0);
      assert out + ([b] + tail) == out + [b] + tail;
    }
  }

  method AddRbspEscaping(data: Bytes) returns (out: Bytes)
    ensures out == Escape(data)
  {
    if |data| < 3 {
      return data;
    }
    out := [];
    var zeros := 0;
    for k := 0 to |data|
      invariant zeros >= 0 && out + EscapeFrom(data[k..], zeros) == EscapeFrom(data, 0)
    {
      var b := data[k];
      assert data[k..][1..] == data[k + 1..];
      ghost var before, was := out, zeros;
      if b <= EMULATION && zeros >= 2 {
        out := out + [EMULATION];
        zeros := 0;
      }
      out := out + [b];
      zeros := if b == 0 then zeros + 1 else 0;
      EscapeOne(before, data[k..], was);
    }
    assert data[|data|..] == [];
  }

  method RemoveRbspEscaping(data: Bytes) returns (out: Bytes)
    ensures out == Unescape(data)
  {
    if |data| < 3 {
      UnescapeShort(data);
      return data;
    }
    out := [];
    var i := 0;
    while i < |data|
      invariant i <= |data| && out + Unescape(data[i..]) == Unescape(data)
    {
      if i + 2 < |data| && data[i] == 0 && data[i + 1] == 0 && data[i + 2] == EMULATION {
        if i + 3 < |data| && data[i + 3] <= EMULATION {
          assert EscapeHere(data[i..]) && data[i..][3..] == data[i + 3..];
          assert out + ([0, 0] + Unescape(data[i + 3..])) == (out + [0, 0]) + Unescape(data[i + 3..]);
          out := out + [0, 0];
          i := i + 3;
          continue;
        }
      }
      assert !EscapeHere(data[i..]) && data[i..][1..] == data[i + 1..];
      assert out + ([data[i]] + Unescape(data[i + 1..])) == (out + [data[i]]) + Unescape(data[i + 1..]);
      out := out + [data[i]];
      i := i + 1;
    }
  }

  lemma UnescapeShort(data: Bytes)
    requires |data| < 3
    ensures Unescape(data) == data
  {
    if data != [] {
      assert data == [data[0]] + data[1..];
      UnescapeShort(data[1..]);
    }
  }

  // ---------- Round trip ----------

  /** The zeros the escaper has emitted since the last non-zero or inserted byte; never more than two. */
  function Zeros(n: nat): (z: Bytes)
    requires n <= 2
    ensures |z| == n
  {
    if n == 0 then [] else if n == 1 then [0] else [0, 0]
  }

  /** What the receiver has ahead of it: the pending zeros, then the rest of the escaped bytes. */
  function Pending(data: Bytes, n: nat): Bytes
    requires n <= 2
  {
    Zeros(n) + EscapeFrom(data, n)
  }

  lemma ZerosNext(n: nat, rest: Bytes)
    requires n < 2
    ensures Zeros(n + 1) + rest == Zeros(n) + ([0] + rest)
  {
    Regroup(Zeros(n), [0], rest);
    assert Zeros(n) + [0] == Zeros(n + 1);
  }

  lemma NoZeros(rest: Bytes)
    ensures Zeros(0) + rest == rest
  {
  }

  lemma PendingInsert(b: Byte, rest: Bytes)
    requires b <= EMULATION
    ensures b == 0 ==> Pending([b] + rest, 2) == [0, 0, EMULATION] + Pending(rest, 1)
    ensures b > 0 ==> Pending([b] + rest, 2) == [0, 0, EMULATION] + ([b] + Pending(rest, 0))
  {
    var next := if b == 0 then 1 else 0;
    var tail := [b] + EscapeFrom(rest, next);
    assert EscapeFrom([b] + rest, 2) == [EMULATION] + tail by {
      assert ([b] + rest)[0] == b && ([b] + rest)[1..] == rest;
    }
    Regroup([0, 0], [EMULATION], tail);
    assert [0, 0] + [EMULATION] == [0, 0, EMULATION];
    assert b > 0 ==> Pending(rest, 0) == EscapeFrom(rest, 0);
  }

  lemma PendingZero(rest: Bytes, n: nat)
    requires n < 2
    ensures Pending([0] + rest, n) == Pending(rest, n + 1)
  {
    assert ([0] + rest)[1..] == rest;
    assert Pending([0] + rest, n) == Zeros(n) + ([0] + EscapeFrom(rest, n + 1));
  }

  lemma PendingOther(b: Byte, rest: Bytes, n: nat)
    requires n <= 2 && b > 0 && (n == 2 ==> b > EMULATION)
    ensures Pending([b] + rest, n) == Zeros(n) + ([b] + Pending(rest, 0))
  {
    assert ([b] + rest)[1..] == rest;
    assert Pending(rest, 0) == EscapeFrom(rest, 0);
  }

  lemma UnescapeOne(b: Byte, tail: Bytes)
    requires !EscapeHere([b] + tail)
    ensures Unescape([b] + tail) == [b] + Unescape(tail)
  {
    assert ([b] + tail)[1..] == tail;
  }

  /** The last two bytes stay, if the first of them cannot be an inserted one. */
  lemma {:induction false} LastTwoStay(data: Bytes)
    requires |data| >= 2 && data[|data| - 2] != EMULATION
    ensures |Unescape(data)| >= 2 && Unescape(data)[|Unescape(data)| - 2] == data[|data| - 2]
    decreases |data|
  {
    if EscapeHere(data) {
      LastTwoStay(data[3..]);
    } else if |data| == 2 {
      assert data[1..] == [data[1]] && [data[1]][1..] == [];
      assert Unescape([data[1]]) == [data[1]];
    } else {
      LastTwoStay(data[1..]);
    }
  }

  /** A non-zero byte after at most two zeros, none of it an escape, passes through. */
  lemma UnescapePlain(n: nat, b: Byte, rest: Bytes)
    requires n <= 2 && b != 0 && (n == 2 ==> b > EMULATION)
    ensures Unescape(Zeros(n) + ([b] + rest)) == Zeros(n) + ([b] + Unescape(rest))
  {
    var tail, plain := [b] + rest, [b] + Unescape(rest);
    assert Unescape(tail) == plain by { UnescapeOne(b, rest); }
    if n == 0 {
      assert Zeros(0) + tail == tail && Zeros(0) + plain == plain;
    } else if n == 1 {
      UnescapeOne(0, tail);
      assert Zeros(1) + tail == [0] + tail && Zeros(1) + plain == [0] + plain;
    } else {
      UnescapeBehindZeros(b, tail);
      assert Zeros(2) + tail == [0] + ([0] + tail) && Zeros(2) + plain == [0] + ([0] + plain);
    }
  }

  lemma UnescapeBehindZeros(b: Byte, tail: Bytes)
    requires b > EMULATION && tail != [] && tail[0] == b
    ensures Unescape([0] + ([0] + tail)) == [0] + ([0] + Unescape(tail))
  {
    UnescapeOne(0, tail);
    UnescapeOne(0, [0] + tail);
  }

  lemma UnescapeInserted(tail: Bytes)
    requires tail != [] && tail[0] <= EMULATION
    ensures Unescape([0, 0, EMULATION] + tail) == [0, 0] + Unescape(tail)
  {
    var all := [0, 0, EMULATION] + tail;
    assert all[..3] == [0, 0, EMULATION] && all[3..] == tail;
  }

  lemma {:induction false} UnescapePending(data: Bytes, n: nat)
    requires n <= 2
    ensures Unescape(Pending(data, n)) == Zeros(n) + data
    decreases |data|
  {
    if data == [] {
      UnescapeShort(Pending(data, n));
    } else {
      var b, rest := data[0], data[1..];
      assert data == [b] + rest;
      NoZeros(rest);
      if n == 2 && b == 0 {
        PendingInsert(0, rest);
        UnescapePending(rest, 1);
        UnescapeInserted(Pending(rest, 1));
      } else if n == 2 && b <= EMULATION {
        UnescapePending(rest, 0);
        UnescapeSmall(b, rest);
      } else if b == 0 {
        PendingZero(rest, n);
        UnescapePending(rest, n + 1);
        ZerosNext(n, rest);
      } else {
        PendingOther(b, rest, n);
        UnescapePending(rest, 0);
        UnescapePlain(n, b, Pending(rest, 0));
      }
    }
  }

  lemma UnescapeSmall(b: Byte, rest: Bytes)
    requires 0 < b <= EMULATION && Unescape(Pending(rest, 0)) == rest
    ensures Unescape(Pending([b] + rest, 2)) == Zeros(2) + ([b] + rest)
  {
    PendingInsert(b, rest);
    var tail := Pending(rest, 0);
    UnescapeInserted([b] + tail);
    UnescapeOne(b, tail);
  }

  lemma EscapeIsPending(data: Bytes)
    ensures Escape(data) == Pending(data, 0)
  {
    assert Pending(data, 0) == EscapeFrom(data, 0);
    if |data| == 1 {
      assert EscapeFrom(data[1..], if data[0] == 0 then 1 else 0) == [];
    } else if |data| == 2 {
      assert data[1..] == [data[1]] && data[1..][1..] == [];
      assert EscapeFrom([], 0) == EscapeFrom([], 1) == EscapeFrom([], 2) == [];
    }
  }

  /** Unescaping undoes escaping, for every byte string. */
  lemma RoundTrip(data: Bytes)
    ensures Unescape(Escape(data)) == data
  {
    EscapeIsPending(data);
    UnescapePending(data, 0);
    assert Zeros(0) + data == data;
  }

  // ---------- What unescaping removes ----------

  /** An emulation prevention byte: a 3 with 00 00 in front of it and a byte up to 3 behind it. */
  predicate Inserted(data: Bytes, i: nat) {
    2 <= i && i + 1 < |data| && data[i - 2] == 0 && data[i - 1] == 0 && data[i] == 3 && data[i + 1] <= 3
  }

  /** The bytes from `i` on but for those. */
  function Remaining(data: Bytes, i: nat): Bytes
    requires i <= |data|
    decreases |data| - i
  {
    if i == |data| then [] else (if Inserted(data, i) then [] else [data[i]]) + Remaining(data, i + 1)
  }

  lemma EscapeStep(data: Bytes, i: nat)
    requires i < |data|
    ensures Unescape(data[i..])
      == if Inserted(data, i + 2) then [0, 0] + Unescape(data[i + 3..]) else [data[i]] + Unescape(data[i + 1..])
  {
    var tail := data[i..];
    assert EscapeHere(tail) == Inserted(data, i + 2);
    assert tail[1..] == data[i + 1..] && (|tail| > 3 ==> tail[3..] == data[i + 3..]);
  }

  /** Two zeros and an inserted byte. */
  lemma RemainingSkips(data: Bytes, i: nat)
    requires Inserted(data, i + 2) && !Inserted(data, i) && !Inserted(data, i + 1)
    ensures Remaining(data, i) == [0, 0] + Remaining(data, i + 3) && !Inserted(data, i + 3) && !Inserted(data, i + 4)
  {
    assert Remaining(data, i) == [0] + Remaining(data, i + 1);
    assert Remaining(data, i + 1) == [0] + Remaining(data, i + 2);
    assert Remaining(data, i + 2) == Remaining(data, i + 3);
  }

  lemma {:induction false} UnescapeFrom(data: Bytes, i: nat)
    requires i <= |data| && !Inserted(data, i) && !Inserted(data, i + 1)
    ensures Unescape(data[i..]) == Remaining(data, i)
    decreases |data| - i
  {
    if i < |data| {
      EscapeStep(data, i);
      if Inserted(data, i + 2) {
        RemainingSkips(data, i);
        UnescapeFrom(data, i + 3);
      } else {
        UnescapeFrom(data, i + 1);
      }
    }
  }

  /** Unescaping removes exactly the emulation prevention bytes, of any bytes whatever. */
  lemma UnescapeRemoves(data: Bytes)
    ensures Unescape(data) == Remaining(data, 0)
  {
    assert data[0..] == data;
    UnescapeFrom(data, 0);
  }

  // ---------- Escaped bytes hold no start code ----------

  /** No 00 00 00, 00 00 01 or 00 00 02 starts at `i`. */
  predicate CleanAt(data: Bytes, i: nat) {
    i + 2 < |data| && data[i] == 0 && data[i + 1] == 0 ==> data[i + 2] >= 3
  }

  predicate Clean(data: Bytes) {
    forall i :: 0 <= i < |data| ==> CleanAt(data, i)
  }

  /** Cleanness survives putting a clean tail after `head`, as long as the seam is clean. */
  lemma CleanSeam(head: Bytes, tail: Bytes)
    requires Clean(tail)
    requires forall i :: 0 <= i < |head| ==> CleanAt(head + tail, i)
    ensures Clean(head + tail)
  {
    forall i | |head| <= i < |head + tail|
      ensures CleanAt(head + tail, i)
    {
      assert CleanAt(tail, i - |head|);
    }
  }

  lemma {:induction false} PendingIsClean(data: Bytes, n: nat)
    requires n <= 2
    ensures Clean(Pending(data, n))
    decreases |data|
  {
    if data != [] {
      var b, rest := data[0], data[1..];
      assert data == [b] + rest;
      if n == 2 && b <= EMULATION {
        PendingInsert(b, rest);
        if b == 0 {
          PendingIsClean(rest, 1);
          CleanSeam([0, 0, EMULATION], Pending(rest, 1));
        } else {
          PendingIsClean(rest, 0);
          CleanSeam([b], Pending(rest, 0));
          CleanSeam([0, 0, EMULATION], [b] + Pending(rest, 0));
        }
      } else if b == 0 {
        PendingZero(rest, n);
        PendingIsClean(rest, n + 1);
      } else {
        PendingOther(b, rest, n);
        PendingIsClean(rest, 0);
        CleanSeam([b], Pending(rest, 0));
        CleanSeam(Zeros(n), [b] + Pending(rest, 0));
      }
    }
  }

  lemma EscapedIsClean(data: Bytes)
    ensures Clean(Escape(data))
  {
    EscapeIsPending(data);
    PendingIsClean(data, 0);
  }

  // ---------- The receiver notices every change ----------

  predicate HasEscapeBytes(data: Bytes) {
    exists i :: 0 <= i < |data| - 2 && EscapeAt(data, i)
  }

  predicate EscapeAt(data: Bytes, i: nat)
    requires i + 2 < |data|
  {
    data[i] == 0 && data[i + 1] == 0 && data[i + 2] == 3
  }

  method HasRbspEscapeBytes(data: Bytes) returns (r: bool)
    ensures r == HasEscapeBytes(data)
  {
    for i := 0 to if |data| > 2 then |data| - 2 else 0
      invariant forall k :: 0 <= k < i ==> !EscapeAt(data, k)
    {
      if data[i] == 0 && data[i + 1] == 0 && data[i + 2] == EMULATION {
        assert EscapeAt(data, i);
        return true;
      }
    }
    return false;
  }

  lemma HasEscapeAfter(head: Bytes, tail: Bytes)
    requires HasEscapeBytes(tail)
    ensures HasEscapeBytes(head + tail)
  {
    var i :| 0 <= i < |tail| - 2 && EscapeAt(tail, i);
    assert EscapeAt(head + tail, |head| + i);
  }

  lemma {:induction false} PendingChange(data: Bytes, n: nat)
    requires n <= 2
    ensures Pending(data, n) == Zeros(n) + data || (HasEscapeBytes(Pending(data, n)) && |Pending(data, n)| > n + |data|)
    decreases |data|
  {
    if data != [] {
      var b, rest := data[0], data[1..];
      assert data == [b] + rest;
      NoZeros(rest);
      if n == 2 && b <= EMULATION {
        PendingInsert(b, rest);
        PendingChange(rest, if b == 0 then 1 else 0);
        assert EscapeAt(Pending(data, n), 0);
      } else if b == 0 {
        PendingZero(rest, n);
        PendingChange(rest, n + 1);
        ZerosNext(n, rest);
      } else {
        PendingOther(b, rest, n);
        PendingChange(rest, 0);
        if Pending(rest, 0) != rest {
          HasEscapeAfter([b], Pending(rest, 0));
          HasEscapeAfter(Zeros(n), [b] + Pending(rest, 0));
        }
      }
    }
  }

  /** Escaping either leaves the bytes alone, or shows: an escape is found and unescaping shortens. */
  lemma ChangeIsNoticed(data: Bytes)
    ensures Escape(data) != data ==> HasEscapeBytes(Escape(data)) && |Unescape(Escape(data))| < |Escape(data)|
  {
    EscapeIsPending(data);
    PendingChange(data, 0);
    RoundTrip(data);
    assert Zeros(0) + data == data;
  }
}
