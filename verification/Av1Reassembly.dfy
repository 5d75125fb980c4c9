/** The output of the AV1 depacketizer does not depend on how the OBUs were cut into packets. */
module Av1Reassembly {
  import opened Common
  import opened Leb128
  import opened Av1Depacketizer

  function CountOf(counted: bool, index: nat, elements: seq<Bytes>): nat {
    if counted then index + |elements| else 0
  }

  /** What stands at `e`: an element, the last one or not, and then the rest. */
  predicate Extends(payload: Bytes, e: Option<Extent>, element: Bytes, last: bool, rest: Bytes) {
    e.Some? && e.value.start <= e.value.end <= |payload| && payload[e.value.start..e.value.end] == element
    && e.value.last == last && payload[e.value.end..] == rest
  }

  lemma LastExtent(payload: Bytes, offset: nat, count: nat, index: nat)
    requires offset < |payload| && count == index + 1
    ensures Extends(payload, ExtentAt(payload, count, offset, index), payload[offset..], true, [])
  {
    assert payload[offset..|payload|] == payload[offset..];
  }

  lemma SizedExtent(payload: Bytes, offset: nat, count: nat, index: nat, w: Bytes, element: Bytes, rest: Bytes)
    requires offset < |payload| && (count == 0 || count > index + 1)
    requires payload[offset..] == w + element + rest && ReadLong(payload, offset) == Some(Leb(|element|, |w|))
    ensures Extends(payload, ExtentAt(payload, count, offset, index), element, count == 0 && rest == [], rest)
  {
    CutThree(payload, offset, w, element, rest);
  }

  /** The reader finds the extent of each element the sender encoded. */
  lemma ExtentOfElement(payload: Bytes, counted: bool, offset: nat, index: nat, elements: seq<Bytes>)
    requires elements != [] && NonEmptyElements(elements)
    requires offset < |payload| && payload[offset..] == EncodeElements(elements, counted)
    ensures Extends(payload, ExtentAt(payload, CountOf(counted, index, elements), offset, index), elements[0],
              |elements| == 1, EncodeElements(elements[1..], counted))
  {
    var count := CountOf(counted, index, elements);
    if counted && |elements| == 1 {
      LastExtent(payload, offset, count, index);
    } else {
      var w, rest := Write(|elements[0]|), EncodeElements(elements[1..], counted);
      CutThree(payload, offset, w, elements[0], rest);
      ReadLongWrite(payload, offset, |elements[0]|);
      SizedExtent(payload, offset, count, index, w, elements[0], rest);
    }
  }

  lemma JoinFirst(carry: Bytes, elements: seq<Bytes>, y: bool, obu: Bytes, done: seq<Whole>)
    requires elements != [] && !(|elements| == 1 && y) && obu == carry + elements[0] && done == Join(carry, elements, y).0
    ensures done != [] && done[0] == Whole(obu, |elements[0]|) && done[1..] == Join([], elements[1..], y).0
    ensures Join(carry, elements, y).1 == Join([], elements[1..], y).1
  {
  }

  /** One element of the loop: the last one with Y is kept, any other is emitted. */
  lemma LoopStep(payload: Bytes, f: Flags, counted: bool, buffer: Bytes, offset: nat, index: nat, out: Bytes,
      elements: seq<Bytes>, obu: Bytes) returns (end: nat)
    requires elements != [] && NonEmptyElements(elements) && obu == buffer + elements[0]
    requires offset < |payload| && payload[offset..] == EncodeElements(elements, counted)
    requires f.count == CountOf(counted, index, elements)
    requires index > 0 || !f.z <==> buffer == []
    ensures end <= |payload| && payload[end..] == EncodeElements(elements[1..], counted)
    ensures var o, bytes := Loop(payload, f, buffer, offset, index, out), Emit(obu, |elements[0]|);
      if |elements| == 1 && f.y then o.result == Ok(out) && o.buffer == obu
      else if bytes.None? then o.result == Err
      else if |elements| == 1 then o.result == Ok(out + bytes.value) && o.buffer == []
      else end < |payload| && o == Loop(payload, f, [], end, index + 1, out + bytes.value)
  {
    ExtentOfElement(payload, counted, offset, index, elements);
    var e := ExtentAt(payload, f.count, offset, index).value;
    end := e.end;
    assert Loop(payload, f, buffer, offset, index, out) == Element(payload, f, [], e, index, out, obu) by {
      assert buffer == [] ==> obu == elements[0];
    }
    assert |elements| > 1 ==> payload[end..] != [];
  }

  lemma EmitFirst(obu: Bytes, last: nat, done: seq<Whole>, rest: seq<Whole>, out: Bytes)
    requires done != [] && done[0] == Whole(obu, last) && done[1..] == rest
    ensures Joined(out, EmitAll(done)) ==
      if Emit(obu, last).None? then Err else Joined(out + Emit(obu, last).value, EmitAll(rest))
  {
    if Emit(obu, last).Some? {
      JoinedAssociates(out, Emit(obu, last).value, EmitAll(rest));
    }
  }

  /** One packet: the loop, whose outcome is `o`, emits the OBUs that end in it and keeps what Y leaves open. */
  lemma {:induction false} LoopJoins(payload: Bytes, f: Flags, counted: bool, buffer: Bytes, offset: nat, index: nat,
      out: Bytes, elements: seq<Bytes>, o: Outcome)
    requires elements != [] && NonEmptyElements(elements)
    requires offset < |payload| && payload[offset..] == EncodeElements(elements, counted)
    requires f.count == CountOf(counted, index, elements)
    requires index > 0 || !f.z <==> buffer == []
    requires o == Loop(payload, f, buffer, offset, index, out)
    ensures var (done, open) := Join(buffer, elements, f.y);
      o.result == Joined(out, EmitAll(done)) && (o.result.Ok? ==> o.buffer == open)
    decreases |elements|
  {
    var obu := buffer + elements[0];
    var end := LoopStep(payload, f, counted, buffer, offset, index, out, elements, obu);
    if |elements| == 1 && f.y {
      assert out + [] == out;
    } else {
      var done, rest := Join(buffer, elements, f.y).0, Join([], elements[1..], f.y).0;
      var bytes := Emit(obu, |elements[0]|);
      JoinFirst(buffer, elements, f.y, obu, done);
      EmitFirst(obu, |elements[0]|, done, rest, out);
      if bytes.Some? {
        if |elements| == 1 {
          assert out + bytes.value + [] == out + bytes.value;
        } else {
          LoopJoins(payload, f, counted, [], end, index + 1, out + bytes.value, elements[1..], o);
        }
      }
    }
  }

  lemma UnmarshalJoins(buffer: Bytes, p: Packet)
    requires LegalPacket(p) && p.z == (buffer != [])
    ensures var (done, open) := Join(buffer, p.elements, p.y);
      var o := Unmarshal(buffer, Payload(p));
      o.result == EmitAll(done) && (o.result.Ok? ==> o.buffer == open)
  {
    var payload := Payload(p);
    var f := Flags(p.z, p.y, p.w);
    HeaderFlags(p);
    assert payload[1..] == EncodeElements(p.elements, p.w != 0);
    assert |payload| > 1;
    LoopJoins(payload, f, p.w != 0, buffer, 1, 0, [], p.elements, Loop(payload, f, buffer, 1, 0, []));
    var done := Join(buffer, p.elements, p.y).0;
    assert EmitAll(done).Ok? ==> [] + EmitAll(done).value == EmitAll(done).value;
  }

  lemma HeaderFlags(p: Packet)
    requires LegalPacket(p)
    ensures var h := Payload(p)[0];
      (h >= 0x80) == p.z && (h / 64 % 2 == 1) == p.y && h / 16 % 4 == p.w && (h / 8 % 2 == 1) == p.n
  {
    HeaderBits(Bit(p.z, 1), Bit(p.y, 1), p.w, Bit(p.n, 1), p.reserved);
  }

  lemma HeaderBits(z: nat, y: nat, w: nat, n: nat, reserved: nat)
    requires z < 2 && y < 2 && w < 4 && n < 2 && reserved < 8
    ensures var h := z * 128 + y * 64 + w * 16 + n * 8 + reserved;
      h / 128 == z && h / 64 % 2 == y && h / 16 % 4 == w && h / 8 % 2 == n
  {
    var h := z * 128 + y * 64 + w * 16 + n * 8 + reserved;
    assert h / 8 == z * 16 + y * 8 + w * 2 + n;
    assert h / 16 == z * 8 + y * 4 + w;
    assert h / 64 == z * 2 + y;
  }

  lemma {:induction false} JoinOpens(carry: Bytes, elements: seq<Bytes>, y: bool)
    requires elements != [] && NonEmptyElements(elements)
    ensures y == (Join(carry, elements, y).1 != [])
    decreases |elements|
  {
    if |elements| > 1 {
      JoinOpens([], elements[1..], y);
    }
  }

  lemma {:induction false} EmitAllAppend(xs: seq<Whole>, ys: seq<Whole>)
    ensures EmitAll(xs + ys) == (if EmitAll(xs).Err? then Err else Joined(EmitAll(xs).value, EmitAll(ys)))
    decreases |xs|
  {
    if xs == [] {
      assert xs + ys == ys;
      assert EmitAll(ys).Ok? ==> [] + EmitAll(ys).value == EmitAll(ys).value;
    } else {
      assert (xs + ys)[0] == xs[0] && (xs + ys)[1..] == xs[1..] + ys;
      EmitAllAppend(xs[1..], ys);
      var b := Emit(xs[0].obu, xs[0].last);
      if b.Some? && EmitAll(xs[1..]).Ok? {
        JoinedAssociates(b.value, EmitAll(xs[1..]).value, EmitAll(ys));
      }
    }
  }

  /** A run over any legal chain of packets emits exactly the reassembled OBUs, in order. */
  lemma {:induction false} RunReassembles(buffer: Bytes, packets: seq<Packet>)
    requires LegalChain(packets, buffer != [])
    ensures forall p :: p in packets ==> LegalPacket(p)
    ensures Run(buffer, packets) == EmitAll(Reassembled(packets, buffer))
    decreases |packets|
  {
    if packets != [] {
      var p := packets[0];
      UnmarshalJoins(buffer, p);
      JoinOpens(buffer, p.elements, p.y);
      var (done, open) := Join(buffer, p.elements, p.y);
      RunReassembles(open, packets[1..]);
      EmitAllAppend(done, Reassembled(packets[1..], open));
    }
  }

  // ---------- Conservation ----------

  function AllElements(packets: seq<Packet>): Bytes {
    if packets == [] then [] else Flatten(packets[0].elements) + AllElements(packets[1..])
  }

  function Obus(wholes: seq<Whole>): (r: seq<Bytes>)
    ensures |r| == |wholes| && forall k :: 0 <= k < |r| ==> r[k] == wholes[k].obu
  {
    if wholes == [] then [] else [wholes[0].obu] + Obus(wholes[1..])
  }

  lemma {:induction false} JoinConserves(carry: Bytes, elements: seq<Bytes>, y: bool)
    ensures var (done, open) := Join(carry, elements, y); Flatten(Obus(done)) + open == carry + Flatten(elements)
    decreases |elements|
  {
    if elements != [] {
      var (done, open) := Join(carry, elements, y);
      if |elements| == 1 && y {
        FlattenOne(elements[0]);
        assert elements == [elements[0]];
      } else {
        JoinConserves([], elements[1..], y);
        var (rest, open') := Join([], elements[1..], y);
        assert done[1..] == rest && open' == open && done[0].obu == carry + elements[0];
        OneMoreObu(done, carry + elements[0], rest);
        Regroup(carry + elements[0], Flatten(Obus(rest)), open);
        Regroup(carry, elements[0], Flatten(elements[1..]));
      }
    }
  }

  lemma OneMoreObu(done: seq<Whole>, obu: Bytes, rest: seq<Whole>)
    requires done != [] && done[0].obu == obu && done[1..] == rest
    ensures Flatten(Obus(done)) == obu + Flatten(Obus(rest))
  {
    assert Obus(done) == [obu] + Obus(rest);
    assert Obus(done)[1..] == Obus(rest);
  }

  /** No byte is lost, repeated or moved: the OBUs concatenate to the elements of all packets. */
  lemma {:induction false} ReassemblyConserves(packets: seq<Packet>, carry: Bytes)
    requires LegalChain(packets, carry != [])
    ensures Flatten(Obus(Reassembled(packets, carry))) == carry + AllElements(packets)
    decreases |packets|
  {
    if packets != [] {
      var p := packets[0];
      var (done, open) := Join(carry, p.elements, p.y);
      var rest := Reassembled(packets[1..], open);
      JoinOpens(carry, p.elements, p.y);
      var head, tail := Flatten(Obus(done)), AllElements(packets[1..]);
      assert head + open == carry + Flatten(p.elements) by {
        JoinConserves(carry, p.elements, p.y);
      }
      assert Flatten(Obus(rest)) == open + tail by {
        ReassemblyConserves(packets[1..], open);
      }
      ObusAppend(done, rest);
      Regroup(head, open, tail);
      Regroup(carry, Flatten(p.elements), tail);
    }
  }

  lemma ObusJoin(xs: seq<Whole>, ys: seq<Whole>, a: seq<Bytes>, b: seq<Bytes>)
    requires a == Obus(xs) && b == Obus(ys)
    ensures Obus(xs + ys) == a + b
  {
  }

  lemma ObusAppend(xs: seq<Whole>, ys: seq<Whole>)
    ensures Flatten(Obus(xs + ys)) == Flatten(Obus(xs)) + Flatten(Obus(ys))
  {
    ObusJoin(xs, ys, Obus(xs), Obus(ys));
    FlattenAppend(Obus(xs), Obus(ys));
  }

  // ---------- Which OBUs get through ----------

  /** An OBU a sender may emit: a readable header, and a size field, if any, that spans the OBU. */
  predicate WellFormedObu(obu: Bytes) {
    var h := HeaderSize(obu);
    h.Some? && (HasSize(obu) ==>
      var size := ReadLong(obu, h.value);
      size.Some? && |obu| == h.value + size.value.length + size.value.value)
  }

  predicate Fragmented(w: Whole) {
    w.last != |w.obu|
  }

  predicate AllWellFormed(obus: seq<Bytes>) {
    forall k :: 0 <= k < |obus| ==> WellFormedObu(obus[k])
  }

  /** No OBU with a size field of its own was cut. */
  predicate SizedAreWhole(wholes: seq<Whole>) {
    forall k :: 0 <= k < |wholes| && HasSize(wholes[k].obu) ==> !Fragmented(wholes[k])
  }

  function WithSizes(obus: seq<Bytes>): seq<Bytes>
    requires AllWellFormed(obus)
  {
    if obus == [] then [] else [WithSize(obus[0])] + WithSizes(obus[1..])
  }

  lemma {:induction false} EmitAllSized(wholes: seq<Whole>)
    requires AllWellFormed(Obus(wholes))
    ensures EmitAll(wholes).Ok? <==> SizedAreWhole(wholes)
    ensures EmitAll(wholes).Ok? ==> EmitAll(wholes).value == Flatten(WithSizes(Obus(wholes)))
    decreases |wholes|
  {
    if wholes != [] {
      assert Obus(wholes)[0] == wholes[0].obu;
      assert Obus(wholes)[1..] == Obus(wholes[1..]);
      EmitAllSized(wholes[1..]);
      assert SizedAreWhole(wholes) ==> SizedAreWhole(wholes[1..]);
      assert forall k :: 1 <= k < |wholes| ==> wholes[k] == wholes[1..][k - 1];
    }
  }

  /**
   * For well-formed OBUs in any legal packets: every call succeeds if and only if no OBU that carries a size
   * field was fragmented, and then the output is every OBU with its size field, whatever the cuts.
   */
  lemma DepacketizesAnyCut(packets: seq<Packet>)
    requires LegalChain(packets, false) && AllWellFormed(Obus(Reassembled(packets, [])))
    ensures forall p :: p in packets ==> LegalPacket(p)
    ensures Run([], packets).Ok? <==> SizedAreWhole(Reassembled(packets, []))
    ensures Run([], packets).Ok? ==> Run([], packets).value == Flatten(WithSizes(Obus(Reassembled(packets, []))))
  {
    RunReassembles([], packets);
    EmitAllSized(Reassembled(packets, []));
  }

  /** Two ways of cutting the same OBUs without size fields give the same output. */
  lemma CutsDoNotMatter(packets: seq<Packet>, others: seq<Packet>, obus: seq<Bytes>)
    requires LegalChain(packets, false) && LegalChain(others, false)
    requires Obus(Reassembled(packets, [])) == obus == Obus(Reassembled(others, []))
    requires AllWellFormed(obus) && forall k :: 0 <= k < |obus| ==> !HasSize(obus[k])
    ensures forall p :: p in packets ==> LegalPacket(p)
    ensures forall p :: p in others ==> LegalPacket(p)
    ensures Run([], packets) == Run([], others) == Ok(Flatten(WithSizes(obus)))
  {
    DepacketizesAnyCut(packets);
    DepacketizesAnyCut(others);
    assert forall k :: 0 <= k < |obus| ==> obus[k] == Reassembled(packets, [])[k].obu;
    assert forall k :: 0 <= k < |obus| ==> obus[k] == Reassembled(others, [])[k].obu;
  }

  lemma TwoParts(obu: Bytes, at: nat, first: Packet, second: Packet)
    requires 0 < at < |obu|
    requires first == Packet(false, true, 1, false, 0, [obu[..at]]) && second == Packet(true, false, 1, false, 0, [obu[at..]])
    ensures LegalChain([first, second], false) && Reassembled([first, second], []) == [Whole(obu, |obu| - at)]
  {
    assert [first, second][1..] == [second] && [second][1..] == [];
    assert LegalPacket(first) && LegalPacket(second);
    assert [] + obu[..at] == obu[..at] && obu[..at] + obu[at..] == obu;
    assert Join([], first.elements, true) == ([], obu[..at]);
    assert [obu[at..]][1..] == [] && Join([], [], false) == ([], []);
    assert Join(obu[..at], second.elements, false) == ([Whole(obu, |obu| - at)] + [], []);
    assert Reassembled([second], obu[..at]) == [Whole(obu, |obu| - at)];
  }

  lemma OneWhole(w: Whole)
    ensures Obus([w]) == [w.obu] && (SizedAreWhole([w]) <==> !(HasSize(w.obu) && Fragmented(w)))
  {
    assert [w][1..] == [];
    assert [w][0] == w;
  }

  /** Every way of cutting an OBU with a size field in two is rejected. */
  lemma CutSizedIsRejected(obu: Bytes, at: nat, first: Packet, second: Packet)
    requires WellFormedObu(obu) && HasSize(obu) && 0 < at < |obu|
    requires first == Packet(false, true, 1, false, 0, [obu[..at]]) && second == Packet(true, false, 1, false, 0, [obu[at..]])
    ensures LegalChain([first, second], false) && Reassembled([first, second], []) == [Whole(obu, |obu| - at)]
    ensures Run([], [first, second]) == Err
  {
    TwoParts(obu, at, first, second);
    OneWhole(Whole(obu, |obu| - at));
    DepacketizesAnyCut([first, second]);
  }

  // ---------- When packets are lost ----------

  /** With nothing kept, the first element of a packet with Z set is passed over, and the rest is read as it stands. */
  lemma TailIsSkipped(p: Packet)
    requires LegalPacket(p) && p.z
    ensures var o, (done, open) := Unmarshal([], Payload(p)), Join([], p.elements[1..], p.y);
      o.result == EmitAll(done) && (o.result.Ok? ==> o.buffer == open)
  {
    var payload, f, rest := Payload(p), Flags(true, p.y, p.w), p.elements[1..];
    HeaderFlags(p);
    assert payload[1..] == EncodeElements(p.elements, p.w != 0) && |payload| > 1;
    ExtentOfElement(payload, p.w != 0, 1, 0, p.elements);
    var e := ExtentAt(payload, p.w, 1, 0).value;
    var o := Loop(payload, f, [], 1, 0, []);
    if rest != [] {
      assert e.end < |payload| by {
        assert payload[e.end..] == EncodeElements(rest, p.w != 0) != [];
      }
      LoopJoins(payload, f, p.w != 0, [], e.end, 1, [], rest, o);
      var done := Join([], rest, p.y).0;
      assert EmitAll(done).Ok? ==> [] + EmitAll(done).value == EmitAll(done).value;
    }
  }

  /** What is put together of a packet, with `carry` kept from the one before: without Z nothing of it is used. */
  function Heard(p: Packet, carry: Bytes): (seq<Whole>, Bytes)
    requires LegalPacket(p)
  {
    if !p.z then Join([], p.elements, p.y)
    else if carry != [] then Join(carry, p.elements, p.y)
    else Join([], p.elements[1..], p.y)
  }

  function AllHeard(packets: seq<Packet>, carry: Bytes): seq<Whole>
    requires forall p :: p in packets ==> LegalPacket(p)
    decreases |packets|
  {
    if packets == [] then []
    else
      var (done, open) := Heard(packets[0], carry);
      done + AllHeard(packets[1..], open)
  }

  lemma UnmarshalHears(buffer: Bytes, p: Packet)
    requires LegalPacket(p)
    ensures var o, (done, open) := Unmarshal(buffer, Payload(p)), Heard(p, buffer);
      o.result == EmitAll(done) && (o.result.Ok? ==> o.buffer == open)
  {
    HeaderFlags(p);
    if !p.z {
      assert Unmarshal(buffer, Payload(p)) == Unmarshal([], Payload(p));
      UnmarshalJoins([], p);
    } else if buffer != [] {
      UnmarshalJoins(buffer, p);
    } else {
      TailIsSkipped(p);
    }
  }

  /** Whatever packets come, in whatever order and after whatever loss. */
  lemma {:induction false} RunHears(buffer: Bytes, packets: seq<Packet>)
    requires forall p :: p in packets ==> LegalPacket(p)
    ensures Run(buffer, packets) == EmitAll(AllHeard(packets, buffer))
    decreases |packets|
  {
    if packets != [] {
      var (done, open) := Heard(packets[0], buffer);
      UnmarshalHears(buffer, packets[0]);
      RunHears(open, packets[1..]);
      EmitAllAppend(done, AllHeard(packets[1..], open));
    }
  }

  /** When the beginning of an OBU is lost, exactly that OBU is missing. */
  lemma {:induction false} LostBeginning(packets: seq<Packet>, carry: Bytes)
    requires carry != [] && packets != [] && LegalChain(packets, true)
    ensures forall p :: p in packets ==> LegalPacket(p)
    ensures var wholes := Reassembled(packets, carry); wholes != [] && AllHeard(packets, []) == wholes[1..]
    decreases |packets|
  {
    var p, rest := packets[0], packets[1..];
    ChainIsLegal(packets, true);
    if |p.elements| == 1 && p.y {
      LostBeginning(rest, carry + p.elements[0]);
      assert AllHeard(packets, []) == [] + AllHeard(rest, []);
    } else {
      LostAndRest(packets, carry);
    }
  }

  lemma LostAndRest(packets: seq<Packet>, carry: Bytes)
    requires carry != [] && packets != [] && LegalChain(packets, true)
    requires !(|packets[0].elements| == 1 && packets[0].y)
    requires forall p :: p in packets ==> LegalPacket(p)
    ensures var wholes := Reassembled(packets, carry); wholes != [] && AllHeard(packets, []) == wholes[1..]
  {
    var p := packets[0];
    var (done, open) := Join(carry, p.elements, p.y);
    assert Heard(p, []) == (done[1..], open);
    JoinOpens(carry, p.elements, p.y);
    ChainIsHeard(packets[1..], open);
    assert (done + Reassembled(packets[1..], open))[1..] == done[1..] + Reassembled(packets[1..], open);
  }

  /** So a receiver that missed it goes on with the next OBU, byte for byte. */
  lemma RunAfterLoss(packets: seq<Packet>, carry: Bytes)
    requires carry != [] && packets != [] && LegalChain(packets, true)
    ensures forall p :: p in packets ==> LegalPacket(p)
    ensures Reassembled(packets, carry) != [] && Run([], packets) == EmitAll(Reassembled(packets, carry)[1..])
  {
    LostBeginning(packets, carry);
    RunHears([], packets);
  }

  lemma {:induction false} ChainIsLegal(packets: seq<Packet>, open: bool)
    requires LegalChain(packets, open)
    ensures forall p :: p in packets ==> LegalPacket(p)
    decreases |packets|
  {
    if packets != [] {
      ChainIsLegal(packets[1..], packets[0].y);
    }
  }

  lemma {:induction false} ChainIsHeard(packets: seq<Packet>, carry: Bytes)
    requires LegalChain(packets, carry != [])
    ensures forall p :: p in packets ==> LegalPacket(p)
    ensures AllHeard(packets, carry) == Reassembled(packets, carry)
    decreases |packets|
  {
    if packets != [] {
      var p := packets[0];
      JoinOpens(carry, p.elements, p.y);
      ChainIsHeard(packets[1..], Join(carry, p.elements, p.y).1);
    }
  }

  /** A payload of one byte fails and changes nothing; N set or Z clear drops what was kept. */
  lemma WhatIsKept(buffer: Bytes, payload: Bytes)
    ensures |payload| < 2 ==> Unmarshal(buffer, payload) == Outcome(Err, buffer)
    ensures |payload| >= 2 && (payload[0] / 128 == 0 || payload[0] / 8 % 2 == 1)
        ==> Unmarshal(buffer, payload) == Unmarshal([], payload)
  {
  }

  /** An element of no bytes is passed over, and counted. */
  lemma EmptyElementCounts(payload: Bytes, f: Flags, buffer: Bytes, offset: nat, index: nat, out: Bytes)
    requires offset + 1 < |payload| && payload[offset] == 0 && index + 1 != f.count && (index > 0 || !f.z)
    ensures Loop(payload, f, buffer, offset, index, out) == Loop(payload, f, buffer, offset + 1, index + 1, out)
  {
  }
}
