/** Stateful reassembly of AV1 RTP payloads (av1_depacketizer_preserve.go). */
module Av1Depacketizer {
  import opened Common
  import opened Leb128

  // ---------- The OBU codec the depacketizer calls ----------

  /** The library's LEB128 reader, which has no 32-bit cut. */
  function ReadLong(data: Bytes, offset: nat): (r: Option<Leb>)
    ensures r.Some? ==> r.value.length > 0 && offset + r.value.length <= |data|
    decreases |data| - offset
  {
    if offset >= |data| then None
    else if data[offset] < 128 then Some(Leb(data[offset], 1))
    else
      match ReadLong(data, offset + 1)
      case None => None
      case Some(rest) => Some(Leb(data[offset] % 128 + 128 * rest.value, rest.length + 1))
  }

  lemma {:induction false} ReadLongWrite(data: Bytes, offset: nat, v: nat)
    requires At(data, offset, Write(v))
    ensures ReadLong(data, offset) == Some(Leb(v, |Write(v)|))
    decreases v
  {
    assert data[offset..offset + |Write(v)|][0] == Write(v)[0];
    if v >= 128 {
      assert data[offset + 1..offset + 1 + |Write(v / 128)|] == Write(v)[1..];
      ReadLongWrite(data, offset + 1, v / 128);
    }
  }

  /** Length of the OBU header at the start of `obu`, or `None` when the library rejects it. */
  function HeaderSize(obu: Bytes): (r: Option<nat>)
    ensures r.Some? ==> 1 <= r.value <= |obu|
  {
    if |obu| < 1 || obu[0] >= 0x80 then None
    else if obu[0] / 4 % 2 == 1 then (if |obu| < 2 then None else Some(2))
    else Some(1)
  }

  predicate HasSize(obu: Bytes) {
    |obu| >= 1 && obu[0] / 2 % 2 == 1
  }

  /** The OBU with its size field: kept as it is, or inserted after the header. */
  function WithSize(obu: Bytes): Bytes
    requires HeaderSize(obu).Some?
  {
    var h := HeaderSize(obu).value;
    if HasSize(obu) then obu else [obu[0] + 2] + obu[1..h] + Write(|obu| - h) + obu[h..]
  }

  /** What one finished OBU adds to the output; `last` is the length of its last element. */
  function Emit(obu: Bytes, last: nat): Option<Bytes> {
    match HeaderSize(obu)
    case None => None
    case Some(h) =>
      if !HasSize(obu) then Some(WithSize(obu))
      else
        match ReadLong(obu, h)
        case None => None
        case Some(size) => if last != h + size.value + size.length then None else Some(obu)
  }

  // ---------- Unmarshal ----------

  /** The result of a call and the fragment it keeps. */
  datatype Outcome = Outcome(result: Result<Bytes>, buffer: Bytes)

  /** Extent of an element and whether it is the last one of its packet. */
  datatype Extent = Extent(start: nat, end: nat, last: bool)

  function ExtentAt(payload: Bytes, count: nat, offset: nat, index: nat): (r: Option<Extent>)
    requires offset < |payload|
    ensures r.Some? ==> offset <= r.value.start <= r.value.end <= |payload| && offset < r.value.end
  {
    if count != 0 && index == count - 1 then Some(Extent(offset, |payload|, true))
    else
      match ReadLong(payload, offset)
      case None => None
      case Some(len) =>
        var start := offset + len.length;
        if start + len.value > |payload| then None
        else Some(Extent(start, start + len.value, count == 0 && start + len.value == |payload|))
  }

  function Finish(count: nat, index: nat, out: Bytes, buffer: Bytes): Outcome {
    Outcome(if count != 0 && index != count - 1 then Err else Ok(out), buffer)
  }

  /** The aggregation header's flags and count. */
  datatype Flags = Flags(z: bool, y: bool, count: nat)

  function Loop(payload: Bytes, f: Flags, buffer: Bytes, offset: nat, index: nat, out: Bytes): Outcome
    requires offset <= |payload|
    decreases |payload| - offset, 1
  {
    if offset == |payload| then Finish(f.count, index, out, buffer)
    else
      match ExtentAt(payload, f.count, offset, index)
      case None => Outcome(Err, buffer)
      case Some(e) =>
        var element := payload[e.start..e.end];
        if index > 0 || !f.z then Element(payload, f, buffer, e, index, out, element)
        else if buffer != [] then Element(payload, f, [], e, index, out, buffer + element)
        else if e.last then Finish(f.count, index, out, buffer)
        else Loop(payload, f, buffer, e.end, index + 1, out)
  }

  /** The rest of an iteration, once the element at `e` has been joined with the kept fragment. */
  function Element(payload: Bytes, f: Flags, buffer: Bytes, e: Extent, index: nat, out: Bytes, obu: Bytes): Outcome
    requires e.start <= e.end <= |payload|
    decreases |payload| - e.end, 2
  {
    if e.last && f.y then Finish(f.count, index, out, obu)
    else if obu == [] then Loop(payload, f, buffer, e.end, index + 1, out)
    else
      match Emit(obu, e.end - e.start)
      case None => Outcome(Err, buffer)
      case Some(bytes) =>
        if e.last then Finish(f.count, index, out + bytes, buffer)
        else Loop(payload, f, buffer, e.end, index + 1, out + bytes)
  }

  /** One call: aggregation header, then the elements (section 4.4 of the RTP payload format for AV1). */
  function Unmarshal(buffer: Bytes, payload: Bytes): Outcome {
    if |payload| <= 1 then Outcome(Err, buffer)
    else
      var z, y, w, n := payload[0] >= 0x80, payload[0] / 64 % 2 == 1, payload[0] / 16 % 4, payload[0] / 8 % 2 == 1;
      Loop(payload, Flags(z, y, w), if n || !z then [] else buffer, 1, 0, [])
  }

  class Depacketizer {
    var buffer: Bytes
    var Z: bool
    var Y: bool
    var N: bool

    constructor ()
      ensures buffer == []
    {
      buffer, Z, Y, N := [], false, false, false;
    }

    method UnmarshalPayload(payload: Bytes) returns (r: Result<Bytes>)
      modifies this
      ensures Outcome(r, buffer) == Unmarshal(old(buffer), payload)
    {
      if |payload| <= 1 {
        return Err;
      }
      var obuZ, obuY := payload[0] >= 0x80, payload[0] / 64 % 2 == 1;
      var obuCount, obuN := payload[0] / 16 % 4, payload[0] / 8 % 2 == 1;
      Z, Y, N := obuZ, obuY, obuN;
      if obuN {
        buffer := [];
      }
      if !obuZ && |buffer| > 0 {
        buffer := [];
      }
      r := Elements(payload, Flags(obuZ, obuY, obuCount));
    }

    method Elements(payload: Bytes, f: Flags) returns (r: Result<Bytes>)
      requires |payload| > 1
      modifies this`buffer
      ensures Outcome(r, buffer) == Loop(payload, f, old(buffer), 1, 0, [])
    {
      ghost var want := Loop(payload, f, buffer, 1, 0, []);
      var out: Bytes, offset, obuOffset := [], 1, 0;
      while offset < |payload|
        invariant offset <= |payload|
        invariant Loop(payload, f, buffer, offset, obuOffset, out) == want
        decreases |payload| - offset
      {
        var e := ExtentAt(payload, f.count, offset, obuOffset);
        if e.None? {
          return Err;
        }
        var element := payload[e.value.start..e.value.end];
        offset := e.value.end;
        if obuOffset == 0 && f.z {
          if |buffer| == 0 {
            if e.value.last {
              break;
            }
            obuOffset := obuOffset + 1;
            continue;
          }
          element := buffer + element;
          buffer := [];
        }
        assert Element(payload, f, buffer, e.value, obuOffset, out, element) == want;
        if e.value.last && f.y {
          buffer := element;
          break;
        }
        assert |element| == 0 ==> Loop(payload, f, buffer, offset, obuOffset + 1, out) == want;
        if |element| != 0 {
          var bytes := Emit(element, e.value.end - e.value.start);
          if bytes.None? {
            return Err;
          }
          out := out + bytes.value;
          if e.value.last {
            break;
          }
        }
        obuOffset := obuOffset + 1;
      }
      assert Finish(f.count, obuOffset, out, buffer) == want;
      if f.count != 0 && obuOffset != f.count - 1 {
        return Err;
      }
      r := Ok(out);
    }
  }

  // ---------- Legal packets ----------

  /** A packet as a sender composes it; `w` is 0 (every element has a length) or the element count. */
  datatype Packet = Packet(z: bool, y: bool, w: nat, n: bool, reserved: nat, elements: seq<Bytes>)

  predicate NonEmptyElements(elements: seq<Bytes>) {
    forall k :: 0 <= k < |elements| ==> elements[k] != []
  }

  predicate LegalPacket(p: Packet) {
    && p.elements != [] && NonEmptyElements(p.elements)
    && (p.w == 0 || p.w == |p.elements|) && p.w < 4 && p.reserved < 8
    && !(p.n && p.z)
  }

  function EncodeElements(elements: seq<Bytes>, counted: bool): (r: Bytes)
    ensures elements != [] && NonEmptyElements(elements) ==> r != []
  {
    if elements == [] then []
    else if counted && |elements| == 1 then elements[0]
    else Write(|elements[0]|) + elements[0] + EncodeElements(elements[1..], counted)
  }

  function Bit(b: bool, weight: nat): nat {
    if b then weight else 0
  }

  function Payload(p: Packet): Bytes
    requires LegalPacket(p)
  {
    [Bit(p.z, 128) + Bit(p.y, 64) + p.w * 16 + Bit(p.n, 8) + p.reserved] + EncodeElements(p.elements, p.w != 0)
  }

  /** The packets of one or more whole OBUs: Z continues exactly what Y left open. */
  predicate LegalChain(packets: seq<Packet>, open: bool) {
    if packets == [] then !open
    else LegalPacket(packets[0]) && packets[0].z == open && LegalChain(packets[1..], packets[0].y)
  }

  /** A reassembled OBU and the length of its last fragment. */
  datatype Whole = Whole(obu: Bytes, last: nat)

  /** The OBUs of one packet, the first one continuing `carry`, and what it leaves open. */
  function Join(carry: Bytes, elements: seq<Bytes>, y: bool): (seq<Whole>, Bytes)
    decreases |elements|
  {
    if elements == [] then ([], carry)
    else if |elements| == 1 && y then ([], carry + elements[0])
    else
      var (rest, open) := Join([], elements[1..], y);
      ([Whole(carry + elements[0], |elements[0]|)] + rest, open)
  }

  /** The OBUs of a chain of packets, whatever the cuts. */
  function Reassembled(packets: seq<Packet>, carry: Bytes): seq<Whole>
    decreases |packets|
  {
    if packets == [] then []
    else
      var (done, open) := Join(carry, packets[0].elements, packets[0].y);
      done + Reassembled(packets[1..], open)
  }

  function EmitAll(wholes: seq<Whole>): Result<Bytes>
    decreases |wholes|
  {
    if wholes == [] then Ok([])
    else
      match Emit(wholes[0].obu, wholes[0].last)
      case None => Err
      case Some(bytes) =>
        match EmitAll(wholes[1..])
        case Err => Err
        case Ok(rest) => Ok(bytes + rest)
  }

  /** All payloads in a row; an error of any call is an error of the run. */
  function Run(buffer: Bytes, packets: seq<Packet>): Result<Bytes>
    requires forall p :: p in packets ==> LegalPacket(p)
    decreases |packets|
  {
    if packets == [] then Ok([])
    else
      var o := Unmarshal(buffer, Payload(packets[0]));
      match o.result
      case Err => Err
      case Ok(out) =>
        match Run(o.buffer, packets[1..])
        case Err => Err
        case Ok(rest) => Ok(out + rest)
  }
}
