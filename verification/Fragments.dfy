/** Payloads that are longer than a message: the client cuts them (`JerryDebugger._send_string`), the server puts
    them together again (`jerry_debugger_process_message`). */
module Fragments {
  import opened Words
  import opened Bytes

  const CLIENT_SOURCE: Byte := 8
  const CLIENT_SOURCE_PART: Byte := 9
  const EVAL: Byte := 17
  const EVAL_PART: Byte := 18
  const FIRST_HEADER := 5 // type and size
  const MIN_MESSAGE_SIZE := 64 // JERRY_DEBUGGER_TRANSPORT_MIN_BUFFER_SIZE

  // ---------------------------------------------------------------- cutting

  function Encode32(w: Word): (r: seq<Byte>)
    ensures |r| == 4
  {
    [w % 0x100, w / 0x100 % 0x100, w / 0x1_0000 % 0x100, w / 0x100_0000]
  }

  lemma Encode32Reads(m: seq<Byte>, w: Word)
    requires |m| >= 5 && m[1..5] == Encode32(w)
    ensures Get32(m, 1) == w
  {
    WordBytes(w);
    assert m[1] == m[1..5][0] && m[2] == m[1..5][1] && m[3] == m[1..5][2] && m[4] == m[1..5][3];
  }

  function PartType(first: Byte): Byte {
    if first == EVAL then EVAL_PART else CLIENT_SOURCE_PART
  }

  /** The parts that carry the bytes of a payload behind its first message. */
  function Parts(rest: seq<Byte>, part: Byte, max: nat): seq<seq<Byte>>
    requires max >= 2
    decreases |rest|
  {
    if rest == [] then []
    else
      var n := Smaller(max - 1, |rest|);
      [[part] + rest[..n]] + Parts(rest[n..], part, max)
  }

  /** All messages of a payload. */
  function Cut(payload: seq<Byte>, first: Byte, max: nat): seq<seq<Byte>>
    requires max > MIN_MESSAGE_SIZE && |payload| < 0x1_0000_0000
  {
    var n := Smaller(max - FIRST_HEADER, |payload|);
    [[first] + Encode32(|payload|) + payload[..n]] + Parts(payload[n..], PartType(first), max)
  }

  /** `JerryDebugger._send_string`, from the encoded payload on. */
  method SendString(payload: seq<Byte>, first: Byte, max: nat) returns (messages: seq<seq<Byte>>)
    requires max > MIN_MESSAGE_SIZE && |payload| < 0x1_0000_0000
    ensures messages == Cut(payload, first, max)
  {
    var size := |payload|;
    var maxFragment := Smaller(max - FIRST_HEADER, size);
    var header := [first] + Encode32(size);
    if size == maxFragment {
      assert payload[..size] == payload && payload[size..] == [];
      return [header + payload];
    }
    messages := [header + payload[..maxFragment]];
    hide Cut, Parts, Encode32;
    var offset := maxFragment;
    maxFragment := max - 1;
    while offset < size
      invariant 0 <= offset <= size
      invariant messages + Parts(payload[offset..], PartType(first), max) == Cut(payload, first, max)
    {
      var next := Smaller(maxFragment, size - offset);
      PartsFrom(payload, offset, PartType(first), max);
      ghost var before, rest := messages, Parts(payload[offset + next..], PartType(first), max);
      messages := messages + [[PartType(first)] + payload[offset..offset + next]];
      assert messages + rest == before + ([[PartType(first)] + payload[offset..offset + next]] + rest);
      offset := offset + next;
    }
    NoParts(payload[offset..], PartType(first), max);
  }

  lemma {:induction false} PartsFrom(payload: seq<Byte>, offset: nat, part: Byte, max: nat)
    requires max >= 2 && offset < |payload|
    ensures var n := Smaller(max - 1, |payload| - offset);
            Parts(payload[offset..], part, max)
            == [[part] + payload[offset..offset + n]] + Parts(payload[offset + n..], part, max)
  {
    var n := Smaller(max - 1, |payload| - offset);
    assert payload[offset..][..n] == payload[offset..offset + n] && payload[offset..][n..] == payload[offset + n..];
  }

  lemma {:induction false} NoParts(rest: seq<Byte>, part: Byte, max: nat)
    requires max >= 2 && |rest| == 0
    ensures Parts(rest, part, max) == []
  {
  }

  // ---------------------------------------------------------------- putting together

  /** What the server holds between two messages. */
  datatype Holding = Idle | Collecting(part: Byte, size: nat, got: seq<Byte>)

  datatype Verdict = Refused | More | Complete(payload: seq<Byte>)

  /** `jerry_debugger_process_message` for the messages that carry payloads, in a mode that allows them. The
      transport layer never delivers more than the agreed maximum. */
  function Take(h: Holding, m: seq<Byte>, max: nat): (Holding, Verdict)
    requires m != [] && |m| <= max && max > MIN_MESSAGE_SIZE
  {
    match h
    case Collecting(part, size, got) =>
      if m[0] != part || |m| < 2 || |m| - 1 > size - |got| then (Idle, Refused)
      else if |m| - 1 < size - |got| then (Collecting(part, size, got + m[1..]), More)
      else (Idle, Complete(got + m[1..]))
    case Idle =>
      if m[0] == EVAL then
        if |m| < FIRST_HEADER + 5 then (Idle, Refused)
        else if Get32(m, 1) as int <= max - FIRST_HEADER then
          if Get32(m, 1) as int != |m| - FIRST_HEADER then (Idle, Refused) else (Idle, Complete(m[FIRST_HEADER..]))
        else (Collecting(EVAL_PART, Get32(m, 1), m[FIRST_HEADER..]), More)
      else if m[0] == CLIENT_SOURCE then
        if |m| <= FIRST_HEADER then (Idle, Refused)
        else if Get32(m, 1) as int <= max - FIRST_HEADER && Get32(m, 1) as int != |m| - FIRST_HEADER then (Idle, Refused)
        else if Get32(m, 1) as int != |m| - FIRST_HEADER then (Collecting(CLIENT_SOURCE_PART, Get32(m, 1), m[FIRST_HEADER..]), More)
        else (Idle, Complete(m[FIRST_HEADER..]))
      else (Idle, Refused)
  }

  /** Between two messages of a payload at least one byte is there and at least one is missing. */
  predicate Underway(h: Holding) {
    h.Collecting? ==> 0 < |h.got| < h.size
  }

  /** The messages lead from h to the end of the payload: all but the last ask for more, the last completes it. */
  predicate LeadsTo(h: Holding, messages: seq<seq<Byte>>, max: nat, payload: seq<Byte>)
    requires max > MIN_MESSAGE_SIZE
    decreases |messages|
  {
    && messages != [] && messages[0] != [] && |messages[0]| <= max && Underway(h)
    && var (next, verdict) := Take(h, messages[0], max);
       if |messages| == 1 then next == Idle && verdict == Complete(payload)
       else verdict == More && next.Collecting? && LeadsTo(next, messages[1..], max, payload)
  }

  lemma {:induction false} PartsLead(got: seq<Byte>, rest: seq<Byte>, part: Byte, max: nat)
    requires max > MIN_MESSAGE_SIZE && got != [] && rest != []
    ensures LeadsTo(Collecting(part, |got| + |rest|, got), Parts(rest, part, max), max, got + rest)
    decreases |rest|
  {
    var n := Smaller(max - 1, |rest|);
    var m, more := [part] + rest[..n], rest[n..];
    var messages := Parts(rest, part, max);
    assert m[1..] == rest[..n];
    assert messages[0] == m && messages[1..] == Parts(more, part, max);
    if more == [] {
      assert rest[..n] == rest;
    } else {
      PartsLead(got + rest[..n], more, part, max);
      assert (got + rest[..n]) + more == got + rest;
      assert Parts(more, part, max) != [];
    }
  }

  /** Every payload arrives: the server accepts all messages, acts once, on the last one, and on exactly the bytes
      that were sent. An evaluation holds a scope index and its kind, a source at least the end of its name. */
  lemma {:induction false} PayloadArrives(payload: seq<Byte>, first: Byte, max: nat)
    requires max > MIN_MESSAGE_SIZE && |payload| < 0x1_0000_0000
    requires (first == EVAL && |payload| >= 5) || (first == CLIENT_SOURCE && |payload| >= 1)
    ensures LeadsTo(Idle, Cut(payload, first, max), max, payload)
  {
    var n := Smaller(max - FIRST_HEADER, |payload|);
    var m := [first] + Encode32(|payload|) + payload[..n];
    var messages := Cut(payload, first, max);
    assert m[1..5] == Encode32(|payload|) && m[FIRST_HEADER..] == payload[..n];
    Encode32Reads(m, |payload|);
    assert messages[0] == m && messages[1..] == Parts(payload[n..], PartType(first), max);
    if n < |payload| {
      PartsLead(payload[..n], payload[n..], PartType(first), max);
      assert payload[..n] + payload[n..] == payload;
    } else {
      assert payload[n..] == [] && payload[..n] == payload;
    }
  }

  // ---------------------------------------------------------------- the server's code

  /** The data block of a payload that is under way: `message_data_p` and `expected_message_type_p`. */
  class Assembler {
    const max: nat
    var expectedType: Byte
    var data: array<Byte>
    var offset: nat

    ghost predicate Valid()
      reads this
    {
      max > MIN_MESSAGE_SIZE && offset <= data.Length
    }

    function Held(): Holding
      reads this, data
      requires Valid()
    {
      if expectedType == 0 then Idle else Collecting(expectedType, data.Length, data[..offset])
    }

    constructor (max: nat)
      requires max > MIN_MESSAGE_SIZE
      ensures Valid() && Held() == Idle && this.max == max
    {
      this.max := max;
      expectedType, offset := 0, 0;
      data := new Byte[0];
    }

    /** The part of the function that continues a payload. */
    method TakePart(m: seq<Byte>) returns (verdict: Verdict)
      requires Valid() && m != [] && |m| <= max && expectedType != 0
      modifies this, data
      ensures Valid() && (Held(), verdict) == Take(old(Held()), m, max)
    {
      if m[0] != expectedType || |m| < 2 || |m| - 1 > data.Length - offset {
        expectedType := 0;
        return Refused;
      }
      var size := |m| - 1;
      ghost var before := data[..];
      CopyInto(data, offset, m[1..]);
      SpliceAgrees(before, offset, m[1..]);
      assert data[..offset + size] == before[..offset] + m[1..];
      if size < data.Length - offset {
        offset := offset + size;
        return More;
      }
      assert data[..] == data[..offset + size];
      expectedType := 0;
      return Complete(data[..]);
    }

    /** Lines 925-1032: the first message of a payload. */
    method TakeFirst(m: seq<Byte>) returns (verdict: Verdict)
      requires Valid() && m != [] && |m| <= max && expectedType == 0
      modifies this, data
      ensures Valid() && (Held(), verdict) == Take(old(Held()), m, max)
      ensures data == old(data) || fresh(data)
    {
      if m[0] == EVAL {
        if |m| < FIRST_HEADER + 5 {
          return Refused;
        }
        var size := Get32(m, 1) as int;
        if size <= max - FIRST_HEADER {
          if size != |m| - FIRST_HEADER {
            return Refused;
          }
          return Complete(m[FIRST_HEADER..]);
        }
        Store(m, size, EVAL_PART);
        return More;
      }
      if m[0] == CLIENT_SOURCE {
        if |m| <= FIRST_HEADER {
          return Refused;
        }
        var size := Get32(m, 1) as int;
        if size <= max - FIRST_HEADER && size != |m| - FIRST_HEADER {
          return Refused;
        }
        if size == |m| - FIRST_HEADER {
          return Complete(m[FIRST_HEADER..]);
        }
        Store(m, size, CLIENT_SOURCE_PART);
        return More;
      }
      return Refused;
    }

    /** A data block is allocated for the whole payload and its beginning is copied. */
    method Store(m: seq<Byte>, size: nat, part: Byte)
      requires Valid() && |m| >= FIRST_HEADER && |m| - FIRST_HEADER <= size && part != 0
      modifies this
      ensures Valid() && Held() == Collecting(part, size, m[FIRST_HEADER..]) && fresh(data)
    {
      data := new Byte[size];
      ghost var before := data[..];
      CopyInto(data, 0, m[FIRST_HEADER..]);
      SpliceAgrees(before, 0, m[FIRST_HEADER..]);
      offset := |m| - FIRST_HEADER;
      assert data[..offset] == m[FIRST_HEADER..];
      expectedType := part;
    }
  }
}
