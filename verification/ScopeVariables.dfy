/** The variables of a scope as a byte stream: written record by record into a small message buffer by
    jerry-core/debugger/debugger.c, read back by jerry-debugger/jerry_client_main.py. */
module ScopeVariables {
  import opened Words
  import opened Bytes

  const VALUE_NONE: Byte := 1
  const VALUE_FUNCTION: Byte := 7
  const LIMIT := 255

  /** A variable of the scope: its name, the type of its value, and its value as text. */
  datatype Variable = Variable(name: seq<Byte>, kind: Byte, value: seq<Byte>)

  // ---------------------------------------------------------------- the stream

  /** The text that is sent: none for a function, else at most 255 bytes. */
  function Shown(kind: Byte, text: seq<Byte>): (r: seq<Byte>)
    ensures |r| <= LIMIT
  {
    if kind == VALUE_FUNCTION then [] else if |text| > LIMIT then text[..LIMIT] else text
  }

  /** A text behind its type, if it has one, and its length. */
  function Field(kind: Byte, text: seq<Byte>): seq<Byte> {
    (if kind == VALUE_NONE then [] else [kind]) + [|Shown(kind, text)|] + Shown(kind, text)
  }

  function Stream(variables: seq<Variable>): seq<Byte> {
    if variables == [] then []
    else Field(VALUE_NONE, variables[0].name) + Field(variables[0].kind, variables[0].value) + Stream(variables[1..])
  }

  /** What the client is to see of a variable. */
  function Seen(v: Variable): Variable {
    Variable(Shown(VALUE_NONE, v.name), v.kind, Shown(v.kind, v.value))
  }

  function AllSeen(variables: seq<Variable>): seq<Variable> {
    seq(|variables|, i requires 0 <= i < |variables| => Seen(variables[i]))
  }

  // ---------------------------------------------------------------- messages

  datatype Message = Message(last: bool, data: seq<Byte>)

  function Payloads(messages: seq<Message>): (p: seq<seq<Byte>>)
    ensures |p| == |messages| && forall i | 0 <= i < |p| :: p[i] == messages[i].data
  {
    seq(|messages|, i requires 0 <= i < |messages| => messages[i].data)
  }

  /** The data of the messages in order. */
  function Received(messages: seq<Message>): seq<Byte> {
    Joined(Payloads(messages))
  }

  lemma ReceivedNext(messages: seq<Message>, m: Message)
    ensures Received([]) == []
    ensures Received(messages + [m]) == Received(messages) + m.data
  {
    hide Joined;
    NothingJoined();
    assert Payloads([]) == [];
    JoinedMore(Payloads(messages), m.data);
    assert Payloads(messages + [m]) == Payloads(messages) + [m.data];
  }

  lemma {:induction false} StreamAppend(variables: seq<Variable>, v: Variable)
    ensures Stream(variables + [v]) == Stream(variables) + (Field(VALUE_NONE, v.name) + Field(v.kind, v.value))
  {
    if variables == [] {
      assert variables + [v] == [v] && [v][1..] == [];
    } else {
      assert (variables + [v])[1..] == variables[1..] + [v] && (variables + [v])[0] == variables[0];
      StreamAppend(variables[1..], v);
      var head, tail, next := Field(VALUE_NONE, variables[0].name) + Field(variables[0].kind, variables[0].value),
                              Stream(variables[1..]), Field(VALUE_NONE, v.name) + Field(v.kind, v.value);
      assert head + (tail + next) == (head + tail) + next;
    }
  }

  // ---------------------------------------------------------------- the writer

  /** The message that is being filled, and the messages that have been sent. */
  class Writer {
    const buffer: array<Byte>
    var pos: nat
    var sent: seq<Message>

    ghost predicate Valid()
      reads this
    {
      && buffer.Length >= 1 && pos <= buffer.Length
      && forall m | m in sent :: !m.last && |m.data| == buffer.Length
    }

    /** Everything written so far. */
    ghost function Written(): seq<Byte>
      reads this, buffer
      requires Valid()
    {
      Received(sent) + buffer[..pos]
    }

    constructor (size: nat)
      requires size >= 1
      ensures Valid() && Written() == [] && buffer.Length == size && fresh(buffer)
    {
      buffer := new Byte[size];
      pos, sent := 0, [];
    }

    /** A full message leaves. */
    method SendFull()
      requires Valid() && pos == buffer.Length
      modifies this
      ensures Valid() && pos == 0 && Written() == old(Written())
    {
      ghost var before := sent;
      sent := sent + [Message(false, buffer[..])];
      ReceivedNext(before, Message(false, buffer[..]));
      assert buffer[..] == buffer[..pos];
      pos := 0;
    }

    method PutByte(b: Byte)
      requires Valid() && pos < buffer.Length
      modifies this`pos, buffer
      ensures Valid() && pos == old(pos) + 1 && Written() == old(Written()) + [b]
    {
      buffer[pos] := b;
      pos := pos + 1;
      assert buffer[..pos] == old(buffer[..pos]) + [b];
    }

    method PutBytes(data: seq<Byte>)
      requires Valid() && pos + |data| <= buffer.Length
      modifies this`pos, buffer
      ensures Valid() && pos == old(pos) + |data| && Written() == old(Written()) + data
    {
      ghost var s := buffer[..];
      CopyInto(buffer, pos, data);
      SpliceAgrees(s, pos, data);
      assert buffer[..pos + |data|] == s[..pos] + data;
      pos := pos + |data|;
    }

    /** The first loop of jerry_debugger_copy_variables_to_string_message: the type and the length. */
    method CopyHeader(kind: Byte, text: seq<Byte>) returns (size: nat)
      requires Valid()
      modifies this, buffer
      ensures Valid() && size == |Shown(kind, text)|
      ensures Written() == old(Written()) + ((if kind == VALUE_NONE then [] else [kind]) + [|Shown(kind, text)|])
    {
      hide Written;
      ghost var start := Written();
      ghost var tag := if kind == VALUE_NONE then [] else [kind];
      var typeProcessed := false;
      while true
        invariant Valid() && Written() == start + if typeProcessed then tag else []
        decreases !typeProcessed
      {
        if pos == buffer.Length {
          SendFull();
        }
        if !typeProcessed {
          if kind != VALUE_NONE {
            PutByte(kind);
          }
          typeProcessed := true;
          continue;
        }
        if kind == VALUE_FUNCTION {
          size := 0;
        } else {
          size := if |text| > LIMIT then LIMIT else |text|;
        }
        PutByte(size);
        assert (start + tag) + [size as Byte] == start + (tag + [size as Byte]);
        return;
      }
    }

    /** The second loop: the text, over as many messages as it takes. */
    method CopyText(text: seq<Byte>, total: nat)
      requires Valid() && total <= |text|
      modifies this, buffer
      ensures Valid() && Written() == old(Written()) + text[..total]
    {
      hide Written;
      ghost var start := Written();
      var size := total;
      var free := buffer.Length - pos;
      var from := 0;
      while size > free
        invariant Valid() && free == buffer.Length - pos && size == total - from && 0 <= from <= total
        invariant Written() == start + text[..from]
        decreases size, pos
      {
        PutBytes(text[from..from + free]);
        assert (start + text[..from]) + text[from..from + free] == start + text[..from + free];
        SendFull();
        from := from + free;
        size := size - free;
        free := buffer.Length;
      }
      PutBytes(text[from..from + size]);
      assert (start + text[..from]) + text[from..from + size] == start + text[..total];
    }

    /** `jerry_debugger_copy_variables_to_string_message` */
    method CopyVariable(kind: Byte, text: seq<Byte>)
      requires Valid()
      modifies this, buffer
      ensures Valid() && Written() == old(Written()) + Field(kind, text)
    {
      hide Written;
      ghost var start, header := Written(), (if kind == VALUE_NONE then [] else [kind]) + [|Shown(kind, text)|];
      var size := CopyHeader(kind, text);
      CopyText(text, size);
      assert text[..size] == Shown(kind, text);
      assert (start + header) + Shown(kind, text) == start + (header + Shown(kind, text));
    }

    /** `jerry_debugger_send_scope_variables`: only full messages before exactly one last message, and together
        they carry the stream of the variables; a scope index out of range has no variables. */
    method SendVariables(found: bool, variables: seq<Variable>) returns (messages: seq<Message>)
      requires Valid() && Written() == [] && sent == []
      modifies this, buffer
      ensures messages != [] && messages[|messages| - 1].last && |messages[|messages| - 1].data| <= buffer.Length
      ensures forall i | 0 <= i < |messages| - 1 :: !messages[i].last && |messages[i].data| == buffer.Length
      ensures Received(messages) == if found then Stream(variables) else []
    {
      if !found {
        ReceivedNext([], Message(true, []));
        return [Message(true, [])];
      }
      CopyAll(variables);
      messages := sent + [Message(true, buffer[..pos])];
      ReceivedNext(sent, Message(true, buffer[..pos]));
    }

    method CopyAll(variables: seq<Variable>)
      requires Valid() && Written() == []
      modifies this, buffer
      ensures Valid() && Written() == Stream(variables)
    {
      hide Written, Field, Stream;
      EmptyStream();
      for i := 0 to |variables|
        invariant Valid() && Written() == Stream(variables[..i])
      {
        ghost var v, done := variables[i], Stream(variables[..i]);
        CopyVariable(VALUE_NONE, variables[i].name);
        CopyVariable(variables[i].kind, variables[i].value);
        StreamAppend(variables[..i], v);
        assert variables[..i + 1] == variables[..i] + [v];
        assert (done + Field(VALUE_NONE, v.name)) + Field(v.kind, v.value)
            == done + (Field(VALUE_NONE, v.name) + Field(v.kind, v.value));
      }
      assert variables[..|variables|] == variables;
    }
  }

  lemma EmptyStream()
    ensures Stream([]) == []
  {
  }

  // ---------------------------------------------------------------- the reader

  datatype Parsed = Table(variables: seq<Variable>) | IndexError

  /** One row of the table and the position behind it; an index past the end is an IndexError, a slice past the end
      is cut. A row that runs past the end makes the next index fail. */
  datatype Row = Row(variable: Variable, next: nat) | NoRow

  function ReadRow(s: seq<Byte>, pos: nat): (r: Row)
    requires pos < |s|
    ensures r.Row? ==> pos < r.next <= |s|
  {
    var p := pos + 1 + s[pos] as nat;
    if p + 1 >= |s| then NoRow
    else
      var q := p + 2 + s[p + 1] as nat;
      if q > |s| then NoRow else Row(Variable(s[pos + 1..p], s[p], s[p + 2..q]), q)
  }

  function Parse(s: seq<Byte>, pos: nat): Parsed
    requires pos <= |s|
    decreases |s| - pos
  {
    if pos == |s| then Table([])
    else match ReadRow(s, pos)
      case NoRow => IndexError
      case Row(variable, next) =>
        match Parse(s, next)
        case IndexError => IndexError
        case Table(rest) => Table([variable] + rest)
  }

  /** `s[from:from + n]` */
  function Sliced(s: seq<Byte>, from: nat, n: nat): seq<Byte> {
    if from > |s| then [] else if from + n > |s| then s[from..] else s[from..from + n]
  }

  function Prepend(table: seq<Variable>, parsed: Parsed): Parsed {
    match parsed
    case IndexError => IndexError
    case Table(rest) => Table(table + rest)
  }

  lemma {:induction false} ParseNext(s: seq<Byte>, pos: nat, table: seq<Variable>)
    requires pos < |s|
    ensures ReadRow(s, pos).NoRow? ==> Prepend(table, Parse(s, pos)) == IndexError
    ensures ReadRow(s, pos).Row? ==> var r := ReadRow(s, pos);
              Prepend(table, Parse(s, pos)) == Prepend(table + [r.variable], Parse(s, r.next))
  {
    var r := ReadRow(s, pos);
    if r.Row? && Parse(s, r.next).Table? {
      var rest := Parse(s, r.next).variables;
      assert table + ([r.variable] + rest) == (table + [r.variable]) + rest;
    }
  }

  /** `JerryDebugger._process_scope_variables` */
  method ProcessScopeVariables(s: seq<Byte>) returns (r: Parsed)
    ensures r == Parse(s, 0)
  {
    hide Parse;
    var pos := 0;
    var table := [];
    EmptyPrefix(Parse(s, 0));
    ParseEnd(s);
    while pos != |s|
      invariant 0 <= pos <= |s| && Parse(s, 0) == Prepend(table, Parse(s, pos))
      decreases |s| - pos
    {
      ghost var start := pos;
      ParseNext(s, pos, table);
      var nameLength := s[pos] as nat;
      pos := pos + 1;
      var name := Sliced(s, pos, nameLength);
      pos := pos + nameLength;
      if pos >= |s| {
        return IndexError;
      }
      var kind := s[pos];
      pos := pos + 1;
      if pos >= |s| {
        return IndexError;
      }
      var valueLength := s[pos] as nat;
      pos := pos + 1;
      var value := Sliced(s, pos, valueLength);
      pos := pos + valueLength;
      if pos > |s| {
        return IndexError;
      }
      assert ReadRow(s, start) == Row(Variable(name, kind, value), pos);
      table := table + [Variable(name, kind, value)];
    }
    assert table + [] == table;
    return Table(table);
  }

  lemma EmptyPrefix(parsed: Parsed)
    ensures Prepend([], parsed) == parsed
  {
    if parsed.Table? {
      assert [] + parsed.variables == parsed.variables;
    }
  }

  lemma {:induction false} ParseEnd(s: seq<Byte>)
    ensures Parse(s, |s|) == Table([])
  {
  }

  /** Reading a stream gives back every variable in order, as far as it is shown. */
  lemma {:induction false} ParseStream(s: seq<Byte>, pos: nat, variables: seq<Variable>)
    requires pos <= |s| && s[pos..] == Stream(variables) && forall v | v in variables :: v.kind != VALUE_NONE
    ensures Parse(s, pos) == Table(AllSeen(variables))
    decreases |variables|
  {
    if variables == [] {
      assert |s[pos..]| == 0;
      return;
    }
    var v, rest := variables[0], variables[1..];
    FieldsRead(s, pos, v, Stream(rest));
    hide Stream, Field, ReadRow;
    var next := ReadRow(s, pos).next;
    ParseStream(s, next, rest);
    assert AllSeen(variables) == [Seen(v)] + AllSeen(rest);
  }

  lemma RowParts(t: seq<Byte>, name: seq<Byte>, kind: Byte, value: seq<Byte>, rest: seq<Byte>)
    requires |name| <= LIMIT && |value| <= LIMIT && t == [|name|] + name + [kind, |value|] + value + rest
    ensures var p := 1 + |name|;
            && |t| >= p + 2 + |value| && t[0] == |name| && t[p] == kind && t[p + 1] == |value|
            && t[1..p] == name && t[p + 2..p + 2 + |value|] == value && t[p + 2 + |value|..] == rest
  {
  }

  lemma RowRead(s: seq<Byte>, pos: nat, name: seq<Byte>, kind: Byte, value: seq<Byte>, rest: seq<Byte>)
    requires |name| <= LIMIT && |value| <= LIMIT && pos < |s|
    requires s[pos..] == [|name|] + name + [kind, |value|] + value + rest
    ensures ReadRow(s, pos) == Row(Variable(name, kind, value), pos + 3 + |name| + |value|)
    ensures s[ReadRow(s, pos).next..] == rest
  {
    var t, p, n := s[pos..], 1 + |name|, |value|;
    RowParts(t, name, kind, value, rest);
    assert s[pos] == t[0] && s[pos + p] == t[p] && s[pos + p + 1] == t[p + 1];
    assert s[pos + 1..pos + p] == t[1..p];
    assert s[pos + p + 2..pos + p + 2 + n] == t[p + 2..p + 2 + n];
    assert s[pos + p + 2 + n..] == t[p + 2 + n..];
  }

  lemma FieldsRead(s: seq<Byte>, pos: nat, v: Variable, rest: seq<Byte>)
    requires pos <= |s| && v.kind != VALUE_NONE
    requires s[pos..] == Field(VALUE_NONE, v.name) + Field(v.kind, v.value) + rest
    ensures pos < |s| && ReadRow(s, pos).Row? && ReadRow(s, pos).variable == Seen(v)
    ensures s[ReadRow(s, pos).next..] == rest
  {
    hide Shown, ReadRow;
    var name, value := Shown(VALUE_NONE, v.name), Shown(v.kind, v.value);
    assert s[pos..] == [|name|] + name + [v.kind, |value|] + value + rest;
    RowRead(s, pos, name, v.kind, value, rest);
  }

  /** However the records fall across messages: the client reads from the joined messages what the server wrote. */
  lemma {:induction false} ScopeArrives(messages: seq<Message>, variables: seq<Variable>)
    requires Received(messages) == Stream(variables) && forall v | v in variables :: v.kind != VALUE_NONE
    ensures Parse(Received(messages), 0) == Table(AllSeen(variables))
  {
    assert Received(messages)[0..] == Stream(variables);
    ParseStream(Received(messages), 0, variables);
  }
}
