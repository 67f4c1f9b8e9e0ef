/** The functions and breakpoints a debugger client knows, jerry-debugger/jerry_client_main.py. */
module ClientIndex {
  /** `JerryBreakpoint`; of its function only what identifies it. */
  class Breakpoint {
    const line: nat
    const offset: nat
    const byteCode: nat
    const sourceName: string
    var activeIndex: int

    constructor (line: nat, offset: nat, byteCode: nat, sourceName: string)
      ensures this.line == line && this.offset == offset && this.byteCode == byteCode && this.sourceName == sourceName
      ensures activeIndex == -1
    {
      this.line, this.offset, this.byteCode, this.sourceName := line, offset, byteCode, sourceName;
      activeIndex := -1;
    }
  }

  /** `JerryFunction`, which does not change once it is made. */
  datatype Function = Function(byteCode: nat, name: string, sourceName: string, sourceLines: nat, firstLine: nat,
                               lines: map<nat, Breakpoint>)

  type Functions = map<nat, Function>

  /** What a breakpoint is asked for by, and what a pending one waits for. */
  datatype Target = AtLine(source: string, line: Positive) | AtFunction(name: string)

  type Positive = n: int | n > 0 witness 1

  datatype Message =
    | UpdateBreakpoint(enable: bool, byteCode: nat, offset: nat)
    | FreeByteCode(byteCode: nat)
    | ParserConfig(enable: bool)

  // ---------------------------------------------------------------- what the server makes of the messages

  function Applied(enabled: set<(nat, nat)>, m: Message): set<(nat, nat)> {
    match m
    case UpdateBreakpoint(enable, code, offset) => if enable then enabled + {(code, offset)} else enabled - {(code, offset)}
    case FreeByteCode(code) => set b | b in enabled && b.0 != code
    case ParserConfig(_) => enabled
  }

  /** The breakpoints that are enabled in the byte code behind these messages. */
  function EnabledBy(log: seq<Message>): set<(nat, nat)> {
    if log == [] then {} else Applied(EnabledBy(log[..|log| - 1]), log[|log| - 1])
  }

  /** Whether the server waits after parsing. */
  predicate Waits(log: seq<Message>) {
    log != [] && var last := log[|log| - 1]; if last.ParserConfig? then last.enable else Waits(log[..|log| - 1])
  }

  lemma {:induction false} Sent(log: seq<Message>, m: Message)
    ensures EnabledBy(log + [m]) == Applied(EnabledBy(log), m)
    ensures Waits(log + [m]) == if m.ParserConfig? then m.enable else Waits(log)
  {
    assert (log + [m])[..|log|] == log;
  }

  // ---------------------------------------------------------------- agreement of the indexes

  predicate Live(functions: Functions, b: Breakpoint) {
    && b.byteCode in functions && b.line in functions[b.byteCode].lines
    && functions[b.byteCode].lines[b.line] == b
  }

  /** The breakpoints that can be set. */
  ghost function Listed(functions: Functions): set<Breakpoint> {
    set code, line | code in functions && line in functions[code].lines :: functions[code].lines[line]
  }

  /** The breakpoints of a function are at their lines and have different offsets. */
  predicate Proper(code: nat, f: Function) {
    && (forall line | line in f.lines :: f.lines[line].line == line && f.lines[line].byteCode == code)
    && (forall line, other | line in f.lines && other in f.lines && line != other :: f.lines[line].offset != f.lines[other].offset)
  }

  predicate AllProper(functions: Functions) {
    forall code | code in functions :: Proper(code, functions[code])
  }

  lemma ListedIsLive(functions: Functions, b: Breakpoint)
    requires AllProper(functions)
    ensures b in Listed(functions) <==> Live(functions, b)
  {
  }

  predicate Distinct(s: seq<Breakpoint>) {
    forall i, j | 0 <= i < j < |s| :: s[i] != s[j]
  }

  type Items = map<nat, seq<Breakpoint>>

  predicate LineOf(functions: Functions, line: nat, s: seq<Breakpoint>) {
    s != [] && Distinct(s) && forall b | b in s :: b.line == line && Live(functions, b)
  }

  predicate Holds(items: Items, b: Breakpoint) {
    b.line in items && b in items[b.line]
  }

  /** At every line exactly the breakpoints that live functions have there, each once. */
  predicate LinesAgree(functions: Functions, items: Items) {
    && (forall line | line in items :: LineOf(functions, line, items[line]))
    && (forall code, line | code in functions && line in functions[code].lines :: Holds(items, functions[code].lines[line]))
  }

  /** The last place of a line. */
  function LastOf(lines: seq<nat>, line: nat): (k: nat)
    requires line in lines
    ensures k < |lines| && lines[k] == line && line !in lines[k + 1..]
  {
    if lines[|lines| - 1] == line then |lines| - 1 else LastOf(lines[..|lines| - 1], line)
  }

  lemma {:induction false} LastOfMore(lines: seq<nat>, i: nat, line: nat)
    requires i < |lines|
    ensures lines[i] == line ==> LastOf(lines[..i + 1], line) == i
    ensures lines[i] != line && line in lines[..i] ==> LastOf(lines[..i + 1], line) == LastOf(lines[..i], line)
    ensures line in lines[..i + 1] <==> line in lines[..i] || line == lines[i]
  {
    assert lines[..i + 1][..i] == lines[..i] && lines[..i + 1] == lines[..i] + [lines[i]];
  }

  /** The constructor of `JerryFunction`: of the breakpoints of a line the last one can be set. */
  method NewFunction(byteCode: nat, name: string, sourceName: string, sourceLines: nat, lines: seq<nat>, offsets: seq<nat>)
    returns (f: Function)
    requires 0 < |lines| <= |offsets| && forall i, j | 0 <= i < j < |offsets| :: offsets[i] != offsets[j]
    ensures f == Function(byteCode, name, sourceName, sourceLines, lines[0], f.lines)
    ensures Proper(byteCode, f) && f.firstLine in f.lines
    ensures forall line :: line in f.lines <==> line in lines
    ensures forall line | line in f.lines :: f.lines[line].offset == offsets[LastOf(lines, line)]
    ensures forall line | line in f.lines :: fresh(f.lines[line]) && f.lines[line].activeIndex == -1
  {
    hide MadeFrom, LastOf;
    var made: map<nat, Breakpoint> := map[];
    NothingMade(lines, offsets, byteCode);
    for i := 0 to |lines|
      invariant MadeFrom(made, lines[..i], offsets, byteCode)
      invariant forall line | line in made :: fresh(made[line]) && made[line].activeIndex == -1
    {
      var b := new Breakpoint(lines[i], offsets[i], byteCode, sourceName);
      MadeMore(made, lines, i, offsets, byteCode, b);
      made := made[lines[i] := b];
    }
    assert lines[..|lines|] == lines;
    f := Function(byteCode, name, sourceName, sourceLines, lines[0], made);
    MadeIsProper(made, lines, offsets, byteCode, f);
  }

  predicate MadeFrom(made: map<nat, Breakpoint>, lines: seq<nat>, offsets: seq<nat>, byteCode: nat) {
    && |lines| <= |offsets|
    && (forall line | line in made :: line in lines)
    && (forall line | line in lines :: line in made)
    && forall line | line in made ::
         made[line].line == line && made[line].byteCode == byteCode && made[line].offset == offsets[LastOf(lines, line)]
  }

  lemma NothingMade(lines: seq<nat>, offsets: seq<nat>, byteCode: nat)
    ensures MadeFrom(map[], lines[..0], offsets, byteCode)
  {
  }

  lemma MadeMore(made: map<nat, Breakpoint>, lines: seq<nat>, i: nat, offsets: seq<nat>, byteCode: nat, b: Breakpoint)
    requires i < |lines| <= |offsets| && MadeFrom(made, lines[..i], offsets, byteCode)
    requires b.line == lines[i] && b.offset == offsets[i] && b.byteCode == byteCode
    ensures MadeFrom(made[lines[i] := b], lines[..i + 1], offsets, byteCode)
  {
    hide LastOf;
    forall line: nat {
      LastOfMore(lines, i, line);
    }
  }

  lemma {:induction false} MadeIsProper(made: map<nat, Breakpoint>, lines: seq<nat>, offsets: seq<nat>, byteCode: nat, f: Function)
    requires MadeFrom(made, lines, offsets, byteCode) && f.lines == made && lines != [] && f.firstLine == lines[0]
    requires forall i, j | 0 <= i < j < |offsets| :: offsets[i] != offsets[j]
    ensures Proper(byteCode, f) && f.firstLine in f.lines
    ensures forall line :: line in made <==> line in lines
    ensures forall line | line in made :: made[line].offset == offsets[LastOf(lines, line)]
  {
    hide LastOf;
    assert lines[0] in lines;
    forall line, other | line in made && other in made && line != other
      ensures made[line].offset != made[other].offset
    {
      var i, j := LastOf(lines, line), LastOf(lines, other);
      assert i != j;
    }
  }

  /** The i-th breakpoint of a function can be set if and only if no later one is on its line. */
  lemma SettableExactly(lines: seq<nat>, offsets: seq<nat>, i: nat)
    requires i < |lines| <= |offsets| && forall k, j | 0 <= k < j < |offsets| :: offsets[k] != offsets[j]
    ensures (exists line | line in lines :: offsets[LastOf(lines, line)] == offsets[i])
            <==> forall j | i < j < |lines| :: lines[j] != lines[i]
  {
    hide LastOf;
    assert lines[i] in lines;
    if line :| line in lines && offsets[LastOf(lines, line)] == offsets[i] {
      assert LastOf(lines, line) == i;
    }
    if forall j | i < j < |lines| :: lines[j] != lines[i] {
      assert LastOf(lines, lines[i]) == i;
    }
  }

  /** Breakpoints at offsets 8 and 12 of line 5: the one at 12 can be set, the one at 8 cannot. */
  method SharedLine() returns (f: Function)
    ensures f.lines.Keys == {5} && f.lines[5].offset == 12
    ensures forall line | line in f.lines :: f.lines[line].offset != 8
  {
    assert LastOf([5, 5], 5) == 1 && 5 in [5, 5];
    f := NewFunction(0, "f", "source", 1, [5, 5], [8, 12]);
  }

  // ---------------------------------------------------------------- Multimap

  function IndexOf(s: seq<Breakpoint>, b: Breakpoint): (i: nat)
    requires b in s
    ensures i < |s| && s[i] == b
  {
    if s[0] == b then 0 else 1 + IndexOf(s[1..], b)
  }

  function Inserted(items: Items, key: nat, value: Breakpoint): Items {
    items[key := (if key in items then items[key] else []) + [value]]
  }

  /** A list of one goes whatever it holds. */
  function Deleted(items: Items, key: nat, value: Breakpoint): Items
    requires key in items && (|items[key]| == 1 || value in items[key])
  {
    if |items[key]| == 1 then items - {key}
    else var i := IndexOf(items[key], value); items[key := items[key][..i] + items[key][i + 1..]]
  }

  class Multimap {
    var items: Items

    constructor ()
      ensures items == map[]
    {
      items := map[];
    }

    method Get(key: nat) returns (r: seq<Breakpoint>)
      ensures r == if key in items then items[key] else []
    {
      if key in items {
        return items[key];
      }
      return [];
    }

    method Insert(key: nat, value: Breakpoint)
      modifies this
      ensures items == Inserted(old(items), key, value)
    {
      if key in items {
        items := items[key := items[key] + [value]];
      } else {
        assert [] + [value] == [value];
        items := items[key := [value]];
      }
    }

    method Delete(key: nat, value: Breakpoint)
      requires key in items && (|items[key]| == 1 || value in items[key])
      modifies this
      ensures items == Deleted(old(items), key, value)
    {
      if |items[key]| == 1 {
        items := items - {key};
      } else {
        var i := IndexOf(items[key], value);
        items := items[key := items[key][..i] + items[key][i + 1..]];
      }
    }
  }

  /** The functions with one more breakpoint, or one less. */
  function With(functions: Functions, b: Breakpoint): Functions
    requires b.byteCode in functions
  {
    var f := functions[b.byteCode];
    functions[b.byteCode := f.(lines := f.lines[b.line := b])]
  }

  function Without(functions: Functions, b: Breakpoint): Functions
    requires b.byteCode in functions
  {
    var f := functions[b.byteCode];
    functions[b.byteCode := f.(lines := f.lines - {b.line})]
  }

  lemma InsertAgrees(functions: Functions, items: Items, b: Breakpoint)
    requires b.byteCode in functions && b.line !in functions[b.byteCode].lines
    requires AllProper(functions) && LinesAgree(functions, items)
    ensures LinesAgree(With(functions, b), Inserted(items, b.line, b))
  {
    var after, now := With(functions, b), Inserted(items, b.line, b);
    forall line: nat | line in now
      ensures LineOf(after, line, now[line])
    {
      forall x: Breakpoint | x in now[line]
        ensures x.line == line && Live(after, x)
      {
        assert x != b ==> LineOf(functions, line, items[line]) && Live(functions, x);
      }
      if line in items {
        assert LineOf(functions, line, items[line]);
        assert !Live(functions, b) && b !in items[line];
      }
    }
    forall code, line | code in after && line in after[code].lines
      ensures Holds(now, after[code].lines[line])
    {
      var x := after[code].lines[line];
      if x != b {
        assert code in functions && line in functions[code].lines && x == functions[code].lines[line];
        assert Holds(items, x);
      }
    }
  }

  /** The list of the line is never one of something else: the breakpoint is in it. */
  lemma DeleteAgrees(functions: Functions, items: Items, b: Breakpoint)
    requires Live(functions, b) && AllProper(functions) && LinesAgree(functions, items)
    ensures Holds(items, b) && LinesAgree(Without(functions, b), Deleted(items, b.line, b))
  {
    assert Holds(items, functions[b.byteCode].lines[b.line]);
    var after, now := Without(functions, b), Deleted(items, b.line, b);
    forall line: nat | line in now
      ensures LineOf(after, line, now[line])
    {
      assert LineOf(functions, line, items[line]);
      var i := IndexOf(items[b.line], b);
      forall x: Breakpoint | x in now[line]
        ensures x.line == line && Live(after, x)
      {
        assert x in items[line] && Live(functions, x) && x != b;
      }
    }
    forall code, line | code in after && line in after[code].lines
      ensures Holds(now, after[code].lines[line])
    {
      var x := after[code].lines[line];
      assert x == functions[code].lines[line] && x != b && Holds(items, x) && LineOf(functions, b.line, items[b.line]);
      RemovedOthers(items, b, x);
    }
  }

  lemma RemovedOthers(items: Items, b: Breakpoint, x: Breakpoint)
    requires Holds(items, b) && Holds(items, x) && x != b
    ensures Holds(Deleted(items, b.line, b), x)
  {
    if x.line == b.line {
      var s, i := items[b.line], IndexOf(items[b.line], b);
      var k :| 0 <= k < |s| && s[k] == x;
      assert |s| != 1;
      assert if k < i then s[..i][k] == x else s[i + 1..][k - i - 1] == x;
    }
  }

  // ---------------------------------------------------------------- the client

  /** Every active entry is a live breakpoint under the index it carries. */
  ghost predicate EntriesAgree(functions: Functions, active: map<nat, Breakpoint>)
    reads active.Values
  {
    forall i | i in active :: Live(functions, active[i]) && active[i].activeIndex == i
  }

  /** Every live breakpoint that carries an index is the active entry there. */
  ghost predicate CarriersAgree(functions: Functions, active: map<nat, Breakpoint>)
    reads Listed(functions)
  {
    forall b | b in Listed(functions) :: Carries(active, b.activeIndex, b)
  }

  predicate Carries(active: map<nat, Breakpoint>, index: int, b: Breakpoint) {
    index >= 0 ==> index in active && active[index] == b
  }

  /** Indexes are given to one breakpoint only, active or pending, and in order. */
  predicate Given(active: set<nat>, pending: set<nat>, next: nat) {
    && (forall i | i in active :: 0 < i <= next)
    && (forall i | i in pending :: 0 < i <= next && i !in active)
  }

  /** The places of the active breakpoints. */
  function Places(active: map<nat, Breakpoint>): set<(nat, nat)> {
    set i | i in active :: (active[i].byteCode, active[i].offset)
  }

  lemma PlaceAdded(active: map<nat, Breakpoint>, i: nat, b: Breakpoint)
    requires i !in active
    ensures Places(active[i := b]) == Places(active) + {(b.byteCode, b.offset)}
  {
    var now := active[i := b];
    forall p | p in Places(active) + {(b.byteCode, b.offset)}
      ensures p in Places(now)
    {
      if p in Places(active) {
        var k :| k in active && p == (active[k].byteCode, active[k].offset);
        assert now[k] == active[k];
      } else {
        assert now[i] == b;
      }
    }
  }

  /** Different live breakpoints have different places. */
  lemma PlacesDiffer(functions: Functions, b: Breakpoint, x: Breakpoint)
    requires AllProper(functions) && Live(functions, b) && Live(functions, x) && b != x
    ensures (b.byteCode, b.offset) != (x.byteCode, x.offset)
  {
    assert Proper(b.byteCode, functions[b.byteCode]);
  }

  lemma PlaceRemoved(functions: Functions, active: map<nat, Breakpoint>, i: nat)
    requires AllProper(functions) && i in active
    requires forall k | k in active :: Live(functions, active[k]) && (k != i ==> active[k] != active[i])
    ensures Places(active - {i}) == Places(active) - {(active[i].byteCode, active[i].offset)}
  {
    var now, b := active - {i}, active[i];
    forall k | k in now
      ensures (now[k].byteCode, now[k].offset) != (b.byteCode, b.offset)
    {
      PlacesDiffer(functions, b, now[k]);
    }
    forall p | p in Places(active) - {(b.byteCode, b.offset)}
      ensures p in Places(now)
    {
      var k :| k in active && p == (active[k].byteCode, active[k].offset);
      assert k in now && now[k] == active[k];
    }
  }

  /** `re.match` with the source names: the whole name or the end of a path. */
  predicate SourceMatches(name: string, source: string) {
    name == source || EndsWith(source, "/" + name) || EndsWith(source, "\\" + name)
  }

  predicate EndsWith(s: string, end: string) {
    |end| <= |s| && s[|s| - |end|..] == end
  }

  /** Whether setting the target finds the breakpoint. */
  predicate Found(functions: Functions, target: Target, b: Breakpoint) {
    && Live(functions, b)
    && match target
       case AtLine(source, line) => b.line == line && SourceMatches(source, b.sourceName)
       case AtFunction(name) => functions[b.byteCode].name == name && b.line == functions[b.byteCode].firstLine
  }

  predicate FirstLines(functions: Functions) {
    forall code | code in functions :: functions[code].firstLine in functions[code].lines
  }

  /** Which breakpoints have which index. */
  datatype State = State(active: map<nat, Breakpoint>, pending: map<nat, Target>, next: nat)

  predicate Sound(s: State) {
    Given(s.active.Keys, s.pending.Keys, s.next)
  }

  /** Later an index means what it meant, or nothing any more, or it is new. */
  predicate Later(s: State, t: State) {
    && s.next <= t.next
    && (forall i | i in t.active :: i > s.next || (i in s.active && t.active[i] == s.active[i]))
    && (forall i | i in t.pending :: i > s.next || (i in s.pending && t.pending[i] == s.pending[i]))
  }

  lemma LaterThen(s: State, t: State, u: State)
    requires Later(s, t) && Later(t, u)
    ensures Later(s, u)
  {
  }

  lemma LaterSame(s: State)
    ensures Later(s, s)
  {
  }

  lemma LaterLess(s: State, index: nat)
    ensures Later(s, s.(active := s.active - {index}))
  {
  }

  lemma LaterEnabled(s: State, b: Breakpoint)
    ensures Later(s, State(s.active[s.next + 1 := b], s.pending, s.next + 1))
  {
  }

  lemma LaterPending(s: State, target: Target)
    ensures Later(s, State(s.active, s.pending[s.next + 1 := target], s.next + 1))
  {
  }

  /** `JerryDebugger`, as far as it keeps functions and breakpoints; `log` is what it has sent about them. */
  class Client {
    var functions: Functions
    const lineList: Multimap
    var active: map<nat, Breakpoint>
    var pending: map<nat, Target>
    var nextIndex: nat
    var log: seq<Message>

    /** The indexes agree with each other and with what the server was told. */
    ghost predicate Agrees()
      reads this, lineList, active.Values, Listed(functions)
    {
      && AllProper(functions) && FirstLines(functions)
      && LinesAgree(functions, lineList.items)
      && EntriesAgree(functions, active) && CarriersAgree(functions, active)
      && Given(active.Keys, pending.Keys, nextIndex)
      && EnabledBy(log) == Places(active)
    }

    /** The server waits after parsing exactly if there is a pending breakpoint. */
    ghost predicate Valid()
      reads this, lineList, active.Values, Listed(functions)
    {
      Agrees() && (Waits(log) <==> pending != map[])
    }

    ghost function Indexes(): State
      reads this
    {
      State(active, pending, nextIndex)
    }

    constructor ()
      ensures Valid() && functions == map[] && active == map[] && pending == map[] && nextIndex == 0
      ensures fresh(lineList)
    {
      functions, active, pending, nextIndex, log := map[], map[], map[], 0, [];
      lineList := new Multimap();
    }

    method Send(m: Message)
      modifies this`log
      ensures log == old(log) + [m]
    {
      log := log + [m];
    }

    /** The next index goes to a breakpoint that has none, and the indexes agree again. */
    method Give(b: Breakpoint)
      requires Agrees() && Live(functions, b) && b.activeIndex < 0
      modifies this`active, this`nextIndex, b`activeIndex
      ensures nextIndex == old(nextIndex) + 1 && b.activeIndex == nextIndex && active == old(active)[nextIndex := b]
      ensures EntriesAgree(functions, active) && CarriersAgree(functions, active) && Given(active.Keys, pending.Keys, nextIndex)
    {
      hide Live, EnabledBy, Places, LinesAgree, AllProper, FirstLines;
      nextIndex := nextIndex + 1;
      active := active[nextIndex := b];
      b.activeIndex := nextIndex;
      forall x | x in Listed(functions)
        ensures Carries(active, x.activeIndex, x)
      {
        assert x != b ==> Carries(old(active), x.activeIndex, x);
      }
    }

    /** `_enable_breakpoint` for a breakpoint of a function: a new index, unless it has one. */
    method Enable(b: Breakpoint)
      requires Valid() && Live(functions, b)
      modifies this`active, this`nextIndex, this`log, b`activeIndex
      ensures Valid() && Later(old(Indexes()), Indexes())
      ensures old(b.activeIndex) >= 0 ==>
        active == old(active) && nextIndex == old(nextIndex) && log == old(log) && b.activeIndex == old(b.activeIndex)
      ensures active.Values == old(active).Values + {b}
      ensures old(b.activeIndex) < 0 ==>
        && nextIndex == old(nextIndex) + 1 && b.activeIndex == nextIndex && active == old(active)[nextIndex := b]
        && log == old(log) + [UpdateBreakpoint(true, b.byteCode, b.offset)]
    {
      hide Live, EnabledBy, Waits, Places, LinesAgree, AllProper, FirstLines, Later;
      LaterSame(Indexes());
      LaterEnabled(Indexes(), b);
      if b.activeIndex >= 0 {
        ListedIsLive(functions, b);
        AlreadyThere(active, b.activeIndex, b);
        return;
      }
      Sent(log, UpdateBreakpoint(true, b.byteCode, b.offset));
      Give(b);
      PlaceAdded(old(active), nextIndex, b);
      ActiveMore(old(active), nextIndex, b);
      Send(UpdateBreakpoint(true, b.byteCode, b.offset));
    }

    lemma AlreadyThere(active: map<nat, Breakpoint>, index: int, b: Breakpoint)
      requires index >= 0 && Carries(active, index, b)
      ensures active.Values == active.Values + {b}
    {
    }

    /** Lines 414-418: an active breakpoint goes. */
    method Disable(index: nat)
      requires Valid() && index in active
      modifies this`active, this`log, active.Values`activeIndex
      ensures Valid() && Later(old(Indexes()), Indexes())
      ensures active == old(active) - {index}
      ensures log == old(log) + [UpdateBreakpoint(false, old(active)[index].byteCode, old(active)[index].offset)]
      ensures forall b | b in old(active).Values :: b.activeIndex == if b == old(active)[index] then -1 else old(b.activeIndex)
    {
      hide Live, EnabledBy, Waits, Places, LinesAgree, AllProper, FirstLines, Later;
      var b := active[index];
      ListedIsLive(functions, b);
      LaterLess(Indexes(), index);
      PlaceRemoved(functions, active, index);
      active := active - {index};
      b.activeIndex := -1;
      Sent(log, UpdateBreakpoint(false, b.byteCode, b.offset));
      Send(UpdateBreakpoint(false, b.byteCode, b.offset));
      forall x | x in Listed(functions)
        ensures x.activeIndex >= 0 ==> x.activeIndex in active && active[x.activeIndex] == x
      {
        assert x != b ==> x.activeIndex == old(x.activeIndex);
      }
    }

    /** Lines 395-400: all active breakpoints go. */
    method DisableAll()
      requires Valid()
      modifies this`active, this`log, active.Values`activeIndex
      ensures Valid() && Later(old(Indexes()), Indexes())
      ensures active == map[]
      ensures forall b | b in old(active).Values :: b.activeIndex == -1
    {
      hide AllProper, FirstLines, LinesAgree, EnabledBy, Waits, Places, Live;
      var todo := active.Values;
      ghost var was := active;
      while todo != {}
        invariant Valid() && Later(old(Indexes()), Indexes()) && todo == active.Values && todo <= was.Values
        invariant forall b | b in was.Values - todo :: b.activeIndex == -1
        decreases todo
      {
        var b :| b in todo;
        todo := todo - {b};
        var index := b.activeIndex;
        ghost var before := Indexes();
        ValuesLess(active, index);
        Disable(index);
        LaterThen(old(Indexes()), before, Indexes());
      }
      assert active.Keys == {};
    }

    lemma ValuesLess(active: map<nat, Breakpoint>, index: nat)
      requires index in active && forall i | i in active :: active[i].activeIndex == i
      ensures (active - {index}).Values == active.Values - {active[index]}
    {
      var now := active - {index};
      forall b | b in active.Values - {active[index]}
        ensures b in now.Values
      {
        var i :| i in active && active[i] == b;
        assert i in now && now[i] == b;
      }
    }

    method SendParserConfig(enable: bool)
      modifies this`log
      ensures log == old(log) + [ParserConfig(enable)]
      ensures EnabledBy(log) == EnabledBy(old(log)) && Waits(log) == enable
    {
      Sent(log, ParserConfig(enable));
      Send(ParserConfig(enable));
    }

    /** Lines 402-405. */
    method ClearPending()
      requires Valid()
      modifies this`pending, this`log
      ensures Valid() && Later(old(Indexes()), Indexes())
      ensures pending == map[]
    {
      hide AllProper, FirstLines, LinesAgree, EnabledBy, Waits, Places, Live;
      if pending != map[] {
        pending := map[];
        SendParserConfig(false);
      }
    }

    /** `delete` */
    method Delete(which: Which)
      requires Valid()
      modifies this`active, this`pending, this`log, active.Values`activeIndex
      ensures Valid() && Later(old(Indexes()), Indexes())
      ensures active == match which
        case All => map[]
        case Active => map[]
        case Pending => old(active)
        case Index(i) => old(active) - {i}
      ensures pending == match which
        case All => map[]
        case Active => old(pending)
        case Pending => map[]
        case Index(i) => old(pending) - {i}
    {
      hide AllProper, FirstLines, LinesAgree, EnabledBy, Waits, Places, Live;
      if which.Index? {
        var index := which.index;
        if index in active {
          Disable(index);
          assert pending - {index} == pending;
        } else if index in pending {
          pending := pending - {index};
          if pending == map[] {
            SendParserConfig(false);
          }
          assert active - {index} == active;
        } else {
          assert active - {index} == active && pending - {index} == pending;
        }
        return;
      }
      if which != Pending {
        DisableAll();
      }
      if which != Active {
        ghost var before := Indexes();
        ClearPending();
        LaterThen(old(Indexes()), before, Indexes());
      }
    }

    /** One more breakpoint, since the start. */
    method EnableMore(b: Breakpoint, ghost start: State)
      requires Valid() && Live(functions, b) && Later(start, Indexes())
      modifies this`active, this`nextIndex, this`log, Listed(functions)`activeIndex
      ensures Valid() && Later(start, Indexes())
      ensures active.Values == old(active).Values + {b}
    {
      ghost var before := Indexes();
      assert AllProper(functions);
      ListedIsLive(functions, b);
      hide AllProper, FirstLines, LinesAgree, EnabledBy, Waits, Places, Live, Valid, Later, Listed;
      Enable(b);
      LaterThen(start, before, Indexes());
    }

    /** The loop of lines 1058-1064. */
    method EnableLine(source: string, line: Positive) returns (found: bool)
      requires Valid()
      modifies this`active, this`nextIndex, this`log, Listed(functions)`activeIndex
      ensures Valid() && Later(old(Indexes()), Indexes())
      ensures active.Values == old(active).Values + FoundBy(functions, AtLine(source, line))
      ensures found <==> FoundBy(functions, AtLine(source, line)) != {}
    {
      var s := lineList.Get(line);
      assert AllProper(functions) && LinesAgree(functions, lineList.items);
      hide *;
      LineIsFound(functions, lineList.items, source, line);
      LaterSame(Indexes());
      NoneFrom(s, source);
      found := false;
      for k := 0 to |s|
        invariant Valid() && Later(old(Indexes()), Indexes())
        invariant active.Values == old(active).Values + FromSource(s[..k], source)
        invariant found <==> FromSource(s[..k], source) != {}
      {
        OneMore(s, k, source);
        Regroup(old(active).Values, FromSource(s[..k], source), {s[k]});
        if SourceMatches(source, s[k].sourceName) {
          EnableMore(s[k], old(Indexes()));
          found := true;
        }
      }
      assert s[..|s|] == s;
    }

    /** These breakpoints in some order. */
    method EnableAll(breakpoints: set<Breakpoint>)
      requires Valid() && forall b | b in breakpoints :: Live(functions, b)
      modifies this`active, this`nextIndex, this`log, Listed(functions)`activeIndex
      ensures Valid() && Later(old(Indexes()), Indexes())
      ensures active.Values == old(active).Values + breakpoints
    {
      hide *;
      var todo := breakpoints;
      LaterSame(Indexes());
      while todo != {}
        invariant Valid() && Later(old(Indexes()), Indexes()) && todo <= breakpoints
        invariant active.Values + todo == old(active).Values + breakpoints
        decreases todo
      {
        var b :| b in todo;
        Moved(active.Values, todo, b);
        todo := todo - {b};
        EnableMore(b, old(Indexes()));
      }
      assert active.Values + {} == active.Values;
    }

    /** Lines 1067-1075. */
    method EnableFunction(name: string) returns (found: bool)
      requires Valid()
      modifies this`active, this`nextIndex, this`log, Listed(functions)`activeIndex
      ensures Valid() && Later(old(Indexes()), Indexes())
      ensures active.Values == old(active).Values + FoundBy(functions, AtFunction(name))
      ensures found <==> FoundBy(functions, AtFunction(name)) != {}
    {
      var codes := set code | code in functions && functions[code].name == name;
      FunctionIsFound(functions, name);
      FirstsAreLive(functions, codes);
      hide *;
      EnableAll(FirstsOf(functions, codes));
      found := codes != {};
    }

    /** `_set_breakpoint`; `answer` is what the user answers if nothing was found. */
    method SetBreakpoint(target: Target, quiet: bool, answer: bool) returns (result: bool)
      requires Valid()
      modifies this`active, this`pending, this`nextIndex, this`log, Listed(functions)`activeIndex
      ensures Valid() && Later(old(Indexes()), Indexes())
      ensures active.Values == old(active).Values + FoundBy(functions, target)
      ensures result <==> FoundBy(functions, target) != {} || (!quiet && answer)
      ensures FoundBy(functions, target) != {} || quiet || !answer ==> pending == old(pending)
      ensures FoundBy(functions, target) == {} && !quiet && answer ==> pending.Values == old(pending).Values + {target}
    {
      hide AllProper, FirstLines, LinesAgree, EnabledBy, Waits, Places, Live, FoundBy;
      match target {
        case AtLine(source, line) => result := EnableLine(source, line);
        case AtFunction(name) => result := EnableFunction(name);
      }
      if !result && !quiet && answer {
        ghost var before := Indexes();
        EnablePending(target);
        LaterThen(old(Indexes()), before, Indexes());
        result := true;
      }
    }

    /** Lines 1083-1090 and `_enable_breakpoint` for a pending breakpoint. */
    method EnablePending(target: Target)
      requires Valid()
      modifies this`pending, this`nextIndex, this`log
      ensures Valid() && Later(old(Indexes()), Indexes())
      ensures pending.Values == old(pending).Values + {target}
    {
      hide AllProper, FirstLines, LinesAgree, EnabledBy, Waits, Places, Live, Later;
      LaterSame(Indexes());
      LaterPending(Indexes(), target);
      if pending == map[] {
        SendParserConfig(true);
      }
      if target in pending.Values {
        return;
      }
      nextIndex := nextIndex + 1;
      pending := pending[nextIndex := target];
      PendingMore(old(pending), nextIndex, target);
    }

    /** `_release_function` */
    method Release(code: nat)
      requires Valid() && code in functions
      modifies this`functions, this`active, this`log, lineList
      ensures Valid() && Later(old(Indexes()), Indexes())
      ensures functions == old(functions) - {code} && log == old(log) + [FreeByteCode(code)]
      ensures active == Others(old(active), code)
    {
      hide EnabledBy, Waits, Places, Live, LinesAgree, AllProper, Later, Others, Given, FirstLines;
      assert Sound(Indexes()) && FirstLines(functions) && EnabledBy(log) == Places(active) && (Waits(log) <==> pending != map[]);
      LaterOthers(Indexes(), code);
      RemoveLines(code);
      Forget(code, old(active));
    }

    /** Lines 1026-1027. */
    method Forget(code: nat, ghost was: map<nat, Breakpoint>)
      requires var rest := functions - {code};
        AllProper(rest) && LinesAgree(rest, lineList.items) && EntriesAgree(rest, active) && CarriersAgree(rest, active)
      requires FirstLines(functions) && Given(active.Keys, pending.Keys, nextIndex)
      requires active == Others(was, code) && EnabledBy(log) == Places(was) && (Waits(log) <==> pending != map[])
      modifies this`functions, this`log
      ensures Valid() && functions == old(functions) - {code} && log == old(log) + [FreeByteCode(code)]
    {
      hide EnabledBy, Waits, Places, Live, LinesAgree, AllProper, Others, Given;
      functions := functions - {code};
      SendByteCode(code, was);
      assert EntriesAgree(functions, active) && CarriersAgree(functions, active);
    }

    /** `_send_bytecode_cp`, which the server answers by freeing the byte code. */
    method SendByteCode(code: nat, ghost was: map<nat, Breakpoint>)
      requires EnabledBy(log) == Places(was)
      modifies this`log
      ensures log == old(log) + [FreeByteCode(code)]
      ensures EnabledBy(log) == Places(Others(was, code)) && Waits(log) == Waits(old(log))
    {
      Sent(log, FreeByteCode(code));
      PlacesFreed(was, Others(was, code), code);
      Send(FreeByteCode(code));
    }

    /** Lines 1021-1024. */
    method RemoveLines(code: nat)
      requires Valid() && code in functions
      modifies this`active, lineList
      ensures var rest := functions - {code};
        AllProper(rest) && LinesAgree(rest, lineList.items) && EntriesAgree(rest, active) && CarriersAgree(rest, active)
      ensures active == Others(old(active), code)
    {
      hide EnabledBy, Waits, Places, Live, LinesAgree, FirstLines, Given, AllProper, Kept, Without, Deleted;
      var f := functions[code];
      var todo := f.lines.Keys;
      ghost var fs := functions;
      AllKept(f.lines);
      while todo != {}
        invariant todo <= f.lines.Keys && fs == functions[code := f.(lines := Kept(f.lines, todo))]
        invariant AllProper(fs) && LinesAgree(fs, lineList.items) && EntriesAgree(fs, active) && CarriersAgree(fs, active)
        invariant Fewer(active, old(active), code)
        decreases todo
      {
        var line :| line in todo;
        assert todo == todo - {line} + {line};
        todo := todo - {line};
        var b := f.lines[line];
        KeptLive(functions, code, todo, line);
        DeleteAgrees(fs, lineList.items, b);
        DropAgrees(fs, active, b);
        fs := Without(fs, b);
        ghost var left := if b.activeIndex >= 0 then active - {b.activeIndex} else active;
        assert EntriesAgree(fs, left) && CarriersAgree(fs, left);
        lineList.Delete(line, b);
        assert CarriersAgree(fs, left);
        if b.activeIndex >= 0 {
          active := active - {b.activeIndex};
        }
        assert active == left;
      }
      NothingKept(functions, code, lineList.items, active);
    }

    /** The loop of lines 974-975 for one function. */
    method InsertLines(f: Function, ghost functions: Functions)
      requires f.byteCode !in functions && AllProper(functions) && Proper(f.byteCode, f)
      requires LinesAgree(functions, lineList.items)
      modifies lineList
      ensures LinesAgree(functions[f.byteCode := f], lineList.items)
    {
      hide LinesAgree, AllProper, Proper, Kept, With, Inserted;
      var todo := f.lines.Keys;
      ghost var done := {};
      ghost var fs := functions[f.byteCode := f.(lines := map[])];
      EmptyAgrees(functions, f, lineList.items);
      while todo != {}
        invariant f.lines.Keys == todo + done && todo !! done
        invariant fs == functions[f.byteCode := f.(lines := Kept(f.lines, done))]
        invariant LinesAgree(fs, lineList.items)
        decreases todo
      {
        var line :| line in todo;
        KeptMore(functions, f, done, line);
        InsertAgrees(fs, lineList.items, f.lines[line]);
        todo := todo - {line};
        done := done + {line};
        lineList.Insert(line, f.lines[line]);
        fs := With(fs, f.lines[line]);
      }
      assert done == f.lines.Keys;
      AllKept(f.lines);
    }

    /** The loop of lines 973-975. */
    method InsertAll(added: Functions, ghost functions: Functions)
      requires AllProper(functions) && AllProper(added) && added.Keys !! functions.Keys
      requires forall code | code in added :: added[code].byteCode == code
      requires LinesAgree(functions, lineList.items)
      modifies lineList
      ensures LinesAgree(functions + added, lineList.items)
    {
      hide *;
      ghost var fs := functions;
      AllTaken(added);
      var todo := added.Keys;
      while todo != {}
        invariant todo <= added.Keys && todo !! fs.Keys && fs + Taken(added, todo) == functions + added
        invariant AllProper(fs) && LinesAgree(fs, lineList.items)
        decreases todo
      {
        var code :| code in todo;
        OneTaken(fs, added, todo, code);
        InsertLines(added[code], fs);
        fs := fs[code := added[code]];
        todo := todo - {code};
      }
      NoneTaken(fs, added);
    }

    /** Lines 970-975: the functions of a parse, none of whose byte codes is in use. */
    method AddFunctions(added: Functions)
      requires Valid() && AllProper(added) && FirstLines(added) && added.Keys !! functions.Keys
      requires forall code | code in added :: added[code].byteCode == code
      requires forall b | b in Listed(added) :: b.activeIndex < 0
      modifies this`functions, lineList
      ensures Valid() && functions == old(functions) + added
    {
      hide LinesAgree, AllProper, Proper, FirstLines, EnabledBy, Waits, Places, Live, Given;
      AddedAgrees(functions, added, active);
      functions := functions + added;
      assert EntriesAgree(functions, active) && CarriersAgree(functions, active);
      InsertAll(added, old(functions));
      assert EntriesAgree(functions, active) && CarriersAgree(functions, active);
    }

    /** One pending breakpoint behind a parse, lines 983-1005: it is set and goes, or stays. */
    method TryPending(added: Functions, index: nat, ghost start: State)
      requires Agrees() && Waits(log) && index in pending && Later(start, Indexes())
      modifies this`active, this`pending, this`nextIndex, this`log, Listed(functions)`activeIndex
      ensures Agrees() && Waits(log) && Later(start, Indexes())
      ensures pending == if index in pending then old(pending) else old(pending) - {index}
      ensures active.Values >= old(active).Values
      ensures Settled(functions, added, old(pending)[index], index in pending, active.Values)
    {
      hide AllProper, FirstLines, LinesAgree, EnabledBy, Waits, Places, Live, FoundBy, MissesLine, Later, Given;
      var target := pending[index];
      ghost var before := Indexes();
      if target.AtLine? {
        var lines := SourceLines(added, target.source);
        if target.line > lines {
          TooFew(added, target, lines);
          return;
        }
      }
      var result := SetBreakpoint(target, true, false);
      LaterThen(start, before, Indexes());
      if result {
        RemovePending(index, start);
      }
    }

    /** All pending breakpoints, in some order. */
    method SetPending(added: Functions)
      requires Agrees() && Waits(log)
      modifies this`active, this`pending, this`nextIndex, this`log, Listed(functions)`activeIndex
      ensures Agrees() && Waits(log) && Later(old(Indexes()), Indexes())
      ensures active.Values >= old(active).Values
      ensures forall i | i in pending :: i in old(pending) && pending[i] == old(pending)[i]
      ensures forall i | i in old(pending) :: Settled(functions, added, old(pending)[i], i in pending, active.Values)
    {
      hide *;
      LaterSame(Indexes());
      var todo := pending.Keys;
      while todo != {}
        invariant todo <= pending.Keys && Agrees() && Waits(log) && Later(old(Indexes()), Indexes())
        invariant active.Values >= old(active).Values
        invariant forall i | i in pending :: i in old(pending) && pending[i] == old(pending)[i]
        invariant forall i | i in old(pending).Keys - todo :: Settled(functions, added, old(pending)[i], i in pending, active.Values)
        decreases todo
      {
        var index :| index in todo;
        ghost var values := active.Values;
        todo := todo - {index};
        TryPending(added, index, old(Indexes()));
        forall i | i in old(pending).Keys - todo
          ensures Settled(functions, added, old(pending)[i], i in pending, active.Values)
        {
          if i != index {
            StaysSettled(functions, added, old(pending)[i], i in pending, values, active.Values);
          }
        }
      }
    }

    /** Behind a parse, lines 970-1012: its functions are added, and the pending breakpoints that can be set now are. */
    method ParseCompleted(added: Functions)
      requires Valid() && AllProper(added) && FirstLines(added) && added.Keys !! functions.Keys
      requires forall code | code in added :: added[code].byteCode == code
      requires forall b | b in Listed(added) :: b.activeIndex < 0
      modifies this`functions, this`active, this`pending, this`nextIndex, this`log, lineList
      modifies Listed(functions)`activeIndex, Listed(added)`activeIndex
      ensures Valid() && Later(old(Indexes()), Indexes()) && functions == old(functions) + added
      ensures active.Values >= old(active).Values
      ensures forall i | i in pending :: i in old(pending) && pending[i] == old(pending)[i]
      ensures forall i | i in old(pending) :: Settled(functions, added, old(pending)[i], i in pending, active.Values)
    {
      hide LinesAgree, AllProper, FirstLines, EnabledBy, Waits, Places, Live, Later, Agrees, FoundBy, Settled, Listed;
      LaterSame(Indexes());
      ListedAdded(functions, added);
      AddFunctions(added);
      if pending == map[] {
        return;
      }
      SetPending(added);
      if pending == map[] {
        StopWaiting();
      }
    }

    /** Lines 1007-1008. */
    method StopWaiting()
      requires Agrees() && pending == map[]
      modifies this`log
      ensures Valid()
    {
      hide LinesAgree, AllProper, FirstLines, EnabledBy, Waits, Places, Live;
      SendParserConfig(false);
      assert CarriersAgree(functions, active) && EntriesAgree(functions, active);
    }

    /** `del bp_list[breakpoint_index]` */
    method RemovePending(index: nat, ghost start: State)
      requires Agrees() && index in pending && Later(start, Indexes())
      modifies this`pending
      ensures Agrees() && pending == old(pending) - {index} && Later(start, Indexes())
    {
      hide AllProper, FirstLines, LinesAgree, EnabledBy, Waits, Places, Live;
      pending := pending - {index};
      assert CarriersAgree(functions, active) && EntriesAgree(functions, active);
    }

    /** `source_lines`: of some function whose source matches. */
    method SourceLines(added: Functions, source: string) returns (lines: nat)
      ensures lines == 0 || exists code | code in added :: SourceMatches(source, added[code].sourceName) && lines == added[code].sourceLines
      ensures (exists code | code in added :: SourceMatches(source, added[code].sourceName)) ==>
        exists code | code in added :: SourceMatches(source, added[code].sourceName) && lines == added[code].sourceLines
    {
      hide SourceMatches;
      var todo := added.Keys;
      while todo != {}
        invariant todo <= added.Keys
        invariant forall code | code in added.Keys - todo :: !SourceMatches(source, added[code].sourceName)
        decreases todo
      {
        var code :| code in todo;
        todo := todo - {code};
        if SourceMatches(source, added[code].sourceName) {
          return added[code].sourceLines;
        }
      }
      lines := 0;
    }
  }

  /** Some function of the parse that matches has fewer lines, or none matches. */
  ghost predicate MissesLine(added: Functions, target: Target)
    requires target.AtLine?
  {
    || (forall code | code in added :: !SourceMatches(target.source, added[code].sourceName))
    || exists code | code in added :: SourceMatches(target.source, added[code].sourceName) && added[code].sourceLines < target.line
  }

  /** What becomes of a pending breakpoint: either it goes and all it finds is active, or it finds nothing or its source is
      too short. */
  ghost predicate Settled(functions: Functions, added: Functions, target: Target, kept: bool, active: set<Breakpoint>) {
    var found := FoundBy(functions, target);
    if kept then found == {} || (target.AtLine? && MissesLine(added, target)) else found != {} && found <= active
  }

  lemma ListedAdded(functions: Functions, added: Functions)
    ensures Listed(functions + added) <= Listed(functions) + Listed(added)
  {
    var all := functions + added;
    forall b | b in Listed(all)
      ensures b in Listed(functions) || b in Listed(added)
    {
      var code, line :| code in all && line in all[code].lines && all[code].lines[line] == b;
      if code in added {
        assert added[code].lines[line] == b;
      } else {
        assert functions[code].lines[line] == b;
      }
    }
  }

  lemma StaysSettled(functions: Functions, added: Functions, target: Target, kept: bool, active: set<Breakpoint>, more: set<Breakpoint>)
    requires Settled(functions, added, target, kept, active) && active <= more
    ensures Settled(functions, added, target, kept, more)
  {
  }

  lemma TooFew(added: Functions, target: Target, lines: nat)
    requires target.AtLine? && target.line > lines
    requires (exists code | code in added :: SourceMatches(target.source, added[code].sourceName)) ==>
      exists code | code in added :: SourceMatches(target.source, added[code].sourceName) && lines == added[code].sourceLines
    ensures MissesLine(added, target)
  {
    hide SourceMatches;
  }

  /** The functions that are left. */
  function Taken(functions: Functions, codes: set<nat>): Functions {
    map code | code in functions && code in codes :: functions[code]
  }

  lemma OneTaken(fs: Functions, added: Functions, todo: set<nat>, code: nat)
    requires AllProper(fs) && AllProper(added) && code in todo && todo <= added.Keys && todo !! fs.Keys
    ensures Proper(code, added[code]) && AllProper(fs[code := added[code]])
    ensures fs[code := added[code]] + Taken(added, todo - {code}) == fs + Taken(added, todo)
  {
  }

  lemma NoneTaken(fs: Functions, added: Functions)
    ensures fs + Taken(added, {}) == fs
  {
  }

  lemma AddedAgrees(functions: Functions, added: Functions, active: map<nat, Breakpoint>)
    requires AllProper(functions) && AllProper(added) && FirstLines(functions) && FirstLines(added) && added.Keys !! functions.Keys
    requires EntriesAgree(functions, active) && CarriersAgree(functions, active)
    requires forall b | b in Listed(added) :: b.activeIndex < 0
    ensures var all := functions + added;
      AllProper(all) && FirstLines(all) && EntriesAgree(all, active) && CarriersAgree(all, active)
  {
    var all := functions + added;
    forall b | b in Listed(all)
      ensures b in Listed(functions) || b in Listed(added)
    {
      var code, line :| code in all && line in all[code].lines && all[code].lines[line] == b;
      if code in functions {
        assert functions[code].lines[line] == b;
      } else {
        assert added[code].lines[line] == b;
      }
    }
    forall i | i in active
      ensures Live(all, active[i])
    {
      assert Live(functions, active[i]);
    }
  }

  lemma AllTaken(added: Functions)
    ensures Taken(added, added.Keys) == added
  {
  }

  lemma EmptyAgrees(functions: Functions, f: Function, items: Items)
    requires f.byteCode !in functions && AllProper(functions) && LinesAgree(functions, items)
    ensures LinesAgree(functions[f.byteCode := f.(lines := map[])], items)
    ensures f.(lines := map[]) == f.(lines := Kept(f.lines, {}))
  {
    var after := functions[f.byteCode := f.(lines := map[])];
    forall line | line in items
      ensures LineOf(after, line, items[line])
    {
      assert LineOf(functions, line, items[line]);
    }
    forall code, line | code in after && line in after[code].lines
      ensures Holds(items, after[code].lines[line])
    {
      assert after[code].lines[line] == functions[code].lines[line];
    }
  }

  lemma KeptMore(functions: Functions, f: Function, done: set<nat>, line: nat)
    requires AllProper(functions) && Proper(f.byteCode, f) && line in f.lines && line !in done
    ensures var fs, b := functions[f.byteCode := f.(lines := Kept(f.lines, done))], f.lines[line];
      && AllProper(fs) && b.line == line && b.byteCode == f.byteCode && b.line !in fs[b.byteCode].lines
      && With(fs, b) == functions[f.byteCode := f.(lines := Kept(f.lines, done + {line}))]
  {
    var fs := functions[f.byteCode := f.(lines := Kept(f.lines, done))];
    assert Kept(f.lines, done)[line := f.lines[line]] == Kept(f.lines, done + {line});
    forall c | c in fs
      ensures Proper(c, fs[c])
    {
      if c != f.byteCode {
        assert Proper(c, functions[c]);
      }
    }
  }

  /** The lines that are left. */
  function Kept(lines: map<nat, Breakpoint>, keys: set<nat>): map<nat, Breakpoint> {
    map line | line in lines && line in keys :: lines[line]
  }

  ghost predicate Fewer(active: map<nat, Breakpoint>, was: map<nat, Breakpoint>, code: nat) {
    && (forall i | i in active :: i in was && active[i] == was[i])
    && (forall i | i in was && was[i].byteCode != code :: i in active)
  }

  lemma AllKept(lines: map<nat, Breakpoint>)
    ensures Kept(lines, lines.Keys) == lines
  {
  }

  lemma KeptLive(functions: Functions, code: nat, todo: set<nat>, line: nat)
    requires AllProper(functions) && code in functions && line in functions[code].lines && line !in todo
    ensures var f := functions[code];
      var fs, b := functions[code := f.(lines := Kept(f.lines, todo + {line}))], f.lines[line];
      && Live(fs, b) && b.line == line && b.byteCode == code
      && Without(fs, b) == functions[code := f.(lines := Kept(f.lines, todo))]
      && AllProper(Without(fs, b))
  {
    var f := functions[code];
    assert Proper(code, f);
    assert Kept(f.lines, todo + {line}) - {line} == Kept(f.lines, todo);
    var after := functions[code := f.(lines := Kept(f.lines, todo))];
    forall c | c in after
      ensures Proper(c, after[c])
    {
      assert Proper(c, functions[c]);
    }
  }

  lemma ListedWithout(functions: Functions, b: Breakpoint, x: Breakpoint)
    requires AllProper(functions) && Live(functions, b)
    ensures x in Listed(Without(functions, b)) <==> x in Listed(functions) && x != b
    ensures Live(functions, x) && x != b ==> Live(Without(functions, b), x)
  {
    var after := Without(functions, b);
    assert Proper(b.byteCode, functions[b.byteCode]);
    if x in Listed(after) {
      var code, line :| code in after && line in after[code].lines && after[code].lines[line] == x;
      assert Proper(code, functions[code]) && x == functions[code].lines[line];
    }
    if x in Listed(functions) && x != b {
      var code, line :| code in functions && line in functions[code].lines && functions[code].lines[line] == x;
      assert Proper(code, functions[code]);
      assert x == after[code].lines[line];
    }
    if Live(functions, x) && x != b {
      assert after[x.byteCode].lines[x.line] == x;
    }
  }

  lemma DropAgrees(functions: Functions, active: map<nat, Breakpoint>, b: Breakpoint)
    requires AllProper(functions) && EntriesAgree(functions, active) && CarriersAgree(functions, active) && Live(functions, b)
    ensures var rest, left := Without(functions, b), if b.activeIndex >= 0 then active - {b.activeIndex} else active;
      && EntriesAgree(rest, left) && CarriersAgree(rest, left)
      && forall i | i in active && active[i] != b :: i in left
  {
    var rest, left := Without(functions, b), if b.activeIndex >= 0 then active - {b.activeIndex} else active;
    ListedIsLive(functions, b);
    hide Without, Listed, Live;
    forall i | i in left
      ensures Live(rest, left[i]) && left[i].activeIndex == i
    {
      assert left[i] == active[i] && Live(functions, active[i]) && active[i].activeIndex == i;
      ListedWithout(functions, b, active[i]);
    }
    forall x | x in Listed(rest)
      ensures x.activeIndex >= 0 ==> x.activeIndex in left && left[x.activeIndex] == x
    {
      ListedWithout(functions, b, x);
      assert x.activeIndex >= 0 ==> x.activeIndex in active && active[x.activeIndex] == x;
    }
  }

  lemma NothingKept(functions: Functions, code: nat, items: Items, active: map<nat, Breakpoint>)
    requires code in functions && AllProper(functions)
    requires var empty := functions[code := functions[code].(lines := Kept(functions[code].lines, {}))];
      LinesAgree(empty, items) && EntriesAgree(empty, active) && CarriersAgree(empty, active)
    ensures var rest := functions - {code};
      AllProper(rest) && LinesAgree(rest, items) && EntriesAgree(rest, active) && CarriersAgree(rest, active)
    ensures forall i | i in active :: active[i].byteCode != code
  {
    var empty, rest := functions[code := functions[code].(lines := Kept(functions[code].lines, {}))], functions - {code};
    forall x: Breakpoint
      ensures Live(empty, x) <==> Live(rest, x)
    {
    }
    SameListed(empty, rest, code);
    forall line | line in items
      ensures LineOf(rest, line, items[line])
    {
      assert LineOf(empty, line, items[line]);
    }
    forall c, line | c in rest && line in rest[c].lines
      ensures Holds(items, rest[c].lines[line])
    {
      assert empty[c].lines[line] == rest[c].lines[line];
    }
  }

  lemma SameListed(functions: Functions, rest: Functions, code: nat)
    requires code in functions && functions[code].lines == map[] && rest == functions - {code}
    ensures Listed(functions) == Listed(rest)
  {
    forall x | x in Listed(functions)
      ensures x in Listed(rest)
    {
      var c, line :| c in functions && line in functions[c].lines && functions[c].lines[line] == x;
      assert c in rest && rest[c].lines[line] == x;
    }
    forall x | x in Listed(rest)
      ensures x in Listed(functions)
    {
      var c, line :| c in rest && line in rest[c].lines && rest[c].lines[line] == x;
      assert functions[c].lines[line] == x;
    }
  }

  /** The active breakpoints of other functions. */
  function Others(active: map<nat, Breakpoint>, code: nat): map<nat, Breakpoint> {
    map i | i in active && active[i].byteCode != code :: active[i]
  }

  lemma LaterOthers(s: State, code: nat)
    requires Sound(s)
    ensures Later(s, s.(active := Others(s.active, code))) && Sound(s.(active := Others(s.active, code)))
  {
  }

  lemma PlacesFreed(was: map<nat, Breakpoint>, active: map<nat, Breakpoint>, code: nat)
    requires active == Others(was, code)
    ensures Places(active) == set b | b in Places(was) && b.0 != code
  {
    forall p | p in Places(was) && p.0 != code
      ensures p in Places(active)
    {
      var i :| i in was && p == (was[i].byteCode, was[i].offset);
      assert active[i] == was[i];
    }
  }

  lemma PendingMore(pending: map<nat, Target>, index: nat, target: Target)
    requires index !in pending
    ensures pending[index := target].Values == pending.Values + {target}
  {
    ActiveMore(pending, index, target);
  }

  lemma ActiveMore<T>(active: map<nat, T>, index: nat, b: T)
    requires index !in active
    ensures active[index := b].Values == active.Values + {b}
  {
    var now := active[index := b];
    forall x | x in active.Values + {b}
      ensures x in now.Values
    {
      if x in active.Values {
        var i :| i in active && active[i] == x;
        assert now[i] == x;
      } else {
        assert now[index] == x;
      }
    }
  }

  ghost function FromSource(s: seq<Breakpoint>, source: string): set<Breakpoint> {
    set b | b in s && SourceMatches(source, b.sourceName)
  }

  lemma OneMore(s: seq<Breakpoint>, k: nat, source: string)
    requires k < |s|
    ensures s[k] in s
    ensures FromSource(s[..k + 1], source)
      == if SourceMatches(source, s[k].sourceName) then FromSource(s[..k], source) + {s[k]} else FromSource(s[..k], source)
  {
    assert s[..k + 1] == s[..k] + [s[k]];
  }

  lemma FirstIsLive(functions: Functions, code: nat)
    requires AllProper(functions) && FirstLines(functions) && code in functions
    ensures functions[code].firstLine in functions[code].lines
    ensures Live(functions, functions[code].lines[functions[code].firstLine])
  {
    assert Proper(code, functions[code]);
  }

  function FirstsOf(functions: Functions, codes: set<nat>): set<Breakpoint>
    requires FirstLines(functions) && codes <= functions.Keys
  {
    set code | code in codes :: functions[code].lines[functions[code].firstLine]
  }

  lemma FirstsAreLive(functions: Functions, codes: set<nat>)
    requires AllProper(functions) && FirstLines(functions) && codes <= functions.Keys
    ensures forall b | b in FirstsOf(functions, codes) :: Live(functions, b)
  {
    forall code | code in codes
      ensures Live(functions, functions[code].lines[functions[code].firstLine])
    {
      FirstIsLive(functions, code);
    }
  }

  lemma Moved(a: set<Breakpoint>, todo: set<Breakpoint>, b: Breakpoint)
    requires b in todo
    ensures (a + {b}) + (todo - {b}) == a + todo
  {
  }

  lemma Regroup(a: set<Breakpoint>, b: set<Breakpoint>, c: set<Breakpoint>)
    ensures (a + b) + c == a + (b + c)
  {
  }

  lemma NoneFrom(s: seq<Breakpoint>, source: string)
    ensures FromSource(s[..0], source) == {}
  {
  }

  lemma FunctionIsFound(functions: Functions, name: string)
    requires AllProper(functions) && FirstLines(functions)
    ensures var codes := set code | code in functions && functions[code].name == name;
      && FoundBy(functions, AtFunction(name)) == FirstsOf(functions, codes)
      && (FoundBy(functions, AtFunction(name)) == {} <==> codes == {})
  {
    var codes := set code | code in functions && functions[code].name == name;
    forall code | code in codes
      ensures functions[code].lines[functions[code].firstLine] in FoundBy(functions, AtFunction(name))
    {
      FirstIsLive(functions, code);
      assert Proper(code, functions[code]);
    }
    forall b | b in FoundBy(functions, AtFunction(name))
      ensures b in FirstsOf(functions, codes) && b.byteCode in codes
    {
    }
  }

  lemma LineIsFound(functions: Functions, items: Items, source: string, line: Positive)
    requires AllProper(functions) && LinesAgree(functions, items)
    ensures var s := if line in items then items[line] else [];
      (forall b | b in s :: Live(functions, b)) && FoundBy(functions, AtLine(source, line)) == FromSource(s, source)
  {
    hide SourceMatches;
    var s := if line in items then items[line] else [];
    forall b | b in s
      ensures Live(functions, b) && b.line == line && b in Listed(functions)
    {
      assert LineOf(functions, line, items[line]);
    }
    forall b | b in Listed(functions)
      ensures Live(functions, b) && Holds(items, b)
    {
      ListedIsLive(functions, b);
      assert b == functions[b.byteCode].lines[b.line];
    }
  }

  /** The breakpoints that a target finds. */
  ghost function FoundBy(functions: Functions, target: Target): set<Breakpoint> {
    set b | b in Listed(functions) && Found(functions, target, b)
  }

  datatype Which = All | Active | Pending | Index(index: nat)
}
