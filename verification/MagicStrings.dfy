/** The directives around the magic strings, tools/gen-strings.py:218-269, and what the preprocessor leaves of them. */
module MagicStrings {
  import opened MagicGuards
  import opened MagicMeaning
  import opened MagicTexts

  datatype Def = Def(ref: string, value: string, guards: Guards)

  /** A line of the generated file; conditions are given by the guards they were written from. */
  datatype Line =
    | If(guards: Guards)
    | Elif(guards: Guards)
    | Else
    | Endif
    | DefLine(ref: string, value: string)
    | SizeLine(size: nat, ref: string)

  // ---------------------------------------------------------------- preprocessor

  /** Inside of a conditional: whether the current group is kept, and whether any was. `Broken` stands for directives that
      do not match. */
  datatype Mode = Outside | Inside(kept: bool, any: bool) | Broken

  datatype Run = Run(mode: Mode, output: seq<Line>)

  /** One line, with the conditions that hold. */
  function Preprocess(run: Run, line: Line, holds: Guards -> bool): Run {
    match line
    case If(g) => run.(mode := if run.mode.Outside? then Inside(holds(g), holds(g)) else Broken)
    case Elif(g) =>
      run.(mode := if run.mode.Inside? then Inside(!run.mode.any && holds(g), run.mode.any || holds(g)) else Broken)
    case Else => run.(mode := if run.mode.Inside? then Inside(!run.mode.any, true) else Broken)
    case Endif => run.(mode := if run.mode.Inside? then Outside else Broken)
    case _ => if run.mode == Outside || (run.mode.Inside? && run.mode.kept) then run.(output := run.output + [line]) else run
  }

  function Preprocessed(lines: seq<Line>, holds: Guards -> bool): Run {
    if lines == [] then Run(Outside, [])
    else Preprocess(Preprocessed(lines[..|lines| - 1], holds), lines[|lines| - 1], holds)
  }

  lemma {:induction false} Next(lines: seq<Line>, line: Line, holds: Guards -> bool)
    ensures Preprocessed(lines + [line], holds) == Preprocess(Preprocessed(lines, holds), line, holds)
  {
    assert (lines + [line])[..|lines|] == lines;
  }

  // ---------------------------------------------------------------- what is to be kept

  ghost predicate Enabled(def: Def, holds: Guards -> bool) {
    {} in def.guards || holds(def.guards)
  }

  /** The definitions that are enabled, in order. */
  ghost function EnabledLines(defs: seq<Def>, holds: Guards -> bool): seq<Line> {
    if defs == [] then []
    else
      var last := defs[|defs| - 1];
      EnabledLines(defs[..|defs| - 1], holds) + if Enabled(last, holds) then [DefLine(last.ref, last.value)] else []
  }

  /** The first enabled string of at least the size, if there is one. */
  ghost function FirstLine(defs: seq<Def>, size: nat, holds: Guards -> bool): seq<Line> {
    if defs == [] then []
    else
      var last := defs[|defs| - 1];
      var before := FirstLine(defs[..|defs| - 1], size, holds);
      if before == [] && |last.value| >= size && Enabled(last, holds) then [SizeLine(size, last.ref)] else before
  }

  /** The first lines of the sizes below n. */
  ghost function FirstLines(defs: seq<Def>, n: nat, holds: Guards -> bool): seq<Line> {
    if n == 0 then [] else FirstLines(defs, n - 1, holds) + FirstLine(defs, n - 1, holds)
  }

  /** Place k is the first enabled string that is long enough. */
  ghost predicate FirstAt(defs: seq<Def>, size: nat, holds: Guards -> bool, k: nat)
    requires k < |defs|
  {
    && |defs[k].value| >= size && Enabled(defs[k], holds)
    && forall def | def in defs[..k] :: |def.value| >= size ==> !Enabled(def, holds)
  }

  lemma {:induction false} NoFirst(defs: seq<Def>, size: nat, holds: Guards -> bool)
    ensures FirstLine(defs, size, holds) == [] <==> forall def | def in defs :: |def.value| >= size ==> !Enabled(def, holds)
  {
    hide Enabled;
    if defs != [] {
      var most, last := defs[..|defs| - 1], defs[|defs| - 1];
      NoFirst(most, size, holds);
      assert defs == most + [last];
    }
  }

  /** FirstLine is the line of an enabled string that is long enough, such that no earlier one is, or no line if none is. */
  lemma {:induction false} FirstIsFirst(defs: seq<Def>, size: nat, holds: Guards -> bool)
    ensures FirstLine(defs, size, holds) == [] <==> forall def | def in defs :: |def.value| >= size ==> !Enabled(def, holds)
    ensures FirstLine(defs, size, holds) != [] ==>
      exists k | 0 <= k < |defs| :: FirstAt(defs, size, holds, k) && FirstLine(defs, size, holds) == [SizeLine(size, defs[k].ref)]
  {
    hide Enabled;
    NoFirst(defs, size, holds);
    if FirstLine(defs, size, holds) != [] {
      var most, last := defs[..|defs| - 1], defs[|defs| - 1];
      if FirstLine(most, size, holds) == [] {
        NoFirst(most, size, holds);
        assert FirstAt(defs, size, holds, |most|);
      } else {
        FirstIsFirst(most, size, holds);
        var k :| 0 <= k < |most| && FirstAt(most, size, holds, k) && FirstLine(most, size, holds) == [SizeLine(size, most[k].ref)];
        assert most[..k] == defs[..k] && most[k] == defs[k];
        assert FirstAt(defs, size, holds, k);
      }
    }
  }

  lemma EnabledNext(defs: seq<Def>, i: nat, holds: Guards -> bool)
    requires i < |defs|
    ensures EnabledLines(defs[..i + 1], holds)
      == EnabledLines(defs[..i], holds) + if Enabled(defs[i], holds) then [DefLine(defs[i].ref, defs[i].value)] else []
  {
    assert defs[..i + 1][..i] == defs[..i];
  }

  lemma {:induction false} FirstNext(defs: seq<Def>, i: nat, size: nat, holds: Guards -> bool)
    requires i < |defs|
    ensures FirstLine(defs[..i + 1], size, holds)
      == if FirstLine(defs[..i], size, holds) == [] && |defs[i].value| >= size && Enabled(defs[i], holds)
         then [SizeLine(size, defs[i].ref)] else FirstLine(defs[..i], size, holds)
  {
    assert defs[..i + 1][..i] == defs[..i];
  }

  lemma {:induction false} FirstStays(defs: seq<Def>, i: nat, size: nat, holds: Guards -> bool)
    requires i <= |defs| && FirstLine(defs[..i], size, holds) != []
    ensures FirstLine(defs, size, holds) == FirstLine(defs[..i], size, holds)
    decreases |defs| - i
  {
    if i == |defs| {
      assert defs[..i] == defs;
    } else {
      FirstNext(defs, i, size, holds);
      FirstStays(defs, i + 1, size, holds);
    }
  }

  // ---------------------------------------------------------------- definitions

  /** Behind the first i definitions: in a conditional exactly when the last guards do not always hold. */
  ghost predicate AfterDefs(lines: seq<Line>, last: Guards, defs: seq<Def>, i: nat, holds: Guards -> bool)
    requires i <= |defs|
  {
    var mode := if {} in last then Outside else Inside(holds(last), holds(last));
    Preprocessed(lines, holds) == Run(mode, EnabledLines(defs[..i], holds))
  }

  /** `generate_magic_string_defs`: the preprocessor keeps exactly the enabled definitions, for all macros. */
  method GenerateDefs(defs: seq<Def>) returns (lines: seq<Line>)
    ensures forall holds: Guards -> bool :: Preprocessed(lines, holds) == Run(Outside, EnabledLines(defs, holds))
  {
    lines := [];
    var last := ALWAYS;
    for i := 0 to |defs|
      invariant forall holds: Guards -> bool :: AfterDefs(lines, last, defs, i, holds)
    {
      ghost var before, was, next := lines, last, i + 1;
      var def := defs[i];
      if last != def.guards {
        if {} !in last {
          lines := lines + [Endif];
        }
        if {} !in def.guards {
          lines := lines + [If(def.guards)];
        }
      }
      lines := lines + [DefLine(def.ref, def.value)];
      last := def.guards;
      forall holds: Guards -> bool
        ensures AfterDefs(lines, last, defs, next, holds)
      {
        assert AfterDefs(before, was, defs, i, holds);
        DefWritten(before, was, defs, i, lines, holds);
      }
    }
    ghost var before := lines;
    if {} !in last {
      lines := lines + [Endif];
    }
    forall holds: Guards -> bool
      ensures Preprocessed(lines, holds) == Run(Outside, EnabledLines(defs, holds))
    {
      assert defs[..|defs|] == defs;
      assert AfterDefs(before, last, defs, |defs|, holds);
      Next(before, Endif, holds);
    }
  }

  lemma DefWritten(before: seq<Line>, last: Guards, defs: seq<Def>, i: nat, lines: seq<Line>, holds: Guards -> bool)
    requires i < |defs| && AfterDefs(before, last, defs, i, holds)
    requires var def := defs[i];
      var ended := if last != def.guards && {} !in last then before + [Endif] else before;
      var begun := if last != def.guards && {} !in def.guards then ended + [If(def.guards)] else ended;
      lines == begun + [DefLine(def.ref, def.value)]
    ensures AfterDefs(lines, defs[i].guards, defs, i + 1, holds)
  {
    var def := defs[i];
    var ended := if last != def.guards && {} !in last then before + [Endif] else before;
    var begun := if last != def.guards && {} !in def.guards then ended + [If(def.guards)] else ended;
    EnabledNext(defs, i, holds);
    Next(before, Endif, holds);
    Next(ended, If(def.guards), holds);
    Next(begun, DefLine(def.ref, def.value), holds);
    hide Preprocessed, EnabledLines;
  }

  // ---------------------------------------------------------------- first strings

  /** In the chain of one size, behind the first i strings: a group was kept if and only if one of them was enabled, and
      then its line is the output. */
  ghost predicate InChain(lines: seq<Line>, last: Guards, defs: seq<Def>, i: nat, size: nat, holds: Guards -> bool)
    requires i <= |defs|
  {
    InGroup(Preprocessed(lines, holds), last, FirstLines(defs, size, holds), FirstLine(defs[..i], size, holds), holds)
  }

  /** The run has put out what was before and what the chain has found. */
  ghost predicate InGroup(run: Run, last: Guards, before: seq<Line>, found: seq<Line>, holds: Guards -> bool) {
    && run.output == before + found
    && if last == ALWAYS then run.mode == Outside && found == []
       else {} !in last && run.mode.Inside? && run.mode.any == (found != []) && (holds(last) ==> run.mode.any)
  }

  /** What is printed for a string that is long enough. */
  function ChainLines(last: Guards, def: Def, size: nat): seq<Line> {
    (if {} !in def.guards && {} in last then [If(def.guards)]
     else if {} !in def.guards then [Elif(def.guards)]
     else if {} !in last then [Else]
     else [])
    + [SizeLine(size, def.ref)]
  }

  method PrintChainLines(lines: seq<Line>, last: Guards, def: Def, size: nat) returns (r: seq<Line>)
    ensures r == lines + ChainLines(last, def, size)
  {
    r := lines;
    if {} !in def.guards && {} in last {
      r := r + [If(def.guards)];
    } else if {} !in def.guards && {} !in last {
      r := r + [Elif(def.guards)];
    } else if {} in def.guards && {} !in last {
      r := r + [Else];
    }
    r := r + [SizeLine(size, def.ref)];
  }

  /** A string that is too short, or has the guards of the one before, changes nothing. */
  lemma ChainSkips(lines: seq<Line>, last: Guards, defs: seq<Def>, i: nat, size: nat, holds: Guards -> bool)
    requires i < |defs| && InChain(lines, last, defs, i, size, holds)
    requires |defs[i].value| < size || ({} !in defs[i].guards && defs[i].guards == last)
    ensures InChain(lines, last, defs, i + 1, size, holds)
  {
    FirstNext(defs, i, size, holds);
    hide Preprocessed, FirstLine, FirstLines;
  }

  lemma {:induction false} ChainStarts(lines: seq<Line>, defs: seq<Def>, size: nat, holds: Guards -> bool)
    requires Preprocessed(lines, holds) == Run(Outside, FirstLines(defs, size, holds))
    ensures InChain(lines, ALWAYS, defs, 0, size, holds)
  {
  }

  /** The printed lines, from the run before them. */
  lemma {:induction false} ChainPrints(lines: seq<Line>, last: Guards, def: Def, size: nat, holds: Guards -> bool)
    ensures var run := Preprocessed(lines, holds);
      var line := SizeLine(size, def.ref);
      var printed := ChainLines(last, def, size);
      Preprocessed(lines + printed, holds) == RunOn(run, printed, line, holds)
  {
    var line := SizeLine(size, def.ref);
    var printed := ChainLines(last, def, size);
    if |printed| == 1 {
      assert printed == [line];
      Next(lines, line, holds);
    } else {
      assert lines + printed == (lines + [printed[0]]) + [line];
      Next(lines, printed[0], holds);
      Next(lines + [printed[0]], line, holds);
    }
  }

  function RunOn(run: Run, printed: seq<Line>, line: Line, holds: Guards -> bool): Run
    requires printed != []
  {
    Preprocess(if |printed| == 1 then run else Preprocess(run, printed[0], holds), line, holds)
  }

  lemma GroupGrows(run: Run, last: Guards, def: Def, size: nat, before: seq<Line>, found: seq<Line>, holds: Guards -> bool)
    requires InGroup(run, last, before, found, holds)
    ensures var line := SizeLine(size, def.ref);
      var now := if found == [] && Enabled(def, holds) then [line] else found;
      var r := RunOn(run, ChainLines(last, def, size), line, holds);
      if {} !in def.guards then InGroup(r, def.guards, before, now, holds)
      else r.output == before + now && if last == ALWAYS then r.mode == Outside else r.mode.Inside?
  {
  }

  lemma ChainGrows(lines: seq<Line>, last: Guards, defs: seq<Def>, i: nat, size: nat, holds: Guards -> bool)
    requires i < |defs| && |defs[i].value| >= size && {} !in defs[i].guards
    requires InChain(lines, last, defs, i, size, holds)
    ensures InChain(lines + ChainLines(last, defs[i], size), defs[i].guards, defs, i + 1, size, holds)
  {
    FirstNext(defs, i, size, holds);
    ChainPrints(lines, last, defs[i], size, holds);
    GroupGrows(Preprocessed(lines, holds), last, defs[i], size, FirstLines(defs, size, holds), FirstLine(defs[..i], size, holds), holds);
    hide Preprocessed, Preprocess, FirstLine, FirstLines, InGroup, Enabled, ChainLines;
  }

  /** Behind the last string of the chain. */
  ghost predicate Closing(lines: seq<Line>, last: Guards, defs: seq<Def>, size: nat, holds: Guards -> bool) {
    var run := Preprocessed(lines, holds);
    && run.output == FirstLines(defs, size + 1, holds)
    && if last == ALWAYS then run.mode == Outside else run.mode.Inside?
  }

  /** A string that is always enabled ends the chain. */
  lemma ChainEnds(lines: seq<Line>, last: Guards, defs: seq<Def>, i: nat, size: nat, holds: Guards -> bool)
    requires i < |defs| && |defs[i].value| >= size && {} in defs[i].guards
    requires InChain(lines, last, defs, i, size, holds)
    ensures Closing(lines + ChainLines(last, defs[i], size), last, defs, size, holds)
  {
    FirstNext(defs, i, size, holds);
    ChainPrints(lines, last, defs[i], size, holds);
    GroupGrows(Preprocessed(lines, holds), last, defs[i], size, FirstLines(defs, size, holds), FirstLine(defs[..i], size, holds), holds);
    FoundNow(defs, i, size, holds);
    hide Preprocessed, Preprocess, FirstLine, InGroup, Enabled, ChainLines;
    FirstStays(defs, i + 1, size, holds);
  }

  lemma FoundNow(defs: seq<Def>, i: nat, size: nat, holds: Guards -> bool)
    requires i < |defs| && |defs[i].value| >= size && {} in defs[i].guards
    ensures FirstLine(defs[..i + 1], size, holds) != [] && Enabled(defs[i], holds)
  {
    hide FirstLine;
    FirstNext(defs, i, size, holds);
  }

  lemma ChainDone(lines: seq<Line>, last: Guards, defs: seq<Def>, size: nat, holds: Guards -> bool)
    requires InChain(lines, last, defs, |defs|, size, holds)
    ensures Closing(lines, last, defs, size, holds)
  {
    assert defs[..|defs|] == defs;
  }

  lemma {:induction false} ChainClosed(lines: seq<Line>, last: Guards, defs: seq<Def>, size: nat, holds: Guards -> bool)
    requires Closing(lines, last, defs, size, holds) && (last == ALWAYS || {} !in last)
    ensures Preprocessed(if {} !in last then lines + [Endif] else lines, holds) == Run(Outside, FirstLines(defs, size + 1, holds))
  {
    Next(lines, Endif, holds);
  }

  /** The chain of one size, lines 252-269: what is left of it is the first enabled string of that size. */
  method GenerateChain(defs: seq<Def>, size: nat, lines: seq<Line>) returns (r: seq<Line>)
    requires forall holds: Guards -> bool :: Preprocessed(lines, holds) == Run(Outside, FirstLines(defs, size, holds))
    ensures forall holds: Guards -> bool :: Preprocessed(r, holds) == Run(Outside, FirstLines(defs, size + 1, holds))
  {
    hide Preprocessed, FirstLine, FirstLines, InChain, Closing, ChainLines;
    r := lines;
    var last := ALWAYS;
    ghost var closed := false;
    forall holds: Guards -> bool
      ensures InChain(r, last, defs, 0, size, holds)
    {
      ChainStarts(lines, defs, size, holds);
    }
    for i := 0 to |defs|
      invariant !closed && (last == ALWAYS || {} !in last)
      invariant forall holds: Guards -> bool :: InChain(r, last, defs, i, size, holds)
    {
      var def := defs[i];
      ghost var was, before, next := last, r, i + 1;
      if |def.value| < size || ({} !in def.guards && def.guards == last) {
        forall holds: Guards -> bool
          ensures InChain(r, last, defs, next, size, holds)
        {
          ChainSkips(r, last, defs, i, size, holds);
        }
        continue;
      }
      r := PrintChainLines(r, last, def, size);
      if {} in def.guards {
        forall holds: Guards -> bool
          ensures Closing(r, last, defs, size, holds)
        {
          ChainEnds(before, last, defs, i, size, holds);
        }
        closed := true;
        break;
      }
      last := def.guards;
      forall holds: Guards -> bool
        ensures InChain(r, last, defs, next, size, holds)
      {
        ChainGrows(before, was, defs, i, size, holds);
      }
    }
    forall holds: Guards -> bool
      ensures Closing(r, last, defs, size, holds)
    {
      if !closed {
        ChainDone(r, last, defs, size, holds);
      }
    }
    ghost var before := r;
    if {} !in last {
      r := r + [Endif];
    }
    forall holds: Guards -> bool
      ensures Preprocessed(r, holds) == Run(Outside, FirstLines(defs, size + 1, holds))
    {
      ChainClosed(before, last, defs, size, holds);
    }
  }

  /** `generate_first_magic_strings`: for every size up to that of the last string the preprocessor leaves the first enabled
      string of at least that size, for all macros. */
  method GenerateFirst(defs: seq<Def>) returns (lines: seq<Line>)
    requires defs != []
    ensures forall holds: Guards -> bool ::
      Preprocessed(lines, holds) == Run(Outside, FirstLines(defs, |defs[|defs| - 1].value| + 1, holds))
  {
    hide Preprocessed;
    lines := [];
    NothingYet(defs);
    for size := 0 to |defs[|defs| - 1].value| + 1
      invariant forall holds: Guards -> bool :: Preprocessed(lines, holds) == Run(Outside, FirstLines(defs, size, holds))
    {
      lines := GenerateChain(defs, size, lines);
    }
  }

  lemma {:induction false} NothingYet(defs: seq<Def>)
    ensures forall holds: Guards -> bool :: Preprocessed([], holds) == Run(Outside, FirstLines(defs, 0, holds))
  {
  }

  // ---------------------------------------------------------------- references

  lemma {:induction false} EnabledKept(defs: seq<Def>, k: nat, holds: Guards -> bool)
    requires k < |defs| && Enabled(defs[k], holds)
    ensures DefLine(defs[k].ref, defs[k].value) in EnabledLines(defs, holds)
  {
    if k < |defs| - 1 {
      EnabledKept(defs[..|defs| - 1], k, holds);
    }
  }

  /** The conditions as `guards_to_str` writes them hold under these values of the macros. */
  ghost predicate WrittenTrue(guards: Guards, order: Clause -> seq<Guard>, value: Guard -> Disjuncts) {
    exists clause | clause in guards :: True(ClauseText(order(clause), value))
  }

  /** A guard is what its text is worth. */
  ghost function Meaning(value: Guard -> Disjuncts): Truth {
    guard => True(value(guard))
  }

  /** A string is defined wherever one of its references is compiled, whatever the order its guards are visited and written
      in. */
  lemma ReferencedIsDefined(defs: seq<Def>, k: nat, uses: seq<Clause>, orders: seq<seq<Guard>>, lines: seq<Line>,
                            holds: Guards -> bool, order: Clause -> seq<Guard>, value: Guard -> Disjuncts)
    requires k < |defs| && |uses| == |orders| && Simplified(uses, orders) == Done(defs[k].guards)
    requires Referenced(uses, Meaning(value))
    requires forall clause, guard | clause in defs[k].guards && guard in order(clause) :: guard in clause
    requires holds(defs[k].guards) == WrittenTrue(defs[k].guards, order, value)
    requires Preprocessed(lines, holds) == Run(Outside, EnabledLines(defs, holds))
    ensures DefLine(defs[k].ref, defs[k].value) in Preprocessed(lines, holds).output
  {
    hide Preprocessed, EnabledLines, Simplified, Referenced, ClauseText, True;
    SimplifiedCovers(uses, orders, defs[k].guards, Meaning(value));
    var clause :| clause in defs[k].guards && ClauseTrue(clause, Meaning(value));
    assert AllTrue(order(clause), value);
    TextCovers(order(clause), value);
    assert Enabled(defs[k], holds);
    EnabledKept(defs, k, holds);
  }
}
