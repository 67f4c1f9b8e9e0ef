/** What the simplified guards of tools/gen-strings.py mean, compared with the guards of the references. */
module MagicMeaning {
  import opened MagicGuards

  /** Under one assignment of the macros every guard is true or false. */
  type Truth = Guard -> bool

  ghost predicate ClauseTrue(clause: Clause, truth: Truth) {
    forall guard | guard in clause :: truth(guard)
  }

  ghost predicate GuardsTrue(guards: Guards, truth: Truth) {
    exists clause | clause in guards :: ClauseTrue(clause, truth)
  }

  /** Some reference of the string is compiled. */
  ghost predicate Referenced(uses: seq<Clause>, truth: Truth) {
    exists use | use in uses :: ClauseTrue(use, truth)
  }

  // ---------------------------------------------------------------- what a guard says

  /** An expression without the parentheses around it, or its negation. */
  datatype Literal = Literal(text: string, positive: bool)

  function Opposite(l: Literal): Literal {
    l.(positive := !l.positive)
  }

  function Bare(text: string): string {
    if |text| >= 2 && text[0] == '(' && text[|text| - 1] == ')' then Bare(text[1..|text| - 1]) else text
  }

  predicate Begins(guard: Guard, c: char) {
    guard != "" && guard[0] == c
  }

  /** The guard of an `#if` begins with its space; those of `#else` and `#ifndef` begin with `!`, that of `#ifdef` with neither. */
  function Says(guard: Guard): Literal {
    if Begins(guard, '!') then Literal(Bare(guard[1..]), false)
    else Literal(Bare(if Begins(guard, ' ') then guard[1..] else guard), true)
  }

  /** What the guards are worth when the expressions have the given values. */
  function Worth(values: string -> bool): Truth {
    guard => values(Says(guard).text) == Says(guard).positive
  }

  lemma BareInside(text: string)
    ensures Bare("(" + text + ")") == Bare(text)
  {
    var outer := "(" + text + ")";
    assert outer[1..|outer| - 1] == text;
  }

  /** What the simplification takes for the negation of a guard is that for a guard that begins with the space of its `#if`. Of a
      guard that begins with `!` it drops the `!`, and looks for a text that means the same as the guard. */
  lemma NegationSays(guard: Guard)
    ensures Begins(guard, ' ') ==> Says(Negated(guard)) == Opposite(Says(guard))
    ensures Begins(guard, '!') ==> Says(Negated(guard)) == Says(guard)
  {
    var inside := if guard == "" then "" else guard[1..];
    BareInside(inside);
    assert Negated(guard)[1..] == "(" + inside + ")";
  }

  // ---------------------------------------------------------------- coverage

  /** The simplified condition holds wherever a reference is compiled. */
  lemma SimplifiedCovers(uses: seq<Clause>, orders: seq<seq<Guard>>, guards: Guards, truth: Truth)
    requires |uses| == |orders| && Simplified(uses, orders) == Done(guards) && Referenced(uses, truth)
    ensures GuardsTrue(guards, truth)
  {
    hide Simplified, Reduced, Negated;
    SimplifiedParts(uses, orders, guards);
    var use :| use in uses && ClauseTrue(use, truth);
    var clause :| clause in guards && clause <= use;
    assert ClauseTrue(clause, truth);
  }

  // ---------------------------------------------------------------- exactness

  /** Whatever was trimmed from a slot, some reference has its opposite and nothing else that the slot has lost. */
  ghost predicate Compensated(uses: seq<Clause>, slots: seq<Slot>)
    requires |slots| == |uses|
  {
    forall k | 0 <= k < |slots| && slots[k].Kept? :: CompensatedIn(uses, uses[k], slots[k].guards)
  }

  ghost predicate CompensatedIn(uses: seq<Clause>, use: Clause, clause: Clause) {
    forall guard | guard in use - clause :: Begins(guard, ' ') && exists other | other in uses :: Answers(other, guard, clause)
  }

  predicate Answers(other: Clause, guard: Guard, clause: Clause) {
    Negated(guard) in other && other - {Negated(guard)} <= clause
  }

  /** Then the simplified condition is exactly that of the references. */
  lemma SimplifiedExact(uses: seq<Clause>, orders: seq<seq<Guard>>, guards: Guards, values: string -> bool)
    requires |uses| == |orders| && Simplified(uses, orders) == Done(guards)
    requires After(uses, orders, |uses|).Done? && Compensated(uses, After(uses, orders, |uses|).value)
    ensures GuardsTrue(guards, Worth(values)) <==> Referenced(uses, Worth(values))
  {
    var truth := Worth(values);
    if Referenced(uses, truth) {
      SimplifiedCovers(uses, orders, guards, truth);
    }
    if GuardsTrue(guards, truth) {
      LastTurn(uses, orders);
      var slots := After(uses, orders, |uses|).value;
      hide After;
      var clause :| clause in guards && ClauseTrue(clause, truth);
      var k :| 0 <= k < |slots| && slots[k].Kept? && slots[k].guards == clause;
      TurnsKeep(uses, orders, |uses|);
      SlotExact(uses, uses[k], clause, values);
    }
  }

  lemma SlotExact(uses: seq<Clause>, use: Clause, clause: Clause, values: string -> bool)
    requires use in uses && clause <= use && CompensatedIn(uses, use, clause) && ClauseTrue(clause, Worth(values))
    ensures Referenced(uses, Worth(values))
  {
    hide Negated, Says, Begins;
    var truth := Worth(values);
    if guard :| guard in use && !truth(guard) {
      assert guard in use - clause;
      var other :| other in uses && Answers(other, guard, clause);
      NegationSays(guard);
      assert truth(Negated(guard));
      assert forall g | g in other :: g == Negated(guard) || g in other - {Negated(guard)};
      assert ClauseTrue(other, truth);
    } else {
      assert ClauseTrue(use, truth);
    }
  }

  /** Every guard that can be trimmed from a reference is an `#if` guard, and some reference has its opposite and nothing else
      that can be trimmed from the first. */
  ghost predicate Answered(uses: seq<Clause>) {
    forall use, guard | use in uses && guard in use && NegatedIn(uses, guard) ::
      Begins(guard, ' ') && exists other | other in uses :: Answers(other, guard, Lasting(uses, use))
  }

  /** For any number of references, which a caller can check on the references alone: if every guard that can be trimmed is answered,
      the simplified condition is that of the references, in every order and for all values. */
  lemma AnsweredExact(uses: seq<Clause>, orders: seq<seq<Guard>>, guards: Guards, values: string -> bool)
    requires |uses| == |orders| && Simplified(uses, orders) == Done(guards) && Answered(uses)
    ensures GuardsTrue(guards, Worth(values)) <==> Referenced(uses, Worth(values))
  {
    hide Negated, Begins, Worth, Simplified, GuardsTrue, Referenced, AllReduced;
    LastTurn(uses, orders);
    TurnsKeep(uses, orders, |uses|);
    var slots := After(uses, orders, |uses|).value;
    hide After;
    forall k | 0 <= k < |slots| && slots[k].Kept?
      ensures CompensatedIn(uses, uses[k], slots[k].guards)
    {
      SlotReduced(uses, slots, k);
      SlotAnswered(uses, uses[k], slots[k].guards);
    }
    SimplifiedExact(uses, orders, guards, values);
  }

  lemma SlotReduced(uses: seq<Clause>, slots: seq<Slot>, k: nat)
    requires AllReduced(uses, slots) && k < |slots| && slots[k].Kept?
    ensures k < |uses| && uses[k] in uses && Reduced(uses, uses[k], slots[k].guards)
  {
  }

  lemma SlotAnswered(uses: seq<Clause>, use: Clause, clause: Clause)
    requires Answered(uses) && use in uses && Reduced(uses, use, clause)
    ensures CompensatedIn(uses, use, clause)
  {
    hide Negated, Begins;
    forall guard | guard in use - clause
      ensures Begins(guard, ' ') && exists other | other in uses :: Answers(other, guard, clause)
    {
      assert NegatedIn(uses, guard);
      var other :| other in uses && Answers(other, guard, Lasting(uses, use));
      LastingStays(uses, use, clause);
      assert Answers(other, guard, clause);
    }
  }

  // ---------------------------------------------------------------- exactly when

  function Literals(clause: Clause): set<Literal> {
    set guard | guard in clause :: Says(guard)
  }

  /** The clause says something and its opposite. */
  predicate Impossible(clause: Clause) {
    exists l | l in Literals(clause) :: Opposite(l) in Literals(clause)
  }

  /** One thing that each reference says beyond the clause, no two of them opposite. */
  ghost predicate Escapes(picks: seq<Literal>, clause: Clause, uses: seq<Clause>) {
    && |picks| == |uses| && (forall k | 0 <= k < |uses| :: picks[k] in Literals(uses[k]) - Literals(clause))
    && forall l, m | l in picks && m in picks :: m != Opposite(l)
  }

  /** The clause can never hold, or whatever one picks from each reference beyond it contains opposites. */
  ghost predicate WithinAll(clause: Clause, uses: seq<Clause>) {
    Impossible(clause) || forall picks: seq<Literal> :: !Escapes(picks, clause, uses)
  }

  predicate LiteralTrue(l: Literal, values: string -> bool) {
    values(l.text) == l.positive
  }

  lemma ClauseLiterals(clause: Clause, values: string -> bool)
    ensures ClauseTrue(clause, Worth(values)) <==> forall l | l in Literals(clause) :: LiteralTrue(l, values)
  {
    hide Says;
    forall guard | guard in clause
      ensures Says(guard) in Literals(clause) && Worth(values)(guard) == LiteralTrue(Says(guard), values)
    {
    }
  }

  /** Values that make the clause true and what was picked false. */
  lemma Refuted(clause: Clause, uses: seq<Clause>, picks: seq<Literal>) returns (values: string -> bool)
    requires !Impossible(clause) && Escapes(picks, clause, uses)
    ensures ClauseTrue(clause, Worth(values)) && forall l | l in picks :: !LiteralTrue(l, values)
  {
    hide Literals;
    values := text =>
      if Literal(text, true) in picks then false
      else if Literal(text, false) in picks then true
      else Literal(text, true) in Literals(clause);
    forall l | l in picks
      ensures l !in Literals(clause) && !LiteralTrue(l, values)
    {
      assert Opposite(l) !in picks;
      assert l == Literal(l.text, true) || Opposite(l) == Literal(l.text, true);
    }
    forall x | x in Literals(clause)
      ensures LiteralTrue(x, values)
    {
      assert x !in picks && Opposite(x) !in Literals(clause);
      assert if x.positive then x == Literal(x.text, true) else Opposite(x) == Literal(x.text, true) && x == Literal(x.text, false);
    }
    ClauseLiterals(clause, values);
  }

  /** One false literal from each reference that is not compiled. */
  lemma {:induction false} FalseOnes(uses: seq<Clause>, values: string -> bool) returns (picks: seq<Literal>)
    requires !Referenced(uses, Worth(values))
    ensures |picks| == |uses| && forall k | 0 <= k < |uses| :: picks[k] in Literals(uses[k]) && !LiteralTrue(picks[k], values)
  {
    hide Worth, Literals, ClauseTrue, LiteralTrue;
    picks := [];
    for n := 0 to |uses|
      invariant |picks| == n && forall k | 0 <= k < n :: picks[k] in Literals(uses[k]) && !LiteralTrue(picks[k], values)
    {
      assert uses[n] in uses;
      ClauseLiterals(uses[n], values);
      var l :| l in Literals(uses[n]) && !LiteralTrue(l, values);
      picks := picks + [l];
    }
  }

  lemma NotWithin(clause: Clause, uses: seq<Clause>, values: string -> bool)
    requires ClauseTrue(clause, Worth(values)) && !Referenced(uses, Worth(values))
    ensures !WithinAll(clause, uses)
  {
    hide Worth, Literals, ClauseTrue;
    ClauseLiterals(clause, values);
    var picks := FalseOnes(uses, values);
    forall l, m | l in picks && m in picks
      ensures m != Opposite(l)
    {
      assert !LiteralTrue(l, values) && !LiteralTrue(m, values);
    }
    assert Escapes(picks, clause, uses);
    forall x | x in Literals(clause)
      ensures Opposite(x) !in Literals(clause)
    {
      assert LiteralTrue(x, values) && !LiteralTrue(Opposite(x), values);
    }
  }

  /** A clause holds only where some reference is compiled if and only if it is within them. */
  lemma WithinExactly(clause: Clause, uses: seq<Clause>)
    ensures (forall values: string -> bool | ClauseTrue(clause, Worth(values)) :: Referenced(uses, Worth(values)))
            <==> WithinAll(clause, uses)
  {
    hide Worth, Literals, ClauseTrue;
    if WithinAll(clause, uses) {
      forall values: string -> bool | ClauseTrue(clause, Worth(values))
        ensures Referenced(uses, Worth(values))
      {
        if !Referenced(uses, Worth(values)) {
          NotWithin(clause, uses, values);
          assert false;
        }
      }
    } else {
      var picks :| Escapes(picks, clause, uses);
      var values := Refuted(clause, uses, picks);
      forall k | 0 <= k < |uses|
        ensures !ClauseTrue(uses[k], Worth(values))
      {
        ClauseLiterals(uses[k], values);
        assert picks[k] in picks && picks[k] in Literals(uses[k]);
      }
    }
  }

  /** Any number of references in any order: the simplified condition is that of the references, for all values, if and only if
      every clause that remains is within them. */
  lemma SimplifiedExactly(uses: seq<Clause>, orders: seq<seq<Guard>>, guards: Guards)
    requires |uses| == |orders| && Simplified(uses, orders) == Done(guards)
    ensures (forall values: string -> bool :: GuardsTrue(guards, Worth(values)) <==> Referenced(uses, Worth(values)))
            <==> forall clause | clause in guards :: WithinAll(clause, uses)
  {
    hide Simplified, WithinAll, Worth, ClauseTrue, Referenced;
    forall values: string -> bool | Referenced(uses, Worth(values))
      ensures GuardsTrue(guards, Worth(values))
    {
      SimplifiedCovers(uses, orders, guards, Worth(values));
    }
    forall clause | clause in guards
      ensures WithinAll(clause, uses)
              <==> forall values: string -> bool | ClauseTrue(clause, Worth(values)) :: Referenced(uses, Worth(values))
    {
      WithinExactly(clause, uses);
    }
  }

  /** The same on the references alone, if none has a guard beside its negation: the order does not matter then. */
  lemma PlainExactly(uses: seq<Clause>, orders: seq<seq<Guard>>)
    requires Orders(orders, uses) && (forall use | use in uses :: Plain(use)) && PlainAfter(uses, |uses|).Done?
    ensures Simplified(uses, orders).Done?
    ensures (forall values: string -> bool ::
               GuardsTrue(Simplified(uses, orders).value, Worth(values)) <==> Referenced(uses, Worth(values)))
            <==> forall clause | clause in Remaining(PlainAfter(uses, |uses|).value) :: WithinAll(clause, uses)
  {
    hide WithinAll, Worth, GuardsTrue, Referenced, Orders, Plain, PlainAfter;
    OrderDoesNotMatter(uses, orders, |uses|);
    assert |uses| == |orders| by {
      SameLength(uses, orders);
    }
    SimplifiedExactly(uses, orders, Simplified(uses, orders).value);
  }

  lemma SameLength(uses: seq<Clause>, orders: seq<seq<Guard>>)
    requires Orders(orders, uses)
    ensures |uses| == |orders|
  {
  }

  // ---------------------------------------------------------------- two references

  /** The clause can never hold, or what two references say beyond it is nothing, for one of them, or one thing and its opposite. */
  predicate Within(clause: Clause, u: Clause, h: Clause) {
    || Impossible(clause)
    || forall l, m | l in Literals(u) - Literals(clause) && m in Literals(h) - Literals(clause) :: m == Opposite(l)
  }

  lemma WithinTwo(clause: Clause, u: Clause, h: Clause)
    ensures WithinAll(clause, [u, h]) <==> Within(clause, u, h)
  {
    hide Literals, Impossible;
    var uses := [u, h];
    if l, m :| l in Literals(u) - Literals(clause) && m in Literals(h) - Literals(clause) && m != Opposite(l) {
      assert Escapes([l, m], clause, uses);
    }
    forall picks | Escapes(picks, clause, uses)
      ensures exists l, m | l in Literals(u) - Literals(clause) && m in Literals(h) - Literals(clause) :: m != Opposite(l)
    {
      assert picks[0] in Literals(uses[0]) - Literals(clause) && picks[1] in Literals(uses[1]) - Literals(clause);
      assert picks[0] in picks && picks[1] in picks;
    }
  }

  /** What a turn leaves of a clause beside another one. */
  function Left(clause: Clause, other: Clause): Clause {
    set guard | guard in clause && Negated(guard) !in other
  }

  /** What becomes of two references. */
  function TwoGuards(u: Clause, h: Clause): Guards {
    var s := Left(u, h);
    if s < h then {s}
    else
      var t := Left(h, s);
      if t < s then {t} else {s, t}
  }

  lemma TwoHolders(slots: seq<Slot>, guard: Guard)
    requires |slots| == 2
    ensures AllHolders(slots, guard) == (if Holder(slots[0], guard) then 1 else 0) + (if Holder(slots[1], guard) then 1 else 0)
  {
    assert Holders(slots, guard, 0) == 0;
    assert Holders(slots, guard, 1) == if Holder(slots[0], guard) then 1 else 0;
  }

  lemma TwoSimplified(u: Clause, h: Clause, orders: seq<seq<Guard>>)
    requires Plain(u) && Plain(h) && Orders(orders, [u, h])
    ensures Simplified([u, h], orders) == Done(TwoGuards(u, h))
  {
    hide Negated, Left, Plain;
    var uses, s := [u, h], Left(u, h);
    assert forall use | use in uses :: use == uses[0] || use == uses[1];
    OrderDoesNotMatter(uses, orders, 2);
    FirstTurn(u, h);
    assert Start(uses) == [Kept(u), Kept(h)] && PlainAfter(uses, 0) == Done(Start(uses));
    var first := if s < h then [Kept(s), Gone] else [Kept(s), Kept(h)];
    assert PlainAfter(uses, 1) == Done(first);
    if !(s < h) {
      SecondTurn(s, h);
    }
    TwoRemain(s, Left(h, s));
  }

  lemma FirstTurn(u: Clause, h: Clause)
    requires Plain(u)
    ensures var s := Left(u, h);
      PlainTurn([Kept(u), Kept(h)], 0) == Done(if s < h then [Kept(s), Gone] else [Kept(s), Kept(h)])
  {
    hide Negated, AllHolders;
    var slots, s := [Kept(u), Kept(h)], Left(u, h);
    forall guard | guard in u
      ensures AllHolders(slots, Negated(guard)) == if Negated(guard) in h then 1 else 0
    {
      TwoHolders(slots, Negated(guard));
    }
    assert Unopposed(slots, u) == s;
    assert slots[0 := Kept(s)] == [Kept(s), Kept(h)];
    assert Dropped([Kept(s), Kept(h)], 0) == if s < h then [Kept(s), Gone] else [Kept(s), Kept(h)];
  }

  lemma SecondTurn(s: Clause, h: Clause)
    requires Plain(h)
    ensures var t := Left(h, s);
      PlainTurn([Kept(s), Kept(h)], 1) == Done(if t < s then [Gone, Kept(t)] else [Kept(s), Kept(t)])
  {
    hide Negated, AllHolders;
    var slots, t := [Kept(s), Kept(h)], Left(h, s);
    forall guard | guard in h
      ensures AllHolders(slots, Negated(guard)) == if Negated(guard) in s then 1 else 0
    {
      TwoHolders(slots, Negated(guard));
    }
    assert Unopposed(slots, h) == t;
    assert slots[1 := Kept(t)] == [Kept(s), Kept(t)];
    assert Dropped([Kept(s), Kept(t)], 1) == if t < s then [Gone, Kept(t)] else [Kept(s), Kept(t)];
  }

  lemma TwoRemain(s: Clause, t: Clause)
    ensures Remaining([Kept(s), Gone]) == {s} && Remaining([Gone, Kept(t)]) == {t} && Remaining([Kept(s), Kept(t)]) == {s, t}
  {
    assert Kept(s) in [Kept(s), Gone] && Kept(t) in [Gone, Kept(t)];
    assert Kept(s) in [Kept(s), Kept(t)] && Kept(t) in [Kept(s), Kept(t)];
  }

  /** What is left of each reference is within the two. */
  predicate Lossless(u: Clause, h: Clause) {
    var s := Left(u, h);
    Within(s, u, h) && (s < h || Within(Left(h, s), u, h))
  }

  lemma TwoMean(u: Clause, h: Clause, truth: Truth)
    ensures var s := Left(u, h);
      GuardsTrue(TwoGuards(u, h), truth) <==> ClauseTrue(s, truth) || (!(s < h) && ClauseTrue(Left(h, s), truth))
    ensures Referenced([u, h], truth) <==> ClauseTrue(u, truth) || ClauseTrue(h, truth)
    ensures ClauseTrue(u, truth) ==> ClauseTrue(Left(u, h), truth)
    ensures ClauseTrue(h, truth) ==> GuardsTrue(TwoGuards(u, h), truth)
  {
    hide Negated;
    assert u in [u, h] && h in [u, h];
    var s := Left(u, h);
    assert s in TwoGuards(u, h) || Left(h, s) in TwoGuards(u, h);
    assert s < h || Left(h, s) in TwoGuards(u, h);
  }

  /** Any two references, none of which has a guard beside its negation: in every order of their guards the simplified condition is
      that of the references, for all values, if and only if what is left of each is within the two. */
  lemma TwoExactly(u: Clause, h: Clause, orders: seq<seq<Guard>>)
    requires Plain(u) && Plain(h) && Orders(orders, [u, h])
    ensures Simplified([u, h], orders).Done?
    ensures (forall values: string -> bool ::
               GuardsTrue(Simplified([u, h], orders).value, Worth(values)) <==> Referenced([u, h], Worth(values)))
            <==> Lossless(u, h)
  {
    TwoSimplified(u, h, orders);
    hide Simplified, Orders, TwoGuards, Left, WithinAll, Within, Worth, ClauseTrue, GuardsTrue, Referenced;
    var s := Left(u, h);
    forall values: string -> bool {
      TwoMean(u, h, Worth(values));
    }
    WithinExactly(s, [u, h]);
    WithinExactly(Left(h, s), [u, h]);
    WithinTwo(s, u, h);
    WithinTwo(Left(h, s), u, h);
  }

  // ---------------------------------------------------------------- examples

  /** If each of two references has an `#if` guard that the other has negated, something is lost, as long as the guards say
      different things and neither reference is impossible. */
  lemma BothWaysWeaken(u: Clause, h: Clause, a: Guard, b: Guard)
    requires Plain(u) && Plain(h) && !Impossible(u)
    requires forall x, y | x in u + h && y in u + h && Says(x) == Says(y) :: x == y
    requires a in u && Begins(a, ' ') && Negated(a) in h && b in h && Begins(b, ' ') && Negated(b) in u
    ensures !Lossless(u, h)
  {
    hide Negated, Begins;
    var s := Left(u, h);
    assert a !in s && b !in u && b !in s;
    assert Says(a).positive && Says(b).positive by {
      NegationSays(a);
      PositiveIf(a);
      PositiveIf(b);
    }
    assert Literals(s) <= Literals(u);
    assert Says(a) in Literals(u) - Literals(s) && Says(b) in Literals(h) - Literals(s);
  }

  lemma PositiveIf(guard: Guard)
    requires Begins(guard, ' ')
    ensures Says(guard).positive
  {
  }

  /** One letter under an `#if`, and its negation. */
  lemma LetterSays(c: char)
    requires c != '(' && c != ')'
    ensures Negated([' ', c]) == ['!', '(', c, ')']
    ensures Says([' ', c]) == Literal([c], true) && Says(['!', '(', c, ')']) == Literal([c], false)
    ensures Negated(['!', '(', c, ')'])[2] == '('
  {
    BareInside([c]);
    assert [' ', c][1..] == [c] && ['!', '(', c, ')'][1..] == "(" + [c] + ")";
  }

  /** The intended use: A and C or not A becomes C or not A, and that is the same. */
  lemma IntendedUse(orders: seq<seq<Guard>>, values: string -> bool)
    requires Orders(orders, [{" A", " C"}, {"!(A)"}])
    ensures Simplified([{" A", " C"}, {"!(A)"}], orders) == Done({{" C"}, {"!(A)"}})
    ensures GuardsTrue({{" C"}, {"!(A)"}}, Worth(values)) <==> Referenced([{" A", " C"}, {"!(A)"}], Worth(values))
  {
    var u, h: Clause := {" A", " C"}, {"!(A)"};
    LetterSays('A');
    LetterSays('C');
    assert Negated(" A") == "!(A)" && Negated(" C") == "!(C)";
    hide Negated, Says;
    assert "!(C)"[2] == 'C' && "!(A)"[2] == 'A';
    assert Left(u, h) == {" C"} && Left(h, {" C"}) == h;
    TwoSimplified(u, h, orders);
    TwoMean(u, h, Worth(values));
  }

  lemma WeakerExampleLeft()
    ensures Plain({" A", " C"}) && Plain({"!(A)", " D"})
    ensures Left({" A", " C"}, {"!(A)", " D"}) == {" C"} && Left({"!(A)", " D"}, {" C"}) == {"!(A)", " D"}
  {
    LetterSays('A');
    LetterSays('C');
    LetterSays('D');
    assert Negated(" A") == "!(A)" && Negated(" C") == "!(C)" && Negated(" D") == "!(D)";
    hide Negated, Says;
    assert "!(A)"[2] == 'A' && "!(C)"[2] == 'C' && "!(D)"[2] == 'D';
  }

  /** A and C or not A and D becomes C or not A and D, which C alone makes true. */
  lemma WeakerExample(orders: seq<seq<Guard>>, values: string -> bool)
    requires Orders(orders, [{" A", " C"}, {"!(A)", " D"}])
    requires !values("A") && values("C") && !values("D")
    ensures Simplified([{" A", " C"}, {"!(A)", " D"}], orders) == Done({{" C"}, {"!(A)", " D"}})
    ensures GuardsTrue({{" C"}, {"!(A)", " D"}}, Worth(values)) && !Referenced([{" A", " C"}, {"!(A)", " D"}], Worth(values))
  {
    var u, h: Clause := {" A", " C"}, {"!(A)", " D"};
    WeakerExampleLeft();
    LetterSays('A');
    LetterSays('C');
    LetterSays('D');
    hide Negated, Says, Left, Plain;
    TwoSimplified(u, h, orders);
    TwoMean(u, h, Worth(values));
    assert " A" in u && " D" in h;
  }

  lemma NegationFirstLeft()
    ensures Plain({" B", "!(Z)"}) && Plain({" D", " Z"})
    ensures Left({" B", "!(Z)"}, {" D", " Z"}) == {" B", "!(Z)"} && Left({" D", " Z"}, {" B", "!(Z)"}) == {" D"}
  {
    LetterSays('B');
    LetterSays('D');
    LetterSays('Z');
    assert Negated(" B") == "!(B)" && Negated(" D") == "!(D)" && Negated(" Z") == "!(Z)";
    hide Negated, Says;
    assert "!(B)"[2] == 'B' && "!(D)"[2] == 'D' && "!(Z)"[2] == 'Z';
  }

  /** The negation may come first: B and not Z or D and Z becomes B and not Z or D. */
  lemma NegationFirst(orders: seq<seq<Guard>>, values: string -> bool)
    requires Orders(orders, [{" B", "!(Z)"}, {" D", " Z"}])
    requires !values("B") && values("D") && !values("Z")
    ensures Simplified([{" B", "!(Z)"}, {" D", " Z"}], orders) == Done({{" B", "!(Z)"}, {" D"}})
    ensures GuardsTrue({{" B", "!(Z)"}, {" D"}}, Worth(values)) && !Referenced([{" B", "!(Z)"}, {" D", " Z"}], Worth(values))
  {
    var u, h: Clause := {" B", "!(Z)"}, {" D", " Z"};
    NegationFirstLeft();
    LetterSays('B');
    LetterSays('D');
    LetterSays('Z');
    hide Negated, Says, Left, Plain;
    TwoSimplified(u, h, orders);
    TwoMean(u, h, Worth(values));
    assert " B" in u && " Z" in h;
  }

  /** Negations in both: A and not B or B and not A becomes not B or not A. */
  lemma NegationsInBoth(orders: seq<seq<Guard>>, values: string -> bool)
    requires Orders(orders, [{" A", "!(B)"}, {" B", "!(A)"}])
    requires !values("A") && !values("B")
    ensures Simplified([{" A", "!(B)"}, {" B", "!(A)"}], orders) == Done({{"!(B)"}, {"!(A)"}})
    ensures GuardsTrue({{"!(B)"}, {"!(A)"}}, Worth(values)) && !Referenced([{" A", "!(B)"}, {" B", "!(A)"}], Worth(values))
  {
    var u, h: Clause := {" A", "!(B)"}, {" B", "!(A)"};
    LetterSays('A');
    LetterSays('B');
    assert Negated(" A") == "!(A)" && Negated(" B") == "!(B)";
    hide Negated, Says;
    assert "!(B)"[2] == 'B' && "!(A)"[2] == 'A';
    assert Left(u, h) == {"!(B)"} && Left(h, {"!(B)"}) == {"!(A)"};
    TwoSimplified(u, h, orders);
    TwoMean(u, h, Worth(values));
    assert " A" in u && " B" in h;
  }

  /** An `#ifndef` and the `#else` of an `#ifdef` mean the same and are taken for opposites. */
  lemma SameTakenForOpposite()
    ensures Negated("!defined (X)") == "!(defined (X))" && Says("!defined (X)") == Says("!(defined (X))")
    ensures Says("!defined (X)") == Literal("defined (X)", false)
  {
    NegationSays("!defined (X)");
    var text := "defined (X)";
    assert "!defined (X)"[1..] == text && text[0] == 'd';
    assert Negated("!defined (X)") == "!(defined (X))";
  }

  lemma IfndefLeft()
    ensures Plain({" B", "!defined (X)"}) && Plain({" D", "!(defined (X))"})
    ensures Left({" B", "!defined (X)"}, {" D", "!(defined (X))"}) == {" B"}
    ensures Left({" D", "!(defined (X))"}, {" B"}) == {" D", "!(defined (X))"}
  {
    SameTakenForOpposite();
    LetterSays('B');
    LetterSays('D');
    assert Negated(" B") == "!(B)" && Negated(" D") == "!(D)" && Negated("!(defined (X))")[2] == '(';
    hide Negated, Says;
    assert "!(B)"[2] == 'B' && "!(D)"[2] == 'D' && "!(defined (X))"[2] == 'd' && "!defined (X)"[2] == 'e';
    assert " B"[0] == ' ' && " D"[0] == ' ';
  }

  /** B and X not defined, or D and X not defined, becomes B, or D and X not defined. */
  lemma IfndefExample(orders: seq<seq<Guard>>, values: string -> bool)
    requires Orders(orders, [{" B", "!defined (X)"}, {" D", "!(defined (X))"}])
    requires values("B") && values("defined (X)")
    ensures Simplified([{" B", "!defined (X)"}, {" D", "!(defined (X))"}], orders) == Done({{" B"}, {" D", "!(defined (X))"}})
    ensures GuardsTrue({{" B"}, {" D", "!(defined (X))"}}, Worth(values))
    ensures !Referenced([{" B", "!defined (X)"}, {" D", "!(defined (X))"}], Worth(values))
  {
    var u, h: Clause := {" B", "!defined (X)"}, {" D", "!(defined (X))"};
    IfndefLeft();
    LetterSays('B');
    SameTakenForOpposite();
    hide Negated, Says, Left, Plain;
    TwoSimplified(u, h, orders);
    TwoMean(u, h, Worth(values));
    assert "!defined (X)" in u && "!(defined (X))" in h;
  }
}
