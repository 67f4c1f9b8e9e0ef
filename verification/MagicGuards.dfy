/** The preprocessor guards of the magic strings, tools/gen-strings.py: how the guards of a string's references are
    simplified. */
module MagicGuards {
  type Guard = string

  /** Guards that hold together; the empty set always holds. */
  type Clause = set<Guard>

  /** Clauses of which one has to hold. */
  type Guards = set<Clause>

  const ALWAYS: Guards := {{}}

  /** Guards start with the space behind `#if`, which the negation drops. */
  function Negated(guard: Guard): Guard {
    "!(" + (if guard == "" then "" else guard[1..]) + ")"
  }

  // ---------------------------------------------------------------- what the simplification computes

  datatype Slot = Gone | Kept(guards: Clause)

  /** `KeyError` when a guard is removed that is not there any more. */
  datatype Outcome<T> = KeyError | Done(value: T)

  predicate Holder(slot: Slot, guard: Guard) {
    slot.Kept? && guard in slot.guards
  }

  /** How many of the first n slots hold the guard. */
  function Holders(slots: seq<Slot>, guard: Guard, n: nat): nat
    requires n <= |slots|
  {
    if n == 0 then 0 else Holders(slots, guard, n - 1) + if Holder(slots[n - 1], guard) then 1 else 0
  }

  function AllHolders(slots: seq<Slot>, guard: Guard): nat {
    Holders(slots, guard, |slots|)
  }

  function Without(slot: Slot, guard: Guard): Slot {
    if slot.Kept? then Kept(slot.guards - {guard}) else slot
  }

  /** One guard of slot i: it goes if a slot holds its negation, and the run fails if two do. */
  function TrimmedBy(slots: seq<Slot>, i: nat, guard: Guard): Outcome<seq<Slot>>
    requires i < |slots|
  {
    var n := AllHolders(slots, Negated(guard));
    if n >= 2 then KeyError else if n == 1 then Done(slots[i := Without(slots[i], guard)]) else Done(slots)
  }

  /** The guards of slot i, in the order in which they are visited. */
  function TrimmedByAll(slots: seq<Slot>, i: nat, order: seq<Guard>): (r: Outcome<seq<Slot>>)
    requires i < |slots|
    ensures r.Done? ==> |r.value| == |slots| && r.value[i].Kept? == slots[i].Kept?
    ensures r.Done? ==> forall j | 0 <= j < |slots| && j != i :: r.value[j] == slots[j]
  {
    if order == [] then Done(slots)
    else
      var before := TrimmedByAll(slots, i, order[..|order| - 1]);
      if before.KeyError? then KeyError else TrimmedBy(before.value, i, order[|order| - 1])
  }

  /** The slots that hold more than slot i go. */
  function Dropped(slots: seq<Slot>, i: nat): seq<Slot>
    requires i < |slots| && slots[i].Kept?
  {
    seq(|slots|, j requires 0 <= j < |slots| =>
      if j != i && slots[j].Kept? && slots[i].guards < slots[j].guards then Gone else slots[j])
  }

  function Turn(slots: seq<Slot>, i: nat, order: seq<Guard>): (r: Outcome<seq<Slot>>)
    requires i < |slots|
    ensures r.Done? ==> |r.value| == |slots|
  {
    if slots[i].Gone? then Done(slots)
    else
      var trimmed := TrimmedByAll(slots, i, order);
      if trimmed.KeyError? then KeyError else Done(Dropped(trimmed.value, i))
  }

  function Start(uses: seq<Clause>): (r: seq<Slot>)
    ensures |r| == |uses| && forall i | 0 <= i < |r| :: r[i] == Kept(uses[i])
  {
    seq(|uses|, i requires 0 <= i < |uses| => Kept(uses[i]))
  }

  /** The slots after the first n turns; orders[i] is the order in which the guards of slot i are visited. */
  function After(uses: seq<Clause>, orders: seq<seq<Guard>>, n: nat): (r: Outcome<seq<Slot>>)
    requires n <= |uses| == |orders|
    ensures r.Done? ==> |r.value| == |uses|
  {
    if n == 0 then Done(Start(uses))
    else
      var before := After(uses, orders, n - 1);
      if before.KeyError? then KeyError else Turn(before.value, n - 1, orders[n - 1])
  }

  function Remaining(slots: seq<Slot>): Guards {
    set slot | slot in slots && slot.Kept? :: slot.guards
  }

  function Simplified(uses: seq<Clause>, orders: seq<seq<Guard>>): Outcome<Guards>
    requires |uses| == |orders|
  {
    var r := After(uses, orders, |uses|);
    if r.KeyError? then KeyError else Done(Remaining(r.value))
  }

  /** Every guard of the clause once. */
  predicate Enumerates(order: seq<Guard>, clause: Clause) {
    (set guard | guard in order) == clause && forall i, j | 0 <= i < j < |order| :: order[i] != order[j]
  }

  /** A slot is only changed in its own turn, so its guards are those of its reference then. */
  predicate Orders(orders: seq<seq<Guard>>, uses: seq<Clause>) {
    |orders| == |uses| && forall i | 0 <= i < |uses| :: Enumerates(orders[i], uses[i])
  }

  // ---------------------------------------------------------------- the loops

  lemma {:induction false} HoldersGrow(slots: seq<Slot>, guard: Guard, m: nat, n: nat)
    requires m <= n <= |slots|
    ensures Holders(slots, guard, m) <= Holders(slots, guard, n)
    decreases n
  {
    if m < n {
      HoldersGrow(slots, guard, m, n - 1);
    }
  }

  /** Lines 193-197 for one guard of slot i. */
  method TrimGuard(slots: seq<Slot>, i: nat, guard: Guard) returns (r: Outcome<seq<Slot>>)
    requires i < |slots| && Holder(slots[i], guard)
    ensures r == TrimmedBy(slots, i, guard)
  {
    var negated := Negated(guard);
    assert |negated| > |guard|;
    var now := slots;
    for j := 0 to |slots|
      invariant Holders(slots, negated, j) <= 1
      invariant now == if Holders(slots, negated, j) == 0 then slots else slots[i := Without(slots[i], guard)]
    {
      if now[j].Kept? && negated in now[j].guards {
        if guard !in now[i].guards {
          HoldersGrow(slots, negated, j + 1, |slots|);
          return KeyError;
        }
        now := now[i := Kept(now[i].guards - {guard})];
      }
    }
    r := Done(now);
  }

  /** Lines 193-197. */
  method TrimSlot(slots: seq<Slot>, i: nat, order: seq<Guard>) returns (r: Outcome<seq<Slot>>)
    requires i < |slots| && slots[i].Kept? && Enumerates(order, slots[i].guards)
    ensures r == TrimmedByAll(slots, i, order)
  {
    var now := slots;
    for k := 0 to |order|
      invariant TrimmedByAll(slots, i, order[..k]) == Done(now)
      invariant now[i].Kept? && forall p | k <= p < |order| :: order[p] in now[i].guards
    {
      assert order[..k + 1][..k] == order[..k];
      r := TrimGuard(now, i, order[k]);
      if r.KeyError? {
        FailureStays(slots, i, order, k + 1);
        return;
      }
      now := r.value;
    }
    assert order[..|order|] == order;
    r := Done(now);
  }

  lemma {:induction false} FailureStays(slots: seq<Slot>, i: nat, order: seq<Guard>, k: nat)
    requires i < |slots| && k <= |order| && TrimmedByAll(slots, i, order[..k]).KeyError?
    ensures TrimmedByAll(slots, i, order).KeyError?
    decreases |order| - k
  {
    if k < |order| {
      assert order[..k + 1][..k] == order[..k];
      FailureStays(slots, i, order, k + 1);
    } else {
      assert order[..k] == order;
    }
  }

  /** Lines 198-202. */
  method DropLonger(slots: seq<Slot>, i: nat) returns (now: seq<Slot>)
    requires i < |slots| && slots[i].Kept?
    ensures now == Dropped(slots, i)
  {
    now := slots;
    for j := 0 to |slots|
      invariant |now| == |slots| && now[i] == slots[i]
      invariant now[..j] == Dropped(slots, i)[..j] && now[j..] == slots[j..]
    {
      if j == i || now[j].Gone? {
        continue;
      }
      if now[i].guards < now[j].guards {
        now := now[j := Gone];
      }
    }
  }

  /** Lines 189-203, for every order in which the sets are traversed. */
  method CalculateGuards(uses: seq<Clause>, orders: seq<seq<Guard>>) returns (r: Outcome<Guards>)
    requires Orders(orders, uses)
    ensures r == Simplified(uses, orders)
  {
    hide TrimmedByAll, Dropped;
    var slots := Start(uses);
    for i := 0 to |uses|
      invariant After(uses, orders, i) == Done(slots)
      invariant forall k | i <= k < |uses| && slots[k].Kept? :: slots[k].guards == uses[k]
    {
      ghost var before := slots;
      if slots[i].Gone? {
        continue;
      }
      var trimmed := TrimSlot(slots, i, orders[i]);
      if trimmed.KeyError? {
        FailureRemains(uses, orders, i + 1);
        return KeyError;
      }
      slots := DropLonger(trimmed.value, i);
      OnlyDropped(trimmed.value, i);
    }
    r := Done(Remaining(slots));
  }

  lemma OnlyDropped(slots: seq<Slot>, i: nat)
    requires i < |slots| && slots[i].Kept?
    ensures var r := Dropped(slots, i);
      |r| == |slots| && r[i] == slots[i] && forall j | 0 <= j < |slots| && r[j].Kept? :: r[j] == slots[j]
  {
  }

  lemma {:induction false} FailureRemains(uses: seq<Clause>, orders: seq<seq<Guard>>, n: nat)
    requires n <= |uses| == |orders| && After(uses, orders, n).KeyError?
    ensures Simplified(uses, orders).KeyError?
    decreases |uses| - n
  {
    if n < |uses| {
      FailureRemains(uses, orders, n + 1);
    }
  }

  // ---------------------------------------------------------------- what every turn keeps

  /** Some reference has what is taken for the negation of the guard. */
  ghost predicate NegatedIn(uses: seq<Clause>, guard: Guard) {
    exists use | use in uses :: Negated(guard) in use
  }

  /** From the clause of a reference only guards are gone whose negation some reference has. */
  ghost predicate Reduced(uses: seq<Clause>, before: Clause, after: Clause) {
    after <= before && forall guard | guard in before - after :: NegatedIn(uses, guard)
  }

  ghost predicate AllReduced(uses: seq<Clause>, slots: seq<Slot>) {
    && |slots| == |uses|
    && forall i | 0 <= i < |slots| && slots[i].Kept? :: Reduced(uses, uses[i], slots[i].guards)
  }

  /** Every reference has a slot with no more than its guards. */
  ghost predicate Covered(uses: seq<Clause>, slots: seq<Slot>) {
    forall use | use in uses :: exists slot | slot in slots :: slot.Kept? && slot.guards <= use
  }

  /** No slot holds more than one of the first n slots. */
  predicate Apart(slots: seq<Slot>, n: nat) {
    forall i, j | 0 <= i < n && i < |slots| && 0 <= j < |slots| && slots[i].Kept? && slots[j].Kept? ::
      !(slots[i].guards < slots[j].guards)
  }

  lemma {:induction false} HolderFound(slots: seq<Slot>, guard: Guard, n: nat)
    requires n <= |slots|
    ensures Holders(slots, guard, n) > 0 <==> exists j | 0 <= j < n :: Holder(slots[j], guard)
  {
    if n > 0 {
      HolderFound(slots, guard, n - 1);
    }
  }

  lemma TrimReduces(uses: seq<Clause>, slots: seq<Slot>, i: nat, guard: Guard)
    requires i < |slots| && AllReduced(uses, slots) && slots[i].Kept? && AllHolders(slots, Negated(guard)) > 0
    ensures AllReduced(uses, slots[i := Without(slots[i], guard)])
  {
    hide Negated;
    HolderFound(slots, Negated(guard), |slots|);
    var j :| 0 <= j < |slots| && Holder(slots[j], Negated(guard));
    assert Reduced(uses, uses[j], slots[j].guards) && Reduced(uses, uses[i], slots[i].guards);
    assert uses[j] in uses && Negated(guard) in uses[j];
    var less := slots[i].guards - {guard};
    assert forall g | g in uses[i] - less :: g == guard || g in uses[i] - slots[i].guards;
    assert Reduced(uses, uses[i], less);
  }

  lemma TrimCovers(uses: seq<Clause>, slots: seq<Slot>, i: nat, guard: Guard)
    requires i < |slots| && Covered(uses, slots)
    ensures Covered(uses, slots[i := Without(slots[i], guard)])
  {
    var after := slots[i := Without(slots[i], guard)];
    forall use | use in uses
      ensures exists slot | slot in after :: slot.Kept? && slot.guards <= use
    {
      var slot :| slot in slots && slot.Kept? && slot.guards <= use;
      var k :| 0 <= k < |slots| && slots[k] == slot;
      assert after[k].guards <= use;
    }
  }

  lemma TrimApart(slots: seq<Slot>, i: nat, guard: Guard, n: nat)
    requires n <= i < |slots| && Apart(slots, n)
    ensures Apart(slots[i := Without(slots[i], guard)], n)
  {
    var after := slots[i := Without(slots[i], guard)];
    forall k, j | 0 <= k < n && 0 <= j < |after| && after[k].Kept? && after[j].Kept?
      ensures !(after[k].guards < after[j].guards)
    {
      assert after[k] == slots[k] && slots[j].Kept? && after[j].guards <= slots[j].guards;
      assert !(slots[k].guards < slots[j].guards);
    }
  }

  lemma {:induction false} TrimKeeps(uses: seq<Clause>, slots: seq<Slot>, i: nat, order: seq<Guard>)
    requires i < |slots| && slots[i].Kept? && AllReduced(uses, slots) && Covered(uses, slots) && Apart(slots, i)
    ensures var r := TrimmedByAll(slots, i, order);
      r.Done? ==> AllReduced(uses, r.value) && Covered(uses, r.value) && Apart(r.value, i)
  {
    hide AllReduced, Covered, Apart, AllHolders;
    if order != [] {
      TrimKeeps(uses, slots, i, order[..|order| - 1]);
      var before, guard := TrimmedByAll(slots, i, order[..|order| - 1]), order[|order| - 1];
      if before.Done? && AllHolders(before.value, Negated(guard)) == 1 {
        TrimReduces(uses, before.value, i, guard);
        TrimCovers(uses, before.value, i, guard);
        TrimApart(before.value, i, guard, i);
      }
    }
  }

  lemma DropKeeps(uses: seq<Clause>, slots: seq<Slot>, i: nat)
    requires i < |slots| && slots[i].Kept? && AllReduced(uses, slots) && Covered(uses, slots) && Apart(slots, i)
    ensures var r := Dropped(slots, i); AllReduced(uses, r) && Covered(uses, r) && Apart(r, i + 1)
  {
    var r := Dropped(slots, i);
    forall use | use in uses
      ensures exists slot | slot in r :: slot.Kept? && slot.guards <= use
    {
      var slot :| slot in slots && slot.Kept? && slot.guards <= use;
      var k :| 0 <= k < |slots| && slots[k] == slot;
      assert r[if r[k].Gone? then i else k].guards <= use;
    }
  }

  lemma StartKeeps(uses: seq<Clause>)
    ensures AllReduced(uses, Start(uses)) && Covered(uses, Start(uses)) && Apart(Start(uses), 0)
  {
    var slots := Start(uses);
    forall use | use in uses
      ensures exists slot | slot in slots :: slot.Kept? && slot.guards <= use
    {
      var k :| 0 <= k < |uses| && uses[k] == use;
      assert slots[k].guards <= use;
    }
  }

  lemma {:induction false} TurnsKeep(uses: seq<Clause>, orders: seq<seq<Guard>>, n: nat)
    requires n <= |uses| == |orders|
    ensures var r := After(uses, orders, n);
      r.Done? ==> AllReduced(uses, r.value) && Covered(uses, r.value) && Apart(r.value, n)
  {
    hide TrimmedByAll, Dropped;
    if n == 0 {
      StartKeeps(uses);
      return;
    }
    TurnsKeep(uses, orders, n - 1);
    var before := After(uses, orders, n - 1);
    if before.Done? && before.value[n - 1].Kept? {
      TrimKeeps(uses, before.value, n - 1, orders[n - 1]);
      var trimmed := TrimmedByAll(before.value, n - 1, orders[n - 1]);
      if trimmed.Done? {
        DropKeeps(uses, trimmed.value, n - 1);
      }
    }
  }

  /** When the run completes, every reference has a clause with no more than its guards, no clause holds more than another,
      and every clause is that of a reference but for guards whose negation some reference has. */
  lemma SimplifiedParts(uses: seq<Clause>, orders: seq<seq<Guard>>, guards: Guards)
    requires |uses| == |orders| && Simplified(uses, orders) == Done(guards)
    ensures forall use | use in uses :: exists clause | clause in guards :: clause <= use
    ensures forall clause, other | clause in guards && other in guards :: !(clause < other)
    ensures forall clause | clause in guards :: exists use | use in uses :: Reduced(uses, use, clause)
  {
    hide *;
    TurnsKeep(uses, orders, |uses|);
    LastTurn(uses, orders);
    RemainingParts(uses, After(uses, orders, |uses|).value);
  }

  lemma LastTurn(uses: seq<Clause>, orders: seq<seq<Guard>>)
    requires |uses| == |orders| && Simplified(uses, orders).Done?
    ensures var r := After(uses, orders, |uses|); r.Done? && Simplified(uses, orders).value == Remaining(r.value)
  {
  }

  lemma RemainingParts(uses: seq<Clause>, slots: seq<Slot>)
    requires AllReduced(uses, slots) && Covered(uses, slots) && Apart(slots, |uses|)
    ensures forall use | use in uses :: exists clause | clause in Remaining(slots) :: clause <= use
    ensures forall clause, other | clause in Remaining(slots) && other in Remaining(slots) :: !(clause < other)
    ensures forall clause | clause in Remaining(slots) :: exists use | use in uses :: Reduced(uses, use, clause)
  {
    hide Reduced;
    forall use | use in uses
      ensures exists clause | clause in Remaining(slots) :: clause <= use
    {
      var slot :| slot in slots && slot.Kept? && slot.guards <= use;
      assert slot.guards in Remaining(slots);
    }
    forall clause | clause in Remaining(slots)
      ensures exists use | use in uses :: Reduced(uses, use, clause)
    {
      var i :| 0 <= i < |slots| && slots[i].Kept? && slots[i].guards == clause;
      assert Reduced(uses, uses[i], clause);
    }
  }

  // ---------------------------------------------------------------- when the run fails

  /** Behind the first p guards of slot i, two slots hold the negation of the next one. */
  ghost predicate FailsAt(slots: seq<Slot>, i: nat, order: seq<Guard>, p: nat)
    requires i < |slots| && p < |order|
  {
    var now := TrimmedByAll(slots, i, order[..p]);
    now.Done? && AllHolders(now.value, Negated(order[p])) >= 2
  }

  /** The same in turn i of a run, for a slot that is there. */
  ghost predicate TwiceNegated(uses: seq<Clause>, orders: seq<seq<Guard>>, i: nat, p: nat)
    requires i < |uses| == |orders| && p < |orders[i]|
  {
    var before := After(uses, orders, i);
    before.Done? && before.value[i].Kept? && FailsAt(before.value, i, orders[i], p)
  }

  lemma TrimNext(slots: seq<Slot>, i: nat, order: seq<Guard>, k: nat)
    requires i < |slots| && k < |order|
    ensures TrimmedByAll(slots, i, order[..k + 1]).KeyError?
      <==> TrimmedByAll(slots, i, order[..k]).KeyError? || FailsAt(slots, i, order, k)
  {
    assert order[..k + 1][..k] == order[..k];
  }

  lemma {:induction false} TrimFails(slots: seq<Slot>, i: nat, order: seq<Guard>, k: nat)
    requires i < |slots| && k <= |order|
    ensures TrimmedByAll(slots, i, order[..k]).KeyError? <==> exists p | 0 <= p < k :: FailsAt(slots, i, order, p)
  {
    if k > 0 {
      hide TrimmedByAll, FailsAt;
      TrimFails(slots, i, order, k - 1);
      TrimNext(slots, i, order, k - 1);
      return;
    }
  }

  /** The run fails if and only if, for some slot that is there in its turn, two slots hold the negation of a guard when that
      guard is visited. */
  lemma FailsExactly(uses: seq<Clause>, orders: seq<seq<Guard>>)
    requires |uses| == |orders|
    ensures Simplified(uses, orders).KeyError? <==>
      exists i, p | 0 <= i < |uses| && 0 <= p < |orders[i]| :: TwiceNegated(uses, orders, i, p)
  {
    AfterFails(uses, orders, |uses|);
  }

  lemma TurnFails(uses: seq<Clause>, orders: seq<seq<Guard>>, i: nat)
    requires i < |uses| == |orders| && After(uses, orders, i).Done?
    ensures After(uses, orders, i + 1).KeyError? <==> exists p | 0 <= p < |orders[i]| :: TwiceNegated(uses, orders, i, p)
  {
    hide TrimmedByAll, Dropped, FailsAt;
    var before := After(uses, orders, i).value;
    if before[i].Kept? {
      TrimFails(before, i, orders[i], |orders[i]|);
      assert orders[i][..|orders[i]|] == orders[i];
      assert forall p | 0 <= p < |orders[i]| :: TwiceNegated(uses, orders, i, p) == FailsAt(before, i, orders[i], p);
    }
  }

  lemma {:induction false} AfterFails(uses: seq<Clause>, orders: seq<seq<Guard>>, n: nat)
    requires n <= |uses| == |orders|
    ensures After(uses, orders, n).KeyError? <==>
      exists i, p | 0 <= i < n && 0 <= p < |orders[i]| :: TwiceNegated(uses, orders, i, p)
  {
    hide TrimmedByAll, Dropped, Turn, TwiceNegated;
    if n > 0 {
      AfterFails(uses, orders, n - 1);
      if After(uses, orders, n - 1).Done? {
        TurnFails(uses, orders, n - 1);
      }
    }
  }

  // ---------------------------------------------------------------- on the references alone

  /** Some guard of a reference has its negation in two references. */
  ghost predicate TwiceOpposed(uses: seq<Clause>) {
    exists i, guard | 0 <= i < |uses| && guard in uses[i] :: OpposedAt(uses, guard)
  }

  predicate OpposedAt(uses: seq<Clause>, guard: Guard) {
    AllHolders(Start(uses), Negated(guard)) >= 2
  }

  /** The guards that no run can take from the clause. */
  ghost function Lasting(uses: seq<Clause>, clause: Clause): Clause {
    set guard | guard in clause && !NegatedIn(uses, guard)
  }

  /** No reference has the negation of a negation of a guard, and none holds more than what another one keeps. */
  ghost predicate Steady(uses: seq<Clause>) {
    && (forall use, guard | use in uses && guard in use :: !NegatedIn(uses, Negated(guard)))
    && forall i, j | 0 <= i < |uses| && 0 <= j < |uses| && i != j :: !(Lasting(uses, uses[i]) < uses[j])
  }

  lemma {:induction false} MoreHolders(slots: seq<Slot>, other: seq<Slot>, guard: Guard, n: nat)
    requires n <= |slots| == |other| && forall j | 0 <= j < n :: Holder(slots[j], guard) ==> Holder(other[j], guard)
    ensures Holders(slots, guard, n) <= Holders(other, guard, n)
  {
    if n > 0 {
      MoreHolders(slots, other, guard, n - 1);
    }
  }

  /** Along a run the holders of a guard become no more than they are at its start. */
  lemma NoMoreHolders(uses: seq<Clause>, slots: seq<Slot>, guard: Guard)
    requires AllReduced(uses, slots)
    ensures AllHolders(slots, guard) <= AllHolders(Start(uses), guard)
  {
    hide Negated;
    forall j | 0 <= j < |slots| && Holder(slots[j], guard)
      ensures Holder(Start(uses)[j], guard)
    {
      assert Reduced(uses, uses[j], slots[j].guards);
    }
    MoreHolders(slots, Start(uses), guard, |slots|);
  }

  /** The slots in the middle of turn i. */
  lemma {:induction false} MiddleReduced(uses: seq<Clause>, orders: seq<seq<Guard>>, i: nat, order: seq<Guard>)
    requires i < |uses| == |orders| && After(uses, orders, i).Done? && After(uses, orders, i).value[i].Kept?
    ensures var r := TrimmedByAll(After(uses, orders, i).value, i, order); r.Done? ==> AllReduced(uses, r.value)
  {
    hide AllReduced, Covered, Apart, TrimmedByAll;
    TurnsKeep(uses, orders, i);
    TrimKeeps(uses, After(uses, orders, i).value, i, order);
  }

  /** A run can only fail if some guard of a reference has its negation in two references. */
  lemma FailsOnlyTwiceOpposed(uses: seq<Clause>, orders: seq<seq<Guard>>)
    requires Orders(orders, uses) && Simplified(uses, orders).KeyError?
    ensures TwiceOpposed(uses)
  {
    hide AllReduced, TrimmedByAll, AllHolders, Negated, Simplified, After;
    FailsExactly(uses, orders);
    var i, p :| 0 <= i < |uses| && 0 <= p < |orders[i]| && TwiceNegated(uses, orders, i, p);
    var guard := orders[i][p];
    MiddleReduced(uses, orders, i, orders[i][..p]);
    NoMoreHolders(uses, TrimmedByAll(After(uses, orders, i).value, i, orders[i][..p]).value, Negated(guard));
    assert OpposedAt(uses, guard);
    assert Enumerates(orders[i], uses[i]) && guard in uses[i];
  }

  ghost predicate AllThere(slots: seq<Slot>) {
    forall slot | slot in slots :: slot.Kept?
  }

  lemma LastingStays(uses: seq<Clause>, before: Clause, after: Clause)
    requires Reduced(uses, before, after)
    ensures Lasting(uses, before) <= after
  {
    forall guard | guard in Lasting(uses, before)
      ensures guard in after
    {
      assert guard !in before - after;
    }
  }

  lemma NoneDropped(uses: seq<Clause>, slots: seq<Slot>, i: nat)
    requires Steady(uses) && AllReduced(uses, slots) && AllThere(slots) && i < |slots|
    ensures AllThere(Dropped(slots, i))
  {
    hide Negated;
    forall j | 0 <= j < |slots| && j != i
      ensures !(slots[i].guards < slots[j].guards)
    {
      assert Reduced(uses, uses[i], slots[i].guards) && Reduced(uses, uses[j], slots[j].guards);
      LastingStays(uses, uses[i], slots[i].guards);
    }
  }

  /** Steady references all stay. */
  lemma {:induction false} AllStay(uses: seq<Clause>, orders: seq<seq<Guard>>, n: nat)
    requires Steady(uses) && n <= |uses| == |orders|
    ensures After(uses, orders, n).Done? ==> AllThere(After(uses, orders, n).value)
  {
    hide Steady, AllReduced, TrimmedByAll, Dropped;
    if n > 0 && After(uses, orders, n).Done? {
      AllStay(uses, orders, n - 1);
      var before := After(uses, orders, n - 1).value;
      assert before[n - 1] in before;
      MiddleReduced(uses, orders, n - 1, orders[n - 1]);
      NoneDropped(uses, TrimmedByAll(before, n - 1, orders[n - 1]).value, n - 1);
    }
  }

  /** A negation that is nowhere negated is never removed. */
  lemma NegationsStay(uses: seq<Clause>, slots: seq<Slot>, guard: Guard)
    requires AllReduced(uses, slots) && AllThere(slots) && !NegatedIn(uses, guard)
    ensures AllHolders(slots, guard) == AllHolders(Start(uses), guard)
  {
    hide Negated;
    NoMoreHolders(uses, slots, guard);
    forall j | 0 <= j < |slots| && Holder(Start(uses)[j], guard)
      ensures Holder(slots[j], guard)
    {
      assert slots[j] in slots && Reduced(uses, uses[j], slots[j].guards);
      LastingStays(uses, uses[j], slots[j].guards);
      assert guard in Lasting(uses, uses[j]);
    }
    MoreHolders(Start(uses), slots, guard, |slots|);
  }

  /** If a guard of a steady reference is opposed twice, its turn fails. */
  lemma OpposedFails(uses: seq<Clause>, orders: seq<seq<Guard>>, i: nat, guard: Guard)
    requires Steady(uses) && Orders(orders, uses) && i < |uses| && guard in uses[i] && OpposedAt(uses, guard)
    ensures Simplified(uses, orders).KeyError?
  {
    hide AllReduced, TrimmedByAll, AllHolders, Negated, Simplified, After;
    assert uses[i] in uses;
    if After(uses, orders, i).KeyError? {
      FailureRemains(uses, orders, i);
      return;
    }
    var before := After(uses, orders, i).value;
    AllStay(uses, orders, i);
    assert before[i] in before && Enumerates(orders[i], uses[i]) && guard in orders[i];
    var p :| 0 <= p < |orders[i]| && orders[i][p] == guard;
    var now := TrimmedByAll(before, i, orders[i][..p]);
    TrimFails(before, i, orders[i], p);
    FailsExactly(uses, orders);
    if now.KeyError? {
      var q :| 0 <= q < p && FailsAt(before, i, orders[i], q);
      assert TwiceNegated(uses, orders, i, q);
    } else {
      MiddleReduced(uses, orders, i, orders[i][..p]);
      StillThere(before, now.value, i);
      NegationsStay(uses, now.value, Negated(guard));
      assert TwiceNegated(uses, orders, i, p);
    }
  }

  lemma StillThere(slots: seq<Slot>, now: seq<Slot>, i: nat)
    requires i < |slots| == |now| && AllThere(slots) && now[i].Kept?
    requires forall j | 0 <= j < |slots| && j != i :: now[j] == slots[j]
    ensures AllThere(now)
  {
    forall j | 0 <= j < |now|
      ensures now[j].Kept?
    {
      assert slots[j] in slots;
    }
  }

  /** For steady references, in every order: the run fails if and only if some guard of a reference has its negation in two
      references. */
  lemma SteadyFailsExactly(uses: seq<Clause>, orders: seq<seq<Guard>>)
    requires Steady(uses) && Orders(orders, uses)
    ensures Simplified(uses, orders).KeyError? <==> TwiceOpposed(uses)
  {
    hide Steady, OpposedAt, Simplified;
    if TwiceOpposed(uses) {
      var i, guard :| 0 <= i < |uses| && guard in uses[i] && OpposedAt(uses, guard);
      OpposedFails(uses, orders, i, guard);
    } else if Simplified(uses, orders).KeyError? {
      FailsOnlyTwiceOpposed(uses, orders);
    }
  }

  // ---------------------------------------------------------------- without the order

  /** No clause holds a guard together with its negation. */
  ghost predicate Plain(clause: Clause) {
    forall guard | guard in clause :: Negated(guard) !in clause
  }

  /** What is left of a clause: the guards whose negation no slot holds. */
  function Unopposed(slots: seq<Slot>, clause: Clause): Clause {
    set guard | guard in clause && AllHolders(slots, Negated(guard)) == 0
  }

  lemma {:induction false} SameHolders(slots: seq<Slot>, other: seq<Slot>, guard: Guard, n: nat)
    requires n <= |slots| == |other| && forall j | 0 <= j < |slots| :: Holder(slots[j], guard) == Holder(other[j], guard)
    ensures Holders(slots, guard, n) == Holders(other, guard, n)
  {
    if n > 0 {
      SameHolders(slots, other, guard, n - 1);
    }
  }

  /** The guards that have been trimmed behind some of the visited ones. */
  function Opposed(slots: seq<Slot>, order: seq<Guard>): Clause {
    set guard | guard in order && AllHolders(slots, Negated(guard)) != 0
  }

  lemma {:induction false} TrimWithoutOrder(slots: seq<Slot>, i: nat, order: seq<Guard>)
    requires i < |slots| && slots[i].Kept? && Plain(slots[i].guards) && forall guard | guard in order :: guard in slots[i].guards
    ensures var r := TrimmedByAll(slots, i, order);
      && (r.KeyError? <==> exists guard | guard in order :: AllHolders(slots, Negated(guard)) >= 2)
      && (r.Done? ==> r.value == slots[i := Kept(slots[i].guards - Opposed(slots, order))])
  {
    hide AllHolders, Negated;
    if order == [] {
      assert Opposed(slots, order) == {} && slots[i].guards - {} == slots[i].guards;
      assert slots[i := Kept(slots[i].guards)] == slots;
      return;
    }
    var most, guard := order[..|order| - 1], order[|order| - 1];
    assert order == most + [guard];
    TrimWithoutOrder(slots, i, most);
    var before := TrimmedByAll(slots, i, most);
    if before.Done? {
      assert forall j | 0 <= j < |slots| :: Holder(slots[j], Negated(guard)) == Holder(before.value[j], Negated(guard));
      CountsAgree(slots, before.value, Negated(guard));
      assert Opposed(slots, order) == Opposed(slots, most) + if AllHolders(slots, Negated(guard)) != 0 then {guard} else {};
      var left := slots[i].guards - Opposed(slots, most);
      assert left - {guard} == slots[i].guards - (Opposed(slots, most) + {guard});
      assert Opposed(slots, most) + {} == Opposed(slots, most);
      assert before.value[i := Kept(left - {guard})] == slots[i := Kept(left - {guard})];
    }
  }

  lemma CountsAgree(slots: seq<Slot>, other: seq<Slot>, guard: Guard)
    requires |slots| == |other| && forall j | 0 <= j < |slots| :: Holder(slots[j], guard) == Holder(other[j], guard)
    ensures AllHolders(slots, guard) == AllHolders(other, guard)
  {
    SameHolders(slots, other, guard, |slots|);
  }

  /** A turn, when the clause is plain: it fails if and only if a negation is held twice, and leaves the unopposed guards. */
  function PlainTurn(slots: seq<Slot>, i: nat): Outcome<seq<Slot>>
    requires i < |slots|
  {
    if slots[i].Gone? then Done(slots)
    else if exists guard | guard in slots[i].guards :: AllHolders(slots, Negated(guard)) >= 2 then KeyError
    else Done(Dropped(slots[i := Kept(Unopposed(slots, slots[i].guards))], i))
  }

  lemma TurnIsPlain(slots: seq<Slot>, i: nat, order: seq<Guard>)
    requires i < |slots|
    requires slots[i].Kept? ==> Plain(slots[i].guards) && Enumerates(order, slots[i].guards)
    ensures Turn(slots, i, order) == PlainTurn(slots, i)
  {
    hide TrimmedByAll, Dropped, AllHolders, Negated;
    if slots[i].Kept? {
      assert forall guard :: guard in order <==> guard in slots[i].guards;
      TrimWithoutOrder(slots, i, order);
      assert slots[i].guards - Opposed(slots, order) == Unopposed(slots, slots[i].guards);
    }
  }

  function PlainAfter(uses: seq<Clause>, n: nat): (r: Outcome<seq<Slot>>)
    requires n <= |uses|
    ensures r.Done? ==> |r.value| == |uses|
  {
    if n == 0 then Done(Start(uses))
    else
      var before := PlainAfter(uses, n - 1);
      if before.KeyError? then KeyError else PlainTurn(before.value, n - 1)
  }

  /** Slots whose turn is still to come have the guards of their reference. */
  lemma {:induction false} LaterSlots(uses: seq<Clause>, orders: seq<seq<Guard>>, n: nat)
    requires n <= |uses| == |orders| && After(uses, orders, n).Done?
    ensures forall j | n <= j < |uses| && After(uses, orders, n).value[j].Kept? :: After(uses, orders, n).value[j].guards == uses[j]
  {
    hide TrimmedByAll;
    if n > 0 {
      LaterSlots(uses, orders, n - 1);
    }
  }

  /** If no reference has a guard together with its negation, the order does not matter. */
  lemma {:induction false} OrderDoesNotMatter(uses: seq<Clause>, orders: seq<seq<Guard>>, n: nat)
    requires n <= |uses| && Orders(orders, uses) && forall use | use in uses :: Plain(use)
    ensures After(uses, orders, n) == PlainAfter(uses, n)
  {
    hide TrimmedByAll, Dropped, AllHolders, Turn, PlainTurn, Plain, Enumerates;
    if n > 0 {
      OrderDoesNotMatter(uses, orders, n - 1);
      if After(uses, orders, n - 1).Done? {
        LaterSlots(uses, orders, n - 1);
        assert uses[n - 1] in uses;
        TurnIsPlain(After(uses, orders, n - 1).value, n - 1, orders[n - 1]);
      }
    }
  }

  /** Then the run fails if and only if in some turn a guard of a slot that is there has its negation in two slots. */
  lemma PlainFailsExactly(uses: seq<Clause>, orders: seq<seq<Guard>>)
    requires Orders(orders, uses) && forall use | use in uses :: Plain(use)
    ensures Simplified(uses, orders).KeyError? <==>
      exists i | 0 <= i < |uses| :: PlainAfter(uses, i).Done? && Fails(PlainAfter(uses, i).value, i)
  {
    hide After, PlainAfter;
    OrderDoesNotMatter(uses, orders, |uses|);
    PlainAfterFails(uses, |uses|);
  }

  predicate Fails(slots: seq<Slot>, i: nat)
    requires i < |slots|
  {
    slots[i].Kept? && exists guard | guard in slots[i].guards :: AllHolders(slots, Negated(guard)) >= 2
  }

  lemma {:induction false} PlainAfterFails(uses: seq<Clause>, n: nat)
    requires n <= |uses|
    ensures PlainAfter(uses, n).KeyError? <==>
      exists i | 0 <= i < n :: PlainAfter(uses, i).Done? && Fails(PlainAfter(uses, i).value, i)
  {
    hide AllHolders, Negated, Dropped;
    if n > 0 {
      PlainAfterFails(uses, n - 1);
      if PlainAfter(uses, n - 1).Done? {
        assert PlainAfter(uses, n).KeyError? <==> Fails(PlainAfter(uses, n - 1).value, n - 1);
      }
    }
  }

  /** A guard whose negation two other references have: the run fails in every order. */
  lemma TwoNegationsFail(a: Guard, c: Guard, d: Guard, e: Guard, orders: seq<seq<Guard>>)
    requires |orders| == 3 && Orders(orders, [{a, c}, {Negated(a), d}, {Negated(a), e}])
    requires Plain({a, c}) && Plain({Negated(a), d}) && Plain({Negated(a), e})
    ensures Simplified([{a, c}, {Negated(a), d}, {Negated(a), e}], orders).KeyError?
  {
    hide Negated, Plain;
    var uses := [{a, c}, {Negated(a), d}, {Negated(a), e}];
    assert forall use | use in uses :: use == uses[0] || use == uses[1] || use == uses[2];
    OrderDoesNotMatter(uses, orders, 1);
    var slots := Start(uses);
    assert PlainAfter(uses, 0) == Done(slots);
    HoldersGrow(slots, Negated(a), 3, |slots|);
    assert Holder(slots[1], Negated(a)) && Holder(slots[2], Negated(a));
    assert Holders(slots, Negated(a), 3) >= 2;
    assert a in slots[0].guards && PlainTurn(slots, 0).KeyError?;
    FailureRemains(uses, orders, 1);
  }
}
