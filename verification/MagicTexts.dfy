/** The conditions that `guards_to_str` of tools/gen-strings.py writes, as the preprocessor reads them. */
module MagicTexts {
  import opened MagicGuards

  /** Under one assignment of the macros, a guard is the truth of its operands: an `||` of `&&`s. */
  type Disjuncts = d: seq<seq<bool>> | d != [] witness [[]]

  predicate True(d: seq<seq<bool>>) {
    exists conjuncts | conjuncts in d :: false !in conjuncts
  }

  /** Two conditions with ` && ` between them and no parentheses around them. */
  function Juxtaposed(c: Disjuncts, d: Disjuncts): Disjuncts {
    c[..|c| - 1] + [c[|c| - 1] + d[0]] + d[1..]
  }

  /** A clause as it is written, its guards in the order given. */
  function ClauseText(order: seq<Guard>, value: Guard -> Disjuncts): Disjuncts {
    if order == [] then [[]]
    else if |order| == 1 then value(order[0])
    else Juxtaposed(value(order[0]), ClauseText(order[1..], value))
  }

  ghost predicate AllTrue(order: seq<Guard>, value: Guard -> Disjuncts) {
    forall guard | guard in order :: True(value(guard))
  }

  // ---------------------------------------------------------------- joining

  lemma JuxtaposedWeaker(c: Disjuncts, d: Disjuncts)
    requires True(c) && True(d)
    ensures True(Juxtaposed(c, d))
  {
    var j := Juxtaposed(c, d);
    var x :| x in c && false !in x;
    var y :| y in d && false !in y;
    var i :| 0 <= i < |c| && c[i] == x;
    var k :| 0 <= k < |d| && d[k] == y;
    if i < |c| - 1 {
      assert j[i] == x;
    } else if k > 0 {
      assert j[|c| - 1 + k] == y;
    } else {
      assert j[|c| - 1] == x + y && false !in x + y;
      assert j[|c| - 1] in j;
    }
  }

  lemma JuxtaposedSingle(c: Disjuncts, d: Disjuncts)
    requires |c| == |d| == 1
    ensures |Juxtaposed(c, d)| == 1 && (True(Juxtaposed(c, d)) <==> True(c) && True(d))
  {
    assert Juxtaposed(c, d) == [c[0] + d[0]];
    assert False(c[0] + d[0]) <==> False(c[0]) || False(d[0]);
    SingleTrue(c);
    SingleTrue(d);
    SingleTrue(Juxtaposed(c, d));
  }

  predicate False(conjuncts: seq<bool>) {
    false in conjuncts
  }

  lemma SingleTrue(d: Disjuncts)
    requires |d| == 1
    ensures True(d) <==> !False(d[0])
  {
    assert d[0] in d;
  }

  /** A disjunct that is not the first one stays on its own, whatever is written before it. */
  lemma LateStays(c: Disjuncts, d: Disjuncts, k: nat)
    requires 1 <= k < |d| && false !in d[k]
    ensures 1 <= |c| - 1 + k < |Juxtaposed(c, d)| && Juxtaposed(c, d)[|c| - 1 + k] == d[k]
  {
  }

  /** A disjunct that is not the last one stays on its own, whatever is written behind it. */
  lemma EarlyStays(c: Disjuncts, d: Disjuncts)
    requires |c| >= 2 && false !in c[0]
    ensures True(Juxtaposed(c, d))
  {
    assert Juxtaposed(c, d)[0] == c[0];
  }

  // ---------------------------------------------------------------- what the text means

  /** However the guards are written, the text holds wherever all guards do. */
  lemma {:induction false} TextCovers(order: seq<Guard>, value: Guard -> Disjuncts)
    requires AllTrue(order, value)
    ensures True(ClauseText(order, value))
  {
    if order == [] {
      assert [] in ClauseText(order, value);
    } else if |order| > 1 {
      TextCovers(order[1..], value);
      assert order[0] in order;
      JuxtaposedWeaker(value(order[0]), ClauseText(order[1..], value));
    } else {
      assert order[0] in order;
    }
  }

  lemma {:induction false} SinglesText(order: seq<Guard>, value: Guard -> Disjuncts)
    requires forall guard | guard in order :: |value(guard)| == 1
    ensures True(ClauseText(order, value)) <==> AllTrue(order, value)
    ensures |ClauseText(order, value)| == 1
    decreases |order|
  {
    if order == [] {
      assert [] in ClauseText(order, value);
    } else if |order| > 1 {
      assert order[0] in order && forall guard | guard in order[1..] :: guard in order;
      SinglesText(order[1..], value);
      JuxtaposedSingle(value(order[0]), ClauseText(order[1..], value));
      assert forall guard | guard in order :: guard == order[0] || guard in order[1..];
    }
  }

  // ---------------------------------------------------------------- exactly when

  type Positive = n: int | n > 0 witness 1

  /** How a guard is written: of every disjunct the number of its operands. */
  type Shape = s: seq<Positive> | s != [] witness [1]

  predicate HasShape(d: Disjuncts, s: Shape) {
    |d| == |s| && forall i | 0 <= i < |s| :: |d[i]| == s[i]
  }

  ghost predicate Shaped(order: seq<Guard>, shape: Guard -> Shape, value: Guard -> Disjuncts) {
    forall guard | guard in order :: HasShape(value(guard), shape(guard))
  }

  predicate Distinct(order: seq<Guard>) {
    forall i, j | 0 <= i < j < |order| :: order[i] != order[j]
  }

  /** Operands that are all alike in every disjunct. */
  function Filled(s: Shape, truth: int -> bool): (d: Disjuncts)
    ensures HasShape(d, s)
    ensures forall i | 0 <= i < |s| :: (false !in d[i] <==> truth(i)) && (!truth(i) ==> false in d[i])
  {
    var d := seq(|s|, i requires 0 <= i < |s| => seq(s[i], _ => truth(i)));
    assert forall i | 0 <= i < |s| :: d[i][0] == truth(i);
    d
  }

  lemma FilledTrue(s: Shape, truth: int -> bool)
    ensures True(Filled(s, truth)) <==> exists i | 0 <= i < |s| :: truth(i)
  {
    var d := Filled(s, truth);
    if i :| 0 <= i < |s| && truth(i) {
      assert d[i] in d;
    }
  }

  /** The values behind and before an `||` that the text gets wrong. */
  function Wrong(order: seq<Guard>, shape: Guard -> Shape, k: nat): Guard -> Disjuncts
    requires k < |order|
  {
    if k < |order| - 1 then
      guard => Filled(shape(guard), i => guard in order[..k] || (guard == order[k] && i == 0))
    else
      guard => Filled(shape(guard), i => guard == order[k] && i == |shape(guard)| - 1)
  }

  lemma WrongIsFalse(order: seq<Guard>, shape: Guard -> Shape, k: nat)
    requires k < |order| && |order| >= 2 && Distinct(order)
    ensures Shaped(order, shape, Wrong(order, shape, k)) && !AllTrue(order, Wrong(order, shape, k))
  {
    var value := Wrong(order, shape, k);
    if k < |order| - 1 {
      var last := order[|order| - 1];
      assert last !in order[..k] && last != order[k];
      FilledTrue(shape(last), i => last in order[..k] || (last == order[k] && i == 0));
      assert last in order && !True(value(last));
    } else {
      var first := order[0];
      assert first != order[k];
      FilledTrue(shape(first), i => first == order[k] && i == |shape(first)| - 1);
      assert first in order && !True(value(first));
    }
  }

  /** True guards may stand before a text that holds. */
  lemma {:induction false} TrueBefore(order: seq<Guard>, value: Guard -> Disjuncts, k: nat)
    requires k < |order| && True(ClauseText(order[k..], value)) && forall i | 0 <= i < k :: True(value(order[i]))
    ensures True(ClauseText(order, value))
    decreases k
  {
    if k == 0 {
      assert order[0..] == order;
    } else {
      assert order[1..][k - 1..] == order[k..] && forall i | 0 <= i < k - 1 :: order[1..][i] == order[i + 1];
      TrueBefore(order[1..], value, k - 1);
      JuxtaposedWeaker(value(order[0]), ClauseText(order[1..], value));
    }
  }

  /** Any guards may stand before a last one whose last disjunct, not its only one, holds. */
  lemma {:induction false} LateBefore(order: seq<Guard>, value: Guard -> Disjuncts) returns (k: nat)
    requires order != [] && var last := value(order[|order| - 1]); |last| >= 2 && false !in last[|last| - 1]
    ensures 1 <= k < |ClauseText(order, value)| && false !in ClauseText(order, value)[k]
    decreases |order|
  {
    if |order| == 1 {
      k := |value(order[0])| - 1;
    } else {
      var p := LateBefore(order[1..], value);
      LateStays(value(order[0]), ClauseText(order[1..], value), p);
      k := |value(order[0])| - 1 + p;
    }
  }

  lemma WrongIsWritten(order: seq<Guard>, shape: Guard -> Shape, k: nat)
    requires k < |order| && |order| >= 2 && Distinct(order) && |shape(order[k])| >= 2
    ensures True(ClauseText(order, Wrong(order, shape, k)))
  {
    var value := Wrong(order, shape, k);
    if k < |order| - 1 {
      var rest := order[k..];
      assert rest[0] == order[k] && |rest| >= 2;
      EarlyStays(value(rest[0]), ClauseText(rest[1..], value));
      forall i | 0 <= i < k
        ensures True(value(order[i]))
      {
        var guard := order[i];
        assert guard in order[..k];
        var truth := (j: int) => guard in order[..k] || (guard == order[k] && j == 0);
        FilledTrue(shape(guard), truth);
        assert truth(0);
      }
      TrueBefore(order, value, k);
    } else {
      var p := LateBefore(order, value);
      assert ClauseText(order, value)[p] in ClauseText(order, value);
    }
  }

  /** The text of two guards or more means that all of them hold, for all values of their operands, if and only if no guard has
      an `||` of its own. */
  lemma TextExactly(order: seq<Guard>, shape: Guard -> Shape)
    requires |order| >= 2 && Distinct(order)
    ensures (forall value: Guard -> Disjuncts | Shaped(order, shape, value) ::
               True(ClauseText(order, value)) <==> AllTrue(order, value))
            <==> forall guard | guard in order :: |shape(guard)| == 1
  {
    if forall guard | guard in order :: |shape(guard)| == 1 {
      forall value: Guard -> Disjuncts | Shaped(order, shape, value)
        ensures True(ClauseText(order, value)) <==> AllTrue(order, value)
      {
        SinglesText(order, value);
      }
    } else {
      var k :| 0 <= k < |order| && |shape(order[k])| != 1;
      WrongIsFalse(order, shape, k);
      WrongIsWritten(order, shape, k);
    }
  }

  /** A single guard is written as it is. */
  lemma OneGuardText(guard: Guard, value: Guard -> Disjuncts)
    ensures True(ClauseText([guard], value)) <==> AllTrue([guard], value)
  {
  }

  /** ` A || B` and ` C` become `A || B && C`, which A alone makes true. */
  lemma TextExample(value: Guard -> Disjuncts)
    requires value(" A || B") == [[true], [false]] && value(" C") == [[false]]
    ensures True(ClauseText([" A || B", " C"], value)) && !AllTrue([" A || B", " C"], value)
  {
    var order := [" A || B", " C"];
    assert ClauseText(order[1..], value) == value(" C");
    EarlyStays(value(" A || B"), value(" C"));
    assert order[1] in order;
  }
}
