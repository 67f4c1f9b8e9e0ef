/** The in-place heapsort of jerry-core/api/jerry-snapshot.c that orders the literals of a snapshot. */
module LiteralSort {
  import opened Words
  import opened Bytes

  type Literal = seq<Byte>

  // ---------------------------------------------------------------- the order

  /** `ecma_compare_ecma_strings_relational`, on the bytes of two strings. */
  predicate LexLess(a: Literal, b: Literal)
    decreases |a|
  {
    b != [] && (a == [] || a[0] < b[0] || (a[0] == b[0] && LexLess(a[1..], b[1..])))
  }

  /** `jerry_save_literals_compare`: by size, then lexicographically. */
  predicate Less(a: Literal, b: Literal) {
    if |a| == |b| then LexLess(a, b) else |a| < |b|
  }

  lemma {:induction false} LexTotal(a: Literal, b: Literal)
    requires |a| == |b|
    ensures LexLess(a, b) || LexLess(b, a) || a == b
    ensures !(LexLess(a, b) && LexLess(b, a)) && !LexLess(a, a)
    decreases |a|
  {
    if a != [] {
      LexTotal(a[1..], b[1..]);
      if a[1..] == b[1..] && a[0] == b[0] {
        assert a == [a[0]] + a[1..] && b == [b[0]] + b[1..];
      }
    }
  }

  lemma {:induction false} LexTransitive(a: Literal, b: Literal, c: Literal)
    requires |a| == |b| == |c| && !LexLess(b, a) && !LexLess(c, b)
    ensures !LexLess(c, a)
    decreases |a|
  {
    if a != [] && a[0] == b[0] == c[0] {
      LexTransitive(a[1..], b[1..], c[1..]);
    }
  }

  /** The order is total: two literals neither of which is less than the other are equal. */
  lemma OrderTotal(a: Literal, b: Literal)
    ensures Less(a, b) || Less(b, a) || a == b
    ensures !(Less(a, b) && Less(b, a)) && !Less(a, a)
  {
    if |a| == |b| {
      LexTotal(a, b);
    }
    LexTotal(a, a);
  }

  /** "Not greater" is transitive. */
  lemma OrderTransitive(a: Literal, b: Literal, c: Literal)
    requires !Less(b, a) && !Less(c, b)
    ensures !Less(c, a)
  {
    if |a| == |b| == |c| {
      LexTransitive(a, b, c);
    }
  }

  // ---------------------------------------------------------------- heaps

  predicate ChildBelow(s: seq<Literal>, i: nat, c: nat, n: nat) {
    i < |s| && (c < n && c < |s| ==> !Less(s[i], s[c]))
  }

  /** Both children of i, as far as there are any among the first n, are not greater than i. */
  predicate Above(s: seq<Literal>, i: nat, n: nat) {
    ChildBelow(s, i, 2 * i + 1, n) && ChildBelow(s, i, 2 * i + 2, n)
  }

  /** A heap on the first n places, from place lo on. */
  ghost predicate Heap(s: seq<Literal>, lo: nat, n: nat) {
    n <= |s| && forall i: nat | lo <= i < n :: Above(s, i, n)
  }

  /** A heap from lo on, except perhaps at place hole; what is above the hole is not less than what is below it. */
  ghost predicate HeapBut(s: seq<Literal>, lo: nat, n: nat, hole: nat) {
    && n <= |s| && (forall i: nat | lo <= i < n && i != hole :: Above(s, i, n))
    && (forall p: nat | lo <= p && (hole == 2 * p + 1 || hole == 2 * p + 2) :: Over(s, p, hole, n))
  }

  /** Place p is not less than the children of its child. */
  predicate Over(s: seq<Literal>, p: nat, child: nat, n: nat) {
    ChildBelow(s, p, 2 * child + 1, n) && ChildBelow(s, p, 2 * child + 2, n)
  }

  function Swapped(s: seq<Literal>, i: nat, j: nat): (t: seq<Literal>)
    requires i < |s| && j < |s|
    ensures |t| == |s| && t[i] == s[j] && t[j] == s[i] && forall k | 0 <= k < |s| && k != i && k != j :: t[k] == s[k]
  {
    s[i := s[j]][j := s[i]]
  }

  /** The two sequences hold the same literals, each as often. */
  predicate Permuted(s: seq<Literal>, t: seq<Literal>) {
    multiset(s) == multiset(t)
  }

  lemma PermutedThen(s: seq<Literal>, t: seq<Literal>, u: seq<Literal>)
    ensures Permuted(s, s) && (Permuted(s, t) && Permuted(t, u) ==> Permuted(s, u))
  {
  }

  /** The two sequences agree before place lo and from place hi on. */
  predicate AlikeOutside(s: seq<Literal>, t: seq<Literal>, lo: nat, hi: nat) {
    |s| == |t| && lo <= |s| && hi <= |s| && s[..lo] == t[..lo] && s[hi..] == t[hi..]
  }

  lemma AlikeThen(s: seq<Literal>, t: seq<Literal>, u: seq<Literal>, lo: nat, hi: nat)
    ensures lo <= |s| && hi <= |s| ==> AlikeOutside(s, s, lo, hi)
    ensures AlikeOutside(s, t, lo, hi) && AlikeOutside(t, u, lo, hi) ==> AlikeOutside(s, u, lo, hi)
  {
  }

  lemma SwapKeeps(s: seq<Literal>, i: nat, j: nat)
    requires i < |s| && j < |s|
    ensures Permuted(s, Swapped(s, i, j))
    ensures forall lo: nat, hi: nat | lo <= i < hi <= |s| && lo <= j < hi :: AlikeOutside(s, Swapped(s, i, j), lo, hi)
  {
  }

  method Swap(a: array<Literal>, i: nat, j: nat)
    requires i < a.Length && j < a.Length
    modifies a
    ensures a[..] == Swapped(old(a[..]), i, j)
  {
    a[i], a[j] := a[j], a[i];
    assert a[..] == Swapped(old(a[..]), i, j);
  }

  lemma Cancel(a: multiset<Literal>, b: multiset<Literal>, c: multiset<Literal>)
    requires a + b == c + b
    ensures a == c
  {
    forall x
      ensures a[x] == c[x]
    {
      assert (a + b)[x] == a[x] + b[x] && (c + b)[x] == c[x] + b[x];
    }
  }

  /** Moving the greater child up moves the hole down. */
  lemma SiftStep(s: seq<Literal>, lo: nat, n: nat, hole: nat, child: nat, other: nat)
    requires HeapBut(s, lo, n, hole) && lo <= hole < n <= |s| && child < n
    requires (child == 2 * hole + 1 && other == 2 * hole + 2) || (child == 2 * hole + 2 && other == 2 * hole + 1)
    requires Less(s[hole], s[child]) && (other < n ==> !Less(s[child], s[other]))
    ensures HeapBut(Swapped(s, hole, child), lo, n, child)
  {
    hide Less;
    var t := Swapped(s, hole, child);
    OrderTotal(s[hole], s[child]);
    forall i: nat | lo <= i < n && i != child
      ensures Above(t, i, n)
    {
      if i != hole {
        assert Above(s, i, n);
        if hole == 2 * i + 1 || hole == 2 * i + 2 {
          assert Over(s, i, hole, n);
        }
      }
    }
    assert Above(s, child, n);
  }

  /** Where no child is greater, the hole is closed. */
  lemma SiftEnds(s: seq<Literal>, lo: nat, n: nat, hole: nat)
    requires HeapBut(s, lo, n, hole) && (hole < n ==> Above(s, hole, n))
    ensures Heap(s, lo, n)
  {
  }

  /** The first place of a heap holds a greatest element. */
  lemma {:induction false} RootIsGreatest(s: seq<Literal>, n: nat, i: nat)
    requires Heap(s, 0, n) && i < n
    ensures !Less(s[0], s[i])
    decreases i
  {
    hide Less;
    if i == 0 {
      OrderTotal(s[0], s[0]);
    } else {
      var p := (i - 1) / 2;
      RootIsGreatest(s, n, p);
      assert Above(s, p, n) && (i == 2 * p + 1 || i == 2 * p + 2);
      OrderTransitive(s[i], s[p], s[0]);
    }
  }

  // ---------------------------------------------------------------- the code

  /** The greatest of three, step by step: what the choice between two children means for the third. */
  lemma GreatestOfThree(node: Literal, first: Literal, second: Literal)
    ensures Less(node, first) && Less(first, second) ==> Less(node, second) && !Less(second, first)
    ensures !Less(node, first) && Less(node, second) ==> !Less(second, first)
    ensures Less(node, first) && !Less(first, second) ==> Less(node, first)
  {
    OrderTotal(node, first);
    OrderTotal(first, second);
    OrderTotal(node, second);
    hide Less;
    if Less(node, first) && Less(first, second) && !Less(node, second) {
      OrderTransitive(second, node, first);
    }
    if !Less(node, first) && Less(node, second) {
      OrderTransitive(first, node, second);
    }
  }

  /** `jerry_save_literals_heap_max` */
  method HeapMax(a: array<Literal>, n: nat, node: nat, child1: nat, child2: nat) returns (max: nat)
    requires n <= a.Length && node < a.Length && node < child1 < child2
    ensures max == node || (max == child1 && child1 < n) || (max == child2 && child2 < n)
    ensures max == node ==> (child1 < n ==> !Less(a[node], a[child1])) && (child2 < n ==> !Less(a[node], a[child2]))
    ensures max == child1 ==> Less(a[node], a[child1]) && (child2 < n ==> !Less(a[child1], a[child2]))
    ensures max == child2 ==> Less(a[node], a[child2]) && (child1 < n ==> !Less(a[child2], a[child1]))
  {
    hide Less;
    max := node;
    if child1 < n && Less(a[max], a[child1]) {
      max := child1;
    }
    if child2 < n && child1 < n {
      GreatestOfThree(a[node], a[child1], a[child2]);
    }
    if child2 < n && Less(a[max], a[child2]) {
      max := child2;
    }
  }

  /** One step down, seen from the start. */
  lemma Sifted(start: seq<Literal>, s: seq<Literal>, lo: nat, n: nat, hole: nat, child: nat)
    requires HeapBut(s, lo, n, hole) && lo <= hole < n <= |s| && child < n && (child == 2 * hole + 1 || child == 2 * hole + 2)
    requires var other := if child == 2 * hole + 1 then 2 * hole + 2 else 2 * hole + 1;
             Less(s[hole], s[child]) && (other < n ==> !Less(s[child], s[other]))
    requires Permuted(start, s) && AlikeOutside(start, s, lo, n)
    ensures var t := Swapped(s, hole, child); HeapBut(t, lo, n, child) && Permuted(start, t) && AlikeOutside(start, t, lo, n)
  {
    hide Less, HeapBut, Permuted, AlikeOutside, Swapped;
    SiftStep(s, lo, n, hole, child, if child == 2 * hole + 1 then 2 * hole + 2 else 2 * hole + 1);
    SwapKeeps(s, hole, child);
    PermutedThen(start, s, Swapped(s, hole, child));
    AlikeThen(start, s, Swapped(s, hole, child), lo, n);
  }

  /** `jerry_save_literals_down_heap`: on 32-bit indices, which do not wrap around for an array that fits in memory. */
  method DownHeap(a: array<Literal>, n: nat, node: nat)
    requires n <= a.Length < 0x8000_0000 && node < a.Length && HeapBut(a[..], node, n, node)
    modifies a
    ensures Heap(a[..], node, n) && Permuted(old(a[..]), a[..])
    ensures node < n ==> AlikeOutside(old(a[..]), a[..], node, n)
    ensures node >= n ==> a[..] == old(a[..])
  {
    hide Less, HeapBut, Heap, Permuted, AlikeOutside, Swapped;
    PermutedThen(a[..], a[..], a[..]);
    AlikeThen(a[..], a[..], a[..], node, n);
    var nodeIdx := node;
    while true
      invariant node <= nodeIdx < a.Length && (nodeIdx != node ==> nodeIdx < n) && HeapBut(a[..], node, n, nodeIdx)
      invariant Permuted(old(a[..]), a[..])
      invariant node < n ==> AlikeOutside(old(a[..]), a[..], node, n)
      invariant node >= n ==> a[..] == old(a[..])
      decreases a.Length - nodeIdx
    {
      var maxIdx := HeapMax(a, n, nodeIdx, Wrap(2 * nodeIdx + 1), Wrap(2 * nodeIdx + 2));
      if maxIdx == nodeIdx {
        SiftEnds(a[..], node, n, nodeIdx);
        break;
      }
      ghost var s := a[..];
      Sifted(old(a[..]), s, node, n, nodeIdx, maxIdx);
      Swap(a, nodeIdx, maxIdx);
      nodeIdx := maxIdx;
    }
  }

  predicate Sorted(s: seq<Literal>, lo: nat) {
    forall i, j | lo <= i <= j < |s| :: !Less(s[j], s[i])
  }

  /** Everything before place n is not greater than anything from n on. */
  predicate Parted(s: seq<Literal>, n: nat) {
    forall i, j | 0 <= i < n <= j < |s| :: !Less(s[j], s[i])
  }

  lemma HeapGrows(s: seq<Literal>, lo: nat, n: nat)
    requires lo > 0 && Heap(s, lo, n)
    ensures HeapBut(s, lo - 1, n, lo - 1)
  {
  }

  lemma LeavesAreHeap(s: seq<Literal>)
    requires |s| >= 2
    ensures Heap(s, (|s| - 2) / 2 + 1, |s|)
  {
  }

  /** Swapping the root behind the heap: it is the greatest of the heap and not greater than the sorted part. */
  lemma RootMoves(s: seq<Literal>, last: nat)
    requires last < |s| && Heap(s, 0, last + 1) && Sorted(s, last + 1) && Parted(s, last + 1)
    ensures var t := Swapped(s, 0, last); HeapBut(t, 0, last, 0) && Sorted(t, last) && Parted(t, last)
  {
    hide Less;
    var t := Swapped(s, 0, last);
    assert HeapBut(t, 0, last, 0) by {
      forall i: nat | 0 < i < last
        ensures Above(t, i, last)
      {
        assert Above(s, i, last + 1);
      }
    }
    forall i | 0 <= i <= last
      ensures !Less(s[0], s[i])
    {
      RootIsGreatest(s, last + 1, i);
    }
    OrderTotal(s[0], s[0]);
  }

  /** The parts stay parted when each of them is permuted. */
  lemma PartedStays(s: seq<Literal>, t: seq<Literal>, n: nat)
    requires |s| == |t| && n <= |s| && Parted(s, n) && Permuted(s, t) && s[n..] == t[n..]
    ensures Parted(t, n)
  {
    hide Less;
    assert s == s[..n] + s[n..] && t == t[..n] + t[n..];
    Cancel(multiset(s[..n]), multiset(s[n..]), multiset(t[..n]));
    forall i, j | 0 <= i < n <= j < |t|
      ensures !Less(t[j], t[i])
    {
      assert t[i] in multiset(t[..n]);
      var k :| 0 <= k < n && s[..n][k] == t[i];
      assert s[j] == s[n..][j - n] == t[n..][j - n] == t[j];
      assert !Less(s[j], s[k]);
    }
  }

  /** The first loop of jerry_save_literals_sort. Its index leaves it by wrapping around below 0. */
  method BuildHeap(a: array<Literal>)
    requires 2 <= a.Length < 0x8000_0000
    modifies a
    ensures Heap(a[..], 0, a.Length) && Permuted(old(a[..]), a[..])
  {
    hide Less, Heap, HeapBut, Permuted;
    var n := a.Length;
    var litIdx: Word := (n - 2) / 2;
    LeavesAreHeap(a[..]);
    PermutedThen(a[..], a[..], a[..]);
    while litIdx <= (n - 2) / 2
      invariant Permuted(old(a[..]), a[..])
      invariant litIdx <= (n - 2) / 2 || litIdx == 0xffff_ffff
      invariant Heap(a[..], if litIdx == 0xffff_ffff then 0 else litIdx + 1, n)
      decreases if litIdx == 0xffff_ffff then 0 else litIdx + 1
    {
      ghost var s := a[..];
      HeapGrows(s, litIdx + 1, n);
      DownHeap(a, n, litIdx);
      PermutedThen(old(a[..]), s, a[..]);
      litIdx := Wrap(litIdx as int - 1);
    }
  }

  /** `jerry_save_literals_sort`: the array ends up sorted and holds the same literals. */
  method Sort(a: array<Literal>)
    requires a.Length < 0x8000_0000
    modifies a
    ensures Sorted(a[..], 0) && Permuted(old(a[..]), a[..])
  {
    hide Less, Heap, HeapBut, Sorted, Parted, Permuted, AlikeOutside, Swapped;
    var n := a.Length;
    PermutedThen(a[..], a[..], a[..]);
    if n < 2 {
      ShortIsSorted(a[..]);
      return;
    }
    BuildHeap(a);
    AllUnsorted(a[..]);
    for idx := 0 to n
      invariant Permuted(old(a[..]), a[..])
      invariant Heap(a[..], 0, n - idx) && Sorted(a[..], n - idx) && Parted(a[..], n - idx)
    {
      var last := n - idx - 1;
      ghost var s := a[..];
      RootMoves(s, last);
      SwapKeeps(s, 0, last);
      Swap(a, 0, last);
      ghost var t := a[..];
      PermutedThen(old(a[..]), s, t);
      DownHeap(a, last, 0);
      PermutedThen(old(a[..]), t, a[..]);
      TailAlike(t, a[..], last);
      PartedStays(t, a[..], last);
      SortedStays(t, a[..], last);
    }
  }

  lemma TailAlike(t: seq<Literal>, u: seq<Literal>, last: nat)
    requires last <= |t| == |u| && (last > 0 ==> AlikeOutside(t, u, 0, last)) && (last == 0 ==> u == t)
    ensures t[last..] == u[last..]
  {
  }

  lemma ShortIsSorted(s: seq<Literal>)
    requires |s| < 2
    ensures Sorted(s, 0)
  {
    if |s| == 1 {
      OrderTotal(s[0], s[0]);
    }
  }

  lemma AllUnsorted(s: seq<Literal>)
    ensures Sorted(s, |s|) && Parted(s, |s|)
  {
  }

  lemma SortedStays(s: seq<Literal>, t: seq<Literal>, n: nat)
    requires |s| == |t| && n <= |s| && Sorted(s, n) && s[n..] == t[n..]
    ensures Sorted(t, n)
  {
    hide Less;
    forall i, j | n <= i <= j < |t|
      ensures !Less(t[j], t[i])
    {
      assert t[i] == t[n..][i - n] == s[n..][i - n] == s[i];
      assert t[j] == t[n..][j - n] == s[n..][j - n] == s[j];
    }
  }

  /** The last literal of a sorted order is the greatest, so two sorted orders end with the same. */
  lemma SameLast(s: seq<Literal>, t: seq<Literal>)
    requires Sorted(s, 0) && Sorted(t, 0) && |s| == |t| > 0 && Permuted(s, t)
    ensures s[|s| - 1] == t[|s| - 1]
  {
    hide Less;
    var n := |s| - 1;
    assert s[n] in multiset(t) && t[n] in multiset(s);
    var i :| 0 <= i < |t| && t[i] == s[n];
    var j :| 0 <= j < |s| && s[j] == t[n];
    assert !Less(t[n], t[i]) && !Less(s[n], s[j]);
    OrderTotal(s[n], t[n]);
  }

  /** Sorting is determined: there is only one order of the literals that is sorted. */
  lemma {:induction false} SortedUnique(s: seq<Literal>, t: seq<Literal>)
    requires Sorted(s, 0) && Sorted(t, 0) && Permuted(s, t)
    ensures s == t
    decreases |s|
  {
    hide Less;
    assert |s| == |multiset(s)| == |multiset(t)| == |t|;
    if s != [] {
      var n := |s| - 1;
      SameLast(s, t);
      assert s == s[..n] + [s[n]] && t == t[..n] + [t[n]];
      Cancel(multiset(s[..n]), multiset([s[n]]), multiset(t[..n]));
      SortedUnique(s[..n], t[..n]);
    }
  }
}
