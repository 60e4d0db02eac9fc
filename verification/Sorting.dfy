/**
 Click's click_qsort (click/lib/glue.cc): an in-place Bentley-McIlroy quicksort
 with a three-way partition and an explicit, bounded work stack.

 The comparator is a parameter and may be anything at all, even answer the same
 question differently each time.  What holds of every comparator (termination,
 bounds, permutation, stack depth) is kept apart from what needs a total preorder
 (the result is sorted).
 */
module Sorting {

  type Comparator<!T> = (T, T) -> int

  /** A comparator as C has it: its answer may depend on how often it has been asked. */
  class Asker<T(!new)> {
    const answer: (nat, T, T) -> int
    var asked: nat

    constructor (answer: (nat, T, T) -> int)
      ensures this.answer == answer
    {
      this.answer := answer;
      asked := 0;
    }

    method Ask(x: T, y: T) returns (r: int)
      modifies this`asked
      ensures r == answer(old(asked), x, y) && asked == old(asked) + 1
    {
      r := answer(asked, x, y);
      asked := asked + 1;
    }
  }

  /** Each time the same question gets the same answer. */
  ghost predicate Steady<T(!new)>(answer: (nat, T, T) -> int, cmp: Comparator<T>) {
    forall n: nat, x, y :: answer(n, x, y) == cmp(x, y)
  }

  ghost predicate Orders<T(!new)>(answer: (nat, T, T) -> int, cmp: Comparator<T>) {
    Steady(answer, cmp) && TotalPreorder(cmp)
  }

  /** A comparator that does not count. */
  function Always<T(!new)>(cmp: Comparator<T>): (nat, T, T) -> int {
    (n: nat, x: T, y: T) => cmp(x, y)
  }

  lemma AlwaysOrders<T(!new)>(cmp: Comparator<T>)
    requires TotalPreorder(cmp)
    ensures Orders(Always(cmp), cmp)
  {}

  /** The comparator orders T: reflexive, antisymmetric in sign, transitive. */
  ghost predicate TotalPreorder<T(!new)>(cmp: Comparator<T>) {
    && (forall x, y :: cmp(x, y) < 0 <==> cmp(y, x) > 0)
    && (forall x, y, z :: cmp(x, y) <= 0 && cmp(y, z) <= 0 ==> cmp(x, z) <= 0)
  }

  /** No element of s[lo..hi] is above a later one. */
  ghost predicate SortedBetween<T>(cmp: Comparator<T>, s: seq<T>, lo: nat, hi: nat)
    requires hi <= |s|
  {
    forall i, j :: lo <= i < j < hi ==> cmp(s[i], s[j]) <= 0
  }

  /** t is s with the elements at lo..hi-1 rearranged and nothing else touched. */
  ghost predicate Permuted<T>(s: seq<T>, t: seq<T>, lo: nat, hi: nat) {
    && lo <= hi <= |s| == |t|
    && s[..lo] == t[..lo]
    && s[hi..] == t[hi..]
    && multiset(s[lo..hi]) == multiset(t[lo..hi])
  }

  lemma PermutedReflexive<T>(s: seq<T>, lo: nat, hi: nat)
    requires lo <= hi <= |s|
    ensures Permuted(s, s, lo, hi)
  {}

  lemma PermutedTransitive<T>(s: seq<T>, t: seq<T>, u: seq<T>, lo: nat, hi: nat)
    requires Permuted(s, t, lo, hi) && Permuted(t, u, lo, hi)
    ensures Permuted(s, u, lo, hi)
  {}

  lemma PermutedWiden<T>(s: seq<T>, t: seq<T>, lo: nat, hi: nat, lo': nat, hi': nat)
    requires Permuted(s, t, lo, hi)
    requires lo' <= lo && hi <= hi' <= |s|
    ensures Permuted(s, t, lo', hi')
  {
    assert s[..lo'] == s[..lo][..lo'] == t[..lo][..lo'] == t[..lo'];
    assert s[hi'..] == s[hi..][hi' - hi..] == t[hi..][hi' - hi..] == t[hi'..];
    assert s[lo'..hi'] == s[..lo][lo'..] + s[lo..hi] + s[hi..][..hi' - hi];
    assert t[lo'..hi'] == t[..lo][lo'..] + t[lo..hi] + t[hi..][..hi' - hi];
  }

  lemma SwapPermutes<T>(s: seq<T>, i: nat, j: nat, lo: nat, hi: nat)
    requires lo <= i < hi <= |s| && lo <= j < hi
    ensures Permuted(s, s[i := s[j]][j := s[i]], lo, hi)
  {
    var t := s[i := s[j]][j := s[i]];
    assert t[lo..hi] == s[lo..hi][i - lo := s[lo..hi][j - lo]][j - lo := s[lo..hi][i - lo]];
    SwapKeepsMultiset(s[lo..hi], i - lo, j - lo);
  }

  lemma SwapKeepsMultiset<T>(s: seq<T>, i: nat, j: nat)
    requires i < |s| && j < |s|
    ensures multiset(s[i := s[j]][j := s[i]]) == multiset(s)
  {}

  /** Whatever stands at a position of the rearranged range stood somewhere in it. */
  lemma PermutedSource<T>(s: seq<T>, t: seq<T>, lo: nat, hi: nat, k: nat) returns (k': nat)
    requires Permuted(s, t, lo, hi)
    requires lo <= k < hi
    ensures lo <= k' < hi && s[k'] == t[k]
  {
    assert t[k] == t[lo..hi][k - lo];
    assert t[k] in multiset(t[lo..hi]);
    assert t[k] in multiset(s[lo..hi]);
    assert t[k] in s[lo..hi];
    var m :| 0 <= m < hi - lo && s[lo..hi][m] == t[k];
    k' := lo + m;
  }

  lemma PermutedOutside<T>(s: seq<T>, t: seq<T>, lo: nat, hi: nat, k: nat)
    requires Permuted(s, t, lo, hi)
    requires k < |s| && !(lo <= k < hi)
    ensures s[k] == t[k]
  {
    if k < lo {
      assert s[..lo][k] == t[..lo][k];
    } else {
      assert s[hi..][k - hi] == t[hi..][k - hi];
    }
  }

  lemma PermutedBack<T>(s: seq<T>, t: seq<T>, lo: nat, hi: nat)
    requires Permuted(s, t, lo, hi)
    ensures Permuted(t, s, lo, hi)
  {}

  ghost predicate KeysDistinct<T, K>(s: seq<T>, key: T -> K) {
    forall i, j :: 0 <= i < j < |s| ==> key(s[i]) != key(s[j])
  }

  lemma {:induction false} DistinctOnce<T, K>(s: seq<T>, key: T -> K, x: T)
    requires KeysDistinct(s, key)
    ensures multiset(s)[x] <= 1
  {
    if s != [] {
      var n := |s| - 1;
      assert s == s[..n] + [s[n]];
      DistinctOnce(s[..n], key, x);
      if x == s[n] {
        assert x !in s[..n];
      }
    }
  }

  lemma TwicePlaced<T>(s: seq<T>, i: nat, j: nat)
    requires i < j < |s| && s[i] == s[j]
    ensures multiset(s)[s[i]] >= 2
  {
    assert s == s[..j] + [s[j]] + s[j + 1..];
    assert s[..j][i] == s[i];
  }

  /** Rearranging elements with pairwise different keys keeps the keys pairwise different. */
  lemma KeysStayDistinct<T, K>(s: seq<T>, t: seq<T>, key: T -> K)
    requires multiset(s) == multiset(t)
    requires KeysDistinct(s, key)
    ensures KeysDistinct(t, key)
  {
    forall i, j | 0 <= i < j < |t|
      ensures key(t[i]) != key(t[j])
    {
      if key(t[i]) == key(t[j]) {
        assert t[i] in multiset(t) && t[j] in multiset(t);
        assert t[i] in multiset(s) && t[j] in multiset(s);
        var i' :| 0 <= i' < |s| && s[i'] == t[i];
        var j' :| 0 <= j' < |s| && s[j'] == t[j];
        if t[i] == t[j] {
          TwicePlaced(t, i, j);
          DistinctOnce(s, key, t[i]);
        }
      }
    }
  }

  // ---- element exchange ---------------------------------------------------

  method Swap<T>(a: array<T>, i: nat, j: nat, ghost lo: nat, ghost hi: nat)
    requires lo <= i < hi <= a.Length && lo <= j < hi
    modifies a
    ensures a[..] == old(a[..])[i := old(a[j])][j := old(a[i])]
    ensures Permuted(old(a[..]), a[..], lo, hi)
  {
    SwapPermutes(a[..], i, j, lo, hi);
    a[i], a[j] := a[j], a[i];
    assert a[..] == old(a[..])[i := old(a[j])][j := old(a[i])];
  }

  /** t is s with the block of n elements at i exchanged with the one at j. */
  ghost predicate BlocksSwapped<T>(s: seq<T>, t: seq<T>, i: nat, j: nat, n: nat) {
    && i + n <= j && j + n <= |s| == |t|
    && (forall k :: i <= k < i + n ==> t[k] == s[k - i + j])
    && (forall k :: j <= k < j + n ==> t[k] == s[k - j + i])
    && (forall k :: 0 <= k < |s| && !(i <= k < i + n) && !(j <= k < j + n) ==> t[k] == s[k])
  }

  /** cq_swapfunc: exchange the blocks of n elements starting at i and at j, which an unsteady comparator may make overlap. */
  method SwapBlocks<T>(a: array<T>, i: nat, j: nat, n: nat, ghost lo: nat, ghost hi: nat)
    requires lo <= i <= j && j + n <= hi <= a.Length
    modifies a
    ensures i + n <= j ==> BlocksSwapped(old(a[..]), a[..], i, j, n)
    ensures Permuted(old(a[..]), a[..], lo, hi)
  {
    for m := 0 to n
      invariant i + n <= j ==> BlocksSwapped(old(a[..]), a[..], i, j, m)
      invariant Permuted(old(a[..]), a[..], lo, hi)
    {
      ghost var before := a[..];
      Swap(a, i + m, j + m, lo, hi);
      PermutedTransitive(old(a[..]), before, a[..], lo, hi);
    }
  }

  // ---- pivot choice -------------------------------------------------------

  ghost predicate IsMedian<T>(cmp: Comparator<T>, x: T, m: T, y: T) {
    (cmp(x, m) <= 0 && cmp(m, y) <= 0) || (cmp(y, m) <= 0 && cmp(m, x) <= 0)
  }

  /** cq_med3: the position of the median of three positions. */
  method Med3<T(!new)>(s: array<T>, i: nat, j: nat, k: nat, q: Asker<T>, ghost cmp: Comparator<T>) returns (m: nat)
    requires i < s.Length && j < s.Length && k < s.Length
    modifies q
    ensures m == i || m == j || m == k
    ensures Orders(q.answer, cmp) ==>
              || (m == i && IsMedian(cmp, s[j], s[m], s[k]))
              || (m == j && IsMedian(cmp, s[i], s[m], s[k]))
              || (m == k && IsMedian(cmp, s[i], s[m], s[j]))
  {
    var ab := q.Ask(s[i], s[j]);
    var bc := q.Ask(s[j], s[k]);
    if (ab < 0 && bc < 0) || (ab >= 0 && bc > 0) {
      m := j;
    } else {
      var ac := q.Ask(s[i], s[k]);
      if ab < 0 {
        m := if ac < 0 then k else i;
      } else {
        m := if ac > 0 then k else i;
      }
    }
  }

  method ChoosePivot<T(!new)>(a: array<T>, lo: nat, hi: nat, q: Asker<T>, ghost cmp: Comparator<T>) returns (pm: nat)
    requires lo + 7 <= hi <= a.Length
    modifies q
    ensures lo <= pm < hi
  {
    hide Orders, IsMedian;
    var n := hi - lo;
    pm := lo + n / 2;
    if n > 7 {
      var p1 := lo;
      var p2 := lo + (n - 1);
      if n > 40 {
        var offset := n / 8;
        p1 := Med3(a, p1, p1 + offset, p1 + 2 * offset, q, cmp);
        pm := Med3(a, pm - offset, pm, pm + offset, q, cmp);
        p2 := Med3(a, p2 - 2 * offset, p2 - offset, p2, q, cmp);
      }
      pm := Med3(a, p1, pm, p2, q, cmp);
    }
  }

  // ---- insertion sort for tiny ranges -------------------------------------

  /** s[lo..hi] is sorted once the element at x, which may be too low, is left out of account. */
  ghost predicate SortedExcept<T>(cmp: Comparator<T>, s: seq<T>, lo: nat, hi: nat, x: nat)
    requires hi <= |s|
  {
    forall i, j :: lo <= i < j < hi && j != x ==> cmp(s[i], s[j]) <= 0
  }

  lemma SinkStep<T(!new)>(cmp: Comparator<T>, s: seq<T>, t: seq<T>, lo: nat, hi: nat, x: nat)
    requires TotalPreorder(cmp)
    requires lo < x < hi <= |s|
    requires t == s[x := s[x - 1]][x - 1 := s[x]]
    requires SortedExcept(cmp, s, lo, hi, x)
    requires cmp(s[x - 1], s[x]) > 0
    ensures SortedExcept(cmp, t, lo, hi, x - 1)
  {
    forall i, j | lo <= i < j < hi && j != x - 1
      ensures cmp(t[i], t[j]) <= 0
    {
      var i' := if i == x then x - 1 else if i == x - 1 then x else i;
      var j' := if j == x then x - 1 else j;
      assert t[i] == s[i'] && t[j] == s[j'];
    }
  }

  lemma SinkDone<T(!new)>(cmp: Comparator<T>, s: seq<T>, lo: nat, hi: nat, x: nat)
    requires TotalPreorder(cmp)
    requires lo <= x < hi <= |s|
    requires SortedExcept(cmp, s, lo, hi, x)
    requires x == lo || cmp(s[x - 1], s[x]) <= 0
    ensures SortedBetween(cmp, s, lo, hi)
  {
    forall i, j | lo <= i < j < hi
      ensures cmp(s[i], s[j]) <= 0
    {
      if j == x && i < x - 1 {
        assert cmp(s[i], s[x - 1]) <= 0;
      }
    }
  }

  method InsertionSort<T(!new)>(a: array<T>, lo: nat, hi: nat, q: Asker<T>, ghost cmp: Comparator<T>)
    requires lo <= hi <= a.Length
    modifies a, q
    ensures Permuted(old(a[..]), a[..], lo, hi)
    ensures Orders(q.answer, cmp) ==> SortedBetween(cmp, a[..], lo, hi)
  {
    hide Orders;
    var pi := lo + 1;
    while pi < hi
      invariant lo + 1 <= pi
      invariant lo < hi ==> pi <= hi
      invariant Permuted(old(a[..]), a[..], lo, hi)
      invariant Orders(q.answer, cmp) && lo < hi ==> SortedBetween(cmp, a[..], lo, pi)
    {
      ghost var before := a[..];
      Sink(a, lo, pi, hi, q, cmp);
      PermutedTransitive(old(a[..]), before, a[..], lo, hi);
      pi := pi + 1;
    }
  }

  lemma SinkStart<T(!new)>(cmp: Comparator<T>, s: seq<T>, lo: nat, x: nat)
    requires x < |s|
    requires SortedBetween(cmp, s, lo, x)
    ensures SortedExcept(cmp, s, lo, x + 1, x)
  {}

  /** One exchange of the inner loop. */
  method SinkOnce<T(!new)>(a: array<T>, lo: nat, pj: nat, ghost sofar: nat, ghost hi: nat, ghost orders: bool, ghost cmp: Comparator<T>)
    requires lo < pj < sofar <= hi <= a.Length
    requires orders ==> TotalPreorder(cmp) && cmp(a[pj - 1], a[pj]) > 0 && SortedExcept(cmp, a[..], lo, sofar, pj)
    modifies a
    ensures Permuted(old(a[..]), a[..], lo, hi)
    ensures orders ==> SortedExcept(cmp, a[..], lo, sofar, pj - 1)
  {
    hide *;
    Swap(a, pj, pj - 1, lo, hi);
    if orders {
      SinkStep(cmp, old(a[..]), a[..], lo, sofar, pj);
    }
  }

  /** The inner loop: bring the element at pi down to its place in the sorted prefix. */
  method Sink<T(!new)>(a: array<T>, lo: nat, pi: nat, ghost hi: nat, q: Asker<T>, ghost cmp: Comparator<T>)
    requires lo < pi < hi <= a.Length
    requires Orders(q.answer, cmp) ==> SortedBetween(cmp, a[..], lo, pi)
    modifies a, q
    ensures Permuted(old(a[..]), a[..], lo, hi)
    ensures Orders(q.answer, cmp) ==> SortedBetween(cmp, a[..], lo, pi + 1)
  {
    hide *;
    ghost var orders := Orders(q.answer, cmp);
    PermutedReflexive(a[..], lo, hi);
    if orders {
      SinkStart(cmp, a[..], lo, pi);
      OrdersFacts(q.answer, cmp);
    }
    var pj := pi;
    var r := q.Ask(a[pj - 1], a[pj]);
    while r > 0
      invariant lo <= pj <= pi && (r > 0 ==> lo < pj)
      invariant Permuted(old(a[..]), a[..], lo, hi)
      invariant orders ==> SortedExcept(cmp, a[..], lo, pi + 1, pj)
      invariant orders && pj > lo ==> r == cmp(a[pj - 1], a[pj])
      decreases pj, r > 0
    {
      ghost var before := a[..];
      SinkOnce(a, lo, pj, pi + 1, hi, orders, cmp);
      PermutedTransitive(old(a[..]), before, a[..], lo, hi);
      pj := pj - 1;
      if pj > lo {
        r := q.Ask(a[pj - 1], a[pj]);
      } else {
        r := 0;
      }
    }
    if orders {
      SinkDone(cmp, a[..], lo, pi + 1, pj);
    }
  }

  lemma OrdersFacts<T(!new)>(answer: (nat, T, T) -> int, cmp: Comparator<T>)
    requires Orders(answer, cmp)
    ensures TotalPreorder(cmp) && Steady(answer, cmp)
    ensures forall n: nat, x, y :: answer(n, x, y) == cmp(x, y)
  {}

  // ---- three-way partition ------------------------------------------------

  /** Positions lo..hi-1 hold elements that compare below, like and above the pivot, in that order. */
  ghost predicate Partitioned<T>(cmp: Comparator<T>, s: seq<T>, lo: nat, mid: nat, top: nat, hi: nat, pivot: T) {
    && lo <= mid < top <= hi <= |s|
    && (forall k :: lo <= k < mid ==> cmp(s[k], pivot) < 0)
    && (forall k :: mid <= k < top ==> s[k] == pivot || cmp(s[k], pivot) == 0)
    && (forall k :: top <= k < hi ==> cmp(s[k], pivot) > 0)
  }

  /** The state of the partition loop: equal, below, unseen, above, equal. */
  ghost predicate Scanning<T>(cmp: Comparator<T>, s: seq<T>, lo: nat, pa: nat, pb: nat, pc: int, pd: int, hi: nat, pivot: T) {
    && lo < pa <= pb <= pc + 1 <= pd + 1 <= hi <= |s|
    && s[lo] == pivot
    && (forall k :: lo < k < pa ==> cmp(s[k], pivot) == 0)
    && (forall k :: pa <= k < pb ==> cmp(s[k], pivot) < 0)
    && (forall k :: pc < k <= pd ==> cmp(s[k], pivot) > 0)
    && (forall k :: pd < k < hi ==> cmp(s[k], pivot) == 0)
  }

  /** Where the four pointers of the partition loop may stand, whatever the comparator has answered. */
  predicate InRange(lo: nat, pa: int, pb: int, pc: int, pd: int, hi: nat) {
    && lo < pa <= pb <= pd + 1 <= hi && lo <= pc <= pd
    && pb <= pc + 2 && (pb == pc + 2 ==> pa < pb)
  }

  method ScanUp<T(!new)>(a: array<T>, lo: nat, pa0: nat, pb0: nat, pc: int, ghost pd: int, ghost hi: nat, q: Asker<T>, ghost cmp: Comparator<T>)
    returns (pa: nat, pb: nat)
    requires hi <= a.Length && InRange(lo, pa0, pb0, pc, pd, hi)
    requires Steady(q.answer, cmp) ==> Scanning(cmp, a[..], lo, pa0, pb0, pc, pd, hi, a[lo])
    modifies a, q
    ensures a[lo] == old(a[lo]) && pb0 <= pb && InRange(lo, pa, pb, pc, pd, hi)
    ensures Permuted(old(a[..]), a[..], lo, hi)
    ensures Steady(q.answer, cmp) ==> Scanning(cmp, a[..], lo, pa, pb, pc, pd, hi, a[lo]) && (pb <= pc ==> cmp(a[pb], a[lo]) > 0)
  {
    hide Steady, Permuted, Scanning;
    PermutedReflexive(a[..], lo, hi);
    if Steady(q.answer, cmp) {
      SteadyFacts(q.answer, cmp);
    }
    pa, pb := pa0, pb0;
    while pb <= pc
      invariant pb0 <= pb && a[lo] == old(a[lo]) && InRange(lo, pa, pb, pc, pd, hi)
      invariant Permuted(old(a[..]), a[..], lo, hi)
      invariant Steady(q.answer, cmp) ==> Scanning(cmp, a[..], lo, pa, pb, pc, pd, hi, a[lo])
      decreases pc - pb
    {
      var r := q.Ask(a[pb], a[lo]);
      if r > 0 {
        return;
      }
      ghost var before := a[..];
      if r == 0 {
        Swap(a, pa, pb, lo, hi);
        PermutedTransitive(old(a[..]), before, a[..], lo, hi);
        if Steady(q.answer, cmp) {
          ScanUpEqual(cmp, before, a[..], lo, pa, pb, pc, pd, hi);
        }
        pa := pa + 1;
      } else if Steady(q.answer, cmp) {
        ScanUpBelow(cmp, before, lo, pa, pb, pc, pd, hi);
      }
      pb := pb + 1;
    }
  }

  lemma ScanUpEqual<T(!new)>(cmp: Comparator<T>, s: seq<T>, t: seq<T>, lo: nat, pa: nat, pb: nat, pc: int, pd: int, hi: nat)
    requires lo < |s| && Scanning(cmp, s, lo, pa, pb, pc, pd, hi, s[lo]) && pb <= pc && cmp(s[pb], s[lo]) == 0
    requires t == s[pa := s[pb]][pb := s[pa]]
    ensures Scanning(cmp, t, lo, pa + 1, pb + 1, pc, pd, hi, t[lo])
  {}

  lemma ScanUpBelow<T(!new)>(cmp: Comparator<T>, s: seq<T>, lo: nat, pa: nat, pb: nat, pc: int, pd: int, hi: nat)
    requires lo < |s| && Scanning(cmp, s, lo, pa, pb, pc, pd, hi, s[lo]) && pb <= pc && cmp(s[pb], s[lo]) < 0
    ensures Scanning(cmp, s, lo, pa, pb + 1, pc, pd, hi, s[lo])
  {}

  lemma ScanDownEqual<T(!new)>(cmp: Comparator<T>, s: seq<T>, t: seq<T>, lo: nat, pa: nat, pb: nat, pc: int, pd: int, hi: nat)
    requires lo < |s| && Scanning(cmp, s, lo, pa, pb, pc, pd, hi, s[lo]) && pb <= pc && cmp(s[pc], s[lo]) == 0
    requires t == s[pc := s[pd]][pd := s[pc]] && cmp(s[pb], s[lo]) > 0
    ensures Scanning(cmp, t, lo, pa, pb, pc - 1, pd - 1, hi, t[lo]) && (pb <= pc - 1 ==> cmp(t[pb], t[lo]) > 0)
  {}

  lemma ScanDownAbove<T(!new)>(cmp: Comparator<T>, s: seq<T>, lo: nat, pa: nat, pb: nat, pc: int, pd: int, hi: nat)
    requires lo < |s| && Scanning(cmp, s, lo, pa, pb, pc, pd, hi, s[lo]) && pb <= pc && cmp(s[pc], s[lo]) > 0
    ensures Scanning(cmp, s, lo, pa, pb, pc - 1, pd, hi, s[lo])
  {}

  lemma SteadyFacts<T(!new)>(answer: (nat, T, T) -> int, cmp: Comparator<T>)
    requires Steady(answer, cmp)
    ensures forall n: nat, x, y :: answer(n, x, y) == cmp(x, y)
  {}

  method SwapDown<T(!new)>(a: array<T>, ghost lo: nat, ghost pa: nat, ghost pb: nat, pc: nat, pd: nat, ghost hi: nat, ghost steady: bool, ghost cmp: Comparator<T>)
    requires hi <= a.Length && InRange(lo, pa, pb, pc, pd, hi) && pb <= pc
    requires steady ==> Scanning(cmp, a[..], lo, pa, pb, pc, pd, hi, a[lo]) && cmp(a[pb], a[lo]) > 0 && cmp(a[pc], a[lo]) == 0
    modifies a
    ensures a[lo] == old(a[lo]) && Permuted(old(a[..]), a[..], lo, hi)
    ensures steady ==> Scanning(cmp, a[..], lo, pa, pb, pc - 1, pd - 1, hi, a[lo]) && (pb <= pc - 1 ==> cmp(a[pb], a[lo]) > 0)
  {
    hide Permuted, Scanning;
    Swap(a, pc, pd, lo, hi);
    if steady {
      ScanDownEqual(cmp, old(a[..]), a[..], lo, pa, pb, pc, pd, hi);
    }
  }

  method ScanDown<T(!new)>(a: array<T>, lo: nat, ghost pa: nat, pb: nat, pc0: int, pd0: int, ghost hi: nat, q: Asker<T>, ghost cmp: Comparator<T>)
    returns (pc: int, pd: int)
    requires hi <= a.Length && InRange(lo, pa, pb, pc0, pd0, hi)
    requires Steady(q.answer, cmp) ==> Scanning(cmp, a[..], lo, pa, pb, pc0, pd0, hi, a[lo]) && (pb <= pc0 ==> cmp(a[pb], a[lo]) > 0)
    modifies a, q
    ensures a[lo] == old(a[lo]) && pc <= pc0 && InRange(lo, pa, pb, pc, pd, hi)
    ensures Permuted(old(a[..]), a[..], lo, hi)
    ensures Steady(q.answer, cmp) ==>
              && Scanning(cmp, a[..], lo, pa, pb, pc, pd, hi, a[lo])
              && (pb <= pc ==> pb < pc && cmp(a[pb], a[lo]) > 0 && cmp(a[pc], a[lo]) < 0)
  {
    hide Steady, Permuted, Scanning;
    PermutedReflexive(a[..], lo, hi);
    if Steady(q.answer, cmp) {
      SteadyFacts(q.answer, cmp);
    }
    pc, pd := pc0, pd0;
    while pc >= pb
      invariant pc <= pc0 && a[lo] == old(a[lo]) && InRange(lo, pa, pb, pc, pd, hi)
      invariant Permuted(old(a[..]), a[..], lo, hi)
      invariant Steady(q.answer, cmp) ==> Scanning(cmp, a[..], lo, pa, pb, pc, pd, hi, a[lo]) && (pb <= pc ==> cmp(a[pb], a[lo]) > 0)
      decreases pc - pb
    {
      var r := q.Ask(a[pc], a[lo]);
      if r < 0 {
        return;
      }
      ghost var before := a[..];
      if r == 0 {
        SwapDown(a, lo, pa, pb, pc, pd, hi, Steady(q.answer, cmp), cmp);
        PermutedTransitive(old(a[..]), before, a[..], lo, hi);
        pd := pd - 1;
      } else if Steady(q.answer, cmp) {
        ScanDownAbove(cmp, before, lo, pa, pb, pc, pd, hi);
      }
      pc := pc - 1;
    }
  }

  lemma ScanSwap<T(!new)>(cmp: Comparator<T>, s: seq<T>, t: seq<T>, lo: nat, pa: nat, pb: nat, pc: int, pd: int, hi: nat, pivot: T)
    requires Scanning(cmp, s, lo, pa, pb, pc, pd, hi, pivot)
    requires pb < pc && cmp(s[pb], pivot) > 0 && cmp(s[pc], pivot) < 0
    requires t == s[pb := s[pc]][pc := s[pb]]
    ensures Scanning(cmp, t, lo, pa, pb + 1, pc - 1, pd, hi, pivot)
  {}

  /**
   The partition loop proper, started with the pivot in front.  When the two
   scans meet at one element, as only an unsteady comparator lets them, it is
   exchanged with itself and the pointers pass each other by one more.
   */
  method Scan<T(!new)>(a: array<T>, lo: nat, hi: nat, q: Asker<T>, ghost cmp: Comparator<T>)
    returns (pa: nat, pb: nat, pc: int, pd: int)
    requires lo + 1 < hi <= a.Length
    modifies a, q
    ensures InRange(lo, pa, pb, pc, pd, hi) && pc < pb
    ensures Permuted(old(a[..]), a[..], lo, hi)
    ensures Steady(q.answer, cmp) ==> pb == pc + 1 && Scanning(cmp, a[..], lo, pa, pb, pc, pd, hi, old(a[lo]))
  {
    hide Permuted, Steady;
    PermutedReflexive(a[..], lo, hi);
    pa, pb, pc, pd := lo + 1, lo + 1, hi - 1, hi - 1;
    ghost var pivot := a[lo];
    assert Scanning(cmp, a[..], lo, pa, pb, pc, pd, hi, pivot);
    hide Scanning;
    while true
      invariant a[lo] == pivot && InRange(lo, pa, pb, pc, pd, hi)
      invariant Permuted(old(a[..]), a[..], lo, hi)
      invariant Steady(q.answer, cmp) ==> pb <= pc + 1 && Scanning(cmp, a[..], lo, pa, pb, pc, pd, hi, pivot)
      decreases pc - pb + 2
    {
      ghost var s0 := a[..];
      pa, pb := ScanUp(a, lo, pa, pb, pc, pd, hi, q, cmp);
      ghost var s1 := a[..];
      PermutedTransitive(old(a[..]), s0, s1, lo, hi);
      pc, pd := ScanDown(a, lo, pa, pb, pc, pd, hi, q, cmp);
      ghost var s2 := a[..];
      PermutedTransitive(old(a[..]), s1, s2, lo, hi);
      if pb > pc {
        if Steady(q.answer, cmp) {
          ScanningBounds(cmp, s2, lo, pa, pb, pc, pd, hi, pivot);
        }
        break;
      }
      Swap(a, pb, pc, lo, hi);
      PermutedTransitive(old(a[..]), s2, a[..], lo, hi);
      if Steady(q.answer, cmp) {
        ScanSwap(cmp, s2, a[..], lo, pa, pb, pc, pd, hi, pivot);
      }
      pb := pb + 1;
      pc := pc - 1;
    }
  }

  lemma ScanningBounds<T>(cmp: Comparator<T>, s: seq<T>, lo: nat, pa: nat, pb: nat, pc: int, pd: int, hi: nat, pivot: T)
    requires Scanning(cmp, s, lo, pa, pb, pc, pd, hi, pivot)
    ensures pb <= pc + 1
  {}

  /** Exchanging the shorter of two neighbouring blocks with the far end of the other one makes
      the blocks trade places. */
  lemma BlocksTrade<T(!new)>(s: seq<T>, t: seq<T>, lo: nat, mid: nat, hi: nat, n: nat, k: nat) returns (k': nat)
    requires lo <= mid <= hi <= |s|
    requires n == if mid - lo < hi - mid then mid - lo else hi - mid
    requires BlocksSwapped(s, t, lo, hi - n, n)
    requires k < |s|
    ensures k' < |s| && t[k] == s[k']
    ensures lo <= k < lo + (hi - mid) ==> mid <= k' < hi
    ensures lo + (hi - mid) <= k < hi ==> lo <= k' < mid
    ensures !(lo <= k < hi) ==> k' == k
  {
    k' := if lo <= k < lo + n then k - lo + (hi - n) else if hi - n <= k < hi then k - (hi - n) + lo else k;
  }

  lemma Gathered<T(!new)>(cmp: Comparator<T>, s1: seq<T>, s2: seq<T>, s3: seq<T>, lo: nat, pa: nat, pb: nat, pd: int,
                          hi: nat, n: nat, m: nat, pivot: T)
    requires Scanning(cmp, s1, lo, pa, pb, pb - 1, pd, hi, pivot)
    requires n == if pa - lo < pb - pa then pa - lo else pb - pa
    requires m == if pd - (pb - 1) < hi - pd - 1 then pd - (pb - 1) else hi - pd - 1
    requires BlocksSwapped(s1, s2, lo, pb - n, n)
    requires BlocksSwapped(s2, s3, pb, hi - m, m)
    ensures Partitioned(cmp, s3, lo, lo + (pb - pa), hi - (pd - (pb - 1)), hi, pivot)
  {
    forall k | lo <= k < hi
      ensures lo <= k < lo + (pb - pa) ==> cmp(s3[k], pivot) < 0
      ensures lo + (pb - pa) <= k < hi - (pd - (pb - 1)) ==> s3[k] == pivot || cmp(s3[k], pivot) == 0
      ensures hi - (pd - (pb - 1)) <= k < hi ==> cmp(s3[k], pivot) > 0
    {
      var k2 := BlocksTrade(s2, s3, pb, pd + 1, hi, m, k);
      var k1 := BlocksTrade(s1, s2, lo, pa, pb, n, k2);
    }
  }

  /** Bring the elements that compare equal to the pivot from both ends into the middle. */
  method Gather<T(!new)>(a: array<T>, lo: nat, pa: nat, pb: nat, pc: int, pd: int, hi: nat, ghost steady: bool, ghost cmp: Comparator<T>, ghost pivot: T)
    requires InRange(lo, pa, pb, pc, pd, hi) && pc < pb && hi <= a.Length
    requires steady ==> pb == pc + 1 && Scanning(cmp, a[..], lo, pa, pb, pc, pd, hi, pivot)
    modifies a
    ensures Permuted(old(a[..]), a[..], lo, hi)
    ensures steady ==> Partitioned(cmp, a[..], lo, lo + (pb - pa), hi - (pd - pc), hi, pivot)
  {
    hide Permuted, Scanning, Partitioned, BlocksSwapped;
    ghost var s1 := a[..];
    var n := if pa - lo < pb - pa then pa - lo else pb - pa;
    SwapBlocks(a, lo, pb - n, n, lo, hi);
    ghost var s2 := a[..];
    var m := if pd - pc < hi - pd - 1 then pd - pc else hi - pd - 1;
    SwapBlocks(a, pb, hi - m, m, lo, hi);
    PermutedTransitive(s1, s2, a[..], lo, hi);
    if steady {
      Gathered(cmp, s1, s2, a[..], lo, pa, pb, pd, hi, n, m, pivot);
    }
  }

  /** Pivot choice, partition and the two block exchanges; left and right are what remains to sort. */
  method Partition<T(!new)>(a: array<T>, lo: nat, hi: nat, q: Asker<T>, ghost cmp: Comparator<T>)
    returns (left: nat, right: nat, ghost pivot: T)
    requires lo + 7 <= hi <= a.Length
    modifies a, q
    ensures left + right <= hi - lo && left < hi - lo && right < hi - lo
    ensures Permuted(old(a[..]), a[..], lo, hi)
    ensures Steady(q.answer, cmp) ==> left + right < hi - lo && Partitioned(cmp, a[..], lo, lo + left, hi - right, hi, pivot)
  {
    hide Permuted, Steady, Scanning, Partitioned;
    var pm := ChoosePivot(a, lo, hi, q, cmp);
    Swap(a, lo, pm, lo, hi);
    ghost var s0 := a[..];
    pivot := a[lo];
    var pa, pb, pc, pd := Scan(a, lo, hi, q, cmp);
    PermutedTransitive(old(a[..]), s0, a[..], lo, hi);
    left, right := pb - pa, pd - pc;
    ghost var s1 := a[..];
    Gather(a, lo, pa, pb, pc, pd, hi, Steady(q.answer, cmp), cmp, pivot);
    PermutedTransitive(old(a[..]), s1, a[..], lo, hi);
  }

  // ---- the work stack -----------------------------------------------------

  /** A range of positions still to be sorted. */
  datatype Range = Range(lo: nat, hi: nat) {
    predicate Has(k: int) { lo <= k < hi }
    function Size(): nat { if lo <= hi then hi - lo else 0 }
  }

  function Pow2(n: nat): (p: nat)
    ensures p > 0
  {
    if n == 0 then 1 else 2 * Pow2(n - 1)
  }

  lemma {:induction false} Pow2Monotone(m: nat, n: nat)
    ensures m <= n ==> Pow2(m) <= Pow2(n)
    ensures m < n ==> Pow2(m) < Pow2(n)
  {
    if m < n {
      Pow2Monotone(m, n - 1);
    }
  }

  /** The stack array spells out the ranges, two words each. */
  ghost predicate Spells(words: seq<nat>, work: seq<Range>) {
    && |words| == 2 * |work|
    && forall k :: 0 <= k < |work| ==> words[2 * k] == work[k].lo && words[2 * k + 1] == work[k].hi
  }

  lemma SpellsPush(words: seq<nat>, work: seq<Range>, r: Range)
    requires Spells(words, work)
    ensures Spells(words + [r.lo, r.hi], work + [r])
  {}

  ghost predicate Disjoint(r: Range, q: Range) {
    forall k :: !(r.Has(k) && q.Has(k))
  }

  /** The pending ranges lie in [lo, hi) and do not overlap. */
  ghost predicate Separate(work: seq<Range>, lo: nat, hi: nat) {
    && (forall k :: 0 <= k < |work| ==> lo <= work[k].lo <= work[k].hi <= hi)
    && (forall k, l :: 0 <= k < l < |work| ==> Disjoint(work[k], work[l]))
  }

  /** The range at depth d holds at most size / 2^d positions. */
  ghost predicate Halving(work: seq<Range>, size: nat) {
    forall d :: 0 <= d < |work| ==> work[d].Size() * Pow2(d) <= size
  }

  ghost predicate Together(work: seq<Range>, i: int, j: int) {
    exists k :: 0 <= k < |work| && work[k].Has(i) && work[k].Has(j)
  }

  /** Every pair of positions is in order or is still together in a pending range. */
  ghost predicate OrderedBut<T>(cmp: Comparator<T>, s: seq<T>, lo: nat, hi: nat, work: seq<Range>)
    requires hi <= |s|
  {
    forall i, j :: lo <= i < j < hi ==> cmp(s[i], s[j]) <= 0 || Together(work, i, j)
  }

  /** Two ranges weigh less than the range they divide, even without a gap between them. */
  ghost function Load(size: nat): nat {
    if size == 0 then 1 else 2 * size - 1
  }

  ghost function Weight(work: seq<Range>): nat {
    if work == [] then 0 else Load(work[0].Size()) + Weight(work[1..])
  }

  lemma {:induction false} WeightAppend(work: seq<Range>, more: seq<Range>)
    ensures Weight(work + more) == Weight(work) + Weight(more)
  {
    if work == [] {
      assert work + more == more;
    } else {
      WeightAppend(work[1..], more);
      assert (work + more)[1..] == work[1..] + more;
    }
  }

  /** Replacing the last range by parts of it: what stays true of the whole work list. */
  lemma ReplaceLast<T(!new)>(cmp: Comparator<T>, s: seq<T>, t: seq<T>, lo: nat, hi: nat, rest: seq<Range>, r: Range, parts: seq<Range>)
    requires hi <= |s|
    requires Separate(rest + [r], lo, hi)
    requires Separate(parts, r.lo, r.hi)
    requires Permuted(s, t, r.lo, r.hi)
    ensures Separate(rest + parts, lo, hi)
    ensures OrderedBut(cmp, s, lo, hi, rest + [r]) && OrderedBut(cmp, t, r.lo, r.hi, parts) ==>
              OrderedBut(cmp, t, lo, hi, rest + parts)
  {
    SeparateParts(lo, hi, rest, r, parts);
    if OrderedBut(cmp, s, lo, hi, rest + [r]) && OrderedBut(cmp, t, r.lo, r.hi, parts) {
      forall i, j | lo <= i < j < hi
        ensures cmp(t[i], t[j]) <= 0 || Together(rest + parts, i, j)
      {
        ReplaceLastPair(cmp, s, t, lo, hi, rest, r, parts, i, j);
      }
    }
  }

  lemma SeparateParts(lo: nat, hi: nat, rest: seq<Range>, r: Range, parts: seq<Range>)
    requires Separate(rest + [r], lo, hi)
    requires Separate(parts, r.lo, r.hi)
    ensures Separate(rest + parts, lo, hi)
  {
    var was := rest + [r];
    var now := rest + parts;
    assert was[|rest|] == r;
    assert forall k :: 0 <= k < |rest| ==> was[k] == rest[k] == now[k];
    forall k, l | 0 <= k < l < |now|
      ensures Disjoint(now[k], now[l])
    {
      if l < |rest| {
        assert Disjoint(was[k], was[l]);
      } else if k < |rest| {
        assert Disjoint(was[k], was[|rest|]);
      } else {
        assert Disjoint(parts[k - |rest|], parts[l - |rest|]);
      }
    }
  }

  lemma ReplaceLastPair<T(!new)>(cmp: Comparator<T>, s: seq<T>, t: seq<T>, lo: nat, hi: nat, rest: seq<Range>, r: Range,
                                 parts: seq<Range>, i: nat, j: nat)
    requires hi <= |s|
    requires Separate(rest + [r], lo, hi)
    requires Permuted(s, t, r.lo, r.hi)
    requires OrderedBut(cmp, s, lo, hi, rest + [r])
    requires OrderedBut(cmp, t, r.lo, r.hi, parts)
    requires lo <= i < j < hi
    ensures cmp(t[i], t[j]) <= 0 || Together(rest + parts, i, j)
  {
    var was := rest + [r];
    var now := rest + parts;
    assert was[|rest|] == r;
    if r.Has(i) && r.Has(j) {
      if Together(parts, i, j) {
        var k :| 0 <= k < |parts| && parts[k].Has(i) && parts[k].Has(j);
        assert now[|rest| + k] == parts[k];
      }
    } else {
      var i', j' := i, j;
      if r.Has(i) {
        i' := PermutedSource(s, t, r.lo, r.hi, i);
      } else {
        PermutedOutside(s, t, r.lo, r.hi, i);
      }
      if r.Has(j) {
        j' := PermutedSource(s, t, r.lo, r.hi, j);
      } else {
        PermutedOutside(s, t, r.lo, r.hi, j);
      }
      if cmp(s[i'], s[j']) > 0 {
        var k :| 0 <= k < |was| && was[k].Has(i') && was[k].Has(j');
        assert k < |rest|;
        assert Disjoint(was[k], was[|rest|]);
        assert now[k] == rest[k];
      }
    }
  }

  /** A partitioned range is in order except inside its two outer parts. */
  lemma PartitionOrders<T(!new)>(cmp: Comparator<T>, s: seq<T>, lo: nat, mid: nat, top: nat, hi: nat, pivot: T, parts: seq<Range>)
    requires TotalPreorder(cmp)
    requires Partitioned(cmp, s, lo, mid, top, hi, pivot)
    requires lo < mid ==> Range(lo, mid) in parts
    requires top < hi ==> Range(top, hi) in parts
    ensures OrderedBut(cmp, s, lo, hi, parts)
  {
    forall i, j | lo <= i < j < hi
      ensures cmp(s[i], s[j]) <= 0 || Together(parts, i, j)
    {
      if j < mid {
        var k :| 0 <= k < |parts| && parts[k] == Range(lo, mid);
        assert parts[k].Has(i) && parts[k].Has(j);
      } else if top <= i {
        var k :| 0 <= k < |parts| && parts[k] == Range(top, hi);
        assert parts[k].Has(i) && parts[k].Has(j);
      } else {
        assert cmp(pivot, pivot) <= 0;
        assert cmp(s[i], pivot) <= 0;
        assert cmp(pivot, s[j]) <= 0;
      }
    }
  }

  /** The work the partition leaves: nothing, the longer part, or the longer part and then the shorter one. */
  ghost function Parts(lo: nat, mid: nat, top: nat, hi: nat): seq<Range> {
    if lo == mid && top == hi then []
    else
      var longer := if hi - top > mid - lo then Range(top, hi) else Range(lo, mid);
      var shorter := if hi - top > mid - lo then Range(lo, mid) else Range(top, hi);
      if shorter.lo == shorter.hi then [longer] else [longer, shorter]
  }

  lemma PartsFit(lo: nat, mid: nat, top: nat, hi: nat)
    requires lo <= mid <= top <= hi && mid < hi && lo < top
    ensures Separate(Parts(lo, mid, top, hi), lo, hi)
    ensures Weight(Parts(lo, mid, top, hi)) < Load(hi - lo)
    ensures lo < mid ==> Range(lo, mid) in Parts(lo, mid, top, hi)
    ensures top < hi ==> Range(top, hi) in Parts(lo, mid, top, hi)
  {
    var parts := Parts(lo, mid, top, hi);
    if |parts| == 2 {
      assert parts[1..] == [parts[1]];
      assert [parts[1]][1..] == [];
      assert Weight([parts[1]]) == Load(parts[1].Size());
      assert Weight(parts) == Load(parts[0].Size()) + Weight(parts[1..]);
    } else if |parts| == 1 {
      assert parts[1..] == [];
      assert Weight(parts) == Load(parts[0].Size());
    }
  }

  /** Popping a range and pushing its parts, longer first, keeps the halving bound. */
  lemma PartsHalve(rest: seq<Range>, r: Range, mid: nat, top: nat, size: nat)
    requires r.lo <= mid <= top <= r.hi
    requires Halving(rest + [r], size)
    ensures Halving(rest + Parts(r.lo, mid, top, r.hi), size)
  {
    hide Pow2;
    var was := rest + [r];
    var d := |rest|;
    assert was[d] == r;
    assert r.Size() * Pow2(d) <= size;
    var parts := Parts(r.lo, mid, top, r.hi);
    var now := rest + parts;
    forall k | 0 <= k < |now|
      ensures now[k].Size() * Pow2(k) <= size
    {
      if k < d {
        assert now[k] == was[k];
      } else if k == d {
        assert now[k].Size() <= r.Size();
        MulLe(now[k].Size(), r.Size(), Pow2(d));
      } else {
        assert 2 * now[k].Size() <= r.Size();
        HalfFits(now[k].Size(), r.Size(), d);
      }
    }
  }

  lemma HalfFits(part: nat, whole: nat, d: nat)
    requires 2 * part <= whole
    ensures part * Pow2(d + 1) <= whole * Pow2(d)
  {
    MulLe(2 * part, whole, Pow2(d));
    assert Pow2(d + 1) == 2 * Pow2(d);
    assert part * (2 * Pow2(d)) == (2 * part) * Pow2(d);
  }

  lemma MulLe(x: int, y: int, p: nat)
    requires x <= y
    ensures x * p <= y * p
  {}

  /** The depth at which a range of seven or more can sit leaves room for the assertion on the stack. */
  lemma DepthBound(work: seq<Range>, size: nat, bits: nat)
    requires work != []
    requires Halving(work, size)
    requires size < Pow2(bits)
    requires work[|work| - 1].lo + 7 <= work[|work| - 1].hi
    ensures |work| + 1 < bits
  {
    var d := |work| - 1;
    assert work[d].Size() * Pow2(d) <= size;
    MulLe(7, work[d].Size(), Pow2(d));
    assert Pow2(d + 2) == 4 * Pow2(d);
    Pow2Monotone(bits, d + 2);
  }

  /** One turn of the main loop on the array: sort a tiny range outright, split any other one. */
  method SortOrSplit<T(!new)>(a: array<T>, lo: nat, hi: nat, q: Asker<T>, ghost cmp: Comparator<T>)
    returns (left: nat, right: nat, ghost parts: seq<Range>)
    requires lo <= hi <= a.Length
    modifies a, q
    ensures Permuted(old(a[..]), a[..], lo, hi)
    ensures hi - lo < 7 ==> parts == []
    ensures hi - lo >= 7 ==> left + right <= hi - lo && parts == Parts(lo, lo + left, hi - right, hi)
    ensures Separate(parts, lo, hi) && Weight(parts) < Load(hi - lo)
    ensures Orders(q.answer, cmp) ==> OrderedBut(cmp, a[..], lo, hi, parts)
  {
    hide *;
    if hi - lo < 7 {
      InsertionSort(a, lo, hi, q, cmp);
      left, right, parts := 0, 0, [];
      SortedNeedsNoWork(cmp, a[..], lo, hi);
      LoadPositive(hi - lo);
    } else {
      ghost var pivot;
      left, right, pivot := Partition(a, lo, hi, q, cmp);
      parts := Parts(lo, lo + left, hi - right, hi);
      PartsFit(lo, lo + left, hi - right, hi);
      if Orders(q.answer, cmp) {
        OrdersFacts(q.answer, cmp);
        PartitionOrders(cmp, a[..], lo, lo + left, hi - right, hi, pivot, parts);
      }
    }
  }

  lemma LoadPositive(size: nat)
    ensures Load(size) > 0
  {}

  /** The end of the loop body: overwrite the popped range at sp by its parts, the longer one first. */
  method PushParts(stack: array<nat>, sp: nat, left: nat, right: nat, ghost rest: seq<Range>) returns (top: nat)
    requires sp + 4 < stack.Length  // the assertion in the source
    requires Spells(stack[..sp], rest)
    requires stack[sp] + left + right <= stack[sp + 1] && stack[sp] < stack[sp + 1]
    modifies stack
    ensures top <= stack.Length
    ensures Spells(stack[..top], rest + Parts(old(stack[sp]), old(stack[sp]) + left, old(stack[sp + 1]) - right, old(stack[sp + 1])))
  {
    top := sp;
    if left == 0 && right == 0 {
      assert rest + [] == rest;
      return;
    }
    ghost var words := stack[..sp];
    stack[sp + 2] := stack[sp + 1] - right;
    stack[sp + 3] := stack[sp + 1];
    stack[sp + 1] := stack[sp] + left;
    if stack[sp + 3] - stack[sp + 2] > stack[sp + 1] - stack[sp] {
      stack[sp], stack[sp + 2] := stack[sp + 2], stack[sp];
      stack[sp + 1], stack[sp + 3] := stack[sp + 3], stack[sp + 1];
    }
    top := sp + if stack[sp + 2] != stack[sp + 3] then 4 else 2;
    assert stack[..sp] == words;
    hide Spells;
    ghost var longer := Range(stack[sp], stack[sp + 1]);
    SpellsPush(words, rest, longer);
    assert stack[..sp + 2] == words + [longer.lo, longer.hi];
    if top == sp + 4 {
      ghost var shorter := Range(stack[sp + 2], stack[sp + 3]);
      SpellsPush(stack[..sp + 2], rest + [longer], shorter);
      assert stack[..top] == stack[..sp + 2] + [shorter.lo, shorter.hi];
      assert rest + [longer] + [shorter] == rest + [longer, shorter];
    }
  }

  /**
   click_qsort on the n elements of a from base on.  size_t has `bits` bits, so
   n is below 2^bits and the stack has room for bits + 1 ranges.
   */
  method Qsort<T(!new)>(a: array<T>, base: nat, n: nat, q: Asker<T>, ghost cmp: Comparator<T>, bits: nat)
    requires base + n <= a.Length
    requires n < Pow2(bits)
    modifies a, q
    ensures Permuted(old(a[..]), a[..], base, base + n)
    ensures Orders(q.answer, cmp) ==> SortedBetween(cmp, a[..], base, base + n)
  {
    hide *;
    var stack := new nat[(bits + 1) * 2];
    stack[0], stack[1] := base, base + n;
    var sp := 2;
    ghost var work := [Range(base, base + n)];
    PermutedReflexive(a[..], base, base + n);
    StartWork(cmp, a[..], base, n);
    assert stack[..sp] == [base, base + n];
    while sp != 0
      invariant 0 <= sp <= stack.Length && fresh(stack)
      invariant Spells(stack[..sp], work)
      invariant Separate(work, base, base + n)
      invariant Halving(work, n)
      invariant Permuted(old(a[..]), a[..], base, base + n)
      invariant Orders(q.answer, cmp) ==> OrderedBut(cmp, a[..], base, base + n, work)
      decreases Weight(work)
    {
      ghost var words := stack[..sp];
      ghost var rest, r := PopLast(words, work, base, base + n);
      sp := sp - 2;
      assert stack[..sp] == words[..sp];
      var lo, hi := stack[sp], stack[sp + 1];
      ghost var before := a[..];
      var left, right;
      ghost var parts;
      left, right, parts := SortOrSplit(a, lo, hi, q, cmp);
      if hi - lo >= 7 {
        DepthBound(work, n, bits);
        sp := PushParts(stack, sp, left, right, rest);
      } else {
        assert rest + parts == rest;
      }
      TurnKeeps(cmp, old(a[..]), before, a[..], base, n, rest, r, left, right, parts);
      work := rest + parts;
    }
    if Orders(q.answer, cmp) {
      NoWorkIsSorted(cmp, a[..], base, base + n, work);
    }
  }

  lemma StartWork<T>(cmp: Comparator<T>, s: seq<T>, base: nat, n: nat)
    requires base + n <= |s|
    ensures Spells([base, base + n], [Range(base, base + n)])
    ensures Separate([Range(base, base + n)], base, base + n)
    ensures Halving([Range(base, base + n)], n)
    ensures OrderedBut(cmp, s, base, base + n, [Range(base, base + n)])
  {
    var work := [Range(base, base + n)];
    forall i, j | base <= i < j < base + n
      ensures Together(work, i, j)
    {
      assert work[0].Has(i) && work[0].Has(j);
    }
  }

  lemma PopLast(words: seq<nat>, work: seq<Range>, lo: nat, hi: nat) returns (rest: seq<Range>, r: Range)
    requires words != []
    requires Spells(words, work) && Separate(work, lo, hi)
    ensures work == rest + [r]
    ensures |words| == 2 * |rest| + 2 && Spells(words[..|words| - 2], rest)
    ensures words[|words| - 2] == r.lo && words[|words| - 1] == r.hi
    ensures lo <= r.lo <= r.hi <= hi
    ensures Weight([r]) == Load(r.hi - r.lo)
  {
    var d := |work| - 1;
    rest, r := work[..d], work[d];
    assert [r][1..] == [];
  }

  /** What one turn of the main loop keeps, and that it shrinks the pending work. */
  lemma TurnKeeps<T(!new)>(cmp: Comparator<T>, s0: seq<T>, s: seq<T>, t: seq<T>, base: nat, n: nat, rest: seq<Range>, r: Range,
                           left: nat, right: nat, parts: seq<Range>)
    requires base + n <= |s|
    requires Permuted(s0, s, base, base + n)
    requires Permuted(s, t, r.lo, r.hi)
    requires Separate(rest + [r], base, base + n)
    requires Halving(rest + [r], n)
    requires Separate(parts, r.lo, r.hi) && Weight(parts) < Weight([r])
    requires parts == [] || (left + right <= r.hi - r.lo && parts == Parts(r.lo, r.lo + left, r.hi - right, r.hi))
    ensures Permuted(s0, t, base, base + n)
    ensures Separate(rest + parts, base, base + n)
    ensures Halving(rest + parts, n)
    ensures OrderedBut(cmp, s, base, base + n, rest + [r]) && OrderedBut(cmp, t, r.lo, r.hi, parts) ==>
              OrderedBut(cmp, t, base, base + n, rest + parts)
    ensures Weight(rest + parts) < Weight(rest + [r])
  {
    assert (rest + [r])[|rest|] == r;
    ReplaceLast(cmp, s, t, base, base + n, rest, r, parts);
    KeepHalving(rest, r, left, right, parts, n);
    PermutedWiden(s, t, r.lo, r.hi, base, base + n);
    PermutedTransitive(s0, s, t, base, base + n);
    WeightAppend(rest, [r]);
    WeightAppend(rest, parts);
  }

  lemma KeepHalving(rest: seq<Range>, r: Range, left: nat, right: nat, parts: seq<Range>, size: nat)
    requires Halving(rest + [r], size)
    requires parts == [] || (left + right <= r.hi - r.lo && parts == Parts(r.lo, r.lo + left, r.hi - right, r.hi))
    ensures Halving(rest + parts, size)
  {
    if parts != [] {
      PartsHalve(rest, r, r.lo + left, r.hi - right, size);
    } else {
      assert forall k :: 0 <= k < |rest| ==> (rest + [r])[k] == (rest + parts)[k];
    }
  }

  lemma SortedNeedsNoWork<T>(cmp: Comparator<T>, s: seq<T>, lo: nat, hi: nat)
    requires hi <= |s|
    ensures SortedBetween(cmp, s, lo, hi) ==> OrderedBut(cmp, s, lo, hi, [])
    ensures Separate([], lo, hi) && Weight([]) == 0
  {}

  lemma NoWorkIsSorted<T>(cmp: Comparator<T>, s: seq<T>, lo: nat, hi: nat, work: seq<Range>)
    requires hi <= |s|
    requires Spells([], work)
    requires OrderedBut(cmp, s, lo, hi, work)
    ensures SortedBetween(cmp, s, lo, hi)
  {}
}
