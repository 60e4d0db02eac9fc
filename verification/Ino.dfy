/**
 ClickIno (click/lib/ino.cc): the sorted directory index over element names,
 its construction in place, and the searches and walks over it.
 */
module Ino {
  import opened Strings
  import opened Catalog
  import Sorting

  /** The numeric fields of an entry are uint16_t. */
  function Trunc16(v: nat): nat { v % 0x1_0000 }

  datatype Entry = Entry(name: string, elementnoPlus1: nat, xindex: nat, skip: nat, fake: bool)

  const Root := Entry([], 0, 0, 0, false)

  function Names(xs: seq<Entry>): (ns: seq<string>)
    ensures |ns| == |xs| && forall i :: 0 <= i < |xs| ==> ns[i] == xs[i].name
  {
    seq(|xs|, i requires 0 <= i < |xs| => xs[i].name)
  }

  function NameOf(e: Entry): string { e.name }

  function EntryCompar(a: Entry, b: Entry): int { Compare(a.name, b.name) }

  lemma EntryComparOrders()
    ensures Sorting.TotalPreorder(EntryCompar)
  {
    forall a: Entry, b: Entry
      ensures EntryCompar(a, b) < 0 <==> EntryCompar(b, a) > 0
    {
      CompareFlip(a.name, b.name);
    }
    forall a: Entry, b: Entry, c: Entry | EntryCompar(a, b) <= 0 && EntryCompar(b, c) <= 0
      ensures EntryCompar(a, c) <= 0
    {
      CompareTransitive(a.name, b.name, c.name);
    }
  }

  // ---- what the index has to hold -----------------------------------------

  /** Element names of a router: valid and pairwise different. */
  ghost predicate RouterNames(r: seq<string>) {
    && (forall i :: 0 <= i < |r| ==> ValidName(r[i]))
    && (forall i, j :: 0 <= i < j < |r| ==> r[i] != r[j])
  }

  /** A name the index has to list: an element or a directory of one. */
  ghost predicate Wanted(s: string, r: seq<string>) {
    s in r || exists k :: 0 <= k < |r| && DirOf(s, r[k])
  }

  ghost predicate IndexNames(xs: seq<Entry>, r: seq<string>) {
    && IsCatalog(Names(xs))
    && (forall i :: 1 <= i < |xs| ==> Wanted(xs[i].name, r))
    && (forall s :: Wanted(s, r) ==> s in Names(xs))
  }

  /** The names the index has to list, from the router alone. */
  ghost function WantedSet(r: seq<string>): set<string> {
    set i, k | 0 <= i < |r| && 0 <= k <= |r[i]| && Wanted(r[i][..k], r) :: r[i][..k]
  }

  lemma WantedSetExact(r: seq<string>, s: string)
    ensures s in WantedSet(r) <==> Wanted(s, r)
  {
    if s in r {
      var i :| 0 <= i < |r| && r[i] == s;
      assert s == r[i][..|s|];
    } else if Wanted(s, r) {
      var i :| 0 <= i < |r| && DirOf(s, r[i]);
      assert s == r[i][..|s|];
    }
  }

  ghost function Elements(s: seq<string>): set<string> {
    set i | 0 <= i < |s| :: s[i]
  }

  lemma {:induction false} DistinctSize(s: seq<string>)
    requires AllDifferent(s)
    ensures |Elements(s)| == |s|
    decreases |s|
  {
    if s != [] {
      var n := |s| - 1;
      DistinctSize(s[..n]);
      assert Elements(s) == Elements(s[..n]) + {s[n]};
      assert s[n] !in Elements(s[..n]);
    }
  }

  /** An index of the right names has one entry for each, and the root. */
  lemma IndexSize(xs: seq<Entry>, r: seq<string>)
    requires RouterNames(r) && IndexNames(xs, r)
    ensures |xs| == 1 + |WantedSet(r)|
  {
    var ns := Names(xs);
    var named := ns[1..];
    forall i, j | 0 <= i < j < |named|
      ensures named[i] != named[j]
    {
      SortedPositions(ns, i + 1, j + 1);
    }
    DistinctSize(named);
    forall s
      ensures s in Elements(named) <==> s in WantedSet(r)
    {
      WantedSetExact(r, s);
      NamedIsWanted(xs, r, s);
    }
    assert Elements(named) == WantedSet(r);
  }

  lemma NamedIsWanted(xs: seq<Entry>, r: seq<string>, s: string)
    requires RouterNames(r) && IndexNames(xs, r)
    ensures s in Elements(Names(xs)[1..]) <==> Wanted(s, r)
  {
    var ns := Names(xs);
    if Wanted(s, r) {
      assert s != [];
      var i :| 0 <= i < |ns| && ns[i] == s;
      assert ns[1..][i - 1] == s;
    }
  }

  /** a, aa, aaa and so on. */
  function Repeated(n: nat): (s: string)
    ensures |s| == n
  {
    seq(n, i => 'a')
  }

  function ManyNames(n: nat): (r: seq<string>)
    ensures |r| == n
  {
    seq(n, k requires 0 <= k < n => Repeated(k + 1))
  }

  /** A router whose index overflows: 65536 elements, or more. */
  lemma ManyNamesAreTooMany(n: nat)
    requires n > 0xFFFF
    ensures RouterNames(ManyNames(n)) && |WantedSet(ManyNames(n))| > 0xFFFF
  {
    var r := ManyNames(n);
    forall i | 0 <= i < n
      ensures ValidName(r[i])
    {
      assert r[i] == Repeated(i + 1);
    }
    forall i, j | 0 <= i < j < n
      ensures r[i] != r[j]
    {
      assert |r[i]| == i + 1 && |r[j]| == j + 1;
    }
    DistinctSize(r);
    forall s | s in Elements(r)
      ensures s in WantedSet(r)
    {
      WantedSetExact(r, s);
    }
    SubsetSize(Elements(r), WantedSet(r));
  }

  lemma {:induction false} SubsetSize(a: set<string>, b: set<string>)
    requires a <= b
    ensures |a| <= |b|
    decreases |a|
  {
    if a != {} {
      var s :| s in a;
      SubsetSize(a - {s}, b - {s});
    }
  }

  /** skip is the number of descendants, which Catalog shows to be the entries right behind. */
  ghost predicate SkipsExact(xs: seq<Entry>) {
    forall i :: 0 <= i < |xs| ==> xs[i].skip == Extent(Names(xs), i)
  }

  /** xindex and elementno_plus1 are inverse to each other on 0..|xs|-1. */
  ghost predicate Inverse(xs: seq<Entry>) {
    && (forall i :: 0 <= i < |xs| ==> xs[i].elementnoPlus1 < |xs| && xs[i].xindex < |xs|)
    && (forall i, e :: 0 <= i < |xs| && 0 <= e < |xs| ==> (xs[i].elementnoPlus1 == e <==> xs[e].xindex == i))
  }

  /** Element e of the router has number e; everything else but the root is fake. */
  ghost predicate Numbered(xs: seq<Entry>, r: seq<string>) {
    && |r| < |xs|
    && (forall i :: 0 <= i < |xs| ==> (xs[i].fake <==> xs[i].elementnoPlus1 > |r|))
    && (forall i :: 0 <= i < |xs| && 1 <= xs[i].elementnoPlus1 <= |r| ==> xs[i].name == r[xs[i].elementnoPlus1 - 1])
    && (forall i :: 0 <= i < |xs| ==> (xs[i].elementnoPlus1 == 0 <==> i == 0))
  }

  ghost predicate IndexNumbers(xs: seq<Entry>, r: seq<string>) {
    SkipsExact(xs) && Inverse(xs) && Numbered(xs, r)
  }

  // ---- bookkeeping of the construction ------------------------------------

  /** e is the k-th item of the listing `full`, of which the first m are elements. */
  ghost predicate Item(e: Entry, full: seq<string>, m: nat, k: nat) {
    1 <= k <= |full| && e.name == full[k - 1] && e.elementnoPlus1 == Trunc16(k) && e.skip == 0 && (e.fake <==> k > m)
  }

  ghost predicate AllDifferent(s: seq<string>) {
    forall i, j :: 0 <= i < j < |s| ==> s[i] != s[j]
  }

  ghost predicate Known(e: Entry, full: seq<string>, m: nat) {
    exists k :: Item(e, full, m, k)
  }

  ghost predicate Present(xs: seq<Entry>, full: seq<string>, m: nat, k: nat) {
    exists i :: 1 <= i < |xs| && Item(xs[i], full, m, k)
  }

  /** xs holds the root and then the items of `full` in some order. */
  ghost predicate Holds(xs: seq<Entry>, full: seq<string>, m: nat) {
    && |xs| == |full| + 1
    && xs[0] == Root
    && (forall i :: 1 <= i < |xs| ==> Known(xs[i], full, m))
    && (forall k :: 1 <= k <= |full| ==> Present(xs, full, m, k))
    && (forall i, j :: 1 <= i < j < |xs| ==> xs[i].name != xs[j].name)
  }

  lemma ListedHolds(xs: seq<Entry>, full: seq<string>, m: nat)
    requires |xs| == |full| + 1 && xs[0] == Root
    requires forall i :: 1 <= i < |xs| ==> Item(xs[i], full, m, i)
    requires AllDifferent(full)
    ensures Holds(xs, full, m)
  {
    forall k | 1 <= k <= |full|
      ensures Present(xs, full, m, k) && Known(xs[k], full, m)
    {
      assert Item(xs[k], full, m, k);
    }
    forall i, j | 1 <= i < j < |xs|
      ensures xs[i].name != xs[j].name
    {
      assert full[i - 1] != full[j - 1];
    }
  }

  lemma PermutedPrefix<T>(s: seq<T>, t: seq<T>, lo: nat, hi: nat)
    requires Sorting.Permuted(s, t, lo, hi)
    ensures Sorting.Permuted(s[..hi], t[..hi], lo, hi)
  {
    assert s[..hi][lo..hi] == s[lo..hi] && t[..hi][lo..hi] == t[lo..hi];
    assert s[..hi][..lo] == s[..lo] && t[..hi][..lo] == t[..lo];
  }

  /** Sorting keeps the listing; with different names the result is strictly sorted. */
  lemma SortedHolds(xs: seq<Entry>, ys: seq<Entry>, full: seq<string>, m: nat)
    requires Holds(xs, full, m)
    requires Sorting.Permuted(xs, ys, 1, |xs|)
    requires Sorting.SortedBetween(EntryCompar, ys, 1, |ys|)
    requires forall k :: 0 <= k < |full| ==> full[k] != []
    ensures Holds(ys, full, m)
    ensures StrictlySorted(Names(ys))
  {
    var n := |xs|;
    Sorting.PermutedOutside(xs, ys, 1, n, 0);
    forall i | 1 <= i < n
      ensures Known(ys[i], full, m)
    {
      var i' := Sorting.PermutedSource(xs, ys, 1, n, i);
      assert Known(xs[i'], full, m);
    }
    Sorting.PermutedBack(xs, ys, 1, n);
    forall k | 1 <= k <= |full|
      ensures Present(ys, full, m, k)
    {
      assert Present(xs, full, m, k);
      var i :| 1 <= i < n && Item(xs[i], full, m, k);
      var i' := Sorting.PermutedSource(ys, xs, 1, n, i);
      assert Item(ys[i'], full, m, k);
    }
    assert xs[1..n] == xs[1..] && ys[1..n] == ys[1..];
    assert Sorting.KeysDistinct(xs[1..], NameOf);
    Sorting.KeysStayDistinct(xs[1..], ys[1..], NameOf);
    forall i, j | 1 <= i < j < n
      ensures ys[i].name != ys[j].name
    {
      assert NameOf(ys[1..][i - 1]) != NameOf(ys[1..][j - 1]);
    }
    forall i, j | 0 <= i < j < n
      ensures Compare(Names(ys)[i], Names(ys)[j]) < 0
    {
      if i == 0 {
        assert Known(ys[j], full, m);
        var k :| Item(ys[j], full, m, k);
      } else {
        assert EntryCompar(ys[i], ys[j]) <= 0;
        CompareZero(ys[i].name, ys[j].name);
      }
    }
  }

  // ---- from the listing to the index --------------------------------------

  /** The listing of elements and missing directories is what the index has to list. */
  lemma ListingIsWanted(r: seq<string>, sorted: seq<string>, dirs: seq<string>)
    requires RouterNames(r)
    requires SortedNames(sorted) && dirs == AddedDirs(sorted, |sorted|)
    requires forall s :: s in r <==> s in sorted && s != []
    ensures forall s :: s in r + dirs <==> Wanted(s, r)
    ensures AllDifferent(r + dirs)
    ensures forall s :: s in r + dirs ==> ValidName(s)
    ensures forall k :: 0 <= k < |r + dirs| ==> (r + dirs)[k] != []
    ensures forall s, p :: s in r + dirs && DirOf(p, s) ==> p in r + dirs
  {
    forall s | s in dirs
      ensures ValidName(s) && s !in r && Wanted(s, r)
    {
      AddedNotANames(sorted, |sorted|, s);
      var i := AddedSource(sorted, |sorted|, s);
      assert sorted[i] in r;
    }
    forall s | Wanted(s, r)
      ensures s in r + dirs
    {
      if s !in r {
        var k :| 0 <= k < |r| && DirOf(s, r[k]);
        assert r[k] in sorted;
        var j :| 0 <= j < |sorted| && sorted[j] == r[k];
        DirIsNamedOrAdded(sorted, j, s);
      }
    }
    AddedDistinct(sorted, |sorted|);
    assert forall i :: 0 <= i < |dirs| ==> dirs[i] in dirs;
    assert forall i :: 0 <= i < |r| ==> r[i] in r;
    assert forall k :: 0 <= k < |r + dirs| ==> (r + dirs)[k] in r + dirs;
    forall s, p | s in r + dirs && DirOf(p, s)
      ensures p in r + dirs
    {
      if s in r {
        var k :| 0 <= k < |r| && r[k] == s;
        assert Wanted(p, r);
      } else {
        assert Wanted(s, r);
        var k :| 0 <= k < |r| && DirOf(s, r[k]);
        DirOfTransitive(p, s, r[k]);
        assert Wanted(p, r);
      }
    }
  }

  lemma HoldsNames(xs: seq<Entry>, full: seq<string>, m: nat, s: string)
    requires Holds(xs, full, m)
    ensures s in full ==> s in Names(xs)
    ensures s in Names(xs)[1..] ==> s in full
  {
    if s in full {
      var k :| 0 <= k < |full| && full[k] == s;
      assert Present(xs, full, m, k + 1);
      var i :| 1 <= i < |xs| && Item(xs[i], full, m, k + 1);
      assert Names(xs)[i] == s;
    }
    if s in Names(xs)[1..] {
      var i :| 0 <= i < |xs| - 1 && Names(xs)[1..][i] == s;
      assert Names(xs)[i + 1] == s;
      assert Known(xs[i + 1], full, m);
      var k :| Item(xs[i + 1], full, m, k);
    }
  }

  lemma HoldsIndexNames(xs: seq<Entry>, r: seq<string>, full: seq<string>)
    requires Holds(xs, full, |r|) && StrictlySorted(Names(xs))
    requires forall s :: s in full <==> Wanted(s, r)
    requires forall s :: s in full ==> ValidName(s)
    requires forall s, p :: s in full && DirOf(p, s) ==> p in full
    ensures IndexNames(xs, r)
  {
    var ns := Names(xs);
    forall i | 1 <= i < |ns|
      ensures ns[i] in full
    {
      assert ns[1..][i - 1] == ns[i];
      HoldsNames(xs, full, |r|, ns[i]);
    }
    forall s | s in full
      ensures s in ns
    {
      HoldsNames(xs, full, |r|, s);
    }
  }

  /** Entries agree except in their xindex and skip fields. */
  ghost predicate SameItems(xs: seq<Entry>, ys: seq<Entry>) {
    && |xs| == |ys|
    && forall i :: 0 <= i < |xs| ==>
         xs[i].name == ys[i].name && xs[i].elementnoPlus1 == ys[i].elementnoPlus1 && xs[i].fake == ys[i].fake
  }

  lemma SameNames(xs: seq<Entry>, ys: seq<Entry>)
    requires SameItems(xs, ys)
    ensures Names(xs) == Names(ys)
  {}

  /** Up to 65536 entries an item's number is its place in the listing. */
  lemma NumberIsPlace(xs: seq<Entry>, full: seq<string>, m: nat, i: nat)
    requires Holds(xs, full, m) && |xs| <= 0x1_0000
    requires 1 <= i < |xs|
    ensures 1 <= xs[i].elementnoPlus1 < |xs|
    ensures Item(xs[i], full, m, xs[i].elementnoPlus1)
  {
    assert Known(xs[i], full, m);
    var k :| Item(xs[i], full, m, k);
  }

  lemma NumbersDistinct(xs: seq<Entry>, full: seq<string>, m: nat, i: nat, j: nat)
    requires Holds(xs, full, m) && |xs| <= 0x1_0000
    requires i < |xs| && j < |xs| && xs[i].elementnoPlus1 == xs[j].elementnoPlus1
    ensures i == j
  {
    if i > 0 {
      NumberIsPlace(xs, full, m, i);
    }
    if j > 0 {
      NumberIsPlace(xs, full, m, j);
    }
  }

  lemma NumberTaken(xs: seq<Entry>, full: seq<string>, m: nat, e: nat) returns (i: nat)
    requires Holds(xs, full, m) && |xs| <= 0x1_0000
    requires e < |xs|
    ensures i < |xs| && xs[i].elementnoPlus1 == e
  {
    if e == 0 {
      i := 0;
    } else {
      assert Present(xs, full, m, e);
      i :| 1 <= i < |xs| && Item(xs[i], full, m, e);
    }
  }

  /** ys[e].xindex is i whenever entry i carries number e. */
  ghost predicate Reversed(ys: seq<Entry>) {
    forall i :: 0 <= i < |ys| ==> ys[i].elementnoPlus1 < |ys| && ys[ys[i].elementnoPlus1].xindex == i
  }

  lemma ReversedIsInverse(xs: seq<Entry>, ys: seq<Entry>, full: seq<string>, m: nat)
    requires Holds(xs, full, m) && SameItems(xs, ys) && |ys| <= 0x1_0000
    requires Reversed(ys)
    ensures Inverse(ys)
  {
    forall i, e | 0 <= i < |ys| && 0 <= e < |ys|
      ensures ys[e].xindex < |ys| && (ys[i].elementnoPlus1 == e <==> ys[e].xindex == i)
    {
      var i' := NumberTaken(xs, full, m, e);
      assert ys[ys[i'].elementnoPlus1].xindex == i';
    }
  }

  lemma ItemsAreNumbered(xs: seq<Entry>, ys: seq<Entry>, full: seq<string>, r: seq<string>)
    requires Holds(xs, full, |r|) && SameItems(xs, ys) && |ys| <= 0x1_0000
    requires |r| <= |full| && full[..|r|] == r
    ensures Numbered(ys, r)
  {
    forall i | 1 <= i < |ys|
      ensures ys[i].fake <==> ys[i].elementnoPlus1 > |r|
      ensures ys[i].elementnoPlus1 != 0
      ensures ys[i].elementnoPlus1 <= |r| ==> ys[i].name == r[ys[i].elementnoPlus1 - 1]
    {
      NumberIsPlace(xs, full, |r|, i);
      var e := ys[i].elementnoPlus1;
      if e <= |r| {
        assert full[e - 1] == full[..|r|][e - 1];
      }
    }
  }

  ghost predicate SkipsTruncated(ys: seq<Entry>) {
    forall i :: 0 <= i < |ys| ==> ys[i].skip == Trunc16(Extent(Names(ys), i))
  }

  lemma SkipsUntruncated(ys: seq<Entry>)
    requires IsCatalog(Names(ys)) && SkipsTruncated(ys) && |ys| <= 0x1_0000
    ensures SkipsExact(ys)
  {
    hide IsCatalog, Extent, Under;
    forall i | 0 <= i < |ys|
      ensures ys[i].skip == Extent(Names(ys), i)
    {
      ExtentExact(Names(ys), i);
    }
  }

  /** Up to 65536 entries the numbers are exact; beyond that the root's skip is already wrong. */
  lemma NumbersExact(xs: seq<Entry>, ys: seq<Entry>, r: seq<string>, full: seq<string>)
    requires Holds(xs, full, |r|) && SameItems(xs, ys)
    requires |r| <= |full| && full[..|r|] == r
    requires IsCatalog(Names(ys))
    requires SkipsTruncated(ys)
    requires |ys| <= 0x1_0000 ==> Reversed(ys)
    ensures |ys| <= 0x1_0000 <==> IndexNumbers(ys, r)
  {
    if |ys| <= 0x1_0000 {
      hide Reversed, Inverse, Numbered, Holds, IsCatalog, SkipsTruncated, SkipsExact;
      ReversedIsInverse(xs, ys, full, |r|);
      ItemsAreNumbered(xs, ys, full, r);
      SkipsUntruncated(ys);
    } else {
      hide Reversed, Inverse, Numbered, Holds, IsCatalog, Extent;
      RootExtent(Names(ys));
      assert ys[0].skip == Trunc16(Extent(Names(ys), 0));
    }
  }

  // ---- room for entries ---------------------------------------------------

  /** cap, doubled until need fits. */
  function Doubled(cap: nat, need: nat): (d: nat)
    requires cap > 0
    ensures d >= cap && d >= need
    decreases need - cap
  {
    if cap >= need then cap else Doubled(2 * cap, need)
  }

  /** The capacity that grow() goes to from c when `need` entries are asked for. */
  function Capacity(c: nat, need: nat): (d: nat)
    ensures d >= c && d >= need
  {
    if c >= need then c else Doubled(if c > 0 then c else 128, need)
  }

  /** It is the least power of two times the old capacity, or times 128, that is enough. */
  lemma {:induction false} DoubledLeast(cap: nat, need: nat) returns (k: nat)
    requires cap > 0
    ensures Doubled(cap, need) == cap * Sorting.Pow2(k)
    ensures forall j :: 0 <= j < k ==> cap * Sorting.Pow2(j) < need
    decreases need - cap
  {
    hide Sorting.Pow2;
    if cap >= need {
      k := 0;
      NoDoubling(cap);
    } else {
      var k0 := DoubledLeast(2 * cap, need);
      k := k0 + 1;
      forall j | 0 <= j < k
        ensures cap * Sorting.Pow2(j) < need
      {
        if j > 0 {
          assert 2 * cap * Sorting.Pow2(j - 1) < need;
          TwiceAsMuch(cap, j - 1);
        } else {
          NoDoubling(cap);
        }
      }
      TwiceAsMuch(cap, k0);
    }
  }

  lemma NoDoubling(cap: nat)
    ensures cap * Sorting.Pow2(0) == cap
  {}

  lemma TwiceAsMuch(cap: nat, j: nat)
    ensures cap * Sorting.Pow2(j + 1) == 2 * cap * Sorting.Pow2(j)
  {
    var p := Sorting.Pow2(j);
    assert cap * (2 * p) == 2 * cap * p;
  }

  lemma {:induction false} DoubledOn(cap: nat, m: nat, n: nat)
    requires cap > 0 && m <= n
    ensures Doubled(cap, m) <= Doubled(cap, n)
    ensures Doubled(Doubled(cap, m), n) == Doubled(cap, n)
    decreases m - cap
  {
    if cap < m {
      DoubledOn(2 * cap, m, n);
    }
  }

  /** Growing step by step ends where growing at once does. */
  lemma CapacityOn(c: nat, m: nat, n: nat)
    requires m <= n
    ensures Capacity(c, m) <= Capacity(c, n)
    ensures Capacity(Capacity(c, m), n) == Capacity(c, n)
  {
    if c < m {
      DoubledOn(if c > 0 then c else 128, m, n);
    }
  }

  /** Elements and added directories are as many as there are wanted names. */
  lemma ListingSize(r: seq<string>, dirs: seq<string>)
    requires AllDifferent(r + dirs) && forall s :: s in r + dirs <==> Wanted(s, r)
    ensures |WantedSet(r)| == |r| + |dirs|
  {
    DistinctSize(r + dirs);
    forall s
      ensures s in Elements(r + dirs) <==> s in WantedSet(r)
    {
      WantedSetExact(r, s);
    }
    assert Elements(r + dirs) == WantedSet(r);
  }

  class ClickIno {
    var x: array<Entry>
    var nentries: nat
    var router: seq<string>
    var generation: nat

    constructor ()
      ensures fresh(x) && x.Length == 0 && nentries == 0 && router == [] && generation == 0
    {
      x := new Entry[0];
      nentries, router, generation := 0, [], 0;
    }

    method Cleanup()
      modifies this
      ensures fresh(x) && x.Length == 0 && nentries == 0 && router == [] && generation == 0
    {
      x := new Entry[0];
      nentries, router, generation := 0, [], 0;
    }

    /** Doubles the capacity until minSize fits; memory for more than `limit` entries is refused. */
    method Grow(minSize: nat, limit: nat) returns (ok: bool)
      requires x.Length <= limit
      modifies this`x
      ensures ok <==> Capacity(old(x.Length), minSize) <= limit
      ensures x.Length <= limit && (ok ==> x.Length == Capacity(old(x.Length), minSize))
      ensures x == old(x) || (fresh(x) && x.Length >= old(x.Length))
      ensures !ok ==> x == old(x)
      ensures x[..old(x.Length)] == old(x[..])
    {
      if x.Length >= minSize {
        return true;
      }
      var newCap := if x.Length > 0 then x.Length else 128;
      while newCap < minSize
        invariant newCap > 0 && newCap >= x.Length
        invariant Doubled(newCap, minSize) == Capacity(x.Length, minSize)
        decreases minSize - newCap
      {
        newCap := newCap * 2;
      }
      if newCap > limit {
        return false;
      }
      var bigger := new Entry[newCap](_ => Root);
      for i := 0 to x.Length
        invariant x == old(x) && bigger != x
        invariant forall k :: 0 <= k < i ==> bigger[k] == x[k]
        invariant x[..] == old(x[..])
      {
        bigger[i] := x[i];
      }
      x := bigger;
      assert x[..old(x.Length)] == old(x[..]);
      ok := true;
    }

    /** The entry the inner loop of true_prepare appends at position k. */
    static ghost predicate Added(e: Entry, name: string, k: nat) {
      e.name == name && e.elementnoPlus1 == Trunc16(k) && e.skip == 0 && e.fake
    }

    /** Make room for entry n and fill it in as a fake directory. */
    method AppendDir(n: nat, name: string, limit: nat) returns (ok: bool)
      requires n <= x.Length <= limit
      modifies this`x, x
      ensures x.Length <= limit && (x == old(x) || fresh(x))
      ensures n <= x.Length && x[..n] == old(x[..n])
      ensures ok <==> Capacity(old(x.Length), n + 1) <= limit
      ensures ok ==> n < x.Length == Capacity(old(x.Length), n + 1) && Added(x[n], name, n)
    {
      if n >= x.Length {
        ok := Grow(n + 1, limit);
        if !ok {
          return;
        }
        assert x[..n] == old(x[..])[..n];
      }
      x[n] := x[n].(name := name, elementnoPlus1 := Trunc16(n), skip := 0, fake := true);
      ok := true;
    }

    /** The entries of xs from n0 on are the directories ds. */
    static ghost predicate Appended(xs: seq<Entry>, n0: nat, ds: seq<string>) {
      |xs| == n0 + |ds| && forall k :: n0 <= k < |xs| ==> Added(xs[k], ds[k - n0], k)
    }

    static lemma AppendedMore(xs: seq<Entry>, ys: seq<Entry>, n0: nat, ds: seq<string>, more: seq<string>)
      requires Appended(xs, n0, ds) && Appended(ys, |xs|, more) && ys[..|xs|] == xs
      ensures Appended(ys, n0, ds + more)
    {
      forall k | n0 <= k < |ys|
        ensures Added(ys[k], (ds + more)[k - n0], k)
      {
        if k < |xs| {
          assert ys[k] == ys[..|xs|][k];
        }
      }
    }

    /** The inner loop of true_prepare for entry i: append the directories its predecessor does not share. */
    method AddDirsOf(i: nat, n0: nat, limit: nat) returns (ok: bool, n: nat)
      requires 1 <= i < n0 <= x.Length <= limit
      modifies this`x, x
      ensures x.Length <= limit && (x == old(x) || fresh(x))
      ensures n0 <= n <= x.Length && x[..n0] == old(x[..n0])
      ensures ok ==> Appended(x[..n], n0, MissingDirs(old(x[i].name), old(x[i - 1].name)))
      ensures var all := n0 + |MissingDirs(old(x[i].name), old(x[i - 1].name))|;
              && (ok <==> Capacity(old(x.Length), all) <= limit)
              && (ok ==> x.Length == Capacity(old(x.Length), all))
    {
      hide *;
      n := n0;
      ghost var cap := x.Length;
      CapacityEnough(cap, n0);
      AppendedNone(x[..n]);
      var name := x[i].name;
      var last := x[i - 1].name;
      var slash := FindRight(name);
      ghost var done: seq<string>, cur := [], name;
      while slash >= 0 && !(name[..slash] <= last)
        invariant n0 <= n <= x.Length <= limit
        invariant x == old(x) || fresh(x)
        invariant x[..n0] == old(x[..n0])
        invariant cur <= name && slash == FindRight(cur)
        invariant MissingDirs(name, last) == done + MissingDirs(cur, last)
        invariant Appended(x[..n], n0, done) && n == n0 + |done|
        invariant x.Length == Capacity(cap, n)
        decreases slash
      {
        ghost var before := x[..n];
        MissingStep(name, cur, last, done, slash);
        CapacityOn(cap, n, n + 1);
        CapacityOn(cap, n + 1, n0 + |MissingDirs(name, last)|);
        ok := AppendDir(n, name[..slash], limit);
        assert x[..n0] == x[..n][..n0] == before[..n0];
        if !ok {
          return;
        }
        assert Appended(x[..n + 1], n, [name[..slash]]) by {
          AppendedOne(x[..n + 1], n, name[..slash]);
        }
        assert x[..n + 1][..n] == before;
        AppendedMore(before, x[..n + 1], n0, done, [name[..slash]]);
        done := done + [name[..slash]];
        cur := name[..slash];
        slash := FindRight(name[..slash]);
        n := n + 1;
      }
      MissingEnd(name, cur, last, done);
      ok := true;
    }

    static lemma CapacityEnough(c: nat, need: nat)
      requires need <= c
      ensures Capacity(c, need) == c
    {}

    /** One turn of the inner loop takes the first of the missing directories. */
    static lemma MissingStep(name: string, cur: string, last: string, done: seq<string>, slash: int)
      requires cur <= name && 0 <= slash == FindRight(cur) && !(name[..slash] <= last)
      requires MissingDirs(name, last) == done + MissingDirs(cur, last)
      ensures name[..slash] <= name && |name[..slash]| == slash && FindRight(name[..slash]) < slash
      ensures MissingDirs(name, last) == done + [name[..slash]] + MissingDirs(name[..slash], last)
    {
      assert name[..slash] == cur[..slash];
    }

    static lemma MissingEnd(name: string, cur: string, last: string, done: seq<string>)
      requires cur <= name
      requires FindRight(cur) >= 0 ==> name[..FindRight(cur)] <= last
      requires MissingDirs(name, last) == done + MissingDirs(cur, last)
      ensures MissingDirs(name, last) == done
    {
      if FindRight(cur) >= 0 {
        assert name[..FindRight(cur)] == cur[..FindRight(cur)];
      }
    }

    static lemma AppendedNone(xs: seq<Entry>)
      ensures Appended(xs, |xs|, [])
    {}

    static lemma AppendedOne(xs: seq<Entry>, n: nat, name: string)
      requires |xs| == n + 1 && Added(xs[n], name, n)
      ensures Appended(xs, n, [name])
    {}

    /** Append every directory that the sorted entries 1..nelem-1 are missing. */
    method AddDirectories(nelem: nat, limit: nat) returns (ok: bool, n: nat)
      requires 1 <= nelem <= x.Length <= limit
      modifies this`x, x
      ensures x.Length <= limit && (x == old(x) || fresh(x))
      ensures nelem <= n <= x.Length && x[..nelem] == old(x[..nelem])
      ensures ok ==> Appended(x[..n], nelem, AddedDirs(Names(x[..nelem]), nelem))
      ensures var all := nelem + |AddedDirs(Names(old(x[..nelem])), nelem)|;
              && (ok <==> Capacity(old(x.Length), all) <= limit)
              && (ok ==> x.Length == Capacity(old(x.Length), all))
    {
      hide *;
      n := nelem;
      ghost var ns := Names(x[..nelem]);
      ghost var cap := x.Length;
      CapacityEnough(cap, nelem);
      AppendedNone(x[..n]);
      NoneAdded(ns);
      for i := 1 to nelem
        invariant x.Length <= limit && (x == old(x) || fresh(x))
        invariant nelem <= n <= x.Length && x[..nelem] == old(x[..nelem])
        invariant Appended(x[..n], nelem, AddedDirs(ns, i)) && n == nelem + |AddedDirs(ns, i)|
        invariant x.Length == Capacity(cap, n)
      {
        ghost var n0, before := n, x[..n];
        assert before[..nelem] == old(x[..nelem]);
        assert x[i].name == ns[i] && x[i - 1].name == ns[i - 1];
        ghost var next := n + |MissingDirs(ns[i], ns[i - 1])|;
        MoreAdded(ns, i);
        FewerAdded(ns, i + 1, nelem);
        CapacityOn(cap, n, next);
        CapacityOn(cap, next, nelem + |AddedDirs(ns, nelem)|);
        ok, n := AddDirsOf(i, n, limit);
        assert x[..nelem] == x[..n0][..nelem];
        if !ok {
          return;
        }
        assert x[..n][..n0] == before;
        AppendedMore(before, x[..n], nelem, AddedDirs(ns, i), MissingDirs(ns[i], ns[i - 1]));
      }
      ok := true;
    }

    static lemma NoneAdded(ns: seq<string>)
      requires |ns| >= 1
      ensures AddedDirs(ns, 1) == []
    {}

    static lemma MoreAdded(ns: seq<string>, i: nat)
      requires 1 <= i < |ns|
      ensures AddedDirs(ns, i + 1) == AddedDirs(ns, i) + MissingDirs(ns[i], ns[i - 1])
    {}

    static lemma {:induction false} FewerAdded(ns: seq<string>, i: nat, n: nat)
      requires i <= n <= |ns|
      ensures |AddedDirs(ns, i)| <= |AddedDirs(ns, n)|
      decreases n
    {
      if i < n {
        FewerAdded(ns, i, n - 1);
      }
    }

    /** The entries for the elements themselves. */
    method FillElements(r: seq<string>)
      requires |r| < x.Length
      modifies x
      ensures x[0] == old(x[0])
      ensures forall k :: 1 <= k <= |r| ==> Item(x[k], r, |r|, k)
    {
      for i := 1 to |r| + 1
        invariant x[0] == old(x[0])
        invariant forall k :: 1 <= k < i ==> Item(x[k], r, |r|, k)
      {
        x[i] := x[i].(name := r[i - 1], elementnoPlus1 := Trunc16(i), skip := 0, fake := false);
      }
    }

    /** The inner skip loop for entry i, with the assertion it carries. */
    method CountBelow(i: nat, n: nat)
      requires 1 <= i < n <= x.Length
      requires IsCatalog(Names(x[..n])) && x[i].skip == 0
      modifies x
      ensures x[..] == old(x[..])[i := old(x[i]).(skip := Trunc16(Extent(Names(old(x[..n])), i)))]
    {
      hide IsCatalog, Under, Run, Extent;
      ghost var ns := Names(x[..n]);
      ghost var start := x[..];
      var length := |x[i].name|;
      var j := i + 1;
      while j < n && |x[j].name| > length && x[j].name[length] == '/'
        invariant i < j <= n
        invariant x[..] == start[i := start[i].(skip := Trunc16(j - i - 1))]
        invariant forall k :: i < k < j ==> Under(ns[i], ns[k])
      {
        assert x[j].name == ns[j] && x[i].name == ns[i];
        SlashImpliesUnder(ns, i, j);
        UnderTest(ns, i, j);
        assert x[j].name[..length] == x[i].name;  // the assertion in the source
        x[i] := x[i].(skip := Trunc16(x[i].skip + 1));
        assert x[..] == start[i := x[i]];
        j := j + 1;
      }
      if j < n {
        UnderTest(ns, i, j);
      }
      RunIs(ns, i, i + 1, j);
      ExtentIsRun(ns, i);
    }

    static lemma UnderTest(ns: seq<string>, i: nat, j: nat)
      requires IsCatalog(ns) && 1 <= i < |ns| && j < |ns|
      ensures Under(ns[i], ns[j]) ==> |ns[j]| > |ns[i]| && ns[j][|ns[i]|] == '/' && ns[j][..|ns[i]|] == ns[i]
    {}

    static lemma ExtentIsRun(ns: seq<string>, i: nat)
      requires i < |ns|
      ensures Extent(ns, i) == Run(ns, i, i + 1)
    {}

    method ComputeSkips(n: nat)
      requires 1 <= n <= x.Length
      requires IsCatalog(Names(x[..n]))
      requires forall i :: 1 <= i < n ==> x[i].skip == 0
      modifies x
      ensures SameItems(old(x[..n]), x[..n])
      ensures SkipsTruncated(x[..n])
      ensures x[0].xindex == old(x[0].xindex)
    {
      hide IsCatalog, Extent, Trunc16;
      ghost var ns := Names(x[..n]);
      RootExtent(ns);
      x[0] := x[0].(skip := Trunc16(n - 1));
      var i := 1;
      while i < n - 1
        invariant 1 <= i && (n > 1 ==> i <= n - 1)
        invariant SameItems(old(x[..n]), x[..n])
        invariant x[0].xindex == old(x[0].xindex)
        invariant forall k :: i <= k < n ==> x[k].skip == 0
        invariant forall k :: 0 <= k < i && k < n ==> x[k].skip == Trunc16(Extent(ns, k))
      {
        SameNames(old(x[..n]), x[..n]);
        CountBelow(i, n);
        i := i + 1;
      }
      if n > 1 {
        LastExtent(ns);
      }
      SameNames(old(x[..n]), x[..n]);
    }

    static lemma LastExtent(ns: seq<string>)
      requires ns != []
      ensures Trunc16(Extent(ns, |ns| - 1)) == 0
    {}

    static ghost function NumberSeq(xs: seq<Entry>): (num: seq<nat>)
      ensures |num| == |xs| && forall k :: 0 <= k < |xs| ==> num[k] == xs[k].elementnoPlus1
    {
      seq(|xs|, k requires 0 <= k < |xs| => xs[k].elementnoPlus1)
    }

    static ghost predicate Injective(num: seq<nat>) {
      forall i, j :: 0 <= i < j < |num| ==> num[i] != num[j]
    }

    /** ys differs from xs in xindex fields only. */
    static ghost predicate OnlyXindex(xs: seq<Entry>, ys: seq<Entry>) {
      |xs| == |ys| && forall k :: 0 <= k < |xs| ==> ys[k] == xs[k].(xindex := ys[k].xindex)
    }

    /** The first i numbers lead back to their entries. */
    static ghost predicate Placed(xs: seq<Entry>, num: seq<nat>, i: nat) {
      && i <= |num|
      && forall k :: 0 <= k < i ==> num[k] < |xs| && xs[num[k]].xindex == k
    }

    static lemma PlaceNext(xs: seq<Entry>, ys: seq<Entry>, num: seq<nat>, i: nat)
      requires |xs| <= 0x1_0000 && Injective(num) && i < |num| <= |xs| && num[i] < |xs|
      requires Placed(xs, num, i)
      requires ys == xs[num[i] := xs[num[i]].(xindex := Trunc16(i))]
      ensures Placed(ys, num, i + 1)
    {}

    method ComputeXindex(n: nat)
      requires 1 <= n <= x.Length
      requires forall i :: 0 <= i < n ==> x[i].elementnoPlus1 < n
      requires x[0].xindex == 0 && x[0].elementnoPlus1 == 0
      modifies x
      ensures OnlyXindex(old(x[..n]), x[..n])
      ensures n <= 0x1_0000 && Injective(NumberSeq(old(x[..n]))) ==> Reversed(x[..n])
    {
      ghost var start := x[..n];
      ghost var num := NumberSeq(start);
      for i := 1 to n
        invariant OnlyXindex(start, x[..n])
        invariant n <= 0x1_0000 && Injective(num) ==> Placed(x[..n], num, i)
      {
        hide Injective, Placed, Trunc16;
        ghost var before := x[..n];
        assert x[i].elementnoPlus1 == before[i].elementnoPlus1 == start[i].elementnoPlus1 == num[i];
        var e := x[i].elementnoPlus1;
        x[e] := x[e].(xindex := Trunc16(i));
        assert x[..n] == before[e := before[e].(xindex := Trunc16(i))];
        if n <= 0x1_0000 && Injective(num) {
          PlaceNext(before, x[..n], num, i);
        }
      }
    }

    /** Sort the first n entries; the root stays in front. */
    method SortEntries(n: nat, ghost full: seq<string>, ghost m: nat)
      requires 1 <= n <= x.Length < Sorting.Pow2(64)
      requires Holds(x[..n], full, m)
      requires forall k :: 0 <= k < |full| ==> full[k] != []
      modifies x
      ensures Holds(x[..n], full, m) && StrictlySorted(Names(x[..n]))
    {
      hide *;
      ghost var all := x[..];
      EntryComparOrders();
      Sorting.AlwaysOrders(EntryCompar);
      var q := new Sorting.Asker(Sorting.Always(EntryCompar));
      Sorting.Qsort(x, 1, n - 1, q, EntryCompar, 64);
      PermutedPrefix(all, x[..], 1, n);
      assert all[..n] == old(x[..n]) && x[..][..n] == x[..n];
      SortedPrefix(x[..], n);
      SortedHolds(all[..n], x[..n], full, m);
    }

    static lemma SortedPrefix(s: seq<Entry>, n: nat)
      requires 1 <= n <= |s| && Sorting.SortedBetween(EntryCompar, s, 1, n)
      ensures Sorting.SortedBetween(EntryCompar, s[..n], 1, |s[..n]|)
    {}

    static lemma ExtendHolds(xs: seq<Entry>, ys: seq<Entry>, r: seq<string>, dirs: seq<string>)
      requires Holds(xs, r, |r|) && Appended(ys, |xs|, dirs) && ys[..|xs|] == xs
      requires AllDifferent(r + dirs)
      ensures Holds(ys, r + dirs, |r|)
    {
      var full, m := r + dirs, |r|;
      forall i | 1 <= i < |ys|
        ensures Known(ys[i], full, m)
        ensures i < |xs| ==> exists k :: 1 <= k <= m && Item(ys[i], full, m, k)
        ensures i >= |xs| ==> Item(ys[i], full, m, i)
      {
        if i < |xs| {
          assert ys[i] == ys[..|xs|][i];
          assert Known(xs[i], r, m);
          var k :| Item(xs[i], r, m, k);
          assert Item(ys[i], full, m, k);
        } else {
          assert Added(ys[i], dirs[i - |xs|], i);
          assert Item(ys[i], full, m, i);
        }
      }
      forall k | 1 <= k <= |full|
        ensures Present(ys, full, m, k)
      {
        if k <= m {
          assert Present(xs, r, m, k);
          var i :| 1 <= i < |xs| && Item(xs[i], r, m, k);
          assert ys[i] == ys[..|xs|][i];
          assert Item(ys[i], full, m, k);
        } else {
          assert Item(ys[k], full, m, k);
        }
      }
      forall i, j | 1 <= i < j < |ys|
        ensures ys[i].name != ys[j].name
      {
        if j < |xs| {
          assert ys[i] == ys[..|xs|][i] && ys[j] == ys[..|xs|][j];
        } else if i < |xs| {
          var k :| 1 <= k <= m && Item(ys[i], full, m, k);
          assert full[k - 1] != full[j - 1];
        } else {
          assert full[i - 1] != full[j - 1];
        }
      }
    }

    /** What is known of the entries when the numbers are about to be computed. */
    static ghost predicate Laid(xs: seq<Entry>, r: seq<string>, full: seq<string>) {
      && Holds(xs, full, |r|) && StrictlySorted(Names(xs))
      && |r| <= |full| && full[..|r|] == r
      && IndexNames(xs, r)
    }

    static lemma SortedElements(xs: seq<Entry>, r: seq<string>)
      requires RouterNames(r) && Holds(xs, r, |r|) && StrictlySorted(Names(xs))
      ensures SortedNames(Names(xs))
      ensures forall s :: s in r <==> s in Names(xs) && s != []
    {
      var ns := Names(xs);
      forall i | 1 <= i < |ns|
        ensures ns[i] in r
      {
        assert ns[1..][i - 1] == ns[i];
        HoldsNames(xs, r, |r|, ns[i]);
      }
      forall s | s in r
        ensures s in ns && s != []
      {
        HoldsNames(xs, r, |r|, s);
      }
    }

    /** The first two thirds of true_prepare: fill, sort, add directories, sort again. */
    method Lay(r: seq<string>, limit: nat) returns (ok: bool, n: nat, ghost full: seq<string>)
      requires RouterNames(r) && |r| < x.Length <= limit < Sorting.Pow2(64)
      requires x[0] == Root
      modifies this`x, x
      ensures 1 <= n <= x.Length <= limit && (x == old(x) || fresh(x))
      ensures x[0] == Root
      ensures ok ==> Laid(x[..n], r, full)
      ensures ok <==> Capacity(old(x.Length), 1 + |WantedSet(r)|) <= limit
      ensures ok ==> x.Length == Capacity(old(x.Length), 1 + |WantedSet(r)|)
    {
      hide *;
      var nelem := |r| + 1;
      FillElements(r);
      Filled(x[..nelem], r);
      SortEntries(nelem, r, |r|);
      SortedElements(x[..nelem], r);
      ghost var first := x[..nelem];
      ghost var ns := Names(first);
      HoldsRoot(first, r, |r|);
      ghost var dirs := AddedDirs(ns, nelem);
      ListingIsWanted(r, ns, dirs);
      ListingSize(r, dirs);
      ok, n := AddDirectories(nelem, limit);
      assert x[0] == x[..nelem][0];
      full := [];
      if !ok {
        return;
      }
      full := r + dirs;
      assert x[..n][..nelem] == first;
      ExtendHolds(first, x[..n], r, dirs);
      if n != nelem {
        SortEntries(n, full, |r|);
      } else {
        assert x[..n] == first;
      }
      HoldsRoot(x[..n], full, |r|);
      HoldsIndexNames(x[..n], r, full);
      LaidFrom(x[..n], r, dirs);
    }

    static lemma Filled(xs: seq<Entry>, r: seq<string>)
      requires RouterNames(r) && |xs| == |r| + 1 && xs[0] == Root
      requires forall k :: 1 <= k <= |r| ==> Item(xs[k], r, |r|, k)
      ensures Holds(xs, r, |r|)
      ensures forall k :: 0 <= k < |r| ==> r[k] != []
    {
      ListedHolds(xs, r, |r|);
    }

    static lemma HoldsRoot(xs: seq<Entry>, full: seq<string>, m: nat)
      requires Holds(xs, full, m)
      ensures |xs| == |full| + 1 && xs[0] == Root
    {}

    static lemma LaidFrom(xs: seq<Entry>, r: seq<string>, dirs: seq<string>)
      requires Holds(xs, r + dirs, |r|) && StrictlySorted(Names(xs)) && IndexNames(xs, r)
      ensures Laid(xs, r, r + dirs)
    {}

    static lemma LaidNumbers(xs: seq<Entry>, r: seq<string>, full: seq<string>)
      requires Laid(xs, r, full)
      ensures IsCatalog(Names(xs)) && xs != [] && xs[0] == Root && xs[0].xindex == 0
      ensures forall i :: 1 <= i < |xs| ==> xs[i].skip == 0
      ensures forall i :: 0 <= i < |xs| ==> xs[i].elementnoPlus1 < |xs|
      ensures |xs| <= 0x1_0000 ==> Injective(NumberSeq(xs))
    {
      forall i | 1 <= i < |xs|
        ensures xs[i].skip == 0 && xs[i].elementnoPlus1 < |xs|
      {
        assert Known(xs[i], full, |r|);
        var k :| Item(xs[i], full, |r|, k);
      }
      if |xs| <= 0x1_0000 {
        forall i, j | 0 <= i < j < |xs|
          ensures NumberSeq(xs)[i] != NumberSeq(xs)[j]
        {
          if xs[i].elementnoPlus1 == xs[j].elementnoPlus1 {
            NumbersDistinct(xs, full, |r|, i, j);
          }
        }
      }
    }

    static lemma Finished(xs: seq<Entry>, ys: seq<Entry>, zs: seq<Entry>, r: seq<string>, full: seq<string>)
      requires Laid(xs, r, full)
      requires SameItems(xs, ys) && SkipsTruncated(ys)
      requires OnlyXindex(ys, zs)
      requires |zs| <= 0x1_0000 ==> Reversed(zs)
      ensures IndexNames(zs, r)
      ensures |zs| <= 0x1_0000 <==> IndexNumbers(zs, r)
    {
      hide Reversed, IsCatalog, Wanted, Extent, IndexNumbers;
      assert SameItems(xs, zs);
      SameNames(xs, ys);
      SameNames(xs, zs);
      assert SkipsTruncated(zs);
      NumbersExact(xs, zs, r, full);
    }

    static lemma SameNumberSeq(xs: seq<Entry>, ys: seq<Entry>)
      requires SameItems(xs, ys)
      ensures NumberSeq(xs) == NumberSeq(ys)
    {}

    /** The state after a failed allocation part way, and for a router without elements. */
    ghost predicate OnlyRoot()
      reads this, x
    {
      nentries == 1 <= x.Length && x[0] == Root
    }

    /**
     true_prepare.  On success the entries list exactly the elements and their
     directories; the 16-bit numbers are right if and only if the router has at
     most 65535 names and directories.  On failure the index is untouched, empty, or just the root.
     */
    method TruePrepare(r: seq<string>, newGeneration: nat, limit: nat) returns (ok: bool)
      requires RouterNames(r) && x.Length <= limit < Sorting.Pow2(64)
      modifies this, x
      ensures x.Length <= limit
      ensures ok ==> router == r && generation == newGeneration && 1 <= nentries <= x.Length
      ensures var c := if |r| + 1 < old(nentries) / 2 && old(nentries) > 256 then 0 else old(x.Length);
              && (ok <==> Capacity(c, 1 + |WantedSet(r)|) <= limit)
              && (ok ==> x.Length == Capacity(c, 1 + |WantedSet(r)|))
      ensures ok ==> IndexNames(x[..nentries], r) && nentries == 1 + |WantedSet(r)|
      ensures ok ==> (|WantedSet(r)| <= 0xFFFF <==> IndexNumbers(x[..nentries], r))
      ensures var cleaned := |r| + 1 < old(nentries) / 2 && old(nentries) > 256;
              !ok ==>
                && router == (if cleaned then [] else old(router)) && generation == (if cleaned then 0 else old(generation))
                && if Capacity(if cleaned then 0 else old(x.Length), |r| + 1) <= limit then OnlyRoot()
                   else if cleaned then nentries == 0 && x.Length == 0
                   else x == old(x) && nentries == old(nentries) && x[..] == old(x[..])
    {
      hide *;
      var nelem := |r| + 1;
      if nelem < nentries / 2 && nentries > 256 {
        Cleanup();
      }
      ElementsWanted(r);
      CapacityOn(x.Length, nelem, 1 + |WantedSet(r)|);
      ok := Grow(nelem, limit);
      if !ok {
        return;
      }
      x[0] := Root;
      nentries := 1;
      RootOnlyIsOnlyRoot();
      if nelem == 1 {
        router, generation := r, newGeneration;
        assert x[..nentries] == [Root] && r == [];
        RootAloneIndexed();
        IndexSize(x[..nentries], r);
        return true;
      }
      var n;
      ghost var full;
      ok, n, full := Lay(r, limit);
      if !ok {
        RootOnlyIsOnlyRoot();
        return;
      }
      Number(n, r, full);
      nentries, router, generation := n, r, newGeneration;
      IndexSize(x[..nentries], r);
    }

    /** One element too many, and the index that true_prepare reports as good is wrong. */
    method PrepareTooMany(n: nat, newGeneration: nat, limit: nat) returns (ok: bool)
      requires n > 0xFFFF && x.Length <= limit < Sorting.Pow2(64)
      modifies this, x
      ensures ok ==> 1 <= nentries <= x.Length && !IndexNumbers(x[..nentries], ManyNames(n))
    {
      hide IndexNumbers, IndexNames, RouterNames, WantedSet, ManyNames;
      ManyNamesAreTooMany(n);
      ok := TruePrepare(ManyNames(n), newGeneration, limit);
    }

    static lemma ElementsWanted(r: seq<string>)
      requires RouterNames(r)
      ensures |r| <= |WantedSet(r)| && (r == [] ==> |WantedSet(r)| == 0)
    {
      DistinctSize(r);
      forall s | s in Elements(r)
        ensures s in WantedSet(r)
      {
        WantedSetExact(r, s);
      }
      SubsetSize(Elements(r), WantedSet(r));
      if r == [] {
        assert WantedSet(r) == {};
      }
    }

    /** The last third of true_prepare: skip counts and the inverse index. */
    method Number(n: nat, ghost r: seq<string>, ghost full: seq<string>)
      requires n <= x.Length && Laid(x[..n], r, full)
      modifies x
      ensures IndexNames(x[..n], r)
      ensures n <= 0x1_0000 <==> IndexNumbers(x[..n], r)
    {
      hide *;
      ghost var xs := x[..n];
      LaidNumbers(xs, r, full);
      assert x[0] == xs[0];
      assert forall i :: 1 <= i < n ==> x[i] == xs[i];
      ComputeSkips(n);
      ghost var ys := x[..n];
      SameNumberSeq(xs, ys);
      BoundsKept(xs, ys);
      assert forall i :: 0 <= i < n ==> x[i] == ys[i];
      ComputeXindex(n);
      Finished(xs, ys, x[..n], r, full);
    }

    lemma RootOnlyIsOnlyRoot()
      requires nentries == 1 <= x.Length && x[0] == Root
      ensures OnlyRoot()
    {}

    static lemma BoundsKept(xs: seq<Entry>, ys: seq<Entry>)
      requires SameItems(xs, ys) && xs != [] && xs[0] == Root
      requires forall i :: 0 <= i < |xs| ==> xs[i].elementnoPlus1 < |xs|
      ensures forall i :: 0 <= i < |ys| ==> ys[i].elementnoPlus1 < |ys|
      ensures |ys| == |xs| && ys[0].elementnoPlus1 == 0
    {}

    static lemma RootAloneIndexed()
      ensures IndexNames([Root], [])
      ensures IndexNumbers([Root], [])
    {
      assert Names([Root]) == [[]];
    }

    // ---- searches and walks over a prepared index -------------------------

    /** A prepared index whose numbers did not overflow. */
    ghost predicate Ready()
      reads this, x
    {
      && 1 <= nentries <= x.Length
      && IndexNames(x[..nentries], router) && IndexNumbers(x[..nentries], router)
    }

    /** Element numbers run from -1, the root, to nentries - 2. */
    predicate HasElement(elementno: int)
      reads this
    {
      -1 <= elementno < nentries - 1
    }

    function Xindex(elementno: int): (xi: nat)
      requires Ready() && HasElement(elementno)
      reads this, x
      ensures xi < nentries && x[xi].elementnoPlus1 == elementno + 1
    {
      assert x[..nentries][elementno + 1] == x[elementno + 1];
      var xi := x[elementno + 1].xindex;
      assert x[..nentries][xi] == x[xi];
      xi
    }

    function NextXindex(elementno: int): nat
      requires Ready() && HasElement(elementno)
      reads this, x
    {
      var xi := Xindex(elementno);
      xi + x[xi].skip + 1
    }

    function Elementno(xi: nat): (e: int)
      requires Ready() && xi < nentries
      reads this, x
      ensures HasElement(e) && Xindex(e) == xi
    {
      assert x[..nentries][xi] == x[xi];
      var e := x[xi].elementnoPlus1 - 1;
      assert x[..nentries][e + 1] == x[e + 1];
      e
    }

    /** The full name of the directory of an element; the root's is empty. */
    ghost function DirName(elementno: int): string
      requires Ready() && HasElement(elementno)
      reads this, x
    {
      x[Xindex(elementno)].name
    }

    /** String::substring from an offset: empty when out of range. */
    static function Tail(s: string, offset: nat): string {
      if offset <= |s| then s[offset..] else []
    }

    method NameSearch(name: string, first: nat, last: int, offset: nat) returns (found: int)
      requires last < nentries <= x.Length
      requires forall i, j :: first <= i < j <= last ==> Compare(Tail(x[i].name, offset), Tail(x[j].name, offset)) < 0
      ensures found >= 0 ==> first <= found <= last && Tail(x[found].name, offset) == name
      ensures found < 0 ==> forall k :: first <= k <= last ==> Tail(x[k].name, offset) != name
    {
      var lo, hi := first, last;
      while lo <= hi
        invariant first <= lo && hi <= last
        invariant forall k :: first <= k < lo && k <= last ==> Tail(x[k].name, offset) != name
        invariant forall k :: first <= k <= last && hi < k ==> Tail(x[k].name, offset) != name
        decreases hi - lo + 1
      {
        hide Tail;
        var mid := lo + (hi - lo) / 2;
        var cmp := Compare(name, Tail(x[mid].name, offset));
        CompareZero(name, Tail(x[mid].name, offset));
        if cmp == 0 {
          return mid;
        } else if cmp < 0 {
          forall k | first <= k && mid < k <= last
            ensures Tail(x[k].name, offset) != name
          {
            CompareFlip(name, Tail(x[mid].name, offset));
          }
          hi := mid - 1;
        } else {
          forall k | first <= k < mid
            ensures Tail(x[k].name, offset) != name
          {
            CompareFlip(name, Tail(x[mid].name, offset));
          }
          lo := mid + 1;
        }
      }
      return -1;
    }

    /** What lies below one directory is sorted by the rest of its name as well. */
    static lemma TailsSorted(ns: seq<string>, d: nat, i: nat, j: nat)
      requires IsCatalog(ns) && d < i < j < |ns|
      requires Under(ns[d], ns[i]) && Under(ns[d], ns[j])
      ensures Compare(Tail(ns[i], Offset(ns[d])), Tail(ns[j], Offset(ns[d]))) < 0
    {
      var off := Offset(ns[d]);
      if ns[d] == [] {
        assert ns[i][0..] == ns[i] && ns[j][0..] == ns[j];
      } else {
        var p := ns[d] + "/";
        assert ns[i][..off] == ns[i][..off - 1] + [ns[i][off - 1]];
        assert ns[j][..off] == ns[j][..off - 1] + [ns[j][off - 1]];
        CompareAfterPrefix(p, ns[i], ns[j]);
      }
      assert Compare(ns[i], ns[j]) < 0;
    }

    static ghost predicate GoodIndex(xs: seq<Entry>, r: seq<string>) {
      xs != [] && IndexNames(xs, r) && IndexNumbers(xs, r)
    }

    /** What the searches and walks use of a good index. */
    static lemma GoodFacts(xs: seq<Entry>, r: seq<string>)
      requires GoodIndex(xs, r)
      ensures xs != [] && IsCatalog(Names(xs))
      ensures forall i :: 0 <= i < |xs| ==> xs[i].skip == Extent(Names(xs), i)
    {}

    static lemma RangeSorted(xs: seq<Entry>, r: seq<string>, d: nat)
      requires GoodIndex(xs, r) && d < |xs|
      ensures d + xs[d].skip < |xs|
      ensures forall i, j :: d < i < j <= d + xs[d].skip ==>
                Compare(Tail(xs[i].name, Offset(xs[d].name)), Tail(xs[j].name, Offset(xs[d].name))) < 0
    {
      hide *;
      GoodFacts(xs, r);
      var ns := Names(xs);
      ExtentExact(ns, d);
      forall i, j | d < i < j <= d + xs[d].skip
        ensures Compare(Tail(xs[i].name, Offset(xs[d].name)), Tail(xs[j].name, Offset(xs[d].name))) < 0
      {
        TailsSorted(ns, d, i, j);
      }
    }

    static lemma SearchHit(xs: seq<Entry>, r: seq<string>, d: nat, c: string, k: nat)
      requires GoodIndex(xs, r) && d < k < |xs| && k <= d + xs[d].skip
      requires Tail(xs[k].name, Offset(xs[d].name)) == c
      ensures c != [] && xs[k].name == Join(xs[d].name, c)
      ensures NoSlash(c) ==> DirectChild(xs[d].name, xs[k].name)
    {
      hide GoodIndex, Extent;
      GoodFacts(xs, r);
      var ns := Names(xs);
      ExtentExact(ns, d);
      assert Under(ns[d], ns[k]);
      ChildIsJoin(ns[d], ns[k]);
      TailNonempty(ns[d], ns[k]);
      if NoSlash(c) {
        JoinChild(ns[d], c);
      }
    }

    static lemma SearchMiss(xs: seq<Entry>, r: seq<string>, d: nat, c: string)
      requires GoodIndex(xs, r) && d < |xs| && d + xs[d].skip < |xs|
      requires forall k :: d < k <= d + xs[d].skip ==> Tail(xs[k].name, Offset(xs[d].name)) != c
      requires c != []
      ensures Join(xs[d].name, c) !in Names(xs)
    {
      hide *;
      GoodFacts(xs, r);
      var ns := Names(xs);
      ExtentExact(ns, d);
      JoinIsUnder(ns[d], c);
      forall k | 0 <= k < |ns|
        ensures ns[k] != Join(ns[d], c)
      {
        assert Under(ns[d], ns[k]) ==> d < k <= d + xs[d].skip;
      }
    }

    static lemma JoinIsUnder(d: string, c: string)
      requires c != []
      ensures Under(d, Join(d, c)) && Tail(Join(d, c), Offset(d)) == c
    {}

    lemma ReadyIsGood()
      requires Ready()
      ensures 1 <= nentries <= x.Length && GoodIndex(x[..nentries], router)
    {}

    /** element_name_search finds component c in the directory if and only if the joined name is an entry. */
    method ElementNameSearch(c: string, elementno: int) returns (found: int)
      requires Ready() && HasElement(elementno)
      ensures found >= 0 ==> found < nentries && c != [] && x[found].name == Join(DirName(elementno), c)
      ensures found >= 0 && NoSlash(c) ==> DirectChild(DirName(elementno), x[found].name)
      ensures found < 0 && c != [] ==> Join(DirName(elementno), c) !in Names(x[..nentries])
    {
      hide Ready, Compare, Tail, Join, DirectChild, GoodIndex;
      ReadyIsGood();
      ghost var xs := x[..nentries];
      var xi := Xindex(elementno);
      var firstpos := if x[xi].name != [] then |x[xi].name| + 1 else 0;
      RangeSorted(xs, router, xi);
      assert x[xi] == xs[xi] && firstpos == Offset(xs[xi].name);
      var next := NextXindex(elementno);
      assert forall k :: xi < k < next ==> x[k] == xs[k];
      found := NameSearch(c, xi + 1, next - 1, firstpos);
      if found >= 0 {
        SearchHit(xs, router, xi, c, found);
      } else if c != [] {
        SearchMiss(xs, router, xi, c);
      }
    }

    static lemma TailNonempty(d: string, s: string)
      requires ValidName(s) && Under(d, s)
      ensures Tail(s, Offset(d)) != []
    {}

    /** The whole listing is sorted by full name. */
    static lemma WholeSorted(xs: seq<Entry>, r: seq<string>, i: nat, j: nat)
      requires GoodIndex(xs, r) && 1 <= i < j < |xs|
      ensures Compare(Tail(xs[i].name, 0), Tail(xs[j].name, 0)) < 0
    {
      var ns := Names(xs);
      assert Compare(ns[i], ns[j]) < 0;
      assert Tail(ns[i], 0) == ns[i] && Tail(ns[j], 0) == ns[j];
    }

    /** The ".." case of lookup for a named directory; -1 stands for the global directory. */
    method DotDot(elementno: int) returns (parent: int)
      requires Ready() && HasElement(elementno) && elementno >= 0
      ensures HasElement(parent) && DirectChild(DirName(parent), DirName(elementno))
    {
      hide Ready, Compare, Tail, DirectChild, GoodIndex, ParentName, IsCatalog, Extent;
      ReadyIsGood();
      ghost var xs := x[..nentries];
      var xi := Xindex(elementno);
      NotRoot(xs, router, xi);
      GoodFacts(xs, router);
      ghost var k := ParentPresent(Names(xs), xi);
      assert x[xi] == xs[xi] && x[k] == xs[k];
      var slash := FindRight(x[xi].name);
      ParentNameIs(x[xi].name);
      if slash < 0 {
        RootNumber(xs, router);
        assert xs[0] == x[0];
        assert Xindex(-1) == 0;
        return -1;
      }
      forall i, j | 1 <= i < j <= nentries - 1
        ensures Compare(Tail(x[i].name, 0), Tail(x[j].name, 0)) < 0
      {
        WholeSorted(xs, router, i, j);
        assert x[i] == xs[i] && x[j] == xs[j];
      }
      var found := NameSearch(x[xi].name[..slash], 1, nentries - 1, 0);
      TailZero(x[k].name);
      assert found >= 0;  // the assertion in the source
      TailZero(x[found].name);
      parent := Elementno(found);
    }

    static lemma TailZero(s: string)
      ensures Tail(s, 0) == s
    {}

    static lemma ParentNameIs(s: string)
      ensures ParentName(s) == if FindRight(s) < 0 then [] else s[..FindRight(s)]
    {}

    static lemma NotRoot(xs: seq<Entry>, r: seq<string>, i: nat)
      requires GoodIndex(xs, r) && i < |xs| && xs[i].elementnoPlus1 > 0
      ensures i >= 1
    {}

    static lemma RootNumber(xs: seq<Entry>, r: seq<string>)
      requires GoodIndex(xs, r)
      ensures xs[0].xindex == 0 && xs[0].name == []
    {}

    /** ".." undoes a child lookup: only one directory has a given entry as a direct child. */
    lemma ParentUndoesChild(d: int, e: int, p: int)
      requires Ready() && HasElement(d) && HasElement(e) && HasElement(p) && e >= 0
      requires DirectChild(DirName(d), DirName(e)) && DirectChild(DirName(p), DirName(e))
      ensures p == d
    {
      hide DirectChild;
      var xs := x[..nentries];
      var ns := Names(xs);
      var i, j, k := Xindex(d), Xindex(e), Xindex(p);
      NotRoot(xs, router, j);
      ParentUnique(ns[i], ns[j]);
      ParentUnique(ns[k], ns[j]);
      SortedPositions(ns, i, k);
    }

    /** The listing of a directory: its direct children in order. */
    ghost function Listing(elementno: int): seq<nat>
      requires Ready() && HasElement(elementno)
      reads this, x
    {
      var ns := Names(x[..nentries]);
      var d := Xindex(elementno);
      ExtentExact(ns, d);
      Children(ns, d)
    }

    /** nlink for a directory with names: "." and "..", ".h" unless fake, ".e" for the root, one per child. */
    method Nlink(elementno: int) returns (nlink: nat)
      requires Ready() && HasElement(elementno)
      ensures nlink == 2 + (if x[Xindex(elementno)].fake then 0 else 1) + |Listing(elementno)|
                         + (if elementno == -1 then 1 else 0)
    {
      hide Ready, GoodIndex, IsCatalog, Stepped, Extent, Walk, Children;
      ReadyIsGood();
      ghost var xs := x[..nentries];
      ghost var ns := Names(xs);
      var d := Xindex(elementno);
      GoodFacts(xs, router);
      WalkStart(ns, d);
      assert x[d] == xs[d];
      nlink := 2;
      var xi := d + 1;
      var next := NextXindex(elementno);
      if !x[d].fake {
        nlink := nlink + 1;
      }
      ghost var base := nlink;
      while xi < next
        invariant d < xi <= next
        invariant Stepped(ns, d, xi)
        invariant nlink + |Walk(ns, xi, next)| == base + |Walk(ns, d + 1, next)|
        decreases next - xi
      {
        WalkUnfold(ns, d, xi);
        assert x[xi] == xs[xi];
        nlink := nlink + 1;
        xi := xi + x[xi].skip + 1;
      }
      WalkEnd(ns, xi, next);
      if elementno == -1 {
        nlink := nlink + 1;
      }
    }

    /**
     The subdirectory part of readdir: from position `pos` in the listing on, hand out at most
     `room` children as (component, element number), and return the position to resume at.
     */
    method ReaddirNames(elementno: int, pos: nat, room: nat) returns (out: seq<(string, int)>, newPos: nat)
      requires Ready() && HasElement(elementno)
      ensures var all := Listing(elementno);
              && |out| == (if pos + room <= |all| then room else if pos <= |all| then |all| - pos else 0)
              && newPos == pos + |out|
              && forall k :: 0 <= k < |out| ==> Handed(elementno, out[k], all[pos + k])
    {
      hide Ready, GoodIndex, IsCatalog, Stepped, Extent, Walk, Children, Join;
      ReadyIsGood();
      ghost var xs := x[..nentries];
      ghost var ns := Names(xs);
      ghost var all := Listing(elementno);
      var d := Xindex(elementno);
      GoodFacts(xs, router);
      WalkStart(ns, d);
      assert x[d] == xs[d];
      var xi := d + 1;
      var next := NextXindex(elementno);
      var nameOffset := |x[d].name|;
      if nameOffset > 0 {
        nameOffset := nameOffset + 1;
      }
      out, newPos := [], pos;
      var j := 0;
      while xi < next
        invariant d < xi <= next
        invariant Stepped(ns, d, xi)
        invariant j <= |all| && Walk(ns, xi, next) == all[j..]
        invariant |out| <= room && newPos == pos + |out|
        invariant |out| == (if j <= pos then 0 else if j - pos <= room then j - pos else room)
        invariant forall k :: 0 <= k < |out| ==> pos + k < |all| && Handed(elementno, out[k], all[pos + k])
        decreases next - xi
      {
        WalkUnfold(ns, d, xi);
        assert x[xi] == xs[xi];
        assert all[j] == xi;
        if newPos == j {
          if |out| == room {
            assert j == pos + room < |all|;
            return;
          }
          ChildComponent(xs, router, d, xi);
          out := out + [(x[xi].name[nameOffset..], Elementno(xi))];
          newPos := newPos + 1;
        }
        j := j + 1;
        xi := xi + x[xi].skip + 1;
      }
      WalkEnd(ns, xi, next);
      assert j == |all|;
    }

    /** item names entry i as a component of the directory. */
    ghost predicate Handed(elementno: int, item: (string, int), i: nat)
      requires Ready() && HasElement(elementno)
      reads this, x
    {
      && i < nentries
      && HasElement(item.1) && Xindex(item.1) == i
      && x[i].name == Join(DirName(elementno), item.0)
    }

    static lemma ChildComponent(xs: seq<Entry>, r: seq<string>, d: nat, i: nat)
      requires GoodIndex(xs, r) && d < i < |xs| && i <= d + xs[d].skip
      ensures Offset(xs[d].name) <= |xs[i].name| && xs[i].name == Join(xs[d].name, xs[i].name[Offset(xs[d].name)..])
    {
      hide *;
      GoodFacts(xs, r);
      var ns := Names(xs);
      ExtentExact(ns, d);
      assert Under(ns[d], ns[i]);
      ChildIsJoin(ns[d], ns[i]);
    }
  }
}
