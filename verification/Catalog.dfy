/**
 The order theory behind ClickIno (click/lib/ino.cc): slash-separated names,
 their directories, and what a sorted, directory-closed list of names looks
 like.  Everything rests on '/' sorting below every other name character.
 */
module Catalog {
  import opened Strings

  predicate NameChar(c: char) {
    'a' <= c <= 'z' || 'A' <= c <= 'Z' || '0' <= c <= '9' || c == '_' || c == '@' || c == '/'
  }

  /** cp_is_click_id: no empty component anywhere. */
  predicate ValidName(s: string) {
    && s != []
    && (forall i :: 0 <= i < |s| ==> NameChar(s[i]))
    && s[0] != '/' && s[|s| - 1] != '/'
    && (forall i :: 0 <= i < |s| - 1 ==> !(s[i] == '/' && s[i + 1] == '/'))
  }

  /** p is a proper directory of s, not counting the root. */
  predicate DirOf(p: string, s: string) {
    p != [] && p < s && s[|p|] == '/'
  }

  /** s lies strictly below directory d; the root is the empty name. */
  predicate Under(d: string, s: string) {
    if d == [] then s != [] else DirOf(d, s)
  }

  /** The length of what precedes a component of directory d. */
  function Offset(d: string): nat {
    if d == [] then 0 else |d| + 1
  }

  predicate NoSlash(s: string) {
    forall i :: 0 <= i < |s| ==> s[i] != '/'
  }

  predicate DirectChild(d: string, s: string) {
    Under(d, s) && NoSlash(s[Offset(d)..])
  }

  function Join(d: string, c: string): string {
    if d == [] then c else d + "/" + c
  }

  lemma DirOfValid(p: string, s: string)
    requires ValidName(s) && DirOf(p, s)
    ensures ValidName(p)
  {
    assert forall i :: 0 <= i < |p| ==> p[i] == s[i];
    var last := |p| - 1;
    assert s[last + 1] == '/';
    assert s[last] != '/';
  }

  lemma DirOfTransitive(p: string, q: string, s: string)
    requires DirOf(p, q) && DirOf(q, s)
    ensures DirOf(p, s)
  {
    assert p <= s[..|q|];
  }

  lemma UnderTransitive(p: string, q: string, s: string)
    requires Under(p, q) && Under(q, s)
    ensures Under(p, s)
  {
    if p != [] {
      DirOfTransitive(p, q, s);
    }
  }

  /** Two directories of one name are comparable. */
  lemma DirsNest(p: string, q: string, s: string)
    requires DirOf(p, s) && (DirOf(q, s) || q == s)
    ensures |p| < |q| ==> DirOf(p, q)
    ensures |p| == |q| ==> p == q
  {
    if |p| < |q| {
      assert q[|p|] == s[|p|];
      assert p == s[..|p|] == q[..|p|];
    } else if |p| == |q| {
      assert p == s[..|p|] && q == s[..|q|];
    }
  }

  /** A name between a directory and something below it is below it too. */
  lemma BetweenUnder(p: string, s: string, q: string)
    requires DirOf(p, q) && ValidName(s)
    requires Compare(p, s) < 0 && Compare(s, q) <= 0
    ensures DirOf(p, s)
  {
    Between(p, s, q);
    CompareZero(p, s);
    CompareAfterPrefix(p, s, q);
    assert s[|p|..][0] == s[|p|] && q[|p|..][0] == '/';
    assert NameChar(s[|p|]);
  }

  ghost predicate StrictlySorted(ns: seq<string>) {
    forall i, j :: 0 <= i < j < |ns| ==> Compare(ns[i], ns[j]) < 0
  }

  /** Entry 0 is the root; the others are valid names, in order, with all their directories. */
  ghost predicate IsCatalog(ns: seq<string>) {
    && |ns| >= 1 && ns[0] == []
    && StrictlySorted(ns)
    && (forall i :: 1 <= i < |ns| ==> ValidName(ns[i]))
    && (forall i, p :: 1 <= i < |ns| && DirOf(p, ns[i]) ==> p in ns)
  }

  lemma SortedPositions(ns: seq<string>, i: nat, j: nat)
    requires StrictlySorted(ns)
    requires i < |ns| && j < |ns|
    ensures Compare(ns[i], ns[j]) < 0 <==> i < j
    ensures ns[i] == ns[j] <==> i == j
  {
    CompareZero(ns[i], ns[j]);
    CompareFlip(ns[i], ns[j]);
    if j < i {
      assert Compare(ns[j], ns[i]) < 0;
    }
  }

  lemma UnderComesAfter(ns: seq<string>, i: nat, j: nat)
    requires IsCatalog(ns)
    requires i < |ns| && j < |ns| && Under(ns[i], ns[j])
    ensures i < j
  {
    PrefixFirst(ns[i], ns[j]);
    SortedPositions(ns, i, j);
  }

  /** Descendants of entry i sit contiguously after it. */
  lemma Contiguous(ns: seq<string>, i: nat, j: nat, k: nat)
    requires IsCatalog(ns)
    requires i < j <= k < |ns|
    requires Under(ns[i], ns[k])
    ensures Under(ns[i], ns[j])
  {
    if i > 0 {
      assert Compare(ns[i], ns[j]) < 0;
      CompareZero(ns[j], ns[k]);
      BetweenUnder(ns[i], ns[j], ns[k]);
    }
  }

  /** The assertion inside the skip loop: testing one character for a slash is enough. */
  lemma SlashImpliesUnder(ns: seq<string>, i: nat, j: nat)
    requires IsCatalog(ns)
    requires 1 <= i < j < |ns|
    requires forall k :: i < k < j ==> Under(ns[i], ns[k])
    requires |ns[j]| > |ns[i]| && ns[j][|ns[i]|] == '/'
    ensures Under(ns[i], ns[j])
  {
    var q := ns[j][..|ns[i]|];
    assert DirOf(q, ns[j]);
    assert q in ns;
    var k :| 0 <= k < |ns| && ns[k] == q;
    UnderComesAfter(ns, k, j);
    assert forall k' :: i < k' < j ==> |ns[k']| > |ns[i]|;
    if k < i {
      // q < ns[i] < ns[j] would make ns[i] extend q, but they are equally long
      BetweenUnder(q, ns[i], ns[j]);
    }
  }

  // ---- which directories are missing --------------------------------------

  /** The inner loop of true_prepare: directories of name, longest first, until one is a prefix of last. */
  function MissingDirs(name: string, last: string): (ds: seq<string>)
    decreases |name|
  {
    var slash := FindRight(name);
    if slash >= 0 && !(name[..slash] <= last) then [name[..slash]] + MissingDirs(name[..slash], last) else []
  }

  ghost predicate Missing(p: string, name: string, last: string) {
    DirOf(p, name) && !(p <= last)
  }

  lemma {:induction false} MissingDirsExact(name: string, last: string)
    requires ValidName(name)
    ensures forall p :: p in MissingDirs(name, last) <==> Missing(p, name, last)
    ensures forall i, j :: 0 <= i < j < |MissingDirs(name, last)| ==>
                             |MissingDirs(name, last)[j]| < |MissingDirs(name, last)[i]|
    decreases |name|
  {
    var slash := FindRight(name);
    if slash >= 0 {
      var d := name[..slash];
      assert DirOf(d, name);
      DirOfValid(d, name);
      if d <= last {
        forall p | DirOf(p, name)
          ensures p <= last
        {
          assert |p| <= slash;
          DirsNest(p, d, name);
        }
      } else {
        MissingDirsExact(d, last);
        forall p
          ensures p in MissingDirs(name, last) <==> Missing(p, name, last)
        {
          if p == d {
          } else if DirOf(p, name) {
            assert |p| <= slash;
            DirsNest(p, d, name);
          } else if DirOf(p, d) {
            DirOfTransitive(p, d, name);
          }
        }
        assert forall p :: p in MissingDirs(d, last) ==> Missing(p, d, last);
        var ds := MissingDirs(name, last);
        assert forall j :: 1 <= j < |ds| ==> ds[j] == MissingDirs(d, last)[j - 1] && ds[j] in MissingDirs(d, last);
      }
    }
  }

  /** The outer loop: the directories added after looking at entries 1..n-1. */
  function AddedDirs(ns: seq<string>, n: nat): seq<string>
    requires n <= |ns|
  {
    if n <= 1 then [] else AddedDirs(ns, n - 1) + MissingDirs(ns[n - 1], ns[n - 2])
  }

  /** Entry 0 is the root and the others are valid names, strictly sorted. */
  ghost predicate SortedNames(ns: seq<string>) {
    && |ns| >= 1 && ns[0] == []
    && StrictlySorted(ns)
    && (forall i :: 1 <= i < |ns| ==> ValidName(ns[i]))
  }

  lemma {:induction false} AddedSource(ns: seq<string>, n: nat, p: string) returns (i: nat)
    requires SortedNames(ns) && n <= |ns|
    requires p in AddedDirs(ns, n)
    ensures 1 <= i < n && Missing(p, ns[i], ns[i - 1])
  {
    MissingDirsExact(ns[n - 1], ns[n - 2]);
    if p in MissingDirs(ns[n - 1], ns[n - 2]) {
      i := n - 1;
    } else {
      i := AddedSource(ns, n - 1, p);
    }
  }

  lemma {:induction false} AddedHas(ns: seq<string>, n: nat, i: nat, p: string)
    requires SortedNames(ns) && 1 <= i < n <= |ns|
    requires Missing(p, ns[i], ns[i - 1])
    ensures p in AddedDirs(ns, n)
  {
    if i == n - 1 {
      MissingDirsExact(ns[n - 1], ns[n - 2]);
    } else {
      AddedHas(ns, n - 1, i, p);
    }
  }

  /** A directory of a later entry that an earlier entry extends is a prefix of everything between. */
  lemma PrefixPersists(ns: seq<string>, p: string, i: nat, k: nat, j: nat)
    requires SortedNames(ns) && 1 <= i <= k <= j < |ns|
    requires p <= ns[i] && p <= ns[j]
    ensures p <= ns[k]
  {
    PrefixFirst(p, ns[i]);
    if i < k < j {
      CompareTransitive(p, ns[i], ns[k]);
      Between(p, ns[k], ns[j]);
    }
  }

  lemma AddedNotANames(ns: seq<string>, n: nat, p: string)
    requires SortedNames(ns) && n <= |ns|
    requires p in AddedDirs(ns, n)
    ensures ValidName(p) && p !in ns
  {
    var i := AddedSource(ns, n, p);
    DirOfValid(p, ns[i]);
    if p in ns {
      var k :| 0 <= k < |ns| && ns[k] == p;
      PrefixFirst(p, ns[i]);
      SortedPositions(ns, k, i);
      PrefixPersists(ns, p, k, i - 1, i);
    }
  }

  lemma {:induction false} AddedDistinct(ns: seq<string>, n: nat)
    requires SortedNames(ns) && n <= |ns|
    ensures forall i, j :: 0 <= i < j < |AddedDirs(ns, n)| ==> AddedDirs(ns, n)[i] != AddedDirs(ns, n)[j]
  {
    if n > 1 {
      AddedDistinct(ns, n - 1);
      var front, back := AddedDirs(ns, n - 1), MissingDirs(ns[n - 1], ns[n - 2]);
      MissingDirsExact(ns[n - 1], ns[n - 2]);
      forall p | p in front && p in back
        ensures false
      {
        var i := AddedSource(ns, n - 1, p);
        PrefixPersists(ns, p, i, n - 2, n - 1);
      }
      assert forall i :: 0 <= i < |front| ==> front[i] in front;
      assert forall j :: 0 <= j < |back| ==> back[j] in back;
    }
  }

  /** The first entry that extends a directory p of entry j is p itself or the one that adds p. */
  lemma {:induction false} DirIsNamedOrAdded(ns: seq<string>, j: nat, p: string)
    requires SortedNames(ns) && 1 <= j < |ns|
    requires DirOf(p, ns[j])
    ensures p in ns || p in AddedDirs(ns, |ns|)
  {
    if p <= ns[j - 1] {
      assert j > 1;
      if p != ns[j - 1] {
        PrefixFirst(p, ns[j - 1]);
        CompareZero(p, ns[j - 1]);
        BetweenUnder(p, ns[j - 1], ns[j]);
        DirIsNamedOrAdded(ns, j - 1, p);
      }
    } else {
      AddedHas(ns, |ns|, j, p);
    }
  }

  // ---- extents and walks --------------------------------------------------

  /** How many entries from j on, without a gap, are below entry i. */
  function Run(ns: seq<string>, i: nat, j: nat): nat
    requires i < |ns|
    decreases |ns| - j
  {
    if j < |ns| && Under(ns[i], ns[j]) then 1 + Run(ns, i, j + 1) else 0
  }

  /** What skip is meant to hold. */
  function Extent(ns: seq<string>, i: nat): nat
    requires i < |ns|
  {
    Run(ns, i, i + 1)
  }

  lemma {:induction false} RunIs(ns: seq<string>, i: nat, j: nat, end: nat)
    requires i < |ns| && j <= end <= |ns|
    requires forall k :: j <= k < end ==> Under(ns[i], ns[k])
    requires end < |ns| ==> !Under(ns[i], ns[end])
    ensures Run(ns, i, j) == end - j
    decreases end - j
  {
    if j < end {
      RunIs(ns, i, j + 1, end);
    }
  }

  lemma {:induction false} RunCovers(ns: seq<string>, i: nat, j: nat)
    requires i < |ns| && j <= |ns|
    ensures j + Run(ns, i, j) <= |ns|
    ensures forall k :: j <= k < j + Run(ns, i, j) ==> Under(ns[i], ns[k])
    ensures j + Run(ns, i, j) < |ns| ==> !Under(ns[i], ns[j + Run(ns, i, j)])
    decreases |ns| - j
  {
    if j < |ns| && Under(ns[i], ns[j]) {
      RunCovers(ns, i, j + 1);
    }
  }

  /** The extent of an entry counts its descendants, and they are the entries right after it. */
  lemma ExtentExact(ns: seq<string>, i: nat)
    requires IsCatalog(ns) && i < |ns|
    ensures i + Extent(ns, i) < |ns|
    ensures forall j :: 0 <= j < |ns| ==> (Under(ns[i], ns[j]) <==> i < j <= i + Extent(ns, i))
  {
    RunCovers(ns, i, i + 1);
    var end := i + 1 + Extent(ns, i);
    forall j | 0 <= j < |ns|
      ensures Under(ns[i], ns[j]) <==> i < j < end
    {
      if Under(ns[i], ns[j]) {
        UnderComesAfter(ns, i, j);
        if j >= end {
          Contiguous(ns, i, end, j);
        }
      }
    }
  }

  /** The root is above everything else. */
  lemma RootExtent(ns: seq<string>)
    requires IsCatalog(ns)
    ensures Extent(ns, 0) == |ns| - 1
  {
    RunIs(ns, 0, 1, |ns|);
  }

  /** The sibling walk of nlink and readdir: from xi, step over each entry's descendants. */
  function Walk(ns: seq<string>, xi: nat, next: nat): seq<nat>
    requires next <= |ns|
    decreases next - xi
  {
    if xi < next then [xi] + Walk(ns, xi + Extent(ns, xi) + 1, next) else []
  }

  /** The entries the walk over directory d visits. */
  function Children(ns: seq<string>, d: nat): seq<nat>
    requires d < |ns| && d + 1 + Extent(ns, d) <= |ns|
  {
    Walk(ns, d + 1, d + 1 + Extent(ns, d))
  }

  /** Everything between d and xi has been stepped over by complete blocks. */
  ghost predicate Stepped(ns: seq<string>, d: nat, xi: nat) {
    && d < xi <= |ns|
    && forall q, k :: d < q < xi && xi <= k < |ns| ==> !Under(ns[q], ns[k])
  }

  lemma NextIsChild(ns: seq<string>, d: nat, xi: nat)
    requires IsCatalog(ns) && xi < |ns|
    requires Stepped(ns, d, xi)
    requires Under(ns[d], ns[xi])
    ensures DirectChild(ns[d], ns[xi])
  {
    var off := Offset(ns[d]);
    if !NoSlash(ns[xi][off..]) {
      var m :| 0 <= m < |ns[xi][off..]| && ns[xi][off..][m] == '/';
      var p := ns[xi][..off + m];
      assert ns[xi][off + m] == '/';
      assert ns[xi][0] != '/';
      assert DirOf(p, ns[xi]);
      assert p in ns;
      var q :| 0 <= q < |ns| && ns[q] == p;
      UnderComesAfter(ns, q, xi);
      assert Under(ns[d], p) by {
        if ns[d] != [] {
          assert m != 0 by {
            var e := |ns[d]|;
            assert ns[xi][e] == '/';
            assert ns[xi][e + 1] != '/';
          }
          assert |ns[d]| < |p|;
          DirsNest(ns[d], p, ns[xi]);
        }
      }
      UnderComesAfter(ns, d, q);
    }
  }

  lemma SteppedOver(ns: seq<string>, d: nat, xi: nat)
    requires IsCatalog(ns) && xi < |ns|
    requires Stepped(ns, d, xi)
    ensures xi + 1 + Extent(ns, xi) <= |ns|
    ensures Stepped(ns, d, xi + 1 + Extent(ns, xi))
  {
    ExtentExact(ns, xi);
    var end := xi + 1 + Extent(ns, xi);
    forall q, k | d < q < end && end <= k < |ns|
      ensures !Under(ns[q], ns[k])
    {
      if q > xi && Under(ns[q], ns[k]) {
        UnderTransitive(ns[xi], ns[q], ns[k]);
      }
    }
  }

  ghost predicate Ascending(s: seq<nat>) {
    forall k, l :: 0 <= k < l < |s| ==> s[k] < s[l]
  }

  /** One step of the walk: a direct child, then nothing but what is below it. */
  lemma OneBlock(ns: seq<string>, d: nat, xi: nat)
    requires IsCatalog(ns) && d < |ns|
    requires Stepped(ns, d, xi)
    requires xi <= d + Extent(ns, d)
    ensures xi < |ns| && DirectChild(ns[d], ns[xi])
    ensures xi + Extent(ns, xi) <= d + Extent(ns, d) < |ns|
    ensures forall i :: xi < i <= xi + Extent(ns, xi) ==> !DirectChild(ns[d], ns[i])
    ensures Stepped(ns, d, xi + 1 + Extent(ns, xi))
  {
    ExtentExact(ns, d);
    ExtentExact(ns, xi);
    NextIsChild(ns, d, xi);
    SteppedOver(ns, d, xi);
    forall i | xi < i <= xi + Extent(ns, xi)
      ensures Under(ns[d], ns[i]) && !DirectChild(ns[d], ns[i])
    {
      UnderTransitive(ns[d], ns[xi], ns[i]);
      var off := Offset(ns[d]);
      assert ns[i][off..][|ns[xi]| - off] == ns[i][|ns[xi]|] == '/';
    }
    assert Under(ns[d], ns[xi + Extent(ns, xi)]);
  }

  /** w lists the direct children of d among the entries xi..next-1, in order. */
  ghost predicate Visits(ns: seq<string>, d: nat, xi: nat, next: nat, w: seq<nat>)
    requires d < |ns| && next <= |ns|
  {
    && (forall i :: i in w <==> xi <= i < next && DirectChild(ns[d], ns[i]))
    && Ascending(w)
  }

  lemma VisitsCons(ns: seq<string>, d: nat, xi: nat, end: nat, next: nat, rest: seq<nat>)
    requires d < |ns| && xi < end <= next <= |ns|
    requires DirectChild(ns[d], ns[xi])
    requires forall i :: xi < i < end ==> !DirectChild(ns[d], ns[i])
    requires Visits(ns, d, end, next, rest)
    ensures Visits(ns, d, xi, next, [xi] + rest)
  {
    hide DirectChild;
    assert forall l :: 0 <= l < |rest| ==> rest[l] in rest;
  }

  lemma {:induction false} WalkVisits(ns: seq<string>, d: nat, xi: nat, next: nat)
    requires IsCatalog(ns) && d < |ns|
    requires Stepped(ns, d, xi)
    requires xi <= next == d + 1 + Extent(ns, d) <= |ns|
    ensures Visits(ns, d, xi, next, Walk(ns, xi, next))
    decreases next - xi
  {
    hide IsCatalog, DirectChild, Stepped, Extent;
    if xi < next {
      hide Visits;
      OneBlock(ns, d, xi);
      var end := xi + 1 + Extent(ns, xi);
      WalkVisits(ns, d, end, next);
      VisitsCons(ns, d, xi, end, next, Walk(ns, end, next));
    }
  }

  /** Stepping by skip + 1 visits each direct child of d exactly once, in order, and nothing else. */
  lemma ChildrenExact(ns: seq<string>, d: nat)
    requires IsCatalog(ns) && d < |ns|
    ensures d + 1 + Extent(ns, d) <= |ns|
    ensures forall i :: 0 <= i < |ns| ==> (i in Children(ns, d) <==> DirectChild(ns[d], ns[i]))
    ensures forall i :: i in Children(ns, d) ==> i < |ns|
    ensures Ascending(Children(ns, d))
  {
    ExtentExact(ns, d);
    WalkVisits(ns, d, d + 1, d + 1 + Extent(ns, d));
    forall i | 0 <= i < |ns|
      ensures i in Children(ns, d) <==> DirectChild(ns[d], ns[i])
    {
      assert DirectChild(ns[d], ns[i]) ==> Under(ns[d], ns[i]);
    }
  }

  // ---- parents ------------------------------------------------------------

  /** The directory the ".." case computes from a name. */
  function ParentName(s: string): string {
    var slash := FindRight(s);
    if slash < 0 then [] else s[..slash]
  }

  /** A name is a direct child of its parent and of nothing else. */
  lemma ParentUnique(d: string, s: string)
    requires ValidName(s)
    ensures DirectChild(d, s) <==> d == ParentName(s)
  {
    var slash := FindRight(s);
    if slash >= 0 {
      assert DirOf(s[..slash], s);
      assert NoSlash(s[slash + 1..]);
    } else {
      assert s[0..] == s;
    }
    if DirectChild(d, s) {
      var off := Offset(d);
      assert forall i :: off <= i < |s| ==> s[off..][i - off] == s[i];
      if slash >= 0 {
        assert slash < off;
      }
    }
  }

  lemma JoinChild(d: string, c: string)
    requires c != [] && NoSlash(c)
    ensures DirectChild(d, Join(d, c))
  {
    assert Join(d, c)[Offset(d)..] == c;
  }

  lemma ChildIsJoin(d: string, s: string)
    requires Under(d, s)
    ensures Offset(d) <= |s| && s == Join(d, s[Offset(d)..])
  {
    if d != [] {
      assert s == s[..|d|] + [s[|d|]] + s[|d| + 1..];
    }
  }

  /** Every entry but the root has its parent directory in the catalog. */
  lemma ParentPresent(ns: seq<string>, i: nat) returns (k: nat)
    requires IsCatalog(ns) && 1 <= i < |ns|
    ensures k < i && ns[k] == ParentName(ns[i])
    ensures FindRight(ns[i]) >= 0 ==> k >= 1
    ensures DirectChild(ns[k], ns[i])
  {
    var slash := FindRight(ns[i]);
    ParentUnique(ParentName(ns[i]), ns[i]);
    if slash < 0 {
      k := 0;
    } else {
      assert slash > 0 by {
        assert ns[i][0] != '/';
      }
      assert DirOf(ns[i][..slash], ns[i]);
      assert ns[i][..slash] in ns;
      k :| 0 <= k < |ns| && ns[k] == ns[i][..slash];
      UnderComesAfter(ns, k, i);
    }
  }

  /** Unfolding the walk once, inside a directory. */
  lemma WalkUnfold(ns: seq<string>, d: nat, xi: nat)
    requires IsCatalog(ns) && d < |ns|
    requires Stepped(ns, d, xi) && xi <= d + Extent(ns, d)
    ensures d + Extent(ns, d) < |ns| && xi + Extent(ns, xi) <= d + Extent(ns, d)
    ensures Stepped(ns, d, xi + 1 + Extent(ns, xi))
    ensures Walk(ns, xi, d + Extent(ns, d) + 1) ==
            [xi] + Walk(ns, xi + Extent(ns, xi) + 1, d + Extent(ns, d) + 1)
  {
    hide IsCatalog, DirectChild, Stepped, Extent;
    OneBlock(ns, d, xi);
  }

  lemma WalkStart(ns: seq<string>, d: nat)
    requires IsCatalog(ns) && d < |ns|
    ensures d + Extent(ns, d) < |ns|
    ensures Stepped(ns, d, d + 1)
    ensures Children(ns, d) == Walk(ns, d + 1, d + Extent(ns, d) + 1)
  {
    hide IsCatalog, Extent, Under;
    ExtentExact(ns, d);
  }

  lemma WalkEnd(ns: seq<string>, xi: nat, next: nat)
    requires next <= |ns| && next <= xi
    ensures Walk(ns, xi, next) == []
  {}
}
