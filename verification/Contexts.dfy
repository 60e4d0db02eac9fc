/**
 The context forest of NameInfo (click/lib/nameinfo.cc): databases of names are
 installed for compound element contexts, and kept in a forest that reorganizes
 itself so that a database lies under the longest installed prefix of its
 context.  Pointers to databases are positions in _namedbs, which only grows.
 */
module Contexts {
  import opened Wrappers
  import opened Strings

  /** A database's type, context and tree links. */
  datatype Db = Db(dbtype: nat, context: string, parent: Option<nat>, sibling: Option<nat>, child: Option<nat>)

  // ---- what the forest should be, from the contexts alone -----------------

  /** The database is for the type, and its context is a prefix of the query. */
  predicate Matches(dbs: seq<Db>, n: nat, t: nat, q: string) {
    n < |dbs| && dbs[n].dbtype == t && dbs[n].context <= q
  }

  /** m is less specific than n: a shorter prefix, or the same context installed earlier. */
  predicate Above(dbs: seq<Db>, m: nat, n: nat) {
    && m < |dbs| && n < |dbs| && dbs[m].dbtype == dbs[n].dbtype
    && dbs[m].context <= dbs[n].context
    && (dbs[m].context == dbs[n].context ==> m < n)
  }

  /** b's context is longer, or as long and installed no earlier. */
  predicate NoDeeper(dbs: seq<Db>, a: nat, b: nat)
    requires a < |dbs| && b < |dbs|
  {
    |dbs[a].context| < |dbs[b].context| || (|dbs[a].context| == |dbs[b].context| && a <= b)
  }

  /** p is the most specific database above n. */
  ghost predicate IsParent(dbs: seq<Db>, p: Option<nat>, n: nat) {
    match p
    case None => forall m :: !Above(dbs, m, n)
    case Some(p) => Above(dbs, p, n) && forall m :: Above(dbs, m, n) ==> NoDeeper(dbs, m, p)
  }

  /** c is the most specific database that matches. */
  ghost predicate IsClosest(dbs: seq<Db>, t: nat, q: string, c: Option<nat>) {
    match c
    case None => forall m :: !Matches(dbs, m, t, q)
    case Some(c) => Matches(dbs, c, t, q) && forall m :: Matches(dbs, m, t, q) ==> NoDeeper(dbs, m, c)
  }

  /** What the parent links must be: determined by the contexts and the order of installs. */
  ghost predicate Canonical(dbs: seq<Db>) {
    forall n :: 0 <= n < |dbs| ==> IsParent(dbs, dbs[n].parent, n)
  }

  lemma ComparablePrefixes(a: string, b: string, q: string)
    requires a <= q && b <= q && |a| <= |b|
    ensures a <= b
  {
    assert a == q[..|a|] && b == q[..|b|];
  }

  /** Two matching databases are always one above the other. */
  lemma MatchesAreChain(dbs: seq<Db>, t: nat, q: string, m: nat, n: nat)
    requires Matches(dbs, m, t, q) && Matches(dbs, n, t, q)
    ensures NoDeeper(dbs, m, n) && m != n <==> Above(dbs, m, n)
  {
    if |dbs[m].context| <= |dbs[n].context| {
      ComparablePrefixes(dbs[m].context, dbs[n].context, q);
    }
  }

  lemma ParentExtended(dbs: seq<Db>, n: nat)
    requires Canonical(dbs) && n < |dbs| && dbs[n].parent.Some?
    ensures Above(dbs, dbs[n].parent.value, n)
  {
    assert IsParent(dbs, dbs[n].parent, n);
  }

  lemma AboveIsNotSibling(dbs: seq<Db>, hi: nat, lo: nat)
    requires Canonical(dbs) && Above(dbs, hi, lo)
    ensures dbs[hi].parent != dbs[lo].parent
  {
    assert IsParent(dbs, dbs[lo].parent, lo) && IsParent(dbs, dbs[hi].parent, hi);
    assert NoDeeper(dbs, hi, dbs[lo].parent.value);
  }

  /** Siblings are incomparable: neither context is a prefix of the other. */
  lemma SiblingsIncomparable(dbs: seq<Db>, a: nat, b: nat)
    requires Canonical(dbs) && a < |dbs| && b < |dbs| && a != b
    requires dbs[a].dbtype == dbs[b].dbtype && dbs[a].parent == dbs[b].parent
    ensures !(dbs[a].context <= dbs[b].context)
  {
    if Above(dbs, a, b) {
      AboveIsNotSibling(dbs, a, b);
    } else if Above(dbs, b, a) {
      AboveIsNotSibling(dbs, b, a);
    }
  }

  // ---- the links, as lists of children ------------------------------------

  datatype Place = Top(dbtype: nat) | Under(db: nat)

  function PlaceOf(db: Db): Place {
    if db.parent.Some? then Under(db.parent.value) else Top(db.dbtype)
  }

  function KidsAt(kids: map<Place, seq<nat>>, p: Place): seq<nat> {
    if p in kids then kids[p] else []
  }

  function Head(list: seq<nat>): Option<nat> {
    if list == [] then None else Some(list[0])
  }

  ghost predicate Distinct(list: seq<nat>) {
    forall i, j :: 0 <= i < j < |list| ==> list[i] != list[j]
  }

  /** What follows a list's i-th member. */
  function NextIn(list: seq<nat>, i: nat): Option<nat> {
    if i + 1 < |list| then Some(list[i + 1]) else None
  }

  /** Each member's sibling link leads to the next, the last one's nowhere. */
  ghost predicate Linked(dbs: seq<Db>, list: seq<nat>) {
    forall i :: 0 <= i < |list| ==> list[i] < |dbs| && dbs[list[i]].sibling == NextIn(list, i)
  }

  ghost predicate Listed(dbs: seq<Db>, kids: map<Place, seq<nat>>) {
    && (forall n :: 0 <= n < |dbs| ==> n in KidsAt(kids, PlaceOf(dbs[n])))
    && (forall p, n: nat :: n in KidsAt(kids, p) ==> n < |dbs| && PlaceOf(dbs[n]) == p)
    && (forall p :: Distinct(KidsAt(kids, p)) && Linked(dbs, KidsAt(kids, p)))
  }

  ghost predicate Childed(dbs: seq<Db>, kids: map<Place, seq<nat>>) {
    forall n :: 0 <= n < |dbs| ==> dbs[n].child == Head(KidsAt(kids, Under(n)))
  }

  /** _namedb_roots: sorted by type, one list of roots for each type. */
  ghost predicate Rooted(dbs: seq<Db>, roots: seq<nat>, kids: map<Place, seq<nat>>) {
    && RootsSorted(dbs, roots)
    && (forall k :: 0 <= k < |roots| ==> Head(KidsAt(kids, Top(dbs[roots[k]].dbtype))) == Some(roots[k]))
    && (forall n :: 0 <= n < |dbs| && dbs[n].parent.None? ==> HasRoot(dbs, roots, dbs[n].dbtype))
  }

  ghost predicate RootsSorted(dbs: seq<Db>, roots: seq<nat>) {
    && (forall k :: 0 <= k < |roots| ==> roots[k] < |dbs|)
    && (forall j, k :: 0 <= j < k < |roots| ==> dbs[roots[j]].dbtype < dbs[roots[k]].dbtype)
  }

  ghost predicate HasRoot(dbs: seq<Db>, roots: seq<nat>, t: nat) {
    exists k :: 0 <= k < |roots| && roots[k] < |dbs| && dbs[roots[k]].dbtype == t
  }

  ghost predicate Forest(dbs: seq<Db>, roots: seq<nat>, kids: map<Place, seq<nat>>) {
    Canonical(dbs) && Listed(dbs, kids) && Childed(dbs, kids) && Rooted(dbs, roots, kids)
  }

  lemma KidFacts(dbs: seq<Db>, kids: map<Place, seq<nat>>, p: Place, j: nat)
    requires Listed(dbs, kids) && j < |KidsAt(kids, p)|
    ensures KidsAt(kids, p)[j] < |dbs| && PlaceOf(dbs[KidsAt(kids, p)[j]]) == p
    ensures dbs[KidsAt(kids, p)[j]].sibling == NextIn(KidsAt(kids, p), j)
  {
    assert KidsAt(kids, p)[j] in KidsAt(kids, p);
    assert Linked(dbs, KidsAt(kids, p));
  }

  lemma KidListed(dbs: seq<Db>, kids: map<Place, seq<nat>>, n: nat)
    requires Listed(dbs, kids) && n < |dbs|
    ensures n in KidsAt(kids, PlaceOf(dbs[n]))
  {}

  lemma ChildFacts(dbs: seq<Db>, kids: map<Place, seq<nat>>, n: nat)
    requires Childed(dbs, kids) && n < |dbs|
    ensures dbs[n].child == Head(KidsAt(kids, Under(n)))
  {}

  lemma RootFacts(dbs: seq<Db>, roots: seq<nat>, kids: map<Place, seq<nat>>, k: nat)
    requires Rooted(dbs, roots, kids) && k < |roots|
    ensures roots[k] < |dbs| && KidsAt(kids, Top(dbs[roots[k]].dbtype)) != []
    ensures KidsAt(kids, Top(dbs[roots[k]].dbtype))[0] == roots[k]
  {}

  /** Every database under another lies under, or is, one of its children. */
  lemma {:induction false} KidBetween(dbs: seq<Db>, k: nat, n: nat) returns (kid: nat)
    requires Canonical(dbs) && Above(dbs, k, n)
    ensures kid < |dbs| && dbs[kid].parent == Some(k)
    ensures kid == n || Above(dbs, kid, n)
    decreases |dbs[n].context|, n
  {
    assert IsParent(dbs, dbs[n].parent, n);
    var p := dbs[n].parent.value;
    if p == k {
      return n;
    }
    MatchesAreChain(dbs, dbs[n].dbtype, dbs[n].context, k, p);
    kid := KidBetween(dbs, k, p);
  }

  /** Every database lies under, or is, a root of its type. */
  lemma {:induction false} RootAbove(dbs: seq<Db>, n: nat) returns (root: nat)
    requires Canonical(dbs) && n < |dbs|
    ensures root < |dbs| && dbs[root].parent.None? && dbs[root].dbtype == dbs[n].dbtype
    ensures root == n || Above(dbs, root, n)
    decreases |dbs[n].context|, n
  {
    assert IsParent(dbs, dbs[n].parent, n);
    if dbs[n].parent.None? {
      return n;
    }
    root := RootAbove(dbs, dbs[n].parent.value);
  }

  /** Where the walk has come to: the deepest match so far, or nowhere. */
  function PlaceAfter(t: nat, c: Option<nat>): Place {
    if c.Some? then Under(c.value) else Top(t)
  }

  /** When none of a match's children match, it is the closest: no backtracking is needed. */
  lemma WalkEnds(dbs: seq<Db>, t: nat, q: string, c: Option<nat>)
    requires Canonical(dbs)
    requires c.Some? ==> Matches(dbs, c.value, t, q)
    requires forall n: nat :: n < |dbs| && PlaceOf(dbs[n]) == PlaceAfter(t, c) ==> !Matches(dbs, n, t, q)
    ensures IsClosest(dbs, t, q, c)
  {
    forall m | Matches(dbs, m, t, q)
      ensures c.Some? && NoDeeper(dbs, m, c.value)
    {
      if c.None? {
        var root := RootAbove(dbs, m);
      } else if !NoDeeper(dbs, m, c.value) {
        MatchesAreChain(dbs, t, q, c.value, m);
        var kid := KidBetween(dbs, c.value, m);
      }
    }
  }

  // ---- one more database --------------------------------------------------

  /** What an install must do to the fields that say where databases belong. */
  ghost predicate Added(dbs: seq<Db>, dbs': seq<Db>, t: nat, q: string, c: Option<nat>) {
    var added := |dbs|;
    && |dbs'| == |dbs| + 1
    && (forall n :: 0 <= n < |dbs| ==>
          dbs'[n].dbtype == dbs[n].dbtype && dbs'[n].context == dbs[n].context
          && dbs'[n].parent == if Adopts(dbs[n], t, q, c) then Some(added) else dbs[n].parent)
    && dbs'[added].dbtype == t && dbs'[added].context == q && dbs'[added].parent == c
  }

  /** The new database takes over those children of its parent whose contexts extend its own. */
  predicate Adopts(db: Db, t: nat, q: string, c: Option<nat>) {
    PlaceOf(db) == PlaceAfter(t, c) && q <= db.context && |q| < |db.context|
  }

  lemma AddedAbove(dbs: seq<Db>, dbs': seq<Db>, t: nat, q: string, c: Option<nat>, m: nat, n: nat)
    requires Added(dbs, dbs', t, q, c) && n < |dbs|
    ensures Above(dbs', m, n) <==>
            if m == |dbs| then dbs[n].dbtype == t && q <= dbs[n].context && |q| < |dbs[n].context| else Above(dbs, m, n)
  {}

  lemma AddedParent(dbs: seq<Db>, dbs': seq<Db>, t: nat, q: string, c: Option<nat>, n: nat)
    requires Canonical(dbs) && IsClosest(dbs, t, q, c) && Added(dbs, dbs', t, q, c) && n < |dbs|
    ensures IsParent(dbs', dbs'[n].parent, n)
  {
    var added := |dbs|;
    assert IsParent(dbs, dbs[n].parent, n);
    forall m: nat
      ensures Above(dbs', m, n) <==> if m == added then Above(dbs', added, n) else Above(dbs, m, n)
    {
      AddedAbove(dbs, dbs', t, q, c, m, n);
    }
    AddedAbove(dbs, dbs', t, q, c, added, n);
    if Above(dbs', added, n) {
      assert dbs[n].dbtype == t;
      if dbs[n].parent.Some? {
        var p := dbs[n].parent.value;
        if |dbs[p].context| <= |q| {
          ComparablePrefixes(dbs[p].context, q, dbs[n].context);
          assert Matches(dbs, p, t, q);
          assert c.Some? && NoDeeper(dbs, p, c.value);
          assert Above(dbs, c.value, n);
          assert NoDeeper(dbs, c.value, p);
          assert p == c.value;
          assert Adopts(dbs[n], t, q, c);
          assert forall m :: Above(dbs', m, n) ==> NoDeeper(dbs', m, added);
        } else {
          assert c != Some(p);
          assert !Adopts(dbs[n], t, q, c);
          assert NoDeeper(dbs', added, p);
        }
      } else {
        if c.Some? {
          assert Above(dbs, c.value, n);
        }
        assert Adopts(dbs[n], t, q, c);
      }
    } else {
      assert !Adopts(dbs[n], t, q, c) by {
        if dbs[n].parent.Some? { ParentExtended(dbs, n); }
      }
    }
  }

  /** Placing a new database under its closest match, and adopting, keeps every parent right. */
  lemma AddedCanonical(dbs: seq<Db>, dbs': seq<Db>, t: nat, q: string, c: Option<nat>)
    requires Canonical(dbs) && IsClosest(dbs, t, q, c) && Added(dbs, dbs', t, q, c)
    ensures Canonical(dbs')
    ensures IsClosest(dbs', t, q, Some(|dbs|))
  {
    var added := |dbs|;
    forall n | 0 <= n < |dbs'|
      ensures IsParent(dbs', dbs'[n].parent, n)
    {
      if n < |dbs| {
        AddedParent(dbs, dbs', t, q, c, n);
      } else {
        assert forall m: nat :: Above(dbs', m, added) ==> Matches(dbs, m, t, q);
        if c.Some? {
          assert Above(dbs', c.value, added);
        }
      }
    }
    forall m | Matches(dbs', m, t, q)
      ensures NoDeeper(dbs', m, added)
    {}
  }

  // ---- list surgery -------------------------------------------------------

  /** Everything but the links of the databases named stays. */
  ghost predicate OthersKept(dbs: seq<Db>, dbs': seq<Db>, list: seq<nat>) {
    && |dbs'| == |dbs|
    && (forall x: nat :: x < |dbs| ==> dbs'[x].dbtype == dbs[x].dbtype && dbs'[x].context == dbs[x].context)
    && (forall x: nat :: x < |dbs| && x !in list ==> dbs'[x] == dbs[x])
  }

  lemma LinkedKept(dbs: seq<Db>, dbs': seq<Db>, list: seq<nat>)
    requires Linked(dbs, list) && |dbs'| >= |dbs|
    requires forall x :: x in list && x < |dbs| ==> dbs'[x].sibling == dbs[x].sibling
    ensures Linked(dbs', list)
  {}

  /** Unlinking the member after `front` from its list, into the list of the new database's children. */
  function Moved(dbs: seq<Db>, n: nat, at: nat, x: nat): (r: seq<Db>)
    requires n < |dbs| && at < |dbs| && x < |dbs|
    ensures |r| == |dbs|
  {
    var dbs1 := dbs[at := dbs[at].(sibling := dbs[x].sibling)];
    var dbs2 := dbs1[x := dbs1[x].(parent := Some(n), sibling := dbs1[n].child)];
    dbs2[n := dbs2[n].(child := Some(x))]
  }

  lemma MovedFront(dbs: seq<Db>, n: nat, front: seq<nat>, x: nat, back: seq<nat>)
    requires n < |dbs| && |front| > 0 && front[0] == n
    requires Distinct(front + [x] + back) && Linked(dbs, front + [x] + back)
    ensures front[|front| - 1] < |dbs| && x < |dbs|
    ensures Linked(Moved(dbs, n, front[|front| - 1], x), front + back)
  {
    var list, list' := front + [x] + back, front + back;
    var f := |front|;
    assert list[f - 1] == front[f - 1] && list[f] == x && list[0] == n;
    var dbs' := Moved(dbs, n, front[f - 1], x);
    forall i | 0 <= i < |list'|
      ensures list'[i] < |dbs'| && dbs'[list'[i]].sibling == NextIn(list', i)
    {
      var i0 := if i < f then i else i + 1;
      assert list'[i] == list[i0] && list'[i] != x;
      assert i != f - 1 ==> list'[i] != front[f - 1] && NextIn(list', i) == NextIn(list, i0);
    }
  }

  lemma MovedAdopted(dbs: seq<Db>, n: nat, at: nat, x: nat, adopted: seq<nat>)
    requires n < |dbs| && at < |dbs| && x < |dbs| && n != x && at != x
    requires Linked(dbs, adopted) && dbs[n].child == Head(adopted)
    requires n !in adopted && at !in adopted && x !in adopted
    ensures Linked(Moved(dbs, n, at, x), [x] + adopted)
  {
    var dbs' := Moved(dbs, n, at, x);
    var adopted' := [x] + adopted;
    forall i | 0 <= i < |adopted'|
      ensures adopted'[i] < |dbs'| && dbs'[adopted'[i]].sibling == NextIn(adopted', i)
    {
      if i > 0 {
        assert adopted'[i] == adopted[i - 1] && NextIn(adopted', i) == NextIn(adopted, i - 1);
      }
    }
  }

  /** How the children of one place are divided: those the new database adopts, and the rest. */
  ghost predicate Divides(dbs: seq<Db>, q: string, list: seq<nat>, kept: seq<nat>, adopted: seq<nat>) {
    && Distinct(kept) && Distinct(adopted)
    && (forall x :: x in kept <==> x in list && !(x < |dbs| && q <= dbs[x].context && |q| < |dbs[x].context|))
    && (forall x :: x in adopted <==> x in list && x < |dbs| && q <= dbs[x].context && |q| < |dbs[x].context|)
  }

  /** The first j of the new database's siblings have been looked at. */
  ghost predicate Adopting(dbs0: seq<Db>, dbs: seq<Db>, n: nat, q: string, list: seq<nat>, j: nat, kept: seq<nat>, adopted: seq<nat>) {
    && j <= |list| && n < |dbs|
    && OthersKept(dbs0, dbs, [n] + list)
    && Divides(dbs, q, list[..j], kept, adopted)
    && Distinct([n] + list)
    && Distinct([n] + kept + list[j..]) && Linked(dbs, [n] + kept + list[j..])
    && Linked(dbs, adopted) && dbs[n].child == Head(adopted) && dbs[n].parent == dbs0[n].parent
    && Retained(dbs0, dbs, kept + list[j..]) && Reparented(dbs0, dbs, adopted, n)
  }

  ghost predicate Retained(dbs0: seq<Db>, dbs: seq<Db>, list: seq<nat>)
    requires |dbs0| == |dbs|
  {
    forall x :: x in list ==> x < |dbs| && dbs[x].parent == dbs0[x].parent && dbs[x].child == dbs0[x].child
  }

  ghost predicate Reparented(dbs0: seq<Db>, dbs: seq<Db>, list: seq<nat>, n: nat)
    requires |dbs0| == |dbs|
  {
    forall x :: x in list ==> x < |dbs| && dbs[x].parent == Some(n) && dbs[x].child == dbs0[x].child
  }

  lemma AdoptStart(dbs: seq<Db>, n: nat, q: string, list: seq<nat>)
    requires n < |dbs| && dbs[n].child.None?
    requires Distinct([n] + list) && Linked(dbs, [n] + list)
    ensures Adopting(dbs, dbs, n, q, list, 0, [], [])
  {
    hide Linked, Distinct;
    assert [n] + [] + list[0..] == [n] + list;
    assert [] + list[0..] == list;
    assert list[..0] == [];
    LinkedBelow(dbs, n, list);
    LinkedNone(dbs);
  }

  lemma LinkedNone(dbs: seq<Db>)
    ensures Linked(dbs, []) && Distinct([])
  {}

  lemma LinkedBelow(dbs: seq<Db>, n: nat, list: seq<nat>)
    requires Linked(dbs, [n] + list)
    ensures forall x :: x in list ==> x < |dbs|
  {
    forall x | x in list
      ensures x < |dbs|
    {
      var i :| 0 <= i < |list| && list[i] == x;
      assert ([n] + list)[i + 1] == x;
    }
  }

  /** Where the loop stands: the link it looks at leads to the first sibling not yet looked at. */
  lemma AdoptHere(dbs0: seq<Db>, dbs: seq<Db>, n: nat, q: string, list: seq<nat>, j: nat, kept: seq<nat>, adopted: seq<nat>)
    requires Adopting(dbs0, dbs, n, q, list, j, kept, adopted)
    ensures var at := ([n] + kept)[|kept|];
            at < |dbs| && dbs[at].sibling == if j < |list| then Some(list[j]) else None
    ensures n < |dbs| && (j < |list| ==> list[j] < |dbs|)
  {
    var whole := [n] + kept + list[j..];
    assert whole[|kept|] == ([n] + kept)[|kept|];
    if j < |list| {
      assert whole[|kept| + 1] == list[j];
    }
  }

  lemma DistinctParts(n: nat, list: seq<nat>, j: nat)
    requires Distinct([n] + list) && j < |list|
    ensures n !in list && list[j] !in list[..j] && list[j] != n
  {
    var whole := [n] + list;
    forall i | 0 <= i < |list|
      ensures list[i] != n && (i < j ==> list[i] != list[j])
    {
      assert whole[0] == n && whole[i + 1] == list[i] && whole[j + 1] == list[j];
    }
  }

  lemma DistinctWithout(front: seq<nat>, x: nat, back: seq<nat>)
    requires Distinct(front + [x] + back)
    ensures Distinct(front + back)
  {
    var list, list' := front + [x] + back, front + back;
    forall i, j | 0 <= i < j < |list'|
      ensures list'[i] != list'[j]
    {
      var i0, j0 := if i < |front| then i else i + 1, if j < |front| then j else j + 1;
      assert list'[i] == list[i0] && list'[j] == list[j0];
    }
  }

  lemma DivideMore(dbs: seq<Db>, q: string, done: seq<nat>, x: nat, kept: seq<nat>, adopted: seq<nat>)
    requires Divides(dbs, q, done, kept, adopted) && x !in done && x < |dbs|
    ensures if q <= dbs[x].context && |q| < |dbs[x].context| then Divides(dbs, q, done + [x], kept, [x] + adopted)
            else Divides(dbs, q, done + [x], kept + [x], adopted)
  {}

  lemma DividesAlike(dbs: seq<Db>, dbs': seq<Db>, q: string, list: seq<nat>, kept: seq<nat>, adopted: seq<nat>)
    requires Divides(dbs, q, list, kept, adopted) && |dbs'| == |dbs|
    requires forall x: nat :: x < |dbs| ==> dbs'[x].context == dbs[x].context
    ensures Divides(dbs', q, list, kept, adopted)
  {}

  lemma AdoptTake(dbs0: seq<Db>, dbs: seq<Db>, n: nat, q: string, list: seq<nat>, j: nat, kept: seq<nat>, adopted: seq<nat>)
    requires Adopting(dbs0, dbs, n, q, list, j, kept, adopted) && j < |list| && list[j] < |dbs|
    requires |q| < |dbs[list[j]].context| && q <= dbs[list[j]].context && ([n] + kept)[|kept|] < |dbs|
    ensures Adopting(dbs0, Moved(dbs, n, ([n] + kept)[|kept|], list[j]), n, q, list, j + 1, kept, [list[j]] + adopted)
  {
    hide Linked, Divides, Distinct, Adopts;
    var front, x, back := [n] + kept, list[j], list[j + 1..];
    var at := front[|kept|];
    assert front + [x] + back == [n] + kept + list[j..];
    MovedFront(dbs, n, front, x, back);
    DistinctWithout(front, x, back);
    DistinctParts(n, list, j);
    TakeApart(dbs, n, q, list, j, kept, adopted);
    MovedAdopted(dbs, n, at, x, adopted);
    var dbs' := Moved(dbs, n, at, x);
    DivideMore(dbs, q, list[..j], x, kept, adopted);
    assert list[..j] + [x] == list[..j + 1];
    DividesAlike(dbs, dbs', q, list[..j + 1], kept, [x] + adopted);
    assert x !in back && n !in back by { DistinctBack(n, list, j); }
    TakeFields(dbs0, dbs, n, q, list, j, kept, adopted);
  }

  lemma DistinctBack(n: nat, list: seq<nat>, j: nat)
    requires Distinct([n] + list) && j < |list|
    ensures n !in list[j + 1..] && list[j] !in list[j + 1..]
  {
    var whole := [n] + list;
    forall i | j < i < |list|
      ensures list[i] != n && list[i] != list[j]
    {
      assert whole[0] == n && whole[i + 1] == list[i] && whole[j + 1] == list[j];
    }
  }

  lemma TakeApart(dbs: seq<Db>, n: nat, q: string, list: seq<nat>, j: nat, kept: seq<nat>, adopted: seq<nat>)
    requires Distinct([n] + list) && j < |list| && Divides(dbs, q, list[..j], kept, adopted)
    ensures n !in adopted && list[j] !in adopted && n !in kept && list[j] !in kept
    ensures ([n] + kept)[|kept|] !in adopted && ([n] + kept)[|kept|] != list[j]
    ensures forall x :: x in kept ==> x !in adopted
  {
    DistinctParts(n, list, j);
  }

  lemma TakeFields(dbs0: seq<Db>, dbs: seq<Db>, n: nat, q: string, list: seq<nat>, j: nat, kept: seq<nat>, adopted: seq<nat>)
    requires Adopting(dbs0, dbs, n, q, list, j, kept, adopted) && j < |list| && list[j] < |dbs|
    requires ([n] + kept)[|kept|] < |dbs|
    ensures var dbs' := Moved(dbs, n, ([n] + kept)[|kept|], list[j]);
            && OthersKept(dbs0, dbs', [n] + list)
            && Retained(dbs0, dbs', kept + list[j + 1..]) && Reparented(dbs0, dbs', [list[j]] + adopted, n)
            && dbs'[n].child == Some(list[j]) && dbs'[n].parent == dbs0[n].parent
  {
    hide Linked, Distinct, Retained, Reparented;
    var x, at := list[j], ([n] + kept)[|kept|];
    TakeApart(dbs, n, q, list, j, kept, adopted);
    DistinctParts(n, list, j);
    DistinctBack(n, list, j);
    assert kept + list[j..] == kept + [x] + list[j + 1..];
    MovedRetains(dbs0, dbs, n, at, kept, x, list[j + 1..]);
    MovedReparents(dbs0, dbs, n, at, x, adopted);
    assert at in [n] + list;
  }

  lemma MovedRetains(dbs0: seq<Db>, dbs: seq<Db>, n: nat, at: nat, front: seq<nat>, x: nat, back: seq<nat>)
    requires n < |dbs| && at < |dbs| && |dbs0| == |dbs| && Retained(dbs0, dbs, front + [x] + back)
    requires n !in front && n !in back && x !in front && x !in back && n != x
    ensures x < |dbs| && dbs[x].child == dbs0[x].child
    ensures Retained(dbs0, Moved(dbs, n, at, x), front + back)
  {
    assert x in front + [x] + back;
    forall y | y in front + back
      ensures y in front + [x] + back && y != x && y != n
    {}
  }

  lemma MovedReparents(dbs0: seq<Db>, dbs: seq<Db>, n: nat, at: nat, x: nat, adopted: seq<nat>)
    requires n < |dbs| && at < |dbs| && x < |dbs| && |dbs0| == |dbs| && Reparented(dbs0, dbs, adopted, n)
    requires n !in adopted && n != x && dbs[x].child == dbs0[x].child
    ensures Reparented(dbs0, Moved(dbs, n, at, x), [x] + adopted, n)
  {
    forall y | y in [x] + adopted
      ensures (y == x || y in adopted) && y != n
    {}
  }

  lemma AdoptPass(dbs0: seq<Db>, dbs: seq<Db>, n: nat, q: string, list: seq<nat>, j: nat, kept: seq<nat>, adopted: seq<nat>)
    requires Adopting(dbs0, dbs, n, q, list, j, kept, adopted) && j < |list| && list[j] < |dbs|
    requires !(|q| < |dbs[list[j]].context| && q <= dbs[list[j]].context)
    ensures Adopting(dbs0, dbs, n, q, list, j + 1, kept + [list[j]], adopted)
  {
    hide Linked, Divides, Distinct, OthersKept;
    var x := list[j];
    DistinctParts(n, list, j);
    DivideMore(dbs, q, list[..j], x, kept, adopted);
    assert list[..j] + [x] == list[..j + 1];
    assert [n] + (kept + [x]) + list[j + 1..] == [n] + kept + list[j..];
    assert kept + [x] + list[j + 1..] == kept + list[j..];
  }

  // ---- an install as a whole ----------------------------------------------

  /** The new database, its place's children divided between it and its siblings. */
  ghost predicate Joined(dbs: seq<Db>, dbs': seq<Db>, t: nat, q: string, c: Option<nat>, list: seq<nat>, kept: seq<nat>, adopted: seq<nat>) {
    var n := |dbs|;
    && |dbs'| == n + 1
    && (forall x :: 0 <= x < n ==> dbs'[x].dbtype == dbs[x].dbtype && dbs'[x].context == dbs[x].context)
    && (forall x :: 0 <= x < n && x !in list ==> dbs'[x].parent == dbs[x].parent && dbs'[x].sibling == dbs[x].sibling)
    && (forall x :: 0 <= x < n ==> dbs'[x].child == if c == Some(x) then Some(n) else dbs[x].child)
    && (forall x :: x in kept ==> x < n && dbs'[x].parent == dbs[x].parent)
    && (forall x :: x in adopted ==> x < n && dbs'[x].parent == Some(n))
    && dbs'[n].dbtype == t && dbs'[n].context == q && dbs'[n].parent == c && dbs'[n].child == Head(adopted)
    && Linked(dbs', [n] + kept) && Linked(dbs', adopted)
    && Divides(dbs, q, list, kept, adopted)
  }

  function KidsAfter(kids: map<Place, seq<nat>>, place: Place, n: nat, kept: seq<nat>, adopted: seq<nat>): map<Place, seq<nat>> {
    kids[place := [n] + kept][Under(n) := adopted]
  }

  lemma JoinedAdded(dbs: seq<Db>, dbs': seq<Db>, kids: map<Place, seq<nat>>, t: nat, q: string, c: Option<nat>, kept: seq<nat>, adopted: seq<nat>)
    requires Listed(dbs, kids) && Joined(dbs, dbs', t, q, c, KidsAt(kids, PlaceAfter(t, c)), kept, adopted)
    ensures Added(dbs, dbs', t, q, c)
  {
    var list := KidsAt(kids, PlaceAfter(t, c));
    hide Linked, Distinct;
    forall n | 0 <= n < |dbs|
      ensures dbs'[n].parent == if Adopts(dbs[n], t, q, c) then Some(|dbs|) else dbs[n].parent
    {
      assert n in list <==> PlaceOf(dbs[n]) == PlaceAfter(t, c);
    }
  }

  lemma NotYetPlaced(dbs: seq<Db>, kids: map<Place, seq<nat>>)
    requires Canonical(dbs) && Listed(dbs, kids)
    ensures KidsAt(kids, Under(|dbs|)) == []
  {
    var list := KidsAt(kids, Under(|dbs|));
    if list != [] {
      KidFacts(dbs, kids, Under(|dbs|), 0);
      ParentExtended(dbs, list[0]);
    }
  }

  lemma JoinedMembers(dbs: seq<Db>, dbs': seq<Db>, kids: map<Place, seq<nat>>, t: nat, q: string, c: Option<nat>, kept: seq<nat>, adopted: seq<nat>, p: Place, n: nat)
    requires Canonical(dbs) && Listed(dbs, kids) && (c.Some? ==> c.value < |dbs|)
    requires Joined(dbs, dbs', t, q, c, KidsAt(kids, PlaceAfter(t, c)), kept, adopted)
    ensures n in KidsAt(KidsAfter(kids, PlaceAfter(t, c), |dbs|, kept, adopted), p) <==> n < |dbs'| && PlaceOf(dbs'[n]) == p
  {
    hide Linked, Distinct;
    var place, list := PlaceAfter(t, c), KidsAt(kids, PlaceAfter(t, c));
    var kids' := KidsAfter(kids, place, |dbs|, kept, adopted);
    NotYetPlaced(dbs, kids);
    assert n in list <==> n < |dbs| && PlaceOf(dbs[n]) == place;
    assert n in list <==> n in kept || n in adopted;
    assert n in KidsAt(kids, p) <==> n < |dbs| && PlaceOf(dbs[n]) == p;
    if n < |dbs| && n !in list {
      assert PlaceOf(dbs'[n]) == PlaceOf(dbs[n]);
      assert PlaceOf(dbs[n]) != Under(|dbs|) by {
        assert n !in KidsAt(kids, Under(|dbs|));
      }
    }
  }

  lemma JoinedListed(dbs: seq<Db>, dbs': seq<Db>, kids: map<Place, seq<nat>>, t: nat, q: string, c: Option<nat>, kept: seq<nat>, adopted: seq<nat>)
    requires Canonical(dbs) && Listed(dbs, kids) && (c.Some? ==> c.value < |dbs|)
    requires Joined(dbs, dbs', t, q, c, KidsAt(kids, PlaceAfter(t, c)), kept, adopted)
    ensures Listed(dbs', KidsAfter(kids, PlaceAfter(t, c), |dbs|, kept, adopted))
  {
    hide Canonical, Divides, PlaceOf;
    var place := PlaceAfter(t, c);
    var kids' := KidsAfter(kids, place, |dbs|, kept, adopted);
    forall p, n: nat
      ensures n in KidsAt(kids', p) <==> n < |dbs'| && PlaceOf(dbs'[n]) == p
    {
      JoinedMembers(dbs, dbs', kids, t, q, c, kept, adopted, p, n);
    }
    forall p
      ensures Distinct(KidsAt(kids', p)) && Linked(dbs', KidsAt(kids', p))
    {
      JoinedLinks(dbs, dbs', kids, t, q, c, kept, adopted, p);
    }
  }

  lemma JoinedLinks(dbs: seq<Db>, dbs': seq<Db>, kids: map<Place, seq<nat>>, t: nat, q: string, c: Option<nat>, kept: seq<nat>, adopted: seq<nat>, p: Place)
    requires Listed(dbs, kids)
    requires Joined(dbs, dbs', t, q, c, KidsAt(kids, PlaceAfter(t, c)), kept, adopted)
    ensures var list' := KidsAt(KidsAfter(kids, PlaceAfter(t, c), |dbs|, kept, adopted), p);
            Distinct(list') && Linked(dbs', list')
  {
    var place := PlaceAfter(t, c);
    if p != place && p != Under(|dbs|) {
      assert forall x: nat :: x in KidsAt(kids, p) ==> x !in KidsAt(kids, place);
      assert Linked(dbs, KidsAt(kids, p));
      LinkedKept(dbs, dbs', KidsAt(kids, p));
    }
  }

  lemma JoinedChilded(dbs: seq<Db>, dbs': seq<Db>, kids: map<Place, seq<nat>>, t: nat, q: string, c: Option<nat>, kept: seq<nat>, adopted: seq<nat>)
    requires Childed(dbs, kids) && (c.Some? ==> c.value < |dbs|)
    requires Joined(dbs, dbs', t, q, c, KidsAt(kids, PlaceAfter(t, c)), kept, adopted)
    ensures Childed(dbs', KidsAfter(kids, PlaceAfter(t, c), |dbs|, kept, adopted))
  {
    hide Linked, Distinct, Divides;
  }

  /** What an install does to the vector of roots. */
  ghost predicate RootsAfter(dbs: seq<Db>, roots: seq<nat>, roots': seq<nat>, t: nat, c: Option<nat>, m: nat) {
    if c.Some? then roots' == roots
    else if m < |roots| && roots[m] < |dbs| && dbs[roots[m]].dbtype == t then roots' == roots[m := |dbs|]
    else
      && m <= |roots| && roots' == roots[..m] + [|dbs|] + roots[m..]
      && (forall k :: 0 <= k < |roots| ==> roots[k] < |dbs| && dbs[roots[k]].dbtype != t && (dbs[roots[k]].dbtype < t <==> k < m))
  }

  lemma SortedAfter(dbs: seq<Db>, dbs': seq<Db>, roots: seq<nat>, roots': seq<nat>, t: nat, c: Option<nat>, m: nat)
    requires RootsSorted(dbs, roots) && RootsAfter(dbs, roots, roots', t, c, m)
    requires |dbs'| == |dbs| + 1 && dbs'[|dbs|].dbtype == t
    requires forall x :: 0 <= x < |dbs| ==> dbs'[x].dbtype == dbs[x].dbtype
    ensures RootsSorted(dbs', roots')
    ensures forall k :: 0 <= k < |roots'| ==> roots'[k] == |dbs| || (roots'[k] in roots && (c.None? ==> dbs[roots'[k]].dbtype != t))
  {
    if c.None? && |roots'| == |roots| + 1 {
      assert forall k :: 0 <= k < |roots'| ==> roots'[k] == if k < m then roots[k] else if k == m then |dbs| else roots[k - 1];
    }
  }

  lemma RootsStay(dbs: seq<Db>, dbs': seq<Db>, roots: seq<nat>, roots': seq<nat>, t: nat, c: Option<nat>, m: nat)
    requires RootsSorted(dbs, roots) && RootsAfter(dbs, roots, roots', t, c, m)
    requires |dbs'| == |dbs| + 1 && dbs'[|dbs|].dbtype == t
    requires forall x :: 0 <= x < |dbs| ==> dbs'[x].dbtype == dbs[x].dbtype
    ensures c.None? ==> HasRoot(dbs', roots', t)
    ensures forall u :: HasRoot(dbs, roots, u) ==> HasRoot(dbs', roots', u)
  {
    assert c.None? ==> m < |roots'| && roots'[m] == |dbs|;
    forall u | HasRoot(dbs, roots, u)
      ensures HasRoot(dbs', roots', u)
    {
      var k :| 0 <= k < |roots| && roots[k] < |dbs| && dbs[roots[k]].dbtype == u;
      var k' := if |roots'| == |roots| || k < m then k else k + 1;
      assert roots'[k'] == roots[k] || (roots'[k'] == |dbs| && u == t);
    }
  }

  lemma JoinedRooted(dbs: seq<Db>, dbs': seq<Db>, roots: seq<nat>, roots': seq<nat>, kids: map<Place, seq<nat>>, t: nat, q: string, c: Option<nat>, m: nat, kept: seq<nat>, adopted: seq<nat>)
    requires Rooted(dbs, roots, kids) && RootsAfter(dbs, roots, roots', t, c, m)
    requires Joined(dbs, dbs', t, q, c, KidsAt(kids, PlaceAfter(t, c)), kept, adopted)
    requires Listed(dbs, kids)
    ensures Rooted(dbs', roots', KidsAfter(kids, PlaceAfter(t, c), |dbs|, kept, adopted))
  {
    hide Linked, Distinct, RootsSorted, RootsAfter, Listed, HasRoot;
    var kids' := KidsAfter(kids, PlaceAfter(t, c), |dbs|, kept, adopted);
    RootsBounded(dbs, roots);
    SortedAfter(dbs, dbs', roots, roots', t, c, m);
    RootsStay(dbs, dbs', roots, roots', t, c, m);
    RootsBounded(dbs', roots');
    forall k | 0 <= k < |roots'|
      ensures Head(KidsAt(kids', Top(dbs'[roots'[k]].dbtype))) == Some(roots'[k])
    {
      JoinedHead(dbs, dbs', roots, roots', kids, t, q, c, m, kept, adopted, k);
    }
    forall n | 0 <= n < |dbs'| && dbs'[n].parent.None?
      ensures HasRoot(dbs', roots', dbs'[n].dbtype)
    {
      if n < |dbs| {
        if n in KidsAt(kids, PlaceAfter(t, c)) {
          assert n in kept;
        }
        assert dbs[n].parent.None?;
      }
    }
  }

  lemma RootsBounded(dbs: seq<Db>, roots: seq<nat>)
    requires RootsSorted(dbs, roots)
    ensures forall k :: 0 <= k < |roots| ==> roots[k] < |dbs|
  {}

  lemma JoinedHead(dbs: seq<Db>, dbs': seq<Db>, roots: seq<nat>, roots': seq<nat>, kids: map<Place, seq<nat>>, t: nat, q: string, c: Option<nat>, m: nat, kept: seq<nat>, adopted: seq<nat>, k: nat)
    requires Rooted(dbs, roots, kids) && RootsAfter(dbs, roots, roots', t, c, m)
    requires Joined(dbs, dbs', t, q, c, KidsAt(kids, PlaceAfter(t, c)), kept, adopted)
    requires k < |roots'| && roots'[k] < |dbs'|
    ensures Head(KidsAt(KidsAfter(kids, PlaceAfter(t, c), |dbs|, kept, adopted), Top(dbs'[roots'[k]].dbtype))) == Some(roots'[k])
  {
    hide Linked, Distinct, RootsAfter, HasRoot;
    SortedAfter(dbs, dbs', roots, roots', t, c, m);
    RootsBounded(dbs, roots);
    if roots'[k] == |dbs| {
      RootsFresh(dbs, roots, roots', t, c, m, k);
    } else {
      assert roots'[k] in roots;
      var i :| 0 <= i < |roots| && roots[i] == roots'[k];
      assert Head(KidsAt(kids, Top(dbs[roots[i]].dbtype))) == Some(roots[i]);
    }
  }

  lemma RootsFresh(dbs: seq<Db>, roots: seq<nat>, roots': seq<nat>, t: nat, c: Option<nat>, m: nat, k: nat)
    requires RootsSorted(dbs, roots) && RootsAfter(dbs, roots, roots', t, c, m)
    requires k < |roots'| && roots'[k] == |dbs|
    ensures c.None?
  {}

  /** An install that joins its database in this way keeps the forest a forest. */
  lemma JoinedForest(dbs: seq<Db>, dbs': seq<Db>, roots: seq<nat>, roots': seq<nat>, kids: map<Place, seq<nat>>, t: nat, q: string, c: Option<nat>, m: nat, kept: seq<nat>, adopted: seq<nat>)
    requires Forest(dbs, roots, kids) && IsClosest(dbs, t, q, c) && RootsAfter(dbs, roots, roots', t, c, m)
    requires Joined(dbs, dbs', t, q, c, KidsAt(kids, PlaceAfter(t, c)), kept, adopted)
    ensures Forest(dbs', roots', KidsAfter(kids, PlaceAfter(t, c), |dbs|, kept, adopted))
    ensures IsClosest(dbs', t, q, Some(|dbs|))
    ensures |dbs'| == |dbs| + 1 && dbs'[|dbs|].context == q
    ensures Names(dbs') == Names(dbs) + [(t, q)]
  {
    hide Canonical, Listed, Childed, Rooted, Added, RootsAfter, Linked, Divides, Distinct;
    JoinedAdded(dbs, dbs', kids, t, q, c, kept, adopted);
    AddedCanonical(dbs, dbs', t, q, c);
    JoinedListed(dbs, dbs', kids, t, q, c, kept, adopted);
    JoinedChilded(dbs, dbs', kids, t, q, c, kept, adopted);
    JoinedRooted(dbs, dbs', roots, roots', kids, t, q, c, m, kept, adopted);
  }

  /** Without a list of roots for the type there is nothing of the type. */
  lemma NoRootNoMatch(dbs: seq<Db>, roots: seq<nat>, kids: map<Place, seq<nat>>, t: nat, q: string)
    requires Forest(dbs, roots, kids) && !HasRoot(dbs, roots, t)
    ensures IsClosest(dbs, t, q, None)
    ensures (t, q) !in Names(dbs)
    ensures KidsAt(kids, Top(t)) == []
  {
    forall m: nat | m < |dbs|
      ensures dbs[m].dbtype != t
    {
      var root := RootAbove(dbs, m);
    }
    if KidsAt(kids, Top(t)) != [] {
      KidFacts(dbs, kids, Top(t), 0);
    }
  }

  lemma ClosestNames(dbs: seq<Db>, t: nat, q: string, c: Option<nat>)
    requires IsClosest(dbs, t, q, c)
    ensures c.Some? ==> c.value < |dbs|
    ensures c.Some? && dbs[c.value].context == q <==> (t, q) in Names(dbs)
  {
    if (t, q) in Names(dbs) {
      var i :| 0 <= i < |dbs| && Names(dbs)[i] == (t, q);
      assert Matches(dbs, i, t, q);
    } else if c.Some? {
      assert Names(dbs)[c.value] == (dbs[c.value].dbtype, dbs[c.value].context);
    }
  }

  lemma FirstOfType(dbs: seq<Db>, roots: seq<nat>, kids: map<Place, seq<nat>>, t: nat, q: string, m: nat)
    requires Forest(dbs, roots, kids) && IsClosest(dbs, t, q, None) && !HasRoot(dbs, roots, t) && m <= |roots|
    requires forall k :: 0 <= k < |roots| ==> roots[k] < |dbs| && (dbs[roots[k]].dbtype < t <==> k < m)
    requires KidsAt(kids, Top(t)) == []
    ensures var dbs', roots' := dbs + [Db(t, q, None, None, None)], roots[..m] + [|dbs|] + roots[m..];
            Forest(dbs', roots', KidsAfter(kids, Top(t), |dbs|, [], [])) && IsClosest(dbs', t, q, Some(|dbs|))
            && Names(dbs') == Names(dbs) + [(t, q)]
  {
    hide Forest, IsClosest;
    var dbs', roots' := dbs + [Db(t, q, None, None, None)], roots[..m] + [|dbs|] + roots[m..];
    assert [|dbs|] + [] == [|dbs|];
    assert Joined(dbs, dbs', t, q, None, [], [], []);
    assert RootsAfter(dbs, roots, roots', t, None, m);
    JoinedForest(dbs, dbs', roots, roots', kids, t, q, None, m, [], []);
  }

  /** The link that an install puts its database behind. */
  lemma PlaceHead(dbs: seq<Db>, roots: seq<nat>, kids: map<Place, seq<nat>>, t: nat, q: string, c: Option<nat>, m: nat)
    requires Forest(dbs, roots, kids) && IsClosest(dbs, t, q, c)
    requires m < |roots| && roots[m] < |dbs| && dbs[roots[m]].dbtype == t
    ensures c.Some? ==> c.value < |dbs|
    ensures Head(KidsAt(kids, PlaceAfter(t, c))) == if c.Some? then dbs[c.value].child else Some(roots[m])
  {
    RootFacts(dbs, roots, kids, m);
  }

  /** The new database in front of its parent's children. */
  lemma Hooked(dbs: seq<Db>, roots: seq<nat>, kids: map<Place, seq<nat>>, t: nat, q: string, c: Option<nat>)
    requires Forest(dbs, roots, kids) && (c.Some? ==> c.value < |dbs|)
    ensures Distinct([|dbs|] + KidsAt(kids, PlaceAfter(t, c)))
    ensures Linked(WithHooked(dbs, kids, t, q, c), [|dbs|] + KidsAt(kids, PlaceAfter(t, c)))
  {
    hide Canonical, Childed, Rooted, Linked, Distinct;
    var list, n, dbs' := KidsAt(kids, PlaceAfter(t, c)), |dbs|, WithHooked(dbs, kids, t, q, c);
    assert Distinct(list) && Linked(dbs, list);
    ListBelow(dbs, kids, PlaceAfter(t, c));
    LinkedKept(dbs, dbs', list);
    InFront(dbs', n, list);
  }

  lemma InFront(dbs: seq<Db>, n: nat, list: seq<nat>)
    requires n < |dbs| && n !in list && Distinct(list) && Linked(dbs, list) && dbs[n].sibling == Head(list)
    ensures Distinct([n] + list) && Linked(dbs, [n] + list)
  {
    forall i | 0 <= i < |list| + 1
      ensures ([n] + list)[i] < |dbs| && dbs[([n] + list)[i]].sibling == NextIn([n] + list, i)
    {
      if i > 0 {
        assert NextIn([n] + list, i) == NextIn(list, i - 1);
      }
    }
  }

  function WithHooked(dbs: seq<Db>, kids: map<Place, seq<nat>>, t: nat, q: string, c: Option<nat>): (r: seq<Db>)
    requires c.Some? ==> c.value < |dbs|
    ensures |r| == |dbs| + 1 && r[|dbs|].child.None?
  {
    var grown := dbs + [Db(t, q, c, Head(KidsAt(kids, PlaceAfter(t, c))), None)];
    if c.Some? then grown[c.value := grown[c.value].(child := Some(|dbs|))] else grown
  }

  lemma AdoptedJoined(dbs: seq<Db>, roots: seq<nat>, dbs1: seq<Db>, dbs': seq<Db>, t: nat, q: string, c: Option<nat>, kids: map<Place, seq<nat>>, kept: seq<nat>, adopted: seq<nat>)
    requires Forest(dbs, roots, kids) && (c.Some? ==> c.value < |dbs|) && dbs1 == WithHooked(dbs, kids, t, q, c)
    requires var list := KidsAt(kids, PlaceAfter(t, c)); Adopting(dbs1, dbs', |dbs|, q, list, |list|, kept, adopted)
    ensures Joined(dbs, dbs', t, q, c, KidsAt(kids, PlaceAfter(t, c)), kept, adopted)
  {
    hide Linked, Distinct, Listed, Canonical, Childed, Rooted;
    var n, list := |dbs|, KidsAt(kids, PlaceAfter(t, c));
    ListBelow(dbs, kids, PlaceAfter(t, c));
    assert list[..|list|] == list && list[|list|..] == [];
    assert [n] + kept + [] == [n] + kept && kept + [] == kept;
    AdoptedFields(dbs1, dbs', n, q, list, kept, adopted);
    DividesBelow(dbs, dbs', q, list, kept, adopted);
  }

  lemma ListBelow(dbs: seq<Db>, kids: map<Place, seq<nat>>, p: Place)
    requires Listed(dbs, kids)
    ensures forall x :: x in KidsAt(kids, p) ==> x < |dbs|
  {
    forall x | x in KidsAt(kids, p)
      ensures x < |dbs|
    {
      var j :| 0 <= j < |KidsAt(kids, p)| && KidsAt(kids, p)[j] == x;
      KidFacts(dbs, kids, p, j);
    }
  }

  lemma DividesBelow(dbs: seq<Db>, dbs': seq<Db>, q: string, list: seq<nat>, kept: seq<nat>, adopted: seq<nat>)
    requires Divides(dbs', q, list, kept, adopted) && |dbs'| > |dbs|
    requires forall x :: x in list ==> x < |dbs| && dbs'[x].context == dbs[x].context
    ensures Divides(dbs, q, list, kept, adopted)
  {
    hide Distinct;
  }

  /** What the adopting loop leaves in every database but the new one. */
  lemma AdoptedFields(dbs: seq<Db>, dbs': seq<Db>, n: nat, q: string, list: seq<nat>, kept: seq<nat>, adopted: seq<nat>)
    requires Adopting(dbs, dbs', n, q, list, |list|, kept, adopted)
    ensures |dbs'| == |dbs| && n < |dbs| && dbs'[n].parent == dbs[n].parent && dbs'[n].child == Head(adopted)
    ensures forall x: nat :: x < |dbs| && x != n ==> dbs'[x].child == dbs[x].child
    ensures forall x :: x in kept ==> x < |dbs| && dbs'[x].parent == dbs[x].parent
    ensures forall x :: x in adopted ==> x < |dbs| && dbs'[x].parent == Some(n)
    ensures forall x: nat :: x < |dbs| && x != n && x !in list ==> dbs'[x] == dbs[x]
  {
    hide Linked, Distinct;
    assert list[..|list|] == list && list[|list|..] == [];
    assert kept + [] == kept;
    forall x: nat | x < |dbs| && x != n
      ensures dbs'[x].child == dbs[x].child
    {
      assert x in list ==> x in kept || x in adopted;
    }
  }

  lemma RootsReplaced(dbs: seq<Db>, roots: seq<nat>, roots': seq<nat>, t: nat, c: Option<nat>, m: nat)
    requires m < |roots| && roots[m] < |dbs| && dbs[roots[m]].dbtype == t
    requires roots' == if c.Some? then roots else roots[m := |dbs|]
    ensures RootsAfter(dbs, roots, roots', t, c, m)
  {}

  // ---- a second database for a context ------------------------------------

  lemma NamesLength(dbs: seq<Db>)
    ensures |Names(dbs)| == |dbs|
  {}

  lemma ChildLink(dbs: seq<Db>, roots: seq<nat>, kids: map<Place, seq<nat>>, c: nat)
    requires Forest(dbs, roots, kids) && c < |dbs|
    ensures dbs[c].child == Head(KidsAt(kids, Under(c)))
  {}

  /** Below the last database of a context everything is strictly longer. */
  lemma ChainKids(dbs: seq<Db>, roots: seq<nat>, kids: map<Place, seq<nat>>, t: nat, q: string, c: nat)
    requires Forest(dbs, roots, kids) && IsClosest(dbs, t, q, Some(c)) && dbs[c].context == q
    ensures forall x :: x in KidsAt(kids, Under(c)) ==> x < |dbs| && q <= dbs[x].context && |q| < |dbs[x].context|
  {
    hide Childed, Rooted, Listed;
    var list := KidsAt(kids, Under(c));
    forall x | x in list
      ensures x < |dbs| && q <= dbs[x].context && |q| < |dbs[x].context|
    {
      var j :| 0 <= j < |list| && list[j] == x;
      KidFacts(dbs, kids, Under(c), j);
      ParentExtended(dbs, x);
      assert |dbs[x].context| == |q| ==> Matches(dbs, x, t, q);
    }
  }

  /** The first j members of the list have been given the new parent. */
  ghost predicate Reparenting(dbs1: seq<Db>, dbs: seq<Db>, n: nat, list: seq<nat>, j: nat) {
    && |dbs| == |dbs1| && j <= |list| && Linked(dbs1, list)
    && (forall x :: 0 <= x < |dbs1| ==> dbs[x] == dbs1[x].(parent := if x in list[..j] then Some(n) else dbs1[x].parent))
  }

  lemma ReparentStart(dbs1: seq<Db>, n: nat, list: seq<nat>)
    requires Linked(dbs1, list)
    ensures Reparenting(dbs1, dbs1, n, list, 0)
  {}

  lemma ReparentNext(dbs1: seq<Db>, dbs: seq<Db>, n: nat, list: seq<nat>, j: nat)
    requires Reparenting(dbs1, dbs, n, list, j) && j < |list|
    ensures list[j] < |dbs| && dbs[list[j]].sibling == NextIn(list, j)
    ensures Reparenting(dbs1, dbs[list[j] := dbs[list[j]].(parent := Some(n))], n, list, j + 1)
  {
    assert list[..j + 1] == list[..j] + [list[j]];
  }

  /** The new database between c and its children. */
  function Between(dbs: seq<Db>, t: nat, q: string, c: nat): seq<Db>
    requires c < |dbs|
  {
    var grown := dbs + [Db(t, q, Some(c), None, dbs[c].child)];
    grown[c := grown[c].(child := Some(|dbs|))]
  }

  lemma BetweenLinked(dbs: seq<Db>, roots: seq<nat>, kids: map<Place, seq<nat>>, t: nat, q: string, c: nat)
    requires Forest(dbs, roots, kids) && c < |dbs|
    ensures Linked(Between(dbs, t, q, c), KidsAt(kids, Under(c)))
  {
    hide Canonical, Childed, Rooted;
    assert Linked(dbs, KidsAt(kids, Under(c)));
    LinkedKept(dbs, Between(dbs, t, q, c), KidsAt(kids, Under(c)));
  }

  lemma ReparentedJoined(dbs: seq<Db>, roots: seq<nat>, kids: map<Place, seq<nat>>, dbs1: seq<Db>, dbs': seq<Db>, t: nat, q: string, c: nat)
    requires Forest(dbs, roots, kids) && IsClosest(dbs, t, q, Some(c)) && dbs[c].context == q
    requires dbs1 == Between(dbs, t, q, c)
    requires var list := KidsAt(kids, Under(c)); Reparenting(dbs1, dbs', |dbs|, list, |list|)
    ensures var list := KidsAt(kids, Under(c)); Joined(dbs, dbs', t, q, Some(c), list, [], list)
  {
    hide Canonical, Childed, Rooted, Listed, Linked, IsClosest, Distinct;
    var list := KidsAt(kids, Under(c));
    assert list[..|list|] == list;
    ClosestNames(dbs, t, q, Some(c));
    ChainKids(dbs, roots, kids, t, q, c);
    ChildLink(dbs, roots, kids, c);
    KidsDistinct(dbs, kids, Under(c));
    LinkedKept(dbs1, dbs', list);
    LinkedAlone(dbs', |dbs|);
    assert [|dbs|] + [] == [|dbs|];
  }

  lemma KidsDistinct(dbs: seq<Db>, kids: map<Place, seq<nat>>, p: Place)
    requires Listed(dbs, kids)
    ensures Distinct(KidsAt(kids, p)) && Distinct([])
  {}

  lemma LinkedAlone(dbs: seq<Db>, n: nat)
    requires n < |dbs| && dbs[n].sibling.None?
    ensures Linked(dbs, [n])
  {}

  lemma RootsKept(dbs: seq<Db>, roots: seq<nat>, t: nat, c: nat)
    ensures RootsAfter(dbs, roots, roots, t, Some(c), 0)
  {}

  // ---- asking -------------------------------------------------------------

  /** The answer is that of the most specific matching database that has one. */
  ghost predicate IsAnswer<V>(dbs: seq<Db>, t: nat, q: string, ask: nat -> Option<V>, answer: Option<V>) {
    if answer.None? then forall m :: Matches(dbs, m, t, q) ==> ask(m).None?
    else exists n :: Answers(dbs, t, q, ask, n) && ask(n) == answer
  }

  ghost predicate Answers<V>(dbs: seq<Db>, t: nat, q: string, ask: nat -> Option<V>, n: nat) {
    && Matches(dbs, n, t, q) && ask(n).Some?
    && (forall m :: Matches(dbs, m, t, q) && ask(m).Some? ==> NoDeeper(dbs, m, n))
  }

  /** Every matching database more specific than db has been asked in vain. */
  ghost predicate AskedBelow<V>(dbs: seq<Db>, t: nat, q: string, ask: nat -> Option<V>, db: Option<nat>) {
    && (db.Some? ==> Matches(dbs, db.value, t, q))
    && (forall m :: Matches(dbs, m, t, q) && (db.None? || !NoDeeper(dbs, m, db.value)) ==> ask(m).None?)
  }

  lemma NothingAsked<V>(dbs: seq<Db>, t: nat, q: string, ask: nat -> Option<V>, c: Option<nat>)
    requires IsClosest(dbs, t, q, c)
    ensures AskedBelow(dbs, t, q, ask, c) && (c.Some? ==> c.value < |dbs|)
  {}

  lemma AnswerFound<V>(dbs: seq<Db>, t: nat, q: string, ask: nat -> Option<V>, n: nat)
    requires AskedBelow(dbs, t, q, ask, Some(n)) && ask(n).Some?
    ensures IsAnswer(dbs, t, q, ask, ask(n))
  {
    assert Answers(dbs, t, q, ask, n);
  }

  lemma NoAnswer<V>(dbs: seq<Db>, t: nat, q: string, ask: nat -> Option<V>)
    requires AskedBelow(dbs, t, q, ask, None)
    ensures IsAnswer(dbs, t, q, ask, None)
  {}

  /** context_parent() is the next most specific match: nothing lies between. */
  lemma AskNext<V>(dbs: seq<Db>, t: nat, q: string, ask: nat -> Option<V>, n: nat)
    requires Canonical(dbs) && AskedBelow(dbs, t, q, ask, Some(n)) && n < |dbs| && ask(n).None?
    ensures AskedBelow(dbs, t, q, ask, dbs[n].parent)
    ensures var p := dbs[n].parent;
            p.Some? ==> p.value < |dbs| && !NoDeeper(dbs, n, p.value)
  {
    var p := dbs[n].parent;
    assert IsParent(dbs, p, n);
    forall m | Matches(dbs, m, t, q) && (p.None? || !NoDeeper(dbs, m, p.value))
      ensures ask(m).None?
    {
      MatchesAreChain(dbs, t, q, m, n);
    }
  }

  /** The names of the forest: what was installed, in order. */
  function Names(dbs: seq<Db>): seq<(nat, string)> {
    seq(|dbs|, i requires 0 <= i < |dbs| => (dbs[i].dbtype, dbs[i].context))
  }

  /** getdb(): the compound element an element belongs to, as a context. */
  function ContextOf(ename: string): (c: string)
    ensures c <= ename && (c != [] ==> c[|c| - 1] == '/')
    ensures '/' !in ename[|c|..]
  {
    var slash := FindRight(ename);
    if slash >= 0 then ename[..slash + 1] else []
  }

  class NameInfo {
    /** _namedbs and _namedb_roots. */
    var dbs: seq<Db>
    var roots: seq<nat>
    ghost var kids: map<Place, seq<nat>>

    ghost predicate Valid()
      reads this
    {
      Forest(dbs, roots, kids)
    }

    constructor ()
      ensures Valid() && dbs == []
    {
      dbs, roots, kids := [], [], map[];
      new;
      assert forall p :: KidsAt(kids, p) == [];
    }

    /** The halving search over types. */
    method FindRoot(t: nat) returns (found: bool, m: nat)
      requires Valid()
      ensures found ==> m < |roots| && roots[m] < |dbs| && dbs[roots[m]].dbtype == t
      ensures !found ==> m <= |roots| && !HasRoot(dbs, roots, t)
      ensures !found ==> forall k :: 0 <= k < |roots| ==> (roots[k] < |dbs| && (dbs[roots[k]].dbtype < t <==> k < m))
    {
      hide Canonical, Listed, Childed;
      assert RootsSorted(dbs, roots);
      var l: nat, r: nat := 0, |roots|;
      while l < r
        invariant l <= r <= |roots|
        invariant forall k :: 0 <= k < l ==> dbs[roots[k]].dbtype < t
        invariant forall k :: r <= k < |roots| ==> dbs[roots[k]].dbtype > t
      {
        m := l + (r - l) / 2;
        if t == dbs[roots[m]].dbtype {
          return true, m;
        } else if t < dbs[roots[m]].dbtype {
          r := m;
        } else {
          l := m + 1;
        }
      }
      return false, l;
    }

    /** The walk: into a database that matches, past one that does not. */
    method Walk(t: nat, m: nat, q: string) returns (closest: Option<nat>)
      requires Valid() && m < |roots| && roots[m] < |dbs| && dbs[roots[m]].dbtype == t
      ensures IsClosest(dbs, t, q, closest)
    {
      hide Canonical, Listed, Childed, Rooted, Above, IsClosest;
      RootFacts(dbs, roots, kids, m);
      var db := Some(roots[m]);
      closest := None;
      ghost var j: nat, list := 0, KidsAt(kids, Top(t));
      while db.Some?
        invariant closest.Some? ==> Matches(dbs, closest.value, t, q)
        invariant list == KidsAt(kids, PlaceAfter(t, closest)) && j <= |list|
        invariant db == if j < |list| then Some(list[j]) else None
        invariant forall k :: 0 <= k < j ==> !Matches(dbs, list[k], t, q)
        decreases if closest.None? then |q| + 1 else |q| - |dbs[closest.value].context|,
                  if closest.None? then 0 else |dbs| - closest.value,
                  |list| - j
      {
        KidFacts(dbs, kids, PlaceAfter(t, closest), j);
        if dbs[db.value].context <= q {
          Descends(t, closest, db.value);
          ChildFacts(dbs, kids, db.value);
          closest := db;
          db := dbs[db.value].child;
          j, list := 0, KidsAt(kids, PlaceAfter(t, closest));
        } else {
          db := dbs[db.value].sibling;
          j := j + 1;
        }
      }
      NoMatchLeft(t, q, closest);
      WalkEnds(dbs, t, q, closest);
    }

    lemma NoMatchLeft(t: nat, q: string, c: Option<nat>)
      requires Valid()
      requires forall k :: 0 <= k < |KidsAt(kids, PlaceAfter(t, c))| ==> !Matches(dbs, KidsAt(kids, PlaceAfter(t, c))[k], t, q)
      ensures forall n: nat :: n < |dbs| && PlaceOf(dbs[n]) == PlaceAfter(t, c) ==> !Matches(dbs, n, t, q)
    {
      hide Canonical, Listed, Childed, Rooted, Matches;
      forall n: nat | n < |dbs| && PlaceOf(dbs[n]) == PlaceAfter(t, c)
        ensures !Matches(dbs, n, t, q)
      {
        KidListed(dbs, kids, n);
      }
    }

    /** A child has its parent's type, and a longer context or a later place. */
    lemma Descends(t: nat, c: Option<nat>, n: nat)
      requires Valid() && n < |dbs| && PlaceOf(dbs[n]) == PlaceAfter(t, c)
      requires c.Some? ==> c.value < |dbs| && dbs[c.value].dbtype == t
      ensures dbs[n].dbtype == t
      ensures c.Some? ==> !NoDeeper(dbs, n, c.value)
    {
      if c.Some? {
        ParentExtended(dbs, n);
      }
    }

    /** The adopting loop: run down the new database's siblings, taking over those that extend it. */
    method Adopt(n: nat, q: string, ghost list: seq<nat>) returns (ghost kept: seq<nat>, ghost adopted: seq<nat>)
      requires n < |dbs| && dbs[n].child.None?
      requires Distinct([n] + list) && Linked(dbs, [n] + list)
      modifies this`dbs
      ensures Adopting(old(dbs), dbs, n, q, list, |list|, kept, adopted)
    {
      hide *;
      var at := n;
      kept, adopted := [], [];
      ghost var j: nat := 0;
      AdoptStart(dbs, n, q, list);
      while dbs[at].sibling.Some?
        invariant j <= |list| && at < |dbs|
        invariant Adopting(old(dbs), dbs, n, q, list, j, kept, adopted)
        invariant at == ([n] + kept)[|kept|]
        decreases |list| - j
      {
        AdoptHere(old(dbs), dbs, n, q, list, j, kept, adopted);
        var x := dbs[at].sibling.value;
        if |q| < |dbs[x].context| && q <= dbs[x].context {
          AdoptTake(old(dbs), dbs, n, q, list, j, kept, adopted);
          dbs := Moved(dbs, n, at, x);
          adopted := [x] + adopted;
        } else {
          AdoptPass(old(dbs), dbs, n, q, list, j, kept, adopted);
          at := x;
          kept := kept + [x];
        }
        j := j + 1;
      }
      AdoptHere(old(dbs), dbs, n, q, list, j, kept, adopted);
    }

    /** The installing end of namedb(): first among its parent's children, then adopting. */
    method Insert(t: nat, q: string, c: Option<nat>, m: nat)
      requires Valid() && IsClosest(dbs, t, q, c)
      requires m < |roots| && roots[m] < |dbs| && dbs[roots[m]].dbtype == t
      modifies this
      ensures Valid() && IsClosest(dbs, t, q, Some(|old(dbs)|))
      ensures |dbs| == |old(dbs)| + 1 && dbs[|old(dbs)|].context == q
      ensures Names(dbs) == old(Names(dbs)) + [(t, q)]
    {
      hide Forest, IsClosest, Linked, Distinct, Joined, Adopting, RootsAfter, Names, KidsAfter, KidsAt;
      ghost var dbs0, roots0 := dbs, roots;
      ghost var list := KidsAt(kids, PlaceAfter(t, c));
      PlaceHead(dbs, roots, kids, t, q, c, m);
      var n := |dbs|;
      var head := if c.Some? then dbs[c.value].child else Some(roots[m]);
      dbs := dbs + [Db(t, q, c, head, None)];
      if c.Some? {
        dbs := dbs[c.value := dbs[c.value].(child := Some(n))];
      } else {
        roots := roots[m := n];
      }
      ghost var dbs1 := dbs;
      Hooked(dbs0, roots0, kids, t, q, c);
      ghost var kept, adopted := Adopt(n, q, list);
      AdoptedJoined(dbs0, roots0, dbs1, dbs, t, q, c, kids, kept, adopted);
      RootsReplaced(dbs0, roots0, roots, t, c, m);
      JoinedForest(dbs0, dbs, roots0, roots, kids, t, q, c, m, kept, adopted);
      kids := KidsAfter(kids, PlaceAfter(t, c), n, kept, adopted);
    }

    /** namedb() with nothing to install. */
    method Locate(t: nat, q: string) returns (found: bool, m: nat, db: Option<nat>)
      requires Valid()
      ensures IsClosest(dbs, t, q, db)
      ensures found ==> m < |roots| && roots[m] < |dbs| && dbs[roots[m]].dbtype == t
      ensures !found ==> m <= |roots| && !HasRoot(dbs, roots, t) && db.None?
      ensures !found ==> forall k :: 0 <= k < |roots| ==> (roots[k] < |dbs| && (dbs[roots[k]].dbtype < t <==> k < m))
    {
      hide Forest, IsClosest, HasRoot;
      found, m := FindRoot(t);
      if found {
        db := Walk(t, m, q);
      } else {
        NoRootNoMatch(dbs, roots, kids, t, q);
        db := None;
      }
    }

    /** namedb(): the closest database; with create, the one for this very context, installed if need be. */
    method Namedb(t: nat, q: string, create: bool) returns (db: Option<nat>)
      requires Valid()
      modifies this
      ensures Valid() && IsClosest(dbs, t, q, db)
      ensures !create || (t, q) in old(Names(dbs)) ==> dbs == old(dbs) && roots == old(roots)
      ensures create && (t, q) !in old(Names(dbs)) ==> db == Some(|old(dbs)|) && Names(dbs) == old(Names(dbs)) + [(t, q)]
      ensures create ==> db.Some? && db.value < |dbs| && dbs[db.value].context == q
    {
      hide Forest, IsClosest, HasRoot, Names, KidsAfter, KidsAt;
      var found, m, closest := Locate(t, q);
      db := closest;
      ClosestNames(dbs, t, q, db);
      var n := |dbs|;
      if create && !(db.Some? && dbs[db.value].context == q) {
        if found {
          Insert(t, q, db, m);
        } else {
          NoRootNoMatch(dbs, roots, kids, t, q);
          FirstOfType(dbs, roots, kids, t, q, m);
          kids := KidsAfter(kids, Top(t), n, [], []);
          dbs := dbs + [Db(t, q, None, None, None)];
          roots := roots[..m] + [n] + roots[m..];
        }
        db := Some(n);
      }
    }

    /** installdb(): a second database for a context goes right below the last one installed there. */
    method Installdb(t: nat, q: string)
      requires Valid()
      modifies this
      ensures Valid() && Names(dbs) == old(Names(dbs)) + [(t, q)]
      ensures IsClosest(dbs, t, q, Some(|old(dbs)|))
    {
      hide Forest, IsClosest, Names, KidsAfter, KidsAt, Joined, RootsAfter, Reparenting;
      var n := |dbs|;
      var cur := Namedb(t, q, true);
      if cur.value == n {
        ClosestNames(dbs, t, q, cur);
        NamesLength(old(dbs));
        return;
      }
      var c := cur.value;
      ghost var dbs0, list := dbs, KidsAt(kids, Under(c));
      ChildLink(dbs, roots, kids, c);
      ChainKids(dbs, roots, kids, t, q, c);
      assert dbs[c].child.Some? ==> dbs[c].child.value < |dbs| && |dbs[dbs[c].child.value].context| > |q|;
      dbs := dbs + [Db(t, q, Some(c), None, dbs[c].child)];
      dbs := dbs[c := dbs[c].(child := Some(n))];
      ghost var dbs1 := dbs;
      var child := dbs[n].child;
      ghost var j: nat := 0;
      BetweenLinked(dbs0, roots, kids, t, q, c);
      ReparentStart(dbs1, n, list);
      while child.Some?
        invariant j <= |list| && child == if j < |list| then Some(list[j]) else None
        invariant Reparenting(dbs1, dbs, n, list, j)
        modifies this`dbs
        decreases |list| - j
      {
        ReparentNext(dbs1, dbs, n, list, j);
        dbs := dbs[child.value := dbs[child.value].(parent := Some(n))];
        child := dbs[child.value].sibling;
        j := j + 1;
      }
      ReparentedJoined(dbs0, roots, kids, dbs1, dbs, t, q, c);
      RootsKept(dbs0, roots, t, c);
      JoinedForest(dbs0, dbs, roots, roots, kids, t, q, Some(c), 0, [], list);
      kids := KidsAfter(kids, Under(c), n, [], list);
    }

    /** query(): ask the matching databases, the most specific first, for an answer. */
    method Query<V>(t: nat, q: string, ask: nat -> Option<V>) returns (answer: Option<V>)
      requires Valid()
      ensures IsAnswer(dbs, t, q, ask, answer)
    {
      hide IsClosest, Listed, Childed, Rooted, Matches, IsAnswer, Above, AskedBelow, Canonical;
      var found, m, db := Locate(t, q);
      NothingAsked(dbs, t, q, ask, db);
      while db.Some?
        invariant AskedBelow(dbs, t, q, ask, db)
        invariant db.Some? ==> db.value < |dbs|
        decreases db.Some?, if db.Some? then |dbs[db.value].context| else 0, if db.Some? then db.value else 0
      {
        answer := ask(db.value);
        if answer.Some? {
          AnswerFound(dbs, t, q, ask, db.value);
          return;
        }
        AskNext(dbs, t, q, ask, db.value);
        db := dbs[db.value].parent;
      }
      answer := None;
      NoAnswer(dbs, t, q, ask);
    }

    /** NameInfo::query(): the router's databases for the element's context, then the global ones. */
    static method QueryFor<V>(t: nat, ename: Option<string>, router: NameInfo?, ask: nat -> Option<V>, global: NameInfo, askGlobal: nat -> Option<V>)
      returns (answer: Option<V>)
      requires router != null ==> router.Valid()
      requires global.Valid()
      ensures ename.None? || router == null ==> IsAnswer(global.dbs, t, [], askGlobal, answer)
      ensures ename.Some? && router != null ==>
                || (answer.Some? && IsAnswer(router.dbs, t, ContextOf(ename.value), ask, answer))
                || (IsAnswer(router.dbs, t, ContextOf(ename.value), ask, None) && IsAnswer(global.dbs, t, [], askGlobal, answer))
    {
      hide IsAnswer, Forest;
      var e := ename;
      while true
        invariant e == ename || e.None?
        invariant e != ename && router != null ==> IsAnswer(router.dbs, t, ContextOf(ename.value), ask, None)
        decreases e.Some?
      {
        if e.Some? && router != null {
          answer := router.Query(t, ContextOf(e.value), ask);
        } else {
          answer := global.Query(t, [], askGlobal);
        }
        if answer.Some? || e.None? {
          return;
        }
        e := None;
      }
    }
  }
}
