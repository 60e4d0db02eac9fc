/**
 Removing tunnels from a router's connections, in place (click/lib/lexer.cc):
 find_tunnel with its sorted vector of chains, the memoizing recursion of
 TunnelEnd::expand and expand_connection, and the connection part of
 create_router.
 */
module Flatten {
  import opened Wrappers
  import opened Tunnels

  /** The fields of a TunnelEnd beside its port: its partner, _expanded and _correspond. */
  datatype EndState = EndState(other: Option<Port>, expanded: nat, correspond: seq<Port>)

  /** One entry of _tunnels: all ends of one element, newest first, as (port, isoutput). */
  datatype Chain = Chain(idx: nat, members: seq<(int, bool)>)

  const NewEnd := EndState(None, 0, [])

  // ---- the vector of chains -----------------------------------------------

  ghost predicate ChainsSorted(chains: seq<Chain>) {
    forall i, j :: 0 <= i < j < |chains| ==> chains[i].idx < chains[j].idx
  }

  ghost predicate Listed(chains: seq<Chain>, e: End) {
    exists k :: 0 <= k < |chains| && chains[k].idx == e.port.idx && (e.port.port, e.isoutput) in chains[k].members
  }

  /** The chains list exactly the ends that exist. */
  ghost predicate ChainsOk(chains: seq<Chain>, ends: map<End, EndState>) {
    && ChainsSorted(chains)
    && forall e :: Listed(chains, e) <==> e in ends
  }

  lemma ListedAt(chains: seq<Chain>, ends: map<End, EndState>, l: nat, e: End)
    requires ChainsOk(chains, ends) && l < |chains| && chains[l].idx == e.port.idx
    ensures (e.port.port, e.isoutput) in chains[l].members <==> e in ends
  {
    if e in ends {
      assert Listed(chains, e);
      var k :| 0 <= k < |chains| && chains[k].idx == e.port.idx && (e.port.port, e.isoutput) in chains[k].members;
      assert k == l;
    } else {
      assert !Listed(chains, e);
    }
  }

  lemma NotListed(chains: seq<Chain>, ends: map<End, EndState>, e: End)
    requires ChainsOk(chains, ends)
    requires forall k :: 0 <= k < |chains| ==> chains[k].idx != e.port.idx
    ensures e !in ends
  {
    assert !Listed(chains, e);
  }

  /** Putting a new end at the head of its chain. */
  lemma Prepended(chains: seq<Chain>, ends: map<End, EndState>, l: nat, e: End, st: EndState)
    requires ChainsOk(chains, ends) && l < |chains| && chains[l].idx == e.port.idx
    ensures ChainsOk(chains[l := Chain(e.port.idx, [(e.port.port, e.isoutput)] + chains[l].members)], ends[e := st])
  {
    var chains' := chains[l := Chain(e.port.idx, [(e.port.port, e.isoutput)] + chains[l].members)];
    forall x
      ensures Listed(chains', x) <==> x == e || Listed(chains, x)
    {
      if x == e {
        assert (e.port.port, e.isoutput) in chains'[l].members;
      } else {
        if Listed(chains, x) {
          var k :| 0 <= k < |chains| && chains[k].idx == x.port.idx && (x.port.port, x.isoutput) in chains[k].members;
          assert chains'[k].idx == x.port.idx && (x.port.port, x.isoutput) in chains'[k].members;
        }
        if Listed(chains', x) {
          var k :| 0 <= k < |chains'| && chains'[k].idx == x.port.idx && (x.port.port, x.isoutput) in chains'[k].members;
          assert (x.port.port, x.isoutput) in chains[k].members;
        }
      }
    }
  }

  lemma SameKeys(chains: seq<Chain>, ends: map<End, EndState>, ends': map<End, EndState>)
    requires ChainsOk(chains, ends) && ends'.Keys == ends.Keys
    ensures ChainsOk(chains, ends')
  {}

  /** Opening an empty chain in its place. */
  lemma Opened(chains: seq<Chain>, ends: map<End, EndState>, l: nat, idx: nat)
    requires ChainsOk(chains, ends) && l <= |chains|
    requires forall k :: 0 <= k < l ==> chains[k].idx < idx
    requires forall k :: l <= k < |chains| ==> idx < chains[k].idx
    ensures ChainsOk(chains[..l] + [Chain(idx, [])] + chains[l..], ends)
  {
    var chains' := chains[..l] + [Chain(idx, [])] + chains[l..];
    hide ChainsSorted;
    forall x
      ensures Listed(chains', x) <==> Listed(chains, x)
    {
      OpenedLists(chains, chains', l, x);
    }
    assert ChainsSorted(chains') by {
      OpenedSorted(chains, l, idx);
    }
  }

  lemma OpenedSorted(chains: seq<Chain>, l: nat, idx: nat)
    requires ChainsSorted(chains) && l <= |chains|
    requires forall k :: 0 <= k < l ==> chains[k].idx < idx
    requires forall k :: l <= k < |chains| ==> idx < chains[k].idx
    ensures ChainsSorted(chains[..l] + [Chain(idx, [])] + chains[l..])
  {}

  lemma OpenedLists(chains: seq<Chain>, chains': seq<Chain>, l: nat, x: End)
    requires l <= |chains| && |chains'| == |chains| + 1 && chains'[l].members == []
    requires chains'[..l] == chains[..l] && chains'[l + 1..] == chains[l..]
    ensures Listed(chains', x) <==> Listed(chains, x)
  {
    if Listed(chains, x) {
      var k :| 0 <= k < |chains| && chains[k].idx == x.port.idx && (x.port.port, x.isoutput) in chains[k].members;
      OpenedAt(chains, chains', l, k);
    }
    if Listed(chains', x) {
      var k :| 0 <= k < |chains'| && chains'[k].idx == x.port.idx && (x.port.port, x.isoutput) in chains'[k].members;
      assert k != l;
      OpenedAt(chains, chains', l, if k < l then k else k - 1);
    }
  }

  lemma OpenedAt(chains: seq<Chain>, chains': seq<Chain>, l: nat, k: nat)
    requires l <= |chains| && |chains'| == |chains| + 1 && k < |chains|
    requires chains'[..l] == chains[..l] && chains'[l + 1..] == chains[l..]
    ensures chains'[if k < l then k else k + 1] == chains[k]
  {
    if k < l {
      assert chains'[..l][k] == chains[..l][k];
    } else {
      assert chains'[l + 1..][k - l] == chains[l..][k - l];
    }
  }

  // ---- pairs --------------------------------------------------------------

  ghost predicate EndPaired(g: Graph, ends: map<End, EndState>, e: End) {
    e in ends ==> IsEnd(g, e) && Mate(g, e) in ends && ends[e].other == Some(Mate(g, e).port)
  }

  ghost predicate HasZero(g: Graph, ends: map<End, EndState>, k: (nat, bool)) {
    k in g.pair ==> End(Port(k.0, 0), k.1) in ends
  }

  /** Every end is paired with its mate, which exists too, and every declared pair has its ends for port 0. */
  ghost predicate PairsOk(g: Graph, ends: map<End, EndState>) {
    && WellPaired(g)
    && (forall e :: EndPaired(g, ends, e))
    && (forall k :: HasZero(g, ends, k))
  }

  /** Ends that do not exist yet count as untouched. */
  function Look(ends: map<End, EndState>, e: End): (nat, seq<Port>) {
    if e in ends then (ends[e].expanded, ends[e].correspond) else (0, [])
  }

  ghost predicate SameLook(ends: map<End, EndState>, ends': map<End, EndState>) {
    forall e :: Look(ends', e) == Look(ends, e)
  }

  lemma NewPair(g: Graph, ends: map<End, EndState>, e: End, ends': map<End, EndState>)
    requires PairsOk(g, ends) && IsEnd(g, e) && e !in ends
    requires ends' == ends[e := NewEnd.(other := Some(Mate(g, e).port))][Mate(g, e) := NewEnd.(other := Some(e.port))]
    ensures PairsOk(g, ends') && SameLook(ends, ends')
  {
    MateBack(g, e);
    forall x
      ensures EndPaired(g, ends', x)
    {
      assert EndPaired(g, ends, x);
    }
    forall k
      ensures HasZero(g, ends', k)
    {
      assert HasZero(g, ends, k);
    }
    assert EndPaired(g, ends, Mate(g, e));
  }

  // ---- memoized expansion ---------------------------------------------------

  /** The ends that connections lead to: the only ones ever expanded. */
  ghost function Universe(g: Graph): set<End> {
    set c, o | c in g.conns && o in {false, true} :: End(Side(c, o), o)
  }

  ghost function FreshEnds(g: Graph, ends: map<End, EndState>): set<End> {
    set e | e in Universe(g) && Look(ends, e).0 == 0
  }

  /** q is a real port behind port p. */
  ghost predicate Behind(g: Graph, q: Port, p: Port, isoutput: bool) {
    if isoutput then SourceOf(g, q, p) else SinkOf(g, q, p)
  }

  ghost predicate AllBehind(g: Graph, qs: seq<Port>, p: Port, isoutput: bool) {
    forall q :: q in qs ==> Behind(g, q, p, isoutput)
  }

  /** An end that has not been touched holds its corresponding ports; a finished one holds its expansion. */
  ghost predicate MemoAt(g: Graph, rank: End -> nat, ends: map<End, EndState>, e: End) {
    IsEnd(g, e) ==>
      var (x, c) := Look(ends, e);
      && x <= 2
      && (x == 0 ==> c == Corr(g, e, |g.conns|))
      && (x == 2 ==> AllBehind(g, c, e.port, e.isoutput) && (Ranked(g, rank) ==> c == PlainEnd(g, rank, e)))
  }

  ghost predicate MemoOk(g: Graph, rank: End -> nat, ends: map<End, EndState>) {
    forall e :: MemoAt(g, rank, ends, e)
  }

  ghost predicate InProgress(ends: map<End, EndState>, e: End) {
    Look(ends, e).0 == 1
  }

  ghost predicate SameInProgress(ends: map<End, EndState>, ends': map<End, EndState>) {
    forall e :: (InProgress(ends, e) <==> InProgress(ends', e)) && (InProgress(ends, e) ==> Look(ends', e) == Look(ends, e))
  }

  /** Whatever is being expanded ranks above e, so it cannot be reached from e. */
  ghost predicate Above(g: Graph, rank: End -> nat, ends: map<End, EndState>, e: End) {
    Ranked(g, rank) ==> forall x :: InProgress(ends, x) ==> rank(x) > rank(e)
  }

  lemma SameLookMemo(g: Graph, rank: End -> nat, ends: map<End, EndState>, ends': map<End, EndState>)
    requires SameLook(ends, ends')
    ensures SameInProgress(ends, ends') && FreshEnds(g, ends') == FreshEnds(g, ends)
    ensures MemoOk(g, rank, ends) ==> MemoOk(g, rank, ends')
    ensures forall e :: Above(g, rank, ends, e) ==> Above(g, rank, ends', e)
  {
    if MemoOk(g, rank, ends) {
      forall e
        ensures MemoAt(g, rank, ends', e)
      {
        assert MemoAt(g, rank, ends, e);
        assert Look(ends', e) == Look(ends, e);
      }
    }
    forall e | Above(g, rank, ends, e)
      ensures Above(g, rank, ends', e)
    {
      assert forall x :: InProgress(ends', x) ==> InProgress(ends, x);
    }
  }

  /** What is behind a port that corresponds to e is behind e. */
  lemma BehindThrough(g: Graph, e: End, p: Port, qs: seq<Port>)
    requires WellPaired(g) && IsEnd(g, e) && p in Corr(g, e, |g.conns|)
    requires AllBehind(g, qs, p, e.isoutput)
    ensures AllBehind(g, qs, e.port, e.isoutput)
  {
    CorrMember(g, e, |g.conns|, p);
    var i :| 0 <= i < |g.conns| && Side(g.conns[i], !e.isoutput) == Mate(g, e).port && Side(g.conns[i], e.isoutput) == p;
    forall q | q in qs
      ensures Behind(g, q, e.port, e.isoutput)
    {
      if e.isoutput {
        SourceStep(g, e.port, g.conns[i], q);
      } else {
        SinkStep(g, e.port, g.conns[i], q);
      }
    }
  }

  lemma CorrInUniverse(g: Graph, e: End, p: Port)
    requires IsEnd(g, e) && p in Corr(g, e, |g.conns|)
    ensures End(p, e.isoutput) in Universe(g)
  {
    CorrMember(g, e, |g.conns|, p);
    var i :| 0 <= i < |g.conns| && Side(g.conns[i], !e.isoutput) == Mate(g, e).port && Side(g.conns[i], e.isoutput) == p;
    assert g.conns[i] in g.conns;
  }

  lemma RankFalls(g: Graph, rank: End -> nat, ends: map<End, EndState>, e: End, p: Port)
    requires IsEnd(g, e) && p in Corr(g, e, |g.conns|) && IsEnd(g, End(p, e.isoutput))
    requires Ranked(g, rank) ==> forall x :: InProgress(ends, x) ==> rank(x) >= rank(e)
    ensures Above(g, rank, ends, End(p, e.isoutput))
  {}

  lemma MemoFacts(g: Graph, rank: End -> nat, ends: map<End, EndState>, e: End)
    requires MemoOk(g, rank, ends) && IsEnd(g, e) && e in ends
    ensures ends[e].expanded <= 2
    ensures ends[e].expanded == 0 ==> ends[e].correspond == Corr(g, e, |g.conns|)
    ensures ends[e].expanded == 2 ==> AllBehind(g, ends[e].correspond, e.port, e.isoutput)
    ensures ends[e].expanded == 2 && Ranked(g, rank) ==> ends[e].correspond == PlainEnd(g, rank, e)
  {
    assert MemoAt(g, rank, ends, e);
  }

  /** Without a cycle no end is met while it is being expanded. */
  lemma BusyIsCyclic(g: Graph, rank: End -> nat, ends: map<End, EndState>, e: End)
    requires Above(g, rank, ends, e) && e in ends && ends[e].expanded == 1
    ensures !Ranked(g, rank)
    ensures AllBehind(g, [], e.port, e.isoutput)
  {
    assert InProgress(ends, e);
  }

  lemma MarkKeeps(g: Graph, rank: End -> nat, ends: map<End, EndState>, marked: map<End, EndState>, e: End)
    requires MemoOk(g, rank, ends) && e in ends && ends[e].expanded == 0 && e in Universe(g)
    requires marked == ends[e := ends[e].(expanded := 1, correspond := [])]
    ensures MemoOk(g, rank, marked)
    ensures FreshEnds(g, marked) < FreshEnds(g, ends) && Marked(marked, marked, e)
  {
    forall x
      ensures MemoAt(g, rank, marked, x)
    {
      assert MemoAt(g, rank, ends, x);
    }
    assert e in FreshEnds(g, ends) && e !in FreshEnds(g, marked);
  }

  /** Since e was marked, what is in progress has stayed so, and apart from e as it was. */
  ghost predicate Marked(marked: map<End, EndState>, ends: map<End, EndState>, e: End) {
    && (forall x :: InProgress(marked, x) <==> InProgress(ends, x))
    && (forall x :: InProgress(marked, x) && x != e ==> Look(ends, x) == Look(marked, x))
  }

  lemma MarkedAbove(g: Graph, rank: End -> nat, ends: map<End, EndState>, marked: map<End, EndState>, now: map<End, EndState>, e: End, p: Port)
    requires Above(g, rank, ends, e) && IsEnd(g, e) && e in ends && p in Corr(g, e, |g.conns|)
    requires marked == ends[e := ends[e].(expanded := 1, correspond := [])]
    requires Marked(marked, now, e)
    ensures IsEnd(g, End(p, e.isoutput)) ==> Above(g, rank, now, End(p, e.isoutput))
  {
    if IsEnd(g, End(p, e.isoutput)) && Ranked(g, rank) {
      forall x | InProgress(now, x)
        ensures rank(x) >= rank(e)
      {
        assert InProgress(marked, x);
        assert x != e ==> InProgress(ends, x);
      }
      RankFalls(g, rank, now, e, p);
    }
  }

  lemma FewerFresh(g: Graph, ends: map<End, EndState>, marked: map<End, EndState>, before: map<End, EndState>)
    requires FreshEnds(g, ends) <= FreshEnds(g, marked) < FreshEnds(g, before)
    ensures |FreshEnds(g, ends)| < |FreshEnds(g, before)|
  {
    SmallerSet(FreshEnds(g, ends), FreshEnds(g, before));
  }

  lemma {:induction false} SmallerSet<T>(a: set<T>, b: set<T>)
    requires a < b
    ensures |a| < |b|
  {
    var x :| x in b && x !in a;
    if a != {} {
      var y :| y in a;
      SmallerSet(a - {y}, b - {y});
    }
  }

  lemma StillBusy(ends: map<End, EndState>, ends': map<End, EndState>, e: End)
    requires SameInProgress(ends, ends') && e in ends && ends[e].expanded == 1
    ensures e in ends' && ends'[e].expanded == 1 && ends'[e].correspond == ends[e].correspond
  {
    assert InProgress(ends, e);
    assert InProgress(ends', e);
  }

  lemma NothingBehind(g: Graph, rank: End -> nat, e: End)
    ensures AllBehind(g, [], e.port, e.isoutput)
    ensures Ranked(g, rank) && IsEnd(g, e) ==> PlainPart(g, rank, e, 0) == []
  {}

  lemma BehindJoin(g: Graph, a: seq<Port>, b: seq<Port>, e: End)
    requires AllBehind(g, a, e.port, e.isoutput) && AllBehind(g, b, e.port, e.isoutput)
    ensures AllBehind(g, a + b, e.port, e.isoutput)
  {}

  /** The expansion of the first i corresponding ports of e. */
  ghost function PlainPart(g: Graph, rank: End -> nat, e: End, i: nat): seq<Port>
    requires Ranked(g, rank) && IsEnd(g, e)
  {
    var ps := Corr(g, e, |g.conns|);
    if i <= |ps| then PlainList(g, rank, e, ps[..i]) else []
  }

  lemma PlainGrows(g: Graph, rank: End -> nat, e: End, i: nat)
    requires IsEnd(g, e) && i < |Corr(g, e, |g.conns|)|
    ensures Ranked(g, rank) ==>
              PlainPart(g, rank, e, i + 1) == PlainPart(g, rank, e, i) + PlainPort(g, rank, Corr(g, e, |g.conns|)[i], e.isoutput)
  {
    var ps := Corr(g, e, |g.conns|);
    assert ps[..i + 1][..i] == ps[..i];
  }

  lemma PlainWhole(g: Graph, rank: End -> nat, e: End)
    requires IsEnd(g, e)
    ensures Ranked(g, rank) ==> PlainPart(g, rank, e, |Corr(g, e, |g.conns|)|) == PlainEnd(g, rank, e)
  {
    var ps := Corr(g, e, |g.conns|);
    assert ps[..|ps|] == ps;
  }

  lemma Collected(g: Graph, rank: End -> nat, marked: map<End, EndState>, start: map<End, EndState>, after: map<End, EndState>,
                  now: map<End, EndState>, e: End)
    requires Marked(marked, start, e) && SameInProgress(start, after) && MemoOk(g, rank, after)
    requires e in after && after[e].expanded == 1 && e in now
    requires now == after[e := after[e].(correspond := now[e].correspond)]
    ensures Marked(marked, now, e) && MemoOk(g, rank, now) && FreshEnds(g, now) == FreshEnds(g, after)
  {
    forall x
      ensures MemoAt(g, rank, now, x)
    {
      assert MemoAt(g, rank, after, x);
    }
    forall x
      ensures InProgress(marked, x) <==> InProgress(now, x)
      ensures InProgress(marked, x) && x != e ==> Look(now, x) == Look(marked, x)
    {
      assert InProgress(start, x) <==> InProgress(after, x);
    }
  }

  lemma FinishKeeps(g: Graph, rank: End -> nat, ends: map<End, EndState>, marked: map<End, EndState>, collected: map<End, EndState>,
                    now: map<End, EndState>, e: End)
    requires MemoOk(g, rank, collected) && Marked(marked, collected, e) && IsEnd(g, e)
    requires e in ends && ends[e].expanded == 0 && marked == ends[e := ends[e].(expanded := 1, correspond := [])]
    requires e in collected && collected[e].expanded == 1 && now == collected[e := collected[e].(expanded := 2)]
    requires AllBehind(g, collected[e].correspond, e.port, e.isoutput)
    requires Ranked(g, rank) ==> collected[e].correspond == PlainEnd(g, rank, e)
    requires FreshEnds(g, collected) <= FreshEnds(g, marked) < FreshEnds(g, ends)
    ensures MemoOk(g, rank, now) && SameInProgress(ends, now) && FreshEnds(g, now) <= FreshEnds(g, ends)
  {
    forall x
      ensures MemoAt(g, rank, now, x)
    {
      assert MemoAt(g, rank, collected, x);
    }
    forall x
      ensures InProgress(ends, x) <==> InProgress(now, x)
      ensures InProgress(ends, x) ==> Look(now, x) == Look(ends, x)
    {
      assert InProgress(marked, x) <==> InProgress(collected, x);
    }
    assert FreshEnds(g, now) == FreshEnds(g, collected);
  }

  class Lexer {
    const tunnels: set<nat>
    ghost var pair: map<(nat, bool), nat>
    const conns: seq<Conn>
    var chains: seq<Chain>
    var ends: map<End, EndState>

    ghost function G(): Graph
      reads this`pair
    {
      Graph(tunnels, pair, conns)
    }

    ghost predicate Valid()
      reads this
    {
      ChainsOk(chains, ends) && PairsOk(G(), ends)
    }

    /** The binary search of find_tunnel. */
    method SearchChain(idx: nat) returns (l: nat, found: bool)
      requires ChainsSorted(chains)
      ensures found ==> l < |chains| && chains[l].idx == idx
      ensures !found ==> l <= |chains|
      ensures !found ==> forall k :: 0 <= k < l ==> chains[k].idx < idx
      ensures !found ==> forall k :: l <= k < |chains| ==> idx < chains[k].idx
    {
      l := 0;
      var r := |chains|;
      while l < r
        invariant 0 <= l <= r <= |chains|
        invariant forall k :: 0 <= k < l ==> chains[k].idx < idx
        invariant forall k :: r <= k < |chains| ==> idx < chains[k].idx
      {
        var m := l + (r - l) / 2;
        if idx < chains[m].idx {
          r := m;
        } else if idx > chains[m].idx {
          l := m + 1;
        } else {
          return m, true;
        }
      }
      found := false;
    }

    /** find_tunnel with insert: the end is there afterwards, unpaired if it is new. */
    method InsertTunnel(h: Port, isoutput: bool)
      requires ChainsOk(chains, ends)
      modifies this`chains, this`ends
      ensures ChainsOk(chains, ends)
      ensures ends == if End(h, isoutput) in old(ends) then old(ends) else old(ends)[End(h, isoutput) := NewEnd]
    {
      hide ChainsOk;
      var e := End(h, isoutput);
      Sorted(chains, ends);
      var l, found := SearchChain(h.idx);
      if !found {
        Opened(chains, ends, l, h.idx);
        chains := chains[..l] + [Chain(h.idx, [])] + chains[l..];
      }
      ListedAt(chains, ends, l, e);
      var members := chains[l].members;
      for i := 0 to |members|
        invariant (h.port, isoutput) !in members[..i]
      {
        if members[i] == (h.port, isoutput) {
          return;
        }
      }
      assert members[..|members|] == members;
      Prepended(chains, ends, l, e, NewEnd);
      chains := chains[l := Chain(h.idx, [(h.port, isoutput)] + members)];
      ends := ends[e := NewEnd];
    }

    static lemma Sorted(chains: seq<Chain>, ends: map<End, EndState>)
      requires ChainsOk(chains, ends)
      ensures ChainsSorted(chains)
    {}

    /** find_tunnel without insert: finds or lazily creates the end of a declared tunnel, and nothing else. */
    method FindTunnel(h: Port, isoutput: bool) returns (te: Option<End>)
      requires Valid()
      modifies this`chains, this`ends
      ensures Valid() && SameLook(old(ends), ends)
      ensures te == if IsEnd(G(), End(h, isoutput)) then Some(End(h, isoutput)) else None
      ensures te.Some? ==> te.value in ends
      ensures forall e :: e in old(ends) ==> e in ends
    {
      hide ChainsOk, PairsOk, SameLook;
      ghost var g := G();
      var e := End(h, isoutput);
      Unchanged(ends);
      Sorted(chains, ends);
      ghost var zero := End(Port(h.idx, 0), isoutput);
      var l, found := SearchChain(h.idx);
      if !found {
        NotListed(chains, ends, zero);
        PairFacts(g, ends, e);
        return None;
      }
      ListedAt(chains, ends, l, e);
      ListedAt(chains, ends, l, zero);
      PairFacts(g, ends, e);
      var members := chains[l].members;
      var match0 := false;
      for i := 0 to |members|
        invariant (h.port, isoutput) !in members[..i]
        invariant match0 <==> (0, isoutput) in members[..i]
      {
        if members[i] == (h.port, isoutput) {
          return Some(e);
        } else if members[i] == (0, isoutput) {
          match0 := true;
        }
      }
      assert members[..|members|] == members;
      if match0 {
        var other := Port(ends[End(Port(h.idx, 0), isoutput)].other.value.idx, h.port);
        ghost var before := ends;
        Prepended(chains, ends, l, e, NewEnd);
        chains := chains[l := Chain(h.idx, [(h.port, isoutput)] + members)];
        ends := ends[e := NewEnd];
        InsertTunnel(other, !isoutput);
        ghost var unpaired := ends;
        PairWith(e, End(other, !isoutput));
        SameKeys(chains, unpaired, ends);
        NewPair(g, before, e, ends);
        te := Some(e);
      } else {
        te := None;
      }
    }

    static lemma Unchanged(ends: map<End, EndState>)
      ensures SameLook(ends, ends)
    {}

    /** What the pairing says about an end and the end for port 0 of the same element and direction. */
    static lemma PairFacts(g: Graph, ends: map<End, EndState>, e: End)
      requires PairsOk(g, ends)
      ensures var zero := End(Port(e.port.idx, 0), e.isoutput);
              && (zero in ends <==> IsEnd(g, e))
              && (e in ends ==> IsEnd(g, e))
              && (zero in ends ==> ends[zero].other == Some(Port(g.pair[(e.port.idx, e.isoutput)], 0)))
              && (e !in ends && IsEnd(g, e) ==> Mate(g, e) !in ends && Mate(g, e) != e)
    {
      assert EndPaired(g, ends, e) && EndPaired(g, ends, End(Port(e.port.idx, 0), e.isoutput));
      if IsEnd(g, e) {
        assert HasZero(g, ends, (e.port.idx, e.isoutput));
        MateBack(g, e);
        assert EndPaired(g, ends, Mate(g, e));
      }
    }

    /** TunnelEnd::pair_with, with its assertion. */
    method PairWith(e: End, d: End)
      requires e in ends && d in ends && e != d
      requires ends[e].other.None? && ends[d].other.None? && e.isoutput == !d.isoutput && e.port.port == d.port.port
      modifies this`ends
      ensures ends == old(ends)[e := old(ends[e]).(other := Some(d.port))][d := old(ends[d]).(other := Some(e.port))]
    {
      ends := ends[e := ends[e].(other := Some(d.port))];
      ends := ends[d := ends[d].(other := Some(e.port))];
    }

    // ---- first-level expansion --------------------------------------------

    /** What the ends look like after the first n connections: untouched, with their corresponding ports. */
    ghost predicate Corresponding(n: nat)
      requires n <= |conns|
      reads this
    {
      forall e :: IsEnd(G(), e) ==> Look(ends, e) == (0, Corr(G(), e, n))
    }

    /** One push_back of create_router's first loop: side `isoutput` of connection cp enters a tunnel. */
    method Tie(cp: Conn, isoutput: bool)
      requires Valid()
      modifies this`chains, this`ends
      ensures Valid()
      ensures forall e :: Look(ends, e) ==
                if IsEnd(G(), e) && e.isoutput == !isoutput && Mate(G(), e).port == Side(cp, isoutput)
                then (Look(old(ends), e).0, Look(old(ends), e).1 + [Side(cp, !isoutput)])
                else Look(old(ends), e)
    {
      hide ChainsOk, PairsOk;
      ghost var g := G();
      PairedHere(g, ends);
      var te := FindTunnel(Side(cp, isoutput), isoutput);
      ghost var before := ends;
      if te.Some? {
        MatesHere(g, ends, te.value);
        var o := End(ends[te.value].other.value, !isoutput);
        ends := ends[o := ends[o].(correspond := ends[o].correspond + [Side(cp, !isoutput)])];
        SameKeys(chains, before, ends);
        SamePairs(g, before, ends);
      }
      forall e
        ensures IsEnd(g, e) && e.isoutput == !isoutput && Mate(g, e).port == Side(cp, isoutput) <==>
                te.Some? && e == Mate(g, te.value)
      {
        MateOf(g, e, Side(cp, isoutput), isoutput);
      }
    }

    static lemma MatesHere(g: Graph, ends: map<End, EndState>, e: End)
      requires PairsOk(g, ends) && e in ends
      ensures IsEnd(g, e) && Mate(g, e) in ends && ends[e].other == Some(Mate(g, e).port)
      ensures WellPaired(g)
    {
      assert EndPaired(g, ends, e);
    }

    static lemma MateOf(g: Graph, e: End, p: Port, isoutput: bool)
      requires WellPaired(g)
      ensures IsEnd(g, e) && e.isoutput == !isoutput && Mate(g, e).port == p <==>
              IsEnd(g, End(p, isoutput)) && e == Mate(g, End(p, isoutput))
    {
      if IsEnd(g, e) {
        MateBack(g, e);
      }
      if IsEnd(g, End(p, isoutput)) {
        MateBack(g, End(p, isoutput));
      }
    }

    /** Only the keys and partners matter for the pairing. */
    static lemma SamePairs(g: Graph, ends: map<End, EndState>, ends': map<End, EndState>)
      requires PairsOk(g, ends) && ends'.Keys == ends.Keys
      requires forall e :: e in ends ==> ends'[e].other == ends[e].other
      ensures PairsOk(g, ends')
    {
      forall e
        ensures EndPaired(g, ends', e)
      {
        assert EndPaired(g, ends, e);
      }
      forall k
        ensures HasZero(g, ends', k)
      {
        assert HasZero(g, ends, k);
      }
    }

    /** The first loop of create_router's connection part; real elements are those with a router number. */
    method FirstLevel(routed: set<nat>)
      requires Valid() && routed !! tunnels && Corresponding(0)
      modifies this`chains, this`ends
      ensures Valid() && Corresponding(|conns|)
    {
      hide ChainsOk, PairsOk;
      ghost var g := G();
      PairedHere(g, ends);
      for i := 0 to |conns|
        invariant Valid() && Corresponding(i)
      {
        ghost var before := ends;
        if conns[i].to.idx !in routed {
          Tie(conns[i], false);
        } else {
          NoTie(g, conns[i], false, routed);
        }
        ghost var middle := ends;
        if conns[i].from.idx !in routed {
          Tie(conns[i], true);
        } else {
          NoTie(g, conns[i], true, routed);
        }
      }
    }

    static lemma PairedHere(g: Graph, ends: map<End, EndState>)
      requires PairsOk(g, ends)
      ensures WellPaired(g)
    {}

    static lemma NoTie(g: Graph, cp: Conn, isoutput: bool, routed: set<nat>)
      requires WellPaired(g) && routed !! g.tunnels && Side(cp, isoutput).idx in routed
      ensures forall e :: IsEnd(g, e) && e.isoutput == !isoutput ==> Mate(g, e).port != Side(cp, isoutput)
    {
      forall e | IsEnd(g, e) && e.isoutput == !isoutput
        ensures Mate(g, e).port != Side(cp, isoutput)
      {
        MateBack(g, e);
        MateBack(g, Mate(g, e));
      }
    }

    // ---- expansion --------------------------------------------------------

    /** Lexer::expand_connection */
    method ExpandConnection(p: Port, isoutput: bool, ghost rank: End -> nat) returns (into: seq<Port>)
      requires Valid() && MemoOk(G(), rank, ends)
      requires End(p, isoutput) in Universe(G())
      requires IsEnd(G(), End(p, isoutput)) ==> Above(G(), rank, ends, End(p, isoutput))
      modifies this`chains, this`ends
      ensures Valid() && MemoOk(G(), rank, ends)
      ensures SameInProgress(old(ends), ends) && FreshEnds(G(), ends) <= FreshEnds(G(), old(ends))
      ensures AllBehind(G(), into, p, isoutput)
      ensures Ranked(G(), rank) ==> into == PlainPort(G(), rank, p, isoutput)
      decreases |FreshEnds(G(), ends)|, 1
    {
      hide ChainsOk, PairsOk, MemoOk, SameLook, Above, Ranked, SameInProgress;
      ghost var g := G();
      ghost var before := ends;
      SameInProgressRefl(ends);
      if p.idx !in tunnels {
        into := [p];
        return;
      }
      var te := FindTunnel(p, isoutput);
      SameLookMemo(g, rank, before, ends);
      if te.Some? {
        ghost var found := ends;
        into := Expand(te.value, rank);
        SameInProgressTrans(before, found, ends);
      } else {
        ghost var missed := ends;
        var _ := FindTunnel(p, !isoutput);  // only to report an error
        SameLookMemo(g, rank, missed, ends);
        SameInProgressTrans(before, missed, ends);
        into := [];
      }
    }

    static lemma SameInProgressRefl(ends: map<End, EndState>)
      ensures SameInProgress(ends, ends)
    {}

    static lemma SameInProgressTrans(a: map<End, EndState>, b: map<End, EndState>, c: map<End, EndState>)
      requires SameInProgress(a, b) && SameInProgress(b, c)
      ensures SameInProgress(a, c)
    {}

    /** TunnelEnd::expand */
    method Expand(te: End, ghost rank: End -> nat) returns (into: seq<Port>)
      requires Valid() && MemoOk(G(), rank, ends)
      requires te in ends && IsEnd(G(), te) && te in Universe(G())
      requires Above(G(), rank, ends, te)
      modifies this`chains, this`ends
      ensures Valid() && MemoOk(G(), rank, ends)
      ensures SameInProgress(old(ends), ends) && FreshEnds(G(), ends) <= FreshEnds(G(), old(ends))
      ensures AllBehind(G(), into, te.port, te.isoutput)
      ensures Ranked(G(), rank) ==> into == PlainEnd(G(), rank, te)
      decreases |FreshEnds(G(), ends)|, 0
    {
      hide ChainsOk, PairsOk, MemoOk, Above, Ranked, SameInProgress, Corr, PlainList, FreshEnds, AllBehind;
      ghost var g := G();
      ghost var before := ends;
      SameInProgressRefl(ends);
      MemoFacts(g, rank, ends, te);
      if ends[te].expanded == 1 {
        BusyIsCyclic(g, rank, ends, te);
        return [];
      }
      if ends[te].expanded == 0 {
        var connections := ends[te].correspond;
        ends := ends[te := ends[te].(expanded := 1, correspond := [])];
        ghost var marked := ends;
        MarkKeeps(g, rank, before, marked, te);
        SameKeys(chains, before, ends);
        SamePairs(g, before, ends);
        PairedHere(g, ends);
        NothingBehind(g, rank, te);
        for i := 0 to |connections|
          invariant Valid() && MemoOk(g, rank, ends) && te in ends
          invariant FreshEnds(g, ends) <= FreshEnds(g, marked)
          invariant ends[te].expanded == 1
          invariant Marked(marked, ends, te)
          invariant AllBehind(g, ends[te].correspond, te.port, te.isoutput)
          invariant Ranked(g, rank) ==> ends[te].correspond == PlainPart(g, rank, te, i)
        {
          var p := connections[i];
          assert p in connections;
          CorrInUniverse(g, te, p);
          MarkedAbove(g, rank, before, marked, ends, te, p);
          ghost var start := ends;
          FewerFresh(g, ends, marked, before);
          var more := ExpandConnection(p, te.isoutput, rank);
          StillBusy(start, ends, te);
          ghost var after := ends;
          ends := ends[te := ends[te].(correspond := ends[te].correspond + more)];
          SameKeys(chains, after, ends);
          SamePairs(g, after, ends);
          BehindThrough(g, te, p, more);
          BehindJoin(g, start[te].correspond, more, te);
          Collected(g, rank, marked, start, after, ends, te);
          PlainGrows(g, rank, te, i);
        }
        ghost var collected := ends;
        ends := ends[te := ends[te].(expanded := 2)];
        SameKeys(chains, collected, ends);
        SamePairs(g, collected, ends);
        PlainWhole(g, rank, te);
        FinishKeeps(g, rank, before, marked, collected, ends, te);
      }
      into := ends[te].correspond;
    }

    // ---- declaring tunnels and flattening -----------------------------------

    constructor (tunnels: set<nat>, conns: seq<Conn>)
      ensures Valid() && this.tunnels == tunnels && this.conns == conns && pair == map[] && ends == map[]
    {
      this.tunnels, this.conns := tunnels, conns;
      chains, ends, pair := [], map[], map[];
    }

    /** Which of the four ends of a compound element named so are tunnels already. */
    ghost predicate Known(outer: nat, input: nat, output: nat, k: nat)
      reads this
    {
      (if k == 0 then (outer, false) else if k == 1 then (input, true) else if k == 2 then (output, false) else (outer, true)) in pair
    }

    /** Lexer::add_tunnels for the elements name, name/input and name/output: a name already taken is refused. */
    method AddTunnels(outer: nat, input: nat, output: nat) returns (ok: bool)
      requires Valid() && {outer, input, output} <= tunnels
      requires outer != input && outer != output && input != output
      requires forall k: nat :: k < 4 ==> (Known(outer, input, output, k) <==> Known(outer, input, output, 0))
      modifies this
      ensures Valid() && SameLook(old(ends), ends)
      ensures ok <==> !old(Known(outer, input, output, 0))
      ensures pair == if ok then old(pair)[(outer, false) := input][(input, true) := outer][(output, false) := outer][(outer, true) := output]
                      else old(pair)
      ensures !ok ==> ends == old(ends)
    {
      hide ChainsOk;
      ghost var before := ends;
      ghost var g := G();
      assert Known(outer, input, output, 1) <==> (input, true) in pair;
      assert Known(outer, input, output, 2) <==> (output, false) in pair;
      assert Known(outer, input, output, 3) <==> (outer, true) in pair;
      var a, b := End(Port(outer, 0), false), End(Port(input, 0), true);
      var c, d := End(Port(output, 0), false), End(Port(outer, 0), true);
      PairFacts(g, ends, a);
      PairFacts(g, ends, b);
      PairFacts(g, ends, c);
      PairFacts(g, ends, d);
      Unchanged(ends);
      hide PairsOk, SameLook;
      InsertTunnel(a.port, false);
      InsertTunnel(b.port, true);
      InsertTunnel(c.port, false);
      InsertTunnel(d.port, true);
      ok := ends[a].other.None? && ends[b].other.None? && ends[c].other.None? && ends[d].other.None?;
      if ok {
        assert Distinct4(a, b, c, d);
        PairBoth(a, b, c, d);
        pair := pair[(outer, false) := input][(input, true) := outer][(output, false) := outer][(outer, true) := output];
        Declared(g, before, G(), ends, outer, input, output);
      }
    }

    static predicate Distinct4(a: End, b: End, c: End, d: End) {
      a != b && a != c && a != d && b != c && b != d && c != d
    }

    method PairBoth(a: End, b: End, c: End, d: End)
      requires {a, b, c, d} <= ends.Keys && Distinct4(a, b, c, d) && ChainsOk(chains, ends)
      requires ends[a].other.None? && ends[b].other.None? && a.isoutput == !b.isoutput && a.port.port == b.port.port
      requires ends[c].other.None? && ends[d].other.None? && c.isoutput == !d.isoutput && c.port.port == d.port.port
      modifies this`ends
      ensures ends == old(ends)[a := old(ends[a]).(other := Some(b.port))][b := old(ends[b]).(other := Some(a.port))]
                               [c := old(ends[c]).(other := Some(d.port))][d := old(ends[d]).(other := Some(c.port))]
      ensures ChainsOk(chains, ends)
    {
      hide ChainsOk;
      PairEnds(a, b);
      PairEnds(c, d);
    }

    method PairEnds(e: End, d: End)
      requires e in ends && d in ends && e != d
      requires ends[e].other.None? && ends[d].other.None? && e.isoutput == !d.isoutput && e.port.port == d.port.port
      requires ChainsOk(chains, ends)
      modifies this`ends
      ensures ends == old(ends)[e := old(ends[e]).(other := Some(d.port))][d := old(ends[d]).(other := Some(e.port))]
      ensures ChainsOk(chains, ends)
    {
      hide ChainsOk;
      ghost var before := ends;
      PairWith(e, d);
      SameKeys(chains, before, ends);
    }

    static lemma Declared(g: Graph, ends: map<End, EndState>, g': Graph, ends': map<End, EndState>, outer: nat, input: nat, output: nat)
      requires PairsOk(g, ends) && {outer, input, output} <= g.tunnels
      requires outer != input && outer != output && input != output
      requires (outer, false) !in g.pair && (outer, true) !in g.pair && (input, true) !in g.pair && (output, false) !in g.pair
      requires g'.tunnels == g.tunnels
      requires g'.pair == g.pair[(outer, false) := input][(input, true) := outer][(output, false) := outer][(outer, true) := output]
      requires var a, b := End(Port(outer, 0), false), End(Port(input, 0), true);
               var c, d := End(Port(output, 0), false), End(Port(outer, 0), true);
               && a !in ends && b !in ends && c !in ends && d !in ends
               && ends' == ends[a := NewEnd.(other := Some(b.port))][b := NewEnd.(other := Some(a.port))]
                               [c := NewEnd.(other := Some(d.port))][d := NewEnd.(other := Some(c.port))]
      ensures PairsOk(g', ends') && SameLook(ends, ends')
    {
      forall k
        ensures PairedBack(g', k) && HasZero(g', ends', k)
      {
        assert PairedBack(g, k) && HasZero(g, ends, k);
      }
      forall e
        ensures EndPaired(g', ends', e)
      {
        assert EndPaired(g, ends, e);
      }
    }

    /** No end is being expanded. */
    static ghost predicate Quiet(ends: map<End, EndState>) {
      forall e :: !InProgress(ends, e)
    }

    static lemma QuietAbove(g: Graph, rank: End -> nat, ends: map<End, EndState>, ends': map<End, EndState>)
      requires Quiet(ends) && SameInProgress(ends, ends')
      ensures Quiet(ends') && forall e :: Above(g, rank, ends', e)
    {
      assert forall x :: InProgress(ends', x) ==> InProgress(ends, x);
    }

    /** Lexer::add_router_connections */
    method AddRouterConnections(c: Conn, routed: set<nat>, ghost rank: End -> nat) returns (added: seq<Conn>)
      requires Valid() && MemoOk(G(), rank, ends) && Quiet(ends) && c in conns
      modifies this`chains, this`ends
      ensures Valid() && MemoOk(G(), rank, ends) && Quiet(ends)
      ensures forall d :: d in added ==> d.from.idx in routed && d.to.idx in routed && Covers(G(), c, d.from, d.to)
      ensures WellPaired(G()) && Ranked(G(), rank) ==>
                forall f: Port, t: Port :: f.idx in routed && t.idx in routed && Covers(G(), c, f, t) ==> Conn(f, t) in added
    {
      hide ChainsOk, PairsOk, MemoOk, Ranked, SameInProgress, Above, Quiet, FreshEnds, PlainPort;
      ghost var g := G();
      InPlay(g, c);
      SameInProgressRefl(ends);
      ghost var before := ends;
      QuietAbove(g, rank, before, ends);
      var hfrom := ExpandConnection(c.from, true, rank);
      QuietAbove(g, rank, before, ends);
      before := ends;
      var hto := ExpandConnection(c.to, false, rank);
      QuietAbove(g, rank, before, ends);
      added := Pairs(hfrom, hto, routed);
      CoversFrom(g, rank, c, hfrom, hto);
    }

    static lemma InPlay(g: Graph, c: Conn)
      requires c in g.conns
      ensures End(c.from, true) in Universe(g) && End(c.to, false) in Universe(g)
    {
      assert Side(c, true) == c.from && Side(c, false) == c.to;
    }

    static lemma CoversFrom(g: Graph, rank: End -> nat, c: Conn, hfrom: seq<Port>, hto: seq<Port>)
      requires c in g.conns && AllBehind(g, hfrom, c.from, true) && AllBehind(g, hto, c.to, false)
      requires Ranked(g, rank) ==> hfrom == PlainPort(g, rank, c.from, true) && hto == PlainPort(g, rank, c.to, false)
      ensures forall f, t :: f in hfrom && t in hto ==> Covers(g, c, f, t)
      ensures WellPaired(g) && Ranked(g, rank) ==> forall f, t :: Covers(g, c, f, t) ==> f in hfrom && t in hto
    {
      if WellPaired(g) && Ranked(g, rank) {
        forall f, t | Covers(g, c, f, t)
          ensures f in hfrom && t in hto
        {
          PlainOutputs(g, rank, c.from, f);
          PlainInputs(g, rank, c.to, t);
        }
      }
    }

    /** The two nested loops: every routed source with every routed sink. */
    static method Pairs(hfrom: seq<Port>, hto: seq<Port>, routed: set<nat>) returns (added: seq<Conn>)
      ensures forall d :: d in added <==> d.from in hfrom && d.to in hto && d.from.idx in routed && d.to.idx in routed
    {
      added := [];
      for f := 0 to |hfrom|
        invariant forall d :: d in added <==> d.from in hfrom[..f] && d.to in hto && d.from.idx in routed && d.to.idx in routed
      {
        ghost var start := added;
        if hfrom[f].idx in routed {
          for t := 0 to |hto|
            invariant forall d :: d in added <==>
                        d in start || (d.from == hfrom[f] && d.to in hto[..t] && d.to.idx in routed)
          {
            if hto[t].idx in routed {
              added := added + [Conn(hfrom[f], hto[t])];
            }
          }
        }
      }
    }

    /**
     The connection part of create_router.  What comes out are real connections that a path through
     tunnels joins; if the tunnel graph has no cycle, they are all such connections.
     */
    method CreateConnections(routed: set<nat>) returns (out: seq<Conn>)
      requires Valid() && routed !! tunnels && Corresponding(0)
      modifies this`chains, this`ends
      ensures forall d :: d in out ==> d.from.idx in routed && d.to.idx in routed && Joined(G(), d.from, d.to)
      ensures Acyclic(G()) ==>
                forall f: Port, t: Port :: f.idx in routed && t.idx in routed && Joined(G(), f, t) ==> Conn(f, t) in out
    {
      hide ChainsOk, PairsOk, MemoOk, Ranked, Quiet, Covers, Joined, RankFor, Acyclic;
      ghost var g := G();
      ghost var rank := RankFor(g);
      PairedHere(g, ends);
      RankForAcyclic(g);
      FirstLevel(routed);
      StartMemo(rank);
      var all := conns;
      for i := 0 to |conns|
        invariant Valid() && MemoOk(g, rank, ends) && Quiet(ends)
        invariant |conns| <= |all| && all[..|conns|] == conns
        invariant forall d :: d in all[|conns|..] ==> Expanded(g, routed, d)
        invariant Ranked(g, rank) ==> forall j, f, t :: 0 <= j < i && NeedsExpansion(routed, conns[j]) && Wanted(g, routed, conns[j], f, t) ==>
                    Conn(f, t) in all
      {
        if conns[i].from.idx !in routed || conns[i].to.idx !in routed {
          var added := AddRouterConnections(conns[i], routed, rank);
          assert (all + added)[|conns|..] == all[|conns|..] + added;
          all := all + added;
        }
      }
      out := OnlyRouted(all, routed);
      Outcome(g, rank, routed, all, out);
    }

    /** d came out of expanding some connection. */
    static ghost predicate Expanded(g: Graph, routed: set<nat>, d: Conn) {
      d.from.idx in routed && d.to.idx in routed && exists c :: Covers(g, c, d.from, d.to)
    }

    static predicate NeedsExpansion(routed: set<nat>, c: Conn) {
      c.from.idx !in routed || c.to.idx !in routed
    }

    static ghost predicate Wanted(g: Graph, routed: set<nat>, c: Conn, f: Port, t: Port) {
      f.idx in routed && t.idx in routed && Covers(g, c, f, t)
    }

    lemma StartMemo(rank: End -> nat)
      requires Corresponding(|conns|) && PairsOk(G(), ends)
      ensures MemoOk(G(), rank, ends) && Quiet(ends)
    {
      var g := G();
      forall e
        ensures MemoAt(g, rank, ends, e) && !InProgress(ends, e)
      {
        assert EndPaired(g, ends, e);
      }
    }

    static method OnlyRouted(all: seq<Conn>, routed: set<nat>) returns (out: seq<Conn>)
      ensures forall d :: d in out <==> d in all && d.from.idx in routed && d.to.idx in routed
    {
      out := [];
      for i := 0 to |all|
        invariant forall d :: d in out <==> d in all[..i] && d.from.idx in routed && d.to.idx in routed
      {
        if all[i].from.idx in routed && all[i].to.idx in routed {
          out := out + [all[i]];
        }
      }
      assert all[..|all|] == all;
    }

    static lemma Outcome(g: Graph, rank: End -> nat, routed: set<nat>, all: seq<Conn>, out: seq<Conn>)
      requires WellPaired(g) && routed !! g.tunnels
      requires |g.conns| <= |all| && all[..|g.conns|] == g.conns
      requires forall d :: d in all[|g.conns|..] ==> Expanded(g, routed, d)
      requires Ranked(g, rank) ==> forall j, f, t :: 0 <= j < |g.conns| && NeedsExpansion(routed, g.conns[j]) && Wanted(g, routed, g.conns[j], f, t) ==>
                 Conn(f, t) in all
      requires forall d :: d in out <==> d in all && d.from.idx in routed && d.to.idx in routed
      ensures forall d :: d in out ==> Joined(g, d.from, d.to)
      ensures Ranked(g, rank) ==>
                forall f: Port, t: Port :: f.idx in routed && t.idx in routed && Joined(g, f, t) ==> Conn(f, t) in out
    {
      hide Joined, Ranked;
      assert all == g.conns + all[|g.conns|..];
      forall d | d in out
        ensures Joined(g, d.from, d.to)
      {
        if d in g.conns {
          assert Covers(g, d, d.from, d.to);
        }
        CoveredIsJoined(g, d.from, d.to);
      }
      if Ranked(g, rank) {
        forall f: Port, t: Port | f.idx in routed && t.idx in routed && Joined(g, f, t)
          ensures Conn(f, t) in out
        {
          CoveredIsJoined(g, f, t);
          var c :| Covers(g, c, f, t);
          var j :| 0 <= j < |g.conns| && g.conns[j] == c;
          if NeedsExpansion(routed, c) {
            assert Wanted(g, routed, g.conns[j], f, t);
          } else {
            assert c == Conn(f, t);
          }
        }
      }
    }
  }
}
