/**
 What flattening compound elements has to compute (click/lib/lexer.cc): a
 compound element leaves behind tunnels, pairs of pseudo-elements through which
 a connection continues on the same port number.  Real elements are connected
 when a chain of connections leads from one to the other through tunnels only.
 */
module Tunnels {

  datatype Port = Port(idx: nat, port: int)

  /** A connection leaves the output port `from` and arrives at the input port `to`. */
  datatype Conn = Conn(from: Port, to: Port)

  /** One side of a tunnel: where connections leave it (isoutput) or arrive at it. */
  datatype End = End(port: Port, isoutput: bool)

  /** pair maps a tunnel element and a direction to the element on the other side. */
  datatype Graph = Graph(tunnels: set<nat>, pair: map<(nat, bool), nat>, conns: seq<Conn>)

  ghost predicate PairedBack(g: Graph, k: (nat, bool)) {
    k in g.pair ==> k.0 in g.tunnels && (g.pair[k], !k.1) in g.pair && g.pair[(g.pair[k], !k.1)] == k.0
  }

  /** Pairing is symmetric and concerns tunnel elements only. */
  ghost predicate WellPaired(g: Graph) {
    forall k :: PairedBack(g, k)
  }

  predicate IsEnd(g: Graph, e: End) {
    (e.port.idx, e.isoutput) in g.pair
  }

  function Mate(g: Graph, e: End): End
    requires IsEnd(g, e)
  {
    End(Port(g.pair[(e.port.idx, e.isoutput)], e.port.port), !e.isoutput)
  }

  function Side(c: Conn, isoutput: bool): Port {
    if isoutput then c.from else c.to
  }

  /** The ports that the first n connections tie to the far side of e. */
  function Corr(g: Graph, e: End, n: nat): seq<Port>
    requires IsEnd(g, e) && n <= |g.conns|
  {
    if n == 0 then []
    else if Side(g.conns[n - 1], !e.isoutput) == Mate(g, e).port then
      Corr(g, e, n - 1) + [Side(g.conns[n - 1], e.isoutput)]
    else Corr(g, e, n - 1)
  }

  lemma {:induction false} CorrMember(g: Graph, e: End, n: nat, p: Port)
    requires IsEnd(g, e) && n <= |g.conns|
    ensures p in Corr(g, e, n) <==>
              exists i :: 0 <= i < n && Side(g.conns[i], !e.isoutput) == Mate(g, e).port && Side(g.conns[i], e.isoutput) == p
  {
    if n > 0 {
      CorrMember(g, e, n - 1, p);
      if Side(g.conns[n - 1], !e.isoutput) == Mate(g, e).port && Side(g.conns[n - 1], e.isoutput) == p {
        assert p in Corr(g, e, n);
      }
    }
  }

  // ---- acyclic graphs and plain expansion ---------------------------------

  /** Expanding an end only leads to ends of lower rank. */
  ghost predicate Ranked(g: Graph, rank: End -> nat) {
    forall e, p :: IsEnd(g, e) && p in Corr(g, e, |g.conns|) && IsEnd(g, End(p, e.isoutput)) ==>
      rank(End(p, e.isoutput)) < rank(e)
  }

  /** The recursion of expand and expand_connection without memory: the real ports behind end e. */
  ghost function PlainEnd(g: Graph, rank: End -> nat, e: End): seq<Port>
    requires Ranked(g, rank) && IsEnd(g, e)
    decreases rank(e), 1, 0
  {
    PlainList(g, rank, e, Corr(g, e, |g.conns|))
  }

  ghost function PlainList(g: Graph, rank: End -> nat, e: End, ps: seq<Port>): seq<Port>
    requires Ranked(g, rank) && IsEnd(g, e)
    requires forall p :: p in ps ==> p in Corr(g, e, |g.conns|)
    decreases rank(e), 0, |ps|
  {
    if ps == [] then []
    else
      var p := ps[|ps| - 1];
      PlainList(g, rank, e, ps[..|ps| - 1]) +
      if p.idx !in g.tunnels then [p]
      else if IsEnd(g, End(p, e.isoutput)) then PlainEnd(g, rank, End(p, e.isoutput))
      else []
  }

  /** The real ports a port stands for. */
  ghost function PlainPort(g: Graph, rank: End -> nat, p: Port, isoutput: bool): seq<Port>
    requires Ranked(g, rank)
  {
    if p.idx !in g.tunnels then [p]
    else if IsEnd(g, End(p, isoutput)) then PlainEnd(g, rank, End(p, isoutput))
    else []
  }

  lemma {:induction false} PlainListMember(g: Graph, rank: End -> nat, e: End, ps: seq<Port>, q: Port)
    requires Ranked(g, rank) && IsEnd(g, e)
    requires forall p :: p in ps ==> p in Corr(g, e, |g.conns|)
    ensures q in PlainList(g, rank, e, ps) <==>
              exists p :: p in ps && q in PlainPort(g, rank, p, e.isoutput)
    decreases |ps|
  {
    if ps != [] {
      var last := ps[|ps| - 1];
      PlainListMember(g, rank, e, ps[..|ps| - 1], q);
      assert ps == ps[..|ps| - 1] + [last];
      if q in PlainPort(g, rank, last, e.isoutput) {
        assert last in ps;
      }
    }
  }

  // ---- paths --------------------------------------------------------------

  /** d takes over where c enters a tunnel. */
  ghost predicate Continues(g: Graph, c: Conn, d: Conn) {
    IsEnd(g, End(c.to, false)) && d.from == Mate(g, End(c.to, false)).port
  }

  ghost predicate IsPath(g: Graph, hops: seq<Conn>) {
    && hops != []
    && (forall i :: 0 <= i < |hops| ==> hops[i] in g.conns)
    && (forall i :: 0 <= i < |hops| - 1 ==> Continues(g, hops[i], hops[i + 1]))
  }

  ghost predicate PathFrom(g: Graph, f: Port, t: Port, hops: seq<Conn>) {
    IsPath(g, hops) && hops[0].from == f && hops[|hops| - 1].to == t
  }

  /** A chain of connections leads from output f to input t through tunnels only. */
  ghost predicate Joined(g: Graph, f: Port, t: Port) {
    exists hops :: PathFrom(g, f, t, hops)
  }

  lemma PathAppend(g: Graph, a: seq<Conn>, b: seq<Conn>)
    requires IsPath(g, a) && IsPath(g, b)
    requires Continues(g, a[|a| - 1], b[0])
    ensures IsPath(g, a + b)
  {
    var h := a + b;
    forall i | 0 <= i < |h| - 1
      ensures Continues(g, h[i], h[i + 1])
    {
      if i < |a| - 1 {
        assert Continues(g, a[i], a[i + 1]);
      } else if i >= |a| {
        assert Continues(g, b[i - |a|], b[i - |a| + 1]);
      }
    }
  }

  lemma PathOne(g: Graph, c: Conn)
    requires c in g.conns
    ensures PathFrom(g, c.from, c.to, [c])
  {}

  lemma MateBack(g: Graph, e: End)
    requires WellPaired(g) && IsEnd(g, e)
    ensures IsEnd(g, Mate(g, e)) && Mate(g, Mate(g, e)) == e && e.port.idx in g.tunnels
  {
    assert PairedBack(g, (e.port.idx, e.isoutput));
  }

  // ---- plain expansion follows paths --------------------------------------

  /** q is a real output behind the output port x: x itself, or the start of a path into the far side of x. */
  ghost predicate SourceOf(g: Graph, q: Port, x: Port) {
    && q.idx !in g.tunnels
    && (if x.idx !in g.tunnels then q == x
        else IsEnd(g, End(x, true)) && Joined(g, q, Mate(g, End(x, true)).port))
  }

  /** q is a real input behind the input port x. */
  ghost predicate SinkOf(g: Graph, q: Port, x: Port) {
    && q.idx !in g.tunnels
    && (if x.idx !in g.tunnels then q == x
        else IsEnd(g, End(x, false)) && Joined(g, Mate(g, End(x, false)).port, q))
  }

  /** One step back: what feeds the far side of an output end. */
  lemma SourceStep(g: Graph, x: Port, c: Conn, q: Port)
    requires WellPaired(g) && IsEnd(g, End(x, true)) && c in g.conns
    requires c.to == Mate(g, End(x, true)).port && SourceOf(g, q, c.from)
    ensures SourceOf(g, q, x)
  {
    MateBack(g, End(x, true));
    if c.from.idx !in g.tunnels {
      PathOne(g, c);
    } else {
      var a :| PathFrom(g, q, Mate(g, End(c.from, true)).port, a);
      MateBack(g, End(c.from, true));
      PathOne(g, c);
      PathAppend(g, a, [c]);
      assert PathFrom(g, q, c.to, a + [c]);
    }
  }

  lemma SourceUnstep(g: Graph, x: Port, q: Port) returns (c: Conn)
    requires WellPaired(g) && IsEnd(g, End(x, true)) && SourceOf(g, q, x)
    ensures c in g.conns && c.to == Mate(g, End(x, true)).port && SourceOf(g, q, c.from)
  {
    MateBack(g, End(x, true));
    var h: seq<Conn> :| PathFrom(g, q, Mate(g, End(x, true)).port, h);
    c := h[|h| - 1];
    if |h| > 1 {
      var a: seq<Conn> := h[..|h| - 1];
      assert Continues(g, h[|h| - 2], h[|h| - 1]);
      assert c == h[|h| - 2 + 1];
      var e := End(a[|a| - 1].to, false);
      MateBack(g, e);
      MateBack(g, Mate(g, e));
      forall i | 0 <= i < |a| - 1
        ensures Continues(g, a[i], a[i + 1])
      {
        assert Continues(g, h[i], h[i + 1]);
      }
      assert PathFrom(g, q, a[|a| - 1].to, a);
    }
  }

  lemma SinkStep(g: Graph, x: Port, c: Conn, q: Port)
    requires WellPaired(g) && IsEnd(g, End(x, false)) && c in g.conns
    requires c.from == Mate(g, End(x, false)).port && SinkOf(g, q, c.to)
    ensures SinkOf(g, q, x)
  {
    MateBack(g, End(x, false));
    if c.to.idx !in g.tunnels {
      PathOne(g, c);
    } else {
      var a :| PathFrom(g, Mate(g, End(c.to, false)).port, q, a);
      PathOne(g, c);
      PathAppend(g, [c], a);
      assert PathFrom(g, c.from, q, [c] + a);
    }
  }

  lemma SinkUnstep(g: Graph, x: Port, q: Port) returns (c: Conn)
    requires WellPaired(g) && IsEnd(g, End(x, false)) && SinkOf(g, q, x)
    ensures c in g.conns && c.from == Mate(g, End(x, false)).port && SinkOf(g, q, c.to)
  {
    MateBack(g, End(x, false));
    var h: seq<Conn> :| PathFrom(g, Mate(g, End(x, false)).port, q, h);
    c := h[0];
    if |h| > 1 {
      var a := h[1..];
      assert Continues(g, h[0], h[0 + 1]);
      MateBack(g, End(c.to, false));
      forall i | 0 <= i < |a| - 1
        ensures Continues(g, a[i], a[i + 1])
      {
        assert Continues(g, h[i + 1], h[i + 1 + 1]);
      }
      assert PathFrom(g, a[0].from, q, a);
    }
  }

  lemma {:induction false} PlainOutputs(g: Graph, rank: End -> nat, x: Port, q: Port)
    requires WellPaired(g) && Ranked(g, rank)
    ensures q in PlainPort(g, rank, x, true) <==> SourceOf(g, q, x)
    decreases if IsEnd(g, End(x, true)) then rank(End(x, true)) + 1 else 0
  {
    var e := End(x, true);
    if x.idx in g.tunnels && IsEnd(g, e) {
      var ps := Corr(g, e, |g.conns|);
      PlainListMember(g, rank, e, ps, q);
      if q in PlainPort(g, rank, x, true) {
        var p :| p in ps && q in PlainPort(g, rank, p, true);
        PlainOutputs(g, rank, p, q);
        CorrMember(g, e, |g.conns|, p);
        var i :| 0 <= i < |g.conns| && Side(g.conns[i], false) == Mate(g, e).port && Side(g.conns[i], true) == p;
        SourceStep(g, x, g.conns[i], q);
      }
      if SourceOf(g, q, x) {
        var c := SourceUnstep(g, x, q);
        var i :| 0 <= i < |g.conns| && g.conns[i] == c;
        assert Side(g.conns[i], false) == Mate(g, e).port && Side(g.conns[i], true) == c.from;
        CorrMember(g, e, |g.conns|, c.from);
        PlainOutputs(g, rank, c.from, q);
      }
    }
  }

  lemma {:induction false} PlainInputs(g: Graph, rank: End -> nat, x: Port, q: Port)
    requires WellPaired(g) && Ranked(g, rank)
    ensures q in PlainPort(g, rank, x, false) <==> SinkOf(g, q, x)
    decreases if IsEnd(g, End(x, false)) then rank(End(x, false)) + 1 else 0
  {
    var e := End(x, false);
    if x.idx in g.tunnels && IsEnd(g, e) {
      var ps := Corr(g, e, |g.conns|);
      PlainListMember(g, rank, e, ps, q);
      if q in PlainPort(g, rank, x, false) {
        var p :| p in ps && q in PlainPort(g, rank, p, false);
        PlainInputs(g, rank, p, q);
        CorrMember(g, e, |g.conns|, p);
        var i :| 0 <= i < |g.conns| && Side(g.conns[i], true) == Mate(g, e).port && Side(g.conns[i], false) == p;
        SinkStep(g, x, g.conns[i], q);
      }
      if SinkOf(g, q, x) {
        var c := SinkUnstep(g, x, q);
        var i :| 0 <= i < |g.conns| && g.conns[i] == c;
        assert Side(g.conns[i], true) == Mate(g, e).port && Side(g.conns[i], false) == c.to;
        CorrMember(g, e, |g.conns|, c.to);
        PlainInputs(g, rank, c.to, q);
      }
    }
  }

  // ---- the connection relation --------------------------------------------

  /** Connection c, with everything behind its two ends, joins f to t. */
  ghost predicate Covers(g: Graph, c: Conn, f: Port, t: Port) {
    c in g.conns && SourceOf(g, f, c.from) && SinkOf(g, t, c.to)
  }

  lemma CoversJoins(g: Graph, c: Conn, f: Port, t: Port)
    requires WellPaired(g) && Covers(g, c, f, t)
    ensures f.idx !in g.tunnels && t.idx !in g.tunnels && Joined(g, f, t)
  {
    var h := [c];
    PathOne(g, c);
    if c.from.idx in g.tunnels {
      MateBack(g, End(c.from, true));
      var a :| PathFrom(g, f, Mate(g, End(c.from, true)).port, a);
      PathAppend(g, a, h);
      h := a + h;
    }
    assert PathFrom(g, f, c.to, h);
    if c.to.idx in g.tunnels {
      var b :| PathFrom(g, Mate(g, End(c.to, false)).port, t, b);
      PathAppend(g, h, b);
      h := h + b;
    }
    assert PathFrom(g, f, t, h);
  }

  lemma JoinedCovered(g: Graph, f: Port, t: Port) returns (c: Conn)
    requires WellPaired(g) && f.idx !in g.tunnels && t.idx !in g.tunnels && Joined(g, f, t)
    ensures Covers(g, c, f, t)
  {
    var h: seq<Conn> :| PathFrom(g, f, t, h);
    c := h[0];
    if |h| > 1 {
      assert Continues(g, h[0], h[0 + 1]);
      MateBack(g, End(c.to, false));
      var b := h[1..];
      forall i | 0 <= i < |b| - 1
        ensures Continues(g, b[i], b[i + 1])
      {
        assert Continues(g, h[i + 1], h[i + 1 + 1]);
      }
      assert PathFrom(g, b[0].from, t, b);
    }
  }

  /** Expanding both ends of every connection yields exactly the pairs that a path joins. */
  lemma CoveredIsJoined(g: Graph, f: Port, t: Port)
    requires WellPaired(g)
    ensures (exists c :: Covers(g, c, f, t)) <==> f.idx !in g.tunnels && t.idx !in g.tunnels && Joined(g, f, t)
  {
    hide Covers, Joined;
    if c :| Covers(g, c, f, t) {
      CoversJoins(g, c, f, t);
    }
    if f.idx !in g.tunnels && t.idx !in g.tunnels && Joined(g, f, t) {
      var c := JoinedCovered(g, f, t);
    }
  }

  // ---- acyclic graphs have ranks ------------------------------------------

  /** A numbering of input ports that falls along every way through a tunnel. */
  ghost predicate Descends(g: Graph, depth: Port -> nat) {
    forall z, c :: IsEnd(g, End(z, false)) && c in g.conns && c.from == Mate(g, End(z, false)).port && IsEnd(g, End(c.to, false))
      ==> depth(c.to) < depth(z)
  }

  /** The greatest number on the near side of any connection's output. */
  ghost function Deepest(g: Graph, depth: Port -> nat, n: nat): (b: nat)
    requires n <= |g.conns|
    ensures forall i :: 0 <= i < n && IsEnd(g, End(g.conns[i].from, true)) ==>
              depth(Mate(g, End(g.conns[i].from, true)).port) <= b
  {
    if n == 0 then 0
    else
      var rest := Deepest(g, depth, n - 1);
      var e := End(g.conns[n - 1].from, true);
      if IsEnd(g, e) && depth(Mate(g, e).port) > rest then depth(Mate(g, e).port) else rest
  }

  ghost function RankAt(g: Graph, depth: Port -> nat, b: nat, e: End): nat {
    if !e.isoutput then depth(e.port)
    else if IsEnd(g, e) && depth(Mate(g, e).port) <= b then b - depth(Mate(g, e).port)
    else 0
  }

  ghost function RankOf(g: Graph, depth: Port -> nat): End -> nat {
    var b := Deepest(g, depth, |g.conns|);
    (e: End) => RankAt(g, depth, b, e)
  }

  /** With such a numbering, expansion in either direction is well founded. */
  lemma DescendingIsRanked(g: Graph, depth: Port -> nat)
    requires WellPaired(g) && Descends(g, depth)
    ensures Ranked(g, RankOf(g, depth))
  {
    var rank := RankOf(g, depth);
    forall e, p | IsEnd(g, e) && p in Corr(g, e, |g.conns|) && IsEnd(g, End(p, e.isoutput))
      ensures rank(End(p, e.isoutput)) < rank(e)
    {
      CorrMember(g, e, |g.conns|, p);
      var i :| 0 <= i < |g.conns| && Side(g.conns[i], !e.isoutput) == Mate(g, e).port && Side(g.conns[i], e.isoutput) == p;
      var c := g.conns[i];
      if e.isoutput {
        MateBack(g, End(p, true));
        MateBack(g, e);
        var z := Mate(g, End(p, true)).port;
        assert c.from == Mate(g, End(z, false)).port;
        assert depth(c.to) < depth(z);
      }
    }
  }

  /** A path that runs back into its first hop. */
  ghost predicate IsCycle(g: Graph, hops: seq<Conn>) {
    IsPath(g, hops) && Continues(g, hops[|hops| - 1], hops[0])
  }

  ghost predicate Acyclic(g: Graph) {
    forall hops :: !IsCycle(g, hops)
  }

  ghost predicate HasRank(g: Graph) {
    exists rank :: Ranked(g, rank)
  }

  lemma PathPart(g: Graph, h: seq<Conn>, i: nat, j: nat)
    requires IsPath(g, h) && i < j <= |h|
    ensures IsPath(g, h[i..j])
  {
    var a := h[i..j];
    forall k | 0 <= k < |a| - 1
      ensures Continues(g, a[k], a[k + 1])
    {
      assert Continues(g, h[i + k], h[i + k + 1]);
    }
  }

  /** Without cycles no path takes a connection twice. */
  lemma PathDistinct(g: Graph, h: seq<Conn>, i: nat, j: nat)
    requires Acyclic(g) && IsPath(g, h) && i < j < |h|
    ensures h[i] != h[j]
  {
    PathPart(g, h, i, j);
    var a := h[i..j];
    assert Continues(g, h[j - 1], h[j - 1 + 1]);
    assert !IsCycle(g, a);
  }

  ghost function Members(s: seq<Conn>): set<Conn> {
    set c | c in s
  }

  lemma {:induction false} MembersCount(s: seq<Conn>)
    ensures |Members(s)| <= |s|
    ensures (forall i, j :: 0 <= i < j < |s| ==> s[i] != s[j]) ==> |Members(s)| == |s|
    decreases |s|
  {
    if s != [] {
      var n := |s| - 1;
      MembersCount(s[..n]);
      assert s == s[..n] + [s[n]];
      assert Members(s) == Members(s[..n]) + {s[n]};
    }
  }

  lemma {:induction false} FewerMembers(a: set<Conn>, b: set<Conn>)
    requires a <= b
    ensures |a| <= |b|
    decreases |a|
  {
    if a != {} {
      var c :| c in a;
      FewerMembers(a - {c}, b - {c});
    }
  }

  lemma PathIsShort(g: Graph, h: seq<Conn>)
    requires Acyclic(g) && IsPath(g, h)
    ensures |h| <= |g.conns|
  {
    forall i, j | 0 <= i < j < |h|
      ensures h[i] != h[j]
    {
      PathDistinct(g, h, i, j);
    }
    MembersCount(h);
    MembersCount(g.conns);
    FewerMembers(Members(h), Members(g.conns));
  }

  /** A way of n connections leads on from the input port z. */
  ghost predicate Leads(g: Graph, z: Port, n: nat) {
    n == 0 || exists h: seq<Conn> :: |h| == n && IsPath(g, h) && IsEnd(g, End(z, false)) && h[0].from == Mate(g, End(z, false)).port
  }

  ghost function Longest(g: Graph, z: Port, n: nat): (m: nat)
    ensures m <= n && Leads(g, z, m)
    ensures forall k :: m < k <= n ==> !Leads(g, z, k)
  {
    if Leads(g, z, n) then n else Longest(g, z, n - 1)
  }

  ghost function DepthOf(g: Graph): Port -> nat {
    (z: Port) => Longest(g, z, |g.conns|)
  }

  lemma LongestDescends(g: Graph, z: Port, c: Conn)
    requires Acyclic(g) && IsEnd(g, End(z, false)) && c in g.conns && c.from == Mate(g, End(z, false)).port && IsEnd(g, End(c.to, false))
    ensures Longest(g, c.to, |g.conns|) < Longest(g, z, |g.conns|)
  {
    var n := Longest(g, c.to, |g.conns|);
    var h := [c];
    PathOne(g, c);
    if n > 0 {
      var a: seq<Conn> :| |a| == n && IsPath(g, a) && IsEnd(g, End(c.to, false)) && a[0].from == Mate(g, End(c.to, false)).port;
      PathAppend(g, [c], a);
      h := [c] + a;
    }
    PathIsShort(g, h);
    assert Leads(g, z, n + 1);
  }

  /** Around a cycle ranks would fall for ever. */
  lemma {:induction false} CycleFalls(g: Graph, rank: End -> nat, hops: seq<Conn>, i: nat)
    requires Ranked(g, rank) && IsCycle(g, hops) && i < |hops|
    ensures IsEnd(g, End(hops[i].to, false)) && IsEnd(g, End(hops[0].to, false))
    ensures rank(End(hops[i].to, false)) + i <= rank(End(hops[0].to, false))
  {
    EndOnCycle(g, hops, i);
    EndOnCycle(g, hops, 0);
    if i > 0 {
      CycleFalls(g, rank, hops, i - 1);
      assert Continues(g, hops[i - 1], hops[i - 1 + 1]);
      RankFallsBy(g, rank, hops[i - 1], hops[i]);
    }
  }

  lemma EndOnCycle(g: Graph, hops: seq<Conn>, i: nat)
    requires IsCycle(g, hops) && i < |hops|
    ensures IsEnd(g, End(hops[i].to, false)) && hops[i] in g.conns
  {
    if i + 1 < |hops| {
      assert Continues(g, hops[i], hops[i + 1]);
    }
  }

  lemma RankFallsBy(g: Graph, rank: End -> nat, c: Conn, d: Conn)
    requires Ranked(g, rank) && d in g.conns && Continues(g, c, d) && IsEnd(g, End(d.to, false))
    ensures rank(End(d.to, false)) < rank(End(c.to, false))
  {
    var e := End(c.to, false);
    CorrMember(g, e, |g.conns|, d.to);
    var i :| 0 <= i < |g.conns| && g.conns[i] == d;
    assert Side(g.conns[i], true) == Mate(g, e).port && Side(g.conns[i], false) == d.to;
  }

  /** The tunnel graph has no cycle if and only if expansion is well founded. */
  lemma AcyclicIsRanked(g: Graph)
    requires WellPaired(g)
    ensures Acyclic(g) <==> HasRank(g)
  {
    if Acyclic(g) {
      var depth := DepthOf(g);
      forall z, c | IsEnd(g, End(z, false)) && c in g.conns && c.from == Mate(g, End(z, false)).port && IsEnd(g, End(c.to, false))
        ensures depth(c.to) < depth(z)
      {
        LongestDescends(g, z, c);
      }
      DescendingIsRanked(g, depth);
    }
    if rank :| Ranked(g, rank) {
      forall hops
        ensures !IsCycle(g, hops)
      {
        NoRankedCycle(g, rank, hops);
      }
    }
  }

  lemma NoRankedCycle(g: Graph, rank: End -> nat, hops: seq<Conn>)
    requires Ranked(g, rank)
    ensures !IsCycle(g, hops)
  {
    if IsCycle(g, hops) {
      var last := |hops| - 1;
      CycleFalls(g, rank, hops, last);
      EndOnCycle(g, hops, 0);
      RankFallsBy(g, rank, hops[last], hops[0]);
    }
  }

  /** A rank, where there is one. */
  ghost function RankFor(g: Graph): End -> nat {
    if HasRank(g) then
      var rank :| Ranked(g, rank);
      rank
    else (e: End) => 0
  }

  lemma RankForAcyclic(g: Graph)
    requires WellPaired(g)
    ensures Acyclic(g) <==> Ranked(g, RankFor(g))
  {
    AcyclicIsRanked(g);
  }
}
