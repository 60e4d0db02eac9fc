/**
 Many-to-many connections in the configuration language (click/lib/lexer.cc):
 yconnection_analyze_ports and yconnection_connect_all, which pair the ports of
 two comma-separated element lists with a cursor on each side.
 */
module Connect {

  /** One element of a list with its explicit ports on the side in question; -1 at the end means "and so on". */
  datatype Group = Group(idx: nat, ports: seq<int>)

  /** What yport leaves behind: port numbers, and -1 only last and only after a port number. */
  predicate WellFormed(g: Group) {
    && (forall i :: 0 <= i < |g.ports| - 1 ==> g.ports[i] >= 0)
    && (g.ports != [] ==> g.ports[|g.ports| - 1] >= -1)
    && (|g.ports| == 1 ==> g.ports[0] >= 0)
  }

  predicate AllWellFormed(gs: seq<Group>) {
    forall i :: 0 <= i < |gs| ==> WellFormed(gs[i])
  }

  datatype PortRef = PortRef(idx: nat, port: int)

  predicate OpenEnded(g: Group) {
    g.ports != [] && g.ports[|g.ports| - 1] == -1
  }

  // ---- what a list of groups stands for -----------------------------------

  function Numbered(idx: nat, first: int, n: nat): seq<PortRef> {
    seq(n, i requires 0 <= i < n => PortRef(idx, first + i))
  }

  function Listed(idx: nat, ports: seq<int>): seq<PortRef> {
    seq(|ports|, i requires 0 <= i < |ports| => PortRef(idx, ports[i]))
  }

  /** The ports every reading of the group has: those it lists, or port 0. */
  function FixedPorts(g: Group): seq<PortRef> {
    if g.ports == [] then [PortRef(g.idx, 0)]
    else if OpenEnded(g) then Listed(g.idx, g.ports[..|g.ports| - 1])
    else Listed(g.idx, g.ports)
  }

  /** Can the group supply more ports?  A lone element without ports can, where '=>' allows it. */
  predicate Expands(g: Group, lone: bool) {
    OpenEnded(g) || (g.ports == [] && lone)
  }

  function GroupPorts(g: Group, extra: nat, lone: bool): seq<PortRef>
    requires WellFormed(g)
  {
    if !Expands(g, lone) then FixedPorts(g)
    else if g.ports == [] then Numbered(g.idx, 0, 1 + extra)
    else FixedPorts(g) + Numbered(g.idx, g.ports[|g.ports| - 2] + 1, extra)
  }

  /** The flattened list: the first group that can expand supplies the extra ports. */
  function Flat(gs: seq<Group>, extra: nat, lone: bool): seq<PortRef>
    requires AllWellFormed(gs)
  {
    if gs == [] then []
    else GroupPorts(gs[0], extra, lone) + Flat(gs[1..], if Expands(gs[0], lone) then 0 else extra, lone)
  }

  function MinPorts(gs: seq<Group>): nat {
    if gs == [] then 0 else MinPorts(gs[..|gs| - 1]) + |FixedPorts(gs[|gs| - 1])|
  }

  function Expandables(gs: seq<Group>): nat {
    if gs == [] then 0 else Expandables(gs[..|gs| - 1]) + if OpenEnded(gs[|gs| - 1]) then 1 else 0
  }

  lemma {:induction false} MinPortsCons(gs: seq<Group>)
    requires gs != []
    ensures MinPorts(gs) == |FixedPorts(gs[0])| + MinPorts(gs[1..])
    ensures Expandables(gs) == (if OpenEnded(gs[0]) then 1 else 0) + Expandables(gs[1..])
  {
    if |gs| > 1 {
      MinPortsCons(gs[..|gs| - 1]);
      assert gs[..|gs| - 1][1..] == gs[1..][..|gs| - 2];
    } else {
      assert gs[..0] == [] && gs[1..] == [];
    }
  }

  /** yconnection_analyze_ports */
  method AnalyzePorts(gs: seq<Group>) returns (minPorts: nat, expandable: nat)
    requires AllWellFormed(gs)
    ensures minPorts == MinPorts(gs) && expandable == Expandables(gs)
  {
    minPorts, expandable := 0, 0;
    for i := 0 to |gs|
      invariant minPorts == MinPorts(gs[..i]) && expandable == Expandables(gs[..i])
    {
      assert gs[..i + 1][..i] == gs[..i];
      var n := |gs[i].ports|;
      if n <= 1 {
        minPorts := minPorts + 1;
      } else if gs[i].ports[n - 1] == -1 {
        minPorts := minPorts + (n - 1);
        expandable := expandable + 1;
      } else {
        minPorts := minPorts + n;
      }
    }
    assert gs[..|gs|] == gs;
  }

  ghost predicate SomeExpands(gs: seq<Group>, lone: bool) {
    exists i :: 0 <= i < |gs| && Expands(gs[i], lone)
  }

  lemma SomeExpandsCons(gs: seq<Group>, lone: bool)
    requires gs != []
    ensures SomeExpands(gs, lone) <==> Expands(gs[0], lone) || SomeExpands(gs[1..], lone)
  {
    if SomeExpands(gs[1..], lone) {
      var i :| 0 <= i < |gs[1..]| && Expands(gs[1..][i], lone);
      assert gs[i + 1] == gs[1..][i];
    }
    if SomeExpands(gs, lone) && !Expands(gs[0], lone) {
      var i :| 0 <= i < |gs| && Expands(gs[i], lone);
      assert gs[1..][i - 1] == gs[i];
    }
  }

  /** How many ports the flattened list has. */
  lemma {:induction false} FlatLength(gs: seq<Group>, extra: nat, lone: bool)
    requires AllWellFormed(gs)
    ensures |Flat(gs, extra, lone)| == MinPorts(gs) + (if SomeExpands(gs, lone) then extra else 0)
  {
    hide SomeExpands, MinPorts;
    if gs != [] {
      MinPortsCons(gs);
      SomeExpandsCons(gs, lone);
      FlatLength(gs[1..], if Expands(gs[0], lone) then 0 else extra, lone);
    } else {
      NoGroups(lone);
    }
  }

  lemma NoGroups(lone: bool)
    ensures !SomeExpands([], lone) && MinPorts([]) == 0
  {}

  lemma {:induction false} ExpandableExists(gs: seq<Group>)
    ensures Expandables(gs) > 0 <==> exists i :: 0 <= i < |gs| && OpenEnded(gs[i])
  {
    if gs != [] {
      ExpandableExists(gs[..|gs| - 1]);
      if i :| 0 <= i < |gs| && OpenEnded(gs[i]) {
        if i < |gs| - 1 {
          assert gs[..|gs| - 1][i] == gs[i];
        }
      }
    }
  }

  /** The k-th port of a group: listed, counting on from the last one listed, or counting from 0 if there are none. */
  function KthPort(g: Group, k: nat): int {
    if g.ports == [] then k
    else if k < |FixedPorts(g)| then (if k < |g.ports| then g.ports[k] else 0)
    else if |g.ports| >= 2 then g.ports[|g.ports| - 2] + (k + 2 - |g.ports|)
    else 0
  }

  lemma GroupCounts(g: Group, extra: nat, lone: bool)
    requires WellFormed(g)
    ensures |GroupPorts(g, extra, lone)| == |FixedPorts(g)| + if Expands(g, lone) then extra else 0
    ensures forall k :: 0 <= k < |GroupPorts(g, extra, lone)| ==> GroupPorts(g, extra, lone)[k] == PortRef(g.idx, KthPort(g, k))
  {}

  lemma FlatCons(gs: seq<Group>, extra: nat, lone: bool)
    requires AllWellFormed(gs) && gs != []
    ensures Flat(gs, extra, lone) ==
            GroupPorts(gs[0], extra, lone) + Flat(gs[1..], if Expands(gs[0], lone) then 0 else extra, lone)
  {}

  /** Where the ports of the n-th group stand in the flattened list, if no group before it grows. */
  lemma {:induction false} FlatPorts(gs: seq<Group>, extra: nat, lone: bool, n: nat, k: nat)
    requires AllWellFormed(gs) && n < |gs| && (forall i :: 0 <= i < n ==> !Expands(gs[i], lone))
    requires k < |FixedPorts(gs[n])| + if Expands(gs[n], lone) then extra else 0
    ensures var i := MinPorts(gs[..n]) + k;
            i < |Flat(gs, extra, lone)| && Flat(gs, extra, lone)[i] == PortRef(gs[n].idx, KthPort(gs[n], k))
    decreases n
  {
    hide MinPorts, Flat, GroupPorts, KthPort, FixedPorts, Expands, WellFormed;
    GroupCounts(gs[0], extra, lone);
    FlatCons(gs, extra, lone);
    if n == 0 {
      NoGroups(lone);
      assert gs[..0] == [];
    } else {
      FlatPorts(gs[1..], extra, lone, n - 1, k);
      MinPortsCons(gs[..n]);
      assert gs[..n][1..] == gs[1..][..n - 1] && gs[..n][0] == gs[0];
    }
  }

  // ---- the cursor ---------------------------------------------------------

  /** Where a cursor stands: group, position in it, and the extra ports it may still hand out. */
  datatype Cursor = Cursor(gi: nat, ppos: nat, left: int)

  function PortAt(g: Group, ppos: nat): int {
    var np := |g.ports|;
    if np == 0 then ppos
    else if OpenEnded(g) && ppos >= np - 1 then (if np >= 2 then g.ports[np - 2] + ppos - (np - 2) else 0)
    else if ppos < np then g.ports[ppos] else 0
  }

  /** One step of a cursor, branch by branch. */
  function Advance(gs: seq<Group>, c: Cursor, lone: bool): Cursor
    requires c.gi < |gs|
  {
    var g := gs[c.gi];
    var np := |g.ports|;
    if c.ppos + 1 < np && g.ports[c.ppos + 1] >= 0 then c.(ppos := c.ppos + 1)
    else if np > 0 && g.ports[np - 1] == -1 && c.left > 0 then c.(ppos := c.ppos + 1, left := c.left - 1)
    else if np == 0 && lone && c.left > 0 then c.(ppos := c.ppos + 1, left := c.left - 1)
    else Cursor(c.gi + 1, 0, c.left)
  }

  ghost function Room(gs: seq<Group>, c: Cursor): nat {
    if c.gi < |gs| && c.ppos < |gs[c.gi].ports| then |gs[c.gi].ports| - c.ppos else 0
  }

  /** What a cursor still has to show, its current port first. */
  ghost function Rest(gs: seq<Group>, c: Cursor, lone: bool): seq<PortRef>
    decreases |gs| - c.gi, Room(gs, c) + (if c.left > 0 then c.left else 0)
  {
    if c.gi >= |gs| then []
    else [PortRef(gs[c.gi].idx, PortAt(gs[c.gi], c.ppos))] + Rest(gs, Advance(gs, c, lone), lone)
  }

  lemma RestHead(gs: seq<Group>, c: Cursor, lone: bool)
    requires c.gi <= |gs|
    ensures Rest(gs, c, lone) == [] <==> c.gi == |gs|
    ensures c.gi < |gs| ==>
              Rest(gs, c, lone) == [PortRef(gs[c.gi].idx, PortAt(gs[c.gi], c.ppos))] + Rest(gs, Advance(gs, c, lone), lone)
  {}

  function Pos(left: int): nat {
    if left > 0 then left else 0
  }

  /** Inside the extra ports of an expanding group. */
  lemma {:induction false} RestExtra(gs: seq<Group>, c: Cursor, lone: bool)
    requires AllWellFormed(gs) && c.gi < |gs| && Expands(gs[c.gi], lone)
    requires gs[c.gi].ports != [] ==> c.ppos >= |gs[c.gi].ports| - 2
    ensures Rest(gs, c, lone) ==
            Numbered(gs[c.gi].idx, PortAt(gs[c.gi], c.ppos), 1 + Pos(c.left)) + Rest(gs, Cursor(c.gi + 1, 0, c.left - Pos(c.left)), lone)
    decreases Pos(c.left)
  {
    hide Rest;
    RestHead(gs, c, lone);
    var g := gs[c.gi];
    var head := PortRef(g.idx, PortAt(g, c.ppos));
    if c.left > 0 {
      var d := c.(ppos := c.ppos + 1, left := c.left - 1);
      assert Advance(gs, c, lone) == d;
      RestExtra(gs, d, lone);
      assert Numbered(g.idx, PortAt(g, c.ppos), 1 + Pos(c.left)) == [head] + Numbered(g.idx, PortAt(g, d.ppos), 1 + Pos(d.left));
    } else {
      assert Numbered(g.idx, PortAt(g, c.ppos), 1) == [head];
      assert Advance(gs, c, lone) == Cursor(c.gi + 1, 0, c.left);
    }
  }

  /** Among the listed ports of a group. */
  lemma {:induction false} RestListed(gs: seq<Group>, c: Cursor, lone: bool)
    requires AllWellFormed(gs) && c.gi < |gs| && c.ppos < |FixedPorts(gs[c.gi])|
    requires gs[c.gi].ports == [] ==> c.ppos == 0
    ensures var g := gs[c.gi];
            Rest(gs, c, lone) == GroupPorts(g, Pos(c.left), lone)[c.ppos..] +
                                 Rest(gs, Cursor(c.gi + 1, 0, if Expands(g, lone) then c.left - Pos(c.left) else c.left), lone)
    decreases |FixedPorts(gs[c.gi])| - c.ppos
  {
    hide GroupPorts, PortAt, Rest, Advance, FixedPorts;
    var g := gs[c.gi];
    var all := GroupPorts(g, Pos(c.left), lone);
    var head := PortRef(g.idx, PortAt(g, c.ppos));
    ListedHead(g, c.ppos, Pos(c.left), lone);
    RestHead(gs, c, lone);
    AdvanceListed(gs, c, lone);
    if c.ppos + 1 < |FixedPorts(g)| {
      var d := c.(ppos := c.ppos + 1);
      RestListed(gs, d, lone);
      assert all[c.ppos..] == [head] + all[d.ppos..];
    } else if Expands(g, lone) {
      LastListed(g, c.ppos);
      RestExtra(gs, c, lone);
    }
  }

  lemma LastListed(g: Group, ppos: nat)
    requires WellFormed(g) && ppos + 1 == |FixedPorts(g)|
    ensures g.ports != [] ==> ppos >= |g.ports| - 2
  {}

  lemma AdvanceListed(gs: seq<Group>, c: Cursor, lone: bool)
    requires AllWellFormed(gs) && c.gi < |gs| && c.ppos < |FixedPorts(gs[c.gi])|
    requires gs[c.gi].ports == [] ==> c.ppos == 0
    ensures c.ppos + 1 < |FixedPorts(gs[c.gi])| ==> Advance(gs, c, lone) == c.(ppos := c.ppos + 1)
    ensures c.ppos + 1 < |FixedPorts(gs[c.gi])| ==> gs[c.gi].ports != []
    ensures c.ppos + 1 == |FixedPorts(gs[c.gi])| && !Expands(gs[c.gi], lone) ==> Advance(gs, c, lone) == Cursor(c.gi + 1, 0, c.left)
  {}

  lemma ListedHead(g: Group, ppos: nat, extra: nat, lone: bool)
    requires WellFormed(g) && ppos < |FixedPorts(g)| && (g.ports == [] ==> ppos == 0)
    ensures var all := GroupPorts(g, extra, lone);
            var head := PortRef(g.idx, PortAt(g, ppos));
            && ppos < |all| && all[ppos] == head
            && (ppos + 1 == |FixedPorts(g)| && Expands(g, lone) ==> all[ppos..] == Numbered(g.idx, PortAt(g, ppos), 1 + extra))
            && (ppos + 1 == |FixedPorts(g)| && !Expands(g, lone) ==> all[ppos..] == [head])
  {}

  /** From the start of a group, the cursor shows the flattened rest of the list. */
  lemma {:induction false} RestIsFlat(gs: seq<Group>, gi: nat, left: int, lone: bool)
    requires AllWellFormed(gs) && gi <= |gs|
    ensures Rest(gs, Cursor(gi, 0, left), lone) == Flat(gs[gi..], Pos(left), lone)
    decreases |gs| - gi
  {
    if gi < |gs| {
      var g := gs[gi];
      RestListed(gs, Cursor(gi, 0, left), lone);
      var all := GroupPorts(g, Pos(left), lone);
      assert all[0..] == all;
      var left' := if Expands(g, lone) then left - Pos(left) else left;
      RestIsFlat(gs, gi + 1, left', lone);
      assert gs[gi..][1..] == gs[gi + 1..];
    }
  }

  // ---- which connections are meant ----------------------------------------

  /** May a side with fewer ports than the other one be stretched? */
  predicate Stretches(gs: seq<Group>, other: nat, double: bool)
    requires gs != []
  {
    Expandables(gs) > 0 || (double && MinPorts(gs) == 1 && other > 1 && gs[0].ports == [])
  }

  /** Does a side have more than one port to offer? */
  predicate Many(gs: seq<Group>, other: nat, double: bool)
    requires gs != []
  {
    MinPorts(gs) > 1 || Stretches(gs, other, double)
  }

  /** When the parser accepts a connection between two lists. */
  predicate Compatible(outputs: seq<Group>, inputs: seq<Group>, double: bool)
    requires outputs != [] && inputs != []
  {
    var (m, n) := (MinPorts(outputs), MinPorts(inputs));
    && Expandables(outputs) + Expandables(inputs) <= 1
    && (Many(outputs, n, double) && Many(inputs, m, double) ==>
          && double
          && (m < n ==> Stretches(outputs, n, double))
          && (n < m ==> Stretches(inputs, m, double)))
  }

  function Max(m: nat, n: nat): nat {
    if m < n then n else m
  }

  /** The ports one side contributes to the connections: listed, stretched, or one port over and over. */
  function Supply(gs: seq<Group>, other: nat, double: bool): seq<PortRef>
    requires gs != [] && AllWellFormed(gs)
  {
    var m := MinPorts(gs);
    if m >= other then Flat(gs, 0, m == 1)
    else if Stretches(gs, other, double) then Flat(gs, other - m, m == 1)
    else seq(other, _ => FixedPorts(gs[0])[0])
  }

  /** The i-th pair of a stepping or standing cursor on each side. */
  ghost function Paired(outs: seq<PortRef>, stepOut: bool, ins: seq<PortRef>, stepIn: bool, n: nat): seq<(PortRef, PortRef)>
    requires outs != [] && ins != []
    requires (stepOut ==> n <= |outs|) && (stepIn ==> n <= |ins|)
  {
    seq(n, i requires 0 <= i < n => (outs[if stepOut then i else 0], ins[if stepIn then i else 0]))
  }

  // ---- the loop -----------------------------------------------------------

  /** A cursor as the source keeps it; port is -1 until it is looked up at the start of a group. */
  ghost predicate Shows(gs: seq<Group>, gi: nat, ppos: nat, port: int) {
    && gi <= |gs|
    && (port < 0 ==> ppos == 0)
    && (port >= 0 ==> gi < |gs| && port == PortAt(gs[gi], ppos) && InGroup(gs[gi], ppos))
  }

  predicate InGroup(g: Group, ppos: nat) {
    g.ports == [] || OpenEnded(g) || ppos < |g.ports|
  }

  /** The last part of the loop body, for one side. */
  method StepCursor(gs: seq<Group>, gi: nat, ppos: nat, left: int, lone: bool) returns (gi': nat, ppos': nat, left': int, port: int)
    requires AllWellFormed(gs) && gi < |gs|
    ensures Cursor(gi', ppos', left') == Advance(gs, Cursor(gi, ppos, left), lone)
    ensures InGroup(gs[gi], ppos) ==> Shows(gs, gi', ppos', port)
  {
    var pvec := gs[gi].ports;
    var np := |pvec|;
    gi', ppos', left' := gi, ppos + 1, left;
    if ppos' < np && pvec[ppos'] >= 0 {
      port := pvec[ppos'];
    } else if np > 0 && pvec[np - 1] == -1 && left > 0 {
      port := pvec[np - 2] + ppos' - (np - 2);
      left' := left - 1;
    } else if np == 0 && lone && left > 0 {
      port := ppos';
      left' := left - 1;
    } else {
      port := -1;
      ppos' := 0;
      gi' := gi + 1;
    }
  }

  /** The port at the start of a group. */
  function FirstPort(g: Group): int {
    if g.ports != [] then g.ports[0] else 0
  }

  ghost function Steps(stepOut: bool, nOut: nat, stepIn: bool, nIn: nat): nat {
    if stepOut && stepIn then (if nOut < nIn then nOut else nIn)
    else if stepOut then nOut else nIn
  }

  /** The cursor has shown the first i ports of the list, or has not moved if its side does not step. */
  ghost predicate At(gs: seq<Group>, c: Cursor, lone: bool, all: seq<PortRef>, step: bool, i: nat) {
    && c.gi <= |gs|
    && (step ==> i <= |all| && Rest(gs, c, lone) == all[i..])
    && (!step ==> Rest(gs, c, lone) == all && all != [])
  }

  lemma AtHead(gs: seq<Group>, c: Cursor, lone: bool, all: seq<PortRef>, step: bool, i: nat)
    requires At(gs, c, lone, all, step, i)
    ensures step ==> (c.gi == |gs| <==> i == |all|)
    ensures !step ==> c.gi < |gs|
    ensures c.gi < |gs| ==> var k := if step then i else 0;
              k < |all| && all[k] == PortRef(gs[c.gi].idx, PortAt(gs[c.gi], c.ppos))
    ensures c.gi < |gs| && step ==> At(gs, Advance(gs, c, lone), lone, all, step, i + 1)
    ensures !step ==> At(gs, c, lone, all, step, i + 1)
  {
    RestHead(gs, c, lone);
    if c.gi < |gs| {
      assert step ==> all[i..][0] == all[i] && all[i..][1..] == all[i + 1..];
      assert ([PortRef(gs[c.gi].idx, PortAt(gs[c.gi], c.ppos))] + Rest(gs, Advance(gs, c, lone), lone))[1..] ==
             Rest(gs, Advance(gs, c, lone), lone);
    }
  }

  /** The two-cursor loop. */
  method PairUp(outputs: seq<Group>, stepOut: bool, leftOut: int, inputs: seq<Group>, stepIn: bool, leftIn: int,
                loneOut: bool, loneIn: bool)
    returns (conns: seq<(PortRef, PortRef)>)
    requires AllWellFormed(outputs) && AllWellFormed(inputs) && outputs != [] && inputs != []
    requires stepOut || stepIn
    ensures var outs, ins := Flat(outputs, Pos(leftOut), loneOut), Flat(inputs, Pos(leftIn), loneIn);
            && outs != [] && ins != []
            && conns == Paired(outs, stepOut, ins, stepIn, Steps(stepOut, |outs|, stepIn, |ins|))
  {
    hide Rest, Advance, PortAt, Flat;
    ghost var outs, ins := Flat(outputs, Pos(leftOut), loneOut), Flat(inputs, Pos(leftIn), loneIn);
    var g1: nat, p1: nat, l1: int, port1: int := 0, 0, leftOut, -1;
    var g0: nat, p0: nat, l0: int, port0: int := 0, 0, leftIn, -1;
    StartsAt(outputs, leftOut, loneOut, stepOut);
    StartsAt(inputs, leftIn, loneIn, stepIn);
    conns := [];
    while g0 != |inputs| && g1 != |outputs|
      invariant At(outputs, Cursor(g1, p1, l1), loneOut, outs, stepOut, |conns|)
      invariant At(inputs, Cursor(g0, p0, l0), loneIn, ins, stepIn, |conns|)
      invariant Shows(outputs, g1, p1, port1) && Shows(inputs, g0, p0, port0)
      invariant |conns| <= Steps(stepOut, |outs|, stepIn, |ins|)
      invariant conns == Paired(outs, stepOut, ins, stepIn, |conns|)
      decreases Steps(stepOut, |outs|, stepIn, |ins|) - |conns|
    {
      AtHead(outputs, Cursor(g1, p1, l1), loneOut, outs, stepOut, |conns|);
      AtHead(inputs, Cursor(g0, p0, l0), loneIn, ins, stepIn, |conns|);
      hide At;
      FirstIs(outputs[g1]);
      FirstIs(inputs[g0]);
      if port1 < 0 {
        port1 := FirstPort(outputs[g1]);
      }
      if port0 < 0 {
        port0 := FirstPort(inputs[g0]);
      }
      conns := conns + [(PortRef(outputs[g1].idx, port1), PortRef(inputs[g0].idx, port0))];
      if stepOut {
        g1, p1, l1, port1 := StepCursor(outputs, g1, p1, l1, loneOut);
      }
      if stepIn {
        g0, p0, l0, port0 := StepCursor(inputs, g0, p0, l0, loneIn);
      }
    }
    AtHead(outputs, Cursor(g1, p1, l1), loneOut, outs, stepOut, |conns|);
    AtHead(inputs, Cursor(g0, p0, l0), loneIn, ins, stepIn, |conns|);
  }

  lemma FirstIs(g: Group)
    requires WellFormed(g)
    ensures FirstPort(g) == PortAt(g, 0) && FirstPort(g) >= 0 && InGroup(g, 0)
  {}

  lemma StartsAt(gs: seq<Group>, left: int, lone: bool, step: bool)
    requires AllWellFormed(gs) && gs != []
    ensures Flat(gs, Pos(left), lone) != []
    ensures At(gs, Cursor(0, 0, left), lone, Flat(gs, Pos(left), lone), step, 0)
  {
    RestIsFlat(gs, 0, left, lone);
    assert gs[0..] == gs;
    var all := Flat(gs, Pos(left), lone);
    assert all[0..] == all;
    assert GroupPorts(gs[0], Pos(left), lone) != [];
  }

  /**
   yconnection_connect_all.  It reports an error exactly when the lists do not go together; otherwise
   it makes one connection for each port of the longer list, pairing the i-th ports of both sides.
   */
  method ConnectAll(outputs: seq<Group>, inputs: seq<Group>, double: bool)
    returns (conns: seq<(PortRef, PortRef)>, errors: nat)
    requires AllWellFormed(outputs) && AllWellFormed(inputs) && outputs != [] && inputs != []
    ensures errors == 0 <==> Compatible(outputs, inputs, double)
    ensures errors == 0 ==>
              var (m, n) := (MinPorts(outputs), MinPorts(inputs));
              && |conns| == Max(m, n) == |Supply(outputs, n, double)| == |Supply(inputs, m, double)|
              && forall i :: 0 <= i < |conns| ==> conns[i] == (Supply(outputs, n, double)[i], Supply(inputs, m, double)[i])
  {
    hide Flat, MinPorts, Expandables, Supply, AllWellFormed;
    errors := 0;
    AtLeastOne(outputs);
    AtLeastOne(inputs);
    var min1, exp1 := AnalyzePorts(outputs);
    var min0, exp0 := AnalyzePorts(inputs);
    if exp0 + exp1 > 1 {
      errors := errors + 1;
      if min0 < min1 {
        exp1 := 0;
      } else {
        exp0 := 0;
      }
    }
    if double {
      if min0 == 1 && min1 > 1 && inputs[0].ports == [] {
        exp0 := 1;
      }
      if min1 == 1 && min0 > 1 && outputs[0].ports == [] {
        exp1 := 1;
      }
    }
    var step0 := min0 > 1 || exp0 != 0;
    var step1 := min1 > 1 || exp1 != 0;
    var left0 := if exp0 != 0 then min1 - min0 else 0;
    var left1 := if exp1 != 0 then min0 - min1 else 0;
    if step0 && step1 {
      if !double {
        errors := errors + 1;
      }
      if exp0 == 0 && exp1 == 0 && min0 != min1 {
        errors := errors + 1;
      } else if exp0 == 0 && min0 < min1 {
        errors := errors + 1;
      } else if exp1 == 0 && min1 < min0 {
        errors := errors + 1;
      }
    } else if !step0 && !step1 {
      step0 := true;
    }
    conns := PairUp(outputs, step1, left1, inputs, step0, left0, min1 == 1, min0 == 1);
    if errors == 0 {
      SuppliedBy(outputs, min0, double, left1);
      SuppliedBy(inputs, min1, double, left0);
    }
  }

  lemma AtLeastOne(gs: seq<Group>)
    requires AllWellFormed(gs) && gs != []
    ensures MinPorts(gs) >= 1
    ensures MinPorts(gs) == 1 ==> |gs| == 1
  {
    MinPortsCons(gs);
    if |gs| > 1 {
      MinPortsCons(gs[1..]);
    }
  }

  /** What one side hands out when nothing was wrong with the lists. */
  lemma SuppliedBy(gs: seq<Group>, other: nat, double: bool, left: int)
    requires AllWellFormed(gs) && gs != [] && other >= 1
    requires left == if Stretches(gs, other, double) then other - MinPorts(gs) else 0
    requires MinPorts(gs) == 1 || MinPorts(gs) >= other || Stretches(gs, other, double)
    ensures var m, all := MinPorts(gs), Flat(gs, Pos(left), MinPorts(gs) == 1);
            && |Supply(gs, other, double)| == Max(m, other)
            && (m >= other || Stretches(gs, other, double) ==> Supply(gs, other, double) == all)
            && (!(m >= other || Stretches(gs, other, double)) ==>
                  |all| == 1 && forall i :: 0 <= i < other ==> Supply(gs, other, double)[i] == all[0])
  {
    hide Flat, MinPorts, Expandables, SomeExpands, AllWellFormed;
    var m := MinPorts(gs);
    AtLeastOne(gs);
    FlatLength(gs, Pos(left), m == 1);
    if Stretches(gs, other, double) {
      StretchExpands(gs, other, double);
    } else if m < other {
      FlatFirst(gs, 0, true);
    }
  }

  lemma StretchExpands(gs: seq<Group>, other: nat, double: bool)
    requires gs != [] && Stretches(gs, other, double)
    ensures SomeExpands(gs, MinPorts(gs) == 1)
  {
    hide MinPorts;
    if Expandables(gs) == 0 {
      assert Expands(gs[0], true);
    } else {
      ExpandableExists(gs);
      var i :| 0 <= i < |gs| && OpenEnded(gs[i]);
      assert Expands(gs[i], MinPorts(gs) == 1);
    }
  }

  lemma FlatFirst(gs: seq<Group>, extra: nat, lone: bool)
    requires AllWellFormed(gs) && gs != []
    ensures Flat(gs, extra, lone) != [] && Flat(gs, extra, lone)[0] == FixedPorts(gs[0])[0]
  {}
}
