/**
 What a thread gets from pool_allocate and what becomes of what it hands to
 recycle (click/lib/packet.cc:311-459), in every interleaving: the steps of one
 call are found again among the steps of all threads.
 */
module PoolCalls {
  import opened Wrappers
  import opened PacketPool

  // ---- the steps of one call ----------------------------------------------

  /** Between g and j only other threads act. */
  ghost predicate QuietBetween(actions: seq<Action>, t: nat, g: nat, j: nat) {
    forall k :: g < k < j && k < |actions| ==> actions[k].t != t
  }

  lemma SameForTwice(s: State, s': State, s'': State, u: nat)
    requires SameFor(s, s', u) && SameFor(s', s'', u)
    ensures SameFor(s, s'', u)
  {}

  /** A thread inside a call has acted before; since then nothing of its own has changed. */
  lemma {:induction false} LastOwn(ss: seq<State>, actions: seq<Action>, t: nat, j: nat) returns (g: nat)
    requires IsRun(ss, actions) && j < |ss| && !PcOf(ss[j], t).Idle?
    ensures g < j && actions[g].t == t && QuietBetween(actions, t, g, j)
    ensures SameFor(ss[g + 1], ss[j], t)
  {
    hide Step, Enabled;
    assert j > 0;
    if actions[j - 1].t == t {
      g := j - 1;
    } else {
      OthersUndisturbed(ss[j - 1], actions[j - 1], t);
      g := LastOwn(ss, actions, t, j - 1);
      SameForTwice(ss[g + 1], ss[j - 1], ss[j], t);
    }
  }

  predicate Allocating(pc: Pc) {
    pc.AllocTest? || pc.AllocLock? || pc.AllocTake?
  }

  /** actions[i] enters pool_allocate, and up to j the thread does nothing but glance and take batches. */
  ghost predicate CallFrom(actions: seq<Action>, t: nat, want: Option<nat>, i: nat, j: nat) {
    && i < j <= |actions| && actions[i] == Allocate(t, want)
    && forall k :: i < k < j && actions[k].t == t ==> actions[k].Glance? || actions[k].TakeBatches?
  }

  /** A thread inside pool_allocate still knows what it was called for. */
  lemma {:induction false} EnteredWith(ss: seq<State>, actions: seq<Action>, t: nat, j: nat) returns (i: nat)
    requires IsRun(ss, actions) && j < |ss| && Allocating(PcOf(ss[j], t))
    ensures CallFrom(actions, t, PcOf(ss[j], t).want, i, j)
  {
    var g := LastOwn(ss, actions, t, j);
    OwnStep(ss[g], actions[g]);
    hide Step;
    if actions[g].Allocate? {
      i := g;
    } else {
      i := EnteredWith(ss, actions, t, g);
    }
  }

  /** Where a step leads its thread. */
  lemma OwnStep(s: State, a: Action)
    requires Enabled(s, a)
    ensures var pc, pc' := PcOf(s, a.t), PcOf(Step(s, a), a.t);
            && (Allocating(pc') ==> || (a.Allocate? && pc'.want == a.want)
                                    || ((a.Glance? || a.TakeBatches?) && Allocating(pc) && pc.want == pc'.want))
            && (pc'.RecycleLock? ==> a.Recycle?)
            && (pc'.RecyclePut? ==> a.Recycle? || (a.GiveBatches? && pc == RecycleLock(pc'.withData)))
  {
    hide TakeStep, RecycleStep, TakeBatchesStep, GiveBatchesStep, PutStep, SameFor;
    if a.Take? {
      TakePc(s, a.t, PcOf(s, a.t).want, a.memP, a.memD);
    } else if a.Recycle? {
      RecyclePc(s, a.t, a.p, a.d);
    } else {
      BatchPcs(s, a.t);
    }
  }

  lemma TakePc(s: State, t: nat, want: Option<nat>, memP: bool, memD: bool)
    ensures PcOf(TakeStep(s, t, want, memP, memD), t) == Idle
  {}

  lemma RecyclePc(s: State, t: nat, p: nat, d: Option<nat>)
    ensures var pc := PcOf(RecycleStep(s, t, p, d), t); pc.RecycleLock? || pc.RecyclePut?
  {}

  lemma BatchPcs(s: State, t: nat)
    ensures forall want :: PcOf(TakeBatchesStep(s, t, want), t) == AllocTake(want)
    ensures forall withData :: PcOf(GiveBatchesStep(s, t, withData), t) == RecyclePut(withData)
    ensures forall withData :: PcOf(PutStep(s, t, withData), t) == Idle
  {}

  // ---- what pool_allocate hands out ---------------------------------------

  /** x and nothing else has come into use; it was in the pool of t, or is new if that was empty. */
  ghost predicate HandedOut(s: Side, s': Side, t: nat, x: nat) {
    && x !in s.inUse && s'.inUse == s.inUse + {x} && s'.freed == s.freed
    && s'.batches == s.batches && s'.transit == s.transit && t in s.pools && t in s'.pools
    && (if s.pools[t].items != [] then s.pools[t].items == [x] + s'.pools[t].items && s'.next == s.next
        else x == s.next && s'.next == s.next + 1 && s'.pools == s.pools)
  }

  /** Whether the call gets what it needs: a pooled item or memory for a new one. */
  ghost predicate Supplied(s: State, t: nat, want: Option<nat>, memP: bool, memD: bool) {
    && t in s.packets.pools && t in s.datas.pools
    && (s.packets.pools[t].items == [] ==> memP)
    && (want.Some? && (want.value != BUFSIZ || s.datas.pools[t].items == []) ==> memD)
  }

  /**
   The outcome of pool_allocate: a packet and, if wanted, a buffer of exactly
   the length asked for, exactly when everything is supplied; else no packet
   is in use that was not before.
   */
  ghost predicate TakeOutcome(s: State, s': State, t: nat, want: Option<nat>, memP: bool, memD: bool) {
    && (Supplied(s, t, want, memP, memD) <==> s'.packets.inUse != s.packets.inUse)
    && (Supplied(s, t, want, memP, memD) ==> exists p :: HandedOut(s.packets, s'.packets, t, p))
    && (Supplied(s, t, want, memP, memD) && want.Some? ==> exists d :: DataOutcome(s, s', t, want.value, d))
    && (!Supplied(s, t, want, memP, memD) || want.None? ==> s'.datas == s.datas && s'.sizes == s.sizes)
  }

  /** d is the one buffer that has come into use, and it has n bytes; a pooled one is used only for the pool's length. */
  ghost predicate DataOutcome(s: State, s': State, t: nat, n: nat, d: nat) {
    && d !in s.datas.inUse && s'.datas.inUse == s.datas.inUse + {d} && s'.datas.freed == s.datas.freed
    && d in s'.sizes && s'.sizes[d] == n && (forall id :: id in s.sizes ==> id in s'.sizes && s'.sizes[id] == s.sizes[id])
    && s'.datas.batches == s.datas.batches && s'.datas.transit == s.datas.transit
    && t in s.datas.pools && t in s'.datas.pools
    && (if n == BUFSIZ && s.datas.pools[t].items != [] then s.datas.pools[t].items == [d] + s'.datas.pools[t].items
        else d == s.datas.next && s'.datas.pools == s.datas.pools)
  }

  lemma PopHandsOut(s: Side, t: nat, at: map<nat, Place>)
    requires SideInv(s, at) && t in s.pools && s.pools[t].items != []
    ensures HandedOut(s, Pop(s, t).0, t, Pop(s, t).1)
  {
    assert Occupies(s, s.pools[t].items[0], InPool(t));
    assert !Occupies(s, s.pools[t].items[0], InUse);
  }

  lemma NewHandsOut(s: Side, t: nat, at: map<nat, Place>)
    requires SideInv(s, at) && t in s.pools && s.pools[t].items == []
    ensures HandedOut(s, New(s).0, t, New(s).1)
  {
    assert !Occupies(s, s.next, InUse);
  }

  lemma PooledSize(s: State, t: nat, atP: map<nat, Place>, atD: map<nat, Place>)
    requires Inv(s, atP, atD) && t in s.datas.pools && s.datas.pools[t].items != []
    ensures s.datas.pools[t].items[0] in s.sizes && s.sizes[s.datas.pools[t].items[0]] == BUFSIZ
  {
    assert Occupies(s.datas, s.datas.pools[t].items[0], InPool(t));
  }

  lemma NewName(s: State, atP: map<nat, Place>, atD: map<nat, Place>)
    requires Inv(s, atP, atD)
    ensures s.datas.next !in s.sizes && s.datas.next !in s.datas.inUse
  {
    assert !Occupies(s.datas, s.datas.next, InUse);
  }

  lemma DataGives(s: State, s1: State, t: nat, p: nat, n: nat, memD: bool, atP: map<nat, Place>, atD: map<nat, Place>)
    requires Inv(s, atP, atD) && t in s.datas.pools && s1.datas == s.datas && s1.sizes == s.sizes
    ensures var s' := TakeData(s1, t, p, n, memD);
            if (n == BUFSIZ && s.datas.pools[t].items != []) || memD
            then s'.packets == s1.packets && exists d :: DataOutcome(s, s', t, n, d)
            else s'.packets == Delete(s1.packets, p) && s'.datas == s.datas && s'.sizes == s.sizes
  {
    PoolCount(s.datas, t, atD);
    NewName(s, atP, atD);
    var s' := TakeData(s1, t, p, n, memD);
    if n == BUFSIZ && s.datas.pools[t].items != [] {
      PopHandsOut(s.datas, t, atD);
      PooledSize(s, t, atP, atD);
      hide Inv;
      assert DataOutcome(s, s', t, n, s.datas.pools[t].items[0]);
    } else if memD {
      hide Inv;
      assert DataOutcome(s, s', t, n, s.datas.next);
    }
  }

  lemma TakeGives(s: State, a: Action, atP: map<nat, Place>, atD: map<nat, Place>)
    requires Inv(s, atP, atD) && Enabled(s, a) && a.Take?
    ensures TakeOutcome(s, Step(s, a), a.t, PcOf(s, a.t).want, a.memP, a.memD)
  {
    var t, want := a.t, PcOf(s, a.t).want;
    assert ThreadOk(s, t);
    PoolCount(s.packets, t, atP);
    var s0 := s.(pcs := s.pcs[t := Idle]);
    var pop := s.packets.pools[t].items != [];
    if pop || a.memP {
      var (packets, p) := if pop then Pop(s.packets, t) else New(s.packets);
      if pop {
        PopHandsOut(s.packets, t, atP);
      } else {
        NewHandsOut(s.packets, t, atP);
      }
      if want.Some? {
        DataGives(s, s0.(packets := packets), t, p, want.value, a.memD, atP, atD);
      }
      hide Inv, DataOutcome, TakeData, Pop, New;
      assert HandedOut(s.packets, packets, t, p);
    }
  }

  /**
   In every interleaving, a call of pool_allocate for `want` that ends with
   actions[j] hands out what it was entered for.
   */
  lemma EveryCallGets(ss: seq<State>, actions: seq<Action>, j: nat) returns (i: nat)
    requires IsRun(ss, actions) && j < |actions| && actions[j].Take?
    ensures i < j && actions[i].Allocate? && CallFrom(actions, actions[j].t, actions[i].want, i, j)
    ensures TakeOutcome(ss[j], ss[j + 1], actions[j].t, actions[i].want, actions[j].memP, actions[j].memD)
  {
    hide Step, Inv, TakeOutcome;
    i := EnteredWith(ss, actions, actions[j].t, j);
    var atP, atD := RunKeeps(ss, actions, j);
    TakeGives(ss[j], actions[j], atP, atD);
  }

  // ---- new is the last resort ---------------------------------------------

  /** After a glance or a locked section the own pool is empty only if there was no batch to take. */
  lemma EmptyMeansNone(s: State, a: Action)
    requires Enabled(s, a) && (a.Glance? || a.TakeBatches?) && Counted(s.packets) && Counted(s.datas)
    requires a.t in s.packets.pools && a.t in s.datas.pools
    requires PcOf(Step(s, a), a.t).AllocTake?
    ensures var s' := Step(s, a);
            && s'.packets.pools.Keys == s.packets.pools.Keys && s'.datas.pools.Keys == s.datas.pools.Keys
            && (s'.packets.pools[a.t].items == [] ==> s.packets.batches == [])
            && (PcOf(s', a.t).want == Some(BUFSIZ) && s'.datas.pools[a.t].items == [] ==> s.datas.batches == [])
  {
    if a.TakeBatches? {
      StealFills(s.packets, a.t);
      StealFills(s.datas, a.t);
    }
  }

  lemma StealFills(s: Side, t: nat)
    requires t in s.pools && Counted(s)
    ensures Steal(s, t).pools.Keys == s.pools.Keys
    ensures Steal(s, t).pools[t].items == [] ==> s.batches == []
  {
    assert s.batches != [] ==> |s.batches[0].items| == POOL_SIZE;
  }

  /** In every interleaving a thread that has to call new has found no batch in the global pool since it entered. */
  lemma NewOnlyWithoutBatches(ss: seq<State>, actions: seq<Action>, j: nat) returns (g: nat)
    requires IsRun(ss, actions) && j < |actions| && actions[j].Take?
    ensures g < j && actions[g].t == actions[j].t && QuietBetween(actions, actions[j].t, g, j)
    ensures actions[g].Glance? || actions[g].TakeBatches?
    ensures var t := actions[j].t;
            && t in ss[j].packets.pools && t in ss[j].datas.pools
            && (ss[j].packets.pools[t].items == [] ==> ss[g].packets.batches == [])
            && (PcOf(ss[j], t).want == Some(BUFSIZ) && ss[j].datas.pools[t].items == [] ==> ss[g].datas.batches == [])
  {
    var t := actions[j].t;
    g := LastOwn(ss, actions, t, j);
    assert Enabled(ss[j], actions[j]) && Enabled(ss[g], actions[g]);
    OwnStep(ss[g], actions[g]);
    AllocatePc(ss[g], actions[g]);
    RunCounts(ss, actions, g);
    var atP, atD := RunKeeps(ss, actions, g);
    assert ThreadOk(ss[g], t);
    EmptyMeansNone(ss[g], actions[g]);
  }

  lemma AllocatePc(s: State, a: Action)
    requires Enabled(s, a)
    ensures a.Allocate? ==> PcOf(Step(s, a), a.t).AllocTest?
  {}

  // ---- what recycle does with what it is given ----------------------------

  /** actions[i] enters recycle, and up to j the thread does nothing but give batches. */
  ghost predicate RecycleFrom(actions: seq<Action>, t: nat, i: nat, j: nat) {
    && i < j <= |actions| && actions[i].Recycle? && actions[i].t == t
    && forall k :: i < k < j && actions[k].t == t ==> actions[k].GiveBatches?
  }

  /** What recycle keeps: the packet, and its buffer if that has the pool's length. */
  ghost predicate Carries(s: State, t: nat, p: nat, d: Option<nat>, sizes: map<nat, nat>) {
    && t in s.packets.transit && s.packets.transit[t] == p
    && (t in s.datas.transit <==> d.Some? && d.value in sizes && sizes[d.value] == BUFSIZ)
    && (t in s.datas.transit ==> s.datas.transit[t] == d.value)
  }

  lemma RecycleCarries(s: State, t: nat, p: nat, d: Option<nat>)
    requires t !in s.datas.transit
    ensures Carries(RecycleStep(s, t, p, d), t, p, d, s.sizes)
  {}

  lemma GiveCarries(s: State, t: nat, withData: bool, p: nat, d: Option<nat>, sizes: map<nat, nat>)
    requires Carries(s, t, p, d, sizes)
    ensures Carries(GiveBatchesStep(s, t, withData), t, p, d, sizes)
  {}

  lemma SameCarries(s: State, s': State, t: nat, p: nat, d: Option<nat>, sizes: map<nat, nat>)
    requires SameFor(s, s', t) && Carries(s, t, p, d, sizes)
    ensures Carries(s', t, p, d, sizes)
  {}

  lemma {:induction false} StillCarries(ss: seq<State>, actions: seq<Action>, t: nat, j: nat) returns (i: nat)
    requires IsRun(ss, actions) && j < |ss| && (PcOf(ss[j], t).RecycleLock? || PcOf(ss[j], t).RecyclePut?)
    ensures RecycleFrom(actions, t, i, j) && i < |ss|
    ensures Carries(ss[j], t, actions[i].p, actions[i].d, ss[i].sizes)
  {
    var g := LastOwn(ss, actions, t, j);
    OwnStep(ss[g], actions[g]);
    assert Enabled(ss[g], actions[g]);
    hide TakeStep, RecycleStep, TakeBatchesStep, GiveBatchesStep, PutStep, SameFor, Carries;
    if actions[g].Recycle? {
      i := g;
      var atP, atD := RunKeeps(ss, actions, g);
      assert ThreadOk(ss[g], t);
      RecycleCarries(ss[g], t, actions[g].p, actions[g].d);
    } else {
      i := StillCarries(ss, actions, t, g);
      GiveCarries(ss[g], t, PcOf(ss[g], t).withData, actions[i].p, actions[i].d, ss[i].sizes);
    }
    SameCarries(ss[g + 1], ss[j], t, actions[i].p, actions[i].d, ss[i].sizes);
  }

  /** x is now the first item of the pool of t; what the pool held follows. */
  ghost predicate PutFirst(s: Side, s': Side, t: nat, x: nat) {
    && t in s.pools && t in s'.pools && s'.pools[t].items == [x] + s.pools[t].items
    && s'.inUse == s.inUse && s'.freed == s.freed && s'.batches == s.batches
  }

  /**
   In every interleaving the packet a thread recycles ends up first in its
   pool, and so does the packet's buffer if it has the pool's length; the next
   call of pool_allocate by this thread finds them there.
   */
  lemma EveryRecyclePools(ss: seq<State>, actions: seq<Action>, j: nat) returns (i: nat)
    requires IsRun(ss, actions) && j < |actions| && actions[j].Put?
    ensures RecycleFrom(actions, actions[j].t, i, j)
    ensures PutFirst(ss[j].packets, ss[j + 1].packets, actions[j].t, actions[i].p)
    ensures var d := actions[i].d;
            if d.Some? && d.value in ss[i].sizes && ss[i].sizes[d.value] == BUFSIZ
            then PutFirst(ss[j].datas, ss[j + 1].datas, actions[j].t, d.value)
            else ss[j + 1].datas == ss[j].datas
  {
    var t := actions[j].t;
    assert Enabled(ss[j], actions[j]);
    i := StillCarries(ss, actions, t, j);
    var atP, atD := RunKeeps(ss, actions, j);
    assert ThreadOk(ss[j], t);
    PutPuts(ss[j], t, PcOf(ss[j], t).withData, actions[i].p, actions[i].d, ss[i].sizes);
  }

  lemma PutPuts(s: State, t: nat, withData: bool, p: nat, d: Option<nat>, sizes: map<nat, nat>)
    requires t in s.packets.pools && t in s.datas.pools && Carries(s, t, p, d, sizes) && (withData <==> t in s.datas.transit)
    ensures var s' := PutStep(s, t, withData);
            && PutFirst(s.packets, s'.packets, t, p)
            && if t in s.datas.transit then PutFirst(s.datas, s'.datas, t, d.value) else s'.datas == s.datas
  {}

  /** A full pool has become the batch on top, in the same order, or has been deleted because there were enough. */
  ghost predicate GivenAway(s: Side, s': Side, t: nat) {
    && t in s.pools && s'.inUse == s.inUse && s'.transit == s.transit
    && if |s.pools[t].items| < POOL_SIZE then s' == s
       else && t in s'.pools && s'.pools[t].items == []
            && if |s.batches| < GLOBAL_COUNT
               then s'.freed == s.freed && |s'.batches| == |s.batches| + 1
                    && s'.batches[0].items == s.pools[t].items && s'.batches[1..] == s.batches
               else s'.batches == s.batches && s'.freed == s.freed + (set id | id in s.pools[t].items)
  }

  lemma FlushGives(s: Side, t: nat)
    requires t in s.pools && Counted(s)
    ensures GivenAway(s, Flush(s, t), t)
  {}

  lemma EveryFlushGives(ss: seq<State>, actions: seq<Action>, j: nat)
    requires IsRun(ss, actions) && j < |actions| && actions[j].GiveBatches?
    ensures GivenAway(ss[j].packets, ss[j + 1].packets, actions[j].t)
    ensures if PcOf(ss[j], actions[j].t).RecycleLock? && PcOf(ss[j], actions[j].t).withData
            then GivenAway(ss[j].datas, ss[j + 1].datas, actions[j].t)
            else ss[j + 1].datas == ss[j].datas
  {
    var t := actions[j].t;
    assert Enabled(ss[j], actions[j]);
    var atP, atD := RunKeeps(ss, actions, j);
    assert ThreadOk(ss[j], t);
    hide GivenAway, Flush;
    FlushGives(ss[j].packets, t);
    FlushGives(ss[j].datas, t);
  }

  // ---- nothing is deleted without need ------------------------------------

  /** The only ways a packet goes back to the system: the global pool is full, or no data could be had for it. */
  ghost predicate PacketFreed(s: State, a: Action) {
    || (a.GiveBatches? && |s.packets.batches| == GLOBAL_COUNT)
    || (a.Take? && PcOf(s, a.t).AllocTake? && PcOf(s, a.t).want.Some? && !a.memD)
  }

  /** The only ways a buffer does: a packet gave it up, it is not of the pool's length, or the global pool is full. */
  ghost predicate DataFreed(s: State, a: Action, id: nat) {
    || (a.FreeData? && a.id == id)
    || (a.Recycle? && a.d == Some(id) && id in s.sizes && s.sizes[id] != BUFSIZ)
    || (a.GiveBatches? && |s.datas.batches| == GLOBAL_COUNT && a.t in s.datas.pools && id in s.datas.pools[a.t].items)
  }

  lemma TakeFrees(s: State, t: nat, want: Option<nat>, memP: bool, memD: bool)
    ensures TakeStep(s, t, want, memP, memD).datas.freed == s.datas.freed
    ensures TakeStep(s, t, want, memP, memD).packets.freed == s.packets.freed || (want.Some? && !memD)
  {}

  lemma RecycleFrees(s: State, t: nat, p: nat, d: Option<nat>)
    requires d.Some? ==> d.value in s.sizes
    ensures RecycleStep(s, t, p, d).packets.freed == s.packets.freed
    ensures forall id :: id in RecycleStep(s, t, p, d).datas.freed && id !in s.datas.freed ==>
              d == Some(id) && s.sizes[id] != BUFSIZ
  {}

  lemma BatchesFree(s: State, t: nat)
    ensures forall want :: TakeBatchesStep(s, t, want).packets.freed == s.packets.freed
    ensures forall want :: TakeBatchesStep(s, t, want).datas.freed == s.datas.freed
    ensures forall withData :: PutStep(s, t, withData).packets.freed == s.packets.freed
    ensures forall withData :: PutStep(s, t, withData).datas.freed == s.datas.freed
  {}

  lemma GiveFrees(s: State, t: nat, withData: bool)
    requires Counted(s.packets) && Counted(s.datas)
    ensures GiveBatchesStep(s, t, withData).packets.freed == s.packets.freed || |s.packets.batches| == GLOBAL_COUNT
    ensures forall id :: id in GiveBatchesStep(s, t, withData).datas.freed && id !in s.datas.freed ==>
              |s.datas.batches| == GLOBAL_COUNT && t in s.datas.pools && id in s.datas.pools[t].items
  {}

  /** In every interleaving packets and buffers are deleted only where they have to be. */
  lemma FreedOnlyIfNeeded(ss: seq<State>, actions: seq<Action>, j: nat)
    requires IsRun(ss, actions) && j < |actions|
    ensures ss[j + 1].packets.freed == ss[j].packets.freed || PacketFreed(ss[j], actions[j])
    ensures forall id :: id in ss[j + 1].datas.freed && id !in ss[j].datas.freed ==> DataFreed(ss[j], actions[j], id)
  {
    var s, a := ss[j], actions[j];
    assert Enabled(s, a);
    RunCounts(ss, actions, j);
    hide TakeStep, RecycleStep, TakeBatchesStep, GiveBatchesStep, PutStep, Counted;
    match a
    case Take(t, memP, memD) => TakeFrees(s, t, PcOf(s, t).want, memP, memD);
    case Recycle(t, p, d) => RecycleFrees(s, t, p, d);
    case GiveBatches(t) => GiveFrees(s, t, PcOf(s, t).withData);
    case _ => BatchesFree(s, a.t);
  }
}
