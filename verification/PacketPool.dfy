/**
 Packet pools (click/lib/packet.cc, HAVE_CLICK_PACKET_POOL with threads): every
 thread keeps free packets and free data buffers of its own; full pools move as
 batches to a global pool, empty ones are refilled from it.

 Packets and data buffers go through the same motions, so both are one `Side`.
 Threads interleave between atomic steps: what a thread does to its own pool,
 an unlocked glance at the global pool, and a section under the lock.
 */
module PacketPool {
  import opened Wrappers

  const POOL_SIZE := 1000
  const GLOBAL_COUNT := 16
  const BUFSIZ := 2048

  /** A thread's free list and its separately kept count. */
  datatype Pool = Pool(items: seq<nat>, count: nat)

  /** A batch in the global pool; the head of the list stores the number of its items. */
  datatype Batch = Batch(items: seq<nat>, stored: nat)

  /** transit holds what a thread is recycling; freed what went back to the system; next is the next new name. */
  datatype Side = Side(
    pools: map<nat, Pool>, batches: seq<Batch>, batchCount: nat,
    inUse: set<nat>, transit: map<nat, nat>, freed: set<nat>, next: nat)

  // ---- places -------------------------------------------------------------

  /** Batches are counted from the bottom of the global stack. */
  datatype Place = InUse | InPool(t: nat) | InBatch(k: nat) | InTransit(t: nat) | Freed

  ghost predicate Occupies(s: Side, id: nat, place: Place) {
    match place
    case InUse => id in s.inUse
    case InPool(t) => t in s.pools && id in s.pools[t].items
    case InBatch(k) => k < |s.batches| && id in s.batches[|s.batches| - 1 - k].items
    case InTransit(t) => t in s.transit && s.transit[t] == id
    case Freed => id in s.freed
  }

  ghost predicate NoDuplicates(items: seq<nat>) {
    forall i, j :: 0 <= i < j < |items| ==> items[i] != items[j]
  }

  /** `at` tells where everything is: each name ever used is in exactly one place. */
  ghost predicate Located(s: Side, at: map<nat, Place>) {
    && (forall id :: id in at <==> 0 <= id < s.next)
    && (forall id, place :: Occupies(s, id, place) <==> id in at && at[id] == place)
    && (forall t :: t in s.pools ==> NoDuplicates(s.pools[t].items))
    && (forall k :: 0 <= k < |s.batches| ==> NoDuplicates(s.batches[k].items))
  }

  ghost predicate Counted(s: Side) {
    && (forall t :: t in s.pools ==> s.pools[t].count == |s.pools[t].items| <= POOL_SIZE)
    && (forall k :: 0 <= k < |s.batches| ==> s.batches[k].stored == |s.batches[k].items| == POOL_SIZE)
    && s.batchCount == |s.batches| <= GLOBAL_COUNT
  }

  ghost predicate SideInv(s: Side, at: map<nat, Place>) {
    Located(s, at) && Counted(s)
  }

  predicate Pooled(place: Place) {
    place.InPool? || place.InBatch? || place.InTransit?
  }

  /** Nothing but x, if given, has newly come into the pools. */
  ghost predicate OnlyNewlyPooled(at: map<nat, Place>, at': map<nat, Place>, x: Option<nat>) {
    forall id :: id in at' && Pooled(at'[id]) && x != Some(id) ==> id in at && Pooled(at[id])
  }

  // ---- what a thread does to one side -------------------------------------

  /** make_local_packet_pool */
  function AddPool(s: Side, t: nat): Side {
    if t in s.pools then s else s.(pools := s.pools[t := Pool([], 0)])
  }

  /** The locked section of pool_allocate: take a whole batch if the own pool is empty. */
  function Steal(s: Side, t: nat): Side
    requires t in s.pools
  {
    if s.pools[t].items == [] && s.batches != [] && s.batchCount > 0 then
      s.(pools := s.pools[t := Pool(s.batches[0].items, s.batches[0].stored)],
         batches := s.batches[1..], batchCount := s.batchCount - 1)
    else s
  }

  /** Take the first item of the own pool. */
  function Pop(s: Side, t: nat): (Side, nat)
    requires t in s.pools && s.pools[t].items != [] && s.pools[t].count > 0
  {
    var pool := s.pools[t];
    (s.(pools := s.pools[t := Pool(pool.items[1..], pool.count - 1)], inUse := s.inUse + {pool.items[0]}), pool.items[0])
  }

  /** new */
  function New(s: Side): (Side, nat) {
    (s.(inUse := s.inUse + {s.next}, next := s.next + 1), s.next)
  }

  /** delete of something in use */
  function Delete(s: Side, id: nat): Side {
    s.(inUse := s.inUse - {id}, freed := s.freed + {id})
  }

  /** Something in use is handed to recycle by thread t. */
  function Retire(s: Side, t: nat, id: nat): Side {
    s.(inUse := s.inUse - {id}, transit := s.transit[t := id])
  }

  predicate Full(s: Side, t: nat) {
    t in s.pools && s.pools[t].items != [] && s.pools[t].count == POOL_SIZE
  }

  /** The locked section of recycle: a full pool becomes a batch, or is deleted if there are enough batches. */
  function Flush(s: Side, t: nat): Side
    requires t in s.pools
  {
    if !Full(s, t) then s
    else if s.batchCount == GLOBAL_COUNT then
      s.(pools := s.pools[t := Pool([], 0)], freed := s.freed + (set id | id in s.pools[t].items))
    else
      s.(pools := s.pools[t := Pool([], 0)], batches := [Batch(s.pools[t].items, s.pools[t].count)] + s.batches,
         batchCount := s.batchCount + 1)
  }

  /** The end of recycle: put what is in transit into the own pool. */
  function Push(s: Side, t: nat): Side
    requires t in s.pools && t in s.transit
  {
    s.(pools := s.pools[t := Pool([s.transit[t]] + s.pools[t].items, s.pools[t].count + 1)], transit := s.transit - {t})
  }

  // ---- each of these keeps everything in exactly one place ----------------

  lemma AddPoolKeeps(s: Side, t: nat, at: map<nat, Place>)
    requires SideInv(s, at)
    ensures SideInv(AddPool(s, t), at)
  {
    var s' := AddPool(s, t);
    forall id, place
      ensures Occupies(s', id, place) <==> id in at && at[id] == place
    {
      assert Occupies(s', id, place) <==> Occupies(s, id, place);
    }
  }

  lemma StealKeeps(s: Side, t: nat, at: map<nat, Place>) returns (at': map<nat, Place>)
    requires SideInv(s, at) && t in s.pools
    ensures SideInv(Steal(s, t), at')
    ensures OnlyNewlyPooled(at, at', None)
  {
    var s' := Steal(s, t);
    if s' == s {
      at' := at;
    } else {
      var top := |s.batches| - 1;
      at' := map id | id in at :: if at[id] == InBatch(top) then InPool(t) else at[id];
      forall id, place
        ensures Occupies(s', id, place) <==> id in at' && at'[id] == place
      {
        assert Occupies(s, id, InBatch(top)) <==> id in s.batches[0].items;
        if place == InPool(t) {
          assert !Occupies(s, id, InPool(t));
          assert Occupies(s', id, place) <==> Occupies(s, id, InBatch(top));
        } else if place == InBatch(top) {
          assert !Occupies(s', id, place);
        } else {
          assert Occupies(s', id, place) <==> Occupies(s, id, place);
        }
      }
    }
  }

  lemma PopKeeps(s: Side, t: nat, at: map<nat, Place>) returns (at': map<nat, Place>)
    requires SideInv(s, at) && t in s.pools && s.pools[t].items != []
    ensures SideInv(Pop(s, t).0, at')
    ensures OnlyNewlyPooled(at, at', None)
    ensures Pop(s, t).1 in Pop(s, t).0.inUse && Pop(s, t).1 !in s.inUse
  {
    var (s', x) := Pop(s, t);
    var items := s.pools[t].items;
    assert Occupies(s, x, InPool(t));
    assert !Occupies(s, x, InUse);
    at' := at[x := InUse];
    assert forall id :: id in items <==> id == x || id in items[1..];
    forall id, place
      ensures Occupies(s', id, place) <==> id in at' && at'[id] == place
    {
      if id == x {
        assert Occupies(s', id, place) <==> place == InUse by {
          if place != InUse && place != InPool(t) {
            assert !Occupies(s, x, place);
          }
        }
      } else {
        assert Occupies(s', id, place) <==> Occupies(s, id, place);
      }
    }
  }

  lemma NewKeeps(s: Side, at: map<nat, Place>) returns (at': map<nat, Place>)
    requires SideInv(s, at)
    ensures SideInv(New(s).0, at')
    ensures OnlyNewlyPooled(at, at', None)
    ensures New(s).1 in New(s).0.inUse && New(s).1 !in s.inUse
  {
    var (s', x) := New(s);
    assert !Occupies(s, x, InUse);
    at' := at[x := InUse];
    forall id, place
      ensures Occupies(s', id, place) <==> id in at' && at'[id] == place
    {
      if id == x && place == InUse {
      } else {
        assert Occupies(s', id, place) <==> Occupies(s, id, place);
      }
    }
  }

  lemma DeleteKeeps(s: Side, x: nat, at: map<nat, Place>) returns (at': map<nat, Place>)
    requires SideInv(s, at) && x in s.inUse
    ensures SideInv(Delete(s, x), at')
    ensures OnlyNewlyPooled(at, at', None)
  {
    var s' := Delete(s, x);
    assert Occupies(s, x, InUse);
    at' := at[x := Freed];
    forall id, place
      ensures Occupies(s', id, place) <==> id in at' && at'[id] == place
    {
      if id == x && (place == InUse || place == Freed) {
        assert Occupies(s', id, place) <==> place == Freed;
      } else {
        assert Occupies(s', id, place) <==> Occupies(s, id, place);
      }
    }
  }

  lemma RetireKeeps(s: Side, t: nat, x: nat, at: map<nat, Place>) returns (at': map<nat, Place>)
    requires SideInv(s, at) && x in s.inUse && t !in s.transit
    ensures SideInv(Retire(s, t, x), at')
    ensures OnlyNewlyPooled(at, at', Some(x))
  {
    var s' := Retire(s, t, x);
    assert Occupies(s, x, InUse);
    at' := at[x := InTransit(t)];
    forall id, place
      ensures Occupies(s', id, place) <==> id in at' && at'[id] == place
    {
      if place == InTransit(t) {
        assert !Occupies(s, id, place);
      } else if id == x && place == InUse {
      } else {
        assert Occupies(s', id, place) <==> Occupies(s, id, place);
      }
    }
  }

  lemma FlushKeeps(s: Side, t: nat, at: map<nat, Place>) returns (at': map<nat, Place>)
    requires SideInv(s, at) && t in s.pools
    ensures SideInv(Flush(s, t), at')
    ensures OnlyNewlyPooled(at, at', None)
    ensures Flush(s, t).pools[t].count < POOL_SIZE
    ensures Flush(s, t).transit == s.transit && Flush(s, t).pools.Keys == s.pools.Keys
  {
    var s' := Flush(s, t);
    if !Full(s, t) {
      at' := at;
    } else {
      var top := |s.batches|;
      var to := if s.batchCount == GLOBAL_COUNT then Freed else InBatch(top);
      at' := map id | id in at :: if at[id] == InPool(t) then to else at[id];
      forall id, place
        ensures Occupies(s', id, place) <==> id in at' && at'[id] == place
      {
        assert Occupies(s, id, InPool(t)) <==> id in s.pools[t].items;
        if place == InPool(t) {
          assert !Occupies(s', id, place);
        } else if place == to {
          assert Occupies(s', id, place) <==> Occupies(s, id, InPool(t)) || Occupies(s, id, place);
        } else {
          assert Occupies(s', id, place) <==> Occupies(s, id, place);
        }
      }
    }
  }

  lemma PushKeeps(s: Side, t: nat, at: map<nat, Place>) returns (at': map<nat, Place>)
    requires SideInv(s, at) && t in s.pools && t in s.transit && s.pools[t].count < POOL_SIZE
    ensures SideInv(Push(s, t), at')
    ensures OnlyNewlyPooled(at, at', None)
  {
    var s' := Push(s, t);
    var x := s.transit[t];
    assert Occupies(s, x, InTransit(t));
    assert !Occupies(s, x, InPool(t));
    at' := at[x := InPool(t)];
    forall id, place
      ensures Occupies(s', id, place) <==> id in at' && at'[id] == place
    {
      if place == InTransit(t) {
        assert !Occupies(s', id, place);
        assert Occupies(s, id, place) <==> id == x;
      } else if place == InPool(t) {
        assert Occupies(s', id, place) <==> id == x || Occupies(s, id, place);
      } else {
        assert Occupies(s', id, place) <==> Occupies(s, id, place);
      }
    }
  }

  // ---- the system ---------------------------------------------------------

  /** How far a thread is in pool_allocate or recycle. */
  datatype Pc =
    | Idle
    | AllocTest(want: Option<nat>)
    | AllocLock(want: Option<nat>)
    | AllocTake(want: Option<nat>)
    | RecycleLock(withData: bool)
    | RecyclePut(withData: bool)

  /** sizes gives the length of every data buffer; threads is the list thread_pools. */
  datatype State = State(packets: Side, datas: Side, sizes: map<nat, nat>, threads: seq<nat>, pcs: map<nat, Pc>)

  const NoSide := Side(map[], [], 0, {}, map[], {}, 0)
  const Initial := State(NoSide, NoSide, map[], [], map[])

  function PcOf(s: State, t: nat): Pc {
    if t in s.pcs then s.pcs[t] else Idle
  }

  predicate WithData(want: Option<nat>) {
    want == Some(BUFSIZ)
  }

  datatype Action =
    | Allocate(t: nat, want: Option<nat>)        // pool_allocate is entered
    | Glance(t: nat)                             // the unlocked test
    | TakeBatches(t: nat)                        // its locked section
    | Take(t: nat, memP: bool, memD: bool)       // the rest, with the outcome of new
    | Recycle(t: nat, p: nat, d: Option<nat>)    // recycle is entered with packet p and its own data d
    | GiveBatches(t: nat)                        // its locked section
    | Put(t: nat)                                // the rest
    | NewData(t: nat, n: nat)                    // a buffer of any length from alloc_data, or given to make without a destructor
    | FreeData(t: nat, id: nat)                  // delete[] of a buffer that a packet has given up

  predicate Enabled(s: State, a: Action) {
    match a
    case Allocate(t, want) => PcOf(s, t).Idle? && (want.Some? ==> want.value >= BUFSIZ)
    case Glance(t) => PcOf(s, t).AllocTest?
    case TakeBatches(t) => PcOf(s, t).AllocLock?
    case Take(t, _, _) => PcOf(s, t).AllocTake?
    case Recycle(t, p, d) =>
      PcOf(s, t).Idle? && p in s.packets.inUse && (d.Some? ==> d.value in s.datas.inUse && d.value in s.sizes)
    case GiveBatches(t) => PcOf(s, t).RecycleLock?
    case Put(t) => PcOf(s, t).RecyclePut?
    case NewData(t, n) => PcOf(s, t).Idle?
    case FreeData(t, id) => PcOf(s, t).Idle? && id in s.datas.inUse
  }

  /** make_local_packet_pool: a thread's pool goes to the front of the list when it is made. */
  function Listed(s: State, t: nat): seq<nat> {
    if t in s.packets.pools then s.threads else [t] + s.threads
  }

  function TakeData(s: State, t: nat, p: nat, n: nat, memD: bool): State {
    if n == BUFSIZ && t in s.datas.pools && s.datas.pools[t].items != [] && s.datas.pools[t].count > 0 then
      s.(datas := Pop(s.datas, t).0)
    else if memD then
      s.(datas := New(s.datas).0, sizes := s.sizes[s.datas.next := n])
    else
      s.(packets := Delete(s.packets, p))
  }

  function TakeStep(s: State, t: nat, want: Option<nat>, memP: bool, memD: bool): State {
    var s0 := s.(pcs := s.pcs[t := Idle]);
    var pop := t in s.packets.pools && s.packets.pools[t].items != [] && s.packets.pools[t].count > 0;
    if !pop && !memP then s0
    else
      var (packets, p) := if pop then Pop(s.packets, t) else New(s.packets);
      var s1 := s0.(packets := packets);
      if want.None? then s1 else TakeData(s1, t, p, want.value, memD)
  }

  function RecycleStep(s: State, t: nat, p: nat, d: Option<nat>): State {
    var poolable := d.Some? && d.value in s.sizes && s.sizes[d.value] == BUFSIZ;
    var packets := AddPool(Retire(s.packets, t, p), t);
    var datas := AddPool(if poolable then Retire(s.datas, t, d.value)
                         else if d.Some? then Delete(s.datas, d.value) else s.datas, t);
    var full := Full(packets, t) || (poolable && Full(datas, t));
    State(packets, datas, s.sizes, Listed(s, t), s.pcs[t := if full then RecycleLock(poolable) else RecyclePut(poolable)])
  }

  function TakeBatchesStep(s: State, t: nat, want: Option<nat>): State {
    s.(packets := if t in s.packets.pools then Steal(s.packets, t) else s.packets,
       datas := if WithData(want) && t in s.datas.pools then Steal(s.datas, t) else s.datas,
       pcs := s.pcs[t := AllocTake(want)])
  }

  function GiveBatchesStep(s: State, t: nat, withData: bool): State {
    s.(packets := if t in s.packets.pools then Flush(s.packets, t) else s.packets,
       datas := if withData && t in s.datas.pools then Flush(s.datas, t) else s.datas,
       pcs := s.pcs[t := RecyclePut(withData)])
  }

  function PutStep(s: State, t: nat, withData: bool): State {
    s.(packets := if t in s.packets.pools && t in s.packets.transit then Push(s.packets, t) else s.packets,
       datas := if withData && t in s.datas.pools && t in s.datas.transit then Push(s.datas, t) else s.datas,
       pcs := s.pcs[t := Idle])
  }

  function Step(s: State, a: Action): State {
    var t := a.t;
    match PcOf(s, t)
    case Idle =>
      (match a
       case Allocate(_, want) =>
         s.(packets := AddPool(s.packets, t), datas := AddPool(s.datas, t), threads := Listed(s, t), pcs := s.pcs[t := AllocTest(want)])
       case Recycle(_, p, d) => RecycleStep(s, t, p, d)
       case NewData(_, n) => s.(datas := New(s.datas).0, sizes := s.sizes[s.datas.next := n])
       case FreeData(_, id) => s.(datas := Delete(s.datas, id))
       case _ => s)
    case AllocTest(want) =>
      var need := t in s.packets.pools && t in s.datas.pools
                  && ((s.packets.pools[t].items == [] && s.packets.batches != [])
                      || (WithData(want) && s.datas.pools[t].items == [] && s.datas.batches != []));
      s.(pcs := s.pcs[t := if need then AllocLock(want) else AllocTake(want)])
    case AllocLock(want) => TakeBatchesStep(s, t, want)
    case AllocTake(want) =>
      if a.Take? then TakeStep(s, t, want, a.memP, a.memD) else s
    case RecycleLock(withData) => GiveBatchesStep(s, t, withData)
    case RecyclePut(withData) => PutStep(s, t, withData)
  }

  // ---- the invariant of the system ----------------------------------------

  /** What thread t relies on between two of its steps. */
  ghost predicate ThreadOk(s: State, t: nat) {
    var pc := PcOf(s, t);
    && (!pc.Idle? ==> t in s.packets.pools && t in s.datas.pools)
    && (t in s.packets.transit <==> pc.RecycleLock? || pc.RecyclePut?)
    && (t in s.datas.transit <==> (pc.RecycleLock? || pc.RecyclePut?) && pc.withData)
    && (pc.RecyclePut? ==> s.packets.pools[t].count < POOL_SIZE)
    && (pc.RecyclePut? && pc.withData ==> s.datas.pools[t].count < POOL_SIZE)
    && ((pc.AllocTest? || pc.AllocLock? || pc.AllocTake?) && pc.want.Some? ==> pc.want.value >= BUFSIZ)
  }

  /** Whatever is pooled, or on its way there, has the pool's buffer length. */
  ghost predicate SizesOk(s: State, atD: map<nat, Place>) {
    && (forall id :: id in s.sizes <==> 0 <= id < s.datas.next)
    && (forall id :: id in atD && Pooled(atD[id]) ==> id in s.sizes && s.sizes[id] == BUFSIZ)
  }

  /** The list of pools names every thread that has one, once. */
  ghost predicate ThreadsListed(s: State) {
    && NoDuplicates(s.threads)
    && (forall t :: t in s.threads <==> t in s.packets.pools)
    && s.packets.pools.Keys == s.datas.pools.Keys
  }

  ghost predicate Inv(s: State, atP: map<nat, Place>, atD: map<nat, Place>) {
    && SideInv(s.packets, atP) && SideInv(s.datas, atD)
    && SizesOk(s, atD)
    && ThreadsListed(s)
    && (forall t :: ThreadOk(s, t))
  }

  /** A step of t changes nothing that another thread relies on. */
  ghost predicate SameFor(s: State, s': State, u: nat) {
    && PcOf(s', u) == PcOf(s, u)
    && (u in s.packets.pools <==> u in s'.packets.pools) && (u in s.datas.pools <==> u in s'.datas.pools)
    && (u in s.packets.pools ==> s'.packets.pools[u] == s.packets.pools[u])
    && (u in s.datas.pools ==> s'.datas.pools[u] == s.datas.pools[u])
    && (u in s.packets.transit <==> u in s'.packets.transit) && (u in s.datas.transit <==> u in s'.datas.transit)
    && (u in s.packets.transit ==> s'.packets.transit[u] == s.packets.transit[u])
    && (u in s.datas.transit ==> s'.datas.transit[u] == s.datas.transit[u])
  }

  lemma OthersUndisturbed(s: State, a: Action, u: nat)
    requires u != a.t
    ensures SameFor(s, Step(s, a), u)
  {
    hide TakeStep, RecycleStep, TakeBatchesStep, GiveBatchesStep, PutStep;
    match PcOf(s, a.t)
    case Idle =>
      if a.Recycle? {
        RecycleOthers(s, a.t, a.p, a.d, u);
      }
    case AllocTake(want) =>
      if a.Take? {
        TakeOthers(s, a.t, want, a.memP, a.memD, u);
      }
    case AllocLock(want) => TakeBatchesOthers(s, a.t, want, u);
    case RecycleLock(withData) => GiveBatchesOthers(s, a.t, withData, u);
    case RecyclePut(withData) => PutOthers(s, a.t, withData, u);
    case AllocTest(_) =>
  }

  lemma TakeBatchesOthers(s: State, t: nat, want: Option<nat>, u: nat)
    requires u != t
    ensures SameFor(s, TakeBatchesStep(s, t, want), u) && SameKeys(s, TakeBatchesStep(s, t, want))
  {}

  lemma GiveBatchesOthers(s: State, t: nat, withData: bool, u: nat)
    requires u != t
    ensures SameFor(s, GiveBatchesStep(s, t, withData), u) && SameKeys(s, GiveBatchesStep(s, t, withData))
  {}

  lemma PutOthers(s: State, t: nat, withData: bool, u: nat)
    requires u != t
    ensures SameFor(s, PutStep(s, t, withData), u) && SameKeys(s, PutStep(s, t, withData))
  {}

  /** No pool is made. */
  ghost predicate SameKeys(s: State, s': State) {
    && s'.packets.pools.Keys == s.packets.pools.Keys && s'.datas.pools.Keys == s.datas.pools.Keys
    && s'.threads == s.threads
  }

  lemma RecycleOthers(s: State, t: nat, p: nat, d: Option<nat>, u: nat)
    requires u != t
    ensures SameFor(s, RecycleStep(s, t, p, d), u)
  {}

  lemma TakeOthers(s: State, t: nat, want: Option<nat>, memP: bool, memD: bool, u: nat)
    requires u != t
    ensures SameFor(s, TakeStep(s, t, want, memP, memD), u)
  {}

  lemma ThreadsFrom(s: State, a: Action)
    requires forall t :: ThreadOk(s, t)
    requires ThreadOk(Step(s, a), a.t)
    ensures forall t :: ThreadOk(Step(s, a), t)
  {
    forall t
      ensures ThreadOk(Step(s, a), t)
    {
      if t != a.t {
        assert ThreadOk(s, t);
        OthersUndisturbed(s, a, t);
      }
    }
  }

  lemma Assemble(s: State, a: Action, atP: map<nat, Place>, atD: map<nat, Place>)
    requires forall t :: ThreadOk(s, t)
    requires SideInv(Step(s, a).packets, atP) && SideInv(Step(s, a).datas, atD)
    requires SizesOk(Step(s, a), atD) && ThreadOk(Step(s, a), a.t)
    requires ThreadsListed(s)
    ensures Inv(Step(s, a), atP, atD)
  {
    ListedKept(s, a);
    hide SideInv, SizesOk, Step, ThreadOk;
    ThreadsFrom(s, a);
  }

  lemma ListedKept(s: State, a: Action)
    requires ThreadsListed(s)
    ensures ThreadsListed(Step(s, a))
  {
    PoolKeysKept(s, a);
    hide Step;
    var s' := Step(s, a);
    if s'.threads != s.threads {
      assert s'.threads == [a.t] + s.threads;
    }
  }

  /** The threads with pools, on either side, change only when a pool is made. */
  lemma PoolKeysKept(s: State, a: Action)
    requires s.packets.pools.Keys == s.datas.pools.Keys
    ensures var s' := Step(s, a);
            && s'.packets.pools.Keys == s'.datas.pools.Keys
            && (|| (s'.threads == s.threads && s'.packets.pools.Keys == s.packets.pools.Keys)
                || (a.t !in s.packets.pools && s'.threads == [a.t] + s.threads && s'.packets.pools.Keys == s.packets.pools.Keys + {a.t}))
  {
    hide TakeStep, RecycleStep, TakeBatchesStep, GiveBatchesStep, PutStep, SameFor;
    match PcOf(s, a.t)
    case Idle =>
      if a.Recycle? {
        RecycleKeys(s, a.t, a.p, a.d);
      }
    case AllocTake(want) =>
      if a.Take? {
        TakeKeys(s, a.t, want, a.memP, a.memD);
      }
    case AllocLock(want) => TakeBatchesOthers(s, a.t, want, a.t + 1);
    case RecycleLock(withData) => GiveBatchesOthers(s, a.t, withData, a.t + 1);
    case RecyclePut(withData) => PutOthers(s, a.t, withData, a.t + 1);
    case AllocTest(_) =>
  }

  lemma RecycleKeys(s: State, t: nat, p: nat, d: Option<nat>)
    requires s.packets.pools.Keys == s.datas.pools.Keys
    ensures var s' := RecycleStep(s, t, p, d);
            && s'.packets.pools.Keys == s'.datas.pools.Keys == s.packets.pools.Keys + {t}
            && s'.threads == Listed(s, t)
  {}

  lemma TakeKeys(s: State, t: nat, want: Option<nat>, memP: bool, memD: bool)
    ensures SameKeys(s, TakeStep(s, t, want, memP, memD))
  {}

  lemma SizesKept(s: State, s': State, atD: map<nat, Place>, atD': map<nat, Place>)
    requires SizesOk(s, atD) && OnlyNewlyPooled(atD, atD', None)
    requires s'.sizes == s.sizes && s'.datas.next == s.datas.next
    ensures SizesOk(s', atD')
  {}

  lemma SamePooled(at: map<nat, Place>)
    ensures OnlyNewlyPooled(at, at, None)
  {}

  lemma PoolCount(s: Side, t: nat, at: map<nat, Place>)
    requires SideInv(s, at) && t in s.pools
    ensures s.pools[t].count == |s.pools[t].items| <= POOL_SIZE
  {}

  lemma AllocateKeeps(s: State, a: Action, atP: map<nat, Place>, atD: map<nat, Place>)
    requires Inv(s, atP, atD) && Enabled(s, a) && a.Allocate?
    ensures Inv(Step(s, a), atP, atD)
  {
    hide SideInv, SizesOk;
    assert ThreadOk(s, a.t);
    AddPoolKeeps(s.packets, a.t, atP);
    AddPoolKeeps(s.datas, a.t, atD);
    SamePooled(atD);
    SizesKept(s, Step(s, a), atD, atD);
    Assemble(s, a, atP, atD);
  }

  lemma GlanceKeeps(s: State, a: Action, atP: map<nat, Place>, atD: map<nat, Place>)
    requires Inv(s, atP, atD) && Enabled(s, a) && a.Glance?
    ensures Inv(Step(s, a), atP, atD)
  {
    hide SideInv, SizesOk;
    assert ThreadOk(s, a.t);
    SamePooled(atD);
    SizesKept(s, Step(s, a), atD, atD);
    Assemble(s, a, atP, atD);
  }

  lemma TakeBatchesKeeps(s: State, a: Action, atP: map<nat, Place>, atD: map<nat, Place>)
    returns (atP': map<nat, Place>, atD': map<nat, Place>)
    requires Inv(s, atP, atD) && Enabled(s, a) && a.TakeBatches?
    ensures Inv(Step(s, a), atP', atD')
  {
    hide SideInv, SizesOk, OnlyNewlyPooled;
    assert ThreadOk(s, a.t);
    atP' := StealKeeps(s.packets, a.t, atP);
    atD' := atD;
    SamePooled(atD);
    if WithData(PcOf(s, a.t).want) {
      atD' := StealKeeps(s.datas, a.t, atD);
    }
    SizesKept(s, Step(s, a), atD, atD');
    Assemble(s, a, atP', atD');
  }

  lemma GiveBatchesKeeps(s: State, a: Action, atP: map<nat, Place>, atD: map<nat, Place>)
    returns (atP': map<nat, Place>, atD': map<nat, Place>)
    requires Inv(s, atP, atD) && Enabled(s, a) && a.GiveBatches?
    ensures Inv(Step(s, a), atP', atD')
  {
    hide SideInv, SizesOk, OnlyNewlyPooled;
    assert ThreadOk(s, a.t);
    atP' := FlushKeeps(s.packets, a.t, atP);
    atD' := atD;
    SamePooled(atD);
    if PcOf(s, a.t).withData {
      atD' := FlushKeeps(s.datas, a.t, atD);
    }
    SizesKept(s, Step(s, a), atD, atD');
    Assemble(s, a, atP', atD');
  }

  /** The two assertions at the end of recycle hold. */
  lemma PutKeeps(s: State, a: Action, atP: map<nat, Place>, atD: map<nat, Place>)
    returns (atP': map<nat, Place>, atD': map<nat, Place>)
    requires Inv(s, atP, atD) && Enabled(s, a) && a.Put?
    ensures Inv(Step(s, a), atP', atD')
    ensures a.t in Step(s, a).packets.pools && Step(s, a).packets.pools[a.t].count <= POOL_SIZE
    ensures a.t in Step(s, a).datas.pools && Step(s, a).datas.pools[a.t].count <= POOL_SIZE
  {
    hide SideInv, SizesOk, OnlyNewlyPooled;
    assert ThreadOk(s, a.t);
    atP' := PushKeeps(s.packets, a.t, atP);
    atD' := atD;
    SamePooled(atD);
    if PcOf(s, a.t).withData {
      atD' := PushKeeps(s.datas, a.t, atD);
    }
    SizesKept(s, Step(s, a), atD, atD');
    Assemble(s, a, atP', atD');
    PoolCount(Step(s, a).packets, a.t, atP');
    PoolCount(Step(s, a).datas, a.t, atD');
  }

  lemma RecycleKeeps(s: State, a: Action, atP: map<nat, Place>, atD: map<nat, Place>)
    returns (atP': map<nat, Place>, atD': map<nat, Place>)
    requires Inv(s, atP, atD) && Enabled(s, a) && a.Recycle?
    ensures Inv(Step(s, a), atP', atD')
  {
    hide SideInv, SizesOk, OnlyNewlyPooled;
    var t, p, d := a.t, a.p, a.d;
    assert ThreadOk(s, t);
    atP' := RetireKeeps(s.packets, t, p, atP);
    AddPoolKeeps(Retire(s.packets, t, p), t, atP');
    var poolable := d.Some? && s.sizes[d.value] == BUFSIZ;
    var datas := s.datas;
    atD' := atD;
    SamePooled(atD);
    if poolable {
      datas := Retire(s.datas, t, d.value);
      atD' := RetireKeeps(s.datas, t, d.value, atD);
      SizesRetired(s, Step(s, a), atD, atD', d.value);
    } else {
      if d.Some? {
        datas := Delete(s.datas, d.value);
        atD' := DeleteKeeps(s.datas, d.value, atD);
      }
      SizesKept(s, Step(s, a), atD, atD');
    }
    AddPoolKeeps(datas, t, atD');
    PoolCount(Step(s, a).packets, t, atP');
    PoolCount(Step(s, a).datas, t, atD');
    RecycleThread(s, t, p, d);
    hide ThreadOk;
    Assemble(s, a, atP', atD');
  }

  lemma RecycleThread(s: State, t: nat, p: nat, d: Option<nat>)
    requires ThreadOk(s, t) && PcOf(s, t).Idle?
    requires var s' := RecycleStep(s, t, p, d);
             && t in s'.packets.pools && s'.packets.pools[t].count == |s'.packets.pools[t].items| <= POOL_SIZE
             && t in s'.datas.pools && s'.datas.pools[t].count == |s'.datas.pools[t].items| <= POOL_SIZE
    ensures ThreadOk(RecycleStep(s, t, p, d), t)
  {}

  lemma SizesRetired(s: State, s': State, atD: map<nat, Place>, atD': map<nat, Place>, d: nat)
    requires SizesOk(s, atD) && OnlyNewlyPooled(atD, atD', Some(d))
    requires s'.sizes == s.sizes && s'.datas.next == s.datas.next && d in s.sizes && s.sizes[d] == BUFSIZ
    ensures SizesOk(s', atD')
  {}

  lemma TakeKeeps(s: State, a: Action, atP: map<nat, Place>, atD: map<nat, Place>)
    returns (atP': map<nat, Place>, atD': map<nat, Place>)
    requires Inv(s, atP, atD) && Enabled(s, a) && a.Take?
    ensures Inv(Step(s, a), atP', atD')
  {
    hide SideInv, SizesOk, OnlyNewlyPooled;
    var t, want := a.t, PcOf(s, a.t).want;
    assert ThreadOk(s, t);
    PoolCount(s.packets, t, atP);
    PoolCount(s.datas, t, atD);
    SamePooled(atD);
    atP', atD' := atP, atD;
    var pop := s.packets.pools[t].items != [];
    if !pop && !a.memP {
      SizesKept(s, Step(s, a), atD, atD');
    } else {
      var (packets, p) := if pop then Pop(s.packets, t) else New(s.packets);
      if pop {
        atP' := PopKeeps(s.packets, t, atP);
      } else {
        atP' := NewKeeps(s.packets, atP);
      }
      if want.None? {
        SizesKept(s, Step(s, a), atD, atD');
      } else if want.value == BUFSIZ && s.datas.pools[t].items != [] {
        atD' := PopKeeps(s.datas, t, atD);
        SizesKept(s, Step(s, a), atD, atD');
      } else if a.memD {
        atD' := NewKeeps(s.datas, atD);
        SizesNew(s, Step(s, a), atD, atD', want.value);
      } else {
        atP' := DeleteKeeps(packets, p, atP');
        SizesKept(s, Step(s, a), atD, atD');
      }
    }
    Assemble(s, a, atP', atD');
  }

  lemma SizesNew(s: State, s': State, atD: map<nat, Place>, atD': map<nat, Place>, n: nat)
    requires SizesOk(s, atD) && OnlyNewlyPooled(atD, atD', None) && SideInv(s.datas, atD)
    requires s'.sizes == s.sizes[s.datas.next := n] && s'.datas.next == s.datas.next + 1
    ensures SizesOk(s', atD')
  {}

  // ---- every interleaving -------------------------------------------------

  lemma StepKeeps(s: State, a: Action, atP: map<nat, Place>, atD: map<nat, Place>)
    returns (atP': map<nat, Place>, atD': map<nat, Place>)
    requires Inv(s, atP, atD) && Enabled(s, a)
    ensures Inv(Step(s, a), atP', atD')
  {
    hide Inv, Enabled, Step;
    atP', atD' := atP, atD;
    match a
    case Allocate(_, _) => AllocateKeeps(s, a, atP, atD);
    case Glance(_) => GlanceKeeps(s, a, atP, atD);
    case TakeBatches(_) => atP', atD' := TakeBatchesKeeps(s, a, atP, atD);
    case Take(_, _, _) => atP', atD' := TakeKeeps(s, a, atP, atD);
    case Recycle(_, _, _) => atP', atD' := RecycleKeeps(s, a, atP, atD);
    case GiveBatches(_) => atP', atD' := GiveBatchesKeeps(s, a, atP, atD);
    case Put(_) => atP', atD' := PutKeeps(s, a, atP, atD);
    case NewData(_, _) => atD' := NewDataKeeps(s, a, atP, atD);
    case FreeData(_, _) => atD' := FreeDataKeeps(s, a, atP, atD);
  }

  lemma NewDataKeeps(s: State, a: Action, atP: map<nat, Place>, atD: map<nat, Place>) returns (atD': map<nat, Place>)
    requires Inv(s, atP, atD) && Enabled(s, a) && a.NewData?
    ensures Inv(Step(s, a), atP, atD')
  {
    hide SideInv, SizesOk, OnlyNewlyPooled, ThreadsListed;
    assert ThreadOk(s, a.t);
    atD' := NewKeeps(s.datas, atD);
    SizesNew(s, Step(s, a), atD, atD', a.n);
    Assemble(s, a, atP, atD');
  }

  lemma FreeDataKeeps(s: State, a: Action, atP: map<nat, Place>, atD: map<nat, Place>) returns (atD': map<nat, Place>)
    requires Inv(s, atP, atD) && Enabled(s, a) && a.FreeData?
    ensures Inv(Step(s, a), atP, atD')
  {
    hide SideInv, SizesOk, OnlyNewlyPooled, ThreadsListed;
    assert ThreadOk(s, a.t);
    atD' := DeleteKeeps(s.datas, a.id, atD);
    SizesKept(s, Step(s, a), atD, atD');
    Assemble(s, a, atP, atD');
  }

  /** ss are the states of an interleaving of any number of threads, from the empty system. */
  ghost predicate IsRun(ss: seq<State>, actions: seq<Action>) {
    && |ss| == |actions| + 1 && ss[0] == Initial
    && forall i :: 0 <= i < |actions| ==> Enabled(ss[i], actions[i]) && ss[i + 1] == Step(ss[i], actions[i])
  }

  lemma {:induction false} RunKeeps(ss: seq<State>, actions: seq<Action>, i: nat)
    returns (atP: map<nat, Place>, atD: map<nat, Place>)
    requires IsRun(ss, actions) && i < |ss|
    ensures Inv(ss[i], atP, atD)
  {
    if i == 0 {
      atP, atD := map[], map[];
      assert forall id, place :: !Occupies(NoSide, id, place);
    } else {
      atP, atD := RunKeeps(ss, actions, i - 1);
      hide Inv, Enabled, Step;
      atP, atD := StepKeeps(ss[i - 1], actions[i - 1], atP, atD);
    }
  }

  ghost predicate InExactlyOnePlace(s: Side, id: nat) {
    exists place :: Occupies(s, id, place) && forall other :: Occupies(s, id, other) ==> other == place
  }

  /** Over every interleaving each packet and each data buffer ever made is in exactly one place. */
  lemma RunPlaces(ss: seq<State>, actions: seq<Action>, i: nat)
    requires IsRun(ss, actions) && i < |ss|
    ensures forall id :: 0 <= id < ss[i].packets.next ==> InExactlyOnePlace(ss[i].packets, id)
    ensures forall id :: 0 <= id < ss[i].datas.next ==> InExactlyOnePlace(ss[i].datas, id)
  {
    var atP, atD := RunKeeps(ss, actions, i);
    OnePlace(ss[i].packets, atP);
    OnePlace(ss[i].datas, atD);
  }

  lemma OnePlace(s: Side, at: map<nat, Place>)
    requires SideInv(s, at)
    ensures forall id :: 0 <= id < s.next ==> InExactlyOnePlace(s, id)
  {
    forall id | 0 <= id < s.next
      ensures InExactlyOnePlace(s, id)
    {
      assert Occupies(s, id, at[id]);
    }
  }

  /** Over every interleaving all counts are exact, the limits hold and pooled buffers have the pool's length. */
  lemma RunCounts(ss: seq<State>, actions: seq<Action>, i: nat)
    requires IsRun(ss, actions) && i < |ss|
    ensures Counted(ss[i].packets) && Counted(ss[i].datas)
    ensures ss[i].packets.pools.Keys == ss[i].datas.pools.Keys
    ensures forall t, id :: t in ss[i].datas.pools && id in ss[i].datas.pools[t].items ==>
              id in ss[i].sizes && ss[i].sizes[id] == BUFSIZ
    ensures forall k, id :: 0 <= k < |ss[i].datas.batches| && id in ss[i].datas.batches[k].items ==>
              id in ss[i].sizes && ss[i].sizes[id] == BUFSIZ
  {
    var s := ss[i];
    var atP, atD := RunKeeps(ss, actions, i);
    forall t, id | t in s.datas.pools && id in s.datas.pools[t].items
      ensures id in s.sizes && s.sizes[id] == BUFSIZ
    {
      assert Occupies(s.datas, id, InPool(t));
    }
    forall k, id | 0 <= k < |s.datas.batches| && id in s.datas.batches[k].items
      ensures id in s.sizes && s.sizes[id] == BUFSIZ
    {
      assert Occupies(s.datas, id, InBatch(|s.datas.batches| - 1 - k));
    }
  }

  // ---- clean-up -----------------------------------------------------------

  /** cleanup_pool: delete both lists; its assertions hold for every pool of a run. */
  method CleanupPool(packets: Pool, datas: Pool, global: bool) returns (freedP: seq<nat>, freedD: seq<nat>)
    requires |packets.items| <= POOL_SIZE && |datas.items| <= POOL_SIZE
    requires !global ==> packets.count == |packets.items| && datas.count == |datas.items|
    ensures freedP == packets.items && freedD == datas.items
  {
    var pcount, pdcount := 0, 0;
    var p, pd := packets.items, datas.items;
    freedP, freedD := [], [];
    while p != []
      invariant freedP + p == packets.items && pcount == |freedP|
      decreases |p|
    {
      pcount := pcount + 1;
      freedP := freedP + [p[0]];
      p := p[1..];
    }
    while pd != []
      invariant freedD + pd == datas.items && pdcount == |freedD|
      decreases |pd|
    {
      pdcount := pdcount + 1;
      freedD := freedD + [pd[0]];
      pd := pd[1..];
    }
    assert pcount <= POOL_SIZE;
    assert pdcount <= POOL_SIZE;
    assert global || (pcount == packets.count && pdcount == datas.count);
  }

  ghost function PoolItems(pools: map<nat, Pool>, ts: seq<nat>): seq<nat>
    requires forall t :: t in ts ==> t in pools
  {
    if ts == [] then [] else PoolItems(pools, ts[..|ts| - 1]) + pools[ts[|ts| - 1]].items
  }

  ghost function BatchItems(batches: seq<Batch>): seq<nat> {
    if batches == [] then [] else batches[0].items + BatchItems(batches[1..])
  }

  /** The item lies in a pool or a batch. */
  ghost predicate Kept(s: Side, id: nat) {
    || (exists t :: t in s.pools && id in s.pools[t].items)
    || (exists k :: 0 <= k < |s.batches| && id in s.batches[k].items)
  }

  /** Each of them once. */
  ghost predicate ExactlyOnce(items: seq<nat>, s: Side) {
    NoDuplicates(items) && forall id :: id in items <==> Kept(s, id)
  }

  lemma TwoListsApart(a: seq<nat>, b: seq<nat>)
    requires NoDuplicates(a) && NoDuplicates(b) && forall id :: id in a ==> id !in b
    ensures NoDuplicates(a + b)
  {
    var c := a + b;
    forall i, j | 0 <= i < j < |c|
      ensures c[i] != c[j]
    {
      if i < |a| && j >= |a| {
        assert c[i] in a && c[j] in b;
      }
    }
  }

  lemma {:induction false} PoolItemsOnce(s: Side, at: map<nat, Place>, ts: seq<nat>)
    requires Located(s, at) && NoDuplicates(ts) && forall t :: t in ts ==> t in s.pools
    ensures NoDuplicates(PoolItems(s.pools, ts))
    ensures forall id :: id in PoolItems(s.pools, ts) <==> exists t :: t in ts && t in s.pools && id in s.pools[t].items
    decreases |ts|
  {
    if ts != [] {
      var front, last := ts[..|ts| - 1], ts[|ts| - 1];
      assert ts == front + [last];
      PoolItemsOnce(s, at, front);
      var a, b := PoolItems(s.pools, front), s.pools[last].items;
      forall id | id in a
        ensures id !in b
      {
        var t :| t in front && t in s.pools && id in s.pools[t].items;
        assert Occupies(s, id, InPool(t));
        assert Occupies(s, id, InPool(last)) ==> InPool(t) == InPool(last);
      }
      TwoListsApart(a, b);
    }
  }

  lemma {:induction false} BatchItemsOnce(s: Side, at: map<nat, Place>, k: nat)
    requires Located(s, at) && k <= |s.batches|
    ensures NoDuplicates(BatchItems(s.batches[k..]))
    ensures forall id :: id in BatchItems(s.batches[k..]) <==> exists m :: k <= m < |s.batches| && id in s.batches[m].items
    decreases |s.batches| - k
  {
    if k < |s.batches| {
      assert s.batches[k..][1..] == s.batches[k + 1..];
      BatchItemsOnce(s, at, k + 1);
      var a, b := s.batches[k].items, BatchItems(s.batches[k + 1..]);
      var n := |s.batches| - 1;
      forall id | id in a
        ensures id !in b
      {
        assert Occupies(s, id, InBatch(n - k));
        if id in b {
          var m :| k + 1 <= m < |s.batches| && id in s.batches[m].items;
          assert Occupies(s, id, InBatch(n - m));
        }
      }
      TwoListsApart(a, b);
    }
  }

  /** All pools and all batches together hold each kept item once. */
  lemma CleanedOnce(s: Side, at: map<nat, Place>, threads: seq<nat>)
    requires Located(s, at) && NoDuplicates(threads) && forall t :: t in threads <==> t in s.pools
    ensures ExactlyOnce(PoolItems(s.pools, threads) + BatchItems(s.batches), s)
  {
    PoolItemsOnce(s, at, threads);
    assert s.batches[0..] == s.batches;
    BatchItemsOnce(s, at, 0);
    var a, b := PoolItems(s.pools, threads), BatchItems(s.batches);
    forall id | id in a
      ensures id !in b
    {
      var t :| t in threads && t in s.pools && id in s.pools[t].items;
      assert Occupies(s, id, InPool(t));
      if id in b {
        var m :| 0 <= m < |s.batches| && id in s.batches[m].items;
        assert Occupies(s, id, InBatch(|s.batches| - 1 - m));
      }
    }
    TwoListsApart(a, b);
  }

  /** After any run, static_cleanup deletes every packet and every buffer that is pooled, and each once. */
  method CleanupAfterRun(ghost ss: seq<State>, ghost actions: seq<Action>, s: State) returns (freedP: seq<nat>, freedD: seq<nat>)
    requires IsRun(ss, actions) && s == ss[|actions|]
    ensures ExactlyOnce(freedP, s.packets) && ExactlyOnce(freedD, s.datas)
  {
    hide Located, ExactlyOnce, Step, Enabled;
    ghost var atP, atD := RunKeeps(ss, actions, |actions|);
    CleanedOnce(s.packets, atP, s.threads);
    CleanedOnce(s.datas, atD, s.threads);
    freedP, freedD := StaticCleanup(s.packets, s.datas, s.threads);
  }

  /**
   Packet::static_cleanup over the counted state of a run: first the pools of the threads, then the
   batches, packets and data side by side; the count of rounds comes out even.
   */
  method StaticCleanup(packets: Side, datas: Side, threadPools: seq<nat>) returns (freedP: seq<nat>, freedD: seq<nat>)
    requires Counted(packets) && Counted(datas)
    requires forall t :: t in threadPools ==> t in packets.pools && t in datas.pools
    ensures freedP == PoolItems(packets.pools, threadPools) + BatchItems(packets.batches)
    ensures freedD == PoolItems(datas.pools, threadPools) + BatchItems(datas.batches)
  {
    freedP, freedD := [], [];
    for i := 0 to |threadPools|
      invariant freedP == PoolItems(packets.pools, threadPools[..i])
      invariant freedD == PoolItems(datas.pools, threadPools[..i])
    {
      var t := threadPools[i];
      assert t in threadPools;
      assert threadPools[..i + 1][..i] == threadPools[..i];
      var moreP, moreD := CleanupPool(packets.pools[t], datas.pools[t], false);
      freedP, freedD := freedP + moreP, freedD + moreD;
    }
    assert threadPools[..|threadPools|] == threadPools;
    var rounds := packets.batchCount;
    if rounds < datas.batchCount {
      rounds := datas.batchCount;
    }
    assert rounds <= GLOBAL_COUNT;
    var pbatch, pdbatch := packets.batches, datas.batches;
    while pbatch != [] || pdbatch != []
      invariant rounds == (if |pbatch| < |pdbatch| then |pdbatch| else |pbatch|)
      invariant forall k :: 0 <= k < |pbatch| ==> |pbatch[k].items| == POOL_SIZE
      invariant forall k :: 0 <= k < |pdbatch| ==> |pdbatch[k].items| == POOL_SIZE
      invariant freedP + BatchItems(pbatch) == PoolItems(packets.pools, threadPools) + BatchItems(packets.batches)
      invariant freedD + BatchItems(pdbatch) == PoolItems(datas.pools, threadPools) + BatchItems(datas.batches)
      decreases rounds
    {
      var p, pd := [], [];
      if pbatch != [] {
        p, pbatch := pbatch[0].items, pbatch[1..];
      }
      if pdbatch != [] {
        pd, pdbatch := pdbatch[0].items, pdbatch[1..];
      }
      var moreP, moreD := CleanupPool(Pool(p, 0), Pool(pd, 0), true);
      freedP, freedD := freedP + moreP, freedD + moreD;
      rounds := rounds - 1;
    }
    assert rounds == 0;
  }
}
