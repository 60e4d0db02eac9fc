/**
 The imperative side of packet sharing: the fields of packets are changed one
 at a time, as in click/lib/packet.cc and click/include/click/packet.hh, and
 every operation is shown to do what its function in Packets says.
 */
module PacketStore {
  import opened Wrappers
  import opened Packets

  class Store {
    var packets: map<nat, Packet>
    var buffers: map<nat, Buffer>
    var nextPacket: nat
    var nextBuffer: nat
    var attempts: nat
    ghost var handles: set<nat>
    ghost var released: seq<Release>
    ghost var made: seq<bool>

    ghost function State(): World
      reads this
    {
      World(packets, buffers, handles, released, nextPacket, nextBuffer, attempts, made)
    }

    constructor ()
      ensures State() == Empty && Inv(State())
    {
      packets, buffers, nextPacket, nextBuffer, attempts := map[], map[], 0, 0, 0;
      handles, released, made := {}, [], [];
    }

    /** One attempt to allocate. */
    method Allocate(env: Env) returns (ok: bool)
      modifies this`attempts
      ensures attempts == old(attempts) + 1 && ok == env.mem(old(attempts))
    {
      ok := env.mem(attempts);
      attempts := attempts + 1;
    }

    /** Packet::kill and, when the count reaches zero, the destructor of Packet. */
    method KillPacket(p: nat)
      requires p in packets && packets[p].useCount >= 1
      requires packets[p].dataPacket.Some? ==>
                 var d := packets[p].dataPacket.value;
                 d in packets && d != p && packets[d].dataPacket.None? && packets[d].useCount >= 1
      modifies this
      ensures State() == Kill(old(State()), p).(handles := old(handles))
      decreases if packets[p].dataPacket.Some? then 1 else 0
    {
      var left := packets[p].useCount - 1;
      packets := packets[p := packets[p].(useCount := left)];
      if left == 0 {
        if packets[p].dataPacket.Some? {
          KillPacket(packets[p].dataPacket.value);
        } else {
          var b := packets[p].buf;
          buffers := buffers - {b};
          released := released + [Release(b, packets[p].destructor)];
        }
        packets := packets - {p};
      }
    }

    /** The router gives up its pointer p. */
    method KillHandle(p: nat)
      requires Inv(State()) && p in handles
      modifies this
      ensures State() == Kill(old(State()), p) && Inv(State())
    {
      hide Inv, OthersKept, Kill;
      KillKeeps(State(), p);
      KillReady(State(), p);
      KillPacket(p);
      handles := handles - {p};
      KillHandles(old(State()), p);
    }

    static lemma KillHandles(w: World, p: nat)
      requires p in w.packets
      ensures Kill(w, p).handles == w.handles - {p}
    {}

    static lemma KillReady(w: World, p: nat)
      requires Inv(w) && p in w.handles
      ensures p in w.packets && w.packets[p].useCount >= 1
      ensures w.packets[p].dataPacket.Some? ==>
                var d := w.packets[p].dataPacket.value;
                d in w.packets && d != p && w.packets[d].dataPacket.None? && w.packets[d].useCount >= 1
    {
      PacketFacts(w, p, None);
      if w.packets[p].dataPacket.Some? {
        PacketFacts(w, w.packets[p].dataPacket.value, None);
      }
    }

    method CloneOf(p: nat, env: Env) returns (q: Option<nat>)
      requires Inv(State()) && p in handles
      modifies this
      ensures (State(), q) == Clone(old(State()), p, env) && Inv(State())
      ensures q.Some? <==> env.mem(old(attempts))
    {
      hide Inv;
      ghost var w := State();
      KillReady(w, p);
      CloneInv(w, p, env);
      var ok := Allocate(env);
      if !ok {
        return None;
      }
      var c := nextPacket;
      var origin := p;
      if packets[origin].dataPacket.Some? {
        origin := packets[origin].dataPacket.value;
      }
      var copy := packets[p];
      copy := copy.(useCount := 1);
      copy := copy.(dataPacket := Some(origin));
      copy := copy.(destructor := false);
      packets := packets[c := copy];
      packets := packets[origin := packets[origin].(useCount := packets[origin].useCount + 1)];
      nextPacket := nextPacket + 1;
      handles := handles + {c};
      q := Some(c);
      assert packets == Clone(w, p, env).0.packets;
    }

    static lemma CloneInv(w: World, p: nat, env: Env)
      requires Inv(w) && p in w.handles && p in w.packets
      ensures Inv(Clone(w, p, env).0)
    {
      CloneKeeps(w, p, env);
    }

    method ExpensiveUniqueifyOf(p: nat, extraHead: int, extraTail: int, freeOnFailure: bool, env: Env) returns (r: Option<nat>)
      requires Inv(State()) && p in handles && RoomOk(State(), p, extraHead, extraTail)
      modifies this
      ensures (State(), r) == ExpensiveUniqueify(old(State()), p, extraHead, extraTail, freeOnFailure, env)
      ensures UniqueifyOk(old(State()), p, State(), r, extraHead, extraTail, freeOnFailure, true, env)
      decreases packets[p].useCount
    {
      hide Inv, UniqueifyOk, Kill, Relocate, Copied, Clone;
      ghost var w := State();
      ExpensiveUniqueifyKeeps(w, p, extraHead, extraTail, freeOnFailure, env);
      KillReady(w, p);
      if packets[p].useCount > 1 {
        r := UniqueifyThroughClone(p, extraHead, extraTail, freeOnFailure, env);
        return;
      }
      var bytes := CopyOut(p, extraHead, extraTail, env);
      var ok := Allocate(env);
      if !ok {
        if freeOnFailure {
          AttemptKeeps(w);
          KillHandle(p);
        }
        return None;
      }
      Relocated(p, bytes, extraHead);
      r := Some(p);
    }

    /** What alloc_data and the memcpy after it leave in the new memory. */
    method CopyOut(p: nat, extraHead: int, extraTail: int, env: Env) returns (bytes: seq<byte>)
      requires RoomOk(State(), p, extraHead, extraTail)
      ensures bytes == Copied(State(), p, extraHead, extraTail, env)
    {
      hide Write, Block;
      var source := buffers[packets[p].buf].bytes;
      var n := |source| + extraHead + extraTail;
      if n < MIN_BUFFER_LENGTH {
        n := MIN_BUFFER_LENGTH;
      }
      bytes := Block(env, attempts, n);
      var start := if extraHead >= 0 then 0 else -extraHead;
      var end := |source| + if extraTail >= 0 then 0 else extraTail;
      var at := if extraHead >= 0 then extraHead else 0;
      bytes := Write(bytes, at, source[start..end]);
    }

    /** The branch for a packet that has clones. */
    method UniqueifyThroughClone(p: nat, extraHead: int, extraTail: int, freeOnFailure: bool, env: Env) returns (r: Option<nat>)
      requires Inv(State()) && p in handles && RoomOk(State(), p, extraHead, extraTail)
      requires packets[p].useCount > 1
      modifies this
      ensures (State(), r) == ExpensiveUniqueify(old(State()), p, extraHead, extraTail, freeOnFailure, env)
      decreases packets[p].useCount, 0
    {
      hide Inv, Kill, Clone;
      ghost var w := State();
      CloneKeeps(w, p, env);
      HandleFits(w, p);
      var q := CloneOf(p, env);
      ghost var w1 := State();
      HandleFits(w1, p);
      if q.Some? {
        HandleFits(w1, q.value);
        r := ExpensiveUniqueifyOf(q.value, extraHead, extraTail, true, env);
        assert Kept(w1, State(), p);
      } else {
        r := None;
      }
      if r.Some? || freeOnFailure {
        HandleFits(State(), p);
        KillHandle(p);
      }
    }

    /** Switch p to the new memory and free what it used before. */
    method Relocated(p: nat, bytes: seq<byte>, extraHead: int)
      requires p in packets && packets[p].data + extraHead >= 0 && packets[p].tail + extraHead >= 0
      requires packets[p].dataPacket.Some? ==>
                 var d := packets[p].dataPacket.value;
                 d in packets && d != p && packets[d].dataPacket.None? && packets[d].useCount >= 1
      modifies this
      ensures State() == Relocate(old(State()), p, bytes, extraHead)
    {
      hide Kill, UnrefOwner, Moved;
      var before := packets[p];
      MoveTo(p, bytes, extraHead);
      MovedFacts(old(State()), p, bytes, extraHead);
      if before.dataPacket.Some? {
        UnrefIsKill(State(), before.dataPacket.value);
        KillPacket(before.dataPacket.value);
      } else {
        buffers := buffers - {before.buf};
        released := released + [Release(before.buf, before.destructor)];
      }
    }

    /** Install the new memory, field by field. */
    method MoveTo(p: nat, bytes: seq<byte>, extraHead: int)
      requires p in packets && packets[p].data + extraHead >= 0 && packets[p].tail + extraHead >= 0
      modifies this
      ensures State() == Moved(old(State()), p, bytes, extraHead)
    {
      var before := packets[p];
      var b := nextBuffer;
      buffers := buffers[b := Buffer(bytes, false)];
      nextBuffer := nextBuffer + 1;
      made := made + [false];
      packets := packets[p := packets[p].(buf := b)];
      packets := packets[p := packets[p].(data := before.data + extraHead, tail := before.tail + extraHead)];
      packets := packets[p := packets[p].(destructor := false, useCount := 1, dataPacket := None)];
    }

    static lemma MovedFacts(w: World, p: nat, bytes: seq<byte>, extraHead: int)
      requires p in w.packets && w.packets[p].data + extraHead >= 0 && w.packets[p].tail + extraHead >= 0
      ensures var w' := Moved(w, p, bytes, extraHead);
              w'.packets.Keys == w.packets.Keys && forall q :: q in w.packets && q != p ==> w'.packets[q] == w.packets[q]
    {}

    /** For a packet with a buffer of its own, kill() but for the handle is what an owner loses with a clone. */
    static lemma UnrefIsKill(w: World, d: nat)
      requires d in w.packets && w.packets[d].dataPacket.None?
      ensures Kill(w, d).(handles := w.handles) == UnrefOwner(w, d)
    {}

    method UniqueifyOf(p: nat, env: Env) returns (r: Option<nat>)
      requires Inv(State()) && p in handles && Fits(State(), p)
      modifies this
      ensures (State(), r) == Uniqueify(old(State()), p, env)
      ensures UniqueifyOk(old(State()), p, State(), r, 0, 0, true, Shared(old(State()), p), env)
    {
      hide Inv, UniqueifyOk, ExpensiveUniqueify;
      UniqueifyKeeps(State(), p, env);
      if packets[p].dataPacket.None? && packets[p].useCount <= 1 {
        r := Some(p);
      } else {
        r := ExpensiveUniqueifyOf(p, 0, 0, true, env);
      }
    }

    method PushOf(p: nat, n: nat, env: Env) returns (r: Option<nat>)
      requires Inv(State()) && p in handles && Fits(State(), p)
      modifies this
      ensures (State(), r) == Push(old(State()), p, n, env)
      ensures PushOk(old(State()), p, n, State(), r, env)
    {
      hide Inv, PushOk, ExpensiveUniqueify, Sole, OthersKept, Bytes;
      PushKeeps(State(), p, n, env);
      if packets[p].data >= n && !(packets[p].dataPacket.Some? || packets[p].useCount > 1) {
        packets := packets[p := packets[p].(data := packets[p].data - n)];
        r := Some(p);
      } else {
        r := ExpensiveUniqueifyOf(p, PushRoom(n), 0, true, env);
        if r.Some? {
          UniqueEnds(old(State()), p, State(), r.value, PushRoom(n), 0, env);
          packets := packets[r.value := packets[r.value].(data := packets[r.value].data - n)];
        }
      }
    }

    static lemma UniqueEnds(w: World, p: nat, w': World, r: nat, extraHead: int, extraTail: int, env: Env)
      requires Fits(w, p) && UniqueifyOk(w, p, w', Some(r), extraHead, extraTail, true, true, env)
      ensures r in w'.packets && w'.packets[r].data == w.packets[p].data + extraHead
    {}

    method PutOf(p: nat, n: nat, env: Env) returns (r: Option<nat>)
      requires Inv(State()) && p in handles && Fits(State(), p)
      modifies this
      ensures (State(), r) == Put(old(State()), p, n, env)
      ensures PutOk(old(State()), p, n, State(), r, env)
    {
      hide Inv, PutOk, ExpensiveUniqueify, Sole, OthersKept, Bytes;
      PutKeeps(State(), p, n, env);
      if |buffers[packets[p].buf].bytes| - packets[p].tail >= n && !(packets[p].dataPacket.Some? || packets[p].useCount > 1) {
        packets := packets[p := packets[p].(tail := packets[p].tail + n)];
        r := Some(p);
      } else {
        r := ExpensiveUniqueifyOf(p, 0, n + 128, true, env);
        if r.Some? {
          UniqueEnds(old(State()), p, State(), r.value, 0, n + 128, env);
          packets := packets[r.value := packets[r.value].(tail := packets[r.value].tail + n)];
        }
      }
    }
  }
}
