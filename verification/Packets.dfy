/**
 Packet sharing (click/lib/packet.cc, user level): reference-counted clones of
 one data buffer, and uniqueify, push and put, which copy the buffer when it
 is shared or too small.

 Packets and buffers live in a store and are named by numbers, as pointers
 would name them.  An environment decides which allocations fail and what
 fresh memory holds.
 */
module Packets {
  import opened Wrappers

  /** The bytes from _head to _end; foreign buffers come with a destructor. */
  datatype Buffer = Buffer(bytes: seq<byte>, foreign: bool)

  /** _data and _tail are kept as offsets from _head. */
  datatype Packet = Packet(useCount: nat, dataPacket: Option<nat>, buf: nat, data: nat, tail: nat, destructor: bool)

  /** One call of delete[] or of a destructor. */
  datatype Release = Release(buf: nat, byDestructor: bool)

  /** mem says whether the i-th allocation succeeds, junk what the i-th block holds. */
  datatype Env = Env(mem: nat -> bool, junk: (nat, nat) -> byte)

  /** handles are the packets the router still holds a pointer to; made[b] is whether buffer b came with a destructor. */
  datatype World = World(
    packets: map<nat, Packet>, buffers: map<nat, Buffer>, handles: set<nat>, released: seq<Release>,
    nextPacket: nat, nextBuffer: nat, attempts: nat, made: seq<bool>)

  const Empty := World(map[], map[], {}, [], 0, 0, 0, [])

  const MIN_BUFFER_LENGTH := 64
  const POOL_BUFFER_LENGTH := 2048

  // ---- the invariant ------------------------------------------------------

  ghost function Clones(w: World, d: nat): set<nat> {
    set q | q in w.packets && w.packets[q].dataPacket == Some(d)
  }

  ghost predicate BufferOk(w: World, pk: Packet) {
    pk.buf in w.buffers && pk.data <= pk.tail <= |w.buffers[pk.buf].bytes|
  }

  /** A clone: its data packet is no clone itself and holds the same buffer; nothing counts on the clone. */
  ghost predicate CloneOk(w: World, p: nat, pk: Packet, d: nat) {
    && d in w.packets && w.packets[d].dataPacket.None? && w.packets[d].buf == pk.buf
    && pk.useCount == 1 && p in w.handles && !pk.destructor
  }

  /** An owner of a buffer is used by its own handle, by its clones, and once more if it is the one in `extra`. */
  ghost predicate OwnerOk(w: World, p: nat, pk: Packet, extra: Option<nat>) {
    && pk.useCount == |Clones(w, p)| + (if p in w.handles then 1 else 0) + (if extra == Some(p) then 1 else 0)
    && pk.useCount >= 1
    && (pk.destructor <==> pk.buf in w.buffers && w.buffers[pk.buf].foreign)
  }

  ghost predicate PacketOk(w: World, p: nat, extra: Option<nat>)
    requires p in w.packets
  {
    var pk := w.packets[p];
    && BufferOk(w, pk)
    && match pk.dataPacket
       case Some(d) => CloneOk(w, p, pk, d)
       case None => OwnerOk(w, p, pk, extra)
  }

  ghost predicate Owns(w: World, p: nat, b: nat) {
    p in w.packets && w.packets[p].dataPacket.None? && w.packets[p].buf == b
  }

  ghost predicate Owned(w: World, b: nat) {
    exists p :: Owns(w, p, b)
  }

  /** Every live buffer has exactly one owner. */
  ghost predicate OwnersOk(w: World) {
    && (forall b :: b in w.buffers ==> Owned(w, b))
    && (forall p, q, b :: Owns(w, p, b) && Owns(w, q, b) ==> p == q)
  }

  ghost predicate WasReleased(w: World, b: nat) {
    exists i :: 0 <= i < |w.released| && w.released[i].buf == b
  }

  /** Of the buffers ever allocated, each is live or was released, never both, and released once. */
  ghost predicate LedgerOk(w: World) {
    && (forall b :: b in w.buffers ==> b < w.nextBuffer && !WasReleased(w, b))
    && (forall b :: 0 <= b < w.nextBuffer && b !in w.buffers ==> WasReleased(w, b))
    && (forall i :: 0 <= i < |w.released| ==> w.released[i].buf < w.nextBuffer)
    && (forall i, j :: 0 <= i < j < |w.released| ==> w.released[i].buf != w.released[j].buf)
    && |w.made| == w.nextBuffer
    && (forall b :: b in w.buffers ==> w.buffers[b].foreign == w.made[b])
    && (forall i :: 0 <= i < |w.released| ==> w.released[i].byDestructor == w.made[w.released[i].buf])
  }

  ghost predicate Balanced(w: World, extra: Option<nat>) {
    && (forall p :: p in w.packets ==> p < w.nextPacket && PacketOk(w, p, extra))
    && w.handles <= w.packets.Keys
    && (extra.Some? ==> extra.value in w.packets && w.packets[extra.value].dataPacket.None?)
    && OwnersOk(w)
    && LedgerOk(w)
  }

  ghost predicate Inv(w: World) {
    Balanced(w, None)
  }

  // ---- operations ---------------------------------------------------------

  /** The last reference to an owner is gone: free its buffer and the packet. */
  function Destroy(w: World, p: nat): World
    requires p in w.packets
  {
    var pk := w.packets[p];
    w.(packets := w.packets - {p}, buffers := w.buffers - {pk.buf},
       released := w.released + [Release(pk.buf, pk.destructor)])
  }

  /** Packet::kill on an owner. */
  function UnrefOwner(w: World, p: nat): World
    requires p in w.packets
  {
    var pk := w.packets[p];
    if pk.useCount > 1 then w.(packets := w.packets[p := pk.(useCount := pk.useCount - 1)])
    else Destroy(w, p)
  }

  /** Packet::kill, called through a handle: decrement, and at zero run the destructor of Packet. */
  function Kill(w: World, p: nat): World
    requires p in w.packets
  {
    var pk := w.packets[p];
    var w1 := w.(handles := w.handles - {p});
    if pk.useCount > 1 then w1.(packets := w.packets[p := pk.(useCount := pk.useCount - 1)])
    else
      match pk.dataPacket
      case Some(d) =>
        var w2 := w1.(packets := w.packets - {p});
        if d in w2.packets then UnrefOwner(w2, d) else w2
      case None => Destroy(w1, p)
  }

  function Attempt(w: World): World {
    w.(attempts := w.attempts + 1)
  }

  function Origin(w: World, p: nat): nat
    requires p in w.packets
  {
    if w.packets[p].dataPacket.Some? then w.packets[p].dataPacket.value else p
  }

  function Clone(w: World, p: nat, env: Env): (World, Option<nat>)
    requires p in w.packets
  {
    if !env.mem(w.attempts) then (Attempt(w), None)
    else
      var o := Origin(w, p);
      var q := w.nextPacket;
      var packets := w.packets[q := w.packets[p].(useCount := 1, dataPacket := Some(o), destructor := false)];
      var packets' := if o in packets then packets[o := packets[o].(useCount := packets[o].useCount + 1)] else packets;
      (Attempt(w).(packets := packets', handles := w.handles + {q}, nextPacket := q + 1), Some(q))
  }

  // ---- what a packet shows ------------------------------------------------

  ghost function Bytes(w: World, p: nat): seq<byte>
    requires p in w.packets && BufferOk(w, w.packets[p])
  {
    w.buffers[w.packets[p].buf].bytes[w.packets[p].data..w.packets[p].tail]
  }

  /** The handle q is still there and shows the same bytes of the same buffer. */
  ghost predicate Kept(w: World, w': World, q: nat) {
    && q in w.packets && q in w'.packets && q in w'.handles
    && w'.packets[q].buf == w.packets[q].buf
    && w'.packets[q].data == w.packets[q].data && w'.packets[q].tail == w.packets[q].tail
    && w.packets[q].buf in w.buffers && w.packets[q].buf in w'.buffers
    && w'.buffers[w.packets[q].buf] == w.buffers[w.packets[q].buf]
  }

  ghost predicate OthersKept(w: World, w': World, p: nat) {
    forall q :: q in w.handles && q != p ==> Kept(w, w', q)
  }

  // ---- counting clones ----------------------------------------------------

  ghost predicate SameClones(w: World, w': World, d: nat) {
    forall q :: (q in w.packets && w.packets[q].dataPacket == Some(d)) <==>
                (q in w'.packets && w'.packets[q].dataPacket == Some(d))
  }

  lemma SameCount(w: World, w': World, d: nat)
    requires SameClones(w, w', d)
    ensures Clones(w, d) == Clones(w', d)
  {}

  lemma OneCloneLess(w: World, w': World, d: nat, p: nat)
    requires p in w.packets && w.packets[p].dataPacket == Some(d)
    requires forall q :: q != p ==> ((q in w.packets && w.packets[q].dataPacket == Some(d)) <==>
                                     (q in w'.packets && w'.packets[q].dataPacket == Some(d)))
    requires !(p in w'.packets && w'.packets[p].dataPacket == Some(d))
    ensures |Clones(w, d)| == |Clones(w', d)| + 1
  {
    assert Clones(w, d) == Clones(w', d) + {p};
  }

  lemma CloneCounts(w: World, d: nat, q: nat)
    requires q in w.packets && w.packets[q].dataPacket == Some(d)
    ensures |Clones(w, d)| >= 1
  {
    assert q in Clones(w, d);
    assert |Clones(w, d) - {q}| == |Clones(w, d)| - 1;
  }

  /** A packet nobody touched is as good as before. */
  lemma Untouched(w: World, w': World, p: nat, extra: Option<nat>, extra': Option<nat>)
    requires p in w.packets && p in w'.packets && w'.packets[p] == w.packets[p]
    requires PacketOk(w, p, extra)
    requires w.packets[p].buf in w'.buffers && w'.buffers[w.packets[p].buf] == w.buffers[w.packets[p].buf]
    requires p in w.handles <==> p in w'.handles
    requires extra == Some(p) <==> extra' == Some(p)
    requires w.packets[p].dataPacket.Some? ==>
               var d := w.packets[p].dataPacket.value;
               d in w'.packets && w'.packets[d].dataPacket.None? && w'.packets[d].buf == w.packets[p].buf
    requires w.packets[p].dataPacket.None? ==> SameClones(w, w', p)
    ensures PacketOk(w', p, extra')
  {
    if w.packets[p].dataPacket.None? {
      SameCount(w, w', p);
    }
  }

  // ---- releasing ----------------------------------------------------------

  lemma LedgerRelease(w: World, w': World, b: nat, how: bool)
    requires LedgerOk(w) && b in w.buffers && how == w.buffers[b].foreign
    requires w'.buffers == w.buffers - {b} && w'.released == w.released + [Release(b, how)]
    requires w'.nextBuffer == w.nextBuffer && w'.made == w.made
    ensures LedgerOk(w')
  {
    forall c
      ensures WasReleased(w', c) <==> WasReleased(w, c) || c == b
    {
      if c == b {
        assert w'.released[|w.released|].buf == b;
      }
      if WasReleased(w, c) {
        var i :| 0 <= i < |w.released| && w.released[i].buf == c;
        assert w'.released[i].buf == c;
      }
    }
    forall i | 0 <= i < |w.released|
      ensures w.released[i].buf != b
    {
      assert w.released[i].buf == b ==> WasReleased(w, b);
    }
  }

  /** Destroying an owner whose only reference was the surplus one. */
  lemma DestroyKeeps(w: World, p: nat)
    requires Balanced(w, Some(p)) && w.packets[p].useCount == 1
    ensures Inv(Destroy(w, p))
    ensures OthersKept(w, Destroy(w, p), p)
  {
    hide LedgerOk, OwnersOk;
    var w' := Destroy(w, p);
    var b := w.packets[p].buf;
    assert PacketOk(w, p, Some(p));
    assert Clones(w, p) == {} && p !in w.handles;
    LedgerRelease(w, w', b, w.packets[p].destructor);
    forall q | q in w'.packets
      ensures q < w'.nextPacket && PacketOk(w', q, None) && w'.packets[q].buf != b
    {
      assert PacketOk(w, q, Some(p));
      match w.packets[q].dataPacket {
        case Some(d) =>
          assert q !in Clones(w, p);
          OneOwner(w, d, p, b);
        case None =>
          OneOwner(w, q, p, b);
          SameCount(w, w', q);
      }
    }
    OwnersAfter(w, w', p, b);
  }

  lemma OneOwner(w: World, p: nat, q: nat, b: nat)
    requires OwnersOk(w) && Owns(w, q, b)
    ensures Owns(w, p, b) ==> p == q
  {}

  lemma OwnersAfter(w: World, w': World, p: nat, b: nat)
    requires OwnersOk(w) && Owns(w, p, b)
    requires w'.packets == w.packets - {p} && w'.buffers == w.buffers - {b}
    ensures OwnersOk(w')
  {
    forall c | c in w'.buffers
      ensures Owned(w', c)
    {
      assert Owned(w, c);
      var o :| Owns(w, o, c);
      assert Owns(w', o, c);
    }
    forall o, q, c | Owns(w', o, c) && Owns(w', q, c)
      ensures o == q
    {
      assert Owns(w, o, c) && Owns(w, q, c);
    }
  }

  lemma DecrementOthers(w: World, p: nat, pk: Packet, q: nat)
    requires Balanced(w, Some(p)) && q in w.packets && q != p
    requires pk == w.packets[p].(useCount := pk.useCount)
    ensures q < w.nextPacket && PacketOk(w.(packets := w.packets[p := pk]), q, None)
  {
    hide Balanced, OwnerOk;
    ExtraFacts(w, p);
    PacketFacts(w, q, Some(p));
    Untouched(w, w.(packets := w.packets[p := pk]), q, Some(p), None);
  }

  lemma DecrementItself(w: World, p: nat)
    requires Balanced(w, Some(p)) && w.packets[p].useCount > 1
    ensures p < w.nextPacket && PacketOk(UnrefOwner(w, p), p, None)
  {
    hide Balanced;
    ExtraFacts(w, p);
    PacketFacts(w, p, Some(p));
    SameCount(w, UnrefOwner(w, p), p);
  }

  lemma DecrementBalanced(w: World, p: nat)
    requires Balanced(w, Some(p)) && w.packets[p].useCount > 1
    ensures Inv(UnrefOwner(w, p))
  {
    hide LedgerOk, OwnersOk, PacketOk;
    var w' := UnrefOwner(w, p);
    DecrementItself(w, p);
    forall q | q in w'.packets && q != p
      ensures q < w'.nextPacket && PacketOk(w', q, None)
    {
      DecrementOthers(w, p, w'.packets[p], q);
    }
    SameOwners(w, w');
  }

  lemma ExtraFacts(w: World, p: nat)
    requires Balanced(w, Some(p))
    ensures p in w.packets && w.packets[p].useCount >= 1
    ensures w.packets[p].useCount == 1 ==> p !in w.handles
  {
    PacketFacts(w, p, Some(p));
  }

  /** Packet::kill on an owner drops exactly the surplus reference. */
  lemma UnrefKeeps(w: World, p: nat)
    requires Balanced(w, Some(p))
    ensures Inv(UnrefOwner(w, p))
    ensures OthersKept(w, UnrefOwner(w, p), p)
    ensures p in w.handles ==> Kept(w, UnrefOwner(w, p), p)
  {
    hide Balanced, OwnerOk;
    ExtraFacts(w, p);
    var w' := UnrefOwner(w, p);
    if w.packets[p].useCount > 1 {
      DecrementBalanced(w, p);
      forall q | q in w.handles
        ensures Kept(w, w', q)
      {
        PacketFacts(w, q, Some(p));
      }
    } else {
      DestroyKeeps(w, p);
    }
  }

  /** Ownership and the ledger depend only on who owns which buffer. */
  lemma SameOwners(w: World, w': World)
    requires OwnersOk(w) && LedgerOk(w)
    requires w'.buffers == w.buffers && w'.released == w.released && w'.nextBuffer == w.nextBuffer && w'.made == w.made
    requires forall p, b :: Owns(w, p, b) <==> Owns(w', p, b)
    ensures OwnersOk(w') && LedgerOk(w')
  {
    assert forall b :: WasReleased(w, b) <==> WasReleased(w', b);
    forall b | b in w'.buffers
      ensures Owned(w', b)
    {
      assert Owned(w, b);
      var p :| Owns(w, p, b);
      assert Owns(w', p, b);
    }
  }

  lemma PacketFacts(w: World, p: nat, extra: Option<nat>)
    requires Balanced(w, extra)
    ensures w.handles <= w.packets.Keys
    ensures p in w.packets ==> p < w.nextPacket && PacketOk(w, p, extra)
  {}

  lemma KillKeeps(w: World, p: nat)
    requires Inv(w) && p in w.handles
    ensures Inv(Kill(w, p))
    ensures OthersKept(w, Kill(w, p), p)
    ensures Kill(w, p).handles == w.handles - {p}
  {
    hide Balanced, OwnerOk;
    PacketFacts(w, p, None);
    var pk := w.packets[p];
    var w1 := w.(handles := w.handles - {p});
    match pk.dataPacket {
      case Some(d) =>
        var w2 := w1.(packets := w.packets - {p});
        RemoveClone(w, w2, p, d);
        UnrefKeeps(w2, d);
        assert Kill(w, p) == UnrefOwner(w2, d);
        forall q | q in w.handles && q != p
          ensures Kept(w, Kill(w, p), q)
        {
          PacketFacts(w, q, None);
          assert Kept(w2, UnrefOwner(w2, d), q);
        }
      case None =>
        DropHandle(w, w1, p);
        UnrefKeeps(w1, p);
        assert Kill(w, p) == UnrefOwner(w1, p);
        forall q | q in w.handles && q != p
          ensures Kept(w, Kill(w, p), q)
        {
          PacketFacts(w, q, None);
          assert Kept(w1, UnrefOwner(w1, p), q);
        }
    }
  }

  lemma DropHandle(w: World, w1: World, p: nat)
    requires Inv(w) && p in w.handles && w.packets[p].dataPacket.None?
    requires w1 == w.(handles := w.handles - {p})
    ensures Balanced(w1, Some(p))
  {
    hide LedgerOk, OwnersOk;
    forall q | q in w1.packets
      ensures q < w1.nextPacket && PacketOk(w1, q, Some(p))
    {
      assert PacketOk(w, q, None);
      SameCount(w, w1, q);
    }
    SameOwners(w, w1);
  }

  lemma RemoveClone(w: World, w2: World, p: nat, d: nat)
    requires Inv(w) && p in w.handles && w.packets[p].dataPacket == Some(d)
    requires w2 == w.(handles := w.handles - {p}, packets := w.packets - {p})
    ensures Balanced(w2, Some(d))
  {
    hide LedgerOk, OwnersOk;
    assert PacketOk(w, p, None);
    forall q | q in w2.packets
      ensures q < w2.nextPacket && PacketOk(w2, q, Some(d))
    {
      assert PacketOk(w, q, None);
      if q == d {
        OneCloneLess(w, w2, d, p);
      } else {
        SameCount(w, w2, q);
      }
    }
    SameOwners(w, w2);
  }

  // ---- allocation ---------------------------------------------------------

  /** What the k-th allocated block of n bytes holds before anything is written. */
  function Block(env: Env, k: nat, n: nat): (s: seq<byte>)
    ensures |s| == n
  {
    seq(n, i requires 0 <= i < n => env.junk(k, i))
  }

  /** `block` with `bytes` written at `at`. */
  function Write(block: seq<byte>, at: nat, bytes: seq<byte>): (s: seq<byte>)
    requires at + |bytes| <= |block|
    ensures |s| == |block| && s[at..at + |bytes|] == bytes
  {
    block[..at] + bytes + block[at + |bytes|..]
  }

  function AtLeast(n: int, least: nat): nat {
    if n < least then least else n
  }

  /** A new packet that owns a new buffer. */
  function AddOwner(w: World, buffer: Buffer, data: nat, tail: nat): World {
    w.(packets := w.packets[w.nextPacket := Packet(1, None, w.nextBuffer, data, tail, buffer.foreign)],
       buffers := w.buffers[w.nextBuffer := buffer],
       handles := w.handles + {w.nextPacket},
       nextPacket := w.nextPacket + 1, nextBuffer := w.nextBuffer + 1, made := w.made + [buffer.foreign])
  }

  /** Packet::make: one allocation for the packet, one for the data; with packet pools buffers have 2048 bytes or more. */
  function Make(w: World, headroom: nat, contents: seq<byte>, tailroom: nat, pool: bool, env: Env): (World, Option<nat>) {
    if !env.mem(w.attempts) then (Attempt(w), None)
    else if !env.mem(w.attempts + 1) then (Attempt(Attempt(w)), None)
    else
      var n := AtLeast(headroom + |contents| + tailroom, if pool then POOL_BUFFER_LENGTH else MIN_BUFFER_LENGTH);
      var bytes := Write(Block(env, w.attempts + 1, n), headroom, contents);
      (AddOwner(Attempt(Attempt(w)), Buffer(bytes, false), headroom, headroom + |contents|), Some(w.nextPacket))
  }

  /** Packet::make around memory the caller hands over, with or without a destructor. */
  function MakeAround(w: World, headroom: seq<byte>, contents: seq<byte>, tailroom: seq<byte>, destructor: bool, env: Env): (World, Option<nat>) {
    if !env.mem(w.attempts) then (Attempt(w), None)
    else (AddOwner(Attempt(w), Buffer(headroom + contents + tailroom, destructor), |headroom|, |headroom| + |contents|),
          Some(w.nextPacket))
  }

  lemma LedgerAdd(w: World, w': World, buffer: Buffer)
    requires LedgerOk(w)
    requires w'.buffers == w.buffers[w.nextBuffer := buffer] && w'.released == w.released
    requires w'.nextBuffer == w.nextBuffer + 1 && w'.made == w.made + [buffer.foreign]
    ensures LedgerOk(w')
  {
    assert forall b :: WasReleased(w, b) <==> WasReleased(w', b);
    assert !WasReleased(w, w.nextBuffer);
  }

  lemma AddOwnerOld(w: World, buffer: Buffer, data: nat, tail: nat, p: nat)
    requires Inv(w) && p in w.packets
    ensures w.nextBuffer !in w.buffers && w.packets[p].buf in w.buffers
    ensures p < w.nextPacket && PacketOk(AddOwner(w, buffer, data, tail), p, None)
  {
    NewBuffer(w);
    hide LedgerOk, OwnersOk, OwnerOk;
    assert PacketOk(w, p, None);
    Untouched(w, AddOwner(w, buffer, data, tail), p, None, None);
  }

  lemma AddOwnerNew(w: World, buffer: Buffer, data: nat, tail: nat)
    requires Inv(w) && data <= tail <= |buffer.bytes|
    ensures w.nextPacket !in w.packets
    ensures PacketOk(AddOwner(w, buffer, data, tail), w.nextPacket, None)
  {
    hide LedgerOk, OwnersOk;
    PacketFacts(w, w.nextPacket, None);
    NoClonesYet(w, AddOwner(w, buffer, data, tail), w.nextPacket);
  }

  lemma AddOwnerBalanced(w: World, buffer: Buffer, data: nat, tail: nat)
    requires Inv(w) && data <= tail <= |buffer.bytes|
    ensures Inv(AddOwner(w, buffer, data, tail))
  {
    hide LedgerOk, OwnersOk, PacketOk;
    var w' := AddOwner(w, buffer, data, tail);
    var q := w.nextPacket;
    NewBuffer(w);
    LedgerAdd(w, w', buffer);
    AddOwnerNew(w, buffer, data, tail);
    forall p | p in w.packets
      ensures p < w'.nextPacket && PacketOk(w', p, None) && w.packets[p].buf in w.buffers
    {
      AddOwnerOld(w, buffer, data, tail, p);
    }
    OwnersAdd(w, w', q, w'.packets[q], buffer);
  }

  lemma AddOwnerKeeps(w: World, buffer: Buffer, data: nat, tail: nat)
    requires Inv(w) && data <= tail <= |buffer.bytes|
    ensures Inv(AddOwner(w, buffer, data, tail))
    ensures OthersKept(w, AddOwner(w, buffer, data, tail), w.nextPacket)
    ensures w.nextPacket !in w.handles
  {
    AddOwnerBalanced(w, buffer, data, tail);
    NewBuffer(w);
    hide Balanced, OwnerOk;
    var w' := AddOwner(w, buffer, data, tail);
    forall p | p in w.handles
      ensures Kept(w, w', p)
    {
      PacketFacts(w, p, None);
    }
    PacketFacts(w, w.nextPacket, None);
  }

  lemma NewBuffer(w: World)
    requires LedgerOk(w)
    ensures w.nextBuffer !in w.buffers
  {}

  lemma NoClonesYet(w: World, w': World, q: nat)
    requires Inv(w) && q !in w.packets
    requires forall p :: p in w'.packets && p != q ==> p in w.packets && w'.packets[p].dataPacket == w.packets[p].dataPacket
    requires q in w'.packets ==> w'.packets[q].dataPacket != Some(q)
    ensures Clones(w', q) == {}
  {
    forall p | p in w'.packets
      ensures w'.packets[p].dataPacket != Some(q)
    {
      if p != q {
        PacketFacts(w, p, None);
      }
    }
  }

  lemma OwnersAdd(w: World, w': World, q: nat, pk: Packet, buffer: Buffer)
    requires OwnersOk(w) && pk.buf !in w.buffers && q !in w.packets && pk.dataPacket.None?
    requires forall p :: p in w.packets ==> w.packets[p].buf in w.buffers
    requires w'.packets == w.packets[q := pk] && w'.buffers == w.buffers[pk.buf := buffer]
    ensures OwnersOk(w')
  {
    forall c | c in w'.buffers
      ensures Owned(w', c)
    {
      if c == pk.buf {
        assert Owns(w', q, c);
      } else {
        assert Owned(w, c);
        var p :| Owns(w, p, c);
        assert Owns(w', p, c);
      }
    }
    forall o, p, c | Owns(w', o, c) && Owns(w', p, c)
      ensures o == p
    {
      if o != q && p != q {
        assert Owns(w, o, c) && Owns(w, p, c);
      }
    }
  }

  // ---- clone --------------------------------------------------------------

  lemma CloneKeeps(w: World, p: nat, env: Env)
    requires Inv(w) && p in w.handles
    ensures var (w', r) := Clone(w, p, env);
            && Inv(w')
            && (forall q :: q in w.handles ==> Kept(w, w', q) && w'.packets[q].dataPacket == w.packets[q].dataPacket)
            && (r.Some? ==> && r.value in w'.handles && r.value !in w.packets && r.value in w'.packets
                            && w'.packets[r.value].buf == w.packets[p].buf && w'.packets[r.value].useCount == 1
                            && w'.packets[r.value].data == w.packets[p].data && w'.packets[r.value].tail == w.packets[p].tail
                            && w'.packets[r.value].dataPacket.Some?)
            && (r.None? ==> w' == Attempt(w))
            && (r.Some? <==> env.mem(w.attempts)) && w'.attempts == w.attempts + 1
            && w'.packets.Keys == w.packets.Keys + (if r.Some? then {r.value} else {})
  {
    hide Balanced, OwnerOk;
    PacketFacts(w, p, None);
    PacketFacts(w, w.nextPacket, None);
    var (w', r) := Clone(w, p, env);
    if r.None? {
      AttemptKeeps(w);
      forall q | q in w.handles
        ensures Kept(w, w', q)
      {
        PacketFacts(w, q, None);
      }
    } else {
      CloneBalanced(w, p, env);
      forall q | q in w.handles
        ensures Kept(w, w', q) && w'.packets[q].dataPacket == w.packets[q].dataPacket
      {
        PacketFacts(w, q, None);
      }
    }
  }

  lemma AttemptKeeps(w: World)
    requires Inv(w)
    ensures Inv(Attempt(w))
  {
    var w' := Attempt(w);
    hide LedgerOk, OwnersOk;
    forall p | p in w'.packets
      ensures p < w'.nextPacket && PacketOk(w', p, None)
    {
      assert PacketOk(w, p, None);
      SameCount(w, w', p);
    }
    SameOwners(w, w');
  }

  lemma CloneOthers(w: World, p: nat, env: Env, x: nat)
    requires Inv(w) && p in w.handles && p in w.packets && env.mem(w.attempts)
    requires x in w.packets && x != Origin(w, p)
    ensures x < w.nextPacket && PacketOk(Clone(w, p, env).0, x, None)
  {
    hide Balanced, OwnerOk;
    PacketFacts(w, p, None);
    PacketFacts(w, x, None);
    PacketFacts(w, w.nextPacket, None);
    Untouched(w, Clone(w, p, env).0, x, None, None);
  }

  lemma CloneOrigin(w: World, p: nat, env: Env)
    requires Inv(w) && p in w.handles && p in w.packets && env.mem(w.attempts)
    ensures Origin(w, p) in w.packets && w.nextPacket !in w.packets && Origin(w, p) < w.nextPacket
    ensures PacketOk(Clone(w, p, env).0, Origin(w, p), None)
  {
    hide Balanced;
    PacketFacts(w, p, None);
    PacketFacts(w, Origin(w, p), None);
    PacketFacts(w, w.nextPacket, None);
    OneCloneLess(Clone(w, p, env).0, w, Origin(w, p), w.nextPacket);
  }

  lemma CloneNew(w: World, p: nat, env: Env)
    requires Inv(w) && p in w.handles && p in w.packets && env.mem(w.attempts)
    ensures PacketOk(Clone(w, p, env).0, w.nextPacket, None)
  {
    hide Balanced, OwnerOk;
    PacketFacts(w, p, None);
    PacketFacts(w, Origin(w, p), None);
    PacketFacts(w, w.nextPacket, None);
  }

  lemma CloneBalanced(w: World, p: nat, env: Env)
    requires Inv(w) && p in w.handles && p in w.packets && env.mem(w.attempts)
    ensures Inv(Clone(w, p, env).0)
  {
    hide LedgerOk, OwnersOk, PacketOk;
    var w' := Clone(w, p, env).0;
    var q, o := w.nextPacket, Origin(w, p);
    CloneOrigin(w, p, env);
    CloneNew(w, p, env);
    forall x | x in w.packets && x != o
      ensures x < w.nextPacket && PacketOk(w', x, None)
    {
      CloneOthers(w, p, env, x);
    }
    SameOwners(w, w');
  }

  // ---- uniqueify ----------------------------------------------------------

  function Headroom(w: World, p: nat): nat
    requires p in w.packets
  {
    w.packets[p].data
  }

  predicate Fits(w: World, p: nat) {
    p in w.packets && w.packets[p].buf in w.buffers
    && w.packets[p].data <= w.packets[p].tail <= |w.buffers[w.packets[p].buf].bytes|
  }

  function Tailroom(w: World, p: nat): nat
    requires Fits(w, p)
  {
    |w.buffers[w.packets[p].buf].bytes| - w.packets[p].tail
  }

  predicate Shared(w: World, p: nat)
    requires p in w.packets
  {
    w.packets[p].dataPacket.Some? || w.packets[p].useCount > 1
  }

  /** The assertion at the head of expensive_uniqueify. */
  predicate RoomOk(w: World, p: nat, extraHead: int, extraTail: int) {
    Fits(w, p) && Headroom(w, p) + extraHead >= 0 && Tailroom(w, p) + extraTail >= 0
  }

  /** All the memory of the packet's buffer, the room on both sides included. */
  ghost function Memory(w: World, p: nat): seq<byte>
    requires Fits(w, p)
  {
    w.buffers[w.packets[p].buf].bytes
  }

  /** The bytes of `from` are found `extraHead` further on in `to`, but for what the new size cuts off on either side. */
  ghost predicate Carried(from: seq<byte>, to: seq<byte>, extraHead: int, extraTail: int) {
    var start, end := CopyStart(extraHead), CopyEnd(from, extraTail);
    start <= end && end + extraHead <= |to| && to[start + extraHead..end + extraHead] == from[start..end]
  }

  function CopyStart(extraHead: int): (start: nat)
    ensures start + extraHead >= 0
  {
    if extraHead >= 0 then 0 else -extraHead
  }

  function CopyEnd(from: seq<byte>, extraTail: int): (end: int)
    ensures end <= |from|
  {
    if extraTail >= 0 then |from| else |from| + extraTail
  }

  lemma SliceOfSlice(s: seq<byte>, i: nat, j: nat, m: nat, n: nat)
    requires i <= j <= |s| && m <= n <= j - i
    ensures s[i..j][m..n] == s[i + m..i + n]
  {
    var part := s[i..j];
    assert forall k :: m <= k < n ==> part[k] == s[i + k];
    assert |part[m..n]| == n - m == |s[i + m..i + n]|;
    assert forall k :: 0 <= k < n - m ==> part[m..n][k] == part[m + k];
  }

  lemma CarriedWindow(from: seq<byte>, to: seq<byte>, extraHead: int, extraTail: int, data: nat, tail: nat)
    requires Carried(from, to, extraHead, extraTail)
    requires CopyStart(extraHead) <= data <= tail <= CopyEnd(from, extraTail)
    ensures 0 <= data + extraHead && tail + extraHead <= |to|
    ensures to[data + extraHead..tail + extraHead] == from[data..tail]
  {
    var start, end := CopyStart(extraHead), CopyEnd(from, extraTail);
    SliceOfSlice(from, start, end, data - start, tail - start);
    SliceOfSlice(to, start + extraHead, end + extraHead, data - start, tail - start);
  }

  /** The memory expensive_uniqueify allocates and fills. */
  function Copied(w: World, p: nat, extraHead: int, extraTail: int, env: Env): (bytes: seq<byte>)
    requires RoomOk(w, p, extraHead, extraTail)
    ensures |bytes| == AtLeast(|Memory(w, p)| + extraHead + extraTail, MIN_BUFFER_LENGTH)
    ensures Carried(Memory(w, p), bytes, extraHead, extraTail)
  {
    var pk := w.packets[p];
    var source := w.buffers[pk.buf].bytes;
    var n := AtLeast(|source| + extraHead + extraTail, MIN_BUFFER_LENGTH);
    var start, end := CopyStart(extraHead), CopyEnd(source, extraTail);
    var at := start + extraHead;
    Write(Block(env, w.attempts, n), at, source[start..end])
  }

  /** p now owns a new buffer; its old one is still allocated. */
  function Moved(w: World, p: nat, bytes: seq<byte>, extraHead: int): World
    requires p in w.packets && w.packets[p].data + extraHead >= 0 && w.packets[p].tail + extraHead >= 0
  {
    var pk := w.packets[p];
    w.(packets := w.packets[p := Packet(1, None, w.nextBuffer, pk.data + extraHead, pk.tail + extraHead, false)],
       buffers := w.buffers[w.nextBuffer := Buffer(bytes, false)],
       nextBuffer := w.nextBuffer + 1, made := w.made + [false])
  }

  /** Move p to a buffer of its own and free what it used before. */
  function Relocate(w: World, p: nat, bytes: seq<byte>, extraHead: int): World
    requires p in w.packets && w.packets[p].data + extraHead >= 0 && w.packets[p].tail + extraHead >= 0
  {
    var pk := w.packets[p];
    var w1 := Moved(w, p, bytes, extraHead);
    match pk.dataPacket
    case Some(d) => if d in w1.packets then UnrefOwner(w1, d) else w1
    case None => w1.(buffers := w1.buffers - {pk.buf}, released := w1.released + [Release(pk.buf, pk.destructor)])
  }

  function ExpensiveUniqueify(w: World, p: nat, extraHead: int, extraTail: int, freeOnFailure: bool, env: Env): (World, Option<nat>)
    requires RoomOk(w, p, extraHead, extraTail)
    decreases w.packets[p].useCount
  {
    if w.packets[p].useCount > 1 then
      var (w1, q) := Clone(w, p, env);
      if q.Some? && RoomOk(w1, q.value, extraHead, extraTail) && w1.packets[q.value].useCount < w.packets[p].useCount then
        var (w2, r) := ExpensiveUniqueify(w1, q.value, extraHead, extraTail, true, env);
        ((if (r.Some? || freeOnFailure) && p in w2.packets then Kill(w2, p) else w2), r)
      else
        ((if freeOnFailure && p in w1.packets then Kill(w1, p) else w1), None)
    else if !env.mem(w.attempts) then
      ((if freeOnFailure then Kill(Attempt(w), p) else Attempt(w)), None)
    else
      (Relocate(Attempt(w), p, Copied(w, p, extraHead, extraTail, env), extraHead), Some(p))
  }

  /** No other packet reaches the buffer of p. */
  ghost predicate Sole(w: World, p: nat) {
    p in w.packets && forall q :: q in w.packets && q != p ==> w.packets[q].buf != w.packets[p].buf
  }

  /** An owner with a single user is the only packet on its buffer. */
  lemma UnsharedIsSole(w: World, p: nat)
    requires Inv(w) && p in w.handles && !Shared(w, p)
    ensures Sole(w, p)
  {
    PacketFacts(w, p, None);
    forall q | q in w.packets && q != p
      ensures w.packets[q].buf != w.packets[p].buf
    {
      PacketFacts(w, q, None);
      if w.packets[q].buf == w.packets[p].buf {
        assert Owns(w, p, w.packets[p].buf);
        match w.packets[q].dataPacket {
          case Some(d) =>
            assert Owns(w, d, w.packets[p].buf);
            CloneCounts(w, p, q);
          case None =>
            assert Owns(w, q, w.packets[p].buf);
        }
      }
    }
  }

  lemma MovedCloneOthers(w: World, p: nat, bytes: seq<byte>, extraHead: int, d: nat, q: nat)
    requires Inv(w) && p in w.handles && w.packets[p].dataPacket == Some(d)
    requires w.packets[p].data + extraHead >= 0 && 0 <= w.packets[p].tail + extraHead
    requires q in w.packets && q != p && q != d
    ensures q < w.nextPacket && PacketOk(Moved(w, p, bytes, extraHead), q, Some(d))
  {
    hide Balanced, OwnerOk;
    InvNewBuffer(w);
    PacketFacts(w, q, None);
    Untouched(w, Moved(w, p, bytes, extraHead), q, None, Some(d));
  }

  lemma MovedCloneItself(w: World, p: nat, bytes: seq<byte>, extraHead: int, d: nat)
    requires Inv(w) && p in w.handles && w.packets[p].dataPacket == Some(d)
    requires w.packets[p].data + extraHead >= 0 && w.packets[p].tail + extraHead <= |bytes|
    ensures p < w.nextPacket && w.packets[p].tail + extraHead >= 0
    ensures PacketOk(Moved(w, p, bytes, extraHead), p, Some(d))
  {
    hide Balanced;
    InvNewBuffer(w);
    PacketFacts(w, p, None);
    PacketFacts(w, d, None);
    NoClonesOfClone(w, Moved(w, p, bytes, extraHead), p);
  }

  lemma MovedCloneData(w: World, p: nat, bytes: seq<byte>, extraHead: int, d: nat)
    requires Inv(w) && p in w.handles && w.packets[p].dataPacket == Some(d)
    requires w.packets[p].data + extraHead >= 0 && w.packets[p].tail + extraHead >= 0
    ensures d in w.packets && w.packets[d].dataPacket.None? && p != d && d < w.nextPacket
    ensures PacketOk(Moved(w, p, bytes, extraHead), d, Some(d))
  {
    hide Balanced;
    InvNewBuffer(w);
    PacketFacts(w, p, None);
    PacketFacts(w, d, None);
    OneCloneLess(w, Moved(w, p, bytes, extraHead), d, p);
  }

  lemma MovedClone(w: World, p: nat, bytes: seq<byte>, extraHead: int, d: nat)
    requires Inv(w) && p in w.handles && w.packets[p].dataPacket == Some(d)
    requires w.packets[p].data + extraHead >= 0 && 0 <= w.packets[p].tail + extraHead <= |bytes|
    ensures Balanced(Moved(w, p, bytes, extraHead), Some(d))
  {
    hide LedgerOk, OwnersOk, PacketOk;
    var w1 := Moved(w, p, bytes, extraHead);
    NewBuffer(w);
    LedgerAdd(w, w1, Buffer(bytes, false));
    AllBuffered(w);
    MovedCloneItself(w, p, bytes, extraHead, d);
    MovedCloneData(w, p, bytes, extraHead, d);
    MovedOwners(w, w1, p, w1.packets[p], Buffer(bytes, false));
    forall q | q in w1.packets && q != p && q != d
      ensures q < w1.nextPacket && PacketOk(w1, q, Some(d))
    {
      MovedCloneOthers(w, p, bytes, extraHead, d, q);
    }
  }

  lemma NoClonesOfClone(w: World, w1: World, p: nat)
    requires Inv(w) && p in w.packets && w.packets[p].dataPacket.Some?
    requires w1.packets.Keys == w.packets.Keys && p in w1.packets && w1.packets[p].dataPacket.None?
    requires forall q :: q in w.packets && q != p ==> w1.packets[q] == w.packets[q]
    ensures Clones(w1, p) == {}
  {
    forall q | q in w1.packets
      ensures w1.packets[q].dataPacket != Some(p)
    {
      PacketFacts(w, q, None);
    }
  }

  lemma MovedOwners(w: World, w1: World, p: nat, pk: Packet, buffer: Buffer)
    requires OwnersOk(w) && p in w.packets && w.packets[p].dataPacket.Some?
    requires pk.dataPacket.None? && pk.buf !in w.buffers
    requires forall q :: q in w.packets ==> w.packets[q].buf in w.buffers
    requires w1.packets == w.packets[p := pk] && w1.buffers == w.buffers[pk.buf := buffer]
    ensures OwnersOk(w1)
  {
    var w0 := w.(packets := w.packets - {p});
    forall b | b in w0.buffers
      ensures Owned(w0, b)
    {
      assert Owned(w, b);
      var o :| Owns(w, o, b);
      assert Owns(w0, o, b);
    }
    forall o, q, b | Owns(w0, o, b) && Owns(w0, q, b)
      ensures o == q
    {
      assert Owns(w, o, b) && Owns(w, q, b);
    }
    OwnersAdd(w0, w1, p, pk, buffer);
  }

  lemma AllBuffered(w: World)
    requires Inv(w)
    ensures forall q :: q in w.packets ==> w.packets[q].buf in w.buffers
  {
    forall q | q in w.packets
      ensures w.packets[q].buf in w.buffers
    {
      PacketFacts(w, q, None);
    }
  }

  // An owner without clones moves: the old buffer is freed at once.

  lemma RelocateOwnerOthers(w: World, p: nat, bytes: seq<byte>, extraHead: int, q: nat)
    requires Inv(w) && p in w.handles && !Shared(w, p)
    requires w.packets[p].data + extraHead >= 0 && 0 <= w.packets[p].tail + extraHead
    requires q in w.packets && q != p
    ensures q < w.nextPacket && PacketOk(Relocate(w, p, bytes, extraHead), q, None)
  {
    hide Balanced, OwnerOk;
    InvNewBuffer(w);
    UnsharedIsSole(w, p);
    PacketFacts(w, q, None);
    PacketFacts(w, p, None);
    CloneOfSole(w, p, q);
    Untouched(w, Relocate(w, p, bytes, extraHead), q, None, None);
  }

  lemma CloneOfSole(w: World, p: nat, q: nat)
    requires Inv(w) && Sole(w, p) && q in w.packets && q != p
    ensures w.packets[q].dataPacket != Some(p)
  {
    PacketFacts(w, q, None);
  }

  lemma RelocateOwnerItself(w: World, p: nat, bytes: seq<byte>, extraHead: int)
    requires Inv(w) && p in w.handles && !Shared(w, p)
    requires w.packets[p].data + extraHead >= 0 && w.packets[p].tail + extraHead <= |bytes|
    ensures p < w.nextPacket && w.packets[p].tail + extraHead >= 0
    ensures PacketOk(Relocate(w, p, bytes, extraHead), p, None)
  {
    hide Balanced;
    InvNewBuffer(w);
    PacketFacts(w, p, None);
    UnsharedIsSole(w, p);
    var w1 := Relocate(w, p, bytes, extraHead);
    forall q | q in w1.packets
      ensures w1.packets[q].dataPacket != Some(p)
    {
      if q != p {
        CloneOfSole(w, p, q);
      }
    }
    assert Clones(w1, p) == {};
  }

  lemma OwnerWay(w: World, p: nat)
    requires Inv(w) && p in w.packets && w.packets[p].dataPacket.None?
    ensures w.packets[p].buf in w.buffers && w.packets[p].destructor == w.buffers[w.packets[p].buf].foreign
  {
    PacketFacts(w, p, None);
  }

  lemma RelocateOwner(w: World, p: nat, bytes: seq<byte>, extraHead: int)
    requires Inv(w) && p in w.handles && !Shared(w, p)
    requires w.packets[p].data + extraHead >= 0 && 0 <= w.packets[p].tail + extraHead <= |bytes|
    ensures Inv(Relocate(w, p, bytes, extraHead))
  {
    hide LedgerOk, OwnersOk, PacketOk;
    var w' := Relocate(w, p, bytes, extraHead);
    var b := w.packets[p].buf;
    var buffer := Buffer(bytes, false);
    NewBuffer(w);
    AllBuffered(w);
    // free the old buffer, then take the new one
    var w0 := w.(packets := w.packets - {p}, buffers := w.buffers - {b}, released := w'.released);
    OwnerWay(w, p);
    LedgerRelease(w, w0, b, w.packets[p].destructor);
    LedgerAdd(w0, w', buffer);
    assert Owns(w, p, b);
    OwnersAfter(w, w0, p, b);
    UnsharedIsSole(w, p);
    OwnersAdd(w0, w', p, w'.packets[p], buffer);
    RelocateOwnerItself(w, p, bytes, extraHead);
    forall q | q in w'.packets && q != p
      ensures q < w'.nextPacket && PacketOk(w', q, None)
    {
      RelocateOwnerOthers(w, p, bytes, extraHead, q);
    }
  }

  /** Moving a packet with one user to memory of its own. */
  lemma RelocateKeeps(w: World, p: nat, bytes: seq<byte>, extraHead: int)
    requires Inv(w) && p in w.handles && w.packets[p].useCount == 1
    requires w.packets[p].data + extraHead >= 0 && w.packets[p].tail + extraHead <= |bytes|
    requires BufferOk(w, w.packets[p])
    requires bytes[w.packets[p].data + extraHead..w.packets[p].tail + extraHead] == Bytes(w, p)
    ensures var w' := Relocate(w, p, bytes, extraHead);
            && Inv(w') && OthersKept(w, w', p)
            && p in w'.handles && !Shared(w', p) && Fits(w', p)
            && Bytes(w', p) == Bytes(w, p) && Memory(w', p) == bytes
            && Headroom(w', p) == Headroom(w, p) + extraHead
            && Tailroom(w', p) == |bytes| - (w.packets[p].tail + extraHead)
            && w'.attempts == w.attempts
  {
    hide Balanced, OwnerOk;
    PacketFacts(w, p, None);
    var w' := Relocate(w, p, bytes, extraHead);
    var w1 := Moved(w, p, bytes, extraHead);
    InvNewBuffer(w);
    match w.packets[p].dataPacket {
      case Some(d) =>
        MovedClone(w, p, bytes, extraHead, d);
        UnrefKeeps(w1, d);
        assert p != d && Kept(w1, w', p);
        forall q | q in w.handles && q != p
          ensures Kept(w, w', q)
        {
          PacketFacts(w, q, None);
          assert Kept(w1, w', q);
        }
      case None =>
        RelocateOwner(w, p, bytes, extraHead);
        UnsharedIsSole(w, p);
        forall q | q in w.handles && q != p
          ensures Kept(w, w', q)
        {
          PacketFacts(w, q, None);
        }
    }
  }

  lemma InvNewBuffer(w: World)
    requires Inv(w)
    ensures w.nextBuffer !in w.buffers
  {
    NewBuffer(w);
  }

  lemma HandleFits(w: World, p: nat)
    requires Inv(w) && p in w.handles
    ensures Fits(w, p) && w.packets[p].useCount >= 1
  {
    PacketFacts(w, p, None);
  }

  /** After Kill, whatever is left was there before, on the same buffer. */
  lemma KillShrinks(w: World, p: nat)
    requires Inv(w) && p in w.handles
    ensures forall q :: q in Kill(w, p).packets ==>
              q in w.packets && Kill(w, p).packets[q].buf == w.packets[q].buf
              && Kill(w, p).packets[q].useCount <= w.packets[q].useCount
              && Kill(w, p).packets[q].dataPacket == w.packets[q].dataPacket
    ensures Kill(w, p).attempts == w.attempts
  {
    hide Balanced, Inv;
    HandleFits(w, p);
  }

  /** The outcome uniqueify, push and put promise to the caller: a packet alone on its buffer, with all the memory of p. */
  ghost predicate Unique(w: World, p: nat, w': World, r: nat, extraHead: int, extraTail: int) {
    && Fits(w, p) && Fits(w', r) && r in w'.handles && !Shared(w', r) && Sole(w', r)
    && Bytes(w', r) == Bytes(w, p)
    && Carried(Memory(w, p), Memory(w', r), extraHead, extraTail)
    && Headroom(w', r) == Headroom(w, p) + extraHead && w'.packets[r].tail == w.packets[p].tail + extraHead
    && Tailroom(w', r) >= Tailroom(w, p) + extraTail
    && (r == p || (p !in w'.handles && r !in w.packets))
  }

  /** Whether the memory expensive_uniqueify asks for is there: another packet if p has clones, and a buffer. */
  predicate Granted(w: World, p: nat, env: Env)
    requires p in w.packets
  {
    env.mem(w.attempts) && (w.packets[p].useCount > 1 ==> env.mem(w.attempts + 1))
  }

  /** The call succeeds exactly when its memory is granted, and asks for nothing more. */
  ghost predicate Obtained(w: World, p: nat, w': World, r: Option<nat>, env: Env) {
    && p in w.packets && (r.Some? <==> Granted(w, p, env))
    && w'.attempts == w.attempts + (if w.packets[p].useCount > 1 && env.mem(w.attempts) then 2 else 1)
    && (r.Some? ==> (r.value == p <==> w.packets[p].useCount <= 1))
  }

  /** `copies` says whether the buffer has to be copied; if not, nothing changes and the call cannot fail. */
  ghost predicate UniqueifyOk(
    w: World, p: nat, w': World, r: Option<nat>, extraHead: int, extraTail: int, freeOnFailure: bool, copies: bool, env: Env)
  {
    && Inv(w') && OthersKept(w, w', p)
    && (copies ==> Obtained(w, p, w', r, env))
    && (!copies ==> w' == w && r == Some(p))
    && (r.Some? ==> Unique(w, p, w', r.value, extraHead, extraTail))
    && (r.Some? && copies ==> |Memory(w', r.value)| == AtLeast(|Memory(w, p)| + extraHead + extraTail, MIN_BUFFER_LENGTH))
    && (r.None? && freeOnFailure ==> p !in w'.handles)
    && (r.None? && !freeOnFailure ==> Kept(w, w', p))
  }

  lemma SingleUser(w: World, p: nat, extraHead: int, extraTail: int, freeOnFailure: bool, env: Env)
    requires Inv(w) && p in w.handles && RoomOk(w, p, extraHead, extraTail)
    requires w.packets[p].useCount == 1
    ensures var (w', r) := ExpensiveUniqueify(w, p, extraHead, extraTail, freeOnFailure, env);
            UniqueifyOk(w, p, w', r, extraHead, extraTail, freeOnFailure, true, env)
  {
    hide Balanced, OwnerOk;
    var (w', r) := ExpensiveUniqueify(w, p, extraHead, extraTail, freeOnFailure, env);
    var w1 := Attempt(w);
    AttemptKeeps(w);
    PacketFacts(w, p, None);
    forall q | q in w.handles
      ensures Kept(w, w1, q)
    {
      PacketFacts(w, q, None);
    }
    if !env.mem(w.attempts) {
      if freeOnFailure {
        KillKeeps(w1, p);
        assert forall q :: q in w.handles && q != p ==> Kept(w1, w', q);
      }
    } else {
      var bytes := Copied(w, p, extraHead, extraTail, env);
      CarriedWindow(Memory(w, p), bytes, extraHead, extraTail, w.packets[p].data, w.packets[p].tail);
      RelocateKeeps(w1, p, bytes, extraHead);
      UnsharedIsSole(w', p);
      assert forall q :: q in w.handles && q != p ==> Kept(w1, w', q);
    }
  }

  lemma KeptTwice(w: World, w1: World, w2: World, q: nat)
    requires Kept(w, w1, q) && Kept(w1, w2, q)
    ensures Kept(w, w2, q)
  {}

  /** expensive_uniqueify keeps the invariant, disturbs nobody else and delivers what it promises. */
  lemma ExpensiveUniqueifyKeeps(w: World, p: nat, extraHead: int, extraTail: int, freeOnFailure: bool, env: Env)
    requires Inv(w) && p in w.handles && RoomOk(w, p, extraHead, extraTail)
    ensures var (w', r) := ExpensiveUniqueify(w, p, extraHead, extraTail, freeOnFailure, env);
            UniqueifyOk(w, p, w', r, extraHead, extraTail, freeOnFailure, true, env)
  {
    PacketFacts(w, p, None);
    if w.packets[p].useCount == 1 {
      SingleUser(w, p, extraHead, extraTail, freeOnFailure, env);
    } else {
      ManyUsers(w, p, extraHead, extraTail, freeOnFailure, env);
    }
  }

  /** What the inner call made unique stays so when the caller's packet is killed. */
  lemma UniqueSurvives(w: World, p: nat, w1: World, c: nat, w2: World, r: nat, extraHead: int, extraTail: int)
    requires Unique(w1, c, w2, r, extraHead, extraTail)
    requires Fits(w, p) && p in w1.packets && c !in w.packets
    requires w1.packets[c].data == w.packets[p].data && w1.packets[c].tail == w.packets[p].tail
    requires w1.packets[c].buf == w.packets[p].buf && w1.buffers[w1.packets[c].buf] == w.buffers[w.packets[p].buf]
    requires w.packets.Keys <= w1.packets.Keys
    requires Inv(w2) && p in w2.handles && p in w2.packets
    ensures Unique(w, p, Kill(w2, p), r, extraHead, extraTail) && Memory(Kill(w2, p), r) == Memory(w2, r)
  {
    hide Inv, Kill;
    KillKeeps(w2, p);
    KillShrinks(w2, p);
    assert r != p;
    assert Kept(w2, Kill(w2, p), r);
  }

  lemma ManyUsers(w: World, p: nat, extraHead: int, extraTail: int, freeOnFailure: bool, env: Env)
    requires Inv(w) && p in w.handles && RoomOk(w, p, extraHead, extraTail)
    requires w.packets[p].useCount > 1
    ensures var (w', r) := ExpensiveUniqueify(w, p, extraHead, extraTail, freeOnFailure, env);
            UniqueifyOk(w, p, w', r, extraHead, extraTail, freeOnFailure, true, env)
  {
    hide Inv, Clone, Kill, Unique, Sole, Bytes, Carried, Relocate, Copied;
    var (w', r) := ExpensiveUniqueify(w, p, extraHead, extraTail, freeOnFailure, env);
    HandleFits(w, p);
    CloneKeeps(w, p, env);
    var (w1, q) := Clone(w, p, env);
    HandleFits(w1, p);
    if q.None? {
      if freeOnFailure {
        KillKeeps(w1, p);
        KillShrinks(w1, p);
        assert forall x :: x in w.handles && x != p ==> Kept(w1, w', x);
      }
    } else {
      var c := q.value;
      HandleFits(w1, c);
      SingleUser(w1, c, extraHead, extraTail, true, env);
      var (w2, r2) := ExpensiveUniqueify(w1, c, extraHead, extraTail, true, env);
      assert r2 == r;
      assert Kept(w1, w2, p);
      HandleFits(w2, p);
      assert forall x :: x in w.handles ==> Kept(w, w1, x) && Kept(w1, w2, x);
      if r.Some? || freeOnFailure {
        KillKeeps(w2, p);
        KillShrinks(w2, p);
        assert w' == Kill(w2, p);
        assert forall x :: x in w.handles && x != p ==> Kept(w2, w', x);
        if r.Some? {
          UniqueSurvives(w, p, w1, c, w2, r.value, extraHead, extraTail);
        }
      }
    }
  }

  // ---- push, put, pull, take ----------------------------------------------

  function MoveEnds(w: World, p: nat, data: nat, tail: nat): World
    requires p in w.packets
  {
    w.(packets := w.packets[p := w.packets[p].(data := data, tail := tail)])
  }

  function Uniqueify(w: World, p: nat, env: Env): (World, Option<nat>)
    requires Fits(w, p)
  {
    if !Shared(w, p) then (w, Some(p)) else ExpensiveUniqueify(w, p, 0, 0, true, env)
  }

  /** (nbytes + 128) & ~3 */
  function PushRoom(n: nat): (room: nat)
    ensures n + 124 < room <= n + 128 && room % 4 == 0
  {
    n + 128 - (n + 128) % 4
  }

  function Push(w: World, p: nat, n: nat, env: Env): (World, Option<nat>)
    requires Fits(w, p)
  {
    if Headroom(w, p) >= n && !Shared(w, p) then
      (MoveEnds(w, p, w.packets[p].data - n, w.packets[p].tail), Some(p))
    else
      var (w1, r) := ExpensiveUniqueify(w, p, PushRoom(n), 0, true, env);
      if r.Some? && r.value in w1.packets && w1.packets[r.value].data >= n then
        (MoveEnds(w1, r.value, w1.packets[r.value].data - n, w1.packets[r.value].tail), r)
      else (w1, None)
  }

  function Put(w: World, p: nat, n: nat, env: Env): (World, Option<nat>)
    requires Fits(w, p)
  {
    if Tailroom(w, p) >= n && !Shared(w, p) then
      (MoveEnds(w, p, w.packets[p].data, w.packets[p].tail + n), Some(p))
    else
      var (w1, r) := ExpensiveUniqueify(w, p, 0, n + 128, true, env);
      if r.Some? && r.value in w1.packets then
        (MoveEnds(w1, r.value, w1.packets[r.value].data, w1.packets[r.value].tail + n), r)
      else (w1, None)
  }

  /** pull and take stop at the packet's length. */
  function Pull(w: World, p: nat, n: nat): World
    requires Fits(w, p)
  {
    var pk := w.packets[p];
    MoveEnds(w, p, if n > pk.tail - pk.data then pk.tail else pk.data + n, pk.tail)
  }

  function Take(w: World, p: nat, n: nat): World
    requires Fits(w, p)
  {
    var pk := w.packets[p];
    MoveEnds(w, p, pk.data, if n > pk.tail - pk.data then pk.data else pk.tail - n)
  }

  lemma MoveEndsKeeps(w: World, p: nat, data: nat, tail: nat)
    requires Inv(w) && p in w.handles
    requires p in w.packets && w.packets[p].buf in w.buffers && data <= tail <= |w.buffers[w.packets[p].buf].bytes|
    ensures var w' := MoveEnds(w, p, data, tail);
            Inv(w') && OthersKept(w, w', p) && (Sole(w, p) ==> Sole(w', p))
  {
    hide Inv;
    var w' := MoveEnds(w, p, data, tail);
    MoveEndsBalanced(w, p, data, tail);
    forall q | q in w.handles && q != p
      ensures Kept(w, w', q)
    {
      HandleFits(w, q);
    }
  }

  lemma MoveEndsOthers(w: World, p: nat, data: nat, tail: nat, q: nat)
    requires Inv(w) && p in w.packets && q in w.packets && q != p
    ensures q < w.nextPacket && PacketOk(MoveEnds(w, p, data, tail), q, None)
  {
    hide Balanced, OwnerOk;
    PacketFacts(w, q, None);
    Untouched(w, MoveEnds(w, p, data, tail), q, None, None);
  }

  lemma MoveEndsItself(w: World, p: nat, data: nat, tail: nat)
    requires Inv(w) && p in w.packets
    requires w.packets[p].buf in w.buffers && data <= tail <= |w.buffers[w.packets[p].buf].bytes|
    ensures p < w.nextPacket && PacketOk(MoveEnds(w, p, data, tail), p, None)
  {
    hide Balanced;
    PacketFacts(w, p, None);
    SameCount(w, MoveEnds(w, p, data, tail), p);
  }

  lemma MoveEndsBalanced(w: World, p: nat, data: nat, tail: nat)
    requires Inv(w) && p in w.packets
    requires w.packets[p].buf in w.buffers && data <= tail <= |w.buffers[w.packets[p].buf].bytes|
    ensures Inv(MoveEnds(w, p, data, tail))
  {
    hide LedgerOk, OwnersOk, PacketOk;
    var w' := MoveEnds(w, p, data, tail);
    MoveEndsItself(w, p, data, tail);
    forall q | q in w.packets && q != p
      ensures q < w'.nextPacket && PacketOk(w', q, None)
    {
      MoveEndsOthers(w, p, data, tail, q);
    }
    SameOwners(w, w');
  }

  lemma UniqueifyKeeps(w: World, p: nat, env: Env)
    requires Inv(w) && p in w.handles && Fits(w, p)
    ensures var (w', r) := Uniqueify(w, p, env);
            UniqueifyOk(w, p, w', r, 0, 0, true, Shared(w, p), env)
  {
    if Shared(w, p) {
      ExpensiveUniqueifyKeeps(w, p, 0, 0, true, env);
    } else {
      UnsharedIsSole(w, p);
      hide Balanced, OwnerOk;
      forall q | q in w.handles
        ensures Kept(w, w, q)
      {
        PacketFacts(w, q, None);
      }
    }
  }

  /** Whether a packet can be changed where it is: it has the room and nobody shares its buffer. */
  predicate InPlace(w: World, p: nat, room: nat, n: nat)
    requires p in w.packets
  {
    room >= n && !Shared(w, p)
  }

  /**
   The n new bytes in front are followed by the old contents, in memory nobody
   else reaches; as far as the old headroom went they are the bytes it held.
   In place the call always succeeds, otherwise if its memory is granted.
   */
  ghost predicate PushOk(w: World, p: nat, n: nat, w': World, r: Option<nat>, env: Env) {
    && Fits(w, p) && Inv(w') && OthersKept(w, w', p)
    && (if InPlace(w, p, Headroom(w, p), n) then r == Some(p) && w'.attempts == w.attempts else Obtained(w, p, w', r, env))
    && (r.None? ==> p !in w'.handles)
    && (r.Some? ==> && Fits(w', r.value) && r.value in w'.handles && !Shared(w', r.value) && Sole(w', r.value)
                    && |Bytes(w', r.value)| == n + |Bytes(w, p)| && Bytes(w', r.value)[n..] == Bytes(w, p)
                    && (n <= Headroom(w, p) ==> Bytes(w', r.value) == Memory(w, p)[Headroom(w, p) - n..w.packets[p].tail])
                    && (n > Headroom(w, p) ==> Bytes(w', r.value)[n - Headroom(w, p)..] == Memory(w, p)[..w.packets[p].tail])
                    && Headroom(w', r.value) + n ==
                       Headroom(w, p) + (if InPlace(w, p, Headroom(w, p), n) then 0 else PushRoom(n))
                    && Tailroom(w', r.value) >= Tailroom(w, p)
                    && |Memory(w', r.value)| ==
                       if InPlace(w, p, Headroom(w, p), n) then |Memory(w, p)|
                       else AtLeast(|Memory(w, p)| + PushRoom(n), MIN_BUFFER_LENGTH))
  }

  ghost predicate PutOk(w: World, p: nat, n: nat, w': World, r: Option<nat>, env: Env) {
    && Fits(w, p) && Inv(w') && OthersKept(w, w', p)
    && (if InPlace(w, p, Tailroom(w, p), n) then r == Some(p) && w'.attempts == w.attempts else Obtained(w, p, w', r, env))
    && (r.None? ==> p !in w'.handles)
    && (r.Some? ==> && Fits(w', r.value) && r.value in w'.handles && !Shared(w', r.value) && Sole(w', r.value)
                    && |Bytes(w', r.value)| == |Bytes(w, p)| + n && Bytes(w', r.value)[..|Bytes(w, p)|] == Bytes(w, p)
                    && (n <= Tailroom(w, p) ==> Bytes(w', r.value) == Memory(w, p)[w.packets[p].data..w.packets[p].tail + n])
                    && (n > Tailroom(w, p) ==>
                          Bytes(w', r.value)[..|Bytes(w, p)| + Tailroom(w, p)] == Memory(w, p)[w.packets[p].data..])
                    && Headroom(w', r.value) == Headroom(w, p)
                    && Tailroom(w', r.value) + n >=
                       Tailroom(w, p) + (if InPlace(w, p, Tailroom(w, p), n) then 0 else n + 128)
                    && |Memory(w', r.value)| ==
                       if InPlace(w, p, Tailroom(w, p), n) then |Memory(w, p)|
                       else AtLeast(|Memory(w, p)| + n + 128, MIN_BUFFER_LENGTH))
  }

  lemma PushBytes(w: World, p: nat, n: nat)
    requires Fits(w, p) && n <= Headroom(w, p)
    ensures var w' := MoveEnds(w, p, w.packets[p].data - n, w.packets[p].tail);
            && Fits(w', p) && |Bytes(w', p)| == n + |Bytes(w, p)| && Bytes(w', p)[n..] == Bytes(w, p)
            && Bytes(w', p) == Memory(w, p)[Headroom(w, p) - n..w.packets[p].tail]
            && Headroom(w', p) == Headroom(w, p) - n && Tailroom(w', p) == Tailroom(w, p) && Memory(w', p) == Memory(w, p)
  {}

  lemma PutBytes(w: World, p: nat, n: nat)
    requires Fits(w, p) && n <= Tailroom(w, p)
    ensures var w' := MoveEnds(w, p, w.packets[p].data, w.packets[p].tail + n);
            && Fits(w', p) && |Bytes(w', p)| == |Bytes(w, p)| + n && Bytes(w', p)[..|Bytes(w, p)|] == Bytes(w, p)
            && Bytes(w', p) == Memory(w, p)[w.packets[p].data..w.packets[p].tail + n]
            && Headroom(w', p) == Headroom(w, p) && Tailroom(w', p) == Tailroom(w, p) - n && Memory(w', p) == Memory(w, p)
  {}

  /** The old memory, seen in the copy that made room for n bytes in front. */
  lemma PushedMemory(from: seq<byte>, to: seq<byte>, extraHead: nat, data: nat, tail: nat, n: nat)
    requires Carried(from, to, extraHead, 0) && data <= tail <= |from| && n <= extraHead && tail + extraHead <= |to|
    ensures n <= data ==> to[data + extraHead - n..tail + extraHead] == from[data - n..tail]
    ensures n > data ==> to[data + extraHead - n..tail + extraHead][n - data..] == from[..tail]
  {
    if n <= data {
      CarriedWindow(from, to, extraHead, 0, data - n, tail);
    } else {
      CarriedWindow(from, to, extraHead, 0, 0, tail);
      assert to[data + extraHead - n..tail + extraHead][n - data..] == to[extraHead..tail + extraHead];
    }
  }

  lemma PutMemory(from: seq<byte>, to: seq<byte>, extraTail: nat, data: nat, tail: nat, n: nat)
    requires Carried(from, to, 0, extraTail) && data <= tail <= |from| && tail + n <= |to|
    ensures tail + n <= |from| ==> to[data..tail + n] == from[data..tail + n]
    ensures tail + n > |from| ==> to[data..tail + n][..|from| - data] == from[data..]
  {
    if tail + n <= |from| {
      CarriedWindow(from, to, 0, extraTail, data, tail + n);
    } else {
      CarriedWindow(from, to, 0, extraTail, data, |from|);
      assert to[data..tail + n][..|from| - data] == to[data..|from|];
    }
  }

  lemma ExpensivePush(w: World, p: nat, n: nat, env: Env)
    requires Inv(w) && p in w.handles && Fits(w, p) && !InPlace(w, p, Headroom(w, p), n)
    ensures var (w', r) := Push(w, p, n, env); PushOk(w, p, n, w', r, env)
  {
    hide Inv, Bytes, Carried, Sole, ExpensiveUniqueify;
    ExpensiveUniqueifyKeeps(w, p, PushRoom(n), 0, true, env);
    var (w1, r) := ExpensiveUniqueify(w, p, PushRoom(n), 0, true, env);
    if r.Some? {
      assert Unique(w, p, w1, r.value, PushRoom(n), 0);
      var data, tail := w1.packets[r.value].data - n, w1.packets[r.value].tail;
      MoveEndsKeeps(w1, r.value, data, tail);
      PushBytes(w1, r.value, n);
      PushedMemory(Memory(w, p), Memory(w1, r.value), PushRoom(n), w.packets[p].data, w.packets[p].tail, n);
      OthersThrough(w, w1, MoveEnds(w1, r.value, data, tail), p, r.value);
    }
  }

  lemma PushKeeps(w: World, p: nat, n: nat, env: Env)
    requires Inv(w) && p in w.handles && Fits(w, p)
    ensures var (w', r) := Push(w, p, n, env); PushOk(w, p, n, w', r, env)
  {
    hide Inv, Bytes, Sole, ExpensiveUniqueify;
    if Headroom(w, p) >= n && !Shared(w, p) {
      UnsharedIsSole(w, p);
      MoveEndsKeeps(w, p, w.packets[p].data - n, w.packets[p].tail);
      PushBytes(w, p, n);
    } else {
      ExpensivePush(w, p, n, env);
    }
  }

  lemma ExpensivePut(w: World, p: nat, n: nat, env: Env)
    requires Inv(w) && p in w.handles && Fits(w, p) && !InPlace(w, p, Tailroom(w, p), n)
    ensures var (w', r) := Put(w, p, n, env); PutOk(w, p, n, w', r, env)
  {
    hide Inv, Bytes, Carried, Sole, ExpensiveUniqueify;
    ExpensiveUniqueifyKeeps(w, p, 0, n + 128, true, env);
    var (w1, r) := ExpensiveUniqueify(w, p, 0, n + 128, true, env);
    if r.Some? {
      assert Unique(w, p, w1, r.value, 0, n + 128);
      var data, tail := w1.packets[r.value].data, w1.packets[r.value].tail + n;
      MoveEndsKeeps(w1, r.value, data, tail);
      PutBytes(w1, r.value, n);
      PutMemory(Memory(w, p), Memory(w1, r.value), n + 128, w.packets[p].data, w.packets[p].tail, n);
      OthersThrough(w, w1, MoveEnds(w1, r.value, data, tail), p, r.value);
    }
  }

  lemma PutKeeps(w: World, p: nat, n: nat, env: Env)
    requires Inv(w) && p in w.handles && Fits(w, p)
    ensures var (w', r) := Put(w, p, n, env); PutOk(w, p, n, w', r, env)
  {
    hide Inv, Bytes, Sole, ExpensiveUniqueify;
    if Tailroom(w, p) >= n && !Shared(w, p) {
      UnsharedIsSole(w, p);
      MoveEndsKeeps(w, p, w.packets[p].data, w.packets[p].tail + n);
      PutBytes(w, p, n);
    } else {
      ExpensivePut(w, p, n, env);
    }
  }

  // ---- make ---------------------------------------------------------------

  /** A packet like no other before, unshared, with these bytes between headroom and tailroom. */
  ghost predicate Made(w: World, w': World, q: nat, headroom: nat, contents: seq<byte>, tailroom: nat, foreign: bool) {
    && q !in w.packets && q in w'.handles && Fits(w', q) && !Shared(w', q) && Sole(w', q)
    && Bytes(w', q) == contents && Headroom(w', q) == headroom && Tailroom(w', q) == tailroom
    && w'.buffers[w'.packets[q].buf].foreign == foreign && w'.handles == w.handles + {q}
  }

  lemma AddOwnerMakes(w: World, buffer: Buffer, data: nat, tail: nat)
    requires Inv(w) && data <= tail <= |buffer.bytes|
    ensures var w' := AddOwner(w, buffer, data, tail);
            && Inv(w') && (forall q :: q in w.handles ==> Kept(w, w', q))
            && Made(w, w', w.nextPacket, data, buffer.bytes[data..tail], |buffer.bytes| - tail, buffer.foreign)
  {
    hide Inv;
    AddOwnerKeeps(w, buffer, data, tail);
    AddOwnerNew(w, buffer, data, tail);
    UnsharedIsSole(AddOwner(w, buffer, data, tail), w.nextPacket);
  }

  /** make succeeds exactly when both allocations do; a buffer too small for what was asked is lengthened at its end. */
  lemma MakeKeeps(w: World, headroom: nat, contents: seq<byte>, tailroom: nat, pool: bool, env: Env)
    requires Inv(w)
    ensures var (w', r) := Make(w, headroom, contents, tailroom, pool, env);
            && Inv(w') && (forall q :: q in w.handles ==> Kept(w, w', q))
            && (r.Some? <==> env.mem(w.attempts) && env.mem(w.attempts + 1))
            && (r.None? ==> w'.handles == w.handles && w'.packets == w.packets && w'.buffers == w.buffers)
            && var asked := headroom + |contents| + tailroom;
               var least := if pool then POOL_BUFFER_LENGTH else MIN_BUFFER_LENGTH;
               (r.Some? ==> Made(w, w', r.value, headroom, contents,
                                 tailroom + (if asked < least then least - asked else 0), false))
  {
    hide Inv, Made;
    var w1 := Attempt(Attempt(w));
    AttemptKeeps(w);
    AttemptKeeps(Attempt(w));
    AllKept(w);
    if env.mem(w.attempts) && env.mem(w.attempts + 1) {
      var n := AtLeast(headroom + |contents| + tailroom, if pool then POOL_BUFFER_LENGTH else MIN_BUFFER_LENGTH);
      var bytes := Write(Block(env, w.attempts + 1, n), headroom, contents);
      AddOwnerMakes(w1, Buffer(bytes, false), headroom, headroom + |contents|);
      MadeSince(w, w1, AddOwner(w1, Buffer(bytes, false), headroom, headroom + |contents|), w.nextPacket,
                headroom, contents, n - headroom - |contents|, false);
    }
  }

  /** The caller's memory becomes the packet's, with the room the caller says is around the data. */
  lemma MakeAroundKeeps(w: World, before: seq<byte>, contents: seq<byte>, after: seq<byte>, destructor: bool, env: Env)
    requires Inv(w)
    ensures var (w', r) := MakeAround(w, before, contents, after, destructor, env);
            && Inv(w') && (forall q :: q in w.handles ==> Kept(w, w', q))
            && (r.Some? <==> env.mem(w.attempts))
            && (r.None? ==> w'.handles == w.handles && w'.packets == w.packets && w'.buffers == w.buffers)
            && (r.Some? ==> && Made(w, w', r.value, |before|, contents, |after|, destructor)
                            && Memory(w', r.value) == before + contents + after)
  {
    hide Inv;
    AttemptKeeps(w);
    AllKept(w);
    if env.mem(w.attempts) {
      AddOwnerMakes(Attempt(w), Buffer(before + contents + after, destructor), |before|, |before| + |contents|);
    }
  }

  lemma AllKept(w: World)
    requires Inv(w)
    ensures forall q :: q in w.handles ==> Kept(w, w, q)
  {
    forall q | q in w.handles
      ensures Kept(w, w, q)
    {
      HandleFits(w, q);
    }
  }

  lemma MadeSince(w: World, w1: World, w': World, q: nat, headroom: nat, contents: seq<byte>, tailroom: nat, foreign: bool)
    requires w1.packets == w.packets && w1.handles == w.handles && Made(w1, w', q, headroom, contents, tailroom, foreign)
    ensures Made(w, w', q, headroom, contents, tailroom, foreign)
  {}

  // ---- pull and take, and what undoes them --------------------------------

  lemma MoveEndsShows(w: World, p: nat, data: nat, tail: nat)
    requires Fits(w, p) && w.packets[p].data <= data <= tail <= w.packets[p].tail
    ensures var w' := MoveEnds(w, p, data, tail);
            && Fits(w', p) && Shared(w', p) == Shared(w, p) && w'.attempts == w.attempts && w'.handles == w.handles
            && Memory(w', p) == Memory(w, p) && Headroom(w', p) == data && Tailroom(w', p) == |Memory(w, p)| - tail
            && Bytes(w', p) == Bytes(w, p)[data - w.packets[p].data..tail - w.packets[p].data]
  {}

  /** pull leaves the bytes after the first n, or none; nothing else changes. */
  lemma PullKeeps(w: World, p: nat, n: nat)
    requires Inv(w) && p in w.handles && Fits(w, p)
    ensures var w' := Pull(w, p, n);
            && Inv(w') && OthersKept(w, w', p) && p in w'.handles && Fits(w', p)
            && Shared(w', p) == Shared(w, p) && w'.attempts == w.attempts
            && Memory(w', p) == Memory(w, p) && Tailroom(w', p) == Tailroom(w, p)
            && (n <= |Bytes(w, p)| ==> Bytes(w', p) == Bytes(w, p)[n..] && Headroom(w', p) == Headroom(w, p) + n)
            && (n > |Bytes(w, p)| ==> Bytes(w', p) == [] && Headroom(w', p) == Headroom(w, p) + |Bytes(w, p)|)
  {
    hide Inv, OthersKept, MoveEnds;
    var pk := w.packets[p];
    var data := if n > pk.tail - pk.data then pk.tail else pk.data + n;
    MoveEndsKeeps(w, p, data, pk.tail);
    MoveEndsShows(w, p, data, pk.tail);
  }

  /** take leaves the bytes before the last n, or none; nothing else changes. */
  lemma TakeKeeps(w: World, p: nat, n: nat)
    requires Inv(w) && p in w.handles && Fits(w, p)
    ensures var w' := Take(w, p, n);
            && Inv(w') && OthersKept(w, w', p) && p in w'.handles && Fits(w', p)
            && Shared(w', p) == Shared(w, p) && w'.attempts == w.attempts
            && Memory(w', p) == Memory(w, p) && Headroom(w', p) == Headroom(w, p)
            && (n <= |Bytes(w, p)| ==> Bytes(w', p) == Bytes(w, p)[..|Bytes(w, p)| - n] && Tailroom(w', p) == Tailroom(w, p) + n)
            && (n > |Bytes(w, p)| ==> Bytes(w', p) == [] && Tailroom(w', p) == Tailroom(w, p) + |Bytes(w, p)|)
  {
    hide Inv, OthersKept, MoveEnds;
    var pk := w.packets[p];
    var tail := if n > pk.tail - pk.data then pk.data else pk.tail - n;
    MoveEndsKeeps(w, p, pk.data, tail);
    MoveEndsShows(w, p, pk.data, tail);
  }

  /** A header that was pulled is there again after a push, shared packet or not. */
  lemma PushUndoesPull(w: World, p: nat, n: nat, env: Env)
    requires Inv(w) && p in w.handles && Fits(w, p) && n <= |Bytes(w, p)|
    ensures var w1 := Pull(w, p, n);
            && p in w1.handles && Fits(w1, p)
            && var (w2, r) := Push(w1, p, n, env);
               && (r.Some? ==> r.value in w2.handles && Fits(w2, r.value) && Bytes(w2, r.value) == Bytes(w, p))
               && (!Shared(w, p) ==> w2 == w && r == Some(p))
               && (Shared(w, p) ==> (r.Some? <==> Granted(w, p, env)))
  {
    hide Inv, OthersKept, Sole;
    PullKeeps(w, p, n);
    PushKeeps(Pull(w, p, n), p, n, env);
  }

  lemma PutUndoesTake(w: World, p: nat, n: nat, env: Env)
    requires Inv(w) && p in w.handles && Fits(w, p) && n <= |Bytes(w, p)|
    ensures var w1 := Take(w, p, n);
            && p in w1.handles && Fits(w1, p)
            && var (w2, r) := Put(w1, p, n, env);
               && (r.Some? ==> r.value in w2.handles && Fits(w2, r.value) && Bytes(w2, r.value) == Bytes(w, p))
               && (!Shared(w, p) ==> w2 == w && r == Some(p))
               && (Shared(w, p) ==> (r.Some? <==> Granted(w, p, env)))
  {
    hide Inv, OthersKept, Sole;
    TakeKeeps(w, p, n);
    PutKeeps(Take(w, p, n), p, n, env);
  }

  lemma OthersThrough(w: World, w1: World, w2: World, p: nat, r: nat)
    requires OthersKept(w, w1, p) && OthersKept(w1, w2, r)
    requires r == p || r !in w.packets
    ensures OthersKept(w, w2, p)
  {
    forall q | q in w.handles && q != p
      ensures Kept(w, w2, q)
    {
      assert Kept(w, w1, q);
      KeptTwice(w, w1, w2, q);
    }
  }

  // ---- runs ---------------------------------------------------------------

  datatype Op =
    | OpMake(headroom: nat, contents: seq<byte>, tailroom: nat, pool: bool)
    | OpMakeAround(before: seq<byte>, contents: seq<byte>, after: seq<byte>, destructor: bool)
    | OpClone(p: nat)
    | OpUniqueify(p: nat)
    | OpPush(p: nat, n: nat)
    | OpPut(p: nat, n: nat)
    | OpPull(p: nat, n: nat)
    | OpTake(p: nat, n: nat)
    | OpKill(p: nat)

  /** A router only uses packets it holds. */
  predicate Enabled(w: World, op: Op) {
    op.OpMake? || op.OpMakeAround? || (op.p in w.handles && Fits(w, op.p))
  }

  function Step(w: World, op: Op, env: Env): World
    requires Enabled(w, op)
  {
    match op
    case OpMake(headroom, contents, tailroom, pool) => Make(w, headroom, contents, tailroom, pool, env).0
    case OpMakeAround(before, contents, after, destructor) => MakeAround(w, before, contents, after, destructor, env).0
    case OpClone(p) => Clone(w, p, env).0
    case OpUniqueify(p) => Uniqueify(w, p, env).0
    case OpPush(p, n) => Push(w, p, n, env).0
    case OpPut(p, n) => Put(w, p, n, env).0
    case OpPull(p, n) => Pull(w, p, n)
    case OpTake(p, n) => Take(w, p, n)
    case OpKill(p) => Kill(w, p)
  }

  lemma StepKeeps(w: World, op: Op, env: Env)
    requires Inv(w) && Enabled(w, op)
    ensures Inv(Step(w, op, env))
  {
    hide Inv;
    match op {
      case OpMake(headroom, contents, tailroom, pool) => MakeKeeps(w, headroom, contents, tailroom, pool, env);
      case OpMakeAround(before, contents, after, destructor) => MakeAroundKeeps(w, before, contents, after, destructor, env);
      case OpClone(p) => CloneKeeps(w, p, env);
      case OpUniqueify(p) => UniqueifyKeeps(w, p, env);
      case OpPush(p, n) => PushKeeps(w, p, n, env);
      case OpPut(p, n) => PutKeeps(w, p, n, env);
      case OpPull(p, n) => PullKeeps(w, p, n);
      case OpTake(p, n) => TakeKeeps(w, p, n);
      case OpKill(p) => KillKeeps(w, p);
    }
  }

  /** ws are the states of a run of ops from the empty world. */
  ghost predicate IsRun(ws: seq<World>, ops: seq<Op>, env: Env) {
    && |ws| == |ops| + 1 && ws[0] == Empty
    && forall i :: 0 <= i < |ops| ==> Enabled(ws[i], ops[i]) && ws[i + 1] == Step(ws[i], ops[i], env)
  }

  lemma {:induction false} RunKeeps(ws: seq<World>, ops: seq<Op>, env: Env, i: nat)
    requires IsRun(ws, ops, env) && i < |ws|
    ensures Inv(ws[i])
  {
    if i == 0 {
      assert Inv(Empty);
    } else {
      RunKeeps(ws, ops, env, i - 1);
      StepKeeps(ws[i - 1], ops[i - 1], env);
    }
  }

  /** Over every run: a data packet has no data packet, its count is exact, and no reachable buffer has been released. */
  lemma RunSafety(ws: seq<World>, ops: seq<Op>, env: Env, i: nat, p: nat)
    requires IsRun(ws, ops, env) && i < |ws| && p in ws[i].packets
    ensures var w := ws[i]; var pk := w.packets[p];
            && pk.buf in w.buffers && !WasReleased(w, pk.buf)
            && (pk.dataPacket.Some? ==> && pk.dataPacket.value in w.packets
                                        && w.packets[pk.dataPacket.value].dataPacket.None?
                                        && w.packets[pk.dataPacket.value].buf == pk.buf)
            && (pk.dataPacket.None? ==> pk.useCount == |Clones(w, p)| + (if p in w.handles then 1 else 0))
            && (p in w.handles ==> Enabled(w, OpKill(p)))
  {
    RunKeeps(ws, ops, env, i);
    PacketFacts(ws[i], p, None);
  }

  /** Over every run no buffer is released twice, and one that was released was released the right way. */
  lemma RunReleasesOnce(ws: seq<World>, ops: seq<Op>, env: Env, i: nat)
    requires IsRun(ws, ops, env) && i < |ws|
    ensures forall j, k :: 0 <= j < k < |ws[i].released| ==> ws[i].released[j].buf != ws[i].released[k].buf
    ensures forall b :: 0 <= b < ws[i].nextBuffer ==> (b in ws[i].buffers <==> !WasReleased(ws[i], b))
    ensures |ws[i].made| == ws[i].nextBuffer
    ensures forall k :: 0 <= k < |ws[i].released| ==>
              ws[i].released[k].buf < ws[i].nextBuffer && ws[i].released[k].byDestructor == ws[i].made[ws[i].released[k].buf]
  {
    RunKeeps(ws, ops, env, i);
  }

  /** Once every handle has been killed, nothing is left and every buffer has been released. */
  lemma RunLeaksNothing(ws: seq<World>, ops: seq<Op>, env: Env, i: nat)
    requires IsRun(ws, ops, env) && i < |ws| && ws[i].handles == {}
    ensures ws[i].packets == map[] && ws[i].buffers == map[]
    ensures forall b :: 0 <= b < ws[i].nextBuffer ==> WasReleased(ws[i], b)
  {
    var w := ws[i];
    RunKeeps(ws, ops, env, i);
    forall b | b in w.buffers
      ensures exists p :: p in w.packets
    {
      assert Owned(w, b);
      var p :| Owns(w, p, b);
    }
    forall p | p in w.packets
      ensures false
    {
      var h := PacketNeedsHandle(w, p);
    }
  }

  /** Some handle stands behind every packet. */
  lemma PacketNeedsHandle(w: World, p: nat) returns (h: nat)
    requires Inv(w) && p in w.packets
    ensures h in w.handles && (h == p || (h in w.packets && w.packets[h].dataPacket == Some(p)))
  {
    PacketFacts(w, p, None);
    if p in w.handles {
      h := p;
    } else {
      assert Clones(w, p) != {};
      h :| h in Clones(w, p);
      PacketFacts(w, h, None);
    }
  }
}
