/**
 Streaming MD5 (click/lib/md5.cc): a message arrives in pieces of any size, a
 partial block is kept between calls, and the length is counted in two words.
 The compression function md5_process() is a parameter; what is proved holds
 whatever it computes.
 */
module MD5 {
  import opened Wrappers

  const WORD := 0x1_0000_0000
  const COUNT := 0x1_0000_0000_0000_0000

  type Word = w: int | 0 <= w < 0x1_0000_0000

  datatype Abcd = Abcd(a: Word, b: Word, c: Word, d: Word)

  type Process = (Abcd, seq<byte>) -> Abcd

  // ---- the digest of a whole message: sections 3.1 to 3.5 of RFC 1321 -----

  /** The block fold, over as many whole blocks as there are. */
  function Fold(process: Process, h: Abcd, m: seq<byte>): Abcd
    decreases |m|
  {
    if |m| < 64 then h else Fold(process, process(h, m[..64]), m[64..])
  }

  function InitialAbcd(): Abcd {
    Abcd(0x67452301, 0xefcdab89, 0x98badcfe, 0x10325476)
  }

  /** A word, low-order byte first. */
  function WordBytes(w: Word): (r: seq<byte>)
    ensures |r| == 4
  {
    [(w % 256) as byte, (w / 0x100 % 256) as byte, (w / 0x1_0000 % 256) as byte, (w / 0x100_0000) as byte]
  }

  /** The length in bits modulo 2^64, low-order word first. */
  function LengthBytes(bits: nat): (r: seq<byte>)
    ensures |r| == 8
  {
    WordBytes(bits % COUNT % WORD) + WordBytes(bits % COUNT / WORD)
  }

  /** Section 3.1: at least one byte, as many as it takes to reach 56 modulo 64. */
  function PadLength(n: nat): (k: nat)
    ensures 1 <= k <= 64 && (n + k) % 64 == 56
  {
    (55 - n) % 64 + 1
  }

  function Padding(k: nat): (p: seq<byte>)
    ensures |p| == k
  {
    seq(k, i => if i == 0 then 0x80 else 0)
  }

  function Padded(m: seq<byte>): seq<byte> {
    m + Padding(PadLength(|m|)) + LengthBytes(8 * |m|)
  }

  lemma PaddedIsWhole(m: seq<byte>)
    ensures |Padded(m)| % 64 == 0
  {
    hide Padding, LengthBytes, PadLength;
    var n := |m| + PadLength(|m|);
    assert |Padded(m)| == n + 8;
    assert n % 64 == 56 ==> (n + 8) % 64 == 0;
  }

  function Digest(process: Process, m: seq<byte>): seq<byte> {
    DigestBytes(Fold(process, InitialAbcd(), Padded(m)))
  }

  function DigestBytes(h: Abcd): seq<byte> {
    WordBytes(h.a) + WordBytes(h.b) + WordBytes(h.c) + WordBytes(h.d)
  }

  /** The number that bytes write, low-order byte first. */
  function LowFirst(b: seq<byte>): nat {
    if b == [] then 0 else b[0] as nat + 256 * LowFirst(b[1..])
  }

  lemma LowFirstFour(a: byte, b: byte, c: byte, d: byte)
    ensures LowFirst([a, b, c, d]) == a as nat + 0x100 * b as nat + 0x1_0000 * c as nat + 0x100_0000 * d as nat
  {
    assert [a, b, c, d][1..] == [b, c, d] && [b, c, d][1..] == [c, d] && [c, d][1..] == [d] && [d][1..] == [];
    assert LowFirst([d]) == d as nat;
    assert LowFirst([c, d]) == c as nat + 256 * LowFirst([d]);
    assert LowFirst([b, c, d]) == b as nat + 256 * LowFirst([c, d]);
  }

  lemma WordRead(w: Word)
    ensures LowFirst(WordBytes(w)) == w
  {
    var b := WordBytes(w);
    LowFirstFour(b[0], b[1], b[2], b[3]);
    assert w / 0x100 / 0x100 == w / 0x1_0000 && w / 0x1_0000 / 0x100 == w / 0x100_0000;
  }

  lemma {:induction false} LowFirstAppend(b: seq<byte>, c: seq<byte>, scale: nat)
    requires scale == Power256(|b|)
    ensures LowFirst(b + c) == LowFirst(b) + scale * LowFirst(c)
    decreases |b|
  {
    if b == [] {
      assert b + c == c;
    } else {
      assert (b + c)[1..] == b[1..] + c;
      LowFirstAppend(b[1..], c, Power256(|b| - 1));
      assert 256 * (Power256(|b| - 1) * LowFirst(c)) == scale * LowFirst(c);
    }
  }

  function Power256(n: nat): nat {
    if n == 0 then 1 else 256 * Power256(n - 1)
  }

  /** Section 3.2: the length is appended modulo 2^64, low-order word and byte first. */
  lemma LengthRead(bits: nat)
    ensures LowFirst(LengthBytes(bits)) == bits % COUNT
  {
    var lo, hi := bits % COUNT % WORD, bits % COUNT / WORD;
    hide WordBytes, LowFirst;
    WordRead(lo);
    WordRead(hi);
    assert Power256(4) == WORD;
    LowFirstAppend(WordBytes(lo), WordBytes(hi), WORD);
  }

  /** Sections 3.1 and 3.2: the message, a one bit, zeros, and the length in the last eight bytes. */
  lemma PaddedIs(m: seq<byte>)
    ensures var p := Padded(m); var n := |p| - 8;
            && n > |m| && p[..|m|] == m && p[|m|] == 0x80
            && (forall i :: |m| < i < n ==> p[i] == 0)
            && LowFirst(p[n..]) == 8 * |m| % COUNT
  {
    hide LengthBytes, LowFirst;
    var k := PadLength(|m|);
    assert Padded(m)[|m| + k..] == LengthBytes(8 * |m|);
    LengthRead(8 * |m|);
  }

  /** Section 3.5: the digest begins with the low-order byte of A and ends with the high-order byte of D. */
  lemma DigestRead(h: Abcd)
    ensures |DigestBytes(h)| == 16
    ensures LowFirst(DigestBytes(h)[..4]) == h.a && LowFirst(DigestBytes(h)[4..8]) == h.b
    ensures LowFirst(DigestBytes(h)[8..12]) == h.c && LowFirst(DigestBytes(h)[12..]) == h.d
  {
    hide WordBytes, LowFirst;
    WordRead(h.a);
    WordRead(h.b);
    WordRead(h.c);
    WordRead(h.d);
    var r := DigestBytes(h);
    assert r[..4] == WordBytes(h.a) && r[4..8] == WordBytes(h.b) && r[8..12] == WordBytes(h.c) && r[12..] == WordBytes(h.d);
  }

  /** Section 3.3: the four words before the first block. */
  lemma InitialRead()
    ensures DigestBytes(InitialAbcd()) ==
            [0x01, 0x23, 0x45, 0x67, 0x89, 0xab, 0xcd, 0xef, 0xfe, 0xdc, 0xba, 0x98, 0x76, 0x54, 0x32, 0x10]
  {}

  /** Section 3.1 asks for no more padding than is needed. */
  lemma PadLeast(n: nat, k: nat)
    requires 1 <= k && (n + k) % 64 == 56
    ensures PadLength(n) <= k
  {}

  // ---- a message in pieces ------------------------------------------------

  /** The bytes behind the last whole block. */
  function Left(m: seq<byte>): (r: seq<byte>)
    ensures |r| == |m| % 64
  {
    if |m| < 64 then m else Left(m[64..])
  }

  /** What is known of a message after its whole blocks are folded: the value and the bytes left. */
  lemma {:induction false} FoldAppend(process: Process, h: Abcd, m: seq<byte>, d: seq<byte>)
    ensures Fold(process, h, m + d) == Fold(process, Fold(process, h, m), Left(m) + d)
    ensures Left(m + d) == Left(Left(m) + d)
    decreases |m|
  {
    if |m| >= 64 {
      assert (m + d)[..64] == m[..64] && (m + d)[64..] == m[64..] + d;
      FoldAppend(process, process(h, m[..64]), m[64..], d);
    }
  }

  /** Section 3.4: the blocks are processed one after the other, each on what the ones before it left. */
  lemma FoldNext(process: Process, h: Abcd, m: seq<byte>, block: seq<byte>)
    requires |m| % 64 == 0 && |block| == 64
    ensures Fold(process, h, []) == h && Fold(process, h, m + block) == process(Fold(process, h, m), block)
  {
    FoldAppend(process, h, m, block);
    assert Left(m) + block == block && block[..64] == block && block[64..] == [];
  }

  /** The carry into the second word: a sum wrapped around iff it is less than what was added. */
  lemma CountAdds(c0: Word, c1: Word, n: nat, k: nat)
    requires c0 + WORD * c1 == 8 * n % COUNT && 8 * k < WORD
    ensures var c0' := (c0 + 8 * k) % WORD;
            var c1' := (c1 + if c0' < 8 * k then 1 else 0) % WORD;
            c0' + WORD * c1' == 8 * (n + k) % COUNT
  {
    var c0' := (c0 + 8 * k) % WORD;
    assert c0' == if c0 + 8 * k < WORD then c0 + 8 * k else c0 + 8 * k - WORD;
    var r := 8 * n % COUNT;
    assert 8 * (n + k) % COUNT == (r + 8 * k) % COUNT by {
      ModAdd(8 * n, 8 * k);
    }
  }

  lemma ModAdd(a: nat, b: nat)
    ensures (a + b) % COUNT == (a % COUNT + b) % COUNT
  {}

  lemma CountOffset(c0: Word, c1: Word, n: nat)
    requires c0 + WORD * c1 == 8 * n % COUNT
    ensures c0 / 8 % 64 == n % 64
    ensures (55 - c0 / 8) % 64 == (55 - n) % 64
  {
    var q := 8 * n / COUNT;
    var blocks := 0x80_0000_0000_0000 * q + 0x80_0000 * c1;
    assert c0 == 8 * (n - 64 * blocks);
    assert c0 / 8 == n - 64 * blocks;
    BlocksApart(n, blocks);
  }

  lemma BlocksApart(n: int, blocks: int)
    ensures (n - 64 * blocks) % 64 == n % 64
    ensures (55 - (n - 64 * blocks)) % 64 == (55 - n) % 64
  {}

  class State {
    const process: Process
    var count0: Word
    var count1: Word
    var abcd: Abcd
    var buf: array<byte>
    /** All bytes appended so far. */
    ghost var msg: seq<byte>

    ghost predicate Valid()
      reads this, buf
    {
      && buf.Length == 64
      && count0 + WORD * count1 == 8 * |msg| % COUNT
      && abcd == Fold(process, InitialAbcd(), msg)
      && buf[..|msg| % 64] == Left(msg)
    }

    /** md5_init() */
    constructor (process: Process)
      ensures Valid() && msg == [] && fresh(buf) && this.process == process
    {
      this.process := process;
      count0, count1 := 0, 0;
      abcd := InitialAbcd();
      buf := new byte[64];
      msg := [];
    }

    /** memcpy(buf + at, data + from, n) */
    method Copy(at: nat, data: seq<byte>, from: nat, n: nat)
      requires buf.Length == 64 && at + n <= 64 && from + n <= |data|
      modifies buf
      ensures buf[..at + n] == old(buf[..at]) + data[from..from + n]
    {
      for i := 0 to n
        invariant buf[..at + i] == old(buf[..at]) + data[from..from + i]
      {
        buf[at + i] := data[from + i];
        assert buf[..at + i + 1] == buf[..at + i] + [data[from + i]];
      }
    }

    /** The two-word count of bits. */
    method Tally(nbytes: nat, ghost n: nat)
      requires nbytes < 0x1000_0000 && count0 + WORD * count1 == 8 * n % COUNT
      modifies this`count0, this`count1
      ensures count0 + WORD * count1 == 8 * (n + nbytes) % COUNT
    {
      CountAdds(count0, count1, n, nbytes);
      var nbits := 8 * nbytes;
      count0 := (count0 + nbits) % WORD;
      count1 := (count1 + nbytes / 0x2000_0000 + if count0 < nbits then 1 else 0) % WORD;
    }

    /** The whole blocks of the data from p on. */
    method Blocks(data: seq<byte>, start: nat) returns (p: nat)
      requires start <= |data|
      modifies this`abcd
      ensures start <= p <= |data| && |data| - p < 64
      ensures abcd == Fold(process, old(abcd), data[start..]) && Left(data[start..]) == data[p..]
    {
      hide Fold, Left;
      p := start;
      while |data| - p >= 64
        invariant start <= p <= |data| && Fold(process, abcd, data[p..]) == Fold(process, old(abcd), data[start..])
        invariant Left(data[p..]) == Left(data[start..])
      {
        FoldBlock(process, abcd, data, p);
        abcd := process(abcd, data[p..p + 64]);
        p := p + 64;
      }
      FoldShort(process, abcd, data[p..]);
    }

    /** The blocks that the bytes left over and the new data make, and what is left over then. */
    method Absorb(data: seq<byte>, offset: nat, ghost rem: seq<byte>)
      requires buf.Length == 64 && offset < 64 && buf[..offset] == rem
      modifies this`abcd, buf
      ensures abcd == Fold(process, old(abcd), rem + data)
      ensures buf[..|Left(rem + data)|] == Left(rem + data)
    {
      hide Fold, Left;
      var p: nat := 0;
      if offset != 0 {
        var copy := if offset + |data| > 64 then 64 - offset else |data|;
        Copy(offset, data, 0, copy);
        if offset + copy < 64 {
          FoldShort(process, abcd, rem + data);
          assert data[0..copy] == data;
          return;
        }
        assert buf[..64] == buf[..];
        FillBlock(process, abcd, rem, data, copy);
        p := copy;
        abcd := process(abcd, buf[..]);
      } else {
        assert rem + data == data[0..];
      }
      p := Blocks(data, p);
      assert data[p..p + (|data| - p)] == data[p..];
      Copy(0, data, p, |data| - p);
    }

    /** md5_append() */
    method Append(data: seq<byte>)
      requires Valid() && |data| < 0x1000_0000
      modifies this, buf
      ensures Valid() && msg == old(msg) + data && buf == old(buf)
    {
      hide *;
      Facts();
      FoldAppend(process, InitialAbcd(), msg, data);
      CountOffset(count0, count1, |msg|);
      var offset := count0 / 8 % 64;
      if |data| == 0 {
        assert msg + data == msg;
        return;
      }
      Tally(|data|, |msg|);
      Absorb(data, offset, Left(msg));
      msg := msg + data;
      Done();
    }

    /** md5_finish() */
    method Finish() returns (digest: seq<byte>)
      requires Valid()
      modifies this, buf
      ensures digest == Digest(process, old(msg))
    {
      hide *;
      Facts();
      ghost var m := msg;
      CountOffset(count0, count1, |m|);
      var data := WordBytes(count0) + WordBytes(count1);
      SavedLength(count0, count1, |m|);
      var k := (55 - count0 / 8) % 64 + 1;
      PadLengthIs(|m|);
      Append(Padding(k));
      Append(data);
      assert msg == m + Padding(k) + data;
      Facts();
      DigestIs(process, m);
      digest := DigestBytes(abcd);
    }

    lemma Facts()
      requires Valid()
      ensures buf.Length == 64 && count0 + WORD * count1 == 8 * |msg| % COUNT
      ensures abcd == Fold(process, InitialAbcd(), msg) && buf[..|msg| % 64] == Left(msg)
      ensures WORD == 0x1_0000_0000
    {}

    lemma Done()
      requires buf.Length == 64 && count0 + WORD * count1 == 8 * |msg| % COUNT
      requires abcd == Fold(process, InitialAbcd(), msg) && buf[..|msg| % 64] == Left(msg)
      ensures Valid()
    {}
  }

  lemma FoldShort(process: Process, h: Abcd, m: seq<byte>)
    requires |m| < 64
    ensures Fold(process, h, m) == h && Left(m) == m
  {}

  lemma FoldBlock(process: Process, h: Abcd, data: seq<byte>, p: nat)
    requires p + 64 <= |data|
    ensures Fold(process, h, data[p..]) == Fold(process, process(h, data[p..p + 64]), data[p + 64..])
    ensures Left(data[p..]) == Left(data[p + 64..])
  {
    assert data[p..][..64] == data[p..p + 64] && data[p..][64..] == data[p + 64..];
  }

  lemma FillBlock(process: Process, h: Abcd, rem: seq<byte>, data: seq<byte>, copy: nat)
    requires |rem| + copy == 64 && copy <= |data|
    ensures Fold(process, h, rem + data) == Fold(process, process(h, rem + data[0..copy]), data[copy..])
    ensures Left(rem + data) == Left(data[copy..])
  {
    assert (rem + data)[..64] == rem + data[0..copy] && (rem + data)[64..] == data[copy..];
  }

  lemma SavedLength(c0: Word, c1: Word, n: nat)
    requires c0 + WORD * c1 == 8 * n % COUNT
    ensures WordBytes(c0) + WordBytes(c1) == LengthBytes(8 * n)
  {
    assert 8 * n % COUNT % WORD == c0 && 8 * n % COUNT / WORD == c1;
  }

  lemma PadLengthIs(n: nat)
    ensures PadLength(n) == (55 - n) % 64 + 1
  {}

  lemma DigestIs(process: Process, m: seq<byte>)
    ensures Digest(process, m) == DigestBytes(Fold(process, InitialAbcd(), m + Padding(PadLength(|m|)) + LengthBytes(8 * |m|)))
  {}

  function Concat(pieces: seq<seq<byte>>): seq<byte> {
    if pieces == [] then [] else Concat(pieces[..|pieces| - 1]) + pieces[|pieces| - 1]
  }

  /** However a message is cut into calls of md5_append(), its digest is the same. */
  method DigestOfPieces(process: Process, pieces: seq<seq<byte>>) returns (digest: seq<byte>)
    requires forall i :: 0 <= i < |pieces| ==> |pieces[i]| < 0x1000_0000
    ensures digest == Digest(process, Concat(pieces))
  {
    hide Digest;
    var st := new State(process);
    for i := 0 to |pieces|
      invariant st.Valid() && st.msg == Concat(pieces[..i]) && st.process == process
      invariant fresh(st) && fresh(st.buf)
    {
      assert pieces[..i + 1][..i] == pieces[..i];
      st.Append(pieces[i]);
    }
    assert pieces[..|pieces|] == pieces;
    digest := st.Finish();
  }
}
