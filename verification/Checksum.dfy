/**
 The Internet checksum (click/lib/in_cksum.c, portable branch): 16-bit words in
 the byte order of the machine are added in a 32-bit accumulator, whose carries
 are folded back at the end.  The reference is the one's complement sum of
 section 1 of RFC 1071, which carries around after every addition.
 */
module Checksum {
  import opened Wrappers

  const TWO32 := 0x1_0000_0000

  // ---- the reference: one's complement addition ---------------------------

  /** Addition with the carry brought around. */
  function OnesAdd(a: nat, b: nat): nat {
    if a + b > 0xFFFF then a + b - 0xFFFF else a + b
  }

  /** A word of two consecutive bytes, on a big- or little-endian machine. */
  function Word(big: bool, first: byte, second: byte): (w: nat)
    ensures w <= 0xFFFF
  {
    if big then 256 * first as nat + second as nat else first as nat + 256 * second as nat
  }

  function FirstWord(big: bool, data: seq<byte>): (w: nat)
    requires data != []
    ensures w <= 0xFFFF
  {
    Word(big, data[0], if |data| == 1 then 0 else data[1])
  }

  function Rest(data: seq<byte>): (r: seq<byte>)
    requires data != []
    ensures |r| < |data|
  {
    if |data| == 1 then [] else data[2..]
  }

  /** The one's complement sum of the words; an odd byte is padded with zero. */
  function OnesSum(big: bool, data: seq<byte>): (s: nat)
    ensures s <= 0xFFFF
    decreases |data|
  {
    if data == [] then 0 else OnesAdd(FirstWord(big, data), OnesSum(big, Rest(data)))
  }

  // ---- the accumulator ----------------------------------------------------

  function Sum(big: bool, data: seq<byte>): nat
    decreases |data|
  {
    if data == [] then 0 else FirstWord(big, data) + Sum(big, Rest(data))
  }

  /** Adding the carries back, twice, and keeping 16 bits. */
  function Fold(sum: nat): nat {
    var once := sum % 0x1_0000 + sum / 0x1_0000;
    (once + once / 0x1_0000) % 0x1_0000
  }

  /** What folding computes: the residue modulo 0xFFFF, with 0 only for 0. */
  function Residue(sum: nat): (r: nat)
    ensures r <= 0xFFFF && (r == 0 <==> sum == 0)
  {
    if sum == 0 then 0 else (sum - 1) % 0xFFFF + 1
  }

  lemma FoldIsResidue(sum: nat)
    requires sum < TWO32
    ensures Fold(sum) == Residue(sum)
  {
    var once := sum % 0x1_0000 + sum / 0x1_0000;
    assert sum == once + 0xFFFF * (sum / 0x1_0000);
    assert once <= 0x1_FFFE;
    ResidueShift(once, sum / 0x1_0000);
    if once > 0xFFFF {
      ResidueShift(once - 0xFFFF, 1);
    }
  }

  lemma ResidueShift(r: nat, k: nat)
    requires r > 0 || k == 0
    ensures Residue(r + 0xFFFF * k) == Residue(r)
  {
    if r > 0 {
      assert r + 0xFFFF * k - 1 == (r - 1) + 0xFFFF * k;
    }
  }

  /** Each residue differs from its number by a multiple of 0xFFFF. */
  lemma ResidueQuotient(n: nat) returns (k: nat)
    ensures n == Residue(n) + 0xFFFF * k && (n == 0 ==> k == 0)
  {
    k := if n == 0 then 0 else (n - 1) / 0xFFFF;
  }

  /** Reducing a summand first makes no difference. */
  lemma ResidueAdds(a: nat, b: nat)
    ensures Residue(Residue(a) + b) == Residue(a + b)
  {
    var k := ResidueQuotient(a);
    ResidueShift(Residue(a) + b, k);
  }

  lemma OnesAddIsResidue(a: nat, b: nat)
    requires a <= 0xFFFF && b <= 0xFFFF
    ensures OnesAdd(a, b) == Residue(a + b)
  {
    if a + b > 0xFFFF {
      ResidueShift(a + b - 0xFFFF, 1);
    }
  }

  /** Carrying after every addition, and only at the end, agree. */
  lemma {:induction false} OnesSumIsResidue(big: bool, data: seq<byte>)
    ensures OnesSum(big, data) == Residue(Sum(big, data))
    decreases |data|
  {
    if data != [] {
      var w, rest := FirstWord(big, data), Rest(data);
      OnesSumIsResidue(big, rest);
      OnesAddIsResidue(w, OnesSum(big, rest));
      ResidueAdds(Sum(big, rest), w);
    }
  }

  lemma {:induction false} SumBound(big: bool, data: seq<byte>)
    ensures Sum(big, data) <= 0xFFFF * ((|data| + 1) / 2)
    decreases |data|
  {
    if data != [] {
      SumBound(big, Rest(data));
    }
  }

  /** What click_in_cksum() returns: the accumulator is 32 bits wide. */
  function Cksum(big: bool, data: seq<byte>): (r: nat)
    ensures r <= 0xFFFF
  {
    0xFFFF - Fold(Sum(big, data) % TWO32)
  }

  /** Up to 131074 bytes the accumulator cannot overflow, and the checksum is that of RFC 1071. */
  lemma CksumIsOnesComplement(big: bool, data: seq<byte>)
    requires |data| <= 131074
    ensures Cksum(big, data) == 0xFFFF - OnesSum(big, data)
  {
    hide Sum, OnesSum, Fold;
    SumBound(big, data);
    assert Sum(big, data) < TWO32;
    FoldIsResidue(Sum(big, data));
    OnesSumIsResidue(big, data);
  }

  function Ones(n: nat): (r: seq<byte>)
    ensures |r| == n
  {
    seq(n, i => 255)
  }

  function Nothing(n: nat): (r: seq<byte>)
    ensures |r| == n
  {
    seq(n, i => 0)
  }

  lemma {:induction false} SumOfOnes(big: bool, n: nat)
    ensures Sum(big, Ones(2 * n)) == 0xFFFF * n
  {
    if n > 0 {
      assert Ones(2 * n)[2..] == Ones(2 * (n - 1));
      SumOfOnes(big, n - 1);
    }
  }

  lemma {:induction false} SumOfNothing(big: bool, n: nat)
    ensures Sum(big, Nothing(n)) == 0
  {
    if n > 1 {
      assert Nothing(n)[2..] == Nothing(n - 2);
      SumOfNothing(big, n - 2);
    }
  }

  /** Ones up to where the accumulator is full, then a one, then zeros. */
  function Overflowing(n: nat): (r: seq<byte>)
    requires n > 131074
    ensures |r| == n
  {
    Ones(131074) + ([1] + Nothing(n - 131075))
  }

  lemma SumOfOneMore(big: bool, m: nat)
    ensures Sum(big, [1] + Nothing(m)) == Word(big, 1, 0)
  {
    var t := [1] + Nothing(m);
    if m > 0 {
      assert t[2..] == Nothing(m - 1);
      SumOfNothing(big, m - 1);
    }
  }

  lemma OverflowingIsWrong(big: bool, n: nat)
    requires n > 131074
    ensures Cksum(big, Overflowing(n)) != 0xFFFF - OnesSum(big, Overflowing(n))
  {
    hide Sum, OnesSum, Ones, Nothing, Fold;
    var w := Word(big, 1, 0);
    var data := Overflowing(n);
    SumOfOnes(big, 65537);
    SumOfOneMore(big, n - 131075);
    SumAppend(big, Ones(131074), [1] + Nothing(n - 131075));
    assert Sum(big, data) == 0xFFFF * 65537 + w;
    OnesSumIsResidue(big, data);
    ResidueShift(w, 65537);
    FoldIsResidue(w - 1);
  }

  /** All data of a length are summed right if and only if the length is at most 131074. */
  lemma BoundIsExact(big: bool, n: nat)
    ensures (forall data: seq<byte> :: |data| == n ==> Cksum(big, data) == 0xFFFF - OnesSum(big, data)) <==> n <= 131074
  {
    hide Cksum, OnesSum, Overflowing;
    if n <= 131074 {
      forall data: seq<byte> | |data| == n
        ensures Cksum(big, data) == 0xFFFF - OnesSum(big, data)
      {
        CksumIsOnesComplement(big, data);
      }
    } else {
      OverflowingIsWrong(big, n);
    }
  }

  /** click_in_cksum() */
  method InCksum(big: bool, data: seq<byte>) returns (answer: nat)
    ensures answer == Cksum(big, data)
    ensures |data| <= 131074 ==> answer == 0xFFFF - OnesSum(big, data)
  {
    hide Sum, OnesSum, Word, Fold;
    var nleft, w: nat, sum: nat := |data|, 0, 0;
    assert data[0..] == data;
    while nleft > 1
      invariant w + nleft == |data| && nleft >= 0 && sum < TWO32
      invariant (sum + Sum(big, data[w..])) % TWO32 == Sum(big, data) % TWO32
    {
      SumStep(big, data, w);
      WrapAdd(sum, Word(big, data[w], data[w + 1]), Sum(big, data[w + 2..]));
      sum := (sum + Word(big, data[w], data[w + 1])) % TWO32;
      w, nleft := w + 2, nleft - 2;
    }
    if nleft == 1 {
      SumLast(big, data, w);
      sum := (sum + Word(big, data[w], 0)) % TWO32;
    } else {
      assert data[w..] == [];
      SumNone(big);
    }
    assert sum == Sum(big, data) % TWO32;
    FoldIs(sum);
    sum := sum % 0x1_0000 + sum / 0x1_0000;
    sum := sum + sum / 0x1_0000;
    answer := 0xFFFF - sum % 0x1_0000;
    if |data| <= 131074 {
      CksumIsOnesComplement(big, data);
    }
  }

  lemma FoldIs(sum: nat)
    ensures var once := sum % 0x1_0000 + sum / 0x1_0000;
            Fold(sum) == (once + once / 0x1_0000) % 0x1_0000
  {}

  lemma SumStep(big: bool, data: seq<byte>, w: nat)
    requires w + 2 <= |data|
    ensures Sum(big, data[w..]) == Word(big, data[w], data[w + 1]) + Sum(big, data[w + 2..])
  {
    assert data[w..][2..] == data[w + 2..];
  }

  lemma SumLast(big: bool, data: seq<byte>, w: nat)
    requires w + 1 == |data|
    ensures Sum(big, data[w..]) == Word(big, data[w], 0)
  {}

  lemma SumNone(big: bool)
    ensures Sum(big, []) == 0
  {}

  lemma WrapAdd(a: nat, b: nat, c: nat)
    ensures ((a + b) % TWO32 + c) % TWO32 == (a + (b + c)) % TWO32
  {}

  // ---- the pseudo-header --------------------------------------------------

  /** Four bytes as a 32-bit number of the machine. */
  function Native32(big: bool, b: seq<byte>): nat
    requires |b| == 4
  {
    if big then 0x1_0000 * Word(big, b[0], b[1]) + Word(big, b[2], b[3])
    else Word(big, b[0], b[1]) + 0x1_0000 * Word(big, b[2], b[3])
  }

  /** htons() of a 16-bit number. */
  function Htons(big: bool, v: nat): nat {
    if big then v % 0x1_0000 else v / 256 % 256 + v % 256 * 256
  }

  /** click_in_cksum_pseudohdr_raw() */
  function PseudohdrRaw(big: bool, csum: nat, src: nat, dst: nat, proto: nat, len: nat): nat
    requires csum <= 0xFFFF
  {
    var sum := (0xFFFF - csum) + (src % 0x1_0000 + src / 0x1_0000) + (dst % 0x1_0000 + dst / 0x1_0000) + (Htons(big, len) + Htons(big, proto));
    0xFFFF - Fold(sum % TWO32)
  }

  /** The 12 bytes of the pseudo-header of RFC 768 and section 3.1 of RFC 793. */
  function Pseudoheader(src: seq<byte>, dst: seq<byte>, proto: byte, len: nat): (h: seq<byte>)
    requires |src| == 4 && |dst| == 4 && len < 0x1_0000
    ensures |h| == 12
  {
    src + dst + [0, proto, (len / 256) as byte, (len % 256) as byte]
  }

  lemma {:induction false} SumAppend(big: bool, a: seq<byte>, b: seq<byte>)
    requires |a| % 2 == 0
    ensures Sum(big, a + b) == Sum(big, a) + Sum(big, b)
    decreases |a|
  {
    if a == [] {
      assert a + b == b;
    } else {
      assert (a + b)[2..] == a[2..] + b;
      SumAppend(big, a[2..], b);
    }
  }

  lemma SumFour(big: bool, b: seq<byte>)
    requires |b| == 4
    ensures Sum(big, b) == Word(big, b[0], b[1]) + Word(big, b[2], b[3])
  {
    assert b[2..][2..] == [];
    assert Sum(big, b[2..]) == Word(big, b[2], b[3]) + Sum(big, b[2..][2..]);
  }

  lemma HalvesSum(big: bool, b: seq<byte>)
    requires |b| == 4
    ensures var v := Native32(big, b); v % 0x1_0000 + v / 0x1_0000 == Sum(big, b)
  {
    hide Word;
    SumFour(big, b);
  }

  /** What the fields of the pseudo-header add up to. */
  lemma HeaderSum(big: bool, src: seq<byte>, dst: seq<byte>, proto: byte, len: nat)
    requires |src| == 4 && |dst| == 4 && len < 0x1_0000
    ensures Sum(big, Pseudoheader(src, dst, proto, len))
         == Sum(big, src) + Sum(big, dst) + (Htons(big, len) + Htons(big, proto as nat))
  {
    hide Sum, Word, Htons;
    var tail := [0, proto, (len / 256) as byte, (len % 256) as byte];
    SumAppend(big, src + dst, tail);
    SumAppend(big, src, dst);
    SumFour(big, tail);
    FieldWords(big, proto, len);
  }

  lemma FieldWords(big: bool, proto: byte, len: nat)
    requires len < 0x1_0000
    ensures Word(big, 0, proto) == Htons(big, proto as nat)
    ensures Word(big, (len / 256) as byte, (len % 256) as byte) == Htons(big, len)
  {}

  /**
   Adding the pseudo-header to a finished checksum gives the checksum of the
   pseudo-header and the data together, exactly: 0 and 0xFFFF are not mixed up.
   */
  lemma PseudohdrComposes(big: bool, data: seq<byte>, src: seq<byte>, dst: seq<byte>, proto: byte, len: nat)
    requires |data| <= 131062 && |src| == 4 && |dst| == 4 && len < 0x1_0000
    ensures PseudohdrRaw(big, Cksum(big, data), Native32(big, src), Native32(big, dst), proto as nat, len)
         == Cksum(big, Pseudoheader(src, dst, proto, len) + data)
  {
    hide Sum, Fold, Residue, Native32, Htons;
    var header := Pseudoheader(src, dst, proto, len);
    HalvesSum(big, src);
    HalvesSum(big, dst);
    HeaderSum(big, src, dst, proto, len);
    SumAppend(big, header, data);
    SumBound(big, header + data);
    SumBound(big, header);
    var s, h := Sum(big, data), Sum(big, header);
    assert s + h < TWO32;
    FoldIsResidue(s);
    FoldIsResidue(Residue(s) + h);
    FoldIsResidue(s + h);
    ResidueAdds(s, h);
  }

  // ---- byte order ---------------------------------------------------------

  function Swap(w: nat): (r: nat)
    requires w <= 0xFFFF
    ensures r <= 0xFFFF && (r == 0 <==> w == 0)
  {
    w / 256 + w % 256 * 256
  }

  lemma SwapIsShift(w: nat)
    requires w <= 0xFFFF
    ensures Swap(w) == Residue(256 * w)
  {
    assert 256 * w == Swap(w) + 0xFFFF * (w / 256);
    if w > 0 {
      ResidueShift(Swap(w), w / 256);
    }
  }

  lemma ResidueTimes(n: nat)
    ensures Residue(256 * Residue(n)) == Residue(256 * n)
  {
    var k := ResidueQuotient(n);
    assert 256 * n == 256 * Residue(n) + 0xFFFF * (256 * k);
    ResidueShift(256 * Residue(n), 256 * k);
  }

  lemma OnesAddSwaps(a: nat, b: nat)
    requires a <= 0xFFFF && b <= 0xFFFF
    ensures OnesAdd(a, b) <= 0xFFFF
    ensures OnesAdd(Swap(a), Swap(b)) == Swap(OnesAdd(a, b))
  {
    hide Swap, Residue;
    OnesAddIsResidue(a, b);
    OnesAddIsResidue(Swap(a), Swap(b));
    SwapIsShift(a);
    SwapIsShift(b);
    SwapIsShift(OnesAdd(a, b));
    ResidueAdds(256 * a, Residue(256 * b));
    ResidueAdds(256 * b, 256 * a);
    ResidueTimes(a + b);
  }

  /** Section 2(B) of RFC 1071: machines of either byte order store the same checksum bytes. */
  lemma {:induction false} ByteOrderIndependent(data: seq<byte>)
    ensures OnesSum(false, data) == Swap(OnesSum(true, data))
    decreases |data|
  {
    if data != [] {
      var rest := Rest(data);
      ByteOrderIndependent(rest);
      WordSwaps(data[0], if |data| == 1 then 0 else data[1]);
      OnesAddSwaps(FirstWord(true, data), OnesSum(true, rest));
    }
  }

  lemma WordSwaps(first: byte, second: byte)
    ensures Word(false, first, second) == Swap(Word(true, first, second))
  {}
}
