/**
 Bitvector (click/lib/bitvector.cc): bits packed into 32-bit words, worked on a
 word at a time.  To its callers it is a sequence of booleans.
 */
module Bitvector {

  import opened Words

  // ---- words and bits -----------------------------------------------------

  predicate BitAt(words: seq<bv32>, j: int) {
    0 <= j && j / 32 < |words| && Bit(words[j / 32], j % 32)
  }

  /** word_size() for a last position; max is -1 for the empty vector. */
  function WordSize(max: int): (n: int)
    requires max >= -1
    ensures max >= 0 ==> n == max / 32 + 1
    ensures n >= 0 && 32 * (n - 1) <= max < 32 * n
  {
    (max + 32) / 32
  }

  /** Past the last position all bits of the words in use are zero. */
  ghost predicate Clean(words: seq<bv32>, max: int)
    requires max >= -1 && WordSize(max) <= |words|
  {
    forall j :: BitAt(words, j) && j < 32 * WordSize(max) ==> j <= max
  }

  ghost function BitsOf(words: seq<bv32>, max: int): (b: seq<bool>)
    requires max >= -1
    ensures |b| == max + 1
  {
    seq(max + 1, j => BitAt(words, j))
  }

  /** The mask that clear_last() applies: nothing past max in max's word. */
  function Cleared(words: seq<bv32>, max: int): (r: seq<bv32>)
    requires max >= -1 && |words| > 0 && WordSize(max) <= |words|
    ensures |r| == |words|
  {
    if max < 0 then words[0 := 0]
    else if max % 32 == 31 then words
    else words[max / 32 := And(words[max / 32], Below(max % 32 + 1))]
  }

  lemma ClearedBits(words: seq<bv32>, max: int, j: int)
    requires max >= 0 && WordSize(max) <= |words|
    ensures BitAt(Cleared(words, max), j) <==> BitAt(words, j) && (j <= max || j / 32 != max / 32)
  {
    hide And, Below, Bit;
    if max % 32 != 31 {
      BitAnd(words[max / 32], Below(max % 32 + 1), j % 32);
      BitBelow(max % 32 + 1, j % 32);
    }
  }

  lemma ZeroWord(words: seq<bv32>, j: int)
    requires 0 <= j && j / 32 < |words| && words[j / 32] == 0
    ensures !BitAt(words, j)
  {
    ZeroHasNone(j % 32);
  }

  class Bitvector {
    var max: int
    var data: array<bv32>

    /** _data holds the words in use, and at least one; what lies behind them is anything. */
    ghost predicate Valid()
      reads this, data
    {
      max >= -1 && data.Length >= 1 && data.Length >= WordSize(max) && Clean(data[..], max)
    }

    ghost function Bits(): (b: seq<bool>)
      requires max >= -1
      reads this, data
    {
      BitsOf(data[..], max)
    }

    constructor ()
      ensures Valid() && max == -1 && fresh(data) && data.Length == 2
    {
      max := -1;
      data := new bv32[2](i => 0);
    }

    /** clear_last() */
    method ClearLast()
      requires max >= -1 && data.Length > 0 && WordSize(max) <= data.Length
      modifies data
      ensures data[..] == Cleared(old(data[..]), max)
    {
      hide And, Below;
      var m := max;
      if m < 0 {
        data[0] := 0;
      } else if m % 32 != 31 {
        data[m / 32] := And(data[m / 32], Below(m % 32 + 1));
      }
    }

    /** zero() */
    method Zero() returns (r: bool)
      requires Valid()
      ensures r <==> forall j :: 0 <= j < |Bits()| ==> !Bits()[j]
    {
      hide Bit;
      for i := 0 to WordSize(max)
        invariant forall k :: 0 <= k < i ==> data[k] == 0
      {
        if data[i] != 0 {
          ghost var b := SomeBit(data[i]);
          assert BitAt(data[..], 32 * i + b);
          assert Bits()[32 * i + b];
          return false;
        }
      }
      forall j | 0 <= j < |Bits()|
        ensures !Bits()[j]
      {
        ZeroWord(data[..], j);
      }
      return true;
    }

    /** flip() */
    method Flip()
      requires Valid()
      modifies data
      ensures Valid()
      ensures |Bits()| == |old(Bits())| && forall j :: 0 <= j < |Bits()| ==> Bits()[j] == !old(Bits())[j]
    {
      hide Not, Bit, And, Below;
      var nn := WordSize(max);
      for i := 0 to nn
        invariant forall k :: 0 <= k < i ==> data[k] == Not(old(data[k]))
        invariant forall k :: i <= k < data.Length ==> data[k] == old(data[k])
      {
        data[i] := Not(data[i]);
      }
      ghost var words := data[..];
      ClearLast();
      if max >= 0 {
        forall j | 0 <= j < 32 * nn
          ensures BitAt(data[..], j) <==> !BitAt(old(data[..]), j) && j <= max
        {
          ClearedBits(words, max, j);
          BitNot(old(data[..])[j / 32], j % 32);
        }
      }
    }

    /** Where resize() and assign() store outside: two words are wanted, and _data is just one. */
    static predicate OneWordShort(length: nat, n: nat) {
      length == 1 && 33 <= n <= 64
    }

    /** resize() up to its last two lines: room for n bits, the words new in use zero. */
    method Reserve(n: nat) returns (inside: bool)
      requires max >= -1 && data.Length >= 1 && data.Length >= WordSize(max)
      modifies this`data, data
      ensures inside <==> !OneWordShort(old(data).Length, n)
      ensures !inside ==> data == old(data) && data[..] == old(data[..])
      ensures data.Length == if WordSize(n - 1) > 2 && WordSize(n - 1) > WordSize(max) then WordSize(n - 1) else old(data).Length
      ensures (data == old(data) || fresh(data)) && (inside ==> data.Length >= WordSize(n - 1))
      ensures inside ==> forall k :: 0 <= k < WordSize(max) && k < WordSize(n - 1) ==> data[k] == old(data[..])[k]
      ensures inside ==> forall k :: WordSize(max) <= k < WordSize(n - 1) ==> data[k] == 0
    {
      ghost var words := data[..];
      if n >= max {
        var want, have := (n + 31) / 32, WordSize(max);
        assert want == WordSize(n - 1);
        if want > 2 && want > have {
          var newData := new bv32[want](i => 0);
          for i := 0 to have
            invariant forall k :: 0 <= k < i ==> newData[k] == words[k]
            invariant data[..] == words
            modifies newData
          {
            newData[i] := data[i];
          }
          data := newData;
        }
        if want > have && want > data.Length {
          return false;
        }
        for i := have to (if want > have then want else have)
          invariant forall k :: 0 <= k < have ==> data[k] == words[k]
          invariant forall k :: have <= k < i ==> data[k] == 0
          modifies data
        {
          data[i] := 0;
        }
      }
      return true;
    }

    /** resize(): the bits kept, and false ones added. */
    method Resize(n: nat) returns (inside: bool)
      requires Valid()
      modifies this, data
      ensures inside <==> !OneWordShort(old(data).Length, n)
      ensures !inside ==> max == old(max) && data == old(data) && data[..] == old(data[..])
      ensures data == old(data) || fresh(data)
      ensures data.Length == if WordSize(n - 1) > 2 && WordSize(n - 1) > WordSize(old(max)) then WordSize(n - 1) else old(data).Length
      ensures inside ==> Valid() && max == n - 1 && (n == 0 ==> data[0] == 0)
      ensures inside ==> forall j :: 0 <= j < n ==> Bits()[j] == (j < |old(Bits())| && old(Bits())[j])
    {
      hide Clean, BitAt, Cleared;
      ghost var words, max0 := data[..], max;
      inside := Reserve(n);
      if inside {
        ghost var words1 := data[..];
        max := n - 1;
        ClearLast();
        Resized(words, max0, words1, max);
      }
    }

    static lemma Resized(words: seq<bv32>, max: int, words1: seq<bv32>, max': int)
      requires max >= -1 && max' >= -1 && |words| >= WordSize(max) && |words1| >= WordSize(max') && |words1| >= 1
      requires Clean(words, max)
      requires forall k :: 0 <= k < WordSize(max) && k < WordSize(max') ==> words1[k] == words[k]
      requires forall k :: WordSize(max) <= k < WordSize(max') ==> words1[k] == 0
      ensures Clean(Cleared(words1, max'), max')
      ensures max' < 0 ==> Cleared(words1, max')[0] == 0
      ensures forall j :: 0 <= j <= max' ==> (BitAt(Cleared(words1, max'), j) <==> j <= max && BitAt(words, j))
    {
      hide And, Below, Bit;
      if max' >= 0 {
        forall j | 0 <= j < 32 * WordSize(max')
          ensures BitAt(Cleared(words1, max'), j) <==> j <= max' && j <= max && BitAt(words, j)
        {
          ClearedBits(words1, max', j);
          if j / 32 < WordSize(max) {
            assert words1[j / 32] == words[j / 32];
          } else {
            ZeroWord(words1, j);
          }
          assert BitAt(words1, j) <==> j / 32 < WordSize(max) && BitAt(words, j);
        }
      }
    }

    /** assign() */
    method Assign(n: nat, bit: bool) returns (inside: bool)
      requires Valid()
      modifies this, data
      ensures inside <==> !OneWordShort(old(data).Length, n)
      ensures max == n - 1 && (data == old(data) || fresh(data))
      ensures inside ==> Valid() && (n == 0 ==> data[0] == 0)
      ensures inside ==> forall j :: 0 <= j < n ==> Bits()[j] == bit
    {
      hide Bit, And, Below;
      if n >= max && n > 64 {
        data := new bv32[(n + 31) / 32](i => 0);
      }
      max := n - 1;
      if WordSize(max) > data.Length {
        return false;
      }
      var w: bv32 := if bit then 0xFFFF_FFFF else 0;
      for i := 0 to WordSize(max)
        invariant forall k :: 0 <= k < i ==> data[k] == w
        modifies data
      {
        data[i] := w;
      }
      ghost var words := data[..];
      ClearLast();
      if max >= 0 {
        forall j | 0 <= j < 32 * WordSize(max)
          ensures BitAt(data[..], j) <==> bit && j <= max
        {
          ClearedBits(words, max, j);
          assert words[j / 32] == w;
          OnesHasAll(j % 32);
          ZeroHasNone(j % 32);
        }
      }
      return true;
    }

    /** operator=: as many words as x has in use; an empty x leaves all words as they are. */
    method CopyFrom(x: Bitvector)
      requires Valid() && x.Valid() && (x == this || x.data != data)
      modifies this, data
      ensures Valid() && max == old(x.max) && Bits() == old(x.Bits()) && (data == old(data) || fresh(data))
      ensures data.Length == if WordSize(old(x.max)) > WordSize(old(max)) then WordSize(old(x.max)) else old(data).Length
      ensures old(x.max) < 0 ==> data[..] == old(data[..])
    {
      hide BitAt;
      ghost var xwords := x.data[..];
      var n := WordSize(x.max);
      if n > WordSize(max) {
        data := new bv32[n](i => 0);
      }
      for i := 0 to n
        invariant forall k :: 0 <= k < i ==> data[k] == xwords[k]
        invariant x == this || x.data[..] == xwords
        invariant x == this ==> data[..] == xwords
        invariant n == 0 ==> data[..] == old(data[..])
        modifies data
      {
        data[i] := x.data[i];
      }
      max := x.max;
      CopiedBits(xwords, data[..], max);
    }

    static lemma CopiedBits(xwords: seq<bv32>, words: seq<bv32>, max: int)
      requires max >= -1 && WordSize(max) <= |xwords| && WordSize(max) <= |words| && Clean(xwords, max)
      requires forall k :: 0 <= k < WordSize(max) ==> words[k] == xwords[k]
      ensures Clean(words, max) && BitsOf(words, max) == BitsOf(xwords, max)
    {
      hide Bit;
      forall j | 0 <= j < 32 * WordSize(max)
        ensures BitAt(words, j) <==> BitAt(xwords, j)
      {
        assert words[j / 32] == xwords[j / 32];
      }
    }

    /** operator|=: the vector grows to the size of the other. */
    method OrWith(x: Bitvector) returns (inside: bool)
      requires Valid() && x.Valid() && (x == this || x.data != data)
      modifies this, data
      ensures inside <==> !(old(x.max) > old(max) && OneWordShort(old(data).Length, old(x.max) + 1))
      ensures data == old(data) || fresh(data)
      ensures inside ==> Valid() && max == (if old(x.max) > old(max) then old(x.max) else old(max))
      ensures inside ==> forall j :: 0 <= j <= max ==>
                Bits()[j] == ((j < |old(Bits())| && old(Bits())[j]) || (j < |old(x.Bits())| && old(x.Bits())[j]))
    {
      if x.max > max {
        inside := Resize(x.max + 1);
        if !inside {
          return;
        }
      }
      OrSmaller(x);
      return true;
    }

    /** operator|= once the vector is as large as the other. */
    method OrSmaller(x: Bitvector)
      requires Valid() && x.Valid() && (x == this || x.data != data) && x.max <= max
      modifies data
      ensures Valid()
      ensures forall j :: 0 <= j <= max ==> Bits()[j] == (old(Bits())[j] || (j < |old(x.Bits())| && old(x.Bits())[j]))
    {
      hide Clean, BitAt, Or;
      ghost var words, xwords := data[..], x.data[..];
      var nn, xn := WordSize(max), WordSize(x.max);
      nn := if nn < xn then nn else xn;
      for i := 0 to nn
        invariant forall k :: 0 <= k < i ==> data[k] == Or(words[k], xwords[k])
        invariant forall k :: i <= k < data.Length ==> data[k] == words[k]
        invariant x != this ==> x.data[..] == xwords
      {
        data[i] := Or(data[i], x.data[i]);
      }
      OredBits(words, xwords, data[..], max, x.max, nn);
    }

    static lemma OredBits(words: seq<bv32>, xwords: seq<bv32>, words': seq<bv32>, max: int, xmax: int, nn: int)
      requires -1 <= xmax <= max && WordSize(max) <= |words| == |words'| && WordSize(xmax) <= |xwords|
      requires nn == WordSize(xmax) && Clean(words, max) && Clean(xwords, xmax)
      requires forall k :: 0 <= k < nn ==> words'[k] == Or(words[k], xwords[k])
      requires forall k :: nn <= k < |words| ==> words'[k] == words[k]
      ensures Clean(words', max)
      ensures forall j :: 0 <= j <= max ==> (BitAt(words', j) <==> BitAt(words, j) || (j <= xmax && BitAt(xwords, j)))
    {
      hide Or, Bit;
      forall j | 0 <= j < 32 * WordSize(max)
        ensures BitAt(words', j) <==> BitAt(words, j) || (j <= xmax && BitAt(xwords, j))
      {
        if j / 32 < nn {
          assert words'[j / 32] == Or(words[j / 32], xwords[j / 32]);
          BitOr(words[j / 32], xwords[j / 32], j % 32);
          assert BitAt(xwords, j) ==> j <= xmax;
        } else {
          assert words'[j / 32] == words[j / 32];
        }
      }
    }

    /** operator&= and operator^=, which demand equal sizes. */
    method Combine(x: Bitvector, xor: bool)
      requires Valid() && x.Valid() && (x == this || x.data != data) && x.max == max
      modifies data
      ensures Valid()
      ensures forall j :: 0 <= j <= max ==>
                Bits()[j] == if xor then old(Bits())[j] != old(x.Bits())[j] else old(Bits())[j] && old(x.Bits())[j]
    {
      hide And, Xor, Bit, Combined;
      ghost var words, xwords := data[..], x.data[..];
      for i := 0 to WordSize(max)
        invariant forall k :: 0 <= k < i ==> data[k] == Combined(words[k], xwords[k], xor)
        invariant forall k :: i <= k < data.Length ==> data[k] == words[k]
        invariant x != this ==> x.data[..] == xwords
      {
        data[i] := Combined(data[i], x.data[i], xor);
      }
      CombinedBits(words, xwords, data[..], max, xor);
    }

    static function Combined(w: bv32, v: bv32, xor: bool): bv32 {
      if xor then Xor(w, v) else And(w, v)
    }

    static lemma CombinedBits(words: seq<bv32>, xwords: seq<bv32>, words': seq<bv32>, max: int, xor: bool)
      requires max >= -1 && WordSize(max) <= |words| == |words'| && WordSize(max) <= |xwords|
      requires Clean(words, max) && Clean(xwords, max)
      requires forall k :: 0 <= k < WordSize(max) ==> words'[k] == Combined(words[k], xwords[k], xor)
      ensures Clean(words', max)
      ensures forall j :: 0 <= j <= max ==>
                (BitAt(words', j) <==> if xor then BitAt(words, j) != BitAt(xwords, j) else BitAt(words, j) && BitAt(xwords, j))
    {
      hide And, Xor, Bit;
      forall j | 0 <= j < 32 * WordSize(max)
        ensures BitAt(words', j) <==> if xor then BitAt(words, j) != BitAt(xwords, j) else BitAt(words, j) && BitAt(xwords, j)
      {
        assert words'[j / 32] == Combined(words[j / 32], xwords[j / 32], xor);
        BitXor(words[j / 32], xwords[j / 32], j % 32);
        BitAnd(words[j / 32], xwords[j / 32], j % 32);
      }
    }

    /** nonzero_intersection(), of vectors of any sizes. */
    method NonzeroIntersection(x: Bitvector) returns (r: bool)
      requires Valid() && x.Valid()
      ensures r <==> exists j :: 0 <= j < |Bits()| && j < |x.Bits()| && Bits()[j] && x.Bits()[j]
    {
      hide And, Bit;
      var nn, mine := WordSize(x.max), WordSize(max);
      nn := if nn > mine then mine else nn;
      for i := 0 to nn
        invariant forall k :: 0 <= k < i ==> And(data[k], x.data[k]) == 0
      {
        if And(data[i], x.data[i]) != 0 {
          ghost var b := SomeBit(And(data[i], x.data[i]));
          BitAnd(data[i], x.data[i], b);
          assert BitAt(data[..], 32 * i + b) && BitAt(x.data[..], 32 * i + b);
          assert Bits()[32 * i + b] && x.Bits()[32 * i + b];
          return true;
        }
      }
      forall j | 0 <= j < |Bits()| && j < |x.Bits()|
        ensures !(Bits()[j] && x.Bits()[j])
      {
        BitAnd(data[j / 32], x.data[j / 32], j % 32);
        ZeroHasNone(j % 32);
      }
      return false;
    }

    /** or_with_difference(): what is newly set goes into the difference. */
    method OrWithDifference(x: Bitvector, difference: Bitvector) returns (inside: bool)
      requires Valid() && x.Valid() && difference.Valid() && x.max == max
      requires difference != this && difference != x && (x == this || x.data != data)
      requires difference.data != data && difference.data != x.data
      modifies data, difference, difference.data
      ensures inside <==> !(old(difference.max) != max && OneWordShort(old(difference.data).Length, max + 1))
      ensures inside ==> Valid() && difference.Valid() && difference.max == max
      ensures inside ==> forall j :: 0 <= j <= max ==> Bits()[j] == (old(Bits())[j] || old(x.Bits())[j])
      ensures inside ==> forall j :: 0 <= j <= max ==> difference.Bits()[j] == (old(x.Bits())[j] && !old(Bits())[j])
    {
      hide Clean, BitAt;
      if difference.max != max {
        inside := difference.Resize(max + 1);
        if !inside {
          return;
        }
      }
      OrAlongside(x, difference);
      return true;
    }

    /** or_with_difference() once the difference has the right size. */
    method OrAlongside(x: Bitvector, difference: Bitvector)
      requires Valid() && x.Valid() && difference.Valid() && x.max == max == difference.max
      requires difference != this && difference != x && (x == this || x.data != data)
      requires difference.data != data && difference.data != x.data
      modifies data, difference.data
      ensures Valid() && difference.Valid()
      ensures forall j :: 0 <= j <= max ==> Bits()[j] == (old(Bits())[j] || old(x.Bits())[j])
      ensures forall j :: 0 <= j <= max ==> difference.Bits()[j] == (old(x.Bits())[j] && !old(Bits())[j])
    {
      hide Clean, BitAt, And, Or, Not;
      ghost var words, xwords := data[..], x.data[..];
      OrWords(x.data, difference.data, WordSize(max));
      OredBits(words, xwords, data[..], max, max, WordSize(max));
      DifferenceBits(words, xwords, difference.data[..], max);
    }

    /** The loop of or_with_difference(). */
    method OrWords(xData: array<bv32>, diffData: array<bv32>, nn: nat)
      requires nn <= data.Length && nn <= xData.Length && nn <= diffData.Length
      requires diffData != data && diffData != xData
      modifies data, diffData
      ensures forall k :: 0 <= k < nn ==> data[k] == Or(old(data[k]), old(xData[k])) && diffData[k] == And(old(xData[k]), Not(old(data[k])))
      ensures forall k :: nn <= k < data.Length ==> data[k] == old(data[k])
      ensures forall k :: nn <= k < diffData.Length ==> diffData[k] == old(diffData[k])
    {
      hide And, Or, Not;
      for i := 0 to nn
        invariant forall k :: 0 <= k < i ==> data[k] == Or(old(data[k]), old(xData[k])) && diffData[k] == And(old(xData[k]), Not(old(data[k])))
        invariant forall k :: i <= k < data.Length ==> data[k] == old(data[k])
        invariant forall k :: i <= k < diffData.Length ==> diffData[k] == old(diffData[k])
        invariant xData != data ==> forall k :: 0 <= k < xData.Length ==> xData[k] == old(xData[k])
      {
        diffData[i] := And(xData[i], Not(data[i]));
        data[i] := Or(data[i], xData[i]);
      }
    }

    static lemma DifferenceBits(words: seq<bv32>, xwords: seq<bv32>, diff: seq<bv32>, max: int)
      requires max >= -1 && WordSize(max) <= |words| && WordSize(max) <= |xwords| && WordSize(max) <= |diff|
      requires Clean(xwords, max)
      requires forall k :: 0 <= k < WordSize(max) ==> diff[k] == And(xwords[k], Not(words[k]))
      ensures Clean(diff, max)
      ensures forall j :: 0 <= j <= max ==> (BitAt(diff, j) <==> BitAt(xwords, j) && !BitAt(words, j))
    {
      hide And, Not, Bit;
      forall j | 0 <= j < 32 * WordSize(max)
        ensures BitAt(diff, j) <==> BitAt(xwords, j) && !BitAt(words, j)
      {
        assert diff[j / 32] == And(xwords[j / 32], Not(words[j / 32]));
        BitAnd(xwords[j / 32], Not(words[j / 32]), j % 32);
        BitNot(words[j / 32], j % 32);
      }
    }

    /** The word at the offset, which offset_or() touches in any case, is there but for an empty x at the very end. */
    lemma OffsetInside(x: Bitvector, offset: nat)
      requires Valid() && x.Valid() && offset + x.max <= max
      ensures offset / 32 < data.Length <==> !(x.max < 0 && offset == max + 1 == 32 * data.Length)
    {}

    /** What the documentation says: a loop over the single bits of x, every other bit kept. */
    static ghost predicate AsDocumented(words: seq<bv32>, max: int, xwords: seq<bv32>, xmax: int, offset: nat, after: seq<bv32>)
      requires max >= -1 && xmax >= -1 && WordSize(max) <= |after|
    {
      && Clean(after, max)
      && (forall j :: 0 <= j <= max ==>
            BitsOf(after, max)[j] == (BitsOf(words, max)[j] || (offset <= j <= offset + xmax && BitsOf(xwords, xmax)[j - offset])))
    }

    /** No bit that an empty x still has in its first word falls on a position that is not set. */
    static ghost predicate Harmless(words: seq<bv32>, max: int, xwords: seq<bv32>, xmax: int, offset: nat)
      requires max >= -1
    {
      xmax >= 0 || forall i :: 0 <= i < 32 && BitAt(xwords, i) && offset + i < 32 * WordSize(max) ==> BitAt(words, offset + i)
    }

    /** offset_or(): the bits of x, or of the first word of an empty x, from the offset on. */
    method OffsetOr(x: Bitvector, offset: nat) returns (inside: bool)
      requires Valid() && x.Valid() && (x == this || x.data != data) && offset + x.max <= max
      modifies data
      ensures inside <==> !(old(x.max) < 0 && offset == max + 1 == 32 * data.Length)
      ensures inside ==> forall j :: 0 <= j <= max ==>
                Bits()[j] == (old(Bits())[j] || (offset <= j <= offset + Reach(old(x.max)) && BitAt(old(x.data[..]), j - offset)))
      ensures inside ==> (Harmless(old(data[..]), max, old(x.data[..]), old(x.max), offset)
                          <==> AsDocumented(old(data[..]), max, old(x.data[..]), old(x.max), offset, data[..]))
    {
      hide BitAt, BitsOf, Clean, MergedWhole, WordSize, AsDocumented, Harmless;
      OffsetInside(x, offset);
      inside := offset / 32 < data.Length;
      if inside {
        ghost var words, xwords, xmax := data[..], x.data[..], x.max;
        MergeWords(x, offset);
        MergedBits(words, xwords, data[..], offset, max, Reach(xmax));
        MergedDocumented(words, xwords, data[..], offset, max, xmax);
      }
    }

    /** data[p] |= w */
    method OrInto(p: nat, w: bv32)
      requires p < data.Length
      modifies data
      ensures data[..] == old(data[..])[p := Or(old(data[p]), w)]
    {
      hide Or;
      data[p] := Or(data[p], w);
    }

    /** Both halves of a shifted word. */
    method OrShifted(p: nat, first: nat, val: bv32)
      requires p + 1 < data.Length && first < 32
      modifies data
      ensures data[..] == WithWord(old(data[..]), p, first, val)
    {
      hide Or, Shl, Shr;
      OrInto(p, Shl(val, first));
      if first != 0 {
        OrInto(p + 1, Shr(val, 32 - first));
      }
    }

    /** The word-shifting loop of offset_or(). */
    method MergeWords(x: Bitvector, offset: nat)
      requires Valid() && x.Valid() && (x == this || x.data != data)
      requires offset + x.max <= max && offset / 32 < data.Length
      modifies data
      ensures MergedWhole(old(data[..]), old(x.data[..]), data[..], offset, max, Reach(x.max))
    {
      hide BitAt, BitsOf, Clean, Merged, MergedWhole, Shl, WithWord, WordSize, Or;
      var first, myPos, xPos := offset % 32, offset / 32, 0;
      var myMax := if max < 0 then -1 else max / 32;
      var xMax := if x.max < 0 then -1 else x.max / 32;
      ghost var words, xwords, reach := data[..], x.data[..], Reach(x.max);
      MergedNone(words, xwords, offset);
      ReachClean(xwords, x.max);
      while true
        invariant 0 <= xPos <= reach / 32 && myPos == offset / 32 + xPos && myPos < data.Length
        invariant Merged(words, xwords, data[..], offset, xPos)
        invariant forall k :: xPos <= k < |xwords| ==> x.data[k] == xwords[k]
        decreases data.Length - myPos
      {
        var val := x.data[xPos];
        ghost var before := data[..];
        if myPos + 1 > myMax {
          OrInto(myPos, Shl(val, first));
          NothingLost(words, xwords, before, offset, xPos, max, reach, data[..]);
          break;
        }
        OrShifted(myPos, first, val);
        MergedNext(words, xwords, before, offset, xPos, data[..]);
        myPos, xPos := myPos + 1, xPos + 1;
        if xPos > xMax {
          MergedAll(words, xwords, data[..], offset, xPos, max, reach);
          break;
        }
      }
    }

    // ---- calls that go wrong ------------------------------------------------

    /** Ten bits copied into an empty vector, which then has one word; resized to 64 bits. */
    static method ResizeAfterCopy() returns (inside: bool)
      ensures !inside
    {
      hide Clean, BitsOf;
      var a := new Bitvector();
      var x := new Bitvector();
      var ok := x.Resize(10);
      a.CopyFrom(x);
      inside := a.Resize(64);
    }

    /** 96 bits in three words, and an empty vector at offset 96. */
    static method OffsetAtEnd() returns (inside: bool)
      ensures !inside
    {
      hide Clean, BitsOf;
      var a := new Bitvector();
      var x := new Bitvector();
      var ok := a.Resize(96);
      inside := a.OffsetOr(x, 96);
    }

    /** A true bit made empty by copying an empty vector: offset_or() still sets it. */
    static method EmptySetsBits() returns (a: Bitvector, x: Bitvector, ghost before: seq<bool>)
      ensures before == [false] && x.max == -1 && a.max == 0 && a.Bits() == [true]
    {
      hide Clean, BitAt;
      a := new Bitvector();
      x := new Bitvector();
      var none := new Bitvector();
      var ok := a.Resize(1);
      before := a.Bits();
      ok := x.Assign(1, true);
      assert x.Bits()[0] && BitAt(x.data[..], 0);
      x.CopyFrom(none);
      ok := a.OffsetOr(x, 0);
      assert a.Bits()[0];
    }
  }

  /** How far the bits of x reach: an empty one has its first word read. */
  function Reach(xmax: int): int {
    if xmax < 0 then 31 else xmax
  }

  lemma ReachClean(xwords: seq<bv32>, xmax: int)
    requires xmax >= -1 && 1 <= |xwords| && WordSize(xmax) <= |xwords| && Clean(xwords, xmax)
    ensures WordSize(Reach(xmax)) <= |xwords| && Clean(xwords, Reach(xmax))
  {}

  lemma SomeBit(w: bv32) returns (b: nat)
    requires w != 0
    ensures Bit(w, b) && b < 32
  {
    hide Bit;
    if forall i: nat :: i < 32 ==> !Bit(w, i) {
      NoneIsZero(w);
    }
    b :| b < 32 && Bit(w, b);
  }

  /** The bits of the first n words of x have been merged in, from offset on. */
  ghost predicate Merged(words: seq<bv32>, xwords: seq<bv32>, words': seq<bv32>, offset: nat, n: nat) {
    && |words'| == |words|
    && (forall j :: 0 <= j < 32 * |words| ==>
          (BitAt(words', j) <==> BitAt(words, j) || (j - offset < 32 * n && BitAt(xwords, j - offset))))
  }

  /** All bits of x have been merged in, as far as the vector goes. */
  ghost predicate MergedWhole(words: seq<bv32>, xwords: seq<bv32>, words': seq<bv32>, offset: nat, max: int, xmax: int)
    requires max >= -1
  {
    && |words'| == |words|
    && (forall j :: 0 <= j < 32 * WordSize(max) ==>
          (BitAt(words', j) <==> BitAt(words, j) || (j - offset <= xmax && BitAt(xwords, j - offset))))
  }

  lemma MergedNone(words: seq<bv32>, xwords: seq<bv32>, offset: nat)
    ensures Merged(words, xwords, words, offset, 0)
  {}

  lemma LowerHalf(words: seq<bv32>, p: nat, first: nat, val: bv32, j: int)
    requires p < |words| && first < 32 && 0 <= j < 32 * |words|
    ensures BitAt(words[p := Or(words[p], Shl(val, first))], j) <==> BitAt(words, j) || (j / 32 == p && HasBit(val, j - (32 * p + first)))
  {
    hide Or, Shl, Bit;
    if j / 32 == p {
      BitOr(words[p], Shl(val, first), j % 32);
      BitShl(val, first, j % 32);
    }
  }

  lemma UpperHalf(words: seq<bv32>, p: nat, first: nat, val: bv32, j: int)
    requires p < |words| && 0 < first < 32 && 0 <= j < 32 * |words|
    ensures BitAt(words[p := Or(words[p], Shr(val, 32 - first))], j) <==> BitAt(words, j) || (j / 32 == p && HasBit(val, j - (32 * (p - 1) + first)))
  {
    hide Or, Shr, Bit;
    if j / 32 == p {
      BitOr(words[p], Shr(val, 32 - first), j % 32);
      BitShr(val, 32 - first, j % 32);
    }
  }

  predicate HasBit(w: bv32, i: int) {
    0 <= i < 32 && Bit(w, i)
  }

  /** Both halves of a shifted word. */
  function WithWord(words: seq<bv32>, p: nat, first: nat, val: bv32): (r: seq<bv32>)
    requires p + 1 < |words| && first < 32
    ensures |r| == |words|
    ensures forall k :: 0 <= k < |words| && k != p && (k != p + 1 || first == 0) ==> r[k] == words[k]
  {
    var lower := words[p := Or(words[p], Shl(val, first))];
    if first != 0 then lower[p + 1 := Or(lower[p + 1], Shr(val, 32 - first))] else lower
  }

  lemma WholeWord(words: seq<bv32>, p: nat, first: nat, val: bv32, j: int)
    requires p + 1 < |words| && first < 32 && 0 <= j < 32 * |words|
    ensures BitAt(WithWord(words, p, first, val), j) <==> BitAt(words, j) || HasBit(val, j - (32 * p + first))
  {
    hide BitAt, Or, Shl, Shr, Bit;
    var lower := words[p := Or(words[p], Shl(val, first))];
    LowerHalf(words, p, first, val, j);
    if first != 0 {
      UpperHalf(lower, p + 1, first, val, j);
    }
  }

  lemma WordOfX(xwords: seq<bv32>, n: nat, i: int)
    requires n < |xwords|
    ensures HasBit(xwords[n], i - 32 * n) <==> i / 32 == n && BitAt(xwords, i)
  {
    hide Bit;
  }

  lemma MergedNext(words: seq<bv32>, xwords: seq<bv32>, before: seq<bv32>, offset: nat, n: nat, after: seq<bv32>)
    requires Merged(words, xwords, before, offset, n) && n < |xwords| && offset / 32 + n + 1 < |words|
    requires after == WithWord(before, offset / 32 + n, offset % 32, xwords[n])
    ensures Merged(words, xwords, after, offset, n + 1)
  {
    hide BitAt, WithWord;
    forall j | 0 <= j < 32 * |words|
      ensures BitAt(after, j) <==> BitAt(words, j) || (j - offset < 32 * (n + 1) && BitAt(xwords, j - offset))
    {
      WholeWord(before, offset / 32 + n, offset % 32, xwords[n], j);
      assert 32 * (offset / 32 + n) + offset % 32 == offset + 32 * n;
      WordOfX(xwords, n, j - offset);
    }
  }

  lemma MergedAll(words: seq<bv32>, xwords: seq<bv32>, after: seq<bv32>, offset: nat, n: nat, max: int, reach: int)
    requires Merged(words, xwords, after, offset, n) && max >= -1 && reach >= 0
    requires n == reach / 32 + 1 && n <= |xwords| && WordSize(max) <= |words| && Clean(xwords, reach)
    ensures MergedWhole(words, xwords, after, offset, max, reach)
  {
    hide Bit;
    forall j | 0 <= j < 32 * WordSize(max)
      ensures BitAt(after, j) <==> BitAt(words, j) || (j - offset <= reach && BitAt(xwords, j - offset))
    {
      assert BitAt(xwords, j - offset) && j - offset < 32 * n ==> j - offset <= reach;
    }
  }

  /** At the early exit the half word that is dropped, and every later word, falls past the words of the vector. */
  lemma NothingLost(words: seq<bv32>, xwords: seq<bv32>, before: seq<bv32>, offset: nat, n: nat, max: int, reach: int, after: seq<bv32>)
    requires Merged(words, xwords, before, offset, n) && n < |xwords| && offset / 32 + n < |words|
    requires after == before[offset / 32 + n := Or(before[offset / 32 + n], Shl(xwords[n], offset % 32))]
    requires max >= -1 && reach >= 0 && n <= reach / 32
    requires WordSize(max) <= |words| && WordSize(reach) <= |xwords| && Clean(xwords, reach)
    requires offset / 32 + n + 1 > if max < 0 then -1 else max / 32
    ensures MergedWhole(words, xwords, after, offset, max, reach)
  {
    hide BitAt, Or, Shl, Bit;
    forall j | 0 <= j < 32 * WordSize(max)
      ensures BitAt(after, j) <==> BitAt(words, j) || (j - offset <= reach && BitAt(xwords, j - offset))
    {
      LowerHalf(before, offset / 32 + n, offset % 32, xwords[n], j);
      assert 32 * (offset / 32 + n) + offset % 32 == offset + 32 * n;
      WordOfX(xwords, n, j - offset);
    }
  }

  lemma MergedBits(words: seq<bv32>, xwords: seq<bv32>, after: seq<bv32>, offset: nat, max: int, reach: int)
    requires max >= -1 && MergedWhole(words, xwords, after, offset, max, reach)
    ensures |after| == |words|
    ensures forall j :: 0 <= j <= max ==>
              BitsOf(after, max)[j] == (BitsOf(words, max)[j] || (offset <= j <= offset + reach && BitAt(xwords, j - offset)))
  {
    hide Bit;
  }

  /** The documented loop is what happens, and no bit past the size is set, exactly when the leftover bits are harmless. */
  lemma MergedDocumented(words: seq<bv32>, xwords: seq<bv32>, after: seq<bv32>, offset: nat, max: int, xmax: int)
    requires max >= -1 && xmax >= -1 && offset + xmax <= max && WordSize(max) <= |words|
    requires MergedWhole(words, xwords, after, offset, max, Reach(xmax)) && Clean(words, max)
    ensures |after| == |words|
    ensures Bitvector.Harmless(words, max, xwords, xmax, offset) <==> Bitvector.AsDocumented(words, max, xwords, xmax, offset, after)
  {
    hide Bit;
    if Bitvector.Harmless(words, max, xwords, xmax, offset) {
      forall j | 0 <= j < 32 * WordSize(max) && BitAt(after, j)
        ensures j <= max
      {
        assert xmax < 0 && !BitAt(words, j) ==> BitAt(xwords, j - offset);
      }
    }
    if Bitvector.AsDocumented(words, max, xwords, xmax, offset, after) && xmax < 0 {
      forall i | 0 <= i < 32 && BitAt(xwords, i) && offset + i < 32 * WordSize(max)
        ensures BitAt(words, offset + i)
      {
        var j := offset + i;
        assert BitAt(after, j);
        assert BitsOf(after, max)[j] == BitsOf(words, max)[j];
      }
    }
  }
}
