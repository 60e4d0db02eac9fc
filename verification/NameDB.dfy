/**
 DynamicNameDB (click/lib/nameinfo.cc): a table of names and fixed-size values
 that is searched linearly at first and, after some twenty searches without a
 change, sorted and searched by halving.  To its callers it is a plain map.
 */
module NameDB {
  import opened Wrappers
  import opened Strings
  import Sorting

  // ---- fixed-size values in one run of bytes ------------------------------

  lemma {:induction false} ChunksBelow(i: nat, j: nat, size: nat)
    requires i <= j
    ensures 0 <= i * size <= j * size
    decreases j
  {
    if i < j {
      ChunksBelow(i, j - 1, size);
      assert j * size == (j - 1) * size + size;
    }
  }

  lemma ChunkBounds(i: nat, n: nat, size: nat)
    requires i < n
    ensures 0 <= i * size <= (i + 1) * size <= n * size
    ensures (i + 1) * size == i * size + size
  {
    ChunksBelow(i + 1, n, size);
    ChunksBelow(i, i + 1, size);
  }

  /** The i-th of n values. */
  function Chunk(values: seq<byte>, size: nat, n: nat, i: nat): (c: seq<byte>)
    requires |values| == n * size && i < n
    ensures |c| == size
  {
    ChunkBounds(i, n, size);
    values[i * size..(i + 1) * size]
  }

  /** memcpy over the i-th value. */
  function WithChunk(values: seq<byte>, size: nat, n: nat, i: nat, value: seq<byte>): (r: seq<byte>)
    requires |values| == n * size && i < n && |value| == size
    ensures |r| == |values|
  {
    ChunkBounds(i, n, size);
    values[..i * size] + value + values[(i + 1) * size..]
  }

  lemma WithChunkReads(values: seq<byte>, size: nat, n: nat, i: nat, value: seq<byte>, j: nat)
    requires |values| == n * size && i < n && j < n && |value| == size
    ensures Chunk(WithChunk(values, size, n, i, value), size, n, j) == if j == i then value else Chunk(values, size, n, j)
  {
    ChunkBounds(i, n, size);
    ChunkBounds(j, n, size);
    if j < i {
      ChunksBelow(j + 1, i, size);
    } else if i < j {
      ChunksBelow(i + 1, j, size);
    }
    Spliced(values, i * size, (i + 1) * size, value, j * size, (j + 1) * size);
  }

  lemma Spliced(s: seq<byte>, lo: nat, hi: nat, t: seq<byte>, from: nat, to: nat)
    requires lo <= hi <= |s| && |t| == hi - lo && from <= to <= |s|
    ensures (to <= lo || hi <= from) ==> (s[..lo] + t + s[hi..])[from..to] == s[from..to]
    ensures (s[..lo] + t + s[hi..])[lo..hi] == t
  {}

  lemma AppendReads(values: seq<byte>, size: nat, n: nat, value: seq<byte>, j: nat)
    requires |values| == n * size && j <= n && |value| == size
    ensures |values + value| == (n + 1) * size
    ensures Chunk(values + value, size, n + 1, j) == if j == n then value else Chunk(values, size, n, j)
  {
    assert (n + 1) * size == n * size + size;
    ChunkBounds(j, n + 1, size);
    if j < n {
      ChunkBounds(j, n, size);
    }
  }

  // ---- the table as a map -------------------------------------------------

  ghost predicate Distinct(names: seq<string>) {
    forall i, j :: 0 <= i < j < |names| ==> names[i] != names[j]
  }

  ghost predicate InOrder(names: seq<string>) {
    forall i, j :: 0 <= i < j < |names| ==> Compare(names[i], names[j]) < 0
  }

  ghost function Index(names: seq<string>, name: string): (i: nat)
    requires name in names
    ensures i < |names| && names[i] == name
  {
    var i :| 0 <= i < |names| && names[i] == name;
    i
  }

  ghost function ViewOf(names: seq<string>, values: seq<byte>, size: nat): map<string, seq<byte>>
    requires |values| == |names| * size
  {
    map name | name in names :: Chunk(values, size, |names|, Index(names, name))
  }

  lemma ViewAt(names: seq<string>, values: seq<byte>, size: nat, i: nat)
    requires |values| == |names| * size && Distinct(names) && i < |names|
    ensures names[i] in ViewOf(names, values, size)
    ensures ViewOf(names, values, size)[names[i]] == Chunk(values, size, |names|, i)
  {}

  /** Two tables that hold the same names with the same values are the same map. */
  lemma SameView(names: seq<string>, values: seq<byte>, names': seq<string>, values': seq<byte>, size: nat, from: seq<nat>)
    requires |values| == |names| * size && |values'| == |names'| * size
    requires Distinct(names) && Distinct(names') && |from| == |names'|
    requires forall i :: 0 <= i < |names'| ==>
               from[i] < |names| && names'[i] == names[from[i]]
               && Chunk(values', size, |names'|, i) == Chunk(values, size, |names|, from[i])
    requires forall name :: name in names ==> name in names'
    ensures ViewOf(names', values', size) == ViewOf(names, values, size)
  {
    forall name | name in names'
      ensures name in names && ViewOf(names', values', size)[name] == ViewOf(names, values, size)[name]
    {
      var i := Index(names', name);
      ViewAt(names', values', size, i);
      ViewAt(names, values, size, from[i]);
    }
  }

  /** One more name is one more key; every other keeps its value. */
  lemma Appended(names: seq<string>, values: seq<byte>, size: nat, name: string, value: seq<byte>)
    requires |values| == |names| * size && Distinct(names) && name !in names && |value| == size
    ensures |values + value| == |names + [name]| * size
    ensures Distinct(names + [name])
    ensures ViewOf(names + [name], values + value, size) - {name} == ViewOf(names, values, size)
  {
    AppendReads(values, size, |names|, value, |names|);
    var names' := names + [name];
    forall other | other in names
      ensures ViewOf(names', values + value, size)[other] == ViewOf(names, values, size)[other]
    {
      var i := Index(names, other);
      assert names'[i] == other;
      ViewAt(names', values + value, size, i);
      AppendReads(values, size, |names|, value, i);
    }
  }

  lemma Overwritten(names: seq<string>, values: seq<byte>, size: nat, i: nat, value: seq<byte>)
    requires |values| == |names| * size && Distinct(names) && i < |names| && |value| == size
    ensures ViewOf(names, WithChunk(values, size, |names|, i, value), size)
         == ViewOf(names, values, size)[names[i] := value]
  {
    forall name | name in names
      ensures ViewOf(names, WithChunk(values, size, |names|, i, value), size)[name]
           == ViewOf(names, values, size)[names[i] := value][name]
    {
      WithChunkReads(values, size, |names|, i, value, Index(names, name));
    }
  }

  lemma NotAbove(names: seq<string>, name: string, m: nat)
    requires InOrder(names) && m < |names| && Compare(name, names[m]) < 0
    ensures name !in names[m..]
  {
    forall k | m <= k < |names|
      ensures names[k] != name
    {
      if m < k {
        CompareTransitive(name, names[m], names[k]);
      }
      CompareFlip(name, names[m]);
      CompareZero(name, names[m]);
    }
  }

  lemma NotBelow(names: seq<string>, name: string, m: nat)
    requires InOrder(names) && m < |names| && Compare(name, names[m]) > 0
    ensures name !in names[..m + 1]
  {
    forall k | 0 <= k <= m
      ensures names[k] != name
    {
      CompareFlip(name, names[m]);
      CompareZero(name, names[m]);
    }
  }

  // ---- sorting by name ----------------------------------------------------

  function NameAt(names: seq<string>, i: int): string {
    if 0 <= i < |names| then names[i] else []
  }

  /** namelist_sort_compar */
  function ByName(names: seq<string>): Sorting.Comparator<int> {
    (a: int, b: int) => Compare(NameAt(names, a), NameAt(names, b))
  }

  lemma ByNameOrders(names: seq<string>)
    ensures Sorting.TotalPreorder(ByName(names))
  {
    var cmp := ByName(names);
    forall a: int, b: int
      ensures cmp(a, b) < 0 <==> cmp(b, a) > 0
    {
      CompareFlip(NameAt(names, a), NameAt(names, b));
    }
    forall a: int, b: int, c: int | cmp(a, b) <= 0 && cmp(b, c) <= 0
      ensures cmp(a, c) <= 0
    {
      CompareTransitive(NameAt(names, a), NameAt(names, b), NameAt(names, c));
    }
  }

  function Itself(i: int): int { i }

  ghost predicate Orders(names: seq<string>, perm: seq<int>) {
    && (forall i :: 0 <= i < |perm| ==> 0 <= perm[i] < |names|)
    && (forall k :: 0 <= k < |names| ==> k in perm)
    && (forall i, j :: 0 <= i < j < |perm| ==> Compare(names[perm[i]], names[perm[j]]) < 0)
  }

  /** What the sorted list of indices is: each index once, in the order of the names. */
  lemma SortedIndices(names: seq<string>, before: seq<int>, perm: seq<int>)
    requires Distinct(names) && |before| == |perm| == |names|
    requires forall i :: 0 <= i < |before| ==> before[i] == i
    requires Sorting.Permuted(before, perm, 0, |before|)
    requires Sorting.SortedBetween(ByName(names), perm, 0, |perm|)
    ensures Orders(names, perm)
  {
    var n := |names|;
    forall i | 0 <= i < n
      ensures 0 <= perm[i] < n
    {
      var i' := Sorting.PermutedSource(before, perm, 0, n, i);
    }
    Sorting.PermutedBack(before, perm, 0, n);
    forall k | 0 <= k < n
      ensures k in perm
    {
      var k' := Sorting.PermutedSource(perm, before, 0, n, k);
    }
    assert before[0..n] == before && perm[0..n] == perm;
    Sorting.KeysStayDistinct(before, perm, Itself);
    forall i, j | 0 <= i < j < n
      ensures Compare(names[perm[i]], names[perm[j]]) < 0
    {
      assert Itself(perm[i]) != Itself(perm[j]);
      assert ByName(names)(perm[i], perm[j]) <= 0;
      CompareZero(names[perm[i]], names[perm[j]]);
    }
  }

  /** Names and values moved along the ordering permutation: sorted, and the same map. */
  lemma Reordered(names: seq<string>, values: seq<byte>, names': seq<string>, values': seq<byte>, size: nat, perm: seq<int>)
    requires |perm| == |names| == |names'| && |values| == |names| * size && |values'| == |names'| * size
    requires Distinct(names) && [] !in names && Orders(names, perm)
    requires forall i :: 0 <= i < |perm| ==> names'[i] == names[perm[i]]
    requires forall i :: 0 <= i < |perm| ==> Chunk(values', size, |names'|, i) == Chunk(values, size, |names|, perm[i])
    ensures Distinct(names') && InOrder(names') && [] !in names'
    ensures ViewOf(names', values', size) == ViewOf(names, values, size)
  {
    forall i, j | 0 <= i < j < |names'|
      ensures names'[i] != names'[j]
    {
      assert Compare(names[perm[i]], names[perm[j]]) < 0;
      CompareZero(names'[i], names'[j]);
    }
    forall name | name in names
      ensures name in names'
    {
      var k := Index(names, name);
      assert k in perm;
      var i :| 0 <= i < |perm| && perm[i] == k;
      assert names'[i] == name;
    }
    var from := seq(|perm|, i requires 0 <= i < |perm| => perm[i] as nat);
    SameView(names, values, names', values', size, from);
  }

  /** The first i values have been copied along the permutation. */
  ghost predicate Copied(values': seq<byte>, i: nat, values: seq<byte>, n: nat, size: nat, perm: seq<int>) {
    && |values'| == i * size && |values| == n * size && i <= |perm|
    && (forall k :: 0 <= k < |perm| ==> 0 <= perm[k] < n)
    && (forall k :: 0 <= k < i ==> Chunk(values', size, i, k) == Chunk(values, size, n, perm[k]))
  }

  lemma CopyNone(values: seq<byte>, n: nat, size: nat, perm: seq<int>)
    requires |values| == n * size && (forall k :: 0 <= k < |perm| ==> 0 <= perm[k] < n)
    ensures Copied([], 0, values, n, size, perm)
  {}

  lemma CopyOne(values': seq<byte>, i: nat, values: seq<byte>, n: nat, size: nat, perm: seq<int>)
    requires Copied(values', i, values, n, size, perm) && i < |perm|
    ensures Copied(values' + Chunk(values, size, n, perm[i]), i + 1, values, n, size, perm)
  {
    var value := Chunk(values, size, n, perm[i]);
    forall k | 0 <= k <= i
      ensures |values' + value| == (i + 1) * size
      ensures Chunk(values' + value, size, i + 1, k) == Chunk(values, size, n, perm[k])
    {
      AppendReads(values', size, i, value, k);
    }
  }

  lemma CopiedReads(values': seq<byte>, i: nat, values: seq<byte>, n: nat, size: nat, perm: seq<int>)
    requires Copied(values', i, values, n, size, perm)
    ensures |values'| == i * size
    ensures forall k :: 0 <= k < i ==> Chunk(values', size, i, k) == Chunk(values, size, n, perm[k])
  {}

  class DynamicNameDB {
    const valueSize: nat
    var names: seq<string>
    var values: seq<byte>
    var sorted: int

    /** _sorted counts searches since the last change; 100 stands for "sorted". */
    ghost predicate Valid()
      reads this
    {
      && |values| == |names| * valueSize
      && Distinct(names)
      && [] !in names
      && (sorted == 100 ==> InOrder(names))
    }

    ghost function View(): map<string, seq<byte>>
      requires Valid()
      reads this
    {
      ViewOf(names, values, valueSize)
    }

    constructor (valueSize: nat)
      ensures Valid() && View() == map[] && this.valueSize == valueSize
    {
      this.valueSize := valueSize;
      names, values, sorted := [], [], 0;
    }

    /** sort(): a no-op on an empty table, which leaves the counter alone. */
    method Sort()
      requires Valid() && |names| < Sorting.Pow2(64)
      modifies this
      ensures Valid() && View() == old(View())
      ensures names != [] ==> sorted == 100
      ensures old(names) == [] ==> names == [] && values == old(values) && sorted == old(sorted)
      ensures |names| == |old(names)|
    {
      hide Orders, ViewOf, Chunk, Sorting.Pow2;
      if sorted == 100 || |names| == 0 {
        return;
      }
      var permutation := SortedPermutation();
      var newNames, newValues := Rearranged(permutation);
      Reordered(names, values, newNames, newValues, valueSize, permutation[..]);
      names, values, sorted := newNames, newValues, 100;
    }

    /** The indices of the names, in the order of the names. */
    method SortedPermutation() returns (permutation: array<int>)
      requires Distinct(names) && |names| < Sorting.Pow2(64)
      ensures fresh(permutation) && permutation.Length == |names|
      ensures Orders(names, permutation[..])
    {
      hide Sorting.TotalPreorder, Sorting.Orders, Sorting.Always, Orders, ByName;
      var n := |names|;
      permutation := new int[n](i => i);
      ghost var before := permutation[..];
      ByNameOrders(names);
      Sorting.AlwaysOrders(ByName(names));
      var q := new Sorting.Asker(Sorting.Always(ByName(names)));
      Sorting.Qsort(permutation, 0, n, q, ByName(names), 64);
      SortedIndices(names, before, permutation[..]);
    }

    /** find(): where the name is; create appends a name that is missing and not empty. */
    method Find(name: string, create: bool) returns (at: Option<nat>)
      requires Valid() && |names| < Sorting.Pow2(64)
      modifies this
      ensures Valid()
      ensures at.None? <==> name !in old(View()) && (!create || name == [])
      ensures at.Some? ==> at.value < |names| && names[at.value] == name
      ensures name in old(View()) || at.None? ==> View() == old(View())
      ensures at.Some? && name !in old(View()) ==> View() - {name} == old(View())
    {
      if sorted > 20 {
        Sort();
      }
      var found := None;
      if sorted == 100 {
        found := HalvingSearch(name);
      } else {
        // Past 20 only an empty table is still unsorted, and 100 is true of it too.
        sorted := sorted + 1;
        found := LinearSearch(name);
      }
      at := found;
      if found.None? && create && name != [] {
        at := Some(|names|);
        Append(name);
      }
    }

    method HalvingSearch(name: string) returns (at: Option<nat>)
      requires Valid() && InOrder(names)
      ensures at.None? <==> name !in names
      ensures at.Some? ==> at.value < |names| && names[at.value] == name
    {
      var l: nat, r: nat := 0, |names|;
      while l < r
        invariant l <= r <= |names|
        invariant name !in names[..l] && name !in names[r..]
      {
        var m := l + (r - l) / 2;
        var cmp := Compare(name, names[m]);
        CompareZero(name, names[m]);
        if cmp == 0 {
          return Some(m);
        } else if cmp < 0 {
          NotAbove(names, name, m);
          r := m;
        } else {
          NotBelow(names, name, m);
          l := m + 1;
        }
      }
      assert names == names[..l] + names[r..];
      at := None;
    }

    method LinearSearch(name: string) returns (at: Option<nat>)
      ensures at.None? <==> name !in names
      ensures at.Some? ==> at.value < |names| && names[at.value] == name
    {
      for i := 0 to |names|
        invariant name !in names[..i]
      {
        if name == names[i] {
          return Some(i);
        }
      }
      assert names[..|names|] == names;
      at := None;
    }

    /** The creating end of find(): the new value's bytes are whatever was there. */
    method Append(name: string)
      requires Valid() && name !in names && name != []
      modifies this
      ensures Valid() && names == old(names) + [name]
      ensures View() - {name} == old(View())
    {
      var value := seq(valueSize, i => 0);
      Appended(names, values, valueSize, name, value);
      sorted := 0;
      names := names + [name];
      values := values + value;
    }

    /** query(): a plain map lookup, whatever the table does to itself meanwhile. */
    method Query(name: string) returns (value: Option<seq<byte>>)
      requires Valid() && |names| < Sorting.Pow2(64)
      modifies this
      ensures Valid() && View() == old(View())
      ensures value == if name in View() then Some(View()[name]) else None
    {
      var at := Find(name, false);
      if at.None? {
        return None;
      }
      ViewAt(names, values, valueSize, at.value);
      value := Some(Chunk(values, valueSize, |names|, at.value));
    }

    lemma EmptyNotDefined()
      requires Valid()
      ensures [] !in View()
    {}

    /** define(): a plain map update, refused for the empty name alone. */
    method Define(name: string, value: seq<byte>) returns (done: bool)
      requires Valid() && |names| < Sorting.Pow2(64) && |value| == valueSize
      modifies this
      ensures Valid() && done == (name != [])
      ensures View() == if done then old(View())[name := value] else old(View())
    {
      hide InOrder, Distinct, ViewOf, WithChunk, Chunk;
      EmptyNotDefined();
      var at := Find(name, true);
      if at.None? {
        return false;
      }
      ghost var before := View();
      Overwritten(names, values, valueSize, at.value, value);
      values := WithChunk(values, valueSize, |names|, at.value, value);
      assert View() == before[name := value];
      return true;
    }

    /** revquery(): the first name, in the table's present order, that has the value. */
    method Revquery(value: seq<byte>) returns (name: string)
      requires Valid() && |value| == valueSize
      ensures name == [] <==> value !in View().Values
      ensures name != [] ==> name in View() && View()[name] == value
    {
      for i := 0 to |names|
        invariant forall k :: 0 <= k < i ==> Chunk(values, valueSize, |names|, k) != value
      {
        if Chunk(values, valueSize, |names|, i) == value {
          ViewAt(names, values, valueSize, i);
          return names[i];
        }
      }
      return [];
    }

    /** The copying loop of sort(). */
    method Rearranged(permutation: array<int>) returns (newNames: seq<string>, newValues: seq<byte>)
      requires |values| == |names| * valueSize && permutation.Length == |names| && Orders(names, permutation[..])
      ensures |newNames| == |names| && |newValues| == |newNames| * valueSize
      ensures forall i :: 0 <= i < |names| ==> newNames[i] == names[permutation[i]]
      ensures forall i :: 0 <= i < |names| ==>
                Chunk(newValues, valueSize, |newNames|, i) == Chunk(values, valueSize, |names|, permutation[i])
    {
      hide Chunk, Copied;
      CopyNone(values, |names|, valueSize, permutation[..]);
      assert forall i :: 0 <= i < permutation.Length ==> 0 <= permutation[..][i] < |names|;
      newNames, newValues := [], [];
      for i := 0 to permutation.Length
        invariant |newNames| == i
        invariant forall k :: 0 <= k < i ==> newNames[k] == names[permutation[k]]
        invariant Copied(newValues, i, values, |names|, valueSize, permutation[..])
      {
        var m := permutation[i];
        var value := Chunk(values, valueSize, |names|, m);
        CopyOne(newValues, i, values, |names|, valueSize, permutation[..]);
        newNames := newNames + [names[m]];
        newValues := newValues + value;
      }
      CopiedReads(newValues, permutation.Length, values, |names|, valueSize, permutation[..]);
    }
  }
}
