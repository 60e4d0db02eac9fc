/**
 The text form of IPv6 addresses (click/lib/ip6address.cc, with the dotted
 suffix of click/lib/ipaddress.cc): IP6Address::unparse, after RFC 5952, and
 IP6AddressArg::basic_parse.

 An address is its eight 16-bit groups, as numbers; names from AddressInfo are
 not part of this model.
 */
module IP6Text {
  import opened Wrappers

  const COLON: byte := 58
  const DOT: byte := 46

  type Group = g: int | 0 <= g < 0x1_0000

  // ---- numbers as text ----------------------------------------------------

  function HexDigit(v: nat): byte
    requires v < 16
  {
    if v < 10 then (48 + v) as byte else (87 + v) as byte
  }

  /** %x: lower case, no leading zeros. */
  function Hex(v: nat): (t: seq<byte>)
    ensures t != []
  {
    if v < 16 then [HexDigit(v)] else Hex(v / 16) + [HexDigit(v % 16)]
  }

  /** %d of a number that is not negative. */
  function Dec(v: nat): (t: seq<byte>)
    ensures t != []
  {
    if v < 10 then [(48 + v) as byte] else Dec(v / 10) + [(48 + v % 10) as byte]
  }

  predicate IsDigit(c: byte) {
    48 <= c <= 57
  }

  lemma HexLength(v: nat)
    requires v < 0x1_0000
    ensures |Hex(v)| <= 4
    ensures v < 0x1000 ==> |Hex(v)| <= 3
  {
    if v >= 16 {
      HexShort(v / 16);
    }
  }

  lemma HexShort(v: nat)
    requires v < 0x1000
    ensures |Hex(v)| <= 3
    ensures v < 0x100 ==> |Hex(v)| <= 2
  {
    if v >= 16 {
      assert v / 16 < 0x100;
      if v / 16 >= 16 {
        assert v / 16 / 16 < 16;
      }
    }
  }

  /** Groups i to j - 1, between colons. */
  function Groups(a: seq<Group>, i: nat, j: nat): (t: seq<byte>)
    requires i <= j <= |a|
    ensures i < j ==> t != []
    decreases j - i
  {
    if i == j then []
    else if i + 1 == j then Hex(a[i])
    else Hex(a[i]) + [COLON] + Groups(a, i + 1, j)
  }

  function Dotted(b: seq<byte>): seq<byte>
    requires |b| == 4
  {
    Dec(b[0] as nat) + [DOT] + Dec(b[1] as nat) + [DOT] + Dec(b[2] as nat) + [DOT] + Dec(b[3] as nat)
  }

  // ---- unparsing ----------------------------------------------------------

  predicate ZeroRun(a: seq<Group>, p: nat, n: nat) {
    p + n <= |a| && forall k :: p <= k < p + n ==> a[k] == 0
  }

  /** The first of the longest runs of zero groups; n is 0 when there are none. */
  ghost predicate FirstLongestRun(a: seq<Group>, p: nat, n: nat) {
    && ZeroRun(a, p, n)
    && (forall q: nat, m: nat :: ZeroRun(a, q, m) ==> m <= n)
    && (forall q: nat :: ZeroRun(a, q, n) && n > 0 ==> p <= q)
  }

  function Bytes(a: seq<Group>): seq<byte>
    requires |a| == 8
  {
    [(a[6] / 256) as byte, (a[6] % 256) as byte, (a[7] / 256) as byte, (a[7] % 256) as byte]
  }

  /** Addresses written with an IPv4 suffix, and the all-zero address. */
  predicate Special(a: seq<Group>)
    requires |a| == 8
  {
    ZeroRun(a, 0, 5) && (a[5] == 0 || a[5] == 0xFFFF)
  }

  /** The text of an address, given its first longest run of zeros. */
  function Text(a: seq<Group>, zp: nat, zl: nat): seq<byte>
    requires |a| == 8 && zp + zl <= 8
  {
    if Special(a) then
      if a[5] == 0xFFFF then [COLON, COLON] + Hex(0xFFFF) + [COLON] + Dotted(Bytes(a))
      else if a[6] == 0 && a[7] == 0 then [COLON, COLON]
      else [COLON, COLON] + Dotted(Bytes(a))
    else if zl > 1 then Groups(a, 0, zp) + [COLON, COLON] + Groups(a, zp + zl, 8)
    else Groups(a, 0, 8)
  }

  /** IP6Address::unparse() */
  method Unparse(a: seq<Group>) returns (sa: seq<byte>, ghost zp: nat, ghost zl: nat)
    requires |a| == 8
    ensures FirstLongestRun(a, zp, zl) && zp + zl <= 8
    ensures sa == Text(a, zp, zl)
  {
    hide Groups;
    var p0, l0 := LongestRun(a);
    zp, zl := p0, l0;
    sa := [];
    if a[0] == 0 && a[1] == 0 && a[2] == 0 && a[3] == 0 {
      if a[4] == 0 && a[5] == 0 && a[6] == 0 && a[7] == 0 {
        sa := [COLON, COLON];
        return;
      } else if a[4] == 0 && a[5] == 0 {
        sa := [COLON, COLON] + Dotted(Bytes(a));
        return;
      } else if a[4] == 0 && a[5] == 0xFFFF {
        sa := [COLON, COLON] + Hex(0xFFFF) + [COLON] + Dotted(Bytes(a));
        return;
      }
    }
    sa := Lay(a, p0, l0);
  }

  /** The run-tracking loop of unparse(). */
  method LongestRun(a: seq<Group>) returns (zp: nat, zl: nat)
    requires |a| == 8
    ensures FirstLongestRun(a, zp, zl)
  {
    zp, zl := 0, 0;
    var lzp := 0;
    for p := 0 to 8
      invariant 0 <= lzp <= p
      invariant ZeroRun(a, lzp, p - lzp) && (lzp == 0 || a[lzp - 1] != 0)
      invariant ZeroRun(a, zp, zl) && zp + zl <= p
      invariant forall q: nat, m: nat :: ZeroRun(a, q, m) && q + m <= p ==> m <= zl
      invariant forall q: nat :: ZeroRun(a, q, zl) && zl > 0 && q + zl <= p ==> zp <= q
    {
      if a[p] != 0 {
        lzp := p + 1;
      } else if p + 1 - lzp > zl {
        zp := lzp;
        zl := p + 1 - lzp;
      }
    }
  }

  /** The printing loop of unparse(). */
  method Lay(a: seq<Group>, zp: nat, zl: nat) returns (sa: seq<byte>)
    requires |a| == 8 && zp + zl <= 8
    ensures sa == if zl > 1 then Groups(a, 0, zp) + [COLON, COLON] + Groups(a, zp + zl, 8) else Groups(a, 0, 8)
  {
    sa := [];
    var p: nat := 0;
    while p < 8
      invariant p <= 8 && Laid(a, zp, zl, p, sa)
    {
      LaidNext(a, zp, zl, p, sa);
      if p == zp && zl > 1 {
        p := p + zl - 1;
        sa := sa + if p == 7 then [COLON, COLON] else [COLON];
      } else {
        sa := sa + (if p != 0 then [COLON] + Hex(a[p]) else Hex(a[p]));
      }
      p := p + 1;
    }
  }

  /** What has been printed before group p. */
  ghost predicate Laid(a: seq<Group>, zp: nat, zl: nat, p: nat, sa: seq<byte>)
    requires |a| == 8 && zp + zl <= 8 && p <= 8
  {
    if zl <= 1 || p <= zp then sa == Groups(a, 0, p)
    else
      && zp + zl <= p
      && sa == Groups(a, 0, zp) + (if p == zp + zl && p < 8 then [COLON] else [COLON, COLON]) + Groups(a, zp + zl, p)
  }

  lemma {:induction false} GroupsSnoc(a: seq<Group>, i: nat, j: nat)
    requires i <= j < |a|
    ensures Groups(a, i, j + 1) == if i == j then Hex(a[j]) else Groups(a, i, j) + ([COLON] + Hex(a[j]))
    decreases j - i
  {
    if i < j {
      GroupsSnoc(a, i + 1, j);
    }
  }

  lemma LaidNext(a: seq<Group>, zp: nat, zl: nat, p: nat, sa: seq<byte>)
    requires |a| == 8 && zp + zl <= 8 && p < 8 && Laid(a, zp, zl, p, sa)
    ensures if p == zp && zl > 1 then Laid(a, zp, zl, p + zl, sa + if p + zl == 8 then [COLON, COLON] else [COLON])
            else Laid(a, zp, zl, p + 1, sa + (if p != 0 then [COLON] + Hex(a[p]) else Hex(a[p])))
  {
    hide Hex, Groups;
    if zl <= 1 || p < zp {
      GroupsSnoc(a, 0, p);
      GroupsNone(a, 0);
      if p == 0 {
        assert sa + Hex(a[p]) == Hex(a[p]);
      }
    } else if p == zp {
      GroupsNone(a, zp + zl);
      var dots := if p + zl == 8 then [COLON, COLON] else [COLON];
      assert sa + dots + [] == sa + dots;
    } else {
      GroupsSnoc(a, zp + zl, p);
      LaidAfter(Groups(a, 0, zp), Groups(a, zp + zl, p), Hex(a[p]));
      GroupsNone(a, zp + zl);
    }
  }

  lemma GroupsNone(a: seq<Group>, i: nat)
    requires i <= |a|
    ensures Groups(a, i, i) == []
  {}

  lemma LaidAfter(front: seq<byte>, back: seq<byte>, hex: seq<byte>)
    ensures front + [COLON] + [] + ([COLON] + hex) == front + [COLON, COLON] + hex
    ensures front + [COLON, COLON] + back + ([COLON] + hex) == front + [COLON, COLON] + (back + ([COLON] + hex))
  {
    assert [COLON] + [COLON] == [COLON, COLON];
  }

  /** No call of snprintf() is cut short: 5 characters for a group, 23 for a dotted address. */
  lemma NeverTruncated(a: seq<Group>, p: nat)
    requires |a| == 8 && p < 8
    ensures |[COLON] + Hex(a[p])| <= 5
    ensures |[COLON, COLON] + Hex(0xFFFF) + [COLON] + Dotted(Bytes(a))| <= 23
  {
    HexLength(a[p]);
    HexLength(0xFFFF);
    forall k | 0 <= k < 4
      ensures |Dec(Bytes(a)[k] as nat)| <= 3
    {
      DecLength(Bytes(a)[k]);
    }
  }

  lemma DecLength(b: byte)
    ensures |Dec(b as nat)| <= 3
  {
    var v := b as nat;
    var w := v / 10;
    assert w < 26 && w / 10 < 10;
    assert |Dec(w / 10)| == 1;
    assert |Dec(w)| <= 2;
  }

  // ---- the style of RFC 5952 ----------------------------------------------

  predicate LowerCase(c: byte) {
    IsDigit(c) || 97 <= c <= 102 || c == COLON || c == DOT
  }

  ghost predicate AllLower(t: seq<byte>) {
    forall k :: 0 <= k < |t| ==> LowerCase(t[k])
  }

  /** Sections 4.1 and 4.3: no leading zeros, lower case. */
  lemma {:induction false} HexStyle(v: nat)
    ensures AllLower(Hex(v)) && (v > 0 ==> Hex(v)[0] != 48) && (v == 0 ==> Hex(v) == [48])
    decreases v
  {
    if v >= 16 {
      HexStyle(v / 16);
    }
  }

  lemma {:induction false} DecStyle(v: nat)
    ensures AllLower(Dec(v)) && (v > 0 ==> Dec(v)[0] != 48) && (v == 0 ==> Dec(v) == [48])
    decreases v
  {
    if v >= 10 {
      DecStyle(v / 10);
    }
  }

  lemma {:induction false} GroupsLower(a: seq<Group>, i: nat, j: nat)
    requires i <= j <= |a|
    ensures AllLower(Groups(a, i, j))
    decreases j - i
  {
    hide Hex;
    if i < j {
      HexStyle(a[i]);
      GroupsLower(a, i + 1, j);
    }
  }

  /** No address is printed with a capital letter. */
  lemma TextLower(a: seq<Group>, zp: nat, zl: nat)
    requires |a| == 8 && zp + zl <= 8
    ensures AllLower(Text(a, zp, zl))
  {
    hide Hex, Dec, Groups;
    HexStyle(0xFFFF);
    forall k | 0 <= k < 4
      ensures AllLower(Dec(Bytes(a)[k] as nat))
    {
      DecStyle(Bytes(a)[k] as nat);
    }
    GroupsLower(a, 0, zp);
    GroupsLower(a, zp + zl, 8);
    GroupsLower(a, 0, 8);
  }
}
