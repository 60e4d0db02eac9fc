/**
 Reading IPv6 addresses (click/lib/ip6address.cc, IP6AddressArg::basic_parse;
 click/lib/ipaddress.cc, IPAddressArg::basic_parse), and the round trip with
 IP6Address::unparse.
 */
module IP6Parse {
  import opened Wrappers
  import opened IP6Text
  import Quoting

  // ---- dotted addresses ---------------------------------------------------

  function Decimal(str: seq<byte>, t: nat, part: nat): (r: (nat, nat))
    requires t <= |str|
    ensures t <= r.0 <= |str|
    decreases |str| - t
  {
    if t < |str| && IsDigit(str[t]) && part <= 255 then Decimal(str, t + 1, part * 10 + (str[t] as nat - 48)) else (t, part)
  }

  /** From the d-th part on: where reading stops, and all the parts read. */
  function Parts(str: seq<byte>, s: nat, value: seq<byte>): (r: (nat, seq<byte>))
    requires s <= |str|
    ensures r.0 <= |str|
    decreases 4 - |value|
  {
    if |value| < 4 && s < |str| && (value == [] || str[s] == DOT) then
      var t := if value == [] then s else s + 1;
      if t == |str| || !IsDigit(str[t]) then (s, value)
      else
        var part := Decimal(str, t + 1, str[t] as nat - 48);
        if part.1 > 255 then (s, value) else Parts(str, part.0, value + [part.1 as byte])
    else (s, value)
  }

  /** IPAddressArg::parse() on numeric text. */
  function Parse4(str: seq<byte>): (v: Option<seq<byte>>)
    ensures v.Some? ==> |v.value| == 4
  {
    var r := Parts(str, 0, []);
    if r.0 == |str| && |r.1| == 4 then Some(r.1) else None
  }

  method ReadDecimal(str: seq<byte>, start: nat) returns (t: nat, part: nat)
    requires start < |str| && IsDigit(str[start])
    ensures (t, part) == Decimal(str, start + 1, str[start] as nat - 48)
  {
    t, part := start + 1, str[start] as nat - 48;
    while t != |str| && IsDigit(str[t]) && part <= 255
      invariant start < t <= |str| && Decimal(str, t, part) == Decimal(str, start + 1, str[start] as nat - 48)
    {
      part := part * 10 + (str[t] as nat - 48);
      t := t + 1;
    }
  }

  /** IPAddressArg::basic_parse(): nbytes is the number of parts; the rest of value stays zero. */
  method BasicParse4(str: seq<byte>) returns (s: nat, value: seq<byte>)
    ensures s == Parts(str, 0, []).0 && value == Parts(str, 0, []).1
  {
    hide Decimal;
    s, value := 0, [];
    while |value| < 4 && s != |str| && (|value| == 0 || str[s] == DOT)
      invariant s <= |str| && Parts(str, s, value) == Parts(str, 0, [])
      decreases 4 - |value|
    {
      var t := if |value| == 0 then s else s + 1;
      if t == |str| || !IsDigit(str[t]) {
        break;
      }
      var part;
      t, part := ReadDecimal(str, t);
      if part > 255 {
        break;
      }
      s := t;
      value := value + [part as byte];
      if |value| == 4 {
        break;
      }
    }
  }

  // ---- scanning groups ----------------------------------------------------

  /** The variables of basic_parse(): position, group, digits of it, the group of the `::`, and the groups. */
  datatype Scan = Scan(s: nat, d: nat, p: nat, coloncolon: Option<nat>, parts: seq<Group>)

  ghost predicate Inside(st: Scan) {
    && |st.parts| == 8 && st.d <= 8
    && (st.d == 8 ==> st.p == 0 && st.coloncolon == Some(7))
    && (st.coloncolon.Some? ==> st.coloncolon.value < st.d)
  }

  /** How scanning ends; None when it would store a digit behind the eighth group. */
  function Run(str: seq<byte>, st: Scan): (r: Option<Scan>)
    requires Inside(st)
    ensures r.Some? ==> |r.value.parts| == 8 && (r.value.d <= 7 || (r.value.d == 8 && r.value.p == 0))
    ensures r.Some? && r.value.coloncolon.Some? ==> r.value.coloncolon.value < r.value.d
    decreases |str| - st.s
  {
    if st.s >= |str| then Some(st)
    else
      var c := str[st.s];
      if Quoting.HexValue(c).Some? then
        if st.p == 4 then Some(st)
        else if st.d > 7 then None
        else Run(str, Read(st, Quoting.HexValue(c).value))
      else if c == COLON && st.s + 1 != |str| && st.d != 7 && (st.p != 0 || st.d == 0) then
        if str[st.s + 1] == COLON && st.coloncolon.None? then
          Run(str, Skip(st))
        else if Quoting.HexValue(str[st.s + 1]).None? || st.p == 0 then
          Some(st.(d := st.d + 1))
        else
          Run(str, st.(s := st.s + 1, d := st.d + 1, p := 0))
      else Some(st)
  }

  function Read(st: Scan, digit: nat): (r: Scan)
    requires Inside(st) && st.d <= 7 && digit < 16
    ensures Inside(r)
  {
    var value := if st.p != 0 then (st.parts[st.d] * 16 + digit) % 0x1_0000 else digit;
    st.(s := st.s + 1, p := st.p + 1, parts := st.parts[st.d := value])
  }

  function Skip(st: Scan): (r: Scan)
    requires Inside(st) && st.d < 7 && st.coloncolon.None?
    ensures Inside(r)
  {
    var at := if st.p != 0 then st.d + 1 else st.d;
    Scan(st.s + 2, at + 1, 0, Some(at), st.parts[at := 0])
  }

  /** The last colon at or before i, or the beginning. */
  function ColonBefore(str: seq<byte>, i: nat): (t: nat)
    requires i < |str|
    ensures t <= i && (t == 0 || str[t] == COLON)
  {
    if i == 0 || str[i] == COLON then i else ColonBefore(str, i - 1)
  }

  /** The number of the last group, -1 when there is none. */
  function LastGroup(st: Scan): int {
    if st.p == 0 then st.d - 1 else st.d
  }

  /** The IPv4 suffix, if one is tried and read. */
  function Suffix(str: seq<byte>, st: Scan): (v: Option<seq<byte>>)
    ensures v.Some? ==> |v.value| == 4 && LastGroup(st) <= 6 && (LastGroup(st) == 6 || st.coloncolon.Some?)
  {
    var d := LastGroup(st);
    if (d == 6 || (d < 6 && st.coloncolon.Some?)) && st.s < |str| then
      var t := ColonBefore(str, st.s);
      if t != 0 then Parse4(str[t + 1..]) else None
    else None
  }

  function Zeros(n: nat): (z: seq<Group>)
    ensures |z| == n && forall i :: 0 <= i < n ==> z[i] == 0
  {
    seq(n, i => 0)
  }

  /** Groups up to d, and zeros for the groups that `::` stands for. */
  function Expand(parts: seq<Group>, d: nat, coloncolon: Option<nat>): (r: seq<Group>)
    requires |parts| == 8 && d <= 7 && (coloncolon.Some? ==> coloncolon.value <= d)
    ensures |r| == 8
  {
    if coloncolon.None? || d == 7 then parts
    else parts[..coloncolon.value + 1] + Zeros(7 - d) + parts[coloncolon.value + 1..d + 1]
  }

  function Pair(hi: byte, lo: byte): Group {
    hi as int * 256 + lo as int
  }

  /** What is made of the scanned groups: how much text is used, and the address. */
  function Finish(str: seq<byte>, st: Scan): (r: Option<(nat, seq<Group>)>)
    requires |st.parts| == 8 && (st.d <= 7 || (st.d == 8 && st.p == 0))
    requires st.coloncolon.Some? ==> st.coloncolon.value < st.d
    ensures r.Some? ==> |r.value.1| == 8
  {
    var d, v := LastGroup(st), Suffix(str, st);
    if v.Some? then
      var dd: nat := if Some(d) == st.coloncolon then d + 1 else d;
      if dd == 7 then None
      else Some((|str|, Expand(WithSuffix(st.parts, dd, v.value), dd + 1, st.coloncolon)))
    else if d != 7 && st.coloncolon.None? then Some((0, st.parts))
    else Some((st.s, Expand(st.parts, d, st.coloncolon)))
  }

  function WithSuffix(parts: seq<Group>, dd: nat, v: seq<byte>): (r: seq<Group>)
    requires |parts| == 8 && dd < 7 && |v| == 4
    ensures |r| == 8
  {
    parts[dd := Pair(v[0], v[1])][dd + 1 := Pair(v[2], v[3])]
  }

  function Start(): (st: Scan)
    ensures Inside(st)
  {
    Scan(0, 0, 0, None, [0xFFFF, 0xFFFF, 0xFFFF, 0xFFFF, 0xFFFF, 0xFFFF, 0xFFFF, 0xFFFF])
  }

  /** basic_parse() as a function of the text: None when it would store outside the address. */
  function Parse(str: seq<byte>): (r: Option<(nat, seq<Group>)>) {
    var st := Run(str, Start());
    if st.None? then None else Finish(str, st.value)
  }

  /** The scanning loop. */
  method ScanGroups(str: seq<byte>, parts: array<Group>) returns (st: Option<Scan>)
    requires parts.Length == 8
    modifies parts
    ensures st == Run(str, Start())
    ensures st.Some? ==> st.value.parts == parts[..]
  {
    for i := 0 to 8
      invariant forall k :: 0 <= k < i ==> parts[k] == 0xFFFF
    {
      parts[i] := 0xFFFF;
    }
    var s: nat, d: nat, p: nat, coloncolon: Option<nat> := 0, 0, 0, None;
    assert Scan(s, d, p, coloncolon, parts[..]) == Start();
    while s != |str|
      invariant s <= |str| && Inside(Scan(s, d, p, coloncolon, parts[..]))
      invariant Run(str, Scan(s, d, p, coloncolon, parts[..])) == Run(str, Start())
      decreases |str| - s
    {
      ghost var before := Scan(s, d, p, coloncolon, parts[..]);
      var digit := Quoting.HexValue(str[s]);
      if digit.Some? {
        if p == 4 {
          break;
        } else if d > 7 {
          return None;
        }
        parts[d] := if p != 0 then (parts[d] * 16 + digit.value) % 0x1_0000 else digit.value;
        s, p := s + 1, p + 1;
        assert Scan(s, d, p, coloncolon, parts[..]) == Read(before, digit.value);
      } else if str[s] == COLON && s + 1 != |str| && d != 7 && (p != 0 || d == 0) {
        if str[s + 1] == COLON && coloncolon.None? {
          d := if p != 0 then d + 1 else d;
          coloncolon := Some(d);
          parts[d] := 0;
          s, p, d := s + 2, 0, d + 1;
          assert Scan(s, d, p, coloncolon, parts[..]) == Skip(before);
        } else if Quoting.HexValue(str[s + 1]).None? || p == 0 {
          d := d + 1;
          return Some(Scan(s, d, p, coloncolon, parts[..]));
        } else {
          s, p, d := s + 1, 0, d + 1;
        }
      } else {
        break;
      }
    }
    st := Some(Scan(s, d, p, coloncolon, parts[..]));
  }

  /** The rest of basic_parse(): the IPv4 suffix, and room for the zeros of `::`. */
  method FinishGroups(str: seq<byte>, parts: array<Group>, st: Scan) returns (used: Option<nat>)
    requires parts.Length == 8 && st.parts == parts[..] && (st.d <= 7 || (st.d == 8 && st.p == 0))
    requires st.coloncolon.Some? ==> st.coloncolon.value < st.d
    modifies parts
    ensures used.None? <==> Finish(str, st).None?
    ensures used.Some? ==> Finish(str, st) == Some((used.value, parts[..]))
  {
    hide Suffix, Expand, WithSuffix;
    var d := LastGroup(st);
    var s := st.s;
    var suffix := FindSuffix(str, st);
    if suffix.Some? {
      var v := suffix.value;
      var dd := if Some(d) == st.coloncolon then d + 1 else d;
      if dd == 7 {
        return None;
      }
      parts[dd] := Pair(v[0], v[1]);
      parts[dd + 1] := Pair(v[2], v[3]);
      SuffixStored(st.parts, parts[..], dd, v);
      d := dd + 1;
      s := |str|;
    }
    if d != 7 && st.coloncolon.None? {
      return Some(0);
    }
    ghost var read := parts[..];
    if st.coloncolon.Some? && d != 7 {
      MakeRoom(parts, d, st.coloncolon.value);
    } else {
      NoRoomNeeded(read, d, st.coloncolon);
    }
    used := Some(s);
  }

  lemma SuffixStored(parts: seq<Group>, parts': seq<Group>, dd: nat, v: seq<byte>)
    requires |parts| == 8 && dd < 7 && |v| == 4
    requires parts' == parts[dd := Pair(v[0], v[1])][dd + 1 := Pair(v[2], v[3])]
    ensures parts' == WithSuffix(parts, dd, v)
  {}

  lemma NoRoomNeeded(parts: seq<Group>, d: nat, coloncolon: Option<nat>)
    requires |parts| == 8 && d <= 7 && (coloncolon.Some? ==> coloncolon.value <= d) && (coloncolon.None? || d == 7)
    ensures Expand(parts, d, coloncolon) == parts
  {}

  /** Walking back to a colon, and reading a dotted address behind it. */
  method FindSuffix(str: seq<byte>, st: Scan) returns (v: Option<seq<byte>>)
    ensures v == Suffix(str, st)
  {
    var d := LastGroup(st);
    if (d == 6 || (d < 6 && st.coloncolon.Some?)) && st.s < |str| {
      var t: nat := st.s;
      while t != 0 && str[t] != COLON
        invariant t <= st.s && ColonBefore(str, t) == ColonBefore(str, st.s)
      {
        t := t - 1;
      }
      if t != 0 {
        var s4, value := BasicParse4(str[t + 1..]);
        if s4 == |str[t + 1..]| && |value| == 4 {
          return Some(value);
        }
      }
    }
    return None;
  }

  /** The memmove and memset at the end of basic_parse(). */
  method MakeRoom(parts: array<Group>, d: nat, at: nat)
    requires parts.Length == 8 && at <= d < 7
    modifies parts
    ensures parts[..] == Expand(old(parts[..]), d, Some(at))
  {
    hide Expand;
    var extra := 7 - d;
    ghost var read := parts[..];
    var i := d;
    while i > at
      invariant at <= i <= d
      invariant forall k :: 0 <= k <= i ==> parts[k] == read[k]
      invariant forall k :: i < k <= d ==> parts[k + extra] == read[k]
      decreases i
    {
      parts[i + extra] := parts[i];
      i := i - 1;
    }
    for k := at + 1 to at + 1 + extra
      invariant forall j :: 0 <= j <= at ==> parts[j] == read[j]
      invariant forall j :: at + 1 <= j < k ==> parts[j] == 0
      invariant forall j :: at < j <= d ==> parts[j + extra] == read[j]
    {
      parts[k] := 0;
    }
    RoomMade(read, parts[..], d, at);
  }

  lemma RoomMade(read: seq<Group>, parts: seq<Group>, d: nat, at: nat)
    requires |read| == |parts| == 8 && at <= d < 7
    requires forall j :: 0 <= j <= at ==> parts[j] == read[j]
    requires forall j :: at + 1 <= j < at + 1 + (7 - d) ==> parts[j] == 0
    requires forall j :: at < j <= d ==> parts[j + (7 - d)] == read[j]
    ensures parts == Expand(read, d, Some(at))
  {
    var r := Expand(read, d, Some(at));
    forall k | 0 <= k < 8
      ensures parts[k] == r[k]
    {
      if k > at + (7 - d) {
        assert parts[(k - (7 - d)) + (7 - d)] == read[k - (7 - d)];
      }
    }
  }

  // ---- single steps -------------------------------------------------------

  lemma ReadDigit(str: seq<byte>, st: Scan, digit: nat)
    requires Inside(st) && st.p < 4 && st.d <= 7 && digit < 16
    requires st.s < |str| && Quoting.HexValue(str[st.s]) == Some(digit)
    ensures Run(str, st) == Run(str, Read(st, digit))
  {}

  lemma ReadColons(str: seq<byte>, st: Scan)
    requires Inside(st) && st.d < 7 && (st.p != 0 || st.d == 0) && st.coloncolon.None?
    requires Quoting.At(str, st.s, [COLON, COLON])
    ensures Run(str, st) == Run(str, Skip(st))
  {
    Quoting.AtChars(str, st.s, [COLON, COLON]);
    assert str[st.s + 0] == COLON && str[st.s + 1] == COLON;
  }

  lemma RunAtEnd(str: seq<byte>, st: Scan)
    requires Inside(st) && st.s >= |str|
    ensures Run(str, st) == Some(st)
  {}

  lemma {:induction false} ColonFound(str: seq<byte>, t: nat, i: nat)
    requires t <= i < |str| && str[t] == COLON && (forall k :: t < k <= i ==> str[k] != COLON)
    ensures ColonBefore(str, i) == t
    decreases i
  {
    if t < i {
      ColonFound(str, t, i - 1);
    }
  }

  lemma PartsFull(str: seq<byte>, s: nat, value: seq<byte>)
    requires s <= |str| && |value| == 4
    ensures Parts(str, s, value) == (s, value)
  {}

  lemma AtWhole(str: seq<byte>)
    ensures Quoting.At(str, 0, str)
  {
    assert str[0..0 + |str|] == str;
  }
}
