/**
 Which texts IP6AddressArg::basic_parse takes for an address, and for which one
 (click/lib/ip6address.cc:326-393): the forms of section 2.2 of RFC 4291, and
 two more that the code lets through.
 */
module IP6Grammar {
  import opened Wrappers
  import opened IP6Text
  import opened IP6Parse
  import Quoting
  import QuotedText

  // ---- the notation -------------------------------------------------------

  /** One to four hexadecimal digits, in either case. */
  predicate GroupText(g: seq<byte>) {
    1 <= |g| <= 4 && forall k :: 0 <= k < |g| ==> QuotedText.IsHex(g[k])
  }

  predicate GroupTexts(gs: seq<seq<byte>>) {
    forall k :: 0 <= k < |gs| ==> GroupText(gs[k])
  }

  function Value(g: seq<byte>): Group {
    QuotedText.Number(g, 16) % 0x1_0000
  }

  /** The modulus is never felt. */
  lemma ValueIsNumber(g: seq<byte>)
    requires GroupText(g)
    ensures Value(g) as int == QuotedText.Number(g, 16)
  {
    NumberBelow(g, |g|);
    assert g[..|g|] == g;
  }

  lemma {:induction false} NumberBelow(g: seq<byte>, k: nat)
    requires GroupText(g) && k <= |g|
    ensures QuotedText.Number(g[..k], 16) < Power16(k) <= Power16(4) == 0x1_0000
  {
    if k > 0 {
      hide QuotedText.Number;
      NumberBelow(g, k - 1);
      QuotedText.NumberSnoc(g, k - 1, 16);
      assert QuotedText.DigitValue(g[k - 1]) < 16 && Power16(k) == 16 * Power16(k - 1);
    } else {
      assert g[..k] == [];
    }
  }

  function Power16(k: nat): nat {
    if k == 0 then 1 else if k == 1 then 16 else if k == 2 then 256 else if k == 3 then 4096 else 65536
  }

  function Values(gs: seq<seq<byte>>): (v: seq<Group>)
    ensures |v| == |gs|
  {
    seq(|gs|, k requires 0 <= k < |gs| => Value(gs[k]))
  }

  /** Groups, each with a colon behind it. */
  function Each(gs: seq<seq<byte>>): seq<byte> {
    if gs == [] then [] else Each(gs[..|gs| - 1]) + gs[|gs| - 1] + [COLON]
  }

  /** Groups, with colons between them. */
  function Colons(gs: seq<seq<byte>>): seq<byte> {
    if gs == [] then [] else Each(gs[..|gs| - 1]) + gs[|gs| - 1]
  }

  /** A decimal number up to 255, with any number of zeros in front. */
  predicate ByteText(d: seq<byte>) {
    d != [] && (forall k :: 0 <= k < |d| ==> IsDigit(d[k])) && QuotedText.Number(d, 10) <= 255
  }

  predicate ByteTexts(ds: seq<seq<byte>>) {
    forall k :: 0 <= k < |ds| ==> ByteText(ds[k])
  }

  function Dots(ds: seq<seq<byte>>): seq<byte> {
    if ds == [] then []
    else if |ds| == 1 then ds[0]
    else Dots(ds[..|ds| - 1]) + [DOT] + ds[|ds| - 1]
  }

  function ByteValues(ds: seq<seq<byte>>): (v: seq<byte>)
    ensures |v| == |ds|
  {
    seq(|ds|, k requires 0 <= k < |ds| => (QuotedText.Number(ds[k], 10) % 256) as byte)
  }

  datatype Form =
    | Full(groups: seq<seq<byte>>)
    | Short(front: seq<seq<byte>>, back: seq<seq<byte>>)
    | FullDotted(front: seq<seq<byte>>, dotted: seq<seq<byte>>)
    | ShortDotted(front: seq<seq<byte>>, back: seq<seq<byte>>, dotted: seq<seq<byte>>)
    | TripleColon(front: seq<seq<byte>>, dotted: seq<seq<byte>>)  // not in RFC 4291
    | Nothing                                                     // not in RFC 4291

  predicate FormOk(f: Form) {
    match f
    case Full(gs) => GroupTexts(gs) && |gs| == 8
    case Short(front, back) => GroupTexts(front) && GroupTexts(back) && |front| + |back| <= 7
    case FullDotted(front, ds) => GroupTexts(front) && ByteTexts(ds) && |front| == 6 && |ds| == 4
    case ShortDotted(front, back, ds) =>
      GroupTexts(front) && GroupTexts(back) && ByteTexts(ds) && |front| + |back| <= 5 && |ds| == 4
    case TripleColon(front, ds) => GroupTexts(front) && ByteTexts(ds) && |front| <= 5 && |ds| == 4
    case Nothing => true
  }

  function FormText(f: Form): seq<byte> {
    match f
    case Full(gs) => Colons(gs)
    case Short(front, back) => Colons(front) + [COLON, COLON] + Colons(back)
    case FullDotted(front, ds) => Each(front) + Dots(ds)
    case ShortDotted(front, back, ds) => Colons(front) + [COLON, COLON] + Each(back) + Dots(ds)
    case TripleColon(front, ds) => Colons(front) + [COLON, COLON] + [COLON] + Dots(ds)
    case Nothing => []
  }

  function Quad(ds: seq<seq<byte>>): seq<Group>
    requires |ds| == 4
  {
    var v := ByteValues(ds);
    [Pair(v[0], v[1]), Pair(v[2], v[3])]
  }

  /** The groups a form stands for; the empty text leaves the bytes that memset() wrote. */
  function FormGroups(f: Form): seq<Group>
    requires FormOk(f)
  {
    match f
    case Full(gs) => Values(gs)
    case Short(front, back) => Values(front) + Zeros(8 - |front| - |back|) + Values(back)
    case FullDotted(front, ds) => Values(front) + Quad(ds)
    case ShortDotted(front, back, ds) => Values(front) + Zeros(6 - |front| - |back|) + Values(back) + Quad(ds)
    case TripleColon(front, ds) => Values(front) + Zeros(6 - |front|) + Quad(ds)
    case Nothing => seq(8, k => 0xFFFF)
  }

  // ---- decimal numbers ----------------------------------------------------

  lemma {:induction false} DecimalStep(d: seq<byte>, k: nat)
    requires k < |d|
    ensures QuotedText.Number(d[..k + 1], 10) == QuotedText.Number(d[..k], 10) * 10 + QuotedText.DigitValue(d[k])
  {
    QuotedText.NumberSnoc(d, k, 10);
  }

  /** Decimal() reads digits as long as they go on and the number is not too large. */
  lemma {:induction false} DecimalReads(str: seq<byte>, b: nat, t: nat, part: nat) returns (e: nat)
    requires b < t <= |str| && (forall k :: b <= k < t ==> IsDigit(str[k])) && part == QuotedText.Number(str[b..t], 10)
    ensures e == Decimal(str, t, part).0 && t <= e <= |str| && forall k :: b <= k < e ==> IsDigit(str[k])
    ensures Decimal(str, t, part).1 == QuotedText.Number(str[b..e], 10)
    ensures Decimal(str, t, part).1 <= 255 ==> e == |str| || !IsDigit(str[e])
    decreases |str| - t
  {
    if t < |str| && IsDigit(str[t]) && part <= 255 {
      assert str[b..t + 1][..t - b] == str[b..t];
      e := DecimalReads(str, b, t + 1, part * 10 + (str[t] as nat - 48));
    } else {
      e := t;
    }
  }

  lemma OneDigit(c: byte)
    requires IsDigit(c)
    ensures QuotedText.Number([c], 10) == c as nat - 48
  {
    assert [c][..0] == [];
  }

  lemma {:induction false} NumberGrows(d: seq<byte>, k: nat)
    requires k <= |d|
    ensures QuotedText.Number(d[..k], 10) <= QuotedText.Number(d, 10)
    decreases |d| - k
  {
    if k < |d| {
      DecimalStep(d, k);
      NumberGrows(d, k + 1);
    } else {
      assert d[..k] == d;
    }
  }

  /** A part that is there is read whole. */
  lemma {:induction false} DecimalWhole(str: seq<byte>, b: nat, d: seq<byte>, k: nat)
    requires ByteText(d) && Quoting.At(str, b, d) && 1 <= k <= |d| && (b + |d| == |str| || !IsDigit(str[b + |d|]))
    ensures b + |d| <= |str|
    ensures Decimal(str, b + k, QuotedText.Number(d[..k], 10)) == (b + |d|, QuotedText.Number(d, 10))
    decreases |d| - k
  {
    hide Quoting.At, QuotedText.Number;
    Quoting.AtChars(str, b, d);
    NumberGrows(d, k);
    if k < |d| {
      assert str[b + k] == d[k];
      DecimalStep(d, k);
      DecimalWhole(str, b, d, k + 1);
    } else {
      assert d[..k] == d;
    }
  }

  // ---- dotted addresses ---------------------------------------------------

  /** The parts read so far are written in front of s. */
  ghost predicate PartsShown(str: seq<byte>, s: nat, value: seq<byte>, ds: seq<seq<byte>>) {
    s <= |str| && ByteTexts(ds) && str[..s] == Dots(ds) && value == ByteValues(ds)
  }

  lemma PartShown(str: seq<byte>, s: nat, value: seq<byte>, ds: seq<seq<byte>>, t: nat, e: nat)
    requires PartsShown(str, s, value, ds) && t < e <= |str| && t == (if ds == [] then s else s + 1)
    requires ds == [] ==> s == 0
    requires ds != [] ==> str[s] == DOT
    requires ByteText(str[t..e])
    ensures PartsShown(str, e, value + [(QuotedText.Number(str[t..e], 10) % 256) as byte], ds + [str[t..e]])
  {
    hide QuotedText.Number;
    var ds' := ds + [str[t..e]];
    assert ds'[..|ds|] == ds;
    assert str[..e] == Dots(ds') by {
      if ds != [] {
        assert str[..e] == str[..s] + [str[s]] + str[t..e];
      }
    }
  }

  /** The parts read are written, and reading goes on as long as it can. */
  lemma {:induction false} PartsRead(str: seq<byte>, s: nat, value: seq<byte>, ds: seq<seq<byte>>) returns (ds': seq<seq<byte>>)
    requires PartsShown(str, s, value, ds) && (ds == [] ==> s == 0)
    ensures PartsShown(str, Parts(str, s, value).0, Parts(str, s, value).1, ds')
    decreases 4 - |value|
  {
    hide QuotedText.Number, Decimal, PartsShown;
    PartsSize(str, s, value, ds);
    ds' := ds;
    if |value| < 4 && s < |str| && (value == [] || str[s] == DOT) {
      var t := if value == [] then s else s + 1;
      if t < |str| && IsDigit(str[t]) {
        var part := Decimal(str, t + 1, str[t] as nat - 48);
        var e := OnePart(str, t);
        if part.1 <= 255 {
          PartShown(str, s, value, ds, t, e);
          ds' := PartsRead(str, e, value + [part.1 as byte], ds + [str[t..e]]);
        }
      }
    }
  }

  lemma PartsSize(str: seq<byte>, s: nat, value: seq<byte>, ds: seq<seq<byte>>)
    requires PartsShown(str, s, value, ds)
    ensures s <= |str| && |value| == |ds|
  {}

  /** One part: its digits, and the number they write. */
  lemma OnePart(str: seq<byte>, t: nat) returns (e: nat)
    requires t < |str| && IsDigit(str[t])
    ensures var part := Decimal(str, t + 1, str[t] as nat - 48);
            && t < e <= |str| && part.0 == e && part.1 == QuotedText.Number(str[t..e], 10)
            && (part.1 <= 255 ==> ByteText(str[t..e]))
  {
    hide QuotedText.Number, Decimal;
    OneDigit(str[t]);
    assert str[t..t + 1] == [str[t]];
    e := DecimalReads(str, t, t + 1, str[t] as nat - 48);
    assert forall k :: 0 <= k < e - t ==> str[t..e][k] == str[t + k];
  }

  lemma DotsNone()
    ensures Dots([]) == [] && ByteValues([]) == []
  {}

  /** What IPAddressArg::parse() takes is four decimal numbers between dots. */
  lemma DottedSound(str: seq<byte>) returns (ds: seq<seq<byte>>)
    requires Parse4(str).Some?
    ensures |ds| == 4 && ByteTexts(ds) && str == Dots(ds) && Parse4(str).value == ByteValues(ds)
  {
    hide Parts;
    DotsNone();
    assert str[..0] == [];
    ds := PartsRead(str, 0, [], []);
    assert str[..|str|] == str;
  }

  lemma DotThere(str: seq<byte>, s: nat)
    requires Quoting.At(str, s, [DOT])
    ensures s < |str| && str[s] == DOT
  {
    assert str[s..s + 1][0] == DOT;
  }

  /** One more part is read. */
  lemma PartTaken(str: seq<byte>, s: nat, value: seq<byte>, d: seq<byte>)
    requires |value| < 4 && (value != [] ==> Quoting.At(str, s, [DOT]))
    requires ByteText(d) && Quoting.At(str, if value == [] then s else s + 1, d)
    requires var e := (if value == [] then s else s + 1) + |d|; e == |str| || !IsDigit(str[e])
    ensures s <= |str|
    ensures var e := (if value == [] then s else s + 1) + |d|;
            e <= |str| && Parts(str, s, value) == Parts(str, e, value + [(QuotedText.Number(d, 10) % 256) as byte])
  {
    hide Quoting.At, QuotedText.Number, Decimal;
    var t := if value == [] then s else s + 1;
    Quoting.AtChars(str, t, d);
    assert str[t + 0] == d[0];
    if value != [] {
      DotThere(str, s);
    }
    OneDigit(d[0]);
    assert d[..1] == [d[0]];
    DecimalWhole(str, t, d, 1);
  }

  /** The first parts of a dotted text, and what follows them. */
  lemma {:induction false} DotsSplit(ds: seq<seq<byte>>, k: nat)
    requires 1 <= k < |ds|
    ensures |Dots(ds[..k])| + 1 + |ds[k]| <= |Dots(ds)|
    ensures Dots(ds)[..|Dots(ds[..k])|] == Dots(ds[..k])
    ensures Dots(ds)[|Dots(ds[..k])|] == DOT
    ensures Dots(ds)[|Dots(ds[..k])| + 1..|Dots(ds[..k])| + 1 + |ds[k]|] == ds[k]
    decreases |ds|
  {
    var last := ds[..|ds| - 1];
    if k < |ds| - 1 {
      DotsSplit(last, k);
      assert last[..k] == ds[..k];
    } else {
      assert last == ds[..k];
    }
  }

  lemma {:induction false} PartsTaken(str: seq<byte>, ds: seq<seq<byte>>, k: nat)
    requires |ds| == 4 && ByteTexts(ds) && str == Dots(ds) && 1 <= k <= 4
    ensures |Dots(ds[..k])| <= |str|
    ensures Parts(str, 0, []) == Parts(str, |Dots(ds[..k])|, ByteValues(ds[..k]))
  {
    hide Parts, QuotedText.Number, Dots;
    DotsFirst(ds);
    DotsSoFar(ds, k);
    if k == 1 {
      PartTaken(str, 0, [], ds[0]);
      assert ByteValues(ds[..1]) == [] + [(QuotedText.Number(ds[0], 10) % 256) as byte];
    } else {
      PartsTaken(str, ds, k - 1);
      DotsSplit(ds, k - 1);
      var s := |Dots(ds[..k - 1])|;
      PartTaken(str, s, ByteValues(ds[..k - 1]), ds[k - 1]);
      assert ByteValues(ds[..k]) == ByteValues(ds[..k - 1]) + [(QuotedText.Number(ds[k - 1], 10) % 256) as byte];
    }
  }

  lemma DotsFirst(ds: seq<seq<byte>>)
    requires |ds| == 4
    ensures Dots(ds[..1]) == ds[0] && Quoting.At(Dots(ds), 0, ds[0])
  {
    DotsSplit(ds, 1);
    assert ds[..1] == [ds[0]];
  }

  /** Where the first k parts end, a dot follows or nothing. */
  lemma DotsSoFar(ds: seq<seq<byte>>, k: nat)
    requires |ds| == 4 && 1 <= k <= 4
    ensures |Dots(ds[..k])| <= |Dots(ds)|
    ensures |Dots(ds[..k])| < |Dots(ds)| ==> Dots(ds)[|Dots(ds[..k])|] == DOT
    ensures k > 1 ==> |Dots(ds[..k])| == |Dots(ds[..k - 1])| + 1 + |ds[k - 1]|
    ensures k == 4 ==> |Dots(ds[..k])| == |Dots(ds)|
  {
    if k < 4 {
      DotsSplit(ds, k);
    } else {
      assert ds[..4] == ds;
    }
    if k > 1 {
      assert ds[..k][..k - 1] == ds[..k - 1];
    }
  }

  /** Four decimal numbers between dots are always taken, as these numbers. */
  lemma DottedComplete(ds: seq<seq<byte>>)
    requires |ds| == 4 && ByteTexts(ds)
    ensures Parse4(Dots(ds)) == Some(ByteValues(ds))
  {
    hide Parts, Dots;
    PartsTaken(Dots(ds), ds, 4);
    assert ds[..4] == ds;
    PartsFull(Dots(ds), |Dots(ds)|, ByteValues(ds));
  }

  // ---- the scan: what it has seen -----------------------------------------

  /** The groups before `::` if there was one, those since then that a colon ended, and the digits of the next. */
  datatype Seen = Seen(lead: Option<seq<seq<byte>>>, done: seq<seq<byte>>, digits: seq<byte>)

  function LeadText(lead: Option<seq<seq<byte>>>): seq<byte> {
    if lead.Some? then Colons(lead.value) + [COLON, COLON] else []
  }

  function LeadValues(lead: Option<seq<seq<byte>>>): seq<Group> {
    if lead.Some? then Values(lead.value) + [0] else []
  }

  /** The state of the scan and the text before it say the same. */
  ghost predicate Shows(str: seq<byte>, st: Scan, w: Seen) {
    && Inside(st) && st.s <= |str| && str[..st.s] == LeadText(w.lead) + Each(w.done) + w.digits
    && st.coloncolon == (if w.lead.Some? then Some(|w.lead.value|) else None)
    && (w.lead.Some? ==> GroupTexts(w.lead.value)) && GroupTexts(w.done)
    && st.p == |w.digits| <= 4 && (w.digits != [] ==> GroupText(w.digits) && st.d <= 7 && st.parts[st.d] == Value(w.digits))
    && st.d == |LeadValues(w.lead)| + |w.done| && st.parts[..st.d] == LeadValues(w.lead) + Values(w.done)
    && (w.digits == [] && w.done != [] ==> st.s < |str| && QuotedText.IsHex(str[st.s]))
  }

  lemma ValuesSnoc(gs: seq<seq<byte>>, g: seq<byte>)
    ensures Values(gs + [g]) == Values(gs) + [Value(g)]
    ensures Each(gs + [g]) == Each(gs) + g + [COLON]
    ensures Colons(gs + [g]) == Each(gs) + g
  {
    assert (gs + [g])[..|gs|] == gs;
  }

  lemma ValueSnoc(g: seq<byte>, c: byte)
    requires GroupText(g + [c])
    ensures Value(g + [c]) == if g == [] then QuotedText.DigitValue(c) else (Value(g) * 16 + QuotedText.DigitValue(c)) % 0x1_0000
  {
    assert (g + [c])[..|g|] == g;
    QuotedText.NumberSnoc(g + [c], |g|, 16);
    assert (g + [c])[..|g| + 1] == g + [c];
    ValueIsNumber(g + [c]);
    hide Value;
    if g != [] {
      assert forall k :: 0 <= k < |g| ==> g[k] == (g + [c])[k];
      ValueIsNumber(g);
    }
  }

  lemma ShowsDigit(str: seq<byte>, st: Scan, w: Seen)
    requires Shows(str, st, w) && st.s < |str| && QuotedText.IsHex(str[st.s]) && st.p < 4 && st.d <= 7
    ensures Quoting.HexValue(str[st.s]).Some?
    ensures Shows(str, Read(st, Quoting.HexValue(str[st.s]).value), w.(digits := w.digits + [str[st.s]]))
  {
    hide QuotedText.Number, Each, Values, Value;
    var c := str[st.s];
    QuotedText.HexValueIs(c);
    var digits := w.digits + [c];
    assert GroupText(digits);
    ValueSnoc(w.digits, c);
    assert str[..st.s + 1] == str[..st.s] + [c];
    assert LeadText(w.lead) + Each(w.done) + w.digits + [c] == LeadText(w.lead) + Each(w.done) + digits;
  }

  lemma ColonText(lead: seq<byte>, done: seq<seq<byte>>, g: seq<byte>)
    ensures lead + Each(done) + g + [COLON] == lead + Each(done + [g]) + []
  {
    ValuesSnoc(done, g);
    hide Each;
    assert lead + Each(done) + g + [COLON] == lead + (Each(done) + g + [COLON]);
  }

  lemma ColonValues(parts: seq<Group>, d: nat, lead: seq<Group>, done: seq<seq<byte>>, g: seq<byte>)
    requires d < |parts| && parts[..d] == lead + Values(done) && parts[d] == Value(g)
    ensures parts[..d + 1] == lead + Values(done + [g])
  {
    ValuesSnoc(done, g);
    hide Values, Value, Each;
    assert parts[..d + 1] == parts[..d] + [parts[d]];
    assert lead + Values(done) + [Value(g)] == lead + (Values(done) + [Value(g)]);
  }

  lemma ShowsColon(str: seq<byte>, st: Scan, w: Seen)
    requires Shows(str, st, w) && st.s + 1 < |str| && str[st.s] == COLON && QuotedText.IsHex(str[st.s + 1]) && st.p != 0 && st.d < 7
    ensures Shows(str, st.(s := st.s + 1, d := st.d + 1, p := 0), Seen(w.lead, w.done + [w.digits], []))
  {
    hide Each, Values, Value, GroupText, LeadText;
    ColonText(LeadText(w.lead), w.done, w.digits);
    ColonValues(st.parts, st.d, LeadValues(w.lead), w.done, w.digits);
    assert str[..st.s + 1] == str[..st.s] + [COLON];
    assert GroupTexts(w.done + [w.digits]);
  }

  /** The groups in front of `::`. */
  function Before(w: Seen): seq<seq<byte>> {
    if w.digits == [] then [] else w.done + [w.digits]
  }

  lemma BeforeShown(str: seq<byte>, st: Scan, w: Seen)
    requires Shows(str, st, w) && w.lead.None? && (st.p != 0 || st.d == 0)
    ensures st.s <= |str| && str[..st.s] == Colons(Before(w)) && GroupTexts(Before(w))
    ensures |Before(w)| == (if st.p != 0 then st.d + 1 else st.d) <= 8 == |st.parts| && st.parts[..|Before(w)|] == Values(Before(w))
  {
    hide Value, Values, Each, Colons, GroupText;
    if st.p == 0 {
      EachNone();
      assert LeadText(w.lead) + [] + [] == [] && st.parts[..0] == [] && Values([]) == [];
    } else {
      ValuesSnoc(w.done, w.digits);
      assert [] + Each(w.done) + w.digits == Each(w.done) + w.digits;
      assert st.parts[..st.d + 1] == st.parts[..st.d] + [st.parts[st.d]];
      assert [] + Values(w.done) == Values(w.done);
    }
  }

  lemma LeadShows(str: seq<byte>, st: Scan, gs: seq<seq<byte>>)
    requires Inside(st) && st.s <= |str| && st.p == 0 && GroupTexts(gs) && st.coloncolon == Some(|gs|) && st.d == |gs| + 1
    requires str[..st.s] == Colons(gs) + [COLON, COLON] && st.parts[..st.d] == Values(gs) + [0]
    ensures Shows(str, st, Seen(Some(gs), [], []))
  {
    hide Value, Colons, GroupText;
    assert LeadText(Some(gs)) + [] + [] == LeadText(Some(gs));
    assert LeadValues(Some(gs)) + [] == LeadValues(Some(gs));
  }

  lemma ShowsSkip(str: seq<byte>, st: Scan, w: Seen)
    requires Shows(str, st, w) && w.lead.None? && (st.p != 0 || st.d == 0) && st.d < 7
    requires st.s + 1 < |str| && str[st.s] == COLON && str[st.s + 1] == COLON
    ensures Shows(str, Skip(st), Seen(Some(Before(w)), [], []))
  {
    BeforeShown(str, st, w);
    hide Shows, Values, Colons, GroupTexts, Before;
    var gs := Before(w);
    assert str[..st.s + 2] == str[..st.s] + [COLON, COLON];
    assert Skip(st).parts[..|gs| + 1] == st.parts[..|gs|] + [0];
    LeadShows(str, Skip(st), gs);
  }

  // ---- the scan: how it ends ----------------------------------------------

  /** The loop is left at the head or in its last branch. */
  predicate Stops(str: seq<byte>, st: Scan) {
    || st.s >= |str|
    || (QuotedText.IsHex(str[st.s]) && st.p == 4)
    || (!QuotedText.IsHex(str[st.s]) && !(str[st.s] == COLON && st.s + 1 != |str| && st.d != 7 && (st.p != 0 || st.d == 0)))
  }

  /** The loop is left at a colon that no group follows. */
  predicate Breaks(str: seq<byte>, st: Scan) {
    && st.s + 1 < |str| && str[st.s] == COLON && st.d < 7 && (st.p != 0 || st.d == 0)
    && (!QuotedText.IsHex(str[st.s + 1]) || st.p == 0)
  }

  /** A digit comes where there is no group for it. */
  predicate Overflows(str: seq<byte>, st: Scan) {
    st.s < |str| && QuotedText.IsHex(str[st.s]) && st.p != 4 && st.d > 7
  }

  lemma {:induction false} RunShows(str: seq<byte>, st: Scan, w: Seen) returns (st': Scan, w': Seen)
    requires Shows(str, st, w)
    ensures Shows(str, st', w')
    ensures if Overflows(str, st') then Run(str, st) == None
            else if Stops(str, st') then Run(str, st) == Some(st')
            else Breaks(str, st') && Run(str, st) == Some(st'.(d := st'.d + 1))
    decreases |str| - st.s
  {
    hide Shows;
    ShowsInside(str, st, w);
    st', w' := st, w;
    if st.s < |str| {
      var c := str[st.s];
      QuotedText.HexValueIs(c);
      if QuotedText.IsHex(c) {
        if st.p != 4 && st.d <= 7 {
          ShowsDigit(str, st, w);
          st', w' := RunShows(str, Read(st, Quoting.HexValue(c).value), w.(digits := w.digits + [c]));
        }
      } else if c == COLON && st.s + 1 != |str| && st.d != 7 && (st.p != 0 || st.d == 0) {
        QuotedText.HexValueIs(str[st.s + 1]);
        if str[st.s + 1] == COLON && st.coloncolon.None? {
          ShowsSkip(str, st, w);
          st', w' := RunShows(str, Skip(st), Seen(Some(Before(w)), [], []));
        } else if QuotedText.IsHex(str[st.s + 1]) && st.p != 0 {
          ShowsColon(str, st, w);
          st', w' := RunShows(str, st.(s := st.s + 1, d := st.d + 1, p := 0), Seen(w.lead, w.done + [w.digits], []));
        }
      }
    }
  }

  lemma ShowsInside(str: seq<byte>, st: Scan, w: Seen)
    requires Shows(str, st, w)
    ensures Inside(st) && st.p <= 4 && (st.p != 0 ==> st.d <= 7)
    ensures w.lead.None? <==> st.coloncolon.None?
  {}

  lemma ShowsStart(str: seq<byte>)
    ensures Shows(str, Start(), Seen(None, [], []))
  {}

  // ---- what is accepted ---------------------------------------------------

  /** The groups after `::`, or all of them. */
  function Rest(w: Seen): seq<seq<byte>> {
    if w.digits == [] then w.done else w.done + [w.digits]
  }

  lemma RestText(w: Seen)
    requires w.digits == [] ==> w.done == []
    ensures Each(w.done) + w.digits == Colons(Rest(w))
  {
    ValuesSnoc(w.done, w.digits);
  }

  lemma RestValues(str: seq<byte>, st: Scan, w: Seen)
    requires Shows(str, st, w) && LastGroup(st) <= 7
    ensures LastGroup(st) + 1 == |LeadValues(w.lead)| + |Rest(w)| && LastGroup(st) + 1 >= 0
    ensures st.parts[..LastGroup(st) + 1] == LeadValues(w.lead) + Values(Rest(w))
    ensures GroupTexts(Rest(w))
  {
    hide Value, Values, Each, GroupText, LeadText, LeadValues;
    ValuesSnoc(w.done, w.digits);
    if st.p != 0 {
      assert st.parts[..st.d + 1] == st.parts[..st.d] + [st.parts[st.d]];
      assert LeadValues(w.lead) + Values(w.done) + [Value(w.digits)] == LeadValues(w.lead) + Values(Rest(w));
    }
  }

  /** Making room for the zeros of `::`. */
  lemma Expanded(parts: seq<Group>, d: nat, front: seq<Group>, back: seq<Group>)
    requires |parts| == 8 && d <= 7 && d == |front| + |back| && parts[..d + 1] == front + [0] + back
    ensures Expand(parts, d, Some(|front|)) == front + Zeros(8 - |front| - |back|) + back
  {
    var n := |front|;
    var r, e := Expand(parts, d, Some(n)), front + Zeros(8 - n - |back|) + back;
    assert |e| == 8;
    forall k | 0 <= k < 8
      ensures r[k] == e[k]
    {
      assert forall j :: 0 <= j <= d ==> parts[j] == parts[..d + 1][j] == (front + [0] + back)[j];
    }
  }

  /** Without a dotted suffix: what has been scanned is a form of its own. */
  lemma ScannedForm(str: seq<byte>, st: Scan, w: Seen) returns (f: Form)
    requires Shows(str, st, w) && (w.digits == [] ==> w.done == [])
    requires LastGroup(st) <= 7 && (LastGroup(st) == 7 || st.coloncolon.Some?)
    ensures f == if w.lead.None? then Full(Rest(w)) else Short(w.lead.value, Rest(w))
    ensures st.s <= |str| && FormOk(f) && FormText(f) == str[..st.s]
    ensures FormGroups(f) == Expand(st.parts, LastGroup(st), st.coloncolon)
  {
    hide Shows, Each, Colons, Values, Expand, Rest, GroupTexts;
    ShowsInside(str, st, w);
    ShowsSize(str, st, w);
    ShowsParts(str, st, w);
    RestValues(str, st, w);
    ScannedText(str, st, w);
    if w.lead.None? {
      f := FullScanned(st.parts, Rest(w));
      assert [] + Colons(Rest(w)) == Colons(Rest(w));
    } else {
      f := ShortScanned(st.parts, LastGroup(st), w.lead.value, Rest(w));
    }
  }

  lemma ScannedText(str: seq<byte>, st: Scan, w: Seen)
    requires Shows(str, st, w) && (w.digits == [] ==> w.done == [])
    ensures st.s <= |str| && str[..st.s] == LeadText(w.lead) + Colons(Rest(w))
  {
    hide Each, Colons, Values, Value, Rest;
    RestText(w);
    var lead := LeadText(w.lead);
    assert lead + Each(w.done) + w.digits == lead + (Each(w.done) + w.digits);
  }

  lemma ShortScanned(parts: seq<Group>, d: nat, front: seq<seq<byte>>, back: seq<seq<byte>>) returns (f: Form)
    requires |parts| == 8 && d <= 7 && d == |front| + |back| && GroupTexts(front) && GroupTexts(back)
    requires parts[..d + 1] == Values(front) + [0] + Values(back)
    ensures f == Short(front, back) && FormOk(f) && FormGroups(f) == Expand(parts, d, Some(|front|))
  {
    hide Values, Expand, GroupTexts;
    Expanded(parts, d, Values(front), Values(back));
    f := Short(front, back);
  }

  lemma FullScanned(parts: seq<Group>, gs: seq<seq<byte>>) returns (f: Form)
    requires |parts| == |gs| == 8 && GroupTexts(gs) && parts[..8] == [] + Values(gs)
    ensures f == Full(gs) && FormOk(f) && FormGroups(f) == Expand(parts, 7, None)
  {
    NoRoomNeeded(parts, 7, None);
    hide Values, Expand;
    assert parts[..8] == parts && [] + Values(gs) == Values(gs);
    f := Full(gs);
  }

  // ---- dotted suffixes ----------------------------------------------------

  lemma {:induction false} NoColonBefore(str: seq<byte>, i: nat)
    requires i < |str| && forall k :: 0 <= k <= i ==> str[k] != COLON
    ensures ColonBefore(str, i) == 0
    decreases i
  {
    if i > 0 {
      NoColonBefore(str, i - 1);
    }
  }

  /** The text before the digits. */
  function BeforeDigits(w: Seen): seq<byte> {
    LeadText(w.lead) + Each(w.done)
  }

  lemma EndsInColon(w: Seen)
    requires GroupTexts(w.done)
    ensures BeforeDigits(w) == [] <==> w.lead.None? && w.done == []
    ensures BeforeDigits(w) != [] ==> |BeforeDigits(w)| >= 2 && BeforeDigits(w)[|BeforeDigits(w)| - 1] == COLON
  {
    hide Colons;
    if w.done != [] {
      LastNotEmpty(w.done);
    }
  }

  lemma DigitsShown(str: seq<byte>, st: Scan, w: Seen)
    requires Shows(str, st, w)
    ensures var b := |BeforeDigits(w)|;
            && b == st.s - |w.digits| && st.s <= |str| && str[..b] == BeforeDigits(w)
            && forall k :: b <= k < st.s ==> str[k] != COLON
  {
    hide Each, LeadText, Value, Values, LeadValues, GroupTexts;
    var before := BeforeDigits(w);
    var b := |before|;
    assert str[..st.s] == before + w.digits;
    assert str[..b] == str[..st.s][..b] == before;
    forall k | b <= k < st.s
      ensures str[k] != COLON
    {
      assert str[k] == str[..st.s][k] == w.digits[k - b];
    }
  }

  /** Where the search for a colon ends when there are digits before s. */
  lemma ColonFromDigits(str: seq<byte>, st: Scan, w: Seen)
    requires Shows(str, st, w) && w.digits != [] && st.s < |str| && str[st.s] != COLON
    ensures var b := |BeforeDigits(w)|;
            && b == st.s - |w.digits| && str[..b] == BeforeDigits(w)
            && (w.lead.None? && w.done == [] ==> ColonBefore(str, st.s) == 0)
            && (w.lead.Some? || w.done != [] ==> b > 1 && ColonBefore(str, st.s) == b - 1)
  {
    hide Shows, BeforeDigits, ColonBefore;
    var b := |BeforeDigits(w)|;
    ShowsParts(str, st, w);
    DigitsShown(str, st, w);
    EndsInColon(w);
    if b == 0 {
      NoColonBefore(str, st.s);
    } else {
      assert str[b - 1] == str[..b][b - 1];
      ColonFound(str, b - 1, st.s);
    }
  }

  /** The bytes of a dotted text: it begins with a digit. */
  lemma DottedBegins(ds: seq<seq<byte>>)
    requires |ds| == 4 && ByteTexts(ds)
    ensures Dots(ds) != [] && IsDigit(Dots(ds)[0])
  {
    DotsFirst(ds);
    Quoting.AtChars(Dots(ds), 0, ds[0]);
    assert Dots(ds)[0 + 0] == ds[0][0];
  }

  /** The two groups of the suffix behind what was scanned. */
  lemma SuffixBehind(parts: seq<Group>, dd: nat, known: seq<Group>, ds: seq<seq<byte>>)
    requires |parts| == 8 && dd < 7 && |ds| == 4 && parts[..dd] == known
    ensures WithSuffix(parts, dd, ByteValues(ds))[..dd + 2] == known + Quad(ds)
  {
    var parts' := WithSuffix(parts, dd, ByteValues(ds));
    assert parts'[..dd + 2] == parts'[..dd] + [parts'[dd], parts'[dd + 1]];
    assert parts'[..dd] == parts[..dd];
  }

  lemma ShortDottedGroups(parts: seq<Group>, dd: nat, front: seq<seq<byte>>, back: seq<seq<byte>>, ds: seq<seq<byte>>)
    requires |parts| == 8 && dd < 7 && FormOk(ShortDotted(front, back, ds))
    requires parts[..dd] == Values(front) + [0] + Values(back)
    ensures Expand(WithSuffix(parts, dd, ByteValues(ds)), dd + 1, Some(|front|)) == FormGroups(ShortDotted(front, back, ds))
  {
    hide Expand, WithSuffix, Values, GroupTexts, ByteTexts;
    var known := Values(front) + [0] + Values(back);
    var parts' := WithSuffix(parts, dd, ByteValues(ds));
    SuffixBehind(parts, dd, known, ds);
    assert known + Quad(ds) == Values(front) + [0] + (Values(back) + Quad(ds));
    Expanded(parts', dd + 1, Values(front), Values(back) + Quad(ds));
  }

  /** The form of a text whose suffix has been read. */
  lemma SuffixForm(str: seq<byte>, st: Scan, w: Seen) returns (f: Form)
    requires Shows(str, st, w) && Stops(str, st) && Suffix(str, st).Some?
    requires Finish(str, st).Some?
    ensures FormOk(f) && FormText(f) == str && Finish(str, st) == Some((|str|, FormGroups(f)))
  {
    hide Shows, Stops, Suffix, Finish, ByteTexts, Dots, Parse4, FormOk, FormText, FormGroups;
    SuffixRoom(str, st);
    var t := ColonBefore(str, st.s);
    var ds := DottedSound(str[t + 1..]);
    DottedBegins(ds);
    if str[st.s] == COLON {
      f := TripleForm(str, st, w, ds);
    } else {
      f := DigitsForm(str, st, w, ds);
    }
  }

  lemma LeadEnds(str: seq<byte>, st: Scan, w: Seen)
    requires Shows(str, st, w) && w.digits == [] && w.done == []
    ensures st.d == |LeadValues(w.lead)| && str[..st.s] == LeadText(w.lead)
    ensures w.lead.None? ==> st.s == 0 && st.d == 0
    ensures w.lead.Some? ==> st.d == |w.lead.value| + 1 && st.s >= 2 && str[st.s - 1] == COLON && GroupTexts(w.lead.value)
    ensures w.lead.Some? ==> st.coloncolon == Some(|w.lead.value|) && st.parts[..st.d] == Values(w.lead.value) + [0]
  {
    hide Colons, Values;
    assert LeadText(w.lead) + Each([]) + [] == LeadText(w.lead);
    assert LeadValues(w.lead) + Values([]) == LeadValues(w.lead);
    if w.lead.Some? {
      assert str[st.s - 1] == str[..st.s][st.s - 1];
    }
  }

  /** A third colon behind `::`. */
  lemma TripleForm(str: seq<byte>, st: Scan, w: Seen, ds: seq<seq<byte>>) returns (f: Form)
    requires Shows(str, st, w) && Stops(str, st) && Suffix(str, st) == Some(ByteValues(ds)) && Finish(str, st).Some?
    requires st.s < |str| && str[st.s] == COLON && |ds| == 4 && ByteTexts(ds) && str[st.s + 1..] == Dots(ds) && Dots(ds) != []
    ensures w.lead.Some? && f == TripleColon(w.lead.value, ds)
    ensures FormOk(f) && FormText(f) == str && Finish(str, st) == Some((|str|, FormGroups(f)))
  {
    hide Shows, Stops, Values, Suffix, Finish, Dots, Colons, GroupTexts, ByteTexts, FormGroups, ColonBefore, FormText, Expand, WithSuffix;
    SuffixRoom(str, st);
    ShowsInside(str, st, w);
    ShowsSize(str, st, w);
    StopsAtColon(str, st, w);
    LeadEnds(str, st, w);
    FinishTriple(str, st);
    f := TripleColon(w.lead.value, ds);
    TripleText(str, st.s, w.lead.value, ds);
    TripleGroups(st.parts, st.d, w.lead.value, ds);
  }

  lemma TripleText(str: seq<byte>, s: nat, front: seq<seq<byte>>, ds: seq<seq<byte>>)
    requires s < |str| && str[..s] == LeadText(Some(front)) && str[s] == COLON && str[s + 1..] == Dots(ds)
    ensures FormText(TripleColon(front, ds)) == str
  {
    hide Colons, Dots;
    assert str == str[..s] + [COLON] + str[s + 1..];
  }

  /** The scan is stopped by a colon only behind `::`. */
  lemma StopsAtColon(str: seq<byte>, st: Scan, w: Seen)
    requires Shows(str, st, w) && Stops(str, st) && st.s + 1 < |str| && str[st.s] == COLON && LastGroup(st) <= 6
    ensures w.digits == [] && w.done == [] && w.lead.Some?
  {
    hide Each, Colons, Values, Value, GroupTexts;
    assert st.p == 0 && st.d != 0;
    DoneOrDigits(str, st, w);
  }

  lemma FinishTriple(str: seq<byte>, st: Scan)
    requires Inside(st) && Suffix(str, st).Some? && st.p == 0 && st.d > 0 && st.coloncolon == Some(st.d - 1) && Finish(str, st).Some?
    ensures st.d <= 6
    ensures Finish(str, st) == Some((|str|, Expand(WithSuffix(st.parts, st.d, Suffix(str, st).value), st.d + 1, st.coloncolon)))
  {
    hide Expand, WithSuffix;
    SuffixRoom(str, st);
    hide Suffix;
  }

  lemma TripleGroups(parts: seq<Group>, dd: nat, front: seq<seq<byte>>, ds: seq<seq<byte>>)
    requires |parts| == 8 && dd < 7 && dd == |front| + 1 && FormOk(TripleColon(front, ds)) && parts[..dd] == Values(front) + [0]
    ensures Expand(WithSuffix(parts, dd, ByteValues(ds)), dd + 1, Some(|front|)) == FormGroups(TripleColon(front, ds))
  {
    hide Expand, WithSuffix, Values, GroupTexts, ByteTexts, Quad;
    NoValues();
    NoGroups();
    assert Values(front) + [0] + [] == Values(front) + [0];
    ShortDottedGroups(parts, dd, front, [], ds);
    assert Values(front) + Zeros(6 - |front|) + [] + Quad(ds) == Values(front) + Zeros(6 - |front|) + Quad(ds);
  }

  lemma NoGroups()
    ensures GroupTexts([])
  {}

  lemma SuffixRoom(str: seq<byte>, st: Scan)
    requires Suffix(str, st).Some?
    ensures LastGroup(st) <= 6 && st.s < |str| && (LastGroup(st) == 6 || st.coloncolon.Some?)
    ensures ColonBefore(str, st.s) != 0 && Parse4(str[ColonBefore(str, st.s) + 1..]) == Suffix(str, st)
  {
    hide Parse4, ColonBefore;
  }

  /** The first part of the suffix has been scanned as the digits of a group. */
  lemma DigitsForm(str: seq<byte>, st: Scan, w: Seen, ds: seq<seq<byte>>) returns (f: Form)
    requires Shows(str, st, w) && Stops(str, st) && Suffix(str, st) == Some(ByteValues(ds)) && Finish(str, st).Some?
    requires st.s < |str| && str[st.s] != COLON && |ds| == 4 && ByteTexts(ds) && str[ColonBefore(str, st.s) + 1..] == Dots(ds)
    requires Dots(ds) != [] && IsDigit(Dots(ds)[0])
    ensures FormOk(f) && FormText(f) == str && Finish(str, st) == Some((|str|, FormGroups(f)))
  {
    hide Suffix, Finish, Shows, Dots, ByteTexts, Stops;
    SuffixRoom(str, st);
    ShowsInside(str, st, w);
    DigitsBefore(str, st, w);
    ColonFromDigits(str, st, w);
    var b := ColonBefore(str, st.s) + 1;
    assert str == str[..b] + str[b..];
    if w.lead.None? {
      FullDottedForm(str, st, w, ds);
      f := FullDotted(w.done, ds);
    } else {
      ShortDottedForm(str, st, w, ds);
      f := ShortDotted(w.lead.value, w.done, ds);
    }
  }

  lemma ShowsParts(str: seq<byte>, st: Scan, w: Seen)
    requires Shows(str, st, w)
    ensures |st.parts| == 8 && st.d <= 8 && st.parts[..st.d] == LeadValues(w.lead) + Values(w.done)
    ensures GroupTexts(w.done) && (w.lead.Some? ==> GroupTexts(w.lead.value))
  {}

  lemma FinishSuffix(str: seq<byte>, st: Scan)
    requires Inside(st) && Suffix(str, st).Some? && LastGroup(st) == st.d && st.d <= 6
    ensures Finish(str, st) == Some((|str|, Expand(WithSuffix(st.parts, st.d, Suffix(str, st).value), st.d + 1, st.coloncolon)))
  {
    hide Suffix, Expand, WithSuffix;
  }

  lemma FullDottedForm(str: seq<byte>, st: Scan, w: Seen, ds: seq<seq<byte>>)
    requires Shows(str, st, w) && w.digits != [] && w.lead.None? && LastGroup(st) == 6 && |ds| == 4 && ByteTexts(ds)
    requires Suffix(str, st) == Some(ByteValues(ds)) && str == LeadText(w.lead) + Each(w.done) + Dots(ds)
    ensures FormOk(FullDotted(w.done, ds)) && FormText(FullDotted(w.done, ds)) == str
    ensures Finish(str, st) == Some((|str|, FormGroups(FullDotted(w.done, ds))))
  {
    hide Value, Values, Suffix, Expand, WithSuffix, Dots, Each, GroupTexts, ByteTexts, Finish, Shows, FormGroups;
    ShowsInside(str, st, w);
    ShowsSize(str, st, w);
    ShowsParts(str, st, w);
    assert [] + Each(w.done) == Each(w.done) && [] + Values(w.done) == Values(w.done);
    FinishSuffix(str, st);
    FullDottedGroups(st.parts, w.done, ds);
  }

  lemma FullDottedGroups(parts: seq<Group>, front: seq<seq<byte>>, ds: seq<seq<byte>>)
    requires |parts| == 8 && FormOk(FullDotted(front, ds)) && parts[..6] == Values(front)
    ensures Expand(WithSuffix(parts, 6, ByteValues(ds)), 7, None) == FormGroups(FullDotted(front, ds))
  {
    hide Expand, WithSuffix, Values, GroupTexts, ByteTexts;
    SuffixBehind(parts, 6, Values(front), ds);
    var parts' := WithSuffix(parts, 6, ByteValues(ds));
    assert parts'[..8] == parts';
    NoRoomNeeded(parts', 7, None);
  }

  lemma ShortDottedForm(str: seq<byte>, st: Scan, w: Seen, ds: seq<seq<byte>>)
    requires Shows(str, st, w) && w.digits != [] && w.lead.Some? && LastGroup(st) <= 6 && |ds| == 4 && ByteTexts(ds)
    requires Suffix(str, st) == Some(ByteValues(ds)) && str == LeadText(w.lead) + Each(w.done) + Dots(ds)
    ensures var f := ShortDotted(w.lead.value, w.done, ds);
            FormOk(f) && FormText(f) == str && Finish(str, st) == Some((|str|, FormGroups(f)))
  {
    hide Value, Values, Suffix, Expand, WithSuffix, Dots, Each, Colons, GroupText, ByteText;
    FinishSuffix(str, st);
    hide Finish;
    ShortDottedGroups(st.parts, st.d, w.lead.value, w.done, ds);
  }

  /** Without digits there is no colon to start from, or no digit behind it. */
  lemma DigitsBefore(str: seq<byte>, st: Scan, w: Seen)
    requires Shows(str, st, w) && Stops(str, st) && st.s < |str| && str[st.s] != COLON
    requires ColonBefore(str, st.s) != 0
    requires str[ColonBefore(str, st.s) + 1..] != [] && IsDigit(str[ColonBefore(str, st.s) + 1..][0])
    ensures w.digits != []
  {
    if w.digits == [] {
      LeadEnds(str, st, w);
    }
  }

  // ---- soundness ----------------------------------------------------------

  /** A colon that no group follows is not the start of a suffix. */
  lemma BreakHasNoSuffix(str: seq<byte>, st: Scan, w: Seen)
    requires Shows(str, st, w) && Breaks(str, st)
    ensures Suffix(str, st.(d := st.d + 1)) == None
  {
    hide Parse4;
    assert ColonBefore(str, st.s) == st.s;
    if Suffix(str, st.(d := st.d + 1)).Some? {
      var ds := DottedSound(str[st.s + 1..]);
      DottedBegins(ds);
      assert str[st.s + 1] == str[st.s + 1..][0];
      assert st.p == 0 && st.d == 0;
      LeadEnds(str, st, w);
    }
  }

  lemma DoneOrDigits(str: seq<byte>, st: Scan, w: Seen)
    requires Shows(str, st, w) && Stops(str, st)
    ensures w.digits == [] ==> w.done == []
  {}

  lemma BreakNotWhole(str: seq<byte>, st: Scan, w: Seen)
    requires Shows(str, st, w) && Breaks(str, st)
    ensures st.d < 7 && Inside(st)
    ensures Finish(str, st.(d := st.d + 1)).Some? && Finish(str, st.(d := st.d + 1)).value.0 < |str|
  {
    hide Suffix, Expand;
    BreakHasNoSuffix(str, st, w);
  }

  /** Whatever is taken whole for an address is of one of the forms, and the address is the form's. */
  lemma AcceptedSound(str: seq<byte>, a: seq<Group>) returns (f: Form)
    requires Parse(str) == Some((|str|, a))
    ensures FormOk(f) && FormText(f) == str && FormGroups(f) == a
  {
    hide Shows, Suffix, Expand, Stops, Breaks, FormOk, FormText, FormGroups;
    ShowsStart(str);
    var st, w := RunShows(str, Start(), Seen(None, [], []));
    ShowsInside(str, st, w);
    if Stops(str, st) {
      if Suffix(str, st).Some? {
        f := SuffixForm(str, st, w);
      } else if LastGroup(st) != 7 && st.coloncolon.None? {
        f := Nothing;
        EmptyForm(str);
      } else {
        DoneOrDigits(str, st, w);
        f := ScannedForm(str, st, w);
        assert str[..|str|] == str;
      }
    } else {
      BreakNotWhole(str, st, w);
      f := Nothing;
    }
  }

  lemma EmptyForm(str: seq<byte>)
    requires |str| == 0
    ensures FormOk(Nothing) && FormText(Nothing) == str && Parse(str) == Some((0, FormGroups(Nothing)))
  {
    RunAtEnd(str, Start());
    assert Start().parts == FormGroups(Nothing);
  }

  // ---- completeness -------------------------------------------------------

  lemma StopsRun(str: seq<byte>, st: Scan)
    requires Inside(st) && Stops(str, st)
    ensures Run(str, st) == Some(st)
  {
    if st.s < |str| {
      QuotedText.HexValueIs(str[st.s]);
    }
  }

  lemma {:induction false} DigitsTaken(str: seq<byte>, st: Scan, w: Seen, more: seq<byte>) returns (st': Scan)
    requires Shows(str, st, w) && Inside(st) && st.d <= 7 && Quoting.At(str, st.s, more)
    requires |w.digits + more| <= 4 && forall k :: 0 <= k < |more| ==> QuotedText.IsHex(more[k])
    ensures Inside(st') && Run(str, st) == Run(str, st') && st'.s == st.s + |more|
    ensures Shows(str, st', w.(digits := w.digits + more))
    decreases |more|
  {
    hide Shows, Run, Quoting.At, Quoting.HexValue;
    ShowsInside(str, st, w);
    ShowsSize(str, st, w);
    if more == [] {
      st' := st;
      assert w.digits + more == w.digits;
    } else {
      assert more == [more[0]] + more[1..];
      Quoting.AtSplit(str, st.s, [more[0]], more[1..]);
      Quoting.AtChars(str, st.s, more);
      assert str[st.s + 0] == more[0];
      ShowsDigit(str, st, w);
      QuotedText.HexValueIs(more[0]);
      ReadDigit(str, st, Quoting.HexValue(more[0]).value);
      var w1 := w.(digits := w.digits + [more[0]]);
      assert w1.digits + more[1..] == w.digits + more;
      st' := DigitsTaken(str, Read(st, Quoting.HexValue(more[0]).value), w1, more[1..]);
    }
  }

  lemma ShowsSize(str: seq<byte>, st: Scan, w: Seen)
    requires Shows(str, st, w)
    ensures st.s <= |str| && st.p == |w.digits| && st.d == (if w.lead.Some? then |w.lead.value| + 1 else 0) + |w.done|
    ensures st.coloncolon == (if w.lead.Some? then Some(|w.lead.value|) else None)
  {}

  lemma GroupTaken(str: seq<byte>, st: Scan, w: Seen, g: seq<byte>) returns (st': Scan)
    requires Shows(str, st, w) && w.digits == [] && st.d <= 7 && GroupText(g) && Quoting.At(str, st.s, g)
    ensures Inside(st') && Run(str, st) == Run(str, st') && st'.s == st.s + |g|
    ensures Shows(str, st', w.(digits := g))
  {
    hide Shows, Run;
    assert [] + g == g;
    ShowsInside(str, st, w);
    st' := DigitsTaken(str, st, w, g);
  }

  lemma ColonTaken(str: seq<byte>, st: Scan, w: Seen) returns (st': Scan)
    requires Shows(str, st, w) && w.digits != [] && st.d < 7 && st.s + 1 < |str| && str[st.s] == COLON && QuotedText.IsHex(str[st.s + 1])
    ensures Inside(st') && Run(str, st) == Run(str, st') && st'.s == st.s + 1
    ensures Shows(str, st', Seen(w.lead, w.done + [w.digits], []))
  {
    ShowsColon(str, st, w);
    QuotedText.HexValueIs(str[st.s + 1]);
    st' := st.(s := st.s + 1, d := st.d + 1, p := 0);
  }

  lemma EachIsColons(gs: seq<seq<byte>>)
    requires gs != []
    ensures Each(gs) == Colons(gs) + [COLON]
  {}

  lemma {:induction false} GroupsTaken(str: seq<byte>, st: Scan, w: Seen, gs: seq<seq<byte>>) returns (st': Scan)
    requires Shows(str, st, w) && w.digits == [] && gs != [] && GroupTexts(gs) && st.d + |gs| <= 8
    requires Quoting.At(str, st.s, Colons(gs))
    ensures Inside(st') && Run(str, st) == Run(str, st') && st'.s == st.s + |Colons(gs)|
    ensures Shows(str, st', Seen(w.lead, w.done + gs[..|gs| - 1], gs[|gs| - 1]))
    decreases |gs|
  {
    hide Shows, Run, Quoting.At, Colons, Inside, GroupText;
    var n := |gs| - 1;
    var front, g := gs[..n], gs[n];
    ShowsSize(str, st, w);
    ColonsSnoc(gs);
    if front == [] {
      assert w.done + front == w.done;
      st' := GroupTaken(str, st, w, g);
    } else {
      Quoting.AtSplit(str, st.s, Colons(front), [COLON] + g);
      LastNotEmpty(front);
      var st1 := GroupsTaken(str, st, w, front);
      var w1 := Seen(w.lead, w.done + front[..n - 1], front[n - 1]);
      ShowsSize(str, st1, w1);
      st' := NextTaken(str, st1, w1, g);
      LastBehind(w.done, front);
    }
  }

  lemma ColonsSnoc(gs: seq<seq<byte>>)
    requires gs != []
    ensures var front, g := gs[..|gs| - 1], gs[|gs| - 1];
            Colons(gs) == if front == [] then g else Colons(front) + ([COLON] + g)
  {
    var front, g := gs[..|gs| - 1], gs[|gs| - 1];
    if front == [] {
      assert Each(front) + g == g;
    } else {
      EachIsColons(front);
      assert Colons(front) + [COLON] + g == Colons(front) + ([COLON] + g);
    }
  }

  lemma LastBehind(done: seq<seq<byte>>, gs: seq<seq<byte>>)
    requires gs != []
    ensures done + gs[..|gs| - 1] + [gs[|gs| - 1]] == done + gs
  {}

  /** A colon and one more group. */
  lemma NextTaken(str: seq<byte>, st: Scan, w: Seen, g: seq<byte>) returns (st': Scan)
    requires Shows(str, st, w) && Inside(st) && w.digits != [] && GroupText(g) && st.d < 7 && Quoting.At(str, st.s, [COLON] + g)
    ensures Inside(st') && Run(str, st) == Run(str, st') && st'.s == st.s + 1 + |g|
    ensures Shows(str, st', Seen(w.lead, w.done + [w.digits], g))
  {
    hide Shows, Run, Quoting.At, Inside, GroupText;
    Quoting.AtSplit(str, st.s, [COLON], g);
    ColonThere(str, st.s, g);
    var st1 := ColonTaken(str, st, w);
    var w1 := Seen(w.lead, w.done + [w.digits], []);
    ShowsSize(str, st, w);
    ShowsSize(str, st1, w1);
    st' := GroupTaken(str, st1, w1, g);
  }

  lemma LastNotEmpty(gs: seq<seq<byte>>)
    requires GroupTexts(gs) && gs != []
    ensures gs[|gs| - 1] != []
  {}

  lemma EachNone()
    ensures Each([]) == [] && Colons([]) == []
  {}

  lemma ColonThere(str: seq<byte>, i: nat, g: seq<byte>)
    requires Quoting.At(str, i, [COLON]) && Quoting.At(str, i + 1, g) && GroupText(g)
    ensures i + 1 < |str| && str[i] == COLON && QuotedText.IsHex(str[i + 1])
  {
    assert str[i..i + 1][0] == COLON;
    Quoting.AtChars(str, i + 1, g);
    assert str[i + 1 + 0] == g[0];
  }

  /** Groups with a colon behind each, before a digit. */
  lemma EachTaken(str: seq<byte>, st: Scan, w: Seen, gs: seq<seq<byte>>) returns (st': Scan)
    requires Shows(str, st, w) && w.digits == [] && w.done == [] && GroupTexts(gs) && st.d + |gs| <= 7
    requires Quoting.At(str, st.s, Each(gs)) && st.s + |Each(gs)| < |str| && QuotedText.IsHex(str[st.s + |Each(gs)|])
    ensures Inside(st') && Run(str, st) == Run(str, st') && st'.s == st.s + |Each(gs)|
    ensures Shows(str, st', Seen(w.lead, gs, []))
  {
    hide Shows, Run, Quoting.At, Each, Colons;
    EachNone();
    ShowsInside(str, st, w);
    if gs == [] {
      st' := st;
    } else {
      EachIsColons(gs);
      Quoting.AtSplit(str, st.s, Colons(gs), [COLON]);
      ShowsSize(str, st, w);
      var st1 := GroupsTaken(str, st, w, gs);
      var w1 := Seen(w.lead, w.done + gs[..|gs| - 1], gs[|gs| - 1]);
      ShowsSize(str, st1, w1);
      OneColon(str, st1.s);
      st' := ColonTaken(str, st1, w1);
      assert w.done + gs[..|gs| - 1] + [gs[|gs| - 1]] == gs;
    }
  }

  lemma OneColon(str: seq<byte>, i: nat)
    requires Quoting.At(str, i, [COLON])
    ensures i < |str| && str[i] == COLON
  {
    assert str[i..i + 1][0] == COLON;
  }

  /** The groups before `::`, and the two colons. */
  lemma FrontTaken(str: seq<byte>, gs: seq<seq<byte>>) returns (st: Scan)
    requires GroupTexts(gs) && |gs| <= 7 && Quoting.At(str, 0, Colons(gs) + [COLON, COLON])
    ensures Inside(st) && Run(str, Start()) == Run(str, st) && st.s == |Colons(gs)| + 2
    ensures Shows(str, st, Seen(Some(gs), [], []))
  {
    hide Shows, Run, Quoting.At, Each, Colons;
    ShowsStart(str);
    EachNone();
    var w := Seen(None, [], []);
    Quoting.AtSplit(str, 0, Colons(gs), [COLON, COLON]);
    var st0 := Start();
    if gs != [] {
      st0 := GroupsTaken(str, st0, w, gs);
      w := Seen(None, [] + gs[..|gs| - 1], gs[|gs| - 1]);
      assert [] + gs[..|gs| - 1] + [gs[|gs| - 1]] == gs;
    }
    ShowsInside(str, st0, w);
    ShowsSize(str, st0, w);
    TwoColons(str, st0.s);
    assert Before(w) == gs;
    ShowsSkip(str, st0, w);
    ReadColons(str, st0);
    st := Skip(st0);
  }

  lemma TwoColons(str: seq<byte>, i: nat)
    requires Quoting.At(str, i, [COLON, COLON])
    ensures i + 1 < |str| && str[i] == COLON && str[i + 1] == COLON
  {
    assert str[i..i + 2][0] == COLON && str[i..i + 2][1] == COLON;
  }

  // ---- every form is read -------------------------------------------------

  lemma FinishScanned(str: seq<byte>, st: Scan)
    requires Inside(st) && LastGroup(st) <= 7 && (LastGroup(st) == 7 || st.coloncolon.Some?) && Suffix(str, st).None?
    ensures Finish(str, st) == Some((st.s, Expand(st.parts, LastGroup(st), st.coloncolon)))
  {
    hide Suffix, Expand;
  }

  /** What may stand in the text of an address. */
  predicate AddressByte(c: byte) {
    QuotedText.IsHex(c) || c == COLON || c == DOT
  }

  ghost predicate AddressBytes(t: seq<byte>) {
    forall k :: 0 <= k < |t| ==> AddressByte(t[k])
  }

  lemma {:induction false} DotsBytes(ds: seq<seq<byte>>)
    requires ByteTexts(ds)
    ensures AddressBytes(Dots(ds))
    decreases |ds|
  {
    if ds != [] {
      DotsBytes(ds[..|ds| - 1]);
      assert ByteText(ds[|ds| - 1]);
    }
  }

  lemma {:induction false} EachBytes(gs: seq<seq<byte>>)
    requires GroupTexts(gs)
    ensures AddressBytes(Each(gs)) && AddressBytes(Colons(gs))
    decreases |gs|
  {
    if gs != [] {
      EachBytes(gs[..|gs| - 1]);
      assert GroupText(gs[|gs| - 1]);
    }
  }

  /** Nothing but an address byte can continue the text of an address. */
  predicate Closed(str: seq<byte>, e: nat) {
    e == |str| || (e < |str| && !AddressByte(str[e]))
  }

  lemma SuffixBytes(str: seq<byte>, st: Scan)
    requires Suffix(str, st).Some?
    ensures st.s < |str| && AddressByte(str[st.s])
  {
    SuffixRoom(str, st);
    var t := ColonBefore(str, st.s);
    if t < st.s {
      hide AddressByte;
      var ds := DottedSound(str[t + 1..]);
      DotsBytes(ds);
      assert AddressByte(str[t + 1..][st.s - t - 1]);
    }
  }

  lemma ClosedHasNoSuffix(str: seq<byte>, st: Scan)
    requires Closed(str, st.s)
    ensures Suffix(str, st) == None
  {
    hide Suffix, AddressByte;
    if Suffix(str, st).Some? {
      SuffixBytes(str, st);
    }
  }

  /** The scan has reached the end of the address behind its last group, or behind `::`. */
  lemma EndReached(str: seq<byte>, st: Scan, w: Seen)
    requires Shows(str, st, w) && Closed(str, st.s) && Inside(st) && Run(str, Start()) == Run(str, st)
    requires LastGroup(st) <= 7 && (LastGroup(st) == 7 || w.lead.Some?) && (w.digits == [] ==> w.done == [])
    ensures var f := if w.lead.None? then Full(Rest(w)) else Short(w.lead.value, Rest(w));
            FormOk(f) && FormText(f) == str[..st.s] && Parse(str) == Some((st.s, FormGroups(f)))
  {
    hide Shows, Run, Expand, FormOk, FormText, FormGroups, Finish, Suffix;
    ShowsInside(str, st, w);
    ShowsSize(str, st, w);
    var f := ScannedForm(str, st, w);
    StopsRun(str, st);
    ClosedHasNoSuffix(str, st);
    FinishScanned(str, st);
  }

  /** Eight groups, whatever follows that is no address byte. */
  lemma FullRead(gs: seq<seq<byte>>, rest: seq<byte>)
    requires FormOk(Full(gs)) && Closed(rest, 0)
    ensures Parse(Colons(gs) + rest) == Some((|Colons(gs)|, FormGroups(Full(gs))))
  {
    hide Shows, Run, Quoting.At, Colons, GroupTexts, Parse, FormGroups, FormText, AddressByte;
    var str := Colons(gs) + rest;
    AtWhole(str);
    Quoting.AtSplit(str, 0, Colons(gs), rest);
    ShowsStart(str);
    var st := GroupsTaken(str, Start(), Seen(None, [], []), gs);
    var w := Seen(None, [] + gs[..7], gs[7]);
    ShowsSize(str, st, w);
    LastNotEmpty(gs);
    assert Rest(w) == gs;
    EndReached(str, st, w);
  }

  /** Groups on both sides of `::`, whatever follows that is no address byte. */
  lemma ShortRead(front: seq<seq<byte>>, back: seq<seq<byte>>, rest: seq<byte>)
    requires FormOk(Short(front, back)) && Closed(rest, 0)
    ensures Parse(FormText(Short(front, back)) + rest) == Some((|FormText(Short(front, back))|, FormGroups(Short(front, back))))
  {
    hide Shows, Run, Quoting.At, Colons, GroupTexts, Parse, FormGroups, AddressByte;
    var lead := Colons(front) + [COLON, COLON];
    var str := lead + Colons(back) + rest;
    AtWhole(str);
    Quoting.AtSplit(str, 0, lead + Colons(back), rest);
    Quoting.AtSplit(str, 0, lead, Colons(back));
    EachNone();
    var st := FrontTaken(str, front);
    var w := Seen(Some(front), [], []);
    ShowsSize(str, st, w);
    if back != [] {
      var n := |back| - 1;
      st := GroupsTaken(str, st, w, back);
      w := Seen(Some(front), [] + back[..n], back[n]);
      ShowsSize(str, st, w);
      LastNotEmpty(back);
      assert [] + back[..n] + [back[n]] == back;
    }
    assert Rest(w) == back;
    EndReached(str, st, w);
  }

  /** The digits of the first part that the scan takes for a group. */
  function Scanned(d: seq<byte>): seq<byte> {
    if |d| <= 4 then d else d[..4]
  }

  /** The scan stops in the first part of the suffix, which is then read from its colon on. */
  lemma SuffixTaken(str: seq<byte>, st: Scan, w: Seen, ds: seq<seq<byte>>) returns (st': Scan)
    requires Shows(str, st, w) && Inside(st) && w.digits == [] && |ds| == 4 && ByteTexts(ds) && st.d <= 6
    requires w.lead.Some? || w.done != []
    requires st.d == 6 || w.lead.Some?
    requires st.s + |Dots(ds)| == |str| && str[st.s..] == Dots(ds)
    ensures Shows(str, st', w.(digits := Scanned(ds[0]))) && Inside(st') && LastGroup(st') == st.d
    ensures Run(str, st) == Some(st') && Suffix(str, st') == Some(ByteValues(ds))
  {
    hide Shows, Run, Dots, Quoting.At, Parse4, ByteTexts, Suffix;
    var g := Scanned(ds[0]);
    FirstScanned(str, st.s, ds);
    st' := GroupTaken(str, st, w, g);
    var w' := w.(digits := g);
    ShowsSize(str, st, w);
    ShowsSize(str, st', w');
    ScannedStops(str, st.s, ds, st');
    StopsRun(str, st');
    ColonFromDigits(str, st', w');
    DottedComplete(ds);
    SuffixTried(str, st');
  }

  lemma SuffixTried(str: seq<byte>, st: Scan)
    requires st.s < |str| && ColonBefore(str, st.s) != 0 && (LastGroup(st) == 6 || (LastGroup(st) < 6 && st.coloncolon.Some?))
    ensures Suffix(str, st) == Parse4(str[ColonBefore(str, st.s) + 1..])
  {
    hide Parse4, ColonBefore;
  }

  lemma FirstScanned(str: seq<byte>, s: nat, ds: seq<seq<byte>>)
    requires |ds| == 4 && ByteTexts(ds) && s + |Dots(ds)| == |str| && str[s..] == Dots(ds)
    ensures GroupText(Scanned(ds[0])) && Quoting.At(str, s, Scanned(ds[0]))
  {
    DotsFirst(ds);
    var d, g := ds[0], Scanned(ds[0]);
    assert Dots(ds)[0..|d|] == d;
    assert forall k :: 0 <= k < |g| ==> g[k] == d[k] && IsDigit(d[k]);
    assert str[s..s + |g|] == str[s..][..|g|] == Dots(ds)[..|g|] == g;
  }

  lemma ScannedStops(str: seq<byte>, s: nat, ds: seq<seq<byte>>, st: Scan)
    requires |ds| == 4 && ByteTexts(ds) && s + |Dots(ds)| == |str| && str[s..] == Dots(ds)
    requires st.s == s + |Scanned(ds[0])| && st.p == |Scanned(ds[0])|
    ensures Stops(str, st) && st.s < |str| && str[st.s] != COLON
  {
    var d, g := ds[0], Scanned(ds[0]);
    DotsFirst(ds);
    DotsSplit(ds, 1);
    assert ds[..1] == [d];
    assert str[st.s] == str[s..][|g|] == Dots(ds)[|g|];
    if |d| > 4 {
      assert Dots(ds)[..|d|][4] == d[4];
    }
  }

  lemma FullDottedRead(front: seq<seq<byte>>, ds: seq<seq<byte>>)
    requires FormOk(FullDotted(front, ds))
    ensures Parse(Each(front) + Dots(ds)) == Some((|Each(front) + Dots(ds)|, FormGroups(FullDotted(front, ds))))
  {
    hide Shows, Run, Quoting.At, Each, Dots, GroupTexts, ByteTexts, FormGroups, Finish, Suffix;
    var str := Each(front) + Dots(ds);
    AtWhole(str);
    Quoting.AtSplit(str, 0, Each(front), Dots(ds));
    DottedBegins(ds);
    assert str[|Each(front)|] == Dots(ds)[0];
    ShowsStart(str);
    var st := EachTaken(str, Start(), Seen(None, [], []), front);
    var w := Seen(None, front, []);
    ShowsSize(str, st, w);
    var st' := SuffixTaken(str, st, w, ds);
    var w' := w.(digits := Scanned(ds[0]));
    ScannedSome(ds);
    assert LeadText(None) + Each(front) + Dots(ds) == str;
    FullDottedForm(str, st', w', ds);
  }

  lemma ScannedSome(ds: seq<seq<byte>>)
    requires |ds| == 4 && ByteTexts(ds)
    ensures Scanned(ds[0]) != []
  {}

  lemma ShortDottedRead(front: seq<seq<byte>>, back: seq<seq<byte>>, ds: seq<seq<byte>>)
    requires FormOk(ShortDotted(front, back, ds))
    ensures var f := ShortDotted(front, back, ds); Parse(FormText(f)) == Some((|FormText(f)|, FormGroups(f)))
  {
    hide Shows, Run, Quoting.At, Colons, Each, Dots, GroupTexts, ByteTexts, FormGroups, Finish, Suffix;
    var f := ShortDotted(front, back, ds);
    var str := FormText(f);
    var lead := Colons(front) + [COLON, COLON];
    assert str == lead + (Each(back) + Dots(ds));
    AtWhole(str);
    Quoting.AtSplit(str, 0, lead, Each(back) + Dots(ds));
    Quoting.AtSplit(str, |lead|, Each(back), Dots(ds));
    DottedBegins(ds);
    assert str[|lead| + |Each(back)|] == Dots(ds)[0];
    var st := FrontTaken(str, front);
    var w := Seen(Some(front), [], []);
    ShowsSize(str, st, w);
    st := EachTaken(str, st, w, back);
    w := Seen(Some(front), back, []);
    ShowsSize(str, st, w);
    assert str[st.s..] == Dots(ds);
    var st' := SuffixTaken(str, st, w, ds);
    ScannedSome(ds);
    ShortDottedForm(str, st', w.(digits := Scanned(ds[0])), ds);
  }

  lemma TripleColonRead(front: seq<seq<byte>>, ds: seq<seq<byte>>)
    requires FormOk(TripleColon(front, ds))
    ensures var f := TripleColon(front, ds); Parse(FormText(f)) == Some((|FormText(f)|, FormGroups(f)))
  {
    hide Shows, Run, Quoting.At, Colons, Dots, GroupTexts, ByteTexts, FormGroups, Parse4, Expand, WithSuffix;
    var str := FormText(TripleColon(front, ds));
    var lead := Colons(front) + [COLON, COLON];
    assert str == lead + ([COLON] + Dots(ds));
    AtWhole(str);
    Quoting.AtSplit(str, 0, lead, [COLON] + Dots(ds));
    DottedBegins(ds);
    DottedComplete(ds);
    var st := FrontTaken(str, front);
    var w := Seen(Some(front), [], []);
    ShowsSize(str, st, w);
    assert str[st.s] == COLON && str[st.s + 1..] == Dots(ds);
    assert Stops(str, st);
    StopsRun(str, st);
    var f := TripleForm(str, st, w, ds);
  }

  /** Every form is taken whole, for the address it stands for. */
  lemma AcceptedComplete(f: Form)
    requires FormOk(f)
    ensures Parse(FormText(f)) == Some((|FormText(f)|, FormGroups(f)))
  {
    hide Parse, Each, Colons, Dots, FormGroups;
    match f
    case Full(gs) =>
      FullRead(gs, []);
      assert Colons(gs) + [] == Colons(gs);
    case Short(front, back) =>
      ShortRead(front, back, []);
      assert FormText(f) + [] == FormText(f);
    case FullDotted(front, ds) => FullDottedRead(front, ds);
    case ShortDotted(front, back, ds) => ShortDottedRead(front, back, ds);
    case TripleColon(front, ds) => TripleColonRead(front, ds);
    case Nothing => EmptyForm([]);
  }

  /** IP6AddressArg::parse() takes a text for an address exactly when the text is one of the forms and the address is the form's. */
  lemma AcceptedExactly(str: seq<byte>, a: seq<Group>)
    ensures Parse(str) == Some((|str|, a)) <==> exists f :: FormOk(f) && FormText(f) == str && FormGroups(f) == a
  {
    hide Parse, FormOk, FormText, FormGroups;
    if Parse(str) == Some((|str|, a)) {
      var f := AcceptedSound(str, a);
    }
    forall f | FormOk(f) && FormText(f) == str && FormGroups(f) == a
      ensures Parse(str) == Some((|str|, a))
    {
      AcceptedComplete(f);
    }
  }

  // ---- what is used of a longer text --------------------------------------

  lemma ShownBytes(str: seq<byte>, st: Scan, w: Seen)
    requires Shows(str, st, w)
    ensures st.s <= |str| && AddressBytes(str[..st.s])
  {
    hide Each, Colons, Value, Values;
    EachBytes(w.done);
    if w.lead.Some? {
      EachBytes(w.lead.value);
    }
  }

  lemma FormBytes(f: Form)
    requires FormOk(f)
    ensures AddressBytes(FormText(f))
  {
    hide Each, Colons, Dots, GroupText, ByteText;
    match f
    case Full(gs) => EachBytes(gs);
    case Short(front, back) =>
      EachBytes(front);
      EachBytes(back);
    case FullDotted(front, ds) =>
      EachBytes(front);
      DotsBytes(ds);
    case ShortDotted(front, back, ds) =>
      EachBytes(front);
      EachBytes(back);
      DotsBytes(ds);
    case TripleColon(front, ds) =>
      EachBytes(front);
      DotsBytes(ds);
    case Nothing =>
  }

  /** Whatever the text, the part of it that is used is made of digits, colons and dots. */
  lemma UsedBytes(str: seq<byte>)
    requires Parse(str).Some?
    ensures Parse(str).value.0 <= |str| && AddressBytes(str[..Parse(str).value.0])
  {
    hide Shows, Stops, Breaks, Expand, AddressBytes;
    ShowsStart(str);
    NoBytes(str);
    var st, w := RunShows(str, Start(), Seen(None, [], []));
    ShowsInside(str, st, w);
    ShownBytes(str, st, w);
    if !Stops(str, st) {
      BreakHasNoSuffix(str, st, w);
    } else if Suffix(str, st).Some? {
      var f := SuffixForm(str, st, w);
      FormBytes(f);
      assert str[..|str|] == str;
    }
  }

  lemma NoBytes(str: seq<byte>)
    ensures AddressBytes(str[..0])
  {}

  // ---- printed addresses --------------------------------------------------

  /** What unparse() prints for a group. */
  lemma {:induction false} HexIsGroup(v: nat)
    requires v < 0x1_0000
    ensures GroupText(Hex(v)) && Value(Hex(v)) == v
    decreases v
  {
    HexLength(v);
    if v >= 16 {
      HexIsGroup(v / 16);
      HexDigitIs(v % 16);
      HexLength(v / 16);
      assert GroupText(Hex(v));
      ValueSnoc(Hex(v / 16), HexDigit(v % 16));
    } else {
      HexDigitIs(v);
      ValueSnoc([], HexDigit(v));
      assert [] + [HexDigit(v)] == [HexDigit(v)];
    }
  }

  lemma HexDigitIs(v: nat)
    requires v < 16
    ensures QuotedText.IsHex(HexDigit(v)) && QuotedText.DigitValue(HexDigit(v)) == v
  {}

  function Hexes(a: seq<Group>): (gs: seq<seq<byte>>)
    ensures |gs| == |a|
  {
    seq(|a|, k requires 0 <= k < |a| => Hex(a[k]))
  }

  lemma HexesAreGroups(a: seq<Group>)
    ensures GroupTexts(Hexes(a)) && Values(Hexes(a)) == a
  {
    forall k | 0 <= k < |a|
      ensures GroupText(Hexes(a)[k]) && Values(Hexes(a))[k] == a[k]
    {
      HexIsGroup(a[k]);
    }
  }

  lemma HexesSnoc(a: seq<Group>, i: nat, m: nat)
    requires i <= m < |a|
    ensures Hexes(a[i..m + 1]) == Hexes(a[i..m]) + [Hex(a[m])]
  {
    hide Hex;
  }

  lemma {:induction false} HexesText(a: seq<Group>, i: nat, j: nat)
    requires i <= j <= |a|
    ensures Colons(Hexes(a[i..j])) == Groups(a, i, j)
    decreases j - i
  {
    hide Hex, Groups, Hexes, Colons, Each, Values, Value;
    EachNone();
    if i == j {
      GroupsNone(a, i);
      assert a[i..j] == [] && Hexes([]) == [];
    } else {
      var m := j - 1;
      var gs := Hexes(a[i..m]);
      HexesText(a, i, m);
      GroupsSnoc(a, i, m);
      HexesSnoc(a, i, m);
      ValuesSnoc(gs, Hex(a[m]));
      var h := Hex(a[m]);
      if i < m {
        EachIsColons(gs);
        assert Groups(a, i, m) + [COLON] + h == Groups(a, i, m) + ([COLON] + h);
      } else {
        assert gs == [] && [] + h == h;
      }
    }
  }

  /** What is printed for a byte. */
  lemma {:induction false} DecIsByte(v: nat)
    ensures (forall k :: 0 <= k < |Dec(v)| ==> IsDigit(Dec(v)[k])) && QuotedText.Number(Dec(v), 10) == v
    decreases v
  {
    if v < 10 {
      OneDigit((48 + v) as byte);
    } else {
      DecIsByte(v / 10);
      var h := Dec(v / 10);
      assert Dec(v)[..|h|] == h && Dec(v)[..|h| + 1] == Dec(v);
      DecimalStep(Dec(v), |h|);
    }
  }

  function Decs(b: seq<byte>): (ds: seq<seq<byte>>)
    ensures |ds| == |b|
  {
    seq(|b|, k requires 0 <= k < |b| => Dec(b[k] as nat))
  }

  lemma DecsAreBytes(b: seq<byte>)
    requires |b| == 4
    ensures ByteTexts(Decs(b)) && ByteValues(Decs(b)) == b
  {
    forall k | 0 <= k < 4
      ensures ByteText(Decs(b)[k]) && ByteValues(Decs(b))[k] == b[k]
    {
      DecIsByte(b[k] as nat);
    }
  }

  lemma DotsOfFour(a: seq<byte>, b: seq<byte>, c: seq<byte>, d: seq<byte>)
    ensures Dots([a, b, c, d]) == a + [DOT] + b + [DOT] + c + [DOT] + d
  {
    assert [a, b, c, d][..3] == [a, b, c] && [a, b, c][..2] == [a, b] && [a, b][..1] == [a];
    assert Dots([a, b]) == a + [DOT] + b;
    assert Dots([a, b, c]) == Dots([a, b]) + [DOT] + c;
  }

  lemma DecsText(b: seq<byte>)
    requires |b| == 4
    ensures Dots(Decs(b)) == Dotted(b)
  {
    hide Dec, Dots;
    assert Decs(b) == [Dec(b[0] as nat), Dec(b[1] as nat), Dec(b[2] as nat), Dec(b[3] as nat)];
    DotsOfFour(Dec(b[0] as nat), Dec(b[1] as nat), Dec(b[2] as nat), Dec(b[3] as nat));
  }

  lemma SuffixGroups(a: seq<Group>)
    requires |a| == 8
    ensures Pair(Bytes(a)[0], Bytes(a)[1]) == a[6] && Pair(Bytes(a)[2], Bytes(a)[3]) == a[7]
  {}

  lemma QuadIs(a: seq<Group>)
    requires |a| == 8
    ensures Quad(Decs(Bytes(a))) == a[6..8]
  {
    DecsAreBytes(Bytes(a));
    SuffixGroups(a);
  }

  /** The form that unparse() prints of an address without a dotted suffix. */
  lemma TextIsForm(a: seq<Group>, zp: nat, zl: nat) returns (f: Form)
    requires |a| == 8 && ZeroRun(a, zp, zl) && !Special(a)
    ensures f == if zl > 1 then Short(Hexes(a[..zp]), Hexes(a[zp + zl..])) else Full(Hexes(a))
    ensures FormOk(f) && FormText(f) == Text(a, zp, zl) && FormGroups(f) == a
  {
    hide Groups, Hexes, Colons, GroupTexts, Values, Hex;
    if zl > 1 {
      var front, back := a[..zp], a[zp + zl..];
      assert a[0..zp] == front && a[zp + zl..8] == back;
      HexesAreGroups(front);
      HexesAreGroups(back);
      HexesText(a, 0, zp);
      HexesText(a, zp + zl, 8);
      f := Short(Hexes(front), Hexes(back));
      assert a == front + Zeros(zl) + back;
    } else {
      HexesAreGroups(a[0..8]);
      HexesText(a, 0, 8);
      assert a[0..8] == a;
      f := Full(Hexes(a));
    }
  }

  /** The forms it prints of the others. */
  lemma SpecialIsForm(a: seq<Group>, zp: nat, zl: nat) returns (f: Form)
    requires |a| == 8 && zp + zl <= 8 && Special(a)
    ensures FormOk(f) && FormText(f) == Text(a, zp, zl) && FormGroups(f) == a
  {
    hide FormText, FormGroups, FormOk, Dotted, Hex;
    if a[5] == 0xFFFF {
      f := MappedForm(a);
    } else if a[6] == 0 && a[7] == 0 {
      f := ZeroForm(a);
    } else {
      f := CompatibleForm(a);
    }
  }

  lemma ZeroForm(a: seq<Group>) returns (f: Form)
    requires |a| == 8 && ZeroRun(a, 0, 8)
    ensures FormOk(f) && FormText(f) == [COLON, COLON] && FormGroups(f) == a
  {
    f := Short([], []);
    EachNone();
    assert a == Zeros(8);
  }

  lemma CompatibleForm(a: seq<Group>) returns (f: Form)
    requires |a| == 8 && ZeroRun(a, 0, 6)
    ensures FormOk(f) && FormText(f) == [COLON, COLON] + Dotted(Bytes(a)) && FormGroups(f) == a
  {
    hide Dotted, Dots, Decs, ByteTexts, Quad;
    var ds := Decs(Bytes(a));
    DecsAreBytes(Bytes(a));
    DecsText(Bytes(a));
    QuadIs(a);
    EachNone();
    f := ShortDotted([], [], ds);
    assert FormText(f) == [COLON, COLON] + Dotted(Bytes(a));
    assert a == Zeros(6) + a[6..8];
    assert Values([]) + Zeros(6) + Values([]) + Quad(ds) == Zeros(6) + Quad(ds);
  }

  lemma MappedForm(a: seq<Group>) returns (f: Form)
    requires |a| == 8 && ZeroRun(a, 0, 5) && a[5] == 0xFFFF
    ensures FormOk(f) && FormText(f) == [COLON, COLON] + Hex(0xFFFF) + [COLON] + Dotted(Bytes(a)) && FormGroups(f) == a
  {
    hide Dotted, Dots, Decs, ByteTexts, Quad, Hex, GroupText, Value, Each, Values;
    var ds, h := Decs(Bytes(a)), Hex(0xFFFF);
    DecsAreBytes(Bytes(a));
    DecsText(Bytes(a));
    QuadIs(a);
    EachNone();
    ValuesSnoc([], h);
    HexIsGroup(0xFFFF);
    assert [] + [h] == [h];
    f := ShortDotted([], [h], ds);
    MappedText(h, Dotted(Bytes(a)));
    assert a == Zeros(5) + [0xFFFF] + a[6..8];
    NoValues();
    assert [] + Zeros(5) + ([] + [0xFFFF]) + Quad(ds) == Zeros(5) + [0xFFFF] + Quad(ds);
  }

  lemma NoValues()
    ensures Values([]) == []
  {}

  lemma MappedText(h: seq<byte>, dotted: seq<byte>)
    ensures [] + [COLON, COLON] + ([] + h + [COLON]) + dotted == [COLON, COLON] + h + [COLON] + dotted
  {
    assert [] + [COLON, COLON] + ([] + h + [COLON]) == [COLON, COLON] + h + [COLON];
  }

  /**
   Section 4.2.2 of RFC 5952: two colons stand for a run of two groups or more,
   never for one.  Dots are in the text exactly of the addresses with an IPv4
   suffix, ::a.b.c.d and ::ffff:a.b.c.d.
   */
  lemma TextShape(a: seq<Group>, zp: nat, zl: nat)
    requires |a| == 8 && FirstLongestRun(a, zp, zl)
    ensures (exists k: nat :: DoubleAt(Text(a, zp, zl), k)) <==> exists i :: 0 <= i < 7 && a[i] == 0 && a[i + 1] == 0
    ensures DOT in Text(a, zp, zl) <==>
              && (forall i :: 0 <= i < 5 ==> a[i] == 0) && (a[5] == 0 || a[5] == 0xFFFF)
              && (exists i :: 5 <= i < 8 && a[i] != 0)
  {
    if Special(a) {
      SpecialShape(a, zp, zl);
    } else {
      PlainShape(a, zp, zl);
    }
  }

  lemma SpecialShape(a: seq<Group>, zp: nat, zl: nat)
    requires |a| == 8 && Special(a) && zp + zl <= 8
    ensures exists k: nat :: DoubleAt(Text(a, zp, zl), k)
    ensures a[0] == 0 && a[0 + 1] == 0
    ensures DOT in Text(a, zp, zl) <==> exists i :: 5 <= i < 8 && a[i] != 0
  {
    hide Hex, Dotted;
    assert DoubleAt(Text(a, zp, zl), 0);
    DottedHasDot(Bytes(a));
    if a[5] != 0 || a[6] != 0 || a[7] != 0 {
      assert Text(a, zp, zl)[|Text(a, zp, zl)| - |Dotted(Bytes(a))|..] == Dotted(Bytes(a));
    }
  }

  lemma DottedHasDot(b: seq<byte>)
    requires |b| == 4
    ensures DOT in Dotted(b)
  {
    hide Dec;
    assert Dotted(b)[|Dec(b[0] as nat)|] == DOT;
  }

  lemma {:induction false} EachNoDot(gs: seq<seq<byte>>)
    requires GroupTexts(gs)
    ensures DOT !in Each(gs) && DOT !in Colons(gs)
    decreases |gs|
  {
    if gs != [] {
      EachNoDot(gs[..|gs| - 1]);
      assert GroupText(gs[|gs| - 1]);
    }
  }

  lemma PlainShape(a: seq<Group>, zp: nat, zl: nat)
    requires |a| == 8 && !Special(a) && FirstLongestRun(a, zp, zl)
    ensures (exists k: nat :: DoubleAt(Text(a, zp, zl), k)) <==> exists i :: 0 <= i < 7 && a[i] == 0 && a[i + 1] == 0
    ensures DOT !in Text(a, zp, zl)
  {
    hide Text, Hexes, Each, Colons, GroupTexts, Values, Special;
    LongRun(a, zp, zl);
    var f := TextIsForm(a, zp, zl);
    if zl > 1 {
      EachNoDot(f.front);
      EachNoDot(f.back);
      assert DoubleAt(FormText(f), |Colons(f.front)|);
    } else {
      EachNoDot(f.groups);
      EachSparse(f.groups);
    }
  }

  lemma LongRun(a: seq<Group>, zp: nat, zl: nat)
    requires FirstLongestRun(a, zp, zl) && |a| == 8
    ensures zl > 1 <==> exists i :: 0 <= i < 7 && a[i] == 0 && a[i + 1] == 0
  {
    if zl > 1 {
      assert a[zp] == 0 && a[zp + 1] == 0;
    }
    if i :| 0 <= i < 7 && a[i] == 0 && a[i + 1] == 0 {
      assert ZeroRun(a, i, 2);
    }
  }

  /** Reading the text of any address uses all of it and gives the address back. */
  lemma RoundTrip(a: seq<Group>, zp: nat, zl: nat)
    requires |a| == 8 && FirstLongestRun(a, zp, zl)
    ensures Parse(Text(a, zp, zl)) == Some((|Text(a, zp, zl)|, a))
  {
    hide Parse, Text, FormGroups, FormText, FormOk;
    var f;
    if Special(a) {
      f := SpecialIsForm(a, zp, zl);
    } else {
      f := TextIsForm(a, zp, zl);
    }
    AcceptedComplete(f);
  }

  /** A printed address is read as far as it goes when something else follows it, such as the / of a prefix length. */
  lemma PrintedBefore(a: seq<Group>, zp: nat, zl: nat, rest: seq<byte>)
    requires |a| == 8 && ZeroRun(a, zp, zl) && !Special(a) && rest != [] && !AddressByte(rest[0])
    ensures Parse(Text(a, zp, zl) + rest) == Some((|Text(a, zp, zl)|, a))
  {
    hide Parse, Text, FormGroups, Colons, GroupTexts;
    var f := TextIsForm(a, zp, zl);
    if f.Full? {
      FullRead(f.groups, rest);
    } else {
      ShortRead(f.front, f.back, rest);
    }
  }

  // ---- the two forms that RFC 4291 does not have --------------------------

  /** Three colons in a row. */
  predicate TripleAt(t: seq<byte>, k: nat) {
    k + 2 < |t| && t[k] == COLON && t[k + 1] == COLON && t[k + 2] == COLON
  }

  predicate DoubleAt(t: seq<byte>, k: nat) {
    k + 1 < |t| && t[k] == COLON && t[k + 1] == COLON
  }

  /** No two colons in a row, and none in front. */
  ghost predicate Sparse(t: seq<byte>) {
    (forall k: nat :: !DoubleAt(t, k)) && (t != [] ==> t[0] != COLON)
  }

  lemma {:induction false} EachSparse(gs: seq<seq<byte>>)
    requires GroupTexts(gs)
    ensures Sparse(Each(gs)) && Sparse(Colons(gs)) && (gs != [] ==> Colons(gs)[|Colons(gs)| - 1] != COLON)
    decreases |gs|
  {
    if gs != [] {
      EachSparse(gs[..|gs| - 1]);
      var e, g := Each(gs[..|gs| - 1]), gs[|gs| - 1];
      assert GroupText(g);
      GroupSparse(g);
      SparseAppend(e, g);
      SparseColon(e + g);
    }
  }

  lemma GroupSparse(g: seq<byte>)
    requires GroupText(g)
    ensures Sparse(g) && g[|g| - 1] != COLON && COLON !in g
  {}

  lemma SparseAppend(t: seq<byte>, u: seq<byte>)
    requires Sparse(t) && Sparse(u) && u != []
    ensures Sparse(t + u)
  {
    forall k: nat
      ensures !DoubleAt(t + u, k)
    {
      assert !DoubleAt(t, k);
      if k >= |t| {
        assert !DoubleAt(u, k - |t|);
      }
    }
  }

  lemma SparseColon(t: seq<byte>)
    requires Sparse(t) && t != [] && t[|t| - 1] != COLON
    ensures Sparse(t + [COLON])
  {
    forall k: nat
      ensures !DoubleAt(t + [COLON], k)
    {
      assert !DoubleAt(t, k);
    }
  }

  lemma {:induction false} DotsSparse(ds: seq<seq<byte>>)
    requires ByteTexts(ds)
    ensures COLON !in Dots(ds)
    decreases |ds|
  {
    if ds != [] {
      DotsSparse(ds[..|ds| - 1]);
      assert ByteText(ds[|ds| - 1]);
    }
  }

  lemma NoTripleAround(t: seq<byte>, u: seq<byte>)
    requires Sparse(t) && Sparse(u) && (t != [] ==> t[|t| - 1] != COLON)
    ensures NoTriple(t + [COLON, COLON] + u)
  {
    var s := t + [COLON, COLON] + u;
    forall k: nat
      ensures !TripleAt(s, k)
    {
      assert !DoubleAt(t, k);
      if k > |t| {
        assert k >= |t| + 2 ==> !DoubleAt(u, k - |t| - 2);
      }
    }
  }

  lemma NoTripleSparse(t: seq<byte>)
    requires Sparse(t)
    ensures NoTriple(t)
  {
    forall k: nat
      ensures !TripleAt(t, k)
    {
      assert !DoubleAt(t, k);
    }
  }

  lemma SparseDots(t: seq<byte>, u: seq<byte>)
    requires Sparse(t) && COLON !in u && u != []
    ensures Sparse(t + u)
  {
    assert Sparse(u);
    SparseAppend(t, u);
  }

  ghost predicate NoTriple(t: seq<byte>) {
    forall k: nat :: !TripleAt(t, k)
  }

  lemma FullDottedTriple(front: seq<seq<byte>>, ds: seq<seq<byte>>)
    requires FormOk(FullDotted(front, ds))
    ensures NoTriple(Each(front) + Dots(ds)) && Each(front) + Dots(ds) != []
  {
    hide Each, Dots, GroupTexts, ByteTexts, Sparse, Colons;
    EachSparse(front);
    DotsSparse(ds);
    DottedBegins(ds);
    SparseDots(Each(front), Dots(ds));
    NoTripleSparse(Each(front) + Dots(ds));
  }

  lemma ShortTriple(front: seq<seq<byte>>, t: seq<byte>)
    requires GroupTexts(front) && Sparse(t)
    ensures NoTriple(Colons(front) + [COLON, COLON] + t) && Colons(front) + [COLON, COLON] + t != []
  {
    hide Each, Colons, GroupTexts, Sparse;
    EachSparse(front);
    EachNone();
    NoTripleAround(Colons(front), t);
  }

  lemma BackSparse(back: seq<seq<byte>>, ds: seq<seq<byte>>)
    requires GroupTexts(back) && ByteTexts(ds) && |ds| == 4
    ensures Sparse(Each(back) + Dots(ds)) && Sparse(Colons(back))
  {
    hide Each, Colons, Dots, GroupTexts, ByteTexts, Sparse;
    EachSparse(back);
    DotsSparse(ds);
    DottedBegins(ds);
    SparseDots(Each(back), Dots(ds));
  }

  /** No text of RFC 4291 is empty or has three colons in a row. */
  lemma FormTriple(f: Form)
    requires FormOk(f)
    ensures (f.TripleColon? <==> !NoTriple(FormText(f))) && (f.Nothing? <==> FormText(f) == [])
  {
    hide Each, Colons, Dots, GroupTexts, ByteTexts, Sparse, TripleAt, NoTriple;
    match f
    case Full(gs) =>
      EachSparse(gs);
      NoTripleSparse(Colons(gs));
      FullSome(gs);
    case Short(front, back) =>
      EachSparse(back);
      ShortTriple(front, Colons(back));
    case FullDotted(front, ds) => FullDottedTriple(front, ds);
    case ShortDotted(front, back, ds) =>
      BackSparse(back, ds);
      ShortTriple(front, Each(back) + Dots(ds));
      assert FormText(f) == Colons(front) + [COLON, COLON] + (Each(back) + Dots(ds));
    case TripleColon(front, ds) => TripleThere(Colons(front), Dots(ds));
    case Nothing => NoTripleNothing();
  }

  lemma FullSome(gs: seq<seq<byte>>)
    requires GroupTexts(gs) && gs != []
    ensures Colons(gs) != []
  {
    LastNotEmpty(gs);
  }

  lemma NoTripleNothing()
    ensures NoTriple([])
  {}

  lemma TripleThere(t: seq<byte>, u: seq<byte>)
    ensures !NoTriple(t + [COLON, COLON] + [COLON] + u) && t + [COLON, COLON] + [COLON] + u != []
  {
    assert TripleAt(t + [COLON, COLON] + [COLON] + u, |t|);
  }

  /** Of the texts that are taken, RFC 4291 knows those that are not empty and have no three colons in a row. */
  lemma StandardExactly(str: seq<byte>)
    requires Parse(str).Some? && Parse(str).value.0 == |str|
    ensures (exists f :: FormOk(f) && FormText(f) == str && !f.TripleColon? && !f.Nothing?) <==>
            str != [] && NoTriple(str)
  {
    hide Parse, FormOk, FormText, NoTriple;
    var f := AcceptedSound(str, Parse(str).value.1);
    FormTriple(f);
    forall g | FormOk(g) && FormText(g) == str
      ensures (g.TripleColon? <==> f.TripleColon?) && (g.Nothing? <==> f.Nothing?)
    {
      FormTriple(g);
    }
  }
}
