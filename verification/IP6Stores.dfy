/**
 Where IP6AddressArg::basic_parse (click/lib/ip6address.cc) stores outside the
 address: exactly for the texts of two shapes, seven groups, `::` and a digit,
 or six groups, `:::` and a dotted address.
 */
module IP6Stores {
  import opened Wrappers
  import opened IP6Text
  import opened IP6Parse
  import opened IP6Grammar
  import Quoting
  import QuotedText

  // ---- the two shapes -----------------------------------------------------

  /** Seven groups, two colons, a digit. */
  ghost predicate SevenAndMore(str: seq<byte>, gs: seq<seq<byte>>, rest: seq<byte>) {
    && GroupTexts(gs) && |gs| == 7 && rest != [] && QuotedText.IsHex(rest[0])
    && str == Colons(gs) + [COLON, COLON] + rest
  }

  /** Six groups, three colons, a dotted address. */
  ghost predicate SixAndDotted(str: seq<byte>, gs: seq<seq<byte>>, ds: seq<seq<byte>>) {
    && GroupTexts(gs) && |gs| == 6 && ByteTexts(ds) && |ds| == 4
    && str == Colons(gs) + [COLON, COLON] + ([COLON] + Dots(ds))
  }

  ghost predicate StoresOutside(str: seq<byte>) {
    || (exists gs, rest :: SevenAndMore(str, gs, rest))
    || (exists gs, ds :: SixAndDotted(str, gs, ds))
  }

  // ---- a text that stores outside has one of the shapes -------------------

  lemma OverflowShape(str: seq<byte>, st: Scan, w: Seen)
    requires Shows(str, st, w) && Overflows(str, st)
    ensures StoresOutside(str)
  {
    hide Colons, Each, Value, GroupText;
    LeadEnds(str, st, w);
    assert str == str[..st.s] + str[st.s..];
    assert SevenAndMore(str, w.lead.value, str[st.s..]);
  }

  lemma SuffixShape(str: seq<byte>, st: Scan, w: Seen)
    requires Shows(str, st, w) && Stops(str, st) && Finish(str, st).None?
    ensures StoresOutside(str)
  {
    hide Colons, Dots, Each, Value, Values, GroupText, ByteText, Suffix, Expand;
    SuffixRoom(str, st);
    assert st.p == 0 && w.lead.Some? && |w.lead.value| == 6;
    LeadEnds(str, st, w);
    var ds := DottedSound(str[ColonBefore(str, st.s) + 1..]);
    DottedBegins(ds);
    if str[st.s] != COLON {
      DigitsBefore(str, st, w);
    } else {
      assert str == str[..st.s] + ([COLON] + str[st.s + 1..]);
      assert SixAndDotted(str, w.lead.value, ds);
    }
  }

  // ---- a text of either shape stores outside ------------------------------

  lemma SevenStores(str: seq<byte>, gs: seq<seq<byte>>, rest: seq<byte>)
    requires SevenAndMore(str, gs, rest)
    ensures Parse(str).None?
  {
    hide Colons, GroupTexts, Shows, Quoting.At;
    var lead := Colons(gs) + [COLON, COLON];
    AtWhole(str);
    Quoting.AtSplit(str, 0, lead, rest);
    var st := FrontTaken(str, gs);
    ShowsSize(str, st, Seen(Some(gs), [], []));
    assert str[st.s] == rest[0];
    QuotedText.HexValueIs(str[st.s]);
  }

  lemma SixStores(str: seq<byte>, gs: seq<seq<byte>>, ds: seq<seq<byte>>)
    requires SixAndDotted(str, gs, ds)
    ensures Parse(str).None?
  {
    hide Colons, Dots, GroupTexts, ByteTexts, Shows, Run, Quoting.At, Parse4, Expand;
    var lead := Colons(gs) + [COLON, COLON];
    AtWhole(str);
    Quoting.AtSplit(str, 0, lead, [COLON] + Dots(ds));
    DottedBegins(ds);
    DottedComplete(ds);
    var st := FrontTaken(str, gs);
    ShowsSize(str, st, Seen(Some(gs), [], []));
    assert str[st.s] == COLON && str[st.s + 1..] == Dots(ds);
    StopsRun(str, st);
    SuffixTried(str, st);
  }

  /** basic_parse() stores outside the address exactly for the texts of the two shapes. */
  lemma StoresOutsideExactly(str: seq<byte>)
    ensures Parse(str).None? <==> StoresOutside(str)
  {
    if Parse(str).None? {
      hide Shows, Stops, Breaks, Overflows, StoresOutside, Finish;
      ShowsStart(str);
      var st, w := RunShows(str, Start(), Seen(None, [], []));
      if Overflows(str, st) {
        OverflowShape(str, st, w);
      } else if Stops(str, st) {
        SuffixShape(str, st, w);
      } else {
        BreakNotWhole(str, st, w);
      }
    }
    hide Parse, SevenAndMore, SixAndDotted;
    if gs, rest :| SevenAndMore(str, gs, rest) {
      SevenStores(str, gs, rest);
    }
    if gs, ds :| SixAndDotted(str, gs, ds) {
      SixStores(str, gs, ds);
    }
  }

  /**
   IP6AddressArg::basic_parse(): None when the text makes it store outside the
   address.  The whole text is used exactly when it is one of the forms, and
   then the result is what the form stands for.
   */
  method BasicParse(str: seq<byte>, result: array<Group>) returns (used: Option<nat>)
    requires result.Length == 8
    modifies result
    ensures used.None? <==> StoresOutside(str)
    ensures used.Some? ==> Parse(str) == Some((used.value, result[..]))
    ensures used.Some? ==> used.value <= |str| && AddressBytes(str[..used.value])
    ensures used == Some(|str|) <==> exists f :: FormOk(f) && FormText(f) == str
    ensures used == Some(|str|) ==> exists f :: FormOk(f) && FormText(f) == str && FormGroups(f) == result[..]
  {
    hide Run, Finish, Parts, StoresOutside, FormOk, FormText, FormGroups, AddressBytes;
    StoresOutsideExactly(str);
    var st := ScanGroups(str, result);
    if st.None? {
      used := None;
    } else {
      used := FinishGroups(str, result, st.value);
      UsedWhole(str, used, result[..]);
    }
    FormsUsed(str);
  }

  lemma UsedWhole(str: seq<byte>, used: Option<nat>, a: seq<Group>)
    requires used.Some? ==> Parse(str) == Some((used.value, a))
    ensures used.Some? ==> used.value <= |str| && AddressBytes(str[..used.value])
    ensures used == Some(|str|) ==> exists f :: FormOk(f) && FormText(f) == str && FormGroups(f) == a
  {
    hide Parse, FormOk, FormText, FormGroups, AddressBytes;
    if used.Some? {
      UsedBytes(str);
      AcceptedExactly(str, a);
    }
  }

  lemma FormsUsed(str: seq<byte>)
    ensures forall f :: FormOk(f) && FormText(f) == str ==> Parse(str).Some? && Parse(str).value.0 == |str|
  {
    hide Parse, FormOk, FormText, FormGroups;
    forall f | FormOk(f) && FormText(f) == str
      ensures Parse(str).Some? && Parse(str).value.0 == |str|
    {
      AcceptedComplete(f);
    }
  }

  // ---- instances ----------------------------------------------------------

  /** 1:2:3:4:5:6:7::8 */
  lemma SevenAndMoreStores()
    ensures Parse([49, 58, 50, 58, 51, 58, 52, 58, 53, 58, 54, 58, 55, 58, 58, 56]).None?
  {
    hide Parse, Colons;
    var str: seq<byte> := [49, 58, 50, 58, 51, 58, 52, 58, 53, 58, 54, 58, 55, 58, 58, 56];
    var gs: seq<seq<byte>> := [[49], [50], [51], [52], [53], [54], [55]];
    ColonsOfDigits(gs);
    assert gs[0] == [49] && gs[1] == [50] && gs[2] == [51] && gs[3] == [52] && gs[4] == [53] && gs[5] == [54] && gs[6] == [55];
    assert Colons(gs) == [49, 58, 50, 58, 51, 58, 52, 58, 53, 58, 54, 58, 55];
    SevenStores(str, gs, [56]);
  }

  /** 1:2:3:4:5:6:::1.2.3.4 */
  lemma SixAndDottedStores()
    ensures Parse([49, 58, 50, 58, 51, 58, 52, 58, 53, 58, 54, 58, 58, 58, 49, 46, 50, 46, 51, 46, 52]).None?
  {
    hide Parse, Colons, Dots, ByteText;
    var str: seq<byte> := [49, 58, 50, 58, 51, 58, 52, 58, 53, 58, 54, 58, 58, 58, 49, 46, 50, 46, 51, 46, 52];
    var gs: seq<seq<byte>> := [[49], [50], [51], [52], [53], [54]];
    ColonsOfDigits(gs);
    assert gs[0] == [49] && gs[1] == [50] && gs[2] == [51] && gs[3] == [52] && gs[4] == [53] && gs[5] == [54];
    assert Colons(gs) == [49, 58, 50, 58, 51, 58, 52, 58, 53, 58, 54];
    SingleBytes([49], [50], [51], [52]);
    SixStores(str, gs, [[49], [50], [51], [52]]);
  }

  lemma SingleBytes(a: seq<byte>, b: seq<byte>, c: seq<byte>, d: seq<byte>)
    requires |a| == |b| == |c| == |d| == 1 && IsDigit(a[0]) && IsDigit(b[0]) && IsDigit(c[0]) && IsDigit(d[0])
    ensures ByteTexts([a, b, c, d]) && Dots([a, b, c, d]) == [a[0], DOT, b[0], DOT, c[0], DOT, d[0]]
  {
    DotsOfFour(a, b, c, d);
    hide Dots;
    assert a == [a[0]] && b == [b[0]] && c == [c[0]] && d == [d[0]];
    OneDigit(a[0]);
    OneDigit(b[0]);
    OneDigit(c[0]);
    OneDigit(d[0]);
  }

  /** Groups of one digit each: every other character is a colon. */
  lemma {:induction false} EachOfDigits(gs: seq<seq<byte>>)
    requires forall i :: 0 <= i < |gs| ==> |gs[i]| == 1
    ensures |Each(gs)| == 2 * |gs|
    ensures forall i :: 0 <= i < |gs| ==> Each(gs)[2 * i] == gs[i][0] && Each(gs)[2 * i + 1] == COLON
    decreases |gs|
  {
    if gs != [] {
      EachOfDigits(gs[..|gs| - 1]);
    }
  }

  lemma ColonsOfDigits(gs: seq<seq<byte>>)
    requires gs != [] && forall i :: 0 <= i < |gs| ==> |gs[i]| == 1
    ensures |Colons(gs)| == 2 * |gs| - 1
    ensures forall i :: 0 <= i < |gs| ==> Colons(gs)[2 * i] == gs[i][0] && (i < |gs| - 1 ==> Colons(gs)[2 * i + 1] == COLON)
  {
    hide Each, Colons;
    EachOfDigits(gs);
    EachIsColons(gs);
    forall i | 0 <= i < |gs|
      ensures Colons(gs)[2 * i] == gs[i][0] && (i < |gs| - 1 ==> Colons(gs)[2 * i + 1] == COLON)
    {
      assert Each(gs)[2 * i] == gs[i][0] && Each(gs)[2 * i + 1] == COLON;
    }
  }

  /** No text that unparse() writes has one of the two shapes. */
  lemma UnparsedStaysInside(a: seq<Group>, zp: nat, zl: nat)
    requires |a| == 8 && FirstLongestRun(a, zp, zl)
    ensures !StoresOutside(Text(a, zp, zl))
  {
    hide Parse, StoresOutside;
    RoundTrip(a, zp, zl);
    StoresOutsideExactly(Text(a, zp, zl));
  }
}
