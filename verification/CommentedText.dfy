/**
 What cp_uncomment(), cp_unquote() and cp_argvec() make of texts with comments
 (click/lib/confparse.cc:334-446 and 679-711), said through the notation:
 comments, with the white space around them, become one space between two
 stretches of text and nothing at either end.
 */
module CommentedText {
  import opened Wrappers
  import opened Confparse
  import opened Quoting
  import opened QuotedText

  // ---- the notation -------------------------------------------------------

  datatype Space =
    | Blank(c: byte)
    | BlockComment(text: seq<byte>)
    | LineComment(text: seq<byte>, ending: seq<byte>)

  function SpaceText(s: Space): seq<byte> {
    match s
    case Blank(c) => [c]
    case BlockComment(text) => ChunkText(Block(text))
    case LineComment(text, ending) => [SLASH, SLASH] + text + ending
  }

  function GapText(gap: seq<Space>): seq<byte> {
    if gap == [] then [] else SpaceText(gap[0]) + GapText(gap[1..])
  }

  predicate SpaceOk(s: Space) {
    match s
    case Blank(c) => White(c)
    case BlockComment(text) => ChunkOk(Block(text))
    case LineComment(text, ending) =>
      && (forall k :: 0 <= k < |text| ==> text[k] != NEWLINE && text[k] != RETURN)
      && (ending == [NEWLINE] || ending == [RETURN] || ending == [RETURN, NEWLINE])
  }

  /** Whether a line comment ends in a carriage return that a newline would belong to. */
  predicate Returns(s: Space) {
    s.LineComment? && s.ending == [RETURN]
  }

  predicate GapOk(gap: seq<Space>) {
    && (forall k :: 0 <= k < |gap| ==> SpaceOk(gap[k]))
    && (forall k :: 1 <= k < |gap| && Returns(gap[k - 1]) ==> gap[k] != Blank(NEWLINE))
  }

  predicate HasComment(gap: seq<Space>) {
    exists k :: 0 <= k < |gap| && !gap[k].Blank?
  }

  /** A stretch of text, and the space in front of it. */
  datatype Piece = Piece(gap: seq<Space>, parts: seq<Part>)

  /** A text with comments: its pieces, and the space at its end. */
  datatype Commented = Commented(pieces: seq<Piece>, tail: seq<Space>)

  function PiecesText(ps: seq<Piece>): seq<byte> {
    if ps == [] then [] else GapText(ps[0].gap) + Text(ps[0].parts) + PiecesText(ps[1..])
  }

  function FullText(c: Commented): seq<byte> {
    PiecesText(c.pieces) + GapText(c.tail)
  }

  /** A slash at the end of a stretch is not followed by a comment at once. */
  predicate Separate(parts: seq<Part>, gap: seq<Space>) {
    parts != [] && parts[|parts| - 1] == Plain(SLASH) && gap != [] ==> gap[0].Blank?
  }

  predicate PieceOk(p: Piece) {
    GapOk(p.gap) && p.parts != [] && TextOk(p.parts)
  }

  predicate CommentedOk(c: Commented) {
    && GapOk(c.tail)
    && (forall k :: 0 <= k < |c.pieces| ==> PieceOk(c.pieces[k]))
    && (forall k :: 1 <= k < |c.pieces| ==> HasComment(c.pieces[k].gap) && Separate(c.pieces[k - 1].parts, c.pieces[k].gap))
    && (c.pieces != [] ==> Separate(c.pieces[|c.pieces| - 1].parts, c.tail))
  }

  /** No comma outside quotes and comments. */
  predicate NoComma(c: Commented) {
    forall k :: 0 <= k < |c.pieces| ==> NoPlainComma(c.pieces[k].parts)
  }

  /** What is left: the stretches, with single spaces between. */
  function Kept(ps: seq<Piece>): seq<byte> {
    if ps == [] then []
    else if |ps| == 1 then Text(ps[0].parts)
    else Text(ps[0].parts) + [SPACE] + Kept(ps[1..])
  }

  /** And what that stands for. */
  function KeptBytes(ps: seq<Piece>): seq<byte> {
    if ps == [] then []
    else if |ps| == 1 then Meaning(ps[0].parts)
    else Meaning(ps[0].parts) + [SPACE] + KeptBytes(ps[1..])
  }

  // ---- skipping gaps ------------------------------------------------------

  lemma {:induction false} LineFound(x: seq<byte>, i: nat, e: nat)
    requires i <= e < |x| && EndsLine(x[e]) && forall k :: i <= k < e ==> !EndsLine(x[k])
    ensures LineEnd(x, i) == e
    decreases e - i
  {
    if i < e {
      LineFound(x, i + 1, e);
    }
  }

  lemma LineSkipped(x: seq<byte>, i: nat, text: seq<byte>, ending: seq<byte>)
    requires SpaceOk(LineComment(text, ending)) && At(x, i, [SLASH, SLASH] + text + ending)
    requires ending == [RETURN] ==> var e := i + 3 + |text|; e == |x| || x[e] != NEWLINE
    ensures CommentAt(x, i) && CommentEnd(x, i) == i + 2 + |text| + |ending|
  {
    var t := [SLASH, SLASH] + text + ending;
    AtChars(x, i, t);
    assert x[i + 0] == t[0] && x[i + 1] == t[1];
    var m := 2 + |text|;
    assert x[i + m] == t[m] == ending[0];
    forall k | i + 2 <= k < i + m
      ensures !EndsLine(x[k])
    {
      assert x[i + (k - i)] == t[k - i] == text[k - i - 2];
    }
    LineFound(x, i + 2, i + m);
    if |ending| == 2 {
      assert x[i + (m + 1)] == t[m + 1] == ending[1];
    }
  }

  lemma SpaceSkipped(x: seq<byte>, i: nat, s: Space)
    requires SpaceOk(s) && At(x, i, SpaceText(s))
    requires Returns(s) ==> var e := i + |SpaceText(s)|; e == |x| || (e < |x| && x[e] != NEWLINE)
    ensures var e := i + |SpaceText(s)|;
            && i < e <= |x|
            && if s.Blank? then IsSpace(x[i]) && e == i + 1 else !IsSpace(x[i]) && CommentAt(x, i) && CommentEnd(x, i) == e
  {
    match s
    case Blank(c) =>
      AtChars(x, i, [c]);
      assert x[i + 0] == c;
    case BlockComment(text) =>
      AtChars(x, i, SpaceText(s));
      BlockSkipped(x, i, text);
    case LineComment(text, ending) =>
      AtChars(x, i, SpaceText(s));
      LineSkipped(x, i, text, ending);
  }

  /** Where a gap may end: not between a carriage return and a newline. */
  predicate GapEnds(x: seq<byte>, e: nat, gap: seq<Space>) {
    gap != [] && Returns(gap[|gap| - 1]) ==> e == |x| || (e < |x| && x[e] != NEWLINE)
  }

  lemma GapStep(x: seq<byte>, i: nat, gap: seq<Space>)
    requires GapOk(gap) && gap != [] && At(x, i, GapText(gap)) && GapEnds(x, i + |GapText(gap)|, gap)
    ensures var e := i + |SpaceText(gap[0])|;
            && i < e <= |x| && At(x, e, GapText(gap[1..])) && e + |GapText(gap[1..])| == i + |GapText(gap)|
            && GapOk(gap[1..]) && GapEnds(x, i + |GapText(gap)|, gap[1..])
            && (if gap[0].Blank? then IsSpace(x[i]) && e == i + 1 else !IsSpace(x[i]) && CommentAt(x, i) && CommentEnd(x, i) == e)
  {
    hide At, SpaceText, SpaceOk, CommentEnd, ChunkText;
    var s, rest := gap[0], GapText(gap[1..]);
    assert GapText(gap) == SpaceText(s) + rest;
    AtSplit(x, i, SpaceText(s), rest);
    AtChars(x, i + |SpaceText(s)|, rest);
    if Returns(s) && gap[1..] != [] {
      FirstByte(gap[1]);
      assert gap[1..][0] == gap[1] && rest[0] == SpaceText(gap[1])[0];
      assert x[i + |SpaceText(s)| + 0] == rest[0];
    }
    SpaceSkipped(x, i, s);
  }

  lemma FirstByte(s: Space)
    ensures SpaceText(s) != [] && SpaceText(s)[0] == (if s.Blank? then s.c else SLASH)
  {}

  lemma {:induction false} GapSkipped(x: seq<byte>, i: nat, gap: seq<Space>)
    requires GapOk(gap) && At(x, i, GapText(gap)) && GapEnds(x, i + |GapText(gap)|, gap)
    ensures SpaceEnd(x, i) == SpaceEnd(x, i + |GapText(gap)|)
    decreases |gap|
  {
    hide At, SpaceText, GapOk, GapEnds, CommentEnd;
    if gap != [] {
      GapStep(x, i, gap);
      GapSkipped(x, i + |SpaceText(gap[0])|, gap[1..]);
    }
  }

  lemma {:induction false} GapPassed(
    x: seq<byte>, i: nat, gap: seq<Space>, comma: bool, run: seq<byte>, pending: seq<byte>, closed: bool) returns (pending': seq<byte>)
    requires GapOk(gap) && At(x, i, GapText(gap)) && GapEnds(x, i + |GapText(gap)|, gap)
    ensures Rest(x, i, comma, run, pending, closed) ==
            Rest(x, i + |GapText(gap)|, comma, run, pending', closed || HasComment(gap))
    decreases |gap|
  {
    hide At, SpaceText, GapOk, GapEnds, CommentEnd, TokenEnd;
    pending' := pending;
    if gap != [] {
      GapStep(x, i, gap);
      CommentFirst(gap);
      if gap[0].Blank? {
        pending' := GapPassed(x, i + 1, gap[1..], comma, run, pending + [x[i]], closed);
      } else {
        pending' := GapPassed(x, i + |SpaceText(gap[0])|, gap[1..], comma, run, pending, true);
      }
    }
  }

  lemma CommentFirst(gap: seq<Space>)
    requires gap != []
    ensures HasComment(gap) <==> !gap[0].Blank? || HasComment(gap[1..])
  {
    if HasComment(gap[1..]) {
      var k :| 0 <= k < |gap[1..]| && !gap[1..][k].Blank?;
      assert !gap[k + 1].Blank?;
    }
    if HasComment(gap) && gap[0].Blank? {
      var k :| 0 <= k < |gap| && !gap[k].Blank?;
      assert !gap[1..][k - 1].Blank?;
    }
  }

  // ---- pieces -------------------------------------------------------------

  /** From the text of its first piece on. */
  function FromText(c: Commented): seq<byte>
    requires c.pieces != []
  {
    Text(c.pieces[0].parts) + FullText(Commented(c.pieces[1..], c.tail))
  }

  lemma TextSplit(c: Commented)
    ensures c.pieces == [] ==> FullText(c) == GapText(c.tail)
    ensures c.pieces != [] ==> FullText(c) == GapText(c.pieces[0].gap) + FromText(c)
  {
    hide Text, GapText;
    if c.pieces != [] {
      var g, t, rest, tail := GapText(c.pieces[0].gap), Text(c.pieces[0].parts), PiecesText(c.pieces[1..]), GapText(c.tail);
      assert g + t + rest + tail == g + (t + (rest + tail));
    }
  }

  lemma Later(c: Commented)
    requires CommentedOk(c) && c.pieces != []
    ensures CommentedOk(Commented(c.pieces[1..], c.tail)) && PieceOk(c.pieces[0]) && GapOk(c.tail)
    ensures NoComma(c) ==> NoComma(Commented(c.pieces[1..], c.tail)) && NoPlainComma(c.pieces[0].parts)
    ensures |c.pieces| > 1 ==> HasComment(c.pieces[1].gap) && Separate(c.pieces[0].parts, c.pieces[1].gap) && PieceOk(c.pieces[1])
    ensures |c.pieces| == 1 ==> Separate(c.pieces[0].parts, c.tail)
  {
    hide PieceOk, NoPlainComma, HasComment, Separate, GapOk;
    var later := c.pieces[1..];
    assert forall k :: 1 <= k < |later| ==> later[k - 1] == c.pieces[k] && later[k] == c.pieces[k + 1];
  }

  /** The gap behind a text: it does not glue to it. */
  lemma GapUnglued(x: seq<byte>, e: nat, parts: seq<Part>, gap: seq<Space>)
    requires Separate(parts, gap) && At(x, e, GapText(gap)) && GapOk(gap)
    requires gap == [] ==> Ended(x, e)
    ensures Unglued(x, e, parts)
  {
    hide SpaceText, ChunkText;
    if gap == [] {
      EndedUnglued(x, e, parts);
    } else {
      AtChars(x, e, GapText(gap));
      FirstByte(gap[0]);
      assert x[e + 0] == GapText(gap)[0];
      assert SpaceOk(gap[0]);
    }
  }

  /** A text does not begin with a newline. */
  lemma TextBegins(x: seq<byte>, i: nat, parts: seq<Part>)
    requires parts != [] && TextOk(parts) && At(x, i, Text(parts)) && Unglued(x, i + |Text(parts)|, parts)
    ensures i < |x| && !IsSpace(x[i]) && !CommentAt(x, i) && (x[i] == COMMA <==> parts[0] == Plain(COMMA))
    ensures TokenEnd(x, i) <= |x|
  {
    hide Decoded, TokenEnd, Text, At, PartText;
    TextTail(parts);
    PartsStep(x, i, parts);
  }

  /** Behind a gap with a comment a text starts anew. */
  lemma AfterComment(x: seq<byte>, i: nat, comma: bool, run: seq<byte>, pending: seq<byte>)
    requires i < |x| && !IsSpace(x[i]) && !CommentAt(x, i) && !(comma && x[i] == COMMA) && TokenEnd(x, i) <= |x|
    ensures Rest(x, i, comma, run, pending, true).0 == run + [SPACE] + Rest(x, i, comma, [], [], false).0
    ensures Rest(x, i, comma, run, pending, true).1 == Rest(x, i, comma, [], [], false).1
  {
    hide TokenEnd;
    var e := TokenEnd(x, i);
    assert [] + [] + x[i..e] == x[i..e];
  }

  lemma TextPassed(x: seq<byte>, i: nat, parts: seq<Part>, comma: bool)
    requires TextOk(parts) && At(x, i, Text(parts)) && Unglued(x, i + |Text(parts)|, parts) && (comma ==> NoPlainComma(parts))
    ensures i + |Text(parts)| <= |x|
    ensures Rest(x, i, comma, [], [], false) == Rest(x, i + |Text(parts)|, comma, Text(parts), [], false)
  {
    hide TextOk, TailOk, Rest, Text, Unglued, NoPlainComma;
    QuotedText.AtWhole(x, i, Text(parts));
    hide At;
    TextTail(parts);
    assert [] + [] == x[i..i];
    PartsKept(x, i, i, parts, comma, [], []);
  }

  lemma RunEnds(x: seq<byte>, e: nat, comma: bool, run: seq<byte>, pending: seq<byte>, closed: bool)
    requires Ended(x, e) && (!comma ==> e == |x|)
    ensures Rest(x, e, comma, run, pending, closed).0 == run && Rest(x, e, comma, run, pending, closed).1 == e
  {}

  /** The pieces of a text, from the first one's text on. */
  lemma {:induction false} PiecesKept(x: seq<byte>, i: nat, c: Commented, comma: bool)
    requires CommentedOk(c) && c.pieces != [] && (comma ==> NoComma(c))
    requires At(x, i, FromText(c)) && Ended(x, i + |FromText(c)|) && (!comma ==> i + |FromText(c)| == |x|)
    ensures Rest(x, i, comma, [], [], false).0 == Kept(c.pieces)
    ensures Rest(x, i, comma, [], [], false).1 == i + |FromText(c)|
    ensures i < |x| && !IsSpace(x[i]) && !CommentAt(x, i) && (comma ==> x[i] != COMMA) && TokenEnd(x, i) <= |x|
    decreases |c.pieces|
  {
    hide At, Text, TextOk, Rest, TokenEnd, CommentedOk, NoComma, GapText, Unglued, Ended, IsSpace, CommentAt, NoPlainComma, GapOk, Separate;
    var parts, rest := c.pieces[0].parts, Commented(c.pieces[1..], c.tail);
    Later(c);
    TextSplit(rest);
    var m := i + |Text(parts)|;
    AtSplit(x, i, Text(parts), FullText(rest));
    if rest.pieces == [] {
      LastPiece(x, m, parts, c.tail, comma);
      TextBegins(x, i, parts);
      PlainFirst(parts);
      TextPassed(x, i, parts, comma);
    } else {
      var gap := c.pieces[1].gap;
      AtSplit(x, m, GapText(gap), FromText(rest));
      var n := m + |GapText(gap)|;
      PiecesKept(x, n, rest, comma);
      BetweenPieces(x, m, parts, gap, comma);
      TextBegins(x, i, parts);
      PlainFirst(parts);
      TextPassed(x, i, parts, comma);
    }
  }

  lemma PlainFirst(parts: seq<Part>)
    requires parts != []
    ensures NoPlainComma(parts) ==> parts[0] != Plain(COMMA)
  {}

  lemma LastPiece(x: seq<byte>, m: nat, parts: seq<Part>, tail: seq<Space>, comma: bool)
    requires GapOk(tail) && Separate(parts, tail) && At(x, m, GapText(tail)) && Ended(x, m + |GapText(tail)|)
    requires !comma ==> m + |GapText(tail)| == |x|
    ensures Unglued(x, m, parts)
    ensures Rest(x, m, comma, Text(parts), [], false).0 == Text(parts)
    ensures Rest(x, m, comma, Text(parts), [], false).1 == m + |GapText(tail)|
  {
    NoGap(x, m, tail);
    GapUnglued(x, m, parts, tail);
    EndedGap(x, m + |GapText(tail)|, tail);
    hide At, GapOk, GapText, Separate, Text, Rest, GapEnds, HasComment;
    var pending := GapPassed(x, m, tail, comma, Text(parts), [], false);
    RunEnds(x, m + |GapText(tail)|, comma, Text(parts), pending, HasComment(tail));
  }

  lemma NoGap(x: seq<byte>, m: nat, gap: seq<Space>)
    requires gap == [] ==> Ended(x, m + |GapText(gap)|)
    ensures gap == [] ==> Ended(x, m)
  {}

  lemma EndedGap(x: seq<byte>, e: nat, gap: seq<Space>)
    requires Ended(x, e)
    ensures GapEnds(x, e, gap)
  {}

  lemma BetweenPieces(x: seq<byte>, m: nat, parts: seq<Part>, gap: seq<Space>, comma: bool)
    requires GapOk(gap) && HasComment(gap) && Separate(parts, gap) && At(x, m, GapText(gap))
    requires var n := m + |GapText(gap)|;
             n < |x| && !IsSpace(x[n]) && !CommentAt(x, n) && (comma ==> x[n] != COMMA) && TokenEnd(x, n) <= |x|
    ensures Unglued(x, m, parts)
    ensures var n := m + |GapText(gap)|;
            && Rest(x, m, comma, Text(parts), [], false).0 == Text(parts) + [SPACE] + Rest(x, n, comma, [], [], false).0
            && Rest(x, m, comma, Text(parts), [], false).1 == Rest(x, n, comma, [], [], false).1
  {
    var n := m + |GapText(gap)|;
    GapUnglued(x, m, parts, gap);
    assert GapEnds(x, n, gap);
    hide At, GapOk, GapText, Separate, Text, Rest, GapEnds, TokenEnd, HasComment;
    var pending := GapPassed(x, m, gap, comma, Text(parts), [], false);
    AfterComment(x, n, comma, Text(parts), pending);
  }

  // ---- the laws -----------------------------------------------------------

  /** A text with comments, up to the end or a comma: the stretches are kept, with one space between. */
  lemma CommentedFound(x: seq<byte>, i: nat, c: Commented, comma: bool)
    requires CommentedOk(c) && (comma ==> NoComma(c))
    requires At(x, i, FullText(c)) && Ended(x, i + |FullText(c)|) && (!comma ==> i + |FullText(c)| == |x|)
    ensures Partial(x, i, comma).0 == Kept(c.pieces) && Partial(x, i, comma).1 == i + |FullText(c)|
  {
    TextSplit(c);
    hide At, Text, GapText, FullText, Rest, TokenEnd, CommentedOk, NoComma, Ended, Kept, FromText;
    if c.pieces == [] {
      OnlyGap(x, i, c, comma);
    } else {
      var gap := c.pieces[0].gap;
      var n := i + |GapText(gap)|;
      AtSplit(x, i, GapText(gap), FromText(c));
      PiecesKept(x, n, c, comma);
      Later(c);
      assert SpaceEnd(x, n) == n;
      GapSkipped(x, i, gap);
    }
  }

  lemma OnlyGap(x: seq<byte>, i: nat, c: Commented, comma: bool)
    requires CommentedOk(c) && c.pieces == [] && At(x, i, FullText(c)) && FullText(c) == GapText(c.tail)
    requires Ended(x, i + |FullText(c)|) && (!comma ==> i + |FullText(c)| == |x|)
    ensures Partial(x, i, comma).0 == Kept(c.pieces) && Partial(x, i, comma).1 == i + |FullText(c)|
  {
    hide At, GapText, FullText, Rest, TokenEnd;
    var e := i + |GapText(c.tail)|;
    EndedGap(x, e, c.tail);
    GapSkipped(x, i, c.tail);
    assert SpaceEnd(x, e) == e;
    RunEnds(x, e, comma, [], [], false);
  }

  /** The stretches with their spaces are one text without comments. */
  function Together(ps: seq<Piece>): seq<Part> {
    if ps == [] then []
    else if |ps| == 1 then ps[0].parts
    else ps[0].parts + [Plain(SPACE)] + Together(ps[1..])
  }

  lemma {:induction false} TextAppend(p: seq<Part>, q: seq<Part>)
    ensures Text(p + q) == Text(p) + Text(q) && Meaning(p + q) == Meaning(p) + Meaning(q)
    decreases |p|
  {
    hide PartText, PartBytes;
    if p == [] {
      assert p + q == q;
    } else {
      assert (p + q)[1..] == p[1..] + q;
      TextAppend(p[1..], q);
    }
  }

  lemma {:induction false} TogetherText(ps: seq<Piece>)
    ensures Text(Together(ps)) == Kept(ps) && Meaning(Together(ps)) == KeptBytes(ps)
    decreases |ps|
  {
    hide Text, Meaning;
    if |ps| > 1 {
      TogetherText(ps[1..]);
      TextAppend(ps[0].parts + [Plain(SPACE)], Together(ps[1..]));
      TextAppend(ps[0].parts, [Plain(SPACE)]);
      OnePart(Plain(SPACE));
    } else {
      NothingText();
    }
  }

  lemma NothingText()
    ensures Text([]) == [] && Meaning([]) == []
  {}

  lemma {:induction false} TogetherOk(ps: seq<Piece>)
    requires forall k :: 0 <= k < |ps| ==> PieceOk(ps[k])
    ensures TextOk(Together(ps)) && (ps != [] ==> Together(ps) != [])
    decreases |ps|
  {
    hide GapOk, PartOk;
    if |ps| > 1 {
      assert forall k :: 0 <= k < |ps[1..]| ==> ps[1..][k] == ps[k + 1];
      TogetherOk(ps[1..]);
      assert PieceOk(ps[0]);
      JoinedOk(ps[0].parts, Together(ps[1..]));
    } else if |ps| == 1 {
      assert PieceOk(ps[0]);
    }
  }

  lemma JoinedOk(p: seq<Part>, q: seq<Part>)
    requires TextOk(p) && TextOk(q) && p != [] && q != []
    ensures TextOk(p + [Plain(SPACE)] + q)
  {
    assert PartOk(Plain(SPACE));
    hide PartOk;
    var r := p + [Plain(SPACE)] + q;
    forall k | 1 <= k < |r|
      ensures !Meet(r[k - 1], r[k])
    {
      if k < |p| {
        assert !Meet(p[k - 1], p[k]);
      } else if k > |p| + 1 {
        var m := k - |p| - 1;
        assert !Meet(q[m - 1], q[m]);
      }
    }
    forall k | 0 <= k < |r|
      ensures PartOk(r[k])
    {
      if k > |p| {
        assert r[k] == q[k - |p| - 1];
      }
    }
  }

  /** cp_uncomment() leaves the stretches of text, cp_unquote() what they stand for, with one space for each gap. */
  lemma UncommentMeans(c: Commented)
    requires CommentedOk(c)
    ensures Partial(FullText(c), 0, false).0 == Kept(c.pieces)
    ensures Unquoted(FullText(c)) == KeptBytes(c.pieces)
  {
    var x := FullText(c);
    assert At(x, 0, x);
    TogetherOk(c.pieces);
    hide CommentedOk, FullText, Partial, Decoded, TextOk, Kept, KeptBytes, Meaning, Text, At;
    CommentedFound(x, 0, c, false);
    TogetherText(c.pieces);
    WholeDecoded(Together(c.pieces));
  }

  lemma WholeDecoded(parts: seq<Part>)
    requires TextOk(parts)
    ensures Decoded(Text(parts), 0, 0) == Meaning(parts)
  {
    var x := Text(parts);
    assert At(x, 0, x);
    TextTail(parts);
    hide Text, TextOk, TailOk, Decoded, Meaning, At;
    PartsDecoded(x, 0, parts);
  }

  // ---- argument lists -----------------------------------------------------

  /** Texts with commas between them. */
  function ListText(cs: seq<Commented>): seq<byte> {
    if cs == [] then []
    else if |cs| == 1 then FullText(cs[0])
    else FullText(cs[0]) + [COMMA] + ListText(cs[1..])
  }

  function KeptList(cs: seq<Commented>): (v: seq<seq<byte>>)
    ensures |v| == |cs|
  {
    if cs == [] then [] else [Kept(cs[0].pieces)] + KeptList(cs[1..])
  }

  lemma {:induction false} ListSplit(x: seq<byte>, i: nat, cs: seq<Commented>)
    requires forall k :: 0 <= k < |cs| ==> CommentedOk(cs[k]) && NoComma(cs[k])
    requires cs != [] && At(x, i, ListText(cs)) && i + |ListText(cs)| == |x|
    ensures ArgsFrom(x, i) == Trimmed(KeptList(cs))
    decreases |cs|
  {
    hide At, FullText, CommentedOk, NoComma, Partial, ArgsFrom, Kept, Trimmed;
    var c := cs[0];
    ListHead(x, i, cs);
    CommentedFound(x, i, c, true);
    ArgsStep(x, i);
    TrimmedNext(KeptList(cs));
    EmptyKept(c);
    if |cs| == 1 {
      ArgsEnd(x, i + |FullText(c)| + 1);
      NothingTrimmed();
    } else {
      ListSplit(x, i + |FullText(c)| + 1, cs[1..]);
    }
  }

  lemma NothingTrimmed()
    ensures Trimmed([]) == []
  {}

  lemma ListHead(x: seq<byte>, i: nat, cs: seq<Commented>)
    requires cs != [] && At(x, i, ListText(cs)) && i + |ListText(cs)| == |x|
    ensures var e := i + |FullText(cs[0])|;
            && At(x, i, FullText(cs[0])) && Ended(x, e) && e <= |x|
            && (|cs| == 1 <==> e == |x|)
            && (|cs| > 1 ==> At(x, e + 1, ListText(cs[1..])) && e + 1 + |ListText(cs[1..])| == |x|)
  {
    hide FullText, At;
    if |cs| > 1 {
      var t, rest := FullText(cs[0]), ListText(cs[1..]);
      assert t + [COMMA] + rest == t + ([COMMA] + rest);
      AtSplit(x, i, t, [COMMA] + rest);
      AtSplit(x, i + |t|, [COMMA], rest);
      AtChars(x, i + |t|, [COMMA]);
      assert x[i + |t| + 0] == COMMA;
    }
  }

  /** Without text there is nothing to keep. */
  lemma EmptyKept(c: Commented)
    requires CommentedOk(c)
    ensures FullText(c) == [] ==> Kept(c.pieces) == []
  {
    if c.pieces != [] {
      Later(c);
      TextSplit(c);
      assert Text(c.pieces[0].parts) != [];
    }
  }

  /** cp_argvec() splits at the commas outside quotes and comments, keeps the text of every argument and drops an empty last one. */
  lemma ArgvecMeans(cs: seq<Commented>)
    requires forall k :: 0 <= k < |cs| ==> CommentedOk(cs[k]) && NoComma(cs[k])
    ensures ArgsFrom(ListText(cs), 0) == Trimmed(KeptList(cs))
  {
    var x := ListText(cs);
    assert At(x, 0, x);
    if cs == [] {
      ArgsEnd(x, 0);
    } else {
      ListSplit(x, 0, cs);
    }
  }
}
