/**
 Configuration strings (click/lib/confparse.cc): skipping comments, quotes and
 backslash escapes; quoting and unquoting; splitting at commas and joining.

 A pointer into a string is a position in it.  Skipping an unterminated comment
 may step past the end of the string, as it does in the source.
 */
module Confparse {
  import opened Wrappers

  const TAB: byte := 9
  const NEWLINE: byte := 10
  const RETURN: byte := 13
  const SPACE: byte := 32
  const DQUOTE: byte := 34
  const DOLLAR: byte := 36
  const SQUOTE: byte := 39
  const STAR: byte := 42
  const COMMA: byte := 44
  const SLASH: byte := 47
  const LESS: byte := 60
  const GREATER: byte := 62
  const BACKSLASH: byte := 92

  predicate IsSpace(c: byte) {
    9 <= c <= 13 || c == SPACE
  }

  /** String::substring over two pointers: empty unless they lie in the string, in order. */
  function Substring(str: seq<byte>, first: nat, last: nat): seq<byte> {
    if first < last <= |str| then str[first..last] else []
  }

  // ---- skipping -----------------------------------------------------------

  predicate CommentAt(str: seq<byte>, i: nat) {
    i + 1 < |str| && str[i] == SLASH && (str[i + 1] == SLASH || str[i + 1] == STAR)
  }

  predicate EndsLine(c: byte) {
    c == NEWLINE || c == RETURN
  }

  /** The first line end from i on, or the last character. */
  function LineEnd(str: seq<byte>, i: nat): (r: nat)
    ensures r == i || i < r < |str|
    ensures r + 1 < |str| ==> EndsLine(str[r])
    ensures forall k :: i <= k < r ==> !EndsLine(str[k])
    decreases |str| - i
  {
    if i + 1 < |str| && !EndsLine(str[i]) then LineEnd(str, i + 1) else i
  }

  predicate ClosesBlock(str: seq<byte>, i: nat) {
    i + 1 < |str| && str[i] == STAR && str[i + 1] == SLASH
  }

  /** The first star and slash from i on, or the last two characters. */
  function BlockEnd(str: seq<byte>, i: nat): (r: nat)
    ensures r == i || i < r <= |str| - 2
    ensures r + 2 < |str| ==> ClosesBlock(str, r)
    ensures forall k :: i <= k < r ==> !ClosesBlock(str, k)
    decreases |str| - i
  {
    if i + 2 < |str| && !ClosesBlock(str, i) then BlockEnd(str, i + 1) else i
  }

  function CommentEnd(str: seq<byte>, i: nat): (r: nat)
    requires CommentAt(str, i)
    ensures i + 3 <= r <= |str| + 2
  {
    if str[i + 1] == SLASH then
      var j := LineEnd(str, i + 2);
      if j + 1 < |str| && str[j] == RETURN && str[j + 1] == NEWLINE then j + 2 else j + 1
    else
      BlockEnd(str, i + 2) + 2
  }

  /** The string ends so soon after the opening of the comment that skipping it passes the end. */
  predicate CutShort(str: seq<byte>, i: nat)
    requires CommentAt(str, i)
  {
    if str[i + 1] == SLASH then i + 2 == |str| else i + 4 > |str|
  }

  lemma CommentPassesEnd(str: seq<byte>, i: nat)
    requires CommentAt(str, i)
    ensures CommentEnd(str, i) > |str| <==> CutShort(str, i)
  {}

  /** Within \<...>: past the closing bracket, or the end. */
  function AngleEnd(str: seq<byte>, i: nat): (r: nat)
    ensures i <= r && (i <= |str| ==> r <= |str| + 2)
    decreases |str| - i
  {
    if i >= |str| then i
    else if str[i] == GREATER then i + 1
    else if CommentAt(str, i) then AngleEnd(str, CommentEnd(str, i))
    else AngleEnd(str, i + 1)
  }

  function BackslashEnd(str: seq<byte>, i: nat): (r: nat)
    requires i < |str| && str[i] == BACKSLASH
    ensures i < r <= |str| + 2
  {
    if i + 1 >= |str| then i + 1
    else if str[i + 1] == LESS then AngleEnd(str, i + 2)
    else if str[i + 1] == RETURN && i + 2 < |str| && str[i + 2] == NEWLINE then i + 3
    else i + 2
  }

  /** Within double quotes: past the closing quote, or the end. */
  function DoubleEnd(str: seq<byte>, i: nat): (r: nat)
    ensures r <= |str| && (i < |str| ==> i < r)
    decreases |str| - i
  {
    if i >= |str| then |str|
    else if str[i] == BACKSLASH then DoubleEnd(str, BackslashEnd(str, i))
    else if str[i] == DQUOTE then i + 1
    else DoubleEnd(str, i + 1)
  }

  function SingleEnd(str: seq<byte>, i: nat): (r: nat)
    ensures r <= |str| && (i < |str| ==> i < r)
    decreases |str| - i
  {
    if i >= |str| then |str|
    else if str[i] == SQUOTE then i + 1
    else SingleEnd(str, i + 1)
  }

  function SpaceEnd(str: seq<byte>, i: nat): (r: nat)
    ensures i <= r && (i <= |str| ==> r <= |str| + 2)
    ensures r < |str| ==> !IsSpace(str[r]) && !CommentAt(str, r)
    decreases |str| - i
  {
    if i >= |str| then i
    else if IsSpace(str[i]) then SpaceEnd(str, i + 1)
    else if CommentAt(str, i) then SpaceEnd(str, CommentEnd(str, i))
    else i
  }

  /** One unit of text: a quoted string, a \<...> string, or a character. */
  function TokenEnd(str: seq<byte>, i: nat): (r: nat)
    requires i < |str|
    ensures i < r <= |str| + 2
  {
    if str[i] == SQUOTE then (if i + 1 < |str| then SingleEnd(str, i + 1) else |str|)
    else if str[i] == DQUOTE then (if i + 1 < |str| then DoubleEnd(str, i + 1) else |str|)
    else if str[i] == BACKSLASH && i + 1 < |str| && str[i + 1] == LESS then BackslashEnd(str, i)
    else i + 1
  }

  method SkipComment(str: seq<byte>, begin: nat) returns (s: nat)
    requires CommentAt(str, begin)
    ensures s == CommentEnd(str, begin)
    ensures s > |str| <==> CutShort(str, begin)
  {
    CommentPassesEnd(str, begin);
    s := begin + 2;
    if str[begin + 1] == SLASH {
      while s + 1 < |str| && str[s] != NEWLINE && str[s] != RETURN
        invariant LineEnd(str, s) == LineEnd(str, begin + 2)
      {
        s := s + 1;
      }
      if s + 1 < |str| && str[s] == RETURN && str[s + 1] == NEWLINE {
        s := s + 1;
      }
      return s + 1;
    } else {
      while s + 2 < |str| && (str[s] != STAR || str[s + 1] != SLASH)
        invariant BlockEnd(str, s) == BlockEnd(str, begin + 2)
      {
        s := s + 1;
      }
      return s + 2;
    }
  }

  method SkipBackslash(str: seq<byte>, begin: nat) returns (s: nat)
    requires begin < |str| && str[begin] == BACKSLASH
    ensures s == BackslashEnd(str, begin)
  {
    s := begin;
    if s + 1 >= |str| {
      return s + 1;
    } else if str[s + 1] == LESS {
      s := s + 2;
      while s < |str|
        invariant AngleEnd(str, s) == AngleEnd(str, begin + 2)
      {
        if str[s] == GREATER {
          return s + 1;
        } else if str[s] == SLASH && s + 1 < |str| && (str[s + 1] == SLASH || str[s + 1] == STAR) {
          s := SkipComment(str, s);
        } else {
          s := s + 1;
        }
      }
      return s;
    } else if str[s + 1] == RETURN && s + 2 < |str| && str[s + 2] == NEWLINE {
      return s + 3;
    } else {
      return s + 2;
    }
  }

  /** cp_skip_double_quote() */
  method SkipDoubleQuote(str: seq<byte>, begin: nat) returns (s: nat)
    requires begin < |str| && str[begin] == DQUOTE
    ensures s == DoubleEnd(str, begin + 1)
  {
    s := begin + 1;
    while s < |str|
      invariant DoubleEnd(str, s) == DoubleEnd(str, begin + 1)
    {
      if str[s] == BACKSLASH {
        s := SkipBackslash(str, s);
      } else if str[s] == DQUOTE {
        return s + 1;
      } else {
        s := s + 1;
      }
    }
    return |str|;
  }

  method SkipSingleQuote(str: seq<byte>, begin: nat) returns (s: nat)
    requires begin < |str| && str[begin] == SQUOTE
    ensures s == SingleEnd(str, begin + 1)
  {
    s := begin + 1;
    while s < |str|
      invariant SingleEnd(str, s) == SingleEnd(str, begin + 1)
    {
      if str[s] == SQUOTE {
        return s + 1;
      }
      s := s + 1;
    }
    return |str|;
  }

  /** cp_skip_comment_space() */
  method SkipCommentSpace(str: seq<byte>, begin: nat) returns (s: nat)
    ensures s == SpaceEnd(str, begin)
  {
    s := begin;
    while s < |str|
      invariant SpaceEnd(str, s) == SpaceEnd(str, begin)
    {
      if IsSpace(str[s]) {
      } else if str[s] == SLASH && s + 1 < |str| && (str[s + 1] == SLASH || str[s + 1] == STAR) {
        var t := SkipComment(str, s);
        s := t - 1;
      } else {
        break;
      }
      s := s + 1;
    }
  }

  // ---- removing comments --------------------------------------------------

  /**
   What remains of the string from s on: units of text keep the space between
   them, or get one space for the comments and space there, and nothing is kept
   before a comma when commas end the text.  `run` is the text since the last
   comment, `gap` the space after it.  A unit that runs past the end of the
   string takes the run it would have belonged to with it.
   */
  function Rest(str: seq<byte>, s: nat, comma: bool, run: seq<byte>, gap: seq<byte>, closed: bool): (r: (seq<byte>, nat))
    ensures s <= r.1
    decreases |str| - s
  {
    if s >= |str| then (run, s)
    else if IsSpace(str[s]) then Rest(str, s + 1, comma, run, gap + [str[s]], closed)
    else if CommentAt(str, s) then Rest(str, CommentEnd(str, s), comma, run, gap, true)
    else if str[s] == COMMA && comma then (run, s)
    else
      var e := TokenEnd(str, s);
      if e > |str| then (if closed then run + [SPACE] else [], e)
      else if closed then
        var rest := Rest(str, e, comma, str[s..e], [], false);
        (run + [SPACE] + rest.0, rest.1)
      else Rest(str, e, comma, run + gap + str[s..e], [], false)
  }

  function Partial(str: seq<byte>, i: nat, comma: bool): (r: (seq<byte>, nat))
    ensures i <= r.1
  {
    Rest(str, SpaceEnd(str, i), comma, [], [], false)
  }

  /** The part of partial_uncomment() that steps over one unit of text. */
  method SkipToken(str: seq<byte>, begin: nat) returns (s: nat)
    requires begin < |str|
    ensures s == TokenEnd(str, begin)
  {
    s := begin;
    if str[s] == SQUOTE {
      s := SkipSingleQuote(str, s);
    } else if str[s] == DQUOTE {
      s := SkipDoubleQuote(str, s);
    } else if str[s] == BACKSLASH && s + 1 < |str| && str[s + 1] == LESS {
      s := SkipBackslash(str, s);
    } else {
      s := s + 1;
    }
  }

  method PartialUncomment(str: seq<byte>, i: nat, comma: bool) returns (text: seq<byte>, commaPos: nat)
    ensures text == Partial(str, i, comma).0 && commaPos == Partial(str, i, comma).1
    ensures var runs := Runs(str, SpaceEnd(str, i), comma, [], [], false);
            text == Spaced(runs[..|runs| - 1]) + (if LosesText(str, i, comma) then [] else runs[|runs| - 1])
  {
    hide Rest, Partial, Substring, TokenEnd, CommentEnd, SpaceEnd, Uncommenting, Runs, Spaced, LosesText;
    LossExactly(str, i, comma);
    var s := SkipCommentSpace(str, i);
    var sa: seq<byte>, left: nat, right: nat, closed := [], s, s, false;
    ghost var gap: seq<byte> := [];
    UncommentStart(str, i, comma);
    while s < |str|
      invariant Uncommenting(str, i, comma, s, sa, left, right, gap, closed)
    {
      if IsSpace(str[s]) {
        UncommentSpace(str, i, comma, s, sa, left, right, gap, closed);
        gap := gap + [str[s]];
        s := s + 1;
      } else if str[s] == SLASH && s + 1 < |str| && (str[s + 1] == SLASH || str[s + 1] == STAR) {
        UncommentComment(str, i, comma, s, sa, left, right, gap, closed);
        s := SkipComment(str, s);
        closed := true;
      } else if str[s] == COMMA && comma {
        break;
      } else {
        UncommentToken(str, i, comma, s, sa, left, right, gap, closed);
        if closed {
          sa := sa + Substring(str, left, right) + [SPACE];
          left := s;
          closed := false;
        }
        s := SkipToken(str, s);
        right := s;
        gap := [];
      }
    }
    UncommentDone(str, i, comma, s, sa, left, right, gap, closed);
    commaPos := s;
    if sa == [] {
      text := Substring(str, left, right);
    } else {
      text := sa + Substring(str, left, right);
    }
  }

  /** What partial_uncomment() has accumulated, and what Rest still has to give. */
  ghost predicate Uncommenting(str: seq<byte>, i: nat, comma: bool, s: nat, sa: seq<byte>, left: nat, right: nat, gap: seq<byte>, closed: bool) {
    && (!closed && s <= |str| ==> left <= right <= s && gap == str[right..s])
    && sa + Rest(str, s, comma, Substring(str, left, right), gap, closed).0 == Partial(str, i, comma).0
    && Rest(str, s, comma, Substring(str, left, right), gap, closed).1 == Partial(str, i, comma).1
  }

  lemma UncommentStart(str: seq<byte>, i: nat, comma: bool)
    ensures var s := SpaceEnd(str, i); Uncommenting(str, i, comma, s, [], s, s, [], false)
  {}

  lemma UncommentSpace(str: seq<byte>, i: nat, comma: bool, s: nat, sa: seq<byte>, left: nat, right: nat, gap: seq<byte>, closed: bool)
    requires Uncommenting(str, i, comma, s, sa, left, right, gap, closed) && s < |str| && IsSpace(str[s])
    ensures Uncommenting(str, i, comma, s + 1, sa, left, right, gap + [str[s]], closed)
  {}

  lemma UncommentComment(str: seq<byte>, i: nat, comma: bool, s: nat, sa: seq<byte>, left: nat, right: nat, gap: seq<byte>, closed: bool)
    requires Uncommenting(str, i, comma, s, sa, left, right, gap, closed) && CommentAt(str, s)
    ensures Uncommenting(str, i, comma, CommentEnd(str, s), sa, left, right, gap, true)
  {}

  lemma UncommentToken(str: seq<byte>, i: nat, comma: bool, s: nat, sa: seq<byte>, left: nat, right: nat, gap: seq<byte>, closed: bool)
    requires Uncommenting(str, i, comma, s, sa, left, right, gap, closed)
    requires s < |str| && !IsSpace(str[s]) && !CommentAt(str, s) && !(str[s] == COMMA && comma)
    ensures var e, left' := TokenEnd(str, s), if closed then s else left;
            Uncommenting(str, i, comma, e, if closed then sa + Substring(str, left, right) + [SPACE] else sa, left', e, [], false)
  {
    TokenTaken(str, s, comma, left, right, gap, closed, sa);
  }

  lemma UncommentDone(str: seq<byte>, i: nat, comma: bool, s: nat, sa: seq<byte>, left: nat, right: nat, gap: seq<byte>, closed: bool)
    requires Uncommenting(str, i, comma, s, sa, left, right, gap, closed)
    requires s >= |str| || (str[s] == COMMA && comma)
    ensures Partial(str, i, comma) == (sa + Substring(str, left, right), s)
  {}

  /** Moving the end of the run past a unit of text is what Rest does with it. */
  lemma TokenTaken(str: seq<byte>, s: nat, comma: bool, left: nat, right: nat, gap: seq<byte>, closed: bool, sa: seq<byte>)
    requires s < |str| && !IsSpace(str[s]) && !CommentAt(str, s) && !(str[s] == COMMA && comma)
    requires !closed ==> left <= right <= s && gap == str[right..s]
    ensures var rest := Rest(str, s, comma, Substring(str, left, right), gap, closed);
            var e := TokenEnd(str, s);
            var rest' := Rest(str, e, comma, Substring(str, if closed then s else left, e), [], false);
            rest'.1 == rest.1 && sa + rest.0 == (if closed then sa + Substring(str, left, right) + [SPACE] else sa) + rest'.0
  {
    var run, e := Substring(str, left, right), TokenEnd(str, s);
    if e <= |str| {
      if !closed {
        assert Substring(str, left, right) == str[left..right];
        assert Substring(str, left, e) == run + gap + str[s..e];
      } else {
        assert Substring(str, s, e) == str[s..e];
      }
    }
  }

  // ---- what is kept, and what is lost -------------------------------------

  /** Where a unit of text ends within the string. */
  function UnitEnd(str: seq<byte>, s: nat): (e: nat)
    requires s < |str|
    ensures s < e <= |str|
  {
    if TokenEnd(str, s) <= |str| then TokenEnd(str, s) else |str|
  }

  /** The text of the string, without loss: runs of units and the space between them, parted by comments. */
  function Runs(str: seq<byte>, s: nat, comma: bool, run: seq<byte>, gap: seq<byte>, closed: bool): (runs: seq<seq<byte>>)
    ensures runs != []
    decreases |str| - s
  {
    if s >= |str| then [run]
    else if IsSpace(str[s]) then Runs(str, s + 1, comma, run, gap + [str[s]], closed)
    else if CommentAt(str, s) then Runs(str, CommentEnd(str, s), comma, run, gap, true)
    else if str[s] == COMMA && comma then [run]
    else
      var e := UnitEnd(str, s);
      if closed then [run] + Runs(str, e, comma, str[s..e], [], false)
      else Runs(str, e, comma, run + gap + str[s..e], [], false)
  }

  /** Each run with a space behind it. */
  function Spaced(runs: seq<seq<byte>>): seq<byte> {
    if runs == [] then [] else runs[0] + [SPACE] + Spaced(runs[1..])
  }

  /** Reading from s on, a unit of text starts at u. */
  predicate UnitStart(str: seq<byte>, s: nat, comma: bool, u: nat)
    decreases |str| - s
  {
    s < |str| &&
    if IsSpace(str[s]) then UnitStart(str, s + 1, comma, u)
    else if CommentAt(str, s) then UnitStart(str, CommentEnd(str, s), comma, u)
    else if str[s] == COMMA && comma then false
    else u == s || UnitStart(str, UnitEnd(str, s), comma, u)
  }

  predicate OpensBracket(str: seq<byte>, u: nat) {
    u + 1 < |str| && str[u] == BACKSLASH && str[u + 1] == LESS
  }

  /** Reading from i on within \<...>, position c is come to before the closing bracket. */
  predicate InBracket(str: seq<byte>, i: nat, c: nat)
    decreases |str| - i
  {
    i < |str| &&
    (i == c ||
     (str[i] != GREATER && InBracket(str, if CommentAt(str, i) then CommentEnd(str, i) else i + 1, c)))
  }

  /** An open bracket whose text ends in a comment that is cut short. */
  ghost predicate BracketCut(str: seq<byte>, u: nat, c: nat) {
    OpensBracket(str, u) && InBracket(str, u + 2, c) && CommentAt(str, c) && CutShort(str, c)
  }

  /** The last unit of the text is such a bracket. */
  ghost predicate LosesText(str: seq<byte>, i: nat, comma: bool) {
    exists u: nat, c: nat :: UnitStart(str, SpaceEnd(str, i), comma, u) && BracketCut(str, u, c)
  }

  lemma {:induction false} BracketPassesEnd(str: seq<byte>, i: nat)
    requires i <= |str|
    ensures AngleEnd(str, i) > |str| <==> exists c: nat :: InBracket(str, i, c) && CommentAt(str, c) && CutShort(str, c)
    decreases |str| - i
  {
    if i < |str| && str[i] != GREATER {
      var next := if CommentAt(str, i) then CommentEnd(str, i) else i + 1;
      if CommentAt(str, i) {
        CommentPassesEnd(str, i);
      }
      if next <= |str| {
        BracketPassesEnd(str, next);
        if AngleEnd(str, next) > |str| {
          var c :| InBracket(str, next, c) && CommentAt(str, c) && CutShort(str, c);
          assert InBracket(str, i, c);
        }
        if c :| InBracket(str, i, c) && CommentAt(str, c) && CutShort(str, c) {
          assert c == i || InBracket(str, next, c);
        }
      } else {
        assert InBracket(str, i, i);
      }
    }
  }

  lemma UnitPassesEnd(str: seq<byte>, u: nat)
    requires u < |str|
    ensures TokenEnd(str, u) > |str| <==> exists c: nat :: BracketCut(str, u, c)
  {
    hide AngleEnd, InBracket, CutShort;
    if OpensBracket(str, u) {
      BracketPassesEnd(str, u + 2);
      if TokenEnd(str, u) > |str| {
        var c :| InBracket(str, u + 2, c) && CommentAt(str, c) && CutShort(str, c);
        assert BracketCut(str, u, c);
      }
    }
  }

  /** The reading from s on comes to a unit that passes the end. */
  ghost predicate Passes(str: seq<byte>, s: nat, comma: bool) {
    exists u: nat :: UnitStart(str, s, comma, u) && u < |str| && TokenEnd(str, u) > |str|
  }

  lemma PassesSpace(str: seq<byte>, s: nat, comma: bool)
    requires s < |str| && IsSpace(str[s])
    ensures Passes(str, s, comma) <==> Passes(str, s + 1, comma)
  {
    hide TokenEnd;
    assert forall u: nat :: UnitStart(str, s, comma, u) <==> UnitStart(str, s + 1, comma, u);
  }

  lemma PassesComment(str: seq<byte>, s: nat, comma: bool)
    requires CommentAt(str, s)
    ensures Passes(str, s, comma) <==> Passes(str, CommentEnd(str, s), comma)
  {
    hide TokenEnd, CommentEnd;
    assert forall u: nat :: UnitStart(str, s, comma, u) <==> UnitStart(str, CommentEnd(str, s), comma, u);
  }

  lemma PassesUnit(str: seq<byte>, s: nat, comma: bool)
    requires s < |str| && !IsSpace(str[s]) && !CommentAt(str, s) && !(str[s] == COMMA && comma)
    ensures Passes(str, s, comma) <==> TokenEnd(str, s) > |str| || Passes(str, UnitEnd(str, s), comma)
  {
    hide TokenEnd, UnitEnd;
    assert UnitStart(str, s, comma, s);
    if Passes(str, UnitEnd(str, s), comma) {
      var u: nat :| UnitStart(str, UnitEnd(str, s), comma, u) && u < |str| && TokenEnd(str, u) > |str|;
      assert UnitStart(str, s, comma, u);
    }
  }

  /** What Rest gives, in terms of the runs. */
  ghost predicate RunsKept(str: seq<byte>, s: nat, comma: bool, run: seq<byte>, gap: seq<byte>, closed: bool) {
    var runs := Runs(str, s, comma, run, gap, closed);
    && Rest(str, s, comma, run, gap, closed).0 == Spaced(runs[..|runs| - 1]) + (if Passes(str, s, comma) then [] else runs[|runs| - 1])
    && (Passes(str, s, comma) || run != [] ==> runs[|runs| - 1] != [])
  }

  lemma {:induction false} RestIsRuns(str: seq<byte>, s: nat, comma: bool, run: seq<byte>, gap: seq<byte>, closed: bool)
    ensures RunsKept(str, s, comma, run, gap, closed)
    decreases |str| - s
  {
    hide TokenEnd, CommentEnd, UnitEnd, RunsKept;
    if s >= |str| || (str[s] == COMMA && comma && !IsSpace(str[s]) && !CommentAt(str, s)) {
      DoneKept(str, s, comma, run, gap, closed);
    } else if IsSpace(str[s]) {
      RestIsRuns(str, s + 1, comma, run, gap + [str[s]], closed);
      SpaceKept(str, s, comma, run, gap, closed);
    } else if CommentAt(str, s) {
      RestIsRuns(str, CommentEnd(str, s), comma, run, gap, true);
      CommentKept(str, s, comma, run, gap, closed);
    } else {
      var e := UnitEnd(str, s);
      RestIsRuns(str, e, comma, (if closed then [] else run + gap) + str[s..e], [], false);
      UnitKept(str, s, comma, run, gap, closed);
    }
  }

  lemma DoneKept(str: seq<byte>, s: nat, comma: bool, run: seq<byte>, gap: seq<byte>, closed: bool)
    requires s >= |str| || (str[s] == COMMA && comma && !IsSpace(str[s]) && !CommentAt(str, s))
    ensures RunsKept(str, s, comma, run, gap, closed)
  {
    hide Passes, Spaced;
    NothingPasses(str, s, comma);
    SpacedNone(run);
  }

  lemma SpaceKept(str: seq<byte>, s: nat, comma: bool, run: seq<byte>, gap: seq<byte>, closed: bool)
    requires s < |str| && IsSpace(str[s]) && RunsKept(str, s + 1, comma, run, gap + [str[s]], closed)
    ensures RunsKept(str, s, comma, run, gap, closed)
  {
    hide Passes, Spaced;
    PassesSpace(str, s, comma);
  }

  lemma CommentKept(str: seq<byte>, s: nat, comma: bool, run: seq<byte>, gap: seq<byte>, closed: bool)
    requires CommentAt(str, s) && RunsKept(str, CommentEnd(str, s), comma, run, gap, true)
    ensures RunsKept(str, s, comma, run, gap, closed)
  {
    hide Passes, Spaced, CommentEnd;
    PassesComment(str, s, comma);
  }

  lemma UnitKept(str: seq<byte>, s: nat, comma: bool, run: seq<byte>, gap: seq<byte>, closed: bool)
    requires s < |str| && !IsSpace(str[s]) && !CommentAt(str, s) && !(str[s] == COMMA && comma)
    requires RunsKept(str, UnitEnd(str, s), comma, (if closed then [] else run + gap) + str[s..UnitEnd(str, s)], [], false)
    ensures RunsKept(str, s, comma, run, gap, closed)
  {
    hide Passes, Spaced, TokenEnd, Rest, Runs;
    var e := UnitEnd(str, s);
    PassesUnit(str, s, comma);
    if TokenEnd(str, s) > |str| {
      UnitLost(str, s, comma, run, gap, closed);
    } else {
      UnitStep(str, s, comma, run, gap, closed);
      if closed {
        assert [] + str[s..e] == str[s..e];
        SpacedCons(run, Runs(str, e, comma, str[s..e], [], false));
      }
    }
  }

  lemma UnitStep(str: seq<byte>, s: nat, comma: bool, run: seq<byte>, gap: seq<byte>, closed: bool)
    requires s < |str| && !IsSpace(str[s]) && !CommentAt(str, s) && !(str[s] == COMMA && comma)
    requires TokenEnd(str, s) <= |str|
    ensures var e := UnitEnd(str, s);
            if closed then
              && Rest(str, s, comma, run, gap, closed).0 == run + [SPACE] + Rest(str, e, comma, str[s..e], [], false).0
              && Runs(str, s, comma, run, gap, closed) == [run] + Runs(str, e, comma, str[s..e], [], false)
            else
              && Rest(str, s, comma, run, gap, closed) == Rest(str, e, comma, run + gap + str[s..e], [], false)
              && Runs(str, s, comma, run, gap, closed) == Runs(str, e, comma, run + gap + str[s..e], [], false)
  {
    hide TokenEnd;
  }

  lemma SpacedNone(run: seq<byte>)
    ensures Spaced([run][..0]) + run == run
  {}

  lemma SpacedCons(run: seq<byte>, runs: seq<seq<byte>>)
    requires runs != []
    ensures var runs' := [run] + runs;
            && runs'[|runs'| - 1] == runs[|runs| - 1]
            && Spaced(runs'[..|runs'| - 1]) == run + [SPACE] + Spaced(runs[..|runs| - 1])
  {
    var runs' := [run] + runs;
    assert runs'[..|runs'| - 1] == [run] + runs[..|runs| - 1];
    assert ([run] + runs[..|runs| - 1])[1..] == runs[..|runs| - 1];
  }

  /** A unit that passes the end takes the run with it that it would have belonged to. */
  lemma UnitLost(str: seq<byte>, s: nat, comma: bool, run: seq<byte>, gap: seq<byte>, closed: bool)
    requires s < |str| && !IsSpace(str[s]) && !CommentAt(str, s) && !(str[s] == COMMA && comma)
    requires TokenEnd(str, s) > |str|
    ensures var runs := Runs(str, s, comma, run, gap, closed);
            && Rest(str, s, comma, run, gap, closed).0 == Spaced(runs[..|runs| - 1])
            && runs[|runs| - 1] == (if closed then [] else run + gap) + str[s..]
  {
    hide TokenEnd;
    assert str[s..|str|] == str[s..];
    if closed {
      var runs := Runs(str, s, comma, run, gap, closed);
      assert Runs(str, |str|, comma, str[s..|str|], [], false) == [str[s..|str|]];
      assert runs == [run] + [str[s..|str|]];
      assert runs[..1] == [run];
      assert Spaced([run]) == run + [SPACE] + Spaced([run][1..]);
    }
  }

  lemma NothingPasses(str: seq<byte>, s: nat, comma: bool)
    requires s >= |str| || (str[s] == COMMA && comma && !IsSpace(str[s]) && !CommentAt(str, s))
    ensures !Passes(str, s, comma)
  {}

  /**
   What partial_uncomment() keeps of every string: all its runs, with one space
   between them; but when the text ends in an open \<...> that a comment cuts
   short, the last run, which is not empty then, is lost.
   */
  lemma LossExactly(str: seq<byte>, i: nat, comma: bool)
    ensures var runs := Runs(str, SpaceEnd(str, i), comma, [], [], false);
            && Partial(str, i, comma).0 == Spaced(runs[..|runs| - 1]) + (if LosesText(str, i, comma) then [] else runs[|runs| - 1])
            && (LosesText(str, i, comma) ==> runs[|runs| - 1] != [])
  {
    hide Runs, Rest, Spaced, SpaceEnd, TokenEnd;
    var s := SpaceEnd(str, i);
    RestIsRuns(str, s, comma, [], [], false);
    assert RunsKept(str, s, comma, [], [], false);
    if LosesText(str, i, comma) {
      var u: nat, c: nat :| UnitStart(str, s, comma, u) && BracketCut(str, u, c);
      UnitPassesEnd(str, u);
    }
    if Passes(str, s, comma) {
      var u: nat :| UnitStart(str, s, comma, u) && u < |str| && TokenEnd(str, u) > |str|;
      UnitPassesEnd(str, u);
      var c: nat :| BracketCut(str, u, c);
    }
  }
}
