/**
 Quoting and argument lists (click/lib/confparse.cc): cp_process_backslash,
 cp_unquote, cp_quote, cp_argvec and cp_unargvec, and the laws that tie the
 parsers to the printers.
 */
module Quoting {
  import opened Wrappers
  import opened Confparse

  // ---- escapes ------------------------------------------------------------

  predicate IsOctal(c: byte) {
    48 <= c <= 55
  }

  /** The value of a hexadecimal digit. */
  function HexValue(c: byte): Option<nat> {
    if 48 <= c <= 57 then Some(c as nat - 48)
    else if 65 <= c <= 70 then Some(c as nat - 55)
    else if 97 <= c <= 102 then Some(c as nat - 87)
    else None
  }

  /** (char) c */
  function AsByte(c: nat): byte {
    (c % 256) as byte
  }

  function OctalDigits(x: seq<byte>, i: nat, c: nat, d: nat): (r: (nat, nat))
    requires i <= |x|
    ensures i <= r.0 <= |x|
    decreases |x| - i
  {
    if i < |x| && IsOctal(x[i]) && d < 3 then OctalDigits(x, i + 1, c * 8 + (x[i] as nat - 48), d + 1) else (i, c)
  }

  function HexDigits(x: seq<byte>, i: nat, c: nat): (r: (nat, nat))
    requires i <= |x|
    ensures i <= r.0 <= |x|
    decreases |x| - i
  {
    if i < |x| && HexValue(x[i]).Some? then HexDigits(x, i + 1, c * 16 + HexValue(x[i]).value) else (i, c)
  }

  /** \<...>: pairs of hexadecimal digits, other characters and comments left out. */
  function HexString(x: seq<byte>, i: nat, pending: Option<nat>): (r: (nat, seq<byte>))
    ensures r.0 <= |x| && (i < |x| ==> i < r.0)
    decreases |x| - i
  {
    if i >= |x| then (|x|, [])
    else if x[i] == GREATER then (i + 1, [])
    else if HexValue(x[i]).Some? then
      var v := HexValue(x[i]).value;
      if pending.Some? then
        var rest := HexString(x, i + 1, None);
        (rest.0, [AsByte(pending.value * 16 + v)] + rest.1)
      else HexString(x, i + 1, Some(v))
    else if CommentAt(x, i) then HexString(x, CommentEnd(x, i), pending)
    else HexString(x, i + 1, pending)
  }

  /** The letters of C's one-letter escapes. */
  function CEscape(c: byte): Option<byte> {
    if c == 97 then Some(7)
    else if c == 98 then Some(8)
    else if c == 102 then Some(12)
    else if c == 110 then Some(NEWLINE)
    else if c == 114 then Some(RETURN)
    else if c == 116 then Some(TAB)
    else if c == 118 then Some(11)
    else None
  }

  /** Where an escape ends, and what it stands for. */
  function Escape(x: seq<byte>, i: nat): (r: (nat, seq<byte>))
    requires i < |x| && x[i] == BACKSLASH
    ensures i < r.0 <= |x|
  {
    if i + 1 == |x| then (i + 1, [BACKSLASH])
    else
      var c := x[i + 1];
      if c == RETURN then (if i + 2 < |x| && x[i + 2] == NEWLINE then i + 3 else i + 2, [])
      else if c == NEWLINE then (i + 2, [])
      else if CEscape(c).Some? then (i + 2, [CEscape(c).value])
      else if IsOctal(c) then
        var digits := OctalDigits(x, i + 1, 0, 0);
        (digits.0, [AsByte(digits.1)])
      else if c == 120 then
        var digits := HexDigits(x, i + 2, 0);
        (digits.0, [AsByte(digits.1)])
      else if c == LESS then HexString(x, i + 2, None)
      else (i + 2, [c])
  }

  method ReadOctal(x: seq<byte>, start: nat) returns (i: nat, c: nat)
    requires start < |x|
    ensures (i, c) == OctalDigits(x, start, 0, 0)
  {
    var d := 0;
    i, c := start, 0;
    while i < |x| && 48 <= x[i] <= 55 && d < 3
      invariant i <= |x| && 0 <= d && OctalDigits(x, i, c, d) == OctalDigits(x, start, 0, 0)
    {
      c := c * 8 + (x[i] as nat - 48);
      i, d := i + 1, d + 1;
    }
  }

  method ReadHex(x: seq<byte>, start: nat) returns (i: nat, c: nat)
    requires start <= |x|
    ensures (i, c) == HexDigits(x, start, 0)
  {
    i, c := start, 0;
    while i < |x|
      invariant i <= |x| && HexDigits(x, i, c) == HexDigits(x, start, 0)
    {
      if 48 <= x[i] <= 57 {
        c := c * 16 + (x[i] as nat - 48);
      } else if 65 <= x[i] <= 70 {
        c := c * 16 + (x[i] as nat - 55);
      } else if 97 <= x[i] <= 102 {
        c := c * 16 + (x[i] as nat - 87);
      } else {
        break;
      }
      i := i + 1;
    }
  }

  /** c and d of the source: d digits have been read into c. */
  function Pending(c: nat, d: nat): Option<nat> {
    if d == 0 then None else Some(c)
  }

  method ReadHexString(x: seq<byte>, start: nat) returns (i: nat, out: seq<byte>)
    requires start <= |x|
    ensures i == HexString(x, start, None).0 && out == HexString(x, start, None).1
  {
    hide HexString, Pending;
    i, out := start, [];
    var c: nat, d: nat := 0, 0;
    HexStart(x, start);
    while i < |x|
      invariant d <= 1 && (d == 0 ==> c == 0)
      invariant HexReading(x, start, i, out, Pending(c, d))
      decreases |x| - i
    {
      HexNext(x, start, i, out, c, d);
      if x[i] == GREATER {
        return i + 1, out;
      } else if HexValue(x[i]).Some? {
        c := c * 16 + HexValue(x[i]).value;
        d := d + 1;
        if d == 2 {
          out := out + [AsByte(c)];
          c, d := 0, 0;
        }
        i := i + 1;
      } else if x[i] == SLASH && i + 1 < |x| && (x[i + 1] == SLASH || x[i + 1] == STAR) {
        i := SkipComment(x, i);
      } else {
        i := i + 1;
      }
    }
    HexEnd(x, start, i, out, Pending(c, d));
    i := |x|;
  }

  ghost predicate HexReading(x: seq<byte>, start: nat, i: nat, out: seq<byte>, pending: Option<nat>) {
    && HexString(x, i, pending).0 == HexString(x, start, None).0
    && out + HexString(x, i, pending).1 == HexString(x, start, None).1
  }

  lemma HexStart(x: seq<byte>, start: nat)
    ensures HexReading(x, start, start, [], Pending(0, 0))
  {}

  lemma HexEnd(x: seq<byte>, start: nat, i: nat, out: seq<byte>, pending: Option<nat>)
    requires HexReading(x, start, i, out, pending) && i >= |x|
    ensures HexString(x, start, None).0 == |x| && HexString(x, start, None).1 == out
  {}

  lemma HexNext(x: seq<byte>, start: nat, i: nat, out: seq<byte>, c: nat, d: nat)
    requires i < |x| && d <= 1 && (d == 0 ==> c == 0) && HexReading(x, start, i, out, Pending(c, d))
    ensures x[i] == GREATER ==> HexString(x, start, None).0 == i + 1 && HexString(x, start, None).1 == out
    ensures x[i] != GREATER && HexValue(x[i]).Some? ==>
              var v := HexValue(x[i]).value;
              HexReading(x, start, i + 1, if d == 1 then out + [AsByte(c * 16 + v)] else out,
                         if d == 1 then Pending(0, 0) else Pending(c * 16 + v, 1))
    ensures x[i] != GREATER && HexValue(x[i]).None? ==>
              HexReading(x, start, if CommentAt(x, i) then CommentEnd(x, i) else i + 1, out, Pending(c, d))
  {
    hide CommentEnd;
  }

  /** cp_process_backslash() */
  method ProcessBackslash(x: seq<byte>, begin: nat, sa: seq<byte>) returns (i: nat, sa': seq<byte>)
    requires begin < |x| && x[begin] == BACKSLASH
    ensures i == Escape(x, begin).0 && sa' == sa + Escape(x, begin).1
  {
    if begin == |x| - 1 {
      return |x|, sa + [BACKSLASH];
    }
    var c := x[begin + 1];
    if c == RETURN {
      i := if begin + 2 < |x| && x[begin + 2] == NEWLINE then begin + 3 else begin + 2;
      sa' := sa;
    } else if c == NEWLINE {
      i, sa' := begin + 2, sa;
    } else if CEscape(c).Some? {
      i, sa' := begin + 2, sa + [CEscape(c).value];
    } else if IsOctal(c) {
      var v;
      i, v := ReadOctal(x, begin + 1);
      sa' := sa + [AsByte(v)];
    } else if c == 120 {
      var v;
      i, v := ReadHex(x, begin + 2);
      sa' := sa + [AsByte(v)];
    } else if c == LESS {
      var out;
      i, out := ReadHexString(x, begin + 2);
      sa' := sa + out;
    } else {
      i, sa' := begin + 2, sa + [c];
    }
  }

  // ---- unquoting ----------------------------------------------------------

  predicate IsQuote(c: byte) {
    c == DQUOTE || c == SQUOTE
  }

  /** Whether a backslash at i is an escape: within double quotes, and before < outside all quotes. */
  predicate EscapeAt(x: seq<byte>, i: nat, quote: byte) {
    i + 1 < |x| && x[i] == BACKSLASH && (quote == DQUOTE || (quote == 0 && x[i + 1] == LESS))
  }

  /** The text from i on, one level of quotes removed; `quote` is the open quote, or 0. */
  function Decoded(x: seq<byte>, i: nat, quote: byte): seq<byte>
    decreases |x| - i
  {
    if i >= |x| then []
    else if IsQuote(x[i]) && quote == 0 then Decoded(x, i + 1, x[i])
    else if IsQuote(x[i]) && quote == x[i] then Decoded(x, i + 1, 0)
    else if EscapeAt(x, i, quote) then Escape(x, i).1 + Decoded(x, Escape(x, i).0, quote)
    else [x[i]] + Decoded(x, i + 1, quote)
  }

  function Unquoted(str: seq<byte>): seq<byte> {
    Decoded(Partial(str, 0, false).0, 0, 0)
  }

  /** cp_unquote(): text is copied in runs, between the characters that mean something. */
  method Unquote(str: seq<byte>) returns (r: seq<byte>)
    ensures r == Unquoted(str)
  {
    hide Partial, Decoded, Escape, Substring, Reading;
    var xtr, end := PartialUncomment(str, 0, false);
    var sa: seq<byte>, start: nat, s: nat, quote: byte := [], 0, 0, 0;
    ReadStart(xtr);
    while s < |xtr|
      invariant Reading(xtr, sa, start, s, quote)
      decreases |xtr| - s
    {
      if IsQuote(xtr[s]) && quote == 0 {
        ReadQuote(xtr, sa, start, s, quote, xtr[s]);
        sa := sa + Substring(xtr, start, s);
        quote := xtr[s];
        start := s + 1;
      } else if IsQuote(xtr[s]) && quote == xtr[s] {
        ReadQuote(xtr, sa, start, s, quote, 0);
        sa := sa + Substring(xtr, start, s);
        start := s + 1;
        quote := 0;
      } else if EscapeAt(xtr, s, quote) {
        ReadEscape(xtr, sa, start, s, quote);
        sa := sa + Substring(xtr, start, s);
        start, sa := ProcessBackslash(xtr, s, sa);
        s := start - 1;
      } else {
        ReadLater(xtr, sa, start, s, quote);
      }
      s := s + 1;
    }
    ReadEnd(xtr, sa, start, s, quote);
    if start == 0 {
      r := xtr;
    } else {
      r := sa + Substring(xtr, start, s);
    }
  }

  /** What cp_unquote() has accumulated, its pending run, and what is still to come. */
  ghost predicate Reading(x: seq<byte>, sa: seq<byte>, start: nat, s: nat, quote: byte) {
    && start <= s <= |x| && (start == 0 ==> sa == [])
    && sa + x[start..s] + Decoded(x, s, quote) == Decoded(x, 0, 0)
  }

  lemma ReadStart(x: seq<byte>)
    ensures Reading(x, [], 0, 0, 0)
  {
    assert [] + x[0..0] + Decoded(x, 0, 0) == Decoded(x, 0, 0);
  }

  lemma ReadQuote(x: seq<byte>, sa: seq<byte>, start: nat, s: nat, quote: byte, quote': byte)
    requires Reading(x, sa, start, s, quote) && s < |x| && IsQuote(x[s])
    requires (quote == 0 && quote' == x[s]) || (quote == x[s] && quote' == 0)
    ensures Reading(x, sa + Substring(x, start, s), s + 1, s + 1, quote')
  {
    assert Substring(x, start, s) == x[start..s];
    assert sa + x[start..s] + x[s + 1..s + 1] == sa + x[start..s];
  }

  lemma ReadEscape(x: seq<byte>, sa: seq<byte>, start: nat, s: nat, quote: byte)
    requires Reading(x, sa, start, s, quote) && s < |x| && !IsQuote(x[s]) && EscapeAt(x, s, quote)
    ensures var e := Escape(x, s); Reading(x, sa + Substring(x, start, s) + e.1, e.0, e.0, quote) && e.0 > s
  {
    assert Substring(x, start, s) == x[start..s];
    var e := Escape(x, s);
    assert sa + x[start..s] + (e.1 + Decoded(x, e.0, quote)) == (sa + x[start..s] + e.1) + x[e.0..e.0] + Decoded(x, e.0, quote);
  }

  lemma ReadLater(x: seq<byte>, sa: seq<byte>, start: nat, s: nat, quote: byte)
    requires Reading(x, sa, start, s, quote) && s < |x| && !EscapeAt(x, s, quote)
    requires !(IsQuote(x[s]) && (quote == 0 || quote == x[s]))
    ensures Reading(x, sa, start, s + 1, quote)
  {
    assert x[start..s + 1] == x[start..s] + [x[s]];
  }

  lemma ReadEnd(x: seq<byte>, sa: seq<byte>, start: nat, s: nat, quote: byte)
    requires Reading(x, sa, start, s, quote) && s >= |x|
    ensures sa + Substring(x, start, s) == Decoded(x, 0, 0)
    ensures start == 0 ==> Decoded(x, 0, 0) == x
  {
    assert Substring(x, start, s) == x[start..s];
  }

  // ---- quoting ------------------------------------------------------------

  /** How a character is written within double quotes. */
  function Written(c: byte, newlines: bool): seq<byte> {
    if c == BACKSLASH || c == DQUOTE || c == DOLLAR then [BACKSLASH, c]
    else if c == TAB then [BACKSLASH, 116]
    else if c == RETURN then [BACKSLASH, 114]
    else if c == NEWLINE then (if newlines then [c] else [BACKSLASH, 110])
    else if c < 32 || c >= 127 then [BACKSLASH, 48 + c / 64, 48 + (c / 8) % 8, 48 + c % 8]
    else [c]
  }

  function Encoded(s: seq<byte>, newlines: bool): seq<byte> {
    if s == [] then [] else Written(s[0], newlines) + Encoded(s[1..], newlines)
  }

  function Quoted(s: seq<byte>, newlines: bool): seq<byte> {
    [DQUOTE] + Encoded(s, newlines) + [DQUOTE]
  }

  /** cp_quote(): characters that need no escape are copied in runs. */
  method Quote(str: seq<byte>, newlines: bool) returns (r: seq<byte>)
    ensures r == Quoted(str, newlines)
  {
    hide Substring, Writing, Encoded;
    if str == [] {
      WriteNothing(newlines);
      return [DQUOTE, DQUOTE];
    }
    var sa: seq<byte>, start: nat, s: nat := [DQUOTE], 0, 0;
    WriteStart(str, newlines);
    while s < |str|
      invariant Writing(str, newlines, sa, start, s)
      decreases |str| - s
    {
      var c := str[s];
      if c == BACKSLASH || c == DQUOTE || c == DOLLAR {
        WriteEscape(str, newlines, sa, start, s, [BACKSLASH] + [c]);
        sa := sa + (Substring(str, start, s) + ([BACKSLASH] + [c]));
        start := s + 1;
      } else if c == TAB {
        WriteEscape(str, newlines, sa, start, s, [BACKSLASH, 116]);
        sa := sa + (Substring(str, start, s) + [BACKSLASH, 116]);
        start := s + 1;
      } else if c == RETURN {
        WriteEscape(str, newlines, sa, start, s, [BACKSLASH, 114]);
        sa := sa + (Substring(str, start, s) + [BACKSLASH, 114]);
        start := s + 1;
      } else if c == NEWLINE {
        if newlines {
          WriteLater(str, newlines, sa, start, s);
        } else {
          WriteEscape(str, newlines, sa, start, s, [BACKSLASH, 110]);
          sa := sa + (Substring(str, start, s) + [BACKSLASH, 110]);
          start := s + 1;
        }
      } else if c < 32 || c >= 127 {
        var w := [BACKSLASH, 48 + c / 64, 48 + (c / 8) % 8, 48 + c % 8];
        WriteEscape(str, newlines, sa, start, s, w);
        sa := sa + (Substring(str, start, s) + w);
        start := s + 1;
      } else {
        WriteLater(str, newlines, sa, start, s);
      }
      s := s + 1;
    }
    WriteEnd(str, newlines, sa, start, s);
    r := sa + Substring(str, start, s) + [DQUOTE];
  }

  /** What cp_quote() has written, its pending run, and what is still to come. */
  ghost predicate Writing(str: seq<byte>, newlines: bool, sa: seq<byte>, start: nat, s: nat) {
    && start <= s <= |str|
    && sa + str[start..s] + Encoded(str[s..], newlines) == [DQUOTE] + Encoded(str, newlines)
  }

  lemma WriteNothing(newlines: bool)
    ensures Quoted([], newlines) == [DQUOTE, DQUOTE]
  {}

  lemma WriteStart(str: seq<byte>, newlines: bool)
    ensures Writing(str, newlines, [DQUOTE], 0, 0)
  {
    assert str[0..] == str && str[0..0] == [];
  }

  lemma EncodedNext(str: seq<byte>, newlines: bool, s: nat)
    requires s < |str|
    ensures Encoded(str[s..], newlines) == Written(str[s], newlines) + Encoded(str[s + 1..], newlines)
  {
    assert str[s..][1..] == str[s + 1..];
  }

  lemma WriteEscape(str: seq<byte>, newlines: bool, sa: seq<byte>, start: nat, s: nat, w: seq<byte>)
    requires Writing(str, newlines, sa, start, s) && s < |str| && Written(str[s], newlines) == w
    ensures Writing(str, newlines, sa + (Substring(str, start, s) + w), s + 1, s + 1)
  {
    hide Encoded, Written;
    EncodedNext(str, newlines, s);
    var run, rest := str[start..s], Encoded(str[s + 1..], newlines);
    assert Substring(str, start, s) == run;
    assert sa + (run + w) + str[s + 1..s + 1] + rest == sa + run + (w + rest);
  }

  lemma WriteLater(str: seq<byte>, newlines: bool, sa: seq<byte>, start: nat, s: nat)
    requires Writing(str, newlines, sa, start, s) && s < |str| && Written(str[s], newlines) == [str[s]]
    ensures Writing(str, newlines, sa, start, s + 1)
  {
    hide Encoded, Written;
    EncodedNext(str, newlines, s);
    var run, rest := str[start..s], Encoded(str[s + 1..], newlines);
    assert str[start..s + 1] == run + [str[s]];
    assert sa + (run + [str[s]]) + rest == sa + run + ([str[s]] + rest);
  }

  lemma WriteEnd(str: seq<byte>, newlines: bool, sa: seq<byte>, start: nat, s: nat)
    requires Writing(str, newlines, sa, start, s) && s >= |str|
    ensures sa + Substring(str, start, s) + [DQUOTE] == Quoted(str, newlines)
  {
    assert str[s..] == [];
    assert Substring(str, start, s) == str[start..s];
  }

  /** What cp_quote() writes: printable, with each dollar sign behind a backslash. */
  ghost predicate Plainly(t: seq<byte>, newlines: bool) {
    && (forall k :: 0 <= k < |t| ==> 32 <= t[k] < 127 || (newlines && t[k] == NEWLINE))
    && (forall k :: 0 <= k < |t| && t[k] == DOLLAR ==> k > 0 && t[k - 1] == BACKSLASH)
  }

  lemma WrittenPlainly(c: byte, newlines: bool)
    ensures Plainly(Written(c, newlines), newlines)
  {}

  lemma PlainlyAppend(t: seq<byte>, u: seq<byte>, newlines: bool)
    requires Plainly(t, newlines) && Plainly(u, newlines)
    ensures Plainly(t + u, newlines)
  {}

  lemma {:induction false} EncodedPlainly(s: seq<byte>, newlines: bool)
    ensures Plainly(Encoded(s, newlines), newlines)
    decreases |s|
  {
    if s != [] {
      WrittenPlainly(s[0], newlines);
      EncodedPlainly(s[1..], newlines);
      PlainlyAppend(Written(s[0], newlines), Encoded(s[1..], newlines), newlines);
    }
  }

  /** A quoted string is one double-quoted string of printable characters, in which no variable can be expanded. */
  lemma QuotedShape(s: seq<byte>, newlines: bool)
    ensures var q := Quoted(s, newlines);
            && Plainly(q, newlines) && |q| >= 2 && q[0] == DQUOTE && DoubleEnd(q, 1) == |q|
  {
    hide Plainly, Encoded;
    EncodedPlainly(s, newlines);
    QuotePlainly(newlines);
    PlainlyAppend([DQUOTE], Encoded(s, newlines), newlines);
    PlainlyAppend([DQUOTE] + Encoded(s, newlines), [DQUOTE], newlines);
    AtParts([DQUOTE], Encoded(s, newlines) + [DQUOTE]);
    assert Quoted(s, newlines) == [DQUOTE] + (Encoded(s, newlines) + [DQUOTE]);
    WalkEncoded(Quoted(s, newlines), 1, s, newlines);
  }

  lemma QuotePlainly(newlines: bool)
    ensures Plainly([DQUOTE], newlines)
  {}

  // ---- argument lists -----------------------------------------------------

  function ArgsFrom(str: seq<byte>, pos: nat): seq<seq<byte>>
    decreases |str| - pos
  {
    if pos >= |str| then []
    else
      var arg := Partial(str, pos, true);
      (if arg.0 != [] || arg.1 < |str| then [arg.0] else []) + ArgsFrom(str, arg.1 + 1)
  }

  /** cp_argvec() */
  method Argvec(str: seq<byte>) returns (conf: seq<seq<byte>>)
    ensures conf == ArgsFrom(str, 0)
  {
    hide Partial, ArgsFrom, Runs, Spaced, LosesText, SpaceEnd;
    conf := [];
    ArgsStep(str, 0);
    if |str| == 0 {
      return;
    }
    var pos: nat := 0;
    while pos < |str|
      invariant conf + ArgsFrom(str, pos) == ArgsFrom(str, 0)
      decreases |str| - pos
    {
      ArgsStep(str, pos);
      var arg, at := PartialUncomment(str, pos, true);
      if arg != [] || at < |str| {
        conf := conf + [arg];
      }
      pos := at + 1;
    }
    ArgsStep(str, pos);
  }

  lemma ArgsStep(str: seq<byte>, pos: nat)
    ensures var arg, at := Partial(str, pos, true).0, Partial(str, pos, true).1;
            ArgsFrom(str, pos) ==
            if pos >= |str| then [] else (if arg != [] || at < |str| then [arg] else []) + ArgsFrom(str, at + 1)
  {
    hide Partial;
  }

  function Joined(conf: seq<seq<byte>>): seq<byte> {
    if conf == [] then []
    else if |conf| == 1 then conf[0]
    else conf[0] + [COMMA, SPACE] + Joined(conf[1..])
  }

  /** cp_unargvec() */
  method Unargvec(conf: seq<seq<byte>>) returns (str: seq<byte>)
    ensures str == Joined(conf)
  {
    if |conf| == 0 {
      return [];
    } else if |conf| == 1 {
      return conf[0];
    }
    str := conf[0];
    JoinedTail(conf);
    for i := 1 to |conf|
      invariant str + Tail(conf[i..]) == Joined(conf)
    {
      assert conf[i..][1..] == conf[i + 1..];
      str := str + [COMMA, SPACE] + conf[i];
    }
  }

  function Tail(conf: seq<seq<byte>>): seq<byte> {
    if conf == [] then [] else [COMMA, SPACE] + conf[0] + Tail(conf[1..])
  }

  lemma {:induction false} JoinedTail(conf: seq<seq<byte>>)
    requires conf != []
    ensures Joined(conf) == conf[0] + Tail(conf[1..])
  {
    if |conf| > 1 {
      JoinedTail(conf[1..]);
    }
  }

  /** A list is joined from its parts, with a comma and a space between. */
  lemma {:induction false} JoinedAppend(u: seq<seq<byte>>, v: seq<seq<byte>>)
    requires u != [] && v != []
    ensures Joined(u + v) == Joined(u) + [44, 32] + Joined(v)
    decreases |u|
  {
    if |u| == 1 {
      assert (u + v)[1..] == v;
    } else {
      assert (u + v)[1..] == u[1..] + v;
      JoinedAppend(u[1..], v);
    }
  }

  /** abc\<// : a text that partial_uncomment() loses altogether. */
  lemma TextLost()
    ensures Partial([97, 98, 99, 92, 60, 47, 47], 0, false) == ([], 8)
    ensures LosesText([97, 98, 99, 92, 60, 47, 47], 0, false)
    ensures Unquoted([97, 98, 99, 92, 60, 47, 47]) == []
  {
    var str: seq<byte> := [97, 98, 99, 92, 60, 47, 47];
    assert CommentEnd(str, 5) == 8;
    assert AngleEnd(str, 5) == AngleEnd(str, 8) == 8;
    assert TokenEnd(str, 3) == BackslashEnd(str, 3) == 8;
    assert Rest(str, 3, false, [97, 98, 99], [], false) == ([], 8);
    assert Rest(str, 2, false, [97, 98], [], false) == Rest(str, 3, false, [97, 98] + [] + str[2..3], [], false);
    assert Rest(str, 1, false, [97], [], false) == Rest(str, 2, false, [97] + [] + str[1..2], [], false);
    assert Rest(str, 0, false, [], [], false) == Rest(str, 1, false, [] + [] + str[0..1], [], false);
    assert SpaceEnd(str, 0) == 0;
    assert UnitStart(str, 3, false, 3);
    assert UnitStart(str, 2, false, 3) && UnitStart(str, 1, false, 3) && UnitStart(str, 0, false, 3);
    assert BracketCut(str, 3, 5);
  }

  // ---- skipping and processing agree --------------------------------------

  lemma {:induction false} SkipOctal(x: seq<byte>, i: nat, c: nat, d: nat)
    requires i <= |x|
    ensures DoubleEnd(x, i) == DoubleEnd(x, OctalDigits(x, i, c, d).0)
    decreases |x| - i
  {
    if i < |x| && IsOctal(x[i]) && d < 3 {
      SkipOctal(x, i + 1, c * 8 + (x[i] as nat - 48), d + 1);
    }
  }

  lemma {:induction false} SkipHex(x: seq<byte>, i: nat, c: nat)
    requires i <= |x|
    ensures DoubleEnd(x, i) == DoubleEnd(x, HexDigits(x, i, c).0)
    decreases |x| - i
  {
    if i < |x| && HexValue(x[i]).Some? {
      SkipHex(x, i + 1, c * 16 + HexValue(x[i]).value);
    }
  }

  lemma {:induction false} SkipHexString(x: seq<byte>, i: nat, pending: Option<nat>)
    ensures DoubleEnd(x, AngleEnd(x, i)) == DoubleEnd(x, HexString(x, i, pending).0)
    decreases |x| - i
  {
    if i >= |x| || x[i] == GREATER {
    } else if HexValue(x[i]).Some? {
      SkipHexString(x, i + 1, if pending.Some? then None else Some(HexValue(x[i]).value));
    } else if CommentAt(x, i) {
      SkipHexString(x, CommentEnd(x, i), pending);
    } else {
      SkipHexString(x, i + 1, pending);
    }
  }

  /**
   cp_skip_double_quote() understands every escape that cp_process_backslash()
   processes: skipping from an escape and from behind it end at one place.
   */
  lemma SkipAgreesWithEscape(x: seq<byte>, i: nat)
    requires i < |x| && x[i] == BACKSLASH
    ensures DoubleEnd(x, i) == DoubleEnd(x, Escape(x, i).0)
  {
    if i + 1 < |x| {
      var c := x[i + 1];
      if c == LESS {
        SkipHexString(x, i + 2, None);
      } else if IsOctal(c) {
        assert BackslashEnd(x, i) == i + 2;
        SkipOctal(x, i + 1, 0, 0);
      } else if c == 120 {
        SkipHex(x, i + 2, 0);
      }
    }
  }

  /** The text within double quotes, up to where skipping them ends. */
  function Inside(x: seq<byte>, i: nat): seq<byte>
    decreases |x| - i
  {
    if i >= |x| || x[i] == DQUOTE then []
    else if EscapeAt(x, i, DQUOTE) then Escape(x, i).1 + Inside(x, Escape(x, i).0)
    else [x[i]] + Inside(x, i + 1)
  }

  /** Unquoting leaves a double quote exactly where skipping it does. */
  lemma {:induction false} UnquoteClosesWhereSkipped(x: seq<byte>, i: nat)
    ensures Decoded(x, i, DQUOTE) == Inside(x, i) + Decoded(x, DoubleEnd(x, i), 0)
    decreases |x| - i
  {
    hide Escape, BackslashEnd;
    if i >= |x| || x[i] == DQUOTE {
    } else if EscapeAt(x, i, DQUOTE) {
      SkipAgreesWithEscape(x, i);
      UnquoteClosesWhereSkipped(x, Escape(x, i).0);
    } else {
      if x[i] == BACKSLASH {
        SkipAgreesWithEscape(x, i);
        LastBackslash(x, i);
      }
      UnquoteClosesWhereSkipped(x, i + 1);
    }
  }

  lemma LastBackslash(x: seq<byte>, i: nat)
    requires i + 1 == |x| && x[i] == BACKSLASH
    ensures Escape(x, i).0 == i + 1
  {}

  // ---- the laws -----------------------------------------------------------

  /** The text t stands at position i. */
  ghost predicate At(str: seq<byte>, i: nat, t: seq<byte>) {
    i + |t| <= |str| && str[i..i + |t|] == t
  }

  lemma AtSplit(str: seq<byte>, i: nat, t: seq<byte>, u: seq<byte>)
    requires At(str, i, t + u)
    ensures At(str, i, t) && At(str, i + |t|, u)
  {
    assert str[i..i + |t|] == (t + u)[..|t|];
    assert str[i + |t|..i + |t| + |u|] == (t + u)[|t|..];
  }

  lemma AtChars(str: seq<byte>, i: nat, t: seq<byte>)
    requires At(str, i, t)
    ensures i + |t| <= |str|
    ensures forall k :: 0 <= k < |t| ==> str[i + k] == t[k]
  {
    forall k | 0 <= k < |t|
      ensures str[i + k] == t[k]
    {
      assert str[i..i + |t|][k] == t[k];
    }
  }

  /** Skipping a quoted string never stops, or steps over its end, within a written character. */
  lemma WalkWritten(str: seq<byte>, i: nat, c: byte, newlines: bool)
    requires At(str, i, Written(c, newlines))
    ensures DoubleEnd(str, i) == DoubleEnd(str, i + |Written(c, newlines)|)
  {
    var w := Written(c, newlines);
    AtChars(str, i, w);
    assert str[i] == w[0];
    if |w| > 1 {
      assert str[i + 1] == w[1];
      assert BackslashEnd(str, i) == i + 2;
      if |w| == 4 {
        assert str[i + 2] == w[2] && str[i + 3] == w[3];
        assert DoubleEnd(str, i + 2) == DoubleEnd(str, i + 3) == DoubleEnd(str, i + 4);
      }
    }
  }

  lemma WalkClosing(str: seq<byte>, i: nat)
    requires At(str, i, [DQUOTE])
    ensures DoubleEnd(str, i) == i + 1
  {
    AtChars(str, i, [DQUOTE]);
    assert str[i + 0] == DQUOTE;
  }

  lemma {:induction false} WalkEncoded(str: seq<byte>, i: nat, s: seq<byte>, newlines: bool)
    requires At(str, i, Encoded(s, newlines) + [DQUOTE])
    ensures DoubleEnd(str, i) == i + |Encoded(s, newlines)| + 1
    decreases |s|
  {
    hide At, DoubleEnd, Written;
    if s == [] {
      assert Encoded(s, newlines) + [DQUOTE] == [DQUOTE];
      WalkClosing(str, i);
    } else {
      var w, rest := Written(s[0], newlines), Encoded(s[1..], newlines);
      assert w + rest + [DQUOTE] == w + (rest + [DQUOTE]);
      AtSplit(str, i, w, rest + [DQUOTE]);
      WalkWritten(str, i, s[0], newlines);
      WalkEncoded(str, i + |w|, s[1..], newlines);
    }
  }

  lemma OctalWritten(x: seq<byte>, i: nat, c: byte)
    requires i + 3 <= |x| && x[i] == 48 + c / 64 && x[i + 1] == 48 + (c / 8) % 8 && x[i + 2] == 48 + c % 8
    ensures OctalDigits(x, i, 0, 0).0 == i + 3 && AsByte(OctalDigits(x, i, 0, 0).1) == c
  {
    var a: nat, b: nat, d: nat := x[i] as nat - 48, x[i + 1] as nat - 48, x[i + 2] as nat - 48;
    assert OctalDigits(x, i, 0, 0) == OctalDigits(x, i + 1, a, 1);
    assert OctalDigits(x, i + 1, a, 1) == OctalDigits(x, i + 2, a * 8 + b, 2);
    assert OctalDigits(x, i + 2, a * 8 + b, 2) == OctalDigits(x, i + 3, (a * 8 + b) * 8 + d, 3);
    assert (a * 8 + b) * 8 + d == c as nat;
  }

  /** Reading a written character gives the character back. */
  lemma DecodeWritten(x: seq<byte>, i: nat, c: byte, newlines: bool)
    requires At(x, i, Written(c, newlines))
    ensures Decoded(x, i, DQUOTE) == [c] + Decoded(x, i + |Written(c, newlines)|, DQUOTE)
  {
    var w := Written(c, newlines);
    AtChars(x, i, w);
    assert x[i] == w[0];
    if |w| > 1 {
      assert x[i + 1] == w[1];
      if |w| == 4 {
        assert x[i + 2] == w[2] && x[i + 3] == w[3];
        OctalWritten(x, i + 1, c);
      }
      assert Escape(x, i) == (i + |w|, [c]);
    }
  }

  lemma DecodeClosing(x: seq<byte>, i: nat)
    requires At(x, i, [DQUOTE])
    ensures Decoded(x, i, DQUOTE) == [] + Decoded(x, i + 1, 0)
  {
    AtChars(x, i, [DQUOTE]);
    assert x[i + 0] == DQUOTE;
  }

  lemma {:induction false} DecodeEncoded(x: seq<byte>, i: nat, s: seq<byte>, newlines: bool)
    requires At(x, i, Encoded(s, newlines) + [DQUOTE])
    ensures Decoded(x, i, DQUOTE) == s + Decoded(x, i + |Encoded(s, newlines)| + 1, 0)
    decreases |s|
  {
    hide At, Decoded, Written;
    if s == [] {
      assert Encoded(s, newlines) + [DQUOTE] == [DQUOTE];
      DecodeClosing(x, i);
    } else {
      var w, rest := Written(s[0], newlines), Encoded(s[1..], newlines);
      assert w + rest + [DQUOTE] == w + (rest + [DQUOTE]);
      AtSplit(x, i, w, rest + [DQUOTE]);
      DecodeWritten(x, i, s[0], newlines);
      DecodeEncoded(x, i + |w|, s[1..], newlines);
      assert s == [s[0]] + s[1..];
    }
  }

  /** A quoted string before a comma or the end is one unit of text, kept as it is. */
  lemma QuotedIsText(str: seq<byte>, i: nat, comma: bool, s: seq<byte>, newlines: bool)
    requires At(str, i, Quoted(s, newlines))
    requires var e := i + |Quoted(s, newlines)|; e == |str| || (comma && e < |str| && str[e] == COMMA)
    ensures Partial(str, i, comma) == (Quoted(s, newlines), i + |Quoted(s, newlines)|)
    ensures i > 0 && str[i - 1] == SPACE ==> Partial(str, i - 1, comma) == Partial(str, i, comma)
  {
    hide At, Encoded;
    var q := Quoted(s, newlines);
    var e := i + |q|;
    QuotedEnds(str, i, s, newlines);
    assert !IsSpace(str[i]) && !CommentAt(str, i);
    assert SpaceEnd(str, i) == i;
    assert Rest(str, i, comma, [], [], false) == Rest(str, e, comma, [] + [] + str[i..e], [], false);
    assert [] + [] + str[i..e] == q;
  }

  lemma QuotedEnds(str: seq<byte>, i: nat, s: seq<byte>, newlines: bool)
    requires At(str, i, Quoted(s, newlines))
    ensures i + |Quoted(s, newlines)| <= |str| && str[i..i + |Quoted(s, newlines)|] == Quoted(s, newlines)
    ensures str[i] == DQUOTE && TokenEnd(str, i) == i + |Quoted(s, newlines)|
  {
    assert Quoted(s, newlines) == [DQUOTE] + (Encoded(s, newlines) + [DQUOTE]);
    AtSplit(str, i, [DQUOTE], Encoded(s, newlines) + [DQUOTE]);
    AtChars(str, i, [DQUOTE]);
    assert str[i + 0] == DQUOTE;
    WalkEncoded(str, i + 1, s, newlines);
  }

  lemma DecodeEnds(q: seq<byte>)
    requires q != [] && q[0] == DQUOTE
    ensures Decoded(q, 0, 0) == Decoded(q, 1, DQUOTE) && Decoded(q, |q|, 0) == []
  {}

  /** cp_unquote(cp_quote(s)) == s, for every byte string and either newline mode. */
  lemma UnquoteQuote(s: seq<byte>, newlines: bool)
    ensures Unquoted(Quoted(s, newlines)) == s
  {
    var q := Quoted(s, newlines);
    assert q[0..0 + |q|] == q;
    QuotedIsText(q, 0, false, s, newlines);
    assert q == [DQUOTE] + (Encoded(s, newlines) + [DQUOTE]);
    AtSplit(q, 0, [DQUOTE], Encoded(s, newlines) + [DQUOTE]);
    DecodeEnds(q);
    hide Decoded, Encoded, Partial, At;
    DecodeEncoded(q, 1, s, newlines);
    assert s + [] == s;
  }

  ghost predicate IsQuoted(q: seq<byte>) {
    exists s, newlines :: q == Quoted(s, newlines)
  }

  /** Splitting what lies after an argument: its comma, its space, and the arguments that follow. */
  lemma {:induction false} SplitTail(str: seq<byte>, i: nat, v: seq<seq<byte>>)
    requires forall k :: 0 <= k < |v| ==> IsQuoted(v[k])
    requires At(str, i, Tail(v)) && i + |Tail(v)| == |str|
    ensures ArgsFrom(str, i + 1) == v
    decreases |v|
  {
    hide At, ArgsFrom, IsQuoted;
    if v == [] {
      ArgsEnd(str, i + 1);
    } else {
      var q, rest := v[0], Tail(v[1..]);
      assert Tail(v) == [COMMA, SPACE] + (q + rest);
      AtSplit(str, i, [COMMA, SPACE], q + rest);
      AtChars(str, i, [COMMA, SPACE]);
      assert str[i + 1] == SPACE;
      AtSplit(str, i + 2, q, rest);
      FirstArg(str, i + 2, v);
      SplitTail(str, i + 2 + |q|, v[1..]);
      assert v == [q] + v[1..];
    }
  }

  lemma ArgsEnd(str: seq<byte>, pos: nat)
    requires pos >= |str|
    ensures ArgsFrom(str, pos) == []
  {}

  /** The first argument, found from its start or from the space before it. */
  lemma FirstArg(str: seq<byte>, i: nat, v: seq<seq<byte>>)
    requires v != [] && IsQuoted(v[0])
    requires At(str, i, v[0]) && At(str, i + |v[0]|, Tail(v[1..])) && i + |v[0]| + |Tail(v[1..])| == |str|
    ensures i < |str| && ArgsFrom(str, i) == [v[0]] + ArgsFrom(str, i + |v[0]| + 1)
    ensures i > 0 && str[i - 1] == SPACE ==> ArgsFrom(str, i - 1) == ArgsFrom(str, i)
  {
    hide At, Partial, Quoted, ArgsFrom, Tail;
    ArgsStep(str, i);
    if i > 0 {
      ArgsStep(str, i - 1);
    }
    var q, e := v[0], i + |v[0]|;
    var s, newlines :| q == Quoted(s, newlines);
    CommaOrEnd(str, e, v[1..]);
    QuotedIsText(str, i, true, s, newlines);
    QuotedEnds(str, i, s, newlines);
    assert Partial(str, i, true) == (q, e);
  }

  lemma CommaOrEnd(str: seq<byte>, e: nat, v: seq<seq<byte>>)
    requires At(str, e, Tail(v)) && e + |Tail(v)| == |str|
    ensures e == |str| || (e < |str| && str[e] == COMMA)
  {
    if v != [] {
      AtChars(str, e, Tail(v));
      assert str[e + 0] == COMMA;
    }
  }

  lemma AtParts(t: seq<byte>, u: seq<byte>)
    ensures At(t + u, 0, t) && At(t + u, |t|, u)
  {}

  /** cp_argvec(cp_unargvec(v)) == v, for every list of quoted strings. */
  lemma ArgvecUnargvec(v: seq<seq<byte>>)
    requires forall k :: 0 <= k < |v| ==> IsQuoted(v[k])
    ensures ArgsFrom(Joined(v), 0) == v
  {
    hide ArgsFrom, IsQuoted, At, Tail;
    if v == [] {
      ArgsEnd(Joined(v), 0);
    } else {
      JoinedTail(v);
      AtParts(v[0], Tail(v[1..]));
      FirstArg(Joined(v), 0, v);
      SplitTail(Joined(v), |v[0]|, v[1..]);
      assert v == [v[0]] + v[1..];
    }
  }

  /** Any list of byte strings survives quoting, joining, splitting and unquoting. */
  lemma ConfigurationRoundTrip(v: seq<seq<byte>>, newlines: bool)
    ensures var conf := ArgsFrom(Joined(seq(|v|, k requires 0 <= k < |v| => Quoted(v[k], newlines))), 0);
            |conf| == |v| && forall k :: 0 <= k < |v| ==> Unquoted(conf[k]) == v[k]
  {
    var quoted := seq(|v|, k requires 0 <= k < |v| => Quoted(v[k], newlines));
    forall k | 0 <= k < |quoted|
      ensures IsQuoted(quoted[k])
    {
      assert quoted[k] == Quoted(v[k], newlines);
    }
    ArgvecUnargvec(quoted);
    forall k | 0 <= k < |v|
      ensures Unquoted(quoted[k]) == v[k]
    {
      UnquoteQuote(v[k], newlines);
    }
  }
}
