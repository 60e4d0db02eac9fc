/**
 What cp_unquote() makes of a text, said through the notation itself
 (click/lib/confparse.cc:448-475 and 557-566): a text is a list of parts, each
 part is written in one way and stands for certain bytes, and unquoting the
 written parts gives the bytes they stand for.
 */
module QuotedText {
  import opened Wrappers
  import opened Confparse
  import opened Quoting

  // ---- the notation -------------------------------------------------------

  /** What may stand within \<...>. */
  datatype Chunk =
    | Digit(c: byte)
    | Filler(c: byte)
    | Block(text: seq<byte>)

  /** What may stand within double quotes. */
  datatype Item =
    | Char(c: byte)
    | Letter(c: byte)
    | Itself(c: byte)
    | Octal(digits: seq<byte>)
    | Hex(digits: seq<byte>)
    | Bytes(chunks: seq<Chunk>)
    | LineBreak(chars: seq<byte>)

  /** What may stand in a text. */
  datatype Part =
    | Plain(c: byte)
    | Single(text: seq<byte>)
    | Double(items: seq<Item>)
    | Bracket(chunks: seq<Chunk>)

  /** The letters a b f n r t v and the control characters they stand for. */
  const Letters: map<byte, byte> := map[97 := 7, 98 := 8, 102 := 12, 110 := 10, 114 := 13, 116 := 9, 118 := 11]

  predicate IsHex(c: byte) {
    48 <= c <= 57 || 65 <= c <= 70 || 97 <= c <= 102
  }

  predicate OctalDigit(c: byte) {
    48 <= c <= 55
  }

  predicate White(c: byte) {
    c in {9, 10, 11, 12, 13, 32}
  }

  // ---- how it is written --------------------------------------------------

  function ChunkText(c: Chunk): seq<byte> {
    match c
    case Digit(d) => [d]
    case Filler(f) => [f]
    case Block(text) => [SLASH, STAR] + text + [STAR, SLASH]
  }

  function ChunksText(cs: seq<Chunk>): seq<byte> {
    if cs == [] then [] else ChunkText(cs[0]) + ChunksText(cs[1..])
  }

  function BracketText(cs: seq<Chunk>): seq<byte> {
    [BACKSLASH, LESS] + ChunksText(cs) + [GREATER]
  }

  function ItemText(item: Item): seq<byte> {
    match item
    case Char(c) => [c]
    case Letter(c) => [BACKSLASH, c]
    case Itself(c) => [BACKSLASH, c]
    case Octal(digits) => [BACKSLASH] + digits
    case Hex(digits) => [BACKSLASH, 120] + digits
    case Bytes(chunks) => BracketText(chunks)
    case LineBreak(chars) => [BACKSLASH] + chars
  }

  function ItemsText(items: seq<Item>): seq<byte> {
    if items == [] then [] else ItemText(items[0]) + ItemsText(items[1..])
  }

  function PartText(part: Part): seq<byte> {
    match part
    case Plain(c) => [c]
    case Single(text) => [SQUOTE] + text + [SQUOTE]
    case Double(items) => [DQUOTE] + ItemsText(items) + [DQUOTE]
    case Bracket(chunks) => BracketText(chunks)
  }

  function Text(parts: seq<Part>): seq<byte> {
    if parts == [] then [] else PartText(parts[0]) + Text(parts[1..])
  }

  // ---- what may be written ------------------------------------------------

  predicate ChunkOk(c: Chunk) {
    match c
    case Digit(d) => IsHex(d)
    case Filler(f) => !IsHex(f) && f != GREATER
    case Block(text) => forall k :: 0 <= k < |text| ==> !ClosesBlock(text + [STAR, SLASH], k)
  }

  /** No two chunks make up a comment between them. */
  predicate ChunksOk(cs: seq<Chunk>) {
    && (forall k :: 0 <= k < |cs| ==> ChunkOk(cs[k]))
    && (forall k :: 1 <= k < |cs| && cs[k - 1] == Filler(SLASH) ==> cs[k] != Filler(SLASH) && cs[k] != Filler(STAR) && !cs[k].Block?)
  }

  predicate ItemOk(item: Item) {
    match item
    case Char(c) => c != DQUOTE && c != BACKSLASH
    case Letter(c) => c in Letters
    case Itself(c) => c !in Letters && !OctalDigit(c) && c != 120 && c != LESS && c != RETURN && c != NEWLINE
    case Octal(digits) => 1 <= |digits| <= 3 && forall k :: 0 <= k < |digits| ==> OctalDigit(digits[k])
    case Hex(digits) => forall k :: 0 <= k < |digits| ==> IsHex(digits[k])
    case Bytes(chunks) => ChunksOk(chunks)
    case LineBreak(chars) => chars == [NEWLINE] || chars == [RETURN] || chars == [RETURN, NEWLINE]
  }

  /** Whether c, right after the item, would belong to it. */
  predicate Continues(item: Item, c: byte) {
    || (item.Octal? && |item.digits| < 3 && OctalDigit(c))
    || (item.Hex? && IsHex(c))
    || (item == LineBreak([RETURN]) && c == NEWLINE)
  }

  predicate ItemsOk(items: seq<Item>) {
    && (forall k :: 0 <= k < |items| ==> ItemOk(items[k]))
    && (forall k :: 1 <= k < |items| && items[k].Char? ==> !Continues(items[k - 1], items[k].c))
  }

  predicate PartOk(part: Part) {
    match part
    case Plain(c) => c != DQUOTE && c != SQUOTE
    case Single(text) => SQUOTE !in text
    case Double(items) => ItemsOk(items)
    case Bracket(chunks) => ChunksOk(chunks)
  }

  /** Plain text has no comment, no \< and no space at its ends. */
  predicate TextOk(parts: seq<Part>) {
    && (forall k :: 0 <= k < |parts| ==> PartOk(parts[k]))
    && (forall k :: 1 <= k < |parts| ==> !Meet(parts[k - 1], parts[k]))
    && (parts != [] && parts[0].Plain? ==> !White(parts[0].c))
    && (parts != [] && parts[|parts| - 1].Plain? ==> !White(parts[|parts| - 1].c))
  }

  predicate Meet(p: Part, q: Part) {
    p.Plain? && q.Plain? && ((p.c == SLASH && (q.c == SLASH || q.c == STAR)) || (p.c == BACKSLASH && q.c == LESS))
  }

  // ---- what it stands for -------------------------------------------------

  function DigitValue(c: byte): nat {
    if c <= 57 then c as nat % 16 else c as nat % 16 + 9
  }

  function ChunkValues(cs: seq<Chunk>): seq<nat> {
    if cs == [] then []
    else (if cs[0].Digit? then [DigitValue(cs[0].c)] else []) + ChunkValues(cs[1..])
  }

  /** Two digits make a byte; a last odd one makes none. */
  function Pairs(v: seq<nat>): seq<byte> {
    seq(|v| / 2, k requires 0 <= k < |v| / 2 => ((v[2 * k] * 16 + v[2 * k + 1]) % 256) as byte)
  }

  /** The number the digits write in this base. */
  function Number(digits: seq<byte>, radix: nat): nat {
    if digits == [] then 0 else Number(digits[..|digits| - 1], radix) * radix + DigitValue(digits[|digits| - 1])
  }

  function ItemBytes(item: Item): seq<byte> {
    match item
    case Char(c) => [c]
    case Letter(c) => if c in Letters then [Letters[c]] else []
    case Itself(c) => [c]
    case Octal(digits) => [(Number(digits, 8) % 256) as byte]
    case Hex(digits) => [(Number(digits, 16) % 256) as byte]
    case Bytes(chunks) => Pairs(ChunkValues(chunks))
    case LineBreak(_) => []
  }

  function ItemsBytes(items: seq<Item>): seq<byte> {
    if items == [] then [] else ItemBytes(items[0]) + ItemsBytes(items[1..])
  }

  function PartBytes(part: Part): seq<byte> {
    match part
    case Plain(c) => [c]
    case Single(text) => text
    case Double(items) => ItemsBytes(items)
    case Bracket(chunks) => Pairs(ChunkValues(chunks))
  }

  function Meaning(parts: seq<Part>): seq<byte> {
    if parts == [] then [] else PartBytes(parts[0]) + Meaning(parts[1..])
  }

  // ---- digits -------------------------------------------------------------

  lemma HexValueIs(c: byte)
    ensures IsHex(c) ==> HexValue(c) == Some(DigitValue(c))
    ensures !IsHex(c) ==> HexValue(c) == None
  {}

  /** c with the digits from i on behind it. */
  lemma NumberSnoc(digits: seq<byte>, k: nat, radix: nat)
    requires k < |digits|
    ensures Number(digits[..k + 1], radix) == Number(digits[..k], radix) * radix + DigitValue(digits[k])
  {
    assert digits[..k + 1][..k] == digits[..k];
  }

  lemma {:induction false} HexDigitsRead(x: seq<byte>, i: nat, digits: seq<byte>, k: nat)
    requires At(x, i, digits) && k <= |digits| && forall m :: 0 <= m < |digits| ==> IsHex(digits[m])
    requires i + |digits| < |x| ==> !IsHex(x[i + |digits|])
    ensures HexDigits(x, i + k, Number(digits[..k], 16)) == (i + |digits|, Number(digits, 16))
    decreases |digits| - k
  {
    hide Number, At;
    AtChars(x, i, digits);
    if k < |digits| {
      assert x[i + k] == digits[k];
      HexValueIs(x[i + k]);
      NumberSnoc(digits, k, 16);
      HexDigitsRead(x, i, digits, k + 1);
    } else {
      assert digits[..k] == digits;
      if i + k < |x| {
        HexValueIs(x[i + k]);
      }
    }
  }

  lemma {:induction false} OctalDigitsRead(x: seq<byte>, i: nat, digits: seq<byte>, k: nat)
    requires At(x, i, digits) && k <= |digits| <= 3 && forall m :: 0 <= m < |digits| ==> IsOctal(digits[m])
    requires i + |digits| < |x| && |digits| < 3 ==> !IsOctal(x[i + |digits|])
    ensures OctalDigits(x, i + k, Number(digits[..k], 8), k) == (i + |digits|, Number(digits, 8))
    decreases |digits| - k
  {
    hide Number, At;
    AtChars(x, i, digits);
    if k < |digits| {
      assert x[i + k] == digits[k];
      NumberSnoc(digits, k, 8);
      OctalDigitsRead(x, i, digits, k + 1);
    } else {
      assert digits[..k] == digits;
    }
  }

  // ---- \<...> -------------------------------------------------------------

  function Digits(pending: Option<nat>): seq<nat> {
    if pending.Some? then [pending.value] else []
  }

  lemma PairsNext(a: nat, b: nat, v: seq<nat>)
    ensures Pairs([a, b] + v) == [AsByte(a * 16 + b)] + Pairs(v)
  {
    var w := [a, b] + v;
    assert |w| / 2 == 1 + |v| / 2;
    forall k | 0 <= k < |v| / 2
      ensures Pairs(w)[k + 1] == Pairs(v)[k]
    {
      assert w[2 * (k + 1)] == v[2 * k] && w[2 * (k + 1) + 1] == v[2 * k + 1];
    }
  }

  /** A comment within the brackets ends where it is closed. */
  lemma BlockSkipped(x: seq<byte>, i: nat, text: seq<byte>)
    requires ChunkOk(Block(text)) && At(x, i, ChunkText(Block(text)))
    ensures CommentAt(x, i) && CommentEnd(x, i) == i + |text| + 4
  {
    var w := text + [STAR, SLASH];
    AtChars(x, i, ChunkText(Block(text)));
    assert x[i + 0] == SLASH && x[i + 1] == STAR;
    forall m | i + 2 <= m <= i + 2 + |text|
      ensures ClosesBlock(x, m) <==> m == i + 2 + |text|
    {
      var k := m - i - 2;
      assert x[i + (2 + k)] == ChunkText(Block(text))[2 + k] == w[k];
      assert x[i + (3 + k)] == ChunkText(Block(text))[3 + k] == w[k + 1];
      assert ClosesBlock(x, m) <==> ClosesBlock(w, k);
    }
    assert ClosesBlock(x, i + 2 + |text|);
  }

  /** What reading one chunk leaves pending, and the byte it completes. */
  function Left(c: Chunk, pending: Option<nat>): Option<nat> {
    if !c.Digit? then pending else if pending.Some? then None else Some(DigitValue(c.c))
  }

  function Completed(c: Chunk, pending: Option<nat>): seq<byte> {
    if c.Digit? && pending.Some? then [AsByte(pending.value * 16 + DigitValue(c.c))] else []
  }

  lemma ChunkRead(x: seq<byte>, i: nat, c: Chunk, pending: Option<nat>)
    requires ChunkOk(c) && At(x, i, ChunkText(c))
    requires var e := i + |ChunkText(c)|; e < |x| && (c == Filler(SLASH) ==> x[e] != SLASH && x[e] != STAR)
    ensures var e := i + |ChunkText(c)|;
            && AngleEnd(x, i) == AngleEnd(x, e)
            && HexString(x, i, pending).0 == HexString(x, e, Left(c, pending)).0
            && HexString(x, i, pending).1 == Completed(c, pending) + HexString(x, e, Left(c, pending)).1
  {
    AtChars(x, i, ChunkText(c));
    assert x[i + 0] == ChunkText(c)[0];
    HexValueIs(x[i]);
    if c.Block? {
      BlockSkipped(x, i, c.text);
    }
  }

  lemma ValuesRead(cs: seq<Chunk>)
    requires cs != []
    ensures ChunkValues(cs) == (if cs[0].Digit? then [DigitValue(cs[0].c)] + ChunkValues(cs[1..]) else ChunkValues(cs[1..]))
  {}

  lemma PairsRead(cs: seq<Chunk>, pending: Option<nat>)
    requires cs != []
    ensures Pairs(Digits(pending) + ChunkValues(cs)) ==
            Completed(cs[0], pending) + Pairs(Digits(Left(cs[0], pending)) + ChunkValues(cs[1..]))
  {
    hide Pairs, ChunkValues, DigitValue;
    ValuesRead(cs);
    var c, more := cs[0], ChunkValues(cs[1..]);
    if !c.Digit? {
    } else if pending.Some? {
      PairsNext(pending.value, DigitValue(c.c), more);
      assert [pending.value] + ([DigitValue(c.c)] + more) == [pending.value, DigitValue(c.c)] + more;
      assert [] + more == more;
    } else {
      assert [] + ([DigitValue(c.c)] + more) == [DigitValue(c.c)] + more;
    }
  }

  lemma {:induction false} ChunksRead(x: seq<byte>, i: nat, cs: seq<Chunk>, pending: Option<nat>)
    requires ChunksOk(cs) && At(x, i, ChunksText(cs) + [GREATER])
    ensures HexString(x, i, pending).0 == AngleEnd(x, i) == i + |ChunksText(cs)| + 1
    ensures HexString(x, i, pending).1 == Pairs(Digits(pending) + ChunkValues(cs))
    decreases |cs|
  {
    hide At, Pairs, Digits, Left, Completed, AngleEnd, HexString, ChunkText, ChunksOk, ChunkOk;
    if cs == [] {
      assert ChunksText(cs) + [GREATER] == [GREATER];
      BracketCloses(x, i, pending);
    } else {
      var c, rest := cs[0], ChunksText(cs[1..]) + [GREATER];
      assert ChunksText(cs) + [GREATER] == ChunkText(c) + rest;
      AtSplit(x, i, ChunkText(c), rest);
      AtChars(x, i + |ChunkText(c)|, rest);
      assert x[i + |ChunkText(c)| + 0] == rest[0];
      NextStarts(cs);
      ChunkRead(x, i, c, pending);
      ChunksRead(x, i + |ChunkText(c)|, cs[1..], Left(c, pending));
      PairsRead(cs, pending);
    }
  }

  lemma BracketCloses(x: seq<byte>, i: nat, pending: Option<nat>)
    requires At(x, i, [GREATER])
    ensures HexString(x, i, pending) == (i + 1, []) && AngleEnd(x, i) == i + 1
    ensures Pairs(Digits(pending) + ChunkValues([])) == []
  {
    AtChars(x, i, [GREATER]);
    assert x[i + 0] == GREATER;
  }

  /** What follows a chunk, chunk or bracket, never makes a comment of it. */
  lemma NextStarts(cs: seq<Chunk>)
    requires ChunksOk(cs) && cs != []
    ensures ChunksOk(cs[1..]) && ChunkOk(cs[0])
    ensures var rest := ChunksText(cs[1..]) + [GREATER];
            cs[0] == Filler(SLASH) ==> rest[0] != SLASH && rest[0] != STAR
  {}

  // ---- within double quotes -----------------------------------------------

  lemma BracketRead(x: seq<byte>, i: nat, cs: seq<Chunk>)
    requires ChunksOk(cs) && At(x, i, BracketText(cs))
    ensures i + 1 < |x| && x[i] == BACKSLASH && x[i + 1] == LESS
    ensures Escape(x, i).0 == BackslashEnd(x, i) == i + |BracketText(cs)|
    ensures Escape(x, i).1 == Pairs(ChunkValues(cs))
  {
    hide At, Pairs, ChunksOk, HexString, AngleEnd;
    assert BracketText(cs) == [BACKSLASH, LESS] + (ChunksText(cs) + [GREATER]);
    AtSplit(x, i, [BACKSLASH, LESS], ChunksText(cs) + [GREATER]);
    AtChars(x, i, [BACKSLASH, LESS]);
    assert x[i + 0] == BACKSLASH && x[i + 1] == LESS;
    ChunksRead(x, i + 2, cs, None);
    assert Digits(None) + ChunkValues(cs) == ChunkValues(cs);
  }

  lemma HexEscapeRead(x: seq<byte>, i: nat, digits: seq<byte>)
    requires ItemOk(Hex(digits)) && At(x, i, [BACKSLASH, 120] + digits)
    requires i + 2 + |digits| < |x| ==> !IsHex(x[i + 2 + |digits|])
    ensures i + 1 < |x| && x[i] == BACKSLASH && Escape(x, i) == (i + 2 + |digits|, ItemBytes(Hex(digits)))
  {
    hide Number, HexDigits, OctalDigits, HexString;
    AtSplit(x, i, [BACKSLASH, 120], digits);
    AtChars(x, i, [BACKSLASH, 120]);
    assert x[i + 0] == BACKSLASH && x[i + 1] == 120;
    hide At;
    HexDigitsRead(x, i + 2, digits, 0);
    NumberNone(digits, 16);
  }

  lemma OctalEscapeRead(x: seq<byte>, i: nat, digits: seq<byte>)
    requires ItemOk(Octal(digits)) && At(x, i, [BACKSLASH] + digits)
    requires i + 1 + |digits| < |x| && |digits| < 3 ==> !IsOctal(x[i + 1 + |digits|])
    ensures i + 1 < |x| && x[i] == BACKSLASH && Escape(x, i) == (i + 1 + |digits|, ItemBytes(Octal(digits)))
  {
    hide Number, HexDigits, OctalDigits, HexString;
    AtSplit(x, i, [BACKSLASH], digits);
    AtChars(x, i, [BACKSLASH]);
    AtChars(x, i + 1, digits);
    assert x[i + 0] == BACKSLASH && x[i + 1 + 0] == digits[0];
    hide At;
    OctalDigitsRead(x, i + 1, digits, 0);
    NumberNone(digits, 8);
  }

  lemma NumberNone(digits: seq<byte>, radix: nat)
    ensures Number(digits[..0], radix) == 0
  {}

  /** Every escape is read as what it stands for. */
  lemma EscapeRead(x: seq<byte>, i: nat, item: Item)
    requires !item.Char? && ItemOk(item) && At(x, i, ItemText(item))
    requires i + |ItemText(item)| < |x| ==> !Continues(item, x[i + |ItemText(item)|])
    ensures i + 1 < |x| && x[i] == BACKSLASH
    ensures Escape(x, i).0 == i + |ItemText(item)| && Escape(x, i).1 == ItemBytes(item)
  {
    if item.Octal? {
      OctalEscapeRead(x, i, item.digits);
    } else if item.Hex? {
      HexEscapeRead(x, i, item.digits);
    } else if item.Bytes? {
      BracketRead(x, i, item.chunks);
    } else {
      AtChars(x, i, ItemText(item));
      assert x[i + 0] == ItemText(item)[0] && x[i + 1] == ItemText(item)[1];
      if item == LineBreak([RETURN, NEWLINE]) {
        assert x[i + 2] == ItemText(item)[2];
      }
    }
  }

  lemma EscapeDecoded(x: seq<byte>, i: nat)
    requires i + 1 < |x| && x[i] == BACKSLASH
    ensures Decoded(x, i, DQUOTE) == Escape(x, i).1 + Decoded(x, Escape(x, i).0, DQUOTE)
  {
    hide Escape;
  }

  lemma CharRead(x: seq<byte>, i: nat, c: byte)
    requires c != DQUOTE && c != BACKSLASH && At(x, i, [c])
    ensures Decoded(x, i, DQUOTE) == [c] + Decoded(x, i + 1, DQUOTE) && DoubleEnd(x, i) == DoubleEnd(x, i + 1)
  {
    hide Escape, BackslashEnd;
    AtChars(x, i, [c]);
    assert x[i + 0] == c;
  }

  lemma ItemRead(x: seq<byte>, i: nat, item: Item)
    requires ItemOk(item) && At(x, i, ItemText(item))
    requires var e := i + |ItemText(item)|; e < |x| && !Continues(item, x[e])
    ensures var e := i + |ItemText(item)|;
            Decoded(x, i, DQUOTE) == ItemBytes(item) + Decoded(x, e, DQUOTE) && DoubleEnd(x, i) == DoubleEnd(x, e)
  {
    if item.Char? {
      CharRead(x, i, item.c);
    } else {
      hide At, Decoded, DoubleEnd, Escape, ItemText, ItemBytes, Continues, ItemOk;
      EscapeRead(x, i, item);
      EscapeDecoded(x, i);
      SkipAgreesWithEscape(x, i);
    }
  }

  lemma ItemsNext(items: seq<Item>)
    requires ItemsOk(items) && items != []
    ensures ItemOk(items[0]) && ItemsOk(items[1..])
    ensures var rest := ItemsText(items[1..]) + [DQUOTE]; !Continues(items[0], rest[0])
  {}

  lemma {:induction false} ItemsRead(x: seq<byte>, i: nat, items: seq<Item>)
    requires ItemsOk(items) && At(x, i, ItemsText(items) + [DQUOTE])
    ensures var e := i + |ItemsText(items)| + 1;
            Decoded(x, i, DQUOTE) == ItemsBytes(items) + Decoded(x, e, 0) && DoubleEnd(x, i) == e
    decreases |items|
  {
    hide At, Decoded, DoubleEnd, ItemText, ItemBytes, ItemsOk, ItemOk, Continues;
    if items == [] {
      assert ItemsText(items) + [DQUOTE] == [DQUOTE];
      DecodeClosing(x, i);
      WalkClosing(x, i);
    } else {
      var w, rest := ItemText(items[0]), ItemsText(items[1..]) + [DQUOTE];
      assert ItemsText(items) + [DQUOTE] == w + rest;
      AtSplit(x, i, w, rest);
      AtChars(x, i + |w|, rest);
      assert x[i + |w| + 0] == rest[0];
      ItemsNext(items);
      ItemRead(x, i, items[0]);
      ItemsRead(x, i + |w|, items[1..]);
    }
  }

  // ---- parts --------------------------------------------------------------

  lemma SingleChar(x: seq<byte>, i: nat)
    requires i < |x|
    ensures x[i] != SQUOTE ==> Decoded(x, i, SQUOTE) == [x[i]] + Decoded(x, i + 1, SQUOTE) && SingleEnd(x, i) == SingleEnd(x, i + 1)
    ensures x[i] == SQUOTE ==> Decoded(x, i, SQUOTE) == Decoded(x, i + 1, 0) && SingleEnd(x, i) == i + 1
  {
    hide Escape;
  }

  lemma {:induction false} SingleRead(x: seq<byte>, i: nat, text: seq<byte>)
    requires SQUOTE !in text && At(x, i, text + [SQUOTE])
    ensures Decoded(x, i, SQUOTE) == text + Decoded(x, i + |text| + 1, 0) && SingleEnd(x, i) == i + |text| + 1
    decreases |text|
  {
    hide Decoded, SingleEnd, At;
    AtChars(x, i, text + [SQUOTE]);
    assert x[i + 0] == (text + [SQUOTE])[0];
    SingleChar(x, i);
    if text != [] {
      assert text == [text[0]] + text[1..];
      assert text + [SQUOTE] == [text[0]] + (text[1..] + [SQUOTE]);
      AtSplit(x, i, [text[0]], text[1..] + [SQUOTE]);
      SingleRead(x, i + 1, text[1..]);
    } else {
      assert text + Decoded(x, i + 1, 0) == Decoded(x, i + 1, 0);
    }
  }

  /** From i to e there is one unit of text, no comment, and it is read as these bytes. */
  ghost predicate ReadAs(x: seq<byte>, i: nat, e: nat, bytes: seq<byte>) {
    i < e <= |x| && Decoded(x, i, 0) == bytes + Decoded(x, e, 0) && TokenEnd(x, i) == e && !CommentAt(x, i)
  }

  lemma QuoteOpens(x: seq<byte>, i: nat)
    requires i < |x| && IsQuote(x[i])
    ensures Decoded(x, i, 0) == Decoded(x, i + 1, x[i]) && !CommentAt(x, i)
    ensures TokenEnd(x, i) == if i + 1 == |x| then |x| else if x[i] == SQUOTE then SingleEnd(x, i + 1) else DoubleEnd(x, i + 1)
  {
    hide SingleEnd, DoubleEnd;
  }

  lemma SinglePart(x: seq<byte>, i: nat, text: seq<byte>)
    requires SQUOTE !in text && At(x, i, [SQUOTE] + text + [SQUOTE])
    ensures ReadAs(x, i, i + |text| + 2, text) && x[i] == SQUOTE
  {
    hide Decoded, TokenEnd, SingleEnd, At;
    assert [SQUOTE] + text + [SQUOTE] == [SQUOTE] + (text + [SQUOTE]);
    AtSplit(x, i, [SQUOTE], text + [SQUOTE]);
    AtChars(x, i, [SQUOTE]);
    AtChars(x, i + 1, text + [SQUOTE]);
    assert x[i + 0] == SQUOTE;
    QuoteOpens(x, i);
    SingleRead(x, i + 1, text);
  }

  lemma DoublePart(x: seq<byte>, i: nat, items: seq<Item>)
    requires ItemsOk(items) && At(x, i, [DQUOTE] + ItemsText(items) + [DQUOTE])
    ensures ReadAs(x, i, i + |ItemsText(items)| + 2, ItemsBytes(items)) && x[i] == DQUOTE
  {
    hide Decoded, TokenEnd, DoubleEnd, At, ItemsOk, ItemsText, ItemsBytes;
    var w := ItemsText(items) + [DQUOTE];
    assert [DQUOTE] + ItemsText(items) + [DQUOTE] == [DQUOTE] + w;
    AtSplit(x, i, [DQUOTE], w);
    AtChars(x, i, [DQUOTE]);
    AtChars(x, i + 1, w);
    assert x[i + 0] == DQUOTE;
    QuoteOpens(x, i);
    ItemsRead(x, i + 1, items);
  }

  lemma BracketPart(x: seq<byte>, i: nat, chunks: seq<Chunk>)
    requires ChunksOk(chunks) && At(x, i, BracketText(chunks))
    ensures ReadAs(x, i, i + |BracketText(chunks)|, Pairs(ChunkValues(chunks))) && x[i] == BACKSLASH
  {
    hide At, ChunksOk, Pairs, ChunkValues, ChunksText, Escape, BackslashEnd;
    AtChars(x, i, BracketText(chunks));
    BracketRead(x, i, chunks);
  }

  lemma PlainPart(x: seq<byte>, i: nat, c: byte)
    requires !IsQuote(c) && At(x, i, [c])
    requires i + 1 < |x| ==> !(c == SLASH && (x[i + 1] == SLASH || x[i + 1] == STAR)) && !(c == BACKSLASH && x[i + 1] == LESS)
    ensures ReadAs(x, i, i + 1, [c]) && x[i] == c
  {
    AtChars(x, i, [c]);
    assert x[i + 0] == c;
  }

  /** Every part is one unit of text and is read as what it stands for; it begins with a space if it is one. */
  ghost predicate PartReads(x: seq<byte>, i: nat, part: Part) {
    && ReadAs(x, i, i + |PartText(part)|, PartBytes(part))
    && (IsSpace(x[i]) <==> part.Plain? && IsSpace(part.c))
  }

  lemma SingleReads(x: seq<byte>, i: nat, text: seq<byte>)
    requires PartOk(Single(text)) && At(x, i, PartText(Single(text)))
    ensures PartReads(x, i, Single(text))
  {
    hide At, Decoded, TokenEnd;
    SinglePart(x, i, text);
  }

  lemma DoubleReads(x: seq<byte>, i: nat, items: seq<Item>)
    requires PartOk(Double(items)) && At(x, i, PartText(Double(items)))
    ensures PartReads(x, i, Double(items))
  {
    hide At, Decoded, TokenEnd, ItemsOk, ItemsText, ItemsBytes;
    DoublePart(x, i, items);
  }

  lemma BracketReads(x: seq<byte>, i: nat, chunks: seq<Chunk>)
    requires PartOk(Bracket(chunks)) && At(x, i, PartText(Bracket(chunks)))
    ensures PartReads(x, i, Bracket(chunks))
  {
    hide At, Decoded, TokenEnd, ChunksOk, BracketText, Pairs, ChunkValues;
    BracketPart(x, i, chunks);
  }

  lemma PlainReads(x: seq<byte>, i: nat, c: byte)
    requires PartOk(Plain(c)) && At(x, i, PartText(Plain(c)))
    requires i + 1 < |x| ==> !(c == SLASH && (x[i + 1] == SLASH || x[i + 1] == STAR)) && !(c == BACKSLASH && x[i + 1] == LESS)
    ensures PartReads(x, i, Plain(c))
  {
    hide At, Decoded, TokenEnd;
    PlainPart(x, i, c);
  }

  lemma PartRead(x: seq<byte>, i: nat, part: Part)
    requires PartOk(part) && At(x, i, PartText(part))
    requires part.Plain? && i + 1 < |x| ==>
               !(part.c == SLASH && (x[i + 1] == SLASH || x[i + 1] == STAR)) && !(part.c == BACKSLASH && x[i + 1] == LESS)
    ensures PartReads(x, i, part)
  {
    hide At, PartText, PartReads, PartOk;
    match part
    case Plain(c) => PlainReads(x, i, c);
    case Single(text) => SingleReads(x, i, text);
    case Double(items) => DoubleReads(x, i, items);
    case Bracket(chunks) => BracketReads(x, i, chunks);
  }

  /** The conditions on a text, for its parts from some point on. */
  predicate TailOk(parts: seq<Part>) {
    && (forall k :: 0 <= k < |parts| ==> PartOk(parts[k]))
    && (forall k :: 1 <= k < |parts| ==> !Meet(parts[k - 1], parts[k]))
    && (parts != [] && parts[|parts| - 1].Plain? ==> !White(parts[|parts| - 1].c))
  }

  lemma PartsNext(parts: seq<Part>)
    requires TailOk(parts) && parts != []
    ensures PartOk(parts[0]) && TailOk(parts[1..])
    ensures parts[0].Plain? && Text(parts[1..]) != [] ==>
              var c := Text(parts[1..])[0];
              !(parts[0].c == SLASH && (c == SLASH || c == STAR)) && !(parts[0].c == BACKSLASH && c == LESS)
    ensures parts[0].Plain? && IsSpace(parts[0].c) ==> parts[1..] != []
    ensures Text(parts[1..]) == [] ==> parts[1..] == []
  {}

  /** A text ends at the end of the string or at a comma. */
  predicate Ended(x: seq<byte>, e: nat) {
    e == |x| || (e < |x| && x[e] == COMMA)
  }

  /** What follows a text does not make a comment or a \< of its last character. */
  predicate Unglued(x: seq<byte>, e: nat, parts: seq<Part>) {
    e < |x| && parts != [] && parts[|parts| - 1].Plain? ==>
      var c := parts[|parts| - 1].c;
      !(c == SLASH && (x[e] == SLASH || x[e] == STAR)) && !(c == BACKSLASH && x[e] == LESS)
  }

  lemma PartsStep(x: seq<byte>, i: nat, parts: seq<Part>)
    requires TailOk(parts) && parts != [] && At(x, i, Text(parts)) && Unglued(x, i + |Text(parts)|, parts)
    ensures var e := i + |PartText(parts[0])|;
            && Unglued(x, i + |Text(parts)|, parts[1..])
            && At(x, e, Text(parts[1..])) && e + |Text(parts[1..])| == i + |Text(parts)| && TailOk(parts[1..])
            && PartReads(x, i, parts[0]) && (IsSpace(x[i]) ==> parts[1..] != [])
            && (x[i] == COMMA <==> parts[0] == Plain(COMMA))
  {
    hide At, PartText, PartBytes, PartOk, PartReads, TailOk;
    var w, rest := PartText(parts[0]), Text(parts[1..]);
    assert Text(parts) == w + rest;
    AtSplit(x, i, w, rest);
    PartsNext(parts);
    OneByte(parts[0]);
    if rest != [] {
      AtChars(x, i + |w|, rest);
      assert x[i + |w| + 0] == rest[0];
    }
    PartRead(x, i, parts[0]);
    ReadsSpace(x, i, parts[0]);
  }

  lemma ReadsSpace(x: seq<byte>, i: nat, part: Part)
    requires PartReads(x, i, part) && At(x, i, PartText(part))
    ensures i < |x| && (IsSpace(x[i]) <==> part.Plain? && IsSpace(part.c))
    ensures x[i] == COMMA <==> part == Plain(COMMA)
  {
    hide Decoded, TokenEnd;
    AtChars(x, i, PartText(part));
    assert x[i + 0] == PartText(part)[0];
  }

  lemma NoParts(x: seq<byte>, i: nat)
    requires i + |Text([])| == |x|
    ensures Decoded(x, i, 0) == Meaning([])
  {}

  lemma {:induction false} PartsDecoded(x: seq<byte>, i: nat, parts: seq<Part>)
    requires TailOk(parts) && At(x, i, Text(parts)) && i + |Text(parts)| == |x|
    ensures Decoded(x, i, 0) == Meaning(parts)
    decreases |parts|
  {
    hide At, PartText, PartBytes, Decoded, TokenEnd, CommentAt, TailOk, IsSpace, Text;
    if parts == [] {
      NoParts(x, i);
    } else {
      PartsStep(x, i, parts);
      PartsDecoded(x, i + |PartText(parts[0])|, parts[1..]);
    }
  }

  predicate NoPlainComma(parts: seq<Part>) {
    forall k :: 0 <= k < |parts| ==> parts[k] != Plain(COMMA)
  }

  /** Nothing of a text without comments and outer space is removed. */
  lemma {:induction false} PartsKept(x: seq<byte>, b: nat, i: nat, parts: seq<Part>, comma: bool, run: seq<byte>, gap: seq<byte>)
    requires TailOk(parts) && At(x, i, Text(parts)) && Unglued(x, i + |Text(parts)|, parts)
    requires comma ==> NoPlainComma(parts)
    requires b <= i <= |x| && run + gap == x[b..i] && (parts == [] ==> gap == [])
    ensures i + |Text(parts)| <= |x|
    ensures Rest(x, i, comma, run, gap, false) == Rest(x, i + |Text(parts)|, comma, x[b..i + |Text(parts)|], [], false)
    decreases |parts|
  {
    hide At, PartText, PartBytes, Decoded, TokenEnd, TailOk;
    if parts == [] {
      assert run + gap == run;
    } else {
      PartsStep(x, i, parts);
      var e := i + |PartText(parts[0])|;
      assert x[b..e] == x[b..i] + x[i..e];
      if IsSpace(x[i]) {
        OneByte(parts[0]);
        assert run + (gap + [x[i]]) == x[b..e];
        PartsKept(x, b, e, parts[1..], comma, run, gap + [x[i]]);
      } else {
        assert run + gap + x[i..e] + [] == x[b..e];
        PartsKept(x, b, e, parts[1..], comma, run + gap + x[i..e], []);
      }
    }
  }

  /** Such a text is found whole, from its start or from a space before it. */
  lemma TextFound(x: seq<byte>, i: nat, parts: seq<Part>, comma: bool)
    requires TextOk(parts) && At(x, i, Text(parts)) && Ended(x, i + |Text(parts)|)
    requires comma ==> NoPlainComma(parts)
    requires !comma ==> i + |Text(parts)| == |x|
    ensures Partial(x, i, comma).0 == Text(parts) && Partial(x, i, comma).1 == i + |Text(parts)| <= |x|
    ensures i > 0 && x[i - 1] == SPACE ==> Partial(x, i - 1, comma) == Partial(x, i, comma)
  {
    hide Decoded, TokenEnd, PartText, PartBytes, TailOk, Rest;
    TextTail(parts);
    EndedUnglued(x, i + |Text(parts)|, parts);
    if parts != [] {
      PartsStep(x, i, parts);
    }
    assert SpaceEnd(x, i) == i;
    assert [] + [] == x[i..i];
    PartsKept(x, i, i, parts, comma, [], []);
    AtWhole(x, i, Text(parts));
    RestEnds(x, i + |Text(parts)|, comma, Text(parts));
  }

  lemma EndedUnglued(x: seq<byte>, e: nat, parts: seq<Part>)
    requires Ended(x, e)
    ensures Unglued(x, e, parts)
  {}

  lemma RestEnds(x: seq<byte>, e: nat, comma: bool, run: seq<byte>)
    requires Ended(x, e) && (!comma ==> e == |x|)
    ensures Rest(x, e, comma, run, [], false).0 == run && Rest(x, e, comma, run, [], false).1 == e
  {}

  lemma TextTail(parts: seq<Part>)
    requires TextOk(parts)
    ensures TailOk(parts)
  {}

  lemma AtWhole(x: seq<byte>, i: nat, t: seq<byte>)
    requires At(x, i, t)
    ensures i + |t| <= |x| && x[i..i + |t|] == t
  {}

  lemma OneByte(part: Part)
    ensures part.Plain? ==> |PartText(part)| == 1
  {}

  /** cp_unquote() of a written text is what the text stands for. */
  lemma UnquotedMeans(parts: seq<Part>)
    requires TextOk(parts)
    ensures Unquoted(Text(parts)) == Meaning(parts)
  {
    var x := Text(parts);
    assert At(x, 0, x);
    TextTail(parts);
    hide Partial, Decoded, Text, TailOk, TextOk, Meaning;
    PartsDecoded(x, 0, parts);
    TextFound(x, 0, parts, false);
  }

  // ---- argument lists -----------------------------------------------------

  /** A last argument that is empty is ignored. */
  function Trimmed(v: seq<seq<byte>>): seq<seq<byte>> {
    if v != [] && v[|v| - 1] == [] then v[..|v| - 1] else v
  }

  /** An argument: a text without a comma outside quotes. */
  ghost predicate IsArg(t: seq<byte>) {
    exists parts :: TextOk(parts) && NoPlainComma(parts) && t == Text(parts)
  }

  lemma ArgFound(x: seq<byte>, i: nat, t: seq<byte>)
    requires IsArg(t) && At(x, i, t) && Ended(x, i + |t|)
    ensures Partial(x, i, true).0 == t && Partial(x, i, true).1 == i + |t| <= |x|
    ensures i > 0 && x[i - 1] == SPACE ==> Partial(x, i - 1, true) == Partial(x, i, true)
  {
    hide Partial, At, TextOk, Text, NoPlainComma;
    var parts :| TextOk(parts) && NoPlainComma(parts) && t == Text(parts);
    TextFound(x, i, parts, true);
  }

  lemma TailEnded(x: seq<byte>, e: nat, v: seq<seq<byte>>)
    requires At(x, e, Tail(v)) && e + |Tail(v)| == |x|
    ensures Ended(x, e) && (e == |x| <==> v == [])
  {
    CommaOrEnd(x, e, v);
  }

  lemma {:induction false} ArgsSplit(x: seq<byte>, i: nat, v: seq<seq<byte>>)
    requires forall k :: 0 <= k < |v| ==> IsArg(v[k])
    requires At(x, i, Tail(v)) && i + |Tail(v)| == |x|
    ensures ArgsFrom(x, i + 1) == Trimmed(v)
    decreases |v|
  {
    hide At, IsArg, Partial, Ended, ArgsFrom;
    if v == [] {
      ArgsEnd(x, i + 1);
    } else {
      var q, rest := v[0], Tail(v[1..]);
      assert Tail(v) == [COMMA, SPACE] + (q + rest);
      AtSplit(x, i, [COMMA, SPACE], q + rest);
      AtChars(x, i, [COMMA, SPACE]);
      assert x[i + 1] == SPACE;
      AtSplit(x, i + 2, q, rest);
      ArgNext(x, i + 2, v);
      ArgsSplit(x, i + 2 + |q|, v[1..]);
      TrimmedNext(v);
    }
  }

  lemma TrimmedNext(v: seq<seq<byte>>)
    requires v != []
    ensures Trimmed(v) == (if v[0] != [] || |v| > 1 then [v[0]] else []) + Trimmed(v[1..])
  {
    assert v == [v[0]] + v[1..];
  }

  lemma ArgNext(x: seq<byte>, i: nat, v: seq<seq<byte>>)
    requires v != [] && IsArg(v[0]) && At(x, i, v[0]) && At(x, i + |v[0]|, Tail(v[1..]))
    requires i + |v[0]| + |Tail(v[1..])| == |x|
    ensures i < |x| ==> ArgsFrom(x, i) == (if v[0] != [] || |v| > 1 then [v[0]] else []) + ArgsFrom(x, i + |v[0]| + 1)
    ensures i > 0 && x[i - 1] == SPACE ==>
              ArgsFrom(x, i - 1) == (if v[0] != [] || |v| > 1 then [v[0]] else []) + ArgsFrom(x, i + |v[0]| + 1)
  {
    hide At, IsArg, Partial, Ended;
    TailEnded(x, i + |v[0]|, v[1..]);
    ArgFound(x, i, v[0]);
  }

  /** cp_argvec() of a joined list gives the list back, but for a last argument that is empty. */
  lemma ArgvecOfTexts(v: seq<seq<byte>>)
    requires forall k :: 0 <= k < |v| ==> IsArg(v[k])
    ensures ArgsFrom(Joined(v), 0) == Trimmed(v)
  {
    hide At, IsArg, Partial, ArgsFrom, Tail, Joined, Trimmed;
    if v == [] || v == [[]] {
      JoinedNone(v);
    } else {
      var x := Joined(v);
      JoinedTail(v);
      AtParts(v[0], Tail(v[1..]));
      JoinedSome(v);
      ArgNext(x, 0, v);
      ArgsSplit(x, |v[0]|, v[1..]);
      TrimmedNext(v);
    }
  }

  lemma JoinedNone(v: seq<seq<byte>>)
    requires v == [] || v == [[]]
    ensures ArgsFrom(Joined(v), 0) == Trimmed(v)
  {}

  lemma JoinedSome(v: seq<seq<byte>>)
    requires v != [] && v != [[]]
    ensures Joined(v) != []
  {
    if |v| == 1 {
      assert v == [v[0]];
    }
  }

  // ---- single forms -------------------------------------------------------

  lemma OnePart(part: Part)
    ensures Text([part]) == PartText(part) && Meaning([part]) == PartBytes(part)
  {
    assert PartText(part) + [] == PartText(part) && PartBytes(part) + [] == PartBytes(part);
  }

  lemma OneItem(item: Item)
    ensures ItemsText([item]) == ItemText(item) && ItemsBytes([item]) == ItemBytes(item)
  {
    assert ItemText(item) + [] == ItemText(item) && ItemBytes(item) + [] == ItemBytes(item);
  }

  /** Nothing within single quotes is special. */
  lemma SingleQuoted(t: seq<byte>)
    requires SQUOTE !in t
    ensures Unquoted([SQUOTE] + t + [SQUOTE]) == t
  {
    OnePart(Single(t));
    UnquotedMeans([Single(t)]);
  }

  /** A text with nothing special in it, backslashes included, stays as it is. */
  lemma PlainText(t: seq<byte>)
    requires SQUOTE !in t && DQUOTE !in t
    requires forall k :: 1 <= k < |t| ==> !(t[k - 1] == BACKSLASH && t[k] == LESS)
    requires forall k :: 1 <= k < |t| ==> !(t[k - 1] == SLASH && (t[k] == SLASH || t[k] == STAR))
    requires t != [] ==> !White(t[0]) && !White(t[|t| - 1])
    ensures Unquoted(t) == t
  {
    var parts := seq(|t|, k requires 0 <= k < |t| => Plain(t[k]));
    PlainParts(t, parts);
    forall k | 1 <= k < |parts|
      ensures !Meet(parts[k - 1], parts[k])
    {
      assert parts[k - 1] == Plain(t[k - 1]) && parts[k] == Plain(t[k]);
    }
    UnquotedMeans(parts);
  }

  lemma {:induction false} PlainParts(t: seq<byte>, parts: seq<Part>)
    requires |parts| == |t| && forall k :: 0 <= k < |t| ==> parts[k] == Plain(t[k])
    ensures Text(parts) == t && Meaning(parts) == t
    decreases |t|
  {
    if t != [] {
      PlainParts(t[1..], parts[1..]);
      assert t == [t[0]] + t[1..];
    }
  }

  lemma QuotedItem(item: Item)
    requires ItemOk(item)
    ensures Unquoted([DQUOTE] + ItemText(item) + [DQUOTE]) == ItemBytes(item)
  {
    OneItem(item);
    OnePart(Double([item]));
    UnquotedMeans([Double([item])]);
  }

  /** The seven letters, and every character that is neither a letter of the table nor the start of a longer escape. */
  lemma LetterEscapes()
    ensures Unquoted([DQUOTE, BACKSLASH, 97, DQUOTE]) == [7]
    ensures Unquoted([DQUOTE, BACKSLASH, 98, DQUOTE]) == [8]
    ensures Unquoted([DQUOTE, BACKSLASH, 102, DQUOTE]) == [12]
    ensures Unquoted([DQUOTE, BACKSLASH, 110, DQUOTE]) == [10]
    ensures Unquoted([DQUOTE, BACKSLASH, 114, DQUOTE]) == [13]
    ensures Unquoted([DQUOTE, BACKSLASH, 116, DQUOTE]) == [9]
    ensures Unquoted([DQUOTE, BACKSLASH, 118, DQUOTE]) == [11]
    ensures forall c: byte :: c !in {97, 98, 102, 110, 114, 116, 118, 120, LESS, RETURN, NEWLINE} && !(48 <= c <= 55) ==>
              Unquoted([DQUOTE, BACKSLASH, c, DQUOTE]) == [c]
  {
    hide Unquoted;
    forall c: byte | c in Letters
      ensures Unquoted([DQUOTE, BACKSLASH, c, DQUOTE]) == [Letters[c]]
    {
      QuotedItem(Letter(c));
      assert [DQUOTE] + [BACKSLASH, c] + [DQUOTE] == [DQUOTE, BACKSLASH, c, DQUOTE];
    }
    forall c: byte | c !in Letters && !(48 <= c <= 55) && c != 120 && c != LESS && c != RETURN && c != NEWLINE
      ensures Unquoted([DQUOTE, BACKSLASH, c, DQUOTE]) == [c]
    {
      QuotedItem(Itself(c));
      assert [DQUOTE] + [BACKSLASH, c] + [DQUOTE] == [DQUOTE, BACKSLASH, c, DQUOTE];
    }
  }

  /** The hexadecimal digit for n, in either case. */
  function HexChar(n: nat, upper: bool): (c: byte)
    requires n < 16
    ensures IsHex(c) && DigitValue(c) == n
  {
    if n < 10 then 48 + n as byte else if upper then 55 + n as byte else 87 + n as byte
  }

  /** Every byte can be written as \x and two digits. */
  lemma HexEscapes(v: byte, upper: bool)
    ensures Unquoted([DQUOTE, BACKSLASH, 120, HexChar(v as nat / 16, upper), HexChar(v as nat % 16, upper), DQUOTE]) == [v]
  {
    var digits := [HexChar(v as nat / 16, upper), HexChar(v as nat % 16, upper)];
    TwoDigits(digits[0], digits[1]);
    hide Unquoted, HexChar, Number;
    QuotedItem(Hex(digits));
    assert [DQUOTE] + ([BACKSLASH, 120] + digits) + [DQUOTE] == [DQUOTE, BACKSLASH, 120, digits[0], digits[1], DQUOTE];
  }

  lemma TwoDigits(a: byte, b: byte)
    ensures Number([a, b], 16) == DigitValue(a) * 16 + DigitValue(b)
  {
    NumberSnoc([a, b], 0, 16);
    NumberSnoc([a, b], 1, 16);
    assert [a, b][..2] == [a, b] && [a, b][..0] == [];
  }

  /** The bytes of s as pairs of digits. */
  function HexPairs(s: seq<byte>, upper: bool): seq<byte> {
    if s == [] then []
    else [HexChar(s[0] as nat / 16, upper), HexChar(s[0] as nat % 16, upper)] + HexPairs(s[1..], upper)
  }

  function PairChunks(s: seq<byte>, upper: bool): seq<Chunk> {
    if s == [] then []
    else [Digit(HexChar(s[0] as nat / 16, upper)), Digit(HexChar(s[0] as nat % 16, upper))] + PairChunks(s[1..], upper)
  }

  lemma {:induction false} PairChunksText(s: seq<byte>, upper: bool)
    ensures ChunksText(PairChunks(s, upper)) == HexPairs(s, upper)
    ensures forall k :: 0 <= k < |PairChunks(s, upper)| ==> PairChunks(s, upper)[k].Digit? && IsHex(PairChunks(s, upper)[k].c)
    decreases |s|
  {
    if s != [] {
      PairChunksText(s[1..], upper);
      var cs, rest := PairChunks(s, upper), PairChunks(s[1..], upper);
      assert cs[1..] == [cs[1]] + rest && cs[1..][1..] == rest;
      assert ChunksText(cs) == [cs[0].c] + ([cs[1].c] + ChunksText(rest));
    }
  }

  lemma {:induction false} PairChunksBytes(s: seq<byte>, upper: bool)
    ensures Pairs(ChunkValues(PairChunks(s, upper))) == s
    decreases |s|
  {
    if s != [] {
      hide Pairs, HexChar, DigitValue, ChunkValues;
      PairChunksBytes(s[1..], upper);
      var rest := PairChunks(s[1..], upper);
      var a, b := s[0] as nat / 16, s[0] as nat % 16;
      TwoValues(HexChar(a, upper), HexChar(b, upper), rest);
      PairsNext(a, b, ChunkValues(rest));
      assert s == [s[0]] + s[1..];
    }
  }

  lemma TwoValues(a: byte, b: byte, rest: seq<Chunk>)
    ensures ChunkValues([Digit(a), Digit(b)] + rest) == [DigitValue(a), DigitValue(b)] + ChunkValues(rest)
  {
    hide DigitValue;
    var cs := [Digit(a), Digit(b)] + rest;
    assert cs[1..] == [Digit(b)] + rest && cs[1..][1..] == rest;
  }

  /** Every byte string can be written as \< digits >, within double quotes or outside all quotes. */
  lemma BracketEscapes(s: seq<byte>, upper: bool)
    ensures Unquoted([BACKSLASH, LESS] + HexPairs(s, upper) + [GREATER]) == s
    ensures Unquoted([DQUOTE] + ([BACKSLASH, LESS] + HexPairs(s, upper) + [GREATER]) + [DQUOTE]) == s
  {
    var cs := PairChunks(s, upper);
    PairChunksText(s, upper);
    PairChunksBytes(s, upper);
    hide Unquoted, HexPairs, PairChunks, Pairs;
    QuotedItem(Bytes(cs));
    OnePart(Bracket(cs));
    UnquotedMeans([Bracket(cs)]);
  }
}
