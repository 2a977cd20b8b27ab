/**
 * The grammar of the JSON dialect as syntax trees and their texts. Beyond the standard (RFC
 * 8259) it has bare keys, and a comma behind an element may be missing or follow the last
 * one. The parser accepts exactly these texts and finds exactly these trees.
 */
module JsonText {
  import opened Bytes
  import opened JsonTree
  import JsonParser

  // ---- Syntax trees -----------------------------------------------------------------------------

  datatype Char =
    | Plain(c: byte)
    | Escape(c: byte)
    | Unicode(hex: seq<byte>)
    | Wide(bytes: seq<byte>)   // a character of two to four UTF-8 bytes
  {
    predicate Valid() {
      match this
      case Plain(c) => 32 <= c < 128 && c != QUOTE && c != BACKSLASH
      case Escape(c) => c in {34, 92, 47, 98, 102, 110, 114, 116}
      case Unicode(hex) => |hex| == 4 && forall k :: 0 <= k < 4 ==> IsHexDigit(hex[k])
      case Wide(bytes) => bytes != [] && bytes[0] >= 128 && |bytes| == Utf8Length(bytes[0])
    }

    function Text(): (s: seq<byte>)
      ensures Valid() ==> s != []
    {
      match this
      case Plain(c) => [c]
      case Escape(c) => [BACKSLASH, c]
      case Unicode(hex) => [BACKSLASH, 117] + hex
      case Wide(bytes) => bytes
    }
  }

  datatype Sign = NoSign | Plus | Minus {
    function Text(): seq<byte> {
      match this
      case NoSign => []
      case Plus => [PLUS]
      case Minus => [MINUS]
    }
  }

  datatype Exponent = NoExponent | Exponent(capital: bool, sign: Sign, digits: seq<byte>) {
    predicate Valid() { Exponent? ==> AreDigits(digits) }

    function Text(): seq<byte> {
      if NoExponent? then [] else [if capital then 69 else 101] + sign.Text() + digits
    }
  }

  predicate AreDigits(s: seq<byte>) { s != [] && forall k :: 0 <= k < |s| ==> IsDigit(s[k]) }

  /** `fraction` holds the digits behind the point; without any there is no point. */
  datatype Numeral = Numeral(negative: bool, whole: seq<byte>, fraction: seq<byte>, exponent: Exponent) {
    predicate Valid() { AreDigits(whole) && (fraction != [] ==> AreDigits(fraction)) && exponent.Valid() }

    function Text(): seq<byte> {
      (if negative then [MINUS] else []) + (whole + (FractionText() + exponent.Text()))
    }

    function FractionText(): seq<byte> { if fraction == [] then [] else [POINT] + fraction }

    /** Followed by `c` the number would go on. */
    predicate Extends(c: byte) {
      IsDigit(c) || (exponent.NoExponent? && (c == 101 || c == 69 || (c == POINT && fraction == [])))
    }
  }

  datatype Key = Quoted(chars: seq<Char>) | Bare(name: seq<byte>) {
    predicate Valid() {
      match this
      case Quoted(chars) => AllValid(chars)
      case Bare(name) => IsIdentifier(name)
    }

    function Text(): seq<byte> {
      match this
      case Quoted(chars) => [QUOTE] + CharsText(chars) + [QUOTE]
      case Bare(name) => name
    }
  }

  predicate IsIdentifier(s: seq<byte>) {
    s != [] && IsAlpha(s[0]) && forall k :: 0 <= k < |s| ==> s[k] == UNDERSCORE || IsAlpha(s[k]) || IsDigit(s[k])
  }

  predicate AllValid(chars: seq<Char>) { forall k :: 0 <= k < |chars| ==> chars[k].Valid() }

  function CharsText(chars: seq<Char>): seq<byte> {
    if chars == [] then [] else chars[0].Text() + CharsText(chars[1..])
  }

  /** `inner` is the white space in front of the closing bracket. */
  datatype Value =
    | NullWord
    | TrueWord
    | FalseWord
    | Number(n: Numeral)
    | Text(chars: seq<Char>)
    | List(items: seq<Item>, inner: seq<byte>)
    | Record(members: seq<Member>, inner: seq<byte>)

  /** An array element with the white space around it, and whether a comma follows. */
  datatype Item = Item(before: seq<byte>, value: Value, after: seq<byte>, comma: bool)

  datatype Member = Member(before: seq<byte>, key: Key, behind: seq<byte>, item: Item)

  predicate IsBlank(s: seq<byte>) { forall k :: 0 <= k < |s| ==> IsSpace(s[k]) }

  // ---- Their texts --------------------------------------------------------------------------------

  function TextOf(v: Value): seq<byte>
    decreases v, 0
  {
    match v
    case NullWord => NULL_WORD
    case TrueWord => TRUE_WORD
    case FalseWord => FALSE_WORD
    case Number(n) => n.Text()
    case Text(chars) => [QUOTE] + CharsText(chars) + [QUOTE]
    case List(items, inner) => [OPEN_BRACKET] + ItemsText(items, inner) + [CLOSE_BRACKET]
    case Record(members, inner) => [OPEN_BRACE] + MembersText(members, inner) + [CLOSE_BRACE]
  }

  function CommaText(comma: bool): seq<byte> { if comma then [COMMA] else [] }

  function ItemText(i: Item): seq<byte>
    decreases i, 1
  {
    i.before + (TextOf(i.value) + (i.after + CommaText(i.comma)))
  }

  function MemberText(m: Member): seq<byte>
    decreases m, 2
  {
    m.before + (m.key.Text() + (m.behind + ([COLON] + ItemText(m.item))))
  }

  function ItemsText(items: seq<Item>, inner: seq<byte>): seq<byte>
    decreases items, 2
  {
    if items == [] then inner else ItemText(items[0]) + ItemsText(items[1..], inner)
  }

  function MembersText(members: seq<Member>, inner: seq<byte>): seq<byte>
    decreases members, 3
  {
    if members == [] then inner else MemberText(members[0]) + MembersText(members[1..], inner)
  }

  // ---- Which syntax trees are written so -------------------------------------------------------------

  /** A number must not run on into what follows it. */
  predicate Fits(v: Value, next: byte) { v.Number? ==> !v.n.Extends(next) }

  predicate Valid(v: Value)
    decreases v, 0
  {
    match v
    case Number(n) => n.Valid()
    case Text(chars) => AllValid(chars)
    case List(items, inner) => IsBlank(inner) && ValidItems(items, inner)
    case Record(members, inner) => IsBlank(inner) && ValidMembers(members, inner)
    case _ => true
  }

  /** With `next` behind it. */
  predicate ValidItem(i: Item, next: byte)
    decreases i, 1
  {
    && IsBlank(i.before) && Valid(i.value) && IsBlank(i.after)
    && Fits(i.value, (i.after + CommaText(i.comma) + [next])[0])
  }

  predicate ValidMember(m: Member, next: byte)
    decreases m, 2
  {
    IsBlank(m.before) && m.key.Valid() && IsBlank(m.behind) && ValidItem(m.item, next)
  }

  predicate ValidItems(items: seq<Item>, inner: seq<byte>)
    decreases items, 2
  {
    items != [] ==>
      ValidItem(items[0], (ItemsText(items[1..], inner) + [CLOSE_BRACKET])[0]) && ValidItems(items[1..], inner)
  }

  predicate ValidMembers(members: seq<Member>, inner: seq<byte>)
    decreases members, 3
  {
    members != [] ==>
      ValidMember(members[0], (MembersText(members[1..], inner) + [CLOSE_BRACE])[0]) && ValidMembers(members[1..], inner)
  }

  // ---- Their token trees ----------------------------------------------------------------------------

  /** The tree of `v` when its text starts at `p`; a string's token leaves out the quotes. */
  function TreeOf(v: Value, p: nat): Tree
    decreases v, 0
  {
    var size := |TextOf(v)|;
    match v
    case NullWord => Node(Null, p, size, [])
    case TrueWord => Node(True, p, size, [])
    case FalseWord => Node(False, p, size, [])
    case Number(_) => Node(Kind.Number, p, size, [])
    case Text(chars) => Node(String, p + 1, |CharsText(chars)|, [])
    case List(items, inner) => Node(Array, p, size, ItemTrees(items, p + 1))
    case Record(members, inner) => Node(Object, p, size, MemberTrees(members, p + 1))
  }

  function KeyTree(k: Key, p: nat): Tree {
    match k
    case Quoted(chars) => Node(String, p + 1, |CharsText(chars)|, [])
    case Bare(name) => Node(String, p, |name|, [])
  }

  function TreesOfItem(i: Item, p: nat): seq<Tree>
    decreases i, 1
  {
    [TreeOf(i.value, p + |i.before|)]
  }

  function ItemTrees(items: seq<Item>, p: nat): seq<Tree>
    decreases items, 2
  {
    if items == [] then [] else TreesOfItem(items[0], p) + ItemTrees(items[1..], p + |ItemText(items[0])|)
  }

  /** A key and its value. */
  function TreesOfMember(m: Member, p: nat): seq<Tree>
    decreases m, 2
  {
    var k := p + |m.before|;
    [KeyTree(m.key, k)] + TreesOfItem(m.item, k + |m.key.Text()| + |m.behind| + 1)
  }

  function MemberTrees(members: seq<Member>, p: nat): seq<Tree>
    decreases members, 3
  {
    if members == [] then [] else TreesOfMember(members[0], p) + MemberTrees(members[1..], p + |MemberText(members[0])|)
  }

  // ---- Places in a text -----------------------------------------------------------------------------

  /** `s` stands at `p` in `b`. */
  predicate At(b: seq<byte>, p: nat, s: seq<byte>) { p + |s| <= |b| && b[p..p + |s|] == s }

  lemma AtParts(b: seq<byte>, p: nat, s: seq<byte>, t: seq<byte>)
    requires At(b, p, s + t)
    ensures At(b, p, s) && At(b, p + |s|, t)
  {
    var st := b[p..p + |s| + |t|];
    assert st[..|s|] == b[p..p + |s|] && st[|s|..] == b[p + |s|..p + |s| + |t|];
    assert (s + t)[..|s|] == s && (s + t)[|s|..] == t;
  }

  lemma AtByte(b: seq<byte>, p: nat, s: seq<byte>, k: nat)
    requires At(b, p, s) && k < |s|
    ensures p + k < |b| && b[p + k] == s[k]
  {
    assert b[p..p + |s|][k] == b[p + k];
  }

  /** White space in front of a place makes no difference to what is seen. */
  lemma {:induction false} BlankAt(b: seq<byte>, p: nat, s: seq<byte>)
    requires At(b, p, s) && IsBlank(s)
    ensures SkipSpaces(b, p) == SkipSpaces(b, p + |s|) && Peek(b, p) == Peek(b, p + |s|)
    decreases |s|
  {
    if s != [] {
      AtByte(b, p, s, 0);
      assert s == s[..1] + s[1..];
      AtParts(b, p, s[..1], s[1..]);
      BlankAt(b, p + 1, s[1..]);
    }
  }

  // ---- Leaves ---------------------------------------------------------------------------------------

  /** A character of a string, with something behind it. */
  lemma CharAt(b: seq<byte>, p: nat, c: Char)
    requires c.Valid() && At(b, p, c.Text()) && p + |c.Text()| < |b|
    ensures ScanString(b, p) == ScanString(b, p + |c.Text()|)
  {
    var s := c.Text();
    AtByte(b, p, s, 0);
    match c
    case Plain(_) =>
    case Wide(_) =>
    case Escape(_) => AtByte(b, p, s, 1);
    case Unicode(hex) =>
      forall k | 1 <= k < 6
        ensures b[p + k] == s[k]
      {
        AtByte(b, p, s, k);
      }
      assert b[p + 1] == 117 && forall k :: 0 <= k < 4 ==> b[p + 2 + k] == hex[k];
      assert EscapeLength(b, p) == 5;
  }

  lemma QuoteAt(b: seq<byte>, p: nat)
    requires At(b, p, [QUOTE])
    ensures p < |b| && b[p] == QUOTE
  {
    AtByte(b, p, [QUOTE], 0);
  }

  /** The closing quote is seen only if something follows it: a string never ends a text. */
  lemma QuoteEnds(b: seq<byte>, p: nat)
    requires p < |b| && b[p] == QUOTE
    ensures ScanString(b, p) == if p + 1 < |b| then End(p) else Bad(INCOMPLETE, p)
  {
  }

  lemma {:induction false} CharsAt(b: seq<byte>, p: nat, chars: seq<Char>)
    requires AllValid(chars) && At(b, p, CharsText(chars) + [QUOTE]) && p + |CharsText(chars)| + 1 < |b|
    ensures ScanString(b, p) == End(p + |CharsText(chars)|)
    decreases |chars|
  {
    hide ScanString, Char.Text, Char.Valid;
    if chars == [] {
      assert CharsText(chars) + [QUOTE] == [QUOTE];
      QuoteAt(b, p);
      QuoteEnds(b, p);
    } else {
      var s, t := chars[0].Text(), CharsText(chars[1..]);
      assert CharsText(chars) + [QUOTE] == s + (t + [QUOTE]);
      AtParts(b, p, s, t + [QUOTE]);
      CharAt(b, p, chars[0]);
      CharsAt(b, p + |s|, chars[1..]);
    }
  }

  lemma StringAt(b: seq<byte>, p: nat, chars: seq<Char>)
    requires AllValid(chars) && At(b, p, [QUOTE] + CharsText(chars) + [QUOTE]) && p + |CharsText(chars)| + 2 < |b|
    ensures SkipSpaces(b, p) == p && Peek(b, p) == QUOTE
    ensures ParseString(b, p) == Ok([Node(String, p + 1, |CharsText(chars)|, [])], p + |CharsText(chars)| + 2)
  {
    hide ScanString, CharsText, Char.Valid;
    var s := CharsText(chars) + [QUOTE];
    assert [QUOTE] + CharsText(chars) + [QUOTE] == [QUOTE] + s;
    AtByte(b, p, [QUOTE] + s, 0);
    AtParts(b, p, [QUOTE], s);
    CharsAt(b, p + 1, chars);
  }

  /** Digits, and no digit behind them. */
  lemma {:induction false} DigitsAt(b: seq<byte>, p: nat, s: seq<byte>)
    requires At(b, p, s) && (forall k :: 0 <= k < |s| ==> IsDigit(s[k]))
    requires p + |s| < |b| ==> !IsDigit(b[p + |s|])
    ensures SkipDigits(b, p) == p + |s|
    decreases |s|
  {
    if s != [] {
      AtByte(b, p, s, 0);
      assert s == s[..1] + s[1..];
      AtParts(b, p, s[..1], s[1..]);
      DigitsAt(b, p + 1, s[1..]);
    }
  }

  lemma DigitRunAt(b: seq<byte>, p: nat, s: seq<byte>)
    requires At(b, p, s) && AreDigits(s) && (p + |s| < |b| ==> !IsDigit(b[p + |s|]))
    ensures ScanDigits(b, p) == End(p + |s|)
  {
    AtByte(b, p, s, 0);
    DigitsAt(b, p, s);
  }

  lemma SignedDigitsAt(b: seq<byte>, p: nat, sign: Sign, digits: seq<byte>)
    requires AreDigits(digits) && At(b, p, sign.Text() + digits)
    requires var q := p + |sign.Text()| + |digits|; q < |b| ==> !IsDigit(b[q])
    ensures p < |b|
    ensures ScanDigits(b, if b[p] == PLUS || b[p] == MINUS then p + 1 else p) == End(p + |sign.Text()| + |digits|)
  {
    hide ScanDigits;
    AtParts(b, p, sign.Text(), digits);
    AtByte(b, p + |sign.Text()|, digits, 0);
    if sign != NoSign {
      AtByte(b, p, sign.Text(), 0);
    }
    DigitRunAt(b, p + |sign.Text()|, digits);
  }

  lemma ExponentAt(b: seq<byte>, p: nat, e: Exponent)
    requires e.Valid() && At(b, p, e.Text()) && p + |e.Text()| < |b|
    requires var c := b[p + |e.Text()|]; !IsDigit(c) && (e.NoExponent? ==> c != 101 && c != 69)
    ensures ScanExponent(b, p) == End(p + |e.Text()|)
    ensures p < |b| && !IsDigit(b[p]) && (b[p] == POINT ==> e.NoExponent?) && (e.NoExponent? ==> e.Text() == [])
  {
    hide ScanDigits, AreDigits, Sign.Text, At;
    if e.Exponent? {
      MarkAt(b, p, e);
      SignedDigitsAt(b, p + 1, e.sign, e.digits);
    }
  }

  lemma MarkAt(b: seq<byte>, p: nat, e: Exponent)
    requires e.Exponent? && At(b, p, e.Text())
    ensures p < |b| && b[p] == (if e.capital then 69 else 101)
    ensures At(b, p + 1, e.sign.Text() + e.digits) && |e.Text()| == 1 + |e.sign.Text()| + |e.digits|
  {
    hide At, Sign.Text;
    var mark := [if e.capital then 69 else 101];
    assert e.Text() == mark + (e.sign.Text() + e.digits);
    AtParts(b, p, mark, e.sign.Text() + e.digits);
    AtByte(b, p, mark, 0);
  }

  lemma FractionAt(b: seq<byte>, p: nat, n: Numeral)
    requires n.Valid() && At(b, p, n.FractionText()) && p + |n.FractionText()| < |b|
    requires var c := b[p + |n.FractionText()|]; !IsDigit(c) && (n.fraction == [] ==> c != POINT)
    ensures ScanFraction(b, p) == End(p + |n.FractionText()|)
    ensures p < |b| && !IsDigit(b[p])
  {
    hide ScanDigits;
    if n.fraction != [] {
      AtByte(b, p, n.FractionText(), 0);
      AtParts(b, p, [POINT], n.fraction);
      DigitRunAt(b, p + 1, n.fraction);
    }
  }

  lemma NumberAt(b: seq<byte>, p: nat, n: Numeral)
    requires n.Valid() && At(b, p, n.Text()) && p + |n.Text()| < |b| && !n.Extends(b[p + |n.Text()|])
    ensures p < |b| && (b[p] == MINUS || IsDigit(b[p]))
    ensures ScanNumber(b, p) == End(p + |n.Text()|)
  {
    hide ScanDigits, ScanFraction, ScanExponent, Exponent.Text, Numeral.FractionText, Numeral.Extends;
    var sign := if n.negative then [MINUS] else [];
    var tail := n.FractionText() + n.exponent.Text();
    AtParts(b, p, sign, n.whole + tail);
    if n.negative {
      AtByte(b, p, sign, 0);
    }
    TailAt(b, p + |sign|, n);
  }

  /** The number behind its sign. */
  lemma TailAt(b: seq<byte>, q: nat, n: Numeral)
    requires n.Valid() && At(b, q, n.whole + (n.FractionText() + n.exponent.Text()))
    requires var end := q + |n.whole| + |n.FractionText()| + |n.exponent.Text()|; end < |b| && !n.Extends(b[end])
    ensures var f := q + |n.whole|;
            var e := f + |n.FractionText()|;
            && f <= e < |b| && IsDigit(b[q]) && ScanDigits(b, q) == End(f) && ScanFraction(b, f) == End(e)
            && ScanExponent(b, e) == End(e + |n.exponent.Text()|)
  {
    hide ScanDigits, ScanFraction, ScanExponent, Numeral.FractionText, At, Exponent.Text;
    AtParts(b, q, n.whole, n.FractionText() + n.exponent.Text());
    AtParts(b, q + |n.whole|, n.FractionText(), n.exponent.Text());
    AtByte(b, q, n.whole, 0);
    var e := q + |n.whole| + |n.FractionText()|;
    ExponentAt(b, e, n.exponent);
    FractionAt(b, q + |n.whole|, n);
    DigitRunAt(b, q, n.whole);
  }

  lemma {:induction false} WordAt(b: seq<byte>, p: nat, word: seq<byte>, i: nat)
    requires At(b, p, word) && i <= |word|
    ensures ScanWord(b, p, word, i) == End(p + |word|)
    decreases |word| - i
  {
    if i < |word| {
      AtByte(b, p, word, i);
      WordAt(b, p, word, i + 1);
    }
  }

  /** An identifier, and no character of one behind it. */
  lemma {:induction false} IdentifierAt(b: seq<byte>, p: nat, s: seq<byte>)
    requires At(b, p, s) && (forall k :: 0 <= k < |s| ==> s[k] == UNDERSCORE || IsAlpha(s[k]) || IsDigit(s[k]))
    requires p + |s| < |b| ==> b[p + |s|] == COLON || IsSpace(b[p + |s|])
    ensures ScanIdentifier(b, p) == p + |s|
    decreases |s|
  {
    if s != [] {
      AtByte(b, p, s, 0);
      assert s == s[..1] + s[1..];
      AtParts(b, p, s[..1], s[1..]);
      IdentifierAt(b, p + 1, s[1..]);
    }
  }

  lemma KeyAt(b: seq<byte>, p: nat, k: Key)
    requires k.Valid() && At(b, p, k.Text()) && p + |k.Text()| < |b|
    requires b[p + |k.Text()|] == COLON || IsSpace(b[p + |k.Text()|])
    ensures ParseKey(b, p) == Ok([KeyTree(k, p)], p + |k.Text()|)
    ensures SkipSpaces(b, p) == p && Peek(b, p) != CLOSE_BRACE && Peek(b, p) != COMMA
  {
    hide ParseString, ScanIdentifier;
    match k
    case Quoted(chars) => StringAt(b, p, chars);
    case Bare(name) =>
      AtByte(b, p, name, 0);
      IdentifierAt(b, p, name);
  }

  // ---- Values -----------------------------------------------------------------------------------------

  lemma StaysPut(b: seq<byte>, p: nat)
    requires p < |b| && !IsSpace(b[p])
    ensures SkipSpaces(b, p) == p && Peek(b, p) == b[p]
  {
  }

  /** The first byte of a value is not white space and does not close anything. */
  lemma FirstByte(v: Value)
    requires Valid(v)
    ensures TextOf(v) != [] && !IsSpace(TextOf(v)[0]) && TextOf(v)[0] != CLOSE_BRACKET && TextOf(v)[0] != COMMA
  {
    if v.Number? {
      var n := v.n;
      assert n.Text()[0] == if n.negative then MINUS else n.whole[0];
    }
  }

  /** A value, with a byte behind it that does not extend it, is parsed to its tree. */
  lemma {:induction false} ValueAt(b: seq<byte>, p: nat, v: Value)
    requires Valid(v) && At(b, p, TextOf(v)) && p + |TextOf(v)| < |b| && Fits(v, b[p + |TextOf(v)|])
    ensures ParseValue(b, p) == Ok([TreeOf(v, p)], p + |TextOf(v)|)
    ensures SkipSpaces(b, p) == p && Peek(b, p) != CLOSE_BRACKET && Peek(b, p) != COMMA
    decreases v, 1
  {
    hide SkipSpaces, Peek, ScanNumber, ScanWord, ParseString, ParseArray, ParseObject, ItemsText, MembersText, CharsText;
    hide ValidItems, ValidMembers, Numeral.Text, Numeral.Valid, Numeral.Extends;
    FirstByte(v);
    AtByte(b, p, TextOf(v), 0);
    StaysPut(b, p);
    match v
    case NullWord => WordAt(b, p, NULL_WORD, 0);
    case TrueWord => WordAt(b, p, TRUE_WORD, 0);
    case FalseWord => WordAt(b, p, FALSE_WORD, 0);
    case Number(n) => NumberAt(b, p, n);
    case Text(chars) => TextAt(b, p, chars);
    case List(_, _) => ListAt(b, p, v);
    case Record(_, _) => RecordAt(b, p, v);
  }

  lemma TextAt(b: seq<byte>, p: nat, chars: seq<Char>)
    requires AllValid(chars) && At(b, p, TextOf(Text(chars))) && p + |TextOf(Text(chars))| < |b|
    ensures ParseString(b, p) == Ok([TreeOf(Text(chars), p)], p + |TextOf(Text(chars))|)
  {
    hide ParseString, CharsText, Char.Valid;
    StringAt(b, p, chars);
  }

  lemma {:induction false} ListAt(b: seq<byte>, p: nat, v: Value)
    requires v.List? && Valid(v) && At(b, p, TextOf(v))
    ensures ParseArray(b, p) == Ok([TreeOf(v, p)], p + |TextOf(v)|)
    decreases v, 0
  {
    hide SkipSpaces, Peek, ParseElements, ItemsText, ValidItems, IsBlank;
    var s := ItemsText(v.items, v.inner);
    ContainerAt(b, p, OPEN_BRACKET, s, CLOSE_BRACKET);
    ItemsAt(b, p + 1, v.items, v.inner);
  }

  /** An object, whatever stands behind it. */
  lemma {:induction false} RecordAt(b: seq<byte>, p: nat, v: Value)
    requires v.Record? && Valid(v) && At(b, p, TextOf(v))
    ensures ParseObject(b, p) == Ok([TreeOf(v, p)], p + |TextOf(v)|)
    decreases v, 0
  {
    hide SkipSpaces, Peek, ParseMembers, MembersText, ValidMembers, IsBlank;
    var s := MembersText(v.members, v.inner);
    ContainerAt(b, p, OPEN_BRACE, s, CLOSE_BRACE);
    MembersAt(b, p + 1, v.members, v.inner);
  }

  lemma ContainerAt(b: seq<byte>, p: nat, open: byte, s: seq<byte>, close: byte)
    requires At(b, p, [open] + s + [close]) && !IsSpace(open)
    ensures p + 1 + |s| < |b| && At(b, p + 1, s) && b[p + 1 + |s|] == close
    ensures SkipSpaces(b, p) == p && Peek(b, p) == open
  {
    assert [open] + s + [close] == [open] + (s + [close]);
    AtParts(b, p, [open], s + [close]);
    AtByte(b, p, [open], 0);
    AtParts(b, p + 1, s, [close]);
    AtByte(b, p + 1 + |s|, [close], 0);
  }

  /** What the loop sees behind a value that ends at `end`, in front of the next item at `next`. */
  ghost predicate Behind(b: seq<byte>, end: nat, next: nat, comma: bool) {
    && end <= |b| && next <= |b|
    && if comma then Peek(b, end) == COMMA && SkipSpaces(b, end) + 1 == next
       else Peek(b, end) == Peek(b, next) && SkipSpaces(b, end) == SkipSpaces(b, next)
  }

  /** An element with its white space and comma. */
  lemma {:induction false} ItemAt(b: seq<byte>, p: nat, i: Item)
    requires At(b, p, ItemText(i)) && p + |ItemText(i)| < |b| && ValidItem(i, b[p + |ItemText(i)|])
    ensures var end := p + |i.before| + |TextOf(i.value)|;
            && end <= |b| && ParseValue(b, p) == Ok(TreesOfItem(i, p), end)
            && Peek(b, p) != CLOSE_BRACKET && Peek(b, p) != COMMA && Behind(b, end, p + |ItemText(i)|, i.comma)
    decreases i, 1
  {
    hide SkipSpaces, Peek, ParseValue, TextOf, TreeOf, Valid, IsBlank, At, Fits, Behind, ItemText;
    var q := p + |i.before|;
    ItemParts(b, p, i);
    ValueAt(b, q, i.value);
    BlankAt(b, p, i.before);
    JsonParser.ValueSkips(b, p);
    BehindAt(b, q + |TextOf(i.value)|, i.after, i.comma);
  }

  lemma ItemParts(b: seq<byte>, p: nat, i: Item)
    requires At(b, p, ItemText(i)) && p + |ItemText(i)| < |b|
    ensures var q, tail := p + |i.before|, i.after + CommaText(i.comma);
            var end := q + |TextOf(i.value)|;
            && At(b, p, i.before) && At(b, q, TextOf(i.value)) && At(b, end, tail)
            && end + |i.after| + |CommaText(i.comma)| == p + |ItemText(i)|
            && end < |b| && b[end] == (tail + [b[p + |ItemText(i)|]])[0]
  {
    hide TextOf, At, CommaText;
    var q, tail := p + |i.before|, i.after + CommaText(i.comma);
    AtParts(b, p, i.before, TextOf(i.value) + tail);
    AtParts(b, q, TextOf(i.value), tail);
    FirstBehind(b, q + |TextOf(i.value)|, tail);
  }

  lemma FirstBehind(b: seq<byte>, p: nat, s: seq<byte>)
    requires At(b, p, s) && p + |s| < |b|
    ensures p < |b| && b[p] == (s + [b[p + |s|]])[0]
  {
    if s != [] {
      AtByte(b, p, s, 0);
    }
  }

  lemma BehindAt(b: seq<byte>, p: nat, after: seq<byte>, comma: bool)
    requires At(b, p, after + CommaText(comma)) && IsBlank(after)
    ensures Behind(b, p, p + |after| + |CommaText(comma)|, comma)
  {
    hide SkipSpaces, Peek, IsBlank;
    AtParts(b, p, after, CommaText(comma));
    BlankAt(b, p, after);
    if comma {
      AtByte(b, p + |after|, [COMMA], 0);
      StaysPut(b, p + |after|);
    }
  }

  /** Elements up to the closing bracket. */
  lemma {:induction false} ItemsAt(b: seq<byte>, p: nat, items: seq<Item>, inner: seq<byte>)
    requires IsBlank(inner) && ValidItems(items, inner) && At(b, p, ItemsText(items, inner))
    requires var end := p + |ItemsText(items, inner)|; end < |b| && b[end] == CLOSE_BRACKET
    ensures ParseElements(b, p) == Ok(ItemTrees(items, p), p + |ItemsText(items, inner)|) && Peek(b, p) != COMMA
    decreases items, 2
  {
    hide SkipSpaces, Peek, ParseValue, ParseElements, ValidItem, ItemText, ItemsText, ItemTrees, IsBlank, TreesOfItem, At;
    StaysPut(b, p + |ItemsText(items, inner)|);
    ItemsParts(b, p, items, inner);
    if items == [] {
      BlankAt(b, p, inner);
      NoElements(b, p);
    } else {
      var next := p + |ItemText(items[0])|;
      ItemAt(b, p, items[0]);
      OneElements(b, p);
      ItemsAt(b, next, items[1..], inner);
      JsonParser.ElementsSkip(b, next);
    }
  }

  lemma NoElements(b: seq<byte>, p: nat)
    requires p <= |b| && Peek(b, p) == CLOSE_BRACKET
    ensures ParseElements(b, p) == Ok([], SkipSpaces(b, p))
  {
  }

  lemma OneElements(b: seq<byte>, p: nat)
    requires p <= |b| && Peek(b, p) != CLOSE_BRACKET && ParseValue(b, p).Ok?
    ensures var v := ParseValue(b, p);
            ParseElements(b, p)
            == Then(v.kids, ParseElements(b, if Peek(b, v.cur) == COMMA then SkipSpaces(b, v.cur) + 1 else SkipSpaces(b, v.cur)))
  {
    hide ParseValue, Then;
  }

  /** The texts and trees of a list: its first one and the rest. */
  lemma ItemsParts(b: seq<byte>, p: nat, items: seq<Item>, inner: seq<byte>)
    requires At(b, p, ItemsText(items, inner))
    requires var end := p + |ItemsText(items, inner)|; end < |b| && b[end] == CLOSE_BRACKET
    ensures items == [] ==> ItemsText(items, inner) == inner && ItemTrees(items, p) == []
    ensures items != [] ==>
              var next, rest := p + |ItemText(items[0])|, ItemsText(items[1..], inner);
              && At(b, p, ItemText(items[0])) && At(b, next, rest) && next + |rest| == p + |ItemsText(items, inner)|
              && b[next] == (rest + [CLOSE_BRACKET])[0]
              && ItemTrees(items, p) == TreesOfItem(items[0], p) + ItemTrees(items[1..], next)
  {
    hide ItemText, TreesOfItem, At;
    if items != [] {
      var next, rest := p + |ItemText(items[0])|, ItemsText(items[1..], inner);
      AtParts(b, p, ItemText(items[0]), rest);
      FirstBehind(b, next, rest);
    }
  }

  /** The parts of a member's text: its key is at `k`, the colon at `c`. */
  lemma MemberParts(b: seq<byte>, p: nat, m: Member, k: nat, c: nat)
    requires At(b, p, MemberText(m))
    requires k == p + |m.before| && c == k + |m.key.Text()| + |m.behind|
    ensures At(b, p, m.before) && At(b, k, m.key.Text()) && At(b, k + |m.key.Text()|, m.behind)
    ensures c < |b| && b[c] == COLON && At(b, c + 1, ItemText(m.item)) && |MemberText(m)| == c + 1 + |ItemText(m.item)| - p
  {
    hide Key.Text, ItemText, At;
    FourParts(b, p, m.before, m.key.Text(), m.behind, [COLON] + ItemText(m.item));
    AtParts(b, c, [COLON], ItemText(m.item));
    AtByte(b, c, [COLON], 0);
  }

  lemma FourParts(b: seq<byte>, p: nat, s1: seq<byte>, s2: seq<byte>, s3: seq<byte>, s4: seq<byte>)
    requires At(b, p, s1 + (s2 + (s3 + s4)))
    ensures At(b, p, s1) && At(b, p + |s1|, s2) && At(b, p + |s1| + |s2|, s3) && At(b, p + |s1| + |s2| + |s3|, s4)
  {
    hide At;
    AtParts(b, p, s1, s2 + (s3 + s4));
    AtParts(b, p + |s1|, s2, s3 + s4);
    AtParts(b, p + |s1| + |s2|, s3, s4);
  }

  /** Behind a key comes white space or the colon. */
  lemma KeyEnds(b: seq<byte>, q: nat, behind: seq<byte>)
    requires At(b, q, behind) && IsBlank(behind) && q + |behind| < |b| && b[q + |behind|] == COLON
    ensures q < |b| && (b[q] == COLON || IsSpace(b[q]))
  {
    if behind != [] {
      AtByte(b, q, behind, 0);
    }
  }

  lemma {:induction false} MemberAt(b: seq<byte>, p: nat, m: Member)
    requires At(b, p, MemberText(m)) && p + |MemberText(m)| < |b| && ValidMember(m, b[p + |MemberText(m)|])
    ensures var r := ParsePair(b, p);
            && r.Ok? && r.kids == TreesOfMember(m, p) && Peek(b, p) != CLOSE_BRACE && Peek(b, p) != COMMA
            && Behind(b, r.cur, p + |MemberText(m)|, m.item.comma)
    decreases m, 2
  {
    hide SkipSpaces, Peek, ParseValue, ParseKey, TreesOfItem, KeyTree, ItemText, MemberText, Key.Text, Key.Valid, ValidItem, IsBlank;
    hide At, Behind;
    var k := p + |m.before|;
    var c := k + |m.key.Text()| + |m.behind|;
    MemberParts(b, p, m, k, c);
    KeyEnds(b, k + |m.key.Text()|, m.behind);
    KeyAt(b, k, m.key);
    BlankAt(b, p, m.before);
    JsonParser.ValueSkips(b, p);
    BlankAt(b, k + |m.key.Text()|, m.behind);
    ColonAt(b, c);
    ItemAt(b, c + 1, m.item);
  }

  lemma ColonAt(b: seq<byte>, c: nat)
    requires c < |b| && b[c] == COLON
    ensures SkipSpaces(b, c) == c && Peek(b, c) == COLON
  {
  }

  /** Members up to the closing brace. */
  lemma {:induction false} MembersAt(b: seq<byte>, p: nat, members: seq<Member>, inner: seq<byte>)
    requires IsBlank(inner) && ValidMembers(members, inner) && At(b, p, MembersText(members, inner))
    requires var end := p + |MembersText(members, inner)|; end < |b| && b[end] == CLOSE_BRACE
    ensures ParseMembers(b, p) == Ok(MemberTrees(members, p), p + |MembersText(members, inner)|) && Peek(b, p) != COMMA
    decreases members, 3
  {
    hide SkipSpaces, Peek, ParsePair, ParseMembers, ValidMember, MemberText, MembersText, MemberTrees, IsBlank, TreesOfMember, At;
    StaysPut(b, p + |MembersText(members, inner)|);
    MembersParts(b, p, members, inner);
    if members == [] {
      BlankAt(b, p, inner);
      NoMembers(b, p);
    } else {
      var next := p + |MemberText(members[0])|;
      MemberAt(b, p, members[0]);
      OneMembers(b, p);
      MembersAt(b, next, members[1..], inner);
      JsonParser.MembersSkip(b, next);
    }
  }

  lemma NoMembers(b: seq<byte>, p: nat)
    requires p <= |b| && Peek(b, p) == CLOSE_BRACE
    ensures ParseMembers(b, p) == Ok([], SkipSpaces(b, p))
  {
  }

  lemma OneMembers(b: seq<byte>, p: nat)
    requires p <= |b| && Peek(b, p) != CLOSE_BRACE && ParsePair(b, p).Ok?
    ensures var v := ParsePair(b, p);
            ParseMembers(b, p)
            == Then(v.kids, ParseMembers(b, if Peek(b, v.cur) == COMMA then SkipSpaces(b, v.cur) + 1 else SkipSpaces(b, v.cur)))
  {
    hide ParsePair, Then;
  }

  lemma MembersParts(b: seq<byte>, p: nat, members: seq<Member>, inner: seq<byte>)
    requires At(b, p, MembersText(members, inner))
    requires var end := p + |MembersText(members, inner)|; end < |b| && b[end] == CLOSE_BRACE
    ensures members == [] ==> MembersText(members, inner) == inner && MemberTrees(members, p) == []
    ensures members != [] ==>
              var next, rest := p + |MemberText(members[0])|, MembersText(members[1..], inner);
              && At(b, p, MemberText(members[0])) && At(b, next, rest) && next + |rest| == p + |MembersText(members, inner)|
              && b[next] == (rest + [CLOSE_BRACE])[0]
              && MemberTrees(members, p) == TreesOfMember(members[0], p) + MemberTrees(members[1..], next)
  {
    hide MemberText, TreesOfMember, At;
    if members != [] {
      var next, rest := p + |MemberText(members[0])|, MembersText(members[1..], inner);
      AtParts(b, p, MemberText(members[0]), rest);
      FirstBehind(b, next, rest);
    }
  }

  // ---- The whole text ---------------------------------------------------------------------------------

  /** `b` starts with white space and the text of the object `v`, whose tree is `root` and which ends at `end`. */
  ghost predicate Writes(b: seq<byte>, before: seq<byte>, v: Value, root: Tree, end: nat) {
    && IsBlank(before) && v.Record? && Valid(v) && At(b, 0, before) && At(b, |before|, TextOf(v))
    && root == TreeOf(v, |before|) && end == |before| + |TextOf(v)|
  }

  lemma WrittenIsAccepted(b: seq<byte>, before: seq<byte>, v: Value, root: Tree, end: nat)
    requires Writes(b, before, v, root, end)
    ensures ParseText(b) == Ok([root], end)
  {
    hide TextOf, TreeOf, ParseObject, Valid, IsBlank, At, SkipSpaces, Peek;
    FirstByte(v);
    BlankAt(b, 0, before);
    AtByte(b, |before|, TextOf(v), 0);
    StaysPut(b, |before|);
    JsonParser.ValueSkips(b, 0);
    RecordAt(b, |before|, v);
  }

  lemma AtFront(s: seq<byte>, t: seq<byte>, tail: seq<byte>)
    ensures At(s + t + tail, 0, s) && At(s + t + tail, |s|, t)
  {
    var b := s + t + tail;
    assert b[..|s|] == s && b[|s|..|s| + |t|] == t;
  }
}
