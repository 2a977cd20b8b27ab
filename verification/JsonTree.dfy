/**
 * The JSON dialect of examples/fossa/fossa.c: what its parser accepts, as a plain recursive
 * parser that builds a tree, and the flat array of tokens that stands for such a tree.
 */
module JsonTree {
  import opened Bytes

  const INVALID := -1
  const INCOMPLETE := -2
  const TOO_SMALL := -3

  datatype Kind = Eof | String | Number | Object | True | False | Null | Array

  /**
   * A value or key: its bytes are `text[ptr..ptr + len]`. The children of an object are its
   * keys and values in turn.
   */
  datatype Tree = Node(kind: Kind, ptr: nat, len: nat, kids: seq<Tree>)

  /** `struct json_token`. */
  datatype Token = Token(ptr: nat, len: int, numDesc: int, kind: Kind)

  // ---- Flat form ------------------------------------------------------------------------------

  /** The tree in preorder, each token with the number of its descendants. */
  function Flatten(t: Tree): (f: seq<Token>)
    ensures f != [] && f[0] == Token(t.ptr, t.len, |f| - 1, t.kind)
    decreases t, 0
  {
    var below := FlattenAll(t.kids);
    [Token(t.ptr, t.len, |below|, t.kind)] + below
  }

  function FlattenAll(ts: seq<Tree>): seq<Token>
    decreases ts, 1
  {
    if ts == [] then [] else Flatten(ts[0]) + FlattenAll(ts[1..])
  }

  lemma {:induction false} FlattenConcat(a: seq<Tree>, b: seq<Tree>)
    ensures FlattenAll(a + b) == FlattenAll(a) + FlattenAll(b)
    decreases |a|
  {
    hide Flatten;
    if a == [] {
      assert a + b == b;
    } else {
      FlattenConcat(a[1..], b);
      assert (a + b)[1..] == a[1..] + b && (a + b)[0] == a[0];
    }
  }

  lemma FlattenOne(t: Tree)
    ensures FlattenAll([t]) == Flatten(t)
  {
    hide Flatten;
    assert [t][1..] == [];
  }

  // ---- Characters -----------------------------------------------------------------------------

  predicate IsSpace(c: byte) { c == 32 || c == 9 || c == 13 || c == 10 }
  predicate IsAlpha(c: int) { 97 <= c <= 122 || 65 <= c <= 90 }
  predicate IsDigit(c: int) { 48 <= c <= 57 }
  predicate IsHexDigit(c: int) { IsDigit(c) || 97 <= c <= 102 || 65 <= c <= 70 }

  const QUOTE := 34        // "
  const COMMA := 44        // ,
  const MINUS := 45        // -
  const PLUS := 43         // +
  const POINT := 46        // .
  const COLON := 58        // :
  const OPEN_BRACKET := 91
  const BACKSLASH := 92
  const CLOSE_BRACKET := 93
  const UNDERSCORE := 95
  const OPEN_BRACE := 123
  const CLOSE_BRACE := 125

  /** What `cur` answers at the end of the text. */
  const END_OF_STRING := -1

  function SkipSpaces(b: seq<byte>, p: nat): (q: nat)
    requires p <= |b|
    ensures p <= q <= |b| && (q < |b| ==> !IsSpace(b[q]))
    ensures p < |b| && !IsSpace(b[p]) ==> q == p
    decreases |b| - p
  {
    if p < |b| && IsSpace(b[p]) then SkipSpaces(b, p + 1) else p
  }

  /** The next character that is not white space, or END_OF_STRING. */
  function Peek(b: seq<byte>, p: nat): int
    requires p <= |b|
  {
    var q := SkipSpaces(b, p);
    if q == |b| then END_OF_STRING else b[q]
  }

  /** `get_utf8_char_len`. */
  function Utf8Length(c: byte): nat {
    if c < 128 then 1 else if c >= 240 then 4 else if c >= 224 then 3 else 2
  }

  // ---- Scanners: where a token ends, or the error and where the cursor stopped ----------------------------------------------

  datatype Scan = End(pos: nat) | Bad(code: int, at: nat)

  /** `get_escape_len` on the bytes behind a backslash at `p`. */
  function EscapeLength(b: seq<byte>, p: nat): (n: int)
    requires p + 1 < |b|
    ensures n == INVALID || n == INCOMPLETE || (0 < n && p + 1 + n <= |b|)
  {
    var c := b[p + 1];
    if c == 117 then
      if |b| - p < 6 then INCOMPLETE
      else if IsHexDigit(b[p + 2]) && IsHexDigit(b[p + 3]) && IsHexDigit(b[p + 4]) && IsHexDigit(b[p + 5]) then 5
      else INVALID
    else if c in {34, 92, 47, 98, 102, 110, 114, 116} then 1
    else INVALID
  }

  /** The loop of `parse_string`, behind the opening quote; the position of the closing one. */
  function ScanString(b: seq<byte>, p: nat): (r: Scan)
    requires p <= |b|
    ensures r.End? ==> p <= r.pos < |b| && b[r.pos] == QUOTE
    ensures r.Bad? ==> r.code == INVALID || r.code == INCOMPLETE
    decreases |b| - p
  {
    if p == |b| then Bad(INCOMPLETE, p)
    else
      var n := Utf8Length(b[p]);
      if b[p] < 32 then Bad(INVALID, p)
      else if n >= |b| - p then Bad(INCOMPLETE, p)
      else if b[p] == BACKSLASH then
        var e := EscapeLength(b, p);
        if e <= 0 then Bad(e, p) else ScanString(b, p + 1 + e)
      else if b[p] == QUOTE then End(p)
      else ScanString(b, p + n)
  }

  function SkipDigits(b: seq<byte>, p: nat): (q: nat)
    requires p <= |b|
    ensures p <= q <= |b|
    ensures p < |b| && IsDigit(b[p]) ==> p < q
    decreases |b| - p
  {
    if p < |b| && IsDigit(b[p]) then SkipDigits(b, p + 1) else p
  }

  /** One or more digits. */
  function ScanDigits(b: seq<byte>, p: nat): (r: Scan)
    requires p <= |b|
    ensures r.End? ==> p < r.pos <= |b|
    ensures r.Bad? ==> r.code == INVALID || r.code == INCOMPLETE
  {
    if p == |b| then Bad(INCOMPLETE, p)
    else if !IsDigit(b[p]) then Bad(INVALID, p)
    else End(SkipDigits(b, p))
  }

  /** `parse_number` from its first character: sign, digits, fraction, exponent. */
  function ScanNumber(b: seq<byte>, p: nat): (r: Scan)
    requires p < |b|
    ensures r.End? ==> p < r.pos <= |b|
    ensures r.Bad? ==> r.code == INVALID || r.code == INCOMPLETE
  {
    var whole := ScanDigits(b, if b[p] == MINUS then p + 1 else p);
    if whole.Bad? then whole
    else
      var fraction := ScanFraction(b, whole.pos);
      if fraction.Bad? then fraction else ScanExponent(b, fraction.pos)
  }

  function ScanFraction(b: seq<byte>, p: nat): (r: Scan)
    requires p <= |b|
    ensures r.End? ==> p <= r.pos <= |b|
    ensures r.Bad? ==> r.code == INVALID || r.code == INCOMPLETE
  {
    if p < |b| && b[p] == POINT then ScanDigits(b, p + 1) else End(p)
  }

  function ScanExponent(b: seq<byte>, p: nat): (r: Scan)
    requires p <= |b|
    ensures r.End? ==> p <= r.pos <= |b|
    ensures r.Bad? ==> r.code == INVALID || r.code == INCOMPLETE
  {
    if p < |b| && (b[p] == 101 || b[p] == 69) then
      if p + 1 == |b| then Bad(INCOMPLETE, p + 1)
      else ScanDigits(b, if b[p + 1] == PLUS || b[p + 1] == MINUS then p + 2 else p + 1)
    else End(p)
  }

  /** The rest of an identifier. */
  function ScanIdentifier(b: seq<byte>, p: nat): (q: nat)
    requires p <= |b|
    ensures p <= q <= |b|
    ensures p < |b| && IsAlpha(b[p]) ==> p < q
    decreases |b| - p
  {
    if p < |b| && (b[p] == UNDERSCORE || IsAlpha(b[p]) || IsDigit(b[p])) then ScanIdentifier(b, p + 1) else p
  }

  /** `expect`: the bytes of `word` from index `i` on. */
  function ScanWord(b: seq<byte>, p: nat, word: seq<byte>, i: nat): (r: Scan)
    requires p <= |b| && i <= |word|
    ensures r.End? ==> r.pos == p + |word| && (i < |word| ==> r.pos <= |b|)
    ensures r.Bad? ==> r.code == INVALID || r.code == INCOMPLETE
    decreases |word| - i
  {
    if i == |word| then End(p + |word|)
    else if i >= |b| - p then Bad(INCOMPLETE, p)
    else if b[p + i] != word[i] then Bad(INVALID, p)
    else
      ScanWord(b, p, word, i + 1)
  }

  const NULL_WORD: seq<byte> := [110, 117, 108, 108]
  const TRUE_WORD: seq<byte> := [116, 114, 117, 101]
  const FALSE_WORD: seq<byte> := [102, 97, 108, 115, 101]

  // ---- The reference parser ---------------------------------------------------------------------

  /**
   * The trees parsed and where the cursor ends; or the error, how many tokens were begun
   * before it, and where the cursor stopped.
   */
  datatype Parse = Ok(kids: seq<Tree>, cur: nat) | Err(code: int, used: nat, at: nat)

  /** How many tokens a parse begins. */
  function Total(r: Parse): nat { if r.Ok? then |FlattenAll(r.kids)| else r.used }

  /** `first` in front of the outcome of parsing on. */
  function Then(first: seq<Tree>, r: Parse): Parse {
    if r.Ok? then Ok(first + r.kids, r.cur) else Err(r.code, |FlattenAll(first)| + r.used, r.at)
  }

  ghost predicate Sound(b: seq<byte>, p: nat, r: Parse) {
    if r.Ok? then p <= r.cur <= |b| else r.code == INVALID || r.code == INCOMPLETE
  }

  /** The error for a missing character. */
  function Missing(b: seq<byte>, p: nat): int
    requires p <= |b|
  {
    if Peek(b, p) == END_OF_STRING then INCOMPLETE else INVALID
  }

  /** A token without children, from `ptr` to the end of the scan, and `skip` bytes behind it. */
  function Leaf(kind: Kind, ptr: nat, scan: Scan, skip: nat): Parse
    requires scan.End? ==> ptr <= scan.pos
  {
    if scan.Bad? then Err(scan.code, 1, scan.at) else Ok([Node(kind, ptr, scan.pos - ptr, [])], scan.pos + skip)
  }

  function ParseString(b: seq<byte>, p: nat): (r: Parse)
    requires p <= |b|
    ensures Sound(b, p, r) && (r.Ok? ==> p < r.cur && |r.kids| == 1)
  {
    if Peek(b, p) != QUOTE then Err(Missing(b, p), 0, SkipSpaces(b, p))
    else
      var q := SkipSpaces(b, p) + 1;
      Leaf(String, q, ScanString(b, q), 1)
  }

  /** `parse_key`: a quoted string or a bare identifier. */
  function ParseKey(b: seq<byte>, p: nat): (r: Parse)
    requires p <= |b|
    ensures Sound(b, p, r) && (r.Ok? ==> p < r.cur && |r.kids| == 1)
  {
    var c, q := Peek(b, p), SkipSpaces(b, p);
    if IsAlpha(c) then Leaf(String, q, End(ScanIdentifier(b, q)), 0)
    else if c == QUOTE then ParseString(b, p)
    else Err(Missing(b, p), 0, SkipSpaces(b, p))
  }

  function ParseValue(b: seq<byte>, p: nat): (r: Parse)
    requires p <= |b|
    ensures Sound(b, p, r) && (r.Ok? ==> p < r.cur && |r.kids| == 1)
    decreases |b| - p, 1
  {
    var c, q := Peek(b, p), SkipSpaces(b, p);
    if c == QUOTE then ParseString(b, p)
    else if c == OPEN_BRACE then ParseObject(b, p)
    else if c == OPEN_BRACKET then ParseArray(b, p)
    else if c == 110 then Leaf(Null, q, ScanWord(b, q, NULL_WORD, 0), 0)
    else if c == 116 then Leaf(True, q, ScanWord(b, q, TRUE_WORD, 0), 0)
    else if c == 102 then Leaf(False, q, ScanWord(b, q, FALSE_WORD, 0), 0)
    else if c == MINUS || IsDigit(c) then Leaf(Number, q, ScanNumber(b, q), 0)
    else Err(Missing(b, p), 0, SkipSpaces(b, p))
  }

  /** A container from its opening byte at `q`, closed behind its children. */
  function Close(kind: Kind, q: nat, r: Parse): Parse
    requires r.Ok? ==> q < r.cur
  {
    if r.Err? then Err(r.code, 1 + r.used, r.at) else Ok([Node(kind, q, r.cur + 1 - q, r.kids)], r.cur + 1)
  }

  function ParseArray(b: seq<byte>, p: nat): (r: Parse)
    requires p <= |b|
    ensures Sound(b, p, r) && (r.Ok? ==> p < r.cur && |r.kids| == 1)
    decreases |b| - p, 0
  {
    if Peek(b, p) != OPEN_BRACKET then Err(Missing(b, p), 0, SkipSpaces(b, p))
    else
      var q := SkipSpaces(b, p);
      Close(Array, q, ParseElements(b, q + 1))
  }

  /** The loop of `parse_array`; the cursor ends on the closing bracket. */
  function ParseElements(b: seq<byte>, p: nat): (r: Parse)
    requires p <= |b|
    ensures Sound(b, p, r) && (r.Ok? ==> r.cur < |b|)
    decreases |b| - p, 2
  {
    if Peek(b, p) == CLOSE_BRACKET then Ok([], SkipSpaces(b, p))
    else
      var v := ParseValue(b, p);
      if v.Err? then v else Then(v.kids, ParseElements(b, SkipComma(b, v.cur)))
  }

  /** White space and at most one comma. */
  function SkipComma(b: seq<byte>, p: nat): (q: nat)
    requires p <= |b|
    ensures p <= q <= |b|
  {
    if Peek(b, p) == COMMA then SkipSpaces(b, p) + 1 else SkipSpaces(b, p)
  }

  function ParsePair(b: seq<byte>, p: nat): (r: Parse)
    requires p <= |b|
    ensures Sound(b, p, r) && (r.Ok? ==> p < r.cur && |r.kids| == 2)
    decreases |b| - p, 2
  {
    var k := ParseKey(b, p);
    if k.Err? then k
    else if Peek(b, k.cur) != COLON then Then(k.kids, Err(Missing(b, k.cur), 0, SkipSpaces(b, k.cur)))
    else Then(k.kids, ParseValue(b, SkipSpaces(b, k.cur) + 1))
  }

  function ParseObject(b: seq<byte>, p: nat): (r: Parse)
    requires p <= |b|
    ensures Sound(b, p, r) && (r.Ok? ==> p < r.cur && |r.kids| == 1 && r.kids[0].kind == Object)
    decreases |b| - p, 0
  {
    if Peek(b, p) != OPEN_BRACE then Err(Missing(b, p), 0, SkipSpaces(b, p))
    else
      var q := SkipSpaces(b, p);
      Close(Object, q, ParseMembers(b, q + 1))
  }

  /** The loop of `parse_object`; the cursor ends on the closing brace. */
  function ParseMembers(b: seq<byte>, p: nat): (r: Parse)
    requires p <= |b|
    ensures Sound(b, p, r) && (r.Ok? ==> r.cur < |b|)
    decreases |b| - p, 3
  {
    if Peek(b, p) == CLOSE_BRACE then Ok([], SkipSpaces(b, p))
    else
      var v := ParsePair(b, p);
      if v.Err? then v else Then(v.kids, ParseMembers(b, SkipComma(b, v.cur)))
  }

  /** `doit`: one object at the start of the text; what follows it is not looked at. */
  function ParseText(b: seq<byte>): (r: Parse)
    ensures Sound(b, 0, r) && (r.Ok? ==> |r.kids| == 1 && r.kids[0].kind == Object)
  {
    if b == [] then Err(INCOMPLETE, 0, 0) else ParseObject(b, 0)
  }
}
