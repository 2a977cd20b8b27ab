/**
 * What the two error codes of the JSON parser in examples/fossa/fossa.c mean: INVALID that no
 * continuation of the text is accepted, INCOMPLETE that the text only needs to go on, with one
 * exception.
 */
module JsonErrors {
  import opened Bytes
  import opened JsonTree

  /**
   * The text ends within the four digits of a `\u` escape that starts at `at`, and one of the
   * digits that are there is none. The code counts the digits before it looks at them.
   */
  ghost predicate BadCut(b: seq<byte>, at: nat) {
    && at + 1 < |b| && |b| - at < 6 && b[at] == BACKSLASH && b[at + 1] == 117
    && exists k :: at + 2 <= k < |b| && !IsHexDigit(b[k])
  }

  // ---- What does not depend on how the text goes on ---------------------------------------------

  ghost predicate SettledScan(b: seq<byte>, s: Scan) {
    if s.End? then s.pos < |b| else s.code == INVALID || BadCut(b, s.at)
  }

  ghost predicate Settled(b: seq<byte>, r: Parse) {
    if r.Ok? then r.cur < |b| else r.code == INVALID || BadCut(b, r.at)
  }

  ghost predicate SameScan(s: Scan, s': Scan) {
    if s.End? || s.code == INVALID then s' == s else s'.Bad?
  }

  /** The longer text fares the same, or fails as well. */
  ghost predicate Same(r: Parse, r': Parse) {
    if r.Ok? || r.code == INVALID then r' == r else r'.Err?
  }

  lemma {:induction false} SpacesStay(b: seq<byte>, c: seq<byte>, p: nat)
    requires p <= |b| && SkipSpaces(b, p) < |b|
    ensures SkipSpaces(b + c, p) == SkipSpaces(b, p) && Peek(b + c, p) == Peek(b, p) != END_OF_STRING
    decreases |b| - p
  {
    if IsSpace(b[p]) {
      SpacesStay(b, c, p + 1);
    }
  }

  /** White space to the end of the text leads on to what follows. */
  lemma {:induction false} SpacesGoOn(b: seq<byte>, c: seq<byte>, p: nat)
    requires p <= |b| && SkipSpaces(b, p) == |b| && c != [] && !IsSpace(c[0])
    ensures SkipSpaces(b + c, p) == |b| && Peek(b + c, p) == c[0]
    decreases |b| - p
  {
    if p < |b| {
      SpacesGoOn(b, c, p + 1);
    }
  }

  lemma EscapeStays(b: seq<byte>, c: seq<byte>, p: nat)
    requires p + 1 < |b| && b[p] == BACKSLASH
    ensures EscapeLength(b, p) != INCOMPLETE ==> EscapeLength(b + c, p) == EscapeLength(b, p)
    ensures EscapeLength(b, p) == INCOMPLETE && BadCut(b, p) ==> EscapeLength(b + c, p) < 0
  {
    var e := b + c;
    assert forall k :: 0 <= k < |b| ==> e[k] == b[k];
    if BadCut(b, p) {
      var k :| p + 2 <= k < |b| && !IsHexDigit(b[k]);
      assert e[k] == b[k];
    }
  }

  lemma {:induction false} StringStays(b: seq<byte>, c: seq<byte>, p: nat)
    requires p <= |b| && (ScanString(b, p).End? || SettledScan(b, ScanString(b, p)))
    ensures SameScan(ScanString(b, p), ScanString(b + c, p))
    decreases |b| - p
  {
    hide EscapeLength, IsHexDigit;
    if p < |b| && b[p] >= 32 && Utf8Length(b[p]) < |b| - p {
      if b[p] == BACKSLASH {
        EscapeStays(b, c, p);
        var n := EscapeLength(b, p);
        if n > 0 {
          StringStays(b, c, p + 1 + n);
        }
      } else if b[p] != QUOTE {
        StringStays(b, c, p + Utf8Length(b[p]));
      }
    }
  }

  lemma {:induction false} DigitsStay(b: seq<byte>, c: seq<byte>, p: nat)
    requires p <= |b| && SkipDigits(b, p) < |b|
    ensures SkipDigits(b + c, p) == SkipDigits(b, p)
    decreases |b| - p
  {
    if IsDigit(b[p]) {
      DigitsStay(b, c, p + 1);
    }
  }

  lemma DigitRunStays(b: seq<byte>, c: seq<byte>, p: nat)
    requires p < |b| && SettledScan(b, ScanDigits(b, p))
    ensures ScanDigits(b + c, p) == ScanDigits(b, p)
  {
    if IsDigit(b[p]) {
      DigitsStay(b, c, p);
    }
  }

  /** A number that a byte follows is over. */
  lemma NumberStays(b: seq<byte>, c: seq<byte>, p: nat)
    requires p < |b| && SettledScan(b, ScanNumber(b, p))
    ensures SameScan(ScanNumber(b, p), ScanNumber(b + c, p))
  {
    hide ScanDigits, ScanFraction, ScanExponent;
    var q := if b[p] == MINUS then p + 1 else p;
    NumberErrsAtEnd(b, p);
    var whole := ScanDigits(b, q);
    NothingAtEnd(b);
    DigitRunStays(b, c, q);
    if whole.End? {
      FractionStays(b, c, whole.pos);
      var fraction := ScanFraction(b, whole.pos);
      if fraction.End? {
        ExponentStays(b, c, fraction.pos);
      }
    }
  }

  /** A number fails for want of more only at the end of the text. */
  lemma NumberErrsAtEnd(b: seq<byte>, p: nat)
    requires p < |b|
    ensures var s := ScanNumber(b, p);
            && (s.Bad? && s.code == INCOMPLETE ==> s.at == |b|)
            && (SettledScan(b, s) ==> (if b[p] == MINUS then p + 1 else p) < |b|)
  {
  }

  lemma NothingAtEnd(b: seq<byte>)
    ensures ScanFraction(b, |b|) == End(|b|) && ScanExponent(b, |b|) == End(|b|)
  {
  }

  lemma FractionStays(b: seq<byte>, c: seq<byte>, p: nat)
    requires p < |b| && (ScanFraction(b, p).Bad? ==> ScanFraction(b, p).code == INVALID)
    requires ScanFraction(b, p).End? ==> ScanFraction(b, p).pos < |b|
    ensures ScanFraction(b + c, p) == ScanFraction(b, p)
  {
    hide ScanDigits;
    if b[p] == POINT {
      AtEndIsIncomplete(b, p + 1);
      DigitRunStays(b, c, p + 1);
    }
  }

  lemma ExponentStays(b: seq<byte>, c: seq<byte>, p: nat)
    requires p < |b| && (ScanExponent(b, p).Bad? ==> ScanExponent(b, p).code == INVALID)
    requires ScanExponent(b, p).End? ==> ScanExponent(b, p).pos < |b|
    ensures ScanExponent(b + c, p) == ScanExponent(b, p)
  {
    hide ScanDigits;
    if b[p] == 101 || b[p] == 69 {
      var q := if p + 1 < |b| && (b[p + 1] == PLUS || b[p + 1] == MINUS) then p + 2 else p + 1;
      if q <= |b| {
        AtEndIsIncomplete(b, q);
      }
      DigitRunStays(b, c, q);
    }
  }

  lemma AtEndIsIncomplete(b: seq<byte>, p: nat)
    requires p <= |b|
    ensures p == |b| ==> ScanDigits(b, p) == Bad(INCOMPLETE, p)
  {
  }

  lemma {:induction false} WordStays(b: seq<byte>, c: seq<byte>, p: nat, word: seq<byte>, i: nat)
    requires p <= |b| && i <= |word|
    ensures var s := ScanWord(b, p, word, i);
            (s.End? && s.pos <= |b|) || (s.Bad? && s.code == INVALID) ==> ScanWord(b + c, p, word, i) == s
    ensures var s := ScanWord(b, p, word, i); s.Bad? ==> s.at == p
    decreases |word| - i
  {
    if i < |word| && i < |b| - p && b[p + i] == word[i] {
      WordStays(b, c, p, word, i + 1);
    }
  }

  lemma {:induction false} IdentifierStays(b: seq<byte>, c: seq<byte>, p: nat)
    requires p <= |b| && ScanIdentifier(b, p) < |b|
    ensures ScanIdentifier(b + c, p) == ScanIdentifier(b, p)
    decreases |b| - p
  {
    if p < ScanIdentifier(b, p) {
      IdentifierStays(b, c, p + 1);
    }
  }

  /** A parse that wants for a character right away failed at the end of the text. */
  lemma MissingIs(b: seq<byte>, p: nat)
    requires p <= |b|
    ensures Missing(b, p) == if SkipSpaces(b, p) == |b| then INCOMPLETE else INVALID
    ensures !BadCut(b, |b|)
  {
  }

  lemma StringTokenStays(b: seq<byte>, c: seq<byte>, p: nat)
    requires p <= |b| && (ParseString(b, p).Ok? || Settled(b, ParseString(b, p)))
    ensures Same(ParseString(b, p), ParseString(b + c, p))
  {
    hide SkipSpaces, ScanString, BadCut;
    MissingIs(b, p);
    SpacesStay(b, c, p);
    var q := SkipSpaces(b, p) + 1;
    if Peek(b, p) == QUOTE {
      StringStays(b, c, q);
    }
  }

  lemma KeyStays(b: seq<byte>, c: seq<byte>, p: nat)
    requires p <= |b| && Settled(b, ParseKey(b, p))
    ensures Same(ParseKey(b, p), ParseKey(b + c, p))
  {
    hide SkipSpaces, ScanIdentifier, ParseString, BadCut;
    MissingIs(b, p);
    SpacesStay(b, c, p);
    if IsAlpha(Peek(b, p)) {
      IdentifierStays(b, c, SkipSpaces(b, p));
    } else if Peek(b, p) == QUOTE {
      StringTokenStays(b, c, p);
    }
  }

  lemma LeafStays(b: seq<byte>, kind: Kind, ptr: nat, s: Scan, s': Scan)
    requires (s.End? ==> ptr <= s.pos) && (s'.End? ==> ptr <= s'.pos) && SameScan(s, s')
    ensures Same(Leaf(kind, ptr, s, 0), Leaf(kind, ptr, s', 0))
  {
  }

  lemma WordTokenStays(b: seq<byte>, c: seq<byte>, q: nat, word: seq<byte>, kind: Kind)
    requires q < |b| && b[q] != BACKSLASH && word != [] && Settled(b, Leaf(kind, q, ScanWord(b, q, word, 0), 0))
    ensures Same(Leaf(kind, q, ScanWord(b, q, word, 0), 0), Leaf(kind, q, ScanWord(b + c, q, word, 0), 0))
  {
    hide ScanWord;
    WordStays(b, c, q, word, 0);
  }

  lemma NumberTokenStays(b: seq<byte>, c: seq<byte>, q: nat)
    requires q < |b| && Settled(b, Leaf(Number, q, ScanNumber(b, q), 0))
    ensures Same(Leaf(Number, q, ScanNumber(b, q), 0), Leaf(Number, q, ScanNumber(b + c, q), 0))
  {
    hide ScanNumber, BadCut;
    NumberStays(b, c, q);
    LeafStays(b, Number, q, ScanNumber(b, q), ScanNumber(b + c, q));
  }

  lemma {:induction false} ValueStays(b: seq<byte>, c: seq<byte>, p: nat)
    requires p <= |b| && Settled(b, ParseValue(b, p))
    ensures Same(ParseValue(b, p), ParseValue(b + c, p))
    decreases |b| - p, 1
  {
    hide SkipSpaces, ScanWord, ScanNumber, ParseString, ParseObject, ParseArray, BadCut, Leaf;
    MissingIs(b, p);
    SpacesStay(b, c, p);
    var ch, q := Peek(b, p), SkipSpaces(b, p);
    if ch == QUOTE {
      StringTokenStays(b, c, p);
    } else if ch == OPEN_BRACE {
      ObjectStays(b, c, p);
    } else if ch == OPEN_BRACKET {
      ArrayStays(b, c, p);
    } else if ch == 110 {
      WordTokenStays(b, c, q, NULL_WORD, Null);
    } else if ch == 116 {
      WordTokenStays(b, c, q, TRUE_WORD, True);
    } else if ch == 102 {
      WordTokenStays(b, c, q, FALSE_WORD, False);
    } else if ch == MINUS || IsDigit(ch) {
      NumberTokenStays(b, c, q);
    }
  }

  lemma {:induction false} ArrayStays(b: seq<byte>, c: seq<byte>, p: nat)
    requires p <= |b| && (ParseArray(b, p).Ok? || Settled(b, ParseArray(b, p)))
    ensures Same(ParseArray(b, p), ParseArray(b + c, p))
    decreases |b| - p, 0
  {
    hide SkipSpaces, ParseElements, BadCut;
    MissingIs(b, p);
    SpacesStay(b, c, p);
    if Peek(b, p) == OPEN_BRACKET {
      ElementsStay(b, c, SkipSpaces(b, p) + 1);
    }
  }

  lemma {:induction false} ElementsStay(b: seq<byte>, c: seq<byte>, p: nat)
    requires p <= |b| && Settled(b, ParseElements(b, p))
    ensures Same(ParseElements(b, p), ParseElements(b + c, p))
    decreases |b| - p, 2
  {
    hide SkipSpaces, ParseValue, BadCut;
    ElementsAtEnd(b, p);
    SpacesStay(b, c, p);
    if Peek(b, p) != CLOSE_BRACKET {
      var v := ParseValue(b, p);
      if v.Ok? {
        var q := SkipComma(b, v.cur);
        ElementsAtEnd(b, q);
        assert v.cur < |b| && SkipSpaces(b, v.cur) < |b|;
        SpacesStay(b, c, v.cur);
        ElementsStay(b, c, q);
      }
      ValueStays(b, c, p);
    }
  }

  /** With nothing but white space left a list is unfinished. */
  lemma ElementsAtEnd(b: seq<byte>, p: nat)
    requires p <= |b|
    ensures SkipSpaces(b, p) == |b| ==> ParseElements(b, p) == Err(INCOMPLETE, 0, |b|) && !Settled(b, ParseElements(b, p))
  {
    hide SkipSpaces;
    MissingIs(b, p);
  }

  lemma {:induction false} PairStays(b: seq<byte>, c: seq<byte>, p: nat)
    requires p <= |b| && Settled(b, ParsePair(b, p))
    ensures Same(ParsePair(b, p), ParsePair(b + c, p))
    decreases |b| - p, 2
  {
    hide SkipSpaces, ParseKey, ParseValue, BadCut;
    var k := ParseKey(b, p);
    if k.Ok? {
      MissingIs(b, k.cur);
      SpacesStay(b, c, k.cur);
      if Peek(b, k.cur) == COLON {
        ValueStays(b, c, SkipSpaces(b, k.cur) + 1);
      }
    }
    KeyStays(b, c, p);
  }

  lemma {:induction false} ObjectStays(b: seq<byte>, c: seq<byte>, p: nat)
    requires p <= |b| && (ParseObject(b, p).Ok? || Settled(b, ParseObject(b, p)))
    ensures Same(ParseObject(b, p), ParseObject(b + c, p))
    decreases |b| - p, 0
  {
    hide SkipSpaces, ParseMembers, BadCut;
    MissingIs(b, p);
    SpacesStay(b, c, p);
    if Peek(b, p) == OPEN_BRACE {
      MembersStay(b, c, SkipSpaces(b, p) + 1);
    }
  }

  lemma {:induction false} MembersStay(b: seq<byte>, c: seq<byte>, p: nat)
    requires p <= |b| && Settled(b, ParseMembers(b, p))
    ensures Same(ParseMembers(b, p), ParseMembers(b + c, p))
    decreases |b| - p, 3
  {
    hide SkipSpaces, ParsePair, BadCut;
    MembersAtEnd(b, p);
    SpacesStay(b, c, p);
    if Peek(b, p) != CLOSE_BRACE {
      var v := ParsePair(b, p);
      if v.Ok? {
        var q := SkipComma(b, v.cur);
        MembersAtEnd(b, q);
        assert v.cur < |b| && SkipSpaces(b, v.cur) < |b|;
        SpacesStay(b, c, v.cur);
        MembersStay(b, c, q);
      }
      PairStays(b, c, p);
    }
  }

  lemma MembersAtEnd(b: seq<byte>, p: nat)
    requires p <= |b|
    ensures SkipSpaces(b, p) == |b| ==> ParseMembers(b, p) == Err(INCOMPLETE, 0, |b|) && !Settled(b, ParseMembers(b, p))
  {
    hide SkipSpaces;
    MissingIs(b, p);
  }

  // ---- What the codes say -------------------------------------------------------------------------

  /** What is accepted or INVALID stays so whatever follows, and so does the exception. */
  lemma AnswerIsFinal(b: seq<byte>, c: seq<byte>)
    ensures var r := ParseText(b);
            && (r.Ok? || r.code == INVALID ==> ParseText(b + c) == r)
            && (r.Err? && BadCut(b, r.at) ==> ParseText(b + c).Err?)
  {
    hide ParseObject, BadCut;
    if b != [] && (ParseText(b).Ok? || Settled(b, ParseText(b))) {
      ObjectStays(b, c, 0);
    }
    if b == [] {
      MissingIs([], 0);
    }
  }

  /** Whatever part of an accepted text has been read so far is INCOMPLETE. */
  lemma PrefixIsIncomplete(b: seq<byte>, k: nat)
    requires ParseText(b).Ok? && k < ParseText(b).cur
    ensures ParseText(b[..k]).Err? && ParseText(b[..k]).code == INCOMPLETE
  {
    hide ParseText, BadCut;
    assert b[..k] + b[k..] == b;
    AnswerIsFinal(b[..k], b[k..]);
  }

  // ---- How an unfinished text can go on ---------------------------------------------------------

  /** What may stand behind a value that ends a container. */
  predicate Closes(t: seq<byte>) { t != [] && (t[0] == CLOSE_BRACKET || t[0] == CLOSE_BRACE) }

  ghost predicate EndsString(b: seq<byte>, p: nat, c: seq<byte>)
    requires p <= |b|
  {
    && |b| + |c| > p
    && forall t: seq<byte> :: t != [] ==> ScanString(b + c + t, p) == End(|b| + |c| - 1)
  }

  ghost predicate EndsValue(b: seq<byte>, p: nat, c: seq<byte>)
    requires p <= |b|
  {
    forall t: seq<byte> :: Closes(t) ==> ParseValue(b + c + t, p).Ok? && ParseValue(b + c + t, p).cur == |b| + |c|
  }

  ghost predicate EndsElements(b: seq<byte>, p: nat, c: seq<byte>)
    requires p <= |b|
  {
    forall t: seq<byte> :: t != [] && t[0] == CLOSE_BRACKET ==>
      ParseElements(b + c + t, p).Ok? && ParseElements(b + c + t, p).cur == |b| + |c|
  }

  ghost predicate EndsArray(b: seq<byte>, p: nat, c: seq<byte>)
    requires p <= |b|
  {
    forall t: seq<byte> :: ParseArray(b + c + t, p).Ok? && ParseArray(b + c + t, p).cur == |b| + |c|
  }

  ghost predicate EndsPair(b: seq<byte>, p: nat, c: seq<byte>)
    requires p <= |b|
  {
    forall t: seq<byte> :: Closes(t) ==> ParsePair(b + c + t, p).Ok? && ParsePair(b + c + t, p).cur == |b| + |c|
  }

  ghost predicate EndsMembers(b: seq<byte>, p: nat, c: seq<byte>)
    requires p <= |b|
  {
    forall t: seq<byte> :: t != [] && t[0] == CLOSE_BRACE ==>
      ParseMembers(b + c + t, p).Ok? && ParseMembers(b + c + t, p).cur == |b| + |c|
  }

  ghost predicate EndsObject(b: seq<byte>, p: nat, c: seq<byte>)
    requires p <= |b|
  {
    forall t: seq<byte> :: ParseObject(b + c + t, p).Ok? && ParseObject(b + c + t, p).cur == |b| + |c|
  }

  /** One step of the string loop looks the same in a longer text. */
  lemma StringStep(b: seq<byte>, c: seq<byte>, p: nat)
    requires p < |b| && 32 <= b[p] != QUOTE && Utf8Length(b[p]) < |b| - p
    ensures b[p] != BACKSLASH ==> ScanString(b + c, p) == ScanString(b + c, p + Utf8Length(b[p]))
    ensures b[p] == BACKSLASH && EscapeLength(b, p) > 0 ==> ScanString(b + c, p) == ScanString(b + c, p + 1 + EscapeLength(b, p))
  {
    if b[p] == BACKSLASH {
      EscapeStays(b, c, p);
    }
  }

  lemma {:induction false} StringRest(b: seq<byte>, p: nat) returns (c: seq<byte>)
    requires p <= |b| && ScanString(b, p).Bad? && ScanString(b, p).code == INCOMPLETE && !BadCut(b, ScanString(b, p).at)
    ensures EndsString(b, p, c)
    decreases |b| - p
  {
    hide EscapeLength, BadCut;
    if p < |b| && b[p] != QUOTE && Utf8Length(b[p]) < |b| - p && (b[p] == BACKSLASH ==> EscapeLength(b, p) > 0) {
      var next := p + if b[p] == BACKSLASH then 1 + EscapeLength(b, p) else Utf8Length(b[p]);
      c := StringRest(b, next);
      forall t: seq<byte> | t != []
        ensures ScanString(b + c + t, p) == End(|b| + |c| - 1)
      {
        assert b + (c + t) == b + c + t;
        StringStep(b, c + t, p);
      }
    } else {
      c := LastChar(b, p);
    }
  }

  /** The last character of the text, or what is there of it. */
  lemma LastChar(b: seq<byte>, p: nat) returns (c: seq<byte>)
    requires p <= |b| && ScanString(b, p).Bad? && ScanString(b, p).code == INCOMPLETE && !BadCut(b, ScanString(b, p).at)
    requires p < |b| && Utf8Length(b[p]) < |b| - p ==> b[p] == BACKSLASH && EscapeLength(b, p) <= 0
    ensures EndsString(b, p, c)
  {
    if p == |b| {
      c := [QUOTE];
      forall t: seq<byte> | t != [] ensures ScanString(b + c + t, p) == End(|b|) { QuoteThere(b + c + t, p); }
    } else if Utf8Length(b[p]) < |b| - p {
      c := seq(6 - (|b| - p), _ => 48) + [QUOTE];
      forall t: seq<byte> | t != []
        ensures ScanString(b + c + t, p) == End(|b| + |c| - 1)
      {
        var e := b + c + t;
        HexThere(b, p, e);
        QuoteThere(e, p + 6);
      }
    } else if b[p] == QUOTE {
      c := [];
      forall t: seq<byte> | t != [] ensures ScanString(b + c + t, p) == End(|b| - 1) { QuoteThere(b + c + t, p); }
    } else if b[p] == BACKSLASH {
      c := [QUOTE, QUOTE];
      forall t: seq<byte> | t != []
        ensures ScanString(b + c + t, p) == End(|b| + 1)
      {
        QuoteThere(b + c + t, p + 2);
        assert EscapeLength(b + c + t, p) == 1;
      }
    } else {
      var n := Utf8Length(b[p]);
      c := seq(n - (|b| - p), _ => 97) + [QUOTE];
      forall t: seq<byte> | t != []
        ensures ScanString(b + c + t, p) == End(|b| + |c| - 1)
      {
        QuoteThere(b + c + t, p + n);
      }
    }
  }

  lemma QuoteThere(e: seq<byte>, p: nat)
    requires p + 1 < |e| && e[p] == QUOTE
    ensures ScanString(e, p) == End(p)
  {
  }

  /** A cut escape with its missing digits filled in. */
  lemma HexThere(b: seq<byte>, p: nat, e: seq<byte>)
    requires p + 1 < |b| && b[p] == BACKSLASH && EscapeLength(b, p) == INCOMPLETE && !BadCut(b, p)
    requires |e| > p + 6 && e[..|b|] == b && forall k :: |b| <= k < p + 6 ==> e[k] == 48
    ensures |b| - p < 6 && ScanString(e, p) == ScanString(e, p + 6)
  {
    assert forall k :: 0 <= k < |b| ==> e[k] == b[k];
    assert forall k :: p + 2 <= k < |b| ==> IsHexDigit(b[k]);
    assert forall k :: p + 2 <= k < p + 6 ==> IsHexDigit(e[k]);
    assert EscapeLength(e, p) == 5;
  }

  lemma NumberRest(b: seq<byte>, p: nat, t: seq<byte>)
    requires p < |b| && ScanNumber(b, p).Bad? && ScanNumber(b, p).code == INCOMPLETE && Closes(t)
    ensures ScanNumber(b + [48] + t, p) == End(|b| + 1)
  {
    hide ScanDigits, ScanFraction, ScanExponent;
    var e, q := b + [48] + t, if b[p] == MINUS then p + 1 else p;
    var whole := ScanDigits(b, q);
    NothingAtEnd(b);
    AtEnd(b, t, e);
    if whole.Bad? {
      BadDigits(b, q);
    } else {
      assert b + ([48] + t) == e;
      DigitRunStays(b, [48] + t, q);
      var fraction := ScanFraction(b, whole.pos);
      if fraction.Bad? {
        FractionRest(b, whole.pos, t);
      } else {
        FractionStays(b, [48] + t, whole.pos);
        ExponentRest(b, fraction.pos, t);
      }
    }
  }

  lemma BadDigits(b: seq<byte>, q: nat)
    requires q <= |b| && ScanDigits(b, q).Bad? && ScanDigits(b, q).code == INCOMPLETE
    ensures q == |b|
  {
  }

  /** A digit at the end of the text, and a closing bracket behind it. */
  lemma AtEnd(b: seq<byte>, t: seq<byte>, e: seq<byte>)
    requires Closes(t) && e == b + [48] + t
    ensures ScanDigits(e, |b|) == End(|b| + 1) && ScanFraction(e, |b| + 1) == End(|b| + 1) && ScanExponent(e, |b| + 1) == End(|b| + 1)
  {
    assert e[|b|] == 48 && e[|b| + 1] == t[0];
    assert SkipDigits(e, |b| + 1) == |b| + 1;
  }

  lemma FractionRest(b: seq<byte>, p: nat, t: seq<byte>)
    requires p < |b| && ScanFraction(b, p).Bad? && ScanFraction(b, p).code == INCOMPLETE && Closes(t)
    ensures ScanFraction(b + [48] + t, p) == End(|b| + 1)
  {
    hide ScanDigits;
    BadDigits(b, p + 1);
    AtEnd(b, t, b + [48] + t);
  }

  lemma ExponentRest(b: seq<byte>, p: nat, t: seq<byte>)
    requires p < |b| && ScanExponent(b, p).Bad? && ScanExponent(b, p).code == INCOMPLETE && Closes(t)
    ensures ScanExponent(b + [48] + t, p) == End(|b| + 1)
  {
    hide ScanDigits;
    var e := b + [48] + t;
    AtEnd(b, t, e);
    if p + 1 < |b| {
      BadDigits(b, if b[p + 1] == PLUS || b[p + 1] == MINUS then p + 2 else p + 1);
    } else {
      assert e[p + 1] == 48;
    }
  }

  /** The rest of a word. */
  lemma {:induction false} WordRest(b: seq<byte>, p: nat, word: seq<byte>, i: nat, t: seq<byte>)
    requires p <= |b| && i <= |word| && ScanWord(b, p, word, i).Bad? && ScanWord(b, p, word, i).code == INCOMPLETE
    ensures |b| - p < |word| && ScanWord(b + word[|b| - p..] + t, p, word, i) == End(p + |word|)
    decreases |word| - i
  {
    if i < |b| - p {
      WordRest(b, p, word, i + 1, t);
    } else {
      WordThere(b + word[|b| - p..] + t, p, word, i);
    }
  }

  lemma {:induction false} WordThere(e: seq<byte>, p: nat, word: seq<byte>, i: nat)
    requires i <= |word| && p + |word| <= |e| && forall k :: i <= k < |word| ==> e[p + k] == word[k]
    ensures ScanWord(e, p, word, i) == End(p + |word|)
    decreases |word| - i
  {
    if i < |word| {
      WordThere(e, p, word, i + 1);
    }
  }

  lemma {:induction false} ValueRest(b: seq<byte>, p: nat) returns (c: seq<byte>)
    requires p <= |b| && ParseValue(b, p).Err? && ParseValue(b, p).code == INCOMPLETE && !BadCut(b, ParseValue(b, p).at)
    ensures EndsValue(b, p, c)
    decreases |b| - p, 1
  {
    hide SkipSpaces, ScanWord, ScanNumber, ScanString, ParseObject, ParseArray, BadCut, EndsString, EndsArray, EndsObject;
    MissingIs(b, p);
    var ch, q := Peek(b, p), SkipSpaces(b, p);
    if q == |b| {
      c := [48];
      forall t: seq<byte> | Closes(t)
        ensures ParseValue(b + c + t, p).Ok? && ParseValue(b + c + t, p).cur == |b| + 1
      {
        ZeroValue(b, p, t);
      }
    } else if ch == QUOTE {
      c := StringRest(b, q + 1);
      forall t: seq<byte> | Closes(t)
        ensures ParseValue(b + c + t, p).Ok? && ParseValue(b + c + t, p).cur == |b| + |c|
      {
        Onward(b, c, t, p);
        StringEnds(b, q + 1, c, t);
      }
    } else if ch == OPEN_BRACE {
      c := ObjectRest(b, p);
      forall t: seq<byte> | Closes(t)
        ensures ParseValue(b + c + t, p).Ok? && ParseValue(b + c + t, p).cur == |b| + |c|
      {
        Onward(b, c, t, p);
        ObjectEnds(b, p, c, t);
      }
    } else if ch == OPEN_BRACKET {
      c := ArrayRest(b, p);
      forall t: seq<byte> | Closes(t)
        ensures ParseValue(b + c + t, p).Ok? && ParseValue(b + c + t, p).cur == |b| + |c|
      {
        Onward(b, c, t, p);
        ArrayEnds(b, p, c, t);
      }
    } else if ch == 110 || ch == 116 || ch == 102 {
      var word := if ch == 110 then NULL_WORD else if ch == 116 then TRUE_WORD else FALSE_WORD;
      WordRest(b, q, word, 0, []);
      c := word[|b| - q..];
      forall t: seq<byte> | Closes(t)
        ensures ParseValue(b + c + t, p).Ok? && ParseValue(b + c + t, p).cur == |b| + |c|
      {
        Onward(b, c, t, p);
        WordRest(b, q, word, 0, t);
      }
    } else {
      c := [48];
      forall t: seq<byte> | Closes(t)
        ensures ParseValue(b + c + t, p).Ok? && ParseValue(b + c + t, p).cur == |b| + 1
      {
        Onward(b, c, t, p);
        NumberRest(b, q, t);
      }
    }
  }

  lemma Onward(b: seq<byte>, c: seq<byte>, t: seq<byte>, p: nat)
    requires p <= |b| && SkipSpaces(b, p) < |b|
    ensures SkipSpaces(b + c + t, p) == SkipSpaces(b, p) && Peek(b + c + t, p) == Peek(b, p)
  {
    assert b + (c + t) == b + c + t;
    SpacesStay(b, c + t, p);
  }

  lemma StringEnds(b: seq<byte>, p: nat, c: seq<byte>, t: seq<byte>)
    requires p <= |b| && EndsString(b, p, c) && t != []
    ensures |b| + |c| > p && ScanString(b + c + t, p) == End(|b| + |c| - 1)
  {
  }

  lemma ObjectEnds(b: seq<byte>, p: nat, c: seq<byte>, t: seq<byte>)
    requires p <= |b| && EndsObject(b, p, c)
    ensures ParseObject(b + c + t, p).Ok? && ParseObject(b + c + t, p).cur == |b| + |c|
  {
  }

  lemma ArrayEnds(b: seq<byte>, p: nat, c: seq<byte>, t: seq<byte>)
    requires p <= |b| && EndsArray(b, p, c)
    ensures ParseArray(b + c + t, p).Ok? && ParseArray(b + c + t, p).cur == |b| + |c|
  {
  }

  /** A zero where a value is missing. */
  lemma ZeroValue(b: seq<byte>, p: nat, t: seq<byte>)
    requires p <= |b| && SkipSpaces(b, p) == |b| && Closes(t)
    ensures ParseValue(b + [48] + t, p).Ok? && ParseValue(b + [48] + t, p).cur == |b| + 1
  {
    hide SkipSpaces, ScanDigits, ScanFraction, ScanExponent, ScanWord, ParseString, ParseObject, ParseArray;
    var e := b + [48] + t;
    assert b + ([48] + t) == e;
    SpacesGoOn(b, [48] + t, p);
    AtEnd(b, t, e);
    assert e[|b|] == 48;
    assert ScanNumber(e, |b|) == End(|b| + 1);
  }

  lemma {:induction false} ArrayRest(b: seq<byte>, p: nat) returns (c: seq<byte>)
    requires p <= |b| && Peek(b, p) == OPEN_BRACKET
    requires ParseArray(b, p).Err? && ParseArray(b, p).code == INCOMPLETE && !BadCut(b, ParseArray(b, p).at)
    ensures EndsArray(b, p, c)
    decreases |b| - p, 0
  {
    hide SkipSpaces, ParseElements, BadCut, EndsElements;
    var q := SkipSpaces(b, p) + 1;
    var inner := ElementsRest(b, q);
    c := inner + [CLOSE_BRACKET];
    forall t: seq<byte>
      ensures ParseArray(b + c + t, p).Ok? && ParseArray(b + c + t, p).cur == |b| + |c|
    {
      Onward(b, c, t, p);
      assert b + inner + ([CLOSE_BRACKET] + t) == b + c + t;
      ElementsEnd(b, q, inner, [CLOSE_BRACKET] + t);
    }
  }

  lemma ElementsEnd(b: seq<byte>, p: nat, c: seq<byte>, t: seq<byte>)
    requires p <= |b| && EndsElements(b, p, c) && t != [] && t[0] == CLOSE_BRACKET
    ensures ParseElements(b + c + t, p).Ok? && ParseElements(b + c + t, p).cur == |b| + |c|
  {
  }

  lemma {:induction false} ElementsRest(b: seq<byte>, p: nat) returns (c: seq<byte>)
    requires p <= |b|
    requires ParseElements(b, p).Err? && ParseElements(b, p).code == INCOMPLETE && !BadCut(b, ParseElements(b, p).at)
    ensures EndsElements(b, p, c)
    decreases |b| - p, 2
  {
    hide SkipSpaces, ParseValue, ParseElements, BadCut, EndsValue, EndsElements, SkipComma;
    ElementsParts(b, p);
    var v := ParseValue(b, p);
    if SkipSpaces(b, p) == |b| {
      c := [];
      ElementsStop(b, p);
    } else if v.Err? {
      c := ValueRest(b, p);
      ElementsEndValue(b, p, c);
    } else {
      var q := SkipComma(b, v.cur);
      if SkipSpaces(b, v.cur) == |b| {
        c := [];
        ElementsEndLast(b, p);
      } else {
        c := ElementsRest(b, q);
        ElementsEndRest(b, p, c);
      }
    }
  }

  lemma ElementsParts(b: seq<byte>, p: nat)
    requires p <= |b| && ParseElements(b, p).Err?
    ensures Peek(b, p) != CLOSE_BRACKET
    ensures var v := ParseValue(b, p);
            if v.Err? then ParseElements(b, p) == v
            else var r := ParseElements(b, SkipComma(b, v.cur)); r.Err? && r.code == ParseElements(b, p).code && r.at == ParseElements(b, p).at
  {
    hide ParseValue;
  }

  lemma ElementsStop(b: seq<byte>, p: nat)
    requires p <= |b| && SkipSpaces(b, p) == |b|
    ensures EndsElements(b, p, [])
  {
    hide SkipSpaces, ParseValue;
    forall t: seq<byte> | t != [] && t[0] == CLOSE_BRACKET
      ensures ParseElements(b + [] + t, p).Ok? && ParseElements(b + [] + t, p).cur == |b|
    {
      assert b + [] + t == b + t;
      SpacesGoOn(b, t, p);
    }
  }

  lemma ElementsEndValue(b: seq<byte>, p: nat, c: seq<byte>)
    requires p <= |b| && SkipSpaces(b, p) < |b| && Peek(b, p) != CLOSE_BRACKET && EndsValue(b, p, c)
    ensures EndsElements(b, p, c)
  {
    hide SkipSpaces, ParseValue;
    forall t: seq<byte> | t != [] && t[0] == CLOSE_BRACKET
      ensures ParseElements(b + c + t, p).Ok? && ParseElements(b + c + t, p).cur == |b| + |c|
    {
      var e := b + c + t;
      Onward(b, c, t, p);
      assert ParseValue(e, p).Ok? && ParseValue(e, p).cur == |b| + |c|;
      CloseThere(e, |b| + |c|, CLOSE_BRACKET);
    }
  }

  lemma CloseThere(e: seq<byte>, p: nat, close: byte)
    requires p < |e| && e[p] == close && (close == CLOSE_BRACKET || close == CLOSE_BRACE)
    ensures SkipSpaces(e, p) == p && Peek(e, p) == close && SkipComma(e, p) == p
    ensures close == CLOSE_BRACKET ==> ParseElements(e, p) == Ok([], p)
    ensures close == CLOSE_BRACE ==> ParseMembers(e, p) == Ok([], p)
  {
  }

  /** The last element is there; only the bracket is missing. */
  lemma ElementsEndLast(b: seq<byte>, p: nat)
    requires p <= |b| && SkipSpaces(b, p) < |b| && Peek(b, p) != CLOSE_BRACKET
    requires ParseValue(b, p).Ok? && SkipSpaces(b, ParseValue(b, p).cur) == |b|
    ensures EndsElements(b, p, [])
  {
    hide SkipSpaces, ParseValue;
    forall t: seq<byte> | t != [] && t[0] == CLOSE_BRACKET
      ensures ParseElements(b + [] + t, p).Ok? && ParseElements(b + [] + t, p).cur == |b|
    {
      assert b + [] + t == b + t;
      ValueOver(b, p, t);
      Onward(b, [], t, p);
      var end := ParseValue(b, p).cur;
      SpacesGoOn(b, t, end);
      CloseThere(b + t, |b|, CLOSE_BRACKET);
    }
  }

  /** A value that was read is read the same in front of a closing bracket, a comma or a colon. */
  lemma ValueOver(b: seq<byte>, p: nat, t: seq<byte>)
    requires p <= |b| && ParseValue(b, p).Ok? && Closes(t)
    ensures ParseValue(b + t, p) == ParseValue(b, p)
  {
    hide SkipSpaces, ScanWord, ScanNumber, ParseString, ParseObject, ParseArray;
    MissingIs(b, p);
    SpacesStay(b, t, p);
    var ch, q := Peek(b, p), SkipSpaces(b, p);
    if ch == QUOTE {
      StringTokenStays(b, t, p);
    } else if ch == OPEN_BRACE {
      ObjectStays(b, t, p);
    } else if ch == OPEN_BRACKET {
      ArrayStays(b, t, p);
    } else if ch == 110 {
      WordOver(b, t, q, NULL_WORD);
    } else if ch == 116 {
      WordOver(b, t, q, TRUE_WORD);
    } else if ch == 102 {
      WordOver(b, t, q, FALSE_WORD);
    } else {
      NumberOver(b, q, t);
    }
  }

  lemma WordOver(b: seq<byte>, t: seq<byte>, q: nat, word: seq<byte>)
    requires q <= |b| && word != [] && ScanWord(b, q, word, 0).End?
    ensures ScanWord(b + t, q, word, 0) == ScanWord(b, q, word, 0)
  {
    WordStays(b, t, q, word, 0);
  }

  lemma NumberOver(b: seq<byte>, p: nat, t: seq<byte>)
    requires p < |b| && ScanNumber(b, p).End? && Closes(t)
    ensures ScanNumber(b + t, p) == ScanNumber(b, p)
  {
    hide ScanDigits, ScanFraction, ScanExponent;
    var q := if b[p] == MINUS then p + 1 else p;
    DigitRunOver(b, q, t);
    FractionOver(b, ScanDigits(b, q).pos, t);
    ExponentOver(b, ScanFraction(b, ScanDigits(b, q).pos).pos, t);
  }

  lemma {:induction false} DigitsOver(b: seq<byte>, p: nat, t: seq<byte>)
    requires p <= |b| && Closes(t)
    ensures SkipDigits(b + t, p) == SkipDigits(b, p)
    decreases |b| - p
  {
    if p < |b| && IsDigit(b[p]) {
      DigitsOver(b, p + 1, t);
    }
  }

  lemma DigitRunOver(b: seq<byte>, p: nat, t: seq<byte>)
    requires p <= |b| && ScanDigits(b, p).End? && Closes(t)
    ensures ScanDigits(b + t, p) == ScanDigits(b, p)
  {
    DigitsOver(b, p, t);
  }

  lemma FractionOver(b: seq<byte>, p: nat, t: seq<byte>)
    requires p <= |b| && ScanFraction(b, p).End? && Closes(t)
    ensures ScanFraction(b + t, p) == ScanFraction(b, p)
  {
    hide ScanDigits;
    if p < |b| && b[p] == POINT {
      DigitRunOver(b, p + 1, t);
    }
  }

  lemma ExponentOver(b: seq<byte>, p: nat, t: seq<byte>)
    requires p <= |b| && ScanExponent(b, p).End? && Closes(t)
    ensures ScanExponent(b + t, p) == ScanExponent(b, p)
  {
    hide ScanDigits;
    if p < |b| && (b[p] == 101 || b[p] == 69) {
      DigitRunOver(b, if b[p + 1] == PLUS || b[p + 1] == MINUS then p + 2 else p + 1, t);
    }
  }

  lemma ElementsEndRest(b: seq<byte>, p: nat, c: seq<byte>)
    requires p <= |b| && SkipSpaces(b, p) < |b| && Peek(b, p) != CLOSE_BRACKET
    requires ParseValue(b, p).Ok? && SkipSpaces(b, ParseValue(b, p).cur) < |b|
    requires EndsElements(b, SkipComma(b, ParseValue(b, p).cur), c)
    ensures EndsElements(b, p, c)
  {
    hide SkipSpaces, ParseValue, ParseElements, EndsElements, BadCut;
    var v := ParseValue(b, p);
    var q := SkipComma(b, v.cur);
    forall t: seq<byte> | t != [] && t[0] == CLOSE_BRACKET
      ensures ParseElements(b + c + t, p).Ok? && ParseElements(b + c + t, p).cur == |b| + |c|
    {
      ElementsEnd(b, q, c, t);
      ElementsNext(b, p, c + t);
      assert b + (c + t) == b + c + t;
    }
    ElementsEnded(b, p, c);
  }

  lemma ElementsEnded(b: seq<byte>, p: nat, c: seq<byte>)
    requires p <= |b|
    requires forall t: seq<byte> :: t != [] && t[0] == CLOSE_BRACKET ==>
               ParseElements(b + c + t, p).Ok? && ParseElements(b + c + t, p).cur == |b| + |c|
    ensures EndsElements(b, p, c)
  {
    hide ParseElements;
  }

  /** The longer text reads the same first item, and goes on from the same place. */
  lemma ElementsNext(b: seq<byte>, p: nat, c: seq<byte>)
    requires p <= |b| && SkipSpaces(b, p) < |b| && Peek(b, p) != CLOSE_BRACKET
    requires ParseValue(b, p).Ok? && SkipSpaces(b, ParseValue(b, p).cur) < |b|
    ensures var v := ParseValue(b, p);
            ParseElements(b + c, p) == Then(v.kids, ParseElements(b + c, SkipComma(b, v.cur)))
  {
    hide SkipSpaces, ParseValue, Then, BadCut;
    var v := ParseValue(b, p);
    SpacesStay(b, c, p);
    SpacesStay(b, c, v.cur);
    ValueStays(b, c, p);
  }

  lemma {:induction false} ObjectRest(b: seq<byte>, p: nat) returns (c: seq<byte>)
    requires p <= |b| && Peek(b, p) == OPEN_BRACE
    requires ParseObject(b, p).Err? && ParseObject(b, p).code == INCOMPLETE && !BadCut(b, ParseObject(b, p).at)
    ensures EndsObject(b, p, c)
    decreases |b| - p, 0
  {
    hide SkipSpaces, ParseMembers, BadCut, EndsMembers;
    var q := SkipSpaces(b, p) + 1;
    var inner := MembersRest(b, q);
    c := inner + [CLOSE_BRACE];
    forall t: seq<byte>
      ensures ParseObject(b + c + t, p).Ok? && ParseObject(b + c + t, p).cur == |b| + |c|
    {
      Onward(b, c, t, p);
      assert b + inner + ([CLOSE_BRACE] + t) == b + c + t;
      MembersEnd(b, q, inner, [CLOSE_BRACE] + t);
    }
  }

  lemma MembersEnd(b: seq<byte>, p: nat, c: seq<byte>, t: seq<byte>)
    requires p <= |b| && EndsMembers(b, p, c) && t != [] && t[0] == CLOSE_BRACE
    ensures ParseMembers(b + c + t, p).Ok? && ParseMembers(b + c + t, p).cur == |b| + |c|
  {
  }

  lemma {:induction false} MembersRest(b: seq<byte>, p: nat) returns (c: seq<byte>)
    requires p <= |b|
    requires ParseMembers(b, p).Err? && ParseMembers(b, p).code == INCOMPLETE && !BadCut(b, ParseMembers(b, p).at)
    ensures EndsMembers(b, p, c)
    decreases |b| - p, 3
  {
    hide SkipSpaces, ParsePair, ParseMembers, BadCut, EndsPair, EndsMembers, SkipComma;
    MembersParts(b, p);
    var v := ParsePair(b, p);
    if SkipSpaces(b, p) == |b| {
      c := [];
      MembersStop(b, p);
    } else if v.Err? {
      c := PairRest(b, p);
      MembersEndPair(b, p, c);
    } else {
      var q := SkipComma(b, v.cur);
      if SkipSpaces(b, v.cur) == |b| {
        c := [];
        MembersEndLast(b, p);
      } else {
        c := MembersRest(b, q);
        MembersEndRest(b, p, c);
      }
    }
  }

  lemma MembersParts(b: seq<byte>, p: nat)
    requires p <= |b| && ParseMembers(b, p).Err?
    ensures Peek(b, p) != CLOSE_BRACE
    ensures var v := ParsePair(b, p);
            if v.Err? then ParseMembers(b, p) == v
            else var r := ParseMembers(b, SkipComma(b, v.cur)); r.Err? && r.code == ParseMembers(b, p).code && r.at == ParseMembers(b, p).at
  {
    hide ParsePair;
  }

  lemma MembersStop(b: seq<byte>, p: nat)
    requires p <= |b| && SkipSpaces(b, p) == |b|
    ensures EndsMembers(b, p, [])
  {
    hide SkipSpaces, ParsePair;
    forall t: seq<byte> | t != [] && t[0] == CLOSE_BRACE
      ensures ParseMembers(b + [] + t, p).Ok? && ParseMembers(b + [] + t, p).cur == |b|
    {
      assert b + [] + t == b + t;
      SpacesGoOn(b, t, p);
    }
  }

  lemma MembersEndPair(b: seq<byte>, p: nat, c: seq<byte>)
    requires p <= |b| && SkipSpaces(b, p) < |b| && Peek(b, p) != CLOSE_BRACE && EndsPair(b, p, c)
    ensures EndsMembers(b, p, c)
  {
    hide SkipSpaces, ParsePair;
    forall t: seq<byte> | t != [] && t[0] == CLOSE_BRACE
      ensures ParseMembers(b + c + t, p).Ok? && ParseMembers(b + c + t, p).cur == |b| + |c|
    {
      var e := b + c + t;
      Onward(b, c, t, p);
      assert ParsePair(e, p).Ok? && ParsePair(e, p).cur == |b| + |c|;
      CloseThere(e, |b| + |c|, CLOSE_BRACE);
    }
  }

  lemma MembersEndLast(b: seq<byte>, p: nat)
    requires p <= |b| && SkipSpaces(b, p) < |b| && Peek(b, p) != CLOSE_BRACE
    requires ParsePair(b, p).Ok? && SkipSpaces(b, ParsePair(b, p).cur) == |b|
    ensures EndsMembers(b, p, [])
  {
    hide SkipSpaces, ParsePair;
    forall t: seq<byte> | t != [] && t[0] == CLOSE_BRACE
      ensures ParseMembers(b + [] + t, p).Ok? && ParseMembers(b + [] + t, p).cur == |b|
    {
      assert b + [] + t == b + t;
      PairOver(b, p, t);
      Onward(b, [], t, p);
      SpacesGoOn(b, t, ParsePair(b, p).cur);
      CloseThere(b + t, |b|, CLOSE_BRACE);
    }
  }

  lemma PairOver(b: seq<byte>, p: nat, t: seq<byte>)
    requires p <= |b| && ParsePair(b, p).Ok? && Closes(t)
    ensures ParsePair(b + t, p) == ParsePair(b, p)
  {
    hide SkipSpaces, ParseKey, ParseValue;
    var k := ParseKey(b, p);
    MissingIs(b, k.cur);
    SpacesStay(b, t, k.cur);
    KeyStays(b, t, p);
    ValueOver(b, SkipSpaces(b, k.cur) + 1, t);
  }

  lemma MembersEndRest(b: seq<byte>, p: nat, c: seq<byte>)
    requires p <= |b| && SkipSpaces(b, p) < |b| && Peek(b, p) != CLOSE_BRACE
    requires ParsePair(b, p).Ok? && SkipSpaces(b, ParsePair(b, p).cur) < |b|
    requires EndsMembers(b, SkipComma(b, ParsePair(b, p).cur), c)
    ensures EndsMembers(b, p, c)
  {
    hide SkipSpaces, ParsePair, ParseMembers, EndsMembers, BadCut;
    var v := ParsePair(b, p);
    var q := SkipComma(b, v.cur);
    forall t: seq<byte> | t != [] && t[0] == CLOSE_BRACE
      ensures ParseMembers(b + c + t, p).Ok? && ParseMembers(b + c + t, p).cur == |b| + |c|
    {
      MembersEnd(b, q, c, t);
      MembersNext(b, p, c + t);
      assert b + (c + t) == b + c + t;
    }
    MembersEnded(b, p, c);
  }

  lemma MembersEnded(b: seq<byte>, p: nat, c: seq<byte>)
    requires p <= |b|
    requires forall t: seq<byte> :: t != [] && t[0] == CLOSE_BRACE ==>
               ParseMembers(b + c + t, p).Ok? && ParseMembers(b + c + t, p).cur == |b| + |c|
    ensures EndsMembers(b, p, c)
  {
    hide ParseMembers;
  }

  /** The longer text reads the same first item, and goes on from the same place. */
  lemma MembersNext(b: seq<byte>, p: nat, c: seq<byte>)
    requires p <= |b| && SkipSpaces(b, p) < |b| && Peek(b, p) != CLOSE_BRACE
    requires ParsePair(b, p).Ok? && SkipSpaces(b, ParsePair(b, p).cur) < |b|
    ensures var v := ParsePair(b, p);
            ParseMembers(b + c, p) == Then(v.kids, ParseMembers(b + c, SkipComma(b, v.cur)))
  {
    hide SkipSpaces, ParsePair, Then, BadCut;
    var v := ParsePair(b, p);
    SpacesStay(b, c, p);
    SpacesStay(b, c, v.cur);
    PairStays(b, c, p);
  }

  lemma {:induction false} PairRest(b: seq<byte>, p: nat) returns (c: seq<byte>)
    requires p <= |b| && SkipSpaces(b, p) < |b|
    requires ParsePair(b, p).Err? && ParsePair(b, p).code == INCOMPLETE && !BadCut(b, ParsePair(b, p).at)
    ensures EndsPair(b, p, c)
    decreases |b| - p, 2
  {
    hide SkipSpaces, ParseKey, ParseValue, BadCut, EndsValue, EndsString;
    var k := ParseKey(b, p);
    if k.Err? {
      var rest := KeyRest(b, p);
      c := rest + [COLON, 48];
      forall t: seq<byte> | Closes(t)
        ensures ParsePair(b + c + t, p).Ok? && ParsePair(b + c + t, p).cur == |b| + |c|
      {
        assert b + rest + ([COLON, 48] + t) == b + c + t;
        KeyEnded(b, p, rest, [COLON, 48] + t);
        ColonZero(b + rest, t, b + c + t);
      }
    } else if SkipSpaces(b, k.cur) == |b| {
      c := [COLON, 48];
      forall t: seq<byte> | Closes(t)
        ensures ParsePair(b + c + t, p).Ok? && ParsePair(b + c + t, p).cur == |b| + |c|
      {
        var e := b + c + t;
        assert b + (c + t) == e;
        KeyOver(b, p, c + t);
        SpacesGoOn(b, c + t, k.cur);
        ColonZero(b, t, e);
      }
    } else {
      MissingIs(b, k.cur);
      var q := SkipSpaces(b, k.cur) + 1;
      c := ValueRest(b, q);
      forall t: seq<byte> | Closes(t)
        ensures ParsePair(b + c + t, p).Ok? && ParsePair(b + c + t, p).cur == |b| + |c|
      {
        assert b + (c + t) == b + c + t;
        KeyStays(b, c + t, p);
        Onward(b, c, t, k.cur);
        ValueEnds(b, q, c, t);
      }
    }
  }

  lemma ValueEnds(b: seq<byte>, p: nat, c: seq<byte>, t: seq<byte>)
    requires p <= |b| && EndsValue(b, p, c) && Closes(t)
    ensures ParseValue(b + c + t, p).Ok? && ParseValue(b + c + t, p).cur == |b| + |c|
  {
  }

  /** `:0` in front of a closing bracket. */
  lemma ColonZero(b: seq<byte>, t: seq<byte>, e: seq<byte>)
    requires Closes(t) && e == b + [COLON, 48] + t
    ensures SkipSpaces(e, |b|) == |b| && Peek(e, |b|) == COLON
    ensures ParseValue(e, |b| + 1).Ok? && ParseValue(e, |b| + 1).cur == |b| + 2
  {
    hide ParseValue;
    var d := b + [COLON];
    assert e == d + [48] + t && e[|b|] == COLON;
    ZeroValue(d, |d|, t);
  }

  /** An unfinished key is an unfinished string. */
  lemma KeyRest(b: seq<byte>, p: nat) returns (c: seq<byte>)
    requires p <= |b| && SkipSpaces(b, p) < |b|
    requires ParseKey(b, p).Err? && ParseKey(b, p).code == INCOMPLETE && !BadCut(b, ParseKey(b, p).at)
    ensures Peek(b, p) == QUOTE && EndsString(b, SkipSpaces(b, p) + 1, c)
  {
    hide SkipSpaces, ScanString, BadCut, EndsString;
    MissingIs(b, p);
    c := StringRest(b, SkipSpaces(b, p) + 1);
  }

  lemma KeyEnded(b: seq<byte>, p: nat, c: seq<byte>, t: seq<byte>)
    requires p <= |b| && SkipSpaces(b, p) < |b| && Peek(b, p) == QUOTE && EndsString(b, SkipSpaces(b, p) + 1, c) && t != []
    ensures ParseKey(b + c + t, p).Ok? && ParseKey(b + c + t, p).cur == |b| + |c|
  {
    hide SkipSpaces, ScanString, EndsString;
    Onward(b, c, t, p);
    StringEnds(b, SkipSpaces(b, p) + 1, c, t);
  }

  lemma {:induction false} IdentifierOver(b: seq<byte>, p: nat, t: seq<byte>)
    requires p <= |b| && t != [] && t[0] == COLON
    ensures ScanIdentifier(b + t, p) == ScanIdentifier(b, p)
    decreases |b| - p
  {
    if p < ScanIdentifier(b, p) {
      IdentifierOver(b, p + 1, t);
    }
  }

  lemma KeyOver(b: seq<byte>, p: nat, t: seq<byte>)
    requires p <= |b| && ParseKey(b, p).Ok? && t != [] && t[0] == COLON
    ensures ParseKey(b + t, p) == ParseKey(b, p)
  {
    hide SkipSpaces, ScanIdentifier, ParseString;
    MissingIs(b, p);
    SpacesStay(b, t, p);
    if IsAlpha(Peek(b, p)) {
      IdentifierOver(b, SkipSpaces(b, p), t);
    } else {
      StringTokenStays(b, t, p);
    }
  }

  /** An INCOMPLETE text can be completed, if and only if it does not end in a cut escape with a wrong digit. */
  lemma IncompleteGoesOn(b: seq<byte>)
    requires ParseText(b).Err? && ParseText(b).code == INCOMPLETE
    ensures (exists c :: ParseText(b + c).Ok?) <==> !BadCut(b, ParseText(b).at)
  {
    hide ParseObject, BadCut, SkipSpaces, EndsObject;
    if BadCut(b, ParseText(b).at) {
      forall c
        ensures !ParseText(b + c).Ok?
      {
        AnswerIsFinal(b, c);
      }
    } else {
      var c: seq<byte>;
      if b == [] || SkipSpaces(b, 0) == |b| {
        c := [OPEN_BRACE, CLOSE_BRACE];
        BracesThere(b);
      } else {
        MissingObject(b);
        c := ObjectRest(b, 0);
        ObjectEnds(b, 0, c, []);
        assert b + c + [] == b + c;
      }
      assert ParseText(b + c).Ok?;
    }
  }

  lemma MissingObject(b: seq<byte>)
    requires SkipSpaces(b, 0) < |b| && ParseObject(b, 0).Err? && ParseObject(b, 0).code == INCOMPLETE
    ensures Peek(b, 0) == OPEN_BRACE
  {
    hide SkipSpaces, ParseMembers;
  }

  lemma BracesThere(b: seq<byte>)
    requires SkipSpaces(b, 0) == |b|
    ensures ParseObject(b + [OPEN_BRACE, CLOSE_BRACE], 0).Ok?
  {
    hide SkipSpaces, ParseMembers;
    var e := b + [OPEN_BRACE, CLOSE_BRACE];
    SpacesGoOn(b, [OPEN_BRACE, CLOSE_BRACE], 0);
    CloseThere(e, |b| + 1, CLOSE_BRACE);
  }
}
