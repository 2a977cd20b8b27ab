/** The other way: from every accepted JSON text a syntax tree can be read whose text stands there. */
module JsonRead {
  import opened Bytes
  import opened JsonTree
  import opened JsonText

  lemma AtJoin(b: seq<byte>, p: nat, s: seq<byte>, t: seq<byte>)
    requires At(b, p, s) && At(b, p + |s|, t)
    ensures At(b, p, s + t)
  {
    assert b[p..p + |s| + |t|] == b[p..p + |s|] + b[p + |s|..p + |s| + |t|];
  }

  lemma AtSlice(b: seq<byte>, p: nat, q: nat)
    requires p <= q <= |b|
    ensures At(b, p, b[p..q])
  {
  }

  /** The white space skipped. */
  lemma {:induction false} BlankRead(b: seq<byte>, p: nat)
    requires p <= |b|
    ensures IsBlank(b[p..SkipSpaces(b, p)])
    decreases |b| - p
  {
    var q := SkipSpaces(b, p);
    if p < q {
      BlankRead(b, p + 1);
      assert b[p..q] == [b[p]] + b[p + 1..q];
    }
  }

  lemma CharRead(b: seq<byte>, p: nat) returns (c: Char)
    requires p < |b| && b[p] != QUOTE && ScanString(b, p).End?
    ensures c.Valid() && At(b, p, c.Text()) && p + |c.Text()| < |b|
    ensures ScanString(b, p + |c.Text()|) == ScanString(b, p)
  {
    var n := Utf8Length(b[p]);
    if b[p] == BACKSLASH {
      if b[p + 1] == 117 {
        c := Unicode(b[p + 2..p + 6]);
        assert b[p..p + 6] == [BACKSLASH, 117] + b[p + 2..p + 6];
      } else {
        c := Escape(b[p + 1]);
        assert b[p..p + 2] == [BACKSLASH, b[p + 1]];
      }
    } else if n == 1 {
      c := Plain(b[p]);
      assert b[p..p + 1] == [b[p]];
    } else {
      c := Wide(b[p..p + n]);
    }
  }

  lemma {:induction false} CharsRead(b: seq<byte>, p: nat) returns (chars: seq<Char>)
    requires p <= |b| && ScanString(b, p).End?
    ensures AllValid(chars) && At(b, p, CharsText(chars) + [QUOTE])
    ensures ScanString(b, p).pos == p + |CharsText(chars)|
    decreases |b| - p
  {
    hide Char.Text, Char.Valid;
    if b[p] == QUOTE {
      chars := [];
      QuoteEnds(b, p);
      assert CharsText(chars) + [QUOTE] == [QUOTE] == b[p..p + 1];
    } else {
      var c := CharRead(b, p);
      NotEmpty(c);
      var rest := CharsRead(b, p + |c.Text()|);
      chars := [c] + rest;
      assert chars[1..] == rest;
      AtJoin(b, p, c.Text(), CharsText(rest) + [QUOTE]);
      assert c.Text() + (CharsText(rest) + [QUOTE]) == CharsText(chars) + [QUOTE];
    }
  }

  lemma NotEmpty(c: Char)
    requires c.Valid()
    ensures c.Text() != []
  {
  }

  lemma StringRead(b: seq<byte>, p: nat) returns (chars: seq<Char>)
    requires p <= |b| && ParseString(b, p).Ok?
    ensures var q, s := SkipSpaces(b, p), [QUOTE] + CharsText(chars) + [QUOTE];
            && AllValid(chars) && At(b, q, s)
            && ParseString(b, p) == Ok([Node(String, q + 1, |CharsText(chars)|, [])], q + |s|)
  {
    hide ScanString, CharsText, Char.Valid;
    var q := SkipSpaces(b, p);
    chars := CharsRead(b, q + 1);
    assert b[q..q + 1] == [QUOTE];
    AtJoin(b, q, [QUOTE], CharsText(chars) + [QUOTE]);
    assert [QUOTE] + (CharsText(chars) + [QUOTE]) == [QUOTE] + CharsText(chars) + [QUOTE];
  }

  lemma {:induction false} DigitsRead(b: seq<byte>, p: nat)
    requires p <= |b|
    ensures var q := SkipDigits(b, p);
            (forall k :: p <= k < q ==> IsDigit(b[k])) && (q < |b| ==> !IsDigit(b[q]))
    decreases |b| - p
  {
    if p < |b| && IsDigit(b[p]) {
      DigitsRead(b, p + 1);
    }
  }

  lemma DigitRunRead(b: seq<byte>, p: nat) returns (digits: seq<byte>)
    requires p <= |b| && ScanDigits(b, p).End?
    ensures var q := ScanDigits(b, p).pos;
            AreDigits(digits) && At(b, p, digits) && q == p + |digits| && (q < |b| ==> !IsDigit(b[q]))
  {
    DigitsRead(b, p);
    digits := b[p..ScanDigits(b, p).pos];
  }

  lemma ExponentRead(b: seq<byte>, p: nat) returns (e: Exponent)
    requires p <= |b| && ScanExponent(b, p).End? && (p < |b| ==> !IsDigit(b[p]))
    ensures var q := ScanExponent(b, p).pos;
            && e.Valid() && At(b, p, e.Text()) && q == p + |e.Text()|
            && (q < |b| ==> !IsDigit(b[q]) && (e.NoExponent? ==> b[q] != 101 && b[q] != 69))
  {
    hide ScanDigits, AreDigits;
    e := NoExponent;
    if p < |b| && (b[p] == 101 || b[p] == 69) {
      var sign := if b[p + 1] == PLUS then Plus else if b[p + 1] == MINUS then Minus else NoSign;
      var q := p + 1 + |sign.Text()|;
      var digits := DigitRunRead(b, q);
      e := Exponent(b[p] == 69, sign, digits);
      assert b[p..p + 1] == [if e.capital then 69 else 101];
      if sign == NoSign {
        assert b[p + 1..q] == [];
      } else {
        assert b[p + 1..q] == [b[p + 1]] == sign.Text();
      }
      AtJoin(b, p, b[p..p + 1], sign.Text());
      AtJoin(b, p, b[p..p + 1] + sign.Text(), digits);
    }
  }

  lemma FractionRead(b: seq<byte>, p: nat) returns (fraction: seq<byte>)
    requires p <= |b| && ScanFraction(b, p).End? && (p < |b| ==> !IsDigit(b[p]))
    ensures var q, s := ScanFraction(b, p).pos, if fraction == [] then [] else [POINT] + fraction;
            && (fraction != [] ==> AreDigits(fraction)) && At(b, p, s) && q == p + |s|
            && (q < |b| ==> !IsDigit(b[q]) && (fraction == [] ==> b[q] != POINT))
  {
    hide ScanDigits;
    fraction := [];
    if p < |b| && b[p] == POINT {
      fraction := DigitRunRead(b, p + 1);
      assert b[p..p + 1] == [POINT];
      AtJoin(b, p, [POINT], fraction);
    }
  }

  lemma NumberRead(b: seq<byte>, p: nat) returns (n: Numeral)
    requires p < |b| && ScanNumber(b, p).End?
    ensures var q := ScanNumber(b, p).pos;
            n.Valid() && At(b, p, n.Text()) && q == p + |n.Text()| && (q < |b| ==> !n.Extends(b[q]))
  {
    hide ScanDigits, ScanFraction, ScanExponent, AreDigits, At, Numeral.FractionText, Exponent.Text, Numeral.Extends, Numeral.Valid;
    var sign := if b[p] == MINUS then [MINUS] else [];
    var w := p + |sign|;
    var tail := TailRead(b, w, b[p] == MINUS);
    n := tail;
    assert b[p..w] == sign;
    AtSlice(b, p, w);
    AtJoin(b, p, sign, n.whole + (n.FractionText() + n.exponent.Text()));
  }

  /** The number behind its sign. */
  lemma TailRead(b: seq<byte>, w: nat, negative: bool) returns (n: Numeral)
    requires w <= |b| && ScanDigits(b, w).End? && ScanFraction(b, ScanDigits(b, w).pos).End?
    requires ScanExponent(b, ScanFraction(b, ScanDigits(b, w).pos).pos).End?
    ensures var s, q := n.whole + (n.FractionText() + n.exponent.Text()), ScanExponent(b, ScanFraction(b, ScanDigits(b, w).pos).pos).pos;
            && n.negative == negative && n.Valid() && At(b, w, s) && q == w + |s| && (q < |b| ==> !n.Extends(b[q]))
  {
    hide ScanDigits, ScanFraction, ScanExponent, AreDigits, At, Exponent.Text;
    var whole := DigitRunRead(b, w);
    var f := w + |whole|;
    var fraction := FractionRead(b, f);
    var exponent := ExponentRead(b, ScanFraction(b, f).pos);
    n := Numeral(negative, whole, fraction, exponent);
    AtJoin(b, f, n.FractionText(), exponent.Text());
    AtJoin(b, w, whole, n.FractionText() + exponent.Text());
    NotExtended(b, n, ScanFraction(b, f).pos, ScanExponent(b, ScanFraction(b, f).pos).pos);
  }

  lemma NotExtended(b: seq<byte>, n: Numeral, e: nat, q: nat)
    requires e <= q <= |b| && q == e + |n.exponent.Text()|
    requires q < |b| ==> !IsDigit(b[q]) && (n.exponent.NoExponent? ==> b[q] != 101 && b[q] != 69)
    requires e < |b| ==> (n.fraction == [] ==> b[e] != POINT)
    ensures q < |b| ==> !n.Extends(b[q])
  {
  }

  lemma {:induction false} WordRead(b: seq<byte>, p: nat, word: seq<byte>, i: nat)
    requires p <= |b| && i <= |word| && ScanWord(b, p, word, i).End? && (i == |word| ==> p + |word| <= |b|)
    ensures p + |word| <= |b| && forall k :: i <= k < |word| ==> b[p + k] == word[k]
    decreases |word| - i
  {
    if i < |word| {
      if i + 1 == |word| {
        assert ScanWord(b, p, word, i + 1).End?;
      }
      WordRead(b, p, word, i + 1);
    }
  }

  lemma WholeWordRead(b: seq<byte>, p: nat, word: seq<byte>)
    requires p <= |b| && word != [] && ScanWord(b, p, word, 0).End?
    ensures At(b, p, word) && ScanWord(b, p, word, 0) == End(p + |word|)
  {
    WordRead(b, p, word, 0);
    WordAt(b, p, word, 0);
  }

  lemma {:induction false} IdentifierRead(b: seq<byte>, p: nat)
    requires p <= |b|
    ensures forall k :: p <= k < ScanIdentifier(b, p) ==> b[k] == UNDERSCORE || IsAlpha(b[k]) || IsDigit(b[k])
    decreases |b| - p
  {
    if p < ScanIdentifier(b, p) {
      IdentifierRead(b, p + 1);
    }
  }

  lemma KeyRead(b: seq<byte>, p: nat) returns (k: Key)
    requires p <= |b| && ParseKey(b, p).Ok?
    ensures var q := SkipSpaces(b, p);
            k.Valid() && At(b, q, k.Text()) && ParseKey(b, p) == Ok([KeyTree(k, q)], q + |k.Text()|)
  {
    hide ParseString, ScanIdentifier, SkipSpaces;
    var q := SkipSpaces(b, p);
    if IsAlpha(Peek(b, p)) {
      IdentifierRead(b, q);
      k := Bare(b[q..ScanIdentifier(b, q)]);
    } else {
      var chars := StringRead(b, p);
      k := Quoted(chars);
    }
  }

  /** A parsed value is the tree of some syntax tree whose text stands there. */
  lemma {:induction false} ValueRead(b: seq<byte>, p: nat) returns (v: Value)
    requires p <= |b| && ParseValue(b, p).Ok?
    ensures var q, r := SkipSpaces(b, p), ParseValue(b, p);
            && Valid(v) && At(b, q, TextOf(v)) && r == Ok([TreeOf(v, q)], q + |TextOf(v)|)
            && (r.cur < |b| ==> Fits(v, b[r.cur]))
    decreases |b| - p, 1
  {
    hide SkipSpaces, ScanNumber, ScanWord, ParseString, ParseArray, ParseObject, ItemsText, MembersText, CharsText, At;
    hide ValidItems, ValidMembers, Numeral.Text, Numeral.Valid, Numeral.Extends;
    var c, q := Peek(b, p), SkipSpaces(b, p);
    if c == QUOTE {
      var chars := StringRead(b, p);
      v := Text(chars);
    } else if c == OPEN_BRACE {
      v := RecordRead(b, p);
    } else if c == OPEN_BRACKET {
      v := ListRead(b, p);
    } else if c == 110 {
      v := NullWord;
      WholeWordRead(b, q, NULL_WORD);
    } else if c == 116 {
      v := TrueWord;
      WholeWordRead(b, q, TRUE_WORD);
    } else if c == 102 {
      v := FalseWord;
      WholeWordRead(b, q, FALSE_WORD);
    } else {
      var n := NumberRead(b, q);
      v := Value.Number(n);
    }
  }

  lemma ContainerRead(b: seq<byte>, q: nat, open: byte, s: seq<byte>, close: byte)
    requires q < |b| && b[q] == open && At(b, q + 1, s) && q + 1 + |s| < |b| && b[q + 1 + |s|] == close
    ensures At(b, q, [open] + s + [close])
  {
    assert b[q..q + 1] == [open] && b[q + 1 + |s|..q + 2 + |s|] == [close];
    AtJoin(b, q, [open], s);
    AtJoin(b, q, [open] + s, [close]);
  }

  lemma {:induction false} ListRead(b: seq<byte>, p: nat) returns (v: Value)
    requires p <= |b| && ParseArray(b, p).Ok?
    ensures var q := SkipSpaces(b, p);
            v.List? && Valid(v) && At(b, q, TextOf(v)) && ParseArray(b, p) == Ok([TreeOf(v, q)], q + |TextOf(v)|)
    decreases |b| - p, 0
  {
    hide SkipSpaces, ParseElements, ItemsText, ValidItems, IsBlank, At;
    var q := SkipSpaces(b, p);
    var items, inner := ItemsRead(b, q + 1);
    ContainerRead(b, q, OPEN_BRACKET, ItemsText(items, inner), CLOSE_BRACKET);
    v := List(items, inner);
  }

  lemma {:induction false} RecordRead(b: seq<byte>, p: nat) returns (v: Value)
    requires p <= |b| && ParseObject(b, p).Ok?
    ensures var q := SkipSpaces(b, p);
            v.Record? && Valid(v) && At(b, q, TextOf(v)) && ParseObject(b, p) == Ok([TreeOf(v, q)], q + |TextOf(v)|)
    decreases |b| - p, 0
  {
    hide SkipSpaces, ParseMembers, MembersText, ValidMembers, IsBlank, At;
    var q := SkipSpaces(b, p);
    var members, inner := MembersRead(b, q + 1);
    ContainerRead(b, q, OPEN_BRACE, MembersText(members, inner), CLOSE_BRACE);
    v := Record(members, inner);
  }

  /** An element, its white space, and the comma that may follow. */
  lemma {:induction false} ItemRead(b: seq<byte>, p: nat) returns (i: Item)
    requires p <= |b| && ParseValue(b, p).Ok? && SkipComma(b, ParseValue(b, p).cur) < |b|
    ensures var next := SkipComma(b, ParseValue(b, p).cur);
            && ValidItem(i, b[next]) && At(b, p, ItemText(i)) && p + |ItemText(i)| == next
            && ParseValue(b, p).kids == TreesOfItem(i, p)
    decreases |b| - p, 2
  {
    hide SkipSpaces, ParseValue, TextOf, TreeOf, Valid, Fits, IsBlank, At;
    var q, end := SkipSpaces(b, p), ParseValue(b, p).cur;
    var a, next, comma := SkipSpaces(b, end), SkipComma(b, end), Peek(b, end) == COMMA;
    var v := ValueRead(b, p);
    BlankRead(b, p);
    BlankRead(b, end);
    i := Item(b[p..q], v, b[end..a], comma);
    AtSlice(b, p, q);
    AtSlice(b, end, a);
    AtSlice(b, a, next);
    assert b[a..next] == CommaText(comma);
    AtJoin(b, end, i.after, CommaText(comma));
    AtJoin(b, q, TextOf(v), i.after + CommaText(comma));
    AtJoin(b, p, i.before, TextOf(v) + (i.after + CommaText(comma)));
    FirstBehind(b, end, i.after + CommaText(comma));
  }

  lemma {:induction false} ItemsRead(b: seq<byte>, p: nat) returns (items: seq<Item>, inner: seq<byte>)
    requires p <= |b| && ParseElements(b, p).Ok?
    ensures var end := p + |ItemsText(items, inner)|;
            && IsBlank(inner) && ValidItems(items, inner) && At(b, p, ItemsText(items, inner))
            && ParseElements(b, p) == Ok(ItemTrees(items, p), end) && end < |b| && b[end] == CLOSE_BRACKET
    decreases |b| - p, 3
  {
    hide SkipSpaces, ParseValue, ItemText, ValidItem, TreesOfItem, IsBlank, At;
    if Peek(b, p) == CLOSE_BRACKET {
      items, inner := [], b[p..SkipSpaces(b, p)];
      BlankRead(b, p);
      AtSlice(b, p, SkipSpaces(b, p));
    } else {
      var next := SkipComma(b, ParseValue(b, p).cur);
      var rest;
      rest, inner := ItemsRead(b, next);
      var i := ItemRead(b, p);
      items := [i] + rest;
      assert items[1..] == rest;
      AtJoin(b, p, ItemText(i), ItemsText(rest, inner));
      FirstBehind(b, next, ItemsText(rest, inner));
    }
  }

  lemma {:induction false} MemberRead(b: seq<byte>, p: nat) returns (m: Member)
    requires p <= |b| && ParsePair(b, p).Ok? && SkipComma(b, ParsePair(b, p).cur) < |b|
    ensures var next := SkipComma(b, ParsePair(b, p).cur);
            && ValidMember(m, b[next]) && At(b, p, MemberText(m)) && p + |MemberText(m)| == next
            && ParsePair(b, p).kids == TreesOfMember(m, p)
    decreases |b| - p, 3
  {
    hide SkipSpaces, ParseKey, ParseValue, KeyTree, Key.Text, Key.Valid, TreesOfItem, ItemText, ValidItem, IsBlank, At;
    var q, end := SkipSpaces(b, p), ParseKey(b, p).cur;
    var c := SkipSpaces(b, end);
    var k := KeyRead(b, p);
    var i := ItemRead(b, c + 1);
    BlankRead(b, p);
    BlankRead(b, end);
    m := Member(b[p..q], k, b[end..c], i);
    AtSlice(b, p, q);
    AtSlice(b, end, c);
    MemberJoin(b, p, m, q, c);
  }

  /** A member's text is there when its parts are, its key at `k` and the colon at `c`. */
  lemma MemberJoin(b: seq<byte>, p: nat, m: Member, k: nat, c: nat)
    requires k == p + |m.before| && c == k + |m.key.Text()| + |m.behind| < |b| && b[c] == COLON
    requires At(b, p, m.before) && At(b, k, m.key.Text()) && At(b, k + |m.key.Text()|, m.behind) && At(b, c + 1, ItemText(m.item))
    ensures At(b, p, MemberText(m)) && |MemberText(m)| == c + 1 + |ItemText(m.item)| - p
  {
    hide Key.Text, ItemText, At;
    var t := [COLON] + ItemText(m.item);
    AtSlice(b, c, c + 1);
    assert b[c..c + 1] == [COLON];
    AtJoin(b, c, [COLON], ItemText(m.item));
    AtJoin(b, k + |m.key.Text()|, m.behind, t);
    AtJoin(b, k, m.key.Text(), m.behind + t);
    AtJoin(b, p, m.before, m.key.Text() + (m.behind + t));
  }

  lemma {:induction false} MembersRead(b: seq<byte>, p: nat) returns (members: seq<Member>, inner: seq<byte>)
    requires p <= |b| && ParseMembers(b, p).Ok?
    ensures var end := p + |MembersText(members, inner)|;
            && IsBlank(inner) && ValidMembers(members, inner) && At(b, p, MembersText(members, inner))
            && ParseMembers(b, p) == Ok(MemberTrees(members, p), end) && end < |b| && b[end] == CLOSE_BRACE
    decreases |b| - p, 4
  {
    hide SkipSpaces, ParsePair, MemberText, ValidMember, TreesOfMember, IsBlank, At;
    if Peek(b, p) == CLOSE_BRACE {
      members, inner := [], b[p..SkipSpaces(b, p)];
      BlankRead(b, p);
      AtSlice(b, p, SkipSpaces(b, p));
    } else {
      var next := SkipComma(b, ParsePair(b, p).cur);
      var rest;
      rest, inner := MembersRead(b, next);
      var m := MemberRead(b, p);
      members := [m] + rest;
      assert members[1..] == rest;
      AtJoin(b, p, MemberText(m), MembersText(rest, inner));
      FirstBehind(b, next, MembersText(rest, inner));
    }
  }

  // ---- The whole text ---------------------------------------------------------------------------------

  /** The parser accepts exactly the texts of the grammar, and finds exactly their trees. */
  lemma AcceptedIffWritten(b: seq<byte>, root: Tree, end: nat)
    ensures ParseText(b) == Ok([root], end) <==> exists before, v :: Writes(b, before, v, root, end)
  {
    hide TextOf, TreeOf, ParseObject, Valid, IsBlank, At, SkipSpaces;
    if ParseText(b) == Ok([root], end) {
      var v := RecordRead(b, 0);
      var before := b[0..SkipSpaces(b, 0)];
      BlankRead(b, 0);
      AtSlice(b, 0, SkipSpaces(b, 0));
      assert Writes(b, before, v, root, end);
    }
    if before, v :| Writes(b, before, v, root, end) {
      WrittenIsAccepted(b, before, v, root, end);
    }
  }
}
