/**
 * `parse_json` of examples/fossa/fossa.c: a cursor over the text and a fixed array that is
 * filled with tokens on the way. An array of length 0 stands for "only check the text".
 */
module JsonParser {
  import opened Bytes
  import opened JsonTree
  import JsonErrors

  // ---- Facts about the reference parser ---------------------------------------------------------

  lemma {:induction false} SpacesOnce(b: seq<byte>, p: nat)
    requires p <= |b|
    ensures SkipSpaces(b, SkipSpaces(b, p)) == SkipSpaces(b, p) && Peek(b, SkipSpaces(b, p)) == Peek(b, p)
  {
  }

  /** Leading white space makes no difference. */
  lemma ValueSkips(b: seq<byte>, p: nat)
    requires p <= |b|
    ensures var q := SkipSpaces(b, p);
            ParseValue(b, q) == ParseValue(b, p) && ParseObject(b, q) == ParseObject(b, p) && ParseArray(b, q) == ParseArray(b, p)
    ensures var q := SkipSpaces(b, p);
            ParseString(b, q) == ParseString(b, p) && ParseKey(b, q) == ParseKey(b, p)
  {
    hide SkipSpaces, Peek, ScanNumber, ScanWord, ScanString, ScanIdentifier, ParseElements, ParseMembers;
    SpacesOnce(b, p);
  }

  lemma ElementsSkip(b: seq<byte>, p: nat)
    requires p <= |b|
    ensures ParseElements(b, SkipSpaces(b, p)) == ParseElements(b, p)
  {
    hide SkipSpaces, Peek, ParseValue;
    SpacesOnce(b, p);
    ValueSkips(b, p);
  }

  lemma MembersSkip(b: seq<byte>, p: nat)
    requires p <= |b|
    ensures ParseMembers(b, SkipSpaces(b, p)) == ParseMembers(b, p)
  {
    hide SkipSpaces, Peek, ParseKey, ParseValue;
    SpacesOnce(b, p);
    ValueSkips(b, p);
  }

  lemma ThenTotal(first: seq<Tree>, r: Parse)
    ensures Total(Then(first, r)) == |FlattenAll(first)| + Total(r)
    ensures r.Ok? ==> FlattenAll(first + r.kids) == FlattenAll(first) + FlattenAll(r.kids)
  {
    if r.Ok? {
      FlattenConcat(first, r.kids);
    }
  }

  lemma ThenThen(a: seq<Tree>, c: seq<Tree>, r: Parse)
    ensures Then(a, Then(c, r)) == Then(a + c, r)
  {
    FlattenConcat(a, c);
    if r.Ok? {
      assert a + (c + r.kids) == a + c + r.kids;
    }
  }

  lemma LeafFlat(t: Tree)
    requires t.kids == []
    ensures FlattenAll([t]) == [Token(t.ptr, t.len, 0, t.kind)]
  {
    FlattenOne(t);
  }

  lemma ContainerFlat(t: Tree)
    ensures FlattenAll([t]) == [Token(t.ptr, t.len, |FlattenAll(t.kids)|, t.kind)] + FlattenAll(t.kids)
  {
    FlattenOne(t);
  }

  // ---- The parser state ---------------------------------------------------------------------------

  /** `struct frozen`. */
  class Frozen {
    const text: seq<byte>
    const tokens: array<Token>
    var cur: nat
    var numTokens: nat

    constructor (text: seq<byte>, tokens: array<Token>)
      ensures this.text == text && this.tokens == tokens && cur == 0 && numTokens == 0 && Valid()
    {
      this.text, this.tokens, cur, numTokens := text, tokens, 0, 0;
    }

    ghost predicate Valid()
      reads this
    {
      cur <= |text| && numTokens <= tokens.Length
    }

    ghost function Tokens(): (s: seq<Token>)
      requires Valid()
      reads this, tokens
      ensures |s| == numTokens
    {
      tokens[..numTokens]
    }

    /** `n` more tokens behind `start` do not fit. */
    ghost predicate Overflows(start: nat, n: nat) {
      tokens.Length > 0 && start + n > tokens.Length
    }

    /** What the array keeps of a forest. */
    ghost function Stored(kids: seq<Tree>): seq<Token> {
      if tokens.Length == 0 then [] else FlattenAll(kids)
    }

    /**
     * What a parse that should come out as `r` answers and leaves behind, if it starts with
     * the tokens `start`: the error for a full array, the error of the text with the cursor
     * where it was found, or 0 with the cursor behind what was parsed and its flat form
     * behind `start`.
     */
    ghost predicate Outcome(ret: int, r: Parse, start: seq<Token>)
      requires Valid()
      reads this, tokens
    {
      if Overflows(|start|, Total(r)) then ret == TOO_SMALL
      else if r.Err? then ret == r.code && cur == r.at
      else ret == 0 && cur == r.cur && Tokens() == start + Stored(r.kids)
    }

    // ---- Characters ---------------------------------------------------------------------------

    /** `cur`: skips white space and looks at the next character. */
    method Cur() returns (c: int)
      requires Valid()
      modifies this`cur
      ensures Valid() && cur == SkipSpaces(text, old(cur)) && c == Peek(text, old(cur))
    {
      while cur < |text| && IsSpace(text[cur])
        invariant cur <= |text| && SkipSpaces(text, cur) == SkipSpaces(text, old(cur))
        decreases |text| - cur
      {
        cur := cur + 1;
      }
      c := if cur >= |text| then END_OF_STRING else text[cur];
    }

    /** `test_and_skip`. */
    method TestAndSkip(expected: byte) returns (ret: int)
      requires Valid()
      modifies this`cur
      ensures Valid()
      ensures ret == if Peek(text, old(cur)) == expected then 0 else Missing(text, old(cur))
      ensures cur == SkipSpaces(text, old(cur)) + if ret == 0 then 1 else 0
    {
      var c := Cur();
      if c == expected {
        cur := cur + 1;
        ret := 0;
      } else {
        ret := if c == END_OF_STRING then INCOMPLETE else INVALID;
      }
    }

    // ---- Tokens -------------------------------------------------------------------------------

    /** `capture_ptr`: begins a token; nothing without an array, an error when it is full. */
    method CapturePtr(ptr: nat, kind: Kind) returns (ret: int)
      requires Valid()
      modifies this`numTokens, tokens
      ensures Valid() && ret == if Overflows(old(numTokens), 1) then TOO_SMALL else 0
      ensures ret == 0 && tokens.Length == 0 ==> numTokens == old(numTokens)
      ensures ret == 0 && tokens.Length > 0 ==>
                && numTokens == old(numTokens) + 1 && tokens[..old(numTokens)] == old(Tokens())
                && tokens[old(numTokens)].ptr == ptr && tokens[old(numTokens)].kind == kind
    {
      if tokens.Length == 0 {
        return 0;
      }
      if numTokens >= tokens.Length {
        return TOO_SMALL;
      }
      tokens[numTokens] := tokens[numTokens].(ptr := ptr, kind := kind);
      numTokens := numTokens + 1;
      ret := 0;
    }

    /** `capture_len`: ends a token; its descendants are the tokens begun since. */
    method CaptureLen(index: int, ptr: nat) returns (ret: int)
      requires Valid()
      modifies tokens
      ensures ret == if tokens.Length == 0 || 0 <= index < tokens.Length then 0 else INVALID
      ensures tokens.Length > 0 && 0 <= index < tokens.Length ==>
                tokens[index] == old(tokens[index]).(len := ptr - old(tokens[index]).ptr, numDesc := numTokens - 1 - index)
      ensures forall k :: 0 <= k < tokens.Length && k != index ==> tokens[k] == old(tokens[k])
    {
      if tokens.Length == 0 {
        return 0;
      }
      if index < 0 || index >= tokens.Length {
        return INVALID;
      }
      tokens[index] := tokens[index].(len := ptr - tokens[index].ptr, numDesc := numTokens - 1 - index);
      ret := 0;
    }

    /** Ends the token begun last: a leaf from `ptr` to the cursor. */
    method CaptureLeaf(ghost kind: Kind, ghost ptr: nat, ghost start: seq<Token>)
      requires Valid() && ptr <= cur
      requires tokens.Length == 0 ==> Tokens() == start
      requires tokens.Length > 0 ==>
                 && numTokens == |start| + 1 && tokens[..|start|] == start
                 && tokens[|start|].ptr == ptr && tokens[|start|].kind == kind
      modifies tokens
      ensures Tokens() == start + Stored([Node(kind, ptr, cur - ptr, [])])
    {
      LeafFlat(Node(kind, ptr, cur - ptr, []));
      var _ := CaptureLen(numTokens - 1, cur);
    }

    // ---- Leaves -------------------------------------------------------------------------------

    /** The loop of `parse_string`: the cursor stops on the closing quote. */
    method SkipString() returns (ret: int)
      requires Valid()
      modifies this`cur
      ensures Valid() && cur >= old(cur)
      ensures var s := ScanString(text, old(cur)); ret == (if s.Bad? then s.code else 0) && cur == if s.Bad? then s.at else s.pos
    {
      hide EscapeLength, Utf8Length;
      while cur < |text|
        invariant old(cur) <= cur <= |text| && ScanString(text, cur) == ScanString(text, old(cur))
        decreases |text| - cur
      {
        var c := text[cur];
        var len := Utf8Length(c);
        Utf8Positive(c);
        if c < 32 || len <= 0 {
          return INVALID;
        }
        if len >= |text| - cur {
          return INCOMPLETE;
        }
        if c == BACKSLASH {
          BackslashIsOne();
          var n := EscapeLength(text, cur);
          if n <= 0 {
            return n;
          }
          len := len + n;
        } else if c == QUOTE {
          return 0;
        }
        cur := cur + len;
      }
      ret := INCOMPLETE;
    }

    /** `parse_string`. */
    method ParseStringToken() returns (ret: int)
      requires Valid()
      modifies this`cur, this`numTokens, tokens
      ensures Valid() && Outcome(ret, ParseString(text, old(cur)), old(Tokens()))
    {
      hide SkipSpaces, Peek, ScanString;
      ghost var start := Tokens();
      ret := TestAndSkip(QUOTE);
      if ret < 0 {
        return;
      }
      ghost var ptr := cur;
      ret := CapturePtr(cur, String);
      if ret < 0 {
        LeafTotal(String, ptr, ScanString(text, ptr), 1);
        return;
      }
      ret := SkipString();
      LeafTotal(String, ptr, ScanString(text, ptr), 1);
      if ret < 0 {
        return;
      }
      CaptureLeaf(String, ptr, start);
      cur := cur + 1;
    }

    /** `parse_identifier`, called with the cursor on a letter. */
    method ParseIdentifier() returns (ret: int)
      requires Valid() && cur < |text| && IsAlpha(text[cur])
      modifies this`cur, this`numTokens, tokens
      ensures Valid() && Outcome(ret, Leaf(String, old(cur), End(ScanIdentifier(text, old(cur))), 0), old(Tokens()))
    {
      ghost var start, ptr := Tokens(), cur;
      LeafTotal(String, ptr, End(ScanIdentifier(text, ptr)), 0);
      ret := CapturePtr(cur, String);
      if ret < 0 {
        return;
      }
      SkipIdentifier();
      CaptureLeaf(String, ptr, start);
    }

    method SkipIdentifier()
      requires Valid()
      modifies this`cur
      ensures Valid() && cur == ScanIdentifier(text, old(cur))
    {
      while cur < |text| && (text[cur] == UNDERSCORE || IsAlpha(text[cur]) || IsDigit(text[cur]))
        invariant cur <= |text| && ScanIdentifier(text, cur) == ScanIdentifier(text, old(cur))
        decreases |text| - cur
      {
        cur := cur + 1;
      }
    }

    method SkipDigitRun() returns (ret: int)
      requires Valid()
      modifies this`cur
      ensures Valid() && cur >= old(cur)
      ensures var s := ScanDigits(text, old(cur)); ret == (if s.Bad? then s.code else 0) && cur == if s.Bad? then s.at else s.pos
    {
      if cur >= |text| {
        return INCOMPLETE;
      }
      if !IsDigit(text[cur]) {
        return INVALID;
      }
      while cur < |text| && IsDigit(text[cur])
        invariant old(cur) <= cur <= |text| && SkipDigits(text, cur) == SkipDigits(text, old(cur))
        decreases |text| - cur
      {
        cur := cur + 1;
      }
      ret := 0;
    }

    /** The part of `parse_number` between its two captures. */
    method SkipNumber() returns (ret: int)
      requires Valid() && cur < |text|
      modifies this`cur
      ensures Valid() && cur >= old(cur)
      ensures var s := ScanNumber(text, old(cur)); ret == (if s.Bad? then s.code else 0) && cur == if s.Bad? then s.at else s.pos
    {
      hide ScanDigits;
      if text[cur] == MINUS {
        cur := cur + 1;
      }
      ret := SkipDigitRun();
      if ret < 0 {
        return;
      }
      if cur < |text| && text[cur] == POINT {
        cur := cur + 1;
        ret := SkipDigitRun();
        if ret < 0 {
          return;
        }
      }
      if cur < |text| && (text[cur] == 101 || text[cur] == 69) {
        cur := cur + 1;
        if cur >= |text| {
          return INCOMPLETE;
        }
        if text[cur] == PLUS || text[cur] == MINUS {
          cur := cur + 1;
        }
        ret := SkipDigitRun();
      }
    }

    /** `parse_number`. */
    method ParseNumber() returns (ret: int)
      requires Valid() && cur < |text| && !IsSpace(text[cur])
      modifies this`cur, this`numTokens, tokens
      ensures Valid() && Outcome(ret, Leaf(Number, old(cur), ScanNumber(text, old(cur)), 0), old(Tokens()))
    {
      hide ScanNumber;
      ghost var start, ptr := Tokens(), cur;
      LeafTotal(Number, ptr, ScanNumber(text, ptr), 0);
      ret := CapturePtr(cur, Number);
      if ret < 0 {
        return;
      }
      ret := SkipNumber();
      if ret < 0 {
        return;
      }
      CaptureLeaf(Number, ptr, start);
    }

    /** `expect`. */
    method Expect(word: seq<byte>, kind: Kind) returns (ret: int)
      requires Valid() && word != []
      modifies this`cur, this`numTokens, tokens
      ensures Valid() && Outcome(ret, Leaf(kind, old(cur), ScanWord(text, old(cur), word, 0), 0), old(Tokens()))
    {
      ghost var start, ptr := Tokens(), cur;
      LeafTotal(kind, ptr, ScanWord(text, ptr, word, 0), 0);
      ret := CapturePtr(cur, kind);
      if ret < 0 {
        return;
      }
      for i := 0 to |word|
        invariant ScanWord(text, cur, word, i) == ScanWord(text, cur, word, 0)
      {
        if i >= |text| - cur {
          return INCOMPLETE;
        }
        if text[cur + i] != word[i] {
          return INVALID;
        }
      }
      cur := cur + |word|;
      CaptureLeaf(kind, ptr, start);
    }

    // ---- Values -------------------------------------------------------------------------------

    /** `parse_key`. */
    method ParseKeyToken() returns (ret: int)
      requires Valid()
      modifies this`cur, this`numTokens, tokens
      ensures Valid() && Outcome(ret, ParseKey(text, old(cur)), old(Tokens()))
    {
      hide SkipSpaces, ScanIdentifier, Outcome, ParseString;
      ValueSkips(text, cur);
      ghost var start := Tokens();
      var c := Cur();
      if IsAlpha(c) {
        ret := ParseIdentifier();
      } else if c == QUOTE {
        ret := ParseStringToken();
      } else {
        ret := if c == END_OF_STRING then INCOMPLETE else INVALID;
        ErrOutcome(ret, start);
      }
    }

    /** An error before any token was begun. */
    lemma ErrOutcome(ret: int, start: seq<Token>)
      requires Valid() && |start| == numTokens
      ensures Outcome(ret, Err(ret, 0, cur), start)
    {
    }

    /** `parse_value`. */
    method ParseValueTokens() returns (ret: int)
      requires Valid()
      modifies this`cur, this`numTokens, tokens
      ensures Valid() && Outcome(ret, ParseValue(text, old(cur)), old(Tokens()))
      decreases |text| - cur, 1
    {
      hide SkipSpaces, Outcome, ParseString, ParseObject, ParseArray, ScanWord, ScanNumber;
      ValueSkips(text, cur);
      ghost var start := Tokens();
      var c := Cur();
      if c == QUOTE {
        ret := ParseStringToken();
      } else if c == OPEN_BRACE {
        ret := ParseObjectTokens();
      } else if c == OPEN_BRACKET {
        ret := ParseArrayTokens();
      } else if c == 110 {
        ret := Expect(NULL_WORD, Null);
      } else if c == 116 {
        ret := Expect(TRUE_WORD, True);
      } else if c == 102 {
        ret := Expect(FALSE_WORD, False);
      } else if c == MINUS || IsDigit(c) {
        ret := ParseNumber();
      } else {
        ret := if c == END_OF_STRING then INCOMPLETE else INVALID;
        ErrOutcome(ret, start);
      }
    }

    /** `parse_array`. */
    method ParseArrayTokens() returns (ret: int)
      requires Valid()
      modifies this`cur, this`numTokens, tokens
      ensures Valid() && Outcome(ret, ParseArray(text, old(cur)), old(Tokens()))
      decreases |text| - cur, 0
    {
      hide SkipSpaces, Peek, ParseElements;
      ghost var start := Tokens();
      ret := TestAndSkip(OPEN_BRACKET);
      if ret < 0 {
        return;
      }
      ghost var q := cur - 1;
      ghost var r := ParseElements(text, q + 1);
      CloseTotal(Array, q, r);
      ret := CapturePtr(cur - 1, Array);
      if ret < 0 {
        return;
      }
      var ind := numTokens - 1;
      ghost var begun := Tokens();
      ret := ElementLoop();
      if ret < 0 {
        return;
      }
      SpacesOnClose(r.cur, CLOSE_BRACKET);
      ret := TestAndSkip(CLOSE_BRACKET);
      if ret < 0 {
        return;
      }
      CloseContainer(Array, q, r.kids, ind, start, begun);
    }

    /** The loop of `parse_array`; it leaves the cursor on the closing bracket. */
    method ElementLoop() returns (ret: int)
      requires Valid()
      modifies this`cur, this`numTokens, tokens
      ensures Valid() && Outcome(ret, ParseElements(text, old(cur)), old(Tokens()))
      ensures ret == 0 ==> cur < |text| && text[cur] == CLOSE_BRACKET
      decreases |text| - cur, 2
    {
      hide SkipSpaces, ParseElements, ParseValue, IsStep, Then, Total, FlattenAll, Overflows, Stored, Outcome;
      ghost var start, all := Tokens(), ParseElements(text, cur);
      ghost var done: seq<Tree> := [];
      ThenNothing(all);
      assert Kept([], start) by { NothingStored(start); }
      while true
        invariant Valid() && cur >= old(cur) && all == Then(done, ParseElements(text, cur)) && Kept(done, start)
        decreases |text| - cur
      {
        SpacesOnce(text, cur);
        ElementsSkip(text, cur);
        var c := Cur();
        ElementsStep(text, cur, done);
        if c == CLOSE_BRACKET {
          Finished(done, start);
          return 0;
        }
        ghost var v := ParseValue(text, cur);
        ret := ParseValueTokens();
        StepOutcome(ret, v, all, done, start);
        if ret < 0 {
          return;
        }
        c := Cur();
        if c == COMMA {
          cur := cur + 1;
        }
        done := done + v.kids;
      }
    }

    ghost predicate Kept(done: seq<Tree>, start: seq<Token>)
      requires Valid()
      reads this, tokens
    {
      Tokens() == start + Stored(done) && !Overflows(|start|, |FlattenAll(done)|)
    }

    lemma NothingStored(start: seq<Token>)
      requires Valid() && Tokens() == start
      ensures Kept([], start)
    {
      assert start + [] == start;
    }

    lemma Finished(done: seq<Tree>, start: seq<Token>)
      requires Valid() && Kept(done, start)
      ensures Outcome(0, Ok(done, cur), start)
    {
    }

    /** One more item of a list: its outcome is that of the list if it fails, and what was kept grows if not. */
    lemma StepOutcome(ret: int, v: Parse, all: Parse, done: seq<Tree>, start: seq<Token>)
      requires Valid() && Outcome(ret, v, start + Stored(done)) && IsStep(v, all, done)
      requires !Overflows(|start|, |FlattenAll(done)|)
      ensures ret < 0 ==> Outcome(ret, all, start)
      ensures ret >= 0 ==> ret == 0 && v.Ok? && cur == v.cur && Kept(done + v.kids, start)
    {
      hide FlattenAll;
      if ret >= 0 {
        FlattenConcat(done, v.kids);
        assert start + Stored(done) + Stored(v.kids) == start + Stored(done + v.kids);
      }
    }

    /** `parse_pair`. */
    method ParsePairTokens() returns (ret: int)
      requires Valid()
      modifies this`cur, this`numTokens, tokens
      ensures Valid() && Outcome(ret, ParsePair(text, old(cur)), old(Tokens()))
      decreases |text| - cur, 2
    {
      hide SkipSpaces, Peek, ParseKey, ParseValue, FlattenAll;
      ghost var start, k := Tokens(), ParseKey(text, cur);
      ret := ParseKeyToken();
      PairTotal(text, old(cur));
      if ret < 0 {
        return;
      }
      ret := TestAndSkip(COLON);
      if ret < 0 {
        return;
      }
      ghost var v := ParseValue(text, cur);
      ThenTotal(k.kids, v);
      ret := ParseValueTokens();
      if ret == 0 {
        assert start + Stored(k.kids) + Stored(v.kids) == start + (Stored(k.kids) + Stored(v.kids));
      }
    }

    /** `parse_object`. */
    method ParseObjectTokens() returns (ret: int)
      requires Valid()
      modifies this`cur, this`numTokens, tokens
      ensures Valid() && Outcome(ret, ParseObject(text, old(cur)), old(Tokens()))
      decreases |text| - cur, 0
    {
      hide SkipSpaces, Peek, ParseMembers;
      ghost var start := Tokens();
      ret := TestAndSkip(OPEN_BRACE);
      if ret < 0 {
        return;
      }
      ghost var q := cur - 1;
      ghost var r := ParseMembers(text, q + 1);
      CloseTotal(Object, q, r);
      ret := CapturePtr(cur - 1, Object);
      if ret < 0 {
        return;
      }
      var ind := numTokens - 1;
      ghost var begun := Tokens();
      ret := MemberLoop();
      if ret < 0 {
        return;
      }
      SpacesOnClose(r.cur, CLOSE_BRACE);
      ret := TestAndSkip(CLOSE_BRACE);
      if ret < 0 {
        return;
      }
      CloseContainer(Object, q, r.kids, ind, start, begun);
    }

    /** The loop of `parse_object`; it leaves the cursor on the closing brace. */
    method MemberLoop() returns (ret: int)
      requires Valid()
      modifies this`cur, this`numTokens, tokens
      ensures Valid() && Outcome(ret, ParseMembers(text, old(cur)), old(Tokens()))
      ensures ret == 0 ==> cur < |text| && text[cur] == CLOSE_BRACE
      decreases |text| - cur, 3
    {
      hide SkipSpaces, ParseMembers, ParsePair, IsStep, Then, Total, FlattenAll, Overflows, Stored, Outcome;
      ghost var start, all := Tokens(), ParseMembers(text, cur);
      ghost var done: seq<Tree> := [];
      ThenNothing(all);
      assert Kept([], start) by { NothingStored(start); }
      while true
        invariant Valid() && cur >= old(cur) && all == Then(done, ParseMembers(text, cur)) && Kept(done, start)
        decreases |text| - cur
      {
        SpacesOnce(text, cur);
        MembersSkip(text, cur);
        var c := Cur();
        MembersStep(text, cur, done);
        if c == CLOSE_BRACE {
          Finished(done, start);
          return 0;
        }
        ghost var v := ParsePair(text, cur);
        ret := ParsePairTokens();
        StepOutcome(ret, v, all, done, start);
        if ret < 0 {
          return;
        }
        c := Cur();
        if c == COMMA {
          cur := cur + 1;
        }
        done := done + v.kids;
      }
    }

    /** The last step of a container: its token gets its length and the count of its descendants. */
    method CloseContainer(
      ghost kind: Kind, ghost q: nat, ghost kids: seq<Tree>, ind: int, ghost start: seq<Token>, ghost begun: seq<Token>
    )
      requires Valid() && q < cur && Tokens() == begun + Stored(kids)
      requires tokens.Length == 0 ==> begun == start
      requires tokens.Length > 0 ==>
                 && ind == |start| && |begun| == |start| + 1 && begun[..|start|] == start
                 && begun[|start|].ptr == q && begun[|start|].kind == kind
      modifies tokens
      ensures Tokens() == start + Stored([Node(kind, q, cur - q, kids)])
    {
      hide FlattenAll;
      ContainerFlat(Node(kind, q, cur - q, kids));
      ghost var was := Tokens();
      var _ := CaptureLen(ind, cur);
      if tokens.Length > 0 {
        assert was[|start|] == begun[|start|];
        forall k | 0 <= k < numTokens && k != |start|
          ensures Tokens()[k] == was[k]
        {
          assert was[k] == old(tokens[k]);
        }
        OneChanged(Tokens(), was, begun, start, FlattenAll(kids));
      }
    }

    lemma SpacesOnClose(p: nat, c: byte)
      requires p < |text| && text[p] == c && !IsSpace(c)
      ensures SkipSpaces(text, p) == p && Peek(text, p) == c
    {
    }

    // ---- The whole text -----------------------------------------------------------------------

    /** `doit`: the object, then an end token. */
    method DoIt() returns (ret: int)
      requires Valid() && cur == 0 && numTokens == 0
      modifies this`cur, this`numTokens, tokens
      ensures Valid()
      ensures var r := ParseText(text);
              if Overflows(0, Total(r) + if r.Ok? then 1 else 0) then ret == TOO_SMALL
              else if r.Err? then ret == r.code
              else
                && ret == 0 && cur == r.cur
                && (tokens.Length > 0 ==>
                      && numTokens == Total(r) + 1 && tokens[..Total(r)] == FlattenAll(r.kids)
                      && tokens[Total(r)].kind == Eof && tokens[Total(r)].ptr == r.cur)
    {
      hide ParseObject, FlattenAll;
      if |text| == cur {
        return INCOMPLETE;
      }
      ret := ParseObjectTokens();
      if ret < 0 {
        return;
      }
      ghost var kids := ParseText(text).kids;
      assert Tokens() == [] + Stored(kids);
      ret := CapturePtr(cur, Eof);
      if ret < 0 {
        return;
      }
      label Captured:
      var _ := CaptureLen(numTokens, cur);
      assert tokens.Length > 0 ==> tokens[..|FlattenAll(kids)|] == old@Captured(tokens[..|FlattenAll(kids)|]);
    }
  }

  lemma OneChanged(now: seq<Token>, was: seq<Token>, begun: seq<Token>, start: seq<Token>, tail: seq<Token>)
    requires |begun| == |start| + 1 && begun[..|start|] == start && was == begun + tail && |now| == |was|
    requires forall k :: 0 <= k < |now| && k != |start| ==> now[k] == was[k]
    ensures now == start + ([now[|start|]] + tail)
  {
    assert now[..|start|] == start && now[|start| + 1..] == tail;
  }

  lemma Utf8Positive(c: byte)
    ensures Utf8Length(c) > 0
  {
  }

  lemma BackslashIsOne()
    ensures Utf8Length(BACKSLASH) == 1
  {
  }

  lemma LeafTotal(kind: Kind, ptr: nat, scan: Scan, skip: nat)
    requires scan.End? ==> ptr <= scan.pos
    ensures Total(Leaf(kind, ptr, scan, skip)) == 1
  {
    if scan.End? {
      LeafFlat(Node(kind, ptr, scan.pos - ptr, []));
    }
  }

  lemma CloseTotal(kind: Kind, q: nat, r: Parse)
    requires r.Ok? ==> q < r.cur
    ensures Total(Close(kind, q, r)) == 1 + Total(r)
  {
    if r.Ok? {
      ContainerFlat(Node(kind, q, r.cur + 1 - q, r.kids));
    }
  }

  lemma ThenNothing(r: Parse)
    ensures Then([], r) == r && FlattenAll([]) == []
  {
    if r.Ok? {
      assert [] + r.kids == r.kids;
    }
  }

  /** The loop of elements seen from one turn of it, behind the items `done`. */
  lemma ElementsStep(b: seq<byte>, p: nat, done: seq<Tree>)
    requires p <= |b|
    ensures var all := Then(done, ParseElements(b, p));
            if Peek(b, p) == CLOSE_BRACKET then all == Ok(done, SkipSpaces(b, p))
            else
              var v := ParseValue(b, p);
              IsStep(v, all, done) && (v.Ok? ==> all == Then(done + v.kids, ParseElements(b, SkipComma(b, v.cur))))
  {
    hide ParseValue, IsStep, Total, FlattenAll, SkipSpaces;
    var v := ParseValue(b, p);
    if Peek(b, p) == CLOSE_BRACKET {
      assert done + [] == done;
    } else if v.Ok? {
      ThenIsStep(v, ParseElements(b, SkipComma(b, v.cur)), done);
    } else {
      ThenIsStep(v, v, done);
    }
  }

  /** The loop of members seen from one turn of it, behind the items `done`. */
  lemma MembersStep(b: seq<byte>, p: nat, done: seq<Tree>)
    requires p <= |b|
    ensures var all := Then(done, ParseMembers(b, p));
            if Peek(b, p) == CLOSE_BRACE then all == Ok(done, SkipSpaces(b, p))
            else
              var v := ParsePair(b, p);
              IsStep(v, all, done) && (v.Ok? ==> all == Then(done + v.kids, ParseMembers(b, SkipComma(b, v.cur))))
  {
    hide ParsePair, IsStep, Total, FlattenAll, SkipSpaces;
    var v := ParsePair(b, p);
    if Peek(b, p) == CLOSE_BRACE {
      assert done + [] == done;
    } else if v.Ok? {
      ThenIsStep(v, ParseMembers(b, SkipComma(b, v.cur)), done);
    } else {
      ThenIsStep(v, v, done);
    }
  }

  /** `v` is the next item of a list that comes out as `all`, behind the items `done`. */
  ghost predicate IsStep(v: Parse, all: Parse, done: seq<Tree>) {
    && Total(all) >= |FlattenAll(done)| + Total(v)
    && (v.Err? ==> v.code < 0 && all == Err(v.code, |FlattenAll(done)| + v.used, v.at))
  }

  lemma ThenIsStep(v: Parse, r: Parse, done: seq<Tree>)
    requires v.Ok? || (r == v && v.code < 0)
    ensures v.Err? ==> IsStep(v, Then(done, r), done)
    ensures v.Ok? ==> IsStep(v, Then(done, Then(v.kids, r)), done) && Then(done, Then(v.kids, r)) == Then(done + v.kids, r)
  {
    hide FlattenAll;
    if v.Ok? {
      ThenTotal(v.kids, r);
      ThenTotal(done, Then(v.kids, r));
      ThenThen(done, v.kids, r);
    }
  }

  lemma PairTotal(b: seq<byte>, p: nat)
    requires p <= |b|
    ensures var k, r := ParseKey(b, p), ParsePair(b, p);
            if k.Err? then r == k
            else if Peek(b, k.cur) != COLON then r == Err(Missing(b, k.cur), Total(k), SkipSpaces(b, k.cur))
            else r == Then(k.kids, ParseValue(b, SkipSpaces(b, k.cur) + 1)) && Total(r) >= Total(k)
  {
    hide ParseKey, ParseValue, SkipSpaces;
    var k := ParseKey(b, p);
    if k.Ok? && Peek(b, k.cur) == COLON {
      ThenTotal(k.kids, ParseValue(b, SkipSpaces(b, k.cur) + 1));
    }
  }

  lemma AnswerMeans(text: seq<byte>)
    ensures var r := ParseText(text);
            && (r.Err? && r.code == INVALID ==> forall c :: !ParseText(text + c).Ok?)
            && (r.Err? && r.code == INCOMPLETE ==>
                  ((exists c :: ParseText(text + c).Ok?) <==> !JsonErrors.BadCut(text, r.at)))
            && ((exists c :: ParseText(text + c).Ok? && ParseText(text + c).cur > |text|) ==> r.Err? && r.code == INCOMPLETE)
  {
    hide ParseText, JsonErrors.BadCut;
    var r := ParseText(text);
    if r.Err? && r.code == INCOMPLETE {
      JsonErrors.IncompleteGoesOn(text);
    }
    forall c
      ensures r.Err? && r.code == INVALID ==> !ParseText(text + c).Ok?
      ensures ParseText(text + c).Ok? && ParseText(text + c).cur > |text| ==> r.Err? && r.code == INCOMPLETE
    {
      JsonErrors.AnswerIsFinal(text, c);
    }
  }

  /**
   * `parse_json`: the length of the text that was read, or an error. INVALID says that no way
   * to go on is accepted; INCOMPLETE that there is one, but for a cut escape with a wrong
   * digit, and it is what the start of any accepted text gets.
   */
  method ParseJson(text: seq<byte>, tokens: array<Token>) returns (ret: int)
    modifies tokens
    ensures var r, n := ParseText(text), tokens.Length;
            if n > 0 && Total(r) + (if r.Ok? then 1 else 0) > n then ret == TOO_SMALL
            else if r.Err? then ret == r.code
            else
              && ret == r.cur && 0 < ret <= |text|
              && (n > 0 ==>
                    tokens[..Total(r)] == FlattenAll(r.kids)
                    && tokens[Total(r)].kind == Eof && tokens[Total(r)].ptr == ret)
    ensures ret == INVALID ==> forall c :: !ParseText(text + c).Ok?
    ensures ret == INCOMPLETE ==>
              ((exists c :: ParseText(text + c).Ok?) <==> !JsonErrors.BadCut(text, ParseText(text).at))
    ensures (exists c :: ParseText(text + c).Ok? && ParseText(text + c).cur > |text|) ==> ret == INCOMPLETE || ret == TOO_SMALL
  {
    hide ParseObject, FlattenAll, JsonErrors.BadCut;
    AnswerMeans(text);
    var frozen := new Frozen(text, tokens);
    ret := frozen.DoIt();
    if ret >= 0 {
      ret := frozen.cur;
    }
  }
}
