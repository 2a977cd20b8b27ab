/** The shape of what the JSON parser produces: a well-nested preorder forest. */
module JsonNesting {
  import opened Bytes
  import opened JsonTree

  // ---- Trees ------------------------------------------------------------------------------------

  /** Where the next token can start. */
  function After(t: Tree): nat { if t.len > 0 then t.ptr + t.len else t.ptr + 1 }

  /** The children lie between the delimiters of their parent. */
  ghost predicate Inside(t: Tree)
    decreases t, 0
  {
    t.kids != [] ==> t.len >= 2 && Spaced(t.kids, t.ptr + 1, t.ptr + t.len - 1)
  }

  /** Trees one behind the other, from `lo` to `hi`. */
  ghost predicate Spaced(ts: seq<Tree>, lo: nat, hi: nat)
    decreases ts, 1
  {
    if ts == [] then lo <= hi
    else lo <= ts[0].ptr && Inside(ts[0]) && Spaced(ts[1..], After(ts[0]), hi)
  }

  /** Objects hold keys and values in turn, other values than containers hold nothing, all within `n` bytes. */
  ghost predicate Shaped(n: nat, t: Tree)
    decreases t, 0
  {
    && t.ptr + t.len <= n
    && (t.kind == Object ==> Keyed(t.kids))
    && (t.kind != Object && t.kind != Array ==> t.kids == [])
    && ShapedAll(n, t.kids)
  }

  ghost predicate ShapedAll(n: nat, ts: seq<Tree>)
    decreases ts, 1
  {
    ts != [] ==> Shaped(n, ts[0]) && ShapedAll(n, ts[1..])
  }

  /** Keys at the even places. */
  ghost predicate Keyed(kids: seq<Tree>) {
    if kids == [] then true
    else |kids| >= 2 && kids[0].kind == String && kids[0].kids == [] && Keyed(kids[2..])
  }

  lemma {:induction false} SpacedWeaken(ts: seq<Tree>, lo: nat, lo': nat, hi: nat)
    requires Spaced(ts, lo, hi) && lo' <= lo
    ensures Spaced(ts, lo', hi)
  {
  }

  lemma {:induction false} SpacedConcat(a: seq<Tree>, b: seq<Tree>, lo: nat, mid: nat, hi: nat)
    requires Spaced(a, lo, mid) && Spaced(b, mid, hi)
    ensures Spaced(a + b, lo, hi)
    decreases |a|
  {
    hide Inside;
    if a == [] {
      assert a + b == b;
      SpacedWeaken(b, mid, lo, hi);
    } else {
      assert (a + b)[1..] == a[1..] + b && (a + b)[0] == a[0];
      SpacedConcat(a[1..], b, After(a[0]), mid, hi);
    }
  }

  lemma {:induction false} ShapedConcat(n: nat, a: seq<Tree>, b: seq<Tree>)
    requires ShapedAll(n, a) && ShapedAll(n, b)
    ensures ShapedAll(n, a + b)
    decreases |a|
  {
    hide Shaped;
    if a == [] {
      assert a + b == b;
    } else {
      assert (a + b)[1..] == a[1..] + b && (a + b)[0] == a[0];
      ShapedConcat(n, a[1..], b);
    }
  }

  // ---- What the parser produces -------------------------------------------------------------------

  /** The outcome of a parse from `p`: if it succeeds, its trees are spaced and shaped. */
  ghost predicate Nested(b: seq<byte>, p: nat, r: Parse) {
    r.Ok? ==> Spaced(r.kids, p, r.cur) && ShapedAll(|b|, r.kids)
  }

  lemma LeafNested(b: seq<byte>, p: nat, kind: Kind, ptr: nat, scan: Scan, skip: nat)
    requires p <= ptr && kind != Object && kind != Array
    requires scan.End? ==> ptr <= scan.pos <= |b| && ptr < scan.pos + skip
    ensures Nested(b, p, Leaf(kind, ptr, scan, skip))
  {
    if scan.End? {
      var t := Node(kind, ptr, scan.pos - ptr, []);
      assert [t][1..] == [];
      assert Inside(t) && Shaped(|b|, t);
    }
  }

  lemma CloseNested(b: seq<byte>, p: nat, kind: Kind, q: nat, r: Parse)
    requires p <= q && Nested(b, q + 1, r) && (r.Ok? ==> q < r.cur < |b|)
    requires kind == Array || (kind == Object && (r.Ok? ==> Keyed(r.kids)))
    ensures Nested(b, p, Close(kind, q, r))
  {
    if r.Ok? {
      var t := Node(kind, q, r.cur + 1 - q, r.kids);
      assert [t][1..] == [];
      assert Inside(t) && Shaped(|b|, t);
    }
  }

  lemma ThenNested(b: seq<byte>, p: nat, first: seq<Tree>, mid: nat, q: nat, r: Parse)
    requires Spaced(first, p, mid) && ShapedAll(|b|, first) && mid <= q && Nested(b, q, r)
    ensures Nested(b, p, Then(first, r))
  {
    hide Spaced, ShapedAll;
    if r.Ok? {
      SpacedWeaken(r.kids, q, mid, r.cur);
      SpacedConcat(first, r.kids, p, mid, r.cur);
      ShapedConcat(|b|, first, r.kids);
    }
  }

  lemma StringNested(b: seq<byte>, p: nat)
    requires p <= |b|
    ensures Nested(b, p, ParseString(b, p)) && OneKey(ParseString(b, p))
  {
    hide Nested;
    if Peek(b, p) == QUOTE {
      var q := SkipSpaces(b, p) + 1;
      LeafNested(b, p, String, q, ScanString(b, q), 1);
    } else {
      ErrNested(b, p, ParseString(b, p));
    }
  }

  lemma ErrNested(b: seq<byte>, p: nat, r: Parse)
    requires r.Err?
    ensures Nested(b, p, r)
  {
  }

  /** A parsed key is a single string token. */
  ghost predicate OneKey(r: Parse) {
    r.Ok? ==> |r.kids| == 1 && r.kids[0].kind == String && r.kids[0].kids == []
  }

  lemma KeyNested(b: seq<byte>, p: nat)
    requires p <= |b|
    ensures Nested(b, p, ParseKey(b, p)) && OneKey(ParseKey(b, p))
  {
    hide Nested;
    var c, q := Peek(b, p), SkipSpaces(b, p);
    if IsAlpha(c) {
      LeafNested(b, p, String, q, End(ScanIdentifier(b, q)), 0);
    } else if c == QUOTE {
      StringNested(b, p);
    } else {
      ErrNested(b, p, ParseKey(b, p));
    }
  }

  lemma {:induction false} ValueNested(b: seq<byte>, p: nat)
    requires p <= |b|
    ensures Nested(b, p, ParseValue(b, p))
    decreases |b| - p, 1
  {
    hide Nested, ScanNumber, ScanWord, ParseString, ParseObject, ParseArray;
    var c, q := Peek(b, p), SkipSpaces(b, p);
    if c == QUOTE {
      StringNested(b, p);
    } else if c == OPEN_BRACE {
      ObjectNested(b, p);
    } else if c == OPEN_BRACKET {
      ArrayNested(b, p);
    } else if c == 110 {
      LeafNested(b, p, Null, q, ScanWord(b, q, NULL_WORD, 0), 0);
    } else if c == 116 {
      LeafNested(b, p, True, q, ScanWord(b, q, TRUE_WORD, 0), 0);
    } else if c == 102 {
      LeafNested(b, p, False, q, ScanWord(b, q, FALSE_WORD, 0), 0);
    } else if c == MINUS || IsDigit(c) {
      LeafNested(b, p, Number, q, ScanNumber(b, q), 0);
    } else {
      ErrNested(b, p, ParseValue(b, p));
    }
  }

  lemma {:induction false} ArrayNested(b: seq<byte>, p: nat)
    requires p <= |b|
    ensures Nested(b, p, ParseArray(b, p))
    decreases |b| - p, 0
  {
    hide Nested, ParseElements;
    if Peek(b, p) == OPEN_BRACKET {
      var q := SkipSpaces(b, p);
      ElementsNested(b, q + 1);
      CloseNested(b, p, Array, q, ParseElements(b, q + 1));
    } else {
      ErrNested(b, p, ParseArray(b, p));
    }
  }

  lemma {:induction false} ElementsNested(b: seq<byte>, p: nat)
    requires p <= |b|
    ensures Nested(b, p, ParseElements(b, p))
    decreases |b| - p, 2
  {
    hide ParseValue, Inside, Shaped;
    if Peek(b, p) != CLOSE_BRACKET {
      var v := ParseValue(b, p);
      ValueNested(b, p);
      if v.Ok? {
        ElementsNested(b, SkipComma(b, v.cur));
        ThenNested(b, p, v.kids, v.cur, SkipComma(b, v.cur), ParseElements(b, SkipComma(b, v.cur)));
      }
    }
  }

  lemma {:induction false} PairNested(b: seq<byte>, p: nat)
    requires p <= |b|
    ensures Nested(b, p, ParsePair(b, p))
    ensures ParsePair(b, p).Ok? ==> Keyed(ParsePair(b, p).kids)
    decreases |b| - p, 2
  {
    hide ParseValue, ParseKey, Inside, Shaped, Spaced, ShapedAll;
    var k := ParseKey(b, p);
    KeyNested(b, p);
    if k.Ok? && Peek(b, k.cur) == COLON {
      var q := SkipSpaces(b, k.cur) + 1;
      ValueNested(b, q);
      ThenNested(b, p, k.kids, k.cur, q, ParseValue(b, q));
      if ParsePair(b, p).Ok? {
        assert ParsePair(b, p).kids[2..] == [];
      }
    }
  }

  lemma {:induction false} ObjectNested(b: seq<byte>, p: nat)
    requires p <= |b|
    ensures Nested(b, p, ParseObject(b, p))
    decreases |b| - p, 0
  {
    hide Nested, ParseMembers;
    if Peek(b, p) == OPEN_BRACE {
      var q := SkipSpaces(b, p);
      MembersNested(b, q + 1);
      CloseNested(b, p, Object, q, ParseMembers(b, q + 1));
    } else {
      ErrNested(b, p, ParseObject(b, p));
    }
  }

  lemma {:induction false} MembersNested(b: seq<byte>, p: nat)
    requires p <= |b|
    ensures Nested(b, p, ParseMembers(b, p))
    ensures ParseMembers(b, p).Ok? ==> Keyed(ParseMembers(b, p).kids)
    decreases |b| - p, 3
  {
    hide ParsePair, Inside, Shaped;
    if Peek(b, p) != CLOSE_BRACE {
      var v := ParsePair(b, p);
      PairNested(b, p);
      if v.Ok? {
        var q := SkipComma(b, v.cur);
        MembersNested(b, q);
        ThenNested(b, p, v.kids, v.cur, q, ParseMembers(b, q));
        var r := ParseMembers(b, p);
        if r.Ok? {
          assert r.kids[2..] == ParseMembers(b, q).kids && r.kids[0] == v.kids[0];
        }
      }
    }
  }

  // ---- The flat array -------------------------------------------------------------------------------

  /** How two tokens of the array, the first before the second, lie to each other in the text. */
  ghost predicate Related(f: seq<Token>, i: nat, j: nat)
    requires i < j < |f|
  {
    && f[i].ptr < f[j].ptr
    && if j <= i + f[i].numDesc then
         f[j].ptr + f[j].len <= f[i].ptr + f[i].len && j + f[j].numDesc <= i + f[i].numDesc
       else f[i].ptr + f[i].len <= f[j].ptr
  }

  /** A token between `lo` and `hi` whose descendants lie within the array. */
  ghost predicate Placed(f: seq<Token>, i: nat, lo: nat, hi: nat)
    requires i < |f|
  {
    && 0 <= f[i].len && 0 <= f[i].numDesc && i + f[i].numDesc < |f|
    && lo <= f[i].ptr < hi && f[i].ptr + f[i].len <= hi
  }

  /**
   * A well-nested preorder forest: descendants lie inside their ancestor, in the text and in
   * the array, and everything behind them lies behind it; starts are strictly increasing.
   */
  ghost predicate WellNested(f: seq<Token>, lo: nat, hi: nat) {
    && (forall i :: 0 <= i < |f| ==> Placed(f, i, lo, hi))
    && (forall i, j :: 0 <= i < j < |f| ==> Related(f, i, j))
  }

  lemma WellNestedConcat(a: seq<Token>, b: seq<Token>, lo: nat, mid: nat, hi: nat)
    requires WellNested(a, lo, mid) && WellNested(b, mid, hi) && lo <= mid <= hi
    ensures WellNested(a + b, lo, hi)
  {
    var f, n := a + b, |a|;
    forall i | 0 <= i < |f|
      ensures Placed(f, i, lo, hi)
    {
      assert if i < n then Placed(a, i, lo, mid) else Placed(b, i - n, mid, hi);
    }
    forall i, j | 0 <= i < j < |f|
      ensures Related(f, i, j)
    {
      if j < n {
        assert Related(a, i, j);
      } else if i >= n {
        assert Related(b, i - n, j - n);
      } else {
        assert Placed(a, i, lo, mid) && Placed(b, j - n, mid, hi);
      }
    }
  }

  lemma WellNestedUnder(root: Token, below: seq<Token>)
    requires root.len >= 0 && root.numDesc == |below|
    requires below != [] ==> root.len >= 2 && WellNested(below, root.ptr + 1, root.ptr + root.len - 1)
    ensures WellNested([root] + below, root.ptr, if root.len > 0 then root.ptr + root.len else root.ptr + 1)
  {
    var f := [root] + below;
    var hi := if root.len > 0 then root.ptr + root.len else root.ptr + 1;
    forall i | 0 <= i < |f|
      ensures Placed(f, i, root.ptr, hi)
    {
      assert i > 0 ==> Placed(below, i - 1, root.ptr + 1, root.ptr + root.len - 1);
    }
    forall i, j | 0 <= i < j < |f|
      ensures Related(f, i, j)
    {
      if i > 0 {
        assert Related(below, i - 1, j - 1);
      } else {
        assert Placed(below, j - 1, root.ptr + 1, root.ptr + root.len - 1);
      }
    }
  }

  lemma {:induction false} FlatTree(t: Tree)
    requires Inside(t)
    ensures WellNested(Flatten(t), t.ptr, After(t))
    decreases t, 0
  {
    hide WellNested;
    if t.kids != [] {
      FlatForest(t.kids, t.ptr + 1, t.ptr + t.len - 1);
    }
    WellNestedUnder(Flatten(t)[0], FlattenAll(t.kids));
  }

  lemma {:induction false} FlatForest(ts: seq<Tree>, lo: nat, hi: nat)
    requires Spaced(ts, lo, hi)
    ensures WellNested(FlattenAll(ts), lo, hi)
    decreases ts, 1
  {
    hide Flatten;
    if ts != [] {
      hide WellNested, Inside;
      FlatTree(ts[0]);
      FlatForest(ts[1..], After(ts[0]), hi);
      WellNestedWeaken(Flatten(ts[0]), ts[0].ptr, lo, After(ts[0]));
      SpacedOrder(ts[1..], After(ts[0]), hi);
      WellNestedConcat(Flatten(ts[0]), FlattenAll(ts[1..]), lo, After(ts[0]), hi);
    }
  }

  lemma WellNestedWeaken(f: seq<Token>, lo: nat, lo': nat, hi: nat)
    requires WellNested(f, lo, hi) && lo' <= lo
    ensures WellNested(f, lo', hi)
  {
    forall i | 0 <= i < |f|
      ensures Placed(f, i, lo', hi)
    {
      assert Placed(f, i, lo, hi);
    }
  }

  lemma {:induction false} SpacedOrder(ts: seq<Tree>, lo: nat, hi: nat)
    requires Spaced(ts, lo, hi)
    ensures lo <= hi
    decreases |ts|
  {
    hide Inside;
    if ts != [] {
      SpacedOrder(ts[1..], After(ts[0]), hi);
    }
  }

  /**
   * Every accepted text parses into a forest whose flat token array is well nested and stays
   * within the part of the text that was read.
   */
  lemma AcceptedIsWellNested(b: seq<byte>)
    requires ParseText(b).Ok?
    ensures WellNested(FlattenAll(ParseText(b).kids), 0, ParseText(b).cur) && ParseText(b).cur <= |b|
    ensures ShapedAll(|b|, ParseText(b).kids)
  {
    hide WellNested, ParseObject, Inside, Shaped;
    ObjectNested(b, 0);
    FlatForest(ParseText(b).kids, 0, ParseText(b).cur);
  }
}
