/** A text and a path on which `find_json_token` of examples/fossa/fossa.c leaves the range of its `int` index. */
module JsonOverflow {
  import opened Bytes
  import opened Wrappers
  import opened JsonTree
  import opened JsonNesting
  import opened JsonLookup
  import JsonText
  import JsonStandard

  /** `[4294967296]`, and `[0]`. */
  const BIG: seq<byte> := [91, 52, 50, 57, 52, 57, 54, 55, 50, 57, 54, 93]
  const ZERO: seq<byte> := [91, 48, 93]

  lemma ReadDigit(p: seq<byte>, n: nat, value: nat)
    requires n < |p| && IsDigit(p[n])
    ensures var more := value * 10 + (p[n] as int - 48);
            ReadIndex(p, n, value) == ReadIndex(p, n + 1, more)
            && (Overruns(p, n, value) <==> more > INT_MAX || Overruns(p, n + 1, more))
  {
  }

  lemma HalfIsRead()
    ensures ReadIndex(BIG, 1, 0) == ReadIndex(BIG, 6, 42949) && (Overruns(BIG, 1, 0) <==> Overruns(BIG, 6, 42949))
  {
    hide ReadIndex, Overruns;
    ReadDigit(BIG, 1, 0);
    ReadDigit(BIG, 2, 4);
    ReadDigit(BIG, 3, 42);
    ReadDigit(BIG, 4, 429);
    ReadDigit(BIG, 5, 4294);
  }

  lemma BigIsRead()
    ensures BigIndex(BIG) && ReadIndex(BIG, 1, 0) == Some((4294967296, 11)) && 4294967296 % 0x1_0000_0000 == 0
  {
    hide ReadIndex, Overruns;
    HalfIsRead();
    ReadDigit(BIG, 6, 42949);
    ReadDigit(BIG, 7, 429496);
    ReadDigit(BIG, 8, 4294967);
    ReadDigit(BIG, 9, 42949672);
    ReadDigit(BIG, 10, 429496729);
    ReadLast(BIG, 11, 4294967296);
  }

  lemma ReadLast(p: seq<byte>, n: nat, value: nat)
    requires n < |p| && p[n] == CLOSE_BRACKET
    ensures ReadIndex(p, n, value) == Some((value, n))
  {
  }

  lemma ZeroIsRead()
    ensures ReadIndex(ZERO, 1, 0) == Some((0, 2)) && !BigIndex(ZERO)
  {
    assert ReadIndex(ZERO, 2, 0) == Some((0, 2));
    assert !Overruns(ZERO, 2, 0);
  }

  /** A path of a one-byte name and one index. */
  lemma NameAndIndex(name: byte, index: seq<byte>, value: nat)
    requires name != POINT && name != OPEN_BRACKET && |index| >= 3 && index[0] == OPEN_BRACKET && IsDigit(index[1])
    requires ReadIndex(index, 1, 0) == Some((value, |index| - 1))
    ensures FirstSegment([name] + index) == Some((Member([name]), index))
    ensures FirstSegment(index) == Some((Element(value), []))
  {
    var p := [name] + index;
    assert p[1..] == index && PartLength(index) == 0 && PartLength(p) == 1;
    assert p[..1] == [name];
    assert index[|index|..] == [];
  }

  /**
   * On the text {"a":[1]} plain lookup finds `a[0]` and nothing at `a[4294967296]`; there the
   * index runs over, and a two's complement `int` would be 0 again.
   */
  lemma OverflowExample(text: seq<byte>, root: Tree)
    requires text == [123, 34, 97, 34, 58, 91, 49, 93, 125]
    requires root == Node(Object, 0, 9, [Node(String, 2, 1, []), Node(Array, 5, 3, [Node(Number, 6, 1, [])])])
    ensures ParseText(text) == Ok([root], 9) && Shaped(|text|, root)
    ensures Reaches(text, root, [97] + BIG) && Lookup(text, root, [97] + BIG) == None
    ensures !Reaches(text, root, [97] + ZERO) && Lookup(text, root, [97] + ZERO) == Some(Node(Number, 6, 1, []))
  {
    hide ParseText, Shaped, Reaches, Lookup, Step, FirstSegment, ReadIndex, BigIndex;
    ExampleText(text, root);
    assert |text| == 9;
    AcceptedIsShaped(text, root);
    ExampleStep(text, root);
    BigIsRead();
    ZeroIsRead();
    NameAndIndex(97, BIG, 4294967296);
    NameAndIndex(97, ZERO, 0);
    NamedIndex(text, root, 97, BIG, 4294967296);
    NamedIndex(text, root, 97, ZERO, 0);
  }

  /** Lookup of a member that is an array, and of one of its elements. */
  lemma NamedIndex(b: seq<byte>, root: Tree, name: byte, index: seq<byte>, value: nat)
    requires Shaped(|b|, root) && root.kind == Object && Step(b, root, Member([name])) == Some(1)
    requires root.kids[1].kind == Array && index != []
    requires FirstSegment([name] + index) == Some((Member([name]), index)) && FirstSegment(index) == Some((Element(value), []))
    ensures Reaches(b, root, [name] + index) <==> BigIndex(index)
    ensures var list := root.kids[1].kids;
            Lookup(b, root, [name] + index) == if value < |list| then Some(list[value]) else None
  {
    hide FirstSegment, Shaped, MemberPlace, Lookup, BigIndex;
    ShapedKidOf(b, root, 1);
    LookupStep(b, root, [name] + index);
    LookupStep(b, root.kids[1], index);
    var list := root.kids[1];
    assert Reaches(b, root, [name] + index) == ReachesBehind(b, root, [name] + index) == Reaches(b, list, index);
    if value < |list.kids| {
      ShapedKidOf(b, list, value);
      assert !Reaches(b, list.kids[value], []);
    }
    assert !ReachesBehind(b, list, index);
  }

  lemma AcceptedIsShaped(text: seq<byte>, root: Tree)
    requires ParseText(text) == Ok([root], |text|)
    ensures Shaped(|text|, root)
  {
    hide ParseText, Shaped;
    AcceptedIsWellNested(text);
    ShapedKid(|text|, [root], 0);
  }

  lemma ExampleStep(text: seq<byte>, root: Tree)
    requires text == [123, 34, 97, 34, 58, 91, 49, 93, 125]
    requires root == Node(Object, 0, 9, [Node(String, 2, 1, []), Node(Array, 5, 3, [Node(Number, 6, 1, [])])])
    requires Shaped(|text|, root)
    ensures Step(text, root, Member([97])) == Some(1)
  {
    ShapedParts(text, root);
    assert KeyText(text, root.kids[0]) == [97];
  }

  lemma OneItem(i: JsonText.Item)
    ensures JsonText.ItemsText([i], []) == JsonText.ItemText(i)
    ensures forall p :: JsonText.ItemTrees([i], p) == JsonText.TreesOfItem(i, p)
    ensures JsonStandard.StandardItems([i]) == (JsonStandard.StandardItem(i) && !i.comma)
  {
    assert [i][1..] == [];
  }

  lemma OneMember(m: JsonText.Member)
    ensures JsonText.MembersText([m], []) == JsonText.MemberText(m)
    ensures forall p :: JsonText.MemberTrees([m], p) == JsonText.TreesOfMember(m, p)
  {
    assert [m][1..] == [];
  }

  /** The syntax tree of {"a":[1]}: the one, the array, the member and the object. */
  function SyntaxOne(): JsonText.Value { JsonText.Number(JsonText.Numeral(false, [49], [], JsonText.NoExponent)) }
  function SyntaxList(): JsonText.Value { JsonText.List([JsonText.Item([], SyntaxOne(), [], false)], []) }
  function SyntaxMember(): JsonText.Member {
    JsonText.Member([], JsonText.Quoted([JsonText.Plain(97)]), [], JsonText.Item([], SyntaxList(), [], false))
  }
  function Syntax(): JsonText.Value { JsonText.Record([SyntaxMember()], []) }

  lemma ExampleText(text: seq<byte>, root: Tree)
    requires text == [123, 34, 97, 34, 58, 91, 49, 93, 125]
    requires root == Node(Object, 0, 9, [Node(String, 2, 1, []), Node(Array, 5, 3, [Node(Number, 6, 1, [])])])
    ensures ParseText(text) == Ok([root], 9)
  {
    hide ParseText, JsonText.TextOf, JsonText.TreeOf, JsonStandard.Standard, Syntax;
    SyntaxText();
    SyntaxTree(root);
    SyntaxValid();
    assert [] + JsonText.TextOf(Syntax()) + [] == text;
    JsonStandard.StandardTextIsAccepted(Syntax(), [], []);
  }

  lemma ListText()
    ensures JsonText.TextOf(SyntaxOne()) == [49] && JsonText.TextOf(SyntaxList()) == [91, 49, 93]
  {
    OneItem(JsonText.Item([], SyntaxOne(), [], false));
    assert JsonText.TextOf(SyntaxOne()) == [49];
  }

  lemma SyntaxText()
    ensures JsonText.TextOf(Syntax()) == [123, 34, 97, 34, 58, 91, 49, 93, 125]
    ensures JsonText.MemberText(SyntaxMember()) == [34, 97, 34, 58, 91, 49, 93]
    ensures SyntaxMember().key.Text() == [34, 97, 34]
  {
    ListText();
    OneMember(SyntaxMember());
    assert JsonText.CharsText([JsonText.Plain(97)]) == [97];
    assert SyntaxMember().key.Text() == [34, 97, 34];
    assert JsonText.MemberText(SyntaxMember()) == [34, 97, 34, 58, 91, 49, 93];
  }

  lemma SyntaxTree(root: Tree)
    requires root == Node(Object, 0, 9, [Node(String, 2, 1, []), Node(Array, 5, 3, [Node(Number, 6, 1, [])])])
    ensures JsonText.TreeOf(Syntax(), 0) == root
  {
    hide JsonText.TextOf, JsonText.MemberText, JsonText.ItemText;
    ListText();
    SyntaxText();
    OneItem(JsonText.Item([], SyntaxOne(), [], false));
    OneMember(SyntaxMember());
    assert JsonText.TreeOf(SyntaxList(), 5) == root.kids[1];
    assert JsonText.CharsText([JsonText.Plain(97)]) == [97];
    assert JsonText.TreesOfItem(SyntaxMember().item, 5) == [root.kids[1]];
    assert JsonText.TreesOfMember(SyntaxMember(), 1) == root.kids;
  }

  lemma SyntaxValid()
    ensures JsonStandard.Standard(Syntax()) && Syntax().Record?
  {
    OneItem(JsonText.Item([], SyntaxOne(), [], false));
    assert JsonStandard.Standard(SyntaxOne()) && JsonStandard.Standard(SyntaxList());
    assert SyntaxMember().key.Valid() && JsonStandard.StandardItem(SyntaxMember().item);
    assert [SyntaxMember()][1..] == [];
  }
}
