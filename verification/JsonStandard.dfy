/** The standard JSON objects (RFC 8259) among the texts of the dialect. */
module JsonStandard {
  import opened Bytes
  import opened JsonTree
  import opened JsonText

  /** As in the standard, but for bare keys and leading zeros: a comma between any two, and none behind the last. */
  predicate Standard(v: Value)
    decreases v, 0
  {
    match v
    case Number(n) => n.Valid()
    case Text(chars) => AllValid(chars)
    case List(items, inner) => IsBlank(inner) && StandardItems(items)
    case Record(members, inner) => IsBlank(inner) && StandardMembers(members)
    case _ => true
  }

  predicate StandardItem(i: Item)
    decreases i, 1
  {
    IsBlank(i.before) && Standard(i.value) && IsBlank(i.after)
  }

  predicate StandardItems(items: seq<Item>)
    decreases items, 2
  {
    items != [] ==> StandardItem(items[0]) && items[0].comma == (|items| > 1) && StandardItems(items[1..])
  }

  predicate StandardMembers(members: seq<Member>)
    decreases members, 3
  {
    members != [] ==>
      && IsBlank(members[0].before) && members[0].key.Valid() && IsBlank(members[0].behind)
      && StandardItem(members[0].item) && members[0].item.comma == (|members| > 1) && StandardMembers(members[1..])
  }

  predicate IsEnd(c: byte) { IsSpace(c) || c == COMMA || c == CLOSE_BRACKET || c == CLOSE_BRACE }

  lemma EndFits(v: Value, c: byte)
    requires IsEnd(c)
    ensures Fits(v, c)
  {
  }

  lemma {:induction false} StandardIsValid(v: Value)
    requires Standard(v)
    ensures Valid(v)
    decreases v, 0
  {
    hide IsBlank;
    match v
    case List(items, inner) => StandardItemsValid(items, inner);
    case Record(members, inner) => StandardMembersValid(members, inner);
    case _ =>
  }

  lemma {:induction false} StandardItemValid(i: Item, next: byte)
    requires StandardItem(i) && (i.comma || IsEnd(next))
    ensures ValidItem(i, next)
    decreases i, 1
  {
    hide Standard, Valid, Fits;
    StandardIsValid(i.value);
    EndFits(i.value, (i.after + CommaText(i.comma) + [next])[0]);
  }

  lemma {:induction false} StandardItemsValid(items: seq<Item>, inner: seq<byte>)
    requires StandardItems(items) && IsBlank(inner)
    ensures ValidItems(items, inner)
    decreases items, 2
  {
    hide StandardItem, ValidItem, IsBlank, ItemText;
    if items != [] {
      var rest := ItemsText(items[1..], inner);
      if |items| == 1 {
        BlankEnds(inner, CLOSE_BRACKET);
      }
      StandardItemValid(items[0], (rest + [CLOSE_BRACKET])[0]);
      StandardItemsValid(items[1..], inner);
    }
  }

  lemma BlankEnds(inner: seq<byte>, close: byte)
    requires IsBlank(inner) && IsEnd(close)
    ensures IsEnd((inner + [close])[0])
  {
  }

  lemma {:induction false} StandardMembersValid(members: seq<Member>, inner: seq<byte>)
    requires StandardMembers(members) && IsBlank(inner)
    ensures ValidMembers(members, inner)
    decreases members, 3
  {
    hide StandardItem, ValidItem, IsBlank, MemberText, Key.Valid;
    if members != [] {
      var rest := MembersText(members[1..], inner);
      if |members| == 1 {
        BlankEnds(inner, CLOSE_BRACE);
      }
      StandardItemValid(members[0].item, (rest + [CLOSE_BRACE])[0]);
      StandardMembersValid(members[1..], inner);
    }
  }

  /**
   * Every standard JSON object, with any white space and whatever stands behind it, is
   * accepted; the parser reads exactly its text and finds exactly its tree.
   */
  lemma StandardTextIsAccepted(v: Value, before: seq<byte>, tail: seq<byte>)
    requires v.Record? && Standard(v) && IsBlank(before)
    ensures ParseText(before + TextOf(v) + tail) == Ok([TreeOf(v, |before|)], |before| + |TextOf(v)|)
  {
    hide TextOf, TreeOf, ParseText, Standard, Valid, IsBlank, At;
    AtFront(before, TextOf(v), tail);
    StandardIsValid(v);
    WrittenIsAccepted(before + TextOf(v) + tail, before, v, TreeOf(v, |before|), |before| + |TextOf(v)|);
  }
}
