/** The option list of a CoAP message, `ns_coap_add_option` of examples/fossa/fossa.c. */
module CoapOptions {
  import opened Bytes

  datatype Opt = Opt(number: u32, value: seq<byte>)

  // ---- Inserting as a function ----------------------------------------------------------------

  /** The first option with a larger number, or the end. */
  function FirstAbove(list: seq<Opt>, number: u32): (k: nat)
    ensures k <= |list| && (k < |list| ==> list[k].number > number)
    ensures forall i :: 0 <= i < k ==> list[i].number <= number
  {
    if list == [] || list[0].number > number then 0
    else
      assert forall i :: 1 <= i < |list| ==> list[i] == list[1..][i - 1];
      1 + FirstAbove(list[1..], number)
  }

  /** At the end if that is in order already, else in front of the first larger one. */
  function Inserted(list: seq<Opt>, o: Opt): seq<Opt> {
    if list == [] || list[|list| - 1].number <= o.number then list + [o]
    else
      var k := FirstAbove(list, o.number);
      list[..k] + [o] + list[k..]
  }

  /** The list after adding `added` in turn. */
  function Built(added: seq<Opt>): seq<Opt> {
    if added == [] then [] else Inserted(Built(added[..|added| - 1]), added[|added| - 1])
  }

  // ---- Stable sorting ---------------------------------------------------------------------------

  ghost predicate Sorted(list: seq<Opt>) {
    forall i, j :: 0 <= i < j < |list| ==> list[i].number <= list[j].number
  }

  /** The options with a given number, in order. */
  ghost function WithNumber(list: seq<Opt>, number: u32): seq<Opt> {
    if list == [] then []
    else (if list[0].number == number then [list[0]] else []) + WithNumber(list[1..], number)
  }

  /** `sorted` holds the options of `list` by number, equal numbers in their old order. */
  ghost predicate IsStableSort(list: seq<Opt>, sorted: seq<Opt>) {
    Sorted(sorted) && forall n: u32 :: WithNumber(sorted, n) == WithNumber(list, n)
  }

  lemma {:induction false} WithNumberConcat(a: seq<Opt>, b: seq<Opt>, n: u32)
    ensures WithNumber(a + b, n) == WithNumber(a, n) + WithNumber(b, n)
  {
    if a == [] {
      assert a + b == b;
    } else {
      WithNumberConcat(a[1..], b, n);
      assert (a + b)[1..] == a[1..] + b && (a + b)[0] == a[0];
      var first, r, t := if a[0].number == n then [a[0]] else [], WithNumber(a[1..], n), WithNumber(b, n);
      assert first + (r + t) == first + r + t;
    }
  }

  lemma {:induction false} WithNumberNone(a: seq<Opt>, n: u32)
    requires forall i :: 0 <= i < |a| ==> a[i].number != n
    ensures WithNumber(a, n) == []
  {
    if a != [] {
      WithNumberNone(a[1..], n);
    }
  }

  lemma InsertedSorted(list: seq<Opt>, o: Opt)
    requires Sorted(list)
    ensures Sorted(Inserted(list, o))
  {
    hide FirstAbove;
  }

  /** Inserting puts the option behind those of its number. */
  lemma InsertedBehind(list: seq<Opt>, o: Opt, n: u32)
    requires Sorted(list)
    ensures WithNumber(Inserted(list, o), n) == WithNumber(list + [o], n)
  {
    hide WithNumber, FirstAbove;
    var k := FirstAbove(list, o.number);
    if list != [] && list[|list| - 1].number > o.number {
      var a, b := list[..k], list[k..];
      assert list == a + b;
      WithNumberConcat(a + [o], b, n);
      WithNumberConcat(a, [o], n);
      WithNumberConcat(list, [o], n);
      WithNumberConcat(a, b, n);
      if n == o.number {
        WithNumberNone(b, n);
      } else {
        WithNumberNone([o], n);
      }
      assert WithNumber(a, n) + WithNumber([o], n) + WithNumber(b, n)
          == WithNumber(a, n) + WithNumber(b, n) + WithNumber([o], n);
    }
  }

  /** Whatever the options and their order, the list is their stable sort by number. */
  lemma {:induction false} BuiltIsStableSort(added: seq<Opt>)
    ensures IsStableSort(added, Built(added))
  {
    if added != [] {
      var before, o := added[..|added| - 1], added[|added| - 1];
      BuiltIsStableSort(before);
      InsertedSorted(Built(before), o);
      assert added == before + [o];
      forall n: u32
        ensures WithNumber(Built(added), n) == WithNumber(added, n)
      {
        InsertedBehind(Built(before), o, n);
        WithNumberConcat(Built(before), [o], n);
        WithNumberConcat(before, [o], n);
      }
    }
  }

  /** There is only one stable sort. */
  lemma {:induction false} StableSortIsUnique(a: seq<Opt>, b: seq<Opt>)
    requires Sorted(a) && Sorted(b) && forall n: u32 :: WithNumber(a, n) == WithNumber(b, n)
    ensures a == b
    decreases |a|
  {
    assert b != [] ==> WithNumber(a, b[0].number) == WithNumber(b, b[0].number) != [];
    if a != [] {
      assert WithNumber(a, a[0].number) == WithNumber(b, a[0].number);
      if b == [] || b[0].number > a[0].number {
        WithNumberNone(b, a[0].number);
      } else if b[0].number < a[0].number {
        WithNumberNone(a, b[0].number);
      } else {
        forall n: u32
          ensures WithNumber(a[1..], n) == WithNumber(b[1..], n)
        {
          assert WithNumber(a, n) == WithNumber(b, n);
          assert WithNumber(a[1..], n) == if n == a[0].number then WithNumber(a, n)[1..] else WithNumber(a, n);
          assert WithNumber(b[1..], n) == if n == a[0].number then WithNumber(b, n)[1..] else WithNumber(b, n);
        }
        StableSortIsUnique(a[1..], b[1..]);
        assert WithNumber(a, a[0].number)[0] == a[0] && WithNumber(b, a[0].number)[0] == b[0];
        assert a == [a[0]] + a[1..] && b == [b[0]] + b[1..];
      }
    }
  }

  /** Options that come in order stay as they come. */
  lemma {:induction false} BuiltInOrder(added: seq<Opt>)
    requires Sorted(added)
    ensures Built(added) == added
  {
    if added != [] {
      BuiltInOrder(added[..|added| - 1]);
    }
  }

  // ---- The linked list --------------------------------------------------------------------------

  /** `struct ns_coap_option`. */
  class Node {
    const number: u32
    const value: seq<byte>
    var next: Node?

    constructor (number: u32, value: seq<byte>)
      ensures this.number == number && this.value == value && next == null
    {
      this.number, this.value, next := number, value, null;
    }
  }

  /** The `options` and `options_tail` fields of a message. */
  class OptionList {
    var options: Node?
    var tail: Node?
    ghost var nodes: seq<Node>

    ghost predicate Valid()
      reads this, nodes
    {
      && (forall i, j :: 0 <= i < j < |nodes| ==> nodes[i] != nodes[j])
      && (nodes == [] ==> options == null)
      && (nodes != [] ==> options == nodes[0] && tail == nodes[|nodes| - 1])
      && (forall i {:trigger nodes[i].next} :: 0 <= i < |nodes| - 1 ==> nodes[i].next == nodes[i + 1])
      && (nodes != [] ==> nodes[|nodes| - 1].next == null)
    }

    ghost function Contents(): seq<Opt>
      reads this
    {
      OptsOf(nodes)
    }

    constructor ()
      ensures Valid() && Contents() == [] && nodes == []
    {
      options, tail, nodes := null, null, [];
    }

    /** `ns_coap_free_options`; the tail pointer is left as it is. */
    method Free()
      modifies this`options, this`nodes
      ensures Valid() && Contents() == [] && nodes == []
    {
      options, nodes := null, [];
    }

    /** `ns_coap_add_option`. */
    method Add(number: u32, value: seq<byte>) returns (added: Node, ghost k: nat)
      requires Valid()
      modifies this, nodes
      ensures Valid() && fresh(added) && added.number == number && added.value == value
      ensures Contents() == Inserted(old(Contents()), Opt(number, value))
      ensures k <= |old(nodes)| && nodes == old(nodes)[..k] + [added] + old(nodes)[k..]
    {
      hide FirstAbove, OptsOf, Valid;
      Ends();
      added := new Node(number, value);
      k := |nodes|;
      ghost var was, list := nodes, Contents();
      OptsOfNodes(was);
      if options == null {
        First(added);
      } else if tail.number <= number {
        Append(added);
      } else {
        var previous, current;
        previous, current, k := FindPlace(number);
        FirstAboveIs(list, number, k);
        Link(previous, added, current, k);
      }
      assert was[..k] + [added] + was[k..] == nodes;
      OptsOfInsert(was, k, added);
    }

    lemma Ends()
      requires Valid()
      ensures options == null <==> nodes == []
      ensures nodes != [] ==> tail != null && tail == nodes[|nodes| - 1]
    {
    }

    /** `cm->options = cm->options_tail = new_option`. */
    method First(added: Node)
      requires Valid() && nodes == [] && added.next == null
      modifies this
      ensures Valid() && nodes == [added]
    {
      options, tail := added, added;
      nodes := [added];
    }

    /** `cm->options_tail = cm->options_tail->next = new_option`. */
    method Append(added: Node)
      requires Valid() && nodes != [] && added !in nodes && added.next == null
      modifies this`tail, this`nodes, nodes
      ensures Valid() && nodes == old(nodes) + [added]
    {
      tail.next := added;
      tail := added;
      nodes := nodes + [added];
    }

    /** The new option goes between two neighbours, or to the front. */
    method Link(previous: Node?, added: Node, current: Node, ghost k: nat)
      requires Valid() && k < |nodes| && current == nodes[k] && added !in nodes
      requires previous == if k == 0 then null else nodes[k - 1]
      modifies this`options, this`nodes, nodes, added
      ensures Valid() && nodes == old(nodes)[..k] + [added] + old(nodes)[k..]
    {
      if previous != null {
        previous.next := added;
        added.next := current;
      } else {
        added.next := options;
        options := added;
      }
      nodes := nodes[..k] + [added] + nodes[k..];
    }

    /** The search loop of `ns_coap_add_option`: the first node with a larger number, and the one before. */
    method FindPlace(number: u32) returns (previous: Node?, current: Node?, ghost k: nat)
      requires Valid() && nodes != [] && tail.number > number
      ensures k < |nodes| && current == nodes[k] && previous == if k == 0 then null else nodes[k - 1]
      ensures nodes[k].number > number && forall i :: 0 <= i < k ==> nodes[i].number <= number
    {
      current, previous := options, null;
      k := 0;
      while current != null
        invariant k <= |nodes| && current == if k < |nodes| then nodes[k] else null
        invariant previous == if k == 0 then null else nodes[k - 1]
        invariant forall i :: 0 <= i < k ==> nodes[i].number <= number
        decreases |nodes| - k
      {
        if current.number > number {
          break;
        }
        previous := current;
        current := current.next;
        k := k + 1;
      }
    }
  }

  /** The options that a sequence of nodes holds; a node never changes its own. */
  ghost function OptsOf(nodes: seq<Node>): (s: seq<Opt>)
  {
    seq(|nodes|, i requires 0 <= i < |nodes| => Opt(nodes[i].number, nodes[i].value))
  }

  lemma OptsOfNodes(nodes: seq<Node>)
    ensures |OptsOf(nodes)| == |nodes|
    ensures forall i :: 0 <= i < |nodes| ==> OptsOf(nodes)[i] == Opt(nodes[i].number, nodes[i].value)
  {
  }

  lemma OptsOfInsert(nodes: seq<Node>, k: nat, added: Node)
    requires k <= |nodes|
    ensures OptsOf(nodes[..k] + [added] + nodes[k..])
         == OptsOf(nodes)[..k] + [Opt(added.number, added.value)] + OptsOf(nodes)[k..]
  {
  }

  lemma FirstAboveIs(list: seq<Opt>, number: u32, k: nat)
    requires k < |list| && list[k].number > number && forall i :: 0 <= i < k ==> list[i].number <= number
    ensures FirstAbove(list, number) == k
  {
  }
}
