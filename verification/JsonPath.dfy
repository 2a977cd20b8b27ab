/** What the paths of `find_json_token` (examples/fossa/fossa.c) mean, said without its scanner. */
module JsonPath {
  import opened Bytes
  import opened Wrappers
  import opened JsonTree
  import opened JsonNesting
  import opened JsonLookup

  // ---- Written paths ----------------------------------------------------------------------------

  function Decimal(n: nat): (d: seq<byte>)
    ensures d != [] && IsDigit(d[0])
  {
    if n < 10 then [48 + n] else Decimal(n / 10) + [48 + n % 10]
  }

  /** A name that a path can hold. */
  predicate Plain(s: Segment) {
    s.Member? ==> s.name != [] && POINT !in s.name && OPEN_BRACKET !in s.name
  }

  /** One step: a name as it is, an index in decimal between brackets. */
  function SegmentText(s: Segment): seq<byte> {
    match s
    case Member(name) => name
    case Element(index) => [OPEN_BRACKET] + Decimal(index) + [CLOSE_BRACKET]
  }

  /** The usual way to write a path: a dot in front of each name but the first. */
  function PathText(path: seq<Segment>): seq<byte>
    decreases |path|, 0
  {
    if path == [] then [] else SegmentText(path[0]) + Behind(path[1..])
  }

  function Behind(path: seq<Segment>): seq<byte>
    decreases |path|, 1
  {
    (if path != [] && path[0].Member? then [POINT] else []) + PathText(path)
  }

  // ---- Reading them back --------------------------------------------------------------------------

  /** Digits are read as the number they write; on the way `int` is left exactly if the number is too large. */
  lemma {:induction false} DigitsRead(p: seq<byte>, at: nat, n: nat)
    requires at + |Decimal(n)| <= |p| && p[at..at + |Decimal(n)|] == Decimal(n)
    ensures ReadIndex(p, at, 0) == ReadIndex(p, at + |Decimal(n)|, n)
    ensures Overruns(p, at, 0) <==> n > INT_MAX || Overruns(p, at + |Decimal(n)|, n)
  {
    var last := at + |Decimal(n)| - 1;
    assert p[last] == p[at..last + 1][last - at];
    if n >= 10 {
      var tens := Decimal(n / 10);
      assert p[at..last] == p[at..last + 1][..last - at] == tens;
      DigitsRead(p, at, n / 10);
    }
  }

  lemma {:induction false} NameRead(name: seq<byte>, rest: seq<byte>)
    requires POINT !in name && OPEN_BRACKET !in name
    requires rest != [] ==> rest[0] == POINT || rest[0] == OPEN_BRACKET
    ensures PartLength(name + rest) == |name|
  {
    if name != [] {
      assert (name + rest)[1..] == name[1..] + rest;
      NameRead(name[1..], rest);
    } else {
      assert name + rest == rest;
    }
  }

  lemma StepRead(s: Segment, rest: seq<byte>)
    requires Plain(s) && (s.Member? && rest != [] ==> rest[0] == POINT || rest[0] == OPEN_BRACKET)
    ensures var p := SegmentText(s) + rest;
            && p != [] && FirstSegment(p) == Some((s, SkipDot(rest)))
            && (BigIndex(p) <==> s.Element? && s.index > INT_MAX)
  {
    hide PartLength, ReadIndex, Overruns, Decimal;
    var p := SegmentText(s) + rest;
    match s
    case Member(name) =>
      NameRead(name, rest);
      assert p[..|name|] == name && p[|name|..] == rest;
      assert p[0] == name[0];
    case Element(index) =>
      var d := Decimal(index);
      assert p[1..1 + |d|] == d && p[1] == d[0] && p[1 + |d|] == CLOSE_BRACKET;
      assert p[2 + |d|..] == rest;
      DigitsRead(p, 1, index);
      BracketEnds(p, 1 + |d|, index);
  }

  lemma BracketEnds(p: seq<byte>, at: nat, n: nat)
    requires at < |p| && p[at] == CLOSE_BRACKET
    ensures ReadIndex(p, at, n) == Some((n, at)) && !Overruns(p, at, n)
  {
  }

  /** A written path is read as its steps, and its indices fit an `int` if and only if they are small enough. */
  lemma {:induction false} PathReadsBack(path: seq<Segment>)
    requires forall s :: s in path ==> Plain(s)
    ensures Segments(PathText(path)) == Some(path)
    ensures FitsInt(PathText(path)) <==> forall i :: 0 <= i < |path| && path[i].Element? ==> path[i].index <= INT_MAX
  {
    hide FirstSegment, BigIndex, SegmentText;
    if path != [] {
      var s, rest := path[0], path[1..];
      BehindStarts(rest);
      StepRead(s, Behind(rest));
      PathReadsBack(rest);
      assert path == [s] + rest;
    }
  }

  /** From `from` on there are only digits up to the bracket at `end`. */
  predicate Closes(p: seq<byte>, from: nat, end: nat) {
    from <= end < |p| && p[end] == CLOSE_BRACKET && forall k :: from <= k < end ==> IsDigit(p[k])
  }

  lemma {:induction false} IndexEnds(p: seq<byte>, from: nat, value: nat)
    requires from <= |p|
    ensures ReadIndex(p, from, value).Some? <==> exists end: nat :: Closes(p, from, end)
    decreases |p| - from
  {
    if from < |p| && p[from] == CLOSE_BRACKET {
      assert Closes(p, from, from);
    } else if from < |p| && IsDigit(p[from]) {
      var more := value * 10 + (p[from] as int - 48);
      IndexEnds(p, from + 1, more);
      if ReadIndex(p, from + 1, more).Some? {
        var end: nat :| Closes(p, from + 1, end);
        assert Closes(p, from, end);
      }
      if end: nat :| Closes(p, from, end) {
        assert Closes(p, from + 1, end);
      }
    }
  }

  /** A step is malformed exactly when it opens a bracket without digits, and nothing but digits, up to the closing one. */
  lemma Malformed(p: seq<byte>)
    requires p != []
    ensures FirstSegment(p).None?
       <==> p[0] == OPEN_BRACKET && !exists end: nat :: end >= 2 && Closes(p, 1, end)
  {
    hide ReadIndex;
    if p[0] == OPEN_BRACKET {
      IndexEnds(p, 1, 0);
    }
  }

  lemma BehindStarts(path: seq<Segment>)
    requires forall s :: s in path ==> Plain(s)
    ensures SkipDot(Behind(path)) == PathText(path)
    ensures var b := Behind(path); b != [] ==> b[0] == POINT || b[0] == OPEN_BRACKET
  {
    hide Decimal;
    if path != [] && path[0].Element? {
      assert Behind(path) == PathText(path) && PathText(path)[0] == OPEN_BRACKET;
    }
  }

  // ---- Members ------------------------------------------------------------------------------------

  /** Child `k` is a key with that name. */
  ghost predicate IsKey(b: seq<byte>, kids: seq<Tree>, k: nat, name: seq<byte>) {
    && k < |kids| && k % 2 == 0 && kids[k].ptr + kids[k].len <= |b|
    && KeyText(b, kids[k]) == name
  }

  /** A name leads to the child behind the first key that has it, and nowhere exactly when no key has it. */
  lemma {:induction false} FirstKey(b: seq<byte>, kids: seq<Tree>, name: seq<byte>)
    requires Keyed(kids) && ShapedAll(|b|, kids)
    ensures var r := MemberPlace(b, kids, name);
            && (r.None? <==> forall k: nat :: !IsKey(b, kids, k, name))
            && (r.Some? ==> r.value >= 1 && IsKey(b, kids, r.value - 1, name)
                            && forall k: nat :: IsKey(b, kids, k, name) ==> r.value - 1 <= k)
    decreases |kids|
  {
    hide Keyed, ShapedAll, KeyText;
    var r := MemberPlace(b, kids, name);
    if kids != [] {
      KeyAt(|b|, kids, 0);
      assert kids[0..] == kids;
      if KeyText(b, kids[0]) == name {
        assert IsKey(b, kids, 0, name);
      } else {
        FirstKey(b, kids[2..], name);
        assert forall k: nat :: IsKey(b, kids[2..], k, name) ==> IsKey(b, kids, k + 2, name);
        assert forall k: nat :: IsKey(b, kids, k, name) ==> k >= 2 && IsKey(b, kids[2..], k - 2, name);
      }
    }
  }
}
