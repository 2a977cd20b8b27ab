/** `find_json_token` of examples/fossa/fossa.c against plain lookup in the tree. */
module JsonLookup {
  import opened Bytes
  import opened Wrappers
  import opened JsonTree
  import opened JsonNesting

  // ---- Paths ------------------------------------------------------------------------------------

  datatype Segment = Member(name: seq<byte>) | Element(index: nat)

  /** `path_part_len`: the bytes before the next `.` or `[`. */
  function PartLength(p: seq<byte>): (n: nat)
    ensures n <= |p| && forall i :: 0 <= i < n ==> p[i] != POINT && p[i] != OPEN_BRACKET
    ensures n < |p| ==> p[n] == POINT || p[n] == OPEN_BRACKET
  {
    if p == [] || p[0] == POINT || p[0] == OPEN_BRACKET then 0
    else
      assert forall i :: 1 <= i < |p| ==> p[i] == p[1..][i - 1];
      1 + PartLength(p[1..])
  }

  /** The digits of an index up to the closing bracket: the value and where the bracket is. */
  function ReadIndex(p: seq<byte>, n: nat, value: nat): (r: Option<(nat, nat)>)
    requires n <= |p|
    ensures r.Some? ==> n <= r.value.1 < |p| && p[r.value.1] == CLOSE_BRACKET
    decreases |p| - n
  {
    if n == |p| then None
    else if p[n] == CLOSE_BRACKET then Some((value, n))
    else if !IsDigit(p[n]) then None
    else ReadIndex(p, n + 1, value * 10 + (p[n] as int - 48))
  }

  /** One step of a path, and the path behind it and behind the dot that may follow. */
  function FirstSegment(p: seq<byte>): (r: Option<(Segment, seq<byte>)>)
    requires p != []
    ensures r.Some? ==> |r.value.1| < |p|
  {
    if p[0] == OPEN_BRACKET then
      if |p| == 1 || !IsDigit(p[1]) then None
      else
        var index := ReadIndex(p, 1, 0);
        if index.None? then None
        else Some((Element(index.value.0), SkipDot(p[index.value.1 + 1..])))
    else
      Some((Member(p[..PartLength(p)]), SkipDot(p[PartLength(p)..])))
  }

  // ---- Indices that fit an int ------------------------------------------------------------------

  const INT_MAX := 0x7fff_ffff

  type Int = n: int | -INT_MAX - 1 <= n <= INT_MAX

  /** Reading on from place `n` with `value` read so far, some digit takes the index past INT_MAX. */
  predicate Overruns(p: seq<byte>, n: nat, value: nat)
    requires n <= |p|
    decreases |p| - n
  {
    && n < |p| && IsDigit(p[n])
    && var more := value * 10 + (p[n] as int - 48);
    more > INT_MAX || Overruns(p, n + 1, more)
  }

  /** The path starts with an index that the `int` of the C code cannot hold. */
  predicate BigIndex(p: seq<byte>) { |p| >= 2 && p[0] == OPEN_BRACKET && IsDigit(p[1]) && Overruns(p, 1, 0) }

  /** No step of the path is such an index. */
  predicate FitsInt(p: seq<byte>)
    decreases |p|
  {
    p != [] ==> !BigIndex(p) && (FirstSegment(p).Some? ==> FitsInt(FirstSegment(p).value.1))
  }

  function SkipDot(p: seq<byte>): (q: seq<byte>)
    ensures |q| <= |p| && (p != [] && p[0] == POINT ==> |q| < |p|)
  {
    if p != [] && p[0] == POINT then p[1..] else p
  }

  /** A path as the steps it stands for; None if some step is malformed. */
  function Segments(p: seq<byte>): Option<seq<Segment>>
    decreases |p|
  {
    if p == [] then Some([])
    else
      var first := FirstSegment(p);
      if first.None? then None
      else
        var rest := Segments(first.value.1);
        if rest.None? then None else Some([first.value.0] + rest.value)
  }

  // ---- Lookup in the tree ---------------------------------------------------------------------------

  /** The raw bytes of a key. */
  function KeyText(b: seq<byte>, t: Tree): seq<byte>
    requires t.ptr + t.len <= |b|
  {
    b[t.ptr..t.ptr + t.len]
  }

  /** The place of the value behind the first key with that name. */
  ghost function MemberPlace(b: seq<byte>, kids: seq<Tree>, name: seq<byte>): (r: Option<nat>)
    requires Keyed(kids) && ShapedAll(|b|, kids)
    ensures r.Some? ==> r.value < |kids|
  {
    if kids == [] then None
    else
      KeyAt(|b|, kids, 0);
      if KeyText(b, kids[0]) == name then Some(1)
      else
        var r := MemberPlace(b, kids[2..], name);
        if r.None? then None else Some(2 + r.value)
  }

  /** The child a step leads to. */
  ghost function Step(b: seq<byte>, t: Tree, s: Segment): (r: Option<nat>)
    requires Shaped(|b|, t)
    ensures r.Some? ==> r.value < |t.kids|
  {
    match s
    case Member(name) => if t.kind == Object then MemberPlace(b, t.kids, name) else None
    case Element(index) => if t.kind == Array && index < |t.kids| then Some(index) else None
  }

  lemma {:induction false} ShapedKid(n: nat, ts: seq<Tree>, k: nat)
    requires ShapedAll(n, ts) && k < |ts|
    ensures Shaped(n, ts[k])
  {
    if k > 0 {
      ShapedKid(n, ts[1..], k - 1);
    }
  }

  /** Plain lookup: step by step down the tree. */
  ghost function Walk(b: seq<byte>, t: Tree, path: seq<Segment>): Option<Tree>
    requires Shaped(|b|, t)
    decreases |path|
  {
    if path == [] then Some(t)
    else
      var k := Step(b, t, path[0]);
      if k.None? then None
      else
        ShapedKid(|b|, t.kids, k.value);
        Walk(b, t.kids[k.value], path[1..])
  }

  /** What `find_json_token` looks for; an empty path names nothing. */
  ghost function Lookup(b: seq<byte>, t: Tree, path: seq<byte>): Option<Tree>
    requires Shaped(|b|, t)
  {
    if path == [] || Segments(path).None? then None else Walk(b, t, Segments(path).value)
  }

  /**
   * The code gets to such an index: it reads an index only where the steps before it led to
   * an array.
   */
  ghost predicate Reaches(b: seq<byte>, t: Tree, p: seq<byte>)
    requires Shaped(|b|, t)
    decreases |p|
  {
    p != [] && if t.kind == Array && BigIndex(p) then true else ReachesBehind(b, t, p)
  }

  ghost predicate ReachesBehind(b: seq<byte>, t: Tree, p: seq<byte>)
    requires Shaped(|b|, t) && p != []
    decreases |p|, 0
  {
    var first := FirstSegment(p);
    && first.Some? && Step(b, t, first.value.0).Some?
    && (ShapedKidOf(b, t, Step(b, t, first.value.0).value); Reaches(b, t.kids[Step(b, t, first.value.0).value], first.value.1))
  }

  /** A path whose indices all fit never gets there, whatever the text. */
  lemma {:induction false} FitsIsSafe(b: seq<byte>, t: Tree, p: seq<byte>)
    requires Shaped(|b|, t) && FitsInt(p)
    ensures !Reaches(b, t, p)
    decreases |p|
  {
    hide Shaped, Step, FirstSegment, BigIndex;
    if p != [] && FirstSegment(p).Some? {
      var k := Step(b, t, FirstSegment(p).value.0);
      if k.Some? {
        ShapedKidOf(b, t, k.value);
        FitsIsSafe(b, t.kids[k.value], FirstSegment(p).value.1);
      }
    }
  }

  // ---- Places in the flat array -----------------------------------------------------------------------

  /** Where child `k` starts behind its parent's token. */
  ghost function Offset(kids: seq<Tree>, k: nat): nat
    requires k <= |kids|
  {
    |FlattenAll(kids[..k])|
  }

  /** Child `k` lies at its offset. */
  lemma KidAt(kids: seq<Tree>, k: nat)
    requires k < |kids|
    ensures var f, i := FlattenAll(kids), Offset(kids, k);
            && i < |f| && f[i] == Flatten(kids[k])[0]
            && i + |Flatten(kids[k])| == Offset(kids, k + 1) <= |f|
            && f[i..i + |Flatten(kids[k])|] == Flatten(kids[k])
  {
    hide Flatten;
    assert kids == kids[..k] + [kids[k]] + kids[k + 1..];
    FlattenConcat(kids[..k] + [kids[k]], kids[k + 1..]);
    FlattenConcat(kids[..k], [kids[k]]);
    FlattenOne(kids[k]);
    assert kids[..k + 1] == kids[..k] + [kids[k]];
  }

  lemma OffsetEnds(kids: seq<Tree>)
    ensures Offset(kids, 0) == 0 && Offset(kids, |kids|) == |FlattenAll(kids)|
  {
    assert kids[..0] == [] && kids[..|kids|] == kids;
  }

  /** `toks` holds tree `t` at index `c`. */
  ghost predicate Holds(toks: seq<Token>, c: nat, t: Tree) {
    c + |Flatten(t)| <= |toks| && toks[c..c + |Flatten(t)|] == Flatten(t)
  }

  lemma HoldsKid(toks: seq<Token>, c: nat, t: Tree, k: nat)
    requires Holds(toks, c, t) && k < |t.kids|
    ensures Holds(toks, c + 1 + Offset(t.kids, k), t.kids[k])
  {
    hide Offset;
    KidAt(t.kids, k);
    var i, size := Offset(t.kids, k), |Flatten(t.kids[k])|;
    var f := Flatten(t);
    assert f == [f[0]] + FlattenAll(t.kids);
    assert f[1 + i..1 + i + size] == FlattenAll(t.kids)[i..i + size];
    Within(toks, c, |f|, 1 + i, 1 + i + size);
  }

  lemma Within<T>(s: seq<T>, c: nat, n: nat, i: nat, j: nat)
    requires i <= j <= n && c + n <= |s|
    ensures s[c..c + n][i..j] == s[c + i..c + j]
  {
    var part := s[c..c + n];
    assert part[i..j] == s[c + i..c + j] by {
      assert forall k :: i <= k < j ==> part[k] == s[c + k];
    }
  }

  /** A held tree shows its root. */
  lemma HoldsRoot(toks: seq<Token>, c: nat, t: Tree)
    requires Holds(toks, c, t)
    ensures c < |toks| && toks[c] == Token(t.ptr, t.len, |FlattenAll(t.kids)|, t.kind)
    ensures c + 1 + |FlattenAll(t.kids)| <= |toks|
  {
    var f := Flatten(t);
    assert toks[c..c + |f|][0] == toks[c];
  }

  /** In a keyed list the even places hold keys without children. */
  lemma {:induction false} KeyAt(n: nat, kids: seq<Tree>, q: nat)
    requires Keyed(kids) && ShapedAll(n, kids) && 2 * q < |kids|
    ensures 2 * q + 1 < |kids|
    ensures kids[2 * q].kind == String && kids[2 * q].kids == [] && kids[2 * q].ptr + kids[2 * q].len <= n
    ensures Keyed(kids[2 * q..]) && ShapedAll(n, kids[2 * q..])
    ensures Keyed(kids[2 * q + 2..]) && ShapedAll(n, kids[2 * q + 2..])
  {
    if q > 0 {
      KeyAt(n, kids[2..], q - 1);
      assert kids[2..][2 * (q - 1)..] == kids[2 * q..] && kids[2..][2 * (q - 1) + 2..] == kids[2 * q + 2..];
    } else {
      assert kids[0..] == kids && kids[1..][1..] == kids[2..];
    }
  }

  // ---- The code -----------------------------------------------------------------------------------------

  /** `compare` of a key token with the first `n` bytes of the path, and the length check before it. */
  predicate Compare(b: seq<byte>, t: Token, name: seq<byte>)
    requires 0 <= t.len && t.ptr + t.len <= |b|
  {
    t.len == |name| && b[t.ptr..t.ptr + t.len] == name
  }

  predicate IsContainer(k: Kind) { k == Array || k == Object }

  /** The inner loop on an array: the index behind the container's token where element `ind` starts, or its end. */
  method FindElement(toks: seq<Token>, c: nat, ind: nat, ghost n: nat, ghost t: Tree) returns (i: nat)
    requires Holds(toks, c, t) && Shaped(n, t) && t.kind == Array
    ensures i == Offset(t.kids, if ind < |t.kids| then ind else |t.kids|)
  {
    hide Offset, Holds, Flatten;
    HoldsRoot(toks, c, t);
    OffsetEnds(t.kids);
    var ind2 := 0;
    i := 0;
    while i < toks[c].numDesc
      invariant ind2 <= |t.kids| && ind2 <= ind && i == Offset(t.kids, ind2)
      decreases |t.kids| - ind2
    {
      PlaceBefore(t.kids, ind2);
      if ind2 == ind {
        break;
      }
      HoldsKid(toks, c, t, ind2);
      HoldsRoot(toks, c + 1 + i, t.kids[ind2]);
      KidAt(t.kids, ind2);
      ShapedKid(n, t.kids, ind2);
      FlattenSize(t.kids[ind2]);
      if IsContainer(toks[c + 1 + i].kind) {
        i := i + toks[c + 1 + i].numDesc;
      }
      i, ind2 := i + 1, ind2 + 1;
    }
    PlaceAtEnd(t.kids, ind2);
  }

  /** The inner loop on an object: where the value of the first member of that name starts, or the end. */
  method FindMember(b: seq<byte>, toks: seq<Token>, c: nat, name: seq<byte>, ghost t: Tree) returns (i: nat)
    requires Holds(toks, c, t) && Shaped(|b|, t) && t.kind == Object
    ensures var r := MemberPlace(b, t.kids, name);
            i == Offset(t.kids, if r.Some? then r.value else |t.kids|)
  {
    hide Offset, Holds, Flatten, MemberPlace, Keyed, ShapedAll;
    HoldsRoot(toks, c, t);
    OffsetEnds(t.kids);
    MemberStart(b, t.kids, name);
    ghost var q := 0;
    i := 0;
    while i < toks[c].numDesc
      invariant 2 * q <= |t.kids| && i == Offset(t.kids, 2 * q)
      invariant Keyed(t.kids[2 * q..]) && ShapedAll(|b|, t.kids[2 * q..])
      invariant MemberPlace(b, t.kids, name) == Shifted(2 * q, MemberPlace(b, t.kids[2 * q..], name))
      decreases |t.kids| - 2 * q
    {
      PlaceBefore(t.kids, 2 * q);
      KeyAt(|b|, t.kids, q);
      HoldsKid(toks, c, t, 2 * q);
      HoldsRoot(toks, c + 1 + i, t.kids[2 * q]);
      HoldsKid(toks, c, t, 2 * q + 1);
      HoldsRoot(toks, c + 1 + Offset(t.kids, 2 * q + 1), t.kids[2 * q + 1]);
      KidAt(t.kids, 2 * q);
      KidAt(t.kids, 2 * q + 1);
      ShapedKid(|b|, t.kids, 2 * q + 1);
      FlattenSize(t.kids[2 * q]);
      FlattenSize(t.kids[2 * q + 1]);
      MemberNext(b, t.kids, name, q);
      if toks[c + 1 + i].kind != String {
        assert false;
      }
      if Compare(b, toks[c + 1 + i], name) {
        i := i + 1;
        return;
      }
      if IsContainer(toks[c + 1 + i + 1].kind) {
        i := i + toks[c + 1 + i + 1].numDesc;
      }
      i, q := i + 2, q + 1;
    }
    PlaceAtEnd(t.kids, 2 * q);
    MemberEnd(b, t.kids, name, 2 * q);
  }

  function Shifted(n: nat, r: Option<nat>): Option<nat> { if r.None? then None else Some(n + r.value) }

  lemma FlattenSize(t: Tree)
    ensures |Flatten(t)| == 1 + |FlattenAll(t.kids)| && (t.kids == [] ==> |Flatten(t)| == 1)
  {
  }

  lemma PlaceBefore(kids: seq<Tree>, k: nat)
    requires k <= |kids| && Offset(kids, k) < |FlattenAll(kids)|
    ensures k < |kids|
  {
    OffsetEnds(kids);
  }

  lemma PlaceAtEnd(kids: seq<Tree>, k: nat)
    requires k <= |kids|
    ensures Offset(kids, k) >= |FlattenAll(kids)| ==> k == |kids|
  {
    if k < |kids| {
      KidAt(kids, k);
    }
  }

  lemma MemberStart(b: seq<byte>, kids: seq<Tree>, name: seq<byte>)
    requires Keyed(kids) && ShapedAll(|b|, kids)
    ensures kids[0..] == kids && MemberPlace(b, kids, name) == Shifted(0, MemberPlace(b, kids, name))
  {
  }

  lemma MemberEnd(b: seq<byte>, kids: seq<Tree>, name: seq<byte>, k: nat)
    requires k == |kids|
    ensures kids[k..] == [] && MemberPlace(b, [], name) == None
  {
  }

  lemma MemberNext(b: seq<byte>, kids: seq<Tree>, name: seq<byte>, q: nat)
    requires Keyed(kids) && ShapedAll(|b|, kids) && 2 * q < |kids|
    ensures Keyed(kids[2 * q..]) && ShapedAll(|b|, kids[2 * q..])
    ensures kids[2 * q].ptr + kids[2 * q].len <= |b|
    ensures Keyed(kids[2 * q + 2..]) && ShapedAll(|b|, kids[2 * q + 2..])
    ensures MemberPlace(b, kids[2 * q..], name)
         == if KeyText(b, kids[2 * q]) == name then Some(1) else Shifted(2, MemberPlace(b, kids[2 * q + 2..], name))
  {
    KeyAt(|b|, kids, q);
    assert kids[2 * q..][2..] == kids[2 * q + 2..];
  }

  /** One step of lookup at a time. */
  lemma LookupStep(b: seq<byte>, t: Tree, p: seq<byte>)
    requires Shaped(|b|, t) && p != []
    ensures Lookup(b, t, p) == LookupBehind(b, t, FirstSegment(p))
  {
    hide FirstSegment, Shaped, Step;
    var first := FirstSegment(p);
    if first.Some? {
      var (s, rest) := first.value;
      var more := Segments(rest);
      if more.Some? {
        var path, k := [s] + more.value, Step(b, t, s);
        assert Segments(p) == Some(path) && path[0] == s && path[1..] == more.value;
        if k.Some? {
          ShapedKidOf(b, t, k.value);
          assert Walk(b, t, path) == Walk(b, t.kids[k.value], more.value);
        }
      }
    }
  }

  /** Lookup once the first step is read. */
  ghost function LookupBehind(b: seq<byte>, t: Tree, first: Option<(Segment, seq<byte>)>): Option<Tree>
    requires Shaped(|b|, t)
  {
    if first.None? || Step(b, t, first.value.0).None? then None
    else
      var kid := t.kids[Step(b, t, first.value.0).value];
      ShapedKidOf(b, t, Step(b, t, first.value.0).value);
      if first.value.1 == [] then Some(kid) else Lookup(b, kid, first.value.1)
  }

  lemma ShapedKidOf(b: seq<byte>, t: Tree, k: nat)
    requires Shaped(|b|, t) && k < |t.kids|
    ensures Shaped(|b|, t.kids[k])
  {
    ShapedKid(|b|, t.kids, k);
  }

  /** The index in brackets at the start of the path, as the code reads it, in an `int`. */
  method ScanIndex(p: seq<byte>) returns (overflow: bool, r: Option<(nat, nat)>)
    requires |p| >= 2
    ensures overflow == Overruns(p, 1, 0) && (!overflow ==> r == ReadIndex(p, 1, 0))
  {
    var ind: Int, n := 0, 1;
    overflow := false;
    while n < |p| && p[n] != CLOSE_BRACKET
      invariant 1 <= n <= |p| && ind >= 0 && ReadIndex(p, 1, 0) == ReadIndex(p, n, ind)
      invariant Overruns(p, 1, 0) == Overruns(p, n, ind)
      decreases |p| - n
    {
      if !IsDigit(p[n]) {
        return false, None;
      }
      if ind as int * 10 + (p[n] as int - 48) > INT_MAX {
        return true, None;
      }
      ind := ind * 10;
      ind := ind + (p[n] as int - 48);
      n := n + 1;
    }
    r := if n == |p| then None else Some((ind, n));
  }

  /**
   * One step of `find_json_token` at the container token `c`: the index of the token the
   * step leads to and the path behind it, or None; or an index that overflows.
   */
  method FindStep(b: seq<byte>, toks: seq<Token>, c: nat, p: seq<byte>, ghost t: Tree)
      returns (overflow: bool, r: Option<(nat, seq<byte>)>)
    requires Holds(toks, c, t) && Shaped(|b|, t) && p != []
    ensures overflow == (t.kind == Array && BigIndex(p))
    ensures var first := FirstSegment(p);
            if overflow then r == None
            else if first.None? || Step(b, t, first.value.0).None? then r == None
            else
              && r.Some? && r.value.1 == first.value.1
              && Holds(toks, r.value.0, t.kids[Step(b, t, first.value.0).value])
  {
    hide *;
    if p[0] == OPEN_BRACKET {
      overflow, r := FindIndexed(b, toks, c, p, t);
    } else {
      overflow := false;
      r := FindNamed(b, toks, c, p, t);
      NotIndexed(p);
    }
  }

  lemma NotIndexed(p: seq<byte>)
    requires p != [] && p[0] != OPEN_BRACKET
    ensures !BigIndex(p)
  {
  }

  method FindIndexed(b: seq<byte>, toks: seq<Token>, c: nat, p: seq<byte>, ghost t: Tree)
      returns (overflow: bool, r: Option<(nat, seq<byte>)>)
    requires Holds(toks, c, t) && Shaped(|b|, t) && p != [] && p[0] == OPEN_BRACKET
    ensures overflow == (t.kind == Array && BigIndex(p))
    ensures var first := FirstSegment(p);
            if overflow then r == None
            else if first.None? || Step(b, t, first.value.0).None? then r == None
            else
              && r.Some? && r.value.1 == first.value.1
              && Holds(toks, r.value.0, t.kids[Step(b, t, first.value.0).value])
  {
    hide Holds, Flatten, FlattenAll, ReadIndex, Overruns, PartLength, Offset, Shaped, ShapedAll, Keyed, MemberPlace, SkipDot;
    HoldsRoot(toks, c, t);
    if toks[c].kind != Array || |p| == 1 || !IsDigit(p[1]) {
      return false, None;
    }
    var index;
    overflow, index := ScanIndex(p);
    if overflow || index.None? {
      return overflow, None;
    }
    var i := FindElement(toks, c, index.value.0, |b|, t);
    r := Landed(toks, c, i, p[index.value.1 + 1..], if index.value.0 < |t.kids| then index.value.0 else |t.kids|, t);
  }

  method FindNamed(b: seq<byte>, toks: seq<Token>, c: nat, p: seq<byte>, ghost t: Tree) returns (r: Option<(nat, seq<byte>)>)
    requires Holds(toks, c, t) && Shaped(|b|, t) && p != [] && p[0] != OPEN_BRACKET
    ensures var first := FirstSegment(p);
            if first.None? || Step(b, t, first.value.0).None? then r == None
            else
              && r.Some? && r.value.1 == first.value.1
              && Holds(toks, r.value.0, t.kids[Step(b, t, first.value.0).value])
  {
    hide Holds, Flatten, FlattenAll, PartLength, Offset, Shaped, ShapedAll, Keyed, MemberPlace, SkipDot;
    HoldsRoot(toks, c, t);
    ShapedParts(b, t);
    if toks[c].kind != Object {
      return None;
    }
    var name := p[..PartLength(p)];
    var i := FindMember(b, toks, c, name, t);
    ghost var place := MemberPlace(b, t.kids, name);
    r := Landed(toks, c, i, p[PartLength(p)..], if place.Some? then place.value else |t.kids|, t);
  }

  /** The end of a step: the loop stopped at `i`, where child `place` is, or behind them all. */
  method Landed(toks: seq<Token>, c: nat, i: nat, rest: seq<byte>, ghost place: nat, ghost t: Tree) returns (r: Option<(nat, seq<byte>)>)
    requires Holds(toks, c, t) && place <= |t.kids| && i == Offset(t.kids, place)
    ensures if place == |t.kids| then r == None
            else r.Some? && r.value.1 == SkipDot(rest) && Holds(toks, r.value.0, t.kids[place])
  {
    hide Holds, FlattenAll, Offset, SkipDot;
    HoldsRoot(toks, c, t);
    PlaceIsEnd(t.kids, place);
    if i == toks[c].numDesc {
      return None;
    }
    HoldsKid(toks, c, t, place);
    r := Some((c + 1 + i, SkipDot(rest)));
  }

  lemma ShapedParts(b: seq<byte>, t: Tree)
    requires Shaped(|b|, t)
    ensures ShapedAll(|b|, t.kids) && (t.kind == Object ==> Keyed(t.kids))
  {
  }

  lemma PlaceIsEnd(kids: seq<Tree>, k: nat)
    requires k <= |kids|
    ensures Offset(kids, k) == |FlattenAll(kids)| <==> k == |kids|
  {
    OffsetEnds(kids);
    PlaceAtEnd(kids, k);
  }

  /** What `find_json_token` answers, Missing for NULL; Overflow where an index does not fit its `int`, which C leaves undefined. */
  datatype Answer = Missing | Found(index: nat) | Overflow

  /**
   * `find_json_token`: walks the flat array by descendant counts. It answers NULL exactly
   * when plain lookup in the tree fails, and else the index of the token that heads the
   * subtree which lookup finds, unless it reaches an index that does not fit an `int`.
   */
  method FindJsonToken(b: seq<byte>, toks: seq<Token>, path: seq<byte>, ghost root: Tree) returns (r: Answer)
    requires Holds(toks, 0, root) && Shaped(|b|, root)
    ensures r.Overflow? <==> Reaches(b, root, path)
    ensures FitsInt(path) ==> !r.Overflow?
    ensures !r.Overflow? ==> (r.Missing? <==> Lookup(b, root, path).None?)
    ensures r.Found? ==> Lookup(b, root, path).Some? && Holds(toks, r.index, Lookup(b, root, path).value)
  {
    hide Holds, FirstSegment, Lookup, Step, Shaped, BigIndex, FitsInt;
    if FitsInt(path) {
      FitsIsSafe(b, root, path);
    }
    var c, p := 0, path;
    ghost var t := root;
    while p != []
      invariant Holds(toks, c, t) && Shaped(|b|, t)
      invariant p == [] ==> path == []
      invariant Lookup(b, root, path) == Lookup(b, t, p) && Reaches(b, root, path) == Reaches(b, t, p)
      decreases |p|
    {
      LookupStep(b, t, p);
      var overflow, next := FindStep(b, toks, c, p, t);
      if overflow {
        return Overflow;
      }
      if next.None? {
        return Missing;
      }
      ghost var k := Step(b, t, FirstSegment(p).value.0).value;
      ShapedKidOf(b, t, k);
      c, t := next.value.0, t.kids[k];
      if next.value.1 == [] {
        assert !Reaches(b, t, []);
        return Found(c);
      }
      p := next.value.1;
    }
    LookupNothing(b, t);
    return Missing;
  }

  lemma LookupNothing(b: seq<byte>, t: Tree)
    requires Shaped(|b|, t)
    ensures Lookup(b, t, []) == None
  {
  }

  /**
   * The array `parse_json` leaves for an accepted text meets what `find_json_token` relies
   * on, with the parsed object as the root.
   */
  lemma AcceptedCanBeSearched(b: seq<byte>, toks: seq<Token>)
    requires ParseText(b).Ok? && Total(ParseText(b)) <= |toks|
    requires toks[..Total(ParseText(b))] == FlattenAll(ParseText(b).kids)
    ensures var root := ParseText(b).kids[0];
            Holds(toks, 0, root) && Shaped(|b|, root) && root.kind == Object && toks[0].numDesc == Total(ParseText(b)) - 1
  {
    hide ParseObject, Shaped, Flatten;
    var kids := ParseText(b).kids;
    AcceptedIsWellNested(b);
    ShapedKid(|b|, kids, 0);
    assert kids == [kids[0]];
    FlattenOne(kids[0]);
  }
}
