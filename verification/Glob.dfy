/** The backtracking glob matcher `ns_match_prefix` of examples/fossa/fossa.c. */
module Glob {
  import opened Bytes
  import opened Wrappers

  const BAR: byte := 124       // |
  const QUESTION: byte := 63   // ?
  const DOLLAR: byte := 36     // $
  const STAR: byte := 42       // *
  const SLASH: byte := 47      // /

  /** A C string indexed up to and including its terminating NUL. */
  function At(s: seq<byte>, i: nat): byte { if i < |s| then s[i] else 0 }

  /** `tolower` in the C locale. */
  function Lowercase(c: byte): byte { if 65 <= c <= 90 then c + 32 else c }

  /** The number of bytes before the first `c`: `memchr`, and `strcspn` for one byte. */
  function Before(s: seq<byte>, c: byte): (n: nat)
    ensures n <= |s| && c !in s[..n] && (n < |s| ==> s[n] == c && c in s)
  {
    if s == [] || s[0] == c then 0
    else
      assert forall k :: 0 <= k < Before(s[1..], c) ==> s[k + 1] == s[1..][k];
      1 + Before(s[1..], c)
  }

  // ---- What it means to match ---------------------------------------------------------------

  /** The pattern behind a leading `*` or `**`. */
  function Rest(p: seq<byte>): seq<byte>
    requires p != [] && p[0] == STAR
  {
    if At(p, 1) == STAR then p[2..] else p[1..]
  }

  /** The most a leading star may take: `*` stops at a slash, `**` does not. */
  function Reach(p: seq<byte>, s: seq<byte>): nat
    requires p != [] && p[0] == STAR
    ensures Reach(p, s) <= |s|
  {
    if At(p, 1) == STAR then |s| else Before(s, SLASH)
  }

  /**
   * Matching with the lengths of the stars given: the length of the prefix of `s` that is
   * matched, if the lengths make one.
   */
  function Try(p: seq<byte>, s: seq<byte>, lens: seq<nat>): (r: Option<nat>)
    ensures r.Some? ==> r.value <= |s|
    decreases |p|
  {
    if p == [] then if lens == [] then Some(0) else None
    else if p[0] == QUESTION && s != [] then Plus(1, Try(p[1..], s[1..], lens))
    else if p[0] == DOLLAR then if s == [] && lens == [] then Some(0) else None
    else if p[0] == STAR then
      if lens == [] || lens[0] > Reach(p, s) then None
      else Plus(lens[0], Try(Rest(p), s[lens[0]..], lens[1..]))
    else if s != [] && Lowercase(p[0]) == Lowercase(s[0]) then Plus(1, Try(p[1..], s[1..], lens))
    else None
  }

  function Plus(n: nat, r: Option<nat>): Option<nat> {
    if r.Some? then Some(n + r.value) else None
  }

  /** `a` gives the first star on which they differ more than `b` does. */
  ghost predicate AtLeast(a: seq<nat>, b: seq<nat>)
    decreases |a|
  {
    a == [] || b == [] || a[0] > b[0] || (a[0] == b[0] && AtLeast(a[1..], b[1..]))
  }

  // ---- What the code computes ---------------------------------------------------------------

  /** `ns_match_prefix` on a pattern without `|`: -1, or the length matched. */
  function Greedy(p: seq<byte>, s: seq<byte>): (r: int)
    ensures -1 <= r <= |s|
    decreases |p|, 0
  {
    if p == [] then 0
    else if p[0] == QUESTION && s != [] then Behind(1, Greedy(p[1..], s[1..]))
    else if p[0] == DOLLAR then if s == [] then 0 else -1
    else if p[0] == STAR then Shrinking(Rest(p), s, Reach(p, s))
    else if s != [] && Lowercase(p[0]) == Lowercase(s[0]) then Behind(1, Greedy(p[1..], s[1..]))
    else -1
  }

  function Behind(n: nat, r: int): int { if r == -1 then -1 else n + r }

  /** The star takes `len` bytes, or fewer until the rest matches. */
  function Shrinking(rest: seq<byte>, s: seq<byte>, len: nat): (r: int)
    requires len <= |s|
    ensures -1 <= r <= |s|
    decreases |rest|, 1 + len
  {
    var r := Greedy(rest, s[len..]);
    if r != -1 then len + r
    else if len == 0 then -1
    else Shrinking(rest, s, len - 1)
  }

  /** `ns_match_prefix`: alternatives from the left, a later one wherever the earlier did not match any byte. */
  function Matched(p: seq<byte>, s: seq<byte>): (r: int)
    ensures -1 <= r <= |s|
    decreases |p|
  {
    var k := Before(p, BAR);
    if k == |p| then Greedy(p, s)
    else
      var r := Matched(p[..k], s);
      if r > 0 then r else Matched(p[k + 1..], s)
  }

  method MatchPrefix(pattern: seq<byte>, str: seq<byte>) returns (res: int)
    requires IsCString(pattern) && IsCString(str)
    ensures res == Matched(pattern, str)
    decreases |pattern|, 2
  {
    hide Greedy;
    var bar := Before(pattern, BAR);
    if bar < |pattern| {
      res := MatchPrefix(pattern[..bar], str);
      if res <= 0 {
        res := MatchPrefix(pattern[bar + 1..], str);
      }
    } else {
      res := MatchPlain(pattern, str);
    }
  }

  /** The loop of `ns_match_prefix`, reached when the pattern holds no `|`. */
  method MatchPlain(pattern: seq<byte>, str: seq<byte>) returns (res: int)
    requires IsCString(pattern) && IsCString(str) && Before(pattern, BAR) == |pattern|
    ensures res == Greedy(pattern, str)
    decreases |pattern|, 1
  {
    hide Greedy, Shrinking, Reach, Rest, Lowercase, Before, Matched;
    var i, j := 0, 0;
    assert pattern[0..] == pattern && str[0..] == str;
    while i < |pattern|
      invariant i <= |pattern| && j <= |str|
      invariant Greedy(pattern, str) == Behind(j, Greedy(pattern[i..], str[j..]))
    {
      GreedyStep(pattern, str, i, j);
      if pattern[i] == QUESTION && At(str, j) != 0 {
      } else if pattern[i] == DOLLAR {
        return if At(str, j) == 0 then j else -1;
      } else if pattern[i] == STAR {
        StarParts(pattern, str, i, j);
        var len: nat;
        i := i + 1;
        if At(pattern, i) == STAR {
          i := i + 1;
          len := |str| - j;
        } else {
          len := Before(str[j..], SLASH);
        }
        if i == |pattern| {
          EmptyRest(str[j..], len);
          assert pattern[i..] == [];
          return j + len;
        }
        NoBarBehind(pattern, i);
        res := MatchShrinking(pattern[i..], str[j..], len);
        return if res == -1 then -1 else j + res;
      } else if Lowercase(pattern[i]) != Lowercase(At(str, j)) {
        return -1;
      }
      i, j := i + 1, j + 1;
    }
    EmptyPattern(pattern, str, j);
    return j;
  }

  /** Its inner loop: the star first takes `reach` bytes, then one less as long as the rest fails. */
  method MatchShrinking(rest: seq<byte>, str: seq<byte>, reach: nat) returns (res: int)
    requires IsCString(rest) && IsCString(str) && Before(rest, BAR) == |rest| && reach <= |str|
    ensures res == Shrinking(rest, str, reach)
    decreases |rest|, 3
  {
    hide Greedy, Shrinking, Before;
    var len := reach;
    assert rest[0..] == rest;
    NoBarBehind(rest, 0);
    res := MatchPrefix(rest, str[len..]);
    while res == -1 && len > 0
      invariant len <= |str| && res == Greedy(rest, str[len..])
      invariant Shrinking(rest, str, reach) == Shrinking(rest, str, len)
      decreases len
    {
      ShrinkStep(rest, str, len);
      len := len - 1;
      res := MatchPrefix(rest, str[len..]);
    }
    ShrinkStep(rest, str, len);
    res := if res == -1 then -1 else res + len;
  }

  lemma EmptyPattern(pattern: seq<byte>, str: seq<byte>, j: nat)
    requires j <= |str|
    ensures pattern[|pattern|..] == [] && Greedy([], str[j..]) == 0
  {
  }

  lemma ShrinkStep(rest: seq<byte>, s: seq<byte>, len: nat)
    requires len <= |s|
    ensures var r := Greedy(rest, s[len..]);
            Shrinking(rest, s, len) == if r != -1 then len + r else if len == 0 then -1 else Shrinking(rest, s, len - 1)
  {
    hide Greedy;
  }

  lemma EmptyRest(s: seq<byte>, len: nat)
    requires len <= |s|
    ensures Shrinking([], s, len) == len
  {
  }

  lemma NoBarBehind(pattern: seq<byte>, i: nat)
    requires Before(pattern, BAR) == |pattern| && i <= |pattern| && IsCString(pattern)
    ensures Before(pattern[i..], BAR) == |pattern[i..]| && IsCString(pattern[i..])
    ensures forall s :: Matched(pattern[i..], s) == Greedy(pattern[i..], s)
  {
    hide Greedy;
    assert pattern[..|pattern|] == pattern;
  }

  lemma StarParts(pattern: seq<byte>, str: seq<byte>, i: nat, j: nat)
    requires i < |pattern| && pattern[i] == STAR && j <= |str|
    ensures var star := pattern[i..];
            && star != [] && star[0] == STAR
            && (if At(pattern, i + 1) == STAR then
                  i + 2 <= |pattern| && Rest(star) == pattern[i + 2..] && Reach(star, str[j..]) == |str| - j
                else
                  Rest(star) == pattern[i + 1..] && Reach(star, str[j..]) == Before(str[j..], SLASH))
  {
  }

  /** One pass of the loop that consumes a pattern byte and a string byte, or decides. */
  lemma GreedyStep(pattern: seq<byte>, str: seq<byte>, i: nat, j: nat)
    requires i < |pattern| && j <= |str| && IsCString(pattern) && IsCString(str)
    ensures var g, c := Greedy(pattern[i..], str[j..]), At(str, j);
            && (c != 0 <==> j < |str|)
            && if pattern[i] == QUESTION && c != 0 then g == Behind(1, Greedy(pattern[i + 1..], str[j + 1..]))
               else if pattern[i] == DOLLAR then g == if c == 0 then 0 else -1
               else if pattern[i] == STAR then
                 g == Shrinking(Rest(pattern[i..]), str[j..], Reach(pattern[i..], str[j..]))
               else if Lowercase(pattern[i]) != Lowercase(c) then g == -1
               else j < |str| && g == Behind(1, Greedy(pattern[i + 1..], str[j + 1..]))
  {
    hide Shrinking, Rest, Reach;
    assert pattern[i..][1..] == pattern[i + 1..];
    if j < |str| {
      assert str[j..][1..] == str[j + 1..];
      assert str[j] in str;
    }
    assert pattern[i] in pattern;
  }

  // ---- The code against the meaning ---------------------------------------------------------

  /** `Greedy` is -1 exactly when no lengths match, and else comes from the greedy choice of lengths. */
  lemma {:induction false} GreedyIsLexicographic(p: seq<byte>, s: seq<byte>) returns (lens: seq<nat>)
    ensures Greedy(p, s) == -1 ==> forall ls :: Try(p, s, ls).None?
    ensures Greedy(p, s) != -1 ==> Try(p, s, lens) == Some(Greedy(p, s))
    ensures Greedy(p, s) != -1 ==> forall ls :: Try(p, s, ls).Some? ==> AtLeast(lens, ls)
    decreases |p|, 0
  {
    hide Shrinking, Rest, Reach, Lowercase;
    lens := [];
    if p == [] {
    } else if p[0] == QUESTION && s != [] {
      lens := GreedyIsLexicographic(p[1..], s[1..]);
    } else if p[0] == DOLLAR {
    } else if p[0] == STAR {
      RestShorter(p);
      lens := ShrinkingIsLexicographic(Rest(p), s, Reach(p, s));
      var max := Reach(p, s);
      forall ls | Try(p, s, ls).Some?
        ensures ls != [] && ls[0] <= max && Try(Rest(p), s[ls[0]..], ls[1..]).Some?
      {
      }
    } else if s != [] && Lowercase(p[0]) == Lowercase(s[0]) {
      lens := GreedyIsLexicographic(p[1..], s[1..]);
    }
  }

  lemma RestShorter(p: seq<byte>)
    requires p != [] && p[0] == STAR
    ensures |Rest(p)| < |p|
  {
  }

  /** The same for a star that may take at most `len` bytes. */
  lemma {:induction false} ShrinkingIsLexicographic(rest: seq<byte>, s: seq<byte>, len: nat) returns (lens: seq<nat>)
    requires len <= |s|
    ensures Shrinking(rest, s, len) == -1 ==>
              forall ls: seq<nat> :: ls != [] && ls[0] <= len ==> Try(rest, s[ls[0]..], ls[1..]).None?
    ensures Shrinking(rest, s, len) != -1 ==>
              && lens != [] && lens[0] <= len
              && Plus(lens[0], Try(rest, s[lens[0]..], lens[1..])) == Some(Shrinking(rest, s, len))
              && forall ls: seq<nat> :: ls != [] && ls[0] <= len && Try(rest, s[ls[0]..], ls[1..]).Some? ==> AtLeast(lens, ls)
    decreases |rest|, 1 + len
  {
    hide Try, Greedy;
    lens := [];
    ShrinkStep(rest, s, len);
    var tail := GreedyIsLexicographic(rest, s[len..]);
    if Greedy(rest, s[len..]) != -1 {
      lens := [len] + tail;
      assert lens[1..] == tail;
    } else if len > 0 {
      lens := ShrinkingIsLexicographic(rest, s, len - 1);
    }
  }

  /**
   * For a pattern without `|`: -1 exactly when no assignment of lengths to the stars makes a
   * match; otherwise the length of a matching prefix, the one in which each star, from the
   * left, takes as much as it can.
   */
  lemma MatchedIsGreediest(p: seq<byte>, s: seq<byte>)
    requires BAR !in p
    ensures Matched(p, s) == -1 <==> forall lens :: Try(p, s, lens).None?
    ensures Matched(p, s) >= 0 ==>
              exists lens :: Try(p, s, lens) == Some(Matched(p, s))
                          && forall ls :: Try(p, s, ls).Some? ==> AtLeast(lens, ls)
  {
    hide Try, Greedy;
    var lens := GreedyIsLexicographic(p, s);
  }

  // ---- Alternatives -------------------------------------------------------------------------

  /** The patterns between the bars. */
  function Alternatives(p: seq<byte>): (a: seq<seq<byte>>)
    ensures a != []
    decreases |p|
  {
    var k := Before(p, BAR);
    if k == |p| then [p] else [p[..k]] + Alternatives(p[k + 1..])
  }

  /** The last alternative fails, and the best any other does is to match the empty prefix. */
  ghost predicate Missed(a: seq<seq<byte>>, s: seq<byte>)
    requires a != []
  {
    Greedy(a[|a| - 1], s) == -1 && forall i :: 0 <= i < |a| - 1 ==> Greedy(a[i], s) <= 0
  }

  lemma MissedFirst(first: seq<byte>, others: seq<seq<byte>>, s: seq<byte>)
    requires others != []
    ensures Missed([first] + others, s) <==> Greedy(first, s) <= 0 && Missed(others, s)
  {
    hide Greedy;
    var a := [first] + others;
    assert a[0] == first && a[|a| - 1] == others[|others| - 1];
    if Missed(a, s) {
      forall i | 0 <= i < |others| - 1
        ensures Greedy(others[i], s) <= 0
      {
        assert others[i] == a[i + 1];
      }
    }
  }

  /**
   * An alternative other than the last counts only if it matches at least one byte: the whole
   * fails, although some alternative may match, exactly when they are missed in that sense.
   */
  lemma {:induction false} AlternativesMissed(p: seq<byte>, s: seq<byte>)
    ensures Matched(p, s) == -1 <==> Missed(Alternatives(p), s)
    decreases |p|
  {
    hide Greedy, Before;
    var k := Before(p, BAR);
    if k < |p| {
      AlternativesMissed(p[k + 1..], s);
      NoBarInPrefix(p, k);
      MissedFirst(p[..k], Alternatives(p[k + 1..]), s);
    }
  }

  /** Some lengths of the stars make `q` match. */
  ghost predicate Matches(q: seq<byte>, s: seq<byte>) { exists lens :: Try(q, s, lens).Some? }

  /** `n` is the length matched when each star, from the left, takes as much as it can. */
  ghost predicate IsGreediest(q: seq<byte>, s: seq<byte>, n: nat) {
    exists lens :: Try(q, s, lens) == Some(n) && forall ls :: Try(q, s, ls).Some? ==> AtLeast(lens, ls)
  }

  /** The greediest match takes at least one byte. */
  ghost predicate Bites(q: seq<byte>, s: seq<byte>) { exists n: nat :: n > 0 && IsGreediest(q, s, n) }

  /** How many stars are given a length is a matter of the pattern. */
  lemma {:induction false} SameStars(p: seq<byte>, s: seq<byte>, a: seq<nat>, s': seq<byte>, b: seq<nat>)
    requires Try(p, s, a).Some? && Try(p, s', b).Some?
    ensures |a| == |b|
    decreases |p|
  {
    hide Rest, Reach, Lowercase;
    if p != [] && p[0] == STAR {
      RestShorter(p);
      SameStars(Rest(p), s[a[0]..], a[1..], s'[b[0]..], b[1..]);
    } else if p != [] && p[0] != DOLLAR {
      SameStars(p[1..], s[1..], a, s'[1..], b);
    }
  }

  lemma {:induction false} AtLeastBoth(a: seq<nat>, b: seq<nat>)
    requires |a| == |b| && AtLeast(a, b) && AtLeast(b, a)
    ensures a == b
    decreases |a|
  {
    if a != [] {
      AtLeastBoth(a[1..], b[1..]);
      assert a == [a[0]] + a[1..] && b == [b[0]] + b[1..];
    }
  }

  /** There is one greediest match at most, and the code finds it. */
  lemma GreedyMeans(q: seq<byte>, s: seq<byte>)
    ensures Greedy(q, s) == -1 <==> !Matches(q, s)
    ensures forall n: nat :: IsGreediest(q, s, n) <==> n == Greedy(q, s)
    ensures Bites(q, s) <==> Greedy(q, s) > 0
  {
    hide Try, Greedy, AtLeast;
    var lens := GreedyIsLexicographic(q, s);
    forall n: nat | IsGreediest(q, s, n)
      ensures n == Greedy(q, s)
    {
      var ls :| Try(q, s, ls) == Some(n) && forall l :: Try(q, s, l).Some? ==> AtLeast(ls, l);
      SameStars(q, s, ls, s, lens);
      AtLeastBoth(ls, lens);
    }
    if Greedy(q, s) > 0 {
      assert IsGreediest(q, s, Greedy(q, s));
    }
  }

  /** Alternative `i` is the first that takes a byte, or the last, and `r` is what it answers. */
  ghost predicate Decides(a: seq<seq<byte>>, s: seq<byte>, i: nat, r: int) {
    && i < |a| && (forall j :: 0 <= j < i ==> !Bites(a[j], s)) && (i == |a| - 1 || Bites(a[i], s))
    && if Matches(a[i], s) then r >= 0 && IsGreediest(a[i], s, r) else r == -1
  }

  lemma DecidesFirst(first: seq<byte>, others: seq<seq<byte>>, s: seq<byte>)
    requires others == [] || Greedy(first, s) > 0
    ensures Decides([first] + others, s, 0, Greedy(first, s))
  {
    hide Greedy, Matches, IsGreediest, Bites;
    GreedyMeans(first, s);
    assert ([first] + others)[0] == first;
  }

  lemma DecidesLater(first: seq<byte>, others: seq<seq<byte>>, s: seq<byte>, i: nat, r: int)
    requires Greedy(first, s) <= 0 && Decides(others, s, i, r)
    ensures Decides([first] + others, s, i + 1, r)
  {
    hide Greedy, Matches, IsGreediest, Bites;
    GreedyMeans(first, s);
    var a := [first] + others;
    assert a[0] == first && forall j :: 0 <= j < |others| ==> a[j + 1] == others[j];
    forall j | 0 <= j < i + 1
      ensures !Bites(a[j], s)
    {
      assert j > 0 ==> !Bites(others[j - 1], s);
    }
  }

  /**
   * What the whole answers: it is decided by the first alternative that matches at least one
   * byte, or else by the last one, and is -1 or the length of that alternative's greediest match.
   */
  lemma {:induction false} WholeMatch(p: seq<byte>, s: seq<byte>) returns (i: nat)
    ensures Decides(Alternatives(p), s, i, Matched(p, s))
    decreases |p|
  {
    hide Greedy, Before, Decides;
    var k := Before(p, BAR);
    if k == |p| {
      i := 0;
      DecidesFirst(p, [], s);
      assert [p] + [] == [p];
    } else {
      NoBarInPrefix(p, k);
      var others := Alternatives(p[k + 1..]);
      if Greedy(p[..k], s) > 0 {
        i := 0;
        DecidesFirst(p[..k], others, s);
      } else {
        var j := WholeMatch(p[k + 1..], s);
        i := j + 1;
        DecidesLater(p[..k], others, s, j, Matched(p[k + 1..], s));
      }
    }
  }

  /**
   * Exactly when the whole fails although some alternative matches: the last one does not
   * match, and of those before it some match, but none of them takes a byte.
   */
  lemma MatchLost(p: seq<byte>, s: seq<byte>)
    ensures var a := Alternatives(p);
            (Matched(p, s) == -1 && exists i :: 0 <= i < |a| && Matches(a[i], s))
            <==> !Matches(a[|a| - 1], s) && (forall i :: 0 <= i < |a| - 1 ==> !Bites(a[i], s))
                 && exists i :: 0 <= i < |a| - 1 && Matches(a[i], s)
  {
    hide Greedy, Matches, IsGreediest, Bites, Matched, Alternatives;
    var a := Alternatives(p);
    AlternativesMissed(p, s);
    forall i | 0 <= i < |a|
      ensures Greedy(a[i], s) == -1 <==> !Matches(a[i], s)
      ensures Bites(a[i], s) <==> Greedy(a[i], s) > 0
    {
      GreedyMeans(a[i], s);
    }
  }

  lemma NoBarInPrefix(p: seq<byte>, k: nat)
    requires k == Before(p, BAR)
    ensures Before(p[..k], BAR) == k
  {
  }

  /** So `*|b` does not match the empty string, although `*` does. */
  lemma EmptyMatchIsLost()
    ensures Matched([STAR, BAR, 98], []) == -1 && Matched([STAR], []) == 0
  {
    assert Before([STAR, BAR, 98], BAR) == 1;
    assert [STAR, BAR, 98][..1] == [STAR] && [STAR, BAR, 98][2..] == [98];
    assert Rest([STAR]) == [] && Greedy([STAR], []) == Shrinking([], [], 0) == 0;
    assert Before([STAR], BAR) == 1 && Before([98], BAR) == 1;
    assert Matched([98], []) == Greedy([98], []) == -1;
  }
}
