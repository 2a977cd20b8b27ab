/** What a match of `ns_match_prefix` (examples/fossa/fossa.c) is, token by token. */
module GlobMeaning {
  import opened Bytes
  import opened Wrappers
  import opened Glob

  datatype Token = AnyByte | Star | DoubleStar | End | Plain(c: byte)

  /** The token in front and the pattern behind it; nothing behind a `$` counts. */
  function Front(p: seq<byte>): (r: (Token, seq<byte>))
    requires p != []
    ensures |r.1| < |p|
  {
    if p[0] == DOLLAR then (End, [])
    else if p[0] == STAR && |p| > 1 && p[1] == STAR then (DoubleStar, p[2..])
    else if p[0] == STAR then (Star, p[1..])
    else if p[0] == QUESTION then (AnyByte, p[1..])
    else (Plain(p[0]), p[1..])
  }

  /** The tokens of a pattern without alternatives. */
  function Tokens(p: seq<byte>): seq<Token>
    decreases |p|
  {
    if p == [] then [] else [Front(p).0] + Tokens(Front(p).1)
  }

  /** Letters match in either case. */
  predicate SameLetter(a: byte, b: byte) {
    a == b || (65 <= a <= 90 && b == a + 32) || (65 <= b <= 90 && a == b + 32)
  }

  /** What a token stands for. */
  predicate Fits(t: Token, piece: seq<byte>) {
    match t
    case AnyByte => |piece| == 1
    case Star => 47 !in piece
    case DoubleStar => true
    case End => piece == []
    case Plain(c) => |piece| == 1 && SameLetter(c, piece[0])
  }

  ghost predicate AllFit(ts: seq<Token>, pieces: seq<seq<byte>>) {
    |pieces| == |ts| && forall i :: 0 <= i < |ts| ==> Fits(ts[i], pieces[i])
  }

  /** How much each star took. */
  function StarLengths(ts: seq<Token>, pieces: seq<seq<byte>>): seq<nat>
    requires |pieces| == |ts|
  {
    if ts == [] then []
    else (if ts[0].Star? || ts[0].DoubleStar? then [|pieces[0]|] else []) + StarLengths(ts[1..], pieces[1..])
  }

  /** The tokens of `p` stand for consecutive pieces that make up the first `n` bytes of `s`, all of it before a `$`. */
  ghost predicate IsSplit(p: seq<byte>, s: seq<byte>, lens: seq<nat>, n: nat, pieces: seq<seq<byte>>) {
    && AllFit(Tokens(p), pieces) && StarLengths(Tokens(p), pieces) == lens
    && n <= |s| && Join(pieces) == s[..n] && (End in Tokens(p) ==> n == |s|)
  }

  /** `Try` takes the front token's piece off the string and goes on behind it. */
  lemma FrontTry(p: seq<byte>, s: seq<byte>, lens: seq<nat>, k: nat)
    requires p != [] && k <= |s| && Fits(Front(p).0, s[..k])
    requires var t := Front(p).0;
             if t.Star? || t.DoubleStar? then lens != [] && lens[0] == k else (t.End? ==> s == [])
    ensures var (t, q) := Front(p);
            Try(p, s, lens) == Plus(k, Try(q, s[k..], if t.Star? || t.DoubleStar? then lens[1..] else lens))
  {
    if p[0] == STAR {
      SlashFree(s, k);
    }
  }

  lemma SlashFree(s: seq<byte>, k: nat)
    requires k <= |s|
    ensures k <= Before(s, SLASH) <==> SLASH !in s[..k]
  {
    var n := Before(s, SLASH);
    if k > n {
      assert s[..k][n] == SLASH;
    } else {
      assert forall i :: 0 <= i < k ==> s[..k][i] == s[..n][i];
    }
  }

  /** Where `Try` succeeds, the front token fits some piece. */
  lemma FrontPiece(p: seq<byte>, s: seq<byte>, lens: seq<nat>) returns (k: nat)
    requires p != [] && Try(p, s, lens).Some?
    ensures k <= |s| && Fits(Front(p).0, s[..k])
    ensures var t := Front(p).0;
            if t.Star? || t.DoubleStar? then lens != [] && lens[0] == k else (t.End? ==> s == [] && lens == [])
  {
    k := if p[0] == STAR then lens[0] else if p[0] == DOLLAR then 0 else 1;
    if p[0] == STAR {
      SlashFree(s, k);
    }
  }

  lemma {:induction false} TryGivesPieces(p: seq<byte>, s: seq<byte>, lens: seq<nat>) returns (pieces: seq<seq<byte>>)
    requires Try(p, s, lens).Some?
    ensures IsSplit(p, s, lens, Try(p, s, lens).value, pieces)
    decreases |p|
  {
    hide Front, Fits;
    pieces := [];
    if p != [] {
      hide Try;
      var k := FrontPiece(p, s, lens);
      var (t, q) := Front(p);
      FrontTry(p, s, lens, k);
      var more := TryGivesPieces(q, s[k..], if t.Star? || t.DoubleStar? then lens[1..] else lens);
      pieces := [s[..k]] + more;
      SplitFront(t, q, p, s, lens, k, Try(p, s, lens).value - k, more);
    }
  }

  lemma SplitFront(t: Token, q: seq<byte>, p: seq<byte>, s: seq<byte>, lens: seq<nat>, k: nat, n: nat, more: seq<seq<byte>>)
    requires Tokens(p) == [t] + Tokens(q) && k <= |s| && Fits(t, s[..k]) && (t.End? ==> s == [])
    requires if t.Star? || t.DoubleStar? then lens != [] && lens[0] == k else true
    requires IsSplit(q, s[k..], if t.Star? || t.DoubleStar? then lens[1..] else lens, n, more)
    ensures IsSplit(p, s, lens, k + n, [s[..k]] + more)
  {
    hide Tokens, Fits, Join;
    var pieces := [s[..k]] + more;
    assert pieces[1..] == more && Tokens(p)[1..] == Tokens(q);
    forall i | 0 <= i < |pieces|
      ensures Fits(Tokens(p)[i], pieces[i])
    {
      if i > 0 {
        assert Tokens(p)[i] == Tokens(q)[i - 1] && pieces[i] == more[i - 1];
      }
    }
    JoinFront(s, k, n, more);
  }

  lemma JoinFront(s: seq<byte>, k: nat, n: nat, more: seq<seq<byte>>)
    requires k + n <= |s| && Join(more) == s[k..][..n]
    ensures Join([s[..k]] + more) == s[..k + n]
  {
    assert ([s[..k]] + more)[1..] == more;
    assert s[..k] + s[k..][..n] == s[..k + n];
  }

  lemma {:induction false} PiecesTry(p: seq<byte>, s: seq<byte>, lens: seq<nat>, n: nat, pieces: seq<seq<byte>>)
    requires IsSplit(p, s, lens, n, pieces)
    ensures Try(p, s, lens) == Some(n)
    decreases |p|
  {
    hide Front, Fits;
    if p != [] {
      hide Try;
      var (t, q) := Front(p);
      var k, rest := |pieces[0]|, pieces[1..];
      assert Join(pieces) == pieces[0] + Join(rest);
      assert pieces[0] == s[..n][..k] == s[..k];
      assert Join(rest) == s[..n][k..] == s[k..][..n - k];
      assert Tokens(p)[1..] == Tokens(q);
      assert Fits(Tokens(p)[0], pieces[0]);
      if t.End? {
        EndIsEmpty(p, s, n, pieces);
      }
      FrontTry(p, s, lens, k);
      PiecesTry(q, s[k..], if t.Star? || t.DoubleStar? then lens[1..] else lens, n - k, rest);
    }
  }

  lemma EndIsEmpty(p: seq<byte>, s: seq<byte>, n: nat, pieces: seq<seq<byte>>)
    requires p != [] && Front(p).0.End? && pieces != [] && AllFit(Tokens(p), pieces)
    requires n <= |s| && Join(pieces) == s[..n] && n == |s|
    ensures s == []
  {
    assert Tokens(p) == [End] + Tokens([]) == [End];
    assert Fits(Tokens(p)[0], pieces[0]) && pieces == [[]];
    assert Join(pieces) == [] + Join(pieces[1..]);
  }

  /** The star lengths with which the code's matching succeeds are those of the splits, with the same length. */
  lemma TryMeans(p: seq<byte>, s: seq<byte>, lens: seq<nat>, n: nat)
    ensures Try(p, s, lens) == Some(n) <==> exists pieces :: IsSplit(p, s, lens, n, pieces)
  {
    hide IsSplit, Try;
    if Try(p, s, lens) == Some(n) {
      var pieces := TryGivesPieces(p, s, lens);
    }
    if pieces :| IsSplit(p, s, lens, n, pieces) {
      PiecesTry(p, s, lens, n, pieces);
    }
  }

  /** A pattern without alternatives fails exactly when no split of it exists; else its length is that of one. */
  lemma MatchMeans(p: seq<byte>, s: seq<byte>)
    requires BAR !in p
    ensures Matched(p, s) == -1 <==> forall lens, n, pieces :: !IsSplit(p, s, lens, n, pieces)
    ensures Matched(p, s) >= 0 ==> exists lens, pieces :: IsSplit(p, s, lens, Matched(p, s), pieces)
  {
    hide IsSplit, Try, Matched;
    MatchedIsGreediest(p, s);
    if lens, n, pieces :| IsSplit(p, s, lens, n, pieces) {
      TryMeans(p, s, lens, n);
    }
    if lens :| Try(p, s, lens) == Some(Matched(p, s)) {
      TryMeans(p, s, lens, Matched(p, s));
    }
  }
}
