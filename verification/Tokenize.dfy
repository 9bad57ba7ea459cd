/**
  SPLIT and TOKENIZE (runtime/src/string.rs, afs_split; runtime/src/tokenize.rs,
  tokenize_bounds; section 16.9.197 of Fortran 2023).  Positions are 1-based; 0
  and LEN+1 are the boundaries outside the string.
 */
module Tokenize {
  import opened Wrappers

  predicate IsSeparator(s: string, separators: string, p: int) {
    1 <= p <= |s| && s[p - 1] in separators
  }

  /** 0, a separator position, or LEN+1. */
  predicate IsBoundary(s: string, separators: string, p: int) {
    p == 0 || p == |s| + 1 || IsSeparator(s, separators, p)
  }

  /** q is the first boundary after p. */
  ghost predicate IsNext(s: string, separators: string, p: int, q: int) {
    && p < q <= |s| + 1
    && (q <= |s| ==> IsSeparator(s, separators, q))
    && forall r :: p < r < q ==> !IsSeparator(s, separators, r)
  }

  /** q is the last boundary before p. */
  ghost predicate IsPrevious(s: string, separators: string, p: int, q: int) {
    && 0 <= q < p
    && (q >= 1 ==> IsSeparator(s, separators, q))
    && forall r :: q < r < p ==> !IsSeparator(s, separators, r)
  }

  function Previous(s: string, separators: string, p: int): (q: int)
    requires 1 <= p <= |s| + 1
    ensures IsPrevious(s, separators, p, q)
  {
    if p == 1 then 0
    else if IsSeparator(s, separators, p - 1) then p - 1
    else Previous(s, separators, p - 1)
  }

  /** SPLIT's new POS; an out-of-range POS is a runtime error. */
  method Split(s: string, separators: string, pos: int, back: bool) returns (r: Option<int>)
    ensures r.Some? <==> if back then 1 <= pos <= |s| + 1 else 0 <= pos <= |s|
    ensures r.Some? && !back ==> IsNext(s, separators, pos, r.value)
    ensures r.Some? && back ==> IsPrevious(s, separators, pos, r.value)
  {
    var inRange := if !back then 0 <= pos <= |s| else 1 <= pos <= |s| + 1;
    if !inRange {
      return None;
    }
    if !back {
      var p := pos + 1;
      while p <= |s|
        invariant pos < p <= |s| + 1
        invariant forall r :: pos < r < p ==> !IsSeparator(s, separators, r)
      {
        if s[p - 1] in separators {
          return Some(p);
        }
        p := p + 1;
      }
      return Some(|s| + 1);
    } else {
      var p := pos - 1;
      while p >= 1
        invariant 0 <= p < pos
        invariant forall r :: p < r < pos ==> !IsSeparator(s, separators, r)
      {
        if s[p - 1] in separators {
          return Some(p);
        }
        p := p - 1;
      }
      return Some(0);
    }
  }

  datatype Token = Token(first: int, last: int)

  /** The tokens that end before boundary p. */
  function TokensBefore(s: string, separators: string, p: int): seq<Token>
    requires 0 <= p <= |s| + 1
    decreases p
  {
    if p == 0 then []
    else
      var q := Previous(s, separators, p);
      TokensBefore(s, separators, q) + [Token(q + 1, p - 1)]
  }

  function Tokens(s: string, separators: string): seq<Token> {
    TokensBefore(s, separators, |s| + 1)
  }

  lemma {:induction false} PreviousUnique(s: string, separators: string, p: int, q: int)
    requires 1 <= p <= |s| + 1 && IsPrevious(s, separators, p, q)
    ensures Previous(s, separators, p) == q
  {
    var r := Previous(s, separators, p);
    assert !(r < q < p) || !IsSeparator(s, separators, q);
    assert !(q < r < p) || !IsSeparator(s, separators, r);
  }

  /** Going forward from a boundary and back again returns to it. */
  lemma {:induction false} NextThenPrevious(s: string, separators: string, p: int, q: int)
    requires IsBoundary(s, separators, p) && 0 <= p <= |s| && IsNext(s, separators, p, q)
    ensures IsPrevious(s, separators, q, p) && Previous(s, separators, q) == p
  {
    PreviousUnique(s, separators, q, p);
  }

  method TokenizeBounds(s: string, separators: string) returns (out: seq<Token>)
    ensures out == Tokens(s, separators)
  {
    out := [];
    if |s| == 0 {
      PreviousUnique(s, separators, 1, 0);
      assert TokensBefore(s, separators, 0) + [Token(1, 0)] == [Token(1, 0)];
      return [Token(1, 0)];
    }
    if |separators| == 0 {
      PreviousUnique(s, separators, |s| + 1, 0);
      assert TokensBefore(s, separators, 0) + [Token(1, |s|)] == [Token(1, |s|)];
      return [Token(1, |s|)];
    }
    var tokenStart := 0;
    for pos := 0 to |s|
      invariant 0 <= tokenStart <= pos && (tokenStart >= 1 ==> IsSeparator(s, separators, tokenStart))
      invariant forall r :: tokenStart < r <= pos ==> !IsSeparator(s, separators, r)
      invariant out == TokensBefore(s, separators, tokenStart)
    {
      if s[pos] in separators {
        PreviousUnique(s, separators, pos + 1, tokenStart);
        out := out + [Token(tokenStart + 1, pos)];
        tokenStart := pos + 1;
      }
    }
    PreviousUnique(s, separators, |s| + 1, tokenStart);
    out := out + [Token(tokenStart + 1, |s|)];
  }

  /** Iterating SPLIT from POS=0 until LEN+1 yields TOKENIZE's tokens. */
  method SplitForward(s: string, separators: string) returns (out: seq<Token>)
    ensures out == Tokens(s, separators)
  {
    out := [];
    var pos := 0;
    while pos <= |s|
      invariant 0 <= pos <= |s| + 1 && IsBoundary(s, separators, pos)
      invariant out == TokensBefore(s, separators, pos)
    {
      var next := Split(s, separators, pos, false);
      NextThenPrevious(s, separators, pos, next.value);
      out := out + [Token(pos + 1, next.value - 1)];
      pos := next.value;
    }
  }

  function Reversed(ts: seq<Token>): (r: seq<Token>) {
    if ts == [] then [] else Reversed(ts[1..]) + [ts[0]]
  }

  lemma {:induction false} ReversedAppend(ts: seq<Token>, t: Token)
    ensures Reversed(ts + [t]) == [t] + Reversed(ts)
    decreases |ts|
  {
    if ts == [] {
      assert ts + [t] == [t] && [t][1..] == [];
      assert Reversed([]) == [];
    } else {
      ReversedAppend(ts[1..], t);
      assert (ts + [t])[1..] == ts[1..] + [t];
    }
  }

  /** Iterating SPLIT backward from LEN+1 until 0 yields the reverse. */
  method SplitBackward(s: string, separators: string) returns (out: seq<Token>)
    ensures Reversed(out) == Tokens(s, separators)
  {
    out := [];
    var pos := |s| + 1;
    assert TokensBefore(s, separators, pos) + [] == TokensBefore(s, separators, pos);
    while pos >= 1
      invariant 0 <= pos <= |s| + 1
      invariant TokensBefore(s, separators, pos) + Reversed(out) == Tokens(s, separators)
    {
      var previous := Split(s, separators, pos, true);
      var q := previous.value;
      PreviousUnique(s, separators, pos, q);
      var t := Token(q + 1, pos - 1);
      ReversedAppend(out, t);
      assert (TokensBefore(s, separators, q) + [t]) + Reversed(out)
           == TokensBefore(s, separators, q) + ([t] + Reversed(out));
      out := out + [t];
      pos := q;
    }
  }

  // ---- What the tokens are ----

  /** A token holds no separator and lies between separators or the string's ends. */
  ghost predicate IsToken(s: string, separators: string, t: Token) {
    && 1 <= t.first <= t.last + 1 <= |s| + 1
    && (forall r :: t.first <= r <= t.last ==> !IsSeparator(s, separators, r))
    && (t.first > 1 ==> IsSeparator(s, separators, t.first - 1))
    && (t.last < |s| ==> IsSeparator(s, separators, t.last + 1))
  }

  ghost predicate AreTokens(s: string, separators: string, ts: seq<Token>) {
    forall i :: 0 <= i < |ts| ==> IsToken(s, separators, ts[i])
  }

  /** The tokens with the separators after them, put together. */
  ghost function Rebuilt(s: string, separators: string, ts: seq<Token>): string
    requires AreTokens(s, separators, ts)
    decreases |ts|
  {
    if ts == [] then ""
    else
      var t := ts[|ts| - 1];
      assert IsToken(s, separators, t);
      Rebuilt(s, separators, ts[..|ts| - 1]) + Piece(s, t)
  }

  function Piece(s: string, t: Token): string
    requires 1 <= t.first <= t.last + 1 <= |s| + 1
  {
    if t.last < |s| then s[t.first - 1..t.last + 1] else s[t.first - 1..]
  }

  lemma {:induction false} TokensAre(s: string, separators: string, p: int)
    requires 0 <= p <= |s| + 1 && IsBoundary(s, separators, p)
    ensures AreTokens(s, separators, TokensBefore(s, separators, p))
    decreases p
  {
    if p > 0 {
      var q := Previous(s, separators, p);
      TokensAre(s, separators, q);
      assert IsToken(s, separators, Token(q + 1, p - 1));
    }
  }

  /** Tokens and separators rebuild the string up to the boundary. */
  lemma {:induction false} TokensRebuild(s: string, separators: string, p: int)
    requires 0 <= p <= |s| + 1 && IsBoundary(s, separators, p)
    ensures AreTokens(s, separators, TokensBefore(s, separators, p))
    ensures Rebuilt(s, separators, TokensBefore(s, separators, p)) == s[..if p <= |s| then p else |s|]
    decreases p
  {
    hide IsToken, AreTokens, Rebuilt;
    TokensAre(s, separators, p);
    if p == 0 {
      RebuiltNothing(s, separators);
    } else {
      var q := Previous(s, separators, p);
      TokensRebuild(s, separators, q);
      RebuiltAppend(s, separators, TokensBefore(s, separators, q), Token(q + 1, p - 1));
      if p <= |s| {
        assert s[..q] + s[q..p] == s[..p];
      } else {
        assert s[..q] + s[q..] == s[..|s|];
      }
    }
  }

  lemma {:induction false} RebuiltNothing(s: string, separators: string)
    ensures AreTokens(s, separators, []) && Rebuilt(s, separators, []) == ""
  {
  }

  lemma {:induction false} RebuiltAppend(s: string, separators: string, rest: seq<Token>, t: Token)
    requires AreTokens(s, separators, rest + [t])
    ensures AreTokens(s, separators, rest) && 1 <= t.first <= t.last + 1 <= |s| + 1
    ensures Rebuilt(s, separators, rest + [t]) == Rebuilt(s, separators, rest) + Piece(s, t)
  {
    hide IsToken;
    assert IsToken(s, separators, (rest + [t])[|rest|]);
    assert forall i :: 0 <= i < |rest| ==> rest[i] == (rest + [t])[i];
    assert (rest + [t])[..|rest|] == rest;
    TokenRange(s, separators, t);
  }

  lemma {:induction false} TokenRange(s: string, separators: string, t: Token)
    requires IsToken(s, separators, t)
    ensures 1 <= t.first <= t.last + 1 <= |s| + 1
  {
  }

  function SeparatorCount(s: string, separators: string, p: int): nat
    requires 0 <= p <= |s| + 1
    decreases p
  {
    if p <= 1 then 0
    else (if IsSeparator(s, separators, p - 1) then 1 else 0) + SeparatorCount(s, separators, p - 1)
  }

  lemma {:induction false} CountSkips(s: string, separators: string, p: int, q: int)
    requires 0 <= q < p <= |s| + 1 && forall r :: q < r < p ==> !IsSeparator(s, separators, r)
    ensures SeparatorCount(s, separators, p) == SeparatorCount(s, separators, q + 1)
    decreases p
  {
    if q + 1 < p {
      CountSkips(s, separators, p - 1, q);
    }
  }

  /** One token more than separators. */
  lemma {:induction false} TokenCount(s: string, separators: string, p: int)
    requires 1 <= p <= |s| + 1 && IsBoundary(s, separators, p)
    ensures |TokensBefore(s, separators, p)| == SeparatorCount(s, separators, p) + 1
    decreases p
  {
    var q := Previous(s, separators, p);
    CountSkips(s, separators, p, q);
    if q > 0 {
      TokenCount(s, separators, q);
    }
  }
}
