/**
 * The wildcard matcher `matches_pattern`: `?` matches one character, `*` any
 * run of characters (possibly empty), anything else itself.  The matcher scans
 * both strings left to right, tries every split point after a `*` that is not
 * last, and absorbs trailing `*`s.  `Glob` is an independent definition of the
 * same language, and `MatchesPatternIsGlob` proves the two agree everywhere.
 */
module Wildcard {

  /** `matches_pattern(w, p)`. */
  function MatchesPattern(w: string, p: string): bool
    decreases |p|, 2
  {
    MatchLoop(w, p, 0, 0)
  }

  /** The main loop of `matches_pattern` at word index `wi` and pattern index `pi`. */
  function MatchLoop(w: string, p: string, wi: nat, pi: nat): bool
    requires wi <= |w| && pi <= |p|
    decreases |p|, 1, |p| - pi
  {
    if wi < |w| && pi < |p| then
      if p[pi] == '?' then MatchLoop(w, p, wi + 1, pi + 1)
      else if p[pi] == '*' then
        if pi + 1 == |p| then true
        else TryFrom(w, p, wi, pi)
      else if p[pi] == w[wi] then MatchLoop(w, p, wi + 1, pi + 1)
      else false
    else SkipStars(w, p, wi, pi)
  }

  /** The inner loop after a `*` at `pi`: some split point `i..|w|` lets the rest of the pattern match the rest of the word. */
  function TryFrom(w: string, p: string, i: nat, pi: nat): bool
    requires i <= |w| && pi < |p|
    decreases |p|, 0, |w| - i
  {
    MatchesPattern(w[i..], p[pi + 1..]) || (i < |w| && TryFrom(w, p, i + 1, pi))
  }

  /** The tail of `matches_pattern`: skip `*`s, then both strings must be used up. */
  function SkipStars(w: string, p: string, wi: nat, pi: nat): bool
    requires wi <= |w| && pi <= |p|
    decreases |p| - pi
  {
    if pi < |p| && p[pi] == '*' then SkipStars(w, p, wi, pi + 1)
    else wi == |w| && pi == |p|
  }

  /** The glob language, defined on the first pattern character. */
  predicate Glob(w: string, p: string)
    decreases |p|, |w|
  {
    if p == [] then w == []
    else if p[0] == '*' then Glob(w, p[1..]) || (w != [] && Glob(w[1..], p))
    else w != [] && (p[0] == '?' || p[0] == w[0]) && Glob(w[1..], p[1..])
  }

  /** A pattern of `*`s only accepts the empty word; `SkipStars` at the end of the word tests exactly that. */
  lemma {:induction false} SkipStarsAtEnd(w: string, p: string, pi: nat)
    requires pi <= |p|
    ensures SkipStars(w, p, |w|, pi) == Glob([], p[pi..])
    decreases |p| - pi
  {
    if pi < |p| {
      assert p[pi..][1..] == p[pi + 1..];
      if p[pi] == '*' {
        SkipStarsAtEnd(w, p, pi + 1);
      }
    }
  }

  /** A lone `*` accepts every word. */
  lemma {:induction false} StarAcceptsAll(w: string)
    ensures Glob(w, "*")
    decreases |w|
  {
    assert "*"[1..] == [];
    if w != [] {
      StarAcceptsAll(w[1..]);
    }
  }

  lemma {:induction false} MatchesPatternIsGlob(w: string, p: string)
    ensures MatchesPattern(w, p) == Glob(w, p)
    decreases |p|, 2
  {
    MatchLoopIsGlob(w, p, 0, 0);
    assert w[0..] == w && p[0..] == p;
  }

  lemma {:induction false} MatchLoopIsGlob(w: string, p: string, wi: nat, pi: nat)
    requires wi <= |w| && pi <= |p|
    ensures MatchLoop(w, p, wi, pi) == Glob(w[wi..], p[pi..])
    decreases |p|, 1, |p| - pi
  {
    var u := w[wi..];
    var q := p[pi..];
    if wi < |w| && pi < |p| {
      assert u[0] == w[wi] && q[0] == p[pi];
      assert u[1..] == w[wi + 1..] && q[1..] == p[pi + 1..];
      if p[pi] == '*' {
        if pi + 1 == |p| {
          assert q == "*";
          StarAcceptsAll(u);
        } else {
          TryFromIsGlob(w, p, wi, pi);
        }
      } else if p[pi] == '?' || p[pi] == w[wi] {
        MatchLoopIsGlob(w, p, wi + 1, pi + 1);
      }
    } else if wi == |w| {
      SkipStarsAtEnd(w, p, pi);
    } else {
      assert q == [];
    }
  }

  lemma {:induction false} TryFromIsGlob(w: string, p: string, i: nat, pi: nat)
    requires i <= |w| && pi < |p| && p[pi] == '*'
    ensures TryFrom(w, p, i, pi) == Glob(w[i..], p[pi..])
    decreases |p|, 0, |w| - i
  {
    var u := w[i..];
    var q := p[pi..];
    assert q[1..] == p[pi + 1..];
    MatchesPatternIsGlob(u, p[pi + 1..]);
    if i < |w| {
      assert u[1..] == w[i + 1..];
      TryFromIsGlob(w, p, i + 1, pi);
    }
  }

  /** A pattern without wildcards matches exactly itself. */
  lemma {:induction false} LiteralMatchesItself(w: string, p: string)
    requires forall i :: 0 <= i < |p| ==> p[i] != '*' && p[i] != '?'
    ensures Glob(w, p) <==> w == p
    decreases |p|
  {
    if p != [] {
      LiteralMatchesItself(if w == [] then [] else w[1..], p[1..]);
      if w != [] && w[0] == p[0] {
        assert w == [w[0]] + w[1..] && p == [p[0]] + p[1..];
      }
    }
  }

  /** A pattern of `?`s only matches exactly the words of its length. */
  lemma {:induction false} QuestionsMatchLength(w: string, p: string)
    requires forall i :: 0 <= i < |p| ==> p[i] == '?'
    ensures Glob(w, p) <==> |w| == |p|
    decreases |p|
  {
    if p != [] && w != [] {
      QuestionsMatchLength(w[1..], p[1..]);
    }
  }

  /** Appending `*` to a pattern loses no word. */
  lemma {:induction false} TrailingStarKeeps(w: string, p: string)
    requires Glob(w, p)
    ensures Glob(w, p + "*")
    decreases |p|, |w|
  {
    if p == [] {
      assert p + "*" == "*";
      StarAcceptsAll(w);
    } else {
      assert (p + "*")[1..] == p[1..] + "*";
      if p[0] == '*' {
        if Glob(w, p[1..]) {
          TrailingStarKeeps(w, p[1..]);
        } else {
          TrailingStarKeeps(w[1..], p);
        }
      } else {
        TrailingStarKeeps(w[1..], p[1..]);
      }
    }
  }
}
