/**
 * Wildcard matching, shared by the two levels of the Ant-style topic matcher.
 *
 * A pattern is a sequence of elements; some elements are "stars" that absorb any
 * run (possibly empty) of subject elements, every other element matches exactly
 * one subject element through `single`.  At character level the star is '*' and
 * `single` accepts '?' or an equal character; at segment level the star is the
 * segment "**" and `single` is character-level matching of one segment.
 *
 * The lemmas below are the facts the greedy prefix / suffix / leftmost-window
 * algorithm of the matcher relies on.
 */
module Wildcard {

  /** Declarative meaning of "pattern `p` matches subject `s`". */
  predicate Match<T, U>(p: seq<T>, s: seq<U>, star: T -> bool, single: (T, U) -> bool)
    decreases |p| + |s|
  {
    if |p| == 0 then |s| == 0
    else if star(p[0]) then Match(p[1..], s, star, single) || (|s| > 0 && Match(p, s[1..], star, single))
    else |s| > 0 && single(p[0], s[0]) && Match(p[1..], s[1..], star, single)
  }

  predicate AllStars<T>(p: seq<T>, star: T -> bool) {
    forall i :: 0 <= i < |p| ==> star(p[i])
  }

  predicate NoStars<T>(p: seq<T>, star: T -> bool) {
    forall i :: 0 <= i < |p| ==> !star(p[i])
  }

  /** The star-free block `b` matches `t` element by element starting at offset `i`. */
  predicate BlockAt<T, U>(b: seq<T>, t: seq<U>, i: int, single: (T, U) -> bool) {
    0 <= i && i + |b| <= |t| && forall j :: 0 <= j < |b| ==> single(b[j], t[i + j])
  }

  /** An empty subject is matched exactly by an all-star pattern. */
  lemma {:induction false} EmptySubject<T, U>(p: seq<T>, star: T -> bool, single: (T, U) -> bool)
    ensures Match(p, [], star, single) <==> AllStars(p, star)
    decreases |p|
  {
    if |p| > 0 {
      EmptySubject(p[1..], star, single);
      assert forall i :: 1 <= i < |p| ==> p[i] == p[1..][i - 1];
    }
  }

  /** A star-free block at the front of a pattern consumes exactly its length of the subject. */
  lemma {:induction false} LiteralBlock<T, U>(b: seq<T>, r: seq<T>, t: seq<U>, star: T -> bool, single: (T, U) -> bool)
    requires NoStars(b, star)
    ensures Match(b + r, t, star, single) <==> BlockAt(b, t, 0, single) && Match(r, t[|b|..], star, single)
    decreases |b|
  {
    if |b| == 0 {
      assert b + r == r;
    } else {
      assert (b + r)[0] == b[0];
      assert (b + r)[1..] == b[1..] + r;
      if |t| > 0 {
        LiteralBlock(b[1..], r, t[1..], star, single);
        if |t| >= |b| { assert t[1..][|b| - 1..] == t[|b|..]; }
        assert BlockAt(b, t, 0, single) <==> single(b[0], t[0]) && BlockAt(b[1..], t[1..], 0, single) by {
          if single(b[0], t[0]) && BlockAt(b[1..], t[1..], 0, single) {
            forall j | 0 <= j < |b| ensures single(b[j], t[j]) {
              if j > 0 { assert b[j] == b[1..][j - 1] && t[j] == t[1..][j - 1]; }
            }
          }
          if BlockAt(b, t, 0, single) {
            forall j | 0 <= j < |b| - 1 ensures single(b[1..][j], t[1..][0 + j]) {
              assert single(b[j + 1], t[j + 1]);
            }
          }
        }
      }
    }
  }

  /** A star-free pattern matches exactly the subjects of its length that it matches element-wise. */
  lemma NoStarsMatch<T, U>(p: seq<T>, s: seq<U>, star: T -> bool, single: (T, U) -> bool)
    requires NoStars(p, star)
    ensures Match(p, s, star, single) <==> |p| == |s| && BlockAt(p, s, 0, single)
  {
    LiteralBlock(p, [], s, star, single);
    assert p + [] == p;
  }

  /** Once a literal prefix matches, only the rest of the pattern and subject matter. */
  lemma MatchAfterPrefix<T, U>(p: seq<T>, s: seq<U>, k: nat, star: T -> bool, single: (T, U) -> bool)
    requires k <= |p| && k <= |s|
    requires NoStars(p[..k], star) && BlockAt(p[..k], s, 0, single)
    ensures Match(p, s, star, single) <==> Match(p[k..], s[k..], star, single)
  {
    LiteralBlock(p[..k], p[k..], s, star, single);
    assert p[..k] + p[k..] == p;
  }

  /** A leading star may absorb any number of further leading subject elements. */
  lemma {:induction false} StarAbsorbs<T, U>(q: seq<T>, t: seq<U>, i: int, j: int, star: T -> bool, single: (T, U) -> bool)
    requires |q| > 0 && star(q[0]) && 0 <= i <= j <= |t|
    requires Match(q, t[j..], star, single)
    ensures Match(q, t[i..], star, single)
    decreases j - i
  {
    if i < j {
      StarAbsorbs(q, t, i + 1, j, star, single);
      assert t[i..][1..] == t[i + 1..];
    }
  }

  /** A non-empty all-star pattern matches every subject. */
  lemma AllStarsMatchAll<T, U>(q: seq<T>, t: seq<U>, star: T -> bool, single: (T, U) -> bool)
    requires |q| > 0 && AllStars(q, star)
    ensures Match(q, t, star, single)
  {
    EmptySubject(q, star, single);
    assert t[|t|..] == [];
    StarAbsorbs(q, t, 0, |t|, star, single);
    assert t[0..] == t;
  }

  /** Two adjacent stars behave as one. */
  lemma {:induction false} CollapseStars<T, U>(q: seq<T>, t: seq<U>, star: T -> bool, single: (T, U) -> bool)
    requires |q| > 1 && star(q[0]) && star(q[1])
    ensures Match(q, t, star, single) <==> Match(q[1..], t, star, single)
    decreases |t|
  {
    if |t| > 0 {
      CollapseStars(q, t[1..], star, single);
    }
  }

  /** Matching can be decided from the last elements when the pattern ends with a non-star. */
  lemma {:induction false} DropLast<T, U>(p: seq<T>, s: seq<U>, star: T -> bool, single: (T, U) -> bool)
    requires |p| > 0 && |s| > 0 && !star(p[|p| - 1])
    ensures Match(p, s, star, single) <==>
            single(p[|p| - 1], s[|s| - 1]) && Match(p[..|p| - 1], s[..|s| - 1], star, single)
    decreases |p| + |s|
  {
    var p', s' := p[..|p| - 1], s[..|s| - 1];
    if |p| == 1 {
      assert p' == [];
    } else if star(p[0]) {
      assert p'[0] == p[0];
      assert p'[1..] == p[1..][..|p| - 2];
      DropLast(p[1..], s, star, single);
      if |s| > 1 {
        DropLast(p, s[1..], star, single);
        assert s[1..][..|s| - 2] == s'[1..];
      } else {
        EmptySubject(p, star, single);
        assert s[1..] == [];
        assert s' == [];
      }
    } else {
      assert p'[0] == p[0];
      assert p'[1..] == p[1..][..|p| - 2];
      if |s| > 1 {
        DropLast(p[1..], s[1..], star, single);
        assert s[1..][..|s| - 2] == s'[1..];
        assert s'[0] == s[0];
      } else {
        EmptySubject(p[1..], star, single);
        assert p[1..][|p| - 2] == p[|p| - 1];
        assert s' == [];
      }
    }
  }

  /** Shape of a pattern window `q` during the middle phase: a star, then the star-free
      block `q[1..k]`, then a further star at `q[k]`. */
  ghost predicate Bracketed<T>(q: seq<T>, k: int, star: T -> bool) {
    1 < k < |q| && star(q[0]) && star(q[k]) && NoStars(q[1..k], star)
  }

  /** The pattern window `p[i..e + 1]` of the middle phase, whose next star after `i` is
      at `tmp`, has the bracketed shape with the block `p[i + 1..tmp]`. */
  lemma WindowBracket<T>(p: seq<T>, i: int, tmp: int, e: int, star: T -> bool)
    requires 0 <= i && i + 1 < tmp <= e < |p|
    requires star(p[i]) && star(p[tmp])
    requires forall j :: i + 1 <= j < tmp ==> !star(p[j])
    ensures Bracketed(p[i..e + 1], tmp - i, star)
    ensures p[i..e + 1][1..tmp - i] == p[i + 1..tmp]
    ensures p[i..e + 1][tmp - i..] == p[tmp..e + 1]
  {
    var q := p[i..e + 1];
    var blk := q[1..tmp - i];
    assert blk == p[i + 1..tmp] by {
      assert forall j :: 0 <= j < tmp - i - 1 ==> blk[j] == p[i + 1 + j];
    }
    assert q[tmp - i] == p[tmp];
    forall j | 0 <= j < |blk| ensures !star(blk[j]) {
      assert blk[j] == p[i + 1 + j];
    }
  }

  /** Positions where the block fails to occur can be skipped by the leading star. */
  lemma {:induction false} SkipNonBlocks<T, U>(q: seq<T>, k: int, t: seq<U>, x: int, y: int, star: T -> bool, single: (T, U) -> bool)
    requires Bracketed(q, k, star)
    requires 0 <= x <= y <= |t|
    requires forall i :: x <= i < y ==> !BlockAt(q[1..k], t, i, single)
    ensures Match(q, t[x..], star, single) <==> Match(q, t[y..], star, single)
    decreases y - x
  {
    if x < y {
      SkipNonBlocks(q, k, t, x + 1, y, star, single);
      assert q[1..] == q[1..k] + q[k..];
      LiteralBlock(q[1..k], q[k..], t[x..], star, single);
      assert BlockAt(q[1..k], t[x..], 0, single) ==> BlockAt(q[1..k], t, x, single) by {
        if BlockAt(q[1..k], t[x..], 0, single) {
          forall j | 0 <= j < k - 1 ensures single(q[1..k][j], t[x + j]) {
            assert t[x..][0 + j] == t[x + j];
          }
        }
      }
      assert t[x..][1..] == t[x + 1..];
    }
  }

  /** If no window position holds the block, the pattern cannot match. */
  lemma {:induction false} NoBlockNoMatch<T, U>(q: seq<T>, k: int, t: seq<U>, x: int, star: T -> bool, single: (T, U) -> bool)
    requires Bracketed(q, k, star)
    requires 0 <= x <= |t|
    requires forall i :: x <= i <= |t| - (k - 1) ==> !BlockAt(q[1..k], t, i, single)
    ensures !Match(q, t[x..], star, single)
    decreases |t| - x
  {
    assert q[1..] == q[1..k] + q[k..];
    LiteralBlock(q[1..k], q[k..], t[x..], star, single);
    assert BlockAt(q[1..k], t[x..], 0, single) ==> BlockAt(q[1..k], t, x, single) by {
      if BlockAt(q[1..k], t[x..], 0, single) {
        forall j | 0 <= j < k - 1 ensures single(q[1..k][j], t[x + j]) {
          assert t[x..][0 + j] == t[x + j];
        }
      }
    }
    if x < |t| {
      NoBlockNoMatch(q, k, t, x + 1, star, single);
      assert t[x..][1..] == t[x + 1..];
    }
  }

  /** Any match of the window from position `x` on leaves a match of the tail `q[k..]`
      from every position up to `x` plus the block length. */
  lemma {:induction false} AbsorbLater<T, U>(q: seq<T>, k: int, t: seq<U>, x: int, y: int, star: T -> bool, single: (T, U) -> bool)
    requires Bracketed(q, k, star)
    requires 0 <= x <= |t| && 0 <= y <= x + (k - 1) && y <= |t|
    requires Match(q, t[x..], star, single)
    ensures Match(q[k..], t[y..], star, single)
    decreases |t| - x
  {
    assert q[1..] == q[1..k] + q[k..];
    LiteralBlock(q[1..k], q[k..], t[x..], star, single);
    if Match(q[1..], t[x..], star, single) {
      assert t[x..][k - 1..] == t[x + k - 1..];
      StarAbsorbs(q[k..], t, y, x + k - 1, star, single);
    } else {
      assert x < |t|;
      assert t[x..][1..] == t[x + 1..];
      AbsorbLater(q, k, t, x + 1, y, star, single);
    }
  }

  /** The greedy step: when the block first occurs at `i0`, matching the window reduces to
      matching the tail `q[k..]` right after that occurrence. */
  lemma LeftmostBlock<T, U>(q: seq<T>, k: int, t: seq<U>, i0: int, star: T -> bool, single: (T, U) -> bool)
    requires Bracketed(q, k, star)
    requires BlockAt(q[1..k], t, i0, single)
    requires forall i :: 0 <= i < i0 ==> !BlockAt(q[1..k], t, i, single)
    ensures Match(q, t, star, single) <==> Match(q[k..], t[i0 + k - 1..], star, single)
  {
    SkipNonBlocks(q, k, t, 0, i0, star, single);
    assert t[0..] == t;
    assert q[1..] == q[1..k] + q[k..];
    LiteralBlock(q[1..k], q[k..], t[i0..], star, single);
    assert BlockAt(q[1..k], t[i0..], 0, single) by {
      forall j | 0 <= j < k - 1 ensures single(q[1..k][j], t[i0..][0 + j]) {
        assert t[i0..][0 + j] == t[i0 + j];
      }
    }
    assert t[i0..][k - 1..] == t[i0 + k - 1..];
    if i0 < |t| && Match(q, t[i0..][1..], star, single) {
      assert t[i0..][1..] == t[i0 + 1..];
      AbsorbLater(q, k, t, i0 + 1, i0 + k - 1, star, single);
    }
  }

  /** One window step of the middle phase: the block between the stars at `i` and
      `tmp` is placed at its leftmost occurrence in the subject window, and matching
      resumes at the star `tmp` just after that occurrence. */
  lemma WindowAdvance<T, U>(p: seq<T>, i: int, tmp: int, e: int, s: seq<U>, si: int, se: int,
                            b: seq<T>, t: seq<U>, offset: int, star: T -> bool, single: (T, U) -> bool)
    requires 0 <= i && i + 1 < tmp <= e < |p|
    requires star(p[i]) && star(p[tmp])
    requires forall j :: i + 1 <= j < tmp ==> !star(p[j])
    requires 0 <= si <= se + 1 <= |s|
    requires b == p[i + 1..tmp] && t == s[si..se + 1]
    requires BlockAt(b, t, offset, single)
    requires forall x :: 0 <= x < offset ==> !BlockAt(b, t, x, single)
    ensures si + offset + (tmp - i - 1) <= se + 1
    ensures Match(p[i..e + 1], s[si..se + 1], star, single)
        <==> Match(p[tmp..e + 1], s[si + offset + (tmp - i - 1)..se + 1], star, single)
  {
    var q, k := p[i..e + 1], tmp - i;
    WindowBracket(p, i, tmp, e, star);
    LeftmostBlock(q, k, t, offset, star, single);
    assert t[offset + k - 1..] == s[si + offset + (tmp - i - 1)..se + 1];
  }

  /** A window step that finds no occurrence of the block: the window cannot match. */
  lemma WindowMiss<T, U>(p: seq<T>, i: int, tmp: int, e: int, s: seq<U>, si: int, se: int,
                         b: seq<T>, t: seq<U>, star: T -> bool, single: (T, U) -> bool)
    requires 0 <= i && i + 1 < tmp <= e < |p|
    requires star(p[i]) && star(p[tmp])
    requires forall j :: i + 1 <= j < tmp ==> !star(p[j])
    requires 0 <= si <= se + 1 <= |s|
    requires b == p[i + 1..tmp] && t == s[si..se + 1]
    requires forall x :: 0 <= x <= |t| - |b| ==> !BlockAt(b, t, x, single)
    ensures !Match(p[i..e + 1], s[si..se + 1], star, single)
  {
    var q, k := p[i..e + 1], tmp - i;
    WindowBracket(p, i, tmp, e, star);
    assert t[0..] == t;
    NoBlockNoMatch(q, k, t, 0, star, single);
  }

  /** A literal prefix that breaks down at position `k` rules the match out. */
  lemma FirstMismatch<T, U>(p: seq<T>, s: seq<U>, k: nat, star: T -> bool, single: (T, U) -> bool)
    requires k < |p| && k < |s|
    requires NoStars(p[..k + 1], star) && BlockAt(p[..k], s, 0, single) && !single(p[k], s[k])
    ensures !Match(p, s, star, single)
  {
    assert forall i :: 0 <= i < k ==> p[..k][i] == p[..k + 1][i];
    assert p[..k + 1][k] == p[k];
    MatchAfterPrefix(p, s, k, star, single);
    assert p[k..][0] == p[k] && s[k..][0] == s[k];
  }

  /** A literal prefix that matched element-wise grows by one matching element. */
  lemma BlockGrow<T, U>(p: seq<T>, s: seq<U>, k: nat, single: (T, U) -> bool)
    requires k < |p| && k < |s|
    requires BlockAt(p[..k], s, 0, single) && single(p[k], s[k])
    ensures BlockAt(p[..k + 1], s, 0, single)
  {
    forall j | 0 <= j < k + 1
      ensures single(p[..k + 1][j], s[j])
    {
      if j < k {
        assert p[..k + 1][j] == p[..k][j];
      }
    }
  }

  /** The star-free prefix grows by one non-star element. */
  lemma NoStarsGrow<T>(p: seq<T>, k: nat, star: T -> bool)
    requires k < |p| && NoStars(p[..k], star) && !star(p[k])
    ensures NoStars(p[..k + 1], star)
  {
    assert forall j :: 0 <= j < k ==> p[..k + 1][j] == p[..k][j];
  }

  /** Matches compose: a pattern made of two parts matches a subject made of two
      parts the parts match. */
  lemma {:induction false} MatchConcat<T, U>(p1: seq<T>, s1: seq<U>, p2: seq<T>, s2: seq<U>, star: T -> bool, single: (T, U) -> bool)
    requires Match(p1, s1, star, single) && Match(p2, s2, star, single)
    ensures Match(p1 + p2, s1 + s2, star, single)
    decreases |p1| + |s1|
  {
    if |p1| == 0 {
      assert p1 + p2 == p2 && s1 + s2 == s2;
    } else {
      assert (p1 + p2)[0] == p1[0] && (p1 + p2)[1..] == p1[1..] + p2;
      if star(p1[0]) && Match(p1[1..], s1, star, single) {
        MatchConcat(p1[1..], s1, p2, s2, star, single);
      } else if star(p1[0]) {
        MatchConcat(p1, s1[1..], p2, s2, star, single);
        assert (s1 + s2)[1..] == s1[1..] + s2;
      } else {
        MatchConcat(p1[1..], s1[1..], p2, s2, star, single);
        assert (s1 + s2)[0] == s1[0] && (s1 + s2)[1..] == s1[1..] + s2;
      }
    }
  }

  /** The first star of `p` in the index range `from..to` (both inclusive), or -1. */
  method FirstStar<T>(p: seq<T>, from: int, to: int, star: T -> bool) returns (idx: int)
    requires 0 <= from && to < |p|
    ensures idx == -1 || from <= idx <= to
    ensures idx == -1 ==> forall i :: from <= i <= to ==> !star(p[i])
    ensures idx != -1 ==> star(p[idx]) && forall i :: from <= i < idx ==> !star(p[i])
  {
    idx := -1;
    var i := from;
    while i <= to
      invariant from <= i && (i <= to + 1 || i == from)
      invariant forall j :: from <= j < i ==> !star(p[j])
    {
      if star(p[i]) {
        idx := i;
        return;
      }
      i := i + 1;
    }
  }

  /** Whether every element of `p` in the index range `from..to` (both inclusive) is a star. */
  method AllStarsIn<T>(p: seq<T>, from: int, to: int, star: T -> bool) returns (b: bool)
    requires 0 <= from && to < |p| && from <= to + 1
    ensures b <==> AllStars(p[from..to + 1], star)
  {
    var i := from;
    while i <= to
      invariant from <= i <= to + 1
      invariant forall j :: from <= j < i ==> star(p[j])
    {
      if !star(p[i]) {
        assert p[from..to + 1][i - from] == p[i];
        return false;
      }
      i := i + 1;
    }
    ghost var w := p[from..to + 1];
    assert forall j :: 0 <= j < |w| ==> w[j] == p[from + j];
    return true;
  }

  /** Leftmost offset at which the star-free block `b` matches the window `t` element-wise,
      or -1 when there is none (the sliding-window search of both matcher levels). */
  method FindBlock<T, U>(b: seq<T>, t: seq<U>, single: (T, U) -> bool) returns (foundIdx: int)
    requires 0 < |b|
    ensures foundIdx == -1 ==> forall i :: 0 <= i <= |t| - |b| ==> !BlockAt(b, t, i, single)
    ensures foundIdx != -1 ==>
      && BlockAt(b, t, foundIdx, single)
      && forall i :: 0 <= i < foundIdx ==> !BlockAt(b, t, i, single)
  {
    foundIdx := -1;
    var i := 0;
    while i <= |t| - |b|
      invariant 0 <= i
      invariant forall i' :: 0 <= i' < i ==> !BlockAt(b, t, i', single)
    {
      var j := 0;
      while j < |b|
        invariant 0 <= j <= |b|
        invariant forall j' :: 0 <= j' < j ==> single(b[j'], t[i + j'])
      {
        if !single(b[j], t[i + j]) {
          break;
        }
        j := j + 1;
      }
      if j == |b| {
        foundIdx := i;
        return;
      }
      i := i + 1;
    }
  }
}
