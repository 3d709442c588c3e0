/**
 * The Ant-style pattern matcher behind `Topics.match(pattern)`.
 *
 * A topic name and a pattern are both cut into segments at '/'.  Inside a segment
 * '*' stands for any run of characters and '?' for any single character; the
 * segment "**" stands for any run of whole segments.  The matcher decides this
 * greedily: literal elements are consumed from the front, then from the back, and
 * the star-bracketed blocks in between are placed at their leftmost occurrence.
 * Both levels are proved equal to the declarative `Wildcard.Match`.
 */
module TopicsMatcher {
  import opened Wildcard
  import opened Tokenizer

  // ---------------------------------------------------------------------------
  // Character level: one pattern segment against one name segment.

  predicate IsStarChar(c: char) {
    c == '*'
  }

  /** A non-star pattern character accepts the subject character. */
  predicate CharMatches(p: char, c: char) {
    p == '?' || p == c
  }

  /** Declarative meaning of a segment pattern. */
  predicate Glob(pattern: string, str: string) {
    Match(pattern, str, IsStarChar, CharMatches)
  }

  // ---------------------------------------------------------------------------
  // Segment level: the segments of a pattern against those of a name.

  predicate IsDoubleStar(segment: string) {
    segment == "**"
  }

  /** Declarative meaning of a segment sequence pattern. */
  predicate Segments(pattDirs: seq<string>, pathDirs: seq<string>) {
    Match(pattDirs, pathDirs, IsDoubleStar, Glob)
  }

  predicate StartsWithSep(s: string) {
    |s| > 0 && s[0] == '/'
  }

  predicate EndsWithSep(s: string) {
    |s| > 0 && s[|s| - 1] == '/'
  }

  /**
   * The outcome of matching the segments, including the matcher's two departures
   * from plain segment matching:
   *  - a pattern without "**" that has as many segments as the name also needs the
   *    name to end with '/' exactly when the pattern does;
   *  - a pattern without "**" whose last segment is a lone '*' also matches a name
   *    that ends with '/' and has one segment fewer, provided the other pattern
   *    segments match it (the pattern "a" "/" "*" matches the name "a/").
   */
  predicate TokensMatch(pattDirs: seq<string>, pathDirs: seq<string>, pattTrailing: bool, pathTrailing: bool) {
    if NoStars(pattDirs, IsDoubleStar) && |pattDirs| == |pathDirs| then
      Segments(pattDirs, pathDirs) && (pattTrailing <==> pathTrailing)
    else
      Segments(pattDirs, pathDirs) || EmptyLastSegment(pattDirs, pathDirs, pathTrailing)
  }

  /** The lone-star last segment against a trailing '/' of the name. */
  predicate EmptyLastSegment(pattDirs: seq<string>, pathDirs: seq<string>, pathTrailing: bool) {
    && pathTrailing
    && |pattDirs| == |pathDirs| + 1
    && pattDirs[|pathDirs|] == "*"
    && NoStars(pattDirs, IsDoubleStar)
    && Segments(pattDirs[..|pathDirs|], pathDirs)
  }

  /** Whether the topic name `path` is matched by `pattern`: a leading '/' must be
      present on both or on neither, then the segments decide. */
  predicate TopicMatch(pattern: string, path: string) {
    && (StartsWithSep(pattern) <==> StartsWithSep(path))
    && TokensMatch(Tokens(pattern), Tokens(path), EndsWithSep(pattern), EndsWithSep(path))
  }

  // ---------------------------------------------------------------------------
  // The character-level algorithm.

  /** Character-level matching of one segment, as the matcher computes it. */
  method MatchStrings(pattern: string, str: string) returns (b: bool)
    ensures b == Glob(pattern, str)
  {
    var p, s := pattern, str;
    var starAt := FirstStar(p, 0, |p| - 1, IsStarChar);
    if starAt == -1 {
      assert NoStars(p, IsStarChar);
      b := MatchLiteral(p, s);
      return;
    }
    if |p| - 1 == 0 {
      AllStarsMatchAll(p, s, IsStarChar, CharMatches);
      return true;
    }
    var patIdxStart, patIdxEnd, strIdxStart, strIdxEnd := 0, |p| - 1, 0, |s| - 1;

    // Literal characters at the front.
    while p[patIdxStart] != '*' && strIdxStart <= strIdxEnd
      invariant 0 <= patIdxStart <= starAt && strIdxStart == patIdxStart
      invariant strIdxEnd == |s| - 1 && patIdxEnd == |p| - 1
      invariant NoStars(p[..patIdxStart], IsStarChar)
      invariant BlockAt(p[..patIdxStart], s, 0, CharMatches)
      decreases starAt - patIdxStart
    {
      NoStarsGrow(p, patIdxStart, IsStarChar);
      if p[patIdxStart] != '?' && p[patIdxStart] != s[strIdxStart] {
        FirstMismatch(p, s, patIdxStart, IsStarChar, CharMatches);
        return false;
      }
      BlockGrow(p, s, patIdxStart, CharMatches);
      patIdxStart := patIdxStart + 1;
      strIdxStart := strIdxStart + 1;
    }
    MatchAfterPrefix(p, s, patIdxStart, IsStarChar, CharMatches);
    assert p[patIdxStart..] == p[patIdxStart..patIdxEnd + 1];
    assert s[strIdxStart..] == s[strIdxStart..strIdxEnd + 1];
    if strIdxStart > strIdxEnd {
      b := RestIsStars(p, patIdxStart, patIdxEnd, s, strIdxStart, strIdxEnd);
      return;
    }

    // Literal characters at the back, then the middle.
    b := MatchBack(p, patIdxStart, s, strIdxStart);
  }

  /** A pattern without '*': same length, and every character equal or '?'. */
  method MatchLiteral(p: string, s: string) returns (b: bool)
    requires NoStars(p, IsStarChar)
    ensures b == Glob(p, s)
  {
    NoStarsMatch(p, s, IsStarChar, CharMatches);
    if |p| != |s| {
      return false;
    }
    var i := 0;
    while i < |p|
      invariant 0 <= i <= |p|
      invariant forall j :: 0 <= j < i ==> CharMatches(p[j], s[j])
    {
      if p[i] != '?' && p[i] != s[i] {
        return false;
      }
      i := i + 1;
    }
    return true;
  }

  /** The phases after the literal front: literal characters at the back, the exit
      once the subject is used up, and the middle phase. */
  method MatchBack(p: string, patIdxStart: int, s: string, strIdxStart: int) returns (b: bool)
    requires 0 <= patIdxStart < |p| && p[patIdxStart] == '*'
    requires 0 <= strIdxStart < |s|
    ensures b == Glob(p[patIdxStart..], s[strIdxStart..])
  {
    var patIdxEnd, strIdxEnd := |p| - 1, |s| - 1;
    assert p[patIdxStart..] == p[patIdxStart..patIdxEnd + 1];
    assert s[strIdxStart..] == s[strIdxStart..strIdxEnd + 1];
    while p[patIdxEnd] != '*' && strIdxStart <= strIdxEnd
      invariant 0 <= patIdxStart <= patIdxEnd < |p|
      invariant 0 <= strIdxStart <= strIdxEnd + 1 <= |s|
      invariant Glob(p[patIdxStart..], s[strIdxStart..]) <==> Glob(p[patIdxStart..patIdxEnd + 1], s[strIdxStart..strIdxEnd + 1])
      decreases patIdxEnd
    {
      ghost var q, t := p[patIdxStart..patIdxEnd + 1], s[strIdxStart..strIdxEnd + 1];
      DropLast(q, t, IsStarChar, CharMatches);
      assert q[..|q| - 1] == p[patIdxStart..patIdxEnd];
      assert t[..|t| - 1] == s[strIdxStart..strIdxEnd];
      if p[patIdxEnd] != '?' && p[patIdxEnd] != s[strIdxEnd] {
        return false;
      }
      patIdxEnd := patIdxEnd - 1;
      strIdxEnd := strIdxEnd - 1;
    }
    if strIdxStart > strIdxEnd {
      b := RestIsStars(p, patIdxStart, patIdxEnd, s, strIdxStart, strIdxEnd);
      return;
    }
    b := GlobMiddle(p, patIdxStart, patIdxEnd, s, strIdxStart, strIdxEnd);
  }

  /** The exit taken once the subject is used up: what is left of the pattern must be
      stars only. */
  method RestIsStars(p: string, patIdxStart: int, patIdxEnd: int, s: string, strIdxStart: int, strIdxEnd: int)
    returns (b: bool)
    requires 0 <= patIdxStart <= patIdxEnd + 1 <= |p|
    requires 0 <= strIdxStart == strIdxEnd + 1 <= |s|
    ensures b == Glob(p[patIdxStart..patIdxEnd + 1], s[strIdxStart..strIdxEnd + 1])
  {
    b := AllStarsIn(p, patIdxStart, patIdxEnd, IsStarChar);
    assert s[strIdxStart..strIdxEnd + 1] == [];
    EmptySubject(p[patIdxStart..patIdxEnd + 1], IsStarChar, CharMatches);
  }

  /** The middle phase: the pattern window starts and ends with '*'; each star-free block
      between two stars is placed at its leftmost occurrence in the subject window. */
  method GlobMiddle(p: string, patIdxStart0: int, patIdxEnd: int, s: string, strIdxStart0: int, strIdxEnd: int)
    returns (b: bool)
    requires 0 <= patIdxStart0 <= patIdxEnd < |p|
    requires p[patIdxStart0] == '*' && p[patIdxEnd] == '*'
    requires 0 <= strIdxStart0 <= strIdxEnd + 1 <= |s|
    ensures b == Glob(p[patIdxStart0..patIdxEnd + 1], s[strIdxStart0..strIdxEnd + 1])
  {
    var patIdxStart, strIdxStart := patIdxStart0, strIdxStart0;
    while patIdxStart != patIdxEnd && strIdxStart <= strIdxEnd
      invariant patIdxStart0 <= patIdxStart <= patIdxEnd
      invariant p[patIdxStart] == '*'
      invariant strIdxStart0 <= strIdxStart <= strIdxEnd + 1
      invariant Glob(p[patIdxStart0..patIdxEnd + 1], s[strIdxStart0..strIdxEnd + 1])
                <==> Glob(p[patIdxStart..patIdxEnd + 1], s[strIdxStart..strIdxEnd + 1])
      decreases patIdxEnd - patIdxStart
    {
      ghost var q, t := p[patIdxStart..patIdxEnd + 1], s[strIdxStart..strIdxEnd + 1];
      var patIdxTmp := FirstStar(p, patIdxStart + 1, patIdxEnd, IsStarChar);
      assert IsStarChar(p[patIdxEnd]);
      if patIdxTmp == patIdxStart + 1 {
        CollapseStars(q, t, IsStarChar, CharMatches);
        assert q[1..] == p[patIdxStart + 1..patIdxEnd + 1];
        patIdxStart := patIdxStart + 1;
        continue;
      }
      var patLength := patIdxTmp - patIdxStart - 1;
      ghost var blk, win := p[patIdxStart + 1..patIdxTmp], s[strIdxStart..strIdxEnd + 1];
      var offset := FindBlock(p[patIdxStart + 1..patIdxTmp], s[strIdxStart..strIdxEnd + 1], CharMatches);
      if offset == -1 {
        WindowMiss(p, patIdxStart, patIdxTmp, patIdxEnd, s, strIdxStart, strIdxEnd, blk, win, IsStarChar, CharMatches);
        return false;
      }
      WindowAdvance(p, patIdxStart, patIdxTmp, patIdxEnd, s, strIdxStart, strIdxEnd, blk, win, offset, IsStarChar, CharMatches);
      var foundIdx := strIdxStart + offset;
      patIdxStart := patIdxTmp;
      strIdxStart := foundIdx + patLength;
    }
    ghost var q, t := p[patIdxStart..patIdxEnd + 1], s[strIdxStart..strIdxEnd + 1];
    b := AllStarsIn(p, patIdxStart, patIdxEnd, IsStarChar);
    if b {
      AllStarsMatchAll(q, t, IsStarChar, CharMatches);
    } else {
      assert t == [];
      EmptySubject(q, IsStarChar, CharMatches);
    }
  }

  // ---------------------------------------------------------------------------
  // The segment-level algorithm.

  /** Matching of a topic name against a pattern, as the matcher computes it (with
      the full-match flag the matcher always passes). */
  method DoMatch(pattern: string, path: string) returns (b: bool)
    ensures b == TopicMatch(pattern, path)
  {
    if StartsWithSep(path) != StartsWithSep(pattern) {
      return false;
    }
    var pattDirs := TokenizeToStringArray(pattern);
    var pathDirs := TokenizeToStringArray(path);
    b := MatchDirs(pattDirs, pathDirs, EndsWithSep(pattern), EndsWithSep(path));
  }

  /** The segment phases of the matcher, on the tokenized pattern and name. */
  method MatchDirs(pattDirs: seq<string>, pathDirs: seq<string>, pattTrailing: bool, pathTrailing: bool)
    returns (b: bool)
    ensures b == TokensMatch(pattDirs, pathDirs, pattTrailing, pathTrailing)
  {
    var P, Q := pattDirs, pathDirs;
    var pattIdxStart, pattIdxEnd, pathIdxStart, pathIdxEnd := 0, |P| - 1, 0, |Q| - 1;

    // Literal segments at the front, up to the first "**".
    while pattIdxStart <= pattIdxEnd && pathIdxStart <= pathIdxEnd
      invariant 0 <= pattIdxStart <= |P| && pathIdxStart == pattIdxStart && pathIdxStart <= |Q|
      invariant pattIdxEnd == |P| - 1 && pathIdxEnd == |Q| - 1
      invariant NoStars(P[..pattIdxStart], IsDoubleStar)
      invariant BlockAt(P[..pattIdxStart], Q, 0, Glob)
      decreases |P| - pattIdxStart
    {
      if P[pattIdxStart] == "**" {
        break;
      }
      NoStarsGrow(P, pattIdxStart, IsDoubleStar);
      var m := MatchStrings(P[pattIdxStart], Q[pathIdxStart]);
      if !m {
        PrefixMismatch(P, Q, pattIdxStart, pattTrailing, pathTrailing);
        return false;
      }
      BlockGrow(P, Q, pattIdxStart, Glob);
      pattIdxStart := pattIdxStart + 1;
      pathIdxStart := pathIdxStart + 1;
    }
    if pathIdxStart > pathIdxEnd {
      if pattIdxStart > pattIdxEnd {
        BothConsumed(P, Q, pattTrailing, pathTrailing);
        return if pattTrailing then pathTrailing else !pathTrailing;
      }
      if pattIdxStart == pattIdxEnd && P[pattIdxStart] == "*" && pathTrailing {
        LoneStarAtEnd(P, Q, pattTrailing, pathTrailing);
        return true;
      }
      PathConsumed(P, Q, pattTrailing, pathTrailing);
      b := AllStarsIn(P, pattIdxStart, pattIdxEnd, IsDoubleStar);
      assert P[pattIdxStart..pattIdxEnd + 1] == P[|Q|..];
      return;
    } else if pattIdxStart > pattIdxEnd {
      PatternConsumed(P, Q, pattTrailing, pathTrailing);
      return false;
    }
    ReachedDoubleStar(P, Q, pattIdxStart, pattTrailing, pathTrailing);
    b := MatchDirsBack(P, pattIdxStart, Q, pathIdxStart);
  }

  /** The phases after the first "**" of the pattern: literal segments at the back, then
      the exits, then the middle. */
  method MatchDirsBack(P: seq<string>, pattIdxStart: int, Q: seq<string>, pathIdxStart: int) returns (b: bool)
    requires 0 <= pattIdxStart < |P| && P[pattIdxStart] == "**"
    requires 0 <= pathIdxStart < |Q|
    ensures b == Segments(P[pattIdxStart..], Q[pathIdxStart..])
  {
    var pattIdxEnd, pathIdxEnd := |P| - 1, |Q| - 1;
    assert P[pattIdxStart..] == P[pattIdxStart..pattIdxEnd + 1];
    assert Q[pathIdxStart..] == Q[pathIdxStart..pathIdxEnd + 1];

    // Literal segments at the back, up to the last "**".
    while pattIdxStart <= pattIdxEnd && pathIdxStart <= pathIdxEnd
      invariant pattIdxStart <= pattIdxEnd < |P|
      invariant pathIdxStart <= pathIdxEnd + 1 <= |Q|
      invariant Segments(P[pattIdxStart..], Q[pathIdxStart..])
                <==> Segments(P[pattIdxStart..pattIdxEnd + 1], Q[pathIdxStart..pathIdxEnd + 1])
      decreases pattIdxEnd
    {
      if P[pattIdxEnd] == "**" {
        break;
      }
      ghost var q, t := P[pattIdxStart..pattIdxEnd + 1], Q[pathIdxStart..pathIdxEnd + 1];
      DropLast(q, t, IsDoubleStar, Glob);
      assert q[..|q| - 1] == P[pattIdxStart..pattIdxEnd];
      assert t[..|t| - 1] == Q[pathIdxStart..pathIdxEnd];
      var m := MatchStrings(P[pattIdxEnd], Q[pathIdxEnd]);
      if !m {
        return false;
      }
      pattIdxEnd := pattIdxEnd - 1;
      pathIdxEnd := pathIdxEnd - 1;
    }
    if pathIdxStart > pathIdxEnd {
      b := RestIsDoubleStars(P, pattIdxStart, pattIdxEnd, Q, pathIdxStart, pathIdxEnd);
      return;
    }

    b := SegmentsMiddle(P, pattIdxStart, pattIdxEnd, Q, pathIdxStart, pathIdxEnd);
  }

  /** The exit taken once the name's segments are used up: what is left of the pattern
      must be "**" only. */
  method RestIsDoubleStars(P: seq<string>, pattIdxStart: int, pattIdxEnd: int, Q: seq<string>, pathIdxStart: int, pathIdxEnd: int)
    returns (b: bool)
    requires 0 <= pattIdxStart <= pattIdxEnd + 1 <= |P|
    requires 0 <= pathIdxStart == pathIdxEnd + 1 <= |Q|
    ensures b == Segments(P[pattIdxStart..pattIdxEnd + 1], Q[pathIdxStart..pathIdxEnd + 1])
  {
    b := AllStarsIn(P, pattIdxStart, pattIdxEnd, IsDoubleStar);
    assert Q[pathIdxStart..pathIdxEnd + 1] == [];
    EmptySubject(P[pattIdxStart..pattIdxEnd + 1], IsDoubleStar, Glob);
  }

  /** Leftmost offset at which the star-free segments `b` match the window `t` one by
      one, or -1 when there is none. */
  method FindSegments(b: seq<string>, t: seq<string>) returns (foundIdx: int)
    requires 0 < |b|
    ensures foundIdx == -1 ==> forall i :: 0 <= i <= |t| - |b| ==> !BlockAt(b, t, i, Glob)
    ensures foundIdx != -1 ==>
      && BlockAt(b, t, foundIdx, Glob)
      && forall i :: 0 <= i < foundIdx ==> !BlockAt(b, t, i, Glob)
  {
    foundIdx := -1;
    var i := 0;
    while i <= |t| - |b|
      invariant 0 <= i
      invariant forall i' :: 0 <= i' < i ==> !BlockAt(b, t, i', Glob)
    {
      var j := 0;
      var m := true;
      while j < |b|
        invariant 0 <= j <= |b|
        invariant forall j' :: 0 <= j' < j ==> Glob(b[j'], t[i + j'])
      {
        m := MatchStrings(b[j], t[i + j]);
        if !m {
          break;
        }
        j := j + 1;
      }
      if j == |b| {
        foundIdx := i;
        return;
      }
      i := i + 1;
    }
  }

  /** The middle phase at segment level: the pattern window starts and ends with "**";
      each block of segments between two of them is placed at its leftmost occurrence. */
  method SegmentsMiddle(P: seq<string>, pattIdxStart0: int, pattIdxEnd: int, Q: seq<string>, pathIdxStart0: int, pathIdxEnd: int)
    returns (b: bool)
    requires 0 <= pattIdxStart0 <= pattIdxEnd < |P|
    requires P[pattIdxStart0] == "**" && P[pattIdxEnd] == "**"
    requires 0 <= pathIdxStart0 <= pathIdxEnd + 1 <= |Q|
    ensures b == Segments(P[pattIdxStart0..pattIdxEnd + 1], Q[pathIdxStart0..pathIdxEnd + 1])
  {
    var pattIdxStart, pathIdxStart := pattIdxStart0, pathIdxStart0;
    while pattIdxStart != pattIdxEnd && pathIdxStart <= pathIdxEnd
      invariant pattIdxStart0 <= pattIdxStart <= pattIdxEnd
      invariant P[pattIdxStart] == "**"
      invariant pathIdxStart0 <= pathIdxStart <= pathIdxEnd + 1
      invariant Segments(P[pattIdxStart0..pattIdxEnd + 1], Q[pathIdxStart0..pathIdxEnd + 1])
                <==> Segments(P[pattIdxStart..pattIdxEnd + 1], Q[pathIdxStart..pathIdxEnd + 1])
      decreases pattIdxEnd - pattIdxStart
    {
      ghost var q, t := P[pattIdxStart..pattIdxEnd + 1], Q[pathIdxStart..pathIdxEnd + 1];
      var patIdxTmp := FirstStar(P, pattIdxStart + 1, pattIdxEnd, IsDoubleStar);
      assert IsDoubleStar(P[pattIdxEnd]);
      if patIdxTmp == pattIdxStart + 1 {
        CollapseStars(q, t, IsDoubleStar, Glob);
        assert q[1..] == P[pattIdxStart + 1..pattIdxEnd + 1];
        pattIdxStart := pattIdxStart + 1;
        continue;
      }
      var patLength := patIdxTmp - pattIdxStart - 1;
      ghost var blk, win := P[pattIdxStart + 1..patIdxTmp], Q[pathIdxStart..pathIdxEnd + 1];
      var offset := FindSegments(P[pattIdxStart + 1..patIdxTmp], Q[pathIdxStart..pathIdxEnd + 1]);
      if offset == -1 {
        WindowMiss(P, pattIdxStart, patIdxTmp, pattIdxEnd, Q, pathIdxStart, pathIdxEnd, blk, win, IsDoubleStar, Glob);
        return false;
      }
      WindowAdvance(P, pattIdxStart, patIdxTmp, pattIdxEnd, Q, pathIdxStart, pathIdxEnd, blk, win, offset, IsDoubleStar, Glob);
      var foundIdx := pathIdxStart + offset;
      pattIdxStart := patIdxTmp;
      pathIdxStart := foundIdx + patLength;
    }
    ghost var q, t := P[pattIdxStart..pattIdxEnd + 1], Q[pathIdxStart..pathIdxEnd + 1];
    b := AllStarsIn(P, pattIdxStart, pattIdxEnd, IsDoubleStar);
    if b {
      AllStarsMatchAll(q, t, IsDoubleStar, Glob);
    } else {
      assert t == [];
      EmptySubject(q, IsDoubleStar, Glob);
    }
  }

  // ---------------------------------------------------------------------------
  // The exits of the front phase, each tied to the declarative outcome.

  /** A front segment that does not match rules the pattern out. */
  lemma PrefixMismatch(P: seq<string>, Q: seq<string>, k: nat, pattTrailing: bool, pathTrailing: bool)
    requires k < |P| && k < |Q|
    requires NoStars(P[..k + 1], IsDoubleStar) && BlockAt(P[..k], Q, 0, Glob) && !Glob(P[k], Q[k])
    ensures !TokensMatch(P, Q, pattTrailing, pathTrailing)
  {
    FirstMismatch(P, Q, k, IsDoubleStar, Glob);
    if |P| == |Q| + 1 {
      var P' := P[..|Q|];
      assert P'[..k + 1] == P[..k + 1] && P'[..k] == P[..k] && P'[k] == P[k];
      FirstMismatch(P', Q, k, IsDoubleStar, Glob);
    }
  }

  /** Pattern and name ran out together: only the trailing separators decide. */
  lemma BothConsumed(P: seq<string>, Q: seq<string>, pattTrailing: bool, pathTrailing: bool)
    requires |P| == |Q|
    requires NoStars(P[..|P|], IsDoubleStar) && BlockAt(P[..|P|], Q, 0, Glob)
    ensures TokensMatch(P, Q, pattTrailing, pathTrailing) <==> (pattTrailing <==> pathTrailing)
  {
    assert P[..|P|] == P;
    NoStarsMatch(P, Q, IsDoubleStar, Glob);
  }

  /** The name ran out one segment early, the pattern's last segment is a lone '*' and
      the name ends with '/': a match. */
  lemma LoneStarAtEnd(P: seq<string>, Q: seq<string>, pattTrailing: bool, pathTrailing: bool)
    requires |P| == |Q| + 1 && P[|Q|] == "*" && pathTrailing
    requires NoStars(P[..|Q|], IsDoubleStar) && BlockAt(P[..|Q|], Q, 0, Glob)
    ensures TokensMatch(P, Q, pattTrailing, pathTrailing)
  {
    assert NoStars(P, IsDoubleStar) by {
      assert forall i :: 0 <= i < |Q| ==> P[i] == P[..|Q|][i];
    }
    NoStarsMatch(P[..|Q|], Q, IsDoubleStar, Glob);
  }

  /** The name ran out first otherwise: the rest of the pattern must be "**" only. */
  lemma PathConsumed(P: seq<string>, Q: seq<string>, pattTrailing: bool, pathTrailing: bool)
    requires |Q| < |P|
    requires NoStars(P[..|Q|], IsDoubleStar) && BlockAt(P[..|Q|], Q, 0, Glob)
    requires !(|P| == |Q| + 1 && P[|Q|] == "*" && pathTrailing)
    ensures TokensMatch(P, Q, pattTrailing, pathTrailing) <==> AllStars(P[|Q|..], IsDoubleStar)
  {
    MatchAfterPrefix(P, Q, |Q|, IsDoubleStar, Glob);
    assert Q[|Q|..] == [];
    EmptySubject(P[|Q|..], IsDoubleStar, Glob);
  }

  /** The pattern ran out first without meeting "**": no match. */
  lemma PatternConsumed(P: seq<string>, Q: seq<string>, pattTrailing: bool, pathTrailing: bool)
    requires |P| < |Q|
    requires NoStars(P[..|P|], IsDoubleStar)
    ensures !TokensMatch(P, Q, pattTrailing, pathTrailing)
  {
    assert P[..|P|] == P;
    NoStarsMatch(P, Q, IsDoubleStar, Glob);
  }

  /** A "**" was reached: plain segment matching of the rest decides. */
  lemma ReachedDoubleStar(P: seq<string>, Q: seq<string>, k: nat, pattTrailing: bool, pathTrailing: bool)
    requires k < |P| && k < |Q| && P[k] == "**"
    requires NoStars(P[..k], IsDoubleStar) && BlockAt(P[..k], Q, 0, Glob)
    ensures TokensMatch(P, Q, pattTrailing, pathTrailing) <==> Segments(P[k..], Q[k..])
  {
    assert !NoStars(P, IsDoubleStar) by {
      assert IsDoubleStar(P[k]);
    }
    MatchAfterPrefix(P, Q, k, IsDoubleStar, Glob);
  }

  // ---------------------------------------------------------------------------
  // What patterns mean.

  /** A segment pattern without '*' and '?' matches only itself. */
  lemma GlobLiteral(pattern: string, str: string)
    requires '*' !in pattern && '?' !in pattern
    ensures Glob(pattern, str) <==> pattern == str
  {
    assert NoStars(pattern, IsStarChar) by {
      forall i | 0 <= i < |pattern| ensures !IsStarChar(pattern[i]) {
        assert pattern[i] in pattern;
      }
    }
    NoStarsMatch(pattern, str, IsStarChar, CharMatches);
    if |pattern| == |str| && BlockAt(pattern, str, 0, CharMatches) {
      forall i | 0 <= i < |pattern| ensures pattern[i] == str[i] {
        assert pattern[i] in pattern;
        assert CharMatches(pattern[i], str[0 + i]);
      }
    }
  }

  /** A lone '*' matches every segment. */
  lemma GlobStar(str: string)
    ensures Glob("*", str)
  {
    AllStarsMatchAll("*", str, IsStarChar, CharMatches);
  }

  /** Segment patterns without wildcard characters match only the same segments. */
  lemma SegmentsLiteral(pattDirs: seq<string>, pathDirs: seq<string>)
    requires forall i :: 0 <= i < |pattDirs| ==> '*' !in pattDirs[i] && '?' !in pattDirs[i]
    ensures NoStars(pattDirs, IsDoubleStar)
    ensures Segments(pattDirs, pathDirs) <==> pattDirs == pathDirs
  {
    assert NoStars(pattDirs, IsDoubleStar) by {
      forall i | 0 <= i < |pattDirs| ensures !IsDoubleStar(pattDirs[i]) {
        assert "**"[0] == '*';
      }
    }
    NoStarsMatch(pattDirs, pathDirs, IsDoubleStar, Glob);
    if |pattDirs| == |pathDirs| {
      assert BlockAt(pattDirs, pathDirs, 0, Glob) <==> pattDirs == pathDirs by {
        forall i | 0 <= i < |pattDirs| ensures Glob(pattDirs[i], pathDirs[0 + i]) <==> pattDirs[i] == pathDirs[i] {
          GlobLiteral(pattDirs[i], pathDirs[i]);
        }
      }
    }
  }

  /** A pattern without '*' and '?' matches exactly the names with the same segments
      and with a leading and a trailing '/' where the pattern has them. */
  lemma LiteralPattern(pattern: string, path: string)
    requires '*' !in pattern && '?' !in pattern
    ensures TopicMatch(pattern, path) <==>
      && (StartsWithSep(pattern) <==> StartsWithSep(path))
      && Tokens(pattern) == Tokens(path)
      && (EndsWithSep(pattern) <==> EndsWithSep(path))
  {
    var P, Q := Tokens(pattern), Tokens(path);
    TokensAvoid(pattern, '*');
    TokensAvoid(pattern, '?');
    SegmentsLiteral(P, Q);
  }

  lemma TokensOfDoubleStar()
    ensures Tokens("**") == ["**"]
  {
    SplitWithoutSeparator("**");
    assert TrimStart("**") == "**";
    assert TrimEnd("**") == "**";
    KeepSingle("**");
  }

  /** The pattern "**" matches exactly the names that do not start with '/'. */
  lemma DoubleStarPattern(path: string)
    ensures TopicMatch("**", path) <==> !StartsWithSep(path)
  {
    DoubleStarShape();
    LoneDoubleStar("**", path);
  }

  /** "**" is one segment, a double star, with no leading separator. */
  lemma DoubleStarShape()
    ensures Tokens("**") == ["**"] && !StartsWithSep("**")
    ensures AllStars(["**"], IsDoubleStar) && !NoStars(["**"], IsDoubleStar)
  {
    TokensOfDoubleStar();
    DoubleStarIsStar();
    assert !StartsWithSep("**") by {
      assert "**"[0] == '*';
    }
  }

  lemma DoubleStarIsStar()
    ensures AllStars(["**"], IsDoubleStar) && !NoStars(["**"], IsDoubleStar)
  {
    var q := ["**"];
    assert IsDoubleStar(q[0]);
  }

  /** A pattern that is a single "**" segment, without separators. */
  lemma LoneDoubleStar(p: string, path: string)
    requires Tokens(p) == [p] && !StartsWithSep(p)
    requires AllStars([p], IsDoubleStar) && !NoStars([p], IsDoubleStar)
    ensures TopicMatch(p, path) <==> !StartsWithSep(path)
  {
    AllStarsMatchAll([p], Tokens(path), IsDoubleStar, Glob);
  }

  /** A trailing "**" segment takes any further segments. */
  lemma SegmentsSubtree(pattDirs: seq<string>, pathDirs: seq<string>, more: seq<string>)
    requires Segments(pattDirs, pathDirs)
    ensures Segments(pattDirs + ["**"], pathDirs + more)
    ensures !NoStars(pattDirs + ["**"], IsDoubleStar)
  {
    AllStarsMatchAll(["**"], more, IsDoubleStar, Glob);
    MatchConcat(pattDirs, pathDirs, ["**"], more, IsDoubleStar, Glob);
    assert IsDoubleStar((pattDirs + ["**"])[|pattDirs|]);
  }

  lemma TokensOfSubtree(prefix: string)
    ensures Tokens(prefix + "/**") == Tokens(prefix) + ["**"]
  {
    var sep, ds := "/", "**";
    assert sep + ds == "/**";
    assert prefix + "/**" == prefix + sep + ds;
    TokensJoin(prefix, ds);
    TokensOfDoubleStar();
  }

  /** Appending a separator and a "**" segment to a pattern extends it to every name
      it matches segment by segment, and to the whole subtree below such a name:
      "**" takes zero or more segments. */
  lemma SubtreePattern(prefix: string, name: string, rest: string)
    requires |prefix| > 0 && |name| > 0
    requires StartsWithSep(prefix) <==> StartsWithSep(name)
    requires Segments(Tokens(prefix), Tokens(name))
    ensures TopicMatch(prefix + "/**", name)
    ensures TopicMatch(prefix + "/**", name + "/" + rest)
  {
    TokensOfSubtree(prefix);
    assert (prefix + "/**")[0] == prefix[0];
    SegmentsSubtree(Tokens(prefix), Tokens(name), []);
    assert Tokens(name) + [] == Tokens(name);
    TokensJoin(name, rest);
    SegmentsSubtree(Tokens(prefix), Tokens(name), Tokens(rest));
    assert (name + "/" + rest)[0] == name[0];
  }

  /** A pattern whose first segment is free of wildcards and differs from the name's
      first segment does not match, whatever follows. */
  lemma FirstSegmentDiffers(pattern: string, path: string)
    requires |Tokens(pattern)| > 0 && |Tokens(path)| > 0
    requires '*' !in Tokens(pattern)[0] && '?' !in Tokens(pattern)[0]
    requires Tokens(pattern)[0] != Tokens(path)[0]
    ensures !TopicMatch(pattern, path)
  {
    FirstDirDiffers(Tokens(pattern), Tokens(path), EndsWithSep(pattern), EndsWithSep(path));
  }

  lemma FirstDirDiffers(P: seq<string>, Q: seq<string>, pattTrailing: bool, pathTrailing: bool)
    requires |P| > 0 && |Q| > 0
    requires '*' !in P[0] && '?' !in P[0] && P[0] != Q[0]
    ensures !TokensMatch(P, Q, pattTrailing, pathTrailing)
  {
    GlobLiteral(P[0], Q[0]);
    assert !IsDoubleStar(P[0]) by {
      assert "**"[0] == '*';
      if |P[0]| > 0 {
        assert P[0][0] in P[0];
      }
    }
    assert NoStars(P[..1], IsDoubleStar) by {
      assert P[..1][0] == P[0];
    }
    assert BlockAt(P[..0], Q, 0, Glob);
    PrefixMismatch(P, Q, 0, pattTrailing, pathTrailing);
  }
}
