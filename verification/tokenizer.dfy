/**
 * Splitting of topic names and patterns into path segments: the string is cut at
 * every '/', every piece is trimmed of leading and trailing blanks (Java's
 * `String.trim`, which strips every character up to U+0020), and pieces that are
 * empty after trimming are dropped.
 */
module Tokenizer {

  /** The characters `String.trim` strips. */
  predicate IsBlank(c: char) {
    c <= ' '
  }

  /** The leading half of `String.trim`: drops the blanks in front, and nothing else. */
  function TrimStart(s: string): (r: string)
    ensures |r| <= |s| && r == s[|s| - |r|..]
    ensures |r| == 0 || !IsBlank(r[0])
    ensures forall i :: 0 <= i < |s| - |r| ==> IsBlank(s[i])
    decreases |s|
  {
    if |s| > 0 && IsBlank(s[0]) then
      var r := TrimStart(s[1..]);
      assert s[1..][|s| - 1 - |r|..] == s[|s| - |r|..];
      assert forall i :: 0 < i < |s| - |r| ==> s[i] == s[1..][i - 1];
      r
    else
      s
  }

  /** The trailing half of `String.trim`: drops the blanks at the end, and nothing else. */
  function TrimEnd(s: string): (r: string)
    ensures |r| <= |s| && r == s[..|r|]
    ensures |r| == 0 || !IsBlank(r[|r| - 1])
    ensures forall i :: |r| <= i < |s| ==> IsBlank(s[i])
    decreases |s|
  {
    if |s| > 0 && IsBlank(s[|s| - 1]) then
      var r := TrimEnd(s[..|s| - 1]);
      assert s[..|s| - 1][..|r|] == s[..|r|];
      assert forall i :: |r| <= i < |s| - 1 ==> s[i] == s[..|s| - 1][i];
      r
    else
      s
  }

  /** s[k..k + n] is s with only blanks around it. */
  predicate BlanksAround(s: string, k: int, n: int) {
    && 0 <= k && 0 <= n && k + n <= |s|
    && (forall i :: 0 <= i < k ==> IsBlank(s[i]))
    && (forall i :: k + n <= i < |s| ==> IsBlank(s[i]))
  }

  /** `String.trim`: the longest infix without blanks at either end. */
  function Trim(s: string): (r: string)
    ensures |r| == 0 || (!IsBlank(r[0]) && !IsBlank(r[|r| - 1]))
    ensures exists k :: BlanksAround(s, k, |r|) && r == s[k..k + |r|]
  {
    var t := TrimStart(s);
    var r := TrimEnd(t);
    BlanksAroundInfix(s, t, r);
    assert BlanksAround(s, |s| - |t|, |r|);
    r
  }

  /** A blank-free-ended infix of a blank-free-started suffix lies between blanks. */
  lemma BlanksAroundInfix(s: string, t: string, r: string)
    requires |t| <= |s| && t == s[|s| - |t|..]
    requires forall i :: 0 <= i < |s| - |t| ==> IsBlank(s[i])
    requires |r| <= |t| && r == t[..|r|]
    requires forall i :: |r| <= i < |t| ==> IsBlank(t[i])
    ensures BlanksAround(s, |s| - |t|, |r|) && r == s[|s| - |t|..|s| - |t| + |r|]
  {
    var k := |s| - |t|;
    forall i | k + |r| <= i < |s|
      ensures IsBlank(s[i])
    {
      assert s[i] == t[i - k];
    }
  }

  /** The pieces between separators, empty pieces included: one more piece than there are '/'. */
  function Split(s: string): (r: seq<string>)
    ensures |r| > 0
    decreases |s|
  {
    if |s| == 0 then [""]
    else
      var rest := Split(s[1..]);
      if s[0] == '/' then [""] + rest
      else [[s[0]] + rest[0]] + rest[1..]
  }

  /** A piece contributes its trimmed text, unless nothing is left of it. */
  function Emit(piece: string): seq<string> {
    var t := Trim(piece);
    if |t| == 0 then [] else [t]
  }

  function Keep(pieces: seq<string>): seq<string>
    decreases |pieces|
  {
    if |pieces| == 0 then [] else Emit(pieces[0]) + Keep(pieces[1..])
  }

  /** A segment as the tokenizer produces it. */
  predicate IsSegment(t: string) {
    |t| > 0 && '/' !in t && !IsBlank(t[0]) && !IsBlank(t[|t| - 1])
  }

  /** The segments of a topic name or pattern. */
  function Tokens(s: string): seq<string> {
    Keep(Split(s))
  }

  lemma {:induction false} KeepSegments(pieces: seq<string>)
    requires forall i :: 0 <= i < |pieces| ==> '/' !in pieces[i]
    ensures forall i :: 0 <= i < |Keep(pieces)| ==> IsSegment(Keep(pieces)[i])
    decreases |pieces|
  {
    if |pieces| > 0 {
      var rest := pieces[1..];
      assert forall i :: 0 <= i < |rest| ==> rest[i] == pieces[i + 1];
      KeepSegments(rest);
      EmitSegment(pieces[0]);
      SegmentsConcat(Emit(pieces[0]), Keep(rest));
    }
  }

  lemma SegmentsConcat(e: seq<string>, k: seq<string>)
    requires forall i :: 0 <= i < |e| ==> IsSegment(e[i])
    requires forall i :: 0 <= i < |k| ==> IsSegment(k[i])
    ensures forall i :: 0 <= i < |e + k| ==> IsSegment((e + k)[i])
  {
    forall i | 0 <= i < |e + k|
      ensures IsSegment((e + k)[i])
    {
      if i < |e| {
        assert (e + k)[i] == e[i];
      } else {
        assert (e + k)[i] == k[i - |e|];
      }
    }
  }

  /** What a piece without separators contributes is a segment. */
  lemma EmitSegment(piece: string)
    requires '/' !in piece
    ensures forall i :: 0 <= i < |Emit(piece)| ==> IsSegment(Emit(piece)[i])
  {
    TrimAvoids(piece, '/');
  }

  /** No piece holds a separator. */
  lemma {:induction false} SplitPieces(s: string)
    ensures forall i :: 0 <= i < |Split(s)| ==> '/' !in Split(s)[i]
    decreases |s|
  {
    if |s| > 0 {
      SplitPieces(s[1..]);
    }
  }

  /** Every token is non-empty, free of separators and trimmed. */
  lemma TokensAreSegments(s: string)
    ensures forall i :: 0 <= i < |Tokens(s)| ==> IsSegment(Tokens(s)[i])
  {
    SplitPieces(s);
    KeepSegments(Split(s));
  }

  lemma {:induction false} SplitWithoutSeparator(s: string)
    requires '/' !in s
    ensures Split(s) == [s]
    decreases |s|
  {
    if |s| > 0 {
      assert s[0] in s;
      assert forall c :: c in s[1..] ==> c in s;
      SplitWithoutSeparator(s[1..]);
      assert [s[0]] + s[1..] == s;
    }
  }

  /** Cutting at a separator distributes over the two sides. */
  lemma {:induction false} SplitJoin(a: string, b: string)
    ensures Split(a + ['/'] + b) == Split(a) + Split(b)
    decreases |a|
  {
    if |a| == 0 {
      assert a + ['/'] + b == ['/'] + b;
      assert (['/'] + b)[1..] == b;
    } else {
      var t := a[1..] + ['/'] + b;
      assert a + ['/'] + b == [a[0]] + t;
      SplitJoin(a[1..], b);
      SplitCons(a[0], t);
      SplitCons(a[0], a[1..]);
      assert [a[0]] + a[1..] == a;
    }
  }

  /** One step of `Split`, for a string given by its first character. */
  lemma SplitCons(c: char, t: string)
    ensures c == '/' ==> Split([c] + t) == [""] + Split(t)
    ensures c != '/' ==> Split([c] + t) == [[c] + Split(t)[0]] + Split(t)[1..]
  {
    var s := [c] + t;
    assert s[0] == c && s[1..] == t;
  }

  lemma {:induction false} KeepConcat(x: seq<string>, y: seq<string>)
    ensures Keep(x + y) == Keep(x) + Keep(y)
    decreases |x|
  {
    if |x| == 0 {
      assert x + y == y;
    } else {
      assert (x + y)[0] == x[0];
      assert (x + y)[1..] == x[1..] + y;
      KeepConcat(x[1..], y);
    }
  }

  lemma TokensOfEmpty()
    ensures Tokens("") == []
  {
    assert Split("") == [""];
    assert TrimStart("") == "";
    assert TrimEnd("") == "";
    assert Emit("") == [];
    assert Keep([""]) == Emit("") + Keep([]);
  }

  /** The segments of `a/b` are those of `a` followed by those of `b`. */
  lemma TokensJoin(a: string, b: string)
    ensures Tokens(a + "/" + b) == Tokens(a) + Tokens(b)
  {
    SplitJoin(a, b);
    KeepConcat(Split(a), Split(b));
  }

  lemma TrimAvoids(s: string, x: char)
    requires x !in s
    ensures x !in Trim(s)
  {
    var u := TrimStart(s);
    SliceAvoids(s, |s| - |u|, |s|, x);
    SliceAvoids(u, 0, |TrimEnd(u)|, x);
  }

  lemma SliceAvoids(s: string, i: int, j: int, x: char)
    requires 0 <= i <= j <= |s| && x !in s
    ensures x !in s[i..j]
  {
    assert forall k :: 0 <= k < j - i ==> s[i..j][k] == s[i + k];
  }

  lemma {:induction false} SplitAvoids(s: string, x: char)
    requires x !in s
    ensures forall i :: 0 <= i < |Split(s)| ==> x !in Split(s)[i]
    decreases |s|
  {
    if |s| > 0 {
      assert forall c :: c in s[1..] ==> c in s;
      SplitAvoids(s[1..], x);
      assert s[0] in s;
    }
  }

  lemma {:induction false} KeepAvoids(pieces: seq<string>, x: char)
    requires forall i :: 0 <= i < |pieces| ==> x !in pieces[i]
    ensures forall i :: 0 <= i < |Keep(pieces)| ==> x !in Keep(pieces)[i]
    decreases |pieces|
  {
    if |pieces| > 0 {
      TrimAvoids(pieces[0], x);
      KeepAvoids(pieces[1..], x);
    }
  }

  /** A character absent from the input appears in none of its segments. */
  lemma TokensAvoid(s: string, x: char)
    requires x !in s
    ensures forall i :: 0 <= i < |Tokens(s)| ==> x !in Tokens(s)[i]
  {
    SplitAvoids(s, x);
    KeepAvoids(Split(s), x);
  }

  /** A string that is already a segment tokenizes to itself. */
  lemma SingleSegment(w: string)
    requires IsSegment(w)
    ensures Tokens(w) == [w]
  {
    assert TrimStart(w) == w;
    assert TrimEnd(w) == w;
    SplitWithoutSeparator(w);
    KeepSingle(w);
  }

  /** A leading separator contributes no segment. */
  lemma LeadingSeparator(b: string)
    ensures Tokens("/" + b) == Tokens(b)
  {
    SplitCons('/', b);
    var p := [""] + Split(b);
    assert p[0] == "" && p[1..] == Split(b);
    assert Emit("") == [];
  }

  /** Repeated separators do not create empty segments: `a//b` and `a/b` have the same segments. */
  lemma DoubledSeparator(a: string, b: string)
    ensures Tokens(a + "//" + b) == Tokens(a + "/" + b)
  {
    var sep, two := "/", "//";
    assert two == sep + sep;
    var sb := sep + b;
    assert a + two + b == a + sep + sb;
    TokensJoin(a, sb);
    LeadingSeparator(b);
    TokensJoin(a, b);
  }

  lemma KeepSingle(piece: string)
    ensures Keep([piece]) == Emit(piece)
  {
    var ps := [piece];
    assert ps[0] == piece && ps[1..] == [];
    assert Keep(ps) == Emit(piece) + Keep([]);
    assert Emit(piece) + [] == Emit(piece);
  }

  /** A separator ends the current token. */
  lemma EndOfToken(cur: string, rest: string)
    requires '/' !in cur
    ensures Keep(Split(cur + ['/'] + rest)) == Emit(cur) + Keep(Split(rest))
  {
    calc {
      Keep(Split(cur + ['/'] + rest));
      { SplitJoin(cur, rest); }
      Keep(Split(cur) + Split(rest));
      { SplitWithoutSeparator(cur); }
      Keep([cur] + Split(rest));
      { KeepConcat([cur], Split(rest)); }
      Keep([cur]) + Keep(Split(rest));
      { KeepSingle(cur); }
      Emit(cur) + Keep(Split(rest));
    }
  }

  /** The scan at a separator: the current token is complete. */
  lemma SeparatorStep(tokens: seq<string>, cur: string, s: string)
    requires 0 < |s| && s[0] == '/' && '/' !in cur
    ensures tokens + Keep(Split(cur + s)) == (tokens + Emit(cur)) + Keep(Split("" + s[1..]))
  {
    assert s == ['/'] + s[1..];
    assert cur + s == cur + ['/'] + s[1..];
    assert "" + s[1..] == s[1..];
    EndOfToken(cur, s[1..]);
  }

  /** The scan at any other character: the character joins the current token. */
  lemma CharStep(cur: string, s: string)
    requires 0 < |s| && s[0] != '/' && '/' !in cur
    ensures cur + s == (cur + [s[0]]) + s[1..]
    ensures '/' !in cur + [s[0]]
  {
    assert s == [s[0]] + s[1..];
  }

  /** At the end of the input the current token is the last piece. */
  lemma FinalStep(cur: string)
    requires '/' !in cur
    ensures Keep(Split(cur)) == Emit(cur)
  {
    SplitWithoutSeparator(cur);
    KeepSingle(cur);
  }

  /** The tokenizer loop: a scan over the characters that collects the current token
      and emits its trimmed text at every separator and at the end. */
  method TokenizeToStringArray(str: string) returns (tokens: seq<string>)
    ensures tokens == Tokens(str)
    ensures forall i :: 0 <= i < |tokens| ==> IsSegment(tokens[i])
  {
    tokens := [];
    var cur := "";
    var i := 0;
    assert cur + str[i..] == str;
    while i < |str|
      invariant 0 <= i <= |str|
      invariant '/' !in cur
      invariant Tokens(str) == tokens + Keep(Split(cur + str[i..]))
    {
      ghost var rest := str[i..];
      assert rest[1..] == str[i + 1..];
      if str[i] == '/' {
        SeparatorStep(tokens, cur, rest);
        tokens := tokens + Emit(cur);
        cur := "";
      } else {
        CharStep(cur, rest);
        cur := cur + [str[i]];
      }
      i := i + 1;
    }
    assert cur + str[i..] == cur;
    FinalStep(cur);
    tokens := tokens + Emit(cur);
    TokensAreSegments(str);
  }
}
