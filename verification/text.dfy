/** The string primitives the scraper relies on: `String#trim`,
    `String#includes` and `String#split` with a non-empty separator. */
module Text {
  import opened Wrappers

  /** The characters `String#trim` strips: the ECMAScript white space (tab,
      vertical tab, form feed, the byte-order mark and every Space_Separator
      code point) and the four line terminators. */
  predicate IsWhitespace(c: char)
  {
    || c == '\t' || c == '\U{000B}' || c == '\U{000C}' || c == '\U{FEFF}'
    || c == '\n' || c == '\r' || c == '\U{2028}' || c == '\U{2029}'
    || c == ' ' || c == '\U{00A0}' || c == '\U{1680}' || ('\U{2000}' <= c <= '\U{200A}')
    || c == '\U{202F}' || c == '\U{205F}' || c == '\U{3000}'
  }

  predicate AllWhitespace(s: string)
  {
    forall i :: 0 <= i < |s| ==> IsWhitespace(s[i])
  }

  /** True when `s` neither starts nor ends with white space. */
  predicate Trimmed(s: string)
  {
    |s| > 0 ==> !IsWhitespace(s[0]) && !IsWhitespace(s[|s| - 1])
  }

  /** Drops leading white space; the result is a suffix of `s`. */
  function TrimStart(s: string): (r: string)
    ensures |r| <= |s| && r == s[|s| - |r|..]
    ensures AllWhitespace(s[..|s| - |r|])
    ensures |r| > 0 ==> !IsWhitespace(r[0])
    decreases |s|
  {
    if |s| > 0 && IsWhitespace(s[0]) then TrimStart(s[1..]) else s
  }

  /** Drops trailing white space; the result is a prefix of `s`. */
  function TrimEnd(s: string): (r: string)
    ensures |r| <= |s| && r == s[..|r|]
    ensures AllWhitespace(s[|r|..])
    ensures |r| > 0 ==> !IsWhitespace(r[|r| - 1])
    decreases |s|
  {
    if |s| > 0 && IsWhitespace(s[|s| - 1]) then TrimEnd(s[..|s| - 1]) else s
  }

  /** `String#trim`: `s` is the result padded with white space on both sides,
      and the result neither starts nor ends with white space. */
  function Trim(s: string): (r: string)
    ensures Trimmed(r)
    ensures exists pre, post :: AllWhitespace(pre) && AllWhitespace(post) && s == pre + r + post
  {
    var t := TrimStart(s);
    var r := TrimEnd(t);
    Padding(s, t, r);
    r
  }

  /** A suffix of `s` after white space, cut before white space, is `s`
      padded on both sides. */
  lemma Padding(s: string, t: string, r: string)
    requires |t| <= |s| && t == s[|s| - |t|..] && AllWhitespace(s[..|s| - |t|])
    requires |r| <= |t| && r == t[..|r|] && AllWhitespace(t[|r|..])
    ensures exists pre, post :: AllWhitespace(pre) && AllWhitespace(post) && s == pre + r + post
  {
    var pre, post := s[..|s| - |t|], t[|r|..];
    assert s == pre + t;
    assert t == r + post;
    assert s == pre + r + post;
  }

  lemma {:induction false} TrimStartPadded(pre: string, t: string)
    requires AllWhitespace(pre)
    requires |t| > 0 ==> !IsWhitespace(t[0])
    ensures TrimStart(pre + t) == t
    decreases |pre|
  {
    if |pre| > 0 {
      assert (pre + t)[1..] == pre[1..] + t;
      TrimStartPadded(pre[1..], t);
    } else {
      assert pre + t == t;
    }
  }

  lemma {:induction false} TrimEndPadded(t: string, post: string)
    requires AllWhitespace(post)
    requires |t| > 0 ==> !IsWhitespace(t[|t| - 1])
    ensures TrimEnd(t + post) == t
    decreases |post|
  {
    if |post| > 0 {
      assert (t + post)[..|t + post| - 1] == t + post[..|post| - 1];
      TrimEndPadded(t, post[..|post| - 1]);
    } else {
      assert t + post == t;
    }
  }

  lemma AllWhitespaceTrimsToEmpty(s: string)
    requires AllWhitespace(s)
    ensures TrimStart(s) == []
  {
  }

  /** Trimming recovers any text that was padded with white space. */
  lemma TrimPadded(pre: string, t: string, post: string)
    requires AllWhitespace(pre) && AllWhitespace(post)
    requires Trimmed(t)
    ensures Trim(pre + t + post) == t
  {
    if |t| > 0 {
      assert pre + t + post == pre + (t + post);
      TrimStartPadded(pre, t + post);
      TrimEndPadded(t, post);
    } else {
      assert pre + t + post == pre + post;
      AllWhitespaceTrimsToEmpty(pre + post);
    }
  }

  /** Trimming twice is the same as trimming once. */
  lemma TrimIdempotent(s: string)
    ensures Trim(Trim(s)) == Trim(s)
  {
    var r := Trim(s);
    assert [] + r + [] == r;
    TrimPadded([], r, []);
  }

  /** `sub` occurs in `s` starting at index `i`. */
  predicate OccursAt(s: string, sub: string, i: int)
  {
    0 <= i && i + |sub| <= |s| && s[i..i + |sub|] == sub
  }

  /** `String#includes`. */
  predicate Contains(s: string, sub: string)
  {
    exists i :: 0 <= i <= |s| - |sub| && OccursAt(s, sub, i)
  }

  /** The first index at or after `from` where `sub` occurs, if any. */
  function IndexOfFrom(s: string, sub: string, from: nat): (r: Option<nat>)
    ensures r.Some? ==> from <= r.value && OccursAt(s, sub, r.value)
    ensures forall j :: from <= j && (r.None? || j < r.value) ==> !OccursAt(s, sub, j)
    decreases |s| - from
  {
    if from + |sub| > |s| then None
    else if s[from..from + |sub|] == sub then Some(from)
    else IndexOfFrom(s, sub, from + 1)
  }

  /** `String#indexOf`: the first index where `sub` occurs, if any. */
  function IndexOf(s: string, sub: string): (r: Option<nat>)
    ensures r.Some? ==> OccursAt(s, sub, r.value)
    ensures r.Some? ==> forall j :: 0 <= j < r.value ==> !OccursAt(s, sub, j)
    ensures r.None? <==> !Contains(s, sub)
  {
    IndexOfFrom(s, sub, 0)
  }

  /** A prefix cut before the first occurrence of `sub` does not contain it. */
  lemma PrefixBeforeFirst(s: string, sub: string, k: nat)
    requires |sub| > 0 && k <= |s|
    requires forall j :: 0 <= j < k ==> !OccursAt(s, sub, j)
    ensures !Contains(s[..k], sub)
  {
    forall j | 0 <= j <= |s[..k]| - |sub| && OccursAt(s[..k], sub, j)
      ensures false
    {
      assert s[..k][j..j + |sub|] == s[j..j + |sub|];
      assert OccursAt(s, sub, j);
    }
  }

  /** `String#split` with a non-empty separator: the pieces between
      successive non-overlapping occurrences, scanning left to right. */
  function Split(s: string, sep: string): (parts: seq<string>)
    requires |sep| > 0
    ensures |parts| >= 1
    ensures forall i :: 0 <= i < |parts| ==> !Contains(parts[i], sep)
    decreases |s|
  {
    match IndexOf(s, sep)
    case None => [s]
    case Some(k) =>
      PrefixBeforeFirst(s, sep, k);
      [s[..k]] + Split(s[k + |sep|..], sep)
  }

  /** `Array#join`: the inverse of `Split`. */
  function Join(parts: seq<string>, sep: string): string
    requires |parts| >= 1
    decreases |parts|
  {
    if |parts| == 1 then parts[0] else parts[0] + sep + Join(parts[1..], sep)
  }

  lemma JoinCons(parts: seq<string>, sep: string)
    requires |parts| > 1
    ensures Join(parts, sep) == parts[0] + sep + Join(parts[1..], sep)
  {
  }

  /** One step of `Split`: the piece before the first separator, then the rest. */
  lemma SplitStep(s: string, sep: string, k: nat)
    requires |sep| > 0 && IndexOf(s, sep) == Some(k)
    ensures k + |sep| <= |s|
    ensures Split(s, sep) == [s[..k]] + Split(s[k + |sep|..], sep)
    ensures s == s[..k] + sep + s[k + |sep|..]
  {
    Around(s, k, |sep|);
  }

  /** Cutting a sequence in three pieces loses nothing. */
  lemma Around(s: string, k: nat, n: nat)
    requires k + n <= |s|
    ensures s == s[..k] + s[k..k + n] + s[k + n..]
  {
  }

  /** Splitting loses nothing: joining the pieces back gives the input. */
  lemma {:induction false} JoinSplit(s: string, sep: string)
    requires |sep| > 0
    ensures Join(Split(s, sep), sep) == s
    decreases |s|
  {
    match IndexOf(s, sep)
    case None =>
    case Some(k) =>
      SplitStep(s, sep, k);
      var rest := s[k + |sep|..];
      JoinSplit(rest, sep);
      var parts := Split(s, sep);
      assert parts[1..] == Split(rest, sep);
      JoinCons(parts, sep);
  }

  /** A string without the separator splits into itself. */
  lemma SplitWithoutSeparator(s: string, sep: string)
    requires |sep| > 0 && !Contains(s, sep)
    ensures Split(s, sep) == [s]
  {
  }

  /** Splitting `a + sep + b` yields `a` first and then the pieces of `b`,
      provided `a` does not contain the separator and the separator does not
      overlap itself across the junction. */
  lemma SplitAround(a: string, sep: string, b: string)
    requires |sep| > 0
    requires forall j :: 0 <= j < |a| ==> !OccursAt(a + sep + b, sep, j)
    ensures Split(a + sep + b, sep) == [a] + Split(b, sep)
  {
    var s := a + sep + b;
    assert OccursAt(s, sep, |a|) by { assert s[|a|..|a| + |sep|] == sep; }
    assert IndexOf(s, sep) == Some(|a|);
    assert s[..|a|] == a;
    assert s[|a| + |sep|..] == b;
  }
}
