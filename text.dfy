/**
 * The few Rust `str` operations the HEOS text layer relies on, over `seq<char>`:
 * `find`, `contains`, `split` (with a string pattern), `trim`, plus the join that
 * `split` undoes. Indices are character positions; every pattern the library
 * searches for is ASCII, so they agree with Rust's byte offsets at every cut.
 */
module Text {
  import opened Wrappers

  /** `s` holds `pat` starting at position `j`. */
  predicate MatchesAt(s: string, pat: string, j: nat) {
    j + |pat| <= |s| && s[j..j + |pat|] == pat
  }

  predicate StartsWith(s: string, prefix: string) {
    |prefix| <= |s| && s[..|prefix|] == prefix
  }

  predicate EndsWith(s: string, suffix: string) {
    |suffix| <= |s| && s[|s| - |suffix|..] == suffix
  }

  lemma EndsWithAppend(a: string, b: string)
    ensures EndsWith(a + b, b)
  {
    assert (a + b)[|a|..] == b;
  }

  /** Regrouping a concatenation of five texts. */
  lemma RegroupFive(a: string, b: string, c: string, d: string, e: string)
    ensures a + b + c + d + e == a + (b + (c + d) + e)
  {
  }

  /** Regrouping a concatenation of six texts into two halves. */
  lemma RegroupSix(a: string, b: string, c: string, d: string, e: string, f: string)
    ensures a + b + c + d + e + f == (a + b + c) + (d + e + f)
  {
  }

  /** A text `a + b + c` with `b` non-empty starts with `a` and the first character of `b`. */
  lemma StartsWithFirstOf(a: string, b: string, c: string)
    requires |b| > 0
    ensures StartsWith(a + b + c, a + [b[0]])
  {
    var s := a + b + c;
    assert s[..|a| + 1] == a + [b[0]] by {
      assert s[..|a|] == a;
      assert s[|a|] == b[0];
    }
  }

  /** A text `a + b + c` ends with `b + c`. */
  lemma EndsWithLastTwo(a: string, b: string, c: string)
    ensures EndsWith(a + b + c, b + c)
  {
    assert a + b + c == a + (b + c);
    EndsWithAppend(a, b + c);
  }

  /** The first occurrence of `pat` in `s` at or after position `from`. */
  function FindFrom(s: string, pat: string, from: nat): (r: Option<nat>)
    requires |pat| > 0
    ensures r.Some? ==> from <= r.value && MatchesAt(s, pat, r.value)
    ensures r.Some? ==> forall j :: from <= j < r.value ==> !MatchesAt(s, pat, j)
    ensures r.None? ==> forall j :: from <= j ==> !MatchesAt(s, pat, j)
    decreases |s| - from
  {
    if from + |pat| > |s| then None
    else if MatchesAt(s, pat, from) then Some(from)
    else FindFrom(s, pat, from + 1)
  }

  /** Rust's `str::find` with a string pattern: the position of the first occurrence. */
  function IndexOf(s: string, pat: string): (r: Option<nat>)
    requires |pat| > 0
    ensures r.Some? ==> MatchesAt(s, pat, r.value) && forall j :: 0 <= j < r.value ==> !MatchesAt(s, pat, j)
    ensures r.None? ==> forall j :: 0 <= j ==> !MatchesAt(s, pat, j)
  {
    FindFrom(s, pat, 0)
  }

  /** Rust's `str::contains` with a string pattern. */
  predicate Contains(s: string, pat: string)
    requires |pat| > 0
  {
    IndexOf(s, pat).Some?
  }

  lemma ContainsIff(s: string, pat: string)
    requires |pat| > 0
    ensures Contains(s, pat) <==> exists j: nat :: MatchesAt(s, pat, j)
  {
  }

  /** A match at `k` with none before it is what `IndexOf` finds. */
  lemma IndexOfIs(s: string, pat: string, k: nat)
    requires |pat| > 0
    requires MatchesAt(s, pat, k)
    requires forall j :: 0 <= j < k ==> s[j] != pat[0]
    ensures IndexOf(s, pat) == Some(k)
  {
    forall j | 0 <= j < k ensures !MatchesAt(s, pat, j) {
      if j + |pat| <= |s| {
        assert s[j..j + |pat|][0] == s[j];
      }
    }
  }

  /** A match at `k` with no match before it is what `IndexOf` finds. */
  lemma IndexOfFirst(s: string, pat: string, k: nat)
    requires |pat| > 0
    requires MatchesAt(s, pat, k)
    requires forall j :: 0 <= j < k ==> !MatchesAt(s, pat, j)
    ensures IndexOf(s, pat) == Some(k)
  {
  }

  /** A string in which the first character of `pat` never occurs does not contain `pat`. */
  lemma IndexOfAbsent(s: string, pat: string)
    requires |pat| > 0
    requires pat[0] !in s
    ensures IndexOf(s, pat) == None
  {
    forall j: nat ensures !MatchesAt(s, pat, j) {
      if j + |pat| <= |s| {
        assert s[j..j + |pat|][0] == s[j];
        assert s[j] in s;
      }
    }
  }

  /** The first occurrence of `pat` inside `a` is still the first one in `a + b`. */
  lemma IndexOfPrefix(a: string, b: string, pat: string, k: nat)
    requires |pat| > 0 && IndexOf(a, pat) == Some(k)
    ensures IndexOf(a + b, pat) == Some(k)
  {
    var s := a + b;
    assert s[k..k + |pat|] == a[k..k + |pat|];
    forall j | 0 <= j < k ensures !MatchesAt(s, pat, j) {
      if j + |pat| <= |s| {
        assert s[j..j + |pat|] == a[j..j + |pat|];
        assert !MatchesAt(a, pat, j);
      }
    }
    IndexOfFirst(s, pat, k);
  }

  /** A string lacking any one character of `pat` does not contain `pat`. */
  lemma IndexOfMissingChar(s: string, pat: string, m: nat)
    requires m < |pat| && pat[m] !in s
    ensures IndexOf(s, pat) == None
  {
    forall j: nat ensures !MatchesAt(s, pat, j) {
      if j + |pat| <= |s| {
        assert s[j..j + |pat|][m] == s[j + m];
        assert s[j + m] in s;
      }
    }
  }

  /** A text holding `pat` still holds it with anything put around it. */
  lemma ContainsWithin(a: string, b: string, c: string, pat: string)
    requires |pat| > 0 && Contains(b, pat)
    ensures Contains(a + b + c, pat)
  {
    var k := IndexOf(b, pat).value;
    var s := a + b + c;
    assert s[|a| + k..|a| + k + |pat|] == b[k..k + |pat|];
    assert MatchesAt(s, pat, |a| + k);
    ContainsIff(s, pat);
  }

  /**
   * The pieces of `xs` separated by `sep`; `Join([], sep)` is empty. This is the
   * reference the left fold of `Iterator::reduce` and the output of `split` are
   * compared against.
   */
  function Join(xs: seq<string>, sep: string): string {
    if |xs| == 0 then ""
    else if |xs| == 1 then xs[0]
    else xs[0] + sep + Join(xs[1..], sep)
  }

  /** A join holds whatever one of its pieces holds. */
  lemma {:induction false} JoinContains(xs: seq<string>, sep: string, i: nat, pat: string)
    requires i < |xs| && |pat| > 0 && Contains(xs[i], pat)
    ensures Contains(Join(xs, sep), pat)
  {
    if |xs| == 1 {
    } else if i == 0 {
      assert Join(xs, sep) == "" + xs[0] + (sep + Join(xs[1..], sep));
      ContainsWithin("", xs[0], sep + Join(xs[1..], sep), pat);
    } else {
      assert xs[1..][i - 1] == xs[i];
      JoinContains(xs[1..], sep, i - 1, pat);
      assert Join(xs, sep) == xs[0] + sep + Join(xs[1..], sep) + "";
      ContainsWithin(xs[0] + sep, Join(xs[1..], sep), "", pat);
    }
  }

  /** A character found in no piece and not in the separator is not in the join. */
  lemma {:induction false} JoinAvoids(xs: seq<string>, sep: string, c: char)
    requires c !in sep
    requires forall i :: 0 <= i < |xs| ==> c !in xs[i]
    ensures c !in Join(xs, sep)
  {
    if |xs| > 1 {
      JoinAvoids(xs[1..], sep, c);
    }
  }

  /** A join whose last piece is non-empty ends with that piece's last character. */
  lemma {:induction false} JoinLastChar(xs: seq<string>, sep: string)
    requires |xs| > 0 && |xs[|xs| - 1]| > 0
    ensures var j := Join(xs, sep); |j| > 0 && j[|j| - 1] == xs[|xs| - 1][|xs[|xs| - 1]| - 1]
  {
    if |xs| > 1 {
      JoinLastChar(xs[1..], sep);
    }
  }

  /** Appending one more piece to a non-empty join adds one separator and the piece. */
  lemma {:induction false} JoinSnoc(xs: seq<string>, y: string, sep: string)
    requires |xs| > 0
    ensures Join(xs + [y], sep) == Join(xs, sep) + sep + y
  {
    if |xs| == 1 {
      assert xs + [y] == [xs[0], y];
    } else {
      assert (xs + [y])[1..] == xs[1..] + [y];
      JoinSnoc(xs[1..], y, sep);
    }
  }

  /** The text before the first occurrence holds no occurrence, and the text is cut around it. */
  lemma CutAtFirst(s: string, sep: string, k: nat)
    requires |sep| > 0 && IndexOf(s, sep) == Some(k)
    ensures !Contains(s[..k], sep)
    ensures s == s[..k] + sep + s[k + |sep|..]
  {
    var head := s[..k];
    forall j | 0 <= j && MatchesAt(head, sep, j) ensures MatchesAt(s, sep, j) {
      assert head[j..j + |sep|] == s[j..j + |sep|];
    }
    assert s[k..k + |sep|] == sep;
    assert s == s[..k] + s[k..k + |sep|] + s[k + |sep|..];
  }

  /**
   * Rust's `str::split` with a non-empty string pattern: the text between
   * successive non-overlapping occurrences, searched left to right. It always
   * yields at least one piece (so `split(..).next()` is never `None`), no piece
   * contains the separator, and joining the pieces gives back `s`. Every cut is
   * at the leftmost occurrence in what remains: each piece but the last is
   * followed by the first occurrence of `sep` in the join of it and the rest.
   */
  function Split(s: string, sep: string): (r: seq<string>)
    requires |sep| > 0
    ensures |r| >= 1
    ensures Join(r, sep) == s
    ensures forall i :: 0 <= i < |r| ==> !Contains(r[i], sep)
    ensures forall i :: 0 <= i < |r| - 1 ==> IndexOf(Join(r[i..], sep), sep) == Some(|r[i]|)
    decreases |s|
  {
    match IndexOf(s, sep)
    case None => [s]
    case Some(k) =>
      CutAtFirst(s, sep, k);
      var rest := Split(s[k + |sep|..], sep);
      var r := [s[..k]] + rest;
      assert r[1..] == rest;
      assert forall i :: 1 <= i < |r| ==> r[i..] == rest[i - 1..];
      assert r[0..] == r;
      r
  }

  /** Splitting a text that starts with a piece free of the separator's first character. */
  lemma SplitCons(x: string, sep: string, t: string)
    requires |sep| > 0 && sep[0] !in x
    ensures Split(x + sep + t, sep) == [x] + Split(t, sep)
  {
    var s := x + sep + t;
    assert s[|x|..|x| + |sep|] == sep;
    forall j | 0 <= j < |x| ensures s[j] != sep[0] {
      assert s[j] == x[j];
    }
    IndexOfIs(s, sep, |x|);
    assert s[..|x|] == x;
    assert s[|x| + |sep|..] == t;
  }

  /**
   * Splitting a join gives back the pieces, provided no piece contains the first
   * character of the separator (so no occurrence can start inside a piece).
   */
  lemma {:induction false} SplitJoin(xs: seq<string>, sep: string)
    requires |sep| > 0 && |xs| > 0
    requires forall i :: 0 <= i < |xs| ==> sep[0] !in xs[i]
    ensures Split(Join(xs, sep), sep) == xs
  {
    if |xs| == 1 {
      IndexOfAbsent(xs[0], sep);
    } else {
      SplitCons(xs[0], sep, Join(xs[1..], sep));
      SplitJoin(xs[1..], sep);
      assert [xs[0]] + xs[1..] == xs;
    }
  }

  /** Rust's `char::is_whitespace`: the characters with the Unicode White_Space property. */
  predicate IsWhitespace(c: char) {
    ('\t' <= c <= '\r') || c == ' ' || c == '\U{0085}' || c == '\U{00A0}' || c == '\U{1680}'
    || ('\U{2000}' <= c <= '\U{200A}') || c == '\U{2028}' || c == '\U{2029}' || c == '\U{202F}'
    || c == '\U{205F}' || c == '\U{3000}'
  }

  /** Rust's `str::trim_start`: `s` without its leading whitespace. */
  function TrimStart(s: string): (r: string)
    ensures |r| <= |s| && r == s[|s| - |r|..]
    ensures forall i :: 0 <= i < |s| - |r| ==> IsWhitespace(s[i])
    ensures |r| > 0 ==> !IsWhitespace(r[0])
  {
    if |s| > 0 && IsWhitespace(s[0]) then TrimStart(s[1..]) else s
  }

  /** Rust's `str::trim_end`: `s` without its trailing whitespace. */
  function TrimEnd(s: string): (r: string)
    ensures |r| <= |s| && r == s[..|r|]
    ensures forall i :: |r| <= i < |s| ==> IsWhitespace(s[i])
    ensures |r| > 0 ==> !IsWhitespace(r[|r| - 1])
  {
    if |s| > 0 && IsWhitespace(s[|s| - 1]) then TrimEnd(s[..|s| - 1]) else s
  }

  /** Rust's `str::trim`: `s` without its leading and trailing whitespace (see `TrimAt`). */
  function Trim(s: string): string
  {
    TrimEnd(TrimStart(s))
  }

  /** `TrimStart` stops at the first character that is not whitespace. */
  lemma {:induction false} TrimStartAt(s: string, i: nat)
    requires i <= |s|
    requires forall k :: 0 <= k < i ==> IsWhitespace(s[k])
    requires i < |s| ==> !IsWhitespace(s[i])
    ensures TrimStart(s) == s[i..]
  {
    if i > 0 {
      TrimStartAt(s[1..], i - 1);
      assert s[1..][i - 1..] == s[i..];
    }
  }

  /** `TrimEnd` stops at the last character that is not whitespace. */
  lemma {:induction false} TrimEndAt(s: string, j: nat)
    requires j <= |s|
    requires forall k :: j <= k < |s| ==> IsWhitespace(s[k])
    requires j > 0 ==> !IsWhitespace(s[j - 1])
    ensures TrimEnd(s) == s[..j]
  {
    if j < |s| {
      TrimEndAt(s[..|s| - 1], j);
      assert s[..|s| - 1][..j] == s[..j];
    }
  }

  lemma SliceOfSuffix(s: string, i: nat, j: nat)
    requires i <= j <= |s|
    ensures s[i..][..j - i] == s[i..j]
  {
  }

  lemma SliceOfPrefix(s: string, m: nat, i: nat, j: nat)
    requires i <= j <= m <= |s|
    ensures s[..m][i..j] == s[i..j]
  {
  }

  /** The trimmed text is the slice between the outer whitespace runs. */
  lemma TrimAt(s: string, i: nat, j: nat)
    requires i < j <= |s|
    requires forall k :: 0 <= k < i ==> IsWhitespace(s[k])
    requires forall k :: j <= k < |s| ==> IsWhitespace(s[k])
    requires !IsWhitespace(s[i]) && !IsWhitespace(s[j - 1])
    ensures Trim(s) == s[i..j]
  {
    TrimStartAt(s, i);
    var t := s[i..];
    assert forall k :: j - i <= k < |t| ==> IsWhitespace(t[k]) by {
      forall k | j - i <= k < |t| ensures IsWhitespace(t[k]) {
        assert t[k] == s[k + i];
      }
    }
    assert t[j - i - 1] == s[j - 1];
    TrimEndAt(t, j - i);
    SliceOfSuffix(s, i, j);
  }

  /** Trimming whitespace runs off both ends of a text that starts and ends with a non-space. */
  lemma TrimBetween(w1: string, m: string, w2: string)
    requires |m| > 0 && !IsWhitespace(m[0]) && !IsWhitespace(m[|m| - 1])
    requires forall k :: 0 <= k < |w1| ==> IsWhitespace(w1[k])
    requires forall k :: 0 <= k < |w2| ==> IsWhitespace(w2[k])
    ensures Trim(w1 + m + w2) == m
  {
    var s := w1 + m + w2;
    assert forall k :: 0 <= k < |w1| ==> s[k] == w1[k];
    assert forall k :: |w1| + |m| <= k < |s| ==> s[k] == w2[k - |w1| - |m|];
    assert s[|w1|] == m[0] && s[|w1| + |m| - 1] == m[|m| - 1];
    TrimAt(s, |w1|, |w1| + |m|);
    assert s[|w1|..|w1| + |m|] == m;
  }

  /** Trimming twice is trimming once. */
  lemma TrimIdempotent(s: string)
    ensures Trim(Trim(s)) == Trim(s)
  {
    var r := Trim(s);
    if |r| > 0 {
      assert TrimStart(r) == r;
      assert TrimEnd(r) == r;
    }
  }
}
