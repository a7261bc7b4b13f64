/**
 * String scanning primitives that the recovery parser is built from:
 * Python's notion of whitespace and str.strip(), character counts, and
 * searches for the first or last occurrence of a character or substring.
 */
module Text {
  import opened Wrappers

  /** str.isspace() of a single character; also what \s matches in a str pattern. */
  predicate IsSpace(c: char)
  {
    || c == ' '
    || ('\t' <= c <= '\r')
    || ('\U{1C}' <= c <= '\U{1F}')
    || c == '\U{85}'
    || c == '\U{A0}'
    || c == '\U{1680}'
    || ('\U{2000}' <= c <= '\U{200A}')
    || c == '\U{2028}'
    || c == '\U{2029}'
    || c == '\U{202F}'
    || c == '\U{205F}'
    || c == '\U{3000}'
  }

  /**
   * The ranges in IsSpace cover exactly the characters for which
   * str.isspace() holds, listed one by one: \t \n \v \f \r, \x1c to \x1f,
   * the space, and the Unicode space, line and paragraph separators.
   */
  lemma IsSpaceIsPythonWhitespace(c: char)
    ensures IsSpace(c) <==> c in {
      '\t', '\n', '\U{0B}', '\U{0C}', '\r', '\U{1C}', '\U{1D}', '\U{1E}', '\U{1F}', ' ',
      '\U{85}', '\U{A0}', '\U{1680}',
      '\U{2000}', '\U{2001}', '\U{2002}', '\U{2003}', '\U{2004}', '\U{2005}',
      '\U{2006}', '\U{2007}', '\U{2008}', '\U{2009}', '\U{200A}',
      '\U{2028}', '\U{2029}', '\U{202F}', '\U{205F}', '\U{3000}'
    }
  {
  }

  /** The end of t[lo..hi] once its trailing whitespace is dropped. */
  function SkipSpaceBack(t: string, lo: nat, hi: nat): (r: nat)
    requires lo <= hi <= |t|
    ensures lo <= r <= hi
    ensures forall k :: r <= k < hi ==> IsSpace(t[k])
    ensures r == lo || !IsSpace(t[r - 1])
  {
    if lo < hi && IsSpace(t[hi - 1]) then SkipSpaceBack(t, lo, hi - 1) else hi
  }

  /**
   * The slice that str.strip() keeps: only whitespace lies before and after
   * it, and, unless it is empty, it starts and ends with a non-whitespace
   * character.
   */
  function StripBounds(t: string): (b: (nat, nat))
    ensures b.0 <= b.1 <= |t|
    ensures forall i :: 0 <= i < b.0 ==> IsSpace(t[i])
    ensures forall i :: b.1 <= i < |t| ==> IsSpace(t[i])
    ensures b.0 == b.1 || (!IsSpace(t[b.0]) && !IsSpace(t[b.1 - 1]))
  {
    var lo := SkipSpace(t, 0);
    (lo, SkipSpaceBack(t, lo, |t|))
  }

  /** Python's str.strip() with no argument. */
  function Strip(t: string): string
  {
    t[StripBounds(t).0..StripBounds(t).1]
  }

  /**
   * What str.strip() returns neither starts nor ends with whitespace, and
   * it is empty exactly when t is all whitespace.
   */
  lemma StripTrims(t: string)
    ensures |Strip(t)| <= |t|
    ensures Strip(t) == [] || (!IsSpace(Strip(t)[0]) && !IsSpace(Strip(t)[|Strip(t)| - 1]))
    ensures Strip(t) == [] <==> forall i :: 0 <= i < |t| ==> IsSpace(t[i])
  {
    var (a, b) := StripBounds(t);
    if a < b {
      assert Strip(t)[0] == t[a] && Strip(t)[|Strip(t)| - 1] == t[b - 1];
    }
  }

  /**
   * Whatever slice has only whitespace before and after it, and starts and
   * ends with a non-whitespace character (or is empty), is the one strip() keeps.
   */
  lemma StripUnique(t: string, lo: nat, hi: nat)
    requires lo <= hi <= |t|
    requires forall i :: 0 <= i < lo ==> IsSpace(t[i])
    requires forall i :: hi <= i < |t| ==> IsSpace(t[i])
    requires lo == hi || (!IsSpace(t[lo]) && !IsSpace(t[hi - 1]))
    ensures Strip(t) == t[lo..hi]
  {
    var (a, b) := StripBounds(t);
    if lo < hi {
      // the first and last non-whitespace characters pin both bounds
      assert !IsSpace(t[lo]) && !IsSpace(t[hi - 1]);
      assert a < b;
      assert !IsSpace(t[a]) && !IsSpace(t[b - 1]);
    }
  }

  /** A text that neither starts nor ends with whitespace is left alone by strip(). */
  lemma StripKeepsTrimmed(t: string)
    requires t == [] || (!IsSpace(t[0]) && !IsSpace(t[|t| - 1]))
    ensures Strip(t) == t
  {
    StripUnique(t, 0, |t|);
  }

  /**
   * Stripping a text whose middle part x starts and ends with non-whitespace
   * trims only the outer parts: the leading whitespace of before and the
   * trailing whitespace of after.
   */
  lemma StripAround(before: string, x: string, after: string)
    requires x != [] && !IsSpace(x[0]) && !IsSpace(x[|x| - 1])
    ensures Strip(before + x + after)
         == before[SkipSpace(before, 0)..] + x + after[..SkipSpaceBack(after, 0, |after|)]
  {
    var t := before + x + after;
    var lo, h := SkipSpace(before, 0), SkipSpaceBack(after, 0, |after|);
    var hi := |before| + |x| + h;
    forall i | 0 <= i < lo ensures IsSpace(t[i]) {
      assert t[i] == before[i];
    }
    forall i | hi <= i < |t| ensures IsSpace(t[i]) {
      assert t[i] == after[i - |before| - |x|];
    }
    assert !IsSpace(t[lo]) by {
      if lo < |before| { assert t[lo] == before[lo]; } else { assert t[lo] == x[0]; }
    }
    assert !IsSpace(t[hi - 1]) by {
      if h > 0 { assert t[hi - 1] == after[h - 1]; } else { assert t[hi - 1] == x[|x| - 1]; }
    }
    StripUnique(t, lo, hi);
    SliceAcross(before, x, after, lo, h);
  }

  /** A slice of before + x + after that covers x is a suffix of before, x and a prefix of after. */
  lemma SliceAcross(before: string, x: string, after: string, lo: nat, h: nat)
    requires lo <= |before| && h <= |after|
    ensures (before + x + after)[lo..|before| + |x| + h] == before[lo..] + x + after[..h]
  {
  }

  /** Dropping leading whitespace first does not change what strip() keeps. */
  lemma StripAfterSkip(t: string)
    ensures Strip(t[SkipSpace(t, 0)..]) == Strip(t)
  {
    var (a, b) := StripBounds(t);
    StripSuffix(t, a, b);
  }

  /**
   * Cutting t at lo, when only whitespace follows hi and t[lo..hi] is empty
   * or starts and ends with non-whitespace, leaves t[lo..hi] for strip().
   */
  lemma StripSuffix(t: string, lo: nat, hi: nat)
    requires lo <= hi <= |t|
    requires forall i :: hi <= i < |t| ==> IsSpace(t[i])
    requires lo == hi || (!IsSpace(t[lo]) && !IsSpace(t[hi - 1]))
    ensures Strip(t[lo..]) == t[lo..hi]
  {
    var u := t[lo..];
    forall i | hi - lo <= i < |u| ensures IsSpace(u[i]) {
      assert u[i] == t[i + lo];
    }
    if lo < hi {
      assert u[0] == t[lo] && u[hi - lo - 1] == t[hi - 1];
    }
    StripUnique(u, 0, hi - lo);
    assert u[0..hi - lo] == t[lo..hi];
  }

  /** Number of occurrences of c in t (counted from the end, as a left-to-right scan extends t). */
  function Count(t: string, c: char): (n: nat)
    ensures n <= |t|
  {
    if t == [] then 0
    else Count(t[..|t| - 1], c) + (if t[|t| - 1] == c then 1 else 0)
  }

  /** pat occurs in s at index i. */
  predicate OccursAt(s: string, pat: string, i: nat)
  {
    i + |pat| <= |s| && s[i..i + |pat|] == pat
  }

  /** The first index at or after from where pat occurs in s (str.find). */
  function FindFrom(s: string, pat: string, from: nat): (r: Option<nat>)
    requires from <= |s|
    decreases |s| - from
    ensures r.Some? ==> from <= r.value && OccursAt(s, pat, r.value)
    ensures forall i :: from <= i && (r.None? || i < r.value) ==> !OccursAt(s, pat, i)
  {
    if from + |pat| > |s| then None
    else if OccursAt(s, pat, from) then Some(from)
    else FindFrom(s, pat, from + 1)
  }

  /** The first index at or after from where s holds c. */
  function IndexOf(s: string, c: char, from: nat): (r: Option<nat>)
    requires from <= |s|
    decreases |s| - from
    ensures r.Some? ==> from <= r.value < |s| && s[r.value] == c
    ensures forall i :: from <= i < |s| && (r.None? || i < r.value) ==> s[i] != c
  {
    if from == |s| then None
    else if s[from] == c then Some(from)
    else IndexOf(s, c, from + 1)
  }

  /** The last index below upto where s holds c. */
  function LastIndexOf(s: string, c: char, upto: nat): (r: Option<nat>)
    requires upto <= |s|
    ensures r.Some? ==> r.value < upto && s[r.value] == c
    ensures forall i :: 0 <= i < upto && (r.None? || r.value < i) ==> s[i] != c
  {
    if upto == 0 then None
    else if s[upto - 1] == c then Some(upto - 1)
    else LastIndexOf(s, c, upto - 1)
  }

  /** The first index at or after i that does not hold whitespace (|s| if none). */
  function SkipSpace(s: string, i: nat): (q: nat)
    requires i <= |s|
    decreases |s| - i
    ensures i <= q <= |s|
    ensures forall k :: i <= k < q ==> IsSpace(s[k])
    ensures q == |s| || !IsSpace(s[q])
  {
    if i < |s| && IsSpace(s[i]) then SkipSpace(s, i + 1) else i
  }

  /** The index SkipSpace stops at is determined by its contract. */
  lemma SkipSpaceIs(s: string, i: nat, q: nat)
    requires i <= q <= |s|
    requires forall k :: i <= k < q ==> IsSpace(s[k])
    requires q == |s| || !IsSpace(s[q])
    ensures SkipSpace(s, i) == q
  {
  }
}
