/**
 * Lemmas about concrete inputs: a fenced quiz inside prose, the rendering
 * of two options, and an input the scan does not recover.
 */
module Scenarios {
  import opened Wrappers
  import opened Json
  import opened Text
  import opened Recovery
  import opened Table

  /** Two options render as "a-> 3 || b-> 4". */
  lemma TwoOptionsRendered(repr: Repr)
    ensures Choices([("a", JString("3")), ("b", JString("4"))], repr) == "a-> 3 || b-> 4"
  {
  }

  /** A fence at p with no backquote between from and p is the first one found from there. */
  lemma FenceFoundAt(s: string, from: nat, p: nat)
    requires from <= p && OccursAt(s, Fence, p)
    requires forall k :: from <= k < p ==> s[k] != '`'
    ensures FindFrom(s, Fence, from) == Some(p)
  {
    forall i: nat | from <= i < p ensures !OccursAt(s, Fence, i) {
      if i + 3 <= |s| {
        assert s[i..i + 3][0] == s[i];
      }
    }
  }

  /** A text without a backquote has no fenced block. */
  lemma NoBackquoteNoFence(s: string)
    requires '`' !in s
    ensures FencedBlock(s).None?
  {
    forall i: nat ensures !OccursAt(s, Fence, i) {
      if i + 3 <= |s| {
        assert s[i..i + 3][0] == s[i];
      }
    }
  }

  /**
   * The first fenced block of prose + "```json" + body + "```" + prose is
   * body without its leading whitespace, which the \s* before the group takes.
   */
  lemma WrappedBlockIsFound(before: string, body: string, after: string)
    requires '`' !in before && '`' !in body
    ensures FencedBlock(before + "```json" + body + "```" + after) == Some(body[SkipSpace(body, 0)..])
  {
    WrappedLayout(before, body, after);
    FencedBody(before + "```json" + body + "```" + after, |before|, body, SkipSpace(body, 0));
  }

  /**
   * A json-tagged fence at p, the first backquote of s, directly followed by
   * body without a backquote and a closing fence: the group is body past its
   * first k characters, the whitespace it starts with.
   */
  lemma FencedBody(s: string, p: nat, body: string, k: nat)
    requires '`' !in body
    requires OccursAt(s, Fence, p) && JsonTagAt(s, p + 3)
    requires p + 7 + |body| <= |s| && s[p + 7..p + 7 + |body|] == body
    requires OccursAt(s, Fence, p + 7 + |body|) && s[p + 7 + |body|] == '`'
    requires forall i :: 0 <= i < p ==> s[i] != '`'
    requires k <= |body| && forall i :: 0 <= i < k ==> IsSpace(body[i])
    requires k == |body| || !IsSpace(body[k])
    ensures FencedBlock(s) == Some(body[k..])
  {
    PaddedBody(s, p + 7, body, k);
    BodyBlock(s, p, p + 7 + k, p + 7 + |body|, body[k..]);
  }

  /**
   * A json-tagged fence at p, the first backquote of s, and the next fence
   * at e, with no backquote in between, form the match: the group runs from
   * q, past the whitespace after the tag, to e.
   */
  lemma TaggedBlock(s: string, p: nat, q: nat, e: nat)
    requires OccursAt(s, Fence, p) && JsonTagAt(s, p + 3)
    requires forall k :: 0 <= k < p ==> s[k] != '`'
    requires SkipSpace(s, p + 7) == q <= e && OccursAt(s, Fence, e)
    requires forall k :: p + 7 <= k < e ==> s[k] != '`'
    ensures FencedBlock(s) == Some(s[q..e])
  {
    FenceFoundAt(s, 0, p);
    FenceFoundAt(s, q, e);
  }

  /**
   * The same match, with the group named: when the stretch from q to e of s
   * is rest, the group is rest.
   */
  lemma BodyBlock(s: string, p: nat, q: nat, e: nat, rest: string)
    requires OccursAt(s, Fence, p) && JsonTagAt(s, p + 3)
    requires forall k :: 0 <= k < p ==> s[k] != '`'
    requires SkipSpace(s, p + 7) == q <= e && OccursAt(s, Fence, e)
    requires forall k :: p + 7 <= k < e ==> s[k] != '`'
    requires s[q..e] == rest
    ensures FencedBlock(s) == Some(rest)
  {
    TaggedBlock(s, p, q, e);
  }

  /**
   * Where the parts of prose + "```json" + body + "```" + prose sit: the
   * tagged fence at |before|, then body, then the closing fence.
   */
  lemma WrappedLayout(before: string, body: string, after: string)
    requires '`' !in before
    ensures var s, p := before + "```json" + body + "```" + after, |before|;
      && OccursAt(s, Fence, p) && JsonTagAt(s, p + 3)
      && p + 7 + |body| <= |s| && s[p + 7..p + 7 + |body|] == body
      && OccursAt(s, Fence, p + 7 + |body|) && s[p + 7 + |body|] == '`'
      && (forall i :: 0 <= i < p ==> s[i] != '`')
  {
    var prefix, suffix := before + "```json", "```" + after;
    var s := prefix + body + suffix;
    assert s == before + "```json" + body + "```" + after;
    var p, t := |before|, |prefix|;
    var e := t + |body|;
    assert s[..t] == prefix && s[t..e] == body && s[e..] == suffix;
    assert s[p..p + 3] == Fence && s[p + 3..p + 7] == "json";
    assert s[e..e + 3] == Fence;
    forall i | 0 <= i < p ensures s[i] != '`' {
      assert s[i] == before[i];
    }
  }

  /**
   * Where body sits in s from t, followed by a backquote, with no backquote
   * in it: skipping whitespace from t in s passes over the k whitespace
   * characters body starts with, and the rest of body is the rest of that
   * stretch of s.
   */
  lemma PaddedBody(s: string, t: nat, body: string, k: nat)
    requires '`' !in body
    requires t + |body| < |s| && s[t..t + |body|] == body && s[t + |body|] == '`'
    requires k <= |body| && forall i :: 0 <= i < k ==> IsSpace(body[i])
    requires k == |body| || !IsSpace(body[k])
    ensures SkipSpace(s, t) == t + k
    ensures s[t + k..t + |body|] == body[k..]
    ensures forall i :: t <= i < t + |body| ==> s[i] != '`'
  {
    forall i | t <= i < t + |body| ensures s[i] == body[i - t] {
      assert s[i] == s[t..t + |body|][i - t];
    }
    SkipSpaceIs(s, t, t + k);
  }

  /** The fence step decodes the stripped wrapped text. */
  lemma WrappedFenceValue(before: string, body: string, after: string, loads: Loads)
    requires '`' !in before && '`' !in body
    ensures FenceValue(before + "```json" + body + "```" + after, loads) == loads(Strip(body))
  {
    WrappedBlockIsFound(before, body, after);
    StripAfterSkip(body);
  }

  /**
   * Stripping prose + "```json" + body + "```" + prose trims only the
   * prose: its leading and trailing whitespace.
   */
  lemma StripWrapped(before: string, body: string, after: string)
    ensures var before', after' := before[SkipSpace(before, 0)..], after[..SkipSpaceBack(after, 0, |after|)];
      Strip(before + "```json" + body + "```" + after) == before' + "```json" + body + "```" + after'
  {
    var x := "```json" + body + "```";
    assert before + "```json" + body + "```" + after == before + x + after;
    StripAround(before, x, after);
    var before', after' := before[SkipSpace(before, 0)..], after[..SkipSpaceBack(after, 0, |after|)];
    assert before' + x + after' == before' + "```json" + body + "```" + after';
  }

  /**
   * Valid JSON wrapped in a json-tagged fence, with prose before and after
   * it, is recovered as the decoding of the stripped wrapped text alone.
   */
  lemma FencedJsonIsRecovered(before: string, body: string, after: string, loads: Loads, v: JValue)
    requires '`' !in before && '`' !in body
    requires loads(Strip(body)) == Some(v)
    ensures ExtractJson(TextArg(before + "```json" + body + "```" + after), loads) == Ok(v)
  {
    var before', after' := before[SkipSpace(before, 0)..], after[..SkipSpaceBack(after, 0, |after|)];
    StripWrapped(before, body, after);
    assert '`' !in before' by {
      forall i | 0 <= i < |before'| ensures before'[i] in before {
        assert before'[i] == before[i + SkipSpace(before, 0)];
      }
    }
    WrappedFenceValue(before', body, after', loads);
  }

  /**
   * A brace inside a string literal changes the depth: in {"a":"}"} the
   * scan returns to depth zero at the brace inside the string, not at the
   * final one.
   */
  lemma BraceInStringCounts()
    ensures ClosesAt("{\"a\":\"}\"}", 0, 6) && !ClosesAt("{\"a\":\"}\"}", 0, 8)
  {
    var s := "{\"a\":\"}\"}";
    // the counts of both braces over s[0..j], read one character at a time
    for j := 0 to |s|
      invariant Count(s[0..j], '{') == (if j == 0 then 0 else 1)
      invariant Count(s[0..j], '}') == (if j <= 6 then 0 else if j <= 8 then 1 else 2)
      invariant j >= 7 ==> Count(s[0..7], '{') == Count(s[0..7], '}')
    {
      DepthStep(s, 0, j, '{');
      DepthStep(s, 0, j, '}');
    }
  }

  /**
   * A malformed object followed by a well-formed one is not recovered:
   * every scan candidate starts at the first bracket, and the greedy span
   * covers both objects.
   */
  lemma SecondObjectNotRecovered(loads: Loads)
    requires forall t :: loads(t).Some? <==> t == "{}"
    ensures ExtractJson(TextArg("{,} {}"), loads) == Err(NoValidJson)
    ensures Message(ExtractJson(TextArg("{,} {}"), loads).error) == "Could not extract a valid JSON object from the text"
  {
    var s := "{,} {}";
    StripKeepsTrimmed(s);
    NoBackquoteNoFence(s);
    assert FencedBlock(s).None?;
    assert FirstBracket(s, 0) == Some(0);
    // every candidate the scan or the greedy span offers starts with "{,"
    forall k: nat | 2 <= k <= |s| ensures loads(s[0..k]).None? {
      assert s[0..k][1] == ',';
    }
    assert ScanFrom(s, 0, loads).None?;
    assert IndexOf(s, '{', 0) == Some(0);
    assert GreedyValue(s, loads).None?;
  }
}
