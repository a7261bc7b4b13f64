/**
 * The recovery parser extract_json_from_text: pull one JSON value out of
 * noisy model output by trying, in a fixed order, the first fenced code
 * block, a depth-counting scan from the first bracket, and a greedy span
 * from the first '{' to the last '}'.
 */
module Recovery {
  import opened Wrappers
  import opened Json
  import opened Text

  /** The three ValueErrors extract_json_from_text raises. */
  datatype ExtractError = NotAString | NoJsonStart | NoValidJson

  /** The message each ValueError carries. */
  function Message(e: ExtractError): string
  {
    match e
    case NotAString => "Expected text to be a string"
    case NoJsonStart => "No JSON object found in text"
    case NoValidJson => "Could not extract a valid JSON object from the text"
  }

  const Fence: string := "```"

  // ---------------------------------------------------------------------
  // Step 1: the pattern ```(?:json)?\s*([\s\S]*?)``` searched with IGNORECASE

  /**
   * The four characters at i spell "json" in any case. Python's
   * case-insensitive matching also folds the long s (U+017F) onto 's'.
   */
  predicate JsonTagAt(s: string, i: nat)
  {
    && i + 4 <= |s|
    && (s[i] == 'j' || s[i] == 'J')
    && (s[i + 1] == 's' || s[i + 1] == 'S' || s[i + 1] == '\U{17F}')
    && (s[i + 2] == 'o' || s[i + 2] == 'O')
    && (s[i + 3] == 'n' || s[i + 3] == 'N')
  }

  /**
   * The simple case folding that case-insensitive matching compares
   * characters under, restricted to the characters that fold onto the
   * letters of "json": ASCII capitals become small letters and the long s
   * folds onto 's'. Every other character is left as it is.
   */
  function Fold(c: char): char
  {
    if 'A' <= c <= 'Z' then (c as int + 32) as char
    else if c == '\U{17F}' then 's'
    else c
  }

  /** The tag is whatever four characters fold, one by one, onto "json". */
  lemma JsonTagIsCaseless(s: string, i: nat)
    ensures JsonTagAt(s, i) <==> i + 4 <= |s| && forall k :: 0 <= k < 4 ==> Fold(s[i + k]) == "json"[k]
  {
    if i + 4 <= |s| && forall k :: 0 <= k < 4 ==> Fold(s[i + k]) == "json"[k] {
      assert Fold(s[i + 0]) == "json"[0] && Fold(s[i + 1]) == "json"[1];
      assert Fold(s[i + 2]) == "json"[2] && Fold(s[i + 3]) == "json"[3];
    }
  }

  /**
   * One way the fence pattern can match s: the opening fence at p, the
   * optional tag ending at t, whitespace up to q, the captured group
   * s[q..e], and the closing fence at e.
   */
  ghost predicate FenceMatch(s: string, p: nat, t: nat, q: nat, e: nat)
  {
    && OccursAt(s, Fence, p)
    && (t == p + 3 || (t == p + 7 && JsonTagAt(s, p + 3)))
    && t <= q <= e
    && OccursAt(s, Fence, e)
    && (forall k :: t <= k < q ==> IsSpace(s[k]))
  }

  /** The spans of a match: where the opening fence, the tag and the group lie. */
  datatype FenceHit = FenceHit(open: nat, tagEnd: nat, start: nat, end: nat)

  /** re.search for the fence pattern: the match it reports, if any. */
  function FencedMatch(s: string): (r: Option<FenceHit>)
    ensures r.Some? ==> FenceMatch(s, r.value.open, r.value.tagEnd, r.value.start, r.value.end)
  {
    match FindFrom(s, Fence, 0)
    case None => None
    case Some(p) =>
      var t := if JsonTagAt(s, p + 3) then p + 7 else p + 3;
      var q := SkipSpace(s, t);
      match FindFrom(s, Fence, q)
      case None => None
      case Some(e) => Some(FenceHit(p, t, q, e))
  }

  /** m.group(1) for the fence pattern. */
  function FencedBlock(s: string): Option<string>
  {
    match FencedMatch(s)
    case None => None
    case Some(h) => Some(s[h.start..h.end])
  }

  /** Every occurrence of the fence begins with a backquote. */
  lemma FenceBeginsWithBackquote(s: string)
    ensures forall e: nat :: OccursAt(s, Fence, e) ==> s[e] == '`'
  {
    forall e: nat | OccursAt(s, Fence, e) ensures s[e] == '`' {
      assert s[e] == s[e..e + 3][0];
    }
  }

  /** Neither the tag nor the whitespace after it holds a backquote. */
  lemma NoBackquoteBeforeGroup(s: string, p: nat, t: nat, q: nat)
    requires p + 3 <= |s|
    requires t == p + 3 || (t == p + 7 && JsonTagAt(s, p + 3))
    requires t <= q <= |s| && forall k :: t <= k < q ==> IsSpace(s[k])
    ensures forall k :: p + 3 <= k < q ==> s[k] != '`'
  {
  }

  /**
   * FencedMatch is what Python's backtracking search reports: there is a
   * match exactly when it finds one, and of all matches it prefers the
   * leftmost opening fence, then the tag over no tag, then the longest run
   * of whitespace, then the shortest group. In particular only the first
   * fenced block is ever looked at.
   */
  lemma FencedMatchIsSearch(s: string)
    ensures FencedMatch(s).None? <==> forall p: nat, t: nat, q: nat, e: nat :: !FenceMatch(s, p, t, q, e)
    ensures FencedMatch(s).Some? ==>
      var h := FencedMatch(s).value;
      forall p: nat, t: nat, q: nat, e: nat :: FenceMatch(s, p, t, q, e) ==>
        || h.open < p
        || (h.open == p && h.tagEnd > t)
        || (h.open == p && h.tagEnd == t && h.start > q)
        || (h.open == p && h.tagEnd == t && h.start == q && h.end <= e)
  {
    FenceBeginsWithBackquote(s);
    match FindFrom(s, Fence, 0)
    case None =>
    case Some(p0) =>
      var t0 := if JsonTagAt(s, p0 + 3) then p0 + 7 else p0 + 3;
      var q0 := SkipSpace(s, t0);
      NoBackquoteBeforeGroup(s, p0, t0, q0);
  }

  // ---------------------------------------------------------------------
  // Step 2: the depth-counting scan from the first bracket

  /** The characters that may start a JSON candidate. */
  predicate IsOpen(c: char)
  {
    c == '{' || c == '['
  }

  /** The closer the scan pairs with the bracket it starts at. */
  function CloserOf(open: char): char
  {
    if open == '{' then '}' else ']'
  }

  /** The first index at or after from holding '{' or '['. */
  function FirstBracket(s: string, from: nat): (r: Option<nat>)
    requires from <= |s|
    decreases |s| - from
    ensures r.Some? ==> from <= r.value < |s| && IsOpen(s[r.value])
    ensures forall i :: from <= i < |s| && (r.None? || i < r.value) ==> !IsOpen(s[i])
  {
    if from == |s| then None
    else if IsOpen(s[from]) then Some(from)
    else FirstBracket(s, from + 1)
  }

  /**
   * s[j] is a closer at which the scan from start is back at depth zero:
   * s[start..j + 1] holds as many of the opening character as of its closer.
   * The other kind of bracket plays no part.
   */
  predicate ClosesAt(s: string, start: nat, j: nat)
    requires start < |s|
  {
    && start <= j < |s|
    && s[j] == CloserOf(s[start])
    && Count(s[start..j + 1], s[start]) == Count(s[start..j + 1], CloserOf(s[start]))
  }

  /**
   * The first depth-zero closer at or after from whose candidate
   * s[start..j + 1] decodes; every earlier depth-zero candidate fails to.
   */
  function BalancedEnd(s: string, start: nat, from: nat, loads: Loads): (r: Option<nat>)
    requires start < |s| && start <= from <= |s|
    decreases |s| - from
    ensures r.Some? ==>
      from <= r.value < |s| && ClosesAt(s, start, r.value) && loads(s[start..r.value + 1]).Some?
    ensures forall j :: from <= j < |s| && (r.None? || j < r.value) && ClosesAt(s, start, j) ==>
      loads(s[start..j + 1]).None?
  {
    if from == |s| then None
    else if ClosesAt(s, start, from) && loads(s[start..from + 1]).Some? then Some(from)
    else BalancedEnd(s, start, from + 1, loads)
  }

  /**
   * Characters other than the opening character and its closer (the other
   * bracket kind among them) never change the depth.
   */
  lemma {:induction false} DepthIgnoresOtherCharacters(a: string, b: string, open: char, close: char)
    requires |a| == |b|
    requires forall i :: 0 <= i < |a| && (a[i] == open || a[i] == close || b[i] == open || b[i] == close) ==>
      a[i] == b[i]
    ensures Count(a, open) == Count(b, open) && Count(a, close) == Count(b, close)
  {
    if a != [] {
      var n := |a| - 1;
      DepthIgnoresOtherCharacters(a[..n], b[..n], open, close);
    }
  }

  /** So two texts that agree on where the brackets of the scanned kind are have the same depth-zero closers. */
  lemma ClosesAtIgnoresOtherCharacters(s: string, u: string, start: nat, j: nat)
    requires |s| == |u| && start < |s| && s[start] == u[start]
    requires forall i :: 0 <= i < |s| && (IsScanned(s[start], s[i]) || IsScanned(s[start], u[i])) ==> s[i] == u[i]
    ensures ClosesAt(s, start, j) <==> ClosesAt(u, start, j)
  {
    if start <= j < |s| {
      var a, b := s[start..j + 1], u[start..j + 1];
      forall i | 0 <= i < |a| && (a[i] == s[start] || a[i] == CloserOf(s[start]) || b[i] == s[start] || b[i] == CloserOf(s[start]))
        ensures a[i] == b[i]
      {
        assert a[i] == s[start + i] && b[i] == u[start + i];
      }
      DepthIgnoresOtherCharacters(a, b, s[start], CloserOf(s[start]));
    }
  }

  /** c is the opening character the scan started at, or its closer. */
  predicate IsScanned(open: char, c: char)
  {
    c == open || c == CloserOf(open)
  }

  // ---------------------------------------------------------------------
  // Step 3: the pattern (\{[\s\S]*\})

  /** A match of the greedy pattern: a '{' at i and a '}' at j after it. */
  predicate BraceSpan(s: string, i: nat, j: nat)
  {
    i < j < |s| && s[i] == '{' && s[j] == '}'
  }

  /** re.search for the greedy pattern: from the first '{' to the last '}'. */
  function GreedyBraceSpan(s: string): (r: Option<(nat, nat)>)
    ensures r.Some? ==> BraceSpan(s, r.value.0, r.value.1)
  {
    match IndexOf(s, '{', 0)
    case None => None
    case Some(i) =>
      match LastIndexOf(s, '}', |s|)
      case None => None
      case Some(j) => if i < j then Some((i, j)) else None
  }

  /**
   * GreedyBraceSpan is what Python's search reports: a match exists exactly
   * when it finds one, and it takes the leftmost start and, there, the
   * longest span.
   */
  lemma GreedyBraceSpanIsSearch(s: string)
    ensures GreedyBraceSpan(s).None? <==> forall i: nat, j: nat :: !BraceSpan(s, i, j)
    ensures GreedyBraceSpan(s).Some? ==>
      forall i: nat, j: nat :: BraceSpan(s, i, j) ==>
        GreedyBraceSpan(s).value.0 < i || (GreedyBraceSpan(s).value.0 == i && j <= GreedyBraceSpan(s).value.1)
  {
    var first := IndexOf(s, '{', 0);
    var last := LastIndexOf(s, '}', |s|);
    forall i: nat, j: nat | BraceSpan(s, i, j)
      ensures GreedyBraceSpan(s).Some?
      ensures GreedyBraceSpan(s).value.0 <= i && j <= GreedyBraceSpan(s).value.1
    {
      assert first.Some? && first.value <= i;
      assert last.Some? && j <= last.value;
    }
  }

  // ---------------------------------------------------------------------
  // The whole chain

  /** What json.loads makes of the stripped first fenced block. */
  function FenceValue(s: string, loads: Loads): Option<JValue>
  {
    match FencedBlock(s)
    case None => None
    case Some(block) => loads(Strip(block))
  }

  /** What json.loads makes of the greedy brace span. */
  function GreedyValue(s: string, loads: Loads): Option<JValue>
  {
    match GreedyBraceSpan(s)
    case None => None
    case Some(span) => loads(s[span.0..span.1 + 1])
  }

  /** extract_json_from_text, as a value: the first strategy that yields wins. */
  function ExtractJson(arg: Arg, loads: Loads): Result<JValue, ExtractError>
  {
    if !arg.TextArg? then Err(NotAString) else ExtractStripped(Strip(arg.text), loads)
  }

  /** The strategy chain run on the stripped text s. */
  function ExtractStripped(s: string, loads: Loads): Result<JValue, ExtractError>
  {
    var fenced := FenceValue(s, loads);
    if fenced.Some? then Ok(fenced.value) else AfterFence(s, loads)
  }

  /** The bracket steps, run when the fence step did not return. */
  function AfterFence(s: string, loads: Loads): Result<JValue, ExtractError>
  {
    match FirstBracket(s, 0)
    case None => Err(NoJsonStart)
    case Some(start) =>
      var scanned := ScanFrom(s, start, loads);
      if scanned.Some? then Ok(scanned.value)
      else
        var greedy := GreedyValue(s, loads);
        if greedy.Some? then Ok(greedy.value) else Err(NoValidJson)
  }

  /** Whatever a non-string holds, it is refused with the first ValueError. */
  lemma ExtractRejectsNonString(arg: Arg, loads: Loads)
    requires !arg.TextArg?
    ensures ExtractJson(arg, loads) == Err(NotAString)
    ensures Message(ExtractJson(arg, loads).error) == "Expected text to be a string"
  {
  }

  /**
   * When the stripped content of the first fenced block decodes, that value
   * is the answer, whatever brackets the rest of the text holds.
   */
  lemma ExtractFencePriority(text: string, loads: Loads, block: string, v: JValue)
    requires FencedBlock(Strip(text)) == Some(block)
    requires loads(Strip(block)) == Some(v)
    ensures ExtractJson(TextArg(text), loads) == Ok(v)
  {
  }

  /**
   * "No JSON object found in text" is raised exactly when the fence step
   * does not return and the stripped text has no '{' and no '['.
   */
  lemma ExtractNoStart(text: string, loads: Loads)
    ensures var s := Strip(text);
      ExtractJson(TextArg(text), loads) == Err(NoJsonStart) <==>
        FenceValue(s, loads).None? && forall i :: 0 <= i < |s| ==> !IsOpen(s[i])
    ensures var s, r := Strip(text), ExtractJson(TextArg(text), loads);
      r.Err? && Message(r.error) == "No JSON object found in text" <==>
        FenceValue(s, loads).None? && forall i :: 0 <= i < |s| ==> !IsOpen(s[i])
  {
  }

  /**
   * When the fence step does not return, the answer is the decoding of the
   * shortest depth-zero candidate s[start..j + 1] that decodes, where start
   * is the first bracket of the stripped text s.
   */
  lemma ExtractFromBalancedScan(text: string, loads: Loads, start: nat, j: nat, v: JValue)
    requires var s := Strip(text);
      && FenceValue(s, loads).None?
      && start < |s| && IsOpen(s[start]) && (forall i :: 0 <= i < start ==> !IsOpen(s[i]))
      && ClosesAt(s, start, j) && loads(s[start..j + 1]) == Some(v)
      && (forall k :: start <= k < j && ClosesAt(s, start, k) ==> loads(s[start..k + 1]).None?)
    ensures ExtractJson(TextArg(text), loads) == Ok(v)
  {
    ScanAnswer(Strip(text), loads, start, j, v);
  }

  /** The bracket steps of a stripped text whose scan finds a decoding candidate. */
  lemma ScanAnswer(s: string, loads: Loads, start: nat, j: nat, v: JValue)
    requires start < |s| && IsOpen(s[start]) && (forall i :: 0 <= i < start ==> !IsOpen(s[i]))
    requires ClosesAt(s, start, j) && loads(s[start..j + 1]) == Some(v)
    requires forall k :: start <= k < j && ClosesAt(s, start, k) ==> loads(s[start..k + 1]).None?
    ensures AfterFence(s, loads) == Ok(v)
  {
    assert FirstBracket(s, 0) == Some(start);
    BalancedEndAt(s, start, j, loads);
  }

  /** The first equal-count closer whose candidate decodes is the one BalancedEnd reports. */
  lemma BalancedEndAt(s: string, start: nat, j: nat, loads: Loads)
    requires start < |s| && ClosesAt(s, start, j) && loads(s[start..j + 1]).Some?
    requires forall k :: start <= k < j && ClosesAt(s, start, k) ==> loads(s[start..k + 1]).None?
    ensures BalancedEnd(s, start, start, loads) == Some(j)
  {
  }

  /**
   * When no step before it returns, only the span from the first '{' to
   * the last '}' is left: "Could not extract a valid JSON object from the
   * text" is raised exactly when that span is absent or does not decode.
   */
  lemma ExtractLastResort(text: string, loads: Loads, start: nat)
    requires var s := Strip(text);
      && FenceValue(s, loads).None?
      && start < |s| && IsOpen(s[start]) && (forall i :: 0 <= i < start ==> !IsOpen(s[i]))
      && (forall j :: start <= j < |s| && ClosesAt(s, start, j) ==> loads(s[start..j + 1]).None?)
    ensures var s := Strip(text);
      && (ExtractJson(TextArg(text), loads) == Err(NoValidJson) <==> GreedyValue(s, loads).None?)
      && (GreedyValue(s, loads).Some? ==> ExtractJson(TextArg(text), loads) == Ok(GreedyValue(s, loads).value))
    ensures var s, r := Strip(text), ExtractJson(TextArg(text), loads);
      r.Err? && Message(r.error) == "Could not extract a valid JSON object from the text" <==>
        GreedyValue(s, loads).None?
  {
    var s := Strip(text);
    assert FirstBracket(s, 0) == Some(start);
    assert BalancedEnd(s, start, start, loads).None?;
  }

  // ---------------------------------------------------------------------
  // The imperative scans

  /** The loop that looks for the first '{' or '[', stopping at the first one. */
  method FindStart(s: string) returns (start: Option<nat>)
    ensures start == FirstBracket(s, 0)
  {
    start := None;
    for i := 0 to |s|
      invariant forall k :: 0 <= k < i ==> !IsOpen(s[k])
    {
      if IsOpen(s[i]) {
        start := Some(i);
        break;
      }
    }
  }

  /** Reading s[j] moves the depth by one on the opening character and its closer only. */
  lemma DepthStep(s: string, start: nat, j: nat, c: char)
    requires start <= j < |s|
    ensures Count(s[start..j + 1], c) == Count(s[start..j], c) + (if s[j] == c then 1 else 0)
  {
    assert s[start..j + 1][..j - start] == s[start..j];
  }

  /**
   * Reading s[j] moves the depth by one on the opening character or its
   * closer, and j closes a candidate exactly when it is a closer that
   * brings the depth back to zero.
   */
  lemma DepthAfter(s: string, start: nat, j: nat, depth: int)
    requires start <= j < |s| && IsOpen(s[start])
    requires depth == Count(s[start..j], s[start]) - Count(s[start..j], CloserOf(s[start]))
    ensures var open, close := s[start], CloserOf(s[start]);
      var next := if s[j] == open then depth + 1 else if s[j] == close then depth - 1 else depth;
      && next == Count(s[start..j + 1], open) - Count(s[start..j + 1], close)
      && (ClosesAt(s, start, j) <==> s[j] == close && next == 0)
  {
    DepthStep(s, start, j, s[start]);
    DepthStep(s, start, j, CloserOf(s[start]));
  }

  /**
   * The depth-counting loop: depth rises on the opening character, falls on
   * its closer, and at every return to zero the candidate from start is
   * decoded; the first one that decodes is returned.
   */
  method ScanBalanced(s: string, start: nat, loads: Loads) returns (r: Option<JValue>)
    requires start < |s| && IsOpen(s[start])
    ensures r == ScanFrom(s, start, loads)
  {
    var open := s[start];
    var close := CloserOf(open);
    var depth := 0;
    for j := start to |s|
      invariant depth == Count(s[start..j], open) - Count(s[start..j], close)
      invariant BalancedEnd(s, start, start, loads) == BalancedEnd(s, start, j, loads)
    {
      DepthAfter(s, start, j, depth);
      if s[j] == open {
        depth := depth + 1;
      } else if s[j] == close {
        depth := depth - 1;
        if depth == 0 {
          var candidate := s[start..j + 1];
          var parsed := loads(candidate);
          if parsed.Some? {
            return parsed;
          }
        }
      }
    }
    return None;
  }

  /** The scan's answer from a given first bracket. */
  function ScanFrom(s: string, start: nat, loads: Loads): Option<JValue>
    requires start < |s|
  {
    match BalancedEnd(s, start, start, loads)
    case None => None
    case Some(j) => loads(s[start..j + 1])
  }

  /** extract_json_from_text: the argument check, the strip and the fence step. */
  method ExtractJsonFromText(arg: Arg, loads: Loads) returns (r: Result<JValue, ExtractError>)
    ensures r == ExtractJson(arg, loads)
  {
    if !arg.TextArg? {
      return Err(NotAString);
    }
    var s := Strip(arg.text);
    var m := FencedMatch(s);
    if m.Some? {
      var candidate := Strip(s[m.value.start..m.value.end]);
      var parsed := loads(candidate);
      if parsed.Some? {
        return Ok(parsed.value);
      }
    }
    r := RecoverFromBrackets(s, loads);
  }

  /** The rest of extract_json_from_text: the bracket scan, then the greedy span. */
  method RecoverFromBrackets(s: string, loads: Loads) returns (r: Result<JValue, ExtractError>)
    ensures r == AfterFence(s, loads)
  {
    var start := FindStart(s);
    if start.None? {
      return Err(NoJsonStart);
    }
    var found := ScanBalanced(s, start.value, loads);
    if found.Some? {
      return Ok(found.value);
    }
    var m := GreedyBraceSpan(s);
    if m.Some? {
      var parsed := loads(s[m.value.0..m.value.1 + 1]);
      if parsed.Some? {
        return Ok(parsed.value);
      }
    }
    return Err(NoValidJson);
  }
}
