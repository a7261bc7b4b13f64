/**
 * The tabular projector get_table_data: turn a quiz (a dict, or text that
 * decodes or can be recovered to one) into one row per question, or into
 * the sentinel False when anything about the quiz is malformed.
 */
module Table {
  import opened Wrappers
  import opened Json
  import Recovery

  /** A row of the table: the dict {"MCQ": ..., "Choices": ..., "Correct": ...}. */
  datatype Row = Row(mcq: JValue, choices: string, correct: JValue)

  const Separator: string := " || "

  /** d[key] on a dict: the value stored under key, or None where Python raises KeyError. */
  function Lookup(entries: seq<(string, JValue)>, key: string): (r: Option<JValue>)
    ensures r.Some? ==> (key, r.value) in entries
    ensures r.None? <==> forall i :: 0 <= i < |entries| ==> entries[i].0 != key
  {
    if entries == [] then None
    else if entries[0].0 == key then Some(entries[0].1)
    else Lookup(entries[1..], key)
  }

  /** f"{option}-> {option_value}" for one option. */
  function ChoiceText(option: (string, JValue), repr: Repr): string
  {
    option.0 + "-> " + Str(option.1, repr)
  }

  /** " || ".join of the rendered options, in the options' order. */
  function Choices(options: seq<(string, JValue)>, repr: Repr): string
  {
    if options == [] then ""
    else if |options| == 1 then ChoiceText(options[0], repr)
    else ChoiceText(options[0], repr) + Separator + Choices(options[1..], repr)
  }

  /**
   * The joined options are empty exactly when there are none, and otherwise
   * start with the first option's rendering and end with the last one's.
   */
  lemma {:induction false} ChoicesEnds(options: seq<(string, JValue)>, repr: Repr)
    ensures Choices(options, repr) == [] <==> options == []
    ensures options != [] ==> ChoiceText(options[0], repr) <= Choices(options, repr)
    ensures options != [] ==>
      var r, last := Choices(options, repr), ChoiceText(options[|options| - 1], repr);
      |last| <= |r| && r[|r| - |last|..] == last
  {
    if |options| > 1 {
      var first, rest := ChoiceText(options[0], repr), Choices(options[1..], repr);
      ChoicesEnds(options[1..], repr);
      var r := first + Separator + rest;
      assert r[..|first|] == first;
      assert r[|first| + |Separator|..] == rest;
    }
  }

  /**
   * Joining two non-empty runs of options is joining each and putting one
   * separator between them, so every option is rendered once, in order,
   * whatever the number of options.
   */
  lemma {:induction false} ChoicesAppend(a: seq<(string, JValue)>, b: seq<(string, JValue)>, repr: Repr)
    requires a != [] && b != []
    ensures Choices(a + b, repr) == Choices(a, repr) + Separator + Choices(b, repr)
  {
    if |a| == 1 {
      assert (a + b)[0] == a[0] && (a + b)[1..] == b;
    } else {
      ChoicesAppend(a[1..], b, repr);
      assert (a + b)[1..] == a[1..] + b;
    }
  }

  /** One more option adds a separator and its rendering at the end. */
  lemma ChoicesSnoc(a: seq<(string, JValue)>, option: (string, JValue), repr: Repr)
    ensures Choices(a + [option], repr) ==
      if a == [] then ChoiceText(option, repr) else Choices(a, repr) + Separator + ChoiceText(option, repr)
  {
    if a == [] {
      assert a + [option] == [option];
    } else {
      ChoicesAppend(a, [option], repr);
    }
  }

  /** A quiz entry whose value has an "mcq", a dict of "options" and a "correct". */
  predicate IsQuestion(value: JValue)
  {
    && value.JObject?
    && Lookup(value.entries, "mcq").Some?
    && Lookup(value.entries, "options").Some?
    && Lookup(value.entries, "options").value.JObject?
    && Lookup(value.entries, "correct").Some?
  }

  /** The row built from a well-formed question. */
  function RowOf(value: JValue, repr: Repr): Row
    requires IsQuestion(value)
  {
    Row(
      Lookup(value.entries, "mcq").value,
      Choices(Lookup(value.entries, "options").value.entries, repr),
      Lookup(value.entries, "correct").value)
  }

  /**
   * The rows of a quiz, all or nothing: one row per entry, in order, when
   * every entry is a well-formed question, and None as soon as one is not.
   */
  function RowsOf(entries: seq<(string, JValue)>, repr: Repr): (r: Option<seq<Row>>)
    ensures r.Some? <==> forall i :: 0 <= i < |entries| ==> IsQuestion(entries[i].1)
    ensures r.Some? ==>
      && |r.value| == |entries|
      && forall i :: 0 <= i < |entries| ==> r.value[i] == RowOf(entries[i].1, repr)
  {
    if entries == [] then Some([])
    else if !IsQuestion(entries[0].1) then None
    else
      match RowsOf(entries[1..], repr)
      case None => None
      case Some(rest) => Some([RowOf(entries[0].1, repr)] + rest)
  }

  /**
   * The quiz that get_table_data walks: a dict as it is; a string through
   * json.loads, and only when that fails through extract_json_from_text;
   * anything else makes json.loads raise.
   */
  function QuizOf(arg: Arg, loads: Loads): Option<JValue>
  {
    match arg
    case DictArg(entries) => Some(JObject(entries))
    case TextArg(text) =>
      if loads(text).Some? then loads(text)
      else Recovery.ExtractJson(arg, loads).ToOption()
    case OtherArg(_) => None
  }

  /**
   * Where the quiz comes from: a dict is used as it is; a string that
   * json.loads decodes is never handed to the recovery parser, and one it
   * cannot decode yields what recovery returns. There is no quiz exactly
   * when the argument is neither a str nor a dict, or when decoding and
   * recovery both fail.
   */
  lemma QuizRouting(arg: Arg, loads: Loads)
    ensures arg.DictArg? ==> QuizOf(arg, loads) == Some(JObject(arg.entries))
    ensures arg.TextArg? && loads(arg.text).Some? ==> QuizOf(arg, loads) == loads(arg.text)
    ensures arg.TextArg? && loads(arg.text).None? && QuizOf(arg, loads).Some? ==>
      Recovery.ExtractJson(arg, loads) == Ok(QuizOf(arg, loads).value)
    ensures QuizOf(arg, loads).None? <==>
      || arg.OtherArg?
      || (arg.TextArg? && loads(arg.text).None? && Recovery.ExtractJson(arg, loads).Err?)
  {
  }

  /** get_table_data, as a value: None stands for the returned False. */
  function TableData(arg: Arg, loads: Loads, repr: Repr): Option<seq<Row>>
  {
    match QuizOf(arg, loads)
    case Some(JObject(entries)) => RowsOf(entries, repr)
    case _ => None
  }

  /**
   * get_table_data succeeds exactly when the quiz it obtains is a dict whose
   * every entry is a well-formed question; it then has one row per entry, in
   * the dict's order, holding that entry's "mcq", rendered "options" and
   * "correct". An empty dict gives an empty table.
   */
  lemma TableDataSpec(arg: Arg, loads: Loads, repr: Repr)
    ensures TableData(arg, loads, repr).Some? <==>
      && QuizOf(arg, loads).Some? && QuizOf(arg, loads).value.JObject?
      && var entries := QuizOf(arg, loads).value.entries;
         forall i :: 0 <= i < |entries| ==> IsQuestion(entries[i].1)
    ensures TableData(arg, loads, repr).Some? ==>
      var entries := QuizOf(arg, loads).value.entries;
      var rows := TableData(arg, loads, repr).value;
      && |rows| == |entries|
      && forall i :: 0 <= i < |entries| ==>
        && rows[i].mcq == Lookup(entries[i].1.entries, "mcq").value
        && rows[i].choices == Choices(Lookup(entries[i].1.entries, "options").value.entries, repr)
        && rows[i].correct == Lookup(entries[i].1.entries, "correct").value
  {
    match QuizOf(arg, loads)
    case Some(JObject(entries)) =>
      var r := RowsOf(entries, repr);
      if r.Some? {
        forall i | 0 <= i < |entries|
          ensures r.value[i].mcq == Lookup(entries[i].1.entries, "mcq").value
        {
          assert r.value[i] == RowOf(entries[i].1, repr);
        }
      }
    case _ =>
  }

  /** A dict argument is walked as it is, without any decoding. */
  lemma DictIsUsedDirectly(entries: seq<(string, JValue)>, loads: Loads, repr: Repr)
    ensures TableData(DictArg(entries), loads, repr) == RowsOf(entries, repr)
  {
  }

  /**
   * All or nothing: if one entry of the quiz is not a well-formed question,
   * the result is False, whatever the other entries hold.
   */
  lemma OneBadEntrySpoilsTable(arg: Arg, loads: Loads, repr: Repr, k: nat)
    requires QuizOf(arg, loads).Some? && QuizOf(arg, loads).value.JObject?
    requires k < |QuizOf(arg, loads).value.entries|
    requires !IsQuestion(QuizOf(arg, loads).value.entries[k].1)
    ensures TableData(arg, loads, repr).None?
  {
  }

  /**
   * get_table_data: obtain the quiz, then append one row per entry; any
   * exception along the way (a failed recovery, a value that is not a dict,
   * a missing key) makes the whole call return False.
   */
  method GetTableData(arg: Arg, loads: Loads, repr: Repr) returns (table: Option<seq<Row>>)
    ensures table == TableData(arg, loads, repr)
  {
    var quiz: JValue;
    match arg {
      case DictArg(entries) =>
        quiz := JObject(entries);
      case TextArg(text) =>
        var parsed := loads(text);
        if parsed.Some? {
          quiz := parsed.value;
        } else {
          var recovered := Recovery.ExtractJsonFromText(arg, loads);
          if recovered.Err? {
            return None;
          }
          quiz := recovered.value;
        }
      case OtherArg(_) =>
        return None;
    }
    if !quiz.JObject? {
      return None;
    }
    var entries := quiz.entries;
    var rows: seq<Row> := [];
    for i := 0 to |entries|
      invariant |rows| == i
      invariant forall k :: 0 <= k < i ==> IsQuestion(entries[k].1) && rows[k] == RowOf(entries[k].1, repr)
    {
      var value := entries[i].1;
      if !value.JObject? {
        return None;
      }
      var mcq := Lookup(value.entries, "mcq");
      if mcq.None? {
        return None;
      }
      var options := Lookup(value.entries, "options");
      if options.None? || !options.value.JObject? {
        return None;
      }
      var choices := Choices(options.value.entries, repr);
      var correct := Lookup(value.entries, "correct");
      if correct.None? {
        return None;
      }
      rows := rows + [Row(mcq.value, choices, correct.value)];
    }
    assert QuizOf(arg, loads) == Some(quiz);
    assert rows == RowsOf(entries, repr).value;
    return Some(rows);
  }
}
