/**
 * The JSON values that the quiz layer handles, the arguments its two entry
 * points receive, and the foreign pieces of Python it relies on (json.loads
 * and str() of a container or float), which are passed in as functions.
 */
module Json {
  import opened Wrappers

  /**
   * A decoded JSON value. Objects are association lists so that the insertion
   * order of a Python dict is kept; a dict built by json.loads has distinct
   * keys.
   */
  datatype JValue =
    | JNull
    | JBool(b: bool)
    | JInt(n: int)
    | JFloat(literal: string)
    | JString(s: string)
    | JArray(items: seq<JValue>)
    | JObject(entries: seq<(string, JValue)>)

  /** The decoder json.loads: the decoded value, or None when it raises. */
  type Loads = string -> Option<JValue>

  /** Python's repr of a float, a list or a dict, whose internals are not modelled. */
  type Repr = JValue -> string

  /**
   * The dynamically typed argument handed to extract_json_from_text or
   * get_table_data: a str, a dict, or any other Python value.
   */
  datatype Arg =
    | TextArg(text: string)
    | DictArg(entries: seq<(string, JValue)>)
    | OtherArg(value: JValue)

  predicate IsDigit(c: char)
  {
    '0' <= c <= '9'
  }

  /** int(t) for a string of decimal digits. */
  function DigitsValue(t: string): int
  {
    if t == [] then 0
    else DigitsValue(t[..|t| - 1]) * 10 + (t[|t| - 1] as int - '0' as int)
  }

  /** int(t) for an optional minus sign followed by decimal digits. */
  function IntValue(t: string): int
  {
    if t != [] && t[0] == '-' then -DigitsValue(t[1..]) else DigitsValue(t)
  }

  /**
   * The characters of str(n) for a natural number n: decimal digits with no
   * leading zero, which int() reads back as n.
   */
  function Decimal(n: nat): (r: string)
    decreases n
    ensures r != [] && forall i :: 0 <= i < |r| ==> IsDigit(r[i])
    ensures r[0] == '0' ==> r == "0"
    ensures DigitsValue(r) == n
  {
    var digit := "0123456789"[n % 10];
    if n < 10 then [digit]
    else
      var r := Decimal(n / 10) + [digit];
      assert r[..|r| - 1] == Decimal(n / 10);
      r
  }

  /** str(v), as an f-string renders a decoded value. */
  function Str(v: JValue, repr: Repr): string
  {
    match v
    case JString(s) => s
    case JNull => "None"
    case JBool(b) => if b then "True" else "False"
    case JInt(n) => if n < 0 then "-" + Decimal(-n) else Decimal(n)
    case _ => repr(v)
  }

  /**
   * How str() renders each kind of value: a string is inserted as it is;
   * None, True and False print as Python spells them; an integer prints as
   * a minus sign exactly when it is negative, then the digits of its
   * magnitude, which int() reads back as the integer. A float, list or dict
   * goes to Python's repr.
   */
  lemma StrRendering(v: JValue, repr: Repr)
    ensures v.JString? ==> Str(v, repr) == v.s
    ensures v.JNull? ==> Str(v, repr) == "None"
    ensures v.JBool? ==> Str(v, repr) == if v.b then "True" else "False"
    ensures v.JInt? ==>
      var r := Str(v, repr);
      && r != []
      && (r[0] == '-' <==> v.n < 0)
      && (forall i :: (if v.n < 0 then 1 else 0) <= i < |r| ==> IsDigit(r[i]))
      && IntValue(r) == v.n
    ensures v.JFloat? || v.JArray? || v.JObject? ==> Str(v, repr) == repr(v)
  {
    if v.JInt? && v.n < 0 {
      assert Str(v, repr)[1..] == Decimal(-v.n);
    }
  }
}
