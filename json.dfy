/** JSON values as the payload code sees them after parsing: objects keep the
    order in which their keys were inserted. Numbers are integers only. */
module Json {
  import opened Assoc

  datatype Json =
    | JNull
    | JBool(b: bool)
    | JNum(n: int)
    | JStr(s: string)
    | JArr(items: seq<Json>)
    | JObj(fields: seq<(string, Json)>)

  type Fields = seq<(string, Json)>

  /** Every object, at every depth, has distinct keys (as every JavaScript object does). */
  ghost predicate WellFormed(j: Json) {
    match j
    case JArr(items) => forall i :: 0 <= i < |items| ==> WellFormed(items[i])
    case JObj(fields) => Distinct(fields) && forall i :: 0 <= i < |fields| ==> WellFormed(fields[i].1)
    case _ => true
  }

  /** No `null` occurs anywhere in the value. */
  ghost predicate NoNulls(j: Json) {
    match j
    case JNull => false
    case JArr(items) => forall i :: 0 <= i < |items| ==> NoNulls(items[i])
    case JObj(fields) => forall i :: 0 <= i < |fields| ==> NoNulls(fields[i].1)
    case _ => true
  }

  /** JavaScript truthiness (`!!v`): `null`, `false`, `0` and `""` are falsy;
      every array and every object is truthy. */
  predicate Truthy(j: Json) {
    match j
    case JNull => false
    case JBool(b) => b
    case JNum(n) => n != 0
    case JStr(s) => s != ""
    case _ => true
  }

  /** The whitespace `Number(s)` trims, as far as this model goes: the ASCII
      blanks (space, tab, line feed, vertical tab, form feed, carriage return). */
  predicate Blank(c: char) {
    c == ' ' || c == '\t' || c == '\n' || c == '\U{B}' || c == '\U{C}' || c == '\r'
  }

  function TrimBlanks(s: string): (t: string)
    ensures |t| <= |s|
    decreases |s|
  {
    if s != [] && Blank(s[0]) then TrimBlanks(s[1..])
    else if s != [] && Blank(s[|s| - 1]) then TrimBlanks(s[..|s| - 1])
    else s
  }

  /** `u` is a decimal numeral with an optional fraction (`12`, `0.5`,
      `.5`, `5.`) whose value is above zero: digits and at most one point,
      and some digit other than 0. */
  predicate PositiveDecimal(u: string) {
    (forall i :: 0 <= i < |u| ==> ('0' <= u[i] <= '9') || u[i] == '.') &&
    (forall i, k :: 0 <= i < k < |u| && u[i] == '.' ==> u[k] != '.') &&
    exists i :: 0 <= i < |u| && '1' <= u[i] <= '9'
  }

  /** `Number(s) > 0` for the decimal spellings of a number, with an optional
      `+` sign; a `-` sign, the empty string and text that is no number give
      0, a negative number or NaN, none of them above zero. */
  predicate StringAboveZero(s: string) {
    var t := TrimBlanks(s);
    var u := if t != [] && t[0] == '+' then t[1..] else t;
    PositiveDecimal(u)
  }

  /** `v > 0` in JavaScript, which converts `v` with ToNumber: a boolean is
      0 or 1, and any other value goes through its string form
      (`String(v)`), so `null` ("null") and an object ("[object Object]") are
      NaN and an array compares as its joined elements. */
  predicate AboveZero(v: Json) {
    match v
    case JNum(n) => n > 0
    case JBool(b) => b
    case _ => StringAboveZero(PropertyKey(v))
  }

  /** The decimal digits of `n`, most significant first. */
  function NatToString(n: nat): (s: string)
    ensures |s| > 0 && forall i :: 0 <= i < |s| ==> '0' <= s[i] <= '9'
    decreases n
  {
    var d := ['0' + (n % 10) as char];
    if n < 10 then d else NatToString(n / 10) + d
  }

  /** `String(n)` for an integer. */
  function IntToString(n: int): string {
    if n < 0 then "-" + NatToString(-n) else NatToString(n)
  }

  function Join(parts: seq<string>, sep: string): string {
    if parts == [] then ""
    else if |parts| == 1 then parts[0]
    else parts[0] + sep + Join(parts[1..], sep)
  }

  /** `String(v)`, the property key JavaScript computes for `obj[v]`: arrays join
      their elements with commas (a `null` element contributes nothing), a
      plain object becomes "[object Object]". */
  function PropertyKey(v: Json): string {
    match v
    case JNull => "null"
    case JBool(b) => if b then "true" else "false"
    case JNum(n) => IntToString(n)
    case JStr(s) => s
    case JArr(items) => Join(ElementKeys(items), ",")
    case JObj(_) => "[object Object]"
  }

  function ElementKeys(items: seq<Json>): seq<string> {
    if items == [] then []
    else [if items[0].JNull? then "" else PropertyKey(items[0])] + ElementKeys(items[1..])
  }

  /** A JSON array of strings. */
  function Strings(ss: seq<string>): (j: Json)
    ensures j.JArr? && |j.items| == |ss|
    ensures forall i :: 0 <= i < |ss| ==> j.items[i] == JStr(ss[i])
  {
    JArr(seq(|ss|, i requires 0 <= i < |ss| => JStr(ss[i])))
  }

  /** True of the values `Strings` builds. */
  predicate IsStringList(j: Json) {
    j.JArr? && forall i :: 0 <= i < |j.items| ==> j.items[i].JStr?
  }

  lemma StringListFacts(j: Json)
    requires IsStringList(j)
    ensures WellFormed(j) && NoNulls(j)
  {
  }
}
