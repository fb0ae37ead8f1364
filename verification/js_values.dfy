/**
 The JavaScript values a parsed backend response can hold, and the three
 language rules the document view leans on when it reads them: truthiness,
 the `||` operator, and property reads (plain `.` throws on `null` and
 `undefined`, optional `?.` yields `undefined` instead). String conversion
 follows `toString()` and template-literal interpolation.
 */
module JsValues {
  import Decimal
  import Options

  /** `Number.MAX_SAFE_INTEGER`: numbers in parsed JSON are modelled only as
      integers in the range where a double holds them exactly. */
  const MaxSafeInteger: int := 9007199254740991

  type SafeInt = n: int | -MaxSafeInteger <= n <= MaxSafeInteger

  /** A value produced by `response.json()`, plus `undefined` for a missing
      property. Objects are their own fields only. */
  datatype JsValue =
    | Undefined
    | Null
    | Bool(b: bool)
    | Num(n: SafeInt)
    | Str(s: string)
    | Arr(elems: seq<JsValue>)
    | Obj(fields: map<string, JsValue>)

  /** How an expression finishes: with a value, or by throwing (every throw
      in the view ends in the same `catch`, so its payload is not kept). */
  datatype Completion<+T> = Normal(value: T) | Throw

  predicate Nullish(v: JsValue) {
    v.Undefined? || v.Null?
  }

  /** JavaScript truthiness; `""`, `0`, `false`, `null` and `undefined` are falsy,
      every array and object is truthy (even an empty one). */
  predicate Truthy(v: JsValue) {
    match v
    case Undefined => false
    case Null => false
    case Bool(b) => b
    case Num(n) => n != 0
    case Str(s) => s != []
    case Arr(_) => true
    case Obj(_) => true
  }

  /** `a || b`: the left operand when it is truthy, otherwise the right one. */
  function Or(a: JsValue, b: JsValue): (r: JsValue)
    ensures Truthy(r) <==> Truthy(a) || Truthy(b)
    ensures Truthy(a) ==> r == a
    ensures !Truthy(a) ==> r == b
  {
    if Truthy(a) then a else b
  }

  /** `v?.key`: the own field when `v` is an object holding it, else `undefined`
      (a nullish base short-circuits; a primitive has no such property). */
  function OptionalGet(v: JsValue, key: string): (r: JsValue)
    ensures v.Obj? && key in v.fields ==> r == v.fields[key]
    ensures r != Undefined ==> v.Obj? && key in v.fields
  {
    if v.Obj? && key in v.fields then v.fields[key] else Undefined
  }

  /** `v.key`: like `v?.key`, except that a nullish base throws a TypeError. */
  function Get(v: JsValue, key: string): (r: Completion<JsValue>)
    ensures r.Throw? <==> Nullish(v)
    ensures r.Normal? ==> r.value == OptionalGet(v, key)
  {
    if Nullish(v) then Throw else Normal(OptionalGet(v, key))
  }

  /** `String(v)`, which is also what a template literal `${v}` inserts. A
      string is itself, a number its decimal text (which reads back to the
      number), an object `[object Object]`; an array joins its elements'
      texts with commas (`ArrayTextJoins`). */
  function ToStr(v: JsValue): (s: string)
    ensures v.Str? ==> s == v.s
    ensures v.Num? ==> Decimal.ParseInt(s) == Options.Some(v.n as int)
    ensures v.Bool? ==> (s == "true" <==> v.b) && (s == "false" <==> !v.b)
    ensures v.Null? ==> s == "null"
    ensures v.Undefined? ==> s == "undefined"
    ensures v.Obj? ==> s == "[object Object]"
    decreases v, 1, 0
  {
    match v
    case Undefined => "undefined"
    case Null => "null"
    case Bool(b) => if b then "true" else "false"
    case Num(n) =>
      Decimal.IntToDecimalRoundTrip(n);
      Decimal.IntToDecimal(n)
    case Str(s) => s
    case Arr(es) => JoinPrefix(v, |es|)
    case Obj(_) => "[object Object]"
  }

  /** The text an array element contributes to its array's text: nothing for
      `null` and `undefined`, its own text otherwise. */
  function ElementText(e: JsValue): string
    decreases e, 1, 1
  {
    if Nullish(e) then "" else ToStr(e)
  }

  /** `Array.prototype.join(",")` over the first `k` elements of array `v`. */
  function JoinPrefix(v: JsValue, k: nat): string
    requires v.Arr? && k <= |v.elems|
    decreases v, 0, k
  {
    if k == 0 then ""
    else if k == 1 then ElementText(v.elems[0])
    else JoinPrefix(v, k - 1) + "," + ElementText(v.elems[k - 1])
  }

  /** Joining a prefix does not look past it: an array extended at the end
      joins its first `k` elements as before. */
  lemma {:induction false} JoinPrefixOfExtension(es: seq<JsValue>, e: JsValue, k: nat)
    requires k <= |es|
    ensures JoinPrefix(Arr(es + [e]), k) == JoinPrefix(Arr(es), k)
  {
    if k > 0 {
      assert (es + [e])[k - 1] == es[k - 1];
      assert (es + [e])[0] == es[0];
      JoinPrefixOfExtension(es, e, k - 1);
    }
  }

  /** The text of an array: empty for `[]`, the element's text for one
      element, and one more comma and element text for each element added at
      the end. Together these fix the text of every array. */
  lemma ArrayTextJoins(es: seq<JsValue>, e: JsValue)
    ensures ToStr(Arr([])) == ""
    ensures ToStr(Arr([e])) == ElementText(e)
    ensures es != [] ==> ToStr(Arr(es + [e])) == ToStr(Arr(es)) + "," + ElementText(e)
  {
    JoinPrefixOfExtension(es, e, |es|);
  }

  /** `v.toString()`: throws on a nullish receiver, otherwise `String(v)`. */
  function ToStringCall(v: JsValue): (r: Completion<string>)
    ensures r.Throw? <==> Nullish(v)
    ensures r.Normal? ==> r.value == ToStr(v)
  {
    if Nullish(v) then Throw else Normal(ToStr(v))
  }

  /** The text of a number is its decimal form, and reading that text back
      gives the number: stringifying loses nothing. */
  lemma NumberTextRoundTrip(n: SafeInt)
    ensures ToStringCall(Num(n)) == Normal(Decimal.IntToDecimal(n))
    ensures Decimal.ParseInt(ToStr(Num(n))) == Options.Some(n as int)
  {
  }
}
