/**
  JSON values as the background script sees them after `response.json()`, with the
  two pieces of JavaScript semantics the scripts depend on: truthiness and the
  conversion to text performed by assigning to `textContent`.
 */
module Json {
  import opened Base

  /** A parsed JSON value. Numbers are modelled as integers. */
  datatype Json =
    | Null
    | Bool(b: bool)
    | Num(n: int)
    | Str(s: string)
    | Arr(elems: seq<Json>)
    | Obj(fields: map<string, Json>)

  /** JavaScript truthiness of a JSON value: `null`, `false`, `0` and `""` are falsy. */
  predicate Truthy(j: Json) {
    match j
    case Null => false
    case Bool(b) => b
    case Num(n) => n != 0
    case Str(s) => s != []
    case Arr(_) => true
    case Obj(_) => true
  }

  /** Truthiness of a value that may be `undefined`. */
  predicate TruthyValue(v: Option<Json>) {
    v.Some? && Truthy(v.value)
  }

  /** The property read `j.key` on a value that is not `null`: only objects have
      own properties of the names the scripts read; a missing one is `undefined`. */
  function Property(j: Json, key: string): (v: Option<Json>)
    ensures v.Some? <==> j.Obj? && key in j.fields
    ensures v.Some? ==> v.value == j.fields[key]
  {
    match j
    case Obj(fields) => if key in fields then Some(fields[key]) else None
    case _ => None
  }

  /** The number a string of decimal digits denotes, most significant first. */
  ghost function DecimalValue(r: string): int {
    if r == [] then 0
    else 10 * DecimalValue(r[..|r| - 1]) + (r[|r| - 1] as int - '0' as int)
  }

  /** Decimal digits of a natural number, most significant first, without leading
      zeros. */
  function NatToDecimal(n: nat): (r: string)
    ensures |r| >= 1
    ensures forall i :: 0 <= i < |r| ==> '0' <= r[i] <= '9'
    ensures DecimalValue(r) == n
    ensures |r| > 1 ==> r[0] != '0'
  {
    var d := ['0' + (n % 10) as char];
    if n < 10 then d
    else
      var p := NatToDecimal(n / 10);
      assert (p + d)[..|p + d| - 1] == p;
      p + d
  }

  /** JavaScript `String(j)`: what `element.textContent = j` displays. */
  function ToText(j: Json): string
    decreases j, 1
  {
    match j
    case Null => "null"
    case Bool(b) => if b then "true" else "false"
    case Num(n) => if n < 0 then "-" + NatToDecimal(-n) else NatToDecimal(n)
    case Str(s) => s
    case Arr(elems) => JoinText(elems)
    case Obj(_) => "[object Object]"
  }

  /** `Array.prototype.join` with the default separator: `null` elements become
      empty strings, the rest are converted with `ToText`. */
  function JoinText(elems: seq<Json>): string
    decreases elems, 0
  {
    if elems == [] then ""
    else
      var head := if elems[0].Null? then "" else ToText(elems[0]);
      if |elems| == 1 then head else head + "," + JoinText(elems[1..])
  }

}
