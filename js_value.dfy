/**
 * The JavaScript values that flow through option objects: scalars, arrays of
 * scalars, truthiness (what `||`, `||=`, `if (x)` and `filter(Boolean)` test)
 * and the string conversion `String(x)` / template interpolation apply.
 */
module JsValue {
  import opened JsText

  /** A scalar JavaScript value. Numbers are modelled as integers. */
  datatype Prim = Undefined | Null | Bool(b: bool) | Num(n: int) | Str(s: string) | Obj

  /** The value of an option field: a scalar or an array of scalars. */
  datatype Value = Atom(a: Prim) | Array(items: seq<Prim>)

  /** A plain options object: the fields it owns, by name. */
  type Options = map<string, Value>

  predicate IsNullish(p: Prim) {
    p == Undefined || p == Null
  }

  predicate TruthyPrim(p: Prim) {
    match p
    case Undefined => false
    case Null => false
    case Bool(b) => b
    case Num(n) => n != 0
    case Str(s) => s != ""
    case Obj => true
  }

  /** Every array and every object is truthy. */
  predicate Truthy(v: Value) {
    match v
    case Atom(p) => TruthyPrim(p)
    case Array(_) => true
  }

  /** `String(p)`. A string is its own rendering, and a truthy value never
      renders as the empty string. */
  function PrimToString(p: Prim): (r: string)
    ensures p.Str? ==> r == p.s
    ensures TruthyPrim(p) ==> r != ""
  {
    match p
    case Undefined => "undefined"
    case Null => "null"
    case Bool(b) => if b then "true" else "false"
    case Num(n) => IntToDecimal(n)
    case Str(s) => s
    case Obj => "[object Object]"
  }

  /** How `Array.prototype.join` renders one element: null and undefined become "". */
  function ElementToString(p: Prim): string {
    if IsNullish(p) then "" else PrimToString(p)
  }

  function ValueToString(v: Value): string {
    match v
    case Atom(p) => PrimToString(p)
    case Array(items) => JoinElements(items)
  }

  /** `Array.prototype.join(',')` over the elements of an array. */
  function JoinElements(items: seq<Prim>): string {
    if |items| == 0 then ""
    else if |items| == 1 then ElementToString(items[0])
    else ElementToString(items[0]) + "," + JoinElements(items[1..])
  }

  /** Reading a field the object does not own gives `undefined`. */
  function Get(o: Options, field: string): Value {
    if field in o then o[field] else Atom(Undefined)
  }
}
