/**
 * Field values and records as the pages hold them: a draft is a flat object
 * from field names to values. Form inputs produce text, checkboxes produce
 * booleans, rows read back from the database carry numbers and nulls.
 */
module JsValue {
  import opened JsText

  /**
   * One field value. `Num` keeps the number literal `parseFloat` read (the
   * floating-point value itself is not modelled). JavaScript's `undefined`
   * and `null` are both `Null`.
   */
  datatype Value = Str(s: string) | Int(i: int) | Num(lexeme: string) | Bool(b: bool) | Null

  /** A draft, a pending row or an approved row. */
  type Record = map<string, Value>

  const Blank: Value := Str("")

  /** Reading a field; a missing field reads as `undefined`, here `Null`. */
  function Get(r: Record, k: string): Value {
    if k in r then r[k] else Null
  }

  /** JavaScript truthiness: `''`, `0`, `-0`, `false` and `null` are falsy. */
  predicate Truthy(v: Value) {
    match v
    case Str(s) => s != ""
    case Int(i) => i != 0
    case Num(l) => exists k | 0 <= k < |l| :: IsDigit(l[k]) && l[k] != '0'
    case Bool(b) => b
    case Null => false
  }

  /** JavaScript's `String(v)`; a number renders as the literal it was read from. */
  function ToStr(v: Value): string {
    match v
    case Str(s) => s
    case Int(i) => IntToString(i)
    case Num(l) => l
    case Bool(b) => if b then "true" else "false"
    case Null => "null"
  }

  /** `v || ''`. */
  function OrBlank(v: Value): (r: Value)
    ensures Truthy(v) ==> r == v
    ensures !Truthy(v) ==> r == Blank
  {
    if Truthy(v) then v else Blank
  }

  /** `{ ...r, k1: '', k2: '', ... }`: the named fields set to the empty string. */
  function Clear(r: Record, keys: set<string>): (r': Record)
    ensures r'.Keys == r.Keys + keys
    ensures forall k :: k in keys ==> r'[k] == Blank
    ensures forall k :: k in r && k !in keys ==> r'[k] == r[k]
  {
    r + map k | k in keys :: Blank
  }

  /** `a` and `b` hold the same fields with the same values outside `keys`. */
  ghost predicate SameOutside(a: Record, b: Record, keys: set<string>) {
    && a.Keys - keys == b.Keys - keys
    && forall k :: k in a && k in b && k !in keys ==> a[k] == b[k]
  }
}
