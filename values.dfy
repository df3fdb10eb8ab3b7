/** Scalar values as they arrive in request payloads, JSON bodies and
    database rows, with the PHP and JavaScript operators the core applies
    to them. */
module Values {

  datatype Option<T> = None | Some(value: T)

  /** A payload or column value: `Null` stands for PHP `null`, a missing
      array key, and JavaScript `null`/`undefined`; every other value the
      core handles is a string. */
  datatype Val = Null | Str(s: string)

  /** PHP truthiness of a string or null: `null`, `''` and `'0'` are falsy.
      For these values `empty($x)` is exactly `!PhpTruthy(x)`. */
  predicate PhpTruthy(v: Val) {
    v.Str? && v.s != "" && v.s != "0"
  }

  /** JavaScript truthiness of a string, `null` or `undefined`: only the
      empty string and the two nullish values are falsy (`'0'` is truthy). */
  predicate JsTruthy(v: Val) {
    v.Str? && v.s != ""
  }

  /** `a ?? b`, in PHP and in JavaScript alike: `b` only when `a` is null or missing. */
  function Coalesce(a: Val, b: Val): Val {
    if a.Str? then a else b
  }

  /** PHP `a ?: b`: `b` whenever `a` is falsy. */
  function PhpElvis(a: Val, b: Val): Val {
    if PhpTruthy(a) then a else b
  }

  /** JavaScript `a || b`: `b` whenever `a` is falsy. */
  function JsOr(a: Val, b: Val): Val {
    if JsTruthy(a) then a else b
  }

  /** `$array['key']` (or `obj.key`): the stored value, `Null` when the key is absent. */
  function Get(m: map<string, Val>, key: string): Val {
    if key in m then m[key] else Null
  }

  /** The string a nullable text value stands for once `?? ''` is applied. */
  function OrEmpty(v: Val): string {
    if v.Str? then v.s else ""
  }
}
