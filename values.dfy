/** The values a parsed YAML configuration document can hold, and Ruby truthiness over them. */
module Values {

  datatype Value =
    | Nil
    | Bool(b: bool)
    | Int(i: int)
    | Str(s: string)
    | List(items: seq<Value>)
    | Map(entries: map<string, Value>)

  /** Ruby truthiness: only `nil` and `false` are falsy. */
  predicate Truthy(v: Value): (ok: bool)
    ensures v.Str? || v.Int? || v.List? || v.Map? ==> ok
    ensures !ok <==> v == Nil || v == Bool(false)
  {
    !(v.Nil? || v == Bool(false))
  }

  /** A value that a `v[k] if v` step can consume: a Hash, or a falsy value it skips. */
  predicate MapOrFalsy(v: Value) {
    v.Map? || !Truthy(v)
  }

  /** `Hash#[]`: an absent key reads as `nil`. */
  function At(m: map<string, Value>, k: string): (r: Value)
    ensures k in m ==> r == m[k]
    ensures k !in m ==> r == Nil
  {
    if k in m then m[k] else Nil
  }
}
