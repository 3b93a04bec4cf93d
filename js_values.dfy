/** JavaScript values as they travel between the relational store, the
    repositories and the aggregation service. A row, a request body and a
    response object are all plain objects, modelled as maps from property
    names to values. */
module JsValues {

  /** A JSON-like JavaScript value. Numbers are the integers the store hands
      out (ids, 0/1 flags); floating point is not modelled. */
  datatype Value =
    | Undefined
    | Null
    | Bool(b: bool)
    | Num(n: int)
    | Str(s: string)
    | Arr(elems: seq<Value>)
    | Obj(fields: map<string, Value>)

  /** A plain object: its own enumerable properties and their values. */
  type Record = map<string, Value>

  /** Property access `o.key`: a missing property reads as `undefined`. */
  function Get(o: Record, key: string): (v: Value)
    ensures key in o ==> v == o[key]
    ensures key !in o ==> v.Undefined?
  {
    if key in o then o[key] else Undefined
  }

  /** Values compared by value under `===`: everything except objects and arrays. */
  predicate IsPrimitive(v: Value)
  {
    !v.Arr? && !v.Obj?
  }

  /** Strict equality `a === b`: the same type and the same value, with no
      coercion between types (`1 === true` and `1 === "1"` are false).
      Objects and arrays compare by reference; every object the store returns
      is freshly allocated, so two of them are never the same reference. */
  predicate StrictEquals(a: Value, b: Value)
    ensures a.Obj? || a.Arr? ==> !StrictEquals(a, b)
    ensures a.Num? && b.Num? ==> (StrictEquals(a, b) <==> a.n == b.n)
    ensures a.Str? && b.Str? ==> (StrictEquals(a, b) <==> a.s == b.s)
    ensures a.Bool? && b.Bool? ==> (StrictEquals(a, b) <==> a.b == b.b)
    ensures a.Undefined? || a.Null? ==> (StrictEquals(a, b) <==> a == b)
    ensures a.Num? && !b.Num? ==> !StrictEquals(a, b)
  {
    IsPrimitive(a) && a == b
  }

  /** `===` is symmetric and transitive, so it partitions the primitive values. */
  lemma StrictEqualsSymmetricTransitive(a: Value, b: Value, c: Value)
    ensures StrictEquals(a, b) ==> StrictEquals(b, a)
    ensures StrictEquals(a, b) && StrictEquals(b, c) ==> StrictEquals(a, c)
  {
  }

  /** Comparing with the number 1 succeeds for the number 1 alone: not for
      `true`, not for the string "1", not for 0, 2 or null. */
  lemma StrictlyOne(v: Value)
    ensures StrictEquals(v, Num(1)) <==> v == Num(1)
    ensures !StrictEquals(Bool(true), Num(1)) && !StrictEquals(Str("1"), Num(1))
    ensures !StrictEquals(Num(0), Num(1)) && !StrictEquals(Num(2), Num(1))
    ensures !StrictEquals(Null, Num(1)) && !StrictEquals(Undefined, Num(1))
  {
  }
}
