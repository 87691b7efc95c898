/** The JavaScript values the handlers test with `if (!x)`, and their truthiness. */
module Js {
  import opened Wrappers

  /** `Object` stands for any object: a stored document, an array's wrapper,
      a pending `Promise`. Number values are not part of this model. */
  datatype Value = Undefined | Null | Str(s: string) | Array(length: nat) | Object

  /** JavaScript truthiness: `undefined`, `null` and `""` are falsy; every
      object, including an empty array and a Promise, is truthy. */
  predicate Truthy(v: Value) {
    match v
    case Undefined => false
    case Null => false
    case Str(s) => s != ""
    case Array(_) => true
    case Object => true
  }

  /** A request body field: absent is `undefined`, present is a string. */
  function OfField(f: Option<string>): (v: Value)
    ensures Truthy(v) <==> f.Some? && f.value != ""
  {
    match f
    case None => Undefined
    case Some(s) => Str(s)
  }

  /** The value an awaited lookup resolves to: the document, or `null`. */
  function OfResult<T>(r: Option<T>): (v: Value)
    ensures Truthy(v) <==> r.Some?
  {
    match r
    case None => Null
    case Some(_) => Object
  }
}
