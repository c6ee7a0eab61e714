/**
 * The JavaScript values that `breqd.js` inspects with `typeof`, property reads
 * and destructuring, and the `TypeError`s it throws when they have the wrong shape.
 */
module JsValues {

  /** A JavaScript value. `Other` stands for a function, a symbol or a bigint:
      a value whose `typeof` is none of "undefined", "object", "boolean",
      "number" and "string". Objects are their own string-keyed properties. */
  datatype JsValue =
    | Undefined
    | Null
    | Bool(b: bool)
    | Num(n: real)
    | Str(s: string)
    | Arr(elems: seq<JsValue>)
    | Obj(props: map<string, JsValue>)
    | Other

  /** `typeof v === 'object'`: true of null, of arrays and of plain objects. */
  predicate IsObject(v: JsValue)
  {
    v.Null? || v.Arr? || v.Obj?
  }

  /** Reading property `key` of a value that is neither null nor undefined
      (reading a property of those two throws instead). Only plain objects
      carry the properties this program reads; on anything else they are
      `undefined`. */
  function Property(v: JsValue, key: string): (r: JsValue)
    requires !v.Undefined? && !v.Null?
    ensures !v.Obj? ==> r == Undefined
    ensures v.Obj? ==> (r == if key in v.props then v.props[key] else Undefined)
  {
    if v.Obj? && key in v.props then v.props[key] else Undefined
  }

  /** The `TypeError`s thrown by the ranking and the trace conversion. */
  datatype TypeError =
      /** a value of the duration map is not a number (breqd.js:79-81) */
    | ValueNotNumber(value: JsValue)
      /** the input of the conversion is not an array (breqd.js:99-101) */
    | NotAnArray
      /** element 0 is null or undefined, so reading its duration throws (breqd.js:107) */
    | CannotReadDuration
      /** element 0's duration is not a number (breqd.js:107-109) */
    | FirstDurationNotNumber
      /** element `index` is not an object (breqd.js:117-119) */
    | NotAnObject(index: nat)
      /** element `index` is null, so destructuring it throws (breqd.js:121) */
    | CannotDestructure(index: nat)
      /** element `index` has no string `moduleName` (breqd.js:122-124) */
    | NameNotString(index: nat)
      /** element `index` has no numeric `duration` (breqd.js:126-128) */
    | DurationNotNumber(index: nat)
}
