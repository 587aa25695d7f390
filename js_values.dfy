/** JavaScript values and plain objects, as far as the background script uses them. */
module JsValues {

  datatype Option<+T> = None | Some(value: T)

  /** A primitive JavaScript value. Numbers are modelled as integers: the
      script only stores download ids, byte counts and similar whole numbers. */
  datatype Value = Undefined | Null | Bool(b: bool) | Num(n: int) | Str(s: string)

  /** A plain object (a download item): its own enumerable properties. */
  type Item = map<string, Value>

  /** Property access `o.f`: a missing property reads as `undefined`. */
  function Field(o: Item, f: string): (v: Value)
    ensures f !in o ==> v == Undefined
    ensures f in o ==> v == o[f]
  {
    if f in o then o[f] else Undefined
  }

  /** The object literal `{ ...base, ...over }`: every property of `over`
      overwrites the one of `base`; the others of `base` stay. */
  function Spread(base: Item, over: Item): (r: Item)
    ensures r.Keys == base.Keys + over.Keys
    ensures forall f :: f in over ==> r[f] == over[f]
    ensures forall f :: f in base && f !in over ==> r[f] == base[f]
  {
    base + over
  }
}
