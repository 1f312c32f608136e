/** The JavaScript values the rendered array works with: completions of a call
    (a normal return or a throw), sparse-array slots and possibly-undefined
    arguments. */
module JsValues {

  /** What the modelled code can throw or let through. */
  datatype Exc =
    | TypeError          // `new undefined()`, calling a non-function, strict-mode delete of `length`
    | RangeError         // assigning an invalid array length
    | UserError(tag: nat) // whatever caller-supplied code (key function, comparator) throws

  /** Completion of a call: it returns a value or it throws. */
  datatype Outcome<+R> = Returned(value: R) | Threw(exc: Exc)

  datatype Option<+X> = None | Some(value: X)

  /** One position of a possibly sparse array. Reading a hole yields `undefined`,
      so `Hole` also stands for an `undefined` return value. */
  datatype Slot<+X> = Hole | Val(x: X)

  /** An argument that may be `undefined`. */
  datatype Arg<+X> = Undefined | Obj(x: X)

  /** The dense slots holding `xs` in order. */
  function Vals<X>(xs: seq<X>): (r: seq<Slot<X>>)
    ensures |r| == |xs|
    ensures forall i :: 0 <= i < |xs| ==> r[i] == Val(xs[i])
  {
    seq(|xs|, i requires 0 <= i < |xs| => Val(xs[i]))
  }

  /** `n` consecutive holes. */
  function Holes<X>(n: nat): (r: seq<Slot<X>>)
    ensures |r| == n
    ensures forall i :: 0 <= i < n ==> r[i] == Hole
  {
    seq(n, i => Hole)
  }
}
