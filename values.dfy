/**
 * Values shared by the whole bus: message payloads, numeric arguments of the
 * builder methods, possibly-callable arguments, envelopes and the outcome of an
 * operation that may throw.
 */
module Values {

  datatype Option<T> = None | Some(value: T)

  /** The outcome of an operation that may throw: the thrown message is kept. */
  datatype Outcome = Ok | Threw(message: string)

  /**
   * A message payload. Strings are compared by value (`===`), every other value
   * by structural equality; `Obj(shape)` stands for a non-string value whose
   * structure is summarised by `shape`, so two `Obj` values are structurally
   * equal exactly when their shapes are. `Undefined` is the value of a variable
   * that was never assigned.
   */
  datatype Data = Undefined | Str(chars: string) | Obj(shape: nat)

  /** A numeric argument as the `_.isNaN` guard sees it. */
  datatype Numeric = NaN | Num(value: int)

  predicate IsNaN(x: Numeric) {
    x.NaN?
  }

  /** An argument that the source probes with `_.isFunction` (or simply calls). */
  datatype Arg<T> = Callable(fn: T) | NotCallable

  /** The execution context bound to a callback (`null` by default). */
  datatype Context = NoContext | Context(id: nat)

  /** What `ChannelDefinition.publish` hands to the bus; the time stamp is an input. */
  datatype Envelope = Envelope(exchange: string, topic: string, data: Data, timeStamp: nat)

  /** The message a host throws when a property of `undefined` is read or a non-function is called. */
  const TypeError: string := "TypeError"

  /** No element occurs twice. */
  predicate NoDup<T(==)>(s: seq<T>) {
    forall i, j :: 0 <= i < j < |s| ==> s[i] != s[j]
  }

  /** Non-decreasing order. */
  predicate Sorted(ps: seq<int>) {
    forall i, j :: 0 <= i < j < |ps| ==> ps[i] <= ps[j]
  }
}
