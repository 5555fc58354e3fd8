/**
 * The few Python runtime notions the forum pipeline relies on:
 * `None` as an option, and the exceptions its code can raise,
 * carried as the failure half of a `Result`.
 */
module PyBase {

  /** Python's `None` versus a present value. */
  datatype Option<+T> = None | Some(value: T) {
    function GetOr(default: T): T {
      match this
      case Some(v) => v
      case None => default
    }
  }

  /** The exception classes raised by the modelled code. */
  datatype PyError =
    | ValueError      // bad literal for int(), bad unpacking, invalid datetime fields
    | KeyError        // missing dictionary key or HTML attribute
    | TypeError       // an operation applied to None
    | AttributeError  // attribute read on None
    | IndexError      // indexing an empty selector list

  /** The outcome of a call that either returns or raises. */
  datatype Result<+T> = Ok(value: T) | Err(error: PyError) {
    predicate IsFailure() {
      Err?
    }

    function PropagateFailure<U>(): Result<U>
      requires Err?
    {
      Err(error)
    }

    function Extract(): T
      requires Ok?
    {
      value
    }
  }

  /**
   * A generator's `for` loop over `items`: each item is processed under the
   * state the previous one left and yields one value; the first exception
   * ends the generator, after the values already yielded.
   */
  function Generate<S, T, R>(step: (S, T) -> Result<(S, R)>, s: S, items: seq<T>): (seq<R>, Option<PyError>)
    decreases |items|
  {
    if items == [] then ([], None)
    else match step(s, items[0])
      case Err(e) => ([], Some(e))
      case Ok(next) =>
        var rest := Generate(step, next.0, items[1..]);
        ([next.1] + rest.0, rest.1)
  }

  /**
   * When no step changes the state, the generator yields what each item
   * gives on its own, in order, up to the first item that raises.
   */
  lemma {:induction false} GenerateSteady<S, T, R>(step: (S, T) -> Result<(S, R)>, s: S, items: seq<T>)
    requires forall t :: step(s, t).Ok? ==> step(s, t).value.0 == s
    ensures |Generate(step, s, items).0| <= |items|
    ensures forall i :: 0 <= i < |Generate(step, s, items).0| ==> step(s, items[i]) == Ok((s, Generate(step, s, items).0[i]))
    ensures Generate(step, s, items).1.None? <==> |Generate(step, s, items).0| == |items|
    ensures Generate(step, s, items).1.Some? ==>
      step(s, items[|Generate(step, s, items).0|]) == Err(Generate(step, s, items).1.value)
    decreases |items|
  {
    if items != [] && step(s, items[0]).Ok? {
      GenerateSteady(step, s, items[1..]);
      forall i | 1 <= i < |items| ensures items[i] == items[1..][i - 1] {}
    }
  }

  /** Concatenation is associative; stated once so that proofs need not rediscover it. */
  lemma ConcatAssoc<T>(a: seq<T>, b: seq<T>, c: seq<T>)
    ensures a + (b + c) == (a + b) + c
  {
  }
}
