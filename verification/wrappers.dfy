/** Failure-compatible result types shared by every module of the model.

    The Python code reports failures by raising exceptions; the model returns
    `Failure(e)` with `e` naming the exception class the code would raise. */
module Wrappers {

  datatype Option<+T> = None | Some(value: T) {
    predicate IsFailure() { None? }

    function PropagateFailure<U>(): Option<U>
      requires None?
    {
      None
    }

    function Extract(): T
      requires Some?
    {
      value
    }
  }

  /** The exception classes raised by the modelled code. */
  datatype Exn =
    | ValueError          // bad value: out-of-range code, bad rate, int() of a non-number, empty max()
    | TypeError           // None used as a string, wrong number of unpacked arguments
    | KeyError            // missing dictionary key
    | IndexError          // sequence index out of range
    | AssertionError      // a failed `assert`
    | AttributeError      // missing attribute on a class
    | UnboundLocalError   // a local variable read before any assignment
    | InputError          // the extend tools' own input exception
    | ParseError          // json.loads rejected the text
    | PairError           // the stroke classifier's pen-pair exception

  datatype Result<+R> = Success(value: R) | Failure(error: Exn) {
    predicate IsFailure() { Failure? }

    function PropagateFailure<U>(): Result<U>
      requires Failure?
    {
      Failure(error)
    }

    function Extract(): R
      requires Success?
    {
      value
    }
  }

  /** `out = []; for r in rs: out += r` where each `r` may raise: the
      lists one after another, or the first error. */
  function Flatten<X>(rs: seq<Result<seq<X>>>): Result<seq<X>>
    decreases |rs|
  {
    if |rs| == 0 then Success([])
    else
      var head :- rs[0];
      var rest :- Flatten(rs[1..]);
      Success(head + rest)
  }

  /** Flattening succeeds exactly when every part does. */
  lemma {:induction false} FlattenSuccess<X>(rs: seq<Result<seq<X>>>)
    ensures Flatten(rs).Success? <==> forall i :: 0 <= i < |rs| ==> rs[i].Success?
    decreases |rs|
  {
    if |rs| > 0 {
      FlattenSuccess(rs[1..]);
      assert forall i :: 0 < i < |rs| ==> rs[i] == rs[1..][i - 1];
    }
  }

  /** A failed flattening fails with the error of one of the parts. */
  lemma {:induction false} FlattenError<X>(rs: seq<Result<seq<X>>>)
    requires Flatten(rs).Failure?
    ensures exists i :: 0 <= i < |rs| && rs[i] == Failure(Flatten(rs).error)
    decreases |rs|
  {
    if rs[0].Success? {
      FlattenError(rs[1..]);
      var i :| 0 <= i < |rs| - 1 && rs[1..][i] == Failure(Flatten(rs).error);
      assert rs[i + 1] == rs[1..][i];
    }
  }

  /** `x` is in the list of some successful part. */
  predicate InSomePart<X(==)>(rs: seq<Result<seq<X>>>, x: X) {
    exists i :: 0 <= i < |rs| && rs[i].Success? && x in rs[i].value
  }

  /** The flattened list holds exactly the elements of the parts. */
  lemma {:induction false} FlattenMembers<X>(rs: seq<Result<seq<X>>>)
    requires Flatten(rs).Success?
    ensures forall x :: x in Flatten(rs).value <==> InSomePart(rs, x)
    decreases |rs|
  {
    if |rs| > 0 {
      var rest := rs[1..];
      FlattenMembers(rest);
      assert Flatten(rs).value == rs[0].value + Flatten(rest).value;
      forall x ensures InSomePart(rs, x) <==> x in rs[0].value || InSomePart(rest, x) {
        if InSomePart(rest, x) {
          var i :| 0 <= i < |rest| && rest[i].Success? && x in rest[i].value;
          assert rs[i + 1] == rest[i];
        }
        if InSomePart(rs, x) {
          var i :| 0 <= i < |rs| && rs[i].Success? && x in rs[i].value;
          if i > 0 {
            assert rest[i - 1] == rs[i];
          }
        }
      }
    }
  }
}
