/**
 * The exceptions the modelled code raises, as values. Three of the
 * resolver's own exception classes are defined in depresolve/__init__.py.
 * MissingDependencyInfoError is caught by callers and named in the
 * `are_fully_satisfied` docstring, but its definition is not part of this
 * model. The others are Python's built-in exceptions that the modelled code
 * lets escape.
 */
module Errors {

  datatype Error =
    | NoSatisfyingVersion     // depresolve.NoSatisfyingVersionError
    | ConflictingVersion      // depresolve.ConflictingVersionError
    | UnresolvableConflict    // depresolve.UnresolvableConflictError
    | MissingDependencyInfo   // depresolve.MissingDependencyInfoError
    | AssertionFailed         // AssertionError from an `assert` statement
    | KeyError                // a dictionary lookup of an absent key
    | IndexError              // a list index past the end
    | NameError               // a call of a name that is not defined
    | RecursionLimit          // Python's maximum recursion depth exceeded
    | BareException           // a plain `Exception` raised with a message

  /** The outcome of a call: its value, or the exception it raises. */
  datatype Result<+T> = Ok(value: T) | Err(error: Error)

  /** acc in front of a successful result; an error passes through. */
  function Prepend(acc: seq<string>, r: Result<seq<string>>): Result<seq<string>> {
    match r
    case Ok(rest) => Ok(acc + rest)
    case Err(e) => Err(e)
  }

  lemma PrependNothing(r: Result<seq<string>>)
    ensures Prepend([], r) == r
  {
    if r.Ok? {
      assert [] + r.value == r.value;
    }
  }

  lemma PrependTwice(a: seq<string>, b: seq<string>, r: Result<seq<string>>)
    ensures Prepend(a, Prepend(b, r)) == Prepend(a + b, r)
  {
    if r.Ok? {
      assert a + (b + r.value) == (a + b) + r.value;
    }
  }
}
