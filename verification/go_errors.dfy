/**
 * Go error values as the storage layer builds them, and `errors.Is`.
 *
 * `errors.New` gives a sentinel that is compared by identity; the model tells
 * sentinels apart by their text, and the model declares no two with the same
 * text. `fmt.Errorf` with a trailing `%w` gives a wrapper whose `Unwrap`
 * returns the wrapped error; without `%w` it gives a leaf that only carries
 * text. Errors coming out of `database/sql` are leaves as far as this code is
 * concerned.
 */
module GoErrors {
  import opened Wrappers
  import Sql

  datatype Error =
    | Sentinel(text: string)             // errors.New(text)
    | Wrap(prefix: string, inner: Error) // fmt.Errorf(prefix + "%w", inner)
    | Msg(text: string)                  // fmt.Errorf without %w
    | Backend(cause: Sql.DbError)        // returned by database/sql or the driver

  /** The text `Error()` returns. */
  function Message(e: Error): string
  {
    match e
    case Sentinel(t) => t
    case Wrap(p, inner) => p + Message(inner)
    case Msg(t) => t
    case Backend(c) => Sql.Text(c)
  }

  /**
   * `errors.Is(e, target)`: `e` or some error reached from it by `Unwrap`
   * equals `target`.
   */
  predicate Is(e: Error, target: Error)
  {
    e == target || (e.Wrap? && Is(e.inner, target))
  }

  /** `errors.Is` on a result that may be `nil`; `errors.Is(nil, target)` is false. */
  predicate IsErr(err: Option<Error>, target: Error)
  {
    err.Some? && Is(err.value, target)
  }

  /** Wrapping is transparent to `errors.Is` for any target that is not itself a wrapper. */
  lemma WrapIs(prefix: string, inner: Error, target: Error)
    requires !target.Wrap?
    ensures Is(Wrap(prefix, inner), target) <==> Is(inner, target)
  {
  }

  /** The errors `Unwrap` visits from `e`, starting with `e` and ending at a non-wrapper. */
  function Chain(e: Error): (c: seq<Error>)
    ensures |c| >= 1 && c[0] == e
    ensures !c[|c| - 1].Wrap?
    ensures forall i :: 0 <= i < |c| - 1 ==> c[i].Wrap? && c[i].inner == c[i + 1]
  {
    match e
    case Wrap(_, inner) => [e] + Chain(inner)
    case _ => [e]
  }

  /** `Is` holds exactly for the errors on the unwrap chain. */
  lemma {:induction false} IsFollowsChain(e: Error, target: Error)
    ensures Is(e, target) <==> target in Chain(e)
  {
    match e
    case Wrap(_, inner) =>
      IsFollowsChain(inner, target);
      assert Chain(e) == [e] + Chain(inner);
    case _ =>
  }

  /** A chain whose root is a backend error never reaches a sentinel. */
  lemma {:induction false} BackendRootIsNoSentinel(e: Error, text: string)
    requires Chain(e)[|Chain(e)| - 1].Backend?
    ensures !Is(e, Sentinel(text))
  {
    match e
    case Wrap(_, inner) =>
      assert Chain(e) == [e] + Chain(inner);
      BackendRootIsNoSentinel(inner, text);
    case _ =>
  }
}
