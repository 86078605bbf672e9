/**
 * Results and errors shared by every module.  The library reports failures
 * by throwing .NET exceptions; each exception class it throws is one
 * constructor of `Error`, and a member that can throw returns a `Result`.
 */
module Wrappers {

  datatype Error =
    | IndexOutOfRange
    | ArgumentOutOfRange
    | Argument
    | InvalidOperation(reason: string)
    | NotSupported
    | NotImplemented
    | NullReference
    | Overflow
    | DivideByZero

  /** The messages that distinguish the font engine's two dependency errors. */
  const CyclicDependency := "Cyclic dependency"
  const DependencyMissing := "Dependency missing"

  datatype Result<T> = Ok(value: T) | Err(error: Error)
  {
    predicate IsFailure() { Err? }

    function PropagateFailure<U>(): Result<U>
      requires Err?
    {
      Err(error)
    }

    function Extract(): T
      requires Ok?
    {
      value
    }
  }

  datatype Option<T> = None | Some(value: T)

  /**
   * A loop that computes f(0), ..., f(n - 1) in order and stops at the
   * first error: the results, or that error.
   */
  function Gather<T>(f: nat --> Result<T>, n: nat): (res: Result<seq<T>>)
    requires forall j :: 0 <= j < n ==> f.requires(j)
    ensures res.Ok? ==> |res.value| == n
  {
    if n == 0 then Ok([])
    else
      var done :- Gather(f, n - 1);
      var x :- f(n - 1);
      Ok(done + [x])
  }

  /** One more turn of the loop: the results grow by f(i), or the loop fails with its error. */
  lemma {:induction false} GatherNext<T>(f: nat --> Result<T>, i: nat, done: seq<T>)
    requires forall j :: 0 <= j <= i ==> f.requires(j)
    requires Gather(f, i) == Ok(done)
    ensures f(i).Err? ==> Gather(f, i + 1) == Err(f(i).error)
    ensures f(i).Ok? ==> Gather(f, i + 1) == Ok(done + [f(i).value])
  {
  }

  /** Once a turn fails, the loop fails with its error. */
  lemma {:induction false} GatherStick<T>(f: nat --> Result<T>, i: nat, n: nat)
    requires i <= n && (forall j :: 0 <= j < n ==> f.requires(j)) && Gather(f, i).Err?
    ensures Gather(f, n) == Gather(f, i)
    decreases n
  {
    if i < n {
      GatherStick(f, i, n - 1);
    }
  }

  /** A turn of a loop of n turns that gives x: the results grow by it, or the whole loop fails with its error. */
  lemma {:induction false} GatherStep<T>(f: nat --> Result<T>, i: nat, n: nat, done: seq<T>, x: Result<T>)
    requires i < n && (forall j :: 0 <= j < n ==> f.requires(j)) && Gather(f, i) == Ok(done) && x == f(i)
    ensures x.Ok? ==> Gather(f, i + 1) == Ok(done + [x.value])
    ensures x.Err? ==> Gather(f, n) == Err(x.error)
  {
    GatherNext(f, i, done);
    if x.Err? {
      GatherStick(f, i + 1, n);
    }
  }

  /** Turns that each give the value given make a loop that gives them all. */
  lemma {:induction false} GatherAll<T>(f: nat --> Result<T>, xs: seq<T>, n: nat)
    requires n <= |xs| && forall j :: 0 <= j < n ==> f.requires(j) && f(j) == Ok(xs[j])
    ensures Gather(f, n) == Ok(xs[..n])
  {
    if n > 0 {
      GatherAll(f, xs, n - 1);
      assert xs[..n - 1] + [xs[n - 1]] == xs[..n];
    }
  }

  /** A loop that succeeds got each of its results from its own turn. */
  lemma {:induction false} GatherEach<T>(f: nat --> Result<T>, n: nat, xs: seq<T>)
    requires (forall j :: 0 <= j < n ==> f.requires(j)) && Gather(f, n) == Ok(xs)
    ensures |xs| == n && forall j :: 0 <= j < n ==> f(j) == Ok(xs[j])
  {
    if n > 0 {
      var done := Gather(f, n - 1).value;
      assert xs == done + [f(n - 1).value];
      GatherEach(f, n - 1, done);
      assert forall j :: 0 <= j < n - 1 ==> xs[j] == done[j];
    }
  }

  /** When every turn of f succeeds with the matching element of xs, gathering all of them gives xs. */
  lemma {:induction false} GatherWhole<T>(f: nat --> Result<T>, xs: seq<T>)
    requires forall j :: 0 <= j < |xs| ==> f.requires(j) && f(j) == Ok(xs[j])
    ensures Gather(f, |xs|) == Ok(xs)
  {
    GatherAll(f, xs, |xs|);
    assert xs[..|xs|] == xs;
  }
}
