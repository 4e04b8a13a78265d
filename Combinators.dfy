/** `futures::future::try_join_all` and `Iterator::all`, without the
    concurrency: results are read back in input order. */
module Combinators {
  import opened Wrappers

  /** All results in input order when every task succeeds; otherwise the
      error of the first failing task. */
  function TryJoinAll<A, B, E>(xs: seq<A>, f: A --> Result<B, E>): (r: Result<seq<B>, E>)
    requires forall i :: 0 <= i < |xs| ==> f.requires(xs[i])
    ensures r.Success? <==> forall i :: 0 <= i < |xs| ==> f(xs[i]).Success?
    ensures r.Success? ==>
      |r.value| == |xs| && forall i :: 0 <= i < |xs| ==> r.value[i] == f(xs[i]).value
    ensures r.Failure? ==>
      exists i :: 0 <= i < |xs| && f(xs[i]) == Failure(r.error) &&
        forall j :: 0 <= j < i ==> f(xs[j]).Success?
    decreases |xs|
  {
    if xs == [] then
      Success([])
    else
      match f(xs[0])
      case Failure(e) => Failure(e)
      case Success(y) =>
        match TryJoinAll(xs[1..], f)
        case Failure(e) =>
          assert forall i :: 1 <= i < |xs| ==> xs[1..][i - 1] == xs[i];
          Failure(e)
        case Success(ys) => Success([y] + ys)
  }

  /** The joined result depends only on what each task yields. */
  lemma {:induction false} TryJoinAllCongruent<A, B, E>(xs: seq<A>, f: A --> Result<B, E>, g: A --> Result<B, E>)
    requires forall i :: 0 <= i < |xs| ==> f.requires(xs[i]) && g.requires(xs[i])
    requires forall i :: 0 <= i < |xs| ==> f(xs[i]) == g(xs[i])
    ensures TryJoinAll(xs, f) == TryJoinAll(xs, g)
    decreases |xs|
  {
    if xs != [] {
      TryJoinAllCongruent(xs[1..], f, g);
    }
  }

  /** `results.iter().all(|r| r.is_ok())`. */
  function AllOk<T, E>(rs: seq<Result<T, E>>): (b: bool)
    ensures b <==> forall i :: 0 <= i < |rs| ==> rs[i].Success?
    decreases |rs|
  {
    if rs == [] then true else rs[0].Success? && AllOk(rs[1..])
  }
}
