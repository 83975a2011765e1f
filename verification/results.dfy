/** Failure-compatible wrappers used throughout the model: an Option for
    partial conversions (such as Python's `int(s)`) and a Result for the
    run-ending exceptions of the hotness pipeline. */
module Results {

  datatype Option<+T> = None | Some(value: T)

  /** The two ways a hotness run ends without a result. */
  datatype Error =
      /** The first log line is non-blank, so `commit.append` runs on `None`. */
    | NoOpenRecord(line: string)
      /** A record line that is neither a summary annotation nor a
          `added<TAB>removed<TAB>path` line with integer counts. */
    | MalformedRecord(line: string)

  datatype Result<+T> = Ok(value: T) | Err(error: Error) {

    predicate IsFailure() {
      Err?
    }

    function PropagateFailure<U>(): Result<U>
      requires Err?
    {
      Err(error)
    }

    function Extract(): T
      requires Ok?
    {
      value
    }
  }

  /** `[f(x) for x in xs]` where `f` may raise: the first failure, in the
      order of `xs`, ends the whole comprehension. */
  function MapAll<A, B>(f: A -> Result<B>, xs: seq<A>): (r: Result<seq<B>>)
    ensures r.Ok? <==> forall i :: 0 <= i < |xs| ==> f(xs[i]).Ok?
    ensures r.Ok? ==> |r.value| == |xs| && forall i :: 0 <= i < |xs| ==> f(xs[i]) == Ok(r.value[i])
    ensures r.Err? ==> exists i :: 0 <= i < |xs| && f(xs[i]) == Err(r.error)
                                   && forall j :: 0 <= j < i ==> f(xs[j]).Ok?
    decreases |xs|
  {
    if |xs| == 0 then Ok([])
    else
      var front :- MapAll(f, xs[..|xs| - 1]);
      var last :- f(xs[|xs| - 1]);
      Ok(front + [last])
  }

  /** Two functions that agree on every element map the sequence alike. */
  lemma {:induction false} MapAllCongruent<A, B>(f: A -> Result<B>, g: A -> Result<B>, xs: seq<A>)
    requires forall i :: 0 <= i < |xs| ==> f(xs[i]) == g(xs[i])
    ensures MapAll(f, xs) == MapAll(g, xs)
    decreases |xs|
  {
    if |xs| > 0 {
      var n := |xs| - 1;
      assert forall i :: 0 <= i < n ==> xs[..n][i] == xs[i];
      MapAllCongruent(f, g, xs[..n]);
    }
  }
}
