/**
  The adapter's write path: `Write` stores a batch of samples one at a time,
  each with its own `putSample` (one attribute marshalling and, if that
  succeeds, one DynamoDB PutItem call).  No sample is skipped after a failure,
  and the error `Write` reports is the one of the last sample that failed.

  Marshalling and PutItem are outside the adapter: a `Backend` supplies their
  outcomes.
 */
module Client {
  import opened Options
  import opened GoTime
  import opened Records

  /** An error returned by the attribute marshaller or by PutItem. */
  datatype Error = Error(message: string)

  /** The adapter's collaborators.  `marshal` is `dynamodbattribute.MarshalMap` applied to a
      record; `putItem(i, r)` is DynamoDB's answer to the PutItem issued for the `i`-th
      sample of the batch, so one record may succeed at one position and fail at another. */
  datatype Backend = Backend(marshal: Record -> Option<Error>, putItem: (nat, Record) -> Option<Error>)

  /** What `putSample` did with one sample: the record it built, whether that record was
      sent with PutItem, and the error it returned (None for Go's nil). */
  datatype Attempt = Attempt(record: Record, sent: bool, result: Option<Error>)

  /** `putSample` for the `i`-th sample: build the record, marshal it, put it.  A marshalling
      error is returned without calling PutItem; otherwise PutItem's error is returned.
      This contract is what `Write`'s contract is stated in: each of its attempts is one of these. */
  function PutSample(backend: Backend, zone: Zone, i: nat, s: Sample): (a: Attempt)
    ensures a.record == ToRecord(s, zone)
    ensures a.sent <==> backend.marshal(a.record).None?
    ensures a.result.None? <==> a.sent && backend.putItem(i, a.record).None?
    ensures !a.sent ==> a.result == backend.marshal(a.record)
    ensures a.sent ==> a.result == backend.putItem(i, a.record)
  {
    var r := ToRecord(s, zone);
    var m := backend.marshal(r);
    if m.Some? then Attempt(r, false, m) else Attempt(r, true, backend.putItem(i, r))
  }

  /** The errors of a sequence of attempts, in order.  The ensures only expose the
      comprehension's length and elements to callers' quantifiers. */
  function Results(attempts: seq<Attempt>): (rs: seq<Option<Error>>)
    ensures |rs| == |attempts|
    ensures forall i :: 0 <= i < |attempts| ==> rs[i] == attempts[i].result
  {
    seq(|attempts|, i requires 0 <= i < |attempts| => attempts[i].result)
  }

  /** The error of the last failure in `results`, or None when nothing failed. */
  function LastFailure(results: seq<Option<Error>>): Option<Error> {
    if results == [] then None
    else if results[|results| - 1].Some? then results[|results| - 1]
    else LastFailure(results[..|results| - 1])
  }

  /** `LastFailure` is None exactly when every result is None. */
  lemma {:induction false} LastFailureNoneIffAllSucceed(results: seq<Option<Error>>)
    ensures LastFailure(results).None? <==> forall i :: 0 <= i < |results| ==> results[i].None?
  {
    if results != [] && results[|results| - 1].None? {
      var front := results[..|results| - 1];
      LastFailureNoneIffAllSucceed(front);
      assert forall i :: 0 <= i < |front| ==> front[i] == results[i];
    }
  }

  /** When something failed, `LastFailure` is the error at some position after which every
      result is None: later failures always win over earlier ones. */
  lemma {:induction false} LastFailureIsLast(results: seq<Option<Error>>)
    requires LastFailure(results).Some?
    ensures exists i :: 0 <= i < |results| && results[i] == LastFailure(results) &&
                        forall j :: i < j < |results| ==> results[j].None?
  {
    var n := |results| - 1;
    if results[n].Some? {
      assert results[n] == LastFailure(results);
    } else {
      var front := results[..n];
      LastFailureIsLast(front);
      var i :| 0 <= i < |front| && front[i] == LastFailure(front) &&
               forall j :: i < j < |front| ==> front[j].None?;
      assert results[i] == LastFailure(results);
      assert forall j :: i < j < |results| ==> results[j].None? by {
        forall j | i < j < |results| ensures results[j].None? {
          if j < n { assert results[j] == front[j]; }
        }
      }
    }
  }

  /** Appending more results: if any of them failed, the earlier failures are discarded. */
  lemma {:induction false} LastFailureAppend(earlier: seq<Option<Error>>, later: seq<Option<Error>>)
    ensures LastFailure(earlier + later) ==
            if LastFailure(later).Some? then LastFailure(later) else LastFailure(earlier)
    decreases |later|
  {
    if later == [] {
      assert earlier + later == earlier;
    } else {
      var all := earlier + later;
      assert all[|all| - 1] == later[|later| - 1];
      assert all[..|all| - 1] == earlier + later[..|later| - 1];
      LastFailureAppend(earlier, later[..|later| - 1]);
    }
  }

  /** `Client.Write`: put every sample in order and report the last error, if any.
      `attempts[i]` records what happened to `samples[i]`. */
  method Write(backend: Backend, zone: Zone, samples: seq<Sample>)
    returns (err: Option<Error>, attempts: seq<Attempt>)
    ensures |attempts| == |samples|
    ensures forall i :: 0 <= i < |samples| ==> attempts[i] == PutSample(backend, zone, i, samples[i])
    ensures err.None? <==> forall i :: 0 <= i < |attempts| ==> attempts[i].result.None?
    ensures err.Some? ==> exists i :: 0 <= i < |attempts| && attempts[i].result == err &&
                                     forall j :: i < j < |attempts| ==> attempts[j].result.None?
  {
    ghost var put := (i: nat, s: Sample) => PutSample(backend, zone, i, s);
    var writeErr: Option<Error> := None;
    attempts := [];
    for k := 0 to |samples|
      invariant attempts == Sequential(put, samples, k)
      invariant writeErr == LastFailure(Results(attempts))
    {
      var a := PutSample(backend, zone, k, samples[k]);
      var putErr := a.result;
      LastFailureStep(attempts, a);
      if putErr.Some? {
        writeErr := putErr;
      }
      attempts := attempts + [a];
    }
    err := writeErr;
    SequentialEach(put, samples, |samples|);
    LastFailureOfAttempts(attempts);
  }

  /** The results of applying `step` to each of the first `n` elements of `xs`, in order,
      each together with its position. */
  function Sequential<T, U>(step: (nat, T) -> U, xs: seq<T>, n: nat): (us: seq<U>)
    requires n <= |xs|
    ensures |us| == n
  {
    if n == 0 then [] else Sequential(step, xs, n - 1) + [step(n - 1, xs[n - 1])]
  }

  /** Each element is stepped exactly once, at its own position. */
  lemma {:induction false} SequentialEach<T, U>(step: (nat, T) -> U, xs: seq<T>, n: nat)
    requires n <= |xs|
    ensures forall i :: 0 <= i < n ==> Sequential(step, xs, n)[i] == step(i, xs[i])
  {
    if n > 0 {
      SequentialEach(step, xs, n - 1);
    }
  }

  /** One more attempt: its error replaces the running one when it failed. */
  lemma LastFailureStep(attempts: seq<Attempt>, a: Attempt)
    ensures LastFailure(Results(attempts + [a])) ==
            if a.result.Some? then a.result else LastFailure(Results(attempts))
  {
    assert Results(attempts + [a]) == Results(attempts) + [a.result];
    LastFailureAppend(Results(attempts), [a.result]);
    assert LastFailure([a.result]) == a.result;
  }

  /** `LastFailure` read back in terms of the attempts themselves. */
  lemma LastFailureOfAttempts(attempts: seq<Attempt>)
    ensures var err := LastFailure(Results(attempts));
      && (err.None? <==> forall i :: 0 <= i < |attempts| ==> attempts[i].result.None?)
      && (err.Some? ==> exists i :: 0 <= i < |attempts| && attempts[i].result == err &&
                                    forall j :: i < j < |attempts| ==> attempts[j].result.None?)
  {
    var rs := Results(attempts);
    LastFailureNoneIffAllSucceed(rs);
    if LastFailure(rs).Some? {
      LastFailureIsLast(rs);
    }
  }
}
