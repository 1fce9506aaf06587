/** The short-circuit fallback policy: try candidates strictly in order and
    stop at the first one whose normalised result is non-empty. */
module Tiered {

  /** What a scan produced, and how many candidates it had to issue. */
  datatype Scan<T> = Scan(result: seq<T>, tried: nat)

  /** All of the first `n` candidates produced nothing. */
  predicate AllEmpty<Q, T>(candidates: seq<Q>, run: Q -> seq<T>, n: nat)
    requires n <= |candidates|
  {
    forall i :: 0 <= i < n ==> run(candidates[i]) == []
  }

  /** Issues `run` on each candidate in turn and returns the first non-empty
      result. A candidate is never issued once an earlier one succeeded; when
      none succeeds the result is empty and every candidate was issued. */
  function FirstNonEmpty<Q, T>(candidates: seq<Q>, run: Q -> seq<T>): (s: Scan<T>)
    ensures s.tried <= |candidates|
    ensures s.result != [] ==> 1 <= s.tried && s.result == run(candidates[s.tried - 1])
                               && AllEmpty(candidates, run, s.tried - 1)
    ensures s.result == [] ==> s.tried == |candidates| && AllEmpty(candidates, run, |candidates|)
  {
    if |candidates| == 0 then Scan([], 0)
    else
      var first := run(candidates[0]);
      if first != [] then Scan(first, 1)
      else
        var rest := FirstNonEmpty(candidates[1..], run);
        Scan(rest.result, rest.tried + 1)
  }

  /** Candidates after the winning one do not influence the outcome: replacing
      everything past the `tried` prefix leaves the scan unchanged. */
  lemma {:induction false} LaterCandidatesIrrelevant<Q, T>(candidates: seq<Q>, other: seq<Q>, run: Q -> seq<T>)
    requires FirstNonEmpty(candidates, run).result != []
    requires FirstNonEmpty(candidates, run).tried <= |other|
    requires other[..FirstNonEmpty(candidates, run).tried] == candidates[..FirstNonEmpty(candidates, run).tried]
    ensures FirstNonEmpty(other, run) == FirstNonEmpty(candidates, run)
  {
    var s := FirstNonEmpty(candidates, run);
    assert other[0] == candidates[0];
    if run(candidates[0]) == [] {
      assert other[1..][..s.tried - 1] == candidates[1..][..s.tried - 1];
      LaterCandidatesIrrelevant(candidates[1..], other[1..], run);
    }
  }
}
