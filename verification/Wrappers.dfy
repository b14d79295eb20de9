/** Optional values, results that may be refused, and chains of checks. */
module Wrappers {

  datatype Option<+T> = None | Some(value: T)

  datatype Result<+T, +E> = Ok(value: T) | Err(error: E)

  /** The refusal of the first check that does not hold. */
  function FirstFailing<E>(checks: seq<(bool, E)>): Option<E> {
    if |checks| == 0 then None else if !checks[0].0 then Some(checks[0].1) else FirstFailing(checks[1..])
  }

  /** The checks from number `k` on. */
  lemma FailingFrom<E>(checks: seq<(bool, E)>, k: nat)
    requires k < |checks|
    ensures FirstFailing(checks[k..])
         == if !checks[k].0 then Some(checks[k].1) else FirstFailing(checks[k + 1..])
  {
    assert checks[k..][1..] == checks[k + 1..];
  }

  lemma {:induction false} FailingAppended<E>(checks: seq<(bool, E)>, more: seq<(bool, E)>)
    ensures FirstFailing(checks + more)
         == if FirstFailing(checks).Some? then FirstFailing(checks) else FirstFailing(more)
  {
    if |checks| == 0 {
      assert checks + more == more;
    } else {
      FailingAppended(checks[1..], more);
      assert (checks + more)[1..] == checks[1..] + more;
    }
  }
}
