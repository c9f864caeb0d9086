/**
  Subtree search (`find_first_element_in_subtree` in src/main.rs).

  UIA's `FindFirst` reports "no element satisfies the condition" through its error
  channel, with an error whose status code is a success code. The program turns the
  reply into a three-way outcome: a match, no match, or a genuine error.
 */
module SubtreeSearch {
  import opened Uia

  /** Classifies the provider's `FindFirst` reply. */
  function FindFirstElementInSubtree(reply: Result<Element>): (r: Result<Option<Element>>)
    ensures reply.Ok? ==> r == Ok(Some(reply.value))
    ensures r == Ok(None) <==> reply.Err? && Succeeded(reply.error.code)
    ensures r.Err? <==> reply.Err? && !Succeeded(reply.error.code)
    ensures r.Err? ==> r.error == reply.error
    ensures r.Err? ==> !Succeeded(r.error.code)
  {
    match reply
    case Ok(m) => Ok(Some(m))
    case Err(e) => if Succeeded(e.code) then Ok(None) else Err(e)
  }

  /**
    A `FindFirst` reply that produces a given outcome: the element itself, an error
    carrying `S_OK` for "no match", or the error unchanged.
   */
  function ReplyFor(outcome: Result<Option<Element>>): Result<Element> {
    match outcome
    case Ok(Some(m)) => Ok(m)
    case Ok(None) => Err(Error(StatusOk, ""))
    case Err(e) => Err(e)
  }

  /** An outcome the search can produce: genuine errors carry a failure code. */
  predicate Reachable(outcome: Result<Option<Element>>) {
    outcome.Err? ==> !Succeeded(outcome.error.code)
  }

  /** Every reachable outcome is reproduced by `ReplyFor`, and only those are. */
  lemma ClassifyReplyFor(outcome: Result<Option<Element>>)
    ensures FindFirstElementInSubtree(ReplyFor(outcome)) == outcome <==> Reachable(outcome)
  {
  }

  /**
    The classification forgets nothing except the details of a "no match" error: two
    replies with the same outcome are equal or are both success-coded errors.
   */
  lemma ClassifyLosesOnlyNoMatchDetail(a: Result<Element>, b: Result<Element>)
    requires FindFirstElementInSubtree(a) == FindFirstElementInSubtree(b)
    ensures a == b || (a.Err? && b.Err? && Succeeded(a.error.code) && Succeeded(b.error.code))
  {
  }
}
