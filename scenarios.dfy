/**
  Short traces of events on one interceptor, stated over any starting state
  the handlers accept.
 */
module Scenarios {
  import opened Wrappers
  import opened AxiosInterceptor

  /** A 440 that arrives while a refresh is in flight clears the flag but
      strands the queue; the next 401 then starts a second refresh call while
      the first is still unsettled, so single-flight no longer holds. */
  method SessionExpiryDuringRefresh(ic: Interceptor, late: RequestConfig, next: RequestConfig,
                                    lateTag: nat, nextTag: nat)
    returns (lateReply: Reply, nextReply: Reply)
    requires ic.Valid() && ic.SingleFlight() && ic.refreshing
    modifies ic, late, next
    ensures ic.Valid()
    ensures lateReply == Rejected && nextReply == AwaitingRefresh(old(ic.refreshCalls))
    ensures ic.refreshCalls == old(ic.refreshCalls) + 1 && ic.refreshing
    ensures ic.queue == old(ic.queue) && ic.redirects == old(ic.redirects) + 1
    ensures old(ic.awaiting.Keys) < ic.awaiting.Keys
    ensures !ic.SingleFlight()
  {
    lateReply := ic.OnResponseError(AxiosError(Some(SessionExpired), lateTag), late);
    nextReply := ic.OnResponseError(AxiosError(Some(AuthExpired), nextTag), next);
    ghost var first :| first in old(ic.awaiting);
    assert first in ic.awaiting && old(ic.refreshCalls) in ic.awaiting && first != old(ic.refreshCalls);
  }

  /** After a successful refresh and the resubmission of everything it
      released, every released request carries the new token and its body is
      the one it had before the refresh. */
  method RefreshAndReplay(ic: Interceptor, ticket: nat, newToken: string)
    returns (resubmits: seq<RequestConfig>)
    requires ic.Valid() && ticket in ic.awaiting
    modifies ic, ic.QueuedConfigs(), ic.awaiting.Values
    ensures ic.Valid() && ic.token == Some(newToken)
    ensures resubmits == Configs(old(ic.queue)) + [old(ic.awaiting)[ticket]]
    ensures forall i :: 0 <= i < |resubmits| ==>
      && resubmits[i].data == old(resubmits[i].data)
      && (!IsLoginUrl(resubmits[i].url) ==>
            resubmits[i].headers == old(resubmits[i].headers)[AuthorizationKey := BearerValue(Some(newToken))])
  {
    resubmits := ic.RefreshSucceeded(ticket, newToken);
    ic.Resubmit(resubmits);
  }
}
