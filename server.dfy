/**
 * The webhook endpoint (`POST /webhook`): a pull request that was opened or got new
 * commits is answered `processing`, every other delivery `ignored`, both with HTTP 200.
 * A payload that lacks a key the handler reads raises `KeyError`, which the web framework
 * answers with an internal server error.
 */
module Server {
  import opened Wrappers

  /** The keys of the JSON body that the handler reads; `None` is an absent key. */
  datatype HookPayload = HookPayload(action: Option<string>, prNumber: Option<int>, fullName: Option<string>)

  /** A JSON reply `{"status": status}` with an HTTP code, or the framework's error page. */
  datatype Response = Json(status: string, code: int) | InternalServerError

  const ReviewActions: seq<string> := ["opened", "synchronize"]

  /** The delivery is a pull request that was opened or synchronised. */
  predicate IsReviewTrigger(event: Option<string>, action: Option<string>) {
    event == Some("pull_request") && action.Some? && action.value in ReviewActions
  }

  /** `webhook()` given the `X-GitHub-Event` header (`None` when absent) and the parsed body. */
  function Webhook(event: Option<string>, payload: HookPayload): (r: Response)
    ensures r.Json? ==> r.code == 200
    ensures r.Json? ==> (r.status == "processing" <==> IsReviewTrigger(event, payload.action))
    ensures r.Json? ==> r.status == "processing" || r.status == "ignored"
    ensures event != Some("pull_request") ==> r == Json("ignored", 200)
    ensures r.InternalServerError? <==>
      event == Some("pull_request")
      && (payload.action.None?
          || (payload.action.value in ReviewActions && (payload.prNumber.None? || payload.fullName.None?)))
  {
    if event == Some("pull_request") then
      match payload.action
      case None => InternalServerError
      case Some(action) =>
        if action in ReviewActions then
          if payload.prNumber.Some? && payload.fullName.Some? then Json("processing", 200)
          else InternalServerError
        else Json("ignored", 200)
    else Json("ignored", 200)
  }

  /** `and` short-circuits: the parsed payload's keys are read only when the event is a pull request. */
  lemma BodyReadOnlyForPullRequests(event: Option<string>, p1: HookPayload, p2: HookPayload)
    requires event != Some("pull_request")
    ensures Webhook(event, p1) == Webhook(event, p2)
  {
  }

  /** A pull request event with any other action, such as `closed`, is ignored. */
  lemma OtherActionsIgnored(payload: HookPayload)
    requires payload.action.Some? && payload.action.value !in ReviewActions
    ensures Webhook(Some("pull_request"), payload) == Json("ignored", 200)
  {
  }

  lemma ClosedIsIgnored(prNumber: Option<int>, fullName: Option<string>)
    ensures Webhook(Some("pull_request"), HookPayload(Some("closed"), prNumber, fullName)) == Json("ignored", 200)
  {
    OtherActionsIgnored(HookPayload(Some("closed"), prNumber, fullName));
  }
}
