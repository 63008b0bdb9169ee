/** The GET branch of the webhook: the platform's subscription handshake. */
module Verification {
  import opened Basics

  /** The secret the platform must echo back; a literal in the handler. */
  const VerifyToken := "your_verify_token_here"
  const SubscribeMode := "subscribe"
  const RejectionText := "Verification failed"

  /** Answer to a GET carrying the query parameters `hub.mode`,
      `hub.verify_token` and `hub.challenge`, each possibly absent. */
  function Verify(mode: Option<string>, token: Option<string>, challenge: Option<string>): (r: Reply)
    ensures r.status == 200 <==> mode == Some(SubscribeMode) && token == Some(VerifyToken)
    ensures r.status == 200 ==> r.body == challenge
    ensures r.status != 200 ==> r == Reply(Some(RejectionText), 403)
  {
    if mode == Some(SubscribeMode) && token == Some(VerifyToken) then Reply(challenge, 200)
    else Reply(Some(RejectionText), 403)
  }

  /** A request lacking either parameter, or carrying any other token or
      mode, is rejected whatever its challenge. */
  lemma OnlyTheConfiguredTokenPasses(mode: Option<string>, token: Option<string>, challenge: Option<string>)
    requires mode.None? || token.None? || token.value != VerifyToken || mode.value != SubscribeMode
    ensures Verify(mode, token, challenge) == Reply(Some(RejectionText), 403)
  {
  }

  /** The challenge does not influence the decision, only the body of an
      accepted answer. */
  lemma ChallengeDoesNotDecide(mode: Option<string>, token: Option<string>, c1: Option<string>, c2: Option<string>)
    ensures Verify(mode, token, c1).status == Verify(mode, token, c2).status
  {
  }
}
