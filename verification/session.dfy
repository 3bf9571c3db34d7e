/** How the two halves of server.js would meet: a token issued by the login
    handler, presented to a route guarded by `authenticateToken`. server.js
    defines that middleware but mounts it on no route, so these lemmas describe
    what would happen if a route used it. */
module Session {
  import opened Wrappers
  import opened JsSplit
  import opened AuthMiddleware
  import opened Login

  /** A token issued at login, sent back after any single scheme word and one
      space to a route guarded by the middleware, would reach that route's handler with `req.user` set to whatever
      `verify` decodes from it, provided the token is non-empty, has no space
      (true of a compact JWT) and the verifier accepts it. Nothing here claims
      that `verify` accepts what `sign` produced: that is the library's promise. */
  lemma IssuedTokenAuthenticates<P>(body: LoginBody, sign: SignRequest -> Option<string>,
                                    scheme: string, verify: string -> Option<P>)
    requires HandleLogin(body, sign).reply.Issued?
    requires ' ' !in scheme
    requires HandleLogin(body, sign).reply.token != ""
    requires ' ' !in HandleLogin(body, sign).reply.token
    requires verify(HandleLogin(body, sign).reply.token).Some?
    ensures var token := HandleLogin(body, sign).reply.token;
            AuthenticateToken(Some(scheme + " " + token), verify) ==
            Effects([token], verify(token), 1, None)
  {
    var token := HandleLogin(body, sign).reply.token;
    TokenAfterFirstWord(scheme, token);
    IndexOfUnique(token, ' ', 0, |token|);
    assert token[..|token|] == token;
  }

  /** When the verifier rejects every token, no request ever reaches `next()`:
      every request gets an error response. */
  lemma RejectingVerifierLocksOut<P>(header: Option<string>, verify: string -> Option<P>)
    requires forall t :: verify(t).None?
    ensures AuthenticateToken(header, verify).nextCalls == 0
    ensures AuthenticateToken(header, verify).response.Some?
  {
  }
}
