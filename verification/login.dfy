/** The body of the `POST /api/auth/login` handler of server.js: an exact
    comparison against the one built-in account, a token signed for a fixed
    claim with a 24-hour lifetime, 401 otherwise, and 500 when signing throws.
    The `jsonwebtoken` signer is the parameter `sign`, with `None` for a call
    that throws (for instance when no signing secret is configured). */
module Login {
  import opened Wrappers

  const AdminUsername := "admin"
  const AdminPassword := "admin123"
  /** The `expiresIn` option handed to the signer. */
  const TokenLifetime := "24h"

  const InvalidCredentialsError := "Invalid credentials"
  const InternalServerError := "Internal server error"

  /** A field of the parsed JSON request body. `Other` is any non-string JSON
      value (number, boolean, null, object, array); strict equality `===`
      never equates it with a string. */
  datatype BodyField = Missing | Str(text: string) | Other

  datatype LoginBody = LoginBody(username: BodyField, password: BodyField)

  /** The identity claim that is signed and returned on success. */
  datatype Claim = Claim(id: int, username: string, role: string)

  const AdminClaim := Claim(1, "admin", "admin")

  /** The arguments of one `jwt.sign(payload, secret, { expiresIn })` call;
      the secret is fixed for the process and lives inside `sign`. */
  datatype SignRequest = SignRequest(payload: Claim, expiresIn: string)

  /** The three replies: 200 `{ success: true, token, user }`, 401 and 500. */
  datatype Reply = Issued(token: string, user: Claim) | Unauthorized | ServerError
  {
    function Status(): int
    {
      match this
      case Issued(_, _) => 200
      case Unauthorized => 401
      case ServerError => 500
    }

    function Error(): Option<string>
    {
      match this
      case Issued(_, _) => None
      case Unauthorized => Some(InvalidCredentialsError)
      case ServerError => Some(InternalServerError)
    }
  }

  /** What one login request does: the calls made to the signer and the reply. */
  datatype LoginRun = LoginRun(signCalls: seq<SignRequest>, reply: Reply)

  /** `username === 'admin' && password === 'admin123'`. */
  predicate IsAdminCredential(body: LoginBody)
  {
    body.username == Str(AdminUsername) && body.password == Str(AdminPassword)
  }

  /** The handler, branch by branch as written. */
  function HandleLogin(body: LoginBody, sign: SignRequest -> Option<string>): (r: LoginRun)
    // wrong credentials: 401 "Invalid credentials" and the signer is never called
    ensures r.reply.Status() == 401 && r.reply.Error() == Some("Invalid credentials") <==>
              !(body.username.Str? && body.username.text == "admin" &&
                body.password.Str? && body.password.text == "admin123")
    ensures r.reply == Unauthorized ==> r.signCalls == []
    // right credentials: exactly one signing, of the admin claim, valid for 24 hours
    ensures r.reply != Unauthorized ==>
              r.signCalls == [SignRequest(Claim(1, "admin", "admin"), "24h")]
    // the token is what the signer produced, and the returned user is the signed claim
    ensures r.reply.Status() == 200 <==> r.reply.Issued?
    ensures r.reply.Issued? ==>
              sign(r.signCalls[0]) == Some(r.reply.token) && r.reply.user == r.signCalls[0].payload
    // a throwing signer turns the right credentials into a 500 "Internal server error"
    ensures r.reply.Status() == 500 && r.reply.Error() == Some("Internal server error") <==> r.signCalls != [] && sign(r.signCalls[0]).None?
  {
    if IsAdminCredential(body) then
      var request := SignRequest(AdminClaim, TokenLifetime);
      match sign(request)
      case Some(token) => LoginRun([request], Issued(token, AdminClaim))
      case None => LoginRun([request], ServerError)
    else
      LoginRun([], Unauthorized)
  }

  /** Login succeeds exactly for the two literal strings: no trimming, no case
      folding, no coercion of non-string values, whatever the signer does. */
  lemma SucceedsOnlyForExactCredentials(u: BodyField, p: BodyField, sign: SignRequest -> Option<string>)
    requires HandleLogin(LoginBody(u, p), sign).reply.Issued?
    ensures u == Str("admin") && p == Str("admin123")
    ensures HandleLogin(LoginBody(u, p), sign).reply.user == Claim(1, "admin", "admin")
  {
  }

  /** Near misses of the built-in account are all rejected with 401. */
  lemma NearMissesRejected(sign: SignRequest -> Option<string>)
    ensures HandleLogin(LoginBody(Str("Admin"), Str("admin123")), sign).reply == Unauthorized
    ensures HandleLogin(LoginBody(Str("admin "), Str("admin123")), sign).reply == Unauthorized
    ensures HandleLogin(LoginBody(Str("admin"), Str("admin123 ")), sign).reply == Unauthorized
    ensures HandleLogin(LoginBody(Str("admin"), Missing), sign).reply == Unauthorized
    ensures HandleLogin(LoginBody(Missing, Missing), sign).reply == Unauthorized
  {
  }
}
