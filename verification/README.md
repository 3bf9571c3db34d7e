# NetGuard request authentication, modelled in Dafny

NetGuard's HTTP server (`server.js`) defines a bearer-token middleware and a
login endpoint that issues tokens. The middleware is declared but mounted on
no route, so no endpoint is actually protected. These two pieces make
decisions of their own, and this project models both:

- the `authenticateToken` middleware. It reads the `Authorization` header,
  takes `header.split(' ')[1]` as the token, and does one of three things. It
  answers 401 "Access token required", or answers 403 "Invalid token", or sets
  `req.user` to the decoded payload and calls `next()`;
- the `POST /api/auth/login` handler. It compares the submitted username and
  password with one built-in account (`admin` / `admin123`). On a match it
  signs the fixed claim `{id: 1, username: 'admin', role: 'admin'}` with
  `expiresIn: '24h'` and returns the token and the claim. A mismatch gets 401
  "Invalid credentials". A signer that throws gets 500 "Internal server error".

The `jsonwebtoken` library does the signing and checking, and its code is not
part of this model. Both calls are parameters:

- `verify: string -> Option<P>` returns the decoded payload, or `None` where
  `jwt.verify` throws;
- `sign: SignRequest -> Option<string>` returns the token, or `None` where
  `jwt.sign` throws.

The process-wide secret sits inside these two functions. Each handler is a
pure function from its inputs to a record of its effects:

- for the middleware: the tokens passed to `verify`, the value of `req.user`,
  the number of `next()` calls, and the response written;
- for login: the calls made to the signer and the reply.

Files:

- `wrappers.dfy`: `Option`. `None` stands for JavaScript `undefined` or for a
  thrown error.
- `split.dfy` (module `JsSplit`): JavaScript `split` with a one-character
  separator, with `Join` as its inverse. It also has array indexing that gives
  `undefined` past the end (a plain helper), and a position-based reference reading of
  `split(' ')[1]`.
- `middleware.dfy` (module `AuthMiddleware`): the middleware and its
  properties.
- `login.dfy` (module `Login`): the login handler and its properties.
- `session.dfy` (module `Session`): how the two handlers would relate if a
  route used the middleware.

In several places the code does less than a bearer-token design would
usually promise. The model follows the code:

- `authenticateToken` is defined but passed to no route, so `/dashboard`,
  `/api/status` and every other endpoint are reachable without a token;
- the scheme word of the header is never checked, so `Basic abc` presents the
  token `abc`;
- a missing or empty signing secret is not rejected at startup;
- expired, malformed and badly signed tokens are not told apart. All of them
  get 403;
- the login handler does not require non-empty fields, and it does not
  compare in constant time;
- a failed login is not logged. Only the 500 path logs.

## Model

| member | source | states |
|---|---|---|
| JsSplit.Split | server.js:53 | `split(' ')` yields one more field than the header has spaces, and no field contains a space |
| JsSplit.JoinSplit | server.js:53 | joining the fields of a split with the separator gives back the original header: no character is lost or invented |
| JsSplit.SplitJoin | server.js:53 | splitting a join of space-free fields gives back exactly those fields |
| JsSplit.SplitFirst | server.js:53 | the first field is the text before the first space, and the remaining fields are those of the text after it |
| JsSplit.SplitSecond | server.js:53 | when the header has a space, it has a second field, which runs from just after the first space to the next space or the end |
| JsSplit.SecondFieldOfSplit | server.js:53 | `split(' ')[1]` is the text between the first and second space, or from the first space to the end; it is `undefined` when the header has no space |
| AuthMiddleware.TokenExpression | server.js:52-53 | `authHeader && authHeader.split(' ')[1]` is `undefined` for an absent header, `""` for an empty header, and the second field otherwise |
| AuthMiddleware.AuthenticateToken | server.js:51-66 | each request gets exactly one outcome. It is 401 exactly when no non-empty token is presented, and then `verify` is not called. Otherwise `verify` is called once with the token. A rejection gives 403 with no `req.user` and no `next()`. An acceptance calls `next()` once, sets `req.user` to the decoded payload, and writes no response |
| AuthMiddleware.PresentedTokenPositions | server.js:53-56 | a header presents token `t` if and only if `t` is non-empty and lies between the first and second space (or after the only space) |
| AuthMiddleware.TokenAfterFirstWord | server.js:53 | after a space-free first word and one space, the token is the rest of the header up to its next space |
| AuthMiddleware.SchemeWordIgnored | server.js:53 | two headers that differ only in their first word are treated identically |
| AuthMiddleware.BasicSchemePresentsToken | server.js:53 | example of the scheme word being ignored: `Basic abc` presents the token `abc` |
| AuthMiddleware.EmptySecondFieldIsMissing | server.js:53-57 | `Bearer`, `Bearer ` and `Bearer  x` all get 401 with no `verify` call, as a missing header does |
| AuthMiddleware.MissingIndependentOfVerify | server.js:55-60 | the 401 decision does not depend on the verifier: it is made before `verify` is consulted |
| Login.HandleLogin | server.js:181-204 | 401 "Invalid credentials" with no signing if and only if the pair is not exactly the strings `admin` / `admin123`. Otherwise the signer is called once, on `{id: 1, username: 'admin', role: 'admin'}` with `expiresIn` `24h`. The 200 reply carries the signer's token and the signed claim as `user`. The reply is 500 "Internal server error" if and only if that signing throws |
| Login.SucceedsOnlyForExactCredentials | server.js:185-196 | a successful login had exactly the string fields `admin` and `admin123`, and it returns the admin claim |
| Login.NearMissesRejected | server.js:197-199 | examples of exact comparison: `Admin`, `admin `, `admin123 ` and missing fields are each rejected with 401 |
| Session.IssuedTokenAuthenticates | server.js:53-62 | a non-empty, space-free issued token, sent after any scheme word to a route using the middleware, would reach `next()` with `req.user` set to what the verifier decodes, provided the verifier accepts it |
| Session.RejectingVerifierLocksOut | server.js:59-65 | when `verify` rejects every token, no request reaches `next()` and every request gets an error response |

## Left out

- JWT signing, signature checking and expiry (server.js:60, server.js:186-190) belong to the `jsonwebtoken` library. They are abstract parameters here. No sign/verify round trip is claimed, and neither is the meaning of `24h`.
- What a missing or empty `JWT_SECRET` does to `jwt.verify` and `jwt.sign` depends on the `jsonwebtoken` version, which is not part of this model. Some older versions accept an unsigned token when no secret and no `algorithms` option are given. The model only covers whatever `verify` and `sign` return.
- Express, helmet, cors, compression, body parsing and static files (server.js:25-49) are framework configuration with no decisions in them.
- The static page, `/dashboard`, `/health` and `/api/status` (server.js:68-226) return constant content. `/health` also reads the clock and a floating-point uptime.
- Logging, the unused database pool, `app.listen` and SIGTERM handling (server.js:12-31, server.js:228-236) are I/O and process lifecycle.
- AuthMiddleware.AuthenticateToken: the `catch` block also wraps `req.user = decoded; next()`. A `next()` that threw synchronously would therefore produce 403. The model treats `next()` as not throwing, because Express catches errors raised inside downstream handlers itself.
- AuthMiddleware.AuthenticateToken: the header is taken as Node delivers it. Node's trimming of surrounding whitespace from header values, and header-name lowercasing, happen before this code runs and are not modelled.
- Login.HandleLogin: `req.body` is taken to be an object, as it is with Express 4's JSON and urlencoded parsers. Express 5's parsers leave it `undefined` for a request without a parsed body, and then the destructuring throws. The `TypeError` that destructuring `undefined` would raise, which gives 500, is not modelled. A throw from `res.json` is not modelled either.
- The async nature of both handlers is not modelled. Neither handler awaits anything, so each runs to completion in one step.
