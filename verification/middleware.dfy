/** The `authenticateToken` middleware of server.js: it reads the
    `Authorization` header, takes its second space-separated field as the token,
    and either answers 401, answers 403, or stores the decoded payload as
    `req.user` and calls `next()`. The token check of the `jsonwebtoken` library
    is the parameter `verify`, with `None` for a call that throws. */
module AuthMiddleware {
  import opened Wrappers
  import opened JsSplit

  const MissingTokenError := "Access token required"
  const InvalidTokenError := "Invalid token"

  /** A JSON error response `res.status(status).json({ error })`. */
  datatype Response = Response(status: int, error: string)

  /** Everything one pass through the middleware does: the tokens handed to
      `verify`, the value stored in `req.user`, how often `next()` was called,
      and the response written, if any. */
  datatype Effects<P> = Effects(
    verifyCalls: seq<string>,
    user: Option<P>,
    nextCalls: nat,
    response: Option<Response>)

  /** The three ways a request can leave the middleware. */
  datatype Outcome<P> = Missing401 | Invalid403 | Next(user: P)

  /** The request either got one error response and no `next()`, or `next()`
      once with `req.user` set and no response. */
  predicate ExactlyOneOutcome<P>(e: Effects<P>)
  {
    || (&& e.response in {Some(Response(401, MissingTokenError)), Some(Response(403, InvalidTokenError))}
        && e.nextCalls == 0 && e.user.None?)
    || (e.response.None? && e.nextCalls == 1 && e.user.Some?)
  }

  /** The effects each outcome stands for; `presented` is the token given to `verify`. */
  function EffectsOf<P>(o: Outcome<P>, presented: seq<string>): Effects<P>
  {
    match o
    case Missing401 => Effects(presented, None, 0, Some(Response(401, MissingTokenError)))
    case Invalid403 => Effects(presented, None, 0, Some(Response(403, InvalidTokenError)))
    case Next(p) => Effects(presented, Some(p), 1, None)
  }

  /** The value of `authHeader && authHeader.split(' ')[1]`, `None` being
      `undefined`: an absent header stays `undefined`, the empty header is
      returned as is, and any other header gives its second field. */
  function TokenExpression(header: Option<string>): (v: Option<string>)
    ensures header.None? ==> v.None?
    ensures header == Some("") ==> v == Some("")
    ensures header.Some? && header.value != "" ==> v == SecondField(header.value)
  {
    match header
    case None => None
    case Some(h) =>
      if h == "" then Some(h)
      else SecondFieldOfSplit(h); At(Split(h, ' '), 1)
  }

  /** JavaScript truthiness of a string-or-undefined value. */
  predicate Truthy(v: Option<string>)
  {
    v.Some? && v.value != ""
  }

  /** Reference definition of the token a request presents: the non-empty text
      between the first and the second space of the header (or its end). */
  function PresentedToken(header: Option<string>): Option<string>
  {
    if header.None? then None
    else
      match SecondField(header.value)
      case Some(t) => if t == "" then None else Some(t)
      case None => None
  }

  /** The middleware, step by step as written. */
  function AuthenticateToken<P>(header: Option<string>, verify: string -> Option<P>): (e: Effects<P>)
    ensures ExactlyOneOutcome(e)
    // 401 exactly when no token is presented; `verify` is then never consulted
    ensures e.response == Some(Response(401, MissingTokenError)) <==> PresentedToken(header).None?
    ensures PresentedToken(header).None? ==> e.verifyCalls == [] && e.nextCalls == 0 && e.user.None?
    // otherwise `verify` sees the presented token, once
    ensures PresentedToken(header).Some? ==> e.verifyCalls == [PresentedToken(header).value]
    // 403 exactly when `verify` rejects the presented token
    ensures e.response == Some(Response(403, InvalidTokenError)) <==>
              PresentedToken(header).Some? && verify(PresentedToken(header).value).None?
    // `next()` runs exactly when `verify` accepts it, with `req.user` its payload
    ensures e.nextCalls == 1 <==>
              PresentedToken(header).Some? && verify(PresentedToken(header).value).Some?
    ensures e.nextCalls == 1 ==> e.response.None? && e.user == verify(PresentedToken(header).value)
  {
    var token := TokenExpression(header);
    if !Truthy(token) then
      EffectsOf(Missing401, [])
    else
      match verify(token.value)
      case None => EffectsOf(Invalid403, [token.value])
      case Some(decoded) => EffectsOf(Next(decoded), [token.value])
  }

  /** Header positions: the first space of `h` is at `i` and the token `h[i+1..j]`
      runs up to the second space at `j`, or to the end. */
  predicate Delimits(h: string, i: nat, j: nat)
  {
    && i < j <= |h|
    && h[i] == ' '
    && (forall k :: 0 <= k < i ==> h[k] != ' ')
    && (forall k :: i < k < j ==> h[k] != ' ')
    && (j == |h| || h[j] == ' ')
  }

  /** A header presents `t` exactly when `t` is non-empty and sits between the
      first and the second space of the header, or after its only space. */
  lemma PresentedTokenPositions(h: string, t: string)
    ensures PresentedToken(Some(h)) == Some(t) <==>
              t != "" && exists i: nat, j: nat :: Delimits(h, i, j) && h[i + 1..j] == t
  {
    var i := IndexOf(h, ' ', 0);
    if PresentedToken(Some(h)) == Some(t) {
      var j := IndexOf(h, ' ', i + 1);
      assert Delimits(h, i, j) && h[i + 1..j] == t;
    }
    if t != "" && exists i: nat, j: nat :: Delimits(h, i, j) && h[i + 1..j] == t {
      var i': nat, j': nat :| Delimits(h, i', j') && h[i' + 1..j'] == t;
      IndexOfUnique(h, ' ', 0, i');
      IndexOfUnique(h, ' ', i' + 1, j');
    }
  }

  /** After a first word without spaces and one space, the token is the rest of
      the header up to its next space: the first word is never inspected. */
  lemma TokenAfterFirstWord(w: string, rest: string)
    requires ' ' !in w
    ensures SecondField(w + " " + rest) == Some(rest[..IndexOf(rest, ' ', 0)])
  {
    SecondFieldOfSplit(w + " " + rest);
    SplitAfterField(w, ' ', rest);
    SplitFirst(rest, ' ');
  }

  /** The scheme word is not checked: `Basic abc` presents `abc` just as
      `Bearer abc` does, and the two requests are treated identically. */
  lemma SchemeWordIgnored<P>(w1: string, w2: string, rest: string, verify: string -> Option<P>)
    requires ' ' !in w1 && ' ' !in w2
    ensures AuthenticateToken(Some(w1 + " " + rest), verify) ==
            AuthenticateToken(Some(w2 + " " + rest), verify)
  {
    TokenAfterFirstWord(w1, rest);
    TokenAfterFirstWord(w2, rest);
  }

  lemma BasicSchemePresentsToken()
    ensures PresentedToken(Some("Basic abc")) == Some("abc")
  {
    TokenAfterFirstWord("Basic", "abc");
    IndexOfUnique("abc", ' ', 0, 3);
    assert "Basic" + " " + "abc" == "Basic abc";
    assert "abc"[..3] == "abc";
    assert SecondField("Basic abc") == Some("abc");
  }

  /** A header without a space, or whose second field is empty, is a missing
      token: 401 without consulting `verify`. */
  lemma EmptySecondFieldIsMissing<P>(w: string, x: string, verify: string -> Option<P>)
    requires ' ' !in w
    ensures AuthenticateToken(Some(w), verify) == EffectsOf(Missing401, [])
    ensures AuthenticateToken(Some(w + " "), verify) == EffectsOf(Missing401, [])
    ensures AuthenticateToken(Some(w + "  " + x), verify) == EffectsOf(Missing401, [])
  {
    IndexOfUnique(w, ' ', 0, |w|);
    TokenAfterFirstWord(w, "");
    assert w + " " + "" == w + " ";
    TokenAfterFirstWord(w, " " + x);
    assert w + " " + (" " + x) == w + "  " + x;
    IndexOfUnique(" " + x, ' ', 0, 0);
  }

  /** Whether a request gets 401 is decided before `verify` is consulted: it
      does not depend on the verifier at all. */
  lemma MissingIndependentOfVerify<P>(header: Option<string>, v1: string -> Option<P>, v2: string -> Option<P>)
    requires AuthenticateToken(header, v1).response == Some(Response(401, MissingTokenError))
    ensures AuthenticateToken(header, v2) == AuthenticateToken(header, v1)
  {
  }
}
