/** The authorization middleware of middleware/auth.go: pick the token
    (the `token` cookie, else the second word of the Authorization header),
    hand it to the JWT verifier, and either abort the request with a status
    or attach the claimed user id and continue. The verifier itself
    (jwt.ParseWithClaims with the shared secret) is a parameter. */
module Auth {
  import opened Wrappers
  import opened Http

  /** What the middleware reads of a request: the `token` cookie if one was
      sent, as gin's Cookie returns it (already URL-unescaped), and the
      Authorization header ("" when absent, as Header.Get). The header is
      the value as the handler sees it: net/http trims the spaces around a
      header read off the wire, so only a value set directly (as with
      Header.Add) can end in a space. */
  datatype Request = Request(tokenCookie: Option<string>, authorization: string)

  /** The three outcomes of the JWT verifier as the middleware tells them
      apart: an error equal to jwt.ErrSignatureInvalid, any other error, or
      a parsed token with its validity flag and the `ID` claim. */
  datatype ParseResult = SigInvalid | OtherError | Parsed(valid: bool, id: nat)

  /** Either the request is aborted with a status and a message, and no
      user id is set, or `userID` is set and the chain continues. */
  datatype Outcome = Abort(status: nat, message: string) | Continue(userId: nat)

  const MissingCredentials := "Authorized routes require cookie token or Authorization header"
  const MalformedHeader := "Authorization header should be in the format `Bearer $TOKEN`"

  // ---------------------------------------------------------------------
  // strings.Split(s, " ")
  // ---------------------------------------------------------------------

  /** The number of occurrences of `c` in `s`. */
  function Count(s: string, c: char): nat {
    if s == [] then 0 else (if s[0] == c then 1 else 0) + Count(s[1..], c)
  }

  /** strings.Split with a one-character separator: the pieces between the
      separators, one more piece than there are separators. */
  function Split(s: string, sep: char): (parts: seq<string>)
    ensures |parts| == Count(s, sep) + 1
    ensures forall i :: 0 <= i < |parts| ==> sep !in parts[i]
  {
    if s == [] then [""]
    else if s[0] == sep then [""] + Split(s[1..], sep)
    else
      var rest := Split(s[1..], sep);
      [[s[0]] + rest[0]] + rest[1..]
  }

  /** strings.Join, the inverse of Split. */
  function Join(parts: seq<string>, sep: char): string
    requires |parts| > 0
  {
    if |parts| == 1 then parts[0] else parts[0] + [sep] + Join(parts[1..], sep)
  }

  lemma {:induction false} JoinSplit(s: string, sep: char)
    ensures Join(Split(s, sep), sep) == s
  {
    if s == [] {
    } else if s[0] == sep {
      JoinSplit(s[1..], sep);
      assert Split(s, sep) == [""] + Split(s[1..], sep);
      assert s == [sep] + s[1..];
    } else {
      JoinSplit(s[1..], sep);
      var rest := Split(s[1..], sep);
      var parts := [[s[0]] + rest[0]] + rest[1..];
      assert Split(s, sep) == parts;
      if |rest| == 1 {
        assert Join(parts, sep) == [s[0]] + rest[0];
      } else {
        assert parts[1..] == rest[1..];
        assert Join(rest, sep) == rest[0] + [sep] + Join(rest[1..], sep);
        assert Join(parts, sep) == [s[0]] + rest[0] + [sep] + Join(rest[1..], sep);
      }
      assert s == [s[0]] + s[1..];
    }
  }

  /** The header splits into exactly [scheme, token] when it is two words
      joined by a single space. */
  lemma {:induction false} SplitTwoWords(scheme: string, token: string, sep: char)
    requires sep !in scheme && sep !in token
    ensures Split(scheme + [sep] + token, sep) == [scheme, token]
  {
    if scheme == [] {
      assert scheme + [sep] + token == [sep] + token;
      assert ([sep] + token)[1..] == token;
      SplitNoSep(token, sep);
    } else {
      var s := scheme + [sep] + token;
      assert s[0] == scheme[0];
      assert s[1..] == scheme[1..] + [sep] + token;
      SplitTwoWords(scheme[1..], token, sep);
      assert [scheme[0]] + scheme[1..] == scheme;
    }
  }

  lemma {:induction false} SplitNoSep(s: string, sep: char)
    requires sep !in s
    ensures Split(s, sep) == [s]
  {
    if s != [] {
      SplitNoSep(s[1..], sep);
      assert [s[0]] + s[1..] == s;
    }
  }

  // ---------------------------------------------------------------------
  // Authorize
  // ---------------------------------------------------------------------

  /** The token source: the cookie if present; otherwise the header, which
      must be non-empty (else 401) and split into exactly two parts on " "
      (else 400); the token is the second part and the first is not read. */
  function ExtractToken(req: Request): (r: Result<string, Outcome>)
    ensures req.tokenCookie.Some? ==> r == Ok(req.tokenCookie.value)
    ensures req.tokenCookie.None? && req.authorization == "" ==>
              r == Err(Abort(StatusUnauthorized, MissingCredentials))
    ensures req.tokenCookie.None? && req.authorization != "" ==>
              (r.Ok? <==> Count(req.authorization, ' ') == 1)
              && (r.Ok? ==> ' ' !in r.value)
              && (r.Err? ==> r.error == Abort(StatusBadRequest, MalformedHeader))
  {
    match req.tokenCookie
    case Some(cookie) => Ok(cookie)
    case None =>
      if |req.authorization| == 0 then Err(Abort(StatusUnauthorized, MissingCredentials))
      else
        var parts := Split(req.authorization, ' ');
        if |parts| != 2 then Err(Abort(StatusBadRequest, MalformedHeader))
        else Ok(parts[1])
  }

  /** The whole middleware decision: every abort carries 401 or 400, and
      the request continues exactly when a token was extracted and the
      verifier parsed it as valid, with the token's ID claim. */
  function Authorize(req: Request, verify: string -> ParseResult): (r: Outcome)
    ensures r.Abort? ==> r.status in {StatusUnauthorized, StatusBadRequest}
    ensures r.Continue? <==>
              ExtractToken(req).Ok? && verify(ExtractToken(req).value).Parsed?
              && verify(ExtractToken(req).value).valid
    ensures r.Continue? ==> r.userId == verify(ExtractToken(req).value).id
  {
    match ExtractToken(req)
    case Err(abort) => abort
    case Ok(token) =>
      match verify(token)
      case SigInvalid => Abort(StatusUnauthorized, "Invalid signature")
      case OtherError => Abort(StatusBadRequest, "Invalid token")
      case Parsed(valid, id) =>
        if !valid then Abort(StatusUnauthorized, "Invalid token") else Continue(id)
  }

  /** A `token` cookie is used as it is, and the header is never consulted. */
  lemma CookieWins(cookie: string, header1: string, header2: string, verify: string -> ParseResult)
    ensures ExtractToken(Request(Some(cookie), header1)) == Ok(cookie)
    ensures Authorize(Request(Some(cookie), header1), verify) == Authorize(Request(Some(cookie), header2), verify)
  {
  }

  /** Neither cookie nor header: 401, whatever the verifier would say. */
  lemma NoCredentialsUnauthorized(verify: string -> ParseResult)
    ensures Authorize(Request(None, ""), verify) == Abort(StatusUnauthorized, MissingCredentials)
  {
  }

  /** Without a cookie, a non-empty header yields a token exactly when it
      holds exactly one space, and is otherwise refused with 400. */
  lemma HeaderNeedsOneSpace(header: string, verify: string -> ParseResult)
    requires header != ""
    ensures ExtractToken(Request(None, header)).Ok? <==> Count(header, ' ') == 1
    ensures Count(header, ' ') != 1 ==>
              Authorize(Request(None, header), verify) == Abort(StatusBadRequest, MalformedHeader)
  {
  }

  /** The token is the word after the space; the scheme word is not checked. */
  lemma HeaderToken(scheme: string, token: string)
    requires ' ' !in scheme && ' ' !in token
    ensures ExtractToken(Request(None, scheme + " " + token)) == Ok(token)
  {
    assert scheme + " " + token == scheme + [' '] + token;
    SplitTwoWords(scheme, token, ' ');
  }

  /** "Bearer " carries the empty token to the verifier. */
  lemma BearerAloneIsEmptyToken()
    ensures ExtractToken(Request(None, "Bearer ")) == Ok("")
  {
    HeaderToken("Bearer", "");
    assert "Bearer" + " " + "" == "Bearer ";
  }

  /** The request continues with `id` exactly when a token was extracted
      and the verifier parsed it as valid with that ID claim. */
  lemma ContinueExactlyWhenValid(req: Request, verify: string -> ParseResult, id: nat)
    ensures Authorize(req, verify) == Continue(id) <==>
              ExtractToken(req).Ok? && verify(ExtractToken(req).value) == Parsed(true, id)
  {
  }

  /** The status ladder once a token is extracted. */
  lemma VerifierStatuses(req: Request, verify: string -> ParseResult)
    requires ExtractToken(req).Ok?
    ensures verify(ExtractToken(req).value) == SigInvalid ==> Authorize(req, verify).status == StatusUnauthorized
    ensures verify(ExtractToken(req).value) == OtherError ==> Authorize(req, verify).status == StatusBadRequest
    ensures (verify(ExtractToken(req).value).Parsed? && !verify(ExtractToken(req).value).valid) ==>
              Authorize(req, verify) == Abort(StatusUnauthorized, "Invalid token")
  {
  }

  /** The header cases of the middleware's own test, with a verifier that
      rejects "token" and "" as malformed and accepts `good` for user 1. */
  lemma BearerWordTokenRejected(verify: string -> ParseResult)
    requires verify("token") == OtherError
    ensures Authorize(Request(None, "Bearer token"), verify) == Abort(StatusBadRequest, "Invalid token")
  {
    HeaderToken("Bearer", "token");
    assert "Bearer" + " " + "token" == "Bearer token";
  }

  lemma BearerAloneRejected(verify: string -> ParseResult)
    requires verify("") == OtherError
    ensures Authorize(Request(None, "Bearer "), verify) == Abort(StatusBadRequest, "Invalid token")
  {
    BearerAloneIsEmptyToken();
  }

  lemma SingleWordRejected(verify: string -> ParseResult)
    ensures Authorize(Request(None, "token"), verify) == Abort(StatusBadRequest, MalformedHeader)
  {
    SplitNoSep("token", ' ');
  }

  lemma SignedTokenAccepted(good: string, verify: string -> ParseResult)
    requires ' ' !in good && verify(good) == Parsed(true, 1)
    ensures Authorize(Request(None, "Bearer " + good), verify) == Continue(1)
  {
    HeaderToken("Bearer", good);
    assert "Bearer" + " " + good == "Bearer " + good;
  }
}
