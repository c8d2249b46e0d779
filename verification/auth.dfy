/** The Authenticator: the `authUser` Express middleware. The request's
    `Authorization` header and the three collaborators it awaits (the base64
    decoder, the user lookup and the password check) are inputs; the outcome
    records what the middleware leaves in `req.currentUser`, whether it called
    `next()` or answered, and what it logged. */
module Auth {
  import opened JsString
  import opened Credentials

  /** A row of the Users table. `password` holds the stored hash. */
  datatype User = User(id: nat, firstName: string, lastName: string,
                       emailAddress: string, password: string)

  /** What a step of the try block can throw. */
  datatype Exception =
    | InvalidArgType          // `Buffer.from(undefined, 'base64')`
    | Failed(detail: string)  // a rejection from the lookup or the hash check

  /** An awaited call that either returns or throws. */
  datatype Attempt<+T> = Returned(value: T) | Threw(error: Exception)

  /** The collaborators: the base64 decoder (`Buffer.from(s, 'base64').toString()`,
      which accepts any string), `User.findOne` on `emailAddress`, and
      `bcrypt.compare(password, hash)`. */
  datatype Env = Env(decode: string -> string,
                     findOne: string -> Attempt<Option<User>>,
                     compare: (Option<string>, string) -> Attempt<bool>)

  /** A JSON body `{message: ...}`. */
  datatype Body = Body(message: string)

  datatype Response = CalledNext | Sent(status: int, body: Body)

  /** `console.warn(text)` or `console.error(prefix, error)`. */
  datatype LogEntry = Warn(text: string) | Error(prefix: string, error: Exception)

  /** The value of `req.currentUser` afterwards, the response, and the log. */
  datatype Outcome = Outcome(currentUser: Option<User>, response: Response, log: seq<LogEntry>)

  const AccessDenied := Body("Access Denied")
  const ErrorLabel := "Authentication error:"
  const ErrorMessage := "Error occured during authentication"
  const MissingHeaderMessage := "Authorization header not found"

  function UserNotFoundMessage(email: string): string {
    "User not found for email: " + email
  }

  function AuthFailureMessage(email: string): string {
    "Authentication failure for email: " + email
  }

  /** The middleware as the source has it, or with its two defects corrected:
      a missing header is rejected and the password is split as in RFC 7617. */
  datatype Variant = AsWritten | Intended

  /** The local `message` and `req.currentUser` once the try/catch is done,
      with what the catch logged. */
  datatype Settled = Settled(message: Option<string>, currentUser: Option<User>, log: seq<LogEntry>)

  /** The decoded token of a header that holds a space. */
  function Decoded(header: string, env: Env): string
    requires ' ' in header
  {
    env.decode(EncodedCredentials(header).value)
  }

  /** The credentials the middleware as written looks up and checks. */
  function Presented(header: string, env: Env): Credentials
    requires ' ' in header
  {
    SplitCredentials(Decoded(header, env))
  }

  function SplitFor(variant: Variant, decoded: string): Credentials {
    match variant
    case AsWritten => SplitCredentials(decoded)
    case Intended => SplitCredentialsRfc7617(decoded)
  }

  /** The try block: it completes with `message` and `req.currentUser` set
      (or not), or throws before assigning either. */
  function TryBlock(variant: Variant, header: Option<string>, env: Env): Attempt<Settled> {
    if !Truthy(header) then
      // As written, `message: '...'` is a label: nothing is assigned.
      Returned(Settled(if variant == AsWritten then None else Some(MissingHeaderMessage), None, []))
    else if ' ' !in header.value then
      Threw(InvalidArgType)
    else
      var c := SplitFor(variant, Decoded(header.value, env));
      match env.findOne(c.emailAddress)
      case Threw(e) => Threw(e)
      case Returned(None) => Returned(Settled(Some(UserNotFoundMessage(c.emailAddress)), None, []))
      case Returned(Some(user)) =>
        match env.compare(c.password, user.password)
        case Threw(e) => Threw(e)
        case Returned(true) => Returned(Settled(None, Some(user), []))
        case Returned(false) => Returned(Settled(Some(AuthFailureMessage(c.emailAddress)), None, []))
  }

  /** The catch: any exception sets the generic message and is logged. */
  function Catch(a: Attempt<Settled>): Settled {
    match a
    case Returned(s) => s
    case Threw(e) => Settled(Some(ErrorMessage), None, [Error(ErrorLabel, e)])
  }

  /** The final `if (message)`: warn and answer 401, or call `next()`. */
  function Run(variant: Variant, header: Option<string>, env: Env): Outcome {
    var s := Catch(TryBlock(variant, header, env));
    if Truthy(s.message) then
      Outcome(s.currentUser, Sent(401, AccessDenied), s.log + [Warn(s.message.value)])
    else
      Outcome(s.currentUser, CalledNext, s.log)
  }

  /** `authUser` as written. Every answer is 401 with the generic body and
      binds no user, the specific reason going only to the log; a bound user
      always goes on to `next()` with nothing logged. */
  function AuthUser(header: Option<string>, env: Env): (o: Outcome)
    ensures o.response.Sent? ==> o.response == Sent(401, AccessDenied) && o.currentUser.None?
    ensures o.response.Sent? ==> |o.log| >= 1 && o.log[|o.log| - 1].Warn?
    ensures o.currentUser.Some? ==> o.response == CalledNext
    ensures o.response == CalledNext ==> o.log == []
  {
    Run(AsWritten, header, env)
  }

  /** A user is bound exactly when the header carries a token, the lookup
      on the email before the first colon returns that user, and the
      password check on the segment after it returns true. */
  lemma AuthenticatedIff(header: Option<string>, env: Env, u: User)
    ensures AuthUser(header, env).currentUser == Some(u) <==>
      && Truthy(header) && ' ' in header.value
      && env.findOne(Presented(header.value, env).emailAddress) == Returned(Some(u))
      && env.compare(Presented(header.value, env).password, u.password) == Returned(true)
  {
  }

  /** An unknown email is answered 401 and only the log names the reason. */
  lemma RejectedWhenNotFound(header: string, env: Env)
    requires ' ' in header
    requires env.findOne(Presented(header, env).emailAddress) == Returned(None)
    ensures AuthUser(Some(header), env) ==
      Outcome(None, Sent(401, AccessDenied), [Warn(UserNotFoundMessage(Presented(header, env).emailAddress))])
  {
  }

  /** A failed password check is answered 401 in the same way. */
  lemma RejectedWhenMismatch(header: string, env: Env, u: User)
    requires ' ' in header
    requires env.findOne(Presented(header, env).emailAddress) == Returned(Some(u))
    requires env.compare(Presented(header, env).password, u.password) == Returned(false)
    ensures AuthUser(Some(header), env) ==
      Outcome(None, Sent(401, AccessDenied), [Warn(AuthFailureMessage(Presented(header, env).emailAddress))])
  {
  }

  /** A non-empty header without a space leaves the encoded part
      `undefined`; decoding it throws and the request is answered 401. */
  lemma MissingTokenRejected(header: string, env: Env)
    requires |header| > 0 && ' ' !in header
    ensures AuthUser(Some(header), env) ==
      Outcome(None, Sent(401, AccessDenied), [Error(ErrorLabel, InvalidArgType), Warn(ErrorMessage)])
  {
  }

  /** A lookup that throws is answered 401, the exception logged. */
  lemma LookupErrorRejected(header: string, env: Env, e: Exception)
    requires ' ' in header
    requires env.findOne(Presented(header, env).emailAddress) == Threw(e)
    ensures AuthUser(Some(header), env) ==
      Outcome(None, Sent(401, AccessDenied), [Error(ErrorLabel, e), Warn(ErrorMessage)])
  {
  }

  /** A password check that throws is answered 401, the exception logged. */
  lemma VerifyErrorRejected(header: string, env: Env, u: User, e: Exception)
    requires ' ' in header
    requires env.findOne(Presented(header, env).emailAddress) == Returned(Some(u))
    requires env.compare(Presented(header, env).password, u.password) == Threw(e)
    ensures AuthUser(Some(header), env) ==
      Outcome(None, Sent(401, AccessDenied), [Error(ErrorLabel, e), Warn(ErrorMessage)])
  {
  }

  /** A missing (or empty) header is never rejected: the middleware calls
      `next()` with no user bound and logs nothing, and this is the only way
      to reach `next()` without a user. */
  lemma AbsentHeaderFallsThrough(header: Option<string>, env: Env)
    ensures AuthUser(header, env) == Outcome(None, CalledNext, []) <==> !Truthy(header)
    ensures AuthUser(header, env).response == CalledNext && AuthUser(header, env).currentUser.None?
        <==> !Truthy(header)
  {
    if Truthy(header) && ' ' in header.value {
      var c := Presented(header.value, env);
      assert |UserNotFoundMessage(c.emailAddress)| > 0;
      assert |AuthFailureMessage(c.emailAddress)| > 0;
    }
  }

  /** The scheme word is never checked: any word before the first space
      gives the same outcome. */
  lemma SchemeWordIgnored(scheme1: string, scheme2: string, rest: string, env: Env)
    requires ' ' !in scheme1 && ' ' !in scheme2
    ensures AuthUser(Some(scheme1 + " " + rest), env) == AuthUser(Some(scheme2 + " " + rest), env)
  {
    SchemeIgnored(scheme1, scheme2, rest);
  }

  /** Without a token no collaborator is consulted. */
  lemma NoLookupWithoutToken(header: string, env1: Env, env2: Env)
    requires ' ' !in header
    ensures AuthUser(Some(header), env1) == AuthUser(Some(header), env2)
  {
  }

  /** The lookup is consulted only at the extracted email. */
  lemma LookupOnlyAtExtractedEmail(header: string, env1: Env, env2: Env)
    requires ' ' in header
    requires env1.decode == env2.decode && env1.compare == env2.compare
    requires env1.findOne(Presented(header, env1).emailAddress) == env2.findOne(Presented(header, env1).emailAddress)
    ensures AuthUser(Some(header), env1) == AuthUser(Some(header), env2)
  {
  }

  /** The password check is consulted only when the lookup found a user,
      and then only on the extracted password and that user's hash. */
  lemma VerifyOnlyWhenFound(header: string, env1: Env, env2: Env)
    requires ' ' in header
    requires env1.decode == env2.decode && env1.findOne == env2.findOne
    requires env1.findOne(Presented(header, env1).emailAddress).Returned?
      && env1.findOne(Presented(header, env1).emailAddress).value.Some?
      ==> var c := Presented(header, env1);
          var u := env1.findOne(c.emailAddress).value.value;
          env1.compare(c.password, u.password) == env2.compare(c.password, u.password)
    ensures AuthUser(Some(header), env1) == AuthUser(Some(header), env2)
  {
  }

  /** A password with a colon is checked only up to that colon: the outcome
      is that of the truncated password. */
  lemma PasswordTruncatedAtColon(enc: string, email: string, password: string, tail: string, env: Env, u: User)
    requires ' ' !in enc && ':' !in email && ':' !in password
    requires env.decode(enc) == email + ":" + password + ":" + tail
    ensures AuthUser(Some("Basic " + enc), env).currentUser == Some(u) <==>
      env.findOne(email) == Returned(Some(u)) && env.compare(Some(password), u.password) == Returned(true)
  {
    EncodedCredentialsOf("Basic", enc, "");
    assert "Basic " + enc == "Basic" + " " + enc + "";
    ExtraSegmentsDropped(email, password, tail);
  }

  /** Decoded text without a colon leaves the password `undefined`; when the
      password check throws on that, as bcrypt does for a non-string, the
      request is answered 401 whatever the stored hash. */
  lemma UndefinedPasswordRejected(header: string, env: Env)
    requires ' ' in header && ':' !in Decoded(header, env)
    requires forall h :: env.compare(None, h).Threw?
    ensures AuthUser(Some(header), env).response == Sent(401, AccessDenied)
    ensures AuthUser(Some(header), env).currentUser.None?
  {
    CredentialsWithoutColon(Decoded(header, env));
  }

  /** `User.findOne({where: {emailAddress}})` over a table: a row whose
      email equals the argument exactly, or none when no row matches. */
  function FindByEmail(table: seq<User>, email: string): (r: Option<User>)
    ensures r.Some? ==> r.value in table && r.value.emailAddress == email
    ensures r.None? <==> forall i :: 0 <= i < |table| ==> table[i].emailAddress != email
  {
    if |table| == 0 then None
    else if table[0].emailAddress == email then Some(table[0])
    else FindByEmail(table[1..], email)
  }

  /** Against a table lookup, the bound user is a row whose email is
      exactly the text before the first colon. */
  lemma BoundUserHasPresentedEmail(header: Option<string>, env: Env, table: seq<User>)
    requires forall e :: env.findOne(e) == Returned(FindByEmail(table, e))
    ensures AuthUser(header, env).currentUser.Some? ==>
      && Truthy(header) && ' ' in header.value
      && AuthUser(header, env).currentUser.value in table
      && AuthUser(header, env).currentUser.value.emailAddress == Presented(header.value, env).emailAddress
  {
    if AuthUser(header, env).currentUser.Some? {
      var c := Presented(header.value, env);
      assert env.findOne(c.emailAddress) == Returned(FindByEmail(table, c.emailAddress));
    }
  }

  /** `authUser` with a missing header rejected and the password split as
      in RFC 7617: `next()` is reached only with a bound user. */
  function AuthUserIntended(header: Option<string>, env: Env): (o: Outcome)
    ensures o.response == CalledNext <==> o.currentUser.Some?
    ensures o.response.Sent? ==> o.response == Sent(401, AccessDenied)
  {
    Run(Intended, header, env)
  }

  /** A missing or empty header is answered 401 and logged. */
  lemma IntendedRejectsMissingHeader(header: Option<string>, env: Env)
    requires !Truthy(header)
    ensures AuthUserIntended(header, env) ==
      Outcome(None, Sent(401, AccessDenied), [Warn(MissingHeaderMessage)])
  {
  }

  /** With the RFC 7617 split the whole password reaches the check, colons
      included. */
  lemma IntendedChecksWholePassword(enc: string, email: string, password: string, env: Env, u: User)
    requires ' ' !in enc && ':' !in email
    requires env.decode(enc) == email + ":" + password
    ensures AuthUserIntended(Some("Basic " + enc), env).currentUser == Some(u) <==>
      env.findOne(email) == Returned(Some(u)) && env.compare(Some(password), u.password) == Returned(true)
  {
    EncodedCredentialsOf("Basic", enc, "");
    assert "Basic " + enc == "Basic" + " " + enc + "";
    Rfc7617RoundTrip(email, password);
  }

  /** Once a header is present the two variants differ only where the
      password holds a colon. */
  lemma IntendedAgreesWithoutColonInPassword(header: string, env: Env)
    requires |header| > 0
    requires ' ' in header ==>
      var r := SplitCredentialsRfc7617(Decoded(header, env));
      r.password.None? || ':' !in r.password.value
    ensures AuthUserIntended(Some(header), env) == AuthUser(Some(header), env)
  {
    if ' ' in header {
      AgreesWithRfc7617(Decoded(header, env));
    }
  }
}
