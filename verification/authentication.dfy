/** The bearer-token authenticator: header -> token -> external verifier ->
    email-verified claim -> local user by `firebase_uid`. The verifier is an
    uninterpreted oracle and the user table is read only. */
module Authentication {
  import opened Options
  import opened Strings
  import opened Users
  import opened Exceptions

  /** A claim value of a decoded token (a JSON scalar). */
  datatype ClaimValue = CNull | CBool(b: bool) | CInt(i: int) | CStr(s: string)

  /** The decoded token: a dict from claim names to values. */
  type Claims = map<string, ClaimValue>

  /** What the external verifier answers for a token: it raises, or it returns
      the decoded claims. */
  datatype Verification = Rejected | Verified(claims: Claims)

  type Verifier = string -> Verification

  /** Result of `authenticate`: an exception, `None` (no credentials taken
      from this request), or the pair `(user, None)`. */
  datatype AuthOutcome = Failed(error: ApiError) | Anonymous | Authenticated(user: User)

  /** Python truthiness of a claim value. */
  predicate TruthyClaim(v: ClaimValue) {
    match v
    case CNull => false
    case CBool(b) => b
    case CInt(i) => i != 0
    case CStr(s) => s != ""
  }

  /** `claims.get(key)`: `None` when the claim is absent. */
  function Get(claims: Claims, key: string): ClaimValue {
    if key in claims then claims[key] else CNull
  }

  /** The `uid` claim as a lookup key. A missing, null or non-string `uid`
      matches no stored record. */
  function UidClaim(claims: Claims): Option<string> {
    match Get(claims, "uid")
    case CStr(u) => Some(u)
    case _ => None
  }

  /** The header is present and non-empty (`if not auth_header`). */
  predicate HeaderPresent(header: Option<string>) {
    header.Some? && header.value != ""
  }

  /** `auth_header.split(' ').pop()`. */
  function BearerToken(header: string): string {
    Last(Split(header, ' '))
  }

  /** The detail text each error is raised with by `authenticate`. */
  function RaisedDetail(e: ApiError): string {
    match e
    case NoAuthToken => "No authentication token provided."
    case InvalidAuthToken => "Invalid authentication token provided."
    case EmailVerification => "Email not verified. please verify your email address."
    case FirebaseError => "The user proivded with auth token is not a firebase user. it has no firebase uid."
    case ExpiredAuthToken => DefaultDetail(ExpiredAuthToken)
  }

  /** `FirebaseAuthentication.authenticate`. */
  function Authenticate(header: Option<string>, verify: Verifier, store: Store): (r: AuthOutcome)
    ensures r.Failed? ==> r.error != ExpiredAuthToken
    ensures r.Authenticated? ==> r.user in store.Values
    ensures r.Authenticated? ==> HeaderPresent(header) && verify(BearerToken(header.value)).Verified?
    ensures r.Authenticated? && WellFormed(store) ==>
              UidClaim(verify(BearerToken(header.value)).claims) == Some(r.user.firebaseUid)
  {
    if !HeaderPresent(header) then Failed(NoAuthToken)
    else
      var token := BearerToken(header.value);
      match verify(token)
      case Rejected => Failed(InvalidAuthToken)
      case Verified(claims) =>
        if token == "" || |claims| == 0 then Anonymous
        else if !TruthyClaim(Get(claims, "email_verified")) then Failed(EmailVerification)
        else
          match UidClaim(claims)
          case None => Failed(FirebaseError)
          case Some(uid) =>
            if uid in store then Authenticated(store[uid]) else Failed(FirebaseError)
  }

  /** The token handed to the verifier is the text after the last single
      space: all of the header when it has no space, empty when the header
      ends in a space. */
  lemma BearerTokenIsTextAfterLastSpace(header: string)
    ensures ' ' !in BearerToken(header)
    ensures |BearerToken(header)| <= |header|
    ensures header == header[..|header| - |BearerToken(header)|] + BearerToken(header)
    ensures |BearerToken(header)| == |header| || header[|header| - |BearerToken(header)| - 1] == ' '
    ensures BearerToken(header) == header <==> ' ' !in header
    ensures BearerToken(header) == "" <==> header == "" || header[|header| - 1] == ' '
  {
    LastPieceIsTextAfterLastSeparator(header, ' ');
    var t := BearerToken(header);
    if ' ' !in header {
      assert Split(header, ' ') == [header];
    }
    if t == header {
      assert ' ' !in header;
    }
  }

  /** Without a (non-empty) header the result is `NoAuthToken`, whatever the
      verifier would have said: it is never consulted. */
  lemma MissingHeaderSkipsVerifier(header: Option<string>, v1: Verifier, v2: Verifier, store: Store)
    requires !HeaderPresent(header)
    ensures Authenticate(header, v1, store) == Failed(NoAuthToken)
    ensures Authenticate(header, v1, store) == Authenticate(header, v2, store)
  {
  }

  /** The verifier is consulted on the bearer token only: two verifiers that
      agree on it give the same outcome. */
  lemma VerifierSeesOnlyBearerToken(header: Option<string>, v1: Verifier, v2: Verifier, store: Store)
    requires HeaderPresent(header) ==> v1(BearerToken(header.value)) == v2(BearerToken(header.value))
    ensures Authenticate(header, v1, store) == Authenticate(header, v2, store)
  {
  }

  /** Any verifier failure is `InvalidAuthToken`, whatever the store holds. */
  lemma RejectedTokenIsInvalid(header: Option<string>, verify: Verifier, store: Store)
    requires HeaderPresent(header)
    requires verify(BearerToken(header.value)).Rejected?
    ensures Authenticate(header, verify, store) == Failed(InvalidAuthToken)
  {
  }

  /** After a successful verification, an empty token or empty claims give
      `None`: no user and no error. */
  lemma EmptyTokenOrClaimsIsAnonymous(header: Option<string>, verify: Verifier, store: Store)
    requires HeaderPresent(header)
    requires verify(BearerToken(header.value)).Verified?
    requires BearerToken(header.value) == "" || |verify(BearerToken(header.value)).claims| == 0
    ensures Authenticate(header, verify, store) == Anonymous
  {
  }

  /** Claims without a truthy `email_verified` give `EmailVerification`, even
      when the store has a user for the token's uid. */
  lemma UnverifiedEmailRejected(header: Option<string>, verify: Verifier, store: Store)
    requires HeaderPresent(header)
    requires BearerToken(header.value) != ""
    requires verify(BearerToken(header.value)).Verified?
    requires |verify(BearerToken(header.value)).claims| > 0
    requires !TruthyClaim(Get(verify(BearerToken(header.value)).claims, "email_verified"))
    ensures Authenticate(header, verify, store) == Failed(EmailVerification)
  {
  }

  /** Verified claims whose uid is missing or unknown locally give `FirebaseError`. */
  lemma UnknownUidIsFirebaseError(header: Option<string>, verify: Verifier, store: Store)
    requires HeaderPresent(header)
    requires BearerToken(header.value) != ""
    requires verify(BearerToken(header.value)).Verified?
    requires |verify(BearerToken(header.value)).claims| > 0
    requires TruthyClaim(Get(verify(BearerToken(header.value)).claims, "email_verified"))
    requires UidClaim(verify(BearerToken(header.value)).claims).None?
          || UidClaim(verify(BearerToken(header.value)).claims).value !in store
    ensures Authenticate(header, verify, store) == Failed(FirebaseError)
  {
  }

  /** A request authenticates as `user` exactly when every check passes and
      `user` is the record stored under the token's uid. */
  lemma AuthenticatedIff(header: Option<string>, verify: Verifier, store: Store, user: User)
    ensures Authenticate(header, verify, store) == Authenticated(user) <==>
      && HeaderPresent(header)
      && BearerToken(header.value) != ""
      && verify(BearerToken(header.value)).Verified?
      && |verify(BearerToken(header.value)).claims| > 0
      && TruthyClaim(Get(verify(BearerToken(header.value)).claims, "email_verified"))
      && UidClaim(verify(BearerToken(header.value)).claims).Some?
      && UidClaim(verify(BearerToken(header.value)).claims).value in store
      && store[UidClaim(verify(BearerToken(header.value)).claims).value] == user
  {
  }

  /** Every failure the authenticator raises maps to 401, 400 or 500 through
      the status table, and the expired-token kind is never raised. */
  lemma FailureStatuses(header: Option<string>, verify: Verifier, store: Store)
    ensures var r := Authenticate(header, verify, store);
      r.Failed? ==> StatusCode(r.error) in {HTTP_401_UNAUTHORIZED, HTTP_400_BAD_REQUEST, HTTP_500_INTERNAL_SERVER_ERROR}
  {
  }
}
