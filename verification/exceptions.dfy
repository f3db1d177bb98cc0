/** The authentication failures the API can raise, each with its HTTP
    status and machine-readable default code. */
module Exceptions {
  import opened Options

  const HTTP_200_OK := 200
  const HTTP_204_NO_CONTENT := 204
  const HTTP_400_BAD_REQUEST := 400
  const HTTP_401_UNAUTHORIZED := 401
  const HTTP_403_FORBIDDEN := 403
  const HTTP_404_NOT_FOUND := 404
  const HTTP_500_INTERNAL_SERVER_ERROR := 500

  /** The five exception classes; a closed enumeration. */
  datatype ApiError =
    | NoAuthToken
    | InvalidAuthToken
    | ExpiredAuthToken
    | FirebaseError
    | EmailVerification

  /** The class attribute `status_code`. */
  function StatusCode(e: ApiError): int {
    match e
    case NoAuthToken => HTTP_401_UNAUTHORIZED
    case InvalidAuthToken => HTTP_401_UNAUTHORIZED
    case ExpiredAuthToken => HTTP_401_UNAUTHORIZED
    case FirebaseError => HTTP_500_INTERNAL_SERVER_ERROR
    case EmailVerification => HTTP_400_BAD_REQUEST
  }

  /** The class attribute `default_code`. */
  function DefaultCode(e: ApiError): string {
    match e
    case NoAuthToken => "no_auth_token"
    case InvalidAuthToken => "invalid_auth_token"
    case ExpiredAuthToken => "expired_auth_token"
    case FirebaseError => "no_firebase_uid"
    case EmailVerification => "email_not_verified"
  }

  /** The class attribute `default_detail`. */
  function DefaultDetail(e: ApiError): string {
    match e
    case NoAuthToken => "No authentication token provided."
    case InvalidAuthToken => "Invalid authentication token provided."
    case ExpiredAuthToken => "Expired authentication token provided."
    case FirebaseError => "The user proivded with auth token is not a firebase user. it has no firebase uid."
    case EmailVerification => "Email not verified."
  }

  /** Reads an error kind back from its default code. */
  function FromDefaultCode(code: string): (r: Option<ApiError>)
    ensures r.Some? ==> DefaultCode(r.value) == code
  {
    if code == "no_auth_token" then Some(NoAuthToken)
    else if code == "invalid_auth_token" then Some(InvalidAuthToken)
    else if code == "expired_auth_token" then Some(ExpiredAuthToken)
    else if code == "no_firebase_uid" then Some(FirebaseError)
    else if code == "email_not_verified" then Some(EmailVerification)
    else None
  }

  /** Every kind is recovered from its default code, so the five codes are
      pairwise distinct and identify the kind. */
  lemma DefaultCodeRoundTrip(e: ApiError)
    ensures FromDefaultCode(DefaultCode(e)) == Some(e)
  {
  }

  lemma DefaultCodesDistinct(e1: ApiError, e2: ApiError)
    ensures DefaultCode(e1) == DefaultCode(e2) <==> e1 == e2
  {
    DefaultCodeRoundTrip(e1);
    DefaultCodeRoundTrip(e2);
  }

  /** Exactly the three token kinds are answered with 401; an unverified email
      is a client error (400); only the provider-integrity kind is a 500. */
  lemma StatusTable(e: ApiError)
    ensures StatusCode(e) == HTTP_401_UNAUTHORIZED <==> e in {NoAuthToken, InvalidAuthToken, ExpiredAuthToken}
    ensures StatusCode(e) == HTTP_400_BAD_REQUEST <==> e == EmailVerification
    ensures StatusCode(e) == HTTP_500_INTERNAL_SERVER_ERROR <==> e == FirebaseError
    ensures 400 <= StatusCode(e) < 600
  {
  }
}
