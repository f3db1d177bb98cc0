# Firebase-backed account API: a Dafny model of its decision logic

The system is a Django REST backend. It leaves authentication to Firebase and
keeps a small local `User` table whose rows mirror Firebase accounts. Most of
the code calls the Firebase SDK, the ORM or a task queue. This project models
the three pieces of pure decision logic inside it:

- **The bearer-token authenticator** (`FirebaseAuthentication.authenticate`).
  It takes the token after the last space of the `Authorization` header and
  asks Firebase to verify it. It then requires a truthy `email_verified` claim
  and resolves the token's `uid` to a local record. The Firebase verifier is an
  uninterpreted oracle `string -> Verification`. The user table is a
  `map<string, User>` keyed by `firebase_uid`. `Authenticate` returns no table,
  so the table is unchanged on every path by construction.
- **The view-level checks and orderings**:
  - the sign-up validation chain, where the first failing check decides the message;
  - the email-shape pattern `[^@]+@[^@]+\.[^@]+`, applied with `re.match`;
  - the password-complexity pattern;
  - the PATCH field whitelist;
  - the fail-closed order of account deletion;
  - the order of checks in update-email;
  - the optional email check of password reset.
  
  Each handler is a pure function. A handler that can change the table
  returns the response, the new user table, and the Firebase account call it
  makes; retrieval and password reset return only a response. The success of
  each Firebase call or queued task is a parameter.
- **The exception table**: five error kinds, each with an HTTP status and a
  default code.

Both regular expressions are written as explicit predicates over characters.
Each pattern has two definitions. The reference definition is close to the
regex: a decomposition exists, or lookaheads plus an end anchor. The second is
the plain check. A lemma proves the two equivalent on every input.

- **Email.** `re.match` anchors only at the start, so the check accepts exactly
  when two things hold. The text before the first `@` is non-empty. The segment
  between the first `@` and the next `@` (or the end) contains a `.` that is
  neither its first nor its last character. Anything after that segment is
  ignored, so `a@b.co@x` is accepted.
- **Password.** Python's `.` does not match a newline, and `$` also matches
  before a final newline. The complexity check therefore works on the password
  without one trailing newline. That text must be newline-free, at least 8
  long, and contain an `A`–`Z`, an `a`–`z`, a digit and a symbol from
  `!@#$%^&*()_+{}[]:;<>,.?~\-`. The symbol set includes both the backslash and
  the hyphen.

Behaviour of the code worth noting:

- The token is the text after the last single space character, because the
  header is cut with `split(' ')`. Tabs and other whitespace stay in the token.
- An empty header is treated exactly like an absent one (`not auth_header`).
- `email_verified` is tested for truthiness. A non-empty string claim such as
  `"false"` therefore passes.
- A token that verifies but is empty, or whose claims dict is empty, yields
  `None`: the request is unauthenticated and no error is raised.
- The update-email endpoint takes `firebase_uid` from the request body. It
  never compares it with the caller's token, so any authenticated user can
  change any account's email (`Views.UpdateEmailIgnoresCaller`).
- A PATCH stores each name stripped of leading and trailing whitespace,
  because the serializer's text fields trim by default. A key repeated in the
  JSON body counts once: it keeps its first position and its last value.
- When update-email has changed the Firebase account but finds no local
  record, it calls a compensating delete from inside its exception handler,
  unguarded. If that call raises, the exception escapes the view and the
  answer is a 500 rather than the 404 the code spells out.

## Model

| member | source | states |
|---|---|---|
| Strings.JoinSplit | accounts/firebase_auth/firebase_authentication.py:47 | `split(' ')` loses nothing: joining its pieces with the separator gives the input back |
| Strings.SplitJoin | accounts/firebase_auth/firebase_authentication.py:47 | separator-free pieces that are joined and then split come back unchanged |
| Strings.LastPieceIsTextAfterLastSeparator | accounts/firebase_auth/firebase_authentication.py:47 | the last piece of a split is a separator-free suffix: the whole input, or the part directly after a separator |
| Authentication.BearerTokenIsTextAfterLastSpace | accounts/firebase_auth/firebase_authentication.py:47 | the verified token is the text after the last space; it is the whole header exactly when there is no space, and empty exactly when the header is empty or ends in a space |
| Authentication.Authenticate | accounts/firebase_auth/firebase_authentication.py:33-69 | never raises the expired-token kind; an authenticated user is a stored record, reached only through a verified token; on a well-formed table its `firebase_uid` equals the token's uid claim |
| Authentication.MissingHeaderSkipsVerifier | accounts/firebase_auth/firebase_authentication.py:44-46 | an absent or empty header yields `NoAuthToken`, and the outcome does not depend on the verifier |
| Authentication.VerifierSeesOnlyBearerToken | accounts/firebase_auth/firebase_authentication.py:47-52 | two verifiers that agree on the bearer token give the same outcome, so the verifier sees only that token |
| Authentication.RejectedTokenIsInvalid | accounts/firebase_auth/firebase_authentication.py:49-52 | any verifier failure yields `InvalidAuthToken`, whatever the table holds |
| Authentication.EmptyTokenOrClaimsIsAnonymous | accounts/firebase_auth/firebase_authentication.py:53-54 | an accepted empty token or empty claims give `None`: no user and no error |
| Authentication.UnverifiedEmailRejected | accounts/firebase_auth/firebase_authentication.py:56-58 | claims without a truthy `email_verified` yield `EmailVerification`, even when the table has the uid |
| Authentication.UnknownUidIsFirebaseError | accounts/firebase_auth/firebase_authentication.py:60-68 | verified claims whose uid is missing or not in the table yield `FirebaseError` |
| Authentication.AuthenticatedIff | accounts/firebase_auth/firebase_authentication.py:44-69 | a request authenticates as `u` if and only if every check passes and `u` is the record stored under the token's uid |
| Authentication.FailureStatuses | accounts/firebase_auth/firebase_authentication.py:44-68 | every error the authenticator raises maps to 401, 400 or 500 |
| Exceptions.FromDefaultCode | accounts/firebase_auth/firebase_exceptions.py:5-47 | a kind read back from a code has that code as its default code |
| Exceptions.DefaultCodeRoundTrip | accounts/firebase_auth/firebase_exceptions.py:5-47 | every kind is recovered from its default code |
| Exceptions.DefaultCodesDistinct | accounts/firebase_auth/firebase_exceptions.py:11-47 | the five default codes are pairwise distinct |
| Exceptions.StatusTable | accounts/firebase_auth/firebase_exceptions.py:5-47 | exactly the three token kinds are 401; exactly the email-verification kind is 400; exactly the provider-integrity kind is 500 |
| Validators.EmailShapeMatchesPattern | accounts/views.py:50 | every string the email check accepts has a prefix matching `[^@]+@[^@]+\.[^@]+` |
| Validators.PatternMatchIsEmailShaped | accounts/views.py:50 | every string with a prefix matching the pattern is accepted by the email check |
| Validators.EmailShapeIffPattern | accounts/views.py:50 | the email check and the pattern agree on every string |
| Validators.ComplexityIffPattern | accounts/views.py:65 | the plain complexity check agrees with the lookahead pattern on every input, trailing newline included |
| Validators.ComplexityWithoutNewlines | accounts/views.py:65 | for newline-free input, the pattern accepts exactly when the length is at least 8 and all four classes occur |
| Validators.CheckComplexity | accounts/views.py:65 | a single left-to-right pass decides the complexity pattern exactly, and agrees with the plain check |
| Validators.ValidateSignUp | accounts/views.py:40-74 | an account is created only from four present fields whose email and password match their patterns |
| Validators.SignUpFirstFailureWins | accounts/views.py:40-74 | each 400 message is chosen exactly when its check fails and all earlier checks pass; the provider is called exactly when all checks pass |
| Validators.LengthCheckOnlyChoosesMessage | accounts/views.py:57-70 | the length check only changes the message: acceptance depends on presence, email shape and complexity alone |
| Validators.SevenCharPasswordTooShort | accounts/views.py:58-63 | a 7-character password gets the length message |
| Validators.EightCharComplexPasswordAccepted | accounts/views.py:58-70 | an 8-character password with all four classes passes both password checks |
| Validators.InvalidKeys | accounts/views.py:269 | a key is reported if and only if it is in the request and is not `first_name` or `last_name` |
| Validators.InvalidKeysAppend | accounts/views.py:269 | the filter distributes over concatenation, so request order is kept |
| Validators.InvalidKeysKeepsOnlyInvalid | accounts/views.py:269 | a list of disallowed keys is reported whole and in order |
| Views.ViewTokenUid | accounts/views.py:300-309 | the view's own token check fails exactly when the header is missing or the verifier rejects the bearer token; otherwise it yields the token's `uid` claim |
| Views.LookupOwned | accounts/views.py:311-312 | on a well-formed table, a record is found if and only if one has both the given primary key and the given `firebase_uid`; a non-integer key is a query error |
| Views.Retrieve | accounts/views.py:199-232 | 200 exactly when the token verifies and the caller owns the record, and the data is the record stored under the token's uid, whose primary key is the requested one on a well-formed table; 404 exactly when the token verifies and no such record exists; otherwise 400 |
| Views.RetrieveSeesPatch | accounts/views.py:199-232 | after a successful PATCH, the same caller's GET answers 200 with the record the PATCH returned |
| Views.RetrieveAfterDelete | accounts/views.py:199-232 | after a successful DELETE, the same caller's GET answers 404 |
| Strings.Strip | accounts/serializers.py:30-35 | the name fields are text fields that trim their input: the result is the slice of the input between its leading and trailing whitespace (Python's `str.isspace` set), and neither starts nor ends with whitespace |
| Strings.StripUnique | accounts/serializers.py:30-35 | any slice with only whitespace around it and no whitespace at its ends is the stripped value, so the characterisation determines `strip` |
| Strings.StripIdempotent | accounts/serializers.py:30-35 | stripping a stripped value changes nothing |
| Views.Keys | accounts/views.py:269 | `data.keys()` of the parsed body: exactly the keys the body names, each once |
| Views.KeysPrefix | accounts/views.py:269 | further body text never reorders keys already seen, so keys come in order of first occurrence |
| Views.KeysOfDistinctBody | accounts/views.py:269 | a body without repeated keys lists its keys exactly as written |
| Views.PatchRepeatedKeyNamedOnce | accounts/views.py:268-275 | a disallowed key written twice is named once in the 400 message, and nothing is saved |
| Views.LastValue | accounts/views.py:276 | the value of the last body pair with a given key: none exactly when no pair has that key, and otherwise a value some pair carries |
| Views.ApplyNamesSnoc | accounts/views.py:276-278 | a pair appended to the body is applied after all the others |
| Views.ApplyNamesTakesLastValues | accounts/views.py:276-278 | the partial update sets each name to the whitespace-stripped value of its last pair in the body, keeps it when the body does not name it, and keeps every other field |
| Views.Patch | accounts/views.py:241-291 | 200 exactly when the token verifies, the caller owns the record, no disallowed field is named and the serializer accepts; then the record gets the partial update and is returned; 404 exactly when the token verifies and no record matches; 400 exactly for a bad token, a non-integer key, a disallowed field (named once each, in order of first occurrence, nothing saved) or a serializer rejection ("User update failed."); only the token holder's names can change; the table invariant is kept |
| Views.PatchLooksUpBeforeWhitelist | accounts/views.py:253-275 | a caller without a matching record gets 404 whatever fields the body names |
| Views.PatchRoleRejected | accounts/views.py:268-275 | `{"role": "admin"}` on the caller's own record gets 400 with a message naming `role`, and nothing is saved |
| Views.Delete | accounts/views.py:299-338 | the provider is called exactly when the token and record checks pass; a failed provider deletion changes nothing; 204 exactly when both checks pass and the provider deletion succeeds, and a local change is exactly the removal of that uid; 404 exactly when the token verifies and the record is missing or the provider deletion fails; 400 exactly for a bad token or a non-integer key; the table invariant is kept |
| Views.DeleteFailClosed | accounts/views.py:311-326 | if the provider deletion fails, the answer is 404 and the record stays; if it succeeds, the record is gone and the answer is 204 |
| Views.UpdateEmail | accounts/views.py:355-396 | the provider is called exactly when the email and uid are truthy and the email matches the pattern; 400 exactly when a validation check fails, and each 400 message exactly when its check is the first to fail; 404 exactly when the provider update fails, or no local record exists and the compensating call returns; 500 when that call raises; 200 exactly when every step succeeds, and then the record's email is written; nothing else changes the table, and the table invariant is kept |
| Views.PasswordReset | accounts/views.py:421-455 | the email-shape message appears exactly for a supplied email that fails the pattern; past that check, no email or no record gives 404, several records give 500, and exactly one record gives 200 exactly when the link task is queued |
| Views.Guard | accounts/views.py:190-191 | a raised authentication error is answered with its status from the table and its raised detail; only an authenticated request reaches the handler |
| Views.Protect | accounts/views.py:345-346 | a request the guard stops changes nothing, calls no provider and is answered as a failure; only an authenticated request can succeed, change the table or reach the provider |
| Views.ProtectedDeleteRemovesOnlyCaller | accounts/views.py:299-338 | behind the authenticator, on a well-formed table, a DELETE that changes the table removes exactly the authenticated caller's record |
| Views.ProtectedPatchChangesOnlyCaller | accounts/views.py:241-291 | behind the authenticator, on a well-formed table, every record a PATCH changes belongs to the authenticated caller |
| Views.CrossAccountEmailWrite | accounts/views.py:355-384 | a caller authenticated as one account, naming another stored uid and a pattern-valid email, gets 200 once the provider update succeeds, and the other account's email is rewritten |
| Views.UpdateEmailIgnoresCaller | accounts/views.py:355-384 | any two authenticated callers get the same update-email effect |

## Left out

- Firebase Admin SDK initialisation (accounts/firebase_auth/firebase_authentication.py:10-14) happens at process startup and is not modelled.
- Token verification itself is an external trust boundary. It is the oracle parameter `verify`.
- The `try`/`except` around `decoded_token.get('uid')` cannot fire, because `dict.get` does not raise. It is modelled as a plain lookup.
- A `uid` claim that is not a string is treated as matching no record. Django's coercion of non-string lookup values is not modelled.
- Authentication.Authenticate: the claim that the user table is unchanged is not an `ensures`. It holds by construction, since the function returns no table.
- Sign-in (accounts/views.py:140-183) is not modelled. It consists of Firebase password verification and local password hashing.
- Sign-up after validation (accounts/views.py:72-117) is not modelled: account creation at Firebase, the verification-email task, and the serializer save. The model stops at the decision to call the provider.
- The compensating deletes in sign-up (accounts/views.py:87, 104) and sign-in (accounts/views.py:178) belong to views that are not modelled. In sign-up a failing delete is caught by the outer handler and answered 400 with the exception text; in sign-in it escapes the view.
- Views.UpdateEmail: the compensating delete (accounts/views.py:391) is not recorded in `call`, which holds only the update call. Whether it returns normally is the parameter `rollbackReturns`; the model does not decide whether `user['idToken']` on the provider's reply can succeed.
- PATCH field validation by the serializer (length limits, blank values) is the boolean parameter `serializerValid`. Its response data is the updated record. Of the serializer's value normalisation only the default whitespace trimming of text fields is modelled; values are strings already, so `str()` coercion does not arise.
- ORM failures other than a non-integer primary key (for example in `user.delete()`) are not modelled.
- The `<str:pk>` route argument is an `Option<int>`. `None` stands for a value Django cannot convert to an integer.
- Request bodies are modelled as strings or missing values. JSON numbers, lists and objects in these fields are not modelled.
- `\d` is modelled as the ASCII digits `0`–`9`. Python also matches other Unicode digits.
- The display name `first_name.capitalize()`, the Celery tasks and all email sending (accounts/utils/, drf_with_firebase_auth/celery.py) are I/O and are not modelled.
- Password hashing (`check_password`, `set_password`) is external and is not modelled.
- URL routing, the Swagger schema and packaging are configuration only.
- Views.Guard: a protected view answers an anonymous (`None`) authenticator outcome with 403. This is the REST framework's own behaviour; the repository does not contain it.
- Views.PasswordReset: when several records share an email, the source raises an uncaught `MultipleObjectsReturned`. This is modelled as a 500 carrying the framework's generic error text; the error page itself is not modelled. The same holds for the uncaught exception in `Views.UpdateEmail`.
