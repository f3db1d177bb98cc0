/** The account endpoints after input parsing: each handler is a pure
    function from the request and the user table to a response, the new user
    table, and the identity-provider call it makes. Provider results are
    parameters (`true` when the call succeeds). */
module Views {
  import opened Options
  import opened Strings
  import opened Users
  import opened Exceptions
  import opened Authentication
  import opened Validators

  /** The response envelope `{status, message, data?}` and its HTTP status. */
  datatype Response = Response(status: int, success: bool, message: string, user: Option<User>)

  function Fail(status: int, message: string): Response {
    Response(status, false, message, None)
  }

  /** The identity-provider account call a handler makes, if any. */
  datatype ProviderCall = NoCall | DeleteAccount(uid: string) | UpdateAccountEmail(uid: string, email: string)

  /** What a handler produces. */
  datatype Effect = Effect(response: Response, store: Store, call: ProviderCall)

  const InvalidTokenMessage := "Invalid authentication token provided."
  const NoSuchUserMessage := "User does not exist."
  const InvalidEmailMessage := "Enter a valid email address."
  const RequiredFieldsMessage := "new email and firebase uid are required."
  /** The body of the framework's 500 page, sent when an exception escapes a view. */
  const ServerErrorMessage := "Server Error (500)"

  // ---------------------------------------------------------------------
  // Token and record lookup shared by the `<pk>/` handlers
  // ---------------------------------------------------------------------

  /** The handlers' own re-verification of the bearer token. */
  datatype ViewToken = BadToken | UidFromToken(uid: Option<string>)

  /** `request.META.get('HTTP_AUTHORIZATION').split(' ').pop()`, verified, then
      `.get('uid')`; a missing header fails on `None.split`. */
  function ViewTokenUid(header: Option<string>, verify: Verifier): (t: ViewToken)
    ensures t.BadToken? <==> header.None? || verify(BearerToken(header.value)).Rejected?
    ensures t.UidFromToken? ==> t.uid == UidClaim(verify(BearerToken(header.value)).claims)
  {
    match header
    case None => BadToken
    case Some(h) =>
      match verify(BearerToken(h))
      case Rejected => BadToken
      case Verified(claims) => UidFromToken(UidClaim(claims))
  }

  /** Result of `User.objects.get(pk=pk, firebase_uid=uid)`. */
  datatype Lookup = Found(user: User) | DoesNotExist | BadQuery

  /** The record with primary key `pk` AND `firebase_uid` `uid`. A `pk` that is
      not an integer makes the query itself fail; a missing uid matches no
      record, since every stored record has one. */
  function LookupOwned(store: Store, pk: Option<int>, uid: Option<string>): (r: Lookup)
    ensures r.BadQuery? <==> pk.None?
    ensures r.Found? ==> r.user in store.Values && Some(r.user.id) == pk
    ensures r.Found? ==> uid.Some? && uid.value in store && store[uid.value] == r.user
    ensures WellFormed(store) ==>
      (r.Found? <==> pk.Some? && exists u :: u in store.Values && u.id == pk.value && Some(u.firebaseUid) == uid)
    ensures WellFormed(store) && r.Found? ==> Some(r.user.firebaseUid) == uid
  {
    if pk.None? then BadQuery
    else if uid.Some? && uid.value in store && store[uid.value].id == pk.value then Found(store[uid.value])
    else DoesNotExist
  }

  // ---------------------------------------------------------------------
  // GET <pk>/
  // ---------------------------------------------------------------------

  /** `RetrieveUpdateDestroyExistingUser.get`. */
  function Retrieve(store: Store, header: Option<string>, verify: Verifier, pk: Option<int>): (r: Response)
    ensures r.status == HTTP_200_OK <==>
      && ViewTokenUid(header, verify).UidFromToken?
      && LookupOwned(store, pk, ViewTokenUid(header, verify).uid).Found?
    ensures r.status == HTTP_200_OK ==> r.user == Some(store[ViewTokenUid(header, verify).uid.value])
    ensures r.status == HTTP_200_OK && WellFormed(store) ==>
      && Some(r.user.value.id) == pk
      && Some(r.user.value.firebaseUid) == ViewTokenUid(header, verify).uid
    ensures r.status == HTTP_404_NOT_FOUND <==>
      && ViewTokenUid(header, verify).UidFromToken?
      && LookupOwned(store, pk, ViewTokenUid(header, verify).uid).DoesNotExist?
    ensures r.status in {HTTP_200_OK, HTTP_400_BAD_REQUEST, HTTP_404_NOT_FOUND}
  {
    match ViewTokenUid(header, verify)
    case BadToken => Fail(HTTP_400_BAD_REQUEST, InvalidTokenMessage)
    case UidFromToken(uid) =>
      match LookupOwned(store, pk, uid)
      case DoesNotExist => Fail(HTTP_404_NOT_FOUND, NoSuchUserMessage)
      case BadQuery => Fail(HTTP_400_BAD_REQUEST, NoSuchUserMessage)
      case Found(user) => Response(HTTP_200_OK, true, "User retrieved successfully.", Some(user))
  }

  // ---------------------------------------------------------------------
  // PATCH <pk>/
  // ---------------------------------------------------------------------

  // The request body is a JSON object read as its key/value pairs in text
  // order. Parsed into a dict, a repeated key keeps the position of its
  // first occurrence and the value of its last.

  /** `data.keys()` of the parsed body: each key once, in the order of its
      first occurrence. */
  function Keys(data: seq<(string, string)>): (keys: seq<string>)
    ensures forall k :: k in keys <==> exists i :: 0 <= i < |data| && data[i].0 == k
    ensures forall i, j :: 0 <= i < j < |keys| ==> keys[i] != keys[j]
    ensures |keys| <= |data|
  {
    if |data| == 0 then []
    else
      var init := data[..|data| - 1];
      var key := data[|data| - 1].0;
      var keys := Keys(init);
      assert forall i :: 0 <= i < |init| ==> init[i] == data[i];
      if key in keys then keys else keys + [key]
  }

  /** More body text never reorders the keys already seen: they stay a
      prefix, so the keys come in order of first occurrence. */
  lemma {:induction false} KeysPrefix(data: seq<(string, string)>, more: seq<(string, string)>)
    ensures Keys(data) <= Keys(data + more)
    decreases |more|
  {
    if |more| == 0 {
      assert data + more == data;
    } else {
      var init := more[..|more| - 1];
      KeysPrefix(data, init);
      assert (data + more)[..|data + more| - 1] == data + init;
    }
  }

  /** A body without repeated keys lists its keys exactly as written. */
  lemma {:induction false} KeysOfDistinctBody(data: seq<(string, string)>)
    requires forall i, j :: 0 <= i < j < |data| ==> data[i].0 != data[j].0
    ensures |Keys(data)| == |data|
    ensures forall i :: 0 <= i < |data| ==> Keys(data)[i] == data[i].0
    decreases |data|
  {
    if |data| > 0 {
      var init := data[..|data| - 1];
      KeysOfDistinctBody(init);
    }
  }

  /** One body pair applied by the serializer: `first_name` and `last_name`
      overwrite their field with the value stripped of surrounding whitespace
      (the text fields' default trimming), and no other key changes the record. */
  function ApplyName(user: User, pair: (string, string)): User {
    if pair.0 == "first_name" then user.(firstName := Strip(pair.1))
    else if pair.0 == "last_name" then user.(lastName := Strip(pair.1))
    else user
  }

  /** The serializer's partial update: the body's pairs applied in order, so the
      last value of a repeated key wins, as it does in the parsed dict. */
  function ApplyNames(user: User, data: seq<(string, string)>): (u: User)
    ensures u.id == user.id && u.firebaseUid == user.firebaseUid
    ensures u.email == user.email && u.isActive == user.isActive
    decreases |data|
  {
    if |data| == 0 then user else ApplyNames(ApplyName(user, data[0]), data[1..])
  }

  /** The value of the last pair in `data` whose key is `key`, if any. */
  function LastValue(data: seq<(string, string)>, key: string): (v: Option<string>)
    ensures v.None? <==> forall i :: 0 <= i < |data| ==> data[i].0 != key
    ensures v.Some? ==> (key, v.value) in data
  {
    if |data| == 0 then None
    else if data[|data| - 1].0 == key then Some(data[|data| - 1].1)
    else
      var v := LastValue(data[..|data| - 1], key);
      assert forall i :: 0 <= i < |data| - 1 ==> data[..|data| - 1][i] == data[i];
      v
  }

  /** What a name field holds after the update: the stripped last value the
      body gives it, or the current value when the body does not name it. */
  function NewName(data: seq<(string, string)>, key: string, current: string): string {
    var v := LastValue(data, key);
    if v.Some? then Strip(v.value) else current
  }

  /** Appending one pair to the body applies it after all the others. */
  lemma {:induction false} ApplyNamesSnoc(user: User, data: seq<(string, string)>, pair: (string, string))
    ensures ApplyNames(user, data + [pair]) == ApplyName(ApplyNames(user, data), pair)
    decreases |data|
  {
    if |data| == 0 {
      assert data + [pair] == [pair];
    } else {
      assert (data + [pair])[0] == data[0];
      assert (data + [pair])[1..] == data[1..] + [pair];
      ApplyNamesSnoc(ApplyName(user, data[0]), data[1..], pair);
    }
  }

  /** What the partial update writes: each name becomes the stripped value
      of the last pair carrying it, or stays when the body does not mention
      it; every other field is kept. */
  lemma {:induction false} ApplyNamesTakesLastValues(user: User, data: seq<(string, string)>)
    ensures ApplyNames(user, data) ==
      user.(firstName := NewName(data, "first_name", user.firstName),
            lastName := NewName(data, "last_name", user.lastName))
    decreases |data|
  {
    if |data| > 0 {
      var init, pair := data[..|data| - 1], data[|data| - 1];
      assert data == init + [pair];
      ApplyNamesSnoc(user, init, pair);
      ApplyNamesTakesLastValues(user, init);
    }
  }

  /** `RetrieveUpdateDestroyExistingUser.patch`. `serializerValid` is the
      serializer's field validation, which is not modelled. */
  function Patch(store: Store, header: Option<string>, verify: Verifier, pk: Option<int>,
                 data: seq<(string, string)>, serializerValid: bool): (r: Effect)
    ensures r.call == NoCall
    ensures r.store.Keys == store.Keys
    ensures InvalidKeys(Keys(data)) != [] ==> r.store == store
    ensures r.store != store ==> r.response.status == HTTP_200_OK && InvalidKeys(Keys(data)) == []
    ensures forall u :: u in store && r.store[u] != store[u] ==> ViewTokenUid(header, verify) == UidFromToken(Some(u))
    ensures forall u :: u in store ==>
      && r.store[u].id == store[u].id && r.store[u].firebaseUid == store[u].firebaseUid
      && r.store[u].email == store[u].email && r.store[u].isActive == store[u].isActive
    ensures r.response.status == HTTP_200_OK <==>
      && ViewTokenUid(header, verify).UidFromToken?
      && LookupOwned(store, pk, ViewTokenUid(header, verify).uid).Found?
      && InvalidKeys(Keys(data)) == []
      && serializerValid
    ensures r.response.status == HTTP_200_OK ==>
      var uid := ViewTokenUid(header, verify).uid.value;
      && r.store == store[uid := ApplyNames(store[uid], data)]
      && r.response.user == Some(r.store[uid])
    ensures
      (&& ViewTokenUid(header, verify).UidFromToken?
       && LookupOwned(store, pk, ViewTokenUid(header, verify).uid).Found?
       && InvalidKeys(Keys(data)) != []) ==>
      r.response == Fail(HTTP_400_BAD_REQUEST, WhitelistMessage(InvalidKeys(Keys(data))))
    ensures
      (&& ViewTokenUid(header, verify).UidFromToken?
       && LookupOwned(store, pk, ViewTokenUid(header, verify).uid).Found?
       && InvalidKeys(Keys(data)) == []
       && !serializerValid) ==>
      r.response == Fail(HTTP_400_BAD_REQUEST, "User update failed.")
    ensures r.response.status == HTTP_404_NOT_FOUND <==>
      && ViewTokenUid(header, verify).UidFromToken?
      && LookupOwned(store, pk, ViewTokenUid(header, verify).uid).DoesNotExist?
    ensures r.response.status == HTTP_400_BAD_REQUEST <==>
      || ViewTokenUid(header, verify).BadToken?
      || pk.None?
      || (&& LookupOwned(store, pk, ViewTokenUid(header, verify).uid).Found?
          && (InvalidKeys(Keys(data)) != [] || !serializerValid))
    ensures r.response.status in {HTTP_200_OK, HTTP_400_BAD_REQUEST, HTTP_404_NOT_FOUND}
    ensures WellFormed(store) ==> WellFormed(r.store)
  {
    match ViewTokenUid(header, verify)
    case BadToken => Effect(Fail(HTTP_400_BAD_REQUEST, InvalidTokenMessage), store, NoCall)
    case UidFromToken(uid) =>
      match LookupOwned(store, pk, uid)
      case DoesNotExist => Effect(Fail(HTTP_404_NOT_FOUND, NoSuchUserMessage), store, NoCall)
      case BadQuery => Effect(Fail(HTTP_400_BAD_REQUEST, NoSuchUserMessage), store, NoCall)
      case Found(user) =>
        var bad := InvalidKeys(Keys(data));
        if bad != [] then Effect(Fail(HTTP_400_BAD_REQUEST, WhitelistMessage(bad)), store, NoCall)
        else if !serializerValid then Effect(Fail(HTTP_400_BAD_REQUEST, "User update failed."), store, NoCall)
        else
          var updated := ApplyNames(user, data);
          Effect(Response(HTTP_200_OK, true, "User updated successfully.", Some(updated)),
                 store[uid.value := updated], NoCall)
  }

  /** The record lookup comes first: a caller without a matching record gets
      404 whatever fields the body names. */
  lemma PatchLooksUpBeforeWhitelist(store: Store, header: Option<string>, verify: Verifier, pk: Option<int>,
                                    data: seq<(string, string)>, serializerValid: bool)
    requires ViewTokenUid(header, verify).UidFromToken?
    requires LookupOwned(store, pk, ViewTokenUid(header, verify).uid).DoesNotExist?
    ensures Patch(store, header, verify, pk, data, serializerValid).response == Fail(HTTP_404_NOT_FOUND, NoSuchUserMessage)
  {
  }

  /** `{"role": "admin"}` on the caller's own record is answered 400 naming
      `role`, and nothing is saved. */
  lemma PatchRoleRejected(store: Store, header: Option<string>, verify: Verifier, pk: Option<int>,
                          serializerValid: bool)
    requires ViewTokenUid(header, verify).UidFromToken?
    requires LookupOwned(store, pk, ViewTokenUid(header, verify).uid).Found?
    ensures var r := Patch(store, header, verify, pk, [("role", "admin")], serializerValid);
      && r.response == Fail(HTTP_400_BAD_REQUEST, "Only 'first_name', 'last_name', can be updated. Invalid field(s): role")
      && r.store == store
  {
    assert Keys([("role", "admin")]) == ["role"];
    assert InvalidKeys(["role"]) == ["role"];
  }

  /** A disallowed key written twice in the body is named once, since the
      parsed body holds each key once. */
  lemma PatchRepeatedKeyNamedOnce(store: Store, header: Option<string>, verify: Verifier, pk: Option<int>,
                                  serializerValid: bool)
    requires ViewTokenUid(header, verify).UidFromToken?
    requires LookupOwned(store, pk, ViewTokenUid(header, verify).uid).Found?
    ensures var r := Patch(store, header, verify, pk, [("role", "a"), ("role", "b")], serializerValid);
      && r.response == Fail(HTTP_400_BAD_REQUEST, "Only 'first_name', 'last_name', can be updated. Invalid field(s): role")
      && r.store == store
  {
    var data := [("role", "a"), ("role", "b")];
    assert data[..1] == [("role", "a")];
    assert [("role", "a")][..0] == [];
    assert Keys(data) == ["role"];
    assert InvalidKeys(["role"]) == ["role"];
  }

  // ---------------------------------------------------------------------
  // DELETE <pk>/
  // ---------------------------------------------------------------------

  /** `RetrieveUpdateDestroyExistingUser.delete`: the local record goes only
      after the provider account has been deleted. */
  function Delete(store: Store, header: Option<string>, verify: Verifier, pk: Option<int>,
                  providerDeleteOk: bool): (r: Effect)
    ensures r.call != NoCall ==>
      && ViewTokenUid(header, verify).UidFromToken?
      && LookupOwned(store, pk, ViewTokenUid(header, verify).uid).Found?
      && r.call == DeleteAccount(ViewTokenUid(header, verify).uid.value)
    ensures !providerDeleteOk ==> r.store == store
    ensures r.store != store ==>
      && providerDeleteOk
      && r.call.DeleteAccount?
      && r.store == store - {r.call.uid}
      && r.response.status == HTTP_204_NO_CONTENT
    ensures
      (&& ViewTokenUid(header, verify).UidFromToken?
       && LookupOwned(store, pk, ViewTokenUid(header, verify).uid).Found?) ==>
      r.call == DeleteAccount(ViewTokenUid(header, verify).uid.value)
    ensures r.response.status == HTTP_204_NO_CONTENT <==>
      && ViewTokenUid(header, verify).UidFromToken?
      && LookupOwned(store, pk, ViewTokenUid(header, verify).uid).Found?
      && providerDeleteOk
    ensures r.response.status == HTTP_404_NOT_FOUND <==>
      && ViewTokenUid(header, verify).UidFromToken?
      && (|| LookupOwned(store, pk, ViewTokenUid(header, verify).uid).DoesNotExist?
          || (LookupOwned(store, pk, ViewTokenUid(header, verify).uid).Found? && !providerDeleteOk))
    ensures r.response.status == HTTP_400_BAD_REQUEST <==>
      ViewTokenUid(header, verify).BadToken? || pk.None?
    ensures r.response.status in {HTTP_204_NO_CONTENT, HTTP_400_BAD_REQUEST, HTTP_404_NOT_FOUND}
    ensures WellFormed(store) ==> WellFormed(r.store)
  {
    match ViewTokenUid(header, verify)
    case BadToken => Effect(Fail(HTTP_400_BAD_REQUEST, InvalidTokenMessage), store, NoCall)
    case UidFromToken(uid) =>
      match LookupOwned(store, pk, uid)
      case DoesNotExist => Effect(Fail(HTTP_404_NOT_FOUND, NoSuchUserMessage), store, NoCall)
      case BadQuery => Effect(Fail(HTTP_400_BAD_REQUEST, NoSuchUserMessage), store, NoCall)
      case Found(user) =>
        if !providerDeleteOk then
          Effect(Fail(HTTP_404_NOT_FOUND, "User does not exist on firebase."), store, DeleteAccount(uid.value))
        else
          Effect(Response(HTTP_204_NO_CONTENT, true, "User deleted successfully.", None),
                 store - {uid.value}, DeleteAccount(uid.value))
  }

  /** Fail-closed: when the provider deletion fails the answer is 404 and the
      local record stays; when it succeeds the record is gone. */
  lemma DeleteFailClosed(store: Store, header: Option<string>, verify: Verifier, pk: Option<int>)
    requires ViewTokenUid(header, verify).UidFromToken?
    requires LookupOwned(store, pk, ViewTokenUid(header, verify).uid).Found?
    ensures var r := Delete(store, header, verify, pk, false);
      r.response.status == HTTP_404_NOT_FOUND && r.store == store
    ensures var r := Delete(store, header, verify, pk, true);
      r.response.status == HTTP_204_NO_CONTENT && ViewTokenUid(header, verify).uid.value !in r.store
  {
  }

  /** A successful PATCH is visible to the next GET by the same caller: it
      returns the record the PATCH answered with. */
  lemma RetrieveSeesPatch(store: Store, header: Option<string>, verify: Verifier, pk: Option<int>,
                          data: seq<(string, string)>, serializerValid: bool)
    requires Patch(store, header, verify, pk, data, serializerValid).response.status == HTTP_200_OK
    ensures var p := Patch(store, header, verify, pk, data, serializerValid);
      var g := Retrieve(p.store, header, verify, pk);
      g.status == HTTP_200_OK && g.user == p.response.user
  {
  }

  /** After a successful DELETE the same caller's GET finds no record. */
  lemma RetrieveAfterDelete(store: Store, header: Option<string>, verify: Verifier, pk: Option<int>,
                            providerDeleteOk: bool)
    requires Delete(store, header, verify, pk, providerDeleteOk).response.status == HTTP_204_NO_CONTENT
    ensures Retrieve(Delete(store, header, verify, pk, providerDeleteOk).store, header, verify, pk).status
         == HTTP_404_NOT_FOUND
  {
  }

  // ---------------------------------------------------------------------
  // PATCH auth/update-email-address/
  // ---------------------------------------------------------------------

  /** `UpdateUserEmailAddressView.patch`. The uid comes from the request body.
      When the provider update succeeds but no local record has the uid, the
      view makes a compensating provider call from inside its exception
      handler; `rollbackReturns` says whether that call returns normally
      (404) or raises, in which case the exception escapes the view (500). */
  function UpdateEmail(store: Store, email: Option<string>, uid: Option<string>,
                       providerUpdateOk: bool, rollbackReturns: bool): (r: Effect)
    ensures r.call != NoCall <==> Truthy(email) && Truthy(uid) && EmailPatternMatches(email.value)
    ensures r.call != NoCall ==> r.call == UpdateAccountEmail(uid.value, email.value)
    ensures r.response.status == HTTP_400_BAD_REQUEST <==>
      !(Truthy(email) && Truthy(uid) && EmailPatternMatches(email.value))
    ensures r.response.status in {HTTP_200_OK, HTTP_400_BAD_REQUEST, HTTP_404_NOT_FOUND, HTTP_500_INTERNAL_SERVER_ERROR}
    ensures r.response.message == RequiredFieldsMessage <==> !(Truthy(email) && Truthy(uid))
    ensures r.response.message == InvalidEmailMessage <==>
      Truthy(email) && Truthy(uid) && !EmailPatternMatches(email.value)
    ensures r.response.status == HTTP_404_NOT_FOUND <==>
      && Truthy(email) && Truthy(uid) && EmailPatternMatches(email.value)
      && (!providerUpdateOk || (uid.value !in store && rollbackReturns))
    ensures r.response.status == HTTP_500_INTERNAL_SERVER_ERROR <==>
      && Truthy(email) && Truthy(uid) && EmailPatternMatches(email.value)
      && providerUpdateOk && uid.value !in store && !rollbackReturns
    ensures r.response.status == HTTP_200_OK <==>
      Truthy(email) && Truthy(uid) && EmailPatternMatches(email.value) && providerUpdateOk && uid.value in store
    ensures r.response.status == HTTP_200_OK ==>
      && Truthy(uid) && Truthy(email) && uid.value in store
      && r.store == store[uid.value := store[uid.value].(email := email.value)]
    ensures r.response.status != HTTP_200_OK ==> r.store == store
    ensures WellFormed(store) ==> WellFormed(r.store)
  {
    EmailShapeIffPattern(ValueOr(email, ""));
    if !(Truthy(email) && Truthy(uid)) then
      Effect(Fail(HTTP_400_BAD_REQUEST, RequiredFieldsMessage), store, NoCall)
    else if !IsEmailShaped(email.value) then
      Effect(Fail(HTTP_400_BAD_REQUEST, InvalidEmailMessage), store, NoCall)
    else
      var call := UpdateAccountEmail(uid.value, email.value);
      if !providerUpdateOk then Effect(Fail(HTTP_404_NOT_FOUND, NoSuchUserMessage), store, call)
      else if uid.value in store then
        Effect(Response(HTTP_200_OK, true, "User email updated successfully.", None),
               store[uid.value := store[uid.value].(email := email.value)], call)
      else if rollbackReturns then Effect(Fail(HTTP_404_NOT_FOUND, NoSuchUserMessage), store, call)
      else Effect(Fail(HTTP_500_INTERNAL_SERVER_ERROR, ServerErrorMessage), store, call)
  }

  // ---------------------------------------------------------------------
  // GET auth/reset-password/?email=
  // ---------------------------------------------------------------------

  /** `UserPasswordResetView.get`. The email shape is checked only when an
      email is supplied; the lookup `User.objects.get(email=email)` finds no
      record for a missing email, and raises an exception that escapes the
      view (500) when several records share it. `enqueueOk` says whether
      queueing the link task succeeded. */
  function PasswordReset(store: Store, email: Option<string>, enqueueOk: bool): (r: Response)
    ensures r.message == InvalidEmailMessage <==> Truthy(email) && !EmailPatternMatches(email.value)
    ensures r.status == HTTP_404_NOT_FOUND <==>
      && (Truthy(email) ==> EmailPatternMatches(email.value))
      && (email.None? || |UidsWithEmail(store, email.value)| == 0)
    ensures r.status == HTTP_500_INTERNAL_SERVER_ERROR <==>
      && (Truthy(email) ==> EmailPatternMatches(email.value))
      && email.Some? && |UidsWithEmail(store, email.value)| > 1
    ensures r.status == HTTP_200_OK <==>
      && (Truthy(email) ==> EmailPatternMatches(email.value))
      && email.Some? && |UidsWithEmail(store, email.value)| == 1
      && enqueueOk
    ensures r.status in {HTTP_200_OK, HTTP_400_BAD_REQUEST, HTTP_404_NOT_FOUND, HTTP_500_INTERNAL_SERVER_ERROR}
  {
    EmailShapeIffPattern(ValueOr(email, ""));
    if Truthy(email) && !IsEmailShaped(email.value) then
      Fail(HTTP_400_BAD_REQUEST, InvalidEmailMessage)
    else
      var matches := if email.None? then {} else UidsWithEmail(store, email.value);
      if |matches| == 0 then Fail(HTTP_404_NOT_FOUND, NoSuchUserMessage)
      else if |matches| > 1 then Fail(HTTP_500_INTERNAL_SERVER_ERROR, ServerErrorMessage)
      else if !enqueueOk then Fail(HTTP_400_BAD_REQUEST, "Password reset link could not be sent; Please try again.")
      else Response(HTTP_200_OK, true, "Password reset link sent successfully.", None)
  }

  // ---------------------------------------------------------------------
  // The authenticator in front of the protected views
  // ---------------------------------------------------------------------

  /** How a protected view consumes the authenticator's outcome: a raised
      error is answered with its status from the table, an anonymous request
      is refused (403), and an authenticated one reaches the handler. */
  function Guard(outcome: AuthOutcome, handler: Response): (r: Response)
    ensures outcome.Failed? ==> r.status == StatusCode(outcome.error) && r.message == RaisedDetail(outcome.error)
    ensures outcome.Authenticated? ==> r == handler
    ensures !outcome.Authenticated? ==> !r.success && 400 <= r.status < 600
  {
    match outcome
    case Failed(e) => Fail(StatusCode(e), RaisedDetail(e))
    case Anonymous => Fail(HTTP_403_FORBIDDEN, "Authentication credentials were not provided.")
    case Authenticated(_) => handler
  }

  /** A protected endpoint: the guard in front of a handler's effect. A
      request the guard stops changes nothing and calls no provider. */
  function Protect(outcome: AuthOutcome, store: Store, handler: Effect): (r: Effect)
    ensures outcome.Authenticated? ==> r == handler
    ensures !outcome.Authenticated? ==> r.store == store && r.call == NoCall && r.response == Guard(outcome, handler.response)
    ensures r.response.success || r.store != store || r.call != NoCall ==> outcome.Authenticated?
  {
    if outcome.Authenticated? then handler else Effect(Guard(outcome, handler.response), store, NoCall)
  }

  /** The update-email endpoint does not relate the body's `firebase_uid` to
      the caller: any two authenticated callers get the same effect, so any
      authenticated user can change the email of any account. */
  lemma UpdateEmailIgnoresCaller(store: Store, h1: Option<string>, h2: Option<string>, verify: Verifier,
                                 email: Option<string>, uid: Option<string>,
                                 providerUpdateOk: bool, rollbackReturns: bool)
    requires Authenticate(h1, verify, store).Authenticated?
    requires Authenticate(h2, verify, store).Authenticated?
    ensures Protect(Authenticate(h1, verify, store), store, UpdateEmail(store, email, uid, providerUpdateOk, rollbackReturns))
         == Protect(Authenticate(h2, verify, store), store, UpdateEmail(store, email, uid, providerUpdateOk, rollbackReturns))
  {
  }

  /** Behind the authenticator, a DELETE that changes the table removes the
      authenticated caller's own record and nothing else. */
  lemma ProtectedDeleteRemovesOnlyCaller(store: Store, header: Option<string>, verify: Verifier, pk: Option<int>,
                                         providerDeleteOk: bool)
    requires WellFormed(store)
    ensures var a := Authenticate(header, verify, store);
      var r := Protect(a, store, Delete(store, header, verify, pk, providerDeleteOk));
      r.store != store ==> a.Authenticated? && r.store == store - {a.user.firebaseUid}
  {
  }

  /** Behind the authenticator, every record a PATCH changes is the
      authenticated caller's own. */
  lemma ProtectedPatchChangesOnlyCaller(store: Store, header: Option<string>, verify: Verifier, pk: Option<int>,
                                        data: seq<(string, string)>, serializerValid: bool)
    requires WellFormed(store)
    ensures var a := Authenticate(header, verify, store);
      var r := Protect(a, store, Patch(store, header, verify, pk, data, serializerValid));
      forall u :: u in store && r.store[u] != store[u] ==> a.Authenticated? && u == a.user.firebaseUid
  {
  }

  /** A caller authenticated as one account changes another account's email:
      a body naming any stored uid, with a pattern-valid email, is answered
      200 once the provider update succeeds, and that record's email is
      rewritten. */
  lemma CrossAccountEmailWrite(store: Store, header: Option<string>, verify: Verifier,
                               other: string, email: string, rollbackReturns: bool)
    requires Authenticate(header, verify, store).Authenticated?
    requires other in store && other != Authenticate(header, verify, store).user.firebaseUid
    requires other != "" && email != "" && EmailPatternMatches(email)
    ensures var r := Protect(Authenticate(header, verify, store), store,
                             UpdateEmail(store, Some(email), Some(other), true, rollbackReturns));
      r.response.status == HTTP_200_OK && r.store[other].email == email
  {
  }
}
