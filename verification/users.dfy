/** The local user table: one record per account of the identity provider,
    keyed by the provider's subject identifier (`firebase_uid`, unique). */
module Users {

  /** A local user record. The password hash is not modelled. */
  datatype User = User(
    id: int,
    firebaseUid: string,
    email: string,
    firstName: string,
    lastName: string,
    isActive: bool)

  /** The user table, keyed by `firebase_uid`. */
  type Store = map<string, User>

  /** Every record sits under its own `firebase_uid`, and primary keys are unique. */
  ghost predicate WellFormed(store: Store) {
    && (forall u :: u in store ==> store[u].firebaseUid == u)
    && (forall u, v :: u in store && v in store && store[u].id == store[v].id ==> u == v)
  }

  /** The `firebase_uid`s of all records whose email is `email`
      (the rows `User.objects.get(email=...)` would see). */
  function UidsWithEmail(store: Store, email: string): (uids: set<string>)
    ensures forall u :: u in uids <==> u in store && store[u].email == email
  {
    set u | u in store && store[u].email == email
  }
}
