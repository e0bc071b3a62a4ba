/**
 The one entity of the account server: a user record as kept in the
 users file, and the password-free projection the handlers send back.
 */
module Users {

  /** A stored user: five string fields, the password kept verbatim. */
  datatype UserRecord = UserRecord(
    id: string,
    name: string,
    email: string,
    password: string,
    createdAt: string)

  /** What callers are shown of a user: every field but the password. */
  datatype PublicUser = PublicUser(
    id: string,
    name: string,
    email: string,
    createdAt: string)
  {
    /** The stored record this public user comes from, given its password. */
    function WithPassword(password: string): UserRecord {
      UserRecord(id, name, email, password, createdAt)
    }
  }

  /** `{ password, ...user }`: drop the password, keep the rest. Putting
      the password back gives the record again, so nothing but the
      password is lost. */
  function ToPublic(u: UserRecord): (p: PublicUser)
    ensures p.WithPassword(u.password) == u
  {
    PublicUser(u.id, u.name, u.email, u.createdAt)
  }

  /** Two records project to the same public user exactly when they
      differ at most in their passwords. */
  lemma ProjectionDropsOnlyPassword(a: UserRecord, b: UserRecord)
    ensures ToPublic(a) == ToPublic(b) <==> a.(password := b.password) == b
  {
  }

  /** The record is registered under `email`. */
  predicate HasEmail(u: UserRecord, email: string) {
    u.email == email
  }

  /** The record matches both credentials exactly. */
  predicate HasCredentials(u: UserRecord, email: string, password: string) {
    u.email == email && u.password == password
  }

  /** Some record of `users` is registered under `email`. */
  predicate EmailInUse(users: seq<UserRecord>, email: string) {
    exists i :: 0 <= i < |users| && HasEmail(users[i], email)
  }

  /** The collection invariant: no two records share an email. */
  predicate EmailsDistinct(users: seq<UserRecord>) {
    forall i, j :: 0 <= i < j < |users| ==> users[i].email != users[j].email
  }
}
