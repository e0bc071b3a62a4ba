/**
 Properties of the account handlers that relate several calls or hold
 across whole request sequences.
 */
module AccountProperties {
  import opened Wrappers
  import opened Js
  import opened Users
  import opened UserStore
  import opened Accounts
  import opened Server

  /** Appending a record whose email is in use nowhere keeps the emails
      pairwise distinct. */
  lemma AppendFreshEmailKeepsDistinct(users: seq<UserRecord>, u: UserRecord)
    requires EmailsDistinct(users)
    requires !EmailInUse(users, u.email)
    ensures EmailsDistinct(users + [u])
  {
    var all := users + [u];
    forall i, j | 0 <= i < j < |all|
      ensures all[i].email != all[j].email
    {
      if j == |users| {
        assert !HasEmail(users[i], u.email);
      }
    }
  }

  /** Register keeps the collection invariant: emails stay pairwise
      distinct, whatever the request. */
  lemma RegisterPreservesDistinctEmails(
    file: UsersFile, name: Option<string>, email: Option<string>, password: Option<string>,
    id: string, createdAt: string)
    requires EmailsDistinct(ReadUsers(file))
    ensures EmailsDistinct(ReadUsers(Register(file, name, email, password, id, createdAt).file))
  {
    var r := Register(file, name, email, password, id, createdAt);
    if r.outcome == Registered {
      var before := ReadUsers(file);
      var u := UserRecord(id, name.value, email.value, password.value, createdAt);
      assert ReadUsers(r.file) == before + [u];
      AppendFreshEmailKeepsDistinct(before, u);
    }
  }

  /** Every request keeps the emails pairwise distinct. */
  lemma HandlePreservesDistinctEmails(file: UsersFile, req: Request)
    requires EmailsDistinct(ReadUsers(file))
    ensures EmailsDistinct(ReadUsers(Handle(file, req).file))
  {
    if req.RegisterRequest? {
      RegisterPreservesDistinctEmails(file, req.name, req.email, req.password, req.id, req.createdAt);
    }
  }

  /** Any sequence of requests, handled one after the other, keeps the
      emails pairwise distinct. */
  lemma {:induction false} RunPreservesDistinctEmails(file: UsersFile, reqs: seq<Request>)
    requires EmailsDistinct(ReadUsers(file))
    ensures EmailsDistinct(ReadUsers(Run(file, reqs)))
    decreases |reqs|
  {
    if reqs != [] {
      HandlePreservesDistinctEmails(file, reqs[0]);
      RunPreservesDistinctEmails(Handle(file, reqs[0]).file, reqs[1..]);
    }
  }

  /** Starting from no users file, no request sequence ever produces two
      users with the same email. */
  lemma FromMissingEmailsDistinct(reqs: seq<Request>)
    ensures EmailsDistinct(ReadUsers(Run(Missing, reqs)))
  {
    RunPreservesDistinctEmails(Missing, reqs);
  }

  /** Records are never changed or removed: what the file held before a
      request sequence is a prefix of what it holds afterwards. */
  lemma {:induction false} RunOnlyAppends(file: UsersFile, reqs: seq<Request>)
    ensures |ReadUsers(file)| <= |ReadUsers(Run(file, reqs))|
    ensures ReadUsers(Run(file, reqs))[..|ReadUsers(file)|] == ReadUsers(file)
    decreases |reqs|
  {
    if reqs != [] {
      var next := Handle(file, reqs[0]).file;
      RunOnlyAppends(next, reqs[1..]);
      var a, b, c := ReadUsers(file), ReadUsers(next), ReadUsers(Run(next, reqs[1..]));
      assert b[..|a|] == a;
      assert c[..|a|] == c[..|b|][..|a|];
    }
  }

  /** Appending an element that does not satisfy the predicate leaves the
      first match where it was; appending one that does makes it the
      first match when there was none. */
  lemma {:induction false} FindAppend<T>(xs: seq<T>, x: T, p: T -> bool)
    ensures Find(xs, p).Some? ==> Find(xs + [x], p) == Find(xs, p)
    ensures Find(xs, p).None? && p(x) ==> Find(xs + [x], p) == Some(|xs|)
    ensures Find(xs, p).None? && !p(x) ==> Find(xs + [x], p) == None
    decreases |xs|
  {
    var ys := xs + [x];
    if xs == [] {
      assert ys == [x];
    } else {
      assert ys[0] == xs[0];
      assert ys[1..] == xs[1..] + [x];
      FindAppend(xs[1..], x, p);
    }
  }

  /** The register-then-login round trip: right after a successful
      registration, logging in with the same email and password succeeds
      and returns exactly the new record without its password. */
  lemma RegisterThenLogin(
    file: UsersFile, name: string, email: string, password: string, id: string, createdAt: string)
    requires Register(file, Some(name), Some(email), Some(password), id, createdAt).outcome == Registered
    ensures
      var after := Register(file, Some(name), Some(email), Some(password), id, createdAt).file;
      Login(after, Some(email), Some(password)) == LoggedIn(PublicUser(id, name, email, createdAt))
  {
    var users := ReadUsers(file);
    var u := UserRecord(id, name, email, password, createdAt);
    var p := (v: UserRecord) => HasCredentials(v, email, password);
    assert Find(users, p).None? by {
      forall j | 0 <= j < |users| ensures !p(users[j]) {
        assert !HasEmail(users[j], email);
      }
    }
    FindAppend(users, u, p);
  }

  /** A wrong password for a known email and an email nobody registered
      end in the same outcome, hence the same status and message. */
  lemma WrongPasswordLooksLikeUnknownEmail(
    known: UsersFile, email: string, wrong: string,
    other: UsersFile, unknown: string, anyPassword: string)
    requires email != "" && wrong != "" && unknown != "" && anyPassword != ""
    requires EmailInUse(ReadUsers(known), email)
    requires forall i :: 0 <= i < |ReadUsers(known)| && HasEmail(ReadUsers(known)[i], email) ==>
      ReadUsers(known)[i].password != wrong
    requires !EmailInUse(ReadUsers(other), unknown)
    ensures Login(known, Some(email), Some(wrong)) == InvalidCredentials
    ensures LoginResponse(Login(known, Some(email), Some(wrong)))
         == LoginResponse(Login(other, Some(unknown), Some(anyPassword)))
  {
  }

  /** With distinct emails, login for a registered email either finds that
      one user (right password) or fails with invalid credentials. */
  lemma LoginFindsTheOwner(file: UsersFile, i: nat, password: string)
    requires EmailsDistinct(ReadUsers(file))
    requires i < |ReadUsers(file)|
    requires ReadUsers(file)[i].email != "" && password != ""
    ensures
      var owner := ReadUsers(file)[i];
      Login(file, Some(owner.email), Some(password))
        == if owner.password == password then LoggedIn(ToPublic(owner)) else InvalidCredentials
  {
    var users := ReadUsers(file);
    var owner := users[i];
    var r := Login(file, Some(owner.email), Some(password));
    if r.LoggedIn? {
      var k :| 0 <= k < |users| && HasCredentials(users[k], owner.email, password)
        && r.user == ToPublic(users[k]);
      assert k == i;
    }
  }

  /** Registering the same email a second time fails with the email-taken
      outcome, whatever the new name and password, provided both pass the
      earlier checks (a non-empty name, a password of at least 6 code
      units). The file is left with exactly one more record than before
      the first registration. */
  lemma SecondRegistrationConflicts(
    file: UsersFile, email: string,
    name1: string, password1: string, id1: string, at1: string,
    name2: string, password2: string, id2: string, at2: string)
    requires Register(file, Some(name1), Some(email), Some(password1), id1, at1).outcome == Registered
    requires name2 != "" && Utf16Length(password2) >= MinPasswordLength
    ensures
      var first := Register(file, Some(name1), Some(email), Some(password1), id1, at1);
      var second := Register(first.file, Some(name2), Some(email), Some(password2), id2, at2);
      && second.outcome == EmailTaken
      && second.file == first.file
      && |ReadUsers(second.file)| == |ReadUsers(file)| + 1
  {
    var first := Register(file, Some(name1), Some(email), Some(password1), id1, at1);
    var after := ReadUsers(first.file);
    assert HasEmail(after[|ReadUsers(file)|], email);
  }

  /** The listing after a successful registration is the listing before
      it with the new user's public projection at the end. */
  lemma ListAfterRegister(
    file: UsersFile, name: string, email: string, password: string, id: string, createdAt: string)
    requires Register(file, Some(name), Some(email), Some(password), id, createdAt).outcome == Registered
    ensures
      var after := Register(file, Some(name), Some(email), Some(password), id, createdAt).file;
      ListUsers(after).body.users == ListUsers(file).body.users + [PublicUser(id, name, email, createdAt)]
  {
    var after := Register(file, Some(name), Some(email), Some(password), id, createdAt).file;
    var l0, l1 := ListUsers(file).body.users, ListUsers(after).body.users;
    var expected := l0 + [PublicUser(id, name, email, createdAt)];
    assert |l1| == |expected|;
    forall i | 0 <= i < |l1| ensures l1[i] == expected[i] {
      if i < |l0| {
        assert ReadUsers(after)[i] == ReadUsers(file)[i];
      }
    }
  }

  /** The user a successful login returns appears in the user listing,
      at the position of the matching record. */
  lemma LoginAgreesWithListing(file: UsersFile, email: Option<string>, password: Option<string>)
    requires Login(file, email, password).LoggedIn?
    ensures exists i ::
      && 0 <= i < |ListUsers(file).body.users|
      && ListUsers(file).body.users[i] == Login(file, email, password).user
      && HasCredentials(ReadUsers(file)[i], email.value, password.value)
  {
    var r := Login(file, email, password);
    var i :| 0 <= i < |ReadUsers(file)|
      && HasCredentials(ReadUsers(file)[i], email.value, password.value)
      && r.user == ToPublic(ReadUsers(file)[i]);
    assert ListUsers(file).body.users[i] == r.user;
  }

  /** Missing fields are reported before the users file is read: the
      outcome does not depend on the file, and the file is not touched. */
  lemma MissingFieldsIgnoreStore(
    f1: UsersFile, f2: UsersFile,
    name: Option<string>, email: Option<string>, password: Option<string>,
    id: string, createdAt: string)
    requires !Truthy(name) || !Truthy(email) || !Truthy(password)
    ensures Register(f1, name, email, password, id, createdAt) == RegisterResult(MissingFields, f1)
    ensures Register(f1, name, email, password, id, createdAt).outcome
         == Register(f2, name, email, password, id, createdAt).outcome
  {
  }

  /** A too-short password is reported before the users file is read,
      even when the email is already taken. */
  lemma ShortPasswordIgnoresStore(
    f1: UsersFile, f2: UsersFile, name: string, email: string, password: string,
    id: string, createdAt: string)
    requires name != "" && email != "" && password != ""
    requires Utf16Length(password) < MinPasswordLength
    ensures Register(f1, Some(name), Some(email), Some(password), id, createdAt)
         == RegisterResult(PasswordTooShort, f1)
    ensures Register(f1, Some(name), Some(email), Some(password), id, createdAt).outcome
         == Register(f2, Some(name), Some(email), Some(password), id, createdAt).outcome
  {
  }

  /** Distinct register outcomes produce distinct responses, so a caller
      can tell every rejection reason apart. */
  lemma RegisterResponseDeterminesOutcome(o1: RegisterOutcome, o2: RegisterOutcome)
    ensures RegisterResponse(o1) == RegisterResponse(o2) <==> o1 == o2
  {
  }

  /** Distinct login outcomes produce distinct responses; in particular
      every credential mismatch looks the same to the caller. */
  lemma LoginResponseDeterminesOutcome(o1: LoginOutcome, o2: LoginOutcome)
    ensures LoginResponse(o1) == LoginResponse(o2) <==> o1 == o2
  {
  }

  /** For passwords within the Basic Multilingual Plane the length check
      is a plain character count. */
  lemma BmpPasswordLength(password: string)
    requires forall i :: 0 <= i < |password| ==> password[i] as int < 0x1_0000
    ensures Utf16Length(password) < MinPasswordLength <==> |password| < MinPasswordLength
  {
  }

  /** The length check counts UTF-16 code units: three characters from
      outside the Basic Multilingual Plane already make a long-enough
      password. */
  lemma ThreeAstralCharactersSuffice(file: UsersFile, name: string, email: string, id: string, createdAt: string)
    requires name != "" && email != ""
    requires !EmailInUse(ReadUsers(file), email)
    ensures Register(file, Some(name), Some(email), Some("\U{1F600}\U{1F600}\U{1F600}"), id, createdAt).outcome
         == Registered
  {
    var pw := "\U{1F600}\U{1F600}\U{1F600}";
    assert Utf16Length(pw) == 6;
  }

  /** The worked scenario: Ana registers, a second registration of her
      email is refused, and she can log in with her password but not with
      a wrong one. */
  lemma AnaScenario(id: string, createdAt: string, id2: string, createdAt2: string)
    ensures
      var r1 := Register(Missing, Some("Ana"), Some("a@x.com"), Some("secret1"), id, createdAt);
      var r2 := Register(r1.file, Some("Ana"), Some("a@x.com"), Some("other12"), id2, createdAt2);
      && r1.outcome == Registered
      && r2.outcome == EmailTaken
      && Login(r2.file, Some("a@x.com"), Some("secret1")) == LoggedIn(PublicUser(id, "Ana", "a@x.com", createdAt))
      && Login(r2.file, Some("a@x.com"), Some("wrong")) == InvalidCredentials
  {
    var r1 := Register(Missing, Some("Ana"), Some("a@x.com"), Some("secret1"), id, createdAt);
    assert Utf16Length("secret1") >= MinPasswordLength;
    RegisterThenLogin(Missing, "Ana", "a@x.com", "secret1", id, createdAt);
    SecondRegistrationConflicts(Missing, "a@x.com", "Ana", "secret1", id, createdAt,
                                "Ana", "other12", id2, createdAt2);
    LoginFindsTheOwner(r1.file, 0, "wrong");
  }
}
