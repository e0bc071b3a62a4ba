/**
 The three account handlers of the server — register, login and the
 user listing — as pure functions of the users file and the request
 fields. Register gives back the file as it is afterwards; login and the
 listing only read it.
 */
module Accounts {
  import opened Wrappers
  import opened Js
  import opened Users
  import opened UserStore

  /** The shortest password register accepts, in UTF-16 code units. */
  const MinPasswordLength: nat := 6

  const MsgMissingFields := "Semua field harus diisi"
  const MsgPasswordTooShort := "Password harus minimal 6 karakter"
  const MsgEmailTaken := "Email sudah terdaftar"
  const MsgRegistered := "Registrasi berhasil!"
  const MsgMissingCredentials := "Email dan password harus diisi"
  const MsgInvalidCredentials := "Email atau password salah"
  const MsgLoggedIn := "Login berhasil!"

  /** How a register request ends. */
  datatype RegisterOutcome = Registered | MissingFields | PasswordTooShort | EmailTaken

  /** How a login request ends; success carries the password-free user. */
  datatype LoginOutcome = LoggedIn(user: PublicUser) | MissingCredentials | InvalidCredentials

  /** A register outcome together with the users file afterwards. */
  datatype RegisterResult = RegisterResult(outcome: RegisterOutcome, file: UsersFile)

  /** The JSON body of a response. */
  datatype Body =
    | Reply(success: bool, message: string)
    | LoginReply(success: bool, message: string, user: PublicUser)
    | UserList(users: seq<PublicUser>)

  /** An HTTP status together with its JSON body. */
  datatype Response = Response(status: nat, body: Body)

  /** `POST /api/register`. The checks run in a fixed order — all three
      fields present, then the password length, then (after reading the
      file) the email not yet in use — and only a request passing all
      three writes the file, with one record appended. `id` and
      `createdAt` are the clock readings taken for the new record. */
  function Register(
    file: UsersFile,
    name: Option<string>, email: Option<string>, password: Option<string>,
    id: string, createdAt: string): (r: RegisterResult)
    ensures r.outcome == MissingFields <==> !Truthy(name) || !Truthy(email) || !Truthy(password)
    ensures r.outcome == PasswordTooShort <==>
      Truthy(name) && Truthy(email) && Truthy(password)
      && Utf16Length(password.value) < MinPasswordLength
    ensures r.outcome == EmailTaken <==>
      Truthy(name) && Truthy(email) && Truthy(password)
      && Utf16Length(password.value) >= MinPasswordLength
      && EmailInUse(ReadUsers(file), email.value)
    ensures r.outcome == Registered <==>
      Truthy(name) && Truthy(email) && Truthy(password)
      && Utf16Length(password.value) >= MinPasswordLength
      && !EmailInUse(ReadUsers(file), email.value)
    ensures r.outcome != Registered ==> r.file == file
    ensures r.outcome == Registered ==>
      var before, after := ReadUsers(file), ReadUsers(r.file);
      && |after| == |before| + 1
      && after[..|before|] == before
      && after[|before|] == UserRecord(id, name.value, email.value, password.value, createdAt)
  {
    if !Truthy(name) || !Truthy(email) || !Truthy(password) then
      RegisterResult(MissingFields, file)
    else if Utf16Length(password.value) < MinPasswordLength then
      RegisterResult(PasswordTooShort, file)
    else
      var users := ReadUsers(file);
      var e := email.value;
      if Find(users, u => HasEmail(u, e)).Some? then
        RegisterResult(EmailTaken, file)
      else
        var user := UserRecord(id, name.value, e, password.value, createdAt);
        RegisterResult(Registered, WriteUsers(users + [user]))
  }

  /** `POST /api/login`: both fields present, then the first record whose
      email and password both match exactly, shown without its password.
      Login never writes the file. */
  function Login(file: UsersFile, email: Option<string>, password: Option<string>): (r: LoginOutcome)
    ensures r == MissingCredentials <==> !Truthy(email) || !Truthy(password)
    ensures r.LoggedIn? <==>
      Truthy(email) && Truthy(password)
      && exists i :: 0 <= i < |ReadUsers(file)| && HasCredentials(ReadUsers(file)[i], email.value, password.value)
    ensures r.LoggedIn? ==>
      exists i :: 0 <= i < |ReadUsers(file)|
        && HasCredentials(ReadUsers(file)[i], email.value, password.value)
        && (forall j :: 0 <= j < i ==> !HasCredentials(ReadUsers(file)[j], email.value, password.value))
        && r.user == ToPublic(ReadUsers(file)[i])
  {
    if !Truthy(email) || !Truthy(password) then
      MissingCredentials
    else
      var users := ReadUsers(file);
      var e, p := email.value, password.value;
      match Find(users, u => HasCredentials(u, e, p))
      case None => InvalidCredentials
      case Some(k) => LoggedIn(ToPublic(users[k]))
  }

  /** `GET /api/users`: every stored record, in file order, without its
      password; a missing file lists nobody. */
  function ListUsers(file: UsersFile): (r: Response)
    ensures r.status == 200 && r.body.UserList?
    ensures |r.body.users| == |ReadUsers(file)|
    ensures forall i :: 0 <= i < |ReadUsers(file)| ==> r.body.users[i] == ToPublic(ReadUsers(file)[i])
    ensures file == Missing ==> r.body.users == []
  {
    Response(200, UserList(Map(ReadUsers(file), ToPublic)))
  }

  /** The response register sends: 200 on success, 400 with the check's
      own message otherwise. */
  function RegisterResponse(o: RegisterOutcome): (r: Response)
    ensures r.body.Reply?
    ensures r.body.success <==> o == Registered
    ensures r.status == (if o == Registered then 200 else 400)
  {
    match o
    case Registered => Response(200, Reply(true, MsgRegistered))
    case MissingFields => Response(400, Reply(false, MsgMissingFields))
    case PasswordTooShort => Response(400, Reply(false, MsgPasswordTooShort))
    case EmailTaken => Response(400, Reply(false, MsgEmailTaken))
  }

  /** The response login sends: 200 with the user, 400 for a missing
      field, 401 for credentials that match no record. */
  function LoginResponse(o: LoginOutcome): (r: Response)
    ensures !r.body.UserList? && (r.body.success <==> o.LoggedIn?)
    ensures o.LoggedIn? ==> r.body.LoginReply? && r.body.user == o.user
    ensures r.status == (match o case LoggedIn(_) => 200 case MissingCredentials => 400 case InvalidCredentials => 401)
  {
    match o
    case LoggedIn(user) => Response(200, LoginReply(true, MsgLoggedIn, user))
    case MissingCredentials => Response(400, Reply(false, MsgMissingCredentials))
    case InvalidCredentials => Response(401, Reply(false, MsgInvalidCredentials))
  }
}
