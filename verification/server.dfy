/**
 The server as a sequential state machine over the users file: each
 request is handled to completion, one after the other.
 */
module Server {
  import opened Wrappers
  import opened UserStore
  import opened Accounts

  /** The three account endpoints with their body fields. A register
      request also carries the clock readings its new record would get. */
  datatype Request =
    | RegisterRequest(name: Option<string>, email: Option<string>, password: Option<string>,
                      id: string, createdAt: string)
    | LoginRequest(email: Option<string>, password: Option<string>)
    | ListRequest

  /** The response to one request and the users file after it. */
  datatype Step = Step(response: Response, file: UsersFile)

  /** Handle one request. Only a successful registration changes the file. */
  function Handle(file: UsersFile, req: Request): (s: Step)
    ensures s.file != file ==> req.RegisterRequest? && s.response.status == 200
    ensures req.LoginRequest? ==> s.response.status in {200, 400, 401}
    ensures req.RegisterRequest? ==> s.response.status in {200, 400}
  {
    match req
    case RegisterRequest(name, email, password, id, createdAt) =>
      var r := Register(file, name, email, password, id, createdAt);
      Step(RegisterResponse(r.outcome), r.file)
    case LoginRequest(email, password) =>
      Step(LoginResponse(Login(file, email, password)), file)
    case ListRequest =>
      Step(ListUsers(file), file)
  }

  /** The users file after handling `reqs` in order, starting from `file`. */
  function Run(file: UsersFile, reqs: seq<Request>): UsersFile
    decreases |reqs|
  {
    if reqs == [] then file
    else Run(Handle(file, reqs[0]).file, reqs[1..])
  }
}
