/** The login handler of the users controller (src/controllers/users.controller.ts):
    it authenticates by id or by credentials, signs a token and writes a 202
    response, or hands the repository's error to the next middleware. */
module Controllers {
  import opened Errors
  import opened Entities
  import opened Auth
  import opened UsersMongo

  /** The fields of the request body the handler reads. A userId that is
      absent, or present but empty, is falsy. */
  datatype LoginBody = LoginBody(userId: Option<string>, email: string, passwd: string)

  predicate Truthy(userId: Option<string>) {
    userId.Some? && userId.value != ""
  }

  /** The JSON payload of a successful login. */
  datatype LoginData = LoginData(user: User, token: string)

  /** The repository call the handler makes: getById when userId is truthy,
      login with the body's credentials otherwise. */
  function LoginResult(users: map<string, User>, order: seq<string>, auth: AuthService, body: LoginBody): (r: Result<User>)
    requires WellFormed(users, order)
    ensures r.Ok? ==> r.value.id in users && users[r.value.id] == r.value
    ensures r.Err? ==> r.error == (if Truthy(body.userId) then GetByIdNotPossible else Unauthorized)
  {
    if Truthy(body.userId) then FindById(users, body.userId.value)
    else Authenticate(users, order, auth, LoginUser(body.email, body.passwd))
  }

  /** The payload for an authenticated user: the user and a token signed over
      its id and email. */
  function LoginPayload(u: User, auth: AuthService): LoginData {
    LoginData(u, auth.signJWT(TokenPayload(u.id, u.email)))
  }

  /** A truthy userId selects getById: the password is never compared, so the
      outcome is the same whatever the comparison does, and it is the stored
      record under that id or the 404 of getById. */
  lemma LoginByIdSkipsPassword(users: map<string, User>, order: seq<string>, auth: AuthService,
                               other: AuthService, body: LoginBody)
    requires WellFormed(users, order) && Truthy(body.userId)
    ensures LoginResult(users, order, auth, body) == LoginResult(users, order, other, body)
    ensures LoginResult(users, order, auth, body) == FindById(users, body.userId.value)
  {
  }

  /** A falsy userId selects login with the body's email and password, which
      fails with 401 when no record has the email or the hash does not match. */
  lemma LoginByCredentials(users: map<string, User>, order: seq<string>, auth: AuthService, body: LoginBody)
    requires WellFormed(users, order) && !Truthy(body.userId)
    ensures var r := LoginResult(users, order, auth, body);
            r == Authenticate(users, order, auth, LoginUser(body.email, body.passwd)) &&
            (r.Ok? <==> FindOne(users, order, body.email).Some? &&
                        auth.comparison(body.passwd, FindOne(users, order, body.email).value.passwd)) &&
            (r.Err? ==> r.error.status == 401)
  {
  }

  /** A body carrying only the id of a stored user logs that user in, even
      when no password would ever match. */
  lemma LoginWithStoredId(auth: AuthService)
    requires forall p, h :: !auth.comparison(p, h)
    ensures var u := User("mockUserId", "mock@example.com", "h", "", "", 0, [], []);
            var r := LoginResult(map["mockUserId" := u], ["mockUserId"], auth,
                                 LoginBody(Some("mockUserId"), "", ""));
            r == Ok(u) && LoginPayload(r.value, auth).user == u
  {
    var u := User("mockUserId", "mock@example.com", "h", "", "", 0, [], []);
    assert WellFormed(map["mockUserId" := u], ["mockUserId"]);
  }

  /** The part of the HTTP response the handler writes. */
  class Response {
    var status: nat
    var statusMessage: string
    var json: Option<LoginData>

    constructor ()
      ensures json == None
    {
      status := 200;
      statusMessage := "";
      json := None;
    }
  }

  /** The controller signs tokens with the same Auth service the repository
      hashes and compares passwords with. */
  class UsersController {
    const repo: UsersMongoRepo

    constructor (repo: UsersMongoRepo)
      ensures this.repo == repo
    {
      this.repo := repo;
    }

    /** login: on success the response gets status 202, reason "Accepted" and
        the payload {user, token}; on failure the error is returned for `next`
        and the response is not touched. The store is read, never written. */
    method Login(body: LoginBody, res: Response) returns (forwarded: Option<HttpError>)
      requires repo.Valid()
      modifies res
      ensures var r := LoginResult(repo.users, repo.order, repo.auth, body);
              (r.Ok? ==> forwarded == None && res.status == 202 && res.statusMessage == "Accepted" &&
                         res.json == Some(LoginPayload(r.value, repo.auth))) &&
              (r.Err? ==> forwarded == Some(r.error) && unchanged(res))
    {
      var result: Result<User>;
      if Truthy(body.userId) {
        result := repo.GetById(body.userId.value);
      } else {
        result := repo.Login(LoginUser(body.email, body.passwd));
      }
      if result.Err? {
        return Some(result.error);
      }
      var data := LoginData(result.value, repo.auth.signJWT(TokenPayload(result.value.id, result.value.email)));
      res.status := 202;
      res.statusMessage := "Accepted";
      res.json := Some(data);
      forwarded := None;
    }
  }
}
