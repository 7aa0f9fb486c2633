/** The user repository (repos/users/users.mongo.repo.ts): a table of user
    records keyed by id, and the order in which they were inserted, which is
    the order in which a scan of the collection meets them. */
module UsersMongo {
  import opened Errors
  import opened Entities
  import opened Auth
  import opened Relations

  /** The table and the insertion order describe the same ids, each once,
      and every record is stored under its own id. */
  ghost predicate WellFormed(users: map<string, User>, order: seq<string>) {
    NoDuplicates(order) &&
    (forall k :: k in users <==> k in order) &&
    (forall k :: k in users ==> users[k].id == k)
  }

  // ---------------------------------------------------------------------------
  // Queries: find, findOne, findById

  /** The scalar fields a search may filter on. */
  datatype Field = Email | Passwd | Name | Surname | Age

  datatype Value = Text(text: string) | Number(number: int)

  /** The filter of a find: everything, or exact equality on one field. */
  datatype Query = All | FieldIs(field: Field, value: Value)

  function FieldValue(u: User, f: Field): Value {
    match f
    case Email => Text(u.email)
    case Passwd => Text(u.passwd)
    case Name => Text(u.name)
    case Surname => Text(u.surname)
    case Age => Number(u.age)
  }

  predicate Matches(u: User, q: Query) {
    match q
    case All => true
    case FieldIs(f, v) => FieldValue(u, f) == v
  }

  /** The records of ids that match q, in the order of ids: the scan of a find. */
  function Matching(ids: seq<string>, users: map<string, User>, q: Query): (r: seq<User>)
    requires forall id :: id in ids ==> id in users && users[id].id == id
    ensures forall u :: u in r ==> u.id in ids && users[u.id] == u && Matches(u, q)
    ensures forall i :: 0 <= i < |ids| && Matches(users[ids[i]], q) ==> users[ids[i]] in r
    ensures NoDuplicates(ids) ==> NoDuplicates(r)
    ensures r != [] ==> exists i :: 0 <= i < |ids| && ids[i] == r[0].id &&
                                    forall j :: 0 <= j < i ==> !Matches(users[ids[j]], q)
  {
    if ids == [] then []
    else
      var rest := Matching(ids[1..], users, q);
      assert forall i :: 1 <= i < |ids| ==> ids[i] == ids[1..][i - 1];
      if Matches(users[ids[0]], q) then
        var r := [users[ids[0]]] + rest;
        assert NoDuplicates(ids) ==> users[ids[0]] !in rest;
        assert NoDuplicates(ids) && NoDuplicates(rest) && users[ids[0]] !in rest ==> NoDuplicates(r) by {
          if NoDuplicates(rest) && users[ids[0]] !in rest {
            forall i, j | 0 <= i < j < |r| ensures r[i] != r[j] {
              assert r[j] == rest[j - 1];
              if i > 0 { assert r[i] == rest[i - 1]; }
            }
          }
        }
        r
      else
        assert rest != [] ==> exists i :: 0 <= i < |ids| && ids[i] == rest[0].id &&
                                          forall j :: 0 <= j < i ==> !Matches(users[ids[j]], q) by {
          if rest != [] {
            var k :| 0 <= k < |ids[1..]| && ids[1..][k] == rest[0].id &&
                     forall j :: 0 <= j < k ==> !Matches(users[ids[1..][j]], q);
            forall j | 0 <= j < k + 1 ensures !Matches(users[ids[j]], q) {
              if j > 0 { assert ids[j] == ids[1..][j - 1]; }
            }
            assert ids[k + 1] == rest[0].id;
          }
        }
        rest
  }

  /** findOne({email}): the first record with that email in scan order. */
  function FindOne(users: map<string, User>, order: seq<string>, email: string): (r: Option<User>)
    requires WellFormed(users, order)
    ensures r.Some? ==> r.value.id in users && users[r.value.id] == r.value && r.value.email == email
    ensures r.None? <==> forall k :: k in users ==> users[k].email != email
    ensures r.Some? ==> exists i :: 0 <= i < |order| && order[i] == r.value.id &&
                                    forall j :: 0 <= j < i ==> users[order[j]].email != email
  {
    var m := Matching(order, users, FieldIs(Email, Text(email)));
    assert r_none: m == [] ==> forall k :: k in users ==> users[k].email != email by {
      forall k | k in users && users[k].email == email ensures m != [] {
        var i :| 0 <= i < |order| && order[i] == k;
      }
    }
    if m == [] then None else Some(m[0])
  }

  /** findById: the record stored under id, or the 404 of getById. */
  function FindById(users: map<string, User>, id: string): (r: Result<User>)
    ensures r.Ok? <==> id in users
    ensures r.Ok? ==> r.value == users[id]
    ensures r.Err? ==> r.error == GetByIdNotPossible
  {
    if id in users then Ok(users[id]) else Err(GetByIdNotPossible)
  }

  /** login: the first record with the email whose stored hash the password
      matches, else 401. */
  function Authenticate(users: map<string, User>, order: seq<string>, auth: AuthService, login: LoginUser): (r: Result<User>)
    requires WellFormed(users, order)
    ensures r.Ok? ==> r.value.id in users && users[r.value.id] == r.value &&
                      r.value.email == login.email && auth.comparison(login.passwd, r.value.passwd)
    ensures r.Err? ==> r.error == Unauthorized
    ensures (forall k :: k in users ==> users[k].email != login.email) ==> r.Err?
  {
    match FindOne(users, order, login.email)
    case None => Err(Unauthorized)
    case Some(u) => if auth.comparison(login.passwd, u.passwd) then Ok(u) else Err(Unauthorized)
  }

  /** No two records share an email. The store does not enforce this. */
  ghost predicate UniqueEmails(users: map<string, User>) {
    forall j, k :: j in users && k in users && users[j].email == users[k].email ==> j == k
  }

  /** Where emails are unique, login succeeds exactly when some record has the
      email and its hash matches the password. */
  lemma AuthenticateUnique(users: map<string, User>, order: seq<string>, auth: AuthService, login: LoginUser)
    requires WellFormed(users, order) && UniqueEmails(users)
    ensures Authenticate(users, order, auth, login).Ok? <==>
            exists k :: k in users && users[k].email == login.email && auth.comparison(login.passwd, users[k].passwd)
  {
    if k :| k in users && users[k].email == login.email && auth.comparison(login.passwd, users[k].passwd) {
      var found := FindOne(users, order, login.email);
      assert found.Some?;
      assert found.value.id == k;
    }
  }

  // ---------------------------------------------------------------------------
  // Partial updates

  /** A Partial<User>: each field is present or absent. */
  datatype Patch = Patch(
    id: Option<string>,
    email: Option<string>,
    passwd: Option<string>,
    name: Option<string>,
    surname: Option<string>,
    age: Option<int>,
    friends: Option<seq<string>>,
    enemies: Option<seq<string>>)

  function Present<T>(field: Option<T>, current: T): T {
    if field.Some? then field.value else current
  }

  /** The record after findByIdAndUpdate with the patch: each present field
      overwritten, each absent one kept. The id is never rewritten. */
  function ApplyPatch(u: User, p: Patch): (v: User)
    ensures v.id == u.id
    ensures p.email.None? ==> v.email == u.email
    ensures p.email.Some? ==> v.email == p.email.value
    ensures p.passwd.None? ==> v.passwd == u.passwd
    ensures p.passwd.Some? ==> v.passwd == p.passwd.value
    ensures p.name.None? ==> v.name == u.name
    ensures p.name.Some? ==> v.name == p.name.value
    ensures p.surname.None? ==> v.surname == u.surname
    ensures p.surname.Some? ==> v.surname == p.surname.value
    ensures p.age.None? ==> v.age == u.age
    ensures p.age.Some? ==> v.age == p.age.value
    ensures p.friends.None? ==> v.friends == u.friends
    ensures p.friends.Some? ==> v.friends == p.friends.value
    ensures p.enemies.None? ==> v.enemies == u.enemies
    ensures p.enemies.Some? ==> v.enemies == p.enemies.value
  {
    User(u.id, Present(p.email, u.email), Present(p.passwd, u.passwd), Present(p.name, u.name),
         Present(p.surname, u.surname), Present(p.age, u.age),
         Present(p.friends, u.friends), Present(p.enemies, u.enemies))
  }

  /** update: the 406 guard on the patch's id, then findByIdAndUpdate. */
  function UpdateStep(t: map<string, User>, id: string, p: Patch): Step {
    if p.id == Some(id) then Step(Err(SelfReference), t)
    else if id !in t then Step(Err(UpdateNotPossible), t)
    else
      var v := ApplyPatch(t[id], p);
      Step(Ok(v), t[id := v])
  }

  /** A patch whose id equals the target's is refused with 406 before the
      lookup, and the table is untouched. */
  lemma UpdateRejectsSelf(t: map<string, User>, id: string, p: Patch)
    requires p.id == Some(id)
    ensures UpdateStep(t, id, p) == Step(Err(SelfReference), t)
  {
  }

  /** Otherwise a missing id gives 404 and the table is untouched, and a
      present one is patched in place with nothing else changed. */
  lemma UpdateOutcome(t: map<string, User>, id: string, p: Patch)
    requires p.id != Some(id)
    ensures var s := UpdateStep(t, id, p);
            (id !in t ==> s == Step(Err(UpdateNotPossible), t)) &&
            (id in t ==> s.result.Ok? && s.table == t[id := s.result.value] &&
                         s.result.value == ApplyPatch(t[id], p))
  {
  }

  /** Applying the same patch twice is the same as applying it once. */
  lemma UpdateIdempotent(t: map<string, User>, id: string, p: Patch)
    ensures var once := UpdateStep(t, id, p);
            UpdateStep(once.table, id, p) == once
  {
    var once := UpdateStep(t, id, p);
    if p.id != Some(id) && id in t {
      var v := ApplyPatch(t[id], p);
      assert ApplyPatch(v, p) == v;
    }
  }

  /** The guard of update does not protect the relation lists: an update can
      list the same id as friend and enemy, and can list the user as its own
      friend. */
  lemma UpdateBypassesRelationGuards()
    ensures var u := User("a1", "a@x", "h", "A", "A", 30, [], []);
            var p := Patch(None, None, None, None, None, None, Some(["a1", "b1"]), Some(["b1"]));
            var s := UpdateStep(map["a1" := u], "a1", p);
            Exclusive(u) && s.result.Ok? && !Exclusive(s.result.value) && "a1" in s.result.value.friends
  {
    var v := User("a1", "a@x", "h", "A", "A", 30, ["a1", "b1"], ["b1"]);
    assert "b1" in v.friends && "b1" in v.enemies;
  }

  // ---------------------------------------------------------------------------
  // The repository

  class UsersMongoRepo {
    const auth: AuthService
    var users: map<string, User>
    var order: seq<string>

    ghost predicate Valid()
      reads this
    {
      WellFormed(users, order)
    }

    /** The repository holds no data of its own: it wraps the collection as
        the database already holds it, records whose lists may overlap, repeat
        an id or name the user itself. */
    constructor (auth: AuthService, stored: map<string, User>, storedOrder: seq<string>)
      requires WellFormed(stored, storedOrder)
      ensures Valid() && this.auth == auth && users == stored && order == storedOrder
    {
      this.auth := auth;
      users := stored;
      order := storedOrder;
    }

    /** create: the password is hashed before the record is stored under the
        id the database assigns, which is new to the collection. */
    method Create(newItem: NewUser, id: string) returns (r: User)
      requires Valid()
      requires id !in users
      modifies this
      ensures Valid()
      ensures r.id == id && r.passwd == auth.hash(newItem.passwd)
      ensures r.email == newItem.email && r.name == newItem.name && r.surname == newItem.surname
      ensures r.age == newItem.age && r.friends == newItem.friends && r.enemies == newItem.enemies
      ensures users == old(users)[id := r] && order == old(order) + [id]
    {
      var passwd := auth.hash(newItem.passwd);
      r := User(id, newItem.email, passwd, newItem.name, newItem.surname, newItem.age,
                newItem.friends, newItem.enemies);
      AppendAbsentNoDuplicates(order, id);
      users := users[id := r];
      order := order + [id];
    }

    /** login: 401 when no record has the email or the password does not
        match the stored hash; otherwise the first record with the email. */
    method Login(login: LoginUser) returns (r: Result<User>)
      requires Valid()
      ensures r == Authenticate(users, order, auth, login)
      ensures r.Err? <==> FindOne(users, order, login.email).None? ||
                          !auth.comparison(login.passwd, FindOne(users, order, login.email).value.passwd)
    {
      var found := FindOne(users, order, login.email);
      if found.None? || !auth.comparison(login.passwd, found.value.passwd) {
        return Err(Unauthorized);
      }
      r := Ok(found.value);
    }

    /** getAll: every stored record once, in scan order. */
    method GetAll() returns (r: seq<User>)
      requires Valid()
      ensures forall u :: u in r <==> u.id in users && users[u.id] == u
      ensures NoDuplicates(r)
    {
      r := Matching(order, users, All);
      forall u: User | u.id in users && users[u.id] == u ensures u in r {
        var i :| 0 <= i < |order| && order[i] == u.id;
      }
    }

    /** getById: the stored record, or 404. */
    method GetById(id: string) returns (r: Result<User>)
      requires Valid()
      ensures r == FindById(users, id)
    {
      if id !in users {
        return Err(GetByIdNotPossible);
      }
      r := Ok(users[id]);
    }

    /** search: the stored records whose field equals the value, each once. */
    method Search(key: Field, value: Value) returns (r: seq<User>)
      requires Valid()
      ensures forall u :: u in r <==> u.id in users && users[u.id] == u && FieldValue(u, key) == value
      ensures NoDuplicates(r)
    {
      r := Matching(order, users, FieldIs(key, value));
      forall u: User | u.id in users && users[u.id] == u && FieldValue(u, key) == value ensures u in r {
        var i :| 0 <= i < |order| && order[i] == u.id;
      }
    }

    /** update: 406 when the patch carries the target's own id, 404 when no
        record has the id, otherwise the present fields are overwritten. */
    method Update(id: string, patch: Patch) returns (r: Result<User>)
      requires Valid()
      modifies this
      ensures Valid()
      ensures Step(r, users) == UpdateStep(old(users), id, patch) && order == old(order)
    {
      if patch.id == Some(id) {
        return Err(SelfReference);
      }
      if id !in users {
        return Err(UpdateNotPossible);
      }
      users := users[id := ApplyPatch(users[id], patch)];
      r := Ok(users[id]);
    }

    /** addFriend */
    method AddFriend(friendId: string, userId: string) returns (r: Result<User>)
      requires Valid()
      modifies this
      ensures Valid()
      ensures Step(r, users) == AddRelation(old(users), Friend, friendId, userId) && order == old(order)
    {
      if friendId == userId {
        return Err(SelfReference);
      }
      if userId !in users {
        return Err(UserNotFound);
      }
      var user := users[userId];
      if friendId in user.friends {
        return Ok(user);
      }
      if friendId in user.enemies {
        users := users[userId := users[userId].(enemies := Pull(users[userId].enemies, friendId))];
      }
      users := users[userId := users[userId].(friends := users[userId].friends + [friendId])];
      r := Ok(users[userId]);
    }

    /** addEnemy */
    method AddEnemy(enemyId: string, userId: string) returns (r: Result<User>)
      requires Valid()
      modifies this
      ensures Valid()
      ensures Step(r, users) == AddRelation(old(users), Enemy, enemyId, userId) && order == old(order)
    {
      if enemyId == userId {
        return Err(SelfReference);
      }
      if userId !in users {
        return Err(UserNotFound);
      }
      var user := users[userId];
      if enemyId in user.enemies {
        return Ok(user);
      }
      if enemyId in user.friends {
        users := users[userId := users[userId].(friends := Pull(users[userId].friends, enemyId))];
      }
      users := users[userId := users[userId].(enemies := users[userId].enemies + [enemyId])];
      r := Ok(users[userId]);
    }

    /** delete: 404 when no record has the id, otherwise exactly that record
        goes. References to it in other users' lists stay. */
    method Delete(id: string) returns (r: Result<()>)
      requires Valid()
      modifies this
      ensures Valid()
      ensures r.Err? <==> id !in old(users)
      ensures r.Err? ==> r.error == DeleteNotPossible && users == old(users) && order == old(order)
      ensures r.Ok? ==> users == old(users) - {id} && order == Pull(old(order), id)
      ensures forall k :: k in users ==> users[k] == old(users)[k]
    {
      if id !in users {
        return Err(DeleteNotPossible);
      }
      PullNoDuplicates(order, id);
      users := users - {id};
      order := Pull(order, id);
      r := Ok(());
    }

    /** removeEnemy */
    method RemoveEnemy(enemyIdToRemove: string, userId: string) returns (r: Result<User>)
      requires Valid()
      modifies this
      ensures Valid()
      ensures Step(r, users) == RemoveRelation(old(users), Enemy, enemyIdToRemove, userId) && order == old(order)
    {
      if userId !in users {
        return Err(UserNotFound);
      }
      var user := users[userId];
      if enemyIdToRemove !in user.enemies {
        return Ok(user);
      }
      users := users[userId := users[userId].(enemies := Pull(users[userId].enemies, enemyIdToRemove))];
      r := Ok(users[userId]);
    }

    /** removeFriend */
    method RemoveFriend(friendIdToRemove: string, userId: string) returns (r: Result<User>)
      requires Valid()
      modifies this
      ensures Valid()
      ensures Step(r, users) == RemoveRelation(old(users), Friend, friendIdToRemove, userId) && order == old(order)
    {
      if userId !in users {
        return Err(UserNotFound);
      }
      var user := users[userId];
      if friendIdToRemove !in user.friends {
        return Ok(user);
      }
      users := users[userId := users[userId].(friends := Pull(users[userId].friends, friendIdToRemove))];
      r := Ok(users[userId]);
    }
  }
}
