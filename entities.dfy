/** The user entity (entities/user.ts). The friends and enemies lists hold user ids:
    the store pushes and pulls raw ids into them. */
module Entities {
  import opened Errors

  /** Email and password, the credentials of a login. */
  datatype LoginUser = LoginUser(email: string, passwd: string)

  /** A stored user record. */
  datatype User = User(
    id: string,
    email: string,
    passwd: string,
    name: string,
    surname: string,
    age: int,
    friends: seq<string>,
    enemies: seq<string>)

  /** A user as given to create: every field but the id. */
  datatype NewUser = NewUser(
    email: string,
    passwd: string,
    name: string,
    surname: string,
    age: int,
    friends: seq<string>,
    enemies: seq<string>)

  /** The outcome of one store operation on the id -> record table:
      what the call resolves or rejects with, and the table afterwards. */
  datatype Step = Step(result: Result<User>, table: map<string, User>)

  /** Two records that agree on everything but the friends and enemies lists. */
  predicate SameProfile(u: User, v: User) {
    u.id == v.id && u.email == v.email && u.passwd == v.passwd &&
    u.name == v.name && u.surname == v.surname && u.age == v.age
  }
}
