/** The Auth service: password hashing, password comparison and token signing.
    They are foreign library calls (bcrypt and a JWT library), so the model takes
    them as arbitrary functions and states nothing about them. */
module Auth {

  /** The claims a login token carries. */
  datatype TokenPayload = TokenPayload(id: string, email: string)

  datatype AuthService = AuthService(
    hash: string -> string,
    comparison: (string, string) -> bool,
    signJWT: TokenPayload -> string)
}
