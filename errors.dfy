/** The errors the user store raises (the HttpError class of types/http.error.js)
    and the shape of a promise's outcome: a value, or the HttpError it rejects with. */
module Errors {

  /** An HTTP error: status code, reason phrase and message. */
  datatype HttpError = HttpError(status: nat, statusMessage: string, message: string)

  datatype Option<T> = None | Some(value: T)

  /** A repository call resolves with a value or rejects with an HttpError. */
  datatype Result<T> = Ok(value: T) | Err(error: HttpError)

  /** 401: no user has the email, or the password does not match (no message is given). */
  const Unauthorized := HttpError(401, "Unauthorized", "")

  /** 406: a user tries to relate to, or update into, itself. */
  const SelfReference := HttpError(406, "Not Acceptable", "You can´t add yourself")

  /** 404 of getById. */
  const GetByIdNotPossible := HttpError(404, "Not Found", "GetByid not possible")

  /** 404 of the four relation operations. */
  const UserNotFound := HttpError(404, "Not Found", "User not found")

  /** 404 of update. */
  const UpdateNotPossible := HttpError(404, "Not Found", "Update not possible")

  /** 404 of delete. */
  const DeleteNotPossible := HttpError(404, "Not Found", "Delete not possible")
}
