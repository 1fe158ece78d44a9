/** Types shared by the authentication service and the book service. */
module Common {

  datatype Option<+T> = None | Some(value: T)

  /** The identity a signed session token carries: the login payload
      `{id, username, role}` that the auth service signs and the book
      service gets back from token verification. */
  datatype Claims = Claims(id: int, username: string, role: string)

  /** The role string that unlocks the book-administration routes. */
  const AdminRole: string := "admin"
}
