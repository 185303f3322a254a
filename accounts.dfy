/**
 * The user record declared (three times, identically) by the signup, login and
 * "me" handlers, the public projection their responses return, and the demo
 * account the login and "me" stores are seeded with.
 */
module Accounts {
  import opened Wrappers

  datatype User = User(id: string, email: string, password: string, name: string, createdAt: string)

  /** The `{ id, email, name }` response body; it has no place for the password. */
  datatype PublicUser = PublicUser(id: string, email: string, name: string)

  function Public(u: User): PublicUser {
    PublicUser(u.id, u.email, u.name)
  }

  /**
   * A handler's outcome: status 200 with a public user and possibly a new `session`
   * cookie value, or an error status with its message.
   */
  datatype AuthResponse =
    | UserBody(user: PublicUser, session: Option<string>)
    | ErrorBody(status: int, error: string)

  const NOT_AUTHENTICATED := "Not authenticated"

  const DEMO_ID := "demo-user-1"
  const DEMO_EMAIL := "demo@bookburst.com"
  const DEMO_PASSWORD := "password123"
  const DEMO_NAME := "Demo User"

  /** The seeded account; `createdAt` is the time its module was loaded. */
  function DemoUser(createdAt: string): User {
    User(DEMO_ID, DEMO_EMAIL, DEMO_PASSWORD, DEMO_NAME, createdAt)
  }
}
