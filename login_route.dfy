/**
 * POST /api/auth/login: a `find` over the handler's own module-level `users` array,
 * seeded with the demo account and never modified, on exact email and password.
 */
module LoginRoute {
  import opened Wrappers
  import opened Accounts

  const INVALID_CREDENTIALS := "Invalid credentials"

  /** The handler's store: the demo account only, created when the module loaded. */
  function Users(loadedAt: string): seq<User> {
    [DemoUser(loadedAt)]
  }

  predicate Matches(u: User, email: string, password: string) {
    u.email == email && u.password == password
  }

  /** `users.find(u => u.email === email && u.password === password)`, as the index found. */
  function FindByCredentials(users: seq<User>, email: string, password: string): (r: Option<nat>)
    ensures r.Some? ==> r.value < |users| && Matches(users[r.value], email, password)
    ensures r.Some? ==> forall j :: 0 <= j < r.value ==> !Matches(users[j], email, password)
    ensures r.None? ==> forall j :: 0 <= j < |users| ==> !Matches(users[j], email, password)
  {
    if users == [] then None
    else if Matches(users[0], email, password) then Some(0)
    else match FindByCredentials(users[1..], email, password)
      case None => None
      case Some(k) => Some(k + 1)
  }

  /**
   * The handler: 200 with the first matching user's public fields and that user's
   * id as the new session cookie, or 401 and no cookie.
   */
  function Post(users: seq<User>, email: string, password: string): (r: AuthResponse)
    ensures r.UserBody? <==> exists u :: u in users && Matches(u, email, password)
    ensures r.ErrorBody? ==> r == ErrorBody(401, INVALID_CREDENTIALS)
    ensures r.UserBody? ==> r.user.email == email && r.session == Some(r.user.id)
    ensures r.UserBody? ==>
      exists k :: (0 <= k < |users| && r.user == Public(users[k]) && Matches(users[k], email, password)
        && forall j :: 0 <= j < k ==> !Matches(users[j], email, password))
  {
    match FindByCredentials(users, email, password)
    case None =>
      assert forall u :: u in users ==> !Matches(u, email, password);
      ErrorBody(401, INVALID_CREDENTIALS)
    case Some(k) =>
      assert users[k] in users;
      UserBody(Public(users[k]), Some(users[k].id))
  }

  /** The store is never written, so only the demo credentials ever log in. */
  lemma OnlyDemoCredentials(loadedAt: string, email: string, password: string)
    ensures Post(Users(loadedAt), email, password).UserBody?
      <==> email == DEMO_EMAIL && password == DEMO_PASSWORD
    ensures Post(Users(loadedAt), email, password).UserBody? ==>
      Post(Users(loadedAt), email, password) == UserBody(PublicUser(DEMO_ID, DEMO_EMAIL, DEMO_NAME), Some(DEMO_ID))
  {
    assert DemoUser(loadedAt) in Users(loadedAt);
  }
}
