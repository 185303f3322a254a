/**
 * GET /api/auth/me: resolves the `session` cookie to a user of the handler's own
 * module-level `users` array, seeded with the demo account and never modified.
 */
module MeRoute {
  import opened Wrappers
  import opened Accounts

  const USER_NOT_FOUND := "User not found"

  /** The handler's store: the demo account only, created when the module loaded. */
  function Users(loadedAt: string): seq<User> {
    [DemoUser(loadedAt)]
  }

  /** `users.find(u => u.id === sessionId)`, as the index found. */
  function FindById(users: seq<User>, id: string): (r: Option<nat>)
    ensures r.Some? ==> r.value < |users| && users[r.value].id == id
    ensures r.Some? ==> forall j :: 0 <= j < r.value ==> users[j].id != id
    ensures r.None? ==> forall j :: 0 <= j < |users| ==> users[j].id != id
  {
    if users == [] then None
    else if users[0].id == id then Some(0)
    else match FindById(users[1..], id)
      case None => None
      case Some(k) => Some(k + 1)
  }

  /** The handler: 401 without a (truthy) session, 404 for an unknown id, else the user's public fields. */
  function Get(users: seq<User>, session: Option<string>): (r: AuthResponse)
    ensures session.None? || session == Some("") ==> r == ErrorBody(401, NOT_AUTHENTICATED)
    ensures session.Some? && session.value != "" && (forall u :: u in users ==> u.id != session.value)
      ==> r == ErrorBody(404, USER_NOT_FOUND)
    ensures r.UserBody? <==> session.Some? && session.value != "" && exists u :: u in users && u.id == session.value
    ensures r.UserBody? ==>
      (r.user.id == session.value && r.session == None && exists u :: u in users && r.user == Public(u))
    ensures r.UserBody? ==>
      exists k :: (0 <= k < |users| && users[k].id == session.value && r.user == Public(users[k])
        && forall j :: 0 <= j < k ==> users[j].id != session.value)
  {
    if session.None? || session.value == "" then ErrorBody(401, NOT_AUTHENTICATED)
    else match FindById(users, session.value)
      case None =>
        assert forall u :: u in users ==> u.id != session.value;
        ErrorBody(404, USER_NOT_FOUND)
      case Some(k) =>
        assert users[k] in users;
        UserBody(Public(users[k]), None)
  }

  /** Against the seeded store, only the demo id resolves. */
  lemma OnlyDemoSession(loadedAt: string, id: string)
    requires id != ""
    ensures Get(Users(loadedAt), Some(id)) ==
      if id == DEMO_ID then UserBody(PublicUser(DEMO_ID, DEMO_EMAIL, DEMO_NAME), None)
      else ErrorBody(404, USER_NOT_FOUND)
  {
    assert DemoUser(loadedAt) in Users(loadedAt);
  }
}
