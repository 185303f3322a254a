/**
 * How the three authentication handlers relate. Each declares its own `users`
 * array, so an account created by signup is never seen by login or "me"; the
 * second half states what holds once the handlers share one store.
 */
module AuthFindings {
  import opened Wrappers
  import opened Accounts
  import SignupRoute
  import LoginRoute
  import MeRoute

  /** With the stores as written, a fresh signup cannot log in unless it repeats the demo credentials. */
  lemma SignupCannotLogIn(signupUsers: seq<User>, loadedAt: string,
                          email: string, password: string, name: string, id: string, createdAt: string)
    requires SignupRoute.Register(signupUsers, email, password, name, id, createdAt).1.UserBody?
    requires email != DEMO_EMAIL || password != DEMO_PASSWORD
    ensures LoginRoute.Post(LoginRoute.Users(loadedAt), email, password)
      == ErrorBody(401, LoginRoute.INVALID_CREDENTIALS)
  {
    LoginRoute.OnlyDemoCredentials(loadedAt, email, password);
  }

  /** With the stores as written, the session cookie signup sets resolves to 404 on "me". */
  lemma SignupSessionUnknown(signupUsers: seq<User>, loadedAt: string,
                             email: string, password: string, name: string, id: string, createdAt: string)
    requires SignupRoute.Register(signupUsers, email, password, name, id, createdAt).1.UserBody?
    requires id != "" && id != DEMO_ID
    ensures var session := SignupRoute.Register(signupUsers, email, password, name, id, createdAt).1.session;
      MeRoute.Get(MeRoute.Users(loadedAt), session) == ErrorBody(404, MeRoute.USER_NOT_FOUND)
  {
    MeRoute.OnlyDemoSession(loadedAt, id);
  }

  /** A concrete instance: the first signup of `reader@example.com` succeeds, and logging in with it fails. */
  lemma SignupThenLoginFails(loadedAt: string, createdAt: string)
    ensures SignupRoute.Register([], "reader@example.com", "secret", "Reader", "u1", createdAt).1
      == UserBody(PublicUser("u1", "reader@example.com", "Reader"), Some("u1"))
    ensures LoginRoute.Post(LoginRoute.Users(loadedAt), "reader@example.com", "secret")
      == ErrorBody(401, LoginRoute.INVALID_CREDENTIALS)
  {
    SignupCannotLogIn([], loadedAt, "reader@example.com", "secret", "Reader", "u1", createdAt);
  }

  /**
   * With one shared store, logging in with the credentials just registered
   * succeeds and yields the new account, since its email is not held by any older one.
   */
  lemma SharedStoreLogin(users: seq<User>, email: string, password: string, name: string, id: string, createdAt: string)
    requires SignupRoute.Register(users, email, password, name, id, createdAt).1.UserBody?
    ensures var after := SignupRoute.Register(users, email, password, name, id, createdAt).0;
      LoginRoute.Post(after, email, password) == UserBody(PublicUser(id, email, name), Some(id))
  {
    var after := SignupRoute.Register(users, email, password, name, id, createdAt).0;
    assert LoginRoute.Matches(after[|users|], email, password);
    forall j | 0 <= j < |users|
      ensures !LoginRoute.Matches(after[j], email, password)
    {
      assert after[j] == users[j] && users[j] in users;
    }
  }

  /**
   * With one shared store, the session signup sets resolves on "me" to an account
   * with that id: the new one, unless an older account drew the same id.
   */
  lemma SharedStoreMe(users: seq<User>, email: string, password: string, name: string, id: string, createdAt: string)
    requires SignupRoute.Register(users, email, password, name, id, createdAt).1.UserBody?
    requires id != ""
    ensures var (after, r) := SignupRoute.Register(users, email, password, name, id, createdAt);
      var me := MeRoute.Get(after, r.session);
      && me.UserBody? && me.user.id == id
      && ((forall j :: 0 <= j < |users| ==> users[j].id != id) ==> me.user == PublicUser(id, email, name))
  {
    var after := SignupRoute.Register(users, email, password, name, id, createdAt).0;
    assert after[|users|] in after;
    assert forall j :: 0 <= j < |users| ==> after[j] == users[j];
  }
}
