/**
 * POST /api/auth/signup: the handler's own module-level `users` array, which starts
 * empty, a duplicate-email check by strict (case-sensitive) equality, then an append.
 * The random id and the creation timestamp are parameters.
 */
module SignupRoute {
  import opened Wrappers
  import opened Accounts

  const USER_EXISTS := "User already exists"

  predicate EmailTaken(users: seq<User>, email: string) {
    exists u :: u in users && u.email == email
  }

  predicate DistinctEmails(users: seq<User>) {
    forall i, j :: 0 <= i < j < |users| ==> users[i].email != users[j].email
  }

  /** The effect of one signup request on the store, and its response. */
  function Register(users: seq<User>, email: string, password: string, name: string, id: string, createdAt: string)
    : (res: (seq<User>, AuthResponse))
    ensures res.1.ErrorBody? <==> EmailTaken(users, email)
    ensures res.1.ErrorBody? ==> res.0 == users && res.1.status == 400
    ensures res.1.UserBody? ==>
      && |res.0| == |users| + 1 && res.0[..|users|] == users
      && res.0[|users|].email == email && res.0[|users|].password == password
      && res.0[|users|].name == name && res.0[|users|].id == id
      && res.1.user == Public(res.0[|users|])
      && res.1.session == Some(res.0[|users|].id)
  {
    if EmailTaken(users, email) then (users, ErrorBody(400, USER_EXISTS))
    else
      var u := User(id, email, password, name, createdAt);
      assert (users + [u])[..|users|] == users;
      (users + [u], UserBody(Public(u), Some(id)))
  }

  /** Every signup keeps the emails of the store pairwise distinct. */
  lemma RegisterKeepsEmailsDistinct(users: seq<User>, email: string, password: string, name: string, id: string, createdAt: string)
    requires DistinctEmails(users)
    ensures DistinctEmails(Register(users, email, password, name, id, createdAt).0)
  {
    var after := Register(users, email, password, name, id, createdAt).0;
    if !EmailTaken(users, email) {
      forall i, j | 0 <= i < j < |after|
        ensures after[i].email != after[j].email
      {
        if j == |users| {
          assert after[i] == users[i];
          assert users[i] in users;
        } else {
          assert after[i] == users[i] && after[j] == users[j];
        }
      }
    }
  }

  /** Signing up with an email twice in a row: the second attempt is rejected and changes nothing. */
  lemma RegisterTwiceRejected(users: seq<User>, email: string, p1: string, n1: string, id1: string, t1: string,
                              p2: string, n2: string, id2: string, t2: string)
    ensures var first := Register(users, email, p1, n1, id1, t1).0;
      Register(first, email, p2, n2, id2, t2) == (first, ErrorBody(400, USER_EXISTS))
  {
    var first := Register(users, email, p1, n1, id1, t1).0;
    if !EmailTaken(users, email) {
      assert first[|users|] in first;
    }
  }

  /** The handler's module-level store. */
  class SignupStore {
    var users: seq<User>

    ghost predicate Valid()
      reads this
    {
      DistinctEmails(users)
    }

    constructor ()
      ensures Valid() && users == []
    {
      users := [];
    }

    /** `users.find(user => user.email === email)`, then `users.push(user)` when nothing was found. */
    method Post(email: string, password: string, name: string, id: string, createdAt: string) returns (r: AuthResponse)
      requires Valid()
      modifies this
      ensures Valid()
      ensures (users, r) == Register(old(users), email, password, name, id, createdAt)
    {
      var i := 0;
      while i < |users|
        invariant 0 <= i <= |users|
        invariant forall j :: 0 <= j < i ==> users[j].email != email
      {
        if users[i].email == email {
          assert users[i] in users;
          return ErrorBody(400, USER_EXISTS);
        }
        i := i + 1;
      }
      RegisterKeepsEmailsDistinct(users, email, password, name, id, createdAt);
      var user := User(id, email, password, name, createdAt);
      users := users + [user];
      r := UserBody(PublicUser(user.id, user.email, user.name), Some(user.id));
    }
  }

  /** Two signups with one email on a fresh store: the first succeeds, the second is refused. */
  method SignupTwice(email: string, password: string, name: string, id1: string, id2: string, t: string)
    returns (first: AuthResponse, second: AuthResponse)
    ensures first == UserBody(PublicUser(id1, email, name), Some(id1))
    ensures second == ErrorBody(400, USER_EXISTS)
  {
    var store := new SignupStore();
    first := store.Post(email, password, name, id1, t);
    second := store.Post(email, password, name, id2, t);
  }
}
