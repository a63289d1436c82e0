/**
 The session registry: the `users` map from each open session to the
 username it logged in with, or to nothing before login. Several sessions may
 be bound to the same name.
 */
module Registry {
  import opened Envelopes

  type Users = map<Session, Option<Name>>

  /** The sessions bound to `u`. */
  function SessionsNamed(users: Users, u: Name): set<Session>
  {
    set s | s in users && users[s] == Some(u)
  }

  /** The sessions that have logged in. */
  function LoggedIn(users: Users): set<Session>
  {
    set s | s in users && users[s].Some?
  }

  /** The sessions bound to any of `members`. */
  function SessionsOfMembers(users: Users, members: set<Name>): set<Session>
  {
    set s | s in users && users[s].Some? && users[s].value in members
  }

  /** `env` is a user list that names each user once per session bound to it. */
  ghost predicate IsUserList(env: Envelope, users: Users)
  {
    env.UserList? && forall n :: env.names[n] == |SessionsNamed(users, n)|
  }

  /**
   The search of `sendToUser` and `broadcastGroupList`: walk the sessions in
   the map's (unspecified) order and stop at the first one bound to `u`.
   */
  method FindSession(users: Users, u: Name) returns (found: Option<Session>)
    ensures found.None? <==> SessionsNamed(users, u) == {}
    ensures found.Some? ==> found.value in SessionsNamed(users, u)
  {
    var todo := users.Keys;
    while todo != {}
      invariant todo <= users.Keys
      invariant forall s :: s in users && s !in todo ==> users[s] != Some(u)
      decreases todo
    {
      var s :| s in todo;
      if users[s] == Some(u) {
        assert s in SessionsNamed(users, u);
        return Some(s);
      }
      todo := todo - {s};
    }
    assert forall s :: s in users ==> users[s] != Some(u);
    return None;
  }

  /** Binding one more session to `s` adds it to the sessions of its name only. */
  lemma SessionsNamedGrow(users: Users, todo: set<Session>, s: Session, n: Name)
    requires s in todo && todo <= users.Keys
    ensures s !in SessionsNamed(users - todo, n)
    ensures SessionsNamed(users - (todo - {s}), n)
         == SessionsNamed(users - todo, n) + (if users[s] == Some(n) then {s} else {})
  {
  }

  /**
   The list `broadcastUserList` builds: the values of `users` with the
   absent names removed, one entry per bound session.
   */
  method ListBoundNames(users: Users) returns (names: multiset<Name>)
    ensures forall n :: names[n] == |SessionsNamed(users, n)|
  {
    names := multiset{};
    var todo := users.Keys;
    while todo != {}
      invariant todo <= users.Keys
      invariant forall n :: names[n] == |SessionsNamed(users - todo, n)|
      decreases todo
    {
      var s :| s in todo;
      forall n ensures SessionsNamed(users - (todo - {s}), n)
                    == SessionsNamed(users - todo, n) + (if users[s] == Some(n) then {s} else {}) {
        SessionsNamedGrow(users, todo, s, n);
      }
      if users[s].Some? {
        names := names + multiset{users[s].value};
      }
      todo := todo - {s};
    }
    assert users - todo == users;
  }

  /** A user list names exactly the users that have at least one bound session. */
  lemma UserListNamesBound(env: Envelope, users: Users, n: Name)
    requires IsUserList(env, users)
    ensures n in env.names <==> exists s :: s in users && users[s] == Some(n)
  {
    if exists s :: s in users && users[s] == Some(n) {
      var s :| s in users && users[s] == Some(n);
      assert s in SessionsNamed(users, n);
    }
    if n in env.names {
      var s :| s in SessionsNamed(users, n);
    }
  }
}
