/**
 Properties of the engine that relate several handler steps, or that follow
 from one step for particular states: routing of chat messages, duplicate
 requests, what a disconnect does, and an end-to-end session.
 */
module Properties {
  import opened Envelopes
  import opened Registry
  import opened Directory
  import opened Routing

  /**
   A private message between two users with one session each reaches exactly
   those two sessions: first the recipient, then the sender's echo.
   */
  lemma PrivateEcho(st: Snapshot, sa: Session, sb: Session, a: Name, b: Name, text: string, sent: seq<Delivery>)
    requires SessionsNamed(st.users, a) == {sa} && SessionsNamed(st.users, b) == {sb}
    requires !(GroupPrefix <= b)
    requires MessageSpec(st, sa, b, text, sent)
    ensures sent == [Delivery(sb, Private(a, b, text)), Delivery(sa, Private(a, b, text))]
    ensures a != b ==> forall s :: Inbox(sent, s) == if s == sa || s == sb then [Private(a, b, text)] else []
  {
    assert sa in SessionsNamed(st.users, a);
    var env := Private(a, b, text);
    assert sent[..1] == [Delivery(sb, env)];
    assert sent[1..] == [Delivery(sa, env)];
    assert sent == sent[..1] + sent[1..];
    if a != b {
      assert sb in SessionsNamed(st.users, b);
      forall s ensures Inbox(sent, s) == if s == sa || s == sb then [env] else [] {
        InboxPair(Delivery(sb, env), Delivery(sa, env), s);
      }
    }
  }

  /** What each session receives from two sends. */
  lemma InboxPair(d0: Delivery, d1: Delivery, s: Session)
    ensures Inbox([d0, d1], s)
         == (if d0.to == s then [d0.envelope] else []) + (if d1.to == s then [d1.envelope] else [])
  {
    assert Inbox([d0], s) == (if d0.to == s then [d0.envelope] else []) by {
      assert [d0][..0] == [];
    }
    assert [d0, d1][..1] == [d0];
  }

  /**
   A message to `group:<g>` reaches every session of every member of `g`
   exactly once, the sender's own session included, when `g` exists and the
   sender is a member; otherwise nobody receives anything.
   */
  lemma GroupAddressRouting(st: Snapshot, session: Session, g: Name, text: string, sent: seq<Delivery>)
    requires MessageSpec(st, session, GroupPrefix + g, text, sent)
    ensures var sender := SenderOf(st.users, session);
      if g in st.groups && sender.Some? && sender.value in st.groups[g] then
        && Inbox(sent, session) == [Group(sender.value, g, text)]
        && forall s :: Inbox(sent, s) ==
             if s in st.users && st.users[s].Some? && st.users[s].value in st.groups[g]
             then [Group(sender.value, g, text)] else []
      else sent == []
  {
    ParseRecipientText(ToGroup(g));
    var sender := SenderOf(st.users, session);
    if g in st.groups && sender.Some? && sender.value in st.groups[g] {
      assert session in SessionsOfMembers(st.users, st.groups[g]);
    }
  }

  /**
   Creating a group a second time, with any member list, leaves the state of
   the first creation as it is and sends nothing.
   */
  lemma SecondCreateIsIgnored(
    st0: Snapshot, st1: Snapshot, st2: Snapshot, g: Name,
    members: seq<Name>, others: seq<Name>, sent1: seq<Delivery>, sent2: seq<Delivery>)
    requires CreateGroupSpec(st0, st1, g, members, sent1)
    requires CreateGroupSpec(st1, st2, g, others, sent2)
    ensures g in st1.groups && st2 == st1 && sent2 == []
  {
  }

  /**
   A login with a name another session already holds leaves both sessions
   bound to it, and the user list sent to each of them names the user at least
   twice.
   */
  lemma DuplicateLoginKeepsBoth(before: Snapshot, after: Snapshot, s1: Session, s2: Session, u: Name, sent: seq<Delivery>)
    requires s1 != s2 && s1 in before.users && before.users[s1] == Some(u)
    requires LoginSpec(before, after, s2, u, sent)
    ensures {s1, s2} <= SessionsNamed(after.users, u)
    ensures |Inbox(sent, s1)| == 1 && |Inbox(sent, s2)| == 1
    ensures forall i :: 0 <= i < |sent| ==> sent[i].envelope.UserList? && sent[i].envelope.names[u] >= 2
  {
    var env :| IsUserList(env, after.users) && Delivers(sent, LoggedIn(after.users), env);
    assert s1 in LoggedIn(after.users) && s2 in LoggedIn(after.users);
    assert {s1, s2} <= SessionsNamed(after.users, u);
    assert |{s1, s2}| == 2;
    SubsetCardinality({s1, s2}, SessionsNamed(after.users, u));
    DeliversOnlyEnv(sent, LoggedIn(after.users), env);
  }

  lemma SubsetCardinality(a: set<Session>, b: set<Session>)
    requires a <= b
    ensures |a| <= |b|
  {
    assert b == a + (b - a);
  }

  /**
   Closing a session takes its user out of every group. A user who reconnects
   and logs in again is therefore no longer a member, and a message it sends to
   its former group is dropped.
   */
  lemma ReconnectLosesMembership(
    st0: Snapshot, st1: Snapshot, st2: Snapshot, st3: Snapshot,
    s1: Session, s2: Session, u: Name, g: Name, text: string,
    sent1: seq<Delivery>, sent2: seq<Delivery>, sent3: seq<Delivery>)
    requires s1 in st0.users && st0.users[s1] == Some(u) && g in st0.groups
    requires CloseSpec(st0, st1, s1, sent1)
    requires OpenSpec(st1, st2, s2)
    requires LoginSpec(st2, st3, s2, u, sent2)
    requires MessageSpec(st3, s2, GroupPrefix + g, text, sent3)
    ensures g in st3.groups && u !in st3.groups[g]
    ensures sent3 == []
  {
    GroupAddressRouting(st3, s2, g, text, sent3);
  }

  /** Every handler except login keeps the forward and reverse group indices in agreement. */
  lemma DispatchKeepsInSync(before: Snapshot, after: Snapshot, session: Session, data: MessageData, sent: seq<Delivery>)
    requires InSync(before.groups, before.userGroups)
    requires DispatchSpec(before, after, session, data, sent)
    requires data.kind != "login"
    ensures InSync(after.groups, after.userGroups)
  {
    if data.kind == "createGroup" && data.content !in before.groups {
      CreateKeepsInSync(before.groups, before.userGroups, data.content, MemberSet(data.groupMembers));
    }
  }

  /** Closing a session keeps the forward and reverse group indices in agreement. */
  lemma CloseKeepsInSync(before: Snapshot, after: Snapshot, session: Session, sent: seq<Delivery>)
    requires InSync(before.groups, before.userGroups)
    requires CloseSpec(before, after, session, sent)
    ensures InSync(after.groups, after.userGroups)
  {
    var u := SenderOf(before.users, session);
    if u.Some? {
      RemoveKeepsInSync(before.groups, before.userGroups, u.value);
    }
  }

  /** With one session bound, the user list is that one name. */
  lemma OneUserList(env: Envelope, users: Users, s1: Session, a: Name)
    requires users == map[s1 := Some(a)]
    requires IsUserList(env, users)
    ensures env == UserList(multiset{a})
  {
    assert SessionsNamed(users, a) == {s1};
    forall n ensures env.names[n] == multiset{a}[n] {
      if n != a {
        assert SessionsNamed(users, n) == {};
      }
    }
  }

  /** With two sessions bound to two different names, the user list is exactly those two names. */
  lemma TwoUsersList(env: Envelope, users: Users, s1: Session, s2: Session, a: Name, b: Name)
    requires users == map[s1 := Some(a), s2 := Some(b)] && s1 != s2 && a != b
    requires IsUserList(env, users)
    ensures env == UserList(multiset{a, b})
  {
    assert SessionsNamed(users, a) == {s1};
    assert SessionsNamed(users, b) == {s2};
    forall n ensures env.names[n] == multiset{a, b}[n] {
      if n != a && n != b {
        assert SessionsNamed(users, n) == {};
      }
    }
  }

  /** The state after two connections open and log in as `alice` and `bob`. */
  lemma ScenarioLoginState(
    st0: Snapshot, st1: Snapshot, st2: Snapshot, st3: Snapshot, st4: Snapshot,
    sent1: seq<Delivery>, sent2: seq<Delivery>)
    requires st0 == Snapshot(map[], map[], map[])
    requires OpenSpec(st0, st1, 1)
    requires LoginSpec(st1, st2, 1, "alice", sent1)
    requires OpenSpec(st2, st3, 2)
    requires LoginSpec(st3, st4, 2, "bob", sent2)
    ensures st2.users == map[1 := Some("alice")]
    ensures st4 == Snapshot(map[1 := Some("alice"), 2 := Some("bob")], map[], map["alice" := {}, "bob" := {}])
  {
  }

  /**
   Both logins send the user list to every logged-in session: first alice
   alone, then alice and bob, each of them named once.
   */
  lemma ScenarioLogins(
    st0: Snapshot, st1: Snapshot, st2: Snapshot, st3: Snapshot, st4: Snapshot,
    sent1: seq<Delivery>, sent2: seq<Delivery>)
    requires st0 == Snapshot(map[], map[], map[])
    requires OpenSpec(st0, st1, 1)
    requires LoginSpec(st1, st2, 1, "alice", sent1)
    requires OpenSpec(st2, st3, 2)
    requires LoginSpec(st3, st4, 2, "bob", sent2)
    ensures Inbox(sent1, 1) == [UserList(multiset{"alice"})]
    ensures Inbox(sent2, 1) == [UserList(multiset{"alice", "bob"})] && Inbox(sent2, 2) == Inbox(sent2, 1)
  {
    ScenarioLoginState(st0, st1, st2, st3, st4, sent1, sent2);
    var env1 :| IsUserList(env1, st2.users) && Delivers(sent1, LoggedIn(st2.users), env1);
    OneUserList(env1, st2.users, 1, "alice");
    assert 1 in LoggedIn(st2.users);
    var env2 :| IsUserList(env2, st4.users) && Delivers(sent2, LoggedIn(st4.users), env2);
    TwoUsersList(env2, st4.users, 1, 2, "alice", "bob");
    assert 1 in LoggedIn(st4.users) && 2 in LoggedIn(st4.users);
  }

  /** The reverse index after `team` is created with both users, who had empty entries. */
  lemma TeamAdded()
    ensures WithGroupAdded(map["alice" := {}, "bob" := {}], "team", {"alice", "bob"})
         == map["alice" := {"team"}, "bob" := {"team"}]
  {
    var ug := WithGroupAdded(map["alice" := {}, "bob" := {}], "team", {"alice", "bob"});
    var expected: Groups := map["alice" := {"team"}, "bob" := {"team"}];
    assert ug.Keys == expected.Keys;
    forall u | u in ug ensures ug[u] == expected[u] {
    }
  }

  /** Creating `team` with both logged-in users stores the group in both indices. */
  lemma ScenarioCreateState(st4: Snapshot, st5: Snapshot, sent: seq<Delivery>)
    requires st4 == Snapshot(map[1 := Some("alice"), 2 := Some("bob")], map[], map["alice" := {}, "bob" := {}])
    requires CreateGroupSpec(st4, st5, "team", ["alice", "bob"], sent)
    ensures st5 == Snapshot(st4.users, map["team" := {"alice", "bob"}], map["alice" := {"team"}, "bob" := {"team"}])
  {
    assert MemberSet(["alice", "bob"]) == {"alice", "bob"};
    TeamAdded();
  }

  /** In the state after `team` is created, both members are online and their sessions are 1 and 2. */
  lemma TeamOnline(st5: Snapshot)
    requires st5.users == map[1 := Some("alice"), 2 := Some("bob")]
    ensures OnlineMembers(st5.users, ["alice", "bob"]) == ["alice", "bob"]
    ensures SessionsNamed(st5.users, "alice") == {1} && SessionsNamed(st5.users, "bob") == {2}
    ensures SessionsOfMembers(st5.users, {"alice", "bob"}) == {1, 2}
  {
    var members := ["alice", "bob"];
    assert SessionsNamed(st5.users, "alice") == {1};
    assert SessionsNamed(st5.users, "bob") == {2};
    assert members[..1] == ["alice"] && members[..1][..0] == [];
    assert OnlineMembers(st5.users, ["alice"]) == ["alice"];
    assert OnlineMembers(st5.users, members) == members;
  }

  /** Creating `team` first sends the two group lists, one to each member's session. */
  lemma ScenarioGroupLists(st4: Snapshot, st5: Snapshot, sent: seq<Delivery>)
    requires st4 == Snapshot(map[1 := Some("alice"), 2 := Some("bob")], map[], map["alice" := {}, "bob" := {}])
    requires CreateGroupSpec(st4, st5, "team", ["alice", "bob"], sent)
    ensures 2 <= |sent| && sent[..2] == [Delivery(1, GroupList({"team"})), Delivery(2, GroupList({"team"}))]
  {
    ScenarioCreateState(st4, st5, sent);
    TeamOnline(st5);
  }

  /** After the group lists, the announcement goes to sessions 1 and 2 once each. */
  lemma ScenarioNotice(st4: Snapshot, st5: Snapshot, sent: seq<Delivery>)
    requires st4 == Snapshot(map[1 := Some("alice"), 2 := Some("bob")], map[], map["alice" := {}, "bob" := {}])
    requires CreateGroupSpec(st4, st5, "team", ["alice", "bob"], sent)
    ensures 2 <= |sent| && Delivers(sent[2..], {1, 2}, Group("System", "team", CreationNotice("team", ["alice", "bob"])))
  {
    ScenarioCreateState(st4, st5, sent);
    TeamOnline(st5);
    assert MemberSet(["alice", "bob"]) == {"alice", "bob"};
  }

  /**
   Creating `team` sends each of its two members its group list and then the
   announcement, and nothing to anyone else.
   */
  lemma ScenarioCreate(st4: Snapshot, st5: Snapshot, sent: seq<Delivery>)
    requires st4 == Snapshot(map[1 := Some("alice"), 2 := Some("bob")], map[], map["alice" := {}, "bob" := {}])
    requires CreateGroupSpec(st4, st5, "team", ["alice", "bob"], sent)
    ensures var notice := Group("System", "team", CreationNotice("team", ["alice", "bob"]));
      forall s :: Inbox(sent, s) == if s == 1 || s == 2 then [GroupList({"team"}), notice] else []
  {
    ScenarioGroupLists(st4, st5, sent);
    ScenarioNotice(st4, st5, sent);
    ListsThenFanOut(sent, GroupList({"team"}), Group("System", "team", CreationNotice("team", ["alice", "bob"])));
  }

  /** Two sends to sessions 1 and 2 followed by a fan-out to both give each of them two envelopes. */
  lemma ListsThenFanOut(sent: seq<Delivery>, list: Envelope, notice: Envelope)
    requires 2 <= |sent| && sent[..2] == [Delivery(1, list), Delivery(2, list)]
    requires Delivers(sent[2..], {1, 2}, notice)
    ensures forall s :: Inbox(sent, s) == if s == 1 || s == 2 then [list, notice] else []
  {
    assert sent == [Delivery(1, list), Delivery(2, list)] + sent[2..];
    forall s ensures Inbox(sent, s) == if s == 1 || s == 2 then [list, notice] else [] {
      ListsThenFanOutAt(sent[2..], list, notice, s);
    }
  }

  /** The same, for one session. */
  lemma ListsThenFanOutAt(rest: seq<Delivery>, list: Envelope, notice: Envelope, s: Session)
    requires Delivers(rest, {1, 2}, notice)
    ensures Inbox([Delivery(1, list), Delivery(2, list)] + rest, s) == if s == 1 || s == 2 then [list, notice] else []
  {
    var pair := [Delivery(1, list), Delivery(2, list)];
    InboxAppend(pair, rest, s);
    InboxPair(Delivery(1, list), Delivery(2, list), s);
    assert Inbox(rest, s) == if s in {1, 2} then [notice] else [];
    if s == 1 || s == 2 {
      assert Inbox(pair, s) == [list];
      assert [list] + [notice] == [list, notice];
    } else {
      assert Inbox(pair, s) == [];
    }
  }

  /** In the same state, alice's message to `group:team` reaches both sessions once. */
  lemma ScenarioChat(st5: Snapshot, sent: seq<Delivery>)
    requires st5 == Snapshot(
      map[1 := Some("alice"), 2 := Some("bob")],
      map["team" := {"alice", "bob"}],
      map["alice" := {"team"}, "bob" := {"team"}])
    requires MessageSpec(st5, 1, "group:team", "hi team", sent)
    ensures Inbox(sent, 1) == [Group("alice", "team", "hi team")]
    ensures Inbox(sent, 2) == [Group("alice", "team", "hi team")]
  {
    assert "group:team" == GroupPrefix + "team";
    GroupAddressRouting(st5, 1, "team", "hi team", sent);
  }
}
