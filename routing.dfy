/**
 What each event handler of the chat engine does, stated over a snapshot of
 its three maps and the sends it makes, and the properties that follow.
 */
module Routing {
  import opened Envelopes
  import opened Registry
  import opened Directory

  /** The engine's state: the registry and both group indices. */
  datatype Snapshot = Snapshot(users: Users, groups: Groups, userGroups: Groups)

  /** The sender of `data` may be unbound only when the message goes to a group. */
  predicate CanDispatch(st: Snapshot, session: Session, data: MessageData)
  {
    data.kind == "message" && ParseRecipient(data.recipient).ToUser? ==>
      session in st.users && st.users[session].Some?
  }

  /** The name bound to `session`, if any. */
  function SenderOf(users: Users, session: Session): Option<Name>
  {
    if session in users then users[session] else None
  }

  /** The set built from a member list: the listed names, each once. */
  function MemberSet(members: seq<Name>): (s: set<Name>)
    ensures |s| <= |members|
  {
    DistinctBound(members);
    set m | m in members
  }

  /** A list has at least as many entries as distinct names. */
  lemma {:induction false} DistinctBound(members: seq<Name>)
    ensures |set m | m in members| <= |members|
    decreases |members|
  {
    if members != [] {
      var init, last := members[..|members| - 1], members[|members| - 1];
      DistinctBound(init);
      assert members == init + [last];
      assert (set m | m in members) == (set m | m in init) + {last};
    }
  }

  /** The set of a longer prefix of the list has one more element. */
  lemma MemberSetStep(members: seq<Name>, i: nat)
    requires i < |members|
    ensures MemberSet(members[..i + 1]) == MemberSet(members[..i]) + {members[i]}
  {
    assert members[..i + 1] == members[..i] + [members[i]];
  }

  /** The listed members that have a bound session, in list order, repeats kept. */
  function OnlineMembers(users: Users, members: seq<Name>): seq<Name>
  {
    if members == [] then []
    else
      var m := members[|members| - 1];
      OnlineMembers(users, members[..|members| - 1]) + (if SessionsNamed(users, m) != {} then [m] else [])
  }

  /** The opening of the announcement of group `g`. */
  function NoticeHeader(g: Name): string
  {
    "Group '" + g + "' has been created with members: "
  }

  /** The text of the system message announcing a new group: it opens with the group's name. */
  function CreationNotice(g: Name, members: seq<Name>): (s: string)
    ensures |NoticeHeader(g)| <= |s| && s[..|NoticeHeader(g)|] == NoticeHeader(g)
  {
    NoticeHeader(g) + Join(members, ", ")
  }

  /** Each listed member appears, in list order, at its place in the comma-separated list after the opening. */
  lemma CreationNoticeNamesMembers(g: Name, members: seq<Name>)
    ensures var s := CreationNotice(g, members);
      forall i :: 0 <= i < |members| ==>
        var k := |NoticeHeader(g)| + JoinOffset(members, ", ", i);
        k + |members[i]| <= |s| && s[k..k + |members[i]|] == members[i]
  {
    JoinPlacesParts(members, ", ");
  }

  /** Every logged-in session received one and the same list of the bound names; nobody else got anything. */
  ghost predicate UserListSent(sent: seq<Delivery>, users: Users)
  {
    exists env :: IsUserList(env, users) && Delivers(sent, LoggedIn(users), env)
  }

  /** `env` went to one session bound to `u`, or nowhere when `u` has none. */
  ghost predicate ToSomeSessionOf(sent: seq<Delivery>, users: Users, u: Name, env: Envelope)
  {
    if SessionsNamed(users, u) == {} then sent == []
    else |sent| == 1 && sent[0].to in SessionsNamed(users, u) && sent[0].envelope == env
  }

  /**
   For each listed member with a bound session, in list order, one group list
   went to one of its sessions, carrying that member's whole reverse entry.
   */
  ghost predicate GroupListsSent(sent: seq<Delivery>, st: Snapshot, members: seq<Name>)
  {
    var online := OnlineMembers(st.users, members);
    && |sent| == |online|
    && forall i :: 0 <= i < |sent| ==>
         && sent[i].to in SessionsNamed(st.users, online[i])
         && online[i] in st.userGroups
         && sent[i].envelope == GroupList(st.userGroups[online[i]])
  }

  /** A private message went to a session of the recipient (if any), then to a session of the sender. */
  ghost predicate PrivateSent(sent: seq<Delivery>, users: Users, sender: Name, recipient: Name, env: Envelope)
  {
    var k := if SessionsNamed(users, recipient) == {} then 0 else 1;
    && k <= |sent|
    && ToSomeSessionOf(sent[..k], users, recipient, env)
    && ToSomeSessionOf(sent[k..], users, sender, env)
  }

  /** A connection opens: it is registered with no name; nothing else changes. */
  ghost predicate OpenSpec(before: Snapshot, after: Snapshot, session: Session)
  {
    after == before.(users := before.users[session := None])
  }

  /**
   A login binds the session to `u` (whatever other sessions are bound to `u`),
   resets the reverse entry of `u` to the empty set, and sends the user list.
   */
  ghost predicate LoginSpec(before: Snapshot, after: Snapshot, session: Session, u: Name, sent: seq<Delivery>)
  {
    && after == Snapshot(before.users[session := Some(u)], before.groups, before.userGroups[u := {}])
    && UserListSent(sent, after.users)
  }

  /**
   Creating an existing group changes and sends nothing. Creating a new one
   stores its member set, adds it to each member's reverse entry, sends the
   group lists, then announces the group to every session of its members.
   */
  ghost predicate CreateGroupSpec(before: Snapshot, after: Snapshot, g: Name, members: seq<Name>, sent: seq<Delivery>)
  {
    if g in before.groups then after == before && sent == []
    else
      var memberSet := MemberSet(members);
      var k := |OnlineMembers(after.users, members)|;
      && after == Snapshot(before.users, before.groups[g := memberSet], WithGroupAdded(before.userGroups, g, memberSet))
      && k <= |sent|
      && GroupListsSent(sent[..k], after, members)
      && Delivers(sent[k..], SessionsOfMembers(after.users, memberSet), Group("System", g, CreationNotice(g, members)))
  }

  /** A new group's sends are its group lists followed by its announcement. */
  lemma CreateGroupSends(before: Snapshot, after: Snapshot, g: Name, members: seq<Name>, lists: seq<Delivery>, notices: seq<Delivery>)
    requires g !in before.groups
    requires after == Snapshot(before.users, before.groups[g := MemberSet(members)], WithGroupAdded(before.userGroups, g, MemberSet(members)))
    requires GroupListsSent(lists, after, members)
    requires Delivers(notices, SessionsOfMembers(after.users, MemberSet(members)), Group("System", g, CreationNotice(g, members)))
    ensures CreateGroupSpec(before, after, g, members, lists + notices)
  {
    var sent := lists + notices;
    assert sent[..|lists|] == lists && sent[|lists|..] == notices;
  }

  /**
   A chat message changes nothing. To `group:<g>` it reaches each session of
   each member of `g` once, and only if `g` exists and the sender is a member;
   to a user it is a private message with its echo.
   */
  ghost predicate MessageSpec(st: Snapshot, session: Session, recipient: string, content: string, sent: seq<Delivery>)
  {
    var sender := SenderOf(st.users, session);
    match ParseRecipient(recipient)
    case ToGroup(g) =>
      if g in st.groups && sender.Some? && sender.value in st.groups[g]
      then Delivers(sent, SessionsOfMembers(st.users, st.groups[g]), Group(sender.value, g, content))
      else sent == []
    case ToUser(r) =>
      sender.Some? && PrivateSent(sent, st.users, sender.value, r, Private(sender.value, r, content))
  }

  /**
   A connection closes: a bound user is removed from every group and loses its
   reverse entry; the session is dropped and the user list is sent.
   */
  ghost predicate CloseSpec(before: Snapshot, after: Snapshot, session: Session, sent: seq<Delivery>)
  {
    var u := SenderOf(before.users, session);
    && after.users == before.users - {session}
    && (if u.Some?
        then after.groups == WithoutMember(before.groups, u.value) && after.userGroups == before.userGroups - {u.value}
        else after.groups == before.groups && after.userGroups == before.userGroups)
    && UserListSent(sent, after.users)
  }

  /** An inbound record is handled by the handler its kind names; any other kind is ignored. */
  ghost predicate DispatchSpec(before: Snapshot, after: Snapshot, session: Session, data: MessageData, sent: seq<Delivery>)
  {
    if data.kind == "login" then LoginSpec(before, after, session, data.content, sent)
    else if data.kind == "createGroup" then CreateGroupSpec(before, after, data.content, data.groupMembers, sent)
    else if data.kind == "message" then after == before && MessageSpec(before, session, data.recipient, data.content, sent)
    else after == before && sent == []
  }
}
