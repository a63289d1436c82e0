/**
 The WebSocket endpoint: one object holding the three maps, changed in place
 by the connection callbacks, and the record of every envelope sent.
 Handlers run one at a time, each to completion.
 */
module Server {
  import opened Envelopes
  import opened Registry
  import opened Directory
  import opened Routing

  class ChatServer {
    /** Open sessions and the username each logged in with (none before login). */
    var users: Users
    /** Group name to its member names. */
    var groups: Groups
    /** Username to the names of its groups. */
    var userGroups: Groups
    /** Every `sendText`, in order. */
    var outbox: seq<Delivery>

    function State(): Snapshot
      reads this
    {
      Snapshot(users, groups, userGroups)
    }

    constructor ()
      ensures State() == Snapshot(map[], map[], map[]) && outbox == []
    {
      users, groups, userGroups, outbox := map[], map[], map[], [];
    }

    method OnOpen(session: Session)
      modifies this
      ensures OpenSpec(old(State()), State(), session)
      ensures outbox == old(outbox)
    {
      users := users[session := None];
    }

    method OnMessage(data: MessageData, session: Session)
      requires CanDispatch(State(), session, data)
      modifies this
      ensures old(outbox) <= outbox
      ensures DispatchSpec(old(State()), State(), session, data, outbox[|old(outbox)|..])
    {
      if data.kind == "login" {
        HandleLogin(session, data.content);
      } else if data.kind == "createGroup" {
        HandleCreateGroup(data.content, data.groupMembers);
      } else if data.kind == "message" {
        HandleMessage(session, data);
      } else {
        assert outbox[|old(outbox)|..] == [];
      }
    }

    method HandleLogin(session: Session, username: Name)
      modifies this
      ensures old(outbox) <= outbox
      ensures LoginSpec(old(State()), State(), session, username, outbox[|old(outbox)|..])
    {
      users := users[session := Some(username)];
      userGroups := userGroups[username := {}];
      BroadcastUserList();
    }

    method HandleCreateGroup(groupName: Name, members: seq<Name>)
      modifies this
      ensures old(outbox) <= outbox
      ensures CreateGroupSpec(old(State()), State(), groupName, members, outbox[|old(outbox)|..])
      ensures InSync(old(groups), old(userGroups)) ==> InSync(groups, userGroups)
    {
      if groupName !in groups {
        StoreGroup(groupName, members);
        ghost var stored := State();
        ghost var afterLists := outbox;
        BroadcastGroupList(members);
        ghost var afterNotice := outbox;
        var notification := CreationNotice(groupName, members);
        SendGroupMessage(groupName, "System", notification);
        ghost var lists, notices := afterNotice[|afterLists|..], outbox[|afterNotice|..];
        SentSplit(afterLists, afterNotice, outbox);
        CreateGroupSends(old(State()), stored, groupName, members, lists, notices);
      } else {
        assert outbox[|old(outbox)|..] == [];
      }
    }

    /**
     Stores a new group: its member set under its name, then, member by member,
     the group in the member's reverse entry, created when missing.
     */
    method StoreGroup(groupName: Name, members: seq<Name>)
      requires groupName !in groups
      modifies this`groups, this`userGroups
      ensures groups == old(groups)[groupName := MemberSet(members)]
      ensures userGroups == WithGroupAdded(old(userGroups), groupName, MemberSet(members))
      ensures forall m :: m in members ==> m in userGroups
      ensures InSync(old(groups), old(userGroups)) ==> InSync(groups, userGroups)
    {
      var memberSet := MemberSet(members);
      groups := groups[groupName := memberSet];
      ghost var done: set<Name> := {};
      WithNoMembersAdded(userGroups, groupName);
      for i := 0 to |members|
        invariant groups == old(groups)[groupName := memberSet]
        invariant done == MemberSet(members[..i])
        invariant userGroups == WithGroupAdded(old(userGroups), groupName, done)
      {
        var member := members[i];
        WithOneMoreMember(old(userGroups), groupName, done, member);
        MemberSetStep(members, i);
        var entry := if member in userGroups then userGroups[member] else {};
        userGroups := userGroups[member := entry + {groupName}];
        done := done + {member};
      }
      assert members[..|members|] == members;
      if InSync(old(groups), old(userGroups)) {
        CreateKeepsInSync(old(groups), old(userGroups), groupName, memberSet);
      }
    }

    method HandleMessage(session: Session, data: MessageData)
      requires ParseRecipient(data.recipient).ToUser? ==> session in users && users[session].Some?
      modifies this
      ensures State() == old(State()) && old(outbox) <= outbox
      ensures MessageSpec(State(), session, data.recipient, data.content, outbox[|old(outbox)|..])
    {
      var sender := SenderOf(users, session);
      match ParseRecipient(data.recipient)
      case ToGroup(groupName) =>
        if groupName in groups && sender.Some? && sender.value in groups[groupName] {
          SendGroupMessage(groupName, sender.value, data.content);
        } else {
          assert outbox[|old(outbox)|..] == [];
        }
      case ToUser(recipient) =>
        assert session in SessionsNamed(users, sender.value);
        SendPrivateMessage(sender.value, recipient, data.content);
    }

    method SendGroupMessage(groupName: Name, sender: Name, message: string)
      requires groupName in groups
      modifies this
      ensures State() == old(State()) && old(outbox) <= outbox
      ensures Delivers(outbox[|old(outbox)|..], SessionsOfMembers(users, groups[groupName]), Group(sender, groupName, message))
    {
      var msg := Group(sender, groupName, message);
      var memberSet := groups[groupName];
      ghost var targets := SessionsOfMembers(users, memberSet);
      ghost var sent: seq<Delivery> := [];
      var todo := users.Keys;
      while todo != {}
        invariant todo <= users.Keys
        invariant State() == old(State()) && outbox == old(outbox) + sent
        invariant Delivers(sent, targets - todo, msg)
        decreases todo
      {
        var session :| session in todo;
        var username := users[session];
        FanOutStep(sent, targets, todo, msg, session);
        if username.Some? && username.value in memberSet {
          outbox := outbox + [Delivery(session, msg)];
          sent := sent + [Delivery(session, msg)];
        }
        todo := todo - {session};
      }
      assert targets - todo == targets == SessionsOfMembers(users, groups[groupName]);
      assert outbox[|old(outbox)|..] == sent;
    }

    method SendPrivateMessage(sender: Name, recipient: Name, message: string)
      requires SessionsNamed(users, sender) != {}
      modifies this
      ensures State() == old(State()) && old(outbox) <= outbox
      ensures PrivateSent(outbox[|old(outbox)|..], users, sender, recipient, Private(sender, recipient, message))
    {
      var msg := Private(sender, recipient, message);
      SendToUser(recipient, msg);
      ghost var afterRecipient := outbox;
      SendToUser(sender, msg);
      SentSplit(old(outbox), afterRecipient, outbox);
      assert outbox[|old(outbox)|..][..|afterRecipient| - |old(outbox)|] == afterRecipient[|old(outbox)|..];
    }

    method SendToUser(username: Name, envelope: Envelope)
      modifies this
      ensures State() == old(State()) && old(outbox) <= outbox
      ensures ToSomeSessionOf(outbox[|old(outbox)|..], users, username, envelope)
    {
      var found := FindSession(users, username);
      if found.Some? {
        outbox := outbox + [Delivery(found.value, envelope)];
        assert outbox[|old(outbox)|..] == [Delivery(found.value, envelope)];
      } else {
        assert outbox[|old(outbox)|..] == [];
      }
    }

    method BroadcastUserList()
      modifies this
      ensures State() == old(State()) && old(outbox) <= outbox
      ensures UserListSent(outbox[|old(outbox)|..], users)
    {
      var names := ListBoundNames(users);
      assert IsUserList(UserList(names), users);
      Broadcast(UserList(names));
    }

    method BroadcastGroupList(members: seq<Name>)
      requires forall m :: m in members ==> m in userGroups
      modifies this
      ensures State() == old(State()) && old(outbox) <= outbox
      ensures GroupListsSent(outbox[|old(outbox)|..], State(), members)
    {
      ghost var sent: seq<Delivery> := [];
      var i := 0;
      while i < |members|
        invariant 0 <= i <= |members|
        invariant State() == old(State()) && outbox == old(outbox) + sent
        invariant GroupListsSent(sent, State(), members[..i])
      {
        var member := members[i];
        assert members[..i + 1][..i] == members[..i];
        var userSession := FindSession(users, member);
        if userSession.Some? {
          var d := Delivery(userSession.value, GroupList(userGroups[member]));
          outbox := outbox + [d];
          sent := sent + [d];
        }
        i := i + 1;
      }
      assert members[..i] == members;
      assert outbox[|old(outbox)|..] == sent;
    }

    method Broadcast(envelope: Envelope)
      modifies this
      ensures State() == old(State()) && old(outbox) <= outbox
      ensures Delivers(outbox[|old(outbox)|..], LoggedIn(users), envelope)
    {
      ghost var targets := LoggedIn(users);
      ghost var sent: seq<Delivery> := [];
      var todo := users.Keys;
      while todo != {}
        invariant todo <= users.Keys
        invariant State() == old(State()) && outbox == old(outbox) + sent
        invariant Delivers(sent, targets - todo, envelope)
        decreases todo
      {
        var session :| session in todo;
        FanOutStep(sent, targets, todo, envelope, session);
        if users[session].Some? {
          outbox := outbox + [Delivery(session, envelope)];
          sent := sent + [Delivery(session, envelope)];
        }
        todo := todo - {session};
      }
      assert outbox[|old(outbox)|..] == sent;
    }

    method OnClose(session: Session)
      modifies this
      ensures old(outbox) <= outbox
      ensures CloseSpec(old(State()), State(), session, outbox[|old(outbox)|..])
      ensures InSync(old(groups), old(userGroups)) ==> InSync(groups, userGroups)
    {
      var username := SenderOf(users, session);
      if username.Some? {
        userGroups := userGroups - {username.value};
        var todo := groups.Keys;
        while todo != {}
          invariant todo <= groups.Keys == old(groups).Keys
          invariant forall g :: g in groups ==>
            groups[g] == if g in todo then old(groups)[g] else old(groups)[g] - {username.value}
          invariant users == old(users) && userGroups == old(userGroups) - {username.value} && outbox == old(outbox)
          decreases todo
        {
          var g :| g in todo;
          groups := groups[g := groups[g] - {username.value}];
          todo := todo - {g};
        }
        assert groups == WithoutMember(old(groups), username.value);
        if InSync(old(groups), old(userGroups)) {
          RemoveKeepsInSync(old(groups), old(userGroups), username.value);
        }
      }
      users := users - {session};
      BroadcastUserList();
    }
  }
}
