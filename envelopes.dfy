/**
 The values the chat engine exchanges with its connections: the decoded
 inbound record, the outbound envelopes, the record of every send, and the
 parsing of a message's recipient field.
 */
module Envelopes {

  /** A live WebSocket connection, identified by a number. */
  type Session = nat

  type Name = string

  /** A username that may be absent (Java's null). */
  datatype Option<T> = None | Some(value: T)

  /**
   The inbound record after JSON decoding (`MessageData` in the source). The
   server dispatches on `kind` and never reads `sender`.
   */
  datatype MessageData = MessageData(
    kind: string,
    sender: string,
    recipient: string,
    content: string,
    groupMembers: seq<Name>)

  /**
   The outbound envelopes. The comma-joined texts of the source become
   collections: a user list keeps one entry per bound session (so a name bound
   twice appears twice), a group list is a set of group names.
   */
  datatype Envelope =
    | UserList(names: multiset<Name>)
    | GroupList(groups: set<Name>)
    | Group(sender: Name, group: Name, content: string)
    | Private(sender: Name, recipient: Name, content: string)

  /** One call of `sendText`: which session got which envelope. */
  datatype Delivery = Delivery(to: Session, envelope: Envelope)

  /** The envelopes that session `s` received, in the order they were sent. */
  function Inbox(sent: seq<Delivery>, s: Session): seq<Envelope>
  {
    if sent == [] then []
    else
      var last := sent[|sent| - 1];
      Inbox(sent[..|sent| - 1], s) + (if last.to == s then [last.envelope] else [])
  }

  /** What a session receives from two batches of sends is what it receives from each, in turn. */
  lemma {:induction false} InboxAppend(a: seq<Delivery>, b: seq<Delivery>, s: Session)
    ensures Inbox(a + b, s) == Inbox(a, s) + Inbox(b, s)
    decreases |b|
  {
    if b == [] {
      assert a + b == a;
    } else {
      var b' := b[..|b| - 1];
      assert (a + b)[..|a + b| - 1] == a + b';
      InboxAppend(a, b', s);
    }
  }

  /** Every send shows up in the inbox of the session it went to. */
  lemma {:induction false} InboxHasDelivery(sent: seq<Delivery>, i: nat)
    requires i < |sent|
    ensures sent[i].envelope in Inbox(sent, sent[i].to)
    decreases |sent|
  {
    if i < |sent| - 1 {
      InboxHasDelivery(sent[..|sent| - 1], i);
    }
  }

  /** Each session in `targets` received exactly one envelope, `env`, and no other session received anything. */
  ghost predicate Delivers(sent: seq<Delivery>, targets: set<Session>, env: Envelope)
  {
    forall s :: Inbox(sent, s) == if s in targets then [env] else []
  }

  /** Sending `env` to one more target extends a fan-out by that target. */
  lemma DeliversStep(sent: seq<Delivery>, targets: set<Session>, env: Envelope, x: Session)
    requires Delivers(sent, targets, env) && x !in targets
    ensures Delivers(sent + [Delivery(x, env)], targets + {x}, env)
  {
    forall s ensures Inbox(sent + [Delivery(x, env)], s) == if s in targets + {x} then [env] else [] {
      InboxAppend(sent, [Delivery(x, env)], s);
      assert Inbox([Delivery(x, env)], s) == if s == x then [env] else [];
    }
  }

  /** One step of a fan-out that walks the sessions still in `todo`: a target gets the envelope, any other session nothing. */
  lemma FanOutStep(sent: seq<Delivery>, targets: set<Session>, todo: set<Session>, env: Envelope, x: Session)
    requires x in todo && Delivers(sent, targets - todo, env)
    ensures x in targets ==> Delivers(sent + [Delivery(x, env)], targets - (todo - {x}), env)
    ensures x !in targets ==> Delivers(sent, targets - (todo - {x}), env)
  {
    if x in targets {
      DeliversStep(sent, targets - todo, env, x);
      assert targets - (todo - {x}) == (targets - todo) + {x};
    } else {
      assert targets - (todo - {x}) == targets - todo;
    }
  }

  /** In a fan-out, every send carries the envelope and goes to a target. */
  lemma DeliversOnlyEnv(sent: seq<Delivery>, targets: set<Session>, env: Envelope)
    requires Delivers(sent, targets, env)
    ensures forall i :: 0 <= i < |sent| ==> sent[i].envelope == env && sent[i].to in targets
  {
    forall i | 0 <= i < |sent| ensures sent[i].envelope == env && sent[i].to in targets {
      InboxHasDelivery(sent, i);
    }
  }

  /** What was sent after `a` is what was sent up to `b`, then what was sent after `b`. */
  lemma SentSplit(a: seq<Delivery>, b: seq<Delivery>, c: seq<Delivery>)
    requires a <= b <= c
    ensures c[|a|..] == b[|a|..] + c[|b|..]
  {
    assert c == b + c[|b|..];
  }

  /** The address prefix that marks a message to a group. */
  const GroupPrefix: string := "group:"

  /** Where a chat message goes: a group, or one user. */
  datatype Recipient = ToGroup(group: Name) | ToUser(user: Name)

  /** The recipient field: `group:<name>` names a group, anything else a user. */
  function ParseRecipient(recipient: string): (r: Recipient)
    ensures r.ToGroup? <==> GroupPrefix <= recipient
    ensures r.ToGroup? ==> recipient == GroupPrefix + r.group
    ensures r.ToUser? ==> r.user == recipient
  {
    if GroupPrefix <= recipient then ToGroup(recipient[|GroupPrefix|..]) else ToUser(recipient)
  }

  /** The text a client writes to address `r`. */
  function RecipientText(r: Recipient): string
  {
    match r
    case ToGroup(g) => GroupPrefix + g
    case ToUser(u) => u
  }

  /** Parsing recovers every address, except a username that itself begins with the group prefix. */
  lemma ParseRecipientText(r: Recipient)
    requires r.ToUser? ==> !(GroupPrefix <= r.user)
    ensures ParseRecipient(RecipientText(r)) == r
  {
    if r.ToGroup? {
      assert (GroupPrefix + r.group)[|GroupPrefix|..] == r.group;
    }
  }

  /** Every recipient field is the text of the address it parses to. */
  lemma RecipientTextParse(recipient: string)
    ensures RecipientText(ParseRecipient(recipient)) == recipient
  {
    if GroupPrefix <= recipient {
      assert recipient == recipient[..|GroupPrefix|] + recipient[|GroupPrefix|..];
    }
  }

  /** Where part `i` starts in the joined text: after each earlier part and the separator that follows it. */
  function JoinOffset(parts: seq<string>, sep: string, i: nat): nat
    requires i <= |parts|
  {
    if i == 0 then 0 else JoinOffset(parts, sep, i - 1) + |parts[i - 1]| + |sep|
  }

  /** Past the first part and its separator, offsets are those of the remaining parts. */
  lemma {:induction false} OffsetShift(parts: seq<string>, sep: string, i: nat)
    requires 0 < i <= |parts|
    ensures JoinOffset(parts, sep, i) == |parts[0]| + |sep| + JoinOffset(parts[1..], sep, i - 1)
    decreases i
  {
    if 1 < i {
      OffsetShift(parts, sep, i - 1);
    }
  }

  /** `String.join(sep, parts)`: the parts in order with `sep` between consecutive ones. */
  function Join(parts: seq<string>, sep: string): string
  {
    if parts == [] then ""
    else if |parts| == 1 then parts[0]
    else parts[0] + sep + Join(parts[1..], sep)
  }

  /** The joined text ends with the last part: nothing follows it. */
  lemma {:induction false} JoinLength(parts: seq<string>, sep: string)
    requires parts != []
    ensures |Join(parts, sep)| == JoinOffset(parts, sep, |parts| - 1) + |parts[|parts| - 1]|
    decreases |parts|
  {
    if 1 < |parts| {
      JoinLength(parts[1..], sep);
      OffsetShift(parts, sep, |parts| - 1);
    }
  }

  /** Part `i` sits at its offset in the joined text. */
  lemma {:induction false} JoinPlacesPart(parts: seq<string>, sep: string, i: nat)
    requires i < |parts|
    ensures JoinOffset(parts, sep, i) + |parts[i]| <= |Join(parts, sep)|
    ensures Join(parts, sep)[JoinOffset(parts, sep, i)..JoinOffset(parts, sep, i) + |parts[i]|] == parts[i]
    decreases i
  {
    if i != 0 {
      var rest, head := parts[1..], parts[0] + sep;
      JoinPlacesPart(rest, sep, i - 1);
      OffsetShift(parts, sep, i);
      Shifted(Join(parts, sep), head, Join(rest, sep), JoinOffset(rest, sep, i - 1), rest[i - 1]);
    }
  }

  /** A separator follows every part but the last. */
  lemma {:induction false} JoinPlacesSep(parts: seq<string>, sep: string, i: nat)
    requires i + 1 < |parts|
    ensures JoinOffset(parts, sep, i) + |parts[i]| + |sep| <= |Join(parts, sep)|
    ensures Join(parts, sep)[JoinOffset(parts, sep, i) + |parts[i]|..JoinOffset(parts, sep, i) + |parts[i]| + |sep|] == sep
    decreases i
  {
    var rest, head := parts[1..], parts[0] + sep;
    if i == 0 {
      var tail := sep + Join(rest, sep);
      assert tail[0..|sep|] == sep;
      Shifted(Join(parts, sep), parts[0], tail, 0, sep);
    } else {
      JoinPlacesSep(rest, sep, i - 1);
      OffsetShift(parts, sep, i);
      Shifted(Join(parts, sep), head, Join(rest, sep), JoinOffset(rest, sep, i - 1) + |rest[i - 1]|, sep);
    }
  }

  /** A piece found in the second of two joined texts is found in the whole, shifted by the first. */
  lemma Shifted(s: string, head: string, joined: string, e: nat, p: string)
    requires s == head + joined && e + |p| <= |joined| && joined[e..e + |p|] == p
    ensures |head| + e + |p| <= |s| && s[|head| + e..|head| + e + |p|] == p
  {
    assert s[|head| + e..|head| + e + |p|] == joined[e..e + |p|];
  }

  /** Every part sits at its offset in the joined text. */
  lemma JoinPlacesParts(parts: seq<string>, sep: string)
    ensures forall i :: 0 <= i < |parts| ==>
      && JoinOffset(parts, sep, i) + |parts[i]| <= |Join(parts, sep)|
      && Join(parts, sep)[JoinOffset(parts, sep, i)..JoinOffset(parts, sep, i) + |parts[i]|] == parts[i]
  {
    forall i | 0 <= i < |parts|
      ensures && JoinOffset(parts, sep, i) + |parts[i]| <= |Join(parts, sep)|
              && Join(parts, sep)[JoinOffset(parts, sep, i)..JoinOffset(parts, sep, i) + |parts[i]|] == parts[i]
    {
      JoinPlacesPart(parts, sep, i);
    }
  }

  /** Joining adds a separator before each part after the first, read from the left as well as from the right. */
  lemma {:induction false} JoinSnoc(parts: seq<string>, p: string, sep: string)
    requires parts != []
    ensures Join(parts + [p], sep) == Join(parts, sep) + sep + p
    decreases |parts|
  {
    if |parts| == 1 {
      assert (parts + [p])[1..] == [p];
    } else {
      assert (parts + [p])[1..] == parts[1..] + [p];
      JoinSnoc(parts[1..], p, sep);
    }
  }
}
