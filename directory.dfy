/**
 The group directory: `groups` maps each group name to its member names and
 `userGroups` is the reverse index from a username to the groups it is in.
 */
module Directory {
  import opened Envelopes

  type Groups = map<Name, set<Name>>

  /** The forward and the reverse index agree: `u` is in `groups[g]` exactly when `g` is in `userGroups[u]`. */
  ghost predicate InSync(groups: Groups, userGroups: Groups)
  {
    && (forall g, u :: g in groups && u in groups[g] ==> u in userGroups && g in userGroups[u])
    && (forall u, g :: u in userGroups && g in userGroups[u] ==> g in groups && u in groups[g])
  }

  /**
   The reverse index after `g` is created with `members`: every member gets an
   entry if it had none, and `g` is added to it.
   */
  function WithGroupAdded(userGroups: Groups, g: Name, members: set<Name>): Groups
  {
    map u | u in userGroups.Keys + members ::
      (if u in userGroups then userGroups[u] else {}) + (if u in members then {g} else {})
  }

  /** Adding a group to nobody leaves the reverse index as it was. */
  lemma WithNoMembersAdded(userGroups: Groups, g: Name)
    ensures WithGroupAdded(userGroups, g, {}) == userGroups
  {
    var r := WithGroupAdded(userGroups, g, {});
    assert r.Keys == userGroups.Keys;
    forall u | u in r ensures r[u] == userGroups[u] {
    }
  }

  /** Adding one more member is one update of that member's entry. */
  lemma WithOneMoreMember(userGroups: Groups, g: Name, members: set<Name>, m: Name)
    ensures var r := WithGroupAdded(userGroups, g, members);
      WithGroupAdded(userGroups, g, members + {m}) == r[m := (if m in r then r[m] else {}) + {g}]
  {
    var r := WithGroupAdded(userGroups, g, members);
    var r' := WithGroupAdded(userGroups, g, members + {m});
    var q := r[m := (if m in r then r[m] else {}) + {g}];
    assert r'.Keys == q.Keys;
    forall u | u in r' ensures r'[u] == q[u] {
    }
  }

  /** The forward index with `u` taken out of every member set; no group disappears. */
  function WithoutMember(groups: Groups, u: Name): Groups
  {
    map g | g in groups :: groups[g] - {u}
  }

  /** Creating a group that does not exist yet keeps the two indices in agreement. */
  lemma CreateKeepsInSync(groups: Groups, userGroups: Groups, g: Name, members: set<Name>)
    requires InSync(groups, userGroups) && g !in groups
    ensures InSync(groups[g := members], WithGroupAdded(userGroups, g, members))
  {
    var groups', userGroups' := groups[g := members], WithGroupAdded(userGroups, g, members);
    forall u, h | u in userGroups' && h in userGroups'[u]
      ensures h in groups' && u in groups'[h]
    {
      if h != g {
        assert u in userGroups && h in userGroups[u];
      }
    }
  }

  /** Taking a user out of every group and dropping its reverse entry keeps the indices in agreement. */
  lemma RemoveKeepsInSync(groups: Groups, userGroups: Groups, u: Name)
    requires InSync(groups, userGroups)
    ensures InSync(WithoutMember(groups, u), userGroups - {u})
  {
  }

  /**
   Resetting a user's reverse entry to the empty set keeps the indices in
   agreement exactly when the user is in no group.
   */
  lemma ResetKeepsInSyncIff(groups: Groups, userGroups: Groups, u: Name)
    requires InSync(groups, userGroups)
    ensures InSync(groups, userGroups[u := {}]) <==> forall g :: g in groups ==> u !in groups[g]
  {
    if !forall g :: g in groups ==> u !in groups[g] {
      var g :| g in groups && u in groups[g];
      assert g !in userGroups[u := {}][u];
    }
  }
}
