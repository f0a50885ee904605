/** Group membership (app/crud/groups.py): creating a group, inviting a member and
    removing one. Each check that fails raises the HTTP error of the source, in the
    source's order, and leaves the tables as they were. */
module Groups {
  import opened Wrappers
  import opened Seqs
  import opened Db

  /** get_group_by_id: the group, or 404. */
  function GetGroupById(db: Database, groupId: int): (r: Result<Group, Error>)
    reads db
    ensures r.Ok? <==> groupId in db.groups
    ensures r.Ok? ==> r.value == db.groups[groupId]
    ensures r.Err? ==> r.error == HttpException(404, "Group not found")
  {
    if groupId in db.groups then Ok(db.groups[groupId]) else Err(HttpException(404, "Group not found"))
  }

  /** get_group_by_name found a group. */
  predicate NameTaken(groups: map<int, Group>, name: string) {
    exists id :: id in groups && groups[id].name == name
  }

  /** create_group: a taken name is refused with 409; otherwise a new group is stored with
      the creator as admin and as its one member. Returns the new group's id. */
  method CreateGroup(db: Database, name: string, description: Option<string>, adminId: int) returns (r: Result<int, Error>)
    requires db.Valid() && adminId in db.users
    modifies db
    ensures db.Valid()
    ensures db.users == old(db.users) && db.photos == old(db.photos)
    ensures NameTaken(old(db.groups), name) ==>
      r == Err(HttpException(409, "Group with this name already exists.")) && db.groups == old(db.groups)
    ensures !NameTaken(old(db.groups), name) ==>
      r.Ok? && r.value !in old(db.groups) &&
      db.groups == old(db.groups)[r.value := Group(name, description, adminId, [adminId])]
  {
    if NameTaken(db.groups, name) {
      return Err(HttpException(409, "Group with this name already exists."));
    }
    var id := db.nextGroupId;
    db.groups := db.groups[id := Group(name, description, adminId, [])];
    db.nextGroupId := id + 1;
    // add the admin as the first member
    var g := db.groups[id];
    assert g.members + [adminId] == [adminId];
    db.groups := db.groups[id := g.(members := g.members + [adminId])];
    r := Ok(id);
  }

  /** invite_user_to_group: 404 for an unknown email, 404 for an unknown group, 403 unless
      the caller is the admin, 409 for a member; otherwise the user joins at the end. */
  method InviteUserToGroup(db: Database, currentUserId: int, groupId: int, email: string) returns (r: Result<string, Error>)
    requires db.Valid()
    modifies db
    ensures db.Valid()
    ensures db.users == old(db.users) && db.photos == old(db.photos)
    ensures var invited := GetUserByEmail(old(db.users), email);
      if invited.None? then
        r == Err(HttpException(404, "User with this email not found.")) && db.groups == old(db.groups)
      else if groupId !in old(db.groups) then
        r == Err(HttpException(404, "Group not found")) && db.groups == old(db.groups)
      else if old(db.groups)[groupId].adminId != currentUserId then
        r == Err(HttpException(403, "Only the admin can send invites")) && db.groups == old(db.groups)
      else if invited.value in old(db.groups)[groupId].members then
        r == Err(HttpException(409, "User is already a member of this group.")) && db.groups == old(db.groups)
      else
        r == Ok("User invited successfully.") &&
        db.groups == old(db.groups)[groupId := old(db.groups)[groupId].(members := old(db.groups)[groupId].members + [invited.value])]
  {
    var invited := GetUserByEmail(db.users, email);
    if invited.None? {
      return Err(HttpException(404, "User with this email not found."));
    }
    var group := GetGroupById(db, groupId);
    if group.Err? {
      return Err(group.error);
    }
    var g := group.value;
    if g.adminId != currentUserId {
      return Err(HttpException(403, "Only the admin can send invites"));
    }
    if invited.value in g.members {
      return Err(HttpException(409, "User is already a member of this group."));
    }
    db.groups := db.groups[groupId := g.(members := g.members + [invited.value])];
    r := Ok("User invited successfully.");
  }

  /** remove_user_from_group: 404 for an unknown group, 404 when the target is not a member,
      403 when the target is the admin and others remain, 403 when the caller is neither the
      admin nor the target; then an admin leaving deletes the group, anyone else just leaves. */
  method RemoveUserFromGroup(db: Database, groupId: int, userId: int, currentUserId: int) returns (r: Result<string, Error>)
    requires db.Valid()
    modifies db
    ensures db.Valid()
    ensures db.users == old(db.users) && db.photos == old(db.photos)
    ensures
      if groupId !in old(db.groups) then
        r == Err(HttpException(404, "Group not found")) && db.groups == old(db.groups)
      else
        var g := old(db.groups)[groupId];
        if userId !in g.members then
          r == Err(HttpException(404, "User is not a member of this group.")) && db.groups == old(db.groups)
        else if g.adminId == userId && |g.members| > 1 then
          r == Err(HttpException(403, "Admin cannot remove themselves if other users are present.")) && db.groups == old(db.groups)
        else if currentUserId != g.adminId && currentUserId != userId then
          r == Err(HttpException(403, "Only the admin or the user themselves can remove the user.")) && db.groups == old(db.groups)
        else
          r == Ok("User removed successfully.") &&
          db.groups == if g.adminId == userId then old(db.groups) - {groupId}
                       else old(db.groups)[groupId := g.(members := RemoveFirst(g.members, userId))]
  {
    var group := GetGroupById(db, groupId);
    if group.Err? {
      return Err(group.error);
    }
    var g := group.value;
    if userId !in g.members {
      return Err(HttpException(404, "User is not a member of this group."));
    }
    if g.adminId == userId && |g.members| > 1 {
      return Err(HttpException(403, "Admin cannot remove themselves if other users are present."));
    }
    if currentUserId != g.adminId && currentUserId != userId {
      return Err(HttpException(403, "Only the admin or the user themselves can remove the user."));
    }
    if g.adminId == userId && |g.members| == 1 {
      db.groups := db.groups - {groupId};
    } else {
      RemoveFirstNoDuplicates(g.members, userId);
      db.groups := db.groups[groupId := g.(members := RemoveFirst(g.members, userId))];
    }
    r := Ok("User removed successfully.");
  }

  /** Removing a member who was just invited gives the group back its former members. */
  lemma RemoveUndoesInvite(g: Group, userId: int)
    requires userId !in g.members
    ensures var invited := g.(members := g.members + [userId]);
      invited.(members := RemoveFirst(invited.members, userId)) == g
  {
    RemoveFirstUndoesAppend(g.members, userId);
  }

  /** Membership stays a valid group through an invite and through the removal of a non-admin. */
  lemma {:induction false} InviteKeepsGroupValid(g: Group, users: map<int, User>, userId: int)
    requires GroupValid(g, users) && userId in users && userId !in g.members
    ensures GroupValid(g.(members := g.members + [userId]), users)
  {
    var m := g.members + [userId];
    forall i, j | 0 <= i < j < |m| ensures m[i] != m[j] {
      if j == |m| - 1 {
        assert m[i] == g.members[i];
      }
    }
  }

  lemma RemoveKeepsGroupValid(g: Group, users: map<int, User>, userId: int)
    requires GroupValid(g, users) && userId != g.adminId
    ensures GroupValid(g.(members := RemoveFirst(g.members, userId)), users)
  {
    RemoveFirstNoDuplicates(g.members, userId);
  }
}
