/** The relational records the crud layer reads and writes (the SQLAlchemy models of app/models), held
    as in-memory tables keyed by id, and the exceptions the crud layer raises. */
module Db {
  import opened Wrappers
  import opened Seqs

  datatype User = User(email: string, name: string)

  /** A group's members are the user_groups rows for it, in insertion order. */
  datatype Group = Group(name: string, description: Option<string>, adminId: int, members: seq<int>)

  datatype Photo = Photo(name: string, filePath: string, userId: int, groupId: int)

  /** HTTPException(status_code, detail) and the plain Python exceptions delete_photo raises. */
  datatype Error =
    | HttpException(statusCode: int, detail: string)
    | ValueError(message: string)
    | PermissionError(message: string)
    | Exception(message: string)

  /** users.email is a unique column. */
  ghost predicate UniqueEmails(users: map<int, User>) {
    forall a, b :: a in users && b in users && users[a].email == users[b].email ==> a == b
  }

  /** create_group refuses a name that is taken, so no two groups share one. */
  ghost predicate UniqueGroupNames(groups: map<int, Group>) {
    forall a, b :: a in groups && b in groups && groups[a].name == groups[b].name ==> a == b
  }

  /** The admin is a member, nobody is a member twice, and every member is a user. */
  ghost predicate GroupValid(g: Group, users: map<int, User>) {
    g.adminId in g.members && NoDuplicates(g.members) && forall m :: m in g.members ==> m in users
  }

  /** get_user_by_email: the user whose email this is, if any. */
  function GetUserByEmail(users: map<int, User>, email: string): (r: Option<int>)
    requires UniqueEmails(users)
    ensures r.Some? ==> r.value in users && users[r.value].email == email
    ensures r.None? ==> forall id :: id in users ==> users[id].email != email
  {
    if exists id :: id in users && users[id].email == email then
      var id :| id in users && users[id].email == email; Some(id)
    else None
  }

  class Database {
    var users: map<int, User>
    var groups: map<int, Group>
    var photos: map<int, Photo>
    /** The ids the next inserted group and photo receive. */
    var nextGroupId: int
    var nextPhotoId: int

    ghost predicate Valid()
      reads this
    {
      UniqueEmails(users) && UniqueGroupNames(groups) &&
      (forall id :: id in groups ==> id < nextGroupId && GroupValid(groups[id], users)) &&
      (forall id :: id in photos ==> id < nextPhotoId)
    }

    constructor (users: map<int, User>)
      requires UniqueEmails(users)
      ensures Valid() && this.users == users && groups == map[] && photos == map[]
    {
      this.users := users;
      groups := map[];
      photos := map[];
      nextGroupId := 1;
      nextPhotoId := 1;
    }
  }
}
