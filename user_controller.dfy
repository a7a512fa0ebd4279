/** The administrator's user endpoints: the role check in front of add and
    update, the per-user borrow count of the listing, and the rewrite of the
    delete error. The whole controller is reachable by administrators only,
    which the callers here are taken to be. */
module UserEndpoints {
  import opened Entities
  import opened Failures
  import opened RecordQueries
  import opened Http
  import opened Roles
  import Accounts

  /** The check the controller writes inline before add and update: a given
      role must be "USER" or "ADMIN". */
  predicate RoleAccepted(role: Option<string>) {
    !(role.Some? && role.value !in ["USER", "ADMIN"])
  }

  /** The inline check and the validator accept the same roles. */
  lemma InlineCheckIsValidator(role: Option<string>)
    ensures RoleAccepted(role) <==> IsValidRole(role)
  {
  }

  /** A user as the endpoints return it: no password, a borrow count. */
  datatype UserView = UserView(
    id: UserId,
    username: string,
    email: string,
    role: string,
    status: string,
    createdAt: Time,
    updatedAt: Time,
    lastLogin: Option<Time>,
    borrowCount: nat)

  /** `UserDTO.fromUser`: every field but the password, borrow count 0. */
  function FromUser(id: UserId, u: User): (v: UserView)
    ensures v.id == id && v.username == u.username && v.email == u.email && v.role == u.role
    ensures v.status == u.status && v.createdAt == u.createdAt && v.updatedAt == u.updatedAt
    ensures v.lastLogin == u.lastLogin && v.borrowCount == 0
  {
    UserView(id, u.username, u.email, u.role, u.status, u.createdAt, u.updatedAt, u.lastLogin, 0)
  }

  /** `POST /api/admin/users`: the role check, then `register`. */
  function AddUser(s: Store, req: Accounts.RegisterRequest, now: Time): (r: Reply<UserView>)
    requires WellFormed(s)
    ensures !RoleAccepted(req.role) ==> r == Reply(BadRequest(Message(InvalidRole)), s)
    ensures RoleAccepted(req.role) ==> r.store == Accounts.Register(s, req, now).store
    ensures RoleAccepted(req.role) ==>
              var o := Accounts.Register(s, req, now);
              && (r.response.Ok? <==> o.result.Success?)
              && (r.response.Ok? ==> r.response.body == FromUser(o.result.value.0, o.result.value.1))
              && (!r.response.Ok? ==> r.response == BadRequest(Message(o.result.error)))
    ensures r.response.Ok? ==>
              var v := r.response.body;
              && IsValidRole(Some(v.role))
              && v.id !in s.users && v.id in r.store.users
              && v.username == req.username && v.borrowCount == 0
  {
    if !RoleAccepted(req.role) then Reply(BadRequest(Message(InvalidRole)), s)
    else
      var o := Accounts.Register(s, req, now);
      match o.result
      case Success((id, u)) => Reply(Ok(FromUser(id, u)), o.store)
      case Failure(e) => Reply(BadRequest(Message(e)), o.store)
  }

  /** `PUT /api/admin/users/{id}`: the role check, then `updateUser`. */
  function UpdateUser(s: Store, id: UserId, f: Accounts.UserFields): (r: Reply<UserView>)
    requires WellFormed(s)
    ensures !RoleAccepted(f.role) ==> r == Reply(BadRequest(Message(InvalidRole)), s)
    ensures RoleAccepted(f.role) ==> r.store == Accounts.UpdateUser(s, id, f).store
    ensures RoleAccepted(f.role) ==>
              var o := Accounts.UpdateUser(s, id, f);
              && (r.response.Ok? <==> o.result.Success?)
              && (r.response.Ok? ==> r.response.body == FromUser(id, o.result.value))
              && (!r.response.Ok? ==> r.response == BadRequest(Message(o.result.error)))
    ensures r.response.Ok? ==>
              var v := r.response.body;
              && id in s.users && v.id == id
              && v.role == f.role.GetOr(s.users[id].role)
              && (f.role.Some? ==> IsValidRole(Some(v.role)))
  {
    if !RoleAccepted(f.role) then Reply(BadRequest(Message(InvalidRole)), s)
    else
      var o := Accounts.UpdateUser(s, id, f);
      match o.result
      case Success(u) => Reply(Ok(FromUser(id, u)), o.store)
      case Failure(e) => Reply(BadRequest(Message(e)), o.store)
  }

  /** Every account the endpoints create carries a valid role: "USER" when the
      request names none. */
  lemma AddedRolesAreValid(s: Store, req: Accounts.RegisterRequest, now: Time)
    requires WellFormed(s)
    requires AddUser(s, req, now).response.Ok?
    ensures IsValidRole(Some(AddUser(s, req, now).store.users[AddUser(s, req, now).response.body.id].role))
  {
  }

  const ForeignKeyPhrase: string := "foreign key constraint fails"
  const ForeignKeyMessage: string := "该用户有关联的借阅记录，无法删除。请先处理这些记录。"
  const DeletedMessage: string := "用户删除成功"

  /** The message rewrite of the delete endpoint. */
  function FriendlyMessage(m: string): (r: string)
    ensures Contains(m, ForeignKeyPhrase) ==> r == ForeignKeyMessage
    ensures !Contains(m, ForeignKeyPhrase) ==> r == m
  {
    if Contains(m, ForeignKeyPhrase) then ForeignKeyMessage else m
  }

  /** A message shorter than the phrase cannot contain it. */
  lemma ShortMessagePassesThrough(m: string)
    requires |m| < |ForeignKeyPhrase|
    ensures FriendlyMessage(m) == m
  {
  }

  /** The rewritten message is itself left alone by a second rewrite. */
  lemma FriendlyMessageIdempotent(m: string)
    ensures FriendlyMessage(FriendlyMessage(m)) == FriendlyMessage(m)
  {
    assert |ForeignKeyMessage| < |ForeignKeyPhrase|;
    ShortMessagePassesThrough(ForeignKeyMessage);
  }

  /** `DELETE /api/admin/users/{id}`: any failure becomes a 400 whose message
      is rewritten. */
  function DeleteUser(s: Store, id: UserId): (r: Reply<string>)
    requires WellFormed(s)
    ensures r.store == Accounts.DeleteUser(s, id).store
    ensures r.response.Ok? <==> Accounts.DeleteUser(s, id).result.Success?
    ensures r.response.Ok? ==> r.response.body == DeletedMessage
    ensures !r.response.Ok? ==>
              r.response == BadRequest(FriendlyMessage(Message(Accounts.DeleteUser(s, id).result.error)))
  {
    var o := Accounts.DeleteUser(s, id);
    match o.result
    case Success(_) => Reply(Ok(DeletedMessage), o.store)
    case Failure(e) => Reply(BadRequest(FriendlyMessage(Message(e))), o.store)
  }

  /** Deleting the "admin" account, in any case, is a 400 with the service's
      own message and changes nothing. */
  lemma DeletingAdminIsRefused(s: Store, id: UserId)
    requires WellFormed(s) && id in s.users && Accounts.IsProtectedName(s.users[id].username)
    ensures DeleteUser(s, id) == Reply(BadRequest("不能删除管理员账户"), s)
  {
    ShortMessagePassesThrough(Message(ProtectedAccount));
  }

  /** A user view with its borrow count filled in, as the listing sends it. */
  function CountedView(s: Store, id: UserId, u: User): UserView {
    FromUser(id, u).(borrowCount := CountByUserId(s.records, id))
  }

  /** Every view of a listing is the counted view of a stored user. */
  predicate AllCounted(s: Store, views: seq<UserView>) {
    forall v :: v in views ==> v.id in s.users && v == CountedView(s, v.id, s.users[v.id])
  }

  lemma CountedSnoc(s: Store, views: seq<UserView>, v: UserView)
    requires AllCounted(s, views) && v.id in s.users && v == CountedView(s, v.id, s.users[v.id])
    ensures AllCounted(s, views + [v])
  {
    assert forall w :: w in views + [v] ==> w in views || w == v;
  }

  /** The user ids a listing shows. */
  function ViewIds(views: seq<UserView>): set<UserId> {
    set v | v in views :: v.id
  }

  /** No user appears twice in a listing. */
  predicate DistinctIds(views: seq<UserView>) {
    forall i, j :: 0 <= i < j < |views| ==> views[i].id != views[j].id
  }

  /** Appending a view of a user not yet listed keeps the listing distinct
      and adds exactly that user. */
  lemma ViewIdsSnoc(views: seq<UserView>, v: UserView)
    requires DistinctIds(views) && v.id !in ViewIds(views)
    ensures DistinctIds(views + [v])
    ensures ViewIds(views + [v]) == ViewIds(views) + {v.id}
  {
    assert forall w :: w in views + [v] <==> w in views || w == v;
    forall i, j | 0 <= i < j < |views + [v]| ensures (views + [v])[i].id != (views + [v])[j].id {
      assert views[i] in views;
    }
  }

  /** The listing loop: one counted view per user of `found`, each once. */
  method CountedViews(s: Store, found: map<UserId, User>) returns (views: seq<UserView>)
    requires forall id :: id in found ==> id in s.users && found[id] == s.users[id]
    ensures |views| == |found.Keys|
    ensures ViewIds(views) == found.Keys
    ensures DistinctIds(views)
    ensures AllCounted(s, views)
  {
    views := [];
    var remaining := found.Keys;
    while remaining != {}
      invariant remaining <= found.Keys
      invariant |views| + |remaining| == |found.Keys|
      invariant ViewIds(views) == found.Keys - remaining
      invariant DistinctIds(views)
      invariant AllCounted(s, views)
      decreases |remaining|
    {
      var id :| id in remaining;
      var view := CountedView(s, id, found[id]);
      ViewIdsSnoc(views, view);
      CountedSnoc(s, views, view);
      views := views + [view];
      remaining := remaining - {id};
    }
  }

  /** `GET /api/admin/users`: the users `findUsers` finds, each turned into a
      view whose borrow count is `countByUserId`; the list shows every user
      found exactly once and the total is the number found. */
  method GetUsers(s: Store, keyword: Option<string>) returns (views: seq<UserView>, total: nat)
    ensures total == |Accounts.FindUsers(s.users, keyword).Keys|
    ensures |views| == total
    ensures ViewIds(views) == Accounts.FindUsers(s.users, keyword).Keys
    ensures DistinctIds(views)
    ensures AllCounted(s, views)
  {
    var found := Accounts.FindUsers(s.users, keyword);
    total := |found.Keys|;
    views := CountedViews(s, found);
  }
}
