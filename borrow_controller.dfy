/** The borrow endpoints: which service call each request reaches, for whom,
    and what comes back. The controller keeps no state of its own. */
module BorrowEndpoints {
  import opened Entities
  import opened Failures
  import opened RecordQueries
  import opened Http
  import Lending

  /** The request body of a borrow. */
  datatype BorrowRequest = BorrowRequest(username: string, bookId: BookId)

  /** `POST /api/borrows`: borrow for the authenticated name, whatever the body says. */
  function BorrowBook(s: Store, caller: Caller, req: BorrowRequest, now: Time): (r: Reply<BorrowRecord>)
    requires WellFormed(s)
    ensures r.store == Lending.Borrow(s, caller.name, req.bookId, now).store
    ensures r.response.Ok? <==> Lending.Borrow(s, caller.name, req.bookId, now).result.Success?
    ensures r.response.Ok? ==>
              var x := r.response.body;
              && x == Lending.Borrow(s, caller.name, req.bookId, now).result.value
              && x.userId in s.users && s.users[x.userId].username == caller.name && x.bookId == req.bookId
    ensures !r.response.Ok? ==>
              r.response == BadRequest(Message(Lending.Borrow(s, caller.name, req.bookId, now).result.error))
  {
    var o := Lending.Borrow(s, caller.name, req.bookId, now);
    Reply(Escaped(o.result), o.store)
  }

  /** `POST /api/borrows/admin`: administrators only; borrows for the name in the body. */
  function AdminBorrowBook(s: Store, caller: Caller, req: BorrowRequest, now: Time): (r: Reply<BorrowRecord>)
    requires WellFormed(s)
    ensures !IsAdmin(caller) ==> r.response == Forbidden(DeniedMessage) && r.store == s
    ensures IsAdmin(caller) ==> r.store == Lending.Borrow(s, req.username, req.bookId, now).store
    ensures IsAdmin(caller) ==>
              var o := Lending.Borrow(s, req.username, req.bookId, now);
              && (r.response.Ok? <==> o.result.Success?)
              && (r.response.Ok? ==> r.response.body == o.result.value)
              && (!r.response.Ok? ==> r.response == BadRequest(Message(o.result.error)))
    ensures r.response.Ok? ==>
              var x := r.response.body;
              IsAdmin(caller) && x.userId in s.users && s.users[x.userId].username == req.username
  {
    if !IsAdmin(caller) then Denied(s)
    else
      var o := Lending.Borrow(s, req.username, req.bookId, now);
      Reply(Escaped(o.result), o.store)
  }

  /** The statuses the controller recognises; any other is only logged. */
  const KnownStatusNames: seq<string> := ["PENDING", "BORROWED", "RETURNED", "REJECTED"]

  /** `GET /api/borrows`: an administrator gets every record (filtered by a
      non-empty status), anyone else their own; a status outside the known
      four is never refused; a service failure becomes a 500. */
  function GetBorrows(s: Store, caller: Caller, status: Option<string>): (r: Response<seq<BorrowRecord>>)
    requires WellFormed(s)
    ensures IsAdmin(caller) ==> r == Ok(Lending.GetAllBorrows(s, status))
    ensures !IsAdmin(caller) ==> (r.Ok? <==> UsernameExists(s.users, caller.name))
    ensures !IsAdmin(caller) && Lending.GetBorrows(s, caller.name, status).Success? ==>
              r == Ok(Lending.GetBorrows(s, caller.name, status).value)
    ensures !IsAdmin(caller) && r.Ok? ==>
              var me := UserByName(s.users, caller.name).value;
              forall x :: x in r.body ==> x in s.records && (s.users[me].role != "ADMIN" ==> x.userId == me)
    ensures !r.Ok? ==> r == ServerError("获取借阅记录失败: " + Message(UserNotFound))
  {
    if IsAdmin(caller) then Ok(Lending.GetAllBorrows(s, status))
    else
      match Lending.GetBorrows(s, caller.name, status)
      case Success(rs) => Ok(rs)
      case Failure(e) => ServerError("获取借阅记录失败: " + Message(e))
  }

  /** `PUT /api/borrows/{id}/approve`: administrators only. */
  function ApproveBorrow(s: Store, caller: Caller, id: RecordId): (r: Reply<BorrowRecord>)
    requires WellFormed(s)
    ensures !IsAdmin(caller) ==> r.response == Forbidden(DeniedMessage) && r.store == s
    ensures IsAdmin(caller) ==> r.store == Lending.Approve(s, id).store
    ensures IsAdmin(caller) ==>
              var o := Lending.Approve(s, id);
              && (r.response.Ok? <==> o.result.Success?)
              && (r.response.Ok? ==> r.response.body == o.result.value)
              && (!r.response.Ok? ==> r.response == BadRequest(Message(o.result.error)))
    ensures r.response.Ok? ==> IsAdmin(caller) && r.response.body.status == Borrowed
  {
    if !IsAdmin(caller) then Denied(s)
    else
      var o := Lending.Approve(s, id);
      Reply(Escaped(o.result), o.store)
  }

  /** `PUT /api/borrows/{id}/reject`: administrators only. */
  function RejectBorrow(s: Store, caller: Caller, id: RecordId): (r: Reply<BorrowRecord>)
    requires WellFormed(s)
    ensures !IsAdmin(caller) ==> r.response == Forbidden(DeniedMessage) && r.store == s
    ensures IsAdmin(caller) ==> r.store == Lending.Reject(s, id).store
    ensures IsAdmin(caller) ==>
              var o := Lending.Reject(s, id);
              && (r.response.Ok? <==> o.result.Success?)
              && (r.response.Ok? ==> r.response.body == o.result.value)
              && (!r.response.Ok? ==> r.response == BadRequest(Message(o.result.error)))
    ensures r.response.Ok? ==> IsAdmin(caller) && r.response.body.status == Rejected
  {
    if !IsAdmin(caller) then Denied(s)
    else
      var o := Lending.Reject(s, id);
      Reply(Escaped(o.result), o.store)
  }

  /** `PUT /api/borrows/{id}/return`: an administrator is routed to the
      return without ownership check, anyone else to the owner's return under
      their own name; a failure is a 400 with the service's message and no
      record. */
  function ReturnBook(s: Store, caller: Caller, id: RecordId, now: Time): (r: Reply<BorrowRecord>)
    requires WellFormed(s)
    ensures IsAdmin(caller) ==> r.store == Lending.AdminReturnBook(s, id, now).store
    ensures !IsAdmin(caller) ==> r.store == Lending.ReturnBook(s, id, caller.name, now).store
    ensures r.response.Ok? || r.response.BadRequest?
    ensures var o := if IsAdmin(caller) then Lending.AdminReturnBook(s, id, now)
                     else Lending.ReturnBook(s, id, caller.name, now);
            && (r.response.Ok? <==> o.result.Success?)
            && (r.response.Ok? ==> r.response.body == o.result.value)
            && (!r.response.Ok? ==> r.response == BadRequest(Message(o.result.error)))
    ensures r.response.BadRequest? ==>
              r.store == s &&
              var e := if IsAdmin(caller) then Lending.AdminReturnBook(s, id, now).result
                       else Lending.ReturnBook(s, id, caller.name, now).result;
              e.Failure? && r.response.message == Message(e.error)
    ensures r.response.Ok? ==> r.response.body.status == Returned
    ensures r.response.Ok? && !IsAdmin(caller) ==>
              && FindById(s.records, id).Some? && Lending.RowOf(s.records, id).userId in s.users
              && s.users[Lending.RowOf(s.records, id).userId].username == caller.name
  {
    var o := if IsAdmin(caller) then Lending.AdminReturnBook(s, id, now)
             else Lending.ReturnBook(s, id, caller.name, now);
    Reply(Escaped(o.result), o.store)
  }

  /** `PUT /api/borrows/admin/{id}/return`: administrators only, then as the
      administrator's branch of the return above. */
  function AdminReturnBook(s: Store, caller: Caller, id: RecordId, now: Time): (r: Reply<BorrowRecord>)
    requires WellFormed(s)
    ensures !IsAdmin(caller) ==> r.response == Forbidden(DeniedMessage) && r.store == s
    ensures IsAdmin(caller) ==> r == ReturnBook(s, caller, id, now)
  {
    if !IsAdmin(caller) then Denied(s)
    else
      var o := Lending.AdminReturnBook(s, id, now);
      Reply(Escaped(o.result), o.store)
  }

  // ---- consequences of the dispatch ----

  /** An administrator returns any BORROWED loan whose book and borrower
      exist, whoever the borrower is. */
  lemma AdminReturnsAnyLoan(s: Store, caller: Caller, id: RecordId, now: Time)
    requires WellFormed(s) && LinksIntact(s) && IsAdmin(caller)
    requires FindById(s.records, id).Some? && Lending.RowOf(s.records, id).status == Borrowed
    ensures ReturnBook(s, caller, id, now).response.Ok?
  {
    var i := FindById(s.records, id).value;
    assert s.records[i].bookId in s.books && s.records[i].userId in s.users;
  }

  /** Anyone else gets the ownership refusal for a BORROWED loan of another user. */
  lemma UserCannotReturnOthersLoan(s: Store, caller: Caller, id: RecordId, now: Time)
    requires WellFormed(s) && LinksIntact(s) && !IsAdmin(caller)
    requires FindById(s.records, id).Some? && Lending.RowOf(s.records, id).status == Borrowed
    requires s.users[Lending.RowOf(s.records, id).userId].username != caller.name
    ensures ReturnBook(s, caller, id, now) == Reply(BadRequest(Message(NotOwner)), s)
  {
    var i := FindById(s.records, id).value;
    assert s.records[i].userId in s.users;
  }

  /** An empty `status` parameter means "no filter" for an administrator but
      filters out every record for anyone else, since no record has the empty
      status. */
  lemma EmptyStatusParameter(s: Store, admin: Caller, user: Caller)
    requires WellFormed(s) && IsAdmin(admin) && !IsAdmin(user)
    requires UsernameExists(s.users, user.name)
    ensures GetBorrows(s, admin, Some("")) == Ok(s.records)
    ensures GetBorrows(s, user, Some("")) == Ok([])
  {
    var r := GetBorrows(s, user, Some("")).body;
    if |r| > 0 {
      assert r[0] in r;
      StatusNameFacts(r[0].status);
    }
  }

  /** A status the controller does not recognise still reaches the service
      and yields, for an administrator, no record at all. */
  lemma UnknownStatusIsNotRefused(s: Store, admin: Caller, status: string)
    requires WellFormed(s) && IsAdmin(admin)
    requires status !in KnownStatusNames && status != ""
    ensures GetBorrows(s, admin, Some(status)) == Ok([])
  {
    forall x | x in s.records ensures !Matches(ByStatus(status), x) {
      assert StatusName(x.status) in KnownStatusNames;
    }
    CountZeroIff(s.records, ByStatus(status));
  }
}
