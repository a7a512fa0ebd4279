/** The loan lifecycle of the borrow service: what each transactional operation
    returns and how the store looks after it commits.

    A record moves PENDING -> BORROWED -> RETURNED or PENDING -> REJECTED. A
    PENDING or BORROWED record holds one unit of its book's stock, taken when
    the record is created and given back when it leaves those two states, so
    stock plus held units is the same for every book before and after each
    operation (`Held`, `LendingConserves`). */
module Lending {
  import opened Entities
  import opened Failures
  import opened RecordQueries

  /** Stock of book `b` plus the units its PENDING and BORROWED records hold. */
  function Held(s: Store, b: BookId): int {
    StockOf(s.books, b) + Count(s.records, ActiveOf(b))
  }

  /** `after` is `before` with the row whose id is `id` replaced by `x`. */
  ghost predicate OnlyRowChanged(before: seq<BorrowRecord>, after: seq<BorrowRecord>, id: RecordId, x: BorrowRecord) {
    && |after| == |before|
    && forall k :: 0 <= k < |before| ==> after[k] == (if before[k].id == id then x else before[k])
  }

  /** The row that `findById` returns. */
  function RowOf(rs: seq<BorrowRecord>, id: RecordId): BorrowRecord
    requires FindById(rs, id).Some?
  {
    rs[FindById(rs, id).value]
  }

  lemma UpdateRowKeepsOrder(rs: seq<BorrowRecord>, i: nat, x: BorrowRecord)
    requires IdsIncreasing(rs) && i < |rs| && x.id == rs[i].id
    ensures IdsIncreasing(rs[i := x])
    ensures OnlyRowChanged(rs, rs[i := x], x.id, x)
  {
    forall k | 0 <= k < |rs| && k != i ensures rs[k].id != x.id {
      assert k < i || i < k;
    }
  }

  /** `borrowBook(username, bookId)`: the user is looked up first, then the
      book, then its stock; whether the user is active is never checked. */
  function Borrow(s: Store, username: string, bookId: BookId, now: Time): (o: Outcome<BorrowRecord>)
    requires WellFormed(s)
    ensures WellFormed(o.store)
    ensures o.result == Failure(UserNotFound) <==> !UsernameExists(s.users, username)
    ensures o.result == Failure(BookNotFound) <==>
              UsernameExists(s.users, username) && bookId !in s.books
    ensures o.result == Failure(OutOfStock) <==>
              UsernameExists(s.users, username) && bookId in s.books && s.books[bookId].stock <= 0
    ensures o.result.Failure? ==> o.store == s
    ensures o.result.Success? ==>
              var r := o.result.value;
              && r.status == Pending && r.bookId == bookId
              && r.userId in s.users && s.users[r.userId].username == username
              && r.borrowDate == now && r.dueDate == PlusDays(now, LoanPeriodDays) && r.returnDate == None
              && r.id !in IdsOf(s.records)
              && o.store.records == s.records + [r]
              && bookId in s.books && s.books[bookId].stock > 0
              && o.store.books == s.books[bookId := s.books[bookId].(stock := s.books[bookId].stock - 1)]
              && o.store.users == s.users
  {
    match UserByName(s.users, username)
    case None => Outcome(Failure(UserNotFound), s)
    case Some(uid) =>
      if bookId !in s.books then Outcome(Failure(BookNotFound), s)
      else if s.books[bookId].stock <= 0 then Outcome(Failure(OutOfStock), s)
      else
        var book := s.books[bookId];
        var r := BorrowRecord(s.nextRecordId, bookId, uid, now, PlusDays(now, LoanPeriodDays), None, Pending);
        Outcome(Success(r), s.(books := s.books[bookId := book.(stock := book.stock - 1)],
                               records := s.records + [r],
                               nextRecordId := s.nextRecordId + 1))
  }

  /** `approveBorrow(id)`: PENDING becomes BORROWED; no stock moves. */
  function Approve(s: Store, id: RecordId): (o: Outcome<BorrowRecord>)
    requires WellFormed(s)
    ensures WellFormed(o.store)
    ensures o.result == Failure(RecordNotFound) <==> FindById(s.records, id).None?
    ensures o.result == Failure(NotPending) <==>
              FindById(s.records, id).Some? && RowOf(s.records, id).status != Pending
    ensures o.result.Failure? ==> o.store == s
    ensures o.result.Success? ==>
              && FindById(s.records, id).Some?
              && RowOf(s.records, id).status == Pending
              && o.result.value == RowOf(s.records, id).(status := Borrowed)
              && OnlyRowChanged(s.records, o.store.records, id, o.result.value)
              && o.store == s.(records := o.store.records)
  {
    match FindById(s.records, id)
    case None => Outcome(Failure(RecordNotFound), s)
    case Some(i) =>
      var r := s.records[i];
      if r.status != Pending then Outcome(Failure(NotPending), s)
      else
        var r' := r.(status := Borrowed);
        UpdateRowKeepsOrder(s.records, i, r');
        Outcome(Success(r'), s.(records := s.records[i := r']))
  }

  /** `rejectBorrow(id)`: PENDING becomes REJECTED and the unit goes back to
      the book; a record without a book fails when its stock is read. */
  function Reject(s: Store, id: RecordId): (o: Outcome<BorrowRecord>)
    requires WellFormed(s)
    ensures WellFormed(o.store)
    ensures o.result == Failure(RecordNotFound) <==> FindById(s.records, id).None?
    ensures o.result == Failure(NotPending) <==>
              FindById(s.records, id).Some? && RowOf(s.records, id).status != Pending
    ensures o.result == Failure(DanglingReference) <==>
              FindById(s.records, id).Some? && RowOf(s.records, id).status == Pending &&
              RowOf(s.records, id).bookId !in s.books
    ensures o.result.Failure? ==> o.store == s
    ensures o.result.Success? ==>
              var b := o.result.value.bookId;
              && FindById(s.records, id).Some?
              && RowOf(s.records, id).status == Pending
              && o.result.value == RowOf(s.records, id).(status := Rejected)
              && OnlyRowChanged(s.records, o.store.records, id, o.result.value)
              && b in s.books
              && o.store.books == s.books[b := s.books[b].(stock := s.books[b].stock + 1)]
              && o.store.users == s.users
  {
    match FindById(s.records, id)
    case None => Outcome(Failure(RecordNotFound), s)
    case Some(i) =>
      var r := s.records[i];
      if r.status != Pending then Outcome(Failure(NotPending), s)
      else if r.bookId !in s.books then Outcome(Failure(DanglingReference), s)
      else
        var book := s.books[r.bookId];
        var r' := r.(status := Rejected);
        UpdateRowKeepsOrder(s.records, i, r');
        Outcome(Success(r'), s.(books := s.books[r.bookId := book.(stock := book.stock + 1)],
                                records := s.records[i := r']))
  }

  /** The common effect of both returns on row `i`: RETURNED, returned now,
      one unit back to the book. */
  function CloseLoan(s: Store, i: nat, now: Time): (o: Outcome<BorrowRecord>)
    requires WellFormed(s) && i < |s.records| && s.records[i].bookId in s.books
    ensures WellFormed(o.store)
    ensures o.result.Success?
    ensures o.result.value == s.records[i].(status := Returned, returnDate := Some(now))
    ensures o.store.records == s.records[i := o.result.value]
    ensures var b := s.records[i].bookId;
            o.store.books == s.books[b := s.books[b].(stock := s.books[b].stock + 1)]
    ensures o.store.users == s.users
  {
    var r := s.records[i];
    var book := s.books[r.bookId];
    var r' := r.(status := Returned, returnDate := Some(now));
    UpdateRowKeepsOrder(s.records, i, r');
    Outcome(Success(r'), s.(books := s.books[r.bookId := book.(stock := book.stock + 1)],
                            records := s.records[i := r']))
  }

  /** What a successful return commits. */
  ghost predicate ReturnedEffect(s: Store, id: RecordId, now: Time, o: Outcome<BorrowRecord>)
    requires o.result.Success?
  {
    var b := o.result.value.bookId;
    && FindById(s.records, id).Some?
    && RowOf(s.records, id).status == Borrowed
    && o.result.value == RowOf(s.records, id).(status := Returned, returnDate := Some(now))
    && OnlyRowChanged(s.records, o.store.records, id, o.result.value)
    && b in s.books
    && o.store.books == s.books[b := s.books[b].(stock := s.books[b].stock + 1)]
    && o.store.users == s.users
  }

  /** `returnBook(id, username)`: the borrower's name is read first (a record
      without a user fails there), then the status is checked, and only then
      ownership; there is no administrator bypass here. */
  function ReturnBook(s: Store, id: RecordId, username: string, now: Time): (o: Outcome<BorrowRecord>)
    requires WellFormed(s)
    ensures WellFormed(o.store)
    ensures o.result == Failure(RecordNotFound) <==> FindById(s.records, id).None?
    ensures o.result == Failure(DanglingReference) <==>
              FindById(s.records, id).Some? && RowOf(s.records, id).userId !in s.users
    ensures FindById(s.records, id).Some? && RowOf(s.records, id).userId in s.users &&
            RowOf(s.records, id).status != Borrowed ==>
              o.result == Failure(NotBorrowed(RowOf(s.records, id).status))
    ensures o.result == Failure(NotOwner) <==>
              && FindById(s.records, id).Some? && RowOf(s.records, id).userId in s.users
              && RowOf(s.records, id).status == Borrowed
              && s.users[RowOf(s.records, id).userId].username != username
    ensures o.result == Failure(RecordBookMissing) <==>
              && FindById(s.records, id).Some? && RowOf(s.records, id).userId in s.users
              && RowOf(s.records, id).status == Borrowed
              && s.users[RowOf(s.records, id).userId].username == username
              && RowOf(s.records, id).bookId !in s.books
    ensures o.result.Success? <==>
              && FindById(s.records, id).Some? && RowOf(s.records, id).userId in s.users
              && RowOf(s.records, id).status == Borrowed
              && s.users[RowOf(s.records, id).userId].username == username
              && RowOf(s.records, id).bookId in s.books
    ensures o.result.Failure? ==> o.store == s
    ensures o.result.Success? ==> ReturnedEffect(s, id, now, o)
  {
    match FindById(s.records, id)
    case None => Outcome(Failure(RecordNotFound), s)
    case Some(i) =>
      var r := s.records[i];
      if r.userId !in s.users then Outcome(Failure(DanglingReference), s)
      else if r.status != Borrowed then Outcome(Failure(NotBorrowed(r.status)), s)
      else if s.users[r.userId].username != username then Outcome(Failure(NotOwner), s)
      else if r.bookId !in s.books then Outcome(Failure(RecordBookMissing), s)
      else CloseLoan(s, i, now)
  }

  /** `adminReturnBook(id)`: `returnBook` without the ownership check. */
  function AdminReturnBook(s: Store, id: RecordId, now: Time): (o: Outcome<BorrowRecord>)
    requires WellFormed(s)
    ensures WellFormed(o.store)
    ensures o.result == Failure(RecordNotFound) <==> FindById(s.records, id).None?
    ensures o.result == Failure(DanglingReference) <==>
              FindById(s.records, id).Some? && RowOf(s.records, id).userId !in s.users
    ensures FindById(s.records, id).Some? && RowOf(s.records, id).userId in s.users &&
            RowOf(s.records, id).status != Borrowed ==>
              o.result == Failure(AdminNotBorrowed(RowOf(s.records, id).status))
    ensures o.result == Failure(RecordBookMissing) <==>
              && FindById(s.records, id).Some? && RowOf(s.records, id).userId in s.users
              && RowOf(s.records, id).status == Borrowed
              && RowOf(s.records, id).bookId !in s.books
    ensures o.result.Success? <==>
              && FindById(s.records, id).Some? && RowOf(s.records, id).userId in s.users
              && RowOf(s.records, id).status == Borrowed
              && RowOf(s.records, id).bookId in s.books
    ensures o.result != Failure(NotOwner)
    ensures o.result.Failure? ==> o.store == s
    ensures o.result.Success? ==> ReturnedEffect(s, id, now, o)
  {
    match FindById(s.records, id)
    case None => Outcome(Failure(RecordNotFound), s)
    case Some(i) =>
      var r := s.records[i];
      if r.userId !in s.users then Outcome(Failure(DanglingReference), s)
      else if r.status != Borrowed then Outcome(Failure(AdminNotBorrowed(r.status)), s)
      else if r.bookId !in s.books then Outcome(Failure(RecordBookMissing), s)
      else CloseLoan(s, i, now)
  }

  // ---- queries (no store change) ----

  /** `getBorrows(username, status)`: an ADMIN user sees every record, anyone
      else only their own; the status filter applies whenever a status is
      given, the empty one included. */
  function GetBorrows(s: Store, username: string, status: Option<string>): (r: Result<seq<BorrowRecord>>)
    requires WellFormed(s)
    ensures r.Failure? <==> !UsernameExists(s.users, username)
    ensures r.Failure? ==> r.error == UserNotFound
    ensures r.Success? ==>
              var uid := UserByName(s.users, username).value;
              forall x :: x in r.value <==>
                && x in s.records
                && (s.users[uid].role != "ADMIN" ==> x.userId == uid)
                && (status.Some? ==> StatusName(x.status) == status.value)
  {
    match UserByName(s.users, username)
    case None => Failure(UserNotFound)
    case Some(uid) =>
      if s.users[uid].role == "ADMIN" then
        Success(if status.Some? then FindByStatus(s.records, status.value) else s.records)
      else
        Success(if status.Some? then FindByUserAndStatus(s.records, uid, status.value)
                else FindByUser(s.records, uid))
  }

  /** `getAllBorrows(status)`: an absent or empty status means no filter. */
  function GetAllBorrows(s: Store, status: Option<string>): (r: seq<BorrowRecord>)
    ensures status.None? || status == Some("") ==> r == s.records
    ensures forall x :: x in r <==>
              x in s.records && (status.Some? && status.value != "" ==> StatusName(x.status) == status.value)
  {
    if status.Some? && status.value != "" then FindByStatus(s.records, status.value) else s.records
  }

  /** `getUserBorrowRecords(username)`: the user's own records. */
  function GetUserBorrowRecords(s: Store, username: string): (r: Result<seq<BorrowRecord>>)
    requires WellFormed(s)
    ensures r.Failure? <==> !UsernameExists(s.users, username)
    ensures r.Failure? ==> r.error == UserNotFound
    ensures r.Success? ==>
              forall x :: x in r.value <==>
                x in s.records && x.userId in s.users && s.users[x.userId].username == username
  {
    match UserByName(s.users, username)
    case None => Failure(UserNotFound)
    case Some(uid) => Success(FindByUser(s.records, uid))
  }
}
