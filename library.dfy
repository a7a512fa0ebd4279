/** The services as they run: one object holding the three tables and the
    identity counters, whose transactional methods update them in place.
    Each method commits exactly what the matching function of `Lending`,
    `Catalog` or `Accounts` describes, so every property proved there holds
    of the running services. */
module Services {
  import opened Entities
  import opened Failures
  import opened RecordQueries
  import Lending
  import Catalog
  import Accounts

  /** The scan a DELETE statement makes over the table: the rows `c` does
      not match, in table order. */
  method KeepUnmatched(table: seq<BorrowRecord>, c: Criteria) returns (kept: seq<BorrowRecord>)
    ensures kept == Remove(table, c)
  {
    kept := [];
    var i := 0;
    while i < |table|
      invariant 0 <= i <= |table|
      invariant kept == Remove(table[..i], c)
    {
      assert table[..i + 1] == table[..i] + [table[i]];
      RemoveAppend(table[..i], [table[i]], c);
      if !Matches(c, table[i]) {
        kept := kept + [table[i]];
      }
      i := i + 1;
    }
    assert table[..i] == table;
  }

  class Library {
    var books: map<BookId, Book>
    var users: map<UserId, User>
    var records: seq<BorrowRecord>
    var nextBookId: BookId
    var nextUserId: UserId
    var nextRecordId: RecordId

    /** The tables as one value. */
    function State(): Store
      reads this
    {
      Store(books, users, records, nextBookId, nextUserId, nextRecordId)
    }

    ghost predicate Valid()
      reads this
    {
      WellFormed(State())
    }

    /** Empty tables; identity columns start at 1. */
    constructor ()
      ensures Valid()
      ensures State() == Store(map[], map[], [], 1, 1, 1)
    {
      books := map[];
      users := map[];
      records := [];
      nextBookId := 1;
      nextUserId := 1;
      nextRecordId := 1;
    }

    // ---- the record repository's deleting statements ----

    /** `delete(entity)`: the row with the entity's id goes. */
    method DeleteRecord(x: BorrowRecord)
      requires Valid()
      modifies this
      ensures Valid()
      ensures records == Remove(old(records), WithIds({x.id}))
      ensures books == old(books) && users == old(users)
      ensures nextBookId == old(nextBookId) && nextUserId == old(nextUserId) && nextRecordId == old(nextRecordId)
    {
      RemoveKeepsWellFormed(State(), WithIds({x.id}));
      records := Remove(records, WithIds({x.id}));
    }

    /** `DELETE FROM BorrowRecord WHERE c`, row by row, returning how many
        rows went. */
    method DeleteWhere(c: Criteria) returns (n: nat)
      requires Valid()
      modifies this
      ensures Valid()
      ensures n == Count(old(records), c)
      ensures records == Remove(old(records), c)
      ensures books == old(books) && users == old(users)
      ensures nextBookId == old(nextBookId) && nextUserId == old(nextUserId) && nextRecordId == old(nextRecordId)
    {
      n := Count(records, c);
      var kept := KeepUnmatched(records, c);
      RemoveKeepsWellFormed(State(), c);
      records := kept;
    }

    /** `deleteByUserIdAndStatusIn`. */
    method DeleteByUserIdAndStatusIn(u: UserId, sts: seq<string>) returns (n: nat)
      requires Valid()
      modifies this
      ensures Valid()
      ensures n == CountByUserIdAndStatusIn(old(records), u, sts)
      ensures records == Remove(old(records), ByUserStatusIn(u, sts))
      ensures books == old(books) && users == old(users)
      ensures nextBookId == old(nextBookId) && nextUserId == old(nextUserId) && nextRecordId == old(nextRecordId)
    {
      n := DeleteWhere(ByUserStatusIn(u, sts));
    }

    /** `deleteByBookIdAndStatusIn`. */
    method DeleteByBookIdAndStatusIn(b: BookId, sts: seq<string>) returns (n: nat)
      requires Valid()
      modifies this
      ensures Valid()
      ensures n == CountByBookIdAndStatusIn(old(records), b, sts)
      ensures records == Remove(old(records), ByBookStatusIn(b, sts))
      ensures books == old(books) && users == old(users)
      ensures nextBookId == old(nextBookId) && nextUserId == old(nextUserId) && nextRecordId == old(nextRecordId)
    {
      n := DeleteWhere(ByBookStatusIn(b, sts));
    }

    // ---- the borrow service ----

    method BorrowBook(username: string, bookId: BookId, now: Time) returns (r: Result<BorrowRecord>)
      requires Valid()
      modifies this
      ensures Valid()
      ensures Outcome(r, State()) == Lending.Borrow(old(State()), username, bookId, now)
    {
      var user := UserByName(users, username);
      if user.None? {
        return Failure(UserNotFound);
      }
      if bookId !in books {
        return Failure(BookNotFound);
      }
      var book := books[bookId];
      if book.stock <= 0 {
        return Failure(OutOfStock);
      }
      var record := BorrowRecord(nextRecordId, bookId, user.value, now, PlusDays(now, LoanPeriodDays), None, Pending);
      books := books[bookId := book.(stock := book.stock - 1)];
      records := records + [record];
      nextRecordId := nextRecordId + 1;
      return Success(record);
    }

    method ApproveBorrow(id: RecordId) returns (r: Result<BorrowRecord>)
      requires Valid()
      modifies this
      ensures Valid()
      ensures Outcome(r, State()) == Lending.Approve(old(State()), id)
    {
      var found := FindById(records, id);
      if found.None? {
        return Failure(RecordNotFound);
      }
      var record := records[found.value];
      if record.status != Pending {
        return Failure(NotPending);
      }
      record := record.(status := Borrowed);
      records := records[found.value := record];
      return Success(record);
    }

    method RejectBorrow(id: RecordId) returns (r: Result<BorrowRecord>)
      requires Valid()
      modifies this
      ensures Valid()
      ensures Outcome(r, State()) == Lending.Reject(old(State()), id)
    {
      var found := FindById(records, id);
      if found.None? {
        return Failure(RecordNotFound);
      }
      var record := records[found.value];
      if record.status != Pending {
        return Failure(NotPending);
      }
      if record.bookId !in books {
        return Failure(DanglingReference);
      }
      var book := books[record.bookId];
      books := books[record.bookId := book.(stock := book.stock + 1)];
      record := record.(status := Rejected);
      records := records[found.value := record];
      return Success(record);
    }

    method ReturnBook(id: RecordId, username: string, now: Time) returns (r: Result<BorrowRecord>)
      requires Valid()
      modifies this
      ensures Valid()
      ensures Outcome(r, State()) == Lending.ReturnBook(old(State()), id, username, now)
    {
      var found := FindById(records, id);
      if found.None? {
        return Failure(RecordNotFound);
      }
      var record := records[found.value];
      if record.userId !in users {
        return Failure(DanglingReference);
      }
      if record.status != Borrowed {
        return Failure(NotBorrowed(record.status));
      }
      if users[record.userId].username != username {
        return Failure(NotOwner);
      }
      if record.bookId !in books {
        return Failure(RecordBookMissing);
      }
      var book := books[record.bookId];
      books := books[record.bookId := book.(stock := book.stock + 1)];
      record := record.(returnDate := Some(now), status := Returned);
      records := records[found.value := record];
      return Success(record);
    }

    method AdminReturnBook(id: RecordId, now: Time) returns (r: Result<BorrowRecord>)
      requires Valid()
      modifies this
      ensures Valid()
      ensures Outcome(r, State()) == Lending.AdminReturnBook(old(State()), id, now)
    {
      var found := FindById(records, id);
      if found.None? {
        return Failure(RecordNotFound);
      }
      var record := records[found.value];
      if record.userId !in users {
        return Failure(DanglingReference);
      }
      if record.status != Borrowed {
        return Failure(AdminNotBorrowed(record.status));
      }
      if record.bookId !in books {
        return Failure(RecordBookMissing);
      }
      var book := books[record.bookId];
      books := books[record.bookId := book.(stock := book.stock + 1)];
      record := record.(returnDate := Some(now), status := Returned);
      records := records[found.value := record];
      return Success(record);
    }

    // ---- the book service ----

    method AddBook(f: Catalog.BookFields, now: Time) returns (r: Result<(BookId, Book)>)
      requires Valid()
      modifies this
      ensures Valid()
      ensures Outcome(r, State()) == Catalog.AddBook(old(State()), f, now)
    {
      if Catalog.MissingRequiredField(f) || Catalog.IsbnTaken(books, f.isbn.value, None) {
        return Failure(ConstraintViolation);
      }
      var book := Book(f.title.value, f.author.value, f.isbn.value, f.publisher.value, f.publishDate.value,
                       f.category.value, f.description, f.stock.value, DefaultBookStatus, now, now);
      var id := nextBookId;
      books := books[id := book];
      nextBookId := nextBookId + 1;
      return Success((id, book));
    }

    method UpdateBook(id: BookId, f: Catalog.BookFields, now: Time) returns (r: Result<Book>)
      requires Valid()
      modifies this
      ensures Valid()
      ensures Outcome(r, State()) == Catalog.UpdateBook(old(State()), id, f, now)
    {
      if id !in books {
        return Failure(BookNotFound);
      }
      if f.isbn.Some? && Catalog.IsbnTaken(books, f.isbn.value, Some(id)) {
        return Failure(ConstraintViolation);
      }
      var book := Catalog.Patched(books[id], f, now);
      books := books[id := book];
      return Success(book);
    }

    /** The loop of `deleteBook`: `delete(entity)` for each listed record. */
    method DeleteListed(listed: seq<BorrowRecord>)
      requires Valid()
      modifies this
      ensures Valid()
      ensures State() == old(State()).(records := Remove(old(records), WithIds(IdsOf(listed))))
    {
      ghost var start := records;
      RemoveNoneListed(start, listed);
      var i := 0;
      while i < |listed|
        invariant 0 <= i <= |listed|
        invariant Valid()
        invariant State() == old(State()).(records := Remove(start, WithIds(IdsOf(listed[..i]))))
      {
        RemoveOneMore(start, listed, i);
        DeleteRecord(listed[i]);
        i := i + 1;
      }
      assert listed[..i] == listed;
    }

    /** The cascade of `deleteBook`: every record `findByBookId` listed is
        deleted one entity at a time, then the batch statement runs over all
        four statuses (and finds nothing left). */
    method PurgeBookRecords(id: BookId)
      requires Valid()
      modifies this
      ensures Valid()
      ensures State() == old(State()).(records := Remove(old(records), ByBook(id)))
    {
      var all := FindByBookId(records, id);
      Catalog.CascadeSteps(records, id);
      if |all| > 0 {
        DeleteListed(all);
        var deleted := DeleteByBookIdAndStatusIn(id, AllStatusNames);
      }
    }

    /** `deleteBook`: the guard on unfinished records, the cascade, then the book. */
    method DeleteBook(id: BookId) returns (r: Result<()>)
      requires Valid()
      modifies this
      ensures Valid()
      ensures Outcome(r, State()) == Catalog.DeleteBook(old(State()), id)
    {
      if id !in books {
        return Failure(BookNotFound);
      }
      var active := Catalog.UnfinishedOf(records, id);
      if |active| > 0 {
        return Failure(BookHasActiveLoans(|active|));
      }
      PurgeBookRecords(id);
      books := books - {id};
      return Success(());
    }

    // ---- the user service ----

    method Register(req: Accounts.RegisterRequest, now: Time) returns (r: Result<(UserId, User)>)
      requires Valid()
      modifies this
      ensures Valid()
      ensures Outcome(r, State()) == Accounts.Register(old(State()), req, now)
    {
      if UsernameExists(users, req.username) {
        return Failure(UsernameTaken);
      }
      if EmailExists(users, req.email) {
        return Failure(EmailTaken);
      }
      var role := if req.role.Some? then req.role.value else Accounts.DefaultRole;
      var user := User(req.username, Accounts.Encode(req.password), req.email, role,
                       Accounts.ActiveAccount, now, now, None);
      var id := nextUserId;
      users := users[id := user];
      nextUserId := nextUserId + 1;
      return Success((id, user));
    }

    method UpdateUser(id: UserId, f: Accounts.UserFields) returns (r: Result<User>)
      requires Valid()
      modifies this
      ensures Valid()
      ensures Outcome(r, State()) == Accounts.UpdateUser(old(State()), id, f)
    {
      if id !in users {
        return Failure(UserNotFound);
      }
      var user := users[id];
      if f.email.Some? { user := user.(email := f.email.value); }
      if f.password.Some? { user := user.(password := Accounts.Encode(f.password.value)); }
      if f.role.Some? { user := user.(role := f.role.value); }
      if f.status.Some? { user := user.(status := f.status.value); }
      users := users[id := user];
      return Success(user);
    }

    method UpdateLastLogin(username: string, now: Time) returns (r: Result<User>)
      requires Valid()
      modifies this
      ensures Valid()
      ensures Outcome(r, State()) == Accounts.UpdateLastLogin(old(State()), username, now)
    {
      var found := UserByName(users, username);
      if found.None? {
        return Failure(UserNotFound);
      }
      var user := users[found.value].(lastLogin := Some(now));
      users := users[found.value := user];
      return Success(user);
    }

    method UpdatePassword(username: string, current: string, replacement: string, now: Time) returns (r: Result<User>)
      requires Valid()
      modifies this
      ensures Valid()
      ensures Outcome(r, State()) == Accounts.UpdatePassword(old(State()), username, current, replacement, now)
    {
      var found := UserByName(users, username);
      if found.None? {
        return Failure(UserNotFound);
      }
      var user := users[found.value];
      if !Accounts.PasswordMatches(current, user.password) {
        return Failure(WrongPassword);
      }
      user := user.(password := Accounts.Encode(replacement), updatedAt := now);
      users := users[found.value := user];
      return Success(user);
    }

    /** `deleteUser`: the guard, then the batch delete over all four statuses,
        then the user. */
    method DeleteUser(id: UserId) returns (r: Result<()>)
      requires Valid()
      modifies this
      ensures Valid()
      ensures Outcome(r, State()) == Accounts.DeleteUser(old(State()), id)
    {
      if id !in users {
        return Failure(UserNotFound);
      }
      if Accounts.IsProtectedName(users[id].username) {
        return Failure(ProtectedAccount);
      }
      var borrowCount := CountByUserId(records, id);
      if borrowCount > 0 {
        var activeCount := CountByUserIdAndStatusIn(records, id, ActiveStatusNames);
        if activeCount > 0 {
          return Failure(UserHasActiveLoans(activeCount));
        }
        var deleted := DeleteByUserIdAndStatusIn(id, AllStatusNames);
      }
      users := users - {id};
      return Success(());
    }
  }
}
