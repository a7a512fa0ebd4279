/** The book service: keyword search, adding a book, partial update, and the
    guarded, cascading delete. */
module Catalog {
  import opened Entities
  import opened Failures
  import opened RecordQueries
  import opened Lending

  /** The request body of add and update; an absent field is a JSON null. */
  datatype BookFields = BookFields(
    title: Option<string>,
    author: Option<string>,
    isbn: Option<string>,
    publisher: Option<string>,
    publishDate: Option<Day>,
    category: Option<string>,
    description: Option<string>,
    stock: Option<int>)

  /** `findBooks(keyword)`: with a non-empty keyword, the books whose title or
      author contains it; otherwise every book. */
  function FindBooks(books: map<BookId, Book>, keyword: Option<string>): (r: map<BookId, Book>)
    ensures forall id :: id in r ==> id in books && r[id] == books[id]
    ensures keyword.None? || keyword == Some("") ==> r == books
    ensures keyword.Some? && keyword.value != "" ==>
              forall id :: id in books ==>
                (id in r <==> Contains(books[id].title, keyword.value) || Contains(books[id].author, keyword.value))
  {
    if keyword.Some? && keyword.value != "" then
      map id | id in books && (Contains(books[id].title, keyword.value) || Contains(books[id].author, keyword.value)) :: books[id]
    else
      books
  }

  /** A NOT NULL column of the books table would receive null. */
  predicate MissingRequiredField(f: BookFields) {
    f.title.None? || f.author.None? || f.isbn.None? || f.publisher.None? ||
    f.publishDate.None? || f.category.None? || f.stock.None?
  }

  /** The UNIQUE isbn column already holds `isbn` in a book other than `self`. */
  predicate IsbnTaken(books: map<BookId, Book>, isbn: string, self: Option<BookId>) {
    exists id :: id in books && books[id].isbn == isbn && self != Some(id)
  }

  /** `addBook(dto)`: the stock is stored as given, negative or not. */
  function AddBook(s: Store, f: BookFields, now: Time): (o: Outcome<(BookId, Book)>)
    requires WellFormed(s)
    ensures WellFormed(o.store)
    ensures o.result.Failure? <==> MissingRequiredField(f) || IsbnTaken(s.books, f.isbn.value, None)
    ensures o.result.Failure? ==> o.result.error == ConstraintViolation && o.store == s
    ensures o.result.Success? ==>
              var (id, b) := o.result.value;
              && id !in s.books
              && o.store.books == s.books[id := b]
              && o.store.records == s.records && o.store.users == s.users
              && Some(b.title) == f.title && Some(b.author) == f.author && Some(b.isbn) == f.isbn
              && Some(b.publisher) == f.publisher && Some(b.publishDate) == f.publishDate
              && Some(b.category) == f.category && b.description == f.description
              && Some(b.stock) == f.stock
              && b.status == DefaultBookStatus && b.createdAt == now && b.updatedAt == now
  {
    if MissingRequiredField(f) || IsbnTaken(s.books, f.isbn.value, None) then
      Outcome(Failure(ConstraintViolation), s)
    else
      var b := Book(f.title.value, f.author.value, f.isbn.value, f.publisher.value, f.publishDate.value,
                    f.category.value, f.description, f.stock.value, DefaultBookStatus, now, now);
      Outcome(Success((s.nextBookId, b)),
              s.(books := s.books[s.nextBookId := b], nextBookId := s.nextBookId + 1))
  }

  /** Book `b` with every field the request gives written over it and the
      update time refreshed. */
  function Patched(b: Book, f: BookFields, now: Time): Book {
    Book(f.title.GetOr(b.title), f.author.GetOr(b.author), f.isbn.GetOr(b.isbn),
         f.publisher.GetOr(b.publisher), f.publishDate.GetOr(b.publishDate), f.category.GetOr(b.category),
         if f.description.Some? then f.description else b.description,
         f.stock.GetOr(b.stock), b.status, b.createdAt, now)
  }

  /** `updateBook(id, dto)`: every non-null field overwrites the stored one,
      the stock included; the update time is always refreshed. */
  function UpdateBook(s: Store, id: BookId, f: BookFields, now: Time): (o: Outcome<Book>)
    requires WellFormed(s)
    ensures WellFormed(o.store)
    ensures o.result == Failure(BookNotFound) <==> id !in s.books
    ensures o.result == Failure(ConstraintViolation) <==>
              id in s.books && f.isbn.Some? && IsbnTaken(s.books, f.isbn.value, Some(id))
    ensures o.result.Failure? ==> o.store == s
    ensures o.result.Success? ==>
              var (old_, b) := (s.books[id], o.result.value);
              && id in s.books
              && o.store == s.(books := s.books[id := b])
              && b.title == f.title.GetOr(old_.title) && b.author == f.author.GetOr(old_.author)
              && b.isbn == f.isbn.GetOr(old_.isbn) && b.publisher == f.publisher.GetOr(old_.publisher)
              && b.publishDate == f.publishDate.GetOr(old_.publishDate)
              && b.category == f.category.GetOr(old_.category)
              && b.description == (if f.description.Some? then f.description else old_.description)
              && b.stock == f.stock.GetOr(old_.stock)
              && b.status == old_.status && b.createdAt == old_.createdAt && b.updatedAt == now
  {
    if id !in s.books then Outcome(Failure(BookNotFound), s)
    else if f.isbn.Some? && IsbnTaken(s.books, f.isbn.value, Some(id)) then
      Outcome(Failure(ConstraintViolation), s)
    else
      var b' := Patched(s.books[id], f, now);
      Outcome(Success(b'), s.(books := s.books[id := b']))
  }

  /** The unfinished records of a book, as the stream filter over
      `findByBookId` picks them. */
  function UnfinishedOf(rs: seq<BorrowRecord>, id: BookId): (r: seq<BorrowRecord>)
    ensures |r| == CountByBookIdAndStatusIn(rs, id, ActiveStatusNames)
    ensures forall x :: x in r <==> x in rs && x.bookId == id && Active(x.status)
  {
    var active := Criteria(None, None, None, Some(ActiveStatusNames));
    SelectTwice(rs, ByBook(id), active, ByBookStatusIn(id, ActiveStatusNames));
    forall x ensures Matches(active, x) <==> Active(x.status) {
      StatusNameFacts(x.status);
    }
    Select(FindByBookId(rs, id), active)
  }

  /** The store the cascade leaves: every record of the book deleted, then
      the book. */
  function WithoutBook(s: Store, id: BookId): (t: Store)
    requires WellFormed(s)
    ensures WellFormed(t)
    ensures t.books == s.books - {id} && t.users == s.users
    ensures forall x :: x in t.records <==> x in s.records && x.bookId != id
  {
    RemoveKeepsWellFormed(s, ByBook(id));
    s.(books := s.books - {id}, records := Remove(s.records, ByBook(id)))
  }

  /** `deleteBook(id)`: refused while the book has PENDING or BORROWED
      records, reporting how many; otherwise every record of the book goes,
      then the book. */
  function DeleteBook(s: Store, id: BookId): (o: Outcome<()>)
    requires WellFormed(s)
    ensures WellFormed(o.store)
    ensures o.result == Failure(BookNotFound) <==> id !in s.books
    ensures o.result.Failure? && id in s.books ==>
              o.result.error == BookHasActiveLoans(CountByBookIdAndStatusIn(s.records, id, ActiveStatusNames)) &&
              o.result.error.count > 0
    ensures o.result.Success? <==> id in s.books && Count(s.records, ActiveOf(id)) == 0
    ensures o.result.Failure? ==> o.store == s
    ensures o.result.Success? ==>
              && o.store.books == s.books - {id}
              && o.store.users == s.users
              && (forall x :: x in o.store.records ==> x in s.records && x.bookId != id)
              && (forall x :: x in s.records && x.bookId != id ==> x in o.store.records)
  {
    if id !in s.books then Outcome(Failure(BookNotFound), s)
    else
      var active := UnfinishedOf(s.records, id);
      if |active| > 0 then Outcome(Failure(BookHasActiveLoans(|active|)), s)
      else
        CountCongruent(s.records, ActiveOf(id), ByBookStatusIn(id, ActiveStatusNames));
        Outcome(Success(()), WithoutBook(s, id))
  }

  /** The two deletes `deleteBook` runs, the listed rows one by one and then
      the batch over every status, together take exactly the book's rows; with
      no row listed there is nothing to take. */
  lemma CascadeSteps(rs: seq<BorrowRecord>, id: BookId)
    requires IdsIncreasing(rs)
    ensures Remove(Remove(rs, WithIds(IdsOf(FindByBookId(rs, id)))), ByBookStatusIn(id, AllStatusNames)) ==
            Remove(rs, ByBook(id))
    ensures |FindByBookId(rs, id)| == 0 ==> Remove(rs, ByBook(id)) == rs
  {
    RemoveListedRows(rs, id);
    var rest := Remove(rs, ByBook(id));
    CountZeroIff(rest, ByBookStatusIn(id, AllStatusNames));
    RemoveNothing(rest, ByBookStatusIn(id, AllStatusNames));
    CountZeroIff(rs, ByBook(id));
    if |FindByBookId(rs, id)| == 0 {
      RemoveNothing(rs, ByBook(id));
    }
  }

  // ---- what the catalog operations do to the lending invariants ----

  /** Adding a book changes no record and removes no book or user, so every
      record keeps its book and its user. */
  lemma AddBookKeepsLinks(s: Store, f: BookFields, now: Time)
    requires WellFormed(s) && LinksIntact(s)
    ensures LinksIntact(AddBook(s, f, now).store)
  {
    var t := AddBook(s, f, now).store;
    forall i | 0 <= i < |t.records| ensures t.records[i].bookId in t.books && t.records[i].userId in t.users {
      assert t.records[i] == s.records[i];
    }
  }

  /** Updating a book keeps every book id, so every record keeps its book
      and its user. */
  lemma UpdateBookKeepsLinks(s: Store, id: BookId, f: BookFields, now: Time)
    requires WellFormed(s) && LinksIntact(s)
    ensures LinksIntact(UpdateBook(s, id, f, now).store)
  {
    var t := UpdateBook(s, id, f, now).store;
    forall i | 0 <= i < |t.records| ensures t.records[i].bookId in t.books && t.records[i].userId in t.users {
      assert t.records[i] == s.records[i];
    }
  }

  /** Deleting a book keeps every remaining record's book and user present. */
  lemma DeleteBookKeepsLinks(s: Store, id: BookId)
    requires WellFormed(s) && LinksIntact(s)
    ensures LinksIntact(DeleteBook(s, id).store)
  {
    var o := DeleteBook(s, id);
    if o.result.Success? {
      var t := o.store;
      forall i | 0 <= i < |t.records| ensures t.records[i].bookId in t.books && t.records[i].userId in t.users {
        var x := t.records[i];
        assert x in t.records;
        var j :| 0 <= j < |s.records| && s.records[j] == x;
        assert x.bookId != id;
      }
    }
  }

  /** Deleting a book leaves every other book's stock and held units as they were. */
  lemma {:induction false} DeleteBookKeepsOtherHeld(s: Store, id: BookId, b: BookId)
    requires WellFormed(s) && b != id
    ensures Held(DeleteBook(s, id).store, b) == Held(s, b)
  {
    var o := DeleteBook(s, id);
    if o.result.Success? {
      assert o.store.records == Remove(s.records, ByBook(id));
      assert StockOf(o.store.books, b) == StockOf(s.books, b);
      RemoveKeepsCount(s.records, ByBook(id), ActiveOf(b));
    }
  }

  /** An update that sets the stock moves the book's held units by exactly
      the change of stock: one of the two paths around conservation. */
  lemma UpdateBookShiftsHeld(s: Store, id: BookId, f: BookFields, now: Time)
    requires WellFormed(s)
    requires UpdateBook(s, id, f, now).result.Success?
    ensures Held(UpdateBook(s, id, f, now).store, id) ==
            Held(s, id) - s.books[id].stock + f.stock.GetOr(s.books[id].stock)
    ensures forall b :: b != id ==> Held(UpdateBook(s, id, f, now).store, b) == Held(s, b)
  {
  }

  /** A new book holds exactly the stock it was given, negative or not: the
      other path around conservation. */
  lemma AddBookHeld(s: Store, f: BookFields, now: Time)
    requires WellFormed(s) && LinksIntact(s)
    requires AddBook(s, f, now).result.Success?
    ensures Held(AddBook(s, f, now).store, AddBook(s, f, now).result.value.0) == f.stock.value
    ensures forall b :: b in s.books ==> Held(AddBook(s, f, now).store, b) == Held(s, b)
  {
    var id := AddBook(s, f, now).result.value.0;
    forall x | x in s.records ensures !Matches(ActiveOf(id), x) {
      var i :| 0 <= i < |s.records| && s.records[i] == x;
    }
    CountZeroIff(s.records, ActiveOf(id));
  }
}
