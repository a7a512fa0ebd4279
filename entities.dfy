/** The persistent entities of the library (books, users, borrow records) and
    the in-memory store that stands for the three database tables. Records refer
    to their book and user by id, never by object reference. */
module Entities {

  type BookId = nat
  type UserId = nat
  type RecordId = nat

  /** A `LocalDateTime`, as seconds on the local time line (no zone, no DST). */
  type Time = int
  /** A `LocalDate`, as a day number. */
  type Day = int

  datatype Option<T> = None | Some(value: T) {
    function GetOr(default: T): T {
      match this
      case Some(v) => v
      case None => default
    }
  }

  const SecondsPerDay: int := 24 * 60 * 60
  /** The loan period written as `plusDays(14)` when a record is created. */
  const LoanPeriodDays: int := 14

  /** `LocalDateTime.plusDays`: on a zone-less time line a day is 86400 seconds. */
  function PlusDays(t: Time, days: int): (r: Time)
    ensures days > 0 ==> r > t
    ensures r - t == days * SecondsPerDay
  {
    t + days * SecondsPerDay
  }

  /** The four values the status column takes. */
  datatype Status = Pending | Borrowed | Returned | Rejected

  /** The text stored in the status column. */
  function StatusName(s: Status): string {
    match s
    case Pending => "PENDING"
    case Borrowed => "BORROWED"
    case Returned => "RETURNED"
    case Rejected => "REJECTED"
  }

  /** A record that still holds one unit of its book's stock. */
  predicate Active(s: Status) {
    s == Pending || s == Borrowed
  }

  /** The status list both deletion guards count as unfinished. */
  const ActiveStatusNames: seq<string> := ["PENDING", "BORROWED"]
  /** The status list the cascading deletes pass: every status there is. */
  const AllStatusNames: seq<string> := ["RETURNED", "REJECTED", "PENDING", "BORROWED"]

  lemma StatusNameFacts(s: Status)
    ensures StatusName(s) in ActiveStatusNames <==> Active(s)
    ensures StatusName(s) in AllStatusNames
    ensures StatusName(s) != ""
  {
  }

  lemma StatusNameInjective(a: Status, b: Status)
    ensures StatusName(a) == StatusName(b) <==> a == b
  {
  }

  datatype Book = Book(
    title: string,
    author: string,
    isbn: string,
    publisher: string,
    publishDate: Day,
    category: string,
    description: Option<string>,
    stock: int,
    status: string,
    createdAt: Time,
    updatedAt: Time)

  /** The initial value of `Book.status`; the lending code never changes it. */
  const DefaultBookStatus: string := "AVAILABLE"

  datatype User = User(
    username: string,
    password: string,
    email: string,
    role: string,
    status: string,
    createdAt: Time,
    updatedAt: Time,
    lastLogin: Option<Time>)

  datatype BorrowRecord = BorrowRecord(
    id: RecordId,
    bookId: BookId,
    userId: UserId,
    borrowDate: Time,
    dueDate: Time,
    returnDate: Option<Time>,
    status: Status)

  /** The three tables and the identity counters of the database. */
  datatype Store = Store(
    books: map<BookId, Book>,
    users: map<UserId, User>,
    records: seq<BorrowRecord>,
    nextBookId: BookId,
    nextUserId: UserId,
    nextRecordId: RecordId)

  /** Records are kept in insertion order, which is identity order. */
  ghost predicate IdsIncreasing(rs: seq<BorrowRecord>) {
    forall i, j :: 0 <= i < j < |rs| ==> rs[i].id < rs[j].id
  }

  /** `findByUsername` yields at most one user. */
  ghost predicate UniqueUsernames(users: map<UserId, User>) {
    forall a, b :: a in users && b in users && users[a].username == users[b].username ==> a == b
  }

  /** What the database guarantees of the tables on its own: identity keys
      below their counters, one row per record id, one user per name. */
  ghost predicate WellFormed(s: Store) {
    && (forall id :: id in s.books ==> id < s.nextBookId)
    && (forall id :: id in s.users ==> id < s.nextUserId)
    && (forall i :: 0 <= i < |s.records| ==> s.records[i].id < s.nextRecordId)
    && IdsIncreasing(s.records)
    && UniqueUsernames(s.users)
  }

  /** Every record's book and user still exist (referential integrity). */
  ghost predicate LinksIntact(s: Store) {
    forall i :: 0 <= i < |s.records| ==>
      s.records[i].bookId in s.books && s.records[i].userId in s.users
  }

  /** Every book's stock counter is non-negative. */
  ghost predicate StockNonNegative(s: Store) {
    forall b :: b in s.books ==> s.books[b].stock >= 0
  }

  /** `userRepository.findByUsername`. */
  function UserByName(users: map<UserId, User>, name: string): (r: Option<UserId>)
    requires UniqueUsernames(users)
    ensures r.Some? ==> r.value in users && users[r.value].username == name
    ensures r.None? ==> forall id :: id in users ==> users[id].username != name
  {
    if exists id :: id in users && users[id].username == name then
      var id :| id in users && users[id].username == name;
      Some(id)
    else
      None
  }

  /** `existsByUsername`. */
  predicate UsernameExists(users: map<UserId, User>, name: string) {
    exists id :: id in users && users[id].username == name
  }

  /** `existsByEmail`. */
  predicate EmailExists(users: map<UserId, User>, email: string) {
    exists id :: id in users && users[id].email == email
  }

  /** The stock of a book, with a missing book counting as no stock. */
  function StockOf(books: map<BookId, Book>, b: BookId): int {
    if b in books then books[b].stock else 0
  }

  /** `String.contains`: `k` occurs in `s` at some position. */
  predicate Contains(s: string, k: string) {
    exists i :: 0 <= i <= |s| - |k| && OccursAt(s, k, i)
  }

  predicate OccursAt(s: string, k: string, i: int)
    requires 0 <= i <= |s| - |k|
  {
    s[i..i + |k|] == k
  }

  lemma ContainsInfix(a: string, k: string, b: string)
    ensures Contains(a + k + b, k)
  {
    var s := a + k + b;
    assert OccursAt(s, k, |a|);
  }
}
