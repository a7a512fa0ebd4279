/** The queries of the borrow-record repository. Each derived query and each
    JPQL statement is a WHERE clause over the record table; a `Criteria` value
    is that clause, `Select` the rows it keeps, `Count` its COUNT(*), and
    `Remove` what the table holds after the matching DELETE. */
module RecordQueries {
  import opened Entities

  /** A conjunction of optional conditions; an absent one matches every row. */
  datatype Criteria = Criteria(
    ids: Option<set<RecordId>>,
    bookId: Option<BookId>,
    userId: Option<UserId>,
    statusIn: Option<seq<string>>)

  predicate Matches(c: Criteria, r: BorrowRecord) {
    && (c.ids.Some? ==> r.id in c.ids.value)
    && (c.bookId.Some? ==> r.bookId == c.bookId.value)
    && (c.userId.Some? ==> r.userId == c.userId.value)
    && (c.statusIn.Some? ==> StatusName(r.status) in c.statusIn.value)
  }

  function WithIds(ids: set<RecordId>): Criteria { Criteria(Some(ids), None, None, None) }
  function ByUser(u: UserId): Criteria { Criteria(None, None, Some(u), None) }
  function ByBook(b: BookId): Criteria { Criteria(None, Some(b), None, None) }
  function ByStatus(st: string): Criteria { Criteria(None, None, None, Some([st])) }
  function ByUserStatusIn(u: UserId, sts: seq<string>): Criteria { Criteria(None, None, Some(u), Some(sts)) }
  function ByBookStatusIn(b: BookId, sts: seq<string>): Criteria { Criteria(None, Some(b), None, Some(sts)) }

  /** The records of book `b` that still hold a unit of its stock. */
  function ActiveOf(b: BookId): (c: Criteria)
    ensures forall r :: Matches(c, r) <==> r.bookId == b && Active(r.status)
  {
    forall r ensures Matches(ByBookStatusIn(b, ActiveStatusNames), r) <==> r.bookId == b && Active(r.status) {
      StatusNameFacts(r.status);
    }
    ByBookStatusIn(b, ActiveStatusNames)
  }

  /** The rows matching `c`, in table order. */
  function Select(rs: seq<BorrowRecord>, c: Criteria): (r: seq<BorrowRecord>)
    ensures |r| <= |rs|
    ensures forall x :: x in r <==> x in rs && Matches(c, x)
  {
    if rs == [] then []
    else (if Matches(c, rs[0]) then [rs[0]] else []) + Select(rs[1..], c)
  }

  /** The rows not matching `c`, in table order: the table after `DELETE ... WHERE c`. */
  function Remove(rs: seq<BorrowRecord>, c: Criteria): (r: seq<BorrowRecord>)
    ensures |r| <= |rs|
    ensures forall x :: x in r <==> x in rs && !Matches(c, x)
  {
    if rs == [] then []
    else (if Matches(c, rs[0]) then [] else [rs[0]]) + Remove(rs[1..], c)
  }

  /** `SELECT COUNT(br) ... WHERE c`. */
  function Count(rs: seq<BorrowRecord>, c: Criteria): (n: nat)
    ensures n == |Select(rs, c)|
    ensures n + |Remove(rs, c)| == |rs|
  {
    if rs == [] then 0
    else (if Matches(c, rs[0]) then 1 else 0) + Count(rs[1..], c)
  }

  /** `findById`: the position of the row with that id. */
  function FindById(rs: seq<BorrowRecord>, id: RecordId): (r: Option<nat>)
    ensures r.Some? ==> r.value < |rs| && rs[r.value].id == id
    ensures r.None? ==> forall k :: 0 <= k < |rs| ==> rs[k].id != id
  {
    if rs == [] then None
    else if rs[|rs| - 1].id == id then Some(|rs| - 1)
    else FindById(rs[..|rs| - 1], id)
  }

  // ---- the repository's declared queries ----

  /** `findByUser`. */
  function FindByUser(rs: seq<BorrowRecord>, u: UserId): (r: seq<BorrowRecord>)
    ensures forall x :: x in r <==> x in rs && x.userId == u
  {
    Select(rs, ByUser(u))
  }

  /** `findByUserAndStatus`: the part of `findByUser` with that status. */
  function FindByUserAndStatus(rs: seq<BorrowRecord>, u: UserId, st: string): (r: seq<BorrowRecord>)
    ensures r == Select(FindByUser(rs, u), ByStatus(st))
    ensures forall x :: x in r <==> x in rs && x.userId == u && StatusName(x.status) == st
  {
    SelectTwice(rs, ByUser(u), ByStatus(st), Criteria(None, None, Some(u), Some([st])));
    Select(rs, Criteria(None, None, Some(u), Some([st])))
  }

  /** `findByStatus`. */
  function FindByStatus(rs: seq<BorrowRecord>, st: string): (r: seq<BorrowRecord>)
    ensures forall x :: x in r <==> x in rs && StatusName(x.status) == st
  {
    Select(rs, ByStatus(st))
  }

  /** `findByBookId`. */
  function FindByBookId(rs: seq<BorrowRecord>, b: BookId): (r: seq<BorrowRecord>)
    ensures forall x :: x in r <==> x in rs && x.bookId == b
  {
    Select(rs, ByBook(b))
  }

  /** `countByStatus`. */
  function CountByStatus(rs: seq<BorrowRecord>, st: string): (n: nat)
    ensures n == |FindByStatus(rs, st)|
  {
    Count(rs, ByStatus(st))
  }

  /** `directCountByStatus`: the same JPQL statement as `countByStatus`. */
  function DirectCountByStatus(rs: seq<BorrowRecord>, st: string): (n: nat)
    ensures n == CountByStatus(rs, st)
  {
    Count(rs, ByStatus(st))
  }

  /** `countByBookId`. */
  function CountByBookId(rs: seq<BorrowRecord>, b: BookId): (n: nat)
    ensures n == |FindByBookId(rs, b)|
  {
    Count(rs, ByBook(b))
  }

  /** `countByUserId`. */
  function CountByUserId(rs: seq<BorrowRecord>, u: UserId): (n: nat)
    ensures n == |FindByUser(rs, u)|
  {
    Count(rs, ByUser(u))
  }

  /** `countByUserIdAndStatusIn`: never more than `countByUserId`. */
  function CountByUserIdAndStatusIn(rs: seq<BorrowRecord>, u: UserId, sts: seq<string>): (n: nat)
    ensures n == |Select(rs, ByUserStatusIn(u, sts))|
    ensures n <= CountByUserId(rs, u)
  {
    CountMonotone(rs, ByUserStatusIn(u, sts), ByUser(u));
    Count(rs, ByUserStatusIn(u, sts))
  }

  /** `countByBookIdAndStatusIn`: never more than `countByBookId`. */
  function CountByBookIdAndStatusIn(rs: seq<BorrowRecord>, b: BookId, sts: seq<string>): (n: nat)
    ensures n == |Select(rs, ByBookStatusIn(b, sts))|
    ensures n <= CountByBookId(rs, b)
  {
    CountMonotone(rs, ByBookStatusIn(b, sts), ByBook(b));
    Count(rs, ByBookStatusIn(b, sts))
  }

  // ---- facts about the queries ----

  lemma {:induction false} SelectTwice(rs: seq<BorrowRecord>, c1: Criteria, c2: Criteria, c: Criteria)
    requires forall x :: Matches(c, x) <==> Matches(c1, x) && Matches(c2, x)
    ensures Select(Select(rs, c1), c2) == Select(rs, c)
  {
    if rs != [] {
      SelectTwice(rs[1..], c1, c2, c);
      var head := if Matches(c1, rs[0]) then [rs[0]] else [];
      SelectAppend(head, Select(rs[1..], c1), c2);
      assert Select(rs, c1) == head + Select(rs[1..], c1);
      if Matches(c1, rs[0]) {
        assert Select(head, c2) == (if Matches(c2, rs[0]) then [rs[0]] else []) + Select([], c2);
      }
    }
  }

  lemma {:induction false} SelectAppend(a: seq<BorrowRecord>, b: seq<BorrowRecord>, c: Criteria)
    ensures Select(a + b, c) == Select(a, c) + Select(b, c)
  {
    if a != [] {
      assert (a + b)[1..] == a[1..] + b;
      SelectAppend(a[1..], b, c);
    } else {
      assert a + b == b;
    }
  }

  lemma {:induction false} CountMonotone(rs: seq<BorrowRecord>, c1: Criteria, c2: Criteria)
    requires forall x :: Matches(c1, x) ==> Matches(c2, x)
    ensures Count(rs, c1) <= Count(rs, c2)
  {
    if rs != [] {
      CountMonotone(rs[1..], c1, c2);
    }
  }

  /** Two criteria that agree on every row of the table select the same rows. */
  lemma {:induction false} CountCongruent(rs: seq<BorrowRecord>, c1: Criteria, c2: Criteria)
    requires forall x :: x in rs ==> (Matches(c1, x) <==> Matches(c2, x))
    ensures Count(rs, c1) == Count(rs, c2)
    ensures Remove(rs, c1) == Remove(rs, c2)
  {
    if rs != [] {
      assert forall x :: x in rs[1..] ==> x in rs;
      CountCongruent(rs[1..], c1, c2);
    }
  }

  /** Appending a row adds one to every count that the row matches. */
  lemma {:induction false} CountAppend(rs: seq<BorrowRecord>, x: BorrowRecord, c: Criteria)
    ensures Count(rs + [x], c) == Count(rs, c) + (if Matches(c, x) then 1 else 0)
  {
    if rs == [] {
      assert rs + [x] == [x];
      assert [x][1..] == [];
    } else {
      assert (rs + [x])[1..] == rs[1..] + [x];
      CountAppend(rs[1..], x, c);
    }
  }

  /** Overwriting one row moves each count by what the row matched before and after. */
  lemma {:induction false} CountUpdate(rs: seq<BorrowRecord>, i: nat, x: BorrowRecord, c: Criteria)
    requires i < |rs|
    ensures Count(rs[i := x], c) ==
            Count(rs, c) - (if Matches(c, rs[i]) then 1 else 0) + (if Matches(c, x) then 1 else 0)
  {
    if i == 0 {
      assert rs[i := x][1..] == rs[1..];
    } else {
      assert rs[i := x][1..] == rs[1..][i - 1 := x];
      CountUpdate(rs[1..], i - 1, x, c);
    }
  }

  /** Deleting row by row: the second delete removes what either set names. */
  lemma {:induction false} RemoveIdsTwice(rs: seq<BorrowRecord>, a: set<RecordId>, b: set<RecordId>)
    ensures Remove(Remove(rs, WithIds(a)), WithIds(b)) == Remove(rs, WithIds(a + b))
  {
    if rs != [] {
      RemoveIdsTwice(rs[1..], a, b);
      var head := if Matches(WithIds(a), rs[0]) then [] else [rs[0]];
      RemoveAppend(head, Remove(rs[1..], WithIds(a)), WithIds(b));
      assert Remove(rs, WithIds(a)) == head + Remove(rs[1..], WithIds(a));
      if !Matches(WithIds(a), rs[0]) {
        assert Remove(head, WithIds(b)) == (if Matches(WithIds(b), rs[0]) then [] else [rs[0]]) + Remove([], WithIds(b));
      }
    }
  }

  lemma {:induction false} RemoveAppend(a: seq<BorrowRecord>, b: seq<BorrowRecord>, c: Criteria)
    ensures Remove(a + b, c) == Remove(a, c) + Remove(b, c)
  {
    if a != [] {
      assert (a + b)[1..] == a[1..] + b;
      RemoveAppend(a[1..], b, c);
    } else {
      assert a + b == b;
    }
  }

  /** A DELETE that matches no row leaves the table as it was. */
  lemma {:induction false} RemoveNothing(rs: seq<BorrowRecord>, c: Criteria)
    requires Count(rs, c) == 0
    ensures Remove(rs, c) == rs
  {
    if rs != [] {
      var tail := rs[1..];
      assert !Matches(c, rs[0]) && Count(tail, c) == 0;
      RemoveNothing(tail, c);
      assert rs == [rs[0]] + tail;
    }
  }

  /** A DELETE keeps the surviving rows in identity order. */
  lemma {:induction false} RemoveKeepsOrder(rs: seq<BorrowRecord>, c: Criteria)
    requires IdsIncreasing(rs)
    ensures IdsIncreasing(Remove(rs, c))
  {
    if rs != [] {
      RemoveKeepsOrder(rs[1..], c);
      var tail := Remove(rs[1..], c);
      forall j | 0 <= j < |tail| ensures rs[0].id < tail[j].id {
        assert tail[j] in rs[1..];
      }
    }
  }

  /** Two rows of an identity-ordered table with the same id are the same row. */
  lemma SameIdSameRow(rs: seq<BorrowRecord>, x: BorrowRecord, y: BorrowRecord)
    requires IdsIncreasing(rs) && x in rs && y in rs && x.id == y.id
    ensures x == y
  {
    var i :| 0 <= i < |rs| && rs[i] == x;
    var j :| 0 <= j < |rs| && rs[j] == y;
    assert !(i < j) && !(j < i);
  }

  function IdsOf(rs: seq<BorrowRecord>): set<RecordId> {
    set x | x in rs :: x.id
  }

  /** Deleting the rows that `findByBookId` listed, one entity at a time, leaves
      the same table as deleting every row of the book. */
  lemma RemoveListedRows(rs: seq<BorrowRecord>, b: BookId)
    requires IdsIncreasing(rs)
    ensures Remove(rs, WithIds(IdsOf(FindByBookId(rs, b)))) == Remove(rs, ByBook(b))
  {
    var listed := FindByBookId(rs, b);
    forall x | x in rs ensures Matches(WithIds(IdsOf(listed)), x) <==> Matches(ByBook(b), x) {
      if x.id in IdsOf(listed) {
        var y :| y in listed && y.id == x.id;
        SameIdSameRow(rs, x, y);
      }
    }
    CountCongruent(rs, WithIds(IdsOf(listed)), ByBook(b));
  }

  /** A DELETE that takes none of the rows `c` counts leaves `c`'s count alone. */
  lemma {:induction false} RemoveKeepsCount(rs: seq<BorrowRecord>, gone: Criteria, c: Criteria)
    requires forall x :: x in rs && Matches(c, x) ==> !Matches(gone, x)
    ensures Count(Remove(rs, gone), c) == Count(rs, c)
  {
    if rs != [] {
      assert forall x :: x in rs[1..] ==> x in rs;
      RemoveKeepsCount(rs[1..], gone, c);
      var tail := Remove(rs[1..], gone);
      if Matches(gone, rs[0]) {
        assert Remove(rs, gone) == tail;
      } else {
        assert Remove(rs, gone) == [rs[0]] + tail;
        assert ([rs[0]] + tail)[1..] == tail;
      }
    }
  }

  /** A count is zero exactly when no row of the table matches. */
  lemma CountZeroIff(rs: seq<BorrowRecord>, c: Criteria)
    ensures Count(rs, c) == 0 <==> forall x :: x in rs ==> !Matches(c, x)
  {
    var sel := Select(rs, c);
    if |sel| > 0 {
      assert sel[0] in sel;
    }
  }

  /** A DELETE keeps the tables well formed. */
  lemma RemoveKeepsWellFormed(s: Store, c: Criteria)
    requires WellFormed(s)
    ensures WellFormed(s.(records := Remove(s.records, c)))
  {
    RemoveKeepsOrder(s.records, c);
    var rest := Remove(s.records, c);
    forall i | 0 <= i < |rest| ensures rest[i].id < s.nextRecordId {
      assert rest[i] in s.records;
    }
  }

  lemma IdsOfEmpty()
    ensures IdsOf([]) == {}
  {
  }

  lemma IdsOfSnoc(rs: seq<BorrowRecord>, x: BorrowRecord)
    ensures IdsOf(rs + [x]) == IdsOf(rs) + {x.id}
  {
    assert forall y :: y in rs + [x] <==> y in rs || y == x;
  }

  /** Deleting the first `i` listed rows and then row `i` deletes the first `i + 1`. */
  lemma RemoveOneMore(rs: seq<BorrowRecord>, listed: seq<BorrowRecord>, i: nat)
    requires i < |listed|
    ensures Remove(Remove(rs, WithIds(IdsOf(listed[..i]))), WithIds({listed[i].id})) ==
            Remove(rs, WithIds(IdsOf(listed[..i + 1])))
  {
    RemoveIdsTwice(rs, IdsOf(listed[..i]), {listed[i].id});
    assert listed[..i + 1] == listed[..i] + [listed[i]];
    IdsOfSnoc(listed[..i], listed[i]);
  }

  /** Deleting none of the listed rows leaves the table as it was. */
  lemma RemoveNoneListed(rs: seq<BorrowRecord>, listed: seq<BorrowRecord>)
    ensures Remove(rs, WithIds(IdsOf(listed[..0]))) == rs
  {
    assert listed[..0] == [];
    IdsOfEmpty();
    CountZeroIff(rs, WithIds({}));
    RemoveNothing(rs, WithIds({}));
  }
}
