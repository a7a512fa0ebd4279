/** Properties of the loan lifecycle that relate operations to each other:
    stock conservation, non-negative stock, referential integrity and the
    finality of RETURNED and REJECTED records, each for one operation and for
    any sequence of them. */
module LendingLaws {
  import opened Entities
  import opened Failures
  import opened RecordQueries
  import opened Lending

  /** A change confined to one row is a sequence update at that row. */
  lemma OnlyRowChangedIsUpdate(before: seq<BorrowRecord>, after: seq<BorrowRecord>, i: nat, x: BorrowRecord)
    requires IdsIncreasing(before) && i < |before|
    requires OnlyRowChanged(before, after, before[i].id, x)
    ensures after == before[i := x]
  {
    forall k | 0 <= k < |before| ensures after[k] == before[i := x][k] {
      if k != i {
        assert k < i || i < k;
      }
    }
  }

  /** A row other than the changed one is still in the table after the change. */
  lemma OtherRowsKept(before: seq<BorrowRecord>, after: seq<BorrowRecord>, id: RecordId, x: BorrowRecord, y: BorrowRecord)
    requires OnlyRowChanged(before, after, id, x)
    requires y in before && y.id != id
    ensures y in after
  {
    var k :| 0 <= k < |before| && before[k] == y;
    assert after[k] == y;
  }

  // ---- stock conservation, one operation at a time ----

  lemma {:induction false} BorrowConserves(s: Store, username: string, bookId: BookId, now: Time, b: BookId)
    requires WellFormed(s)
    ensures Held(Borrow(s, username, bookId, now).store, b) == Held(s, b)
  {
    var o := Borrow(s, username, bookId, now);
    if o.result.Success? {
      CountAppend(s.records, o.result.value, ActiveOf(b));
    }
  }

  lemma {:induction false} ApproveConserves(s: Store, id: RecordId, b: BookId)
    requires WellFormed(s)
    ensures Held(Approve(s, id).store, b) == Held(s, b)
  {
    var o := Approve(s, id);
    if o.result.Success? {
      var i := FindById(s.records, id).value;
      OnlyRowChangedIsUpdate(s.records, o.store.records, i, o.result.value);
      CountUpdate(s.records, i, o.result.value, ActiveOf(b));
    }
  }

  lemma {:induction false} RejectConserves(s: Store, id: RecordId, b: BookId)
    requires WellFormed(s)
    ensures Held(Reject(s, id).store, b) == Held(s, b)
  {
    var o := Reject(s, id);
    if o.result.Success? {
      var i := FindById(s.records, id).value;
      OnlyRowChangedIsUpdate(s.records, o.store.records, i, o.result.value);
      CloseKeepsHeld(s, o.store, i, o.result.value, b);
    }
  }

  /** Closing an active row and giving its book the unit back keeps every
      book's held units: the step reject and both returns share. */
  lemma {:induction false} CloseKeepsHeld(s: Store, t: Store, i: nat, x: BorrowRecord, b: BookId)
    requires i < |s.records| && Active(s.records[i].status) && !Active(x.status)
    requires x.bookId == s.records[i].bookId && x.bookId in s.books
    requires t.records == s.records[i := x]
    requires t.books == s.books[x.bookId := s.books[x.bookId].(stock := s.books[x.bookId].stock + 1)]
    ensures Held(t, b) == Held(s, b)
  {
    CountUpdate(s.records, i, x, ActiveOf(b));
  }

  /** Shared by both returns: a BORROWED row becomes RETURNED and its book gets the unit back. */
  lemma {:induction false} ReturnedEffectConserves(s: Store, id: RecordId, now: Time, o: Outcome<BorrowRecord>, b: BookId)
    requires WellFormed(s) && o.result.Success? && ReturnedEffect(s, id, now, o)
    ensures Held(o.store, b) == Held(s, b)
  {
    var i := FindById(s.records, id).value;
    OnlyRowChangedIsUpdate(s.records, o.store.records, i, o.result.value);
    CloseKeepsHeld(s, o.store, i, o.result.value, b);
  }

  lemma {:induction false} ReturnConserves(s: Store, id: RecordId, username: string, now: Time, b: BookId)
    requires WellFormed(s)
    ensures Held(ReturnBook(s, id, username, now).store, b) == Held(s, b)
  {
    var o := ReturnBook(s, id, username, now);
    if o.result.Success? {
      ReturnedEffectConserves(s, id, now, o, b);
    }
  }

  lemma {:induction false} AdminReturnConserves(s: Store, id: RecordId, now: Time, b: BookId)
    requires WellFormed(s)
    ensures Held(AdminReturnBook(s, id, now).store, b) == Held(s, b)
  {
    var o := AdminReturnBook(s, id, now);
    if o.result.Success? {
      ReturnedEffectConserves(s, id, now, o, b);
    }
  }

  /** Once RETURNED or REJECTED, a record admits no further transition. */
  lemma ClosedRecordIsFinal(s: Store, id: RecordId, username: string, now: Time)
    requires WellFormed(s)
    requires FindById(s.records, id).Some? && !Active(RowOf(s.records, id).status)
    ensures Approve(s, id).result.Failure? && Approve(s, id).store == s
    ensures Reject(s, id).result.Failure? && Reject(s, id).store == s
    ensures ReturnBook(s, id, username, now).result.Failure? && ReturnBook(s, id, username, now).store == s
    ensures AdminReturnBook(s, id, now).result.Failure? && AdminReturnBook(s, id, now).store == s
  {
  }

  // ---- any sequence of lending operations ----

  datatype LendingCall =
    | BorrowCall(username: string, bookId: BookId)
    | ApproveCall(id: RecordId)
    | RejectCall(id: RecordId)
    | ReturnCall(id: RecordId, username: string)
    | AdminReturnCall(id: RecordId)

  function Apply(s: Store, call: LendingCall, now: Time): (o: Outcome<BorrowRecord>)
    requires WellFormed(s)
    ensures WellFormed(o.store)
  {
    match call
    case BorrowCall(username, bookId) => Borrow(s, username, bookId, now)
    case ApproveCall(id) => Approve(s, id)
    case RejectCall(id) => Reject(s, id)
    case ReturnCall(id, username) => ReturnBook(s, id, username, now)
    case AdminReturnCall(id) => AdminReturnBook(s, id, now)
  }

  /** The store after the calls commit one after another, failures included. */
  function Run(s: Store, calls: seq<(LendingCall, Time)>): (t: Store)
    requires WellFormed(s)
    ensures WellFormed(t)
    decreases |calls|
  {
    if calls == [] then s else Run(Apply(s, calls[0].0, calls[0].1).store, calls[1..])
  }

  lemma ApplyConserves(s: Store, call: LendingCall, now: Time, b: BookId)
    requires WellFormed(s)
    ensures Held(Apply(s, call, now).store, b) == Held(s, b)
  {
    match call
    case BorrowCall(username, bookId) => BorrowConserves(s, username, bookId, now, b);
    case ApproveCall(id) => ApproveConserves(s, id, b);
    case RejectCall(id) => RejectConserves(s, id, b);
    case ReturnCall(id, username) => ReturnConserves(s, id, username, now, b);
    case AdminReturnCall(id) => AdminReturnConserves(s, id, now, b);
  }

  /** Conservation: borrow, approve, reject and both returns never change a
      book's stock plus the units its active records hold. */
  lemma {:induction false} RunConserves(s: Store, calls: seq<(LendingCall, Time)>, b: BookId)
    requires WellFormed(s)
    ensures Held(Run(s, calls), b) == Held(s, b)
    decreases |calls|
  {
    if calls != [] {
      var next := Apply(s, calls[0].0, calls[0].1).store;
      ApplyConserves(s, calls[0].0, calls[0].1, b);
      RunConserves(next, calls[1..], b);
    }
  }

  /** One operation keeps stock non-negative and every record's book and user present. */
  lemma ApplyKeepsInvariants(s: Store, call: LendingCall, now: Time)
    requires WellFormed(s) && StockNonNegative(s) && LinksIntact(s)
    ensures StockNonNegative(Apply(s, call, now).store)
    ensures LinksIntact(Apply(s, call, now).store)
  {
    var o := Apply(s, call, now);
    if o.result.Success? && !call.BorrowCall? {
      var i := FindById(s.records, call.id).value;
      OnlyRowChangedIsUpdate(s.records, o.store.records, i, o.result.value);
    }
  }

  lemma {:induction false} RunKeepsInvariants(s: Store, calls: seq<(LendingCall, Time)>)
    requires WellFormed(s) && StockNonNegative(s) && LinksIntact(s)
    ensures StockNonNegative(Run(s, calls)) && LinksIntact(Run(s, calls))
    decreases |calls|
  {
    if calls != [] {
      ApplyKeepsInvariants(s, calls[0].0, calls[0].1);
      RunKeepsInvariants(Apply(s, calls[0].0, calls[0].1).store, calls[1..]);
    }
  }

  /** One operation never alters or drops a RETURNED or REJECTED record. */
  lemma ApplyKeepsClosedRecord(s: Store, call: LendingCall, now: Time, x: BorrowRecord)
    requires WellFormed(s) && x in s.records && !Active(x.status)
    ensures x in Apply(s, call, now).store.records
  {
    var o := Apply(s, call, now);
    if o.result.Success? && !call.BorrowCall? {
      var changed := RowOf(s.records, call.id);
      if x.id == call.id {
        SameIdSameRow(s.records, x, changed);
      }
      OtherRowsKept(s.records, o.store.records, call.id, o.result.value, x);
    }
  }

  lemma {:induction false} RunKeepsClosedRecord(s: Store, calls: seq<(LendingCall, Time)>, x: BorrowRecord)
    requires WellFormed(s) && x in s.records && !Active(x.status)
    ensures x in Run(s, calls).records
    decreases |calls|
  {
    if calls != [] {
      ApplyKeepsClosedRecord(s, calls[0].0, calls[0].1, x);
      RunKeepsClosedRecord(Apply(s, calls[0].0, calls[0].1).store, calls[1..], x);
    }
  }
}
