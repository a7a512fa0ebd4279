# Library lending core, modelled in Dafny

This project models the core of a Spring library application: the lending lifecycle of borrow records, the deletion guards on books and users, and the record repository's queries. It also models the thin web layer on top of them:

- the role dispatch of the borrow endpoints;
- the role check and message rewrite of the user endpoints;
- the role validator;
- the path-exclusion and bearer-token rules of the token filter.

The three tables (books, users, borrow records) are one value, `Entities.Store`. Records refer to their book and user by id. The record table is a sequence in id order, which is what an identity column gives. Counters hand out the next identity value.

Each transactional service operation is a function of the store, in `Lending`, `Catalog` or `Accounts`. The function returns the result, or a typed `Failures.Error`, together with the store it commits. On failure the store is left as it was. The functions' contracts carry the behaviour: the error cases in the order the code checks them, the exact new state, and the conservation law.

The class `Services.Library` holds the tables as fields. Its methods update them in place, one service call each. Each method is proved to commit exactly what the corresponding function describes, so every property proved about the function holds of the running services.

Repository queries are WHERE clauses, given as the `RecordQueries.Criteria` datatype. `Select`, `Count` and `Remove` are the SELECT, COUNT and DELETE over the table.

The conservation law is stated through `Lending.Held(s, b)`: book `b`'s stock plus the number of its PENDING or BORROWED records. Borrow, approve, reject and both returns keep it, per call and over any sequence of calls (`LendingLaws.RunConserves`). Adding a book and setting a stock are the only operations that move it; deleting a book or a user moves no other book's units.

Behaviour followed as the code has it:

- `borrowBook` never looks at the user's status, so a disabled account can borrow.
- A registration without a role gets "USER".
- The account `deleteUser` refuses is the one whose username is "admin" ignoring case (Java's `equalsIgnoreCase`, which also accepts the dotless and dotted capital I). The role is not consulted.
- `returnBook` checks the status before the ownership, and has no administrator bypass. The controller sends administrators to `adminReturnBook` instead.
- `getBorrows` lets a user whose stored role is "ADMIN" see every record. This applies even when that user's token does not carry the administrator authority.
- An empty status filter means "no filter" in `getAllBorrows`. In `getBorrows` it means "status equals the empty string", so nothing matches (`BorrowEndpoints.EmptyStatusParameter`).
- `addBook` and `updateBook` store whatever stock they are given, negative included.
- A record whose book or user row is missing makes the source fail with a null dereference. Here this is the error `DanglingReference` (or `RecordBookMissing` in the delete path), and the store is left unchanged. `LinksIntact` is proved to be preserved by every operation that changes the store, so with intact links it cannot happen. The lemmas are `LendingLaws.ApplyKeepsInvariants` for the five lending calls, `Catalog.AddBookKeepsLinks`, `Catalog.UpdateBookKeepsLinks`, `Catalog.DeleteBookKeepsLinks`, `Accounts.RegisterKeepsLinks`, `Accounts.UpdateUserKeepsLinks`, `Accounts.UpdateLastLoginKeepsLinks`, `Accounts.UpdatePasswordKeepsLinks` and `Accounts.DeleteUserKeepsLinks`.
- Column constraints of the books table (NOT NULL title, author, isbn, publisher, publish date, category and stock; UNIQUE isbn) are the error `ConstraintViolation`.
- The password encoder is the no-op encoder, so "matches" is string equality.
- A user is an administrator when the token's authorities contain "ROLE_ADMIN". The user details service grants "ROLE_" + role (`Http.AdminIffAdminRole`).

## Model

| member | source | states |
|---|---|---|
| Entities.StatusNameInjective | src/main/java/com/example/cursorlibrary/entity/BorrowRecord.java:15-32 | the four stored status strings are distinct, so a status filter selects exactly one state |
| RecordQueries.ActiveOf | src/main/java/com/example/cursorlibrary/service/impl/BookServiceImpl.java:104-115 | a record counts against a book exactly when it belongs to the book and is PENDING or BORROWED |
| RecordQueries.Select | src/main/java/com/example/cursorlibrary/repository/BorrowRecordRepository.java:16-18 | a query returns exactly the table rows matching its WHERE clause, never more rows than the table |
| RecordQueries.Remove | src/main/java/com/example/cursorlibrary/repository/BorrowRecordRepository.java:41-44 | after a DELETE exactly the rows not matching the clause remain |
| RecordQueries.Count | src/main/java/com/example/cursorlibrary/repository/BorrowRecordRepository.java:21-22 | COUNT equals the number of selected rows, and counted plus remaining rows is the table size |
| RecordQueries.FindById | src/main/java/com/example/cursorlibrary/service/impl/BorrowServiceImpl.java:73-74 | finds the row with the requested id, or reports that no row has it |
| RecordQueries.FindByUser | src/main/java/com/example/cursorlibrary/repository/BorrowRecordRepository.java:16 | exactly the records of the user |
| RecordQueries.FindByUserAndStatus | src/main/java/com/example/cursorlibrary/repository/BorrowRecordRepository.java:17 | exactly the part of findByUser whose status equals the argument |
| RecordQueries.FindByStatus | src/main/java/com/example/cursorlibrary/repository/BorrowRecordRepository.java:18 | exactly the records with that status |
| RecordQueries.FindByBookId | src/main/java/com/example/cursorlibrary/repository/BorrowRecordRepository.java:25-26 | exactly the records whose book id equals the argument |
| RecordQueries.CountByStatus | src/main/java/com/example/cursorlibrary/repository/BorrowRecordRepository.java:21-22 | equals the size of findByStatus |
| RecordQueries.DirectCountByStatus | src/main/java/com/example/cursorlibrary/repository/BorrowRecordRepository.java:47-48 | always equals countByStatus |
| RecordQueries.CountByBookId | src/main/java/com/example/cursorlibrary/repository/BorrowRecordRepository.java:29-30 | equals the size of findByBookId |
| RecordQueries.CountByUserId | src/main/java/com/example/cursorlibrary/repository/BorrowRecordRepository.java:33-34 | equals the size of findByUser |
| RecordQueries.CountByUserIdAndStatusIn | src/main/java/com/example/cursorlibrary/repository/BorrowRecordRepository.java:37-38 | counts the user's records whose status is in the list, never more than countByUserId |
| RecordQueries.CountByBookIdAndStatusIn | src/main/java/com/example/cursorlibrary/repository/BorrowRecordRepository.java:51-52 | counts the book's records whose status is in the list, never more than countByBookId |
| RecordQueries.SelectTwice | src/main/java/com/example/cursorlibrary/repository/BorrowRecordRepository.java:16-17 | filtering by user and then by status is the single combined query |
| RecordQueries.SelectAppend | src/main/java/com/example/cursorlibrary/repository/BorrowRecordRepository.java:16-18 | a query over a table split in two is the concatenation of the two queries |
| RecordQueries.CountMonotone | src/main/java/com/example/cursorlibrary/repository/BorrowRecordRepository.java:37-38 | a narrower clause never counts more rows |
| RecordQueries.CountCongruent | src/main/java/com/example/cursorlibrary/repository/BorrowRecordRepository.java:37-38 | clauses that agree on every row count and delete the same rows |
| RecordQueries.CountAppend | src/main/java/com/example/cursorlibrary/service/impl/BorrowServiceImpl.java:51 | saving a new record raises each count by one exactly when it matches |
| RecordQueries.CountUpdate | src/main/java/com/example/cursorlibrary/service/impl/BorrowServiceImpl.java:80 | saving a changed row moves each count by the change in whether that row matches |
| RecordQueries.RemoveIdsTwice | src/main/java/com/example/cursorlibrary/service/impl/BookServiceImpl.java:123-126 | deleting two id sets one after the other deletes their union |
| RecordQueries.RemoveAppend | src/main/java/com/example/cursorlibrary/repository/BorrowRecordRepository.java:41-44 | a DELETE over a table split in two is the concatenation of the two DELETEs |
| RecordQueries.RemoveNothing | src/main/java/com/example/cursorlibrary/repository/BorrowRecordRepository.java:55-58 | a DELETE matching no row leaves the table as it was |
| RecordQueries.RemoveKeepsOrder | src/main/java/com/example/cursorlibrary/repository/BorrowRecordRepository.java:55-58 | deleting rows keeps the remaining ids in increasing order |
| RecordQueries.SameIdSameRow | src/main/java/com/example/cursorlibrary/repository/BorrowRecordRepository.java:25-26 | in an id-ordered table a row is determined by its id |
| RecordQueries.RemoveListedRows | src/main/java/com/example/cursorlibrary/service/impl/BookServiceImpl.java:119-126 | deleting each row findByBookId listed is deleting every row of the book |
| RecordQueries.RemoveKeepsCount | src/main/java/com/example/cursorlibrary/repository/BorrowRecordRepository.java:55-58 | a DELETE that touches none of the rows a clause matches leaves that clause's count unchanged |
| RecordQueries.CountZeroIff | src/main/java/com/example/cursorlibrary/repository/BorrowRecordRepository.java:37-38 | a count is zero exactly when no row matches |
| RecordQueries.RemoveKeepsWellFormed | src/main/java/com/example/cursorlibrary/repository/BorrowRecordRepository.java:41-44 | a DELETE keeps the table id-ordered, unique usernames and the counters ahead of every id |
| RecordQueries.IdsOfSnoc | src/main/java/com/example/cursorlibrary/service/impl/BookServiceImpl.java:123-126 | one more listed row adds exactly its id to the ids deleted |
| RecordQueries.RemoveOneMore | src/main/java/com/example/cursorlibrary/service/impl/BookServiceImpl.java:123-126 | deleting the next listed row extends the deletion done so far by that row |
| RecordQueries.RemoveNoneListed | src/main/java/com/example/cursorlibrary/service/impl/BookServiceImpl.java:123 | before the loop's first step no row has been deleted |
| Lending.UpdateRowKeepsOrder | src/main/java/com/example/cursorlibrary/service/impl/BorrowServiceImpl.java:80 | saving a row under its own id keeps the table ordered and changes only that row |
| Lending.Borrow | src/main/java/com/example/cursorlibrary/service/impl/BorrowServiceImpl.java:26-52 | user missing, else book missing, else stock not positive, each a failure with the store unchanged; on success the stock drops by exactly 1, one new PENDING record for that user and book is appended with a fresh id, due 14 days after borrowing and with no return date; the user's status is not consulted |
| Lending.Approve | src/main/java/com/example/cursorlibrary/service/impl/BorrowServiceImpl.java:70-82 | fails unless the record exists and is PENDING; on success only that row changes, to BORROWED, and books and users are unchanged |
| Lending.Reject | src/main/java/com/example/cursorlibrary/service/impl/BorrowServiceImpl.java:84-100 | fails unless the record exists and is PENDING (and its book exists); on success only that row changes, to REJECTED, and its book's stock rises by exactly 1 |
| Lending.CloseLoan | src/main/java/com/example/cursorlibrary/service/impl/BorrowServiceImpl.java:134-138 | row i becomes RETURNED with return date now and is the result, every other row is kept, its book gets one unit back, users are untouched and the store stays well formed |
| Lending.ReturnBook | src/main/java/com/example/cursorlibrary/service/impl/BorrowServiceImpl.java:102-143 | record missing, then a dangling user, then status not BORROWED, then a different owner, then a missing book (`RecordBookMissing`), each a failure with the store unchanged, in that order; success exactly when the record is BORROWED, owned by the caller and its book exists; then only that row changes, to RETURNED with return date now, and the book's stock rises by 1 |
| Lending.AdminReturnBook | src/main/java/com/example/cursorlibrary/service/impl/BorrowServiceImpl.java:161-195 | the same failures and effect as returnBook except that ownership is never checked |
| Lending.GetBorrows | src/main/java/com/example/cursorlibrary/service/impl/BorrowServiceImpl.java:54-68 | fails exactly when the user is missing; otherwise returns exactly the records of the table that belong to the user, or all records when the stored role is ADMIN, filtered by status only when a status is given |
| Lending.GetAllBorrows | src/main/java/com/example/cursorlibrary/service/impl/BorrowServiceImpl.java:153-159 | an absent or empty status returns every record; any other status exactly the records with it |
| Lending.GetUserBorrowRecords | src/main/java/com/example/cursorlibrary/service/impl/BorrowServiceImpl.java:145-151 | fails exactly when the user is missing; otherwise exactly the user's records |
| LendingLaws.OnlyRowChangedIsUpdate | src/main/java/com/example/cursorlibrary/service/impl/BorrowServiceImpl.java:80 | a change confined to one row is the sequence update of that row |
| LendingLaws.OtherRowsKept | src/main/java/com/example/cursorlibrary/service/impl/BorrowServiceImpl.java:80 | every other record survives a one-row change unchanged |
| LendingLaws.BorrowConserves | src/main/java/com/example/cursorlibrary/service/impl/BorrowServiceImpl.java:48-51 | a borrow keeps stock plus active records of every book |
| LendingLaws.ApproveConserves | src/main/java/com/example/cursorlibrary/service/impl/BorrowServiceImpl.java:80 | an approval keeps stock plus active records of every book |
| LendingLaws.RejectConserves | src/main/java/com/example/cursorlibrary/service/impl/BorrowServiceImpl.java:94-98 | a rejection keeps stock plus active records of every book |
| LendingLaws.CloseKeepsHeld | src/main/java/com/example/cursorlibrary/service/impl/BorrowServiceImpl.java:134-138 | closing an active record while putting one copy back on its book keeps stock plus active records of every book |
| LendingLaws.ReturnedEffectConserves | src/main/java/com/example/cursorlibrary/service/impl/BorrowServiceImpl.java:134-138 | the effect of a return keeps stock plus active records of every book |
| LendingLaws.ReturnConserves | src/main/java/com/example/cursorlibrary/service/impl/BorrowServiceImpl.java:134-138 | returnBook keeps stock plus active records of every book |
| LendingLaws.AdminReturnConserves | src/main/java/com/example/cursorlibrary/service/impl/BorrowServiceImpl.java:186-190 | adminReturnBook keeps stock plus active records of every book |
| LendingLaws.ClosedRecordIsFinal | src/main/java/com/example/cursorlibrary/service/impl/BorrowServiceImpl.java:76 | a RETURNED or REJECTED record is refused by approve, reject and both returns, with no change |
| LendingLaws.Apply | src/main/java/com/example/cursorlibrary/service/impl/BorrowServiceImpl.java:26-195 | any one lending operation keeps the store well formed |
| LendingLaws.Run | src/main/java/com/example/cursorlibrary/service/impl/BorrowServiceImpl.java:26-195 | any sequence of lending operations keeps the store well formed |
| LendingLaws.ApplyConserves | src/main/java/com/example/cursorlibrary/service/impl/BorrowServiceImpl.java:48-190 | any one lending operation keeps stock plus active records of every book |
| LendingLaws.RunConserves | src/main/java/com/example/cursorlibrary/service/impl/BorrowServiceImpl.java:48-190 | any sequence of lending operations, failed ones included, keeps stock plus active records of every book |
| LendingLaws.ApplyKeepsInvariants | src/main/java/com/example/cursorlibrary/service/impl/BorrowServiceImpl.java:35-37 | one lending operation keeps every stock non-negative and every record's book and user present |
| LendingLaws.RunKeepsInvariants | src/main/java/com/example/cursorlibrary/service/impl/BorrowServiceImpl.java:35-37 | any sequence of lending operations keeps every stock non-negative and every link intact |
| LendingLaws.ApplyKeepsClosedRecord | src/main/java/com/example/cursorlibrary/service/impl/BorrowServiceImpl.java:76 | one lending operation never alters or drops a RETURNED or REJECTED record |
| LendingLaws.RunKeepsClosedRecord | src/main/java/com/example/cursorlibrary/service/impl/BorrowServiceImpl.java:76 | a RETURNED or REJECTED record is still there, unchanged, after any sequence of lending operations |
| Catalog.FindBooks | src/main/java/com/example/cursorlibrary/service/impl/BookServiceImpl.java:27-34 | with a non-empty keyword exactly the books whose title or author contains it, otherwise every book, each with its stored value |
| Catalog.AddBook | src/main/java/com/example/cursorlibrary/service/impl/BookServiceImpl.java:36-52 | fails exactly when a required column is missing or the isbn is taken, changing nothing; otherwise a book with a fresh id, the given fields, status AVAILABLE, both timestamps now and the stock as given |
| Catalog.UpdateBook | src/main/java/com/example/cursorlibrary/service/impl/BookServiceImpl.java:60-92 | fails for a missing id or an isbn held by another book; otherwise each field given overwrites the stored one, the others are kept, and the update time becomes now |
| Catalog.UnfinishedOf | src/main/java/com/example/cursorlibrary/service/impl/BookServiceImpl.java:104-115 | exactly the book's PENDING and BORROWED records, as many as countByBookIdAndStatusIn reports |
| Catalog.DeleteBook | src/main/java/com/example/cursorlibrary/service/impl/BookServiceImpl.java:94-154 | fails for a missing id, then refuses with the count while any record of the book is PENDING or BORROWED, changing nothing; otherwise the book and every one of its records are gone and every other book, user and record is kept |
| Catalog.WithoutBook | src/main/java/com/example/cursorlibrary/service/impl/BookServiceImpl.java:119-147 | the store after the cascade stays well formed, loses the book and exactly its records, and keeps every other book, user and record |
| Catalog.CascadeSteps | src/main/java/com/example/cursorlibrary/service/impl/BookServiceImpl.java:119-137 | the row-by-row delete followed by the status-list delete removes exactly the book's records |
| Catalog.DeleteBookKeepsLinks | src/main/java/com/example/cursorlibrary/service/impl/BookServiceImpl.java:94-154 | a book delete leaves every remaining record's book and user present |
| Catalog.AddBookKeepsLinks | src/main/java/com/example/cursorlibrary/service/impl/BookServiceImpl.java:36-52 | adding a book leaves every record's book and user present |
| Catalog.UpdateBookKeepsLinks | src/main/java/com/example/cursorlibrary/service/impl/BookServiceImpl.java:60-92 | updating a book leaves every record's book and user present |
| Catalog.DeleteBookKeepsOtherHeld | src/main/java/com/example/cursorlibrary/service/impl/BookServiceImpl.java:94-154 | a book delete keeps stock plus active records of every other book |
| Catalog.UpdateBookShiftsHeld | src/main/java/com/example/cursorlibrary/service/impl/BookServiceImpl.java:86-88 | an update that sets the stock moves that book's stock plus active records by the difference, and no other book's |
| Catalog.AddBookHeld | src/main/java/com/example/cursorlibrary/service/impl/BookServiceImpl.java:47 | a new book's stock plus active records is the stock given, negative or not; other books are unchanged |
| Accounts.Encode | src/main/java/com/example/cursorlibrary/config/SecurityConfig.java:84 | an encoded password matches its raw form |
| Accounts.ProtectedNames | src/main/java/com/example/cursorlibrary/service/impl/UserServiceImpl.java:94-97 | examples: "admin", "ADMIN", "Admin" and the spellings with the dotless and the dotted I are protected; "admin2", "adm" and "root" are not |
| Accounts.ProtectedNameIff | src/main/java/com/example/cursorlibrary/service/impl/UserServiceImpl.java:94-97 | a name is protected exactly when it has five characters spelling a, d, m, i, n each in either case, the fourth also allowed to be the dotless or the dotted capital I |
| Accounts.Register | src/main/java/com/example/cursorlibrary/service/impl/UserServiceImpl.java:28-50 | username taken, else email taken, each a failure that creates nothing; otherwise a new user with a fresh id, the given fields, role as given or "USER", status "ACTIVE" and no last login |
| Accounts.RegisteredUserIsFound | src/main/java/com/example/cursorlibrary/service/impl/UserServiceImpl.java:52-56 | after registering, findByUsername returns the new user |
| Accounts.UpdateUser | src/main/java/com/example/cursorlibrary/service/impl/UserServiceImpl.java:66-86 | fails for a missing id; otherwise each non-null field among email, password (encoded), role and status overwrites the stored one and every other field is kept |
| Accounts.UpdateLastLogin | src/main/java/com/example/cursorlibrary/service/impl/UserServiceImpl.java:138-144 | fails for an unknown username; otherwise only that user's last login becomes now |
| Accounts.UpdatePassword | src/main/java/com/example/cursorlibrary/service/impl/UserServiceImpl.java:152-166 | unknown user, then a current password that does not match, each a failure with nothing changed; otherwise the password becomes the encoded new one and the update time now |
| Accounts.FindUsers | src/main/java/com/example/cursorlibrary/service/impl/UserServiceImpl.java:58-64 | with a non-empty keyword exactly the users whose username or email contains it, otherwise every user |
| Accounts.AllStatusesMeansAllRecords | src/main/java/com/example/cursorlibrary/service/impl/UserServiceImpl.java:117 | the delete with all four statuses matches every record of the user |
| Accounts.UnfinishedCountZeroIff | src/main/java/com/example/cursorlibrary/service/impl/UserServiceImpl.java:102-111 | the guard's count is zero exactly when the user has no PENDING or BORROWED record |
| Accounts.DeleteUser | src/main/java/com/example/cursorlibrary/service/impl/UserServiceImpl.java:88-136 | fails for a missing id, then refuses the "admin" account before any record is looked at, then refuses with the count while the user has PENDING or BORROWED records, each changing nothing; otherwise the user and all its records are gone and every other user, book and record is kept |
| Accounts.Purge | src/main/java/com/example/cursorlibrary/service/impl/UserServiceImpl.java:117-129 | the store after the cascade stays well formed, loses the user and exactly its records, and keeps every book |
| Accounts.Drop | src/main/java/com/example/cursorlibrary/service/impl/UserServiceImpl.java:125-129 | a user without records is removed alone and the store stays well formed |
| Accounts.DeleteUserKeepsLinks | src/main/java/com/example/cursorlibrary/service/impl/UserServiceImpl.java:88-136 | a user delete leaves every remaining record's book and user present |
| Accounts.RegisterKeepsLinks | src/main/java/com/example/cursorlibrary/service/impl/UserServiceImpl.java:28-50 | a registration leaves every record's book and user present |
| Accounts.UpdateUserKeepsLinks | src/main/java/com/example/cursorlibrary/service/impl/UserServiceImpl.java:66-86 | a user update leaves every record's book and user present |
| Accounts.UpdateLastLoginKeepsLinks | src/main/java/com/example/cursorlibrary/service/impl/UserServiceImpl.java:138-144 | a last-login update leaves every record's book and user present |
| Accounts.UpdatePasswordKeepsLinks | src/main/java/com/example/cursorlibrary/service/impl/UserServiceImpl.java:152-166 | a password change leaves every record's book and user present |
| Accounts.DeleteUserConserves | src/main/java/com/example/cursorlibrary/service/impl/UserServiceImpl.java:117-129 | a user delete keeps stock plus active records of every book |
| Services.KeepUnmatched | src/main/java/com/example/cursorlibrary/repository/BorrowRecordRepository.java:41-44 | the table scan of a DELETE keeps exactly the rows not matching, in order |
| Services.Library.constructor | src/main/java/com/example/cursorlibrary/entity/Book.java:21-46 | empty tables with identity counters at 1 |
| Services.Library.DeleteRecord | src/main/java/com/example/cursorlibrary/service/impl/BookServiceImpl.java:125 | deletes the row with the entity's id and nothing else |
| Services.Library.DeleteWhere | src/main/java/com/example/cursorlibrary/repository/BorrowRecordRepository.java:41-44 | deletes exactly the matching rows and returns how many |
| Services.Library.DeleteByUserIdAndStatusIn | src/main/java/com/example/cursorlibrary/repository/BorrowRecordRepository.java:41-44 | deletes exactly the user's records with a listed status and returns their number |
| Services.Library.DeleteByBookIdAndStatusIn | src/main/java/com/example/cursorlibrary/repository/BorrowRecordRepository.java:55-58 | deletes exactly the book's records with a listed status and returns their number |
| Services.Library.BorrowBook | src/main/java/com/example/cursorlibrary/service/impl/BorrowServiceImpl.java:26-52 | commits exactly Lending.Borrow |
| Services.Library.ApproveBorrow | src/main/java/com/example/cursorlibrary/service/impl/BorrowServiceImpl.java:70-82 | commits exactly Lending.Approve |
| Services.Library.RejectBorrow | src/main/java/com/example/cursorlibrary/service/impl/BorrowServiceImpl.java:84-100 | commits exactly Lending.Reject |
| Services.Library.ReturnBook | src/main/java/com/example/cursorlibrary/service/impl/BorrowServiceImpl.java:102-143 | commits exactly Lending.ReturnBook |
| Services.Library.AdminReturnBook | src/main/java/com/example/cursorlibrary/service/impl/BorrowServiceImpl.java:161-195 | commits exactly Lending.AdminReturnBook |
| Services.Library.AddBook | src/main/java/com/example/cursorlibrary/service/impl/BookServiceImpl.java:36-52 | commits exactly Catalog.AddBook |
| Services.Library.UpdateBook | src/main/java/com/example/cursorlibrary/service/impl/BookServiceImpl.java:60-92 | commits exactly Catalog.UpdateBook: the stored book becomes the patched one and nothing else changes |
| Services.Library.DeleteListed | src/main/java/com/example/cursorlibrary/service/impl/BookServiceImpl.java:123-126 | the loop deleting each listed record removes exactly the listed rows |
| Services.Library.DeleteBook | src/main/java/com/example/cursorlibrary/service/impl/BookServiceImpl.java:94-154 | commits exactly Catalog.DeleteBook through the loop, the batch delete and the book delete |
| Services.Library.PurgeBookRecords | src/main/java/com/example/cursorlibrary/service/impl/BookServiceImpl.java:119-137 | the per-record deletes followed by the batch delete remove exactly the book's records and keep the store valid |
| Services.Library.Register | src/main/java/com/example/cursorlibrary/service/impl/UserServiceImpl.java:28-50 | commits exactly Accounts.Register |
| Services.Library.UpdateUser | src/main/java/com/example/cursorlibrary/service/impl/UserServiceImpl.java:66-86 | commits exactly Accounts.UpdateUser |
| Services.Library.UpdateLastLogin | src/main/java/com/example/cursorlibrary/service/impl/UserServiceImpl.java:138-144 | commits exactly Accounts.UpdateLastLogin |
| Services.Library.UpdatePassword | src/main/java/com/example/cursorlibrary/service/impl/UserServiceImpl.java:152-166 | commits exactly Accounts.UpdatePassword |
| Services.Library.DeleteUser | src/main/java/com/example/cursorlibrary/service/impl/UserServiceImpl.java:88-136 | commits exactly Accounts.DeleteUser |
| Http.AdminIffAdminRole | src/main/java/com/example/cursorlibrary/config/UserDetailsServiceImpl.java:30 | a stored user's token carries the administrator authority exactly when its role is ADMIN |
| BorrowEndpoints.BorrowBook | src/main/java/com/example/cursorlibrary/controller/BorrowController.java:25-28 | borrows under the authenticated name whatever the body says: Ok with exactly the service's record, owned by the caller, when the borrow succeeds, otherwise a 400 with the service's message; the store is the service's |
| BorrowEndpoints.AdminBorrowBook | src/main/java/com/example/cursorlibrary/controller/BorrowController.java:30-34 | non-administrators get a 403 with no change; for administrators, borrows for the name in the body: Ok with exactly the service's record when the borrow succeeds, otherwise a 400 with the service's message, and the store is the service's |
| BorrowEndpoints.GetBorrows | src/main/java/com/example/cursorlibrary/controller/BorrowController.java:36-85 | an administrator gets getAllBorrows(status); anyone else gets exactly getBorrows(name, status) when their name is known, whose rows are table rows and their own unless their stored role is ADMIN, and otherwise a 500 with the service's message |
| BorrowEndpoints.ApproveBorrow | src/main/java/com/example/cursorlibrary/controller/BorrowController.java:87-91 | non-administrators get a 403 with no change; for administrators, Ok with exactly the approved record when the approval succeeds (status BORROWED), otherwise a 400 with the service's message, and the store is the service's |
| BorrowEndpoints.RejectBorrow | src/main/java/com/example/cursorlibrary/controller/BorrowController.java:93-97 | non-administrators get a 403 with no change; for administrators, Ok with exactly the rejected record when the rejection succeeds (status REJECTED), otherwise a 400 with the service's message, and the store is the service's |
| BorrowEndpoints.ReturnBook | src/main/java/com/example/cursorlibrary/controller/BorrowController.java:99-129 | an administrator reaches adminReturnBook, anyone else returnBook under their own name; Ok with exactly the service's record when that return succeeds, otherwise a 400 with the service's message and no change; a non-administrator's success is on their own record |
| BorrowEndpoints.AdminReturnBook | src/main/java/com/example/cursorlibrary/controller/BorrowController.java:131-146 | non-administrators get a 403 with no change; administrators get exactly the administrator's branch of the return: Ok with the service's record when adminReturnBook succeeds, otherwise a 400 with its message |
| BorrowEndpoints.AdminReturnsAnyLoan | src/main/java/com/example/cursorlibrary/controller/BorrowController.java:110-111 | an administrator returns any BORROWED loan with intact links, whoever borrowed it |
| BorrowEndpoints.UserCannotReturnOthersLoan | src/main/java/com/example/cursorlibrary/controller/BorrowController.java:114-120 | anyone else gets the ownership refusal for another user's BORROWED loan, with nothing changed |
| BorrowEndpoints.EmptyStatusParameter | src/main/java/com/example/cursorlibrary/controller/BorrowController.java:53-66 | an empty status gives an administrator every record and anyone else none |
| BorrowEndpoints.UnknownStatusIsNotRefused | src/main/java/com/example/cursorlibrary/controller/BorrowController.java:44-48 | a status outside the four known ones is not refused; it yields an empty list |
| Roles.ValidRoleFacts | src/main/java/com/example/cursorlibrary/validator/RoleValidator.java:7-11 | null is valid; a given role is valid exactly when it is "USER" or "ADMIN", compared case-sensitively |
| UserEndpoints.FromUser | src/main/java/com/example/cursorlibrary/dto/UserDTO.java:27-39 | the view copies every field but the password and has borrow count 0 |
| UserEndpoints.AddUser | src/main/java/com/example/cursorlibrary/controller/UserController.java:68-77 | an invalid role is a 400 "无效的角色" before anything is registered; otherwise the store is register's, the response is Ok with fromUser of the new account exactly when registration succeeds and a 400 with the service's message otherwise, and a created account has a valid role |
| UserEndpoints.UpdateUser | src/main/java/com/example/cursorlibrary/controller/UserController.java:79-88 | an invalid role is a 400 before anything changes; otherwise the store is updateUser's, the response is Ok with fromUser of the updated account exactly when the update succeeds and a 400 with the service's message otherwise, and a role given is valid |
| UserEndpoints.AddedRolesAreValid | src/main/java/com/example/cursorlibrary/controller/UserController.java:71-75 | every stored account created through the endpoint has a valid role |
| UserEndpoints.FriendlyMessage | src/main/java/com/example/cursorlibrary/controller/UserController.java:103-106 | a message containing "foreign key constraint fails" becomes the fixed message; any other passes through |
| UserEndpoints.FriendlyMessageIdempotent | src/main/java/com/example/cursorlibrary/controller/UserController.java:103-106 | rewriting twice is rewriting once |
| UserEndpoints.DeleteUser | src/main/java/com/example/cursorlibrary/controller/UserController.java:90-112 | success with "用户删除成功" exactly when the service deletes; otherwise a 400 with the rewritten service message |
| UserEndpoints.DeletingAdminIsRefused | src/main/java/com/example/cursorlibrary/controller/UserController.java:108-110 | deleting the "admin" account is a 400 with the service's own message and no change |
| UserEndpoints.CountedViews | src/main/java/com/example/cursorlibrary/controller/UserController.java:43-57 | one view per user given, each exactly once, each the user's fields with borrow count countByUserId |
| UserEndpoints.GetUsers | src/main/java/com/example/cursorlibrary/controller/UserController.java:32-66 | one view per user found, each exactly once, with its fields and borrow count countByUserId; the total is the number found |
| JwtFilter.AnyPrefix | src/main/java/com/example/cursorlibrary/config/JwtRequestFilter.java:49-50 | true exactly when the path starts with one of the prefixes |
| JwtFilter.ShouldNotFilter | src/main/java/com/example/cursorlibrary/config/JwtRequestFilter.java:37-64 | OPTIONS requests always skip; any other request skips exactly when its path starts with an excluded prefix |
| JwtFilter.DiffersAt | src/main/java/com/example/cursorlibrary/config/JwtRequestFilter.java:50 | a path that differs from a prefix at some position does not start with it |
| JwtFilter.SkippedRequests | src/main/java/com/example/cursorlibrary/config/JwtRequestFilter.java:28-35 | the maintenance test path, any path below "/api/public" and every OPTIONS request skip the filter |
| JwtFilter.MaintenanceNeedsToken | src/main/java/com/example/cursorlibrary/config/JwtRequestFilter.java:34 | "/api/admin/maintenance/fix-constraints" is filtered |
| JwtFilter.BearerToken | src/main/java/com/example/cursorlibrary/config/JwtRequestFilter.java:75-76 | a token exists exactly when the header starts with "Bearer ", and the header is that prefix followed by the token |
| JwtFilter.BearerRoundTrip | src/main/java/com/example/cursorlibrary/config/JwtRequestFilter.java:75-76 | the token of "Bearer " + t is t |
| JwtFilter.Authenticated | src/main/java/com/example/cursorlibrary/config/JwtRequestFilter.java:86-101 | the authentication changes exactly when none was present, a token and a username were extracted, the user loaded and the token validated, and it then becomes that user's name and authorities; an existing authentication is kept |
| JwtFilter.SecurityContext.constructor | src/main/java/com/example/cursorlibrary/config/JwtRequestFilter.java:86 | a context starts unauthenticated |
| JwtFilter.DoFilterInternal | src/main/java/com/example/cursorlibrary/config/JwtRequestFilter.java:66-104 | leaves exactly that authentication in the context and always continues the chain |

## Left out

- Pagination and ordering: queries return the whole filtered table in id order. The page size, the page number and any sort order are not modelled. `UserEndpoints.GetUsers` returns one page holding every user found.
- Concurrency and transaction isolation: every transactional method is one atomic step. Races on stock are not modelled.
- The clock: `LocalDateTime.now()` is a `now` parameter, and "+14 days" is integer addition.
- Logging: all console output is omitted.
- Exceptions: the exception types are not modelled. A service exception is a `Failures.Error` carrying the source's message. The null dereferences on dangling links are the errors `DanglingReference` and `RecordBookMissing`, with a fixed message standing in for the JVM's text.
- Stock width: stock is an unbounded integer. The 32-bit wrap-around of `Integer` stock under repeated decrements is not modelled.
- Search matching: keyword search uses exact character containment over Unicode scalar values (Java compares UTF-16 code units, which differs only for characters outside the Basic Multilingual Plane). The database's LIKE collation (case and accent folding) is not modelled.
- Null values: null usernames and emails in the users table are not modelled.
- UserEndpoints.GetUsers: the fallback of the borrow count to 0 when the count query throws is not modelled, because the count is a total function here.
- Services.Library.UpdateBook: the eight conditional setter calls are one record update computed by `Catalog.Patched`, so the intermediate half-patched entity is not modelled.
- Database failures: the catch-and-rethrow paths of `deleteBook` and `deleteUser` around database failures are not modelled.
- `User` entity lifecycle callbacks: the user entity file is not part of this model. `updateUser` leaves `updatedAt` as it was. No UNIQUE constraint on email is assumed beyond the check `register` makes.
- `Book.status`: it is set to "AVAILABLE" on creation and never changed by lending, as in the source.
- Other parts of the application: the maintenance controller, the statistics endpoints, token issuance and signing, the framework configuration and the web front end are not part of this model.
- Token handling: token parsing, signature validation and the user-details lookup are function parameters of `JwtFilter.DoFilterInternal`. An exception in extraction or lookup is a `None` result.
- Errors escaping the user endpoints: `UserAlreadyExistsException` reaches the client as the 400 of the generic runtime-exception handler.
