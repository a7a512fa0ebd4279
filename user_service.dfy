/** The user service: registration, partial update, password change, last
    login, keyword search, and the guarded, cascading delete. Passwords go
    through the configured no-op encoder, so they are stored as given. */
module Accounts {
  import opened Entities
  import opened Failures
  import opened RecordQueries
  import opened Lending

  /** The role `register` stores when the request names none. */
  const DefaultRole: string := "USER"
  /** The status every new account gets. */
  const ActiveAccount: string := "ACTIVE"

  datatype RegisterRequest = RegisterRequest(username: string, password: string, email: string, role: Option<string>)

  /** The fields of an update request; an absent field is a JSON null. */
  datatype UserFields = UserFields(email: Option<string>, password: Option<string>, role: Option<string>, status: Option<string>)

  /** `NoOpPasswordEncoder.encode`. */
  function Encode(raw: string): (r: string)
    ensures PasswordMatches(raw, r)
  {
    raw
  }

  /** `NoOpPasswordEncoder.matches`: plain string equality. */
  predicate PasswordMatches(raw: string, encoded: string) {
    raw == encoded
  }

  lemma EncodingIsInjective(a: string, b: string)
    ensures Encode(a) == Encode(b) ==> a == b
    ensures PasswordMatches(a, Encode(b)) <==> a == b
  {
  }

  /** `Character`-wise case-insensitive equality of `c` with the lower-case
      ASCII letter `t`: equal, equal after upper-casing, or equal after
      upper- then lower-casing. Besides `t` and its capital, only the dotless
      i (U+0131, upper-cases to 'I') and the dotted capital I (U+0130,
      lower-cases to 'i') match a letter, and only 'i'. */
  predicate SameLetterIgnoringCase(c: char, t: char)
    requires 'a' <= t <= 'z'
  {
    c == t || c as int == t as int - 32 || (t == 'i' && (c == '\U{0131}' || c == '\U{0130}'))
  }

  /** The account `deleteUser` refuses: username equal to "admin" ignoring case. */
  predicate IsProtectedName(name: string) {
    |name| == 5 && forall i :: 0 <= i < 5 ==> SameLetterIgnoringCase(name[i], "admin"[i])
  }

  /** The protected names, all of them: five characters spelling "admin"
      letter by letter in either case, where the fourth may also be the
      dotless or the dotted capital I. */
  lemma ProtectedNameIff(name: string)
    ensures IsProtectedName(name) <==>
              && |name| == 5
              && name[0] in "aA" && name[1] in "dD" && name[2] in "mM"
              && name[3] in "iI\U{0131}\U{0130}" && name[4] in "nN"
  {
    if |name| == 5 {
      assert "admin"[0] == 'a' && "admin"[1] == 'd' && "admin"[2] == 'm' && "admin"[3] == 'i' && "admin"[4] == 'n';
    }
  }

  lemma ProtectedNames()
    ensures IsProtectedName("admin") && IsProtectedName("ADMIN") && IsProtectedName("Admin")
    ensures IsProtectedName("adm\U{0131}n") && IsProtectedName("ADM\U{0130}N")
    ensures !IsProtectedName("admin2") && !IsProtectedName("adm") && !IsProtectedName("root")
  {
    assert !SameLetterIgnoringCase('r', 'a');
  }

  /** `register(request)`: the username is checked before the email. */
  function Register(s: Store, req: RegisterRequest, now: Time): (o: Outcome<(UserId, User)>)
    requires WellFormed(s)
    ensures WellFormed(o.store)
    ensures o.result == Failure(UsernameTaken) <==> UsernameExists(s.users, req.username)
    ensures o.result == Failure(EmailTaken) <==>
              !UsernameExists(s.users, req.username) && EmailExists(s.users, req.email)
    ensures o.result.Failure? ==> o.store == s
    ensures o.result.Success? ==>
              var (id, u) := o.result.value;
              && id !in s.users
              && o.store.users == s.users[id := u]
              && o.store.books == s.books && o.store.records == s.records
              && u.username == req.username && u.email == req.email
              && PasswordMatches(req.password, u.password)
              && u.role == (if req.role.Some? then req.role.value else DefaultRole)
              && u.status == ActiveAccount
              && u.createdAt == now && u.updatedAt == now && u.lastLogin == None
  {
    if UsernameExists(s.users, req.username) then Outcome(Failure(UsernameTaken), s)
    else if EmailExists(s.users, req.email) then Outcome(Failure(EmailTaken), s)
    else
      var u := User(req.username, Encode(req.password), req.email, req.role.GetOr(DefaultRole),
                    ActiveAccount, now, now, None);
      Outcome(Success((s.nextUserId, u)), s.(users := s.users[s.nextUserId := u], nextUserId := s.nextUserId + 1))
  }

  /** A registered user is the one `findByUsername` then finds. */
  lemma RegisteredUserIsFound(s: Store, req: RegisterRequest, now: Time)
    requires WellFormed(s)
    requires Register(s, req, now).result.Success?
    ensures UserByName(Register(s, req, now).store.users, req.username) == Some(Register(s, req, now).result.value.0)
  {
    var o := Register(s, req, now);
    var r := UserByName(o.store.users, req.username);
    assert o.store.users[o.result.value.0].username == req.username;
  }

  /** `updateUser(id, dto)`: each non-null field among email, password, role
      and status replaces the stored one; nothing else changes. */
  function UpdateUser(s: Store, id: UserId, f: UserFields): (o: Outcome<User>)
    requires WellFormed(s)
    ensures WellFormed(o.store)
    ensures o.result.Failure? <==> id !in s.users
    ensures o.result.Failure? ==> o.result.error == UserNotFound && o.store == s
    ensures o.result.Success? ==>
              var (old_, u) := (s.users[id], o.result.value);
              && o.store == s.(users := s.users[id := u])
              && u.email == f.email.GetOr(old_.email)
              && (if f.password.Some? then PasswordMatches(f.password.value, u.password) else u.password == old_.password)
              && u.role == f.role.GetOr(old_.role)
              && u.status == f.status.GetOr(old_.status)
              && u.username == old_.username && u.createdAt == old_.createdAt
              && u.updatedAt == old_.updatedAt && u.lastLogin == old_.lastLogin
  {
    if id !in s.users then Outcome(Failure(UserNotFound), s)
    else
      var u := s.users[id];
      var u' := u.(email := f.email.GetOr(u.email),
                   password := if f.password.Some? then Encode(f.password.value) else u.password,
                   role := f.role.GetOr(u.role),
                   status := f.status.GetOr(u.status));
      Outcome(Success(u'), s.(users := s.users[id := u']))
  }

  /** `updateLastLogin(username)`. */
  function UpdateLastLogin(s: Store, username: string, now: Time): (o: Outcome<User>)
    requires WellFormed(s)
    ensures WellFormed(o.store)
    ensures o.result.Failure? <==> !UsernameExists(s.users, username)
    ensures o.result.Failure? ==> o.result.error == UserNotFound && o.store == s
    ensures o.result.Success? ==>
              var id := UserByName(s.users, username).value;
              o.result.value == s.users[id].(lastLogin := Some(now)) &&
              o.store == s.(users := s.users[id := o.result.value])
  {
    match UserByName(s.users, username)
    case None => Outcome(Failure(UserNotFound), s)
    case Some(id) =>
      var u := s.users[id].(lastLogin := Some(now));
      Outcome(Success(u), s.(users := s.users[id := u]))
  }

  /** `updatePassword(username, current, new)`: the current password must
      match the stored one. */
  function UpdatePassword(s: Store, username: string, current: string, replacement: string, now: Time): (o: Outcome<User>)
    requires WellFormed(s)
    ensures WellFormed(o.store)
    ensures o.result == Failure(UserNotFound) <==> !UsernameExists(s.users, username)
    ensures o.result == Failure(WrongPassword) <==>
              UsernameExists(s.users, username) &&
              !PasswordMatches(current, s.users[UserByName(s.users, username).value].password)
    ensures o.result.Failure? ==> o.store == s
    ensures o.result.Success? ==>
              var id := UserByName(s.users, username).value;
              && current == s.users[id].password
              && PasswordMatches(replacement, o.result.value.password)
              && o.result.value == s.users[id].(password := o.result.value.password, updatedAt := now)
              && o.store == s.(users := s.users[id := o.result.value])
  {
    match UserByName(s.users, username)
    case None => Outcome(Failure(UserNotFound), s)
    case Some(id) =>
      var u := s.users[id];
      if !PasswordMatches(current, u.password) then Outcome(Failure(WrongPassword), s)
      else
        var u' := u.(password := Encode(replacement), updatedAt := now);
        Outcome(Success(u'), s.(users := s.users[id := u']))
  }

  /** `findUsers(keyword)`: with a non-empty keyword, the users whose username
      or email contains it; otherwise every user. */
  function FindUsers(users: map<UserId, User>, keyword: Option<string>): (r: map<UserId, User>)
    ensures forall id :: id in r ==> id in users && r[id] == users[id]
    ensures keyword.None? || keyword == Some("") ==> r == users
    ensures keyword.Some? && keyword.value != "" ==>
              forall id :: id in users ==>
                (id in r <==> Contains(users[id].username, keyword.value) || Contains(users[id].email, keyword.value))
  {
    if keyword.Some? && keyword.value != "" then
      map id | id in users && (Contains(users[id].username, keyword.value) || Contains(users[id].email, keyword.value)) :: users[id]
    else
      users
  }

  /** The cascading delete names every status there is, so it takes every
      record of the user. */
  lemma AllStatusesMeansAllRecords(id: UserId)
    ensures forall x :: Matches(ByUserStatusIn(id, AllStatusNames), x) <==> x.userId == id
  {
    forall x ensures Matches(ByUserStatusIn(id, AllStatusNames), x) <==> x.userId == id {
      StatusNameFacts(x.status);
    }
  }

  /** The unfinished-record count of the guard is zero exactly when the user
      has no PENDING or BORROWED record. */
  lemma UnfinishedCountZeroIff(rs: seq<BorrowRecord>, id: UserId)
    ensures CountByUserIdAndStatusIn(rs, id, ActiveStatusNames) == 0 <==>
            forall x :: x in rs && x.userId == id ==> !Active(x.status)
  {
    CountZeroIff(rs, ByUserStatusIn(id, ActiveStatusNames));
    forall x ensures Matches(ByUserStatusIn(id, ActiveStatusNames), x) <==> x.userId == id && Active(x.status) {
      StatusNameFacts(x.status);
    }
  }

  /** The store the cascade leaves: every record of the user deleted, then
      the user. */
  function Purge(s: Store, id: UserId): (t: Store)
    requires WellFormed(s)
    ensures WellFormed(t)
    ensures t.users == s.users - {id} && t.books == s.books
    ensures forall x :: x in t.records <==> x in s.records && x.userId != id
  {
    AllStatusesMeansAllRecords(id);
    RemoveKeepsWellFormed(s, ByUserStatusIn(id, AllStatusNames));
    s.(users := s.users - {id}, records := Remove(s.records, ByUserStatusIn(id, AllStatusNames)))
  }

  /** The store when the user has no record at all: only the user goes. */
  function Drop(s: Store, id: UserId): (t: Store)
    requires WellFormed(s)
    requires forall x :: x in s.records ==> x.userId != id
    ensures WellFormed(t)
    ensures t.users == s.users - {id} && t.books == s.books && t.records == s.records
  {
    s.(users := s.users - {id})
  }

  /** `deleteUser(id)`: the "admin" account is refused before any record is
      looked at; a user with PENDING or BORROWED records is refused with
      their count; otherwise all the user's records go, then the user. */
  function DeleteUser(s: Store, id: UserId): (o: Outcome<()>)
    requires WellFormed(s)
    ensures WellFormed(o.store)
    ensures o.result == Failure(UserNotFound) <==> id !in s.users
    ensures o.result == Failure(ProtectedAccount) <==> id in s.users && IsProtectedName(s.users[id].username)
    ensures o.result.Failure? && id in s.users && !IsProtectedName(s.users[id].username) ==>
              o.result.error == UserHasActiveLoans(CountByUserIdAndStatusIn(s.records, id, ActiveStatusNames)) &&
              o.result.error.count > 0
    ensures o.result.Success? <==>
              && id in s.users && !IsProtectedName(s.users[id].username)
              && forall x :: x in s.records && x.userId == id ==> !Active(x.status)
    ensures o.result.Failure? ==> o.store == s
    ensures o.result.Success? ==>
              && o.store.users == s.users - {id}
              && o.store.books == s.books
              && (forall x :: x in o.store.records ==> x in s.records && x.userId != id)
              && (forall x :: x in s.records && x.userId != id ==> x in o.store.records)
  {
    if id !in s.users then Outcome(Failure(UserNotFound), s)
    else if IsProtectedName(s.users[id].username) then Outcome(Failure(ProtectedAccount), s)
    else
      UnfinishedCountZeroIff(s.records, id);
      if CountByUserId(s.records, id) > 0 then
        var active := CountByUserIdAndStatusIn(s.records, id, ActiveStatusNames);
        if active > 0 then Outcome(Failure(UserHasActiveLoans(active)), s)
        else
          Outcome(Success(()), Purge(s, id))
      else
        CountZeroIff(s.records, ByUser(id));
        Outcome(Success(()), Drop(s, id))
  }

  /** Registration and the three account updates change no record and
      remove no book or user, so every record keeps its book and its user. */
  lemma RegisterKeepsLinks(s: Store, req: RegisterRequest, now: Time)
    requires WellFormed(s) && LinksIntact(s)
    ensures LinksIntact(Register(s, req, now).store)
  {
    var t := Register(s, req, now).store;
    forall i | 0 <= i < |t.records| ensures t.records[i].bookId in t.books && t.records[i].userId in t.users {
      assert t.records[i] == s.records[i];
    }
  }

  lemma UpdateUserKeepsLinks(s: Store, id: UserId, f: UserFields)
    requires WellFormed(s) && LinksIntact(s)
    ensures LinksIntact(UpdateUser(s, id, f).store)
  {
    var t := UpdateUser(s, id, f).store;
    forall i | 0 <= i < |t.records| ensures t.records[i].bookId in t.books && t.records[i].userId in t.users {
      assert t.records[i] == s.records[i];
    }
  }

  lemma UpdateLastLoginKeepsLinks(s: Store, username: string, now: Time)
    requires WellFormed(s) && LinksIntact(s)
    ensures LinksIntact(UpdateLastLogin(s, username, now).store)
  {
    var t := UpdateLastLogin(s, username, now).store;
    forall i | 0 <= i < |t.records| ensures t.records[i].bookId in t.books && t.records[i].userId in t.users {
      assert t.records[i] == s.records[i];
    }
  }

  lemma UpdatePasswordKeepsLinks(s: Store, username: string, current: string, replacement: string, now: Time)
    requires WellFormed(s) && LinksIntact(s)
    ensures LinksIntact(UpdatePassword(s, username, current, replacement, now).store)
  {
    var t := UpdatePassword(s, username, current, replacement, now).store;
    forall i | 0 <= i < |t.records| ensures t.records[i].bookId in t.books && t.records[i].userId in t.users {
      assert t.records[i] == s.records[i];
    }
  }

  /** Deleting a user keeps every remaining record's book and user present. */
  lemma DeleteUserKeepsLinks(s: Store, id: UserId)
    requires WellFormed(s) && LinksIntact(s)
    ensures LinksIntact(DeleteUser(s, id).store)
  {
    var o := DeleteUser(s, id);
    if o.result.Success? {
      var t := o.store;
      forall i | 0 <= i < |t.records| ensures t.records[i].bookId in t.books && t.records[i].userId in t.users {
        assert t.records[i] in t.records;
      }
    }
  }

  /** Deleting a user moves no book's stock and takes no unit any record
      holds: conservation survives it. */
  lemma DeleteUserConserves(s: Store, id: UserId, b: BookId)
    requires WellFormed(s)
    ensures Held(DeleteUser(s, id).store, b) == Held(s, b)
  {
    var o := DeleteUser(s, id);
    if o.result.Success? && o.store.records != s.records {
      AllStatusesMeansAllRecords(id);
      RemoveKeepsCount(s.records, ByUserStatusIn(id, AllStatusNames), ActiveOf(b));
    }
  }
}
