/** The exceptions the services throw, with the message each carries, and the
    result types that stand for "returns a value or throws". Every exception of
    a transactional method rolls the whole transaction back. */
module Failures {
  import opened Entities

  datatype Error =
    | UserNotFound                  // no user with that id or name
    | BookNotFound                  // no book with that id
    | OutOfStock                    // borrow with stock <= 0
    | RecordNotFound                // no borrow record with that id
    | NotPending                    // approve or reject of a record that is not PENDING
    | NotBorrowed(current: Status)  // returnBook of a record that is not BORROWED
    | AdminNotBorrowed(current: Status) // adminReturnBook of a record that is not BORROWED
    | NotOwner                      // returnBook by someone other than the borrower
    | RecordBookMissing             // a return whose record has no book
    | DanglingReference             // a null user or book dereferenced (NullPointerException)
    | UsernameTaken
    | EmailTaken
    | ProtectedAccount              // deleting the "admin" account
    | UserHasActiveLoans(count: nat)
    | BookHasActiveLoans(count: nat)
    | WrongPassword
    | InvalidRole
    | AccessDenied                  // a `hasRole('ADMIN')` check failed
    | ConstraintViolation           // a NOT NULL or UNIQUE column rejected the row

  /** Decimal rendering of a count, as string concatenation in Java does it. */
  function NatToString(n: nat): (s: string)
    ensures |s| >= 1
    ensures forall i :: 0 <= i < |s| ==> '0' <= s[i] <= '9'
  {
    var d := ['0' + (n % 10) as char];
    if n < 10 then d else NatToString(n / 10) + d
  }

  /** The text `getMessage()` returns for each exception. */
  function Message(e: Error): string {
    match e
    case UserNotFound => "用户不存在"
    case BookNotFound => "图书不存在"
    case OutOfStock => "图书库存不足"
    case RecordNotFound => "借阅记录不存在"
    case NotPending => "借阅状态不正确"
    case NotBorrowed(st) => "借阅状态不正确，当前状态: " + StatusName(st)
    case AdminNotBorrowed(st) =>
      "借阅状态不正确，当前状态: " + StatusName(st) + "，只能归还处于借阅中状态的图书"
    case NotOwner => "无权操作此借阅记录"
    case RecordBookMissing => "借阅记录关联的图书不存在"
    case DanglingReference => "NullPointerException"
    case UsernameTaken => "用户名已存在"
    case EmailTaken => "邮箱已被使用"
    case ProtectedAccount => "不能删除管理员账户"
    case UserHasActiveLoans(n) =>
      "该用户有未完成的借阅记录（" + NatToString(n) + " 条待审核或已借出），请先处理这些记录"
    case BookHasActiveLoans(n) =>
      "该图书有" + NatToString(n) + "条未完成的借阅记录，请等待归还后再删除"
    case WrongPassword => "当前密码不正确"
    case InvalidRole => "无效的角色"
    case AccessDenied => "权限不足"
    case ConstraintViolation => "could not execute statement"
  }

  datatype Result<T> = Success(value: T) | Failure(error: Error)

  /** What a transactional service method yields: its result and the store as
      committed (the old store when it threw). */
  datatype Outcome<T> = Outcome(result: Result<T>, store: Store)
}
