/** What the web layer adds around the services: who is calling, which
    authority makes an administrator, and how a service's result or exception
    becomes an HTTP response. */
module Http {
  import opened Entities
  import opened Failures

  /** The authenticated principal of a request: its name and granted authorities. */
  datatype Caller = Caller(name: string, authorities: seq<string>)

  /** The authority `hasRole('ADMIN')` and the controllers' own checks look for. */
  const AdminAuthority: string := "ROLE_ADMIN"

  predicate IsAdmin(c: Caller) {
    AdminAuthority in c.authorities
  }

  /** The one authority `loadUserByUsername` grants a stored user. */
  function AuthorityOf(role: string): string {
    "ROLE_" + role
  }

  /** The principal a valid token of user `u` yields. */
  function CallerOf(u: User): Caller {
    Caller(u.username, [AuthorityOf(u.role)])
  }

  /** A caller is an administrator exactly when the stored role is "ADMIN". */
  lemma AdminIffAdminRole(u: User)
    ensures IsAdmin(CallerOf(u)) <==> u.role == "ADMIN"
  {
    if IsAdmin(CallerOf(u)) {
      assert AuthorityOf(u.role) == AdminAuthority;
      assert AuthorityOf(u.role)[5..] == u.role;
      assert AdminAuthority[5..] == "ADMIN";
    }
    if u.role == "ADMIN" {
      assert AuthorityOf(u.role) == AdminAuthority;
    }
  }

  datatype Response<T> =
    | Ok(body: T)
    | BadRequest(message: string)     // 400
    | Forbidden(message: string)      // 403
    | ServerError(message: string)    // 500

  /** The body of every 403 the access-denied handler writes. */
  const DeniedMessage: string := "权限不足"

  /** A controller's answer and the store its service call left behind. */
  datatype Reply<T> = Reply(response: Response<T>, store: Store)

  /** A controller that lets the service's exception escape: the global
      handler turns it into a 400 carrying the exception's message. */
  function Escaped<T>(r: Result<T>): Response<T> {
    match r
    case Success(v) => Ok(v)
    case Failure(e) => BadRequest(Message(e))
  }

  /** A `hasRole('ADMIN')` endpoint refused before its body runs. */
  function Denied<T>(s: Store): Reply<T> {
    Reply(Forbidden(DeniedMessage), s)
  }
}
