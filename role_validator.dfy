/** Which role strings an account may be given. */
module Roles {
  import opened Entities

  const ValidRoles: seq<string> := ["USER", "ADMIN"]

  /** `isValidRole`: an absent role, or one of the two, compared exactly and
      case-sensitively. */
  predicate IsValidRole(role: Option<string>) {
    role.None? || role.value in ValidRoles
  }

  lemma ValidRoleFacts()
    ensures IsValidRole(None)
    ensures forall r :: IsValidRole(Some(r)) <==> r == "USER" || r == "ADMIN"
    ensures !IsValidRole(Some("admin")) && !IsValidRole(Some("User")) && !IsValidRole(Some(""))
  {
  }
}
