/** The two-valued user role and its Spring Security authority string. */
module Roles {

  datatype Role = User | Admin

  /** The enum constant's identifier (`name()`). */
  function Name(r: Role): string {
    match r
    case User => "USER"
    case Admin => "ADMIN"
  }

  /** The authority each constant is declared with. */
  function Authority(r: Role): string {
    match r
    case User => "ROLE_USER"
    case Admin => "ROLE_ADMIN"
  }

  /** There are exactly two roles. */
  lemma ExactlyTwoRoles(r: Role)
    ensures r == User || r == Admin
  {
  }

  /** Every authority is "ROLE_" followed by the role's name, so no two roles share one. */
  lemma AuthorityIsPrefixedName(r: Role, q: Role)
    ensures Authority(r) == "ROLE_" + Name(r)
    ensures Authority(r) == Authority(q) <==> r == q
  {
  }
}
