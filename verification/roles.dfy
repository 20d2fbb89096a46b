/** Role tags an individual carries in a succession. */
module Roles {

  /** `role_representant`: how an individual relates to the one they represent. */
  datatype Role = Decede | Epoux | Enfant | Parent | Other

  /** Child and parent links are the ones that add one degree of kinship. */
  predicate IsLineal(r: Role) {
    r == Enfant || r == Parent
  }

  /** `role_succession`: only the `succedant` value matters to the formulas. */
  datatype RoleSuccession = Succedant | NonSuccedant
}
