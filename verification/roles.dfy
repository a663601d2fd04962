/**
 * The four roles of the gateway and their ranking. Permission is a total
 * preorder on roles: a caller holds a required role when its rank is at
 * least the required one.
 */
module Roles {
  import opened Wrappers

  datatype Role = Observer | Operator | Builder | Admin

  /** The roles from the lowest rank to the highest. */
  const AllRoles: seq<Role> := [Observer, Operator, Builder, Admin]

  /** The role names as the configuration spells them. */
  function RoleName(r: Role): (s: string)
    ensures |s| >= 5
  {
    match r
    case Observer => "observer"
    case Operator => "operator"
    case Builder => "builder"
    case Admin => "admin"
  }

  /** The rank table, keyed by role name. */
  const RoleHierarchy: map<string, nat> := map["observer" := 1, "operator" := 2, "builder" := 3, "admin" := 4]

  /** The rank of a role, looked up in the table by its name. */
  function RoleLevel(r: Role): (n: nat)
    ensures 1 <= n <= 4
    ensures AllRoles[n - 1] == r
  {
    RoleHierarchy[RoleName(r)]
  }

  /** The caller's role ranks at least as high as the required one. */
  predicate HasPermission(user: Role, required: Role) {
    RoleLevel(user) >= RoleLevel(required)
  }

  /** The permission check on role names: an undefined rank compares false on either side. */
  predicate HasPermissionByName(user: string, required: string) {
    user in RoleHierarchy && required in RoleHierarchy && RoleHierarchy[user] >= RoleHierarchy[required]
  }

  /** Membership in the list of the four role literals. */
  predicate ValidateRole(s: string) {
    s in ["observer", "operator", "builder", "admin"]
  }

  /** The role a name stands for, if it is one of the four. */
  function ParseRole(s: string): (r: Option<Role>)
    ensures r.Some? ==> RoleName(r.value) == s
    ensures r.None? ==> forall q :: RoleName(q) != s
  {
    if s == "observer" then Some(Observer)
    else if s == "operator" then Some(Operator)
    else if s == "builder" then Some(Builder)
    else if s == "admin" then Some(Admin)
    else None
  }

  /** The ranks are 1 to 4 and strictly increase along `AllRoles`, so no two roles share one. */
  lemma RanksStrictlyIncrease(i: nat, j: nat)
    requires i < j < |AllRoles|
    ensures RoleLevel(AllRoles[i]) == i + 1
    ensures RoleLevel(AllRoles[i]) < RoleLevel(AllRoles[j])
  {
  }

  /** Permission is reflexive, transitive and total. */
  lemma PermissionIsTotalPreorder(a: Role, b: Role, c: Role)
    ensures HasPermission(a, a)
    ensures HasPermission(a, b) && HasPermission(b, c) ==> HasPermission(a, c)
    ensures HasPermission(a, b) || HasPermission(b, a)
  {
  }

  /** An admin holds every role; an observer holds only the observer role. */
  lemma AdminAndObserver(r: Role)
    ensures HasPermission(Admin, r)
    ensures HasPermission(r, Observer)
    ensures HasPermission(Observer, r) <==> r == Observer
  {
  }

  /** On the four names, the check by name is the check on roles. */
  lemma PermissionByNameAgrees(user: Role, required: Role)
    ensures HasPermissionByName(RoleName(user), RoleName(required)) <==> HasPermission(user, required)
  {
  }

  /** An unknown role name, on either side, never grants permission. */
  lemma PermissionByNameFailsClosed(user: string, required: string)
    requires ParseRole(user).None? || ParseRole(required).None?
    ensures !HasPermissionByName(user, required)
  {
  }

  /** A name passes validation exactly when it names a role. */
  lemma ValidateRoleIsParse(s: string)
    ensures ValidateRole(s) <==> ParseRole(s).Some?
  {
  }
}
