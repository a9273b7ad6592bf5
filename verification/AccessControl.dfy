/** Permissions, as they are derived from the names of a user's groups. */
module AccessControl {
  import opened Text

  const ADMIN_GROUP := "lldap_admin"
  const PASSWORD_MANAGER_GROUP := "lldap_password_manager"
  const READONLY_GROUP := "lldap_strict_readonly"

  datatype Permission = Admin | PasswordManager | Readonly | Regular

  datatype ValidationResults = ValidationResults(user: string, permission: Permission) {
    predicate IsAdmin() {
      permission.Admin?
    }

    predicate CanReadAll() {
      permission.Admin? || permission.Readonly? || permission.PasswordManager?
    }

    predicate CanRead(other: string) {
      permission.Admin? || permission.PasswordManager? || permission.Readonly? || user == other
    }

    predicate CanChangePassword(other: string, otherIsAdmin: bool) {
      permission.Admin? || (permission.PasswordManager? && !otherIsAdmin) || user == other
    }

    predicate CanWrite(other: string) {
      permission.Admin? || user == other
    }
  }

  /** Group names compare without regard to case. */
  predicate InGroup(groups: set<string>, name: string) {
    exists g :: g in groups && Lower(g) == Lower(name)
  }

  function PermissionsFromGroups(user: string, groups: set<string>): ValidationResults {
    ValidationResults(
      user,
      if InGroup(groups, ADMIN_GROUP) then Admin
      else if InGroup(groups, PASSWORD_MANAGER_GROUP) then PasswordManager
      else if InGroup(groups, READONLY_GROUP) then Readonly
      else Regular)
  }
}
