/** The LDAP protocol types that the server handles. */
module Ldap {
  import opened Like

  /** The result codes that the modelled paths answer with. */
  datatype ResultCode =
    | Success
    | OperationsError
    | InvalidDNSyntax
    | InvalidAttributeSyntax
    | NamingViolation
    | InvalidCredentials
    | ConstraintViolation
    | InappropriateMatching
    | InsufficientAccessRights
    | UnwillingToPerform
    | NoSuchObject
    | CompareTrue
    | CompareFalse
    | Other

  /** The outcome of server code: a value, an LDAP error, or a failed assertion. */
  datatype LdapResult<+T> = Ok(value: T) | Err(code: ResultCode) | Panic {
    predicate IsFailure() {
      !Ok?
    }

    function PropagateFailure<U>(): LdapResult<U>
      requires !Ok?
    {
      if Panic? then LdapResult<U>.Panic else LdapResult<U>.Err(code)
    }

    function Extract(): T
      requires Ok?
    {
      value
    }
  }

  datatype LdapFilter =
    | And(filters: seq<LdapFilter>)
    | Or(filters: seq<LdapFilter>)
    | Not(filter: LdapFilter)
    | Equality(field: string, value: string)
    | Present(field: string)
    | Substring(field: string, substring: SubStringFilter)
    | Unsupported

  datatype SearchScope = Base | OneLevel | Subtree | Children
}
