/** The ways the modelled operations of Oracle.py can end other than by returning normally:
    an explicit exit(1), an uncaught Python exception, or a missing ORACLE_HOME. */
module Failures {

  datatype Option<+T> = None | Some(value: T)

  datatype Failure =
    | HomeUnset                       // ORACLE_HOME is not in the environment
    | CatalogUnreadable(path: string) // facility.lis cannot be opened: exit(1)
    | MalformedCode(code: string)     // the error code does not split into two '-' parts: exit(1)
    | UnknownFacility(facility: string) // the facility is not a key of the catalog: exit(1)
    | MessagesUnreadable(path: string)  // the <fac>us.msg file cannot be opened: exit(1)
    | IndexError                      // ComponentList[0] on an empty list
    | ValueError(input: string)       // int(), tuple unpacking or range() rejecting its argument
    | MissingCredentials(input: string) // no user name or password after prompting: exit(1)
    | PasswordsUnreadable(path: string) // the password file cannot be opened: the read of the
                                        // unbound contents then raises UnboundLocalError

  datatype Result<+T> = Ok(value: T) | Err(error: Failure) {
    predicate IsFailure() { Err? }

    function PropagateFailure<U>(): Result<U>
      requires Err?
    {
      Err(error)
    }

    function Extract(): T
      requires Ok?
    {
      value
    }
  }
}
