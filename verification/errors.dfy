/**
 * The domain exceptions, as datatype variants. Their message texts are not
 * modelled; only which failure happened (and, for PhoneNotFoundError, the
 * number that did not resolve).
 */
module Errors {
  import opened UserDomain

  datatype Error =
    | UserAlreadyExistsError
    | PhoneNumberAlreadyExistsError
    | MaximumNumberOfGroupsReachedError
    | GroupNotFoundError
    | UserNotInGroupError
    | PhoneNotFoundError(number: PhoneNumber)
      /** The group table's primary key (group name, username) rejected an insert. */
    | IntegrityError
}
