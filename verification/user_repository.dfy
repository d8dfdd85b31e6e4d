/**
 * The user table: username is the primary key and phone_number is UNIQUE.
 * The table is an in-memory set of user records.
 */
module UserStore {
  import opened Wrappers
  import opened UserDomain
  import opened Errors

  /** Both unique keys of the table hold. */
  predicate UniqueKeys(users: set<User>) {
    && (forall a, b :: a in users && b in users && a.username == b.username ==> a == b)
    && (forall a, b :: a in users && b in users && a.phoneNumber == b.phoneNumber ==> a == b)
  }

  /** Some record carries `username`. */
  predicate Registered(users: set<User>, username: Username) {
    exists v :: v in users && v.username == username
  }

  /** The record registered under `username`, if any. */
  ghost function UserNamed(users: set<User>, username: Username): Option<User> {
    if Registered(users, username) then
      Some(var v :| v in users && v.username == username; v)
    else
      None
  }

  /** The record registered with `phoneNumber`, if any. */
  ghost function UserWithPhone(users: set<User>, phoneNumber: PhoneNumber): Option<User> {
    if exists v :: v in users && v.phoneNumber == phoneNumber then
      Some(var v :| v in users && v.phoneNumber == phoneNumber; v)
    else
      None
  }

  /** The table without the record of `username`. */
  function WithoutUser(users: set<User>, username: Username): set<User> {
    set v | v in users && v.username != username
  }

  class UserRepository {
    /** The rows of the `users` table. */
    var users: set<User>

    ghost predicate Valid()
      reads this
    {
      UniqueKeys(users)
    }

    constructor ()
      ensures Valid() && users == {}
    {
      users := {};
    }

    /**
     * Inserts the user. A taken username fails with UserAlreadyExistsError,
     * a taken phone number with PhoneNumberAlreadyExistsError; when both are
     * taken either error may be reported, since the database decides which
     * constraint it names. A failed insert leaves the table unchanged.
     */
    method AddUser(user: User) returns (r: Outcome<Error>)
      requires Valid()
      modifies this
      ensures Valid()
      ensures UserNamed(old(users), user.username).Some? && UserWithPhone(old(users), user.phoneNumber).None? ==>
        r == Fail(UserAlreadyExistsError) && users == old(users)
      ensures UserNamed(old(users), user.username).Some? && UserWithPhone(old(users), user.phoneNumber).Some? ==>
        (r == Fail(UserAlreadyExistsError) || r == Fail(PhoneNumberAlreadyExistsError)) && users == old(users)
      ensures UserNamed(old(users), user.username).None? && UserWithPhone(old(users), user.phoneNumber).Some? ==>
        r == Fail(PhoneNumberAlreadyExistsError) && users == old(users)
      ensures UserNamed(old(users), user.username).None? && UserWithPhone(old(users), user.phoneNumber).None? ==>
        r == Pass && users == old(users) + {user}
    {
      if Registered(users, user.username) {
        return Fail(UserAlreadyExistsError);
      }
      if exists v :: v in users && v.phoneNumber == user.phoneNumber {
        return Fail(PhoneNumberAlreadyExistsError);
      }
      users := users + {user};
      return Pass;
    }

    /** The user registered under `username`, or None. */
    method GetUser(username: Username) returns (r: Option<User>)
      requires Valid()
      ensures r == UserNamed(users, username)
    {
      if v :| v in users && v.username == username {
        return Some(v);
      }
      return None;
    }

    /** The user registered with `phoneNumber`, or None. */
    method GetUserByPhoneNumber(phoneNumber: PhoneNumber) returns (r: Option<User>)
      requires Valid()
      ensures r == UserWithPhone(users, phoneNumber)
    {
      if v :| v in users && v.phoneNumber == phoneNumber {
        return Some(v);
      }
      return None;
    }

    /** Deletes the row of `username`, if there is one, and no other row. */
    method DeleteUser(username: Username)
      requires Valid()
      modifies this
      ensures Valid()
      ensures users == WithoutUser(old(users), username)
    {
      users := set v | v in users && v.username != username;
    }
  }

  /** Under the unique keys, both lookups find a registered user by either key. */
  lemma LookupFindsRegisteredUser(users: set<User>, user: User)
    requires UniqueKeys(users) && user in users
    ensures UserNamed(users, user.username) == Some(user)
    ensures UserWithPhone(users, user.phoneNumber) == Some(user)
  {
  }

  /** Lookups of a key no record carries find nothing. */
  lemma LookupOfUnknownIsNone(users: set<User>, username: Username, phoneNumber: PhoneNumber)
    ensures (forall v :: v in users ==> v.username != username) ==> UserNamed(users, username) == None
    ensures (forall v :: v in users ==> v.phoneNumber != phoneNumber) ==> UserWithPhone(users, phoneNumber) == None
  {
  }

  /** A successful insert keeps both keys unique and is found again by username and by phone number. */
  lemma AddThenGet(users: set<User>, user: User)
    requires UniqueKeys(users)
    requires UserNamed(users, user.username).None? && UserWithPhone(users, user.phoneNumber).None?
    ensures UniqueKeys(users + {user})
    ensures UserNamed(users + {user}, user.username) == Some(user)
    ensures UserWithPhone(users + {user}, user.phoneNumber) == Some(user)
  {
  }

  /** Deleting a username removes its record and leaves every other lookup by username as it was. */
  lemma DeleteRemovesOnlyThatUser(users: set<User>, username: Username)
    requires UniqueKeys(users)
    ensures UserNamed(WithoutUser(users, username), username) == None
    ensures forall other :: other != username ==>
      UserNamed(WithoutUser(users, username), other) == UserNamed(users, other)
  {
  }
}
