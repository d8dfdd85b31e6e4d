/**
 * The group aggregate: a named set of memberships, each pairing a username
 * with the virtual number that user holds in the group.
 */
module GroupDomain {
  import opened Wrappers
  import opened UserDomain

  datatype GroupName = GroupName(root: string) {
    /** Length 3 to 20 and every character from `[a-z0-9._-]`. */
    predicate Valid() {
      IsName(root)
    }
  }

  /** One membership: `number` is the user's virtual number in the group. */
  datatype GroupUser = GroupUser(username: Username, number: PhoneNumber)

  /** Some membership of `users` belongs to `username`. */
  predicate HasMember(users: set<GroupUser>, username: Username) {
    exists m :: m in users && m.username == username
  }

  /** The memberships of `users` that do not belong to `username`. */
  function Without(users: set<GroupUser>, username: Username): set<GroupUser> {
    set m | m in users && m.username != username
  }

  /** At most one membership per username, as the table's primary key demands. */
  predicate UsernamesDistinct(users: set<GroupUser>) {
    forall a, b :: a in users && b in users && a.username == b.username ==> a == b
  }

  class Group {
    const name: GroupName
    var users: set<GroupUser>

    constructor (name: GroupName, users: set<GroupUser>)
      ensures this.name == name && this.users == users
    {
      this.name := name;
      this.users := users;
    }

    /**
     * The virtual number of some membership of `username`, found by scanning
     * the memberships; None exactly when the user has no membership.
     */
    method GetUserPhoneNumber(username: Username) returns (r: Option<PhoneNumber>)
      ensures r.Some? ==> GroupUser(username, r.value) in users
      ensures r.None? <==> !HasMember(users, username)
    {
      var rest := users;
      while rest != {}
        invariant rest <= users
        invariant forall m :: m in users && m !in rest ==> m.username != username
        decreases rest
      {
        var m :| m in rest;
        if m.username == username {
          return Some(m.number);
        }
        rest := rest - {m};
      }
      return None;
    }

    /** Adds the membership `(user, phoneNumber)`; set semantics make a repeat a no-op. */
    method AddUser(user: Username, phoneNumber: PhoneNumber)
      modifies this
      ensures users == old(users) + {GroupUser(user, phoneNumber)}
    {
      users := users + {GroupUser(user, phoneNumber)};
    }

    /** Drops every membership of `username`. */
    method RemoveUser(username: Username)
      modifies this
      ensures users == Without(old(users), username)
    {
      users := set m | m in users && m.username != username;
    }
  }

  /** After adding a user who was absent, that user's only membership carries the added number. */
  lemma AddedUserIsFound(users: set<GroupUser>, username: Username, phoneNumber: PhoneNumber)
    requires !HasMember(users, username)
    ensures HasMember(users + {GroupUser(username, phoneNumber)}, username)
    ensures forall n :: GroupUser(username, n) in users + {GroupUser(username, phoneNumber)} ==> n == phoneNumber
  {
  }

  /** Adding a membership that is already there changes nothing. */
  lemma AddExistingIsNoOp(users: set<GroupUser>, m: GroupUser)
    requires m in users
    ensures users + {m} == users
  {
  }

  /** Removal leaves no membership of the user and keeps every other membership. */
  lemma RemovedUserIsGone(users: set<GroupUser>, username: Username)
    ensures !HasMember(Without(users, username), username)
    ensures Without(users, username) <= users
    ensures forall m :: m in users && m.username != username ==> m in Without(users, username)
  {
  }

  /** Removing twice is removing once, and removing an absent user is a no-op. */
  lemma RemoveIsIdempotent(users: set<GroupUser>, username: Username)
    ensures Without(Without(users, username), username) == Without(users, username)
    ensures !HasMember(users, username) ==> Without(users, username) == users
  {
  }
}
