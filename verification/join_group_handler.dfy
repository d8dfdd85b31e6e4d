/**
 * Joining a group: the number allocation scan and the join handler, which
 * checks that the group exists, applies the membership cap, picks the first
 * pool number the user does not already hold, stores the membership and
 * notifies the user from the new number.
 */
module JoinGroup {
  import opened Wrappers
  import opened UserDomain
  import opened GroupDomain
  import opened Errors
  import opened Collections
  import opened Messaging
  import opened GroupStore

  /** The first element of `available`, in order, that is not in `used`. */
  function FirstUnused(available: seq<PhoneNumber>, used: set<PhoneNumber>): (r: Option<PhoneNumber>)
    ensures r.Some? ==> r.value in available && r.value !in used
    decreases |available|
  {
    if available == [] then None
    else if available[0] !in used then Some(available[0])
    else FirstUnused(available[1..], used)
  }

  /** Position `k` holds an unused number and every earlier position a used one. */
  predicate IsFirstFree(available: seq<PhoneNumber>, used: set<PhoneNumber>, k: int) {
    0 <= k < |available| && available[k] !in used && forall j :: 0 <= j < k ==> available[j] in used
  }

  /**
   * The scan yields nothing exactly when every available number is used, and
   * otherwise the number at the first unused position.
   */
  lemma {:induction false} FirstUnusedIsFirstFree(available: seq<PhoneNumber>, used: set<PhoneNumber>)
    ensures FirstUnused(available, used).None? <==> forall i :: 0 <= i < |available| ==> available[i] in used
    ensures FirstUnused(available, used).Some? ==>
      exists k :: IsFirstFree(available, used, k) && available[k] == FirstUnused(available, used).value
    decreases |available|
  {
    if available != [] {
      if available[0] !in used {
        assert IsFirstFree(available, used, 0);
      } else {
        var tail := available[1..];
        FirstUnusedIsFirstFree(tail, used);
        assert forall i :: 1 <= i < |available| ==> available[i] == tail[i - 1];
        if FirstUnused(tail, used).Some? {
          var k :| IsFirstFree(tail, used, k) && tail[k] == FirstUnused(tail, used).value;
          assert IsFirstFree(available, used, k + 1);
        } else {
          assert forall i :: 0 <= i < |available| ==> available[i] in used by {
            forall i | 0 <= i < |available| ensures available[i] in used {
              if i > 0 { assert tail[i - 1] in used; }
            }
          }
        }
      }
    }
  }

  /**
   * Scans the available numbers in order and returns the first one that is
   * not among the used numbers.
   */
  method FindAvailablePhoneNumber(usedNumbers: seq<PhoneNumber>, availableNumbers: seq<PhoneNumber>)
    returns (r: Option<PhoneNumber>)
    ensures r == FirstUnused(availableNumbers, Elements(usedNumbers))
  {
    for i := 0 to |availableNumbers|
      invariant FirstUnused(availableNumbers[i..], Elements(usedNumbers)) == FirstUnused(availableNumbers, Elements(usedNumbers))
    {
      if availableNumbers[i] !in usedNumbers {
        return Some(availableNumbers[i]);
      }
      assert availableNumbers[i..][1..] == availableNumbers[i + 1..];
    }
    return None;
  }

  /**
   * What joining `name` does to the table: the failure it raises, or the
   * virtual number it assigns. The checks come in the handler's order; the
   * last one is the table's primary key rejecting a user who is already a
   * member, which the handler itself does not check.
   */
  function JoinDecision(rows: set<Row>, pool: seq<PhoneNumber>, name: GroupName, username: Username): (r: Result<PhoneNumber, Error>)
    ensures r == Failure(GroupNotFoundError) <==> MembersOf(rows, name) == {}
    ensures r.Failure? ==>
      r.error == GroupNotFoundError || r.error == MaximumNumberOfGroupsReachedError || r.error == IntegrityError
    ensures r == Failure(IntegrityError) ==> HasMember(MembersOf(rows, name), username)
    ensures r.Success? ==>
      && |GroupsOf(rows, username)| < |pool|
      && r.value in pool
      && r.value !in UsedNumbers(rows, username)
      && !HasMember(MembersOf(rows, name), username)
  {
    if MembersOf(rows, name) == {} then Failure(GroupNotFoundError)
    else if |GroupsOf(rows, username)| >= |pool| then Failure(MaximumNumberOfGroupsReachedError)
    else match FirstUnused(pool, UsedNumbers(rows, username))
      case None => Failure(MaximumNumberOfGroupsReachedError)
      case Some(p) => if HasMember(MembersOf(rows, name), username) then Failure(IntegrityError) else Success(p)
  }

  function JoinedMessage(name: GroupName): string {
    "You have joined the group '" + name.root + "'. Reply to this message to send text messages to the members of the group."
  }

  /** The numbers `username` holds in the groups `names`. */
  function NumbersIn(rows: set<Row>, username: Username, names: set<GroupName>): set<PhoneNumber> {
    set r | r in rows && r.username == username && r.group in names :: r.number
  }

  lemma NumbersInStep(rows: set<Row>, username: Username, names: set<GroupName>, name: GroupName, number: PhoneNumber)
    requires KeyUnique(rows) && Row(name, username, number) in rows
    ensures NumbersIn(rows, username, names + {name}) == NumbersIn(rows, username, names) + {number}
  {
  }

  lemma NumbersInAllGroups(rows: set<Row>, username: Username)
    ensures NumbersIn(rows, username, GroupsOf(rows, username)) == UsedNumbers(rows, username)
  {
  }

  /** A join that passes every check adds a user who is not yet a member, so the primary key holds. */
  lemma AddedMemberIsDistinct(rows: set<Row>, name: GroupName, username: Username, number: PhoneNumber)
    requires KeyUnique(rows) && number !in UsedNumbers(rows, username)
    ensures UsernamesDistinct(MembersOf(rows, name) + {GroupUser(username, number)}) <==> !HasMember(MembersOf(rows, name), username)
  {
  }

  /**
   * The numbers `username` holds in the groups the repository listed for
   * them, read back group by group, skipping a group that has no number for
   * the user.
   */
  method UsedPhoneNumbers(currentGroups: seq<Group>, username: Username, ghost rows: set<Row>)
    returns (usedPhoneNumbers: seq<PhoneNumber>)
    requires KeyUnique(rows) && NamesIn(currentGroups) == GroupsOf(rows, username)
    requires forall i :: 0 <= i < |currentGroups| ==>
      currentGroups[i].users == MembersOf(RowsOfUser(rows, username), currentGroups[i].name)
    ensures Elements(usedPhoneNumbers) == UsedNumbers(rows, username)
  {
    usedPhoneNumbers := [];
    ghost var seen: set<GroupName> := {};
    for i := 0 to |currentGroups|
      invariant seen == set j | 0 <= j < i :: currentGroups[j].name
      invariant Elements(usedPhoneNumbers) == NumbersIn(rows, username, seen)
    {
      var number := currentGroups[i].GetUserPhoneNumber(username);
      var name := currentGroups[i].name;
      assert name in NamesIn(currentGroups);
      ghost var row :| row in rows && row.username == username && row.group == name;
      assert GroupUser(row.username, row.number) in currentGroups[i].users;
      if number.Some? {
        assert Row(name, username, number.value) in rows;
        NumbersInStep(rows, username, seen, name, number.value);
        usedPhoneNumbers := usedPhoneNumbers + [number.value];
      }
      seen := seen + {name};
    }
    NumbersInAllGroups(rows, username);
  }

  // ---------------------------------------------------------------------
  // Properties of a join
  // ---------------------------------------------------------------------

  /**
   * The table invariants every handler keeps: the primary key, one group per
   * (user, number) pair, and no user in more groups than the pool has numbers.
   */
  ghost predicate MembershipInvariant(rows: set<Row>, pool: seq<PhoneNumber>) {
    && KeyUnique(rows)
    && NumbersDistinctPerUser(rows)
    && forall u :: |GroupsOf(rows, u)| <= |pool|
  }

  /**
   * A successful join hands out the first number of the pool, in pool order,
   * that the user does not already hold in another group.
   */
  lemma JoinChoosesFirstFreeNumber(rows: set<Row>, pool: seq<PhoneNumber>, name: GroupName, username: Username)
    ensures var d := JoinDecision(rows, pool, name, username);
      d.Success? ==> exists k :: IsFirstFree(pool, UsedNumbers(rows, username), k) && pool[k] == d.value
  {
    FirstUnusedIsFirstFree(pool, UsedNumbers(rows, username));
  }

  /**
   * A successful join adds the group to the user's groups and the number to
   * their numbers, touches no other user, and keeps the table invariants.
   */
  lemma JoinPreservesInvariants(rows: set<Row>, pool: seq<PhoneNumber>, name: GroupName, username: Username)
    requires MembershipInvariant(rows, pool)
    requires JoinDecision(rows, pool, name, username).Success?
    ensures var p := JoinDecision(rows, pool, name, username).value;
      var after := rows + {Row(name, username, p)};
      && MembershipInvariant(after, pool)
      && name !in GroupsOf(rows, username)
      && GroupsOf(after, username) == GroupsOf(rows, username) + {name}
      && UsedNumbers(after, username) == UsedNumbers(rows, username) + {p}
      && forall u :: u != username ==> GroupsOf(after, u) == GroupsOf(rows, u)
  {
    var p := JoinDecision(rows, pool, name, username).value;
    var row := Row(name, username, p);
    var after := rows + {row};
    FirstUnusedIsFirstFree(pool, UsedNumbers(rows, username));
    assert p !in UsedNumbers(rows, username);
    MemberIffGroupOf(rows, name, username);
    AddRowKeepsInvariants(rows, row);
    UsedNumbersAddRow(rows, row, username);
    forall u ensures GroupsOf(after, u) == if u == username then GroupsOf(rows, u) + {name} else GroupsOf(rows, u) {
      GroupsOfAddRow(rows, row, u);
    }
    assert |GroupsOf(rows, username)| < |pool|;
  }

  /**
   * With a pool of distinct numbers the scan never comes up empty once the
   * count check has passed: a user in fewer groups than there are numbers
   * holds fewer numbers than the pool has.
   */
  lemma CountCheckImpliesFreeNumber(rows: set<Row>, pool: seq<PhoneNumber>, username: Username)
    requires KeyUnique(rows) && NoDuplicates(pool)
    requires |GroupsOf(rows, username)| < |pool|
    ensures FirstUnused(pool, UsedNumbers(rows, username)).Some?
  {
    var used := UsedNumbers(rows, username);
    GroupCountIsRowCount(rows, username);
    DistinctElementsCount(pool);
    FirstUnusedIsFirstFree(pool, used);
    if FirstUnused(pool, used).None? {
      assert Elements(pool) <= used;
      SubsetCount(Elements(pool), used);
      assert false;
    }
  }

  /**
   * The second capacity check is reachable only with a pool that repeats a
   * number: with `[P, P]`, a user holding P in one group passes the count
   * check but finds no free number.
   */
  lemma ScanGateNeedsDuplicatePool()
    ensures var p := PhoneNumber("+12345678290");
      var alice := Username("alice");
      var rows := {Row(GroupName("hiking"), alice, p), Row(GroupName("chess"), Username("bob"), p)};
      && |GroupsOf(rows, alice)| < |[p, p]|
      && JoinDecision(rows, [p, p], GroupName("chess"), alice) == Failure(MaximumNumberOfGroupsReachedError)
  {
    var p := PhoneNumber("+12345678290");
    var alice := Username("alice");
    var hiking := Row(GroupName("hiking"), alice, p);
    var chess := Row(GroupName("chess"), Username("bob"), p);
    var rows := {hiking, chess};
    assert GroupUser(chess.username, chess.number) in MembersOf(rows, GroupName("chess"));
    assert GroupsOf(rows, alice) == {GroupName("hiking")};
    assert UsedNumbers(rows, alice) == {p};
  }

  class JoinGroupHandler {
    const groupRepository: GroupRepository
    const smsService: SmsService

    constructor (groupRepository: GroupRepository, smsService: SmsService)
      ensures this.groupRepository == groupRepository && this.smsService == smsService
    {
      this.groupRepository := groupRepository;
      this.smsService := smsService;
    }

    /**
     * Adds `user` to the group under the first pool number they do not hold
     * elsewhere and texts them from it; on any failure nothing is stored and
     * nothing is sent.
     */
    method Handle(groupName: GroupName, user: User) returns (r: Outcome<Error>)
      requires groupRepository.Valid()
      modifies groupRepository, smsService
      ensures groupRepository.Valid()
      ensures var d := JoinDecision(old(groupRepository.rows), smsService.pool, groupName, user.username);
        && (d.Failure? ==>
              && r == Fail(d.error)
              && groupRepository.rows == old(groupRepository.rows)
              && smsService.outbox == old(smsService.outbox))
        && (d.Success? ==>
              && r == Pass
              && groupRepository.rows == old(groupRepository.rows) + {Row(groupName, user.username, d.value)}
              && smsService.outbox == old(smsService.outbox) + [Sms(d.value, user.phoneNumber, JoinedMessage(groupName))])
    {
      ghost var rows := groupRepository.rows;
      ghost var d := JoinDecision(rows, smsService.pool, groupName, user.username);
      var group := groupRepository.GetGroup(groupName);
      if group == null {
        assert d == Failure(GroupNotFoundError);
        return Fail(GroupNotFoundError);
      }

      var currentGroups := groupRepository.FindUserGroups(user.username);
      var availablePhoneNumbers := smsService.pool;
      if |currentGroups| >= |availablePhoneNumbers| {
        assert d == Failure(MaximumNumberOfGroupsReachedError);
        return Fail(MaximumNumberOfGroupsReachedError);
      }

      var usedPhoneNumbers := UsedPhoneNumbers(currentGroups, user.username, rows);

      var phoneNumber := FindAvailablePhoneNumber(usedPhoneNumbers, availablePhoneNumbers);
      if phoneNumber.None? {
        assert d == Failure(MaximumNumberOfGroupsReachedError);
        return Fail(MaximumNumberOfGroupsReachedError);
      }

      FirstUnusedIsFirstFree(availablePhoneNumbers, UsedNumbers(rows, user.username));
      AddedMemberIsDistinct(rows, groupName, user.username, phoneNumber.value);
      ReplaceWithAddedMember(rows, groupName, GroupUser(user.username, phoneNumber.value));
      group.AddUser(user.username, phoneNumber.value);
      var stored := groupRepository.CreateOrUpdateGroup(group);
      if stored.Fail? {
        assert d == Failure(IntegrityError);
        return stored;
      }

      assert d == Success(phoneNumber.value);
      smsService.SendSms(phoneNumber.value, user.phoneNumber, JoinedMessage(groupName));
      return Pass;
    }
  }
}
