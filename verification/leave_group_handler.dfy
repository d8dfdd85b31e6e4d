/**
 * Leaving a group: the handler checks that the group exists and that the
 * user holds a number in it, drops the user's membership, stores the group
 * and texts the user from the released number.
 */
module LeaveGroup {
  import opened Wrappers
  import opened UserDomain
  import opened GroupDomain
  import opened Errors
  import opened Collections
  import opened Messaging
  import opened GroupStore
  import opened JoinGroup

  /** The table without the row of `username` in `name`. */
  function RemoveMembership(rows: set<Row>, name: GroupName, username: Username): set<Row> {
    set r | r in rows && !(r.group == name && r.username == username)
  }

  /**
   * What leaving `name` does: the failure it raises, or the number the user
   * held in the group, which the farewell text comes from.
   */
  ghost function LeaveDecision(rows: set<Row>, name: GroupName, username: Username): (r: Result<PhoneNumber, Error>)
    ensures r == Failure(GroupNotFoundError) <==> MembersOf(rows, name) == {}
    ensures r == Failure(UserNotInGroupError) <==> MembersOf(rows, name) != {} && !HasMember(MembersOf(rows, name), username)
    ensures r.Success? ==> Row(name, username, r.value) in rows
  {
    if MembersOf(rows, name) == {} then Failure(GroupNotFoundError)
    else if !HasMember(MembersOf(rows, name), username) then Failure(UserNotInGroupError)
    else
      var m :| m in MembersOf(rows, name) && m.username == username;
      Success(m.number)
  }

  function LeftMessage(name: GroupName): string {
    "You have left the group '" + name.root + "'."
  }

  /** A successful leave names the number the user actually held in the group. */
  lemma LeaveReleasesHeldNumber(rows: set<Row>, name: GroupName, username: Username)
    requires KeyUnique(rows)
    ensures LeaveDecision(rows, name, username).Success? <==> name in GroupsOf(rows, username)
    ensures forall n :: Row(name, username, n) in rows ==> LeaveDecision(rows, name, username) == Success(n)
  {
    MemberIffGroupOf(rows, name, username);
    forall n | Row(name, username, n) in rows ensures LeaveDecision(rows, name, username) == Success(n) {
      assert GroupUser(username, n) in MembersOf(rows, name);
      var m :| m in MembersOf(rows, name) && m.username == username && LeaveDecision(rows, name, username) == Success(m.number);
      assert Row(name, m.username, m.number) in rows;
    }
  }

  /**
   * Storing the group with the user removed deletes exactly the user's row in
   * that group and nothing else.
   */
  lemma LeaveRemovesOnlyTheUserRow(rows: set<Row>, name: GroupName, username: Username)
    ensures Replace(rows, name, Without(MembersOf(rows, name), username)) == RemoveMembership(rows, name, username)
  {
    var after := Replace(rows, name, Without(MembersOf(rows, name), username));
    forall r | r in RemoveMembership(rows, name, username) ensures r in after {
      if r.group == name {
        assert GroupUser(r.username, r.number) in Without(MembersOf(rows, name), username);
      }
    }
  }

  /**
   * Leaving removes the group from the user's groups, changes no other user
   * and no other group, and keeps the table invariants.
   */
  lemma LeavePreservesInvariants(rows: set<Row>, pool: seq<PhoneNumber>, name: GroupName, username: Username)
    requires MembershipInvariant(rows, pool)
    ensures var after := RemoveMembership(rows, name, username);
      && MembershipInvariant(after, pool)
      && GroupsOf(after, username) == GroupsOf(rows, username) - {name}
      && MembersOf(after, name) == Without(MembersOf(rows, name), username)
      && (forall u :: u != username ==> GroupsOf(after, u) == GroupsOf(rows, u))
      && (forall g :: g != name ==> MembersOf(after, g) == MembersOf(rows, g))
  {
    var after := RemoveMembership(rows, name, username);
    var kept := Without(MembersOf(rows, name), username);
    LeaveRemovesOnlyTheUserRow(rows, name, username);
    ReplaceRoundTrip(rows, name, kept);
    ReplaceDropsUsers(rows, name, kept, username);
    forall u | u != username ensures GroupsOf(after, u) == GroupsOf(rows, u) {
      forall g | g in GroupsOf(rows, u) ensures g in GroupsOf(after, u) {
        var r :| r in rows && r.username == u && r.group == g;
        assert r in after;
      }
    }
    forall u ensures |GroupsOf(after, u)| <= |pool| {
      SubsetCount(GroupsOf(after, u), GroupsOf(rows, u));
    }
  }

  /** When the leaving user was the last member, the group no longer exists. */
  lemma LeavingLastMemberDissolvesGroup(rows: set<Row>, name: GroupName, username: Username, number: PhoneNumber)
    requires MembersOf(rows, name) == {GroupUser(username, number)}
    ensures MembersOf(RemoveMembership(rows, name, username), name) == {}
    ensures LeaveDecision(RemoveMembership(rows, name, username), name, username) == Failure(GroupNotFoundError)
  {
    LeaveRemovesOnlyTheUserRow(rows, name, username);
    ReplaceRoundTrip(rows, name, Without(MembersOf(rows, name), username));
    assert Without(MembersOf(rows, name), username) == {};
  }

  /**
   * Leave undoes join: joining and then leaving the same group gives back
   * the original table, and the leave releases the number the join assigned.
   */
  lemma LeaveUndoesJoin(rows: set<Row>, pool: seq<PhoneNumber>, name: GroupName, username: Username)
    requires KeyUnique(rows)
    requires JoinDecision(rows, pool, name, username).Success?
    ensures var p := JoinDecision(rows, pool, name, username).value;
      && LeaveDecision(rows + {Row(name, username, p)}, name, username) == Success(p)
      && RemoveMembership(rows + {Row(name, username, p)}, name, username) == rows
  {
    var p := JoinDecision(rows, pool, name, username).value;
    var row := Row(name, username, p);
    MemberIffGroupOf(rows, name, username);
    FirstUnusedIsFirstFree(pool, UsedNumbers(rows, username));
    AddRowKeepsKey(rows, row);
    LeaveReleasesHeldNumber(rows + {row}, name, username);
  }

  /**
   * Nothing left over blocks a rejoin: after a leave, joining the same group
   * again succeeds as long as the group still has members and the pool
   * repeats no number.
   */
  lemma RejoinAfterLeave(rows: set<Row>, pool: seq<PhoneNumber>, name: GroupName, username: Username)
    requires MembershipInvariant(rows, pool) && NoDuplicates(pool)
    requires LeaveDecision(rows, name, username).Success?
    requires MembersOf(RemoveMembership(rows, name, username), name) != {}
    ensures JoinDecision(RemoveMembership(rows, name, username), pool, name, username).Success?
  {
    var after := RemoveMembership(rows, name, username);
    LeavePreservesInvariants(rows, pool, name, username);
    MemberIffGroupOf(rows, name, username);
    MemberIffGroupOf(after, name, username);
    SubsetCount(GroupsOf(after, username), GroupsOf(rows, username) - {name});
    CountCheckImpliesFreeNumber(after, pool, username);
  }

  class LeaveGroupHandler {
    const groupRepository: GroupRepository
    const smsService: SmsService

    constructor (groupRepository: GroupRepository, smsService: SmsService)
      ensures this.groupRepository == groupRepository && this.smsService == smsService
    {
      this.groupRepository := groupRepository;
      this.smsService := smsService;
    }

    /**
     * Removes `user` from the group and texts them from the number they held
     * there; on either failure nothing is stored and nothing is sent.
     */
    method Handle(groupName: GroupName, user: User) returns (r: Outcome<Error>)
      requires groupRepository.Valid()
      modifies groupRepository, smsService
      ensures groupRepository.Valid()
      ensures var d := LeaveDecision(old(groupRepository.rows), groupName, user.username);
        && (d.Failure? ==>
              && r == Fail(d.error)
              && groupRepository.rows == old(groupRepository.rows)
              && smsService.outbox == old(smsService.outbox))
        && (d.Success? ==>
              && r == Pass
              && groupRepository.rows == RemoveMembership(old(groupRepository.rows), groupName, user.username)
              && smsService.outbox == old(smsService.outbox) + [Sms(d.value, user.phoneNumber, LeftMessage(groupName))])
    {
      ghost var rows := groupRepository.rows;
      var group := groupRepository.GetGroup(groupName);
      if group == null {
        return Fail(GroupNotFoundError);
      }

      var groupPhoneNumber := group.GetUserPhoneNumber(user.username);
      if groupPhoneNumber.None? {
        return Fail(UserNotInGroupError);
      }

      assert Row(groupName, user.username, groupPhoneNumber.value) in rows;
      LeaveReleasesHeldNumber(rows, groupName, user.username);
      LeaveRemovesOnlyTheUserRow(rows, groupName, user.username);
      KeyUniqueMembersDistinct(rows, groupName);
      group.RemoveUser(user.username);
      var stored := groupRepository.CreateOrUpdateGroup(group);
      if stored.Fail? {
        return stored;
      }

      smsService.SendSms(groupPhoneNumber.value, user.phoneNumber, LeftMessage(groupName));
      return Pass;
    }
  }
}
