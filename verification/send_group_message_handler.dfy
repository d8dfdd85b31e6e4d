/**
 * Relaying a text: the sender's personal number and the virtual number they
 * wrote to pick out the sender's group, and the message goes out to every
 * other member who has a user record, from that member's own virtual number
 * in the group to the member's personal number.
 */
module SendGroupMessage {
  import opened Wrappers
  import opened UserDomain
  import opened GroupDomain
  import opened Errors
  import opened Collections
  import opened Messaging
  import opened GroupStore
  import opened UserStore

  /** The relayed body: the sender's username, a colon and the message. */
  function GroupMessage(sender: Username, message: string): string {
    sender.root + ": " + message
  }

  /** The memberships that receive the message: not the sender's, and backed by a user record. */
  function Recipients(members: set<GroupUser>, sender: Username, users: set<User>): set<GroupUser> {
    set m | m in members && m.username != sender && Registered(users, m.username)
  }

  /** The texts a relay of `body` sends to the members of a group. */
  function FanOut(members: set<GroupUser>, sender: Username, users: set<User>, body: string): (r: set<Sms>)
    ensures forall s :: s in r ==> s.body == body
    ensures forall s :: s in r ==> exists m :: m in Recipients(members, sender, users) && s.from == m.number
  {
    set m, v | m in members && v in users && m.username != sender && v.username == m.username ::
      Sms(m.number, v.phoneNumber, body)
  }

  /**
   * `after` is `before` followed by the fan-out of `body`, each text once,
   * one per recipient, in some order.
   */
  ghost predicate FannedOut(before: seq<Sms>, after: seq<Sms>, members: set<GroupUser>, sender: Username, users: set<User>, body: string) {
    && |before| <= |after|
    && after[..|before|] == before
    && Elements(after[|before|..]) == FanOut(members, sender, users, body)
    && NoDuplicates(after[|before|..])
    && |after| - |before| == |Recipients(members, sender, users)|
  }

  lemma FanOutAddMember(done: set<GroupUser>, m: GroupUser, sender: Username, users: set<User>, body: string)
    requires UniqueKeys(users)
    ensures UserNamed(users, m.username).Some? <==> Registered(users, m.username)
    ensures m.username != sender && Registered(users, m.username) ==>
      && FanOut(done + {m}, sender, users, body) ==
           FanOut(done, sender, users, body) + {Sms(m.number, UserNamed(users, m.username).value.phoneNumber, body)}
      && Recipients(done + {m}, sender, users) == Recipients(done, sender, users) + {m}
    ensures !(m.username != sender && Registered(users, m.username)) ==>
      && FanOut(done + {m}, sender, users, body) == FanOut(done, sender, users, body)
      && Recipients(done + {m}, sender, users) == Recipients(done, sender, users)
  {
  }

  /**
   * A member not yet served gets a text no earlier member got: recipients
   * have distinct usernames, hence distinct records, hence distinct phones.
   */
  lemma FanOutNewText(done: set<GroupUser>, m: GroupUser, v: User, sender: Username, users: set<User>, body: string)
    requires UniqueKeys(users) && UsernamesDistinct(done + {m}) && m !in done
    requires v in users && v.username == m.username
    ensures Sms(m.number, v.phoneNumber, body) !in FanOut(done, sender, users, body)
  {
  }

  /** The texts sent so far, once the member `m` has been served after `sent`. */
  ghost function ServeMember(sent: seq<Sms>, m: GroupUser, sender: Username, users: set<User>, body: string): seq<Sms> {
    if m.username != sender && Registered(users, m.username) then
      sent + [Sms(m.number, UserNamed(users, m.username).value.phoneNumber, body)]
    else
      sent
  }

  /** Serving one more member keeps the texts sent so far equal to the fan-out over the members served. */
  lemma ServeMemberStep(sent: seq<Sms>, done: set<GroupUser>, m: GroupUser, sender: Username, users: set<User>, body: string)
    requires UniqueKeys(users) && UsernamesDistinct(done + {m}) && m !in done
    requires Elements(sent) == FanOut(done, sender, users, body) && NoDuplicates(sent)
    requires |sent| == |Recipients(done, sender, users)|
    ensures var after := ServeMember(sent, m, sender, users, body);
      && Elements(after) == FanOut(done + {m}, sender, users, body)
      && NoDuplicates(after)
      && |after| == |Recipients(done + {m}, sender, users)|
  {
    FanOutAddMember(done, m, sender, users, body);
    if m.username != sender && Registered(users, m.username) {
      var v := UserNamed(users, m.username).value;
      FanOutNewText(done, m, v, sender, users, body);
      var text := Sms(m.number, v.phoneNumber, body);
      assert Elements(sent + [text]) == Elements(sent) + {text};
    }
  }

  /**
   * What a relay promises about each text: it carries the relayed body, it
   * never goes back to the sender, and every recipient gets one, from their
   * own number in the group to their personal number.
   */
  lemma FanOutReachesOthersOnly(members: set<GroupUser>, sender: User, users: set<User>, body: string)
    requires UniqueKeys(users) && sender in users
    ensures forall s :: s in FanOut(members, sender.username, users, body) ==> s.body == body && s.to != sender.phoneNumber
    ensures forall m :: m in Recipients(members, sender.username, users) ==>
      Sms(m.number, UserNamed(users, m.username).value.phoneNumber, body) in FanOut(members, sender.username, users, body)
  {
  }

  class SendGroupMessageHandler {
    const userRepository: UserRepository
    const groupRepository: GroupRepository
    const smsService: SmsService

    constructor (userRepository: UserRepository, groupRepository: GroupRepository, smsService: SmsService)
      ensures this.userRepository == userRepository
      ensures this.groupRepository == groupRepository
      ensures this.smsService == smsService
    {
      this.userRepository := userRepository;
      this.groupRepository := groupRepository;
      this.smsService := smsService;
    }

    /**
     * Sends `body` to every member of `members` other than `sender` who has a
     * user record, from the member's virtual number to their personal number.
     */
    method FanOutToMembers(members: set<GroupUser>, sender: Username, body: string)
      requires userRepository.Valid() && UsernamesDistinct(members)
      modifies smsService
      ensures FannedOut(old(smsService.outbox), smsService.outbox, members, sender, userRepository.users, body)
    {
      ghost var users := userRepository.users;
      ghost var before := smsService.outbox;
      ghost var sent: seq<Sms> := [];
      var pending := members;
      ghost var done: set<GroupUser> := {};
      while pending != {}
        invariant pending <= members && done == members - pending
        invariant smsService.outbox == before + sent
        invariant Elements(sent) == FanOut(done, sender, users, body)
        invariant NoDuplicates(sent)
        invariant |sent| == |Recipients(done, sender, users)|
        decreases pending
      {
        var groupUser :| groupUser in pending;
        ServeMemberStep(sent, done, groupUser, sender, users, body);
        FanOutAddMember(done, groupUser, sender, users, body);
        ghost var next := ServeMember(sent, groupUser, sender, users, body);
        if groupUser.username != sender {
          var sendingUser := userRepository.GetUser(groupUser.username);
          if sendingUser.Some? {
            var text := Sms(groupUser.number, sendingUser.value.phoneNumber, body);
            assert next == sent + [text];
            smsService.SendSms(text.from, text.to, text.body);
            AppendOne(before, sent, text);
          }
        }
        sent := next;
        pending := pending - {groupUser};
        done := done + {groupUser};
      }
      assert done == members;
      assert smsService.outbox[|before|..] == sent;
    }

    /**
     * Relays `message` from the user with personal number `userNumber` to the
     * group in which that user holds `groupNumber`. An unknown sender or a
     * number the sender holds in no group fails with PhoneNotFoundError and
     * sends nothing.
     */
    method Handle(userNumber: PhoneNumber, groupNumber: PhoneNumber, message: string) returns (r: Outcome<Error>)
      requires userRepository.Valid() && groupRepository.Valid()
      modifies smsService
      ensures var sender := UserWithPhone(userRepository.users, userNumber);
        && (sender.None? ==>
              r == Fail(PhoneNotFoundError(userNumber)) && smsService.outbox == old(smsService.outbox))
        && (sender.Some? && (forall g :: Row(g, sender.value.username, groupNumber) !in groupRepository.rows) ==>
              r == Fail(PhoneNotFoundError(groupNumber)) && smsService.outbox == old(smsService.outbox))
        && (sender.Some? && (exists g :: Row(g, sender.value.username, groupNumber) in groupRepository.rows) ==>
              && r == Pass
              && (exists g :: Row(g, sender.value.username, groupNumber) in groupRepository.rows
                   && FannedOut(old(smsService.outbox), smsService.outbox, MembersOf(groupRepository.rows, g),
                                sender.value.username, userRepository.users, GroupMessage(sender.value.username, message))))
    {
      var user := userRepository.GetUserByPhoneNumber(userNumber);
      if user.None? {
        return Fail(PhoneNotFoundError(userNumber));
      }

      var group := groupRepository.GetUserGroupByUserAndPhone(user.value.username, groupNumber);
      if group == null {
        return Fail(PhoneNotFoundError(groupNumber));
      }

      var newMessage := GroupMessage(user.value.username, message);
      KeyUniqueMembersDistinct(groupRepository.rows, group.name);
      FanOutToMembers(group.users, user.value.username, newMessage);
      return Pass;
    }
  }
}
