# Group-SMS relay: membership and virtual-number engine

This project is a verified Dafny model of the core of `group-sms-chat`, a relay. It lets people in a named group text each other through shared virtual phone numbers. Four pieces make up the state:

- the `group_users` membership table: rows `(group_name, username, user_group_phone_number)` with primary key `(group_name, username)` (`GroupStore.GroupRepository`);
- the `users` table, where the username and the phone number are each unique (`UserStore.UserRepository`);
- the SMS service's ordered pool of virtual numbers, plus an outbox of every `(from, to, body)` text sent (`Messaging.SmsService`);
- the `Group` aggregate the handlers load, change and write back (`GroupDomain.Group`).

Four operations act on that state:

- **Join** (`JoinGroup`) checks that the group exists and caps the user's group count at the pool size. It then gives the user the first pool number, in pool order, that they do not already hold in another group. It stores the membership and texts the user from that number.
- **Leave** (`LeaveGroup`) checks existence and membership, drops the user's row and texts the user from the number they gave back.
- **Route** (`SendGroupMessage`) maps the sender's personal number to a user. It then maps that user and the virtual number they wrote to to a group. Finally it fans the message out to every other member who has a user record, from that member's own virtual number in the group to their personal number.
- **Repositories** (`GroupStore`, `UserStore`): replace a whole group, look rows up, delete rows, and insert users under two unique keys.

The value types `Username`, `GroupName` and `PhoneNumber` wrap a string and compare by it. Each has a `Valid` predicate that states its length and pattern constraint (`UserDomain`, `GroupDomain`).

Each handler's contract ties its outcome and its new state to a pure description:

- `JoinGroup.JoinDecision` for join;
- `LeaveGroup.LeaveDecision` with `LeaveGroup.RemoveMembership` for leave;
- `SendGroupMessage.FanOut` and `SendGroupMessage.Recipients` for routing.

Lemmas then prove what the system promises about those descriptions. Join and leave keep the table invariant `JoinGroup.MembershipInvariant`:

- the primary key;
- one group per (user, virtual number) pair;
- no user in more groups than the pool has numbers.

Further lemmas prove that leave undoes join, that a leave does not block rejoining a group that still has members, given a pool without repeated numbers, and that a relay never texts the sender.

## Model

| member | source | states |
|---|---|---|
| UserDomain.Username.Valid | group_sms_chat/domain/user.py:7 | a username is 3 to 20 characters, each a lower-case ASCII letter, a digit, `.`, `_` or `-` |
| UserDomain.PhoneNumber.Valid | group_sms_chat/domain/user.py:14 | a phone number is 10 to 15 characters and matches `^\+?[0-9]\d{1,14}$` |
| GroupDomain.GroupName.Valid | group_sms_chat/domain/group.py:7 | a group name is 3 to 20 characters, each a lower-case ASCII letter, a digit, `.`, `_` or `-` |
| UserDomain.PhoneNumberShape | group_sms_chat/domain/user.py:14 | a phone number meets the length 10–15 and `^\+?[0-9]\d{1,14}$` constraint exactly when it is a plus followed by 9 to 14 digits, or 10 to 15 digits with no plus |
| GroupDomain.Group.constructor | group_sms_chat/domain/group.py:21-23 | a group starts with the given name and membership set |
| GroupDomain.Group.GetUserPhoneNumber | group_sms_chat/domain/group.py:25-35 | the scan returns a number `n` with `(username, n)` among the memberships, and returns None exactly when no membership has that username |
| GroupDomain.Group.AddUser | group_sms_chat/domain/group.py:37-47 | the memberships become the old ones plus `(user, phoneNumber)` |
| GroupDomain.Group.RemoveUser | group_sms_chat/domain/group.py:49-55 | the memberships become the old ones minus every membership of `username` |
| GroupDomain.AddedUserIsFound | group_sms_chat/domain/group.py:25-47 | after adding a user who was absent, the user is a member and their only number is the added one |
| GroupDomain.AddExistingIsNoOp | group_sms_chat/domain/group.py:44-47 | adding a membership that is already there leaves the set unchanged |
| GroupDomain.RemovedUserIsGone | group_sms_chat/domain/group.py:55 | after removal no membership has the username, nothing is added, and every membership of another username is kept |
| GroupDomain.RemoveIsIdempotent | group_sms_chat/domain/group.py:55 | removing twice equals removing once, and removing an absent user changes nothing |
| Messaging.SmsService.constructor | group_sms_chat/domain/sms_service.py:8-15 | the service offers the given pool in order and has sent nothing yet |
| Messaging.SmsService.SendSms | group_sms_chat/infrastructure/twilio/sms_service.py:11-12 | sending appends exactly one `(from, to, body)` text to the outbox |
| Messaging.PlusDigitsAreValid | group_sms_chat/domain/user.py:14 | a plus followed only by digits, 10 to 15 characters in all, is a valid phone number |
| Messaging.TwilioPoolIsWellFormed | group_sms_chat/infrastructure/twilio/sms_service.py:9 | the deployed pool has two numbers, both valid and distinct |
| GroupStore.GroupRepository.constructor | group_sms_chat/infrastructure/sqlite/group_repository.py:13-19 | a new table is empty and satisfies the primary key |
| GroupStore.GroupRepository.CreateOrUpdateGroup | group_sms_chat/infrastructure/sqlite/group_repository.py:22-32 | with distinct usernames, the table becomes the old rows of other groups plus one row per membership of the group; a repeated username fails with IntegrityError and leaves the table as it was; the primary key holds afterwards |
| GroupStore.ReplaceRoundTrip | group_sms_chat/infrastructure/sqlite/group_repository.py:26-31 | after a replace, reading the group back gives exactly the stored memberships, and every other group reads as before |
| GroupStore.ReplaceKeepsKey | group_sms_chat/infrastructure/sqlite/group_repository.py:18 | replacing a group with distinct usernames keeps the primary key |
| GroupStore.ReplaceDropsUsers | tests/test_sqlite_group_repository.py:72-74 | a user left out of the replacement loses that group from their groups, and keeps every other group |
| GroupStore.ReplaceWithAddedMember | group_sms_chat/infrastructure/sqlite/group_repository.py:26-31 | writing a group back with one more membership adds exactly that one row to the table |
| GroupStore.KeyUniqueMembersDistinct | group_sms_chat/infrastructure/sqlite/group_repository.py:18 | under the primary key, the memberships of one group have distinct usernames |
| GroupStore.GroupCountIsRowCount | group_sms_chat/infrastructure/sqlite/group_repository.py:18 | under the primary key a user's group count equals their row count, and they hold no more distinct numbers than groups |
| GroupStore.MemberIffGroupOf | group_sms_chat/infrastructure/sqlite/group_repository.py:70-85 | a user has a membership in a group exactly when the group is among that user's groups |
| GroupStore.AddRowKeepsKey | group_sms_chat/infrastructure/sqlite/group_repository.py:18 | a row for a (group, user) pair not yet present keeps the primary key |
| GroupStore.AddRowKeepsInvariants | group_sms_chat/application/join_group_handler.py:38-48 | a row for a new pair whose number the user does not hold keeps both the primary key and the one-group-per-(user, number) property |
| GroupStore.GroupRepository.GetGroup | group_sms_chat/infrastructure/sqlite/group_repository.py:34-50 | it returns null exactly when the group has no rows, and otherwise a new group with that name and all its memberships |
| GroupStore.MembersOfEmpty | group_sms_chat/infrastructure/sqlite/group_repository.py:38-41 | a group has no memberships exactly when no row carries its name |
| GroupStore.GroupRows | group_sms_chat/infrastructure/sqlite/group_repository.py:59-66 | the dictionary accumulator holds one new group per distinct selected name, with exactly the selected memberships of that name, and lists each name once |
| GroupStore.CollectGroups | group_sms_chat/infrastructure/sqlite/group_repository.py:59-68 | the accumulated groups form a list with one group per distinct name, each holding exactly the selected memberships of its name |
| GroupStore.GroupRepository.FindGroupsByName | group_sms_chat/infrastructure/sqlite/group_repository.py:52-68 | the result has one group for each distinct group name that contains the query, ignoring case, and each group holds all its memberships |
| GroupStore.ValidNameIsLowerCase | group_sms_chat/infrastructure/sqlite/group_repository.py:56 | lower-casing leaves a valid group name unchanged |
| GroupStore.LikeAgreesWithoutUnderscore | group_sms_chat/infrastructure/sqlite/group_repository.py:56 | for a query without `_`, the LIKE filter as written selects exactly the names that contain the query, ignoring case |
| GroupStore.UnderscoreIsWildcard | group_sms_chat/infrastructure/sqlite/group_repository.py:56 | with the valid names `abc` and `a_c`, the LIKE filter as written matches `abc` although `abc` does not contain `a_c` |
| GroupStore.GroupRepository.FindUserGroups | group_sms_chat/infrastructure/sqlite/group_repository.py:70-85 | the result has one group for each group the user has a row in, as many as there are such groups, each holding only that user's row |
| GroupStore.GroupRepository.DeleteGroup | group_sms_chat/infrastructure/sqlite/group_repository.py:87-90 | every row of the group goes, no other row changes, and the primary key still holds |
| GroupStore.GroupRepository.GetUserGroupByUserAndPhone | group_sms_chat/infrastructure/sqlite/group_repository.py:92-104 | it returns null exactly when no row pairs the username with the number, and otherwise the full group holding such a row |
| UserStore.UserRepository.constructor | group_sms_chat/infrastructure/sqlite/user_repository.py:13-19 | a new user table is empty and satisfies both unique keys |
| UserStore.UserRepository.AddUser | group_sms_chat/infrastructure/sqlite/user_repository.py:21-35 | a taken username with a free phone number fails with UserAlreadyExistsError; a free username with a taken phone number fails with PhoneNumberAlreadyExistsError; when both are taken it fails with one of the two; every failure leaves the table unchanged; otherwise the user is added; both keys stay unique |
| UserStore.UserRepository.GetUser | group_sms_chat/infrastructure/sqlite/user_repository.py:37-43 | it returns the record registered under the username, or None when there is none |
| UserStore.UserRepository.GetUserByPhoneNumber | group_sms_chat/domain/user_repository.py:21-26 | it returns the record registered with the phone number, or None when there is none |
| UserStore.UserRepository.DeleteUser | group_sms_chat/infrastructure/sqlite/user_repository.py:45-48 | exactly the records of that username are removed, and both keys stay unique |
| UserStore.LookupFindsRegisteredUser | tests/test_sqlite_user_repository.py:83-85 | under the unique keys a registered user is found both by username and by phone number |
| UserStore.LookupOfUnknownIsNone | tests/test_sqlite_user_repository.py:27-28 | looking up a username or a phone number that no record carries gives None |
| UserStore.AddThenGet | tests/test_sqlite_user_repository.py:18-20 | a successful insert keeps both keys unique, and the user is then found by username and by phone number |
| UserStore.DeleteRemovesOnlyThatUser | group_sms_chat/infrastructure/sqlite/user_repository.py:45-48 | after a delete the username is gone, and every other username looks up as before |
| JoinGroup.FirstUnused | group_sms_chat/application/join_group_handler.py:58-71 | a number the scan yields is available and not used |
| JoinGroup.JoinDecision | group_sms_chat/application/join_group_handler.py:28-48 | a join fails with GroupNotFoundError exactly when the group has no rows; any other failure is MaximumNumberOfGroupsReachedError or, for a user already in the group, IntegrityError; a success has the user in fewer groups than the pool has numbers, not yet in the group, and assigns a pool number the user does not already hold |
| JoinGroup.FirstUnusedIsFirstFree | group_sms_chat/application/join_group_handler.py:68-71 | the scan yields None exactly when every available number is used, and otherwise the number at the first unused position, every earlier number being used |
| JoinGroup.FindAvailablePhoneNumber | group_sms_chat/application/join_group_handler.py:58-71 | the loop returns the first available number, in list order, that is not among the used numbers |
| JoinGroup.UsedPhoneNumbers | group_sms_chat/application/join_group_handler.py:38-43 | reading the user's number back from each of their groups gives exactly the numbers the user holds |
| JoinGroup.AddedMemberIsDistinct | group_sms_chat/application/join_group_handler.py:47-48 | adding a number the user does not hold keeps the group's usernames distinct exactly when the user is not yet a member |
| JoinGroup.JoinGroupHandler.constructor | group_sms_chat/application/join_group_handler.py:9-17 | the handler keeps the repository and service it was given |
| JoinGroup.JoinGroupHandler.Handle | group_sms_chat/application/join_group_handler.py:28-55 | a missing group fails with GroupNotFoundError; a full count or no free number fails with MaximumNumberOfGroupsReachedError; a user who is already a member fails with IntegrityError; on every failure nothing is stored and nothing is sent; on success exactly one row `(group, user, first free number)` is added and exactly one text goes from that number to the user |
| JoinGroup.JoinChoosesFirstFreeNumber | group_sms_chat/application/join_group_handler.py:38-45 | a successful join assigns the first pool number, in pool order, that the user does not hold in any group |
| JoinGroup.JoinPreservesInvariants | group_sms_chat/application/join_group_handler.py:38-48 | a successful join keeps the table invariant: the primary key, no repeated number for a user, and at most pool-size groups per user; it adds exactly the new group to the user's groups and the new number to their numbers, and no other user's groups change |
| JoinGroup.CountCheckImpliesFreeNumber | group_sms_chat/application/join_group_handler.py:35-45 | with a pool of distinct numbers, passing the count check guarantees that the scan finds a free number |
| JoinGroup.ScanGateNeedsDuplicatePool | group_sms_chat/application/join_group_handler.py:44-45 | with the pool `[P, P]` a user who holds P in one group passes the count check, and the join still fails with MaximumNumberOfGroupsReachedError |
| LeaveGroup.LeaveDecision | group_sms_chat/application/leave_group_handler.py:29-38 | a leave fails with GroupNotFoundError exactly when the group has no rows, with UserNotInGroupError exactly when the group exists but the user is not in it, and otherwise names a number the user holds in that group |
| LeaveGroup.LeaveGroupHandler.constructor | group_sms_chat/application/leave_group_handler.py:9-17 | the handler keeps the repository and service it was given |
| LeaveGroup.LeaveGroupHandler.Handle | group_sms_chat/application/leave_group_handler.py:29-44 | a missing group fails with GroupNotFoundError, checked first; a non-member fails with UserNotInGroupError; on either failure nothing is stored and nothing is sent; on success exactly the user's row in the group is removed and exactly one text goes from the released number to the user |
| LeaveGroup.LeaveReleasesHeldNumber | group_sms_chat/application/leave_group_handler.py:33-35 | a leave succeeds exactly when the user has a row in the group, and releases the number in that row |
| LeaveGroup.LeaveRemovesOnlyTheUserRow | group_sms_chat/application/leave_group_handler.py:37-38 | writing the group back without the user deletes exactly the user's row in that group |
| LeaveGroup.LeavePreservesInvariants | group_sms_chat/application/leave_group_handler.py:37-38 | a leave keeps the table invariant, removes the group from the user's groups, keeps every other member's rows, and changes no other user and no other group |
| LeaveGroup.LeavingLastMemberDissolvesGroup | group_sms_chat/application/leave_group_handler.py:37-38 | when the last member leaves, the group has no rows, so it is no longer found |
| LeaveGroup.LeaveUndoesJoin | group_sms_chat/application/leave_group_handler.py:37-44 | a join followed by a leave of the same group restores the original table, and the leave releases exactly the number the join assigned |
| LeaveGroup.RejoinAfterLeave | group_sms_chat/application/join_group_handler.py:32-43 | after a leave, joining the same group again succeeds while the group still has members and the pool repeats no number |
| SendGroupMessage.FanOut | group_sms_chat/application/send_group_message_handler.py:33-44 | every relayed text carries the relayed body and comes from the virtual number of a recipient, that is, a member other than the sender who has a user record |
| SendGroupMessage.FanOutNewText | group_sms_chat/application/send_group_message_handler.py:38-44 | a member not yet served gets a text that no earlier member got |
| SendGroupMessage.ServeMemberStep | group_sms_chat/application/send_group_message_handler.py:34-44 | serving one more member keeps the texts sent so far distinct, equal to the fan-out over the members served, and as many as the recipients served |
| SendGroupMessage.FanOutReachesOthersOnly | group_sms_chat/application/send_group_message_handler.py:33-44 | every relayed text carries the relayed body and never goes to the sender's phone; every recipient gets a text from their own number in the group to their personal number |
| SendGroupMessage.SendGroupMessageHandler.constructor | group_sms_chat/application/send_group_message_handler.py:9-14 | the handler keeps the repositories and service it was given |
| SendGroupMessage.SendGroupMessageHandler.FanOutToMembers | group_sms_chat/application/send_group_message_handler.py:34-44 | the loop appends one text per recipient: each member other than the sender who has a user record gets one, from their virtual number to their personal number; members without a record are skipped; no text is sent twice; earlier texts are kept |
| SendGroupMessage.SendGroupMessageHandler.Handle | group_sms_chat/application/send_group_message_handler.py:25-44 | an unknown sender number fails with `PhoneNotFoundError(user_number)`; a number the sender holds in no group fails with `PhoneNotFoundError(group_number)`; both failures send nothing; otherwise the texts `username: message` fan out over a group in which the sender holds that number |

## Left out

- The HTTP layer is not part of this model: FastAPI routing, dependency injection, status mapping and the request/response models.
- SQLite mechanics are not modelled: connections, cursors and commits. Each table is an in-memory set of rows, and `create_or_update_group` is one atomic step.
- GroupStore.GroupRepository.CreateOrUpdateGroup: the real code deletes, then inserts and commits. A primary-key failure partway through leaves the group's rows deleted, or half-inserted, on that connection. Later reads on the connection see that half-applied state at once, and the next commit on it makes the state durable. The model rolls the whole call back. It reports `IntegrityError`, which is not one of the source's named exceptions.
- Row order is not modelled: `fetchall`, `fetchone` and `list(dict.values())` return rows in SQLite order, and the model does not fix that order. The finders promise a list of distinct groups, with no particular order. `get_user_group_by_user_and_phone` promises some group holding the pair. Under `NumbersDistinctPerUser`, which join maintains, that group is unique.
- UserStore.UserRepository.AddUser reports which unique key collided. The real code learns this by matching substrings of SQLite's error text, so when both the username and the phone number are taken, SQLite's choice of constraint decides the error; the contract allows either. The substring matching and the `UnhandledError` fallback are not modelled.
- UserStore.UserRepository.GetUserByPhoneNumber: the SQLite user repository does not define `get_user_by_phone_number`. That method is abstract in the domain interface at `group_sms_chat/domain/user_repository.py:21-26`, and a repository test calls it. Because the method is missing, `SQLiteUserRepository` stays abstract and Python refuses to instantiate it. That breaks `group_sms_chat/app.py:155` and every test in `tests/test_sqlite_user_repository.py`. The model gives the method the behaviour the interface describes.
- Exception message texts are not modelled: the errors are datatype variants, and `MaximumNumberOfGroupsReachedError` does not carry `max_number`.
- SMS delivery is not modelled: Twilio's `send_sms` only logs, so the model appends to an outbox. The pool is a constant of the service (`Messaging.TwilioPool` is the deployed one).
- Password hashing (sha512), `ValidateUserPasswordHandler`, `FindGroupsHandler`, `RegisterUserHandler` and `CreateNewGroupHandler` are not part of this model. `FindGroupsHandler` and `RegisterUserHandler` delegate straight to the repositories. `ValidateUserPasswordHandler` calls a `check_password` method that `User` (group_sms_chat/domain/user.py:35-42) does not define. `CreateNewGroupHandler` lies outside the modelled core.
- `async`/`await` and concurrency: the model runs one operation at a time.
- Validity is not threaded through the model: value-type validity is checked at construction by pydantic, outside the core. The model's operations accept any string-wrapping value, and `Valid` is only a predicate.
- UserDomain.PhoneNumber.Valid reads the pattern's `\d` as the ASCII digits 0–9. The pattern's validator also accepts other Unicode decimal digits there, so a `1` followed by nine Arabic-Indic digits is a valid phone number in the source and an invalid one in the model.
- UserDomain.PhoneNumberShape inherits the same reading of `\d`: its digit runs are ASCII digits only.
- GroupStore.GroupRepository.FindGroupsByName lower-cases ASCII letters only. SQLite's `LOWER` does the same, but Python's `str.lower` also folds non-ASCII letters. The two agree on every valid group name, since valid names contain only `[a-z0-9._-]`.
- A `%` in a query would also act as a wildcard under LIKE. It cannot occur, because valid group names have no `%`.
- JoinGroup.JoinGroupHandler.Handle does not check whether the user is already a member. In that case `add_user` adds a second membership with the same username, and the primary-key insert fails. The model reports this as `IntegrityError` with nothing stored and nothing sent, because the handler writes before it sends.
- SendGroupMessage.SendGroupMessageHandler.Handle fixes the set of texts sent, but not the order in which members are visited, because Python's set iteration order is unspecified.

## Findings

| source | as written | input that shows it | evidently intended | confidence | as-written member | corrected member |
|---|---|---|---|---|---|---|
| group_sms_chat/infrastructure/sqlite/group_repository.py:56 | the filter is `LOWER(group_name) LIKE '%' + query + '%'`, and LIKE reads `_`, a character valid group names may contain, as "any one character" | query `a_c` against the group `abc` selects `abc` | select the groups whose name contains the query, ignoring case, with `_` matched literally | medium, not executed | GroupStore.UnderscoreIsWildcard | GroupStore.GroupRepository.FindGroupsByName |
