/**
 * The group table: one row per membership `(group_name, username,
 * user_group_phone_number)` with primary key `(group_name, username)`.
 * The table is an in-memory set of rows; a group with no rows does not exist.
 */
module GroupStore {
  import opened Wrappers
  import opened UserDomain
  import opened GroupDomain
  import opened Errors
  import opened Collections

  datatype Row = Row(group: GroupName, username: Username, number: PhoneNumber)

  /** The memberships stored under `name`. */
  function MembersOf(rows: set<Row>, name: GroupName): set<GroupUser> {
    set r | r in rows && r.group == name :: GroupUser(r.username, r.number)
  }

  /** The rows of one user, across all groups. */
  function RowsOfUser(rows: set<Row>, username: Username): set<Row> {
    set r | r in rows && r.username == username
  }

  /** The groups `username` has a row in. */
  function GroupsOf(rows: set<Row>, username: Username): set<GroupName> {
    set r | r in rows && r.username == username :: r.group
  }

  /** The virtual numbers `username` holds, across all groups. */
  function UsedNumbers(rows: set<Row>, username: Username): set<PhoneNumber> {
    set r | r in rows && r.username == username :: r.number
  }

  /** The group names that occur in `rows`. */
  function NamesOf(rows: set<Row>): set<GroupName> {
    set r | r in rows :: r.group
  }

  /** The rows that store the memberships `users` under `name`. */
  function RowsFor(name: GroupName, users: set<GroupUser>): set<Row> {
    set m | m in users :: Row(name, m.username, m.number)
  }

  /** The table after every row of `name` is replaced by the rows of `users`. */
  function Replace(rows: set<Row>, name: GroupName, users: set<GroupUser>): set<Row> {
    (set r | r in rows && r.group != name) + RowsFor(name, users)
  }

  /** The primary key `(group_name, username)`: at most one row per pair. */
  predicate KeyUnique(rows: set<Row>) {
    forall r1, r2 :: r1 in rows && r2 in rows && r1.group == r2.group && r1.username == r2.username ==> r1 == r2
  }

  /**
   * No user holds the same virtual number in two groups, so a pair
   * (username, number) identifies at most one group.
   */
  predicate NumbersDistinctPerUser(rows: set<Row>) {
    forall r1, r2 :: r1 in rows && r2 in rows && r1.username == r2.username && r1.number == r2.number ==> r1.group == r2.group
  }

  // ---------------------------------------------------------------------
  // Group-name search
  // ---------------------------------------------------------------------

  /** ASCII lower-casing, which is what SQLite's LOWER does. */
  function LowerChar(c: char): char {
    if 'A' <= c <= 'Z' then (c as int + 32) as char else c
  }

  function Lower(s: string): string {
    seq(|s|, i requires 0 <= i < |s| => LowerChar(s[i]))
  }

  /** `needle` occurs in `haystack` starting at offset `k`. */
  predicate OccursAt(needle: string, haystack: string, k: int) {
    0 <= k <= |haystack| - |needle| && haystack[k..k + |needle|] == needle
  }

  /** `needle` occurs in `haystack` at some offset. */
  predicate IsSubstring(needle: string, haystack: string) {
    exists k :: 0 <= k <= |haystack| - |needle| && OccursAt(needle, haystack, k)
  }

  /** The search the repository documents: the query occurs in the name, ignoring case. */
  predicate ContainsIgnoreCase(name: string, query: string) {
    IsSubstring(Lower(query), Lower(name))
  }

  /**
   * The pattern `'%' + query + '%'` under SQL LIKE, for a query without `%`:
   * some window of `name` agrees with `query` wherever the query character is
   * not `_`, which LIKE reads as "any one character".
   */
  predicate LikeContains(name: string, query: string) {
    exists k :: 0 <= k <= |name| - |query| && LikeWindowAt(name, query, k)
  }

  /** The window of `name` at offset `k` matches `query`, `_` matching any character. */
  predicate LikeWindowAt(name: string, query: string, k: int) {
    0 <= k <= |name| - |query| &&
      forall j :: 0 <= j < |query| ==> query[j] == '_' || name[k + j] == query[j]
  }

  /** The filter as the query is written: `LOWER(group_name) LIKE '%' || lower(query) || '%'`. */
  predicate LikeMatchesAsWritten(name: string, query: string) {
    LikeContains(Lower(name), Lower(query))
  }

  /** A valid name has no upper-case letter, so lower-casing leaves it unchanged. */
  lemma ValidNameIsLowerCase(s: string)
    requires IsName(s)
    ensures Lower(s) == s
  {
  }

  /** For a query without `_`, the LIKE filter is the documented substring search. */
  lemma LikeAgreesWithoutUnderscore(name: string, query: string)
    requires forall j :: 0 <= j < |query| ==> query[j] != '_'
    ensures LikeMatchesAsWritten(name, query) <==> ContainsIgnoreCase(name, query)
  {
    var n, q := Lower(name), Lower(query);
    assert forall j :: 0 <= j < |q| ==> q[j] != '_';
    if LikeContains(n, q) {
      var k :| LikeWindowAt(n, q, k);
      assert LikeWindowAt(n, q, k);
      assert n[k..k + |q|] == q;
      assert OccursAt(q, n, k);
    }
    if IsSubstring(q, n) {
      var k :| OccursAt(q, n, k);
      assert OccursAt(q, n, k);
      forall j | 0 <= j < |q| ensures n[k + j] == q[j] {
        assert n[k + j] == n[k..k + |q|][j];
      }
      assert LikeWindowAt(n, q, k);
    }
  }

  /** As written, the query `a_c` matches the group `abc`, which does not contain `a_c`. */
  lemma UnderscoreIsWildcard()
    ensures GroupName("abc").Valid() && GroupName("a_c").Valid()
    ensures LikeMatchesAsWritten("abc", "a_c")
    ensures !ContainsIgnoreCase("abc", "a_c")
  {
    ValidNameIsLowerCase("abc");
    ValidNameIsLowerCase("a_c");
    assert LikeWindowAt("abc", "a_c", 0);
    assert !IsSubstring("a_c", "abc") by {
      assert "abc"[0..3][1] != "a_c"[1];
    }
  }

  // ---------------------------------------------------------------------
  // Facts about the table functions
  // ---------------------------------------------------------------------

  /** A group has no memberships exactly when no row carries its name. */
  lemma MembersOfEmpty(rows: set<Row>, name: GroupName)
    ensures MembersOf(rows, name) == {} <==> (set r | r in rows && r.group == name) == {}
  {
    var selected := set r | r in rows && r.group == name;
    if selected != {} {
      var r :| r in selected;
      assert GroupUser(r.username, r.number) in MembersOf(rows, name);
    }
    if MembersOf(rows, name) != {} {
      var m :| m in MembersOf(rows, name);
      var r :| r in rows && r.group == name && GroupUser(r.username, r.number) == m;
      assert r in selected;
    }
  }

  lemma MembersOfAddRow(rows: set<Row>, row: Row, name: GroupName)
    ensures MembersOf(rows + {row}, name) ==
      if row.group == name then MembersOf(rows, name) + {GroupUser(row.username, row.number)} else MembersOf(rows, name)
  {
  }

  lemma MembersOfAddRowEverywhere(rows: set<Row>, row: Row)
    ensures forall name :: MembersOf(rows + {row}, name) ==
              (if row.group == name then MembersOf(rows, name) + {GroupUser(row.username, row.number)} else MembersOf(rows, name))
  {
  }

  lemma NamesOfAddRow(rows: set<Row>, row: Row)
    ensures NamesOf(rows + {row}) == NamesOf(rows) + {row.group}
  {
  }

  /** A user is a member of a group exactly when the group is among the user's groups. */
  lemma MemberIffGroupOf(rows: set<Row>, name: GroupName, username: Username)
    ensures HasMember(MembersOf(rows, name), username) <==> name in GroupsOf(rows, username)
  {
    if name in GroupsOf(rows, username) {
      var r :| r in rows && r.username == username && r.group == name;
      assert GroupUser(r.username, r.number) in MembersOf(rows, name);
    }
  }

  lemma GroupsOfAddRow(rows: set<Row>, row: Row, username: Username)
    ensures GroupsOf(rows + {row}, username) ==
      if row.username == username then GroupsOf(rows, username) + {row.group} else GroupsOf(rows, username)
  {
  }

  lemma UsedNumbersAddRow(rows: set<Row>, row: Row, username: Username)
    ensures UsedNumbers(rows + {row}, username) ==
      if row.username == username then UsedNumbers(rows, username) + {row.number} else UsedNumbers(rows, username)
  {
  }

  /** A row for a (group, user) pair not yet in the table keeps the primary key. */
  lemma AddRowKeepsKey(rows: set<Row>, row: Row)
    requires KeyUnique(rows) && row.group !in GroupsOf(rows, row.username)
    ensures KeyUnique(rows + {row})
  {
  }

  /** A row for a new (group, user) pair under a number the user does not hold keeps both table invariants. */
  lemma AddRowKeepsInvariants(rows: set<Row>, row: Row)
    requires KeyUnique(rows) && NumbersDistinctPerUser(rows)
    requires row.group !in GroupsOf(rows, row.username) && row.number !in UsedNumbers(rows, row.username)
    ensures KeyUnique(rows + {row}) && NumbersDistinctPerUser(rows + {row})
  {
  }

  /**
   * Replacing a group stores exactly the given memberships under its name and
   * leaves every other group's memberships as they were.
   */
  lemma ReplaceRoundTrip(rows: set<Row>, name: GroupName, users: set<GroupUser>)
    ensures MembersOf(Replace(rows, name, users), name) == users
    ensures forall other :: other != name ==> MembersOf(Replace(rows, name, users), other) == MembersOf(rows, other)
  {
  }

  /** Under the primary key, the memberships of one group have distinct usernames. */
  lemma KeyUniqueMembersDistinct(rows: set<Row>, name: GroupName)
    requires KeyUnique(rows)
    ensures UsernamesDistinct(MembersOf(rows, name))
  {
  }

  /** Storing a group's own memberships again gives back exactly its rows. */
  lemma RowsForMembers(rows: set<Row>, name: GroupName)
    ensures RowsFor(name, MembersOf(rows, name)) == set r | r in rows && r.group == name
  {
    var own := set r | r in rows && r.group == name;
    forall r | r in own ensures r in RowsFor(name, MembersOf(rows, name)) {
      assert GroupUser(r.username, r.number) in MembersOf(rows, name);
    }
  }

  /** Replacing a group by its memberships plus one more adds exactly that one row. */
  lemma ReplaceWithAddedMember(rows: set<Row>, name: GroupName, m: GroupUser)
    ensures Replace(rows, name, MembersOf(rows, name) + {m}) == rows + {Row(name, m.username, m.number)}
  {
    RowsForMembers(rows, name);
    assert RowsFor(name, MembersOf(rows, name) + {m}) == RowsFor(name, MembersOf(rows, name)) + {Row(name, m.username, m.number)};
  }

  /** Replacing a group with distinct usernames keeps the primary key. */
  lemma ReplaceKeepsKey(rows: set<Row>, name: GroupName, users: set<GroupUser>)
    requires KeyUnique(rows) && UsernamesDistinct(users)
    ensures KeyUnique(Replace(rows, name, users))
  {
  }

  /** A user left out of the replacement no longer belongs to the group; their other groups stay. */
  lemma ReplaceDropsUsers(rows: set<Row>, name: GroupName, users: set<GroupUser>, username: Username)
    requires !HasMember(users, username)
    ensures GroupsOf(Replace(rows, name, users), username) == GroupsOf(rows, username) - {name}
  {
  }

  /**
   * Under the primary key a user has one row per group, so counting groups
   * counts rows, and the user cannot hold more numbers than groups.
   */
  lemma {:induction false} GroupCountIsRowCount(rows: set<Row>, username: Username)
    requires KeyUnique(rows)
    ensures |GroupsOf(rows, username)| == |RowsOfUser(rows, username)|
    ensures |UsedNumbers(rows, username)| <= |GroupsOf(rows, username)|
  {
    var mine := RowsOfUser(rows, username);
    var byGroup := (r: Row) => r.group;
    var byNumber := (r: Row) => r.number;
    forall g | g in GroupsOf(rows, username) ensures g in Image(mine, byGroup) {
      var r :| r in rows && r.username == username && r.group == g;
      assert r in mine && byGroup(r) == g;
    }
    forall n | n in UsedNumbers(rows, username) ensures n in Image(mine, byNumber) {
      var r :| r in rows && r.username == username && r.number == n;
      assert r in mine && byNumber(r) == n;
    }
    assert GroupsOf(rows, username) == Image(mine, byGroup);
    assert UsedNumbers(rows, username) == Image(mine, byNumber);
    assert InjectiveOn(mine, byGroup);
    ImageCount(mine, byGroup);
    ImageCount(mine, byNumber);
  }

  // ---------------------------------------------------------------------
  // Building Group objects from rows
  // ---------------------------------------------------------------------

  /** The name set of a list of groups. */
  function NamesIn(groups: seq<Group>): set<GroupName> {
    set i | 0 <= i < |groups| :: groups[i].name
  }

  predicate DistinctNames(groups: seq<Group>) {
    forall i, j :: 0 <= i < j < |groups| ==> groups[i].name != groups[j].name
  }

  /**
   * The dictionary the finders accumulate: one new Group per distinct group
   * name in `selected`, holding the memberships of the selected rows with that
   * name; `order` lists the names in the order they were first seen.
   */
  method GroupRows(selected: set<Row>) returns (byName: map<GroupName, Group>, order: seq<GroupName>)
    ensures byName.Keys == NamesOf(selected) == Elements(order) && NoDuplicates(order)
    ensures forall k :: k in byName ==> fresh(byName[k]) && byName[k].name == k
    ensures forall k :: k in byName ==> byName[k].users == MembersOf(selected, k)
  {
    byName, order := map[], [];
    var pending := selected;
    ghost var done: set<Row> := {};
    while pending != {}
      invariant pending + done == selected && pending !! done
      invariant byName.Keys == NamesOf(done) == Elements(order)
      invariant NoDuplicates(order)
      invariant forall k :: k in byName ==> fresh(byName[k]) && byName[k].name == k
      invariant forall k :: k in byName ==> byName[k].users == MembersOf(done, k)
      invariant forall k1, k2 :: k1 in byName && k2 in byName && k1 != k2 ==> byName[k1] != byName[k2]
      decreases pending
    {
      var row :| row in pending;
      NamesOfAddRow(done, row);
      if row.group !in byName {
        var group := new Group(row.group, {});
        byName := byName[row.group := group];
        order := order + [row.group];
      }
      byName[row.group].AddUser(row.username, row.number);
      MembersOfAddRowEverywhere(done, row);
      pending := pending - {row};
      done := done + {row};
    }
  }

  /** The accumulated groups as a list, in first-seen order. */
  method CollectGroups(selected: set<Row>) returns (groups: seq<Group>)
    ensures forall i :: 0 <= i < |groups| ==> fresh(groups[i])
    ensures DistinctNames(groups) && NamesIn(groups) == NamesOf(selected)
    ensures forall i :: 0 <= i < |groups| ==> groups[i].users == MembersOf(selected, groups[i].name)
    ensures |groups| == |NamesOf(selected)|
  {
    var byName, order := GroupRows(selected);
    groups := seq(|order|, i requires 0 <= i < |order| && order[i] in byName => byName[order[i]]);
    DistinctElementsCount(order);
    assert NamesIn(groups) == Elements(order) by {
      forall k | k in Elements(order) ensures k in NamesIn(groups) {
        var i :| 0 <= i < |order| && order[i] == k;
        assert groups[i].name == k;
      }
    }
  }

  class GroupRepository {
    /** The rows of the `group_users` table. */
    var rows: set<Row>

    ghost predicate Valid()
      reads this
    {
      KeyUnique(rows)
    }

    constructor ()
      ensures Valid() && rows == {}
    {
      rows := {};
    }

    /**
     * Deletes every row of the group, then inserts one row per membership.
     * A second membership of the same username violates the primary key: the
     * insert fails with IntegrityError and the table is left as it was.
     */
    method CreateOrUpdateGroup(group: Group) returns (r: Outcome<Error>)
      requires Valid()
      modifies this
      ensures Valid()
      ensures UsernamesDistinct(group.users) ==> r == Pass && rows == Replace(old(rows), group.name, group.users)
      ensures !UsernamesDistinct(group.users) ==> r == Fail(IntegrityError) && rows == old(rows)
    {
      var next := set row | row in rows && row.group != group.name;
      var pending := group.users;
      ghost var inserted: set<GroupUser> := {};
      while pending != {}
        invariant pending + inserted == group.users && pending !! inserted
        invariant next == (set row | row in rows && row.group != group.name) + RowsFor(group.name, inserted)
        invariant KeyUnique(next)
        decreases pending
      {
        var m :| m in pending;
        if exists row :: row in next && row.group == group.name && row.username == m.username {
          var row :| row in next && row.group == group.name && row.username == m.username;
          ghost var other :| other in inserted && row == Row(group.name, other.username, other.number);
          assert other != m && other.username == m.username;
          return Fail(IntegrityError);
        }
        next := next + {Row(group.name, m.username, m.number)};
        pending := pending - {m};
        inserted := inserted + {m};
      }
      rows := next;
      return Pass;
    }

    /** The group with all its memberships, or null when it has no rows. */
    method GetGroup(groupName: GroupName) returns (group: Group?)
      ensures group == null <==> MembersOf(rows, groupName) == {}
      ensures group != null ==> fresh(group) && group.name == groupName && group.users == MembersOf(rows, groupName)
    {
      var selected := set row | row in rows && row.group == groupName;
      MembersOfEmpty(rows, groupName);
      if selected == {} {
        return null;
      }
      assert MembersOf(selected, groupName) == MembersOf(rows, groupName);
      group := new Group(groupName, {});
      var pending := selected;
      ghost var done: set<Row> := {};
      while pending != {}
        invariant pending + done == selected && pending !! done
        invariant group.users == MembersOf(done, groupName)
        decreases pending
      {
        var row :| row in pending;
        MembersOfAddRow(done, row, groupName);
        group.AddUser(row.username, row.number);
        pending := pending - {row};
        done := done + {row};
      }
    }

    /**
     * One group per distinct group name whose name contains the query,
     * ignoring case, each with all its memberships.
     */
    method FindGroupsByName(query: GroupName) returns (groups: seq<Group>)
      ensures forall i :: 0 <= i < |groups| ==> fresh(groups[i])
      ensures DistinctNames(groups)
      ensures NamesIn(groups) == set row | row in rows && ContainsIgnoreCase(row.group.root, query.root) :: row.group
      ensures forall i :: 0 <= i < |groups| ==> groups[i].users == MembersOf(rows, groups[i].name)
    {
      var selected := set row | row in rows && ContainsIgnoreCase(row.group.root, query.root);
      groups := CollectGroups(selected);
      forall i | 0 <= i < |groups| ensures groups[i].users == MembersOf(rows, groups[i].name) {
        var name := groups[i].name;
        assert name in NamesOf(selected);
        var row :| row in selected && row.group == name;
        assert MembersOf(selected, name) == MembersOf(rows, name);
      }
    }

    /**
     * One group per group the user has a row in, each holding only that
     * user's membership rows.
     */
    method FindUserGroups(username: Username) returns (groups: seq<Group>)
      ensures forall i :: 0 <= i < |groups| ==> fresh(groups[i])
      ensures DistinctNames(groups) && NamesIn(groups) == GroupsOf(rows, username)
      ensures |groups| == |GroupsOf(rows, username)|
      ensures forall i :: 0 <= i < |groups| ==> groups[i].users == MembersOf(RowsOfUser(rows, username), groups[i].name)
    {
      groups := CollectGroups(RowsOfUser(rows, username));
      assert NamesOf(RowsOfUser(rows, username)) == GroupsOf(rows, username);
    }

    /** Deletes every row of the group and nothing else. */
    method DeleteGroup(groupName: GroupName)
      requires Valid()
      modifies this
      ensures Valid()
      ensures rows == set row | row in old(rows) && row.group != groupName
      ensures MembersOf(rows, groupName) == {}
    {
      rows := set row | row in rows && row.group != groupName;
    }

    /**
     * The full group in which `username` holds `phoneNumber`, or null when no
     * row has that pair.
     */
    method GetUserGroupByUserAndPhone(username: Username, phoneNumber: PhoneNumber) returns (group: Group?)
      ensures group == null <==> (forall row :: row in rows ==> !(row.username == username && row.number == phoneNumber))
      ensures group != null ==>
        && fresh(group)
        && Row(group.name, username, phoneNumber) in rows
        && group.users == MembersOf(rows, group.name)
    {
      if row :| row in rows && row.username == username && row.number == phoneNumber {
        assert GroupUser(row.username, row.number) in MembersOf(rows, row.group);
        group := GetGroup(row.group);
      } else {
        group := null;
      }
    }
  }
}
