/**
 * The group routes (`/create`, `/accept`, `/reject`, `/leave`, `/editgroup`,
 * `/addexpense` and the `/mygroups`, `/invitations`, `/groupbalance` queries)
 * as one store of tables whose rows the routes create and update in place.
 * The requester is the id the JWT middleware put in `req.user.id`.
 */
module Groups {
  import opened Common
  import opened Helpers
  import opened Tables
  import opened GroupModel
  import opened ExpenseModel
  import opened Ledger
  import opened Membership

  /** A route's answer: 200 with a value, or 400 with `errorMessage`. */
  datatype Response<T> = Ok(value: T) | Failure(errorMessage: string)

  const SelectValidGroup := "Select a valid group"
  const SelectValidGroupDot := "Select a valid group."
  const NoSuchInvite := "No such invite found."
  const NotSettled := "You cannot leave this group until the group balances are not settled."
  const DuplicateName := "Group with this name already exists."
  const InvalidMembers := "Add only valid users in the group."
  const SelfInvite := "Cannot select yourself as a group member. You will automatically added into the group as you are creating it."
  const SelectValidUsers := "Select valid users"
  const NameRequired := "Group name is required"
  const NameEmpty := "Group name cannot be empty."
  const NameTooLong := "Name of the group should be lesser than 64 characters"
  const UsersRequired := "Select atleast 1 user to form a group"
  const NotAMember := "Enter a valid group"
  const DescriptionRequired := "Enter a description to record the expense."
  const DescriptionTooLong := "Enter a description in less than 64 characters."
  const InvalidExpenseGroup := "Select a valid group for adding expense."
  const AmountRequired := "Enter an amount."
  const InvalidAmount := "Enter a valid amount to record the expense."

  /** The request schema's limit on an expense description (tighter than the column's). */
  const RouteDescriptionMax: nat := 64

  // ---------------------------------------------------------------- request validation

  /**
   * The `name` rule of the `/create` and `/editgroup` schemas. It checks the
   * length only: a name of spaces passes it and is refused later by the
   * model's `notEmpty` validator.
   */
  function NameError(name: Option<string>): (r: Option<string>)
    ensures r.None? <==> name.Some? && 1 <= |name.value| <= NameMaxLength
    ensures r.None? ==> (NameValid(name.value) <==> NotEmptyError(name.value).None?)
    ensures name.None? ==> r == Some(NameRequired)
    ensures name == Some("") ==> r == Some(NameEmpty)
    ensures name.Some? && |name.value| > NameMaxLength ==> r == Some(NameTooLong)
  {
    if name.None? then Some(NameRequired)
    else if name.value == "" then Some(NameEmpty)
    else if |name.value| > NameMaxLength then Some(NameTooLong)
    else None
  }

  /** The `description` rule of the `/addexpense` schema; what it accepts also fits the column. */
  function DescriptionError(d: Option<string>): (r: Option<string>)
    ensures r.None? <==> d.Some? && 1 <= |d.value| <= RouteDescriptionMax
    ensures r.None? ==> DescriptionValid(d.value)
    ensures (d.None? || d == Some("")) ==> r == Some(DescriptionRequired)
    ensures d.Some? && |d.value| > RouteDescriptionMax ==> r == Some(DescriptionTooLong)
  {
    if d.None? || d.value == "" then Some(DescriptionRequired)
    else if |d.value| > RouteDescriptionMax then Some(DescriptionTooLong)
    else None
  }

  /** The `amount` rule of the `/addexpense` schema; what it accepts also passes the column's validator. */
  function AmountRuleError(a: Option<real>): (r: Option<string>)
    ensures r.None? <==> a.Some? && a.value > 0.0
    ensures r.None? ==> AmountError(a.value).None?
    ensures a.None? ==> r == Some(AmountRequired)
    ensures a.Some? && a.value <= 0.0 ==> r == Some(InvalidAmount)
  {
    if a.None? then Some(AmountRequired)
    else if a.value <= 0.0 then Some(InvalidAmount)
    else None
  }

  /** `Array.from(new Set(ids))`: first occurrences, in order. */
  function Dedupe(ids: seq<int>): (r: seq<int>)
    ensures Distinct(r)
    ensures forall x :: x in r <==> x in ids
    decreases |ids|
  {
    if ids == [] then []
    else
      var pre := Dedupe(ids[..|ids| - 1]);
      var last := ids[|ids| - 1];
      assert ids == ids[..|ids| - 1] + [last];
      if last in pre then pre else pre + [last]
  }

  /** Applies `number` (the source's `Number`) to each piece. */
  function MapNumber(pieces: seq<string>, number: string -> int): (r: seq<int>)
    ensures |r| == |pieces| && forall i :: 0 <= i < |pieces| ==> r[i] == number(pieces[i])
    decreases |pieces|
  {
    if pieces == [] then [] else MapNumber(pieces[..|pieces| - 1], number) + [number(pieces[|pieces| - 1])]
  }

  /** The invitees of `/create`: the comma-separated field split, converted and de-duplicated. */
  function InviteeIds(users: string, number: string -> int): (r: seq<UserId>)
    ensures Distinct(r)
    ensures forall u :: u in r <==> u in MapNumber(Split(users, ','), number)
  {
    Dedupe(MapNumber(Split(users, ','), number))
  }

  /** Every id names an existing user. */
  predicate AllUsersExist(ids: seq<UserId>, nUsers: nat) {
    forall u :: u in ids ==> 1 <= u <= nUsers
  }

  /** The group ids 1..n whose row for u has status st, newest (highest id) first. */
  function GroupIdsWith(members: seq<Member>, n: nat, u: UserId, st: Status): (r: seq<GroupId>)
    ensures forall g :: g in r <==> 1 <= g <= n && HasRow(members, g, u, st)
    ensures forall i, j :: 0 <= i < j < |r| ==> r[i] > r[j]
    decreases n
  {
    if n == 0 then []
    else
      var rest := GroupIdsWith(members, n - 1, u, st);
      assert forall j :: 0 <= j < |rest| ==> rest[j] in rest;
      if FindRow(members, n, u, st).Some? then [n] + rest else rest
  }

  // ---------------------------------------------------------------- the store invariant

  /** Every group has a valid name and was created by an existing user. */
  predicate GroupRowsValid(groups: seq<Group>, nUsers: nat) {
    forall i :: 0 <= i < |groups| ==> NameValid(groups[i].name) && 1 <= groups[i].createdBy <= nUsers
  }

  /** The invariant every route keeps, on the tables' values. A group's id is its index plus one; so is a user's. */
  ghost predicate StoreValid(nUsers: nat, groups: seq<Group>, members: seq<Member>, expenses: seq<Expense>,
                             balances: map<BalKey, real>, debts: map<DebtKey, real>, activities: seq<Activity>)
  {
    && MembershipValid(groups, members, nUsers)
    && UniqueNames(groups)
    && GroupRowsValid(groups, nUsers)
    && LedgerValid(nUsers, |groups|, expenses, balances, debts, activities)
  }

  /** A new group with a valid name and an existing creator keeps the group rows valid. */
  lemma GroupRowsAppend(groups: seq<Group>, nUsers: nat, grp: Group)
    requires GroupRowsValid(groups, nUsers)
    requires NameValid(grp.name) && 1 <= grp.createdBy <= nUsers
    ensures GroupRowsValid(groups + [grp], nUsers)
  {
    forall i | 0 <= i < |groups| + 1
      ensures NameValid((groups + [grp])[i].name) && 1 <= (groups + [grp])[i].createdBy <= nUsers {
      if i < |groups| {
        assert (groups + [grp])[i] == groups[i];
      }
    }
  }

  /** Replacing group k by a row with the same strength and creator and an untaken valid name keeps the invariant. */
  lemma EditKeepsStoreValid(nUsers: nat, groups: seq<Group>, members: seq<Member>, expenses: seq<Expense>,
                            balances: map<BalKey, real>, debts: map<DebtKey, real>, activities: seq<Activity>,
                            k: nat, grp: Group)
    requires StoreValid(nUsers, groups, members, expenses, balances, debts, activities) && k < |groups|
    requires grp.groupStrength == groups[k].groupStrength && grp.createdBy == groups[k].createdBy
    requires NameValid(grp.name) && !NameTaken(groups, grp.name, Some(k))
    ensures StoreValid(nUsers, groups[k := grp], members, expenses, balances, debts, activities)
  {
    RenameKeepsUnique(groups, k, grp);
  }

  class Store {
    var users: seq<User>
    var groups: seq<Group>
    var members: seq<Member>
    var expenses: seq<Expense>
    var balances: map<BalKey, real>
    var debts: map<DebtKey, real>
    var activities: seq<Activity>

    /** The invariant every route keeps. */
    ghost predicate Valid()
      reads this
    {
      StoreValid(|users|, groups, members, expenses, balances, debts, activities)
    }

    /** The store as the routes first see it: the signed-up users and nothing else. */
    constructor(users: seq<User>)
      ensures Valid()
      ensures this.users == users && groups == [] && members == [] && expenses == []
      ensures balances == map[] && debts == map[] && activities == []
    {
      this.users := users;
      groups := [];
      members := [];
      expenses := [];
      balances := map[];
      debts := map[];
      activities := [];
      new;
      EmptyLedgerValid(|users|, 0);
    }

    // ------------------------------------------------------------ membership

    /**
     * `/create`. The first failing check, in the order the route makes them,
     * answers; on success the group gets strength 1, every distinct invitee an
     * INVITE_SENT row and the creator an INVITE_ACCEPTED row.
     */
    method Create(creator: UserId, name: Option<string>, image: Option<string>,
                  userList: Option<string>, number: string -> int) returns (r: Response<GroupId>)
      requires Valid()
      modifies this`groups, this`members
      ensures Valid()
      ensures userList.None? ==> r == Failure(SelectValidUsers)
      ensures userList.Some? && NameError(name).Some? ==> r == Failure(NameError(name).value)
      ensures userList.Some? && NameError(name).None? && userList.value == "" ==> r == Failure(UsersRequired)
      ensures userList.Some? && NameError(name).None? && userList.value != "" ==>
                var ids := InviteeIds(userList.value, number);
                var blank := NotEmptyError(name.value);
                && (creator in ids ==> r == Failure(SelfInvite))
                && (creator !in ids && blank.Some? ==> r == Failure(NotEmptyMessage))
                && (creator !in ids && blank.None? && NameTaken(old(groups), name.value, None) ==> r == Failure(DuplicateName))
                && ((creator !in ids && blank.None? && !NameTaken(old(groups), name.value, None)
                     && !(1 <= creator <= |users| && AllUsersExist(ids, |users|))) ==> r == Failure(InvalidMembers))
                && (r.Ok? <==> creator !in ids && blank.None? && !NameTaken(old(groups), name.value, None)
                               && 1 <= creator <= |users| && AllUsersExist(ids, |users|))
                && (r.Ok? ==>
                      && r.value == |old(groups)| + 1
                      && groups == old(groups) + [NewGroup(name.value, creator, image)]
                      && members == old(members) + CreatedRows(r.value, ids, creator))
      ensures r.Failure? ==> groups == old(groups) && members == old(members)
      ensures users == old(users) && expenses == old(expenses) && balances == old(balances)
      ensures debts == old(debts) && activities == old(activities)
    {
      if userList.None? {
        return Failure(SelectValidUsers);
      }
      var nameError := NameError(name);
      if nameError.Some? {
        return Failure(nameError.value);
      }
      if userList.value == "" {
        return Failure(UsersRequired);
      }
      var ids := InviteeIds(userList.value, number);
      if creator in ids {
        return Failure(SelfInvite);
      }
      var blank := NotEmptyError(name.value);
      if blank.Some? {
        return Failure(blank.value);
      }
      if NameTaken(groups, name.value, None) {
        return Failure(DuplicateName);
      }
      if !(1 <= creator <= |users| && AllUsersExist(ids, |users|)) {
        return Failure(InvalidMembers);
      }
      var g := InsertGroup(NewGroup(name.value, creator, image), ids);
      r := Ok(g);
    }

    /** The writes of a successful `/create`: the group row, then its member rows. */
    method InsertGroup(grp: Group, ids: seq<UserId>) returns (g: GroupId)
      requires Valid()
      requires grp.groupStrength == 1 && NameValid(grp.name) && !NameTaken(groups, grp.name, None)
      requires 1 <= grp.createdBy <= |users| && AllUsersExist(ids, |users|)
      requires Distinct(ids) && grp.createdBy !in ids
      modifies this`groups, this`members
      ensures Valid()
      ensures g == |old(groups)| + 1
      ensures groups == old(groups) + [grp] && members == old(members) + CreatedRows(g, ids, grp.createdBy)
    {
      g := |groups| + 1;
      var groups' := groups + [grp];
      var members' := members + CreatedRows(g, ids, grp.createdBy);
      CreateKeepsValid(groups, members, |users|, grp, ids, grp.createdBy);
      AppendKeepsUnique(groups, grp);
      GroupRowsAppend(groups, |users|, grp);
      NewGroupKeepsLedgerValid(|users|, |groups|, expenses, balances, debts, activities);
      assert StoreValid(|users|, groups', members', expenses, balances, debts, activities);
      groups, members := groups', members';
    }

    /** `/accept`: only an INVITE_SENT row of the requester becomes INVITE_ACCEPTED, and the strength grows by one. */
    method Accept(requester: UserId, id: int) returns (r: Response<GroupId>)
      requires Valid()
      modifies this`groups, this`members
      ensures Valid()
      ensures id <= 0 ==> r == Failure(SelectValidGroup)
      ensures id > 0 && !HasRow(old(members), id, requester, InviteSent) ==> r == Failure(NoSuchInvite)
      ensures r.Ok? <==> id > 0 && HasRow(old(members), id, requester, InviteSent)
      ensures r.Ok? ==>
                && r.value == id && 1 <= id <= |old(groups)|
                && members == SetStatus(old(members), FindRow(old(members), id, requester, InviteSent).value, InviteAccepted)
                && groups == WithStrength(old(groups), id, old(groups)[id - 1].groupStrength + 1)
                && HasRow(members, id, requester, InviteAccepted)
                && !HasRow(members, id, requester, InviteSent)
      ensures r.Failure? ==> groups == old(groups) && members == old(members)
      ensures users == old(users) && expenses == old(expenses) && balances == old(balances)
      ensures debts == old(debts) && activities == old(activities)
    {
      if id <= 0 {
        return Failure(SelectValidGroup);
      }
      var row := FindRow(members, id, requester, InviteSent);
      if row.None? {
        return Failure(NoSuchInvite);
      }
      var i := row.value;
      var v := groups[id - 1].groupStrength + 1;
      StatusChangeKeepsValid(groups, members, |users|, i, InviteAccepted, v);
      SetStatusDecidesRow(members, i, InviteAccepted, InviteAccepted);
      SetStatusDecidesRow(members, i, InviteAccepted, InviteSent);
      members := SetStatus(members, i, InviteAccepted);
      groups := WithStrength(groups, id, v);
      r := Ok(id);
    }

    /** `/reject`: only an INVITE_SENT row of the requester becomes INVITE_REJECTED; the strength stays. */
    method Reject(requester: UserId, id: int) returns (r: Response<GroupId>)
      requires Valid()
      modifies this`members
      ensures Valid()
      ensures id <= 0 ==> r == Failure(SelectValidGroup)
      ensures id > 0 && !HasRow(old(members), id, requester, InviteSent) ==> r == Failure(NoSuchInvite)
      ensures r.Ok? <==> id > 0 && HasRow(old(members), id, requester, InviteSent)
      ensures r.Ok? ==>
                && r.value == id
                && members == SetStatus(old(members), FindRow(old(members), id, requester, InviteSent).value, InviteRejected)
                && HasRow(members, id, requester, InviteRejected)
                && !HasRow(members, id, requester, InviteSent)
      ensures groups == old(groups)
      ensures r.Failure? ==> members == old(members)
      ensures users == old(users) && expenses == old(expenses) && balances == old(balances)
      ensures debts == old(debts) && activities == old(activities)
    {
      if id <= 0 {
        return Failure(SelectValidGroup);
      }
      var row := FindRow(members, id, requester, InviteSent);
      if row.None? {
        return Failure(NoSuchInvite);
      }
      var i := row.value;
      StatusChangeKeepsValid(groups, members, |users|, i, InviteRejected, groups[id - 1].groupStrength);
      assert WithStrength(groups, id, groups[id - 1].groupStrength) == groups;
      SetStatusDecidesRow(members, i, InviteRejected, InviteRejected);
      SetStatusDecidesRow(members, i, InviteRejected, InviteSent);
      members := SetStatus(members, i, InviteRejected);
      r := Ok(id);
    }

    /**
     * `/leave`: an accepted member with no nonzero balance row in the group, in
     * any currency, becomes LEFT_GROUP and the strength drops by one.
     */
    method Leave(requester: UserId, id: int) returns (r: Response<GroupId>)
      requires Valid()
      modifies this`groups, this`members
      ensures Valid()
      ensures (id <= 0 || !HasRow(old(members), id, requester, InviteAccepted)) ==> r == Failure(SelectValidGroup)
      ensures id > 0 && HasRow(old(members), id, requester, InviteAccepted) && UnsettledRows(balances, id, requester) != {} ==>
                r == Failure(NotSettled)
      ensures r.Ok? <==> id > 0 && HasRow(old(members), id, requester, InviteAccepted) && UnsettledRows(balances, id, requester) == {}
      ensures r.Ok? ==>
                && r.value == id && 1 <= id <= |old(groups)|
                && members == SetStatus(old(members), FindRow(old(members), id, requester, InviteAccepted).value, LeftGroup)
                && groups == WithStrength(old(groups), id, old(groups)[id - 1].groupStrength - 1)
                && !HasRow(members, id, requester, InviteAccepted)
      ensures r.Failure? ==> groups == old(groups) && members == old(members)
      ensures users == old(users) && expenses == old(expenses) && balances == old(balances)
      ensures debts == old(debts) && activities == old(activities)
    {
      if id <= 0 {
        return Failure(SelectValidGroup);
      }
      var row := FindRow(members, id, requester, InviteAccepted);
      if row.None? {
        return Failure(SelectValidGroup);
      }
      if |UnsettledRows(balances, id, requester)| != 0 {
        return Failure(NotSettled);
      }
      var i := row.value;
      var v := groups[id - 1].groupStrength - 1;
      StatusChangeKeepsValid(groups, members, |users|, i, LeftGroup, v);
      SetStatusDecidesRow(members, i, LeftGroup, InviteAccepted);
      members := SetStatus(members, i, LeftGroup);
      groups := WithStrength(groups, id, v);
      r := Ok(id);
    }

    /** `/editgroup`: an accepted member renames the group (names stay unique) and, when one is given, replaces its image. */
    method EditGroup(requester: UserId, id: int, name: Option<string>, image: Option<string>) returns (r: Response<GroupId>)
      requires Valid()
      modifies this`groups
      ensures Valid()
      ensures NameError(name).Some? ==> r == Failure(NameError(name).value)
      ensures NameError(name).None? && (id <= 0 || !HasRow(old(members), id, requester, InviteAccepted)) ==>
                r == Failure(SelectValidGroup)
      ensures (NameError(name).None? && id > 0 && HasRow(old(members), id, requester, InviteAccepted)
               && NotEmptyError(name.value).Some?) ==> r == Failure(NotEmptyMessage)
      ensures (NameError(name).None? && id > 0 && HasRow(old(members), id, requester, InviteAccepted)
               && NotEmptyError(name.value).None? && NameTaken(old(groups), name.value, Some(id - 1))) ==>
                r == Failure(DuplicateName)
      ensures r.Ok? <==> NameError(name).None? && id > 0 && HasRow(old(members), id, requester, InviteAccepted)
                         && NotEmptyError(name.value).None? && !NameTaken(old(groups), name.value, Some(id - 1))
      ensures r.Ok? ==>
                && r.value == id && 1 <= id <= |old(groups)|
                && groups == old(groups)[id - 1 := old(groups)[id - 1].(name := name.value,
                                                   image := if image.Some? then image else old(groups)[id - 1].image)]
                && ValidGroup(groups[id - 1])
      ensures r.Failure? ==> groups == old(groups)
      ensures users == old(users) && members == old(members) && expenses == old(expenses)
      ensures balances == old(balances) && debts == old(debts) && activities == old(activities)
    {
      var nameError := NameError(name);
      if nameError.Some? {
        return Failure(nameError.value);
      }
      if id <= 0 {
        return Failure(SelectValidGroup);
      }
      var row := FindRow(members, id, requester, InviteAccepted);
      if row.None? {
        return Failure(SelectValidGroup);
      }
      var blank := NotEmptyError(name.value);
      if blank.Some? {
        return Failure(blank.value);
      }
      if NameTaken(groups, name.value, Some(id - 1)) {
        return Failure(DuplicateName);
      }
      assert requester in AcceptedUsers(members, id);
      AcceptedUsersCount(members, id);
      var grp := groups[id - 1].(name := name.value);
      if image.Some? {
        grp := grp.(image := image);
      }
      EditKeepsStoreValid(|users|, groups, members, expenses, balances, debts, activities, id - 1, grp);
      groups := groups[id - 1 := grp];
      r := Ok(id);
    }

    // ------------------------------------------------------------ queries

    /** `/mygroups`: the groups where the requester's row is INVITE_ACCEPTED, newest first. */
    function MyGroups(requester: UserId): (r: seq<GroupId>)
      reads this
      ensures forall g :: g in r <==> 1 <= g <= |groups| && HasRow(members, g, requester, InviteAccepted)
      ensures forall i, j :: 0 <= i < j < |r| ==> r[i] > r[j]
    {
      GroupIdsWith(members, |groups|, requester, InviteAccepted)
    }

    /** `/invitations`: the groups where the requester's row is INVITE_SENT, newest first. */
    function Invitations(requester: UserId): (r: seq<GroupId>)
      reads this
      ensures forall g :: g in r <==> 1 <= g <= |groups| && HasRow(members, g, requester, InviteSent)
      ensures forall i, j :: 0 <= i < j < |r| ==> r[i] > r[j]
    {
      GroupIdsWith(members, |groups|, requester, InviteSent)
    }

    /** `/groupbalance/:id`: for an accepted member, every nonzero balance row of the group. */
    function GroupBalances(requester: UserId, id: int): (r: Response<map<BalKey, real>>)
      reads this
      ensures r.Failure? <==> id <= 0 || !HasRow(members, id, requester, InviteAccepted)
      ensures r.Failure? ==> r.errorMessage == (if id <= 0 then SelectValidGroup else SelectValidGroupDot)
      ensures r.Ok? ==> forall k :: k in r.value <==> k in balances && k.groupId == id && balances[k] != 0.0
      ensures r.Ok? ==> forall k :: k in r.value ==> r.value[k] == balances[k]
    {
      if id <= 0 then Failure(SelectValidGroup)
      else if FindRow(members, id, requester, InviteAccepted).None? then Failure(SelectValidGroupDot)
      else Ok(map k | k in balances && k.groupId == id && balances[k] != 0.0 :: balances[k])
    }

    // ------------------------------------------------------------ the ledger

    /**
     * `/addexpense`: an accepted member records an expense in its own currency,
     * split equally by the group's strength. The balance, debt and activity
     * tables become the ledger functions of the old ones, which keep the
     * ledger invariant.
     */
    method AddExpense(requester: UserId, description: Option<string>, groupId: int, amount: Option<real>)
      returns (r: Response<ExpenseId>)
      requires Valid()
      modifies this`expenses, this`balances, this`debts, this`activities
      ensures Valid()
      ensures DescriptionError(description).Some? ==> r == Failure(DescriptionError(description).value)
      ensures DescriptionError(description).None? && groupId < 1 ==> r == Failure(InvalidExpenseGroup)
      ensures DescriptionError(description).None? && groupId >= 1 && AmountRuleError(amount).Some? ==>
                r == Failure(AmountRuleError(amount).value)
      ensures (DescriptionError(description).None? && groupId >= 1 && AmountRuleError(amount).None?
               && !HasRow(old(members), groupId, requester, InviteAccepted)) ==> r == Failure(NotAMember)
      ensures r.Ok? <==> DescriptionError(description).None? && groupId >= 1 && AmountRuleError(amount).None?
                         && HasRow(old(members), groupId, requester, InviteAccepted)
      ensures r.Failure? ==> expenses == old(expenses) && balances == old(balances) && debts == old(debts)
                             && activities == old(activities)
      ensures r.Ok? ==>
                && 1 <= requester <= |users| && 1 <= groupId <= |groups| && groups[groupId - 1].groupStrength >= 1
                && var c := users[requester - 1].currencyId;
                   var n := groups[groupId - 1].groupStrength;
                   var share := Share(amount.value, n);
                   var others := Without(AcceptedUsers(members, groupId), requester);
                   var e := NewExpense(description.value, amount.value, groupId, requester, c);
                   && n == |others| + 1
                   && expenses == old(expenses) + [e] && r.value == |expenses|
                   && balances == BalancesAfter(old(balances), groupId, c, requester, others, share, n)
                   && debts == DebtsAfter(old(debts), groupId, c, requester, others, share)
                   && activities == ActivitiesAfter(old(activities), old(expenses), e, others, share, n)
      ensures r.Ok? ==> ValidExpense(expenses[|expenses| - 1])
      ensures users == old(users) && groups == old(groups) && members == old(members)
    {
      var descriptionError := DescriptionError(description);
      if descriptionError.Some? {
        return Failure(descriptionError.value);
      }
      if groupId < 1 {
        return Failure(InvalidExpenseGroup);
      }
      var amountError := AmountRuleError(amount);
      if amountError.Some? {
        return Failure(amountError.value);
      }
      if FindRow(members, groupId, requester, InviteAccepted).None? {
        return Failure(NotAMember);
      }
      var nUsers, nGroups := |users|, |groups|;
      var row := FindRow(members, groupId, requester, InviteAccepted).value;
      assert members[row] == Member(groupId, requester, InviteAccepted);
      assert 1 <= groupId <= nGroups && 1 <= requester <= nUsers;
      var accepted := AcceptedUsers(members, groupId);
      assert requester in accepted;
      AcceptedUsersCount(members, groupId);
      AcceptedUsersDistinct(members, groupId);
      WithoutOne(accepted, requester);
      var others := Without(accepted, requester);
      assert forall u :: u in others ==> 1 <= u <= nUsers by {
        forall u | u in others ensures 1 <= u <= nUsers {
          var j :| 0 <= j < |members| && members[j] == Member(groupId, u, InviteAccepted);
        }
      }

      var c := users[requester - 1].currencyId;
      var n := groups[groupId - 1].groupStrength;
      var e := NewExpense(description.value, amount.value, groupId, requester, c);
      RecordExpense(e, others, n, nUsers, nGroups);
      r := Ok(|expenses|);
    }

    /**
     * The transaction of `/addexpense` once the checks have passed: the expense
     * row, then the three `forEach` passes, each met by its ledger function.
     */
    method RecordExpense(e: Expense, others: seq<UserId>, n: int, ghost nUsers: nat, ghost nGroups: nat)
      requires LedgerValid(nUsers, nGroups, expenses, balances, debts, activities)
      requires 1 <= e.groupId <= nGroups && 1 <= e.paidByUserId <= nUsers
      requires Distinct(others) && e.paidByUserId !in others && forall x :: x in others ==> 1 <= x <= nUsers
      requires n == |others| + 1
      modifies this`expenses, this`balances, this`debts, this`activities
      ensures var share := Share(e.amount, n);
              && expenses == old(expenses) + [e]
              && balances == BalancesAfter(old(balances), e.groupId, e.currencyId, e.paidByUserId, others, share, n)
              && debts == DebtsAfter(old(debts), e.groupId, e.currencyId, e.paidByUserId, others, share)
              && activities == ActivitiesAfter(old(activities), old(expenses), e, others, share, n)
      ensures LedgerValid(nUsers, nGroups, expenses, balances, debts, activities)
    {
      ExpenseKeepsLedgerValid(nUsers, nGroups, expenses, balances, debts, activities, e, others, n);
      var share := e.amount / (n as real);
      expenses := expenses + [e];
      UpdateBalances(e.groupId, e.currencyId, e.paidByUserId, others, share, n);
      RecordDebtRows(e.groupId, e.currencyId, e.paidByUserId, others, share);
      RecordActivityRows(e.groupId, e.currencyId, e.paidByUserId, |expenses|, share, n, others + [e.paidByUserId]);
    }

    /** The first `forEach` of `/addexpense`: find-or-create each other member's row and charge it one share. */
    method ChargeMembers(groupId: GroupId, c: CurrencyId, others: seq<UserId>, share: real)
      modifies this`balances
      ensures balances == ChargeAll(old(balances), groupId, c, others, -1.0 * share)
    {
      var i := 0;
      while i < |others|
        invariant 0 <= i <= |others|
        invariant balances == ChargeAll(old(balances), groupId, c, others[..i], -1.0 * share)
      {
        var k := BalKey(groupId, others[i], c);
        if k in balances {
          balances := balances[k := balances[k] - share];
        } else {
          balances := balances[k := -1.0 * share];
        }
        assert others[..i + 1][..i] == others[..i];
        i := i + 1;
      }
      assert others[..|others|] == others;
    }

    /** The balance updates of `/addexpense`: the other members' rows, then the payer's, credited n - 1 shares. */
    method UpdateBalances(groupId: GroupId, c: CurrencyId, payer: UserId, others: seq<UserId>, share: real, n: int)
      modifies this`balances
      ensures balances == BalancesAfter(old(balances), groupId, c, payer, others, share, n)
    {
      ChargeMembers(groupId, c, others, share);
      var k := BalKey(groupId, payer, c);
      if k in balances {
        balances := balances[k := balances[k] + share * ((n - 1) as real)];
      } else {
        balances := balances[k := share * ((n - 1) as real)];
      }
    }

    /** The second `forEach`: find-or-create the canonical row between the payer and each other member and add the signed share. */
    method RecordDebtRows(groupId: GroupId, c: CurrencyId, payer: UserId, others: seq<UserId>, share: real)
      modifies this`debts
      ensures debts == RecordDebts(old(debts), groupId, c, payer, others, share)
    {
      var i := 0;
      while i < |others|
        invariant 0 <= i <= |others|
        invariant debts == RecordDebts(old(debts), groupId, c, payer, others[..i], share)
      {
        var u := others[i];
        var u1, u2, amt := if payer < u then payer else u, if payer < u then u else payer,
                           if payer < u then share else -1.0 * share;
        var k := DebtKey(u1, u2, groupId, c);
        if k in debts {
          debts := debts[k := debts[k] + amt];
        } else {
          debts := debts[k := amt];
        }
        assert others[..i + 1][..i] == others[..i];
        i := i + 1;
      }
      assert others[..|others|] == others;
    }

    /** The third `forEach`, over the other members and then the payer: one activity row each. */
    method RecordActivityRows(groupId: GroupId, c: CurrencyId, payer: UserId, eid: ExpenseId,
                              share: real, n: int, parts: seq<UserId>)
      modifies this`activities
      ensures activities == RecordActivities(old(activities), expenses, groupId, c, payer, eid, share, n, parts)
    {
      var exps := expenses;
      var acts := activities;
      var i := 0;
      while i < |parts|
        invariant 0 <= i <= |parts|
        invariant acts == RecordActivities(old(activities), exps, groupId, c, payer, eid, share, n, parts[..i])
      {
        var u := parts[i];
        var delta := if u != payer then -1.0 * share else ((n - 1) as real) * share;
        var recent := LastActivity(acts, u, c);
        var row;
        if recent.None? {
          row := Activity(u, c, eid, delta, delta, delta);
        } else {
          var groupRecent := LastGroupActivity(acts, exps, u, groupId, c);
          var groupBalance := if groupRecent.None? then delta else acts[groupRecent.value].groupBalance + delta;
          row := Activity(u, c, eid, acts[recent.value].totalBalance + delta, groupBalance, delta);
        }
        assert row == NewActivity(acts, exps, groupId, c, payer, eid, share, n, u);
        acts := acts + [row];
        assert parts[..i + 1][..i] == parts[..i];
        i := i + 1;
      }
      assert parts[..|parts|] == parts;
      activities := acts;
    }
  }
}
