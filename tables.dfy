/** The user and member rows the core reads and writes. */
module Tables {
  import opened Common
  import opened Helpers

  /** A user row (signed up elsewhere); only the columns the core reads. */
  datatype User = User(name: string, email: string, currencyId: CurrencyId)

  /** A member row: one per (group, user), whose status is changed in place. */
  datatype Member = Member(groupId: GroupId, userId: UserId, status: Status)

  /** Whether the table holds the row (g, u, st). */
  predicate HasRow(members: seq<Member>, g: GroupId, u: UserId, st: Status) {
    exists i :: 0 <= i < |members| && members[i] == Member(g, u, st)
  }

  lemma HasRowSnoc(members: seq<Member>, x: Member, g: GroupId, u: UserId, st: Status)
    ensures HasRow(members + [x], g, u, st) <==> HasRow(members, g, u, st) || x == Member(g, u, st)
  {
    if HasRow(members + [x], g, u, st) && x != Member(g, u, st) {
      var i :| 0 <= i < |members| + 1 && (members + [x])[i] == Member(g, u, st);
      assert members[i] == Member(g, u, st);
    }
    if HasRow(members, g, u, st) {
      var i :| 0 <= i < |members| && members[i] == Member(g, u, st);
      assert (members + [x])[i] == Member(g, u, st);
    }
    assert (members + [x])[|members|] == x;
  }

  /** The users of group g whose row is INVITE_ACCEPTED, in table order. */
  function AcceptedUsers(members: seq<Member>, g: GroupId): (r: seq<UserId>)
    ensures forall u :: u in r <==> HasRow(members, g, u, InviteAccepted)
    decreases |members|
  {
    if members == [] then []
    else
      var pre := members[..|members| - 1];
      var last := members[|members| - 1];
      assert members == pre + [last];
      assert forall u :: HasRow(members, g, u, InviteAccepted) <==>
        HasRow(pre, g, u, InviteAccepted) || last == Member(g, u, InviteAccepted) by {
        forall u ensures HasRow(members, g, u, InviteAccepted) <==>
          HasRow(pre, g, u, InviteAccepted) || last == Member(g, u, InviteAccepted) {
          HasRowSnoc(pre, last, g, u, InviteAccepted);
        }
      }
      if last.groupId == g && last.status == InviteAccepted
      then AcceptedUsers(pre, g) + [last.userId]
      else AcceptedUsers(pre, g)
  }

  /** The number of INVITE_ACCEPTED rows of group g. */
  function AcceptedCount(members: seq<Member>, g: GroupId): nat
    decreases |members|
  {
    if members == [] then 0
    else
      var last := members[|members| - 1];
      AcceptedCount(members[..|members| - 1], g) + (if last.groupId == g && last.status == InviteAccepted then 1 else 0)
  }

  /** There is one accepted user per accepted row. */
  lemma {:induction false} AcceptedUsersCount(members: seq<Member>, g: GroupId)
    ensures |AcceptedUsers(members, g)| == AcceptedCount(members, g)
    decreases |members|
  {
    if members != [] {
      AcceptedUsersCount(members[..|members| - 1], g);
    }
  }

  /** Counting the rows of two tables put end to end. */
  lemma {:induction false} AcceptedCountAppend(a: seq<Member>, b: seq<Member>, g: GroupId)
    ensures AcceptedCount(a + b, g) == AcceptedCount(a, g) + AcceptedCount(b, g)
    decreases |b|
  {
    if b == [] {
      assert a + b == a;
    } else {
      var b' := b[..|b| - 1];
      assert (a + b)[..|a + b| - 1] == a + b';
      var last := b[|b| - 1];
      assert (a + b)[|a + b| - 1] == last;
      var d := if last.groupId == g && last.status == InviteAccepted then 1 else 0;
      assert AcceptedCount(a + b, g) == AcceptedCount(a + b', g) + d;
      assert AcceptedCount(b, g) == AcceptedCount(b', g) + d;
      AcceptedCountAppend(a, b', g);
    }
  }

  /** A table with no row for g counts no accepted member of g. */
  lemma {:induction false} AcceptedCountAbsent(members: seq<Member>, g: GroupId)
    requires forall i :: 0 <= i < |members| ==> members[i].groupId != g
    ensures AcceptedCount(members, g) == 0
    decreases |members|
  {
    if members != [] {
      AcceptedCountAbsent(members[..|members| - 1], g);
    }
  }

  /** At most one row per (group, user): rows are only ever added by group creation. */
  predicate UniqueMemberships(members: seq<Member>) {
    forall i, j :: 0 <= i < j < |members| && members[i].groupId == members[j].groupId ==>
      members[i].userId != members[j].userId
  }

  lemma {:induction false} AcceptedUsersDistinct(members: seq<Member>, g: GroupId)
    requires UniqueMemberships(members)
    ensures Distinct(AcceptedUsers(members, g))
    decreases |members|
  {
    if members != [] {
      var pre := members[..|members| - 1];
      var last := members[|members| - 1];
      assert UniqueMemberships(pre);
      AcceptedUsersDistinct(pre, g);
      if last.groupId == g && last.status == InviteAccepted {
        assert last.userId !in AcceptedUsers(pre, g);
      }
    }
  }

  /** The table with the status of row i changed in place (`membership.status = ...; save()`). */
  function SetStatus(members: seq<Member>, i: nat, st: Status): (r: seq<Member>)
    requires i < |members|
    ensures |r| == |members| && r[i] == Member(members[i].groupId, members[i].userId, st)
    ensures forall j :: 0 <= j < |members| && j != i ==> r[j] == members[j]
  {
    members[i := members[i].(status := st)]
  }

  /** Changing one row's status moves only that group's count, by the change in that row. */
  lemma {:induction false} SetStatusCount(members: seq<Member>, i: nat, st: Status, g: GroupId)
    requires i < |members|
    ensures AcceptedCount(SetStatus(members, i, st), g) ==
            AcceptedCount(members, g)
            - (if members[i].groupId == g && members[i].status == InviteAccepted then 1 else 0)
            + (if members[i].groupId == g && st == InviteAccepted then 1 else 0)
    decreases |members|
  {
    var n := |members|;
    var r := SetStatus(members, i, st);
    if i == n - 1 {
      assert r[..n - 1] == members[..n - 1];
    } else {
      assert r[..n - 1] == SetStatus(members[..n - 1], i, st);
      SetStatusCount(members[..n - 1], i, st, g);
    }
  }

  lemma SetStatusKeepsUnique(members: seq<Member>, i: nat, st: Status)
    requires i < |members| && UniqueMemberships(members)
    ensures UniqueMemberships(SetStatus(members, i, st))
  {
    var r := SetStatus(members, i, st);
    forall a, b | 0 <= a < b < |r| && r[a].groupId == r[b].groupId ensures r[a].userId != r[b].userId {
      assert members[a].groupId == r[a].groupId && members[a].userId == r[a].userId;
      assert members[b].groupId == r[b].groupId && members[b].userId == r[b].userId;
    }
  }

  /** After the update, the (group, user) of row i has the new status and no other: repeating the operation finds no row. */
  lemma SetStatusDecidesRow(members: seq<Member>, i: nat, st: Status, s: Status)
    requires i < |members| && UniqueMemberships(members)
    ensures HasRow(SetStatus(members, i, st), members[i].groupId, members[i].userId, s) <==> s == st
  {
    var r := SetStatus(members, i, st);
    var (g, u) := (members[i].groupId, members[i].userId);
    if HasRow(r, g, u, s) {
      var j :| 0 <= j < |r| && r[j] == Member(g, u, s);
      assert j == i;
    }
    if s == st {
      assert r[i] == Member(g, u, s);
    }
  }

  /** `ids` without `x`, order kept (`.filter((userId) => userId != req.user.id)`). */
  function Without(ids: seq<UserId>, x: UserId): (r: seq<UserId>)
    ensures forall y :: y in r <==> y in ids && y != x
    decreases |ids|
  {
    if ids == [] then []
    else
      var pre := Without(ids[..|ids| - 1], x);
      assert ids == ids[..|ids| - 1] + [ids[|ids| - 1]];
      if ids[|ids| - 1] == x then pre else pre + [ids[|ids| - 1]]
  }

  /** Removing a member of a repetition-free list removes exactly one element. */
  lemma {:induction false} WithoutOne(ids: seq<UserId>, x: UserId)
    requires Distinct(ids)
    ensures Distinct(Without(ids, x))
    ensures |Without(ids, x)| == if x in ids then |ids| - 1 else |ids|
    decreases |ids|
  {
    if ids != [] {
      var pre := ids[..|ids| - 1];
      var last := ids[|ids| - 1];
      assert ids == pre + [last];
      assert Distinct(pre);
      WithoutOne(pre, x);
      assert last !in pre;
    }
  }
}
