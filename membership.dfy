/**
 * The invariant the membership routes keep between the group table and the
 * member table: rows point at existing groups and users, there is at most one
 * row per (group, user), and every group's `groupStrength` counts its
 * INVITE_ACCEPTED rows.
 */
module Membership {
  import opened Common
  import opened Helpers
  import opened Tables
  import opened GroupModel

  /** Every row refers to an existing group and user (the two foreign keys of `member`). */
  predicate MembersInRange(members: seq<Member>, nUsers: nat, nGroups: nat) {
    forall i :: 0 <= i < |members| ==>
      1 <= members[i].groupId <= nGroups && 1 <= members[i].userId <= nUsers
  }

  /** Group id g is stored at index g - 1. */
  predicate StrengthsMatch(groups: seq<Group>, members: seq<Member>) {
    forall i :: 0 <= i < |groups| ==> groups[i].groupStrength == AcceptedCount(members, i + 1)
  }

  predicate MembershipValid(groups: seq<Group>, members: seq<Member>, nUsers: nat) {
    MembersInRange(members, nUsers, |groups|) && UniqueMemberships(members) && StrengthsMatch(groups, members)
  }

  /** The first row (g, u, st), as `findOne` returns it. */
  function FindRow(members: seq<Member>, g: GroupId, u: UserId, st: Status): (r: Option<nat>)
    ensures r.Some? ==> r.value < |members| && members[r.value] == Member(g, u, st)
    ensures r.Some? ==> forall j :: 0 <= j < r.value ==> members[j] != Member(g, u, st)
    ensures r.None? <==> !HasRow(members, g, u, st)
    decreases |members|
  {
    if members == [] then None
    else if members[0] == Member(g, u, st) then Some(0)
    else
      var r := FindRow(members[1..], g, u, st);
      assert HasRow(members, g, u, st) ==> HasRow(members[1..], g, u, st) by {
        if HasRow(members, g, u, st) {
          var i :| 0 <= i < |members| && members[i] == Member(g, u, st);
          assert members[1..][i - 1] == members[i];
        }
      }
      if r.None? then None
      else
        assert members[r.value + 1] == members[1..][r.value];
        Some(r.value + 1)
  }

  /** The group table with the strength of group g set to v. */
  function WithStrength(groups: seq<Group>, g: GroupId, v: int): (r: seq<Group>)
    requires 1 <= g <= |groups|
    ensures |r| == |groups| && r[g - 1] == groups[g - 1].(groupStrength := v)
    ensures forall i :: 0 <= i < |groups| && i != g - 1 ==> r[i] == groups[i]
  {
    groups[g - 1 := groups[g - 1].(groupStrength := v)]
  }

  /**
   * Changing the status of row i and moving its group's strength by the change
   * in that group's accepted rows keeps the invariant.
   */
  lemma StatusChangeKeepsValid(groups: seq<Group>, members: seq<Member>, nUsers: nat, i: nat, st: Status, v: int)
    requires MembershipValid(groups, members, nUsers) && i < |members|
    requires v == groups[members[i].groupId - 1].groupStrength
                  - (if members[i].status == InviteAccepted then 1 else 0)
                  + (if st == InviteAccepted then 1 else 0)
    ensures MembershipValid(WithStrength(groups, members[i].groupId, v), SetStatus(members, i, st), nUsers)
  {
    var members' := SetStatus(members, i, st);
    var groups' := WithStrength(groups, members[i].groupId, v);
    SetStatusKeepsUnique(members, i, st);
    forall j | 0 <= j < |groups'| ensures groups'[j].groupStrength == AcceptedCount(members', j + 1) {
      SetStatusCount(members, i, st, j + 1);
    }
    forall j | 0 <= j < |members'|
      ensures 1 <= members'[j].groupId <= |groups'| && 1 <= members'[j].userId <= nUsers {
      assert members'[j].groupId == members[j].groupId && members'[j].userId == members[j].userId;
    }
  }

  /** The INVITE_SENT rows `create` writes for the invitees of group g. */
  function InviteRows(g: GroupId, ids: seq<UserId>): (r: seq<Member>)
    ensures |r| == |ids| && forall i :: 0 <= i < |ids| ==> r[i] == Member(g, ids[i], InviteSent)
    decreases |ids|
  {
    if ids == [] then [] else InviteRows(g, ids[..|ids| - 1]) + [Member(g, ids[|ids| - 1], InviteSent)]
  }

  /** Invitations are not acceptances. */
  lemma {:induction false} InviteRowsCount(g: GroupId, ids: seq<UserId>, g': GroupId)
    ensures AcceptedCount(InviteRows(g, ids), g') == 0
    decreases |ids|
  {
    if ids != [] {
      var r := InviteRows(g, ids);
      assert r[..|r| - 1] == InviteRows(g, ids[..|ids| - 1]);
      InviteRowsCount(g, ids[..|ids| - 1], g');
    }
  }

  /** The rows `create` writes for new group g: one INVITE_SENT per invitee, then the creator's INVITE_ACCEPTED row. */
  function CreatedRows(g: GroupId, ids: seq<UserId>, creator: UserId): seq<Member> {
    InviteRows(g, ids) + [Member(g, creator, InviteAccepted)]
  }

  /** The new group's rows: exactly the invitees as INVITE_SENT and the creator as INVITE_ACCEPTED. */
  lemma CreatedRowsContent(g: GroupId, ids: seq<UserId>, creator: UserId, u: UserId, st: Status)
    ensures HasRow(CreatedRows(g, ids, creator), g, u, st) <==>
            (u in ids && st == InviteSent) || (u == creator && st == InviteAccepted)
  {
    var rows := CreatedRows(g, ids, creator);
    if u in ids && st == InviteSent {
      var k :| 0 <= k < |ids| && ids[k] == u;
      assert rows[k] == Member(g, u, st);
    }
    assert rows[|rows| - 1] == Member(g, creator, InviteAccepted);
  }

  /** The new group's strength 1 counts the creator's row; every older group's count is unchanged. */
  lemma CreateKeepsStrengths(groups: seq<Group>, members: seq<Member>, nUsers: nat, grp: Group,
                             ids: seq<UserId>, creator: UserId)
    requires MembershipValid(groups, members, nUsers) && grp.groupStrength == 1
    ensures StrengthsMatch(groups + [grp], members + CreatedRows(|groups| + 1, ids, creator))
  {
    var g := |groups| + 1;
    var rows := CreatedRows(g, ids, creator);
    var members' := members + rows;
    var groups' := groups + [grp];
    assert forall k :: 0 <= k < |rows| ==> rows[k].groupId == g;
    forall j | 0 <= j < |groups'| ensures groups'[j].groupStrength == AcceptedCount(members', j + 1) {
      AcceptedCountAppend(members, rows, j + 1);
      AcceptedCountAppend(InviteRows(g, ids), [Member(g, creator, InviteAccepted)], j + 1);
      InviteRowsCount(g, ids, j + 1);
      if j < |groups| {
        assert groups'[j] == groups[j];
        AcceptedCountAbsent(rows, j + 1);
      } else {
        AcceptedCountAbsent(members, g);
        assert [Member(g, creator, InviteAccepted)][..0] == [];
      }
    }
  }

  /** The new rows are all in the new group and name distinct users. */
  lemma CreateKeepsUnique(groups: seq<Group>, members: seq<Member>, nUsers: nat,
                          ids: seq<UserId>, creator: UserId)
    requires MembershipValid(groups, members, nUsers)
    requires Distinct(ids) && creator !in ids
    ensures UniqueMemberships(members + CreatedRows(|groups| + 1, ids, creator))
  {
    var rows := CreatedRows(|groups| + 1, ids, creator);
    var members' := members + rows;
    forall a, b | 0 <= a < b < |members'| && members'[a].groupId == members'[b].groupId
      ensures members'[a].userId != members'[b].userId {
      if b < |members| {
        assert members'[a] == members[a] && members'[b] == members[b];
      } else if a < |members| {
        assert false;
      } else {
        assert members'[a] == rows[a - |members|] && members'[b] == rows[b - |members|];
        if b - |members| < |ids| {
          assert ids[a - |members|] != ids[b - |members|];
        }
      }
    }
  }

  /**
   * Creating group |groups| + 1 with strength 1, distinct invitees that exclude
   * the creator, and existing users only, keeps the invariant.
   */
  lemma CreateKeepsValid(groups: seq<Group>, members: seq<Member>, nUsers: nat, grp: Group,
                         ids: seq<UserId>, creator: UserId)
    requires MembershipValid(groups, members, nUsers)
    requires Distinct(ids) && creator !in ids
    requires 1 <= creator <= nUsers && forall u :: u in ids ==> 1 <= u <= nUsers
    requires grp.groupStrength == 1
    ensures MembershipValid(groups + [grp], members + CreatedRows(|groups| + 1, ids, creator), nUsers)
  {
    var rows := CreatedRows(|groups| + 1, ids, creator);
    var members' := members + rows;
    CreateKeepsStrengths(groups, members, nUsers, grp, ids, creator);
    CreateKeepsUnique(groups, members, nUsers, ids, creator);
    forall k | 0 <= k < |members'|
      ensures 1 <= members'[k].groupId <= |groups| + 1 && 1 <= members'[k].userId <= nUsers {
      if k >= |members| {
        assert members'[k] == rows[k - |members|];
        if k - |members| < |ids| {
          assert ids[k - |members|] in ids;
        }
      }
    }
  }
}
