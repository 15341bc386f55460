/**
 * The two search endpoints: users whose name or email contains a keyword,
 * and the requester's groups whose name contains it; both capped at the
 * global search limit.
 */
module Search {
  import opened Common
  import opened Helpers
  import opened Tables
  import opened GroupModel

  /** The configured `searchLimit`. */
  const SearchLimit: nat := 10

  /** The body of a 200 answer: a `users` list or a `groups` list of row ids. */
  datatype SearchResponse = Users(users: seq<UserId>) | Groups(groups: seq<GroupId>)

  /** The keyword check: present, a string, at least one character. */
  predicate ValidKeyword(keyword: Option<string>) {
    keyword.Some? && |keyword.value| >= 1
  }

  /** `s LIKE '%sub%'`: `sub` occurs somewhere in `s`. */
  function Contains(s: string, sub: string): bool
    decreases |s|
  {
    if |sub| <= |s| && s[..|sub|] == sub then true
    else if s == [] then false
    else Contains(s[1..], sub)
  }

  /** `sub` occupies positions i .. i + |sub| - 1 of `s`. */
  predicate OccursAt(s: string, sub: string, i: int) {
    0 <= i <= |s| - |sub| && s[i..i + |sub|] == sub
  }

  /** Contains agrees with "some window of `s` equals `sub`". */
  lemma {:induction false} ContainsIff(s: string, sub: string)
    ensures Contains(s, sub) <==> exists i :: OccursAt(s, sub, i)
    decreases |s|
  {
    if |sub| <= |s| && s[..|sub|] == sub {
      assert OccursAt(s, sub, 0);
    } else if s == [] {
    } else {
      ContainsIff(s[1..], sub);
      if exists i :: OccursAt(s, sub, i) {
        var i :| OccursAt(s, sub, i);
        assert i != 0;
        assert s[1..][i - 1..i - 1 + |sub|] == sub;
        assert OccursAt(s[1..], sub, i - 1);
      }
      if exists i :: OccursAt(s[1..], sub, i) {
        var i :| OccursAt(s[1..], sub, i);
        assert s[i + 1..i + 1 + |sub|] == sub;
        assert OccursAt(s, sub, i + 1);
      }
    }
  }

  /** The first `n` elements, or all of them when there are fewer (SQL `LIMIT n`). */
  function Take<T>(s: seq<T>, n: nat): (r: seq<T>)
    ensures |r| <= n && |r| <= |s| && r == s[..|r|]
    ensures |r| == if |s| <= n then |s| else n
    ensures |s| <= n ==> r == s
  {
    if |s| <= n then s else s[..n]
  }

  /** Strictly ascending ids, as the rows of a table scanned by primary key. */
  predicate Increasing(s: seq<int>) {
    forall i, j :: 0 <= i < j < |s| ==> s[i] < s[j]
  }

  /** The `where` clause of the user search, for the user with id `id`. */
  predicate UserMatches(user: User, id: UserId, requester: UserId, keyword: string) {
    id != requester && (Contains(user.name, keyword) || Contains(user.email, keyword))
  }

  /** The ids above `from` that satisfy the user search, in table order. */
  function MatchingUsers(users: seq<User>, requester: UserId, keyword: string, from: nat): (r: seq<UserId>)
    ensures forall id :: id in r <==> from < id <= |users| && UserMatches(users[id - 1], id, requester, keyword)
    ensures Increasing(r)
    decreases |users| - from
  {
    if from >= |users| then []
    else
      var rest := MatchingUsers(users, requester, keyword, from + 1);
      assert forall j :: 0 <= j < |rest| ==> rest[j] in rest;
      if UserMatches(users[from], from + 1, requester, keyword) then [from + 1] + rest else rest
  }

  /** `/search/users`: an invalid keyword gives an empty list; otherwise the first ten matches. */
  function SearchUsers(users: seq<User>, requester: UserId, keyword: Option<string>): (r: SearchResponse)
    ensures r.Users?
    ensures !ValidKeyword(keyword) ==> r.users == []
    ensures Distinct(r.users)
    ensures |r.users| <= SearchLimit
    ensures forall id :: id in r.users ==>
              && 1 <= id <= |users| && id != requester
              && (Contains(users[id - 1].name, keyword.value) || Contains(users[id - 1].email, keyword.value))
    ensures ValidKeyword(keyword) && |r.users| < SearchLimit ==>
      forall id :: 1 <= id <= |users| && UserMatches(users[id - 1], id, requester, keyword.value) ==> id in r.users
  {
    if !ValidKeyword(keyword) then Users([])
    else
      var all := MatchingUsers(users, requester, keyword.value, 0);
      var r := Take(all, SearchLimit);
      assert forall id :: id in r ==> id in all;
      Users(r)
  }

  /** The ids of groups where `requester` holds an INVITE_ACCEPTED row, in member-table order. */
  function AcceptedGroupIds(members: seq<Member>, requester: UserId): (r: seq<GroupId>)
    ensures forall g :: g in r <==> HasRow(members, g, requester, InviteAccepted)
  {
    if members == [] then []
    else
      var rest := AcceptedGroupIds(members[1..], requester);
      assert forall g :: HasRow(members, g, requester, InviteAccepted) <==>
        members[0] == Member(g, requester, InviteAccepted) || HasRow(members[1..], g, requester, InviteAccepted) by {
        forall g ensures HasRow(members, g, requester, InviteAccepted) ==>
          members[0] == Member(g, requester, InviteAccepted) || HasRow(members[1..], g, requester, InviteAccepted) {
          if HasRow(members, g, requester, InviteAccepted) {
            var i :| 0 <= i < |members| && members[i] == Member(g, requester, InviteAccepted);
            if i > 0 {
              assert members[1..][i - 1] == Member(g, requester, InviteAccepted);
            }
          }
        }
        forall g | HasRow(members[1..], g, requester, InviteAccepted)
          ensures HasRow(members, g, requester, InviteAccepted) {
          var i :| 0 <= i < |members[1..]| && members[1..][i] == Member(g, requester, InviteAccepted);
          assert members[i + 1] == Member(g, requester, InviteAccepted);
        }
      }
      if members[0].userId == requester && members[0].status == InviteAccepted
      then [members[0].groupId] + rest
      else rest
  }

  /** The ids above `from` of groups in `ids` whose name contains the keyword, in table order. */
  function MatchingGroups(groups: seq<Group>, ids: seq<GroupId>, keyword: string, from: nat): (r: seq<GroupId>)
    ensures forall g :: g in r <==> from < g <= |groups| && g in ids && Contains(groups[g - 1].name, keyword)
    ensures Increasing(r)
    decreases |groups| - from
  {
    if from >= |groups| then []
    else
      var rest := MatchingGroups(groups, ids, keyword, from + 1);
      assert forall j :: 0 <= j < |rest| ==> rest[j] in rest;
      if from + 1 in ids && Contains(groups[from].name, keyword) then [from + 1] + rest else rest
  }

  /**
   * `/search/mygroups`. An invalid keyword answers with an empty `users` list
   * (not `groups`); otherwise the first ten of the requester's accepted groups
   * whose name contains the keyword.
   */
  function SearchMyGroups(groups: seq<Group>, members: seq<Member>, requester: UserId,
                          keyword: Option<string>): (r: SearchResponse)
    ensures r.Groups? <==> ValidKeyword(keyword)
    ensures r.Users? ==> r.users == []
    ensures r.Groups? ==> |r.groups| <= SearchLimit
    ensures r.Groups? ==> Distinct(r.groups)
    ensures r.Groups? ==> forall g :: g in r.groups ==>
      1 <= g <= |groups| && HasRow(members, g, requester, InviteAccepted) && Contains(groups[g - 1].name, keyword.value)
    ensures r.Groups? && |r.groups| < SearchLimit ==>
      forall g ::
        (1 <= g <= |groups| && HasRow(members, g, requester, InviteAccepted) && Contains(groups[g - 1].name, keyword.value))
        ==> g in r.groups
  {
    if !ValidKeyword(keyword) then Users([])
    else
      var ids := AcceptedGroupIds(members, requester);
      var all := MatchingGroups(groups, ids, keyword.value, 0);
      var r := Take(all, SearchLimit);
      assert forall g :: g in r ==> g in all;
      Groups(r)
  }
}
