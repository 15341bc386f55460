/**
 * The expense ledger written by `/addexpense`: the per (group, user, currency)
 * balance table, the canonical pairwise debt table and the append-only
 * activity log, as values; with the invariants that tie them together and
 * the proof that one expense keeps them.
 */
module Ledger {
  import opened Common
  import opened ExpenseModel

  /** Key of a group balance row. */
  datatype BalKey = BalKey(groupId: GroupId, userId: UserId, currencyId: CurrencyId)

  /** Key of a debt row; rows are only ever created with userId1 < userId2. */
  datatype DebtKey = DebtKey(userId1: UserId, userId2: UserId, groupId: GroupId, currencyId: CurrencyId)

  /** An activity row: the expense it belongs to and three balances of `userId` at that point. */
  datatype Activity = Activity(userId: UserId, currencyId: CurrencyId, expenseId: ExpenseId,
                               totalBalance: real, groupBalance: real, expenseBalance: real)

  // ---------------------------------------------------------------- keyed tables

  /** The amount stored under `k`; a key without a row reads as 0. */
  function Get<K>(m: map<K, real>, k: K): real {
    if k in m then m[k] else 0.0
  }

  /** Find-or-create-then-add: a missing row is created holding `d`, an existing one grows by `d`. */
  function Accumulate<K(!new)>(m: map<K, real>, k: K, d: real): (r: map<K, real>)
    ensures r.Keys == m.Keys + {k}
    ensures Get(r, k) == Get(m, k) + d
    ensures forall j :: j != k ==> Get(r, j) == Get(m, j)
  {
    if k in m then m[k := m[k] + d] else m[k := d]
  }

  function Bal(bal: map<BalKey, real>, g: GroupId, u: UserId, c: CurrencyId): real {
    Get(bal, BalKey(g, u, c))
  }

  /** What `u` is owed by `v` in (g, c), read off the canonical row: positive when v owes u. */
  function SignedDebt(debts: map<DebtKey, real>, g: GroupId, c: CurrencyId, u: UserId, v: UserId): real {
    if u < v then Get(debts, DebtKey(u, v, g, c))
    else if v < u then -Get(debts, DebtKey(v, u, g, c))
    else 0.0
  }

  /** The balance rows of `u` in group g, in any currency, that are not zero (`/leave`'s filter). */
  function UnsettledRows(bal: map<BalKey, real>, g: GroupId, u: UserId): (r: set<BalKey>)
    ensures forall k :: k in r <==> k in bal && k.groupId == g && k.userId == u && bal[k] != 0.0
  {
    set k | k in bal && k.groupId == g && k.userId == u && bal[k] != 0.0
  }

  /** With no unsettled row, every balance of `u` in g reads as zero, whether a row exists or not. */
  lemma SettledMeansZero(bal: map<BalKey, real>, g: GroupId, u: UserId, c: CurrencyId)
    requires UnsettledRows(bal, g, u) == {}
    ensures Bal(bal, g, u, c) == 0.0
  {
    var k := BalKey(g, u, c);
    if k in bal {
      assert k !in UnsettledRows(bal, g, u);
    }
  }

  // ---------------------------------------------------------------- the split

  /** The equal share of an expense among `n` accepted members. */
  function Share(amount: real, n: int): real
    requires n > 0
  {
    amount / (n as real)
  }

  /** The change one expense makes to `u`'s balance: the payer gets n - 1 shares back, every other participant owes one. */
  function ShareDelta(payer: UserId, u: UserId, share: real, n: int): real {
    if u != payer then -1.0 * share else ((n - 1) as real) * share
  }

  /** Charges `d` to the (g, u, c) row of every `u` in `us`, one after another. */
  function ChargeAll(bal: map<BalKey, real>, g: GroupId, c: CurrencyId, us: seq<UserId>, d: real): map<BalKey, real>
    decreases |us|
  {
    if us == [] then bal
    else Accumulate(ChargeAll(bal, g, c, us[..|us| - 1], d), BalKey(g, us[|us| - 1], c), d)
  }

  lemma {:induction false} ChargeAllAt(bal: map<BalKey, real>, g: GroupId, c: CurrencyId, us: seq<UserId>, d: real, k: BalKey)
    requires Distinct(us)
    ensures k in ChargeAll(bal, g, c, us, d) <==> k in bal || (k.groupId == g && k.currencyId == c && k.userId in us)
    ensures Get(ChargeAll(bal, g, c, us, d), k) ==
            Get(bal, k) + (if k.groupId == g && k.currencyId == c && k.userId in us then d else 0.0)
    decreases |us|
  {
    if us != [] {
      var pre := us[..|us| - 1];
      assert Distinct(pre);
      ChargeAllAt(bal, g, c, pre, d, k);
      assert forall x :: x in us <==> x in pre || x == us[|us| - 1];
      assert us[|us| - 1] !in pre;
    }
  }

  /** The canonical debt row between the payer and `u`, and the signed amount the payer is owed on it. */
  function DebtEntry(payer: UserId, u: UserId, g: GroupId, c: CurrencyId, share: real): (DebtKey, real) {
    if payer < u then (DebtKey(payer, u, g, c), share) else (DebtKey(u, payer, g, c), -1.0 * share)
  }

  /** Records, for every `u` in `us`, that `u` owes the payer one share. */
  function RecordDebts(debts: map<DebtKey, real>, g: GroupId, c: CurrencyId, payer: UserId,
                       us: seq<UserId>, share: real): map<DebtKey, real>
    decreases |us|
  {
    if us == [] then debts
    else
      var e := DebtEntry(payer, us[|us| - 1], g, c, share);
      Accumulate(RecordDebts(debts, g, c, payer, us[..|us| - 1], share), e.0, e.1)
  }

  /** The change one expense makes to the debt row `k`. */
  function DebtDelta(k: DebtKey, g: GroupId, c: CurrencyId, payer: UserId, us: seq<UserId>, share: real): real {
    if k.groupId == g && k.currencyId == c && k.userId1 < k.userId2 then
      if k.userId1 == payer && k.userId2 in us then share
      else if k.userId2 == payer && k.userId1 in us then -1.0 * share
      else 0.0
    else 0.0
  }

  lemma {:induction false} RecordDebtsAt(debts: map<DebtKey, real>, g: GroupId, c: CurrencyId, payer: UserId,
                                         us: seq<UserId>, share: real, k: DebtKey)
    requires Distinct(us) && payer !in us
    ensures Get(RecordDebts(debts, g, c, payer, us, share), k) == Get(debts, k) + DebtDelta(k, g, c, payer, us, share)
    ensures k in RecordDebts(debts, g, c, payer, us, share) ==>
              || k in debts
              || (&& k.groupId == g && k.currencyId == c && k.userId1 < k.userId2
                  && ((k.userId1 == payer && k.userId2 in us) || (k.userId2 == payer && k.userId1 in us)))
    decreases |us|
  {
    if us != [] {
      var pre := us[..|us| - 1];
      var x := us[|us| - 1];
      assert Distinct(pre);
      RecordDebtsAt(debts, g, c, payer, pre, share, k);
      assert forall y :: y in us <==> y in pre || y == x;
      assert x !in pre;
    }
  }

  // ---------------------------------------------------------------- the activity log

  /** The expense `eid` exists and was recorded in group g and currency c. */
  predicate InGroup(exps: seq<Expense>, eid: ExpenseId, g: GroupId, c: CurrencyId) {
    1 <= eid <= |exps| && exps[eid - 1].groupId == g && exps[eid - 1].currencyId == c
  }

  /** The most recent activity of `u` in currency `c` (`order createdAt DESC`, first row). */
  function LastActivity(acts: seq<Activity>, u: UserId, c: CurrencyId): (r: Option<nat>)
    ensures r.Some? ==> r.value < |acts| && acts[r.value].userId == u && acts[r.value].currencyId == c
    ensures r.Some? ==> forall j :: r.value < j < |acts| ==> !(acts[j].userId == u && acts[j].currencyId == c)
    ensures r.None? ==> forall j :: 0 <= j < |acts| ==> !(acts[j].userId == u && acts[j].currencyId == c)
    decreases |acts|
  {
    if acts == [] then None
    else if acts[|acts| - 1].userId == u && acts[|acts| - 1].currencyId == c then Some(|acts| - 1)
    else LastActivity(acts[..|acts| - 1], u, c)
  }

  /** The most recent activity of `u` whose expense is in group g and currency c (the join through `expenseId`). */
  function LastGroupActivity(acts: seq<Activity>, exps: seq<Expense>, u: UserId, g: GroupId, c: CurrencyId): (r: Option<nat>)
    ensures r.Some? ==> r.value < |acts| && acts[r.value].userId == u && InGroup(exps, acts[r.value].expenseId, g, c)
    ensures r.Some? ==> forall j :: r.value < j < |acts| ==> !(acts[j].userId == u && InGroup(exps, acts[j].expenseId, g, c))
    ensures r.None? ==> forall j :: 0 <= j < |acts| ==> !(acts[j].userId == u && InGroup(exps, acts[j].expenseId, g, c))
    decreases |acts|
  {
    if acts == [] then None
    else if acts[|acts| - 1].userId == u && InGroup(exps, acts[|acts| - 1].expenseId, g, c) then Some(|acts| - 1)
    else LastGroupActivity(acts[..|acts| - 1], exps, u, g, c)
  }

  /** The total balance carried by the latest (u, c) activity; 0 when there is none. */
  function PreviousTotal(acts: seq<Activity>, u: UserId, c: CurrencyId): real {
    match LastActivity(acts, u, c)
    case None => 0.0
    case Some(i) => acts[i].totalBalance
  }

  /** The group balance carried by the latest activity of u in (g, c); 0 when there is none. */
  function PreviousGroupBalance(acts: seq<Activity>, exps: seq<Expense>, u: UserId, g: GroupId, c: CurrencyId): real {
    match LastGroupActivity(acts, exps, u, g, c)
    case None => 0.0
    case Some(i) => acts[i].groupBalance
  }

  /** Every activity refers to an existing expense and carries that expense's currency. */
  predicate ActivitiesWellFormed(acts: seq<Activity>, exps: seq<Expense>) {
    forall i :: 0 <= i < |acts| ==>
      1 <= acts[i].expenseId <= |exps| && exps[acts[i].expenseId - 1].currencyId == acts[i].currencyId
  }

  /**
   * The activity row written for participant `u` of expense `eid`: the two
   * look-ups of the source, with a fresh delta in each branch.
   */
  function NewActivity(acts: seq<Activity>, exps: seq<Expense>, g: GroupId, c: CurrencyId, payer: UserId,
                       eid: ExpenseId, share: real, n: int, u: UserId): Activity
  {
    var delta := ShareDelta(payer, u, share, n);
    match LastActivity(acts, u, c)
    case None => Activity(u, c, eid, delta, delta, delta)
    case Some(i) =>
      var gi := LastGroupActivity(acts, exps, u, g, c);
      Activity(u, c, eid, acts[i].totalBalance + delta,
               if gi.None? then delta else acts[gi.value].groupBalance + delta, delta)
  }

  /** Each new row carries forward the previous total and group balances, both defaulting to 0. */
  lemma NewActivityCarriesForward(acts: seq<Activity>, exps: seq<Expense>, g: GroupId, c: CurrencyId, payer: UserId,
                                  eid: ExpenseId, share: real, n: int, u: UserId)
    requires ActivitiesWellFormed(acts, exps)
    ensures var a := NewActivity(acts, exps, g, c, payer, eid, share, n, u);
            && a.userId == u && a.currencyId == c && a.expenseId == eid
            && a.expenseBalance == ShareDelta(payer, u, share, n)
            && a.totalBalance == PreviousTotal(acts, u, c) + ShareDelta(payer, u, share, n)
            && a.groupBalance == PreviousGroupBalance(acts, exps, u, g, c) + ShareDelta(payer, u, share, n)
  {
  }

  /** Appends the rows of `parts` in order, each computed against the log as it stands. */
  function RecordActivities(acts: seq<Activity>, exps: seq<Expense>, g: GroupId, c: CurrencyId, payer: UserId,
                            eid: ExpenseId, share: real, n: int, parts: seq<UserId>): seq<Activity>
    decreases |parts|
  {
    if parts == [] then acts
    else
      var prev := RecordActivities(acts, exps, g, c, payer, eid, share, n, parts[..|parts| - 1]);
      prev + [NewActivity(prev, exps, g, c, payer, eid, share, n, parts[|parts| - 1])]
  }

  lemma LastActivityAppend(acts: seq<Activity>, x: Activity, u: UserId, c: CurrencyId)
    ensures LastActivity(acts + [x], u, c) ==
            if x.userId == u && x.currencyId == c then Some(|acts|) else LastActivity(acts, u, c)
  {
    assert (acts + [x])[..|acts|] == acts;
  }

  lemma LastGroupActivityAppend(acts: seq<Activity>, exps: seq<Expense>, x: Activity, u: UserId, g: GroupId, c: CurrencyId)
    ensures LastGroupActivity(acts + [x], exps, u, g, c) ==
            if x.userId == u && InGroup(exps, x.expenseId, g, c) then Some(|acts|) else LastGroupActivity(acts, exps, u, g, c)
  {
    assert (acts + [x])[..|acts|] == acts;
  }

  /** Recording a new expense row does not change what the existing activities join to. */
  lemma {:induction false} LastGroupActivityNewExpense(acts: seq<Activity>, exps: seq<Expense>, e: Expense,
                                                       u: UserId, g: GroupId, c: CurrencyId)
    requires forall i :: 0 <= i < |acts| ==> 1 <= acts[i].expenseId <= |exps|
    ensures LastGroupActivity(acts, exps + [e], u, g, c) == LastGroupActivity(acts, exps, u, g, c)
    decreases |acts|
  {
    if acts != [] {
      var pre := acts[..|acts| - 1];
      var x := acts[|acts| - 1];
      assert (exps + [e])[x.expenseId - 1] == exps[x.expenseId - 1];
      LastGroupActivityNewExpense(pre, exps, e, u, g, c);
    }
  }

  /** The rows of one expense: one per participant, in order, appended to the old log. */
  lemma {:induction false} RecordActivitiesRows(acts: seq<Activity>, exps: seq<Expense>, g: GroupId, c: CurrencyId,
                                                payer: UserId, eid: ExpenseId, share: real, n: int, parts: seq<UserId>)
    ensures var r := RecordActivities(acts, exps, g, c, payer, eid, share, n, parts);
            && |r| == |acts| + |parts| && r[..|acts|] == acts
            && forall i :: 0 <= i < |parts| ==>
                 && r[|acts| + i].userId == parts[i] && r[|acts| + i].currencyId == c && r[|acts| + i].expenseId == eid
                 && r[|acts| + i].expenseBalance == ShareDelta(payer, parts[i], share, n)
    decreases |parts|
  {
    if parts != [] {
      var pre := parts[..|parts| - 1];
      RecordActivitiesRows(acts, exps, g, c, payer, eid, share, n, pre);
      var prev := RecordActivities(acts, exps, g, c, payer, eid, share, n, pre);
      var r := RecordActivities(acts, exps, g, c, payer, eid, share, n, parts);
      assert r[..|prev|] == prev;
      assert r[..|acts|] == prev[..|acts|];
      forall i | 0 <= i < |parts|
        ensures r[|acts| + i].userId == parts[i] && r[|acts| + i].currencyId == c && r[|acts| + i].expenseId == eid
        ensures r[|acts| + i].expenseBalance == ShareDelta(payer, parts[i], share, n)
      {
        if i < |pre| {
          assert r[|acts| + i] == prev[|acts| + i];
          assert parts[i] == pre[i];
        }
      }
    }
  }

  lemma {:induction false} RecordActivitiesWellFormed(acts: seq<Activity>, exps: seq<Expense>, g: GroupId, c: CurrencyId,
                                                      payer: UserId, eid: ExpenseId, share: real, n: int, parts: seq<UserId>)
    requires ActivitiesWellFormed(acts, exps) && InGroup(exps, eid, g, c)
    ensures ActivitiesWellFormed(RecordActivities(acts, exps, g, c, payer, eid, share, n, parts), exps)
    decreases |parts|
  {
    if parts != [] {
      var pre := parts[..|parts| - 1];
      RecordActivitiesWellFormed(acts, exps, g, c, payer, eid, share, n, pre);
      var prev := RecordActivities(acts, exps, g, c, payer, eid, share, n, pre);
      var a := NewActivity(prev, exps, g, c, payer, eid, share, n, parts[|parts| - 1]);
      NewActivityCarriesForward(prev, exps, g, c, payer, eid, share, n, parts[|parts| - 1]);
      forall i | 0 <= i < |prev| + 1
        ensures 1 <= (prev + [a])[i].expenseId <= |exps| && exps[(prev + [a])[i].expenseId - 1].currencyId == (prev + [a])[i].currencyId {
        if i < |prev| {
          assert (prev + [a])[i] == prev[i];
        }
      }
    }
  }

  /** Each participant's running total moves by exactly its delta; every other running total stays. */
  lemma {:induction false} RecordActivitiesTotals(acts: seq<Activity>, exps: seq<Expense>, g: GroupId, c: CurrencyId,
                                                  payer: UserId, eid: ExpenseId, share: real, n: int, parts: seq<UserId>,
                                                  u: UserId, c': CurrencyId)
    requires Distinct(parts) && ActivitiesWellFormed(acts, exps) && InGroup(exps, eid, g, c)
    ensures PreviousTotal(RecordActivities(acts, exps, g, c, payer, eid, share, n, parts), u, c') ==
            PreviousTotal(acts, u, c') + (if c' == c && u in parts then ShareDelta(payer, u, share, n) else 0.0)
    decreases |parts|
  {
    if parts != [] {
      var pre := parts[..|parts| - 1];
      var x := parts[|parts| - 1];
      assert Distinct(pre);
      assert u in parts <==> u in pre || u == x;
      RecordActivitiesTotals(acts, exps, g, c, payer, eid, share, n, pre, u, c');
      var prev := RecordActivities(acts, exps, g, c, payer, eid, share, n, pre);
      RecordActivitiesWellFormed(acts, exps, g, c, payer, eid, share, n, pre);
      var a := NewActivity(prev, exps, g, c, payer, eid, share, n, x);
      NewActivityCarriesForward(prev, exps, g, c, payer, eid, share, n, x);
      LastActivityAppend(prev, a, u, c');
      if u == x && c' == c {
        RecordActivitiesTotals(acts, exps, g, c, payer, eid, share, n, pre, x, c);
      }
    }
  }

  /** Each participant's running balance in (g, c) moves by exactly its delta; every other one stays. */
  lemma {:induction false} RecordActivitiesGroupBalances(acts: seq<Activity>, exps: seq<Expense>, g: GroupId, c: CurrencyId,
                                                         payer: UserId, eid: ExpenseId, share: real, n: int,
                                                         parts: seq<UserId>, u: UserId, g': GroupId, c': CurrencyId)
    requires Distinct(parts) && ActivitiesWellFormed(acts, exps) && InGroup(exps, eid, g, c)
    ensures PreviousGroupBalance(RecordActivities(acts, exps, g, c, payer, eid, share, n, parts), exps, u, g', c') ==
            PreviousGroupBalance(acts, exps, u, g', c') +
            (if g' == g && c' == c && u in parts then ShareDelta(payer, u, share, n) else 0.0)
    decreases |parts|
  {
    if parts != [] {
      var pre := parts[..|parts| - 1];
      var x := parts[|parts| - 1];
      assert Distinct(pre);
      assert u in parts <==> u in pre || u == x;
      RecordActivitiesGroupBalances(acts, exps, g, c, payer, eid, share, n, pre, u, g', c');
      var prev := RecordActivities(acts, exps, g, c, payer, eid, share, n, pre);
      RecordActivitiesWellFormed(acts, exps, g, c, payer, eid, share, n, pre);
      var a := NewActivity(prev, exps, g, c, payer, eid, share, n, x);
      NewActivityCarriesForward(prev, exps, g, c, payer, eid, share, n, x);
      LastGroupActivityAppend(prev, exps, a, u, g', c');
      if u == x && g' == g && c' == c {
        RecordActivitiesGroupBalances(acts, exps, g, c, payer, eid, share, n, pre, x, g, c);
      }
    }
  }

  // ---------------------------------------------------------------- sums over id ranges

  /** f(1) + ... + f(n). */
  ghost function SumTo(n: nat, f: int -> real): real {
    if n == 0 then 0.0 else SumTo(n - 1, f) + f(n)
  }

  lemma {:induction false} SumLinear(n: nat, f: int -> real, g: int -> real, h: int -> real)
    requires forall i :: 1 <= i <= n ==> h(i) == f(i) + g(i)
    ensures SumTo(n, h) == SumTo(n, f) + SumTo(n, g)
  {
    if n > 0 {
      SumLinear(n - 1, f, g, h);
    }
  }

  lemma {:induction false} SumZero(n: nat, f: int -> real)
    requires forall i :: 1 <= i <= n ==> f(i) == 0.0
    ensures SumTo(n, f) == 0.0
  {
    if n > 0 {
      SumZero(n - 1, f);
    }
  }

  /** d added to itself k times. */
  function Times(k: nat, d: real): real {
    if k == 0 then 0.0 else Times(k - 1, d) + d
  }

  /** Repeated addition is multiplication. */
  lemma {:induction false} TimesIsProduct(k: nat, d: real)
    ensures Times(k, d) == (k as real) * d
  {
    if k > 0 {
      TimesIsProduct(k - 1, d);
      assert (k as real) * d == ((k - 1) as real) * d + d;
    }
  }

  /** Summing d over the members of T, and 0 elsewhere, gives d times the size of T. */
  lemma {:induction false} SumIndicator(n: nat, t: set<int>, d: real, f: int -> real)
    requires forall i :: 1 <= i <= n ==> f(i) == if i in t then d else 0.0
    requires forall i :: i in t ==> 1 <= i <= n
    ensures SumTo(n, f) == Times(|t|, d)
  {
    if n == 0 {
      assert t == {};
    } else {
      var t' := t - {n};
      SumIndicator(n - 1, t', d, f);
      if n in t {
        assert |t| == |t'| + 1;
      } else {
        assert t' == t;
      }
    }
  }

  /** Adding v at one id p in range adds v to the sum. */
  lemma {:induction false} SumPointMass(n: nat, p: int, v: real, f: int -> real, h: int -> real)
    requires 1 <= p <= n
    requires forall i :: 1 <= i <= n ==> h(i) == f(i) + (if i == p then v else 0.0)
    ensures SumTo(n, h) == SumTo(n, f) + v
  {
    if p < n {
      SumPointMass(n - 1, p, v, f, h);
    } else {
      SumLinear(n - 1, f, u => 0.0, h);
      SumZero(n - 1, u => 0.0);
    }
  }

  /** Summing v at one id p in range, and 0 elsewhere, gives v. */
  lemma SumSingle(n: nat, p: int, v: real, f: int -> real)
    requires 1 <= p <= n
    requires forall i :: 1 <= i <= n ==> f(i) == if i == p then v else 0.0
    ensures SumTo(n, f) == v
  {
    var zero: int -> real := i => 0.0;
    SumPointMass(n, p, v, zero, f);
    SumZero(n, zero);
  }

  // ---------------------------------------------------------------- the invariants

  /** Balance rows refer to existing groups and users. */
  predicate BalanceKeysValid(bal: map<BalKey, real>, nUsers: nat, nGroups: nat) {
    forall k :: k in bal ==> 1 <= k.groupId <= nGroups && 1 <= k.userId <= nUsers
  }

  /** Debt rows refer to existing users and groups, and are canonical: userId1 < userId2. */
  predicate DebtKeysValid(debts: map<DebtKey, real>, nUsers: nat, nGroups: nat) {
    forall k :: k in debts ==> 1 <= k.userId1 < k.userId2 <= nUsers && 1 <= k.groupId <= nGroups
  }

  /** The sum of every user's balance in (g, c). */
  ghost function GroupCurrencyTotal(bal: map<BalKey, real>, nUsers: nat, g: GroupId, c: CurrencyId): real {
    SumTo(nUsers, u => Bal(bal, g, u, c))
  }

  /** What u is owed, net, by all other users in (g, c), according to the debt rows. */
  ghost function DebtNet(debts: map<DebtKey, real>, nUsers: nat, g: GroupId, u: UserId, c: CurrencyId): real {
    SumTo(nUsers, v => SignedDebt(debts, g, c, u, v))
  }

  /** u's balance in currency c summed over all groups. */
  ghost function UserCurrencyTotal(bal: map<BalKey, real>, nGroups: nat, u: UserId, c: CurrencyId): real {
    SumTo(nGroups, g => Bal(bal, g, u, c))
  }

  /** Conservation: within every (group, currency) the balances sum to zero. */
  ghost predicate Conserved(bal: map<BalKey, real>, nUsers: nat) {
    forall g, c :: GroupCurrencyTotal(bal, nUsers, g, c) == 0.0
  }

  /** Every balance is the net of that user's pairwise debts in the same group and currency. */
  ghost predicate DebtsMatchBalances(bal: map<BalKey, real>, debts: map<DebtKey, real>, nUsers: nat) {
    forall g, u, c :: DebtNet(debts, nUsers, g, u, c) == Bal(bal, g, u, c)
  }

  /** Every balance is the group balance carried by that user's latest activity in the group and currency. */
  ghost predicate GroupBalancesLogged(bal: map<BalKey, real>, acts: seq<Activity>, exps: seq<Expense>) {
    forall g, u, c :: PreviousGroupBalance(acts, exps, u, g, c) == Bal(bal, g, u, c)
  }

  /** Every user's latest total balance in a currency is the sum of its balances in that currency over all groups. */
  ghost predicate TotalsLogged(bal: map<BalKey, real>, acts: seq<Activity>, nGroups: nat) {
    forall u, c :: PreviousTotal(acts, u, c) == UserCurrencyTotal(bal, nGroups, u, c)
  }

  ghost predicate LedgerValid(nUsers: nat, nGroups: nat, exps: seq<Expense>, bal: map<BalKey, real>,
                              debts: map<DebtKey, real>, acts: seq<Activity>) {
    && BalanceKeysValid(bal, nUsers, nGroups)
    && DebtKeysValid(debts, nUsers, nGroups)
    && ActivitiesWellFormed(acts, exps)
    && Conserved(bal, nUsers)
    && DebtsMatchBalances(bal, debts, nUsers)
    && GroupBalancesLogged(bal, acts, exps)
    && TotalsLogged(bal, acts, nGroups)
  }

  /** The empty ledger is valid, whatever the users and groups. */
  lemma EmptyLedgerValid(nUsers: nat, nGroups: nat)
    ensures LedgerValid(nUsers, nGroups, [], map[], map[], [])
  {
    forall g, c ensures GroupCurrencyTotal(map[], nUsers, g, c) == 0.0 {
      SumZero(nUsers, u => Bal(map[], g, u, c));
    }
    forall g, u, c ensures DebtNet(map[], nUsers, g, u, c) == Bal(map[], g, u, c) {
      SumZero(nUsers, v => SignedDebt(map[], g, c, u, v));
    }
    forall u, c ensures PreviousTotal([], u, c) == UserCurrencyTotal(map[], nGroups, u, c) {
      SumZero(nGroups, g => Bal(map[], g, u, c));
    }
  }

  /** A new group has no ledger rows, so adding it to the group table keeps the ledger valid. */
  lemma NewGroupKeepsLedgerValid(nUsers: nat, nGroups: nat, exps: seq<Expense>, bal: map<BalKey, real>,
                                 debts: map<DebtKey, real>, acts: seq<Activity>)
    requires LedgerValid(nUsers, nGroups, exps, bal, debts, acts)
    ensures LedgerValid(nUsers, nGroups + 1, exps, bal, debts, acts)
  {
    forall u, c ensures PreviousTotal(acts, u, c) == UserCurrencyTotal(bal, nGroups + 1, u, c) {
      assert BalKey(nGroups + 1, u, c) !in bal;
    }
  }

  // ---------------------------------------------------------------- one expense

  /** The balance table after an expense: every other participant charged one share, then the payer credited n - 1 shares. */
  function BalancesAfter(bal: map<BalKey, real>, g: GroupId, c: CurrencyId, payer: UserId,
                         others: seq<UserId>, share: real, n: int): map<BalKey, real>
  {
    Accumulate(ChargeAll(bal, g, c, others, -1.0 * share), BalKey(g, payer, c), share * ((n - 1) as real))
  }

  /** The change an expense makes to the (g', u, c') balance. */
  function ExpenseDelta(g: GroupId, c: CurrencyId, payer: UserId, others: seq<UserId>, share: real, n: int,
                        g': GroupId, u: UserId, c': CurrencyId): real
  {
    if g' == g && c' == c && (u == payer || u in others) then ShareDelta(payer, u, share, n) else 0.0
  }

  /**
   * Every other participant's balance drops by one share (a new row starts
   * at minus one share), the payer's grows by n - 1 shares, nothing else changes.
   */
  lemma ExpenseBalanceEffect(bal: map<BalKey, real>, g: GroupId, c: CurrencyId, payer: UserId,
                             others: seq<UserId>, share: real, n: int, k: BalKey)
    requires Distinct(others) && payer !in others
    ensures Get(BalancesAfter(bal, g, c, payer, others, share, n), k) ==
            Get(bal, k) + ExpenseDelta(g, c, payer, others, share, n, k.groupId, k.userId, k.currencyId)
    ensures k in BalancesAfter(bal, g, c, payer, others, share, n) <==>
            k in bal || (k.groupId == g && k.currencyId == c && (k.userId == payer || k.userId in others))
  {
    ChargeAllAt(bal, g, c, others, -1.0 * share, k);
  }

  /** An expense's change in its own (group, currency): minus one share for the others, n - 1 shares for the payer. */
  lemma ExpenseDeltaSplit(g: GroupId, c: CurrencyId, payer: UserId, others: seq<UserId>, share: real, n: int, u: UserId)
    requires payer !in others && n == |others| + 1
    ensures ExpenseDelta(g, c, payer, others, share, n, g, u, c) ==
            (if u in Elements(others) then -1.0 * share else 0.0) +
            (if u == payer then share * (|others| as real) else 0.0)
  {
    assert u in others <==> u in Elements(others);
  }

  /** Charging one share to each of the distinct `others` charges |others| shares in all. */
  lemma ChargeSum(nUsers: nat, others: seq<UserId>, share: real, charge: int -> real)
    requires Distinct(others) && forall u :: u in others ==> 1 <= u <= nUsers
    requires forall u :: 1 <= u <= nUsers ==> charge(u) == if u in Elements(others) then -1.0 * share else 0.0
    ensures SumTo(nUsers, charge) + share * (|others| as real) == 0.0
  {
    SumIndicator(nUsers, Elements(others), -1.0 * share, charge);
    DistinctCard(others);
    TimesIsProduct(|others|, -1.0 * share);
  }

  /** In the expense's own group and currency, the changes sum to zero: n - 1 shares credited, one share charged n - 1 times. */
  lemma ExpenseDeltaSumsToZero(nUsers: nat, g: GroupId, c: CurrencyId, payer: UserId, others: seq<UserId>,
                               share: real, n: int, delta: int -> real)
    requires Distinct(others) && payer !in others && n == |others| + 1
    requires 1 <= payer <= nUsers && forall u :: u in others ==> 1 <= u <= nUsers
    requires forall u :: 1 <= u <= nUsers ==> delta(u) == ExpenseDelta(g, c, payer, others, share, n, g, u, c)
    ensures SumTo(nUsers, delta) == 0.0
  {
    var credit := share * (|others| as real);
    var charge: int -> real := u => if u in Elements(others) then -1.0 * share else 0.0;
    forall u | 1 <= u <= nUsers ensures delta(u) == charge(u) + (if u == payer then credit else 0.0) {
      ExpenseDeltaSplit(g, c, payer, others, share, n, u);
    }
    SumPointMass(nUsers, payer, credit, charge, delta);
    ChargeSum(nUsers, others, share, charge);
  }

  /** Given n = number of participants, one expense adds zero to the total of every (group, currency). */
  lemma ExpenseConserves(bal: map<BalKey, real>, nUsers: nat, g: GroupId, c: CurrencyId, payer: UserId,
                         others: seq<UserId>, share: real, n: int, g': GroupId, c': CurrencyId)
    requires Distinct(others) && payer !in others && n == |others| + 1
    requires 1 <= payer <= nUsers && forall u :: u in others ==> 1 <= u <= nUsers
    ensures GroupCurrencyTotal(BalancesAfter(bal, g, c, payer, others, share, n), nUsers, g', c') ==
            GroupCurrencyTotal(bal, nUsers, g', c')
  {
    var after := BalancesAfter(bal, g, c, payer, others, share, n);
    var delta: int -> real := u => ExpenseDelta(g, c, payer, others, share, n, g', u, c');
    var before: int -> real := u => Bal(bal, g', u, c');
    var now: int -> real := u => Bal(after, g', u, c');
    forall u | 1 <= u <= nUsers ensures now(u) == before(u) + delta(u) {
      ExpenseBalanceEffect(bal, g, c, payer, others, share, n, BalKey(g', u, c'));
    }
    SumLinear(nUsers, before, delta, now);
    if g' == g && c' == c {
      ExpenseDeltaSumsToZero(nUsers, g, c, payer, others, share, n, delta);
    } else {
      SumZero(nUsers, delta);
    }
    assert GroupCurrencyTotal(after, nUsers, g', c') == SumTo(nUsers, now);
    assert GroupCurrencyTotal(bal, nUsers, g', c') == SumTo(nUsers, before);
  }

  /** The debt rows after an expense: every other participant owes the payer one more share. */
  function DebtsAfter(debts: map<DebtKey, real>, g: GroupId, c: CurrencyId, payer: UserId,
                      others: seq<UserId>, share: real): map<DebtKey, real>
  {
    RecordDebts(debts, g, c, payer, others, share)
  }

  /** The change an expense makes to what u is owed by v. */
  function PairDelta(g: GroupId, c: CurrencyId, payer: UserId, others: seq<UserId>, share: real,
                     g': GroupId, c': CurrencyId, u: UserId, v: UserId): real
  {
    if g' == g && c' == c then
      if u == payer && v in others then share
      else if v == payer && u in others then -1.0 * share
      else 0.0
    else 0.0
  }

  /** Read through the canonical rows, the payer is owed one more share by each other participant, and by nobody else. */
  lemma ExpenseDebtEffect(debts: map<DebtKey, real>, g: GroupId, c: CurrencyId, payer: UserId,
                          others: seq<UserId>, share: real, g': GroupId, c': CurrencyId, u: UserId, v: UserId)
    requires Distinct(others) && payer !in others
    ensures SignedDebt(DebtsAfter(debts, g, c, payer, others, share), g', c', u, v) ==
            SignedDebt(debts, g', c', u, v) + PairDelta(g, c, payer, others, share, g', c', u, v)
  {
    if u < v {
      RecordDebtsAt(debts, g, c, payer, others, share, DebtKey(u, v, g', c'));
    } else if v < u {
      RecordDebtsAt(debts, g, c, payer, others, share, DebtKey(v, u, g', c'));
    }
  }

  /** Summed over all counterparts v, the pairwise changes for u equal the change to u's balance. */
  lemma PairDeltaSum(nUsers: nat, g: GroupId, c: CurrencyId, payer: UserId, others: seq<UserId>, share: real, n: int,
                     g': GroupId, u: UserId, c': CurrencyId, delta: int -> real)
    requires Distinct(others) && payer !in others && n == |others| + 1
    requires 1 <= payer <= nUsers && forall x :: x in others ==> 1 <= x <= nUsers
    requires forall v :: 1 <= v <= nUsers ==> delta(v) == PairDelta(g, c, payer, others, share, g', c', u, v)
    ensures SumTo(nUsers, delta) == ExpenseDelta(g, c, payer, others, share, n, g', u, c')
  {
    if g' == g && c' == c && u == payer {
      forall v | 1 <= v <= nUsers ensures delta(v) == if v in Elements(others) then share else 0.0 {
        assert v in others <==> v in Elements(others);
      }
      SumIndicator(nUsers, Elements(others), share, delta);
      DistinctCard(others);
      TimesIsProduct(|others|, share);
    } else if g' == g && c' == c && u in others {
      SumSingle(nUsers, payer, -1.0 * share, delta);
    } else {
      SumZero(nUsers, delta);
    }
  }

  /** One expense keeps every balance equal to the net of its debts. */
  lemma ExpenseKeepsDebtsMatching(bal: map<BalKey, real>, debts: map<DebtKey, real>, nUsers: nat,
                                  g: GroupId, c: CurrencyId, payer: UserId, others: seq<UserId>, share: real, n: int,
                                  g': GroupId, u: UserId, c': CurrencyId)
    requires Distinct(others) && payer !in others && n == |others| + 1
    requires 1 <= payer <= nUsers && forall x :: x in others ==> 1 <= x <= nUsers
    requires DebtNet(debts, nUsers, g', u, c') == Bal(bal, g', u, c')
    ensures DebtNet(DebtsAfter(debts, g, c, payer, others, share), nUsers, g', u, c') ==
            Bal(BalancesAfter(bal, g, c, payer, others, share, n), g', u, c')
  {
    var debts' := DebtsAfter(debts, g, c, payer, others, share);
    var delta: int -> real := v => PairDelta(g, c, payer, others, share, g', c', u, v);
    var before: int -> real := v => SignedDebt(debts, g', c', u, v);
    var now: int -> real := v => SignedDebt(debts', g', c', u, v);
    forall v | 1 <= v <= nUsers ensures now(v) == before(v) + delta(v) {
      ExpenseDebtEffect(debts, g, c, payer, others, share, g', c', u, v);
    }
    SumLinear(nUsers, before, delta, now);
    PairDeltaSum(nUsers, g, c, payer, others, share, n, g', u, c', delta);
    ExpenseBalanceEffect(bal, g, c, payer, others, share, n, BalKey(g', u, c'));
    assert DebtNet(debts', nUsers, g', u, c') == SumTo(nUsers, now);
    assert DebtNet(debts, nUsers, g', u, c') == SumTo(nUsers, before);
  }

  /** The activity log after an expense: one row per other participant, then the payer's row. */
  function ActivitiesAfter(acts: seq<Activity>, exps: seq<Expense>, e: Expense, others: seq<UserId>,
                           share: real, n: int): seq<Activity>
  {
    RecordActivities(acts, exps + [e], e.groupId, e.currencyId, e.paidByUserId, |exps| + 1, share, n,
                     others + [e.paidByUserId])
  }

  lemma ActivitiesWellFormedExtend(acts: seq<Activity>, exps: seq<Expense>, e: Expense)
    requires ActivitiesWellFormed(acts, exps)
    ensures ActivitiesWellFormed(acts, exps + [e])
  {
    forall i | 0 <= i < |acts|
      ensures (exps + [e])[acts[i].expenseId - 1] == exps[acts[i].expenseId - 1] {
    }
  }

  lemma ParticipantsDistinct(others: seq<UserId>, payer: UserId)
    requires Distinct(others) && payer !in others
    ensures Distinct(others + [payer])
    ensures forall u :: u in others + [payer] <==> u == payer || u in others
  {
  }

  /** An expense only writes rows for existing users and groups, and its debt rows are canonical. */
  lemma ExpenseKeepsKeysValid(nUsers: nat, nGroups: nat, bal: map<BalKey, real>, debts: map<DebtKey, real>,
                              g: GroupId, c: CurrencyId, payer: UserId, others: seq<UserId>, share: real, n: int)
    requires BalanceKeysValid(bal, nUsers, nGroups) && DebtKeysValid(debts, nUsers, nGroups)
    requires 1 <= g <= nGroups && 1 <= payer <= nUsers && forall x :: x in others ==> 1 <= x <= nUsers
    requires Distinct(others) && payer !in others
    ensures BalanceKeysValid(BalancesAfter(bal, g, c, payer, others, share, n), nUsers, nGroups)
    ensures DebtKeysValid(DebtsAfter(debts, g, c, payer, others, share), nUsers, nGroups)
  {
    forall k | k in BalancesAfter(bal, g, c, payer, others, share, n)
      ensures 1 <= k.groupId <= nGroups && 1 <= k.userId <= nUsers {
      ExpenseBalanceEffect(bal, g, c, payer, others, share, n, k);
    }
    forall k | k in DebtsAfter(debts, g, c, payer, others, share)
      ensures 1 <= k.userId1 < k.userId2 <= nUsers && 1 <= k.groupId <= nGroups {
      RecordDebtsAt(debts, g, c, payer, others, share, k);
    }
  }

  /** An expense keeps each group's latest logged balance equal to the balance row. */
  lemma ExpenseKeepsGroupBalancesLogged(exps: seq<Expense>, bal: map<BalKey, real>, acts: seq<Activity>,
                                        e: Expense, others: seq<UserId>, share: real, n: int)
    requires GroupBalancesLogged(bal, acts, exps) && ActivitiesWellFormed(acts, exps)
    requires Distinct(others) && e.paidByUserId !in others
    ensures GroupBalancesLogged(BalancesAfter(bal, e.groupId, e.currencyId, e.paidByUserId, others, share, n),
                                ActivitiesAfter(acts, exps, e, others, share, n), exps + [e])
  {
    var exps' := exps + [e];
    var parts := others + [e.paidByUserId];
    ParticipantsDistinct(others, e.paidByUserId);
    ActivitiesWellFormedExtend(acts, exps, e);
    forall g, u, c
      ensures PreviousGroupBalance(ActivitiesAfter(acts, exps, e, others, share, n), exps', u, g, c) ==
              Bal(BalancesAfter(bal, e.groupId, e.currencyId, e.paidByUserId, others, share, n), g, u, c)
    {
      RecordActivitiesGroupBalances(acts, exps', e.groupId, e.currencyId, e.paidByUserId, |exps'|, share, n,
                                    parts, u, g, c);
      LastGroupActivityNewExpense(acts, exps, e, u, g, c);
      assert PreviousGroupBalance(acts, exps', u, g, c) == PreviousGroupBalance(acts, exps, u, g, c) == Bal(bal, g, u, c);
      assert u in parts <==> u == e.paidByUserId || u in others;
      ExpenseBalanceEffect(bal, e.groupId, e.currencyId, e.paidByUserId, others, share, n, BalKey(g, u, c));
    }
  }

  /** Over the groups, an expense moves a user's balance in its currency by exactly that user's delta. */
  lemma ExpenseUserTotal(bal: map<BalKey, real>, nGroups: nat, g: GroupId, c: CurrencyId, payer: UserId,
                         others: seq<UserId>, share: real, n: int, u: UserId, c': CurrencyId)
    requires Distinct(others) && payer !in others && 1 <= g <= nGroups
    ensures UserCurrencyTotal(BalancesAfter(bal, g, c, payer, others, share, n), nGroups, u, c') ==
            UserCurrencyTotal(bal, nGroups, u, c') +
            (if c' == c && (u == payer || u in others) then ShareDelta(payer, u, share, n) else 0.0)
  {
    var after := BalancesAfter(bal, g, c, payer, others, share, n);
    var delta: int -> real := g' => ExpenseDelta(g, c, payer, others, share, n, g', u, c');
    var before: int -> real := g' => Bal(bal, g', u, c');
    var now: int -> real := g' => Bal(after, g', u, c');
    forall g' | 1 <= g' <= nGroups ensures now(g') == before(g') + delta(g') {
      ExpenseBalanceEffect(bal, g, c, payer, others, share, n, BalKey(g', u, c'));
    }
    SumLinear(nGroups, before, delta, now);
    if c' == c && (u == payer || u in others) {
      SumSingle(nGroups, g, ShareDelta(payer, u, share, n), delta);
    } else {
      SumZero(nGroups, delta);
    }
    assert UserCurrencyTotal(after, nGroups, u, c') == SumTo(nGroups, now);
    assert UserCurrencyTotal(bal, nGroups, u, c') == SumTo(nGroups, before);
  }

  /** An expense keeps each user's latest logged total equal to its balances summed over the groups. */
  lemma ExpenseKeepsTotalsLogged(nGroups: nat, exps: seq<Expense>, bal: map<BalKey, real>, acts: seq<Activity>,
                                 e: Expense, others: seq<UserId>, share: real, n: int)
    requires TotalsLogged(bal, acts, nGroups) && ActivitiesWellFormed(acts, exps)
    requires Distinct(others) && e.paidByUserId !in others && 1 <= e.groupId <= nGroups
    ensures TotalsLogged(BalancesAfter(bal, e.groupId, e.currencyId, e.paidByUserId, others, share, n),
                         ActivitiesAfter(acts, exps, e, others, share, n), nGroups)
  {
    var exps' := exps + [e];
    var parts := others + [e.paidByUserId];
    ParticipantsDistinct(others, e.paidByUserId);
    ActivitiesWellFormedExtend(acts, exps, e);
    forall u, c
      ensures PreviousTotal(ActivitiesAfter(acts, exps, e, others, share, n), u, c) ==
              UserCurrencyTotal(BalancesAfter(bal, e.groupId, e.currencyId, e.paidByUserId, others, share, n),
                                nGroups, u, c)
    {
      RecordActivitiesTotals(acts, exps', e.groupId, e.currencyId, e.paidByUserId, |exps'|, share, n, parts, u, c);
      ExpenseUserTotal(bal, nGroups, e.groupId, e.currencyId, e.paidByUserId, others, share, n, u, c);
    }
  }

  /**
   * The ledger invariant survives one expense split equally between its payer
   * and the distinct other participants, with n counting all of them.
   */
  lemma ExpenseKeepsLedgerValid(nUsers: nat, nGroups: nat, exps: seq<Expense>, bal: map<BalKey, real>,
                                debts: map<DebtKey, real>, acts: seq<Activity>, e: Expense, others: seq<UserId>, n: int)
    requires LedgerValid(nUsers, nGroups, exps, bal, debts, acts)
    requires 1 <= e.groupId <= nGroups && 1 <= e.paidByUserId <= nUsers
    requires Distinct(others) && e.paidByUserId !in others && forall x :: x in others ==> 1 <= x <= nUsers
    requires n == |others| + 1
    ensures var share := Share(e.amount, n);
            LedgerValid(nUsers, nGroups, exps + [e],
                        BalancesAfter(bal, e.groupId, e.currencyId, e.paidByUserId, others, share, n),
                        DebtsAfter(debts, e.groupId, e.currencyId, e.paidByUserId, others, share),
                        ActivitiesAfter(acts, exps, e, others, share, n))
  {
    var share := Share(e.amount, n);
    var (g, c, p) := (e.groupId, e.currencyId, e.paidByUserId);
    var bal' := BalancesAfter(bal, g, c, p, others, share, n);
    var debts' := DebtsAfter(debts, g, c, p, others, share);
    ExpenseKeepsKeysValid(nUsers, nGroups, bal, debts, g, c, p, others, share, n);
    ActivitiesWellFormedExtend(acts, exps, e);
    ParticipantsDistinct(others, p);
    RecordActivitiesWellFormed(acts, exps + [e], g, c, p, |exps| + 1, share, n, others + [p]);
    forall g', c' ensures GroupCurrencyTotal(bal', nUsers, g', c') == 0.0 {
      ExpenseConserves(bal, nUsers, g, c, p, others, share, n, g', c');
    }
    forall g', u, c' ensures DebtNet(debts', nUsers, g', u, c') == Bal(bal', g', u, c') {
      ExpenseKeepsDebtsMatching(bal, debts, nUsers, g, c, p, others, share, n, g', u, c');
    }
    ExpenseKeepsGroupBalancesLogged(exps, bal, acts, e, others, share, n);
    ExpenseKeepsTotalsLogged(nGroups, exps, bal, acts, e, others, share, n);
  }
}
