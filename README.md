# Splitwise groups and expense ledger, in Dafny

This project models the core of a Splitwise-style expense sharing backend:

- the group membership state machine of the group routes (`/create`, `/accept`, `/reject`, `/leave`, `/editgroup`);
- the expense ledger written by `/addexpense`, namely:
  - a balance per (group, user, currency), created on first use;
  - a canonical pairwise debt row per (smaller id, larger id, group, currency);
  - an append-only activity log;
- the read-only routes over those tables (`/mygroups`, `/invitations`, `/groupbalance/:id`, and the two search routes);
- the small pure helpers around them:
  - the bearer-header middleware and the status constants;
  - the validators of the group and expense models;
  - the client's header and image URL builders, and the early return of its token check.

The database tables are the fields of one class, `Groups.Store`:
- The `users`, `groups`, `members`, `expenses` and `activities` tables are sequences. A row's id is its position plus one, and rows are never deleted. The model numbers rows without gaps, although a rolled-back `/create` or `/addexpense` uses up an auto-increment value in the database.
- The balance and debt tables are maps keyed by their unique columns.
- Every route that writes is a method that updates those fields in place. The read-only routes `/mygroups`, `/invitations` and `/groupbalance/:id` are functions of the store, and the two search routes are module-level functions of the tables they read.
- Each `forEach` pass of `/addexpense` is a `while` loop. Each loop is proved equal to a fold over the participants (`ChargeAll`, `RecordDebts`, `RecordActivities`); the properties are then proved about those folds.

The store invariant `Groups.StoreValid` ties the tables together, and every route preserves it:
- every member row names an existing group and user;
- there is at most one row per (group, user);
- every group's `groupStrength` equals its number of INVITE_ACCEPTED rows;
- group names are unique, fit the 64-character column and pass `notEmpty` (they contain a character that is not whitespace);
- the ledger invariant `Ledger.LedgerValid` holds:
  - balance keys name existing users and groups;
  - debt keys are canonical (userId1 < userId2);
  - every activity names an existing expense of its currency;
  - within each (group, currency) the balances sum to zero;
  - every balance equals the net of that user's pairwise debts;
  - every balance equals the group balance carried by that user's latest activity in the group;
  - every latest total balance equals the sum of that user's balances over all groups.

Amounts are `real` and the share is the exact quotient `amount / groupStrength`.

`/create` stores `groupStrength` 1 (backend/groups/routes.js:114); an invitee adds one to it only on accepting (backend/groups/routes.js:260-271).

## Model

| member | source | states |
|---|---|---|
| Helpers.StatusNamesMatchEnum | backend/helpers/utils.js:35-40 | The four status strings are pairwise distinct, and each is a value of the member table's ENUM (backend/models/member.js:14-19), and every ENUM value is one of them. |
| Helpers.Split | backend/helpers/utils.js:11 | `split` on one character gives one more piece than there are separators, no piece contains the separator, and joining the pieces gives back the string. |
| Helpers.CheckIfTokenExists | backend/helpers/utils.js:8-22 | The request proceeds iff a header is present and contains exactly one space; the token is then the space-free second part, after a space-free first word. Every refusal is the 401 "Please login to continue". |
| Helpers.AnySchemeProceeds | backend/helpers/utils.js:11-13 | The scheme word is never inspected: any space-free word, a space and a space-free token gives that token. |
| ClientUtils.GetJwtHeader | frontend/splitwise-fe/src/utils/utils.js:6-10 | The Authorization value is "Bearer " followed by exactly the token. |
| ClientUtils.HeaderRoundTrip | frontend/splitwise-fe/src/utils/utils.js:6-10 | The server's middleware applied to a header the client built extracts exactly the token when it has no space, and refuses it when it has one. |
| ClientUtils.IsJwtValid | frontend/splitwise-fe/src/utils/utils.js:19-27 | A falsy token gives [false, null, null]. Otherwise the result is valid iff verification succeeds, and then carries the payload's name and email; an invalid result carries neither. |
| ClientUtils.FalsyTokenSkipsVerification | frontend/splitwise-fe/src/utils/utils.js:20 | For a falsy token the result does not depend on the verifier at all. |
| ClientUtils.ResourceUrl | frontend/splitwise-fe/src/utils/utils.js:28-33 | The URL is the backend URL, one '/', then the given path or else the default. |
| ClientUtils.GetImageUrl | frontend/splitwise-fe/src/utils/utils.js:28-30 | With no argument the path is "uploads/all/splitwise-logo.png"; otherwise it is the argument. |
| ClientUtils.GetProfileImageUrl | frontend/splitwise-fe/src/utils/utils.js:31-33 | With no argument the path is "uploads/all/profile_placeholder.jpg"; with one it equals `getImageUrl` of it. |
| GroupModel.GroupStrengthError | backend/models/group.js:29-39 | The `groupStrength` validator rejects exactly the values <= 0, with its message. |
| GroupModel.NewGroup | backend/models/group.js:23-33 | A new row defaults to no image and strength 1, keeping the given name and creator. |
| GroupModel.AllSpace | backend/models/group.js:18-20 | The pattern `^[\s\t\r\n]*$` of Sequelize's `notEmpty` matches iff every character is JavaScript whitespace. |
| GroupModel.NotEmptyError | backend/models/group.js:18-20 | The `notEmpty` validator on `name` passes iff some character is not whitespace; otherwise it raises "Validation notEmpty on name failed". |
| GroupModel.DefaultsAreValid | backend/models/group.js:14-33 | A row with a valid name and the defaults passes every validator of the model. |
| GroupModel.AppendKeepsUnique | backend/models/group.js:17 | Inserting a row whose name is not taken keeps the `unique` constraint on names. |
| GroupModel.RenameKeepsUnique | backend/models/group.js:17 | Replacing a row by one whose name no other row has keeps names unique. |
| ExpenseModel.AmountError | backend/models/expense.js:16-25 | The `amount` validator rejects exactly the values <= 0, with its message. |
| ExpenseModel.NewExpense | backend/models/expense.js:29-33 | A new expense keeps every given column; `transactionTypeId` defaults to 0. |
| ExpenseModel.SettleUpPayee | backend/models/expense.js:27-33 | `transactionTypeId` 0 means an ordinary expense; any other value names the user paid. |
| ExpenseModel.DefaultIsOrdinary | backend/models/expense.js:29-33 | An expense created without naming a payee is ordinary. |
| Search.ContainsIff | backend/search/routes.js:34 | The `LIKE '%k%'` test holds iff some window of the text equals the keyword. |
| Search.Take | backend/search/routes.js:45 | `limit n` gives a prefix of exactly min(n, number of rows) rows, so all rows when there are at most n. |
| Search.MatchingUsers | backend/search/routes.js:27-43 | A user id is selected iff it is not the requester and the name or email contains the keyword; the ids come in strictly ascending table order. |
| Search.SearchUsers | backend/search/routes.js:17-48 | An invalid keyword gives an empty `users` list. Otherwise there are at most 10 results, each not the requester and matching on name or email, and when fewer than 10 come back every match is among them. No id is returned twice. |
| Search.AcceptedGroupIds | backend/search/routes.js:68-74 | The collected group ids are exactly those where the requester's row is INVITE_ACCEPTED. |
| Search.MatchingGroups | backend/search/routes.js:76-85 | A group is selected iff it is among the given ids and its name contains the keyword; the ids come in strictly ascending table order. |
| Search.SearchMyGroups | backend/search/routes.js:57-89 | An invalid keyword answers with an empty `users` list, not `groups`. Otherwise there are at most 10 groups, each with an INVITE_ACCEPTED row for the requester and a matching name, and all of them when there are fewer than 10. No group is returned twice. |
| Tables.AcceptedUsers | backend/groups/routes.js:584-593 | The listed users are exactly those with an INVITE_ACCEPTED row in the group. |
| Tables.AcceptedUsersCount | backend/groups/routes.js:584-593 | The listed accepted users are as many as the group's INVITE_ACCEPTED rows. |
| Tables.AcceptedUsersDistinct | backend/groups/routes.js:584-593 | With at most one row per (group, user), no accepted user is listed twice. |
| Tables.AcceptedCountAppend | backend/groups/routes.js:127-133 | The accepted rows of two concatenated tables are the sum of each table's. |
| Tables.SetStatusCount | backend/groups/routes.js:260-271 | A status change moves the accepted count of the row's group by the change in its INVITE_ACCEPTED indicator, and leaves every other group's count unchanged. |
| Tables.WithoutOne | backend/groups/routes.js:590-594 | Removing the requester from distinct accepted users leaves distinct users, one fewer when the requester was there. |
| Tables.SetStatus | backend/groups/routes.js:260 | Saving a new status changes that row's status and nothing else. |
| Tables.SetStatusDecidesRow | backend/groups/routes.js:260-262 | After the save, the (group, user) pair holds status s iff s is the new status, given at most one row per pair. |
| Tables.SetStatusKeepsUnique | backend/groups/routes.js:260-262 | Changing a status keeps at most one row per (group, user). |
| Tables.Without | backend/groups/routes.js:594 | The `filter` keeps exactly the ids other than the requester's. |
| Membership.FindRow | backend/groups/routes.js:244-251 | `findOne` returns the first row matching (group, user, status), and nothing iff there is none. |
| Membership.WithStrength | backend/groups/routes.js:271 | Only the strength of the named group changes. |
| Membership.StatusChangeKeepsValid | backend/groups/routes.js:260-271 | Changing one row's status while moving its group's strength by the change in accepted rows keeps the membership invariant. |
| Membership.CreatedRowsContent | backend/groups/routes.js:119-133 | The rows of a new group are exactly an INVITE_SENT row per invitee and the creator's INVITE_ACCEPTED row. |
| Membership.CreateKeepsStrengths | backend/groups/routes.js:114 | A new group with strength 1 and its rows keep every strength equal to its accepted count. |
| Membership.CreateKeepsUnique | backend/groups/routes.js:119-133 | Distinct invitees that exclude the creator keep at most one row per (group, user). |
| Membership.CreateKeepsValid | backend/groups/routes.js:109-133 | Creating a group with existing, distinct invitees other than the creator keeps the membership invariant. |
| Groups.NameError | backend/groups/routes.js:71-76 | A name is accepted iff it is present with 1 to 64 characters; otherwise the message is the required, empty or too-long message. The rule checks length only: an accepted name is valid for the model exactly when it also passes `notEmpty`. |
| Groups.DescriptionError | backend/groups/routes.js:512-518 | A description is accepted iff it is present with 1 to 64 characters, which also fits the 256-character column. A missing or empty one gets "Enter a description to record the expense.", a longer one "Enter a description in less than 64 characters." |
| Groups.AmountRuleError | backend/groups/routes.js:524-528 | An amount is accepted iff it is present and positive, which also passes the model's validator. A missing one gets "Enter an amount.", one <= 0 "Enter a valid amount to record the expense." |
| Groups.Dedupe | backend/groups/routes.js:90-92 | `Array.from(new Set(...))` has no repetitions and exactly the same elements. |
| Groups.InviteeIds | backend/groups/routes.js:90-92 | The invitees are distinct and are exactly the converted comma-separated pieces. |
| Groups.GroupIdsWith | backend/groups/routes.js:166-189 | The listed groups are exactly those where the requester's row has the status, newest first. |
| Groups.GroupRowsAppend | backend/groups/routes.js:109-117 | A new group with a valid name and an existing creator keeps every group row valid. |
| Groups.EditKeepsStoreValid | backend/groups/routes.js:475-481 | Renaming a group to an untaken valid name, with any image, keeps the store invariant. |
| Groups.Store.Create | backend/groups/routes.js:64-157 | The first failing check, in the route's order, answers: missing users, then the name rules, then empty users, then a self-invite, then the model's `notEmpty` validator (a name of whitespace only, refused before the INSERT, backend/models/group.js:18-20 and backend/groups/routes.js:151-153), then a duplicate name, then an unknown user. On success the new group has strength 1, every distinct invitee gets one INVITE_SENT row and the creator one INVITE_ACCEPTED row. |
| Groups.Store.InsertGroup | backend/groups/routes.js:106-141 | The group row and then its member rows are appended, keeping the store invariant. |
| Groups.Store.Accept | backend/groups/routes.js:223-288 | It succeeds iff the requester holds an INVITE_SENT row for the group, and fails with "No such invite found." otherwise. That row becomes INVITE_ACCEPTED and the strength grows by exactly 1. No INVITE_SENT row remains, so repeating fails. |
| Groups.Store.Reject | backend/groups/routes.js:291-346 | It succeeds iff there is an INVITE_SENT row. That row becomes INVITE_REJECTED and the strength stays. No INVITE_SENT row remains, so repeating fails. |
| Groups.Store.Leave | backend/groups/routes.js:349-418 | It needs an INVITE_ACCEPTED row and is refused while any balance row of the user in the group, in any currency, is nonzero. Otherwise the row becomes LEFT_GROUP and the strength drops by 1. |
| Groups.Store.EditGroup | backend/groups/routes.js:421-502 | The name rules, then membership, then the model's `notEmpty` validator (refused by `save` before the UPDATE, backend/groups/routes.js:495-497), then uniqueness decide. On success only that group's name changes, and its image when one was uploaded. |
| Groups.Store.MyGroups | backend/groups/routes.js:160-192 | Exactly the groups where the requester is INVITE_ACCEPTED, newest first. |
| Groups.Store.Invitations | backend/groups/routes.js:195-220 | Exactly the groups where the requester is INVITE_SENT, newest first. |
| Groups.Store.GroupBalances | backend/groups/routes.js:829-906 | Only an accepted member gets an answer, and then exactly the group's nonzero balance rows. |
| Groups.Store.AddExpense | backend/groups/routes.js:505-787 | It checks description, group id, amount and accepted membership, in that order, each with its message. On success the expense is recorded in the payer's currency with share = amount / groupStrength, and groupStrength = 1 + the number of other accepted members. The new expense row satisfies the expense model's column rules (`ValidExpense`: description within 256 characters, positive amount; backend/models/expense.js:11-25). Balances, debts and activities become `BalancesAfter`, `DebtsAfter` and `ActivitiesAfter` of the old tables, and the ledger invariant still holds. |
| Groups.Store.RecordExpense | backend/groups/routes.js:569-763 | The transaction body: the expense row, then the three passes, each equal to its ledger function; the ledger invariant is kept. |
| Groups.Store.ChargeMembers | backend/groups/routes.js:597-619 | The first pass charges each other member one share: an existing row drops by the share, and a missing one is created at minus the share. |
| Groups.Store.UpdateBalances | backend/groups/routes.js:597-645 | Both balance passes together give `BalancesAfter`. |
| Groups.Store.RecordDebtRows | backend/groups/routes.js:648-676 | The debt pass finds or creates each canonical row and adds the signed share. |
| Groups.Store.RecordActivityRows | backend/groups/routes.js:687-763 | The activity pass, over the other members then the payer, appends one row each as `RecordActivities` computes it. |
| Ledger.Accumulate | backend/groups/routes.js:597-618 | Find-or-create-then-add: the key is present afterwards, its amount grows by d (from 0 when absent), and no other key changes. |
| Ledger.UnsettledRows | backend/groups/routes.js:381-397 | The rows `/leave` counts are exactly the user's nonzero balance rows in the group, in any currency. |
| Ledger.SettledMeansZero | backend/groups/routes.js:395-398 | With no unsettled row, each of the user's balances in the group reads as zero. |
| Ledger.ChargeAllAt | backend/groups/routes.js:597-619 | Row k after the pass is its old amount minus one share when k belongs to a charged member, and unchanged otherwise; it exists iff it existed or belongs to a charged member. |
| Ledger.RecordDebtsAt | backend/groups/routes.js:648-676 | Each debt row moves by exactly `DebtDelta`: +share when the payer is the smaller id, −share when the payer is the larger id, 0 elsewhere. New rows are canonical pairs of the payer and another member. |
| Ledger.LastActivity | backend/groups/routes.js:691-697 | The most recent (user, currency) activity: it matches, no later row matches, and None means no row matches. |
| Ledger.LastGroupActivity | backend/groups/routes.js:723-736 | The most recent activity of the user whose expense lies in the group and currency, with the same three guarantees. |
| Ledger.NewActivityCarriesForward | backend/groups/routes.js:699-763 | A new row's expenseBalance is the delta. Its totalBalance is the previous total plus the delta, and its groupBalance the previous group balance plus the delta; each previous value is 0 when there is none. |
| Ledger.RecordActivitiesRows | backend/groups/routes.js:687-763 | The pass appends exactly one row per participant, in order, each with its delta as expenseBalance, and keeps the old log as a prefix. |
| Ledger.RecordActivitiesWellFormed | backend/groups/routes.js:700-742 | Every appended row names the expense being recorded, in its currency. |
| Ledger.RecordActivitiesTotals | backend/groups/routes.js:743-747 | After the pass each participant's latest total has moved by its delta, and every other user's or currency's latest total is unchanged. |
| Ledger.RecordActivitiesGroupBalances | backend/groups/routes.js:748-756 | After the pass each participant's latest group balance in (group, currency) has moved by its delta; all others are unchanged. |
| Ledger.LastGroupActivityNewExpense | backend/groups/routes.js:571-580 | Inserting the new expense row does not change what existing activities join to. |
| Ledger.SumIndicator | backend/groups/routes.js:597-619 | Proof helper for ExpenseConserves and ExpenseUserTotal: summing d over the members of a set of ids, and 0 elsewhere, gives d added once per member. |
| Ledger.TimesIsProduct | backend/groups/routes.js:635 | Proof helper for ExpenseConserves and ExpenseUserTotal: adding the share once per other member equals share × (groupStrength − 1). |
| Ledger.SumPointMass | backend/groups/routes.js:621-645 | Proof helper for ExpenseConserves and ExpenseUserTotal: adding v at one id in range adds v to a sum over the ids. |
| Ledger.EmptyLedgerValid | backend/groups/routes.js:597-676 | The empty balance, debt and activity tables satisfy the ledger invariant. |
| Ledger.NewGroupKeepsLedgerValid | backend/groups/routes.js:109-117 | Adding a group, which has no ledger rows, keeps the ledger invariant. |
| Ledger.ExpenseBalanceEffect | backend/groups/routes.js:596-645 | After an expense, each other participant's (group, user, currency) balance is lower by one share, or created at minus one share. The payer's is higher by (n − 1) shares. Nothing else changes, and only participants' rows are created. |
| Ledger.ExpenseDeltaSplit | backend/groups/routes.js:611-643 | In its own group and currency, the change is −share for each other participant and (n − 1) × share for the payer. |
| Ledger.ChargeSum | backend/groups/routes.js:597-619 | Charging one share to each distinct other member charges (n − 1) shares in all. |
| Ledger.ExpenseDeltaSumsToZero | backend/groups/routes.js:597-645 | When n is the number of participants, the changes of one expense sum to zero over all users. |
| Ledger.ExpenseConserves | backend/groups/routes.js:597-645 | One expense leaves the sum of all balances of every (group, currency) unchanged. |
| Ledger.ExpenseDebtEffect | backend/groups/routes.js:648-676 | Each user pair's signed debt moves by exactly the change the expense makes between them. |
| Ledger.PairDeltaSum | backend/groups/routes.js:648-676 | Summed over all counterparts, a user's pairwise debt changes equal the change to that user's balance. |
| Ledger.ExpenseKeepsDebtsMatching | backend/groups/routes.js:597-676 | After an expense each balance still equals the net of that user's pairwise debts. |
| Ledger.ParticipantsDistinct | backend/groups/routes.js:687 | Appending the payer to the distinct other members gives distinct participants: the payer and the others. |
| Ledger.ActivitiesWellFormedExtend | backend/groups/routes.js:571-580 | Appending an expense row keeps every activity well-formed. |
| Ledger.ExpenseKeepsKeysValid | backend/groups/routes.js:597-676 | Balance keys keep naming existing groups and users, and debt keys stay canonical (userId1 < userId2; backend/models/model_relations.js:60-63). |
| Ledger.ExpenseKeepsGroupBalancesLogged | backend/groups/routes.js:597-763 | Every balance still equals the group balance of that user's latest activity in the group and currency. |
| Ledger.ExpenseUserTotal | backend/groups/routes.js:597-645 | A user's balance summed over all groups moves by its delta in the expense's currency, and not at all in others. |
| Ledger.ExpenseKeepsTotalsLogged | backend/groups/routes.js:597-763 | Every latest total still equals that user's balances summed over all groups. |
| Ledger.ExpenseKeepsLedgerValid | backend/groups/routes.js:564-763 | One expense by an accepted member, split among the n accepted members, keeps the whole ledger invariant. |
| Common.DistinctCard | backend/groups/routes.js:590-594 | A list without repeats has as many elements as its set. |

## Left out

- HTTP plumbing is not modelled: Express routing, the Joi machinery beyond the rules each route states, and the JSON shapes of the answers. A route's answer is `Ok(value)` or `Failure(errorMessage)`.
- Non-integer or non-numeric ids are not modelled. Ids are `int`, and the model only distinguishes id <= 0. Only `/groupbalance` (backend/groups/routes.js:835) refuses a fractional id, with "Select a valid group". The `id` schemas of `/accept`, `/reject` and `/leave` (backend/groups/routes.js:230, 298, 356) and of `/editgroup` (backend/groups/routes.js:440-444) have no `integer()` rule, so their `number.integer` message never fires: an id such as 1.5 passes validation and then matches no membership row. `/accept` and `/reject` then answer "No such invite found.", and `/leave` answers "Select a valid group". The `groupId` schema of `/addexpense` (backend/groups/routes.js:519-523) has `integer()` but no `number.integer` message, so 1.5 gets Joi's default "must be an integer" text, which the model does not produce. A missing id gives the same message, which the model reaches through id <= 0.
- Multer uploads and image paths: an uploaded image is an optional path parameter.
- Authentication: `jwt.verify`, `jwt.sign` and bcrypt are foreign cryptographic calls.
  - The requester is the id the middleware put in `req.user.id`.
  - The client's verifier is a function parameter of `IsJwtValid`.
  - `verifyToken` and the client's `getFormDataHeader`/`getRedirectComponent` have no logic of their own to model.
- `Number` is a function parameter of `InviteeIds`. NaN and the parse error it could raise are not modelled. The catch at backend/groups/routes.js:93-95 has no `return`, so its response is followed by a second one; the model gives only the first, "Select valid users", for a missing users field.
- The unique and foreign-key constraint errors of `/create` come back from the database in the order it checks them. The model checks the duplicate name before unknown users.
- Concurrency is not modelled: `forEach(async …)` without `await`, and the commit and response inside the last loop of `/addexpense`. One expense is a single sequential, atomic step, with the members walked in member-table order.
- Floating point: amounts are `real` and the share is exact; IEEE rounding is not modelled.
- Groups.AmountRuleError: Joi's `number()` type refuses an amount beyond Number.MAX_SAFE_INTEGER with its default `number.unsafe` message ("amount" must be a safe number) before any rule of backend/groups/routes.js:524-528 runs. The model accepts every positive amount.
- GroupModel.UniqueNames, GroupModel.NameTaken, Groups.Store.Create, Groups.Store.EditGroup: name uniqueness is exact string equality. The `unique` constraint of backend/models/group.js:17 is enforced by MySQL under the table's collation. The default collations compare names equal regardless of case and accents, and the PAD SPACE ones ignore trailing spaces. With "Trip" stored, the source answers "Group with this name already exists." to "trip" (backend/groups/routes.js:143, 491), while the model accepts it.
- Ordering by `createdAt`: it is modelled as id order. Timestamps only grow weakly with ids: rows created in the same second tie, and `ORDER BY createdAt DESC` leaves ties in an order the database chooses. The model breaks every tie by id, so "newest first" is descending id and "latest activity" is the last row.
- A refusal by a Sequelize validator answers `{errorMessage: err}` with the whole error object (backend/groups/routes.js:151-153, 495-497). The model answers with the error's message only.
- The `notEmpty: true` on the expense `description` (backend/models/expense.js:14) sits outside a `validate` block, so Sequelize does not run it. A description of spaces is accepted by the route and the table, and the model accepts it too.
- Groups.NameError, Groups.DescriptionError: lengths are counted in Unicode scalar values (Dafny's `|s|`), whereas Joi's `min`/`max` count UTF-16 code units. A name of 33 characters outside the Basic Multilingual Plane (66 code units) is refused by backend/groups/routes.js:71-76 but accepted by the model; for text within that plane the two counts agree.
- Search: `LIKE` is modelled as a case-sensitive substring test. `%`/`_` wildcards inside the keyword and the database's collation are not modelled. The rows the limit keeps are the first in id order.
- Settle-up is not present in the routes. Only the meaning of `transactionTypeId` is modelled.
- The group detail and expense list routes (`/:id`, `/expenses/:id`) and their `dayjs` formatting are not modelled.
- `/groupbalance/:id` is modelled as returning the balance rows the route selects, not `getGroupBalanceStatement` strings. That helper is called at backend/groups/routes.js:896, but backend/helpers/utils.js does not define it.
- The debt model validator rejects amounts <= 0 (backend/models/debt.js:15-19), yet the route writes signed amounts. The activity model declares one `balance` column, yet the route writes three. The model follows the route.
- The `!listOfGroupBalances` branch (backend/groups/routes.js:385) cannot be taken, because `findAll` returns an array; the model has only the filtered branch.
- The strength of a group reaches 0 when its last member leaves. `decrement` bypasses the model validator, which would reject 0, so no bound like ValidGroup is stated after a leave.
- The transaction model is not modelled; its registration is commented out in backend/models/model_relations.js.
