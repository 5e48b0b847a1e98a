# Fairly expense engine — a Dafny model

Fairly is a small ASP.NET Core API for sharing expenses within a group. Its
logic lives in `ExpensesController`: three parts of it are modelled here and
proved correct.

- **Recording an expense.** An expense is either split equally among the
  listed participants, with the last one absorbing the rounding difference,
  or split into custom amounts. Before anything is recorded, the request
  goes through a fixed sequence of checks. The first check that fails
  decides the error response.
- **Group balances.** Every member starts at zero. Each expense credits its
  payer with the total and debits every participant row with the amount
  owed. Ids that are not members of the group are skipped. The balances are
  listed by descending amount.
- **Suggested settlements.** Members owed more than a cent are creditors,
  largest first. Members owing more than a cent are debtors, largest debt
  first. A two-cursor loop lets the current debtor pay the current creditor
  as much as both allow, then moves past whichever of the two is settled.

All amounts are whole cents (`int`). The database stores every amount as
`numeric(10,2)` (FairlyApi/Data/FairlyDbContext.cs, Models/Expense.cs,
Models/ExpenseParticipant.cs), and C# `decimal` arithmetic on such values
is exact. In cents the source's tests read as follows:

- `> 0.01m` is `>= 2` cents;
- `< 0.01m` and `Math.Abs(x) < 0.01m`, applied to remainders that cannot
  change sign (line 347 for the creditor, 352 for the debtor), are `== 0`;
- `Math.Abs(sum - total) > 0.01m` is a difference of at least 2 cents;
- `Math.Round(amount, 2)` (line 332) is the identity;
- `Math.Round(total / n, 2)` (line 101) is the default midpoint-to-even
  rounding of `total / n` cents, `Money.RoundHalfEven`.

Modules, one per file:

| file | module | models |
|---|---|---|
| money.dfy | `Money` | cents, `Abs`, `Min`, half-to-even rounding |
| models.dfy | `Models` | expense, participant row, balance and settlement records |
| linq.dfy | `Linq` | `Where`, and the stable `OrderBy`/`OrderByDescending` |
| balances.dfy | `Balances` | the balance fold of `GetGroupBalances` |
| settlements.dfy | `Settlements` | `CalculateSettlements` and its greedy plan |
| splits.dfy | `Splits` | the two expense-creation endpoints |
| expenses_controller.dfy | `ExpensesController` | the balance endpoint, and how it relates to what the creation endpoints record |

The model takes these forms:

- **The balance dictionary** is a `map` that the fold methods update, plus
  the sequence of its keys in insertion order, which is the order in which
  `Dictionary` enumerates them.
- **The settlement loop** is a method. It overwrites the current element of
  each working list and moves the cursors, as the source does. It is proved
  equal to `Settlements.GreedyPlan`, a recursive definition of the same
  plan. The plan's properties are proved about that function.
- **The equal-split loop and the custom-split checking loop** are methods.
  Each is proved against its specification.

Tie-breaking is a modelling choice:

- members keep the order of the group's member list, the dictionary's
  insertion order;
- `OrderByDescending` at line 285 and the sorts at lines 310 and 316 are
  modelled as stable sorts, as LINQ's are.

## Model

| member | source | states |
|---|---|---|
| Money.RoundHalfEven | FairlyApi/Controllers/ExpensesController.cs:101 | the per-person share is within half a cent of the exact quotient, and an exact tie goes to the even cent |
| Money.RoundHalfEvenUnique | FairlyApi/Controllers/ExpensesController.cs:101 | only one value has both properties of half-to-even rounding |
| Linq.Where | FairlyApi/Controllers/ExpensesController.cs:307-308 | the filter keeps exactly the entries satisfying the predicate, with their multiplicities, each drawn from the input |
| Linq.WhereAppend | FairlyApi/Controllers/ExpensesController.cs:307-308 | the filter keeps order: filtering a concatenation is the concatenation of the filtered parts |
| Linq.WhereWithKey | FairlyApi/Controllers/ExpensesController.cs:307-317 | entries with a key that always passes the filter come through it all, in their order |
| Linq.OrderBy | FairlyApi/Controllers/ExpensesController.cs:285 | the sort is a permutation, ordered by the key, and stable: entries with equal keys keep their relative order |
| Linq.OrderBySum | FairlyApi/Controllers/ExpensesController.cs:285 | sorting does not change any sum over the entries |
| Linq.OrderByInjective | FairlyApi/Controllers/ExpensesController.cs:285 | sorting a list with distinct users yields a list with distinct users |
| Balances.Dedup | FairlyApi/Controllers/ExpensesController.cs:255-258 | the dictionary's keys are the member ids, each once |
| Balances.InitBalances | FairlyApi/Controllers/ExpensesController.cs:252-258 | after initialisation there is exactly one entry per member, listed once in first-insertion order, every one 0 |
| Balances.ApplyExpense | FairlyApi/Controllers/ExpensesController.cs:262-276 | one expense leaves the set of keys alone, moves each member's entry by what that member paid minus what it owes in the rows, and moves the sum by the credited total less the debited rows of members |
| Balances.AggregateBalances | FairlyApi/Controllers/ExpensesController.cs:252-277 | after the fold every member's entry is its net over all expenses (paid minus owed), and the entries sum to the total of all changes applied |
| Balances.AppliedIsDiscrepancy | FairlyApi/Controllers/ExpensesController.cs:261-277 | when all payers and participants are members, the fold's changes add up to how far the splits miss their totals |
| Balances.ConservationExact | FairlyApi/Controllers/ExpensesController.cs:261-277 | when every split sums exactly to its total and all ids are members, the balances sum to 0 |
| Balances.ConservationWithinTolerance | FairlyApi/Controllers/ExpensesController.cs:153 | with splits within a cent of their totals, the balances sum to within one cent per expense of 0 |
| Balances.NetReorder | FairlyApi/Controllers/ExpensesController.cs:261-277 | a member's balance does not depend on the order of the expenses |
| Balances.NetBalancesReorder | FairlyApi/Controllers/ExpensesController.cs:246-277 | reordering the expenses yields the same balance dictionary |
| Balances.UserBalances | FairlyApi/Controllers/ExpensesController.cs:280-285 | the returned list has one entry per distinct member, in non-increasing order of balance (the rest is in `Balances.UserBalancesSpec`) |
| Balances.Entries | FairlyApi/Controllers/ExpensesController.cs:280-284 | the `Select` lists one entry per dictionary key, in key order, each holding that key's value |
| Balances.UserBalancesSpec | FairlyApi/Controllers/ExpensesController.cs:280-285 | the balance list has one entry per member, members without activity included; no user appears twice; each entry is the member's net; the list is in non-increasing order of balance |
| Settlements.Creditors | FairlyApi/Controllers/ExpensesController.cs:307-311 | every creditor is owed more than a cent |
| Settlements.Debtors | FairlyApi/Controllers/ExpensesController.cs:313-317 | every debtor owes more than a cent |
| Settlements.CreditorsSpec | FairlyApi/Controllers/ExpensesController.cs:307-311 | the creditors are exactly the balances above a cent, as often as they occur, in non-increasing order; creditors with equal balances keep their order in the input |
| Settlements.DebtorsSpec | FairlyApi/Controllers/ExpensesController.cs:313-317 | the debtors are exactly the balances below minus a cent, as often as they occur, in non-decreasing order; debtors with equal balances keep their order in the input |
| Settlements.DeadZoneExcluded | FairlyApi/Controllers/ExpensesController.cs:308 | a balance within a cent of zero is neither a creditor nor a debtor |
| Settlements.Amount | FairlyApi/Controllers/ExpensesController.cs:331-332 | a transfer is at least a cent, at most both the creditor's remaining balance and the debtor's remaining debt, and equal to one of them |
| Settlements.PayCreditor | FairlyApi/Controllers/ExpensesController.cs:344-350 | paying a creditor keeps every open creditor owed at least a cent; the creditor is dropped exactly when fully paid, otherwise its balance falls by the amount |
| Settlements.PayDebtor | FairlyApi/Controllers/ExpensesController.cs:345-355 | collecting from a debtor keeps every open debtor owing at least a cent; the debtor is dropped exactly when fully paid up, otherwise its debt falls by the amount |
| Settlements.GreedyPlan | FairlyApi/Controllers/ExpensesController.cs:326-356 | the plan the loop emits, never longer than the open creditors and debtors together (its other properties are in the lemmas below) |
| Settlements.GreedyLeft | FairlyApi/Controllers/ExpensesController.cs:326 | when the plan stops, one of the two lists is used up, and what is left is still owed or owing, never of the opposite sign |
| Settlements.CalculateSettlements | FairlyApi/Controllers/ExpensesController.cs:302-359 | the returned settlements are the greedy plan of the sorted creditors and debtors of the input |
| Settlements.MatchGreedily | FairlyApi/Controllers/ExpensesController.cs:320-356 | the two-cursor loop over working copies emits exactly the greedy plan |
| Settlements.LoopStep | FairlyApi/Controllers/ExpensesController.cs:328-355 | one iteration advances at least one cursor, keeps the open entries non-zero, and emits the first settlement of the plan still to do |
| Settlements.CreditorStep | FairlyApi/Controllers/ExpensesController.cs:344-350 | overwriting the current creditor and moving its cursor leaves the open creditors that `PayCreditor` describes |
| Settlements.DebtorStep | FairlyApi/Controllers/ExpensesController.cs:345-355 | overwriting the current debtor and moving its cursor leaves the open debtors that `PayDebtor` describes |
| Settlements.GreedyPlanLength | FairlyApi/Controllers/ExpensesController.cs:326-356 | no settlement when either list is empty; otherwise at least one and at most creditors + debtors - 1 |
| Settlements.GreedyPlanSettlements | FairlyApi/Controllers/ExpensesController.cs:334-341 | every settlement moves at least a cent from a debtor to a creditor |
| Settlements.GreedyAccounting | FairlyApi/Controllers/ExpensesController.cs:326-356 | what the plan pays each member is what it was owed minus what stays open for it; what it makes each member pay is what it owed minus what it still owes |
| Settlements.GreedyTotals | FairlyApi/Controllers/ExpensesController.cs:344-345 | the plan keeps the sum of all open balances |
| Settlements.GreedyNoOverpayment | FairlyApi/Controllers/ExpensesController.cs:344-355 | no member is paid more than it was owed, nor made to pay more than it owed |
| Settlements.GreedyBalanced | FairlyApi/Controllers/ExpensesController.cs:326-356 | when the credits and debts cancel out, the plan settles every creditor and every debtor |
| Settlements.PartitionSum | FairlyApi/Controllers/ExpensesController.cs:307-317 | splitting into creditors and debtors loses nothing of a sum to which the dead zone contributes nothing |
| Settlements.CreditorsDebtorsDistinct | FairlyApi/Controllers/ExpensesController.cs:307-317 | distinct users stay distinct among the creditors and among the debtors |
| Settlements.NoSelfPayment | FairlyApi/Controllers/ExpensesController.cs:334-341 | with distinct users, nobody is asked to pay themselves |
| Settlements.SettlesEveryone | FairlyApi/Controllers/ExpensesController.cs:302-359 | balances summing to 0 with no one at exactly one cent either way are all cleared: each member receives minus pays exactly its balance |
| Settlements.EveryMemberSettled | FairlyApi/Controllers/ExpensesController.cs:302-359 | with distinct users besides, each listed member's net transfer is its own balance |
| Settlements.NoDebtors | FairlyApi/Controllers/ExpensesController.cs:326 | with nobody owing more than a cent, no settlement is suggested |
| Settlements.DeadZoneResidual | FairlyApi/Controllers/ExpensesController.cs:307-317 | balances +0.03, -0.01, -0.01, -0.01 sum to 0 yet get no settlement |
| Settlements.ThreeWayExample | FairlyApi/Controllers/ExpensesController.cs:302-359 | a member owed 20.00 by two others owing 10.00 each is paid 10.00 by each, in list order |
| Splits.EqualSplitError | FairlyApi/Controllers/ExpensesController.cs:57-86 | an equal-split request is accepted exactly when the total is positive, there are participants, the group exists, and payer and participants are members; each error is given exactly when all earlier checks pass and its own fails |
| Splits.EqualShares | FairlyApi/Controllers/ExpensesController.cs:101-124 | one share per listed participant in order; all but the last are the rounded quotient, the last takes up the difference, and the shares sum exactly to the total |
| Splits.LastShareBound | FairlyApi/Controllers/ExpensesController.cs:101-114 | the last share differs from the others by at most half the number of participants, in cents |
| Splits.NonPositiveLastShares | FairlyApi/Controllers/ExpensesController.cs:101-114 | the last share can be zero (0.02 among three) or negative (0.15 among ten gives -0.03) |
| Splits.ShareError | FairlyApi/Controllers/ExpensesController.cs:177-188 | a row is objected to exactly when its amount is not positive (checked first) or its user is not a member |
| Splits.FirstShareError | FairlyApi/Controllers/ExpensesController.cs:175-189 | no objection exactly when every row has a positive amount and a member; otherwise the objection to the first row that has one |
| Splits.CheckShares | FairlyApi/Controllers/ExpensesController.cs:175-189 | the loop returns the objection to the first failing row, or none |
| Splits.CustomSplitError | FairlyApi/Controllers/ExpensesController.cs:141-189 | a custom split is accepted exactly when the total is positive, there are rows, they sum to the total within a cent, the group exists, the payer is a member and every row has a positive amount and a member; each of the first five errors is given exactly when the earlier checks pass and its own fails; once those five pass, the answer is the first failing row's objection |
| Splits.CreateExpenseEqualSplit | FairlyApi/Controllers/ExpensesController.cs:53-134 | refused exactly when a check fails, with the first failing check's error; otherwise records the payer, the total and one row per participant in order, summing exactly to the total |
| Splits.CreateExpenseCustomSplit | FairlyApi/Controllers/ExpensesController.cs:138-228 | refused exactly when a check fails, with the first failing check's error; otherwise records the request's rows as given, all positive and by members, within a cent of the total |
| ExpensesController.GetGroupBalances | FairlyApi/Controllers/ExpensesController.cs:233-299 | not found exactly when the group is missing; otherwise the balances by descending amount and their greedy plan, the balances summing to within a cent per recorded expense of 0, and cleared entirely by the plan when all splits are exact and no balance is one cent either way |
| ExpensesController.BalanceList | FairlyApi/Controllers/ExpensesController.cs:252-285 | the listed balances are the members' nets in descending order and add up to the total change the fold applied |
| ExpensesController.EntriesTotal | FairlyApi/Controllers/ExpensesController.cs:280-285 | listing the dictionary entries keeps the sum of the values |
| ExpensesController.RecordedExpensesBalance | FairlyApi/Controllers/ExpensesController.cs:153 | expenses the creation endpoints accept move a group's balance sum by at most a cent each, and not at all when their splits are exact |
| ExpensesController.ExactSplitsSettle | FairlyApi/Controllers/ExpensesController.cs:288 | for exact splits by members and no one-cent balance, the suggested settlements clear every balance |

## Where the code departs from what one might expect

- **Balances do not always sum to zero.** One might expect a group's
  balances to sum to zero. The code does not make that true:
  - the custom split accepts a sum that misses the total by one cent
    (line 153);
  - what the balances sum to is how far the splits miss their totals
    (`Balances.AppliedIsDiscrepancy`);
  - so they are within one cent per expense of zero
    (`Balances.ConservationWithinTolerance`), and exactly zero when every
    split is exact (`Balances.ConservationExact`).
- **The settlements can leave balances open.** The comment at line 301
  calls the suggested settlements optimal, and one might expect them to
  clear every debt. They do not always do so.
  - Members within one cent of zero take no part (lines 308 and 314).
  - A residual can therefore remain: `Settlements.DeadZoneResidual` shows
    four balances summing to zero for which nothing is suggested.
  - `Settlements.SettlesEveryone` states the condition under which
    everything is cleared.
- **The last equal share need not be positive.** The equal split's last
  share can be zero or negative (`Splits.NonPositiveLastShares`). This is
  not claimed as a defect: the custom split refuses such amounts, but the
  code shows no intent beyond making the cents add up.

## Left out

- **Plumbing.** Entity Framework queries, `SaveChangesAsync`, `Include`,
  and the HTTP result types are not part of this model.
  - Looking up a group is a parameter, `None` when no group has the id.
  - The group's members are a sequence of user ids.
  - An error response is a `Failure` value naming the check that refused.
- **The database write is not modelled.** Both creation endpoints save
  the expense before its participant rows: the equal split at lines 98-99
  and 126, the custom split at lines 202-203 and 218. A failure
  between the two saves, for example a duplicate participant id breaking
  the (ExpenseId, UserId) key, leaves an expense without rows. Duplicate
  participant ids pass the model's checks, as they pass the code's.
- **Null lists.** A null participant list is refused by the same check as
  an empty one; the model has no null.
- **Amounts below a cent.** Request amounts are taken to be whole cents,
  the stored precision. An amount of a fraction of a cent is not modelled.
  The participant count is also assumed small enough that `decimal`
  division does not round before `Math.Round`.
- **Other fields.** Display names (line 283), group name, descriptions,
  dates, timestamps and generated ids do not affect any amount and are
  left out.
- **Other sources.** `GetExpenses`, `GetExpense`, `UpdateExpense` and
  `DeleteExpense` (lines 21-50 and 362-418) are plain database reads and
  writes with no computation, and are not part of this model. Neither are GroupController.cs,
  UsersController.cs, FairlyDbContext.cs and Program.cs; they are database
  CRUD and configuration.
- **Which expenses are fetched.** The expenses of a group (lines 246-249)
  are an input.
- **Storage limits.** `numeric(10,2)` caps a stored amount at
  99,999,999.99; the model's integers are unbounded, so neither that cap
  nor the database's refusal of a larger value is modelled.
