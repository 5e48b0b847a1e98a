/**
 * The balance endpoint (GetGroupBalances) put together: look the group
 * up, fold its expenses into a balance per member, order the balances by
 * descending amount and plan the settlements. What it returns is tied here
 * to what the expense endpoints record.
 */
module ExpensesController {
  import opened Money
  import opened Models
  import opened Linq
  import opened Balances
  import opened Settlements
  import opened Splits

  /** GroupBalanceSummaryDto without group id and name. */
  datatype GroupBalanceSummary = GroupBalanceSummary(userBalances: seq<UserBalance>, suggestedSettlements: seq<Settlement>)

  /** Every expense splits its total exactly (as the equal-split endpoint records them). */
  predicate ExactSplits(es: seq<Expense>)
  {
    forall k :: 0 <= k < |es| ==> SumOwed(es[k].participants) == es[k].totalAmount
  }

  /** No balance is one cent either way. */
  predicate NoStrayCent(bs: seq<UserBalance>)
  {
    forall i :: 0 <= i < |bs| ==> bs[i].balance != OneCent && bs[i].balance != -OneCent
  }

  /**
   * Lines 233-299: NotFound when the group is missing; otherwise the
   * members' balances by descending amount and the suggested settlements.
   * The balances add up to the changes the fold applied; for expenses the
   * endpoints record they add up to within a cent per expense of zero, and
   * to exactly zero for exact splits, in which case, barring stray
   * one-cent balances, the settlements clear every balance.
   */
  method GetGroupBalances(group: GroupLookup, expenses: seq<Expense>) returns (r: Option<GroupBalanceSummary>)
    ensures r.None? <==> group.None?
    ensures r.Some? ==>
      var ub := r.value.userBalances;
      ub == UserBalances(group.value, expenses)
      && r.value.suggestedSettlements == GreedyPlan(Creditors(ub), Debtors(ub))
      && Total(ub) == Applied(expenses, group.value)
    ensures r.Some? && (forall k :: 0 <= k < |expenses| ==> Recordable(expenses[k], group.value)) ==>
      Abs(Total(r.value.userBalances)) <= |expenses| * OneCent
    ensures r.Some? && (forall k :: 0 <= k < |expenses| ==> Recordable(expenses[k], group.value))
      && ExactSplits(expenses) && NoStrayCent(r.value.userBalances)
      ==> Settled(r.value.userBalances, r.value.suggestedSettlements)
  {
    if group.None? {
      return None;
    }
    var members := group.value;
    var userBalances := BalanceList(members, expenses);
    var settlements := CalculateSettlements(userBalances);
    r := Some(GroupBalanceSummary(userBalances, settlements));
    if forall k :: 0 <= k < |expenses| ==> Recordable(expenses[k], members) {
      RecordedExpensesBalance(expenses, members);
      if ExactSplits(expenses) && NoStrayCent(userBalances) {
        ExactSplitsSettle(members, expenses, userBalances);
      }
    }
  }

  /** No balance is left open and every member's net transfer is its balance. */
  predicate Settled(ub: seq<UserBalance>, settlements: seq<Settlement>)
  {
    GreedyLeft(Creditors(ub), Debtors(ub)) == ([], [])
    && forall i :: 0 <= i < |ub| ==>
      ReceivedBy(settlements, ub[i].userId) - PaidBy(settlements, ub[i].userId) == ub[i].balance
  }

  /** Lines 252-285: the dictionary fold, then its entries by descending balance. */
  method BalanceList(members: seq<UserId>, expenses: seq<Expense>) returns (userBalances: seq<UserBalance>)
    ensures userBalances == UserBalances(members, expenses)
    ensures Total(userBalances) == Applied(expenses, members)
  {
    var keys, balances := AggregateBalances(members, expenses);
    var entries := Entries(keys, balances);
    userBalances := OrderBy(entries, NegatedBalance);
    EntriesTotal(keys, balances);
    OrderBySum(entries, NegatedBalance, BalanceOf);
  }

  /** Exact splits by members and no stray cent: the suggested settlements clear every balance. */
  lemma ExactSplitsSettle(members: seq<UserId>, es: seq<Expense>, ub: seq<UserBalance>)
    requires ub == UserBalances(members, es) && Total(ub) == Applied(es, members)
    requires forall k :: 0 <= k < |es| ==> Recordable(es[k], members)
    requires ExactSplits(es) && NoStrayCent(ub)
    ensures Settled(ub, GreedyPlan(Creditors(ub), Debtors(ub)))
  {
    RecordedExpensesBalance(es, members);
    assert Total(ub) == 0;
    UserBalancesSpec(members, es);
    assert DistinctIds(ub);
    EveryMemberSettled(ub);
  }

  /** The sum of the listed entries is the sum of the dictionary values. */
  lemma {:induction false} EntriesTotal(keys: seq<UserId>, m: map<UserId, Cents>)
    requires forall i :: 0 <= i < |keys| ==> keys[i] in m
    ensures Total(Entries(keys, m)) == SumOver(keys, m)
  {
    if keys != [] {
      EntriesTotal(keys[1..], m);
      assert Entries(keys, m)[1..] == Entries(keys[1..], m);
    }
  }

  /**
   * Expenses the endpoints record move the group's balances by at most a
   * cent each in all, and not at all when every split is exact.
   */
  lemma RecordedExpensesBalance(es: seq<Expense>, members: seq<UserId>)
    requires forall k :: 0 <= k < |es| ==> Recordable(es[k], members)
    ensures Abs(Applied(es, members)) <= |es| * OneCent
    ensures ExactSplits(es) ==> Applied(es, members) == 0
  {
    assert AllMembers(es, members);
    ConservationWithinTolerance(es, members);
    if ExactSplits(es) {
      ConservationExact(es, members);
    }
  }
}
