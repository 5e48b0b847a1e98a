/**
 * Greedy settlement planning (CalculateSettlements): the members owed more
 * than a cent (creditors, largest first) are paired with the members owing
 * more than a cent (debtors, largest debt first). Each step pays the
 * current creditor from the current debtor as much as both allow and moves
 * on past whichever of them is then settled.
 */
module Settlements {
  import opened Money
  import opened Models
  import opened Linq

  /** Where(b => b.Balance > 0.01m): owed at least two cents. */
  predicate IsCreditor(b: UserBalance) { b.balance > OneCent }

  /** Where(b => b.Balance < -0.01m): owing at least two cents. */
  predicate IsDebtor(b: UserBalance) { b.balance < -OneCent }

  /** Lines 307-311: the creditors, by descending balance (stable). */
  function Creditors(bs: seq<UserBalance>): (r: seq<UserBalance>)
    ensures forall i :: 0 <= i < |r| ==> IsCreditor(r[i])
  {
    var r := OrderBy(Where(bs, IsCreditor), NegatedBalance);
    assert forall i :: 0 <= i < |r| ==> r[i] in multiset(Where(bs, IsCreditor));
    r
  }

  /** Lines 313-317: the debtors, by ascending balance, the largest debt first (stable). */
  function Debtors(bs: seq<UserBalance>): (r: seq<UserBalance>)
    ensures forall i :: 0 <= i < |r| ==> IsDebtor(r[i])
  {
    var r := OrderBy(Where(bs, IsDebtor), BalanceOf);
    assert forall i :: 0 <= i < |r| ==> r[i] in multiset(Where(bs, IsDebtor));
    r
  }

  /**
   * The creditors are exactly the entries owed more than a cent, each as
   * often as in `bs`, in non-increasing order of balance; creditors with
   * the same balance (negated key `k`) keep their order in `bs`.
   */
  lemma CreditorsSpec(bs: seq<UserBalance>)
    ensures forall b :: multiset(Creditors(bs))[b] == if IsCreditor(b) then multiset(bs)[b] else 0
    ensures forall i, j :: 0 <= i < j < |Creditors(bs)| ==> Creditors(bs)[i].balance >= Creditors(bs)[j].balance
    ensures forall k :: k < -OneCent ==> WithKey(Creditors(bs), NegatedBalance, k) == WithKey(bs, NegatedBalance, k)
  {
    var cs := Creditors(bs);
    forall k | k < -OneCent ensures WithKey(cs, NegatedBalance, k) == WithKey(bs, NegatedBalance, k) {
      WhereWithKey(bs, IsCreditor, NegatedBalance, k);
    }
    assert SortedBy(cs, NegatedBalance);
    forall i, j | 0 <= i < j < |cs| ensures cs[i].balance >= cs[j].balance {
      assert NegatedBalance(cs[i]) <= NegatedBalance(cs[j]);
    }
  }

  /**
   * The debtors are exactly the entries owing more than a cent, each as
   * often as in `bs`, in non-decreasing order of balance; debtors with the
   * same balance `k` keep their order in `bs`.
   */
  lemma DebtorsSpec(bs: seq<UserBalance>)
    ensures forall b :: multiset(Debtors(bs))[b] == if IsDebtor(b) then multiset(bs)[b] else 0
    ensures forall i, j :: 0 <= i < j < |Debtors(bs)| ==> Debtors(bs)[i].balance <= Debtors(bs)[j].balance
    ensures forall k :: k < -OneCent ==> WithKey(Debtors(bs), BalanceOf, k) == WithKey(bs, BalanceOf, k)
  {
    var ds := Debtors(bs);
    forall k | k < -OneCent ensures WithKey(ds, BalanceOf, k) == WithKey(bs, BalanceOf, k) {
      WhereWithKey(bs, IsDebtor, BalanceOf, k);
    }
    assert SortedBy(ds, BalanceOf);
    forall i, j | 0 <= i < j < |ds| ensures ds[i].balance <= ds[j].balance {
      assert BalanceOf(ds[i]) <= BalanceOf(ds[j]);
    }
  }

  /** Entries within a cent of zero take no part in the plan. */
  lemma DeadZoneExcluded(bs: seq<UserBalance>, b: UserBalance)
    requires -OneCent <= b.balance <= OneCent
    ensures b !in Creditors(bs) && b !in Debtors(bs)
  {
    CreditorsSpec(bs);
    DebtorsSpec(bs);
    assert multiset(Creditors(bs))[b] == 0 && multiset(Debtors(bs))[b] == 0;
  }

  /** Every creditor still to be paid is owed at least a cent. */
  predicate AllOwed(cs: seq<UserBalance>)
  {
    forall i :: 0 <= i < |cs| ==> cs[i].balance >= OneCent
  }

  /** Every debtor still to pay owes at least a cent. */
  predicate AllOwing(ds: seq<UserBalance>)
  {
    forall i :: 0 <= i < |ds| ==> ds[i].balance <= -OneCent
  }

  /** Line 331: the current creditor's remaining balance or the current debtor's remaining debt, whichever is smaller. */
  function Amount(cs: seq<UserBalance>, ds: seq<UserBalance>): (r: Cents)
    requires cs != [] && ds != [] && AllOwed(cs) && AllOwing(ds)
    ensures OneCent <= r <= cs[0].balance && r <= -ds[0].balance
    ensures r == cs[0].balance || r == -ds[0].balance
  {
    Min(cs[0].balance, Abs(ds[0].balance))
  }

  /** Lines 344 and 347-350: the creditor is paid `amount` and left behind once below a cent. */
  function PayCreditor(cs: seq<UserBalance>, amount: Cents): (r: seq<UserBalance>)
    requires cs != [] && AllOwed(cs) && 0 <= amount <= cs[0].balance
    ensures AllOwed(r)
    ensures if amount == cs[0].balance then r == cs[1..] else r == [cs[0].(balance := cs[0].balance - amount)] + cs[1..]
  {
    var remaining := cs[0].balance - amount;
    if remaining < OneCent then cs[1..] else [cs[0].(balance := remaining)] + cs[1..]
  }

  /** Lines 345 and 352-355: the debtor pays `amount` and is left behind once within a cent of zero. */
  function PayDebtor(ds: seq<UserBalance>, amount: Cents): (r: seq<UserBalance>)
    requires ds != [] && AllOwing(ds) && 0 <= amount <= -ds[0].balance
    ensures AllOwing(r)
    ensures if amount == -ds[0].balance then r == ds[1..] else r == [ds[0].(balance := ds[0].balance + amount)] + ds[1..]
  {
    var remaining := ds[0].balance + amount;
    if Abs(remaining) < OneCent then ds[1..] else [ds[0].(balance := remaining)] + ds[1..]
  }

  /**
   * The greedy plan on the creditors and debtors still open: the current
   * debtor pays the current creditor `Amount`, then the plan goes on with
   * what is left. Each step settles one of the two heads, so it ends.
   */
  function GreedyPlan(cs: seq<UserBalance>, ds: seq<UserBalance>): (r: seq<Settlement>)
    requires AllOwed(cs) && AllOwing(ds)
    ensures |r| <= |cs| + |ds|
    decreases |cs| + |ds|
  {
    if cs == [] || ds == [] then []
    else
      var amount := Amount(cs, ds);
      [Settlement(ds[0].userId, cs[0].userId, amount)] + GreedyPlan(PayCreditor(cs, amount), PayDebtor(ds, amount))
  }

  /** The creditors and debtors still open when the plan stops: one of the two lists is used up. */
  function GreedyLeft(cs: seq<UserBalance>, ds: seq<UserBalance>): (r: (seq<UserBalance>, seq<UserBalance>))
    requires AllOwed(cs) && AllOwing(ds)
    ensures r.0 == [] || r.1 == []
    ensures AllOwed(r.0) && AllOwing(r.1)
    decreases |cs| + |ds|
  {
    if cs == [] || ds == [] then (cs, ds)
    else
      var amount := Amount(cs, ds);
      GreedyLeft(PayCreditor(cs, amount), PayDebtor(ds, amount))
  }

  /**
   * Lines 302-359. The creditor and debtor lists are working copies whose
   * elements the loop overwrites; `balances` itself is a value and is not
   * changed. Math.Round(amount, 2) at line 332 is the identity on whole cents.
   */
  method CalculateSettlements(balances: seq<UserBalance>) returns (settlements: seq<Settlement>)
    ensures settlements == GreedyPlan(Creditors(balances), Debtors(balances))
  {
    var creditors := Creditors(balances);
    var debtors := Debtors(balances);
    settlements := MatchGreedily(creditors, debtors);
  }

  /** The two-cursor matching loop over working copies of the sorted lists. */
  method MatchGreedily(creditors: seq<UserBalance>, debtors: seq<UserBalance>) returns (settlements: seq<Settlement>)
    requires AllOwed(creditors) && AllOwing(debtors)
    ensures settlements == GreedyPlan(creditors, debtors)
  {
    settlements := [];
    var creditorsList := creditors;
    var debtorsList := debtors;
    ghost var plan := GreedyPlan(creditorsList, debtorsList);
    var creditorIndex, debtorIndex := 0, 0;
    assert creditorsList[0..] == creditorsList && debtorsList[0..] == debtorsList;
    while creditorIndex < |creditorsList| && debtorIndex < |debtorsList|
      invariant 0 <= creditorIndex <= |creditorsList| && 0 <= debtorIndex <= |debtorsList|
      invariant AllOwed(creditorsList[creditorIndex..]) && AllOwing(debtorsList[debtorIndex..])
      invariant settlements + GreedyPlan(creditorsList[creditorIndex..], debtorsList[debtorIndex..]) == plan
      decreases |creditorsList| - creditorIndex + |debtorsList| - debtorIndex
    {
      ghost var cl, dl, ci, di, done := creditorsList, debtorsList, creditorIndex, debtorIndex, settlements;
      var creditor := creditorsList[creditorIndex];
      var debtor := debtorsList[debtorIndex];
      var amount := Min(creditor.balance, Abs(debtor.balance));
      settlements := settlements + [Settlement(debtor.userId, creditor.userId, amount)];
      creditorsList := creditorsList[creditorIndex := creditor.(balance := creditor.balance - amount)];
      debtorsList := debtorsList[debtorIndex := debtor.(balance := debtor.balance + amount)];
      if creditorsList[creditorIndex].balance < OneCent {
        creditorIndex := creditorIndex + 1;
      }
      if Abs(debtorsList[debtorIndex].balance) < OneCent {
        debtorIndex := debtorIndex + 1;
      }
      LoopStep(done, cl, ci, dl, di, amount, creditorsList, creditorIndex, debtorsList, debtorIndex);
    }
    assert creditorsList[creditorIndex..] == [] || debtorsList[debtorIndex..] == [];
  }

  /** One iteration of the loop emits the first settlement of the plan and leaves the rest of the plan to do. */
  lemma LoopStep(done: seq<Settlement>, cl: seq<UserBalance>, ci: nat, dl: seq<UserBalance>, di: nat, amount: Cents,
                 cl': seq<UserBalance>, ci': nat, dl': seq<UserBalance>, di': nat)
    requires ci < |cl| && di < |dl| && AllOwed(cl[ci..]) && AllOwing(dl[di..])
    requires amount == Min(cl[ci].balance, Abs(dl[di].balance))
    requires |cl'| == |cl| && cl'[ci] == cl[ci].(balance := cl[ci].balance - amount)
    requires forall k :: 0 <= k < |cl| && k != ci ==> cl'[k] == cl[k]
    requires ci' == if cl'[ci].balance < OneCent then ci + 1 else ci
    requires |dl'| == |dl| && dl'[di] == dl[di].(balance := dl[di].balance + amount)
    requires forall k :: 0 <= k < |dl| && k != di ==> dl'[k] == dl[k]
    requires di' == if Abs(dl'[di].balance) < OneCent then di + 1 else di
    ensures ci' <= |cl'| && di' <= |dl'| && AllOwed(cl'[ci'..]) && AllOwing(dl'[di'..])
    ensures ci' + di' > ci + di
    ensures GreedyPlan(cl[ci..], dl[di..]) == [Settlement(dl[di].userId, cl[ci].userId, amount)] + GreedyPlan(cl'[ci'..], dl'[di'..])
    ensures done + GreedyPlan(cl[ci..], dl[di..])
      == (done + [Settlement(dl[di].userId, cl[ci].userId, amount)]) + GreedyPlan(cl'[ci'..], dl'[di'..])
  {
    assert amount == Amount(cl[ci..], dl[di..]);
    CreditorStep(cl, ci, amount, cl', ci');
    DebtorStep(dl, di, amount, dl', di');
  }

  /** Overwriting the current creditor and moving the cursor leaves the open creditors PayCreditor describes. */
  lemma CreditorStep(cl: seq<UserBalance>, ci: nat, amount: Cents, cl': seq<UserBalance>, ci': nat)
    requires ci < |cl| && AllOwed(cl[ci..]) && 0 <= amount <= cl[ci].balance
    requires |cl'| == |cl| && cl'[ci] == cl[ci].(balance := cl[ci].balance - amount)
    requires forall k :: 0 <= k < |cl| && k != ci ==> cl'[k] == cl[k]
    requires ci' == if cl'[ci].balance < OneCent then ci + 1 else ci
    ensures ci' <= |cl'| && cl'[ci'..] == PayCreditor(cl[ci..], amount)
  {
    assert cl'[ci + 1..] == cl[ci..][1..];
    assert cl'[ci..] == [cl'[ci]] + cl[ci..][1..];
  }

  /** Overwriting the current debtor and moving the cursor leaves the open debtors PayDebtor describes. */
  lemma DebtorStep(dl: seq<UserBalance>, di: nat, amount: Cents, dl': seq<UserBalance>, di': nat)
    requires di < |dl| && AllOwing(dl[di..]) && 0 <= amount <= -dl[di].balance
    requires |dl'| == |dl| && dl'[di] == dl[di].(balance := dl[di].balance + amount)
    requires forall k :: 0 <= k < |dl| && k != di ==> dl'[k] == dl[k]
    requires di' == if Abs(dl'[di].balance) < OneCent then di + 1 else di
    ensures di' <= |dl'| && dl'[di'..] == PayDebtor(dl[di..], amount)
  {
    assert dl'[di + 1..] == dl[di..][1..];
    assert dl'[di..] == [dl'[di]] + dl[di..][1..];
  }

  /** What member `id` is owed (positive) or owes (negative) across the entries of a balance list. */
  function ShareOf(id: UserId): UserBalance -> Cents
  {
    (b: UserBalance) => if b.userId == id then b.balance else 0
  }

  function BalanceIn(bs: seq<UserBalance>, id: UserId): Cents
  {
    SumBy(bs, ShareOf(id))
  }

  /** The sum of all balances of a list. */
  function Total(bs: seq<UserBalance>): Cents
  {
    SumBy(bs, BalanceOf)
  }

  /** What a list of settlements pays to `id`. */
  function ReceivedBy(p: seq<Settlement>, id: UserId): Cents
  {
    if p == [] then 0 else (if p[0].toUserId == id then p[0].amount else 0) + ReceivedBy(p[1..], id)
  }

  /** What a list of settlements makes `id` pay. */
  function PaidBy(p: seq<Settlement>, id: UserId): Cents
  {
    if p == [] then 0 else (if p[0].fromUserId == id then p[0].amount else 0) + PaidBy(p[1..], id)
  }

  /** Paying the current creditor lowers its share, and the total, by exactly the amount paid. */
  lemma PayCreditorShares(cs: seq<UserBalance>, amount: Cents)
    requires cs != [] && AllOwed(cs) && 0 <= amount <= cs[0].balance
    ensures Total(PayCreditor(cs, amount)) == Total(cs) - amount
    ensures forall id :: BalanceIn(PayCreditor(cs, amount), id) == BalanceIn(cs, id) - (if cs[0].userId == id then amount else 0)
  {
    var head := cs[0].(balance := cs[0].balance - amount);
    if amount != cs[0].balance {
      SumByCons(head, cs[1..], BalanceOf);
    }
    forall id ensures BalanceIn(PayCreditor(cs, amount), id) == BalanceIn(cs, id) - (if cs[0].userId == id then amount else 0) {
      if amount != cs[0].balance {
        SumByCons(head, cs[1..], ShareOf(id));
      }
    }
  }

  /** Collecting from the current debtor raises its share, and the total, by exactly the amount paid. */
  lemma PayDebtorShares(ds: seq<UserBalance>, amount: Cents)
    requires ds != [] && AllOwing(ds) && 0 <= amount <= -ds[0].balance
    ensures Total(PayDebtor(ds, amount)) == Total(ds) + amount
    ensures forall id :: BalanceIn(PayDebtor(ds, amount), id) == BalanceIn(ds, id) + (if ds[0].userId == id then amount else 0)
  {
    var head := ds[0].(balance := ds[0].balance + amount);
    if amount != -ds[0].balance {
      SumByCons(head, ds[1..], BalanceOf);
    }
    forall id ensures BalanceIn(PayDebtor(ds, amount), id) == BalanceIn(ds, id) + (if ds[0].userId == id then amount else 0) {
      if amount != -ds[0].balance {
        SumByCons(head, ds[1..], ShareOf(id));
      }
    }
  }

  /** Paying a creditor or collecting from a debtor introduces no new member. */
  lemma PayIds(cs: seq<UserBalance>, ds: seq<UserBalance>, amount: Cents)
    requires cs != [] && AllOwed(cs) && 0 <= amount <= cs[0].balance
    requires ds != [] && AllOwing(ds) && 0 <= amount <= -ds[0].balance
    ensures forall u :: u in Ids(PayCreditor(cs, amount)) ==> u in Ids(cs)
    ensures forall u :: u in Ids(PayDebtor(ds, amount)) ==> u in Ids(ds)
  {
    forall u | u in Ids(PayCreditor(cs, amount)) ensures u in Ids(cs) {
      var r := PayCreditor(cs, amount);
      var j :| 0 <= j < |r| && Ids(r)[j] == u;
      if amount == cs[0].balance {
        assert Ids(cs)[j + 1] == u;
      } else if j == 0 {
        assert Ids(cs)[0] == u;
      } else {
        assert Ids(cs)[j] == u;
      }
    }
    forall u | u in Ids(PayDebtor(ds, amount)) ensures u in Ids(ds) {
      var r := PayDebtor(ds, amount);
      var j :| 0 <= j < |r| && Ids(r)[j] == u;
      if amount == -ds[0].balance {
        assert Ids(ds)[j + 1] == u;
      } else if j == 0 {
        assert Ids(ds)[0] == u;
      } else {
        assert Ids(ds)[j] == u;
      }
    }
  }

  /** No settlement is planned when either side is empty; otherwise at least one, and fewer than the open members. */
  lemma {:induction false} GreedyPlanLength(cs: seq<UserBalance>, ds: seq<UserBalance>)
    requires AllOwed(cs) && AllOwing(ds)
    ensures cs == [] || ds == [] ==> GreedyPlan(cs, ds) == []
    ensures cs != [] && ds != [] ==> 1 <= |GreedyPlan(cs, ds)| <= |cs| + |ds| - 1
    decreases |cs| + |ds|
  {
    if cs != [] && ds != [] {
      var amount := Amount(cs, ds);
      GreedyPlanLength(PayCreditor(cs, amount), PayDebtor(ds, amount));
    }
  }

  /** Every planned settlement moves at least a cent from an open debtor to an open creditor. */
  lemma {:induction false} GreedyPlanSettlements(cs: seq<UserBalance>, ds: seq<UserBalance>)
    requires AllOwed(cs) && AllOwing(ds)
    ensures forall i :: 0 <= i < |GreedyPlan(cs, ds)| ==>
      var s := GreedyPlan(cs, ds)[i];
      s.amount >= OneCent && s.toUserId in Ids(cs) && s.fromUserId in Ids(ds)
    decreases |cs| + |ds|
  {
    if cs != [] && ds != [] {
      var amount := Amount(cs, ds);
      var cs', ds' := PayCreditor(cs, amount), PayDebtor(ds, amount);
      GreedyPlanSettlements(cs', ds');
      PayIds(cs, ds, amount);
      var p := GreedyPlan(cs, ds);
      assert Ids(cs)[0] == cs[0].userId && Ids(ds)[0] == ds[0].userId;
      assert p == [Settlement(ds[0].userId, cs[0].userId, amount)] + GreedyPlan(cs', ds');
      forall i | 0 <= i < |p|
        ensures p[i].amount >= OneCent && p[i].toUserId in Ids(cs) && p[i].fromUserId in Ids(ds)
      {
        if i > 0 {
          var q := GreedyPlan(cs', ds')[i - 1];
          assert p[i] == q;
          assert q.amount >= OneCent && q.toUserId in Ids(cs') && q.fromUserId in Ids(ds');
        }
      }
    }
  }

  /**
   * Exact accounting: what the plan pays each member is what that member
   * was owed minus what is still open for it when the plan stops, and what
   * it makes each member pay is what that member owed minus what it still owes.
   */
  lemma {:induction false} GreedyAccounting(cs: seq<UserBalance>, ds: seq<UserBalance>, id: UserId)
    requires AllOwed(cs) && AllOwing(ds)
    ensures ReceivedBy(GreedyPlan(cs, ds), id) == BalanceIn(cs, id) - BalanceIn(GreedyLeft(cs, ds).0, id)
    ensures PaidBy(GreedyPlan(cs, ds), id) == BalanceIn(GreedyLeft(cs, ds).1, id) - BalanceIn(ds, id)
    decreases |cs| + |ds|
  {
    if cs != [] && ds != [] {
      var amount := Amount(cs, ds);
      PayCreditorShares(cs, amount);
      PayDebtorShares(ds, amount);
      GreedyAccounting(PayCreditor(cs, amount), PayDebtor(ds, amount), id);
      assert GreedyPlan(cs, ds)[1..] == GreedyPlan(PayCreditor(cs, amount), PayDebtor(ds, amount));
    }
  }

  /** The plan keeps the sum of the open balances: each step takes the same amount off both sides. */
  lemma {:induction false} GreedyTotals(cs: seq<UserBalance>, ds: seq<UserBalance>)
    requires AllOwed(cs) && AllOwing(ds)
    ensures Total(cs) + Total(ds) == Total(GreedyLeft(cs, ds).0) + Total(GreedyLeft(cs, ds).1)
    decreases |cs| + |ds|
  {
    if cs != [] && ds != [] {
      var amount := Amount(cs, ds);
      PayCreditorShares(cs, amount);
      PayDebtorShares(ds, amount);
      GreedyTotals(PayCreditor(cs, amount), PayDebtor(ds, amount));
    }
  }

  /** Open creditors are owed at least a cent each; what any one member is owed is never negative. */
  lemma {:induction false} OwedTotals(cs: seq<UserBalance>, id: UserId)
    requires AllOwed(cs)
    ensures Total(cs) >= |cs| * OneCent
    ensures BalanceIn(cs, id) >= 0
  {
    if cs != [] {
      OwedTotals(cs[1..], id);
    }
  }

  /** Open debtors owe at least a cent each; what any one member owes is never negative. */
  lemma {:induction false} OwingTotals(ds: seq<UserBalance>, id: UserId)
    requires AllOwing(ds)
    ensures Total(ds) <= -|ds| * OneCent
    ensures BalanceIn(ds, id) <= 0
  {
    if ds != [] {
      OwingTotals(ds[1..], id);
    }
  }

  /** Settlements of non-negative amounts pay and collect non-negative sums. */
  lemma {:induction false} TransfersNonNegative(p: seq<Settlement>, id: UserId)
    requires forall i :: 0 <= i < |p| ==> p[i].amount >= 0
    ensures ReceivedBy(p, id) >= 0 && PaidBy(p, id) >= 0
  {
    if p != [] {
      TransfersNonNegative(p[1..], id);
    }
  }

  /** No member is paid more than it was owed, nor made to pay more than it owed. */
  lemma GreedyNoOverpayment(cs: seq<UserBalance>, ds: seq<UserBalance>, id: UserId)
    requires AllOwed(cs) && AllOwing(ds)
    ensures 0 <= ReceivedBy(GreedyPlan(cs, ds), id) <= BalanceIn(cs, id)
    ensures 0 <= PaidBy(GreedyPlan(cs, ds), id) <= -BalanceIn(ds, id)
  {
    GreedyPlanSettlements(cs, ds);
    TransfersNonNegative(GreedyPlan(cs, ds), id);
    GreedyAccounting(cs, ds, id);
    OwedTotals(cs, id);
    OwedTotals(GreedyLeft(cs, ds).0, id);
    OwingTotals(ds, id);
    OwingTotals(GreedyLeft(cs, ds).1, id);
  }

  /** When what is owed and what is owed to the group cancel out, the plan settles everyone. */
  lemma GreedyBalanced(cs: seq<UserBalance>, ds: seq<UserBalance>)
    requires AllOwed(cs) && AllOwing(ds)
    requires Total(cs) + Total(ds) == 0
    ensures GreedyLeft(cs, ds) == ([], [])
  {
    var left := GreedyLeft(cs, ds);
    GreedyTotals(cs, ds);
    OwedTotals(left.0, 0);
    OwingTotals(left.1, 0);
  }

  /** Splitting off the creditors and the debtors loses nothing of a sum that the dead zone does not contribute to. */
  lemma {:induction false} PartitionSum(bs: seq<UserBalance>, f: UserBalance -> Cents)
    requires forall i :: 0 <= i < |bs| && f(bs[i]) != 0 ==> IsCreditor(bs[i]) || IsDebtor(bs[i])
    ensures SumBy(Creditors(bs), f) + SumBy(Debtors(bs), f) == SumBy(bs, f)
  {
    WhereSum(bs, f);
    OrderBySum(Where(bs, IsCreditor), NegatedBalance, f);
    OrderBySum(Where(bs, IsDebtor), BalanceOf, f);
  }

  lemma {:induction false} WhereSum(bs: seq<UserBalance>, f: UserBalance -> Cents)
    requires forall i :: 0 <= i < |bs| && f(bs[i]) != 0 ==> IsCreditor(bs[i]) || IsDebtor(bs[i])
    ensures SumBy(Where(bs, IsCreditor), f) + SumBy(Where(bs, IsDebtor), f) == SumBy(bs, f)
  {
    if bs != [] {
      WhereSum(bs[1..], f);
      if IsCreditor(bs[0]) {
        SumByCons(bs[0], Where(bs[1..], IsCreditor), f);
      } else if IsDebtor(bs[0]) {
        SumByCons(bs[0], Where(bs[1..], IsDebtor), f);
      }
    }
  }

  /** Members with distinct ids stay distinct among the creditors and among the debtors. */
  lemma CreditorsDebtorsDistinct(bs: seq<UserBalance>)
    requires DistinctIds(bs)
    ensures DistinctIds(Creditors(bs)) && DistinctIds(Debtors(bs))
  {
    WhereInjective(bs, IsCreditor, UserIdOf);
    OrderByInjective(Where(bs, IsCreditor), NegatedBalance, UserIdOf);
    WhereInjective(bs, IsDebtor, UserIdOf);
    OrderByInjective(Where(bs, IsDebtor), BalanceOf, UserIdOf);
  }

  /** In a list with distinct ids, what a listed member holds is its own balance. */
  lemma {:induction false} BalanceInDistinct(bs: seq<UserBalance>, i: nat)
    requires DistinctIds(bs) && i < |bs|
    ensures BalanceIn(bs, bs[i].userId) == bs[i].balance
  {
    if i == 0 {
      BalanceInAbsent(bs[1..], bs[0].userId);
    } else {
      BalanceInDistinct(bs[1..], i - 1);
    }
  }

  /** A member absent from a list holds nothing in it. */
  lemma {:induction false} BalanceInAbsent(bs: seq<UserBalance>, id: UserId)
    requires forall i :: 0 <= i < |bs| ==> bs[i].userId != id
    ensures BalanceIn(bs, id) == 0
  {
    if bs != [] {
      BalanceInAbsent(bs[1..], id);
    }
  }

  /** Every creditor and every debtor occurs in the balance list it was drawn from. */
  lemma PartsCounted(bs: seq<UserBalance>)
    ensures forall b :: multiset(Creditors(bs))[b] <= multiset(bs)[b]
    ensures forall b :: multiset(Debtors(bs))[b] <= multiset(bs)[b]
  {
    var wc, wd := Where(bs, IsCreditor), Where(bs, IsDebtor);
    assert multiset(Creditors(bs)) == multiset(wc) && multiset(Debtors(bs)) == multiset(wd);
  }

  /** In a list with distinct ids, two different entries belong to two different members. */
  lemma DistinctEntries(bs: seq<UserBalance>, x: UserBalance, y: UserBalance)
    requires DistinctIds(bs) && x in bs && y in bs && x != y
    ensures x.userId != y.userId
  {
    var i :| 0 <= i < |bs| && bs[i] == x;
    var j :| 0 <= j < |bs| && bs[j] == y;
    assert UserIdOf(bs[i]) != UserIdOf(bs[j]);
  }

  /** Nobody is planned to pay themselves: when the ids are distinct, no member is both a creditor and a debtor. */
  lemma NoSelfPayment(bs: seq<UserBalance>)
    requires DistinctIds(bs)
    ensures forall s :: s in GreedyPlan(Creditors(bs), Debtors(bs)) ==> s.fromUserId != s.toUserId
  {
    var cs, ds := Creditors(bs), Debtors(bs);
    GreedyPlanSettlements(cs, ds);
    PartsCounted(bs);
    forall s | s in GreedyPlan(cs, ds) ensures s.fromUserId != s.toUserId {
      var k :| 0 <= k < |GreedyPlan(cs, ds)| && GreedyPlan(cs, ds)[k] == s;
      var a :| 0 <= a < |cs| && Ids(cs)[a] == s.toUserId;
      var b :| 0 <= b < |ds| && Ids(ds)[b] == s.fromUserId;
      assert multiset(cs)[cs[a]] > 0 && multiset(ds)[ds[b]] > 0;
      assert IsCreditor(cs[a]) && IsDebtor(ds[b]);
      DistinctEntries(bs, cs[a], ds[b]);
    }
  }

  /**
   * Settled in full: when the balances add up to zero and nobody is within
   * a cent of zero without being at zero, the plan leaves nothing open, and
   * for every member what it receives minus what it pays is its balance.
   */
  lemma SettlesEveryone(bs: seq<UserBalance>)
    requires Total(bs) == 0
    requires forall i :: 0 <= i < |bs| ==> bs[i].balance != OneCent && bs[i].balance != -OneCent
    ensures GreedyLeft(Creditors(bs), Debtors(bs)) == ([], [])
    ensures forall id :: ReceivedBy(GreedyPlan(Creditors(bs), Debtors(bs)), id)
                         - PaidBy(GreedyPlan(Creditors(bs), Debtors(bs)), id) == BalanceIn(bs, id)
  {
    var cs, ds := Creditors(bs), Debtors(bs);
    PartitionSum(bs, BalanceOf);
    GreedyBalanced(cs, ds);
    forall id ensures ReceivedBy(GreedyPlan(cs, ds), id) - PaidBy(GreedyPlan(cs, ds), id) == BalanceIn(bs, id) {
      PartitionSum(bs, ShareOf(id));
      GreedyAccounting(cs, ds, id);
    }
  }

  /** With distinct ids on top, each member's net transfer is exactly its own balance. */
  lemma EveryMemberSettled(bs: seq<UserBalance>)
    requires DistinctIds(bs) && Total(bs) == 0
    requires forall i :: 0 <= i < |bs| ==> bs[i].balance != OneCent && bs[i].balance != -OneCent
    ensures GreedyLeft(Creditors(bs), Debtors(bs)) == ([], [])
    ensures forall i :: 0 <= i < |bs| ==>
      ReceivedBy(GreedyPlan(Creditors(bs), Debtors(bs)), bs[i].userId)
      - PaidBy(GreedyPlan(Creditors(bs), Debtors(bs)), bs[i].userId) == bs[i].balance
  {
    SettlesEveryone(bs);
    forall i | 0 <= i < |bs| ensures BalanceIn(bs, bs[i].userId) == bs[i].balance {
      BalanceInDistinct(bs, i);
    }
  }

  /** Nobody owing more than a cent means nobody is asked to pay. */
  lemma NoDebtors(bs: seq<UserBalance>)
    requires forall i :: 0 <= i < |bs| ==> !IsDebtor(bs[i])
    ensures GreedyPlan(Creditors(bs), Debtors(bs)) == []
  {
    var w := Where(bs, IsDebtor);
    assert forall x :: x in bs ==> !IsDebtor(x);
    assert multiset(w) == multiset{};
  }

  /** Balances summing to zero can still leave money open: three members a cent in debt and one owed three cents get no settlement. */
  lemma DeadZoneResidual(a: UserId, b: UserId, c: UserId, d: UserId)
    ensures var bs := [UserBalance(a, 3), UserBalance(b, -1), UserBalance(c, -1), UserBalance(d, -1)];
      Total(bs) == 0 && GreedyPlan(Creditors(bs), Debtors(bs)) == []
  {
    var bs := [UserBalance(a, 3), UserBalance(b, -1), UserBalance(c, -1), UserBalance(d, -1)];
    assert forall i :: 0 <= i < |bs| ==> !IsDebtor(bs[i]);
    NoDebtors(bs);
    DeadZoneTotal(a, b, c, d);
  }

  lemma DeadZoneTotal(a: UserId, b: UserId, c: UserId, d: UserId)
    ensures Total([UserBalance(a, 3), UserBalance(b, -1), UserBalance(c, -1), UserBalance(d, -1)]) == 0
  {
    var b1, b2, b3, b4 := UserBalance(a, 3), UserBalance(b, -1), UserBalance(c, -1), UserBalance(d, -1);
    assert [b1, b2, b3, b4] == [b1] + [b2, b3, b4] && [b2, b3, b4] == [b2] + [b3, b4] && [b3, b4] == [b3] + [b4] && [b4] == [b4] + [];
    SumByCons(b4, [], BalanceOf);
    SumByCons(b3, [b4], BalanceOf);
    SumByCons(b2, [b3, b4], BalanceOf);
    SumByCons(b1, [b2, b3, b4], BalanceOf);
  }

  /** The creditor and debtor lists of the three-member example, the tied debtors kept in list order. */
  lemma ThreeWayLists(a: UserId, b: UserId, c: UserId)
    ensures var bs := [UserBalance(a, 2000), UserBalance(b, -1000), UserBalance(c, -1000)];
      Creditors(bs) == [bs[0]] && Debtors(bs) == [bs[1], bs[2]]
  {
    ThreeWayCreditors(UserBalance(a, 2000), UserBalance(b, -1000), UserBalance(c, -1000));
    ThreeWayDebtors(UserBalance(a, 2000), UserBalance(b, -1000), UserBalance(c, -1000));
  }

  lemma ThreeWayCreditors(b1: UserBalance, b2: UserBalance, b3: UserBalance)
    requires IsCreditor(b1) && !IsCreditor(b2) && !IsCreditor(b3)
    ensures Creditors([b1, b2, b3]) == [b1]
  {
    assert [b1, b2, b3] == [b1] + [b2, b3] && [b2, b3] == [b2] + [b3] && [b3] == [b3] + [];
    WhereCons(b3, [], IsCreditor);
    WhereCons(b2, [b3], IsCreditor);
    WhereCons(b1, [b2, b3], IsCreditor);
    OrderByCons(b1, [], NegatedBalance);
  }

  lemma ThreeWayDebtors(b1: UserBalance, b2: UserBalance, b3: UserBalance)
    requires !IsDebtor(b1) && IsDebtor(b2) && IsDebtor(b3) && b2.balance == b3.balance
    ensures Debtors([b1, b2, b3]) == [b2, b3]
  {
    ThreeWayDebtorsFiltered(b1, b2, b3);
    TiedDebtorsSorted(b2, b3);
  }

  lemma ThreeWayDebtorsFiltered(b1: UserBalance, b2: UserBalance, b3: UserBalance)
    requires !IsDebtor(b1) && IsDebtor(b2) && IsDebtor(b3)
    ensures Where([b1, b2, b3], IsDebtor) == [b2, b3]
  {
    assert [b1, b2, b3] == [b1] + [b2, b3] && [b2, b3] == [b2] + [b3] && [b3] == [b3] + [];
    WhereCons(b3, [], IsDebtor);
    WhereCons(b2, [b3], IsDebtor);
    WhereCons(b1, [b2, b3], IsDebtor);
  }

  lemma TiedDebtorsSorted(b2: UserBalance, b3: UserBalance)
    requires b2.balance == b3.balance
    ensures OrderBy([b2, b3], BalanceOf) == [b2, b3]
  {
    assert [b2, b3] == [b2] + [b3] && [b3] == [b3] + [];
    OrderByCons(b3, [], BalanceOf);
    OrderByCons(b2, [b3], BalanceOf);
    assert InsertBy(b2, [b3], BalanceOf) == [b2, b3];
  }

  /** The plan of the three-member example: the first debtor settles half of the creditor's balance, the second the rest. */
  lemma ThreeWayPlan(a: UserId, b: UserId, c: UserId)
    ensures GreedyPlan([UserBalance(a, 2000)], [UserBalance(b, -1000), UserBalance(c, -1000)])
      == [Settlement(b, a, 1000), Settlement(c, a, 1000)]
  {
    var b1, b2, b3 := UserBalance(a, 2000), UserBalance(b, -1000), UserBalance(c, -1000);
    var c1 := b1.(balance := 1000);
    assert PayCreditor([b1], 1000) == [c1];
    assert PayDebtor([b2, b3], 1000) == [b3];
    assert PayCreditor([c1], 1000) == [] && PayDebtor([b3], 1000) == [];
    assert GreedyPlan([c1], [b3]) == [Settlement(c, a, 1000)];
  }

  /** One member paid 20.00 for three; the other two each pay it 10.00. */
  lemma ThreeWayExample(a: UserId, b: UserId, c: UserId)
    ensures var bs := [UserBalance(a, 2000), UserBalance(b, -1000), UserBalance(c, -1000)];
      GreedyPlan(Creditors(bs), Debtors(bs)) == [Settlement(b, a, 1000), Settlement(c, a, 1000)]
  {
    ThreeWayLists(a, b, c);
    ThreeWayPlan(a, b, c);
  }
}
