/**
 * Balance aggregation (GetGroupBalances): every group member starts at 0,
 * each expense credits its payer with the total and debits each
 * participant row with the amount owed, and ids that are not members are
 * skipped. The result is listed in dictionary order and then ordered by
 * descending balance.
 */
module Balances {
  import opened Money
  import opened Models
  import opened Linq

  /** The order in which a Dictionary<Guid, _> enumerates the member ids it was filled with: first occurrences, in order. */
  function Dedup(s: seq<UserId>): (r: seq<UserId>)
    ensures Distinct(r)
    ensures forall u :: u in r <==> u in s
  {
    if s == [] then []
    else
      var init, last := s[..|s| - 1], s[|s| - 1];
      assert s == init + [last];
      var p := Dedup(init);
      if last in p then p else p + [last]
  }

  /** What `u` owes in the participant rows `ps` (a user may appear in several rows). */
  function Owed(ps: seq<ExpenseParticipant>, u: UserId): Cents
  {
    if ps == [] then 0
    else Owed(ps[..|ps| - 1], u) + (if ps[|ps| - 1].userId == u then ps[|ps| - 1].amountOwed else 0)
  }

  /** How expense `e` moves the balance of `u`. */
  function NetOf(e: Expense, u: UserId): Cents
  {
    (if e.payerId == u then e.totalAmount else 0) - Owed(e.participants, u)
  }

  /** The balance of `u` after the expenses `es`: what `u` paid minus what `u` owes. */
  function Net(es: seq<Expense>, u: UserId): Cents
  {
    if es == [] then 0 else Net(es[..|es| - 1], u) + NetOf(es[|es| - 1], u)
  }

  /** The balance dictionary the fold builds: one entry per member, the member's net amount. */
  function NetBalances(members: seq<UserId>, es: seq<Expense>): map<UserId, Cents>
  {
    map u | u in members :: Net(es, u)
  }

  /** What the participant rows owe in all, counting only rows of the users in `members`. */
  function OwedWithin(ps: seq<ExpenseParticipant>, members: seq<UserId>): Cents
  {
    if ps == [] then 0
    else OwedWithin(ps[..|ps| - 1], members) + (if ps[|ps| - 1].userId in members then ps[|ps| - 1].amountOwed else 0)
  }

  /** The sum of all changes the fold applies for the expenses `es`: the credits and debits whose ids are members. */
  function Applied(es: seq<Expense>, members: seq<UserId>): Cents
  {
    if es == [] then 0
    else
      var e := es[|es| - 1];
      Applied(es[..|es| - 1], members) + (if e.payerId in members then e.totalAmount else 0) - OwedWithin(e.participants, members)
  }

  /** How far each expense's split misses its total, summed. */
  function Discrepancy(es: seq<Expense>): Cents
  {
    if es == [] then 0
    else Discrepancy(es[..|es| - 1]) + (es[|es| - 1].totalAmount - SumOwed(es[|es| - 1].participants))
  }

  /** The sum of the dictionary values, in key order. */
  function SumOver(keys: seq<UserId>, m: map<UserId, Cents>): Cents
    requires forall i :: 0 <= i < |keys| ==> keys[i] in m
  {
    if keys == [] then 0 else m[keys[0]] + SumOver(keys[1..], m)
  }

  /** The `Select` at the end of the fold: one balance entry per dictionary key, in key order. */
  function Entries(keys: seq<UserId>, m: map<UserId, Cents>): (r: seq<UserBalance>)
    requires forall i :: 0 <= i < |keys| ==> keys[i] in m
    ensures |r| == |keys|
    ensures forall i :: 0 <= i < |r| ==> r[i] == UserBalance(keys[i], m[keys[i]])
  {
    if keys == [] then [] else [UserBalance(keys[0], m[keys[0]])] + Entries(keys[1..], m)
  }

  /** Lines 252-258: an entry of 0 for every member, keys kept in insertion order. */
  method InitBalances(members: seq<UserId>) returns (keys: seq<UserId>, balances: map<UserId, Cents>)
    ensures keys == Dedup(members)
    ensures forall u :: u in balances <==> u in members
    ensures forall i :: 0 <= i < |keys| ==> keys[i] in balances
    ensures forall u :: u in balances ==> balances[u] == 0
  {
    keys, balances := [], map[];
    var i := 0;
    while i < |members|
      invariant 0 <= i <= |members|
      invariant keys == Dedup(members[..i])
      invariant forall u :: u in balances <==> u in members[..i]
      invariant forall i :: 0 <= i < |keys| ==> keys[i] in balances
      invariant forall u :: u in balances ==> balances[u] == 0
    {
      var m := members[i];
      assert members[..i + 1] == members[..i] + [m];
      if m !in balances {
        keys := keys + [m];
      }
      balances := balances[m := 0];
      i := i + 1;
    }
    assert members[..i] == members;
  }

  /**
   * Lines 264-276, one expense: the payer's entry rises by the total and each
   * participant row lowers its user's entry, where those ids have entries.
   */
  method ApplyExpense(keys: seq<UserId>, balances: map<UserId, Cents>, e: Expense) returns (balances': map<UserId, Cents>)
    requires Distinct(keys)
    requires forall u :: u in keys <==> u in balances
    requires forall i :: 0 <= i < |keys| ==> keys[i] in balances
    ensures balances'.Keys == balances.Keys
    ensures forall u :: u in balances ==> balances'[u] == balances[u] + NetOf(e, u)
    ensures SumOver(keys, balances') == SumOver(keys, balances)
      + (if e.payerId in keys then e.totalAmount else 0) - OwedWithin(e.participants, keys)
  {
    balances' := balances;
    if e.payerId in balances' {
      SumOverUpdate(keys, balances', e.payerId, e.totalAmount);
      balances' := balances'[e.payerId := balances'[e.payerId] + e.totalAmount];
    }
    var j := 0;
    while j < |e.participants|
      invariant 0 <= j <= |e.participants|
      invariant balances'.Keys == balances.Keys
      invariant forall u :: u in balances ==>
        balances'[u] == balances[u] + (if e.payerId == u then e.totalAmount else 0) - Owed(e.participants[..j], u)
      invariant SumOver(keys, balances') == SumOver(keys, balances)
        + (if e.payerId in keys then e.totalAmount else 0) - OwedWithin(e.participants[..j], keys)
    {
      var p := e.participants[j];
      assert e.participants[..j + 1][..j] == e.participants[..j];
      if p.userId in balances' {
        SumOverUpdate(keys, balances', p.userId, -p.amountOwed);
        balances' := balances'[p.userId := balances'[p.userId] - p.amountOwed];
      }
      j := j + 1;
    }
    assert e.participants[..j] == e.participants;
  }

  /** The dictionary fold at ExpensesController.cs:252-277, on a map whose insertion order is kept in `keys`. */
  method AggregateBalances(members: seq<UserId>, expenses: seq<Expense>)
    returns (keys: seq<UserId>, balances: map<UserId, Cents>)
    ensures keys == Dedup(members)
    ensures balances == NetBalances(members, expenses)
    ensures forall u :: u in keys ==> u in balances
    ensures SumOver(keys, balances) == Applied(expenses, members)
  {
    keys, balances := InitBalances(members);
    assert forall u :: u in balances ==> balances[u] == 0;
    forall i | 0 <= i < |keys| ensures balances[keys[i]] == 0 {
      var u := keys[i];
      assert u in balances;
      assert balances[u] == 0;
    }
    SumOverZero(keys, balances);
    var k := 0;
    while k < |expenses|
      invariant 0 <= k <= |expenses|
      invariant forall u :: u in balances <==> u in members
      invariant forall i :: 0 <= i < |keys| ==> keys[i] in balances
      invariant forall u :: u in balances ==> balances[u] == Net(expenses[..k], u)
      invariant SumOver(keys, balances) == Applied(expenses[..k], members)
    {
      assert expenses[..k + 1][..k] == expenses[..k];
      OwedWithinSameMembers(expenses[k].participants, keys, members);
      balances := ApplyExpense(keys, balances, expenses[k]);
      k := k + 1;
    }
    assert expenses[..k] == expenses;
    assert forall u :: u in balances.Keys <==> u in NetBalances(members, expenses).Keys;
  }

  /** Membership in `keys` or in `members` is the same test when they hold the same ids. */
  lemma {:induction false} OwedWithinSameMembers(ps: seq<ExpenseParticipant>, a: seq<UserId>, b: seq<UserId>)
    requires forall u :: u in a <==> u in b
    ensures OwedWithin(ps, a) == OwedWithin(ps, b)
  {
    if ps != [] {
      OwedWithinSameMembers(ps[..|ps| - 1], a, b);
    }
  }

  lemma {:induction false} SumOverZero(keys: seq<UserId>, m: map<UserId, Cents>)
    requires forall i :: 0 <= i < |keys| ==> keys[i] in m && m[keys[i]] == 0
    ensures SumOver(keys, m) == 0
  {
    if keys != [] {
      SumOverZero(keys[1..], m);
    }
  }

  /** Changing the entries of keys outside `keys` leaves the sum over `keys` as it was. */
  lemma {:induction false} SumOverFrame(keys: seq<UserId>, m: map<UserId, Cents>, m': map<UserId, Cents>)
    requires forall i :: 0 <= i < |keys| ==> keys[i] in m && keys[i] in m' && m[keys[i]] == m'[keys[i]]
    ensures SumOver(keys, m) == SumOver(keys, m')
  {
    if keys != [] {
      SumOverFrame(keys[1..], m, m');
    }
  }

  /** Adding `x` to one dictionary entry adds `x` to the sum of its values. */
  lemma {:induction false} SumOverUpdate(keys: seq<UserId>, m: map<UserId, Cents>, u: UserId, x: Cents)
    requires Distinct(keys)
    requires forall i :: 0 <= i < |keys| ==> keys[i] in m
    requires u in keys
    ensures SumOver(keys, m[u := m[u] + x]) == SumOver(keys, m) + x
  {
    var m' := m[u := m[u] + x];
    if keys[0] == u {
      assert forall k :: k in keys[1..] ==> k != u by {
        forall k | k in keys[1..] ensures k != u {
          var i :| 0 <= i < |keys[1..]| && keys[1..][i] == k;
          assert keys[i + 1] == k;
        }
      }
      SumOverFrame(keys[1..], m, m');
    } else {
      assert Distinct(keys[1..]) by {
        forall i, j | 0 <= i < j < |keys[1..]| ensures keys[1..][i] != keys[1..][j] {
          assert keys[1..][i] == keys[i + 1] && keys[1..][j] == keys[j + 1];
        }
      }
      SumOverUpdate(keys[1..], m, u, x);
    }
  }

  /** Rows of members only: the amount owed within the membership is the whole split. */
  lemma {:induction false} OwedWithinAll(ps: seq<ExpenseParticipant>, members: seq<UserId>)
    requires forall i :: 0 <= i < |ps| ==> ps[i].userId in members
    ensures OwedWithin(ps, members) == SumOwed(ps)
  {
    if ps != [] {
      OwedWithinAll(ps[..|ps| - 1], members);
    }
  }

  /** The payer and every participant of every expense is a member. */
  predicate AllMembers(es: seq<Expense>, members: seq<UserId>)
  {
    forall k :: 0 <= k < |es| ==>
      es[k].payerId in members && forall i :: 0 <= i < |es[k].participants| ==> es[k].participants[i].userId in members
  }

  /**
   * When no id is skipped, all the changes the fold applies add up to the
   * expenses' discrepancies: the sum of the balances is what the splits miss.
   */
  lemma {:induction false} AppliedIsDiscrepancy(es: seq<Expense>, members: seq<UserId>)
    requires AllMembers(es, members)
    ensures Applied(es, members) == Discrepancy(es)
  {
    if es != [] {
      var init := es[..|es| - 1];
      assert AllMembers(init, members) by {
        forall k | 0 <= k < |init| ensures init[k] == es[k] { }
      }
      AppliedIsDiscrepancy(init, members);
      OwedWithinAll(es[|es| - 1].participants, members);
    }
  }

  /** Conservation: when every split sums exactly to its total, the balances sum to zero. */
  lemma ConservationExact(es: seq<Expense>, members: seq<UserId>)
    requires AllMembers(es, members)
    requires forall k :: 0 <= k < |es| ==> SumOwed(es[k].participants) == es[k].totalAmount
    ensures Applied(es, members) == 0
  {
    AppliedIsDiscrepancy(es, members);
    DiscrepancyBound(es, 0);
  }

  /**
   * Conservation up to the custom-split tolerance: when every split is within
   * one cent of its total, the balances sum to within |es| cents of zero.
   */
  lemma ConservationWithinTolerance(es: seq<Expense>, members: seq<UserId>)
    requires AllMembers(es, members)
    requires forall k :: 0 <= k < |es| ==> Abs(SumOwed(es[k].participants) - es[k].totalAmount) <= OneCent
    ensures Abs(Applied(es, members)) <= |es| * OneCent
  {
    AppliedIsDiscrepancy(es, members);
    DiscrepancyBound(es, OneCent);
  }

  lemma {:induction false} DiscrepancyBound(es: seq<Expense>, tol: nat)
    requires forall k :: 0 <= k < |es| ==> Abs(SumOwed(es[k].participants) - es[k].totalAmount) <= tol
    ensures Abs(Discrepancy(es)) <= |es| * tol
  {
    if es != [] {
      var init := es[..|es| - 1];
      assert forall k :: 0 <= k < |init| ==> init[k] == es[k];
      DiscrepancyBound(init, tol);
      assert |es| * tol == |init| * tol + tol;
    }
  }

  lemma {:induction false} NetAppend(a: seq<Expense>, b: seq<Expense>, u: UserId)
    ensures Net(a + b, u) == Net(a, u) + Net(b, u)
    decreases |b|
  {
    if b == [] {
      assert a + b == a;
    } else {
      var binit := b[..|b| - 1];
      assert (a + b)[..|a + b| - 1] == a + binit;
      NetAppend(a, binit, u);
    }
  }

  /** Order independence: the balance of a user does not depend on the order of the expenses. */
  lemma {:induction false} NetReorder(a: seq<Expense>, b: seq<Expense>, u: UserId)
    requires multiset(a) == multiset(b)
    ensures Net(a, u) == Net(b, u)
    decreases |a|
  {
    if a != [] {
      var x, ainit := a[|a| - 1], a[..|a| - 1];
      assert a == ainit + [x];
      assert x in multiset(b);
      var i :| 0 <= i < |b| && b[i] == x;
      assert b == b[..i] + [x] + b[i + 1..];
      var brest := b[..i] + b[i + 1..];
      assert multiset(b) == multiset(b[..i]) + multiset{x} + multiset(b[i + 1..]);
      assert multiset(a) == multiset(ainit) + multiset{x};
      assert multiset(brest) == multiset(b[..i]) + multiset(b[i + 1..]);
      calc {
        multiset(ainit);
        multiset(a) - multiset{x};
        multiset(b) - multiset{x};
        multiset(brest);
      }
      NetReorder(ainit, brest, u);
      NetAppend(b[..i] + [x], b[i + 1..], u);
      NetAppend(b[..i], [x], u);
      NetAppend(b[..i], b[i + 1..], u);
      assert Net([x], u) == NetOf(x, u) by { assert [x][..0] == []; }
    }
  }

  /** Reordering the expenses yields the same balance dictionary. */
  lemma NetBalancesReorder(members: seq<UserId>, a: seq<Expense>, b: seq<Expense>)
    requires multiset(a) == multiset(b)
    ensures NetBalances(members, a) == NetBalances(members, b)
  {
    forall u | u in members ensures Net(a, u) == Net(b, u) {
      NetReorder(a, b, u);
    }
  }

  /** The list GetGroupBalances returns: the dictionary entries in key order, then ordered by descending balance. */
  function UserBalances(members: seq<UserId>, es: seq<Expense>): (r: seq<UserBalance>)
    ensures |r| == |Dedup(members)|
    ensures SortedBy(r, NegatedBalance)
  {
    OrderBy(Entries(Dedup(members), NetBalances(members, es)), NegatedBalance)
  }

  /**
   * The balance list has exactly one entry per member (members with no
   * activity included, at 0), each the member's net amount, in
   * non-increasing order of balance.
   */
  lemma UserBalancesSpec(members: seq<UserId>, es: seq<Expense>)
    ensures var r := UserBalances(members, es);
      && SortedBy(r, NegatedBalance)
      && DistinctIds(r)
      && (forall u :: u in members <==> exists i :: 0 <= i < |r| && r[i].userId == u)
      && (forall i :: 0 <= i < |r| ==> r[i].balance == Net(es, r[i].userId))
  {
    var entries := Entries(Dedup(members), NetBalances(members, es));
    UserBalancesDistinct(members, es, entries);
    UserBalancesEntries(members, es, entries);
    UserBalancesCover(members, es, entries);
  }

  lemma UserBalancesDistinct(members: seq<UserId>, es: seq<Expense>, entries: seq<UserBalance>)
    requires entries == Entries(Dedup(members), NetBalances(members, es))
    ensures DistinctIds(UserBalances(members, es))
  {
    assert InjectiveOn(entries, UserIdOf);
    OrderByInjective(entries, NegatedBalance, UserIdOf);
  }

  lemma UserBalancesEntries(members: seq<UserId>, es: seq<Expense>, entries: seq<UserBalance>)
    requires entries == Entries(Dedup(members), NetBalances(members, es))
    ensures forall i :: 0 <= i < |UserBalances(members, es)| ==>
      UserBalances(members, es)[i].balance == Net(es, UserBalances(members, es)[i].userId)
      && UserBalances(members, es)[i].userId in members
  {
    var r := UserBalances(members, es);
    forall i | 0 <= i < |r| ensures r[i].balance == Net(es, r[i].userId) && r[i].userId in members {
      assert r[i] in multiset(entries);
      var j :| 0 <= j < |entries| && entries[j] == r[i];
    }
  }

  lemma UserBalancesCover(members: seq<UserId>, es: seq<Expense>, entries: seq<UserBalance>)
    requires entries == Entries(Dedup(members), NetBalances(members, es))
    ensures forall u :: u in members ==> exists i :: 0 <= i < |UserBalances(members, es)| && UserBalances(members, es)[i].userId == u
  {
    var keys := Dedup(members);
    var r := UserBalances(members, es);
    forall u | u in members ensures exists i :: 0 <= i < |r| && r[i].userId == u {
      var j :| 0 <= j < |keys| && keys[j] == u;
      assert entries[j] in multiset(r);
      var i :| 0 <= i < |r| && r[i] == entries[j];
    }
  }
}
