/**
 * Creating an expense (CreateExpenseEqualSplit and CreateExpenseCustomSplit):
 * the request checks in the order the endpoints make them, the equal split
 * of a total among the listed participants, and the expense each endpoint
 * records when every check passes.
 */
module Splits {
  import opened Money
  import opened Models

  /** Why a request is refused; each stands for one of the endpoints' error responses. */
  datatype SplitError =
    | NonPositiveTotal      // "El monto total debe ser mayor a 0"
    | NoParticipants        // "Debe haber al menos un participante"
    | GroupNotFound         // "Grupo no encontrado"
    | PayerNotMember        // "El pagador debe ser miembro del grupo"
    | ParticipantNotMember  // "Todos los participantes deben ser miembros del grupo"
    | SumMismatch           // "La suma de los montos (...) no coincide con el total (...)"
    | NonPositiveShare      // "Todos los montos deben ser mayores a 0"

  /** CreateExpenseDto without group id, description and date. */
  datatype EqualSplitRequest = EqualSplitRequest(payerId: UserId, totalAmount: Cents, participantIds: seq<UserId>)

  /** CreateCustomExpenseDto without group id, description and date; each row is a ParticipantSplit. */
  datatype CustomSplitRequest = CustomSplitRequest(payerId: UserId, totalAmount: Cents, participants: seq<ExpenseParticipant>)

  /**
   * The group as the endpoints look it up: None when no group has the
   * requested id, otherwise the user ids of its members.
   */
  type GroupLookup = Option<seq<UserId>>

  /** Lines 57-86: the checks of the equal-split endpoint, first failure wins. */
  function EqualSplitError(req: EqualSplitRequest, group: GroupLookup): (r: Option<SplitError>)
    ensures r.None? <==>
      req.totalAmount > 0 && req.participantIds != [] && group.Some? && req.payerId in group.value
      && forall i :: 0 <= i < |req.participantIds| ==> req.participantIds[i] in group.value
    ensures r == Some(NonPositiveTotal) <==> req.totalAmount <= 0
    ensures r == Some(NoParticipants) <==> req.totalAmount > 0 && req.participantIds == []
    ensures r == Some(GroupNotFound) <==> req.totalAmount > 0 && req.participantIds != [] && group.None?
    ensures r == Some(PayerNotMember) <==>
      req.totalAmount > 0 && req.participantIds != [] && group.Some? && req.payerId !in group.value
    ensures r == Some(ParticipantNotMember) <==>
      req.totalAmount > 0 && req.participantIds != [] && group.Some? && req.payerId in group.value
      && exists i :: 0 <= i < |req.participantIds| && req.participantIds[i] !in group.value
  {
    if req.totalAmount <= 0 then Some(NonPositiveTotal)
    else if req.participantIds == [] then Some(NoParticipants)
    else if group.None? then Some(GroupNotFound)
    else if req.payerId !in group.value then Some(PayerNotMember)
    else if exists id :: id in req.participantIds && id !in group.value then Some(ParticipantNotMember)
    else None
  }

  /**
   * Lines 101-124: the equal split. Every participant owes the total
   * divided by their number, rounded to the cent half to even
   * (Math.Round), except the last, who also takes up the difference
   * between the total and what the rounded shares add up to.
   */
  method EqualShares(total: Cents, ids: seq<UserId>) returns (shares: seq<ExpenseParticipant>)
    requires |ids| > 0
    ensures |shares| == |ids|
    ensures forall i :: 0 <= i < |ids| ==> shares[i].userId == ids[i]
    ensures forall i :: 0 <= i < |ids| - 1 ==> shares[i].amountOwed == RoundHalfEven(total, |ids|)
    ensures shares[|ids| - 1].amountOwed == total - (|ids| - 1) * RoundHalfEven(total, |ids|)
    ensures SumOwed(shares) == total
  {
    var n := |ids|;
    var amountPerPerson := RoundHalfEven(total, n);
    var totalAssigned := amountPerPerson * n;
    var difference := total - totalAssigned;
    shares := [];
    var i := 0;
    while i < n
      invariant 0 <= i <= n && |shares| == i
      invariant forall k :: 0 <= k < i ==> shares[k].userId == ids[k]
      invariant forall k :: 0 <= k < i && k < n - 1 ==> shares[k].amountOwed == amountPerPerson
      invariant i == n ==> shares[n - 1].amountOwed == amountPerPerson + difference
      invariant SumOwed(shares) == Repeated(amountPerPerson, i) + (if i == n then difference else 0)
    {
      var amount := amountPerPerson;
      if i == n - 1 && difference != 0 {
        amount := amount + difference;
      }
      SumOwedAppend(shares, ExpenseParticipant(ids[i], amount));
      shares := shares + [ExpenseParticipant(ids[i], amount)];
      i := i + 1;
    }
    RepeatedIsProduct(amountPerPerson, n);
  }

  /** `x` added up `k` times. */
  function Repeated(x: Cents, k: nat): Cents
  {
    if k == 0 then 0 else Repeated(x, k - 1) + x
  }

  lemma {:induction false} RepeatedIsProduct(x: Cents, k: nat)
    ensures Repeated(x, k) == x * k && (k > 0 ==> x * k - x == (k - 1) * x)
  {
    if k > 0 {
      RepeatedIsProduct(x, k - 1);
    }
  }

  lemma SumOwedAppend(ps: seq<ExpenseParticipant>, p: ExpenseParticipant)
    ensures SumOwed(ps + [p]) == SumOwed(ps) + p.amountOwed
  {
    assert (ps + [p])[..|ps|] == ps;
  }

  /** The last share is within half the number of participants, in cents, of everybody else's. */
  lemma LastShareBound(total: Cents, n: nat)
    requires n > 0
    ensures 2 * Abs((total - (n - 1) * RoundHalfEven(total, n)) - RoundHalfEven(total, n)) <= n
  {
    var per := RoundHalfEven(total, n);
    assert (total - (n - 1) * per) - per == total - per * n;
    assert Abs(total - per * n) == Abs(per * n - total);
  }

  /**
   * The rounding can leave the last participant owing nothing or less than
   * nothing: 0.02 among three is 0.01, 0.01 and 0.00, and 0.15 among ten
   * is 0.02 for nine of them and -0.03 for the last.
   */
  lemma NonPositiveLastShares()
    ensures RoundHalfEven(2, 3) == 1 && 2 - 2 * RoundHalfEven(2, 3) == 0
    ensures RoundHalfEven(15, 10) == 2 && 15 - 9 * RoundHalfEven(15, 10) == -3
  {
    RoundHalfEvenUnique(2, 3, 1);
    RoundHalfEvenUnique(15, 10, 2);
  }

  /** What the foreach at lines 175-189 objects to in one row: a non-positive amount first, then a non-member. */
  function ShareError(p: ExpenseParticipant, members: seq<UserId>): (r: Option<SplitError>)
    ensures r.None? <==> p.amountOwed > 0 && p.userId in members
    ensures r == Some(NonPositiveShare) <==> p.amountOwed <= 0
    ensures r == Some(ParticipantNotMember) <==> p.amountOwed > 0 && p.userId !in members
  {
    if p.amountOwed <= 0 then Some(NonPositiveShare)
    else if p.userId !in members then Some(ParticipantNotMember)
    else None
  }

  /** The objection to the first row that has one, if any. */
  function FirstShareError(ps: seq<ExpenseParticipant>, members: seq<UserId>): (r: Option<SplitError>)
    ensures r.None? <==> forall i :: 0 <= i < |ps| ==> ShareError(ps[i], members).None?
    ensures r.Some? ==>
      exists i :: 0 <= i < |ps| && ShareError(ps[i], members) == r
        && forall j :: 0 <= j < i ==> ShareError(ps[j], members).None?
  {
    if ps == [] then None
    else if ShareError(ps[0], members).Some? then ShareError(ps[0], members)
    else
      var r := FirstShareError(ps[1..], members);
      assert forall i :: 0 < i < |ps| ==> ps[i] == ps[1..][i - 1];
      r
  }

  /** Lines 175-189: the loop over the rows, returning at the first row that fails. */
  method CheckShares(ps: seq<ExpenseParticipant>, members: seq<UserId>) returns (r: Option<SplitError>)
    ensures r == FirstShareError(ps, members)
  {
    var i := 0;
    while i < |ps|
      invariant 0 <= i <= |ps|
      invariant FirstShareError(ps[i..], members) == FirstShareError(ps, members)
    {
      var participant := ps[i];
      if participant.amountOwed <= 0 {
        return Some(NonPositiveShare);
      }
      if participant.userId !in members {
        return Some(ParticipantNotMember);
      }
      assert ps[i..][1..] == ps[i + 1..];
      i := i + 1;
    }
    return None;
  }

  /** Lines 141-189: the checks of the custom-split endpoint, first failure wins. */
  function CustomSplitError(req: CustomSplitRequest, group: GroupLookup): (r: Option<SplitError>)
    ensures r.None? <==>
      req.totalAmount > 0 && req.participants != [] && Abs(SumOwed(req.participants) - req.totalAmount) <= OneCent
      && group.Some? && req.payerId in group.value
      && forall i :: 0 <= i < |req.participants| ==>
           req.participants[i].amountOwed > 0 && req.participants[i].userId in group.value
    ensures r == Some(NonPositiveTotal) <==> req.totalAmount <= 0
    ensures r == Some(NoParticipants) <==> req.totalAmount > 0 && req.participants == []
    ensures r == Some(SumMismatch) <==>
      req.totalAmount > 0 && req.participants != [] && Abs(SumOwed(req.participants) - req.totalAmount) > OneCent
    ensures r == Some(GroupNotFound) <==>
      req.totalAmount > 0 && req.participants != [] && Abs(SumOwed(req.participants) - req.totalAmount) <= OneCent
      && group.None?
    ensures r == Some(PayerNotMember) <==>
      req.totalAmount > 0 && req.participants != [] && Abs(SumOwed(req.participants) - req.totalAmount) <= OneCent
      && group.Some? && req.payerId !in group.value
    ensures (req.totalAmount > 0 && req.participants != [] && Abs(SumOwed(req.participants) - req.totalAmount) <= OneCent
             && group.Some? && req.payerId in group.value)
            ==> r == FirstShareError(req.participants, group.value)
  {
    if req.totalAmount <= 0 then Some(NonPositiveTotal)
    else if req.participants == [] then Some(NoParticipants)
    else if Abs(SumOwed(req.participants) - req.totalAmount) > OneCent then Some(SumMismatch)
    else if group.None? then Some(GroupNotFound)
    else if req.payerId !in group.value then Some(PayerNotMember)
    else
      var r := FirstShareError(req.participants, group.value);
      assert forall i :: 0 <= i < |req.participants| ==>
        (ShareError(req.participants[i], group.value).None? <==>
         req.participants[i].amountOwed > 0 && req.participants[i].userId in group.value);
      r
  }

  /**
   * An expense either endpoint records for a group with `members`: a
   * positive total paid by a member, shared among members who each owe a
   * positive amount, the amounts adding up to the total within a cent.
   */
  predicate Recordable(e: Expense, members: seq<UserId>)
  {
    e.totalAmount > 0 && e.participants != [] && e.payerId in members
    && (forall i :: 0 <= i < |e.participants| ==> e.participants[i].userId in members)
    && Abs(SumOwed(e.participants) - e.totalAmount) <= OneCent
  }

  /** Lines 53-134: refuse the request with the first failing check, or record the expense with its equal split. */
  method CreateExpenseEqualSplit(req: EqualSplitRequest, group: GroupLookup) returns (r: Result<Expense, SplitError>)
    ensures r.Failure? <==> EqualSplitError(req, group).Some?
    ensures r.Failure? ==> EqualSplitError(req, group) == Some(r.error)
    ensures r.Success? ==>
      r.value.payerId == req.payerId && r.value.totalAmount == req.totalAmount
      && Recordable(r.value, group.value)
      && SumOwed(r.value.participants) == req.totalAmount
      && |r.value.participants| == |req.participantIds|
      && forall i :: 0 <= i < |req.participantIds| ==> r.value.participants[i].userId == req.participantIds[i]
  {
    var error := EqualSplitError(req, group);
    if error.Some? {
      return Failure(error.value);
    }
    var shares := EqualShares(req.totalAmount, req.participantIds);
    r := Success(Expense(req.payerId, req.totalAmount, shares));
  }

  /**
   * Lines 138-228: refuse the request with the first failing check, or
   * record the expense with the requested rows as they are. The
   * amount-and-membership loop runs last, after the group and payer checks.
   */
  method CreateExpenseCustomSplit(req: CustomSplitRequest, group: GroupLookup) returns (r: Result<Expense, SplitError>)
    ensures r.Failure? <==> CustomSplitError(req, group).Some?
    ensures r.Failure? ==> CustomSplitError(req, group) == Some(r.error)
    ensures r.Success? ==>
      r.value == Expense(req.payerId, req.totalAmount, req.participants)
      && Recordable(r.value, group.value)
      && forall i :: 0 <= i < |req.participants| ==> r.value.participants[i].amountOwed > 0
  {
    if req.totalAmount <= 0 {
      return Failure(NonPositiveTotal);
    }
    if req.participants == [] {
      return Failure(NoParticipants);
    }
    var sumOfAmounts := SumOwed(req.participants);
    if Abs(sumOfAmounts - req.totalAmount) > OneCent {
      return Failure(SumMismatch);
    }
    if group.None? {
      return Failure(GroupNotFound);
    }
    if req.payerId !in group.value {
      return Failure(PayerNotMember);
    }
    var shareError := CheckShares(req.participants, group.value);
    if shareError.Some? {
      return Failure(shareError.value);
    }
    r := Success(Expense(req.payerId, req.totalAmount, req.participants));
  }
}
