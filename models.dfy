/**
 * The entities the expense engine works on, as values: the fields of
 * Models/Expense.cs, Models/ExpenseParticipant.cs and the DTOs that carry
 * balances and settlements. Navigation properties, names, dates and
 * database keys carry no amount and are not part of these values.
 */
module Models {
  import opened Money
  import opened Linq

  /** A user's Guid, kept opaque. */
  type UserId = int

  datatype Option<+T> = None | Some(value: T)

  datatype Result<+T, +E> = Success(value: T) | Failure(error: E)

  /** One row of an expense split: `userId` owes `amountOwed` to the payer (also the shape of a ParticipantSplit request row). */
  datatype ExpenseParticipant = ExpenseParticipant(userId: UserId, amountOwed: Cents)

  /** A recorded expense: `payerId` paid `totalAmount`, shared out among `participants`. */
  datatype Expense = Expense(payerId: UserId, totalAmount: Cents, participants: seq<ExpenseParticipant>)

  /** UserBalanceDto without its display name: positive means the user is owed money, negative that the user owes. */
  datatype UserBalance = UserBalance(userId: UserId, balance: Cents)

  /** SettlementDto without its display names: `fromUserId` should pay `amount` to `toUserId`. */
  datatype Settlement = Settlement(fromUserId: UserId, toUserId: UserId, amount: Cents)

  /** The sum of the amounts owed in a split. */
  function SumOwed(ps: seq<ExpenseParticipant>): Cents
  {
    if ps == [] then 0 else SumOwed(ps[..|ps| - 1]) + ps[|ps| - 1].amountOwed
  }

  function UserIdOf(b: UserBalance): UserId { b.userId }

  /** The users of a balance list, in order. */
  function Ids(bs: seq<UserBalance>): (r: seq<UserId>)
    ensures |r| == |bs|
    ensures forall i :: 0 <= i < |bs| ==> r[i] == bs[i].userId
  {
    seq(|bs|, i requires 0 <= i < |bs| => bs[i].userId)
  }

  function BalanceOf(b: UserBalance): Cents { b.balance }

  /** The sort key of OrderByDescending(b => b.Balance). */
  function NegatedBalance(b: UserBalance): int { -b.balance }

  /** No two entries have the same user, as in a list built from a dictionary. */
  ghost predicate DistinctIds(bs: seq<UserBalance>)
  {
    InjectiveOn(bs, UserIdOf)
  }

  predicate Distinct<T(==)>(s: seq<T>)
  {
    forall i, j :: 0 <= i < j < |s| ==> s[i] != s[j]
  }
}
