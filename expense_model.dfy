/** The `expense` table: its columns, defaults and the amount validator. */
module ExpenseModel {
  import opened Common

  /**
   * One row; the id is the row's position plus one. `transactionTypeId` is 0
   * for an ordinary expense and otherwise names the user paid by a settle-up.
   */
  datatype Expense = Expense(description: string, amount: real, groupId: GroupId,
                             paidByUserId: UserId, currencyId: CurrencyId, transactionTypeId: UserId)

  /** `description` is a STRING(256). */
  const DescriptionMaxLength: nat := 256
  const OrdinaryExpense: UserId := 0
  const PositiveMessage := "Value should be a positive number"

  /** The `isZeroOrLesser` validator on `amount`: the error it throws, if any. */
  function AmountError(v: real): (r: Option<string>)
    ensures r.Some? <==> v <= 0.0
    ensures r.Some? ==> r.value == PositiveMessage
  {
    if v <= 0.0 then Some(PositiveMessage) else None
  }

  /** `description` is non-null and fits the column. */
  predicate DescriptionValid(d: string) {
    |d| <= DescriptionMaxLength
  }

  /** A row the column rules accept: the description fits and the amount passes its validator. */
  predicate ValidExpense(e: Expense) {
    DescriptionValid(e.description) && AmountError(e.amount).None?
  }

  /** A new row; `transactionTypeId` defaults to 0. */
  function NewExpense(description: string, amount: real, groupId: GroupId, paidBy: UserId,
                      currencyId: CurrencyId, transactionTypeId: UserId := OrdinaryExpense): (r: Expense)
    ensures r.description == description && r.amount == amount && r.groupId == groupId
    ensures r.paidByUserId == paidBy && r.currencyId == currencyId && r.transactionTypeId == transactionTypeId
  {
    Expense(description, amount, groupId, paidBy, currencyId, transactionTypeId)
  }

  /** The user a settle-up paid, or None for an ordinary expense. */
  function SettleUpPayee(e: Expense): (r: Option<UserId>)
    ensures r.None? <==> e.transactionTypeId == OrdinaryExpense
    ensures r.Some? ==> r.value == e.transactionTypeId
  {
    if e.transactionTypeId == OrdinaryExpense then None else Some(e.transactionTypeId)
  }

  /** A row created without naming a payee is an ordinary expense. */
  lemma DefaultIsOrdinary(description: string, amount: real, groupId: GroupId, paidBy: UserId, currencyId: CurrencyId)
    ensures SettleUpPayee(NewExpense(description, amount, groupId, paidBy, currencyId)).None?
  {
  }
}
