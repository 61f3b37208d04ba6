/** The bank transactions a savings rule is evaluated against. */
module Transactions {
  import opened Basics
  import opened Decimals

  /** A calendar date with no time of day. */
  datatype LocalDate = LocalDate(year: int, month: int, day: int)

  /** One line of a bank account; a negative amount is an expense. */
  datatype Transaction = Transaction(
    id: int,
    userId: int,
    amount: Decimal,
    description: Option<string>,
    date: LocalDate)

  /** The filter of executeRule: amount.signum() == -1. */
  predicate IsExpense(t: Transaction)
  {
    Signum(t.amount) == -1
  }
}
