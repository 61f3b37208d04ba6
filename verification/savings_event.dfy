/**
 * SavingsEvent: one entry in the history of a savings goal. It is immutable;
 * its three modifiers hand back the same event when nothing changes and a copy
 * with one field replaced otherwise.
 */
module Events {
  import opened Basics
  import opened Decimals
  import opened Transactions
  import Rules

  datatype EventName =
    | Manual | Started | Stopped | RuleApplication | IftttTransfer | Joined
    | Withdrawal | InternalTransfer | Cancellation | IncentivePayout | Interest

  /** A java.util.Date: an instant, in milliseconds since the epoch. */
  datatype Instant = Instant(epochMillis: int)

  /** The twelve fields; amount and cancelled are never null once constructed. */
  datatype SavingsEvent = SavingsEvent(
    id: Option<int>,
    userId: Option<int>,
    savingsGoalId: Option<int>,
    savingsRuleId: Option<int>,
    ruleType: Option<Rules.RuleType>,
    eventName: Option<EventName>,
    date: Option<LocalDate>,
    amount: Decimal,
    triggerId: Option<int>,
    savingsTransferId: Option<int>,
    cancelled: bool,
    created: Option<Instant>)

  /** The all-fields constructor: a null amount becomes zero and a null cancelled flag false. */
  function Make(id: Option<int>, userId: Option<int>, savingsGoalId: Option<int>, savingsRuleId: Option<int>,
                ruleType: Option<Rules.RuleType>, eventName: Option<EventName>, date: Option<LocalDate>,
                amount: Option<Decimal>, triggerId: Option<int>, savingsTransferId: Option<int>,
                cancelled: Option<bool>, created: Option<Instant>): (e: SavingsEvent)
    ensures e.id == id && e.userId == userId && e.savingsGoalId == savingsGoalId
    ensures e.savingsRuleId == savingsRuleId && e.ruleType == ruleType && e.eventName == eventName
    ensures e.date == date && e.triggerId == triggerId && e.savingsTransferId == savingsTransferId
    ensures e.created == created
    ensures amount.Some? ==> e.amount == amount.value
    ensures amount.None? ==> e.amount == Zero && Value(e.amount) == 0.0
    ensures e.cancelled <==> cancelled == Some(true)
  {
    SavingsEvent(id, userId, savingsGoalId, savingsRuleId, ruleType, eventName, date,
                 if amount.Some? then amount.value else Zero,
                 triggerId, savingsTransferId,
                 if cancelled.Some? then cancelled.value else false,
                 created)
  }

  /**
   * The public constructor: no id and no transfer yet, not cancelled, rule id
   * and rule type taken from the rule, created at the given instant (the clock).
   */
  function ForRule(userId: Option<int>, savingsGoalId: Option<int>, savingsRule: Rules.SavingsRule,
                   eventName: Option<EventName>, date: Option<LocalDate>, amount: Option<Decimal>,
                   triggerId: Option<int>, now: Instant): (e: SavingsEvent)
    ensures e.id == None && e.savingsTransferId == None && !e.cancelled
    ensures e.savingsRuleId == savingsRule.id && e.ruleType == Some(savingsRule.ruleType)
    ensures e.userId == userId && e.savingsGoalId == savingsGoalId && e.eventName == eventName
    ensures e.date == date && e.triggerId == triggerId && e.created == Some(now)
    ensures e.amount == if amount.Some? then amount.value else Zero
  {
    Make(None, userId, savingsGoalId, savingsRule.id, Some(savingsRule.ruleType), eventName, date,
         amount, triggerId, None, Some(false), Some(now))
  }

  /** withId: the same event when the id is unchanged, else a copy with the new id. */
  function WithId(e: SavingsEvent, id: Option<int>): (r: SavingsEvent)
    ensures r.id == id
    ensures r.(id := e.id) == e
  {
    if id == e.id then e
    else Make(id, e.userId, e.savingsGoalId, e.savingsRuleId, e.ruleType, e.eventName, e.date,
              Some(e.amount), e.triggerId, e.savingsTransferId, Some(e.cancelled), e.created)
  }

  /** cancelled: null throws; otherwise the same event or a copy with the new flag. */
  function Cancelled(e: SavingsEvent, cancelled: Option<bool>): (r: Result<SavingsEvent>)
    ensures cancelled.None? <==> r.Err?
    ensures r.Err? ==> r.error == NullPointerException
    ensures r.Ok? ==> r.value.cancelled == cancelled.value && r.value.(cancelled := e.cancelled) == e
  {
    if cancelled.None? then Err(NullPointerException)
    else if cancelled.value == e.cancelled then Ok(e)
    else Ok(Make(e.id, e.userId, e.savingsGoalId, e.savingsRuleId, e.ruleType, e.eventName, e.date,
                 Some(e.amount), e.triggerId, e.savingsTransferId, cancelled, e.created))
  }

  /** withSavingsTransferId: null is allowed; the same event when unchanged, else a copy. */
  function WithSavingsTransferId(e: SavingsEvent, savingsTransferId: Option<int>): (r: SavingsEvent)
    ensures r.savingsTransferId == savingsTransferId
    ensures r.(savingsTransferId := e.savingsTransferId) == e
  {
    if savingsTransferId == e.savingsTransferId then e
    else Make(e.id, e.userId, e.savingsGoalId, e.savingsRuleId, e.ruleType, e.eventName, e.date,
              Some(e.amount), e.triggerId, savingsTransferId, Some(e.cancelled), e.created)
  }

  /** equals: all twelve fields, the amount by BigDecimal.equals (scale included). */
  predicate Equals(a: SavingsEvent, b: SavingsEvent)
  {
    && a.id == b.id && a.userId == b.userId && a.savingsGoalId == b.savingsGoalId
    && a.savingsRuleId == b.savingsRuleId && a.eventName == b.eventName && a.date == b.date
    && a.amount == b.amount && a.triggerId == b.triggerId && a.ruleType == b.ruleType
    && a.savingsTransferId == b.savingsTransferId && a.cancelled == b.cancelled && a.created == b.created
  }

  /** Field-wise equals is exactly equality of event values. */
  lemma EqualsIsValueEquality(a: SavingsEvent, b: SavingsEvent)
    ensures Equals(a, b) <==> a == b
  {
  }

  /** Each modifier is idempotent, and setting a field to its current value is the identity. */
  lemma ModifiersIdempotent(e: SavingsEvent, id: Option<int>, cancelled: bool, transferId: Option<int>)
    ensures WithId(WithId(e, id), id) == WithId(e, id)
    ensures WithId(e, e.id) == e
    ensures Cancelled(Cancelled(e, Some(cancelled)).value, Some(cancelled)) == Cancelled(e, Some(cancelled))
    ensures Cancelled(e, Some(e.cancelled)) == Ok(e)
    ensures WithSavingsTransferId(WithSavingsTransferId(e, transferId), transferId)
         == WithSavingsTransferId(e, transferId)
    ensures WithSavingsTransferId(e, e.savingsTransferId) == e
  {
  }

  /** A modified event equals the original exactly when the new value is the old one. */
  lemma ModifiedEqualsOriginal(e: SavingsEvent, id: Option<int>, cancelled: bool, transferId: Option<int>)
    ensures Equals(WithId(e, id), e) <==> id == e.id
    ensures Equals(Cancelled(e, Some(cancelled)).value, e) <==> cancelled == e.cancelled
    ensures Equals(WithSavingsTransferId(e, transferId), e) <==> transferId == e.savingsTransferId
  {
  }

  /** The canonical constructor rebuilds any event from its own fields. */
  lemma MakeFromFields(e: SavingsEvent)
    ensures Make(e.id, e.userId, e.savingsGoalId, e.savingsRuleId, e.ruleType, e.eventName, e.date,
                 Some(e.amount), e.triggerId, e.savingsTransferId, Some(e.cancelled), e.created) == e
  {
  }
}
