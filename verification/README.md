# Savings rules: a Dafny model

This project models the core of a small savings back end. A user sets up
**savings rules**. A *round-up* rule rounds every expense up to the next
multiple of an amount and saves the difference. A *guilty-pleasure* rule
saves a fixed amount whenever the user spends money at a named place.
Applying a rule to the user's latest bank **transactions** produces
**savings events** of kind `rule_application`, one per savings goal of the
rule. The amount is split evenly over the goals.

The model has one module per source entity:

- `Decimals` (decimals.dfy) is the part of `java.math.BigDecimal` the core uses.
  - A `Decimal` is an unscaled integer plus a scale. Datatype equality is `BigDecimal.equals`, which sees the scale.
  - `CompareTo` compares values only. The ghost `Value` gives the real number a `Decimal` stands for.
  - `Divide` is specified by `IsRounded`, the CEILING or HALF_EVEN rounding of an integer fraction. `RoundedUnique` shows that this rounding has one answer per mode.
- `Text` (text.dfy) is `String.equalsIgnoreCase` over ASCII letters.
- `Transactions` (transactions.dfy) is the `Transaction` record and the expense filter (`signum() == -1`).
- `Rules` (savings_rule.dfy) is `SavingsRule`.
  - It is a class with constant fields and a `GoalIdList` object holding the goal ids.
  - `addSavingsGoal` and `removeSavingsGoal` change that list in place.
  - `withStatus` returns a new rule that shares the same list object, as the Java code shares its `ArrayList`.
- `Events` (savings_event.dfy) is `SavingsEvent`, an immutable value with three copy-on-change modifiers.
- `SavingsRulesService` (rules_service.dfy) is `StandardSavingsRulesService`.
  - `Roundup` and `DivideToGoalIds` are the two helpers.
  - `ExecuteRule` is `executeRule`, with the stream's `forEach` body as the method `ApplyRule`.
  - Both methods are proved against the functions `Evaluate` and `TransactionEvents`, which state the result list.

Java `null` becomes `Option`. A thrown exception becomes `Err` of a `Result`.
The model follows the code in every branch:

- A guilty-pleasure rule without a place throws `NullPointerException` (`Fires`).
- An active rule with no goals throws `ArithmeticException` when it fires, because `divideToGoalIds` divides by `new BigDecimal(0)` (`TransactionEvents`).
- The first exception ends `executeRule` (`EvaluateKeepsFirstError`).

### How executeRule calls roundup

`roundup` is declared as `roundup(transactionAmount, ruleAmount)`
(StandardSavingsRulesService.java:75). `executeRule` calls it as
`roundup(savingsRule.getAmount(), transaction.getAmount())` (line 55), which
swaps the two arguments. The model follows the call as written (`GoalAmount`)
and proves what it leads to:

- `RoundupAsCalledNotPositive`: for a positive rule amount and an expense, the amount saved is never positive.
- `RoundupRuleShareNotPositive`: the same holds for each goal's share after `divideToGoalIds`.
- `RoundupAsCalledExample`: a 2.00 rule over a -3.55 expense gives -2.00, where the intended amount is 0.45 (`RoundupExamplesToTwo`).
- `DebitOnlyExample`: for the debit-only unit test, each goal gets 0.0000.

`Roundup` itself, called with its arguments in the declared order, is proved
to return a value in `[0, ruleAmount)` (`RoundupRange`). That value is zero
exactly when the transaction is a whole multiple of the rule amount
(`RoundupZeroIffMultiple`).

### Where the code and its tests disagree

- `shouldDivideRoundup` (StandardSavingsRulesServiceTest.java:47-48) expects 33.34 for 100.00 over three goals. The code rounds HALF_EVEN at scale 4, giving 33.3333, which does not compare equal to 33.34 (`DivideToGoalIdsExample`). The model follows the code.
- `executeRuleShouldOnlyApplyToDebitTransaction` calls a `createRoundupRule` overload with goal ids (line 61), but `SavingsRule` has no such overload. `DebitOnlyExample` builds the same rule with `CreateRoundupRule` followed by two `AddSavingsGoal` calls.
- `executeRule` builds each event with an eight-argument constructor call (StandardSavingsRulesService.java:57-58). `SavingsEvent` has no such constructor. The model uses the public seven-argument constructor (SavingsEvent.java:69), passing the rule, which is what the call evidently means (`RuleApplicationEvent`).

## Model

| member | source | states |
|---|---|---|
| Transactions.IsExpense | src/main/java/com/qapital/savings/rule/StandardSavingsRulesService.java:49 | the filter's test: the amount's signum is -1, which Signum shows means a negative value |
| Decimals.Signum | src/main/java/com/qapital/savings/rule/StandardSavingsRulesService.java:49 | -1, 0 or 1 exactly as the value is negative, zero or positive |
| Decimals.Negate | src/test/java/com/qapital/savings/rule/StandardSavingsRulesServiceTest.java:64 | the value is negated and the scale kept |
| Decimals.Abs | src/main/java/com/qapital/savings/rule/StandardSavingsRulesService.java:76 | the value is the absolute value and the scale is kept |
| Decimals.Multiply | src/main/java/com/qapital/savings/rule/StandardSavingsRulesService.java:79 | the value is the exact product and the scales add up |
| Decimals.Subtract | src/main/java/com/qapital/savings/rule/StandardSavingsRulesService.java:80 | the value is the exact difference, at the larger scale |
| Decimals.SubtractScaled | src/main/java/com/qapital/savings/rule/StandardSavingsRulesService.java:80 | the difference at the common scale, restated over integers by cross-multiplying |
| Decimals.CompareTo | src/test/java/com/qapital/savings/rule/StandardSavingsRulesServiceTest.java:41 | the result is negative, zero or positive exactly as the first value is below, equal to or above the second |
| Decimals.EqualsIsScaleSensitive | src/main/java/com/qapital/savings/rule/SavingsRule.java:129 | equals sees the scale: 2.0 and 2.00 differ but compare as equal |
| Decimals.CeilingQuotient | src/main/java/com/qapital/savings/rule/StandardSavingsRulesService.java:78 | the least integer q with m <= e*q |
| Decimals.HalfEvenQuotient | src/main/java/com/qapital/savings/rule/StandardSavingsRulesService.java:85-86 | within half a unit of m/e, and even on a tie |
| Decimals.RoundedUnique | src/main/java/com/qapital/savings/rule/StandardSavingsRulesService.java:85-86 | each rounding mode rounds a fraction to exactly one integer |
| Decimals.Divide | src/main/java/com/qapital/savings/rule/StandardSavingsRulesService.java:78 | a zero divisor throws ArithmeticException; otherwise the quotient at the requested scale, rounded as the mode says |
| Text.CharsMatch | src/main/java/com/qapital/savings/rule/StandardSavingsRulesService.java:62 | true exactly when the characters of two equal-length strings agree up to case |
| Text.EqualsIgnoreCase | src/main/java/com/qapital/savings/rule/StandardSavingsRulesService.java:62 | true exactly when the argument is non-null, has the same length and agrees up to case |
| Text.EqualsIgnoreCaseSymmetric | src/main/java/com/qapital/savings/rule/StandardSavingsRulesService.java:62 | the comparison does not depend on argument order |
| Text.EqualsIgnoreCaseExample | src/main/java/com/qapital/bankdata/transaction/StandardTransactionsService.java:22-24 | "Starbucks" matches "STARBUCKS", and matches neither "McDonald's" nor null |
| Rules.WithGoal | src/main/java/com/qapital/savings/rule/SavingsRule.java:56-60 | the goal is in the list afterwards and the old list is a prefix of the new one; the list is unchanged when the goal was present and one longer when it was absent; no duplicates appear |
| Rules.WithGoalIdempotent | src/main/java/com/qapital/savings/rule/SavingsRule.java:56-60 | adding the same goal twice is adding it once |
| Rules.WithoutGoal | src/main/java/com/qapital/savings/rule/SavingsRule.java:62-64 | an absent goal leaves the list alone; otherwise exactly one copy is removed (one element shorter, multiset minus the goal) |
| Rules.WithoutGoalFirstOccurrence | src/main/java/com/qapital/savings/rule/SavingsRule.java:62-64 | List.remove(Object) cuts out the first occurrence and keeps the rest in order |
| Rules.AddThenRemove | src/main/java/com/qapital/savings/rule/SavingsRule.java:56-64 | removing a goal just added to a list without it gives back the old list |
| Rules.WithoutGoalRemovesAll | src/main/java/com/qapital/savings/rule/SavingsRule.java:56-64 | on a list without duplicates, as addSavingsGoal keeps it, removal leaves no copy of the goal |
| Rules.SavingsRule.constructor | src/main/java/com/qapital/savings/rule/SavingsRule.java:29-43 | fields as given; a null goal list becomes a fresh empty list and a null status becomes active |
| Rules.SavingsRule.CreateGuiltyPleasureRule | src/main/java/com/qapital/savings/rule/SavingsRule.java:46-48 | a fresh active guilty-pleasure rule with the given place and amount and no goals |
| Rules.SavingsRule.CreateRoundupRule | src/main/java/com/qapital/savings/rule/SavingsRule.java:50-52 | a fresh active round-up rule with no place and no goals |
| Rules.SavingsRule.AddSavingsGoal | src/main/java/com/qapital/savings/rule/SavingsRule.java:56-60 | the shared goal list becomes WithGoal of the old one |
| Rules.SavingsRule.RemoveSavingsGoal | src/main/java/com/qapital/savings/rule/SavingsRule.java:62-64 | the shared goal list becomes WithoutGoal of the old one |
| Rules.SavingsRule.WithStatus | src/main/java/com/qapital/savings/rule/SavingsRule.java:99-105 | null throws; the current status returns this rule; another status returns a fresh rule that shares the goal list; the result equals this rule, and is active, exactly when the status says so |
| Rules.SavingsRule.IsActive | src/main/java/com/qapital/savings/rule/SavingsRule.java:108-110 | true exactly when the status is active; WithStatus states how it follows a status change |
| Rules.SavingsRule.Equals | src/main/java/com/qapital/savings/rule/SavingsRule.java:120-132 | the same object, or all seven fields equal, with the goal lists compared element by element in order |
| Rules.EqualsIsEquivalence | src/main/java/com/qapital/savings/rule/SavingsRule.java:120-132 | equals is reflexive, symmetric and transitive |
| Rules.MinimalRuleEqualsFactoryRule | src/test/java/com/qapital/savings/rule/SavingsRuleTest.java:79-90 | a rule built from user, type and amount alone has no goals, is active and equals the round-up factory rule |
| Events.Make | src/main/java/com/qapital/savings/event/SavingsEvent.java:42-66 | every field as given, except that a null amount becomes zero and a null cancelled flag becomes false |
| Events.ForRule | src/main/java/com/qapital/savings/event/SavingsEvent.java:69-82 | no id and no transfer, not cancelled, rule id and type taken from the rule, created now |
| Events.WithId | src/main/java/com/qapital/savings/event/SavingsEvent.java:90-95 | the id is the new one and every other field is unchanged |
| Events.Cancelled | src/main/java/com/qapital/savings/event/SavingsEvent.java:101-107 | null throws NullPointerException; otherwise the flag is the new one and every other field is unchanged |
| Events.WithSavingsTransferId | src/main/java/com/qapital/savings/event/SavingsEvent.java:114-119 | the transfer id is the new one, null allowed, and every other field is unchanged |
| Events.Equals | src/main/java/com/qapital/savings/event/SavingsEvent.java:185-202 | all twelve fields equal, the amount by BigDecimal.equals; EqualsIsValueEquality shows this is equality of events |
| Events.EqualsIsValueEquality | src/main/java/com/qapital/savings/event/SavingsEvent.java:185-202 | equals over the twelve fields is exactly equality of events |
| Events.ModifiersIdempotent | src/main/java/com/qapital/savings/event/SavingsEvent.java:90-119 | applying a modifier twice is applying it once, and setting a field to its current value returns the same event |
| Events.ModifiedEqualsOriginal | src/main/java/com/qapital/savings/event/SavingsEvent.java:90-119 | a modified event equals the original exactly when the new value is the old one |
| Events.MakeFromFields | src/main/java/com/qapital/savings/event/SavingsEvent.java:42-66 | the all-fields constructor rebuilds any event from its own fields |
| SavingsRulesService.Roundup | src/main/java/com/qapital/savings/rule/StandardSavingsRulesService.java:75-81 | throws ArithmeticException exactly when the rule amount is zero |
| SavingsRulesService.RoundupScaled | src/main/java/com/qapital/savings/rule/StandardSavingsRulesService.java:75-81 | the result, scaled up, is the ceiling quotient times the divisor minus the dividend |
| SavingsRulesService.RoundupRange | src/main/java/com/qapital/savings/rule/StandardSavingsRulesService.java:75-81 | for a positive rule amount the amount saved lies in [0, rule amount) |
| SavingsRulesService.RoundupZeroIffMultiple | src/main/java/com/qapital/savings/rule/StandardSavingsRulesService.java:75-81 | for a positive rule amount nothing is saved exactly when the transaction is a whole multiple of it |
| SavingsRulesService.RoundupIgnoresSign | src/main/java/com/qapital/savings/rule/StandardSavingsRulesService.java:76 | a transaction and its negation give the same result |
| SavingsRulesService.RoundupExamplesToTwo | src/test/java/com/qapital/savings/rule/StandardSavingsRulesServiceTest.java:33-34 | -3.55 and -2.55 to 2.00 save 0.45 and 1.45 |
| SavingsRulesService.RoundupExamplesToOneAndAHalf | src/test/java/com/qapital/savings/rule/StandardSavingsRulesServiceTest.java:35-36 | -7.51 and 7.51 to 1.5 both save 1.49 |
| SavingsRulesService.RoundupExampleToFour | src/test/java/com/qapital/savings/rule/StandardSavingsRulesServiceTest.java:37 | -1.33 to 4.00 saves 2.67 |
| SavingsRulesService.DivideToGoalIds | src/main/java/com/qapital/savings/rule/StandardSavingsRulesService.java:83-87 | one goal gets the amount itself; zero goals throws ArithmeticException; otherwise the share has scale 4 |
| SavingsRulesService.DivideToGoalIdsBound | src/main/java/com/qapital/savings/rule/StandardSavingsRulesService.java:85-86 | for two or more goals, n shares miss the amount by at most n * 0.00005 |
| SavingsRulesService.DivideToGoalIdsExample | src/test/java/com/qapital/savings/rule/StandardSavingsRulesServiceTest.java:47-48 | 100.00 over three goals is 33.3333, which does not compare equal to 33.34 |
| SavingsRulesService.RuleApplicationEvent | src/main/java/com/qapital/savings/rule/StandardSavingsRulesService.java:56-58 | a rule_application event for the rule's user, the goal, today and the transaction, with rule id and type from the rule |
| SavingsRulesService.GoalEvents | src/main/java/com/qapital/savings/rule/StandardSavingsRulesService.java:56-59 | one event per goal, in goal order, all with the same amount |
| SavingsRulesService.Fires | src/main/java/com/qapital/savings/rule/StandardSavingsRulesService.java:54-62 | a round-up rule always fires; a guilty-pleasure rule fires exactly when place and description agree up to case; a null place throws |
| SavingsRulesService.GoalAmount | src/main/java/com/qapital/savings/rule/StandardSavingsRulesService.java:54-63 | for a nonzero transaction it throws ArithmeticException exactly when there are no goals |
| SavingsRulesService.GuiltyPleasureAmountIgnoresTransaction | src/main/java/com/qapital/savings/rule/StandardSavingsRulesService.java:63 | a guilty-pleasure rule's share does not depend on the transaction, and with one goal it is the rule amount |
| SavingsRulesService.RoundupRuleShareNotPositive | src/main/java/com/qapital/savings/rule/StandardSavingsRulesService.java:55 | with roundup called as executeRule calls it, a round-up rule with a positive amount gives each goal of an expense a share that is never positive |
| SavingsRulesService.ShareOfNonPositive | src/main/java/com/qapital/savings/rule/StandardSavingsRulesService.java:85-86 | splitting a non-positive amount over two or more goals gives a non-positive share |
| SavingsRulesService.NullDescriptionNeverMatches | src/main/java/com/qapital/savings/rule/StandardSavingsRulesService.java:62 | a transaction without a description never fires a guilty-pleasure rule |
| SavingsRulesService.TransactionEvents | src/main/java/com/qapital/savings/rule/StandardSavingsRulesService.java:49-69 | nothing for a non-expense or an inactive rule; an exception exactly when the place is null or the rule fires with no goals; otherwise one event per goal, with the share, when the rule fires |
| SavingsRulesService.Evaluate | src/main/java/com/qapital/savings/rule/StandardSavingsRulesService.java:44-72 | the reference result of executeRule: the results of the transactions joined in list order, the first exception winning; the empty list gives no events |
| SavingsRulesService.ApplyRule | src/main/java/com/qapital/savings/rule/StandardSavingsRulesService.java:50-71 | the forEach body adds exactly TransactionEvents for the expense |
| SavingsRulesService.ExecuteRule | src/main/java/com/qapital/savings/rule/StandardSavingsRulesService.java:42-73 | the result is Evaluate: the events of each transaction in list order, or the first exception |
| SavingsRulesService.EvaluateAppend | src/main/java/com/qapital/savings/rule/StandardSavingsRulesService.java:48-50 | the result for a + b is the result for a followed by the result for b |
| SavingsRulesService.EvaluateKeepsFirstError | src/main/java/com/qapital/savings/rule/StandardSavingsRulesService.java:48-71 | an exception raised in a prefix is the result for the whole list |
| SavingsRulesService.InactiveRuleYieldsNothing | src/main/java/com/qapital/savings/rule/StandardSavingsRulesService.java:51 | a rule that is not active yields no events |
| SavingsRulesService.Expenses | src/main/java/com/qapital/savings/rule/StandardSavingsRulesService.java:49 | a transaction is in the result exactly when it is an expense of the list |
| SavingsRulesService.ExpensesAppend | src/main/java/com/qapital/savings/rule/StandardSavingsRulesService.java:49 | the filter keeps a single transaction exactly when it is an expense and distributes over concatenation, so order and multiplicity are kept |
| SavingsRulesService.OnlyExpensesCount | src/main/java/com/qapital/savings/rule/StandardSavingsRulesService.java:49 | the result for a list is the result for its expenses alone |
| SavingsRulesService.EvaluateLength | src/main/java/com/qapital/savings/rule/StandardSavingsRulesService.java:53-67 | number of events = number of goals times number of transactions the rule applies to |
| SavingsRulesService.EvaluateEventsProvenance | src/main/java/com/qapital/savings/rule/StandardSavingsRulesService.java:49-66 | every event is a rule_application of this rule, for one of its goals, dated today, triggered by an expense of the list |
| SavingsRulesService.RoundupAsCalledNotPositive | src/main/java/com/qapital/savings/rule/StandardSavingsRulesService.java:55 | with the arguments as executeRule passes them, a positive rule amount and an expense never save a positive amount |
| SavingsRulesService.RoundupAsCalledExample | src/main/java/com/qapital/savings/rule/StandardSavingsRulesService.java:55 | with the arguments as executeRule passes them, 2.00 and -3.55 give -2.00 |
| SavingsRulesService.DebitOnlyEvaluation | src/test/java/com/qapital/savings/rule/StandardSavingsRulesServiceTest.java:59-70 | for a round-up rule with goals 11 and 22, only the debit 555 yields events: two of them, in goal order, each of 0.0000 |
| SavingsRulesService.DebitOnlyExample | src/test/java/com/qapital/savings/rule/StandardSavingsRulesServiceTest.java:59-70 | the same, with the rule built by the factory and addSavingsGoal and run through ExecuteRule |

## Left out

- The transactions service is not part of this model. `executeRule` fetches the user's latest transactions (StandardSavingsRulesService.java:43); the model takes the list as a parameter. The dummy data in StandardTransactionsService.java is left out.
- `activeRulesForUser` (StandardSavingsRulesService.java:31-39) builds two fixed rules. It is left out.
- The REST controller, JSON (de)serialisation, `hashCode`, `toString` and getters are left out.
- `Collections.unmodifiableList` views are not modelled. Each result is a plain sequence, and nothing in the core writes through those views.
- SavingsRulesService.ExecuteRule: `LocalDate.now()` becomes the parameter `today`. `new Date()` becomes the parameter `now`, shared by every event of one call. The Java code reads the clock once per event, so its instants may differ.
- SavingsRulesService.ExecuteRule: concurrent changes to the goal list while the rule runs are not modelled (the source marks `addSavingsGoal` as not thread safe).
- Text.EqualsIgnoreCase: case folding covers ASCII letters only. Java's `equalsIgnoreCase` also folds non-ASCII letters.
- Decimals.Divide: only the CEILING and HALF_EVEN modes the core uses are modelled. Negative scales are left out; every literal in the source has a scale of zero or more.
- A null user id, rule type, rule amount or transaction amount is not modelled. The source marks the first three `@NotNull`, and a null transaction amount would throw in the filter itself.
- Events.ForRule: a null rule, which would throw in the event constructor, is not modelled; executeRule never passes one.
- Transaction ids are modelled as non-null; the events' trigger ids are therefore always present.
