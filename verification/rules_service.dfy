/**
 * StandardSavingsRulesService: turns a rule and a user's transactions into
 * savings events. roundup and divideToGoalIds are the two BigDecimal
 * helpers; executeRule walks the expense transactions and, for each one the
 * rule fires on, adds one rule_application event per savings goal.
 */
module SavingsRulesService {
  import opened Basics
  import opened Decimals
  import opened Text
  import opened Transactions
  import opened Events
  import Rules

  // ----- roundup -----

  /**
   * roundup(transactionAmount, ruleAmount): how much |transactionAmount|
   * lacks to reach the next whole multiple of ruleAmount. A zero rule
   * amount makes the division throw.
   */
  function Roundup(transactionAmount: Decimal, ruleAmount: Decimal): (r: Result<Decimal>)
    ensures r.Err? <==> ruleAmount.unscaled == 0
    ensures r.Err? ==> r.error == ArithmeticException
  {
    var trAmount := Abs(transactionAmount);
    match Divide(trAmount, ruleAmount, 0, Ceiling)
    case Err(e) => Err(e)
    case Ok(units) => Ok(Subtract(Multiply(units, ruleAmount), trAmount))
  }

  /** a is k times unit for some integer k. */
  ghost predicate IsWholeMultiple(a: Decimal, unit: Decimal)
  {
    exists k: int :: Value(Multiply(Decimal(k, 0), unit)) == Value(a)
  }

  /**
   * The integer core of roundup: with n/d the exact quotient |t|/r
   * (cross-multiplied) and q its ceiling, the result scaled by both
   * operands' 10^scale is 10^(common scale) times q*d - n.
   */
  lemma RoundupScaled(t: Decimal, r: Decimal)
    requires r.unscaled != 0
    ensures var a := Abs(t);
            var q := Divide(a, r, 0, Ceiling).value.unscaled;
            Roundup(t, r).value.unscaled * (Pow10(r.scale) * Pow10(a.scale))
              == Pow10(Max(r.scale, a.scale)) * (q * (r.unscaled * Pow10(a.scale)) - a.unscaled * Pow10(r.scale))
  {
    var a := Abs(t);
    var units := Divide(a, r, 0, Ceiling).value;
    var m := Multiply(units, r);
    assert Roundup(t, r) == Ok(Subtract(m, a));
    assert m.unscaled == units.unscaled * r.unscaled && m.scale == r.scale;
    SubtractScaled(m, a);
    MultiplyAssociates(units.unscaled, r.unscaled, Pow10(a.scale));
  }

  lemma MultiplyAssociates(x: int, y: int, z: int)
    ensures x * y * z == x * (y * z)
  {
  }

  /**
   * The integer argument behind the range of roundup: with q the ceiling of
   * n/d, the slack q*d - n lies in [0, d), and the result x is that slack
   * rescaled.
   */
  lemma RoundupRangeArith(x: int, q: int, n: int, d: int, ur: int, pr: int, pa: int, pm: int)
    requires pr > 0 && pa > 0 && pm > 0
    requires d == ur * pa && d > 0
    requires d * (q - 1) < n <= d * q
    requires x * (pr * pa) == pm * (q * d - n)
    ensures 0 <= x
    ensures x * pr < ur * pm
  {
    var slack := q * d - n;
    assert d * (q - 1) == d * q - d;
    assert 0 <= slack < d;
    MultiplyLeftLess(pm, slack, 0);
    assert pr * pa > 0;
    MultiplyLeftLess(pr * pa, x, 0);
    MultiplyLeftLess(pm, slack, d);
    assert pa * (x * pr) == x * (pr * pa);
    assert pa * (ur * pm) == pm * d;
    MultiplyLeftLess(pa, x * pr, ur * pm);
  }

  /** The result is zero exactly when the slack is. */
  lemma RoundupZeroArith(x: int, slack: int, pr: int, pa: int, pm: int)
    requires pr > 0 && pa > 0 && pm > 0
    requires x * (pr * pa) == pm * slack
    ensures x == 0 <==> slack == 0
  {
    assert pr * pa > 0;
    MultiplyLeftLess(pr * pa, x, 0);
    MultiplyLeftLess(pr * pa, 0, x);
    MultiplyLeftLess(pm, slack, 0);
    MultiplyLeftLess(pm, 0, slack);
  }

  /** For a positive rule amount the result lies in [0, ruleAmount). */
  lemma RoundupRange(t: Decimal, r: Decimal)
    requires Signum(r) == 1
    ensures Roundup(t, r).Ok?
    ensures 0.0 <= Value(Roundup(t, r).value) < Value(r)
  {
    var a := Abs(t);
    var x := Roundup(t, r).value;
    var q := Divide(a, r, 0, Ceiling).value.unscaled;
    var pr, pa, pm := Pow10(r.scale), Pow10(a.scale), Pow10(Max(r.scale, a.scale));
    var n, d := a.unscaled * Pow10(r.scale + 0), r.unscaled * pa;
    assert d > 0;
    assert IsRounded(n, d, Ceiling, q);
    RoundupScaled(t, r);
    RoundupRangeArith(x.unscaled, q, n, d, r.unscaled, pr, pa, pm);
    ValueSign(x);
    ValueOrder(x, r);
  }

  /** For a positive rule amount the result is zero exactly when |t| is a whole multiple of it. */
  lemma RoundupZeroIffMultiple(t: Decimal, r: Decimal)
    requires Signum(r) == 1
    ensures Roundup(t, r).Ok?
    ensures Value(Roundup(t, r).value) == 0.0 <==> IsWholeMultiple(Abs(t), r)
  {
    var a := Abs(t);
    var x := Roundup(t, r).value;
    var q := Divide(a, r, 0, Ceiling).value.unscaled;
    var pr, pa, pm := Pow10(r.scale), Pow10(a.scale), Pow10(Max(r.scale, a.scale));
    var n, d := a.unscaled * Pow10(r.scale + 0), r.unscaled * pa;
    assert d > 0;
    assert IsRounded(n, d, Ceiling, q);
    RoundupScaled(t, r);
    RoundupZeroArith(x.unscaled, q * d - n, pr, pa, pm);
    ValueSign(x);
    if Value(x) == 0.0 {
      var k := Multiply(Decimal(q, 0), r);
      ValueOrder(k, a);
      MultiplyAssociates(q, r.unscaled, pa);
      assert Value(k) == Value(a);
    }
    if IsWholeMultiple(a, r) {
      var j :| Value(Multiply(Decimal(j, 0), r)) == Value(a);
      var k := Multiply(Decimal(j, 0), r);
      ValueOrder(k, a);
      MultiplyAssociates(j, r.unscaled, pa);
      assert j * d == n;
      assert d * (j - 1) == d * j - d;
      assert IsRounded(n, d, Ceiling, j);
      RoundedUnique(n, d, Ceiling, j, q);
    }
  }

  /** roundup looks only at the size of the transaction, not its sign. */
  lemma RoundupIgnoresSign(t: Decimal, r: Decimal)
    ensures Roundup(t, r) == Roundup(Negate(t), r)
  {
    assert Abs(t) == Abs(Negate(t));
  }

  /** The unit tests' values for a rule amount of 2.00. */
  lemma RoundupExamplesToTwo()
    ensures Roundup(Decimal(-355, 2), Decimal(200, 2)) == Ok(Decimal(45, 2))
    ensures Roundup(Decimal(-255, 2), Decimal(200, 2)) == Ok(Decimal(145, 2))
  {
    assert Pow10(1) == 10 && Pow10(2) == 100;
  }

  /** The unit tests' values for a rule amount of 1.5, with either sign. */
  lemma RoundupExamplesToOneAndAHalf()
    ensures Roundup(Decimal(-751, 2), Decimal(15, 1)) == Ok(Decimal(149, 2))
    ensures Roundup(Decimal(751, 2), Decimal(15, 1)) == Ok(Decimal(149, 2))
  {
    assert Pow10(1) == 10 && Pow10(2) == 100 && Pow10(3) == 1000;
  }

  /** The unit tests' value for a rule amount of 4.00. */
  lemma RoundupExampleToFour()
    ensures Roundup(Decimal(-133, 2), Decimal(400, 2)) == Ok(Decimal(267, 2))
  {
    assert Pow10(1) == 10 && Pow10(2) == 100;
  }

  // ----- divideToGoalIds -----

  /**
   * divideToGoalIds(amount, n): the amount itself for one goal; otherwise
   * amount/n at scale 4, rounded half-even. No goals divides by zero.
   */
  function DivideToGoalIds(amount: Decimal, numberOfGoalIds: int): (r: Result<Decimal>)
    ensures numberOfGoalIds == 1 ==> r == Ok(amount)
    ensures r.Err? <==> numberOfGoalIds == 0
    ensures r.Err? ==> r.error == ArithmeticException
    ensures numberOfGoalIds != 1 && r.Ok? ==> r.value.scale == 4
  {
    if numberOfGoalIds == 1 then Ok(amount)
    else Divide(amount, Decimal(numberOfGoalIds, 0), 4, HalfEven)
  }

  /**
   * The integer argument behind the share bound: e is the error n*share - amount
   * at the common scale, and the half-even rounding keeps it within
   * 5n units of the fifth decimal place.
   */
  lemma ShareErrorArith(e: int, q: int, m: int, n: int, pa: int, pm: int)
    requires pa > 0 && pm > 0 && n > 0
    requires 2 * AbsInt(m - n * pa * q) <= n * pa
    requires e * (Pow10(4) * pa) == pm * (n * q * pa - m * Pow10(0))
    ensures -(5 * n * pm) <= e * 100000 <= 5 * n * pm
  {
    assert Pow10(4) == 10000 by {
      assert Pow10(1) == 10 && Pow10(2) == 100 && Pow10(3) == 1000;
    }
    assert n * q * pa == n * pa * q;
    var d := n * pa;
    var slack := d * q - m;
    assert -d <= 2 * slack <= d;
    MultiplyLeftLess(pm, d, 2 * slack);
    MultiplyLeftLess(pm, 2 * slack, -d);
    assert pa * (e * 20000) == 2 * (pm * slack);
    assert pa * (n * pm) == pm * d;
    MultiplyLeftLess(pa, n * pm, e * 20000);
    MultiplyLeftLess(pa, e * 20000, -(n * pm));
  }

  /** The error n*share - amount, as a Decimal, is at most 5n units of the fifth decimal place. */
  lemma ShareError(amount: Decimal, n: int)
    requires n >= 2
    ensures DivideToGoalIds(amount, n).Ok?
    ensures var err := Subtract(Multiply(Decimal(n, 0), DivideToGoalIds(amount, n).value), amount);
            -(5 * n * Pow10(err.scale)) <= err.unscaled * 100000 <= 5 * n * Pow10(err.scale)
  {
    var q := DivideToGoalIds(amount, n).value;
    var pa := Pow10(amount.scale);
    var m := amount.unscaled * Pow10(0 + 4);
    assert IsRounded(m, n * pa, HalfEven, q.unscaled);
    var product := Multiply(Decimal(n, 0), q);
    assert product.unscaled == n * q.unscaled && product.scale == 4;
    SubtractScaled(product, amount);
    ShareErrorArith(Subtract(product, amount).unscaled, q.unscaled, m, n, pa, Pow10(Max(4, amount.scale)));
  }

  /** n*q - amount, computed with Decimals, has the value n*q - amount. */
  lemma ShareErrorValue(amount: Decimal, q: Decimal, n: int)
    ensures Value(Subtract(Multiply(Decimal(n, 0), q), amount)) == (n as real) * Value(q) - Value(amount)
  {
    assert Value(Decimal(n, 0)) == n as real;
  }

  /** A Decimal error at most 5n units of the fifth decimal place is at most n/20000. */
  lemma ErrorWithinBound(err: Decimal, n: int)
    requires -(5 * n * Pow10(err.scale)) <= err.unscaled * 100000 <= 5 * n * Pow10(err.scale)
    ensures -(n as real) / 20000.0 <= Value(err) <= (n as real) / 20000.0
  {
    var bound := Decimal(5 * n, 5);
    assert Pow10(5) == 100000 by {
      assert Pow10(1) == 10 && Pow10(2) == 100 && Pow10(3) == 1000 && Pow10(4) == 10000;
    }
    ValueOrder(bound, err);
    ValueOrder(err, Negate(bound));
    assert Value(bound) == (n as real) / 20000.0;
  }

  /**
   * For two or more goals each share is within half a unit of the fourth
   * decimal place of amount/n, so the n shares together miss the amount by
   * at most n * 0.00005.
   */
  lemma DivideToGoalIdsBound(amount: Decimal, n: int, share: Decimal)
    requires n >= 2 && DivideToGoalIds(amount, n) == Ok(share)
    ensures -(n as real) / 20000.0 <= (n as real) * Value(share) - Value(amount) <= (n as real) / 20000.0
  {
    var err := Subtract(Multiply(Decimal(n, 0), share), amount);
    assert -(n as real) / 20000.0 <= Value(err) <= (n as real) / 20000.0 by {
      ShareError(amount, n);
      ErrorWithinBound(err, n);
    }
    assert Value(err) == (n as real) * Value(share) - Value(amount) by {
      ShareErrorValue(amount, share, n);
    }
  }

  /** The unit test expects 33.34 for 100.00 over three goals; the code gives 33.3333. */
  lemma DivideToGoalIdsExample()
    ensures DivideToGoalIds(Decimal(10000, 2), 3) == Ok(Decimal(333333, 4))
    ensures CompareTo(DivideToGoalIds(Decimal(10000, 2), 3).value, Decimal(3334, 2)) != 0
  {
    assert Pow10(1) == 10 && Pow10(2) == 100 && Pow10(3) == 1000 && Pow10(4) == 10000;
  }

  // ----- executeRule -----

  /** The event added for one goal: rule id and rule type come from the rule. */
  function RuleApplicationEvent(rule: Rules.SavingsRule, goalId: int, today: LocalDate, amount: Decimal,
                                triggerId: int, now: Instant): (e: SavingsEvent)
    ensures e.userId == Some(rule.userId) && e.savingsGoalId == Some(goalId)
    ensures e.savingsRuleId == rule.id && e.ruleType == Some(rule.ruleType)
    ensures e.eventName == Some(RuleApplication) && e.date == Some(today)
    ensures e.amount == amount && e.triggerId == Some(triggerId)
    ensures e.id == None && e.savingsTransferId == None && !e.cancelled && e.created == Some(now)
  {
    ForRule(Some(rule.userId), Some(goalId), rule, Some(RuleApplication), Some(today), Some(amount),
            Some(triggerId), now)
  }

  /** One event per goal, in the order of the goal list, all with the same amount. */
  function GoalEvents(rule: Rules.SavingsRule, goalIds: seq<int>, today: LocalDate, amount: Decimal,
                      triggerId: int, now: Instant): (r: seq<SavingsEvent>)
    ensures |r| == |goalIds|
    ensures forall k :: 0 <= k < |goalIds| ==>
              r[k] == RuleApplicationEvent(rule, goalIds[k], today, amount, triggerId, now)
  {
    if goalIds == [] then []
    else
      var n := |goalIds| - 1;
      var init := GoalEvents(rule, goalIds[..n], today, amount, triggerId, now);
      init + [RuleApplicationEvent(rule, goalIds[n], today, amount, triggerId, now)]
  }

  /**
   * Whether the rule fires on an expense: a round-up rule always does; a
   * guilty-pleasure rule when its place matches the description, ignoring
   * case. A null place throws; a null description never matches.
   */
  function Fires(rule: Rules.SavingsRule, tx: Transaction): (r: Result<bool>)
    ensures r.Err? <==> rule.ruleType == Rules.GuiltyPleasure && rule.placeDescription.None?
    ensures r.Err? ==> r.error == NullPointerException
    ensures r == Ok(true) <==>
      || rule.ruleType == Rules.Roundup
      || (rule.placeDescription.Some? && tx.description.Some?
          && SameUpToCase(rule.placeDescription.value, tx.description.value))
  {
    match rule.ruleType
    case Roundup => Ok(true)
    case GuiltyPleasure =>
      if rule.placeDescription.None? then Err(NullPointerException)
      else Ok(EqualsIgnoreCase(rule.placeDescription.value, tx.description))
  }

  /**
   * The amount each goal receives: a round-up rule divides
   * roundup(rule amount, transaction amount), in the argument order of the
   * call in executeRule; a guilty-pleasure rule divides its own amount.
   */
  function GoalAmount(rule: Rules.SavingsRule, tx: Transaction, numberOfGoalIds: int): (r: Result<Decimal>)
    ensures tx.amount.unscaled != 0 ==> (r.Err? <==> numberOfGoalIds == 0)
    ensures r.Err? ==> r.error == ArithmeticException
  {
    match rule.ruleType
    case Roundup =>
      (match Roundup(rule.amount, tx.amount)
       case Err(e) => Err(e)
       case Ok(total) => DivideToGoalIds(total, numberOfGoalIds))
    case GuiltyPleasure => DivideToGoalIds(rule.amount, numberOfGoalIds)
  }

  /** A guilty-pleasure rule saves the same per-goal amount whatever the transaction's amount. */
  lemma GuiltyPleasureAmountIgnoresTransaction(rule: Rules.SavingsRule, tx1: Transaction, tx2: Transaction, n: int)
    requires rule.ruleType == Rules.GuiltyPleasure
    ensures GoalAmount(rule, tx1, n) == GoalAmount(rule, tx2, n)
    ensures n == 1 ==> GoalAmount(rule, tx1, n) == Ok(rule.amount)
  {
  }

  /** Unfolds GoalAmount for a round-up rule whose roundup has been computed. */
  lemma RoundupGoalAmount(rule: Rules.SavingsRule, tx: Transaction, n: int, total: Decimal)
    requires rule.ruleType == Rules.Roundup && Roundup(rule.amount, tx.amount) == Ok(total)
    ensures GoalAmount(rule, tx, n) == DivideToGoalIds(total, n)
  {
  }

  /** A half-even rounding of a non-positive fraction u*p/e is not positive. */
  lemma HalfEvenOfNonPositive(u: int, p: int, e: int, q: int)
    requires u <= 0 && p > 0 && e > 0
    requires 2 * AbsInt(u * p - e * q) <= e
    ensures q <= 0
  {
    MultiplyLeftLess(p, 0, u);
    MultiplyLeftLess(e, q, 1);
  }

  /**
   * With roundup called as executeRule calls it, a round-up rule with a
   * positive amount gives every goal of an expense a share that is never
   * positive.
   */
  lemma RoundupRuleShareNotPositive(rule: Rules.SavingsRule, tx: Transaction, n: int)
    requires rule.ruleType == Rules.Roundup && Signum(rule.amount) == 1 && IsExpense(tx) && n >= 1
    ensures GoalAmount(rule, tx, n).Ok?
    ensures Value(GoalAmount(rule, tx, n).value) <= 0.0
  {
    RoundupAsCalledNotPositive(rule.amount, tx.amount);
    var total := Roundup(rule.amount, tx.amount).value;
    ValueSign(total);
    RoundupGoalAmount(rule, tx, n, total);
    if n != 1 {
      ShareOfNonPositive(total, n);
      ValueSign(DivideToGoalIds(total, n).value);
    }
  }

  /** Splitting a non-positive amount over two or more goals gives a non-positive share. */
  lemma ShareOfNonPositive(total: Decimal, n: int)
    requires total.unscaled <= 0 && n >= 2
    ensures DivideToGoalIds(total, n).Ok? && DivideToGoalIds(total, n).value.unscaled <= 0
  {
    var share := DivideToGoalIds(total, n).value;
    var p := Pow10(total.scale);
    MultiplyLeftLess(p, 0, n);
    assert IsRounded(total.unscaled * Pow10(4), n * p, HalfEven, share.unscaled);
    HalfEvenOfNonPositive(total.unscaled, Pow10(4), n * p, share.unscaled);
  }

  /** A guilty-pleasure rule never fires on a transaction without a description. */
  lemma NullDescriptionNeverMatches(rule: Rules.SavingsRule, tx: Transaction)
    requires rule.ruleType == Rules.GuiltyPleasure && tx.description.None?
    ensures Fires(rule, tx) != Ok(true)
  {
  }

  /** The events one transaction adds to the list, or the exception it raises. */
  function TransactionEvents(rule: Rules.SavingsRule, tx: Transaction, today: LocalDate, now: Instant)
    : (r: Result<seq<SavingsEvent>>)
    reads rule.savingsGoalIds
    ensures !(IsExpense(tx) && rule.IsActive()) ==> r == Ok([])
    ensures IsExpense(tx) && rule.IsActive() ==>
      (r.Err? <==> Fires(rule, tx).Err? || (Fires(rule, tx) == Ok(true) && rule.savingsGoalIds.ids == []))
    ensures r.Ok? && r.value != [] ==> IsExpense(tx) && rule.IsActive() && Fires(rule, tx) == Ok(true)
    ensures r.Ok? && IsExpense(tx) && rule.IsActive() && Fires(rule, tx) == Ok(true) ==>
      var ids := rule.savingsGoalIds.ids;
      && GoalAmount(rule, tx, |ids|).Ok?
      && |r.value| == |ids|
      && forall k :: 0 <= k < |ids| ==>
           r.value[k] == RuleApplicationEvent(rule, ids[k], today, GoalAmount(rule, tx, |ids|).value, tx.id, now)
  {
    if !(IsExpense(tx) && rule.IsActive()) then Ok([])
    else
      match Fires(rule, tx)
      case Err(e) => Err(e)
      case Ok(fires) =>
        if !fires then Ok([])
        else
          var ids := rule.savingsGoalIds.ids;
          match GoalAmount(rule, tx, |ids|)
          case Err(e) => Err(e)
          case Ok(amount) => Ok(GoalEvents(rule, ids, today, amount, tx.id, now))
  }

  /** Appending results: the first exception wins; otherwise the event lists are joined. */
  function Concat(x: Result<seq<SavingsEvent>>, y: Result<seq<SavingsEvent>>): (r: Result<seq<SavingsEvent>>)
    ensures x.Err? ==> r == x
    ensures x.Ok? && y.Err? ==> r == y
    ensures x.Ok? && y.Ok? ==> r == Ok(x.value + y.value)
  {
    if x.Err? then x else if y.Err? then y else Ok(x.value + y.value)
  }

  /**
   * What executeRule returns for a list of transactions: the events of each
   * transaction in list order, or the first exception raised.
   */
  function Evaluate(rule: Rules.SavingsRule, txs: seq<Transaction>, today: LocalDate, now: Instant)
    : (r: Result<seq<SavingsEvent>>)
    reads rule.savingsGoalIds
    decreases |txs|
  {
    if txs == [] then Ok([])
    else
      var n := |txs| - 1;
      Concat(Evaluate(rule, txs[..n], today, now), TransactionEvents(rule, txs[n], today, now))
  }

  /**
   * The body of executeRule's forEach, for one expense: nothing when the
   * rule is not active or does not fire; otherwise one event per goal, in
   * goal order, each with the same per-goal amount.
   */
  method ApplyRule(rule: Rules.SavingsRule, transaction: Transaction, today: LocalDate, now: Instant)
    returns (added: Result<seq<SavingsEvent>>)
    requires IsExpense(transaction)
    ensures added == TransactionEvents(rule, transaction, today, now)
  {
    if !rule.IsActive() {
      return Ok([]);
    }
    var savingsGoalIds := rule.savingsGoalIds.ids;
    var amount: Result<Decimal>;
    if rule.ruleType == Rules.Roundup {
      var total := Roundup(rule.amount, transaction.amount);
      amount := DivideToGoalIds(total.value, |savingsGoalIds|);
    } else {
      if rule.placeDescription.None? {
        return Err(NullPointerException);
      }
      if !EqualsIgnoreCase(rule.placeDescription.value, transaction.description) {
        return Ok([]);
      }
      amount := DivideToGoalIds(rule.amount, |savingsGoalIds|);
    }
    assert amount == GoalAmount(rule, transaction, |savingsGoalIds|);
    if amount.Err? {
      return Err(amount.error);
    }
    var events: seq<SavingsEvent> := [];
    var j := 0;
    while j < |savingsGoalIds|
      invariant 0 <= j <= |savingsGoalIds|
      invariant events == GoalEvents(rule, savingsGoalIds[..j], today, amount.value, transaction.id, now)
    {
      assert savingsGoalIds[..j + 1][..j] == savingsGoalIds[..j];
      events := events + [RuleApplicationEvent(rule, savingsGoalIds[j], today, amount.value, transaction.id, now)];
      j := j + 1;
    }
    assert savingsGoalIds[..j] == savingsGoalIds;
    return Ok(events);
  }

  /**
   * executeRule: walks the transactions in order, skipping all but
   * expenses, and adds what the rule yields for each one. The transaction
   * list, today's date and the clock are parameters.
   */
  method ExecuteRule(rule: Rules.SavingsRule, transactions: seq<Transaction>, today: LocalDate, now: Instant)
    returns (result: Result<seq<SavingsEvent>>)
    ensures result == Evaluate(rule, transactions, today, now)
  {
    if |transactions| == 0 {
      return Ok([]);
    }
    var savingsEvents: seq<SavingsEvent> := [];
    var i := 0;
    while i < |transactions|
      invariant 0 <= i <= |transactions|
      invariant Evaluate(rule, transactions[..i], today, now) == Ok(savingsEvents)
    {
      var transaction := transactions[i];
      assert transactions[..i + 1][..i] == transactions[..i] && transactions[..i + 1][i] == transaction;
      assert Evaluate(rule, transactions[..i + 1], today, now)
          == Concat(Ok(savingsEvents), TransactionEvents(rule, transaction, today, now));
      if IsExpense(transaction) {
        var added := ApplyRule(rule, transaction, today, now);
        if added.Err? {
          EvaluateKeepsFirstError(rule, transactions, i + 1, today, now);
          return Err(added.error);
        }
        savingsEvents := savingsEvents + added.value;
      } else {
        assert savingsEvents + [] == savingsEvents;
      }
      i := i + 1;
    }
    assert transactions[..i] == transactions;
    return Ok(savingsEvents);
  }

  // ----- properties of executeRule -----

  lemma ConcatAssociates(x: Result<seq<SavingsEvent>>, y: Result<seq<SavingsEvent>>, z: Result<seq<SavingsEvent>>)
    ensures Concat(Concat(x, y), z) == Concat(x, Concat(y, z))
  {
    if x.Ok? && y.Ok? && z.Ok? {
      assert (x.value + y.value) + z.value == x.value + (y.value + z.value);
    }
  }

  /** The result for a + b is the result for a followed by the result for b. */
  lemma {:induction false} EvaluateAppend(rule: Rules.SavingsRule, a: seq<Transaction>, b: seq<Transaction>,
                                          today: LocalDate, now: Instant)
    ensures Evaluate(rule, a + b, today, now)
         == Concat(Evaluate(rule, a, today, now), Evaluate(rule, b, today, now))
    decreases |b|
  {
    if b == [] {
      assert a + b == a;
      var x := Evaluate(rule, a, today, now);
      if x.Ok? {
        assert x.value + [] == x.value;
      }
    } else {
      var n := |b| - 1;
      assert (a + b)[..|a + b| - 1] == a + b[..n];
      assert (a + b)[|a + b| - 1] == b[n];
      EvaluateAppend(rule, a, b[..n], today, now);
      ConcatAssociates(Evaluate(rule, a, today, now), Evaluate(rule, b[..n], today, now),
                       TransactionEvents(rule, b[n], today, now));
    }
  }

  /** Once a prefix raises, the whole list raises the same exception. */
  lemma EvaluateKeepsFirstError(rule: Rules.SavingsRule, txs: seq<Transaction>, k: nat,
                                today: LocalDate, now: Instant)
    requires k <= |txs| && Evaluate(rule, txs[..k], today, now).Err?
    ensures Evaluate(rule, txs, today, now) == Evaluate(rule, txs[..k], today, now)
  {
    assert txs[..k] + txs[k..] == txs;
    EvaluateAppend(rule, txs[..k], txs[k..], today, now);
  }

  /** A rule that is not active produces no events, whatever the transactions. */
  lemma {:induction false} InactiveRuleYieldsNothing(rule: Rules.SavingsRule, txs: seq<Transaction>,
                                                     today: LocalDate, now: Instant)
    requires !rule.IsActive()
    ensures Evaluate(rule, txs, today, now) == Ok([])
    decreases |txs|
  {
    if txs != [] {
      InactiveRuleYieldsNothing(rule, txs[..|txs| - 1], today, now);
      var none: seq<SavingsEvent> := [];
      assert none + none == none;
    }
  }

  /** The expenses of a list, in order. */
  function Expenses(txs: seq<Transaction>): (r: seq<Transaction>)
    ensures forall t :: t in r <==> t in txs && IsExpense(t)
    decreases |txs|
  {
    if txs == [] then []
    else
      var n := |txs| - 1;
      var init := Expenses(txs[..n]);
      assert forall t :: t in txs <==> t in txs[..n] || t == txs[n] by {
        assert txs == txs[..n] + [txs[n]];
      }
      if IsExpense(txs[n]) then init + [txs[n]] else init
  }

  /**
   * Expenses is the stream filter: it keeps each expense, in order and with
   * its multiplicity, and distributes over concatenation.
   */
  lemma {:induction false} ExpensesAppend(a: seq<Transaction>, b: seq<Transaction>)
    ensures Expenses(a + b) == Expenses(a) + Expenses(b)
    ensures |b| == 1 ==> Expenses(b) == if IsExpense(b[0]) then b else []
    decreases |b|
  {
    if b == [] {
      assert a + b == a;
    } else {
      var n := |b| - 1;
      assert (a + b)[..|a + b| - 1] == a + b[..n];
      assert (a + b)[|a + b| - 1] == b[n];
      ExpensesAppend(a, b[..n]);
      if |b| == 1 {
        assert b[..n] == [];
      }
    }
  }

  /** Only expenses matter: dropping every other transaction changes nothing. */
  lemma {:induction false} OnlyExpensesCount(rule: Rules.SavingsRule, txs: seq<Transaction>,
                                             today: LocalDate, now: Instant)
    ensures Evaluate(rule, txs, today, now) == Evaluate(rule, Expenses(txs), today, now)
    decreases |txs|
  {
    if txs != [] {
      var n := |txs| - 1;
      OnlyExpensesCount(rule, txs[..n], today, now);
      var e := Expenses(txs[..n]);
      if IsExpense(txs[n]) {
        assert (e + [txs[n]])[..|e|] == e;
      } else {
        var x := Evaluate(rule, e, today, now);
        if x.Ok? {
          assert x.value + [] == x.value;
        }
      }
    }
  }

  /** Whether the rule adds events for a transaction. */
  predicate Applies(rule: Rules.SavingsRule, tx: Transaction)
  {
    IsExpense(tx) && rule.IsActive() && Fires(rule, tx) == Ok(true)
  }

  /** How many transactions of the list the rule applies to. */
  function ApplyingCount(rule: Rules.SavingsRule, txs: seq<Transaction>): (c: nat)
    ensures c <= |txs|
    decreases |txs|
  {
    if txs == [] then 0
    else
      var n := |txs| - 1;
      ApplyingCount(rule, txs[..n]) + if Applies(rule, txs[n]) then 1 else 0
  }

  lemma MultiplySucc(g: int, c: int)
    ensures g * (c + 1) == g * c + g
  {
  }

  /** Each transaction the rule applies to yields exactly one event per goal. */
  lemma {:induction false} EvaluateLength(rule: Rules.SavingsRule, txs: seq<Transaction>,
                                          today: LocalDate, now: Instant)
    requires Evaluate(rule, txs, today, now).Ok?
    ensures |Evaluate(rule, txs, today, now).value| == |rule.savingsGoalIds.ids| * ApplyingCount(rule, txs)
    decreases |txs|
  {
    if txs != [] {
      var n := |txs| - 1;
      var x := Evaluate(rule, txs[..n], today, now);
      var y := TransactionEvents(rule, txs[n], today, now);
      assert Evaluate(rule, txs, today, now) == Concat(x, y);
      EvaluateLength(rule, txs[..n], today, now);
      var g, c := |rule.savingsGoalIds.ids|, ApplyingCount(rule, txs[..n]);
      assert |y.value| == if Applies(rule, txs[n]) then g else 0;
      MultiplySucc(g, c);
    }
  }

  /**
   * e is a rule_application of this rule for one of its goals, dated today
   * and triggered by an expense of the list.
   */
  ghost predicate AppliedFrom(rule: Rules.SavingsRule, txs: seq<Transaction>, today: LocalDate, e: SavingsEvent)
    reads rule.savingsGoalIds
  {
    && e.eventName == Some(RuleApplication) && e.userId == Some(rule.userId)
    && e.savingsRuleId == rule.id && e.ruleType == Some(rule.ruleType) && e.date == Some(today)
    && e.savingsGoalId.Some? && e.savingsGoalId.value in rule.savingsGoalIds.ids
    && exists t :: t in txs && IsExpense(t) && e.triggerId == Some(t.id)
  }

  /** Every event executeRule returns is a rule_application triggered by an expense of the list. */
  lemma {:induction false} EvaluateEventsProvenance(rule: Rules.SavingsRule, txs: seq<Transaction>,
                                                    today: LocalDate, now: Instant)
    requires Evaluate(rule, txs, today, now).Ok?
    ensures forall e :: e in Evaluate(rule, txs, today, now).value ==> AppliedFrom(rule, txs, today, e)
    decreases |txs|
  {
    if txs != [] {
      var n := |txs| - 1;
      var init, last := txs[..n], txs[n];
      EvaluateEventsProvenance(rule, init, today, now);
      var head := Evaluate(rule, init, today, now).value;
      var tail := TransactionEvents(rule, last, today, now).value;
      assert Evaluate(rule, txs, today, now).value == head + tail;
      forall e | e in head + tail
        ensures AppliedFrom(rule, txs, today, e)
      {
        if e in head {
          assert AppliedFrom(rule, init, today, e);
          var t :| t in init && IsExpense(t) && e.triggerId == Some(t.id);
          assert t in txs;
        } else {
          var k :| 0 <= k < |tail| && tail[k] == e;
          assert last in txs;
        }
      }
    }
  }

  // ----- the roundup call as executeRule writes it -----

  lemma NotPositiveArith(x: int, q: int, n: int, d: int, pt: int, pa: int, pm: int)
    requires pt > 0 && pa > 0 && pm > 0 && d < 0
    requires -n <= -d * q
    requires x * (pt * pa) == pm * (q * d - n)
    ensures x <= 0
  {
    assert -d * q == -(q * d);
    MultiplyLeftLess(pm, 0, q * d - n);
    assert pt * pa > 0;
    MultiplyLeftLess(pt * pa, 0, x);
  }

  /**
   * executeRule passes the rule amount where roundup expects the
   * transaction amount, and the transaction amount as the unit. For a
   * positive rule amount and an expense the result is then never positive,
   * so a round-up rule never saves a positive amount.
   */
  lemma RoundupAsCalledNotPositive(ruleAmount: Decimal, transactionAmount: Decimal)
    requires Signum(ruleAmount) == 1 && Signum(transactionAmount) == -1
    ensures Roundup(ruleAmount, transactionAmount).Ok?
    ensures Value(Roundup(ruleAmount, transactionAmount).value) <= 0.0
  {
    var a := Abs(ruleAmount);
    var x := Roundup(ruleAmount, transactionAmount).value;
    var q := Divide(a, transactionAmount, 0, Ceiling).value.unscaled;
    var pt, pa := Pow10(transactionAmount.scale), Pow10(a.scale);
    var n, d := a.unscaled * Pow10(transactionAmount.scale + 0), transactionAmount.unscaled * pa;
    assert d < 0;
    assert IsRounded(n, d, Ceiling, q);
    RoundupScaled(ruleAmount, transactionAmount);
    NotPositiveArith(x.unscaled, q, n, d, pt, pa, Pow10(Max(transactionAmount.scale, a.scale)));
    ValueSign(x);
  }

  /** The first unit-test case with the arguments in executeRule's order: -2.00 instead of 0.45. */
  lemma RoundupAsCalledExample()
    ensures Roundup(Decimal(200, 2), Decimal(-355, 2)) == Ok(Decimal(-200, 2))
  {
    assert Pow10(1) == 10 && Pow10(2) == 100;
  }

  /** A two-transaction list: the first transaction's result followed by the second's. */
  lemma EvaluatePair(rule: Rules.SavingsRule, first: Transaction, second: Transaction, today: LocalDate, now: Instant)
    ensures Evaluate(rule, [first, second], today, now)
         == Concat(TransactionEvents(rule, first, today, now), TransactionEvents(rule, second, today, now))
  {
    assert [first, second][..1] == [first] && [first][..0] == [];
    var x := TransactionEvents(rule, first, today, now);
    assert Evaluate(rule, [first], today, now) == Concat(Ok([]), x);
    if x.Ok? {
      assert [] + x.value == x.value;
    }
    assert Evaluate(rule, [first, second], today, now)
        == Concat(Evaluate(rule, [first], today, now), TransactionEvents(rule, second, today, now));
  }

  /** With the arguments in executeRule's order, a 2.00 round-up over a -1 debit saves 0 per goal. */
  lemma DebitGoalAmount(rule: Rules.SavingsRule, debit: Transaction)
    requires rule.ruleType == Rules.Roundup && rule.amount == Decimal(200, 2)
    requires debit.amount == Decimal(-1, 0)
    ensures GoalAmount(rule, debit, 2) == Ok(Decimal(0, 4))
  {
    RoundupOfDebit();
    ZeroShare();
    RoundupGoalAmount(rule, debit, 2, Decimal(0, 2));
  }

  lemma RoundupOfDebit()
    ensures Roundup(Decimal(200, 2), Decimal(-1, 0)) == Ok(Decimal(0, 2))
  {
    assert Pow10(1) == 10 && Pow10(2) == 100;
    assert Divide(Decimal(200, 2), Decimal(-1, 0), 0, Ceiling) == Ok(Decimal(-2, 0));
    assert Subtract(Decimal(2, 0), Decimal(200, 2)) == Decimal(0, 2);
  }

  lemma ZeroShare()
    ensures DivideToGoalIds(Decimal(0, 2), 2) == Ok(Decimal(0, 4))
  {
    assert Pow10(1) == 10 && Pow10(2) == 100;
    assert HalfEvenQuotient(0, 200) == 0;
  }

  /** The debit-only list, for any active round-up rule to 2.00 with goals 11 and 22. */
  lemma DebitOnlyEvaluation(rule: Rules.SavingsRule, debit: Transaction, credit: Transaction,
                            today: LocalDate, now: Instant)
    requires rule.ruleType == Rules.Roundup && rule.IsActive() && rule.amount == Decimal(200, 2)
    requires rule.savingsGoalIds.ids == [11, 22]
    requires debit == Transaction(555, 2, Decimal(-1, 0), Some("test 1"), today)
    requires credit == Transaction(444, 2, Decimal(1, 0), Some("test 2"), today)
    ensures var r := Evaluate(rule, [debit, credit], today, now);
            && r.Ok? && |r.value| == 2
            && r.value[0].savingsGoalId == Some(11) && r.value[1].savingsGoalId == Some(22)
            && forall e :: e in r.value ==> e.triggerId == Some(555) && e.amount == Decimal(0, 4)
  {
    DebitGoalAmount(rule, debit);
    EvaluatePair(rule, debit, credit, today, now);
    var perGoal := GoalEvents(rule, [11, 22], today, Decimal(0, 4), 555, now);
    assert TransactionEvents(rule, debit, today, now) == Ok(perGoal);
    assert TransactionEvents(rule, credit, today, now) == Ok([]);
    assert perGoal + [] == perGoal;
    assert perGoal == [RuleApplicationEvent(rule, 11, today, Decimal(0, 4), 555, now),
                       RuleApplicationEvent(rule, 22, today, Decimal(0, 4), 555, now)];
  }

  /**
   * The debit-only unit test: a round-up rule to 2.00 with goals 11 and 22,
   * a debit of -1 (id 555) and a credit of 1 (id 444). Only the debit
   * yields events, one per goal; with the arguments in executeRule's order
   * each saves 0.0000.
   */
  method DebitOnlyExample(today: LocalDate, now: Instant) returns (events: Result<seq<SavingsEvent>>)
    ensures events.Ok? && |events.value| == 2
    ensures events.value[0].savingsGoalId == Some(11) && events.value[1].savingsGoalId == Some(22)
    ensures forall e :: e in events.value ==> e.triggerId == Some(555) && e.amount == Decimal(0, 4)
  {
    var rule := Rules.SavingsRule.CreateRoundupRule(Some(1), 2, Decimal(200, 2));
    rule.AddSavingsGoal(11);
    rule.AddSavingsGoal(22);
    var debit := Transaction(555, 2, Decimal(-1, 0), Some("test 1"), today);
    var credit := Transaction(444, 2, Decimal(1, 0), Some("test 2"), today);
    assert rule.savingsGoalIds.ids == [11, 22];
    events := ExecuteRule(rule, [debit, credit], today, now);
    DebitOnlyEvaluation(rule, debit, credit, today, now);
  }
}
