/**
 * SavingsRule: a user's rule for turning transactions into savings. Its fields
 * never change once built, but the list of goal ids behind it is an ArrayList
 * that addSavingsGoal and removeSavingsGoal change in place, and that withStatus
 * shares with the rule it returns.
 */
module Rules {
  import opened Basics
  import opened Decimals

  datatype RuleType = GuiltyPleasure | Roundup

  datatype Status = Active | Deleted | Paused

  /** The mutable list of savings-goal ids a rule holds. */
  class GoalIdList {
    var ids: seq<int>

    constructor (ids: seq<int>)
      ensures this.ids == ids
    {
      this.ids := ids;
    }
  }

  predicate NoDuplicates(s: seq<int>)
  {
    forall i, j :: 0 <= i < j < |s| ==> s[i] != s[j]
  }

  /** The goal list after addSavingsGoal(g): g is added at the end unless it is already there. */
  function WithGoal(ids: seq<int>, g: int): (r: seq<int>)
    ensures g in r
    ensures forall x :: x in r <==> x in ids || x == g
    ensures ids <= r && |r| == if g in ids then |ids| else |ids| + 1
    ensures NoDuplicates(ids) ==> NoDuplicates(r)
  {
    if g in ids then ids else ids + [g]
  }

  /** The goal list after removeSavingsGoal(g): List.remove(Object) drops the first g only. */
  function WithoutGoal(ids: seq<int>, g: int): (r: seq<int>)
    ensures g !in ids ==> r == ids
    ensures g in ids ==> |r| == |ids| - 1
    ensures multiset(r) == multiset(ids) - multiset{g}
  {
    if ids == [] then []
    else if ids[0] == g then
      assert ids == [ids[0]] + ids[1..];
      ids[1..]
    else
      var rest := WithoutGoal(ids[1..], g);
      assert ids == [ids[0]] + ids[1..];
      [ids[0]] + rest
  }

  /** Adding a goal twice is adding it once. */
  lemma WithGoalIdempotent(ids: seq<int>, g: int)
    ensures WithGoal(WithGoal(ids, g), g) == WithGoal(ids, g)
  {
  }

  /** Cutting index i out of a list keeps its head in front when i > 0. */
  lemma CutAfterHead(ids: seq<int>, i: nat)
    requires 0 < i < |ids|
    ensures ids[..i] + ids[i + 1..] == [ids[0]] + (ids[1..][..i - 1] + ids[1..][i..])
  {
    assert ids[..i] == [ids[0]] + ids[1..][..i - 1];
    assert ids[i + 1..] == ids[1..][i..];
  }

  /** Removal takes out the first occurrence and keeps the rest in order. */
  lemma {:induction false} WithoutGoalFirstOccurrence(ids: seq<int>, g: int, i: nat)
    requires i < |ids| && ids[i] == g && g !in ids[..i]
    ensures WithoutGoal(ids, g) == ids[..i] + ids[i + 1..]
  {
    var tail := ids[1..];
    if i == 0 {
      assert ids[..0] + ids[1..] == tail;
    } else {
      assert ids[0] != g by { assert ids[0] == ids[..i][0]; }
      assert g !in tail[..i - 1] by { assert tail[..i - 1] == ids[..i][1..]; }
      WithoutGoalFirstOccurrence(tail, g, i - 1);
      CutAfterHead(ids, i);
    }
  }

  /** Removing a goal that was just added (and was absent before) gives back the old list. */
  lemma {:induction false} AddThenRemove(ids: seq<int>, g: int)
    requires g !in ids
    ensures WithoutGoal(WithGoal(ids, g), g) == ids
  {
    WithoutGoalFirstOccurrence(ids + [g], g, |ids|);
    assert (ids + [g])[..|ids|] == ids;
  }

  lemma SpliceAt(ids: seq<int>, i: nat, k: nat)
    requires i < |ids| && k < |ids| - 1
    ensures (ids[..i] + ids[i + 1..])[k] == ids[if k < i then k else k + 1]
  {
    if k >= i {
      assert (ids[..i] + ids[i + 1..])[k] == ids[i + 1..][k - i];
    }
  }

  /** Cutting one position out of a list without duplicates leaves a list without duplicates or that element. */
  lemma CutKeepsNoDuplicates(ids: seq<int>, i: nat)
    requires NoDuplicates(ids) && i < |ids|
    ensures ids[i] !in ids[..i] + ids[i + 1..]
    ensures NoDuplicates(ids[..i] + ids[i + 1..])
  {
    var r := ids[..i] + ids[i + 1..];
    forall a, b | 0 <= a < b < |r|
      ensures r[a] != r[b]
    {
      SpliceAt(ids, i, a);
      SpliceAt(ids, i, b);
    }
    forall k | 0 <= k < |r|
      ensures r[k] != ids[i]
    {
      SpliceAt(ids, i, k);
    }
  }

  /** On a list without duplicates, removal leaves no copy of the goal behind. */
  lemma WithoutGoalRemovesAll(ids: seq<int>, g: int)
    requires NoDuplicates(ids)
    ensures g !in WithoutGoal(ids, g)
    ensures NoDuplicates(WithoutGoal(ids, g))
  {
    if g in ids {
      var i :| 0 <= i < |ids| && ids[i] == g;
      assert g !in ids[..i];
      WithoutGoalFirstOccurrence(ids, g, i);
      CutKeepsNoDuplicates(ids, i);
    }
  }

  class SavingsRule {
    const id: Option<int>
    const userId: int
    const ruleType: RuleType
    const placeDescription: Option<string>
    const amount: Decimal
    const savingsGoalIds: GoalIdList
    const status: Status

    /** A null goal list becomes a fresh empty one and a null status becomes active. */
    constructor (id: Option<int>, userId: int, ruleType: RuleType, placeDescription: Option<string>,
                 amount: Decimal, savingsGoalIds: GoalIdList?, status: Option<Status>)
      ensures this.id == id && this.userId == userId && this.ruleType == ruleType
      ensures this.placeDescription == placeDescription && this.amount == amount
      ensures savingsGoalIds != null ==> this.savingsGoalIds == savingsGoalIds
      ensures savingsGoalIds == null ==> fresh(this.savingsGoalIds) && this.savingsGoalIds.ids == []
      ensures this.status == if status.Some? then status.value else Active
    {
      var goals: GoalIdList;
      if savingsGoalIds == null {
        goals := new GoalIdList([]);
      } else {
        goals := savingsGoalIds;
      }
      this.id := id;
      this.userId := userId;
      this.ruleType := ruleType;
      this.placeDescription := placeDescription;
      this.amount := amount;
      this.savingsGoalIds := goals;
      this.status := if status.Some? then status.value else Active;
    }

    static method CreateGuiltyPleasureRule(id: Option<int>, userId: int, placeDescription: Option<string>,
                                           penaltyAmount: Decimal) returns (r: SavingsRule)
      ensures fresh(r) && fresh(r.savingsGoalIds)
      ensures r.id == id && r.userId == userId && r.ruleType == GuiltyPleasure
      ensures r.placeDescription == placeDescription && r.amount == penaltyAmount
      ensures r.savingsGoalIds.ids == [] && r.IsActive()
    {
      var goals := new GoalIdList([]);
      r := new SavingsRule(id, userId, GuiltyPleasure, placeDescription, penaltyAmount, goals, Some(Active));
    }

    static method CreateRoundupRule(id: Option<int>, userId: int, roundupToNearest: Decimal)
      returns (r: SavingsRule)
      ensures fresh(r) && fresh(r.savingsGoalIds)
      ensures r.id == id && r.userId == userId && r.ruleType == Roundup
      ensures r.placeDescription == None && r.amount == roundupToNearest
      ensures r.savingsGoalIds.ids == [] && r.IsActive()
    {
      var goals := new GoalIdList([]);
      r := new SavingsRule(id, userId, Roundup, None, roundupToNearest, goals, Some(Active));
    }

    method AddSavingsGoal(savingsGoalId: int)
      modifies savingsGoalIds
      ensures savingsGoalIds.ids == WithGoal(old(savingsGoalIds.ids), savingsGoalId)
    {
      if savingsGoalId !in savingsGoalIds.ids {
        savingsGoalIds.ids := savingsGoalIds.ids + [savingsGoalId];
      }
    }

    method RemoveSavingsGoal(savingsGoalId: int)
      modifies savingsGoalIds
      ensures savingsGoalIds.ids == WithoutGoal(old(savingsGoalIds.ids), savingsGoalId)
    {
      savingsGoalIds.ids := WithoutGoal(savingsGoalIds.ids, savingsGoalId);
    }

    /**
     * A null status throws; the current status returns this rule; any other
     * status returns a new rule that shares this rule's goal list.
     */
    method WithStatus(status: Option<Status>) returns (r: Result<SavingsRule>)
      ensures status.None? ==> r == Err(NullPointerException)
      ensures status == Some(this.status) ==> r == Ok(this)
      ensures status.Some? && status.value != this.status ==>
        && r.Ok? && fresh(r.value)
        && r.value.id == id && r.value.userId == userId && r.value.ruleType == ruleType
        && r.value.placeDescription == placeDescription && r.value.amount == amount
        && r.value.savingsGoalIds == savingsGoalIds && r.value.status == status.value
      ensures r.Ok? ==> (r.value.Equals(this) <==> status.value == this.status)
      ensures r.Ok? ==> (r.value.IsActive() <==> status.value == Active)
    {
      if status.None? {
        return Err(NullPointerException);
      }
      if status.value == this.status {
        return Ok(this);
      }
      var rule := new SavingsRule(id, userId, ruleType, placeDescription, amount, savingsGoalIds, status);
      return Ok(rule);
    }

    predicate IsActive()
    {
      status == Active
    }

    /** Field-wise equality over all seven fields; goal lists compare in order. */
    predicate Equals(that: SavingsRule)
      reads savingsGoalIds, that.savingsGoalIds
    {
      || this == that
      || (&& id == that.id && userId == that.userId && ruleType == that.ruleType
          && placeDescription == that.placeDescription && amount == that.amount
          && savingsGoalIds.ids == that.savingsGoalIds.ids && status == that.status)
    }
  }

  /** equals is an equivalence on rules. */
  lemma EqualsIsEquivalence(a: SavingsRule, b: SavingsRule, c: SavingsRule)
    ensures a.Equals(a)
    ensures a.Equals(b) ==> b.Equals(a)
    ensures a.Equals(b) && b.Equals(c) ==> a.Equals(c)
  {
  }

  /**
   * A rule read from the smallest JSON body (no id, goals, place or status)
   * equals the factory-built round-up rule with a null id.
   */
  method MinimalRuleEqualsFactoryRule(userId: int, amount: Decimal) returns (fromJson: SavingsRule, fromFactory: SavingsRule)
    ensures fromJson.Equals(fromFactory)
    ensures fromJson.savingsGoalIds.ids == [] && fromJson.IsActive()
  {
    fromJson := new SavingsRule(None, userId, Roundup, None, amount, null, None);
    fromFactory := SavingsRule.CreateRoundupRule(None, userId, amount);
  }
}
