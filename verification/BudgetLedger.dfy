/** The spend ledger: per-user budgets, charges by model, resets by hand and on schedule.  Money and time are real. */
module BudgetLedger {
  import opened Text

  const HOURS_IN_A_DAY: nat := 24
  const DAYS_IN_A_WEEK: nat := 7
  const DAYS_IN_A_MONTH: nat := 28
  const DAYS_IN_A_YEAR: nat := 365

  datatype Duration = Daily | Weekly | Monthly | Yearly | Invalid

  datatype Schedule = Schedule(days: nat, createdAt: real, lastUpdatedAt: real)

  /** A user's record; costs are absent until the first charge, the schedule without a duration. */
  datatype Record = Record(
    totalBudget: real,
    currentCost: Option<real>,
    modelCost: Option<map<string, real>>,
    schedule: Option<Schedule>)

  type Ledger = map<string, Record>

  datatype Op =
    | Create(user: string, totalBudget: real, duration: Option<Duration>, createdAt: real)
    | Charge(user: string, model: string, cost: real)
    | Reset(user: string)
    | ResetIfDue(user: string, now: real)

  datatype Error = KeyError | ValueError

  function Days(d: Duration): Option<nat>
  {
    match d
    case Daily => Some(1)
    case Weekly => Some(DAYS_IN_A_WEEK)
    case Monthly => Some(DAYS_IN_A_MONTH)
    case Yearly => Some(DAYS_IN_A_YEAR)
    case Invalid => None
  }

  function Seconds(s: Schedule): real { (s.days * HOURS_IN_A_DAY * 60 * 60) as real }

  function Current(r: Record): real { if r.currentCost.Some? then r.currentCost.value else 0.0 }

  function ByModel(r: Record): map<string, real> { if r.modelCost.Some? then r.modelCost.value else map[] }

  function Spent(costs: map<string, real>, model: string): real { if model in costs then costs[model] else 0.0 }

  predicate Due(r: Record, now: real) { r.schedule.Some? && now - r.schedule.value.lastUpdatedAt >= Seconds(r.schedule.value) }

  function Cleared(r: Record): Record { r.(currentCost := Some(0.0), modelCost := Some(map[])) }

  /** What an operation makes of a user's record. */
  function Created(op: Op): Record
    requires op.Create?
  {
    var days := if op.duration.Some? then Days(op.duration.value) else None;
    Record(op.totalBudget, None, None, if days.Some? then Some(Schedule(days.value, op.createdAt, op.createdAt)) else None)
  }

  function Charged(r: Record, model: string, cost: real): Record
  {
    r.(currentCost := Some(cost + Current(r)), modelCost := Some(ByModel(r)[model := cost + Spent(ByModel(r), model)]))
  }

  /** The ledger after an operation; an operation on an unknown user fails and changes nothing. */
  function Apply(l: Ledger, op: Op): Ledger
  {
    if op.Create? then l[op.user := Created(op)]
    else if op.user !in l then l
    else
      var r := l[op.user];
      match op
      case Charge(user, model, cost) => l[user := Charged(r, model, cost)]
      case Reset(user) => l[user := Cleared(r)]
      case ResetIfDue(user, now) =>
        if Due(r, now)
        then l[user := Cleared(r).(schedule := Some(r.schedule.value.(lastUpdatedAt := now)))]
        else l
  }

  function ApplyAll(l: Ledger, ops: seq<Op>): Ledger
  {
    if ops == [] then l else Apply(ApplyAll(l, ops[..|ops| - 1]), ops[|ops| - 1])
  }

  class BudgetManager {
    var userDict: Ledger

    constructor ()
      ensures userDict == map[]
    {
      userDict := map[];
    }

    /** An invalid duration fails only after the old record has been replaced. */
    method CreateBudget(user: string, totalBudget: real, duration: Option<Duration>, createdAt: real) returns (error: Option<Error>)
      modifies this
      ensures userDict == Apply(old(userDict), Create(user, totalBudget, duration, createdAt))
      ensures error == if duration == Some(Invalid) then Some(ValueError) else None
    {
      userDict := userDict[user := Record(totalBudget, None, None, None)];
      if duration.None? {
        return None;
      }
      var days := Days(duration.value);
      if days.None? {
        return Some(ValueError);
      }
      userDict := userDict[user := Record(totalBudget, None, None, Some(Schedule(days.value, createdAt, createdAt)))];
      error := None;
    }

    method UpdateCost(user: string, model: string, cost: real) returns (error: Option<Error>)
      modifies this
      ensures userDict == Apply(old(userDict), Charge(user, model, cost))
      ensures error == if user in old(userDict) then None else Some(KeyError)
    {
      if user !in userDict {
        return Some(KeyError);
      }
      var r := userDict[user];
      userDict := userDict[user := r.(currentCost := Some(cost + Current(r)))];
      r := userDict[user];
      if r.modelCost.Some? {
        var own := r.modelCost.value;
        userDict := userDict[user := r.(modelCost := Some(own[model := cost + Spent(own, model)]))];
      } else {
        userDict := userDict[user := r.(modelCost := Some(map[model := cost]))];
      }
      error := None;
    }

    method ResetCost(user: string) returns (error: Option<Error>)
      modifies this
      ensures userDict == Apply(old(userDict), Op.Reset(user))
      ensures error == if user in old(userDict) then None else Some(KeyError)
    {
      if user !in userDict {
        return Some(KeyError);
      }
      userDict := userDict[user := userDict[user].(currentCost := Some(0.0))];
      userDict := userDict[user := userDict[user].(modelCost := Some(map[]))];
      error := None;
    }

    method ResetOnDuration(user: string, now: real) returns (error: Option<Error>)
      modifies this
      ensures userDict == Apply(old(userDict), ResetIfDue(user, now))
      ensures error == if user in old(userDict) && old(userDict)[user].schedule.Some? then None else Some(KeyError)
    {
      if user !in userDict || userDict[user].schedule.None? {
        return Some(KeyError);
      }
      var schedule := userDict[user].schedule.value;
      if now - schedule.lastUpdatedAt >= Seconds(schedule) {
        error := ResetCost(user);
        userDict := userDict[user := userDict[user].(schedule := Some(schedule.(lastUpdatedAt := now)))];
      }
      error := None;
    }

    /** The periodic pass, one clock reading for every user in turn. */
    method UpdateBudgetAllUsers(users: seq<string>, clock: seq<real>)
      requires |users| == |clock| && forall i :: 0 <= i < |users| ==> users[i] in userDict
      modifies this
      ensures userDict == ApplyAll(old(userDict), Periodic(users, clock))
    {
      for i := 0 to |users|
        invariant userDict == ApplyAll(old(userDict), Periodic(users[..i], clock[..i]))
        invariant forall k :: 0 <= k < |users| ==> users[k] in userDict
      {
        PeriodicSnoc(users, clock, i);
        if userDict[users[i]].schedule.Some? {
          var error := ResetOnDuration(users[i], clock[i]);
        }
      }
      assert users[..|users|] == users && clock[..|users|] == clock;
    }
  }

  function Periodic(users: seq<string>, clock: seq<real>): (ops: seq<Op>)
    requires |users| == |clock|
    ensures |ops| == |users|
  {
    seq(|users|, i requires 0 <= i < |users| => ResetIfDue(users[i], clock[i]))
  }

  lemma PeriodicSnoc(users: seq<string>, clock: seq<real>, i: nat)
    requires |users| == |clock| && i < |users|
    ensures var more := Periodic(users[..i + 1], clock[..i + 1]);
            more[..i] == Periodic(users[..i], clock[..i]) && more[i] == ResetIfDue(users[i], clock[i])
  {
  }

  // --------------------------------------------------------- conservation

  ghost function Sum(costs: map<string, real>): real
    decreases |costs|
  {
    if costs == map[] then 0.0
    else
      var k :| k in costs;
      costs[k] + Sum(costs - {k})
  }

  lemma {:induction false} SumWithout(costs: map<string, real>, k: string)
    requires k in costs
    ensures Sum(costs) == costs[k] + Sum(costs - {k})
    decreases |costs|
  {
    var first :| first in costs && Sum(costs) == costs[first] + Sum(costs - {first});
    if first != k {
      SumWithout(costs - {first}, k);
      SumWithout(costs - {k}, first);
      assert costs - {first} - {k} == costs - {k} - {first};
    }
  }

  lemma SumCharged(costs: map<string, real>, model: string, cost: real)
    ensures Sum(costs[model := cost + Spent(costs, model)]) == Sum(costs) + cost
  {
    var more := costs[model := cost + Spent(costs, model)];
    SumWithout(more, model);
    if model in costs {
      SumWithout(costs, model);
      assert more - {model} == costs - {model};
    } else {
      assert more - {model} == costs;
    }
  }

  /** Whether the operation starts the user's account afresh. */
  predicate Restarts(l: Ledger, op: Op, user: string)
  {
    op.user == user
    && (op.Create? || op.Reset? || (op.ResetIfDue? && user in l && Due(l[user], op.now)))
  }

  /** What was charged to a user since the account last started afresh. */
  ghost function ChargesSince(l: Ledger, ops: seq<Op>, user: string): real
  {
    if ops == [] then 0.0
    else
      var prior, op := ops[..|ops| - 1], ops[|ops| - 1];
      if Restarts(ApplyAll(l, prior), op, user) then 0.0
      else if op.Charge? && op.user == user && user in ApplyAll(l, prior) then ChargesSince(l, prior, user) + op.cost
      else ChargesSince(l, prior, user)
  }

  ghost predicate Balanced(r: Record) { Current(r) == Sum(ByModel(r)) }

  lemma StepBalanced(l: Ledger, op: Op, user: string)
    requires user in l ==> Balanced(l[user])
    ensures user in Apply(l, op) ==> Balanced(Apply(l, op)[user])
  {
    if op.Charge? && op.user == user && user in l {
      SumCharged(ByModel(l[user]), op.model, op.cost);
    }
  }

  /**
   * Over every run from an empty ledger, a user's current cost is the sum of the costs by model,
   * and is what was charged since the user's budget was last created or reset.
   */
  lemma {:induction false} RunBalances(ops: seq<Op>, user: string)
    requires user in ApplyAll(map[], ops)
    ensures Balanced(ApplyAll(map[], ops)[user])
    ensures Current(ApplyAll(map[], ops)[user]) == ChargesSince(map[], ops, user)
  {
    if ops != [] {
      var prior, op := ops[..|ops| - 1], ops[|ops| - 1];
      var l := ApplyAll(map[], prior);
      if user in l {
        RunBalances(prior, user);
      }
      StepBalanced(l, op, user);
    }
  }

  /** An operation for one user leaves every other user's record alone. */
  lemma OthersUntouched(l: Ledger, op: Op, user: string)
    requires user != op.user
    ensures user in Apply(l, op) <==> user in l
    ensures user in l ==> Apply(l, op)[user] == l[user]
  {
  }

  /** What was charged to a user for one model since the account last started afresh. */
  ghost function ModelChargesSince(l: Ledger, ops: seq<Op>, user: string, model: string): real
  {
    if ops == [] then 0.0
    else
      var prior, op := ops[..|ops| - 1], ops[|ops| - 1];
      if Restarts(ApplyAll(l, prior), op, user) then 0.0
      else
        ModelChargesSince(l, prior, user, model)
        + (if op.Charge? && op.user == user && op.model == model && user in ApplyAll(l, prior) then op.cost else 0.0)
  }

  /** Each model's share is what was charged for it since then, over every run. */
  lemma {:induction false} ModelShares(ops: seq<Op>, user: string, model: string)
    requires user in ApplyAll(map[], ops)
    ensures Spent(ByModel(ApplyAll(map[], ops)[user]), model) == ModelChargesSince(map[], ops, user, model)
  {
    if ops != [] {
      var prior := ops[..|ops| - 1];
      if user in ApplyAll(map[], prior) {
        ModelShares(prior, user, model);
      }
    }
  }

  // ------------------------------------------------------ scheduled resets

  const SECONDS_IN_A_DAY: real := 86400.0

  /** A record with a schedule whose days have gone by since its last update. */
  ghost predicate Overdue(r: Record, now: real)
  {
    r.schedule.Some? && now >= r.schedule.value.lastUpdatedAt + r.schedule.value.days as real * SECONDS_IN_A_DAY
  }

  /** What a scheduled check must make of a record. */
  ghost function Checked(r: Record, now: real): Record
  {
    if Overdue(r, now)
    then Record(r.totalBudget, Some(0.0), Some(map[]), Some(Schedule(r.schedule.value.days, r.schedule.value.createdAt, now)))
    else r
  }

  lemma CheckResets(l: Ledger, user: string, now: real)
    requires user in l
    ensures Apply(l, ResetIfDue(user, now)) == l[user := Checked(l[user], now)]
  {
    assert l == l[user := l[user]];
  }

  /** The periodic pass resets every overdue user at once, no sooner and no later, and nobody else. */
  lemma {:induction false} PassResets(l: Ledger, users: seq<string>, clock: seq<real>, user: string)
    requires |users| == |clock| && forall i, j :: 0 <= i < j < |users| ==> users[i] != users[j]
    requires user in l
    ensures user in ApplyAll(l, Periodic(users, clock))
    ensures forall i :: 0 <= i < |users| && users[i] == user ==>
              ApplyAll(l, Periodic(users, clock))[user] == Checked(l[user], clock[i])
    ensures user !in users ==> ApplyAll(l, Periodic(users, clock))[user] == l[user]
  {
    if users != [] {
      var n := |users| - 1;
      PassResets(l, users[..n], clock[..n], user);
      PeriodicSnoc(users, clock, n);
      assert users[..n + 1] == users && clock[..n + 1] == clock;
      var before := ApplyAll(l, Periodic(users[..n], clock[..n]));
      if users[n] == user {
        CheckResets(before, user, clock[n]);
      } else {
        OthersUntouched(before, ResetIfDue(users[n], clock[n]), user);
        assert forall i :: 0 <= i < n ==> users[..n][i] == users[i];
      }
    }
  }

  /** When a new budget falls due: after a day, a week, 28 days, or 365. */
  lemma NewBudgetDue(user: string, totalBudget: real, createdAt: real, now: real)
    ensures Overdue(Created(Create(user, totalBudget, Some(Daily), createdAt)), now) <==> now >= createdAt + 86400.0
    ensures Overdue(Created(Create(user, totalBudget, Some(Weekly), createdAt)), now) <==> now >= createdAt + 604800.0
    ensures Overdue(Created(Create(user, totalBudget, Some(Monthly), createdAt)), now) <==> now >= createdAt + 2419200.0
    ensures Overdue(Created(Create(user, totalBudget, Some(Yearly), createdAt)), now) <==> now >= createdAt + 31536000.0
    ensures !Overdue(Created(Create(user, totalBudget, None, createdAt)), now)
  {
  }

  /** The k-th operation resets the user on schedule. */
  ghost predicate ResetsAt(l: Ledger, ops: seq<Op>, k: nat, user: string)
    requires k < |ops|
  {
    ops[k].ResetIfDue? && ops[k].user == user && user in ApplyAll(l, ops[..k]) && Due(ApplyAll(l, ops[..k])[user], ops[k].now)
  }

  ghost predicate NotRecreated(ops: seq<Op>, i: nat, j: nat, user: string)
  {
    forall k :: i < k < j && k < |ops| && ops[k].Create? ==> ops[k].user != user
  }

  lemma {:induction false} ScheduleSince(l: Ledger, ops: seq<Op>, i: nat, j: nat, user: string)
    requires i < j <= |ops| && ResetsAt(l, ops, i, user) && NotRecreated(ops, i, j, user)
    requires forall k :: i < k < j ==> !ResetsAt(l, ops, k, user)
    ensures user in ApplyAll(l, ops[..j]) && ApplyAll(l, ops[..j])[user].schedule.Some?
    ensures var s := ApplyAll(l, ops[..j])[user].schedule.value;
            s.lastUpdatedAt == ops[i].now && s.days == ApplyAll(l, ops[..i])[user].schedule.value.days
    decreases j
  {
    assert ops[..j][..j - 1] == ops[..j - 1];
    if i + 1 < j {
      ScheduleSince(l, ops, i, j - 1, user);
      if ops[j - 1].user == user {
        assert !ops[j - 1].Create?;
        assert !ResetsAt(l, ops, j - 1, user);
      }
    }
  }

  /** Consecutive scheduled resets of a user are at least one duration apart. */
  lemma ResetsApart(l: Ledger, ops: seq<Op>, i: nat, j: nat, user: string)
    requires i < j < |ops| && ResetsAt(l, ops, i, user) && ResetsAt(l, ops, j, user) && NotRecreated(ops, i, j, user)
    requires forall k :: i < k < j ==> !ResetsAt(l, ops, k, user)
    ensures ops[j].now - ops[i].now >= Seconds(ApplyAll(l, ops[..i])[user].schedule.value)
  {
    ScheduleSince(l, ops, i, j, user);
  }
}
