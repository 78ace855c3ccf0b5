/** The ratchet guard over budget files, and what it and the gate guarantee together. */
module RatchetGuard {
  import opened Text
  import opened StrictGate
  import Sorting

  /** A rule's ceiling under either schema; nothing for a malformed entry. */
  function Ceiling(spec: Spec): Option<int>
  {
    match spec
    case Limit(limit) => Some(limit)
    case Legacy(baseline, slack) => Some(baseline + slack)
    case Malformed => None
  }

  function Limits(b: Budget): map<string, int>
  {
    if b == [] then map[]
    else
      var rest, last := Limits(b[..|b| - 1]), b[|b| - 1];
      if Ceiling(last.spec).Some? then rest[last.rule := Ceiling(last.spec).value] else rest
  }

  function RulesOf(b: Budget): seq<string>
  {
    if b == [] then []
    else RulesOf(b[..|b| - 1]) + (if Ceiling(b[|b| - 1].spec).Some? then [b[|b| - 1].rule] else [])
  }

  datatype Detail = Dropped(limit: int) | Raised(from: int, to: int) | FileDeleted

  datatype Regression = Regression(rule: string, detail: Detail)

  predicate Graduated(rule: string, selectors: seq<string>)
  {
    exists i :: 0 <= i < |selectors| && selectors[i] <= rule
  }

  function RegressionDetail(rule: string, base: map<string, int>, head: map<string, int>, selectors: seq<string>): Option<Detail>
    requires rule in base
  {
    if rule !in head then if Graduated(rule, selectors) then None else Some(Dropped(base[rule]))
    else if head[rule] > base[rule] then Some(Raised(base[rule], head[rule]))
    else None
  }

  function Collect(rules: seq<string>, base: map<string, int>, head: map<string, int>, selectors: seq<string>): seq<Regression>
  {
    if rules == [] then []
    else
      (if rules[0] in base && RegressionDetail(rules[0], base, head, selectors).Some?
       then [Regression(rules[0], RegressionDetail(rules[0], base, head, selectors).value)]
       else [])
      + Collect(rules[1..], base, head, selectors)
  }

  function RegressionsFor(base: Option<Budget>, head: Option<Budget>, selectors: seq<string>): seq<Regression>
  {
    if base.None? then []
    else if head.None? then [Regression("*", FileDeleted)]
    else Collect(Sorting.Sorted(RulesOf(base.value), StrLe), Limits(base.value), Limits(head.value), selectors)
  }

  lemma {:induction false} CollectExact(
    rules: seq<string>, base: map<string, int>, head: map<string, int>, selectors: seq<string>, r: Regression)
    ensures r in Collect(rules, base, head, selectors) <==>
            r.rule in rules && r.rule in base && RegressionDetail(r.rule, base, head, selectors) == Some(r.detail)
  {
    if rules != [] {
      CollectExact(rules[1..], base, head, selectors, r);
      assert rules == [rules[0]] + rules[1..];
    }
  }

  lemma {:induction false} LimitsRules(b: Budget, rule: string)
    ensures rule in Limits(b) <==> rule in RulesOf(b)
  {
    if b != [] {
      LimitsRules(b[..|b| - 1], rule);
    }
  }

  lemma {:induction false} LimitsExact(b: Budget, e: Entry)
    requires Distinct(b) && e in b
    ensures !e.spec.Malformed? <==> e.rule in Limits(b)
    ensures e.spec.Limit? ==> Limits(b)[e.rule] == e.spec.limit
    ensures e.spec.Legacy? ==> Limits(b)[e.rule] == e.spec.baseline + e.spec.slack
  {
    var init, last := b[..|b| - 1], b[|b| - 1];
    assert b == init + [last];
    if e == last {
      assert forall i :: 0 <= i < |init| ==> b[i] == init[i] && b[i].rule != b[|b| - 1].rule;
      OnlyOnce(init, last);
    } else {
      assert e in init;
      var i :| 0 <= i < |init| && init[i] == e;
      assert b[i].rule != b[|b| - 1].rule;
      LimitsExact(init, e);
    }
  }

  lemma {:induction false} OnlyOnce(init: Budget, last: Entry)
    requires forall i :: 0 <= i < |init| ==> init[i].rule != last.rule
    ensures last.rule !in Limits(init)
  {
    if init != [] {
      OnlyOnce(init[..|init| - 1], last);
    }
  }

  /** The head keeps every rule the base had a ceiling for, at no higher a ceiling. */
  ghost predicate Tightens(base: Budget, head: Budget) { TightensBut(base, head, []) }

  /** The same, but for rules that graduated, which may go. */
  ghost predicate TightensBut(base: Budget, head: Budget, selectors: seq<string>)
  {
    forall rule :: rule in Limits(base) ==> Kept(rule, base, head, selectors)
  }

  ghost predicate Kept(rule: string, base: Budget, head: Budget, selectors: seq<string>)
  {
    if rule in Limits(head) && rule in Limits(base) then Limits(head)[rule] <= Limits(base)[rule] else Graduated(rule, selectors)
  }

  /** A budgeted rule is reported exactly when its ceiling was raised, or lost without graduating. */
  lemma RuleReported(base: Budget, head: Budget, selectors: seq<string>, rule: string)
    requires rule in Limits(base)
    ensures (exists d :: Regression(rule, d) in RegressionsFor(Some(base), Some(head), selectors)) <==>
            !Kept(rule, base, head, selectors)
  {
    var rules := Sorting.Sorted(RulesOf(base), StrLe);
    Sorting.SameElements(rules, RulesOf(base));
    LimitsRules(base, rule);
    var detail := RegressionDetail(rule, Limits(base), Limits(head), selectors);
    forall d ensures Regression(rule, d) in RegressionsFor(Some(base), Some(head), selectors) <==> detail == Some(d) {
      CollectExact(rules, Limits(base), Limits(head), selectors, Regression(rule, d));
    }
    assert detail.Some? ==> Regression(rule, detail.value) in RegressionsFor(Some(base), Some(head), selectors);
  }

  /** Some selector is the rule, or a prefix of it. */
  ghost predicate HardFailed(rule: string, selectors: seq<string>) { exists selector :: selector in selectors && selector <= rule }

  lemma GraduatedExactly(rule: string, selectors: seq<string>)
    ensures Graduated(rule, selectors) <==> HardFailed(rule, selectors)
  {
    if HardFailed(rule, selectors) {
      var selector :| selector in selectors && selector <= rule;
      var i :| 0 <= i < |selectors| && selectors[i] == selector;
      assert selectors[i] <= rule;
    }
    if i :| 0 <= i < |selectors| && selectors[i] <= rule {
      assert selectors[i] in selectors;
    }
  }

  /** What is reported, number by number: every raised ceiling with both values, every lost one with the old value. */
  lemma ReportsExactly(base: Budget, head: Budget, selectors: seq<string>, r: Regression)
    ensures var before, now := Limits(base), Limits(head);
            r in RegressionsFor(Some(base), Some(head), selectors) <==>
              && r.rule in before
              && if r.rule in now then now[r.rule] > before[r.rule] && r.detail == Raised(before[r.rule], now[r.rule])
                 else !HardFailed(r.rule, selectors) && r.detail == Dropped(before[r.rule])
  {
    var rules := Sorting.Sorted(RulesOf(base), StrLe);
    Sorting.SameElements(rules, RulesOf(base));
    LimitsRules(base, r.rule);
    CollectExact(rules, Limits(base), Limits(head), selectors, r);
    GraduatedExactly(r.rule, selectors);
  }

  lemma ReportedIsBudgeted(base: Budget, head: Budget, selectors: seq<string>, r: Regression)
    requires r in RegressionsFor(Some(base), Some(head), selectors)
    ensures r.rule in Limits(base)
  {
    CollectExact(Sorting.Sorted(RulesOf(base), StrLe), Limits(base), Limits(head), selectors, r);
  }

  lemma GuardOnFiles(base: Budget, head: Budget, selectors: seq<string>)
    ensures RegressionsFor(Some(base), Some(head), selectors) == [] <==> TightensBut(base, head, selectors)
  {
    var found := RegressionsFor(Some(base), Some(head), selectors);
    if found == [] {
      forall rule | rule in Limits(base) ensures Kept(rule, base, head, selectors) {
        RuleReported(base, head, selectors, rule);
      }
    } else {
      ReportedIsBudgeted(base, head, selectors, found[0]);
      RuleReported(base, head, selectors, found[0].rule);
      assert Regression(found[0].rule, found[0].detail) in found;
    }
  }

  /**
   * The guard is silent exactly when there was no file to keep to, or there still is one that
   * keeps or lowers every ceiling but those of rules that graduated.
   */
  lemma GuardExact(base: Option<Budget>, head: Option<Budget>, selectors: seq<string>)
    ensures RegressionsFor(base, head, selectors) == [] <==>
            (base.Some? ==> head.Some? && TightensBut(base.value, head.value, selectors))
  {
    if base.Some? && head.Some? {
      GuardOnFiles(base.value, head.value, selectors);
    }
  }

  // ------------------------------------------------------ ratchet and guard

  lemma {:induction false} RatchetedLimits(b: Budget, current: Counts, base: Counts, rule: string)
    requires Migrated(b)
    ensures rule in Limits(b) <==> rule in Limits(Ratcheted(b, current, base))
    ensures rule in Limits(b) ==>
              Limits(Ratcheted(b, current, base))[rule] == Max(0, Limits(b)[rule] - Fixed(current, base, rule))
  {
    if b != [] {
      var init := b[..|b| - 1];
      RatchetedLimits(init, current, base, rule);
      assert Ratcheted(b, current, base)[..|b| - 1] == Ratcheted(init, current, base);
    }
  }

  /** A rule's ceiling after an update is no higher exactly when it was not below zero. */
  lemma UpdateKeeps(b: Budget, current: Counts, base: Counts, rule: string)
    requires Migrated(b) && rule in Limits(b)
    ensures Kept(rule, b, Ratcheted(b, current, base), []) <==> Limits(b)[rule] >= 0
  {
    RatchetedLimits(b, current, base, rule);
  }

  lemma LimitsNonNegative(b: Budget)
    requires Migrated(b) && Distinct(b)
    ensures NonNegative(b) <==> forall rule :: rule in Limits(b) ==> Limits(b)[rule] >= 0
  {
    if NonNegative(b) {
      forall rule | rule in Limits(b) ensures Limits(b)[rule] >= 0 {
        var e := EntryOf(b, rule);
      }
    } else {
      var e :| e in b && e.spec.Limit? && e.spec.limit < 0;
      LimitsExact(b, e);
    }
  }

  /** The update never trips the guard exactly when no limit is below zero. */
  lemma RatchetPassesGuard(b: Budget, current: Counts, base: Counts)
    requires Migrated(b) && Distinct(b)
    ensures RegressionsFor(Some(b), Some(Ratcheted(b, current, base)), []) == [] <==> NonNegative(b)
  {
    GuardOnFiles(b, Ratcheted(b, current, base), []);
    LimitsNonNegative(b);
    if NonNegative(b) {
      forall rule | rule in Limits(b) ensures Kept(rule, b, Ratcheted(b, current, base), []) {
        UpdateKeeps(b, current, base, rule);
      }
    } else {
      var rule :| rule in Limits(b) && Limits(b)[rule] < 0;
      UpdateKeeps(b, current, base, rule);
    }
  }

  lemma {:induction false} EntryOf(b: Budget, rule: string) returns (e: Entry)
    requires rule in Limits(b)
    ensures e in b && e.rule == rule && Ceiling(e.spec) == Some(Limits(b)[rule])
  {
    var last := b[|b| - 1];
    if Ceiling(last.spec).Some? && last.rule == rule {
      e := last;
    } else {
      e := EntryOf(b[..|b| - 1], rule);
    }
  }

  lemma RatchetedStays(b: Budget, current: Counts, base: Counts)
    requires Migrated(b) && Distinct(b)
    ensures Migrated(Ratcheted(b, current, base)) && Distinct(Ratcheted(b, current, base)) && NonNegative(Ratcheted(b, current, base))
  {
    var r := Ratcheted(b, current, base);
    forall e | e in r ensures e.spec.Limit? && e.spec.limit >= 0 {
      var i :| 0 <= i < |r| && r[i] == e;
      assert b[i].spec.Limit?;
    }
  }

  lemma {:induction false} RatchetedTimesStays(b: Budget, current: Counts, base: Counts, n: nat)
    requires Migrated(b) && Distinct(b) && NonNegative(b)
    ensures var r := RatchetedTimes(b, current, base, n);
            Migrated(r) && Distinct(r) && NonNegative(r)
  {
    if n > 0 {
      RatchetedTimesStays(b, current, base, n - 1);
      RatchetedStays(RatchetedTimes(b, current, base, n - 1), current, base);
    }
  }

  lemma TightensChain(a: Budget, b: Budget, c: Budget)
    requires Tightens(a, b) && Tightens(b, c)
    ensures Tightens(a, c)
  {
  }

  lemma OneTightens(b: Budget, current: Counts, base: Counts)
    requires Migrated(b) && Distinct(b) && NonNegative(b)
    ensures Tightens(b, Ratcheted(b, current, base))
  {
    RatchetPassesGuard(b, current, base);
    GuardOnFiles(b, Ratcheted(b, current, base), []);
  }

  lemma {:induction false} RatchetTightens(b: Budget, current: Counts, base: Counts, n: nat)
    requires Migrated(b) && Distinct(b) && NonNegative(b)
    ensures Tightens(b, RatchetedTimes(b, current, base, n))
  {
    if n > 0 {
      var prev := RatchetedTimes(b, current, base, n - 1);
      RatchetTightens(b, current, base, n - 1);
      RatchetedTimesStays(b, current, base, n - 1);
      OneTightens(prev, current, base);
      TightensChain(b, prev, Ratcheted(prev, current, base));
    }
  }

  /** Any number of updates in a row: together and one by one, they never trip the guard. */
  lemma RatchetAlwaysPasses(b: Budget, current: Counts, base: Counts, n: nat)
    requires Migrated(b) && Distinct(b) && NonNegative(b)
    ensures var r := RatchetedTimes(b, current, base, n);
            && RegressionsFor(Some(b), Some(r), []) == []
            && RegressionsFor(Some(r), Some(Ratcheted(r, current, base)), []) == []
  {
    var r := RatchetedTimes(b, current, base, n);
    RatchetTightens(b, current, base, n);
    GuardOnFiles(b, r, []);
    RatchetedTimesStays(b, current, base, n);
    RatchetPassesGuard(r, current, base);
  }

  // -------------------------------------------------------------- histories

  /** A commit: the counts of the tree and the budget file in it. */
  datatype Commit = Commit(counts: Counts, budget: Budget)

  ghost predicate Accepted(prev: Commit, next: Commit)
  {
    && Distinct(next.budget)
    && Passes(next.counts, prev.counts, next.budget)
    && RegressionsFor(Some(prev.budget), Some(next.budget), []) == []
  }

  ghost predicate AcceptedAt(history: seq<Commit>, k: nat)
    requires k + 1 < |history|
  {
    Accepted(history[k], history[k + 1])
  }

  ghost predicate History(history: seq<Commit>)
  {
    history != [] && forall k :: 0 <= k < |history| - 1 ==> AcceptedAt(history, k)
  }

  /** A rule with a ceiling keeps one no higher, and its count stays below it or does not grow. */
  lemma StepBound(prev: Commit, next: Commit, rule: string)
    requires Accepted(prev, next) && rule in Limits(prev.budget)
    ensures rule in Limits(next.budget) && Limits(next.budget)[rule] <= Limits(prev.budget)[rule]
    ensures Count(next.counts, rule) <= Max(Limits(next.budget)[rule], Count(prev.counts, rule))
  {
    GuardOnFiles(prev.budget, next.budget, []);
    var e := EntryOf(next.budget, rule);
    assert !Flagged(next.counts, prev.counts, e);
  }

  /**
   * On a linear history where every change passes the gate against its predecessor and the
   * guard, a rule budgeted at the start never exceeds the larger of its first count and limit.
   */
  lemma {:induction false} HistoryBound(history: seq<Commit>, k: nat, rule: string)
    requires History(history) && k < |history| && rule in Limits(history[0].budget)
    ensures rule in Limits(history[k].budget) && Limits(history[k].budget)[rule] <= Limits(history[0].budget)[rule]
    ensures Count(history[k].counts, rule) <= Max(Limits(history[0].budget)[rule], Count(history[0].counts, rule))
  {
    if k > 0 {
      HistoryBound(history, k - 1, rule);
      assert AcceptedAt(history, k - 1);
      StepBound(history[k - 1], history[k], rule);
    }
  }
}
