/**
 * The total-count gate: a rule breaches when its count is over its limit and above the base it
 * merges into; `--update` lowers limits by what a branch fixed.
 */
module StrictGate {
  import opened Text
  import Sorting

  type Counts = map<string, nat>

  function Count(c: Counts, rule: string): nat { if rule in c then c[rule] else 0 }

  /** What a budget file says of a rule: a limit, the older baseline and slack, or something else. */
  datatype Spec = Limit(limit: int) | Legacy(baseline: int, slack: int) | Malformed

  datatype Entry = Entry(rule: string, spec: Spec)

  /** A budget file: a dictionary, in the order of the file. */
  type Budget = seq<Entry>

  ghost predicate Distinct(b: Budget) { forall i, j :: 0 <= i < j < |b| ==> b[i].rule != b[j].rule }

  predicate Migrated(b: Budget) { forall i :: 0 <= i < |b| ==> b[i].spec.Limit? }

  datatype Breach = Breach(rule: string, total: nat, cap: int, added: int)

  predicate OverLimit(head: Counts, e: Entry) { e.spec.Limit? && Count(head, e.rule) > e.spec.limit }

  predicate Flagged(head: Counts, base: Counts, e: Entry)
  {
    OverLimit(head, e) && Count(head, e.rule) > Count(base, e.rule)
  }

  function BreachOf(head: Counts, base: Counts, e: Entry): Breach
    requires e.spec.Limit?
  {
    Breach(e.rule, Count(head, e.rule), e.spec.limit, Count(head, e.rule) - Count(base, e.rule))
  }

  function OverCeiling(head: Counts, b: Budget): set<string>
  {
    set e | e in b && OverLimit(head, e) :: e.rule
  }

  /** Breaches sort by rule first, and no rule occurs twice. */
  predicate RuleBefore(a: Breach, b: Breach) { StrLe(a.rule, b.rule) }

  lemma RuleOrder()
    ensures Sorting.Preorder(RuleBefore)
  {
    forall a: Breach, b: Breach ensures RuleBefore(a, b) || RuleBefore(b, a) {
      StrLeTotal(a.rule, b.rule);
    }
    forall a: Breach, b: Breach, c: Breach | RuleBefore(a, b) && RuleBefore(b, c) ensures RuleBefore(a, c) {
      StrLeTransitive(a.rule, b.rule, c.rule);
    }
  }

  datatype Verdict = Breaches(list: seq<Breach>) | KeyError(rule: string)

  ghost predicate Accounts(found: seq<Breach>, head: Counts, base: Counts, b: Budget)
  {
    forall x :: x in found <==> exists e :: e in b && e.spec.Limit? && Flagged(head, base, e) && x == BreachOf(head, base, e)
  }

  lemma OneMore(found: seq<Breach>, head: Counts, base: Counts, b: Budget, e: Entry)
    requires Accounts(found, head, base, b) && e.spec.Limit?
    ensures Accounts(
              if Flagged(head, base, e) then found + [BreachOf(head, base, e)] else found, head, base, b + [e])
  {
    var more := if Flagged(head, base, e) then found + [BreachOf(head, base, e)] else found;
    forall x ensures x in more <==>
                     exists f :: f in b + [e] && f.spec.Limit? && Flagged(head, base, f) && x == BreachOf(head, base, f)
    {
      if Flagged(head, base, e) && x == BreachOf(head, base, e) {
        assert e in b + [e];
      }
      if x in found {
        var f :| f in b && f.spec.Limit? && Flagged(head, base, f) && x == BreachOf(head, base, f);
        assert f in b + [e];
      }
    }
  }

  lemma EmptyMeansPasses(found: seq<Breach>, head: Counts, base: Counts, b: Budget)
    requires Migrated(b) && Accounts(found, head, base, b)
    ensures found == [] <==> Passes(head, base, b)
  {
    if found == [] {
      forall e | e in b ensures !Flagged(head, base, e) {
        assert Flagged(head, base, e) ==> BreachOf(head, base, e) in found;
      }
    } else {
      assert found[0] in found;
    }
  }

  /** The verdict: every flagged rule of the budget, and nothing else, sorted by rule. */
  method Evaluate(head: Counts, base: Counts, b: Budget) returns (v: Verdict)
    ensures v.Breaches? <==> Migrated(b)
    ensures v.Breaches? ==> Accounts(v.list, head, base, b) && Sorting.SortedBy(v.list, RuleBefore)
    ensures v == Breaches([]) <==> Passes(head, base, b)
  {
    var found: seq<Breach> := [];
    for i := 0 to |b|
      invariant Migrated(b[..i])
      invariant Accounts(found, head, base, b[..i])
    {
      var e := b[i];
      assert b[..i + 1] == b[..i] + [e];
      if !e.spec.Limit? {
        return KeyError(e.rule);
      }
      OneMore(found, head, base, b[..i], e);
      var total := Count(head, e.rule);
      if total > e.spec.limit && total > Count(base, e.rule) {
        found := found + [Breach(e.rule, total, e.spec.limit, total - Count(base, e.rule))];
      }
    }
    assert b[..|b|] == b;
    RuleOrder();
    Sorting.SortedIsSorted(found, RuleBefore);
    var sorted := Sorting.Sorted(found, RuleBefore);
    Sorting.SameElements(sorted, found);
    EmptyMeansPasses(sorted, head, base, b);
    v := Breaches(sorted);
  }

  /** The gate lets the change through. */
  ghost predicate Passes(head: Counts, base: Counts, b: Budget)
  {
    Migrated(b) && forall e :: e in b ==> !Flagged(head, base, e)
  }

  /** A rule breaches when it was found more often than its limit allows, and more often than in the base, if it was found there. */
  lemma FlaggedExactly(head: Counts, base: Counts, e: Entry)
    requires e.spec.Limit? && e.spec.limit >= 0
    ensures Flagged(head, base, e) <==>
            e.rule in head && head[e.rule] > e.spec.limit && (e.rule in base ==> head[e.rule] > base[e.rule])
    ensures Flagged(head, base, e) ==>
              var b := BreachOf(head, base, e);
              && b.rule == e.rule && b.total == head[e.rule] && b.cap == e.spec.limit
              && b.added == if e.rule in base then head[e.rule] - base[e.rule] else head[e.rule]
  {
  }

  /** When no rule is over its limit, no base can make the gate fail: the early skip is sound. */
  lemma SkipSound(head: Counts, base: Counts, b: Budget)
    requires Migrated(b) && OverCeiling(head, b) == {}
    ensures Passes(head, base, b)
  {
    forall e | e in b ensures !Flagged(head, base, e) {
      assert OverLimit(head, e) ==> e.rule in OverCeiling(head, b);
    }
  }

  ghost predicate NonNegative(b: Budget) { forall e :: e in b && e.spec.Limit? ==> e.spec.limit >= 0 }

  /** And it skips only then: with limits of at least zero, a rule over its limit fails against some base. */
  lemma SkipExact(head: Counts, b: Budget)
    requires Migrated(b) && NonNegative(b)
    ensures OverCeiling(head, b) == {} <==> forall base :: Passes(head, base, b)
  {
    if OverCeiling(head, b) == {} {
      forall base ensures Passes(head, base, b) {
        SkipSound(head, base, b);
      }
    } else {
      var rule :| rule in OverCeiling(head, b);
      var e :| e in b && OverLimit(head, e) && e.rule == rule;
      assert Flagged(head, map[], e);
      assert !Passes(head, map[], b);
    }
  }

  // ------------------------------------------------------------ the ratchet

  function Max(a: int, b: int): int { if a < b then b else a }

  /** Violations the branch cleared, never negative. */
  function Fixed(current: Counts, base: Counts, rule: string): nat
  {
    Max(0, Count(base, rule) - Count(current, rule))
  }

  function RatchetEntry(e: Entry, current: Counts, base: Counts): Entry
  {
    if e.spec.Limit? then Entry(e.rule, Limit(Max(0, e.spec.limit - Fixed(current, base, e.rule)))) else e
  }

  /** `ratcheted_budget`, in the order of the file. */
  function Ratcheted(b: Budget, current: Counts, base: Counts): (r: Budget)
    ensures |r| == |b|
    ensures forall i :: 0 <= i < |b| ==> r[i] == RatchetEntry(b[i], current, base)
  {
    seq(|b|, i requires 0 <= i < |b| => RatchetEntry(b[i], current, base))
  }

  function RatchetedTimes(b: Budget, current: Counts, base: Counts, n: nat): (r: Budget)
    ensures |r| == |b|
  {
    if n == 0 then b else Ratcheted(RatchetedTimes(b, current, base, n - 1), current, base)
  }

  lemma RatchetMultiple(limit: int, fixed: nat, n: nat)
    ensures Max(0, Max(0, limit - n * fixed) - fixed) == Max(0, limit - (n + 1) * fixed)
  {
    assert (n + 1) * fixed == n * fixed + fixed;
  }

  /** Running the update again takes the same fixes off the limit again: n runs take them off n times. */
  lemma {:induction false} RatchetClosedForm(b: Budget, current: Counts, base: Counts, n: nat, i: nat)
    requires Migrated(b) && n >= 1 && i < |b|
    ensures RatchetedTimes(b, current, base, n)[i]
         == Entry(b[i].rule, Limit(Max(0, b[i].spec.limit - n * Fixed(current, base, b[i].rule))))
    ensures Fixed(current, base, b[i].rule)
         == if Count(base, b[i].rule) > Count(current, b[i].rule) then Count(base, b[i].rule) - Count(current, b[i].rule) else 0
  {
    if n > 1 {
      RatchetClosedForm(b, current, base, n - 1, i);
      RatchetMultiple(b[i].spec.limit, Fixed(current, base, b[i].rule), n - 1);
    }
  }

  /** So the update is idempotent exactly when nothing was fixed, or everything the limit allowed was. */
  lemma RatchetIdempotent(b: Budget, current: Counts, base: Counts)
    requires Migrated(b)
    ensures var once := Ratcheted(b, current, base);
            Ratcheted(once, current, base) == once <==>
            forall i :: 0 <= i < |b| ==>
              Fixed(current, base, b[i].rule) == 0 || b[i].spec.limit <= Fixed(current, base, b[i].rule)
  {
    var once := Ratcheted(b, current, base);
    var twice := Ratcheted(once, current, base);
    forall i | 0 <= i < |b|
      ensures twice[i] == once[i] <==>
              Fixed(current, base, b[i].rule) == 0 || b[i].spec.limit <= Fixed(current, base, b[i].rule)
    {
      assert once[i] == RatchetEntry(b[i], current, base) && twice[i] == RatchetEntry(once[i], current, base);
    }
    if twice == once {
      assert forall i :: 0 <= i < |b| ==> twice[i] == once[i];
    }
  }

  lemma RatchetFlag(e: Entry, current: Counts, base: Counts)
    ensures Flagged(current, base, RatchetEntry(e, current, base)) <==> Flagged(current, base, e)
  {
  }

  /** However often it runs, the update never changes which rules the gate flags for the same counts. */
  lemma {:induction false} RatchetKeepsVerdict(b: Budget, current: Counts, base: Counts, n: nat, i: nat)
    requires i < |b|
    ensures RatchetedTimes(b, current, base, n)[i].rule == b[i].rule
    ensures Flagged(current, base, RatchetedTimes(b, current, base, n)[i]) <==> Flagged(current, base, b[i])
  {
    if n > 0 {
      RatchetKeepsVerdict(b, current, base, n - 1, i);
      RatchetFlag(RatchetedTimes(b, current, base, n - 1)[i], current, base);
    }
  }
}
