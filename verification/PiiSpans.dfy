/**
 * From raw detections to the spans that are encoded: trim whitespace, let the best span of
 * every overlap win, join neighbours of one entity.
 */
module PiiSpans {
  import opened Text
  import opened PiiTypes
  import Sorting

  const MAX_COALESCE_GAP: nat := 1

  type Space = char -> bool

  function Leading(space: Space, s: string): (n: nat)
    ensures n <= |s|
  {
    if s != "" && space(s[0]) then 1 + Leading(space, s[1..]) else 0
  }

  function Trailing(space: Space, s: string): (n: nat)
    ensures n <= |s|
  {
    if s != "" && space(s[|s| - 1]) then 1 + Trailing(space, s[..|s| - 1]) else 0
  }

  function TrimSpan(space: Space, s: Span, text: string): (t: Option<Span>)
  {
    var raw := TextFrom(s, text);
    var leading, trailing := Leading(space, raw), Trailing(space, raw);
    if leading == 0 && trailing == 0 then Some(s)
    else if s.end as int - trailing <= s.start + leading then None
    else Some(s.(start := s.start + leading, end := s.end - trailing))
  }

  function TrimSpans(space: Space, spans: seq<Span>, text: string): seq<Span>
  {
    if spans == [] then []
    else
      var t := TrimSpan(space, spans[0], text);
      (if t.Some? then [t.value] else []) + TrimSpans(space, spans[1..], text)
  }

  /** Higher score first, then rules over the model, then the longer, then the leftmost. */
  predicate Outranks(a: Span, b: Span)
  {
    if a.score != b.score then a.score > b.score
    else if a.detector != b.detector then a.detector == RuleStage
    else if a.end - a.start != b.end - b.start then a.end - a.start > b.end - b.start
    else a.start <= b.start
  }

  predicate Clashes(x: Span, accepted: seq<Span>)
  {
    exists i :: 0 <= i < |accepted| && Overlaps(x, accepted[i])
  }

  function AcceptIfDisjoint(accepted: seq<Span>, candidate: Span): seq<Span>
  {
    if Clashes(candidate, accepted) then accepted else accepted + [candidate]
  }

  function Accept(accepted: seq<Span>, ranked: seq<Span>): seq<Span>
    decreases |ranked|
  {
    if ranked == [] then accepted else Accept(AcceptIfDisjoint(accepted, ranked[0]), ranked[1..])
  }

  function ResolveOverlaps(spans: seq<Span>): seq<Span>
  {
    InOrder(Accept([], Sorting.Sorted(spans, Outranks)))
  }

  predicate Coalescable(space: Space, left: Span, right: Span, text: string)
  {
    var gap := Drop(Take(text, right.start), left.end);
    && left.entity == right.entity
    && |gap| <= MAX_COALESCE_GAP
    && forall i :: 0 <= i < |gap| ==> space(gap[i])
  }

  function Join(left: Span, right: Span): Span
  {
    left.(end := right.end, score := if right.score < left.score then right.score else left.score)
  }

  function CoalesceStep(space: Space, merged: seq<Span>, candidate: Span, text: string): seq<Span>
  {
    if merged == [] then [candidate]
    else
      var previous := merged[|merged| - 1];
      if Coalescable(space, previous, candidate, text)
      then merged[..|merged| - 1] + [Join(previous, candidate)]
      else merged + [candidate]
  }

  function Coalesce(space: Space, merged: seq<Span>, ordered: seq<Span>, text: string): seq<Span>
    decreases |ordered|
  {
    if ordered == [] then merged
    else Coalesce(space, CoalesceStep(space, merged, ordered[0], text), ordered[1..], text)
  }

  /** `merge_spans`, with the groups already chained. */
  function MergeSpans(space: Space, text: string, spans: seq<Span>): seq<Span>
  {
    Coalesce(space, [], InOrder(ResolveOverlaps(TrimSpans(space, spans, text))), text)
  }

  // ------------------------------------------------------------ trimming

  /** Starts and ends on a character that is not whitespace. */
  ghost predicate Trimmed(space: Space, s: Span, text: string)
  {
    Inside(s, text) && !space(text[s.start]) && !space(text[s.end - 1])
  }

  lemma {:induction false} LeadingEdge(space: Space, s: string)
    ensures forall i :: 0 <= i < Leading(space, s) ==> space(s[i])
    ensures Leading(space, s) < |s| ==> !space(s[Leading(space, s)])
  {
    if s != "" && space(s[0]) {
      LeadingEdge(space, s[1..]);
      assert forall i :: 0 < i < |s| ==> s[i] == s[1..][i - 1];
    }
  }

  lemma {:induction false} TrailingEdge(space: Space, s: string)
    ensures forall i :: |s| - Trailing(space, s) <= i < |s| ==> space(s[i])
    ensures Trailing(space, s) < |s| ==> !space(s[|s| - Trailing(space, s) - 1])
  {
    if s != "" && space(s[|s| - 1]) {
      TrailingEdge(space, s[..|s| - 1]);
    }
  }

  ghost predicate Blank(space: Space, text: string, a: nat, b: nat)
  {
    forall i :: a <= i < b <= |text| ==> space(text[i])
  }

  /** Leading and trailing whitespace of a slice, in positions of the whole text. */
  lemma EdgesOfSlice(space: Space, text: string, a: nat, b: nat)
    requires a < b <= |text|
    ensures var raw := text[a..b];
            var leading, trailing := Leading(space, raw), Trailing(space, raw);
            && Blank(space, text, a, a + leading) && Blank(space, text, b - trailing, b)
            && (leading == |raw| || (!space(text[a + leading]) && leading + trailing < |raw| && !space(text[b - trailing - 1])))
            && (leading == |raw| ==> trailing == |raw|)
  {
    var raw := text[a..b];
    LeadingEdge(space, raw);
    TrailingEdge(space, raw);
    assert forall i :: a <= i < b ==> text[i] == raw[i - a];
  }

  /** Trimming drops whitespace from both ends and nothing else; only a blank span disappears. */
  lemma TrimExact(space: Space, s: Span, text: string)
    requires Inside(s, text)
    ensures var t := TrimSpan(space, s, text);
            if Blank(space, text, s.start, s.end) then t.None?
            else && t.Some? && Trimmed(space, t.value, text)
                 && t.value == s.(start := t.value.start, end := t.value.end)
                 && s.start <= t.value.start && t.value.end <= s.end
                 && Blank(space, text, s.start, t.value.start) && Blank(space, text, t.value.end, s.end)
  {
    var raw := text[s.start..s.end];
    EdgesOfSlice(space, text, s.start, s.end);
    assert TextFrom(s, text) == raw;
    var leading := Leading(space, raw);
    if leading < |raw| {
      assert !space(text[s.start + leading]);
      assert !Blank(space, text, s.start, s.end);
    } else {
      assert Blank(space, text, s.start, s.end);
    }
  }

  ghost predicate AllTrimmed(space: Space, spans: seq<Span>, text: string)
  {
    forall i :: 0 <= i < |spans| ==> Trimmed(space, spans[i], text)
  }

  lemma {:induction false} TrimAll(space: Space, spans: seq<Span>, text: string)
    requires AllInside(spans, text)
    ensures AllTrimmed(space, TrimSpans(space, spans, text), text)
  {
    if spans != [] {
      TrimExact(space, spans[0], text);
      TrimAll(space, spans[1..], text);
    }
  }

  ghost predicate TrimmedFrom(space: Space, t: Span, spans: seq<Span>, text: string)
  {
    exists s :: s in spans && TrimSpan(space, s, text) == Some(t)
  }

  lemma {:induction false} TrimMembers(space: Space, spans: seq<Span>, text: string, t: Span)
    ensures t in TrimSpans(space, spans, text) <==> TrimmedFrom(space, t, spans, text)
  {
    if spans != [] {
      TrimMembers(space, spans[1..], text, t);
      assert spans == [spans[0]] + spans[1..];
    }
  }

  // ------------------------------------------------------------ overlaps

  lemma OutranksPreorder()
    ensures Sorting.Preorder(Outranks)
  {
  }

  /** What spans are ranked by, in order of weight: score, rule stage, length, and how far left they start. */
  ghost function Priority(s: Span): (p: seq<real>)
    ensures |p| == 4
  {
    [s.score, if s.detector.RuleStage? then 1.0 else 0.0, (s.end - s.start) as real, -(s.start as real)]
  }

  /** The first entry in which p and q differ, the k-th, is larger in p. */
  ghost predicate LargerAt(p: seq<real>, q: seq<real>, k: nat)
    requires |p| == |q|
  {
    k < |p| && p[k] > q[k] && forall i :: 0 <= i < k ==> p[i] == q[i]
  }

  /** Rank is the lexicographic order of the priorities. */
  lemma OutranksExact(a: Span, b: Span)
    ensures Outranks(a, b) <==> Priority(a) == Priority(b) || exists k :: LargerAt(Priority(a), Priority(b), k)
  {
    var p, q := Priority(a), Priority(b);
    assert LargerAt(p, q, 0) <==> p[0] > q[0];
    assert LargerAt(p, q, 1) <==> p[0] == q[0] && p[1] > q[1];
    assert LargerAt(p, q, 2) <==> p[0] == q[0] && p[1] == q[1] && p[2] > q[2];
    assert LargerAt(p, q, 3) <==> p[0] == q[0] && p[1] == q[1] && p[2] == q[2] && p[3] > q[3];
  }

  /** Between two detections of the same priority, the one reported first is kept. */
  lemma FirstReportedWins(a: Span, b: Span)
    requires Priority(a) == Priority(b) && a.start < a.end
    ensures ResolveOverlaps([a, b]) == [a]
  {
    OutranksExact(a, b);
    assert Sorting.Sorted([b], Outranks) == [b] by { assert Sorting.Sorted([b][1..], Outranks) == []; }
    assert [a, b][1..] == [b] && Sorting.Sorted([a, b], Outranks) == [a, b];
    assert b.start == a.start && b.end == a.end && Overlaps(b, a);
    assert Clashes(b, [a]) by { assert Overlaps(b, [a][0]); }
    assert AcceptIfDisjoint([], a) == [a] && AcceptIfDisjoint([a], b) == [a];
    assert Accept([a], [b]) == Accept([a], []) by { assert [b][1..] == []; }
    assert InOrder([a]) == [a] by { assert Sorting.Sorted([a][1..], StartsBefore) == []; }
  }

  /** Some accepted span overlaps x and ranks at least as high. */
  ghost predicate Beaten(x: Span, accepted: seq<Span>)
  {
    exists i :: 0 <= i < |accepted| && Overlaps(x, accepted[i]) && Outranks(accepted[i], x)
  }

  lemma AcceptGrows(accepted: seq<Span>, ranked: seq<Span>)
    ensures accepted <= Accept(accepted, ranked)
    decreases |ranked|
  {
  }

  lemma BeatenStill(x: Span, accepted: seq<Span>, more: seq<Span>)
    requires Beaten(x, accepted) && accepted <= more
    ensures Beaten(x, more)
  {
    var i :| 0 <= i < |accepted| && Overlaps(x, accepted[i]) && Outranks(accepted[i], x);
    assert more[i] == accepted[i];
  }

  lemma FirstBeaten(accepted: seq<Span>, candidate: Span)
    requires candidate.start < candidate.end
    requires forall i :: 0 <= i < |accepted| ==> Outranks(accepted[i], candidate)
    ensures Beaten(candidate, AcceptIfDisjoint(accepted, candidate))
  {
    var next := AcceptIfDisjoint(accepted, candidate);
    if !Clashes(candidate, accepted) {
      assert next[|accepted|] == candidate && Overlaps(candidate, candidate) && Outranks(candidate, candidate);
    }
  }

  ghost predicate Ranked(accepted: seq<Span>, ranked: seq<Span>)
  {
    && Sorting.SortedBy(ranked, Outranks)
    && forall i, j :: 0 <= i < |accepted| && 0 <= j < |ranked| ==> Outranks(accepted[i], ranked[j])
  }

  lemma NextRanked(accepted: seq<Span>, ranked: seq<Span>)
    requires Ranked(accepted, ranked) && ranked != []
    ensures Ranked(AcceptIfDisjoint(accepted, ranked[0]), ranked[1..])
  {
  }

  /** The greedy choice keeps disjoint spans, and every span it drops lost to one that ranks no lower. */
  lemma {:induction false} AcceptBest(accepted: seq<Span>, ranked: seq<Span>)
    requires Disjoint(accepted) && Ranked(accepted, ranked)
    requires forall j :: 0 <= j < |ranked| ==> ranked[j].start < ranked[j].end
    ensures var all := Accept(accepted, ranked);
            && Disjoint(all)
            && (forall x :: x in ranked ==> Beaten(x, all))
            && (forall x :: x in all ==> x in accepted || x in ranked)
    decreases |ranked|
  {
    if ranked != [] {
      var next := AcceptIfDisjoint(accepted, ranked[0]);
      FirstBeaten(accepted, ranked[0]);
      NextDisjoint(accepted, ranked[0]);
      NextRanked(accepted, ranked);
      AcceptBest(next, ranked[1..]);
      AcceptGrows(next, ranked[1..]);
      BeatenStill(ranked[0], next, Accept(next, ranked[1..]));
      assert ranked == [ranked[0]] + ranked[1..];
    }
  }

  lemma NextDisjoint(accepted: seq<Span>, candidate: Span)
    requires Disjoint(accepted)
    ensures Disjoint(AcceptIfDisjoint(accepted, candidate))
  {
    if !Clashes(candidate, accepted) {
      forall i | 0 <= i < |accepted| ensures !Overlaps(accepted[i], candidate) {
        assert !Overlaps(candidate, accepted[i]);
      }
    }
  }

  lemma BeatenAnyOrder(x: Span, a: seq<Span>, b: seq<Span>)
    requires Beaten(x, a) && forall y :: y in a ==> y in b
    ensures Beaten(x, b)
  {
    var i :| 0 <= i < |a| && Overlaps(x, a[i]) && Outranks(a[i], x);
    assert a[i] in b;
    var j :| 0 <= j < |b| && b[j] == a[i];
  }

  /** Resolving overlaps: left to right, disjoint, and no span lost except to a better one it overlaps. */
  lemma ResolveBest(text: string, spans: seq<Span>)
    requires AllInside(spans, text)
    ensures var out := ResolveOverlaps(spans);
            && AllInside(out, text) && Ascending(out)
            && (forall x :: x in out ==> x in spans)
            && (forall x :: x in spans ==> Beaten(x, out))
  {
    var ranked := Sorting.Sorted(spans, Outranks);
    OutranksPreorder();
    Sorting.SortedIsSorted(spans, Outranks);
    Sorting.SameElements(ranked, spans);
    assert forall j :: 0 <= j < |ranked| ==> ranked[j] in spans;
    AcceptBest([], ranked);
    var all := Accept([], ranked);
    assert forall x :: x in spans ==> Inside(x, text);
    assert forall i :: 0 <= i < |all| ==> all[i] in spans;
    InOrderAscends(text, all);
    Sorting.SameElements(InOrder(all), all);
    forall x | x in spans ensures Beaten(x, InOrder(all)) {
      BeatenAnyOrder(x, all, InOrder(all));
    }
  }

  // ------------------------------------------------------------- joining

  predicate Within(a: Span, b: Span) { b.start <= a.start && a.end <= b.end && a.entity == b.entity }

  ghost predicate Held(x: Span, spans: seq<Span>) { exists i :: 0 <= i < |spans| && Within(x, spans[i]) }

  /** Every character of s that is not whitespace belongs to a piece of the same entity. */
  ghost predicate MadeOf(space: Space, s: Span, pieces: set<Span>, text: string)
  {
    forall i :: s.start <= i < s.end <= |text| && !space(text[i]) ==> Covered(i, s.entity, pieces)
  }

  ghost predicate Covered(i: nat, entity: string, pieces: set<Span>)
  {
    exists p :: p in pieces && p.entity == entity && p.start <= i < p.end
  }

  ghost predicate Separate(space: Space, spans: seq<Span>, text: string)
  {
    forall i :: 0 < i < |spans| ==> !Coalescable(space, spans[i - 1], spans[i], text)
  }

  ghost predicate AllHeld(seen: set<Span>, merged: seq<Span>) { forall x :: x in seen ==> Held(x, merged) }

  ghost predicate AllMadeOf(space: Space, merged: seq<Span>, seen: set<Span>, text: string)
  {
    forall i :: 0 <= i < |merged| ==> MadeOf(space, merged[i], seen, text)
  }

  ghost predicate Settled(space: Space, merged: seq<Span>, text: string)
  {
    AllTrimmed(space, merged, text) && Ascending(merged) && Separate(space, merged, text)
  }

  /** What joining has made of the spans seen so far. */
  ghost predicate Joined(space: Space, merged: seq<Span>, seen: set<Span>, text: string)
  {
    Settled(space, merged, text) && AllHeld(seen, merged) && AllMadeOf(space, merged, seen, text)
  }

  lemma GapIsSpace(space: Space, left: Span, right: Span, text: string, i: nat)
    requires Inside(right, text) && left.end <= i < right.start && Coalescable(space, left, right, text)
    ensures space(text[i])
  {
    var gap := Drop(Take(text, right.start), left.end);
    assert gap == text[left.end..right.start];
    assert gap[i - left.end] == text[i];
  }

  lemma MadeOfMore(space: Space, s: Span, pieces: set<Span>, more: set<Span>, text: string)
    requires MadeOf(space, s, pieces, text) && pieces <= more
    ensures MadeOf(space, s, more, text)
  {
    forall i | s.start <= i < s.end <= |text| && !space(text[i]) ensures Covered(i, s.entity, more) {
      assert Covered(i, s.entity, pieces);
    }
  }

  lemma MadeOfJoin(space: Space, left: Span, right: Span, seen: set<Span>, text: string)
    requires Inside(left, text) && Inside(right, text) && left.end <= right.start
    requires Coalescable(space, left, right, text) && MadeOf(space, left, seen, text)
    ensures MadeOf(space, Join(left, right), seen + {right}, text)
  {
    forall i | left.start <= i < right.end && !space(text[i]) ensures Covered(i, left.entity, seen + {right}) {
      if i < left.end {
        assert Covered(i, left.entity, seen);
      } else if i < right.start {
        GapIsSpace(space, left, right, text, i);
      } else {
        assert right in seen + {right};
      }
    }
  }

  lemma HeldAfter(space: Space, merged: seq<Span>, candidate: Span, text: string, x: Span)
    requires Held(x, merged) && Ascending(merged + [candidate]) && AllTrimmed(space, merged + [candidate], text)
    ensures Held(x, CoalesceStep(space, merged, candidate, text))
  {
    var i :| 0 <= i < |merged| && Within(x, merged[i]);
    var next := CoalesceStep(space, merged, candidate, text);
    var n := |merged| - 1;
    assert (merged + [candidate])[n] == merged[n] && (merged + [candidate])[n + 1] == candidate;
    assert Within(x, next[i]);
  }

  lemma CandidateHeld(space: Space, merged: seq<Span>, candidate: Span, text: string)
    requires Ascending(merged + [candidate]) && AllTrimmed(space, merged + [candidate], text)
    ensures Held(candidate, CoalesceStep(space, merged, candidate, text))
  {
    var next := CoalesceStep(space, merged, candidate, text);
    if merged != [] {
      var n := |merged| - 1;
      assert (merged + [candidate])[n] == merged[n] && (merged + [candidate])[n + 1] == candidate;
    }
    assert Within(candidate, next[|next| - 1]);
  }

  lemma AppendShape(space: Space, merged: seq<Span>, candidate: Span, text: string)
    requires Ascending(merged + [candidate]) && AllTrimmed(space, merged + [candidate], text)
    requires Separate(space, merged, text)
    requires merged != [] ==> !Coalescable(space, merged[|merged| - 1], candidate, text)
    ensures Settled(space, merged + [candidate], text)
  {
  }

  lemma JoinShape(space: Space, merged: seq<Span>, candidate: Span, text: string)
    requires Ascending(merged + [candidate]) && AllTrimmed(space, merged + [candidate], text)
    requires Separate(space, merged, text) && merged != []
    ensures Settled(space, merged[..|merged| - 1] + [Join(merged[|merged| - 1], candidate)], text)
  {
    var both, n := merged + [candidate], |merged| - 1;
    var next := merged[..n] + [Join(merged[n], candidate)];
    assert both[n + 1] == candidate && both[n] == merged[n];
    assert Trimmed(space, both[n], text) && Trimmed(space, both[n + 1], text);
    forall i | 0 <= i < n ensures next[i] == merged[i] && Trimmed(space, next[i], text) && next[i].end <= merged[n].start {
      assert both[i] == merged[i];
    }
    forall i, j | 0 <= i < j < n ensures next[i].end <= next[j].start {
      assert both[i] == merged[i] && both[j] == merged[j];
    }
  }

  lemma StepShape(space: Space, merged: seq<Span>, candidate: Span, text: string)
    requires Ascending(merged + [candidate]) && AllTrimmed(space, merged + [candidate], text)
    requires Separate(space, merged, text)
    ensures Settled(space, CoalesceStep(space, merged, candidate, text), text)
  {
    if merged != [] && Coalescable(space, merged[|merged| - 1], candidate, text) {
      JoinShape(space, merged, candidate, text);
    } else {
      AppendShape(space, merged, candidate, text);
      assert merged == [] ==> merged + [candidate] == [candidate];
    }
  }

  lemma StepMadeOf(space: Space, merged: seq<Span>, candidate: Span, seen: set<Span>, text: string, i: nat)
    requires Ascending(merged + [candidate]) && AllTrimmed(space, merged + [candidate], text)
    requires forall k :: 0 <= k < |merged| ==> MadeOf(space, merged[k], seen, text)
    requires i < |CoalesceStep(space, merged, candidate, text)|
    ensures MadeOf(space, CoalesceStep(space, merged, candidate, text)[i], seen + {candidate}, text)
  {
    var both := merged + [candidate];
    var next := CoalesceStep(space, merged, candidate, text);
    assert both[|merged|] == candidate;
    if i < |merged| && next[i] == merged[i] {
      MadeOfMore(space, merged[i], seen, seen + {candidate}, text);
    } else if next[i] == candidate {
      assert candidate in seen + {candidate};
    } else {
      assert both[i] == merged[i];
      MadeOfJoin(space, merged[i], candidate, seen, text);
    }
  }

  lemma StepHeld(space: Space, merged: seq<Span>, candidate: Span, seen: set<Span>, text: string)
    requires Ascending(merged + [candidate]) && AllTrimmed(space, merged + [candidate], text) && AllHeld(seen, merged)
    ensures AllHeld(seen + {candidate}, CoalesceStep(space, merged, candidate, text))
  {
    var next := CoalesceStep(space, merged, candidate, text);
    CandidateHeld(space, merged, candidate, text);
    forall x | x in seen ensures Held(x, next) {
      HeldAfter(space, merged, candidate, text, x);
    }
  }

  lemma StepAllMadeOf(space: Space, merged: seq<Span>, candidate: Span, seen: set<Span>, text: string)
    requires Ascending(merged + [candidate]) && AllTrimmed(space, merged + [candidate], text)
    requires AllMadeOf(space, merged, seen, text)
    ensures AllMadeOf(space, CoalesceStep(space, merged, candidate, text), seen + {candidate}, text)
  {
    forall i | 0 <= i < |CoalesceStep(space, merged, candidate, text)|
      ensures MadeOf(space, CoalesceStep(space, merged, candidate, text)[i], seen + {candidate}, text)
    {
      StepMadeOf(space, merged, candidate, seen, text, i);
    }
  }

  ghost predicate Precede(merged: seq<Span>, ordered: seq<Span>)
  {
    forall i, j :: 0 <= i < |merged| && 0 <= j < |ordered| ==> merged[i].end <= ordered[j].start
  }

  lemma Appended(space: Space, merged: seq<Span>, ordered: seq<Span>, text: string)
    requires ordered != [] && AllTrimmed(space, ordered, text) && Settled(space, merged, text) && Precede(merged, ordered)
    ensures Ascending(merged + [ordered[0]]) && AllTrimmed(space, merged + [ordered[0]], text)
  {
  }

  lemma JoinedStep(space: Space, merged: seq<Span>, ordered: seq<Span>, seen: set<Span>, text: string)
    requires Joined(space, merged, seen, text) && ordered != []
    requires AllTrimmed(space, ordered, text) && Precede(merged, ordered)
    ensures Joined(space, CoalesceStep(space, merged, ordered[0], text), seen + {ordered[0]}, text)
  {
    Appended(space, merged, ordered, text);
    StepShape(space, merged, ordered[0], text);
    StepHeld(space, merged, ordered[0], seen, text);
    StepAllMadeOf(space, merged, ordered[0], seen, text);
  }

  lemma RestShape(space: Space, ordered: seq<Span>, text: string)
    requires ordered != [] && AllTrimmed(space, ordered, text) && Ascending(ordered)
    ensures AllTrimmed(space, ordered[1..], text) && Ascending(ordered[1..])
  {
  }

  function Elements(s: seq<Span>): set<Span> { set x | x in s }

  lemma ElementsFirst(seen: set<Span>, s: seq<Span>)
    requires s != []
    ensures seen + {s[0]} + Elements(s[1..]) == seen + Elements(s)
  {
    assert s == [s[0]] + s[1..];
  }

  lemma {:induction false} CoalesceKeeps(space: Space, merged: seq<Span>, ordered: seq<Span>, seen: set<Span>, text: string)
    requires Joined(space, merged, seen, text)
    requires AllTrimmed(space, ordered, text) && Ascending(ordered) && Precede(merged, ordered)
    ensures Joined(space, Coalesce(space, merged, ordered, text), seen + Elements(ordered), text)
    decreases |ordered|
  {
    if ordered == [] {
      assert seen + Elements(ordered) == seen;
    } else {
      JoinedStep(space, merged, ordered, seen, text);
      BeforeRest(space, merged, ordered, text);
      RestShape(space, ordered, text);
      CoalesceKeeps(space, CoalesceStep(space, merged, ordered[0], text), ordered[1..], seen + {ordered[0]}, text);
      ElementsFirst(seen, ordered);
    }
  }

  lemma BeforeRest(space: Space, merged: seq<Span>, ordered: seq<Span>, text: string)
    requires ordered != [] && AllTrimmed(space, ordered, text) && Ascending(ordered)
    requires Precede(merged, ordered)
    ensures Precede(CoalesceStep(space, merged, ordered[0], text), ordered[1..])
  {
    var next := CoalesceStep(space, merged, ordered[0], text);
    forall i, j | 0 <= i < |next| && 0 <= j < |ordered[1..]| ensures next[i].end <= ordered[1..][j].start {
      assert ordered[1..][j] == ordered[j + 1];
      assert ordered[0].end <= ordered[j + 1].start;
      assert next[i].end == ordered[0].end || (i < |merged| && next[i] == merged[i]);
    }
  }

  // ------------------------------------------------- joining, span by span

  /** The right span follows the left one at once, or after a single space, and is of the same entity. */
  ghost predicate Follows(space: Space, left: Span, right: Span, text: string)
  {
    && left.entity == right.entity
    && (right.start == left.end || (right.start == left.end + 1 && left.end < |text| && space(text[left.end])))
  }

  /** The span joins the run: all of it, from first to last, at the lowest score and with the first detector. */
  ghost predicate JoinsRun(space: Space, run: seq<Span>, s: Span, text: string)
  {
    && run != [] && s.entity == run[0].entity && s.detector == run[0].detector
    && s.start == run[0].start && s.end == run[|run| - 1].end
    && (forall i :: 0 <= i < |run| ==> s.score <= run[i].score) && (exists i :: 0 <= i < |run| && s.score == run[i].score)
    && forall i :: 0 < i < |run| ==> Follows(space, run[i - 1], run[i], text)
  }

  ghost function Chained(runs: seq<seq<Span>>): seq<Span>
  {
    if runs == [] then [] else Chained(runs[..|runs| - 1]) + runs[|runs| - 1]
  }

  ghost predicate JoinsAll(space: Space, runs: seq<seq<Span>>, merged: seq<Span>, text: string)
  {
    |runs| == |merged| && forall i :: 0 <= i < |runs| ==> JoinsRun(space, runs[i], merged[i], text)
  }

  lemma CoalescableExact(space: Space, left: Span, right: Span, text: string)
    requires Inside(right, text) && left.end <= right.start
    ensures Coalescable(space, left, right, text) <==> Follows(space, left, right, text)
  {
    var gap := Drop(Take(text, right.start), left.end);
    assert gap == text[left.end..right.start];
    assert |gap| > 0 ==> gap[0] == text[left.end];
  }

  lemma RunGrows(space: Space, run: seq<Span>, s: Span, next: Span, text: string)
    requires JoinsRun(space, run, s, text) && Follows(space, s, next, text)
    ensures JoinsRun(space, run + [next], Join(s, next), text)
  {
    var longer, t := run + [next], Join(s, next);
    assert longer[|run|] == next && longer[|run| - 1] == run[|run| - 1];
    var k :| 0 <= k < |run| && s.score == run[k].score;
    assert t.score == longer[if next.score < s.score then |run| else k].score;
    SameEntity(space, run, s, text, |run| - 1);
  }

  lemma {:induction false} SameEntity(space: Space, run: seq<Span>, s: Span, text: string, i: nat)
    requires JoinsRun(space, run, s, text) && i < |run|
    ensures run[i].entity == s.entity
  {
    if i > 0 {
      SameEntity(space, run, s, text, i - 1);
      assert Follows(space, run[i - 1], run[i], text);
    }
  }

  lemma ChainedLast(runs: seq<seq<Span>>, last: seq<Span>)
    ensures Chained(runs + [last]) == Chained(runs) + last
  {
    assert (runs + [last])[..|runs|] == runs;
  }

  lemma JoinRuns(space: Space, merged: seq<Span>, candidate: Span, runs: seq<seq<Span>>, text: string)
    returns (more: seq<seq<Span>>)
    requires JoinsAll(space, runs, merged, text) && merged != [] && Follows(space, merged[|merged| - 1], candidate, text)
    ensures JoinsAll(space, more, merged[..|merged| - 1] + [Join(merged[|merged| - 1], candidate)], text)
    ensures Chained(more) == Chained(runs) + [candidate]
  {
    var n := |merged| - 1;
    RunGrows(space, runs[n], merged[n], candidate, text);
    more := runs[..n] + [runs[n] + [candidate]];
    assert runs == runs[..n] + [runs[n]];
    ChainedLast(runs[..n], runs[n]);
    ChainedLast(runs[..n], runs[n] + [candidate]);
  }

  lemma StepRuns(space: Space, merged: seq<Span>, candidate: Span, runs: seq<seq<Span>>, text: string)
    returns (more: seq<seq<Span>>)
    requires JoinsAll(space, runs, merged, text) && Inside(candidate, text)
    requires merged != [] ==> merged[|merged| - 1].end <= candidate.start
    ensures JoinsAll(space, more, CoalesceStep(space, merged, candidate, text), text)
    ensures Chained(more) == Chained(runs) + [candidate]
  {
    if merged != [] && Coalescable(space, merged[|merged| - 1], candidate, text) {
      CoalescableExact(space, merged[|merged| - 1], candidate, text);
      more := JoinRuns(space, merged, candidate, runs, text);
    } else {
      more := runs + [[candidate]];
      ChainedLast(runs, [candidate]);
      AloneIsRun(space, merged, candidate, runs, text);
      assert merged == [] ==> merged + [candidate] == [candidate];
    }
  }

  lemma AloneIsRun(space: Space, merged: seq<Span>, candidate: Span, runs: seq<seq<Span>>, text: string)
    requires JoinsAll(space, runs, merged, text)
    ensures JoinsAll(space, runs + [[candidate]], merged + [candidate], text)
  {
    assert candidate.score == [candidate][0].score;
    assert JoinsRun(space, [candidate], candidate, text);
  }

  lemma {:induction false} CoalesceRuns(
    space: Space, merged: seq<Span>, ordered: seq<Span>, runs: seq<seq<Span>>, text: string) returns (all: seq<seq<Span>>)
    requires JoinsAll(space, runs, merged, text) && Ahead(merged, ordered, text)
    ensures JoinsAll(space, all, Coalesce(space, merged, ordered, text), text)
    ensures Chained(all) == Chained(runs) + ordered
    decreases |ordered|
  {
    if ordered == [] {
      all := runs;
    } else {
      AheadNext(merged, ordered, text);
      var more := StepRuns(space, merged, ordered[0], runs, text);
      var next := CoalesceStep(space, merged, ordered[0], text);
      StepPrecedes(space, merged, ordered, text);
      all := CoalesceRuns(space, next, ordered[1..], more, text);
      FirstAndRest(Chained(runs), ordered);
    }
  }

  lemma FirstAndRest(a: seq<Span>, b: seq<Span>)
    requires b != []
    ensures a + [b[0]] + b[1..] == a + b
  {
  }

  ghost predicate Ahead(merged: seq<Span>, ordered: seq<Span>, text: string)
  {
    AllInside(ordered, text) && Ascending(ordered) && Precede(merged, ordered)
  }

  lemma AheadNext(merged: seq<Span>, ordered: seq<Span>, text: string)
    requires Ahead(merged, ordered, text) && ordered != []
    ensures Inside(ordered[0], text) && (merged != [] ==> merged[|merged| - 1].end <= ordered[0].start)
  {
  }

  lemma StepPrecedes(space: Space, merged: seq<Span>, ordered: seq<Span>, text: string)
    requires ordered != [] && Ahead(merged, ordered, text)
    ensures Ahead(CoalesceStep(space, merged, ordered[0], text), ordered[1..], text)
  {
    var next := CoalesceStep(space, merged, ordered[0], text);
    forall i, j | 0 <= i < |next| && 0 <= j < |ordered[1..]| ensures next[i].end <= ordered[1..][j].start {
      assert ordered[1..][j] == ordered[j + 1] && ordered[0].end <= ordered[j + 1].start;
      assert next[i].end == ordered[0].end || (i < |merged| && next[i] == merged[i]);
    }
  }

  /**
   * Exactly what the output is made of: the winners, taken in order and cut into runs of
   * followers, one output span for each run.
   */
  lemma MergeIsRuns(space: Space, text: string, spans: seq<Span>) returns (runs: seq<seq<Span>>)
    requires AllInside(spans, text)
    ensures Chained(runs) == Kept(space, text, spans)
    ensures JoinsAll(space, runs, MergeSpans(space, text, spans), text)
    ensures forall i :: 0 < i < |MergeSpans(space, text, spans)| ==>
              !Follows(space, MergeSpans(space, text, spans)[i - 1], MergeSpans(space, text, spans)[i], text)
  {
    KeptFacts(space, text, spans);
    runs := CoalesceRuns(space, [], Kept(space, text, spans), [], text);
    assert [] + Kept(space, text, spans) == Kept(space, text, spans);
    MergeComplete(space, text, spans);
    var out := MergeSpans(space, text, spans);
    forall i | 0 < i < |out| ensures !Follows(space, out[i - 1], out[i], text) {
      CoalescableExact(space, out[i - 1], out[i], text);
    }
  }

  // ---------------------------------------------------------- the result

  /** A rival of at least x's rank overlaps x and lies inside an output span of the rival's entity. */
  ghost predicate Represented(x: Span, out: seq<Span>)
  {
    exists rival, i :: 0 <= i < |out| && Overlaps(x, rival) && Outranks(rival, x) && Within(rival, out[i])
  }

  lemma BeatenThenHeld(x: Span, kept: seq<Span>, out: seq<Span>)
    requires Beaten(x, kept) && AllHeld(Elements(kept), out)
    ensures Represented(x, out)
  {
    var i :| 0 <= i < |kept| && Overlaps(x, kept[i]) && Outranks(kept[i], x);
    assert kept[i] in Elements(kept);
    assert Held(kept[i], out);
    var k :| 0 <= k < |out| && Within(kept[i], out[k]);
  }

  ghost function Kept(space: Space, text: string, spans: seq<Span>): seq<Span>
  {
    InOrder(ResolveOverlaps(TrimSpans(space, spans, text)))
  }

  lemma KeptFacts(space: Space, text: string, spans: seq<Span>)
    requires AllInside(spans, text)
    ensures var kept, trimmed := Kept(space, text, spans), TrimSpans(space, spans, text);
            && AllTrimmed(space, kept, text) && Ascending(kept)
            && (forall x :: x in kept ==> x in trimmed)
            && (forall x :: x in trimmed ==> Beaten(x, kept))
  {
    var trimmed := TrimSpans(space, spans, text);
    TrimAll(space, spans, text);
    ResolveBest(text, trimmed);
    var best := ResolveOverlaps(trimmed);
    InOrderAscends(text, best);
    Sorting.SameElements(InOrder(best), best);
    forall x | x in trimmed ensures Beaten(x, InOrder(best)) {
      BeatenAnyOrder(x, best, InOrder(best));
    }
    assert forall x :: x in trimmed ==> Trimmed(space, x, text);
    assert forall i :: 0 <= i < |InOrder(best)| ==> InOrder(best)[i] in trimmed;
  }

  /**
   * What merging guarantees, for every list of raw detections inside the text: spans that run
   * left to right without overlap, none starting or ending in whitespace, no two neighbours of
   * one entity left apart; every detection that is not blank overlaps a winner of at least its
   * rank, which lies inside an output span; and nothing but whitespace is added to detections.
   */
  lemma MergeComplete(space: Space, text: string, spans: seq<Span>)
    requires AllInside(spans, text)
    ensures var out := MergeSpans(space, text, spans);
            && Settled(space, out, text)
            && (forall s, t :: s in spans && TrimSpan(space, s, text) == Some(t) ==> Represented(t, out))
            && AllMadeOf(space, out, Elements(TrimSpans(space, spans, text)), text)
  {
    var kept, out := Kept(space, text, spans), MergeSpans(space, text, spans);
    KeptFacts(space, text, spans);
    CoalesceKeeps(space, [], kept, {}, text);
    assert {} + Elements(kept) == Elements(kept);
    forall s, t | s in spans && TrimSpan(space, s, text) == Some(t) ensures Represented(t, out) {
      TrimMembers(space, spans, text, t);
      BeatenThenHeld(t, kept, out);
    }
    forall i | 0 <= i < |out| ensures MadeOf(space, out[i], Elements(TrimSpans(space, spans, text)), text) {
      MadeOfMore(space, out[i], Elements(kept), Elements(TrimSpans(space, spans, text)), text);
    }
  }

  /** Merged spans are what encoding needs of a detection. */
  lemma MergedIsWellDetected(space: Space, text: string, spans: seq<Span>)
    requires AllInside(spans, text)
    ensures AllInside(MergeSpans(space, text, spans), text) && Disjoint(MergeSpans(space, text, spans))
  {
    MergeComplete(space, text, spans);
  }

  // ---------------------------------------------------------- idempotence

  lemma TrimKeeps(space: Space, s: Span, text: string)
    requires Trimmed(space, s, text)
    ensures TrimSpan(space, s, text) == Some(s)
  {
    var raw := TextFrom(s, text);
    LeadingEdge(space, raw);
    TrailingEdge(space, raw);
    assert raw[0] == text[s.start] && raw[|raw| - 1] == text[s.end - 1];
  }

  lemma {:induction false} TrimIdle(space: Space, spans: seq<Span>, text: string)
    requires AllTrimmed(space, spans, text)
    ensures TrimSpans(space, spans, text) == spans
  {
    if spans != [] {
      TrimKeeps(space, spans[0], text);
      TrimIdle(space, spans[1..], text);
    }
  }

  lemma {:induction false} AcceptIdle(accepted: seq<Span>, ranked: seq<Span>)
    requires Disjoint(accepted + ranked)
    ensures Accept(accepted, ranked) == accepted + ranked
    decreases |ranked|
  {
    if ranked != [] {
      var both := accepted + ranked;
      assert both[|accepted|] == ranked[0];
      assert forall i :: 0 <= i < |accepted| ==> both[i] == accepted[i] && !Overlaps(both[i], ranked[0]);
      assert !Clashes(ranked[0], accepted);
      assert accepted + [ranked[0]] + ranked[1..] == both;
      AcceptIdle(accepted + [ranked[0]], ranked[1..]);
    }
  }

  lemma {:induction false} CoalesceIdle(space: Space, merged: seq<Span>, ordered: seq<Span>, text: string)
    requires Separate(space, merged + ordered, text)
    ensures Coalesce(space, merged, ordered, text) == merged + ordered
    decreases |ordered|
  {
    if ordered != [] {
      var both := merged + ordered;
      assert merged != [] ==> both[|merged| - 1] == merged[|merged| - 1] && both[|merged|] == ordered[0];
      assert CoalesceStep(space, merged, ordered[0], text) == merged + [ordered[0]];
      assert merged + [ordered[0]] + ordered[1..] == both;
      CoalesceIdle(space, merged + [ordered[0]], ordered[1..], text);
    }
  }

  ghost predicate StrictlyAscending(s: seq<Span>) { forall i, j :: 0 <= i < j < |s| ==> s[i].start < s[j].start }

  lemma SameHead(a: seq<Span>, b: seq<Span>)
    requires StrictlyAscending(a) && StrictlyAscending(b) && multiset(a) == multiset(b) && a != []
    ensures b != [] && a[0] == b[0]
  {
    Sorting.SameElements(a, b);
    assert a[0] in b && b[0] in a;
    var i :| 0 <= i < |b| && b[i] == a[0];
    var j :| 0 <= j < |a| && a[j] == b[0];
  }

  lemma TailElements(a: seq<Span>)
    requires a != []
    ensures multiset(a[1..]) == multiset(a) - multiset{a[0]}
  {
    assert a == [a[0]] + a[1..];
  }

  /** Only one order of the same spans is ascending. */
  lemma {:induction false} AscendingUnique(a: seq<Span>, b: seq<Span>)
    requires StrictlyAscending(a) && StrictlyAscending(b) && multiset(a) == multiset(b)
    ensures a == b
  {
    if a == [] {
      Sorting.SameElements(a, b);
    } else {
      SameHead(a, b);
      TailElements(a);
      TailElements(b);
      AscendingUnique(a[1..], b[1..]);
      assert a == [a[0]] + a[1..] && b == [b[0]] + b[1..];
    }
  }

  lemma InOrderIdle(text: string, spans: seq<Span>, any: seq<Span>)
    requires AllInside(spans, text) && Ascending(spans) && multiset(any) == multiset(spans) && Disjoint(any)
    ensures InOrder(any) == spans
  {
    Sorting.SameElements(any, spans);
    assert forall i :: 0 <= i < |any| ==> any[i] in spans;
    InOrderAscends(text, any);
    AscendingUnique(InOrder(any), spans);
  }

  /** Merging merged spans changes nothing. */
  lemma MergeIdempotent(space: Space, text: string, spans: seq<Span>)
    requires AllInside(spans, text)
    ensures MergeSpans(space, text, MergeSpans(space, text, spans)) == MergeSpans(space, text, spans)
  {
    var out := MergeSpans(space, text, spans);
    MergeComplete(space, text, spans);
    MergeSettled(space, text, out);
  }

  lemma ResolveSettled(text: string, out: seq<Span>)
    requires AllInside(out, text) && Ascending(out)
    ensures InOrder(ResolveOverlaps(out)) == out
  {
    var ranked := Sorting.Sorted(out, Outranks);
    SortedDisjoint(out, Outranks);
    assert [] + ranked == ranked;
    AcceptIdle([], ranked);
    InOrderIdle(text, out, ranked);
    InOrderIdle(text, out, out);
  }

  lemma MergeSettled(space: Space, text: string, out: seq<Span>)
    requires Settled(space, out, text)
    ensures MergeSpans(space, text, out) == out
  {
    TrimIdle(space, out, text);
    ResolveSettled(text, out);
    assert [] + out == out;
    CoalesceIdle(space, [], out, text);
  }
}
