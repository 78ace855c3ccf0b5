/**
 * Splitting a long text into overlapping windows for the detector.  A detection that touches a
 * cut is dropped, because the neighbouring window is expected to hold it whole.
 */
module PiiWindows {
  import opened PiiTypes

  const BOUNDARIES: seq<string> := ["\n\n", "\n", ". ", ", ", " "]

  datatype Window = Window(start: nat, end: nat)

  function Max(a: int, b: int): int { if a < b then b else a }

  function Min(a: int, b: int): int { if a < b then a else b }

  predicate OccursAt(text: string, pattern: string, i: int)
  {
    0 <= i <= i + |pattern| <= |text| && text[i..i + |pattern|] == pattern
  }

  /** `text.rfind(pattern, floor, ceiling)`: the latest occurrence that starts at or after floor and ends by ceiling. */
  function RFind(text: string, pattern: string, floor: nat, ceiling: nat): (i: int)
    ensures i == -1 || (floor <= i && i + |pattern| <= ceiling && OccursAt(text, pattern, i))
    ensures forall j :: Max(i + 1, floor) <= j && j + |pattern| <= ceiling ==> !OccursAt(text, pattern, j)
    decreases ceiling
  {
    if ceiling < floor + |pattern| then -1
    else if OccursAt(text, pattern, ceiling - |pattern|) then ceiling - |pattern|
    else if ceiling == 0 then -1
    else RFind(text, pattern, floor, ceiling - 1)
  }

  /** The first boundary, in order of preference, that occurs after floor; the cut falls behind it. */
  function CutAt(text: string, boundaries: seq<string>, floor: nat, ceiling: nat): (end: nat)
    ensures end == ceiling || floor < end <= ceiling
  {
    if boundaries == [] then ceiling
    else
      var found := RFind(text, boundaries[0], floor, ceiling);
      if found > floor then found + |boundaries[0]| else CutAt(text, boundaries[1..], floor, ceiling)
  }

  /** The pattern occurs at i, after floor and up to ceiling. */
  ghost predicate Between(text: string, pattern: string, floor: nat, ceiling: nat, i: int)
  {
    floor < i && i + |pattern| <= ceiling && OccursAt(text, pattern, i)
  }

  ghost predicate Present(text: string, pattern: string, floor: nat, ceiling: nat)
  {
    exists i :: Between(text, pattern, floor, ceiling, i)
  }

  lemma FoundExactly(text: string, pattern: string, floor: nat, ceiling: nat)
    ensures Present(text, pattern, floor, ceiling) <==> RFind(text, pattern, floor, ceiling) > floor
  {
    var found := RFind(text, pattern, floor, ceiling);
    if found > floor {
      assert Between(text, pattern, floor, ceiling, found);
    }
  }

  /** i is the latest place where the pattern occurs there. */
  ghost predicate Latest(text: string, pattern: string, floor: nat, ceiling: nat, i: int)
  {
    Between(text, pattern, floor, ceiling, i) && forall j :: Between(text, pattern, floor, ceiling, j) ==> j <= i
  }

  /** The cut falls behind the latest occurrence of the first kind of boundary that is present at all; else at the ceiling. */
  lemma {:induction false} CutExact(text: string, boundaries: seq<string>, floor: nat, ceiling: nat, k: nat)
    requires k <= |boundaries| && forall j :: 0 <= j < k ==> !Present(text, boundaries[j], floor, ceiling)
    requires k < |boundaries| ==> Present(text, boundaries[k], floor, ceiling)
    ensures var end := CutAt(text, boundaries, floor, ceiling);
            if k < |boundaries| then Latest(text, boundaries[k], floor, ceiling, end - |boundaries[k]|) else end == ceiling
  {
    if boundaries != [] {
      FoundExactly(text, boundaries[0], floor, ceiling);
      if k > 0 {
        CutExact(text, boundaries[1..], floor, ceiling, k - 1);
      }
    }
  }

  function Stride(maxChars: nat, overlap: nat): (n: nat)
    ensures 1 <= n && n / 2 <= maxChars
  {
    Max(Max(maxChars - overlap, maxChars / 2), 1)
  }

  /** Where a window starting at `start` ends. */
  function EndOf(text: string, maxChars: nat, overlap: nat, start: nat): (end: nat)
    requires start <= |text|
    ensures start <= end <= |text| && end <= start + maxChars
  {
    var ceiling: nat := Min(start + maxChars, |text|);
    if ceiling == |text| then ceiling
    else CutAt(text, BOUNDARIES, start + Stride(maxChars, overlap) / 2, ceiling)
  }

  /** The shortest a window can be, unless it reaches the end of the text. */
  function Shortest(maxChars: nat, overlap: nat): (n: int)
  {
    Min(maxChars, Stride(maxChars, overlap) / 2 + 2)
  }

  ghost predicate BoundariesNonEmpty(boundaries: seq<string>)
  {
    forall i :: 0 <= i < |boundaries| ==> boundaries[i] != ""
  }

  lemma {:induction false} CutBeyond(text: string, boundaries: seq<string>, floor: nat, ceiling: nat)
    requires BoundariesNonEmpty(boundaries)
    ensures CutAt(text, boundaries, floor, ceiling) >= Min(ceiling, floor + 2)
  {
    if boundaries != [] && RFind(text, boundaries[0], floor, ceiling) <= floor {
      CutBeyond(text, boundaries[1..], floor, ceiling);
    }
  }

  lemma WindowLongEnough(text: string, maxChars: nat, overlap: nat, start: nat)
    requires start <= |text| && EndOf(text, maxChars, overlap, start) < |text|
    ensures EndOf(text, maxChars, overlap, start) >= start + Shortest(maxChars, overlap)
  {
    CutBeyond(text, BOUNDARIES, start + Stride(maxChars, overlap) / 2, Min(start + maxChars, |text|));
  }

  /** The k-th window: where it starts, given the one before it, and where it ends. */
  ghost predicate Linked(text: string, maxChars: nat, overlap: nat, ws: seq<Window>, k: nat)
    requires k < |ws|
  {
    && ws[k].start < |text| && ws[k].end == EndOf(text, maxChars, overlap, ws[k].start)
    && (k == 0 ==> ws[0].start == 0)
    && (k > 0 ==> ws[k - 1].end < |text| && ws[k].start == NextStart(ws[k - 1], overlap))
  }

  ghost predicate Chain(text: string, maxChars: nat, overlap: nat, ws: seq<Window>)
  {
    forall k :: 0 <= k < |ws| ==> Linked(text, maxChars, overlap, ws, k)
  }

  function NextStart(w: Window, overlap: nat): int { Max(w.end - overlap, w.start + 1) }

  lemma ChainGrows(text: string, maxChars: nat, overlap: nat, ws: seq<Window>, start: nat)
    requires Chain(text, maxChars, overlap, ws) && start < |text|
    requires if ws == [] then start == 0 else ws[|ws| - 1].end < |text| && start == NextStart(ws[|ws| - 1], overlap)
    ensures Chain(text, maxChars, overlap, ws + [Window(start, EndOf(text, maxChars, overlap, start))])
  {
    var more := ws + [Window(start, EndOf(text, maxChars, overlap, start))];
    forall k | 0 <= k < |more| ensures Linked(text, maxChars, overlap, more, k) {
      assert k < |ws| ==> Linked(text, maxChars, overlap, ws, k);
      assert 0 < k <= |ws| ==> more[k - 1] == ws[k - 1];
    }
  }

  /** A whole plan: one window when the text fits, otherwise a chain of windows to the end. */
  ghost predicate Planned(text: string, maxChars: nat, overlap: nat, ws: seq<Window>)
  {
    if |text| <= maxChars then ws == [Window(0, |text|)]
    else
      && Chain(text, maxChars, overlap, ws) && ws != []
      && (ws[|ws| - 1].end == |text| || NextStart(ws[|ws| - 1], overlap) >= |text|)
  }

  method PlanWindows(text: string, maxChars: nat, overlap: nat) returns (ws: seq<Window>)
    ensures Planned(text, maxChars, overlap, ws)
  {
    if |text| <= maxChars {
      return [Window(0, |text|)];
    }
    ws := [];
    var start := 0;
    while start < |text|
      invariant 0 <= start
      invariant Chain(text, maxChars, overlap, ws)
      invariant ws == [] ==> start == 0
      invariant ws != [] ==> ws[|ws| - 1].end < |text|
      invariant ws != [] ==> start == NextStart(ws[|ws| - 1], overlap)
      decreases |text| - start
    {
      var ceiling := Min(start + maxChars, |text|);
      var end := if ceiling == |text| then ceiling
                 else CutAt(text, BOUNDARIES, start + Stride(maxChars, overlap) / 2, ceiling);
      ChainGrows(text, maxChars, overlap, ws, start);
      ws := ws + [Window(start, end)];
      if end >= |text| { break; }
      start := Max(end - overlap, start + 1);
    }
  }

  // ------------------------------------------------------ what a plan gives

  ghost predicate InWindow(w: Window, a: nat, b: nat) { w.start <= a && b <= w.end }

  /** Every start lies beyond the one before it. */
  lemma {:induction false} StartsIncrease(text: string, maxChars: nat, overlap: nat, ws: seq<Window>, i: nat, j: nat)
    requires Chain(text, maxChars, overlap, ws) && i < j < |ws|
    ensures ws[i].start < ws[j].start
    decreases j
  {
    assert Linked(text, maxChars, overlap, ws, j);
    if i < j - 1 {
      StartsIncrease(text, maxChars, overlap, ws, i, j - 1);
    }
  }

  /** With windows of at least one character, the last one reaches the end of the text. */
  lemma PlanReachesEnd(text: string, maxChars: nat, overlap: nat, ws: seq<Window>)
    requires Planned(text, maxChars, overlap, ws) && maxChars > 0
    ensures ws[|ws| - 1].end == |text|
  {
    if |text| > maxChars {
      var last := ws[|ws| - 1];
      assert Linked(text, maxChars, overlap, ws, |ws| - 1);
      if last.end < |text| {
        WindowLongEnough(text, maxChars, overlap, last.start);
      }
    }
  }

  /** The first window that ends behind b, or the last one. */
  lemma {:induction false} FirstBehind(text: string, maxChars: nat, overlap: nat, ws: seq<Window>, b: nat, from: nat) returns (k: nat)
    requires Planned(text, maxChars, overlap, ws) && maxChars > 0
    requires b <= |text| && from < |ws| && (from > 0 ==> ws[from - 1].end <= b)
    ensures k < |ws| && (ws[k].end > b || ws[k].end == |text|) && (k > 0 ==> ws[k - 1].end <= b)
    decreases |ws| - from
  {
    if ws[from].end > b || ws[from].end == |text| {
      k := from;
    } else {
      PlanReachesEnd(text, maxChars, overlap, ws);
      k := FirstBehind(text, maxChars, overlap, ws, b, from + 1);
    }
  }

  /** A detection that survives: whole inside the window and not up against a cut. */
  ghost predicate Survives(text: string, w: Window, a: nat, b: nat)
  {
    InWindow(w, a, b) && !(a == w.start && w.start > 0) && !(b == w.end && w.end < |text|)
  }

  /**
   * The promise of the overlap: an entity shorter than the overlap, and shorter than any window
   * by two characters, is whole inside some window, clear of its cuts.
   */
  lemma EntitySurvives(text: string, maxChars: nat, overlap: nat, ws: seq<Window>, a: nat, b: nat) returns (k: nat)
    requires Planned(text, maxChars, overlap, ws)
    requires a < b <= |text| && b - a < overlap && b - a + 2 <= Shortest(maxChars, overlap)
    ensures k < |ws| && Survives(text, ws[k], a, b)
  {
    k := FirstBehind(text, maxChars, overlap, ws, b, 0);
    if |text| > maxChars {
      assert Linked(text, maxChars, overlap, ws, k);
    }
    if k > 0 {
      assert Linked(text, maxChars, overlap, ws, k) && Linked(text, maxChars, overlap, ws, k - 1);
      WindowLongEnough(text, maxChars, overlap, ws[k - 1].start);
    }
  }

  /** Every character lies in some window, and no window is longer than allowed. */
  lemma PlanCovers(text: string, maxChars: nat, overlap: nat, ws: seq<Window>, i: nat) returns (k: nat)
    requires Planned(text, maxChars, overlap, ws) && maxChars > 0 && i < |text|
    ensures k < |ws| && InWindow(ws[k], i, i + 1) && ws[k].end - ws[k].start <= maxChars
  {
    k := FirstBehind(text, maxChars, overlap, ws, i, 0);
    if |text| > maxChars {
      assert Linked(text, maxChars, overlap, ws, k);
    }
    if k > 0 {
      assert Linked(text, maxChars, overlap, ws, k) && Linked(text, maxChars, overlap, ws, k - 1);
      WindowLongEnough(text, maxChars, overlap, ws[k - 1].start);
    }
  }

  /** With a maximum of zero every window is empty, so no character is looked at. */
  lemma ZeroCoversNothing(text: string, overlap: nat, ws: seq<Window>, k: nat, i: nat)
    requires Planned(text, 0, overlap, ws) && k < |ws|
    ensures !InWindow(ws[k], i, i + 1)
  {
    if |text| > 0 {
      assert Linked(text, 0, overlap, ws, k);
    }
  }

  // ---------------------------------------------------- why not any longer

  lemma NoBoundary(text: string, boundary: string, floor: nat, ceiling: nat)
    requires forall j :: floor <= j && j + |boundary| <= ceiling ==> !OccursAt(text, boundary, j)
    ensures RFind(text, boundary, floor, ceiling) == -1
  {
  }

  /** A text of one character throughout but for a space at one position. */
  ghost predicate Spaced(text: string, gap: int)
  {
    forall i :: 0 <= i < |text| ==> text[i] == if i == gap then ' ' else 'a'
  }

  lemma SpacedHas(text: string, gap: int, boundary: string, j: int)
    requires Spaced(text, gap) && boundary in BOUNDARIES && OccursAt(text, boundary, j)
    ensures boundary == " " && j == gap
  {
    var t := text[j..j + |boundary|];
    assert t[0] == text[j] && t == boundary;
    assert boundary != " " ==> |boundary| == 1 || |boundary| == 2;
  }

  lemma SpacedCut(text: string, gap: int, floor: nat, ceiling: nat)
    requires Spaced(text, gap) && ceiling <= |text|
    ensures CutAt(text, BOUNDARIES, floor, ceiling) == if floor < gap < ceiling then gap + 1 else ceiling
  {
    forall b, j | b in BOUNDARIES && b != " " && 0 <= j ensures !OccursAt(text, b, j) {
      if OccursAt(text, b, j) {
        SpacedHas(text, gap, b, j);
      }
    }
    OnlyTheSpace(text, gap, floor, ceiling);
  }

  lemma OnlyTheSpace(text: string, gap: int, floor: nat, ceiling: nat)
    requires Spaced(text, gap) && ceiling <= |text|
    requires forall b, j :: b in BOUNDARIES && b != " " && 0 <= j ==> !OccursAt(text, b, j)
    ensures CutAt(text, BOUNDARIES, floor, ceiling) == if floor < gap < ceiling then gap + 1 else ceiling
  {
    var first := BOUNDARIES[..4];
    assert BOUNDARIES == first + [" "];
    assert forall i :: 0 <= i < |first| ==> first[i] in BOUNDARIES && first[i] != " ";
    LastBoundary(text, first, floor, ceiling);
    SpaceFound(text, gap, floor, ceiling);
    assert [" "][1..] == [];
  }

  lemma {:induction false} LastBoundary(text: string, first: seq<string>, floor: nat, ceiling: nat)
    requires forall i, j :: 0 <= i < |first| && 0 <= j ==> !OccursAt(text, first[i], j)
    ensures CutAt(text, first + [" "], floor, ceiling) == CutAt(text, [" "], floor, ceiling)
  {
    if first == [] {
      assert first + [" "] == [" "];
    } else {
      assert (first + [" "])[0] == first[0] && (first + [" "])[1..] == first[1..] + [" "];
      NoBoundary(text, first[0], floor, ceiling);
      LastBoundary(text, first[1..], floor, ceiling);
    }
  }

  lemma SpaceFound(text: string, gap: int, floor: nat, ceiling: nat)
    requires Spaced(text, gap) && ceiling <= |text|
    ensures RFind(text, " ", floor, ceiling) == if floor <= gap < ceiling then gap else -1
  {
    var i := RFind(text, " ", floor, ceiling);
    if i != -1 {
      assert text[i..i + 1] == " " && text[i..i + 1][0] == text[i];
    }
    if floor <= gap < ceiling {
      assert text[gap..gap + 1] == " ";
      assert OccursAt(text, " ", gap);
    }
  }

  /** A plan for every text: the one the loop finds. */
  lemma {:induction false} PlanOn(text: string, maxChars: nat, overlap: nat, ws: seq<Window>, start: nat) returns (all: seq<Window>)
    requires |text| > maxChars && Chain(text, maxChars, overlap, ws) && start < |text|
    requires if ws == [] then start == 0 else ws[|ws| - 1].end < |text| && start == NextStart(ws[|ws| - 1], overlap)
    ensures Planned(text, maxChars, overlap, all)
    decreases |text| - start
  {
    var w := Window(start, EndOf(text, maxChars, overlap, start));
    ChainGrows(text, maxChars, overlap, ws, start);
    if w.end < |text| && NextStart(w, overlap) < |text| {
      all := PlanOn(text, maxChars, overlap, ws + [w], NextStart(w, overlap));
    } else {
      all := ws + [w];
    }
  }

  lemma PlanExists(text: string, maxChars: nat, overlap: nat) returns (ws: seq<Window>)
    ensures Planned(text, maxChars, overlap, ws)
  {
    if |text| <= maxChars {
      ws := [Window(0, |text|)];
    } else {
      ws := PlanOn(text, maxChars, overlap, [], 0);
    }
  }

  /** No window keeps an entity when the first window does not, and every other one starts at it or behind it. */
  lemma LostEverywhere(text: string, maxChars: nat, overlap: nat, ws: seq<Window>, a: nat, b: nat, k: nat)
    requires |text| > maxChars && Planned(text, maxChars, overlap, ws) && k < |ws|
    requires ws[0].end <= b && ws[0].end < |text| && a <= NextStart(ws[0], overlap)
    ensures !Survives(text, ws[k], a, b)
  {
    assert Linked(text, maxChars, overlap, ws, 0);
    if k > 0 {
      assert Linked(text, maxChars, overlap, ws, 1);
      if k > 1 {
        StartsIncrease(text, maxChars, overlap, ws, 1, k);
      }
    }
  }

  ghost predicate Lost(text: string, ws: seq<Window>, a: nat, b: nat)
  {
    forall k :: 0 <= k < |ws| ==> !Survives(text, ws[k], a, b)
  }

  /** An entity at least as long as the overlap, if a window can hold it at all, is lost in a solid text one character too long. */
  lemma OverlapIsSharp(text: string, maxChars: nat, overlap: nat, n: nat, ws: seq<Window>)
    requires overlap <= n <= maxChars && 0 < maxChars && |text| == maxChars + 1 && Spaced(text, -1)
    requires Planned(text, maxChars, overlap, ws)
    ensures Lost(text, ws, maxChars - n, maxChars)
  {
    SpacedCut(text, -1, Stride(maxChars, overlap) / 2, maxChars);
    assert Linked(text, maxChars, overlap, ws, 0);
    forall k | 0 <= k < |ws| ensures !Survives(text, ws[k], maxChars - n, maxChars) {
      LostEverywhere(text, maxChars, overlap, ws, maxChars - n, maxChars, k);
    }
  }

  /** An entity shorter than the overlap is lost when a space cuts the first window as short as can be, and the entity reaches the cut. */
  lemma ShortestIsSharp(text: string, maxChars: nat, overlap: nat, n: nat, ws: seq<Window>)
    requires 0 < n <= maxChars && n < overlap && n + 2 > Shortest(maxChars, overlap)
    requires |text| == maxChars + 1 && Spaced(text, Shortest(maxChars, overlap) - 1) && Planned(text, maxChars, overlap, ws)
    ensures Lost(text, ws, 1, 1 + n)
  {
    SpacedCut(text, Shortest(maxChars, overlap) - 1, Stride(maxChars, overlap) / 2, maxChars);
    assert Linked(text, maxChars, overlap, ws, 0);
    assert ws[0].end == Shortest(maxChars, overlap);
    forall k | 0 <= k < |ws| ensures !Survives(text, ws[k], 1, 1 + n) {
      LostEverywhere(text, maxChars, overlap, ws, 1, 1 + n, k);
    }
  }

  /** An entity longer than any window is lost in every text that is too long for one. */
  lemma TooLong(text: string, maxChars: nat, overlap: nat, ws: seq<Window>, a: nat, b: nat)
    requires a + maxChars < b <= |text| && Planned(text, maxChars, overlap, ws)
    ensures Lost(text, ws, a, b)
  {
    forall k | 0 <= k < |ws| ensures !Survives(text, ws[k], a, b) {
      assert Linked(text, maxChars, overlap, ws, k);
    }
  }

  /** Every entity of length n, anywhere in any text, is kept whole by every plan. */
  ghost predicate Keeps(maxChars: nat, overlap: nat, n: nat)
  {
    forall text: string, ws: seq<Window>, a: nat :: KeepsAt(maxChars, overlap, n, text, ws, a)
  }

  ghost predicate KeepsAt(maxChars: nat, overlap: nat, n: nat, text: string, ws: seq<Window>, a: nat)
  {
    Planned(text, maxChars, overlap, ws) && a + n <= |text| ==> !Lost(text, ws, a, a + n)
  }

  ghost function SpacedText(length: nat, gap: int): (text: string)
    ensures |text| == length && Spaced(text, gap)
  {
    seq(length, i => if i == gap then ' ' else 'a')
  }

  /** The smallest text that loses an entity of length n, when the lengths allow one to be lost. */
  lemma Loses(maxChars: nat, overlap: nat, n: nat) returns (text: string, ws: seq<Window>, a: nat)
    requires n > 0 && !(n < overlap && n + 2 <= Shortest(maxChars, overlap))
    ensures Planned(text, maxChars, overlap, ws) && a + n <= |text| && Lost(text, ws, a, a + n)
  {
    if n > maxChars {
      text, a := SpacedText(n, -1), 0;
      ws := PlanExists(text, maxChars, overlap);
      TooLong(text, maxChars, overlap, ws, 0, n);
    } else if n >= overlap {
      text, a := SpacedText(maxChars + 1, -1), maxChars - n;
      ws := PlanExists(text, maxChars, overlap);
      OverlapIsSharp(text, maxChars, overlap, n, ws);
    } else {
      text, a := SpacedText(maxChars + 1, Shortest(maxChars, overlap) - 1), 1;
      ws := PlanExists(text, maxChars, overlap);
      ShortestIsSharp(text, maxChars, overlap, n, ws);
    }
  }

  /**
   * When the planner keeps its promise, for every window size, every overlap and every length of
   * entity: exactly when the entity is shorter than the overlap, and by two than the shortest window.
   */
  lemma KeepsExactly(maxChars: nat, overlap: nat, n: nat)
    requires n > 0
    ensures Keeps(maxChars, overlap, n) <==> n < overlap && n + 2 <= Shortest(maxChars, overlap)
  {
    if n < overlap && n + 2 <= Shortest(maxChars, overlap) {
      forall text: string, ws: seq<Window>, a: nat ensures KeepsAt(maxChars, overlap, n, text, ws, a) {
        if Planned(text, maxChars, overlap, ws) && a + n <= |text| {
          var k := EntitySurvives(text, maxChars, overlap, ws, a, a + n);
        }
      }
    } else {
      var text, ws, a := Loses(maxChars, overlap, n);
      assert !KeepsAt(maxChars, overlap, n, text, ws, a);
    }
  }

  /** The same in the two settings alone: the window size and the overlap. */
  lemma KeepsInNumbers(maxChars: nat, overlap: nat, n: nat)
    requires n > 0
    ensures Keeps(maxChars, overlap, n) <==>
            n < overlap && n + 2 <= maxChars && (2 * n <= maxChars - overlap || 4 * n <= maxChars)
  {
    KeepsExactly(maxChars, overlap, n);
  }

  // ------------------------------------------------------- detection itself

  function Shifted(spans: seq<Span>, w: Window, length: nat): seq<Span>
  {
    if spans == [] then []
    else
      var s := spans[0];
      var touches := (s.start == 0 && w.start > 0) || (s.end == w.end - w.start && w.end < length);
      (if touches then [] else [s.(start := s.start + w.start, end := s.end + w.start)])
      + Shifted(spans[1..], w, length)
  }

  function Slice(text: string, w: Window): string { Drop(Take(text, w.end), w.start) }

  function DetectFrom(inner: string -> seq<Span>, text: string, ws: seq<Window>): seq<Span>
  {
    if ws == [] then []
    else Shifted(inner(Slice(text, ws[0])), ws[0], |text|) + DetectFrom(inner, text, ws[1..])
  }

  /** The wrapped detector: one call when the text fits, otherwise one per window. */
  function Detect(inner: string -> seq<Span>, text: string, ws: seq<Window>): seq<Span>
  {
    if |ws| == 1 then inner(text) else DetectFrom(inner, text, ws)
  }

  lemma {:induction false} ShiftedHas(spans: seq<Span>, w: Window, length: nat, s: Span)
    requires s in spans
    requires !(s.start == 0 && w.start > 0) && !(s.end == w.end - w.start && w.end < length)
    ensures s.(start := s.start + w.start, end := s.end + w.start) in Shifted(spans, w, length)
  {
    if s != spans[0] {
      ShiftedHas(spans[1..], w, length, s);
    }
  }

  lemma {:induction false} DetectHas(inner: string -> seq<Span>, text: string, ws: seq<Window>, k: nat, s: Span)
    requires k < |ws| && s in Shifted(inner(Slice(text, ws[k])), ws[k], |text|)
    ensures s in DetectFrom(inner, text, ws)
  {
    if k > 0 {
      DetectHas(inner, text, ws[1..], k - 1, s);
    }
  }

  /** The detection s comes from window w: reported by the inner detector for its text, moved back, and clear of its cuts. */
  ghost predicate FromWindow(inner: string -> seq<Span>, text: string, w: Window, s: Span)
    requires w.start <= w.end <= |text|
  {
    && w.start <= s.start && w.start <= s.end
    && s.(start := s.start - w.start, end := s.end - w.start) in inner(text[w.start..w.end])
    && (s.start == w.start ==> w.start == 0) && (s.end == w.end ==> w.end == |text|)
  }

  lemma {:induction false} ShiftedExact(spans: seq<Span>, w: Window, length: nat, s: Span)
    requires w.start <= w.end <= length
    ensures s in Shifted(spans, w, length) <==>
            && w.start <= s.start && w.start <= s.end && s.(start := s.start - w.start, end := s.end - w.start) in spans
            && (s.start == w.start ==> w.start == 0) && (s.end == w.end ==> w.end == length)
  {
    if spans != [] {
      ShiftedExact(spans[1..], w, length, s);
      assert spans == [spans[0]] + spans[1..];
    }
  }

  lemma SliceIs(text: string, w: Window)
    requires w.start <= w.end <= |text|
    ensures Slice(text, w) == text[w.start..w.end]
  {
  }

  lemma WindowExact(inner: string -> seq<Span>, text: string, w: Window, s: Span)
    requires w.start <= w.end <= |text|
    ensures s in Shifted(inner(Slice(text, w)), w, |text|) <==> FromWindow(inner, text, w, s)
  {
    SliceIs(text, w);
    ShiftedExact(inner(text[w.start..w.end]), w, |text|, s);
  }

  /** The wrapped detector reports exactly the detections of the windows that are clear of their cuts. */
  lemma {:induction false} DetectExact(inner: string -> seq<Span>, text: string, ws: seq<Window>, s: Span)
    requires forall k :: 0 <= k < |ws| ==> ws[k].start <= ws[k].end <= |text|
    ensures s in DetectFrom(inner, text, ws) <==> exists k :: 0 <= k < |ws| && FromWindow(inner, text, ws[k], s)
  {
    if ws != [] {
      WindowExact(inner, text, ws[0], s);
      DetectExact(inner, text, ws[1..], s);
      if k :| 0 <= k < |ws[1..]| && FromWindow(inner, text, ws[1..][k], s) {
        assert FromWindow(inner, text, ws[k + 1], s);
      }
      if k :| 0 <= k < |ws| && FromWindow(inner, text, ws[k], s) {
        assert k > 0 ==> FromWindow(inner, text, ws[1..][k - 1], s);
      }
    }
  }

  /** The inner detector reports the entity wherever its text stands in what it is given. */
  ghost predicate Finds(inner: string -> seq<Span>, value: string, s: Span)
  {
    forall t: string, i: nat :: OccursAt(t, value, i) ==> s.(start := i, end := i + |value|) in inner(t)
  }

  lemma SliceOfSlice(text: string, x: nat, y: nat, a: nat, b: nat)
    requires x <= a <= b <= y <= |text|
    ensures text[x..y][a - x..b - x] == text[a..b]
  {
    var inner := text[x..y];
    assert forall i :: a <= i < b ==> inner[i - x] == text[i];
  }

  lemma OccursInSlice(text: string, w: Window, a: nat, b: nat)
    requires InWindow(w, a, b) && a <= b && w.end <= |text|
    ensures OccursAt(Slice(text, w), text[a..b], a - w.start)
  {
    SliceIs(text, w);
    assert (a - w.start) + |text[a..b]| == b - w.start;
    SliceOfSlice(text, w.start, w.end, a, b);
  }

  lemma WindowsInside(text: string, maxChars: nat, overlap: nat, ws: seq<Window>, k: nat)
    requires Planned(text, maxChars, overlap, ws) && k < |ws|
    ensures ws[k].start <= ws[k].end <= |text|
  {
    if |text| > maxChars {
      assert Linked(text, maxChars, overlap, ws, k);
    }
  }

  lemma FoundAt(inner: string -> seq<Span>, value: string, s: Span, t: string, i: nat)
    requires Finds(inner, value, s) && OccursAt(t, value, i)
    ensures s.(start := i, end := i + |value|) in inner(t)
  {
  }

  lemma Reported(spans: seq<Span>, w: Window, length: nat, a: nat, b: nat, s: Span)
    requires w.start <= a < b && s.(start := a - w.start, end := b - w.start) in spans
    requires !(a == w.start && w.start > 0) && !(b == w.end && w.end < length)
    ensures s.(start := a, end := b) in Shifted(spans, w, length)
  {
    ShiftedHas(spans, w, length, s.(start := a - w.start, end := b - w.start));
  }

  lemma WindowReports(inner: string -> seq<Span>, text: string, w: Window, a: nat, b: nat, s: Span)
    requires a < b <= |text| && Finds(inner, text[a..b], s) && w.end <= |text| && Survives(text, w, a, b)
    ensures s.(start := a, end := b) in Shifted(inner(Slice(text, w)), w, |text|)
  {
    OccursInSlice(text, w, a, b);
    FoundAt(inner, text[a..b], s, Slice(text, w), a - w.start);
    Reported(inner(Slice(text, w)), w, |text|, a, b, s);
  }

  /** Splitting loses no entity within the promised length: it is reported at its place in the original. */
  lemma SplitDetects(
    inner: string -> seq<Span>, text: string, maxChars: nat, overlap: nat, ws: seq<Window>, a: nat, b: nat, s: Span)
    requires Planned(text, maxChars, overlap, ws) && a < b <= |text| && Finds(inner, text[a..b], s)
    requires b - a < overlap && b - a + 2 <= Shortest(maxChars, overlap)
    ensures s.(start := a, end := b) in Detect(inner, text, ws)
  {
    if |ws| == 1 {
      assert OccursAt(text, text[a..b], a);
    } else {
      var k := EntitySurvives(text, maxChars, overlap, ws, a, b);
      var w := ws[k];
      WindowsInside(text, maxChars, overlap, ws, k);
      WindowReports(inner, text, w, a, b, s);
      DetectHas(inner, text, ws, k, s.(start := a, end := b));
    }
  }
}
