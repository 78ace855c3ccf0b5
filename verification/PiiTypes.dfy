/** A detected occurrence; `start` and `end` always index the original text. */
module PiiTypes {
  import Sorting

  datatype Detector = RuleStage | NerStage

  datatype Span = Span(entity: string, start: nat, end: nat, score: real, detector: Detector)

  ghost predicate Inside(s: Span, text: string) { s.start < s.end <= |text| }

  function Take(text: string, n: nat): string { if n <= |text| then text[..n] else text }

  function Drop(text: string, n: nat): string { if n <= |text| then text[n..] else "" }

  /** `source[start:end]`, clamped to the text as slices are. */
  function TextFrom(s: Span, text: string): (v: string)
    ensures Inside(s, text) ==> v == text[s.start..s.end]
  {
    Drop(Take(text, s.end), s.start)
  }

  ghost predicate AllInside(spans: seq<Span>, text: string)
  {
    forall i :: 0 <= i < |spans| ==> Inside(spans[i], text)
  }

  predicate Overlaps(a: Span, b: Span) { a.start < b.end && b.start < a.end }

  ghost predicate Disjoint(spans: seq<Span>)
  {
    forall i, j :: 0 <= i < j < |spans| ==> !Overlaps(spans[i], spans[j])
  }

  /** Left to right without overlap. */
  ghost predicate Ascending(spans: seq<Span>)
  {
    forall i, j :: 0 <= i < j < |spans| ==> spans[i].end <= spans[j].start
  }

  predicate StartsBefore(a: Span, b: Span) { a.start <= b.start }

  function InOrder(spans: seq<Span>): seq<Span> { Sorting.Sorted(spans, StartsBefore) }

  lemma StartsBeforePreorder()
    ensures Sorting.Preorder(StartsBefore)
  {
  }

  lemma {:induction false} InsertDisjoint(x: Span, s: seq<Span>, before: (Span, Span) -> bool)
    requires Disjoint(s) && forall i :: 0 <= i < |s| ==> !Overlaps(x, s[i])
    ensures Disjoint(Sorting.Insert(x, s, before))
  {
    if s != [] && !before(x, s[0]) {
      var u := Sorting.Insert(x, s[1..], before);
      InsertDisjoint(x, s[1..], before);
      assert multiset(u) == multiset([x] + s[1..]);
      Sorting.SameElements(u, [x] + s[1..]);
      forall k | 0 <= k < |u| ensures !Overlaps(s[0], u[k]) {
        assert u[k] in [x] + s[1..];
        if u[k] != x {
          var j :| 0 <= j < |s[1..]| && s[1..][j] == u[k];
          assert s[j + 1] == u[k];
        }
      }
    }
  }

  lemma {:induction false} SortedDisjoint(spans: seq<Span>, before: (Span, Span) -> bool)
    requires Disjoint(spans)
    ensures Disjoint(Sorting.Sorted(spans, before))
  {
    if spans != [] {
      var rest := Sorting.Sorted(spans[1..], before);
      SortedDisjoint(spans[1..], before);
      Sorting.SameElements(rest, spans[1..]);
      forall i | 0 <= i < |rest| ensures !Overlaps(spans[0], rest[i]) {
        assert rest[i] in spans[1..];
        var j :| 0 <= j < |spans[1..]| && spans[1..][j] == rest[i];
        assert spans[j + 1] == rest[i];
      }
      InsertDisjoint(spans[0], rest, before);
    }
  }

  /** Disjoint detected spans, put in order, run left to right inside the text. */
  lemma InOrderAscends(text: string, spans: seq<Span>)
    requires AllInside(spans, text) && Disjoint(spans)
    ensures AllInside(InOrder(spans), text) && Ascending(InOrder(spans))
    ensures multiset(InOrder(spans)) == multiset(spans)
  {
    StartsBeforePreorder();
    Sorting.SortedIsSorted(spans, StartsBefore);
    SortedDisjoint(spans, StartsBefore);
    var t := InOrder(spans);
    Sorting.SameElements(t, spans);
    assert forall x :: x in spans ==> Inside(x, text);
    assert forall i :: 0 <= i < |t| ==> t[i] in spans;
  }
}
