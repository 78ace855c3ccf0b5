/**
 * Decoding what was encoded.  The tolerant pattern takes a backslash in front of a token for
 * markdown escaping and swallows it, so the round trip holds exactly when no reversible token
 * was placed right after a backslash of the source; everything else comes back unchanged.
 */
module PiiRoundTrip {
  import opened Text
  import opened PiiTypes
  import opened PiiGrammar
  import opened PiiCodec
  import Sorting

  // ------------------------------------------------ splicing and rendering

  /** The placements run left to right inside the text, from `pos` on. */
  ghost predicate Laid(text: string, ps: seq<Placement>, pos: nat)
    decreases |ps|
  {
    if ps == [] then pos <= |text|
    else pos <= ps[0].span.start < ps[0].span.end <= |text| && Laid(text, ps[1..], ps[0].span.end)
  }

  /** The encoded text, written left to right: source between tokens, token for span. */
  ghost function Render(text: string, ps: seq<Placement>, pos: nat): string
    requires Laid(text, ps, pos)
    decreases |ps|
  {
    if ps == [] then text[pos..]
    else text[pos..ps[0].span.start] + ps[0].token + Render(text, ps[1..], ps[0].span.end)
  }

  lemma {:induction false} LaidSnoc(text: string, qs: seq<Placement>, p: Placement, pos: nat)
    requires Laid(text, qs + [p], pos)
    ensures pos <= p.span.start < p.span.end <= |text|
    ensures qs != [] ==> (qs + [p])[1..] == qs[1..] + [p] && qs[0].span.end <= p.span.start
    decreases |qs|
  {
    if qs == [] {
      assert (qs + [p])[0] == p;
    } else {
      assert (qs + [p])[1..] == qs[1..] + [p];
      LaidSnoc(text, qs[1..], p, qs[0].span.end);
    }
  }

  ghost function CutOne(text: string, p: Placement): string
    requires p.span.start <= p.span.end <= |text|
  {
    text[..p.span.start] + p.token + text[p.span.end..]
  }

  lemma {:induction false} RenderSnoc(text: string, qs: seq<Placement>, p: Placement, pos: nat)
    requires Laid(text, qs + [p], pos)
    ensures p.span.start <= p.span.end <= |text|
    ensures Laid(CutOne(text, p), qs, pos)
    ensures Render(text, qs + [p], pos) == Render(CutOne(text, p), qs, pos)
    decreases |qs|
  {
    LaidSnoc(text, qs, p, pos);
    var cut := CutOne(text, p);
    if qs == [] {
      assert (qs + [p])[1..] == [];
      assert cut[pos..] == text[pos..p.span.start] + p.token + text[p.span.end..];
    } else {
      RenderSnoc(text, qs[1..], p, qs[0].span.end);
      assert cut[pos..qs[0].span.start] == text[pos..qs[0].span.start];
    }
  }

  /** Splicing right to left, as the code does, renders the text left to right. */
  lemma {:induction false} SpliceRenders(text: string, ps: seq<Placement>)
    requires Laid(text, ps, 0)
    ensures Splice(text, ps) == Render(text, ps, 0)
    decreases |ps|
  {
    if ps == [] {
      assert text[0..] == text;
    } else {
      var qs, p := ps[..|ps| - 1], ps[|ps| - 1];
      assert ps == qs + [p];
      RenderSnoc(text, qs, p, 0);
      SpliceRenders(CutOne(text, p), qs);
    }
  }

  // --------------------------------------------------- what decoding gives

  predicate EndsWithBackslash(s: string) { s != "" && s[|s| - 1] == '\\' }

  function DropBackslash(s: string): string { if EndsWithBackslash(s) then s[..|s| - 1] else s }

  ghost function Value(text: string, p: Placement): string
    requires Inside(p.span, text)
  {
    text[p.span.start..p.span.end]
  }

  /** What the round trip promises: the source, with masked entities left masked. */
  ghost function Restored(c: Codec, text: string, ps: seq<Placement>, pos: nat): string
    requires Laid(text, ps, pos)
    decreases |ps|
  {
    if ps == [] then text[pos..]
    else
      text[pos..ps[0].span.start]
      + (if c.Reversible(ps[0].span.entity) then Value(text, ps[0]) else ps[0].token)
      + Restored(c, text, ps[1..], ps[0].span.end)
  }

  /** What decoding produces: as above, less a backslash right before a reversible token. */
  ghost function Decoded(c: Codec, text: string, ps: seq<Placement>, pos: nat): string
    requires Laid(text, ps, pos)
    decreases |ps|
  {
    if ps == [] then text[pos..]
    else
      (if c.Reversible(ps[0].span.entity)
       then DropBackslash(text[pos..ps[0].span.start]) + Value(text, ps[0])
       else text[pos..ps[0].span.start] + ps[0].token)
      + Decoded(c, text, ps[1..], ps[0].span.end)
  }

  /** Reversible tokens placed right after a backslash that is not itself inside a span. */
  ghost function Swallowed(c: Codec, text: string, ps: seq<Placement>, pos: nat): nat
    requires Laid(text, ps, pos)
    decreases |ps|
  {
    if ps == [] then 0
    else
      (if c.Reversible(ps[0].span.entity) && EndsWithBackslash(text[pos..ps[0].span.start]) then 1 else 0)
      + Swallowed(c, text, ps[1..], ps[0].span.end)
  }

  lemma {:induction false} SwallowedShortens(c: Codec, text: string, ps: seq<Placement>, pos: nat)
    requires Laid(text, ps, pos)
    ensures |Decoded(c, text, ps, pos)| + Swallowed(c, text, ps, pos) == |Restored(c, text, ps, pos)|
    ensures Swallowed(c, text, ps, pos) == 0 ==> Decoded(c, text, ps, pos) == Restored(c, text, ps, pos)
    decreases |ps|
  {
    if ps != [] {
      SwallowedShortens(c, text, ps[1..], ps[0].span.end);
    }
  }

  lemma {:induction false} RestoredIsSource(c: Codec, text: string, ps: seq<Placement>, pos: nat)
    requires Laid(text, ps, pos)
    requires forall k :: 0 <= k < |ps| ==> c.Reversible(ps[k].span.entity)
    ensures Restored(c, text, ps, pos) == text[pos..]
    decreases |ps|
  {
    if ps != [] {
      RestoredIsSource(c, text, ps[1..], ps[0].span.end);
      var a, b := ps[0].span.start, ps[0].span.end;
      assert text[pos..] == text[pos..a] + text[a..b] + text[b..];
    }
  }

  /** Placements whose tokens were minted for this source and resolve to their values. */
  ghost predicate Resolvable(g: Grammar, c: Codec, text: string, ps: seq<Placement>, resolved: map<string, string>)
  {
    && CanonicalTokens(g, text) !! resolved.Keys
    && forall k :: 0 <= k < |ps| ==>
      && Knows(g, ps[k].span.entity)
      && Inside(ps[k].span, text)
      && (if c.Reversible(ps[k].span.entity)
          then && Recognised(g, ps[k].token)
               && ps[k].token in resolved && resolved[ps[k].token] == Value(text, ps[k])
          else ps[k].token == MintMasked(ps[k].span.entity))
  }

  /** One token, with the backslash in front of it if there is one. */
  lemma DecodeToken(
    g: Grammar, c: Codec, text: string, ps: seq<Placement>, resolved: map<string, string>, k: nat, lead: string)
    requires Resolvable(g, c, text, ps, resolved) && k < |ps| && (lead == "" || lead == "\\")
    ensures Decode(g, lead + ps[k].token, resolved)
         == if c.Reversible(ps[k].span.entity) then Value(text, ps[k]) else lead + ps[k].token
  {
    var p := ps[k];
    var s := lead + p.token;
    assert "" + p.token == p.token;
    if c.Reversible(p.span.entity) {
      if lead != "" {
        EscapedScan(g, p.token);
      } else {
        RecognisedScan(g, p.token);
      }
      assert Scan(g, s) == [Tok(s, p.token)];
      assert Resolve([Tok(s, p.token)], resolved) == resolved[p.token] + Resolve([], resolved);
    } else {
      MaskedScan(g, p.span.entity);
      DecodeUntouched(g, s, resolved);
    }
  }

  lemma TokenShape(c: Codec, g: Grammar, text: string, ps: seq<Placement>, resolved: map<string, string>, k: nat)
    requires Resolvable(g, c, text, ps, resolved) && k < |ps|
    ensures |ps[k].token| > 1 && ps[k].token[0] == '<' && ps[k].token[|ps[k].token| - 1] == '>'
  {
    if c.Reversible(ps[k].span.entity) {
      RecognisedShape(g, ps[k].token);
    }
  }

  function Lead(gap: string): string { if EndsWithBackslash(gap) then "\\" else "" }

  lemma CleanAroundToken(gap: string, token: string, rest: string)
    requires |token| > 1 && token[0] == '<' && token[|token| - 1] == '>'
    ensures CleanCut(DropBackslash(gap), (Lead(gap) + token) + rest)
    ensures CleanCut(Lead(gap) + token, rest)
    ensures gap + token + rest == DropBackslash(gap) + ((Lead(gap) + token) + rest)
  {
    var mid := Lead(gap) + token;
    assert mid[|mid| - 1] == '>';
    assert (mid + rest)[0] == mid[0] && (mid + rest)[1] == mid[1];
    assert gap == DropBackslash(gap) + Lead(gap);
  }

  /** A gap of the source, a token and what follows decode independently. */
  lemma DecodeThree(g: Grammar, gap: string, token: string, rest: string, resolved: map<string, string>)
    requires |token| > 1 && token[0] == '<' && token[|token| - 1] == '>'
    requires CanonicalTokens(g, DropBackslash(gap)) !! resolved.Keys
    ensures Decode(g, gap + token + rest, resolved)
         == DropBackslash(gap) + (Decode(g, Lead(gap) + token, resolved) + Decode(g, rest, resolved))
  {
    CleanAroundToken(gap, token, rest);
    DecodeSplits(g, DropBackslash(gap), (Lead(gap) + token) + rest, resolved);
    DecodeSplits(g, Lead(gap) + token, rest, resolved);
    DecodeUntouched(g, DropBackslash(gap), resolved);
  }

  lemma GapTokens(g: Grammar, text: string, pos: nat, start: nat)
    requires pos <= start <= |text|
    ensures CanonicalTokens(g, DropBackslash(text[pos..start])) <= CanonicalTokens(g, text)
  {
    var gap := text[pos..start];
    if EndsWithBackslash(gap) {
      assert gap[..|gap| - 1] == text[pos..start - 1];
      SubstringTokens(g, text, pos, start - 1);
    } else {
      SubstringTokens(g, text, pos, start);
    }
  }

  lemma Reattach(gap: string, token: string, rest: string)
    ensures DropBackslash(gap) + ((Lead(gap) + token) + rest) == (gap + token) + rest
  {
    assert gap == DropBackslash(gap) + Lead(gap);
  }

  lemma Regroup<T>(a: seq<T>, b: seq<T>, c: seq<T>)
    ensures a + (b + c) == (a + b) + c
  {
  }

  lemma DecodeFirst(
    g: Grammar, c: Codec, text: string, ps: seq<Placement>, pos: nat, rest: string, resolved: map<string, string>)
    requires Laid(text, ps, pos) && Resolvable(g, c, text, ps, resolved) && ps != []
    ensures Decode(g, text[pos..ps[0].span.start] + ps[0].token + rest, resolved)
         == (if c.Reversible(ps[0].span.entity)
             then DropBackslash(text[pos..ps[0].span.start]) + Value(text, ps[0])
             else text[pos..ps[0].span.start] + ps[0].token)
            + Decode(g, rest, resolved)
  {
    var p := ps[0];
    var gap := text[pos..p.span.start];
    GapTokens(g, text, pos, p.span.start);
    TokenShape(c, g, text, ps, resolved, 0);
    DecodeThree(g, gap, p.token, rest, resolved);
    DecodeToken(g, c, text, ps, resolved, 0, Lead(gap));
    if c.Reversible(p.span.entity) {
      Regroup(DropBackslash(gap), Value(text, p), Decode(g, rest, resolved));
    } else {
      Reattach(gap, p.token, Decode(g, rest, resolved));
    }
  }

  /** Exactly what decoding an encoded text gives, for every source and every placement. */
  lemma {:induction false} DecodeRendered(
    g: Grammar, c: Codec, text: string, ps: seq<Placement>, pos: nat, resolved: map<string, string>)
    requires Laid(text, ps, pos) && Resolvable(g, c, text, ps, resolved)
    ensures Decode(g, Render(text, ps, pos), resolved) == Decoded(c, text, ps, pos)
    decreases |ps|
  {
    if ps == [] {
      SubstringTokens(g, text, pos, |text|);
      assert text[pos..|text|] == text[pos..];
      DecodeUntouched(g, text[pos..], resolved);
    } else {
      DecodeRendered(g, c, text, ps[1..], ps[0].span.end, resolved);
      DecodeFirst(g, c, text, ps, pos, Render(text, ps[1..], ps[0].span.end), resolved);
    }
  }

  // ------------------------------------------------------ the whole batch

  lemma {:induction false} ForTextConcat(p: seq<Placement>, q: seq<Placement>, i: nat)
    ensures ForText(p + q, i) == ForText(p, i) + ForText(q, i)
  {
    if p == [] {
      assert p + q == q;
    } else {
      assert (p + q)[1..] == p[1..] + q && (p + q)[0] == p[0];
      ForTextConcat(p[1..], q, i);
      Regroup(if p[0].textIndex == i then [p[0]] else [], ForText(p[1..], i), ForText(q, i));
    }
  }

  lemma {:induction false} ForTextSame(ps: seq<Placement>, i: nat, j: nat)
    requires forall k :: 0 <= k < |ps| ==> ps[k].textIndex == j
    ensures ForText(ps, i) == if i == j then ps else []
  {
    if ps != [] {
      ForTextSame(ps[1..], i, j);
    }
  }

  ghost function PlacedIn(texts: seq<string>, located: seq<Located>, i: nat, byValue: map<(string, string), string>): seq<Placement>
  {
    ForText(Placed(texts, located, byValue), i)
  }

  lemma ForTextStep(
    texts: seq<string>, j: nat, spans: seq<Span>, later: seq<Located>, i: nat, byValue: map<(string, string), string>)
    ensures i == j ==>
              PlacedIn(texts, Tagged(j, spans) + later, i, byValue)
              == Placed(texts, Tagged(j, spans), byValue) + PlacedIn(texts, later, i, byValue)
    ensures i != j ==> PlacedIn(texts, Tagged(j, spans) + later, i, byValue) == PlacedIn(texts, later, i, byValue)
  {
    var here := Tagged(j, spans);
    PlacedConcat(texts, here, later, byValue);
    ForTextConcat(Placed(texts, here, byValue), Placed(texts, later, byValue), i);
    ForTextSame(Placed(texts, here, byValue), i, j);
  }

  lemma NoneLater(texts: seq<string>, own: seq<seq<Span>>, j: nat, i: nat, byValue: map<(string, string), string>)
    requires i < j <= |own|
    ensures PlacedIn(texts, LocateFrom(own, j), i, byValue) == []
    decreases |own| - j
  {
    if j < |own| {
      NoneLater(texts, own, j + 1, i, byValue);
      ForTextStep(texts, j, own[j], LocateFrom(own, j + 1), i, byValue);
    }
  }

  /** The placements of text i are its own spans, in order. */
  lemma {:induction false} ForTextLocated(
    texts: seq<string>, own: seq<seq<Span>>, j: nat, i: nat, byValue: map<(string, string), string>)
    requires j <= i < |own|
    ensures ForText(Placed(texts, LocateFrom(own, j), byValue), i) == Placed(texts, Tagged(i, own[i]), byValue)
    decreases i - j
  {
    ForTextStep(texts, j, own[j], LocateFrom(own, j + 1), i, byValue);
    assert LocateFrom(own, j) == Tagged(j, own[j]) + LocateFrom(own, j + 1);
    if j < i {
      ForTextLocated(texts, own, j + 1, i, byValue);
    } else {
      NoneLater(texts, own, j + 1, i, byValue);
    }
  }

  lemma {:induction false} AscendingIsLaid(text: string, ps: seq<Placement>, pos: nat)
    requires forall k :: 0 <= k < |ps| ==> Inside(ps[k].span, text)
    requires forall j, k :: 0 <= j < k < |ps| ==> ps[j].span.end <= ps[k].span.start
    requires if ps == [] then pos <= |text| else pos <= ps[0].span.start
    ensures Laid(text, ps, pos)
    decreases |ps|
  {
    if ps != [] {
      AscendingIsLaid(text, ps[1..], ps[0].span.end);
    }
  }

  ghost predicate SameTokenSameValue(c: Codec, texts: seq<string>, ps: seq<Placement>)
  {
    forall j, k ::
      (&& 0 <= j < |ps| && 0 <= k < |ps| && ps[j].token == ps[k].token
       && c.Reversible(ps[j].span.entity) && c.Reversible(ps[k].span.entity)) ==>
        ValueIn(texts, ps[j]) == ValueIn(texts, ps[k])
  }

  ghost function ValueIn(texts: seq<string>, p: Placement): string
  {
    Identity(texts, Located(p.textIndex, p.span)).1
  }

  lemma {:induction false} MappingHas(c: Codec, texts: seq<string>, ps: seq<Placement>, k: nat)
    requires SameTokenSameValue(c, texts, ps) && k < |ps| && c.Reversible(ps[k].span.entity)
    ensures ps[k].token in MappingOf(c, texts, ps)
    ensures MappingOf(c, texts, ps)[ps[k].token] == ValueIn(texts, ps[k])
    decreases |ps|
  {
    var last := |ps| - 1;
    if k < last {
      MappingHas(c, texts, ps[..last], k);
      assert ps[last].token == ps[k].token && c.Reversible(ps[last].span.entity) ==>
        ValueIn(texts, ps[last]) == ValueIn(texts, ps[k]);
    }
  }

  lemma {:induction false} MappingKeys(c: Codec, texts: seq<string>, ps: seq<Placement>, token: string)
    requires token in MappingOf(c, texts, ps)
    ensures exists k :: 0 <= k < |ps| && c.Reversible(ps[k].span.entity) && ps[k].token == token
    decreases |ps|
  {
    var last := |ps| - 1;
    if !(c.Reversible(ps[last].span.entity) && ps[last].token == token) {
      MappingKeys(c, texts, ps[..last], token);
      var k :| 0 <= k < last && c.Reversible(ps[k].span.entity) && ps[..last][k].token == token;
      assert ps[k].token == token;
    }
  }

  /** The state in which a successful encoding ends. */
  ghost function FinalState(g: Grammar, c: Codec, texts: seq<string>, spansByText: seq<seq<Span>>): (st: Assignment)
    requires |texts| == |spansByText| && EncodeBatch(g, c, texts, spansByText).Drafted?
  {
    AssignAll(c, texts, LocateFrom(OrderAll(spansByText), 0), AvoidIn(g, texts), Assignment(map[], map[], [])).state
  }

  lemma FinalFacts(g: Grammar, c: Codec, texts: seq<string>, spansByText: seq<seq<Span>>)
    requires |texts| == |spansByText| && EncodeBatch(g, c, texts, spansByText).Drafted?
    ensures var st := FinalState(g, c, texts, spansByText);
            && Consistent(c, AvoidIn(g, texts), st)
            && st.placements == Placed(texts, LocateFrom(OrderAll(spansByText), 0), st.byValue)
            && (forall k :: 0 <= k < |LocateFrom(OrderAll(spansByText), 0)| ==>
                  Identity(texts, LocateFrom(OrderAll(spansByText), 0)[k]) in st.byValue)
  {
    var empty := Assignment(map[], map[], []);
    AssignAllKeeps(c, texts, LocateFrom(OrderAll(spansByText), 0), AvoidIn(g, texts), empty);
    var st := FinalState(g, c, texts, spansByText);
    assert empty.placements + st.placements == st.placements;
  }

  /** Where a placement comes from: its token is the table's, for its own entity and value. */
  lemma PlacementToken(g: Grammar, c: Codec, texts: seq<string>, spansByText: seq<seq<Span>>, k: nat)
    requires |texts| == |spansByText| && EncodeBatch(g, c, texts, spansByText).Drafted?
    requires k < |FinalState(g, c, texts, spansByText).placements|
    ensures var st := FinalState(g, c, texts, spansByText);
            var p := st.placements[k];
            var id := (p.span.entity, ValueIn(texts, p));
            id in st.byValue && st.byValue[id] == p.token && TokenOf(c, AvoidIn(g, texts), st, id)
  {
    FinalFacts(g, c, texts, spansByText);
    var st := FinalState(g, c, texts, spansByText);
    var at := LocateFrom(OrderAll(spansByText), 0)[k];
    assert st.placements[k] == PlacedAt(texts, at, st.byValue);
    assert Identity(texts, at) in st.byValue;
  }

  /** Two mentions get one token exactly when they are the same value of the same entity type. */
  lemma SharedTokens(g: Grammar, c: Codec, texts: seq<string>, spansByText: seq<seq<Span>>, j: nat, k: nat)
    requires |texts| == |spansByText| && EncodeBatch(g, c, texts, spansByText).Drafted?
    requires var ps := EncodeBatch(g, c, texts, spansByText).draft.placements;
             j < |ps| && k < |ps| && c.Reversible(ps[j].span.entity) && c.Reversible(ps[k].span.entity)
    ensures var ps := EncodeBatch(g, c, texts, spansByText).draft.placements;
            ps[j].token == ps[k].token <==>
              ps[j].span.entity == ps[k].span.entity && ValueIn(texts, ps[j]) == ValueIn(texts, ps[k])
  {
    FinalFacts(g, c, texts, spansByText);
    PlacementToken(g, c, texts, spansByText, j);
    PlacementToken(g, c, texts, spansByText, k);
  }

  lemma MappingFacts(g: Grammar, c: Codec, texts: seq<string>, spansByText: seq<seq<Span>>)
    requires |texts| == |spansByText| && EncodeBatch(g, c, texts, spansByText).Drafted?
    ensures var d := EncodeBatch(g, c, texts, spansByText).draft;
            && SameTokenSameValue(c, texts, d.placements)
            && AvoidIn(g, texts) !! d.mapping.Keys
  {
    var d := EncodeBatch(g, c, texts, spansByText).draft;
    forall j, k | 0 <= j < |d.placements| && 0 <= k < |d.placements| && c.Reversible(d.placements[j].span.entity)
      && c.Reversible(d.placements[k].span.entity) && d.placements[j].token == d.placements[k].token
      ensures ValueIn(texts, d.placements[j]) == ValueIn(texts, d.placements[k])
    {
      SharedTokens(g, c, texts, spansByText, j, k);
    }
    forall token | token in d.mapping ensures token !in AvoidIn(g, texts) {
      MappingKeys(c, texts, d.placements, token);
      var k :| 0 <= k < |d.placements| && c.Reversible(d.placements[k].span.entity) && d.placements[k].token == token;
      PlacementToken(g, c, texts, spansByText, k);
    }
  }

  ghost predicate InVocabulary(g: Grammar, c: Codec, spansByText: seq<seq<Span>>)
  {
    forall i, k :: 0 <= i < |spansByText| && 0 <= k < |spansByText[i]| ==>
      Knows(g, spansByText[i][k].entity) && MintsKnown(g, c, spansByText[i][k].entity)
  }

  lemma InConcat<T>(a: seq<T>, b: seq<T>, x: T)
    requires x in a || x in b
    ensures x in a + b
  {
  }

  lemma {:induction false} LocatedHas(own: seq<seq<Span>>, j: nat, i: nat, at: Located)
    requires j <= i < |own| && at in Tagged(i, own[i])
    ensures at in LocateFrom(own, j)
    decreases |own| - j
  {
    if j < i {
      LocatedHas(own, j + 1, i, at);
    }
    InConcat(Tagged(j, own[j]), LocateFrom(own, j + 1), at);
  }

  /** The placements of one text of an encoded batch: its own spans, in order, each resolvable. */
  lemma TextPlacement(
    g: Grammar, c: Codec, texts: seq<string>, spansByText: seq<seq<Span>>, i: nat, k: nat)
    requires |texts| == |spansByText| && EncodeBatch(g, c, texts, spansByText).Drafted?
    requires i < |texts| && k < |InOrder(spansByText[i])|
    ensures var ps := ForText(EncodeBatch(g, c, texts, spansByText).draft.placements, i);
            var own := InOrder(spansByText[i])[k];
            && |ps| == |InOrder(spansByText[i])|
            && ps[k].span == own
            && ps[k].textIndex == i
            && ps[k] in EncodeBatch(g, c, texts, spansByText).draft.placements
  {
    var st := FinalState(g, c, texts, spansByText);
    FinalFacts(g, c, texts, spansByText);
    ForTextLocated(texts, OrderAll(spansByText), 0, i, st.byValue);
    var at := Located(i, InOrder(spansByText[i])[k]);
    assert Tagged(i, InOrder(spansByText[i]))[k] == at;
    LocatedHas(OrderAll(spansByText), 0, i, at);
    var m :| 0 <= m < |LocateFrom(OrderAll(spansByText), 0)| && LocateFrom(OrderAll(spansByText), 0)[m] == at;
    assert st.placements[m] == PlacedAt(texts, at, st.byValue);
  }

  lemma MintedIsKnown(g: Grammar, c: Codec, st: Assignment, id: (string, string))
    requires id in st.byValue && c.Reversible(id.0) && MintsKnown(g, c, id.0)
    requires id.0 in st.ordinals && MintedFor(c, st.byValue[id], id, st.ordinals[id.0])
    ensures Recognised(g, st.byValue[id])
  {
    var k: nat :| 1 <= k <= st.ordinals[id.0] && c.mint(Draw(id.0, k, id.1)) == Some(st.byValue[id]);
  }

  lemma ResolvablePlacement(g: Grammar, c: Codec, texts: seq<string>, spansByText: seq<seq<Span>>, p: Placement)
    requires |texts| == |spansByText| && EncodeBatch(g, c, texts, spansByText).Drafted?
    requires p in EncodeBatch(g, c, texts, spansByText).draft.placements
    requires p.textIndex < |texts| && Inside(p.span, texts[p.textIndex]) && MintsKnown(g, c, p.span.entity)
    ensures var d := EncodeBatch(g, c, texts, spansByText).draft;
            if c.Reversible(p.span.entity)
            then && Recognised(g, p.token)
                 && p.token in d.mapping && d.mapping[p.token] == Value(texts[p.textIndex], p)
            else p.token == MintMasked(p.span.entity)
  {
    var d := EncodeBatch(g, c, texts, spansByText).draft;
    var m :| 0 <= m < |d.placements| && d.placements[m] == p;
    PlacementToken(g, c, texts, spansByText, m);
    MappingFacts(g, c, texts, spansByText);
    if c.Reversible(p.span.entity) {
      MappingHas(c, texts, d.placements, m);
      MintedIsKnown(g, c, FinalState(g, c, texts, spansByText), (p.span.entity, ValueIn(texts, p)));
    }
  }

  /** The spans of one text's placements are its own, in order. */
  lemma TextSpans(g: Grammar, c: Codec, texts: seq<string>, spansByText: seq<seq<Span>>, i: nat)
    requires |texts| == |spansByText| && EncodeBatch(g, c, texts, spansByText).Drafted? && i < |texts|
    ensures |ForText(EncodeBatch(g, c, texts, spansByText).draft.placements, i)| == |InOrder(spansByText[i])|
  {
    ForTextLocated(texts, OrderAll(spansByText), 0, i, FinalState(g, c, texts, spansByText).byValue);
    FinalFacts(g, c, texts, spansByText);
  }

  lemma ResolvableInText(g: Grammar, c: Codec, texts: seq<string>, spansByText: seq<seq<Span>>, i: nat)
    requires WellDetected(texts, spansByText) && InVocabulary(g, c, spansByText)
    requires EncodeBatch(g, c, texts, spansByText).Drafted? && i < |texts|
    ensures var d := EncodeBatch(g, c, texts, spansByText).draft;
            Resolvable(g, c, texts[i], ForText(d.placements, i), d.mapping)
  {
    var d := EncodeBatch(g, c, texts, spansByText).draft;
    var own := InOrder(spansByText[i]);
    var ps := ForText(d.placements, i);
    MappingFacts(g, c, texts, spansByText);
    InOrderAscends(texts[i], spansByText[i]);
    Sorting.SameElements(own, spansByText[i]);
    TextSpans(g, c, texts, spansByText, i);
    forall k | 0 <= k < |ps|
      ensures Knows(g, ps[k].span.entity) && Inside(ps[k].span, texts[i])
      ensures if c.Reversible(ps[k].span.entity)
              then && Recognised(g, ps[k].token)
                   && ps[k].token in d.mapping && d.mapping[ps[k].token] == Value(texts[i], ps[k])
              else ps[k].token == MintMasked(ps[k].span.entity)
    {
      TextPlacement(g, c, texts, spansByText, i, k);
      assert own[k] in spansByText[i];
      ResolvablePlacement(g, c, texts, spansByText, ps[k]);
    }
  }

  lemma LaidInText(g: Grammar, c: Codec, texts: seq<string>, spansByText: seq<seq<Span>>, i: nat)
    requires WellDetected(texts, spansByText)
    requires EncodeBatch(g, c, texts, spansByText).Drafted? && i < |texts|
    ensures Laid(texts[i], ForText(EncodeBatch(g, c, texts, spansByText).draft.placements, i), 0)
  {
    var ps := ForText(EncodeBatch(g, c, texts, spansByText).draft.placements, i);
    var own := InOrder(spansByText[i]);
    InOrderAscends(texts[i], spansByText[i]);
    TextSpans(g, c, texts, spansByText, i);
    forall k | 0 <= k < |ps| ensures ps[k].span == own[k] {
      TextPlacement(g, c, texts, spansByText, i, k);
    }
    AscendingIsLaid(texts[i], ps, 0);
  }

  /** The spans of one text that decoding will mangle: reversible, right after an exposed backslash. */
  ghost predicate LosesBackslash(c: Codec, text: string, spans: seq<Span>)
  {
    exists s :: s in spans && ExposedBackslash(c, text, spans, s)
  }

  ghost predicate ExposedBackslash(c: Codec, text: string, spans: seq<Span>, s: Span)
  {
    && c.Reversible(s.entity)
    && 0 < s.start <= |text| && text[s.start - 1] == '\\'
    && forall t :: t in spans ==> t.end != s.start
  }

  lemma {:induction false} SwallowedWhere(c: Codec, text: string, ps: seq<Placement>, pos: nat)
    requires Laid(text, ps, pos)
    ensures Swallowed(c, text, ps, pos) > 0 <==>
            exists k :: 0 <= k < |ps| && SwallowedAt(c, text, ps, pos, k)
    decreases |ps|
  {
    if ps != [] {
      var rest, after := ps[1..], ps[0].span.end;
      SwallowedWhere(c, text, rest, after);
      var gap := text[pos..ps[0].span.start];
      assert EndsWithBackslash(gap) <==> pos < ps[0].span.start && text[ps[0].span.start - 1] == '\\';
      assert SwallowedAt(c, text, ps, pos, 0) <==> c.Reversible(ps[0].span.entity) && EndsWithBackslash(gap);
      forall k | 0 <= k < |rest| ensures SwallowedAt(c, text, rest, after, k) <==> SwallowedAt(c, text, ps, pos, k + 1) {
      }
      if exists k :: 0 <= k < |ps| && SwallowedAt(c, text, ps, pos, k) {
        var k :| 0 <= k < |ps| && SwallowedAt(c, text, ps, pos, k);
        if k > 0 {
          assert SwallowedAt(c, text, rest, after, k - 1);
        }
      }
    }
  }

  ghost predicate SwallowedAt(c: Codec, text: string, ps: seq<Placement>, pos: nat, k: nat)
    requires k < |ps|
  {
    var from := if k == 0 then pos else ps[k - 1].span.end;
    && c.Reversible(ps[k].span.entity)
    && from < ps[k].span.start <= |text| && text[ps[k].span.start - 1] == '\\'
  }

  lemma ExposedWhere(c: Codec, text: string, spans: seq<Span>, own: seq<Span>, ps: seq<Placement>, k: nat)
    requires k < |ps| == |own| && Ascending(own) && AllInside(own, text)
    requires forall s :: s in spans <==> s in own
    requires forall j :: 0 <= j < |ps| ==> ps[j].span == own[j]
    ensures SwallowedAt(c, text, ps, 0, k) <==> ExposedBackslash(c, text, spans, own[k])
  {
    if SwallowedAt(c, text, ps, 0, k) {
      forall t | t in spans ensures t.end != own[k].start {
        var j :| 0 <= j < |own| && own[j] == t;
        if j < k {
          assert own[j].end <= own[k - 1].end;
        }
      }
    }
    if ExposedBackslash(c, text, spans, own[k]) && k > 0 {
      assert own[k - 1] in spans && own[k - 1].end <= own[k].start;
    }
  }

  /** In terms of the detected spans: where a swallowed backslash comes from. */
  lemma SwallowedSpans(c: Codec, text: string, spans: seq<Span>, own: seq<Span>, ps: seq<Placement>)
    requires Laid(text, ps, 0) && |ps| == |own| && Ascending(own) && AllInside(own, text)
    requires forall s :: s in spans <==> s in own
    requires forall k :: 0 <= k < |ps| ==> ps[k].span == own[k]
    ensures Swallowed(c, text, ps, 0) > 0 <==> LosesBackslash(c, text, spans)
  {
    SwallowedWhere(c, text, ps, 0);
    forall k | 0 <= k < |ps| ensures SwallowedAt(c, text, ps, 0, k) <==> ExposedBackslash(c, text, spans, own[k]) {
      ExposedWhere(c, text, spans, own, ps, k);
    }
    if LosesBackslash(c, text, spans) {
      var s :| s in spans && ExposedBackslash(c, text, spans, s);
      var k :| 0 <= k < |own| && own[k] == s;
      assert SwallowedAt(c, text, ps, 0, k);
    }
    if Swallowed(c, text, ps, 0) > 0 {
      var k :| 0 <= k < |ps| && SwallowedAt(c, text, ps, 0, k);
      assert own[k] in spans;
    }
  }

  /** A text's tokens swallow a backslash exactly when its spans expose one. */
  lemma SwallowedInText(g: Grammar, c: Codec, texts: seq<string>, spansByText: seq<seq<Span>>, i: nat)
    requires WellDetected(texts, spansByText)
    requires EncodeBatch(g, c, texts, spansByText).Drafted? && i < |texts|
    requires Laid(texts[i], ForText(EncodeBatch(g, c, texts, spansByText).draft.placements, i), 0)
    ensures Swallowed(c, texts[i], ForText(EncodeBatch(g, c, texts, spansByText).draft.placements, i), 0) > 0
            <==> LosesBackslash(c, texts[i], spansByText[i])
  {
    var ps := ForText(EncodeBatch(g, c, texts, spansByText).draft.placements, i);
    InOrderAscends(texts[i], spansByText[i]);
    TextSpans(g, c, texts, spansByText, i);
    forall k | 0 <= k < |ps| ensures ps[k].span == InOrder(spansByText[i])[k] {
      TextPlacement(g, c, texts, spansByText, i, k);
    }
    Sorting.SameElements(InOrder(spansByText[i]), spansByText[i]);
    SwallowedSpans(c, texts[i], spansByText[i], InOrder(spansByText[i]), ps);
  }

  /**
   * The round trip, for every batch of texts, every disjoint detection and every choice of
   * actions: decoding an encoded text with the mapping it was encoded with gives back the
   * source with masked entities masked, if and only if no reversible span stands right after
   * a backslash that is not itself part of a span.
   */
  lemma RoundTrip(g: Grammar, c: Codec, texts: seq<string>, spansByText: seq<seq<Span>>, i: nat)
    requires WellDetected(texts, spansByText) && InVocabulary(g, c, spansByText)
    requires EncodeBatch(g, c, texts, spansByText).Drafted? && i < |texts|
    ensures var d := EncodeBatch(g, c, texts, spansByText).draft;
            var ps := ForText(d.placements, i);
            && Laid(texts[i], ps, 0) && d.texts[i] == Render(texts[i], ps, 0)
            && (Decode(g, d.texts[i], d.mapping) == Restored(c, texts[i], ps, 0)
                <==> !LosesBackslash(c, texts[i], spansByText[i]))
  {
    var d := EncodeBatch(g, c, texts, spansByText).draft;
    var ps := ForText(d.placements, i);
    LaidInText(g, c, texts, spansByText, i);
    SpliceRenders(texts[i], ps);
    ResolvableInText(g, c, texts, spansByText, i);
    DecodeRendered(g, c, texts[i], ps, 0, d.mapping);
    SwallowedShortens(c, texts[i], ps, 0);
    SwallowedInText(g, c, texts, spansByText, i);
  }

  lemma PlacementsReversible(g: Grammar, c: Codec, texts: seq<string>, spansByText: seq<seq<Span>>, i: nat, k: nat)
    requires |texts| == |spansByText| && EncodeBatch(g, c, texts, spansByText).Drafted? && i < |texts|
    requires forall s :: s in spansByText[i] ==> c.Reversible(s.entity)
    requires k < |ForText(EncodeBatch(g, c, texts, spansByText).draft.placements, i)|
    ensures c.Reversible(ForText(EncodeBatch(g, c, texts, spansByText).draft.placements, i)[k].span.entity)
  {
    TextSpans(g, c, texts, spansByText, i);
    TextPlacement(g, c, texts, spansByText, i, k);
    Sorting.SameElements(InOrder(spansByText[i]), spansByText[i]);
    assert InOrder(spansByText[i])[k] in spansByText[i];
  }

  lemma NothingMasked(g: Grammar, c: Codec, texts: seq<string>, spansByText: seq<seq<Span>>, i: nat)
    requires |texts| == |spansByText| && EncodeBatch(g, c, texts, spansByText).Drafted? && i < |texts|
    requires forall s :: s in spansByText[i] ==> c.Reversible(s.entity)
    requires Laid(texts[i], ForText(EncodeBatch(g, c, texts, spansByText).draft.placements, i), 0)
    ensures Restored(c, texts[i], ForText(EncodeBatch(g, c, texts, spansByText).draft.placements, i), 0) == texts[i]
  {
    var ps := ForText(EncodeBatch(g, c, texts, spansByText).draft.placements, i);
    forall k | 0 <= k < |ps| ensures c.Reversible(ps[k].span.entity) {
      PlacementsReversible(g, c, texts, spansByText, i, k);
    }
    RestoredIsSource(c, texts[i], ps, 0);
    assert texts[i][0..] == texts[i];
  }

  /** With nothing masked, the source text itself comes back, under the same condition. */
  lemma RoundTripWhole(g: Grammar, c: Codec, texts: seq<string>, spansByText: seq<seq<Span>>, i: nat)
    requires WellDetected(texts, spansByText) && InVocabulary(g, c, spansByText)
    requires EncodeBatch(g, c, texts, spansByText).Drafted? && i < |texts|
    requires forall s :: s in spansByText[i] ==> c.Reversible(s.entity)
    ensures var d := EncodeBatch(g, c, texts, spansByText).draft;
            Decode(g, d.texts[i], d.mapping) == texts[i] <==> !LosesBackslash(c, texts[i], spansByText[i])
  {
    RoundTrip(g, c, texts, spansByText, i);
    NothingMasked(g, c, texts, spansByText, i);
  }

  // ------------------------------------------------- the configured actions

  /** What is configured: the entity type's own action, else the default, is to mask. */
  ghost predicate ToBeMasked(c: AnyCodec, entity: string)
  {
    (entity in c.actions && c.actions[entity] == Mask) || (entity !in c.actions && c.defaultAction == Mask)
  }

  lemma MaskedNotRecognised(g: Grammar, entity: string)
    requires Knows(g, entity)
    ensures !Recognised(g, MintMasked(entity))
  {
    MaskedScan(g, entity);
    if Recognised(g, MintMasked(entity)) {
      RecognisedScan(g, MintMasked(entity));
    }
  }

  /** Every placement is of a span of its own text. */
  lemma PlacementSpan(g: Grammar, c: Codec, texts: seq<string>, spansByText: seq<seq<Span>>, k: nat)
    requires WellDetected(texts, spansByText) && InVocabulary(g, c, spansByText)
    requires EncodeBatch(g, c, texts, spansByText).Drafted?
    requires k < |EncodeBatch(g, c, texts, spansByText).draft.placements|
    ensures var p := EncodeBatch(g, c, texts, spansByText).draft.placements[k];
            && p.textIndex < |texts| && p.span in spansByText[p.textIndex] && Inside(p.span, texts[p.textIndex])
            && Knows(g, p.span.entity) && MintsKnown(g, c, p.span.entity)
  {
    var st := FinalState(g, c, texts, spansByText);
    FinalFacts(g, c, texts, spansByText);
    var at := LocateFrom(OrderAll(spansByText), 0)[k];
    assert st.placements[k] == PlacedAt(texts, at, st.byValue);
    LocatedInBatch(spansByText, at);
  }

  /** A token in the mapping stands for a span that is not to be masked, and for exactly its text. */
  lemma OnlyEncodedStored(g: Grammar, c: Codec, texts: seq<string>, spansByText: seq<seq<Span>>, token: string) returns (p: Placement)
    requires WellDetected(texts, spansByText) && InVocabulary(g, c, spansByText)
    requires EncodeBatch(g, c, texts, spansByText).Drafted?
    requires token in EncodeBatch(g, c, texts, spansByText).draft.mapping
    ensures var d := EncodeBatch(g, c, texts, spansByText).draft;
            && p in d.placements && p.token == token && !ToBeMasked(c, p.span.entity) && Recognised(g, token)
            && p.textIndex < |texts| && Inside(p.span, texts[p.textIndex])
            && d.mapping[token] == texts[p.textIndex][p.span.start..p.span.end]
  {
    var ps := EncodeBatch(g, c, texts, spansByText).draft.placements;
    MappingKeys(c, texts, ps, token);
    var k :| 0 <= k < |ps| && c.Reversible(ps[k].span.entity) && ps[k].token == token;
    p := ps[k];
    PlacementSpan(g, c, texts, spansByText, k);
    ResolvablePlacement(g, c, texts, spansByText, p);
  }

  /**
   * The configured action decides what becomes of every detected span: masked, it leaves the
   * bare name of its entity type and nothing in the mapping; otherwise its token is in the
   * mapping and stands for exactly the text that was detected.
   */
  lemma ActionsObeyed(g: Grammar, c: Codec, texts: seq<string>, spansByText: seq<seq<Span>>, k: nat)
    requires WellDetected(texts, spansByText) && InVocabulary(g, c, spansByText)
    requires EncodeBatch(g, c, texts, spansByText).Drafted?
    requires k < |EncodeBatch(g, c, texts, spansByText).draft.placements|
    ensures var d := EncodeBatch(g, c, texts, spansByText).draft;
            var p := d.placements[k];
            && p.textIndex < |texts| && p.span in spansByText[p.textIndex] && Inside(p.span, texts[p.textIndex])
            && if ToBeMasked(c, p.span.entity) then p.token == "<" + p.span.entity + ">" && p.token !in d.mapping
               else p.token in d.mapping && d.mapping[p.token] == texts[p.textIndex][p.span.start..p.span.end]
  {
    var d := EncodeBatch(g, c, texts, spansByText).draft;
    var p := d.placements[k];
    PlacementSpan(g, c, texts, spansByText, k);
    ResolvablePlacement(g, c, texts, spansByText, p);
    if ToBeMasked(c, p.span.entity) && p.token in d.mapping {
      MaskedNotRecognised(g, p.span.entity);
      var other := OnlyEncodedStored(g, c, texts, spansByText, p.token);
    }
  }

  // -------------------------------------------------- when encoding succeeds

  /** How many spans the texts from the i-th on have. */
  function SpanCount(spansByText: seq<seq<Span>>, i: nat): nat
    requires i <= |spansByText|
    decreases |spansByText| - i
  {
    if i == |spansByText| then 0 else |spansByText[i]| + SpanCount(spansByText, i + 1)
  }

  /** Every span uses up at most as many ordinals as there are attempts, so a batch tries none beyond this one. */
  function LastOrdinal(spansByText: seq<seq<Span>>): nat { MINT_ATTEMPT_LIMIT * SpanCount(spansByText, 0) }

  lemma {:induction false} LocatedCount(spansByText: seq<seq<Span>>, i: nat)
    requires i <= |spansByText|
    ensures |LocateFrom(OrderAll(spansByText), i)| == SpanCount(spansByText, i)
    decreases |spansByText| - i
  {
    if i < |spansByText| {
      LocatedCount(spansByText, i + 1);
      var spans := spansByText[i];
      assert |InOrder(spans)| == |multiset(InOrder(spans))| == |spans|;
      assert OrderAll(spansByText)[i] == InOrder(spans);
    }
  }

  /**
   * The codec does not refuse the value at any ordinal up to the last, and no two attempts in a
   * row of attempts get one token.
   */
  ghost predicate Tireless(c: AnyCodec, entity: string, value: string, last: nat)
  {
    && (forall k :: 1 <= k <= last ==> c.mint(Draw(entity, k, value)).Some?)
    && (forall j, k :: 1 <= j < k <= last && k < j + MINT_ATTEMPT_LIMIT ==>
          c.mint(Draw(entity, j, value)) != c.mint(Draw(entity, k, value)))
  }

  lemma PlaceholderTireless(actions: map<string, Action>, defaultAction: Action, entity: string, value: string, last: nat)
    ensures Tireless(Placeholder(actions, defaultAction), entity, value, last)
  {
    forall j: nat, k: nat | j < k ensures MintOrdinal(entity, j) != MintOrdinal(entity, k) {
      if MintOrdinal(entity, j) == MintOrdinal(entity, k) {
        MintInjective(entity, j, entity, k);
      }
    }
  }

  lemma {:induction false} DistinctTokens(c: Codec, d: Draw, count: nat, last: nat, avoid: set<string>)
    requires Tireless(c, d.entity, d.value, last) && c.Reversible(d.entity)
    requires 1 <= d.ordinal && count <= MINT_ATTEMPT_LIMIT && d.ordinal + count <= last + 1
    requires forall k :: d.ordinal <= k < d.ordinal + count ==> Taken(c, d.entity, d.value, k, avoid)
    ensures |avoid| >= count
    decreases count
  {
    if count > 0 {
      var final := d.ordinal + count - 1;
      assert Taken(c, d.entity, d.value, final, avoid);
      var token := c.mint(Draw(d.entity, final, d.value)).value;
      forall k | d.ordinal <= k < final ensures Taken(c, d.entity, d.value, k, avoid - {token}) {
        assert Taken(c, d.entity, d.value, k, avoid);
        assert c.mint(Draw(d.entity, k, d.value)) != c.mint(Draw(d.entity, final, d.value));
      }
      DistinctTokens(c, d, count - 1, last, avoid - {token});
    }
  }

  /** The entity is masked under a name no token spells, or its value minted without tiring. */
  ghost predicate CanMint(c: Codec, avoid: set<string>, id: (string, string), last: nat)
  {
    if c.Reversible(id.0) then Tireless(c, id.0, id.1, last) else MintMasked(id.0) !in avoid
  }

  lemma MintSucceeds(c: Codec, d: Draw, avoid: set<string>, last: nat)
    requires |avoid| < MINT_ATTEMPT_LIMIT && CanMint(c, avoid, (d.entity, d.value), last)
    requires 1 <= d.ordinal && d.ordinal + MINT_ATTEMPT_LIMIT <= last + 1
    ensures MintUnused(c, d, MINT_ATTEMPT_LIMIT, avoid).Minted?
  {
    if c.Reversible(d.entity) && MintUnused(c, d, MINT_ATTEMPT_LIMIT, avoid).Spent? {
      DistinctTokens(c, d, MINT_ATTEMPT_LIMIT, last, avoid);
    }
  }

  /** No entity type has got further than the given ordinal. */
  ghost predicate Within(st: Assignment, used: nat) { forall e :: e in st.ordinals ==> st.ordinals[e] <= used }

  lemma AssignOneWithin(c: Codec, texts: seq<string>, at: Located, avoid: set<string>, st: Assignment, used: nat)
    requires Within(st, used) && AssignOne(c, texts, at, avoid, st).Ok?
    ensures Within(AssignOne(c, texts, at, avoid, st).state, used + MINT_ATTEMPT_LIMIT)
  {
  }

  /** A batch of spans uses up at most as many ordinals as they have attempts together. */
  lemma {:induction false} AssignAllWithin(
    c: Codec, texts: seq<string>, located: seq<Located>, avoid: set<string>, st: Assignment, used: nat)
    requires Within(st, used)
    ensures var end := AssignAll(c, texts, located, avoid, st);
            end.Ok? ==> Within(end.state, used + MINT_ATTEMPT_LIMIT * |located|)
    decreases |located|
  {
    if located != [] {
      var next := AssignOne(c, texts, located[0], avoid, st);
      if next.Ok? {
        AssignOneWithin(c, texts, located[0], avoid, st, used);
        AssignAllWithin(c, texts, located[1..], avoid, next.state, used + MINT_ATTEMPT_LIMIT);
      }
    }
  }

  lemma AssignOneSucceeds(
    c: Codec, texts: seq<string>, at: Located, avoid: set<string>, st: Assignment, used: nat, last: nat)
    requires |avoid| < MINT_ATTEMPT_LIMIT && Within(st, used) && used + MINT_ATTEMPT_LIMIT <= last
    requires CanMint(c, avoid, Identity(texts, at), last)
    ensures AssignOne(c, texts, at, avoid, st).Ok?
  {
    var id := Identity(texts, at);
    assert id == (id.0, id.1);
    MintSucceeds(c, NextDraw(st, id), avoid, last);
  }

  /** Minting gives up only on a source that already spells out 64 tokens. */
  lemma {:induction false} AssignSucceeds(
    c: Codec, texts: seq<string>, located: seq<Located>, avoid: set<string>, st: Assignment, used: nat, last: nat)
    requires |avoid| < MINT_ATTEMPT_LIMIT && Within(st, used) && used + MINT_ATTEMPT_LIMIT * |located| <= last
    requires forall k :: 0 <= k < |located| ==> CanMint(c, avoid, Identity(texts, located[k]), last)
    ensures AssignAll(c, texts, located, avoid, st).Ok?
    decreases |located|
  {
    if located != [] {
      AssignOneSucceeds(c, texts, located[0], avoid, st, used, last);
      AssignOneWithin(c, texts, located[0], avoid, st, used);
      AssignSucceeds(
        c, texts, located[1..], avoid, AssignOne(c, texts, located[0], avoid, st).state, used + MINT_ATTEMPT_LIMIT, last);
    }
  }

  lemma {:induction false} LocatedFromSpans(own: seq<seq<Span>>, i: nat, at: Located)
    requires i <= |own| && at in LocateFrom(own, i)
    ensures at.textIndex < |own| && at.span in own[at.textIndex]
    decreases |own| - i
  {
    var here, later := Tagged(i, own[i]), LocateFrom(own, i + 1);
    if at in here {
      var k :| 0 <= k < |here| && here[k] == at;
      assert at.span == own[i][k];
    } else {
      assert at in later;
      LocatedFromSpans(own, i + 1, at);
    }
  }

  lemma LocatedInBatch(spansByText: seq<seq<Span>>, at: Located)
    requires at in LocateFrom(OrderAll(spansByText), 0)
    ensures at.textIndex < |spansByText| && at.span in spansByText[at.textIndex]
  {
    LocatedFromSpans(OrderAll(spansByText), 0, at);
    Sorting.SameElements(InOrder(spansByText[at.textIndex]), spansByText[at.textIndex]);
  }

  lemma {:induction false} MaskedNotAvoided(g: Grammar, texts: seq<string>, entity: string)
    requires Knows(g, entity)
    ensures MintMasked(entity) !in AvoidIn(g, texts)
  {
    if texts != [] {
      MaskedNotToken(g, texts[0], entity);
      MaskedNotAvoided(g, texts[1..], entity);
    }
  }

  /** The span's entity type is one the codec can mint for its value, or masked under a known label. */
  ghost predicate Encodable(g: Grammar, c: Codec, text: string, s: Span, last: nat)
  {
    if c.Reversible(s.entity) then Tireless(c, s.entity, TextFrom(s, text), last) else Knows(g, s.entity)
  }

  lemma LocatedCanMint(g: Grammar, c: Codec, texts: seq<string>, spansByText: seq<seq<Span>>, at: Located, last: nat)
    requires |texts| == |spansByText| && at in LocateFrom(OrderAll(spansByText), 0)
    requires forall i, s :: 0 <= i < |spansByText| && s in spansByText[i] ==> Encodable(g, c, texts[i], s, last)
    ensures CanMint(c, AvoidIn(g, texts), Identity(texts, at), last)
  {
    LocatedInBatch(spansByText, at);
    assert Encodable(g, c, texts[at.textIndex], at.span, last);
    if !c.Reversible(at.span.entity) {
      MaskedNotAvoided(g, texts, at.span.entity);
    }
  }

  /** Encoding succeeds on every source that spells fewer tokens than there are attempts, masked entities or not. */
  lemma EncodeSucceeds(g: Grammar, c: Codec, texts: seq<string>, spansByText: seq<seq<Span>>)
    requires |texts| == |spansByText| && |AvoidIn(g, texts)| < MINT_ATTEMPT_LIMIT
    requires forall i, s :: 0 <= i < |spansByText| && s in spansByText[i] ==>
               Encodable(g, c, texts[i], s, LastOrdinal(spansByText))
    ensures EncodeBatch(g, c, texts, spansByText).Drafted?
  {
    var located, last := LocateFrom(OrderAll(spansByText), 0), LastOrdinal(spansByText);
    forall k | 0 <= k < |located| ensures CanMint(c, AvoidIn(g, texts), Identity(texts, located[k]), last) {
      LocatedCanMint(g, c, texts, spansByText, located[k], last);
    }
    LocatedCount(spansByText, 0);
    AssignSucceeds(c, texts, located, AvoidIn(g, texts), Assignment(map[], map[], []), 0, last);
  }

  lemma MappedPlacement(g: Grammar, c: Codec, texts: seq<string>, spansByText: seq<seq<Span>>, token: string)
    returns (at: Located, k: nat)
    requires |texts| == |spansByText| && EncodeBatch(g, c, texts, spansByText).Drafted?
    requires token in EncodeBatch(g, c, texts, spansByText).draft.mapping
    ensures at in LocateFrom(OrderAll(spansByText), 0)
    ensures c.mint(Draw(at.span.entity, k, Identity(texts, at).1)) == Some(token)
    ensures var st := FinalState(g, c, texts, spansByText);
            at.span.entity in st.ordinals && 1 <= k <= st.ordinals[at.span.entity]
  {
    var st := FinalState(g, c, texts, spansByText);
    FinalFacts(g, c, texts, spansByText);
    MappingKeys(c, texts, st.placements, token);
    var m :| 0 <= m < |st.placements| && c.Reversible(st.placements[m].span.entity) && st.placements[m].token == token;
    PlacementToken(g, c, texts, spansByText, m);
    at := LocateFrom(OrderAll(spansByText), 0)[m];
    assert st.placements[m] == PlacedAt(texts, at, st.byValue);
    k :| 1 <= k <= st.ordinals[at.span.entity] && c.mint(Draw(at.span.entity, k, Identity(texts, at).1)) == Some(token);
  }

  lemma FinalWithin(g: Grammar, c: Codec, texts: seq<string>, spansByText: seq<seq<Span>>)
    requires |texts| == |spansByText| && EncodeBatch(g, c, texts, spansByText).Drafted?
    ensures Within(FinalState(g, c, texts, spansByText), LastOrdinal(spansByText))
  {
    AssignAllWithin(c, texts, LocateFrom(OrderAll(spansByText), 0), AvoidIn(g, texts), Assignment(map[], map[], []), 0);
    LocatedCount(spansByText, 0);
  }

  /** Where a token of the mapping comes from: minted for a span's entity type at an ordinal within the bound. */
  lemma MappedTokenMinted(g: Grammar, c: Codec, texts: seq<string>, spansByText: seq<seq<Span>>, token: string)
    returns (s: Span, d: Draw)
    requires |texts| == |spansByText| && EncodeBatch(g, c, texts, spansByText).Drafted?
    requires token in EncodeBatch(g, c, texts, spansByText).draft.mapping
    ensures exists i :: 0 <= i < |spansByText| && s in spansByText[i]
    ensures d.entity == s.entity && 1 <= d.ordinal <= LastOrdinal(spansByText) && c.mint(d) == Some(token)
  {
    var at, k := MappedPlacement(g, c, texts, spansByText, token);
    LocatedInBatch(spansByText, at);
    FinalWithin(g, c, texts, spansByText);
    s, d := at.span, Draw(at.span.entity, k, Identity(texts, at).1);
    assert s in spansByText[at.textIndex];
  }

  /** The codec refuses at ordinal k, and the source contains every token before it. */
  ghost predicate RefusedAt(c: Codec, d: Draw, k: nat, left: nat, avoid: set<string>)
  {
    && d.ordinal <= k < d.ordinal + left && c.Mint(Draw(d.entity, k, d.value)) == None
    && forall j :: d.ordinal <= j < k ==> Taken(c, d.entity, d.value, j, avoid)
  }

  ghost predicate AllTaken(c: Codec, d: Draw, left: nat, avoid: set<string>)
  {
    forall k :: d.ordinal <= k < d.ordinal + left ==> Taken(c, d.entity, d.value, k, avoid)
  }

  lemma {:induction false} MintOutcome(c: Codec, d: Draw, left: nat, avoid: set<string>)
    ensures MintUnused(c, d, left, avoid).Spent? <==> AllTaken(c, d, left, avoid)
    ensures MintUnused(c, d, left, avoid).Refused? <==> exists k :: RefusedAt(c, d, k, left, avoid)
    decreases left
  {
    if left > 0 {
      assert d == Draw(d.entity, d.ordinal, d.value);
      var next := d.(ordinal := d.ordinal + 1);
      if c.Mint(d).None? {
        assert RefusedAt(c, d, d.ordinal, left, avoid) && !Taken(c, d.entity, d.value, d.ordinal, avoid);
      } else if c.Mint(d).value in avoid {
        var less := left - 1;
        MintOutcome(c, next, less, avoid);
        assert Taken(c, d.entity, d.value, d.ordinal, avoid);
        if k :| RefusedAt(c, next, k, less, avoid) {
          assert RefusedAt(c, d, k, left, avoid);
        }
        if k :| RefusedAt(c, d, k, left, avoid) {
          assert RefusedAt(c, next, k, less, avoid);
        }
      } else {
        assert !Taken(c, d.entity, d.value, d.ordinal, avoid);
      }
    }
  }

  /**
   * How minting a span's token can fail, with 64 attempts from the next ordinal on: the source
   * contains every one of the 64 tokens, or the codec refuses before one is found that it lacks.
   */
  lemma MintFails(c: Codec, texts: seq<string>, at: Located, avoid: set<string>, st: Assignment)
    requires Identity(texts, at) !in st.byValue
    ensures var id, e := Identity(texts, at), AssignOne(c, texts, at, avoid, st);
            var d := NextDraw(st, id);
            && (e == Failed(TokenSpaceExhausted(id.0)) <==> AllTaken(c, d, 64, avoid))
            && (e == Failed(MintRefused(id.0)) <==> exists k :: RefusedAt(c, d, k, 64, avoid))
            && (e.Failed? ==> e.error in {TokenSpaceExhausted(id.0), MintRefused(id.0)})
  {
    MintOutcome(c, NextDraw(st, Identity(texts, at)), 64, avoid);
  }

  lemma NothingToAvoid(g: Grammar, text: string)
    requires '<' !in text
    ensures AvoidIn(g, [text]) == {}
  {
    NoOpenNoTokens(g, text);
    assert AvoidIn(g, [text][1..]) == {};
  }

  lemma OneSpanCount(span: Span)
    ensures LastOrdinal([[span]]) == MINT_ATTEMPT_LIMIT
  {
    assert SpanCount([[span]], 1) == 0;
  }

  /** A text with one span: encoded, and back again unless the span lost a backslash. */
  lemma OneSpan(g: Grammar, c: Codec, text: string, span: Span)
    requires Inside(span, text) && AvoidIn(g, [text]) == {}
    requires Knows(g, span.entity) && MintsKnown(g, c, span.entity) && c.Reversible(span.entity)
    requires Tireless(c, span.entity, TextFrom(span, text), MINT_ATTEMPT_LIMIT)
    ensures var e := EncodeBatch(g, c, [text], [[span]]);
            e.Drafted? && (Decode(g, e.draft.texts[0], e.draft.mapping) == text <==> !LosesBackslash(c, text, [span]))
  {
    OneSpanCount(span);
    EncodeSucceeds(g, c, [text], [[span]]);
    RoundTripWhole(g, c, [text], [[span]], 0);
  }

  lemma BackslashExposed(c: Codec, text: string, span: Span)
    requires text == "\\Ada" && span.start == 1 && span.end == 4 && c.Reversible(span.entity)
    ensures LosesBackslash(c, text, [span]) && TextFrom(span, text) == "Ada"
  {
    assert ExposedBackslash(c, text, [span], span);
  }

  /** The smallest loss: a name right after a backslash comes back without the backslash. */
  lemma BackslashLost(g: Grammar, c: Codec)
    requires Knows(g, "PERSON") && MintsKnown(g, c, "PERSON") && c.Reversible("PERSON")
    requires Tireless(c, "PERSON", "Ada", MINT_ATTEMPT_LIMIT)
    ensures var texts, spans := ["\\Ada"], [[Span("PERSON", 1, 4, 1.0, NerStage)]];
            var e := EncodeBatch(g, c, texts, spans);
            e.Drafted? && Decode(g, e.draft.texts[0], e.draft.mapping) != texts[0]
  {
    var text, span := "\\Ada", Span("PERSON", 1, 4, 1.0, NerStage);
    NothingToAvoid(g, text);
    BackslashExposed(c, text, span);
    OneSpan(g, c, text, span);
  }

  /** A token whose entity type is outside the vocabulary is never decoded, whatever is stored. */
  lemma UnknownEntityStays(g: Grammar, entity: string, n: nat, resolved: map<string, string>)
    requires forall i :: 0 <= i < |entity| ==> !IsBracket(entity[i])
    requires g.read(entity + "_" + Decimal(n)).None?
    ensures Decode(g, MintOrdinal(entity, n), resolved) == MintOrdinal(entity, n)
  {
    var body := entity + "_" + Decimal(n);
    var t := MintOrdinal(entity, n);
    assert t == "<" + body + ">";
    NoBracketBefore(t, body);
    var rest := t[1..];
    assert rest == body + ">" && '<' !in rest;
    NoOpenNoTokens(g, rest);
    assert MatchAt(g, t).None?;
    DecodeUntouched(g, t, resolved);
  }
}
