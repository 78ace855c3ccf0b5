/** The parts put together: raw detections merged, encoded, sent to a model, streamed back and decoded. */
module PiiEndToEnd {
  import opened Text
  import opened PiiTypes
  import opened PiiGrammar
  import opened PiiCodec
  import opened PiiRoundTrip
  import opened PiiPattern
  import PiiSpans
  import PiiStream
  import Piecewise

  function MergeAll(space: PiiSpans.Space, texts: seq<string>, raw: seq<seq<Span>>): (merged: seq<seq<Span>>)
    requires |texts| == |raw|
    ensures |merged| == |texts|
  {
    seq(|texts|, i requires 0 <= i < |texts| => PiiSpans.MergeSpans(space, texts[i], raw[i]))
  }

  /** Whatever the detectors report inside the texts, merging makes it fit for encoding. */
  lemma MergedIsWellDetected(space: PiiSpans.Space, texts: seq<string>, raw: seq<seq<Span>>)
    requires |texts| == |raw| && forall i :: 0 <= i < |texts| ==> AllInside(raw[i], texts[i])
    ensures WellDetected(texts, MergeAll(space, texts, raw))
  {
    forall i | 0 <= i < |texts|
      ensures AllInside(MergeAll(space, texts, raw)[i], texts[i]) && Disjoint(MergeAll(space, texts, raw)[i])
    {
      PiiSpans.MergedIsWellDetected(space, texts[i], raw[i]);
    }
  }

  /** From raw detections to decoded text: the source comes back unless a span lost the backslash in front of it. */
  lemma MergedRoundTrip(
    space: PiiSpans.Space, g: Grammar, c: Codec, texts: seq<string>, raw: seq<seq<Span>>, i: nat)
    requires |texts| == |raw| && forall k :: 0 <= k < |texts| ==> AllInside(raw[k], texts[k])
    requires InVocabulary(g, c, MergeAll(space, texts, raw)) && i < |texts|
    requires EncodeBatch(g, c, texts, MergeAll(space, texts, raw)).Drafted?
    requires forall s :: s in MergeAll(space, texts, raw)[i] ==> c.Reversible(s.entity)
    ensures var d := EncodeBatch(g, c, texts, MergeAll(space, texts, raw)).draft;
            Decode(g, d.texts[i], d.mapping) == texts[i]
            <==> !LosesBackslash(c, texts[i], MergeAll(space, texts, raw)[i])
  {
    MergedIsWellDetected(space, texts, raw);
    RoundTripWhole(g, c, texts, MergeAll(space, texts, raw), i);
  }

  // ----------------------------------------------- the repository's codecs

  ghost predicate Labelled(r: Rules, spansByText: seq<seq<Span>>)
  {
    forall i, k :: 0 <= i < |spansByText| && 0 <= k < |spansByText[i]| ==> spansByText[i][k].entity in r.labels
  }

  /** Placeholders for the labels of the vocabulary meet every condition of the results above. */
  lemma PlaceholderFits(r: Rules, actions: map<string, Action>, defaultAction: Action, spansByText: seq<seq<Span>>)
    requires PiiPattern.Sound(r) && Labelled(r, spansByText)
    ensures Distinguishes(Placeholder(actions, defaultAction))
    ensures InVocabulary(Tolerant(r), Placeholder(actions, defaultAction), spansByText)
  {
    PlaceholderDistinguishes(actions, defaultAction);
    forall i, k | 0 <= i < |spansByText| && 0 <= k < |spansByText[i]|
      ensures Knows(Tolerant(r), spansByText[i][k].entity)
           && MintsKnown(Tolerant(r), Placeholder(actions, defaultAction), spansByText[i][k].entity)
    {
      PatternKnows(r, spansByText[i][k].entity);
      PlaceholderMintsKnown(Tolerant(r), actions, defaultAction, spansByText[i][k].entity);
    }
  }

  /** A drawn handle is made of handle characters, without colon or bracket. */
  ghost predicate PlainHandle(r: Rules, draw: Draw -> Option<string>, d: Draw)
  {
    draw(d).Some? ==> IsHandle(r, draw(d).value) && forall i :: 0 <= i < |draw(d).value| ==> !IsBracket(draw(d).value[i])
  }

  /**
   * So do handles, random or encrypted, as long as no two values draw one handle.  `draw` is partial:
   * it need only be defined on the draws that the batch makes, so handles of a fixed length will do.
   */
  lemma HandleFits(
    r: Rules, actions: map<string, Action>, defaultAction: Action, draw: Draw -> Option<string>, spansByText: seq<seq<Span>>)
    requires PiiPattern.Sound(r) && Labelled(r, spansByText)
    requires (forall a, b :: DrawsApart(draw, a, b)) && forall d :: PlainHandle(r, draw, d)
    ensures Distinguishes(HandleCodec(actions, defaultAction, draw))
    ensures InVocabulary(Tolerant(r), HandleCodec(actions, defaultAction, draw), spansByText)
  {
    HandleDistinguishes(actions, defaultAction, draw);
    forall i, k | 0 <= i < |spansByText| && 0 <= k < |spansByText[i]|
      ensures Knows(Tolerant(r), spansByText[i][k].entity)
           && MintsKnown(Tolerant(r), HandleCodec(actions, defaultAction, draw), spansByText[i][k].entity)
    {
      var entity := spansByText[i][k].entity;
      PatternKnows(r, entity);
      forall d: Draw | d.entity == entity && draw(d).Some? ensures Recognised(Tolerant(r), MintHandle(entity, draw(d).value)) {
        assert PlainHandle(r, draw, d);
        PatternKnowsHandle(r, entity, draw(d).value);
      }
      HandleMintsKnown(Tolerant(r), actions, defaultAction, draw, entity);
    }
  }

  /** The draws a batch may make: for a value it holds, at an ordinal within the bound. */
  ghost predicate BatchDraw(texts: seq<string>, spansByText: seq<seq<Span>>, d: Draw)
    requires |texts| == |spansByText|
  {
    && 1 <= d.ordinal <= LastOrdinal(spansByText)
    && exists i, s :: 0 <= i < |spansByText| && s in spansByText[i] && d.entity == s.entity && d.value == TextFrom(s, texts[i])
  }

  ghost function OnBatch(draw: Draw -> string, texts: seq<string>, spansByText: seq<seq<Span>>): Draw -> Option<string>
    requires |texts| == |spansByText|
  {
    (d: Draw) => if BatchDraw(texts, spansByText, d) then Some(draw(d)) else None
  }

  /** What a batch needs of its random handles: plain, short enough, and no handle drawn twice. */
  ghost predicate GoodHandles(r: Rules, draw: Draw -> string, texts: seq<string>, spansByText: seq<seq<Span>>)
    requires |texts| == |spansByText|
  {
    && (forall d :: BatchDraw(texts, spansByText, d) ==>
          && IsHandle(r, draw(d)) && |draw(d)| <= PiiStream.MAX_DISCRIMINATOR_LENGTH
          && (forall i :: 0 <= i < |draw(d)| ==> !IsBracket(draw(d)[i]) && draw(d)[i] != ':'))
    && (forall a, b :: BatchDraw(texts, spansByText, a) && BatchDraw(texts, spansByText, b) && draw(a) == draw(b) ==> a == b)
  }

  /** So handles of a fixed length, which cannot differ at every draw, fit a batch when they differ on its own draws. */
  lemma HandleFitsBatch(
    r: Rules, actions: map<string, Action>, defaultAction: Action, draw: Draw -> string,
    texts: seq<string>, spansByText: seq<seq<Span>>)
    requires PiiPattern.Sound(r) && Labelled(r, spansByText)
    requires |texts| == |spansByText| && GoodHandles(r, draw, texts, spansByText)
    ensures Distinguishes(HandleCodec(actions, defaultAction, OnBatch(draw, texts, spansByText)))
    ensures InVocabulary(Tolerant(r), HandleCodec(actions, defaultAction, OnBatch(draw, texts, spansByText)), spansByText)
  {
    var partial := OnBatch(draw, texts, spansByText);
    forall a, b ensures DrawsApart(partial, a, b) {
    }
    forall d ensures PlainHandle(r, partial, d) {
    }
    HandleFits(r, actions, defaultAction, partial, spansByText);
  }

  /** With placeholders, encoding succeeds on every source that spells fewer tokens than there are attempts. */
  lemma PlaceholderEncodes(
    r: Rules, actions: map<string, Action>, defaultAction: Action, c: Codec, texts: seq<string>, spansByText: seq<seq<Span>>)
    requires PiiPattern.Sound(r) && Labelled(r, spansByText) && c == Placeholder(actions, defaultAction)
    requires |texts| == |spansByText| && |AvoidIn(Tolerant(r), texts)| < MINT_ATTEMPT_LIMIT
    ensures EncodeBatch(Tolerant(r), c, texts, spansByText).Drafted?
  {
    var last := LastOrdinal(spansByText);
    forall i, s | 0 <= i < |spansByText| && s in spansByText[i] ensures Encodable(Tolerant(r), c, texts[i], s, last) {
      var k :| 0 <= k < |spansByText[i]| && spansByText[i][k] == s;
      PatternKnows(r, s.entity);
      PlaceholderTireless(actions, defaultAction, s.entity, TextFrom(s, texts[i]), last);
    }
    EncodeSucceeds(Tolerant(r), c, texts, spansByText);
  }

  /** The draws that a batch may make for a value all give handles, no two attempts in a row the same. */
  ghost predicate DrawsOn(draw: Draw -> Option<string>, entity: string, value: string, last: nat)
  {
    && (forall k :: 1 <= k <= last ==> draw(Draw(entity, k, value)).Some?)
    && (forall j, k :: 1 <= j < k <= last && k < j + MINT_ATTEMPT_LIMIT ==>
          draw(Draw(entity, j, value)) != draw(Draw(entity, k, value)))
  }

  lemma HandleTireless(
    actions: map<string, Action>, defaultAction: Action, draw: Draw -> Option<string>, entity: string, value: string, last: nat)
    requires DrawsOn(draw, entity, value, last)
    ensures Tireless(HandleCodec(actions, defaultAction, draw), entity, value, last)
  {
    forall j, k | 1 <= j < k <= last && k < j + MINT_ATTEMPT_LIMIT
      ensures MintHandle(entity, draw(Draw(entity, j, value)).value) != MintHandle(entity, draw(Draw(entity, k, value)).value)
    {
      SameEntityHandles(entity, draw(Draw(entity, j, value)).value, draw(Draw(entity, k, value)).value);
    }
  }

  lemma SameEntityHandles(entity: string, a: string, b: string)
    ensures MintHandle(entity, a) == MintHandle(entity, b) ==> a == b
  {
    var from := 2 + |entity|;
    assert MintHandle(entity, a)[from..from + |a|] == a;
    assert MintHandle(entity, b)[from..from + |b|] == b;
  }

  /** And with handles, as long as drawing one for a span's value does not fail or repeat itself. */
  lemma HandleEncodes(
    r: Rules, actions: map<string, Action>, defaultAction: Action, draw: Draw -> Option<string>, c: Codec,
    texts: seq<string>, spansByText: seq<seq<Span>>)
    requires PiiPattern.Sound(r) && Labelled(r, spansByText) && c == HandleCodec(actions, defaultAction, draw)
    requires |texts| == |spansByText| && |AvoidIn(Tolerant(r), texts)| < MINT_ATTEMPT_LIMIT
    requires forall i, s :: 0 <= i < |spansByText| && s in spansByText[i] && c.Reversible(s.entity) ==>
               DrawsOn(draw, s.entity, TextFrom(s, texts[i]), LastOrdinal(spansByText))
    ensures EncodeBatch(Tolerant(r), c, texts, spansByText).Drafted?
  {
    var last := LastOrdinal(spansByText);
    forall i, s | 0 <= i < |spansByText| && s in spansByText[i] ensures Encodable(Tolerant(r), c, texts[i], s, last) {
      var k :| 0 <= k < |spansByText[i]| && spansByText[i][k] == s;
      PatternKnows(r, s.entity);
      if c.Reversible(s.entity) {
        HandleTireless(actions, defaultAction, draw, s.entity, TextFrom(s, texts[i]), last);
      }
    }
    EncodeSucceeds(Tolerant(r), c, texts, spansByText);
  }

  // ------------------------------------------- tokens within the holdback

  /** No token for the entity type at an ordinal up to the last exceeds what a stream holds back. */
  ghost predicate FitsHoldback(c: AnyCodec, entity: string, last: nat)
  {
    forall d: Draw :: d.entity == entity && d.ordinal <= last && c.mint(d).Some? ==>
      |c.mint(d).value| <= PiiStream.MAX_TOKEN_LENGTH
  }

  lemma TokensFit(g: Grammar, c: Codec, texts: seq<string>, spansByText: seq<seq<Span>>, token: string)
    requires |texts| == |spansByText| && EncodeBatch(g, c, texts, spansByText).Drafted?
    requires forall i, s :: 0 <= i < |spansByText| && s in spansByText[i] ==> FitsHoldback(c, s.entity, LastOrdinal(spansByText))
    requires token in EncodeBatch(g, c, texts, spansByText).draft.mapping
    ensures |token| <= PiiStream.MAX_TOKEN_LENGTH
  {
    var s, d := MappedTokenMinted(g, c, texts, spansByText, token);
    assert FitsHoldback(c, s.entity, LastOrdinal(spansByText));
  }

  /** The vocabulary that the holdback limit was computed from. */
  ghost predicate ShortLabels(r: Rules)
  {
    forall entity :: entity in r.labels ==> |entity| <= PiiStream.LONGEST_LABEL
  }

  /** Placeholders fit as long as the batch's last ordinal has no more digits than a discriminator may have. */
  lemma PlaceholderTokensFit(actions: map<string, Action>, defaultAction: Action, entity: string, last: nat)
    requires |entity| <= PiiStream.LONGEST_LABEL && |Decimal(last)| <= PiiStream.MAX_DISCRIMINATOR_LENGTH
    ensures FitsHoldback(Placeholder(actions, defaultAction), entity, last)
  {
    forall d: Draw | d.entity == entity && d.ordinal <= last
      ensures |MintOrdinal(d.entity, d.ordinal)| <= PiiStream.MAX_TOKEN_LENGTH
    {
      DecimalLengthMonotone(d.ordinal, last);
    }
  }

  lemma HandleTokensFit(
    r: Rules, actions: map<string, Action>, defaultAction: Action, draw: Draw -> string,
    texts: seq<string>, spansByText: seq<seq<Span>>, entity: string)
    requires |texts| == |spansByText| && GoodHandles(r, draw, texts, spansByText) && |entity| <= PiiStream.LONGEST_LABEL
    ensures FitsHoldback(HandleCodec(actions, defaultAction, OnBatch(draw, texts, spansByText)), entity, LastOrdinal(spansByText))
  {
    forall d: Draw | d.entity == entity && BatchDraw(texts, spansByText, d)
      ensures |MintHandle(d.entity, draw(d))| <= PiiStream.MAX_TOKEN_LENGTH
    {
    }
  }

  // ---------------------------------------------------- an echoed answer

  /** Every resolved token of the pieces is spelled as it was minted. */
  predicate Unescaped(pieces: seq<Piece>, resolved: map<string, string>)
  {
    forall k :: 0 <= k < |pieces| && pieces[k].Tok? && pieces[k].canonical in resolved ==> pieces[k].text == pieces[k].canonical
  }

  lemma {:induction false} CanonicalsHas(pieces: seq<Piece>, k: nat)
    requires k < |pieces| && pieces[k].Tok?
    ensures pieces[k].canonical in Canonicals(pieces)
  {
    if k > 0 {
      CanonicalsHas(pieces[1..], k - 1);
    }
  }

  lemma UnresolvedIsUnescaped(g: Grammar, s: string, resolved: map<string, string>)
    requires CanonicalTokens(g, s) !! resolved.Keys
    ensures Unescaped(Scan(g, s), resolved)
  {
    var pieces := Scan(g, s);
    forall k | 0 <= k < |pieces| && pieces[k].Tok? ensures pieces[k].canonical !in resolved {
      CanonicalsHas(pieces, k);
    }
  }

  lemma PlacedUnescaped(
    g: Grammar, c: Codec, text: string, ps: seq<Placement>, resolved: map<string, string>, k: nat, lead: string)
    requires Resolvable(g, c, text, ps, resolved) && k < |ps| && (lead == "" || lead == "\\")
    requires c.Reversible(ps[k].span.entity) ==> lead == ""
    ensures Unescaped(Scan(g, lead + ps[k].token), resolved)
  {
    var p := ps[k];
    assert "" + p.token == p.token;
    if c.Reversible(p.span.entity) {
      RecognisedScan(g, p.token);
    } else {
      MaskedScan(g, p.span.entity);
      UnresolvedIsUnescaped(g, lead + p.token, resolved);
    }
  }

  lemma ScanAroundToken(g: Grammar, gap: string, token: string, rest: string)
    requires |token| > 1 && token[0] == '<' && token[|token| - 1] == '>'
    ensures Scan(g, gap + token + rest) == Scan(g, DropBackslash(gap)) + (Scan(g, Lead(gap) + token) + Scan(g, rest))
  {
    CleanAroundToken(gap, token, rest);
    ScanSplits(g, DropBackslash(gap), (Lead(gap) + token) + rest);
    ScanSplits(g, Lead(gap) + token, rest);
  }

  lemma UnescapedConcat(a: seq<Piece>, b: seq<Piece>, c: seq<Piece>, resolved: map<string, string>)
    requires Unescaped(a, resolved) && Unescaped(b, resolved) && Unescaped(c, resolved)
    ensures Unescaped(a + (b + c), resolved)
  {
  }

  lemma {:induction false} RenderUnescaped(
    g: Grammar, c: Codec, text: string, ps: seq<Placement>, pos: nat, resolved: map<string, string>)
    requires Laid(text, ps, pos) && Resolvable(g, c, text, ps, resolved) && Swallowed(c, text, ps, pos) == 0
    ensures Unescaped(Scan(g, Render(text, ps, pos)), resolved)
    decreases |ps|
  {
    if ps == [] {
      SubstringTokens(g, text, pos, |text|);
      assert text[pos..|text|] == text[pos..];
      UnresolvedIsUnescaped(g, text[pos..], resolved);
    } else {
      var gap, rest := text[pos..ps[0].span.start], Render(text, ps[1..], ps[0].span.end);
      RenderUnescaped(g, c, text, ps[1..], ps[0].span.end, resolved);
      TokenShape(c, g, text, ps, resolved, 0);
      ScanAroundToken(g, gap, ps[0].token, rest);
      GapTokens(g, text, pos, ps[0].span.start);
      UnresolvedIsUnescaped(g, DropBackslash(gap), resolved);
      PlacedUnescaped(g, c, text, ps, resolved, 0, Lead(gap));
      UnescapedConcat(Scan(g, DropBackslash(gap)), Scan(g, Lead(gap) + ps[0].token), Scan(g, rest), resolved);
    }
  }

  lemma RestUnescaped(g: Grammar, resolved: map<string, string>, s: string)
    requires s != "" && Unescaped(Scan(g, s), resolved)
    ensures Unescaped(Scan(g, s[Advance(g, s)..]), resolved)
    ensures FirstPiece(g, s).Tok? && FirstPiece(g, s).canonical in resolved ==> FirstPiece(g, s).text == FirstPiece(g, s).canonical
  {
    var pieces, rest := Scan(g, s), Scan(g, s[Advance(g, s)..]);
    assert pieces == [FirstPiece(g, s)] + rest;
    assert forall k :: 0 <= k < |rest| ==> rest[k] == pieces[k + 1];
    assert pieces[0] == FirstPiece(g, s);
  }

  /** Wherever a piece starts, the text from there on spells its resolved tokens as minted. */
  lemma UnescapedFrom(g: Grammar, resolved: map<string, string>, s: string, c: nat)
    requires Piecewise.Total(PiiStream.DecodingOf(g, resolved)) && c <= |s| && Unescaped(Scan(g, s), resolved)
    ensures Unescaped(Scan(g, s[Piecewise.PieceStart(PiiStream.DecodingOf(g, resolved), s, c)..]), resolved)
  {
    var w := PiiStream.DecodingOf(g, resolved);
    var good := t => Unescaped(Scan(g, t), resolved);
    forall t ensures Piecewise.Inherits(w, good, t) {
      if t != "" && Unescaped(Scan(g, t), resolved) {
        RestUnescaped(g, resolved, t);
      }
    }
    Piecewise.AtEveryPiece(w, good, s, c);
  }

  lemma ChangedPiece(g: Grammar, resolved: map<string, string>, t: string)
    requires t != "" && Unescaped(Scan(g, t), resolved) && PiiStream.StepOf(g, resolved, t).changed
    ensures t[0] == '<' && FirstPiece(g, t).canonical in resolved
    ensures PiiStream.StepOf(g, resolved, t).length == |FirstPiece(g, t).canonical|
  {
    RestUnescaped(g, resolved, t);
    assert FirstPiece(g, t).text[0] == t[0];
  }

  lemma UnescapedCut(g: Grammar, resolved: map<string, string>, s: string, c: nat)
    requires c <= |s| && Unescaped(Scan(g, s), resolved)
    requires forall t :: t in resolved ==> |t| <= PiiStream.MAX_TOKEN_LENGTH
    ensures !PiiStream.CutsEscape(g, resolved, s, c) && PiiStream.TokenAt(g, resolved, s, c) <= PiiStream.MAX_TOKEN_LENGTH
  {
    PiiStream.DecodingTotal(g, resolved);
    var w := PiiStream.DecodingOf(g, resolved);
    if Piecewise.Splits(w, s, c) {
      var p := Piecewise.PieceStart(w, s, c);
      UnescapedFrom(g, resolved, s, c);
      ChangedPiece(g, resolved, s[p..]);
    }
  }

  /**
   * A model that echoes an encoded text gives the caller the source, with masked entities
   * masked, however the answer is cut into chunks and whichever chunks are sampled, as long as
   * no token is longer than the holdback: the promise of "every split point", end to end.
   */
  lemma EchoedStream(
    g: Grammar, c: Codec, texts: seq<string>, spansByText: seq<seq<Span>>, i: nat, chunks: seq<string>, sampled: seq<bool>)
    requires WellDetected(texts, spansByText) && InVocabulary(g, c, spansByText) && i < |texts|
    requires EncodeBatch(g, c, texts, spansByText).Drafted? && !LosesBackslash(c, texts[i], spansByText[i])
    requires forall t :: t in EncodeBatch(g, c, texts, spansByText).draft.mapping ==> |t| <= PiiStream.MAX_TOKEN_LENGTH
    requires |sampled| == |chunks| && PiiStream.Joined(chunks) == EncodeBatch(g, c, texts, spansByText).draft.texts[i]
    ensures var d := EncodeBatch(g, c, texts, spansByText).draft;
            var ps := ForText(d.placements, i);
            && Laid(texts[i], ps, 0)
            && PiiStream.Rounds(
                 PiiStream.Decoder(g, d.mapping), PiiStream.Joined(chunks), PiiStream.SampledCuts(chunks, sampled), "")
               == PiiStream.Sent(Restored(c, texts[i], ps, 0))
  {
    var d := EncodeBatch(g, c, texts, spansByText).draft;
    var s, cuts := PiiStream.Joined(chunks), PiiStream.SampledCuts(chunks, sampled);
    RoundTrip(g, c, texts, spansByText, i);
    EncodedUnescaped(g, c, texts, spansByText, i);
    forall k | 0 <= k < |cuts|
      ensures !PiiStream.CutsEscape(g, d.mapping, s, cuts[k])
           && PiiStream.TokenAt(g, d.mapping, s, cuts[k]) <= PiiStream.MAX_TOKEN_LENGTH
    {
      UnescapedCut(g, d.mapping, s, cuts[k]);
    }
    PiiStream.StreamAnySplit(g, s, cuts, d.mapping);
  }

  lemma EncodedUnescaped(g: Grammar, c: Codec, texts: seq<string>, spansByText: seq<seq<Span>>, i: nat)
    requires WellDetected(texts, spansByText) && InVocabulary(g, c, spansByText) && i < |texts|
    requires EncodeBatch(g, c, texts, spansByText).Drafted? && !LosesBackslash(c, texts[i], spansByText[i])
    ensures var d := EncodeBatch(g, c, texts, spansByText).draft;
            Unescaped(Scan(g, d.texts[i]), d.mapping)
  {
    var d := EncodeBatch(g, c, texts, spansByText).draft;
    var ps := ForText(d.placements, i);
    LaidInText(g, c, texts, spansByText, i);
    SpliceRenders(texts[i], ps);
    ResolvableInText(g, c, texts, spansByText, i);
    SwallowedInText(g, c, texts, spansByText, i);
    RenderUnescaped(g, c, texts[i], ps, 0, d.mapping);
  }

  /** What an echoed answer comes to: the encoding succeeds, and however it is streamed back, the source is restored. */
  ghost predicate EchoRestores(
    g: Grammar, c: Codec, texts: seq<string>, spansByText: seq<seq<Span>>, i: nat, chunks: seq<string>, sampled: seq<bool>)
    requires i < |texts| == |spansByText| && |sampled| == |chunks|
  {
    var e := EncodeBatch(g, c, texts, spansByText);
    && e.Drafted?
    && var ps := ForText(e.draft.placements, i);
       && Laid(texts[i], ps, 0)
       && (PiiStream.Joined(chunks) == e.draft.texts[i] ==>
             PiiStream.Rounds(
               PiiStream.Decoder(g, e.draft.mapping), PiiStream.Joined(chunks), PiiStream.SampledCuts(chunks, sampled), "")
             == PiiStream.Sent(Restored(c, texts[i], ps, 0)))
  }

  lemma FittingEchoRestores(
    g: Grammar, c: Codec, texts: seq<string>, spansByText: seq<seq<Span>>, i: nat, chunks: seq<string>, sampled: seq<bool>)
    requires WellDetected(texts, spansByText) && InVocabulary(g, c, spansByText) && i < |texts|
    requires EncodeBatch(g, c, texts, spansByText).Drafted? && !LosesBackslash(c, texts[i], spansByText[i])
    requires forall j, s :: 0 <= j < |spansByText| && s in spansByText[j] ==> FitsHoldback(c, s.entity, LastOrdinal(spansByText))
    requires |sampled| == |chunks|
    ensures EchoRestores(g, c, texts, spansByText, i, chunks, sampled)
  {
    LaidInText(g, c, texts, spansByText, i);
    var d := EncodeBatch(g, c, texts, spansByText).draft;
    forall token | token in d.mapping ensures |token| <= PiiStream.MAX_TOKEN_LENGTH {
      TokensFit(g, c, texts, spansByText, token);
    }
    if PiiStream.Joined(chunks) == d.texts[i] {
      EchoedStream(g, c, texts, spansByText, i, chunks, sampled);
    }
  }

  /**
   * Placeholders of the vocabulary, with nothing assumed about the encoding: it succeeds, its
   * tokens are within the holdback, and the echoed answer restores the source.
   */
  lemma PlaceholderStream(
    r: Rules, actions: map<string, Action>, defaultAction: Action, c: Codec,
    texts: seq<string>, spansByText: seq<seq<Span>>, i: nat, chunks: seq<string>, sampled: seq<bool>)
    requires PiiPattern.Sound(r) && ShortLabels(r) && Labelled(r, spansByText) && c == Placeholder(actions, defaultAction)
    requires WellDetected(texts, spansByText) && i < |texts| && !LosesBackslash(c, texts[i], spansByText[i])
    requires |AvoidIn(Tolerant(r), texts)| < MINT_ATTEMPT_LIMIT
    requires |Decimal(LastOrdinal(spansByText))| <= PiiStream.MAX_DISCRIMINATOR_LENGTH && |sampled| == |chunks|
    ensures EchoRestores(Tolerant(r), c, texts, spansByText, i, chunks, sampled)
  {
    PlaceholderFits(r, actions, defaultAction, spansByText);
    PlaceholderEncodes(r, actions, defaultAction, c, texts, spansByText);
    forall j, s | 0 <= j < |spansByText| && s in spansByText[j] ensures FitsHoldback(c, s.entity, LastOrdinal(spansByText)) {
      var k :| 0 <= k < |spansByText[j]| && spansByText[j][k] == s;
      PlaceholderTokensFit(actions, defaultAction, s.entity, LastOrdinal(spansByText));
    }
    FittingEchoRestores(Tolerant(r), c, texts, spansByText, i, chunks, sampled);
  }

  /** The same for random handles that do not repeat within the batch. */
  lemma HandleStream(
    r: Rules, actions: map<string, Action>, defaultAction: Action, draw: Draw -> string, c: Codec,
    texts: seq<string>, spansByText: seq<seq<Span>>, i: nat, chunks: seq<string>, sampled: seq<bool>)
    requires PiiPattern.Sound(r) && ShortLabels(r) && Labelled(r, spansByText)
    requires WellDetected(texts, spansByText) && i < |texts| && !LosesBackslash(c, texts[i], spansByText[i])
    requires GoodHandles(r, draw, texts, spansByText)
    requires c == HandleCodec(actions, defaultAction, OnBatch(draw, texts, spansByText))
    requires |AvoidIn(Tolerant(r), texts)| < MINT_ATTEMPT_LIMIT && |sampled| == |chunks|
    ensures EchoRestores(Tolerant(r), c, texts, spansByText, i, chunks, sampled)
  {
    HandleFitsBatch(r, actions, defaultAction, draw, texts, spansByText);
    forall j, s | 0 <= j < |spansByText| && s in spansByText[j]
      ensures DrawsOn(OnBatch(draw, texts, spansByText), s.entity, TextFrom(s, texts[j]), LastOrdinal(spansByText))
           && FitsHoldback(c, s.entity, LastOrdinal(spansByText))
    {
      var k :| 0 <= k < |spansByText[j]| && spansByText[j][k] == s;
      BatchDrawsOn(r, draw, texts, spansByText, j, s);
      HandleTokensFit(r, actions, defaultAction, draw, texts, spansByText, s.entity);
    }
    HandleEncodes(r, actions, defaultAction, OnBatch(draw, texts, spansByText), c, texts, spansByText);
    FittingEchoRestores(Tolerant(r), c, texts, spansByText, i, chunks, sampled);
  }

  lemma BatchDrawsOn(r: Rules, draw: Draw -> string, texts: seq<string>, spansByText: seq<seq<Span>>, j: nat, s: Span)
    requires |texts| == |spansByText| && GoodHandles(r, draw, texts, spansByText) && j < |spansByText| && s in spansByText[j]
    ensures DrawsOn(OnBatch(draw, texts, spansByText), s.entity, TextFrom(s, texts[j]), LastOrdinal(spansByText))
  {
    forall k | 1 <= k <= LastOrdinal(spansByText)
      ensures BatchDraw(texts, spansByText, Draw(s.entity, k, TextFrom(s, texts[j])))
    {
    }
  }
}
