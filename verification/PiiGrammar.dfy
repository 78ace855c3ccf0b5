/**
 * The token wire format: `<PERSON_1>`, `<PERSON:3f9c...>` and the irreversible `<PERSON>`,
 * with the tolerant pattern that recognises what a model may have done to a token.
 *
 * A match of the pattern holds exactly one `<` (its first character, or its second after a
 * backslash) and exactly one `>` (its last): no class inside it contains a bracket.  So the
 * pattern is read here as "an opening bracket, the text up to the next bracket, which must
 * be a closing one", and the rest of the pattern is matched on the text between.
 */
module PiiGrammar {
  import opened Text

  /** How the text between two brackets is read: its canonical form, if it is a token's. */
  datatype Grammar = Grammar(read: string -> Option<string>)

  predicate IsBracket(c: char) { c == '<' || c == '>' }

  function NextBracket(s: string): (n: nat)
    ensures n <= |s|
  {
    if s == "" || IsBracket(s[0]) then 0 else 1 + NextBracket(s[1..])
  }

  lemma {:induction false} NextBracketIsFirst(s: string)
    ensures forall i :: 0 <= i < NextBracket(s) ==> !IsBracket(s[i])
    ensures NextBracket(s) < |s| ==> IsBracket(s[NextBracket(s)])
  {
    if s != "" && !IsBracket(s[0]) {
      NextBracketIsFirst(s[1..]);
      assert forall i :: 0 < i < |s| ==> s[i] == s[1..][i - 1];
    }
  }

  datatype Match = Match(length: nat, canonical: string)

  function OpenMatch(g: Grammar, s: string): (m: Option<Match>)
    requires s != "" && s[0] == '<'
    ensures m.Some? ==> 1 < m.value.length <= |s|
  {
    var q := 1 + NextBracket(s[1..]);
    if q < |s| && s[q] == '>' && g.read(s[1..q]).Some?
    then Some(Match(q + 1, "<" + g.read(s[1..q]).value + ">"))
    else None
  }

  /** A match of the tolerant pattern starting at the first character. */
  function MatchAt(g: Grammar, s: string): (m: Option<Match>)
    ensures m.Some? ==> 1 < m.value.length <= |s|
  {
    if s != "" && s[0] == '<' then OpenMatch(g, s)
    else if |s| > 1 && s[0] == '\\' && s[1] == '<' then
      var m := OpenMatch(g, s[1..]);
      if m.Some? then Some(Match(m.value.length + 1, m.value.canonical)) else None
    else None
  }

  /** A match holds one opening bracket, in front, and one closing bracket, at its end. */
  lemma OpenShape(g: Grammar, s: string)
    requires s != "" && s[0] == '<' && OpenMatch(g, s).Some?
    ensures var k := OpenMatch(g, s).value.length;
            s[k - 1] == '>' && forall i :: 0 < i < k - 1 ==> !IsBracket(s[i])
  {
    NextBracketIsFirst(s[1..]);
    assert forall i :: 0 < i < |s| ==> s[i] == s[1..][i - 1];
  }

  lemma MatchShape(g: Grammar, s: string)
    requires MatchAt(g, s).Some?
    ensures var k := MatchAt(g, s).value.length;
            && s[k - 1] == '>'
            && (forall i :: 0 <= i < k - 1 ==> s[i] != '>')
            && (s[0] == '<' || (s[0] == '\\' && s[1] == '<'))
            && forall i :: (if s[0] == '<' then 0 else 1) < i < k ==> s[i] != '<'
  {
    if s[0] == '<' {
      OpenShape(g, s);
    } else {
      OpenShape(g, s[1..]);
      assert forall i :: 0 < i < |s| ==> s[i] == s[1..][i - 1];
    }
  }

  datatype Piece = Lit(c: char) | Tok(text: string, canonical: string)

  /** How far the scan moves at the first character, and the piece it leaves behind. */
  function Advance(g: Grammar, s: string): (n: nat)
    requires s != ""
    ensures 0 < n <= |s|
  {
    if MatchAt(g, s).Some? then MatchAt(g, s).value.length else 1
  }

  function FirstPiece(g: Grammar, s: string): (p: Piece)
    requires s != ""
  {
    var m := MatchAt(g, s);
    if m.Some? then Tok(s[..m.value.length], m.value.canonical) else Lit(s[0])
  }

  /** Left-to-right, non-overlapping matches, with the characters between them. */
  function Scan(g: Grammar, s: string): (ps: seq<Piece>)
    decreases |s|
  {
    if s == "" then [] else [FirstPiece(g, s)] + Scan(g, s[Advance(g, s)..])
  }

  /** Canonical forms of the tokens a text contains. */
  function Canonicals(ps: seq<Piece>): (cs: set<string>)
  {
    if ps == [] then {}
    else (if ps[0].Tok? then {ps[0].canonical} else {}) + Canonicals(ps[1..])
  }

  /** One pass over the pieces: a resolved token gives its value, anything else itself. */
  function Resolve(ps: seq<Piece>, resolved: map<string, string>): (s: string)
  {
    if ps == [] then ""
    else ResolvePiece(ps[0], resolved) + Resolve(ps[1..], resolved)
  }

  function ResolvePiece(p: Piece, resolved: map<string, string>): (s: string)
  {
    match p
    case Lit(c) => [c]
    case Tok(text, canonical) => if canonical in resolved then resolved[canonical] else text
  }

  function CanonicalTokens(g: Grammar, s: string): (cs: set<string>) { Canonicals(Scan(g, s)) }

  /** `decode_text`: every token with a recovered value is replaced, in one pass. */
  function Decode(g: Grammar, s: string, resolved: map<string, string>): (t: string)
  {
    Resolve(Scan(g, s), resolved)
  }

  function MintOrdinal(entity: string, n: nat): (t: string) { "<" + entity + "_" + Decimal(n) + ">" }

  function MintHandle(entity: string, handle: string): (t: string) { "<" + entity + ":" + handle + ">" }

  function MintMasked(entity: string): (t: string) { "<" + entity + ">" }

  // ---------------------------------------------------------------- scanning

  lemma {:induction false} NextBracketExtends(s: string, t: string)
    ensures NextBracket(s) < |s| ==> NextBracket(s + t) == NextBracket(s)
    ensures NextBracket(s) == |s| ==> NextBracket(s + t) == |s| + NextBracket(t)
  {
    if s == "" {
      assert s + t == t;
    } else {
      assert (s + t)[1..] == s[1..] + t;
      NextBracketExtends(s[1..], t);
    }
  }

  /** A match does not depend on what follows it. */
  lemma MatchExtends(g: Grammar, s: string, t: string)
    ensures MatchAt(g, s).Some? ==> MatchAt(g, s + t) == MatchAt(g, s)
  {
    if s != "" && s[0] == '<' {
      OpenMatchExtends(g, s, t);
    } else if |s| > 1 && s[0] == '\\' && s[1] == '<' {
      OpenMatchExtends(g, s[1..], t);
      assert (s + t)[1..] == s[1..] + t;
    }
  }

  lemma OpenMatchExtends(g: Grammar, s: string, t: string)
    requires s != "" && s[0] == '<'
    ensures OpenMatch(g, s).Some? ==> OpenMatch(g, s + t) == OpenMatch(g, s)
  {
    NextBracketExtends(s[1..], t);
    assert (s + t)[1..] == s[1..] + t;
    var q := 1 + NextBracket(s[1..]);
    if q < |s| {
      assert (s + t)[1..q] == s[1..q];
    }
  }

  lemma {:induction false} ResolveConcat(p: seq<Piece>, q: seq<Piece>, resolved: map<string, string>)
    ensures Resolve(p + q, resolved) == Resolve(p, resolved) + Resolve(q, resolved)
  {
    if p == [] {
      assert p + q == q;
    } else {
      assert (p + q)[1..] == p[1..] + q;
      ResolveConcat(p[1..], q, resolved);
    }
  }

  lemma {:induction false} CanonicalsConcat(p: seq<Piece>, q: seq<Piece>)
    ensures Canonicals(p + q) == Canonicals(p) + Canonicals(q)
  {
    if p == [] {
      assert p + q == q;
    } else {
      assert (p + q)[1..] == p[1..] + q;
      CanonicalsConcat(p[1..], q);
    }
  }

  /** A text none of whose tokens is resolved decodes to itself. */
  lemma {:induction false} DecodeUntouched(g: Grammar, s: string, resolved: map<string, string>)
    requires CanonicalTokens(g, s) !! resolved.Keys
    ensures Decode(g, s, resolved) == s
    decreases |s|
  {
    if s != "" {
      var m := MatchAt(g, s);
      if m.Some? {
        DecodeUntouched(g, s[m.value.length..], resolved);
        assert s == s[..m.value.length] + s[m.value.length..];
      } else {
        DecodeUntouched(g, s[1..], resolved);
        assert s == [s[0]] + s[1..];
      }
    }
  }

  lemma {:induction false} NoOpenNoTokens(g: Grammar, s: string)
    requires '<' !in s
    ensures CanonicalTokens(g, s) == {}
    decreases |s|
  {
    if s != "" {
      NoOpenNoTokens(g, s[1..]);
    }
  }

  lemma {:induction false} NoCloseNoTokens(g: Grammar, s: string)
    requires '>' !in s
    ensures CanonicalTokens(g, s) == {}
    decreases |s|
  {
    if s != "" {
      if MatchAt(g, s).Some? {
        MatchShape(g, s);
        assert false;
      }
      NoCloseNoTokens(g, s[1..]);
    }
  }

  /** Whether two texts scan independently when put side by side. */
  ghost predicate CleanCut(a: string, b: string)
  {
    || b == ""
    || (a != "" && a[|a| - 1] == '>')
    || (b[0] == '<' && !(a != "" && a[|a| - 1] == '\\'))
    || (|b| > 1 && b[0] == '\\' && b[1] == '<')
  }

  /** No match starts in `a` and ends in `b` across a clean cut. */
  lemma MatchStopsAtCut(g: Grammar, a: string, b: string)
    requires a != "" && CleanCut(a, b)
    ensures MatchAt(g, a + b) == MatchAt(g, a)
  {
    MatchExtends(g, a, b);
    if b == "" {
      assert a + b == a;
    } else if MatchAt(g, a).None? {
      if a[0] == '<' {
        OpenStopsAtCut(g, a, b);
      } else if |a| > 1 && a[0] == '\\' && a[1] == '<' {
        OpenStopsAtCut(g, a[1..], b);
        assert (a + b)[1..] == a[1..] + b;
      }
    }
  }

  lemma OpenStopsAtCut(g: Grammar, a: string, b: string)
    requires a != "" && a[0] == '<' && b != "" && CleanCut(a, b)
    ensures OpenMatch(g, a + b) == OpenMatch(g, a)
  {
    var s := a[1..];
    NextBracketExtends(s, b);
    assert (a + b)[1..] == s + b;
    var q := 1 + NextBracket(s);
    if q < |a| {
      assert (a + b)[1..q] == a[1..q];
    } else {
      NextBracketIsFirst(s);
      assert |s| > 0 ==> a[|a| - 1] == s[|s| - 1];
      assert NextBracket(b) < |b| && b[NextBracket(b)] == '<';
    }
  }

  lemma StepStopsAtCut(g: Grammar, a: string, b: string)
    requires a != "" && CleanCut(a, b)
    ensures Advance(g, a + b) == Advance(g, a) && FirstPiece(g, a + b) == FirstPiece(g, a)
    ensures (a + b)[Advance(g, a)..] == a[Advance(g, a)..] + b
  {
    MatchStopsAtCut(g, a, b);
    assert (a + b)[..Advance(g, a)] == a[..Advance(g, a)];
  }

  lemma CutOfSuffix(a: string, b: string, n: nat)
    requires n < |a| && CleanCut(a, b)
    ensures CleanCut(a[n..], b)
  {
    assert a[n..][|a| - n - 1] == a[|a| - 1];
  }

  lemma ScanSplitsStep(g: Grammar, a: string, b: string, rest: string)
    requires a != "" && CleanCut(a, b) && rest == a[Advance(g, a)..]
    requires Scan(g, rest + b) == Scan(g, rest) + Scan(g, b)
    ensures Scan(g, a + b) == Scan(g, a) + Scan(g, b)
  {
    StepStopsAtCut(g, a, b);
    assert Scan(g, a + b) == [FirstPiece(g, a)] + Scan(g, rest + b);
  }

  lemma {:induction false} ScanSplits(g: Grammar, a: string, b: string)
    requires CleanCut(a, b)
    ensures Scan(g, a + b) == Scan(g, a) + Scan(g, b)
    decreases |a|
  {
    if a == "" {
      assert a + b == b;
    } else {
      var n := Advance(g, a);
      if n < |a| {
        CutOfSuffix(a, b, n);
        ScanSplits(g, a[n..], b);
      } else {
        assert a[n..] + b == b;
      }
      ScanSplitsStep(g, a, b, a[n..]);
    }
  }

  lemma DecodeSplits(g: Grammar, a: string, b: string, resolved: map<string, string>)
    requires CleanCut(a, b)
    ensures Decode(g, a + b, resolved) == Decode(g, a, resolved) + Decode(g, b, resolved)
  {
    ScanSplits(g, a, b);
    ResolveConcat(Scan(g, a), Scan(g, b), resolved);
  }

  // ------------------------------------------- tokens of a part of a text

  lemma TokensSplit(g: Grammar, a: string, b: string)
    requires CleanCut(a, b)
    ensures CanonicalTokens(g, a + b) == CanonicalTokens(g, a) + CanonicalTokens(g, b)
  {
    ScanSplits(g, a, b);
    CanonicalsConcat(Scan(g, a), Scan(g, b));
  }

  lemma PastClosedText(g: Grammar, head: string, tail: string)
    requires head != "" && head[|head| - 1] == '>' && '<' !in head
    ensures CanonicalTokens(g, head + tail) == CanonicalTokens(g, tail)
  {
    TokensSplit(g, head, tail);
    NoOpenNoTokens(g, head);
  }

  lemma InsideMatch(g: Grammar, s: string)
    requires s != "" && s[0] == '<' && MatchAt(g, s).Some?
    ensures var k := Advance(g, s);
            1 < k <= |s| && s[1..k][k - 2] == '>' && '<' !in s[1..k] && s[1..] == s[1..k] + s[k..]
  {
    var k := Advance(g, s);
    OpenShape(g, s);
    assert forall i :: 0 <= i < k - 1 ==> s[1..k][i] == s[i + 1];
  }

  lemma SuffixOfToken(g: Grammar, s: string)
    requires s != "" && s[0] == '<' && MatchAt(g, s).Some?
    ensures CanonicalTokens(g, s[1..]) == CanonicalTokens(g, s[Advance(g, s)..])
  {
    var k := Advance(g, s);
    InsideMatch(g, s);
    PastClosedText(g, s[1..k], s[k..]);
  }

  lemma SuffixStep(g: Grammar, s: string)
    requires s != ""
    ensures CanonicalTokens(g, s[1..]) <= CanonicalTokens(g, s)
  {
    if MatchAt(g, s).Some? {
      if s[0] == '<' {
        SuffixOfToken(g, s);
      } else {
        EscapedSuffix(g, s);
      }
    }
  }

  /** The backslash in front of a token takes part in the match, not in what it means. */
  lemma EscapedSuffix(g: Grammar, s: string)
    requires |s| > 1 && s[0] == '\\' && s[1] == '<' && MatchAt(g, s).Some?
    ensures CanonicalTokens(g, s[1..]) == CanonicalTokens(g, s)
  {
    var k := MatchAt(g, s).value.length;
    assert s[1..][k - 1..] == s[k..];
    assert Advance(g, s[1..]) == k - 1;
    assert FirstPiece(g, s[1..]).canonical == FirstPiece(g, s).canonical;
  }

  lemma {:induction false} SuffixTokens(g: Grammar, s: string, n: nat)
    requires n <= |s|
    ensures CanonicalTokens(g, s[n..]) <= CanonicalTokens(g, s)
  {
    if n > 0 {
      SuffixStep(g, s);
      SuffixTokens(g, s[1..], n - 1);
      assert s[1..][n - 1..] == s[n..];
    } else {
      assert s[0..] == s;
    }
  }

  /** A match that only what follows completes leaves no closing bracket behind. */
  lemma CompletedLater(g: Grammar, s: string, t: string)
    requires s != "" && MatchAt(g, s).None? && MatchAt(g, s + t).Some?
    ensures '>' !in s || s == "\\"
  {
    if s[0] == '<' {
      OpenCompletedLater(g, s, t);
    } else if |s| > 1 {
      assert (s + t)[1..] == s[1..] + t;
      OpenCompletedLater(g, s[1..], t);
      assert s == [s[0]] + s[1..];
    }
  }

  /** Once the next bracket is known, so is whether the opening one starts a token. */
  lemma OpenDecided(g: Grammar, s: string, t: string)
    requires s != "" && s[0] == '<' && 1 + NextBracket(s[1..]) < |s|
    ensures OpenMatch(g, s + t) == OpenMatch(g, s)
  {
    assert (s + t)[1..] == s[1..] + t;
    NextBracketExtends(s[1..], t);
    var q := 1 + NextBracket(s[1..]);
    assert (s + t)[1..q] == s[1..q];
  }

  lemma OpenCompletedLater(g: Grammar, s: string, t: string)
    requires s != "" && s[0] == '<' && OpenMatch(g, s).None? && OpenMatch(g, s + t).Some?
    ensures '>' !in s
  {
    if 1 + NextBracket(s[1..]) < |s| {
      OpenDecided(g, s, t);
      assert false;
    }
    NextBracketIsFirst(s[1..]);
    assert forall i :: 0 < i < |s| ==> s[i] == s[1..][i - 1];
  }

  lemma {:induction false} PrefixTokens(g: Grammar, s: string, t: string)
    ensures CanonicalTokens(g, s) <= CanonicalTokens(g, s + t)
    decreases |s|
  {
    if s != "" {
      MatchExtends(g, s, t);
      if MatchAt(g, s).None? && MatchAt(g, s + t).Some? {
        CompletedLater(g, s, t);
        NoCloseNoTokens(g, s);
      } else {
        var n := Advance(g, s);
        assert (s + t)[n..] == s[n..] + t && (s + t)[..n] == s[..n];
        PrefixTokens(g, s[n..], t);
      }
    }
  }

  lemma SubstringTokens(g: Grammar, s: string, i: nat, j: nat)
    requires i <= j <= |s|
    ensures CanonicalTokens(g, s[i..j]) <= CanonicalTokens(g, s)
  {
    SuffixTokens(g, s, i);
    PrefixTokens(g, s[i..j], s[j..]);
    assert s[i..] == s[i..j] + s[j..];
  }

  // ------------------------------------------------------- minted tokens

  predicate IsLabelChar(c: char) { 'A' <= c <= 'Z' || c == '_' }

  predicate IsLabel(s: string) { s != "" && forall i :: 0 <= i < |s| ==> IsLabelChar(s[i]) }

  /** The entity type is in the vocabulary: its bare name is no token, and no token reads as it. */
  ghost predicate Knows(g: Grammar, entity: string)
  {
    IsLabel(entity) && g.read(entity).None? && forall body :: g.read(body) != Some(entity)
  }

  /** Its numbered form is read as itself. */
  ghost predicate Numbers(g: Grammar, entity: string)
  {
    IsLabel(entity) && forall n: nat :: g.read(entity + "_" + Decimal(n)) == Some(entity + "_" + Decimal(n))
  }

  /** A token that the pattern reads whole, as itself. */
  predicate Recognised(g: Grammar, t: string)
  {
    t != "" && t[0] == '<' && OpenMatch(g, t) == Some(Match(|t|, t))
  }

  lemma NoBracketBefore(s: string, body: string)
    requires s == "<" + body + ">" && forall i :: 0 <= i < |body| ==> !IsBracket(body[i])
    ensures 1 + NextBracket(s[1..]) == |s| - 1 && s[1..|s| - 1] == body
  {
    assert s[1..] == body + ">";
    NextBracketIsFirst(body);
    NextBracketExtends(body, ">");
  }

  lemma ReadAsItself(g: Grammar, t: string, body: string)
    requires t == "<" + body + ">" && (forall i :: 0 <= i < |body| ==> !IsBracket(body[i])) && g.read(body) == Some(body)
    ensures Recognised(g, t)
  {
    NoBracketBefore(t, body);
  }

  lemma NumberedRecognised(g: Grammar, entity: string, n: nat)
    requires Numbers(g, entity)
    ensures Recognised(g, MintOrdinal(entity, n))
  {
    ReadAsItself(g, MintOrdinal(entity, n), entity + "_" + Decimal(n));
  }

  lemma RecognisedShape(g: Grammar, t: string)
    requires Recognised(g, t)
    ensures |t| > 1 && t[|t| - 1] == '>'
  {
    OpenShape(g, t);
  }

  /** A recognised token is one piece, and is its own canonical form. */
  lemma RecognisedScan(g: Grammar, t: string)
    requires Recognised(g, t)
    ensures Scan(g, t) == [Tok(t, t)]
  {
    assert t[..|t|] == t;
    assert Scan(g, t[|t|..]) == [];
  }

  /** With a backslash in front, the backslash becomes part of the match. */
  lemma EscapedScan(g: Grammar, t: string)
    requires Recognised(g, t)
    ensures Scan(g, "\\" + t) == [Tok("\\" + t, t)]
  {
    var s := "\\" + t;
    assert s[1..] == t;
    assert Advance(g, s) == |s| && s[..|s|] == s;
    assert Scan(g, s[|s|..]) == [];
  }

  /** A masked entity is never recognised as a token, so decoding cannot undo masking. */
  lemma MaskedScan(g: Grammar, entity: string)
    requires Knows(g, entity)
    ensures CanonicalTokens(g, MintMasked(entity)) == {}
    ensures CanonicalTokens(g, "\\" + MintMasked(entity)) == {}
  {
    var t := MintMasked(entity);
    var s := "\\" + t;
    NoBracketBefore(t, entity);
    assert OpenMatch(g, t).None?;
    var rest := t[1..];
    assert '<' !in rest by { assert rest == entity + ">"; }
    NoOpenNoTokens(g, rest);
    assert s[1..] == t && MatchAt(g, s).None?;
  }

  /** Two spellings of one token split at the same place: its last separator. */
  lemma SplitAtLast(e1: string, d1: string, e2: string, d2: string, mark: char)
    requires "<" + e1 + [mark] + d1 + ">" == "<" + e2 + [mark] + d2 + ">"
    requires mark !in d1 && mark !in d2 && mark != '>'
    ensures e1 == e2 && d1 == d2
  {
    var s := "<" + e1 + [mark] + d1 + ">";
    LastMark(e1, d1, mark);
    LastMark(e2, d2, mark);
    assert |e1| == |e2|;
    assert s[1..1 + |e1|] == e1 && s[1..1 + |e2|] == e2;
    assert s[|e1| + 2..|s| - 1] == d1 && s[|e2| + 2..|s| - 1] == d2;
  }

  lemma LastMark(e: string, d: string, mark: char)
    requires mark !in d && mark != '>'
    ensures var s := "<" + e + [mark] + d + ">";
            s[1 + |e|] == mark && forall i :: |e| + 1 < i < |s| ==> s[i] != mark
  {
    var s := "<" + e + [mark] + d + ">";
    forall i | |e| + 1 < i < |s| ensures s[i] != mark {
      if i < |s| - 1 {
        assert s[i] == d[i - |e| - 2];
      }
    }
  }

  /** Different entity types or ordinals give different tokens. */
  lemma MintInjective(e1: string, n1: nat, e2: string, n2: nat)
    requires MintOrdinal(e1, n1) == MintOrdinal(e2, n2)
    ensures e1 == e2 && n1 == n2
  {
    SplitAtLast(e1, Decimal(n1), e2, Decimal(n2), '_');
    DecimalInjective(n1, n2);
  }

  /** Different entity types or handles give different tokens, handles being free of colons. */
  lemma HandleInjective(e1: string, h1: string, e2: string, h2: string)
    requires MintHandle(e1, h1) == MintHandle(e2, h2) && ':' !in h1 && ':' !in h2
    ensures e1 == e2 && h1 == h2
  {
    SplitAtLast(e1, h1, e2, h2, ':');
  }

  /** The canonical form of any token a text contains is a body the grammar reads. */
  lemma {:induction false} CanonicalForm(g: Grammar, s: string, t: string) returns (body: string)
    requires t in CanonicalTokens(g, s)
    ensures g.read(body).Some? && t == "<" + g.read(body).value + ">"
    decreases |s|
  {
    if FirstPiece(g, s).Tok? && FirstPiece(g, s).canonical == t {
      var u := if s[0] == '<' then s else s[1..];
      body := u[1..1 + NextBracket(u[1..])];
    } else {
      body := CanonicalForm(g, s[Advance(g, s)..], t);
    }
  }

  lemma Unwrap(a: string, b: string)
    requires "<" + a + ">" == "<" + b + ">"
    ensures a == b
  {
    assert ("<" + a + ">")[1..|a| + 1] == a && ("<" + b + ">")[1..|b| + 1] == b;
  }

  /** So the bare name of a known entity type is never among the tokens of a text. */
  lemma MaskedNotToken(g: Grammar, s: string, entity: string)
    requires Knows(g, entity)
    ensures MintMasked(entity) !in CanonicalTokens(g, s)
  {
    if MintMasked(entity) in CanonicalTokens(g, s) {
      var body := CanonicalForm(g, s, MintMasked(entity));
      Unwrap(g.read(body).value, entity);
    }
  }
}
