/**
 * The tolerant token pattern between its brackets: spaces, a label of the closed vocabulary in
 * any case, spaces, then `_` (possibly escaped) and digits or `:` and a handle, then spaces and
 * an optional backslash before the closing bracket.
 */
module PiiPattern {
  import opened Text
  import opened PiiGrammar

  /** The closed vocabulary, and the character classes the pattern is written with. */
  datatype Rules = Rules(
    labels: seq<string>,         // alternatives, in the order the pattern tries them
    space: char -> bool,         // \s
    digit: char -> bool,         // \d
    same: (char, char) -> bool,  // a character read as a label letter, ignoring case
    upper: char -> char,         // case normalisation of a matched label letter
    handle: char -> bool)        // a character of a handle, ignoring case

  predicate IsHandle(r: Rules, h: string) { h != "" && forall i :: 0 <= i < |h| ==> r.handle(h[i]) }

  predicate Special(c: char) { c == '\\' || c == ':' || IsBracket(c) }

  /** The character is no letter of a label, in whatever case. */
  ghost predicate NoLetter(r: Rules, c: char) { !IsLabelChar(c) && forall l: char :: IsLabelChar(l) ==> !r.same(c, l) }

  /** What the vocabulary and the standard character classes guarantee. */
  ghost predicate Sound(r: Rules)
  {
    && (forall i :: 0 <= i < |r.labels| ==> IsLabel(r.labels[i]))
    && (forall c: char :: Special(c) ==> !r.space(c) && !r.digit(c) && !r.handle(c) && NoLetter(r, c))
    && (forall c: char :: r.space(c) ==> !r.digit(c) && !r.handle(c) && NoLetter(r, c))
    && (forall c: char :: r.digit(c) ==> NoLetter(r, c))
    && (forall c: char :: IsAsciiDigit(c) ==> r.digit(c))
    && (forall c: char :: IsLabelChar(c) ==> r.same(c, c) && r.upper(c) == c)
  }

  function TakeWhile(p: char -> bool, s: string): (t: string)
    ensures t <= s
    ensures forall i :: 0 <= i < |t| ==> p(t[i])
    ensures |t| < |s| ==> !p(s[|t|])
  {
    if s != "" && p(s[0]) then [s[0]] + TakeWhile(p, s[1..]) else ""
  }

  function Skip(p: char -> bool, s: string): (t: string)
  {
    s[|TakeWhile(p, s)|..]
  }

  /** `\s*\\?` and then the closing bracket, which ends the text given here. */
  predicate MatchTail(r: Rules, s: string)
  {
    var t := Skip(r.space, s);
    t == "" || t == "\\"
  }

  function MatchOrdinal(r: Rules, s: string): Option<string>
  {
    var t := Skip(r.space, s);
    var d := TakeWhile(r.digit, t);
    if d != "" && MatchTail(r, t[|d|..]) then Some("_" + d) else None
  }

  function MatchHandle(r: Rules, s: string): Option<string>
  {
    var t := Skip(r.space, s);
    var h := TakeWhile(r.handle, t);
    if h != "" && MatchTail(r, t[|h|..]) then Some(":" + h) else None
  }

  /** Everything after the label: an ordinal or a handle, in canonical spelling. */
  function MatchRest(r: Rules, s: string): Option<string>
  {
    var t := Skip(r.space, s);
    if t == "" then None
    else if t[0] == '_' then MatchOrdinal(r, t[1..])
    else if |t| > 1 && t[0] == '\\' && t[1] == '_' then MatchOrdinal(r, t[2..])
    else if t[0] == ':' then MatchHandle(r, t[1..])
    else None
  }

  predicate StartsWithLabel(r: Rules, entity: string, s: string)
  {
    |entity| <= |s| && forall i :: 0 <= i < |entity| ==> r.same(s[i], entity[i])
  }

  function Upper(r: Rules, s: string): (t: string)
    ensures |t| == |s|
  {
    seq(|s|, i requires 0 <= i < |s| => r.upper(s[i]))
  }

  /** The first alternative, in order, after which the rest of the pattern matches. */
  function MatchLabels(r: Rules, labels: seq<string>, s: string): Option<string>
  {
    if labels == [] then None
    else
      var rest := if StartsWithLabel(r, labels[0], s) then MatchRest(r, s[|labels[0]|..]) else None;
      if rest.Some? then Some(Upper(r, s[..|labels[0]|]) + rest.value)
      else MatchLabels(r, labels[1..], s)
  }

  /** The text between the brackets, read as a token; its canonical form without brackets. */
  function MatchBody(r: Rules, body: string): Option<string>
  {
    MatchLabels(r, r.labels, Skip(r.space, body))
  }

  lemma {:induction false} TakeAll(p: char -> bool, s: string, rest: string)
    requires forall i :: 0 <= i < |s| ==> p(s[i])
    requires rest == "" || !p(rest[0])
    ensures TakeWhile(p, s + rest) == s
  {
    if s == "" {
      assert s + rest == rest;
    } else {
      assert (s + rest)[1..] == s[1..] + rest;
      TakeAll(p, s[1..], rest);
      assert s == [s[0]] + s[1..];
    }
  }

  lemma SkipAll(p: char -> bool, s: string, rest: string)
    requires forall i :: 0 <= i < |s| ==> p(s[i])
    requires rest == "" || !p(rest[0])
    ensures Skip(p, s + rest) == rest
  {
    TakeAll(p, s, rest);
  }

  // ------------------------------------------------ every tolerated spelling

  predicate All(p: char -> bool, s: string) { forall i :: 0 <= i < |s| ==> p(s[i]) }

  /** A token as it may come back, piece by piece: what a model may do to it, and no more. */
  datatype Spelling = Spelling(
    lead: string,      // spaces
    written: string,   // a label, in any case
    gap: string,       // spaces
    mark: string,      // `_`, escaped or not, or `:`
    inner: string,     // spaces
    disc: string,      // digits, or a handle
    trail: string,     // spaces
    slash: string)     // an optional backslash
  {
    function After(): string { disc + (trail + slash) }

    function Tail(): string { gap + (mark + (inner + After())) }

    /** The text between the brackets. */
    function Body(): string { lead + (written + Tail()) }

    /** What follows the label in the canonical form. */
    function Tag(): string { (if mark == ":" then ":" else "_") + disc }

    function Text(): string { "<" + Body() + ">" }

    /** The token that was minted. */
    function Canonical(r: Rules): string { "<" + (Upper(r, written) + Tag()) + ">" }
  }

  ghost predicate TailAllowed(r: Rules, p: Spelling)
  {
    && All(r.space, p.gap) && All(r.space, p.inner) && All(r.space, p.trail) && p.slash in {"", "\\"}
    && p.mark in {"_", "\\_", ":"} && p.disc != "" && All(if p.mark == ":" then r.handle else r.digit, p.disc)
  }

  /** The spelling is one of the label's. */
  ghost predicate Allowed(r: Rules, entity: string, p: Spelling)
  {
    && All(r.space, p.lead) && TailAllowed(r, p)
    && |p.written| == |entity| && forall i :: 0 <= i < |entity| ==> r.same(p.written[i], entity[i])
  }

  lemma TailEnds(r: Rules, p: Spelling)
    requires Sound(r) && TailAllowed(r, p)
    ensures MatchTail(r, p.trail + p.slash) && (p.trail + p.slash == "" || !r.digit((p.trail + p.slash)[0]))
    ensures p.trail + p.slash == "" || !r.handle((p.trail + p.slash)[0])
  {
    assert p.slash == "" || Special(p.slash[0]);
    SkipAll(r.space, p.trail, p.slash);
  }

  lemma NumberReads(r: Rules, p: Spelling)
    requires Sound(r) && TailAllowed(r, p) && p.mark != ":"
    ensures MatchOrdinal(r, p.inner + p.After()) == Some("_" + p.disc)
  {
    TailEnds(r, p);
    assert p.After()[0] == p.disc[0];
    SkipAll(r.space, p.inner, p.After());
    TakeAll(r.digit, p.disc, p.trail + p.slash);
    assert p.After()[|p.disc|..] == p.trail + p.slash;
  }

  lemma HandleReads(r: Rules, p: Spelling)
    requires Sound(r) && TailAllowed(r, p) && p.mark == ":"
    ensures MatchHandle(r, p.inner + p.After()) == Some(":" + p.disc)
  {
    TailEnds(r, p);
    assert p.After()[0] == p.disc[0];
    SkipAll(r.space, p.inner, p.After());
    TakeAll(r.handle, p.disc, p.trail + p.slash);
    assert p.After()[|p.disc|..] == p.trail + p.slash;
  }

  /** Whatever spaces and escapes are put in, what follows the label is read. */
  lemma TailReads(r: Rules, p: Spelling)
    requires Sound(r) && TailAllowed(r, p)
    ensures MatchRest(r, p.Tail()) == Some(p.Tag())
  {
    var more := p.inner + p.After();
    var t := p.mark + more;
    assert Special('\\') && Special(':') && IsLabelChar('_');
    SkipAll(r.space, p.gap, t);
    assert t[|p.mark|..] == more;
    if p.mark == ":" {
      HandleReads(r, p);
    } else {
      NumberReads(r, p);
    }
  }

  lemma SplitSpaces(p: char -> bool, s: string) returns (spaces: string)
    ensures s == spaces + Skip(p, s) && All(p, spaces)
  {
    spaces := TakeWhile(p, s);
    assert s == s[..|spaces|] + s[|spaces|..];
  }

  /** Spaces, a run of one class, spaces and an optional backslash, taken apart. */
  lemma RunSpelled(r: Rules, chars: char -> bool, u: string) returns (inner: string, trail: string, slash: string)
    requires MatchTail(r, Skip(r.space, u)[|TakeWhile(chars, Skip(r.space, u))|..])
    ensures u == inner + (TakeWhile(chars, Skip(r.space, u)) + (trail + slash))
    ensures All(r.space, inner) && All(r.space, trail) && slash in {"", "\\"}
  {
    inner := SplitSpaces(r.space, u);
    trail, slash := EndSpelled(r, Skip(r.space, u)[|TakeWhile(chars, Skip(r.space, u))|..]);
    SplitRun(chars, Skip(r.space, u));
  }

  lemma SplitRun(chars: char -> bool, v: string)
    ensures v == TakeWhile(chars, v) + v[|TakeWhile(chars, v)|..]
  {
  }

  lemma EndSpelled(r: Rules, w: string) returns (trail: string, slash: string)
    requires MatchTail(r, w)
    ensures w == trail + slash && All(r.space, trail) && slash in {"", "\\"}
  {
    trail := SplitSpaces(r.space, w);
    slash := Skip(r.space, w);
  }

  /** What is read after a label has been spelled there. */
  lemma TailSpelled(r: Rules, s: string) returns (p: Spelling)
    requires MatchRest(r, s).Some?
    ensures TailAllowed(r, p) && p.Tail() == s && p.Tag() == MatchRest(r, s).value
  {
    var gap := SplitSpaces(r.space, s);
    var t := Skip(r.space, s);
    var mark := if t[0] == '_' then "_" else if t[0] == ':' then ":" else "\\_";
    var u := t[|mark|..];
    var chars := if mark == ":" then r.handle else r.digit;
    assert t == mark + u;
    var inner, trail, slash := RunSpelled(r, chars, u);
    p := Spelling("", "", gap, mark, inner, TakeWhile(chars, Skip(r.space, u)), trail, slash);
  }

  /** What follows the label starts with a mark, after spaces. */
  lemma RestStarts(r: Rules, s: string)
    requires Sound(r) && MatchRest(r, s).Some?
    ensures s != "" && (r.space(s[0]) || s[0] == '_' || s[0] == '\\' || s[0] == ':')
    ensures Skip(r.space, s) != "" && !r.digit(Skip(r.space, s)[0])
  {
    assert Special('\\') && Special(':') && IsLabelChar('_');
  }

  lemma NothingToSkip(p: char -> bool, s: string)
    requires s != "" && !p(s[0])
    ensures Skip(p, s) == s
  {
    assert TakeWhile(p, s) == "";
  }

  lemma DigitsAreNoRest(r: Rules, t: string)
    requires Sound(r) && Skip(r.space, t) != "" && r.digit(Skip(r.space, t)[0])
    ensures t != "" && NoLetter(r, t[0]) && MatchRest(r, t) == None
  {
    assert IsLabelChar('_') && Special('\\') && Special(':');
    var gap := SplitSpaces(r.space, t);
    assert t[0] == if gap == "" then Skip(r.space, t)[0] else gap[0];
  }

  lemma OneMark(r: Rules, s: string)
    requires Sound(r) && s != "" && s[0] == '_' && MatchRest(r, s).Some?
    ensures |s| > 1 && NoLetter(r, s[1]) && MatchRest(r, s[1..]) == None
  {
    assert IsLabelChar('_') && !NoLetter(r, '_');
    NothingToSkip(r.space, s);
    DigitsAreNoRest(r, s[1..]);
  }

  /** Inside a label nothing is read as what follows a label. */
  lemma NoRestInside(r: Rules, entity: string, written: string, tail: string, k: nat)
    requires Sound(r) && IsLabel(entity) && |written| == |entity| && k < |entity| && MatchRest(r, tail).Some?
    requires forall i :: 0 <= i < |entity| ==> r.same(written[i], entity[i])
    ensures MatchRest(r, (written + tail)[k..]) == None
  {
    var s := (written + tail)[k..];
    assert s[0] == written[k] && IsLabelChar(entity[k]);
    assert !r.space(s[0]) && !Special(s[0]);
    assert Skip(r.space, s) == s by { assert TakeWhile(r.space, s) == ""; }
    if s[0] == '_' {
      var u := s[1..];
      RestStarts(r, tail);
      if k + 1 < |entity| {
        assert u[0] == written[k + 1] && IsLabelChar(entity[k + 1]);
        assert Skip(r.space, u) == u by { assert TakeWhile(r.space, u) == ""; }
        assert TakeWhile(r.digit, u) == "";
      } else {
        assert u == tail;
        assert TakeWhile(r.digit, Skip(r.space, tail)) == "";
      }
    }
  }

  /** A longer label that happens to fit is not followed by anything that is read. */
  lemma NoRestBeyond(r: Rules, longer: string, written: string, tail: string)
    requires Sound(r) && IsLabel(longer) && |longer| > |written| && MatchRest(r, tail).Some?
    requires StartsWithLabel(r, longer, written + tail)
    ensures MatchRest(r, (written + tail)[|longer|..]) == None
  {
    var s, n := written + tail, |written|;
    RestStarts(r, tail);
    assert s[n] == tail[0] && IsLabelChar(longer[n]) && r.same(tail[0], longer[n]);
    assert Special('\\') && Special(':');
    assert tail[0] == '_';
    OneMark(r, tail);
    assert s[n + 1] == tail[1];
    assert forall c :: IsLabelChar(c) ==> !r.same(s[n + 1], c);
    assert |longer| == n + 1;
    assert s[|longer|..] == tail[1..];
  }

  /** So an alternative is taken only at the length of the label that was written. */
  lemma OnlyItsLength(r: Rules, first: string, entity: string, written: string, tail: string)
    requires Sound(r) && IsLabel(first) && IsLabel(entity) && |written| == |entity| && MatchRest(r, tail).Some?
    requires forall i :: 0 <= i < |entity| ==> r.same(written[i], entity[i])
    ensures StartsWithLabel(r, first, written + tail) && MatchRest(r, (written + tail)[|first|..]).Some? ==>
              |first| == |written|
    ensures first == entity ==> StartsWithLabel(r, first, written + tail)
  {
    if |first| < |entity| {
      NoRestInside(r, entity, written, tail, |first|);
    } else if |first| > |entity| && StartsWithLabel(r, first, written + tail) {
      NoRestBeyond(r, first, written, tail);
    }
  }

  lemma {:induction false} AlternativesRead(r: Rules, labels: seq<string>, entity: string, written: string, tail: string)
    requires Sound(r) && (forall i :: 0 <= i < |labels| ==> IsLabel(labels[i])) && entity in labels
    requires |written| == |entity| && MatchRest(r, tail).Some?
    requires forall i :: 0 <= i < |entity| ==> r.same(written[i], entity[i])
    ensures MatchLabels(r, labels, written + tail) == Some(Upper(r, written) + MatchRest(r, tail).value)
  {
    OnlyItsLength(r, labels[0], entity, written, tail);
    assert (written + tail)[..|written|] == written && (written + tail)[|written|..] == tail;
    if !(StartsWithLabel(r, labels[0], written + tail) && MatchRest(r, (written + tail)[|labels[0]|..]).Some?) {
      AlternativesRead(r, labels[1..], entity, written, tail);
    }
  }

  lemma {:induction false} AlternativeTaken(r: Rules, labels: seq<string>, s: string) returns (entity: string)
    requires MatchLabels(r, labels, s).Some?
    ensures entity in labels && StartsWithLabel(r, entity, s) && MatchRest(r, s[|entity|..]).Some?
    ensures MatchLabels(r, labels, s) == Some(Upper(r, s[..|entity|]) + MatchRest(r, s[|entity|..]).value)
  {
    if StartsWithLabel(r, labels[0], s) && MatchRest(r, s[|labels[0]|..]).Some? {
      entity := labels[0];
    } else {
      entity := AlternativeTaken(r, labels[1..], s);
    }
  }

  /** Every spelling of every label is read, whatever the order of the alternatives. */
  lemma SpellingRead(r: Rules, entity: string, p: Spelling)
    requires Sound(r) && entity in r.labels && Allowed(r, entity, p)
    ensures MatchBody(r, p.Body()) == Some(Upper(r, p.written) + p.Tag())
  {
    var rest := p.written + p.Tail();
    assert rest[0] == p.written[0] && IsLabelChar(entity[0]);
    SkipAll(r.space, p.lead, rest);
    TailReads(r, p);
    AlternativesRead(r, r.labels, entity, p.written, p.Tail());
  }

  /** And whatever is read is a spelling of some label. */
  lemma ReadIsSpelling(r: Rules, body: string) returns (entity: string, p: Spelling)
    requires MatchBody(r, body).Some?
    ensures entity in r.labels && Allowed(r, entity, p) && p.Body() == body
    ensures MatchBody(r, body) == Some(Upper(r, p.written) + p.Tag())
  {
    var lead := SplitSpaces(r.space, body);
    var s := Skip(r.space, body);
    entity := AlternativeTaken(r, r.labels, s);
    var written, tail := s[..|entity|], s[|entity|..];
    var q := TailSpelled(r, tail);
    p := q.(lead := lead, written := written);
    assert s == written + tail && p.Tail() == q.Tail() && p.Tag() == q.Tag();
  }

  ghost predicate SpellsAs(r: Rules, body: string, canonical: string, entity: string, p: Spelling)
  {
    entity in r.labels && Allowed(r, entity, p) && p.Body() == body && Upper(r, p.written) + p.Tag() == canonical
  }

  /** The pattern exactly: the text between two brackets is a token if and only if it is a tolerated spelling of one. */
  lemma PatternExact(r: Rules, body: string, canonical: string)
    requires Sound(r)
    ensures Tolerant(r).read(body) == Some(canonical) <==> exists entity, p :: SpellsAs(r, body, canonical, entity, p)
  {
    if MatchBody(r, body) == Some(canonical) {
      var entity, p := ReadIsSpelling(r, body);
      assert SpellsAs(r, body, canonical, entity, p);
    }
    if entity, p :| SpellsAs(r, body, canonical, entity, p) {
      SpellingRead(r, entity, p);
    }
  }

  function Tolerant(r: Rules): Grammar { Grammar(body => MatchBody(r, body)) }

  // ----------------------------------------------------- spellings in texts

  lemma BodyHasNoBracket(r: Rules, entity: string, p: Spelling)
    requires Sound(r) && IsLabel(entity) && Allowed(r, entity, p)
    ensures NoBracket(p.Body())
  {
    assert Special('<') && Special('>') && !IsBracket('_') && !IsBracket('\\') && !IsBracket(':');
    forall i | 0 <= i < |p.written| ensures !IsBracket(p.written[i]) {
      assert IsLabelChar(entity[i]) && r.same(p.written[i], entity[i]);
    }
    assert NoBracket(p.After()) && NoBracket(p.inner + p.After()) && NoBracket(p.Tail());
  }

  ghost predicate NoBracket(s: string) { forall i :: 0 <= i < |s| ==> !IsBracket(s[i]) }

  /**
   * A token as a model may have distorted it, in case, spacing and escapes, with or without a
   * backslash in front: it decodes to the value of the token as it was minted, and to itself
   * when that token has no value.
   */
  lemma SpellingDecodes(r: Rules, entity: string, p: Spelling, escape: string, resolved: map<string, string>)
    requires Sound(r) && entity in r.labels && Allowed(r, entity, p) && escape in {"", "\\"}
    ensures Decode(Tolerant(r), escape + p.Text(), resolved)
         == if p.Canonical(r) in resolved then resolved[p.Canonical(r)] else escape + p.Text()
  {
    SpellingMatched(r, entity, p);
    if escape == "" {
      assert escape + p.Text() == p.Text();
      OnePiece(Tolerant(r), p.Text(), p.Canonical(r), resolved);
    } else {
      EscapedMatch(Tolerant(r), p.Text(), p.Canonical(r));
      OnePiece(Tolerant(r), escape + p.Text(), p.Canonical(r), resolved);
    }
  }

  lemma SpellingMatched(r: Rules, entity: string, p: Spelling)
    requires Sound(r) && entity in r.labels && Allowed(r, entity, p)
    ensures p.Text()[0] == '<' && MatchAt(Tolerant(r), p.Text()) == Some(Match(|p.Text()|, p.Canonical(r)))
  {
    BodyHasNoBracket(r, entity, p);
    SpellingRead(r, entity, p);
    ReadAs(Tolerant(r), p.Text(), p.Body(), Upper(r, p.written) + p.Tag());
  }

  lemma ReadAs(g: Grammar, t: string, body: string, canonical: string)
    requires t == "<" + body + ">" && NoBracket(body) && g.read(body) == Some(canonical)
    ensures MatchAt(g, t) == Some(Match(|t|, "<" + canonical + ">"))
  {
    NoBracketBefore(t, body);
  }

  lemma EscapedMatch(g: Grammar, t: string, canonical: string)
    requires t != "" && t[0] == '<' && MatchAt(g, t) == Some(Match(|t|, canonical))
    ensures MatchAt(g, "\\" + t) == Some(Match(|t| + 1, canonical))
  {
    assert ("\\" + t)[1..] == t;
  }

  /** A text that is one match decodes to the token's value, or stays. */
  lemma OnePiece(g: Grammar, t: string, canonical: string, resolved: map<string, string>)
    requires t != "" && MatchAt(g, t) == Some(Match(|t|, canonical))
    ensures Decode(g, t, resolved) == if canonical in resolved then resolved[canonical] else t
  {
    assert t[..|t|] == t && t[|t|..] == "" && Scan(g, "") == [];
    assert Scan(g, t) == [Tok(t, canonical)];
    assert Resolve([Tok(t, canonical)][1..], resolved) == "";
  }

  /** Spelled without spaces or escapes, a token is read as itself. */
  lemma AsMinted(r: Rules, p: Spelling)
    requires Sound(r) && p.written in r.labels && TailAllowed(r, p) && |p.mark| == 1
    requires p.lead == p.gap == p.inner == p.trail == p.slash == ""
    ensures MatchBody(r, p.written + p.mark + p.disc) == Some(p.written + p.mark + p.disc)
  {
    SpellingRead(r, p.written, p);
    PlainBody(p);
    assert Upper(r, p.written) == p.written;
    JoinThree(p.written, p.mark, p.disc);
  }

  lemma JoinThree(a: string, b: string, c: string)
    ensures a + b + c == a + (b + c)
  {
  }

  lemma PlainBody(p: Spelling)
    requires p.lead == p.gap == p.inner == p.trail == p.slash == ""
    ensures p.Body() == p.written + p.mark + p.disc
  {
    assert p.trail + p.slash == "" && p.After() == p.disc && p.inner + p.After() == p.disc;
    assert p.Tail() == p.mark + p.disc;
  }

  /** Every label of the vocabulary is known to the pattern, bare and numbered. */
  lemma PatternKnows(r: Rules, entity: string)
    requires Sound(r) && entity in r.labels
    ensures Knows(Tolerant(r), entity) && Numbers(Tolerant(r), entity)
  {
    forall n: nat ensures MatchBody(r, entity + "_" + Decimal(n)) == Some(entity + "_" + Decimal(n)) {
      AsMinted(r, Spelling("", entity, "", "_", "", Decimal(n), "", ""));
    }
    BareNotRead(r, entity);
    forall body ensures MatchBody(r, body) != Some(entity) {
      NeverBare(r, body, entity);
    }
  }

  /** Some character of the tag, which is one of the text, is no label character. */
  lemma TagMarks(r: Rules, p: Spelling) returns (c: char)
    requires Sound(r) && TailAllowed(r, p)
    ensures c in p.Tag() && c in p.Body() && !IsLabelChar(c)
  {
    if p.mark == ":" {
      c := ':';
      assert Special(c) && c in p.mark && c in p.mark + (p.inner + p.After()) && c in p.Tail();
    } else {
      c := p.disc[0];
      assert r.digit(c) && c in p.After() && c in p.inner + p.After() && c in p.Tail();
      assert p.Tag()[1] == c;
    }
  }

  lemma InSuffix(a: string, b: string, c: char)
    requires c in b
    ensures c in a + b
  {
  }

  /** Nothing is read as a bare label. */
  lemma NeverBare(r: Rules, body: string, entity: string)
    requires Sound(r) && IsLabel(entity)
    ensures MatchBody(r, body) != Some(entity)
  {
    if MatchBody(r, body).Some? {
      var other, p := ReadIsSpelling(r, body);
      var c := TagMarks(r, p);
      InSuffix(Upper(r, p.written), p.Tag(), c);
    }
  }

  /** And a bare label is not read as a token. */
  lemma BareNotRead(r: Rules, entity: string)
    requires Sound(r) && IsLabel(entity)
    ensures MatchBody(r, entity) == None
  {
    if MatchBody(r, entity).Some? {
      var other, p := ReadIsSpelling(r, entity);
      var c := TagMarks(r, p);
    }
  }

  /** A handle token of any label is read as itself. */
  lemma PatternKnowsHandle(r: Rules, entity: string, h: string)
    requires Sound(r) && entity in r.labels && IsHandle(r, h)
    ensures Recognised(Tolerant(r), MintHandle(entity, h))
  {
    assert forall i :: 0 <= i < |h| ==> !Special(h[i]);
    AsMinted(r, Spelling("", entity, "", ":", "", h, "", ""));
    ReadAsItself(Tolerant(r), MintHandle(entity, h), entity + ":" + h);
  }
}
