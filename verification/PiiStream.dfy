/**
 * Decoding a streamed answer.  Every round decodes all the text received so far and sends what
 * extends the text already sent, less the characters that might still grow into a token; text
 * once sent cannot be taken back, so a round whose result does not extend it ends in an error.
 */
module PiiStream {
  import opened Text
  import opened PiiGrammar
  import opened Piecewise

  /** The length of the longest label in the vocabulary. */
  const LONGEST_LABEL: nat := 25

  const MAX_DISCRIMINATOR_LENGTH: nat := 64

  /** `<_>`, a label and a discriminator. */
  const MAX_TOKEN_LENGTH: nat := |"<_>"| + LONGEST_LABEL + MAX_DISCRIMINATOR_LENGTH

  /** `rfind("<")`. */
  function LastOpen(s: string): (i: int)
    ensures -1 <= i < |s|
    ensures i >= 0 ==> s[i] == '<'
    ensures forall k :: i < k < |s| ==> s[k] != '<'
  {
    if s == "" then -1
    else if s[|s| - 1] == '<' then |s| - 1
    else LastOpen(s[..|s| - 1])
  }

  /** Trailing characters that could still become a token. */
  function HoldbackChars(s: string): (n: nat)
    ensures n <= |s|
  {
    var opening := LastOpen(s);
    if opening < 0 || '>' in s[opening..] then 0
    else
      var escaped := if opening > 0 && s[opening - 1] == '\\' then opening - 1 else opening;
      if |s| - escaped <= MAX_TOKEN_LENGTH then |s| - escaped else 0
  }

  datatype Sent = Sent(text: string) | Underflow

  /** One round over the text received so far; `decode` restores the tokens of a whole text. */
  function Round(decode: string -> string, raw: string, emitted: string, final: bool): Sent
  {
    var m := decode(raw);
    if !(emitted <= m) then Underflow
    else
      var hold := if final then 0 else HoldbackChars(m);
      Sent(m[..if |m| - hold < |emitted| then |emitted| else |m| - hold])
  }

  /** Rounds at the given lengths of received text, then the final flush. */
  function Rounds(decode: string -> string, s: string, cuts: seq<nat>, emitted: string): Sent
    requires forall k :: 0 <= k < |cuts| ==> cuts[k] <= |s|
  {
    if cuts == [] then Round(decode, s, emitted, true)
    else
      var next := Round(decode, s[..cuts[0]], emitted, false);
      if next.Underflow? then next else Rounds(decode, s, cuts[1..], next.text)
  }

  function Joined(chunks: seq<string>): string
  {
    if chunks == [] then "" else Joined(chunks[..|chunks| - 1]) + chunks[|chunks| - 1]
  }

  /** How much text has arrived at each sampled round. */
  function SampledCuts(chunks: seq<string>, sampled: seq<bool>): (cuts: seq<nat>)
    requires |sampled| == |chunks|
    ensures forall k :: 0 <= k < |cuts| ==> cuts[k] <= |Joined(chunks)|
    ensures forall j, k :: 0 <= j < k < |cuts| ==> cuts[j] <= cuts[k]
  {
    if chunks == [] then []
    else
      var n := |chunks| - 1;
      SampledCuts(chunks[..n], sampled[..n]) + (if sampled[n] then [|Joined(chunks)|] else [])
  }

  // ------------------------------------------------------- whole streams

  lemma PrefixChain(a: string, b: string, c: string)
    requires a <= b && b <= c
    ensures a <= c
  {
  }

  lemma ShorterPrefix(a: string, b: string, c: string)
    requires a <= c && b <= c && |a| <= |b|
    ensures a <= b
  {
  }

  ghost predicate Cuts(s: string, cuts: seq<nat>)
  {
    && (forall k :: 0 <= k < |cuts| ==> cuts[k] <= |s|)
    && (forall j, k :: 0 <= j < k < |cuts| ==> cuts[j] <= cuts[k])
  }

  /** What the round at length c would send, had nothing been sent before. */
  ghost function Sends(decode: string -> string, s: string, c: nat): (t: string)
    requires c <= |s|
    ensures t <= decode(s[..c])
  {
    var m := decode(s[..c]);
    m[..|m| - HoldbackChars(m)]
  }

  /** A text sent at round k is a prefix of what every round from there on decodes, and of the end result. */
  ghost predicate Stands(decode: string -> string, s: string, cuts: seq<nat>, k: nat, t: string)
    requires Cuts(s, cuts)
  {
    t <= decode(s) && forall j :: k <= j < |cuts| ==> t <= decode(s[..cuts[j]])
  }

  lemma StandsLater(decode: string -> string, s: string, cuts: seq<nat>, k: nat, t: string)
    requires Cuts(s, cuts) && cuts != []
    ensures Stands(decode, s, cuts, k + 1, t) <==> Stands(decode, s, cuts[1..], k, t)
  {
    assert forall j :: 0 <= j < |cuts| - 1 ==> cuts[1..][j] == cuts[j + 1];
    if Stands(decode, s, cuts[1..], k, t) {
      forall j | k + 1 <= j < |cuts| ensures t <= decode(s[..cuts[j]]) {
        assert cuts[1..][j - 1] == cuts[j];
      }
    }
  }

  lemma StandsFirst(decode: string -> string, s: string, cuts: seq<nat>, t: string)
    requires Cuts(s, cuts) && cuts != []
    ensures Stands(decode, s, cuts, 0, t) <==> t <= decode(s[..cuts[0]]) && Stands(decode, s, cuts, 1, t)
  {
  }

  /** A round that does not fail sends the longer of what was sent before and what it would send alone. */
  lemma RoundSends(decode: string -> string, s: string, c: nat, emitted: string)
    requires c <= |s|
    ensures var next, own := Round(decode, s[..c], emitted, false), Sends(decode, s, c);
            if emitted <= decode(s[..c])
            then next.Sent? && emitted <= next.text && own <= next.text && (next.text == emitted || next.text == own)
            else next.Underflow?
  {
  }

  lemma StandsBoth(decode: string -> string, s: string, cuts: seq<nat>, k: nat, a: string, b: string, both: string)
    requires Cuts(s, cuts) && a <= both && b <= both && (both == a || both == b)
    ensures Stands(decode, s, cuts, k, both) <==> Stands(decode, s, cuts, k, a) && Stands(decode, s, cuts, k, b)
  {
    if Stands(decode, s, cuts, k, both) {
      PrefixChain(a, both, decode(s));
      PrefixChain(b, both, decode(s));
    }
  }

  /** Nothing sent has to be taken back. */
  ghost predicate AllStand(decode: string -> string, s: string, cuts: seq<nat>)
    requires Cuts(s, cuts)
  {
    forall k :: 0 <= k < |cuts| ==> Stands(decode, s, cuts, k, Sends(decode, s, cuts[k]))
  }

  lemma AllStandFirst(decode: string -> string, s: string, cuts: seq<nat>)
    requires Cuts(s, cuts) && cuts != []
    ensures AllStand(decode, s, cuts) <==>
            Stands(decode, s, cuts, 0, Sends(decode, s, cuts[0])) && AllStand(decode, s, cuts[1..])
  {
    forall k | 0 <= k < |cuts| - 1
      ensures Stands(decode, s, cuts, k + 1, Sends(decode, s, cuts[k + 1]))
         <==> Stands(decode, s, cuts[1..], k, Sends(decode, s, cuts[1..][k]))
    {
      StandsLater(decode, s, cuts, k, Sends(decode, s, cuts[k + 1]));
    }
    if AllStand(decode, s, cuts[1..]) && Stands(decode, s, cuts, 0, Sends(decode, s, cuts[0])) {
      forall k | 0 <= k < |cuts| ensures Stands(decode, s, cuts, k, Sends(decode, s, cuts[k])) {
        if k > 0 {
          assert Stands(decode, s, cuts[1..], k - 1, Sends(decode, s, cuts[1..][k - 1]));
        }
      }
    }
  }

  /**
   * For any decoder whatsoever: the client gets the decoding of the whole text exactly when
   * what each round sends stands from there on, and otherwise the stream ends in an error.
   */
  lemma {:induction false} RoundsExact(decode: string -> string, s: string, cuts: seq<nat>, emitted: string)
    requires Cuts(s, cuts)
    ensures var out := Rounds(decode, s, cuts, emitted);
            if Stands(decode, s, cuts, 0, emitted) && AllStand(decode, s, cuts) then out == Sent(decode(s)) else out == Underflow
    decreases |cuts|
  {
    if cuts != [] {
      RoundSends(decode, s, cuts[0], emitted);
      StandsFirst(decode, s, cuts, emitted);
      AllStandFirst(decode, s, cuts);
      if emitted <= decode(s[..cuts[0]]) {
        var next := Round(decode, s[..cuts[0]], emitted, false).text;
        RoundsExact(decode, s, cuts[1..], next);
        StandsFirst(decode, s, cuts, next);
        StandsFirst(decode, s, cuts, Sends(decode, s, cuts[0]));
        StandsLater(decode, s, cuts, 0, next);
        StandsBoth(decode, s, cuts, 1, emitted, Sends(decode, s, cuts[0]), next);
      }
    }
  }

  // ------------------------------------- streams over a piecewise rewriting

  ghost predicate Agrees(decode: string -> string, w: Rewriter)
    requires Total(w)
  {
    forall s {:trigger decode(s)} :: decode(s) == Rewrite(w, s)
  }

  /** The round at length c sends part of a piece that is then rewritten. */
  ghost predicate Leaks(decode: string -> string, w: Rewriter, s: string, c: nat)
    requires Total(w) && c <= |s|
  {
    Splits(w, s, c) && |Sends(decode, s, c)| > |Rewrite(w, s[..PieceStart(w, s, c)])|
  }

  /** What a round that does not leak sends, every later round still starts with. */
  lemma OutputStands(decode: string -> string, w: Rewriter, s: string, b: nat, c: nat)
    requires Lawful(w) && Agrees(decode, w) && b <= c <= |s| && !Leaks(decode, w, s, b)
    ensures Sends(decode, s, b) <= decode(s[..c])
  {
    var p := PieceStart(w, s, b);
    if Splits(w, s, b) {
      UpTo(w, s, b);
      Settled(w, s, b, c);
      ShorterPrefix(Sends(decode, s, b), Rewrite(w, s[..p]), decode(s[..b]));
    } else {
      WholePrefix(w, s, b, c);
      PrefixChain(Sends(decode, s, b), decode(s[..b]), decode(s[..c]));
    }
  }

  /** A leaking round sends the piece as far as it has arrived; that stands when the rewriting happens to spell it. */
  ghost predicate Blends(w: Rewriter, s: string, cuts: seq<nat>, k: nat)
    requires Total(w) && Cuts(s, cuts) && k < |cuts|
  {
    var p, part := PieceStart(w, s, cuts[k]), s[PieceStart(w, s, cuts[k])..cuts[k]];
    part <= Rewrite(w, s[p..]) && forall j :: k <= j < |cuts| ==> part <= Rewrite(w, s[p..cuts[j]])
  }

  lemma SamePrefix(a: string, x: string, y: string)
    ensures a + x <= a + y <==> x <= y
  {
    if a + x <= a + y {
      assert x == (a + x)[|a|..] && y == (a + y)[|a|..];
    }
  }

  lemma PartStandsAt(decode: string -> string, w: Rewriter, s: string, b: nat, c: nat)
    requires Lawful(w) && Agrees(decode, w) && b <= c <= |s|
    ensures var p := PieceStart(w, s, b);
            Rewrite(w, s[..p]) + s[p..b] <= decode(s[..c]) <==> s[p..b] <= Rewrite(w, s[p..c])
  {
    var p := PieceStart(w, s, b);
    Settled(w, s, b, c);
    SamePrefix(Rewrite(w, s[..p]), s[p..b], Rewrite(w, s[p..c]));
  }

  lemma LeakStands(decode: string -> string, w: Rewriter, s: string, cuts: seq<nat>, k: nat)
    requires Lawful(w) && Agrees(decode, w) && Cuts(s, cuts) && k < |cuts|
    requires Sends(decode, s, cuts[k]) == Rewrite(w, s[..PieceStart(w, s, cuts[k])]) + s[PieceStart(w, s, cuts[k])..cuts[k]]
    ensures Stands(decode, s, cuts, k, Sends(decode, s, cuts[k])) <==> Blends(w, s, cuts, k)
  {
    var p := PieceStart(w, s, cuts[k]);
    PartStandsAt(decode, w, s, cuts[k], |s|);
    assert s[..|s|] == s && s[p..|s|] == s[p..];
    forall j | k <= j < |cuts|
      ensures Sends(decode, s, cuts[k]) <= decode(s[..cuts[j]]) <==> s[p..cuts[k]] <= Rewrite(w, s[p..cuts[j]])
    {
      PartStandsAt(decode, w, s, cuts[k], cuts[j]);
    }
  }

  lemma SoundRoundStands(decode: string -> string, w: Rewriter, s: string, cuts: seq<nat>, k: nat)
    requires Lawful(w) && Agrees(decode, w) && Cuts(s, cuts) && k < |cuts| && !Leaks(decode, w, s, cuts[k])
    ensures Stands(decode, s, cuts, k, Sends(decode, s, cuts[k]))
  {
    OutputStands(decode, w, s, cuts[k], |s|);
    assert s[..|s|] == s;
    forall j | k <= j < |cuts| ensures Sends(decode, s, cuts[k]) <= decode(s[..cuts[j]]) {
      OutputStands(decode, w, s, cuts[k], cuts[j]);
    }
  }

  // -------------------------------------------------- decoding is piecewise

  function Decoder(g: Grammar, resolved: map<string, string>): string -> string
  {
    s => Decode(g, s, resolved)
  }

  function StepOf(g: Grammar, resolved: map<string, string>, s: string): Step
  {
    if s == "" then Step(0, "", false)
    else
      var p := FirstPiece(g, s);
      Step(Advance(g, s), ResolvePiece(p, resolved), p.Tok? && p.canonical in resolved)
  }

  function DecodingOf(g: Grammar, resolved: map<string, string>): Rewriter
  {
    Rewriter(s => StepOf(g, resolved, s))
  }

  lemma OpenShrinks(g: Grammar, s: string, c: nat)
    requires s != "" && s[0] == '<' && OpenMatch(g, s).Some? && OpenMatch(g, s).value.length <= c <= |s|
    ensures OpenMatch(g, s[..c]) == OpenMatch(g, s)
  {
    var t := s[..c];
    assert s[1..] == t[1..] + s[c..];
    NextBracketExtends(t[1..], s[c..]);
    var q := OpenMatch(g, s).value.length - 1;
    assert t[1..q] == s[1..q] && t[1..][q - 1] == '>';
  }

  /** The first piece of a text is the first piece of every prefix that holds it whole. */
  lemma FirstPieceOfPrefix(g: Grammar, s: string, c: nat)
    requires s != "" && Advance(g, s) <= c <= |s|
    ensures Advance(g, s[..c]) == Advance(g, s) && FirstPiece(g, s[..c]) == FirstPiece(g, s)
    ensures s[..c][Advance(g, s)..] == s[Advance(g, s)..][..c - Advance(g, s)]
  {
    var t := s[..c];
    assert s == t + s[c..];
    MatchExtends(g, t, s[c..]);
    if MatchAt(g, s).Some? {
      if s[0] == '<' {
        OpenShrinks(g, s, c);
      } else {
        OpenShrinks(g, s[1..], c - 1);
        assert t[1..] == s[1..][..c - 1];
      }
      assert t[..Advance(g, s)] == s[..Advance(g, s)];
    }
  }

  lemma StepIsLocal(g: Grammar, resolved: map<string, string>, s: string, c: nat)
    requires s != "" && Advance(g, s) <= c <= |s|
    ensures StepOf(g, resolved, s[..c]) == StepOf(g, resolved, s)
  {
    FirstPieceOfPrefix(g, s, c);
  }

  /** A text that stops inside its first piece decodes to itself. */
  lemma InsideFirstPiece(g: Grammar, s: string, c: nat, resolved: map<string, string>)
    requires s != "" && c < Advance(g, s)
    ensures Decode(g, s[..c], resolved) == s[..c]
  {
    var t := s[..c];
    if MatchAt(g, s).Some? {
      MatchShape(g, s);
    }
    NoCloseNoTokens(g, t);
    DecodeUntouched(g, t, resolved);
  }

  lemma DecodingTotal(g: Grammar, resolved: map<string, string>)
    ensures Total(DecodingOf(g, resolved))
  {
  }

  lemma {:induction false} DecodeIsRewrite(g: Grammar, resolved: map<string, string>, s: string)
    requires Total(DecodingOf(g, resolved))
    ensures Decode(g, s, resolved) == Rewrite(DecodingOf(g, resolved), s)
    decreases |s|
  {
    if s != "" {
      DecodeIsRewrite(g, resolved, s[Advance(g, s)..]);
      assert DecodingOf(g, resolved).step(s) == StepOf(g, resolved, s);
    }
  }

  lemma DecodingLawful(g: Grammar, resolved: map<string, string>)
    ensures Lawful(DecodingOf(g, resolved))
    ensures Agrees(Decoder(g, resolved), DecodingOf(g, resolved))
  {
    var w := DecodingOf(g, resolved);
    DecodingTotal(g, resolved);
    forall s: string, c: nat ensures Local(w, s, c) {
      if s != "" && Advance(g, s) <= c <= |s| {
        StepIsLocal(g, resolved, s, c);
      }
    }
    forall s: string, c: nat ensures Inert(w, s, c) {
      if s != "" && c < Advance(g, s) {
        InsideFirstPiece(g, s, c, resolved);
        DecodeIsRewrite(g, resolved, s[..c]);
      }
    }
    forall s ensures Decode(g, s, resolved) == Rewrite(w, s) {
      DecodeIsRewrite(g, resolved, s);
    }
  }

  ghost predicate LeaksToken(g: Grammar, resolved: map<string, string>, s: string, c: nat)
    requires c <= |s|
  {
    DecodingTotal(g, resolved);
    Leaks(Decoder(g, resolved), DecodingOf(g, resolved), s, c)
  }

  // ----------------------------------------- every split point of a token

  lemma OpenInTail(before: string, tail: string, o: nat)
    requires o < |tail| && tail[o] == '<' && '>' !in tail[o..]
    requires forall i :: o < i < |tail| ==> tail[i] != '<'
    ensures LastOpen(before + tail) == |before| + o && '>' !in (before + tail)[|before| + o..]
  {
    var m := before + tail;
    assert m[|before| + o] == '<';
    assert forall i :: |before| + o < i < |m| ==> m[i] == tail[i - |before|];
    assert m[|before| + o..] == tail[o..];
  }

  predicate EndsInBackslash(s: string) { s != "" && s[|s| - 1] == '\\' }

  /** Once its bracket has arrived, a token is held back whole, with a backslash in front of it, or not at all. */
  lemma HeldExactly(before: string, tail: string)
    requires Started(tail)
    ensures var pending := |tail| + if tail[0] == '<' && EndsInBackslash(before) then 1 else 0;
            HoldbackChars(before + tail) == if pending <= MAX_TOKEN_LENGTH then pending else 0
  {
    var o := if tail[0] == '\\' then 1 else 0;
    OpenInTail(before, tail, o);
    assert tail[0] == '\\' ==> (before + tail)[|before|] == '\\';
    assert before != "" ==> (before + tail)[|before| - 1] == before[|before| - 1];
  }

  /** The part of a token that has arrived, once its bracket has. */
  ghost predicate Started(tail: string)
  {
    && tail != ""
    && var o := if tail[0] == '\\' then 1 else 0;
       o < |tail| && tail[o] == '<' && '>' !in tail[o..] && (forall i :: o < i < |tail| ==> tail[i] != '<')
  }

  /** The last bracket of the text opens at o and nothing has closed it. */
  ghost predicate Pending(s: string, o: nat)
  {
    o < |s| && s[o] == '<' && forall i :: o < i < |s| ==> !IsBracket(s[i])
  }

  ghost function PendingLength(s: string, o: nat): nat
    requires Pending(s, o)
  {
    |s| - o + if o > 0 && s[o - 1] == '\\' then 1 else 0
  }

  /** Exactly what is held back: from the unclosed bracket on, with a backslash in front of it, up to 92 characters; else nothing. */
  lemma HoldbackExact(s: string)
    ensures forall o :: Pending(s, o) ==> HoldbackChars(s) == if PendingLength(s, o) <= 92 then PendingLength(s, o) else 0
    ensures (forall o :: !Pending(s, o)) ==> HoldbackChars(s) == 0
  {
    var opening := LastOpen(s);
    if opening >= 0 && '>' !in s[opening..] {
      assert forall i :: opening < i < |s| ==> s[i] == s[opening..][i - opening];
      assert Pending(s, opening);
    }
    forall o | Pending(s, o) ensures o == opening && '>' !in s[opening..] {
    }
  }

  /** No round lags behind: whatever it had sent before, it has now sent all it decodes but 92 characters, or all there is. */
  lemma SentPromptly(decode: string -> string, raw: string, emitted: string)
    requires Round(decode, raw, emitted, false).Sent?
    ensures var m, out := decode(raw), Round(decode, raw, emitted, false).text;
            && emitted <= out <= m && |m| <= |out| + 92
            && ((forall o :: !Pending(m, o)) ==> out == m)
    ensures Round(decode, raw, emitted, true) == Sent(decode(raw))
  {
    HoldbackExact(decode(raw));
  }

  lemma TokenTail(g: Grammar, s: string, k: nat)
    requires s != "" && FirstPiece(g, s).Tok? && 0 < k < Advance(g, s)
    requires k == 1 ==> s[0] == '<'
    ensures Started(s[..k])
  {
    MatchShape(g, s);
  }

  /** The length of the token that position c falls inside, escaping backslash included. */
  ghost function TokenAt(g: Grammar, resolved: map<string, string>, s: string, c: nat): nat
    requires c <= |s|
  {
    DecodingTotal(g, resolved);
    if Splits(DecodingOf(g, resolved), s, c)
    then DecodingOf(g, resolved).step(s[PieceStart(DecodingOf(g, resolved), s, c)..]).length
    else 0
  }

  /** Position c lies between the escaping backslash and the bracket of a token that is resolved. */
  ghost predicate CutsEscape(g: Grammar, resolved: map<string, string>, s: string, c: nat)
    requires c <= |s|
  {
    DecodingTotal(g, resolved);
    var w := DecodingOf(g, resolved);
    Splits(w, s, c) && c == PieceStart(w, s, c) + 1 && s[c - 1] == '\\'
  }

  lemma SplitTail(g: Grammar, s: string, p: nat, c: nat)
    requires p < c <= |s| && FirstPiece(g, s[p..]).Tok? && c < p + Advance(g, s[p..])
    requires c == p + 1 ==> s[p] != '\\'
    ensures Started(s[p..c])
  {
    var t := s[p..];
    MatchShape(g, t);
    assert t[..c - p] == s[p..c];
    TokenTail(g, t, c - p);
  }

  /**
   * Where a round sends part of a token that is resolved later, by position alone: right behind
   * the escaping backslash, if no earlier bracket keeps that backslash back, or so far into a
   * token that more would have to be held back than the limit allows.
   */
  ghost predicate Exposes(g: Grammar, resolved: map<string, string>, s: string, c: nat)
    requires c <= |s|
  {
    DecodingTotal(g, resolved);
    var w := DecodingOf(g, resolved);
    var p := PieceStart(w, s, c);
    && Splits(w, s, c)
    && var before := Decode(g, s[..p], resolved);
       if CutsEscape(g, resolved, s, c) then HoldbackChars(before + "\\") == 0
       else c - p + (if s[p] == '<' && EndsInBackslash(before) then 1 else 0) > MAX_TOKEN_LENGTH
  }

  lemma DecodedSoFar(g: Grammar, resolved: map<string, string>, s: string, p: nat, c: nat)
    requires p <= c <= |s| && Lawful(DecodingOf(g, resolved)) && Agrees(Decoder(g, resolved), DecodingOf(g, resolved))
    requires Rewrite(DecodingOf(g, resolved), s[..c]) == Rewrite(DecodingOf(g, resolved), s[..p]) + s[p..c]
    ensures Decoder(g, resolved)(s[..c]) == Decode(g, s[..p], resolved) + s[p..c]
  {
    assert Decoder(g, resolved)(s[..c]) == Rewrite(DecodingOf(g, resolved), s[..c]);
    assert Decoder(g, resolved)(s[..p]) == Rewrite(DecodingOf(g, resolved), s[..p]);
  }

  /** A round inside a resolved token has the decoding of what precedes it and the token's part; all of that part is held back, or nothing. */
  lemma SplitHeldExactly(g: Grammar, resolved: map<string, string>, s: string, c: nat)
    requires Lawful(DecodingOf(g, resolved)) && Agrees(Decoder(g, resolved), DecodingOf(g, resolved))
    requires c <= |s| && Splits(DecodingOf(g, resolved), s, c)
    ensures var p := PieceStart(DecodingOf(g, resolved), s, c);
            var m := Decode(g, s[..p], resolved) + s[p..c];
            && Decoder(g, resolved)(s[..c]) == m
            && if Exposes(g, resolved, s, c) then HoldbackChars(m) == 0 else HoldbackChars(m) >= c - p
  {
    var w := DecodingOf(g, resolved);
    var p := PieceStart(w, s, c);
    PieceReaches(w, s, c);
    UpTo(w, s, c);
    DecodedSoFar(g, resolved, s, p, c);
    if CutsEscape(g, resolved, s, c) {
      assert s[p..c] == "\\";
    } else {
      SplitTail(g, s, p, c);
      HeldExactly(Decode(g, s[..p], resolved), s[p..c]);
      assert s[p..c][0] == s[p];
    }
  }

  /** Being held back by position is being held back: what a round sends, as the position tells. */
  lemma ExposedExactly(g: Grammar, resolved: map<string, string>, s: string, c: nat)
    requires c <= |s|
    ensures LeaksToken(g, resolved, s, c) <==> Exposes(g, resolved, s, c)
    ensures Exposes(g, resolved, s, c) ==>
              var p := PieceStart(DecodingOf(g, resolved), s, c);
              Sends(Decoder(g, resolved), s, c) == Decode(g, s[..p], resolved) + s[p..c]
  {
    var w := DecodingOf(g, resolved);
    DecodingLawful(g, resolved);
    if Splits(w, s, c) {
      var p := PieceStart(w, s, c);
      SplitHeldExactly(g, resolved, s, c);
      assert Decoder(g, resolved)(s[..p]) == Rewrite(w, s[..p]);
    }
  }

  /** The part of the token that round k has sent is, by coincidence, how its decoding goes on, at every later round. */
  ghost predicate Coincides(g: Grammar, resolved: map<string, string>, s: string, cuts: seq<nat>, k: nat)
    requires Cuts(s, cuts) && k < |cuts|
  {
    DecodingTotal(g, resolved);
    var p := PieceStart(DecodingOf(g, resolved), s, cuts[k]);
    && s[p..cuts[k]] <= Decode(g, s[p..], resolved)
    && forall j :: k <= j < |cuts| ==> s[p..cuts[k]] <= Decode(g, s[p..cuts[j]], resolved)
  }

  lemma CoincidesIsBlends(g: Grammar, resolved: map<string, string>, s: string, cuts: seq<nat>, k: nat)
    requires Total(DecodingOf(g, resolved)) && Agrees(Decoder(g, resolved), DecodingOf(g, resolved))
    requires Cuts(s, cuts) && k < |cuts|
    ensures Coincides(g, resolved, s, cuts, k) <==> Blends(DecodingOf(g, resolved), s, cuts, k)
  {
    var decode, w := Decoder(g, resolved), DecodingOf(g, resolved);
    var p := PieceStart(w, s, cuts[k]);
    assert decode(s[p..]) == Rewrite(w, s[p..]);
    forall j | k <= j < |cuts| ensures Decode(g, s[p..cuts[j]], resolved) == Rewrite(w, s[p..cuts[j]]) {
      assert decode(s[p..cuts[j]]) == Rewrite(w, s[p..cuts[j]]);
    }
  }

  lemma RoundStandsWhen(g: Grammar, resolved: map<string, string>, s: string, cuts: seq<nat>, k: nat)
    requires Cuts(s, cuts) && k < |cuts|
    ensures Stands(Decoder(g, resolved), s, cuts, k, Sends(Decoder(g, resolved), s, cuts[k])) <==>
            (Exposes(g, resolved, s, cuts[k]) ==> Coincides(g, resolved, s, cuts, k))
  {
    var decode, w := Decoder(g, resolved), DecodingOf(g, resolved);
    DecodingLawful(g, resolved);
    ExposedExactly(g, resolved, s, cuts[k]);
    if Exposes(g, resolved, s, cuts[k]) {
      var p := PieceStart(w, s, cuts[k]);
      assert decode(s[..p]) == Rewrite(w, s[..p]);
      LeakStands(decode, w, s, cuts, k);
      CoincidesIsBlends(g, resolved, s, cuts, k);
    } else {
      SoundRoundStands(decode, w, s, cuts, k);
    }
  }

  /**
   * When a streamed answer arrives as the decoding of the whole answer, for every answer, every
   * choice of rounds and every stored value: exactly when each round that exposes part of a
   * resolved token exposes what the decoding spells anyway; otherwise it ends in an error.
   */
  lemma StreamIff(g: Grammar, s: string, cuts: seq<nat>, resolved: map<string, string>)
    requires Cuts(s, cuts)
    ensures var out := Rounds(Decoder(g, resolved), s, cuts, "");
            if forall k :: 0 <= k < |cuts| && Exposes(g, resolved, s, cuts[k]) ==> Coincides(g, resolved, s, cuts, k)
            then out == Sent(Decode(g, s, resolved))
            else out == Underflow
  {
    RoundsExact(Decoder(g, resolved), s, cuts, "");
    forall k | 0 <= k < |cuts|
      ensures Stands(Decoder(g, resolved), s, cuts, k, Sends(Decoder(g, resolved), s, cuts[k])) <==>
              (Exposes(g, resolved, s, cuts[k]) ==> Coincides(g, resolved, s, cuts, k))
    {
      RoundStandsWhen(g, resolved, s, cuts, k);
    }
  }

  /** The value of the token that position c falls inside starts with another character than the token. */
  ghost predicate Telling(g: Grammar, resolved: map<string, string>, s: string, c: nat)
    requires c <= |s|
  {
    DecodingTotal(g, resolved);
    var p := PieceStart(DecodingOf(g, resolved), s, c);
    Splits(DecodingOf(g, resolved), s, c) ==>
      var value := DecodingOf(g, resolved).step(s[p..]).out;
      value != "" && value[0] != s[p]
  }

  lemma DifferAtStart(a: string, b: string)
    requires a != "" && b != "" && a[0] != b[0]
    ensures !(a <= b)
  {
  }

  lemma TellingNeverCoincides(g: Grammar, resolved: map<string, string>, s: string, cuts: seq<nat>, k: nat)
    requires Cuts(s, cuts) && k < |cuts| && Exposes(g, resolved, s, cuts[k]) && Telling(g, resolved, s, cuts[k])
    ensures !Coincides(g, resolved, s, cuts, k)
  {
    DecodingLawful(g, resolved);
    var w := DecodingOf(g, resolved);
    var p := PieceStart(w, s, cuts[k]);
    var t := s[p..];
    assert Decoder(g, resolved)(t) == Rewrite(w, t);
    assert Advances(w, t);
    assert Rewrite(w, t)[0] == w.step(t).out[0];
    DifferAtStart(s[p..cuts[k]], Decode(g, t, resolved));
  }

  /** For values that do not start like a token, the condition is the position of the rounds alone. */
  lemma PlainStreamIff(g: Grammar, s: string, cuts: seq<nat>, resolved: map<string, string>)
    requires Cuts(s, cuts) && forall k :: 0 <= k < |cuts| ==> Telling(g, resolved, s, cuts[k])
    ensures var out := Rounds(Decoder(g, resolved), s, cuts, "");
            if exists k :: 0 <= k < |cuts| && Exposes(g, resolved, s, cuts[k])
            then out == Underflow
            else out == Sent(Decode(g, s, resolved))
  {
    StreamIff(g, s, cuts, resolved);
    if k :| 0 <= k < |cuts| && Exposes(g, resolved, s, cuts[k]) {
      TellingNeverCoincides(g, resolved, s, cuts, k);
    }
  }

  /** No round cuts off the backslash of a resolved token, or inside one longer than the holdback. */
  ghost predicate CutsClear(g: Grammar, resolved: map<string, string>, s: string, cuts: seq<nat>)
  {
    && Cuts(s, cuts)
    && forall k :: 0 <= k < |cuts| ==>
         !CutsEscape(g, resolved, s, cuts[k]) && TokenAt(g, resolved, s, cuts[k]) <= MAX_TOKEN_LENGTH
  }

  lemma ClearExposesNothing(g: Grammar, resolved: map<string, string>, s: string, c: nat)
    requires c <= |s| && !CutsEscape(g, resolved, s, c) && TokenAt(g, resolved, s, c) <= MAX_TOKEN_LENGTH
    ensures !Exposes(g, resolved, s, c)
  {
    DecodingTotal(g, resolved);
    PieceReaches(DecodingOf(g, resolved), s, c);
  }

  /** The promise made for streaming: whatever the values, rounds clear of escapes and of overlong tokens deliver. */
  lemma StreamAnySplit(g: Grammar, s: string, cuts: seq<nat>, resolved: map<string, string>)
    requires CutsClear(g, resolved, s, cuts)
    ensures Rounds(Decoder(g, resolved), s, cuts, "") == Sent(Decode(g, s, resolved))
  {
    forall k | 0 <= k < |cuts| ensures !Exposes(g, resolved, s, cuts[k]) {
      ClearExposesNothing(g, resolved, s, cuts[k]);
    }
    StreamIff(g, s, cuts, resolved);
  }

  lemma UnheldRoundFails(decode: string -> string, s: string, c: nat)
    requires c <= |s| && HoldbackChars(decode(s[..c])) == 0 && !(decode(s[..c]) <= decode(s))
    ensures Rounds(decode, s, [c], "") == Underflow
  {
    var m := decode(s[..c]);
    assert Sends(decode, s, c) == m[..|m|] == m;
    RoundsExact(decode, s, [c], "");
    assert !Stands(decode, s, [c], 0, Sends(decode, s, [c][0]));
  }

  /** The smallest failing stream: a round between the backslash and the bracket it escapes. */
  lemma SplitEscapeFails(g: Grammar)
    requires Numbers(g, "PERSON")
    ensures var token := MintOrdinal("PERSON", 1);
            Rounds(Decoder(g, map[token := "Ada"]), "\\" + token, [1], "") == Underflow
  {
    var token := MintOrdinal("PERSON", 1);
    var s, resolved := "\\" + token, map[token := "Ada"];
    NumberedRecognised(g, "PERSON", 1);
    EscapedScan(g, token);
    var ps := Scan(g, s);
    assert ps[0] == Tok(s, token) && ps[1..] == [];
    assert Decode(g, s, resolved) == "Ada" by { assert Resolve(ps, resolved) == ResolvePiece(ps[0], resolved) + Resolve(ps[1..], resolved); }
    assert s[..1] == "\\";
    NoOpenNoTokens(g, "\\");
    DecodeUntouched(g, "\\", resolved);
    assert HoldbackChars("\\") == 0 by { assert LastOpen("\\") == -1; }
    UnheldRoundFails(Decoder(g, resolved), s, 1);
  }

  lemma DecodeOneToken(g: Grammar, t: string, value: string)
    requires Recognised(g, t)
    ensures Decode(g, t, map[t := value]) == value
  {
    RecognisedScan(g, t);
    var ps := Scan(g, t);
    assert ps[1..] == [] && Resolve(ps, map[t := value]) == ResolvePiece(ps[0], map[t := value]) + Resolve(ps[1..], map[t := value]);
  }

  /** A token longer than the holdback is not kept back when only its last character is missing. */
  lemma OverlongNotHeld(g: Grammar, t: string)
    requires Recognised(g, t) && |t| > MAX_TOKEN_LENGTH + 1
    ensures '>' !in t[..|t| - 1] && HoldbackChars(t[..|t| - 1]) == 0
  {
    var c := |t| - 1;
    RecognisedShape(g, t);
    OpenShape(g, t);
    TokenTail(g, t, c);
    HeldExactly("", t[..c]);
    assert "" + t[..c] == t[..c];
  }

  lemma UnclosedDecodes(g: Grammar, t: string, resolved: map<string, string>)
    requires t != "" && '>' !in t[..|t| - 1]
    ensures Decode(g, t[..|t| - 1], resolved) == t[..|t| - 1]
  {
    NoCloseNoTokens(g, t[..|t| - 1]);
    DecodeUntouched(g, t[..|t| - 1], resolved);
  }

  /** The other failing streams: a token longer than the holdback, cut right before it closes. */
  lemma OverlongTokenFails(g: Grammar, t: string, value: string)
    requires Recognised(g, t) && |t| > MAX_TOKEN_LENGTH + 1 && value != "" && value[0] != '<'
    ensures Rounds(Decoder(g, map[t := value]), t, [|t| - 1], "") == Underflow
  {
    OverlongNotHeld(g, t);
    DecodeOneToken(g, t, value);
    UnclosedDecodes(g, t, map[t := value]);
    DifferAtStart(t[..|t| - 1], value);
    UnheldRoundFails(Decoder(g, map[t := value]), t, |t| - 1);
  }

  // ------------------------------------------------------------ the loop

  /** The sampled rounds alone. */
  ghost function Sofar(decode: string -> string, s: string, cuts: seq<nat>): Sent
    requires forall k :: 0 <= k < |cuts| ==> cuts[k] <= |s|
  {
    if cuts == [] then Sent("")
    else
      var prior := Sofar(decode, s, cuts[..|cuts| - 1]);
      if prior.Underflow? then prior else Round(decode, s[..cuts[|cuts| - 1]], prior.text, false)
  }

  lemma {:induction false} SofarThenRest(
    decode: string -> string, s: string, cuts: seq<nat>, rest: seq<nat>)
    requires forall k :: 0 <= k < |cuts| ==> cuts[k] <= |s|
    requires forall k :: 0 <= k < |rest| ==> rest[k] <= |s|
    ensures var prior := Sofar(decode, s, cuts);
            Rounds(decode, s, cuts + rest, "")
            == if prior.Underflow? then Underflow else Rounds(decode, s, rest, prior.text)
    decreases |cuts|
  {
    if cuts == [] {
      assert cuts + rest == rest;
    } else {
      var n := |cuts| - 1;
      assert cuts + rest == cuts[..n] + ([cuts[n]] + rest);
      SofarThenRest(decode, s, cuts[..n], [cuts[n]] + rest);
      assert ([cuts[n]] + rest)[1..] == rest;
    }
  }

  lemma {:induction false} PrefixOfStream(chunks: seq<string>, sampled: seq<bool>, i: nat)
    requires |sampled| == |chunks| && i <= |chunks|
    ensures Joined(chunks[..i]) <= Joined(chunks)
    ensures SampledCuts(chunks[..i], sampled[..i]) <= SampledCuts(chunks, sampled)
    decreases |chunks| - i
  {
    if i == |chunks| {
      assert chunks[..i] == chunks && sampled[..i] == sampled;
    } else {
      PrefixOfStream(chunks, sampled, i + 1);
      assert chunks[..i + 1][..i] == chunks[..i] && sampled[..i + 1][..i] == sampled[..i];
    }
  }

  lemma StreamStep(chunks: seq<string>, sampled: seq<bool>, i: nat)
    requires |sampled| == |chunks| && i < |chunks|
    ensures var all := Joined(chunks);
            var cuts, next := SampledCuts(chunks[..i], sampled[..i]), SampledCuts(chunks[..i + 1], sampled[..i + 1]);
            var received := Joined(chunks[..i]) + chunks[i];
            && |received| <= |all| && received == Joined(chunks[..i + 1]) == all[..|received|]
            && cuts <= SampledCuts(chunks, sampled) && next <= SampledCuts(chunks, sampled)
            && next == (if sampled[i] then cuts + [|received|] else cuts)
  {
    PrefixOfStream(chunks, sampled, i);
    PrefixOfStream(chunks, sampled, i + 1);
    assert chunks[..i + 1][..i] == chunks[..i] && sampled[..i + 1][..i] == sampled[..i];
  }

  /** After i chunks: the text received, and the rounds run so far, none of which failed. */
  ghost predicate Running(
    decode: string -> string, chunks: seq<string>, sampled: seq<bool>, i: nat, received: string, emitted: string)
    requires |sampled| == |chunks|
  {
    && i <= |chunks|
    && received == Joined(chunks[..i])
    && SampledCuts(chunks[..i], sampled[..i]) <= SampledCuts(chunks, sampled)
    && Sofar(decode, Joined(chunks), SampledCuts(chunks[..i], sampled[..i])) == Sent(emitted)
  }

  /** One more round after those run so far: it goes on from them, or the whole stream fails. */
  lemma OneMoreRound(decode: string -> string, all: string, cuts: seq<nat>, c: nat, every: seq<nat>, emitted: string)
    requires forall k :: 0 <= k < |every| ==> every[k] <= |all|
    requires forall k :: 0 <= k < |cuts| ==> cuts[k] <= |all|
    requires c <= |all| && cuts + [c] <= every
    requires Sofar(decode, all, cuts) == Sent(emitted)
    ensures Sofar(decode, all, cuts + [c]) == Round(decode, all[..c], emitted, false)
    ensures Round(decode, all[..c], emitted, false).Underflow? ==> Rounds(decode, all, every, "") == Underflow
  {
    var longer := cuts + [c];
    assert longer[..|cuts|] == cuts && longer[|cuts|] == c;
    assert every == longer + every[|longer|..];
    SofarThenRest(decode, all, longer, every[|longer|..]);
  }

  lemma ChunkArrives(
    decode: string -> string, chunks: seq<string>, sampled: seq<bool>, i: nat, received: string, emitted: string)
    requires |sampled| == |chunks| && i < |chunks| && Running(decode, chunks, sampled, i, received, emitted)
    ensures var more := received + chunks[i];
            var next := Round(decode, more, emitted, false);
            && (!sampled[i] ==> Running(decode, chunks, sampled, i + 1, more, emitted))
            && (sampled[i] && next.Sent? ==> Running(decode, chunks, sampled, i + 1, more, next.text))
            && (sampled[i] && next.Underflow? ==> Rounds(decode, Joined(chunks), SampledCuts(chunks, sampled), "") == Underflow)
  {
    StreamStep(chunks, sampled, i);
    if sampled[i] {
      var cuts, more := SampledCuts(chunks[..i], sampled[..i]), received + chunks[i];
      OneMoreRound(decode, Joined(chunks), cuts, |more|, SampledCuts(chunks, sampled), emitted);
    }
  }

  lemma StreamEnds(decode: string -> string, chunks: seq<string>, sampled: seq<bool>, received: string, emitted: string)
    requires |sampled| == |chunks| && Running(decode, chunks, sampled, |chunks|, received, emitted)
    ensures Round(decode, received, emitted, true) == Rounds(decode, Joined(chunks), SampledCuts(chunks, sampled), "")
  {
    assert chunks[..|chunks|] == chunks && sampled[..|chunks|] == sampled;
    var cuts := SampledCuts(chunks, sampled);
    SofarThenRest(decode, Joined(chunks), cuts, []);
    assert cuts + [] == cuts;
  }

  /** The stream loop: accumulate, decode on sampled chunks, flush at the end. */
  method RunStream(decode: string -> string, chunks: seq<string>, sampled: seq<bool>) returns (r: Sent)
    requires |sampled| == |chunks|
    ensures r == Rounds(decode, Joined(chunks), SampledCuts(chunks, sampled), "")
  {
    var received := "";
    var emitted := "";
    for i := 0 to |chunks|
      invariant Running(decode, chunks, sampled, i, received, emitted)
    {
      ChunkArrives(decode, chunks, sampled, i, received, emitted);
      received := received + chunks[i];
      if sampled[i] {
        var next := Round(decode, received, emitted, false);
        if next.Underflow? { return Underflow; }
        emitted := next.text;
      }
    }
    StreamEnds(decode, chunks, sampled, received, emitted);
    r := Round(decode, received, emitted, true);
  }
}
