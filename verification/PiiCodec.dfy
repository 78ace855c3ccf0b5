/** Encoding a batch of texts against one shared token space: minting, placing and splicing tokens. */
module PiiCodec {
  import opened Text
  import opened PiiTypes
  import opened PiiGrammar

  const MINT_ATTEMPT_LIMIT: nat := 64

  datatype Action = Block | Mask | Encode

  /** One request for a token: an entity type, an ordinal and the value to stand for. */
  datatype Draw = Draw(entity: string, ordinal: nat, value: string)

  /**
   * A codec behind per-entity actions.  `mint` gives the token for a draw, or refuses.  A codec
   * that mints at random is covered too: no draw is made twice in a batch, so any sequence of
   * random tokens is a function of the draws.
   */
  datatype AnyCodec = AnyCodec(actions: map<string, Action>, defaultAction: Action, mint: Draw -> Option<string>)
  {
    function ActionFor(entity: string): Action
    {
      if entity in actions then actions[entity] else defaultAction
    }

    predicate Reversible(entity: string) { ActionFor(entity) != Mask }

    function Mint(d: Draw): Option<string>
    {
      if Reversible(d.entity) then mint(d) else Some(MintMasked(d.entity))
    }
  }

  /** Two draws give one token only for one entity type, and for one ordinal or one value. */
  ghost predicate ToldApart(c: AnyCodec, a: Draw, b: Draw)
  {
    c.mint(a).Some? && c.mint(a) == c.mint(b) ==> a.entity == b.entity && (a.ordinal == b.ordinal || a.value == b.value)
  }

  ghost predicate Distinguishes(c: AnyCodec) { forall a, b :: ToldApart(c, a, b) }

  /** Codecs whose tokens tell values apart; all results are about these. */
  type Codec = c: AnyCodec | Distinguishes(c) ghost witness AnyCodec(map[], Encode, (d: Draw) => None)

  datatype Placement = Placement(textIndex: nat, span: Span, token: string)

  datatype Located = Located(textIndex: nat, span: Span)

  datatype Minting = Minted(token: string, ordinal: nat) | Refused | Spent

  datatype Assignment = Assignment(
    byValue: map<(string, string), string>,
    ordinals: map<string, nat>,
    placements: seq<Placement>)

  datatype CodecError = TokenSpaceExhausted(entity: string) | MintRefused(entity: string)

  datatype Assigned = Ok(state: Assignment) | Failed(error: CodecError)

  datatype Draft = Draft(texts: seq<string>, mapping: map<string, string>, placements: seq<Placement>)

  datatype Encoded = Drafted(draft: Draft) | NotEncoded(error: CodecError)

  /** The first of `left` consecutive ordinals whose token the source does not contain, unless minting is refused before. */
  function MintUnused(c: Codec, d: Draw, left: nat, avoid: set<string>): (m: Minting)
    ensures m.Minted? ==> c.Mint(d.(ordinal := m.ordinal)) == Some(m.token) && m.token !in avoid
    ensures m.Minted? ==> d.ordinal <= m.ordinal < d.ordinal + left
    ensures m.Minted? ==> forall k :: d.ordinal <= k < m.ordinal ==> Taken(c, d.entity, d.value, k, avoid)
    ensures m.Spent? ==> forall k :: d.ordinal <= k < d.ordinal + left ==> Taken(c, d.entity, d.value, k, avoid)
    ensures m.Refused? ==> exists k :: d.ordinal <= k < d.ordinal + left && c.Mint(d.(ordinal := k)) == None
    decreases left
  {
    if left == 0 then Spent
    else if c.Mint(d).None? then assert c.Mint(d.(ordinal := d.ordinal)) == None; Refused
    else if c.Mint(d).value !in avoid then Minted(c.Mint(d).value, d.ordinal)
    else
      assert Taken(c, d.entity, d.value, d.ordinal, avoid);
      MintUnused(c, d.(ordinal := d.ordinal + 1), left - 1, avoid)
  }

  /** The token at ordinal k is one the source already contains. */
  predicate Taken(c: Codec, entity: string, value: string, k: nat, avoid: set<string>)
  {
    c.Mint(Draw(entity, k, value)).Some? && c.Mint(Draw(entity, k, value)).value in avoid
  }

  function Identity(texts: seq<string>, at: Located): (string, string)
  {
    (at.span.entity, if at.textIndex < |texts| then TextFrom(at.span, texts[at.textIndex]) else "")
  }

  function NextOrdinal(st: Assignment, entity: string): nat
  {
    1 + (if entity in st.ordinals then st.ordinals[entity] else 0)
  }

  function NextDraw(st: Assignment, id: (string, string)): Draw { Draw(id.0, NextOrdinal(st, id.0), id.1) }

  function AssignOne(c: Codec, texts: seq<string>, at: Located, avoid: set<string>, st: Assignment): Assigned
  {
    var id := Identity(texts, at);
    if id in st.byValue then
      Ok(st.(placements := st.placements + [Placement(at.textIndex, at.span, st.byValue[id])]))
    else
      match MintUnused(c, NextDraw(st, id), MINT_ATTEMPT_LIMIT, avoid)
      case Refused => Failed(MintRefused(id.0))
      case Spent => Failed(TokenSpaceExhausted(id.0))
      case Minted(token, ordinal) =>
        Ok(Assignment(
             st.byValue[id := token],
             st.ordinals[id.0 := ordinal],
             st.placements + [Placement(at.textIndex, at.span, token)]))
  }

  function AssignAll(c: Codec, texts: seq<string>, located: seq<Located>, avoid: set<string>, st: Assignment): Assigned
    decreases |located|
  {
    if located == [] then Ok(st)
    else
      var next := AssignOne(c, texts, located[0], avoid, st);
      if next.Failed? then next
      else AssignAll(c, texts, located[1..], avoid, next.state)
  }

  function Tagged(i: nat, spans: seq<Span>): (ls: seq<Located>)
    ensures |ls| == |spans|
  {
    seq(|spans|, k requires 0 <= k < |spans| => Located(i, spans[k]))
  }

  function OrderAll(spansByText: seq<seq<Span>>): (own: seq<seq<Span>>)
    ensures |own| == |spansByText|
    ensures forall i :: 0 <= i < |own| ==> own[i] == InOrder(spansByText[i])
  {
    seq(|spansByText|, i requires 0 <= i < |spansByText| => InOrder(spansByText[i]))
  }

  /** Every span of every text from the i-th on, text by text. */
  function LocateFrom(own: seq<seq<Span>>, i: nat): seq<Located>
    requires i <= |own|
    decreases |own| - i
  {
    if i == |own| then [] else Tagged(i, own[i]) + LocateFrom(own, i + 1)
  }

  function ForText(ps: seq<Placement>, i: nat): (qs: seq<Placement>)
  {
    if ps == [] then []
    else (if ps[0].textIndex == i then [ps[0]] else []) + ForText(ps[1..], i)
  }

  /** Replacing right to left, so that offsets into the original text stay good. */
  function Splice(text: string, ps: seq<Placement>): string
    decreases |ps|
  {
    if ps == [] then text
    else
      var p := ps[|ps| - 1];
      Splice(Take(text, p.span.start) + p.token + Drop(text, p.span.end), ps[..|ps| - 1])
  }

  function AvoidIn(g: Grammar, texts: seq<string>): (avoid: set<string>)
    ensures forall i :: 0 <= i < |texts| ==> CanonicalTokens(g, texts[i]) <= avoid
  {
    if texts == [] then {} else CanonicalTokens(g, texts[0]) + AvoidIn(g, texts[1..])
  }

  /** Tokens of reversible placements, with the value each one stands for. */
  function MappingOf(c: Codec, texts: seq<string>, ps: seq<Placement>): (m: map<string, string>)
  {
    if ps == [] then map[]
    else
      var last := ps[|ps| - 1];
      var m := MappingOf(c, texts, ps[..|ps| - 1]);
      if c.Reversible(last.span.entity)
      then m[last.token := Identity(texts, Located(last.textIndex, last.span)).1]
      else m
  }

  ghost predicate WellDetected(texts: seq<string>, spansByText: seq<seq<Span>>)
  {
    && |texts| == |spansByText|
    && forall i :: 0 <= i < |texts| ==> AllInside(spansByText[i], texts[i]) && Disjoint(spansByText[i])
  }

  function EncodeBatch(g: Grammar, c: Codec, texts: seq<string>, spansByText: seq<seq<Span>>): (e: Encoded)
    requires |texts| == |spansByText|
  {
    var outcome := AssignAll(c, texts, LocateFrom(OrderAll(spansByText), 0), AvoidIn(g, texts), Assignment(map[], map[], []));
    if outcome.Failed? then NotEncoded(outcome.error)
    else
      var ps := outcome.state.placements;
      Drafted(Draft(
                seq(|texts|, i requires 0 <= i < |texts| => Splice(texts[i], ForText(ps, i))),
                MappingOf(c, texts, ps),
                ps))
  }

  // ----------------------------------------------------------- assignment

  /** The token was minted for this entity and value at an ordinal already used up. */
  ghost predicate MintedFor(c: Codec, token: string, id: (string, string), bound: nat)
  {
    exists k: nat :: 1 <= k <= bound && c.mint(Draw(id.0, k, id.1)) == Some(token)
  }

  ghost predicate TokenOf(c: Codec, avoid: set<string>, st: Assignment, id: (string, string))
    requires id in st.byValue
  {
    if c.Reversible(id.0)
    then id.0 in st.ordinals && st.byValue[id] !in avoid && MintedFor(c, st.byValue[id], id, st.ordinals[id.0])
    else st.byValue[id] == MintMasked(id.0)
  }

  ghost predicate Injective(c: Codec, byValue: map<(string, string), string>)
  {
    forall a, b :: a in byValue && b in byValue && c.Reversible(a.0) && c.Reversible(b.0) ==>
      (byValue[a] == byValue[b] ==> a == b)
  }

  ghost predicate Consistent(c: Codec, avoid: set<string>, st: Assignment)
  {
    && (forall id :: id in st.byValue ==> TokenOf(c, avoid, st, id))
    && Injective(c, st.byValue)
  }

  /** A freshly minted token differs from every token handed out before it. */
  lemma FreshToken(c: Codec, avoid: set<string>, st: Assignment, id: (string, string), m: Minting, prior: (string, string))
    requires Consistent(c, avoid, st) && Mintable(c, avoid, st, id, m) && c.Reversible(id.0)
    requires prior in st.byValue && c.Reversible(prior.0)
    ensures st.byValue[prior] != m.token
  {
    assert TokenOf(c, avoid, st, prior);
    var k: nat :| 1 <= k <= st.ordinals[prior.0] && c.mint(Draw(prior.0, k, prior.1)) == Some(st.byValue[prior]);
    assert ToldApart(c, Draw(prior.0, k, prior.1), Draw(id.0, m.ordinal, id.1));
    assert prior == (prior.0, prior.1) && id == (id.0, id.1);
  }

  /** The table after minting a new token. */
  ghost function WithToken(st: Assignment, id: (string, string), m: Minting): Assignment
  {
    if m.Minted? then st.(byValue := st.byValue[id := m.token], ordinals := st.ordinals[id.0 := m.ordinal]) else st
  }

  ghost predicate Mintable(c: Codec, avoid: set<string>, st: Assignment, id: (string, string), m: Minting)
  {
    && m.Minted? && id !in st.byValue && c.Mint(Draw(id.0, m.ordinal, id.1)) == Some(m.token)
    && m.token !in avoid && m.ordinal >= NextOrdinal(st, id.0)
  }

  lemma OldTokenStays(c: Codec, avoid: set<string>, st: Assignment, id: (string, string), m: Minting, prior: (string, string))
    requires Consistent(c, avoid, st) && Mintable(c, avoid, st, id, m) && prior in st.byValue
    ensures TokenOf(c, avoid, WithToken(st, id, m), prior)
  {
    assert TokenOf(c, avoid, st, prior);
    if c.Reversible(prior.0) {
      var k: nat :| 1 <= k <= st.ordinals[prior.0] && c.mint(Draw(prior.0, k, prior.1)) == Some(st.byValue[prior]);
      assert MintedFor(c, st.byValue[prior], prior, WithToken(st, id, m).ordinals[prior.0]);
    }
  }

  lemma MintKeepsConsistent(c: Codec, avoid: set<string>, st: Assignment, id: (string, string), m: Minting)
    requires Consistent(c, avoid, st) && Mintable(c, avoid, st, id, m)
    ensures Consistent(c, avoid, WithToken(st, id, m))
  {
    var next := WithToken(st, id, m);
    assert c.Reversible(id.0) ==> MintedFor(c, m.token, id, m.ordinal);
    forall prior | prior in st.byValue ensures TokenOf(c, avoid, next, prior) {
      OldTokenStays(c, avoid, st, id, m, prior);
    }
    forall prior | prior in st.byValue && c.Reversible(prior.0) && c.Reversible(id.0) ensures st.byValue[prior] != m.token {
      FreshToken(c, avoid, st, id, m, prior);
    }
  }

  lemma SameTables(c: Codec, avoid: set<string>, a: Assignment, b: Assignment)
    requires Consistent(c, avoid, a) && a.byValue == b.byValue && a.ordinals == b.ordinals
    ensures Consistent(c, avoid, b)
  {
    forall id | id in b.byValue ensures TokenOf(c, avoid, b, id) {
      assert TokenOf(c, avoid, a, id);
    }
  }

  lemma AssignOneKeeps(c: Codec, texts: seq<string>, at: Located, avoid: set<string>, st: Assignment)
    requires Consistent(c, avoid, st)
    ensures var next := AssignOne(c, texts, at, avoid, st);
            next.Ok? ==>
              && Consistent(c, avoid, next.state)
              && Identity(texts, at) in next.state.byValue
              && next.state.placements
                 == st.placements + [PlacedAt(texts, at, next.state.byValue)]
              && Grown(st.byValue, next.state.byValue)
  {
    var id := Identity(texts, at);
    var next := AssignOne(c, texts, at, avoid, st);
    if next.Ok? && id !in st.byValue {
      var m := MintUnused(c, NextDraw(st, id), MINT_ATTEMPT_LIMIT, avoid);
      MintKeepsConsistent(c, avoid, st, id, m);
      SameTables(c, avoid, WithToken(st, id, m), next.state);
    }
  }

  /** The placement that the final table of tokens gives a span. */
  ghost function PlacedAt(texts: seq<string>, at: Located, byValue: map<(string, string), string>): Placement
  {
    var id := Identity(texts, at);
    Placement(at.textIndex, at.span, if id in byValue then byValue[id] else "")
  }

  ghost function Placed(texts: seq<string>, located: seq<Located>, byValue: map<(string, string), string>): (ps: seq<Placement>)
    ensures |ps| == |located|
  {
    seq(|located|, k requires 0 <= k < |located| => PlacedAt(texts, located[k], byValue))
  }

  lemma PlacedConcat(
    texts: seq<string>, a: seq<Located>, b: seq<Located>, byValue: map<(string, string), string>)
    ensures Placed(texts, a + b, byValue) == Placed(texts, a, byValue) + Placed(texts, b, byValue)
  {
  }

  ghost predicate Grown(a: map<(string, string), string>, b: map<(string, string), string>)
  {
    forall id :: id in a ==> id in b && b[id] == a[id]
  }

  /** What assigning a list of spans makes of a table of tokens. */
  ghost predicate Extends(texts: seq<string>, located: seq<Located>, st: Assignment, end: Assignment)
  {
    && Grown(st.byValue, end.byValue)
    && (forall k :: 0 <= k < |located| ==> Identity(texts, located[k]) in end.byValue)
    && end.placements == st.placements + Placed(texts, located, end.byValue)
  }

  lemma PlacedFirst(
    texts: seq<string>, located: seq<Located>, early: map<(string, string), string>, byValue: map<(string, string), string>)
    requires located != [] && Grown(early, byValue) && Identity(texts, located[0]) in early
    ensures Placed(texts, located, byValue) == [PlacedAt(texts, located[0], early)] + Placed(texts, located[1..], byValue)
  {
  }

  lemma Reassociate<T>(a: seq<T>, x: T, b: seq<T>)
    ensures (a + [x]) + b == a + ([x] + b)
  {
  }

  lemma ExtendsStep(texts: seq<string>, located: seq<Located>, st: Assignment, next: Assignment, end: Assignment)
    requires located != []
    requires Grown(st.byValue, next.byValue) && Identity(texts, located[0]) in next.byValue
    requires next.placements == st.placements + [PlacedAt(texts, located[0], next.byValue)]
    requires Extends(texts, located[1..], next, end)
    ensures Extends(texts, located, st, end)
  {
    PlacedFirst(texts, located, next.byValue, end.byValue);
    Reassociate(st.placements, PlacedAt(texts, located[0], next.byValue), Placed(texts, located[1..], end.byValue));
    forall k | 0 <= k < |located| ensures Identity(texts, located[k]) in end.byValue {
      assert k > 0 ==> located[k] == located[1..][k - 1];
    }
  }

  lemma {:induction false} AssignAllKeeps(
    c: Codec, texts: seq<string>, located: seq<Located>, avoid: set<string>, st: Assignment)
    requires Consistent(c, avoid, st)
    ensures var end := AssignAll(c, texts, located, avoid, st);
            end.Ok? ==> Consistent(c, avoid, end.state) && Extends(texts, located, st, end.state)
    decreases |located|
  {
    var end := AssignAll(c, texts, located, avoid, st);
    if located != [] && end.Ok? {
      var next := AssignOne(c, texts, located[0], avoid, st).state;
      AssignOneKeeps(c, texts, located[0], avoid, st);
      AssignAllKeeps(c, texts, located[1..], avoid, next);
      ExtendsStep(texts, located, st, next, end.state);
    }
  }

  // ------------------------------------------------- the codecs themselves

  /** Numbered placeholders. */
  function Placeholder(actions: map<string, Action>, defaultAction: Action): AnyCodec
  {
    AnyCodec(actions, defaultAction, (d: Draw) => Some(MintOrdinal(d.entity, d.ordinal)))
  }

  lemma PlaceholderDistinguishes(actions: map<string, Action>, defaultAction: Action)
    ensures Distinguishes(Placeholder(actions, defaultAction))
  {
    var c := Placeholder(actions, defaultAction);
    forall a, b ensures ToldApart(c, a, b) {
      if c.mint(a) == c.mint(b) {
        MintInjective(a.entity, a.ordinal, b.entity, b.ordinal);
      }
    }
  }

  /**
   * Handles: random ones, or ciphertexts of the values.  `draw` is partial: it may fail, and what
   * it gives outside the draws of a batch does not matter, so it can be taken to give nothing there.
   */
  function HandleCodec(actions: map<string, Action>, defaultAction: Action, draw: Draw -> Option<string>): AnyCodec
  {
    AnyCodec(actions, defaultAction, (d: Draw) => if draw(d).Some? then Some(MintHandle(d.entity, draw(d).value)) else None)
  }

  /** Handles hold no colon, and one handle is drawn twice for an entity type only for one value. */
  ghost predicate DrawsApart(draw: Draw -> Option<string>, a: Draw, b: Draw)
  {
    && (draw(a).Some? ==> ':' !in draw(a).value)
    && (draw(a).Some? && draw(a) == draw(b) && a.entity == b.entity ==> a.ordinal == b.ordinal || a.value == b.value)
  }

  lemma HandleDistinguishes(actions: map<string, Action>, defaultAction: Action, draw: Draw -> Option<string>)
    requires forall a, b :: DrawsApart(draw, a, b)
    ensures Distinguishes(HandleCodec(actions, defaultAction, draw))
  {
    var c := HandleCodec(actions, defaultAction, draw);
    forall a, b ensures ToldApart(c, a, b) {
      assert DrawsApart(draw, a, b) && DrawsApart(draw, b, a);
      if c.mint(a).Some? && c.mint(a) == c.mint(b) {
        HandleInjective(a.entity, draw(a).value, b.entity, draw(b).value);
      }
    }
  }

  /** Whatever the codec mints for the entity type, the grammar reads whole, as itself. */
  ghost predicate MintsKnown(g: Grammar, c: AnyCodec, entity: string)
  {
    forall d: Draw :: d.entity == entity && c.mint(d).Some? ==> Recognised(g, c.mint(d).value)
  }

  lemma PlaceholderMintsKnown(g: Grammar, actions: map<string, Action>, defaultAction: Action, entity: string)
    requires Numbers(g, entity)
    ensures MintsKnown(g, Placeholder(actions, defaultAction), entity)
  {
    forall d: Draw | d.entity == entity ensures Recognised(g, MintOrdinal(d.entity, d.ordinal)) {
      NumberedRecognised(g, entity, d.ordinal);
    }
  }

  lemma HandleMintsKnown(
    g: Grammar, actions: map<string, Action>, defaultAction: Action, draw: Draw -> Option<string>, entity: string)
    requires forall d: Draw :: d.entity == entity && draw(d).Some? ==> Recognised(g, MintHandle(entity, draw(d).value))
    ensures MintsKnown(g, HandleCodec(actions, defaultAction, draw), entity)
  {
  }
}
