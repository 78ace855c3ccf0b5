/** Custom per-token pricing across two ways of reporting cache tokens, and the pricing key of a model. */
module Pricing {
  import opened Text

  /** Custom rates; the cache rates default to the input rate. */
  datatype Rates = Rates(input: real, output: real, cacheRead: Option<real>, cacheCreation: Option<real>)

  /** What custom pricing may be configured with. */
  datatype Pricing = PerToken(rates: Rates) | PerSecond(rate: real) | NoCustom

  datatype Cost = Cost(input: real, output: real)

  function Or<T>(o: Option<T>, default: T): T { if o.Some? then o.value else default }

  function Max(a: int, b: int): int { if a < b then b else a }

  function Price(tokens: nat, rate: real): real { tokens as real * rate }

  function TimePrice(rate: real, millis: real): real { rate * millis / 1000.0 }

  /** The helper: prompt tokens are taken to include both kinds of cache tokens. */
  function CustomCost(p: Pricing, prompt: nat, completion: nat, millis: real, read: nat, creation: nat): Option<Cost>
  {
    match p
    case NoCustom => None
    case PerSecond(rate) => Some(Cost(0.0, TimePrice(rate, millis)))
    case PerToken(r) =>
      var regular := Max(prompt - read - creation, 0);
      Some(Cost(
             Price(regular, r.input)
             + Price(read, Or(r.cacheRead, r.input))
             + Price(creation, Or(r.cacheCreation, r.input)),
             Price(completion, r.output)))
  }

  /** `prompt_tokens_details`: cache counts that the prompt count already includes. */
  datatype Details = Details(cached: Option<nat>, cacheWrite: Option<nat>, cacheCreation: Option<nat>)

  /** A usage object; `read` and `creation` are counts that the prompt count leaves out. */
  datatype Usage = Usage(details: Option<Details>, read: Option<nat>, creation: Option<nat>)

  datatype Normalized = Normalized(prompt: nat, read: nat, creation: nat)

  /** The cache counts and the prompt count that the helper is given. */
  method Normalize(usage: Option<Usage>, prompt: nat, readArg: Option<nat>, creationArg: Option<nat>) returns (n: Normalized)
    ensures n == NormalizedOf(usage, prompt, readArg, creationArg)
  {
    var read, creation := 0, 0;
    var separate := false;
    if usage.Some? {
      if usage.value.details.Some? {
        var d := usage.value.details.value;
        read := Or(d.cached, 0);
        creation := if Or(d.cacheWrite, 0) != 0 then Or(d.cacheWrite, 0) else Or(d.cacheCreation, 0);
      }
      if usage.value.read.Some? || usage.value.creation.Some? {
        separate := true;
        if usage.value.read.Some? { read := usage.value.read.value; }
        if usage.value.creation.Some? { creation := usage.value.creation.value; }
      }
    }
    if read == 0 && Or(readArg, 0) != 0 {
      read := Or(readArg, 0);
      separate := true;
    }
    if creation == 0 && Or(creationArg, 0) != 0 {
      creation := Or(creationArg, 0);
      separate := true;
    }
    n := Normalized(if separate then prompt + read + creation else prompt, read, creation);
  }

  function DetailsRead(u: Option<Usage>): nat
  {
    if u.Some? && u.value.details.Some? then Or(u.value.details.value.cached, 0) else 0
  }

  function DetailsCreation(u: Option<Usage>): nat
  {
    if u.Some? && u.value.details.Some?
    then
      var d := u.value.details.value;
      if Or(d.cacheWrite, 0) != 0 then d.cacheWrite.value else Or(d.cacheCreation, 0)
    else 0
  }

  /** First the counts of the usage object, separate ones winning; an argument fills in for a zero. */
  function Chosen(own: Option<nat>, details: nat, arg: Option<nat>): nat
  {
    var reported := Or(own, details);
    if reported == 0 then Or(arg, 0) else reported
  }

  /** Some count came from outside the prompt count. */
  predicate Separate(u: Option<Usage>, readArg: Option<nat>, creationArg: Option<nat>)
  {
    || (u.Some? && (u.value.read.Some? || u.value.creation.Some?))
    || (Or(if u.Some? then u.value.read else None, DetailsRead(u)) == 0 && Or(readArg, 0) != 0)
    || (Or(if u.Some? then u.value.creation else None, DetailsCreation(u)) == 0 && Or(creationArg, 0) != 0)
  }

  function NormalizedOf(u: Option<Usage>, prompt: nat, readArg: Option<nat>, creationArg: Option<nat>): Normalized
  {
    var read := Chosen(if u.Some? then u.value.read else None, DetailsRead(u), readArg);
    var creation := Chosen(if u.Some? then u.value.creation else None, DetailsCreation(u), creationArg);
    Normalized(if Separate(u, readArg, creationArg) then prompt + read + creation else prompt, read, creation)
  }

  function CostOf(
    p: Pricing, u: Option<Usage>, prompt: nat, completion: nat, millis: real, readArg: Option<nat>, creationArg: Option<nat>): Option<Cost>
  {
    var n := NormalizedOf(u, prompt, readArg, creationArg);
    CustomCost(p, n.prompt, completion, millis, n.read, n.creation)
  }

  /**
   * The same usage costs the same however it is reported: cache tokens outside the prompt count
   * in the usage object, outside it as arguments, or folded into it with the details saying so.
   */
  lemma ConventionsAgree(p: Pricing, prompt: nat, completion: nat, millis: real, read: nat, creation: nat)
    ensures var outside := CostOf(p, Some(Usage(None, Some(read), Some(creation))), prompt, completion, millis, None, None);
            && outside == CostOf(p, None, prompt, completion, millis, Some(read), Some(creation))
            && outside == CostOf(
                 p, Some(Usage(Some(Details(Some(read), None, Some(creation))), None, None)),
                 prompt + read + creation, completion, millis, None, None)
            && outside == CostOf(
                 p, Some(Usage(Some(Details(Some(read), Some(creation), None)), None, None)),
                 prompt + read + creation, completion, millis, None, None)
            && outside == CustomCost(p, prompt + read + creation, completion, millis, read, creation)
  {
  }

  /** The tokens billed in the three classes together. */
  function Billed(prompt: nat, read: nat, creation: nat): nat { Max(prompt - read - creation, 0) + read + creation }

  /**
   * Each prompt token passed to the helper is billed in exactly one class if and only if a count
   * came separately or the prompt count covers both cache counts; otherwise more is billed.
   */
  lemma BilledOnce(u: Option<Usage>, prompt: nat, readArg: Option<nat>, creationArg: Option<nat>)
    ensures var n := NormalizedOf(u, prompt, readArg, creationArg);
            && (Billed(n.prompt, n.read, n.creation) == n.prompt
                <==> Separate(u, readArg, creationArg) || n.read + n.creation <= prompt)
            && Billed(n.prompt, n.read, n.creation) >= n.prompt
  {
  }

  // ----------------------------------------------------- an itemised bill

  datatype Kind = Regular | CacheRead | CacheCreation | Output

  /** What one token of a kind costs: the cache rates default to the input rate. */
  function RateOf(r: Rates, k: Kind): real
  {
    match k
    case Regular => r.input
    case CacheRead => if r.cacheRead.Some? then r.cacheRead.value else r.input
    case CacheCreation => if r.cacheCreation.Some? then r.cacheCreation.value else r.input
    case Output => r.output
  }

  function Count(items: seq<Kind>, k: Kind): nat
  {
    if items == [] then 0 else (if items[0] == k then 1 else 0) + Count(items[1..], k)
  }

  /** The price of the tokens one by one, of the prompt or of the completion. */
  function Itemised(r: Rates, items: seq<Kind>, completion: bool): real
  {
    if items == [] then 0.0
    else (if items[0].Output? == completion then RateOf(r, items[0]) else 0.0) + Itemised(r, items[1..], completion)
  }

  /** The tokens of one kind, each at the given rate. */
  function ItemisedAt(items: seq<Kind>, k: Kind, rate: real): real
  {
    if items == [] then 0.0 else (if items[0] == k then rate else 0.0) + ItemisedAt(items[1..], k, rate)
  }

  lemma {:induction false} CountedAt(items: seq<Kind>, k: Kind, rate: real)
    ensures ItemisedAt(items, k, rate) == Price(Count(items, k), rate)
  {
    if items != [] {
      CountedAt(items[1..], k, rate);
      var n := Count(items[1..], k);
      assert (1 + n) as real * rate == rate + n as real * rate;
    }
  }

  lemma {:induction false} ItemisedByKind(r: Rates, items: seq<Kind>)
    ensures Itemised(r, items, true) == ItemisedAt(items, Output, r.output)
    ensures Itemised(r, items, false)
         == ItemisedAt(items, Regular, r.input) + ItemisedAt(items, CacheRead, RateOf(r, CacheRead))
            + ItemisedAt(items, CacheCreation, RateOf(r, CacheCreation))
  {
    if items != [] {
      ItemisedByKind(r, items[1..]);
    }
  }

  /** The bill is the price of the tokens one by one, each at the rate of its own kind, in whatever order they come. */
  lemma ItemisedBill(r: Rates, items: seq<Kind>, millis: real)
    ensures var read, creation := Count(items, CacheRead), Count(items, CacheCreation);
            CustomCost(PerToken(r), Count(items, Regular) + read + creation, Count(items, Output), millis, read, creation)
            == Some(Cost(Itemised(r, items, false), Itemised(r, items, true)))
  {
    ItemisedByKind(r, items);
    CountedAt(items, Regular, r.input);
    CountedAt(items, CacheRead, RateOf(r, CacheRead));
    CountedAt(items, CacheCreation, RateOf(r, CacheCreation));
    CountedAt(items, Output, r.output);
  }

  lemma Thousandth(rate: real, seconds: real, millis: real)
    requires millis == seconds * 1000.0
    ensures TimePrice(rate, millis) == rate * seconds
  {
    assert rate * millis == rate * seconds * 1000.0;
    assert rate * seconds * 1000.0 / 1000.0 == rate * seconds;
  }

  /** Priced by time, a call costs its seconds at the rate, all as output; without custom rates there is no custom cost. */
  lemma TimedBill(rate: real, prompt: nat, completion: nat, seconds: real, millis: real, read: nat, creation: nat)
    requires millis == seconds * 1000.0
    ensures CustomCost(PerSecond(rate), prompt, completion, millis, read, creation) == Some(Cost(0.0, rate * seconds))
    ensures CustomCost(NoCustom, prompt, completion, millis, read, creation) == None
  {
    Thousandth(rate, seconds, millis);
  }

  lemma Distribute(a: real, b: real, c: real, total: real, rate: real)
    requires total == a + b + c
    ensures a * rate + b * rate + c * rate == total * rate
  {
  }

  /** With default cache rates the input cost is the tokens billed times the input rate. */
  lemma DefaultRates(r: Rates, prompt: nat, completion: nat, millis: real, read: nat, creation: nat)
    requires r.cacheRead.None? && r.cacheCreation.None?
    ensures CustomCost(PerToken(r), prompt, completion, millis, read, creation).value.input
         == Billed(prompt, read, creation) as real * r.input
  {
    var regular: nat := Max(prompt - read - creation, 0);
    Distribute(regular as real, read as real, creation as real, Billed(prompt, read, creation) as real, r.input);
    assert Or(r.cacheRead, r.input) == r.input && Or(r.cacheCreation, r.input) == r.input;
    var cost := CustomCost(PerToken(r), prompt, completion, millis, read, creation).value;
    assert cost.input == regular as real * r.input + read as real * r.input + creation as real * r.input;
  }

  /**
   * Whatever the usage object says and whatever the arguments are: once any count comes
   * separately, a prompt count that already includes the cache tokens is billed for all of them
   * twice, once as cache tokens and once as regular ones.
   */
  lemma SeparateOvercharge(
    r: Rates, u: Option<Usage>, prompt: nat, completion: nat, millis: real, readArg: Option<nat>, creationArg: Option<nat>)
    requires Separate(u, readArg, creationArg)
    ensures var n := NormalizedOf(u, prompt, readArg, creationArg);
            n.read + n.creation <= prompt ==>
              CostOf(PerToken(r), u, prompt, completion, millis, readArg, creationArg).value.input
              == CustomCost(PerToken(r), prompt, completion, millis, n.read, n.creation).value.input
                 + (n.read + n.creation) as real * r.input
  {
    var n := NormalizedOf(u, prompt, readArg, creationArg);
    var regular: int := prompt - n.read - n.creation;
    assert prompt as real * r.input == (regular as real + (n.read + n.creation) as real) * r.input;
  }

  /** In particular usage that reports cache tokens both ways, whatever its details say: the separate counts win. */
  lemma BothWaysOvercharge(
    r: Rates, details: Option<Details>, prompt: nat, completion: nat, millis: real, read: nat, creation: nat)
    requires read + creation <= prompt
    ensures CostOf(PerToken(r), Some(Usage(details, Some(read), Some(creation))), prompt, completion, millis, None, None).value.input
         == CustomCost(PerToken(r), prompt, completion, millis, read, creation).value.input
            + (read + creation) as real * r.input
  {
    SeparateOvercharge(r, Some(Usage(details, Some(read), Some(creation))), prompt, completion, millis, None, None);
  }

  // --------------------------------------------------------- pricing keys

  function Prefix(provider: string): string { provider + "/" }

  function Repeat(s: string, k: nat): string { if k == 0 then "" else s + Repeat(s, k - 1) }

  /** What is left when every leading `provider/` is taken off. */
  function Remainder(prefix: string, model: string): string
    requires prefix != ""
    decreases |model|
  {
    if prefix <= model then Remainder(prefix, model[|prefix|..]) else model
  }

  lemma {:induction false} RemainderOfRepeat(prefix: string, k: nat, rest: string)
    requires prefix != "" && !(prefix <= rest)
    ensures Remainder(prefix, Repeat(prefix, k) + rest) == rest
  {
    if k > 0 {
      var model := Repeat(prefix, k) + rest;
      assert model == prefix + (Repeat(prefix, k - 1) + rest);
      RemainderOfRepeat(prefix, k - 1, rest);
    } else {
      assert Repeat(prefix, 0) + rest == rest;
    }
  }

  /** One prefix left if there was any. */
  function Deduplicated(prefix: string, model: string): string
    requires prefix != ""
  {
    if prefix <= model then prefix + Remainder(prefix, model) else model
  }

  /** The loop that drops all but one of the leading prefixes. */
  method Dedup(prefix: string, model: string) returns (m: string)
    requires prefix != ""
    ensures m == Deduplicated(prefix, model)
  {
    m := model;
    while prefix <= m
      invariant prefix <= model ==> prefix <= m
      invariant Remainder(prefix, m) == Remainder(prefix, model)
      invariant !(prefix <= model) ==> m == model
      decreases |m|
    {
      var rest := m[|prefix|..];
      if prefix <= rest {
        m := rest;
      } else {
        assert m == prefix + rest;
        break;
      }
    }
  }

  /** The key a model is priced under when the caller names the provider; `priced` is the price table. */
  method ModelWithProvider(model: string, provider: string, region: Option<string>, priced: set<string>) returns (key: string)
    ensures region.None? ==> key == Prefix(provider) + Remainder(Prefix(provider), model)
    ensures region.Some? ==>
              var regional := Prefix(provider) + region.value + "/" + Deduplicated(Prefix(provider), model);
              key == if regional in priced then regional else Prefix(provider) + Remainder(Prefix(provider), model)
  {
    var prefix := provider + "/";
    var m := Dedup(prefix, model);
    key := if prefix <= m then m else prefix + m;
    if region.Some? {
      var regional := provider + "/" + region.value + "/" + m;
      if regional in priced {
        key := regional;
      }
    }
  }

  /** Any number of repeated prefixes gives the same key, with exactly one prefix. */
  lemma RepeatsDoNotMatter(provider: string, k: nat, rest: string)
    requires !(Prefix(provider) <= rest)
    ensures Prefix(provider) + Remainder(Prefix(provider), Repeat(Prefix(provider), k) + rest) == Prefix(provider) + rest
    ensures Deduplicated(Prefix(provider), Repeat(Prefix(provider), k) + rest)
         == if k == 0 then rest else Prefix(provider) + rest
  {
    var prefix := Prefix(provider);
    RemainderOfRepeat(prefix, k, rest);
    var model := Repeat(prefix, k) + rest;
    if k > 0 {
      assert model == prefix + (Repeat(prefix, k - 1) + rest);
    } else {
      assert model == rest;
    }
  }
}
