/** Numbers spelled most significant digit first, in base 256, with any symbols for digits. */
module Numerals {

  /** The symbol of a digit and the digit of a symbol. */
  datatype Digits<!B> = Digits(symbol: nat -> B, digit: B -> nat)

  ghost predicate SymbolOk<B>(d: Digits<B>, n: nat) { n < 256 ==> d.digit(d.symbol(n)) == n }

  ghost predicate DigitOk<B>(d: Digits<B>, b: B) { d.digit(b) < 256 && d.symbol(d.digit(b)) == b }

  ghost predicate Lawful<B(!new)>(d: Digits<B>)
  {
    (forall n: nat :: SymbolOk(d, n)) && forall b: B :: DigitOk(d, b)
  }

  /** How many numbers k digits can spell. */
  function Range(k: nat): (n: nat)
    ensures n > 0
  {
    if k == 0 then 1 else 256 * Range(k - 1)
  }

  function Pack<B>(d: Digits<B>, k: nat, n: nat): (bs: seq<B>)
    ensures |bs| == k
  {
    if k == 0 then [] else Pack(d, k - 1, n / 256) + [d.symbol(n % 256)]
  }

  function Unpack<B>(d: Digits<B>, bs: seq<B>): (n: nat)
  {
    if bs == [] then 0 else 256 * Unpack(d, bs[..|bs| - 1]) + d.digit(bs[|bs| - 1])
  }

  lemma {:induction false} PackRoundTrip<B(!new)>(d: Digits<B>, k: nat, n: nat)
    requires Lawful(d) && n < Range(k)
    ensures Unpack(d, Pack(d, k, n)) == n
  {
    if k > 0 {
      PackRoundTrip(d, k - 1, n / 256);
      assert SymbolOk(d, n % 256);
      assert Pack(d, k, n)[..k - 1] == Pack(d, k - 1, n / 256);
    }
  }

  lemma PackSnoc<B>(d: Digits<B>, k: nat, high: nat, low: nat)
    requires low < 256
    ensures Pack(d, k + 1, 256 * high + low) == Pack(d, k, high) + [d.symbol(low)]
  {
    var n := 256 * high + low;
    assert n / 256 == high && n % 256 == low;
  }

  lemma {:induction false} UnpackRoundTrip<B(!new)>(d: Digits<B>, bs: seq<B>)
    requires Lawful(d)
    ensures Unpack(d, bs) < Range(|bs|) && Pack(d, |bs|, Unpack(d, bs)) == bs
  {
    if bs != [] {
      var init, last := bs[..|bs| - 1], bs[|bs| - 1];
      UnpackRoundTrip(d, init);
      assert DigitOk(d, last);
      PackSnoc(d, |init|, Unpack(d, init), d.digit(last));
      assert bs == init + [last];
    }
  }

  lemma Ranges()
    ensures Range(1) == 256 && Range(2) == 0x1_0000 && Range(4) == 0x1_0000_0000
  {
    assert Range(0) == 1;
    assert Range(1) == 256;
    assert Range(2) == 65536;
    assert Range(3) == 16777216;
  }

  /** The n-th symbol in counting order. */
  function Nth<B>(next: B -> B, zero: B, n: nat): B { if n == 0 then zero else next(Nth(next, zero, n - 1)) }

  ghost predicate Counts<B>(next: B -> B, digit: B -> nat, b: B) { digit(b) < 255 ==> digit(next(b)) == digit(b) + 1 }

  lemma {:induction false} NthIsN<B(!new)>(next: B -> B, digit: B -> nat, zero: B, n: nat)
    requires digit(zero) == 0 && n < 256 && forall b :: Counts(next, digit, b)
    ensures digit(Nth(next, zero, n)) == n
  {
    if n > 0 {
      NthIsN(next, digit, zero, n - 1);
      assert Counts(next, digit, Nth(next, zero, n - 1));
    }
  }
}
