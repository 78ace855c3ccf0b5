/** CRC-32 as section 8 of RFC 1952 defines it: bit by bit, and by the table it also gives. */
module Crc {

  type Byte = bv8
  type Bytes = seq<Byte>

  // ------------------------------------ folding symbols into any register

  function Fold<R, B>(feed: (R, B) -> R, register: R, data: seq<B>): R
    decreases |data|
  {
    if data == [] then register else Fold(feed, feed(register, data[0]), data[1..])
  }

  lemma {:induction false} FoldConcat<R, B>(feed: (R, B) -> R, register: R, a: seq<B>, b: seq<B>)
    ensures Fold(feed, register, a + b) == Fold(feed, Fold(feed, register, a), b)
    decreases |a|
  {
    if a == [] {
      assert a + b == b;
    } else {
      assert (a + b)[1..] == a[1..] + b;
      FoldConcat(feed, feed(register, a[0]), a[1..], b);
    }
  }

  /** Different registers stay different under the same symbol, and different symbols make registers differ. */
  ghost predicate Separating<R(!new), B(!new)>(feed: (R, B) -> R)
  {
    && (forall r, s, b :: feed(r, b) == feed(s, b) ==> r == s)
    && (forall r, a, b :: feed(r, a) == feed(r, b) ==> a == b)
  }

  lemma {:induction false} FoldSeparates<R(!new), B(!new)>(feed: (R, B) -> R, r: R, s: R, data: seq<B>)
    requires Separating(feed) && Fold(feed, r, data) == Fold(feed, s, data)
    ensures r == s
    decreases |data|
  {
    if data != [] {
      FoldSeparates(feed, feed(r, data[0]), feed(s, data[0]), data[1..]);
    }
  }

  lemma FoldAround<R, B>(feed: (R, B) -> R, register: R, before: seq<B>, x: B, after: seq<B>)
    ensures Fold(feed, register, before + [x] + after) == Fold(feed, feed(Fold(feed, register, before), x), after)
  {
    FoldConcat(feed, register, before + [x], after);
    FoldConcat(feed, register, before, [x]);
    assert [x][1..] == [];
  }

  lemma FoldSeesOne<R(!new), B(!new)>(feed: (R, B) -> R, register: R, before: seq<B>, a: B, b: B, after: seq<B>)
    requires Separating(feed)
    requires Fold(feed, register, before + [a] + after) == Fold(feed, register, before + [b] + after)
    ensures a == b
  {
    FoldAround(feed, register, before, a, after);
    FoldAround(feed, register, before, b, after);
    var r := Fold(feed, register, before);
    FoldSeparates(feed, feed(r, a), feed(r, b), after);
  }

  // ------------------------------------------------- the register itself

  const POLYNOMIAL: bv32 := 0xEDB88320

  function Shift(x: bv32): bv32 { if x & 1 == 1 then (x >> 1) ^ POLYNOMIAL else x >> 1 }

  function Twice<V>(f: V -> V): V -> V { x => f(f(x)) }

  /** Eight shifts, one for every bit of a byte. */
  function EightTimes<V>(f: V -> V): V -> V { Twice(Twice(Twice(f))) }

  function Mix(register: bv32, b: Byte): bv32 { register ^ (b as bv32) }

  /** One byte through the register: added at its low end, then shifted out. */
  function FeedBy(shifts: bv32 -> bv32): (bv32, Byte) -> bv32 { (register, b) => shifts(Mix(register, b)) }

  function Complement(x: bv32): bv32 { x ^ 0xFFFFFFFF }

  /** `crc32(data, start)`. */
  function Crc32(data: Bytes, start: bv32): bv32
  {
    Complement(Fold(FeedBy(EightTimes(Shift)), Complement(start), data))
  }

  lemma ComplementTwice(x: bv32)
    ensures Complement(Complement(x)) == x
  {
  }

  /** Checksums compose: going on from the checksum of a gives the checksum of the whole. */
  lemma CrcComposes(a: Bytes, b: Bytes, start: bv32)
    ensures Crc32(b, Crc32(a, start)) == Crc32(a + b, start)
  {
    var feed := FeedBy(EightTimes(Shift));
    FoldConcat(feed, Complement(start), a, b);
    ComplementTwice(Fold(feed, Complement(start), a));
  }

  // -------------------------------------------- which checksum this one is

  /** The coefficient of x^i in a register, which keeps its constant term at the top. */
  ghost predicate Coefficient(v: bv32, i: bv32)
    requires i < 32
  {
    (v >> (31 - i)) & 1 == 1
  }

  /** The terms of the generator below x^32, as section 8.1.1.6.2 of ITU-T V.42 gives them. */
  ghost predicate GeneratorTerm(i: bv32)
  {
    i in [26, 23, 22, 16, 12, 11, 10, 8, 7, 5, 4, 2, 1, 0]
  }

  /** One shift multiplies by x and reduces by the generator: a step of polynomial long division. */
  lemma ShiftDivides(v: bv32, i: bv32)
    requires i < 32
    ensures Coefficient(Shift(v), i) <==>
            ((i > 0 && Coefficient(v, i - 1)) != (Coefficient(v, 31) && GeneratorTerm(i)))
  {
  }

  lemma ByteIn(register: bv32, b: Byte)
    ensures FeedBy(EightTimes(Shift))(register, b)
         == Shift(Shift(Shift(Shift(Shift(Shift(Shift(Shift(Mix(register, b)))))))))
  {
  }

  /** The checksum of the one letter "a": the register starts with ones everywhere and ends complemented. */
  lemma CheckValue()
    ensures Crc32([97], 0) == 0xE8B7BE43
  {
    assert Shift(0xFFFFFF9E) == 0x7FFFFFCF;
    assert Shift(0x7FFFFFCF) == 0xD2477CC7;
    assert Shift(0xD2477CC7) == 0x849B3D43;
    assert Shift(0x849B3D43) == 0xAFF51D81;
    assert Shift(0xAFF51D81) == 0xBA420DE0;
    assert Shift(0xBA420DE0) == 0x5D2106F0;
    assert Shift(0x5D2106F0) == 0x2E908378;
    assert Shift(0x2E908378) == 0x174841BC;
    var feed := FeedBy(EightTimes(Shift));
    ByteIn(0xFFFFFFFF, 97);
    assert Mix(0xFFFFFFFF, 97) == 0xFFFFFF9E;
    assert feed(0xFFFFFFFF, 97) == 0x174841BC;
    assert [97 as Byte][1..] == [] && Fold(feed, feed(0xFFFFFFFF, 97), []) == feed(0xFFFFFFFF, 97);
  }

  // ------------------------------------------------- every change is seen

  ghost predicate OneToOne<V(!new)>(f: V -> V) { forall u, v :: f(u) == f(v) ==> u == v }

  lemma ShiftInjective(x: bv32, y: bv32)
    requires Shift(x) == Shift(y)
    ensures x == y
  {
  }

  lemma ShiftOneToOne()
    ensures OneToOne(Shift)
  {
    forall u, v | Shift(u) == Shift(v) ensures u == v {
      ShiftInjective(u, v);
    }
  }

  lemma TwiceOneToOne<V(!new)>(f: V -> V)
    requires OneToOne(f)
    ensures OneToOne(Twice(f))
  {
  }

  lemma EightOneToOne<V(!new)>(f: V -> V)
    requires OneToOne(f)
    ensures OneToOne(EightTimes(f))
  {
    TwiceOneToOne(f);
    TwiceOneToOne(Twice(f));
    TwiceOneToOne(Twice(Twice(f)));
  }

  lemma MixCancels(r: bv32, s: bv32, b: Byte)
    requires Mix(r, b) == Mix(s, b)
    ensures r == s
  {
  }

  lemma MixSees(r: bv32, a: Byte, b: Byte)
    requires Mix(r, a) == Mix(r, b)
    ensures a == b
  {
  }

  lemma SameByte(shifts: bv32 -> bv32, r: bv32, s: bv32, b: Byte)
    requires OneToOne(shifts) && FeedBy(shifts)(r, b) == FeedBy(shifts)(s, b)
    ensures r == s
  {
    MixCancels(r, s, b);
  }

  lemma SameRegister(shifts: bv32 -> bv32, r: bv32, a: Byte, b: Byte)
    requires OneToOne(shifts) && FeedBy(shifts)(r, a) == FeedBy(shifts)(r, b)
    ensures a == b
  {
    MixSees(r, a, b);
  }

  lemma FeedSeparates(shifts: bv32 -> bv32)
    requires OneToOne(shifts)
    ensures Separating(FeedBy(shifts))
  {
    var feed := FeedBy(shifts);
    forall r, s, b | feed(r, b) == feed(s, b) ensures r == s {
      SameByte(shifts, r, s, b);
    }
    forall r, a, b | feed(r, a) == feed(r, b) ensures a == b {
      SameRegister(shifts, r, a, b);
    }
  }

  lemma ComplementInjective(x: bv32, y: bv32)
    requires Complement(x) == Complement(y)
    ensures x == y
  {
  }

  /** A change of one byte always changes the checksum. */
  lemma CrcSeesOneByte(before: Bytes, a: Byte, b: Byte, after: Bytes, start: bv32)
    requires Crc32(before + [a] + after, start) == Crc32(before + [b] + after, start)
    ensures a == b
  {
    ShiftOneToOne();
    EightOneToOne(Shift);
    FeedSeparates(EightTimes(Shift));
    var feed, register := FeedBy(EightTimes(Shift)), Complement(start);
    ComplementInjective(Fold(feed, register, before + [a] + after), Fold(feed, register, before + [b] + after));
    FoldSeesOne(feed, register, before, a, b, after);
  }

  // -------------------------------------------------- the table-driven form

  function Xor(x: bv32, y: bv32): bv32 { x ^ y }

  ghost predicate AdditiveAt<V>(plus: (V, V) -> V, f: V -> V, u: V, v: V) { f(plus(u, v)) == plus(f(u), f(v)) }

  ghost predicate Additive<V(!new)>(plus: (V, V) -> V, f: V -> V) { forall u, v :: AdditiveAt(plus, f, u, v) }

  lemma LowBit(x: bv32)
    ensures x & 1 == 0 || x & 1 == 1
  {
  }

  lemma ShiftXor(x: bv32, y: bv32)
    ensures (x ^ y) >> 1 == (x >> 1) ^ (y >> 1)
  {
  }

  lemma BothOdd(x: bv32, y: bv32)
    requires x & 1 == 1 && y & 1 == 1
    ensures AdditiveAt(Xor, Shift, x, y)
  {
  }

  lemma Swapped(f: bv32 -> bv32, x: bv32, y: bv32)
    requires AdditiveAt(Xor, f, x, y)
    ensures AdditiveAt(Xor, f, y, x)
  {
    assert Xor(x, y) == Xor(y, x) && Xor(f(x), f(y)) == Xor(f(y), f(x));
  }

  lemma SecondOdd(x: bv32, y: bv32)
    requires x & 1 == 0 && y & 1 == 1
    ensures AdditiveAt(Xor, Shift, x, y)
  {
  }

  lemma BothEven(x: bv32, y: bv32)
    requires x & 1 == 0 && y & 1 == 0
    ensures AdditiveAt(Xor, Shift, x, y)
  {
    ShiftXor(x, y);
  }

  lemma ShiftAdditiveAt(x: bv32, y: bv32)
    ensures AdditiveAt(Xor, Shift, x, y)
  {
    LowBit(x);
    LowBit(y);
    if x & 1 == 1 {
      if y & 1 == 1 {
        BothOdd(x, y);
      } else {
        SecondOdd(y, x);
        Swapped(Shift, y, x);
      }
    } else if y & 1 == 1 {
      SecondOdd(x, y);
    } else {
      BothEven(x, y);
    }
  }

  lemma ShiftAdditive()
    ensures Additive(Xor, Shift)
  {
    forall u, v ensures AdditiveAt(Xor, Shift, u, v) {
      ShiftAdditiveAt(u, v);
    }
  }

  lemma TwiceAdditive<V(!new)>(plus: (V, V) -> V, f: V -> V)
    requires Additive(plus, f)
    ensures Additive(plus, Twice(f))
  {
    forall u, v ensures AdditiveAt(plus, Twice(f), u, v) {
      assert AdditiveAt(plus, f, u, v) && AdditiveAt(plus, f, f(u), f(v));
    }
  }

  lemma EightAdditive<V(!new)>(plus: (V, V) -> V, f: V -> V)
    requires Additive(plus, f)
    ensures Additive(plus, EightTimes(f))
  {
    TwiceAdditive(plus, f);
    TwiceAdditive(plus, Twice(f));
    TwiceAdditive(plus, Twice(Twice(f)));
  }

  lemma EightInARow<V>(f: V -> V, x: V)
    ensures EightTimes(f)(x) == f(f(f(f(f(f(f(f(x))))))))
  {
    var once, twice := Twice(f), Twice(Twice(f));
    assert Twice(twice)(x) == twice(twice(x));
    assert twice(x) == once(once(x)) && twice(twice(x)) == once(once(twice(x)));
  }

  lemma HighBytesSlide(x: bv32)
    requires x & 0xFF == 0
    ensures Shift(Shift(Shift(Shift(Shift(Shift(Shift(Shift(x)))))))) == x >> 8
  {
  }

  lemma SplitBytes(x: bv32)
    ensures x == Xor(x & 0xFF, x & 0xFFFFFF00) && (x & 0xFFFFFF00) & 0xFF == 0
  {
  }

  lemma InputBelow(register: bv32, b: Byte)
    ensures (Mix(register, b) & 0xFFFFFF00) >> 8 == register >> 8
  {
  }

  lemma SlidesBy<V>(f: V -> V, high: V, slid: V)
    requires f(f(f(f(f(f(f(f(high)))))))) == slid
    ensures EightTimes(f)(high) == slid
  {
    EightInARow(f, high);
  }

  lemma TableStep<V(!new)>(plus: (V, V) -> V, f: V -> V, low: V, high: V, slid: V)
    requires Additive(plus, f) && EightTimes(f)(high) == slid
    ensures EightTimes(f)(plus(low, high)) == plus(EightTimes(f)(low), slid)
  {
    EightAdditive(plus, f);
    assert AdditiveAt(plus, EightTimes(f), low, high);
  }

  /** Entry n of the standard's table is n shifted eight times; one lookup by the low byte does the work of eight shifts. */
  lemma TableForm(register: bv32, b: Byte)
    ensures FeedBy(EightTimes(Shift))(register, b) == Xor(EightTimes(Shift)(Mix(register, b) & 0xFF), register >> 8)
  {
    var x := Mix(register, b);
    ShiftAdditive();
    SplitBytes(x);
    InputBelow(register, b);
    HighBytesSlide(x & 0xFFFFFF00);
    SlidesBy(Shift, x & 0xFFFFFF00, register >> 8);
    TableStep(Xor, Shift, x & 0xFF, x & 0xFFFFFF00, register >> 8);
  }
}
