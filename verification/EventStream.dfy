/**
 * The event-stream encoder: the frame layout with big-endian numbers and CRC-32, the second
 * checksum computed by going on from the first, headers appended one by one.
 */
module EventStream {
  import opened Text
  import opened Crc
  import opened Framing
  import Numerals

  // --------------------------------------------------- big-endian numbers

  function NextByte(b: Byte): Byte { b + 1 }

  /** The n-th byte, counting from zero. */
  function ByteOf(n: nat): Byte { Numerals.Nth(NextByte, 0, n) }

  function NatOf(b: Byte): (n: nat)
    ensures n < 256
  {
    b as nat
  }

  lemma NextCounts(b: Byte)
    ensures Numerals.Counts(NextByte, NatOf, b)
  {
    if b != 255 {
      assert NatOf(b + 1) == NatOf(b) + 1;
    } else {
      assert NatOf(b) == 255;
    }
  }

  lemma NatOfInjective(a: Byte, b: Byte)
    requires NatOf(a) == NatOf(b)
    ensures a == b
  {
    assert (a as nat) as Byte == a && (b as nat) as Byte == b;
  }

  lemma ByteRoundTrip(n: nat)
    requires n < 256
    ensures NatOf(ByteOf(n)) == n
  {
    forall b ensures Numerals.Counts(NextByte, NatOf, b) {
      NextCounts(b);
    }
    Numerals.NthIsN(NextByte, NatOf, 0, n);
  }

  lemma ByteBack(b: Byte)
    ensures ByteOf(NatOf(b)) == b
  {
    ByteRoundTrip(NatOf(b));
    NatOfInjective(ByteOf(NatOf(b)), b);
  }

  function ByteDigits(): Numerals.Digits<Byte> { Numerals.Digits(ByteOf, NatOf) }

  lemma BytesLawful()
    ensures Numerals.Lawful(ByteDigits())
  {
    forall n: nat ensures Numerals.SymbolOk(ByteDigits(), n) {
      if n < 256 {
        ByteRoundTrip(n);
      }
    }
    forall b: Byte ensures Numerals.DigitOk(ByteDigits(), b) {
      ByteBack(b);
    }
  }

  /** `pack("!B")`, `pack("!H")` and `pack("!I")` for k = 1, 2 and 4. */
  function Pack(k: nat, n: nat): Bytes { Numerals.Pack(ByteDigits(), k, n) }

  function Unpack(bs: Bytes): nat { Numerals.Unpack(ByteDigits(), bs) }

  // ------------------------------------------------------------- the wire

  const STRING_TYPE: Byte := 7

  function CrcOf(bs: Bytes): nat { Crc32(bs, 0) as nat }

  /** Numbers and checksums as the event stream writes them. */
  function EventWire(): Wire<Byte> { Wire(Pack, Unpack, Numerals.Range, CrcOf, STRING_TYPE) }

  lemma CrcInRange(bs: Bytes)
    ensures CrcOf(bs) < Numerals.Range(4)
  {
    Numerals.Ranges();
  }

  lemma WireLawful()
    ensures Lawful(EventWire())
  {
    var w := EventWire();
    BytesLawful();
    forall k: nat, n: nat ensures Packs(w, k, n) {
      if n < Numerals.Range(k) {
        Numerals.PackRoundTrip(ByteDigits(), k, n);
      }
    }
    forall bs ensures Unpacks(w, bs) {
      Numerals.UnpackRoundTrip(ByteDigits(), bs);
    }
    forall bs ensures w.sum(bs) < w.range(4) {
      CrcInRange(bs);
    }
  }

  lemma SameNumber(x: bv32, y: bv32)
    requires x as nat == y as nat
    ensures x == y
  {
    assert (x as nat) as bv32 == x && (y as nat) as bv32 == y;
  }

  lemma OneByteChanged(bs: Bytes, i: nat, b: Byte)
    requires i < |bs| && CrcOf(bs[i := b]) == CrcOf(bs)
    ensures b == bs[i]
  {
    SameNumber(Crc32(bs[i := b], 0), Crc32(bs, 0));
    assert bs == bs[..i] + [bs[i]] + bs[i + 1..];
    assert bs[i := b] == bs[..i] + [b] + bs[i + 1..];
    CrcSeesOneByte(bs[..i], b, bs[i], bs[i + 1..], 0);
  }

  lemma WireSeesOne()
    ensures SeesOne(EventWire())
  {
    var w := EventWire();
    forall bs: Bytes, i: nat, b: Byte ensures SeesAt(w, bs, i, b) {
      if i < |bs| && CrcOf(bs[i := b]) == CrcOf(bs) {
        OneByteChanged(bs, i, b);
      }
    }
  }

  // ----------------------------------------------------------- the encoder

  /** `crc32(data, value)`: resumed from the value, itself a checksum, that a previous one ended with. */
  function CrcFrom(bs: Bytes, value: nat): nat
  {
    Crc32(bs, if value < 0x1_0000_0000 then value as bv32 else 0) as nat
  }

  lemma NumberStays(x: bv32)
    ensures x as nat < 0x1_0000_0000 && (x as nat) as bv32 == x
  {
  }

  lemma CrcContinues()
    ensures Continues(EventWire(), CrcFrom)
  {
    forall a, b ensures ContinuesAt(EventWire(), CrcFrom, a, b) {
      CrcComposes(a, b, 0);
      NumberStays(Crc32(a, 0));
    }
  }

  /** Names up to 255 bytes, values up to 65535, frames below 2^32. */
  lemma Limits()
    ensures EventWire().range(1) == 256 && EventWire().range(2) == 0x1_0000 && EventWire().range(4) == 0x1_0000_0000
  {
    Numerals.Ranges();
  }

  method EncodeMessage(m: Message<Byte>) returns (r: Outcome<Byte>)
    ensures r.Ok? <==> Encodable(EventWire(), m)
    ensures r.Ok? ==> r.frame == Frame(EventWire(), m)
  {
    WireLawful();
    CrcContinues();
    r := Encode(EventWire(), CrcFrom, m);
  }

  /**
   * What the frames are for: they decode to the message they were made of, whatever follows;
   * the checksum at the end is the CRC-32 of everything before it; and one changed byte,
   * anywhere in the frame, is never accepted.
   */
  lemma EventRoundTrip(m: Message<Byte>, rest: Bytes)
    requires Encodable(EventWire(), m)
    ensures Decode(EventWire(), Frame(EventWire(), m) + rest) == Some(Decoded(m, rest))
    ensures var f := Frame(EventWire(), m);
            |f| >= 16 && f[|f| - 4..] == EventWire().pack(4, EventWire().sum(f[..|f| - 4]))
  {
    WireLawful();
    FrameRoundTrip(EventWire(), m, rest);
    FrameSealed(EventWire(), m);
  }

  lemma EventDecodeBack(bs: Bytes)
    requires Decode(EventWire(), bs).Some?
    ensures var d := Decode(EventWire(), bs).value;
            Encodable(EventWire(), d.message) && bs == Frame(EventWire(), d.message) + d.rest
  {
    WireLawful();
    DecodeBack(EventWire(), bs);
  }

  lemma EventCorruptionSeen(m: Message<Byte>, rest: Bytes, i: nat, b: Byte)
    requires Encodable(EventWire(), m) && i < |Frame(EventWire(), m)| && b != Frame(EventWire(), m)[i]
    ensures Decode(EventWire(), Frame(EventWire(), m)[i := b] + rest) == None
  {
    WireLawful();
    WireSeesOne();
    CorruptionSeen(EventWire(), m, rest, i, b);
  }

  // ------------------------------------------------- the bytes of a frame

  function Value2(bs: Bytes): nat
    requires |bs| == 2
  {
    bs[0] as nat * 256 + bs[1] as nat
  }

  function Value4(bs: Bytes): nat
    requires |bs| == 4
  {
    bs[0] as nat * 0x100_0000 + bs[1] as nat * 0x1_0000 + bs[2] as nat * 0x100 + bs[3] as nat
  }

  lemma UnpackOne(bs: Bytes)
    requires |bs| == 1
    ensures Unpack(bs) == bs[0] as nat
  {
    assert Unpack(bs[..0]) == 0;
  }

  lemma UnpackTwo(bs: Bytes)
    requires |bs| == 2
    ensures Unpack(bs) == Value2(bs)
  {
    UnpackOne(bs[..1]);
  }

  lemma UnpackFour(bs: Bytes)
    requires |bs| == 4
    ensures Unpack(bs) == Value4(bs)
  {
    UnpackTwo(bs[..2]);
    assert bs[..3][..2] == bs[..2];
    assert Unpack(bs[..3]) == 256 * Unpack(bs[..2]) + bs[2] as nat;
    assert Unpack(bs) == 256 * Unpack(bs[..3]) + bs[3] as nat;
  }

  lemma PackedValue(k: nat, n: nat)
    requires n < EventWire().range(k)
    ensures |EventWire().pack(k, n)| == k && Unpack(EventWire().pack(k, n)) == n
  {
    WireLawful();
    assert Packs(EventWire(), k, n);
  }

  /** A header: one byte of name length, the name, a byte 7, two bytes of value length, the value. */
  lemma HeaderLayout(h: Header<Byte>)
    requires HeaderFits(EventWire(), h)
    ensures var b, n := HeaderBytes(EventWire(), h), |h.name|;
            && |b| == n + 4 + |h.value| && b[0] as nat == n && b[1..1 + n] == h.name && b[1 + n] == 7
            && Value2(b[n + 2..n + 4]) == |h.value| && b[n + 4..] == h.value
  {
    var w, b, n := EventWire(), HeaderBytes(EventWire(), h), |h.name|;
    WireLawful();
    FirstHeaderParts(w, h, []);
    assert b + [] == b;
    PackedValue(1, n);
    PackedValue(2, |h.value|);
    UnpackOne(b[..1]);
    UnpackTwo(b[n + 2..n + 4]);
    assert b[n + 4..n + 4 + |h.value|] == b[n + 4..];
  }

  /**
   * A frame: four bytes of its own length, four of the length of the headers, the CRC-32 of
   * these eight, the headers, the payload, and the CRC-32 of everything before; all numbers
   * most significant byte first.
   */
  ghost predicate LaidOut(f: Bytes, blob: Bytes, payload: Bytes)
  {
    var n, h := |f|, |blob|;
    && n == 16 + h + |payload| && Value4(f[..4]) == n && Value4(f[4..8]) == h
    && Value4(f[8..12]) == Crc32(f[..8], 0) as nat
    && f[12..12 + h] == blob && f[12 + h..n - 4] == payload
    && Value4(f[n - 4..n]) == Crc32(f[..n - 4], 0) as nat
  }

  lemma FourNumbers(f: Bytes)
    requires |f| >= 16
    ensures Unpack(f[..4]) == Value4(f[..4]) && Unpack(f[4..8]) == Value4(f[4..8])
    ensures Unpack(f[8..12]) == Value4(f[8..12]) && Unpack(f[|f| - 4..|f|]) == Value4(f[|f| - 4..|f|])
  {
    UnpackFour(f[..4]);
    UnpackFour(f[4..8]);
    UnpackFour(f[8..12]);
    UnpackFour(f[|f| - 4..|f|]);
  }

  lemma LaidOutFrom(f: Bytes, blob: Bytes, payload: Bytes)
    requires Standing(EventWire(), f, blob, payload)
    ensures LaidOut(f, blob, payload)
  {
    FourNumbers(f);
  }

  lemma FrameBytes(m: Message<Byte>)
    requires Encodable(EventWire(), m)
    ensures LaidOut(Frame(EventWire(), m), Blob(EventWire(), m.headers), m.payload)
  {
    WireLawful();
    FrameStanding(EventWire(), m);
    LaidOutFrom(Frame(EventWire(), m), Blob(EventWire(), m.headers), m.payload);
  }

  function FrameOf(m: Message<Byte>): Bytes { Frame(EventWire(), m) }

  function DecodeOne(bs: Bytes): Option<Decoded<Byte>> { Decode(EventWire(), bs) }

  /** Concatenated frames split back into the messages they were made of, and in no other way. */
  lemma EventStreamUnique(a: seq<Message<Byte>>, b: seq<Message<Byte>>)
    requires AllEncodable(EventWire(), a) && AllEncodable(EventWire(), b)
    ensures SplitAll(DecodeOne, Stream(FrameOf, a)) == Some(a)
    ensures Stream(FrameOf, a) == Stream(FrameOf, b) ==> a == b
  {
    WireLawful();
    forall m, rest | Encodable(EventWire(), m) ensures SplitsAt(FrameOf, DecodeOne, m, rest) {
      FrameRoundTrip(EventWire(), m, rest);
    }
    SplitStream(FrameOf, DecodeOne, a);
    SplitStream(FrameOf, DecodeOne, b);
  }

  // ------------------------------------------------------ splitting a text

  const DELTA: nat := 24

  function Concat(parts: seq<string>): string
  {
    if parts == [] then "" else Concat(parts[..|parts| - 1]) + parts[|parts| - 1]
  }

  /** The text of a streamed answer, in small deltas. */
  method Deltas(text: string) returns (parts: seq<string>)
    ensures Concat(parts) == text
    ensures forall k :: 0 <= k < |parts| ==> 0 < |parts[k]| <= 24 && (k < |parts| - 1 ==> |parts[k]| == 24)
  {
    parts := [];
    var i := 0;
    while i < |text|
      invariant 0 <= i
      invariant Concat(parts) == if i <= |text| then text[..i] else text
      invariant i < |text| ==> forall k :: 0 <= k < |parts| ==> |parts[k]| == DELTA
      invariant forall k :: 0 <= k < |parts| ==> 0 < |parts[k]| <= DELTA && (k < |parts| - 1 ==> |parts[k]| == DELTA)
    {
      var part := if i + DELTA <= |text| then text[i..i + DELTA] else text[i..];
      ghost var before := parts;
      parts := parts + [part];
      assert parts[..|parts| - 1] == before;
      i := i + DELTA;
    }
  }
}
