/**
 * The layout of a frame, for any way of spelling numbers and any checksum: a prelude with two
 * lengths and their checksum, headers, payload and a checksum of all that precedes it.
 */
module Framing {
  import opened Text

  /** How numbers are spelled in a given width, and the checksum of a run of symbols. */
  datatype Wire<!B> = Wire(
    pack: (nat, nat) -> seq<B>,
    unpack: seq<B> -> nat,
    range: nat -> nat,
    sum: seq<B> -> nat,
    stringType: B)

  ghost predicate Packs<B>(w: Wire<B>, k: nat, n: nat)
  {
    |w.pack(k, n)| == k && (n < w.range(k) ==> w.unpack(w.pack(k, n)) == n)
  }

  ghost predicate Unpacks<B>(w: Wire<B>, bs: seq<B>)
  {
    w.unpack(bs) < w.range(|bs|) && w.pack(|bs|, w.unpack(bs)) == bs
  }

  ghost predicate Lawful<B(!new)>(w: Wire<B>)
  {
    && (forall k: nat, n: nat {:trigger Packs(w, k, n)} :: Packs(w, k, n))
    && (forall bs {:trigger Unpacks(w, bs)} :: Unpacks(w, bs))
    && (forall bs {:trigger w.sum(bs)} :: w.sum(bs) < w.range(4))
  }

  // --------------------------------------------------------------- headers

  datatype Header<B> = Header(name: seq<B>, value: seq<B>)

  predicate HeaderFits<B>(w: Wire<B>, h: Header<B>) { |h.name| < w.range(1) && |h.value| < w.range(2) }

  predicate AllFit<B>(w: Wire<B>, hs: seq<Header<B>>) { forall i :: 0 <= i < |hs| ==> HeaderFits(w, hs[i]) }

  function HeaderBytes<B>(w: Wire<B>, h: Header<B>): seq<B>
  {
    w.pack(1, |h.name|) + h.name + [w.stringType] + w.pack(2, |h.value|) + h.value
  }

  function Blob<B>(w: Wire<B>, hs: seq<Header<B>>): seq<B>
  {
    if hs == [] then [] else HeaderBytes(w, hs[0]) + Blob(w, hs[1..])
  }

  datatype FirstHeader<B> = FirstHeader(header: Header<B>, length: nat)

  /** The header a blob starts with. */
  function ParseHeader<B(==)>(w: Wire<B>, blob: seq<B>): (f: Option<FirstHeader<B>>)
    ensures f.Some? ==> 4 <= f.value.length <= |blob|
  {
    if |blob| < 4 then None
    else
      var n := w.unpack(blob[..1]);
      if |blob| < n + 4 || blob[1 + n] != w.stringType then None
      else
        var m := w.unpack(blob[n + 2..n + 4]);
        if |blob| < n + 4 + m then None
        else Some(FirstHeader(Header(blob[1..1 + n], blob[n + 4..n + 4 + m]), n + 4 + m))
  }

  function ParseHeaders<B(==)>(w: Wire<B>, blob: seq<B>): Option<seq<Header<B>>>
    decreases |blob|
  {
    if blob == [] then Some([])
    else
      var first := ParseHeader(w, blob);
      if first.None? then None
      else
        var rest := ParseHeaders(w, blob[first.value.length..]);
        if rest.None? then None else Some([first.value.header] + rest.value)
  }

  lemma FivePieces<B>(a: seq<B>, b: seq<B>, c: B, d: seq<B>, e: seq<B>, rest: seq<B>, n: nat, m: nat)
    requires |a| == 1 && |b| == n && |d| == 2 && |e| == m
    ensures var blob := a + b + [c] + d + e + rest;
            && |blob| >= n + 4 + m
            && blob[..1] == a && blob[1..1 + n] == b && blob[1 + n] == c
            && blob[n + 2..n + 4] == d && blob[n + 4..n + 4 + m] == e && blob[n + 4 + m..] == rest
  {
  }

  lemma FirstHeaderParts<B(!new)>(w: Wire<B>, h: Header<B>, rest: seq<B>)
    requires Lawful(w)
    ensures var blob, n, m := HeaderBytes(w, h) + rest, |h.name|, |h.value|;
            && |HeaderBytes(w, h)| == n + 4 + m && |blob| >= n + 4 + m
            && blob[..1] == w.pack(1, n) && blob[1..1 + n] == h.name && blob[1 + n] == w.stringType
            && blob[n + 2..n + 4] == w.pack(2, m) && blob[n + 4..n + 4 + m] == h.value
            && blob[n + 4 + m..] == rest
  {
    assert Packs(w, 1, |h.name|) && Packs(w, 2, |h.value|);
    FivePieces(w.pack(1, |h.name|), h.name, w.stringType, w.pack(2, |h.value|), h.value, rest, |h.name|, |h.value|);
  }

  lemma ParseOne<B(!new)>(w: Wire<B>, h: Header<B>, rest: seq<B>)
    requires Lawful(w) && HeaderFits(w, h)
    ensures ParseHeader(w, HeaderBytes(w, h) + rest) == Some(FirstHeader(h, |HeaderBytes(w, h)|))
    ensures (HeaderBytes(w, h) + rest)[|HeaderBytes(w, h)|..] == rest
  {
    FirstHeaderParts(w, h, rest);
    assert Packs(w, 1, |h.name|) && Packs(w, 2, |h.value|);
  }

  /** Parsing a header blob gives back the headers, in order. */
  lemma {:induction false} HeadersRoundTrip<B(!new)>(w: Wire<B>, hs: seq<Header<B>>)
    requires Lawful(w) && AllFit(w, hs)
    ensures ParseHeaders(w, Blob(w, hs)) == Some(hs)
    decreases |hs|
  {
    if hs != [] {
      assert HeaderFits(w, hs[0]);
      ParseOne(w, hs[0], Blob(w, hs[1..]));
      HeadersRoundTrip(w, hs[1..]);
      assert hs == [hs[0]] + hs[1..];
    }
  }

  lemma SlicedInSix<B>(blob: seq<B>, n: nat, m: nat)
    requires n + 4 + m <= |blob|
    ensures blob == blob[..1] + blob[1..1 + n] + [blob[1 + n]] + blob[n + 2..n + 4] + blob[n + 4..n + 4 + m] + blob[n + 4 + m..]
  {
  }

  lemma ParsedBytes<B(!new)>(w: Wire<B>, blob: seq<B>)
    requires Lawful(w) && ParseHeader(w, blob).Some?
    ensures var f := ParseHeader(w, blob).value;
            HeaderFits(w, f.header) && blob == HeaderBytes(w, f.header) + blob[f.length..]
  {
    var n := w.unpack(blob[..1]);
    var m := w.unpack(blob[n + 2..n + 4]);
    assert Unpacks(w, blob[..1]) && Unpacks(w, blob[n + 2..n + 4]);
    SlicedInSix(blob, n, m);
  }

  /** Whatever parses as headers is the blob of those headers. */
  lemma {:induction false} HeadersBack<B(!new)>(w: Wire<B>, blob: seq<B>)
    requires Lawful(w) && ParseHeaders(w, blob).Some?
    ensures AllFit(w, ParseHeaders(w, blob).value) && Blob(w, ParseHeaders(w, blob).value) == blob
    decreases |blob|
  {
    if blob != [] {
      var f := ParseHeader(w, blob).value;
      ParsedBytes(w, blob);
      HeadersBack(w, blob[f.length..]);
      var hs := ParseHeaders(w, blob).value;
      assert hs[0] == f.header && hs[1..] == ParseHeaders(w, blob[f.length..]).value;
    }
  }

  lemma Regroup<B>(a: seq<B>, b: seq<B>, c: seq<B>)
    ensures a + (b + c) == (a + b) + c
  {
  }

  /** The blob grows at its end, as the encoder's loop makes it grow. */
  lemma {:induction false} BlobSnoc<B>(w: Wire<B>, hs: seq<Header<B>>, h: Header<B>)
    ensures Blob(w, hs + [h]) == Blob(w, hs) + HeaderBytes(w, h)
    decreases |hs|
  {
    if hs == [] {
      assert (hs + [h])[1..] == [];
      assert HeaderBytes(w, h) + [] == HeaderBytes(w, h);
    } else {
      assert (hs + [h])[1..] == hs[1..] + [h] && (hs + [h])[0] == hs[0];
      BlobSnoc(w, hs[1..], h);
      Regroup(HeaderBytes(w, hs[0]), Blob(w, hs[1..]), HeaderBytes(w, h));
    }
  }

  // ---------------------------------------------------------------- frames

  datatype Message<B> = Message(headers: seq<Header<B>>, payload: seq<B>)

  /** Both lengths: 12 for the prelude and its checksum, 4 for the checksum at the end. */
  function TotalLength<B>(w: Wire<B>, m: Message<B>): nat { 12 + |Blob(w, m.headers)| + |m.payload| + 4 }

  predicate Encodable<B>(w: Wire<B>, m: Message<B>) { AllFit(w, m.headers) && TotalLength(w, m) < w.range(4) }

  function Prelude<B>(w: Wire<B>, total: nat, headers: nat): seq<B> { w.pack(4, total) + w.pack(4, headers) }

  function Sealed<B>(w: Wire<B>, bs: seq<B>): seq<B> { bs + w.pack(4, w.sum(bs)) }

  function Frame<B>(w: Wire<B>, m: Message<B>): seq<B>
  {
    var blob := Blob(w, m.headers);
    Sealed(w, Sealed(w, Prelude(w, TotalLength(w, m), |blob|)) + blob + m.payload)
  }

  datatype Decoded<B> = Decoded(message: Message<B>, rest: seq<B>)

  predicate PreludeOk<B>(w: Wire<B>, bs: seq<B>)
  {
    && |bs| >= 16 && w.unpack(bs[8..12]) == w.sum(bs[..8])
    && 16 + w.unpack(bs[4..8]) <= w.unpack(bs[..4]) <= |bs|
  }

  /** One frame off the front of a stream. */
  function Decode<B(==)>(w: Wire<B>, bs: seq<B>): Option<Decoded<B>>
  {
    if !PreludeOk(w, bs) then None
    else
      var total, headers := w.unpack(bs[..4]), w.unpack(bs[4..8]);
      if w.unpack(bs[total - 4..total]) != w.sum(bs[..total - 4]) then None
      else
        var hs := ParseHeaders(w, bs[12..12 + headers]);
        if hs.None? then None
        else Some(Decoded(Message(hs.value, bs[12 + headers..total - 4]), bs[total..]))
  }

  /** Where everything is in a frame with something behind it. */
  lemma FramePieces<B>(a: seq<B>, b: seq<B>, c: seq<B>, blob: seq<B>, payload: seq<B>, d: seq<B>, rest: seq<B>, total: nat)
    requires |a| == |b| == |c| == |d| == 4 && total == 16 + |blob| + |payload|
    ensures var bs := a + b + c + blob + payload + d + rest;
            && |bs| >= total && bs[..4] == a && bs[4..8] == b && bs[8..12] == c && bs[..8] == a + b
            && bs[12..12 + |blob|] == blob && bs[12 + |blob|..total - 4] == payload
            && bs[..total - 4] == a + b + c + blob + payload && bs[total - 4..total] == d && bs[total..] == rest
  {
  }

  lemma FrameLayout<B(!new)>(w: Wire<B>, m: Message<B>, rest: seq<B>)
    requires Lawful(w)
    ensures var blob, total := Blob(w, m.headers), TotalLength(w, m);
            var prelude := Prelude(w, total, |blob|);
            var body := Sealed(w, prelude) + blob + m.payload;
            var bs := Frame(w, m) + rest;
            && |Frame(w, m)| == total && |bs| >= total && bs[..8] == prelude
            && bs[..4] == w.pack(4, total) && bs[4..8] == w.pack(4, |blob|) && bs[8..12] == w.pack(4, w.sum(prelude))
            && bs[12..12 + |blob|] == blob && bs[12 + |blob|..total - 4] == m.payload
            && bs[..total - 4] == body && bs[total - 4..total] == w.pack(4, w.sum(body)) && bs[total..] == rest
  {
    var blob, total := Blob(w, m.headers), TotalLength(w, m);
    var prelude := Prelude(w, total, |blob|);
    var body := Sealed(w, prelude) + blob + m.payload;
    assert Packs(w, 4, total) && Packs(w, 4, |blob|) && Packs(w, 4, w.sum(prelude)) && Packs(w, 4, w.sum(body));
    FramePieces(
      w.pack(4, total), w.pack(4, |blob|), w.pack(4, w.sum(prelude)), blob, m.payload, w.pack(4, w.sum(body)), rest, total);
  }

  /** What the decoder makes of a text whose numbers and checksums are right. */
  lemma DecodeParts<B>(w: Wire<B>, bs: seq<B>, total: nat, headers: nat, m: Message<B>, rest: seq<B>)
    requires |bs| >= 16 && w.unpack(bs[..4]) == total && w.unpack(bs[4..8]) == headers && 16 + headers <= total <= |bs|
    requires w.unpack(bs[8..12]) == w.sum(bs[..8]) && w.unpack(bs[total - 4..total]) == w.sum(bs[..total - 4])
    requires ParseHeaders(w, bs[12..12 + headers]) == Some(m.headers)
    requires bs[12 + headers..total - 4] == m.payload && bs[total..] == rest
    ensures Decode(w, bs) == Some(Decoded(m, rest))
  {
  }

  lemma FrameSlices<B(!new)>(w: Wire<B>, m: Message<B>, rest: seq<B>)
    requires Lawful(w)
    ensures var bs, total, h := Frame(w, m) + rest, TotalLength(w, m), |Blob(w, m.headers)|;
            && |Frame(w, m)| == total <= |bs| && bs[12..12 + h] == Blob(w, m.headers)
            && bs[12 + h..total - 4] == m.payload && bs[total..] == rest
  {
    FrameLayout(w, m, rest);
  }

  lemma NumberBack<B(!new)>(w: Wire<B>, n: nat)
    requires Lawful(w) && n < w.range(4)
    ensures w.unpack(w.pack(4, n)) == n
  {
    assert Packs(w, 4, n);
  }

  lemma FrameNumbers<B(!new)>(w: Wire<B>, m: Message<B>, rest: seq<B>)
    requires Lawful(w) && TotalLength(w, m) < w.range(4)
    ensures var bs, total := Frame(w, m) + rest, TotalLength(w, m);
            && |bs| >= total && w.unpack(bs[..4]) == total && w.unpack(bs[4..8]) == |Blob(w, m.headers)|
            && w.unpack(bs[8..12]) == w.sum(bs[..8]) && w.unpack(bs[total - 4..total]) == w.sum(bs[..total - 4])
  {
    var blob, total := Blob(w, m.headers), TotalLength(w, m);
    var prelude := Prelude(w, total, |blob|);
    FrameLayout(w, m, rest);
    NumberBack(w, total);
    NumberBack(w, |blob|);
    NumberBack(w, w.sum(prelude));
    NumberBack(w, w.sum(Sealed(w, prelude) + blob + m.payload));
  }

  /** A frame by itself: its pieces and the numbers in it. */
  ghost predicate Standing<B>(w: Wire<B>, f: seq<B>, blob: seq<B>, payload: seq<B>)
  {
    var n, h := |f|, |blob|;
    && n == 16 + h + |payload| && w.unpack(f[..4]) == n && w.unpack(f[4..8]) == h
    && w.unpack(f[8..12]) == w.sum(f[..8]) && w.unpack(f[n - 4..n]) == w.sum(f[..n - 4])
    && f[12..12 + h] == blob && f[12 + h..n - 4] == payload
  }

  lemma FrameStanding<B(!new)>(w: Wire<B>, m: Message<B>)
    requires Lawful(w) && TotalLength(w, m) < w.range(4)
    ensures Standing(w, Frame(w, m), Blob(w, m.headers), m.payload)
  {
    assert Frame(w, m) + [] == Frame(w, m);
    FrameSlices(w, m, []);
    FrameNumbers(w, m, []);
  }

  /** Everything the decoder looks at, as it is in the frame of m with `rest` behind it. */
  ghost predicate Carries<B>(w: Wire<B>, bs: seq<B>, m: Message<B>, rest: seq<B>)
  {
    var total, h := TotalLength(w, m), |Blob(w, m.headers)|;
    && |bs| >= total && w.unpack(bs[..4]) == total && w.unpack(bs[4..8]) == h
    && w.unpack(bs[8..12]) == w.sum(bs[..8]) && w.unpack(bs[total - 4..total]) == w.sum(bs[..total - 4])
    && bs[12..12 + h] == Blob(w, m.headers) && bs[12 + h..total - 4] == m.payload && bs[total..] == rest
  }

  lemma FrameCarries<B(!new)>(w: Wire<B>, m: Message<B>, rest: seq<B>)
    requires Lawful(w) && TotalLength(w, m) < w.range(4)
    ensures Carries(w, Frame(w, m) + rest, m, rest) && |Frame(w, m)| == TotalLength(w, m)
  {
    FrameSlices(w, m, rest);
    FrameNumbers(w, m, rest);
  }

  lemma CarriedDecodes<B(!new)>(w: Wire<B>, bs: seq<B>, m: Message<B>, rest: seq<B>)
    requires Lawful(w) && Encodable(w, m) && Carries(w, bs, m, rest)
    ensures Decode(w, bs) == Some(Decoded(m, rest))
  {
    HeadersRoundTrip(w, m.headers);
    DecodeParts(w, bs, TotalLength(w, m), |Blob(w, m.headers)|, m, rest);
  }

  /** The round trip: whatever follows, decoding a frame gives the message and what follows. */
  lemma FrameRoundTrip<B(!new)>(w: Wire<B>, m: Message<B>, rest: seq<B>)
    requires Lawful(w) && Encodable(w, m)
    ensures Decode(w, Frame(w, m) + rest) == Some(Decoded(m, rest))
    ensures |Frame(w, m)| == TotalLength(w, m)
    ensures |Frame(w, m) + rest| >= 4 && w.unpack((Frame(w, m) + rest)[..4]) == TotalLength(w, m)
  {
    FrameCarries(w, m, rest);
    CarriedDecodes(w, Frame(w, m) + rest, m, rest);
  }

  lemma Resealed<B(!new)>(w: Wire<B>, bs: seq<B>, n: nat)
    requires Lawful(w) && n + 4 <= |bs| && w.unpack(bs[n..n + 4]) == w.sum(bs[..n])
    ensures bs[..n + 4] == Sealed(w, bs[..n])
  {
    assert Unpacks(w, bs[n..n + 4]);
    assert bs[..n + 4] == bs[..n] + bs[n..n + 4];
  }

  lemma PreludeBack<B(!new)>(w: Wire<B>, bs: seq<B>)
    requires Lawful(w) && |bs| >= 8
    ensures bs[..8] == Prelude(w, w.unpack(bs[..4]), w.unpack(bs[4..8])) && w.unpack(bs[..4]) < w.range(4)
  {
    assert Unpacks(w, bs[..4]) && Unpacks(w, bs[4..8]);
    assert bs[..8] == bs[..4] + bs[4..8];
  }

  lemma BodyPieces<B>(bs: seq<B>, h: nat, total: nat)
    requires 16 + h <= total <= |bs|
    ensures bs[..total - 4] == bs[..12] + bs[12..12 + h] + bs[12 + h..total - 4]
    ensures bs == bs[..total] + bs[total..]
  {
  }

  /** Sealed parts in their places make up the frame. */
  lemma FrameFromParts<B>(w: Wire<B>, bs: seq<B>, m: Message<B>, h: nat, total: nat)
    requires h == |Blob(w, m.headers)| && total == TotalLength(w, m) <= |bs|
    requires bs[..8] == Prelude(w, total, h) && bs[..12] == Sealed(w, bs[..8]) && bs[..total] == Sealed(w, bs[..total - 4])
    requires bs[12..12 + h] == Blob(w, m.headers) && bs[12 + h..total - 4] == m.payload
    ensures bs == Frame(w, m) + bs[total..]
  {
    BodyPieces(bs, h, total);
  }

  /** The decoder accepts frames and nothing else: what it reads is the frame of what it returns. */
  lemma DecodeBack<B(!new)>(w: Wire<B>, bs: seq<B>)
    requires Lawful(w) && Decode(w, bs).Some?
    ensures var d := Decode(w, bs).value;
            Encodable(w, d.message) && bs == Frame(w, d.message) + d.rest
  {
    var d := Decode(w, bs).value;
    var total, headers := w.unpack(bs[..4]), w.unpack(bs[4..8]);
    HeadersBack(w, bs[12..12 + headers]);
    PreludeBack(w, bs);
    Resealed(w, bs, 8);
    Resealed(w, bs, total - 4);
    assert |Blob(w, d.message.headers)| == headers && TotalLength(w, d.message) == total;
    FrameFromParts(w, bs, d.message, headers, total);
  }

  /** The last four symbols spell the checksum of everything before them. */
  lemma FrameSealed<B(!new)>(w: Wire<B>, m: Message<B>)
    requires Lawful(w)
    ensures var f := Frame(w, m);
            |f| >= 16 && f[|f| - 4..] == w.pack(4, w.sum(f[..|f| - 4]))
  {
    FrameLayout(w, m, []);
    assert Frame(w, m) + [] == Frame(w, m);
  }

  // ----------------------------------------------------------- the encoder

  datatype Outcome<B> =
    | Ok(frame: seq<B>)
    | NameTooLong(k: nat)
    | ValueTooLong(k: nat)
    | FrameTooLong

  /** Going on from the checksum of a over b gives the checksum of both. */
  ghost predicate Continues<B(!new)>(w: Wire<B>, resume: (seq<B>, nat) -> nat)
  {
    forall a, b :: ContinuesAt(w, resume, a, b)
  }

  ghost predicate ContinuesAt<B>(w: Wire<B>, resume: (seq<B>, nat) -> nat, a: seq<B>, b: seq<B>)
  {
    resume(b, w.sum(a)) == w.sum(a + b)
  }

  lemma SecondChecksum<B(!new)>(w: Wire<B>, resume: (seq<B>, nat) -> nat, prelude: seq<B>, rest: seq<B>)
    requires Continues(w, resume) && |prelude| == 8
    ensures resume((prelude + rest)[8..], w.sum(prelude)) == w.sum(prelude + rest)
  {
    assert (prelude + rest)[8..] == rest;
    assert ContinuesAt(w, resume, prelude, rest);
  }

  /** A blob grown by one header, and whether the headers so far fit. */
  lemma OneMoreHeader<B>(w: Wire<B>, hs: seq<Header<B>>, k: nat)
    requires k < |hs| && AllFit(w, hs[..k])
    ensures Blob(w, hs[..k + 1]) == Blob(w, hs[..k]) + HeaderBytes(w, hs[k])
    ensures AllFit(w, hs[..k + 1]) <==> HeaderFits(w, hs[k])
    ensures AllFit(w, hs) ==> HeaderFits(w, hs[k])
  {
    assert hs[..k + 1] == hs[..k] + [hs[k]];
    BlobSnoc(w, hs[..k], hs[k]);
    assert hs[..k + 1][k] == hs[k];
  }

  /** The header loop, stopping at the first header that does not fit. */
  method EncodeHeaders<B>(w: Wire<B>, hs: seq<Header<B>>) returns (blob: seq<B>, fault: Option<Outcome<B>>)
    ensures fault.None? ==> AllFit(w, hs) && blob == Blob(w, hs)
    ensures fault.Some? ==> !AllFit(w, hs) && (fault.value.NameTooLong? || fault.value.ValueTooLong?)
    ensures fault.Some? ==> fault.value.k < |hs| && AllFit(w, hs[..fault.value.k])
    ensures fault.Some? && fault.value.NameTooLong? ==> |hs[fault.value.k].name| >= w.range(1)
    ensures fault.Some? && fault.value.ValueTooLong? ==> |hs[fault.value.k].name| < w.range(1) && |hs[fault.value.k].value| >= w.range(2)
  {
    blob := [];
    for k := 0 to |hs|
      invariant blob == Blob(w, hs[..k]) && AllFit(w, hs[..k])
    {
      var h := hs[k];
      OneMoreHeader(w, hs, k);
      if |h.name| >= w.range(1) {
        return blob, Some(NameTooLong(k));
      }
      if |h.value| >= w.range(2) {
        return blob, Some(ValueTooLong(k));
      }
      blob := blob + (w.pack(1, |h.name|) + h.name + [w.stringType] + w.pack(2, |h.value|) + h.value);
    }
    assert hs[..|hs|] == hs;
    fault := None;
  }

  /** One frame: headers, both lengths, the second checksum resumed from the first. */
  method Encode<B(!new)>(w: Wire<B>, resume: (seq<B>, nat) -> nat, m: Message<B>) returns (r: Outcome<B>)
    requires Lawful(w) && Continues(w, resume)
    ensures r.Ok? <==> Encodable(w, m)
    ensures r.Ok? ==> r.frame == Frame(w, m)
    ensures r.FrameTooLong? ==> AllFit(w, m.headers) && TotalLength(w, m) >= w.range(4)
    ensures r.NameTooLong? ==> r.k < |m.headers| && |m.headers[r.k].name| >= w.range(1)
    ensures r.ValueTooLong? ==> r.k < |m.headers| && |m.headers[r.k].value| >= w.range(2)
  {
    var blob, fault := EncodeHeaders(w, m.headers);
    if fault.Some? {
      return fault.value;
    }
    var total := 12 + |blob| + |m.payload| + 4;
    if total >= w.range(4) {
      return FrameTooLong;
    }
    var prelude := w.pack(4, total) + w.pack(4, |blob|);
    var preludeSum := w.sum(prelude);
    var body := prelude + w.pack(4, preludeSum) + blob + m.payload;
    assert Packs(w, 4, total) && Packs(w, 4, |blob|);
    assert body == prelude + (w.pack(4, preludeSum) + blob + m.payload);
    SecondChecksum(w, resume, prelude, w.pack(4, preludeSum) + blob + m.payload);
    r := Ok(body + w.pack(4, resume(body[8..], preludeSum)));
  }

  // --------------------------------------------------------------- streams

  function Stream<B>(frame: Message<B> -> seq<B>, ms: seq<Message<B>>): seq<B>
  {
    if ms == [] then [] else frame(ms[0]) + Stream(frame, ms[1..])
  }

  /** Frame after frame off the front of a stream, by a decoder of one frame. */
  function SplitAll<B(==)>(first: seq<B> -> Option<Decoded<B>>, bs: seq<B>): Option<seq<Message<B>>>
    decreases |bs|
  {
    if bs == [] then Some([])
    else if first(bs).None? || |first(bs).value.rest| >= |bs| then None
    else
      var rest := SplitAll(first, first(bs).value.rest);
      if rest.None? then None else Some([first(bs).value.message] + rest.value)
  }

  predicate AllEncodable<B>(w: Wire<B>, ms: seq<Message<B>>) { forall i :: 0 <= i < |ms| ==> Encodable(w, ms[i]) }

  ghost predicate SplitsAt<B>(frame: Message<B> -> seq<B>, first: seq<B> -> Option<Decoded<B>>, m: Message<B>, rest: seq<B>)
  {
    frame(m) != [] && first(frame(m) + rest) == Some(Decoded(m, rest))
  }

  lemma SplitFirst<B>(first: seq<B> -> Option<Decoded<B>>, frame: seq<B>, m: Message<B>, rest: seq<B>, ms: seq<Message<B>>)
    requires frame != [] && first(frame + rest) == Some(Decoded(m, rest)) && SplitAll(first, rest) == Some(ms)
    ensures SplitAll(first, frame + rest) == Some([m] + ms)
  {
  }

  /** If every frame of a list comes off the front of a stream, the list comes off it whole. */
  lemma {:induction false} SplitStream<B(!new)>(
    frame: Message<B> -> seq<B>, first: seq<B> -> Option<Decoded<B>>, ms: seq<Message<B>>)
    requires forall i, rest :: 0 <= i < |ms| ==> SplitsAt(frame, first, ms[i], rest)
    ensures SplitAll(first, Stream(frame, ms)) == Some(ms)
    decreases |ms|
  {
    if ms != [] {
      var rest := Stream(frame, ms[1..]);
      SplitStream(frame, first, ms[1..]);
      assert SplitsAt(frame, first, ms[0], rest);
      SplitFirst(first, frame(ms[0]), ms[0], rest, ms[1..]);
      assert ms == [ms[0]] + ms[1..];
    }
  }

  // ------------------------------------------------------------- corruption

  /** The checksum sees every change of one symbol. */
  ghost predicate SeesOne<B(!new)>(w: Wire<B>)
  {
    forall bs: seq<B>, i: nat, b: B :: SeesAt(w, bs, i, b)
  }

  ghost predicate SeesAt<B>(w: Wire<B>, bs: seq<B>, i: nat, b: B)
  {
    i < |bs| && b != bs[i] ==> w.sum(bs[i := b]) != w.sum(bs)
  }

  lemma UnpackInjective<B(!new)>(w: Wire<B>, a: seq<B>, b: seq<B>)
    requires Lawful(w) && |a| == |b| && w.unpack(a) == w.unpack(b)
    ensures a == b
  {
    assert Unpacks(w, a) && Unpacks(w, b);
  }

  /** A part of a sequence, and the number that seals it, no longer agree when one symbol of either changes. */
  lemma SealBroken<B(!new)>(w: Wire<B>, bs: seq<B>, i: nat, b: B, n: nat)
    requires Lawful(w) && SeesOne(w) && i < n + 4 <= |bs| && b != bs[i]
    requires w.unpack(bs[n..n + 4]) == w.sum(bs[..n])
    ensures w.unpack(bs[i := b][n..n + 4]) != w.sum(bs[i := b][..n])
  {
    var cs := bs[i := b];
    if i < n {
      assert cs[n..n + 4] == bs[n..n + 4] && cs[..n] == bs[..n][i := b];
      assert SeesAt(w, bs[..n], i, b);
    } else {
      assert cs[..n] == bs[..n];
      assert cs[n..n + 4][i - n] == b;
      if w.unpack(cs[n..n + 4]) == w.unpack(bs[n..n + 4]) {
        UnpackInjective(w, cs[n..n + 4], bs[n..n + 4]);
      }
    }
  }

  lemma PreludeBroken<B(!new)>(w: Wire<B>, bs: seq<B>, i: nat, b: B)
    requires Lawful(w) && SeesOne(w) && PreludeOk(w, bs) && i < 12 && b != bs[i]
    ensures Decode(w, bs[i := b]) == None
  {
    SealBroken(w, bs, i, b, 8);
  }

  lemma BodyBroken<B(!new)>(w: Wire<B>, bs: seq<B>, total: nat, i: nat, b: B)
    requires Lawful(w) && SeesOne(w) && PreludeOk(w, bs) && total == w.unpack(bs[..4]) && 12 <= i < total && b != bs[i]
    requires w.unpack(bs[total - 4..total]) == w.sum(bs[..total - 4])
    ensures Decode(w, bs[i := b]) == None
  {
    assert bs[i := b][..4] == bs[..4];
    SealBroken(w, bs, i, b, total - 4);
  }

  /** No frame with one symbol changed, wherever it is and whatever follows, is accepted. */
  lemma CorruptionSeen<B(!new)>(w: Wire<B>, m: Message<B>, rest: seq<B>, i: nat, b: B)
    requires Lawful(w) && SeesOne(w) && Encodable(w, m) && i < |Frame(w, m)| && b != Frame(w, m)[i]
    ensures Decode(w, Frame(w, m)[i := b] + rest) == None
  {
    FrameCarries(w, m, rest);
    ChangedBefore(Frame(w, m), rest, i, b);
    CarriedBroken(w, Frame(w, m) + rest, m, rest, i, b);
  }

  lemma ChangedBefore<B>(frame: seq<B>, rest: seq<B>, i: nat, b: B)
    requires i < |frame|
    ensures frame[i := b] + rest == (frame + rest)[i := b] && (frame + rest)[i] == frame[i]
  {
  }

  lemma CarriedBroken<B(!new)>(w: Wire<B>, bs: seq<B>, m: Message<B>, rest: seq<B>, i: nat, b: B)
    requires Lawful(w) && SeesOne(w) && Encodable(w, m) && Carries(w, bs, m, rest) && i < TotalLength(w, m) && b != bs[i]
    ensures Decode(w, bs[i := b]) == None
  {
    if i < 12 {
      PreludeBroken(w, bs, i, b);
    } else {
      BodyBroken(w, bs, TotalLength(w, m), i, b);
    }
  }
}
