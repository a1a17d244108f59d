/**
  What the two directions of basE91 promise together: no bit is lost between encoder and
  decoder, decoding inverts encoding, and exactly which texts an encoder can produce.
 */
module Base91Theorems {
  import opened Bits
  import opened Base91Tables
  import opened Base91Spec
  import opened Base91Streams
  import opened Wrappers

  // ----- Each layer of the encoding has an inverse

  lemma {:induction false} DigitsOfText(ds: seq<Digit>)
    ensures Digits(Text(ds)) == ds
  {
    if ds != [] {
      DecodeOfEncode(ds[0]);
      DigitsOfText(ds[1..]);
      assert Text(ds)[1..] == Text(ds[1..]);
    }
  }

  lemma {:induction false} BytesOfStream(bytes: seq<Byte>)
    ensures BytesOf(StreamBits(bytes)) == bytes
    ensures Leftover(StreamBits(bytes)) == []
  {
    if bytes != [] {
      var s := StreamBits(bytes);
      assert Pow2(8) == 256;
      WrapSmall(bytes[0], 8);
      assert s[..8] == ToBits(bytes[0], 8) && s[8..] == StreamBits(bytes[1..]);
      BytesOfStream(bytes[1..]);
    }
  }

  lemma {:induction false} StreamOfBytes(s: seq<Bit>)
    ensures StreamBits(BytesOf(s)) + Leftover(s) == s
    decreases |s|
  {
    if |s| >= 8 {
      StreamOfBytes(s[8..]);
      BitsOfValue(s[..8]);
      assert BytesOf(s)[1..] == BytesOf(s[8..]);
      assert s[..8] + s[8..] == s;
    }
  }

  lemma PairOfBlock(v: Block)
    ensures PairValue(PairDigits(v)[0], PairDigits(v)[1]) == v
  {
  }

  lemma BlockOfPair(low: Digit, high: Digit)
    ensures PairDigits(PairValue(low, high)) == [low, high]
  {
  }

  /** The decoder reads off the width that the encoder chose. */
  lemma WidthIsCut(s: seq<Bit>)
    requires |s| > 13 && Value(s[..Cut(s)]) <= 8280
    ensures Width(Value(s[..Cut(s)])) == Cut(s)
  {
    assert Pow2(13) == 8192;
    ValueBound(s[..13]);
    assert s[..14] == s[..13] + [s[13]];
    ValueSnoc(s[..13], s[13]);
  }

  // ----- No bit is lost

  /** The digits of the first block give back the bits that were cut. */
  lemma FirstBlockBits(s: seq<Bit>)
    requires |s| > 13
    ensures PairBits(BlockDigits(Blocks(s))) == s[..Cut(s)] + PairBits(BlockDigits(Blocks(s[Cut(s)..])))
  {
    hide Width, PairBits, BlockDigits;
    BlockBound(s);
    WidthIsCut(s);
    BitsOfValue(s[..Cut(s)]);
    FirstPair(Blocks(s));
  }

  /** The bits in the blocks, followed by the bits still pending, are the whole stream. */
  lemma {:induction false} BlocksKeepBits(s: seq<Bit>)
    ensures PairBits(BlockDigits(Blocks(s))) + Rest(s) == s
    decreases |s|
  {
    hide PairBits, BlockDigits, Blocks, Cut;
    if |s| <= 13 {
      NoBlocks(s);
      assert [] + s == s;
    } else {
      var w := Cut(s);
      FirstBlockBits(s);
      BlocksKeepBits(s[w..]);
      var front, bits, held := s[..w], PairBits(BlockDigits(Blocks(s[w..]))), Rest(s);
      assert front + bits + held == front + (bits + held);
    }
  }

  lemma NoBlocks(s: seq<Bit>)
    requires |s| <= 13
    ensures PairBits(BlockDigits(Blocks(s))) == []
  {
  }

  lemma FirstPair(vs: seq<Block>)
    requires vs != []
    ensures PairBits(BlockDigits(vs)) == ToBits(vs[0], Width(vs[0])) + PairBits(BlockDigits(vs[1..]))
  {
    PairOfBlock(vs[0]);
    assert BlockDigits(vs)[2..] == BlockDigits(vs[1..]);
  }

  /**
    Lock step. Feed a decoder what an encoder has written so far. At that point every input bit
    is in exactly one of three places, in this order: the bytes the decoder has written, the
    bits the decoder holds, the bits the encoder holds.
   */
  lemma LockStep(bytes: seq<Byte>)
    ensures var e := EncoderWrite(FRESH_ENCODER, bytes);
      var d := DecoderWrite(FRESH_DECODER, e.out);
      && StreamBits(bytes) == StreamBits(d.out) + d.pending + e.pending
      && d.value == None
      && d.out <= bytes
      && 8 * (|bytes| - |d.out|) == |e.pending| + |d.pending|
      && |bytes| - |d.out| <= 2
  {
    hide StreamBits, Blocks, Rest, BlockDigits, Text, Digits, PairBits, BytesOf, Leftover, EncoderWrite, DecoderWrite;
    var s := StreamBits(bytes);
    var ds := BlockDigits(Blocks(s));
    FreshEncoderWrite(bytes);
    FreshDecoderWrite(Text(ds));
    DigitsOfText(ds);
    BlocksKeepBits(s);
    StreamOfBytes(PairBits(ds));
    var out, held, rest := BytesOf(PairBits(ds)), Leftover(PairBits(ds)), Rest(s);
    assert s == StreamBits(out) + (held + rest);
    DecodedPrefix(bytes, out, held + rest);
  }

  lemma {:induction false} DecodedPrefix(bytes: seq<Byte>, out: seq<Byte>, held: seq<Bit>)
    requires StreamBits(bytes) == StreamBits(out) + held
    ensures out <= bytes
  {
    BytesOfStream(bytes);
    BytesOfStream(out);
    BytesOfConcat(StreamBits(out), held);
  }

  // ----- Round trip

  /** What the tail digits say is the rest of the stream, padded with fewer than 8 zeros if it took two digits. */
  lemma TailPairBits(rest: seq<Bit>) returns (m: nat)
    requires |rest| <= 13 && |TailDigits(rest)| == 2
    ensures m < 8 && PairBits(TailDigits(rest)) == rest + ToBits(0, m)
  {
    var v := Value(rest);
    RestBound(rest);
    ValueBound(rest);
    BitsOfValue(rest);
    PairOfBlock(v);
    var w := Width(v);
    assert TailDigits(rest) == PairDigits(v);
    assert PairBits(TailDigits(rest)) == ToBits(v, w) by {
      assert PairBits(TailDigits(rest)[2..]) == [];
    }
    assert Pow2(6) == 64;
    if |rest| <= 6 { Pow2Monotone(|rest|, 6); }
    m := w - |rest|;
    ToBitsPadding(v, |rest|, m);
  }

  /** Fewer than 8 more bits after whole bytes are dropped. */
  lemma PaddingDropped(s: seq<Bit>, pad: seq<Bit>)
    requires |s| % 8 == 0 && |pad| < 8
    ensures BytesOf(s + pad) == BytesOf(s)
  {
    BytesOfConcat(s, pad);
    assert Leftover(s) == [];
    assert [] + pad == pad;
  }

  /** One tail digit fills exactly the byte that the decoder has open. */
  lemma TailByteBits(held: seq<Bit>, rest: seq<Bit>)
    requires |held| + |rest| == 8 && 1 <= |rest| <= 7 && Value(rest) <= 90
    ensures TailBytes(held, Some(Value(rest))) == BytesOf(held + rest)
  {
    ToBitsPrefix(Value(rest), |rest|, 8 - |rest|);
    BitsOfValue(rest);
    var d, s := Value(rest), held + rest;
    ValueBound(s);
    assert Pow2(8) == 256;
    assert (held + ToBits(d, 8))[..8] == held + ToBits(d, 8)[..|rest|] == s;
    assert BytesOf(s) == [Value(s)] by {
      assert s[..8] == s && BytesOf(s[8..]) == [];
    }
  }

  /** The shapes of a tail: nothing, one digit for up to 7 bits, or two digits. */
  lemma TailShape(rest: seq<Bit>)
    requires |rest| <= 13
    ensures var tail := TailDigits(rest);
      && (|tail| < 2 ==> PairBits(tail) == [])
      && (|tail| == 0 ==> rest == [] && Unpaired(tail) == None)
      && (|tail| == 1 ==> 1 <= |rest| <= 7 && Value(rest) <= 90 && Unpaired(tail) == Some(Value(rest)))
      && (|tail| == 2 ==> Unpaired(tail) == None)
      && |tail| <= 2
  {
  }

  lemma NoTailByte(held: seq<Bit>)
    ensures TailBytes(held, None) == []
  {
  }

  lemma TailPaddingDropped(s: seq<Bit>, rest: seq<Bit>)
    requires |rest| <= 13 && (|s| + |rest|) % 8 == 0 && |TailDigits(rest)| == 2
    ensures BytesOf(s + PairBits(TailDigits(rest))) == BytesOf(s + rest)
  {
    hide TailDigits, PairBits, ToBits, BytesOf;
    var m := TailPairBits(rest);
    var zeros := ToBits(0, m);
    assert s + (rest + zeros) == (s + rest) + zeros;
    PaddingDropped(s + rest, zeros);
  }

  lemma LastByteIsFull(a: nat, b: nat)
    requires (a + b) % 8 == 0 && 1 <= b <= 7
    ensures a % 8 + b == 8
  {
  }

  lemma TailDigitCompletes(s: seq<Bit>, rest: seq<Bit>)
    requires (|s| + |rest|) % 8 == 0 && 1 <= |rest| <= 7 && Value(rest) <= 90
    ensures BytesOf(s) + TailBytes(Leftover(s), Some(Value(rest))) == BytesOf(s + rest)
  {
    hide Value, BytesOf, Leftover, TailBytes;
    LastByteIsFull(|s|, |rest|);
    BytesOfConcat(s, rest);
    TailByteBits(Leftover(s), rest);
  }

  /** Decoding the tail after the bits of the blocks. */
  lemma TailAfterBits(s: seq<Bit>, rest: seq<Bit>)
    requires |rest| <= 13 && (|s| + |rest|) % 8 == 0
    ensures var tail := TailDigits(rest);
      var t := s + PairBits(tail);
      BytesOf(t) + TailBytes(Leftover(t), Unpaired(tail)) == BytesOf(s + rest)
  {
    hide TailDigits, PairBits, Value, BytesOf, Leftover, Unpaired, TailBytes;
    var tail := TailDigits(rest);
    TailShape(rest);
    if |tail| == 1 {
      assert s + [] == s;
      TailDigitCompletes(s, rest);
    } else {
      NoTailByte(Leftover(s + PairBits(tail)));
      var out := BytesOf(s + PairBits(tail));
      assert out + [] == out;
      if |tail| == 2 {
        TailPaddingDropped(s, rest);
      }
    }
  }

  /** Decoding the tail after the digits of the blocks. */
  lemma TailRoundTrip(ds: seq<Digit>, rest: seq<Bit>)
    requires |ds| % 2 == 0 && |rest| <= 13
    requires (|PairBits(ds)| + |rest|) % 8 == 0
    ensures DecodedDigits(ds + TailDigits(rest)) == BytesOf(PairBits(ds) + rest)
  {
    hide TailDigits, PairBits, BytesOf, Leftover, Unpaired, TailBytes;
    PairBitsConcat(ds, TailDigits(rest));
    UnpairedConcat(ds, TailDigits(rest));
    TailAfterBits(PairBits(ds), rest);
  }

  /** Decoding inverts encoding, for every byte sequence. */
  lemma RoundTrip(bytes: seq<Byte>)
    ensures Decoded(Encoded(bytes)) == bytes
  {
    hide StreamBits, Blocks, Rest, BlockDigits, TailDigits, Text, Digits, PairBits, BytesOf, DecodedDigits;
    var s := StreamBits(bytes);
    var ds := BlockDigits(Blocks(s));
    DigitsOfText(EncodedDigits(s));
    BlocksKeepBits(s);
    BytesOfStream(bytes);
    assert |PairBits(ds)| + |Rest(s)| == |s|;
    TailRoundTrip(ds, Rest(s));
  }

  // ----- Bytes outside the alphabet

  function Alphabetic(text: seq<Byte>): seq<Byte> {
    if text == [] then []
    else if IsAlphabetic(text[0]) then [text[0]] + Alphabetic(text[1..])
    else Alphabetic(text[1..])
  }

  /** Only the alphabet characters of a text matter, wherever the other bytes are. */
  lemma {:induction false} DigitsOfAlphabetic(text: seq<Byte>)
    ensures Text(Digits(text)) == Alphabetic(text)
    ensures Decoded(Alphabetic(text)) == Decoded(text)
  {
    TextOfDigits(text);
    DigitsOfText(Digits(text));
  }

  lemma {:induction false} TextOfDigits(text: seq<Byte>)
    ensures Text(Digits(text)) == Alphabetic(text)
  {
    if text != [] {
      TextOfDigits(text[1..]);
      EncodeOfDecode(text[0]);
      if IsAlphabetic(text[0]) {
        var ds := Digits(text);
        assert ds[1..] == Digits(text[1..]);
      }
    }
  }

  /** A text that is an encoding with any other bytes inserted anywhere still decodes to the input. */
  lemma {:induction false} RoundTripWithNoise(bytes: seq<Byte>, text: seq<Byte>)
    requires Alphabetic(text) == Encoded(bytes)
    ensures Decoded(text) == bytes
  {
    DigitsOfAlphabetic(text);
    RoundTrip(bytes);
  }

  lemma {:induction false} InsertedNoiseIsSkipped(before: seq<Byte>, noise: seq<Byte>, after: seq<Byte>)
    requires forall b :: b in noise ==> !IsAlphabetic(b)
    ensures Decoded(before + noise + after) == Decoded(before + after)
  {
    NoDigits(noise);
    DigitsConcat(before + noise, after);
    DigitsConcat(before, noise);
    DigitsConcat(before, after);
    assert Digits(before) + [] == Digits(before);
  }

  lemma {:induction false} NoDigits(noise: seq<Byte>)
    requires forall b :: b in noise ==> !IsAlphabetic(b)
    ensures Digits(noise) == []
  {
    if noise != [] {
      assert noise[0] in noise;
      NoDigits(noise[1..]);
    }
  }

  // ----- Which texts an encoder produces

  /**
    The condition on the digits of a text: the bits that the decoder drops at the end carry
    nothing, and the tail has the number of digits that the encoder would give it.
   */
  predicate IsCanonical(ds: seq<Digit>) {
    var dropped := |PairBits(ds)| % 8;
    match Unpaired(ds)
    case Some(d) => dropped != 0 && d < Pow2(8 - dropped)
    case None =>
      dropped == 0 || |ds| < 2 ||
      var v := PairValue(ds[|ds| - 2], ds[|ds| - 1]);
      var kept := Width(v) - dropped;
      v < Pow2(kept) && (kept > 7 || v > 90)
  }

  /** Blocks read from digits are cut again in the same places, whatever bits follow. */
  lemma {:induction false} RecutPairs(ds: seq<Digit>, more: seq<Bit>)
    requires |ds| % 2 == 0 && more != []
    ensures EncodedDigits(PairBits(ds) + more) == ds + EncodedDigits(more)
    decreases |ds|
  {
    hide ToBits, Width, EncodedDigits, PairDigits;
    var last := EncodedDigits(more);
    if ds == [] {
      assert [] + more == more;
      assert ds + last == last;
    } else {
      var v := PairValue(ds[0], ds[1]);
      RecutPairs(ds[2..], more);
      RecutBlock(v, PairBits(ds[2..]) + more);
      BlockOfPair(ds[0], ds[1]);
      assert PairBits(ds) + more == ToBits(v, Width(v)) + (PairBits(ds[2..]) + more);
      assert [ds[0], ds[1]] + (ds[2..] + last) == ds + last;
    }
  }

  lemma {:induction false} RecutBlock(v: Block, more: seq<Bit>)
    requires more != [] || Width(v) == 14
    ensures EncodedDigits(ToBits(v, Width(v)) + more) == PairDigits(v) + EncodedDigits(more)
  {
    hide Value, ToBits, Cut, EncodedDigits, PairDigits;
    var s := ToBits(v, Width(v)) + more;
    FirstCut(v, more);
    assert s[..Width(v)] == ToBits(v, Width(v)) && s[Width(v)..] == more;
    WrapSmall(v, Width(v));
    FirstBlockDigits(s, v);
  }

  lemma FirstBlockDigits(s: seq<Bit>, v: Block)
    requires |s| > 13 && Value(s[..Cut(s)]) == v
    ensures EncodedDigits(s) == PairDigits(v) + EncodedDigits(s[Cut(s)..])
  {
    hide Value, Cut, PairDigits, TailDigits;
    var rest := Blocks(s[Cut(s)..]);
    assert ([v] + rest)[1..] == rest;
  }

  lemma FirstCut(v: Block, more: seq<Bit>)
    requires more != [] || Width(v) == 14
    ensures Cut(ToBits(v, Width(v)) + more) == Width(v)
  {
    hide Value, ToBits;
    LowBlockBits(v);
    ToBitsPrefix(v, 13, Width(v) - 13);
    assert (ToBits(v, Width(v)) + more)[..13] == ToBits(v, 13);
  }

  /** The bit stream that decoding a text makes. */
  lemma {:induction false} StreamOfDecoded(ds: seq<Digit>)
    ensures var s := PairBits(ds);
      StreamBits(DecodedDigits(ds)) ==
        match Unpaired(ds)
        case Some(d) => s + ToBits(d, 8 - |s| % 8)
        case None => s[..|s| - |s| % 8]
  {
    hide PairBits, StreamBits, BytesOf, Leftover, Unpaired, ToBits;
    var s := PairBits(ds);
    var bytes, held := BytesOf(s), Leftover(s);
    StreamOfBytes(s);
    match Unpaired(ds)
    case Some(d) =>
      StreamBitsConcat(bytes, TailBytes(held, Some(d)));
      TailByteStream(held, d);
      assert StreamBits(bytes) + (held + ToBits(d, 8 - |held|)) == s + ToBits(d, 8 - |held|);
    case None =>
      assert bytes + [] == bytes;
      assert s[..|s| - |held|] == StreamBits(bytes);
  }

  lemma TailByteStream(held: seq<Bit>, d: Digit)
    requires |held| < 8
    ensures StreamBits(TailBytes(held, Some(d))) == held + ToBits(d, 8 - |held|)
  {
    hide ToBits, Value, StreamBits, Pow2;
    var last := (held + ToBits(d, 8))[..8];
    var k := 8 - |held|;
    PrefixOfConcat(held, ToBits(d, 8), 8);
    ToBitsPrefix(d, k, |held|);
    assert last == held + ToBits(d, k);
    BitsOfValue(last);
    ByteBound(last);
    StreamOfByte(Value(last));
  }

  lemma ByteBound(s: seq<Bit>)
    requires |s| == 8
    ensures Value(s) < 256
  {
    ValueBound(s);
  }

  lemma StreamOfByte(b: Byte)
    ensures StreamBits([b]) == ToBits(b, 8)
  {
  }

  lemma {:induction false} WrapBound(x: nat, n: nat)
    ensures Wrap(x, n) < Pow2(n)
    ensures Wrap(x, n) <= x
  {
    if n != 0 {
      WrapBound(x / 2, n - 1);
      assert ToBits(x, n)[1..] == ToBits(x / 2, n - 1);
    }
  }

  /** When the bits kept of a final digit encode to that digit. */
  lemma {:induction false} LastDigitRecoded(d: Digit, m: nat)
    requires 1 <= m <= 8
    ensures EncodedDigits(ToBits(d, m)) == [d] <==> m != 8 && d < Pow2(m)
  {
    WrapBound(d, m);
    if d < Pow2(m) {
      WrapSmall(d, m);
    }
    assert EncodedDigits(ToBits(d, m)) == TailDigits(ToBits(d, m));
  }

  /** When the bits kept of a final block encode to that block. */
  lemma {:induction false} LastBlockRecoded(v: Block, kept: nat)
    requires Width(v) - 7 <= kept <= Width(v)
    ensures EncodedDigits(ToBits(v, kept)) == PairDigits(v)
      <==> kept == Width(v) || (v < Pow2(kept) && (kept > 7 || v > 90))
  {
    if kept == 14 {
      RecutBlock(v, []);
      assert ToBits(v, 14) + [] == ToBits(v, 14);
      assert EncodedDigits([]) == [];
      assert PairDigits(v) + [] == PairDigits(v);
    } else {
      var bits := ToBits(v, kept);
      WrapBound(v, kept);
      if v < Pow2(kept) {
        WrapSmall(v, kept);
      }
      assert EncodedDigits(bits) == TailDigits(bits);
      assert |TailDigits(bits)| == 2 ==> TailDigits(bits) == PairDigits(Wrap(v, kept));
      PairOfBlock(v);
    }
  }

  lemma CanonicalUnpaired(ds: seq<Digit>, d: Digit)
    requires Unpaired(ds) == Some(d)
    ensures EncodedDigits(StreamBits(DecodedDigits(ds))) == ds <==> IsCanonical(ds)
  {
    hide PairBits, StreamBits, DecodedDigits, EncodedDigits, ToBits, Pow2;
    var kept := 8 - |PairBits(ds)| % 8;
    StreamOfDecoded(ds);
    PairBitsOfPaired(ds);
    RecutPairs(Paired(ds), ToBits(d, kept));
    LastDigitRecoded(d, kept);
    assert ds == Paired(ds) + [d];
  }

  lemma CanonicalPaired(ds: seq<Digit>)
    requires Unpaired(ds) == None && ds != []
    ensures EncodedDigits(StreamBits(DecodedDigits(ds))) == ds <==> IsCanonical(ds)
  {
    hide StreamBits, PairBits, DecodedDigits, EncodedDigits, ToBits, Pow2, Width, PairValue, PairDigits;
    var n := |ds| - 2;
    var init, v := ds[..n], PairValue(ds[n], ds[n + 1]);
    var kept := Width(v) - |PairBits(ds)| % 8;
    StreamOfDecoded(ds);
    LastPairBits(ds);
    RecutPairs(init, ToBits(v, kept));
    LastBlockRecoded(v, kept);
    BlockOfPair(ds[n], ds[n + 1]);
    assert ds == init + [ds[n], ds[n + 1]];
  }

  lemma LastPairBits(ds: seq<Digit>)
    requires |ds| % 2 == 0 && ds != []
    ensures var n := |ds| - 2;
      var v := PairValue(ds[n], ds[n + 1]);
      var s, dropped := PairBits(ds), |PairBits(ds)| % 8;
      s[..|s| - dropped] == PairBits(ds[..n]) + ToBits(v, Width(v) - dropped)
  {
    hide ToBits, Width, PairValue, PairBits;
    var n := |ds| - 2;
    var v := PairValue(ds[n], ds[n + 1]);
    assert ds == ds[..n] + [ds[n], ds[n + 1]];
    PairBitsConcat(ds[..n], [ds[n], ds[n + 1]]);
    OnePairBits(ds[n], ds[n + 1]);
    var dropped := |PairBits(ds)| % 8;
    ToBitsPrefix(v, Width(v) - dropped, dropped);
  }

  lemma OnePairBits(low: Digit, high: Digit)
    ensures PairBits([low, high]) == ToBits(PairValue(low, high), Width(PairValue(low, high)))
  {
    hide ToBits, Width;
    assert PairBits([low, high][2..]) == [];
  }

  lemma CanonicalDigits(ds: seq<Digit>)
    ensures EncodedDigits(StreamBits(DecodedDigits(ds))) == ds <==> IsCanonical(ds)
  {
    match Unpaired(ds)
    case Some(d) => CanonicalUnpaired(ds, d);
    case None => if ds != [] { CanonicalPaired(ds); }
  }

  lemma PairBitsOfPaired(ds: seq<Digit>)
    ensures PairBits(Paired(ds)) == PairBits(ds)
  {
    hide PairBits, Paired, Unpaired;
    PairBitsConcat(Paired(ds), Waiting(Unpaired(ds)));
    NoPairBits(Waiting(Unpaired(ds)));
    assert PairBits(Paired(ds)) + [] == PairBits(Paired(ds));
  }

  ghost predicate IsEncoding(text: seq<Byte>) {
    exists bytes :: Encoded(bytes) == text
  }

  /**
    Decoding is not injective; encoding again gives a text back exactly when the text is
    canonical, and those are the texts an encoder produces.
   */
  lemma CanonicalTexts(text: seq<Byte>)
    ensures Encoded(Decoded(text)) == text <==> Alphabetic(text) == text && IsCanonical(Digits(text))
    ensures IsEncoding(text) <==> Alphabetic(text) == text && IsCanonical(Digits(text))
  {
    var ds := Digits(text);
    var es := EncodedDigits(StreamBits(Decoded(text)));
    CanonicalDigits(ds);
    TextOfDigits(text);
    DigitsOfText(es);
    DigitsOfText(ds);
    forall bytes | Encoded(bytes) == text
      ensures Encoded(Decoded(text)) == text
    {
      RoundTrip(bytes);
    }
  }
}
