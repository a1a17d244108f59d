/**
  Flushing in the middle of a stream. An encoder goes on after a flush, and what it has written
  is then one encoding after another; the decoder reads it as one text.
 */
module Base91Flush {
  import opened Bits
  import opened Base91Tables
  import opened Base91Spec
  import opened Base91Streams
  import opened Base91Theorems
  import opened Wrappers

  /** An encoder that is flushed starts afresh: it writes the encodings of the pieces one after the other. */
  lemma FlushedPieces(a: seq<Byte>, b: seq<Byte>)
    ensures var first := EncoderFlush(EncoderWrite(FRESH_ENCODER, a));
      EncoderFlush(EncoderWrite(first, b)).out == Encoded(a) + Encoded(b)
  {
    hide StreamBits, Blocks, Rest, BlockDigits, TailDigits, Text, EncoderWrite;
    EncodedWhole(a);
    EncodedWhole(b);
    WriteAfter(Encoded(a), b);
    var s := StreamBits(b);
    assert Encoded(a) + Text(BlockDigits(Blocks(s))) + Text(TailDigits(Rest(s))) ==
      Encoded(a) + (Text(BlockDigits(Blocks(s))) + Text(TailDigits(Rest(s))));
  }

  /** A decoder that is flushed starts afresh, too: it holds nothing, and writes the decodings of the pieces. */
  lemma DecoderFlushedPieces(a: seq<Byte>, b: seq<Byte>)
    ensures var first := DecoderFlush(DecoderWrite(FRESH_DECODER, a));
      && first == DecoderState(Decoded(a), [], None)
      && DecoderFlush(DecoderWrite(first, b)).out == Decoded(a) + Decoded(b)
  {
    hide Digits, PairBits, BytesOf, Leftover, Unpaired, TailBytes, DecoderWrite;
    FreshDecoderWrite(a);
    DecoderWriteAfter(Decoded(a), b);
    var ds := Digits(b);
    var bytes, tail := BytesOf(PairBits(ds)), TailBytes(Leftover(PairBits(ds)), Unpaired(ds));
    assert Decoded(a) + bytes + tail == Decoded(a) + (bytes + tail);
  }

  lemma DecoderWriteAfter(out: seq<Byte>, text: seq<Byte>)
    ensures var s := PairBits(Digits(text));
      DecoderWrite(DecoderState(out, [], None), text) ==
        DecoderState(out + BytesOf(s), Leftover(s), Unpaired(Digits(text)))
  {
    hide Digits, PairBits, BytesOf, Leftover, Unpaired;
    var ds := Digits(text);
    assert [] + ds == ds;
    assert [] + PairBits(ds) == PairBits(ds);
  }

  lemma EncodedWhole(bytes: seq<Byte>)
    ensures var s := StreamBits(bytes);
      && Encoded(bytes) == Text(BlockDigits(Blocks(s))) + Text(TailDigits(Rest(s)))
      && EncoderFlush(EncoderWrite(FRESH_ENCODER, bytes)) == EncoderState(Encoded(bytes), [])
  {
    hide StreamBits, Blocks, Rest, BlockDigits, TailDigits, Text, EncoderWrite;
    var s := StreamBits(bytes);
    TextConcat(BlockDigits(Blocks(s)), TailDigits(Rest(s)));
    FreshEncoderWrite(bytes);
  }

  lemma WriteAfter(out: seq<Byte>, bytes: seq<Byte>)
    ensures var s := StreamBits(bytes);
      EncoderWrite(EncoderState(out, []), bytes) == EncoderState(out + Text(BlockDigits(Blocks(s))), Rest(s))
  {
    hide StreamBits, Blocks, Rest, BlockDigits, Text;
    assert [] + StreamBits(bytes) == StreamBits(bytes);
  }

  /** When a flush leaves no trace: nothing is pending, or just a whole 13-bit block. */
  predicate IsSeamless(pending: seq<Bit>) {
    pending == [] || (|pending| == 13 && Value(pending) > 88)
  }

  /** Exactly then the digits written so far hold whole bytes and nothing else. */
  lemma SeamlessDigits(bytes: seq<Byte>)
    ensures var s := StreamBits(bytes);
      IsSeamless(Rest(s)) <==> |PairBits(EncodedDigits(s))| == 8 * |bytes|
  {
    hide StreamBits, Blocks, Rest, BlockDigits, TailDigits, PairBits, Value;
    var s := StreamBits(bytes);
    BlocksKeepBits(s);
    PairBitsConcat(BlockDigits(Blocks(s)), TailDigits(Rest(s)));
    TailPairLength(Rest(s));
    var t := PairBits(BlockDigits(Blocks(s)));
    assert |t| + |Rest(s)| == |t + Rest(s)| == 8 * |bytes|;
  }

  lemma TailPairLength(rest: seq<Bit>)
    requires |rest| <= 13
    ensures |PairBits(TailDigits(rest))| == |rest| <==> IsSeamless(rest)
  {
    hide PairBits;
    TailShape(rest);
    RestBound(rest);
    if |TailDigits(rest)| == 2 {
      TailPairWidth(rest);
    }
  }

  lemma TailPairWidth(rest: seq<Bit>)
    requires |rest| <= 13 && |TailDigits(rest)| == 2
    ensures |PairBits(TailDigits(rest))| == if Value(rest) > 88 then 13 else 14
  {
    hide Value, PairBits, PairDigits;
    RestBound(rest);
    BlockBits(Value(rest));
  }

  lemma BlockBits(v: Block)
    ensures PairBits(PairDigits(v)) == ToBits(v, Width(v))
  {
    hide PairBits, ToBits, Width;
    PairOfBlock(v);
    OnePairBits(v % 91, v / 91);
  }

  // ----- A seamless flush

  /** Before a seamless flush and after it, the digits written are whole pairs with the bits of the input. */
  lemma SeamlessBits(bytes: seq<Byte>)
    requires IsSeamless(Rest(StreamBits(bytes)))
    ensures var ds := EncodedDigits(StreamBits(bytes));
      |ds| % 2 == 0 && PairBits(ds) == StreamBits(bytes)
  {
    hide StreamBits, Blocks, Rest, BlockDigits, TailDigits, PairBits, IsSeamless, Value;
    var s := StreamBits(bytes);
    var rest := Rest(s);
    BlocksKeepBits(s);
    PairBitsConcat(BlockDigits(Blocks(s)), TailDigits(rest));
    SeamlessTail(rest);
  }

  lemma SeamlessTail(rest: seq<Bit>)
    requires |rest| <= 13 && IsSeamless(rest)
    ensures |TailDigits(rest)| % 2 == 0 && PairBits(TailDigits(rest)) == rest
  {
    hide PairBits;
    TailShape(rest);
    TailPairLength(rest);
    if |TailDigits(rest)| == 2 {
      var m := TailPairBits(rest);
      assert m == 0;
      assert rest + [] == rest;
    }
  }

  /** Digits that hold whole bytes are decoded on their own. */
  lemma DecodeAfterWhole(ds: seq<Digit>, bytes: seq<Byte>, es: seq<Digit>)
    requires |ds| % 2 == 0 && PairBits(ds) == StreamBits(bytes)
    ensures DecodedDigits(ds + es) == bytes + DecodedDigits(es)
  {
    hide PairBits, StreamBits, BytesOf, Leftover, TailBytes, Unpaired;
    PairBitsConcat(ds, es);
    UnpairedConcat(ds, es);
    BytesOfStream(bytes);
    BytesOfConcat(PairBits(ds), PairBits(es));
    assert [] + PairBits(es) == PairBits(es);
  }

  lemma DigitsOfPieces(a: seq<Byte>, b: seq<Byte>)
    ensures Digits(Encoded(a) + Encoded(b)) == EncodedDigits(StreamBits(a)) + EncodedDigits(StreamBits(b))
    ensures Decoded(Encoded(b)) == DecodedDigits(EncodedDigits(StreamBits(b)))
  {
    hide Digits, EncodedDigits, StreamBits, Text, DecodedDigits;
    DigitsConcat(Encoded(a), Encoded(b));
    DigitsOfText(EncodedDigits(StreamBits(a)));
    DigitsOfText(EncodedDigits(StreamBits(b)));
  }

  lemma SeamlessFlush(a: seq<Byte>, b: seq<Byte>)
    requires IsSeamless(Rest(StreamBits(a)))
    ensures Decoded(Encoded(a) + Encoded(b)) == a + b
  {
    hide Digits, Encoded, EncodedDigits, StreamBits, Rest, PairBits, DecodedDigits, IsSeamless;
    SeamlessBits(a);
    DigitsOfPieces(a, b);
    RoundTrip(b);
    DecodeAfterWhole(EncodedDigits(StreamBits(a)), a, EncodedDigits(StreamBits(b)));
  }

  // ----- Any other flush

  lemma StreamPrefix(bytes: seq<Byte>, s: seq<Bit>)
    requires bytes <= BytesOf(s)
    ensures StreamBits(bytes) <= s
  {
    hide StreamBits, BytesOf, Leftover;
    var more := BytesOf(s)[|bytes|..];
    assert BytesOf(s) == bytes + more;
    StreamBitsConcat(bytes, more);
    StreamOfBytes(s);
  }

  lemma DigitsOfOne()
    ensures EncodedDigits(StreamBits([1])) == [1, 0]
  {
    StreamOfByte(1);
    WrapSmall(1, 8);
    var s := ToBits(1, 8);
    assert Value(s) == 1;
    assert EncodedDigits(s) == TailDigits(s);
  }

  /** Bits below a byte of value 1 make it another byte. */
  lemma PaddingShows(a: seq<Byte>, m: nat, more: seq<Bit>)
    requires m != 0
    ensures BytesOf(StreamBits(a) + (ToBits(0, m) + more)) != a + [1]
  {
    hide StreamBits, BytesOf;
    var s := StreamBits(a);
    var t := s + (ToBits(0, m) + more);
    assert t[|s|] == 0;
    if BytesOf(t) == a + [1] {
      StreamPrefix(a + [1], t);
      StreamBitsConcat(a, [1]);
      StreamOfByte(1);
    }
  }

  /** A flush that wrote two digits and was not seamless. */
  lemma TwoDigitFlushShows(a: seq<Byte>)
    requires var rest := Rest(StreamBits(a)); !IsSeamless(rest) && |TailDigits(rest)| == 2
    ensures DecodedDigits(EncodedDigits(StreamBits(a)) + [1, 0]) != a + [1]
  {
    hide StreamBits, Rest, Blocks, BlockDigits, TailDigits, PairBits, BytesOf, Leftover, Value, IsSeamless, ToBits;
    var s, rest := StreamBits(a), Rest(StreamBits(a));
    var ds, tail := BlockDigits(Blocks(s)), TailDigits(rest);
    BlocksKeepBits(s);
    TailPairLength(rest);
    var m := TailPairBits(rest);
    var zeros, one := ToBits(0, m), PairBits([1, 0]);
    PairBitsConcat(ds, tail);
    PairBitsConcat(ds + tail, [1, 0]);
    assert PairBits(ds) + (rest + zeros) + one == s + (zeros + one);
    PaddingShows(a, m, one);
    NoTailByte(Leftover(s + (zeros + one)));
    assert Unpaired(ds + tail + [1, 0]) == None;
    var bytes := BytesOf(s + (zeros + one));
    assert bytes + [] == bytes;
  }

  /** A waiting digit becomes the low digit of the pair that follows; with 91 more it is of the other parity. */
  lemma WaitingDigitShows(a: seq<Byte>, front: seq<Bit>, d: Digit)
    requires front < StreamBits(a) && StreamBits(a)[|front|] == d % 2
    ensures !(a <= BytesOf(front + ToBits(d + 91, 13)))
  {
    hide StreamBits, BytesOf;
    var s := front + ToBits(d + 91, 13);
    assert s[|front|] == (d + 91) % 2;
    if a <= BytesOf(s) {
      StreamPrefix(a, s);
    }
  }

  /** What is read when the digits of a byte of value 1 follow an unpaired digit. */
  lemma UnpairedRead(ds: seq<Digit>, d: Digit)
    requires |ds| % 2 == 0
    ensures BytesOf(PairBits(ds) + ToBits(d as nat + 91, 13)) <= DecodedDigits(ds + [d] + [1, 0])
  {
    hide PairBits, BytesOf, ToBits, DecodedDigits;
    var head := ds + [d, 1];
    StaysPaired(ds, [d, 1]);
    WaitingPair(d);
    PairBitsConcat(ds, [d, 1]);
    PairBitsConcat(head, [0]);
    NoPairBits([0]);
    assert PairBits(head) + [] == PairBits(head);
    PairsAreRead(head + [0]);
    assert ds + [d] + [1, 0] == head + [0];
  }

  lemma StaysPaired(ds: seq<Digit>, pair: seq<Digit>)
    requires |ds| % 2 == 0 && |pair| == 2
    ensures |ds + pair| % 2 == 0
  {
  }

  lemma WaitingPair(d: Digit)
    ensures PairBits([d, 1]) == ToBits(d as nat + 91, 13)
  {
    hide PairBits, ToBits;
    OnePairBits(d, 1);
  }

  lemma PairsAreRead(ds: seq<Digit>)
    ensures BytesOf(PairBits(ds)) <= DecodedDigits(ds)
  {
    hide PairBits, BytesOf, Leftover, TailBytes;
  }

  /** A flush that wrote one digit. */
  lemma OneDigitFlushShows(a: seq<Byte>)
    requires |TailDigits(Rest(StreamBits(a)))| == 1
    ensures DecodedDigits(EncodedDigits(StreamBits(a)) + [1, 0]) != a + [1]
  {
    hide StreamBits, Rest, Blocks, BlockDigits, PairBits, BytesOf, ToBits, DecodedDigits;
    var s, rest := StreamBits(a), Rest(StreamBits(a));
    var ds, d := BlockDigits(Blocks(s)), TailDigits(rest)[0];
    BlocksKeepBits(s);
    var front := PairBits(ds);
    assert rest[0] == d % 2;
    WaitingDigitShows(a, front, d);
    UnpairedRead(ds, d);
    var t := front + ToBits(d as nat + 91, 13);
    var out := DecodedDigits(ds + [d] + [1, 0]);
    assert out[..|a|] == BytesOf(t)[..|a|];
    assert (a + [1])[..|a|] == a;
  }

  /**
    Flushing after `a` and going on is decoded as if nothing had been flushed, whatever comes
    next, exactly when nothing or a whole 13-bit block was pending; that is, when the digits
    written hold as many bits as `a`. If not, a next byte of 1 shows it.
   */
  lemma FlushIsSeamless(a: seq<Byte>)
    ensures (forall b :: Decoded(Encoded(a) + Encoded(b)) == a + b) <==> IsSeamless(Rest(StreamBits(a)))
    ensures (forall b :: Decoded(Encoded(a) + Encoded(b)) == a + b)
      <==> |PairBits(EncodedDigits(StreamBits(a)))| == 8 * |a|
  {
    hide Digits, Encoded, EncodedDigits, StreamBits, Rest, PairBits, DecodedDigits, IsSeamless, TailDigits, Value;
    var rest := Rest(StreamBits(a));
    SeamlessDigits(a);
    if IsSeamless(rest) {
      forall b
        ensures Decoded(Encoded(a) + Encoded(b)) == a + b
      {
        SeamlessFlush(a, b);
      }
    } else {
      DigitsOfPieces(a, [1]);
      DigitsOfOne();
      PendingWritesDigits(rest);
      if |TailDigits(rest)| == 1 {
        OneDigitFlushShows(a);
      } else {
        TwoDigitFlushShows(a);
      }
      assert Decoded(Encoded(a) + Encoded([1])) != a + [1];
    }
  }

  lemma PendingWritesDigits(rest: seq<Bit>)
    requires |rest| <= 13 && !IsSeamless(rest)
    ensures 1 <= |TailDigits(rest)| <= 2
  {
  }

  /** An input on which a flush shows: two zero bytes, flushed one by one, decode to three. */
  lemma FlushedZerosDecodeToThree()
    ensures |Decoded(Encoded([0]) + Encoded([0]))| == 3
  {
    hide Digits, Encoded, EncodedDigits, StreamBits, DecodedDigits;
    DigitsOfPieces([0], [0]);
    DigitsOfZero();
    ZeroDigits();
  }

  lemma DigitsOfZero()
    ensures EncodedDigits(StreamBits([0])) == [0, 0]
  {
    StreamOfByte(0);
    WrapSmall(0, 8);
    var s := ToBits(0, 8);
    assert Value(s) == 0;
    assert EncodedDigits(s) == TailDigits(s);
  }

  lemma ZeroDigits()
    ensures |DecodedDigits([0, 0] + [0, 0])| == 3
  {
    PairBitsConcat([0, 0], [0, 0]);
    OnePairBits(0, 0);
  }
}
