/**
  basE91 as a map between bit streams, with no accumulator: the reference that the streaming
  encoder and decoder are proved against.

  Encoding reads the input as one bit stream, low bit first, and cuts it greedily: 13 bits when
  their value exceeds 88, otherwise 14, for as long as more than 13 bits remain. Each block is
  written as two base-91 digits, low digit first, and the bits that remain make the tail.
  Decoding reads digits in pairs, recovers each block's width from its value alone, and
  regroups the bits into bytes.
 */
module Base91Spec {
  import opened Bits
  import opened Base91Tables
  import opened Wrappers

  /** The largest block is 91 * 91 - 1. */
  type Block = x: nat | x <= 8280

  // ----- Bytes and bits

  function StreamBits(bytes: seq<Byte>): (s: seq<Bit>)
    ensures |s| == 8 * |bytes|
  {
    if bytes == [] then [] else ToBits(bytes[0], 8) + StreamBits(bytes[1..])
  }

  /** The whole bytes of a bit stream. */
  function BytesOf(s: seq<Bit>): (bytes: seq<Byte>)
    ensures |bytes| == |s| / 8
  {
    if |s| < 8 then [] else
      ValueBound(s[..8]);
      [Value(s[..8])] + BytesOf(s[8..])
  }

  /** The bits after the last whole byte. */
  function Leftover(s: seq<Bit>): (rest: seq<Bit>)
    ensures |rest| == |s| % 8
  {
    if |s| < 8 then s else Leftover(s[8..])
  }

  // ----- Encoding

  /** The width of the block at the front of a stream that has more than 13 bits. */
  function Cut(s: seq<Bit>): (w: nat)
    requires |s| > 13
    ensures w == 13 || w == 14
  {
    if Value(s[..13]) > 88 then 13 else 14
  }

  lemma BlockBound(s: seq<Bit>)
    requires |s| > 13
    ensures Value(s[..Cut(s)]) <= 8280
  {
    ValueBound(s[..13]);
    assert Pow2(13) == 8192;
    assert s[..14] == s[..13] + [s[13]];
    ValueSnoc(s[..13], s[13]);
  }

  lemma {:induction false} ValueSnoc(s: seq<Bit>, b: Bit)
    ensures Value(s + [b]) == Value(s) + if b == 1 then Pow2(|s|) else 0
  {
    if s != [] {
      ValueSnoc(s[1..], b);
      assert (s + [b])[1..] == s[1..] + [b];
    }
  }

  function Blocks(s: seq<Bit>): seq<Block> {
    if |s| <= 13 then [] else
      BlockBound(s);
      [Value(s[..Cut(s)])] + Blocks(s[Cut(s)..])
  }

  /** What the greedy cut leaves over. */
  function Rest(s: seq<Bit>): (rest: seq<Bit>)
    ensures |rest| <= 13 && |rest| <= |s|
  {
    if |s| <= 13 then s else Rest(s[Cut(s)..])
  }

  function PairDigits(v: Block): seq<Digit> {
    [v % 91, v / 91]
  }

  function BlockDigits(vs: seq<Block>): (ds: seq<Digit>)
    ensures |ds| == 2 * |vs|
  {
    if vs == [] then [] else PairDigits(vs[0]) + BlockDigits(vs[1..])
  }

  /** Two digits, one or none for the last bits. */
  function TailDigits(rest: seq<Bit>): seq<Digit>
    requires |rest| <= 13
  {
    RestBound(rest);
    if rest == [] then []
    else if |rest| > 7 || Value(rest) > 90 then PairDigits(Value(rest))
    else [Value(rest)]
  }

  lemma RestBound(rest: seq<Bit>)
    requires |rest| <= 13
    ensures Value(rest) < 8192
  {
    ValueBound(rest);
    Pow2Monotone(|rest|, 13);
    assert Pow2(13) == 8192;
  }

  function Text(ds: seq<Digit>): (text: seq<Byte>)
    ensures |text| == |ds|
  {
    if ds == [] then [] else [EncodeDigit(ds[0])] + Text(ds[1..])
  }

  function EncodedDigits(s: seq<Bit>): seq<Digit> {
    BlockDigits(Blocks(s)) + TailDigits(Rest(s))
  }

  function Encoded(bytes: seq<Byte>): seq<Byte> {
    Text(EncodedDigits(StreamBits(bytes)))
  }

  // ----- Decoding

  predicate IsAlphabetic(b: Byte) {
    DecodeEntry(b) < 91
  }

  /** The alphabet is the printable ASCII characters without space, apostrophe, hyphen and backslash. */
  lemma AlphabeticIsPrintable(b: Byte)
    ensures IsAlphabetic(b) <==> 33 <= b <= 126 && b !in {39, 45, 92}
  {
    hide DecodeEntry, EncodeDigit;
    AlphabetBytes(b);
    EncodeOfDecode(b);
  }

  /** The digits of a text; bytes outside the alphabet are skipped. */
  function Digits(text: seq<Byte>): (ds: seq<Digit>)
    ensures |ds| <= |text|
  {
    if text == [] then []
    else if IsAlphabetic(text[0]) then [DecodeEntry(text[0])] + Digits(text[1..])
    else Digits(text[1..])
  }

  function PairValue(low: Digit, high: Digit): Block {
    low + high * 91
  }

  /** The number of bits in a block, read off its value. */
  function Width(v: Block): (w: nat)
    ensures w == 13 || w == 14
    ensures v < Pow2(w)
  {
    assert Pow2(13) == 8192 && Pow2(14) == 16384;
    if v % 8192 > 88 then 13 else 14
  }

  /** The 13 low bits decide the width. */
  lemma LowBlockBits(v: Block)
    ensures Value(ToBits(v, 13)) == v % 8192
  {
    hide ToBits, Value;
    assert Pow2(13) == 8192 && Pow2(14) == 16384;
    WrapDropsTop(v, 13);
  }

  /** The bits of all complete pairs. */
  function PairBits(ds: seq<Digit>): seq<Bit> {
    if |ds| < 2 then [] else
      var v := PairValue(ds[0], ds[1]);
      ToBits(v, Width(v)) + PairBits(ds[2..])
  }

  /** The digit left without a partner. */
  function Unpaired(ds: seq<Digit>): Option<Digit> {
    if |ds| % 2 == 1 then Some(ds[|ds| - 1]) else None
  }

  /** The byte that a final unpaired digit completes. */
  function TailBytes(rest: seq<Bit>, unpaired: Option<Digit>): seq<Byte> {
    match unpaired
    case None => []
    case Some(d) =>
      var last := (rest + ToBits(d, 8))[..8];
      ValueBound(last);
      [Value(last)]
  }

  function DecodedDigits(ds: seq<Digit>): seq<Byte> {
    var s := PairBits(ds);
    BytesOf(s) + TailBytes(Leftover(s), Unpaired(ds))
  }

  function Decoded(text: seq<Byte>): seq<Byte> {
    DecodedDigits(Digits(text))
  }

  // ----- The state of a stream in progress

  /** What an encoder has written and the bits it still holds. */
  datatype EncoderState = EncoderState(out: seq<Byte>, pending: seq<Bit>)

  function EncoderWrite(st: EncoderState, buf: seq<Byte>): EncoderState {
    var s := st.pending + StreamBits(buf);
    EncoderState(st.out + Text(BlockDigits(Blocks(s))), Rest(s))
  }

  function EncoderFlush(st: EncoderState): EncoderState
    requires |st.pending| <= 13
  {
    EncoderState(st.out + Text(TailDigits(st.pending)), [])
  }

  /** What a decoder has written, the bits it still holds, and a digit waiting for its partner. */
  datatype DecoderState = DecoderState(out: seq<Byte>, pending: seq<Bit>, value: Option<Digit>)

  function Waiting(value: Option<Digit>): seq<Digit> {
    match value
    case None => []
    case Some(d) => [d]
  }

  function DecoderWrite(st: DecoderState, text: seq<Byte>): DecoderState {
    var ds := Waiting(st.value) + Digits(text);
    var s := st.pending + PairBits(ds);
    DecoderState(st.out + BytesOf(s), Leftover(s), Unpaired(ds))
  }

  function DecoderFlush(st: DecoderState): DecoderState {
    DecoderState(st.out + TailBytes(st.pending, st.value), [], None)
  }
}
