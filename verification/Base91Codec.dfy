/**
  The streaming encoder and decoder, with their accumulators and bit counts, and the two
  convenience functions that drive them. Each method is proved against `Base91Spec`.

  Words are bounded as in the source, so every store below also proves that the 64-bit
  accumulator does not overflow and that the 32-bit count never goes below zero.
 */
module Base91Codec {
  import opened Bits
  import opened Base91Tables
  import opened Base91Spec
  import opened Base91Streams
  import opened Wrappers

  type U32 = x: nat | x < 0x1_0000_0000
  type U64 = x: nat | x < 0x1_0000_0000_0000_0000

  // ----- What one accumulator step does to the pending bits

  lemma SmallPowers()
    ensures Pow2(8) == 256 && Pow2(13) == 8192 && Pow2(14) == 16384 && Pow2(22) == 0x40_0000
  {
  }

  /** Shifting a value in above `k` pending bits appends its bits, and nothing is lost at the top of the word. */
  lemma ShiftIn(acc: U64, k: nat, x: nat, m: nat)
    requires acc < Pow2(k) && x < Pow2(m) && k + m <= 22
    ensures var sum := Or(acc, Wrap(Shl(x, k), 64));
      && sum < 0x1_0000_0000_0000_0000
      && sum < Pow2(k + m)
      && ToBits(sum, k + m) == ToBits(acc, k) + ToBits(x, m)
  {
    SmallPowers();
    ShlBound(x, k, m);
    Pow2Monotone(k + m, 22);
    Pow2Monotone(k + m, 64);
    WrapSmall(Shl(x, k), 64);
    OrShl(acc, k, x, m);
  }

  /** The low `w` bits of the accumulator are the front of the pending bits; shifting them out leaves the others. */
  lemma ShiftOut(acc: nat, n: nat, w: nat)
    requires acc < Pow2(n) && w <= n
    ensures And(acc, Pow2(w) - 1) == Value(ToBits(acc, n)[..w])
    ensures ToBits(Shr(acc, w), n - w) == ToBits(acc, n)[w..]
    ensures Shr(acc, w) < Pow2(n - w)
    ensures Shr(acc, w) <= acc
  {
    AndMask(acc, w);
    ToBitsPrefix(acc, w, n - w);
    ShrBits(acc, w, n - w);
    ShrShrinks(acc, w);
  }

  lemma {:induction false} ShrShrinks(x: nat, n: nat)
    ensures Shr(x, n) <= x
  {
    if n != 0 {
      ShrShrinks(x / 2, n - 1);
    }
  }

  /** A stream of 14 to 21 bits holds exactly one block. */
  lemma OneBlock(s: seq<Bit>)
    requires 13 < |s| <= 21
    ensures var v := Value(s[..Cut(s)]);
      && v <= 8280
      && Text(BlockDigits(Blocks(s))) == [EncodeDigit(v % 91), EncodeDigit(v / 91)]
      && Rest(s) == s[Cut(s)..]
  {
    hide Value, EncodeDigit;
    BlockBound(s);
    var v := Value(s[..Cut(s)]);
    assert Blocks(s) == [v];
    assert BlockDigits([v][1..]) == [];
    TextOfPair(v % 91, v / 91);
  }

  lemma TextOfPair(low: Digit, high: Digit)
    ensures Text([low]) == [EncodeDigit(low)]
    ensures Text([low, high]) == [EncodeDigit(low), EncodeDigit(high)]
  {
    hide EncodeDigit;
    assert [low, high][1..] == [high];
  }

  /** Taking one block off an accumulator that holds `n` bits. */
  lemma TakeBlock(acc: U64, n: nat)
    requires 13 < n <= 21 && acc < Pow2(n)
    ensures var low := And(acc, 8191);
      var w := if low > 88 then 13 else 14;
      var v := if low > 88 then low else And(acc, 16383);
      && v <= 8280
      && Shr(acc, w) < Pow2(n - w)
      && Shr(acc, w) <= acc
      && ToBits(Shr(acc, w), n - w) == Rest(ToBits(acc, n))
      && Text(BlockDigits(Blocks(ToBits(acc, n)))) == [EncodeDigit(v % 91), EncodeDigit(v / 91)]
  {
    hide ToBits, Value, And, Shr, Pow2, Text, Blocks, Rest, BlockDigits, EncodeDigit;
    SmallPowers();
    ShiftOut(acc, n, 13);
    ShiftOut(acc, n, 14);
    OneBlock(ToBits(acc, n));
  }

  /** The characters for the bits that remain in the accumulator. */
  lemma {:induction false} LastDigits(acc: U64, n: nat)
    requires n <= 13 && acc < Pow2(n)
    ensures acc < 8192
    ensures Text(TailDigits(ToBits(acc, n))) ==
      if n == 0 then []
      else if n > 7 || acc > 90 then [EncodeDigit(acc % 91), EncodeDigit(acc / 91)]
      else [EncodeDigit(acc % 91)]
  {
    hide Value, ToBits, EncodeDigit, Text;
    WrapSmall(acc, n);
    RestBound(ToBits(acc, n));
    TextOfPair(acc % 91, acc / 91);
    TextOfNothing();
  }

  lemma TextOfNothing()
    ensures Text([]) == []
  {
  }

  lemma EncoderWriteNothing(st: EncoderState)
    requires |st.pending| <= 13
    ensures EncoderWrite(st, []) == st
  {
    assert st.pending + StreamBits([]) == st.pending;
  }

  lemma EncoderWriteByte(st: EncoderState, b: Byte)
    ensures var s := st.pending + ToBits(b, 8);
      EncoderWrite(st, [b]) ==
        if |s| > 13 then EncoderState(st.out + Text(BlockDigits(Blocks(s))), Rest(s))
        else EncoderState(st.out, s)
  {
    assert StreamBits([b]) == ToBits(b, 8);
    assert st.out + [] == st.out;
  }

  // ----- The writer behind a codec

  /** The byte vector that an encoder or a decoder writes to. */
  class Sink {
    var contents: seq<Byte>

    constructor ()
      ensures contents == []
    {
      contents := [];
    }

    method WriteAll(bytes: seq<Byte>)
      modifies this
      ensures contents == old(contents) + bytes
    {
      contents := contents + bytes;
    }
  }

  // ----- Encoder

  class Base91Encoder {
    const writer: Sink
    var accumulator: U64
    var bits: U32

    ghost predicate Valid()
      reads this
    {
      bits <= 13 && accumulator < Pow2(bits)
    }

    ghost function State(): EncoderState
      reads this, writer
    {
      EncoderState(writer.contents, ToBits(accumulator, bits))
    }

    constructor (writer: Sink)
      ensures Valid() && this.writer == writer
      ensures State() == EncoderState(writer.contents, [])
    {
      this.writer := writer;
      accumulator := 0;
      bits := 0;
    }

    /** Takes one block off the accumulator and writes its two digits. */
    method EmitBlock()
      requires 13 < bits <= 21 && accumulator < Pow2(bits)
      modifies this`accumulator, this`bits, writer
      ensures Valid()
      ensures var s := old(ToBits(accumulator, bits));
        && writer.contents == old(writer.contents) + Text(BlockDigits(Blocks(s)))
        && ToBits(accumulator, bits) == Rest(s)
    {
      hide ToBits, Value, And, Shr, Pow2, Text, Blocks, Rest, BlockDigits, EncodeDigit;
      TakeBlock(accumulator, bits);
      var val := And(accumulator, 8191);
      if val > 88 {
        accumulator := Shr(accumulator, 13);
        bits := bits - 13;
      } else {
        val := And(accumulator, 16383);
        accumulator := Shr(accumulator, 14);
        bits := bits - 14;
      }
      var out := [EncodeDigit(val % 91), EncodeDigit(val / 91)];
      writer.WriteAll(out);
    }

    /** The body of the loop in `Write`. */
    method WriteByte(b: Byte)
      requires Valid()
      modifies this`accumulator, this`bits, writer
      ensures Valid()
      ensures State() == EncoderWrite(old(State()), [b])
    {
      hide ToBits, Value, Text, Blocks, Rest, BlockDigits, EncoderWrite, Or, Shl, Wrap, Pow2;
      EncoderWriteByte(State(), b);
      SmallPowers();
      ShiftIn(accumulator, bits, b, 8);
      accumulator := Or(accumulator, Wrap(Shl(b, bits), 64));
      bits := bits + 8;
      if bits > 13 {
        EmitBlock();
      }
    }

    method Write(buf: seq<Byte>) returns (count: nat)
      requires Valid()
      modifies this`accumulator, this`bits, writer
      ensures Valid()
      ensures State() == EncoderWrite(old(State()), buf)
      ensures count == |buf|
    {
      hide ToBits, EncoderWrite, Pow2;
      ghost var st := State();
      EncoderWriteNothing(st);
      for i := 0 to |buf|
        invariant Valid()
        invariant State() == EncoderWrite(st, buf[..i])
      {
        EncoderWriteTwice(st, buf[..i], [buf[i]]);
        assert buf[..i] + [buf[i]] == buf[..i + 1];
        WriteByte(buf[i]);
      }
      assert buf[..|buf|] == buf;
      count := |buf|;
    }

    method Flush()
      requires Valid()
      modifies this, writer
      ensures Valid()
      ensures State() == EncoderFlush(old(State()))
    {
      hide ToBits, Value, Text, TailDigits, EncodeDigit;
      LastDigits(accumulator, bits);
      if bits > 0 {
        var val := accumulator;
        if bits > 7 || accumulator > 90 {
          var out := [EncodeDigit(val % 91), EncodeDigit(val / 91)];
          writer.WriteAll(out);
        } else {
          var out := [EncodeDigit(val % 91)];
          writer.WriteAll(out);
        }
      }
      bits := 0;
      accumulator := 0;
    }

    method Drop()
      requires Valid()
      modifies this, writer
      ensures Valid()
      ensures State() == EncoderFlush(old(State()))
    {
      Flush();
    }
  }

  method Encode(buf: seq<Byte>) returns (text: seq<Byte>)
    ensures text == Encoded(buf)
  {
    var result := new Sink();
    var writer := new Base91Encoder(result);
    var _ := writer.Write(buf);
    writer.Flush();
    writer.Drop();
    EncoderChunking([buf]);
    assert buf + [] == buf;
    text := result.contents;
  }

  // ----- Decoder

  class Base91Decoder {
    const writer: Sink
    var accumulator: U64
    var bits: U32
    var value: Option<Digit>

    ghost predicate Valid()
      reads this
    {
      bits <= 7 && accumulator < Pow2(bits)
    }

    ghost function State(): DecoderState
      reads this, writer
    {
      DecoderState(writer.contents, ToBits(accumulator, bits), value)
    }

    constructor (writer: Sink)
      ensures Valid() && this.writer == writer
      ensures State() == DecoderState(writer.contents, [], None)
    {
      this.writer := writer;
      accumulator := 0;
      bits := 0;
      value := None;
    }

    /** Writes whole bytes off the accumulator, at least one and here at most two. */
    method EmitBytes()
      requires 13 <= bits <= 21 && accumulator < Pow2(bits)
      modifies this`accumulator, this`bits, writer
      ensures Valid()
      ensures var s := old(ToBits(accumulator, bits));
        && writer.contents == old(writer.contents) + BytesOf(s)
        && ToBits(accumulator, bits) == Leftover(s)
      ensures |old(writer.contents)| < |writer.contents| <= |old(writer.contents)| + 2
    {
      ghost var s := ToBits(accumulator, bits);
      ghost var start := writer.contents;
      while true
        invariant 8 <= bits <= 21 && accumulator < Pow2(bits)
        invariant writer.contents + BytesOf(ToBits(accumulator, bits)) == start + BytesOf(s)
        invariant Leftover(ToBits(accumulator, bits)) == Leftover(s)
        decreases bits
      {
        ghost var now := ToBits(accumulator, bits);
        SmallPowers();
        ShiftOut(accumulator, bits, 8);
        ValueBound(now[..8]);
        assert BytesOf(now) == [Value(now[..8])] + BytesOf(now[8..]);
        var out := [And(accumulator, 0xff)];
        writer.WriteAll(out);
        accumulator := Shr(accumulator, 8);
        bits := bits - 8;
        if bits < 8 {
          break;
        }
      }
    }

    /** Puts a block above the pending bits and writes the bytes that this completes. */
    method AppendBlock(v: Block)
      requires Valid()
      modifies this`accumulator, this`bits, writer
      ensures Valid()
      ensures var s := old(ToBits(accumulator, bits)) + ToBits(v, Width(v));
        && writer.contents == old(writer.contents) + BytesOf(s)
        && ToBits(accumulator, bits) == Leftover(s)
      ensures |old(writer.contents)| < |writer.contents| <= |old(writer.contents)| + 2
    {
      hide ToBits, Value, BytesOf, Leftover, Or, Shl, And, Wrap, Pow2, Width;
      ShiftIn(accumulator, bits, v, Width(v));
      MaskedWidth(v);
      accumulator := Or(accumulator, Wrap(Shl(v, bits), 64));
      bits := bits + if And(v, 8191) > 88 then 13 else 14;
      EmitBytes();
    }

    /** The body of the loop in `Write`. */
    method WriteByte(b: Byte)
      requires Valid()
      modifies this`accumulator, this`bits, this`value, writer
      ensures Valid()
      ensures State() == DecoderWrite(old(State()), [b])
    {
      hide ToBits, Value, BytesOf, Leftover, DecoderWrite, Or, Shl, And, Wrap, Pow2, DecodeEntry, Width;
      DecoderWriteByte(State(), b);
      var d := DecodeEntry(b);
      if d == INV {
        return;
      }
      match value
      case Some(low) =>
        value := None;
        var v := PairValue(low, d);
        AppendBlock(v);
      case None =>
        value := Some(d);
    }

    method Write(buf: seq<Byte>) returns (count: nat)
      requires Valid()
      modifies this`accumulator, this`bits, this`value, writer
      ensures Valid()
      ensures State() == DecoderWrite(old(State()), buf)
      ensures count == |buf|
    {
      hide ToBits, DecoderWrite, Pow2;
      ghost var st := State();
      DecoderWriteNothing(st, []);
      for i := 0 to |buf|
        invariant Valid()
        invariant State() == DecoderWrite(st, buf[..i])
      {
        DecoderWriteTwice(st, buf[..i], [buf[i]]);
        assert buf[..i] + [buf[i]] == buf[..i + 1];
        WriteByte(buf[i]);
      }
      assert buf[..|buf|] == buf;
      count := |buf|;
    }

    method Flush()
      requires Valid()
      modifies this, writer
      ensures Valid()
      ensures State() == DecoderFlush(old(State()))
    {
      match value {
        case Some(d) =>
          value := None;
          FinalByte(accumulator, bits, d);
          var out := [Or(Wrap(And(accumulator, 0xff), 8), Wrap(Shl(d, bits), 8))];
          writer.WriteAll(out);
        case None =>
      }
      bits := 0;
      accumulator := 0;
    }

    method Drop()
      requires Valid()
      modifies this, writer
      ensures Valid()
      ensures State() == DecoderFlush(old(State()))
    {
      Flush();
    }
  }

  lemma MaskedWidth(v: Block)
    ensures Width(v) == if And(v, 8191) > 88 then 13 else 14
  {
    SmallPowers();
    AndMask(v, 13);
    LowBlockBits(v);
  }

  /** The last byte: the pending bits, then as many bits of the unpaired digit as fit. */
  lemma {:induction false} FinalByte(acc: nat, k: nat, d: Digit)
    requires k <= 7 && acc < Pow2(k)
    ensures var last := Or(Wrap(And(acc, 0xff), 8), Wrap(Shl(d, k), 8));
      && last < 256
      && [last] == TailBytes(ToBits(acc, k), Some(d))
  {
    hide ToBits, Value, Or, Shl, And, Pow2;
    SmallPowers();
    Pow2Monotone(k, 8);
    WrapSmall(acc, 8);
    AndMask(acc, 8);
    WrapShl(d, k, 8 - k);
    var low := Wrap(d, 8 - k);
    ValueBound(ToBits(d, 8 - k));
    BitsOfValue(ToBits(d, 8 - k));
    OrShl(acc, k, low, 8 - k);
    ToBitsPrefix(d, 8 - k, k);
    WrapSmall(Or(acc, Shl(low, k)), 8);
    assert (ToBits(acc, k) + ToBits(d, 8))[..8] == ToBits(acc, k) + ToBits(d, 8)[..8 - k];
  }

  /** A text with no digits changes nothing. */
  lemma DecoderWriteNothing(st: DecoderState, buf: seq<Byte>)
    requires |st.pending| < 8 && Digits(buf) == []
    ensures DecoderWrite(st, buf) == st
  {
    hide Digits;
    var ds := Waiting(st.value);
    assert ds + [] == ds;
    assert st.pending + PairBits(ds) == st.pending;
  }

  lemma DecoderWriteByte(st: DecoderState, b: Byte)
    requires |st.pending| < 8
    ensures var d := DecodeEntry(b);
      && d <= INV
      && DecoderWrite(st, [b]) ==
        if d == INV then st
        else if st.value == None then st.(value := Some(d))
        else
          var v := PairValue(st.value.value, d);
          var s := st.pending + ToBits(v, Width(v));
          DecoderState(st.out + BytesOf(s), Leftover(s), None)
  {
    hide DecodeEntry, EncodeDigit, ToBits, Width;
    EncodeOfDecode(b);
    var d := DecodeEntry(b);
    if d == INV {
      DecoderWriteNothing(st, [b]);
    } else {
      assert Digits([b]) == [d];
      if st.value == None {
        DecoderWriteDigits(st, [b], [d]);
      } else {
        DecoderWriteDigits(st, [b], [st.value.value, d]);
      }
    }
  }

  lemma DecoderWriteDigits(st: DecoderState, buf: seq<Byte>, ds: seq<Digit>)
    requires |st.pending| < 8
    requires 1 <= |ds| <= 2 && Waiting(st.value) + Digits(buf) == ds
    ensures DecoderWrite(st, buf) ==
      if |ds| == 1 then st.(value := Some(ds[0]))
      else
        var v := PairValue(ds[0], ds[1]);
        var s := st.pending + ToBits(v, Width(v));
        DecoderState(st.out + BytesOf(s), Leftover(s), None)
  {
    hide ToBits, Width, Digits, Waiting;
    if |ds| == 1 {
      assert st.pending + PairBits(ds) == st.pending;
    } else {
      var v := PairValue(ds[0], ds[1]);
      assert PairBits(ds[2..]) == [];
      assert PairBits(ds) == ToBits(v, Width(v));
    }
  }

  method Decode(text: seq<Byte>) returns (bytes: seq<Byte>)
    ensures bytes == Decoded(text)
  {
    var result := new Sink();
    var writer := new Base91Decoder(result);
    var _ := writer.Write(text);
    writer.Flush();
    writer.Drop();
    DecoderChunking([text]);
    assert text + [] == text;
    bytes := result.contents;
  }
}
