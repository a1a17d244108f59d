/**
  How the reference functions behave when a stream arrives in pieces, and what this means for
  writers: how the input is split into writes does not change the output.
 */
module Base91Streams {
  import opened Bits
  import opened Base91Tables
  import opened Base91Spec
  import opened Wrappers

  // ----- Concatenation

  lemma {:induction false} StreamBitsConcat(a: seq<Byte>, b: seq<Byte>)
    ensures StreamBits(a + b) == StreamBits(a) + StreamBits(b)
  {
    if a == [] {
      assert a + b == b;
    } else {
      assert (a + b)[1..] == a[1..] + b;
      StreamBitsConcat(a[1..], b);
    }
  }

  lemma {:induction false} TextConcat(a: seq<Digit>, b: seq<Digit>)
    ensures Text(a + b) == Text(a) + Text(b)
  {
    if a == [] {
      assert a + b == b;
    } else {
      assert (a + b)[1..] == a[1..] + b;
      TextConcat(a[1..], b);
    }
  }

  lemma {:induction false} BlockDigitsConcat(a: seq<Block>, b: seq<Block>)
    ensures BlockDigits(a + b) == BlockDigits(a) + BlockDigits(b)
  {
    if a == [] {
      assert a + b == b;
    } else {
      assert (a + b)[1..] == a[1..] + b;
      BlockDigitsConcat(a[1..], b);
    }
  }

  lemma {:induction false} DigitsConcat(a: seq<Byte>, b: seq<Byte>)
    ensures Digits(a + b) == Digits(a) + Digits(b)
  {
    if a == [] {
      assert a + b == b;
    } else {
      assert (a + b)[1..] == a[1..] + b;
      DigitsConcat(a[1..], b);
    }
  }

  /** The greedy cut can be resumed from what it left over. */
  lemma {:induction false} CutConcat(s: seq<Bit>, t: seq<Bit>)
    ensures Blocks(s + t) == Blocks(s) + Blocks(Rest(s) + t)
    ensures Rest(s + t) == Rest(Rest(s) + t)
    decreases |s|
  {
    if |s| > 13 {
      assert (s + t)[..13] == s[..13];
      var w := Cut(s);
      assert (s + t)[..w] == s[..w] && (s + t)[w..] == s[w..] + t;
      CutConcat(s[w..], t);
    }
  }

  lemma {:induction false} BytesOfConcat(s: seq<Bit>, t: seq<Bit>)
    ensures BytesOf(s + t) == BytesOf(s) + BytesOf(Leftover(s) + t)
    ensures Leftover(s + t) == Leftover(Leftover(s) + t)
    decreases |s|
  {
    if |s| >= 8 {
      assert (s + t)[..8] == s[..8] && (s + t)[8..] == s[8..] + t;
      BytesOfConcat(s[8..], t);
    }
  }

  /** Complete pairs can be read ahead of what follows them. */
  lemma {:induction false} PairBitsConcat(ds: seq<Digit>, es: seq<Digit>)
    requires |ds| % 2 == 0
    ensures PairBits(ds + es) == PairBits(ds) + PairBits(es)
    decreases |ds|
  {
    if ds == [] {
      assert ds + es == es;
    } else {
      assert (ds + es)[2..] == ds[2..] + es;
      PairBitsConcat(ds[2..], es);
    }
  }

  /** The digits that are in pairs. */
  function Paired(ds: seq<Digit>): (head: seq<Digit>)
    ensures |head| % 2 == 0
    ensures ds == head + Waiting(Unpaired(ds))
  {
    ds[..|ds| - |ds| % 2]
  }

  lemma {:induction false} UnpairedConcat(ds: seq<Digit>, es: seq<Digit>)
    requires |ds| % 2 == 0
    ensures Unpaired(ds + es) == Unpaired(es)
  {
    if |es| % 2 == 1 {
      assert (ds + es)[|ds + es| - 1] == es[|es| - 1];
    }
  }

  lemma NoPairBits(last: seq<Digit>)
    requires |last| < 2
    ensures PairBits(last) == []
  {
  }

  lemma PairBitsResumeAt(head: seq<Digit>, last: seq<Digit>, es: seq<Digit>)
    requires |head| % 2 == 0 && |last| < 2
    ensures PairBits(head + last + es) == PairBits(head + last) + PairBits(last + es)
    ensures Unpaired(head + last + es) == Unpaired(last + es)
  {
    hide PairBits, Unpaired;
    NoPairBits(last);
    PairBitsConcat(head, last);
    PairBitsConcat(head, last + es);
    UnpairedConcat(head, last + es);
    assert PairBits(head) + [] == PairBits(head);
    assert head + last + es == head + (last + es);
  }

  /** An unpaired digit waits for the digits that follow. */
  lemma PairBitsResume(ds: seq<Digit>, es: seq<Digit>)
    ensures PairBits(ds + es) == PairBits(ds) + PairBits(Waiting(Unpaired(ds)) + es)
    ensures Unpaired(ds + es) == Unpaired(Waiting(Unpaired(ds)) + es)
  {
    hide PairBits, Unpaired;
    PairBitsResumeAt(Paired(ds), Waiting(Unpaired(ds)), es);
  }

  // ----- Splitting the input into writes

  lemma EncoderWriteTwice(st: EncoderState, a: seq<Byte>, b: seq<Byte>)
    ensures EncoderWrite(EncoderWrite(st, a), b) == EncoderWrite(st, a + b)
  {
    hide Blocks, Rest, BlockDigits, Text, StreamBits;
    StreamBitsConcat(a, b);
    var s, t := st.pending + StreamBits(a), StreamBits(b);
    assert st.pending + StreamBits(a + b) == s + t;
    CutConcat(s, t);
    var x, y := Blocks(s), Blocks(Rest(s) + t);
    BlockDigitsConcat(x, y);
    TextConcat(BlockDigits(x), BlockDigits(y));
  }

  lemma DecoderWriteTwice(st: DecoderState, a: seq<Byte>, b: seq<Byte>)
    ensures DecoderWrite(DecoderWrite(st, a), b) == DecoderWrite(st, a + b)
  {
    hide PairBits, BytesOf, Leftover, Digits, Unpaired, Waiting;
    DigitsConcat(a, b);
    var ds, es := Waiting(st.value) + Digits(a), Digits(b);
    assert Waiting(st.value) + Digits(a + b) == ds + es;
    PairBitsResume(ds, es);
    var s, t := st.pending + PairBits(ds), PairBits(Waiting(Unpaired(ds)) + es);
    assert st.pending + PairBits(ds + es) == s + t;
    BytesOfConcat(s, t);
  }

  function Flatten(writes: seq<seq<Byte>>): seq<Byte> {
    if writes == [] then [] else writes[0] + Flatten(writes[1..])
  }

  function EncoderRun(st: EncoderState, writes: seq<seq<Byte>>): (end: EncoderState)
    ensures |st.pending| <= 13 ==> |end.pending| <= 13
    decreases |writes|
  {
    if writes == [] then st else EncoderRun(EncoderWrite(st, writes[0]), writes[1..])
  }

  function DecoderRun(st: DecoderState, writes: seq<seq<Byte>>): DecoderState
    decreases |writes|
  {
    if writes == [] then st else DecoderRun(DecoderWrite(st, writes[0]), writes[1..])
  }

  /** A non-empty run of writes is one write of everything. */
  lemma {:induction false} EncoderRunIsOneWrite(st: EncoderState, writes: seq<seq<Byte>>)
    requires writes != []
    ensures EncoderRun(st, writes) == EncoderWrite(st, Flatten(writes))
    decreases |writes|
  {
    if |writes| == 1 {
      assert writes[0] + [] == writes[0];
    } else {
      EncoderRunIsOneWrite(EncoderWrite(st, writes[0]), writes[1..]);
      EncoderWriteTwice(st, writes[0], Flatten(writes[1..]));
    }
  }

  lemma {:induction false} DecoderRunIsOneWrite(st: DecoderState, writes: seq<seq<Byte>>)
    requires writes != []
    ensures DecoderRun(st, writes) == DecoderWrite(st, Flatten(writes))
    decreases |writes|
  {
    if |writes| == 1 {
      assert writes[0] + [] == writes[0];
    } else {
      DecoderRunIsOneWrite(DecoderWrite(st, writes[0]), writes[1..]);
      DecoderWriteTwice(st, writes[0], Flatten(writes[1..]));
    }
  }

  const FRESH_ENCODER := EncoderState([], [])
  const FRESH_DECODER := DecoderState([], [], None)

  lemma FreshEncoderWrite(bytes: seq<Byte>)
    ensures var s := StreamBits(bytes);
      EncoderWrite(FRESH_ENCODER, bytes) == EncoderState(Text(BlockDigits(Blocks(s))), Rest(s))
  {
    hide StreamBits, Blocks, Rest, BlockDigits, Text;
    var s := StreamBits(bytes);
    assert [] + s == s;
    var out := Text(BlockDigits(Blocks(s)));
    assert [] + out == out;
  }

  lemma FreshDecoderWrite(text: seq<Byte>)
    ensures var s := PairBits(Digits(text));
      DecoderWrite(FRESH_DECODER, text) == DecoderState(BytesOf(s), Leftover(s), Unpaired(Digits(text)))
  {
    hide Digits, PairBits, BytesOf, Leftover, Unpaired;
    var ds := Digits(text);
    assert [] + ds == ds;
    var s := PairBits(ds);
    assert [] + s == s;
    assert [] + BytesOf(s) == BytesOf(s);
  }

  lemma NothingToFlush()
    ensures Text(TailDigits([])) == []
  {
  }

  lemma NoWrites()
    ensures EncoderRun(FRESH_ENCODER, []) == EncoderWrite(FRESH_ENCODER, [])
    ensures DecoderRun(FRESH_DECODER, []) == DecoderWrite(FRESH_DECODER, [])
  {
  }

  /**
    However the input is split into writes, a fresh encoder that is then flushed, once or twice,
    has written the reference encoding.
   */
  lemma EncoderChunking(writes: seq<seq<Byte>>)
    ensures EncoderFlush(EncoderRun(FRESH_ENCODER, writes)).out == Encoded(Flatten(writes))
    ensures EncoderFlush(EncoderFlush(EncoderRun(FRESH_ENCODER, writes))).out == Encoded(Flatten(writes))
  {
    hide StreamBits, Blocks, Rest, BlockDigits, TailDigits, Text, EncoderWrite, EncoderRun;
    var bytes := Flatten(writes);
    var s := StreamBits(bytes);
    FreshEncoderWrite(bytes);
    TextConcat(BlockDigits(Blocks(s)), TailDigits(Rest(s)));
    NothingToFlush();
    if writes == [] {
      NoWrites();
    } else {
      EncoderRunIsOneWrite(FRESH_ENCODER, writes);
    }
    var out := Encoded(bytes);
    assert out + [] == out;
  }

  /**
    However the text is split into writes, a fresh decoder that is then flushed, once or twice,
    has written the reference decoding.
   */
  lemma {:induction false} DecoderChunking(writes: seq<seq<Byte>>)
    ensures DecoderFlush(DecoderRun(FRESH_DECODER, writes)).out == Decoded(Flatten(writes))
    ensures DecoderFlush(DecoderFlush(DecoderRun(FRESH_DECODER, writes))).out == Decoded(Flatten(writes))
  {
    hide Digits, PairBits, BytesOf, Leftover, Unpaired, DecoderWrite, DecoderRun;
    var text := Flatten(writes);
    FreshDecoderWrite(text);
    if writes == [] {
      NoWrites();
    } else {
      DecoderRunIsOneWrite(FRESH_DECODER, writes);
    }
    var out := Decoded(text);
    assert out + [] == out;
  }
}
