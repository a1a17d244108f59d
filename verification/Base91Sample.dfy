/**
  The known answer in the source: what "hello" and a line feed encode to. It ties the bit
  order, the digit order and the alphabet of the reference to one fixed text.
 */
module Base91Sample {
  import opened Bits
  import opened Base91Tables
  import opened Base91Spec
  import opened Base91Theorems

  /** A byte string read as one number, first byte lowest. */
  function Number(bytes: seq<Byte>): nat {
    if bytes == [] then 0 else bytes[0] + Shl(Number(bytes[1..]), 8)
  }

  lemma {:induction false} BitsAbove(a: nat, k: nat, b: nat, m: nat)
    requires a < Pow2(k)
    ensures ToBits(a + Shl(b, k), k + m) == ToBits(a, k) + ToBits(b, m)
  {
    if k != 0 {
      var x := a + Shl(b, k);
      assert x % 2 == a % 2 && x / 2 == a / 2 + Shl(b, k - 1);
      BitsAbove(a / 2, k - 1, b, m);
      assert [a % 2] + (ToBits(a / 2, k - 1) + ToBits(b, m)) == ([a % 2] + ToBits(a / 2, k - 1)) + ToBits(b, m);
    }
  }

  lemma {:induction false} StreamOfNumber(bytes: seq<Byte>)
    ensures StreamBits(bytes) == ToBits(Number(bytes), 8 * |bytes|)
  {
    if bytes != [] {
      StreamOfNumber(bytes[1..]);
      assert Pow2(8) == 256;
      BitsAbove(bytes[0], 8, Number(bytes[1..]), 8 * |bytes[1..]|);
    }
  }

  /** Cutting a block of `w` bits and value `v` off a stream given as a number. */
  lemma NextBlock(x: nat, n: nat, v: Block, w: nat, y: nat)
    requires n > 13 && w <= n
    requires x == v + Shl(y, w) && v < Pow2(w)
    requires w == Width(v)
    ensures EncodedDigits(ToBits(x, n)) == PairDigits(v) + EncodedDigits(ToBits(y, n - w))
  {
    hide ToBits, Value, Cut, EncodedDigits, PairDigits, Pow2, Shl;
    BitsAbove(v, w, y, n - w);
    var s := ToBits(x, n);
    assert s[..w] == ToBits(v, w) && s[w..] == ToBits(y, n - w);
    CutOfBlock(v, s);
    WrapSmall(v, w);
    FirstBlockDigits(s, v);
  }

  lemma CutOfBlock(v: Block, s: seq<Bit>)
    requires |s| > 13 && Width(v) <= |s| && s[..Width(v)] == ToBits(v, Width(v))
    ensures Cut(s) == Width(v)
  {
    hide Value, ToBits;
    LowBlockBits(v);
    ToBitsPrefix(v, 13, Width(v) - 13);
    assert s[..13] == s[..Width(v)][..13];
  }

  const HELLO: seq<Byte> := [104, 101, 108, 108, 111, 10]

  lemma HelloNumber()
    ensures Number(HELLO) == 11473676690792
  {
    assert Number([10]) == 10;
    assert Number([111, 10]) == 2671;
    assert Number([108, 111, 10]) == 683884;
    assert Number([108, 108, 111, 10]) == 175074412;
    assert Number([101, 108, 108, 111, 10]) == 44819049573;
  }

  lemma HelloSteps()
    ensures 11473676690792 == 1384 + Shl(1400595299, 13) && Width(1384) == 13
    ensures 1400595299 == 867 + Shl(170971, 13) && Width(867) == 13
    ensures 170971 == 7131 + Shl(20, 13) && Width(7131) == 13
    ensures Pow2(13) == 8192
  {
  }

  lemma HelloTail()
    ensures EncodedDigits(ToBits(20, 9)) == [20, 0]
  {
    hide ToBits, Value;
    assert Pow2(9) == 512;
    WrapSmall(20, 9);
    assert EncodedDigits(ToBits(20, 9)) == TailDigits(ToBits(20, 9));
  }

  lemma HelloDigits()
    ensures EncodedDigits(ToBits(11473676690792, 48)) == [19, 15, 48, 9, 33, 78, 20, 0]
  {
    hide ToBits, Value, EncodedDigits, Width, Shl, Pow2;
    HelloSteps();
    NextBlock(11473676690792, 48, 1384, 13, 1400595299);
    NextBlock(1400595299, 35, 867, 13, 170971);
    NextBlock(170971, 22, 7131, 13, 20);
    HelloTail();
  }

  lemma HelloText()
    ensures Text([19, 15, 48, 9, 33, 78, 20, 0]) ==
      ['T' as int, 'P' as int, 'w' as int, 'J' as int, 'h' as int, '>' as int, 'U' as int, 'A' as int]
  {
    assert EncodeDigit(78) == '>' as int;
    AlphabetInOrder(19);
    AlphabetInOrder(15);
    AlphabetInOrder(48);
    AlphabetInOrder(9);
    AlphabetInOrder(33);
    AlphabetInOrder(20);
    AlphabetInOrder(0);
  }

  /** "hello" and a line feed encode to "TPwJh>UA", and that decodes to it. */
  lemma KnownAnswer()
    ensures var text: seq<Byte> :=
        ['T' as int, 'P' as int, 'w' as int, 'J' as int, 'h' as int, '>' as int, 'U' as int, 'A' as int];
      Encoded(HELLO) == text && Decoded(text) == HELLO
  {
    hide StreamBits, EncodedDigits, ToBits, Text, Number, Decoded;
    StreamOfNumber(HELLO);
    HelloNumber();
    HelloDigits();
    HelloText();
    RoundTrip(HELLO);
  }
}
