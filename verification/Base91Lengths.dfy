/**
  How long an encoding is: the exact range for every input length, and exactly when the
  overhead stays within 23%.
 */
module Base91Lengths {
  import opened Bits
  import opened Base91Tables
  import opened Base91Spec

  // ----- Bounds for every input

  lemma {:induction false} BlockCount(s: seq<Bit>)
    ensures 13 * |Blocks(s)| <= |s| - |Rest(s)| <= 14 * |Blocks(s)|
    decreases |s|
  {
    if |s| > 13 {
      BlockCount(s[Cut(s)..]);
    }
  }

  lemma TailLength(rest: seq<Bit>)
    requires |rest| <= 13
    ensures |rest| <= 7 * |TailDigits(rest)|
    ensures 13 * |TailDigits(rest)| - 2 * |rest| <= 12
  {
    ValueBound(rest);
    if |rest| <= 6 {
      Pow2Monotone(|rest|, 6);
      assert Pow2(6) == 64;
    }
  }

  function ShortestLength(n: nat): nat {
    (8 * n + 6) / 7
  }

  function LongestLength(n: nat): nat {
    (16 * n + 12) / 13
  }

  /** At least 8 characters for 7 bytes and at most 16 for 13, rounded up. */
  lemma EncodedLength(bytes: seq<Byte>)
    ensures ShortestLength(|bytes|) <= |Encoded(bytes)| <= LongestLength(|bytes|)
  {
    var s := StreamBits(bytes);
    BlockCount(s);
    TailLength(Rest(s));
  }

  // ----- Both bounds are attained at every length

  function Repeat<T>(x: T, n: nat): seq<T> {
    seq(n, _ => x)
  }

  lemma {:induction false} ValueOfRun(b: Bit, n: nat)
    ensures Value(Repeat(b, n)) == if b == 0 then 0 else Pow2(n) - 1
  {
    if n != 0 {
      ValueOfRun(b, n - 1);
      assert Repeat(b, n)[1..] == Repeat(b, n - 1);
    }
  }

  /** A run of zeros is cut into 14-bit blocks and a run of ones into 13-bit blocks. */
  lemma {:induction false} BlocksOfRun(b: Bit, m: nat, r: nat)
    requires b <= r <= 13
    ensures var s := Repeat(b, (14 - b) * m + r);
      |Blocks(s)| == m && Rest(s) == Repeat(b, r)
  {
    hide Cut;
    var s := Repeat(b, (14 - b) * m + r);
    if m != 0 {
      BlocksOfRun(b, m - 1, r);
      CutOfRun(b, |s|);
      assert s[14 - b..] == Repeat(b, (14 - b) * (m - 1) + r);
    }
  }

  lemma CutOfRun(b: Bit, n: nat)
    requires n > 13
    ensures Cut(Repeat(b, n)) == 14 - b
  {
    hide Value;
    ValueOfRun(b, 13);
    assert Pow2(13) == 8192;
    assert Repeat(b, n)[..13] == Repeat(b, 13);
  }

  lemma {:induction false} StreamOfRun(x: Byte, b: Bit, n: nat)
    requires ToBits(x, 8) == Repeat(b, 8)
    ensures StreamBits(Repeat(x, n)) == Repeat(b, 8 * n)
  {
    if n != 0 {
      StreamOfRun(x, b, n - 1);
      assert Repeat(x, n)[1..] == Repeat(x, n - 1);
    }
  }

  lemma TailOfZeros(r: nat)
    requires r <= 13
    ensures |TailDigits(Repeat(0, r))| == (r + 6) / 7
  {
    ValueOfRun(0, r);
  }

  lemma TailOfOnes(r: nat)
    requires 1 <= r <= 13
    ensures |TailDigits(Repeat(1, r))| == (2 * r + 12) / 13
  {
    ValueOfRun(1, r);
    assert Pow2(6) == 64 && Pow2(7) == 128;
    if r <= 6 {
      Pow2Monotone(r, 6);
    }
  }

  /** Zero bytes have the shortest encoding of their length. */
  lemma ShortestEncoding(n: nat)
    ensures |Encoded(Repeat(0, n))| == ShortestLength(n)
  {
    hide StreamBits, Blocks, Rest, TailDigits, BlockDigits, Text;
    StreamOfRun(0, 0, n);
    var m, r := 8 * n / 14, 8 * n % 14;
    assert 8 * n == 14 * m + r;
    BlocksOfRun(0, m, r);
    TailOfZeros(r);
  }

  /** Bytes of ones have the longest encoding of their length. */
  lemma LongestEncoding(n: nat)
    ensures |Encoded(Repeat(255, n))| == LongestLength(n)
  {
    hide StreamBits, Blocks, Rest, TailDigits, BlockDigits, Text;
    if n == 0 {
      EncodedLength(Repeat(255, 0));
    } else {
      StreamOfRun(255, 1, n);
      var m := (8 * n - 1) / 13;
      var r := 8 * n - 13 * m;
      assert 1 <= r <= 13 && 8 * n == 13 * m + r;
      BlocksOfRun(1, m, r);
      TailOfOnes(r);
    }
  }

  // ----- The overhead

  /** At most `percent` per cent more characters than bytes, for all inputs of `n` bytes. */
  ghost predicate OverheadWithin(n: nat, percent: nat) {
    forall bytes: seq<Byte> | |bytes| == n :: 100 * |Encoded(bytes)| <= (100 + percent) * n
  }

  /** All inputs of one length stay within 23% only if they are empty. */
  lemma OverheadOf23Percent(n: nat)
    ensures OverheadWithin(n, 23) <==> n == 0
  {
    hide Encoded;
    var worst: seq<Byte> := Repeat(255, n);
    LongestEncoding(n);
    forall bytes: seq<Byte> | |bytes| == n
      ensures |Encoded(bytes)| <= LongestLength(n)
    {
      EncodedLength(bytes);
    }
    assert |worst| == n;
  }

  /** Nor does a constant added to the 23% help: some input exceeds it by more. */
  lemma OverheadBeyondConstant(c: nat)
    ensures exists bytes: seq<Byte> :: 100 * |Encoded(bytes)| > 123 * |bytes| + c
  {
    hide Encoded;
    var bytes: seq<Byte> := Repeat(255, 13 * (c + 1));
    LongestEncoding(13 * (c + 1));
    assert 100 * |Encoded(bytes)| > 123 * |bytes| + c;
  }

  /** The ratio behind the 23% is 3/13, and it is exact at the multiples of 13 bytes and nowhere else. */
  lemma OverheadOfThreeThirteenths(n: nat)
    ensures (forall bytes: seq<Byte> | |bytes| == n :: 13 * |Encoded(bytes)| <= 16 * n) <==> n % 13 == 0
  {
    hide Encoded;
    var worst: seq<Byte> := Repeat(255, n);
    LongestEncoding(n);
    forall bytes: seq<Byte> | |bytes| == n
      ensures |Encoded(bytes)| <= LongestLength(n)
    {
      EncodedLength(bytes);
    }
    assert |worst| == n;
  }
}
