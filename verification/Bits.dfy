/**
  Machine words and bit sequences.

  A word is a natural number. The bitwise operators of the source are defined here one bit at
  a time, and each has a lemma that says what it does to the word seen as a sequence of bits,
  least significant bit first. Truncation to a word size is `Wrap`.
 */
module Bits {

  type Bit = x: nat | x < 2
  type Byte = x: nat | x < 256

  function Pow2(n: nat): (p: nat)
    ensures 1 <= p
  {
    if n == 0 then 1 else 2 * Pow2(n - 1)
  }

  /** The number a bit sequence denotes, least significant bit first. */
  function Value(s: seq<Bit>): nat {
    if s == [] then 0 else s[0] + 2 * Value(s[1..])
  }

  /** The `n` low bits of `x`, least significant bit first. */
  function ToBits(x: nat, n: nat): (s: seq<Bit>)
    ensures |s| == n
  {
    if n == 0 then [] else [x % 2] + ToBits(x / 2, n - 1)
  }

  /** Truncation to an `n`-bit word. */
  function Wrap(x: nat, n: nat): nat {
    Value(ToBits(x, n))
  }

  function Or(a: nat, b: nat): nat
    decreases a
  {
    if a == 0 then b else (if a % 2 == 1 || b % 2 == 1 then 1 else 0) + 2 * Or(a / 2, b / 2)
  }

  function And(a: nat, b: nat): nat {
    if a == 0 then 0 else (if a % 2 == 1 && b % 2 == 1 then 1 else 0) + 2 * And(a / 2, b / 2)
  }

  function Shl(x: nat, n: nat): nat {
    if n == 0 then x else 2 * Shl(x, n - 1)
  }

  function Shr(x: nat, n: nat): nat {
    if n == 0 then x else Shr(x / 2, n - 1)
  }

  lemma {:induction false} Pow2Monotone(m: nat, n: nat)
    requires m <= n
    ensures Pow2(m) <= Pow2(n)
  {
    if m < n {
      Pow2Monotone(m, n - 1);
    }
  }

  lemma {:induction false} ValueBound(s: seq<Bit>)
    ensures Value(s) < Pow2(|s|)
  {
    if s != [] {
      ValueBound(s[1..]);
    }
  }

  lemma {:induction false} BitsOfValue(s: seq<Bit>)
    ensures ToBits(Value(s), |s|) == s
  {
    if s != [] {
      BitsOfValue(s[1..]);
    }
  }

  lemma {:induction false} WrapSmall(x: nat, n: nat)
    requires x < Pow2(n)
    ensures Wrap(x, n) == x
  {
    if n != 0 {
      WrapSmall(x / 2, n - 1);
      assert ToBits(x, n)[1..] == ToBits(x / 2, n - 1);
    }
  }

  /** Dropping the top bit of a word subtracts that bit's weight. */
  lemma {:induction false} WrapDropsTop(x: nat, n: nat)
    requires x < Pow2(n + 1)
    ensures Wrap(x, n) == if x < Pow2(n) then x else x - Pow2(n)
  {
    if n != 0 {
      WrapDropsTop(x / 2, n - 1);
      assert ToBits(x, n)[1..] == ToBits(x / 2, n - 1);
    }
  }

  /** A masked word is its low bits. */
  lemma {:induction false} AndMask(x: nat, n: nat)
    ensures And(x, Pow2(n) - 1) == Wrap(x, n)
  {
    if n == 0 {
      AndZero(x);
    } else {
      AndMask(x / 2, n - 1);
      assert ToBits(x, n)[1..] == ToBits(x / 2, n - 1);
      if x == 0 { assert Wrap(0, n - 1) == 0; }
    }
  }

  lemma {:induction false} AndZero(x: nat)
    ensures And(x, 0) == 0
  {
    if x != 0 {
      AndZero(x / 2);
    }
  }

  lemma {:induction false} ShlBound(x: nat, n: nat, m: nat)
    requires x < Pow2(m)
    ensures Shl(x, n) < Pow2(n + m)
  {
    if n != 0 {
      ShlBound(x, n - 1, m);
    }
  }

  /** Wrapping a shifted word drops the bits that leave it. */
  lemma {:induction false} WrapShl(x: nat, n: nat, m: nat)
    ensures Wrap(Shl(x, n), n + m) == Shl(Wrap(x, m), n)
  {
    if n != 0 {
      WrapShl(x, n - 1, m);
      var y := Shl(x, n - 1);
      assert ToBits(2 * y, n + m)[1..] == ToBits(y, n - 1 + m);
    }
  }

  /** Putting `b` above the `k` bits of `a` appends the bits of `b` to those of `a`. */
  lemma {:induction false} OrShl(a: nat, k: nat, b: nat, m: nat)
    requires a < Pow2(k)
    ensures ToBits(Or(a, Shl(b, k)), k + m) == ToBits(a, k) + ToBits(b, m)
    ensures b < Pow2(m) ==> Or(a, Shl(b, k)) < Pow2(k + m)
  {
    if k != 0 {
      var x := Or(a, Shl(b, k));
      assert Shl(b, k) == 2 * Shl(b, k - 1);
      OrHalves(a, Shl(b, k));
      OrShl(a / 2, k - 1, b, m);
      assert Pow2(k + m) == 2 * Pow2(k - 1 + m);
      calc {
        ToBits(x, k + m);
        [x % 2] + ToBits(x / 2, k - 1 + m);
        [a % 2] + (ToBits(a / 2, k - 1) + ToBits(b, m));
        ([a % 2] + ToBits(a / 2, k - 1)) + ToBits(b, m);
        ToBits(a, k) + ToBits(b, m);
      }
    }
  }

  lemma OrHalves(a: nat, b: nat)
    ensures Or(a, b) % 2 == if a % 2 == 1 || b % 2 == 1 then 1 else 0
    ensures Or(a, b) / 2 == Or(a / 2, b / 2)
  {
  }

  /** Shifting right by `k` drops the `k` low bits. */
  lemma {:induction false} ShrBits(x: nat, k: nat, m: nat)
    ensures ToBits(Shr(x, k), m) == ToBits(x, k + m)[k..]
    ensures x < Pow2(k + m) ==> Shr(x, k) < Pow2(m)
  {
    if k != 0 {
      ShrBits(x / 2, k - 1, m);
      var t := ToBits(x / 2, k - 1 + m);
      assert ToBits(x, k + m) == [x % 2] + t;
      assert ([x % 2] + t)[k..] == t[k - 1..];
    }
  }

  lemma {:induction false} ToBitsPrefix(x: nat, k: nat, m: nat)
    ensures ToBits(x, k + m)[..k] == ToBits(x, k)
  {
    if k != 0 {
      ToBitsPrefix(x / 2, k - 1, m);
      var t := ToBits(x / 2, k - 1 + m);
      assert ToBits(x, k + m) == [x % 2] + t;
      assert ([x % 2] + t)[..k] == [x % 2] + t[..k - 1];
    }
  }

  lemma PrefixOfConcat<T>(a: seq<T>, b: seq<T>, n: nat)
    requires |a| <= n <= |a| + |b|
    ensures (a + b)[..n] == a + b[..n - |a|]
  {
  }

  /** A word that fits in `k` bits has zeros above them. */
  lemma {:induction false} ToBitsPadding(x: nat, k: nat, m: nat)
    requires x < Pow2(k)
    ensures ToBits(x, k + m) == ToBits(x, k) + ToBits(0, m)
  {
    if k != 0 {
      ToBitsPadding(x / 2, k - 1, m);
      calc {
        ToBits(x, k + m);
        [x % 2] + ToBits(x / 2, k - 1 + m);
        [x % 2] + (ToBits(x / 2, k - 1) + ToBits(0, m));
        ([x % 2] + ToBits(x / 2, k - 1)) + ToBits(0, m);
        ToBits(x, k) + ToBits(0, m);
      }
    }
  }
}
