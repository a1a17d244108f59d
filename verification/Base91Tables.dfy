/**
  The two basE91 tables and the fact that each inverts the other.
 */
module Base91Tables {
  import opened Bits

  /** A base-91 digit. */
  type Digit = x: nat | x < 91

  /** Marks the bytes that are not in the alphabet. */
  const INV: nat := 91

  /** The alphabet, 13 characters a row. */
  const ENCTAB: seq<string> := [
    "ABCDEFGHIJKLM",
    "NOPQRSTUVWXYZ",
    "abcdefghijklm",
    "nopqrstuvwxyz",
    "0123456789!#$",
    "%&()*+,./:;<=",
    ">?@[]^_`{|}~\""
  ]

  /** The inverse table, 16 entries a row. */
  const DECTAB: seq<seq<nat>> := [
    [INV, INV, INV, INV, INV, INV, INV, INV, INV, INV, INV, INV, INV, INV, INV, INV],
    [INV, INV, INV, INV, INV, INV, INV, INV, INV, INV, INV, INV, INV, INV, INV, INV],
    [INV, 62, 90, 63, 64, 65, 66, INV, 67, 68, 69, 70, 71, INV, 72, 73],
    [52, 53, 54, 55, 56, 57, 58, 59, 60, 61, 74, 75, 76, 77, 78, 79],
    [80, 0, 1, 2, 3, 4, 5, 6, 7, 8, 9, 10, 11, 12, 13, 14],
    [15, 16, 17, 18, 19, 20, 21, 22, 23, 24, 25, 81, INV, 82, 83, 84],
    [85, 26, 27, 28, 29, 30, 31, 32, 33, 34, 35, 36, 37, 38, 39, 40],
    [41, 42, 43, 44, 45, 46, 47, 48, 49, 50, 51, 86, 87, 88, 89, INV],
    [INV, INV, INV, INV, INV, INV, INV, INV, INV, INV, INV, INV, INV, INV, INV, INV],
    [INV, INV, INV, INV, INV, INV, INV, INV, INV, INV, INV, INV, INV, INV, INV, INV],
    [INV, INV, INV, INV, INV, INV, INV, INV, INV, INV, INV, INV, INV, INV, INV, INV],
    [INV, INV, INV, INV, INV, INV, INV, INV, INV, INV, INV, INV, INV, INV, INV, INV],
    [INV, INV, INV, INV, INV, INV, INV, INV, INV, INV, INV, INV, INV, INV, INV, INV],
    [INV, INV, INV, INV, INV, INV, INV, INV, INV, INV, INV, INV, INV, INV, INV, INV],
    [INV, INV, INV, INV, INV, INV, INV, INV, INV, INV, INV, INV, INV, INV, INV, INV],
    [INV, INV, INV, INV, INV, INV, INV, INV, INV, INV, INV, INV, INV, INV, INV, INV]
  ]

  lemma EncodeTableIsAscii(d: Digit)
    ensures ENCTAB[d / 13][d % 13] as int < 256
  {
  }

  function EncodeDigit(d: Digit): Byte {
    EncodeTableIsAscii(d);
    ENCTAB[d / 13][d % 13] as int
  }

  function DecodeEntry(b: Byte): nat {
    DECTAB[b / 16][b % 16]
  }

  /** Decoding inverts encoding on row `r` of the alphabet. */
  ghost predicate EncodeRowInverts(r: nat)
    requires r < 7
  {
    forall c | 0 <= c < 13 :: ENCTAB[r][c] as int < 256 && DecodeEntry(ENCTAB[r][c] as int) == 13 * r + c
  }

  /** Every entry in row `r` of the inverse table is `INV` or encodes back to its own byte. */
  ghost predicate DecodeRowInverts(r: nat)
    requires r < 16
  {
    forall c | 0 <= c < 16 ::
      DECTAB[r][c] == INV || (DECTAB[r][c] < 91 && EncodeDigit(DECTAB[r][c]) == 16 * r + c)
  }

  lemma EncodeRow0() ensures EncodeRowInverts(0) {}
  lemma EncodeRow1() ensures EncodeRowInverts(1) {}
  lemma EncodeRow2() ensures EncodeRowInverts(2) {}
  lemma EncodeRow3() ensures EncodeRowInverts(3) {}
  lemma EncodeRow4() ensures EncodeRowInverts(4) {}
  lemma EncodeRow5() ensures EncodeRowInverts(5) {}
  lemma EncodeRow6() ensures EncodeRowInverts(6) {}

  lemma DecodeOfEncode(d: Digit)
    ensures DecodeEntry(EncodeDigit(d)) == d
  {
    match d / 13
    case 0 => EncodeRow0();
    case 1 => EncodeRow1();
    case 2 => EncodeRow2();
    case 3 => EncodeRow3();
    case 4 => EncodeRow4();
    case 5 => EncodeRow5();
    case 6 => EncodeRow6();
  }

  lemma DecodeRow2() ensures DecodeRowInverts(2) {}
  lemma DecodeRow3() ensures DecodeRowInverts(3) {}
  lemma DecodeRow4() ensures DecodeRowInverts(4) {}
  lemma DecodeRow5() ensures DecodeRowInverts(5) {}
  lemma DecodeRow6() ensures DecodeRowInverts(6) {}
  lemma DecodeRow7() ensures DecodeRowInverts(7) {}

  lemma EncodeOfDecode(b: Byte)
    ensures DecodeEntry(b) == INV || (DecodeEntry(b) < 91 && EncodeDigit(DecodeEntry(b)) == b)
  {
    if 2 <= b / 16 < 8 {
      DecodeRow2(); DecodeRow3(); DecodeRow4(); DecodeRow5(); DecodeRow6(); DecodeRow7();
      assert DecodeRowInverts(b / 16);
    }
  }

  // ----- The alphabet, said without the tables

  /** Row `r` of the alphabet holds consecutive characters from `first` on. */
  ghost predicate IsRun(r: nat, first: char)
    requires r < 7
  {
    forall c | 0 <= c < 13 :: ENCTAB[r][c] as int == first as int + c
  }

  lemma Row0() ensures IsRun(0, 'A') {}
  lemma Row1() ensures IsRun(1, 'N') {}
  lemma Row2() ensures IsRun(2, 'a') {}
  lemma Row3() ensures IsRun(3, 'n') {}

  lemma Row4()
    ensures forall c | 0 <= c < 10 :: ENCTAB[4][c] as int == '0' as int + c
  {
  }

  /**
    The digits are written in this order: A to Z, a to z, 0 to 9, punctuation in the order of
    its codes, and a double quote.
   */
  lemma AlphabetInOrder(d: Digit)
    ensures d < 26 ==> EncodeDigit(d) == 'A' as int + d
    ensures 26 <= d < 52 ==> EncodeDigit(d) == 'a' as int + d - 26
    ensures 52 <= d < 62 ==> EncodeDigit(d) == '0' as int + d - 52
    ensures 62 <= d < 89 ==> EncodeDigit(d) < EncodeDigit(d + 1)
    ensures d == 90 ==> EncodeDigit(d) == '"' as int
  {
    match d / 13
    case 0 => Row0();
    case 1 => Row1();
    case 2 => Row2();
    case 3 => Row3();
    case 4 => Row4(); PunctuationRow4(d);
    case 5 => PunctuationRow5(d);
    case 6 => PunctuationRow6(d);
  }

  lemma PunctuationRow4(d: Digit)
    requires d / 13 == 4
    ensures 62 <= d ==> EncodeDigit(d) < EncodeDigit(d + 1)
  {
  }

  lemma PunctuationRow5(d: Digit)
    requires d / 13 == 5
    ensures EncodeDigit(d) < EncodeDigit(d + 1)
  {
  }

  lemma PunctuationRow6(d: Digit)
    requires d / 13 == 6
    ensures d < 89 ==> EncodeDigit(d) < EncodeDigit(d + 1)
    ensures d == 90 ==> EncodeDigit(d) == '"' as int
  {
  }

  lemma SkippedInRow(b: Byte)
    requires 32 <= b < 128
    ensures DecodeEntry(b) == INV <==> b in {32, 39, 45, 92, 127}
  {
  }

  /** The bytes with an entry in the inverse table. */
  lemma AlphabetBytes(b: Byte)
    ensures DecodeEntry(b) != INV <==> 33 <= b <= 126 && b !in {39, 45, 92}
  {
    if 32 <= b < 128 {
      SkippedInRow(b);
    }
  }
}
