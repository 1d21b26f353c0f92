/** The fixed Huffman codes of section 3.2.6 of RFC 1951. */
module FixedCode {
  import opened BitStrings
  import opened Canonical
  import opened DeflateFormat
  import opened DeflateStream

  /** How many of the first n literal/length symbols have an s-bit code. */
  function FixedCount(n: nat, s: nat): nat
  {
    if s == 7 then (if n <= 256 then 0 else if n <= 280 then n - 256 else 24)
    else if s == 8 then (if n <= 144 then n else if n <= 280 then 144 else n - 136)
    else if s == 9 then (if n <= 144 then 0 else if n <= 256 then n - 144 else 112)
    else 0
  }

  lemma {:induction false} CountFixed(n: nat, s: nat)
    requires n <= 288
    ensures Count(FixedLitLens()[..n], s) == FixedCount(n, s)
  {
    if n > 0 {
      CountFixed(n - 1, s);
      var lens := FixedLitLens()[..n];
      assert lens[..n - 1] == FixedLitLens()[..n - 1];
      assert lens[n - 1] == FixedLength(n - 1);
    }
  }

  lemma {:induction false} CountDist(n: nat, s: nat)
    requires n <= 32
    ensures Count(FixedDistLens()[..n], s) == if s == 5 then n else 0
  {
    if n > 0 {
      CountDist(n - 1, s);
      var lens := FixedDistLens()[..n];
      assert lens[..n - 1] == FixedDistLens()[..n - 1];
    }
  }

  lemma {:induction false} UsedFixed(s: nat)
    requires s <= 15
    ensures Used(FixedLitLens(), s) ==
      if s < 7 then 0 else if s == 7 then 24 else if s == 8 then 200 else Pow2(s)
  {
    if s > 0 {
      UsedFixed(s - 1);
      assert Pow2(9) == 512;
      CountFixed(288, s);
      assert FixedLitLens()[..288] == FixedLitLens();
    }
  }

  lemma {:induction false} UsedDist(s: nat)
    requires s <= 15
    ensures Used(FixedDistLens(), s) == if s < 5 then 0 else Pow2(s)
  {
    if s > 0 {
      UsedDist(s - 1);
      assert Pow2(5) == 32;
      CountDist(32, s);
      assert FixedDistLens()[..32] == FixedDistLens();
    }
  }

  /** Both fixed codes are complete prefix codes. */
  lemma FixedKraft()
    ensures CodeLengths(FixedLitLens()) && CodeLengths(FixedDistLens())
    ensures KraftSum(FixedLitLens(), 15) == Pow2(15) == KraftSum(FixedDistLens(), 15)
  {
    hide Used, KraftSum, Count, Pow2;
    UsedFixed(15);
    UsedDist(15);
    KraftSumIsUsed(FixedLitLens(), 15);
    KraftSumIsUsed(FixedDistLens(), 15);
  }

  /** The code values listed in section 3.2.6. */
  lemma FixedCodes(i: nat)
    requires i < 288
    ensures Code(FixedLitLens(), i) ==
      if i < 144 then 0x30 + i else if i < 256 then 0x190 + (i - 144) else if i < 280 then i - 256 else 0xc0 + (i - 280)
  {
    UsedFixed(FixedLength(i) - 1);
    CountFixed(i, FixedLength(i));
  }

  lemma FixedDistCodes(i: nat)
    requires i < 32
    ensures Code(FixedDistLens(), i) == i
  {
    UsedDist(4);
    CountDist(i, 5);
  }
}
