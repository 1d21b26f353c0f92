/** The alpha half of a BC3 block: stb_dxt's compressor against the decoder of bc_decoder. */
module AlphaBlock {
  import opened BitStrings

  // ---------------------------------------------------------------------------
  // The decoder: BC_channel, unsigned

  /** Entry k of the palette that two endpoints span. */
  function Palette(c0: Byte, c1: Byte, k: nat): (v: Byte)
    requires k < 8
  {
    if k == 0 then c0
    else if k == 1 then c1
    else if c0 > c1 then MixBound(8 - k, k - 1, c0, c1); ((8 - k) * c0 + (k - 1) * c1) / 7
    else if k < 6 then MixBound(6 - k, k - 1, c0, c1); ((6 - k) * c0 + (k - 1) * c1) / 5
    else if k == 6 then 0 else 255
  }

  lemma MixBound(a: nat, b: nat, x: Byte, y: Byte)
    ensures 0 <= a * x + b * y <= 255 * (a + b)
  {
    assert a * 255 == a * x + a * (255 - x) && b * 255 == b * y + b * (255 - y);
  }

  /** The entries after the endpoints divide the way from the first to the second into seven parts, rounded down;
      when the first endpoint is not the larger one, into five parts, and the last two are 0 and 255. */
  lemma PaletteDivides(c0: Byte, c1: Byte, k: nat)
    requires 2 <= k < 8
    ensures c0 > c1 ==> 0 <= 7 * c0 - (k - 1) * (c0 - c1) - 7 * Palette(c0, c1, k) < 7
    ensures c0 <= c1 && k < 6 ==> 0 <= 5 * c0 + (k - 1) * (c1 - c0) - 5 * Palette(c0, c1, k) < 5
    ensures c0 <= c1 && k >= 6 ==> Palette(c0, c1, k) == if k == 6 then 0 else 255
  {
    MixBound(8 - k, k - 1, c0, c1);
    if k < 6 { MixBound(6 - k, k - 1, c0, c1); }
    assert (8 - k) * c0 + (k - 1) * c1 == 7 * c0 - (k - 1) * (c0 - c1);
    assert (6 - k) * c0 + (k - 1) * c1 == 5 * c0 + (k - 1) * (c1 - c0);
  }

  /** getIdx: three bits for every pixel, after the two endpoints. */
  function Index(block: seq<Byte>, i: nat): (k: nat)
    ensures k < 8
  {
    ThreeBits(Stream(block, 16 + 3 * i, 3));
    Val(Stream(block, 16 + 3 * i, 3))
  }

  lemma ThreeBits(s: seq<bool>)
    requires |s| == 3
    ensures Val(s) < 8
  {
    ValBound(s);
    assert Pow2(3) == 8;
  }

  /** Pixel i of a decoded block. */
  function Decoded(block: seq<Byte>, i: nat): (v: Byte)
    requires |block| == 8
  {
    Palette(block[0], block[1], Index(block, i))
  }

  // ---------------------------------------------------------------------------
  // The compressor's choice

  /** The level of a value at distance x above the minimum: a linear scale from 0 to 7, found by
      three comparisons. */
  function Level(dist: nat, x: nat): (n: nat)
    requires x <= dist
    ensures n < 8
  {
    var a := 7 * x + (if dist < 8 then dist - 1 else dist / 2 + 2);
    var four := a >= 4 * dist;
    var b := if four then a - 4 * dist else a;
    var two := b >= 2 * dist;
    var c := if two then b - 2 * dist else b;
    (if four then 4 else 0) + (if two then 2 else 0) + (if c >= dist then 1 else 0)
  }

  /** The palette index of a level: -n & 7, with 0 and 1 exchanged. */
  function LevelIndex(n: nat): (k: nat)
    requires n < 8
    ensures k < 8
  {
    if n == 7 then 0 else if n == 0 then 1 else 8 - n
  }

  /** The level as a fraction of the distance, as the decoder rounds it. */
  function Step(dist: nat, n: nat): (v: nat)
    requires n < 8
    ensures n == 7 ==> v == dist
    ensures n == 0 ==> v == 0
  {
    n * dist / 7
  }

  lemma DivideMono(a: nat, b: nat)
    requires a <= b
    ensures a / 7 <= b / 7
  {
  }

  lemma StepMono(dist: nat, m: nat, n: nat)
    requires m <= n < 8
    ensures Step(dist, m) <= Step(dist, n)
  {
    assert n * dist == m * dist + (n - m) * dist;
    DivideMono(m * dist, n * dist);
  }

  /** The decoder's palette is the minimum plus a step. */
  lemma PaletteStep(mx: Byte, mn: Byte, n: nat)
    requires mn < mx && n < 8
    ensures Palette(mx, mn, LevelIndex(n)) == mn + Step(mx - mn, n)
  {
  }

  /** The level is the quotient of the biased distance, cut off at 7. */
  lemma LevelBounds(dist: nat, x: nat)
    requires 0 < dist && x <= dist
    ensures
      var a := 7 * x + (if dist < 8 then dist - 1 else dist / 2 + 2);
      var n := Level(dist, x);
      n * dist <= a && (n < 7 ==> a < (n + 1) * dist)
  {
  }

  /** The value is not past the middle between its level and the next. */
  lemma NotPastNext(dist: nat, x: nat, n: nat)
    requires 0 < dist && x <= dist && n < 7
    requires 7 * x + (if dist < 8 then dist - 1 else dist / 2 + 2) < (n + 1) * dist
    ensures 2 * x <= Step(dist, n) + Step(dist, n + 1)
  {
    hide Step, Times;
    StepMono(dist, n, n + 1);
    if dist < 8 {
      WithinStep(dist, x, n);
    } else {
      var q, r := dist / 7, dist % 7;
      StepSplit(dist, n);
      StepSplit(dist, n + 1);
      SmallSteps(n, r);
      Expand(n, q, r, dist);
      if n == 5 && r == 1 {
        FiveAndOne(q);
        MiddleOdd(q, x, dist / 2);
      } else if n == 1 && r == 6 {
        OneAndSix(q);
        MiddleEven(q, x, dist / 2);
      } else {
        Middle(dist, x, Times(2 * n + 1, q), Times(2 * n + 1, r), Times(n, r) / 7 + Times(n + 1, r) / 7);
      }
    }
  }

  function Times(a: nat, b: nat): nat
  {
    a * b
  }

  lemma FiveAndOne(q: nat)
    ensures Times(11, q) == 11 * q && Times(11, 1) == 11 && Times(5, 1) == 5 && Times(6, 1) == 6
  {
  }

  lemma OneAndSix(q: nat)
    ensures Times(3, q) == 3 * q && Times(3, 6) == 18 && Times(1, 6) == 6 && Times(2, 6) == 12
  {
  }

  lemma WithinStep(dist: nat, x: nat, n: nat)
    requires n < 7 && 7 * x + dist - 1 < (n + 1) * dist
    ensures x <= Step(dist, n)
  {
    assert (n + 1) * dist == n * dist + dist;
  }

  lemma Expand(n: nat, q: nat, r: nat, dist: nat)
    requires dist == 7 * q + r
    ensures 2 * ((n + 1) * dist) == 7 * Times(2 * n + 1, q) + Times(2 * n + 1, r) + dist
    ensures Times(n, q) + Times(n + 1, q) == Times(2 * n + 1, q)
  {
    calc {
      2 * ((n + 1) * dist);
      (2 * n + 1) * dist + dist;
      (2 * n + 1) * (7 * q) + (2 * n + 1) * r + dist;
    }
  }

  /** A step of a distance 7 q + r. */
  lemma StepSplit(dist: nat, n: nat)
    requires n < 8
    ensures Step(dist, n) == Times(n, dist / 7) + Times(n, dist % 7) / 7
  {
    var q, r := dist / 7, dist % 7;
    assert n * dist == 7 * (n * q) + n * r;
  }

  /** How much two neighbouring steps of r < 7 lose by rounding. */
  lemma SmallSteps(n: nat, r: nat)
    requires n < 7 && r < 7
    ensures 7 * (Times(n, r) / 7 + Times(n + 1, r) / 7) >= Times(2 * n + 1, r) - 10
         || (n == 5 && r == 1) || (n == 1 && r == 6)
  {
    match r
    case 0 => case 1 => case 2 => case 3 => case 4 => case 5 => case 6 =>
  }

  lemma Middle(dist: nat, x: nat, k: nat, t: nat, f: nat)
    requires 14 * x + 2 * (dist / 2) + 4 < 7 * k + t + dist && 7 * f >= t - 10
    ensures 2 * x <= k + f
  {
  }

  /** The two cases in which rounding loses most are saved by parity; h is half the distance. */
  lemma MiddleOdd(q: nat, x: nat, h: nat)
    requires 2 * h <= 7 * q + 1 <= 2 * h + 1 && 14 * x + 2 * h + 4 < 77 * q + 11 + (7 * q + 1)
    ensures 2 * x <= 11 * q
  {
    assert 2 * x <= 11 * q + 1;
    assert 2 * x == 11 * q + 1 ==> 2 * (x + h - 9 * q) == 1;
  }

  lemma MiddleEven(q: nat, x: nat, h: nat)
    requires 2 * h <= 7 * q + 6 <= 2 * h + 1 && 14 * x + 2 * h + 4 < 21 * q + 18 + (7 * q + 6)
    ensures 2 * x <= 3 * q + 1
  {
    assert 2 * x <= 3 * q + 2;
    assert 2 * x == 3 * q + 2 ==> 2 * (h + x - 5 * q) == 7;
  }

  /** The value is past the middle between its level and the one before. */
  lemma PastPrevious(dist: nat, x: nat, n: nat)
    requires 0 < dist && x <= dist && 0 < n < 8
    requires 7 * x + (if dist < 8 then dist - 1 else dist / 2 + 2) >= n * dist
    ensures 2 * x >= Step(dist, n) + Step(dist, n - 1)
  {
  }

  /** Neighbouring steps are at most a seventh of the distance apart, rounded up. */
  lemma StepGap(dist: nat, n: nat)
    requires n < 7
    ensures Step(dist, n + 1) - Step(dist, n) <= (dist + 6) / 7
  {
  }

  function Abs(x: int): nat { if x < 0 then -x else x }

  /** The chosen step is at least as near as any other, and within half a gap. */
  lemma LevelNearest(dist: nat, x: nat, m: nat)
    requires 0 < dist && x <= dist && m < 8
    ensures Abs(x - Step(dist, Level(dist, x))) <= Abs(x - Step(dist, m))
    ensures 2 * Abs(x - Step(dist, Level(dist, x))) <= (dist + 6) / 7
  {
    hide Step;
    var n := Level(dist, x);
    LevelBounds(dist, x);
    if n < 7 {
      NotPastNext(dist, x, n);
      StepMono(dist, n, n + 1);
      StepGap(dist, n);
    }
    if n > 0 {
      PastPrevious(dist, x, n);
      StepMono(dist, n - 1, n);
      StepGap(dist, n - 1);
    }
    if m > n { StepMono(dist, n + 1, m); } else if m < n { StepMono(dist, m, n - 1); }
  }

  function IndexLevel(k: nat): (n: nat)
    requires k < 8
    ensures n < 8 && LevelIndex(n) == k
  {
    if k == 0 then 7 else if k == 1 then 0 else 8 - k
  }

  /** got is as near to v as palette entry k; it is off by at most half of a seventh of the range,
      rounded up, and not at all when the range is below 8. */
  predicate Near(v: Byte, got: Byte, mx: Byte, mn: Byte, k: nat)
    requires k < 8
  {
    && Abs(got - v) <= Abs(Palette(mx, mn, k) - v)
    && 2 * Abs(got - v) <= (mx - mn + 6) / 7
    && (mx - mn < 8 ==> got == v)
  }

  /** For a value between the endpoints, the compressor's index selects a nearest palette entry. */
  lemma ChoiceIsNearest(mn: Byte, mx: Byte, v: Byte, k: nat)
    requires mn <= v <= mx && k < 8
    ensures Near(v, Palette(mx, mn, LevelIndex(Level(mx - mn, v - mn))), mx, mn, k)
  {
    hide Level, Step;
    if mn < mx {
      var n, m := Level(mx - mn, v - mn), IndexLevel(k);
      PaletteStep(mx, mn, n);
      PaletteStep(mx, mn, m);
      LevelNearest(mx - mn, v - mn, m);
    } else {
      LevelOfNothing();
    }
  }

  lemma LevelOfNothing()
    ensures Level(0, 0) == 0
  {
  }

  // ---------------------------------------------------------------------------
  // stb__CompressAlphaBlock

  /** The indices of the first pixels, packed from the lowest bit on. */
  function IndexBits(index: seq<nat>): (s: seq<bool>)
    ensures |s| == 3 * |index|
  {
    if index == [] then [] else IndexBits(index[..|index| - 1]) + Bits(index[|index| - 1], 3)
  }

  lemma {:induction false} IndexBitsAt(index: seq<nat>, i: nat)
    requires i < |index|
    ensures IndexBits(index)[3 * i..3 * i + 3] == Bits(index[i], 3)
  {
    var n := |index| - 1;
    var s := IndexBits(index[..n]);
    if i < n {
      IndexBitsAt(index[..n], i);
      assert IndexBits(index)[3 * i..3 * i + 3] == s[3 * i..3 * i + 3];
    }
  }

  predicate Strided(src: seq<Byte>, stride: nat)
  {
    15 * stride < |src|
  }

  /** Pixel i of the source. */
  function Pixel(src: seq<Byte>, stride: nat, i: nat): Byte
    requires Strided(src, stride) && i < 16
  {
    assert i * stride <= 15 * stride;
    src[i * stride]
  }

  /** mn and mx are the least and the greatest pixel. */
  predicate Extremes(src: seq<Byte>, stride: nat, n: nat, mn: int, mx: int)
    requires Strided(src, stride) && n <= 16
  {
    && (forall i :: 0 <= i < n ==> mn <= Pixel(src, stride, i) <= mx)
    && (exists i :: 0 <= i < n && Pixel(src, stride, i) == mn)
    && (exists i :: 0 <= i < n && Pixel(src, stride, i) == mx)
  }

  method FindExtremes(src: seq<Byte>, stride: nat) returns (mn: Byte, mx: Byte)
    requires Strided(src, stride)
    ensures Extremes(src, stride, 16, mn, mx)
  {
    mn := Pixel(src, stride, 0);
    mx := mn;
    for i := 1 to 16
      invariant Extremes(src, stride, i, mn, mx)
    {
      var v := Pixel(src, stride, i);
      if v < mn { mn := v; } else if v > mx { mx := v; }
    }
  }

  /** The linear-scale level by comparing and subtracting, then the index. */
  method ChooseIndex(dist: nat, x: nat) returns (ind: nat)
    requires x <= dist
    ensures ind == LevelIndex(Level(dist, x))
  {
    var bias := if dist < 8 then dist - 1 else dist / 2 + 2;
    var a := x * 7 + bias;
    ind := 0;
    if a >= 4 * dist {
      ind := 4;
      a := a - 4 * dist;
    }
    if a >= 2 * dist {
      ind := ind + 2;
      a := a - 2 * dist;
    }
    if a >= dist { ind := ind + 1; }
    ind := (8 - ind) % 8;
    if 2 > ind { ind := 1 - ind; }
  }

  /** What a compressed block holds: the extreme values, and the index of every pixel. */
  predicate Compressed(src: seq<Byte>, stride: nat, block: seq<Byte>)
    requires Strided(src, stride)
  {
    && |block| == 8 && Extremes(src, stride, 16, block[1], block[0])
    && forall i :: 0 <= i < 16 ==>
         Index(block, i) == LevelIndex(Level(block[0] - block[1], Pixel(src, stride, i) - block[1]))
  }

  method CompressAlpha(src: seq<Byte>, stride: nat) returns (dest: seq<Byte>)
    requires Strided(src, stride)
    ensures Compressed(src, stride, dest)
  {
    hide Level, LevelIndex, Bits, ToBits, IndexBits, Shl, Low, Shr, Pow2, Stream;
    var mn, mx := FindExtremes(src, stride);
    var packed: seq<Byte> := [];
    var bits, mask: nat := 0, 0;
    ghost var index: seq<nat> := [];
    StartPacking();
    for i := 0 to 16
      invariant bits < 8 && mask < Pow2(bits) && |index| == i && 8 * |packed| + bits == 3 * i
      invariant ToBits(packed) + Bits(mask, bits) == IndexBits(index)
      invariant forall k :: 0 <= k < i ==> index[k] == LevelIndex(Level(mx - mn, Pixel(src, stride, k) - mn))
    {
      var ind := ChooseIndex(mx - mn, Pixel(src, stride, i) - mn);
      PackIndex(packed, mask, bits, index, ind);
      index := index + [ind];
      mask := mask + Shl(ind, bits);
      bits := bits + 3;
      if bits >= 8 {
        FlushByte(packed, mask, bits);
        packed := packed + [Low(mask, 8)];
        mask := Shr(mask, 8);
        bits := bits - 8;
      }
    }
    dest := [mx, mn] + packed;
    Packed(dest, packed, mask, index);
  }

  lemma StartPacking()
    ensures 0 < Pow2(0) && ToBits([]) + Bits(0, 0) == IndexBits([])
  {
  }

  lemma PackIndex(packed: seq<Byte>, mask: nat, bits: nat, index: seq<nat>, ind: nat)
    requires mask < Pow2(bits) && ind < 8 && ToBits(packed) + Bits(mask, bits) == IndexBits(index)
    ensures mask + Shl(ind, bits) < Pow2(bits + 3)
    ensures ToBits(packed) + Bits(mask + Shl(ind, bits), bits + 3) == IndexBits(index + [ind])
  {
    hide Bits, ToBits, Shl;
    assert Pow2(3) == 8;
    BitsConcat(mask, bits, ind, 3);
    ConcatAssoc(ToBits(packed), Bits(mask, bits), Bits(ind, 3));
    assert (index + [ind])[..|index|] == index;
  }

  /** The indices can be read back. */
  lemma Packed(dest: seq<Byte>, packed: seq<Byte>, mask: nat, index: seq<nat>)
    requires |packed| == 6 && |index| == 16 && |dest| == 8 && dest[2..] == packed
    requires ToBits(packed) + Bits(mask, 0) == IndexBits(index)
    requires forall i :: 0 <= i < 16 ==> index[i] < 8
    ensures forall i :: 0 <= i < 16 ==> Index(dest, i) == index[i]
  {
    hide ToBits, IndexBits, Stream, At;
    assert dest[2..2 + 6] == packed;
    StreamToBits(dest, 2, packed);
    NoBits(mask);
    assert ToBits(packed) + [] == ToBits(packed);
    forall i | 0 <= i < 16 ensures Index(dest, i) == index[i] {
      ReadIndex(dest, IndexBits(index), index, i);
    }
  }

  lemma NoBits(mask: nat)
    ensures Bits(mask, 0) == []
  {
  }

  lemma ReadIndex(dest: seq<Byte>, all: seq<bool>, index: seq<nat>, i: nat)
    requires At(dest, 16, all) && all == IndexBits(index) && i < |index| && index[i] < 8
    ensures Index(dest, i) == index[i]
  {
    hide Stream, IndexBits;
    IndexBitsAt(index, i);
    StreamTake(dest, 16, 3 * i, |all|);
    StreamTake(dest, 16 + 3 * i, 3, |all| - 3 * i);
    assert all[3 * i..][..3] == all[3 * i..3 * i + 3];
    ValBits(index[i], 3);
    assert Pow2(3) == 8;
    LowOf(index[i], 3);
  }

  /** Every pixel of a compressed block decodes to a nearest entry of the decoder's palette, within half
      of a seventh of the range rounded up, and exactly when the range is below 8. */
  lemma DecodedNearest(src: seq<Byte>, stride: nat, block: seq<Byte>, i: nat, k: nat)
    requires Strided(src, stride) && Compressed(src, stride, block) && i < 16 && k < 8
    ensures Near(Pixel(src, stride, i), Decoded(block, i), block[0], block[1], k)
  {
    hide Palette, Level, LevelIndex, Index, Pixel, Near;
    ChoiceIsNearest(block[1], block[0], Pixel(src, stride, i), k);
  }
}
