/** The BC1 colour compressor of stb_dxt against bc_decoder. The principal axis and the results of the
    least-squares refinement come from floating point and are arbitrary here. */
module ColorBlock {
  import opened BitStrings
  import opened ColorFormat

  // ---------------------------------------------------------------------------
  // The compressor's palettes

  /** stb__From16Bit. */
  function From16Bit(c: nat): Rgb
  {
    var r, g, b := c / 2048 % 32, c / 32 % 64, c % 32;
    Rgb(r * 33 / 4, g * 65 / 16, b * 33 / 4)
  }

  function Lerp13(a: Rgb, b: Rgb): Rgb
  {
    Rgb((2 * a.r + b.r) / 3, (2 * a.g + b.g) / 3, (2 * a.b + b.b) / 3)
  }

  function Lerp12(a: Rgb, b: Rgb): Rgb
  {
    Rgb((a.r + b.r) / 2, (a.g + b.g) / 2, (a.b + b.b) / 2)
  }

  /** stb__Eval4Colors. */
  function Color4(c0: nat, c1: nat, k: nat): Rgb
    requires k < 4
  {
    var a, b := From16Bit(c0), From16Bit(c1);
    if k == 0 then a else if k == 1 then b else if k == 2 then Lerp13(a, b) else Lerp13(b, a)
  }

  /** stb__Eval3Colors. */
  function Color3(c0: nat, c1: nat, k: nat): Rgb
    requires k < 3
  {
    var a, b := From16Bit(c0), From16Bit(c1);
    if k == 0 then a else if k == 1 then b else Lerp12(a, b)
  }

  /** The two expansions of 16-bit colours agree. */
  lemma From16IsExtract(c: nat)
    ensures From16Bit(c) == Extract565(c).color
  {
  }

  /** The compressor measures against the colours that the decoder will produce. */
  lemma PalettesAgree(c0: nat, c1: nat, k: nat, hasAlpha: bool)
    requires k < 4
    ensures c0 > c1 ==> Color4(c0, c1, k) == Entry(c0, c1, k, hasAlpha, false).color
    ensures Color4(c0, c1, k) == Entry(c0, c1, k, hasAlpha, true).color
    ensures c0 <= c1 && k < 3 ==> Color3(c0, c1, k) == Entry(c0, c1, k, hasAlpha, false).color
  {
    hide From16Bit, Extract565;
    From16IsExtract(c0);
    From16IsExtract(c1);
  }

  // ---------------------------------------------------------------------------
  // Projection to the line between the endpoints

  function Dot(a: Rgb, d: Rgb): int
  {
    a.r * d.r + a.g * d.g + a.b * d.b
  }

  function Direction(a: Rgb, b: Rgb): Rgb
  {
    Rgb(a.r - b.r, a.g - b.g, a.b - b.b)
  }

  /** A colour component lies between two others, in the order of the direction. */
  predicate Towards(x: int, y: int, d: int)
  {
    (d >= 0 ==> x <= y) && (d <= 0 ==> x >= y)
  }

  lemma ProductMono(x: int, y: int, d: int)
    requires Towards(x, y, d)
    ensures x * d <= y * d
  {
    if d > 0 { assert x * d <= y * d; } else if d < 0 { assert x * d <= y * d; }
  }

  lemma DotMono(x: Rgb, y: Rgb, d: Rgb)
    requires Towards(x.r, y.r, d.r) && Towards(x.g, y.g, d.g) && Towards(x.b, y.b, d.b)
    ensures Dot(x, d) <= Dot(y, d)
  {
    ProductMono(x.r, y.r, d.r);
    ProductMono(x.g, y.g, d.g);
    ProductMono(x.b, y.b, d.b);
  }

  lemma LerpBetween(a: int, b: int)
    ensures Towards(b, (2 * b + a) / 3, a - b) && Towards((2 * b + a) / 3, (2 * a + b) / 3, a - b)
    ensures Towards((2 * a + b) / 3, a, a - b)
    ensures Towards(b, (a + b) / 2, a - b) && Towards((a + b) / 2, a, a - b)
  {
  }

  /** Where palette entry k lies on the line. */
  function Stop4(c0: nat, c1: nat, k: nat): int
    requires k < 4
  {
    Dot(Color4(c0, c1, k), Direction(From16Bit(c0), From16Bit(c1)))
  }

  function Stop3(c0: nat, c1: nat, k: nat): int
    requires k < 3
  {
    Dot(Color3(c0, c1, k), Direction(From16Bit(c0), From16Bit(c1)))
  }

  /** The stops are in the order 1, 3, 2, 0. */
  lemma StopsOrdered(c0: nat, c1: nat)
    ensures Stop4(c0, c1, 1) <= Stop4(c0, c1, 3) <= Stop4(c0, c1, 2) <= Stop4(c0, c1, 0)
    ensures Stop3(c0, c1, 1) <= Stop3(c0, c1, 2) <= Stop3(c0, c1, 0)
    ensures Stop4(c0, c1, 0) == Stop3(c0, c1, 0) && Stop4(c0, c1, 1) == Stop3(c0, c1, 1)
  {
    hide From16Bit, Dot;
    var a, b := From16Bit(c0), From16Bit(c1);
    var d := Direction(a, b);
    LerpBetween(a.r, b.r);
    LerpBetween(a.g, b.g);
    LerpBetween(a.b, b.b);
    DotMono(b, Lerp13(b, a), d);
    DotMono(Lerp13(b, a), Lerp13(a, b), d);
    DotMono(Lerp13(a, b), a, d);
    DotMono(b, Lerp12(a, b), d);
    DotMono(Lerp12(a, b), a, d);
  }

  function Distance(x: int, y: int): nat { if x < y then y - x else x - y }

  /** The index that stb__MatchColorsBlock gives to a pixel at dot. */
  function Match4(c0: nat, c1: nat, dot: int): (k: nat)
    ensures k < 4
  {
    if 2 * dot < Stop4(c0, c1, 3) + Stop4(c0, c1, 2) then
      if 2 * dot < Stop4(c0, c1, 1) + Stop4(c0, c1, 3) then 1 else 3
    else
      if 2 * dot < Stop4(c0, c1, 2) + Stop4(c0, c1, 0) then 2 else 0
  }

  /** On the line, the index selects a nearest palette entry. */
  lemma Match4Nearest(c0: nat, c1: nat, dot: int, k: nat)
    requires k < 4
    ensures Distance(dot, Stop4(c0, c1, Match4(c0, c1, dot))) <= Distance(dot, Stop4(c0, c1, k))
  {
    hide Stop4, Stop3;
    StopsOrdered(c0, c1);
  }

  /** Entry k is nearest to the colour p on the line between the endpoints. */
  predicate NearestOnLine(p: Rgb, c0: nat, c1: nat, k: nat)
    requires k < 4
  {
    var dot := Dot(p, Direction(From16Bit(c0), From16Bit(c1)));
    forall j :: 0 <= j < 4 ==> Distance(dot, Stop4(c0, c1, k)) <= Distance(dot, Stop4(c0, c1, j))
  }

  lemma DotReversed(a: Rgb, d: Rgb)
    ensures Dot(a, Rgb(-d.r, -d.g, -d.b)) == -Dot(a, d)
  {
    assert a.r * -d.r == -(a.r * d.r) && a.g * -d.g == -(a.g * d.g) && a.b * -d.b == -(a.b * d.b);
  }

  /** Exchanging the endpoints mirrors the line. */
  lemma StopReversed(c0: nat, c1: nat, k: nat)
    requires k < 4
    ensures Stop4(c1, c0, Partner(k)) == -Stop4(c0, c1, k)
  {
    hide From16Bit, Dot;
    DotReversed(Color4(c0, c1, k), Direction(From16Bit(c0), From16Bit(c1)));
  }

  lemma NearestReversed(p: Rgb, c0: nat, c1: nat, k: nat)
    requires k < 4 && NearestOnLine(p, c0, c1, k)
    ensures NearestOnLine(p, c1, c0, Partner(k))
  {
    hide From16Bit, Dot, Stop4;
    var d := Direction(From16Bit(c0), From16Bit(c1));
    DotReversed(p, d);
    StopReversed(c0, c1, k);
    forall j | 0 <= j < 4
      ensures Distance(-Dot(p, d), Stop4(c1, c0, Partner(k))) <= Distance(-Dot(p, d), Stop4(c1, c0, j))
    {
      StopReversed(c0, c1, Partner(j));
    }
  }

  /** The index that stb__MatchColorsAlphaBlock gives to an opaque pixel. */
  function Match3(c0: nat, c1: nat, dot: int): (k: nat)
    ensures k < 3
  {
    if 2 * dot < Stop3(c0, c1, 2) + Stop3(c0, c1, 0) then
      if 2 * dot < Stop3(c0, c1, 1) + Stop3(c0, c1, 2) then 0 else 2
    else
      if 2 * dot < Stop3(c0, c1, 1) + Stop3(c0, c1, 2) then 1 else 0
  }

  /** In blocks with transparency the index is a nearest one exactly when the pixel is not on the side of
      endpoint 1, where the code selects endpoint 0 instead, or when the endpoints project to one point. */
  lemma Match3Nearest(c0: nat, c1: nat, dot: int)
    ensures (forall k :: 0 <= k < 3 ==>
      Distance(dot, Stop3(c0, c1, Match3(c0, c1, dot))) <= Distance(dot, Stop3(c0, c1, k)))
       <==> 2 * dot >= Stop3(c0, c1, 1) + Stop3(c0, c1, 2) || Stop3(c0, c1, 0) == Stop3(c0, c1, 1)
  {
    hide Stop4, Stop3;
    StopsOrdered(c0, c1);
    var s0, s1, s2 := Stop3(c0, c1, 0), Stop3(c0, c1, 1), Stop3(c0, c1, 2);
    if 2 * dot < s1 + s2 && s0 != s1 {
      assert Distance(dot, s1) < Distance(dot, s0);
    }
  }

  /** Black and white endpoints and a white pixel: the pixel is given the black entry. */
  lemma Match3Wrong()
    ensures
      var white := Rgb(255, 255, 255);
      && From16Bit(0) == Rgb(0, 0, 0) && From16Bit(0xffff) == white
      && Match3(0, 0xffff, Dot(white, Direction(From16Bit(0), white))) == 0
  {
    assert From16Bit(0) == Rgb(0, 0, 0);
    assert From16Bit(0xffff) == Rgb(255, 255, 255);
    BlackAndWhite(0, 0xffff);
  }

  lemma BlackAndWhite(c0: nat, c1: nat)
    requires From16Bit(c0) == Rgb(0, 0, 0) && From16Bit(c1) == Rgb(255, 255, 255)
    ensures Match3(c0, c1, Dot(Rgb(255, 255, 255), Direction(From16Bit(c0), Rgb(255, 255, 255)))) == 0
  {
    hide From16Bit;
    assert Stop3(c0, c1, 1) == -195075;
    assert Stop3(c0, c1, 2) == -97155;
  }

  // ---------------------------------------------------------------------------
  // Matching

  datatype Pixel = Pixel(color: Rgb, alpha: Byte)

  predicate IsBlock(block: seq<Pixel>)
  {
    |block| == 16 && forall i :: 0 <= i < 16 ==> IsColor(block[i].color)
  }

  predicate IsColor(c: Rgb)
  {
    0 <= c.r < 256 && 0 <= c.g < 256 && 0 <= c.b < 256
  }

  function Indices4(block: seq<Pixel>, c0: nat, c1: nat): (index: seq<nat>)
    ensures |index| == |block| && Indices(index)
  {
    var d := Direction(From16Bit(c0), From16Bit(c1));
    seq(|block|, i requires 0 <= i < |block| => Match4(c0, c1, Dot(block[i].color, d)))
  }

  /** Transparent pixels have index 3. */
  function Indices3(block: seq<Pixel>, c0: nat, c1: nat): (index: seq<nat>)
    ensures |index| == |block| && Indices(index)
  {
    seq(|block|, i requires 0 <= i < |block| =>
      if block[i].alpha == 0 then 3 else Match3(c0, c1, Dot(block[i].color, Direction(From16Bit(c0), From16Bit(c1)))))
  }

  /** stb__MatchColorsBlock. */
  method MatchColors(block: seq<Pixel>, c0: nat, c1: nat) returns (mask: nat)
    requires |block| == 16
    ensures mask == MaskOf(Indices4(block, c0, c1))
  {
    hide From16Bit, Dot;
    var dir := Direction(From16Bit(c0), From16Bit(c1));
    ghost var index := Indices4(block, c0, c1);
    var c0Point := Stop4(c0, c1, 1) + Stop4(c0, c1, 3);
    var halfPoint := Stop4(c0, c1, 3) + Stop4(c0, c1, 2);
    var c3Point := Stop4(c0, c1, 2) + Stop4(c0, c1, 0);
    mask := 0;
    var i := 16;
    while i > 0
      invariant 0 <= i <= 16 && mask == MaskOf(index[i..])
    {
      i := i - 1;
      var dot := 2 * Dot(block[i].color, dir);
      assert index[i..] == [index[i]] + index[i + 1..];
      mask := 4 * mask;
      if dot < halfPoint {
        mask := mask + if dot < c0Point then 1 else 3;
      } else {
        mask := mask + if dot < c3Point then 2 else 0;
      }
    }
    assert index[0..] == index;
  }

  /** stb__MatchColorsAlphaBlock. */
  method MatchColorsAlpha(block: seq<Pixel>, c0: nat, c1: nat) returns (mask: nat)
    requires |block| == 16
    ensures mask == MaskOf(Indices3(block, c0, c1))
  {
    hide From16Bit, Dot;
    var dir := Direction(From16Bit(c0), From16Bit(c1));
    ghost var index := Indices3(block, c0, c1);
    var c0Point := Stop3(c0, c1, 1) + Stop3(c0, c1, 2);
    var c2Point := Stop3(c0, c1, 2) + Stop3(c0, c1, 0);
    mask := 0;
    var i := 16;
    while i > 0
      invariant 0 <= i <= 16 && mask == MaskOf(index[i..])
    {
      i := i - 1;
      var dot := 2 * Dot(block[i].color, dir);
      assert index[i..] == [index[i]] + index[i + 1..];
      mask := 4 * mask;
      if block[i].alpha == 0 {
        mask := mask + 3;
      } else if dot < c2Point {
        mask := mask + if dot < c0Point then 0 else 2;
      } else {
        mask := mask + if dot < c0Point then 1 else 0;
      }
    }
    assert index[0..] == index;
  }

  // ---------------------------------------------------------------------------
  // Endpoints

  /** stb__Mul8Bit: a times b over 255, rounded. */
  function Mul8Bit(a: nat, b: nat): nat
  {
    var t := a * b + 128;
    (t + t / 256) / 256
  }

  /** It is the number nearest to the quotient. */
  lemma Mul8BitRounds(a: nat, b: nat)
    requires a < 256 && b < 64
    ensures -127 <= 255 * Mul8Bit(a, b) - a * b <= 127
  {
    MulBound(a, b);
    var t := a * b + 128;
    assert t / 256 < 64;
  }

  lemma MulBound(a: nat, b: nat)
    requires a < 256 && b < 64
    ensures 0 <= a * b <= 255 * 63
  {
    assert a * b <= 255 * b;
  }

  /** stb__As16Bit. */
  function As16Bit(c: Rgb): (r: nat)
    requires IsColor(c)
    ensures r < 0x1_0000
  {
    Mul8Bit(c.r, 31) * 2048 + Mul8Bit(c.g, 63) * 32 + Mul8Bit(c.b, 31)
  }

  /** Expanding a 16-bit colour loses nothing. */
  lemma As16OfFrom16(c: nat)
    requires c < 0x1_0000
    ensures IsColor(From16Bit(c)) && As16Bit(From16Bit(c)) == c
  {
    hide Mul8Bit;
    var r, g, b := c / 2048 % 32, c / 32 % 64, c % 32;
    FiveBits(r);
    SixBits(g);
    FiveBits(b);
    ThreeFields(c);
  }

  lemma ThreeFields(c: nat)
    requires c < 0x1_0000
    ensures c / 2048 % 32 * 2048 + c / 32 % 64 * 32 + c % 32 == c
  {
    assert c / 2048 == c / 32 / 64;
  }

  lemma FiveBits(v: nat)
    requires v < 32
    ensures v * 33 / 4 < 256 && Mul8Bit(v * 33 / 4, 31) == v
  {
  }

  lemma SixBits(v: nat)
    requires v < 64
    ensures v * 65 / 16 < 256 && Mul8Bit(v * 65 / 16, 63) == v
  {
  }

  /** stb__OptimizeColorsBlock after the axis is known: the extreme pixels along it, so that the second
      endpoint is not below the first. */
  method OptimizeColors(block: seq<Pixel>, axis: Rgb) returns (max16: nat, min16: nat)
    requires IsBlock(block)
    ensures max16 <= min16 < 0x1_0000
    ensures ExtremeEnds(block, axis, max16, min16)
  {
    hide As16Bit, Dot;
    var minp: nat, maxp: nat := 0, 0;
    for i := 1 to 16
      invariant minp < i && maxp < i
      invariant forall k :: 0 <= k < i ==>
        Dot(block[minp].color, axis) <= Dot(block[k].color, axis) <= Dot(block[maxp].color, axis)
    {
      var dot := Dot(block[i].color, axis);
      if dot < Dot(block[minp].color, axis) { minp := i; }
      if dot > Dot(block[maxp].color, axis) { maxp := i; }
    }
    max16, min16 := As16Bit(block[maxp].color), As16Bit(block[minp].color);
    if min16 < max16 { max16, min16 := min16, max16; }
  }

  /** The endpoints are the quantised colours of two pixels that are extreme along the axis. */
  predicate ExtremeEnds(block: seq<Pixel>, axis: Rgb, c0: nat, c1: nat)
    requires IsBlock(block)
  {
    exists p, q :: 0 <= p < 16 && 0 <= q < 16 &&
      c0 == As16Bit(block[p].color) && c1 == As16Bit(block[q].color) &&
      forall k :: 0 <= k < 16 ==>
        Between(Dot(block[p].color, axis), Dot(block[k].color, axis), Dot(block[q].color, axis))
  }

  predicate Between(a: int, x: int, b: int)
  {
    a <= x <= b || b <= x <= a
  }

  /** The axis is scaled so that its components stay small. */
  predicate SmallAxis(a: Rgb)
  {
    -1024 <= a.r <= 1024 && -1024 <= a.g <= 1024 && -1024 <= a.b <= 1024
  }

  lemma ProductRange(x: int, y: int)
    requires 0 <= x < 256 && -1024 <= y <= 1024
    ensures -0x4_0000 <= x * y <= 0x4_0000
  {
    assert x * y <= x * 1024 && x * -1024 <= x * y;
  }

  lemma DotRange(c: Rgb, a: Rgb)
    requires IsColor(c) && SmallAxis(a)
    ensures -0xc_0000 <= Dot(c, a) <= 0xc_0000
  {
    ProductRange(c.r, a.r);
    ProductRange(c.g, a.g);
    ProductRange(c.b, a.b);
  }

  /** stb__OptimizeColorsAlphaBlock after the axis is known: transparent pixels do not count, and equal
      endpoints are made different. */
  method OptimizeColorsAlpha(block: seq<Pixel>, axis: Rgb) returns (max16: nat, min16: nat)
    requires IsBlock(block) && SmallAxis(axis)
    ensures max16 < min16 < 0x1_0000
    ensures AlphaEnds(block, axis, max16, min16)
  {
    hide As16Bit, Dot;
    var minp, maxp := -1, -1;
    var mind, maxd := 0x7fff_ffff, -0x8000_0000;
    for i := 0 to 16
      invariant -1 <= minp < i && -1 <= maxp < i && (minp == -1 <==> maxp == -1)
      invariant maxp == -1 ==> mind == 0x7fff_ffff && maxd == -0x8000_0000
      invariant maxp == -1 ==> forall k :: 0 <= k < i ==> block[k].alpha == 0
      invariant maxp != -1 ==> block[maxp].alpha != 0 && maxd == Dot(block[maxp].color, axis)
      invariant minp != -1 ==> block[minp].alpha != 0 && mind == Dot(block[minp].color, axis)
      invariant forall k :: 0 <= k < i && block[k].alpha != 0 ==> mind <= Dot(block[k].color, axis) <= maxd
    {
      if block[i].alpha != 0 {
        DotRange(block[i].color, axis);
        var dot := Dot(block[i].color, axis);
        if dot < mind { mind, minp := dot, i; }
        if dot > maxd { maxd, maxp := dot, i; }
      }
    }
    if maxp == -1 {
      return 0, 0xffff;
    }
    max16, min16 := As16Bit(block[maxp].color), As16Bit(block[minp].color);
    if max16 == min16 {
      if max16 > 0 { max16 := max16 - 1; } else { min16 := min16 + 1; }
    }
    if min16 < max16 { max16, min16 := min16, max16; }
    assert EndsAre(block, axis, maxp, minp, max16, min16);
  }

  /** Of the pixels that are not transparent, p is last and q first along the axis. */
  predicate OpaqueExtremes(block: seq<Pixel>, axis: Rgb, p: nat, q: nat)
    requires IsBlock(block) && p < 16 && q < 16
  {
    && block[p].alpha != 0 && block[q].alpha != 0
    && forall k :: 0 <= k < 16 && block[k].alpha != 0 ==>
         Dot(block[q].color, axis) <= Dot(block[k].color, axis) <= Dot(block[p].color, axis)
  }

  /** The two colours in ascending order; equal ones are moved apart by one. */
  predicate Separated(a: nat, b: nat, c0: nat, c1: nat)
  {
    if a < b then c0 == a && c1 == b
    else if b < a then c0 == b && c1 == a
    else if a > 0 then c0 == a - 1 && c1 == a
    else c0 == 0 && c1 == 1
  }

  predicate EndsAre(block: seq<Pixel>, axis: Rgb, p: nat, q: nat, c0: nat, c1: nat)
    requires IsBlock(block) && p < 16 && q < 16
  {
    OpaqueExtremes(block, axis, p, q) && Separated(As16Bit(block[p].color), As16Bit(block[q].color), c0, c1)
  }

  /** The endpoints are the quantised colours of the extreme pixels that are not transparent, moved apart if
      they are equal; without such pixels they are the fixed pair. */
  predicate AlphaEnds(block: seq<Pixel>, axis: Rgb, c0: nat, c1: nat)
    requires IsBlock(block)
  {
    if forall k :: 0 <= k < 16 ==> block[k].alpha == 0 then c0 == 0 && c1 == 0xffff
    else exists p, q :: 0 <= p < 16 && 0 <= q < 16 && EndsAre(block, axis, p, q, c0, c1)
  }

  /** stb__RefineBlock, with the endpoints that it solved for: reports whether they differ from the old
      ones, and puts them in order. */
  method Refine(oldMax: nat, oldMin: nat, solvedMax: nat, solvedMin: nat)
    returns (max16: nat, min16: nat, changed: bool)
    ensures max16 <= min16
    ensures (max16, min16) == (solvedMax, solvedMin) || (max16, min16) == (solvedMin, solvedMax)
    ensures !changed && oldMax <= oldMin ==> max16 == oldMax && min16 == oldMin
  {
    max16, min16 := solvedMax, solvedMin;
    if min16 < max16 { max16, min16 := min16, max16; }
    changed := oldMin != solvedMin || oldMax != solvedMax;
  }

  // ---------------------------------------------------------------------------
  // stb__CompressColorBlock

  /** What the floating-point and table-driven parts may come up with: an axis, endpoints for a block of
      one colour, and endpoints for each refinement. */
  datatype Oracle = Oracle(axis: Rgb, singleMax: nat, singleMin: nat, solved: seq<(nat, nat)>)

  predicate Plausible(o: Oracle)
  {
    && SmallAxis(o.axis) && o.singleMax < 0x1_0000 && o.singleMin < 0x1_0000 && |o.solved| == 2
    && forall i :: 0 <= i < 2 ==> o.solved[i].0 < 0x1_0000 && o.solved[i].1 < 0x1_0000
  }

  /** Endpoints and indices as they stand before they are written. */
  ghost predicate Holds(max16: nat, min16: nat, mask: nat, index: seq<nat>)
  {
    max16 < 0x1_0000 && min16 < 0x1_0000 && |index| == 16 && Indices(index) && mask == MaskOf(index)
  }

  /** Index 3 is used only when the endpoints differ. */
  predicate NoClash(max16: nat, min16: nat, index: seq<nat>)
  {
    max16 == min16 ==> forall i :: 0 <= i < |index| ==> index[i] != 3
  }

  function Same(k: nat): (index: seq<nat>)
    ensures |index| == 16
  {
    seq(16, _ => k)
  }

  lemma {:induction false} SameMask(n: nat, k: nat)
    ensures MaskOf(seq(n, _ => k)) == k * FivesValue(n)
  {
    if n > 0 {
      SameMask(n - 1, k);
      assert seq(n, _ => k)[1..] == seq(n - 1, _ => k);
    }
  }

  lemma SameMasks()
    ensures MaskOf(Same(0)) == 0 && MaskOf(Same(2)) == 0xaaaa_aaaa && MaskOf(Same(3)) == 0xffff_ffff
  {
    SameMask(16, 0);
    SameMask(16, 2);
    SameMask(16, 3);
    FivesFrom(16);
    Fives();
  }

  function Ascending(p: (nat, nat)): (nat, nat)
  {
    if p.1 < p.0 then (p.1, p.0) else p
  }

  /** The endpoints after j refinements. */
  function Pair(start: (nat, nat), o: Oracle, j: nat): (nat, nat)
    requires j <= |o.solved|
  {
    if j == 0 then start else Ascending(o.solved[j - 1])
  }

  /** The indices for given endpoints. */
  function Picked(block: seq<Pixel>, p: (nat, nat)): (index: seq<nat>)
    requires |block| == 16
  {
    if p.0 != p.1 then Indices4(block, p.0, p.1) else Same(0)
  }

  /** Refinement j is not the last: its endpoints differ, and some pixel gets another index than before. */
  predicate GoesOn(block: seq<Pixel>, start: (nat, nat), o: Oracle, j: nat)
    requires |block| == 16 && 1 <= j <= |o.solved|
  {
    && Pair(start, o, j).0 != Pair(start, o, j).1
    && Picked(block, Pair(start, o, j)) != Picked(block, Pair(start, o, j - 1))
  }

  /** The endpoints are those after k refinements, and k is the first one after which nothing goes on. */
  predicate RefinedTo(block: seq<Pixel>, start: (nat, nat), o: Oracle, count: nat, k: nat, c0: nat, c1: nat)
    requires |block| == 16 && count <= |o.solved|
  {
    && k <= count && (c0, c1) == Pair(start, o, k)
    && (forall j :: 1 <= j < k ==> GoesOn(block, start, o, j))
    && (k == count || (k >= 1 && !GoesOn(block, start, o, k)))
  }

  /** The opaque path ends with these endpoints: quantised extremes along the axis, or the endpoints of the last
      refinement. */
  ghost predicate OpaqueEnds(block: seq<Pixel>, o: Oracle, count: nat, c0: nat, c1: nat)
    requires IsBlock(block) && count <= |o.solved|
  {
    exists a, b, k :: ExtremeEnds(block, o.axis, a, b) && a <= b && RefinedTo(block, (a, b), o, count, k, c0, c1)
  }

  lemma MaskInjective(a: seq<nat>, b: seq<nat>)
    requires Indices(a) && Indices(b) && |a| == |b| && MaskOf(a) == MaskOf(b)
    ensures a == b
  {
    hide MaskOf, Digit;
    forall i | 0 <= i < |a| ensures a[i] == b[i] {
      DigitOfMask(a, i);
      DigitOfMask(b, i);
    }
  }

  /** The opaque path: endpoints along the axis, then refinement. Whenever the endpoints meet, all
      pixels get index 0. */
  method CompressOpaque(block: seq<Pixel>, refinecount: nat, o: Oracle)
    returns (max16: nat, min16: nat, mask: nat, ghost index: seq<nat>)
    requires IsBlock(block) && refinecount <= 2 && Plausible(o)
    ensures Holds(max16, min16, mask, index) && NoClash(max16, min16, index)
    ensures max16 <= min16 && OpaqueEnds(block, o, refinecount, max16, min16)
    ensures index == Picked(block, (max16, min16))
    ensures max16 != min16 ==> AllNearest(block, max16, min16, index)
  {
    hide Indices4, MaskOf, NearestOnLine, ExtremeEnds;
    SameMasks();
    max16, min16 := OptimizeColors(block, o.axis);
    ghost var start := (max16, min16);
    mask, index := 0, Same(0);
    if max16 != min16 {
      mask := MatchColors(block, max16, min16);
      index := Indices4(block, max16, min16);
    }
    var i := 0;
    ghost var k := 0;
    while i < refinecount
      invariant 0 <= i <= refinecount && k == i
      invariant Holds(max16, min16, mask, index) && max16 <= min16
      invariant (max16, min16) == Pair(start, o, i) && index == Picked(block, (max16, min16))
      invariant forall j :: 1 <= j <= i ==> GoesOn(block, start, o, j)
    {
      var lastmask := mask;
      ghost var lastindex := index;
      var changed;
      max16, min16, changed := Refine(max16, min16, o.solved[i].0, o.solved[i].1);
      k := i + 1;
      if changed {
        if max16 != min16 {
          mask := MatchColors(block, max16, min16);
          index := Indices4(block, max16, min16);
        } else {
          mask, index := 0, Same(0);
          break;
        }
      }
      if mask == lastmask {
        MaskInjective(index, lastindex);
        break;
      }
      i := i + 1;
    }
    assert RefinedTo(block, start, o, refinecount, k, max16, min16);
    MatchedNearest(block, max16, min16);
  }

  lemma MatchedNearest(block: seq<Pixel>, c0: nat, c1: nat)
    ensures forall i :: 0 <= i < |block| ==> NearestOnLine(block[i].color, c0, c1, Indices4(block, c0, c1)[i])
  {
    hide Stop4, Dot, From16Bit, Direction, Match4;
    forall i, k | 0 <= i < |block| && 0 <= k < 4
      ensures
        var dot := Dot(block[i].color, Direction(From16Bit(c0), From16Bit(c1)));
        Distance(dot, Stop4(c0, c1, Match4(c0, c1, dot))) <= Distance(dot, Stop4(c0, c1, k))
    {
      Match4Nearest(c0, c1, Dot(block[i].color, Direction(From16Bit(c0), From16Bit(c1))), k);
    }
  }

  /** The endpoints that are chosen, by the kind of the block. */
  ghost predicate Ends(block: seq<Pixel>, alpha: bool, highQuality: bool, o: Oracle, c0: nat, c1: nat)
    requires IsBlock(block) && Plausible(o)
  {
    if !Varied(block) then
      if alpha && block[0].alpha == 0 then c0 == 0 && c1 == 0xffff else c0 == o.singleMax && c1 == o.singleMin
    else if alpha then AlphaEnds(block, o.axis, c0, c1)
    else OpaqueEnds(block, o, if highQuality then 2 else 1, c0, c1)
  }

  /** stb__FinalizeColors: the larger endpoint comes first, and the pixels keep their colours. */
  method Finalize(block: seq<Pixel>, max16: nat, min16: nat, mask: nat, ghost index: seq<nat>)
    returns (c0: nat, c1: nat, mask': nat, ghost index': seq<nat>)
    requires |block| == 16 && Holds(max16, min16, mask, index)
    ensures Holds(c0, c1, mask', index') && c0 >= c1 && (c0 == c1 <==> max16 == min16)
    ensures max16 >= min16 ==> c0 == max16 && c1 == min16 && index' == index
    ensures max16 < min16 ==> c0 == min16 && c1 == max16 && forall i :: 0 <= i < 16 ==> index'[i] == Partner(index[i])
    ensures AllNearest(block, max16, min16, index) ==> AllNearest(block, c0, c1, index')
    ensures NoClash(max16, min16, index) ==> NoClash(c0, c1, index')
    ensures forall i :: 0 <= i < 16 ==>
      Entry(c0, c1, index'[i], false, true) == Entry(max16, min16, index[i], false, true)
  {
    hide Entry, MaskOf, NearestOnLine;
    c0, c1, mask', index' := max16, min16, mask, index;
    if max16 < min16 {
      c0, c1 := min16, max16;
      Fives();
      FlippedMask(index);
      mask' := Xor(mask, 0x5555_5555);
      index' := seq(16, i requires 0 <= i < 16 => Partner(index[i]));
      forall i | 0 <= i < 16
        ensures Entry(c0, c1, index'[i], false, true) == Entry(max16, min16, index[i], false, true)
      {
        EntrySwapped(max16, min16, index[i], false);
      }
      forall i | 0 <= i < 16 && NearestOnLine(block[i].color, max16, min16, index[i])
        ensures NearestOnLine(block[i].color, c0, c1, index'[i])
      {
        NearestReversed(block[i].color, max16, min16, index[i]);
      }
    }
  }

  /** Some pixel differs from the first. */
  predicate Varied(block: seq<Pixel>)
  {
    exists i :: 0 <= i < |block| && block[i] != block[0]
  }

  /** The whole compressor. Without alpha every pixel decodes opaque, and in a block of different pixels
      to the entry that is nearest on the line between the endpoints; with alpha exactly the pixels whose
      alpha is 0 decode transparent. This holds whatever the axis and the refinements were. */
  method Compress(block: seq<Pixel>, alpha: bool, highQuality: bool, o: Oracle) returns (dest: seq<Byte>)
    requires IsBlock(block) && Plausible(o)
    ensures |dest| == 8
    ensures !alpha ==> forall i :: 0 <= i < 16 ==> Decoded(dest, i, true, false).alpha == OPAQUE
    ensures !alpha && Varied(block) && Word(dest, 0) != Word(dest, 2) ==>
      forall i :: 0 <= i < 16 ==> NearestOnLine(block[i].color, Word(dest, 0), Word(dest, 2), Digit(Mask(dest), i))
    ensures alpha ==> forall i :: 0 <= i < 16 ==>
      Decoded(dest, i, true, false).alpha == if block[i].alpha == 0 then 0 else OPAQUE
    ensures exists c0, c1 :: Ends(block, alpha, highQuality, o, c0, c1) && Written(dest, block, alpha, c0, c1)
  {
    hide Holds, NoClash, BlockBytes, Decoded, AllNearest, Transparency, Word, Mask, Digit, Ends, Choice;
    var max16, min16, mask;
    ghost var index;
    max16, min16, mask, index := Choose(block, alpha, highQuality, o);
    ghost var c0, c1 := max16, min16;
    if !alpha {
      max16, min16, mask, index := Finalize(block, max16, min16, mask, index);
    }
    dest := BlockBytes(max16, min16, mask);
    BlockDecodes(block, max16, min16, mask, index);
    assert Ends(block, alpha, highQuality, o, c0, c1) && Written(dest, block, alpha, c0, c1);
  }

  /** The indices that are chosen for given endpoints. */
  function Choice(block: seq<Pixel>, alpha: bool, c0: nat, c1: nat): (index: seq<nat>)
    requires |block| == 16
    ensures |index| == 16 && Indices(index)
  {
    if !Varied(block) then Same(if alpha && block[0].alpha == 0 then 3 else 2)
    else if alpha then Indices3(block, c0, c1)
    else Picked(block, (c0, c1))
  }

  /** The bytes hold the endpoints and indices; without alpha the larger endpoint comes first, and if that exchanges
      them the indices are exchanged as well. */
  ghost predicate Written(dest: seq<Byte>, block: seq<Pixel>, alpha: bool, c0: nat, c1: nat)
    requires |block| == 16 && |dest| == 8
  {
    var index := Choice(block, alpha, c0, c1);
    if alpha || c0 >= c1 then
      Word(dest, 0) == c0 && Word(dest, 2) == c1 && forall i :: 0 <= i < 16 ==> Digit(Mask(dest), i) == index[i]
    else
      && Word(dest, 0) == c1 && Word(dest, 2) == c0
      && forall i :: 0 <= i < 16 ==> Digit(Mask(dest), i) == Partner(index[i])
  }

  ghost predicate AllNearest(block: seq<Pixel>, c0: nat, c1: nat, index: seq<nat>)
  {
    && |index| == |block| == 16 && Indices(index)
    && forall i :: 0 <= i < 16 ==> NearestOnLine(block[i].color, c0, c1, index[i])
  }

  /** Index 3 marks exactly the transparent pixels, and the endpoints say so. */
  ghost predicate Transparency(block: seq<Pixel>, c0: nat, c1: nat, index: seq<nat>)
  {
    && |index| == |block| == 16
    && forall i :: 0 <= i < 16 ==> if block[i].alpha == 0 then c0 <= c1 && index[i] == 3 else index[i] != 3
  }

  /** Endpoints and indices, by the kind of the block. */
  method Choose(block: seq<Pixel>, alpha: bool, highQuality: bool, o: Oracle)
    returns (max16: nat, min16: nat, mask: nat, ghost index: seq<nat>)
    requires IsBlock(block) && Plausible(o)
    ensures Holds(max16, min16, mask, index)
    ensures !alpha ==> NoClash(max16, min16, index)
    ensures !alpha && Varied(block) && max16 != min16 ==> AllNearest(block, max16, min16, index)
    ensures alpha ==> Transparency(block, max16, min16, index)
    ensures Ends(block, alpha, highQuality, o, max16, min16) && index == Choice(block, alpha, max16, min16)
  {
    hide AlphaEnds, OpaqueEnds, Picked;
    hide MaskOf, Indices3, Indices4, NearestOnLine, IsColor;
    SameMasks();
    var i := 1;
    while i < 16 && block[i] == block[0]
      invariant 1 <= i <= 16 && forall k :: 1 <= k < i ==> block[k] == block[0]
    {
      i := i + 1;
    }
    if i == 16 && block[0].alpha == 0 && alpha {
      max16, min16, mask, index := 0, 0xffff, 0xffff_ffff, Same(3);
    } else if i == 16 {
      max16, min16, mask, index := o.singleMax, o.singleMin, 0xaaaa_aaaa, Same(2);
    } else if alpha {
      max16, min16 := OptimizeColorsAlpha(block, o.axis);
      mask := MatchColorsAlpha(block, max16, min16);
      index := Indices3(block, max16, min16);
      TransparentIndices(block, max16, min16);
    } else {
      max16, min16, mask, index := CompressOpaque(block, if highQuality then 2 else 1, o);
    }
  }

  /** What the written block decodes to. */
  lemma BlockDecodes(block: seq<Pixel>, c0: nat, c1: nat, mask: nat, index: seq<nat>)
    requires |block| == 16 && Holds(c0, c1, mask, index)
    ensures
      var dest := BlockBytes(c0, c1, mask);
      && Word(dest, 0) == c0 && Word(dest, 2) == c1 && (forall i :: 0 <= i < 16 ==> Digit(Mask(dest), i) == index[i])
      && (c0 >= c1 && NoClash(c0, c1, index) ==>
           forall i :: 0 <= i < 16 ==> Decoded(dest, i, true, false).alpha == OPAQUE)
      && (AllNearest(block, c0, c1, index) ==> forall i :: 0 <= i < 16 ==>
           NearestOnLine(block[i].color, c0, c1, Digit(Mask(dest), i)))
      && (Transparency(block, c0, c1, index) ==> forall i :: 0 <= i < 16 ==>
           Decoded(dest, i, true, false).alpha == if block[i].alpha == 0 then 0 else OPAQUE)
  {
    hide MaskOf, NearestOnLine, BlockBytes, Decoded, Word, Mask, Digit;
    DecodedAlphas(c0, c1, mask, index);
  }

  lemma TransparentIndices(block: seq<Pixel>, c0: nat, c1: nat)
    requires |block| == 16
    ensures forall i :: 0 <= i < 16 ==> (Indices3(block, c0, c1)[i] == 3 <==> block[i].alpha == 0)
  {
    hide From16Bit, Dot, Direction, Stop3;
  }

  /** A pixel decodes transparent exactly when its index is 3 and the first endpoint is not larger. */
  lemma DecodedAlphas(c0: nat, c1: nat, mask: nat, index: seq<nat>)
    requires Holds(c0, c1, mask, index)
    ensures forall i :: 0 <= i < 16 ==>
      Decoded(BlockBytes(c0, c1, mask), i, true, false).alpha == if index[i] == 3 && c0 <= c1 then 0 else OPAQUE
    ensures
      var dest := BlockBytes(c0, c1, mask);
      Word(dest, 0) == c0 && Word(dest, 2) == c1 && forall i :: 0 <= i < 16 ==> Digit(Mask(dest), i) == index[i]
  {
    hide MaskOf, Entry, BlockBytes, Digit, Mask;
    MaskBound(index);
    Pow2Values();
    BlockBytesRead(c0, c1, mask);
    forall i | 0 <= i < 16
      ensures Digit(mask, i) == index[i]
      ensures Decoded(BlockBytes(c0, c1, mask), i, true, false).alpha == if index[i] == 3 && c0 <= c1 then 0 else OPAQUE
    {
      DigitOfMask(index, i);
      EntryAlpha(c0, c1, index[i], true, false);
    }
  }
}
