/** BC1 colour blocks: what bc_decoder makes of them, and the palettes that stb_dxt compares with. */
module ColorFormat {
  import opened BitStrings

  datatype Rgb = Rgb(r: int, g: int, b: int)

  /** A decoded colour; alpha is kept in the sign byte of a 32-bit integer. */
  datatype Texel = Texel(color: Rgb, alpha: int)

  /** 0xFF000000 as a signed integer. */
  const OPAQUE := -0x100_0000

  // ---------------------------------------------------------------------------
  // The decoder: BC_color

  /** extract565: the high bits of every channel are repeated below it. */
  function Extract565(c: nat): Texel
  {
    var r, g, b := c / 2048 % 32, c / 32 % 64, c % 32;
    Texel(Rgb(8 * r + r / 4, 4 * g + g / 16, 8 * b + b / 4), OPAQUE)
  }

  function Add(a: Texel, b: Texel): Texel
  {
    Texel(Rgb(a.color.r + b.color.r, a.color.g + b.color.g, a.color.b + b.color.b), a.alpha + b.alpha)
  }

  /** Division truncates; only the alpha component is negative. */
  function Divide(a: Texel, n: int): Texel
    requires n > 0
  {
    Texel(Rgb(a.color.r / n, a.color.g / n, a.color.b / n), if a.alpha < 0 then -(-a.alpha / n) else a.alpha / n)
  }

  /** Entry k of the palette. */
  function Entry(c0: nat, c1: nat, k: nat, hasAlpha: bool, separateAlpha: bool): (t: Texel)
    requires k < 4
  {
    var a, b := Extract565(c0), Extract565(c1);
    if k == 0 then a
    else if k == 1 then b
    else if separateAlpha || c0 > c1 then
      if k == 2 then Divide(Add(Add(a, a), b), 3) else Divide(Add(Add(b, b), a), 3)
    else if k == 2 then Divide(Add(a, b), 2)
    else Texel(Rgb(0, 0, 0), if hasAlpha then 0 else OPAQUE)
  }

  /** Only the last entry is ever transparent, and only in the three-colour mode of BC1. */
  lemma EntryAlpha(c0: nat, c1: nat, k: nat, hasAlpha: bool, separateAlpha: bool)
    requires k < 4
    ensures Entry(c0, c1, k, hasAlpha, separateAlpha).alpha
      == if k == 3 && c0 <= c1 && hasAlpha && !separateAlpha then 0 else OPAQUE
  {
  }

  /** Exchanging different endpoints exchanges the entries 0 and 1, and 2 and 3, in four-colour mode. */
  lemma EntrySwapped(c0: nat, c1: nat, k: nat, hasAlpha: bool)
    requires k < 4
    ensures Entry(c0, c1, k, hasAlpha, true) == Entry(c1, c0, Partner(k), hasAlpha, true)
  {
    hide Extract565, Divide, Add;
  }

  // ---------------------------------------------------------------------------
  // Indices: two bits for every pixel

  function MaskOf(index: seq<nat>): nat
  {
    if index == [] then 0 else index[0] + 4 * MaskOf(index[1..])
  }

  /** getIdx. */
  function Digit(mask: nat, i: nat): (k: nat)
    ensures k < 4
  {
    LowTwo(Shr(mask, 2 * i));
    Low(Shr(mask, 2 * i), 2)
  }

  lemma LowTwo(x: nat)
    ensures Low(x, 2) < 4
  {
    LowHigh(x, 2);
    assert Pow2(2) == 4;
  }

  predicate Indices(index: seq<nat>)
  {
    forall i :: 0 <= i < |index| ==> index[i] < 4
  }

  lemma ShrNone(x: nat)
    ensures Shr(x, 0) == x
  {
  }

  /** The lowest digit of a mask and the rest. */
  lemma FirstDigit(k: nat, m: nat)
    requires k < 4
    ensures Low(k + 4 * m, 2) == k && Shr(k + 4 * m, 2) == m
  {
    var x := k + 4 * m;
    assert Low(x, 2) == x % 2 + 2 * Low(x / 2, 1) && Low(x / 2, 1) == x / 2 % 2 + 2 * Low(x / 2 / 2, 0);
    assert Shr(x, 2) == Shr(x / 2, 1) && Shr(x / 2, 1) == Shr(x / 2 / 2, 0);
    assert x / 2 == k / 2 + 2 * m && x / 2 / 2 == m;
  }

  lemma {:induction false} DigitOfMask(index: seq<nat>, i: nat)
    requires Indices(index) && i < |index|
    ensures Digit(MaskOf(index), i) == index[i]
  {
    hide Shr, Low;
    var m := MaskOf(index[1..]);
    FirstDigit(index[0], m);
    if i > 0 {
      DigitOfMask(index[1..], i - 1);
      ShrShr(index[0] + 4 * m, 2, 2 * (i - 1));
    } else {
      ShrNone(index[0] + 4 * m);
    }
  }

  lemma {:induction false} MaskBound(index: seq<nat>)
    requires Indices(index)
    ensures MaskOf(index) < Pow2(2 * |index|)
  {
    if index != [] { MaskBound(index[1..]); }
  }

  /** An index with its low bit inverted. */
  function Partner(k: nat): (r: nat)
    requires k < 4
    ensures r < 4
  {
    if k % 2 == 0 then k + 1 else k - 1
  }

  /** Inverting the even bits of the mask gives every pixel its partner. */
  lemma {:induction false} FlippedMask(index: seq<nat>)
    requires Indices(index)
    ensures Xor(MaskOf(index), MaskOf(seq(|index|, _ => 1)))
         == MaskOf(seq(|index|, i requires 0 <= i < |index| => Partner(index[i])))
  {
    hide Xor, Partner;
    if index != [] {
      var n := |index| - 1;
      var rest, x := index[1..], index[0];
      FlippedMask(rest);
      var ones, flipped := seq(n + 1, _ => 1), seq(n + 1, i requires 0 <= i < n + 1 => Partner(index[i]));
      assert ones[1..] == seq(n, _ => 1);
      assert flipped[1..] == seq(n, i requires 0 <= i < n => Partner(rest[i]));
      assert ones[0] == 1 && flipped[0] == Partner(x);
      XorDigit(x, MaskOf(rest), MaskOf(ones[1..]));
    } else {
      XorNothing();
    }
  }

  lemma XorNothing()
    ensures Xor(0, 0) == 0
  {
  }

  lemma XorDigit(x: nat, m: nat, o: nat)
    requires x < 4
    ensures Xor(x + 4 * m, 1 + 4 * o) == Partner(x) + 4 * Xor(m, o)
  {
    assert (x + 4 * m) / 2 == x / 2 + 2 * m && (1 + 4 * o) / 2 == 2 * o;
    assert (x / 2 + 2 * m) / 2 == m && (2 * o) / 2 == o;
    XorZero(m, o);
  }

  lemma XorZero(m: nat, o: nat)
    ensures m == 0 && o == 0 ==> Xor(m, o) == 0
  {
  }

  lemma Fives()
    ensures MaskOf(seq(16, _ => 1)) == 0x5555_5555
  {
    FivesFrom(16);
    assert FivesValue(4) == 0x55;
    assert FivesValue(8) == 0x5555;
    assert FivesValue(12) == 0x55_5555;
  }

  function FivesValue(n: nat): nat { if n == 0 then 0 else 1 + 4 * FivesValue(n - 1) }

  lemma {:induction false} FivesFrom(n: nat)
    ensures MaskOf(seq(n, _ => 1)) == FivesValue(n)
  {
    if n > 0 {
      FivesFrom(n - 1);
      assert seq(n, _ => 1)[1..] == seq(n - 1, _ => 1);
    }
  }

  // ---------------------------------------------------------------------------
  // Blocks of eight bytes

  function Word(block: seq<Byte>, k: nat): nat
    requires k + 2 <= |block|
  {
    block[k] as int + 256 * block[k + 1] as int
  }

  function Mask(block: seq<Byte>): nat
    requires |block| == 8
  {
    block[4] as int + 0x100 * block[5] as int + 0x1_0000 * block[6] as int + 0x100_0000 * block[7] as int
  }

  /** Pixel i of a decoded block. */
  function Decoded(block: seq<Byte>, i: nat, hasAlpha: bool, separateAlpha: bool): Texel
    requires |block| == 8
  {
    Entry(Word(block, 0), Word(block, 2), Digit(Mask(block), i), hasAlpha, separateAlpha)
  }

  function BlockBytes(c0: nat, c1: nat, mask: nat): (block: seq<Byte>)
    ensures |block| == 8
  {
    [c0 % 256, c0 / 256 % 256, c1 % 256, c1 / 256 % 256,
     mask % 256, mask / 0x100 % 256, mask / 0x1_0000 % 256, mask / 0x100_0000 % 256]
  }

  lemma BlockBytesRead(c0: nat, c1: nat, mask: nat)
    requires c0 < 0x1_0000 && c1 < 0x1_0000 && mask < 0x1_0000_0000
    ensures var block := BlockBytes(c0, c1, mask); Word(block, 0) == c0 && Word(block, 2) == c1 && Mask(block) == mask
  {
    FourBytes(mask);
  }

  lemma FourBytes(m: nat)
    requires m < 0x1_0000_0000
    ensures m == m % 256 + 0x100 * (m / 0x100 % 256)
      + 0x1_0000 * (m / 0x1_0000 % 256) + 0x100_0000 * (m / 0x100_0000 % 256)
  {
    var a, b, c := m / 0x100, m / 0x1_0000, m / 0x100_0000;
    assert b == a / 256 && c == b / 256;
  }
}
