/** The entropy-coded form of a block of quantised coefficients (sections F.1.2 and F.2.2 of
    ITU-T T.81), as a plain decoder without acceleration tables and as the bits of a block. */
module JpegFormat {
  import opened BitStrings
  import opened Canonical
  import opened JpegHuffman
  import opened JpegZigZag

  // ---------------------------------------------------------------------------
  // Signed values

  /** The number of bits of a magnitude. */
  function Size(a: nat): (n: nat)
  {
    if a == 0 then 0 else 1 + Size(a / 2)
  }

  /** The bits that follow the size category of v: v itself, or its one's complement when negative. */
  function ValueBits(v: int): (s: seq<bool>)
  {
    if v >= 0 then MsbBits(v, Size(v)) else
      SizePow(-v);
      MsbBits(Pow2(Size(-v)) - 1 + v, Size(-v))
  }

  function Magnitude(v: int): nat { if v < 0 then -v else v }

  /** Receive-and-extend: the value that a bit string stands for. */
  function Extend(s: seq<bool>): (v: int)
  {
    if s == [] then 0
    else if s[0] then MsbVal(s)
    else MsbVal(s) - (Pow2(|s|) - 1)
  }

  lemma {:induction false} SizePow(a: nat)
    ensures a < Pow2(Size(a))
    ensures a > 0 ==> Pow2(Size(a) - 1) <= a
  {
    if a > 0 { SizePow(a / 2); }
  }

  /** A bit string starts with a one exactly when it is in the upper half. */
  lemma {:induction false} TopBit(s: seq<bool>)
    requires s != []
    ensures s[0] <==> MsbVal(s) >= Pow2(|s| - 1)
  {
    if |s| > 1 {
      TopBit(s[..|s| - 1]);
    }
  }

  lemma ExtendValue(v: int)
    requires v != 0
    ensures |ValueBits(v)| == Size(Magnitude(v)) > 0
    ensures Extend(ValueBits(v)) == v
  {
    var n := Size(Magnitude(v));
    SizePow(Magnitude(v));
    var u := if v >= 0 then v else Pow2(n) - 1 + v;
    MsbValBits(u, n);
    TopBit(MsbBits(u, n));
  }

  // ---------------------------------------------------------------------------
  // A plain decoder

  /** A declared Huffman table: code lengths in code order and the symbols they stand for. */
  datatype Table = Table(lens: seq<nat>, values: seq<Byte>)

  predicate Declared(t: Table)
  {
    Sorted(t.lens) && AtMost(t.lens, 16) && Kraft(t.lens, 16) && |t.lens| <= 256 && |t.values| == 256
  }

  /** What reading at a bit position gives. Truncated means that the data end before the item does. */
  datatype Read<T> = Got(value: T, next: nat) | Corrupt | Truncated

  ghost predicate CodeAt(lens: seq<nat>, m: seq<Byte>, p: nat, i: nat)
  {
    i < |lens| && lens[i] > 0 && At(m, p, CodeBits(lens, i))
  }

  /** A symbol and the length of its code. */
  datatype Sym = Sym(value: Byte, length: nat) | NoSym

  /** The symbol whose code stands at bit p of the data and the zeros after them. */
  ghost function SymbolAt(t: Table, m: seq<Byte>, p: nat): Sym
    requires Declared(t)
  {
    if exists i :: CodeAt(t.lens, m, p, i) then
      var i: nat :| CodeAt(t.lens, m, p, i);
      Sym(t.values[i], t.lens[i])
    else NoSym
  }

  /** The symbol at bit p, as far as the data determine it. */
  ghost function ReadSymbol(t: Table, m: seq<Byte>, p: nat): Read<Byte>
    requires Declared(t)
  {
    match SymbolAt(t, m, p)
    case Sym(v, n) => if p + n <= 8 * |m| then Got(v, p + n) else Truncated
    case NoSym => if p + 16 <= 8 * |m| then Corrupt else Truncated
  }

  /** At most one code stands at p. */
  lemma SymbolIndex(t: Table, m: seq<Byte>, p: nat, i: nat)
    requires Declared(t) && CodeAt(t.lens, m, p, i)
    ensures SymbolAt(t, m, p) == Sym(t.values[i], t.lens[i])
  {
    forall k: nat | CodeAt(t.lens, m, p, k) ensures k == i {
      if t.lens[i] <= t.lens[k] {
        AtPrefix(m, p, CodeBits(t.lens, i), CodeBits(t.lens, k));
        PrefixFree(t.lens, i, k, 16);
      } else {
        AtPrefix(m, p, CodeBits(t.lens, k), CodeBits(t.lens, i));
        PrefixFree(t.lens, k, i, 16);
      }
    }
  }

  /** A signed value of n bits. */
  function ReadValue(m: seq<Byte>, p: nat, n: nat): Read<int>
  {
    if p + n <= 8 * |m| then Got(Extend(Stream(m, p, n)), p + n) else Truncated
  }

  /** Conversion to a 16-bit signed integer. */
  function ToShort(x: int): (r: int)
    ensures -0x8000 <= r < 0x8000
    ensures -0x8000 <= x < 0x8000 ==> r == x
  {
    (x + 0x8000) % 0x10000 - 0x8000
  }

  /** The coefficients from place k on, stored dequantised into data. */
  ghost function ReadAc(t: Table, m: seq<Byte>, p: nat, k: nat, data: seq<int>, dequant: seq<int>): Read<seq<int>>
    requires Declared(t) && k < 64 && |data| == 64 && |dequant| == 64
    decreases 64 - k
  {
    match ReadSymbol(t, m, p)
    case Corrupt => Corrupt
    case Truncated => Truncated
    case Got(rs, q) =>
      if rs % 16 == 0 then
        if rs != 0xf0 || k + 16 >= 64 then Got(data, q) else ReadAc(t, m, q, k + 16, data, dequant)
      else
        match ReadValue(m, q, rs % 16)
        case Corrupt => Corrupt
        case Truncated => Truncated
        case Got(v, e) =>
          var zig := DeZigZag(k + rs / 16);
          var next := data[zig := ToShort(v * dequant[zig])];
          if k + rs / 16 + 1 >= 64 then Got(next, e) else ReadAc(t, m, e, k + rs / 16 + 1, next, dequant)
  }

  /** A stored coefficient is a 16-bit number that differs from the exact one by a multiple of 65536. */
  lemma ToShortWraps(x: int)
    ensures -32768 <= ToShort(x) <= 32767 && (x - ToShort(x)) % 65536 == 0
  {
    assert x - ToShort(x) == 65536 * ((x + 32768) / 65536);
  }

  /** stbi__addints_valid on two 32-bit signed integers. */
  predicate AddValid(a: int, b: int)
  {
    if (a >= 0) != (b >= 0) then true
    else if a < 0 && b < 0 then a >= -0x8000_0000 - b
    else a <= 0x7fff_ffff - b
  }

  /** It says whether the sum is a 32-bit signed integer. */
  lemma AddValidExact(a: int, b: int)
    requires -0x8000_0000 <= a <= 0x7fff_ffff && -0x8000_0000 <= b <= 0x7fff_ffff
    ensures AddValid(a, b) <==> -0x8000_0000 <= a + b <= 0x7fff_ffff
  {
  }

  /** C division, which truncates toward zero. */
  function Quotient(a: int, b: int): int
    requires b != 0
  {
    if a >= 0 then (if b > 0 then a / b else -(a / -b))
    else (if b > 0 then -(-a / b) else -a / -b)
  }

  /** stbi__mul2shorts_valid on two 16-bit signed integers. */
  predicate MulValid(a: int, b: int)
  {
    if b == 0 || b == -1 then true
    else if (a >= 0) == (b >= 0) then a <= Quotient(0x7fff, b)
    else if b < 0 then a <= Quotient(-0x8000, b)
    else a >= Quotient(-0x8000, b)
  }

  lemma MulCompare(a: nat, b: nat, m: nat)
    requires b > 0
    ensures a <= m / b <==> a * b <= m
  {
    if a <= m / b {
      calc { a * b; <= { MulMono(a, m / b, b); } (m / b) * b; <= m; }
    } else {
      calc { a * b; >= { MulMono(m / b + 1, a, b); } (m / b + 1) * b; > m; }
    }
  }

  lemma MulMono(x: nat, y: nat, b: nat)
    requires x <= y
    ensures x * b <= y * b
  {
  }

  /** stbi__mul2shorts_valid is exact unless both factors are negative; then its comparison points
      the wrong way. */
  lemma MulValidExact(a: int, b: int)
    requires -0x8000 <= a < 0x8000 && -0x8000 <= b < 0x8000
    ensures (MulValid(a, b) <==> -0x8000 <= a * b < 0x8000)
       <==> !(a < 0 && b < 0) || (if b == -1 then a != -0x8000 else -a == 0x7fff / -b)
  {
    var x, y := Magnitude(a), Magnitude(b);
    SignedProduct(a, b);
    if b != 0 {
      MulCompare(x, y, 0x7fff);
      MulCompare(x, y, 0x8000);
      MulExactCases(a, b, x, y, a * b, x * y);
    }
  }

  /** The product 2 is refused and the product 65536 is accepted. */
  lemma MulValidWrong()
    ensures !MulValid(-1, -2) && MulValid(-0x8000, -2)
  {
  }

  lemma SignedProduct(a: int, b: int)
    ensures a * b == if (a < 0) == (b < 0) then Magnitude(a) * Magnitude(b) else -(Magnitude(a) * Magnitude(b))
    ensures Magnitude(a) * Magnitude(b) >= 0
    ensures b == -1 ==> Magnitude(a) * Magnitude(b) == Magnitude(a)
    ensures b == 0 ==> a * b == 0
  {
  }

  lemma MulExactCases(a: int, b: int, x: nat, y: nat, ab: int, xy: int)
    requires -0x8000 <= a < 0x8000 && -0x8000 <= b < 0x8000 && b != 0
    requires x == Magnitude(a) && y == Magnitude(b) && 0 <= xy && (b == -1 ==> xy == x)
    requires ab == if (a < 0) == (b < 0) then xy else -xy
    requires x <= 0x7fff / y <==> xy <= 0x7fff
    requires x <= 0x8000 / y <==> xy <= 0x8000
    ensures (MulValid(a, b) <==> -0x8000 <= ab < 0x8000)
       <==> !(a < 0 && b < 0) || (if b == -1 then a != -0x8000 else -a == 0x7fff / -b)
  {
  }

  /** The new DC coefficient: a difference to the prediction. */
  ghost function ReadDc(dc: Table, m: seq<Byte>, p: nat, pred: int, scale: int): Read<int>
    requires Declared(dc)
  {
    match ReadSymbol(dc, m, p)
    case Corrupt => Corrupt
    case Truncated => Truncated
    case Got(t, q) =>
      if t > 15 then Corrupt else
      match ReadValue(m, q, t)
      case Corrupt => Corrupt
      case Truncated => Truncated
      case Got(diff, e) =>
        if !AddValid(pred, diff) || !MulValid(ToShort(pred + diff), ToShort(scale)) then Corrupt
        else Got(pred + diff, e)
  }

  /** A block that holds only its DC coefficient. */
  function DcOnly(dc: int, scale: int): (block: seq<int>)
    ensures |block| == 64
  {
    seq(64, _ => 0)[0 := ToShort(dc * scale)]
  }

  /** One block: the DC coefficient, then the others. Gives the dequantised coefficients in
      row-major order and the new DC prediction. */
  ghost function ReadBlock(
      dc: Table, ac: Table, m: seq<Byte>, p: nat, pred: int, dequant: seq<int>): Read<(seq<int>, int)>
    requires Declared(dc) && Declared(ac) && |dequant| == 64
  {
    match ReadDc(dc, m, p, pred, dequant[0])
    case Corrupt => Corrupt
    case Truncated => Truncated
    case Got(d, e) =>
      match ReadAc(ac, m, e, 1, DcOnly(d, dequant[0]), dequant)
      case Corrupt => Corrupt
      case Truncated => Truncated
      case Got(block, next) => Got((block, d), next)
  }

  /** The tables of a component. */
  datatype Coding = Coding(dc: Table, ac: Table, dequant: seq<int>)

  predicate GoodCoding(c: Coding)
  {
    Declared(c.dc) && Declared(c.ac) && |c.dequant| == 64
  }

  /** Components are numbered from 0 to 3. */
  predicate GoodCodings(codings: seq<Coding>)
  {
    |codings| == 4 && forall c :: 0 <= c < 4 ==> GoodCoding(codings[c])
  }

  /** The blocks of a scan, whose components come in the given order, and the last prediction of
      every component. */
  ghost function ReadScan(codings: seq<Coding>, m: seq<Byte>, order: seq<nat>): (r: Read<(seq<seq<int>>, seq<int>)>)
    requires GoodCodings(codings) && forall k :: 0 <= k < |order| ==> order[k] < 4
    ensures r.Got? ==> |r.value.0| == |order| && |r.value.1| == 4
  {
    if order == [] then Got(([], [0, 0, 0, 0]), 0) else
    var n := |order| - 1;
    assert forall k :: 0 <= k < n ==> order[..n][k] == order[k];
    match ReadScan(codings, m, order[..n])
    case Corrupt => Corrupt
    case Truncated => Truncated
    case Got(sofar, p) =>
      var c := order[n];
      match ReadBlock(codings[c].dc, codings[c].ac, m, p, sofar.1[c], codings[c].dequant)
      case Corrupt => Corrupt
      case Truncated => Truncated
      case Got(block, q) => Got((sofar.0 + [block.0], sofar.1[c := block.1]), q)
  }
}
