/** The bits of a block, and that the plain decoder reads them back. */
module JpegBlock {
  import opened BitStrings
  import opened Canonical
  import opened JpegHuffman
  import opened JpegZigZag
  import opened JpegFormat

  /** The code words of the 256 symbols; an unused symbol has the empty word. */
  type Codebook = b: seq<seq<bool>> | |b| == 256 witness seq(256, _ => [])

  /** The words are the canonical codes of the declared table. */
  predicate Agrees(book: Codebook, t: Table)
    requires Declared(t)
  {
    forall v :: 0 <= v < 256 && book[v] != [] ==>
      exists i :: 0 <= i < |t.lens| && t.values[i] == v && Word(t, i) == book[v]
  }

  function Word(t: Table, i: nat): seq<bool>
    requires Declared(t) && i < |t.lens|
  {
    CodeBits(t.lens, i)
  }

  /** The symbol of a run of r zeros before a value of n bits. */
  function RunSize(r: nat, n: nat): (rs: nat)
    requires r < 16 && n < 16
    ensures rs < 256 && rs / 16 == r && rs % 16 == n
  {
    16 * r + n
  }

  /** Words for every run of at most 15 zeros and size of at most 10 bits, for the end of the block
      and for 16 zeros. */
  predicate AcComplete(book: Codebook)
  {
    book[0] != [] && book[0xf0] != [] && forall r, n :: 0 <= r < 16 && 1 <= n <= 10 ==> book[RunSize(r, n)] != []
  }

  /** Words for the sizes 0 to 11. */
  predicate DcComplete(book: Codebook)
  {
    forall n :: 0 <= n < 12 ==> book[n] != []
  }

  /** The first place from k on that holds a nonzero coefficient, or the end of the block. */
  function NextNonzero(du: seq<int>, k: nat): (n: nat)
    requires k <= |du|
    ensures k <= n <= |du| && (n < |du| ==> du[n] != 0)
    ensures forall i :: k <= i < n ==> du[i] == 0
    decreases |du| - k
  {
    if k < |du| && du[k] == 0 then NextNonzero(du, k + 1) else k
  }

  /** Coefficients of at most 10 bits. */
  predicate AcRange(du: seq<int>)
  {
    |du| == 64 && forall i :: 1 <= i < 64 ==> -1024 < du[i] < 1024
  }

  lemma SizeRange(v: int, n: nat)
    requires Magnitude(v) < Pow2(n)
    ensures Size(Magnitude(v)) <= n
  {
    SizePow(Magnitude(v));
    var z := Size(Magnitude(v));
    if z > n { Pow2Mono(n, z - 1); }
  }

  lemma AcSize(du: seq<int>, i: nat)
    requires AcRange(du) && 1 <= i < 64
    ensures Size(Magnitude(du[i])) <= 10
  {
    assert Pow2(10) == 1024;
    SizeRange(du[i], 10);
  }

  /** The bits of the coefficients from place k on: sixteen zeros, or a run of fewer zeros and a
      value, or the end-of-block word when only zeros are left. */
  function AcBits(book: Codebook, du: seq<int>, k: nat): (s: seq<bool>)
    requires AcRange(du) && 1 <= k <= 64
    decreases 64 - k
  {
    var n := NextNonzero(du, k);
    if k == 64 then []
    else if n == 64 then book[0]
    else if n - k >= 16 then book[0xf0] + AcBits(book, du, k + 16)
    else
      AcSize(du, n);
      book[RunSize(n - k, Size(Magnitude(du[n])))] + (ValueBits(du[n]) + AcBits(book, du, n + 1))
  }

  /** The row-major dequantised block of the coefficients before place k. */
  function Dequantised(du: seq<int>, dequant: seq<int>, k: nat): (data: seq<int>)
    requires |du| == 64 && |dequant| == 64
    ensures |data| == 64
  {
    seq(64, j requires 0 <= j < 64 => if ZigZag(j) < k then ToShort(du[ZigZag(j)] * dequant[j]) else 0)
  }

  lemma DequantisedStep(du: seq<int>, dequant: seq<int>, k: nat, n: nat)
    requires |du| == 64 && |dequant| == 64 && k <= n < 64
    requires forall i :: k <= i < n ==> du[i] == 0
    ensures Dequantised(du, dequant, k)[DeZigZag(n) := ToShort(du[n] * dequant[DeZigZag(n)])]
         == Dequantised(du, dequant, n + 1)
  {
    hide ZigZag, DeZigZag, ToShort;
    Inverse(n);
    ToShortZero();
    forall j | 0 <= j < 64 ensures ZigZag(j) == n <==> j == DeZigZag(n) { Inverse(j); }
    assert forall j :: 0 <= j < 64 && k <= ZigZag(j) < n ==> du[ZigZag(j)] * dequant[j] == 0;
  }

  lemma ToShortZero()
    ensures ToShort(0) == 0
  {
  }

  lemma DequantisedSkip(du: seq<int>, dequant: seq<int>, k: nat, n: nat)
    requires |du| == 64 && |dequant| == 64 && k <= n <= 64
    requires forall i :: k <= i < n ==> du[i] == 0
    ensures Dequantised(du, dequant, k) == Dequantised(du, dequant, n)
  {
    hide ZigZag, ToShort;
    ToShortZero();
    assert forall j :: 0 <= j < 64 && k <= ZigZag(j) < n ==> du[ZigZag(j)] * dequant[j] == 0;
  }

  // ---------------------------------------------------------------------------
  // Reading back

  /** A code word standing at p is the symbol read there. */
  lemma ReadWord(book: Codebook, t: Table, m: seq<Byte>, p: nat, v: nat)
    requires Declared(t) && Agrees(book, t) && v < 256 && book[v] != []
    requires At(m, p, book[v]) && p + |book[v]| <= 8 * |m|
    ensures ReadSymbol(t, m, p) == Got(v, p + |book[v]|)
  {
    var i :| 0 <= i < |t.lens| && t.values[i] == v && Word(t, i) == book[v];
    assert CodeAt(t.lens, m, p, i);
    SymbolIndex(t, m, p, i);
  }

  lemma ReadValueBack(m: seq<Byte>, p: nat, v: int)
    requires v != 0 && At(m, p, ValueBits(v)) && p + |ValueBits(v)| <= 8 * |m|
    ensures ReadValue(m, p, Size(Magnitude(v))) == Got(v, p + |ValueBits(v)|)
  {
    ExtendValue(v);
  }

  /** The bits from place k on, when the next nonzero coefficient is at n. */
  lemma AcBitsCases(book: Codebook, du: seq<int>, k: nat, n: nat)
    requires AcRange(du) && 1 <= k < 64 && n == NextNonzero(du, k)
    ensures n == 64 ==> AcBits(book, du, k) == book[0]
    ensures n < 64 && n - k >= 16 ==> AcBits(book, du, k) == book[0xf0] + AcBits(book, du, k + 16)
    ensures n < 64 && n - k < 16 ==>
      && Size(Magnitude(du[n])) <= 10
      && AcBits(book, du, k)
         == book[RunSize(n - k, Size(Magnitude(du[n])))] + (ValueBits(du[n]) + AcBits(book, du, n + 1))
  {
    hide NextNonzero, ValueBits, Size;
    if n < 64 { AcSize(du, n); }
  }

  /** One symbol of the plain decoder. */
  lemma ReadAcSymbol(
      t: Table, m: seq<Byte>, p: nat, k: nat, data: seq<int>, dequant: seq<int>, rs: Byte, q: nat)
    requires Declared(t) && k < 64 && |data| == 64 && |dequant| == 64
    requires ReadSymbol(t, m, p) == Got(rs, q)
    ensures rs == 0 ==> ReadAc(t, m, p, k, data, dequant) == Got(data, q)
    ensures rs == 0xf0 && k + 16 < 64 ==>
      ReadAc(t, m, p, k, data, dequant) == ReadAc(t, m, q, k + 16, data, dequant)
    ensures rs % 16 != 0 && ReadValue(m, q, rs % 16).Got? ==>
      var r := ReadValue(m, q, rs % 16);
      var zig := DeZigZag(k + rs / 16);
      var next := data[zig := ToShort(r.value * dequant[zig])];
      ReadAc(t, m, p, k, data, dequant)
        == if k + rs / 16 + 1 >= 64 then Got(next, r.next) else ReadAc(t, m, r.next, k + rs / 16 + 1, next, dequant)
  {
    hide Declared, ReadSymbol, ReadValue, DeZigZag, ToShort;
  }

  /** The plain decoder reads the coefficients back. */
  lemma {:induction false} ReadAcBack(
      book: Codebook, t: Table, m: seq<Byte>, p: nat, k: nat, du: seq<int>, dequant: seq<int>)
    requires Declared(t) && Agrees(book, t) && AcComplete(book) && AcRange(du) && |dequant| == 64
    requires 1 <= k < 64
    requires At(m, p, AcBits(book, du, k)) && p + |AcBits(book, du, k)| <= 8 * |m|
    ensures ReadAc(t, m, p, k, Dequantised(du, dequant, k), dequant)
         == Got(Dequantised(du, dequant, 64), p + |AcBits(book, du, k)|)
    decreases 64 - k
  {
    hide Declared, Agrees, At, Dequantised, ReadSymbol, ReadAc, AcBits, NextNonzero, ValueBits, Size;
    var n := NextNonzero(du, k);
    var data := Dequantised(du, dequant, k);
    AcBitsCases(book, du, k, n);
    if n == 64 {
      ReadWord(book, t, m, p, 0);
      ReadAcSymbol(t, m, p, k, data, dequant, 0, p + |book[0]|);
      DequantisedSkip(du, dequant, k, 64);
    } else if n - k >= 16 {
      AtConcat(m, p, book[0xf0], AcBits(book, du, k + 16));
      ReadWord(book, t, m, p, 0xf0);
      ReadAcSymbol(t, m, p, k, data, dequant, 0xf0, p + |book[0xf0]|);
      DequantisedSkip(du, dequant, k, k + 16);
      ReadAcBack(book, t, m, p + |book[0xf0]|, k + 16, du, dequant);
    } else {
      var e := ReadCoefficient(book, t, m, p, k, n, du, dequant);
      if n + 1 < 64 {
        ReadAcBack(book, t, m, e, n + 1, du, dequant);
      } else {
        NothingLeft(book, du);
      }
    }
  }

  lemma NothingLeft(book: Codebook, du: seq<int>)
    requires AcRange(du)
    ensures AcBits(book, du, 64) == []
  {
  }

  /** One run and value. */
  lemma ReadCoefficient(
      book: Codebook, t: Table, m: seq<Byte>, p: nat, k: nat, n: nat, du: seq<int>, dequant: seq<int>)
    returns (e: nat)
    requires Declared(t) && Agrees(book, t) && AcComplete(book) && AcRange(du) && |dequant| == 64
    requires 1 <= k <= n < 64 && n == NextNonzero(du, k) && n - k < 16
    requires At(m, p, AcBits(book, du, k)) && p + |AcBits(book, du, k)| <= 8 * |m|
    ensures ReadAc(t, m, p, k, Dequantised(du, dequant, k), dequant)
         == if n + 1 == 64 then Got(Dequantised(du, dequant, 64), e)
            else ReadAc(t, m, e, n + 1, Dequantised(du, dequant, n + 1), dequant)
    ensures At(m, e, AcBits(book, du, n + 1)) && e + |AcBits(book, du, n + 1)| == p + |AcBits(book, du, k)|
  {
    hide Declared, Agrees, At, Dequantised, ReadSymbol, ReadValue, ReadAc, DeZigZag, ValueBits, Size, ToShort, AcBits,
      NextNonzero;
    AcBitsCases(book, du, k, n);
    var v := du[n];
    NextIsNonzero(du, k);
    ExtendValue(v);
    var rs := RunSize(n - k, Size(Magnitude(v)));
    var word, rest := book[rs], AcBits(book, du, n + 1);
    AtConcat(m, p, word, ValueBits(v) + rest);
    AtConcat(m, p + |word|, ValueBits(v), rest);
    e := p + |word| + |ValueBits(v)|;
    ReadWord(book, t, m, p, rs);
    ReadValueBack(m, p + |word|, v);
    ReadAcSymbol(t, m, p, k, Dequantised(du, dequant, k), dequant, rs, p + |word|);
    DequantisedStep(du, dequant, k, n);
  }

  lemma NextIsNonzero(du: seq<int>, k: nat)
    requires k <= |du| && NextNonzero(du, k) < |du|
    ensures du[NextNonzero(du, k)] != 0
  {
  }

  // ---------------------------------------------------------------------------
  // Whole blocks

  /** The size category of a DC difference, and its value bits. */
  function DcBits(book: Codebook, diff: int): (s: seq<bool>)
    requires -2048 < diff < 2048
  {
    DcSize(diff);
    if diff == 0 then book[0] else book[Size(Magnitude(diff))] + ValueBits(diff)
  }

  lemma DcSize(diff: int)
    requires -2048 < diff < 2048
    ensures Size(Magnitude(diff)) <= 11
  {
    assert Pow2(11) == 2048;
    SizeRange(diff, 11);
  }

  /** The words that a component is written with. */
  datatype Books = Books(dc: Codebook, ac: Codebook)

  /** A block in baseline range: differences of at most 11 bits, coefficients of at most 10. */
  predicate BlockRange(du: seq<int>, pred: int)
  {
    AcRange(du) && -2048 < du[0] - pred < 2048 && -0x8000_0000 <= du[0] < 0x8000_0000
  }

  function BlockBits(books: Books, du: seq<int>, pred: int): (s: seq<bool>)
    requires BlockRange(du, pred)
  {
    DcBits(books.dc, du[0] - pred) + AcBits(books.ac, du, 1)
  }

  predicate BooksFor(books: Books, c: Coding)
  {
    && GoodCoding(c)
    && Agrees(books.dc, c.dc) && DcComplete(books.dc)
    && Agrees(books.ac, c.ac) && AcComplete(books.ac)
  }

  /** The reader accepts the DC coefficient: it thinks that the product with its scale fits. */
  predicate DcAccepted(du: seq<int>, c: Coding)
    requires |du| == 64 && |c.dequant| == 64
  {
    MulValid(ToShort(du[0]), ToShort(c.dequant[0]))
  }

  lemma ReadDcBack(book: Codebook, t: Table, m: seq<Byte>, p: nat, pred: int, diff: int, scale: int)
    requires Declared(t) && Agrees(book, t) && DcComplete(book)
    requires -2048 < diff < 2048 && -0x8000_0000 <= pred + diff < 0x8000_0000
    requires At(m, p, DcBits(book, diff)) && p + |DcBits(book, diff)| <= 8 * |m|
    ensures ReadDc(t, m, p, pred, scale)
         == if MulValid(ToShort(pred + diff), ToShort(scale)) then Got(pred + diff, p + |DcBits(book, diff)|)
            else Corrupt
  {
    hide Declared, Agrees, At, ReadSymbol, ReadValue, ValueBits, Size, ToShort, MulValid;
    DcSize(diff);
    var n := Size(Magnitude(diff));
    if diff == 0 {
      ReadWord(book, t, m, p, 0);
      ReadNothing(m, p + |book[0]|);
    } else {
      AtConcat(m, p, book[n], ValueBits(diff));
      ReadWord(book, t, m, p, n);
      ReadValueBack(m, p + |book[n]|, diff);
    }
  }

  lemma ReadNothing(m: seq<Byte>, p: nat)
    requires p <= 8 * |m|
    ensures ReadValue(m, p, 0) == Got(0, p)
  {
  }

  lemma DequantisedDc(du: seq<int>, dequant: seq<int>)
    requires |du| == 64 && |dequant| == 64
    ensures DcOnly(du[0], dequant[0]) == Dequantised(du, dequant, 1)
  {
    hide ToShort;
    DequantisedStep(du, dequant, 0, 0);
    assert DeZigZag(0) == 0;
    assert Dequantised(du, dequant, 0) == seq(64, _ => 0);
  }

  /** The plain decoder reads a block back, or refuses it when it does not accept the DC coefficient. */
  lemma ReadBlockBack(books: Books, c: Coding, m: seq<Byte>, p: nat, du: seq<int>, pred: int)
    requires BooksFor(books, c) && BlockRange(du, pred)
    requires At(m, p, BlockBits(books, du, pred)) && p + |BlockBits(books, du, pred)| <= 8 * |m|
    ensures ReadBlock(c.dc, c.ac, m, p, pred, c.dequant)
         == if DcAccepted(du, c) then Got((Dequantised(du, c.dequant, 64), du[0]), p + |BlockBits(books, du, pred)|)
            else Corrupt
  {
    hide Declared, Agrees, At, ReadDc, ReadAc, DcBits, AcBits, Dequantised, DcOnly, DcComplete, AcComplete, ToShort,
      MulValid;
    var diff := du[0] - pred;
    AtConcat(m, p, DcBits(books.dc, diff), AcBits(books.ac, du, 1));
    ReadDcBack(books.dc, c.dc, m, p, pred, diff, c.dequant[0]);
    DequantisedDc(du, c.dequant);
    ReadAcBack(books.ac, c.ac, m, p + |DcBits(books.dc, diff)|, 1, du, c.dequant);
  }

  // ---------------------------------------------------------------------------
  // Whole scans

  /** A block of a component, its coefficients in stream order. */
  datatype Unit = Unit(comp: nat, du: seq<int>)

  /** The DC coefficients that the next blocks of the four components are coded against. */
  function Preds(units: seq<Unit>): (preds: seq<int>)
    requires Units(units)
    ensures |preds| == 4
  {
    if units == [] then [0, 0, 0, 0]
    else Preds(units[..|units| - 1])[units[|units| - 1].comp := units[|units| - 1].du[0]]
  }

  predicate Units(units: seq<Unit>)
  {
    forall k :: 0 <= k < |units| ==> units[k].comp < 4 && |units[k].du| == 64
  }

  /** Every block is in baseline range. */
  predicate ScanRange(units: seq<Unit>)
  {
    Units(units) && forall k :: 0 <= k < |units| ==> BlockRange(units[k].du, Preds(units[..k])[units[k].comp])
  }

  lemma ScanRangeTake(units: seq<Unit>, n: nat)
    requires ScanRange(units) && n <= |units|
    ensures ScanRange(units[..n])
  {
    forall k | 0 <= k < n ensures BlockRange(units[..n][k].du, Preds(units[..n][..k])[units[..n][k].comp]) {
      assert units[..n][..k] == units[..k];
    }
  }

  function ScanBits(books: seq<Books>, units: seq<Unit>): (s: seq<bool>)
    requires |books| == 4 && ScanRange(units)
  {
    if units == [] then [] else
    var n := |units| - 1;
    ScanRangeTake(units, n);
    ScanBits(books, units[..n]) + BlockBits(books[units[n].comp], units[n].du, Preds(units[..n])[units[n].comp])
  }

  function Order(units: seq<Unit>): (order: seq<nat>)
    ensures |order| == |units| && forall k :: 0 <= k < |order| ==> order[k] == units[k].comp
  {
    seq(|units|, k requires 0 <= k < |units| => units[k].comp)
  }

  /** The blocks as the reader delivers them. */
  function Delivered(codings: seq<Coding>, units: seq<Unit>): (blocks: seq<seq<int>>)
    requires GoodCodings(codings) && Units(units)
    ensures |blocks| == |units|
  {
    seq(|units|, k requires 0 <= k < |units| => Dequantised(units[k].du, codings[units[k].comp].dequant, 64))
  }

  predicate BooksForAll(books: seq<Books>, codings: seq<Coding>)
  {
    |books| == 4 && |codings| == 4 && forall c :: 0 <= c < 4 ==> BooksFor(books[c], codings[c])
  }

  predicate ScanAccepted(codings: seq<Coding>, units: seq<Unit>)
    requires GoodCodings(codings) && Units(units)
  {
    forall k :: 0 <= k < |units| ==> DcAccepted(units[k].du, codings[units[k].comp])
  }

  /** The plain decoder reads a scan back, exactly when it accepts all DC coefficients. */
  lemma {:induction false} ReadScanBack(books: seq<Books>, codings: seq<Coding>, m: seq<Byte>, units: seq<Unit>)
    requires GoodCodings(codings) && BooksForAll(books, codings) && ScanRange(units)
    requires At(m, 0, ScanBits(books, units)) && |ScanBits(books, units)| <= 8 * |m|
    ensures ReadScan(codings, m, Order(units))
         == if ScanAccepted(codings, units)
            then Got((Delivered(codings, units), Preds(units)), |ScanBits(books, units)|)
            else Corrupt
  {
    hide At, BooksFor, BlockRange, ReadBlock, BlockBits, DcAccepted, Dequantised, GoodCoding, ScanAccepted, Delivered,
      Preds, ReadScan, Order;
    if units == [] {
      EmptyScan(codings, m);
    } else {
      var n := |units| - 1;
      var u := units[n];
      ScanRangeTake(units, n);
      AtConcat(m, 0, ScanBits(books, units[..n]), BlockBits(books[u.comp], u.du, Preds(units[..n])[u.comp]));
      ReadScanBack(books, codings, m, units[..n]);
      ReadBlockBack(books[u.comp], codings[u.comp], m, |ScanBits(books, units[..n])|, u.du, Preds(units[..n])[u.comp]);
      DeliveredLast(codings, units);
      AcceptedLast(codings, units);
      PredsLast(units);
      ReadScanLast(codings, m, units);
    }
  }

  lemma EmptyScan(codings: seq<Coding>, m: seq<Byte>)
    requires GoodCodings(codings)
    ensures ReadScan(codings, m, Order([])) == Got((Delivered(codings, []), Preds([])), 0)
    ensures ScanAccepted(codings, [])
  {
  }

  lemma DeliveredLast(codings: seq<Coding>, units: seq<Unit>)
    requires GoodCodings(codings) && Units(units) && units != []
    ensures
      var n := |units| - 1;
      var u := units[n];
      Delivered(codings, units) == Delivered(codings, units[..n]) + [Dequantised(u.du, codings[u.comp].dequant, 64)]
  {
    hide Dequantised;
  }

  lemma AcceptedLast(codings: seq<Coding>, units: seq<Unit>)
    requires GoodCodings(codings) && Units(units) && units != []
    ensures
      var n := |units| - 1;
      var u := units[n];
      ScanAccepted(codings, units) <==> ScanAccepted(codings, units[..n]) && DcAccepted(u.du, codings[u.comp])
  {
    hide DcAccepted;
    var n := |units| - 1;
    assert forall k :: 0 <= k < n ==> units[..n][k] == units[k];
  }

  lemma PredsLast(units: seq<Unit>)
    requires Units(units) && units != []
    ensures
      var n := |units| - 1;
      Preds(units) == Preds(units[..n])[units[n].comp := units[n].du[0]]
  {
  }

  lemma ReadScanLast(codings: seq<Coding>, m: seq<Byte>, units: seq<Unit>)
    requires GoodCodings(codings) && Units(units) && units != []
    ensures
      var n := |units| - 1;
      var c := units[n].comp;
      && Units(units[..n])
      && ReadScan(codings, m, Order(units))
         == match ReadScan(codings, m, Order(units[..n]))
            case Corrupt => Corrupt
            case Truncated => Truncated
            case Got(sofar, p) =>
              match ReadBlock(codings[c].dc, codings[c].ac, m, p, sofar.1[c], codings[c].dequant)
              case Corrupt => Corrupt
              case Truncated => Truncated
              case Got(block, q) => Got((sofar.0 + [block.0], sofar.1[c := block.1]), q)
  {
    hide ReadBlock;
    var n := |units| - 1;
    assert Order(units)[..n] == Order(units[..n]);
  }
}
