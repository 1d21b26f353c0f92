/** The entropy coder of stb_image_write's JPEG writer. */
module JpegWriter {
  import opened BitStrings
  import opened Canonical
  import opened JpegBits
  import opened JpegZigZag
  import opened JpegFormat
  import opened JpegBlock

  /** A code and its length in bits. */
  datatype Entry = Entry(code: nat, length: nat)

  predicate GoodEntry(e: Entry)
  {
    e.length <= 16 && e.code < Pow2(e.length)
  }

  function EntryBits(e: Entry): seq<bool>
  {
    MsbBits(e.code, e.length)
  }

  /** A code table of the writer. */
  predicate GoodTable(ht: seq<Entry>)
  {
    |ht| == 256 && forall v :: 0 <= v < 256 ==> GoodEntry(ht[v])
  }

  function BookOf(ht: seq<Entry>): Codebook
    requires |ht| == 256
  {
    seq(256, v requires 0 <= v < 256 => EntryBits(ht[v]))
  }

  // ---------------------------------------------------------------------------
  // stbiw__jpg_calcBits

  lemma ModShift(x: int, n: int)
    requires 0 < n && -n <= x < n
    ensures x % n == if x < 0 then x + n else x
  {
    if x < 0 { assert (x + n) % n == x % n; }
  }

  /** The size category of a nonzero value, and its value bits as a number. */
  method CalcBits(val: int) returns (bits: Entry)
    requires -0x8000 < val < 0x8000
    ensures bits.length >= 1
    ensures val != 0 ==> bits.length == Size(Magnitude(val)) && GoodEntry(bits) && EntryBits(bits) == ValueBits(val)
  {
    var tmp1 := if val < 0 then -val else val;
    var v := if val < 0 then val - 1 else val;
    var length: nat := 1;
    SizePow(tmp1);
    assert Pow2(15) == 0x8000;
    SizeRange(val, 15);
    ghost var n := Size(tmp1);
    tmp1 := tmp1 / 2;
    while tmp1 != 0
      invariant tmp1 >= 0
      invariant val != 0 ==> length + Size(tmp1) == n
      decreases tmp1
    {
      length := length + 1;
      tmp1 := tmp1 / 2;
    }
    if val != 0 { ModShift(v, Pow2(length)); }
    bits := Entry(v % Pow2(length), length);
  }

  // ---------------------------------------------------------------------------
  // The bit buffer: its low 24 bits are a register, older bits move out above them

  /** Taking the top byte of the register out. */
  lemma TakeByte(b: nat, s: seq<bool>)
    requires |s| == 24 && Low(b, 24) == MsbVal(s)
    ensures Low(Shr(b, 16), 8) == MsbVal(s[..8]) < 256
    ensures Low(Low(Shl(b, 8), 32), 24) == MsbVal(s[8..] + Zeros(8))
  {
    hide Low, Shr, Shl, MsbVal, Pow2, Zeros;
    var l, h := Low(b, 24), Shr(b, 24);
    LowHigh(b, 24);
    Pow2Values();
    MsbValBound(s);
    MsbValBound(s[..8]);
    ShlShl(h, 8, 16);
    AddHigh(l, Shl(h, 8), 16);
    AddHigh(Shr(l, 16), h, 8);
    MsbValSplit(s, 8);
    LowOf(Shr(l, 16), 8);
    ShlAdd(l, Shl(h, 24), 8);
    ShlShl(h, 24, 8);
    AddHigh(Shl(l, 8), h, 32);
    ShlLess(l, 24, 8);
    LowOf(Shl(l, 8), 32);
    ShiftOut(s, 8);
  }

  /** Putting n bits in below the ones already there. */
  lemma PutBits(b: nat, s: seq<bool>, code: nat, n: nat)
    requires |s| + n <= 24 && code < Pow2(n) && Low(b, 24) == MsbVal(s + Zeros(24 - |s|))
    ensures Low(b + Shl(code, 24 - |s| - n), 24) == MsbVal(s + MsbBits(code, n) + Zeros(24 - |s| - n))
  {
    hide Low, Shr, Shl, MsbVal, Pow2, Zeros, MsbBits;
    var k := 24 - |s| - n;
    var t := s + MsbBits(code, n);
    MsbValBits(code, n);
    MsbValConcat(s, MsbBits(code, n));
    MsbValPad(s, 24 - |s|);
    MsbValPad(t, k);
    ShlAdd(Shl(MsbVal(s), n), code, k);
    ShlShl(MsbVal(s), n, k);
    MsbValBound(t + Zeros(k));
    LowHigh(b, 24);
    AddHigh(MsbVal(t + Zeros(k)), Shr(b, 24), 24);
    LowOf(MsbVal(t + Zeros(k)), 24);
  }

  // ---------------------------------------------------------------------------
  // Blocks and tables of a scan

  /** The quantised coefficients of a block, row by row, and its component. */
  datatype Block = Block(comp: nat, q: seq<int>)

  predicate Blocks(blocks: seq<Block>)
  {
    forall k :: 0 <= k < |blocks| ==> blocks[k].comp < 4 && |blocks[k].q| == 64
  }

  function UnitsOf(blocks: seq<Block>): (units: seq<Unit>)
    requires Blocks(blocks)
    ensures |units| == |blocks| && Units(units)
  {
    seq(|blocks|, k requires 0 <= k < |blocks| => Unit(blocks[k].comp, InZigZag(blocks[k].q)))
  }

  datatype Tables = Tables(dc: seq<Entry>, ac: seq<Entry>)

  predicate GoodTables(hts: seq<Tables>)
  {
    |hts| == 4 && forall c :: 0 <= c < 4 ==> GoodTable(hts[c].dc) && GoodTable(hts[c].ac)
  }

  function BooksOf(hts: seq<Tables>): (books: seq<Books>)
    requires GoodTables(hts)
    ensures |books| == 4
  {
    seq(4, c requires 0 <= c < 4 => Books(BookOf(hts[c].dc), BookOf(hts[c].ac)))
  }

  /** Fewer than eight bits stay behind, and at least seven were added. */
  lemma Covered(all: seq<bool>, fill: seq<bool>, bytes: seq<bool>, left: seq<bool>)
    requires bytes + left == all + fill && |left| <= |fill|
    ensures all <= bytes
  {
    assert all == (all + fill)[..|all|];
    assert (bytes + left)[..|all|] == bytes[..|all|];
  }

  lemma EmptyBuffer()
    ensures Low(0, 24) == MsbVal([] + Zeros(24)) && Stuff([]) == [] && MsbToBits([]) == []
  {
    MsbValZeros(24);
    LowOf(0, 24);
    assert [] + Zeros(24) == Zeros(24);
  }

  class Writer {
    var out: seq<Byte>
    var bitBuf: nat
    var bitCnt: nat
    ghost var before: seq<Byte>   // what precedes the scan
    ghost var plain: seq<Byte>    // the bytes of the scan without stuffing
    ghost var pending: seq<bool>  // bits that do not fill a byte yet

    ghost predicate Valid()
      reads this
    {
      && bitCnt == |pending| <= 24
      && Low(bitBuf, 24) == MsbVal(pending + Zeros(24 - bitCnt))
      && out == before + Stuff(plain)
    }

    /** All bits of the scan so far. */
    ghost function Written(): seq<bool>
      reads this
    {
      MsbToBits(plain) + pending
    }

    constructor (before: seq<Byte>)
      ensures Valid() && bitCnt < 8 && this.before == before && Written() == []
    {
      hide Low, MsbVal, Zeros, Stuff, MsbToBits;
      out, bitBuf, bitCnt := before, 0, 0;
      this.before, plain, pending := before, [], [];
      new;
      EmptyBuffer();
    }

    /** stbiw__jpg_writeBits. */
    method WriteBits(bs: Entry)
      requires Valid() && bitCnt < 8 && GoodEntry(bs)
      modifies this
      ensures Valid() && bitCnt < 8 && before == old(before) && Written() == old(Written()) + EntryBits(bs)
    {
      hide Low, Shl, Shr, MsbVal, MsbBits, MsbToBits, Zeros, Stuff;
      PutBits(bitBuf, pending, bs.code, bs.length);
      bitCnt := bitCnt + bs.length;
      bitBuf := bitBuf + Shl(bs.code, 24 - bitCnt);
      ConcatAssoc(MsbToBits(plain), pending, EntryBits(bs));
      pending := pending + EntryBits(bs);
      while bitCnt >= 8
        invariant Valid() && before == old(before) && Written() == old(Written()) + EntryBits(bs)
        decreases bitCnt
      {
        PutByte();
      }
    }

    /** One turn of its loop: a byte leaves the bit buffer. */
    method PutByte()
      requires Valid() && bitCnt >= 8
      modifies this
      ensures Valid() && bitCnt == old(bitCnt) - 8 && before == old(before) && Written() == old(Written())
    {
      hide Low, Shl, Shr, MsbVal, MsbBits, MsbToBits, Zeros, Stuff;
      TakeByte(bitBuf, pending + Zeros(24 - bitCnt));
      var c := Low(Shr(bitBuf, 16), 8);
      Emitted(plain, pending, bitCnt, c);
      ConcatAssoc(before, Stuff(plain), Stuffed(c));
      out := out + [c];
      if c == 255 {
        out := out + [0];
      }
      bitBuf := Low(Shl(bitBuf, 8), 32);
      bitCnt := bitCnt - 8;
      plain := plain + [c];
      pending := pending[8..];
    }

    /** The symbol of a nonzero value, then its bits. */
    method WriteValue(ht: seq<Entry>, run: nat, v: int)
      requires Valid() && bitCnt < 8 && GoodTable(ht) && run < 16 && v != 0 && Size(Magnitude(v)) < 12
      modifies this
      ensures Valid() && bitCnt < 8 && before == old(before)
      ensures Written() == old(Written()) + (BookOf(ht)[RunSize(run, Size(Magnitude(v)))] + ValueBits(v))
    {
      hide MsbToBits, EntryBits, GoodEntry, ValueBits, Size, Low, MsbVal;
      SmallValue(v);
      var bits := CalcBits(v);
      var e := ht[16 * run + bits.length];
      ConcatAssoc(Written(), EntryBits(e), EntryBits(bits));
      WriteBits(e);
      WriteBits(bits);
    }

    /** The DC part of stbiw__jpg_processDU. */
    method WriteDc(ht: seq<Entry>, diff: int)
      requires Valid() && bitCnt < 8 && GoodTable(ht) && -2048 < diff < 2048
      modifies this
      ensures Valid() && bitCnt < 8 && before == old(before)
      ensures Written() == old(Written()) + DcBits(BookOf(ht), diff)
    {
      hide MsbToBits, EntryBits, GoodEntry, ValueBits, Size, Low, MsbVal;
      DcSize(diff);
      if diff == 0 {
        WriteBits(ht[0]);
      } else {
        WriteValue(ht, 0, diff);
      }
    }

    /** Writes the coefficients from place k to place n, where the next nonzero one is. */
    method WriteRun(ht: seq<Entry>, du: seq<int>, k: nat, n: nat)
      requires Valid() && bitCnt < 8 && GoodTable(ht) && AcRange(du) && 1 <= k <= n < 64 && n == NextNonzero(du, k)
      modifies this
      ensures Valid() && bitCnt < 8 && before == old(before)
      ensures Written() + AcBits(BookOf(ht), du, n + 1) == old(Written()) + AcBits(BookOf(ht), du, k)
    {
      hide MsbToBits, EntryBits, GoodEntry, ValueBits, Size, Low, MsbVal, BookOf, AcBits, NextNonzero, Written;
      ghost var book := BookOf(ht);
      NextIsNonzero(du, k);
      var nrzeroes := n - k;
      ghost var at := k;
      if nrzeroes >= 16 {
        var lng := nrzeroes / 16;
        for nrmarker := 1 to lng + 1
          invariant Valid() && bitCnt < 8 && before == old(before)
          invariant at == k + 16 * (nrmarker - 1) <= n && n == NextNonzero(du, at)
          invariant Written() + AcBits(book, du, at) == old(Written()) + AcBits(book, du, k)
        {
          SixteenZeros(book, du, at, n);
          ConcatAssoc(Written(), book[0xf0], AcBits(book, du, at + 16));
          WriteEntry(ht, 0xf0);
          at := at + 16;
        }
        nrzeroes := nrzeroes % 16;
      }
      AcBitsCases(book, du, at, n);
      ghost var word := book[RunSize(nrzeroes, Size(Magnitude(du[n])))];
      AfterRun(Written(), word, ValueBits(du[n]), AcBits(book, du, n + 1));
      WriteValue(ht, nrzeroes, du[n]);
    }

    method WriteEntry(ht: seq<Entry>, v: nat)
      requires Valid() && bitCnt < 8 && GoodTable(ht) && v < 256
      modifies this
      ensures Valid() && bitCnt < 8 && before == old(before) && Written() == old(Written()) + BookOf(ht)[v]
    {
      WriteBits(ht[v]);
    }

    /** The AC part of stbiw__jpg_processDU. */
    method WriteAc(ht: seq<Entry>, du: seq<int>)
      requires Valid() && bitCnt < 8 && GoodTable(ht) && AcRange(du)
      modifies this
      ensures Valid() && bitCnt < 8 && before == old(before)
      ensures Written() == old(Written()) + AcBits(BookOf(ht), du, 1)
    {
      hide MsbToBits, Low, MsbVal, BookOf, AcBits, GoodEntry;
      ghost var book := BookOf(ht);
      var end0pos := 63;
      while end0pos > 0 && du[end0pos] == 0
        invariant 0 <= end0pos <= 63 && forall j :: end0pos < j < 64 ==> du[j] == 0
      {
        end0pos := end0pos - 1;
      }
      AcEnd(book, du, end0pos + 1);
      if end0pos == 0 {
        WriteEntry(ht, 0);
        return;
      }
      var i := 1;
      while i <= end0pos
        invariant Valid() && bitCnt < 8 && before == old(before) && 1 <= i <= end0pos + 1
        invariant Written() + AcBits(book, du, i) == old(Written()) + AcBits(book, du, 1)
        decreases end0pos - i
      {
        var startpos := i;
        while du[i] == 0 && i <= end0pos
          invariant startpos <= i <= end0pos && NextNonzero(du, startpos) == NextNonzero(du, i)
        {
          i := i + 1;
        }
        WriteRun(ht, du, startpos, i);
        i := i + 1;
      }
      if end0pos != 63 {
        WriteEntry(ht, 0);
      }
    }

    /** stbiw__jpg_processDU after the transform: zigzag order, then the DC difference, then the
        other coefficients. The argument holds the quantised coefficients row by row. */
    method ProcessDU(q: seq<int>, DC: int, htdc: seq<Entry>, htac: seq<Entry>) returns (dc: int)
      requires Valid() && bitCnt < 8 && GoodTable(htdc) && GoodTable(htac)
      requires |q| == 64 && BlockRange(InZigZag(q), DC)
      modifies this
      ensures Valid() && bitCnt < 8 && before == old(before)
      ensures dc == InZigZag(q)[0]
      ensures Written() == old(Written()) + BlockBits(Books(BookOf(htdc), BookOf(htac)), InZigZag(q), DC)
    {
      hide MsbToBits, Low, MsbVal, BookOf, AcBits, DcBits, GoodEntry, AcRange;
      var du := Reorder(q);
      ConcatAssoc(Written(), DcBits(BookOf(htdc), du[0] - DC), AcBits(BookOf(htac), du, 1));
      WriteDc(htdc, du[0] - DC);
      WriteAc(htac, du);
      dc := du[0];
    }

    /** The end of the scan: fill bits up to a byte boundary and the end-of-image marker. */
    method Finish()
      requires Valid() && bitCnt < 8
      modifies this
      ensures before == old(before) && out == before + Stuff(plain) + [0xff, 0xd9]
      ensures old(Written()) <= MsbToBits(plain)
    {
      hide Low, Stuff, MsbVal;
      assert GoodEntry(Entry(0x7f, 7)) by { assert Pow2(7) == 128; }
      ghost var all := Written();
      WriteBits(Entry(0x7f, 7));
      Covered(all, EntryBits(Entry(0x7f, 7)), MsbToBits(plain), pending);
      out := out + [0xff];
      out := out + [0xd9];
    }

    /** The block loop of stbi_write_jpg_core, with the blocks and their components in the order in
        which it visits them. */
    method WriteScan(blocks: seq<Block>, hts: seq<Tables>)
      requires Valid() && bitCnt < 8 && Written() == [] && GoodTables(hts)
      requires Blocks(blocks) && ScanRange(UnitsOf(blocks))
      modifies this
      ensures before == old(before) && out == before + Stuff(plain) + [0xff, 0xd9]
      ensures ScanBits(BooksOf(hts), UnitsOf(blocks)) <= MsbToBits(plain)
    {
      hide Low, Stuff, MsbVal, MsbToBits, GoodTable, BlockRange, BookOf, BlockBits, InZigZag;
      ghost var units, books := UnitsOf(blocks), BooksOf(hts);
      var dc := [0, 0, 0, 0];
      for i := 0 to |blocks|
        invariant Valid() && bitCnt < 8 && before == old(before) && |dc| == 4
        invariant ScanRange(units[..i]) && dc == Preds(units[..i]) && Written() == ScanBits(books, units[..i])
      {
        var c := blocks[i].comp;
        ScanRangeTake(units, i + 1);
        assert units[..i + 1][..i] == units[..i] && units[..i + 1][i] == units[i];
        var d := ProcessDU(blocks[i].q, dc[c], hts[c].dc, hts[c].ac);
        dc := dc[c := d];
      }
      assert units[..|blocks|] == units;
      Finish();
    }
  }

  lemma SmallValue(v: int)
    requires Size(Magnitude(v)) < 12
    ensures -0x8000 < v < 0x8000
  {
    SizePow(Magnitude(v));
    Pow2Mono(Size(Magnitude(v)), 11);
    assert Pow2(11) == 2048;
  }

  lemma SixteenZeros(book: Codebook, du: seq<int>, k: nat, n: nat)
    requires AcRange(du) && 1 <= k && k + 16 <= n < 64 && n == NextNonzero(du, k)
    ensures AcBits(book, du, k) == book[0xf0] + AcBits(book, du, k + 16)
    ensures NextNonzero(du, k + 16) == n
  {
    hide AcBits, NextNonzero;
    NextSame(du, k, k + 16);
    AcBitsCases(book, du, k, n);
  }

  lemma {:induction false} NextSame(du: seq<int>, k: nat, i: nat)
    requires k <= |du| && k <= i <= NextNonzero(du, k)
    ensures NextNonzero(du, i) == NextNonzero(du, k)
    decreases i
  {
    if k < i { NextSame(du, k, i - 1); }
  }

  lemma AfterRun(w: seq<bool>, word: seq<bool>, value: seq<bool>, rest: seq<bool>)
    ensures w + (word + value) + rest == w + (word + (value + rest))
  {
  }

  /** When only zeros are left, the end-of-block word is left to write, or nothing. */
  lemma AcEnd(book: Codebook, du: seq<int>, k: nat)
    requires AcRange(du) && 1 <= k <= 64 && forall j :: k <= j < 64 ==> du[j] == 0
    ensures AcBits(book, du, k) == if k == 64 then [] else book[0]
  {
  }

  /** The coefficients in stream order. */
  function InZigZag(q: seq<int>): (du: seq<int>)
    requires |q| == 64
    ensures |du| == 64
  {
    seq(64, i requires 0 <= i < 64 => q[DeZigZag(i)])
  }

  method Reorder(q: seq<int>) returns (du: seq<int>)
    requires |q| == 64
    ensures du == InZigZag(q)
  {
    hide ZigZag, DeZigZag;
    var a := new int[64](_ => 0);
    for j := 0 to 64
      invariant forall i :: 0 <= i < j ==> a[ZigZag(i)] == q[i]
    {
      forall i | 0 <= i < j ensures ZigZag(i) != ZigZag(j) {
        Inverse(i);
        Inverse(j);
      }
      a[ZigZag(j)] := q[j];
    }
    du := a[..];
    forall i | 0 <= i < 64 ensures du[i] == q[DeZigZag(i)] {
      Inverse(i);
    }
  }

  function Stuffed(c: Byte): seq<Byte>
  {
    if c == 255 then [c, 0] else [c]
  }

  /** A byte moves from the register to the output. */
  lemma Emitted(plain: seq<Byte>, pending: seq<bool>, n: nat, c: Byte)
    requires 8 <= n == |pending| <= 24 && c == MsbVal((pending + Zeros(24 - n))[..8])
    ensures MsbToBits(plain + [c]) + pending[8..] == MsbToBits(plain) + pending
    ensures (pending + Zeros(24 - n))[8..] + Zeros(8) == pending[8..] + Zeros(24 - (n - 8))
    ensures Stuff(plain + [c]) == Stuff(plain) + Stuffed(c)
  {
    hide MsbVal, MsbBits;
    assert (pending + Zeros(24 - n))[..8] == pending[..8];
    MsbBitsVal(pending[..8]);
    assert (plain + [c])[..|plain|] == plain;
    assert pending == pending[..8] + pending[8..];
  }
}
