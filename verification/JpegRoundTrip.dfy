/** The JPEG entropy coder and decoder together. */
module JpegRoundTrip {
  import opened BitStrings
  import opened JpegBits
  import opened JpegZigZag
  import opened JpegFormat
  import opened JpegBlock
  import opened JpegEnding
  import JpegWriter
  import JpegReader

  /** What the reader makes of a block of quantised coefficients: each is scaled and kept in 16 bits. */
  function Scaled(q: seq<int>, dequant: seq<int>): (block: seq<int>)
    requires |q| == 64 && |dequant| == 64
    ensures |block| == 64
  {
    seq(64, j requires 0 <= j < 64 => ToShort(q[j] * dequant[j]))
  }

  /** Coefficients that fit come back unchanged when nothing is scaled. */
  lemma ScaledByOne(q: seq<int>, dequant: seq<int>)
    requires |q| == 64 && |dequant| == 64
    requires forall j :: 0 <= j < 64 ==> dequant[j] == 1 && -0x8000 <= q[j] < 0x8000
    ensures Scaled(q, dequant) == q
  {
    hide ToShort;
    assert forall j :: 0 <= j < 64 ==> q[j] * dequant[j] == q[j];
  }

  /** Exactly which DC coefficients the reader accepts, for every 16-bit scale. It looks at both numbers
      as 16-bit signed ones: a scale of 0x8000 and more counts as negative, 0xFFFF accepts everything, and
      for the others the comparison with a negative coefficient points the wrong way. */
  lemma DcAcceptance(du: seq<int>, c: Coding)
    requires |du| == 64 && |c.dequant| == 64 && 0 <= c.dequant[0] < 0x1_0000
    ensures
      var a, scale := ToShort(du[0]), c.dequant[0];
      DcAccepted(du, c) <==>
        if scale < 0x8000 then -0x8000 <= a * scale < 0x8000
        else if scale == 0xffff then true
        else if a >= 0 then -0x8000 <= a * (scale - 0x1_0000)
        else -a >= 0x7fff / (0x1_0000 - scale)
  {
    hide MulValid;
    var a, b := ToShort(du[0]), ToShort(c.dequant[0]);
    MulValidExact(a, b);
    if b < -1 {
      if a >= 0 { ProductSign(a, -b); assert a * b == -(a * -b); } else { NegativeFactors(a, b); }
    } else if b == -1 {
      AllAccepted(a);
    }
  }

  lemma ProductSign(x: nat, y: nat)
    ensures x * y >= 0
  {
  }

  lemma AllAccepted(a: int)
    ensures MulValid(a, -1)
  {
  }

  lemma NegativeFactors(a: int, b: int)
    requires a < 0 && b < -1
    ensures MulValid(a, b) <==> -a >= 0x7fff / -b
  {
  }

  /** The product of a DC coefficient and its scale fits in 16 bits. */
  predicate DcFits(dc: int, scale: int)
  {
    -0x8000 <= dc * scale < 0x8000
  }

  /** The reader refuses a coefficient of 16 bits with a scale of 0x8000 to 0xFFFE. */
  predicate WideRefused(a: int, scale: int)
    requires scale < 0xffff
  {
    if a >= 0 then a * (scale - 0x1_0000) < -0x8000 else -a < 0x7fff / (0x1_0000 - scale)
  }

  /** The reader's test is right about a coefficient and a 16-bit scale if and only if: for scales below
      0x8000, the coefficient has 16 bits, or the scale is zero, or the coefficient cut to 16 bits does not
      fit either; for larger scales, the coefficient is 0, or -1 with 0x8000, whose products fit, or it is
      refused. */
  lemma DcTestRight(du: seq<int>, c: Coding)
    requires |du| == 64 && |c.dequant| == 64 && 0 <= c.dequant[0] < 0x1_0000
    ensures
      var dc, scale := du[0], c.dequant[0];
      (DcAccepted(du, c) <==> DcFits(dc, scale)) <==>
        if scale < 0x8000 then -0x8000 <= dc < 0x8000 || scale == 0 || !DcFits(ToShort(dc), scale)
        else dc == 0 || (dc == -1 && scale == 0x8000) || (scale < 0xffff && WideRefused(ToShort(dc), scale))
  {
    hide DcAccepted, ToShort;
    DcAcceptance(du, c);
    WideFits(du[0], c.dequant[0]);
    SmallShorts();
  }

  lemma SmallShorts()
    ensures ToShort(0) == 0 && ToShort(-1) == -1
    ensures forall x :: -0x8000 <= x < 0x8000 ==> ToShort(x) == x
  {
  }

  /** Which products with a large factor fit. */
  lemma WideFits(dc: int, scale: int)
    requires 0 <= scale < 0x1_0000
    ensures !(-0x8000 <= dc < 0x8000) ==> (DcFits(dc, scale) <==> scale == 0)
    ensures scale >= 0x8000 ==> (DcFits(dc, scale) <==> dc == 0 || (dc == -1 && scale == 0x8000))
  {
    SignedProduct(dc, scale);
    MulLower(Magnitude(dc), scale);
    WideCases(dc, scale, Magnitude(dc), dc * scale, Magnitude(dc) * scale);
  }

  lemma MulLower(x: nat, y: nat)
    ensures x >= 1 && y >= 1 ==> x * y >= x && x * y >= y
    ensures x >= 2 && y >= 1 ==> x * y >= 2 * y
    ensures x == 1 ==> x * y == y
    ensures x == 0 || y == 0 ==> x * y == 0
  {
    if x >= 2 && y >= 1 { assert x * y == 2 * y + (x - 2) * y; }
  }

  lemma WideCases(dc: int, scale: int, x: nat, product: int, size: int)
    requires 0 <= scale < 0x1_0000 && x == Magnitude(dc) && product == dc * scale
    requires product == if (dc < 0) == (scale < 0) then size else -size
    requires x >= 1 && scale >= 1 ==> size >= x && size >= scale
    requires x >= 2 && scale >= 1 ==> size >= 2 * scale
    requires (x == 1 ==> size == scale) && (x == 0 || scale == 0 ==> size == 0)
    ensures !(-0x8000 <= dc < 0x8000) ==> (DcFits(dc, scale) <==> scale == 0)
    ensures scale >= 0x8000 ==> (DcFits(dc, scale) <==> dc == 0 || (dc == -1 && scale == 0x8000))
  {
    assert DcFits(dc, scale) <==> -0x8000 <= product < 0x8000;
  }

  lemma ZigZagUndone(q: seq<int>, dequant: seq<int>)
    requires |q| == 64 && |dequant| == 64
    ensures Dequantised(JpegWriter.InZigZag(q), dequant, 64) == Scaled(q, dequant)
  {
    hide ZigZag, DeZigZag, ToShort;
    forall j | 0 <= j < 64 ensures JpegWriter.InZigZag(q)[ZigZag(j)] == q[j] {
      Inverse(j);
    }
  }

  /** The bits of the scan stand at the start of what the reader sees. */
  lemma ScanIsRead(before: seq<Byte>, plain: seq<Byte>, bits: seq<bool>)
    requires bits <= MsbToBits(plain)
    ensures Unstuff(before + Stuff(plain) + [0xff, 0xd9], |before|) == plain
    ensures At(Mirror(plain), 0, bits) && |bits| <= 8 * |Mirror(plain)|
  {
    hide MsbToBits, Mirror, At;
    UnstuffStuff(before, plain, [0xff, 0xd9]);
    MirrorBits(plain, |plain|);
    assert plain[..|plain|] == plain;
    var all := MsbToBits(plain);
    assert all == bits + all[|bits|..];
    AtConcat(Mirror(plain), 0, bits, all[|bits|..]);
  }

  /** Writing a scan and reading it back: for any blocks in baseline range, any code tables that are
      the canonical codes of the declared ones, and any text before the scan, the reader returns
      every coefficient times its scale. It refuses the scan exactly when it takes the product of a
      DC coefficient and its scale not to fit. */
  method RoundTrip(
      before: seq<Byte>, blocks: seq<JpegWriter.Block>, hts: seq<JpegWriter.Tables>,
      comps: seq<JpegReader.Component>, mcus: seq<seq<nat>>, ghost codings: seq<Coding>)
    returns (ok: bool, decoded: seq<seq<int>>)
    requires JpegWriter.GoodTables(hts) && GoodCodings(codings)
    requires JpegReader.Components(comps, codings) && BooksForAll(JpegWriter.BooksOf(hts), codings)
    requires JpegWriter.Blocks(blocks) && ScanRange(JpegWriter.UnitsOf(blocks))
    requires InOrders(mcus) && |mcus| <= 0x7fff_ffff && Flat(mcus) == Order(JpegWriter.UnitsOf(blocks))
    ensures ok <==> ScanAccepted(codings, JpegWriter.UnitsOf(blocks))
    ensures ok ==> |decoded| == |blocks|
    ensures ok ==> forall k :: 0 <= k < |blocks| ==>
      decoded[k] == Scaled(blocks[k].q, codings[blocks[k].comp].dequant)
  {
    hide ScanRange, BooksForAll, JpegReader.Components, ScanAccepted, ReadScan, ScanBits, JpegWriter.GoodTables,
      MsbToBits, Stuff, Unstuff, Mirror, At, TakeScan, TakeIntervals, Flat, Scaled, Order, Delivered;
    ghost var units, books := JpegWriter.UnitsOf(blocks), JpegWriter.BooksOf(hts);
    var w := new JpegWriter.Writer(before);
    w.WriteScan(blocks, hts);
    ScanIsRead(before, w.plain, ScanBits(books, units));
    var r := new JpegReader.Reader(w.out, |before|);
    ghost var src := SourceAt(w.out, |before|);
    OneInterval(codings, w.out, |before|, mcus, 0x7fff_ffff);
    ReadScanBack(books, codings, src.m, units);
    ScanSame(codings, src, Flat(mcus));
    ok, decoded := r.DecodeScan(comps, mcus, 0, codings, |before|);
    if ok {
      DeliveredScaled(blocks, codings);
    }
  }

  lemma DeliveredScaled(blocks: seq<JpegWriter.Block>, codings: seq<Coding>)
    requires GoodCodings(codings) && JpegWriter.Blocks(blocks)
    ensures
      var units := JpegWriter.UnitsOf(blocks);
      && Units(units) && |Delivered(codings, units)| == |blocks|
      && forall k :: 0 <= k < |blocks| ==>
        Delivered(codings, units)[k] == Scaled(blocks[k].q, codings[blocks[k].comp].dequant)
  {
    hide Scaled, Dequantised;
    forall k | 0 <= k < |blocks|
      ensures Delivered(codings, JpegWriter.UnitsOf(blocks))[k] == Scaled(blocks[k].q, codings[blocks[k].comp].dequant)
    {
      ZigZagUndone(blocks[k].q, codings[blocks[k].comp].dequant);
    }
  }
}
