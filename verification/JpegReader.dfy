/** The baseline JPEG entropy decoder of stb_image: the bit buffer of stbi__jpeg and
    stbi__jpeg_decode_block. */
module JpegReader {
  import opened BitStrings
  import opened Canonical
  import opened JpegBits
  import opened JpegHuffman
  import opened JpegZigZag
  import opened JpegFormat
  import opened JpegTables
  import opened JpegEnding
  import opened JpegFrame

  // ---------------------------------------------------------------------------
  // The 32-bit buffer

  /** n bits of the stream from p on, at the top of a 32-bit register. */
  function Register(m: seq<Byte>, p: nat, n: nat): nat
    requires n <= 32
  {
    MsbVal(Stream(m, p, n) + Zeros(32 - n))
  }

  /** Putting in the next byte. */
  lemma RegisterByte(bytes: seq<Byte>, p: nat, n: nat, fed: nat)
    requires n <= 24 && p + n == 8 * fed
    ensures Register(Mirror(bytes), p, n) + Shl(ByteAt(bytes, fed), 24 - n) == Register(Mirror(bytes), p, n + 8)
  {
    hide MsbVal, Shl, Stream, ByteAt, Zeros, Mirror, MsbBits, Pow2;
    var m, b := Mirror(bytes), ByteAt(bytes, fed);
    var s := Stream(m, p, n);
    StreamSplit(m, p, n, 8);
    MirrorByte(bytes, fed);
    Pow2Values();
    MsbValBits(b, 8);
    MsbValConcat(s, Stream(m, p + n, 8));
    MsbValPad(s, 32 - n);
    MsbValPad(Stream(m, p, n + 8), 24 - n);
    ShlAdd(Shl(MsbVal(s), 8), b, 24 - n);
    ShlShl(MsbVal(s), 8, 24 - n);
  }

  /** Shifting out k bits. */
  lemma RegisterShift(m: seq<Byte>, p: nat, n: nat, k: nat)
    requires k <= n <= 32
    ensures Low(Shl(Register(m, p, n), k), 32) == Register(m, p + k, n - k)
  {
    hide MsbVal, Shl, Low, Stream, Zeros;
    var s := Stream(m, p, n) + Zeros(32 - n);
    ShiftOut(s, k);
    StreamTake(m, p, k, n);
    ZerosConcat(32 - n, k);
    assert s[k..] + Zeros(k) == Stream(m, p + k, n - k) + (Zeros(32 - n) + Zeros(k));
  }

  lemma ZerosConcat(a: nat, b: nat)
    ensures Zeros(a) + Zeros(b) == Zeros(a + b)
  {
  }

  /** The top k bits. */
  lemma RegisterTop(m: seq<Byte>, p: nat, n: nat, k: nat)
    requires k <= n <= 32 || (k <= 32 && n <= 32 && p + n >= 8 * |m|)
    ensures Shr(Register(m, p, n), 32 - k) == MsbVal(Stream(m, p, k))
  {
    hide MsbVal, Shr;
    var s := Stream(m, p, n) + Zeros(32 - n);
    MsbValSplit(s, k);
    forall j | n <= j < k ensures !Stream(m, p, k)[j] {
      assert (p + j) / 8 >= |m|;
      assert !StreamBit(m, p + j);
    }
    assert s[..k] == Stream(m, p, k);
  }

  // ---------------------------------------------------------------------------
  // Where the reader stands in the input

  /** After fed data bytes the reader is at pos, or has met the marker that ends the data. */
  ghost predicate Synced(input: seq<Byte>, data: seq<Byte>, mark: nat, pos: nat, nomore: bool, fed: nat)
  {
    && pos <= |input|
    && (nomore ==> fed >= |data| && mark < |input| && pos == mark + 1)
    && (!nomore ==>
         && Unstuff(input, pos) == (if fed <= |data| then data[fed..] else [])
         && MarkerIndex(input, pos) == mark)
    && (!nomore && fed > |data| ==> pos == |input|)
  }

  function NextIndex(input: seq<Byte>, k: nat): nat
  {
    if k < |input| then k + 1 else |input|
  }

  /** What the byte at pos, and after 0xFF the first byte that is not 0xFF, say about the data: one more
      byte of them, a zero after the end of the input, or the marker. */
  lemma NextData(input: seq<Byte>, data: seq<Byte>, mark: nat, pos: nat, fed: nat)
    requires Synced(input, data, mark, pos, false, fed)
    ensures ByteAt(input, pos) != 0xff ==>
      && ByteAt(data, fed) == ByteAt(input, pos) && Synced(input, data, mark, NextIndex(input, pos), false, fed + 1)
      && !(mark < |input| && fed >= |data|)
    ensures ByteAt(input, pos) == 0xff ==>
      var q := SkipFill(input, pos);
      if ByteAt(input, q) != 0 then q == mark < |input| && Synced(input, data, mark, mark + 1, true, fed)
      else
        && ByteAt(data, fed) == 0xff && Synced(input, data, mark, NextIndex(input, q), false, fed + 1)
        && !(mark < |input| && fed >= |data|)
  {
    hide Unstuff, MarkerIndex;
    OpenData(input, pos);
    if fed < |data| {
      assert data[fed..][1..] == data[fed + 1..];
    }
  }

  /** The data one step further. */
  lemma OpenData(input: seq<Byte>, k: nat)
    requires k <= |input|
    ensures
      var q := SkipFill(input, k);
      && Unstuff(input, k) ==
           (if k == |input| then []
            else if input[k] != 0xff then [input[k]] + Unstuff(input, NextIndex(input, k))
            else if ByteAt(input, q) != 0 then [] else [0xff] + Unstuff(input, NextIndex(input, q)))
      && MarkerIndex(input, k) ==
           (if k == |input| then |input|
            else if input[k] != 0xff then MarkerIndex(input, NextIndex(input, k))
            else if ByteAt(input, q) != 0 then q else MarkerIndex(input, NextIndex(input, q)))
  {
  }

  lemma ExtendParts(m: seq<Byte>, p: nat, n: nat)
    requires n >= 1
    ensures Extend(Stream(m, p, n))
         == MsbVal(Stream(m, p, n)) + (if MsbVal(Stream(m, p, 1)) == 0 then 1 - Pow2(n) else 0)
  {
    assert Stream(m, p, 1)[..0] == [];
    assert Stream(m, p, n)[0] == Stream(m, p, 1)[0];
  }

  /** fac is the fast_ac table of h. */
  predicate FastAcFor(fac: seq<int>, h: Huffman, t: Table)
  {
    && TablesFor(h, t.lens) && |h.values| == 256 && |fac| == FAST_SIZE
    && forall c :: 0 <= c < FAST_SIZE ==> fac[c] == FastAcEntry(h, t.lens, c)
  }

  /** The fast_ac entry for the bits at p is nonzero exactly when symbol and value are short and small, and
      then it is that symbol and value. */
  lemma QuickEntry(h: Huffman, fac: seq<int>, t: Table, m: seq<Byte>, p: nat)
    requires Built(h, t) && FastAcFor(fac, h, t)
    ensures Declared(t) && Shr(Window(m, p), 7) < FAST_SIZE == |fac|
    ensures
      var r := fac[Shr(Window(m, p), 7)];
      && (r != 0 <==> Quick(t, m, p))
      && (r != 0 ==>
           var sym := SymbolAt(t, m, p);
           && r / 16 % 16 == sym.value / 16 && r % 16 == sym.length + sym.value % 16 <= FAST_BITS
           && r / 256 == Extend(Stream(m, p + sym.length, sym.value % 16)))
  {
    hide Shr, Window, TablesFor, FastAcEntry, Kraft, Sorted, Extend, Stream, CodeAt, Flagged, SymbolAt;
    var i := FastAcMeaning(h, t, m, p);
    if fac[Shr(Window(m, p), 7)] != 0 {
      SymbolIndex(t, m, p, i);
      SmallEntry(h, t, Shr(Window(m, p), 7));
    } else if Quick(t, m, p) {
      NoQuick(h, t, m, p);
    }
  }

  lemma SmallEntry(h: Huffman, t: Table, c: nat)
    requires Built(h, t) && c < FAST_SIZE && FastAcEntry(h, t.lens, c) != 0
    ensures -128 <= FastAcEntry(h, t.lens, c) / 256 <= 127
  {
    hide Extend, MsbBits, LengthsFor, CodesFor;
    FastAcUnpack(h, t.lens, c);
  }

  lemma NoQuick(h: Huffman, t: Table, m: seq<Byte>, p: nat)
    requires Built(h, t) && Shr(Window(m, p), 7) < FAST_SIZE && Quick(t, m, p)
    ensures FastAcEntry(h, t.lens, Shr(Window(m, p), 7)) != 0
  {
    hide Shr, Window, Kraft, Sorted, Extend, Stream, MsbBits, LengthsFor, CodesFor, CodeBits, At;
    var i: nat :| CodeAt(t.lens, m, p, i) && SymbolAt(t, m, p) == Sym(t.values[i], t.lens[i]);
    var c, len, size := Shr(Window(m, p), 7), t.lens[i], t.values[i] % 16;
    CodeAtMatches(t.lens, m, p, i);
    FastHitMatches(t.lens, i, Window(m, p));
    assert h.fast[c] == i;
    assert !Flagged(t.lens, i);
    IndexBits(m, p);
    StreamTake(m, p, len, len + size);
    StreamTake(m, p, len + size, FAST_BITS);
  }

  // ---------------------------------------------------------------------------
  // Whole scans

  /** What the reader keeps for a component. */
  datatype Component = Component(dc: Huffman, ac: Huffman, fac: seq<int>, dequant: seq<int>)

  predicate Components(comps: seq<Component>, codings: seq<Coding>)
  {
    && |comps| == 4 && |codings| == 4
    && forall b :: 0 <= b < 4 ==> ComponentFor(comps[b], codings[b])
  }

  predicate ComponentFor(comp: Component, c: Coding)
  {
    && Built(comp.dc, c.dc) && Built(comp.ac, c.ac)
    && FastAcFor(comp.fac, comp.ac, c.ac) && comp.dequant == c.dequant
  }

  /** The number of MCUs between two looks for a restart marker. */
  function Interval(restartInterval: nat): (n: nat)
    ensures n > 0
  {
    if restartInterval != 0 then restartInterval else 0x7fff_ffff
  }

  /** The order of the blocks in an MCU, from the sampling factors. */
  method McuOrder(scan: seq<nat>, h: seq<nat>, v: seq<nat>) returns (mcu: seq<nat>)
    requires InOrder(scan) && |h| == 4 && |v| == 4
    ensures mcu == McuOf(scan, h, v)
  {
    if |scan| == 1 { return scan; }
    mcu := [];
    for k := 0 to |scan|
      invariant mcu == Interleaved(scan[..k], h, v)
    {
      var n := scan[k];
      ghost var before := mcu;
      assert scan[..k + 1][..k] == scan[..k];
      assert before + Repeated(n, 0) == before;
      for y := 0 to v[n]
        invariant mcu == before + Repeated(n, y * h[n])
      {
        for x := 0 to h[n]
          invariant mcu == before + Repeated(n, y * h[n] + x)
        {
          mcu := mcu + [n];
          OneMore(n, y * h[n] + x);
        }
        assert y * h[n] + h[n] == (y + 1) * h[n];
      }
    }
    assert scan[..|scan|] == scan;
  }

  lemma OneMore(c: nat, n: nat)
    ensures Repeated(c, n) + [c] == Repeated(c, n + 1)
  {
  }

  /** The MCUs of the image. */
  method FindMcus(frame: Frame, scan: seq<nat>) returns (mcus: seq<seq<nat>>)
    requires ValidFrame(frame) && ValidScan(frame, scan)
    ensures mcus == Mcus(frame, scan) && InOrders(mcus)
  {
    hide McuOf, Across, Down;
    var across, down := FindGrid(frame, scan);
    var mcu := McuOrder(scan, frame.h, frame.v);
    McuInOrder(scan, frame.h, frame.v);
    var n := down * across;
    mcus := seq(n, _ => mcu);
  }

  class Reader {
    const input: seq<Byte>
    ghost var data: seq<Byte>     // the bytes of this interval of the scan, without stuffing
    ghost var mark: nat           // where the marker after them stands
    var pos: nat
    var codeBuffer: nat
    var codeBits: int
    var marker: int
    var nomore: bool
    var dcPred: seq<int>          // one prediction for each of the four components
    ghost var fed: nat            // data bytes moved into the buffer, counting the zeros after the end

    /** The data as a stream of bits. */
    ghost function Scan(): seq<Byte>
      reads `data
    {
      Mirror(data)
    }

    /** The buffer holds exactly the next codeBits bits of the scan. */
    ghost predicate Valid()
      reads this
    {
      && 0 <= codeBits <= 32 && codeBits <= 8 * fed
      && codeBuffer == Register(Scan(), 8 * fed - codeBits, codeBits)
      && Synced(input, data, mark, pos, nomore, fed)
      && |dcPred| == 4
      && marker == if nomore && mark < |input| then input[mark] else 0xff
    }

    ghost function Src(): Source
      reads `data, `mark
    {
      Source(Scan(), mark < |input|)
    }

    /** Bits used and bytes buffered. */
    ghost function Where(): Spot
      reads this
      requires Valid()
    {
      Spot(8 * fed - codeBits, fed, nomore)
    }

    /** The reader at the start of an interval. */
    ghost predicate Begins(start: nat)
      reads this
    {
      && Valid() && Src() == SourceAt(input, start) && mark == MarkerIndex(input, start)
      && Where() == Spot(0, 0, false) && dcPred == [0, 0, 0, 0]
    }

    /** A scan that starts at byte start. */
    constructor (input: seq<Byte>, start: nat)
      requires start <= |input|
      ensures this.input == input && Begins(start)
    {
      this.input := input;
      data, mark := Unstuff(input, start), MarkerIndex(input, start);
      pos, codeBuffer, codeBits, marker, nomore := start, 0, 0, 0xff, false;
      dcPred := [0, 0, 0, 0];
      fed := 0;
      new;
      EmptyRegister(Scan());
    }

    /** stbi__jpeg_reset: the data after the marker are read anew. */
    method Reset()
      requires Valid()
      modifies this
      ensures pos == old(pos) && Begins(pos)
    {
      data, mark := Unstuff(input, pos), MarkerIndex(input, pos);
      codeBuffer, codeBits, marker, nomore := 0, 0, 0xff, false;
      dcPred := [0, 0, 0, 0];
      fed := 0;
      EmptyRegister(Scan());
    }

    /** stbi__get8. */
    method Get8() returns (b: Byte)
      requires pos <= |input|
      modifies `pos
      ensures b == ByteAt(input, old(pos))
      ensures pos == if old(pos) < |input| then old(pos) + 1 else old(pos)
    {
      b := 0;
      if pos < |input| {
        b := input[pos];
        pos := pos + 1;
      }
    }

    /** The next data byte, or the marker that stands in its place. */
    method NextByte() returns (b: Byte, stop: bool)
      requires Valid() && !nomore
      modifies `pos, `marker, `nomore
      ensures stop <==> mark < |input| && fed >= |data|
      ensures stop ==> Valid() && nomore
      ensures !stop ==> !nomore && marker == 0xff && b == ByteAt(data, fed)
      ensures !stop ==> Synced(input, data, mark, pos, false, fed + 1)
    {
      hide Unstuff, Register, MarkerIndex;
      NextData(input, data, mark, pos, fed);
      stop := false;
      b := Get8();
      if b == 0xff {
        ghost var q := pos;
        var c := Get8();
        while c == 0xff
          invariant !nomore && marker == 0xff && q <= |input| && pos == NextIndex(input, q) && c == ByteAt(input, q)
          invariant SkipFill(input, old(pos)) == SkipFill(input, q)
          decreases |input| - q
        {
          q := pos;
          c := Get8();
        }
        if c != 0 {
          marker := c;
          nomore := true;
          stop := true;
          return;
        }
      }
    }

    /** Puts the next byte below the buffered bits. */
    method Put(b: Byte)
      requires 0 <= codeBits <= 24 && codeBits <= 8 * fed && b == ByteAt(data, fed) && |dcPred| == 4
      requires codeBuffer == Register(Scan(), 8 * fed - codeBits, codeBits)
      requires Synced(input, data, mark, pos, nomore, fed + 1)
      requires marker == if nomore && mark < |input| then input[mark] else 0xff
      modifies `codeBuffer, `codeBits, `fed
      ensures Valid() && codeBits == old(codeBits) + 8 && fed == old(fed) + 1
    {
      hide Register, Shl, Synced, Mirror, ByteAt;
      RegisterByte(data, 8 * fed - codeBits, codeBits, fed);
      codeBuffer := codeBuffer + Shl(b, 24 - codeBits);
      codeBits := codeBits + 8;
      fed := fed + 1;
    }

    /** stbi__grow_buffer_unsafe: fills the buffer with data, or with zeros after the marker has been met. */
    method GrowBuffer()
      requires Valid() && codeBits <= 24
      modifies `pos, `codeBuffer, `codeBits, `marker, `nomore, `fed
      ensures Valid() && Where() == Grow(Src(), old(Where()))
    {
      hide Register, Synced, Mirror, Grow, ByteAt;
      while true
        invariant Valid() && codeBits <= 24 && Grow(Src(), Where()) == Grow(Src(), old(Where()))
        decreases 24 - codeBits
      {
        var b: Byte := 0;
        GrowOnce(Src(), Where());
        if !nomore {
          var stop;
          b, stop := NextByte();
          if stop { return; }
        } else {
          AfterMarker(input, data, mark, pos, fed);
        }
        Put(b);
        if !(codeBits <= 24) { break; }
      }
    }

    /** At least n bits, if they can be had. */
    method Need(n: nat)
      requires Valid() && n <= 16
      modifies `pos, `codeBuffer, `codeBits, `marker, `nomore, `fed
      ensures Valid() && Where() == Fill(Src(), old(Where()), n)
      ensures codeBits >= n || 8 * fed >= 8 * |data|
    {
      hide Register, Synced, Mirror, Grow;
      InStep(input, data, mark, pos, nomore, fed);
      FillFine(Src(), Where(), n);
      if codeBits < n { GrowBuffer(); }
    }

    /** Takes n buffered bits. */
    method Drop(n: nat)
      requires Valid() && n <= codeBits
      modifies `codeBuffer, `codeBits
      ensures Valid() && Where() == Ahead(old(Where()), n)
    {
      hide Register, Synced, Low, Shl;
      RegisterShift(Scan(), 8 * fed - codeBits, codeBits, n);
      codeBuffer := Low(Shl(codeBuffer, n), 32);
      codeBits := codeBits - n;
    }

    /** stbi__jpeg_huff_decode: the next symbol, or -1 when no code stands at the reader's position
        or its bits are not buffered. */
    method HuffDecode(h: Huffman, ghost t: Table) returns (r: int)
      requires Valid() && Built(h, t) && Declared(t)
      modifies `pos, `codeBuffer, `codeBits, `marker, `nomore, `fed
      ensures match TakeSymbol(t, Src(), old(Where()))
        case Failed => r == -1
        case Taken(v, s) => r == v && Valid() && Where() == s
    {
      hide Register, Synced, Shr, Built, Window, Mirror, SymbolAt, Declared, Fill;
      Need(16);
      ghost var m, p := Scan(), Where().p;
      Shape(h, t);
      FastReads(h, t, m, p);
      TopWindow(m, p, codeBits);
      var k := h.fast[Shr(codeBuffer, 32 - FAST_BITS)];
      if k < 255 {
        var s := h.size[k];
        if s > codeBits { return -1; }
        Drop(s);
        return h.values[k];
      }
      r := SlowDecode(h, t);
    }

    /** The part of stbi__jpeg_huff_decode for codes that the fast table does not hold. */
    method SlowDecode(h: Huffman, ghost t: Table) returns (r: int)
      requires Valid() && Built(h, t) && Declared(t) && Shaped(h) && (codeBits >= 16 || 8 * fed >= 8 * |data|)
      requires Shr(Window(Scan(), Where().p), 7) < FAST_SIZE && h.fast[Shr(Window(Scan(), Where().p), 7)] >= 255
      modifies `codeBuffer, `codeBits
      ensures match SymbolAt(t, Scan(), old(Where()).p)
        case NoSym => r == -1
        case Sym(v, n) => if n <= old(codeBits) then r == v && Valid() && Where() == Ahead(old(Where()), n) else r == -1
    {
      hide Register, Synced, Shr, Built, Window, Mirror, SymbolAt, Declared;
      ghost var m, p := Scan(), Where().p;
      TopWindow(m, p, codeBits);
      var temp := Shr(codeBuffer, 16);
      var k := FAST_BITS + 1;
      while !(temp < h.maxcode[k])
        invariant FAST_BITS < k <= 17
        invariant forall j :: FAST_BITS < j < k ==> temp >= h.maxcode[j]
        decreases 17 - k
      {
        k := k + 1;
      }
      SlowReads(h, t, m, p, k);
      if k == 17 {
        codeBits := codeBits - 16;
        return -1;
      }
      RegisterShr(m, p, codeBits, k);
      var c := Shr(codeBuffer, 32 - k) + h.delta[k];
      if k > codeBits { return -1; }
      if c < 0 || c >= 256 { return -1; }
      RegisterShr(m, p, codeBits, h.size[c]);
      assert Shr(codeBuffer, 32 - h.size[c]) == h.code[c];
      Drop(k);
      return h.values[c];
    }

    /** stbi__extend_receive: a signed value of n bits, or 0 when they are not buffered. The table of biases
        holds 1 - 2^n. */
    method ExtendReceive(n: nat) returns (v: int)
      requires Valid() && 1 <= n <= 15
      modifies `pos, `codeBuffer, `codeBits, `marker, `nomore, `fed
      ensures Valid() && (v, Where()) == TakeValue(Src(), old(Where()), n)
    {
      hide Register, Synced, Shr, Mirror, Extend, Pow2, Fill;
      Need(n);
      if codeBits < n { return 0; }
      ghost var m, p := Scan(), Where().p;
      RegisterTop(m, p, codeBits, n);
      RegisterTop(m, p, codeBits, 1);
      ExtendParts(m, p, n);
      var sgn := Shr(codeBuffer, 31);
      var k := Shr(codeBuffer, 32 - n);
      Drop(n);
      return k + (if sgn == 0 then 1 - Pow2(n) else 0);
    }

    /** One turn of the coefficient loop of stbi__jpeg_decode_block, through the fast_ac table or by
        decoding a symbol and receiving its value. */
    method AcStep(block: array<int>, h: Huffman, fac: seq<int>, ghost t: Table, dequant: seq<int>, k0: nat)
      returns (ok: bool, stop: bool, k: nat)
      requires Valid() && Built(h, t) && Declared(t) && FastAcFor(fac, h, t)
      requires block.Length == 64 && |dequant| == 64 && k0 < 64
      modifies `pos, `codeBuffer, `codeBits, `marker, `nomore, `fed, block
      ensures match AcMove(t, Src(), old(Where()), k0, old(block[..]), dequant)
        case Stuck => !ok
        case Move(at, k', block', stop') =>
          ok && Valid() && Where() == at && k == k' && block[..] == block' && stop == stop'
    {
      hide Register, Synced, Shr, Built, FastAcFor, Mirror, Window, ToShort, DeZigZag, Extend, Fill, TakeSymbol,
        TakeValue, SymbolAt, Quick, Declared;
      Need(16);
      ghost var m, p, was := Scan(), Where().p, block[..];
      ok, stop, k := true, false, k0;
      TopWindow(m, p, codeBits);
      QuickEntry(h, fac, t, m, p);
      var r := fac[Shr(codeBuffer, 32 - FAST_BITS)];
      if r != 0 {
        k := k + r / 16 % 16;
        var s := r % 16;
        if s > codeBits { return false, false, k; }
        Drop(s);
        var zig := DeZigZag(k);
        block[zig] := ToShort(r / 256 * dequant[zig]);
        k := k + 1;
        assert block[..] == was[zig := ToShort(r / 256 * dequant[zig])];
      } else {
        ok, stop, k := AcSlowStep(block, h, t, dequant, k0);
      }
    }

    method AcSlowStep(block: array<int>, h: Huffman, ghost t: Table, dequant: seq<int>, k0: nat)
      returns (ok: bool, stop: bool, k: nat)
      requires Valid() && Built(h, t) && Declared(t)
      requires block.Length == 64 && |dequant| == 64 && k0 < 64
      modifies `pos, `codeBuffer, `codeBits, `marker, `nomore, `fed, block
      ensures match SlowMove(t, Src(), old(Where()), k0, old(block[..]), dequant)
        case Stuck => !ok
        case Move(at, k', block', stop') =>
          ok && Valid() && Where() == at && k == k' && block[..] == block' && stop == stop'
    {
      hide Register, Synced, Built, Mirror, ToShort, DeZigZag, TakeSymbol, TakeValue, Declared;
      ghost var was := block[..];
      ok, stop, k := true, false, k0;
      var rs := HuffDecode(h, t);
      if rs < 0 { return false, false, k; }
      var s := rs % 16;
      var r := rs / 16;
      if s == 0 {
        if rs != 0xf0 { return true, true, k; }
        k := k + 16;
      } else {
        k := k + r;
        var zig := DeZigZag(k);
        var v := ExtendReceive(s);
        block[zig] := ToShort(v * dequant[zig]);
        k := k + 1;
        assert block[..] == was[zig := ToShort(v * dequant[zig])];
      }
    }

    /** The coefficient loop. */
    method DecodeAc(block: array<int>, h: Huffman, fac: seq<int>, ghost t: Table, dequant: seq<int>)
      returns (ok: bool)
      requires Valid() && Built(h, t) && Declared(t) && FastAcFor(fac, h, t) && block.Length == 64 && |dequant| == 64
      modifies `pos, `codeBuffer, `codeBits, `marker, `nomore, `fed, block
      ensures match TakeAc(t, Src(), old(Where()), 1, old(block[..]), dequant)
        case Failed => !ok
        case Taken(b, s) => ok && Valid() && Where() == s && block[..] == b
    {
      hide Register, Synced, Built, FastAcFor, Mirror, AcMove, Declared;
      var k := 1;
      while true
        invariant Valid() && 1 <= k < 64
        invariant TakeAc(t, Src(), Where(), k, block[..], dequant)
          == TakeAc(t, Src(), old(Where()), 1, old(block[..]), dequant)
        decreases 64 - k
      {
        var stop;
        ok, stop, k := AcStep(block, h, fac, t, dequant, k);
        if !ok { return; }
        if stop || !(k < 64) { return; }
      }
    }

    /** stbi__jpeg_decode_block for component b: for every scan, also one whose data end inside the block. */
    method DecodeBlock(
        block: array<int>, hdc: Huffman, hac: Huffman, fac: seq<int>, b: nat, dequant: seq<int>, ghost coding: Coding)
      returns (ok: bool)
      requires Valid() && b < 4 && block.Length == 64
      requires GoodCoding(coding) && coding.dequant == dequant
      requires Built(hdc, coding.dc) && Built(hac, coding.ac) && FastAcFor(fac, hac, coding.ac)
      modifies `pos, `codeBuffer, `codeBits, `marker, `nomore, `fed, `dcPred, block
      ensures match TakeBlock(coding, Src(), old(Where()), old(dcPred)[b])
        case Failed => !ok
        case Taken(r, s) => ok && Valid() && Where() == s && block[..] == r.0 && dcPred == old(dcPred)[b := r.1]
    {
      hide Register, Synced, Built, FastAcFor, Mirror, TakeDc, TakeAc, DcOnly, Declared, ToShort;
      ok := DecodeDc(hdc, coding.dc, b, dequant[0]);
      if !ok { return; }
      label DcDone:
      for i := 0 to 64
        invariant Valid() && Where() == old@DcDone(Where()) && dcPred == old@DcDone(dcPred)
        invariant forall j :: 0 <= j < i ==> block[j] == 0
      {
        block[i] := 0;
      }
      block[0] := ToShort(dcPred[b] * dequant[0]);
      OnlyDc(block[..], dcPred[b], dequant[0]);
      ok := DecodeAc(block, hac, fac, coding.ac, dequant);
    }

    method DecodeDc(hdc: Huffman, ghost dc: Table, b: nat, scale: int) returns (ok: bool)
      requires Valid() && b < 4 && Built(hdc, dc) && Declared(dc)
      modifies `pos, `codeBuffer, `codeBits, `marker, `nomore, `fed, `dcPred
      ensures match TakeDc(dc, Src(), old(Where()), old(dcPred)[b], scale)
        case Failed => !ok
        case Taken(d, s) => ok && Valid() && Where() == s && dcPred == old(dcPred)[b := d]
    {
      hide Register, Synced, Built, Mirror, MulValid, ToShort, TakeSymbol, TakeValue, Fill, Declared;
      Need(16);
      var t := HuffDecode(hdc, dc);
      ok := false;
      if t < 0 || t > 15 { return; }
      var diff := 0;
      if t != 0 { diff := ExtendReceive(t); }
      if !AddValid(dcPred[b], diff) { return; }
      dcPred := dcPred[b := dcPred[b] + diff];
      if !MulValid(ToShort(dcPred[b]), ToShort(scale)) { return; }
      ok := true;
    }

    /** The blocks of one MCU. */
    method DecodeMcu(
        comps: seq<Component>, mcu: seq<nat>, ghost codings: seq<Coding>, ghost order: seq<nat>, blocks0: seq<seq<int>>)
      returns (ok: bool, blocks: seq<seq<int>>)
      requires GoodCodings(codings) && Components(comps, codings) && InOrder(mcu) && InOrder(order)
      requires Valid() && TakeScan(codings, Src(), order) == Taken((blocks0, dcPred), Where())
      modifies `pos, `codeBuffer, `codeBits, `marker, `nomore, `fed, `dcPred
      ensures InOrder(order + mcu)
      ensures match TakeScan(codings, Src(), order + mcu)
        case Failed => !ok
        case Taken(r, s) => ok && Valid() && Where() == s && blocks == r.0 && dcPred == r.1
    {
      hide Register, Synced, Built, FastAcFor, Mirror, TakeBlock, TakeScan, GoodCoding;
      blocks := blocks0;
      assert order + mcu[..0] == order;
      for i := 0 to |mcu|
        invariant Valid() && TakeScan(codings, Src(), order + mcu[..i]) == Taken((blocks, dcPred), Where())
      {
        var block := new int[64](_ => 0);
        var b := mcu[i];
        NextBlock(codings, Src(), order, mcu, i, blocks, dcPred, Where());
        ok := DecodeBlock(block, comps[b].dc, comps[b].ac, comps[b].fac, b, comps[b].dequant, codings[b]);
        if !ok {
          return;
        }
        blocks := blocks + [block[..]];
      }
      ok := true;
      assert order + mcu[..|mcu|] == order + mcu;
    }

    /** The end of a restart interval: the scan goes on after a restart marker only. */
    method NextInterval() returns (more: bool)
      requires Valid()
      modifies this
      ensures more <==> RestartAfter(input, old(Src()), old(mark), old(Where()))
      ensures more ==> Begins(old(mark) + 1)
    {
      hide Register, Synced, Mirror, Grow;
      if codeBits < 24 { GrowBuffer(); }
      if !(0xd0 <= marker <= 0xd7) { return false; }
      MarkerPassed(input, data, mark, pos, fed);
      Reset();
      return true;
    }

    /** The MCUs one after the other, with a look for a restart marker after every restart interval. */
    method DecodeScan(
        comps: seq<Component>, mcus: seq<seq<nat>>, restartInterval: nat, ghost codings: seq<Coding>, ghost start: nat)
      returns (ok: bool, blocks: seq<seq<int>>)
      requires GoodCodings(codings) && Components(comps, codings) && InOrders(mcus) && Begins(start)
      modifies this
      ensures match TakeIntervals(codings, input, start, mcus, Interval(restartInterval))
        case None => !ok
        case Some(s) => ok && blocks == s
    {
      hide Register, Synced, Mirror, TakeScan, TakeIntervals, GoodCodings, Components, RestartAfter, Flat,
        MarkerIndex, SourceAt, Interval, InOrder;
      ghost var n, interval := |mcus|, Interval(restartInterval);
      ghost var all := TakeIntervals(codings, input, start, mcus, interval);
      ghost var first: nat, a := start, 0;
      var todo := Interval(restartInterval);
      var current: seq<seq<int>> := [];
      ok, blocks := true, [];
      Nothing(codings, Src(), mcus, 0);
      PrependNothing(all);
      assert mcus[0..] == mcus;
      for i := 0 to |mcus|
        invariant a <= i && todo == interval - (i - a) > 0
        invariant Valid() && Src() == SourceAt(input, first) && mark == MarkerIndex(input, first)
        invariant InOrder(Flat(mcus[a..i]))
        invariant TakeScan(codings, Src(), Flat(mcus[a..i])) == Taken((current, dcPred), Where())
        invariant all == Prepend(blocks, TakeIntervals(codings, input, first, mcus[a..], interval))
      {
        FlatNext(mcus, a, i);
        ok, current := DecodeMcu(comps, mcus[i], codings, Flat(mcus[a..i]), current);
        if !ok {
          IntervalFails(codings, input, first, mcus, a, i + 1, interval);
          return;
        }
        todo := todo - 1;
        if todo <= 0 {
          IntervalDone(codings, input, first, mcus, a, i + 1, current, dcPred, Where());
          ghost var next := mark + 1;
          var more := NextInterval();
          if !more { return true, blocks + current; }
          PrependTwice(blocks, current, TakeIntervals(codings, input, next, mcus[i + 1..], interval));
          Nothing(codings, Src(), mcus, i + 1);
          blocks, current, todo := blocks + current, [], Interval(restartInterval);
          first, a := next, i + 1;
        }
      }
      LastInterval(codings, input, first, mcus, a, interval, current, dcPred, Where());
      blocks := blocks + current;
    }

    /** stbi__parse_entropy_coded_data for a baseline scan: the MCUs of the image, or the blocks of its only
        component, row by row. */
    method ParseEntropyCodedData(
        comps: seq<Component>, frame: Frame, scan: seq<nat>, restartInterval: nat, ghost codings: seq<Coding>)
      returns (ok: bool, blocks: seq<seq<int>>)
      requires GoodCodings(codings) && Components(comps, codings) && ValidFrame(frame) && ValidScan(frame, scan)
      requires Valid()
      modifies this
      ensures InOrders(Mcus(frame, scan))
      ensures match TakeIntervals(codings, input, old(pos), Mcus(frame, scan), Interval(restartInterval))
        case None => !ok
        case Some(s) => ok && blocks == s
    {
      hide GoodCodings, Components, TakeIntervals, Mcus, Interval, Valid;
      Reset();
      var mcus := FindMcus(frame, scan);
      ok, blocks := DecodeScan(comps, mcus, restartInterval, codings, pos);
    }
  }

  /** A marker that has been met stands just before the reader. */
  lemma MarkerPassed(input: seq<Byte>, data: seq<Byte>, mark: nat, pos: nat, fed: nat)
    requires Synced(input, data, mark, pos, true, fed)
    ensures pos == mark + 1
  {
  }

  lemma EmptyRegister(m: seq<Byte>)
    ensures Register(m, 0, 0) == 0
  {
    MsbValZeros(32);
    assert Stream(m, 0, 0) + Zeros(32) == Zeros(32);
  }

  lemma BuiltDeclared(h: Huffman, t: Table)
    requires Built(h, t)
    ensures Declared(t)
  {
  }

  lemma OnlyDc(block: seq<int>, dc: int, scale: int)
    requires |block| == 64 && block[0] == ToShort(dc * scale) && forall j :: 1 <= j < 64 ==> block[j] == 0
    ensures block == DcOnly(dc, scale)
  {
    hide ToShort;
  }

  lemma TopWindow(m: seq<Byte>, p: nat, n: nat)
    requires 16 <= n <= 32 || (n <= 32 && p + n >= 8 * |m|)
    ensures Shr(Register(m, p, n), 16) == Window(m, p)
    ensures Shr(Register(m, p, n), 32 - FAST_BITS) == Shr(Window(m, p), 7)
  {
    hide Register, MsbVal, Stream, Shr;
    RegisterTop(m, p, n, 16);
    ShrShr(Register(m, p, n), 16, 7);
  }

  lemma RegisterShr(m: seq<Byte>, p: nat, n: nat, k: nat)
    requires 16 <= n <= 32 || (n <= 32 && p + n >= 8 * |m|)
    requires k <= 16
    ensures Shr(Register(m, p, n), 32 - k) == Shr(Window(m, p), 16 - k)
  {
    hide Register, MsbVal, Stream, Shr;
    TopWindow(m, p, n);
    ShrShr(Register(m, p, n), 16, 16 - k);
  }

  lemma AfterMarker(input: seq<Byte>, data: seq<Byte>, mark: nat, pos: nat, fed: nat)
    requires Synced(input, data, mark, pos, true, fed)
    ensures ByteAt(data, fed) == 0 && Synced(input, data, mark, pos, true, fed + 1)
  {
  }

  lemma InStep(input: seq<Byte>, data: seq<Byte>, mark: nat, pos: nat, nomore: bool, fed: nat)
    requires Synced(input, data, mark, pos, nomore, fed)
    ensures nomore ==> fed >= |data|
    ensures !nomore && mark < |input| ==> fed <= |data|
  {
  }
}
