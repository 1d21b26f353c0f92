/** What the reader's tables say about the bits at a position: stbi__huffman lookups and the
    fast_ac table that decodes small coefficients in one step. */
module JpegTables {
  import opened BitStrings
  import opened Canonical
  import opened JpegBits
  import opened JpegHuffman
  import opened JpegFormat

  /** h was built from the declared table t, and no symbol has the flag as its index. */
  predicate Built(h: Huffman, t: Table)
  {
    && Declared(t) && TablesFor(h, t.lens) && h.values == t.values
    && forall i :: 0 <= i < |t.lens| ==> !Flagged(t.lens, i)
  }

  /** The 16 bits from p on. */
  function Window(m: seq<Byte>, p: nat): (w: nat)
    ensures w < 0x10000
  {
    MsbValBound(Stream(m, p, 16));
    Pow2Values();
    MsbVal(Stream(m, p, 16))
  }

  lemma CodeAtMatches(lens: seq<nat>, m: seq<Byte>, p: nat, i: nat)
    requires AtMost(lens, 16) && Kraft(lens, 16) && i < |lens| && lens[i] > 0
    ensures CodeAt(lens, m, p, i) <==> Matches(lens, i, Window(m, p))
  {
    hide Matches, Kraft;
    PrefixIffMatches(lens, i, 16, Stream(m, p, 16));
    StreamTake(m, p, lens[i], 16);
  }

  /** A lookup of the bits at p finds the symbol whose code stands there. */
  lemma LookupMeaning(h: Huffman, t: Table, m: seq<Byte>, p: nat)
    requires Built(h, t)
    ensures
      match Lookup(h, t.lens, Window(m, p))
      case Found(i, n) => i < |t.lens| && n == t.lens[i] && CodeAt(t.lens, m, p, i)
      case NotFound => forall i: nat :: !CodeAt(t.lens, m, p, i)
  {
    hide Lookup, Window, Matches, Kraft, TablesFor, CodeAt;
    var w := Window(m, p);
    if i: nat :| i < |t.lens| && Matches(t.lens, i, w) {
      LookupExact(h, t.lens, i, w);
      CodeAtMatches(t.lens, m, p, i);
    } else {
      LookupNone(h, t.lens, w);
      forall i: nat ensures !CodeAt(t.lens, m, p, i) {
        NoCodeAt(t, m, p, i);
      }
    }
  }

  /** Symbol r stands at p and ends at q. */
  ghost predicate Reads(t: Table, m: seq<Byte>, p: nat, r: int, q: nat)
  {
    Declared(t) && 0 <= r < 256 && p < q <= p + 16 && SymbolAt(t, m, p) == Sym(r, q - p)
  }

  ghost predicate NoSymbol(t: Table, m: seq<Byte>, p: nat)
  {
    Declared(t) && SymbolAt(t, m, p) == NoSym
  }

  /** The lookup is the plain decoder's symbol. */
  lemma LookupReads(h: Huffman, t: Table, m: seq<Byte>, p: nat)
    requires Built(h, t)
    ensures
      match Lookup(h, t.lens, Window(m, p))
      case Found(i, n) => i < 256 && 0 < n <= 16 && Reads(t, m, p, t.values[i], p + n)
      case NotFound => NoSymbol(t, m, p)
  {
    hide Lookup, Window, Kraft, TablesFor, Flagged;
    LookupMeaning(h, t, m, p);
    match Lookup(h, t.lens, Window(m, p))
    case Found(i, n) => SymbolIndex(t, m, p, i);
    case NotFound =>
  }

  /** The reader's assertion about the symbol found holds. */
  lemma FoundChecked(h: Huffman, t: Table, m: seq<Byte>, p: nat)
    requires Built(h, t)
    ensures
      match Lookup(h, t.lens, Window(m, p))
      case Found(i, _) => Checked(h, Window(m, p), i)
      case NotFound => true
  {
    hide Lookup, Window, Kraft, TablesFor, Flagged, Checked, Sorted;
    LookupMeaning(h, t, m, p);
    match Lookup(h, t.lens, Window(m, p))
    case Found(i, n) =>
      CodeAtMatches(t.lens, m, p, i);
      MatchChecked(h, t.lens, i, Window(m, p));
    case NotFound =>
  }

  /** The sizes of the tables, and their value ranges. */
  predicate Shaped(h: Huffman)
  {
    && |h.fast| == FAST_SIZE && |h.size| == 257 && |h.values| == 256 && |h.maxcode| == 18 && |h.delta| == 17
    && h.maxcode[17] == 0xffff_ffff
  }

  lemma Shape(h: Huffman, t: Table)
    requires Built(h, t)
    ensures Shaped(h)
  {
  }

  lemma FastReads(h: Huffman, t: Table, m: seq<Byte>, p: nat)
    requires Built(h, t) && Shaped(h)
    ensures Shr(Window(m, p), 7) < FAST_SIZE
    ensures var k := h.fast[Shr(Window(m, p), 7)];
      k < 255 ==> 0 <= k && 0 < h.size[k] <= 16 && Reads(t, m, p, h.values[k], p + h.size[k])
  {
    hide Window, Shr, FastFor, CodesFor, LengthsFor, Reads, Flagged, Kraft, Sorted, AtMost;
    FastIndex(h, t.lens, Window(m, p));
    LookupReads(h, t, m, p);
  }

  lemma SlowReads(h: Huffman, t: Table, m: seq<Byte>, p: nat, n: nat)
    requires Built(h, t) && Shaped(h)
    requires Shr(Window(m, p), 7) < FAST_SIZE && h.fast[Shr(Window(m, p), 7)] >= 255
    requires FAST_BITS < n <= 17 && Window(m, p) < h.maxcode[n]
    requires forall k :: FAST_BITS < k < n ==> Window(m, p) >= h.maxcode[k]
    ensures n == 17 ==> NoSymbol(t, m, p)
    ensures n < 17 ==>
      var c := Shr(Window(m, p), 16 - n) + h.delta[n];
      if c < 0 || c >= 256 then NoSymbol(t, m, p) else Reads(t, m, p, h.values[c], p + n) && Checked(h, Window(m, p), c)
  {
    hide Window, Shr, FastFor, CodesFor, SizesFor, LengthsFor, Reads, NoSymbol, Flagged, Kraft, Sorted, AtMost,
      SlowLength;
    FastIndex(h, t.lens, Window(m, p));
    LookupReads(h, t, m, p);
    FoundChecked(h, t, m, p);
    SlowLengthIs(h, Window(m, p), FAST_BITS + 1, n);
  }

  lemma SlowLengthIs(h: Huffman, w: nat, s: nat, n: nat)
    requires |h.maxcode| == 18 && h.maxcode[17] == 0xffff_ffff && w < 0x10000 && 1 <= s <= n <= 17
    requires w < h.maxcode[n] && forall k :: s <= k < n ==> w >= h.maxcode[k]
    ensures SlowLength(h, w, s) == n
  {
  }

  lemma NoCodeAt(t: Table, m: seq<Byte>, p: nat, i: nat)
    requires Declared(t) && (i < |t.lens| ==> !Matches(t.lens, i, Window(m, p)))
    ensures !CodeAt(t.lens, m, p, i)
  {
    if i < |t.lens| { CodeAtMatches(t.lens, m, p, i); }
  }

  // ---------------------------------------------------------------------------
  // stbi__build_fast_ac

  /** The coefficient, run and total length that the nine index bits c determine by themselves,
      packed into 16 bits, or 0. */
  function FastAcEntry(h: Huffman, lens: seq<nat>, c: nat): (r: int)
    requires TablesFor(h, lens) && |h.values| == 256 && c < FAST_SIZE
  {
    FastEntryRange(h, lens, c);
    var i := h.fast[c];
    if i == 255 then 0 else
    var len, run, size := lens[i], h.values[i] / 16 % 16, h.values[i] % 16;
    if size == 0 || len + size > FAST_BITS then 0 else
    var v := Extend(MsbBits(c, FAST_BITS)[len..len + size]);
    if -128 <= v <= 127 then 256 * v + 16 * run + len + size else 0
  }

  lemma FastEntryRange(h: Huffman, lens: seq<nat>, c: nat)
    requires TablesFor(h, lens) && c < FAST_SIZE
    ensures h.fast[c] != 255 ==> 0 <= h.fast[c] < |lens|
  {
    if h.fast[c] != 255 {
      var i :| 0 <= i < |lens| && FastHit(lens, i, c);
    }
  }

  /** The value bits inside the index, taken out by shifting. */
  lemma ValueInside(c: nat, len: nat, size: nat)
    requires c < FAST_SIZE && 0 < size && len + size <= FAST_BITS
    ensures var s := MsbBits(c, FAST_BITS)[len..len + size];
      var k := Shr(Low(Shl(c, len), FAST_BITS), FAST_BITS - size);
      MsbVal(s) == k && (s[0] <==> k >= Pow2(size - 1))
  {
    hide MsbVal, MsbBits, Shr, Low, Shl, Pow2;
    var b := MsbBits(c, FAST_BITS);
    FastSizeIsPow2();
    MsbValBits(c, FAST_BITS);
    ShiftOut(b, len);
    var t := b[len..] + Zeros(len);
    MsbValSplit(t, size);
    assert t[..size] == b[len..len + size];
    TopBit(b[len..len + size]);
  }

  lemma FastSizeIsPow2()
    ensures Pow2(FAST_BITS) == FAST_SIZE
  {
  }

  method BuildFastAc(h: Huffman, ghost lens: seq<nat>) returns (fac: seq<int>)
    requires TablesFor(h, lens) && |h.values| == 256
    ensures |fac| == FAST_SIZE
    ensures forall c :: 0 <= c < FAST_SIZE ==> fac[c] == FastAcEntry(h, lens, c)
  {
    var a := new int[FAST_SIZE](_ => 0);
    for c := 0 to FAST_SIZE
      invariant forall j :: 0 <= j < c ==> a[j] == FastAcEntry(h, lens, j)
    {
      a[c] := FastAc(h, lens, c);
    }
    fac := a[..];
  }

  method FastAc(h: Huffman, ghost lens: seq<nat>, c: nat) returns (r: int)
    requires TablesFor(h, lens) && |h.values| == 256 && c < FAST_SIZE
    ensures r == FastAcEntry(h, lens, c)
  {
    hide Shr, Low, Shl, Pow2, MsbBits, MsbVal, LengthsFor, CodesFor;
    r := 0;
    var fast := h.fast[c];
    FastEntryRange(h, lens, c);
    if fast < 255 {
      var rs := h.values[fast];
      var run := rs / 16 % 16;
      var magbits := rs % 16;
      var len := h.size[fast];
      if magbits != 0 && len + magbits <= FAST_BITS {
        ValueInside(c, len, magbits);
        var k: int := Shr(Low(Shl(c, len), FAST_BITS), FAST_BITS - magbits);
        var m := Pow2(magbits - 1);
        if k < m { k := k - Pow2(magbits) + 1; }
        if -128 <= k <= 127 {
          r := k * 256 + run * 16 + len + magbits;
        }
      }
    }
  }

  /** A nonzero entry says what decoding a symbol and then receiving its value gives. */
  lemma FastAcMeaning(h: Huffman, t: Table, m: seq<Byte>, p: nat) returns (i: nat)
    requires Built(h, t)
    ensures Shr(Window(m, p), 7) < FAST_SIZE
    ensures var r := FastAcEntry(h, t.lens, Shr(Window(m, p), 7));
      r != 0 ==>
        && i < |t.lens| && CodeAt(t.lens, m, p, i)
        && t.values[i] % 16 > 0
        && r % 16 == t.lens[i] + t.values[i] % 16 <= FAST_BITS
        && r / 16 % 16 == t.values[i] / 16
        && r / 256 == Extend(Stream(m, p + t.lens[i], t.values[i] % 16))
  {
    hide Shr, MsbBits, MsbVal, LengthsFor, CodesFor, Stream, Extend, Kraft, At, Window, CodeBits;
    var w := Window(m, p);
    FastIndex(h, t.lens, w);
    IndexBits(m, p);
    var c := Shr(w, 7);
    i := 0;
    if FastAcEntry(h, t.lens, c) != 0 {
      i := FastHolder(h, t, m, p);
      var len, size := t.lens[i], t.values[i] % 16;
      FastAcUnpack(h, t.lens, c);
      StreamTake(m, p, len, len + size);
      StreamTake(m, p, len + size, FAST_BITS);
    }
  }

  lemma FastHolder(h: Huffman, t: Table, m: seq<Byte>, p: nat) returns (i: nat)
    requires Built(h, t) && Shr(Window(m, p), 7) < FAST_SIZE && h.fast[Shr(Window(m, p), 7)] != 255
    ensures i < |t.lens| && h.fast[Shr(Window(m, p), 7)] == i && CodeAt(t.lens, m, p, i)
  {
    hide Shr, Window, CodeAt, Kraft, LengthsFor, CodesFor;
    var w := Window(m, p);
    i :| 0 <= i < |t.lens| && FastHit(t.lens, i, Shr(w, 7));
    FastHitMatches(t.lens, i, w);
    CodeAtMatches(t.lens, m, p, i);
  }

  lemma IndexBits(m: seq<Byte>, p: nat)
    ensures MsbBits(Shr(Window(m, p), 7), FAST_BITS) == Stream(m, p, FAST_BITS)
  {
    hide Shr, MsbBits, MsbVal, Stream;
    MsbValSplit(Stream(m, p, 16), FAST_BITS);
    StreamTake(m, p, FAST_BITS, 16);
    MsbBitsVal(Stream(m, p, FAST_BITS));
  }

  lemma FastAcUnpack(h: Huffman, lens: seq<nat>, c: nat)
    requires TablesFor(h, lens) && |h.values| == 256 && c < FAST_SIZE && FastAcEntry(h, lens, c) != 0
    ensures var r, i := FastAcEntry(h, lens, c), h.fast[c];
      && 0 <= i < |lens| && i != 255 && h.values[i] % 16 > 0 && lens[i] + h.values[i] % 16 <= FAST_BITS
      && r % 16 == lens[i] + h.values[i] % 16
      && r / 16 % 16 == h.values[i] / 16 % 16
      && r / 256 == Extend(MsbBits(c, FAST_BITS)[lens[i]..lens[i] + h.values[i] % 16])
  {
    hide MsbBits, Extend, LengthsFor, CodesFor;
    FastEntryRange(h, lens, c);
    var i := h.fast[c];
    var v := Extend(MsbBits(c, FAST_BITS)[lens[i]..lens[i] + h.values[i] % 16]);
    Unpack(v, h.values[i] / 16 % 16, lens[i] + h.values[i] % 16);
  }

  lemma Unpack(v: int, run: int, s: int)
    requires 0 <= run < 16 && 0 <= s < 16
    ensures var r := 256 * v + 16 * run + s; r % 16 == s && r / 16 % 16 == run && r / 256 == v
  {
  }
}
