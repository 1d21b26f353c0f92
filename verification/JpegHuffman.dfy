/** The Huffman tables of the JPEG reader: stbi__huffman and stbi__build_huffman. A table is
    declared by the number of codes of each length and the symbols in code order (Annex C of
    ITU-T T.81); the code lengths in that order form a sorted list. */
module JpegHuffman {
  import opened BitStrings
  import opened Canonical

  const FAST_BITS := 9
  const FAST_SIZE := 512

  /** The code length of every symbol: count[0] ones, then count[1] twos, and so on. */
  function SizeList(count: seq<nat>): (lens: seq<nat>)
  {
    if count == [] then []
    else SizeList(count[..|count| - 1]) + seq(count[|count| - 1], _ => |count|)
  }

  /** Nonempty codes in order of their lengths. */
  predicate Sorted(lens: seq<nat>)
  {
    && (forall i :: 0 <= i < |lens| ==> lens[i] > 0)
    && (forall i, j :: 0 <= i < j < |lens| ==> lens[i] <= lens[j])
  }

  lemma {:induction false} SizeListSorted(count: seq<nat>)
    ensures Sorted(SizeList(count)) && AtMost(SizeList(count), |count|)
  {
    if count != [] {
      SizeListSorted(count[..|count| - 1]);
    }
  }

  datatype Huffman = Huffman(
    fast: seq<int>,
    code: seq<int>,
    values: seq<Byte>,
    size: seq<int>,
    maxcode: seq<int>,
    delta: seq<int>)

  // ---------------------------------------------------------------------------
  // In a sorted list the slot of a symbol is its index

  lemma {:induction false} AllShorter(lens: seq<nat>, s: nat)
    requires forall i :: 0 <= i < |lens| ==> 1 <= lens[i] < s
    ensures FirstSymbol(lens, s) == |lens|
  {
    if lens == [] {
      FirstSymbolEmpty(s);
    } else {
      var n := |lens| - 1;
      AllShorter(lens[..n], s);
      FirstSymbolSnoc(lens[..n], lens[n], s);
      assert lens[..n] + [lens[n]] == lens;
    }
  }

  lemma {:induction false} NoneShorter(lens: seq<nat>, k: nat, s: nat)
    requires k <= |lens| && forall i :: k <= i < |lens| ==> lens[i] >= s
    ensures FirstSymbol(lens, s) == FirstSymbol(lens[..k], s)
  {
    if k == |lens| {
      assert lens[..k] == lens;
    } else {
      var n := |lens| - 1;
      NoneShorter(lens[..n], k, s);
      FirstSymbolSnoc(lens[..n], lens[n], s);
      assert lens[..n] + [lens[n]] == lens;
      assert lens[..n][..k] == lens[..k];
    }
  }

  lemma SortedSlot(lens: seq<nat>, i: nat)
    requires Sorted(lens) && i < |lens|
    ensures Slot(lens, i) == i
  {
    var s := lens[i];
    NoneShorter(lens, i, s);
    AllShorter(lens[..i], s + 1);
  }

  /** The symbols with s-bit codes are the ones from FirstSymbol(s) up to FirstSymbol(s + 1). */
  lemma SortedRange(lens: seq<nat>, s: nat, k: nat)
    requires Sorted(lens) && k < |lens| && s >= 1
    ensures lens[k] == s <==> FirstSymbol(lens, s) <= k < FirstSymbol(lens, s + 1)
  {
    SortedSlot(lens, k);
    RankBelowCount(lens, k);
    var t := lens[k];
    if t < s { FirstSymbolMono(lens, t, s); }
    if s < t { FirstSymbolMono(lens, s, t); }
  }

  // ---------------------------------------------------------------------------
  // What the tables hold

  /** The nine index bits j begin with the code of symbol i. */
  predicate FastHit(lens: seq<nat>, i: nat, j: nat)
    requires i < |lens|
  {
    1 <= lens[i] <= FAST_BITS && Shr(j, FAST_BITS - lens[i]) == Code(lens, i)
  }

  predicate SizesFor(size: seq<int>, lens: seq<nat>)
  {
    && |size| == 257 && |lens| <= 256
    && (forall i :: 0 <= i < |lens| ==> size[i] == lens[i])
    && size[|lens|] == 0
  }

  /** The first n symbols have their codes, kept in 16 bits. */
  predicate CodesFor(code: seq<int>, lens: seq<nat>, n: nat)
  {
    |code| == 256 && n <= |lens| <= 256 && Sorted(lens) && forall i :: 0 <= i < n ==> code[i] == Code(lens, i) % 0x10000
  }

  /** The per-length tables hold the lengths below n. */
  predicate LengthsFor(maxcode: seq<int>, delta: seq<int>, lens: seq<nat>, n: nat)
  {
    && |maxcode| == 18 && |delta| == 17 && n <= 17
    && forall s :: 1 <= s < n ==>
         maxcode[s] == Shl(Used(lens, s), 16 - s) && delta[s] == FirstSymbol(lens, s) - FirstCode(lens, s)
  }

  /** The fast table holds the first n symbols and the flag 255 elsewhere. */
  predicate FastFor(fast: seq<int>, lens: seq<nat>, n: nat)
  {
    && |fast| == FAST_SIZE && n <= |lens|
    && (forall i, j :: 0 <= i < n && 0 <= j < FAST_SIZE && FastHit(lens, i, j) ==> fast[j] == i)
    && (forall j :: 0 <= j < FAST_SIZE && fast[j] != 255 ==> exists i :: 0 <= i < n && FastHit(lens, i, j))
  }

  predicate TablesFor(h: Huffman, lens: seq<nat>)
  {
    && SizesFor(h.size, lens)
    && CodesFor(h.code, lens, |lens|)
    && LengthsFor(h.maxcode, h.delta, lens, 17) && h.maxcode[17] == 0xffff_ffff
    && FastFor(h.fast, lens, |lens|)
  }

  // ---------------------------------------------------------------------------
  // stbi__build_huffman

  lemma {:induction false} SizeListTake(count: seq<nat>, i: nat)
    requires i <= |count|
    ensures |SizeList(count[..i])| <= |SizeList(count)|
  {
    if i == |count| {
      assert count[..i] == count;
    } else {
      SizeListTake(count[..|count| - 1], i);
      assert count[..|count| - 1][..i] == count[..i];
    }
  }

  method BuildSizes(count: seq<nat>) returns (ok: bool, size: seq<int>)
    requires |count| == 16
    ensures ok <==> |SizeList(count)| <= 256
    ensures ok ==> SizesFor(size, SizeList(count))
  {
    var a := new int[257](_ => 0);
    var k: nat := 0;
    ok := true;
    for i := 0 to 16
      invariant k == |SizeList(count[..i])| <= 256
      invariant forall m :: 0 <= m < k ==> a[m] == SizeList(count[..i])[m]
    {
      assert count[..i + 1][..i] == count[..i];
      ghost var lens := SizeList(count[..i]);
      for j := 0 to count[i]
        invariant k == |lens| + j <= 256
        invariant forall m :: 0 <= m < k ==> a[m] == if m < |lens| then lens[m] else i + 1
      {
        a[k] := i + 1;
        k := k + 1;
        if k >= 257 {
          SizeListTake(count, i + 1);
          return false, [];
        }
      }
    }
    assert count[..16] == count;
    a[k] := 0;
    size := a[..];
  }

  lemma UsedTooBig(lens: seq<nat>, s: nat)
    requires AtMost(lens, 16) && s <= 16 && Used(lens, s) > Pow2(s)
    ensures !Kraft(lens, 16)
  {
    KraftSumIsUsed(lens, 16);
    if Kraft(lens, 16) { UsedFits(lens, s, 16); }
  }

  /** Gives the s-bit symbols their codes. */
  method NumberCodes(ghost lens: seq<nat>, size: seq<int>, s: nat, k0: nat, c0: nat, code0: seq<int>)
    returns (k: nat, c: nat, code: seq<int>)
    requires 1 <= s <= 16 && Sorted(lens) && SizesFor(size, lens)
    requires k0 == FirstSymbol(lens, s) && c0 == FirstCode(lens, s) <= Pow2(s)
    requires k0 <= |lens| && CodesFor(code0, lens, k0)
    ensures k == FirstSymbol(lens, s + 1) && c == Used(lens, s)
    ensures k <= |lens| && CodesFor(code, lens, k)
    ensures c - c0 == k - k0
  {
    k, c, code := k0, c0, code0;
    FirstSymbolBound(lens, s + 1);
    while size[k] == s
      invariant k0 <= k <= FirstSymbol(lens, s + 1) <= |lens|
      invariant c - c0 == k - k0
      invariant CodesFor(code, lens, k)
      decreases |lens| - k
    {
      SortedRange(lens, s, k);
      SortedSlot(lens, k);
      code := code[k := c % 0x10000];
      k, c := k + 1, c + 1;
    }
    if k < FirstSymbol(lens, s + 1) {
      SortedRange(lens, s, k);
    }
  }

  /** The codes of every length; fails exactly when the lengths are over-subscribed. */
  method AssignCodes(ghost lens: seq<nat>, size: seq<int>)
    returns (ok: bool, k: nat, code: seq<int>, maxcode: seq<int>, delta: seq<int>)
    requires Sorted(lens) && AtMost(lens, 16) && SizesFor(size, lens)
    ensures ok <==> Kraft(lens, 16)
    ensures ok ==> k == |lens| && CodesFor(code, lens, |lens|)
    ensures ok ==> LengthsFor(maxcode, delta, lens, 17) && maxcode[17] == 0xffff_ffff
  {
    hide Sorted, SizesFor, CodesFor, LengthsFor, FirstCode, Used, FirstSymbol, Shl, AtMost, Kraft;
    code, maxcode, delta := seq(256, _ => 0), seq(18, _ => 0), seq(17, _ => 0);
    k := 0;
    NoneYet(lens, size);
    NoLengths(maxcode, delta, lens);
    var c: nat := 0;
    for j := 1 to 17
      invariant c == FirstCode(lens, j) <= Pow2(j)
      invariant k == FirstSymbol(lens, j) <= |lens|
      invariant CodesFor(code, lens, k)
      invariant LengthsFor(maxcode, delta, lens, j)
    {
      LengthsStep(maxcode, delta, lens, j);
      delta := delta[j := k - c];
      ok, k, c, code := AssignLength(lens, size, j, k, c, code);
      if !ok { return; }
      maxcode := maxcode[j := Shl(c, 16 - j)];
      c := 2 * c;
    }
    LengthsEnd(maxcode, delta, lens);
    maxcode := maxcode[17 := 0xffff_ffff];
    ok := true;
  }

  lemma LengthsEnd(maxcode: seq<int>, delta: seq<int>, lens: seq<nat>)
    requires LengthsFor(maxcode, delta, lens, 17) && AtMost(lens, 16) && FirstCode(lens, 17) <= Pow2(17)
    ensures |maxcode| == 18 && LengthsFor(maxcode[17 := 0xffff_ffff], delta, lens, 17) && Kraft(lens, 16)
  {
    KraftSumIsUsed(lens, 16);
  }

  lemma NoneYet(lens: seq<nat>, size: seq<int>)
    requires Sorted(lens) && AtMost(lens, 16) && SizesFor(size, lens)
    ensures FirstCode(lens, 1) == 0 <= Pow2(1) && FirstSymbol(lens, 1) == 0
    ensures forall code :: |code| == 256 ==> CodesFor(code, lens, 0)
    ensures FirstSymbol(lens, 17) == |lens|
  {
    AllShorter(lens, 17);
  }

  lemma NoLengths(maxcode: seq<int>, delta: seq<int>, lens: seq<nat>)
    requires |maxcode| == 18 && |delta| == 17
    ensures LengthsFor(maxcode, delta, lens, 1)
  {
  }

  lemma LengthsStep(maxcode: seq<int>, delta: seq<int>, lens: seq<nat>, s: nat)
    requires 1 <= s <= 16 && LengthsFor(maxcode, delta, lens, s)
    ensures |maxcode| == 18 && |delta| == 17
    ensures LengthsFor(
      maxcode[s := Shl(Used(lens, s), 16 - s)], delta[s := FirstSymbol(lens, s) - FirstCode(lens, s)], lens, s + 1)
  {
  }

  method AssignLength(ghost lens: seq<nat>, size: seq<int>, s: nat, k0: nat, c0: nat, code0: seq<int>)
    returns (ok: bool, k: nat, c: nat, code: seq<int>)
    requires 1 <= s <= 16 && Sorted(lens) && AtMost(lens, 16) && SizesFor(size, lens)
    requires k0 == FirstSymbol(lens, s) && c0 == FirstCode(lens, s) <= Pow2(s)
    requires k0 <= |lens| && CodesFor(code0, lens, k0)
    ensures k == FirstSymbol(lens, s + 1) <= |lens| && c == Used(lens, s)
    ensures 2 * c == FirstCode(lens, s + 1) && CodesFor(code, lens, k)
    ensures !ok ==> !Kraft(lens, 16)
    ensures ok ==> c <= Pow2(s) && 2 * c <= Pow2(s + 1)
  {
    ok, k, c, code := true, k0, c0, code0;
    if size[k] == s {
      k, c, code := NumberCodes(lens, size, s, k, c, code);
      if c - 1 >= Pow2(s) {
        UsedTooBig(lens, s);
        ok := false;
      }
    } else {
      NoSuchLength(lens, size, s);
    }
  }

  lemma NoSuchLength(lens: seq<nat>, size: seq<int>, s: nat)
    requires s >= 1 && Sorted(lens) && SizesFor(size, lens)
    requires FirstSymbol(lens, s) <= |lens| && size[FirstSymbol(lens, s)] != s
    ensures Count(lens, s) == 0 && FirstSymbol(lens, s + 1) == FirstSymbol(lens, s)
  {
    var k := FirstSymbol(lens, s);
    FirstSymbolBound(lens, s + 1);
    if k < |lens| { SortedRange(lens, s, k); }
  }

  lemma ShrRange(x: nat, c: nat, n: nat)
    ensures Shr(x, n) == c <==> Shl(c, n) <= x < Shl(c, n) + Pow2(n)
  {
    ShiftCompare(x, c, n);
    ShiftCompare(x, c + 1, n);
    ShlAdd(c, 1, n);
    ShlOne(n);
  }

  /** Fills the entries of symbol i in the fast table. */
  method FillFast(fast: array<int>, ghost lens: seq<nat>, i: nat, s: nat, c: nat)
    requires Sorted(lens) && AtMost(lens, 16) && Kraft(lens, 16) && |lens| <= 256
    requires i < |lens| && 1 <= s == lens[i] <= FAST_BITS && c == Code(lens, i) % 0x10000
    requires fast.Length == FAST_SIZE && FastFor(fast[..], lens, i)
    modifies fast
    ensures FastFor(fast[..], lens, i + 1)
  {
    hide Sorted, Kraft, AtMost;
    ghost var was := fast[..];
    var first := Shl(c, FAST_BITS - s);
    var m := Pow2(FAST_BITS - s);
    FastRange(lens, i, c);
    for j := 0 to m
      invariant forall k :: 0 <= k < FAST_SIZE ==> fast[k] == if first <= k < first + j then i else was[k]
    {
      fast[first + j] := i;
    }
    FastStep(was, fast[..], lens, i);
  }

  lemma FastRange(lens: seq<nat>, i: nat, c: nat)
    requires AtMost(lens, 16) && Kraft(lens, 16)
    requires i < |lens| && 1 <= lens[i] <= FAST_BITS && c == Code(lens, i) % 0x10000
    ensures c == Code(lens, i)
    ensures Shl(c, FAST_BITS - lens[i]) + Pow2(FAST_BITS - lens[i]) <= FAST_SIZE
    ensures forall k :: 0 <= k < FAST_SIZE ==>
      (FastHit(lens, i, k) <==>
        Shl(c, FAST_BITS - lens[i]) <= k < Shl(c, FAST_BITS - lens[i]) + Pow2(FAST_BITS - lens[i]))
  {
    hide Shl, Shr, Pow2, Code, Kraft, AtMost;
    var s := lens[i];
    CodeFits(lens, i, 16);
    Pow2Mono(s, 16);
    Pow2Values();
    ShlAdd(c, 1, FAST_BITS - s);
    ShlOne(FAST_BITS - s);
    ShlFits(c + 1, s, FAST_BITS - s);
    forall k | 0 <= k < FAST_SIZE
      ensures FastHit(lens, i, k) <==> Shl(c, FAST_BITS - s) <= k < Shl(c, FAST_BITS - s) + Pow2(FAST_BITS - s)
    {
      ShrRange(k, c, FAST_BITS - s);
    }
  }

  lemma {:induction false} ShlFits(x: nat, k: nat, n: nat)
    requires x <= Pow2(k)
    ensures Shl(x, n) <= Pow2(k + n)
  {
    if n > 0 { ShlFits(x, k, n - 1); }
  }

  /** Two symbols never claim the same fast entry. */
  lemma FastHitUnique(lens: seq<nat>, i: nat, k: nat, j: nat)
    requires i < |lens| && k < |lens| && FastHit(lens, i, j) && FastHit(lens, k, j)
    ensures i == k
  {
    var w := Shl(j, 7);
    FastHitMatches(lens, i, w);
    FastHitMatches(lens, k, w);
    AddHigh(0, j, 7);
    LowOf(0, 7);
    MatchUnique(lens, i, k, w);
  }

  lemma FastHitMatches(lens: seq<nat>, i: nat, w: nat)
    requires i < |lens| && 1 <= lens[i] <= FAST_BITS
    ensures FastHit(lens, i, Shr(w, 7)) <==> Matches(lens, i, w)
  {
    ShrShr(w, 7, FAST_BITS - lens[i]);
  }

  lemma FastStep(was: seq<int>, now: seq<int>, lens: seq<nat>, i: nat)
    requires i < |lens| && FastFor(was, lens, i) && |now| == FAST_SIZE
    requires forall k :: 0 <= k < FAST_SIZE ==> now[k] == if FastHit(lens, i, k) then i else was[k]
    ensures FastFor(now, lens, i + 1)
  {
    forall m, j | 0 <= m < i + 1 && 0 <= j < FAST_SIZE && FastHit(lens, m, j)
      ensures now[j] == m
    {
      if FastHit(lens, i, j) { FastHitUnique(lens, m, i, j); }
    }
  }

  /** stbi__build_huffman accepts the counts exactly when they name at most 256 symbols and
      satisfy the Kraft inequality, and then builds the tables of the canonical code. The symbols
      are read into the table afterwards. */
  method BuildHuffman(count: seq<nat>, values: seq<Byte>) returns (ok: bool, h: Huffman)
    requires |count| == 16
    ensures AtMost(SizeList(count), 16)
    ensures ok <==> |SizeList(count)| <= 256 && Kraft(SizeList(count), 16)
    ensures ok ==> TablesFor(h, SizeList(count)) && h.values == values
  {
    ghost var lens := SizeList(count);
    SizeListSorted(count);
    h := Huffman([], [], [], [], [], []);
    var size, k, code, maxcode, delta;
    ok, size := BuildSizes(count);
    if !ok { return; }
    ok, k, code, maxcode, delta := AssignCodes(lens, size);
    if !ok { return; }
    var fast := new int[FAST_SIZE](_ => 255);
    for i := 0 to k
      invariant FastFor(fast[..], lens, i)
    {
      if size[i] <= FAST_BITS {
        FillFast(fast, lens, i, size[i], code[i]);
      } else {
        NoFastHit(fast[..], lens, i);
      }
    }
    h := Huffman(fast[..], code, values, size, maxcode, delta);
  }

  lemma NoFastHit(fast: seq<int>, lens: seq<nat>, i: nat)
    requires i < |lens| && lens[i] > FAST_BITS && FastFor(fast, lens, i)
    ensures FastFor(fast, lens, i + 1)
  {
  }

  // ---------------------------------------------------------------------------
  // Looking up the 16 bits w that come next

  datatype Hit = Found(index: nat, length: nat) | NotFound

  /** The first length from s on whose codes end above the window. */
  function SlowLength(h: Huffman, w: nat, s: nat): (n: nat)
    requires |h.maxcode| == 18 && h.maxcode[17] == 0xffff_ffff && w < 0x10000 && 1 <= s <= 17
    ensures s <= n <= 17 && w < h.maxcode[n]
    ensures forall k :: s <= k < n ==> w >= h.maxcode[k]
    decreases 17 - s
  {
    if w < h.maxcode[s] then s else SlowLength(h, w, s + 1)
  }

  /** What the fast table, and failing that the table of lengths, say about the window. */
  function Lookup(h: Huffman, lens: seq<nat>, w: nat): (r: Hit)
    requires TablesFor(h, lens) && w < 0x10000
  {
    FastIndex(h, lens, w);
    var k := h.fast[Shr(w, 7)];
    if k < 255 then Found(k, h.size[k])
    else
      var n := SlowLength(h, w, FAST_BITS + 1);
      if n == 17 then NotFound else
      var c := Shr(w, 16 - n) + h.delta[n];
      if c < 0 || c >= 256 then NotFound else Found(c, n)
  }

  lemma FastIndex(h: Huffman, lens: seq<nat>, w: nat)
    requires TablesFor(h, lens) && w < 0x10000
    ensures Shr(w, 7) < FAST_SIZE
    ensures h.fast[Shr(w, 7)] != 255 ==> 0 <= h.fast[Shr(w, 7)] < |lens|
    ensures 0 <= h.fast[Shr(w, 7)] < 256
    ensures forall i :: 0 <= i < |lens| ==> h.size[i] >= 0
  {
    ShiftCompare(w, FAST_SIZE, 7);
    assert Shl(FAST_SIZE, 7) == 0x10000;
    var j := Shr(w, 7);
    if h.fast[j] != 255 {
      var i :| 0 <= i < |lens| && FastHit(lens, i, j);
    }
  }

  /** The one symbol that the fast table cannot hold: its index is the flag. */
  predicate Flagged(lens: seq<nat>, i: nat)
    requires i < |lens|
  {
    i == 255 && lens[i] <= FAST_BITS
  }

  /** A window that begins with the code of symbol i is looked up as symbol i, with its length,
      exactly when the symbol's index is not the flag. */
  lemma LookupExact(h: Huffman, lens: seq<nat>, i: nat, w: nat)
    requires TablesFor(h, lens) && AtMost(lens, 16) && w < 0x10000
    requires i < |lens| && lens[i] > 0 && Matches(lens, i, w)
    ensures Lookup(h, lens, w) == Found(i, lens[i]) <==> !Flagged(lens, i)
  {
    hide Used, FirstSymbol, Count, Shr, Shl, SlowLength, Matches, Sorted;
    FastIndex(h, lens, w);
    var j := Shr(w, 7);
    if lens[i] <= FAST_BITS {
      FastHitMatches(lens, i, w);
      assert h.fast[j] == i;
    } else {
      if h.fast[j] != 255 {
        var k :| 0 <= k < |lens| && FastHit(lens, k, j);
        FastHitMatches(lens, k, w);
        MatchUnique(lens, i, k, w);
      }
      SlowFinds(h, lens, i, w);
    }
  }

  /** The reader's assertion about the symbol it has found: the window begins with its code. */
  predicate Checked(h: Huffman, w: nat, c: nat)
  {
    && |h.size| == 257 && |h.code| == 256 && c < 256 && 0 <= h.size[c] <= 16
    && Shr(w, 16 - h.size[c]) == h.code[c]
  }

  lemma MatchChecked(h: Huffman, lens: seq<nat>, i: nat, w: nat)
    requires TablesFor(h, lens) && AtMost(lens, 16) && w < 0x10000
    requires i < |lens| && lens[i] > 0 && Matches(lens, i, w)
    ensures Checked(h, w, i)
  {
    hide Code, LengthsFor, FastFor, Sorted, Shr;
    ShrSmaller(w, 16 - lens[i]);
  }

  lemma {:induction false} ShrSmaller(x: nat, n: nat)
    ensures Shr(x, n) <= x
  {
    if n > 0 { ShrSmaller(x / 2, n - 1); }
  }

  /** 255 codes of eight bits and one of nine. */
  const CLASH_COUNTS: seq<nat> := [0, 0, 0, 0, 0, 0, 0, 255, 1, 0, 0, 0, 0, 0, 0, 0]

  function ClashLens(): (lens: seq<nat>)
    ensures |lens| == 256
  {
    seq(255, _ => 8) + [9]
  }

  /** Such a symbol exists: a table that a DHT segment can declare and that the builder accepts, in which
      the code 510 of the last symbol, followed by a zero, is read as symbol 254 with ten bits. */
  lemma FlagClash(h: Huffman)
    requires TablesFor(h, ClashLens())
    ensures (forall i :: 0 <= i < 16 ==> CLASH_COUNTS[i] < 256) && SizeList(CLASH_COUNTS) == ClashLens()
    ensures AtMost(ClashLens(), 16) && Kraft(ClashLens(), 16) && Flagged(ClashLens(), 255)
    ensures Matches(ClashLens(), 255, 0xff00) && Lookup(h, ClashLens(), 0xff00) == Found(254, 10)
    ensures !Checked(h, 0xff00, 254)
  {
    hide Used, FirstSymbol, Shr, Shl, Kraft, Lookup, SlowLength, TablesFor, Matches, SizeList, AtMost;
    ClashSizes();
    ClashKraft();
    ClashMatches();
    ClashLookup(h);
    ClashUnchecked(h);
  }

  /** Where assertions are on, the reader's assertion fails instead: the window does not begin with the
      code 254 of symbol 254. */
  lemma ClashUnchecked(h: Huffman)
    requires TablesFor(h, ClashLens())
    ensures !Checked(h, 0xff00, 254)
  {
    hide Used, LengthsFor, FastFor, Sorted;
    ClashCode();
    assert Shr(0xff00, 8) == 0xff;
  }

  lemma ClashCode()
    ensures Code(ClashLens(), 254) == 254
  {
    hide Used;
    ClashUsed(7);
    CountSame(254, 8, 8);
    assert ClashLens()[..254] == seq(254, _ => 8);
  }

  lemma ClashSizes()
    ensures SizeList(CLASH_COUNTS) == ClashLens() && AtMost(ClashLens(), 16)
  {
    SizesZero(7);
    assert CLASH_COUNTS[..7] == seq(7, _ => 0);
    SizesStep(CLASH_COUNTS, 7);
    SizesStep(CLASH_COUNTS, 8);
    assert SizeList(CLASH_COUNTS[..9]) == ClashLens();
    SizesTail(CLASH_COUNTS, 9);
  }

  lemma {:induction false} SizesZero(n: nat)
    ensures SizeList(seq(n, _ => 0)) == []
  {
    if n > 0 {
      SizesZero(n - 1);
      assert seq(n, _ => 0)[..n - 1] == seq(n - 1, _ => 0);
    }
  }

  lemma SizesStep(count: seq<nat>, n: nat)
    requires n < |count|
    ensures SizeList(count[..n + 1]) == SizeList(count[..n]) + seq(count[n], _ => n + 1)
  {
    assert count[..n + 1][..n] == count[..n];
  }

  lemma {:induction false} SizesTail(count: seq<nat>, n: nat)
    requires n <= |count| && forall i :: n <= i < |count| ==> count[i] == 0
    ensures SizeList(count) == SizeList(count[..n])
    decreases |count|
  {
    if n < |count| {
      var k := |count| - 1;
      SizesTail(count[..k], n);
      assert count[..k][..n] == count[..n];
      assert seq(count[k], _ => |count|) == [];
    } else {
      assert count[..n] == count;
    }
  }

  /** How many strings of s bits the table uses up, and how many symbols come before length s. */
  lemma {:induction false} ClashUsed(s: nat)
    ensures Used(ClashLens(), s) == if s < 8 then 0 else if s == 8 then 255 else Shl(511, s - 9)
    ensures FirstSymbol(ClashLens(), s) == if s <= 8 then 0 else if s == 9 then 255 else 256
  {
    if s > 0 {
      ClashUsed(s - 1);
      ClashCount(s);
      ClashCount(s - 1);
    }
  }

  lemma ClashCount(s: nat)
    ensures Count(ClashLens(), s) == if s == 8 then 255 else if s == 9 then 1 else 0
  {
    CountSame(255, 8, s);
    assert ClashLens()[..255] == seq(255, _ => 8);
  }

  lemma ClashKraft()
    requires AtMost(ClashLens(), 16)
    ensures Kraft(ClashLens(), 16)
  {
    hide Used, KraftSum, ClashLens, AtMost;
    assert Shl(511, 7) == 65408;
    ClashUsed(16);
    KraftSumIsUsed(ClashLens(), 16);
    Pow2Values();
  }

  lemma ClashMatches()
    ensures Matches(ClashLens(), 255, 0xff00)
  {
    ClashUsed(8);
    CountSame(255, 8, 9);
    assert ClashLens()[..255] == seq(255, _ => 8);
    assert Shr(0xff00, 7) == 510;
  }

  /** The entry of the code is the flag, and the search by length stops at ten bits. */
  lemma ClashLookup(h: Huffman)
    requires TablesFor(h, ClashLens())
    ensures Lookup(h, ClashLens(), 0xff00) == Found(254, 10)
  {
    hide Used, FirstSymbol, Code, Sorted;
    var lens := ClashLens();
    ClashMatches();
    FastHitMatches(lens, 255, 0xff00);
    FastIndex(h, lens, 0xff00);
    ClashUsed(9);
    ClashUsed(10);
    assert Shl(511, 1) == 1022 && Shl(1022, 6) == 65408 && Shr(0xff00, 6) == 1020;
    assert h.maxcode[10] == 65408 && h.delta[10] == 256 - 1022;
    assert h.fast[Shr(0xff00, 7)] == 255;
  }

  lemma SlowFinds(h: Huffman, lens: seq<nat>, i: nat, w: nat)
    requires Sorted(lens) && AtMost(lens, 16) && w < 0x10000
    requires LengthsFor(h.maxcode, h.delta, lens, 17) && h.maxcode[17] == 0xffff_ffff
    requires i < |lens| && lens[i] > FAST_BITS && Matches(lens, i, w)
    ensures SlowLength(h, w, FAST_BITS + 1) == lens[i]
    ensures Shr(w, 16 - lens[i]) + h.delta[lens[i]] == i
  {
    hide Used, FirstSymbol, Count, Shr, Shl, Sorted, SlowLength;
    var n, s := SlowLength(h, w, FAST_BITS + 1), lens[i];
    MatchIsFirstBelow(lens, i, w);
    ShiftCompare(w, Used(lens, s), 16 - s);
    assert w < h.maxcode[s];
    if n < s {
      ShiftCompare(w, Used(lens, n), 16 - n);
      BelowMono(lens, w, n, s - 1);
    }
    SortedSlot(lens, i);
  }

  /** A window that begins with no code is not found. */
  lemma LookupNone(h: Huffman, lens: seq<nat>, w: nat)
    requires TablesFor(h, lens) && AtMost(lens, 16) && w < 0x10000
    requires forall i :: 0 <= i < |lens| ==> !Matches(lens, i, w)
    ensures Lookup(h, lens, w) == NotFound
  {
    hide Used, FirstSymbol, Count, Shr, Shl, SlowLength, Matches, Sorted;
    FastIndex(h, lens, w);
    var j := Shr(w, 7);
    if h.fast[j] != 255 {
      var k :| 0 <= k < |lens| && FastHit(lens, k, j);
      FastHitMatches(lens, k, w);
    }
    var n := SlowLength(h, w, FAST_BITS + 1);
    if n < 17 {
      ShiftCompare(w, Used(lens, n), 16 - n);
      var s := FirstBelow(lens, w, n);
      var i := MatchExists(lens, s, w);
    }
  }
}
