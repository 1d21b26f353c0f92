/** The decoding tables of the zlib reader: stbi__zhuffman and stbi__zbuild_huffman. */
module ZHuffman {
  import opened BitStrings
  import opened Canonical

  const FAST_BITS := 9
  const FAST_SIZE := 512
  const NSYMS := 288

  /** stbi__bit_reverse: the low n bits of v in opposite order. */
  function BitReverse(v: nat, n: nat): nat
  {
    MsbVal(Bits(v, n))
  }

  lemma {:induction false} ReverseVal(v: nat, n: nat)
    ensures Val(MsbBits(v, n)) == MsbVal(Bits(v, n))
  {
    if n > 0 {
      ReverseVal(v / 2, n - 1);
      ValConcat(MsbBits(v / 2, n - 1), [v % 2 == 1]);
      MsbValConcat([v % 2 == 1], Bits(v / 2, n - 1));
    }
  }

  lemma BitReverseBits(v: nat, n: nat)
    ensures Bits(BitReverse(v, n), n) == MsbBits(v, n)
    ensures BitReverse(v, n) < Pow2(n)
  {
    ReverseVal(v, n);
    BitsVal(MsbBits(v, n));
    MsbValBound(Bits(v, n));
  }

  datatype Tables = Tables(
    fast: seq<int>,
    firstcode: seq<int>,
    maxcode: seq<int>,
    firstsymbol: seq<int>,
    size: seq<int>,
    value: seq<int>)

  const NoTables := Tables([], [], [], [], [], [])

  /** The table index j, nine bits of the stream, begins with the code of symbol i. */
  predicate FastHit(lens: seq<nat>, i: nat, j: nat)
    requires i < |lens|
  {
    1 <= lens[i] <= FAST_BITS && Bits(j, lens[i]) == CodeBits(lens, i)
  }

  /** The end of the s-bit codes, shifted up to 16 bits. */
  function MaxCode(lens: seq<nat>, s: nat): nat
    requires s <= 16
  {
    Shl(Used(lens, s), 16 - s)
  }

  /** The code tables hold the lengths below n. */
  predicate CodesUpTo(firstcode: seq<int>, maxcode: seq<int>, firstsymbol: seq<int>, lens: seq<nat>, n: nat)
  {
    && |firstcode| == 16 && |maxcode| == 17 && |firstsymbol| == 16 && n <= 16
    && forall s :: 1 <= s < n ==>
         firstcode[s] == FirstCode(lens, s) && maxcode[s] == MaxCode(lens, s) && firstsymbol[s] == FirstSymbol(lens, s)
  }

  predicate CodesFor(firstcode: seq<int>, maxcode: seq<int>, firstsymbol: seq<int>, lens: seq<nat>)
  {
    CodesUpTo(firstcode, maxcode, firstsymbol, lens, 16) && maxcode[16] == 0x10000
  }

  /** size and value hold the first n symbols. */
  predicate SlotsFor(size: seq<int>, value: seq<int>, lens: seq<nat>, n: nat)
  {
    && |size| == NSYMS && |value| == NSYMS && n <= |lens|
    && (forall i :: 0 <= i < n && lens[i] > 0 ==>
         Slot(lens, i) < NSYMS && size[Slot(lens, i)] == lens[i] && value[Slot(lens, i)] == i)
  }

  /** The fast table holds the first n symbols and nothing else. */
  predicate FastFor(fast: seq<int>, lens: seq<nat>, n: nat)
  {
    && |fast| == FAST_SIZE && n <= |lens|
    && (forall i, j :: 0 <= i < n && 0 <= j < FAST_SIZE && FastHit(lens, i, j) ==> fast[j] == lens[i] * 512 + i)
    && (forall j :: 0 <= j < FAST_SIZE && fast[j] != 0 ==> exists i :: 0 <= i < n && FastHit(lens, i, j))
  }

  predicate TablesFor(z: Tables, lens: seq<nat>)
  {
    && CodesFor(z.firstcode, z.maxcode, z.firstsymbol, lens)
    && SlotsFor(z.size, z.value, lens, |lens|)
    && FastFor(z.fast, lens, |lens|)
  }

  // ---------------------------------------------------------------------------
  // Fast entries are unambiguous

  /** Two symbols never claim the same fast entry. */
  lemma FastHitUnique(lens: seq<nat>, i: nat, k: nat, j: nat)
    requires AtMost(lens, 15) && Kraft(lens, 15)
    requires i < |lens| && k < |lens| && FastHit(lens, i, j) && FastHit(lens, k, j)
    ensures i == k
  {
    if lens[i] <= lens[k] {
      BitsPrefix(j, lens[k], lens[i]);
      PrefixFree(lens, i, k, 15);
    } else {
      BitsPrefix(j, lens[i], lens[k]);
      PrefixFree(lens, k, i, 15);
    }
  }

  /** The entries of symbol i are the indices congruent to its reversed code. */
  lemma FastHitMod(lens: seq<nat>, i: nat, j: nat)
    requires i < |lens| && 1 <= lens[i] <= FAST_BITS
    ensures FastHit(lens, i, j) <==> Low(j, lens[i]) == BitReverse(Code(lens, i), lens[i])
  {
    var s := lens[i];
    var r := BitReverse(Code(lens, i), s);
    BitReverseBits(Code(lens, i), s);
    ValBits(j, s);
    ValBits(r, s);
    LowOf(r, s);
    BitsVal(Bits(j, s));
  }

  // ---------------------------------------------------------------------------
  // stbi__zbuild_huffman

  function Zeros(n: nat): (s: seq<int>)
    ensures |s| == n && forall i :: 0 <= i < n ==> s[i] == 0
  {
    seq(n, _ => 0)
  }

  /** The histogram of the code lengths; unused symbols are not counted. */
  method CountSizes(lens: seq<nat>) returns (sizes: seq<int>)
    requires AtMost(lens, 15)
    ensures |sizes| == 17
    ensures forall s :: 1 <= s < 17 ==> sizes[s] == Count(lens, s)
  {
    var a := new int[17](_ => 0);
    for i := 0 to |lens|
      invariant forall s :: 0 <= s < 17 ==> a[s] == Count(lens[..i], s)
    {
      assert lens[..i + 1][..i] == lens[..i];
      a[lens[i]] := a[lens[i]] + 1;
    }
    assert lens[..|lens|] == lens;
    a[0] := 0;
    sizes := a[..];
  }

  lemma UsedTooBig(lens: seq<nat>, s: nat)
    requires AtMost(lens, 15) && s <= 15 && Used(lens, s) > Pow2(s)
    ensures !Kraft(lens, 15)
  {
    KraftSumIsUsed(lens, 15);
    if Kraft(lens, 15) { UsedFits(lens, s, 15); }
  }

  /** The code values of every length; fails exactly when the lengths are over-subscribed. */
  method AssignCodes(lens: seq<nat>) returns (ok: bool, firstcode: seq<int>, maxcode: seq<int>, firstsymbol: seq<int>)
    requires |lens| <= NSYMS && AtMost(lens, 15)
    ensures ok <==> Kraft(lens, 15)
    ensures ok ==> CodesFor(firstcode, maxcode, firstsymbol, lens)
  {
    hide CodesUpTo, FirstCode, FirstSymbol, Used, Count, Kraft, AtMost, MaxCode, Shl;
    firstcode, maxcode, firstsymbol := Zeros(16), Zeros(17), Zeros(16);
    CodesBegin(firstcode, maxcode, firstsymbol, lens);
    var sizes := CountSizes(lens);
    ok := CheckSizes(lens, sizes);
    if !ok { return; }
    var code: nat, k: nat := 0, 0;
    for i := 1 to 16
      invariant code == FirstCode(lens, i) <= Pow2(i)
      invariant k == FirstSymbol(lens, i)
      invariant CodesUpTo(firstcode, maxcode, firstsymbol, lens, i)
    {
      CodeRoom(lens, i);
      CodesStep(firstcode, maxcode, firstsymbol, lens, i);
      firstcode := firstcode[i := code % 0x10000];
      firstsymbol := firstsymbol[i := k % 0x10000];
      code := code + sizes[i];
      if sizes[i] > 0 && code - 1 >= Pow2(i) {
        UsedTooBig(lens, i);
        ok := false;
        return;
      }
      maxcode := maxcode[i := Shl(code, 16 - i)];
      code := code * 2;
      k := k + sizes[i];
    }
    CodesEnd(firstcode, maxcode, firstsymbol, lens);
    maxcode := maxcode[16 := 0x10000];
  }

  lemma CodesBegin(firstcode: seq<int>, maxcode: seq<int>, firstsymbol: seq<int>, lens: seq<nat>)
    requires |firstcode| == 16 && |maxcode| == 17 && |firstsymbol| == 16
    ensures CodesUpTo(firstcode, maxcode, firstsymbol, lens, 1)
    ensures FirstCode(lens, 1) == 0 <= Pow2(1) && FirstSymbol(lens, 1) == 0
  {
  }

  /** The entries of length s. */
  lemma CodesStep(firstcode: seq<int>, maxcode: seq<int>, firstsymbol: seq<int>, lens: seq<nat>, s: nat)
    requires 1 <= s < 16 && CodesUpTo(firstcode, maxcode, firstsymbol, lens, s)
    ensures |firstcode| == 16 && |maxcode| == 17 && |firstsymbol| == 16
    ensures CodesUpTo(
      firstcode[s := FirstCode(lens, s)], maxcode[s := Shl(FirstCode(lens, s) + Count(lens, s), 16 - s)],
      firstsymbol[s := FirstSymbol(lens, s)], lens, s + 1)
    ensures FirstCode(lens, s) + Count(lens, s) == Used(lens, s)
    ensures FirstCode(lens, s + 1) == (FirstCode(lens, s) + Count(lens, s)) * 2
    ensures Pow2(s + 1) == 2 * Pow2(s)
  {
    hide Count, FirstSymbol;
  }

  lemma CodesEnd(firstcode: seq<int>, maxcode: seq<int>, firstsymbol: seq<int>, lens: seq<nat>)
    requires CodesUpTo(firstcode, maxcode, firstsymbol, lens, 16) && FirstCode(lens, 16) <= Pow2(16) && AtMost(lens, 15)
    ensures |maxcode| == 17 && Kraft(lens, 15) && CodesFor(firstcode, maxcode[16 := 0x10000], firstsymbol, lens)
  {
    KraftSumIsUsed(lens, 15);
  }

  /** The first sanity test: no length has more symbols than bit strings. */
  method CheckSizes(lens: seq<nat>, sizes: seq<int>) returns (ok: bool)
    requires AtMost(lens, 15)
    requires |sizes| == 17 && forall s :: 1 <= s < 17 ==> sizes[s] == Count(lens, s)
    ensures !ok ==> !Kraft(lens, 15)
  {
    for i := 1 to 16 {
      if sizes[i] > Pow2(i) {
        UsedTooBig(lens, i);
        return false;
      }
    }
    return true;
  }

  /** The 16-bit tables do not truncate what is stored in them. */
  lemma CodeRoom(lens: seq<nat>, s: nat)
    requires 1 <= s < 16 && FirstCode(lens, s) <= Pow2(s) && |lens| <= NSYMS
    ensures FirstCode(lens, s) % 0x10000 == FirstCode(lens, s)
    ensures FirstSymbol(lens, s) % 0x10000 == FirstSymbol(lens, s)
    ensures FirstSymbol(lens, s + 1) == FirstSymbol(lens, s) + Count(lens, s)
  {
    Pow2Mono(s, 15);
    assert Pow2(15) == 0x8000;
    FirstSymbolBound(lens, s);
  }

  lemma LowGap(s: nat, a: nat, b: nat)
    requires a < b < a + Pow2(s)
    ensures Low(b, s) != Low(a, s)
  {
    LowHigh(a, s);
    LowHigh(b, s);
    ShlOne(s);
    var ha, hb := Shr(a, s), Shr(b, s);
    if ha <= hb {
      ShlAdd(ha, hb - ha, s);
      if ha < hb { ShlAdd(1, hb - ha - 1, s); }
    } else {
      ShlAdd(hb, ha - hb, s);
    }
  }

  lemma LowNext(s: nat, a: nat)
    ensures Low(a + Pow2(s), s) == Low(a, s)
  {
    ShlOne(s);
    AddHigh(a, 1, s);
  }

  /** Replicates the entry of symbol i through the fast table. */
  method FillFast(fast: array<int>, lens: seq<nat>, i: nat)
    requires AtMost(lens, 15) && Kraft(lens, 15)
    requires i < |lens| <= NSYMS && 1 <= lens[i] <= FAST_BITS
    requires fast.Length == FAST_SIZE && FastFor(fast[..], lens, i)
    modifies fast
    ensures FastFor(fast[..], lens, i + 1)
  {
    hide FastFor, FastHit, BitReverse, Code, Low, Kraft, AtMost;
    var s := lens[i];
    ghost var was := fast[..];
    var j := BitReverse(Code(lens, i), s);
    ghost var r := j;
    BitReverseBits(Code(lens, i), s);
    LowOf(j, s);
    forall k | 0 <= k < j ensures !FastHit(lens, i, k) {
      FastHitMod(lens, i, k);
      LowOf(k, s);
    }
    while j < FAST_SIZE
      invariant r <= j && Low(j, s) == r
      invariant forall k :: 0 <= k < FAST_SIZE ==>
        fast[k] == if k < j && FastHit(lens, i, k) then s * 512 + i else was[k]
      invariant forall k :: j - Pow2(s) < k < j && 0 <= k ==> !FastHit(lens, i, k)
      decreases FAST_SIZE - j
    {
      FastHitMod(lens, i, j);
      ghost var j0 := j;
      fast[j] := s * 512 + i;
      LowNext(s, j);
      j := j + Pow2(s);
      forall k | j0 < k < j ensures !FastHit(lens, i, k) {
        LowGap(s, j0, k);
        FastHitMod(lens, i, k);
      }
    }
    FastStep(was, fast[..], lens, i);
  }

  lemma FastStep(was: seq<int>, now: seq<int>, lens: seq<nat>, i: nat)
    requires AtMost(lens, 15) && Kraft(lens, 15)
    requires i < |lens| && 1 <= lens[i] <= FAST_BITS && FastFor(was, lens, i)
    requires |now| == FAST_SIZE
    requires forall k :: 0 <= k < FAST_SIZE ==>
      now[k] == if FastHit(lens, i, k) then lens[i] * 512 + i else was[k]
    ensures FastFor(now, lens, i + 1)
  {
    forall m, j | 0 <= m < i + 1 && 0 <= j < FAST_SIZE && FastHit(lens, m, j)
      ensures now[j] == lens[m] * 512 + m
    {
      if FastHit(lens, i, j) { FastHitUnique(lens, m, i, j); }
    }
  }

  /** stbi__zbuild_huffman accepts the lengths exactly when they satisfy the Kraft
      inequality, and then builds the tables of the canonical code. */
  method BuildHuffman(lens: seq<nat>) returns (ok: bool, z: Tables)
    requires |lens| <= NSYMS && AtMost(lens, 15)
    ensures ok <==> Kraft(lens, 15)
    ensures ok ==> TablesFor(z, lens)
  {
    hide AtMost, Kraft, CodesFor, SlotsFor, FastFor, NextCodes, Slot, Code;
    z := NoTables;
    var firstcode, maxcode, firstsymbol;
    ok, firstcode, maxcode, firstsymbol := AssignCodes(lens);
    if !ok { return; }
    var nextCode := firstcode;
    var fast := new int[FAST_SIZE](_ => 0);
    var size, value := Zeros(NSYMS), Zeros(NSYMS);
    NothingFilled(fast[..], firstcode, maxcode, firstsymbol, size, value, lens);
    for i := 0 to |lens|
      invariant NextCodes(nextCode, lens, i)
      invariant SlotsFor(size, value, lens, i)
      invariant FastFor(fast[..], lens, i)
    {
      NextCodesStep(nextCode, firstcode, maxcode, firstsymbol, lens, i);
      var s := lens[i];
      if s != 0 {
        var c := nextCode[s] - firstcode[s] + firstsymbol[s];
        assert nextCode[s] == Code(lens, i);
        SlotsStep(size, value, lens, i);
        size := size[c := s];
        value := value[c := i];
        if s <= FAST_BITS {
          FillFast(fast, lens, i);
        }
        nextCode := nextCode[s := nextCode[s] + 1];
      } else {
        NoSlot(size, value, lens, i);
      }
      NoFastHit(fast[..], lens, i);
    }
    z := Tables(fast[..], firstcode, maxcode, firstsymbol, size, value);
  }

  lemma NoFastHit(fast: seq<int>, lens: seq<nat>, i: nat)
    requires i < |lens|
    ensures !(1 <= lens[i] <= FAST_BITS) && FastFor(fast, lens, i) ==> FastFor(fast, lens, i + 1)
  {
  }

  /** The next code of every length, after the first i symbols. */
  predicate NextCodes(nextCode: seq<int>, lens: seq<nat>, i: nat)
  {
    && |nextCode| == 16 && i <= |lens|
    && forall s :: 1 <= s < 16 ==> nextCode[s] == FirstCode(lens, s) + Count(lens[..i], s)
  }

  lemma NothingFilled(fast: seq<int>, firstcode: seq<int>, maxcode: seq<int>, firstsymbol: seq<int>, size: seq<int>,
                      value: seq<int>, lens: seq<nat>)
    requires CodesFor(firstcode, maxcode, firstsymbol, lens) && |size| == NSYMS && |value| == NSYMS
    requires |fast| == FAST_SIZE && forall j :: 0 <= j < FAST_SIZE ==> fast[j] == 0
    ensures NextCodes(firstcode, lens, 0) && SlotsFor(size, value, lens, 0) && FastFor(fast, lens, 0)
  {
    hide FirstCode, FirstSymbol, MaxCode, FastHit, Slot;
    assert lens[..0] == [];
  }

  /** Symbol i takes the next code of its length. */
  lemma NextCodesStep(
      nextCode: seq<int>, firstcode: seq<int>, maxcode: seq<int>, firstsymbol: seq<int>, lens: seq<nat>, i: nat)
    requires NextCodes(nextCode, lens, i) && i < |lens| && AtMost(lens, 15)
    requires CodesFor(firstcode, maxcode, firstsymbol, lens)
    ensures |nextCode| == |firstcode| == |firstsymbol| == 16 && lens[i] < 16
    ensures lens[i] == 0 ==> NextCodes(nextCode, lens, i + 1)
    ensures lens[i] > 0 ==>
      && nextCode[lens[i]] == Code(lens, i)
      && nextCode[lens[i]] - firstcode[lens[i]] + firstsymbol[lens[i]] == Slot(lens, i)
      && NextCodes(nextCode[lens[i] := nextCode[lens[i]] + 1], lens, i + 1)
  {
    hide FirstCode, FirstSymbol, MaxCode;
    assert lens[..i + 1][..i] == lens[..i];
  }

  lemma NoSlot(size: seq<int>, value: seq<int>, lens: seq<nat>, i: nat)
    requires i < |lens| && lens[i] == 0 && SlotsFor(size, value, lens, i)
    ensures SlotsFor(size, value, lens, i + 1)
  {
    hide Slot;
  }

  lemma SlotsStep(size: seq<int>, value: seq<int>, lens: seq<nat>, i: nat)
    requires i < |lens| <= NSYMS && lens[i] > 0 && SlotsFor(size, value, lens, i)
    ensures Slot(lens, i) < NSYMS == |size| == |value|
    ensures SlotsFor(size[Slot(lens, i) := lens[i]], value[Slot(lens, i) := i], lens, i + 1)
  {
    SlotBound(lens, i);
    forall k | 0 <= k < i && lens[k] > 0 ensures Slot(lens, k) != Slot(lens, i) {
      if Slot(lens, k) == Slot(lens, i) { SlotInjective(lens, k, i); }
    }
  }

  // ---------------------------------------------------------------------------
  // Looking a code up: stbi__zhuffman_decode and its slow path

  /** A fast entry is the symbol whose code begins the nine index bits; an empty entry
      means that no code of at most nine bits does. */
  lemma FastLookup(z: Tables, lens: seq<nat>, j: nat) returns (i: nat)
    requires TablesFor(z, lens) && j < FAST_SIZE && |lens| <= NSYMS
    ensures z.fast[j] != 0 ==> i < |lens| && FastHit(lens, i, j) && z.fast[j] / 512 == lens[i] && z.fast[j] % 512 == i
    ensures z.fast[j] == 0 ==> forall k :: 0 <= k < |lens| ==> !FastHit(lens, k, j)
  {
    i := 0;
    if z.fast[j] != 0 {
      i :| 0 <= i < |lens| && FastHit(lens, i, j);
    }
  }

  /** The slow path's slot holds the matching symbol, so its two sanity tests never fail. */
  lemma SlowLookup(z: Tables, lens: seq<nat>, w: nat, s: nat) returns (i: nat)
    requires TablesFor(z, lens) && AtMost(lens, 15) && |lens| <= NSYMS
    requires FAST_BITS < s < 16 && w < z.maxcode[s]
    requires s > FAST_BITS + 1 ==> w >= z.maxcode[s - 1]
    requires forall k :: 0 <= k < |lens| && 0 < lens[k] <= FAST_BITS ==> !Matches(lens, k, w)
    ensures i < |lens| && lens[i] == s && Matches(lens, i, w)
    ensures Shr(w, 16 - s) - z.firstcode[s] + z.firstsymbol[s] == Slot(lens, i) < NSYMS
    ensures z.size[Slot(lens, i)] == s && z.value[Slot(lens, i)] == i
  {
    ShiftCompare(w, Used(lens, s), 16 - s);
    ShiftCompare(w, Used(lens, s - 1), 16 - (s - 1));
    if Below(lens, w, s - 1) {
      var t := FirstBelow(lens, w, s - 1);
      var k := MatchExists(lens, t, w);
    }
    i := MatchExists(lens, s, w);
  }

  /** When no table entry is above the window, no code matches. */
  lemma NoLookup(z: Tables, lens: seq<nat>, w: nat)
    requires TablesFor(z, lens) && AtMost(lens, 15)
    requires w >= z.maxcode[15]
    requires forall k :: 0 <= k < |lens| && 0 < lens[k] <= FAST_BITS ==> !Matches(lens, k, w)
    ensures forall k :: 0 <= k < |lens| && 0 < lens[k] ==> !Matches(lens, k, w)
  {
    ShiftCompare(w, Used(lens, 15), 1);
    forall k | 0 <= k < |lens| && 0 < lens[k] ensures !Matches(lens, k, w) {
      if Matches(lens, k, w) {
        MatchIsFirstBelow(lens, k, w);
        BelowMono(lens, w, lens[k], 15);
      }
    }
  }
}
