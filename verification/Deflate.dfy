/** The zlib writer of stb_image_write: stbi_zlib_compress with its stretchy buffer,
    bit packing, hash chains and lazy matching. */
module Deflate {
  import opened BitStrings
  import opened Canonical
  import opened ZHuffman
  import opened DeflateFormat
  import opened DeflateStream
  import opened FixedCode
  import opened Unambiguity
  import opened Reading
  import opened Adler32

  const LENGTHC: seq<int> :=
    [3, 4, 5, 6, 7, 8, 9, 10, 11, 13, 15, 17, 19, 23, 27, 31, 35, 43, 51, 59, 67, 83, 99, 115, 131, 163, 195, 227, 258,
     259]
  const LENGTHEB: seq<int> :=
    [0, 0, 0, 0, 0, 0, 0, 0, 1, 1, 1, 1, 2, 2, 2, 2, 3, 3, 3, 3, 4, 4, 4, 4, 5, 5, 5, 5, 0]
  const DISTC: seq<int> :=
    [1, 2, 3, 4, 5, 7, 9, 13, 17, 25, 33, 49, 65, 97, 129, 193, 257, 385, 513, 769, 1025, 1537, 2049, 3073, 4097, 6145,
     8193, 12289, 16385, 24577, 32768]
  const DISTEB: seq<int> :=
    [0, 0, 0, 0, 1, 1, 2, 2, 3, 3, 4, 4, 5, 5, 6, 6, 7, 7, 8, 8, 9, 9, 10, 10, 11, 11, 12, 12, 13, 13]

  const ZHASH := 16384

  /** The writer's tables agree with the format. */
  lemma LengthCodes(j: nat)
    requires j < 29
    ensures |LENGTHC| == 30 && |LENGTHEB| == 29
    ensures LENGTHC[j] == LengthBase(j) && LENGTHEB[j] == LengthExtra(j) <= 5
  {
    hide LengthBase;
    LengthBaseCodes(j);
  }

  lemma LengthBaseCodes(j: nat)
    requires j < 29
    ensures LENGTHC[j] == LengthBase(j)
  {
    hide Shl;
    ShlSmall(4 + j % 4);
  }

  lemma DistCodes(j: nat)
    requires j < 30
    ensures |DISTC| == 31 && |DISTEB| == 30
    ensures DISTC[j] == DistBase(j) && DISTEB[j] == DistExtra(j) <= 13
  {
    hide DistBase;
    DistBaseCodes(j);
  }

  lemma DistBaseCodes(j: nat)
    requires j < 30
    ensures DISTC[j] == DistBase(j)
  {
    hide Shl;
    ShlSmall(2 + j % 2);
  }

  /** The numbers between neighbouring table entries fit the extra bits. */
  lemma LengthGap(j: nat)
    requires j < 29
    ensures LENGTHC[j + 1] - LENGTHC[j] <= Pow2(LENGTHEB[j])
  {
    hide Pow2;
    SmallPowers();
  }

  lemma DistGap(j: nat)
    requires j < 30
    ensures DISTC[j + 1] - DISTC[j] <= Pow2(DISTEB[j])
  {
    hide Pow2;
    SmallPowers();
  }

  // ---------------------------------------------------------------------------
  // Bit packing

  lemma {:induction false} BitsSnoc(v: nat, n: nat)
    ensures Bits(v, n + 1) == Bits(v, n) + [Shr(v, n) % 2 == 1]
  {
    if n > 0 {
      BitsSnoc(v / 2, n - 1);
      assert Bits(v, n + 1) == [v % 2 == 1] + Bits(v / 2, n);
    }
  }

  lemma ShrStep(v: nat, n: nat)
    ensures Shr(v, n + 1) == Shr(v, n) / 2
  {
    ShrShr(v, n, 1);
  }

  /** stbiw__zlib_bitrev. */
  method Bitrev(code: nat, codebits: nat) returns (res: nat)
    ensures res == BitReverse(code, codebits)
  {
    res := 0;
    var c := code;
    for i := 0 to codebits
      invariant res == MsbVal(Bits(code, i)) && c == Shr(code, i)
    {
      BitsSnoc(code, i);
      assert Bits(code, i + 1)[..i] == Bits(code, i);
      ShrStep(code, i);
      res := 2 * res + c % 2;
      c := c / 2;
    }
  }

  // ---------------------------------------------------------------------------
  // Matching

  /** data repeats, from a and from b on, for n bytes. */
  predicate Same(data: seq<Byte>, a: nat, b: nat, n: nat)
  {
    a + n <= |data| && b + n <= |data| && data[a..a + n] == data[b..b + n]
  }

  /** stbiw__zlib_countm: the length of the repetition, at most 258. */
  method Countm(data: seq<Byte>, a: nat, b: nat, limit: int) returns (n: nat)
    requires a <= b && 0 <= limit && b + limit <= |data|
    ensures n <= limit && n <= 258 && Same(data, a, b, n)
    ensures n == limit || n == 258 || data[a + n] != data[b + n]
  {
    n := 0;
    while n < limit && n < 258
      invariant n <= limit && n <= 258 && Same(data, a, b, n)
    {
      if data[a + n] != data[b + n] { break; }
      assert data[a..a + n + 1] == data[a..a + n] + [data[a + n]];
      assert data[b..b + n + 1] == data[b..b + n] + [data[b + n]];
      n := n + 1;
    }
  }

  /** A match for position i: a window of at most 32767 bytes, a length from 3 to 258. */
  predicate GoodMatch(data: seq<Byte>, i: nat, loc: nat, n: nat)
  {
    loc < i && i - loc <= 32767 && 3 <= n <= 258 && Same(data, loc, i, n)
  }

  /** All entries are positions before i. */
  predicate Earlier(hlist: seq<int>, i: int)
  {
    forall j :: 0 <= j < |hlist| ==> 0 <= hlist[j] < i
  }

  /** Entry loc of the chain has the longest match of all, n bytes, and is the last one with it. */
  ghost predicate BestIn(data: seq<Byte>, i: nat, hlist: seq<int>, loc: nat, n: nat)
    requires Earlier(hlist, i)
  {
    && GoodMatch(data, i, loc, n)
    && (forall j, m: nat :: 0 <= j < |hlist| && GoodMatch(data, i, hlist[j], m) ==> m <= n)
    && exists j ::
         0 <= j < |hlist| && hlist[j] == loc && forall k :: j < k < |hlist| ==> !GoodMatch(data, i, hlist[k], n)
  }

  /** The chain holds a match of more than n bytes. */
  ghost predicate LongerIn(data: seq<Byte>, i: nat, hlist: seq<int>, n: nat)
    requires Earlier(hlist, i)
  {
    exists j, m: nat :: 0 <= j < |hlist| && GoodMatch(data, i, hlist[j], m) && m > n
  }

  /** Searches a hash chain; bestloc is -1 when it holds no match of at least three bytes. */
  method FindMatch(data: seq<Byte>, i: nat, hlist: seq<int>) returns (best: nat, bestloc: int)
    requires i < |data| && Earlier(hlist, i)
    ensures bestloc == -1 || (bestloc >= 0 && BestIn(data, i, hlist, bestloc, best))
    ensures bestloc == -1 ==> !LongerIn(data, i, hlist, 2)
  {
    hide GoodMatch;
    best, bestloc := 3, -1;
    ghost var at := 0;
    for j := 0 to |hlist|
      invariant bestloc == -1 ==> best == 3 && forall k, n: nat :: 0 <= k < j ==> !GoodMatch(data, i, hlist[k], n)
      invariant bestloc == -1 || (bestloc >= 0 && at < j && hlist[at] == bestloc && GoodMatch(data, i, bestloc, best))
      invariant bestloc >= 0 ==> forall k, n: nat :: 0 <= k < j && GoodMatch(data, i, hlist[k], n) ==> n <= best
      invariant bestloc >= 0 ==> forall k :: at < k < j ==> !GoodMatch(data, i, hlist[k], best)
    {
      MatchWindow(data, i, hlist[j]);
      if hlist[j] > i - 32768 {
        var d := Countm(data, hlist[j], i, |data| - i);
        CountIsLongest(data, hlist[j], i, d);
        if d >= best {
          MatchFound(data, i, hlist[j], d, best);
          best, bestloc := d, hlist[j];
          at := j;
        }
      }
    }
  }

  lemma MatchWindow(data: seq<Byte>, i: nat, loc: nat)
    ensures forall n: nat :: GoodMatch(data, i, loc, n) ==> loc > i - 32768 && n >= 3
  {
  }

  lemma MatchFound(data: seq<Byte>, i: nat, loc: nat, d: nat, best: nat)
    requires loc < i && loc > i - 32768 && Same(data, loc, i, d) && best <= d <= 258 && best >= 3
    ensures GoodMatch(data, i, loc, d)
  {
  }

  /** No repetition is longer than the one counted. */
  lemma CountIsLongest(data: seq<Byte>, a: nat, b: nat, d: nat)
    requires a <= b && b + d <= |data| && Same(data, a, b, d)
    requires b + d == |data| || d == 258 || data[a + d] != data[b + d]
    ensures forall n: nat :: GoodMatch(data, b, a, n) ==> n <= d
  {
    forall n: nat | GoodMatch(data, b, a, n) ensures n <= d {
      if n > d { SameAt(data, a, b, n, d); }
    }
  }

  lemma SameAt(data: seq<Byte>, a: nat, b: nat, n: nat, k: nat)
    requires Same(data, a, b, n) && k < n
    ensures data[a + k] == data[b + k]
  {
    assert data[a..a + n][k] == data[a + k] && data[b..b + n][k] == data[b + k];
  }

  /** The lazy test: does the chain hold a longer match for the next position? */
  method BetterNext(data: seq<Byte>, next: nat, hlist: seq<int>, best: nat) returns (better: bool)
    requires next < |data| && Earlier(hlist, next) && best >= 3
    ensures better <==> LongerIn(data, next, hlist, best)
  {
    for j := 0 to |hlist|
      invariant forall k, n: nat :: 0 <= k < j && GoodMatch(data, next, hlist[k], n) ==> n <= best
    {
      if hlist[j] > next - 32768 {
        var e := Countm(data, hlist[j], next, |data| - next);
        CountIsLongest(data, hlist[j], next, e);
        if e > best {
          assert GoodMatch(data, next, hlist[j], e);
          return true;
        }
      }
    }
    return false;
  }

  function U32(x: nat): nat { x % 0x1_0000_0000 }

  /** stbiw__zhash, in 32-bit unsigned arithmetic; the result is masked by the caller. */
  function Zhash(d0: Byte, d1: Byte, d2: Byte): nat
  {
    var h := d0 + 0x100 * d1 as int + 0x10000 * d2 as int;
    var h := U32(Xor(h, U32(8 * h)));
    var h := U32(h + h / 0x20);
    var h := U32(Xor(h, U32(16 * h)));
    var h := U32(h + h / 0x20000);
    var h := U32(Xor(h, U32(0x2000000 * h)));
    U32(h + h / 0x40)
  }

  /** Numbers without common bits add up. */
  lemma {:induction false} XorApart(x: nat, y: nat, n: nat)
    requires x < Pow2(n)
    ensures Xor(x, Shl(y, n)) == x + Shl(y, n)
    decreases n
  {
    if n == 0 {
      XorNone(y);
    } else {
      XorApart(x / 2, y, n - 1);
      var z := Shl(y, n);
      assert z == 2 * Shl(y, n - 1) && z % 2 == 0 && z / 2 == Shl(y, n - 1);
    }
  }

  lemma {:induction false} XorNone(y: nat)
    ensures Xor(0, y) == y
  {
    if y > 0 { XorNone(y / 2); }
  }

  /** A sample of the hash, and the chain that it selects. */
  lemma ZhashSample()
    ensures Zhash(1, 0, 0) == 0x32c8_009b && HashOf([1, 0, 0], 0) == 0x9b
  {
    hide Xor, U32;
    FirstXor();
    SecondXor();
    ThirdXor();
    SampleShifts();
  }

  lemma SampleShifts()
    ensures U32(8) == 8 && U32(9) == 9 && U32(144) == 144 && U32(153) == 153 && U32(0x2000000 * 153) == 0x3200_0000
    ensures U32(0x3200_0099) == 0x3200_0099 && U32(0x3200_0099 + 0x3200_0099 / 0x40) == 0x32c8_009b
  {
  }

  lemma FirstXor()
    ensures Xor(1, 8) == 9
  {
    hide Xor;
    assert Shl(4, 1) == 8 && Pow2(1) == 2;
    XorApart(1, 4, 1);
  }

  lemma SecondXor()
    ensures Xor(9, 144) == 153
  {
    hide Xor;
    ShlSmall(9);
    assert Pow2(4) == 16;
    XorApart(9, 9, 4);
  }

  lemma ThirdXor()
    ensures Xor(153, 0x3200_0000) == 0x3200_0099
  {
    hide Xor, Shl, Pow2;
    Pow2Values();
    ShlEight(0x32_0000);
    XorApart(153, 0x32_0000, 8);
  }

  predicate Inside(data: seq<Byte>, visited: seq<nat>)
  {
    forall k :: 0 <= k < |visited| ==> visited[k] + 2 < |data|
  }

  /** The chain of position i. */
  function HashOf(data: seq<Byte>, i: nat): (h: nat)
    requires i + 2 < |data|
    ensures h < ZHASH
  {
    Zhash(data[i], data[i + 1], data[i + 2]) % ZHASH
  }

  /** What chain h holds after the positions visited: those with this hash, the older half dropped whenever there
      are twice as many as the quality says. */
  function Chain(data: seq<Byte>, visited: seq<nat>, h: nat, quality: nat): (c: seq<int>)
    requires quality > 0 && Inside(data, visited)
  {
    if visited == [] then [] else
    var n := |visited| - 1;
    var c := Chain(data, visited[..n], h, quality);
    if HashOf(data, visited[n]) != h then c
    else (if |c| == 2 * quality then c[quality..] else c) + [visited[n]]
  }

  /** The positions visited that have hash h. */
  function WithHash(data: seq<Byte>, visited: seq<nat>, h: nat): (c: seq<int>)
    requires Inside(data, visited)
  {
    if visited == [] then [] else
    var n := |visited| - 1;
    WithHash(data, visited[..n], h) + (if HashOf(data, visited[n]) == h then [visited[n]] else [])
  }

  /** The latest of all, all of them or more than the quality says. */
  predicate Latest(all: seq<int>, c: seq<int>, quality: nat)
  {
    |c| <= 2 * quality && |c| <= |all| && c == all[|all| - |c|..] && (|c| == |all| || |c| > quality)
  }

  /** A chain is the latest of them. */
  lemma {:induction false} ChainIsLatest(data: seq<Byte>, visited: seq<nat>, h: nat, quality: nat)
    requires quality > 0 && Inside(data, visited)
    ensures Latest(WithHash(data, visited, h), Chain(data, visited, h, quality), quality)
  {
    hide HashOf, Latest;
    NoneLatest(quality);
    if visited != [] {
      var n := |visited| - 1;
      ChainIsLatest(data, visited[..n], h, quality);
      var all, c := WithHash(data, visited[..n], h), Chain(data, visited[..n], h, quality);
      if HashOf(data, visited[n]) == h {
        LatestMore(all, c, visited[n], quality);
      } else {
        assert all + [] == all;
      }
    }
  }

  lemma NoneLatest(quality: nat)
    ensures Latest([], [], quality)
  {
  }

  lemma LatestMore(all: seq<int>, c: seq<int>, x: int, quality: nat)
    requires quality > 0 && Latest(all, c, quality)
    ensures Latest(all + [x], (if |c| == 2 * quality then c[quality..] else c) + [x], quality)
  {
    if |c| == 2 * quality {
      assert c[quality..] == all[|all| - quality..];
    }
  }

  /** Every hash chain holds positions before i only. */
  predicate TableBefore(table: seq<seq<int>>, i: int)
  {
    forall h :: 0 <= h < |table| ==> Earlier(table[h], i)
  }

  /** The table holds the chains of the positions visited, all of them before i. */
  ghost predicate TableOf(table: seq<seq<int>>, data: seq<Byte>, visited: seq<nat>, quality: nat, i: nat)
  {
    && |table| == ZHASH && quality > 0 && Inside(data, visited) && TableBefore(table, i)
    && forall h :: 0 <= h < ZHASH ==> table[h] == Chain(data, visited, h, quality)
  }

  /** The token for position i, from its chain and that of the next position, which by then holds position i: the
      longest match in the first, unless the second has a longer one; otherwise a literal. */
  ghost predicate ChosenFrom(data: seq<Byte>, i: nat, here: seq<int>, next: seq<int>, t: Token)
    requires i < |data|
  {
    && Earlier(here, i) && Earlier(next, i + 1) && WellFormed(t)
    && match t
       case Literal(b) =>
         b == data[i] && forall loc: nat, n: nat :: BestIn(data, i, here, loc, n) ==> LongerIn(data, i + 1, next, n)
       case Match(_, _, _, _) =>
         && Distance(t) <= i && BestIn(data, i, here, i - Distance(t), Length(t))
         && !LongerIn(data, i + 1, next, Length(t))
  }

  ghost predicate ChosenAt(data: seq<Byte>, visited: seq<nat>, quality: nat, i: nat, t: Token)
    requires i + 3 < |data| && quality > 0 && Inside(data, visited)
  {
    ChosenFrom(data, i, Chain(data, visited, HashOf(data, i), quality),
      Chain(data, visited + [i], HashOf(data, i + 1), quality), t)
  }

  /** The bytes that a token stands for. */
  function Span(t: Token): nat
  {
    if t.Match? && WellFormed(t) then Length(t) else 1
  }

  /** Where token k begins. */
  function Place(ts: seq<Token>, k: nat): nat
    requires k <= |ts|
  {
    if k == 0 then 0 else Place(ts, k - 1) + Span(ts[k - 1])
  }

  /** The positions of the first k tokens, except those within the last three bytes of the data. */
  function Visited(data: seq<Byte>, ts: seq<Token>, k: nat): (v: seq<nat>)
    requires k <= |ts|
    ensures Inside(data, v)
  {
    if k == 0 then [] else
    Visited(data, ts, k - 1) + (if Place(ts, k - 1) + 3 < |data| then [Place(ts, k - 1)] else [])
  }

  /** Token k is the one that the compressor chooses; the last three bytes are literals. */
  ghost predicate TokenChosen(data: seq<Byte>, ts: seq<Token>, quality: nat, k: nat)
    requires quality > 0 && k < |ts|
  {
    var i := Place(ts, k);
    if i + 3 < |data| then ChosenAt(data, Visited(data, ts, k), quality, i, ts[k])
    else i < |data| && ts[k] == Literal(data[i])
  }

  ghost predicate Chosen(data: seq<Byte>, ts: seq<Token>, quality: nat)
    requires quality > 0
  {
    forall k :: 0 <= k < |ts| ==> TokenChosen(data, ts, quality, k)
  }

  lemma {:induction false} PlaceMore(data: seq<Byte>, ts: seq<Token>, t: Token, k: nat)
    requires k <= |ts|
    ensures Place(ts + [t], k) == Place(ts, k) && Visited(data, ts + [t], k) == Visited(data, ts, k)
  {
    if k > 0 { PlaceMore(data, ts, t, k - 1); }
  }

  lemma ChosenMore(data: seq<Byte>, ts: seq<Token>, t: Token, quality: nat)
    requires quality > 0 && Chosen(data, ts, quality)
    requires
      var i := Place(ts, |ts|);
      if i + 3 < |data| then ChosenAt(data, Visited(data, ts, |ts|), quality, i, t)
      else i < |data| && t == Literal(data[i])
    ensures Chosen(data, ts + [t], quality)
  {
    hide ChosenAt, Place, Visited;
    var more := ts + [t];
    forall k | 0 <= k < |more| ensures TokenChosen(data, more, quality, k) {
      PlaceMore(data, ts, t, k);
      if k < |ts| { assert TokenChosen(data, ts, quality, k); }
    }
  }

  /** Position i joins its chain. */
  lemma ChainMore(data: seq<Byte>, visited: seq<nat>, i: nat, h: nat, quality: nat)
    requires quality > 0 && Inside(data, visited) && i + 2 < |data|
    ensures
      var c := Chain(data, visited, h, quality);
      Chain(data, visited + [i], h, quality)
        == if HashOf(data, i) != h then c else (if |c| == 2 * quality then c[quality..] else c) + [i]
  {
    hide HashOf;
    assert (visited + [i])[..|visited|] == visited;
  }

  lemma MatchLength(data: seq<Byte>, i: nat, loc: nat, n: nat)
    requires GoodMatch(data, i, loc, n)
    ensures 3 <= n <= 258 && 1 <= i - loc <= 32767 && i + n <= |data|
  {
  }

  lemma BestLength(data: seq<Byte>, i: nat, hlist: seq<int>, loc: nat, n: nat)
    requires Earlier(hlist, i) && BestIn(data, i, hlist, loc, n)
    ensures GoodMatch(data, i, loc, n) && 3 <= n <= 258 && 1 <= i - loc <= 32767 && i + n <= |data|
  {
  }

  /** A literal is right: there was no match, or there is a longer one for the next position. */
  lemma LiteralChosen(data: seq<Byte>, i: nat, here: seq<int>, next: seq<int>, found: int, best: nat)
    requires Earlier(here, i) && Earlier(next, i + 1)
    requires found == -1 ==> !LongerIn(data, i, here, 2)
    requires found != -1 ==> found >= 0 && BestIn(data, i, here, found, best) && LongerIn(data, i + 1, next, best)
    ensures forall loc: nat, n: nat :: BestIn(data, i, here, loc, n) ==> LongerIn(data, i + 1, next, n)
  {
    forall loc: nat, n: nat | BestIn(data, i, here, loc, n) ensures LongerIn(data, i + 1, next, n) {
      var j :| 0 <= j < |here| && here[j] == loc;
      MatchWindow(data, i, loc);
      if found != -1 {
        var k :| 0 <= k < |here| && here[k] == found;
      }
    }
  }

  lemma TableLater(table: seq<seq<int>>, data: seq<Byte>, visited: seq<nat>, quality: nat, i: nat, i': nat)
    requires TableOf(table, data, visited, quality, i) && i <= i'
    ensures TableOf(table, data, visited, quality, i')
  {
    hide Chain;
  }

  lemma NothingChosen(table: seq<seq<int>>, data: seq<Byte>, quality: nat)
    requires |table| == ZHASH && quality > 0 && forall h :: 0 <= h < ZHASH ==> table[h] == []
    ensures TableOf(table, data, [], quality, 0) && Chosen(data, [], quality)
  {
  }

  /** A repetition found in the data is what the reader's copy produces. */
  lemma {:induction false} CopyIsSame(data: seq<Byte>, loc: nat, i: nat, n: nat)
    requires loc < i && Same(data, loc, i, n)
    ensures Copy(data[..i], i - loc, n) == data[..i + n]
    decreases n
  {
    if n > 0 {
      assert data[loc] == data[loc..loc + n][0] == data[i..i + n][0] == data[i];
      assert data[..i][i - (i - loc)] == data[loc];
      assert data[..i] + [data[i]] == data[..i + 1];
      assert data[loc + 1..loc + n] == data[loc..loc + n][1..];
      assert data[i + 1..i + n] == data[i..i + n][1..];
      CopyIsSame(data, loc + 1, i + 1, n - 1);
    }
  }

  // ---------------------------------------------------------------------------
  // Tokens of the fixed code

  function FixedLit(): Codebook { Book(FixedLitLens()) }

  function FixedDist(): Codebook { Book(FixedDistLens()) }

  /** After the bits w, the tokens ts have been written and stand for the first i bytes. */
  ghost predicate Progress(w: seq<bool>, start: seq<bool>, ts: seq<Token>, data: seq<Byte>, i: nat)
  {
    && AllEncodable(FixedLit(), FixedDist(), ts) && w == start + Body(FixedLit(), FixedDist(), ts)
    && i <= |data| && Expandable([], ts) && Expand([], ts) == data[..i]
  }

  lemma NoProgress(start: seq<bool>, data: seq<Byte>)
    ensures Progress(start, start, [], data, 0)
  {
    assert start + [] == start;
  }

  lemma ProgressStep(w: seq<bool>, start: seq<bool>, ts: seq<Token>, data: seq<Byte>, i: nat, t: Token, i': nat)
    requires Progress(w, start, ts, data, i) && Encodable(FixedLit(), FixedDist(), t)
    requires i' <= |data| && Reaches(data[..i], t) && Emit(data[..i], t) == data[..i']
    ensures Progress(w + TokenBits(FixedLit(), FixedDist(), t), start, ts + [t], data, i')
  {
    hide FixedLit, FixedDist, TokenBits, Body, Encodable, Reaches, Emit;
    BodySnoc(FixedLit(), FixedDist(), ts, t);
    ConcatAssoc(start, Body(FixedLit(), FixedDist(), ts), TokenBits(FixedLit(), FixedDist(), t));
    assert (ts + [t])[..|ts|] == ts;
  }

  lemma ProgressLiteral(w: seq<bool>, start: seq<bool>, ts: seq<Token>, data: seq<Byte>, i: nat)
    requires Progress(w, start, ts, data, i) && i < |data|
    ensures data[i] < |FixedLit()|
    ensures Progress(w + FixedLit()[data[i]], start, ts + [Literal(data[i])], data, i + 1)
  {
    hide Progress, FixedLit, FixedDist, Encodable, TokenBits, Emit, Reaches;
    LiteralBits(data[i]);
    LiteralEmits(data, i);
    ProgressStep(w, start, ts, data, i, Literal(data[i]), i + 1);
  }

  lemma LiteralBits(b: Byte)
    ensures Encodable(FixedLit(), FixedDist(), Literal(b))
    ensures b < |FixedLit()| && TokenBits(FixedLit(), FixedDist(), Literal(b)) == FixedLit()[b]
  {
    FixedSymbol(b);
    SameBook();
    hide FixedLit, Book, MsbBits;
    assert FixedLit()[b] + [] == FixedLit()[b];
  }

  lemma LiteralEmits(data: seq<Byte>, i: nat)
    requires i < |data|
    ensures Reaches(data[..i], Literal(data[i])) && Emit(data[..i], Literal(data[i])) == data[..i + 1]
  {
  }

  lemma ProgressMatch(w: seq<bool>, start: seq<bool>, ts: seq<Token>, data: seq<Byte>, i: nat, loc: nat, t: Token)
    requires Progress(w, start, ts, data, i) && t.Match? && Encodable(FixedLit(), FixedDist(), t)
    requires Distance(t) == i - loc && GoodMatch(data, i, loc, Length(t))
    ensures i + Length(t) <= |data|
    ensures Progress(w + TokenBits(FixedLit(), FixedDist(), t), start, ts + [t], data, i + Length(t))
  {
    hide FixedLit, FixedDist, TokenBits, Copy, LengthBase, DistBase, LengthExtra, DistExtra, Progress, Pow2;
    CopyIsSame(data, loc, i, Length(t));
    ProgressRange(w, start, ts, data, i);
    ProgressStep(w, start, ts, data, i, t, i + Length(t));
  }

  lemma ProgressRange(w: seq<bool>, start: seq<bool>, ts: seq<Token>, data: seq<Byte>, i: nat)
    requires Progress(w, start, ts, data, i)
    ensures i <= |data|
  {
  }

  // ---------------------------------------------------------------------------
  // Whole streams

  const HEADER: seq<Byte> := [0x78, 0x5e]

  /** Header, BFINAL = 1 and BTYPE = 1. */
  function Start(): seq<bool>
  {
    ToBits(HEADER) + Bits(1, 1) + Bits(1, 2)
  }

  /** The bytes out are the header and one fixed block for data, zero padded to a byte. */
  ghost predicate FixedForm(out: seq<Byte>, data: seq<Byte>, ts: seq<Token>, pad: seq<bool>)
  {
    && AllEncodable(FixedLit(), FixedDist(), ts) && HasCode(FixedLit(), END_OF_BLOCK) && |pad| < 8
    && ToBits(out) == Start() + Body(FixedLit(), FixedDist(), ts) + FixedLit()[END_OF_BLOCK] + pad
    && Expandable([], ts) && Expand([], ts) == data
  }

  const CHUNK := 32767

  function ChunkLength(data: seq<Byte>): nat
  {
    if |data| > CHUNK then CHUNK else |data|
  }

  function ChunkHeader(data: seq<Byte>): (h: seq<Byte>)
    ensures |h| == 5
  {
    var n := ChunkLength(data);
    var m := 0xffff - n;
    [if n == |data| then 1 else 0, n % 256, n / 256, m % 256, m / 256]
  }

  /** data as stored blocks of at most 32767 bytes. */
  function StoredForm(data: seq<Byte>): seq<Byte>
  {
    if data == [] then []
    else ChunkHeader(data) + data[..ChunkLength(data)] + StoredForm(data[ChunkLength(data)..])
  }

  lemma OneBit()
    ensures |Bits(0, 1)| == 1 && 0 < Pow2(1)
  {
  }

  lemma NoBitsLeft(buf: nat)
    ensures Bits(buf, 0) == []
  {
  }

  lemma NoChunks()
    ensures StoredForm([]) == []
  {
  }

  lemma StoredFormParts(out: seq<Byte>, data: seq<Byte>, j: nat, n: nat)
    requires j < |data| && n == ChunkLength(data[j..])
    ensures ChunkHeader(data[j..]) ==
      [if |data| - j == n then 1 else 0, n % 256, n / 256, (0xffff - n) % 256, (0xffff - n) / 256]
    ensures out + StoredForm(data[j..]) ==
      out + ChunkHeader(data[j..]) + data[j..j + n] + StoredForm(data[j + n..])
  {
    assert data[j..][..n] == data[j..j + n];
    assert data[j..][n..] == data[j + n..];
  }

  lemma {:induction false} StoredFormLength(data: seq<Byte>)
    ensures |StoredForm(data)| == |data| + (|data| + 32766) / 32767 * 5
  {
    if |data| > CHUNK {
      StoredFormLength(data[CHUNK..]);
      assert (|data| - CHUNK + 32766) / 32767 + 1 == (|data| + 32766) / 32767;
    } else if data != [] {
      assert data[|data|..] == [];
      assert (|data| + 32766) / 32767 == 1;
    }
  }

  class Writer {
    var out: seq<Byte>   // the stretchy buffer's bytes
    var room: nat        // its allocated capacity, stbiw__sbm
    var bitbuf: nat
    var bitcount: nat

    ghost predicate Valid()
      reads this
    {
      (|out| < room || (out == [] && room == 0)) && bitcount < 8 && bitbuf < Pow2(bitcount)
    }

    /** Everything written so far, as bits. */
    ghost function Written(): seq<bool>
      reads this
    {
      ToBits(out) + Bits(bitbuf, bitcount)
    }

    constructor ()
      ensures Valid() && out == [] && bitcount == 0
    {
      out, room, bitbuf, bitcount := [], 0, 0, 0;
    }

    /** stbiw__sbpush: grows the buffer before the last place is taken. */
    method Push(b: Byte)
      requires |out| < room || (out == [] && room == 0)
      modifies `out, `room
      ensures out == old(out) + [b] && |out| < room && room >= old(room)
      ensures |old(out)| + 1 < old(room) ==> room == old(room)
    {
      if room == 0 {
        room := 2;
      } else if |out| + 1 >= room {
        room := 2 * room + 1;
      }
      out := out + [b];
    }

    /** stbiw__zlib_add with stbiw__zlib_flush; the 32-bit buffer never overflows. */
    method Add(code: nat, codebits: nat)
      requires Valid() && code < Pow2(codebits) && codebits <= 24
      modifies this
      ensures Valid() && Written() == old(Written()) + Bits(code, codebits)
      ensures old(out) <= out && room >= old(room)
      ensures codebits == 1 ==> bitcount == if old(bitcount) == 7 then 0 else old(bitcount) + 1
    {
      hide ToBits, Bits, Pow2, Low, Shr, Shl;
      BitsConcat(bitbuf, bitcount, code, codebits);
      ConcatAssoc(ToBits(out), Bits(bitbuf, bitcount), Bits(code, codebits));
      ghost var before := out;
      bitbuf := bitbuf + Shl(code, bitcount);
      bitcount := bitcount + codebits;
      ghost var bytes := 0;
      while bitcount >= 8
        invariant |out| < room || (out == [] && room == 0)
        invariant bitbuf < Pow2(bitcount) && before <= out && room >= old(room)
        invariant bitcount + 8 * bytes == old(bitcount) + codebits && bytes >= 0
        invariant Written() == old(Written()) + Bits(code, codebits)
      {
        FlushByte(out, bitbuf, bitcount);
        Push(Low(bitbuf, 8));
        bitbuf := Shr(bitbuf, 8);
        bitcount := bitcount - 8;
        bytes := bytes + 1;
      }
    }

    /** stbiw__zlib_huffa: a code, most significant bit first. */
    method Huffa(b: nat, c: nat)
      requires Valid() && c <= 24
      modifies this
      ensures Valid() && Written() == old(Written()) + MsbBits(b, c)
      ensures old(out) <= out && room >= old(room)
    {
      hide ToBits, Bits, Pow2, MsbBits, BitReverse;
      var r := Bitrev(b, c);
      BitReverseBits(b, c);
      Add(r, c);
    }

    /** stbiw__zlib_huff: a symbol of the fixed literal/length code. */
    method Huff(n: nat)
      requires Valid() && n < 288
      modifies this
      ensures Valid() && Written() == old(Written()) + Book(FixedLitLens())[n]
      ensures old(out) <= out && room >= old(room)
    {
      FixedSymbol(n);
      hide ToBits, Bits, Pow2, MsbBits, Book;
      if n <= 143 {
        Huffa(0x30 + n, 8);
      } else if n <= 255 {
        Huffa(0x190 + n - 144, 9);
      } else if n <= 279 {
        Huffa(0 + n - 256, 7);
      } else {
        Huffa(0xc0 + n - 280, 8);
      }
    }

    /** The length and distance symbols of a match with their extra bits. */
    method WriteMatch(best: nat, d: nat) returns (ghost t: Token)
      requires Valid() && 3 <= best <= 258 && 1 <= d <= 32767
      modifies this
      ensures Valid() && old(out) <= out && room >= old(room)
      ensures t.Match? && Encodable(FixedLit(), FixedDist(), t) && WellFormed(t)
      ensures Length(t) == best && Distance(t) == d
      ensures Written() == old(Written()) + TokenBits(FixedLit(), FixedDist(), t)
    {
      hide ToBits, Bits, Pow2, MsbBits, Book, LengthBase, DistBase, LengthExtra, DistExtra, Valid;
      hide FixedLitLens, FixedDistLens, TokenBits, Encodable, Written, FixedLit, FixedDist;
      ghost var w := Written();
      var ls := FindLength(best);
      LengthCodes(ls);
      LengthGap(ls);
      Huff(ls + 257);
      Add(best - LENGTHC[ls], LENGTHEB[ls]);  // adding no bits changes nothing
      var ds := FindDistance(d);
      DistCodes(ds);
      DistGap(ds);
      Huffa(ds, 5);
      Add(d - DISTC[ds], DISTEB[ds]);
      t := Match(ls, best - LENGTHC[ls], ds, d - DISTC[ds]);
      MatchBits(w, t);
    }

    /** One round of the main loop of stbi_zlib_compress: search, trim and extend the hash chain,
        try the next byte, and write a match or a literal. */
    method CompressStep(data: seq<Byte>, i: nat, quality: nat, table: array<seq<int>>, ghost start: seq<bool>,
                        ghost ts: seq<Token>, ghost visited: seq<nat>) returns (i': nat, ghost t: Token)
      requires Valid() && i + 3 < |data| && TableOf(table[..], data, visited, quality, i) && quality >= 5
      requires Progress(Written(), start, ts, data, i)
      modifies this, table
      ensures Valid() && old(out) <= out && i < i' <= |data| && TableOf(table[..], data, visited + [i], quality, i')
      ensures Progress(Written(), start, ts + [t], data, i')
      ensures ChosenAt(data, visited, quality, i, t) && i' == i + Span(t)
    {
      hide ToBits, Bits, Pow2, Progress, FixedLit, FixedDist, TokenBits, Encodable, GoodMatch, Valid, HashOf, Chain,
        BestIn, LongerIn, Length, Distance;
      var h := HashOf(data, i);
      var best, bestloc := FindMatch(data, i, table[h]);
      ghost var here, found := table[h], bestloc;
      Enter(table, data, i, quality, visited);
      var h' := HashOf(data, i + 1);
      ghost var next := table[h'];
      if bestloc >= 0 {
        BestLength(data, i, here, bestloc, best);
        var better := BetterNext(data, i + 1, table[h'], best);
        if better { bestloc := -1; }
      }
      i', t := WriteToken(data, i, best, bestloc, start, ts);
      if t.Literal? {
        LiteralChosen(data, i, here, next, found, best);
      }
      TableLater(table[..], data, visited + [i], quality, i + 1, i');
    }

    /** The match found at position i, or the literal there. */
    method WriteToken(data: seq<Byte>, i: nat, best: nat, bestloc: int, ghost start: seq<bool>, ghost ts: seq<Token>)
      returns (i': nat, ghost t: Token)
      requires Valid() && i < |data| && Progress(Written(), start, ts, data, i)
      requires bestloc >= 0 ==> GoodMatch(data, i, bestloc, best)
      modifies this
      ensures Valid() && old(out) <= out && i < i' <= |data| && Progress(Written(), start, ts + [t], data, i')
      ensures bestloc < 0 ==> t == Literal(data[i]) && i' == i + 1
      ensures bestloc >= 0 ==> t.Match? && WellFormed(t) && Length(t) == best && Distance(t) == i - bestloc
      ensures bestloc >= 0 ==> i' == i + best
    {
      hide ToBits, Bits, Pow2, Progress, FixedLit, FixedDist, TokenBits, Encodable, GoodMatch, Valid;
      hide LengthBase, DistBase, LengthExtra, DistExtra;
      ghost var w := Written();
      if bestloc >= 0 {
        MatchLength(data, i, bestloc, best);
        t := WriteMatch(best, i - bestloc);
        ProgressMatch(w, start, ts, data, i, bestloc, t);
        i' := i + best;
      } else {
        ProgressLiteral(w, start, ts, data, i);
        Huff(data[i]);
        SameBook();
        t := Literal(data[i]);
        i' := i + 1;
      }
    }

    /** Position i joins its chain, which is halved when it is full. */
    static method Enter(table: array<seq<int>>, data: seq<Byte>, i: nat, quality: nat, ghost visited: seq<nat>)
      requires i + 2 < |data| && TableOf(table[..], data, visited, quality, i)
      modifies table
      ensures TableOf(table[..], data, visited + [i], quality, i + 1)
    {
      hide HashOf, Chain;
      var h := HashOf(data, i);
      ghost var was := table[..];
      if |table[h]| == 2 * quality {
        table[h] := table[h][quality..];
      }
      table[h] := table[h] + [i];
      forall k | 0 <= k < ZHASH ensures table[k] == Chain(data, visited + [i], k, quality) {
        ChainMore(data, visited, i, k, quality);
      }
    }

    /** Header and fixed block; the hash table is local to the call. */
    method WriteFixed(data: seq<Byte>, quality: int) returns (ghost ts: seq<Token>, ghost pad: seq<bool>)
      requires Valid() && out == [] && bitcount == 0
      modifies this
      ensures Valid() && bitcount == 0 && HEADER <= out && FixedForm(out, data, ts, pad)
      ensures Chosen(data, ts, if quality < 5 then 5 else quality)
    {
      hide ToBits, Bits, Pow2, FixedLit, FixedDist, Body, Progress, Expand, Expandable, AllEncodable, Chain, ChosenAt,
        HashOf, Chosen;
      var q := if quality < 5 then 5 else quality;
      WriteStart();
      var table := new seq<int>[ZHASH](_ => []);
      ts := [];
      NoProgress(Start(), data);
      NothingChosen(table[..], data, q);
      var i := 0;
      while i < |data| - 3
        invariant Valid() && HEADER <= out && 0 <= i <= |data| && i == Place(ts, |ts|)
        invariant TableOf(table[..], data, Visited(data, ts, |ts|), q, i) && Chosen(data, ts, q)
        invariant Progress(Written(), Start(), ts, data, i)
        invariant fresh(table)
        decreases |data| - i
      {
        ghost var t;
        i, t := CompressStep(data, i, q, table, Start(), ts, Visited(data, ts, |ts|));
        ChosenMore(data, ts, t, q);
        PlaceMore(data, ts, t, |ts|);
        ts := ts + [t];
      }
      ts := WriteRest(data, i, q, ts);
      pad := WriteEnd(data, ts);
    }

    /** The last bytes, for which no match is looked for. */
    method WriteRest(data: seq<Byte>, from: nat, ghost q: nat, ghost before: seq<Token>) returns (ghost ts: seq<Token>)
      requires q > 0 && Valid() && HEADER <= out && from <= |data| <= from + 3
      requires from == Place(before, |before|) && Chosen(data, before, q)
      requires Progress(Written(), Start(), before, data, from)
      modifies this
      ensures Valid() && HEADER <= out && Chosen(data, ts, q) && Progress(Written(), Start(), ts, data, |data|)
    {
      hide ToBits, Bits, Pow2, FixedLit, FixedDist, Body, Progress, Expand, Expandable, AllEncodable, ChosenAt, Chosen;
      ts := before;
      for i := from to |data|
        invariant Valid() && HEADER <= out && i == Place(ts, |ts|) && Chosen(data, ts, q)
        invariant Progress(Written(), Start(), ts, data, i)
      {
        ProgressLiteral(Written(), Start(), ts, data, i);
        SameBook();
        Huff(data[i]);
        ChosenMore(data, ts, Literal(data[i]), q);
        PlaceMore(data, ts, Literal(data[i]), |ts|);
        ts := ts + [Literal(data[i])];
      }
    }

    method WriteStart()
      requires Valid() && out == [] && bitcount == 0
      modifies this
      ensures Valid() && HEADER <= out && Written() == Start()
    {
      Push(0x78);
      Push(0x5e);
      assert out == HEADER;
      assert ToBits(out) + Bits(bitbuf, 0) == ToBits(HEADER);
      hide ToBits, Bits;
      assert Pow2(1) == 2 && Pow2(2) == 4;
      Add(1, 1);
      Add(1, 2);
    }

    /** The end-of-block symbol and zero bits up to the byte boundary. */
    method WriteEnd(data: seq<Byte>, ghost ts: seq<Token>) returns (ghost pad: seq<bool>)
      requires Valid() && HEADER <= out && Progress(Written(), Start(), ts, data, |data|)
      modifies this
      ensures Valid() && bitcount == 0 && HEADER <= out && FixedForm(out, data, ts, pad)
    {
      hide ToBits, Bits, Pow2, FixedLit, FixedDist, Body, Expand, Expandable, AllEncodable;
      FixedSymbol(END_OF_BLOCK);
      SameBook();
      Huff(END_OF_BLOCK);
      ghost var w := Written();
      assert w == Start() + Body(FixedLit(), FixedDist(), ts) + FixedLit()[END_OF_BLOCK];
      pad := [];
      assert w + [] == w;
      while bitcount != 0
        invariant Valid() && HEADER <= out && Written() == w + pad
        invariant |pad| < if bitcount == 0 then 8 else bitcount
        decreases if bitcount == 0 then 0 else 8 - bitcount
      {
        OneBit();
        ConcatAssoc(w, pad, Bits(0, 1));
        pad := pad + Bits(0, 1);
        Add(0, 1);
      }
      NoBitsLeft(bitbuf);
      assert Written() == ToBits(out);
      assert data[..|data|] == data;
    }

    /** memcpy into the buffer without a growth check: the caller's room must suffice. */
    method AppendRaw(data: seq<Byte>)
      requires |out| + |data| < room
      modifies `out
      ensures out == old(out) + data
    {
      out := out + data;
    }

    /** Replaces the compressed block by stored blocks; the buffer never has to grow. */
    method StoreInstead(data: seq<Byte>)
      requires Valid() && bitcount == 0 && HEADER <= out
      requires |out| > |data| + 2 + (|data| + 32766) / 32767 * 5
      modifies this
      ensures Valid() && bitcount == 0 && room == old(room) && out == HEADER + StoredForm(data)
    {
      hide Pow2, StoredForm;
      StoredFormLength(data);
      out := out[..2];
      var j := 0;
      assert data[0..] == data;
      while j < |data|
        invariant 0 <= j <= |data| && room == old(room) && bitcount == 0 && bitbuf == old(bitbuf)
        invariant out + StoredForm(data[j..]) == HEADER + StoredForm(data)
        decreases |data| - j
      {
        var blocklen := |data| - j;
        if blocklen > 32767 { blocklen := 32767; }
        StoredFormParts(out, data, j, blocklen);
        WriteChunk(data, j, blocklen);
        j := j + blocklen;
      }
      assert data[j..] == [];
      NoChunks();
    }

    method WriteChunk(data: seq<Byte>, j: nat, blocklen: nat)
      requires j < |data| && blocklen == ChunkLength(data[j..]) && |out| + 5 + blocklen < room
      modifies `out, `room
      ensures out == old(out) + ChunkHeader(data[j..]) + data[j..j + blocklen] && room == old(room)
    {
      Push(if |data| - j == blocklen then 1 else 0);
      Push(blocklen % 256);
      Push(blocklen / 256);
      Push((0xffff - blocklen) % 256);
      Push((0xffff - blocklen) / 256);
      assert out == old(out) + ChunkHeader(data[j..]);
      AppendRaw(data[j..j + blocklen]);
    }

    static method FindLength(best: nat) returns (j: nat)
      requires 3 <= best <= 258
      ensures j < 29 && LENGTHC[j] <= best < LENGTHC[j + 1]
    {
      j := 0;
      while best > LENGTHC[j + 1] - 1
        invariant j < 29 && LENGTHC[j] <= best
        decreases 29 - j
      {
        j := j + 1;
      }
    }

    static method FindDistance(d: nat) returns (j: nat)
      requires 1 <= d <= 32767
      ensures j < 30 && DISTC[j] <= d < DISTC[j + 1]
    {
      j := 0;
      while d > DISTC[j + 1] - 1
        invariant j < 30 && DISTC[j] <= d
        decreases 30 - j
      {
        j := j + 1;
      }
    }
  }

  lemma MatchBits(w: seq<bool>, t: Token)
    requires t.Match? && WellFormed(t)
    ensures Encodable(FixedLit(), FixedDist(), t)
    ensures w + Book(FixedLitLens())[257 + t.ls] + Bits(t.le, LengthExtra(t.ls)) + MsbBits(t.ds, 5)
              + Bits(t.de, DistExtra(t.ds))
            == w + TokenBits(FixedLit(), FixedDist(), t)
  {
    FixedSymbol(257 + t.ls);
    FixedDistance(t.ds);
    hide Book, MsbBits, Bits, LengthExtra, DistExtra, Pow2;
    ConcatFour(
      w, FixedLit()[257 + t.ls], Bits(t.le, LengthExtra(t.ls)), FixedDist()[t.ds], Bits(t.de, DistExtra(t.ds)));
  }

  lemma ConcatFour(w: seq<bool>, a: seq<bool>, b: seq<bool>, c: seq<bool>, d: seq<bool>)
    ensures w + a + b + c + d == w + (a + (b + (c + d)))
  {
  }

  /** The bits the writer emits for a symbol are its canonical code. */
  lemma FixedSymbol(n: nat)
    requires n < 288
    ensures Book(FixedLitLens())[n] ==
      if n < 144 then MsbBits(0x30 + n, 8) else if n < 256 then MsbBits(0x190 + n - 144, 9)
      else if n < 280 then MsbBits(n - 256, 7) else MsbBits(0xc0 + n - 280, 8)
    ensures HasCode(Book(FixedLitLens()), n)
  {
    FixedCodes(n);
  }

  lemma SameBook()
    ensures FixedLit() == Book(FixedLitLens()) && FixedDist() == Book(FixedDistLens())
  {
  }

  lemma FixedDistance(n: nat)
    requires n < 32
    ensures Book(FixedDistLens())[n] == MsbBits(n, 5) && HasCode(Book(FixedDistLens()), n)
  {
    FixedDistCodes(n);
  }
}
