/** What the zlib reader may conclude from the bits it has seen: facts about the code buffer,
    the decoding tables and the parts of a DEFLATE stream, stated on values. */
module Reading {
  import opened BitStrings
  import opened Canonical
  import opened ZHuffman
  import opened DeflateFormat
  import opened DeflateStream
  import opened Unambiguity
  import opened FixedCode
  import opened Buffering
  import opened Wrappers

  const UINT_MAX := 0xffff_ffff

  /** Feeding one more byte into the buffer appends its bits. */
  lemma FeedByte(input: seq<Byte>, p: nat, n: nat, fed: nat)
    requires p + n == 8 * fed && n <= 24
    ensures Val(Stream(input, p, n)) + Shl(ByteAt(input, fed), n) == Val(Stream(input, p, n + 8))
    ensures Val(Stream(input, p, n + 8)) <= UINT_MAX
  {
    hide Val, Pow2, Shl, Stream, ByteAt;
    AppendByte(input, p, n, fed);
    ValBound(Stream(input, p, n + 8));
    Pow2Mono(n + 8, 32);
    Pow2Values();
  }

  /** No code of the book stands at bit p. */
  predicate NoCode(input: seq<Byte>, p: nat, book: Codebook)
  {
    forall k :: 0 <= k < |book| && book[k] != [] ==> !At(input, p, book[k])
  }

  /** The code of symbol r stands at bit p. */
  predicate SymbolAt(input: seq<Byte>, p: nat, lens: seq<nat>, r: nat)
  {
    r < |lens| && lens[r] > 0 && At(input, p, Book(lens)[r])
  }

  /** The lengths are a code with at most 288 symbols and z holds its tables. */
  predicate Built(z: Tables, lens: seq<nat>)
  {
    CodeLengths(lens) && TablesFor(z, lens) && |lens| <= NSYMS
  }

  /** No code of at most nine bits matches the stream. */
  predicate NoShortCode(input: seq<Byte>, p: nat, lens: seq<nat>)
  {
    forall k :: 0 <= k < |lens| && 0 < lens[k] <= 9 ==> !Matches(lens, k, Window(input, p))
  }

  /** The 16 bits at p as a number, first bit most significant. */
  function Window(input: seq<Byte>, p: nat): (w: nat)
    ensures w < 0x10000
  {
    MsbValBound(Stream(input, p, 16));
    Pow2Values();
    MsbVal(Stream(input, p, 16))
  }

  lemma CodeIffMatches(input: seq<Byte>, p: nat, lens: seq<nat>, k: nat)
    requires CodeLengths(lens) && k < |lens| && lens[k] > 0
    ensures At(input, p, Book(lens)[k]) <==> Matches(lens, k, Window(input, p))
  {
    var s := Stream(input, p, 16);
    PrefixIffMatches(lens, k, 15, s);
    StreamTake(input, p, lens[k], 16);
  }

  /** What an entry of the fast table says about the stream. */
  lemma FastMeaning(input: seq<Byte>, p: nat, z: Tables, lens: seq<nat>)
    requires Built(z, lens)
    ensures var j := Val(Stream(input, p, 9));
      && j < FAST_SIZE == |z.fast|
      && (z.fast[j] != 0 ==>
           var i := z.fast[j] % 512; SymbolAt(input, p, lens, i) && lens[i] == z.fast[j] / 512 <= 9)
      && (z.fast[j] == 0 ==> NoShortCode(input, p, lens))
  {
    var j := Val(Stream(input, p, 9));
    ValBound(Stream(input, p, 9));
    Pow2Values();
    var i := FastLookup(z, lens, j);
    forall k | 0 <= k < |lens| && 0 < lens[k] <= 9
      ensures FastHit(lens, k, j) <==> At(input, p, Book(lens)[k])
      ensures FastHit(lens, k, j) <==> Matches(lens, k, Window(input, p))
    {
      FastHitIsAt(input, p, lens, k);
      CodeIffMatches(input, p, lens, k);
    }
  }

  /** What the length found by the slow path's search says about the stream. */
  lemma SlowMeaning(input: seq<Byte>, p: nat, z: Tables, lens: seq<nat>, s: nat)
    requires Built(z, lens) && NoShortCode(input, p, lens) && |z.maxcode| == 17
    requires FAST_BITS < s <= 16 && Window(input, p) < z.maxcode[s]
    requires s > FAST_BITS + 1 ==> Window(input, p) >= z.maxcode[s - 1]
    ensures s == 16 ==> NoCode(input, p, Book(lens))
    ensures s < 16 ==>
      && |z.firstcode| == 16 && |z.firstsymbol| == 16 && |z.size| == |z.value| == NSYMS
      && var b := Shr(Window(input, p), 16 - s) - z.firstcode[s] + z.firstsymbol[s];
      && 0 <= b < NSYMS && z.size[b] == s
      && z.value[b] >= 0 && SymbolAt(input, p, lens, z.value[b]) && lens[z.value[b]] == s
  {
    hide At, Book, Window, FastFor, FirstCode, FirstSymbol;
    if s == 16 {
      hide Matches;
      NoLookup(z, lens, Window(input, p));
      forall k | 0 <= k < |lens| && lens[k] > 0 ensures !At(input, p, Book(lens)[k]) {
        CodeIffMatches(input, p, lens, k);
      }
      BookEmpty(lens);
    } else {
      var i := SlowLookup(z, lens, Window(input, p), s);
      CodeIffMatches(input, p, lens, i);
    }
  }

  lemma BookEmpty(lens: seq<nat>)
    ensures forall k :: 0 <= k < |lens| ==> (Book(lens)[k] == [] <==> lens[k] == 0)
  {
  }

  lemma FastHitIsAt(input: seq<Byte>, p: nat, lens: seq<nat>, k: nat)
    requires k < |lens| && 0 < lens[k] <= 9
    ensures FastHit(lens, k, Val(Stream(input, p, 9))) <==> At(input, p, Book(lens)[k])
  {
    var s := Stream(input, p, 9);
    BitsVal(s);
    BitsPrefix(Val(s), 9, lens[k]);
    StreamTake(input, p, lens[k], 9);
  }

  /** The low 16 bits of the buffer, reversed, are the window. */
  lemma WindowOfBuffer(input: seq<Byte>, p: nat, m: nat)
    requires m >= 16
    ensures BitReverse(Val(Stream(input, p, m)), 16) == Window(input, p)
  {
    var s := Stream(input, p, m);
    BitsVal(s);
    BitsPrefix(Val(s), m, 16);
    StreamTake(input, p, 16, m);
  }

  // ---------------------------------------------------------------------------
  // Tokens

  const ZLENGTH_BASE: seq<int> :=
    [3, 4, 5, 6, 7, 8, 9, 10, 11, 13, 15, 17, 19, 23, 27, 31, 35, 43, 51, 59, 67, 83, 99, 115, 131, 163, 195, 227, 258,
     0, 0]
  const ZLENGTH_EXTRA: seq<int> :=
    [0, 0, 0, 0, 0, 0, 0, 0, 1, 1, 1, 1, 2, 2, 2, 2, 3, 3, 3, 3, 4, 4, 4, 4, 5, 5, 5, 5, 0, 0, 0]
  const ZDIST_BASE: seq<int> :=
    [1, 2, 3, 4, 5, 7, 9, 13, 17, 25, 33, 49, 65, 97, 129, 193, 257, 385, 513, 769, 1025, 1537, 2049, 3073, 4097, 6145,
     8193, 12289, 16385, 24577, 0, 0]
  const ZDIST_EXTRA: seq<int> :=
    [0, 0, 0, 0, 1, 1, 2, 2, 3, 3, 4, 4, 5, 5, 6, 6, 7, 7, 8, 8, 9, 9, 10, 10, 11, 11, 12, 12, 13, 13, 0, 0]

  /** The reader's tables agree with the format. */
  lemma LengthTables(z: nat)
    requires z < 29
    ensures |ZLENGTH_BASE| == |ZLENGTH_EXTRA| == 31
    ensures ZLENGTH_BASE[z] == LengthBase(z) && ZLENGTH_EXTRA[z] == LengthExtra(z) <= 5
  {
    hide LengthBase;
    LengthBases(z);
  }

  lemma LengthBases(z: nat)
    requires z < 29
    ensures ZLENGTH_BASE[z] == LengthBase(z)
  {
    hide Shl;
    ShlSmall(4 + z % 4);
  }

  lemma DistTables(z: nat)
    requires z < 30
    ensures |ZDIST_BASE| == |ZDIST_EXTRA| == 32
    ensures ZDIST_BASE[z] == DistBase(z) && ZDIST_EXTRA[z] == DistExtra(z) <= 13
  {
    hide DistBase;
    DistBases(z);
  }

  lemma DistBases(z: nat)
    requires z < 30
    ensures ZDIST_BASE[z] == DistBase(z)
  {
    hide Shl;
    ShlSmall(2 + z % 2);
  }

  /** The lengths of consecutive symbols follow each other without gap or overlap from 3 to 258, which has a
      symbol of its own besides. */
  lemma LengthsFollow(s: nat)
    requires s < 27
    ensures LengthBase(0) == 3 && LengthBase(s + 1) == LengthBase(s) + Pow2(LengthExtra(s))
    ensures LengthBase(27) + Pow2(LengthExtra(27)) == 259 && LengthBase(28) == 258 && LengthExtra(28) == 0
  {
    LengthsEnd();
    if s >= 8 {
      hide Shl, Pow2;
      var e := s / 4 - 1;
      ShlNext(4 + s % 4, e);
      ShlDouble(e);
      assert s % 4 == 3 ==> (s + 1) / 4 == s / 4 + 1 && (s + 1) % 4 == 0;
      assert s % 4 != 3 ==> (s + 1) / 4 == s / 4 && (s + 1) % 4 == s % 4 + 1;
    }
  }

  lemma ShlNext(x: nat, e: nat)
    ensures Shl(x + 1, e) == Shl(x, e) + Pow2(e)
  {
    ShlAdd(x, 1, e);
    ShlOne(e);
  }

  lemma ShlDouble(e: nat)
    ensures Shl(8, e) == Shl(4, e + 1)
  {
    ShlAdd(4, 4, e);
  }

  lemma LengthsEnd()
    ensures LengthBase(0) == 3
    ensures LengthBase(27) + Pow2(LengthExtra(27)) == 259 && LengthBase(28) == 258 && LengthExtra(28) == 0
  {
    LengthTables(0);
    LengthTables(27);
    LengthTables(28);
  }

  /** So do the distances, from 1 to 32768. */
  lemma DistancesFollow(s: nat)
    requires s < 29
    ensures DistBase(0) == 1 && DistBase(s + 1) == DistBase(s) + Pow2(DistExtra(s))
    ensures DistBase(29) + Pow2(DistExtra(29)) == 32769
  {
    hide DistBase, DistExtra, Pow2;
    DistTables(0);
    DistTables(s);
    DistTables(s + 1);
    DistTables(29);
    SmallPowers();
  }

  lemma ShlSmall(x: nat)
    ensures Shl(x, 0) == x && Shl(x, 1) == 2 * x && Shl(x, 2) == 4 * x && Shl(x, 3) == 8 * x && Shl(x, 4) == 16 * x
    ensures Shl(x, 5) == 32 * x && Shl(x, 6) == 64 * x && Shl(x, 7) == 128 * x && Shl(x, 8) == 256 * x
    ensures Shl(x, 9) == 512 * x && Shl(x, 10) == 1024 * x && Shl(x, 11) == 2048 * x && Shl(x, 12) == 4096 * x
    ensures Shl(x, 13) == 8192 * x
  {
    assert Shl(x, 2) == 4 * Shl(x, 0);
    assert Shl(x, 4) == 4 * Shl(x, 2);
    assert Shl(x, 6) == 4 * Shl(x, 4);
    assert Shl(x, 8) == 4 * Shl(x, 6);
    assert Shl(x, 10) == 4 * Shl(x, 8);
    assert Shl(x, 12) == 4 * Shl(x, 10);
  }

  /** The bits of a token, as the reader takes them. */
  function TokenTakes(ll: Codebook, dl: Codebook, t: Token): seq<Take>
    requires Encodable(ll, dl, t)
  {
    if t.Literal? then [Huffman(|ll[Symbol(t)]|)]
    else LengthTakes(ll, t.ls) + DistanceTakes(dl, t.ds)
  }

  function LengthTakes(ll: Codebook, ls: nat): seq<Take>
    requires HasCode(ll, 257 + ls)
  {
    [Huffman(|ll[257 + ls]|), Number(LengthExtra(ls))]
  }

  function DistanceTakes(dl: Codebook, ds: nat): seq<Take>
    requires HasCode(dl, ds)
  {
    [Huffman(|dl[ds]|), Number(DistExtra(ds))]
  }

  function TokensTakes(ll: Codebook, dl: Codebook, ts: seq<Token>): seq<Take>
    requires AllEncodable(ll, dl, ts)
  {
    if ts == [] then [] else TokensTakes(ll, dl, ts[..|ts| - 1]) + TokenTakes(ll, dl, ts[|ts| - 1])
  }

  function BodyTakes(ll: Codebook, dl: Codebook, ts: seq<Token>): seq<Take>
    requires AllEncodable(ll, dl, ts) && HasCode(ll, END_OF_BLOCK)
  {
    TokensTakes(ll, dl, ts) + [Huffman(|ll[END_OF_BLOCK]|)]
  }

  /** A token a block body could continue with: the reader does not starve before its end and has room for
      its output. */
  predicate TokenReadable(input: seq<Byte>, s: Spot, ll: Codebook, dl: Codebook, out: seq<Byte>, cap: nat, t: Token)
  {
    && Encodable(ll, dl, t) && At(input, s.p, TokenBits(ll, dl, t)) && Run(|input|, s, TokenTakes(ll, dl, t)).Some?
    && Reaches(out, t) && |Emit(out, t)| <= cap
  }

  /** The end of a block, read by a reader that is not starved. */
  predicate EndReadable(input: seq<Byte>, s: Spot, ll: Codebook)
  {
    HasCode(ll, END_OF_BLOCK) && At(input, s.p, ll[END_OF_BLOCK]) && !Starved(|input|, s)
  }

  /** Neither can come next. */
  ghost predicate Stuck(input: seq<Byte>, s: Spot, ll: Codebook, dl: Codebook, out: seq<Byte>, cap: nat)
  {
    !EndReadable(input, s, ll) && forall t :: !TokenReadable(input, s, ll, dl, out, cap, t)
  }

  /** A whole block body with room for its output, in which the reader does not starve. */
  predicate BodyReadable(
      input: seq<Byte>, s: Spot, ll: Codebook, dl: Codebook, out: seq<Byte>, cap: nat, ts: seq<Token>)
  {
    && BodyAt(input, s.p, ll, dl, ts) && Run(|input|, s, BodyTakes(ll, dl, ts)).Some?
    && Expandable(out, ts) && |Expand(out, ts)| <= cap
  }

  ghost predicate NoBodyAt(input: seq<Byte>, s: Spot, ll: Codebook, dl: Codebook, out: seq<Byte>, cap: nat)
  {
    forall us :: !BodyReadable(input, s, ll, dl, out, cap, us)
  }

  /** Nothing comes next where no code stands or the reader is starved. */
  lemma StuckAtSymbol(input: seq<Byte>, s: Spot, ll: Codebook, dl: Codebook, out: seq<Byte>, cap: nat)
    requires Starved(|input|, s) || NoCode(input, s.p, ll)
    ensures Stuck(input, s, ll, dl, out, cap)
  {
    hide At, TokenBits, Emit, Reaches, Run, Starved;
    forall t | TokenReadable(input, s, ll, dl, out, cap, t) ensures false {
      LiteralAt(input, s.p, ll, dl, t);
      if Starved(|input|, s) { StarvedFails(|input|, s, TokenTakes(ll, dl, t)); }
    }
  }

  /** If symbol r stands at p, only a token with that symbol can come next. */
  lemma StuckUnlessSymbol(input: seq<Byte>, s: Spot, ll: Codebook, dl: Codebook, out: seq<Byte>, cap: nat, r: nat)
    requires Unambiguous(ll) && HasCode(ll, r) && At(input, s.p, ll[r]) && r != END_OF_BLOCK
    requires forall t :: Symbol(t) == r ==> !TokenReadable(input, s, ll, dl, out, cap, t)
    ensures Stuck(input, s, ll, dl, out, cap)
  {
    hide At, TokenBits, Emit, Reaches, Unambiguous, Run, Starved, TokenTakes;
    if EndReadable(input, s, ll) {
      CodeUnique(input, s.p, ll, r, END_OF_BLOCK);
    }
    forall t | TokenReadable(input, s, ll, dl, out, cap, t) ensures false {
      LiteralAt(input, s.p, ll, dl, t);
      CodeUnique(input, s.p, ll, r, Symbol(t));
    }
  }

  /** A run through tokens is a run through the first k of them, and then through the next. */
  lemma {:induction false} TokensRun(size: nat, s: Spot, ll: Codebook, dl: Codebook, ts: seq<Token>, k: nat)
    requires AllEncodable(ll, dl, ts) && k <= |ts| && Run(size, s, TokensTakes(ll, dl, ts)).Some?
    ensures AllEncodable(ll, dl, ts[..k]) && Run(size, s, TokensTakes(ll, dl, ts[..k])).Some?
    ensures k < |ts| ==> Run(size, Run(size, s, TokensTakes(ll, dl, ts[..k])).value, TokenTakes(ll, dl, ts[k])).Some?
    decreases |ts|
  {
    hide Run, TokenTakes, Encodable;
    if k == |ts| {
      assert ts[..k] == ts;
    } else {
      var n := |ts| - 1;
      RunConcat(size, s, TokensTakes(ll, dl, ts[..n]), TokenTakes(ll, dl, ts[n]));
      if k < n {
        assert ts[..n][..k] == ts[..k];
        TokensRun(size, s, ll, dl, ts[..n], k);
      }
    }
  }

  /** After tokens that stand at the start of a readable body the body goes on readably. */
  lemma BodyGoesOn(input: seq<Byte>, s: Spot, ll: Codebook, dl: Codebook, out: seq<Byte>, cap: nat,
                   ts: seq<Token>, m: Spot, out': seq<Byte>, us: seq<Token>)
    requires Unambiguous(ll) && Unambiguous(dl)
    requires TokensTaken(input, s, ll, dl, out, ts, m, out')
    requires BodyReadable(input, s, ll, dl, out, cap, us)
    ensures EndReadable(input, m, ll) || exists t :: TokenReadable(input, m, ll, dl, out', cap, t)
  {
    hide At, TokenBits, Emit, Reaches, Unambiguous, Encodable, Body, Run, TokenTakes, TokensTakes, Starved;
    BodyPrefix(input, s.p, ll, dl, ts, us);
    var k := |ts|;
    assert us[..k] == ts;
    BodyNext(input, s.p, ll, dl, us, k);
    ExpandPrefix(out, us, k);
    EndRun(|input|, s, ll, dl, us);
    TokensRun(|input|, s, ll, dl, us, k);
    if k < |us| {
      assert TokenReadable(input, m, ll, dl, out', cap, us[k]);
    } else {
      assert us == ts;
      assert EndReadable(input, m, ll);
    }
  }

  lemma EndRun(size: nat, s: Spot, ll: Codebook, dl: Codebook, ts: seq<Token>)
    requires AllEncodable(ll, dl, ts) && HasCode(ll, END_OF_BLOCK)
    ensures Run(size, s, BodyTakes(ll, dl, ts)) ==
      match Run(size, s, TokensTakes(ll, dl, ts))
      case None => None
      case Some(m) => After(size, m, Huffman(|ll[END_OF_BLOCK]|))
  {
    hide After, TokensTakes;
    var takes, end := TokensTakes(ll, dl, ts), Huffman(|ll[END_OF_BLOCK]|);
    assert (takes + [end])[..|takes|] == takes;
  }

  datatype Step = Failed | Ended | Advanced

  /** A token that stands where a length part is known ends in a readable distance part. */
  lemma TokenDistance(input: seq<Byte>, s: Spot, ll: Codebook, dl: Codebook, out: seq<Byte>, cap: nat,
                      ls: nat, le: nat, m: Spot, t: Token)
    requires LengthTaken(input, s, ll, ls, le, m)
    requires Symbol(t) == 257 + ls && TokenReadable(input, s, ll, dl, out, cap, t)
    ensures t.Match?
    ensures MatchReadable(input, m, dl, out, cap, LengthBase(ls) + le, t.ds, t.de)
  {
    hide At, Emit, LengthExtra, LengthBase, DistExtra, DistBase, TokenBits, Run, LengthTakes, DistanceTakes, Bits,
      Pow2;
    MatchAt(input, s.p, ll, dl, t);
    NumberUnique(input, s.p + |ll[257 + ls]|, t.le, le, LengthExtra(ls));
    EmitLength(out, t);
    RunConcat(|input|, s, LengthTakes(ll, ls), DistanceTakes(dl, t.ds));
  }

  /** The length part of a match stands from s to m. */
  predicate LengthTaken(input: seq<Byte>, s: Spot, ll: Codebook, ls: nat, le: nat, m: Spot)
  {
    && ls < 29 && HasCode(ll, 257 + ls) && At(input, s.p, ll[257 + ls])
    && le < Pow2(LengthExtra(ls)) && At(input, s.p + |ll[257 + ls]|, Bits(le, LengthExtra(ls)))
    && Run(|input|, s, LengthTakes(ll, ls)) == Some(m) && m.p == s.p + |ll[257 + ls]| + LengthExtra(ls)
  }

  lemma LengthFound(input: seq<Byte>, s: Spot, lens: seq<nat>, ls: nat, le: nat, h: Spot, m: Spot)
    requires ls < 29 && SymbolAt(input, s.p, lens, 257 + ls) && |Book(lens)[257 + ls]| == lens[257 + ls]
    requires At(input, h.p, Bits(le, LengthExtra(ls))) && le < Pow2(LengthExtra(ls))
    requires After(|input|, s, Huffman(lens[257 + ls])) == Some(h)
    requires After(|input|, h, Number(LengthExtra(ls))) == Some(m)
    ensures LengthTaken(input, s, Book(lens), ls, le, m)
  {
    hide Run, At, Bits, Pow2, LengthExtra, Book;
    RunTwo(|input|, s, Huffman(lens[257 + ls]), Number(LengthExtra(ls)));
  }

  /** The distance part of a match stands from m to e and reaches back into out. */
  predicate DistanceTaken(input: seq<Byte>, m: Spot, dl: Codebook, out: seq<Byte>, ds: nat, de: nat, e: Spot)
  {
    && ds < 30 && HasCode(dl, ds) && At(input, m.p, dl[ds])
    && de < Pow2(DistExtra(ds)) && At(input, m.p + |dl[ds]|, Bits(de, DistExtra(ds)))
    && Run(|input|, m, DistanceTakes(dl, ds)) == Some(e) && e.p == m.p + |dl[ds]| + DistExtra(ds)
    && 1 <= DistBase(ds) + de <= |out|
  }

  lemma DistanceReaches(input: seq<Byte>, m: Spot, dl: Codebook, out: seq<Byte>, ds: nat, de: nat, e: Spot)
    requires DistanceTaken(input, m, dl, out, ds, de, e)
    ensures ds < 30 && 1 <= DistBase(ds) + de <= |out|
  {
    hide At, Run, DistBase, DistExtra, Bits, Pow2;
  }

  lemma DistanceFound(input: seq<Byte>, m: Spot, lens: seq<nat>, out: seq<Byte>, ds: nat, de: nat, h: Spot, e: Spot)
    requires ds < 30 && SymbolAt(input, m.p, lens, ds) && |Book(lens)[ds]| == lens[ds]
    requires At(input, h.p, Bits(de, DistExtra(ds))) && de < Pow2(DistExtra(ds)) && DistBase(ds) + de <= |out|
    requires After(|input|, m, Huffman(lens[ds])) == Some(h) && After(|input|, h, Number(DistExtra(ds))) == Some(e)
    ensures DistanceTaken(input, m, Book(lens), out, ds, de, e)
  {
    hide Run, At, Bits, Pow2, DistExtra, Book;
    RunTwo(|input|, m, Huffman(lens[ds]), Number(DistExtra(ds)));
    DistTables(ds);
  }

  lemma StuckUnlessMatch(input: seq<Byte>, s: Spot, ll: Codebook, dl: Codebook, out: seq<Byte>, cap: nat,
                         ls: nat, le: nat, m: Spot)
    requires Unambiguous(ll) && LengthTaken(input, s, ll, ls, le, m)
    requires NoMatch(input, m, dl, out, cap, LengthBase(ls) + le)
    ensures Stuck(input, s, ll, dl, out, cap)
  {
    hide At, Unambiguous, LengthExtra, LengthBase, TokenReadable, MatchReadable, Bits, Run, LengthTakes, Pow2;
    forall t | Symbol(t) == 257 + ls && TokenReadable(input, s, ll, dl, out, cap, t) ensures false {
      TokenDistance(input, s, ll, dl, out, cap, ls, le, m, t);
    }
    StuckUnlessSymbol(input, s, ll, dl, out, cap, 257 + ls);
  }

  lemma EmitLength(out: seq<Byte>, t: Token)
    requires t.Match? && Reaches(out, t)
    ensures |Emit(out, t)| == |out| + Length(t)
  {
  }

  /** The distance part of a match of length n stands at s, and the reader does not starve in it. */
  predicate MatchReadable(input: seq<Byte>, s: Spot, dl: Codebook, out: seq<Byte>, cap: nat, n: nat, ds: nat, de: nat)
  {
    && HasCode(dl, ds) && At(input, s.p, dl[ds]) && ds < 30
    && de < Pow2(DistExtra(ds)) && At(input, s.p + |dl[ds]|, Bits(de, DistExtra(ds)))
    && Run(|input|, s, DistanceTakes(dl, ds)).Some?
    && DistBase(ds) + de <= |out| && |out| + n <= cap
  }

  ghost predicate NoMatch(input: seq<Byte>, s: Spot, dl: Codebook, out: seq<Byte>, cap: nat, n: nat)
  {
    forall ds, de :: !MatchReadable(input, s, dl, out, cap, n, ds, de)
  }

  lemma NoMatchAt(input: seq<Byte>, s: Spot, dl: Codebook, out: seq<Byte>, cap: nat, n: nat)
    requires Starved(|input|, s) || NoCode(input, s.p, dl)
    ensures NoMatch(input, s, dl, out, cap, n)
  {
    hide At, Run, Starved, DistExtra, DistBase, Bits, Pow2;
    forall ds, de | MatchReadable(input, s, dl, out, cap, n, ds, de) ensures false {
      if Starved(|input|, s) { StarvedFails(|input|, s, DistanceTakes(dl, ds)); }
    }
  }

  /** The distance symbol 30 or 31, or a distance out of range, or no room. */
  lemma OnlyMatchAt(input: seq<Byte>, s: Spot, dl: Codebook, out: seq<Byte>, cap: nat, n: nat, ds: nat, de: nat)
    requires Unambiguous(dl) && HasCode(dl, ds) && At(input, s.p, dl[ds])
    requires ds < 30 ==>
      && de < Pow2(DistExtra(ds)) && At(input, s.p + |dl[ds]|, Bits(de, DistExtra(ds)))
      && (DistBase(ds) + de > |out| || |out| + n > cap)
    ensures NoMatch(input, s, dl, out, cap, n)
  {
    hide At, Unambiguous, DistExtra, DistBase, Pow2, Bits, Run, DistanceTakes;
    forall es, fe | MatchReadable(input, s, dl, out, cap, n, es, fe) ensures false {
      CodeUnique(input, s.p, dl, ds, es);
      NumberUnique(input, s.p + |dl[ds]|, de, fe, DistExtra(ds));
    }
  }

  /** A literal for which there is no room, or a symbol that must not appear. */
  lemma StuckLiteral(input: seq<Byte>, s: Spot, ll: Codebook, dl: Codebook, out: seq<Byte>, cap: nat, r: nat)
    requires Unambiguous(ll) && HasCode(ll, r) && At(input, s.p, ll[r])
    requires (r < 256 && |out| + 1 > cap) || r >= 286
    ensures Stuck(input, s, ll, dl, out, cap)
  {
    hide At, TokenBits, Unambiguous, Run, TokenTakes;
    StuckUnlessSymbol(input, s, ll, dl, out, cap, r);
  }

  /** Token t stands at s, ends at m and turns out into out'. */
  predicate TokenTaken(input: seq<Byte>, s: Spot, ll: Codebook, dl: Codebook, out: seq<Byte>, t: Token, m: Spot,
                       out': seq<Byte>)
  {
    && Encodable(ll, dl, t) && At(input, s.p, TokenBits(ll, dl, t)) && m.p == s.p + |TokenBits(ll, dl, t)|
    && Run(|input|, s, TokenTakes(ll, dl, t)) == Some(m)
    && Reaches(out, t) && out' == Emit(out, t)
  }

  lemma LiteralTaken(input: seq<Byte>, s: Spot, ll: Codebook, dl: Codebook, out: seq<Byte>, r: Byte, m: Spot)
    requires HasCode(ll, r) && At(input, s.p, ll[r]) && After(|input|, s, Huffman(|ll[r]|)) == Some(m)
    ensures TokenTaken(input, s, ll, dl, out, Literal(r), m, out + [r])
  {
    hide At, Run;
    assert ll[r] + [] == ll[r];
    RunOne(|input|, s, Huffman(|ll[r]|));
  }

  lemma MatchIs(ll: Codebook, dl: Codebook, t: Token)
    requires t.Match? && t.ls < 29 && t.le < Pow2(LengthExtra(t.ls)) && t.ds < 30 && t.de < Pow2(DistExtra(t.ds))
    requires HasCode(ll, 257 + t.ls) && HasCode(dl, t.ds)
    ensures WellFormed(t) && Encodable(ll, dl, t) && Symbol(t) == 257 + t.ls
    ensures TokenTakes(ll, dl, t) == LengthTakes(ll, t.ls) + DistanceTakes(dl, t.ds)
  {
    hide LengthExtra, DistExtra, Pow2, LengthTakes, DistanceTakes;
  }

  lemma MatchStands(input: seq<Byte>, p: nat, ll: Codebook, dl: Codebook, t: Token, q: nat)
    requires t.Match? && Encodable(ll, dl, t) && q == p + |ll[257 + t.ls]| + LengthExtra(t.ls)
    requires At(input, p, ll[257 + t.ls]) && At(input, p + |ll[257 + t.ls]|, Bits(t.le, LengthExtra(t.ls)))
    requires At(input, q, dl[t.ds]) && At(input, q + |dl[t.ds]|, Bits(t.de, DistExtra(t.ds)))
    ensures At(input, p, TokenBits(ll, dl, t)) && p + |TokenBits(ll, dl, t)| == q + |dl[t.ds]| + DistExtra(t.ds)
  {
    hide At, LengthExtra, DistExtra, Pow2, TokenBits, Bits;
    MatchAt(input, p, ll, dl, t);
  }

  lemma MatchTaken(input: seq<Byte>, s: Spot, ll: Codebook, dl: Codebook, out: seq<Byte>, t: Token, m: Spot, e: Spot)
    requires t.Match? && LengthTaken(input, s, ll, t.ls, t.le, m) && DistanceTaken(input, m, dl, out, t.ds, t.de, e)
    ensures TokenTaken(input, s, ll, dl, out, t, e, Copy(out, DistBase(t.ds) + t.de, LengthBase(t.ls) + t.le))
  {
    hide At, Copy, LengthExtra, LengthBase, DistExtra, DistBase, Pow2, TokenBits, Bits, Emit, Reaches, Run,
      LengthTakes, DistanceTakes, Encodable, WellFormed, TokenTakes, HasCode;
    MatchIs(ll, dl, t);
    MatchStands(input, s.p, ll, dl, t, m.p);
    EmitMatch(out, t);
    RunConcat(|input|, s, LengthTakes(ll, t.ls), DistanceTakes(dl, t.ds));
  }

  lemma EmitMatch(out: seq<Byte>, t: Token)
    requires t.Match? && WellFormed(t) && 1 <= DistBase(t.ds) + t.de <= |out|
    ensures Reaches(out, t) && Emit(out, t) == Copy(out, DistBase(t.ds) + t.de, LengthBase(t.ls) + t.le)
  {
    hide Copy, LengthExtra, LengthBase, DistExtra, DistBase, Pow2;
  }

  lemma BookFacts(z: Tables, lens: seq<nat>)
    requires Built(z, lens)
    ensures Unambiguous(Book(lens))
    ensures forall k :: 0 <= k < |lens| && lens[k] > 0 ==> HasCode(Book(lens), k) && |Book(lens)[k]| == lens[k]
  {
    BookUnambiguous(lens);
  }

  /** Tokens ts stand from s to m and turn out into out'. */
  predicate TokensTaken(input: seq<Byte>, s: Spot, ll: Codebook, dl: Codebook, out: seq<Byte>, ts: seq<Token>, m: Spot,
                        out': seq<Byte>)
  {
    && AllEncodable(ll, dl, ts) && At(input, s.p, Body(ll, dl, ts)) && m.p == s.p + |Body(ll, dl, ts)|
    && Run(|input|, s, TokensTakes(ll, dl, ts)) == Some(m)
    && Expandable(out, ts) && out' == Expand(out, ts)
  }

  lemma NoTokens(input: seq<Byte>, s: Spot, ll: Codebook, dl: Codebook, out: seq<Byte>)
    ensures TokensTaken(input, s, ll, dl, out, [], s, out)
  {
  }

  lemma TokensStep(input: seq<Byte>, s: Spot, ll: Codebook, dl: Codebook, out: seq<Byte>, ts: seq<Token>, m: Spot,
                   out': seq<Byte>, t: Token, m': Spot, out'': seq<Byte>)
    requires TokensTaken(input, s, ll, dl, out, ts, m, out') && TokenTaken(input, m, ll, dl, out', t, m', out'')
    ensures TokensTaken(input, s, ll, dl, out, ts + [t], m', out'') && |out''| > |out'|
  {
    hide At, TokenBits, Encodable, Body, Run, TokenTakes;
    BodySnoc(ll, dl, ts, t);
    AtConcat(input, s.p, Body(ll, dl, ts), TokenBits(ll, dl, t));
    assert (ts + [t])[..|ts|] == ts;
    RunConcat(|input|, s, TokensTakes(ll, dl, ts), TokenTakes(ll, dl, t));
    EmitGrows(out', t);
  }

  lemma EmitGrows(out: seq<Byte>, t: Token)
    requires Reaches(out, t)
    ensures |Emit(out, t)| > |out|
  {
  }

  lemma TokensEnded(input: seq<Byte>, s: Spot, ll: Codebook, dl: Codebook, out: seq<Byte>, ts: seq<Token>, m: Spot,
                    out': seq<Byte>, lens: seq<nat>, e: Spot)
    requires TokensTaken(input, s, ll, dl, out, ts, m, out') && ll == Book(lens)
    requires SymbolAt(input, m.p, lens, END_OF_BLOCK) && After(|input|, m, Huffman(lens[END_OF_BLOCK])) == Some(e)
    ensures BodyAt(input, s.p, ll, dl, ts) && BodyEnd(s.p, ll, dl, ts) == m.p + lens[END_OF_BLOCK]
    ensures Run(|input|, s, BodyTakes(ll, dl, ts)) == Some(e)
    ensures Expandable(out, ts) && out' == Expand(out, ts)
  {
    hide At, TokenBits, Encodable, Body, Run, BodyTakes, TokensTakes, After;
    AtConcat(input, s.p, Body(ll, dl, ts), ll[END_OF_BLOCK]);
    EndRun(|input|, s, ll, dl, ts);
  }

  /** Where the reader is stuck after the tokens ts, no body stands at all. */
  lemma TokensStuck(input: seq<Byte>, s: Spot, ll: Codebook, dl: Codebook, out: seq<Byte>, ts: seq<Token>, m: Spot,
                    out': seq<Byte>, cap: nat)
    requires TokensTaken(input, s, ll, dl, out, ts, m, out') && Unambiguous(ll) && Unambiguous(dl)
    requires Stuck(input, m, ll, dl, out', cap)
    ensures NoBodyAt(input, s, ll, dl, out, cap)
  {
    hide At, TokenReadable, EndReadable, BodyReadable, Unambiguous, Encodable, Body, Expandable, Expand, Run,
      TokensTakes;
    forall us | BodyReadable(input, s, ll, dl, out, cap, us) ensures false {
      BodyGoesOn(input, s, ll, dl, out, cap, ts, m, out', us);
    }
  }

  // ---------------------------------------------------------------------------
  // Headers of dynamic blocks

  const LENGTH_DEZIGZAG: seq<int> := [16, 17, 18, 0, 8, 7, 9, 6, 10, 5, 11, 4, 12, 3, 13, 2, 14, 1, 15]

  lemma DezigzagPosition(i: nat)
    requires i < 19
    ensures |LENGTH_DEZIGZAG| == 19 && 0 <= LENGTH_DEZIGZAG[i] < 19
    ensures forall s :: 0 <= s < 19 ==> (Position(s) == i <==> s == LENGTH_DEZIGZAG[i])
  {
  }

  /** After the three run symbols and 0 come 8 and then, alternately, the next shorter and the next longer
      length. */
  lemma LengthsAlternate(k: nat)
    requires 1 <= k <= 7
    ensures |LENGTH_DEZIGZAG| == 19 && LENGTH_DEZIGZAG[..5] == [16, 17, 18, 0, 8]
    ensures LENGTH_DEZIGZAG[3 + 2 * k] == 8 - k && LENGTH_DEZIGZAG[4 + 2 * k] == 8 + k
  {
  }

  function OpTakes(book: Codebook, op: LenOp): seq<Take>
    requires ValidOp(book, op)
  {
    [Huffman(|book[OpSymbol(op)]|), Number(OpExtra(op))]
  }

  function OpsTakes(book: Codebook, ops: seq<LenOp>): seq<Take>
    requires OpsValid(book, ops)
  {
    if ops == [] then [] else OpsTakes(book, ops[..|ops| - 1]) + OpTakes(book, ops[|ops| - 1])
  }

  predicate OpsTaken(input: seq<Byte>, s: Spot, book: Codebook, ops: seq<LenOp>, m: Spot, lens: seq<nat>)
  {
    && OpsValid(book, ops) && At(input, s.p, Flatten(OpPieces(book, ops)))
    && m.p == s.p + |Flatten(OpPieces(book, ops))|
    && Run(|input|, s, OpsTakes(book, ops)) == Some(m)
    && OpsApply(ops) && lens == LenList(ops) && AtMost(lens, 15)
  }

  predicate OpTaken(input: seq<Byte>, s: Spot, book: Codebook, lens: seq<nat>, op: LenOp, m: Spot)
  {
    && ValidOp(book, op) && At(input, s.p, OpBits(book, op)) && m.p == s.p + |OpBits(book, op)|
    && Run(|input|, s, OpTakes(book, op)) == Some(m) && Applies(lens, op)
  }

  predicate OpReadable(input: seq<Byte>, s: Spot, book: Codebook, lens: seq<nat>, total: nat, op: LenOp)
  {
    && ValidOp(book, op) && At(input, s.p, OpBits(book, op)) && Run(|input|, s, OpTakes(book, op)).Some?
    && Applies(lens, op) && |ApplyOp(lens, op)| <= total
  }

  ghost predicate OpStuck(input: seq<Byte>, s: Spot, book: Codebook, lens: seq<nat>, total: nat)
  {
    forall op :: !OpReadable(input, s, book, lens, total, op)
  }

  predicate OpsReadable(input: seq<Byte>, s: Spot, book: Codebook, total: nat, ops: seq<LenOp>)
  {
    && OpsValid(book, ops) && At(input, s.p, Flatten(OpPieces(book, ops)))
    && Run(|input|, s, OpsTakes(book, ops)).Some?
    && OpsApply(ops) && |LenList(ops)| == total
  }

  ghost predicate NoOpsAt(input: seq<Byte>, s: Spot, book: Codebook, total: nat)
  {
    forall us :: !OpsReadable(input, s, book, total, us)
  }

  /** A run through steps is a run through the first k of them, and then through the next. */
  lemma {:induction false} OpsRun(size: nat, s: Spot, book: Codebook, ops: seq<LenOp>, k: nat)
    requires OpsValid(book, ops) && k <= |ops| && Run(size, s, OpsTakes(book, ops)).Some?
    ensures OpsValid(book, ops[..k]) && Run(size, s, OpsTakes(book, ops[..k])).Some?
    ensures k < |ops| ==> Run(size, Run(size, s, OpsTakes(book, ops[..k])).value, OpTakes(book, ops[k])).Some?
    decreases |ops|
  {
    hide Run, OpTakes, ValidOp;
    if k == |ops| {
      assert ops[..k] == ops;
    } else {
      var n := |ops| - 1;
      RunConcat(size, s, OpsTakes(book, ops[..n]), OpTakes(book, ops[n]));
      if k < n {
        assert ops[..n][..k] == ops[..k];
        OpsRun(size, s, book, ops[..n], k);
      }
    }
  }

  lemma NoOps(input: seq<Byte>, s: Spot, book: Codebook)
    ensures OpsTaken(input, s, book, [], s, [])
  {
  }

  lemma ApplySmall(lens: seq<nat>, op: LenOp)
    requires AtMost(lens, 15) && Applies(lens, op) && (op.Len? ==> op.n < 16)
    ensures AtMost(ApplyOp(lens, op), 15)
  {
  }

  lemma GrowsBy(lens: seq<nat>, op: LenOp)
    ensures Applies(lens, op) ==> |ApplyOp(lens, op)| > |lens|
  {
  }

  lemma EmptyAt(input: seq<Byte>, p: nat)
    ensures At(input, p, Bits(0, 0))
  {
  }

  lemma OpsStep(
      input: seq<Byte>, s: Spot, book: Codebook, ops: seq<LenOp>, m: Spot, lens: seq<nat>, op: LenOp, m': Spot)
    requires OpsTaken(input, s, book, ops, m, lens) && OpTaken(input, m, book, lens, op, m')
    ensures OpsTaken(input, s, book, ops + [op], m', ApplyOp(lens, op))
  {
    hide At, OpBits, AtMost, Run, OpTakes;
    var ps := OpPieces(book, ops + [op]);
    assert ps[..|ops|] == OpPieces(book, ops);
    assert (ops + [op])[..|ops|] == ops;
    AtConcat(input, s.p, Flatten(OpPieces(book, ops)), OpBits(book, op));
    RunConcat(|input|, s, OpsTakes(book, ops), OpTakes(book, op));
    ApplySmall(lens, op);
  }

  /** After steps that stand at the start of a readable list, and do not complete it, the list goes on. */
  lemma OpsGoOn(input: seq<Byte>, s: Spot, book: Codebook, ops: seq<LenOp>, m: Spot, lens: seq<nat>,
                total: nat, us: seq<LenOp>)
    requires Unambiguous(book) && OpsTaken(input, s, book, ops, m, lens) && |lens| < total
    requires OpsReadable(input, s, book, total, us)
    ensures |ops| < |us| && OpReadable(input, m, book, lens, total, us[|ops|])
  {
    hide At, Unambiguous, OpPieces, Flatten, OpBits, ValidOp, AtMost, Run, OpTakes, OpsTakes;
    var k := |ops|;
    if |us| <= k {
      OpsPrefix(input, s.p, book, us, ops);
      assert ops[..|us|] == us && ops[..k] == ops;
      LenListGrows(ops, |us|);
    } else {
      OpsPrefix(input, s.p, book, ops, us);
      assert us[..k] == ops;
      LenListGrows(us, k);
      OpAt(input, s.p, book, us, k);
      OpsRun(|input|, s, book, us, k);
    }
  }

  lemma OpsStuck(input: seq<Byte>, s: Spot, book: Codebook, ops: seq<LenOp>, m: Spot, lens: seq<nat>, total: nat)
    requires Unambiguous(book) && OpsTaken(input, s, book, ops, m, lens) && |lens| < total
    requires OpStuck(input, m, book, lens, total)
    ensures NoOpsAt(input, s, book, total)
  {
    hide Unambiguous, OpsTaken, OpsReadable, OpReadable;
    forall us | OpsReadable(input, s, book, total, us) ensures false {
      OpsGoOn(input, s, book, ops, m, lens, total, us);
    }
  }

  lemma OpParts(input: seq<Byte>, p: nat, book: Codebook, op: LenOp)
    requires ValidOp(book, op)
    ensures |OpBits(book, op)| == |book[OpSymbol(op)]| + OpExtra(op)
    ensures At(input, p, OpBits(book, op)) <==>
      At(input, p, book[OpSymbol(op)]) && At(input, p + |book[OpSymbol(op)]|, Bits(OpNumber(op), OpExtra(op)))
  {
    hide At;
    AtConcat(input, p, book[OpSymbol(op)], Bits(OpNumber(op), OpExtra(op)));
  }

  /** A step whose parts the reader has taken. */
  lemma OpPartsTaken(input: seq<Byte>, s: Spot, book: Codebook, lens: seq<nat>, op: LenOp, m: Spot, e: Spot)
    requires ValidOp(book, op) && At(input, s.p, book[OpSymbol(op)])
    requires At(input, s.p + |book[OpSymbol(op)]|, Bits(OpNumber(op), OpExtra(op)))
    requires After(|input|, s, Huffman(|book[OpSymbol(op)]|)) == Some(m)
    requires After(|input|, m, Number(OpExtra(op))) == Some(e)
    ensures At(input, s.p, OpBits(book, op)) && (Applies(lens, op) ==> OpTaken(input, s, book, lens, op, e))
  {
    hide At, OpBits, Bits, Run;
    OpParts(input, s.p, book, op);
    RunTwo(|input|, s, Huffman(|book[OpSymbol(op)]|), Number(OpExtra(op)));
  }

  lemma OpStuckNoCode(input: seq<Byte>, s: Spot, book: Codebook, lens: seq<nat>, total: nat)
    requires Starved(|input|, s) || NoCode(input, s.p, book)
    ensures OpStuck(input, s, book, lens, total)
  {
    hide At, OpBits, ApplyOp, Run, Starved;
    forall op | OpReadable(input, s, book, lens, total, op) ensures false {
      OpParts(input, s.p, book, op);
      if Starved(|input|, s) { StarvedFails(|input|, s, OpTakes(book, op)); }
    }
  }

  /** If step op stands at s but cannot be taken, the list cannot go on. */
  lemma OpStuckOnly(input: seq<Byte>, s: Spot, book: Codebook, lens: seq<nat>, total: nat, op: LenOp)
    requires Unambiguous(book) && ValidOp(book, op) && At(input, s.p, OpBits(book, op))
    requires Applies(lens, op) ==> |ApplyOp(lens, op)| > total
    ensures OpStuck(input, s, book, lens, total)
  {
    hide At, OpBits, ApplyOp, Unambiguous, ValidOp, Run, OpTakes;
    forall o | OpReadable(input, s, book, lens, total, o) ensures false {
      OpUnique(input, s.p, book, op, o);
    }
  }

  /** The three counts and n code lengths of three bits. */
  function PreludeTakes(n: nat): seq<Take>
  {
    [Number(5), Number(5), Number(4)] + seq(n, _ => Number(3))
  }

  function HeaderTakes(h: Header): seq<Take>
    requires OpsValid(Book(Unzigzag(h.cl)), h.ops)
  {
    PreludeTakes(|h.cl|) + OpsTakes(Book(Unzigzag(h.cl)), h.ops)
  }

  predicate HeaderReadable(input: seq<Byte>, s: Spot, h: Header)
  {
    ValidHeader(h) && At(input, s.p, HeaderBits(h)) && Run(|input|, s, HeaderTakes(h)).Some?
  }

  ghost predicate NoHeaderAt(input: seq<Byte>, s: Spot)
  {
    forall g :: !HeaderReadable(input, s, g)
  }

  /** The three counts and the code length code of a header. */
  predicate PreludeAt(input: seq<Byte>, p: nat, hlit: nat, hdist: nat, cl: seq<nat>)
  {
    && hlit < 32 && hdist < 32 && SmallLens(cl)
    && At(input, p, Bits(hlit, 5)) && At(input, p + 5, Bits(hdist, 5)) && At(input, p + 10, Bits(|cl| - 4, 4))
    && At(input, p + 14, Flatten(LenPieces(cl)))
  }

  /** They stand from s to m. */
  predicate PreludeTaken(input: seq<Byte>, s: Spot, hlit: nat, hdist: nat, cl: seq<nat>, m: Spot)
  {
    && PreludeAt(input, s.p, hlit, hdist, cl) && m.p == s.p + 14 + 3 * |cl|
    && Run(|input|, s, PreludeTakes(|cl|)) == Some(m)
  }

  /** A readable header agrees with the prelude that stands there, and its list of lengths is readable. */
  lemma HeaderAgrees(input: seq<Byte>, s: Spot, hlit: nat, hdist: nat, cl: seq<nat>, m: Spot, g: Header)
    requires PreludeTaken(input, s, hlit, hdist, cl, m) && HeaderReadable(input, s, g)
    ensures g.hlit == hlit && g.hdist == hdist && g.cl == cl
    ensures OpsReadable(input, m, Book(Unzigzag(cl)), hlit + hdist + 258, g.ops)
  {
    hide At, HeaderBits, CodeLengths, Unzigzag, Book, LenList, OpsApply, OpsValid, OpPieces, LenPieces, Flatten, Bits,
      Run, PreludeTakes, OpsTakes;
    HeaderParts(input, s.p, g);
    assert Pow2(5) == 32 && Pow2(4) == 16;
    NumberUnique(input, s.p, hlit, g.hlit, 5);
    NumberUnique(input, s.p + 5, hdist, g.hdist, 5);
    NumberUnique(input, s.p + 10, |cl| - 4, |g.cl| - 4, 4);
    LensUnique(input, s.p + 14, cl, g.cl);
    RunConcat(|input|, s, PreludeTakes(|cl|), OpsTakes(Book(Unzigzag(cl)), g.ops));
  }

  lemma NoHeader(input: seq<Byte>, s: Spot, hlit: nat, hdist: nat, cl: seq<nat>, m: Spot)
    requires PreludeTaken(input, s, hlit, hdist, cl, m)
    requires !CodeLengths(Unzigzag(cl)) || NoOpsAt(input, m, Book(Unzigzag(cl)), hlit + hdist + 258)
    ensures NoHeaderAt(input, s)
  {
    hide PreludeTaken, OpsReadable, CodeLengths;
    forall g | HeaderReadable(input, s, g) ensures false {
      HeaderAgrees(input, s, hlit, hdist, cl, m, g);
      HeaderCode(input, s, g);
    }
  }

  lemma HeaderCode(input: seq<Byte>, s: Spot, g: Header)
    requires HeaderReadable(input, s, g)
    ensures CodeLengths(Unzigzag(g.cl))
  {
    hide At, HeaderBits, CodeLengths, Unzigzag, Book, LenList, OpsApply, OpsValid, Run;
  }

  /** The parts of header h stand from s to e and list the code lengths lens. */
  predicate PartsTaken(input: seq<Byte>, s: Spot, h: Header, m: Spot, e: Spot, lens: seq<nat>)
  {
    && PreludeTaken(input, s, h.hlit, h.hdist, h.cl, m) && CodeLengths(Unzigzag(h.cl))
    && OpsTaken(input, m, Book(Unzigzag(h.cl)), h.ops, e, lens)
    && |lens| == h.hlit + h.hdist + 258
  }

  lemma HeaderTaken(input: seq<Byte>, s: Spot, h: Header, m: Spot, e: Spot, lens: seq<nat>)
    requires PartsTaken(input, s, h, m, e, lens)
    requires CodeLengths(lens[..h.hlit + 257]) && CodeLengths(lens[h.hlit + 257..])
    ensures ValidHeader(h) && At(input, s.p, HeaderBits(h)) && e.p == s.p + |HeaderBits(h)|
    ensures Run(|input|, s, HeaderTakes(h)) == Some(e)
    ensures h.LitLens() == lens[..h.hlit + 257] && h.DistLens() == lens[h.hlit + 257..]
  {
    hide At, HeaderBits, CodeLengths, Unzigzag, Book, LenList, OpsApply, OpsValid, OpPieces, LenPieces, Flatten, Bits,
      Run, PreludeTakes, OpsTakes;
    HeaderParts(input, s.p, h);
    RunConcat(|input|, s, PreludeTakes(|h.cl|), OpsTakes(Book(Unzigzag(h.cl)), h.ops));
  }

  lemma HeaderLens(input: seq<Byte>, s: Spot, g: Header)
    requires HeaderReadable(input, s, g)
    ensures OpsApply(g.ops) && g.hlit + 257 <= |LenList(g.ops)|
    ensures CodeLengths(LenList(g.ops)[..g.hlit + 257]) && CodeLengths(LenList(g.ops)[g.hlit + 257..])
  {
    hide At, HeaderBits, CodeLengths, Unzigzag, Book, LenList, OpsApply, OpsValid, Run;
  }

  lemma LensAgree(input: seq<Byte>, s: Spot, h: Header, m: Spot, e: Spot, lens: seq<nat>, g: Header)
    requires PartsTaken(input, s, h, m, e, lens) && HeaderReadable(input, s, g)
    ensures h.hlit + 257 <= |lens|
    ensures CodeLengths(lens[..h.hlit + 257]) && CodeLengths(lens[h.hlit + 257..])
  {
    hide At, HeaderBits, CodeLengths, Unzigzag, Book, LenList, OpsApply, OpsValid, OpPieces, Flatten, AtMost, Run,
      OpsTakes;
    hide Unambiguous, PreludeTaken, HeaderReadable;
    BookUnambiguous(Unzigzag(h.cl));
    HeaderAgrees(input, s, h.hlit, h.hdist, h.cl, m, g);
    HeaderLens(input, s, g);
    OpsUnique(input, m.p, Book(Unzigzag(h.cl)), h.ops, g.ops);
  }

  /** Over-subscribed literal/length or distance lengths. */
  lemma NoHeaderLens(input: seq<Byte>, s: Spot, h: Header, m: Spot, e: Spot, lens: seq<nat>)
    requires PartsTaken(input, s, h, m, e, lens)
    requires !(CodeLengths(lens[..h.hlit + 257]) && CodeLengths(lens[h.hlit + 257..]))
    ensures NoHeaderAt(input, s)
  {
    hide HeaderReadable, CodeLengths, PartsTaken;
    forall g | HeaderReadable(input, s, g) ensures false {
      LensAgree(input, s, h, m, e, lens, g);
    }
  }

  lemma PreludeStart(size: nat, s: Spot, m: Spot, m': Spot, e: Spot)
    requires After(size, s, Number(5)) == Some(m) && After(size, m, Number(5)) == Some(m')
    requires After(size, m', Number(4)) == Some(e)
    ensures Run(size, s, PreludeTakes(0)) == Some(e)
  {
    hide Run, After;
    RunTwo(size, s, Number(5), Number(5));
    RunOne(size, m', Number(4));
    RunConcat(size, s, [Number(5), Number(5)], [Number(4)]);
    assert PreludeTakes(0) == [Number(5), Number(5)] + [Number(4)];
  }

  lemma PreludeNext(size: nat, s: Spot, n: nat)
    requires Run(size, s, PreludeTakes(n)).Some?
    ensures Run(size, s, PreludeTakes(n + 1)) == After(size, Run(size, s, PreludeTakes(n)).value, Number(3))
  {
    hide After;
    assert PreludeTakes(n + 1)[..n + 3] == PreludeTakes(n);
  }

  lemma UnzigzagSmall(cl: seq<nat>)
    requires SmallLens(cl)
    ensures AtMost(Unzigzag(cl), 15)
  {
  }

  lemma AtMostSplit(lens: seq<nat>, k: nat, m: nat)
    requires k <= |lens| && AtMost(lens, m)
    ensures AtMost(lens[..k], m) && AtMost(lens[k..], m)
  {
  }

  /** cl[i] goes to the place of its symbol. */
  lemma UnzigzagStep(cl: seq<nat>, x: nat)
    requires |cl| < 19
    ensures 0 <= LENGTH_DEZIGZAG[|cl|] < 19
    ensures Unzigzag(cl + [x]) == Unzigzag(cl)[LENGTH_DEZIGZAG[|cl|] := x]
  {
    DezigzagPosition(|cl|);
  }

  function NoLens(): (s: seq<nat>)
    ensures s == Unzigzag([])
  {
    seq(19, _ => 0)
  }

  /** The code lengths cl stand at bit p, and sizes has them at the places of their symbols. */
  predicate LensRead(input: seq<Byte>, p: nat, cl: seq<nat>, sizes: seq<nat>)
  {
    (forall k :: 0 <= k < |cl| ==> cl[k] < 8) && At(input, p, Flatten(LenPieces(cl))) && sizes == Unzigzag(cl)
  }

  lemma NoLensRead(input: seq<Byte>, p: nat)
    ensures LensRead(input, p, [], NoLens())
  {
  }

  lemma LensReadStep(input: seq<Byte>, p: nat, cl: seq<nat>, sizes: seq<nat>, x: nat)
    requires LensRead(input, p, cl, sizes) && |cl| < 19 && At(input, p + 3 * |cl|, Bits(x, 3)) && x < 8
    ensures |LENGTH_DEZIGZAG| == 19 && 0 <= LENGTH_DEZIGZAG[|cl|] < 19 == |sizes|
    ensures LensRead(input, p, cl + [x], sizes[LENGTH_DEZIGZAG[|cl|] := x])
  {
    hide At, Bits, Flatten, LenPieces;
    PreludeStep(input, p, cl, x);
    UnzigzagStep(cl, x);
  }

  lemma LensReadMeans(input: seq<Byte>, p: nat, cl: seq<nat>, sizes: seq<nat>)
    requires LensRead(input, p, cl, sizes) && 4 <= |cl| <= 19
    ensures SmallLens(cl) && At(input, p, Flatten(LenPieces(cl))) && sizes == Unzigzag(cl)
  {
    hide At, Flatten, LenPieces, Unzigzag;
  }

  lemma SmallTaken(input: seq<Byte>, s: Spot, h: Header, m: Spot, e: Spot, lens: seq<nat>)
    requires PartsTaken(input, s, h, m, e, lens)
    ensures AtMost(lens, 15) && |lens| == h.hlit + h.hdist + 258 && h.hlit < 32 && h.hdist < 32
  {
  }

  lemma PreludeStep(input: seq<Byte>, p: nat, cl: seq<nat>, x: nat)
    requires At(input, p, Flatten(LenPieces(cl))) && At(input, p + 3 * |cl|, Bits(x, 3))
    ensures At(input, p, Flatten(LenPieces(cl + [x])))
  {
    hide At, Bits;
    var ps := LenPieces(cl + [x]);
    assert ps[..|cl|] == LenPieces(cl);
    LenPiecesLength(cl);
    AtConcat(input, p, Flatten(LenPieces(cl)), Bits(x, 3));
  }

  // ---------------------------------------------------------------------------
  // Stored blocks

  predicate StoredReadable(input: seq<Byte>, p: nat, out: seq<Byte>, cap: nat, b: Block)
  {
    && b.Stored? && ValidBlock(p, b) && At(input, p + 3, Content(p, b))
    && BlockEnd(p, b) <= 8 * |input| && |out| + |b.data| <= cap
  }

  ghost predicate NoStoredAt(input: seq<Byte>, p: nat, out: seq<Byte>, cap: nat)
  {
    forall b :: !StoredReadable(input, p, out, cap, b)
  }

  /** Two bytes as a number, low byte first. */
  function U16(input: seq<Byte>, k: nat): (n: nat)
    ensures n < 0x10000
  {
    ByteAt(input, k + 1) * 256 + ByteAt(input, k)
  }

  lemma U16At(input: seq<Byte>, k: nat, n: nat)
    requires n < 0x10000
    ensures At(input, 8 * k, Bits(n, 16)) <==> n == U16(input, k)
  {
    hide At, Stream, Val, Bits;
    StreamByte(input, k);
    StreamByte(input, k + 1);
    StreamSplit(input, 8 * k, 8, 8);
    ValConcat(Stream(input, 8 * k, 8), Stream(input, 8 * k + 8, 8));
    ShlEight(ByteAt(input, k + 1));
    NumberAt(input, 8 * k, 16);
    Pow2Values();
    if At(input, 8 * k, Bits(n, 16)) {
      NumberUnique(input, 8 * k, n, U16(input, k), 16);
    }
  }

  lemma ShlEight(x: nat)
    ensures Shl(x, 8) == 256 * x
  {
    ShlSmall(x);
  }

  /** The bits beyond the last whole byte of the buffer are the padding. */
  lemma PadIsRest(fed: nat, n: nat)
    requires n <= 8 * fed
    ensures PadLength(8 * fed - n) == n % 8
    ensures (8 * fed - n + n % 8) % 8 == 0 && (n - n % 8) % 8 == 0
  {
    var q, r := n / 8, n % 8;
    assert n == 8 * q + r;
    assert 8 * fed - n == 8 * (fed - q) - r;
  }

  lemma WholeBytes(fed: nat, n: nat)
    requires n <= 8 * fed && n % 8 == 0
    ensures n == 8 * (n / 8) && 8 * fed - n == 8 * ((8 * fed - n) / 8)
  {
    assert 8 * fed - n == 8 * (fed - n / 8);
  }

  lemma StoredAligned(p: nat)
    ensures StoredStart(p) % 8 == 0
  {
  }

  /** A stored block that stands at p says what the bytes after the boundary are. */
  lemma StoredBytes(input: seq<Byte>, p: nat, k: nat, b: Block)
    requires b.Stored? && ValidBlock(p, b) && At(input, p + 3, Content(p, b)) && StoredStart(p) == 8 * k
    ensures U16(input, k) == |b.data| && U16(input, k + 2) == 0xffff - |b.data|
    ensures BlockEnd(p, b) == 8 * (k + 4 + |b.data|)
  {
    hide At, Content, Bits, U16, ValidBlock, StoredStart, BlockEnd;
    StoredParts(input, p, b);
    StoredSmall(p, b);
    U16At(input, k, |b.data|);
    U16At(input, k + 2, 0xffff - |b.data|);
  }

  lemma NoBits(input: seq<Byte>, p: nat)
    ensures Val(Stream(input, p, 0)) == 0
  {
  }

  lemma StoredSmall(p: nat, b: Block)
    requires b.Stored? && ValidBlock(p, b)
    ensures |b.data| < 0x10000
  {
  }

  lemma StoredValid(input: seq<Byte>, p: nat, b: Block)
    requires b.Stored? && b.pad == Stream(input, p + 3, PadLength(p + 3)) && |b.data| < 0x10000
    ensures ValidBlock(p, b) && At(input, p + 3, b.pad)
  {
    hide PadLength;
  }

  /** A stored block the reader has taken. */
  lemma StoredTaken(input: seq<Byte>, p: nat, k: nat, b: Block)
    requires b.Stored? && b.pad == Stream(input, p + 3, PadLength(p + 3)) && |b.data| < 0x10000
    requires StoredStart(p) == 8 * k && U16(input, k) == |b.data| && U16(input, k + 2) == 0xffff - |b.data|
    requires k + 4 + |b.data| <= |input| && input[k + 4..k + 4 + |b.data|] == b.data
    ensures ValidBlock(p, b) && At(input, p + 3, Content(p, b)) && BlockEnd(p, b) == 8 * (k + 4 + |b.data|)
  {
    hide At, Content, Bits, Stream, ToBits, PadLength, U16, StoredStart, BlockEnd, ValidBlock;
    StoredValid(input, p, b);
    U16At(input, k, |b.data|);
    U16At(input, k + 2, 0xffff - |b.data|);
    StreamToBits(input, k + 4, b.data);
    StoredParts(input, p, b);
  }

  lemma NoStored(input: seq<Byte>, p: nat, k: nat, out: seq<Byte>, cap: nat)
    requires StoredStart(p) == 8 * k
    requires
      || U16(input, k + 2) != 0xffff - U16(input, k)
      || k + 4 + U16(input, k) > |input|
      || |out| + U16(input, k) > cap
    ensures NoStoredAt(input, p, out, cap)
  {
    hide At, Content, U16, ValidBlock, StoredStart, BlockEnd;
    forall b | StoredReadable(input, p, out, cap, b) ensures false {
      StoredBytes(input, p, k, b);
    }
  }

  /** The length fields of a stored block are inside the input. */
  lemma StoredInside(input: seq<Byte>, k: nat)
    requires U16(input, k + 2) == 0xffff - U16(input, k)
    ensures U16(input, k) == 0 ==> k + 4 <= |input|
  {
  }

  // ---------------------------------------------------------------------------
  // Blocks and streams

  /** The final bit and the type of a block. */
  function HeadTakes(): seq<Take>
  {
    [Number(1), Number(2)]
  }

  function ContentTakes(p: nat, b: Block): seq<Take>
    requires ValidBlock(p, b)
  {
    match b
    case Stored(_, data) => [Aligned(4 + |data|)]
    case Fixed(ts) => BodyTakes(b.LitBook(), b.DistBook(), ts)
    case Dynamic(h, ts) => HeaderTakes(h) + BodyTakes(b.LitBook(), b.DistBook(), ts)
  }

  function BlockTakes(p: nat, b: Block): seq<Take>
    requires ValidBlock(p, b)
  {
    HeadTakes() + ContentTakes(p, b)
  }

  /** A block with room for its output, in which the reader does not starve. */
  predicate BlockReadable(input: seq<Byte>, s: Spot, out: seq<Byte>, cap: nat, f: bool, b: Block)
  {
    && BlockAt(input, s.p, f, b) && Run(|input|, s, BlockTakes(s.p, b)).Some?
    && Produces(out, b) && |BlockOutput(out, b)| <= cap
  }

  ghost predicate NoBlock(input: seq<Byte>, s: Spot, out: seq<Byte>, cap: nat)
  {
    forall f, b :: !BlockReadable(input, s, out, cap, f, b)
  }

  /** The head of the block at s ends at m. */
  predicate HeadTaken(input: seq<Byte>, s: Spot, ty: nat, m: Spot)
  {
    At(input, s.p + 1, Bits(ty, 2)) && Run(|input|, s, HeadTakes()) == Some(m) && m.p == s.p + 3
  }

  lemma BlockTypeAt(input: seq<Byte>, p: nat, f: bool, b: Block, ty: nat)
    requires BlockAt(input, p, f, b) && ty < 4 && At(input, p + 1, Bits(ty, 2))
    ensures BlockType(b) == ty
  {
    hide At, Bits, ValidBlock, Content;
    assert Pow2(2) == 4;
    NumberUnique(input, p + 1, ty, BlockType(b), 2);
  }

  /** A readable block of the type that stands there. */
  lemma BlockGoesOn(input: seq<Byte>, s: Spot, ty: nat, m: Spot, out: seq<Byte>, cap: nat, f: bool, b: Block)
    requires ty < 4 && HeadTaken(input, s, ty, m) && BlockReadable(input, s, out, cap, f, b)
    ensures BlockType(b) == ty && ValidBlock(s.p, b) && At(input, m.p, Content(s.p, b))
    ensures Run(|input|, m, ContentTakes(s.p, b)).Some? && Produces(out, b) && |BlockOutput(out, b)| <= cap
  {
    hide At, Bits, ValidBlock, Content, Run, HeadTakes, ContentTakes, Produces, BlockOutput;
    BlockTypeAt(input, s.p, f, b, ty);
    RunConcat(|input|, s, HeadTakes(), ContentTakes(s.p, b));
  }

  lemma NoBlockStored(input: seq<Byte>, s: Spot, m: Spot, out: seq<Byte>, cap: nat)
    requires HeadTaken(input, s, 0, m) && NoStoredAt(input, s.p, out, cap)
    ensures NoBlock(input, s, out, cap)
  {
    hide HeadTaken, BlockReadable, StoredReadable, At, Content, ValidBlock, Run, BlockEnd;
    HeadEnd(input, s, 0, m);
    forall f, b | BlockReadable(input, s, out, cap, f, b) ensures false {
      BlockGoesOn(input, s, 0, m, out, cap, f, b);
      StoredIsReadable(input, s.p, m, out, cap, b);
    }
  }

  lemma StoredIsReadable(input: seq<Byte>, p: nat, m: Spot, out: seq<Byte>, cap: nat, b: Block)
    requires b.Stored? && ValidBlock(p, b) && m.p == p + 3 && At(input, m.p, Content(p, b)) && |out| + |b.data| <= cap
    requires Run(|input|, m, ContentTakes(p, b)).Some?
    ensures StoredReadable(input, p, out, cap, b)
  {
    hide At, Content, ValidBlock, Run, StoredStart, BlockEnd;
    StoredParts(input, p, b);
    StoredRun(|input|, p, m, |b.data|);
  }

  /** The bytes of a stored block lie in the input. */
  lemma StoredRun(size: nat, p: nat, m: Spot, n: nat)
    requires m.p == p + 3
    ensures
      var e := StoredStart(p) / 8 + 4 + n;
      && 8 * e == StoredStart(p) + 32 + 8 * n
      && Run(size, m, [Aligned(4 + n)]) == if e > size then None else Some(Spot(8 * e, e))
  {
    hide Run, StoredStart;
    RunOne(size, m, Aligned(4 + n));
    StoredBoundary(p);
  }

  /** Stored data begin at the next byte boundary after the head. */
  lemma StoredBoundary(p: nat)
    ensures StoredStart(p) == 8 * ((p + 3 + 7) / 8)
  {
    var q, r := (p + 3) / 8, (p + 3) % 8;
    assert p + 3 == 8 * q + r;
    BoundaryAfter(q, r);
  }

  lemma BoundaryAfter(q: nat, r: nat)
    requires r < 8
    ensures 8 * ((8 * q + r + 7) / 8) == 8 * q + r + (8 - r) % 8
  {
    if r == 0 {
      assert (8 * q + 7) / 8 == q;
    } else {
      assert (8 * q + r + 7) / 8 == q + 1 && (8 - r) % 8 == 8 - r;
    }
  }

  lemma NoBlockThree(input: seq<Byte>, s: Spot, m: Spot, out: seq<Byte>, cap: nat)
    requires HeadTaken(input, s, 3, m)
    ensures NoBlock(input, s, out, cap)
  {
    hide HeadTaken, BlockReadable, At, Content, ValidBlock, Run;
    forall f, b | BlockReadable(input, s, out, cap, f, b) ensures false {
      BlockGoesOn(input, s, 3, m, out, cap, f, b);
    }
  }

  lemma FixedReadable(input: seq<Byte>, p: nat, m: Spot, out: seq<Byte>, cap: nat, b: Block)
    requires b.Fixed? && ValidBlock(p, b) && m.p == p + 3 && At(input, m.p, Content(p, b))
    requires Run(|input|, m, ContentTakes(p, b)).Some? && Produces(out, b) && |BlockOutput(out, b)| <= cap
    ensures BodyReadable(input, m, b.LitBook(), b.DistBook(), out, cap, b.ts)
  {
    hide At, Content, Body, Book, AllEncodable, BlockEnd, Expand, Expandable, BodyEnd, BodyAt, Run, BodyTakes,
      HeaderBits;
    CompressedParts(input, p, b);
  }

  lemma NoBlockFixed(input: seq<Byte>, s: Spot, m: Spot, out: seq<Byte>, cap: nat)
    requires HeadTaken(input, s, 1, m)
    requires NoBodyAt(input, m, Book(FixedLitLens()), Book(FixedDistLens()), out, cap)
    ensures NoBlock(input, s, out, cap)
  {
    hide HeadTaken, BlockReadable, BodyReadable, At, Content, ValidBlock, Run, Book, Produces, BlockOutput;
    HeadEnd(input, s, 1, m);
    forall f, b | BlockReadable(input, s, out, cap, f, b) ensures false {
      BlockGoesOn(input, s, 1, m, out, cap, f, b);
      FixedReadable(input, s.p, m, out, cap, b);
    }
  }

  lemma HeadEnd(input: seq<Byte>, s: Spot, ty: nat, m: Spot)
    requires HeadTaken(input, s, ty, m)
    ensures m.p == s.p + 3
  {
  }

  lemma DynamicReadable(input: seq<Byte>, p: nat, m: Spot, b: Block)
    requires b.Dynamic? && ValidBlock(p, b) && m.p == p + 3 && At(input, m.p, Content(p, b))
    requires Run(|input|, m, ContentTakes(p, b)).Some?
    ensures HeaderReadable(input, m, b.h)
  {
    hide At, Content, Body, Book, AllEncodable, BlockEnd, BodyEnd, BodyAt, Run, BodyTakes, HeaderBits, ValidHeader,
      HeaderTakes;
    CompressedParts(input, p, b);
    HeaderSteps(b.h);
    RunConcat(|input|, m, HeaderTakes(b.h), BodyTakes(b.LitBook(), b.DistBook(), b.ts));
  }

  lemma HeaderSteps(h: Header)
    requires ValidHeader(h)
    ensures OpsValid(Book(Unzigzag(h.cl)), h.ops)
  {
  }

  lemma DynamicBody(input: seq<Byte>, p: nat, m: Spot, e: Spot, out: seq<Byte>, cap: nat, b: Block)
    requires b.Dynamic? && ValidBlock(p, b) && m.p == p + 3 && At(input, m.p, Content(p, b))
    requires Run(|input|, m, ContentTakes(p, b)).Some? && Produces(out, b) && |BlockOutput(out, b)| <= cap
    requires Run(|input|, m, HeaderTakes(b.h)) == Some(e) && e.p == m.p + |HeaderBits(b.h)|
    ensures BodyReadable(input, e, b.LitBook(), b.DistBook(), out, cap, b.ts)
  {
    hide At, Content, Body, Book, AllEncodable, BlockEnd, BodyEnd, BodyAt, Run, BodyTakes, HeaderBits, ValidHeader,
      HeaderTakes, Expand, Expandable;
    CompressedParts(input, p, b);
    HeaderSteps(b.h);
    RunConcat(|input|, m, HeaderTakes(b.h), BodyTakes(b.LitBook(), b.DistBook(), b.ts));
  }

  lemma DynamicRun(size: nat, p: nat, m: Spot, e: Spot, b: Block, end: Spot)
    requires b.Dynamic? && ValidBlock(p, b) && Run(size, m, HeaderTakes(b.h)) == Some(e)
    requires Run(size, e, BodyTakes(b.LitBook(), b.DistBook(), b.ts)) == Some(end)
    ensures Run(size, m, ContentTakes(p, b)) == Some(end)
  {
    hide Book, AllEncodable, Run, BodyTakes, ValidHeader, HeaderTakes;
    HeaderSteps(b.h);
    RunConcat(size, m, HeaderTakes(b.h), BodyTakes(b.LitBook(), b.DistBook(), b.ts));
  }

  lemma NoBlockHeader(input: seq<Byte>, s: Spot, m: Spot, out: seq<Byte>, cap: nat)
    requires HeadTaken(input, s, 2, m) && NoHeaderAt(input, m)
    ensures NoBlock(input, s, out, cap)
  {
    hide HeadTaken, BlockReadable, HeaderReadable, At, Content, ValidBlock, Run, Produces, BlockOutput;
    HeadEnd(input, s, 2, m);
    forall f, b | BlockReadable(input, s, out, cap, f, b) ensures false {
      BlockGoesOn(input, s, 2, m, out, cap, f, b);
      DynamicReadable(input, s.p, m, b);
    }
  }

  /** The header h stands from m to e. */
  predicate HeaderFound(input: seq<Byte>, m: Spot, h: Header, e: Spot)
  {
    && ValidHeader(h) && At(input, m.p, HeaderBits(h)) && e.p == m.p + |HeaderBits(h)|
    && Run(|input|, m, HeaderTakes(h)) == Some(e)
  }

  lemma NoBlockDynamic(input: seq<Byte>, s: Spot, m: Spot, h: Header, e: Spot, out: seq<Byte>, cap: nat)
    requires HeadTaken(input, s, 2, m) && HeaderFound(input, m, h, e)
    requires NoBodyAt(input, e, Book(h.LitLens()), Book(h.DistLens()), out, cap)
    ensures NoBlock(input, s, out, cap)
  {
    hide HeadTaken, BlockReadable, BodyReadable, HeaderReadable, At, Content, ValidBlock, Run, Produces, BlockOutput;
    hide ValidHeader, HeaderBits, HeaderTakes, Book;
    HeadEnd(input, s, 2, m);
    forall f, b | BlockReadable(input, s, out, cap, f, b) ensures false {
      BlockGoesOn(input, s, 2, m, out, cap, f, b);
      DynamicReadable(input, s.p, m, b);
      ReadableHeader(input, m, b.h);
      HeaderUnique(input, m.p, h, b.h);
      DynamicBody(input, s.p, m, e, out, cap, b);
    }
  }

  lemma ReadableHeader(input: seq<Byte>, m: Spot, h: Header)
    requires HeaderReadable(input, m, h)
    ensures ValidHeader(h) && At(input, m.p, HeaderBits(h))
  {
    hide At, ValidHeader, HeaderBits, Run;
  }

  lemma HeadRun(input: seq<Byte>, s: Spot, h: Spot, m: Spot, ty: nat)
    requires After(|input|, s, Number(1)) == Some(h) && After(|input|, h, Number(2)) == Some(m)
    requires At(input, h.p, Bits(ty, 2))
    ensures HeadTaken(input, s, ty, m)
  {
    hide At, Bits, Run;
    RunTwo(|input|, s, Number(1), Number(2));
  }

  /** The content of block b stands from m to e; the block begins at p. */
  predicate ContentDone(input: seq<Byte>, p: nat, m: Spot, b: Block, e: Spot)
  {
    && ValidBlock(p, b) && At(input, p + 3, Content(p, b)) && e.p == BlockEnd(p, b)
    && Run(|input|, m, ContentTakes(p, b)) == Some(e)
  }

  lemma StoredDone(input: seq<Byte>, p: nat, m: Spot, k: nat, b: Block)
    requires b.Stored? && b.pad == Stream(input, p + 3, PadLength(p + 3)) && |b.data| < 0x10000 && m.p == p + 3
    requires StoredStart(p) == 8 * k && U16(input, k) == |b.data| && U16(input, k + 2) == 0xffff - |b.data|
    requires k + 4 + |b.data| <= |input| && input[k + 4..k + 4 + |b.data|] == b.data
    ensures ContentDone(input, p, m, b, Spot(8 * (k + 4 + |b.data|), k + 4 + |b.data|))
  {
    hide At, Content, Stream, PadLength, U16, StoredStart, BlockEnd, ValidBlock, Run;
    StoredTaken(input, p, k, b);
    StoredRun(|input|, p, m, |b.data|);
  }

  /** The block b stands from s to e. */
  predicate BlockTaken(input: seq<Byte>, s: Spot, f: bool, b: Block, e: Spot)
  {
    BlockAt(input, s.p, f, b) && e.p == BlockEnd(s.p, b) && Run(|input|, s, BlockTakes(s.p, b)) == Some(e)
  }

  /** The final bit f and content of block b have been taken. */
  lemma ContentTaken(input: seq<Byte>, s: Spot, f: bool, m: Spot, b: Block, e: Spot)
    requires At(input, s.p, [f]) && HeadTaken(input, s, BlockType(b), m) && ContentDone(input, s.p, m, b, e)
    ensures BlockTaken(input, s, f, b, e)
  {
    hide At, Bits, ValidBlock, Content, Run, HeadTakes, ContentTakes, BlockEnd;
    RunConcat(|input|, s, HeadTakes(), ContentTakes(s.p, b));
  }

  /** A compressed block the reader has taken. */
  lemma CompressedTaken(input: seq<Byte>, p: nat, b: Block)
    requires !b.Stored? && (b.Dynamic? ==> ValidHeader(b.h) && At(input, p + 3, HeaderBits(b.h)))
    requires BodyAt(input, if b.Fixed? then p + 3 else p + 3 + |HeaderBits(b.h)|, b.LitBook(), b.DistBook(), b.ts)
    ensures ValidBlock(p, b) && At(input, p + 3, Content(p, b))
    ensures BlockEnd(p, b) == BodyEnd(BodyStart(p, b), b.LitBook(), b.DistBook(), b.ts)
  {
    hide At, HeaderBits, Book, ValidHeader, AllEncodable, Body;
    assert ValidBlock(p, b);
    hide Content, BlockEnd;
    CompressedParts(input, p, b);
  }

  lemma FinalBit(input: seq<Byte>, p: nat, k: nat)
    requires At(input, p, Bits(k, 1)) && k < 2
    ensures At(input, p, [k == 1])
  {
    assert Bits(k, 1) == [k == 1] + Bits(k / 2, 0);
  }

  lemma {:induction false} BitsPastEnd(input: seq<Byte>, p: nat, n: nat)
    requires p >= 8 * |input|
    ensures At(input, p, Bits(0, n))
  {
    BitsZero(n);
    forall i | 0 <= i < n ensures !Stream(input, p, n)[i] {
      assert Stream(input, p, n)[i] == StreamBit(input, p + i);
    }
  }

  /** No block stands in the zeros after the input. */
  lemma BlockInside(input: seq<Byte>, p: nat, f: bool, b: Block)
    requires BlockAt(input, p, f, b)
    ensures p < 8 * |input|
  {
    if p >= 8 * |input| {
      BlockPastEnd(input, p, f, b);
    }
  }

  lemma BlockPastEnd(input: seq<Byte>, p: nat, f: bool, b: Block)
    requires p >= 8 * |input|
    ensures !BlockAt(input, p, f, b)
  {
    hide At, Bits, ValidBlock, Content, StoredStart;
    if BlockAt(input, p, f, b) {
      BitsPastEnd(input, p + 1, 2);
      BlockTypeAt(input, p, f, b, 0);
      StoredAligned(p);
      StoredAfter(p);
      StoredBytes(input, p, StoredStart(p) / 8, b);
    }
  }

  lemma StoredAfter(p: nat)
    ensures StoredStart(p) >= p
  {
  }

  lemma TakenInside(input: seq<Byte>, s: Spot, f: bool, b: Block, e: Spot)
    requires BlockTaken(input, s, f, b, e)
    ensures s.p < 8 * |input| && e.p > s.p
  {
    hide BlockAt, Run, BlockEnd;
    BlockInside(input, s.p, f, b);
    EndGrows(input, s.p, f, b);
  }

  /** RFC 1950 section 2.2 as the reader checks it: deflate, no preset dictionary, check bits. */
  predicate ZlibHeader(input: seq<Byte>)
  {
    && |input| > 2 && (input[0] as int * 256 + input[1]) % 31 == 0
    && (input[1] / 32) % 2 == 0 && input[0] % 16 == 8
  }

  /** In the bits of the header: compression method 8, no preset dictionary, and a multiple of 31. */
  lemma HeaderFields(input: seq<Byte>)
    ensures ZlibHeader(input) <==>
      && |input| > 2 && Val(Stream(input, 0, 4)) == 8 && !StreamBit(input, 13)
      && (input[0] as int * 256 + input[1]) % 31 == 0
  {
    hide Stream, Val, Bits;
    if |input| > 2 {
      StreamByte(input, 0);
      StreamTake(input, 0, 4, 8);
      BitsPrefix(input[0], 8, 4);
      ValBits(input[0], 4);
      LowFour(input[0]);
      BitFive(input[1]);
    }
  }

  lemma LowFour(b: Byte)
    ensures Low(b, 4) == b % 16
  {
    hide Low, Shl, Shr;
    LowHigh(b, 4);
    ShlSmall(Shr(b, 4));
    assert Pow2(4) == 16;
  }

  lemma BitFive(b: Byte)
    ensures Bits(b, 8)[5] <==> b / 32 % 2 == 1
  {
    hide Bits;
    BitHalf(b, 8, 5);
    BitHalf(b / 2, 7, 4);
    BitHalf(b / 2 / 2, 6, 3);
    BitHalf(b / 2 / 2 / 2, 5, 2);
    BitHalf(b / 2 / 2 / 2 / 2, 4, 1);
    BitHalf(b / 32, 3, 0);
  }

  lemma BitHalf(v: nat, n: nat, i: nat)
    requires i < n
    ensures Bits(v, n)[i] == if i == 0 then v % 2 == 1 else Bits(v / 2, n - 1)[i - 1]
  {
  }

  function BlocksTakes(input: seq<Byte>, p: nat, bs: seq<Block>): seq<Take>
    requires BlocksAt(input, p, bs)
  {
    if bs == [] then [] else
    var init := bs[..|bs| - 1];
    BlocksTakes(input, p, init) + BlockTakes(BlocksEnd(input, p, init), bs[|bs| - 1])
  }

  function StreamTakes(input: seq<Byte>, p: nat, bs: seq<Block>, last: Block): seq<Take>
    requires DeflateAt(input, p, bs, last)
  {
    BlocksTakes(input, p, bs) + BlockTakes(BlocksEnd(input, p, bs), last)
  }

  /** A complete stream with room for its output, in which the reader does not starve. */
  predicate StreamReadable(input: seq<Byte>, s: Spot, cap: nat, bs: seq<Block>, last: Block)
  {
    && DeflateAt(input, s.p, bs, last) && Run(|input|, s, StreamTakes(input, s.p, bs, last)).Some?
    && BlocksProduce(bs + [last]) && |BlocksOutput(bs + [last])| <= cap
  }

  /** Unmarked blocks bs stand from bit p to bit q and produce out. */
  predicate BlocksStand(input: seq<Byte>, p: nat, bs: seq<Block>, q: nat, out: seq<Byte>)
  {
    BlocksAt(input, p, bs) && q == BlocksEnd(input, p, bs) && BlocksProduce(bs) && out == BlocksOutput(bs)
  }

  /** The reader has taken them from s to m. */
  predicate BlocksTaken(input: seq<Byte>, s: Spot, bs: seq<Block>, m: Spot, out: seq<Byte>)
  {
    BlocksStand(input, s.p, bs, m.p, out) && Run(|input|, s, BlocksTakes(input, s.p, bs)) == Some(m)
  }

  lemma NoBlocks(input: seq<Byte>, s: Spot)
    ensures BlocksTaken(input, s, [], s, [])
  {
  }

  lemma BlocksSnoc(bs: seq<Block>, b: Block)
    requires BlocksProduce(bs) && Produces(BlocksOutput(bs), b)
    ensures BlocksProduce(bs + [b]) && BlocksOutput(bs + [b]) == BlockOutput(BlocksOutput(bs), b)
  {
    assert (bs + [b])[..|bs|] == bs;
  }

  lemma StandStep(input: seq<Byte>, p: nat, bs: seq<Block>, q: nat, out: seq<Byte>, b: Block)
    requires BlocksStand(input, p, bs, q, out) && BlockAt(input, q, false, b) && Produces(out, b)
    ensures BlocksStand(input, p, bs + [b], BlockEnd(q, b), BlockOutput(out, b))
  {
    hide BlockAt, BlockEnd, BlockOutput, Produces;
    assert (bs + [b])[..|bs|] == bs;
  }

  lemma BlocksStep(input: seq<Byte>, s: Spot, bs: seq<Block>, m: Spot, out: seq<Byte>, b: Block, e: Spot)
    requires BlocksTaken(input, s, bs, m, out) && BlockTaken(input, m, false, b, e) && Produces(out, b)
    ensures BlocksTaken(input, s, bs + [b], e, BlockOutput(out, b))
  {
    hide BlockAt, BlockEnd, BlockOutput, Produces, Run, BlockTakes;
    assert (bs + [b])[..|bs|] == bs;
    BlockIsValid(input, m.p, false, b);
    RunConcat(|input|, s, BlocksTakes(input, s.p, bs), BlockTakes(m.p, b));
  }

  lemma BlockIsValid(input: seq<Byte>, p: nat, f: bool, b: Block)
    requires BlockAt(input, p, f, b)
    ensures ValidBlock(p, b)
  {
  }

  lemma {:induction false} OutputTake(bs: seq<Block>, k: nat)
    requires BlocksProduce(bs) && k <= |bs|
    ensures BlocksProduce(bs[..k])
    ensures k < |bs| ==> Produces(BlocksOutput(bs[..k]), bs[k])
    ensures |BlocksOutput(bs[..k])| <= |BlocksOutput(bs)|
    ensures k < |bs| ==> |BlockOutput(BlocksOutput(bs[..k]), bs[k])| <= |BlocksOutput(bs)|
  {
    var n := |bs| - 1;
    if k == |bs| {
      assert bs[..k] == bs;
    } else {
      BlockGrows(BlocksOutput(bs[..n]), bs[n]);
      if k < n {
        OutputTake(bs[..n], k);
        assert bs[..n][..k] == bs[..k];
      }
    }
  }

  lemma BlockGrows(out: seq<Byte>, b: Block)
    requires Produces(out, b)
    ensures |BlockOutput(out, b)| >= |out|
  {
    if !b.Stored? {
      ExpandPrefix(out, b.ts, 0);
      assert b.ts[..0] == [];
    }
  }

  lemma RunLast(input: seq<Byte>, s: Spot, bs: seq<Block>)
    requires BlocksAt(input, s.p, bs) && bs != []
    ensures
      var n := |bs| - 1;
      var q := BlocksEnd(input, s.p, bs[..n]);
      && ValidBlock(q, bs[n])
      && Run(|input|, s, BlocksTakes(input, s.p, bs)) ==
           match Run(|input|, s, BlocksTakes(input, s.p, bs[..n]))
           case None => None
           case Some(m) => Run(|input|, m, BlockTakes(q, bs[n]))
  {
    hide Run, BlockTakes, BlockAt, BlockEnd;
    var n := |bs| - 1;
    var q := BlocksEnd(input, s.p, bs[..n]);
    BlockIsValid(input, q, false, bs[n]);
    RunConcat(|input|, s, BlocksTakes(input, s.p, bs[..n]), BlockTakes(q, bs[n]));
  }

  /** A run through blocks is a run through the first k of them, and then through the next. */
  lemma {:induction false} BlocksRun(input: seq<Byte>, s: Spot, bs: seq<Block>, k: nat)
    requires BlocksAt(input, s.p, bs) && k < |bs| && Run(|input|, s, BlocksTakes(input, s.p, bs)).Some?
    ensures BlocksAt(input, s.p, bs[..k]) && BlockAt(input, BlocksEnd(input, s.p, bs[..k]), false, bs[k])
    ensures ValidBlock(BlocksEnd(input, s.p, bs[..k]), bs[k])
    ensures Run(|input|, s, BlocksTakes(input, s.p, bs[..k])).Some?
    ensures
      var m := Run(|input|, s, BlocksTakes(input, s.p, bs[..k])).value;
      Run(|input|, m, BlockTakes(BlocksEnd(input, s.p, bs[..k]), bs[k])).Some?
    decreases |bs|
  {
    hide Run, BlockTakes, BlocksTakes, BlockAt, BlockEnd, BlocksAt, BlocksEnd, ValidBlock;
    var n := |bs| - 1;
    BlocksTake(input, s.p, bs, n);
    RunLast(input, s, bs);
    if k < n {
      assert bs[..n][..k] == bs[..k];
      BlocksRun(input, s, bs[..n], k);
    }
  }

  /** After blocks that stand at the start of a readable stream the stream goes on readably. */
  lemma StreamGoesOn(input: seq<Byte>, s: Spot, cap: nat, bs: seq<Block>, m: Spot, out: seq<Byte>,
                     cs: seq<Block>, last: Block)
    requires BlocksTaken(input, s, bs, m, out) && StreamReadable(input, s, cap, cs, last)
    ensures exists f, b :: BlockReadable(input, m, out, cap, f, b)
  {
    hide BlockAt, BlockEnd, BlockOutput, Produces, Run, BlockTakes, BlocksTakes;
    BlocksPrefix(input, s.p, bs, cs, last);
    var k := |bs|;
    assert cs[..k] == bs && (cs + [last])[..k] == bs;
    OutputTake(cs + [last], k);
    LastRun(input, s, cs, last);
    if k < |cs| {
      BlocksRun(input, s, cs, k);
      assert (cs + [last])[k] == cs[k];
      assert BlockReadable(input, m, out, cap, false, cs[k]);
    } else {
      assert cs == bs;
      assert BlockReadable(input, m, out, cap, true, last);
    }
  }

  lemma LastRun(input: seq<Byte>, s: Spot, bs: seq<Block>, last: Block)
    requires DeflateAt(input, s.p, bs, last)
    ensures ValidBlock(BlocksEnd(input, s.p, bs), last)
    ensures Run(|input|, s, StreamTakes(input, s.p, bs, last)) ==
      match Run(|input|, s, BlocksTakes(input, s.p, bs))
      case None => None
      case Some(m) => Run(|input|, m, BlockTakes(BlocksEnd(input, s.p, bs), last))
  {
    hide BlockAt, BlocksAt, BlocksEnd, Run, BlockTakes, BlocksTakes;
    BlockIsValid(input, BlocksEnd(input, s.p, bs), true, last);
    RunConcat(|input|, s, BlocksTakes(input, s.p, bs), BlockTakes(BlocksEnd(input, s.p, bs), last));
  }

  /** A stream that the reader decodes stands at s. */
  ghost predicate Decodable(input: seq<Byte>, s: Spot, cap: nat)
  {
    exists cs, last :: StreamReadable(input, s, cap, cs, last)
  }

  lemma StreamStuck(input: seq<Byte>, s: Spot, cap: nat, bs: seq<Block>, m: Spot, out: seq<Byte>)
    requires BlocksTaken(input, s, bs, m, out) && NoBlock(input, m, out, cap)
    ensures !Decodable(input, s, cap)
  {
    hide BlocksTaken, StreamReadable, BlockReadable;
    forall cs, last | StreamReadable(input, s, cap, cs, last) ensures false {
      StreamGoesOn(input, s, cap, bs, m, out, cs, last);
    }
  }

  /** The stream from bit p on stands for data. */
  ghost predicate Inflates(input: seq<Byte>, p: nat, data: seq<Byte>)
  {
    exists bs, last :: DeflateAt(input, p, bs, last) && BlocksProduce(bs + [last]) && BlocksOutput(bs + [last]) == data
  }

  /** A stream stands for one byte string only. */
  lemma InflatesUnique(input: seq<Byte>, p: nat, a: seq<Byte>, b: seq<Byte>)
    requires Inflates(input, p, a) && Inflates(input, p, b)
    ensures a == b
  {
    hide DeflateAt, BlocksProduce, BlocksOutput;
    var bs, x :| DeflateAt(input, p, bs, x) && BlocksProduce(bs + [x]) && BlocksOutput(bs + [x]) == a;
    var cs, y :| DeflateAt(input, p, cs, y) && BlocksProduce(cs + [y]) && BlocksOutput(cs + [y]) == b;
    DeflateUnique(input, p, bs, x, cs, y);
  }

  /** The last block completes a stream. */
  lemma StreamTaken(input: seq<Byte>, s: Spot, bs: seq<Block>, m: Spot, out: seq<Byte>, last: Block, e: Spot, cap: nat)
    requires BlocksTaken(input, s, bs, m, out) && BlockTaken(input, m, true, last, e) && Produces(out, last)
    requires |BlockOutput(out, last)| <= cap
    ensures Inflates(input, s.p, BlockOutput(out, last)) && Decodable(input, s, cap)
  {
    hide BlockAt, BlockOutput, Produces, BlocksAt, BlocksEnd, BlockEnd, Run, BlockTakes, BlocksTakes, StreamTakes;
    BlocksSnoc(bs, last);
    assert DeflateAt(input, s.p, bs, last);
    LastRun(input, s, bs, last);
    assert StreamReadable(input, s, cap, bs, last);
  }

  lemma EndGrows(input: seq<Byte>, p: nat, f: bool, b: Block)
    requires BlockAt(input, p, f, b)
    ensures BlockEnd(p, b) > p
  {
  }

  // ---------------------------------------------------------------------------
  // Two more bytes of input after a stream are enough

  lemma TokenTakesEnd(p: nat, ll: Codebook, dl: Codebook, t: Token)
    requires Encodable(ll, dl, t)
    ensures EndOf(p, TokenTakes(ll, dl, t)) == p + |TokenBits(ll, dl, t)|
  {
    hide LengthExtra, DistExtra, Bits;
    if t.Literal? {
      EndOfOne(p, Huffman(|ll[Symbol(t)]|));
    } else {
      PairEnd(p, |ll[Symbol(t)]|, LengthExtra(t.ls));
      PairEnd(p + |ll[Symbol(t)]| + LengthExtra(t.ls), |dl[t.ds]|, DistExtra(t.ds));
      EndOfConcat(p, LengthTakes(ll, t.ls), DistanceTakes(dl, t.ds));
    }
  }

  lemma PairEnd(p: nat, a: nat, b: nat)
    ensures EndOf(p, [Huffman(a), Number(b)]) == p + a + b
  {
    assert [Huffman(a), Number(b)][..1] == [Huffman(a)];
    EndOfOne(p, Huffman(a));
  }

  lemma {:induction false} TokensTakesEnd(p: nat, ll: Codebook, dl: Codebook, ts: seq<Token>)
    requires AllEncodable(ll, dl, ts)
    ensures EndOf(p, TokensTakes(ll, dl, ts)) == p + |Body(ll, dl, ts)|
  {
    hide TokenTakes, TokenBits, Encodable, EndOf, Body;
    if ts == [] {
      NoTakes(p, ll, dl);
    } else {
      var n := |ts| - 1;
      TokensTakesEnd(p, ll, dl, ts[..n]);
      assert ts == ts[..n] + [ts[n]];
      BodySnoc(ll, dl, ts[..n], ts[n]);
      TokenTakesEnd(p + |Body(ll, dl, ts[..n])|, ll, dl, ts[n]);
      EndOfConcat(p, TokensTakes(ll, dl, ts[..n]), TokenTakes(ll, dl, ts[n]));
    }
  }

  lemma NoTakes(p: nat, ll: Codebook, dl: Codebook)
    ensures Body(ll, dl, []) == [] && EndOf(p, []) == p
  {
  }

  lemma BodyTakesEnd(p: nat, ll: Codebook, dl: Codebook, ts: seq<Token>)
    requires AllEncodable(ll, dl, ts) && HasCode(ll, END_OF_BLOCK)
    ensures EndOf(p, BodyTakes(ll, dl, ts)) == BodyEnd(p, ll, dl, ts)
  {
    hide TokensTakes, Encodable, EndOf, Body;
    TokensTakesEnd(p, ll, dl, ts);
    EndOfConcat(p, TokensTakes(ll, dl, ts), [Huffman(|ll[END_OF_BLOCK]|)]);
    EndOfOne(p + |Body(ll, dl, ts)|, Huffman(|ll[END_OF_BLOCK]|));
  }

  lemma {:induction false} OpsTakesEnd(p: nat, book: Codebook, ops: seq<LenOp>)
    requires OpsValid(book, ops)
    ensures EndOf(p, OpsTakes(book, ops)) == p + |Flatten(OpPieces(book, ops))|
  {
    hide Bits;
    if ops != [] {
      var n := |ops| - 1;
      OpsTakesEnd(p, book, ops[..n]);
      assert OpPieces(book, ops)[..n] == OpPieces(book, ops[..n]);
      PairEnd(p + |Flatten(OpPieces(book, ops[..n]))|, |book[OpSymbol(ops[n])]|, OpExtra(ops[n]));
      EndOfConcat(p, OpsTakes(book, ops[..n]), OpTakes(book, ops[n]));
    }
  }

  lemma {:induction false} ThreesEnd(p: nat, n: nat)
    ensures EndOf(p, seq(n, _ => Number(3))) == p + 3 * n
  {
    if n > 0 {
      ThreesEnd(p, n - 1);
      assert seq(n, _ => Number(3))[..n - 1] == seq(n - 1, _ => Number(3));
    }
  }

  lemma PreludeTakesEnd(p: nat, n: nat)
    ensures EndOf(p, PreludeTakes(n)) == p + 14 + 3 * n
  {
    hide EndOf;
    var five, four := [Number(5)], [Number(4)];
    EndOfOne(p, Number(5));
    EndOfOne(p + 5, Number(5));
    EndOfOne(p + 10, Number(4));
    EndOfConcat(p, five, five);
    EndOfConcat(p, five + five, four);
    var counts := [Number(5), Number(5), Number(4)];
    assert counts == five + five + four;
    ThreesEnd(p + 14, n);
    EndOfConcat(p, counts, seq(n, _ => Number(3)));
  }

  lemma HeaderTakesEnd(p: nat, h: Header)
    requires ValidHeader(h)
    ensures OpsValid(Book(Unzigzag(h.cl)), h.ops) && EndOf(p, HeaderTakes(h)) == p + |HeaderBits(h)|
  {
    hide CodeLengths, Unzigzag, Book, LenList, OpsApply, OpsValid, OpPieces, LenPieces, Flatten, EndOf, PreludeTakes,
      OpsTakes, Bits;
    var book := Book(Unzigzag(h.cl));
    PreludeTakesEnd(p, |h.cl|);
    OpsTakesEnd(p + 14 + 3 * |h.cl|, book, h.ops);
    EndOfConcat(p, PreludeTakes(|h.cl|), OpsTakes(book, h.ops));
    LenPiecesLength(h.cl);
  }

  lemma HeadTakesEnd(p: nat)
    ensures EndOf(p, HeadTakes()) == p + 3
  {
    assert HeadTakes()[..1] == [Number(1)];
    EndOfOne(p, Number(1));
  }

  lemma StoredTakesEnd(input: seq<Byte>, p: nat, b: Block)
    requires b.Stored? && ValidBlock(p, b)
    ensures EndOf(p + 3, [Aligned(4 + |b.data|)]) == BlockEnd(p, b)
  {
    hide EndOf, BlockEnd, StoredStart, ValidBlock, Content;
    StoredParts(input, p, b);
    EndOfOne(p + 3, Aligned(4 + |b.data|));
    StoredBoundary(p);
  }

  lemma FixedTakesEnd(input: seq<Byte>, p: nat, b: Block)
    requires b.Fixed? && ValidBlock(p, b)
    ensures EndOf(p + 3, BodyTakes(b.LitBook(), b.DistBook(), b.ts)) == BlockEnd(p, b)
  {
    hide EndOf, BodyTakes, BlockEnd, BodyEnd, Body, Book, AllEncodable, Content;
    CompressedParts(input, p, b);
    BodyTakesEnd(p + 3, b.LitBook(), b.DistBook(), b.ts);
  }

  lemma DynamicTakesEnd(input: seq<Byte>, p: nat, b: Block)
    requires b.Dynamic? && ValidBlock(p, b)
    ensures EndOf(p + 3, HeaderTakes(b.h) + BodyTakes(b.LitBook(), b.DistBook(), b.ts)) == BlockEnd(p, b)
  {
    hide EndOf, BodyTakes, HeaderTakes, HeaderBits, BlockEnd, BodyEnd, Body, Book, AllEncodable, ValidHeader, Content;
    CompressedParts(input, p, b);
    HeaderTakesEnd(p + 3, b.h);
    BodyTakesEnd(BodyStart(p, b), b.LitBook(), b.DistBook(), b.ts);
    EndOfConcat(p + 3, HeaderTakes(b.h), BodyTakes(b.LitBook(), b.DistBook(), b.ts));
  }

  lemma BlockTakesEnd(input: seq<Byte>, p: nat, b: Block)
    requires ValidBlock(p, b)
    ensures EndOf(p, BlockTakes(p, b)) == BlockEnd(p, b)
  {
    hide ValidBlock, BlockEnd, EndOf, BodyTakes, HeaderTakes, HeadTakes;
    HeadTakesEnd(p);
    EndOfConcat(p, HeadTakes(), ContentTakes(p, b));
    match b
    case Stored(_, _) => StoredTakesEnd(input, p, b);
    case Fixed(_) => FixedTakesEnd(input, p, b);
    case Dynamic(_, _) => DynamicTakesEnd(input, p, b);
  }

  lemma {:induction false} BlocksTakesEnd(input: seq<Byte>, p: nat, bs: seq<Block>)
    requires BlocksAt(input, p, bs)
    ensures EndOf(p, BlocksTakes(input, p, bs)) == BlocksEnd(input, p, bs)
  {
    hide BlockAt, BlockEnd, BlockTakes;
    if bs != [] {
      var n := |bs| - 1;
      BlocksTakesEnd(input, p, bs[..n]);
      var q := BlocksEnd(input, p, bs[..n]);
      BlockIsValid(input, q, false, bs[n]);
      BlockTakesEnd(input, q, bs[n]);
      EndOfConcat(p, BlocksTakes(input, p, bs[..n]), BlockTakes(q, bs[n]));
    }
  }

  /** A complete stream with two more bytes of input after it, and room for its output, is decodable. */
  lemma TwoBytesAfter(input: seq<Byte>, s: Spot, cap: nat, bs: seq<Block>, last: Block)
    requires DeflateAt(input, s.p, bs, last) && BlockEnd(BlocksEnd(input, s.p, bs), last) + 16 <= 8 * |input|
    requires BlocksProduce(bs + [last]) && |BlocksOutput(bs + [last])| <= cap
    ensures Decodable(input, s, cap)
  {
    hide BlockAt, BlocksAt, BlockEnd, BlockTakes, BlocksTakes, EndOf, Run, BlocksProduce, BlocksOutput;
    var q := BlocksEnd(input, s.p, bs);
    BlockIsValid(input, q, true, last);
    BlocksTakesEnd(input, s.p, bs);
    BlockTakesEnd(input, q, last);
    EndOfConcat(s.p, BlocksTakes(input, s.p, bs), BlockTakes(q, last));
    EnoughInput(|input|, s, StreamTakes(input, s.p, bs, last));
    assert StreamReadable(input, s, cap, bs, last);
  }
}
