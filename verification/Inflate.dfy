/** The zlib reader of stb_image: stbi__zbuf and the functions that parse a stream
    through its 32-bit code buffer. */
module Inflate {
  import opened BitStrings
  import opened Canonical
  import opened ZHuffman
  import opened DeflateFormat
  import opened DeflateStream
  import opened Unambiguity
  import opened FixedCode
  import opened Buffering
  import opened Reading
  import opened Wrappers

  /** The size to which an output buffer can grow by doubling. */
  function Room(limit: nat): (r: nat)
    ensures r >= limit && (limit <= UINT_MAX ==> r <= UINT_MAX) && (limit > 0 ==> r > UINT_MAX / 2)
    decreases UINT_MAX - limit
  {
    if limit == 0 || limit > UINT_MAX / 2 then limit else Room(2 * limit)
  }

  class ZBuf {
    const input: seq<Byte>      // zbuffer .. zbuffer_end
    const expandable: bool      // z_expandable
    var pos: nat                // zbuffer
    var numBits: int            // num_bits
    var codeBuffer: nat         // code_buffer
    var out: seq<Byte>          // zout_start .. zout
    var limit: nat              // zout_end - zout_start
    var zLength: Tables         // z_length
    var zDistance: Tables       // z_distance
    ghost var fed: nat          // bytes moved into the code buffer, counting the zeros after the end

    /** The code buffer holds exactly the next numBits bits of the input. */
    ghost predicate Valid()
      reads this
    {
      && 0 <= numBits <= 32 && numBits <= 8 * fed
      && codeBuffer == Val(Stream(input, 8 * fed - numBits, numBits))
      && pos == (if fed <= |input| then fed else |input|)
      && |out| <= limit <= UINT_MAX
      && (expandable ==> limit > 0)
    }

    /** The bit the reader has advanced to. */
    ghost function BitPos(): nat
      reads this
      requires Valid()
    {
      8 * fed - numBits
    }

    /** The same with the bytes buffered. */
    ghost function Where(): Spot
      reads this
      requires Valid()
    {
      Spot(8 * fed - numBits, fed)
    }

    /** stbi__zget8. */
    method Get8() returns (b: Byte)
      requires Valid() && numBits == 0
      modifies `pos, `fed
      ensures Valid() && fed == old(fed) + 1 && b == ByteAt(input, old(fed))
    {
      b := if pos >= |input| then 0 else input[pos];
      pos := if pos >= |input| then pos else pos + 1;
      fed := fed + 1;
    }

    /** stbi__fill_bits. Its corruption test never succeeds, and the buffer never overflows. */
    method FillBits()
      requires Valid() && numBits <= 24
      modifies `pos, `numBits, `codeBuffer, `fed
      ensures Valid() && BitPos() == old(BitPos()) && numBits > 24
    {
      hide Stream, Val, Pow2, Shl;
      while numBits <= 24
        invariant Valid() && BitPos() == old(BitPos())
      {
        ghost var p := BitPos();
        assert !(codeBuffer >= Pow2(numBits)) by { ValBound(Stream(input, p, numBits)); }
        FeedByte(input, p, numBits, fed);
        var b := if pos >= |input| then 0 else input[pos];
        codeBuffer := codeBuffer + Shl(b, numBits);
        pos := if pos >= |input| then pos else pos + 1;
        fed := fed + 1;
        numBits := numBits + 8;
      }
    }

    /** stbi__zreceive. */
    method Receive(n: nat) returns (k: nat)
      requires Valid() && n <= 16
      modifies `pos, `numBits, `codeBuffer, `fed
      ensures Valid() && BitPos() == old(BitPos()) + n
      ensures k == Val(Stream(input, old(BitPos()), n))
      ensures At(input, old(BitPos()), Bits(k, n)) && k < Pow2(n)
      ensures numBits + n <= 32 && After(|input|, old(Where()), Number(n)) == Some(Where())
    {
      hide Stream, Val, Pow2, Shr, Low, At, Bits;
      if numBits < n { FillBits(); }
      ghost var p := BitPos();
      TakeBits(input, p, numBits, n);
      k := Low(codeBuffer, n);
      codeBuffer := Shr(codeBuffer, n);
      numBits := numBits - n;
      NumberAt(input, p, n);
    }

    /** stbi__zhuffman_decode: the symbol whose code comes next, or -1 exactly when no code does
        or when the reader is starved. */
    method Decode(z: Tables, ghost lens: seq<nat>) returns (r: int)
      requires Valid() && Built(z, lens)
      modifies `pos, `numBits, `codeBuffer, `fed
      ensures Valid() && r >= -1
      ensures r >= 0 ==>
        && SymbolAt(input, old(BitPos()), lens, r) && BitPos() == old(BitPos()) + lens[r]
        && After(|input|, old(Where()), Huffman(lens[r])) == Some(Where())
      ensures r == -1 ==> Starved(|input|, old(Where())) || NoCode(input, old(BitPos()), Book(lens))
    {
      hide Stream, Val, Shr, Low, SymbolAt, Book, Built, NoShortCode, NoCode;
      if numBits < 16 {
        if pos >= |input| { return -1; }
        FillBits();
      }
      ghost var p := BitPos();
      TakeBits(input, p, numBits, 9);
      FastMeaning(input, p, z, lens);
      var b := z.fast[Low(codeBuffer, FAST_BITS)];
      if b != 0 {
        var s := b / 512;
        TakeBits(input, p, numBits, s);
        codeBuffer := Shr(codeBuffer, s);
        numBits := numBits - s;
        return b % 512;
      }
      r := DecodeSlow(z, lens);
    }

    /** stbi__zhuffman_decode_slowpath. Its two sanity tests on the table contents never fail. */
    method DecodeSlow(z: Tables, ghost lens: seq<nat>) returns (r: int)
      requires Valid() && numBits >= 16 && Built(z, lens) && NoShortCode(input, BitPos(), lens)
      modifies `numBits, `codeBuffer
      ensures Valid() && r >= -1 && fed == old(fed)
      ensures r >= 0 ==> SymbolAt(input, old(BitPos()), lens, r) && BitPos() == old(BitPos()) + lens[r]
      ensures r == -1 ==> NoCode(input, old(BitPos()), Book(lens))
    {
      hide Stream, Val, Shr, SymbolAt, Book, NoShortCode, NoCode, BitReverse, Used, SlotsFor, FastFor, CodeLengths;
      ghost var p := BitPos();
      WindowOfBuffer(input, p, numBits);
      var k := BitReverse(codeBuffer, 16);
      var s := FAST_BITS + 1;
      while k >= z.maxcode[s]
        invariant FAST_BITS + 1 <= s <= 16
        invariant s > FAST_BITS + 1 ==> k >= z.maxcode[s - 1]
        decreases 16 - s
      {
        s := s + 1;
      }
      SlowMeaning(input, p, z, lens, s);
      if s >= 16 { return -1; }
      var b := Shr(k, 16 - s) - z.firstcode[s] + z.firstsymbol[s];
      assert !(b >= NSYMS) && !(z.size[b] != s);
      TakeBits(input, p, numBits, s);
      codeBuffer := Shr(codeBuffer, s);
      numBits := numBits - s;
      return z.value[b];
    }

    /** The output length up to which there is room. */
    ghost function Capacity(): nat
      reads `limit
    {
      if expandable then Room(limit) else limit
    }

    /** stbi__zexpand: room for n more bytes. */
    method ExpandOutput(n: nat) returns (ok: bool)
      requires Valid() && |out| + n > limit
      modifies `limit
      ensures Valid() && Capacity() == old(Capacity())
      ensures ok ==> |out| + n <= limit
      ensures !ok ==> |out| + n > Capacity()
    {
      if !expandable { return false; }
      if UINT_MAX - |out| < n { return false; }
      var newLimit := limit;
      while |out| + n > newLimit
        invariant 0 < newLimit <= UINT_MAX && |out| <= newLimit && Room(newLimit) == Room(limit)
        decreases UINT_MAX - newLimit
      {
        if newLimit > UINT_MAX / 2 { return false; }
        newLimit := newLimit * 2;
      }
      limit := newLimit;
      return true;
    }

    /** The copy loops of stbi__parse_huffman_block; source and destination may overlap. */
    method CopyMatch(dist: nat, len: nat)
      requires Valid() && 1 <= dist <= |out| && |out| + len <= limit
      modifies `out
      ensures Valid() && out == Copy(old(out), dist, len)
    {
      hide Stream, Val;
      var left := len;
      if dist == 1 {
        var v := out[|out| - 1];
        while left > 0
          invariant 0 <= left <= len && |out| == |old(out)| + len - left && out[|out| - 1] == v
          invariant Copy(out, dist, left) == Copy(old(out), dist, len)
        {
          out := out + [v];
          left := left - 1;
        }
      } else {
        var p := |out| - dist;
        while left > 0
          invariant 0 <= left <= len && |out| == |old(out)| + len - left && p == |out| - dist
          invariant Copy(out, dist, left) == Copy(old(out), dist, len)
        {
          out := out + [out[p]];
          p := p + 1;
          left := left - 1;
        }
      }
    }

    /** One round of stbi__parse_huffman_block: a literal, a match or the end of the block. */
    method ReadToken(ghost ll: seq<nat>, ghost dl: seq<nat>) returns (step: Step, ghost t: Token)
      requires Valid() && Built(zLength, ll) && Built(zDistance, dl)
      modifies `pos, `numBits, `codeBuffer, `fed, `out, `limit
      ensures Valid() && Capacity() == old(Capacity())
      ensures step.Advanced? ==>
        TokenTaken(input, old(Where()), Book(ll), Book(dl), old(out), t, Where(), out)
      ensures step.Ended? ==>
        && SymbolAt(input, old(BitPos()), ll, END_OF_BLOCK)
        && After(|input|, old(Where()), Huffman(ll[END_OF_BLOCK])) == Some(Where()) && out == old(out)
      ensures step.Failed? ==> Stuck(input, old(Where()), Book(ll), Book(dl), old(out), Capacity())
    {
      hide Stream, Val, At, Book, Built, NoCode, TokenTaken, Stuck, Unambiguous, Valid, Starved;
      ghost var s := Where();
      t := Literal(0);
      BookFacts(zLength, ll);
      var z := Decode(zLength, ll);
      if z < 0 {
        StuckAtSymbol(input, s, Book(ll), Book(dl), out, Capacity());
        return Failed, t;
      }
      if z < 256 {
        var ok := PutLiteral(z);
        if !ok {
          StuckLiteral(input, s, Book(ll), Book(dl), out, Capacity(), z);
          return Failed, t;
        }
        LiteralTaken(input, s, Book(ll), Book(dl), old(out), z, Where());
        return Advanced, Literal(z);
      }
      if z == END_OF_BLOCK { return Ended, t; }
      if z >= 286 {
        StuckLiteral(input, s, Book(ll), Book(dl), out, Capacity(), z);
        return Failed, t;
      }
      step, t := ReadMatch(z, s, ll, dl);
    }

    /** The literal branch. */
    method PutLiteral(z: Byte) returns (ok: bool)
      requires Valid()
      modifies `out, `limit
      ensures Valid() && Capacity() == old(Capacity()) && Where() == old(Where())
      ensures ok ==> out == old(out) + [z]
      ensures !ok ==> out == old(out) && |out| + 1 > Capacity()
    {
      hide Stream, Val;
      ok := true;
      if |out| >= limit {
        ok := ExpandOutput(1);
        if !ok { return; }
      }
      out := out + [z];
    }

    /** The match branch, after length symbol z. */
    method ReadMatch(z: int, ghost s: Spot, ghost ll: seq<nat>, ghost dl: seq<nat>) returns (step: Step, ghost t: Token)
      requires Valid() && Built(zLength, ll) && Built(zDistance, dl)
      requires 257 <= z < 286 && SymbolAt(input, s.p, ll, z) && After(|input|, s, Huffman(ll[z])) == Some(Where())
      modifies `pos, `numBits, `codeBuffer, `fed, `out, `limit
      ensures Valid() && Capacity() == old(Capacity())
      ensures step == Failed || step == Advanced
      ensures step.Advanced? ==> TokenTaken(input, s, Book(ll), Book(dl), old(out), t, Where(), out)
      ensures step.Failed? ==> Stuck(input, s, Book(ll), Book(dl), old(out), Capacity())
    {
      hide Stream, Val, At, Book, Built, NoCode, TokenTaken, Stuck, Unambiguous, Valid, Bits, Pow2, NoMatch;
      hide LengthBase, LengthExtra, DistBase, DistExtra, Copy, LengthTaken, DistanceTaken, Starved, Filled;
      hide ZLENGTH_BASE, ZLENGTH_EXTRA, ZDIST_BASE, ZDIST_EXTRA;
      t := Literal(0);
      BookFacts(zLength, ll);
      BookFacts(zDistance, dl);
      var ls := z - 257;
      LengthTables(ls);
      var le := Receive(ZLENGTH_EXTRA[ls]);  // receiving no bits changes nothing
      var len := ZLENGTH_BASE[ls] + le;
      ghost var m := Where();
      LengthFound(input, s, ll, ls, le, old(Where()), m);
      var ds, de;
      step, ds, de := ReadDistance(len, dl);
      if step.Failed? {
        StuckUnlessMatch(input, s, Book(ll), Book(dl), out, Capacity(), ls, le, m);
        return;
      }
      DistanceReaches(input, m, Book(dl), out, ds, de, Where());
      DistTables(ds);
      t := Match(ls, le, ds, de);
      MatchTaken(input, s, Book(ll), Book(dl), out, t, m, Where());
      CopyMatch(ZDIST_BASE[ds] + de, len);
    }

    /** The distance of a match, checked against the output so far, and room for the copy. */
    method ReadDistance(len: nat, ghost dl: seq<nat>) returns (step: Step, ds: nat, de: nat)
      requires Valid() && Built(zDistance, dl)
      modifies `pos, `numBits, `codeBuffer, `fed, `limit
      ensures Valid() && Capacity() == old(Capacity())
      ensures step == Failed || step == Advanced
      ensures step.Advanced? ==>
        DistanceTaken(input, old(Where()), Book(dl), out, ds, de, Where()) && |out| + len <= limit
      ensures step.Failed? ==> NoMatch(input, old(Where()), Book(dl), out, Capacity(), len)
    {
      hide Stream, Val, At, Book, Built, NoCode, Unambiguous, Bits, Pow2, NoMatch, DistExtra, DistBase, DistanceTaken,
        Starved, Filled;
      hide ZDIST_BASE, ZDIST_EXTRA;
      ghost var s := Where();
      BookFacts(zDistance, dl);
      step, ds, de := Failed, 0, 0;
      var z := Decode(zDistance, dl);
      if z < 0 {
        NoMatchAt(input, s, Book(dl), out, Capacity(), len);
        return;
      }
      if z >= 30 {
        OnlyMatchAt(input, s, Book(dl), out, Capacity(), len, z, 0);
        return;
      }
      ds := z;
      DistTables(ds);
      ghost var m := Where();
      de := Receive(ZDIST_EXTRA[ds]);
      var dist := ZDIST_BASE[ds] + de;
      if |out| < dist {
        OnlyMatchAt(input, s, Book(dl), out, Capacity(), len, z, de);
        return;
      }
      if |out| + len > limit {
        var ok := ExpandOutput(len);
        if !ok {
          OnlyMatchAt(input, s, Book(dl), out, Capacity(), len, z, de);
          return;
        }
      }
      DistanceFound(input, s, dl, out, ds, de, m, Where());
      step := Advanced;
    }

    /** stbi__parse_huffman_block: decodes a block body exactly when one stands in the stream. */
    method ParseHuffmanBlock(ghost ll: seq<nat>, ghost dl: seq<nat>) returns (ok: bool, ghost ts: seq<Token>)
      requires Valid() && Built(zLength, ll) && Built(zDistance, dl)
      modifies `pos, `numBits, `codeBuffer, `fed, `out, `limit
      ensures Valid() && Capacity() == old(Capacity())
      ensures ok ==>
        && BodyAt(input, old(BitPos()), Book(ll), Book(dl), ts)
        && BitPos() == BodyEnd(old(BitPos()), Book(ll), Book(dl), ts)
        && Run(|input|, old(Where()), BodyTakes(Book(ll), Book(dl), ts)) == Some(Where())
        && Expandable(old(out), ts) && out == Expand(old(out), ts)
      ensures !ok ==> NoBodyAt(input, old(Where()), Book(ll), Book(dl), old(out), Capacity())
    {
      hide Stream, Val, At, Book, Built, Stuck, TokenTaken, SymbolAt, BodyAt, NoBodyAt, Unambiguous;
      hide AllEncodable, Body, Expandable, Expand, Run, BodyTakes, TokensTaken, BodyEnd;
      ghost var s := Where();
      BookFacts(zLength, ll);
      BookFacts(zDistance, dl);
      ts := [];
      NoTokens(input, s, Book(ll), Book(dl), out);
      while true
        invariant Valid() && Capacity() == old(Capacity())
        invariant TokensTaken(input, s, Book(ll), Book(dl), old(out), ts, Where(), out)
        decreases UINT_MAX - |out|
      {
        ghost var m, was := Where(), out;
        ghost var t;
        var step;
        step, t := ReadToken(ll, dl);
        if step.Failed? {
          TokensStuck(input, s, Book(ll), Book(dl), old(out), ts, m, was, Capacity());
          return false, ts;
        }
        if step.Ended? {
          TokensEnded(input, s, Book(ll), Book(dl), old(out), ts, m, was, ll, Where());
          return true, ts;
        }
        TokensStep(input, s, Book(ll), Book(dl), old(out), ts, m, was, t, Where(), out);
        ts := ts + [t];
      }
    }

    /** One round of the loop that reads run-length coded code lengths. */
    method ReadLenOp(z: Tables, ghost cl: seq<nat>, lens: seq<nat>, total: nat)
      returns (ok: bool, lens': seq<nat>, ghost op: LenOp)
      requires Valid() && Built(z, cl) && |cl| == 19 && |lens| < total
      modifies `pos, `numBits, `codeBuffer, `fed
      ensures Valid()
      ensures ok ==>
        OpTaken(input, old(Where()), Book(cl), lens, op, Where()) && lens' == ApplyOp(lens, op) && |lens'| <= total
      ensures !ok ==> OpStuck(input, old(Where()), Book(cl), lens, total)
    {
      hide Stream, Val, At, Book, Built, NoCode, Unambiguous, OpStuck, Bits, OpTaken, OpBits, Starved, After;
      ghost var s := Where();
      BookFacts(z, cl);
      lens', op, ok := lens, Len(0), true;
      var c := Decode(z, cl);
      if c < 0 || c >= 19 {
        OpStuckNoCode(input, s, Book(cl), lens, total);
        return false, lens, op;
      }
      ghost var m := Where();
      if c < 16 {
        op := Len(c);
        EmptyAt(input, BitPos());
        NoNumber(|input|, m);
        OpPartsTaken(input, s, Book(cl), lens, op, m, m);
        lens' := lens + [c];
        return;
      }
      var fill, n := 0, 0;
      if c == 16 {
        n := Receive(2);
        op := Repeat(n);
        n := n + 3;
        OpPartsTaken(input, s, Book(cl), lens, op, m, Where());
        if |lens| == 0 {
          OpStuckOnly(input, s, Book(cl), lens, total, op);
          return false, lens, op;
        }
        fill := lens[|lens| - 1];
      } else if c == 17 {
        n := Receive(3);
        op := Zeros3(n);
        n := n + 3;
        OpPartsTaken(input, s, Book(cl), lens, op, m, Where());
      } else {
        n := Receive(7);
        op := Zeros11(n);
        n := n + 11;
        OpPartsTaken(input, s, Book(cl), lens, op, m, Where());
      }
      if total - |lens| < n {
        OpStuckOnly(input, s, Book(cl), lens, total, op);
        return false, lens, op;
      }
      lens' := lens + Fill(n, fill);
    }

    /** The loop that reads run-length coded code lengths. */
    method ReadLens(z: Tables, ghost cl: seq<nat>, total: nat) returns (ok: bool, lens: seq<nat>, ghost ops: seq<LenOp>)
      requires Valid() && Built(z, cl) && |cl| == 19
      modifies `pos, `numBits, `codeBuffer, `fed
      ensures Valid()
      ensures ok ==> OpsTaken(input, old(Where()), Book(cl), ops, Where(), lens) && |lens| == total
      ensures !ok ==> NoOpsAt(input, old(Where()), Book(cl), total)
    {
      hide Stream, Val, Book, Built, OpStuck, Unambiguous, OpsTaken, OpTaken, NoOpsAt;
      ghost var s := Where();
      BookFacts(z, cl);
      ok, lens, ops := true, [], [];
      NoOps(input, s, Book(cl));
      while |lens| < total
        invariant Valid() && |lens| <= total
        invariant OpsTaken(input, s, Book(cl), ops, Where(), lens)
        decreases total - |lens|
      {
        ghost var m := Where();
        ghost var op;
        var lens';
        ok, lens', op := ReadLenOp(z, cl, lens, total);
        if !ok {
          OpsStuck(input, s, Book(cl), ops, m, lens, total);
          return;
        }
        OpsStep(input, s, Book(cl), ops, m, lens, op, Where());
        GrowsBy(lens, op);
        lens := lens';
        ops := ops + [op];
      }
    }

    /** The three counts of a dynamic block. */
    method ReadCounts() returns (hlit: nat, hdist: nat, hclen: nat)
      requires Valid()
      modifies `pos, `numBits, `codeBuffer, `fed
      ensures Valid() && hlit < 32 && hdist < 32 && 4 <= hclen < 20 && BitPos() == old(BitPos()) + 14
      ensures At(input, old(BitPos()), Bits(hlit, 5)) && At(input, old(BitPos()) + 5, Bits(hdist, 5))
      ensures At(input, old(BitPos()) + 10, Bits(hclen - 4, 4))
      ensures Run(|input|, old(Where()), PreludeTakes(0)) == Some(Where())
    {
      hide Stream, Val, At, Bits, Run, PreludeTakes, After;
      ghost var s := Where();
      assert Pow2(5) == 32 && Pow2(4) == 16;
      hlit := Receive(5);
      ghost var m := Where();
      hdist := Receive(5);
      ghost var m' := Where();
      var n := Receive(4);
      PreludeStart(|input|, s, m, m', Where());
      hclen := n + 4;
    }

    /** The counts and the code length code of a dynamic block. */
    method ReadPrelude() returns (hlit: nat, hdist: nat, sizes: seq<nat>, ghost cl: seq<nat>)
      requires Valid()
      modifies `pos, `numBits, `codeBuffer, `fed
      ensures Valid() && PreludeTaken(input, old(Where()), hlit, hdist, cl, Where()) && SmallLens(cl)
      ensures sizes == Unzigzag(cl)
    {
      hide Stream, Val, At, Bits, Flatten, LenPieces, Unzigzag, Run, PreludeTakes, After, LensRead, LENGTH_DEZIGZAG;
      ghost var s, p := Where(), BitPos();
      var hclen;
      hlit, hdist, hclen := ReadCounts();
      assert Pow2(3) == 8;
      cl, sizes := [], NoLens();
      NoLensRead(input, p + 14);
      for i := 0 to hclen
        invariant Valid() && BitPos() == p + 14 + 3 * i && Run(|input|, s, PreludeTakes(i)) == Some(Where())
        invariant |cl| == i && LensRead(input, p + 14, cl, sizes)
      {
        PreludeNext(|input|, s, i);
        var size := Receive(3);
        LensReadStep(input, p + 14, cl, sizes, size);
        sizes := sizes[LENGTH_DEZIGZAG[i] := size];
        cl := cl + [size];
      }
      LensReadMeans(input, p + 14, cl, sizes);
    }

    /** stbi__compute_huffman_codes: accepts exactly the headers that define two codes. */
    method ComputeHuffmanCodes() returns (ok: bool, ghost h: Header)
      requires Valid()
      modifies `pos, `numBits, `codeBuffer, `fed, `zLength, `zDistance
      ensures Valid()
      ensures ok ==>
        && HeaderFound(input, old(Where()), h, Where())
        && Built(zLength, h.LitLens()) && Built(zDistance, h.DistLens())
      ensures !ok ==> NoHeaderAt(input, old(Where()))
    {
      hide Stream, Val, At, Book, Unzigzag, OpsTaken, NoOpsAt, HeaderReadable, HeaderFound, PreludeTaken;
      hide Kraft, TablesFor, ValidHeader, NoHeaderAt;
      ghost var s := Where();
      var hlit, hdist, sizes;
      ghost var cl;
      hlit, hdist, sizes, cl := ReadPrelude();
      ghost var m := Where();
      h := Header(hlit, hdist, cl, []);
      UnzigzagSmall(cl);
      var z;
      ok, z := BuildHuffman(sizes);
      if !ok {
        NoHeader(input, s, hlit, hdist, cl, m);
        return;
      }
      var lens;
      ghost var ops;
      ok, lens, ops := ReadLens(z, Unzigzag(cl), hlit + hdist + 258);
      if !ok {
        NoHeader(input, s, hlit, hdist, cl, m);
        return;
      }
      h := Header(hlit, hdist, cl, ops);
      ok := BuildPair(lens, hlit + 257, s, h, m);
    }

    /** The tables of the two codes. */
    method BuildPair(lens: seq<nat>, hlit: nat, ghost s: Spot, ghost h: Header, ghost m: Spot) returns (ok: bool)
      requires Valid() && PartsTaken(input, s, h, m, Where(), lens) && hlit == h.hlit + 257
      modifies `zLength, `zDistance
      ensures Valid() && Where() == old(Where())
      ensures ok ==>
        && HeaderFound(input, s, h, Where())
        && Built(zLength, h.LitLens()) && Built(zDistance, h.DistLens())
      ensures !ok ==> NoHeaderAt(input, s)
    {
      hide Stream, Val, At, HeaderBits, NoHeaderAt, Kraft, TablesFor, ValidHeader, PartsTaken, AtMost, Run,
        HeaderTakes;
      SmallTaken(input, s, h, m, Where(), lens);
      AtMostSplit(lens, hlit, 15);
      var z;
      ok, z := BuildHuffman(lens[..hlit]);
      if !ok {
        NoHeaderLens(input, s, h, m, Where(), lens);
        return;
      }
      zLength := z;
      ok, z := BuildHuffman(lens[hlit..]);
      if !ok {
        NoHeaderLens(input, s, h, m, Where(), lens);
        return;
      }
      zDistance := z;
      HeaderTaken(input, s, h, m, Where(), lens);
    }

    /** Moves the whole bytes left in the code buffer into the header; at most three. */
    method DrainHeader() returns (header: seq<int>, k: nat)
      requires Valid() && numBits % 8 == 0 && numBits < 32
      modifies `numBits, `codeBuffer
      ensures Valid() && numBits == 0 && BitPos() == old(BitPos()) + 8 * k && k <= 3 && |header| == 4
      ensures forall i :: 0 <= i < k ==> header[i] == ByteAt(input, old(BitPos()) / 8 + i)
    {
      hide Stream, Val, Low, Shr, ByteAt;
      ghost var q, n := BitPos() / 8, numBits / 8;
      WholeBytes(fed, numBits);
      header, k := [0, 0, 0, 0], 0;
      while numBits > 0
        invariant Valid() && numBits == 8 * (n - k) && n <= 3 && BitPos() == 8 * (q + k) && |header| == 4
        invariant forall i :: 0 <= i < k ==> header[i] == ByteAt(input, q + i)
        decreases numBits
      {
        TakeBits(input, BitPos(), numBits, 8);
        StreamByte(input, q + k);
        header := header[k := Low(codeBuffer, 8)];
        k := k + 1;
        codeBuffer := Shr(codeBuffer, 8);
        numBits := numBits - 8;
      }
    }

    /** The four bytes of the length fields, from the code buffer and then from the input. */
    method ReadStoredHeader() returns (header: seq<int>)
      requires Valid() && numBits % 8 == 0 && numBits < 32
      modifies `pos, `numBits, `codeBuffer, `fed
      ensures Valid() && numBits == 0 && |header| == 4 && 8 * fed == old(BitPos()) + 32
      ensures forall i :: 0 <= i < 4 ==> header[i] == ByteAt(input, fed - 4 + i) && fed >= 4
    {
      hide Stream, Val, ByteAt;
      ghost var q := BitPos() / 8;
      var k;
      header, k := DrainHeader();
      while k < 4
        invariant Valid() && numBits == 0 && k <= 4 && fed == q + k && |header| == 4
        invariant forall i :: 0 <= i < k ==> header[i] == ByteAt(input, q + i)
      {
        var b := Get8();
        header := header[k := b];
        k := k + 1;
      }
    }

    /** Skips to the byte boundary and reads the length and its complement. */
    method ReadLengths() returns (len: nat, nlen: nat)
      requires Valid() && numBits < 32
      modifies `pos, `numBits, `codeBuffer, `fed
      ensures Valid() && numBits == 0 && 8 * fed == old(BitPos()) + PadLength(old(BitPos())) + 32
      ensures fed >= 4 && len == U16(input, fed - 4) && nlen == U16(input, fed - 2)
    {
      hide Stream, Val, ByteAt, PadLength, After;
      PadIsRest(fed, numBits);
      if numBits % 8 != 0 {
        KeptBytes(|input|, Where(), numBits % 8);
        var _ := Receive(numBits % 8);
      }
      var header := ReadStoredHeader();
      assert header[0] == ByteAt(input, fed - 4) && header[1] == ByteAt(input, fed - 4 + 1);
      assert header[2] == ByteAt(input, fed - 4 + 2) && header[3] == ByteAt(input, fed - 4 + 3);
      len := header[1] * 256 + header[0];
      nlen := header[3] * 256 + header[2];
    }

    /** stbi__parse_uncompressed_block, for a block that begins at bit p. */
    method ParseUncompressedBlock(ghost p: nat) returns (ok: bool, ghost b: Block)
      requires Valid() && BitPos() == p + 3 && numBits < 32
      modifies `pos, `numBits, `codeBuffer, `fed, `out, `limit
      ensures Valid() && Capacity() == old(Capacity())
      ensures ok ==>
        b.Stored? && ContentDone(input, p, old(Where()), b, Where()) && out == old(out) + b.data
      ensures !ok ==> NoStoredAt(input, p, old(out), Capacity())
    {
      hide Stream, Val, NoStoredAt, PadLength, ContentDone, U16;
      b := Fixed([]);
      var len, nlen := ReadLengths();
      ghost var k := fed - 4;
      assert StoredStart(p) == 8 * k;
      if nlen != 0xffff - len {  // len ^ 0xffff
        NoStored(input, p, k, out, Capacity());
        return false, b;
      }
      StoredInside(input, k);
      if pos + len > |input| {
        NoStored(input, p, k, out, Capacity());
        return false, b;
      }
      if |out| + len > limit {
        ok := ExpandOutput(len);
        if !ok {
          NoStored(input, p, k, out, Capacity());
          return false, b;
        }
      }
      var data := input[pos..pos + len];
      b := Stored(Stream(input, p + 3, PadLength(p + 3)), data);
      StoredDone(input, p, old(Where()), k, b);
      out := out + data;
      pos := pos + len;
      fed := fed + len;
      NoBits(input, 8 * fed);
      ok := true;
    }

    /** One round of the loop of stbi__parse_zlib. */
    method ParseBlock() returns (ok: bool, final: bool, ghost b: Block)
      requires Valid()
      modifies this
      ensures Valid() && Capacity() == old(Capacity())
      ensures ok ==> BlockTaken(input, old(Where()), final, b, Where()) && Produces(old(out), b)
      ensures ok ==> out == BlockOutput(old(out), b)
      ensures !ok ==> NoBlock(input, old(Where()), old(out), Capacity())
    {
      hide Stream, Val, At, Bits, Content, ValidBlock, BlockEnd, NoBlock, Expand, Expandable, HeadTaken;
      hide NoStoredAt, BlockTaken, Run, ContentTakes, HeadTakes, Filled;
      ghost var s := Where();
      b := Fixed([]);
      var f := Receive(1);
      ghost var h := Where();
      assert Pow2(1) == 2 && Pow2(2) == 4;
      FinalBit(input, s.p, f);
      final := f == 1;
      var ty := Receive(2);
      ghost var m := Where();
      HeadRun(input, s, h, m, ty);
      if ty == 0 {
        ok, b := ParseUncompressedBlock(s.p);
        if !ok {
          NoBlockStored(input, s, m, old(out), Capacity());
          return;
        }
        ContentTaken(input, s, final, m, b, Where());
      } else if ty == 3 {
        NoBlockThree(input, s, m, old(out), Capacity());
        ok := false;
      } else if ty == 1 {
        ok, b := ParseFixedBlock(s, final);
      } else {
        ok, b := ParseDynamicBlock(s, final);
      }
    }

    /** The tables of the two fixed codes; building them never fails. */
    method BuildFixed()
      requires Valid()
      modifies `zLength, `zDistance
      ensures Valid() && Where() == old(Where())
      ensures Built(zLength, FixedLitLens()) && Built(zDistance, FixedDistLens())
    {
      hide Stream, Val, TablesFor, Kraft, KraftSum, Pow2, AtMost, FixedLitLens, FixedDistLens;
      FixedKraft();
      var ok, z := BuildHuffman(FixedLitLens());
      zLength := z;
      ok, z := BuildHuffman(FixedDistLens());
      zDistance := z;
    }

    method ParseFixedBlock(ghost s: Spot, ghost f: bool) returns (ok: bool, ghost b: Block)
      requires Valid() && At(input, s.p, [f]) && HeadTaken(input, s, 1, Where())
      modifies this
      ensures Valid() && Capacity() == old(Capacity())
      ensures ok ==> BlockTaken(input, s, f, b, Where()) && Produces(old(out), b) && out == BlockOutput(old(out), b)
      ensures !ok ==> NoBlock(input, s, old(out), Capacity())
    {
      hide Stream, Val, At, Bits, Content, ValidBlock, BlockEnd, NoBlock, Expand, Expandable, Built;
      hide NoBodyAt, BodyAt, BodyEnd, Book, Run, BodyTakes, BlockTaken, HeadTaken;
      ghost var m := Where();
      HeadEnd(input, s, 1, m);
      b := Fixed([]);
      BuildFixed();
      ghost var ts;
      ok, ts := ParseHuffmanBlock(FixedLitLens(), FixedDistLens());
      if !ok {
        NoBlockFixed(input, s, m, old(out), Capacity());
        return;
      }
      b := Fixed(ts);
      CompressedTaken(input, s.p, b);
      ContentTaken(input, s, f, m, b, Where());
    }

    method ParseDynamicBlock(ghost s: Spot, ghost f: bool) returns (ok: bool, ghost b: Block)
      requires Valid() && At(input, s.p, [f]) && HeadTaken(input, s, 2, Where())
      modifies this
      ensures Valid() && Capacity() == old(Capacity())
      ensures ok ==> BlockTaken(input, s, f, b, Where()) && Produces(old(out), b) && out == BlockOutput(old(out), b)
      ensures !ok ==> NoBlock(input, s, old(out), Capacity())
    {
      hide Stream, Val, At, Bits, Content, ValidBlock, BlockEnd, NoBlock, Expand, Expandable, HeaderBits, HeaderTakes;
      hide NoBodyAt, NoHeaderAt, CodeLengths, Unzigzag, OpsApply, LenList, OpsValid, Built, BodyAt, BodyEnd, Book;
      hide Run, BodyTakes, BlockTaken, HeadTaken;
      ghost var m := Where();
      HeadEnd(input, s, 2, m);
      b := Fixed([]);
      ghost var h;
      ok, h := ComputeHuffmanCodes();
      if !ok {
        NoBlockHeader(input, s, m, old(out), Capacity());
        return;
      }
      ghost var e, ts := Where(), [];
      ok, ts := ParseHuffmanBlock(h.LitLens(), h.DistLens());
      if !ok {
        NoBlockDynamic(input, s, m, h, e, old(out), Capacity());
        return;
      }
      b := Dynamic(h, ts);
      CompressedTaken(input, s.p, b);
      DynamicRun(|input|, s.p, m, e, b, Where());
      ContentTaken(input, s, f, m, b, Where());
    }

    /** stbi__do_zlib: a reader over the whole input with an output buffer of the given size. */
    constructor (input: seq<Byte>, initialSize: nat, expandable: bool)
      requires initialSize <= UINT_MAX && (expandable ==> initialSize > 0)
      ensures Valid() && fed == 0 && numBits == 0 && out == []
      ensures Capacity() == if expandable then Room(initialSize) else initialSize
      ensures this.input == input && this.expandable == expandable && limit == initialSize
    {
      this.input, this.expandable := input, expandable;
      pos, numBits, codeBuffer, fed := 0, 0, 0, 0;
      out, limit := [], initialSize;
      zLength, zDistance := NoTables, NoTables;
    }

    /** stbi__parse_zlib_header. */
    method ParseZlibHeader() returns (ok: bool)
      requires Valid() && numBits == 0 && fed == 0
      modifies `pos, `fed
      ensures Valid() && fed == 2 && (ok <==> ZlibHeader(input))
    {
      hide Stream, Val;
      var cmf := Get8();
      var cm := cmf % 16;
      var flg := Get8();
      if pos >= |input| { return false; }
      if (cmf as int * 256 + flg) % 31 != 0 { return false; }
      if flg / 32 % 2 != 0 { return false; }
      if cm != 8 { return false; }
      return true;
    }

    /** stbi__parse_zlib: succeeds exactly when the header is good and a stream stands after it in which the
        reader does not starve and whose output fits, and then with what the stream stands for. */
    method ParseZlib(parseHeader: bool) returns (ok: bool)
      requires Valid() && fed == 0 && numBits == 0 && out == []
      modifies this
      ensures Valid() && Capacity() == old(Capacity())
      ensures ok ==> Inflates(input, Beginning(parseHeader).p, out)
      ensures ok <==> (parseHeader ==> ZlibHeader(input)) && Decodable(input, Beginning(parseHeader), Capacity())
    {
      hide Stream, Val, BlockTaken, BlockOutput, Produces, BlocksTaken, NoBlock, Decodable, ZlibHeader, Inflates;
      ok := true;
      if parseHeader {
        ok := ParseZlibHeader();
        if !ok { return; }
      }
      ghost var s := Where();
      ghost var bs := [];
      NoBlocks(input, s);
      var final := false;
      while !final
        invariant Valid() && Capacity() == old(Capacity())
        invariant !final ==> BlocksTaken(input, s, bs, Where(), out)
        invariant final ==> Inflates(input, s.p, out) && Decodable(input, s, Capacity())
        decreases !final, if BitPos() < 8 * |input| then 8 * |input| - BitPos() else 0
      {
        ghost var m, was := Where(), out;
        ghost var b;
        ok, final, b := ParseBlock();
        if !ok {
          StreamStuck(input, s, Capacity(), bs, m, was);
          return;
        }
        TakenInside(input, m, final, b, Where());
        if final {
          StreamTaken(input, s, bs, m, was, b, Where(), Capacity());
        } else {
          BlocksStep(input, s, bs, m, was, b, Where());
          bs := bs + [b];
        }
      }
    }
  }

  /** Where the blocks begin. */
  function Beginning(header: bool): Spot
  {
    if header then Spot(16, 2) else Spot(0, 0)
  }

  /** stbi_zlib_decode_malloc_guesssize_headerflag (expandable) and stbi_zlib_decode_buffer (not): the result
      is what the stream stands for, and there is one exactly when the header is good and a stream stands
      after it in which the reader does not starve and whose output fits. */
  method ZlibDecode(input: seq<Byte>, initialSize: nat, expandable: bool, header: bool) returns (r: Option<seq<Byte>>)
    requires initialSize <= UINT_MAX && (expandable ==> initialSize > 0)
    ensures r.Some? ==> Inflates(input, Beginning(header).p, r.value)
    ensures r.Some? <==>
      && (header ==> ZlibHeader(input))
      && Decodable(input, Beginning(header), if expandable then Room(initialSize) else initialSize)
  {
    hide *;
    var z := new ZBuf(input, initialSize, expandable);
    var ok := z.ParseZlib(header);
    r := if ok then Some(z.out) else None;
  }

  // ---------------------------------------------------------------------------
  // A complete stream that is refused

  /** One fixed block with two zero bytes, in 26 bits. */
  const TWO_ZEROS: seq<Byte> := [0x63, 0x60, 0, 0]

  function ZeroTokens(): seq<Token>
  {
    [Literal(0), Literal(0)]
  }

  /** The code of literal 0 is 00110000 and that of the end of the block 0000000. */
  lemma ZeroBits()
    ensures
      var b := Fixed(ZeroTokens());
      && b.LitBook()[0] == MsbBits(0x30, 8) && b.LitBook()[END_OF_BLOCK] == MsbBits(0, 7)
      && AllEncodable(b.LitBook(), b.DistBook(), b.ts)
      && Body(b.LitBook(), b.DistBook(), b.ts) == MsbBits(0x30, 8) + MsbBits(0x30, 8)
  {
    hide MsbBits, Code, Body, FixedDistLens;
    FixedCodes(0);
    FixedCodes(END_OF_BLOCK);
    var b := Fixed(ZeroTokens());
    var ll, dl := b.LitBook(), b.DistBook();
    var one: seq<Token> := [Literal(0)];
    assert b.ts == one + [Literal(0)] && one == [] + [Literal(0)];
    assert ll[0] + [] == ll[0];
    BodySnoc(ll, dl, [], Literal(0));
    BodySnoc(ll, dl, one, Literal(0));
    EmptyBody(ll, dl);
  }

  lemma EmptyBody(ll: Codebook, dl: Codebook)
    ensures Body(ll, dl, []) == []
  {
  }

  lemma FirstPattern()
    ensures Bits(0x63, 8) == [true, true, false, false, false, true, true, false]
  {
  }

  lemma SecondPattern()
    ensures Bits(0x60, 8) == [false, false, false, false, false, true, true, false]
  {
  }

  lemma LiteralPattern()
    ensures MsbBits(0x30, 8) == [false, false, true, true, false, false, false, false]
    ensures Bits(1, 2) == [true, false]
  {
  }

  lemma NoOnes()
    ensures Bits(0, 8) == [false, false, false, false, false, false, false, false]
    ensures MsbBits(0, 7) == [false, false, false, false, false, false, false]
  {
    BitsZero(8);
  }

  function EndOfByte(): seq<bool>
  {
    [false, false, false, false, false, false]
  }

  lemma SameBits()
    ensures Bits(0x63, 8) + (Bits(0x60, 8) + (Bits(0, 8) + Bits(0, 8)))
         == [true] + (Bits(1, 2) + (MsbBits(0x30, 8) + MsbBits(0x30, 8) + MsbBits(0, 7) + EndOfByte()))
  {
    hide Bits, MsbBits;
    FirstPattern();
    SecondPattern();
    LiteralPattern();
    NoOnes();
  }

  lemma ZeroBytes()
    ensures At(TWO_ZEROS, 0, Bits(0x63, 8) + (Bits(0x60, 8) + (Bits(0, 8) + Bits(0, 8))))
  {
    hide Stream, Bits, Val;
    var z := TWO_ZEROS;
    StreamByte(z, 0);
    StreamByte(z, 1);
    StreamByte(z, 2);
    StreamByte(z, 3);
    AtConcat(z, 16, Bits(0, 8), Bits(0, 8));
    AtConcat(z, 8, Bits(0x60, 8), Bits(0, 8) + Bits(0, 8));
    AtConcat(z, 0, Bits(0x63, 8), Bits(0x60, 8) + (Bits(0, 8) + Bits(0, 8)));
  }

  lemma ZeroStream()
    ensures At(TWO_ZEROS, 0, [true]) && At(TWO_ZEROS, 1, Bits(1, 2))
    ensures At(TWO_ZEROS, 3, MsbBits(0x30, 8) + MsbBits(0x30, 8) + MsbBits(0, 7))
  {
    hide At, Bits, MsbBits, TWO_ZEROS, EndOfByte;
    ZeroBytes();
    SameBits();
    var code := MsbBits(0x30, 8) + MsbBits(0x30, 8) + MsbBits(0, 7);
    AtConcat(TWO_ZEROS, 0, [true], Bits(1, 2) + (code + EndOfByte()));
    AtConcat(TWO_ZEROS, 1, Bits(1, 2), code + EndOfByte());
    AtConcat(TWO_ZEROS, 3, code, EndOfByte());
  }

  /** The stream is complete within its four bytes. */
  lemma ZerosComplete()
    ensures
      var b := Fixed(ZeroTokens());
      && BlockAt(TWO_ZEROS, 0, true, b) && BlockEnd(0, b) == 26 && 26 <= 8 * |TWO_ZEROS|
      && DeflateAt(TWO_ZEROS, 0, [], b) && Inflates(TWO_ZEROS, 0, [0, 0])
  {
    hide At, Book, Body, MsbBits, Bits, Inflates, TWO_ZEROS, AllEncodable;
    FourBytes();
    var b := Fixed(ZeroTokens());
    ZeroBits();
    ZeroStream();
    TwoLiterals();
    BlocksSnoc([], b);
    assert DeflateAt(TWO_ZEROS, 0, [], b);
    OnlyBlock(b);
  }

  lemma OnlyBlock(b: Block)
    requires DeflateAt(TWO_ZEROS, 0, [], b) && Produces([], b)
    ensures Inflates(TWO_ZEROS, 0, BlockOutput([], b))
  {
    hide DeflateAt, Produces, BlockOutput, TWO_ZEROS;
    BlocksSnoc([], b);
  }

  lemma TwoLiterals()
    ensures Expandable([], ZeroTokens()) && Expand([], ZeroTokens()) == [0, 0]
  {
    assert ZeroTokens()[..1] == [Literal(0)] && [Literal(0)][..0] == [];
  }

  lemma ZeroTakes()
    ensures
      var b := Fixed(ZeroTokens());
      && AllEncodable(b.LitBook(), b.DistBook(), b.ts) && HasCode(b.LitBook(), END_OF_BLOCK)
      && BodyTakes(b.LitBook(), b.DistBook(), b.ts) == [Huffman(8), Huffman(8), Huffman(7)]
  {
    hide Book, Body;
    ZeroBits();
    var b := Fixed(ZeroTokens());
    var ll, dl := b.LitBook(), b.DistBook();
    var one: seq<Token> := [Literal(0)];
    assert b.ts[..1] == one && one[..0] == [];
    assert TokensTakes(ll, dl, one) == [Huffman(8)];
    assert TokensTakes(ll, dl, b.ts) == [Huffman(8)] + [Huffman(8)];
  }

  lemma ZeroStreamTakes()
    requires DeflateAt(TWO_ZEROS, 0, [], Fixed(ZeroTokens()))
    ensures StreamTakes(TWO_ZEROS, 0, [], Fixed(ZeroTokens()))
      == [Number(1), Number(2), Huffman(8), Huffman(8), Huffman(7)]
  {
    hide At, Book, TWO_ZEROS, BodyTakes, Content;
    ZeroTakes();
  }

  /** At the end-of-block symbol the reader holds 13 bits and no input is left. */
  lemma ZerosStarve()
    ensures Run(4, Spot(0, 0), [Number(1), Number(2), Huffman(8), Huffman(8), Huffman(7)]) == None
  {
    hide Run, After;
    FirstNumber(4, 0, 1);
    HeldTakes(4, Spot(1, 4), 2);
    HeldTakes(4, Spot(3, 4), 8);
    HeldTakes(4, Spot(11, 4), 8);
    HeldTakes(4, Spot(19, 4), 7);
    var head, body, end := [Number(1), Number(2)], [Huffman(8), Huffman(8)], [Huffman(7)];
    RunTwo(4, Spot(0, 0), Number(1), Number(2));
    RunTwo(4, Spot(3, 4), Huffman(8), Huffman(8));
    RunOne(4, Spot(19, 4), Huffman(7));
    RunConcat(4, Spot(3, 4), body, end);
    RunConcat(4, Spot(0, 0), head, body + end);
    assert head + (body + end) == [Number(1), Number(2), Huffman(8), Huffman(8), Huffman(7)];
  }

  lemma FourBytes()
    ensures |TWO_ZEROS| == 4
  {
  }

  lemma ZerosUndecodable(cap: nat)
    ensures !Decodable(TWO_ZEROS, Spot(0, 0), cap)
  {
    hide BlockAt, BlockEnd, DeflateAt, Inflates, TWO_ZEROS, ZeroTokens, BlocksProduce, BlocksOutput, Run, StreamTakes;
    var b, s := Fixed(ZeroTokens()), Spot(0, 0);
    ZerosComplete();
    FourBytes();
    ZerosStarve();
    forall cs, last | StreamReadable(TWO_ZEROS, s, cap, cs, last) ensures false {
      DeflateUnique(TWO_ZEROS, 0, [], b, cs, last);
      ZeroStreamTakes();
    }
  }

  /** The reader refuses a complete stream. */
  method RefusesTwoZeros() returns (r: Option<seq<Byte>>)
    ensures Inflates(TWO_ZEROS, 0, [0, 0]) && r == None
  {
    hide BlockAt, BlockEnd, Inflates, Decodable;
    ZerosComplete();
    ZerosUndecodable(Room(16));
    r := ZlibDecode(TWO_ZEROS, 16, true, false);
  }
}
