/** A DEFLATE stream can be read in only one way. */
module Unambiguity {
  import opened BitStrings
  import opened Canonical
  import opened DeflateFormat
  import opened DeflateStream
  import opened FixedCode

  lemma OpUnique(input: seq<Byte>, p: nat, book: Codebook, a: LenOp, b: LenOp)
    requires Unambiguous(book) && ValidOp(book, a) && ValidOp(book, b)
    requires At(input, p, OpBits(book, a)) && At(input, p, OpBits(book, b))
    ensures a == b
  {
    hide At;
    AtConcat(input, p, book[OpSymbol(a)], Bits(OpNumber(a), OpExtra(a)));
    AtConcat(input, p, book[OpSymbol(b)], Bits(OpNumber(b), OpExtra(b)));
    CodeUnique(input, p, book, OpSymbol(a), OpSymbol(b));
    NumberUnique(input, p + |book[OpSymbol(a)]|, OpNumber(a), OpNumber(b), OpExtra(a));
  }

  lemma OpAt(input: seq<Byte>, p: nat, book: Codebook, ops: seq<LenOp>, k: nat)
    requires OpsValid(book, ops) && At(input, p, Flatten(OpPieces(book, ops))) && k < |ops|
    ensures OpsValid(book, ops[..k])
    ensures At(input, p, Flatten(OpPieces(book, ops[..k])))
    ensures At(input, p + |Flatten(OpPieces(book, ops[..k]))|, OpBits(book, ops[k]))
    ensures |Flatten(OpPieces(book, ops[..k]))| + |OpBits(book, ops[k])| <= |Flatten(OpPieces(book, ops))|
  {
    hide At;
    FlattenAt(input, p, OpPieces(book, ops), k);
    assert OpPieces(book, ops)[..k] == OpPieces(book, ops[..k]);
  }

  lemma {:induction false} OpsPrefix(input: seq<Byte>, p: nat, book: Codebook, ops: seq<LenOp>, us: seq<LenOp>)
    requires Unambiguous(book) && OpsValid(book, ops) && OpsValid(book, us)
    requires At(input, p, Flatten(OpPieces(book, ops))) && At(input, p, Flatten(OpPieces(book, us)))
    requires |ops| <= |us|
    ensures ops <= us
  {
    hide At, Unambiguous, OpPieces, Flatten, OpBits, ValidOp;
    if ops != [] {
      var n := |ops| - 1;
      OpAt(input, p, book, ops, n);
      OpAt(input, p, book, us, n);
      OpsPrefix(input, p, book, ops[..n], us);
      assert us[..n] == ops[..n];
      OpUnique(input, p + |Flatten(OpPieces(book, ops[..n]))|, book, ops[n], us[n]);
    }
  }

  lemma {:induction false} LenListGrows(ops: seq<LenOp>, k: nat)
    requires OpsApply(ops) && k <= |ops|
    ensures OpsApply(ops[..k])
    ensures k < |ops| ==> |LenList(ops[..k])| < |LenList(ops)| && Applies(LenList(ops[..k]), ops[k])
    ensures k < |ops| ==> |ApplyOp(LenList(ops[..k]), ops[k])| <= |LenList(ops)|
  {
    var n := |ops| - 1;
    if k == |ops| {
      assert ops[..k] == ops;
    } else if k < n {
      LenListGrows(ops[..n], k);
      assert ops[..n][..k] == ops[..k];
    }
  }

  lemma OpsUniqueLe(input: seq<Byte>, p: nat, book: Codebook, ops: seq<LenOp>, us: seq<LenOp>)
    requires Unambiguous(book) && OpsValid(book, ops) && OpsValid(book, us)
    requires At(input, p, Flatten(OpPieces(book, ops))) && At(input, p, Flatten(OpPieces(book, us)))
    requires OpsApply(ops) && OpsApply(us) && |LenList(ops)| == |LenList(us)| && |ops| <= |us|
    ensures ops == us
  {
    hide At, Unambiguous, OpPieces, Flatten, OpsValid;
    OpsPrefix(input, p, book, ops, us);
    LenListGrows(us, |ops|);
    assert us[..|ops|] == ops;
  }

  /** Step lists of the same total are equal if they stand at the same place. */
  lemma OpsUnique(input: seq<Byte>, p: nat, book: Codebook, ops: seq<LenOp>, us: seq<LenOp>)
    requires Unambiguous(book) && OpsValid(book, ops) && OpsValid(book, us)
    requires At(input, p, Flatten(OpPieces(book, ops))) && At(input, p, Flatten(OpPieces(book, us)))
    requires OpsApply(ops) && OpsApply(us) && |LenList(ops)| == |LenList(us)|
    ensures ops == us
  {
    hide *;
    if |ops| <= |us| {
      OpsUniqueLe(input, p, book, ops, us);
    } else {
      OpsUniqueLe(input, p, book, us, ops);
    }
  }

  lemma {:induction false} LenPiecesLength(cl: seq<nat>)
    ensures |Flatten(LenPieces(cl))| == 3 * |cl|
  {
    if cl != [] {
      var n := |cl| - 1;
      LenPiecesLength(cl[..n]);
      assert LenPieces(cl)[..n] == LenPieces(cl[..n]);
    }
  }

  lemma LenAt(input: seq<Byte>, p: nat, cl: seq<nat>, i: nat)
    requires At(input, p, Flatten(LenPieces(cl))) && i < |cl|
    ensures At(input, p + 3 * i, Bits(cl[i], 3))
  {
    hide At;
    FlattenAt(input, p, LenPieces(cl), i);
    assert LenPieces(cl)[..i] == LenPieces(cl[..i]);
    LenPiecesLength(cl[..i]);
  }

  lemma LensUnique(input: seq<Byte>, p: nat, cl: seq<nat>, us: seq<nat>)
    requires SmallLens(cl) && SmallLens(us) && |cl| == |us|
    requires At(input, p, Flatten(LenPieces(cl))) && At(input, p, Flatten(LenPieces(us)))
    ensures cl == us
  {
    hide At;
    forall i | 0 <= i < |cl| ensures cl[i] == us[i] {
      LenAt(input, p, cl, i);
      LenAt(input, p, us, i);
      NumberUnique(input, p + 3 * i, cl[i], us[i], 3);
    }
  }

  /** The places of the parts of a dynamic block header. */
  lemma HeaderParts(input: seq<Byte>, p: nat, h: Header)
    requires ValidHeader(h)
    ensures |HeaderBits(h)| == 14 + 3 * |h.cl| + |Flatten(OpPieces(Book(Unzigzag(h.cl)), h.ops))|
    ensures At(input, p, HeaderBits(h)) <==>
      && At(input, p, Bits(h.hlit, 5)) && At(input, p + 5, Bits(h.hdist, 5)) && At(input, p + 10, Bits(|h.cl| - 4, 4))
      && At(input, p + 14, Flatten(LenPieces(h.cl)))
      && At(input, p + 14 + 3 * |h.cl|, Flatten(OpPieces(Book(Unzigzag(h.cl)), h.ops)))
  {
    hide At, Flatten, OpPieces, LenPieces, LenList, OpsApply, CodeLengths, Unzigzag, Book;
    var a, b, c := Bits(h.hlit, 5), Bits(h.hdist, 5), Bits(|h.cl| - 4, 4);
    var d, e := Flatten(LenPieces(h.cl)), Flatten(OpPieces(Book(Unzigzag(h.cl)), h.ops));
    LenPiecesLength(h.cl);
    AtConcat(input, p, a, b + (c + (d + e)));
    AtConcat(input, p + 5, b, c + (d + e));
    AtConcat(input, p + 10, c, d + e);
    AtConcat(input, p + 14, d, e);
  }

  lemma HeaderUnique(input: seq<Byte>, p: nat, h: Header, g: Header)
    requires ValidHeader(h) && ValidHeader(g) && At(input, p, HeaderBits(h)) && At(input, p, HeaderBits(g))
    ensures h == g
  {
    hide At, HeaderBits, CodeLengths, Unzigzag, Book, LenList, OpsApply, OpsValid, OpPieces, LenPieces, Flatten,
      Unambiguous, Bits;
    HeaderParts(input, p, h);
    HeaderParts(input, p, g);
    NumberUnique(input, p, h.hlit, g.hlit, 5);
    NumberUnique(input, p + 5, h.hdist, g.hdist, 5);
    NumberUnique(input, p + 10, |h.cl| - 4, |g.cl| - 4, 4);
    assert Pow2(5) == 32 && Pow2(4) == 16;
    LensUnique(input, p + 14, h.cl, g.cl);
    BookUnambiguous(Unzigzag(h.cl));
    OpsUnique(input, p + 14 + 3 * |h.cl|, Book(Unzigzag(h.cl)), h.ops, g.ops);
  }

  // ---------------------------------------------------------------------------
  // Blocks and streams

  /** The byte boundary at which the length fields of a stored block stand. */
  function StoredStart(p: nat): nat
  {
    p + 3 + PadLength(p + 3)
  }

  function StoredContent(b: Block): seq<bool>
    requires b.Stored? && |b.data| < 0x10000
  {
    b.pad + (Bits(|b.data|, 16) + (Bits(0xffff - |b.data|, 16) + ToBits(b.data)))
  }

  /** The places of the parts of a stored block. */
  lemma StoredParts(input: seq<Byte>, p: nat, b: Block)
    requires b.Stored? && ValidBlock(p, b)
    ensures BlockEnd(p, b) == StoredStart(p) + 32 + 8 * |b.data|
    ensures At(input, p + 3, Content(p, b)) <==>
      && At(input, p + 3, b.pad)
      && At(input, StoredStart(p), Bits(|b.data|, 16))
      && At(input, StoredStart(p) + 16, Bits(0xffff - |b.data|, 16))
      && At(input, StoredStart(p) + 32, ToBits(b.data))
  {
    hide At, Bits, ToBits, PadLength, HeaderBits, Body, Book, ValidHeader, AllEncodable;
    assert Content(p, b) == StoredContent(b);
    StoredSplit(input, p + 3, b.pad, Bits(|b.data|, 16), Bits(0xffff - |b.data|, 16), ToBits(b.data));
  }

  lemma StoredSplit(input: seq<Byte>, q: nat, a: seq<bool>, b: seq<bool>, c: seq<bool>, d: seq<bool>)
    ensures At(input, q, a + (b + (c + d))) <==>
      && At(input, q, a) && At(input, q + |a|, b)
      && At(input, q + |a| + |b|, c) && At(input, q + |a| + |b| + |c|, d)
  {
    hide At;
    AtConcat(input, q, a, b + (c + d));
    AtConcat(input, q + |a|, b, c + d);
    AtConcat(input, q + |a| + |b|, c, d);
  }

  lemma {:induction false} ToBitsInjective(a: seq<Byte>, b: seq<Byte>)
    requires ToBits(a) == ToBits(b)
    ensures a == b
  {
    if a != [] {
      var n := |a| - 1;
      var s, t := ToBits(a[..n]), ToBits(b[..n]);
      assert ToBits(a)[..8 * n] == s && ToBits(b)[..8 * n] == t;
      assert ToBits(a)[8 * n..] == Bits(a[n], 8) && ToBits(b)[8 * n..] == Bits(b[n], 8);
      ToBitsInjective(a[..n], b[..n]);
      ByteBitsInjective(a[n], b[n]);
      assert a == a[..n] + [a[n]] && b == b[..n] + [b[n]];
    }
  }

  lemma ByteBitsInjective(x: Byte, y: Byte)
    requires Bits(x, 8) == Bits(y, 8)
    ensures x == y
  {
    assert Pow2(8) == 256;
    ValBits(x, 8);
    ValBits(y, 8);
    LowOf(x, 8);
    LowOf(y, 8);
  }

  lemma AtSame(input: seq<Byte>, p: nat, a: seq<bool>, b: seq<bool>)
    requires At(input, p, a) && At(input, p, b) && |a| == |b|
    ensures a == b
  {
  }

  lemma StoredUnique(input: seq<Byte>, p: nat, b: Block, c: Block)
    requires b.Stored? && c.Stored? && ValidBlock(p, b) && ValidBlock(p, c)
    requires At(input, p + 3, Content(p, b)) && At(input, p + 3, Content(p, c))
    ensures b == c
  {
    hide At, Bits, ToBits, Content;
    StoredParts(input, p, b);
    StoredParts(input, p, c);
    AtSame(input, p + 3, b.pad, c.pad);
    Pow2Values();
    NumberUnique(input, StoredStart(p), |b.data|, |c.data|, 16);
    AtSame(input, StoredStart(p) + 32, ToBits(b.data), ToBits(c.data));
    ToBitsInjective(b.data, c.data);
  }

  lemma BooksUnambiguous(b: Block)
    requires !b.Stored? && (b.Dynamic? ==> ValidHeader(b.h))
    ensures Unambiguous(b.LitBook()) && Unambiguous(b.DistBook())
  {
    hide Unambiguous, Book, CodeLengths;
    FixedKraft();
    if b.Fixed? {
      BookUnambiguous(FixedLitLens());
      BookUnambiguous(FixedDistLens());
    } else {
      BookUnambiguous(b.h.LitLens());
      BookUnambiguous(b.h.DistLens());
    }
  }

  /** A compressed block is its header, if it has one, and its body. */
  function BodyStart(p: nat, b: Block): nat
    requires !b.Stored? && ValidBlock(p, b)
  {
    if b.Fixed? then p + 3 else p + 3 + |HeaderBits(b.h)|
  }

  lemma CompressedParts(input: seq<Byte>, p: nat, b: Block)
    requires !b.Stored? && ValidBlock(p, b)
    ensures BlockEnd(p, b) == BodyEnd(BodyStart(p, b), b.LitBook(), b.DistBook(), b.ts)
    ensures At(input, p + 3, Content(p, b)) <==>
      && (b.Dynamic? ==> At(input, p + 3, HeaderBits(b.h)))
      && BodyAt(input, BodyStart(p, b), b.LitBook(), b.DistBook(), b.ts)
  {
    hide At, HeaderBits, Body, Book, ValidHeader, AllEncodable, Encodable;
    if b.Dynamic? {
      AtConcat(input, p + 3, HeaderBits(b.h), Body(b.LitBook(), b.DistBook(), b.ts) + b.LitBook()[END_OF_BLOCK]);
    }
  }

  lemma CompressedUnique(input: seq<Byte>, p: nat, b: Block, c: Block)
    requires !b.Stored? && ValidBlock(p, b) && ValidBlock(p, c) && BlockType(b) == BlockType(c)
    requires At(input, p + 3, Content(p, b)) && At(input, p + 3, Content(p, c))
    ensures b == c
  {
    hide At, HeaderBits, Book, Unambiguous, ValidHeader, AllEncodable, BodyAt, Content, BodyEnd;
    CompressedParts(input, p, b);
    CompressedParts(input, p, c);
    if b.Dynamic? { HeaderUnique(input, p + 3, b.h, c.h); }
    BooksUnambiguous(b);
    BodyUnique(input, BodyStart(p, b), b.LitBook(), b.DistBook(), b.ts, c.ts);
  }

  /** At most one block stands at a place. */
  lemma BlockUnique(input: seq<Byte>, p: nat, f: bool, b: Block, g: bool, c: Block)
    requires BlockAt(input, p, f, b) && BlockAt(input, p, g, c)
    ensures f == g && b == c
  {
    hide At, Bits, ValidBlock, Content;
    AtSame(input, p, [f], [g]);
    assert [f][0] == [g][0];
    assert Pow2(2) == 4;
    NumberUnique(input, p + 1, BlockType(b), BlockType(c), 2);
    if b.Stored? {
      StoredUnique(input, p, b, c);
    } else {
      CompressedUnique(input, p, b, c);
    }
  }

  lemma {:induction false} BlocksTake(input: seq<Byte>, p: nat, bs: seq<Block>, k: nat)
    requires BlocksAt(input, p, bs) && k <= |bs|
    ensures BlocksAt(input, p, bs[..k])
    ensures BlocksEnd(input, p, bs[..k]) <= BlocksEnd(input, p, bs)
    ensures k < |bs| ==> BlockAt(input, BlocksEnd(input, p, bs[..k]), false, bs[k])
                         && BlockEnd(BlocksEnd(input, p, bs[..k]), bs[k]) <= BlocksEnd(input, p, bs)
  {
    hide BlockAt, ValidBlock, Content;
    var n := |bs| - 1;
    if k == |bs| {
      assert bs[..k] == bs;
    } else if k < n {
      BlocksTake(input, p, bs[..n], k);
      assert bs[..n][..k] == bs[..k];
    }
  }

  /** Unmarked blocks that stand where a complete stream stands are the beginning of that stream. */
  lemma {:induction false} BlocksPrefix(input: seq<Byte>, p: nat, bs: seq<Block>, cs: seq<Block>, last: Block)
    requires BlocksAt(input, p, bs) && DeflateAt(input, p, cs, last)
    ensures bs <= cs
  {
    hide BlockAt, ValidBlock, Content;
    if bs != [] {
      var n := |bs| - 1;
      BlocksPrefix(input, p, bs[..n], cs, last);
      assert cs[..n] == bs[..n];
      var q := BlocksEnd(input, p, bs[..n]);
      if n < |cs| {
        BlocksTake(input, p, cs, n);
        BlockUnique(input, q, false, bs[n], false, cs[n]);
      } else {
        assert cs == bs[..n];
        BlockUnique(input, q, false, bs[n], true, last);
      }
    }
  }

  /** A DEFLATE stream is determined by the bits it begins at. */
  lemma DeflateUnique(input: seq<Byte>, p: nat, bs: seq<Block>, b: Block, cs: seq<Block>, c: Block)
    requires DeflateAt(input, p, bs, b) && DeflateAt(input, p, cs, c)
    ensures bs == cs && b == c
  {
    hide BlockAt, BlocksAt, BlocksEnd;
    BlocksPrefix(input, p, bs, cs, c);
    BlocksPrefix(input, p, cs, bs, b);
    assert bs == cs;
    BlockUnique(input, BlocksEnd(input, p, bs), true, b, true, c);
  }
}
