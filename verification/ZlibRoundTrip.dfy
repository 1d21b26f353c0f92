/** zlib streams (RFC 1950), the complete writer, and the round trip through writer and reader. */
module ZlibRoundTrip {
  import opened BitStrings
  import opened Canonical
  import opened DeflateFormat
  import opened DeflateStream
  import opened FixedCode
  import opened Unambiguity
  import opened Reading
  import opened Adler32
  import opened Deflate
  import opened Inflate
  import opened Buffering
  import opened Wrappers

  /** The blocks bs and last stand for data from bit 16 on and end where the 4-byte trailer begins. */
  predicate Framed(z: seq<Byte>, data: seq<Byte>, bs: seq<Block>, last: Block)
  {
    && DeflateAt(z, 16, bs, last) && BlocksProduce(bs + [last]) && BlocksOutput(bs + [last]) == data
    && var end := BlockEnd(BlocksEnd(z, 16, bs), last); 8 * (|z| - 5) < end <= 8 * (|z| - 4)
  }

  /** z is a zlib stream for data: header, DEFLATE stream, Adler-32 trailer. */
  ghost predicate ZlibStream(z: seq<Byte>, data: seq<Byte>)
  {
    && ZlibHeader(z) && |z| >= 6 && z[|z| - 4..] == Trailer(data)
    && exists bs, last :: Framed(z, data, bs, last)
  }

  lemma HeaderOk(z: seq<Byte>)
    requires HEADER <= z && |z| > 2
    ensures ZlibHeader(z)
  {
    assert z[0] == HEADER[0] && z[1] == HEADER[1];
  }

  /** A fixed block written by the compressor frames the data. */
  lemma FixedFrames(out: seq<Byte>, data: seq<Byte>, ts: seq<Token>, pad: seq<bool>, z: seq<Byte>)
    requires FixedForm(out, data, ts, pad) && |z| == |out| + 4 && z[..|out|] == out
    ensures Framed(z, data, [], Fixed(ts))
  {
    hide At, ToBits, Bits, Body, FixedLit, FixedDist, Expand, Expandable, AllEncodable, Book, BlocksAt, BlocksEnd,
      BodyAt;
    var b := Fixed(ts);
    var body, eob := Body(FixedLit(), FixedDist(), ts), FixedLit()[END_OF_BLOCK];
    SameBook();
    assert z[0..|out|] == out;
    StreamToBits(z, 0, out);
    StartSplit(z, body, eob, pad);
    FixedBlockAt(z, ts);
    NoneStand(z);
    BlocksSnoc([], b);
    FixedEnd(out, body, eob, pad);
  }

  lemma FixedBlockAt(z: seq<Byte>, ts: seq<Token>)
    requires AllEncodable(FixedLit(), FixedDist(), ts) && HasCode(FixedLit(), END_OF_BLOCK)
    requires At(z, 16, [true]) && At(z, 17, Bits(1, 2))
    requires At(z, 19, Body(FixedLit(), FixedDist(), ts) + FixedLit()[END_OF_BLOCK])
    ensures BlockAt(z, 16, true, Fixed(ts))
    ensures BlockEnd(16, Fixed(ts)) == 19 + |Body(FixedLit(), FixedDist(), ts)| + |FixedLit()[END_OF_BLOCK]|
  {
    hide At, Bits, Body, AllEncodable, Book;
    CompressedTaken(z, 16, Fixed(ts));
  }

  lemma HeaderLength()
    ensures |ToBits(HEADER)| == 16
  {
  }

  lemma StartSplit(z: seq<Byte>, body: seq<bool>, eob: seq<bool>, pad: seq<bool>)
    requires At(z, 0, Start() + body + eob + pad)
    ensures At(z, 16, [true]) && At(z, 17, Bits(1, 2)) && At(z, 19, body + eob)
  {
    hide At, ToBits, Bits, HEADER;
    var h := ToBits(HEADER);
    HeaderLength();
    AtConcat(z, 0, Start() + body + eob, pad);
    ConcatAssoc(Start(), body, eob);
    AtConcat(z, 0, Start(), body + eob);
    AtConcat(z, 0, h + Bits(1, 1), Bits(1, 2));
    AtConcat(z, 0, h, Bits(1, 1));
    FinalBit(z, 16, 1);
  }

  lemma FixedEnd(out: seq<Byte>, body: seq<bool>, eob: seq<bool>, pad: seq<bool>)
    requires ToBits(out) == Start() + body + eob + pad && |pad| < 8
    ensures 8 * (|out| - 1) < 19 + |body| + |eob| <= 8 * |out|
  {
    hide ToBits, Bits, HEADER;
    HeaderLength();
  }

  // ---------------------------------------------------------------------------
  // Stored streams

  /** The first chunk of a stored form is a stored block. */
  lemma ChunkAt(z: seq<Byte>, k: nat, data: seq<Byte>) returns (b: Block)
    requires data != [] && k + 5 + ChunkLength(data) <= |z|
    requires z[k..k + 5] == ChunkHeader(data) && z[k + 5..k + 5 + ChunkLength(data)] == data[..ChunkLength(data)]
    ensures b.Stored? && b.data == data[..ChunkLength(data)]
    ensures BlockAt(z, 8 * k, ChunkLength(data) == |data|, b) && BlockEnd(8 * k, b) == 8 * (k + 5 + ChunkLength(data))
  {
    var n := ChunkLength(data);
    var h := ChunkHeader(data);
    forall i | 0 <= i < 5 ensures z[k + i] == h[i] { assert z[k..k + 5][i] == z[k + i]; }
    b := Stored(Stream(z, 8 * k + 3, PadLength(8 * k + 3)), data[..n]);
    AlignedStart(k);
    TypeByte(z, k, n == |data|);
    StoredTaken(z, 8 * k, k + 1, b);
  }

  /** The byte before a chunk: BFINAL, and BTYPE 0. */
  lemma TypeByte(z: seq<Byte>, k: nat, final: bool)
    requires k < |z| && z[k] == if final then 1 else 0
    ensures At(z, 8 * k, [final]) && At(z, 8 * k + 1, Bits(0, 2))
  {
    hide At, Bits, ToBits;
    assert z[k..k + 1] == [z[k]];
    StreamToBits(z, k, [z[k]]);
    ByteParts(z[k]);
    AtConcat(z, 8 * k, [final], Bits(0, 2) + Bits(0, 5));
    AtConcat(z, 8 * k + 1, Bits(0, 2), Bits(0, 5));
  }

  lemma ByteParts(x: Byte)
    requires x < 2
    ensures ToBits([x]) == [x == 1] + (Bits(0, 2) + Bits(0, 5))
  {
    assert ToBits([x]) == ToBits([]) + Bits(x, 8);
  }

  /** A stored form that follows blocks already taken completes a stream. */
  lemma {:induction false} StoredFrames(z: seq<Byte>, k: nat, data: seq<Byte>, bs: seq<Block>, out: seq<Byte>)
    returns (cs: seq<Block>, last: Block)
    requires data != [] && k + |StoredForm(data)| <= |z| && z[k..k + |StoredForm(data)|] == StoredForm(data)
    requires BlocksStand(z, 16, bs, 8 * k, out)
    ensures DeflateAt(z, 16, cs, last) && BlocksProduce(cs + [last]) && BlocksOutput(cs + [last]) == out + data
    ensures BlockEnd(BlocksEnd(z, 16, cs), last) == 8 * (k + |StoredForm(data)|)
    decreases |data|
  {
    hide StoredForm, BlockAt, BlockEnd, ChunkHeader, BlocksAt, BlocksEnd, ValidBlock, DeflateAt, BlocksStand;
    hide BlocksProduce, BlocksOutput;
    var n := ChunkLength(data);
    var rest := data[n..];
    StoredFormSplit(z, k, data);
    var b := ChunkAt(z, k, data);
    assert data == data[..n] + rest;
    if n == |data| {
      NoChunks();
      assert rest == [];
      LastChunk(z, k, bs, out, b);
      return bs, b;
    }
    StandStep(z, 16, bs, 8 * k, out, b);
    cs, last := StoredFrames(z, k + 5 + n, rest, bs + [b], out + b.data);
    ConcatAssoc(out, data[..n], rest);
  }

  lemma NoneStand(z: seq<Byte>)
    ensures BlocksStand(z, 16, [], 16, [])
  {
  }

  lemma LastChunk(z: seq<Byte>, k: nat, bs: seq<Block>, out: seq<Byte>, b: Block)
    requires BlocksStand(z, 16, bs, 8 * k, out) && b.Stored? && BlockAt(z, 8 * k, true, b)
    ensures DeflateAt(z, 16, bs, b) && BlocksProduce(bs + [b]) && BlocksOutput(bs + [b]) == out + b.data
    ensures BlockEnd(BlocksEnd(z, 16, bs), b) == BlockEnd(8 * k, b)
  {
    hide BlockAt, BlockEnd;
    BlocksSnoc(bs, b);
  }

  lemma SliceSplit<T>(z: seq<T>, k: nat, a: seq<T>, b: seq<T>)
    requires k + |a| + |b| <= |z| && z[k..k + |a| + |b|] == a + b
    ensures z[k..k + |a|] == a && z[k + |a|..k + |a| + |b|] == b
  {
    var s := a + b;
    assert z[k..k + |a|] == z[k..k + |a| + |b|][..|a|];
    assert z[k + |a|..k + |a| + |b|] == z[k..k + |a| + |b|][|a|..];
  }

  lemma StoredFormParts(data: seq<Byte>)
    requires data != []
    ensures StoredForm(data) == ChunkHeader(data) + data[..ChunkLength(data)] + StoredForm(data[ChunkLength(data)..])
  {
    hide ChunkHeader;
  }

  lemma StoredFormSplit(z: seq<Byte>, k: nat, data: seq<Byte>)
    requires data != [] && k + |StoredForm(data)| <= |z| && z[k..k + |StoredForm(data)|] == StoredForm(data)
    ensures var n := ChunkLength(data);
      && |StoredForm(data)| == 5 + n + |StoredForm(data[n..])|
      && z[k..k + 5] == ChunkHeader(data) && z[k + 5..k + 5 + n] == data[..n]
      && z[k + 5 + n..k + 5 + n + |StoredForm(data[n..])|] == StoredForm(data[n..])
  {
    hide ChunkHeader, StoredForm;
    var n := ChunkLength(data);
    var a, b, c := ChunkHeader(data), data[..n], StoredForm(data[n..]);
    StoredFormParts(data);
    SliceSplit(z, k, a + b, c);
    SliceSplit(z, k, a, b);
  }

  lemma StoredIsFramed(z: seq<Byte>, data: seq<Byte>)
    requires data != [] && |z| == 6 + |StoredForm(data)| && z[..2 + |StoredForm(data)|] == HEADER + StoredForm(data)
    ensures exists bs, last :: Framed(z, data, bs, last)
  {
    hide StoredForm, BlockEnd, DeflateAt, BlocksOutput;
    var n := |StoredForm(data)|;
    assert z[2..2 + n] == z[..2 + n][2..] == StoredForm(data);
    NoneStand(z);
    var bs, last := StoredFrames(z, 2, data, [], []);
    assert [] + data == data;
    assert Framed(z, data, bs, last);
  }

  // ---------------------------------------------------------------------------
  // The writer and the round trip

  const EMPTY_RESULT: seq<Byte> := [0x78, 0x5e, 0, 0, 0, 1]

  lemma StoredCase(z: seq<Byte>, data: seq<Byte>)
    requires z == HEADER + StoredForm(data) + Trailer(data)
    ensures data != [] ==> ZlibStream(z, data)
    ensures data == [] ==> z == EMPTY_RESULT
  {
    if data == [] {
      NoChunks();
      assert Adler(data) == Sums(1, 0);
    } else {
      hide StoredForm, Trailer, Framed;
      assert z[..2 + |StoredForm(data)|] == HEADER + StoredForm(data);
      HeaderOk(z);
      StoredIsFramed(z, data);
    }
  }

  lemma FixedCase(z: seq<Byte>, out: seq<Byte>, data: seq<Byte>, ts: seq<Token>, pad: seq<bool>)
    requires FixedForm(out, data, ts, pad) && HEADER <= out && z == out + Trailer(data)
    ensures ZlibStream(z, data) && |out| > 2
  {
    hide Trailer, Framed, FixedForm;
    FixedLong(out, data, ts, pad);
    HeaderOk(z);
    FixedFrames(out, data, ts, pad, z);
  }

  /** The end-of-block symbol alone takes the fixed form beyond the two header bytes. */
  lemma FixedLong(out: seq<Byte>, data: seq<Byte>, ts: seq<Token>, pad: seq<bool>)
    requires FixedForm(out, data, ts, pad)
    ensures |out| > 2
  {
    hide Body, AllEncodable, Expand, Expandable;
    FixedEnd(out, Body(FixedLit(), FixedDist(), ts), FixedLit()[END_OF_BLOCK], pad);
  }

  /** The tokens of the fixed form are the ones the compressor chooses; the stored form takes its place exactly when
      the fixed form is longer than the bound. */
  ghost predicate Compressed(
      z: seq<Byte>, data: seq<Byte>, quality: int, fixed: seq<Byte>, ts: seq<Token>, pad: seq<bool>)
  {
    && FixedForm(fixed, data, ts, pad) && Chosen(data, ts, if quality < 5 then 5 else quality)
    && (var form := if |fixed| > |data| + 2 + (|data| + 32766) / 32767 * 5 then HEADER + StoredForm(data) else fixed;
        z == form + Trailer(data))
  }

  /** stbi_zlib_compress: for nonempty data a zlib stream of it, whatever matches were found and
      whichever form was chosen; for empty data a header and trailer with no block between them. */
  method ZlibCompress(data: seq<Byte>, quality: int) returns (z: seq<Byte>)
    ensures data != [] ==> ZlibStream(z, data)
    ensures data == [] ==> z == EMPTY_RESULT
    ensures exists fixed, ts, pad :: Compressed(z, data, quality, fixed, ts, pad)
  {
    hide *;
    var w := new Writer();
    ghost var ts, pad := w.WriteFixed(data, quality);
    ghost var fixed := w.out;
    if |w.out| > |data| + 2 + (|data| + 32766) / 32767 * 5 {
      w.StoreInstead(data);
      var a := ComputeAdler(data);
      z := WriteTrailer(w, data, a);
      StoredCase(z, data);
    } else {
      var a := ComputeAdler(data);
      z := WriteTrailer(w, data, a);
      FixedCase(z, fixed, data, ts, pad);
    }
    FormChosen(z, data, quality, fixed, ts, pad);
  }

  lemma FormChosen(z: seq<Byte>, data: seq<Byte>, quality: int, fixed: seq<Byte>, ts: seq<Token>, pad: seq<bool>)
    requires FixedForm(fixed, data, ts, pad) && Chosen(data, ts, if quality < 5 then 5 else quality)
    requires
      var form := if |fixed| > |data| + 2 + (|data| + 32766) / 32767 * 5 then HEADER + StoredForm(data) else fixed;
      z == form + Trailer(data)
    ensures Compressed(z, data, quality, fixed, ts, pad)
  {
  }

  /** The four checksum bytes. */
  method WriteTrailer(w: Writer, ghost data: seq<Byte>, a: Sums) returns (z: seq<Byte>)
    requires w.Valid() && a == Adler(data)
    modifies w
    ensures w.out == old(w.out) + Trailer(data) && z == w.out
  {
    hide Pow2;
    AdlerBound(data);
    w.Push(a.s2 / 256);
    w.Push(a.s2 % 256);
    w.Push(a.s1 / 256);
    w.Push(a.s1 % 256);
    z := w.out;
  }

  /** No stream stands in the writer's result for empty data. */
  lemma EmptyUnreadable(data: seq<Byte>)
    ensures !Inflates(EMPTY_RESULT, 16, data)
  {
    if Inflates(EMPTY_RESULT, 16, data) {
      var bs, last :| DeflateAt(EMPTY_RESULT, 16, bs, last) && BlocksProduce(bs + [last])
                      && BlocksOutput(bs + [last]) == data;
      var f, b := FirstBlock(EMPTY_RESULT, 16, bs, last);
      NoFirstBlock(f, b);
    }
  }

  lemma FirstBlock(z: seq<Byte>, p: nat, bs: seq<Block>, last: Block) returns (f: bool, b: Block)
    requires DeflateAt(z, p, bs, last)
    ensures BlockAt(z, p, f, b)
  {
    hide BlockAt;
    if bs == [] {
      return true, last;
    }
    BlocksTake(z, p, bs, 0);
    assert bs[..0] == [];
    return false, bs[0];
  }

  lemma NoFirstBlock(f: bool, b: Block)
    ensures !BlockAt(EMPTY_RESULT, 16, f, b)
  {
    var z := EMPTY_RESULT;
    assert z[2] == 0 && U16(z, 3) == 0 && U16(z, 5) == 1;
    hide EMPTY_RESULT, U16;
    NoStoredBlock(z, 2, f, b);
  }

  /** A zero byte announces an unmarked stored block; without matching length fields there is none. */
  lemma NoStoredBlock(z: seq<Byte>, k: nat, f: bool, b: Block)
    requires k < |z| && z[k] == 0 && U16(z, k + 3) != 0xffff - U16(z, k + 1)
    ensures !BlockAt(z, 8 * k, f, b)
  {
    hide At, Content, ValidBlock, U16, Bits, StoredStart, BlockAt, BlockEnd;
    AlignedStart(k);
    if BlockAt(z, 8 * k, f, b) {
      TypeByte(z, k, false);
      BlockTypeAt(z, 8 * k, f, b, 0);
      StoredContentAt(z, 8 * k, f, b);
      StoredBytes(z, 8 * k, k + 1, b);
    }
  }

  lemma AlignedStart(k: nat)
    ensures StoredStart(8 * k) == 8 * (k + 1)
  {
  }

  lemma StoredContentAt(z: seq<Byte>, p: nat, f: bool, b: Block)
    requires BlockAt(z, p, f, b)
    ensures ValidBlock(p, b) && At(z, p + 3, Content(p, b))
  {
  }

  /** A framed stream is one that the reader decodes: its checksum stands after it. */
  lemma FramedReadable(z: seq<Byte>, data: seq<Byte>, cap: nat)
    requires ZlibStream(z, data) && |data| <= cap
    ensures Decodable(z, Beginning(true), cap) && Inflates(z, 16, data)
  {
    hide DeflateAt, BlocksProduce, BlocksOutput, BlockEnd;
    var bs, last :| Framed(z, data, bs, last);
    TwoBytesAfter(z, Beginning(true), cap, bs, last);
  }

  /** Every zlib stream is read back as the data it stands for. */
  method DecodeStream(z: seq<Byte>, ghost data: seq<Byte>, initialSize: nat) returns (r: Option<seq<Byte>>)
    requires ZlibStream(z, data) && 0 < initialSize <= UINT_MAX && |data| <= Room(initialSize)
    ensures r == Some(data)
  {
    hide *;
    r := ZlibDecode(z, initialSize, true, true);
    StreamFacts(z, data);
    FramedReadable(z, data, Room(initialSize));
    InflatesUnique(z, 16, r.value, data);
  }

  lemma StreamFacts(z: seq<Byte>, data: seq<Byte>)
    requires ZlibStream(z, data)
    ensures ZlibHeader(z) && Beginning(true).p == 16
  {
  }

  /** Compressing and decoding gives the data back exactly when there is any. */
  method RoundTrip(data: seq<Byte>, quality: int, initialSize: nat) returns (r: Option<seq<Byte>>)
    requires |data| <= 0x7fff_ffff && 0 < initialSize <= UINT_MAX
    ensures r == Some(data) <==> data != []
    ensures data == [] ==> r == None
  {
    hide *;
    var z := ZlibCompress(data, quality);
    if data == [] {
      r := ZlibDecode(z, initialSize, true, true);
      StartIs16();
      if r.Some? { EmptyUnreadable(r.value); }
    } else {
      PlentyOfRoom(initialSize);
      r := DecodeStream(z, data, initialSize);
    }
  }

  lemma PlentyOfRoom(initialSize: nat)
    requires initialSize > 0
    ensures Room(initialSize) > 0x7fff_ffff
  {
  }

  lemma StartIs16()
    ensures Beginning(true).p == 16
  {
  }
}
