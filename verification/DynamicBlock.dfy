/** Dynamic blocks from the writing side, which the compressor of this repository never takes: any two code
    length lists are declared by a run-length coded header, and what is declared is read back. */
module DynamicBlock {
  import opened BitStrings
  import opened Canonical
  import opened DeflateFormat
  import opened DeflateStream
  import opened Unambiguity
  import opened Buffering
  import opened Reading
  import opened Inflate
  import opened Wrappers

  // ---------------------------------------------------------------------------
  // What the four steps of the list of code lengths mean (section 3.2.7 of RFC 1951)

  /** A step appends one length, 3 to 6 copies of the length before, 3 to 10 zeros or 11 to 138 zeros. */
  lemma StepMeans(lens: seq<nat>, op: LenOp)
    requires Applies(lens, op) && OpNumber(op) < Pow2(OpExtra(op))
    ensures
      var r := ApplyOp(lens, op);
      var n := |r| - |lens|;
      && n > 0 && r[..|lens|] == lens
      && match op
         case Len(x) => n == 1 && r[|lens|] == x
         case Repeat(k) => n == 3 + k <= 6 && forall i :: |lens| <= i < |r| ==> r[i] == r[i - 1]
         case Zeros3(k) => n == 3 + k <= 10 && forall i :: |lens| <= i < |r| ==> r[i] == 0
         case Zeros11(k) => n == 11 + k <= 138 && forall i :: |lens| <= i < |r| ==> r[i] == 0
  {
    assert Pow2(2) == 4 && Pow2(3) == 8 && Pow2(7) == 128;
  }

  // ---------------------------------------------------------------------------
  // A run-length coder

  /** How many of the first elements are x, counting no further than most. */
  function RunOf(s: seq<nat>, x: nat, most: nat): (n: nat)
    ensures n <= |s| && n <= most && forall i :: 0 <= i < n ==> s[i] == x
    decreases most
  {
    if s == [] || most == 0 || s[0] != x then 0 else 1 + RunOf(s[1..], x, most - 1)
  }

  /** The next step for rest after the lengths before, and how many of them it takes: the longest run that one
      step can say. */
  function NextStep(before: seq<nat>, rest: seq<nat>): (r: (LenOp, nat))
    requires rest != []
    ensures 1 <= r.1 <= |rest|
  {
    var zeros := RunOf(rest, 0, 138);
    var same := if before == [] then 0 else RunOf(rest, before[|before| - 1], 6);
    if zeros >= 11 then (Zeros11(zeros - 11), zeros)
    else if zeros >= 3 then (Zeros3(zeros - 3), zeros)
    else if same >= 3 then (Repeat(same - 3), same)
    else (Len(rest[0]), 1)
  }

  /** Steps for the lengths rest that follow the lengths before. */
  function StepsFor(before: seq<nat>, rest: seq<nat>): (ops: seq<LenOp>)
    decreases |rest|
  {
    if rest == [] then [] else
    var (op, n) := NextStep(before, rest);
    [op] + StepsFor(before + rest[..n], rest[n..])
  }

  predicate Short(lens: seq<nat>)
  {
    forall i :: 0 <= i < |lens| ==> lens[i] < 16
  }

  lemma StepTakes(before: seq<nat>, rest: seq<nat>)
    requires rest != [] && Short(rest)
    ensures
      var (op, n) := NextStep(before, rest);
      && Applies(before, op) && ApplyOp(before, op) == before + rest[..n]
      && (op.Len? ==> op.n < 16) && OpNumber(op) < Pow2(OpExtra(op))
  {
    assert Pow2(2) == 4 && Pow2(3) == 8 && Pow2(7) == 128;
    var (op, n) := NextStep(before, rest);
    assert ApplyOp(before, op)[|before|..] == rest[..n];
  }

  lemma {:induction false} StepsList(done: seq<LenOp>, rest: seq<nat>)
    requires OpsApply(done) && Short(rest)
    ensures OpsApply(done + StepsFor(LenList(done), rest))
    ensures LenList(done + StepsFor(LenList(done), rest)) == LenList(done) + rest
    decreases |rest|
  {
    hide NextStep, ApplyOp, Applies;
    var before := LenList(done);
    if rest == [] {
      assert done + StepsFor(before, rest) == done && before + rest == before;
    } else {
      var (op, n) := NextStep(before, rest);
      StepTakes(before, rest);
      var more := done + [op];
      assert more[..|done|] == done;
      StepsList(more, rest[n..]);
      assert done + StepsFor(before, rest) == more + StepsFor(before + rest[..n], rest[n..]);
      assert before + rest == before + rest[..n] + rest[n..];
    }
  }

  predicate SmallSteps(ops: seq<LenOp>)
  {
    forall i :: 0 <= i < |ops| ==> (ops[i].Len? ==> ops[i].n < 16) && OpNumber(ops[i]) < Pow2(OpExtra(ops[i]))
  }

  lemma {:induction false} StepsSmall(before: seq<nat>, rest: seq<nat>)
    requires Short(rest)
    ensures SmallSteps(StepsFor(before, rest))
    decreases |rest|
  {
    hide NextStep, ApplyOp, Applies, Pow2, OpNumber, OpExtra;
    if rest != [] {
      var (op, n) := NextStep(before, rest);
      StepTakes(before, rest);
      StepsSmall(before + rest[..n], rest[n..]);
    }
  }

  /** The steps for a list of lengths list exactly these lengths. */
  lemma RunLengthRoundTrip(lens: seq<nat>)
    requires Short(lens)
    ensures OpsApply(StepsFor([], lens)) && LenList(StepsFor([], lens)) == lens && SmallSteps(StepsFor([], lens))
  {
    StepsList([], lens);
    StepsSmall([], lens);
    assert [] + StepsFor([], lens) == StepsFor([], lens) && [] + lens == lens;
  }

  // ---------------------------------------------------------------------------
  // Headers

  /** The header for 257 to 288 literal/length codes and 1 to 32 distance codes, with the code length code cl. */
  function HeaderFor(lit: seq<nat>, dist: seq<nat>, cl: seq<nat>): (h: Header)
    requires |lit| >= 257 && |dist| >= 1
  {
    Header(|lit| - 257, |dist| - 1, cl, StepsFor([], lit + dist))
  }

  /** Every symbol of the code length alphabet has a code. */
  predicate AllCoded(cl: seq<nat>)
  {
    SmallLens(cl) && CodeLengths(Unzigzag(cl)) && forall s :: 0 <= s < 19 ==> Unzigzag(cl)[s] > 0
  }

  /** Whatever codes are declared, the header says so. */
  lemma HeaderDeclares(lit: seq<nat>, dist: seq<nat>, cl: seq<nat>)
    requires 257 <= |lit| <= 288 && 1 <= |dist| <= 32 && CodeLengths(lit) && CodeLengths(dist) && AllCoded(cl)
    ensures
      var h := HeaderFor(lit, dist, cl);
      ValidHeader(h) && h.LitLens() == lit && h.DistLens() == dist
  {
    hide LenList, OpsApply, Kraft, Unzigzag;
    var h := HeaderFor(lit, dist, cl);
    StepsDeclare(lit, dist);
    StepsCoded(h.ops, cl);
    assert (lit + dist)[..|lit|] == lit && (lit + dist)[|lit|..] == dist;
  }

  lemma StepsDeclare(lit: seq<nat>, dist: seq<nat>)
    requires CodeLengths(lit) && CodeLengths(dist)
    ensures
      var ops := StepsFor([], lit + dist);
      OpsApply(ops) && LenList(ops) == lit + dist && SmallSteps(ops)
  {
    hide Kraft, StepsFor, OpsApply, LenList;
    RunLengthRoundTrip(lit + dist);
  }

  lemma StepsCoded(ops: seq<LenOp>, cl: seq<nat>)
    requires AllCoded(cl) && SmallSteps(ops)
    ensures OpsValid(Book(Unzigzag(cl)), ops)
  {
    hide CodeLengths, CodeBits, Pow2, Unzigzag;
    forall i | 0 <= i < |ops| ensures ValidOp(Book(Unzigzag(cl)), ops[i]) {
      CodedSymbol(Unzigzag(cl), OpSymbol(ops[i]));
    }
  }

  lemma CodedSymbol(lens: seq<nat>, s: nat)
    requires s < |lens| && lens[s] > 0
    ensures HasCode(Book(lens), s)
  {
  }

  // ---------------------------------------------------------------------------
  // Whole streams

  /** Codes for a block, and tokens that use them. */
  predicate Codable(lit: seq<nat>, dist: seq<nat>, cl: seq<nat>, ts: seq<Token>)
  {
    && 257 <= |lit| <= 288 && 1 <= |dist| <= 32 && CodeLengths(lit) && CodeLengths(dist) && AllCoded(cl)
    && lit[END_OF_BLOCK] > 0 && AllEncodable(Book(lit), Book(dist), ts)
  }

  /** The steps of the code lengths, each the code of its symbol and its number. */
  function StepBits(cl: seq<nat>, ops: seq<LenOp>): seq<bool>
    requires AllCoded(cl) && SmallSteps(ops)
  {
    StepsCoded(ops, cl);
    Flatten(OpPieces(Book(Unzigzag(cl)), ops))
  }

  /** Five bits for the literal/length codes beyond 257, five for the distance codes beyond 1, four for the code
      length codes beyond 4, their lengths, and the steps. */
  function HeaderText(h: Header): seq<bool>
    requires AllCoded(h.cl) && SmallSteps(h.ops)
  {
    Bits(h.hlit, 5) + (Bits(h.hdist, 5) + (Bits(|h.cl| - 4, 4) + (Flatten(LenPieces(h.cl)) + StepBits(h.cl, h.ops))))
  }

  /** A final block of type 2: the header, the tokens, and the end. */
  function StreamBits(lit: seq<nat>, dist: seq<nat>, cl: seq<nat>, ts: seq<Token>): seq<bool>
    requires Codable(lit, dist, cl, ts)
  {
    StepsDeclare(lit, dist);
    var header := HeaderText(HeaderFor(lit, dist, cl));
    [true] + ([false, true] + (header + (Body(Book(lit), Book(dist), ts) + Book(lit)[END_OF_BLOCK])))
  }

  /** Where these bits stand, the block stands. */
  lemma BlockStands(z: seq<Byte>, p: nat, lit: seq<nat>, dist: seq<nat>, cl: seq<nat>, ts: seq<Token>)
    requires Codable(lit, dist, cl, ts) && At(z, p, StreamBits(lit, dist, cl, ts))
    ensures
      var b := Dynamic(HeaderFor(lit, dist, cl), ts);
      BlockAt(z, p, true, b) && BlockEnd(p, b) == p + |StreamBits(lit, dist, cl, ts)|
  {
    hide At, Bits, Flatten, LenPieces, Body, Book, CodeLengths, AllEncodable, AllCoded;
    hide StepsFor, HeaderBits, HeaderText, ValidHeader, StepBits, BlockEnd, Content, ValidBlock;
    var h := HeaderFor(lit, dist, cl);
    HeaderDeclares(lit, dist, cl);
    StepsDeclare(lit, dist);
    var body := Body(Book(lit), Book(dist), ts) + Book(lit)[END_OF_BLOCK];
    CodedSymbol(lit, END_OF_BLOCK);
    HeaderBitsAre(h);
    TypeTwo();
    AtConcat(z, p, [true], [false, true] + (HeaderBits(h) + body));
    AtConcat(z, p + 1, [false, true], HeaderBits(h) + body);
    DynamicContent(p, h, ts);
    EndAfter(p, Dynamic(h, ts));
  }

  lemma EndAfter(p: nat, b: Block)
    requires ValidBlock(p, b)
    ensures BlockEnd(p, b) == p + 3 + |Content(p, b)|
  {
  }

  lemma TypeTwo()
    ensures Bits(2, 2) == [false, true]
  {
  }

  lemma HeaderBitsAre(h: Header)
    requires ValidHeader(h) && AllCoded(h.cl) && SmallSteps(h.ops)
    ensures HeaderBits(h) == HeaderText(h)
  {
    hide Bits, Flatten, LenPieces, OpPieces, LenList, OpsApply, CodeLengths, Pow2;
  }

  lemma DynamicContent(p: nat, h: Header, ts: seq<Token>)
    requires ValidHeader(h) && HasCode(Book(h.LitLens()), END_OF_BLOCK)
    requires AllEncodable(Book(h.LitLens()), Book(h.DistLens()), ts)
    ensures
      var b, ll, dl := Dynamic(h, ts), Book(h.LitLens()), Book(h.DistLens());
      && ValidBlock(p, b) && Content(p, b) == HeaderBits(h) + (Body(ll, dl, ts) + ll[END_OF_BLOCK])
  {
    hide HeaderBits, Body, Book, ValidHeader;
  }

  /** A zlib stream of this block; what stands in place of the checksum does not matter. */
  function CodedStream(lit: seq<nat>, dist: seq<nat>, cl: seq<nat>, ts: seq<Token>): seq<Byte>
    requires Codable(lit, dist, cl, ts)
  {
    [0x78, 0x9c] + Packed(StreamBits(lit, dist, cl, ts)) + [0, 0]
  }

  lemma CodedDecodes(data: seq<Byte>, ts: seq<Token>, lit: seq<nat>, dist: seq<nat>, cl: seq<nat>, cap: nat)
    requires Codable(lit, dist, cl, ts) && Expandable([], ts) && Expand([], ts) == data && |data| <= cap
    ensures
      var z := CodedStream(lit, dist, cl, ts);
      ZlibHeader(z) && Decodable(z, Beginning(true), cap) && Inflates(z, 16, data) && Beginning(true).p == 16
  {
    hide At, StreamBits, Packed, Decodable, Inflates, BlockAt, BlockEnd, HeaderFor, Expand, Expandable;
    var z, bits := CodedStream(lit, dist, cl, ts), StreamBits(lit, dist, cl, ts);
    SomeBits(lit, dist, cl, ts);
    StreamStands(z, bits);
    BlockStands(z, 16, lit, dist, cl, ts);
    BlockDecodes(z, Dynamic(HeaderFor(lit, dist, cl), ts), data, cap);
  }

  lemma SomeBits(lit: seq<nat>, dist: seq<nat>, cl: seq<nat>, ts: seq<Token>)
    requires Codable(lit, dist, cl, ts)
    ensures StreamBits(lit, dist, cl, ts) != []
  {
    hide Body, Book, Flatten, LenPieces, StepBits, Bits;
  }

  /** Data in a dynamic block, under any two codes that have codes for what they use, declared by the run-length
      coder: the reader gives the data back. */
  method DynamicRoundTrip(
      data: seq<Byte>, ts: seq<Token>, lit: seq<nat>, dist: seq<nat>, cl: seq<nat>, initialSize: nat)
    returns (r: Option<seq<Byte>>)
    requires Codable(lit, dist, cl, ts) && Expandable([], ts) && Expand([], ts) == data
    requires 0 < initialSize <= UINT_MAX && |data| <= Room(initialSize)
    ensures r == Some(data)
  {
    hide *;
    var z := CodedStream(lit, dist, cl, ts);
    CodedDecodes(data, ts, lit, dist, cl, Room(initialSize));
    r := ZlibDecode(z, initialSize, true, true);
    InflatesUnique(z, 16, r.value, data);
  }

  lemma StreamStands(z: seq<Byte>, bits: seq<bool>)
    requires z == [0x78, 0x9c] + Packed(bits) + [0, 0] && bits != []
    ensures At(z, 16, bits) && ZlibHeader(z) && 16 + |bits| + 16 <= 8 * |z| && Beginning(true) == Spot(16, 2)
  {
    hide At, Packed;
    assert z[2..2 + |Packed(bits)|] == Packed(bits);
    PackedAt(z, 2, bits);
    assert z[0] == 0x78 && z[1] == 0x9c;
  }

  /** A single final block with two more bytes after it. */
  lemma BlockDecodes(z: seq<Byte>, b: Block, data: seq<Byte>, cap: nat)
    requires BlockAt(z, 16, true, b) && BlockEnd(16, b) + 16 <= 8 * |z| && !b.Stored?
    requires Expandable([], b.ts) && Expand([], b.ts) == data && |data| <= cap
    ensures Decodable(z, Spot(16, 2), cap) && Inflates(z, 16, data)
  {
    hide BlockAt, BlockEnd, Expand, Expandable;
    BlocksSnoc([], b);
    assert DeflateAt(z, 16, [], b);
    TwoBytesAfter(z, Spot(16, 2), cap, [], b);
  }
}
