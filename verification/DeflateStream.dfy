/** Blocks and whole DEFLATE streams (sections 3.2.3, 3.2.4, 3.2.6 and 3.2.7 of RFC 1951). */
module DeflateStream {
  import opened BitStrings
  import opened Canonical
  import opened DeflateFormat

  function Book(lens: seq<nat>): (book: Codebook)
    ensures |book| == |lens|
  {
    seq(|lens|, i requires 0 <= i < |lens| => if lens[i] == 0 then [] else CodeBits(lens, i))
  }

  /** Code lengths that define a code. */
  predicate CodeLengths(lens: seq<nat>)
  {
    AtMost(lens, 15) && Kraft(lens, 15)
  }

  lemma BookUnambiguous(lens: seq<nat>)
    requires CodeLengths(lens)
    ensures Unambiguous(Book(lens))
  {
    var book := Book(lens);
    forall i, j | 0 <= i < |book| && 0 <= j < |book| && book[i] != [] && book[i] <= book[j] ensures i == j {
      PrefixFree(lens, i, j, 15);
    }
  }

  // ---------------------------------------------------------------------------
  // Code lengths of a dynamic block

  /** One step of the run-length coded list of code lengths. */
  datatype LenOp = Len(n: nat) | Repeat(k: nat) | Zeros3(k: nat) | Zeros11(k: nat)

  function OpSymbol(op: LenOp): nat
  {
    match op case Len(n) => n case Repeat(_) => 16 case Zeros3(_) => 17 case Zeros11(_) => 18
  }

  function OpExtra(op: LenOp): nat
  {
    match op case Len(_) => 0 case Repeat(_) => 2 case Zeros3(_) => 3 case Zeros11(_) => 7
  }

  function OpNumber(op: LenOp): nat
  {
    match op case Len(_) => 0 case Repeat(k) => k case Zeros3(k) => k case Zeros11(k) => k
  }

  predicate ValidOp(book: Codebook, op: LenOp)
  {
    (op.Len? ==> op.n < 16) && OpNumber(op) < Pow2(OpExtra(op)) && HasCode(book, OpSymbol(op))
  }

  function OpBits(book: Codebook, op: LenOp): seq<bool>
    requires ValidOp(book, op)
  {
    book[OpSymbol(op)] + Bits(OpNumber(op), OpExtra(op))
  }

  predicate Applies(lens: seq<nat>, op: LenOp)
  {
    op.Repeat? ==> lens != []
  }

  function Fill(n: nat, x: nat): (s: seq<nat>)
    ensures |s| == n
  {
    seq(n, _ => x)
  }

  function ApplyOp(lens: seq<nat>, op: LenOp): (r: seq<nat>)
    requires Applies(lens, op)
    ensures |r| > |lens|
  {
    match op
    case Len(n) => lens + [n]
    case Repeat(k) => lens + Fill(k + 3, lens[|lens| - 1])
    case Zeros3(k) => lens + Fill(k + 3, 0)
    case Zeros11(k) => lens + Fill(k + 11, 0)
  }

  predicate OpsApply(ops: seq<LenOp>)
    decreases |ops|, 0
  {
    ops == [] || (OpsApply(ops[..|ops| - 1]) && Applies(LenList(ops[..|ops| - 1]), ops[|ops| - 1]))
  }

  /** The code lengths listed by the steps. */
  function LenList(ops: seq<LenOp>): seq<nat>
    requires OpsApply(ops)
    decreases |ops|, 1
  {
    if ops == [] then [] else ApplyOp(LenList(ops[..|ops| - 1]), ops[|ops| - 1])
  }

  /** Where the length of code length symbol s stands in the transmitted order. */
  function Position(s: nat): nat
  {
    if s >= 16 then s - 16 else if s == 0 then 3 else if s <= 7 then 19 - 2 * s else 2 * s - 12
  }

  /** The code lengths of the code length alphabet. */
  function Unzigzag(cl: seq<nat>): (r: seq<nat>)
    ensures |r| == 19
  {
    seq(19, s requires 0 <= s < 19 => if Position(s) < |cl| then cl[Position(s)] else 0)
  }

  datatype Header = Header(hlit: nat, hdist: nat, cl: seq<nat>, ops: seq<LenOp>)
  {
    function LitLens(): seq<nat>
      requires OpsApply(ops) && hlit + 257 <= |LenList(ops)|
    {
      LenList(ops)[..hlit + 257]
    }

    function DistLens(): seq<nat>
      requires OpsApply(ops) && hlit + 257 <= |LenList(ops)|
    {
      LenList(ops)[hlit + 257..]
    }
  }

  predicate OpsValid(book: Codebook, ops: seq<LenOp>)
  {
    forall i :: 0 <= i < |ops| ==> ValidOp(book, ops[i])
  }

  predicate SmallLens(cl: seq<nat>)
  {
    4 <= |cl| <= 19 && forall i :: 0 <= i < |cl| ==> cl[i] < 8
  }

  predicate ValidHeader(h: Header)
  {
    && h.hlit < 32 && h.hdist < 32 && SmallLens(h.cl)
    && CodeLengths(Unzigzag(h.cl)) && OpsValid(Book(Unzigzag(h.cl)), h.ops)
    && OpsApply(h.ops) && |LenList(h.ops)| == h.hlit + 257 + h.hdist + 1
    && CodeLengths(h.LitLens()) && CodeLengths(h.DistLens())
  }

  function LenPieces(cl: seq<nat>): (ps: seq<seq<bool>>)
    ensures |ps| == |cl|
  {
    seq(|cl|, i requires 0 <= i < |cl| => Bits(cl[i], 3))
  }

  function OpPieces(book: Codebook, ops: seq<LenOp>): (ps: seq<seq<bool>>)
    requires OpsValid(book, ops)
    ensures |ps| == |ops|
  {
    seq(|ops|, i requires 0 <= i < |ops| => OpBits(book, ops[i]))
  }

  function HeaderBits(h: Header): seq<bool>
    requires ValidHeader(h)
  {
    Bits(h.hlit, 5) + (Bits(h.hdist, 5) + (Bits(|h.cl| - 4, 4) +
      (Flatten(LenPieces(h.cl)) + Flatten(OpPieces(Book(Unzigzag(h.cl)), h.ops)))))
  }

  // ---------------------------------------------------------------------------
  // Blocks

  function FixedLength(i: nat): nat
  {
    if i < 144 then 8 else if i < 256 then 9 else if i < 280 then 7 else 8
  }

  function FixedLitLens(): (lens: seq<nat>)
    ensures |lens| == 288
  {
    seq(288, i requires 0 <= i < 288 => FixedLength(i))
  }

  function FixedDistLens(): (lens: seq<nat>)
    ensures |lens| == 32
  {
    seq(32, _ => 5)
  }

  datatype Block =
    | Stored(pad: seq<bool>, data: seq<Byte>)
    | Fixed(ts: seq<Token>)
    | Dynamic(h: Header, ts: seq<Token>)
  {
    function LitBook(): Codebook
      requires !Stored? && (Dynamic? ==> ValidHeader(h))
    {
      Book(if Fixed? then FixedLitLens() else h.LitLens())
    }

    function DistBook(): Codebook
      requires !Stored? && (Dynamic? ==> ValidHeader(h))
    {
      Book(if Fixed? then FixedDistLens() else h.DistLens())
    }
  }

  /** Padding from bit p to the next byte boundary. */
  function PadLength(p: nat): nat
  {
    (8 - p % 8) % 8
  }

  predicate ValidBlock(p: nat, b: Block)
  {
    match b
    case Stored(pad, data) => |pad| == PadLength(p + 3) && |data| < 0x10000
    case Fixed(ts) => HasCode(b.LitBook(), END_OF_BLOCK) && AllEncodable(b.LitBook(), b.DistBook(), ts)
    case Dynamic(h, ts) =>
      ValidHeader(h) && HasCode(b.LitBook(), END_OF_BLOCK) && AllEncodable(b.LitBook(), b.DistBook(), ts)
  }

  function BlockType(b: Block): nat
  {
    match b case Stored(_, _) => 0 case Fixed(_) => 1 case Dynamic(_, _) => 2
  }

  /** What follows the three header bits of a block. */
  function Content(p: nat, b: Block): seq<bool>
    requires ValidBlock(p, b)
  {
    match b
    case Stored(pad, data) => pad + (Bits(|data|, 16) + (Bits(0xffff - |data|, 16) + ToBits(data)))
    case Fixed(ts) => Body(b.LitBook(), b.DistBook(), ts) + b.LitBook()[END_OF_BLOCK]
    case Dynamic(h, ts) => HeaderBits(h) + (Body(b.LitBook(), b.DistBook(), ts) + b.LitBook()[END_OF_BLOCK])
  }

  /** Block b, marked final or not, stands at bit p. */
  predicate BlockAt(input: seq<Byte>, p: nat, final: bool, b: Block)
  {
    && ValidBlock(p, b)
    && At(input, p, [final])
    && At(input, p + 1, Bits(BlockType(b), 2))
    && At(input, p + 3, Content(p, b))
  }

  function BlockEnd(p: nat, b: Block): nat
    requires ValidBlock(p, b)
  {
    p + 3 + |Content(p, b)|
  }

  predicate Produces(out: seq<Byte>, b: Block)
  {
    b.Stored? || Expandable(out, b.ts)
  }

  /** The output after a block. */
  function BlockOutput(out: seq<Byte>, b: Block): seq<Byte>
    requires Produces(out, b)
  {
    if b.Stored? then out + b.data else Expand(out, b.ts)
  }

  // ---------------------------------------------------------------------------
  // Streams

  /** The blocks, none of them marked final, stand one after the other from bit p on. */
  predicate BlocksAt(input: seq<Byte>, p: nat, bs: seq<Block>)
    decreases |bs|, 0
  {
    bs == [] ||
    (var init := bs[..|bs| - 1];
     BlocksAt(input, p, init) && BlockAt(input, BlocksEnd(input, p, init), false, bs[|bs| - 1]))
  }

  function BlocksEnd(input: seq<Byte>, p: nat, bs: seq<Block>): nat
    requires BlocksAt(input, p, bs)
    decreases |bs|, 1
  {
    if bs == [] then p else BlockEnd(BlocksEnd(input, p, bs[..|bs| - 1]), bs[|bs| - 1])
  }

  predicate BlocksProduce(bs: seq<Block>)
    decreases |bs|, 0
  {
    bs == [] ||
    (BlocksProduce(bs[..|bs| - 1]) && Produces(BlocksOutput(bs[..|bs| - 1]), bs[|bs| - 1]))
  }

  function BlocksOutput(bs: seq<Block>): seq<Byte>
    requires BlocksProduce(bs)
    decreases |bs|, 1
  {
    if bs == [] then [] else BlockOutput(BlocksOutput(bs[..|bs| - 1]), bs[|bs| - 1])
  }

  /** A complete DEFLATE stream stands at bit p: some blocks, then a final block. */
  predicate DeflateAt(input: seq<Byte>, p: nat, bs: seq<Block>, last: Block)
  {
    BlocksAt(input, p, bs) && BlockAt(input, BlocksEnd(input, p, bs), true, last)
  }
}
