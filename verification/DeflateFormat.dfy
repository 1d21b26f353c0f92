/** The DEFLATE compressed data format (RFC 1951), stated by what a writer may
    emit: blocks, tokens and the bits that stand for them. The format is shown to be
    unambiguous, so that reading is a function of the stream. */
module DeflateFormat {
  import opened BitStrings

  /** The extra bits of length symbol 257 + s (section 3.2.5). */
  function LengthExtra(s: nat): nat
  {
    if s < 8 || s >= 28 then 0 else s / 4 - 1
  }

  /** The smallest length of length symbol 257 + s. */
  function LengthBase(s: nat): nat
  {
    if s < 8 then 3 + s else if s >= 28 then 258 else 3 + Shl(4 + s % 4, s / 4 - 1)
  }

  /** The extra bits of distance symbol s. */
  function DistExtra(s: nat): nat
  {
    if s < 4 then 0 else s / 2 - 1
  }

  /** The smallest distance of distance symbol s. */
  function DistBase(s: nat): nat
  {
    if s < 4 then 1 + s else 1 + Shl(2 + s % 2, s / 2 - 1)
  }

  const END_OF_BLOCK := 256

  // ---------------------------------------------------------------------------
  // Tokens

  /** A literal byte, or a copy given by its length symbol (minus 257), its distance
      symbol and the numbers in their extra bits. */
  datatype Token = Literal(b: Byte) | Match(ls: nat, le: nat, ds: nat, de: nat)

  /** A codebook gives the code of every symbol, the empty string for unused symbols. */
  type Codebook = seq<seq<bool>>

  predicate HasCode(book: Codebook, i: nat)
  {
    i < |book| && book[i] != []
  }

  /** No code is a prefix of another. */
  predicate Unambiguous(book: Codebook)
  {
    forall i, j :: 0 <= i < |book| && 0 <= j < |book| && book[i] != [] && book[i] <= book[j] ==> i == j
  }

  predicate WellFormed(t: Token)
  {
    t.Match? ==>
      t.ls < 29 && t.le < Pow2(LengthExtra(t.ls)) && t.ds < 30 && t.de < Pow2(DistExtra(t.ds))
  }

  function Length(t: Token): nat
    requires t.Match? && WellFormed(t)
  {
    LengthBase(t.ls) + t.le
  }

  function Distance(t: Token): nat
    requires t.Match? && WellFormed(t)
  {
    DistBase(t.ds) + t.de
  }

  function Symbol(t: Token): nat
  {
    if t.Literal? then t.b else 257 + t.ls
  }

  /** The two codes can express the token. */
  predicate Encodable(ll: Codebook, dl: Codebook, t: Token)
  {
    WellFormed(t) && HasCode(ll, Symbol(t)) && (t.Match? ==> HasCode(dl, t.ds))
  }

  function TokenBits(ll: Codebook, dl: Codebook, t: Token): seq<bool>
    requires Encodable(ll, dl, t)
  {
    ll[Symbol(t)] +
    if t.Literal? then []
    else Bits(t.le, LengthExtra(t.ls)) + (dl[t.ds] + Bits(t.de, DistExtra(t.ds)))
  }

  predicate AllEncodable(ll: Codebook, dl: Codebook, ts: seq<Token>)
  {
    forall i :: 0 <= i < |ts| ==> Encodable(ll, dl, ts[i])
  }

  function Pieces(ll: Codebook, dl: Codebook, ts: seq<Token>): (ps: seq<seq<bool>>)
    requires AllEncodable(ll, dl, ts)
    ensures |ps| == |ts|
  {
    seq(|ts|, i requires 0 <= i < |ts| => TokenBits(ll, dl, ts[i]))
  }

  function Body(ll: Codebook, dl: Codebook, ts: seq<Token>): seq<bool>
    requires AllEncodable(ll, dl, ts)
  {
    Flatten(Pieces(ll, dl, ts))
  }

  lemma BodySnoc(ll: Codebook, dl: Codebook, ts: seq<Token>, t: Token)
    requires AllEncodable(ll, dl, ts) && Encodable(ll, dl, t)
    ensures AllEncodable(ll, dl, ts + [t])
    ensures Body(ll, dl, ts + [t]) == Body(ll, dl, ts) + TokenBits(ll, dl, t)
  {
    var ps := Pieces(ll, dl, ts + [t]);
    assert ps[..|ts|] == Pieces(ll, dl, ts);
  }

  // ---------------------------------------------------------------------------
  // What tokens stand for

  /** Appends n bytes, each a copy of the byte d places before it. */
  function Copy(out: seq<Byte>, d: nat, n: nat): (r: seq<Byte>)
    requires 1 <= d <= |out|
    ensures |r| == |out| + n
    decreases n
  {
    if n == 0 then out else Copy(out + [out[|out| - d]], d, n - 1)
  }

  predicate Reaches(out: seq<Byte>, t: Token)
  {
    WellFormed(t) && (t.Match? ==> 1 <= Distance(t) <= |out|)
  }

  function Emit(out: seq<Byte>, t: Token): (r: seq<Byte>)
    requires Reaches(out, t)
    ensures |r| >= |out|
  {
    if t.Literal? then out + [t.b] else Copy(out, Distance(t), Length(t))
  }

  /** No copy reaches back before the start of the output. */
  predicate Expandable(out: seq<Byte>, ts: seq<Token>)
    decreases |ts|, 0
  {
    ts == [] ||
    (Expandable(out, ts[..|ts| - 1]) && Reaches(Expand(out, ts[..|ts| - 1]), ts[|ts| - 1]))
  }

  function Expand(out: seq<Byte>, ts: seq<Token>): (r: seq<Byte>)
    requires Expandable(out, ts)
    decreases |ts|, 1
  {
    if ts == [] then out else Emit(Expand(out, ts[..|ts| - 1]), ts[|ts| - 1])
  }

  // ---------------------------------------------------------------------------
  // Unambiguity of one block body

  /** At most one symbol's code stands at a place. */
  lemma CodeUnique(input: seq<Byte>, p: nat, book: Codebook, i: nat, j: nat)
    requires Unambiguous(book) && HasCode(book, i) && HasCode(book, j)
    requires At(input, p, book[i]) && At(input, p, book[j])
    ensures i == j
  {
    if |book[i]| <= |book[j]| {
      AtPrefix(input, p, book[i], book[j]);
    } else {
      AtPrefix(input, p, book[j], book[i]);
    }
  }

  lemma NumberUnique(input: seq<Byte>, p: nat, x: nat, y: nat, n: nat)
    requires x < Pow2(n) && y < Pow2(n)
    requires At(input, p, Bits(x, n)) && At(input, p, Bits(y, n))
    ensures x == y
  {
    ValBits(x, n);
    ValBits(y, n);
    LowOf(x, n);
    LowOf(y, n);
  }

  lemma NumberAt(input: seq<Byte>, p: nat, n: nat)
    ensures At(input, p, Bits(Val(Stream(input, p, n)), n))
    ensures Val(Stream(input, p, n)) < Pow2(n)
  {
    BitsVal(Stream(input, p, n));
    ValBound(Stream(input, p, n));
  }

  /** The places of the parts of a match. */
  lemma MatchAt(input: seq<Byte>, p: nat, ll: Codebook, dl: Codebook, t: Token)
    requires Encodable(ll, dl, t) && t.Match?
    ensures var p1 := p + |ll[Symbol(t)]|;
            var p2 := p1 + LengthExtra(t.ls);
            var p3 := p2 + |dl[t.ds]|;
            && |TokenBits(ll, dl, t)| == |ll[Symbol(t)]| + LengthExtra(t.ls) + |dl[t.ds]| + DistExtra(t.ds)
            && (At(input, p, TokenBits(ll, dl, t)) <==>
                 && At(input, p, ll[Symbol(t)])
                 && At(input, p1, Bits(t.le, LengthExtra(t.ls)))
                 && At(input, p2, dl[t.ds])
                 && At(input, p3, Bits(t.de, DistExtra(t.ds))))
  {
    hide At;
    var a, b := ll[Symbol(t)], Bits(t.le, LengthExtra(t.ls));
    var c, d := dl[t.ds], Bits(t.de, DistExtra(t.ds));
    AtConcat(input, p, a, b + (c + d));
    AtConcat(input, p + |a|, b, c + d);
    AtConcat(input, p + |a| + |b|, c, d);
  }

  lemma LiteralAt(input: seq<Byte>, p: nat, ll: Codebook, dl: Codebook, t: Token)
    requires Encodable(ll, dl, t)
    requires At(input, p, TokenBits(ll, dl, t))
    ensures At(input, p, ll[Symbol(t)])
  {
    if t.Match? {
      MatchAt(input, p, ll, dl, t);
    } else {
      assert TokenBits(ll, dl, t) == ll[Symbol(t)];
    }
  }

  /** At most one token stands at a place. */
  lemma TokenUnique(input: seq<Byte>, p: nat, ll: Codebook, dl: Codebook, t: Token, u: Token)
    requires Unambiguous(ll) && Unambiguous(dl) && Encodable(ll, dl, t) && Encodable(ll, dl, u)
    requires At(input, p, TokenBits(ll, dl, t)) && At(input, p, TokenBits(ll, dl, u))
    ensures t == u
  {
    hide At;
    LiteralAt(input, p, ll, dl, t);
    LiteralAt(input, p, ll, dl, u);
    CodeUnique(input, p, ll, Symbol(t), Symbol(u));
    if t.Match? {
      MatchAt(input, p, ll, dl, t);
      MatchAt(input, p, ll, dl, u);
      var p1 := p + |ll[Symbol(t)]|;
      NumberUnique(input, p1, t.le, u.le, LengthExtra(t.ls));
      var p2 := p1 + LengthExtra(t.ls);
      CodeUnique(input, p2, dl, t.ds, u.ds);
      NumberUnique(input, p2 + |dl[t.ds]|, t.de, u.de, DistExtra(t.ds));
    }
  }

  /** The tokens and the end-of-block symbol stand at bit p. */
  predicate BodyAt(input: seq<Byte>, p: nat, ll: Codebook, dl: Codebook, ts: seq<Token>)
  {
    && HasCode(ll, END_OF_BLOCK) && AllEncodable(ll, dl, ts)
    && At(input, p, Body(ll, dl, ts) + ll[END_OF_BLOCK])
  }

  function BodyEnd(p: nat, ll: Codebook, dl: Codebook, ts: seq<Token>): nat
    requires HasCode(ll, END_OF_BLOCK) && AllEncodable(ll, dl, ts)
  {
    p + |Body(ll, dl, ts)| + |ll[END_OF_BLOCK]|
  }

  /** At bit q stands token n of the body, or the end of the block after the last one. */
  predicate NextAt(input: seq<Byte>, q: nat, ll: Codebook, dl: Codebook, ts: seq<Token>, n: nat)
  {
    && HasCode(ll, END_OF_BLOCK) && n <= |ts|
    && if n < |ts| then Encodable(ll, dl, ts[n]) && At(input, q, TokenBits(ll, dl, ts[n]))
       else At(input, q, ll[END_OF_BLOCK])
  }

  /** What follows the first k tokens of a body: the next token, or the end of the block. */
  lemma BodyNext(input: seq<Byte>, p: nat, ll: Codebook, dl: Codebook, ts: seq<Token>, k: nat)
    requires BodyAt(input, p, ll, dl, ts) && k <= |ts|
    ensures AllEncodable(ll, dl, ts[..k])
    ensures var q := p + |Body(ll, dl, ts[..k])|;
            && q + |ll[END_OF_BLOCK]| <= BodyEnd(p, ll, dl, ts)
            && At(input, p, Body(ll, dl, ts[..k]))
            && NextAt(input, q, ll, dl, ts, k)
  {
    hide At;
    AtConcat(input, p, Body(ll, dl, ts), ll[END_OF_BLOCK]);
    var ps := Pieces(ll, dl, ts);
    assert ps[..k] == Pieces(ll, dl, ts[..k]);
    if k == |ts| {
      assert ts[..k] == ts;
    } else {
      FlattenAt(input, p, ps, k);
    }
  }

  /** Tokens that stand where a complete body stands are the beginning of that body. */
  lemma {:induction false} BodyPrefix(input: seq<Byte>, p: nat, ll: Codebook, dl: Codebook,
                                      ts: seq<Token>, us: seq<Token>)
    requires Unambiguous(ll) && Unambiguous(dl) && AllEncodable(ll, dl, ts) && At(input, p, Body(ll, dl, ts))
    requires BodyAt(input, p, ll, dl, us)
    ensures ts <= us
  {
    hide At;
    if ts != [] {
      var n := |ts| - 1;
      var t := ts[n];
      assert ts == ts[..n] + [t];
      BodySnoc(ll, dl, ts[..n], t);
      AtConcat(input, p, Body(ll, dl, ts[..n]), TokenBits(ll, dl, t));
      BodyPrefix(input, p, ll, dl, ts[..n], us);
      assert us[..n] == ts[..n];
      BodyNext(input, p, ll, dl, us, n);
      NextToken(input, p + |Body(ll, dl, ts[..n])|, ll, dl, t, us, n);
    }
  }

  lemma NextToken(input: seq<Byte>, q: nat, ll: Codebook, dl: Codebook, t: Token, us: seq<Token>, n: nat)
    requires Unambiguous(ll) && Unambiguous(dl) && Encodable(ll, dl, t) && At(input, q, TokenBits(ll, dl, t))
    requires NextAt(input, q, ll, dl, us, n)
    ensures n < |us| && us[n] == t
  {
    if n < |us| {
      TokenUnique(input, q, ll, dl, t, us[n]);
    } else {
      LiteralAt(input, q, ll, dl, t);
      CodeUnique(input, q, ll, Symbol(t), END_OF_BLOCK);
    }
  }

  /** A block body is determined by the bits it begins at. */
  lemma BodyUnique(input: seq<Byte>, p: nat, ll: Codebook, dl: Codebook, ts: seq<Token>, us: seq<Token>)
    requires Unambiguous(ll) && Unambiguous(dl) && BodyAt(input, p, ll, dl, ts) && BodyAt(input, p, ll, dl, us)
    ensures ts == us
  {
    BodyNext(input, p, ll, dl, ts, |ts|);
    BodyNext(input, p, ll, dl, us, |us|);
    assert ts[..|ts|] == ts && us[..|us|] == us;
    BodyPrefix(input, p, ll, dl, ts, us);
    BodyPrefix(input, p, ll, dl, us, ts);
  }

  lemma {:induction false} ExpandPrefix(out: seq<Byte>, ts: seq<Token>, k: nat)
    requires Expandable(out, ts) && k <= |ts|
    ensures Expandable(out, ts[..k])
    ensures |out| <= |Expand(out, ts[..k])| <= |Expand(out, ts)|
    ensures k < |ts| ==> Reaches(Expand(out, ts[..k]), ts[k])
                         && |Emit(Expand(out, ts[..k]), ts[k])| <= |Expand(out, ts)|
  {
    var n := |ts| - 1;
    if k == |ts| {
      assert ts[..k] == ts;
      if ts != [] { ExpandPrefix(out, ts[..n], n); assert ts[..n][..n] == ts[..n]; }
    } else {
      ExpandPrefix(out, ts[..n], k);
      assert ts[..n][..k] == ts[..k];
    }
  }
}
