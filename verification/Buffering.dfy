/** How the zlib reader fills its code buffer. Bits are taken in three ways, and only the bits taken so far
    decide how many bytes are buffered. Decoding a symbol wants 16 bits and fails when it has fewer and all of
    the input is buffered; receiving a number fills up with zeros instead. */
module Buffering {
  import opened Wrappers

  /** Bits used and bytes buffered, counting the zeros after the end. */
  datatype Spot = Spot(p: nat, fed: nat)

  /** A Huffman code of n bits, a number of n bits, or n bytes from the next byte boundary on. */
  datatype Take = Huffman(n: nat) | Number(n: nat) | Aligned(n: nat)

  function Held(s: Spot): int
  {
    8 * s.fed - s.p
  }

  /** The bytes buffered when n bits have been asked for: a refill goes on beyond 24 bits. */
  function Filled(s: Spot, n: nat): nat
  {
    if Held(s) < n then (s.p + 32) / 8 else s.fed
  }

  /** Fewer than 16 bits are buffered and none of the size bytes of input are left. */
  predicate Starved(size: nat, s: Spot)
  {
    Held(s) < 16 && s.fed >= size
  }

  function After(size: nat, s: Spot, t: Take): Option<Spot>
  {
    match t
    case Huffman(n) => if Starved(size, s) then None else Some(Spot(s.p + n, Filled(s, 16)))
    case Number(n) => Some(Spot(s.p + n, Filled(s, n)))
    case Aligned(n) => var k := (s.p + 7) / 8 + n; if k > size then None else Some(Spot(8 * k, k))
  }

  /** Several takes in a row. */
  function Run(size: nat, s: Spot, ts: seq<Take>): Option<Spot>
  {
    if ts == [] then Some(s) else
    match Run(size, s, ts[..|ts| - 1])
    case None => None
    case Some(m) => After(size, m, ts[|ts| - 1])
  }

  lemma {:induction false} RunConcat(size: nat, s: Spot, a: seq<Take>, b: seq<Take>)
    ensures Run(size, s, a + b) == match Run(size, s, a) case None => None case Some(m) => Run(size, m, b)
  {
    hide After;
    if b == [] {
      assert a + b == a;
    } else {
      var n := |b| - 1;
      RunConcat(size, s, a, b[..n]);
      assert (a + b)[..|a + b| - 1] == a + b[..n] && (a + b)[|a + b| - 1] == b[n];
    }
  }

  lemma RunOne(size: nat, s: Spot, t: Take)
    ensures Run(size, s, [t]) == After(size, s, t)
  {
    assert [t][..0] == [];
  }

  lemma RunTwo(size: nat, s: Spot, t: Take, u: Take)
    ensures Run(size, s, [t, u]) == match After(size, s, t) case None => None case Some(m) => After(size, m, u)
  {
    assert [t, u][..1] == [t];
    RunOne(size, s, t);
  }

  /** Receiving no bits changes nothing. */
  lemma NoNumber(size: nat, s: Spot)
    requires Held(s) >= 0
    ensures After(size, s, Number(0)) == Some(s)
  {
  }

  /** A reader that is starved takes no symbol. */
  lemma StarvedFails(size: nat, s: Spot, ts: seq<Take>)
    requires ts != [] && ts[0].Huffman? && Starved(size, s)
    ensures Run(size, s, ts) == None
  {
    assert ts == [ts[0]] + ts[1..];
    RunConcat(size, s, [ts[0]], ts[1..]);
    RunOne(size, s, ts[0]);
  }

  /** While enough bits are held no byte is buffered. */
  lemma HeldTakes(size: nat, s: Spot, n: nat)
    ensures Held(s) >= n ==> After(size, s, Number(n)) == Some(Spot(s.p + n, s.fed))
    ensures Held(s) >= 16 ==> After(size, s, Huffman(n)) == Some(Spot(s.p + n, s.fed))
    ensures Starved(size, s) ==> After(size, s, Huffman(n)) == None
  {
  }

  lemma KeptBytes(size: nat, s: Spot, n: nat)
    requires Held(s) >= n
    ensures After(size, s, Number(n)) == Some(Spot(s.p + n, s.fed))
  {
  }

  /** The first number fills the buffer with four bytes. */
  lemma FirstNumber(size: nat, k: nat, n: nat)
    requires n > 0
    ensures After(size, Spot(8 * k, k), Number(n)) == Some(Spot(8 * k + n, k + 4))
  {
  }

  // ---------------------------------------------------------------------------
  // Where it ends

  function EndOf(p: nat, ts: seq<Take>): nat
  {
    if ts == [] then p else
    NextEnd(EndOf(p, ts[..|ts| - 1]), ts[|ts| - 1])
  }

  function NextEnd(p: nat, t: Take): nat
  {
    if t.Aligned? then 8 * ((p + 7) / 8 + t.n) else p + t.n
  }

  lemma {:induction false} EndOfConcat(p: nat, a: seq<Take>, b: seq<Take>)
    ensures EndOf(p, a + b) == EndOf(EndOf(p, a), b)
  {
    hide NextEnd;
    if b == [] {
      assert a + b == a;
    } else {
      var n := |b| - 1;
      EndOfConcat(p, a, b[..n]);
      assert (a + b)[..|a + b| - 1] == a + b[..n] && (a + b)[|a + b| - 1] == b[n];
    }
  }

  lemma EndOfOne(p: nat, t: Take)
    ensures EndOf(p, [t]) == if t.Aligned? then 8 * ((p + 7) / 8 + t.n) else p + t.n
  {
    assert [t][..0] == [];
  }

  /** With two more bytes of input after the last bit every run succeeds. */
  lemma {:induction false} EnoughInput(size: nat, s: Spot, ts: seq<Take>)
    requires EndOf(s.p, ts) + 16 <= 8 * size
    ensures Run(size, s, ts).Some? && Run(size, s, ts).value.p == EndOf(s.p, ts)
  {
    if ts != [] {
      EnoughInput(size, s, ts[..|ts| - 1]);
    }
  }
}
