/** The Adler-32 checksum: section 8.2 of RFC 1950 and the blocked loop of stbi_zlib_compress. */
module Adler32 {
  import opened BitStrings

  const BASE := 65521
  const BLOCK := 5552
  const UINT32 := 0x1_0000_0000

  datatype Sums = Sums(s1: nat, s2: nat)

  /** The definition: both sums are reduced after every byte. */
  function Adler(data: seq<Byte>): Sums
  {
    if data == [] then Sums(1, 0)
    else
      var a := Adler(data[..|data| - 1]);
      var s1 := (a.s1 + data[|data| - 1]) % BASE;
      Sums(s1, (a.s2 + s1) % BASE)
  }

  function Sum(data: seq<Byte>): nat
  {
    if data == [] then 0 else data[0] + Sum(data[1..])
  }

  /** The first byte counts |data| times, the last one once. */
  function Weighted(data: seq<Byte>): nat
  {
    if data == [] then 0 else |data| * data[0] + Weighted(data[1..])
  }

  lemma {:induction false} SumSnoc(data: seq<Byte>, x: Byte)
    ensures Sum(data + [x]) == Sum(data) + x && Weighted(data + [x]) == Weighted(data) + Sum(data) + x
  {
    if data == [] {
      assert data + [x] == [x];
    } else {
      SumSnoc(data[1..], x);
      assert (data + [x])[1..] == data[1..] + [x];
      assert (|data| + 1) * data[0] == |data| * data[0] + data[0];
    }
  }

  /** RFC 1950: s1 is one more than the sum of the bytes and s2 the sum of all values of s1, both modulo 65521. */
  lemma {:induction false} AdlerClosed(data: seq<Byte>)
    ensures Adler(data).s1 == (1 + Sum(data)) % 65521
    ensures Adler(data).s2 == (|data| + Weighted(data)) % 65521
  {
    if data != [] {
      var n := |data| - 1;
      var init, x := data[..n], data[n];
      AdlerClosed(init);
      SumSnoc(init, x);
      assert data == init + [x];
      ReduceFirst(1 + Sum(init), x);
      ReduceFirst(n + Weighted(init), (1 + Sum(data)) % BASE);
      ReduceFirst(1 + Sum(data), n + Weighted(init));
    }
  }

  /** The trailer as a number, most significant byte first, is s2 * 65536 + s1. */
  lemma TrailerValue(data: seq<Byte>)
    ensures
      var t := Trailer(data);
      t[0] as int * 0x100_0000 + t[1] as int * 0x1_0000 + t[2] as int * 0x100 + t[3]
        == (|data| + Weighted(data)) % 65521 * 0x1_0000 + (1 + Sum(data)) % 65521
  {
    hide Adler;
    AdlerClosed(data);
    AdlerBound(data);
  }

  /** The trailer: s2 and s1, high byte first. */
  function Trailer(data: seq<Byte>): (t: seq<Byte>)
    ensures |t| == 4
  {
    var a := Adler(data);
    AdlerBound(data);
    [a.s2 / 256, a.s2 % 256, a.s1 / 256, a.s1 % 256]
  }

  lemma {:induction false} AdlerBound(data: seq<Byte>)
    ensures Adler(data).s1 < BASE && Adler(data).s2 < BASE
  {
  }

  /** The largest the running sums can be after n bytes of a block. */
  function Most1(n: nat): nat { BASE - 1 + 255 * n }

  function Most2(n: nat): nat
  {
    if n == 0 then BASE - 1 else Most2(n - 1) + Most1(n)
  }

  /** Twice Most2 in closed form. */
  lemma {:induction false} Most2Closed(n: nat)
    ensures 2 * Most2(n) == 2 * (BASE - 1) * (n + 1) + 255 * (n * (n + 1))
  {
    if n > 0 {
      Most2Closed(n - 1);
      assert n * (n + 1) == (n - 1) * n + 2 * n;
    }
  }

  lemma {:induction false} Most2Mono(m: nat, n: nat)
    requires m <= n
    ensures Most2(m) <= Most2(n)
    decreases n
  {
    if m < n { Most2Mono(m, n - 1); }
  }

  /** No overflow of 32 bits within a block: the bound that fixes the block size. */
  lemma BlockFits(n: nat)
    requires n <= BLOCK
    ensures Most1(n) < UINT32 && Most2(n) < UINT32
  {
    Most2Mono(n, BLOCK);
    Most2Closed(BLOCK);
  }

  /** A remainder may be taken before an addition. */
  lemma ReduceFirst(a: nat, b: nat)
    ensures (a % BASE + b) % BASE == (a + b) % BASE
  {
    var q, r := a / BASE, a % BASE;
    SameRemainder(r + b, q);
  }

  lemma {:induction false} SameRemainder(x: nat, q: nat)
    ensures (x + BASE * q) % BASE == x % BASE
  {
    if q > 0 {
      SameRemainder(x, q - 1);
      assert x + BASE * q == BASE + (x + BASE * (q - 1));
    }
  }

  /** Reducing later gives the same remainders. */
  lemma SumStep(data: seq<Byte>, k: nat, s1: nat, s2: nat)
    requires k < |data| && Sums(s1 % BASE, s2 % BASE) == Adler(data[..k])
    ensures var t1 := s1 + data[k]; Sums(t1 % BASE, (s2 + t1) % BASE) == Adler(data[..k + 1])
  {
    assert data[..k + 1][..k] == data[..k];
    ReduceFirst(s1, data[k]);
    ReduceFirst(s2, (s1 + data[k]) % BASE);
    ReduceFirst(s1 + data[k], s2);
  }

  /** The deferred-modulo loop: it terminates also when the first block is empty, its unsigned
      sums never wrap, and it computes the definition's sums for every length. */
  method ComputeAdler(data: seq<Byte>) returns (a: Sums)
    ensures a == Adler(data)
  {
    var s1: nat, s2: nat := 1, 0;
    var blocklen: nat := |data| % BLOCK;
    var j: nat := 0;
    ghost var left := |data| / BLOCK;
    assert data[..0] == [];
    while j < |data|
      invariant 0 <= j <= |data| && (j < |data| ==> j + blocklen <= |data|)
      invariant blocklen <= BLOCK && (j < |data| ==> |data| - j - blocklen == BLOCK * left)
      invariant s1 < BASE && s2 < BASE && Sums(s1, s2) == Adler(data[..j])
      decreases |data| - j, if blocklen == 0 then 1 else 0
    {
      s1, s2 := SumBlock(data, j, blocklen, s1, s2);
      s1 := s1 % BASE;
      s2 := s2 % BASE;
      j := j + blocklen;
      blocklen := BLOCK;
      left := left - 1;
    }
    assert data[..|data|] == data;
    a := Sums(s1, s2);
  }

  method SumBlock(data: seq<Byte>, j: nat, n: nat, t1: nat, t2: nat) returns (s1: nat, s2: nat)
    requires j + n <= |data| && n <= BLOCK && t1 < BASE && t2 < BASE
    requires Sums(t1, t2) == Adler(data[..j])
    ensures s1 < UINT32 && s2 < UINT32
    ensures Sums(s1 % BASE, s2 % BASE) == Adler(data[..j + n])
  {
    hide Adler;
    s1, s2 := t1, t2;
    for i := 0 to n
      invariant s1 <= Most1(i) && s2 <= Most2(i)
      invariant Sums(s1 % BASE, s2 % BASE) == Adler(data[..j + i])
    {
      BlockFits(i + 1);
      SumStep(data, j + i, s1, s2);
      s1 := s1 + data[j + i];
      s2 := s2 + s1;
      assert s1 < UINT32 && s2 < UINT32;
    }
    BlockFits(n);
  }
}
