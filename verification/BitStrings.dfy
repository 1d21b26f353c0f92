/** Bit strings, the numbers they denote, and byte strings read as bit strings.
    DEFLATE packs numbers starting at the least significant bit and Huffman codes
    starting at the most significant one (section 3.1.1 of RFC 1951); both views
    of a bit string are needed. */
module BitStrings {

  type Byte = b: int | 0 <= b < 256

  /** x << n. */
  function Shl(x: nat, n: nat): nat
  {
    if n == 0 then x else 2 * Shl(x, n - 1)
  }

  /** x >> n. */
  function Shr(x: nat, n: nat): nat
  {
    if n == 0 then x else Shr(x / 2, n - 1)
  }

  /** x & ((1 << n) - 1). */
  function Low(x: nat, n: nat): nat
  {
    if n == 0 then 0 else x % 2 + 2 * Low(x / 2, n - 1)
  }

  /** 1 << n. */
  function Pow2(n: nat): (r: nat)
    ensures r > 0
  {
    if n == 0 then 1 else 2 * Pow2(n - 1)
  }

  lemma Pow2Values()
    ensures Pow2(8) == 0x100 && Pow2(9) == 0x200 && Pow2(15) == 0x8000 && Pow2(16) == 0x10000
    ensures Pow2(32) == 0x1_0000_0000
  {
    assert Pow2(8) == 0x100;
    assert Pow2(16) == 2 * Pow2(15);
    assert Pow2(24) == 256 * Pow2(16);
    assert Pow2(32) == 256 * Pow2(24);
  }

  lemma SmallPowers()
    ensures Pow2(0) == 1 && Pow2(1) == 2 && Pow2(2) == 4 && Pow2(3) == 8 && Pow2(4) == 16 && Pow2(5) == 32
    ensures Pow2(6) == 64 && Pow2(7) == 128 && Pow2(8) == 256 && Pow2(9) == 512 && Pow2(10) == 1024
    ensures Pow2(11) == 2048 && Pow2(12) == 4096 && Pow2(13) == 8192
  {
    assert Pow2(4) == 16;
    assert Pow2(8) == 16 * Pow2(4);
    assert Pow2(12) == 16 * Pow2(8);
  }

  lemma {:induction false} Pow2Mono(m: nat, n: nat)
    requires m <= n
    ensures Pow2(m) <= Pow2(n)
    decreases n
  {
    if m < n { Pow2Mono(m, n - 1); }
  }

  lemma {:induction false} ShlOne(n: nat)
    ensures Shl(1, n) == Pow2(n)
  {
    if n > 0 { ShlOne(n - 1); }
  }

  lemma {:induction false} ShlAdd(x: nat, y: nat, n: nat)
    ensures Shl(x + y, n) == Shl(x, n) + Shl(y, n)
  {
    if n > 0 { ShlAdd(x, y, n - 1); }
  }

  lemma {:induction false} ShlShl(x: nat, m: nat, n: nat)
    ensures Shl(Shl(x, m), n) == Shl(x, m + n)
  {
    if n > 0 { ShlShl(x, m, n - 1); }
  }

  lemma {:induction false} ShlLess(x: nat, k: nat, n: nat)
    requires x < Pow2(k)
    ensures Shl(x, n) < Pow2(k + n)
  {
    if n > 0 { ShlLess(x, k, n - 1); }
  }

  lemma {:induction false} ShrShr(x: nat, m: nat, n: nat)
    ensures Shr(Shr(x, m), n) == Shr(x, m + n)
  {
    if m > 0 { ShrShr(x / 2, m - 1, n); }
  }

  /** Comparing after a shift down is comparing before a shift up. */
  lemma {:induction false} ShiftCompare(k: nat, u: nat, n: nat)
    ensures k < Shl(u, n) <==> Shr(k, n) < u
  {
    if n > 0 { ShiftCompare(k / 2, u, n - 1); }
  }

  /** A number is its low part and its high part. */
  lemma {:induction false} LowHigh(x: nat, n: nat)
    ensures x == Low(x, n) + Shl(Shr(x, n), n)
    ensures Low(x, n) < Pow2(n)
  {
    if n > 0 { LowHigh(x / 2, n - 1); }
  }

  lemma {:induction false} LowOf(x: nat, n: nat)
    requires x < Pow2(n)
    ensures Low(x, n) == x && Shr(x, n) == 0
  {
    if n > 0 { LowOf(x / 2, n - 1); }
  }

  lemma {:induction false} AddHigh(x: nat, h: nat, n: nat)
    ensures Low(x + Shl(h, n), n) == Low(x, n)
    ensures Shr(x + Shl(h, n), n) == Shr(x, n) + h
  {
    if n > 0 {
      var y := x + Shl(h, n);
      assert y % 2 == x % 2 && y / 2 == x / 2 + Shl(h, n - 1);
      AddHigh(x / 2, h, n - 1);
    }
  }

  /** x ^ y. */
  function Xor(x: nat, y: nat): nat
    decreases x + y
  {
    if x == 0 && y == 0 then 0 else (if x % 2 == y % 2 then 0 else 1) + 2 * Xor(x / 2, y / 2)
  }

  function Bit(b: bool): (r: nat) { if b then 1 else 0 }

  /** The number denoted by a bit string, least significant bit first. */
  function Val(s: seq<bool>): nat
  {
    if s == [] then 0 else Bit(s[0]) + 2 * Val(s[1..])
  }

  /** The n low bits of v, least significant bit first. */
  function Bits(v: nat, n: nat): (s: seq<bool>)
    ensures |s| == n
  {
    if n == 0 then [] else [v % 2 == 1] + Bits(v / 2, n - 1)
  }

  /** The number denoted by a bit string, most significant bit first. */
  function MsbVal(s: seq<bool>): nat
  {
    if s == [] then 0 else 2 * MsbVal(s[..|s| - 1]) + Bit(s[|s| - 1])
  }

  /** The n low bits of v, most significant bit first. */
  function MsbBits(v: nat, n: nat): (s: seq<bool>)
    ensures |s| == n
  {
    if n == 0 then [] else MsbBits(v / 2, n - 1) + [v % 2 == 1]
  }

  lemma {:induction false} ValBound(s: seq<bool>)
    ensures Val(s) < Pow2(|s|)
  {
    if s != [] { ValBound(s[1..]); }
  }

  lemma {:induction false} MsbValBound(s: seq<bool>)
    ensures MsbVal(s) < Pow2(|s|)
  {
    if s != [] { MsbValBound(s[..|s| - 1]); }
  }

  lemma {:induction false} ValBits(v: nat, n: nat)
    ensures Val(Bits(v, n)) == Low(v, n)
  {
    if n > 0 {
      ValBits(v / 2, n - 1);
      assert Bits(v, n)[1..] == Bits(v / 2, n - 1);
    }
  }

  lemma {:induction false} BitsVal(s: seq<bool>)
    ensures Bits(Val(s), |s|) == s
  {
    if s != [] { BitsVal(s[1..]); }
  }

  /** The last bit of a bit string is the lowest one of its number. */
  lemma MsbValLast(s: seq<bool>)
    requires s != []
    ensures MsbVal(s) == 2 * MsbVal(s[..|s| - 1]) + Bit(s[|s| - 1])
    ensures MsbVal(s) / 2 == MsbVal(s[..|s| - 1]) && (MsbVal(s) % 2 == 1 <==> s[|s| - 1])
  {
  }

  lemma {:induction false} MsbValBits(v: nat, n: nat)
    requires v < Pow2(n)
    ensures MsbVal(MsbBits(v, n)) == v
  {
    if n > 0 {
      var s := MsbBits(v, n);
      MsbValBits(v / 2, n - 1);
      assert s[..n - 1] == MsbBits(v / 2, n - 1) && s[n - 1] == (v % 2 == 1);
      MsbValLast(s);
    }
  }

  lemma {:induction false} MsbBitsVal(s: seq<bool>)
    ensures MsbBits(MsbVal(s), |s|) == s
  {
    hide MsbVal;
    if s != [] {
      var t := s[..|s| - 1];
      MsbBitsVal(t);
      MsbValLast(s);
      assert MsbBits(MsbVal(s), |s|) == MsbBits(MsbVal(t), |t|) + [s[|s| - 1]];
      assert t + [s[|s| - 1]] == s;
    }
  }

  lemma {:induction false} ValConcat(a: seq<bool>, b: seq<bool>)
    ensures Val(a + b) == Val(a) + Shl(Val(b), |a|)
  {
    if a == [] {
      assert a + b == b;
    } else {
      ValConcat(a[1..], b);
      assert (a + b)[1..] == a[1..] + b;
    }
  }

  lemma {:induction false} MsbValConcat(a: seq<bool>, b: seq<bool>)
    ensures MsbVal(a + b) == Shl(MsbVal(a), |b|) + MsbVal(b)
  {
    if b == [] {
      assert a + b == a;
    } else {
      MsbValConcat(a, b[..|b| - 1]);
      assert (a + b)[..|a + b| - 1] == a + b[..|b| - 1];
    }
  }

  /** The first bit of a bit string is the lowest one of its number. */
  lemma ValFirst(s: seq<bool>)
    requires s != []
    ensures Val(s) == Bit(s[0]) + 2 * Val(s[1..]) && Val(s) / 2 == Val(s[1..]) && Val(s) % 2 == Bit(s[0])
  {
  }

  /** Splitting a number at bit k splits its bit string. */
  lemma {:induction false} ValSplit(s: seq<bool>, k: nat)
    requires k <= |s|
    ensures Low(Val(s), k) == Val(s[..k])
    ensures Shr(Val(s), k) == Val(s[k..])
  {
    if k > 0 {
      hide Val;
      ValFirst(s);
      ValFirst(s[..k]);
      ValSplit(s[1..], k - 1);
      assert s[..k][1..] == s[1..][..k - 1];
      assert s[1..][k - 1..] == s[k..];
    }
  }

  lemma {:induction false} MsbValSplit(s: seq<bool>, k: nat)
    requires k <= |s|
    ensures Shr(MsbVal(s), |s| - k) == MsbVal(s[..k])
  {
    if k == |s| {
      assert s[..k] == s;
    } else {
      var t := s[..|s| - 1];
      MsbValSplit(t, k);
      assert t[..k] == s[..k];
      assert MsbVal(s) / 2 == MsbVal(t);
    }
  }

  lemma {:induction false} BitsPrefix(v: nat, n: nat, k: nat)
    requires k <= n
    ensures Bits(v, n)[..k] == Bits(v, k)
  {
    if k > 0 {
      BitsPrefix(v / 2, n - 1, k - 1);
      assert Bits(v, n)[..k] == [v % 2 == 1] + Bits(v / 2, n - 1)[..k - 1];
    }
  }

  /** Appending a number to a bit buffer appends its bits. */
  lemma BitsConcat(v: nat, n: nat, w: nat, m: nat)
    requires v < Pow2(n) && w < Pow2(m)
    ensures v + Shl(w, n) < Pow2(n + m)
    ensures Bits(v + Shl(w, n), n + m) == Bits(v, n) + Bits(w, m)
  {
    ValBits(v, n);
    ValBits(w, m);
    LowOf(v, n);
    LowOf(w, m);
    ValConcat(Bits(v, n), Bits(w, m));
    BitsVal(Bits(v, n) + Bits(w, m));
    ValBound(Bits(v, n) + Bits(w, m));
  }

  lemma ConcatAssoc<T>(a: seq<T>, b: seq<T>, c: seq<T>)
    ensures (a + b) + c == a + (b + c)
  {
  }

  // ---------------------------------------------------------------------------
  // Byte strings as bit strings

  /** All bits of a byte string, in stream order. */
  function ToBits(bytes: seq<Byte>): (s: seq<bool>)
    ensures |s| == 8 * |bytes|
  {
    if bytes == [] then [] else ToBits(bytes[..|bytes| - 1]) + Bits(bytes[|bytes| - 1], 8)
  }

  lemma {:induction false} ToBitsConcat(a: seq<Byte>, b: seq<Byte>)
    ensures ToBits(a + b) == ToBits(a) + ToBits(b)
  {
    if b == [] {
      assert a + b == a;
    } else {
      var b' := b[..|b| - 1];
      ToBitsConcat(a, b');
      assert (a + b)[..|a + b| - 1] == a + b';
      ConcatAssoc(ToBits(a), ToBits(b'), Bits(b[|b| - 1], 8));
    }
  }

  /** Bit p of a byte string that is followed by endless zero bytes, which is how
      the readers see their input. */
  function StreamBit(input: seq<Byte>, p: nat): bool
  {
    p / 8 < |input| && Bits(input[p / 8], 8)[p % 8]
  }

  /** The n bits from bit p on. */
  function Stream(input: seq<Byte>, p: nat, n: nat): (s: seq<bool>)
    ensures |s| == n
  {
    seq(n, i requires 0 <= i < n => StreamBit(input, p + i))
  }

  /** The bit string s stands at bit p of the input. */
  predicate At(input: seq<Byte>, p: nat, s: seq<bool>)
  {
    Stream(input, p, |s|) == s
  }

  lemma StreamSplit(input: seq<Byte>, p: nat, m: nat, n: nat)
    ensures Stream(input, p, m + n) == Stream(input, p, m) + Stream(input, p + m, n)
  {
  }

  lemma StreamTake(input: seq<Byte>, p: nat, m: nat, n: nat)
    requires m <= n
    ensures Stream(input, p, n)[..m] == Stream(input, p, m)
    ensures Stream(input, p, n)[m..] == Stream(input, p + m, n - m)
  {
  }

  lemma AtConcat(input: seq<Byte>, p: nat, a: seq<bool>, b: seq<bool>)
    ensures At(input, p, a + b) <==> At(input, p, a) && At(input, p + |a|, b)
  {
    StreamSplit(input, p, |a|, |b|);
    if At(input, p, a + b) {
      assert (a + b)[..|a|] == a && (a + b)[|a|..] == b;
    }
  }

  /** Of two bit strings standing at the same place one is a prefix of the other. */
  lemma AtPrefix(input: seq<Byte>, p: nat, a: seq<bool>, b: seq<bool>)
    requires At(input, p, a) && At(input, p, b) && |a| <= |b|
    ensures a <= b
  {
    StreamTake(input, p, |a|, |b|);
  }

  /** Several bit strings one after the other. */
  function Flatten(ps: seq<seq<bool>>): seq<bool>
  {
    if ps == [] then [] else Flatten(ps[..|ps| - 1]) + ps[|ps| - 1]
  }

  lemma {:induction false} FlattenTake(input: seq<Byte>, p: nat, ps: seq<seq<bool>>, k: nat)
    requires k <= |ps| && At(input, p, Flatten(ps))
    ensures At(input, p, Flatten(ps[..k]))
    ensures |Flatten(ps[..k])| <= |Flatten(ps)|
  {
    if k == |ps| {
      assert ps[..k] == ps;
    } else {
      var n := |ps| - 1;
      AtConcat(input, p, Flatten(ps[..n]), ps[n]);
      FlattenTake(input, p, ps[..n], k);
      assert ps[..n][..k] == ps[..k];
    }
  }

  /** The k-th of several bit strings stands after the first k. */
  lemma FlattenAt(input: seq<Byte>, p: nat, ps: seq<seq<bool>>, k: nat)
    requires k < |ps| && At(input, p, Flatten(ps))
    ensures At(input, p, Flatten(ps[..k]))
    ensures At(input, p + |Flatten(ps[..k])|, ps[k])
    ensures |Flatten(ps[..k])| + |ps[k]| <= |Flatten(ps)|
  {
    FlattenTake(input, p, ps, k + 1);
    assert ps[..k + 1][..k] == ps[..k];
    AtConcat(input, p, Flatten(ps[..k]), ps[k]);
  }

  function ByteAt(input: seq<Byte>, k: nat): (b: Byte)
  {
    if k < |input| then input[k] else 0
  }

  lemma {:induction false} BitsZero(n: nat)
    ensures Bits(0, n) == seq(n, _ => false)
  {
    if n > 0 { BitsZero(n - 1); }
  }

  /** The bits of one byte. */
  lemma StreamByte(input: seq<Byte>, k: nat)
    ensures Stream(input, 8 * k, 8) == Bits(ByteAt(input, k), 8)
    ensures Val(Stream(input, 8 * k, 8)) == ByteAt(input, k)
  {
    BitsZero(8);
    forall i | 0 <= i < 8 ensures Stream(input, 8 * k, 8)[i] == Bits(ByteAt(input, k), 8)[i] {
      assert (8 * k + i) / 8 == k && (8 * k + i) % 8 == i;
      assert Stream(input, 8 * k, 8)[i] == StreamBit(input, 8 * k + i);
    }
    ValBits(ByteAt(input, k), 8);
    LowOf(ByteAt(input, k), 8);
  }

  lemma {:induction false} StreamToBits(input: seq<Byte>, k: nat, bytes: seq<Byte>)
    requires k + |bytes| <= |input| && input[k..k + |bytes|] == bytes
    ensures At(input, 8 * k, ToBits(bytes))
  {
    if bytes != [] {
      var n := |bytes| - 1;
      assert input[k..k + n] == bytes[..n];
      StreamToBits(input, k, bytes[..n]);
      StreamByte(input, k + n);
      assert input[k + n] == bytes[n];
      AtConcat(input, 8 * k, ToBits(bytes[..n]), Bits(bytes[n], 8));
    }
  }

  /** A bit buffer that holds n bits of the stream takes in one more byte. */
  lemma AppendByte(input: seq<Byte>, p: nat, n: nat, fed: nat)
    requires p + n == 8 * fed
    ensures Val(Stream(input, p, n)) + Shl(ByteAt(input, fed), n) == Val(Stream(input, p, n + 8))
  {
    hide Val, Shl, Stream, ByteAt;
    StreamSplit(input, p, n, 8);
    StreamByte(input, fed);
    ValConcat(Stream(input, p, n), Stream(input, p + n, 8));
  }

  /** Taking n bits out of a bit buffer. */
  lemma TakeBits(input: seq<Byte>, p: nat, m: nat, n: nat)
    requires n <= m
    ensures Low(Val(Stream(input, p, m)), n) == Val(Stream(input, p, n))
    ensures Shr(Val(Stream(input, p, m)), n) == Val(Stream(input, p + n, m - n))
  {
    ValSplit(Stream(input, p, m), n);
    StreamTake(input, p, n, m);
  }

  /** One byte leaves the bit buffer. */
  lemma FlushByte(out: seq<Byte>, buf: nat, count: nat)
    requires buf < Pow2(count) && count >= 8
    ensures Low(buf, 8) < 256 && Shr(buf, 8) < Pow2(count - 8)
    ensures ToBits(out + [Low(buf, 8)]) + Bits(Shr(buf, 8), count - 8) == ToBits(out) + Bits(buf, count)
  {
    hide ToBits;
    Pow2Values();
    LowHigh(buf, 8);
    var s := Bits(buf, count);
    ValBits(buf, count);
    LowOf(buf, count);
    ValSplit(s, 8);
    ValBound(s[8..]);
    BitsVal(s[..8]);
    BitsVal(s[8..]);
    ToBitsSnoc(out, Low(buf, 8));
    assert s == s[..8] + s[8..];
    ConcatAssoc(ToBits(out), s[..8], s[8..]);
  }

  lemma ToBitsSnoc(out: seq<Byte>, b: Byte)
    ensures ToBits(out + [b]) == ToBits(out) + Bits(b, 8)
  {
    assert (out + [b])[..|out|] == out;
  }

  // ---------------------------------------------------------------------------
  // Packing

  lemma ShortVal(s: seq<bool>)
    requires |s| <= 8
    ensures Val(s) < 256
  {
    ValBound(s);
    Pow2Mono(|s|, 8);
    Pow2Values();
  }

  /** A bit string in bytes, the first bit lowest, filled up with zeros. */
  function Packed(s: seq<bool>): (bytes: seq<Byte>)
    ensures 8 * |bytes| < |s| + 8 && |s| <= 8 * |bytes|
    decreases |s|
  {
    if s == [] then []
    else if |s| <= 8 then ShortVal(s); [Val(s)]
    else ShortVal(s[..8]); [Val(s[..8])] + Packed(s[8..])
  }

  /** The bits of a byte begin with the bits that were packed into it. */
  lemma ByteBegins(input: seq<Byte>, k: nat, s: seq<bool>)
    requires |s| <= 8 && k < |input| && input[k] == Val(s)
    ensures At(input, 8 * k, s)
  {
    hide Stream, Bits, Val;
    StreamByte(input, k);
    StreamTake(input, 8 * k, |s|, 8);
    BitsPrefix(input[k], 8, |s|);
    BitsVal(s);
  }

  /** Packed bits stand where their bytes stand. */
  lemma {:induction false} PackedAt(input: seq<Byte>, k: nat, s: seq<bool>)
    requires k + |Packed(s)| <= |input| && input[k..k + |Packed(s)|] == Packed(s)
    ensures At(input, 8 * k, s)
    decreases |s|
  {
    hide Stream, Val;
    if s != [] {
      assert input[k] == input[k..k + |Packed(s)|][0];
      if |s| <= 8 {
        ByteBegins(input, k, s);
      } else {
        ByteBegins(input, k, s[..8]);
        assert input[k + 1..k + 1 + |Packed(s[8..])|] == input[k..k + |Packed(s)|][1..];
        PackedAt(input, k + 1, s[8..]);
        assert s == s[..8] + s[8..];
        AtConcat(input, 8 * k, s[..8], s[8..]);
      }
    } else {
      assert Stream(input, 8 * k, 0) == [];
    }
  }

  /** A part of what stands at k. */
  lemma PartOf<T>(z: seq<T>, k: nat, s: seq<T>, i: nat, j: nat)
    requires k + |s| <= |z| && z[k..k + |s|] == s && i <= j <= |s|
    ensures z[k + i..k + j] == s[i..j] && forall n :: 0 <= n < |s| ==> z[k + n] == s[n]
  {
    forall n | 0 <= n < |s| ensures z[k + n] == s[n] { assert z[k..k + |s|][n] == z[k + n]; }
  }
}
