/** Bits and bytes of a JPEG scan: bits are packed from the most significant end of each byte, a
    data byte 0xFF is followed by a stuffed zero, and any other byte after 0xFF is a marker that
    ends the data (section B.1.1.5 of ITU-T T.81). */
module JpegBits {
  import opened BitStrings

  function Zeros(n: nat): (s: seq<bool>)
    ensures |s| == n
  {
    seq(n, _ => false)
  }

  // ---------------------------------------------------------------------------
  // Shift registers: a register of |s| bits holds the number MsbVal(s)

  lemma {:induction false} MsbValZeros(n: nat)
    ensures MsbVal(Zeros(n)) == 0
  {
    if n > 0 {
      MsbValZeros(n - 1);
      assert Zeros(n)[..n - 1] == Zeros(n - 1);
    }
  }

  lemma MsbValPad(s: seq<bool>, n: nat)
    ensures MsbVal(s + Zeros(n)) == Shl(MsbVal(s), n)
  {
    MsbValZeros(n);
    MsbValConcat(s, Zeros(n));
  }

  /** Shifting a register left drops its first k bits. */
  lemma ShiftOut(s: seq<bool>, k: nat)
    requires k <= |s|
    ensures Low(Shl(MsbVal(s), k), |s|) == MsbVal(s[k..] + Zeros(k))
  {
    hide Low, Shl, MsbVal, Zeros, Pow2;
    var a, b := s[..k], s[k..];
    assert s == a + b;
    MsbValConcat(a, b);
    ShlAdd(Shl(MsbVal(a), |b|), MsbVal(b), k);
    ShlShl(MsbVal(a), |b|, k);
    MsbValBound(b);
    ShlLess(MsbVal(b), |b|, k);
    AddHigh(Shl(MsbVal(b), k), MsbVal(a), |s|);
    LowOf(Shl(MsbVal(b), k), |s|);
    MsbValPad(b, k);
  }

  // ---------------------------------------------------------------------------
  // Packing

  /** The byte with the bits of b in opposite order. */
  function Reversed(b: Byte): (r: Byte)
  {
    ReversedRange(b);
    Val(MsbBits(b, 8))
  }

  lemma ReversedRange(b: Byte)
    ensures Val(MsbBits(b, 8)) < 256
  {
    ValBound(MsbBits(b, 8));
    Pow2Values();
  }

  /** Bytes as the bit-stream functions see them: with their first bit lowest. */
  function Mirror(bytes: seq<Byte>): (r: seq<Byte>)
    ensures |r| == |bytes|
  {
    seq(|bytes|, i requires 0 <= i < |bytes| => Reversed(bytes[i]))
  }

  /** All bits of a byte string, each byte from its most significant bit on. */
  function MsbToBits(bytes: seq<Byte>): (s: seq<bool>)
    ensures |s| == 8 * |bytes|
  {
    if bytes == [] then [] else MsbToBits(bytes[..|bytes| - 1]) + MsbBits(bytes[|bytes| - 1], 8)
  }

  lemma MirrorByte(bytes: seq<Byte>, k: nat)
    ensures Stream(Mirror(bytes), 8 * k, 8) == MsbBits(ByteAt(bytes, k), 8)
  {
    StreamByte(Mirror(bytes), k);
    BitsVal(MsbBits(ByteAt(bytes, k), 8));
    if k >= |bytes| {
      MsbBitsOfZero();
      BitsZero(8);
    }
  }

  lemma MsbBitsOfZero()
    ensures MsbBits(0, 8) == seq(8, _ => false)
  {
  }

  /** The stream of a byte string starts with its bits. */
  lemma {:induction false} MirrorBits(bytes: seq<Byte>, k: nat)
    requires k <= |bytes|
    ensures At(Mirror(bytes), 0, MsbToBits(bytes[..k]))
  {
    hide MsbBits, Stream, Mirror;
    if k > 0 {
      MirrorBits(bytes, k - 1);
      MirrorByte(bytes, k - 1);
      assert bytes[..k][..k - 1] == bytes[..k - 1];
      AtConcat(Mirror(bytes), 0, MsbToBits(bytes[..k - 1]), MsbBits(bytes[k - 1], 8));
    }
  }

  // ---------------------------------------------------------------------------
  // Stuffing

  /** The bytes as they are written: 0xFF is followed by a zero. */
  function Stuff(bytes: seq<Byte>): (r: seq<Byte>)
  {
    if bytes == [] then []
    else Stuff(bytes[..|bytes| - 1]) + (if bytes[|bytes| - 1] == 0xff then [0xff, 0] else [bytes[|bytes| - 1]])
  }

  /** The first index from k on whose byte is not 0xFF. */
  function SkipFill(input: seq<Byte>, k: nat): (r: nat)
    requires k <= |input|
    ensures k <= r <= |input| && (r < |input| ==> input[r] != 0xff)
    ensures forall i :: k <= i < r ==> input[i] == 0xff
    decreases |input| - k
  {
    if k < |input| && input[k] == 0xff then SkipFill(input, k + 1) else k
  }

  /** The data bytes from index k on, up to the next marker or the end of the input. The reader
      sees endless zero bytes after the end. */
  function Unstuff(input: seq<Byte>, k: nat): (r: seq<Byte>)
    decreases |input| - k
  {
    if k >= |input| then []
    else if input[k] != 0xff then [input[k]] + Unstuff(input, k + 1)
    else
      var q := SkipFill(input, k);
      if ByteAt(input, q) != 0 then [] else [0xff] + Unstuff(input, q + 1)
  }

  /** The index of the marker byte that ends the data from index k on, or the length of the input when
      none does. */
  function MarkerIndex(input: seq<Byte>, k: nat): (r: nat)
    ensures r <= |input|
    decreases |input| - k
  {
    if k >= |input| then |input|
    else if input[k] != 0xff then MarkerIndex(input, k + 1)
    else
      var q := SkipFill(input, k);
      if ByteAt(input, q) != 0 then q else MarkerIndex(input, q + 1)
  }

  /** The marker after stuffed bytes. */
  lemma {:induction false} MarkerStuff(before: seq<Byte>, bytes: seq<Byte>, rest: seq<Byte>)
    requires |rest| >= 2 && rest[0] == 0xff && rest[1] != 0xff && rest[1] != 0
    ensures MarkerIndex(before + Stuff(bytes) + rest, |before|) == |before| + |Stuff(bytes)| + 1
    decreases |bytes|
  {
    hide MarkerIndex;
    var input := before + Stuff(bytes) + rest;
    var k := |before|;
    if bytes == [] {
      MarkerHere(input, k);
    } else {
      hide Stuff;
      var head := Stuff([bytes[0]]);
      assert bytes == [bytes[0]] + bytes[1..];
      StuffConcat([bytes[0]], bytes[1..]);
      assert input == (before + head) + Stuff(bytes[1..]) + rest;
      MarkerStuff(before + head, bytes[1..], rest);
      assert input[k..k + |head|] == head;
      MarkerAfterByte(input, k, bytes[0]);
    }
  }

  lemma MarkerHere(input: seq<Byte>, k: nat)
    requires k + 1 < |input| && input[k] == 0xff && input[k + 1] != 0xff && input[k + 1] != 0
    ensures MarkerIndex(input, k) == k + 1
  {
    assert SkipFill(input, k) == k + 1;
  }

  lemma MarkerAfterByte(input: seq<Byte>, k: nat, b: Byte)
    requires k + |Stuff([b])| <= |input| && input[k..k + |Stuff([b])|] == Stuff([b])
    ensures MarkerIndex(input, k) == MarkerIndex(input, k + |Stuff([b])|)
  {
    hide Stuff;
    StuffByte(b);
    assert input[k] == input[k..k + |Stuff([b])|][0];
    if b == 0xff {
      assert input[k + 1] == input[k..k + 2][1];
      assert SkipFill(input, k) == k + 1;
    }
  }

  lemma {:induction false} StuffConcat(a: seq<Byte>, b: seq<Byte>)
    ensures Stuff(a + b) == Stuff(a) + Stuff(b)
  {
    if b == [] {
      assert a + b == a;
    } else {
      var n := |b| - 1;
      StuffConcat(a, b[..n]);
      assert (a + b)[..|a + b| - 1] == a + b[..n];
    }
  }

  lemma StuffByte(b: Byte)
    ensures Stuff([b]) == if b == 0xff then [0xff, 0] else [b]
  {
    assert [b][..0] == [];
  }

  /** A stuffed byte is read as one byte. */
  lemma UnstuffByte(input: seq<Byte>, k: nat, b: Byte)
    requires k + |Stuff([b])| <= |input| && input[k..k + |Stuff([b])|] == Stuff([b])
    ensures Unstuff(input, k) == [b] + Unstuff(input, k + |Stuff([b])|)
  {
    hide Stuff;
    StuffByte(b);
    assert input[k] == input[k..k + |Stuff([b])|][0];
    if b == 0xff {
      assert input[k + 1] == input[k..k + 2][1];
      assert SkipFill(input, k) == k + 1;
    }
  }

  lemma UnstuffMarker(input: seq<Byte>, k: nat)
    requires k + 1 < |input| && input[k] == 0xff && input[k + 1] != 0xff && input[k + 1] != 0
    ensures Unstuff(input, k) == []
  {
    assert SkipFill(input, k) == k + 1;
  }

  /** Reading back what was written, up to the marker that follows. */
  lemma {:induction false} UnstuffStuff(before: seq<Byte>, bytes: seq<Byte>, rest: seq<Byte>)
    requires |rest| >= 2 && rest[0] == 0xff && rest[1] != 0xff && rest[1] != 0
    ensures Unstuff(before + Stuff(bytes) + rest, |before|) == bytes
    decreases |bytes|
  {
    hide Unstuff;
    var input := before + Stuff(bytes) + rest;
    var k := |before|;
    if bytes == [] {
      UnstuffMarker(input, k);
    } else {
      hide Stuff;
      var head := Stuff([bytes[0]]);
      assert bytes == [bytes[0]] + bytes[1..];
      StuffConcat([bytes[0]], bytes[1..]);
      assert input == (before + head) + Stuff(bytes[1..]) + rest;
      UnstuffStuff(before + head, bytes[1..], rest);
      assert input[k..k + |head|] == head;
      UnstuffByte(input, k, bytes[0]);
    }
  }
}
