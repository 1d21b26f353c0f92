/** Run-length packets of Targa images. */
module TgaFormat {
  import opened BitStrings

  /** The bytes of a pixel, one for every component. */
  type Pixel = seq<Byte>

  /** Pixels one after the other, or one pixel several times; 1 to 128 pixels. */
  datatype Packet = Raw(pixels: seq<Pixel>) | Run(pixel: Pixel, count: nat)

  function Repeat(p: Pixel, n: nat): (s: seq<Pixel>)
    ensures |s| == n
  {
    seq(n, _ => p)
  }

  function Content(p: Packet): seq<Pixel>
  {
    match p
    case Raw(pixels) => pixels
    case Run(pixel, count) => Repeat(pixel, count)
  }

  /** All pixels of several packets. */
  function Expand(ps: seq<Packet>): seq<Pixel>
  {
    if ps == [] then [] else Content(ps[0]) + Expand(ps[1..])
  }

  /** The bytes of several pixels. */
  function Bytes(pixels: seq<Pixel>): seq<Byte>
  {
    if pixels == [] then [] else pixels[0] + Bytes(pixels[1..])
  }

  predicate Sound(p: Packet, comp: nat)
  {
    1 <= |Content(p)| <= 128 && AllWide(Content(p), comp)
  }

  predicate AllWide(pixels: seq<Pixel>, comp: nat)
  {
    forall i :: 0 <= i < |pixels| ==> |pixels[i]| == comp
  }

  predicate AllSound(ps: seq<Packet>, comp: nat)
  {
    forall i :: 0 <= i < |ps| ==> Sound(ps[i], comp)
  }

  /** A header byte whose high bit marks runs, then the pixel or pixels. */
  function PacketBytes(p: Packet): seq<Byte>
    requires 1 <= |Content(p)| <= 128
  {
    match p
    case Raw(pixels) => [|pixels| - 1] + Bytes(pixels)
    case Run(pixel, count) => [count + 127] + pixel
  }

  /** The bytes of several packets. */
  function Coded(ps: seq<Packet>, comp: nat): seq<Byte>
    requires AllSound(ps, comp)
  {
    if ps == [] then [] else
    assert Sound(ps[0], comp);
    PacketBytes(ps[0]) + Coded(ps[1..], comp)
  }

  lemma {:induction false} CodedSnoc(ps: seq<Packet>, p: Packet, comp: nat)
    requires AllSound(ps, comp) && Sound(p, comp)
    ensures AllSound(ps + [p], comp)
    ensures Coded(ps + [p], comp) == Coded(ps, comp) + PacketBytes(p)
    ensures Expand(ps + [p]) == Expand(ps) + Content(p)
  {
    if ps == [] {
      assert [] + [p] == [p] && [p][1..] == [];
      assert Expand([p]) == Content(p) + [];
      assert Coded([p], comp) == PacketBytes(p) + [];
    } else {
      CodedSnoc(ps[1..], p, comp);
      assert (ps + [p])[1..] == ps[1..] + [p];
      ConcatAssoc(PacketBytes(ps[0]), Coded(ps[1..], comp), PacketBytes(p));
      ConcatAssoc(Content(ps[0]), Expand(ps[1..]), Content(p));
    }
  }

  lemma {:induction false} BytesSnoc(pixels: seq<Pixel>, p: Pixel)
    ensures Bytes(pixels + [p]) == Bytes(pixels) + p
  {
    if pixels == [] {
      assert [] + [p] == [p] && [p][1..] == [] && p + [] == p;
    } else {
      BytesSnoc(pixels[1..], p);
      assert (pixels + [p])[1..] == pixels[1..] + [p];
      ConcatAssoc(pixels[0], Bytes(pixels[1..]), p);
    }
  }

  // ---------------------------------------------------------------------------
  // What any bytes mean; zeros follow the end of the input

  function PixelAt(input: seq<Byte>, pos: nat, comp: nat): (p: Pixel)
    ensures |p| == comp
  {
    if comp == 0 then [] else PixelAt(input, pos, comp - 1) + [ByteAt(input, pos + comp - 1)]
  }

  lemma {:induction false} PixelByte(input: seq<Byte>, pos: nat, comp: nat, j: nat)
    requires j < comp
    ensures PixelAt(input, pos, comp)[j] == ByteAt(input, pos + j)
  {
    if j < comp - 1 { PixelByte(input, pos, comp - 1, j); }
  }

  lemma PixelStands(input: seq<Byte>, pos: nat, p: Pixel)
    requires Stands(input, pos, p)
    ensures PixelAt(input, pos, |p|) == p
  {
    forall j | 0 <= j < |p| ensures PixelAt(input, pos, |p|)[j] == p[j] { PixelByte(input, pos, |p|, j); }
  }

  function PixelsAt(input: seq<Byte>, pos: nat, comp: nat, n: nat): (s: seq<Pixel>)
    ensures |s| == n
    decreases n
  {
    if n == 0 then [] else [PixelAt(input, pos, comp)] + PixelsAt(input, pos + comp, comp, n - 1)
  }

  /** The packet that begins at pos: every header byte announces one. */
  function PacketAt(input: seq<Byte>, pos: nat, comp: nat): (p: Packet)
    ensures 1 <= |Content(p)| <= 128
  {
    var cmd := ByteAt(input, pos);
    if cmd >= 128 then Run(PixelAt(input, pos + 1, comp), cmd - 127) else Raw(PixelsAt(input, pos + 1, comp, cmd + 1))
  }

  /** The first n pixels of the packets that begin at pos. */
  function Unpack(input: seq<Byte>, pos: nat, n: nat, comp: nat): seq<Pixel>
    decreases n
  {
    if n == 0 then [] else
    var p := PacketAt(input, pos, comp);
    if n <= |Content(p)| then Content(p)[..n]
    else Content(p) + Unpack(input, pos + |PacketBytes(p)|, n - |Content(p)|, comp)
  }

  lemma {:induction false} UnpackLength(input: seq<Byte>, pos: nat, n: nat, comp: nat)
    ensures |Unpack(input, pos, n, comp)| == n
    decreases n
  {
    hide PacketAt, PacketBytes, Content;
    if n > 0 {
      var p := PacketAt(input, pos, comp);
      if n > |Content(p)| { UnpackLength(input, pos + |PacketBytes(p)|, n - |Content(p)|, comp); }
    }
  }

  /** The bytes s stand at pos. */
  predicate Stands(input: seq<Byte>, pos: nat, s: seq<Byte>)
  {
    forall i :: 0 <= i < |s| ==> ByteAt(input, pos + i) == s[i]
  }

  lemma StandsParts(input: seq<Byte>, pos: nat, a: seq<Byte>, b: seq<Byte>)
    requires Stands(input, pos, a + b)
    ensures Stands(input, pos, a) && Stands(input, pos + |a|, b)
  {
    forall i | 0 <= i < |a| ensures ByteAt(input, pos + i) == a[i] { assert (a + b)[i] == a[i]; }
    forall i | 0 <= i < |b| ensures ByteAt(input, pos + |a| + i) == b[i] { assert (a + b)[|a| + i] == b[i]; }
  }

  lemma {:induction false} PixelsStand(input: seq<Byte>, pos: nat, comp: nat, pixels: seq<Pixel>)
    requires AllWide(pixels, comp) && Stands(input, pos, Bytes(pixels))
    ensures PixelsAt(input, pos, comp, |pixels|) == pixels
    decreases |pixels|
  {
    if pixels != [] {
      StandsParts(input, pos, pixels[0], Bytes(pixels[1..]));
      PixelsStand(input, pos + comp, comp, pixels[1..]);
      PixelStands(input, pos, pixels[0]);
    }
  }

  lemma PacketStands(input: seq<Byte>, pos: nat, comp: nat, p: Packet)
    requires Sound(p, comp) && Stands(input, pos, PacketBytes(p))
    ensures PacketAt(input, pos, comp) == p
  {
    hide PixelsAt, Bytes;
    match p
    case Raw(pixels) =>
      StandsParts(input, pos, [|pixels| - 1], Bytes(pixels));
      assert ByteAt(input, pos + 0) == [|pixels| - 1][0];
      PixelsStand(input, pos + 1, comp, pixels);
    case Run(pixel, count) =>
      StandsParts(input, pos, [count + 127], pixel);
      assert ByteAt(input, pos + 0) == [count + 127][0];
      assert pixel == Content(p)[0];
      PixelStands(input, pos + 1, pixel);
  }

  /** Packets that stand in the input are what the input means. */
  lemma {:induction false} UnpackCoded(input: seq<Byte>, pos: nat, comp: nat, ps: seq<Packet>)
    requires AllSound(ps, comp) && Stands(input, pos, Coded(ps, comp))
    ensures Unpack(input, pos, |Expand(ps)|, comp) == Expand(ps)
    decreases |ps|
  {
    hide PacketAt, PacketBytes, Content, Stands;
    if ps != [] {
      assert Sound(ps[0], comp);
      FirstSound(ps[0], comp);
      StandsParts(input, pos, PacketBytes(ps[0]), Coded(ps[1..], comp));
      PacketStands(input, pos, comp, ps[0]);
      UnpackCoded(input, pos + |PacketBytes(ps[0])|, comp, ps[1..]);
      if Expand(ps[1..]) == [] { assert Content(ps[0])[..|Content(ps[0])|] == Content(ps[0]); }
    }
  }

  lemma FirstSound(p: Packet, comp: nat)
    requires Sound(p, comp)
    ensures 1 <= |Content(p)| <= 128
  {
  }

  // ---------------------------------------------------------------------------
  // Component order

  /** The bytes of a pixel in the file: blue first, alpha last. */
  function Wire(p: Pixel): (w: Pixel)
    ensures |w| == |p|
  {
    if |p| == 3 then [p[2], p[1], p[0]]
    else if |p| == 4 then [p[2], p[1], p[0], p[3]]
    else p
  }

  lemma WireTwice(p: Pixel)
    ensures Wire(Wire(p)) == p
  {
  }

  function WireAll(pixels: seq<Pixel>): (r: seq<Pixel>)
    ensures |r| == |pixels|
  {
    seq(|pixels|, i requires 0 <= i < |pixels| => Wire(pixels[i]))
  }

  // ---------------------------------------------------------------------------
  // Rows

  predicate IsImage(rows: seq<seq<Pixel>>, width: nat, comp: nat)
  {
    forall r :: 0 <= r < |rows| ==> |rows[r]| == width && AllWide(rows[r], comp)
  }

  /** All pixels, row by row. */
  function Join(rows: seq<seq<Pixel>>): seq<Pixel>
  {
    if rows == [] then [] else Join(rows[..|rows| - 1]) + rows[|rows| - 1]
  }

  lemma {:induction false} JoinLength(rows: seq<seq<Pixel>>, width: nat)
    requires forall r :: 0 <= r < |rows| ==> |rows[r]| == width
    ensures |Join(rows)| == |rows| * width
  {
    if rows != [] {
      var n := |rows| - 1;
      JoinLength(rows[..n], width);
      assert |rows| * width == n * width + width;
    }
  }

  lemma {:induction false} JoinAt(rows: seq<seq<Pixel>>, width: nat, r: nat)
    requires r < |rows| && forall r :: 0 <= r < |rows| ==> |rows[r]| == width
    ensures 0 <= r * width <= (r + 1) * width <= |Join(rows)|
    ensures Join(rows)[r * width..(r + 1) * width] == rows[r]
  {
    var n := |rows| - 1;
    JoinLength(rows[..n], width);
    assert (r + 1) * width == r * width + width;
    if r < n {
      JoinAt(rows[..n], width, r);
      var a := Join(rows[..n]);
      assert Join(rows)[r * width..(r + 1) * width] == a[r * width..(r + 1) * width];
    }
  }

  /** The rows from bottom to top. */
  function Upward(rows: seq<seq<Pixel>>): (r: seq<seq<Pixel>>)
    ensures |r| == |rows|
  {
    seq(|rows|, i requires 0 <= i < |rows| => rows[|rows| - 1 - i])
  }
}
