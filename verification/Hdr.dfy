/** Run-length coding of Radiance HDR scanlines: stbiw__write_hdr_scanline and the scanline loop of
    stbi__hdr_load. Each of the four byte planes of a scanline is coded by itself. */
module Hdr {
  import opened BitStrings

  /** Bytes as they are, 1 to 128 of them, or one byte 1 to 127 times. */
  datatype Chunk = Dump(data: seq<Byte>) | Run(value: Byte, count: nat)

  predicate Sound(c: Chunk)
  {
    match c
    case Dump(data) => 1 <= |data| <= 128
    case Run(_, count) => 1 <= count <= 127
  }

  predicate AllSound(cs: seq<Chunk>)
  {
    forall i :: 0 <= i < |cs| ==> Sound(cs[i])
  }

  function Content(c: Chunk): seq<Byte>
  {
    match c
    case Dump(data) => data
    case Run(value, count) => seq(count, _ => value)
  }

  /** A length byte, above 128 for runs. */
  function ChunkBytes(c: Chunk): (r: seq<Byte>)
    requires Sound(c)
    ensures |r| >= 2
  {
    match c
    case Dump(data) => [|data|] + data
    case Run(value, count) => [count + 128, value]
  }

  function Expand(cs: seq<Chunk>): seq<Byte>
  {
    if cs == [] then [] else Expand(cs[..|cs| - 1]) + Content(cs[|cs| - 1])
  }

  function Coded(cs: seq<Chunk>): seq<Byte>
    requires AllSound(cs)
  {
    if cs == [] then [] else
    assert Sound(cs[|cs| - 1]);
    Coded(cs[..|cs| - 1]) + ChunkBytes(cs[|cs| - 1])
  }

  lemma Snoc(cs: seq<Chunk>, c: Chunk)
    requires AllSound(cs) && Sound(c)
    ensures AllSound(cs + [c]) && Coded(cs + [c]) == Coded(cs) + ChunkBytes(c)
    ensures Expand(cs + [c]) == Expand(cs) + Content(c)
  {
    assert (cs + [c])[..|cs|] == cs;
  }

  lemma {:induction false} CodedTake(cs: seq<Chunk>, k: nat)
    requires AllSound(cs) && k <= |cs|
    ensures AllSound(cs[..k]) && Coded(cs[..k]) <= Coded(cs) && Expand(cs[..k]) <= Expand(cs)
  {
    hide Content, ChunkBytes, Sound;
    if k == |cs| {
      assert cs[..k] == cs;
    } else {
      var n := |cs| - 1;
      CodedTake(cs[..n], k);
      assert cs[..n][..k] == cs[..k];
    }
  }

  // ---------------------------------------------------------------------------
  // The writer

  /** Three equal bytes begin at k. */
  predicate Triple(comp: seq<Byte>, k: nat)
  {
    k + 2 < |comp| && comp[k] == comp[k + 1] == comp[k + 2]
  }

  /** Which chunk begins at x: no three equal bytes begin in a dump, which goes on as far as it can; a run
      begins with three equal bytes, or goes on with a run that was too long for one chunk, and takes in all
      bytes that it can. */
  predicate Placed(comp: seq<Byte>, x: nat, c: Chunk)
  {
    match c
    case Dump(data) =>
      && (forall k :: x <= k < x + |data| ==> !Triple(comp, k))
      && (|data| == 128 || x + |data| == |comp| || Triple(comp, x + |data|))
    case Run(value, count) =>
      && (Triple(comp, x) || (0 < x <= |comp| && comp[x - 1] == value))
      && (count == 127 || x + count == |comp| || (x + count < |comp| && comp[x + count] != value))
  }

  predicate AllPlaced(comp: seq<Byte>, cs: seq<Chunk>)
  {
    forall i :: 0 <= i < |cs| ==> Placed(comp, |Expand(cs[..i])|, cs[i])
  }

  lemma PlacedNext(comp: seq<Byte>, cs: seq<Chunk>, c: Chunk)
    requires AllPlaced(comp, cs) && Placed(comp, |Expand(cs)|, c)
    ensures AllPlaced(comp, cs + [c])
  {
    hide Placed, Expand;
    forall i | 0 <= i < |cs + [c]| ensures Placed(comp, |Expand((cs + [c])[..i])|, (cs + [c])[i]) {
      if i < |cs| {
        assert (cs + [c])[..i] == cs[..i];
      } else {
        assert (cs + [c])[..i] == cs;
      }
    }
  }

  /** The first place from x on where three equal bytes begin, or the end of the plane. */
  method FindRun(comp: seq<Byte>, x: nat) returns (r: nat)
    requires x <= |comp|
    ensures x <= r <= |comp| && (r < |comp| ==> Triple(comp, r)) && forall k :: x <= k < r ==> !Triple(comp, k)
  {
    r := x;
    while r + 2 < |comp|
      invariant x <= r <= |comp|
      invariant forall k :: x <= k < r ==> !Triple(comp, k)
    {
      if comp[r] == comp[r + 1] && comp[r] == comp[r + 2] { break; }
      r := r + 1;
    }
    if r + 2 >= |comp| { r := |comp|; }
  }

  /** Chunks for the bytes from x up to r, which are all equal when a run is asked for. */
  method WriteChunks(comp: seq<Byte>, x0: nat, r: nat, run: bool, out0: seq<Byte>, ghost cs0: seq<Chunk>)
    returns (out: seq<Byte>, ghost cs: seq<Chunk>)
    requires x0 <= r <= |comp| && (run ==> forall k :: x0 <= k < r ==> comp[k] == comp[x0])
    requires !run ==> (forall k :: x0 <= k < r ==> !Triple(comp, k)) && (r == |comp| || Triple(comp, r))
    requires run ==> Triple(comp, x0) && (r == |comp| || comp[r] != comp[x0])
    requires AllSound(cs0) && out0 == Coded(cs0) && Expand(cs0) == comp[..x0] && AllPlaced(comp, cs0)
    ensures AllSound(cs) && out == Coded(cs) && Expand(cs) == comp[..r] && AllPlaced(comp, cs)
  {
    hide AllSound, Coded, Expand, AllPlaced, Triple;
    var x := x0;
    out, cs := out0, cs0;
    while x < r
      invariant x0 <= x <= r
      invariant AllSound(cs) && out == Coded(cs) && Expand(cs) == comp[..x] && AllPlaced(comp, cs)
    {
      var most := if run then 127 else 128;
      var len := r - x;
      if len > most { len := most; }
      ghost var c := if run then Run(comp[x], len) else Dump(comp[x..x + len]);
      Snoc(cs, c);
      PlacedNext(comp, cs, c);
      assert comp[..x + len] == comp[..x] + comp[x..x + len];
      assert Content(c) == comp[x..x + len];
      if run {
        out := out + [len + 128, comp[x]];
      } else {
        out := out + ([len] + comp[x..x + len]);
      }
      cs := cs + [c];
      x := x + len;
    }
  }

  /** The bytes are chunks, every one with a length that the reader accepts, that expand to the plane, and
      runs are coded as runs. */
  ghost predicate CodesPlane(out: seq<Byte>, comp: seq<Byte>)
  {
    exists cs :: AllSound(cs) && out == Coded(cs) && Expand(cs) == comp && AllPlaced(comp, cs)
  }

  /** One plane. */
  method WritePlane(comp: seq<Byte>) returns (out: seq<Byte>, ghost cs: seq<Chunk>)
    ensures CodesPlane(out, comp)
    ensures AllSound(cs) && out == Coded(cs) && Expand(cs) == comp && AllPlaced(comp, cs)
  {
    hide AllSound, Coded, Expand, AllPlaced, Triple;
    NoChunks(comp);
    out, cs := [], [];
    var x := 0;
    while x < |comp|
      invariant 0 <= x <= |comp|
      invariant AllSound(cs) && out == Coded(cs) && Expand(cs) == comp[..x] && AllPlaced(comp, cs)
      decreases |comp| - x
    {
      var x0 := x;
      var r := FindRun(comp, x);
      out, cs := WriteChunks(comp, x, r, false, out, cs);
      x := r;
      TripleInside(comp, r);
      if r + 2 < |comp| {
        while r < |comp| && comp[r] == comp[x]
          invariant x <= r <= |comp| && (forall k :: x <= k < r ==> comp[k] == comp[x])
        {
          r := r + 1;
        }
        out, cs := WriteChunks(comp, x, r, true, out, cs);
        x := r;
      }
    }
    assert comp[..|comp|] == comp;
  }

  lemma TripleInside(comp: seq<Byte>, k: nat)
    ensures Triple(comp, k) ==> k + 2 < |comp|
  {
  }

  lemma NoChunks(comp: seq<Byte>)
    ensures AllPlaced(comp, [])
    ensures AllSound([]) && Coded([]) == [] && Expand([]) == []
  {
  }

  // ---------------------------------------------------------------------------
  // The reader, which sees zero bytes after the end of its input

  predicate Stands(input: seq<Byte>, pos: nat, s: seq<Byte>)
  {
    forall i :: 0 <= i < |s| ==> ByteAt(input, pos + i) == s[i]
  }

  /** The chunks stand at pos and make up a plane of the given width. */
  ghost predicate Fits(input: seq<Byte>, pos: nat, width: nat, cs: seq<Chunk>)
  {
    AllSound(cs) && Stands(input, pos, Coded(cs)) && |Expand(cs)| == width
  }

  ghost predicate NoFit(input: seq<Byte>, pos: nat, width: nat)
  {
    forall cs :: !Fits(input, pos, width, cs)
  }

  ghost predicate OnlyFit(input: seq<Byte>, pos: nat, width: nat, cs: seq<Chunk>)
  {
    forall other :: Fits(input, pos, width, other) ==> other == cs
  }

  /** Chunks that have been read are the beginning of any chunks that fit. */
  ghost predicate Forced(input: seq<Byte>, pos: nat, width: nat, done: seq<Chunk>)
  {
    forall cs :: Fits(input, pos, width, cs) ==> done <= cs
  }

  /** A chunk list that fits goes on with the chunk that its length byte announces. */
  lemma NextChunk(input: seq<Byte>, pos: nat, width: nat, done: seq<Chunk>, cs: seq<Chunk>)
    requires AllSound(done) && Fits(input, pos, width, cs) && done <= cs && |Expand(done)| < width
    ensures |done| < |cs| && Sound(cs[|done|]) && |Expand(done)| + |Content(cs[|done|])| <= width
    ensures Stands(input, pos + |Coded(done)|, ChunkBytes(cs[|done|]))
  {
    hide Content, ChunkBytes, Sound;
    var n := |done|;
    assert cs[..n] == done;
    assert |done| == |cs| ==> cs == done;
    CodedTake(cs, n + 1);
    assert cs[..n + 1][..n] == done;
    assert Sound(cs[n]);
    var c := ChunkBytes(cs[n]);
    assert Coded(cs[..n + 1]) == Coded(done) + c;
    forall i | 0 <= i < |c| ensures ByteAt(input, pos + |Coded(done)| + i) == c[i] {
      var k := |Coded(done)| + i;
      assert Coded(cs)[k] == Coded(cs[..n + 1])[k] == c[i];
    }
  }

  /** The chunk at pos, when its length byte is good. */
  lemma ChunkAt(input: seq<Byte>, pos: nat, c: Chunk, d: Chunk)
    requires Sound(c) && Sound(d) && Stands(input, pos, ChunkBytes(c)) && Stands(input, pos, ChunkBytes(d))
    ensures c == d
  {
    var p, q := ChunkBytes(c), ChunkBytes(d);
    assert ByteAt(input, pos + 0) == p[0] == q[0];
    if c.Run? {
      assert ByteAt(input, pos + 1) == p[1] == q[1];
    } else {
      forall i | 0 <= i < |c.data| ensures c.data[i] == d.data[i] {
        assert ByteAt(input, pos + (i + 1)) == p[i + 1] == q[i + 1];
      }
    }
  }

  /** A chunk has been read. */
  lemma Forward(input: seq<Byte>, pos: nat, width: nat, done: seq<Chunk>, c: Chunk)
    requires AllSound(done) && Sound(c) && |Expand(done)| < width && Forced(input, pos, width, done)
    requires Stands(input, pos + |Coded(done)|, ChunkBytes(c))
    ensures Forced(input, pos, width, done + [c])
  {
    hide Content, ChunkBytes, Coded, Expand;
    forall cs | Fits(input, pos, width, cs) ensures done + [c] <= cs {
      NextChunk(input, pos, width, done, cs);
      ChunkAt(input, pos + |Coded(done)|, c, cs[|done|]);
    }
  }

  lemma LengthByte(input: seq<Byte>, pos: nat, c: Chunk)
    requires Sound(c) && Stands(input, pos, ChunkBytes(c))
    ensures ByteAt(input, pos) > 0
    ensures |Content(c)| == if ByteAt(input, pos) > 128 then ByteAt(input, pos) - 128 else ByteAt(input, pos)
  {
    assert ByteAt(input, pos + 0) == ChunkBytes(c)[0];
  }

  /** A bad length byte: no chunks fit. */
  lemma Stuck(input: seq<Byte>, pos: nat, width: nat, done: seq<Chunk>, count: nat)
    requires AllSound(done) && |Expand(done)| < width && Forced(input, pos, width, done)
    requires count == ByteAt(input, pos + |Coded(done)|)
    requires count == 0 || (if count > 128 then count - 128 else count) > width - |Expand(done)|
    ensures NoFit(input, pos, width)
  {
    hide Coded, Expand;
    forall cs | Fits(input, pos, width, cs) ensures false {
      NextChunk(input, pos, width, done, cs);
      LengthByte(input, pos + |Coded(done)|, cs[|done|]);
    }
  }

  /** One plane. The reader succeeds exactly when chunks for a plane of this width stand at pos, and
      then returns what they expand to. */
  method ReadPlane(input: seq<Byte>, pos0: nat, width: nat)
    returns (ok: bool, plane: seq<Byte>, pos: nat, ghost cs: seq<Chunk>)
    ensures ok ==> Fits(input, pos0, width, cs) && plane == Expand(cs) && pos == pos0 + |Coded(cs)|
    ensures ok ==> OnlyFit(input, pos0, width, cs)
    ensures !ok ==> NoFit(input, pos0, width)
  {
    hide Coded, Expand, Forced, AllSound, NoFit, OnlyFit;
    NoChunks([]);
    NothingForced(input, pos0, width);
    ok, plane, pos, cs := true, [], pos0, [];
    while width - |plane| > 0
      invariant |plane| <= width && AllSound(cs) && Stands(input, pos0, Coded(cs))
      invariant plane == Expand(cs) && pos == pos0 + |Coded(cs)| && Forced(input, pos0, width, cs)
      decreases width - |plane|
    {
      var nleft := width - |plane|;
      var count := ByteAt(input, pos);
      ghost var c;
      if count > 128 {
        var value := ByteAt(input, pos + 1);
        if count - 128 > nleft {
          Stuck(input, pos0, width, cs, count);
          return false, plane, pos, cs;
        }
        c := Run(value, count - 128);
        RunStands(input, pos, value, count - 128);
        plane := plane + seq(count - 128, _ => value);
        pos := pos + 2;
      } else {
        if count == 0 || count > nleft {
          Stuck(input, pos0, width, cs, count);
          return false, plane, pos, cs;
        }
        var data := ReadBytes(input, pos + 1, count);
        c := Dump(data);
        DumpStands(input, pos, data);
        plane := plane + data;
        pos := pos + 1 + count;
      }
      Forward(input, pos0, width, cs, c);
      Snoc(cs, c);
      StandsMore(input, pos0, Coded(cs), ChunkBytes(c));
      cs := cs + [c];
    }
    ForcedIsAll(input, pos0, width, cs);
  }

  lemma ForcedIsAll(input: seq<Byte>, pos: nat, width: nat, done: seq<Chunk>)
    requires Fits(input, pos, width, done) && Forced(input, pos, width, done)
    ensures OnlyFit(input, pos, width, done)
  {
    forall cs | Fits(input, pos, width, cs) ensures cs == done {
      NothingMore(width, done, cs);
    }
  }

  lemma NothingMore(width: nat, done: seq<Chunk>, cs: seq<Chunk>)
    requires AllSound(cs) && done <= cs && |Expand(done)| == width == |Expand(cs)|
    ensures cs == done
  {
    var n := |done|;
    assert cs[..n] == done;
    if n < |cs| {
      OneMore(cs, n);
    }
  }

  lemma OneMore(cs: seq<Chunk>, n: nat)
    requires AllSound(cs) && n < |cs|
    ensures |Expand(cs[..n])| < |Expand(cs)|
  {
    CodedTake(cs, n + 1);
    assert cs[..n + 1][..n] == cs[..n];
    assert Sound(cs[n]);
  }

  lemma NothingForced(input: seq<Byte>, pos: nat, width: nat)
    ensures Forced(input, pos, width, []) && Stands(input, pos, [])
  {
  }

  lemma RunStands(input: seq<Byte>, pos: nat, value: Byte, count: nat)
    requires 1 <= count <= 127 && ByteAt(input, pos) == count + 128 && ByteAt(input, pos + 1) == value
    ensures Stands(input, pos, ChunkBytes(Run(value, count)))
  {
  }

  lemma DumpStands(input: seq<Byte>, pos: nat, data: seq<Byte>)
    requires 1 <= |data| <= 128 && ByteAt(input, pos) == |data| && Stands(input, pos + 1, data)
    ensures Stands(input, pos, ChunkBytes(Dump(data)))
  {
    var s := ChunkBytes(Dump(data));
    forall i | 0 <= i < |s| ensures ByteAt(input, pos + i) == s[i] {
      if i > 0 { assert ByteAt(input, pos + 1 + (i - 1)) == data[i - 1]; }
    }
  }

  lemma StandsMore(input: seq<Byte>, pos: nat, a: seq<Byte>, b: seq<Byte>)
    requires Stands(input, pos, a) && Stands(input, pos + |a|, b)
    ensures Stands(input, pos, a + b)
  {
    forall i | 0 <= i < |a + b| ensures ByteAt(input, pos + i) == (a + b)[i] {
      if i >= |a| { assert ByteAt(input, pos + |a| + (i - |a|)) == b[i - |a|]; }
    }
  }

  method ReadBytes(input: seq<Byte>, pos: nat, n: nat) returns (data: seq<Byte>)
    ensures |data| == n && Stands(input, pos, data)
  {
    data := [];
    for z := 0 to n
      invariant |data| == z && Stands(input, pos, data)
    {
      data := data + [ByteAt(input, pos + z)];
    }
  }

  // ---------------------------------------------------------------------------
  // Scanlines

  /** A scanline is coded when runs may be used: a mark, the width, and the four planes. */
  method WriteScanline(planes: seq<seq<Byte>>, width: nat) returns (out: seq<Byte>, ghost cs: seq<seq<Chunk>>)
    requires 8 <= width < 32768 && |planes| == 4 && forall k :: 0 <= k < 4 ==> |planes[k]| == width
    ensures |cs| == 4 && forall k :: 0 <= k < 4 ==> AllSound(cs[k]) && Expand(cs[k]) == planes[k]
    ensures out == [2, 2, width / 256, width % 256] + Planes(cs)
  {
    hide Expand, Coded;
    out, cs := [2, 2, width / 256, width % 256], [];
    ghost var header := out;
    for c := 0 to 4
      invariant |cs| == c && forall k :: 0 <= k < c ==> AllSound(cs[k]) && Expand(cs[k]) == planes[k]
      invariant out == header + Planes(cs)
    {
      var plane;
      ghost var chunks;
      plane, chunks := WritePlane(planes[c]);
      assert (cs + [chunks])[..c] == cs;
      ConcatAssoc(header, Planes(cs), plane);
      out := out + plane;
      cs := cs + [chunks];
    }
  }

  function Planes(cs: seq<seq<Chunk>>): seq<Byte>
    requires forall k :: 0 <= k < |cs| ==> AllSound(cs[k])
  {
    if cs == [] then [] else Planes(cs[..|cs| - 1]) + Coded(cs[|cs| - 1])
  }

  ghost predicate PlanesFit(input: seq<Byte>, pos: nat, width: nat, all: seq<seq<Chunk>>)
  {
    && |all| == 4 && (forall k :: 0 <= k < 4 ==> AllSound(all[k]) && |Expand(all[k])| == width)
    && Stands(input, pos, Planes(all))
  }

  ghost predicate NoPlanes(input: seq<Byte>, pos: nat, width: nat)
  {
    forall all :: !PlanesFit(input, pos, width, all)
  }

  lemma {:induction false} PlanesTake(all: seq<seq<Chunk>>, k: nat)
    requires k <= |all| && forall i :: 0 <= i < |all| ==> AllSound(all[i])
    ensures Planes(all[..k]) <= Planes(all)
  {
    hide Coded, AllSound;
    if k == |all| {
      assert all[..k] == all;
    } else {
      var n := |all| - 1;
      PlanesTake(all[..n], k);
      assert all[..n][..k] == all[..k];
    }
  }

  lemma PlaneAt(input: seq<Byte>, pos: nat, width: nat, cs: seq<seq<Chunk>>, all: seq<seq<Chunk>>)
    requires PlanesFit(input, pos, width, all) && cs <= all && |cs| < 4
    ensures forall k :: 0 <= k < |cs| ==> AllSound(cs[k])
    ensures Fits(input, pos + |Planes(cs)|, width, all[|cs|])
  {
    hide Coded, AllSound, Expand;
    var n := |cs|;
    assert forall k :: 0 <= k < n ==> cs[k] == all[k];
    PlanesTake(all, n + 1);
    assert all[..n + 1][..n] == cs;
    var c := Coded(all[n]);
    assert Planes(all[..n + 1]) == Planes(cs) + c;
    forall i | 0 <= i < |c| ensures ByteAt(input, pos + |Planes(cs)| + i) == c[i] {
      var k := |Planes(cs)| + i;
      assert Planes(all)[k] == Planes(all[..n + 1])[k] == c[i];
    }
  }

  /** Planes that have been read are the beginning of any planes that fit. */
  ghost predicate PlanesForced(input: seq<Byte>, pos: nat, width: nat, cs: seq<seq<Chunk>>)
  {
    forall all :: PlanesFit(input, pos, width, all) ==> cs <= all
  }

  lemma PlaneStuck(input: seq<Byte>, pos: nat, width: nat, cs: seq<seq<Chunk>>)
    requires |cs| < 4 && (forall k :: 0 <= k < |cs| ==> AllSound(cs[k])) && PlanesForced(input, pos, width, cs)
    requires NoFit(input, pos + |Planes(cs)|, width)
    ensures NoPlanes(input, pos, width)
  {
    hide AllSound;
    forall all | PlanesFit(input, pos, width, all) ensures false {
      PlaneAt(input, pos, width, cs, all);
    }
  }

  lemma PlaneForced(input: seq<Byte>, pos: nat, width: nat, cs: seq<seq<Chunk>>, chunks: seq<Chunk>)
    requires |cs| < 4 && (forall k :: 0 <= k < |cs| ==> AllSound(cs[k])) && PlanesForced(input, pos, width, cs)
    requires OnlyFit(input, pos + |Planes(cs)|, width, chunks)
    ensures PlanesForced(input, pos, width, cs + [chunks])
  {
    hide Fits, AllSound;
    forall all | PlanesFit(input, pos, width, all) ensures cs + [chunks] <= all {
      PlaneAt(input, pos, width, cs, all);
    }
  }

  /** A scanline that is coded, one that is not and must be read as plain pixels, or an error. */
  datatype Scanline = Planar(planes: seq<seq<Byte>>) | Plain | Bad

  method ReadScanline(input: seq<Byte>, pos0: nat, width: nat)
    returns (line: Scanline, pos: nat, ghost cs: seq<seq<Chunk>>)
    ensures line.Plain? <==>
      !(ByteAt(input, pos0) == 2 && ByteAt(input, pos0 + 1) == 2 && ByteAt(input, pos0 + 2) < 128)
    ensures line.Planar? ==> PlanesFit(input, pos0 + 4, width, cs) && pos == pos0 + 4 + |Planes(cs)|
    ensures line.Planar? ==> |line.planes| == 4 && forall k :: 0 <= k < 4 ==> line.planes[k] == Expand(cs[k])
    ensures line.Planar? ==> PlanesForced(input, pos0 + 4, width, cs)
    ensures line.Planar? ==> ByteAt(input, pos0 + 2) * 256 + ByteAt(input, pos0 + 3) == width
    ensures line.Bad? ==>
      ByteAt(input, pos0 + 2) * 256 + ByteAt(input, pos0 + 3) != width || NoPlanes(input, pos0 + 4, width)
  {
    hide Expand, Coded, AllSound, PlanesForced, NoPlanes, NoFit, OnlyFit;
    pos, cs := pos0, [];
    NoPlanesYet(input, pos0 + 4, width);
    var c1, c2, len := ByteAt(input, pos), ByteAt(input, pos + 1), ByteAt(input, pos + 2) as int;
    if c1 != 2 || c2 != 2 || len / 128 % 2 == 1 { return Plain, pos, []; }
    len := len * 256 + ByteAt(input, pos + 3);
    pos := pos + 4;
    if len != width { return Bad, pos, []; }
    var planes := [];
    for k := 0 to 4
      invariant |planes| == |cs| == k
      invariant forall i :: 0 <= i < k ==> AllSound(cs[i]) && planes[i] == Expand(cs[i]) && |Expand(cs[i])| == width
      invariant Stands(input, pos0 + 4, Planes(cs)) && pos == pos0 + 4 + |Planes(cs)|
      invariant PlanesForced(input, pos0 + 4, width, cs)
    {
      var ok, plane, next;
      ghost var chunks;
      ok, plane, next, chunks := ReadPlane(input, pos, width);
      if !ok {
        PlaneStuck(input, pos0 + 4, width, cs);
        return Bad, pos, cs;
      }
      PlaneForced(input, pos0 + 4, width, cs, chunks);
      pos := next;
      StandsMore(input, pos0 + 4, Planes(cs), Coded(chunks));
      assert (cs + [chunks])[..k] == cs;
      cs := cs + [chunks];
      planes := planes + [plane];
    }
    line := Planar(planes);
  }

  lemma NoPlanesYet(input: seq<Byte>, pos: nat, width: nat)
    ensures PlanesForced(input, pos, width, []) && Stands(input, pos, Planes([]))
  {
  }

  /** A coded scanline is read back, whatever stands before and after it. */
  method RoundTrip(before: seq<Byte>, planes: seq<seq<Byte>>, width: nat, after: seq<Byte>) returns (line: Scanline)
    requires 8 <= width < 32768 && |planes| == 4 && forall k :: 0 <= k < 4 ==> |planes[k]| == width
    ensures line == Planar(planes)
  {
    hide Expand, Coded, AllSound, NoPlanes, PlanesForced;
    var out, pos;
    ghost var cs, read;
    out, cs := WriteScanline(planes, width);
    var input := before + out + after;
    WrittenStands(before, [2, 2, width / 256, width % 256], Planes(cs), after);
    assert PlanesFit(input, |before| + 4, width, cs);
    line, pos, read := ReadScanline(input, |before|, width);
    OnlyPlanes(input, |before| + 4, width, cs, line, read);
  }

  lemma OnlyPlanes(input: seq<Byte>, pos: nat, width: nat, cs: seq<seq<Chunk>>, line: Scanline, read: seq<seq<Chunk>>)
    requires PlanesFit(input, pos, width, cs)
    ensures !NoPlanes(input, pos, width)
    ensures line.Planar? && |read| == 4 && PlanesForced(input, pos, width, read) ==> read == cs
  {
    hide AllSound;
  }

  lemma WrittenStands(before: seq<Byte>, header: seq<Byte>, body: seq<Byte>, after: seq<Byte>)
    requires |header| == 4
    ensures
      var input := before + (header + body) + after;
      && Stands(input, |before| + 4, body)
      && forall i :: 0 <= i < 4 ==> ByteAt(input, |before| + i) == header[i]
  {
    var input := before + (header + body) + after;
    forall i | 0 <= i < |body| ensures ByteAt(input, |before| + 4 + i) == body[i] {
      assert input[|before| + 4 + i] == (header + body)[4 + i];
    }
  }
}
