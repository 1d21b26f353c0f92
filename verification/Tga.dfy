/** The run-length Targa writer of stb_image_write and the packet loop of stb_image's Targa reader. */
module Tga {
  import opened BitStrings
  import opened TgaFormat

  // ---------------------------------------------------------------------------
  // The writer: stbi_write_tga_core

  /** Which packet begins at place i of a row: a run where two equal pixels stand, which goes on as far as it
      can, and otherwise raw pixels. The scan for the end of raw pixels compares pixels two apart, so it may
      take in runs, and ends before the middle of the first three pixels whose outer ones are equal. */
  ghost predicate Cut(row: seq<Pixel>, i: nat, diff: bool, len: nat)
    requires i < |row|
  {
    1 <= len <= 128 && i + len <= |row| &&
    if i == |row| - 1 then diff && len == 1
    else if row[i] == row[i + 1] then
      && !diff && len >= 2 && (forall k :: i <= k < i + len ==> row[k] == row[i])
      && (len == 128 || i + len == |row| || row[i + len] != row[i])
    else
      && diff && (forall k :: i <= k < i + len - 2 ==> row[k] != row[k + 2])
      && (len == 128 || i + len == |row| || StopsBefore(row, i, len))
  }

  ghost predicate StopsBefore(row: seq<Pixel>, i: nat, len: nat)
  {
    && len >= 1 && i + len + 1 < |row| && row[i + len - 1] == row[i + len + 1]
    && (len >= 2 ==> row[i + len - 2] != row[i + len])
  }

  /** These packets are cut from the first i pixels of the row. */
  ghost predicate CutTo(row: seq<Pixel>, ps: seq<Packet>, i: nat)
    requires i <= |row|
  {
    if ps == [] then i == 0
    else
      var p := ps[|ps| - 1];
      var len := |Content(p)|;
      0 < len <= i && CutTo(row, ps[..|ps| - 1], i - len) && Cut(row, i - len, p.Raw?, len)
  }

  /** The next packet of a row. */
  method NextPacket(row: seq<Pixel>, i: nat) returns (diff: bool, len: nat)
    requires i < |row|
    ensures Cut(row, i, diff, len)
  {
    diff, len := true, 1;
    if i < |row| - 1 {
      len := len + 1;
      diff := row[i] != row[i + 1];
      var k := i + 2;
      if diff {
        var prev := i;
        while k < |row| && len < 128
          invariant 2 <= len <= 128 && k == i + len <= |row| && prev == k - 2
          invariant forall m :: i <= m < prev ==> row[m] != row[m + 2]
        {
          if row[prev] != row[k] {
            prev := prev + 1;
            len := len + 1;
          } else {
            len := len - 1;
            break;
          }
          k := k + 1;
        }
      } else {
        while k < |row| && len < 128
          invariant 2 <= len <= 128 && k == i + len <= |row|
          invariant forall m :: i <= m < k ==> row[m] == row[i]
        {
          if row[k] == row[i] {
            len := len + 1;
          } else {
            break;
          }
          k := k + 1;
        }
      }
    }
  }

  /** stbiw__write_pixel with rgb_dir -1. */
  method WritePixel(out: seq<Byte>, p: Pixel) returns (out': seq<Byte>)
    requires 1 <= |p| <= 4
    ensures out' == out + Wire(p)
  {
    out' := out;
    if |p| <= 2 {
      out' := out' + [p[0]];
    } else {
      out' := out' + [p[2], p[1], p[0]];
    }
    if |p| == 2 || |p| == 4 {
      out' := out' + [p[|p| - 1]];
    }
  }

  /** One packet. */
  method WritePacket(out: seq<Byte>, row: seq<Pixel>, comp: nat, i: nat, diff: bool, len: nat)
    returns (out': seq<Byte>, ghost p: Packet)
    requires 1 <= comp <= 4 && AllWide(row, comp) && 1 <= len <= 128 && i + len <= |row|
    requires !diff ==> forall k :: i <= k < i + len ==> row[k] == row[i]
    ensures p.Raw? == diff && Content(p) == WireAll(row[i..i + len]) && Sound(p, comp)
    ensures out' == out + PacketBytes(p)
  {
    hide Wire, WireAll, AllWide, Repeat;
    WidePart(row, comp, i, len);
    if diff {
      p := Raw(WireAll(row[i..i + len]));
      out' := WriteRaw(out, row[i..i + len], comp);
    } else {
      p := Run(Wire(row[i]), len);
      RunPart(row, i, len);
      out' := out + [(len as int - 129) % 256];
      out' := WritePixel(out', row[i]);
      ConcatAssoc(out, [len + 127], Wire(row[i]));
    }
  }

  lemma WidePart(row: seq<Pixel>, comp: nat, i: nat, len: nat)
    requires AllWide(row, comp) && i + len <= |row|
    ensures AllWide(row[i..i + len], comp) && AllWide(WireAll(row[i..i + len]), comp)
    ensures len > 0 ==> |row[i]| == comp
  {
    hide Wire;
  }

  lemma RunPart(row: seq<Pixel>, i: nat, len: nat)
    requires i + len <= |row| && len > 0 && forall k :: i <= k < i + len ==> row[k] == row[i]
    ensures Repeat(Wire(row[i]), len) == WireAll(row[i..i + len])
  {
    hide Wire;
  }

  /** One row as packets. */
  method WriteRow(out: seq<Byte>, row: seq<Pixel>, comp: nat, ghost ps: seq<Packet>)
    returns (out': seq<Byte>, ghost ps': seq<Packet>, ghost own: seq<Packet>)
    requires 1 <= comp <= 4 && AllWide(row, comp) && AllSound(ps, comp) && out == Coded(ps, comp)
    ensures AllSound(ps', comp) && out' == Coded(ps', comp) && Expand(ps') == Expand(ps) + WireAll(row)
    ensures ps' == ps + own && CutTo(row, own, |row|)
  {
    hide Coded, Expand, AllSound, AllWide, WireAll, CutTo, Cut, Sound, PacketBytes, Content;
    out', ps', own := out, ps, [];
    NoCut(row);
    var i := 0;
    while i < |row|
      invariant 0 <= i <= |row|
      invariant AllSound(ps', comp) && out' == Coded(ps', comp) && Expand(ps') == Expand(ps) + WireAll(row[..i])
      invariant ps' == ps + own && CutTo(row, own, i)
      decreases |row| - i
    {
      var diff, len := NextPacket(row, i);
      CutParts(row, i, diff, len);
      ghost var p;
      out', p := WritePacket(out', row, comp, i, diff, len);
      CodedSnoc(ps', p, comp);
      MorePixels(Expand(ps), row, i, len);
      NextCut(row, own, p, i, len);
      ps', own := ps' + [p], own + [p];
      i := i + len;
    }
    assert row[..|row|] == row;
  }

  lemma MorePixels(before: seq<Pixel>, row: seq<Pixel>, i: nat, len: nat)
    requires i + len <= |row|
    ensures (before + WireAll(row[..i])) + WireAll(row[i..i + len]) == before + WireAll(row[..i + len])
  {
    hide Wire;
    assert WireAll(row[..i + len]) == WireAll(row[..i]) + WireAll(row[i..i + len]);
  }

  lemma CutParts(row: seq<Pixel>, i: nat, diff: bool, len: nat)
    requires i < |row| && Cut(row, i, diff, len)
    ensures 1 <= len <= 128 && i + len <= |row|
    ensures !diff ==> forall k :: i <= k < i + len ==> row[k] == row[i]
  {
  }

  lemma NoCut(row: seq<Pixel>)
    ensures CutTo(row, [], 0) && WireAll(row[..0]) == []
  {
  }

  lemma NextCut(row: seq<Pixel>, ps: seq<Packet>, p: Packet, i: nat, len: nat)
    requires i < |row| && CutTo(row, ps, i) && Cut(row, i, p.Raw?, len) && |Content(p)| == len
    ensures i + len <= |row| && CutTo(row, ps + [p], i + len)
  {
    hide Content, Cut;
    assert (ps + [p])[..|ps|] == ps;
    CutParts(row, i, p.Raw?, len);
  }

  method WriteRaw(out: seq<Byte>, pixels: seq<Pixel>, comp: nat) returns (out': seq<Byte>)
    requires 1 <= comp <= 4 && 1 <= |pixels| <= 128 && AllWide(pixels, comp)
    ensures out' == out + PacketBytes(Raw(WireAll(pixels)))
  {
    hide Wire, Bytes, WireAll;
    out' := out + [|pixels| - 1];
    ghost var header, w := out', WireAll(pixels);
    NoBytes(w);
    for k := 0 to |pixels|
      invariant out' == header + Bytes(w[..k])
    {
      out' := WritePixel(out', pixels[k]);
      MoreBytes(pixels, k);
      ConcatAssoc(header, Bytes(w[..k]), Wire(pixels[k]));
    }
    assert w[..|pixels|] == w;
    ConcatAssoc(out, [|pixels| - 1], Bytes(w));
  }

  lemma NoBytes(w: seq<Pixel>)
    ensures Bytes(w[..0]) == []
  {
  }

  lemma MoreBytes(pixels: seq<Pixel>, k: nat)
    requires k < |pixels|
    ensures var w := WireAll(pixels); Bytes(w[..k + 1]) == Bytes(w[..k]) + Wire(pixels[k])
  {
    hide Bytes, Wire;
    var w := WireAll(pixels);
    BytesSnoc(w[..k], w[k]);
    assert w[..k + 1] == w[..k] + [w[k]];
  }

  /** The bytes are packets that expand to these pixels. */
  ghost predicate CodesPixels(out: seq<Byte>, comp: nat, pixels: seq<Pixel>)
  {
    exists ps :: AllSound(ps, comp) && out == Coded(ps, comp) && Expand(ps) == pixels
  }

  /** The packets of all rows. */
  ghost function Packets(parts: seq<seq<Packet>>): seq<Packet>
  {
    if parts == [] then [] else Packets(parts[..|parts| - 1]) + parts[|parts| - 1]
  }

  ghost predicate AllCut(rows: seq<seq<Pixel>>, parts: seq<seq<Packet>>)
  {
    |parts| == |rows| && forall j :: 0 <= j < |rows| ==> CutTo(rows[j], parts[j], |rows[j]|)
  }

  /** All rows, from the bottom to the top unless flipped, each cut into packets on its own. */
  method WriteImage(rows: seq<seq<Pixel>>, width: nat, comp: nat, flip: bool)
    returns (out: seq<Byte>, ghost ps: seq<Packet>, ghost parts: seq<seq<Packet>>)
    requires 1 <= comp <= 4 && IsImage(rows, width, comp)
    ensures ps == Packets(parts) && AllCut(if flip then rows else Upward(rows), parts)
    ensures CodesPixels(out, comp, WireAll(Join(if flip then rows else Upward(rows))))
    ensures AllSound(ps, comp) && out == Coded(ps, comp)
    ensures Expand(ps) == WireAll(Join(if flip then rows else Upward(rows)))
  {
    hide AllSound, Coded, Expand, WireAll, Join, CutTo, AllCut, Packets;
    out, ps, parts := [], [], [];
    ghost var order := if flip then rows else Upward(rows);
    NothingWritten(comp, order);
    var j := if flip then 0 else |rows| - 1;
    for n := 0 to |rows|
      invariant j == if flip then n else |rows| - 1 - n
      invariant AllSound(ps, comp) && out == Coded(ps, comp) && Expand(ps) == WireAll(Join(order[..n]))
      invariant ps == Packets(parts) && AllCut(order[..n], parts)
    {
      ghost var own;
      out, ps, own := WriteRow(out, rows[j], comp, ps);
      MoreCut(order, n, parts, own);
      parts := parts + [own];
      RowWritten(order, n);
      j := if flip then j + 1 else j - 1;
    }
    assert order[..|rows|] == order;
  }

  lemma NothingWritten(comp: nat, order: seq<seq<Pixel>>)
    ensures AllSound([], comp) && Coded([], comp) == [] && Expand([]) == WireAll(Join(order[..0]))
    ensures Packets([]) == [] && AllCut(order[..0], [])
  {
  }

  lemma MoreCut(order: seq<seq<Pixel>>, n: nat, parts: seq<seq<Packet>>, own: seq<Packet>)
    requires n < |order| && AllCut(order[..n], parts) && CutTo(order[n], own, |order[n]|)
    ensures AllCut(order[..n + 1], parts + [own]) && Packets(parts + [own]) == Packets(parts) + own
  {
    hide CutTo;
    assert (parts + [own])[..n] == parts;
    forall j | 0 <= j < n + 1 ensures CutTo(order[..n + 1][j], (parts + [own])[j], |order[..n + 1][j]|) {
      if j < n { assert order[..n][j] == order[j]; }
    }
  }

  lemma RowWritten(order: seq<seq<Pixel>>, n: nat)
    requires n < |order|
    ensures WireAll(Join(order[..n + 1])) == WireAll(Join(order[..n])) + WireAll(order[n])
  {
    hide Wire;
    assert order[..n + 1][..n] == order[..n];
  }

  // ---------------------------------------------------------------------------
  // The reader: stbi__tga_load, which sees zero bytes after the end of its input

  method ReadPixel(input: seq<Byte>, pos: nat, comp: nat) returns (raw: Pixel)
    ensures raw == PixelAt(input, pos, comp)
  {
    raw := [];
    for j := 0 to comp
      invariant raw == PixelAt(input, pos, j)
    {
      raw := raw + [ByteAt(input, pos + j)];
    }
  }

  /** What is left of the packet that has begun, and where it ends. A run that has begun has its pixel in
      raw already. */
  ghost predicate Left(
      input: seq<Byte>, pos: nat, comp: nat, count: nat, repeating: bool, raw: Pixel, some: seq<Pixel>, end: nat)
  {
    |some| == count &&
    if count > 0 && repeating then some == Repeat(raw, count) && end == pos
    else some == PixelsAt(input, pos, comp, count) && end == pos + |Bytes(some)|
  }

  /** The next n pixels when some of a packet that ends at end are left. */
  ghost function Next(input: seq<Byte>, comp: nat, some: seq<Pixel>, end: nat, n: nat): seq<Pixel>
  {
    if n <= |some| then some[..n] else some + Unpack(input, end, n - |some|, comp)
  }

  lemma NextFirst(input: seq<Byte>, comp: nat, some: seq<Pixel>, end: nat, n: nat)
    requires some != [] && n > 0
    ensures Next(input, comp, some, end, n) == [some[0]] + Next(input, comp, some[1..], end, n - 1)
  {
    hide Unpack;
    if n <= |some| {
      assert some[..n] == [some[0]] + some[1..][..n - 1];
    } else {
      assert some == [some[0]] + some[1..];
      ConcatAssoc([some[0]], some[1..], Unpack(input, end, n - |some|, comp));
    }
  }

  lemma NextPacketBegins(input: seq<Byte>, comp: nat, pos: nat, n: nat)
    requires n > 0
    ensures
      var p := PacketAt(input, pos, comp);
      && Next(input, comp, [], pos, n) == Next(input, comp, Content(p), pos + |PacketBytes(p)|, n)
      && Content(p) != []
  {
    hide PacketAt;
    assert [] + Unpack(input, pos, n, comp) == Unpack(input, pos, n, comp);
  }

  /** One turn of the packet loop: the next pixel. */
  method ReadNext(
      input: seq<Byte>, pos: nat, comp: nat, count: nat, repeating: bool, raw: Pixel, ghost some: seq<Pixel>,
      ghost end: nat)
    returns (pos': nat, count': nat, repeating': bool, raw': Pixel, ghost some': seq<Pixel>, ghost end': nat)
    requires Left(input, pos, comp, count, repeating, raw, some, end)
    ensures Left(input, pos', comp, count', repeating', raw', some', end')
    ensures forall n: nat :: n > 0 ==> Next(input, comp, some, end, n) == [raw'] + Next(input, comp, some', end', n - 1)
  {
    hide Next, Unpack, PacketAt, Content, PacketBytes, PixelAt, Repeat;
    pos', count', repeating', raw', some', end' := pos, count, repeating, raw, some, end;
    var next := false;
    if count' == 0 {
      NothingBegun(input, pos, comp, some, end);
      ghost var p := PacketAt(input, pos, comp);
      forall n: nat | n > 0
        ensures Next(input, comp, some, end, n) == Next(input, comp, Content(p), pos + |PacketBytes(p)|, n)
      {
        NextPacketBegins(input, comp, pos, n);
      }
      HeaderByte(input, pos, comp);
      var cmd := ByteAt(input, pos');
      pos' := pos' + 1;
      count' := 1 + cmd % 128;
      repeating' := cmd / 128 == 1;
      next := true;
      some', end' := Content(p), pos + |PacketBytes(p)|;
    } else if !repeating' {
      next := true;
    }
    ghost var all := some';
    forall n: nat | n > 0
      ensures Next(input, comp, all, end', n) == [all[0]] + Next(input, comp, all[1..], end', n - 1)
    {
      NextFirst(input, comp, all, end', n);
    }
    if next {
      FirstPixel(input, pos', comp, count');
      raw' := ReadPixel(input, pos', comp);
      pos' := pos' + comp;
    }
    if repeating' { RepeatRest(raw', count'); }
    some' := some'[1..];
    count' := count' - 1;
    NothingLeft(input, pos', comp);
  }

  lemma NothingBegun(input: seq<Byte>, pos: nat, comp: nat, some: seq<Pixel>, end: nat)
    requires some == [] && some == PixelsAt(input, pos, comp, 0) && end == pos + |Bytes(some)|
    ensures end == pos
  {
  }

  lemma NothingLeft(input: seq<Byte>, pos: nat, comp: nat)
    ensures PixelsAt(input, pos, comp, 0) == [] && Bytes([]) == []
  {
  }

  /** What a header byte announces: the rest of a raw packet, or a run whose pixel follows. */
  lemma HeaderByte(input: seq<Byte>, pos: nat, comp: nat)
    ensures
      var cmd, p := ByteAt(input, pos), PacketAt(input, pos, comp);
      && |Content(p)| == 1 + cmd % 128
      && if cmd / 128 == 1 then
           Content(p) == Repeat(PixelAt(input, pos + 1, comp), 1 + cmd % 128) && |PacketBytes(p)| == 1 + comp
         else
           Content(p) == PixelsAt(input, pos + 1, comp, 1 + cmd % 128) && |PacketBytes(p)| == 1 + |Bytes(Content(p))|
  {
  }

  lemma FirstPixel(input: seq<Byte>, pos: nat, comp: nat, count: nat)
    requires count > 0
    ensures
      var s := PixelsAt(input, pos, comp, count);
      && s[0] == PixelAt(input, pos, comp) && s[1..] == PixelsAt(input, pos + comp, comp, count - 1)
      && |Bytes(s)| == comp + |Bytes(s[1..])|
    ensures Repeat(PixelAt(input, pos, comp), count)[0] == PixelAt(input, pos, comp)
  {
  }

  lemma RepeatRest(p: Pixel, n: nat)
    requires n > 0
    ensures Repeat(p, n)[0] == p && Repeat(p, n)[1..] == Repeat(p, n - 1)
  {
  }

  /** The packet loop, for any input: n pixels of the packets that begin at start. */
  method ReadPackets(input: seq<Byte>, start: nat, n: nat, comp: nat) returns (data: seq<Pixel>)
    ensures data == Unpack(input, start, n, comp)
  {
    hide Left, Unpack, Next;
    data := [];
    var pos: nat, count: nat, repeating, raw: Pixel := start, 0, false, [];
    ghost var some: seq<Pixel>, end := [], start;
    StartReading(input, start, comp, n);
    for i := 0 to n
      invariant |data| == i && data + Next(input, comp, some, end, n - i) == Unpack(input, start, n, comp)
      invariant Left(input, pos, comp, count, repeating, raw, some, end)
    {
      pos, count, repeating, raw, some, end := ReadNext(input, pos, comp, count, repeating, raw, some, end);
      ConcatAssoc(data, [raw], Next(input, comp, some, end, n - i - 1));
      data := data + [raw];
    }
    NothingMore(input, comp, some, end, data);
  }

  lemma NothingMore(input: seq<Byte>, comp: nat, some: seq<Pixel>, end: nat, data: seq<Pixel>)
    ensures data + Next(input, comp, some, end, 0) == data
  {
  }

  lemma StartReading(input: seq<Byte>, start: nat, comp: nat, n: nat)
    ensures Left(input, start, comp, 0, false, [], [], start)
    ensures [] + Next(input, comp, [], start, n) == Unpack(input, start, n, comp)
  {
    assert [] + Unpack(input, start, n, comp) == Unpack(input, start, n, comp);
  }

  /** The inversion loop: rows change places from the two ends on. */
  method Invert(rows: array<seq<Pixel>>)
    modifies rows
    ensures rows[..] == Upward(old(rows[..]))
  {
    var h := rows.Length;
    var j := 0;
    while j * 2 < h
      invariant 0 <= j && j * 2 <= h + 1
      invariant forall r :: 0 <= r < h ==>
        rows[r] == if r < j || h - 1 - r < j then old(rows[h - 1 - r]) else old(rows[r])
    {
      rows[j], rows[h - 1 - j] := rows[h - 1 - j], rows[j];
      j := j + 1;
    }
  }

  lemma RowBound(r: nat, width: nat, height: nat)
    requires r < height
    ensures 0 <= r * width <= (r + 1) * width <= width * height
  {
    RowMono(r, r + 1, width);
    RowMono(r + 1, height, width);
  }

  lemma {:induction false} RowMono(a: nat, b: nat, width: nat)
    requires a <= b
    ensures a * width <= b * width
    decreases b
  {
    if a < b {
      RowMono(a, b - 1, width);
      assert b * width == (b - 1) * width + width;
    }
  }

  /** Row r of the pixels in file order. */
  function FileRow(data: seq<Pixel>, width: nat, height: nat, r: nat): seq<Pixel>
    requires |data| == width * height && r < height
  {
    RowBound(r, width, height);
    data[r * width..(r + 1) * width]
  }

  /** The image that the pixels mean when the first row in the file is the bottom one. */
  function ImageOf(data: seq<Pixel>, width: nat, height: nat): (image: seq<seq<Pixel>>)
    requires |data| == width * height
    ensures |image| == height
  {
    seq(height, r requires 0 <= r < height => WireAll(FileRow(data, width, height, height - 1 - r)))
  }

  /** Reading an image, from any input: packets, row inversion, and the exchange of red and blue. */
  method Load(input: seq<Byte>, start: nat, width: nat, height: nat, comp: nat) returns (image: seq<seq<Pixel>>)
    ensures |Unpack(input, start, width * height, comp)| == width * height
    ensures image == ImageOf(Unpack(input, start, width * height, comp), width, height)
  {
    hide Unpack, WireAll, FileRow;
    var data := ReadPackets(input, start, width * height, comp);
    UnpackLength(input, start, width * height, comp);
    var rows := SplitRows(data, width, height);
    Invert(rows);
    SwapAll(rows);
    image := rows[..];
  }

  /** The exchange of red and blue in every row. */
  method SwapAll(rows: array<seq<Pixel>>)
    modifies rows
    ensures forall k :: 0 <= k < rows.Length ==> rows[k] == WireAll(old(rows[k]))
  {
    hide WireAll;
    for r := 0 to rows.Length
      invariant forall k :: 0 <= k < rows.Length ==> rows[k] == if k < r then WireAll(old(rows[k])) else old(rows[k])
    {
      rows[r] := SwapComponents(rows[r]);
    }
  }

  method SplitRows(data: seq<Pixel>, width: nat, height: nat) returns (rows: array<seq<Pixel>>)
    requires |data| == width * height
    ensures fresh(rows) && rows.Length == height
    ensures forall k :: 0 <= k < height ==> rows[k] == FileRow(data, width, height, k)
  {
    rows := new seq<Pixel>[height](_ => []);
    for r := 0 to height
      invariant forall k :: 0 <= k < r ==> rows[k] == FileRow(data, width, height, k)
    {
      RowBound(r, width, height);
      rows[r] := data[r * width..(r + 1) * width];
    }
  }

  lemma WireSlice(pixels: seq<Pixel>, i: nat, j: nat)
    requires i <= j <= |pixels|
    ensures WireAll(pixels)[i..j] == WireAll(pixels[i..j])
  {
    hide Wire;
  }

  lemma WireAllTwice(pixels: seq<Pixel>)
    ensures WireAll(WireAll(pixels)) == pixels
  {
    forall i | 0 <= i < |pixels| ensures Wire(Wire(pixels[i])) == pixels[i] { WireTwice(pixels[i]); }
  }

  /** The exchange of red and blue. */
  method SwapComponents(row: seq<Pixel>) returns (r: seq<Pixel>)
    ensures |r| == |row| && r == WireAll(row)
  {
    r := [];
    for i := 0 to |row|
      invariant r == WireAll(row[..i])
    {
      var p := row[i];
      if |p| == 3 || |p| == 4 { p := p[0 := p[2]][2 := p[0]]; }
      assert p == Wire(row[i]);
      assert WireAll(row[..i + 1]) == WireAll(row[..i]) + [Wire(row[i])];
      r := r + [p];
    }
    assert row[..|row|] == row;
  }

  /** The rows of what was written are the rows of the image. */
  lemma RowsBack(order: seq<seq<Pixel>>, width: nat)
    requires forall r :: 0 <= r < |order| ==> |order[r]| == width
    ensures |WireAll(Join(order))| == width * |order|
    ensures ImageOf(WireAll(Join(order)), width, |order|) == Upward(order)
  {
    hide Join, WireAll;
    JoinLength(order, width);
    forall r | 0 <= r < |order|
      ensures WireAll(FileRow(WireAll(Join(order)), width, |order|, r)) == order[r]
    {
      JoinAt(order, width, r);
      WireSlice(Join(order), r * width, (r + 1) * width);
      WireAllTwice(order[r]);
    }
  }

  lemma WrittenStands(before: seq<Byte>, out: seq<Byte>, after: seq<Byte>)
    ensures Stands(before + out + after, |before|, out)
  {
  }

  /** Writing an image and reading it back restores it, whatever stands before and after it; with the
      writer's flip it comes back upside down. */
  method RoundTrip(rows: seq<seq<Pixel>>, width: nat, comp: nat, flip: bool, before: seq<Byte>, after: seq<Byte>)
    returns (image: seq<seq<Pixel>>)
    requires 1 <= comp <= 4 && IsImage(rows, width, comp)
    ensures image == if flip then Upward(rows) else rows
  {
    hide AllSound, Coded, Expand, Stands, Unpack, ImageOf, WireAll, Join, CodesPixels, AllWide, Packets, AllCut;
    var out;
    ghost var ps;
    ghost var parts;
    out, ps, parts := WriteImage(rows, width, comp, flip);
    ghost var order := if flip then rows else Upward(rows);
    WrittenStands(before, out, after);
    UnpackCoded(before + out + after, |before|, comp, ps);
    RowsBack(order, width);
    image := Load(before + out + after, |before|, width, |rows|, comp);
    assert Upward(Upward(rows)) == rows;
  }
}
