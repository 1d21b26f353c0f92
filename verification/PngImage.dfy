/** Whole 8-bit PNG images: filter bytes, rows, and their passage through zlib. */
module PngImage {
  import opened BitStrings
  import opened PngFilter
  import opened Inflate
  import opened Wrappers
  import opened ZlibRoundTrip

  type Row = seq<Byte>

  /** An image of rows of w bytes, at least one pixel of n bytes wide. */
  predicate Image(rows: seq<Row>, w: nat, n: nat)
  {
    0 < n <= w && forall j :: 0 <= j < |rows| ==> |rows[j]| == w
  }

  /** A row of x times n bytes consists of whole pixels. */
  lemma {:induction false} PixelsOfWidth(row: Row, x: nat, n: nat)
    requires n > 0 && |row| == x * n
    ensures Pixels(row, n)
  {
    if x > 0 {
      assert x * n == (x - 1) * n + n;
      PixelsOfWidth(row[n..], x - 1, n);
    }
  }

  /** The filtered image: for each row its filter type and the filtered bytes. */
  function Encoded(rows: seq<Row>, filters: seq<nat>, n: nat, up: Row): seq<Byte>
    requires |filters| == |rows| && forall j :: 0 <= j < |filters| ==> filters[j] < 5
  {
    if rows == [] then []
    else [filters[0]] + Filtered(filters[0], rows[0], up, n) + Encoded(rows[1..], filters[1..], n, rows[0])
  }

  /** The specification's reading of y rows, None when there is too little data or a bad filter type. */
  function Decoded(raw: seq<Byte>, w: nat, n: nat, y: nat, up: Row): Option<seq<Row>>
    requires n > 0
    decreases y
  {
    if y == 0 then Some([])
    else if |raw| < w + 1 || raw[0] > 4 then None
    else
      var row := Reconstructed(raw[0], raw[1..w + 1], up, n);
      match Decoded(raw[w + 1..], w, n, y - 1, row)
      case None => None
      case Some(rows) => Some([row] + rows)
  }

  /** Reading what was written restores the image, whatever filters were chosen and whatever follows. */
  lemma {:induction false} EncodedRoundTrip(
      rows: seq<Row>, filters: seq<nat>, w: nat, n: nat, up: Row, extra: seq<Byte>)
    requires |filters| == |rows| && (forall j :: 0 <= j < |filters| ==> filters[j] < 5) && Image(rows, w, n)
    ensures Decoded(Encoded(rows, filters, n, up) + extra, w, n, |rows|, up) == Some(rows)
    decreases |rows|
  {
    hide Filtered, Reconstructed, Pixels;
    if rows != [] {
      var f := Filtered(filters[0], rows[0], up, n);
      var rest := Encoded(rows[1..], filters[1..], n, rows[0]);
      FirstRow(filters[0], f, rest, extra);
      FilterRoundTrip(filters[0], rows[0], up, n);
      EncodedRoundTrip(rows[1..], filters[1..], w, n, rows[0], extra);
      assert [rows[0]] + rows[1..] == rows;
    }
  }

  lemma FirstRow(filter: Byte, f: seq<Byte>, rest: seq<Byte>, extra: seq<Byte>)
    ensures
      var raw := ([filter] + f + rest) + extra;
      |raw| >= |f| + 1 && raw[0] == filter && raw[1..|f| + 1] == f && raw[|f| + 1..] == rest + extra
  {
  }

  lemma {:induction false} EncodedLength(rows: seq<Row>, filters: seq<nat>, w: nat, n: nat, up: Row)
    requires |filters| == |rows| && (forall j :: 0 <= j < |filters| ==> filters[j] < 5) && Image(rows, w, n)
    ensures |Encoded(rows, filters, n, up)| == (w + 1) * |rows|
    decreases |rows|
  {
    hide Filtered;
    if rows != [] {
      EncodedLength(rows[1..], filters[1..], w, n, rows[0]);
      RowsLeft(w, |rows|, 0);
    }
  }

  /** The bytes are the filtered image, with the forced filter if there is one and otherwise for every row with
      the one that is best for it. */
  ghost predicate CodesRows(filt: seq<Byte>, rows: seq<Row>, n: nat, force: int)
  {
    exists filters: seq<nat> :: FilterChoice(filters, rows, n, force) && filt == Encoded(rows, filters, n, [])
  }

  ghost predicate FilterChoice(filters: seq<nat>, rows: seq<Row>, n: nat, force: int)
  {
    |filters| == |rows| && forall j :: 0 <= j < |filters| ==> filters[j] < 5 && Picked(filters[j], rows, n, force, j)
  }

  /** The filter of row j. Sums of rows beyond 2^24 bytes may exceed the bound that the search begins with. */
  ghost predicate Picked(filter: nat, rows: seq<Row>, n: nat, force: int, j: nat)
    requires j < |rows|
  {
    if 0 <= force < 5 then filter == force
    else |rows[j]| <= 0xff_ffff ==> Cheapest(filter, rows[j], if j == 0 then [] else rows[j - 1], n)
  }

  /** The row loop of stbi_write_png_to_mem. */
  method FilterImage(rows: seq<Row>, w: nat, n: nat, force: int) returns (filt: seq<Byte>, ghost filters: seq<nat>)
    requires Image(rows, w, n)
    ensures |filters| == |rows| && (forall j :: 0 <= j < |filters| ==> filters[j] < 5)
    ensures filt == Encoded(rows, filters, n, [])
    ensures forall j :: 0 <= j < |filters| ==> Picked(filters[j], rows, n, force, j)
    ensures CodesRows(filt, rows, n, force)
  {
    hide Filtered, Encoded, Estimate, Cheapest, Picked;
    filt, filters := [], [];
    NothingEncoded(rows, n);
    for j := 0 to |rows|
      invariant |filters| == j && forall k :: 0 <= k < j ==> filters[k] < 5
      invariant forall k :: 0 <= k < j ==> Picked(filters[k], rows, n, force, k)
      invariant filt == Encoded(rows[..j], filters, n, [])
    {
      var up := if j == 0 then [] else rows[j - 1];
      var filter, line := ChooseFilter(rows[j], up, n, force);
      PickedHere(filter, rows, n, force, j);
      EncodedSnoc(rows[..j], filters, n, [], rows[j], filter);
      assert rows[..j] + [rows[j]] == rows[..j + 1];
      filt := filt + [filter] + line;
      filters := filters + [filter];
    }
    assert rows[..|rows|] == rows;
    assert FilterChoice(filters, rows, n, force);
  }

  lemma NothingEncoded(rows: seq<Row>, n: nat)
    ensures Encoded(rows[..0], [], n, []) == []
  {
  }

  lemma PickedHere(filter: nat, rows: seq<Row>, n: nat, force: int, j: nat)
    requires j < |rows| && (0 <= force < 5 ==> filter == force)
    requires !(0 <= force < 5) && |rows[j]| <= 0xff_ffff ==>
      Cheapest(filter, rows[j], if j == 0 then [] else rows[j - 1], n)
    ensures Picked(filter, rows, n, force, j)
  {
  }

  lemma {:induction false} EncodedSnoc(rows: seq<Row>, filters: seq<nat>, n: nat, up: Row, row: Row, filter: nat)
    requires |filters| == |rows| && (forall j :: 0 <= j < |filters| ==> filters[j] < 5) && filter < 5
    ensures Encoded(rows + [row], filters + [filter], n, up) ==
      Encoded(rows, filters, n, up) + [filter] + Filtered(filter, row, if rows == [] then up else rows[|rows| - 1], n)
    decreases |rows|
  {
    hide Filtered;
    if rows == [] {
      assert (rows + [row])[1..] == [];
    } else {
      EncodedSnoc(rows[1..], filters[1..], n, rows[0], row, filter);
      assert (rows + [row])[1..] == rows[1..] + [row] && (filters + [filter])[1..] == filters[1..] + [filter];
      var head := [filters[0]] + Filtered(filters[0], rows[0], up, n);
      var rest := Encoded(rows[1..], filters[1..], n, rows[0]);
      var last := if |rows| == 1 then rows[0] else rows[1..][|rows| - 2];
      assert last == rows[|rows| - 1];
      ConcatAssoc(head, rest + [filter], Filtered(filter, row, last, n));
      ConcatAssoc(head, rest, [filter]);
    }
  }

  /** A restored row as it stands in the output. */
  function OutRow(row: Row, n: nat, alpha: bool): Row
    requires n > 0
  {
    if alpha then WithAlpha(row, n) else row
  }

  function OutRows(rows: seq<Row>, n: nat, alpha: bool): (r: seq<Row>)
    requires n > 0
    ensures |r| == |rows|
  {
    seq(|rows|, j requires 0 <= j < |rows| => OutRow(rows[j], n, alpha))
  }

  lemma OutRowsSnoc(rows: seq<Row>, row: Row, n: nat, alpha: bool)
    requires n > 0
    ensures OutRows(rows + [row], n, alpha) == OutRows(rows, n, alpha) + [OutRow(row, n, alpha)]
  {
  }

  lemma {:induction false} TooShort(raw: seq<Byte>, w: nat, n: nat, y: nat, up: Row)
    requires n > 0 && |raw| < (w + 1) * y
    ensures Decoded(raw, w, n, y, up) == None
    decreases y
  {
    if |raw| >= w + 1 && raw[0] <= 4 {
      hide Reconstructed;
      assert (w + 1) * y == (w + 1) * (y - 1) + (w + 1);
      TooShort(raw[w + 1..], w, n, y - 1, Reconstructed(raw[0], raw[1..w + 1], up, n));
    }
  }

  function Prepend(rows: seq<Row>, d: Option<seq<Row>>): Option<seq<Row>>
  {
    match d case None => None case Some(t) => Some(rows + t)
  }

  lemma DecodedEnds(raw: seq<Byte>, w: nat, n: nat, y: nat)
    requires n > 0
    ensures Decoded(raw, w, n, y, []) == Prepend([], Decoded(raw, w, n, y, []))
  {
    var d := Decoded(raw, w, n, y, []);
    if d.Some? { assert [] + d.value == d.value; }
  }

  lemma DecodedNone(rows: seq<Row>, raw: seq<Byte>, w: nat, n: nat, up: Row)
    requires n > 0
    ensures Prepend(rows, Decoded(raw, w, n, 0, up)) == Some(rows)
  {
    assert rows + [] == rows;
  }

  lemma DecodedStep(rows: seq<Row>, raw: seq<Byte>, w: nat, n: nat, y: nat, up: Row)
    requires n > 0 && y > 0 && |raw| >= w + 1
    ensures raw[0] > 4 ==> Prepend(rows, Decoded(raw, w, n, y, up)) == None
    ensures raw[0] <= 4 ==>
      var row := Reconstructed(raw[0], raw[1..w + 1], up, n);
      Prepend(rows, Decoded(raw, w, n, y, up)) == Prepend(rows + [row], Decoded(raw[w + 1..], w, n, y - 1, row))
  {
    if raw[0] <= 4 {
      var row := Reconstructed(raw[0], raw[1..w + 1], up, n);
      var d := Decoded(raw[w + 1..], w, n, y - 1, row);
      if d.Some? { ConcatAssoc(rows, [row], d.value); }
    }
  }

  method UnfilterEither(filter: nat, f: Row, ghost up: Row, upOut: Row, n: nat, alpha: bool) returns (cur: Row)
    requires filter <= 4 && 0 < n <= |f| && Pixels(f, n) && (up == [] || |up| == |f|) && upOut == OutRow(up, n, alpha)
    ensures cur == OutRow(Reconstructed(filter, f, up, n), n, alpha)
  {
    if alpha {
      cur := UnfilterRowAlpha(filter, f, up, upOut, n);
    } else {
      var a := UnfilterRow(filter, f, upOut, n);
      cur := a[..];
    }
  }

  lemma RowsLeft(w: nat, y: nat, j: nat)
    requires j < y
    ensures (w + 1) * (y - j) == (w + 1) * (y - (j + 1)) + (w + 1) >= w + 1
  {
  }

  /** The row loop of stbi__create_png_image_raw for 8-bit samples; with alpha set, out_n is n + 1. */
  method UnfilterImage(raw: seq<Byte>, x: nat, n: nat, y: nat, alpha: bool) returns (r: Option<seq<Row>>)
    requires 0 < n && 0 < x
    ensures var d := Decoded(raw, x * n, n, y, []);
      r == if d.None? then None else Some(OutRows(d.value, n, alpha))
  {
    hide Reconstructed, Pixels, OutRows, Decoded;
    var w := x * n;
    AtLeastOne(x, n);
    if |raw| < (w + 1) * y {
      TooShort(raw, w, n, y, []);
      return None;
    }
    DecodedEnds(raw, w, n, y);
    NoRows(n, alpha);
    ghost var rows: seq<Row>, up: Row := [], [];
    var out: seq<Row>, upOut: Row := [], [];
    var rest := raw;
    for j := 0 to y
      invariant |rest| >= (w + 1) * (y - j) && (up == [] || |up| == w)
      invariant upOut == OutRow(up, n, alpha) && out == OutRows(rows, n, alpha)
      invariant Decoded(raw, w, n, y, []) == Prepend(rows, Decoded(rest, w, n, y - j, up))
    {
      hide OutRow;
      RowsLeft(w, y, j);
      DecodedStep(rows, rest, w, n, y - j, up);
      var filter := rest[0];
      if filter > 4 { return None; }
      var f := rest[1..w + 1];
      PixelsOfWidth(f, x, n);
      ghost var row := Reconstructed(filter, f, up, n);
      upOut := UnfilterEither(filter, f, up, upOut, n, alpha);
      OutRowsSnoc(rows, row, n, alpha);
      out := out + [upOut];
      rows, up := rows + [row], row;
      rest := rest[w + 1..];
    }
    DecodedNone(rows, rest, w, n, up);
    return Some(out);
  }

  lemma AtLeastOne(x: nat, n: nat)
    requires x > 0
    ensures x * n >= n
  {
    assert x * n == (x - 1) * n + n;
  }

  lemma NoRows(n: nat, alpha: bool)
    requires n > 0
    ensures OutRows([], n, alpha) == [] && OutRow([], n, alpha) == []
  {
  }

  /** Writing the image data of a PNG file and reading it back: filter, compress, decode, unfilter. The
      rows come back, with 255 after each pixel when alpha is requested. */
  method PngRoundTrip(rows: seq<Row>, x: nat, n: nat, force: int, quality: int, alpha: bool)
    returns (r: Option<seq<Row>>)
    requires 0 < n && 0 < x && rows != [] && (forall j :: 0 <= j < |rows| ==> |rows[j]| == x * n)
    requires (x * n + 1) * |rows| <= 0x7fff_ffff
    ensures r == Some(OutRows(rows, n, alpha))
  {
    hide Reconstructed, Pixels, OutRows, Decoded, Encoded, Filtered;
    var w := x * n;
    AtLeastOne(x, n);
    var filt;
    ghost var filters;
    filt, filters := FilterImage(rows, w, n, force);
    EncodedLength(rows, filters, w, n, []);
    RowsLeft(w, |rows|, 0);
    var back := RoundTrip(filt, quality, (w + 1) * |rows|);
    assert filt + [] == filt;
    EncodedRoundTrip(rows, filters, w, n, [], []);
    r := UnfilterImage(back.value, x, n, |rows|, alpha);
  }
}
