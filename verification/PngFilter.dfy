/** PNG scanline filters (section 9 of the PNG specification): stbiw__encode_png_line and the filter
    choice of stbi_write_png_to_mem on one side, the 8-bit part of stbi__create_png_image_raw on the other. */
module PngFilter {
  import opened BitStrings

  function Abs(x: int): nat { if x < 0 then -x else x }

  /** stbi__paeth and stbiw__paeth. */
  function Paeth(a: Byte, b: Byte, c: Byte): (r: Byte)
    ensures r == a || r == b || r == c
  {
    var p := a as int + b - c;
    var pa, pb, pc := Abs(p - a), Abs(p - b), Abs(p - c);
    if pa <= pb && pa <= pc then a else if pb <= pc then b else c
  }

  /** The specification's predictor for filter types 0 to 4; a is the byte to the left, b the byte
      above and c the one above left, each 0 outside the image. */
  function Predict(filter: nat, a: Byte, b: Byte, c: Byte): Byte
  {
    match filter
    case 1 => a
    case 2 => b
    case 3 => (a as int + b) / 2
    case 4 => Paeth(a, b, c)
    case _ => 0
  }

  /** x is as near to the estimate p as y is. */
  predicate AsNear(p: int, x: int, y: int)
  {
    -(if p < y then y - p else p - y) <= p - x <= (if p < y then y - p else p - y)
  }

  /** The Paeth predictor is the one of a, b and c that is nearest to a + b - c, and on a tie the first of
      them in this order. */
  lemma PaethNearest(a: Byte, b: Byte, c: Byte)
    ensures
      var p, r := a as int + b - c, Paeth(a, b, c);
      && (r == a || r == b || r == c) && AsNear(p, r, a) && AsNear(p, r, b) && AsNear(p, r, c)
      && (AsNear(p, a, b) && AsNear(p, a, c) ==> r == a)
      && (AsNear(p, b, c) && !AsNear(p, a, b) ==> r == b)
      && (!AsNear(p, a, c) && !AsNear(p, b, c) ==> r == c)
  {
  }

  /** The five predictors of section 9.2 of the PNG specification. */
  lemma PredictorIs(filter: nat, a: Byte, b: Byte, c: Byte)
    requires filter < 5
    ensures
      var r := Predict(filter, a, b, c);
      && (filter == 0 ==> r == 0) && (filter == 1 ==> r == a) && (filter == 2 ==> r == b)
      && (filter == 3 ==> 2 * r <= a as int + b <= 2 * r + 1)
      && (filter == 4 ==>
            AsNear(a as int + b - c, r, a) && AsNear(a as int + b - c, r, b) && AsNear(a as int + b - c, r, c))
  {
    PaethNearest(a, b, c);
  }

  function Left(row: seq<Byte>, i: nat, n: nat): Byte
    requires i < |row|
  {
    if i < n then 0 else row[i - n]
  }

  /** The byte i of the row above, which is all zero above the first row. */
  function Above(up: seq<Byte>, i: int): Byte
  {
    if 0 <= i < |up| then up[i] else 0
  }

  /** What the specification predicts for byte i of a row with n bytes per pixel. */
  function Prediction(filter: nat, row: seq<Byte>, up: seq<Byte>, i: nat, n: nat): Byte
    requires i < |row|
  {
    Predict(filter, Left(row, i, n), Above(up, i), if i < n then 0 else Above(up, i - n))
  }

  function Filtered(filter: nat, row: seq<Byte>, up: seq<Byte>, n: nat): (f: seq<Byte>)
    ensures |f| == |row|
  {
    seq(|row|, i requires 0 <= i < |row| => (row[i] as int - Prediction(filter, row, up, i, n)) % 256)
  }

  /** The specification's reconstruction, byte by byte from the left. */
  function Reconstructed(filter: nat, f: seq<Byte>, up: seq<Byte>, n: nat): (row: seq<Byte>)
    requires n > 0
    ensures |row| == |f|
  {
    if f == [] then []
    else
      var k := |f| - 1;
      var init := Reconstructed(filter, f[..k], up, n);
      init + [Restored(filter, init, up, n, f[k])]
  }

  /** The next byte of a row, from its filtered value. */
  function Restored(filter: nat, row: seq<Byte>, up: seq<Byte>, n: nat, x: Byte): Byte
    requires n > 0
  {
    var i := |row|;
    var a := if i < n then 0 else row[i - n];
    (x as int + Predict(filter, a, Above(up, i), if i < n then 0 else Above(up, i - n))) % 256
  }

  lemma ByteUndo(x: Byte, p: Byte)
    ensures ((x as int - p) % 256 + p) % 256 == x
  {
  }

  /** A filtered byte and its prediction add up to the byte of the row. */
  lemma FilteredMeans(filter: nat, row: seq<Byte>, up: seq<Byte>, n: nat, i: nat)
    requires i < |row|
    ensures
      var a, b := if i < n then 0 else row[i - n], if i < |up| then up[i] else 0;
      var c := if i < n || i - n >= |up| then 0 else up[i - n];
      (Filtered(filter, row, up, n)[i] as int + Predict(filter, a, b, c)) % 256 == row[i]
  {
    hide Predict;
    ByteUndo(row[i], Prediction(filter, row, up, i, n));
  }

  /** Reconstruction undoes filtering, for every filter type and every row above. */
  lemma {:induction false} FilterRoundTrip(filter: nat, row: seq<Byte>, up: seq<Byte>, n: nat)
    requires n > 0
    ensures Reconstructed(filter, Filtered(filter, row, up, n), up, n) == row
  {
    if row != [] {
      var k := |row| - 1;
      var f := Filtered(filter, row, up, n);
      assert f[..k] == Filtered(filter, row[..k], up, n);
      FilterRoundTrip(filter, row[..k], up, n);
      ByteUndo(row[k], Prediction(filter, row, up, k, n));
      assert row == row[..k] + [row[k]];
    }
  }

  // ---------------------------------------------------------------------------
  // The writer

  /** The mapping of the requested filter to the loops of stbiw__encode_png_line; on the first row
      "up" becomes "none" and "average" and "Paeth" have variants that do not look up. */
  function LineType(first: bool, filter: nat): nat
    requires filter < 5
  {
    if first then [0, 1, 0, 5, 6][filter] else [0, 1, 2, 3, 4][filter]
  }

  /** One line of the switch for the first pixel. */
  function FirstPixel(ty: nat, z: Byte, b: Byte): Byte
  {
    match ty
    case 2 => (z as int - b) % 256
    case 3 => (z as int - b / 2) % 256
    case 4 => (z as int - Paeth(0, b, 0)) % 256
    case _ => z
  }

  /** One line of the switch for the other pixels. */
  function OtherPixel(ty: nat, z: Byte, a: Byte, b: Byte, c: Byte): Byte
  {
    match ty
    case 1 => (z as int - a) % 256
    case 2 => (z as int - b) % 256
    case 3 => (z as int - (a as int + b) / 2) % 256
    case 4 => (z as int - Paeth(a, b, c)) % 256
    case 5 => (z as int - a / 2) % 256
    case 6 => (z as int - Paeth(a, 0, 0)) % 256
    case _ => z
  }

  /** The switches compute the filtered byte, also on the first row. */
  lemma LineByte(row: seq<Byte>, up: seq<Byte>, n: nat, filter: nat, i: nat)
    requires filter < 5 && 0 < n && i < |row| && (up == [] || |up| == |row|)
    ensures Filtered(filter, row, up, n)[i] ==
      if i < n then FirstPixel(LineType(up == [], filter), row[i], Above(up, i))
      else OtherPixel(LineType(up == [], filter), row[i], row[i - n], Above(up, i), Above(up, i - n))
  {
    hide Predict, FirstPixel, OtherPixel, LineType;
    assert up == [] ==> Above(up, i) == 0 && Above(up, i - n) == 0;
    if i < n {
      FirstPixelIs(up == [], filter, row[i], Above(up, i));
    } else {
      OtherPixelIs(up == [], filter, row[i], row[i - n], Above(up, i), Above(up, i - n));
    }
  }

  lemma FirstPixelIs(first: bool, filter: nat, z: Byte, b: Byte)
    requires filter < 5 && (first ==> b == 0)
    ensures FirstPixel(LineType(first, filter), z, b) == (z as int - Predict(filter, 0, b, 0)) % 256
  {
    hide Paeth, LineType;
    PaethLeft(0);
    LineTypes(first, filter);
  }

  lemma OtherPixelIs(first: bool, filter: nat, z: Byte, a: Byte, b: Byte, c: Byte)
    requires filter < 5 && (first ==> b == 0 && c == 0)
    ensures OtherPixel(LineType(first, filter), z, a, b, c) == (z as int - Predict(filter, a, b, c)) % 256
  {
    hide Paeth, LineType;
    LineTypes(first, filter);
  }

  lemma LineTypes(first: bool, filter: nat)
    requires filter < 5
    ensures LineType(first, filter) ==
      if first && filter == 2 then 0 else if first && filter >= 3 then filter + 2 else filter
  {
  }

  lemma PaethLeft(a: Byte)
    ensures Paeth(a, 0, 0) == a
  {
  }

  /** stbiw__encode_png_line: what the specification prescribes for the filter, also on the first row. */
  method EncodeLine(row: seq<Byte>, up: seq<Byte>, n: nat, filter: nat) returns (line: array<int>)
    requires filter < 5 && 0 < n <= |row| && (up == [] || |up| == |row|)
    ensures fresh(line) && line[..] == Filtered(filter, row, up, n)
  {
    hide Filtered, FirstPixel, OtherPixel, Above, LineType;
    line := new int[|row|];
    ghost var f := Filtered(filter, row, up, n);
    var ty := LineType(up == [], filter);
    for i := 0 to n
      invariant forall k :: 0 <= k < i ==> line[k] == f[k]
    {
      LineByte(row, up, n, filter, i);
      line[i] := FirstPixel(ty, row[i], Above(up, i));
    }
    for i := n to |row|
      invariant forall k :: 0 <= k < i ==> line[k] == f[k]
    {
      LineByte(row, up, n, filter, i);
      line[i] := OtherPixel(ty, row[i], row[i - n], Above(up, i), Above(up, i - n));
    }
  }

  /** The sum of absolute values of the line as signed bytes. */
  function Estimate(f: seq<Byte>): nat
  {
    if f == [] then 0
    else Estimate(f[..|f| - 1]) + (if f[|f| - 1] < 128 then f[|f| - 1] else 256 - f[|f| - 1])
  }

  /** The first of the filters whose filtered row has the smallest sum. */
  predicate Cheapest(filter: nat, row: seq<Byte>, up: seq<Byte>, n: nat)
  {
    forall g :: 0 <= g < 5 ==>
      Estimate(Filtered(filter, row, up, n)) <= Estimate(Filtered(g, row, up, n)) &&
      (g < filter ==> Estimate(Filtered(filter, row, up, n)) < Estimate(Filtered(g, row, up, n)))
  }

  /** The filter of one row in stbi_write_png_to_mem: the forced one, or the first of those with the
      smallest estimate. */
  method ChooseFilter(row: seq<Byte>, up: seq<Byte>, n: nat, force: int) returns (filter: nat, line: seq<Byte>)
    requires 0 < n <= |row| && (up == [] || |up| == |row|)
    ensures filter < 5 && line == Filtered(filter, row, up, n)
    ensures 0 <= force < 5 ==> filter == force
    ensures !(0 <= force < 5) && |row| <= 0xff_ffff ==> Cheapest(filter, row, up, n)
  {
    hide Filtered, Estimate;
    if 0 <= force < 5 {
      var a := EncodeLine(row, up, n, force);
      return force, a[..];
    }
    var best, bestVal := 0, 0x7fffffff;
    for g := 0 to 5
      invariant best < 5 && (g == 0 ==> best == 0 && bestVal == 0x7fffffff)
      invariant |row| <= 0xff_ffff && g > 0 ==> best < g && bestVal == Estimate(Filtered(best, row, up, n))
      invariant |row| <= 0xff_ffff ==> forall h :: 0 <= h < g ==>
        bestVal <= Estimate(Filtered(h, row, up, n)) && (h < best ==> bestVal < Estimate(Filtered(h, row, up, n)))
    {
      var a := EncodeLine(row, up, n, g);
      var est := SumLine(a);
      EstimateBound(Filtered(g, row, up, n));
      if est < bestVal { best, bestVal := g, est; }
    }
    var a := EncodeLine(row, up, n, best);
    filter, line := best, a[..];
  }

  method SumLine(a: array<int>) returns (est: nat)
    requires forall k :: 0 <= k < a.Length ==> 0 <= a[k] < 256
    ensures est == Estimate(a[..])
  {
    est := 0;
    for i := 0 to a.Length
      invariant est == Estimate(a[..i])
    {
      assert a[..i + 1][..i] == a[..i];
      est := est + if a[i] < 128 then a[i] else 256 - a[i];
    }
    assert a[..a.Length] == a[..];
  }

  lemma {:induction false} EstimateBound(f: seq<Byte>)
    ensures Estimate(f) <= 128 * |f|
  {
    if f != [] { EstimateBound(f[..|f| - 1]); }
  }

  // ---------------------------------------------------------------------------
  // The reader

  /** first_row_filter: the synthetic filters of the first row. */
  function RowType(first: bool, filter: nat): nat
    requires filter <= 4
  {
    if first then [0, 1, 0, 5, 6][filter] else filter
  }

  /** One line of the switch for the first pixel. */
  function FirstByte(ty: nat, x: Byte, b: Byte): Byte
  {
    match ty
    case 2 => (x as int + b) % 256
    case 3 => (x as int + b / 2) % 256
    case 4 => (x as int + Paeth(0, b, 0)) % 256
    case _ => x
  }

  /** One line of the switches for the other pixels. */
  function OtherByte(ty: nat, x: Byte, a: Byte, b: Byte, c: Byte): Byte
  {
    match ty
    case 1 => (x as int + a) % 256
    case 2 => (x as int + b) % 256
    case 3 => (x as int + (b as int + a) / 2) % 256
    case 4 => (x as int + Paeth(a, b, c)) % 256
    case 5 => (x as int + a / 2) % 256
    case 6 => (x as int + Paeth(a, 0, 0)) % 256
    case _ => x
  }

  /** Both switches restore the next byte as the specification does. */
  lemma SwitchesRestore(filter: nat, row: seq<Byte>, up: seq<Byte>, n: nat, x: Byte)
    requires filter <= 4 && n > 0
    ensures var ty, i := RowType(up == [], filter), |row|;
      Restored(filter, row, up, n, x) ==
        if i < n then FirstByte(ty, x, Above(up, i)) else OtherByte(ty, x, row[i - n], Above(up, i), Above(up, i - n))
  {
  }

  /** The path for out_n == img_n: the row is restored in place of the output. */
  method UnfilterRow(filter: nat, f: seq<Byte>, up: seq<Byte>, n: nat) returns (cur: array<int>)
    requires filter <= 4 && 0 < n <= |f| && (up == [] || |up| == |f|)
    ensures fresh(cur) && cur[..] == Reconstructed(filter, f, up, n)
  {
    cur := new int[|f|];
    var ty := RowType(up == [], filter);
    for k := 0 to |f|
      invariant cur[..k] == Reconstructed(filter, f[..k], up, n)
    {
      hide Predict, Paeth;
      ghost var init := Reconstructed(filter, f[..k], up, n);
      SwitchesRestore(filter, init, up, n, f[k]);
      assert f[..k + 1][..k] == f[..k];
      assert k >= n ==> cur[k - n] == cur[..k][k - n];
      cur[k] := if k < n then FirstByte(ty, f[k], Above(up, k))
                else OtherByte(ty, f[k], cur[k - n], Above(up, k), Above(up, k - n));
      assert cur[..k + 1] == init + [cur[k]];
    }
    assert f[..|f|] == f && cur[..|f|] == cur[..];
  }

  /** A row with an opaque alpha byte after each pixel of n bytes. */
  function WithAlpha(row: seq<Byte>, n: nat): seq<Byte>
    requires n > 0
  {
    if |row| < n then [] else row[..n] + [255] + WithAlpha(row[n..], n)
  }

  /** Pixel p, which begins at byte i of the row, keeps its bytes and has 255 after them. */
  lemma {:induction false} WithAlphaAt(row: seq<Byte>, n: nat, p: nat, i: nat, c: nat)
    requires n > 0 && Pixels(row, n) && i == n * p && i + n <= |row| && c <= n
    ensures i + p + c < |WithAlpha(row, n)|
    ensures WithAlpha(row, n)[i + p + c] == if c < n then row[i + c] else 255
    decreases p
  {
    hide WithAlpha, Pixels;
    if p > 0 {
      OnePixelLess(n, p);
      OtherPixels(row, n);
      WithAlphaAt(row[n..], n, p - 1, i - n, c);
      NextPixel(row, n, i + p + c);
      assert c < n ==> row[n..][i - n + c] == row[i + c];
    } else {
      FirstPixelAlpha(row, n, c);
    }
  }

  lemma OtherPixels(row: seq<Byte>, n: nat)
    requires 0 < n <= |row| && Pixels(row, n)
    ensures Pixels(row[n..], n)
  {
  }

  lemma FirstPixelAlpha(row: seq<Byte>, n: nat, c: nat)
    requires 0 < n <= |row| && c <= n
    ensures c < |WithAlpha(row, n)| && WithAlpha(row, n)[c] == if c < n then row[c] else 255
  {
  }

  lemma NextPixel(row: seq<Byte>, n: nat, k: nat)
    requires 0 < n <= |row| && k > n && k - n - 1 < |WithAlpha(row[n..], n)|
    ensures k < |WithAlpha(row, n)| && WithAlpha(row, n)[k] == WithAlpha(row[n..], n)[k - n - 1]
  {
  }

  lemma OnePixelLess(n: nat, p: nat)
    requires p > 0
    ensures n <= n * p == n * (p - 1) + n
  {
  }

  /** Whole pixels of n bytes. */
  predicate Pixels(row: seq<Byte>, n: nat)
    requires n > 0
  {
    row == [] || (|row| >= n && Pixels(row[n..], n))
  }

  lemma {:induction false} WithAlphaConcat(s: seq<Byte>, t: seq<Byte>, n: nat)
    requires n > 0 && Pixels(s, n)
    ensures WithAlpha(s + t, n) == WithAlpha(s, n) + WithAlpha(t, n)
    ensures Pixels(t, n) ==> Pixels(s + t, n)
  {
    if s == [] {
      assert s + t == t;
    } else {
      WithAlphaConcat(s[n..], t, n);
      assert (s + t)[..n] == s[..n] && (s + t)[n..] == s[n..] + t;
    }
  }

  lemma WithAlphaSnoc(s: seq<Byte>, px: seq<Byte>, n: nat)
    requires n > 0 && Pixels(s, n) && |px| == n
    ensures WithAlpha(s + px, n) == WithAlpha(s, n) + px + [255] && Pixels(s + px, n)
  {
    WithAlphaConcat(s, px, n);
    assert px[n..] == [] && Pixels(px[n..], n);
    assert WithAlpha(px, n) == px + [255];
  }

  lemma {:induction false} PixelsSuffix(row: seq<Byte>, n: nat, r: nat)
    requires n > 0 && r <= |row| && Pixels(row, n) && Pixels(row[..r], n)
    ensures Pixels(row[r..], n)
    decreases r
  {
    if r > 0 {
      assert row[..r][n..] == row[n..][..r - n];
      PixelsSuffix(row[n..], n, r - n);
      assert row[n..][r - n..] == row[r..];
    } else {
      assert row[0..] == row;
    }
  }

  /** Where pixel bytes stand in a row with alpha: the pixel that begins at byte r of the row. */
  lemma AlphaAt(row: seq<Byte>, n: nat, r: nat, k: nat)
    requires n > 0 && k < n && r + n <= |row| && Pixels(row[..r], n)
    ensures |WithAlpha(row[..r], n)| + k < |WithAlpha(row, n)|
    ensures WithAlpha(row, n)[|WithAlpha(row[..r], n)| + k] == row[r + k]
  {
    WithAlphaConcat(row[..r], row[r..], n);
    assert row[..r] + row[r..] == row;
  }

  /** The same lengths of whole pixels give the same lengths with alpha. */
  lemma {:induction false} AlphaLength(s: seq<Byte>, t: seq<Byte>, n: nat)
    requires n > 0 && |s| == |t|
    ensures |WithAlpha(s, n)| == |WithAlpha(t, n)| && (Pixels(s, n) <==> Pixels(t, n))
  {
    if |s| >= n { AlphaLength(s[n..], t[n..], n); }
  }

  /** With alpha in the output, bytes above are found past the alpha bytes of the pixels before them. */
  lemma NeighbourAbove(row: seq<Byte>, up: seq<Byte>, n: nat, k: nat)
    requires 0 < n && k < n && Pixels(row, n) && (up == [] || |row| + n <= |up|)
    ensures Above(WithAlpha(up, n), |WithAlpha(row, n)| + k) == Above(up, |row| + k)
  {
    hide WithAlpha, Pixels;
    AlphaEmpty(up, n);
    if up != [] {
      AlphaLength(up[..|row|], row, n);
      AlphaAt(up, n, |row|, k);
    }
  }

  lemma AlphaEmpty(up: seq<Byte>, n: nat)
    requires n > 0 && (up == [] || |up| >= n)
    ensures WithAlpha(up, n) == [] <==> up == []
  {
  }

  /** The pixel to the left stands n + 1 bytes back instead of n. */
  lemma NeighbourLeft(row: seq<Byte>, n: nat, k: nat)
    requires 0 < n && k < n <= |row| && Pixels(row[..|row| - n], n)
    ensures |WithAlpha(row, n)| == |WithAlpha(row[..|row| - n], n)| + n + 1
    ensures WithAlpha(row, n)[|WithAlpha(row, n)| - (n + 1) + k] == row[|row| - n + k]
  {
    hide WithAlpha, Pixels;
    var p := |row| - n;
    WithAlphaSnoc(row[..p], row[p..], n);
    assert row[..p] + row[p..] == row;
    AlphaAt(row, n, p, k);
  }

  /** The bytes the alpha path reads are the ones the specification names. */
  lemma AlphaRestores(filter: nat, row: seq<Byte>, px: seq<Byte>, up: seq<Byte>, n: nat, x: Byte)
    requires filter <= 4 && |px| < n && Pixels(row, n) && (up == [] || |row| + n <= |up|)
    requires row != [] ==> |row| >= n && Pixels(row[..|row| - n], n)
    ensures var cur, upOut, k := WithAlpha(row, n), WithAlpha(up, n), |px|;
      var c, ty := |cur|, RowType(up == [], filter);
      && (|row| >= n ==> c >= n + 1)
      && Restored(filter, row + px, up, n, x) ==
           if |row| < n then FirstByte(ty, x, Above(upOut, c + k))
           else OtherByte(ty, x, cur[c - (n + 1) + k], Above(upOut, c + k), Above(upOut, c - (n + 1) + k))
  {
    hide WithAlpha, Pixels, Restored, FirstByte, OtherByte;
    NeighbourAbove(row, up, n, |px|);
    if |row| >= n {
      NeighbourLeft(row, n, |px|);
      NeighbourAbove(row[..|row| - n], up, n, |px|);
    }
    SwitchesRestore(filter, row + px, up, n, x);
  }

  lemma ReconstructedSnoc(filter: nat, f: seq<Byte>, up: seq<Byte>, n: nat, i: nat)
    requires n > 0 && i < |f|
    ensures var init := Reconstructed(filter, f[..i], up, n);
      Reconstructed(filter, f[..i + 1], up, n) == init + [Restored(filter, init, up, n, f[i])]
  {
    assert f[..i + 1][..i] == f[..i];
  }

  /** The path for out_n == img_n + 1: pixel by pixel, with 255 stored after each. up is the row above
      as restored, upOut the same row as it stands in the output. */
  method UnfilterRowAlpha(filter: nat, f: seq<Byte>, ghost up: seq<Byte>, upOut: seq<Byte>, n: nat)
    returns (cur: seq<Byte>)
    requires filter <= 4 && 0 < n <= |f| && Pixels(f, n) && (up == [] || |up| == |f|)
    requires upOut == WithAlpha(up, n)
    ensures cur == WithAlpha(Reconstructed(filter, f, up, n), n)
  {
    hide Reconstructed, WithAlpha, Pixels;
    ghost var row: seq<Byte> := [];
    var r := 0;
    cur := [];
    NothingRestored(filter, f, up, n);
    while r < |f|
      invariant 0 <= r <= |f| && row == Reconstructed(filter, f[..r], up, n)
      invariant Pixels(row, n) && cur == WithAlpha(row, n) && (r > 0 ==> r >= n && Pixels(row[..r - n], n))
      decreases |f| - r
    {
      AlphaLength(row, f[..r], n);
      PixelsSuffix(f, n, r);
      PixelLeft(f[r..], n);
      var px := UnfilterPixel(filter, f, up, upOut, n, r, cur, row);
      WithAlphaSnoc(row, px, n);
      assert (row + px)[..r] == row;
      cur := cur + px + [255];
      row := row + px;
      r := r + n;
    }
    assert f[..r] == f;
  }

  lemma NothingRestored(filter: nat, f: seq<Byte>, up: seq<Byte>, n: nat)
    requires n > 0
    ensures Reconstructed(filter, f[..0], up, n) == [] && Pixels([], n) && WithAlpha([], n) == []
  {
  }

  lemma PixelLeft(s: seq<Byte>, n: nat)
    requires n > 0 && Pixels(s, n) && s != []
    ensures |s| >= n
  {
  }

  method UnfilterPixel(filter: nat, f: seq<Byte>, ghost up: seq<Byte>, upOut: seq<Byte>, n: nat, r: nat,
                       cur: seq<Byte>, ghost row: seq<Byte>) returns (px: seq<Byte>)
    requires filter <= 4 && 0 < n && r + n <= |f| && (up == [] || |up| == |f|) && upOut == WithAlpha(up, n)
    requires row == Reconstructed(filter, f[..r], up, n) && cur == WithAlpha(row, n)
    requires Pixels(row, n) && (r > 0 ==> r >= n && Pixels(row[..r - n], n))
    ensures |px| == n && row + px == Reconstructed(filter, f[..r + n], up, n)
  {
    hide Reconstructed, Restored, FirstByte, OtherByte, WithAlpha, Pixels;
    AlphaEmpty(up, n);
    var ty := RowType(upOut == [], filter);
    var c := |cur|;
    px := [];
    assert row + [] == row;
    for k := 0 to n
      invariant |px| == k && row + px == Reconstructed(filter, f[..r + k], up, n)
    {
      AlphaRestores(filter, row, px, up, n, f[r + k]);
      ReconstructedSnoc(filter, f, up, n, r + k);
      var x := if r < n then FirstByte(ty, f[r + k], Above(upOut, c + k))
               else OtherByte(ty, f[r + k], cur[c - (n + 1) + k], Above(upOut, c + k), Above(upOut, c - (n + 1) + k));
      ConcatAssoc(row, px, [x]);
      px := px + [x];
    }
  }
}
