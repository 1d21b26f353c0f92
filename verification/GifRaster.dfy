/** The raster order of GIF images: the order in which stbi__out_gif_code places pixels, plain or
    interlaced in four passes, and what drawing in that order leaves on the canvas. Rows and columns
    are counted in pixels. */
module GifRaster {
  import opened BitStrings

  type Place = (nat, nat)
  type Canvas = map<Place, Byte>

  /** 1 << parse. */
  function PassStep(parse: nat): (s: nat)
    requires parse <= 3
    ensures s > 0
  {
    [1, 2, 4, 8][parse]
  }

  /** The rows to come, from the cursor's row on: by steps to the end of the image, then the passes that
      parse still counts. */
  function RowsFrom(height: nat, row: nat, step: nat, parse: nat): (rows: seq<nat>)
    requires step > 0 && parse <= 3
    decreases parse, if row < height then height - row else 0
  {
    if row < height then [row] + RowsFrom(height, row + step, step, parse)
    else if parse > 0 then RowsFrom(height, PassStep(parse) / 2, PassStep(parse), parse - 1)
    else []
  }

  /** All rows in drawing order. */
  function RowOrder(height: nat, interlaced: bool): seq<nat>
  {
    if interlaced then RowsFrom(height, 0, 8, 3) else RowsFrom(height, 0, 1, 0)
  }

  /** The places of one row from column x on. */
  function RowPlaces(left: nat, top: nat, width: nat, x: nat, row: nat): (s: seq<Place>)
    requires x <= width
    ensures |s| == width - x
  {
    seq(width - x, i requires 0 <= i < width - x => (left + x + i, top + row))
  }

  /** The places of several rows, the first from column x on. */
  function PlacesFrom(left: nat, top: nat, width: nat, x: nat, rows: seq<nat>): seq<Place>
    requires x <= width
  {
    if rows == [] then []
    else RowPlaces(left, top, width, x, rows[0]) + PlacesFrom(left, top, width, 0, rows[1..])
  }

  /** The places of a frame in drawing order. */
  function FrameOrder(left: nat, top: nat, width: nat, height: nat, interlaced: bool): seq<Place>
  {
    PlacesFrom(left, top, width, 0, RowOrder(height, interlaced))
  }

  // ---------------------------------------------------------------------------
  // Every row comes exactly once

  /** Row r comes before the row the cursor is on. In an interlaced image the passes take the rows
      congruent to 0 and to 4 modulo 8, then to 2 modulo 4, then the odd ones. */
  predicate RowDone(interlaced: bool, parse: nat, row: int, r: int)
  {
    if !interlaced then r < row
    else match parse
      case 3 => r % 8 == 0 && r < row
      case 2 => r % 8 == 0 || (r % 8 == 4 && r < row)
      case 1 => r % 4 == 0 || (r % 4 == 2 && r < row)
      case _ => r % 2 == 0 || r < row
  }

  /** The cursor's row and step belong to the pass that parse counts down. */
  predicate InPass(interlaced: bool, parse: nat, row: nat, step: nat)
  {
    if !interlaced then parse == 0 && step == 1
    else match parse
      case 3 => step == 8 && row % 8 == 0
      case 2 => step == 8 && row % 8 == 4
      case 1 => step == 4 && row % 4 == 2
      case 0 => step == 2 && row % 2 == 1
      case _ => false
  }

  /** Moving on by a step takes in exactly the row left. */
  lemma RowTaken(interlaced: bool, parse: nat, row: nat, step: nat, r: nat)
    requires InPass(interlaced, parse, row, step)
    ensures RowDone(interlaced, parse, row + step, r) <==> RowDone(interlaced, parse, row, r) || r == row
    ensures InPass(interlaced, parse, row + step, step)
  {
    if interlaced {
      match parse
      case 3 => NextCongruent8(row, r);
      case 2 => NextCongruent8(row, r);
      case 1 => NextCongruent4(row, r);
      case 0 => NextCongruent2(row, r);
    }
  }

  lemma NextCongruent8(row: nat, r: nat)
    ensures (row + 8) % 8 == row % 8
    ensures r % 8 == row % 8 ==> (r < row + 8 <==> r < row || r == row)
  {
  }

  lemma NextCongruent4(row: nat, r: nat)
    ensures (row + 4) % 4 == row % 4
    ensures r % 4 == row % 4 ==> (r < row + 4 <==> r < row || r == row)
  {
  }

  lemma NextCongruent2(row: nat, r: nat)
    ensures (row + 2) % 2 == row % 2
    ensures r % 2 == row % 2 ==> (r < row + 2 <==> r < row || r == row)
  {
  }

  /** Starting the next pass when this one has run past the image changes nothing. */
  lemma PassTaken(parse: nat, row: nat, step: nat, height: nat, r: nat)
    requires InPass(true, parse, row, step) && parse > 0 && row >= height && r < height
    ensures RowDone(true, parse - 1, PassStep(parse) / 2, r) <==> RowDone(true, parse, row, r)
  {
  }

  lemma PassBegins(parse: nat)
    requires 0 < parse <= 3
    ensures InPass(true, parse - 1, PassStep(parse) / 2, PassStep(parse))
  {
  }

  lemma RowNotDone(interlaced: bool, parse: nat, row: nat, step: nat)
    requires InPass(interlaced, parse, row, step)
    ensures parse <= 3 && step > 0 && !RowDone(interlaced, parse, row, row)
    ensures !interlaced ==> parse == 0
  {
  }

  lemma AllDone(interlaced: bool, row: nat, step: nat, height: nat, r: nat)
    requires InPass(interlaced, 0, row, step) && row >= height && r < height
    ensures RowDone(interlaced, 0, row, r)
  {
  }

  predicate Distinct<T(==)>(s: seq<T>)
  {
    forall i, j :: 0 <= i < j < |s| ==> s[i] != s[j]
  }

  /** The rows to come are the rows not done, each once. */
  lemma {:induction false} RowsLeft(interlaced: bool, height: nat, row: nat, step: nat, parse: nat)
    requires InPass(interlaced, parse, row, step) && step > 0 && parse <= 3
    ensures Distinct(RowsFrom(height, row, step, parse))
    ensures forall r :: r in RowsFrom(height, row, step, parse) <==>
      0 <= r < height && !RowDone(interlaced, parse, row, r)
    decreases parse, if row < height then height - row else 0
  {
    hide RowDone, InPass, PassStep;
    RowNotDone(interlaced, parse, row, step);
    if row < height {
      RowTaken(interlaced, parse, row, step, row);
      RowsLeft(interlaced, height, row + step, step, parse);
      forall r: nat | r < height
        ensures RowDone(interlaced, parse, row + step, r) <==> RowDone(interlaced, parse, row, r) || r == row
      {
        RowTaken(interlaced, parse, row, step, r);
      }
    } else if parse > 0 {
      PassBegins(parse);
      RowsLeft(interlaced, height, PassStep(parse) / 2, PassStep(parse), parse - 1);
      forall r: nat | r < height
        ensures RowDone(true, parse - 1, PassStep(parse) / 2, r) <==> RowDone(true, parse, row, r)
      {
        PassTaken(parse, row, step, height, r);
      }
    } else {
      forall r: nat | r < height ensures RowDone(interlaced, 0, row, r) { AllDone(interlaced, row, step, height, r); }
    }
  }

  lemma RowOrderComplete(height: nat, interlaced: bool)
    ensures Distinct(RowOrder(height, interlaced))
    ensures forall r :: r in RowOrder(height, interlaced) <==> 0 <= r < height
  {
    if interlaced { RowsLeft(true, height, 0, 8, 3); } else { RowsLeft(false, height, 0, 1, 0); }
  }

  lemma {:induction false} PlacesOf(left: nat, top: nat, width: nat, rows: seq<nat>)
    requires Distinct(rows)
    ensures Distinct(PlacesFrom(left, top, width, 0, rows))
    ensures forall c: nat, r: nat :: (c, r) in PlacesFrom(left, top, width, 0, rows) <==>
      left <= c < left + width && top <= r && r - top in rows
  {
    if rows != [] {
      var first, rest := RowPlaces(left, top, width, 0, rows[0]), PlacesFrom(left, top, width, 0, rows[1..]);
      PlacesOf(left, top, width, rows[1..]);
      forall c: nat, r: nat
        ensures (c, r) in first + rest <==> left <= c < left + width && top <= r && r - top in rows
      {
        if left <= c < left + width && r == top + rows[0] { assert first[c - left] == (c, r); }
      }
    }
  }

  /** Every place of the frame comes exactly once in drawing order. */
  lemma FrameOrderComplete(left: nat, top: nat, width: nat, height: nat, interlaced: bool)
    ensures Distinct(FrameOrder(left, top, width, height, interlaced))
    ensures forall c: nat, r: nat :: (c, r) in FrameOrder(left, top, width, height, interlaced) <==>
      left <= c < left + width && top <= r < top + height
  {
    RowOrderComplete(height, interlaced);
    PlacesOf(left, top, width, RowOrder(height, interlaced));
  }

  // ---------------------------------------------------------------------------
  // The order of the rows

  /** The pass that draws a row (GIF89a, Appendix E): every eighth row from row 0, every eighth from row 4, every
      fourth from row 2, every second from row 1. */
  function Pass(interlaced: bool, r: nat): nat
  {
    if !interlaced || r % 8 == 0 then 0 else if r % 8 == 4 then 1 else if r % 4 == 2 then 2 else 3
  }

  predicate Earlier(interlaced: bool, r: nat, r': nat)
  {
    Pass(interlaced, r) < Pass(interlaced, r') || (Pass(interlaced, r) == Pass(interlaced, r') && r < r')
  }

  predicate InRowOrder(interlaced: bool, rows: seq<nat>)
  {
    forall i, j :: 0 <= i < j < |rows| ==> Earlier(interlaced, rows[i], rows[j])
  }

  /** Rows not yet done when row is drawn come after it. */
  lemma DoneEarlier(interlaced: bool, parse: nat, row: nat, step: nat, r: nat)
    requires InPass(interlaced, parse, row, step) && !RowDone(interlaced, parse, row, r) && r != row
    ensures Earlier(interlaced, row, r)
  {
    ModuloEight(row);
    ModuloEight(r);
  }

  lemma ModuloEight(r: nat)
    ensures (r % 4 == 0 <==> r % 8 == 0 || r % 8 == 4) && (r % 4 == 2 <==> r % 8 == 2 || r % 8 == 6)
    ensures r % 2 == 1 <==> r % 8 == 1 || r % 8 == 3 || r % 8 == 5 || r % 8 == 7
  {
    var q, e := r / 8, r % 8;
    if e < 4 { ModuloFour(r, 2 * q, e); } else { ModuloFour(r, 2 * q + 1, e - 4); }
    var half := if e < 2 then 0 else if e < 4 then 1 else if e < 6 then 2 else 3;
    ModuloTwo(r, 4 * q + half, e - 2 * half);
  }

  lemma ModuloFour(r: nat, k: nat, e: nat)
    requires r == 4 * k + e && e < 4
    ensures r % 4 == e
  {
  }

  lemma ModuloTwo(r: nat, k: nat, e: nat)
    requires r == 2 * k + e && e < 2
    ensures r % 2 == e
  {
  }

  lemma {:induction false} RowsInOrder(interlaced: bool, height: nat, row: nat, step: nat, parse: nat)
    requires InPass(interlaced, parse, row, step) && step > 0 && parse <= 3
    ensures InRowOrder(interlaced, RowsFrom(height, row, step, parse))
    decreases parse, if row < height then height - row else 0
  {
    hide RowDone, InPass, PassStep, Earlier;
    RowNotDone(interlaced, parse, row, step);
    if row < height {
      RowTaken(interlaced, parse, row, step, row);
      RowsInOrder(interlaced, height, row + step, step, parse);
      var rest := RowsFrom(height, row + step, step, parse);
      RowsLeft(interlaced, height, row + step, step, parse);
      forall j | 0 <= j < |rest| ensures Earlier(interlaced, row, rest[j]) {
        assert rest[j] in rest;
        RowTaken(interlaced, parse, row, step, rest[j]);
        DoneEarlier(interlaced, parse, row, step, rest[j]);
      }
    } else if parse > 0 {
      PassBegins(parse);
      RowsInOrder(interlaced, height, PassStep(parse) / 2, PassStep(parse), parse - 1);
    }
  }

  /** Rows come by passes, and in a pass from top to bottom; in a plain image all rows do. */
  lemma RowOrderInOrder(height: nat, interlaced: bool)
    ensures InRowOrder(interlaced, RowOrder(height, interlaced))
  {
    if interlaced { RowsInOrder(true, height, 0, 8, 3); } else { RowsInOrder(false, height, 0, 1, 0); }
  }

  lemma {:induction false} PlacesInOrder(left: nat, top: nat, width: nat, rows: seq<nat>, i: nat, c: nat)
    requires i < |rows| && c < width
    ensures i * width + c < |PlacesFrom(left, top, width, 0, rows)| == |rows| * width
    ensures PlacesFrom(left, top, width, 0, rows)[i * width + c] == (left + c, top + rows[i])
    decreases |rows|
  {
    hide PlacesFrom;
    RowsTimes(|rows|, width);
    PlacesSplit(left, top, width, rows);
    if |rows| > 1 {
      PlacesInOrder(left, top, width, rows[1..], if i == 0 then 0 else i - 1, c);
    } else {
      NoRows(left, top, width);
    }
    RowsTimes(i, width);
  }

  lemma PlacesSplit(left: nat, top: nat, width: nat, rows: seq<nat>)
    requires rows != []
    ensures PlacesFrom(left, top, width, 0, rows)
         == RowPlaces(left, top, width, 0, rows[0]) + PlacesFrom(left, top, width, 0, rows[1..])
  {
  }

  lemma NoRows(left: nat, top: nat, width: nat)
    ensures PlacesFrom(left, top, width, 0, []) == []
  {
  }

  lemma RowsTimes(n: nat, width: nat)
    ensures n > 0 ==> n * width == width + (n - 1) * width
    ensures n == 0 || width == 0 ==> n * width == 0
  {
  }

  /** In row i of the order the colours go from left to right. */
  lemma FrameOrderAt(left: nat, top: nat, width: nat, height: nat, interlaced: bool, i: nat, c: nat)
    requires i < |RowOrder(height, interlaced)| && c < width
    ensures
      var rows, order := RowOrder(height, interlaced), FrameOrder(left, top, width, height, interlaced);
      i * width + c < |order| == |rows| * width && order[i * width + c] == (left + c, top + rows[i])
  {
    PlacesInOrder(left, top, width, RowOrder(height, interlaced), i, c);
  }

  // ---------------------------------------------------------------------------
  // Drawing

  /** The canvas after the colours s were drawn in order; colours that are not visible leave their places
      as they were, and colours beyond the last place are dropped. */
  function Paint(canvas: Canvas, visible: seq<bool>, places: seq<Place>, s: seq<Byte>): Canvas
    requires |visible| == 256
  {
    if s == [] then canvas
    else
      var n := |s| - 1;
      var before := Paint(canvas, visible, places, s[..n]);
      if n < |places| && visible[s[n]] then before[places[n] := s[n]] else before
  }

  /** What a place shows: the colour that was drawn there, if it is visible, or what it showed before. */
  lemma {:induction false} PaintShows(canvas: Canvas, visible: seq<bool>, places: seq<Place>, s: seq<Byte>, p: Place)
    requires |visible| == 256 && Distinct(places)
    ensures forall k :: 0 <= k < |places| && k < |s| && places[k] == p && visible[s[k]] ==>
      p in Paint(canvas, visible, places, s) && Paint(canvas, visible, places, s)[p] == s[k]
    ensures (forall k :: 0 <= k < |places| && k < |s| && places[k] == p ==> !visible[s[k]]) ==>
      (p in Paint(canvas, visible, places, s) <==> p in canvas) &&
      (p in canvas ==> Paint(canvas, visible, places, s)[p] == canvas[p])
  {
    if s != [] {
      var n := |s| - 1;
      PaintShows(canvas, visible, places, s[..n], p);
    }
  }
}
