/** The size of a JPEG image in MCUs, from the frame header. */
module JpegFrame {
  import opened JpegEnding

  /** Width and height in pixels, and the sampling factors of the components in use. */
  datatype Frame = Frame(width: nat, height: nat, count: nat, h: seq<nat>, v: seq<nat>)

  predicate ValidFrame(f: Frame)
  {
    && 0 < f.width < 0x1_0000 && 0 < f.height < 0x1_0000 && f.count <= 4 && |f.h| == 4 && |f.v| == 4
    && forall i :: 0 <= i < f.count ==> 1 <= f.h[i] <= 4 && 1 <= f.v[i] <= 4
  }

  /** A scan of components that are in use. */
  predicate ValidScan(f: Frame, scan: seq<nat>)
  {
    forall k :: 0 <= k < |scan| ==> scan[k] < f.count
  }

  /** The quotient, rounded up. */
  function Ceil(n: nat, d: nat): nat
    requires d > 0
  {
    (n + d - 1) / d
  }

  lemma MulMono(a: int, b: int, d: nat)
    requires a <= b
    ensures a * d <= b * d
  {
    assert b * d == a * d + (b - a) * d;
  }

  lemma MulStep(a: int, d: nat)
    ensures (a + 1) * d == a * d + d
  {
  }

  /** The quotient of m by d lies between its neighbours. */
  lemma QuotientBounds(m: nat, d: nat)
    requires d > 0
    ensures m / d * d <= m < m / d * d + d
  {
  }

  /** So many pieces of size d are enough for n, and one less is not. */
  lemma CeilLeast(n: nat, d: nat)
    requires n > 0 && d > 0
    ensures Ceil(n, d) > 0 && (Ceil(n, d) - 1) * d < n <= Ceil(n, d) * d
  {
    QuotientBounds(n + d - 1, d);
    var q := Ceil(n, d);
    MulStep(q - 1, d);
    if q <= 0 { MulMono(q, 0, d); }
  }

  /** No other number of pieces has this property. */
  lemma CeilIs(n: nat, d: nat, q: nat)
    requires n > 0 && d > 0 && (q - 1) * d < n <= q * d
    ensures Ceil(n, d) == q
  {
    hide Ceil;
    CeilLeast(n, d);
    var k := Ceil(n, d);
    if k < q { MulMono(k, q - 1, d); } else if k > q { MulMono(q, k - 1, d); }
  }

  /** The largest of the first n factors. */
  function Largest(s: seq<nat>, n: nat): (m: nat)
    requires n <= |s|
    ensures m >= 1 && (forall i :: 0 <= i < n ==> s[i] <= m) && (m == 1 || exists i :: 0 <= i < n && s[i] == m)
  {
    if n == 0 then 1 else
    var m := Largest(s, n - 1);
    if s[n - 1] > m then s[n - 1] else m
  }

  /** How many MCUs a row of the image has; in a scan of one component, how many of its blocks. */
  function Across(f: Frame, scan: seq<nat>): nat
    requires ValidFrame(f) && ValidScan(f, scan)
  {
    Pieces(f.width, f.h, f.count, scan)
  }

  function Down(f: Frame, scan: seq<nat>): nat
    requires ValidFrame(f) && ValidScan(f, scan)
  {
    Pieces(f.height, f.v, f.count, scan)
  }

  /** In one direction. */
  function Pieces(size: nat, factors: seq<nat>, count: nat, scan: seq<nat>): nat
    requires count <= |factors| && forall k :: 0 <= k < |scan| ==> scan[k] < count
  {
    PiecesOf(size, factors, Largest(factors, count), scan)
  }

  function PiecesOf(size: nat, factors: seq<nat>, most: nat, scan: seq<nat>): nat
    requires most > 0 && forall k :: 0 <= k < |scan| ==> scan[k] < |factors|
  {
    if |scan| == 1 then Ceil(Ceil(size * factors[scan[0]], most), 8) else Ceil(size, 8 * most)
  }

  /** The part of stbi__process_frame_header that finds them. */
  method FindGrid(f: Frame, scan: seq<nat>) returns (across: nat, down: nat)
    requires ValidFrame(f) && ValidScan(f, scan)
    ensures across == Across(f, scan) && down == Down(f, scan)
  {
    hide PiecesOf;
    var hMax := FindLargest(f.h, f.count);
    var vMax := FindLargest(f.v, f.count);
    across, down := PiecesOf(f.width, f.h, hMax, scan), PiecesOf(f.height, f.v, vMax, scan);
  }

  method FindLargest(s: seq<nat>, n: nat) returns (m: nat)
    requires n <= |s|
    ensures m == Largest(s, n)
  {
    m := 1;
    for i := 0 to n
      invariant m == Largest(s, i)
    {
      if s[i] > m { m := s[i]; }
    }
  }

  /** The MCUs cover the image, and no fewer would. */
  lemma GridCovers(f: Frame, scan: seq<nat>)
    requires ValidFrame(f) && ValidScan(f, scan) && |scan| != 1
    ensures
      var w, h := 8 * Largest(f.h, f.count), 8 * Largest(f.v, f.count);
      && (Across(f, scan) - 1) * w < f.width <= Across(f, scan) * w
      && (Down(f, scan) - 1) * h < f.height <= Down(f, scan) * h
  {
    CeilLeast(f.width, 8 * Largest(f.h, f.count));
    CeilLeast(f.height, 8 * Largest(f.v, f.count));
  }

  /** In a scan of one component its blocks cover the component, whose size is that of the image times its
      sampling factor over the largest one, and no fewer would. */
  lemma SingleCovers(f: Frame, c: nat)
    requires ValidFrame(f) && c < f.count
    ensures
      var across, down := Across(f, [c]), Down(f, [c]);
      var w, h := Largest(f.h, f.count), Largest(f.v, f.count);
      && (8 * across - 8) * w < f.width * f.h[c] <= (8 * across) * w
      && (8 * down - 8) * h < f.height * f.v[c] <= (8 * down) * h
  {
    hide Ceil;
    MulMono(1, f.h[c], f.width);
    MulMono(1, f.v[c], f.height);
    EightsCover(f.width * f.h[c], Largest(f.h, f.count));
    EightsCover(f.height * f.v[c], Largest(f.v, f.count));
  }

  lemma EightsCover(n: nat, most: nat)
    requires n > 0 && most > 0
    ensures var k := Ceil(Ceil(n, most), 8); (8 * k - 8) * most < n <= (8 * k) * most
  {
    hide Ceil;
    var c := Ceil(n, most);
    var k := Ceil(c, 8);
    CeilLeast(n, most);
    CeilLeast(c, 8);
    MulMono(c, 8 * k, most);
    MulMono(8 * k - 8, c - 1, most);
  }

  /** All MCUs of the image, row by row. */
  function Mcus(f: Frame, scan: seq<nat>): (mcus: seq<seq<nat>>)
    requires ValidFrame(f) && ValidScan(f, scan)
  {
    seq(Down(f, scan) * Across(f, scan), _ => McuOf(scan, f.h, f.v))
  }

  /** Every scan fits a single interval when there is no restart interval. */
  lemma GridBound(f: Frame, scan: seq<nat>)
    requires ValidFrame(f) && ValidScan(f, scan)
    ensures |Mcus(f, scan)| <= 0x7fff_ffff
  {
    hide Pieces, McuOf;
    PiecesBound(f.width, f.h, f.count, scan);
    PiecesBound(f.height, f.v, f.count, scan);
    MulMono(Down(f, scan), 0x8000, Across(f, scan));
  }

  lemma PiecesBound(size: nat, factors: seq<nat>, count: nat, scan: seq<nat>)
    requires 0 < size < 0x1_0000 && count <= |factors| && forall k :: 0 <= k < |scan| ==> scan[k] < count
    requires forall i :: 0 <= i < count ==> 1 <= factors[i] <= 4
    ensures Pieces(size, factors, count, scan) <= 0x8000
  {
    hide Ceil;
    var most := Largest(factors, count);
    if |scan| == 1 {
      var n := size * factors[scan[0]];
      MulMono(factors[scan[0]], 4, size);
      CeilBound(n, most, 0x3_fffc);
      CeilEighth(Ceil(n, most));
    } else {
      CeilEight(size, most);
    }
  }

  lemma CeilBound(n: nat, d: nat, bound: nat)
    requires d > 0 && n <= bound
    ensures Ceil(n, d) <= bound
  {
    QuotientBounds(n + d - 1, d);
    var q := Ceil(n, d);
    if q > n { MulMono(n + 1, q, d); MulMono(1, d, n); }
  }

  lemma CeilEighth(n: nat)
    requires n <= 0x3_fffc
    ensures Ceil(n, 8) <= 0x8000
  {
  }

  lemma CeilEight(n: nat, m: nat)
    requires 0 < n < 0x1_0000 && m > 0
    ensures Ceil(n, 8 * m) <= 0x8000
  {
    hide Ceil;
    CeilLeast(n, 8 * m);
    var q := Ceil(n, 8 * m);
    MulMono(8, 8 * m, q - 1);
  }

  /** How often the writer's loop over one direction runs. */
  function Rounds(from: nat, size: nat, step: nat): nat
    requires step > 0
    decreases size - from
  {
    if from >= size then 0 else 1 + Rounds(from + step, size, step)
  }

  /** It runs as often as there are pieces. */
  lemma {:induction false} RoundsCeil(from: nat, size: nat, step: nat)
    requires step > 0
    ensures Rounds(from, size, step) == if from >= size then 0 else Ceil(size - from, step)
    decreases size - from
  {
    if from < size {
      RoundsCeil(from + step, size, step);
      var n := size - from;
      if n <= step {
        CeilOne(n, step);
      } else {
        CeilStep(n, step);
      }
    }
  }

  lemma CeilOne(n: nat, d: nat)
    requires 0 < n <= d
    ensures Ceil(n, d) == 1
  {
    hide Ceil;
    CeilIs(n, d, 1);
  }

  lemma CeilStep(n: nat, d: nat)
    requires n > d > 0
    ensures Ceil(n, d) == 1 + Ceil(n - d, d)
  {
    hide Ceil;
    CeilLeast(n - d, d);
    var c := Ceil(n - d, d);
    MulStep(c - 1, d);
    MulStep(c, d);
    CeilIs(n, d, c + 1);
  }
}
