/** What the JPEG reader makes of every scan, also of one that ends too early. The reader buffers whole bytes;
    when it first meets the marker after the data it stops filling its buffer, and from then on it fills it
    with zeros. How the end of the data is decoded depends on how much was buffered at that moment, so the
    decoder here counts buffered bytes. Before the end it is the plain decoder. */
module JpegEnding {
  import opened BitStrings
  import opened Canonical
  import opened JpegBits
  import opened JpegHuffman
  import opened JpegZigZag
  import opened JpegFormat
  import opened Wrappers

  /** The data of a scan, and whether a marker ends them; without one the input ends, and zeros follow. */
  datatype Source = Source(m: seq<Byte>, marked: bool)

  /** The data from index k of the input on. */
  function SourceAt(input: seq<Byte>, k: nat): Source
  {
    Source(Mirror(Unstuff(input, k)), MarkerIndex(input, k) < |input|)
  }

  /** Bits used, bytes buffered, and whether the marker has been met. */
  datatype Spot = Spot(p: nat, fed: nat, ended: bool)

  function Held(s: Spot): int
  {
    8 * s.fed - s.p
  }

  /** Filling the buffer beyond 24 bits, or up to the marker when it is met. */
  function Grow(src: Source, s: Spot): (r: Spot)
    ensures r.p == s.p && r.fed >= s.fed
    decreases if Held(s) <= 24 then 25 - Held(s) else 0
  {
    if !s.ended && src.marked && s.fed >= |src.m| then s.(ended := true)
    else
      var next := s.(fed := s.fed + 1);
      if Held(next) <= 24 then Grow(src, next) else next
  }

  lemma GrowOnce(src: Source, s: Spot)
    ensures
      var next := s.(fed := s.fed + 1);
      Grow(src, s) ==
        if !s.ended && src.marked && s.fed >= |src.m| then s.(ended := true)
        else if Held(next) <= 24 then Grow(src, next) else next
  {
  }

  /** At least n bits, if they can be had. */
  function Fill(src: Source, s: Spot, n: nat): (r: Spot)
    ensures r.p == s.p && r.fed >= s.fed
  {
    if Held(s) < n then Grow(src, s) else s
  }

  function Ahead(s: Spot, n: nat): Spot
  {
    s.(p := s.p + n)
  }

  datatype Taken<T> = Taken(value: T, at: Spot) | Failed

  ghost function TakeSymbol(t: Table, src: Source, s: Spot): Taken<Byte>
    requires Declared(t)
  {
    var f := Fill(src, s, 16);
    match SymbolAt(t, src.m, f.p)
    case NoSym => Failed
    case Sym(v, n) => if n <= Held(f) then Taken(v, Ahead(f, n)) else Failed
  }

  /** A value for which too few bits are buffered is 0 and uses none. */
  function TakeValue(src: Source, s: Spot, n: nat): (r: (int, Spot))
  {
    var f := Fill(src, s, n);
    if Held(f) < n then (0, f) else (Extend(Stream(src.m, f.p, n)), Ahead(f, n))
  }

  /** Symbol and value at p together take at most nine bits and the value is small: the fast_ac table has them. */
  ghost predicate Quick(t: Table, m: seq<Byte>, p: nat)
    requires Declared(t)
  {
    match SymbolAt(t, m, p)
    case NoSym => false
    case Sym(rs, n) => rs % 16 != 0 && n + rs % 16 <= FAST_BITS && -128 <= Extend(Stream(m, p + n, rs % 16)) <= 127
  }

  /** Coefficient v at place k. */
  function Stored(block: seq<int>, dequant: seq<int>, k: nat, v: int): (r: seq<int>)
    requires |block| == 64 && |dequant| == 64 && k < 79
    ensures |r| == 64
  {
    block[DeZigZag(k) := ToShort(v * dequant[DeZigZag(k)])]
  }

  datatype Move = Move(at: Spot, k: nat, block: seq<int>, stop: bool) | Stuck

  /** One turn of the coefficient loop. */
  ghost function AcMove(t: Table, src: Source, s: Spot, k: nat, block: seq<int>, dequant: seq<int>): (r: Move)
    requires Declared(t) && k < 64 && |block| == 64 && |dequant| == 64
    ensures r.Move? ==> |r.block| == 64 && (!r.stop ==> r.k > k)
  {
    var f := Fill(src, s, 16);
    if Quick(t, src.m, f.p) then
      var rs, len := SymbolAt(t, src.m, f.p).value, SymbolAt(t, src.m, f.p).length;
      if len + rs % 16 > Held(f) then Stuck
      else
        var v := Extend(Stream(src.m, f.p + len, rs % 16));
        Move(Ahead(f, len + rs % 16), k + rs / 16 + 1, Stored(block, dequant, k + rs / 16, v), false)
    else
      SlowMove(t, src, f, k, block, dequant)
  }

  /** The same without the fast_ac table. */
  ghost function SlowMove(t: Table, src: Source, s: Spot, k: nat, block: seq<int>, dequant: seq<int>): (r: Move)
    requires Declared(t) && k < 64 && |block| == 64 && |dequant| == 64
    ensures r.Move? ==> |r.block| == 64 && (!r.stop ==> r.k > k)
  {
    match TakeSymbol(t, src, s)
    case Failed => Stuck
    case Taken(rs, g) =>
      if rs % 16 == 0 then
        if rs == 0xf0 then Move(g, k + 16, block, false) else Move(g, k, block, true)
      else
        var value := TakeValue(src, g, rs % 16);
        Move(value.1, k + rs / 16 + 1, Stored(block, dequant, k + rs / 16, value.0), false)
  }

  ghost function TakeAc(
      t: Table, src: Source, s: Spot, k: nat, block: seq<int>, dequant: seq<int>): (r: Taken<seq<int>>)
    requires Declared(t) && k < 64 && |block| == 64 && |dequant| == 64
    ensures r.Taken? ==> |r.value| == 64
    decreases 64 - k
  {
    match AcMove(t, src, s, k, block, dequant)
    case Stuck => Failed
    case Move(at, k', block', stop) =>
      if stop || k' >= 64 then Taken(block', at) else TakeAc(t, src, at, k', block', dequant)
  }

  ghost function TakeDc(t: Table, src: Source, s: Spot, pred: int, scale: int): Taken<int>
    requires Declared(t)
  {
    match TakeSymbol(t, src, Fill(src, s, 16))
    case Failed => Failed
    case Taken(n, g) =>
      if n > 15 then Failed else
      var value := if n == 0 then (0, g) else TakeValue(src, g, n);
      if !AddValid(pred, value.0) || !MulValid(ToShort(pred + value.0), ToShort(scale)) then Failed
      else Taken(pred + value.0, value.1)
  }

  ghost function TakeBlock(c: Coding, src: Source, s: Spot, pred: int): (r: Taken<(seq<int>, int)>)
    requires GoodCoding(c)
  {
    match TakeDc(c.dc, src, s, pred, c.dequant[0])
    case Failed => Failed
    case Taken(d, e) =>
      match TakeAc(c.ac, src, e, 1, DcOnly(d, c.dequant[0]), c.dequant)
      case Failed => Failed
      case Taken(block, next) => Taken((block, d), next)
  }

  predicate InOrder(order: seq<nat>)
  {
    forall k :: 0 <= k < |order| ==> order[k] < 4
  }

  /** The blocks of a scan in the given order of components, and the last predictions. */
  ghost function TakeScan(codings: seq<Coding>, src: Source, order: seq<nat>): (r: Taken<(seq<seq<int>>, seq<int>)>)
    requires GoodCodings(codings) && InOrder(order)
    ensures r.Taken? ==> |r.value.0| == |order| && |r.value.1| == 4
  {
    if order == [] then Taken(([], [0, 0, 0, 0]), Spot(0, 0, false)) else
    var n := |order| - 1;
    match TakeScan(codings, src, order[..n])
    case Failed => Failed
    case Taken(sofar, s) =>
      var c := order[n];
      match TakeBlock(codings[c], src, s, sofar.1[c])
      case Failed => Failed
      case Taken(block, next) => Taken((sofar.0 + [block.0], sofar.1[c := block.1]), next)
  }

  // ---------------------------------------------------------------------------
  // Restart intervals

  /** Several MCUs, each the components of its blocks. */
  function Flat(mcus: seq<seq<nat>>): (order: seq<nat>)
  {
    if mcus == [] then [] else Flat(mcus[..|mcus| - 1]) + mcus[|mcus| - 1]
  }

  /** The MCU of a scan: with one component a block, otherwise h times v blocks of each component in turn. */
  function McuOf(scan: seq<nat>, h: seq<nat>, v: seq<nat>): (mcu: seq<nat>)
    requires InOrder(scan) && |h| == 4 && |v| == 4
  {
    if |scan| == 1 then scan else Interleaved(scan, h, v)
  }

  function Interleaved(scan: seq<nat>, h: seq<nat>, v: seq<nat>): (mcu: seq<nat>)
    requires InOrder(scan) && |h| == 4 && |v| == 4
  {
    if scan == [] then [] else
    var n := |scan| - 1;
    Interleaved(scan[..n], h, v) + Repeated(scan[n], v[scan[n]] * h[scan[n]])
  }

  function Repeated(c: nat, n: nat): (s: seq<nat>)
    ensures |s| == n
  {
    seq(n, _ => c)
  }

  lemma {:induction false} McuInOrder(scan: seq<nat>, h: seq<nat>, v: seq<nat>)
    requires InOrder(scan) && |h| == 4 && |v| == 4
    ensures InOrder(Interleaved(scan, h, v)) && InOrder(McuOf(scan, h, v))
  {
    if scan != [] { McuInOrder(scan[..|scan| - 1], h, v); }
  }

  predicate InOrders(mcus: seq<seq<nat>>)
  {
    forall i :: 0 <= i < |mcus| ==> InOrder(mcus[i])
  }

  lemma {:induction false} FlatInOrder(mcus: seq<seq<nat>>)
    requires InOrders(mcus)
    ensures InOrder(Flat(mcus))
  {
    if mcus != [] { FlatInOrder(mcus[..|mcus| - 1]); }
  }

  /** After an interval that ends at s the reader has met the marker that stands at mark, and it is one of
      the restart markers. */
  predicate RestartAfter(input: seq<Byte>, src: Source, mark: nat, s: Spot)
  {
    (if Held(s) < 24 then Grow(src, s) else s).ended && mark < |input| && 0xd0 <= input[mark] <= 0xd7
  }

  /** The blocks that the reader delivers when it looks for a restart marker after every interval MCUs: each
      interval is decoded by itself, and where no restart marker is met the rest stays undecoded. */
  ghost function TakeIntervals(codings: seq<Coding>, input: seq<Byte>, start: nat, mcus: seq<seq<nat>>, interval: nat)
    : Option<seq<seq<int>>>
    requires GoodCodings(codings) && InOrders(mcus) && interval > 0
    decreases |mcus|
  {
    var n := if |mcus| <= interval then |mcus| else interval;
    var src, mark := SourceAt(input, start), MarkerIndex(input, start);
    FlatInOrder(mcus[..n]);
    match TakeScan(codings, src, Flat(mcus[..n]))
    case Failed => None
    case Taken(r, s) =>
      if |mcus| <= interval || !RestartAfter(input, src, mark, s) then Some(r.0)
      else Prepend(r.0, TakeIntervals(codings, input, mark + 1, mcus[n..], interval))
  }

  /** A scan of a single interval. */
  lemma OneInterval(codings: seq<Coding>, input: seq<Byte>, start: nat, mcus: seq<seq<nat>>, interval: nat)
    requires GoodCodings(codings) && InOrders(mcus) && interval > 0 && |mcus| <= interval
    ensures InOrder(Flat(mcus))
    ensures TakeIntervals(codings, input, start, mcus, interval)
         == match TakeScan(codings, SourceAt(input, start), Flat(mcus))
            case Failed => None
            case Taken(r, _) => Some(r.0)
  {
    hide TakeScan, GoodCodings, SourceAt, MarkerIndex, RestartAfter, Flat;
    FlatInOrder(mcus);
    assert mcus[..|mcus|] == mcus;
  }

  function Prepend(a: seq<seq<int>>, b: Option<seq<seq<int>>>): Option<seq<seq<int>>>
  {
    match b
    case None => None
    case Some(s) => Some(a + s)
  }

  lemma PrependTwice(a: seq<seq<int>>, b: seq<seq<int>>, c: Option<seq<seq<int>>>)
    ensures Prepend(a, Prepend(b, c)) == Prepend(a + b, c)
  {
    if c.Some? { assert a + (b + c.value) == (a + b) + c.value; }
  }

  lemma PrependNothing(b: Option<seq<seq<int>>>)
    ensures Prepend([], b) == b
  {
    if b.Some? { assert [] + b.value == b.value; }
  }

  /** An interval before its first MCU. */
  lemma Nothing(codings: seq<Coding>, src: Source, mcus: seq<seq<nat>>, a: nat)
    requires GoodCodings(codings) && a <= |mcus|
    ensures Flat(mcus[a..a]) == [] && InOrder(Flat(mcus[a..a]))
    ensures TakeScan(codings, src, Flat(mcus[a..a])) == Taken(([], [0, 0, 0, 0]), Spot(0, 0, false))
  {
  }

  lemma FlatNext(mcus: seq<seq<nat>>, a: nat, i: nat)
    requires a <= i < |mcus|
    ensures Flat(mcus[a..i + 1]) == Flat(mcus[a..i]) + mcus[i]
  {
    assert mcus[a..i + 1][..i - a] == mcus[a..i];
  }

  lemma {:induction false} FlatTake(mcus: seq<seq<nat>>, n: nat)
    requires n <= |mcus|
    ensures Flat(mcus[..n]) <= Flat(mcus)
    decreases |mcus|
  {
    if n == |mcus| {
      assert mcus[..n] == mcus;
    } else {
      var k := |mcus| - 1;
      FlatTake(mcus[..k], n);
      assert mcus[..k][..n] == mcus[..n];
    }
  }

  lemma {:induction false} ScanStops(codings: seq<Coding>, src: Source, order: seq<nat>, i: nat)
    requires GoodCodings(codings) && InOrder(order) && i <= |order|
    requires TakeScan(codings, src, order[..i]).Failed?
    ensures TakeScan(codings, src, order).Failed?
    decreases |order|
  {
    hide TakeBlock, GoodCoding;
    if i == |order| {
      assert order[..i] == order;
    } else {
      var n := |order| - 1;
      assert order[..n][..i] == order[..i];
      ScanStops(codings, src, order[..n], i);
    }
  }

  /** The next block of an MCU. */
  lemma NextBlock(
      codings: seq<Coding>, src: Source, order: seq<nat>, mcu: seq<nat>, i: nat, blocks: seq<seq<int>>,
      dcPred: seq<int>, s: Spot)
    requires GoodCodings(codings) && InOrder(order) && InOrder(mcu) && i < |mcu|
    requires TakeScan(codings, src, order + mcu[..i]) == Taken((blocks, dcPred), s)
    ensures |dcPred| == 4
    ensures match TakeBlock(codings[mcu[i]], src, s, dcPred[mcu[i]])
      case Failed => TakeScan(codings, src, order + mcu).Failed?
      case Taken(b, next) =>
        TakeScan(codings, src, order + mcu[..i + 1]) == Taken((blocks + [b.0], dcPred[mcu[i] := b.1]), next)
  {
    hide TakeBlock, GoodCoding;
    var all, n := order + mcu[..i + 1], |order| + i;
    assert all[..n] == order + mcu[..i] && all[n] == mcu[i];
    if TakeBlock(codings[mcu[i]], src, s, dcPred[mcu[i]]).Failed? {
      assert (order + mcu)[..n + 1] == all;
      ScanStops(codings, src, order + mcu, n + 1);
    }
  }

  /** The interval of MCUs a to i - 1 fails, and with it the scan. */
  lemma IntervalFails(
      codings: seq<Coding>, input: seq<Byte>, start: nat, mcus: seq<seq<nat>>, a: nat, i: nat, interval: nat)
    requires GoodCodings(codings) && InOrders(mcus) && a <= i <= |mcus| && i - a <= interval && interval > 0
    requires InOrder(Flat(mcus[a..i])) && TakeScan(codings, SourceAt(input, start), Flat(mcus[a..i])).Failed?
    ensures TakeIntervals(codings, input, start, mcus[a..], interval) == None
  {
    hide TakeScan, GoodCodings, SourceAt, MarkerIndex, RestartAfter, Flat;
    var tail := mcus[a..];
    var n := if |tail| <= interval then |tail| else interval;
    FlatInOrder(tail[..n]);
    FlatTake(tail[..n], i - a);
    assert tail[..n][..i - a] == mcus[a..i];
    var done := Flat(mcus[a..i]);
    assert Flat(tail[..n])[..|done|] == done;
    ScanStops(codings, SourceAt(input, start), Flat(tail[..n]), |done|);
  }

  /** The interval of MCUs a to i - 1 is done. */
  lemma IntervalDone(
      codings: seq<Coding>, input: seq<Byte>, start: nat, mcus: seq<seq<nat>>, a: nat, i: nat, current: seq<seq<int>>,
      dcPred: seq<int>, s: Spot)
    requires GoodCodings(codings) && InOrders(mcus) && a < i <= |mcus| && InOrder(Flat(mcus[a..i]))
    requires TakeScan(codings, SourceAt(input, start), Flat(mcus[a..i])) == Taken((current, dcPred), s)
    ensures
      var mark := MarkerIndex(input, start);
      TakeIntervals(codings, input, start, mcus[a..], i - a)
        == if RestartAfter(input, SourceAt(input, start), mark, s)
           then Prepend(current, TakeIntervals(codings, input, mark + 1, mcus[i..], i - a)) else Some(current)
  {
    hide TakeIntervals, TakeScan, GoodCodings, SourceAt, MarkerIndex, RestartAfter, Flat;
    var tail := mcus[a..];
    assert tail[..i - a] == mcus[a..i] && tail[i - a..] == mcus[i..];
    IntervalStep(codings, input, start, tail, i - a, current, dcPred, s);
    if i == |mcus| {
      assert mcus[i..] == [];
      NoneLeft(codings, input, MarkerIndex(input, start) + 1, i - a);
      assert current + [] == current;
    }
  }

  lemma IntervalStep(
      codings: seq<Coding>, input: seq<Byte>, start: nat, mcus: seq<seq<nat>>, n: nat, current: seq<seq<int>>,
      dcPred: seq<int>, s: Spot)
    requires GoodCodings(codings) && InOrders(mcus) && 0 < n <= |mcus| && InOrder(Flat(mcus[..n]))
    requires InOrders(mcus[n..])
    requires TakeScan(codings, SourceAt(input, start), Flat(mcus[..n])) == Taken((current, dcPred), s)
    ensures
      var mark := MarkerIndex(input, start);
      TakeIntervals(codings, input, start, mcus, n)
        == if n < |mcus| && RestartAfter(input, SourceAt(input, start), mark, s)
           then Prepend(current, TakeIntervals(codings, input, mark + 1, mcus[n..], n)) else Some(current)
  {
    hide TakeScan, GoodCodings, SourceAt, MarkerIndex, RestartAfter, Flat;
  }

  lemma NoneLeft(codings: seq<Coding>, input: seq<Byte>, start: nat, interval: nat)
    requires GoodCodings(codings) && interval > 0
    ensures TakeIntervals(codings, input, start, [], interval) == Some([])
  {
    hide GoodCodings, SourceAt, MarkerIndex, RestartAfter;
    Nothing(codings, SourceAt(input, start), [], 0);
  }

  /** The last interval, when it is not a full one. */
  lemma LastInterval(
      codings: seq<Coding>, input: seq<Byte>, start: nat, mcus: seq<seq<nat>>, a: nat, interval: nat,
      current: seq<seq<int>>, dcPred: seq<int>, s: Spot)
    requires GoodCodings(codings) && InOrders(mcus) && a <= |mcus| < a + interval && InOrder(Flat(mcus[a..|mcus|]))
    requires TakeScan(codings, SourceAt(input, start), Flat(mcus[a..|mcus|])) == Taken((current, dcPred), s)
    ensures TakeIntervals(codings, input, start, mcus[a..], interval) == Some(current)
  {
    hide TakeScan, GoodCodings, SourceAt, MarkerIndex, RestartAfter, Flat;
    var tail := mcus[a..];
    assert tail[..|tail|] == mcus[a..|mcus|];
  }

  // ---------------------------------------------------------------------------
  // Agreement with the plain decoder as far as the data go

  /** Bits used are buffered; the marker is met after all data, and nothing is buffered beyond them before. */
  predicate Fine(src: Source, s: Spot)
  {
    && s.p <= 8 * s.fed && (s.ended ==> s.fed >= |src.m|)
    && (src.marked && !s.ended ==> s.fed <= |src.m|)
  }

  lemma {:induction false} GrowFine(src: Source, s: Spot)
    requires Fine(src, s)
    ensures Fine(src, Grow(src, s)) && (Held(Grow(src, s)) > 24 || Grow(src, s).fed >= |src.m|)
    decreases if Held(s) <= 24 then 25 - Held(s) else 0
  {
    var next := s.(fed := s.fed + 1);
    if !(!s.ended && src.marked && s.fed >= |src.m|) && Held(next) <= 24 { GrowFine(src, next); }
  }

  lemma {:induction false} GrowEnds(src: Source, s: Spot)
    requires Fine(src, s) && src.marked && 8 * |src.m| < s.p + 8
    ensures Grow(src, s).ended
    decreases if Held(s) <= 24 then 25 - Held(s) else 0
  {
    var next := s.(fed := s.fed + 1);
    if !(!s.ended && s.fed >= |src.m|) && Held(next) <= 24 { GrowEnds(src, next); }
  }

  /** When fewer than eight bits of the data are left, the look for a restart marker meets the marker. */
  lemma MeetsMarker(input: seq<Byte>, src: Source, mark: nat, s: Spot)
    requires Fine(src, s) && src.marked && 8 * |src.m| < s.p + 8
    ensures RestartAfter(input, src, mark, s) <==> mark < |input| && 0xd0 <= input[mark] <= 0xd7
  {
    hide Grow;
    GrowEnds(src, s);
  }

  lemma FillFine(src: Source, s: Spot, n: nat)
    requires Fine(src, s) && n <= 16
    ensures Fine(src, Fill(src, s, n)) && (Held(Fill(src, s, n)) >= n || Fill(src, s, n).fed >= |src.m|)
  {
    if Held(s) < n { GrowFine(src, s); }
  }

  /** Where the plain decoder gets a result or finds an error, so does the reader. */
  ghost predicate Same<T>(src: Source, plain: Read<T>, taken: Taken<T>)
  {
    match plain
    case Got(v, q) => taken.Taken? && taken.value == v && taken.at.p == q && Fine(src, taken.at)
    case Corrupt => taken.Failed?
    case Truncated => true
  }

  lemma SymbolSame(t: Table, src: Source, s: Spot)
    requires Declared(t) && Fine(src, s)
    ensures Same(src, ReadSymbol(t, src.m, s.p), TakeSymbol(t, src, s))
  {
    hide SymbolAt, Grow, Declared;
    FillFine(src, s, 16);
    SymbolLength(t, src.m, s.p);
  }

  lemma SymbolLength(t: Table, m: seq<Byte>, p: nat)
    requires Declared(t)
    ensures SymbolAt(t, m, p).Sym? ==> 0 < SymbolAt(t, m, p).length <= 16
  {
  }

  lemma ValueSame(src: Source, s: Spot, n: nat)
    requires Fine(src, s) && n <= 15
    ensures ReadValue(src.m, s.p, n).Got? ==>
      var r := TakeValue(src, s, n);
      r.0 == ReadValue(src.m, s.p, n).value && r.1.p == s.p + n && Fine(src, r.1)
  {
    hide Grow;
    FillFine(src, s, n);
  }

  /** A turn of the loop is the plain decoder's, as far as the data go. */
  ghost predicate MoveSame(t: Table, src: Source, s: Spot, k: nat, block: seq<int>, dequant: seq<int>)
    requires Declared(t) && k < 64 && |block| == 64 && |dequant| == 64
  {
    var plain := ReadAc(t, src.m, s.p, k, block, dequant);
    plain == Truncated ||
    match AcMove(t, src, s, k, block, dequant)
    case Stuck => plain == Corrupt
    case Move(at, k', block', stop) =>
      && Fine(src, at)
      && plain == (if stop || k' >= 64 then Got(block', at.p) else ReadAc(t, src.m, at.p, k', block', dequant))
  }

  lemma MoveIsSame(t: Table, src: Source, s: Spot, k: nat, block: seq<int>, dequant: seq<int>)
    requires Declared(t) && Fine(src, s) && k < 64 && |block| == 64 && |dequant| == 64
    ensures MoveSame(t, src, s, k, block, dequant)
  {
    hide Declared, SymbolAt, Fill, Stored, ReadAc, SlowMove;
    FillFine(src, s, 16);
    var f := Fill(src, s, 16);
    if Quick(t, src.m, f.p) {
      QuickSame(t, src, s, k, block, dequant);
    } else {
      SlowSame(t, src, f, k, block, dequant);
    }
  }

  lemma SlowSame(t: Table, src: Source, f: Spot, k: nat, block: seq<int>, dequant: seq<int>)
    requires Declared(t) && Fine(src, f) && k < 64 && |block| == 64 && |dequant| == 64
    ensures SlowIsSame(t, src, f, k, block, dequant)
  {
    hide Declared, TakeSymbol, TakeValue, ReadSymbol, Extend, Stream, Stored, ReadAc;
    SymbolSame(t, src, f);
    PlainStep(t, src.m, f.p, k, block, dequant);
    match TakeSymbol(t, src, f)
    case Failed =>
    case Taken(rs, g) => if rs % 16 != 0 && Fine(src, g) { ValueSame(src, g, rs % 16); }
  }

  /** The same for a turn without the fast_ac table. */
  ghost predicate SlowIsSame(t: Table, src: Source, f: Spot, k: nat, block: seq<int>, dequant: seq<int>)
    requires Declared(t) && k < 64 && |block| == 64 && |dequant| == 64
  {
    var plain := ReadAc(t, src.m, f.p, k, block, dequant);
    plain == Truncated ||
    match SlowMove(t, src, f, k, block, dequant)
    case Stuck => plain == Corrupt
    case Move(at, k', block', stop) =>
      && Fine(src, at)
      && plain == (if stop || k' >= 64 then Got(block', at.p) else ReadAc(t, src.m, at.p, k', block', dequant))
  }

  /** One step of the plain decoder. */
  lemma PlainStep(t: Table, m: seq<Byte>, p: nat, k: nat, block: seq<int>, dequant: seq<int>)
    requires Declared(t) && k < 64 && |block| == 64 && |dequant| == 64
    ensures ReadAc(t, m, p, k, block, dequant) ==
      match ReadSymbol(t, m, p)
      case Corrupt => Corrupt
      case Truncated => Truncated
      case Got(rs, q) =>
        if rs % 16 == 0 then
          if rs != 0xf0 || k + 16 >= 64 then Got(block, q) else ReadAc(t, m, q, k + 16, block, dequant)
        else
          match ReadValue(m, q, rs % 16)
          case Corrupt => Corrupt
          case Truncated => Truncated
          case Got(v, e) =>
            var next := Stored(block, dequant, k + rs / 16, v);
            if k + rs / 16 + 1 >= 64 then Got(next, e) else ReadAc(t, m, e, k + rs / 16 + 1, next, dequant)
  {
    hide Declared, ReadSymbol, ReadValue, ToShort, DeZigZag;
  }

  lemma QuickSame(t: Table, src: Source, s: Spot, k: nat, block: seq<int>, dequant: seq<int>)
    requires Declared(t) && Fine(src, s) && k < 64 && |block| == 64 && |dequant| == 64
    requires Quick(t, src.m, Fill(src, s, 16).p)
    ensures MoveSame(t, src, s, k, block, dequant)
  {
    hide Declared, SymbolAt, Fill, Stored, Extend, Stream, ReadAc;
    FillFine(src, s, 16);
    QuickReads(t, src.m, s.p, k, block, dequant);
  }

  /** The plain decoder where symbol and value are short. */
  lemma QuickReads(t: Table, m: seq<Byte>, p: nat, k: nat, block: seq<int>, dequant: seq<int>)
    requires Declared(t) && k < 64 && |block| == 64 && |dequant| == 64 && Quick(t, m, p)
    ensures
      var rs, len := SymbolAt(t, m, p).value, SymbolAt(t, m, p).length;
      var q, k' := p + len + rs % 16, k + rs / 16;
      var block' := Stored(block, dequant, k', Extend(Stream(m, p + len, rs % 16)));
      ReadAc(t, m, p, k, block, dequant) ==
        if q > 8 * |m| then Truncated
        else if k' + 1 >= 64 then Got(block', q) else ReadAc(t, m, q, k' + 1, block', dequant)
  {
    hide Declared, SymbolAt, Stored, Extend, Stream, ReadAc;
    PlainStep(t, m, p, k, block, dequant);
  }

  lemma {:induction false} AcSame(t: Table, src: Source, s: Spot, k: nat, block: seq<int>, dequant: seq<int>)
    requires Declared(t) && Fine(src, s) && k < 64 && |block| == 64 && |dequant| == 64
    ensures Same(src, ReadAc(t, src.m, s.p, k, block, dequant), TakeAc(t, src, s, k, block, dequant))
    decreases 64 - k
  {
    hide Declared, ReadAc, AcMove;
    MoveIsSame(t, src, s, k, block, dequant);
    match AcMove(t, src, s, k, block, dequant)
    case Stuck =>
    case Move(at, k', block', stop) =>
      if Fine(src, at) && !stop && k' < 64 { AcSame(t, src, at, k', block', dequant); }
  }

  lemma DcSame(t: Table, src: Source, s: Spot, pred: int, scale: int)
    requires Declared(t) && Fine(src, s)
    ensures Same(src, ReadDc(t, src.m, s.p, pred, scale), TakeDc(t, src, s, pred, scale))
  {
    hide Declared, Grow, ToShort, MulValid, ReadSymbol, TakeSymbol;
    FillFine(src, s, 16);
    var f := Fill(src, s, 16);
    SymbolSame(t, src, f);
    match TakeSymbol(t, src, f)
    case Failed =>
    case Taken(n, g) =>
      if Fine(src, g) && n <= 15 { ValueSame(src, g, n); NoValue(src, g); }
  }

  lemma NoValue(src: Source, s: Spot)
    ensures s.p <= 8 * |src.m| ==> ReadValue(src.m, s.p, 0) == Got(0, s.p)
  {
  }

  lemma BlockSame(c: Coding, src: Source, s: Spot, pred: int)
    requires GoodCoding(c) && Fine(src, s)
    ensures Same(src, ReadBlock(c.dc, c.ac, src.m, s.p, pred, c.dequant), TakeBlock(c, src, s, pred))
  {
    hide Declared, ReadDc, TakeDc, ReadAc, TakeAc, DcOnly;
    DcSame(c.dc, src, s, pred, c.dequant[0]);
    match TakeDc(c.dc, src, s, pred, c.dequant[0])
    case Failed =>
    case Taken(d, e) =>
      if Fine(src, e) { AcSame(c.ac, src, e, 1, DcOnly(d, c.dequant[0]), c.dequant); }
  }

  /** As far as the data go, the reader's scan is the plain decoder's. */
  lemma {:induction false} ScanSame(codings: seq<Coding>, src: Source, order: seq<nat>)
    requires GoodCodings(codings) && InOrder(order)
    ensures Same(src, ReadScan(codings, src.m, order), TakeScan(codings, src, order))
  {
    hide GoodCoding, ReadBlock, TakeBlock;
    if order != [] {
      var n := |order| - 1;
      ScanSame(codings, src, order[..n]);
      match TakeScan(codings, src, order[..n])
      case Failed =>
      case Taken(sofar, s) =>
        if Fine(src, s) { BlockSame(codings[order[n]], src, s, sofar.1[order[n]]); }
    }
  }
}
