/** Scans with restart intervals, which the writer of this repository never makes: MCUs coded in groups, each
    stuffed by itself and followed by a restart marker (section E.1.4 of ITU-T T.81), are read back. */
module JpegRestart {
  import opened BitStrings
  import opened JpegBits
  import opened JpegFormat
  import opened JpegBlock
  import opened JpegEnding
  import opened Wrappers
  import JpegReader
  import JpegRoundTrip

  /** A group of MCUs: the components of their blocks, the blocks, and the bytes that code them from zero
      predictions on. */
  datatype Group = Group(mcus: seq<seq<nat>>, units: seq<Unit>, plain: seq<Byte>)

  /** The bytes hold the bits of the blocks and fewer than eight more. */
  predicate Coded(books: seq<Books>, g: Group)
    requires |books| == 4
  {
    && InOrders(g.mcus) && ScanRange(g.units) && Flat(g.mcus) == Order(g.units)
    && ScanBits(books, g.units) <= MsbToBits(g.plain) && 8 * |g.plain| < |ScanBits(books, g.units)| + 8
  }

  predicate AllCoded(books: seq<Books>, groups: seq<Group>)
    requires |books| == 4
  {
    forall i :: 0 <= i < |groups| ==> Coded(books, groups[i])
  }

  /** Every group has exactly r MCUs, the last one at most r. */
  predicate InGroupsOf(groups: seq<Group>, r: nat)
  {
    && groups != [] && 0 < |groups[|groups| - 1].mcus| <= r
    && forall i :: 0 <= i < |groups| - 1 ==> |groups[i].mcus| == r
  }

  /** The file: the markers RST0 to RST7 in turn between the groups, and the end marker. */
  function Text(groups: seq<Group>, k: nat): seq<Byte>
    requires groups != []
  {
    if |groups| == 1 then Stuff(groups[0].plain) + [0xff, 0xd9]
    else Stuff(groups[0].plain) + ([0xff, 0xd0 + k % 8] + Text(groups[1..], k + 1))
  }

  function AllMcus(groups: seq<Group>): seq<seq<nat>>
  {
    if groups == [] then [] else groups[0].mcus + AllMcus(groups[1..])
  }

  /** What the reader delivers. */
  function AllDelivered(codings: seq<Coding>, groups: seq<Group>): Option<seq<seq<int>>>
    requires GoodCodings(codings) && forall i :: 0 <= i < |groups| ==> Units(groups[i].units)
  {
    if groups == [] then Some([])
    else if !ScanAccepted(codings, groups[0].units) then None
    else Prepend(Delivered(codings, groups[0].units), AllDelivered(codings, groups[1..]))
  }

  /** The reader's scan of one group, from the byte after before on. */
  lemma GroupRead(
      books: seq<Books>, codings: seq<Coding>, g: Group, before: seq<Byte>, marker: Byte, after: seq<Byte>)
    requires GoodCodings(codings) && |books| == 4 && BooksForAll(books, codings) && Coded(books, g)
    requires marker != 0 && marker != 0xff
    ensures
      var input := before + Stuff(g.plain) + ([0xff, marker] + after);
      var src, mark := SourceAt(input, |before|), MarkerIndex(input, |before|);
      && mark == |before| + |Stuff(g.plain)| + 1 && mark < |input| && input[mark] == marker
      && InOrder(Order(g.units))
      && match TakeScan(codings, src, Order(g.units))
         case Failed => !ScanAccepted(codings, g.units)
         case Taken(v, s) =>
           && ScanAccepted(codings, g.units) && v.0 == Delivered(codings, g.units)
           && (RestartAfter(input, src, mark, s) <==> 0xd0 <= marker <= 0xd7)
  {
    hide ScanRange, BooksForAll, ScanAccepted, ReadScan, ScanBits, MsbToBits, Stuff, Unstuff, Mirror, At, TakeScan,
      Order, Delivered, MarkerIndex, GoodCodings, Flat, RestartAfter;
    var rest := [0xff, marker] + after;
    var input := before + Stuff(g.plain) + rest;
    UnstuffStuff(before, g.plain, rest);
    MarkerStuff(before, g.plain, rest);
    BitsAtStart(g.plain, ScanBits(books, g.units));
    var src := SourceAt(input, |before|);
    OrderInOrder(g.units);
    ReadScanBack(books, codings, src.m, g.units);
    ScanSame(codings, src, Order(g.units));
    match TakeScan(codings, src, Order(g.units))
    case Failed =>
    case Taken(v, s) => if ScanAccepted(codings, g.units) { MeetsMarker(input, src, MarkerIndex(input, |before|), s); }
  }

  lemma OrderInOrder(units: seq<Unit>)
    requires ScanRange(units)
    ensures InOrder(Order(units)) && Units(units)
  {
  }

  lemma BitsAtStart(plain: seq<Byte>, bits: seq<bool>)
    requires bits <= MsbToBits(plain)
    ensures At(Mirror(plain), 0, bits) && |bits| <= 8 * |Mirror(plain)|
  {
    hide MsbToBits, Mirror, At;
    MirrorBits(plain, |plain|);
    assert plain[..|plain|] == plain;
    var all := MsbToBits(plain);
    assert all == bits + all[|bits|..];
    AtConcat(Mirror(plain), 0, bits, all[|bits|..]);
  }

  lemma {:induction false} GroupsInOrder(books: seq<Books>, groups: seq<Group>)
    requires |books| == 4 && AllCoded(books, groups)
    ensures InOrders(AllMcus(groups)) && forall i :: 0 <= i < |groups| ==> Units(groups[i].units)
  {
    hide ScanBits, MsbToBits, Flat;
    if groups != [] { GroupsInOrder(books, groups[1..]); }
  }

  /** MCUs in groups of r, with restart markers between the groups, are read as what was coded, when the reader
      looks for a marker after every r MCUs. */
  lemma {:induction false} RestartsRead(
      books: seq<Books>, codings: seq<Coding>, groups: seq<Group>, r: nat, before: seq<Byte>, k: nat)
    requires GoodCodings(codings) && |books| == 4 && BooksForAll(books, codings)
    requires AllCoded(books, groups) && InGroupsOf(groups, r)
    ensures InOrders(AllMcus(groups)) && forall i :: 0 <= i < |groups| ==> Units(groups[i].units)
    ensures TakeIntervals(codings, before + Text(groups, k), |before|, AllMcus(groups), r) ==
      AllDelivered(codings, groups)
    decreases |groups|
  {
    hide BooksForAll, GoodCodings, Coded, Stuff, TakeIntervals, TakeScan, ScanAccepted, Delivered, RestartAfter,
      SourceAt, MarkerIndex, Order, Flat, Units, Text;
    GroupsInOrder(books, groups);
    var g := groups[0];
    CodedFacts(books, g);
    if |groups| == 1 {
      TextLast(groups, k);
      LastRead(books, codings, g, r, before);
      assert groups[1..] == [] && g.mcus + [] == g.mcus;
      assert AllMcus(groups) == g.mcus;
      OneGroup(codings, groups);
    } else {
      var marker := 0xd0 + k % 8;
      var after := Text(groups[1..], k + 1);
      var input := before + Text(groups, k);
      var next := before + Stuff(g.plain) + [0xff, marker];
      TextNext(groups, k, before);
      GroupRead(books, codings, g, before, marker, after);
      assert AllCoded(books, groups[1..]) && InGroupsOf(groups[1..], r);
      RestartsRead(books, codings, groups[1..], r, next, k + 1);
      SomeMcus(groups[1..], r);
      GroupGoesOn(codings, input, |before|, g, AllMcus(groups[1..]), r);
    }
  }

  lemma TextLast(groups: seq<Group>, k: nat)
    requires |groups| == 1
    ensures Text(groups, k) == Stuff(groups[0].plain) + [0xff, 0xd9]
  {
  }

  lemma TextNext(groups: seq<Group>, k: nat, before: seq<Byte>)
    requires |groups| > 1
    ensures
      var input, after, marker := before + Text(groups, k), Text(groups[1..], k + 1), [0xff, 0xd0 + k % 8];
      && input == before + Stuff(groups[0].plain) + (marker + after)
      && input == (before + Stuff(groups[0].plain) + marker) + after
  {
    hide Stuff;
  }

  lemma CodedFacts(books: seq<Books>, g: Group)
    requires |books| == 4 && Coded(books, g)
    ensures InOrders(g.mcus) && Flat(g.mcus) == Order(g.units) && InOrder(Order(g.units)) && Units(g.units)
  {
    hide ScanBits, MsbToBits, Flat;
    OrderInOrder(g.units);
  }

  lemma OneGroup(codings: seq<Coding>, groups: seq<Group>)
    requires GoodCodings(codings) && |groups| == 1 && Units(groups[0].units)
    ensures AllDelivered(codings, groups)
         == if ScanAccepted(codings, groups[0].units) then Some(Delivered(codings, groups[0].units)) else None
  {
    hide ScanAccepted, Delivered, GoodCodings, Units;
    assert groups[1..] == [];
    assert Delivered(codings, groups[0].units) + [] == Delivered(codings, groups[0].units);
  }

  lemma SomeMcus(groups: seq<Group>, r: nat)
    requires InGroupsOf(groups, r)
    ensures r > 0 && |AllMcus(groups)| > 0
  {
  }

  /** The last group, which the end marker follows. */
  lemma LastRead(books: seq<Books>, codings: seq<Coding>, g: Group, r: nat, before: seq<Byte>)
    requires GoodCodings(codings) && |books| == 4 && BooksForAll(books, codings) && Coded(books, g)
    requires 0 < |g.mcus| <= r
    ensures InOrders(g.mcus) && Units(g.units)
    ensures TakeIntervals(codings, before + (Stuff(g.plain) + [0xff, 0xd9]), |before|, g.mcus, r)
         == if ScanAccepted(codings, g.units) then Some(Delivered(codings, g.units)) else None
  {
    hide BooksForAll, GoodCodings, Coded, Stuff, TakeIntervals, TakeScan, ScanAccepted, Delivered, RestartAfter,
      SourceAt, MarkerIndex, Order, Flat, Units;
    CodedFacts(books, g);
    var input := before + (Stuff(g.plain) + [0xff, 0xd9]);
    assert input == before + Stuff(g.plain) + ([0xff, 0xd9] + []);
    GroupRead(books, codings, g, before, 0xd9, []);
    OneInterval(codings, input, |before|, g.mcus, r);
  }

  /** A full group after which a restart marker has been met. */
  lemma GroupGoesOn(codings: seq<Coding>, input: seq<Byte>, start: nat, g: Group, rest: seq<seq<nat>>, r: nat)
    requires GoodCodings(codings) && Units(g.units) && InOrders(g.mcus) && InOrders(rest) && rest != []
    requires |g.mcus| == r > 0 && Flat(g.mcus) == Order(g.units) && InOrder(Order(g.units))
    requires
      var src, mark := SourceAt(input, start), MarkerIndex(input, start);
      match TakeScan(codings, src, Order(g.units))
      case Failed => !ScanAccepted(codings, g.units)
      case Taken(v, s) =>
        ScanAccepted(codings, g.units) && v.0 == Delivered(codings, g.units) && RestartAfter(input, src, mark, s)
    ensures InOrders(g.mcus + rest)
    ensures TakeIntervals(codings, input, start, g.mcus + rest, r)
         == if !ScanAccepted(codings, g.units) then None
            else
              var later := TakeIntervals(codings, input, MarkerIndex(input, start) + 1, rest, r);
              Prepend(Delivered(codings, g.units), later)
  {
    hide GoodCodings, TakeIntervals, TakeScan, ScanAccepted, Delivered, RestartAfter, SourceAt, MarkerIndex, Order,
      Flat, Units, InOrder;
    var mcus := g.mcus + rest;
    assert mcus[..r] == g.mcus && mcus[r..] == rest && mcus[0..] == mcus && mcus[0..r] == g.mcus;
    match TakeScan(codings, SourceAt(input, start), Order(g.units))
    case Failed => IntervalFails(codings, input, start, mcus, 0, r, r);
    case Taken(v, s) => IntervalStep(codings, input, start, mcus, r, v.0, v.1, s);
  }

  /** A scan with restart interval r > 0: the reader returns every coefficient times its scale, if and only if it
      accepts the DC coefficients of all groups. */
  method RestartRoundTrip(
      before: seq<Byte>, groups: seq<Group>, r: nat, mcus: seq<seq<nat>>, comps: seq<JpegReader.Component>,
      ghost books: seq<Books>, ghost codings: seq<Coding>)
    returns (ok: bool, blocks: seq<seq<int>>)
    requires GoodCodings(codings) && |books| == 4 && BooksForAll(books, codings)
    requires JpegReader.Components(comps, codings)
    requires AllCoded(books, groups) && InGroupsOf(groups, r) && mcus == AllMcus(groups)
    ensures forall i :: 0 <= i < |groups| ==> Units(groups[i].units)
    ensures match AllDelivered(codings, groups)
      case None => !ok
      case Some(all) => ok && blocks == all
  {
    hide BooksForAll, GoodCodings, Coded, JpegReader.Components, TakeIntervals, Text, Units;
    var input := before + Text(groups, 0);
    RestartsRead(books, codings, groups, r, before, 0);
    SomeMcus(groups, r);
    var reader := new JpegReader.Reader(input, |before|);
    ok, blocks := reader.DecodeScan(comps, mcus, r, codings, |before|);
  }
}
