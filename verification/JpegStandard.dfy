/** The four Huffman tables of the JPEG writer: the codes that it writes with are the canonical codes of the
    lengths and symbols that it declares. */
module JpegStandard {
  import opened BitStrings
  import opened Canonical
  import opened JpegHuffman
  import opened JpegFormat
  import opened JpegBlock
  import opened JpegWriter
  import opened JpegTables
  import opened JpegEnding
  import opened JpegFrame
  import JpegReader
  import JpegRoundTrip

  // ---------------------------------------------------------------------------
  // Tables that are canonical

  lemma {:induction false} CountConcat(a: seq<nat>, b: seq<nat>, s: nat)
    ensures Count(a + b, s) == Count(a, s) + Count(b, s)
  {
    CountSplit(a + b, |a|, s);
    assert (a + b)[..|a|] == a && (a + b)[|a|..] == b;
  }

  /** The size list has as many codes of every length as was declared. */
  lemma {:induction false} CountOfSizes(count: seq<nat>, s: nat)
    ensures Count(SizeList(count), s) == if 1 <= s <= |count| then count[s - 1] else 0
  {
    if count != [] {
      var n := |count| - 1;
      CountOfSizes(count[..n], s);
      CountConcat(SizeList(count[..n]), seq(count[n], _ => n + 1), s);
      CountSame(count[n], n + 1, s);
    }
  }

  /** A declared table with, for every length, its number of codes, its first code and its first place. */
  datatype Declaration = Declaration(count: seq<nat>, first: seq<nat>, start: seq<nat>, values: seq<Byte>)

  /** first and start are what counting gives, and the codes leave room. */
  predicate Counted(d: Declaration)
  {
    && |d.count| == 16 && |d.first| == 18 && |d.start| == 18 && |d.values| == 256
    && d.first[1] == 0 && d.start[1] == 0 && d.first[17] <= 0x2_0000 && d.start[17] < 256
    && forall s :: 1 <= s <= 16 ==> CountedAt(d, s)
  }

  predicate CountedAt(d: Declaration, s: nat)
    requires 1 <= s <= 16 && |d.count| == 16 && |d.first| == 18 && |d.start| == 18
  {
    d.first[s + 1] == 2 * (d.first[s] + d.count[s - 1]) && d.start[s + 1] == d.start[s] + d.count[s - 1]
  }

  function TableOf(d: Declaration): Table
  {
    Table(SizeList(d.count), d.values)
  }

  lemma {:induction false} CountedValues(d: Declaration, s: nat)
    requires Counted(d) && 1 <= s <= 17
    ensures FirstCode(SizeList(d.count), s) == d.first[s] && FirstSymbol(SizeList(d.count), s) == d.start[s]
  {
    if s > 1 {
      CountedValues(d, s - 1);
      CountOfSizes(d.count, s - 1);
      assert CountedAt(d, s - 1);
    }
  }

  lemma CountedDeclared(d: Declaration)
    requires Counted(d)
    ensures Declared(TableOf(d)) && |TableOf(d).lens| < 256
    ensures forall i :: 0 <= i < |TableOf(d).lens| ==> !Flagged(TableOf(d).lens, i)
  {
    hide Kraft;
    var lens := SizeList(d.count);
    SizeListSorted(d.count);
    CountedValues(d, 17);
    AllShorter(lens, 17);
    KraftFrom(lens);
  }

  lemma KraftFrom(lens: seq<nat>)
    requires AtMost(lens, 16) && FirstCode(lens, 17) <= 0x2_0000
    ensures Kraft(lens, 16)
  {
    KraftSumIsUsed(lens, 16);
    Pow2Values();
  }

  /** Entry v of a code table is empty, or the canonical code of the place where v is declared. */
  predicate EntryOk(d: Declaration, e: Entry, v: nat)
    requires |d.count| == 16 && |d.first| == 18 && |d.start| == 18 && |d.values| == 256
  {
    e == Entry(0, 0) ||
    (1 <= e.length <= 16 && d.first[e.length] <= e.code < d.first[e.length] + d.count[e.length - 1] &&
     d.start[e.length] + (e.code - d.first[e.length]) < 256 &&
     d.values[d.start[e.length] + (e.code - d.first[e.length])] == v)
  }

  lemma EntryCanonical(d: Declaration, e: Entry, v: nat)
    requires Counted(d) && EntryOk(d, e, v)
    ensures GoodEntry(e) && Declared(TableOf(d))
    ensures e.length > 0 ==> Named(TableOf(d), v, EntryBits(e))
  {
    hide Used, FirstSymbol, Count, Kraft, SizeList;
    CountedDeclared(d);
    if e.length > 0 {
      var lens, s := SizeList(d.count), e.length;
      var i := d.start[s] + (e.code - d.first[s]);
      PlaceIs(d, s, i);
      CodeFits(lens, i, 16);
      assert Word(TableOf(d), i) == EntryBits(e);
    }
  }

  /** The declared table gives symbol v this code. */
  ghost predicate Named(t: Table, v: nat, word: seq<bool>)
    requires Declared(t)
  {
    exists i :: 0 <= i < |t.lens| && t.values[i] == v && Word(t, i) == word
  }

  lemma PlaceIs(d: Declaration, s: nat, i: nat)
    requires Counted(d) && 1 <= s <= 16 && d.start[s] <= i < d.start[s] + d.count[s - 1]
    ensures i < |SizeList(d.count)| && SizeList(d.count)[i] == s
    ensures Code(SizeList(d.count), i) == d.first[s] + (i - d.start[s])
  {
    hide Used, FirstSymbol, Count, SizeList;
    var lens := SizeList(d.count);
    SizeListSorted(d.count);
    CountedValues(d, s);
    CountedValues(d, s + 1);
    assert CountedAt(d, s);
    FirstSymbolBound(lens, s + 1);
    SortedRange(lens, s, i);
    SortedSlot(lens, i);
  }

  lemma TableCanonical(d: Declaration, ht: seq<Entry>)
    requires Counted(d) && |ht| == 256 && forall v :: 0 <= v < 256 ==> EntryOk(d, ht[v], v)
    ensures GoodTable(ht) && Declared(TableOf(d)) && Agrees(BookOf(ht), TableOf(d))
  {
    hide Counted, EntryOk, EntryBits, Declared, GoodEntry;
    CountedDeclared(d);
    forall v | 0 <= v < 256
      ensures GoodEntry(ht[v])
      ensures BookOf(ht)[v] != [] ==> Named(TableOf(d), v, BookOf(ht)[v])
    {
      EntryCanonical(d, ht[v], v);
      EmptyWord(ht[v]);
    }
  }

  lemma EmptyWord(e: Entry)
    ensures EntryBits(e) != [] <==> e.length > 0
  {
  }

  // ---------------------------------------------------------------------------
  // The tables

  /** The writer's code for symbol v. */
  function DcLuminanceEntry(v: nat): Entry
  {
    var j := v % 16;
    match v / 16
    case 0 => (match j
      case 0 => Entry(0, 2) case 1 => Entry(2, 3) case 2 => Entry(3, 3) case 3 => Entry(4, 3)
      case 4 => Entry(5, 3) case 5 => Entry(6, 3) case 6 => Entry(14, 4) case 7 => Entry(30, 5)
      case 8 => Entry(62, 6) case 9 => Entry(126, 7) case 10 => Entry(254, 8) case 11 => Entry(510, 9)
      case _ => Entry(0, 0))
    case _ => Entry(0, 0)
  }

  /** The symbol declared at place i. */
  function DcLuminanceValue(i: nat): Byte
  {
    var j := i % 16;
    match i / 16
    case 0 => (match j
      case 0 => 0 case 1 => 1 case 2 => 2 case 3 => 3 case 4 => 4 case 5 => 5 case 6 => 6
      case 7 => 7 case 8 => 8 case 9 => 9 case 10 => 10 case 11 => 11 case _ => 0)
    case _ => 0
  }

  /** How many codes of n bits there are. */
  function DcLuminanceCount(n: nat): nat
  {
    match n
    case 2 => 1 case 3 => 5 case 4 => 1 case 5 => 1 case 6 => 1 case 7 => 1 case 8 => 1 case 9 => 1
    case _ => 0
  }

  /** The first code of n bits. */
  function DcLuminanceFirst(n: nat): nat
  {
    match n
    case 3 => 2 case 4 => 14 case 5 => 30 case 6 => 62 case 7 => 126 case 8 => 254 case 9 => 510 case 10 => 1022
    case 11 => 2044 case 12 => 4088 case 13 => 8176 case 14 => 16352 case 15 => 32704 case 16 => 65408 case 17 => 130816
    case _ => 0
  }

  /** The place of the first symbol with a code of n bits. */
  function DcLuminanceStart(n: nat): nat
  {
    match n
    case 3 => 1 case 4 => 6 case 5 => 7 case 6 => 8 case 7 => 9 case 8 => 10 case 9 => 11 case 10 => 12 case 11 => 12
    case 12 => 12 case 13 => 12 case 14 => 12 case 15 => 12 case 16 => 12 case 17 => 12
    case _ => 0
  }

  /** The writer's code for symbol v. */
  function AcLuminanceEntry(v: nat): Entry
  {
    var j := v % 16;
    match v / 16
    case 0 => (match j
      case 0 => Entry(10, 4) case 1 => Entry(0, 2) case 2 => Entry(1, 2) case 3 => Entry(4, 3)
      case 4 => Entry(11, 4) case 5 => Entry(26, 5) case 6 => Entry(120, 7) case 7 => Entry(248, 8)
      case 8 => Entry(1014, 10) case 9 => Entry(65410, 16) case 10 => Entry(65411, 16) case _ => Entry(0, 0))
    case 1 => (match j
      case 1 => Entry(12, 4) case 2 => Entry(27, 5) case 3 => Entry(121, 7) case 4 => Entry(502, 9)
      case 5 => Entry(2038, 11) case 6 => Entry(65412, 16) case 7 => Entry(65413, 16) case 8 => Entry(65414, 16)
      case 9 => Entry(65415, 16) case 10 => Entry(65416, 16) case _ => Entry(0, 0))
    case 2 => (match j
      case 1 => Entry(28, 5) case 2 => Entry(249, 8) case 3 => Entry(1015, 10) case 4 => Entry(4084, 12)
      case 5 => Entry(65417, 16) case 6 => Entry(65418, 16) case 7 => Entry(65419, 16) case 8 => Entry(65420, 16)
      case 9 => Entry(65421, 16) case 10 => Entry(65422, 16) case _ => Entry(0, 0))
    case 3 => (match j
      case 1 => Entry(58, 6) case 2 => Entry(503, 9) case 3 => Entry(4085, 12) case 4 => Entry(65423, 16)
      case 5 => Entry(65424, 16) case 6 => Entry(65425, 16) case 7 => Entry(65426, 16) case 8 => Entry(65427, 16)
      case 9 => Entry(65428, 16) case 10 => Entry(65429, 16) case _ => Entry(0, 0))
    case 4 => (match j
      case 1 => Entry(59, 6) case 2 => Entry(1016, 10) case 3 => Entry(65430, 16) case 4 => Entry(65431, 16)
      case 5 => Entry(65432, 16) case 6 => Entry(65433, 16) case 7 => Entry(65434, 16) case 8 => Entry(65435, 16)
      case 9 => Entry(65436, 16) case 10 => Entry(65437, 16) case _ => Entry(0, 0))
    case 5 => (match j
      case 1 => Entry(122, 7) case 2 => Entry(2039, 11) case 3 => Entry(65438, 16) case 4 => Entry(65439, 16)
      case 5 => Entry(65440, 16) case 6 => Entry(65441, 16) case 7 => Entry(65442, 16) case 8 => Entry(65443, 16)
      case 9 => Entry(65444, 16) case 10 => Entry(65445, 16) case _ => Entry(0, 0))
    case 6 => (match j
      case 1 => Entry(123, 7) case 2 => Entry(4086, 12) case 3 => Entry(65446, 16) case 4 => Entry(65447, 16)
      case 5 => Entry(65448, 16) case 6 => Entry(65449, 16) case 7 => Entry(65450, 16) case 8 => Entry(65451, 16)
      case 9 => Entry(65452, 16) case 10 => Entry(65453, 16) case _ => Entry(0, 0))
    case 7 => (match j
      case 1 => Entry(250, 8) case 2 => Entry(4087, 12) case 3 => Entry(65454, 16) case 4 => Entry(65455, 16)
      case 5 => Entry(65456, 16) case 6 => Entry(65457, 16) case 7 => Entry(65458, 16) case 8 => Entry(65459, 16)
      case 9 => Entry(65460, 16) case 10 => Entry(65461, 16) case _ => Entry(0, 0))
    case 8 => (match j
      case 1 => Entry(504, 9) case 2 => Entry(32704, 15) case 3 => Entry(65462, 16) case 4 => Entry(65463, 16)
      case 5 => Entry(65464, 16) case 6 => Entry(65465, 16) case 7 => Entry(65466, 16) case 8 => Entry(65467, 16)
      case 9 => Entry(65468, 16) case 10 => Entry(65469, 16) case _ => Entry(0, 0))
    case 9 => (match j
      case 1 => Entry(505, 9) case 2 => Entry(65470, 16) case 3 => Entry(65471, 16) case 4 => Entry(65472, 16)
      case 5 => Entry(65473, 16) case 6 => Entry(65474, 16) case 7 => Entry(65475, 16) case 8 => Entry(65476, 16)
      case 9 => Entry(65477, 16) case 10 => Entry(65478, 16) case _ => Entry(0, 0))
    case 10 => (match j
      case 1 => Entry(506, 9) case 2 => Entry(65479, 16) case 3 => Entry(65480, 16) case 4 => Entry(65481, 16)
      case 5 => Entry(65482, 16) case 6 => Entry(65483, 16) case 7 => Entry(65484, 16) case 8 => Entry(65485, 16)
      case 9 => Entry(65486, 16) case 10 => Entry(65487, 16) case _ => Entry(0, 0))
    case 11 => (match j
      case 1 => Entry(1017, 10) case 2 => Entry(65488, 16) case 3 => Entry(65489, 16) case 4 => Entry(65490, 16)
      case 5 => Entry(65491, 16) case 6 => Entry(65492, 16) case 7 => Entry(65493, 16) case 8 => Entry(65494, 16)
      case 9 => Entry(65495, 16) case 10 => Entry(65496, 16) case _ => Entry(0, 0))
    case 12 => (match j
      case 1 => Entry(1018, 10) case 2 => Entry(65497, 16) case 3 => Entry(65498, 16) case 4 => Entry(65499, 16)
      case 5 => Entry(65500, 16) case 6 => Entry(65501, 16) case 7 => Entry(65502, 16) case 8 => Entry(65503, 16)
      case 9 => Entry(65504, 16) case 10 => Entry(65505, 16) case _ => Entry(0, 0))
    case 13 => (match j
      case 1 => Entry(2040, 11) case 2 => Entry(65506, 16) case 3 => Entry(65507, 16) case 4 => Entry(65508, 16)
      case 5 => Entry(65509, 16) case 6 => Entry(65510, 16) case 7 => Entry(65511, 16) case 8 => Entry(65512, 16)
      case 9 => Entry(65513, 16) case 10 => Entry(65514, 16) case _ => Entry(0, 0))
    case 14 => (match j
      case 1 => Entry(65515, 16) case 2 => Entry(65516, 16) case 3 => Entry(65517, 16) case 4 => Entry(65518, 16)
      case 5 => Entry(65519, 16) case 6 => Entry(65520, 16) case 7 => Entry(65521, 16) case 8 => Entry(65522, 16)
      case 9 => Entry(65523, 16) case 10 => Entry(65524, 16) case _ => Entry(0, 0))
    case 15 => (match j
      case 0 => Entry(2041, 11) case 1 => Entry(65525, 16) case 2 => Entry(65526, 16) case 3 => Entry(65527, 16)
      case 4 => Entry(65528, 16) case 5 => Entry(65529, 16) case 6 => Entry(65530, 16) case 7 => Entry(65531, 16)
      case 8 => Entry(65532, 16) case 9 => Entry(65533, 16) case 10 => Entry(65534, 16) case _ => Entry(0, 0))
    case _ => Entry(0, 0)
  }

  /** The symbol declared at place i. */
  function AcLuminanceValue(i: nat): Byte
  {
    var j := i % 16;
    match i / 16
    case 0 => (match j
      case 0 => 1 case 1 => 2 case 2 => 3 case 3 => 0 case 4 => 4 case 5 => 17 case 6 => 5
      case 7 => 18 case 8 => 33 case 9 => 49 case 10 => 65 case 11 => 6 case 12 => 19 case 13 => 81
      case 14 => 97 case 15 => 7 case _ => 0)
    case 1 => (match j
      case 0 => 34 case 1 => 113 case 2 => 20 case 3 => 50 case 4 => 129 case 5 => 145 case 6 => 161
      case 7 => 8 case 8 => 35 case 9 => 66 case 10 => 177 case 11 => 193 case 12 => 21 case 13 => 82
      case 14 => 209 case 15 => 240 case _ => 0)
    case 2 => (match j
      case 0 => 36 case 1 => 51 case 2 => 98 case 3 => 114 case 4 => 130 case 5 => 9 case 6 => 10
      case 7 => 22 case 8 => 23 case 9 => 24 case 10 => 25 case 11 => 26 case 12 => 37 case 13 => 38
      case 14 => 39 case 15 => 40 case _ => 0)
    case 3 => (match j
      case 0 => 41 case 1 => 42 case 2 => 52 case 3 => 53 case 4 => 54 case 5 => 55 case 6 => 56
      case 7 => 57 case 8 => 58 case 9 => 67 case 10 => 68 case 11 => 69 case 12 => 70 case 13 => 71
      case 14 => 72 case 15 => 73 case _ => 0)
    case 4 => (match j
      case 0 => 74 case 1 => 83 case 2 => 84 case 3 => 85 case 4 => 86 case 5 => 87 case 6 => 88
      case 7 => 89 case 8 => 90 case 9 => 99 case 10 => 100 case 11 => 101 case 12 => 102 case 13 => 103
      case 14 => 104 case 15 => 105 case _ => 0)
    case 5 => (match j
      case 0 => 106 case 1 => 115 case 2 => 116 case 3 => 117 case 4 => 118 case 5 => 119 case 6 => 120
      case 7 => 121 case 8 => 122 case 9 => 131 case 10 => 132 case 11 => 133 case 12 => 134 case 13 => 135
      case 14 => 136 case 15 => 137 case _ => 0)
    case 6 => (match j
      case 0 => 138 case 1 => 146 case 2 => 147 case 3 => 148 case 4 => 149 case 5 => 150 case 6 => 151
      case 7 => 152 case 8 => 153 case 9 => 154 case 10 => 162 case 11 => 163 case 12 => 164 case 13 => 165
      case 14 => 166 case 15 => 167 case _ => 0)
    case 7 => (match j
      case 0 => 168 case 1 => 169 case 2 => 170 case 3 => 178 case 4 => 179 case 5 => 180 case 6 => 181
      case 7 => 182 case 8 => 183 case 9 => 184 case 10 => 185 case 11 => 186 case 12 => 194 case 13 => 195
      case 14 => 196 case 15 => 197 case _ => 0)
    case 8 => (match j
      case 0 => 198 case 1 => 199 case 2 => 200 case 3 => 201 case 4 => 202 case 5 => 210 case 6 => 211
      case 7 => 212 case 8 => 213 case 9 => 214 case 10 => 215 case 11 => 216 case 12 => 217 case 13 => 218
      case 14 => 225 case 15 => 226 case _ => 0)
    case 9 => (match j
      case 0 => 227 case 1 => 228 case 2 => 229 case 3 => 230 case 4 => 231 case 5 => 232 case 6 => 233
      case 7 => 234 case 8 => 241 case 9 => 242 case 10 => 243 case 11 => 244 case 12 => 245 case 13 => 246
      case 14 => 247 case 15 => 248 case _ => 0)
    case 10 => (match j
      case 0 => 249 case 1 => 250 case _ => 0)
    case _ => 0
  }

  /** How many codes of n bits there are. */
  function AcLuminanceCount(n: nat): nat
  {
    match n
    case 2 => 2 case 3 => 1 case 4 => 3 case 5 => 3 case 6 => 2 case 7 => 4 case 8 => 3 case 9 => 5 case 10 => 5
    case 11 => 4 case 12 => 4 case 15 => 1 case 16 => 125
    case _ => 0
  }

  /** The first code of n bits. */
  function AcLuminanceFirst(n: nat): nat
  {
    match n
    case 3 => 4 case 4 => 10 case 5 => 26 case 6 => 58 case 7 => 120 case 8 => 248 case 9 => 502 case 10 => 1014
    case 11 => 2038 case 12 => 4084 case 13 => 8176 case 14 => 16352 case 15 => 32704 case 16 => 65410 case 17 => 131070
    case _ => 0
  }

  /** The place of the first symbol with a code of n bits. */
  function AcLuminanceStart(n: nat): nat
  {
    match n
    case 3 => 2 case 4 => 3 case 5 => 6 case 6 => 9 case 7 => 11 case 8 => 15 case 9 => 18 case 10 => 23 case 11 => 28
    case 12 => 32 case 13 => 36 case 14 => 36 case 15 => 36 case 16 => 37 case 17 => 162
    case _ => 0
  }

  /** The writer's code for symbol v. */
  function DcChrominanceEntry(v: nat): Entry
  {
    var j := v % 16;
    match v / 16
    case 0 => (match j
      case 0 => Entry(0, 2) case 1 => Entry(1, 2) case 2 => Entry(2, 2) case 3 => Entry(6, 3)
      case 4 => Entry(14, 4) case 5 => Entry(30, 5) case 6 => Entry(62, 6) case 7 => Entry(126, 7)
      case 8 => Entry(254, 8) case 9 => Entry(510, 9) case 10 => Entry(1022, 10) case 11 => Entry(2046, 11)
      case _ => Entry(0, 0))
    case _ => Entry(0, 0)
  }

  /** The symbol declared at place i. */
  function DcChrominanceValue(i: nat): Byte
  {
    var j := i % 16;
    match i / 16
    case 0 => (match j
      case 0 => 0 case 1 => 1 case 2 => 2 case 3 => 3 case 4 => 4 case 5 => 5 case 6 => 6
      case 7 => 7 case 8 => 8 case 9 => 9 case 10 => 10 case 11 => 11 case _ => 0)
    case _ => 0
  }

  /** How many codes of n bits there are. */
  function DcChrominanceCount(n: nat): nat
  {
    match n
    case 2 => 3 case 3 => 1 case 4 => 1 case 5 => 1 case 6 => 1 case 7 => 1 case 8 => 1 case 9 => 1 case 10 => 1
    case 11 => 1
    case _ => 0
  }

  /** The first code of n bits. */
  function DcChrominanceFirst(n: nat): nat
  {
    match n
    case 3 => 6 case 4 => 14 case 5 => 30 case 6 => 62 case 7 => 126 case 8 => 254 case 9 => 510 case 10 => 1022
    case 11 => 2046 case 12 => 4094 case 13 => 8188 case 14 => 16376 case 15 => 32752 case 16 => 65504 case 17 => 131008
    case _ => 0
  }

  /** The place of the first symbol with a code of n bits. */
  function DcChrominanceStart(n: nat): nat
  {
    match n
    case 3 => 3 case 4 => 4 case 5 => 5 case 6 => 6 case 7 => 7 case 8 => 8 case 9 => 9 case 10 => 10 case 11 => 11
    case 12 => 12 case 13 => 12 case 14 => 12 case 15 => 12 case 16 => 12 case 17 => 12
    case _ => 0
  }

  /** The writer's code for symbol v. */
  function AcChrominanceEntry(v: nat): Entry
  {
    var j := v % 16;
    match v / 16
    case 0 => (match j
      case 0 => Entry(0, 2) case 1 => Entry(1, 2) case 2 => Entry(4, 3) case 3 => Entry(10, 4)
      case 4 => Entry(24, 5) case 5 => Entry(25, 5) case 6 => Entry(56, 6) case 7 => Entry(120, 7)
      case 8 => Entry(500, 9) case 9 => Entry(1014, 10) case 10 => Entry(4084, 12) case _ => Entry(0, 0))
    case 1 => (match j
      case 1 => Entry(11, 4) case 2 => Entry(57, 6) case 3 => Entry(246, 8) case 4 => Entry(501, 9)
      case 5 => Entry(2038, 11) case 6 => Entry(4085, 12) case 7 => Entry(65416, 16) case 8 => Entry(65417, 16)
      case 9 => Entry(65418, 16) case 10 => Entry(65419, 16) case _ => Entry(0, 0))
    case 2 => (match j
      case 1 => Entry(26, 5) case 2 => Entry(247, 8) case 3 => Entry(1015, 10) case 4 => Entry(4086, 12)
      case 5 => Entry(32706, 15) case 6 => Entry(65420, 16) case 7 => Entry(65421, 16) case 8 => Entry(65422, 16)
      case 9 => Entry(65423, 16) case 10 => Entry(65424, 16) case _ => Entry(0, 0))
    case 3 => (match j
      case 1 => Entry(27, 5) case 2 => Entry(248, 8) case 3 => Entry(1016, 10) case 4 => Entry(4087, 12)
      case 5 => Entry(65425, 16) case 6 => Entry(65426, 16) case 7 => Entry(65427, 16) case 8 => Entry(65428, 16)
      case 9 => Entry(65429, 16) case 10 => Entry(65430, 16) case _ => Entry(0, 0))
    case 4 => (match j
      case 1 => Entry(58, 6) case 2 => Entry(502, 9) case 3 => Entry(65431, 16) case 4 => Entry(65432, 16)
      case 5 => Entry(65433, 16) case 6 => Entry(65434, 16) case 7 => Entry(65435, 16) case 8 => Entry(65436, 16)
      case 9 => Entry(65437, 16) case 10 => Entry(65438, 16) case _ => Entry(0, 0))
    case 5 => (match j
      case 1 => Entry(59, 6) case 2 => Entry(1017, 10) case 3 => Entry(65439, 16) case 4 => Entry(65440, 16)
      case 5 => Entry(65441, 16) case 6 => Entry(65442, 16) case 7 => Entry(65443, 16) case 8 => Entry(65444, 16)
      case 9 => Entry(65445, 16) case 10 => Entry(65446, 16) case _ => Entry(0, 0))
    case 6 => (match j
      case 1 => Entry(121, 7) case 2 => Entry(2039, 11) case 3 => Entry(65447, 16) case 4 => Entry(65448, 16)
      case 5 => Entry(65449, 16) case 6 => Entry(65450, 16) case 7 => Entry(65451, 16) case 8 => Entry(65452, 16)
      case 9 => Entry(65453, 16) case 10 => Entry(65454, 16) case _ => Entry(0, 0))
    case 7 => (match j
      case 1 => Entry(122, 7) case 2 => Entry(2040, 11) case 3 => Entry(65455, 16) case 4 => Entry(65456, 16)
      case 5 => Entry(65457, 16) case 6 => Entry(65458, 16) case 7 => Entry(65459, 16) case 8 => Entry(65460, 16)
      case 9 => Entry(65461, 16) case 10 => Entry(65462, 16) case _ => Entry(0, 0))
    case 8 => (match j
      case 1 => Entry(249, 8) case 2 => Entry(65463, 16) case 3 => Entry(65464, 16) case 4 => Entry(65465, 16)
      case 5 => Entry(65466, 16) case 6 => Entry(65467, 16) case 7 => Entry(65468, 16) case 8 => Entry(65469, 16)
      case 9 => Entry(65470, 16) case 10 => Entry(65471, 16) case _ => Entry(0, 0))
    case 9 => (match j
      case 1 => Entry(503, 9) case 2 => Entry(65472, 16) case 3 => Entry(65473, 16) case 4 => Entry(65474, 16)
      case 5 => Entry(65475, 16) case 6 => Entry(65476, 16) case 7 => Entry(65477, 16) case 8 => Entry(65478, 16)
      case 9 => Entry(65479, 16) case 10 => Entry(65480, 16) case _ => Entry(0, 0))
    case 10 => (match j
      case 1 => Entry(504, 9) case 2 => Entry(65481, 16) case 3 => Entry(65482, 16) case 4 => Entry(65483, 16)
      case 5 => Entry(65484, 16) case 6 => Entry(65485, 16) case 7 => Entry(65486, 16) case 8 => Entry(65487, 16)
      case 9 => Entry(65488, 16) case 10 => Entry(65489, 16) case _ => Entry(0, 0))
    case 11 => (match j
      case 1 => Entry(505, 9) case 2 => Entry(65490, 16) case 3 => Entry(65491, 16) case 4 => Entry(65492, 16)
      case 5 => Entry(65493, 16) case 6 => Entry(65494, 16) case 7 => Entry(65495, 16) case 8 => Entry(65496, 16)
      case 9 => Entry(65497, 16) case 10 => Entry(65498, 16) case _ => Entry(0, 0))
    case 12 => (match j
      case 1 => Entry(506, 9) case 2 => Entry(65499, 16) case 3 => Entry(65500, 16) case 4 => Entry(65501, 16)
      case 5 => Entry(65502, 16) case 6 => Entry(65503, 16) case 7 => Entry(65504, 16) case 8 => Entry(65505, 16)
      case 9 => Entry(65506, 16) case 10 => Entry(65507, 16) case _ => Entry(0, 0))
    case 13 => (match j
      case 1 => Entry(2041, 11) case 2 => Entry(65508, 16) case 3 => Entry(65509, 16) case 4 => Entry(65510, 16)
      case 5 => Entry(65511, 16) case 6 => Entry(65512, 16) case 7 => Entry(65513, 16) case 8 => Entry(65514, 16)
      case 9 => Entry(65515, 16) case 10 => Entry(65516, 16) case _ => Entry(0, 0))
    case 14 => (match j
      case 1 => Entry(16352, 14) case 2 => Entry(65517, 16) case 3 => Entry(65518, 16) case 4 => Entry(65519, 16)
      case 5 => Entry(65520, 16) case 6 => Entry(65521, 16) case 7 => Entry(65522, 16) case 8 => Entry(65523, 16)
      case 9 => Entry(65524, 16) case 10 => Entry(65525, 16) case _ => Entry(0, 0))
    case 15 => (match j
      case 0 => Entry(1018, 10) case 1 => Entry(32707, 15) case 2 => Entry(65526, 16) case 3 => Entry(65527, 16)
      case 4 => Entry(65528, 16) case 5 => Entry(65529, 16) case 6 => Entry(65530, 16) case 7 => Entry(65531, 16)
      case 8 => Entry(65532, 16) case 9 => Entry(65533, 16) case 10 => Entry(65534, 16) case _ => Entry(0, 0))
    case _ => Entry(0, 0)
  }

  /** The symbol declared at place i. */
  function AcChrominanceValue(i: nat): Byte
  {
    var j := i % 16;
    match i / 16
    case 0 => (match j
      case 0 => 0 case 1 => 1 case 2 => 2 case 3 => 3 case 4 => 17 case 5 => 4 case 6 => 5
      case 7 => 33 case 8 => 49 case 9 => 6 case 10 => 18 case 11 => 65 case 12 => 81 case 13 => 7
      case 14 => 97 case 15 => 113 case _ => 0)
    case 1 => (match j
      case 0 => 19 case 1 => 34 case 2 => 50 case 3 => 129 case 4 => 8 case 5 => 20 case 6 => 66
      case 7 => 145 case 8 => 161 case 9 => 177 case 10 => 193 case 11 => 9 case 12 => 35 case 13 => 51
      case 14 => 82 case 15 => 240 case _ => 0)
    case 2 => (match j
      case 0 => 21 case 1 => 98 case 2 => 114 case 3 => 209 case 4 => 10 case 5 => 22 case 6 => 36
      case 7 => 52 case 8 => 225 case 9 => 37 case 10 => 241 case 11 => 23 case 12 => 24 case 13 => 25
      case 14 => 26 case 15 => 38 case _ => 0)
    case 3 => (match j
      case 0 => 39 case 1 => 40 case 2 => 41 case 3 => 42 case 4 => 53 case 5 => 54 case 6 => 55
      case 7 => 56 case 8 => 57 case 9 => 58 case 10 => 67 case 11 => 68 case 12 => 69 case 13 => 70
      case 14 => 71 case 15 => 72 case _ => 0)
    case 4 => (match j
      case 0 => 73 case 1 => 74 case 2 => 83 case 3 => 84 case 4 => 85 case 5 => 86 case 6 => 87
      case 7 => 88 case 8 => 89 case 9 => 90 case 10 => 99 case 11 => 100 case 12 => 101 case 13 => 102
      case 14 => 103 case 15 => 104 case _ => 0)
    case 5 => (match j
      case 0 => 105 case 1 => 106 case 2 => 115 case 3 => 116 case 4 => 117 case 5 => 118 case 6 => 119
      case 7 => 120 case 8 => 121 case 9 => 122 case 10 => 130 case 11 => 131 case 12 => 132 case 13 => 133
      case 14 => 134 case 15 => 135 case _ => 0)
    case 6 => (match j
      case 0 => 136 case 1 => 137 case 2 => 138 case 3 => 146 case 4 => 147 case 5 => 148 case 6 => 149
      case 7 => 150 case 8 => 151 case 9 => 152 case 10 => 153 case 11 => 154 case 12 => 162 case 13 => 163
      case 14 => 164 case 15 => 165 case _ => 0)
    case 7 => (match j
      case 0 => 166 case 1 => 167 case 2 => 168 case 3 => 169 case 4 => 170 case 5 => 178 case 6 => 179
      case 7 => 180 case 8 => 181 case 9 => 182 case 10 => 183 case 11 => 184 case 12 => 185 case 13 => 186
      case 14 => 194 case 15 => 195 case _ => 0)
    case 8 => (match j
      case 0 => 196 case 1 => 197 case 2 => 198 case 3 => 199 case 4 => 200 case 5 => 201 case 6 => 202
      case 7 => 210 case 8 => 211 case 9 => 212 case 10 => 213 case 11 => 214 case 12 => 215 case 13 => 216
      case 14 => 217 case 15 => 218 case _ => 0)
    case 9 => (match j
      case 0 => 226 case 1 => 227 case 2 => 228 case 3 => 229 case 4 => 230 case 5 => 231 case 6 => 232
      case 7 => 233 case 8 => 234 case 9 => 242 case 10 => 243 case 11 => 244 case 12 => 245 case 13 => 246
      case 14 => 247 case 15 => 248 case _ => 0)
    case 10 => (match j
      case 0 => 249 case 1 => 250 case _ => 0)
    case _ => 0
  }

  /** How many codes of n bits there are. */
  function AcChrominanceCount(n: nat): nat
  {
    match n
    case 2 => 2 case 3 => 1 case 4 => 2 case 5 => 4 case 6 => 4 case 7 => 3 case 8 => 4 case 9 => 7 case 10 => 5
    case 11 => 4 case 12 => 4 case 14 => 1 case 15 => 2 case 16 => 119
    case _ => 0
  }

  /** The first code of n bits. */
  function AcChrominanceFirst(n: nat): nat
  {
    match n
    case 3 => 4 case 4 => 10 case 5 => 24 case 6 => 56 case 7 => 120 case 8 => 246 case 9 => 500 case 10 => 1014
    case 11 => 2038 case 12 => 4084 case 13 => 8176 case 14 => 16352 case 15 => 32706 case 16 => 65416 case 17 => 131070
    case _ => 0
  }

  /** The place of the first symbol with a code of n bits. */
  function AcChrominanceStart(n: nat): nat
  {
    match n
    case 3 => 2 case 4 => 3 case 5 => 5 case 6 => 9 case 7 => 13 case 8 => 16 case 9 => 20 case 10 => 27 case 11 => 32
    case 12 => 36 case 13 => 40 case 14 => 40 case 15 => 41 case 16 => 43 case 17 => 162
    case _ => 0
  }

  /** The writer's tables. */
  datatype Which = DcLuminance | AcLuminance | DcChrominance | AcChrominance

  function EntryOf(t: Which, v: nat): Entry
  {
    match t
    case DcLuminance => DcLuminanceEntry(v)
    case AcLuminance => AcLuminanceEntry(v)
    case DcChrominance => DcChrominanceEntry(v)
    case AcChrominance => AcChrominanceEntry(v)
  }

  function ValueOf(t: Which, i: nat): Byte
  {
    match t
    case DcLuminance => DcLuminanceValue(i)
    case AcLuminance => AcLuminanceValue(i)
    case DcChrominance => DcChrominanceValue(i)
    case AcChrominance => AcChrominanceValue(i)
  }

  function CountOf(t: Which, n: nat): nat
  {
    match t
    case DcLuminance => DcLuminanceCount(n)
    case AcLuminance => AcLuminanceCount(n)
    case DcChrominance => DcChrominanceCount(n)
    case AcChrominance => AcChrominanceCount(n)
  }

  function FirstOf(t: Which, n: nat): nat
  {
    match t
    case DcLuminance => DcLuminanceFirst(n)
    case AcLuminance => AcLuminanceFirst(n)
    case DcChrominance => DcChrominanceFirst(n)
    case AcChrominance => AcChrominanceFirst(n)
  }

  function StartOf(t: Which, n: nat): nat
  {
    match t
    case DcLuminance => DcLuminanceStart(n)
    case AcLuminance => AcLuminanceStart(n)
    case DcChrominance => DcChrominanceStart(n)
    case AcChrominance => AcChrominanceStart(n)
  }

  /** The declaration in the file. */
  function DeclarationOf(t: Which): (d: Declaration)
  {
    Declaration(
      seq(16, i requires 0 <= i < 16 => CountOf(t, i + 1)),
      seq(18, i requires 0 <= i < 18 => FirstOf(t, i)),
      seq(18, i requires 0 <= i < 18 => StartOf(t, i)),
      seq(256, i requires 0 <= i < 256 => ValueOf(t, i)))
  }

  /** The code table. */
  function CodesOf(t: Which): (ht: seq<Entry>)
    ensures |ht| == 256
  {
    seq(256, v requires 0 <= v < 256 => EntryOf(t, v))
  }

  // ---------------------------------------------------------------------------
  // They are canonical and complete

  /** Symbols that baseline blocks use: sizes up to 11 bits, or end of block, sixteen zeros, and runs before
      values of 1 to 10 bits. */
  predicate Needed(t: Which, v: nat)
  {
    if t.DcLuminance? || t.DcChrominance? then v < 12 else v == 0 || v == 0xf0 || 1 <= v % 16 <= 10
  }

  lemma Steps(t: Which, s: nat)
    requires 1 <= s <= 16
    ensures FirstOf(t, s + 1) == 2 * (FirstOf(t, s) + CountOf(t, s))
    ensures StartOf(t, s + 1) == StartOf(t, s) + CountOf(t, s)
  {
  }

  lemma Ends(t: Which)
    ensures FirstOf(t, 1) == 0 && StartOf(t, 1) == 0 && FirstOf(t, 17) <= 0x2_0000 && StartOf(t, 17) < 256
  {
  }

  lemma WhichCounted(t: Which)
    ensures Counted(DeclarationOf(t))
  {
    hide ValueOf, CountOf, FirstOf, StartOf;
    Ends(t);
    var d := DeclarationOf(t);
    forall s | 1 <= s <= 16 ensures CountedAt(d, s) {
      Steps(t, s);
    }
  }

  /** Entry v, looked up where its code says that it was declared. */
  predicate EntryFound(t: Which, v: nat)
  {
    var e := EntryOf(t, v);
    e == Entry(0, 0) ||
    (1 <= e.length <= 16 && FirstOf(t, e.length) <= e.code < FirstOf(t, e.length) + CountOf(t, e.length) &&
     StartOf(t, e.length) + (e.code - FirstOf(t, e.length)) < 256 &&
     ValueOf(t, StartOf(t, e.length) + (e.code - FirstOf(t, e.length))) == v)
  }

  predicate EntryGood(t: Which, v: nat)
  {
    EntryFound(t, v) && (Needed(t, v) ==> EntryOf(t, v).length > 0)
  }

  lemma DcLuminance0(v: nat)
    requires 0 <= v < 256
    ensures EntryGood(DcLuminance, v)
  {
  }

  lemma AcLuminance0(v: nat)
    requires 0 <= v < 16
    ensures EntryGood(AcLuminance, v)
  {
  }

  lemma AcLuminance1(v: nat)
    requires 16 <= v < 32
    ensures EntryGood(AcLuminance, v)
  {
  }

  lemma AcLuminance2(v: nat)
    requires 32 <= v < 64
    ensures EntryGood(AcLuminance, v)
  {
  }

  lemma AcLuminance3(v: nat)
    requires 64 <= v < 96
    ensures EntryGood(AcLuminance, v)
  {
  }

  lemma AcLuminance4(v: nat)
    requires 96 <= v < 128
    ensures EntryGood(AcLuminance, v)
  {
  }

  lemma AcLuminance5(v: nat)
    requires 128 <= v < 160
    ensures EntryGood(AcLuminance, v)
  {
  }

  lemma AcLuminance6(v: nat)
    requires 160 <= v < 192
    ensures EntryGood(AcLuminance, v)
  {
  }

  lemma AcLuminance7(v: nat)
    requires 192 <= v < 224
    ensures EntryGood(AcLuminance, v)
  {
  }

  lemma AcLuminance8(v: nat)
    requires 224 <= v < 256
    ensures EntryGood(AcLuminance, v)
  {
  }

  lemma DcChrominance0(v: nat)
    requires 0 <= v < 256
    ensures EntryGood(DcChrominance, v)
  {
  }

  lemma AcChrominance0(v: nat)
    requires 0 <= v < 16
    ensures EntryGood(AcChrominance, v)
  {
  }

  lemma AcChrominance1(v: nat)
    requires 16 <= v < 32
    ensures EntryGood(AcChrominance, v)
  {
  }

  lemma AcChrominance2(v: nat)
    requires 32 <= v < 64
    ensures EntryGood(AcChrominance, v)
  {
  }

  lemma AcChrominance3(v: nat)
    requires 64 <= v < 96
    ensures EntryGood(AcChrominance, v)
  {
  }

  lemma AcChrominance4(v: nat)
    requires 96 <= v < 128
    ensures EntryGood(AcChrominance, v)
  {
  }

  lemma AcChrominance5(v: nat)
    requires 128 <= v < 160
    ensures EntryGood(AcChrominance, v)
  {
  }

  lemma AcChrominance6(v: nat)
    requires 160 <= v < 192
    ensures EntryGood(AcChrominance, v)
  {
  }

  lemma AcChrominance7(v: nat)
    requires 192 <= v < 224
    ensures EntryGood(AcChrominance, v)
  {
  }

  lemma AcChrominance8(v: nat)
    requires 224 <= v < 256
    ensures EntryGood(AcChrominance, v)
  {
  }

  lemma EntriesGood(t: Which, v: nat)
    requires v < 256
    ensures EntryGood(t, v)
  {
    hide EntryGood;
    match t
    case DcLuminance =>
      DcLuminance0(v);
    case AcLuminance =>
      if v < 16 { AcLuminance0(v); }
      else if v < 32 { AcLuminance1(v); }
      else if v < 64 { AcLuminance2(v); }
      else if v < 96 { AcLuminance3(v); }
      else if v < 128 { AcLuminance4(v); }
      else if v < 160 { AcLuminance5(v); }
      else if v < 192 { AcLuminance6(v); }
      else if v < 224 { AcLuminance7(v); }
      else { AcLuminance8(v); }
    case DcChrominance =>
      DcChrominance0(v);
    case AcChrominance =>
      if v < 16 { AcChrominance0(v); }
      else if v < 32 { AcChrominance1(v); }
      else if v < 64 { AcChrominance2(v); }
      else if v < 96 { AcChrominance3(v); }
      else if v < 128 { AcChrominance4(v); }
      else if v < 160 { AcChrominance5(v); }
      else if v < 192 { AcChrominance6(v); }
      else if v < 224 { AcChrominance7(v); }
      else { AcChrominance8(v); }
  }

  /** The code table holds the canonical codes of its declaration, for all symbols that are needed. */
  lemma WhichCanonical(t: Which)
    ensures GoodTable(CodesOf(t)) && Counted(DeclarationOf(t)) && Declared(TableOf(DeclarationOf(t)))
    ensures Agrees(BookOf(CodesOf(t)), TableOf(DeclarationOf(t)))
    ensures if t.DcLuminance? || t.DcChrominance? then DcComplete(BookOf(CodesOf(t)))
      else AcComplete(BookOf(CodesOf(t)))
  {
    hide EntryOf, ValueOf, CountOf, FirstOf, StartOf, Counted, Declared, Agrees, EntryBits, GoodEntry;
    WhichCounted(t);
    var d, ht := DeclarationOf(t), CodesOf(t);
    forall v | 0 <= v < 256
      ensures EntryOk(d, ht[v], v) && (Needed(t, v) ==> BookOf(ht)[v] != [])
    {
      EntriesGood(t, v);
      EmptyWord(ht[v]);
    }
    TableCanonical(d, ht);
  }

  // ---------------------------------------------------------------------------
  // The round trip with the writer's own tables

  /** Component 0 is luminance; the others are chrominance. */
  function WriterTables(): (hts: seq<Tables>)
    ensures |hts| == 4
  {
    var y := Tables(CodesOf(DcLuminance), CodesOf(AcLuminance));
    var uv := Tables(CodesOf(DcChrominance), CodesOf(AcChrominance));
    [y, uv, uv, uv]
  }

  function WriterCodings(yScale: seq<int>, uvScale: seq<int>): (codings: seq<Coding>)
    ensures |codings| == 4
  {
    var y := Coding(TableOf(DeclarationOf(DcLuminance)), TableOf(DeclarationOf(AcLuminance)), yScale);
    var uv := Coding(TableOf(DeclarationOf(DcChrominance)), TableOf(DeclarationOf(AcChrominance)), uvScale);
    [y, uv, uv, uv]
  }

  lemma WriterTablesGood(yScale: seq<int>, uvScale: seq<int>)
    requires |yScale| == 64 && |uvScale| == 64
    ensures GoodTables(WriterTables()) && GoodCodings(WriterCodings(yScale, uvScale))
    ensures BooksForAll(BooksOf(WriterTables()), WriterCodings(yScale, uvScale))
    ensures Counted(DeclarationOf(DcLuminance)) && Counted(DeclarationOf(AcLuminance))
    ensures Counted(DeclarationOf(DcChrominance)) && Counted(DeclarationOf(AcChrominance))
  {
    hide GoodTable, Declared, Agrees, AcComplete, DcComplete, BookOf, Counted, TableOf, DeclarationOf, CodesOf;
    WhichCanonical(DcLuminance);
    WhichCanonical(AcLuminance);
    WhichCanonical(DcChrominance);
    WhichCanonical(AcChrominance);
  }

  /** The reader's tables for a declared table, from its DHT segment. */
  method ReadTable(d: Declaration) returns (h: Huffman)
    requires Counted(d)
    ensures Built(h, TableOf(d))
  {
    hide Kraft, Sorted, Flagged, SizeList, TablesFor;
    CountedDeclared(d);
    var ok;
    ok, h := BuildHuffman(d.count, d.values);
  }

  method ReadComponent(dc: Declaration, ac: Declaration, scale: seq<int>) returns (c: JpegReader.Component)
    requires Counted(dc) && Counted(ac)
    ensures Built(c.dc, TableOf(dc)) && Built(c.ac, TableOf(ac)) && c.dequant == scale
    ensures JpegReader.FastAcFor(c.fac, c.ac, TableOf(ac))
  {
    hide Counted, TablesFor, Declared, FastAcEntry, Flagged;
    var hdc := ReadTable(dc);
    var hac := ReadTable(ac);
    JpegReader.BuiltDeclared(hac, TableOf(ac));
    Shape(hac, TableOf(ac));
    var fac := BuildFastAc(hac, TableOf(ac).lens);
    c := JpegReader.Component(hdc, hac, fac, scale);
  }

  /** With the writer's own tables: for every sequence of quantised blocks in baseline range the reader
      returns every coefficient times its scale, if and only if it accepts the DC coefficients. */
  method StandardRoundTrip(
      before: seq<Byte>, blocks: seq<Block>, mcus: seq<seq<nat>>, yScale: seq<int>, uvScale: seq<int>)
    returns (ok: bool, decoded: seq<seq<int>>)
    requires |yScale| == 64 && |uvScale| == 64
    requires Blocks(blocks) && ScanRange(UnitsOf(blocks))
    requires InOrders(mcus) && |mcus| <= 0x7fff_ffff && Flat(mcus) == Order(UnitsOf(blocks))
    ensures GoodCodings(WriterCodings(yScale, uvScale))
    ensures ok <==> ScanAccepted(WriterCodings(yScale, uvScale), UnitsOf(blocks))
    ensures ok ==> |decoded| == |blocks| && forall k :: 0 <= k < |blocks| ==>
      decoded[k] == JpegRoundTrip.Scaled(blocks[k].q, if blocks[k].comp == 0 then yScale else uvScale)
  {
    hide GoodTables, GoodCodings, BooksForAll, BooksOf, Counted, TableOf, DeclarationOf, CodesOf, ScanRange, UnitsOf,
      Built, JpegReader.FastAcFor, ScanAccepted, JpegRoundTrip.Scaled, Flat, Order, InOrders;
    WriterTablesGood(yScale, uvScale);
    var y := ReadComponent(DeclarationOf(DcLuminance), DeclarationOf(AcLuminance), yScale);
    var uv := ReadComponent(DeclarationOf(DcChrominance), DeclarationOf(AcChrominance), uvScale);
    ok, decoded := JpegRoundTrip.RoundTrip(
      before, blocks, WriterTables(), [y, uv, uv, uv], mcus, WriterCodings(yScale, uvScale));
  }

  // ---------------------------------------------------------------------------
  // A whole image

  /** The sampling factors that the writer declares. */
  function Sampling(subsample: bool): (f: seq<nat>)
    ensures |f| == 4
  {
    [if subsample then 2 else 1, 1, 1, 1]
  }

  /** The component of the writer's block k: with subsampling four blocks of Y, one of U and one of V for each
      16 by 16 pixels, otherwise one of each for 8 by 8 pixels. */
  function ComponentOf(subsample: bool, k: nat): (c: nat)
    ensures c < 4
  {
    if !subsample then k % 3 else if k % 6 < 4 then 0 else k % 6 - 3
  }

  function PerMcu(subsample: bool): nat
  {
    if subsample then 6 else 3
  }

  lemma OneMcu(subsample: bool)
    ensures
      var mcu := McuOf([0, 1, 2], Sampling(subsample), Sampling(subsample));
      && |mcu| == PerMcu(subsample)
      && forall j :: 0 <= j < |mcu| ==> mcu[j] == ComponentOf(subsample, j)
  {
    var f := Sampling(subsample);
    var scan: seq<nat> := [0, 1, 2];
    assert scan[..2] == [0, 1] && scan[..2][..1] == [0] && [0][..0] == [];
    assert Interleaved([0], f, f) == Repeated(0, f[0] * f[0]);
    assert Interleaved([0, 1], f, f) == Repeated(0, f[0] * f[0]) + [1];
    assert Interleaved(scan, f, f) == Repeated(0, f[0] * f[0]) + [1] + [2];
  }

  lemma OneMore(a: nat, n: nat)
    requires n > 0
    ensures a * (n - 1) + a == a * n
  {
  }

  lemma {:induction false} RestOfSix(j: nat, n: nat)
    ensures (6 * n + j) % 6 == j % 6
  {
    if n > 0 {
      RestOfSix(j, n - 1);
      assert 6 * n + j == 6 + (6 * (n - 1) + j);
    }
  }

  lemma {:induction false} RestOfThree(j: nat, n: nat)
    ensures (3 * n + j) % 3 == j % 3
  {
    if n > 0 {
      RestOfThree(j, n - 1);
      assert 3 * n + j == 3 + (3 * (n - 1) + j);
    }
  }

  lemma Periodic(subsample: bool, n: nat, j: nat)
    ensures ComponentOf(subsample, PerMcu(subsample) * n + j) == ComponentOf(subsample, j)
  {
    RestOfSix(j, n);
    RestOfThree(j, n);
  }

  /** The reader's MCUs list the components in the writer's order. */
  lemma {:induction false} McusInOrder(subsample: bool, n: nat)
    ensures
      var order := Flat(seq(n, _ => McuOf([0, 1, 2], Sampling(subsample), Sampling(subsample))));
      && |order| == PerMcu(subsample) * n
      && forall k :: 0 <= k < |order| ==> order[k] == ComponentOf(subsample, k)
  {
    hide ComponentOf, McuOf, Sampling, PerMcu;
    if n > 0 {
      var mcu := McuOf([0, 1, 2], Sampling(subsample), Sampling(subsample));
      var mcus := seq(n, _ => mcu);
      McusInOrder(subsample, n - 1);
      OneMcu(subsample);
      assert mcus[..n - 1] == seq(n - 1, _ => mcu);
      forall j | 0 <= j < |mcu|
        ensures mcu[j] == ComponentOf(subsample, PerMcu(subsample) * (n - 1) + j)
      {
        Periodic(subsample, n - 1, j);
      }
      OneMore(PerMcu(subsample), n);
    }
  }

  /** The frame that the writer declares. */
  function FrameOf(width: nat, height: nat, subsample: bool): (f: Frame)
    requires 0 < width < 0x1_0000 && 0 < height < 0x1_0000
    ensures ValidFrame(f)
  {
    Frame(width, height, 3, Sampling(subsample), Sampling(subsample))
  }

  /** How many MCUs the writer's loops visit. */
  function Visits(width: nat, height: nat, subsample: bool): nat
  {
    var step := if subsample then 16 else 8;
    Rounds(0, height, step) * Rounds(0, width, step)
  }

  /** The reader expects as many MCUs as the writer's loops visit. */
  lemma SameGrid(width: nat, height: nat, subsample: bool)
    requires 0 < width < 0x1_0000 && 0 < height < 0x1_0000
    ensures
      var f := FrameOf(width, height, subsample);
      Down(f, [0, 1, 2]) * Across(f, [0, 1, 2]) == Visits(width, height, subsample)
  {
    hide Ceil, Rounds;
    var f := Sampling(subsample);
    LargestSampling(subsample);
    RoundsCeil(0, width, 8 * f[0]);
    RoundsCeil(0, height, 8 * f[0]);
  }

  lemma LargestSampling(subsample: bool)
    ensures Largest(Sampling(subsample), 3) == Sampling(subsample)[0]
  {
    var f := Sampling(subsample);
    assert Largest(f, 1) == f[0] && Largest(f, 2) == f[0];
  }

  /** A whole image in the writer's order, with or without subsampling, read with the number and order of
      blocks that the reader derives from the frame header. */
  method ImageRoundTrip(
      before: seq<Byte>, blocks: seq<Block>, width: nat, height: nat, subsample: bool, yScale: seq<int>,
      uvScale: seq<int>)
    returns (ok: bool, decoded: seq<seq<int>>)
    requires |yScale| == 64 && |uvScale| == 64 && 0 < width < 0x1_0000 && 0 < height < 0x1_0000
    requires Blocks(blocks) && ScanRange(UnitsOf(blocks))
    requires |blocks| == PerMcu(subsample) * Visits(width, height, subsample)
    requires forall k :: 0 <= k < |blocks| ==> blocks[k].comp == ComponentOf(subsample, k)
    ensures GoodCodings(WriterCodings(yScale, uvScale))
    ensures ok <==> ScanAccepted(WriterCodings(yScale, uvScale), UnitsOf(blocks))
    ensures ok ==> |decoded| == |blocks| && forall k :: 0 <= k < |blocks| ==>
      decoded[k] == JpegRoundTrip.Scaled(blocks[k].q, if blocks[k].comp == 0 then yScale else uvScale)
  {
    hide ScanRange, ScanAccepted, GoodCodings, JpegRoundTrip.Scaled, ComponentOf, PerMcu, Flat, McuOf, Across, Down,
      Visits;
    var f, scan := FrameOf(width, height, subsample), [0, 1, 2];
    var mcus := JpegReader.FindMcus(f, scan);
    SameGrid(width, height, subsample);
    GridBound(f, scan);
    McusInOrder(subsample, Down(f, scan) * Across(f, scan));
    assert Flat(mcus) == Order(UnitsOf(blocks));
    ok, decoded := StandardRoundTrip(before, blocks, mcus, yScale, uvScale);
  }
}
