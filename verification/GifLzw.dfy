/** The LZW decoder of GIF rasters: stbi__process_gif_raster and stbi__out_gif_code keep a table of
    linked entries and draw as they decode; the textbook decoder (GIF89a, Appendix F) keeps whole strings. */
module GifLzw {
  import opened BitStrings
  import opened GifRaster
  import opened Wrappers

  const MAX_CODES := 8192

  // ---------------------------------------------------------------------------
  // The textbook decoder

  type Strings = seq<seq<Byte>>

  /** Every code below clear stands for itself; the clear and end codes stand for nothing. */
  function InitialStrings(cs: nat): (s: Strings)
    ensures |s| == Pow2(cs) + 2
  {
    seq(Pow2(cs) + 2, i requires 0 <= i < Pow2(cs) + 2 => if i < Pow2(cs) then [i % 256] else [])
  }

  /** strings: the table; last: the string of the previous code; size: bits per code; first: no clear
      code seen yet; out: everything decoded. */
  datatype State = State(strings: Strings, last: seq<Byte>, size: nat, first: bool, out: seq<Byte>)

  datatype Outcome = Running(state: State) | Finished(out: seq<Byte>) | Corrupt

  function Start(cs: nat): State
  {
    State(InitialStrings(cs), [], cs + 1, true, [])
  }

  /** One code. The string of a code equal to the next free entry is the previous string followed by
      its own first byte. */
  function Step(cs: nat, s: State, code: nat): Outcome
  {
    var clear := Pow2(cs);
    if code == clear then Running(State(InitialStrings(cs), [], cs + 1, false, s.out))
    else if code == clear + 1 then Finished(s.out)
    else if code > |s.strings| || s.first then Corrupt
    else if s.last == [] then
      if code == |s.strings| || s.strings[code] == [] then Corrupt
      else Running(s.(last := s.strings[code], size := NextSize(s.size, |s.strings|), out := s.out + s.strings[code]))
    else if |s.strings| + 1 > MAX_CODES then Corrupt
    else
      var str := if code == |s.strings| then s.last + [s.last[0]] else s.strings[code];
      if str == [] then Corrupt
      else
        var strings := s.strings + [s.last + [str[0]]];
        Running(State(strings, str, NextSize(s.size, |strings|), s.first, s.out + str))
  }

  /** The code size grows when the table has filled the codes of the current size, up to 12 bits. */
  function NextSize(size: nat, avail: nat): nat
  {
    if Low(avail, size) == 0 && avail <= 0xfff then size + 1 else size
  }

  /** Decoding the bits from bit p on: codes of the current size until the data runs out. */
  function Decode(cs: nat, payload: seq<Byte>, p: nat, s: State): Outcome
    requires s.size > 0
    decreases 8 * |payload| - p
  {
    if p + s.size > 8 * |payload| then Finished(s.out)
    else
      var step := Step(cs, s, Val(Stream(payload, p, s.size)));
      if !step.Running? then step
      else Decode(cs, payload, p + s.size, step.state)
  }

  // ---------------------------------------------------------------------------
  // Linked entries

  datatype Entry = Entry(prefix: int, first: Byte, suffix: Byte)

  /** From entry i on every prefix link points to a smaller index, so following links ends. */
  predicate Linked(codes: seq<Entry>, i: nat)
    requires i < |codes|
    decreases i
  {
    codes[i].prefix < i && (codes[i].prefix >= 0 ==> Linked(codes, codes[i].prefix))
  }

  /** The string an entry stands for. */
  function Spell(codes: seq<Entry>, i: nat): (s: seq<Byte>)
    requires i < |codes| && Linked(codes, i)
    ensures s != []
    decreases i
  {
    if codes[i].prefix < 0 then [codes[i].suffix] else Spell(codes, codes[i].prefix) + [codes[i].suffix]
  }

  /** The table spells the textbook's strings; what its other entries hold does not matter. */
  predicate Spells(codes: seq<Entry>, strings: Strings)
  {
    && |strings| <= |codes|
    && forall i :: 0 <= i < |strings| && strings[i] != [] ==>
         Linked(codes, i) && Spell(codes, i) == strings[i] && codes[i].first == strings[i][0]
  }

  /** Later entries do not change what earlier ones spell. */
  lemma {:induction false} SpellLocal(codes: seq<Entry>, codes': seq<Entry>, i: nat)
    requires i < |codes| == |codes'| && Linked(codes, i)
    requires forall k :: 0 <= k <= i ==> codes[k] == codes'[k]
    ensures Linked(codes', i) && Spell(codes, i) == Spell(codes', i)
    decreases i
  {
    if codes[i].prefix >= 0 { SpellLocal(codes, codes', codes[i].prefix); }
  }

  /** Adding the entry for the previous string extended by a byte. */
  lemma SpellsNew(codes: seq<Entry>, strings: Strings, prev: nat, x: Byte)
    requires Spells(codes, strings) && prev < |strings| < |codes| && strings[prev] != []
    ensures Spells(codes[|strings| := Entry(prev, codes[prev].first, x)], strings + [strings[prev] + [x]])
  {
    var n := |strings|;
    var codes' := codes[n := Entry(prev, codes[prev].first, x)];
    forall i | 0 <= i < n && strings[i] != [] ensures Linked(codes', i) && Spell(codes', i) == Spell(codes, i) {
      SpellLocal(codes, codes', i);
    }
  }

  /** A string of the table is never spelled by the clear or end code. */
  predicate Usable(cs: nat, strings: Strings)
  {
    && |strings| >= Pow2(cs) + 2
    && (forall i :: 0 <= i < |strings| ==> (strings[i] == [] <==> i == Pow2(cs) || i == Pow2(cs) + 1))
  }

  // ---------------------------------------------------------------------------
  // Sub-blocks

  /** The data bytes from pos on, with left bytes to go in the current sub-block; a zero length ends
      the data. Reading past the end of the input gives zeros. */
  function Payload(input: seq<Byte>, pos: nat, left: nat): seq<Byte>
    decreases if pos < |input| then |input| - pos else 0, left
  {
    if left > 0 then [ByteAt(input, pos)] + Payload(input, pos + 1, left - 1)
    else
      var n := ByteAt(input, pos);
      if n == 0 then [] else Payload(input, pos + 1, n)
  }

  /** The first clear entries as the writer of the table fills them. */
  predicate Roots(cs: nat, codes: seq<Entry>)
  {
    |codes| == MAX_CODES && forall i :: 0 <= i < Pow2(cs) && i < MAX_CODES ==> codes[i] == Entry(-1, i % 256, i % 256)
  }

  lemma RootsSpell(cs: nat, codes: seq<Entry>)
    requires Roots(cs, codes) && Pow2(cs) + 2 <= MAX_CODES
    ensures Spells(codes, InitialStrings(cs)) && Usable(cs, InitialStrings(cs))
  {
  }

  lemma SizeBound(cs: nat)
    requires cs <= 12
    ensures Pow2(cs) + 2 <= MAX_CODES
  {
    Pow2Mono(cs, 12);
    assert Pow2(12) == 4096;
  }

  /** What is left of the places after n colours. */
  function Rest(places: seq<Place>, n: nat): seq<Place>
  {
    if n <= |places| then places[n..] else []
  }

  lemma PlacesNext(left: nat, top: nat, width: nat, x: nat, rows: seq<nat>)
    requires x < width && rows != []
    ensures PlacesFrom(left, top, width, x, rows)
         == [(left + x, top + rows[0])] + PlacesFrom(left, top, width, x + 1, rows)
    ensures x + 1 == width ==> PlacesFrom(left, top, width, x + 1, rows) == PlacesFrom(left, top, width, 0, rows[1..])
  {
    var here, row := [(left + x, top + rows[0])], RowPlaces(left, top, width, x + 1, rows[0]);
    RowNext(left, top, width, x, rows[0]);
    hide RowPlaces;
    ConcatAssoc(here, row, PlacesFrom(left, top, width, 0, rows[1..]));
    if x + 1 == width { assert row == []; }
  }

  lemma RowNext(left: nat, top: nat, width: nat, x: nat, r: nat)
    requires x < width
    ensures RowPlaces(left, top, width, x, r) == [(left + x, top + r)] + RowPlaces(left, top, width, x + 1, r)
  {
  }

  lemma PaintNext(canvas: Canvas, visible: seq<bool>, places: seq<Place>, s: seq<Byte>, b: Byte)
    requires |visible| == 256
    ensures
      var before := Paint(canvas, visible, places, s);
      Paint(canvas, visible, places, s + [b])
        == if |s| < |places| && visible[b] then before[places[|s|] := b] else before
  {
    assert (s + [b])[..|s|] == s;
  }

  class Gif {
    const codes: array<Entry>
    var left: nat
    var top: nat
    var width: nat
    var height: nat
    var x: nat                    // cur_x
    var row: nat                  // cur_y
    var step: nat
    var parse: nat
    var visible: seq<bool>        // colours of the colour table that are rendered
    var canvas: Canvas
    ghost var emitted: seq<Byte>  // colours of this frame in the order in which they were decoded
    ghost var order: seq<Place>   // the places of this frame in drawing order
    ghost var before: Canvas      // the canvas before this frame

    /** The structure starts zeroed. */
    constructor ()
      ensures fresh(codes) && codes.Length == MAX_CODES && canvas == map[]
    {
      codes := new Entry[MAX_CODES](_ => Entry(0, 0, 0));
      left, top, width, height := 0, 0, 0, 0;
      x, row, step, parse := 0, 0, 0, 0;
      visible, canvas := [], map[];
      emitted, order, before := [], [], map[];
    }

    /** The places that the cursor has still to visit. */
    ghost function Places(): seq<Place>
      requires step > 0 && parse <= 3 && x <= width
      reads this
    {
      if row >= height then [] else PlacesFrom(left, top, width, x, RowsFrom(height, row, step, parse))
    }

    /** The canvas shows what was decoded so far, and the cursor stands at the next place. */
    ghost predicate Drawing()
      reads this
    {
      && |visible| == 256 && step > 0 && parse <= 3 && x <= width && (row < height ==> x < width)
      && Places() == Rest(order, |emitted|)
      && canvas == Paint(before, visible, order, emitted)
    }

    /** The part of stbi__gif_load_next that sets the cursor for an image descriptor. */
    method BeginFrame(left: nat, top: nat, width: nat, height: nat, interlaced: bool, visible: seq<bool>)
      requires |visible| == 256
      modifies this
      ensures Drawing() && canvas == old(canvas) && before == old(canvas) && emitted == []
      ensures order == FrameOrder(left, top, width, height, interlaced) && this.visible == visible
    {
      hide PlacesFrom, RowsFrom, Paint, FrameOrder, Rest;
      FrameBegins(left, top, width, height, interlaced, visible, canvas);
      this.left, this.top, this.width, this.height := left, top, width, height;
      this.visible := visible;
      x, row := 0, if width == 0 then height else 0;
      step, parse := if interlaced then 8 else 1, if interlaced then 3 else 0;
      emitted, before := [], canvas;
      order := FrameOrder(left, top, width, height, interlaced);
    }

    /** The colour b goes to the cursor's place, unless the frame is full. */
    method Draw(b: Byte)
      requires Drawing()
      modifies `x, `row, `step, `parse, `canvas, `emitted
      ensures Drawing() && emitted == old(emitted) + [b]
    {
      hide PlacesFrom, Paint, RowsFrom;
      ghost var n := |emitted|;
      PaintNext(before, visible, order, emitted, b);
      emitted := emitted + [b];
      if row >= height { return; }
      CursorRow(height, row, step, parse);
      PlacesNext(left, top, width, x, RowsFrom(height, row, step, parse));
      assert order[n] == Rest(order, n)[0] == (left + x, top + row);
      assert Rest(order, n + 1) == Rest(order, n)[1..];
      if visible[b] { canvas := canvas[(left + x, top + row) := b]; }
      x := x + 1;
      if x >= width {
        x := 0;
        NextRow();
        NoMoreRows(left, top, width);
      }
    }

    /** The next row, in the next pass if this one has run past the image. */
    method NextRow()
      requires row < height && step > 0 && parse <= 3
      modifies `row, `step, `parse
      ensures step > 0 && parse <= 3
      ensures RowsFrom(height, old(row), old(step), old(parse))
           == [old(row)] + if row < height then RowsFrom(height, row, step, parse) else []
    {
      row := row + step;
      while row >= height && parse > 0
        invariant step > 0 && parse <= 3
        invariant RowsFrom(height, old(row), old(step), old(parse)) == [old(row)] + RowsFrom(height, row, step, parse)
        decreases parse
      {
        step := PassStep(parse);
        row := step / 2;
        parse := parse - 1;
      }
    }

    /** stbi__out_gif_code: the links run backwards, so prefixes go first. */
    method OutCode(code: nat)
      requires code < codes.Length && Linked(codes[..], code) && Drawing()
      modifies `x, `row, `step, `parse, `canvas, `emitted
      ensures Drawing() && emitted == old(emitted) + Spell(codes[..], code)
      decreases code
    {
      hide Drawing;
      if codes[code].prefix >= 0 {
        OutCode(codes[code].prefix);
      }
      Draw(codes[code].suffix);
    }

    /** The loop that fills in the single-byte entries. */
    method FillRoots(cs: nat)
      requires cs <= 12 && codes.Length == MAX_CODES
      modifies codes
      ensures Roots(cs, codes[..])
    {
      SizeBound(cs);
      for i := 0 to Pow2(cs)
        invariant forall k :: 0 <= k < i ==> codes[k] == Entry(-1, k % 256, k % 256)
      {
        codes[i] := Entry(-1, i % 256, i % 256);
      }
    }

    /** The variables of the decoding loop stand for the textbook's state. */
    ghost predicate Refines(cs: nat, v: Vars, s: State)
      reads this, codes
    {
      && cs <= 12 && Roots(cs, codes[..]) && Spells(codes[..], s.strings) && Usable(cs, s.strings)
      && v.avail == |s.strings| && v.codesize == s.size > 0 && v.first == s.first
      && Previous(v.oldcode, s)
    }

    /** The new entry: the previous string and one more byte. When the code is the new entry itself,
        its first byte has just been stored. */
    method AddEntry(cs: nat, v: Vars, code: nat, ghost s: State)
      requires Refines(cs, v, s) && v.oldcode >= 0 && v.avail < MAX_CODES && code <= v.avail
      requires code < v.avail ==> s.strings[code] != []
      modifies codes
      ensures Roots(cs, codes[..]) && Spells(codes[..], Grown(s, code))
    {
      ghost var was := codes[..];
      codes[v.avail] := Entry(v.oldcode, codes[v.oldcode].first, 0);
      assert code != v.avail + 1;  // the source's test for the new entry itself is off by one and never holds
      var suffix := codes[code].first;
      codes[v.avail] := codes[v.avail].(suffix := suffix);
      SpellsNew(was, s.strings, v.oldcode, suffix);
      assert codes[..] == was[v.avail := Entry(v.oldcode, was[v.oldcode].first, suffix)];
    }

    /** One code of the loop of stbi__process_gif_raster takes the textbook's step. */
    method HandleCode(cs: nat, v: Vars, code: nat, ghost s: State, ghost base: seq<Byte>)
      returns (more: bool, ok: bool, v': Vars)
      requires Refines(cs, v, s) && emitted == base + s.out && Drawing()
      modifies codes, `x, `row, `step, `parse, `canvas, `emitted
      ensures Drawing()
      ensures match Step(cs, s, code)
        case Corrupt => !more && !ok
        case Finished(out) => !more && ok && emitted == base + out
        case Running(t) => more && Refines(cs, v', t) && emitted == base + t.out
    {
      hide Spells, Usable, Roots, Drawing;
      more, ok, v' := false, false, v;
      var clear := Pow2(cs);
      if code == clear {
        SizeBound(cs);
        RootsAgain(cs, codes[..], s.strings);
        return true, true, Vars(clear + 2, -1, cs + 1, false);
      }
      if code == clear + 1 { return false, true, v; }
      if code > v.avail || v.first { return; }
      if code < v.avail { UsableCode(cs, s.strings, code); }
      var avail := v.avail;
      if v.oldcode >= 0 {
        if v.avail + 1 > MAX_CODES { return; }
        AddEntry(cs, v, code, s);
        GrownUsable(cs, s, code);
        avail := avail + 1;
      } else if code == v.avail {
        return;
      }
      ghost var t := Step(cs, s, code).state;
      SpellsAt(codes[..], t.strings, code);
      OutCode(code);
      ConcatAssoc(base, s.out, t.last);
      return true, true, Vars(avail, code, NextSize(v.codesize, avail), v.first);
    }

    /** stbi__process_gif_raster, whatever the table holds: what the textbook decoder makes of the
        concatenated sub-blocks is drawn in raster order. */
    method ProcessRaster(input: seq<Byte>, start: nat) returns (ok: bool)
      requires codes.Length == MAX_CODES && Drawing() && emitted == []
      modifies codes, `x, `row, `step, `parse, `canvas, `emitted
      ensures Drawing()
      ensures match DecodedFrame(input, start)
        case Corrupt => !ok
        case Finished(out) => ok && emitted == out
        case Running(_) => false
    {
      hide Drawing;
      var cs := ByteAt(input, start);
      if cs > 12 { return false; }
      FillRoots(cs);
      SizeBound(cs);
      RootsSpell(cs, codes[..]);
      var v := Vars(Pow2(cs) + 2, -1, cs + 1, true);
      ok := DecodeLoop(input, start + 1, cs, v, []);
    }

    /** The raster of one image descriptor, on whatever earlier frames left behind. */
    method LoadFrame(input: seq<Byte>, f: Frame) returns (ok: bool)
      requires codes.Length == MAX_CODES && |f.visible| == 256
      modifies this, codes
      ensures ok <==> FrameShown(input, f, old(canvas)).Some?
      ensures ok ==> canvas == FrameShown(input, f, old(canvas)).value
    {
      hide Paint, FrameOrder, Decode;
      BeginFrame(f.left, f.top, f.width, f.height, f.interlaced, f.visible);
      ok := ProcessRaster(input, f.start);
    }

    /** Several frames one after the other, with one table. */
    method LoadFrames(input: seq<Byte>, frames: seq<Frame>) returns (ok: bool)
      requires codes.Length == MAX_CODES && forall k :: 0 <= k < |frames| ==> |frames[k].visible| == 256
      modifies this, codes
      ensures ok <==> FramesShown(input, frames, old(canvas)).Some?
      ensures ok ==> canvas == FramesShown(input, frames, old(canvas)).value
    {
      hide FrameShown;
      for n := 0 to |frames|
        invariant FramesShown(input, frames[..n], old(canvas)) == Some(canvas)
      {
        assert frames[..n + 1][..n] == frames[..n];
        ok := LoadFrame(input, frames[n]);
        if !ok {
          FramesStop(input, frames, n + 1, old(canvas));
          return;
        }
      }
      assert frames[..|frames|] == frames;
      ok := true;
    }

    method DecodeLoop(input: seq<Byte>, start: nat, cs: nat, v0: Vars, ghost base: seq<Byte>) returns (ok: bool)
      requires Refines(cs, v0, Start(cs)) && emitted == base + Start(cs).out && Drawing()
      modifies codes, `x, `row, `step, `parse, `canvas, `emitted
      ensures Drawing()
      ensures match Decode(cs, Payload(input, start, 0), 0, Start(cs))
        case Corrupt => !ok
        case Finished(out) => ok && emitted == base + out
        case Running(_) => false
    {
      hide Stream, Val, Step, Refines, Decode, Low, Shr, Shl, Payload, InitialStrings, Drawing;
      ghost var s, p: nat, fed: nat := Start(cs), 0, 0;
      ghost var payload := Payload(input, start, 0);
      assert payload[0..] == payload;
      NoValue(payload, 0);
      SizeOf(this, cs, v0, s);
      var v := v0;
      var pos: nat, left: nat := start, 0;
      var bits: nat, validBits: nat := 0, 0;
      while true
        invariant Drawing() && Refines(cs, v, s) && emitted == base + s.out && v.codesize == s.size > 0
        invariant p + validBits == 8 * fed <= 8 * |payload| && bits == Val(Stream(payload, p, validBits))
        invariant payload[fed..] == Payload(input, pos, left)
        invariant Decode(cs, payload, p, s) == Decode(cs, payload, 0, Start(cs))
        decreases 8 * |payload| - p, 8 * |payload| - p - validBits
      {
        if validBits < v.codesize {
          var more, b;
          more, b, pos, left := NextByte(input, pos, left, payload, fed);
          if !more {
            DecodeEnds(cs, payload, p, s);
            return true;
          }
          AppendByte(payload, p, validBits, fed);
          bits := bits + Shl(b, validBits);
          fed := fed + 1;
          validBits := validBits + 8;
        } else {
          TakeBits(payload, p, validBits, v.codesize);
          var code := Low(bits, v.codesize);
          bits := Shr(bits, v.codesize);
          validBits := validBits - v.codesize;
          DecodeStep(cs, payload, p, s);
          var more;
          more, ok, v := HandleCode(cs, v, code, s, base);
          if !more { return; }
          p, s := p + s.size, Step(cs, s, code).state;
          SizeOf(this, cs, v, s);
        }
      }
    }
  }

  // ---------------------------------------------------------------------------
  // Whole frames

  /** An image descriptor and where its raster begins. */
  datatype Frame = Frame(
    left: nat, top: nat, width: nat, height: nat, interlaced: bool, visible: seq<bool>, start: nat)

  /** What the textbook decoder makes of the raster at start. */
  function DecodedFrame(input: seq<Byte>, start: nat): Outcome
  {
    if ByteAt(input, start) > 12 then Corrupt
    else Decode(ByteAt(input, start), Payload(input, start + 1, 0), 0, Start(ByteAt(input, start)))
  }

  /** The canvas after a frame. */
  function FrameShown(input: seq<Byte>, f: Frame, canvas: Canvas): Option<Canvas>
    requires |f.visible| == 256
  {
    match DecodedFrame(input, f.start)
    case Finished(out) =>
      Some(Paint(canvas, f.visible, FrameOrder(f.left, f.top, f.width, f.height, f.interlaced), out))
    case _ => None
  }

  function FramesShown(input: seq<Byte>, frames: seq<Frame>, canvas: Canvas): Option<Canvas>
    requires forall k :: 0 <= k < |frames| ==> |frames[k].visible| == 256
  {
    if frames == [] then Some(canvas) else
    var n := |frames| - 1;
    match FramesShown(input, frames[..n], canvas)
    case None => None
    case Some(c) => FrameShown(input, frames[n], c)
  }

  lemma {:induction false} FramesStop(input: seq<Byte>, frames: seq<Frame>, n: nat, canvas: Canvas)
    requires n <= |frames| && forall k :: 0 <= k < |frames| ==> |frames[k].visible| == 256
    requires FramesShown(input, frames[..n], canvas) == None
    ensures FramesShown(input, frames, canvas) == None
    decreases |frames|
  {
    if n == |frames| {
      assert frames[..n] == frames;
    } else {
      assert frames[..|frames| - 1][..n] == frames[..n];
      FramesStop(input, frames[..|frames| - 1], n, canvas);
    }
  }

  lemma {:induction false} NoPlaces(left: nat, top: nat, rows: seq<nat>)
    ensures PlacesFrom(left, top, 0, 0, rows) == []
  {
    if rows != [] { NoPlaces(left, top, rows[1..]); }
  }

  lemma FrameStart(left: nat, top: nat, width: nat, height: nat, interlaced: bool)
    ensures FrameOrder(left, top, width, height, interlaced)
         == PlacesFrom(
              left, top, width, 0, RowsFrom(height, 0, if interlaced then 8 else 1, if interlaced then 3 else 0))
    ensures height == 0 || width == 0 ==> FrameOrder(left, top, width, height, interlaced) == []
    ensures Rest(FrameOrder(left, top, width, height, interlaced), 0)
      == FrameOrder(left, top, width, height, interlaced)
  {
    if width == 0 { NoPlaces(left, top, RowOrder(height, interlaced)); }
  }

  /** The cursor before the first place. */
  lemma FrameBegins(left: nat, top: nat, width: nat, height: nat, interlaced: bool, visible: seq<bool>, canvas: Canvas)
    requires |visible| == 256
    ensures
      var order := FrameOrder(left, top, width, height, interlaced);
      var row := if width == 0 then height else 0;
      var step, parse := if interlaced then 8 else 1, if interlaced then 3 else 0;
      && (if row >= height then [] else PlacesFrom(left, top, width, 0, RowsFrom(height, row, step, parse)))
        == Rest(order, 0)
      && canvas == Paint(canvas, visible, order, [])
  {
    hide PlacesFrom, RowsFrom, Paint, FrameOrder, Rest;
    FrameStart(left, top, width, height, interlaced);
    NothingPainted(canvas, visible, FrameOrder(left, top, width, height, interlaced));
  }

  lemma NothingPainted(canvas: Canvas, visible: seq<bool>, places: seq<Place>)
    requires |visible| == 256
    ensures Paint(canvas, visible, places, []) == canvas
  {
  }

  lemma CursorRow(height: nat, row: nat, step: nat, parse: nat)
    requires step > 0 && parse <= 3 && row < height
    ensures RowsFrom(height, row, step, parse) != [] && RowsFrom(height, row, step, parse)[0] == row
  {
  }

  lemma NoMoreRows(left: nat, top: nat, width: nat)
    ensures PlacesFrom(left, top, width, 0, []) == []
  {
  }

  /** The next data byte, across sub-block boundaries. */
  method NextByte(input: seq<Byte>, pos: nat, left: nat, ghost payload: seq<Byte>, ghost fed: nat)
    returns (more: bool, b: Byte, pos': nat, left': nat)
    requires fed <= |payload| && payload[fed..] == Payload(input, pos, left)
    ensures more <==> fed < |payload|
    ensures more ==> b == ByteAt(payload, fed) && payload[fed + 1..] == Payload(input, pos', left')
  {
    more, b, pos', left' := true, 0, pos, left;
    if left' == 0 {
      left' := ByteAt(input, pos');
      if left' == 0 { return false, 0, pos', left'; }
      pos' := pos' + 1;
    }
    b := ByteAt(input, pos');
    assert payload[fed..][0] == b && payload[fed..][1..] == payload[fed + 1..];
    pos', left' := pos' + 1, left' - 1;
  }

  lemma NoValue(payload: seq<Byte>, p: nat)
    ensures Val(Stream(payload, p, 0)) == 0
  {
  }

  lemma SizeOf(g: Gif, cs: nat, v: Vars, s: State)
    requires g.Refines(cs, v, s)
    ensures v.codesize == s.size > 0
  {
  }

  lemma DecodeEnds(cs: nat, payload: seq<Byte>, p: nat, s: State)
    requires s.size > 0 && p + s.size > 8 * |payload|
    ensures Decode(cs, payload, p, s) == Finished(s.out)
  {
  }

  lemma DecodeStep(cs: nat, payload: seq<Byte>, p: nat, s: State)
    requires s.size > 0 && p + s.size <= 8 * |payload|
    ensures var step := Step(cs, s, Val(Stream(payload, p, s.size)));
      && (!step.Running? ==> Decode(cs, payload, p, s) == step)
      && (step.Running? ==>
           step.state.size > 0 && Decode(cs, payload, p, s) == Decode(cs, payload, p + s.size, step.state))
  {
  }

  /** The table after a code that has a previous one. */
  function Grown(s: State, code: nat): Strings
    requires s.last != [] && code <= |s.strings| && (code < |s.strings| ==> s.strings[code] != [])
  {
    s.strings + [s.last + [if code == |s.strings| then s.last[0] else s.strings[code][0]]]
  }

  lemma GrownUsable(cs: nat, s: State, code: nat)
    requires Usable(cs, s.strings) && s.last != [] && code <= |s.strings|
    requires code < |s.strings| ==> s.strings[code] != []
    ensures Usable(cs, Grown(s, code))
  {
  }

  lemma UsableCode(cs: nat, strings: Strings, code: nat)
    requires Usable(cs, strings) && code != Pow2(cs) && code != Pow2(cs) + 1 && code < |strings|
    ensures strings[code] != []
  {
  }

  lemma RootsAgain(cs: nat, codes: seq<Entry>, strings: Strings)
    requires Roots(cs, codes) && Spells(codes, strings) && Pow2(cs) + 2 <= MAX_CODES
    ensures Spells(codes, InitialStrings(cs)) && Usable(cs, InitialStrings(cs))
  {
    RootsSpell(cs, codes);
  }

  lemma SpellsAt(codes: seq<Entry>, strings: Strings, i: nat)
    requires Spells(codes, strings) && i < |strings| && strings[i] != []
    ensures i < |codes| && Linked(codes, i) && Spell(codes, i) == strings[i]
  {
  }

  datatype Vars = Vars(avail: nat, oldcode: int, codesize: nat, first: bool)

  predicate Previous(oldcode: int, s: State)
  {
    if s.last == [] then oldcode == -1
    else 0 <= oldcode < |s.strings| && s.strings[oldcode] == s.last
  }
}
