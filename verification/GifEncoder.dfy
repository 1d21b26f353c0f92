/** A textbook LZW encoder for GIF rasters (GIF89a, Appendix F), which this repository does not have, and the
    decoder on what it writes. The encoder widens its codes by the size of its own dictionary. */
module GifEncoder {
  import opened BitStrings
  import opened GifRaster
  import opened GifLzw
  import opened Wrappers

  // ---------------------------------------------------------------------------
  // Code widths

  /** The least number of bits in which n codes can be told apart. */
  function BitsFor(n: nat): (w: nat)
  {
    if n <= 1 then 0 else 1 + BitsFor((n + 1) / 2)
  }

  lemma {:induction false} BitsForLeast(n: nat)
    requires n > 0
    ensures n <= Pow2(BitsFor(n)) && (n > 1 ==> BitsFor(n) > 0 && Pow2(BitsFor(n) - 1) < n)
  {
    if n > 1 {
      BitsForLeast((n + 1) / 2);
      if n > 2 { assert Pow2(BitsFor(n) - 1) == 2 * Pow2(BitsFor(n) - 2); }
    }
  }

  lemma {:induction false} BitsForIs(n: nat, w: nat)
    requires n > 1 && w > 0 && Pow2(w - 1) < n <= Pow2(w)
    ensures BitsFor(n) == w
    decreases w
  {
    if w == 1 {
      assert n == 2 && BitsFor(1) == 0;
    } else {
      assert Pow2(w) == 2 * Pow2(w - 1) && Pow2(w - 1) == 2 * Pow2(w - 2);
      BitsForIs((n + 1) / 2, w - 1);
    }
  }

  /** The code width for a dictionary of n codes. */
  function Width(n: nat): nat
  {
    if BitsFor(n) <= 12 then BitsFor(n) else 12
  }

  // ---------------------------------------------------------------------------
  // The decoder's code size

  /** The decoder's code size is the width for its table and one more code. */
  predicate Sized(s: State)
  {
    s.size == Width(|s.strings| + 1)
  }

  lemma SizeAt(n: nat, w: nat)
    requires n > 1 && 0 < w <= 12 && Pow2(w - 1) < n && (n <= Pow2(w) || w == 12)
    ensures Width(n) == w
  {
    if n <= Pow2(w) {
      BitsForIs(n, w);
    } else {
      BitsForLeast(n);
      if BitsFor(n) < 12 { Pow2Mono(BitsFor(n), 12); }
    }
  }

  lemma {:induction false} LowZero(x: nat, n: nat)
    requires n > 0 && Pow2(n - 1) < x <= Pow2(n)
    ensures Low(x, n) == 0 <==> x == Pow2(n)
  {
    hide Low, Pow2;
    if x < Pow2(n) {
      LowOf(x, n);
    } else {
      LowOfPower(n);
    }
  }

  lemma {:induction false} LowOfPower(n: nat)
    ensures Low(Pow2(n), n) == 0
  {
    if n > 0 { LowOfPower(n - 1); }
  }

  /** The test on the low bits keeps the code size right when the table has got avail entries. */
  lemma NextSizeRight(size: nat, avail: nat)
    requires avail > 1 && size == Width(avail)
    ensures NextSize(size, avail) == Width(avail + 1)
  {
    hide Low, BitsFor, Pow2;
    BitsForLeast(avail);
    TwelveBits();
    var w := BitsFor(avail);
    if w > 12 {
      Pow2Mono(12, w - 1);
      SizeAt(avail + 1, 12);
    } else {
      LowZero(avail, w);
      if avail < Pow2(w) || w == 12 {
        Pow2Mono(w, 12);
        SizeAt(avail + 1, w);
      } else {
        Pow2Mono(w, 11);
        DoublePower(w);
        SizeAt(avail + 1, w + 1);
      }
    }
  }

  lemma DoublePower(n: nat)
    ensures Pow2(n + 1) == 2 * Pow2(n)
  {
  }

  lemma TwelveBits()
    ensures Pow2(11) == 2048 && Pow2(12) == 4096
  {
    Pow2Values();
    assert Pow2(9) == 512 && Pow2(10) == 2 * Pow2(9) && Pow2(11) == 2 * Pow2(10) && Pow2(12) == 2 * Pow2(11);
  }

  /** An empty dictionary: the width is one more than the code size of the image. */
  lemma FirstWidth(cs: nat)
    requires 2 <= cs <= 11
    ensures Width(Pow2(cs) + 2) == cs + 1 && Width(Pow2(cs) + 3) == cs + 1
  {
    hide Width;
    Pow2Mono(2, cs);
    assert Pow2(2) == 4 && Pow2(cs + 1) == 2 * Pow2(cs);
    SizeAt(Pow2(cs) + 2, cs + 1);
    SizeAt(Pow2(cs) + 3, cs + 1);
  }

  predicate Steady(cs: nat, s: State)
  {
    Sized(s) && |s.strings| >= Pow2(cs) + 2 && (s.last == [] ==> s.strings == InitialStrings(cs))
  }

  /** Every code keeps the code size right. */
  lemma StepSteady(cs: nat, s: State, code: nat)
    requires 2 <= cs <= 11 && Steady(cs, s)
    ensures Step(cs, s, code).Running? ==> Steady(cs, Step(cs, s, code).state)
  {
    hide NextSize, Width;
    FirstWidth(cs);
    var n := |s.strings|;
    if s.last == [] {
      NextSizeRight(s.size, n);
    } else {
      NextSizeRight(s.size, n + 1);
    }
  }

  /** The codes one after the other. */
  function Feed(cs: nat, codes: seq<nat>): Outcome
  {
    if codes == [] then Running(Start(cs)) else
    var n := |codes| - 1;
    match Feed(cs, codes[..n])
    case Running(s) => Step(cs, s, codes[n])
    case stopped => stopped
  }

  /** In every state that the decoder reaches, its code size is the least number of bits with a code to spare for
      the next table entry, cut off at 12. */
  lemma {:induction false} SizeIsLeast(cs: nat, codes: seq<nat>)
    requires 2 <= cs <= 11 && Feed(cs, codes).Running?
    ensures
      var s := Feed(cs, codes).state;
      && Steady(cs, s) && 0 < s.size <= 12 && (|s.strings| < Pow2(s.size) || s.size == 12)
      && Pow2(s.size - 1) <= |s.strings|
  {
    hide Step, Steady;
    if codes == [] {
      StartSteady(cs);
    } else {
      var n := |codes| - 1;
      SizeIsLeast(cs, codes[..n]);
      StepSteady(cs, Feed(cs, codes[..n]).state, codes[n]);
    }
    SteadySize(cs, Feed(cs, codes).state);
  }

  /** An image whose first code is neither the clear code nor the end code is refused. */
  lemma FirstCodeClears(cs: nat, payload: seq<Byte>)
    requires cs + 1 <= 8 * |payload|
    ensures
      var code := Val(Stream(payload, 0, cs + 1));
      code != Pow2(cs) && code != Pow2(cs) + 1 ==> Decode(cs, payload, 0, Start(cs)) == Corrupt
  {
    hide InitialStrings;
  }

  /** A code is refused exactly when no clear code came before it, it is beyond the next one to be defined, it
      is this one and there is no previous string to extend, it has no string, or the table is full. */
  lemma StepRefuses(cs: nat, s: State, code: nat)
    requires Usable(cs, s.strings)
    ensures Step(cs, s, code) == Corrupt <==>
      && code != Pow2(cs) && code != Pow2(cs) + 1
      && (s.first || code > |s.strings| || (if s.last == [] then code == |s.strings| else |s.strings| >= 8192))
  {
    hide InitialStrings;
  }

  lemma StartSteady(cs: nat)
    requires 2 <= cs <= 11
    ensures Steady(cs, Start(cs))
  {
    hide Width, InitialStrings;
    FirstWidth(cs);
  }

  lemma SteadySize(cs: nat, s: State)
    requires Steady(cs, s)
    ensures 0 < s.size <= 12 && (|s.strings| < Pow2(s.size) || s.size == 12) && Pow2(s.size - 1) <= |s.strings|
  {
    WidthLeast(|s.strings| + 1);
  }

  lemma WidthLeast(n: nat)
    requires n > 1
    ensures 0 < Width(n) <= 12 && (n <= Pow2(Width(n)) || Width(n) == 12) && Pow2(Width(n) - 1) < n
  {
    BitsForLeast(n);
    if BitsFor(n) > 12 { Pow2Mono(11, BitsFor(n) - 1); }
  }

  // ---------------------------------------------------------------------------
  // The encoder

  /** The dictionary beyond the single bytes, the clear code and the end code. */
  type Words = seq<seq<Byte>>

  /** The longest word among the first n that data begin with. */
  function Find(words: Words, data: seq<Byte>, n: nat): (k: int)
    requires n <= |words|
    ensures -1 <= k < n
    ensures k >= 0 ==> words[k] <= data && forall j :: 0 <= j < n && words[j] <= data ==> |words[j]| <= |words[k]|
    ensures k < 0 ==> forall j :: 0 <= j < n ==> !(words[j] <= data)
  {
    if n == 0 then -1 else
    var k := Find(words, data, n - 1);
    if words[n - 1] <= data && (k < 0 || |words[n - 1]| > |words[k]|) then n - 1 else k
  }

  /** The code to write next: that of the longest word that data begin with, or of their first byte. */
  function NextCode(cs: nat, words: Words, data: seq<Byte>): (code: nat)
    requires data != []
  {
    var k := Find(words, data, |words|);
    if k < 0 then data[0] else Pow2(cs) + 2 + k
  }

  /** How many bytes it stands for. */
  function NextLength(words: Words, data: seq<Byte>): (n: nat)
    requires data != [] && Grown(words)
    ensures 1 <= n <= |data|
  {
    var k := Find(words, data, |words|);
    if k < 0 then 1 else |words[k]|
  }

  /** Words have at least two bytes. */
  predicate Grown(words: Words)
  {
    forall k :: 0 <= k < |words| ==> |words[k]| >= 2
  }

  /** The bits for data with a dictionary: each code in the width of the dictionary, which then gets the word and
      the byte after it; when it is full a clear code empties it, and the end code comes last. */
  function Encoded(cs: nat, words: Words, data: seq<Byte>): (bits: seq<bool>)
    requires Grown(words)
    decreases |data|, |words|
  {
    var size := Width(Pow2(cs) + 2 + |words|);
    if data == [] then Bits(Pow2(cs) + 1, size)
    else if Pow2(cs) + 2 + |words| >= 4096 && words != [] then Bits(Pow2(cs), size) + Encoded(cs, [], data)
    else
      Bits(NextCode(cs, words, data), size) + Encoded(cs, NextWords(words, data), data[NextLength(words, data)..])
  }

  // ---------------------------------------------------------------------------
  // The decoder follows

  /** The decoder is one word behind the encoder. */
  predicate InStep(cs: nat, words: Words, s: State, rest: seq<Byte>)
  {
    && Grown(words) && !s.first && s.size == Width(Pow2(cs) + 2 + |words|)
    && (if words == [] then s.strings == InitialStrings(cs) && s.last == []
        else
          var m := |words| - 1;
          && s.strings == InitialStrings(cs) + words[..m] && s.last != []
          && (rest != [] ==> words[m] == s.last + [rest[0]]))
  }

  predicate Colours(cs: nat, data: seq<Byte>)
  {
    forall i :: 0 <= i < |data| ==> data[i] < Pow2(cs)
  }

  /** The string of the code that the encoder writes is the next piece of the data, also when the code is the one
      that the decoder is about to define. */
  lemma NextString(cs: nat, words: Words, s: State, rest: seq<Byte>)
    requires InStep(cs, words, s, rest) && rest != [] && Colours(cs, rest)
    ensures
      var code, n := NextCode(cs, words, rest), NextLength(words, rest);
      && code != Pow2(cs) && code != Pow2(cs) + 1 && code <= |s.strings| && (words == [] ==> code < |s.strings|)
      && (code == |s.strings| ==> s.last + [s.last[0]] == rest[..n])
      && (code < |s.strings| ==> s.strings[code] == rest[..n])
  {
    hide InitialStrings, Find, Width;
    var n, k := NextLength(words, rest), Find(words, rest, |words|);
    assert rest[0] < Pow2(cs);
    RootString(cs, rest[0]);
    if k < 0 {
      assert rest[..1] == [rest[0]];
    } else {
      assert words[k] == rest[..n];
      if k == |words| - 1 {
        NewestWord(words[k], s.last, rest, n);
      } else {
        assert words[..|words| - 1][k] == words[k];
      }
    }
  }

  lemma RootString(cs: nat, b: Byte)
    requires b < Pow2(cs)
    ensures InitialStrings(cs)[b] == [b]
  {
  }

  lemma NewestWord(word: seq<Byte>, last: seq<Byte>, rest: seq<Byte>, n: nat)
    requires rest != [] && 0 < n <= |rest| && last != [] && word == last + [rest[0]] == rest[..n]
    ensures last + [last[0]] == rest[..n]
  {
    assert word[0] == last[0] && rest[..n][0] == rest[0];
  }

  /** The words after the next code. */
  function NextWords(words: Words, data: seq<Byte>): (r: Words)
    requires data != [] && Grown(words)
    ensures Grown(r)
  {
    var n := NextLength(words, data);
    words + [if n < |data| then data[..n + 1] else data + [0]]
  }

  lemma StepInStep(cs: nat, words: Words, s: State, rest: seq<Byte>)
    requires 2 <= cs <= 11 && InStep(cs, words, s, rest) && rest != [] && Colours(cs, rest)
    requires Pow2(cs) + 2 + |words| <= 4096
    ensures
      var n, r := NextLength(words, rest), Step(cs, s, NextCode(cs, words, rest));
      r.Running? && r.state.out == s.out + rest[..n] && InStep(cs, NextWords(words, rest), r.state, rest[n..])
  {
    hide NextCode, NextLength, Width, NextSize, InitialStrings, InStep, NextWords;
    NextString(cs, words, s, rest);
    InStepSize(cs, words, s, rest);
    NextSizeRight(s.size, Pow2(cs) + 2 + |words|);
    var code, n := NextCode(cs, words, rest), NextLength(words, rest);
    var size := NextSize(s.size, Pow2(cs) + 2 + |words|);
    assert rest[..n][0] == rest[0];
    if words == [] {
      FirstInStep(cs, s, rest, size);
    } else {
      LaterInStep(cs, words, s, rest, size);
    }
  }

  lemma InStepSize(cs: nat, words: Words, s: State, rest: seq<Byte>)
    requires InStep(cs, words, s, rest)
    ensures Grown(words) && s.size == Width(Pow2(cs) + 2 + |words|) && !s.first
    ensures words == [] ==> s.last == [] && |s.strings| == Pow2(cs) + 2
    ensures words != [] ==> s.last != [] && |s.strings| == Pow2(cs) + 1 + |words|
  {
    hide Width;
  }

  lemma FirstInStep(cs: nat, s: State, rest: seq<Byte>, size: nat)
    requires InStep(cs, [], s, rest) && rest != [] && size == Width(Pow2(cs) + 3)
    ensures
      var n := NextLength([], rest);
      InStep(cs, NextWords([], rest), s.(last := rest[..n], size := size, out := s.out + rest[..n]), rest[n..])
  {
    hide Width, InitialStrings;
    var n := NextLength([], rest);
    var words' := NextWords([], rest);
    assert InitialStrings(cs) + words'[..0] == InitialStrings(cs);
    if n < |rest| { assert rest[..n + 1] == rest[..n] + [rest[n..][0]]; }
  }

  lemma LaterInStep(cs: nat, words: Words, s: State, rest: seq<Byte>, size: nat)
    requires words != [] && InStep(cs, words, s, rest) && rest != [] && size == Width(Pow2(cs) + 3 + |words|)
    ensures
      var n := NextLength(words, rest);
      var strings := s.strings + [s.last + [rest[0]]];
      InStep(cs, NextWords(words, rest), State(strings, rest[..n], size, s.first, s.out + rest[..n]), rest[n..])
  {
    hide Width, InitialStrings, NextLength;
    var n, m := NextLength(words, rest), |words| - 1;
    var words' := NextWords(words, rest);
    assert words'[..m + 1] == words == words[..m] + [words[m]];
    assert InitialStrings(cs) + words == s.strings + [words[m]];
    if n < |rest| { assert rest[..n + 1] == rest[..n] + [rest[n..][0]]; }
  }

  lemma CodeFits(cs: nat, words: Words, code: nat)
    requires 2 <= cs && Pow2(cs) + 2 + |words| <= 4096 && code < Pow2(cs) + 2 + |words|
    ensures code < Pow2(Width(Pow2(cs) + 2 + |words|)) && Width(Pow2(cs) + 2 + |words|) > 0
  {
    TwelveBits();
    WidthLeast(Pow2(cs) + 2 + |words|);
  }

  /** A code that stands at p is the one that is read. */
  lemma CodeRead(cs: nat, payload: seq<Byte>, p: nat, s: State, code: nat)
    requires s.size > 0 && code < Pow2(s.size) && At(payload, p, Bits(code, s.size)) && p + s.size <= 8 * |payload|
    ensures Decode(cs, payload, p, s) ==
      match Step(cs, s, code)
      case Running(t) => Decode(cs, payload, p + s.size, t)
      case stopped => stopped
  {
    hide Step, Stream, Val, Bits, Low;
    ValBits(code, s.size);
    LowOf(code, s.size);
  }

  lemma ClearInStep(cs: nat, words: Words, s: State, rest: seq<Byte>)
    requires 2 <= cs <= 11 && InStep(cs, words, s, rest)
    ensures
      var r := Step(cs, s, Pow2(cs));
      r.Running? && r.state.out == s.out && InStep(cs, [], r.state, rest)
  {
    hide Width;
    FirstWidth(cs);
  }

  /** From any point on, the decoder gives back what was encoded. */
  lemma {:induction false} DecodeEncoded(
      cs: nat, words: Words, data: seq<Byte>, payload: seq<Byte>, p: nat, s: State)
    requires 2 <= cs <= 11 && InStep(cs, words, s, data) && Colours(cs, data) && Pow2(cs) + 2 + |words| <= 4096
    requires Grown(words) && At(payload, p, Encoded(cs, words, data)) && p + |Encoded(cs, words, data)| <= 8 * |payload|
    ensures s.size > 0 && Decode(cs, payload, p, s) == Finished(s.out + data)
    decreases |data|, |words|
  {
    hide At, Bits, Decode, InStep, NextCode, NextWords, NextLength, Width, Colours;
    InStepSize(cs, words, s, data);
    var full := Pow2(cs) + 2 + |words| >= 4096 && words != [];
    var code := if data == [] then Pow2(cs) + 1 else if full then Pow2(cs) else NextCode(cs, words, data);
    CodeInRange(cs, words, data);
    CodeFits(cs, words, code);
    if data == [] {
      CodeRead(cs, payload, p, s, code);
      assert s.out + data == s.out;
    } else if full {
      AtConcat(payload, p, Bits(code, s.size), Encoded(cs, [], data));
      CodeRead(cs, payload, p, s, code);
      ClearInStep(cs, words, s, data);
      StartFits(cs);
      DecodeEncoded(cs, [], data, payload, p + s.size, Step(cs, s, code).state);
    } else {
      var n, words' := NextLength(words, data), NextWords(words, data);
      MoreWords(cs, words, data);
      AtConcat(payload, p, Bits(code, s.size), Encoded(cs, words', data[n..]));
      CodeRead(cs, payload, p, s, code);
      StepInStep(cs, words, s, data);
      FewerColours(cs, data, n);
      DecodeEncoded(cs, words', data[n..], payload, p + s.size, Step(cs, s, code).state);
      assert s.out + data[..n] + data[n..] == s.out + data;
    }
  }

  lemma CodeInRange(cs: nat, words: Words, data: seq<Byte>)
    requires Grown(words) && Colours(cs, data)
    ensures data != [] ==> NextCode(cs, words, data) < Pow2(cs) + 2 + |words|
  {
    if data != [] { assert data[0] < Pow2(cs); }
  }

  lemma StartFits(cs: nat)
    requires cs <= 11
    ensures Pow2(cs) + 2 < 4096
  {
    TwelveBits();
    Pow2Mono(cs, 11);
  }

  lemma MoreWords(cs: nat, words: Words, data: seq<Byte>)
    requires cs <= 11 && data != [] && Grown(words) && !(Pow2(cs) + 2 + |words| >= 4096 && words != [])
    ensures Pow2(cs) + 2 + |NextWords(words, data)| <= 4096
  {
    StartFits(cs);
  }

  lemma FewerColours(cs: nat, data: seq<Byte>, n: nat)
    requires Colours(cs, data) && n <= |data|
    ensures Colours(cs, data[n..])
  {
  }

  // ---------------------------------------------------------------------------
  // Whole rasters

  /** A clear code and the data. */
  function RasterBits(cs: nat, data: seq<Byte>): seq<bool>
  {
    Bits(Pow2(cs), cs + 1) + Encoded(cs, [], data)
  }

  /** LZW round trip: the decoder gives back every sequence of colours that fit the code size. */
  lemma LzwRoundTrip(cs: nat, data: seq<Byte>, payload: seq<Byte>)
    requires 2 <= cs <= 11 && Colours(cs, data)
    requires At(payload, 0, RasterBits(cs, data)) && |RasterBits(cs, data)| <= 8 * |payload|
    ensures Decode(cs, payload, 0, Start(cs)) == Finished(data)
  {
    hide At, Bits, Decode, Encoded, InStep, Width, Step;
    DoublePower(cs);
    AtConcat(payload, 0, Bits(Pow2(cs), cs + 1), Encoded(cs, [], data));
    CodeRead(cs, payload, 0, Start(cs), Pow2(cs));
    FirstClear(cs, data);
    StartFits(cs);
    DecodeEncoded(cs, [], data, payload, cs + 1, Step(cs, Start(cs), Pow2(cs)).state);
    assert [] + data == data;
  }

  lemma FirstClear(cs: nat, data: seq<Byte>)
    requires 2 <= cs <= 11
    ensures
      var r := Step(cs, Start(cs), Pow2(cs));
      r.Running? && r.state.out == [] && InStep(cs, [], r.state, data)
  {
    hide Width;
    FirstWidth(cs);
  }

  /** Sub-blocks of at most 255 bytes, each after its length, and a zero. */
  function SubBlocks(bytes: seq<Byte>): (r: seq<Byte>)
    decreases |bytes|
  {
    if bytes == [] then [0]
    else if |bytes| <= 255 then [|bytes|] + bytes + [0]
    else [255] + bytes[..255] + SubBlocks(bytes[255..])
  }

  /** Inside a sub-block: its bytes, and then what follows. */
  lemma {:induction false} PayloadInside(input: seq<Byte>, pos: nat, n: nat)
    requires pos + n <= |input|
    ensures Payload(input, pos, n) == input[pos..pos + n] + Payload(input, pos + n, 0)
    decreases n
  {
    if n > 0 {
      PayloadInside(input, pos + 1, n - 1);
      assert input[pos..pos + n] == [input[pos]] + input[pos + 1..pos + n];
    } else {
      assert input[pos..pos] + Payload(input, pos, 0) == Payload(input, pos, 0);
    }
  }

  lemma {:induction false} PayloadSubBlocks(input: seq<Byte>, pos: nat, bytes: seq<Byte>)
    requires pos + |SubBlocks(bytes)| <= |input| && input[pos..pos + |SubBlocks(bytes)|] == SubBlocks(bytes)
    ensures Payload(input, pos, 0) == bytes
    decreases |bytes|
  {
    hide Payload, SubBlocks;
    var s := SubBlocks(bytes);
    SubBlocksFirst(bytes);
    PartOf(input, pos, s, 0, 0);
    PayloadNext(input, pos);
    if bytes != [] {
      var n := if |bytes| <= 255 then |bytes| else 255;
      PayloadInside(input, pos + 1, n);
      PartOf(input, pos, s, 1, 1 + n);
      PartOf(input, pos, s, 1 + n, |s|);
      PayloadSubBlocks(input, pos + 1 + n, bytes[n..]);
      assert bytes == bytes[..n] + bytes[n..];
    }
  }

  lemma SubBlocksFirst(bytes: seq<Byte>)
    ensures
      var s, n := SubBlocks(bytes), if |bytes| <= 255 then |bytes| else 255;
      && n < |s| && s[0] == n
      && (bytes != [] ==> s[1..1 + n] == bytes[..n] && s[1 + n..|s|] == SubBlocks(bytes[n..]))
  {
  }

  lemma PayloadNext(input: seq<Byte>, pos: nat)
    requires pos < |input|
    ensures Payload(input, pos, 0) == if input[pos] == 0 then [] else Payload(input, pos + 1, input[pos])
  {
  }

  /** The raster of an image in a file: the code size, and its codes packed in sub-blocks. */
  function Raster(cs: Byte, data: seq<Byte>): seq<Byte>
  {
    [cs] + SubBlocks(Packed(RasterBits(cs, data)))
  }

  lemma RasterDecoded(input: seq<Byte>, start: nat, cs: Byte, data: seq<Byte>)
    requires 2 <= cs <= 11 && Colours(cs, data)
    requires start + |Raster(cs, data)| <= |input| && input[start..start + |Raster(cs, data)|] == Raster(cs, data)
    ensures DecodedFrame(input, start) == Finished(data)
  {
    hide Decode, RasterBits, Packed, SubBlocks, Payload, Start;
    var bits := RasterBits(cs, data);
    var bytes := Packed(bits);
    var s := Raster(cs, data);
    assert input[start] == s[0];
    assert input[start + 1..start + 1 + |SubBlocks(bytes)|] == s[1..];
    PayloadSubBlocks(input, start + 1, bytes);
    assert bytes[0..0 + |bytes|] == bytes;
    PackedAt(bytes, 0, bits);
    LzwRoundTrip(cs, data, bytes);
  }

  /** A frame that was encoded is drawn: every colour goes to its place in the drawing order. */
  method FrameRoundTrip(
      g: Gif, before: seq<Byte>, cs: Byte, data: seq<Byte>, after: seq<Byte>, f: Frame)
    returns (ok: bool)
    requires g.codes.Length == MAX_CODES && |f.visible| == 256 && f.start == |before|
    requires 2 <= cs <= 11 && Colours(cs, data)
    modifies g, g.codes
    ensures ok
    ensures g.canvas ==
      Paint(old(g.canvas), f.visible, FrameOrder(f.left, f.top, f.width, f.height, f.interlaced), data)
  {
    hide Raster, DecodedFrame, Paint, FrameOrder;
    var input := before + Raster(cs, data) + after;
    assert input[|before|..|before| + |Raster(cs, data)|] == Raster(cs, data);
    RasterDecoded(input, |before|, cs, data);
    ok := g.LoadFrame(input, f);
  }
}
