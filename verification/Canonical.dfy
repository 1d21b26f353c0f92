/** Canonical Huffman codes: section 3.2.2 of RFC 1951, Annex C of ITU-T T.81.
    A code is given by the list of its code lengths, 0 meaning "symbol unused". */
module Canonical {
  import opened BitStrings

  /** The number of symbols with a code of s bits. */
  function Count(lens: seq<nat>, s: nat): nat
  {
    if lens == [] then 0
    else Count(lens[..|lens| - 1], s) + (if lens[|lens| - 1] == s then 1 else 0)
  }

  /** How many s-bit strings begin with a code of at most s bits. */
  function Used(lens: seq<nat>, s: nat): nat
  {
    if s == 0 then 0 else 2 * Used(lens, s - 1) + Count(lens, s)
  }

  /** The code of the first symbol with an s-bit code. */
  function FirstCode(lens: seq<nat>, s: nat): nat
    requires s > 0
  {
    2 * Used(lens, s - 1)
  }

  /** The number of earlier symbols with a code of the same length. */
  function Rank(lens: seq<nat>, i: nat): nat
    requires i < |lens|
  {
    Count(lens[..i], lens[i])
  }

  /** Codes of one length are consecutive numbers in symbol order; shorter codes precede longer ones. */
  function Code(lens: seq<nat>, i: nat): nat
    requires i < |lens| && lens[i] > 0
  {
    FirstCode(lens, lens[i]) + Rank(lens, i)
  }

  function CodeBits(lens: seq<nat>, i: nat): (s: seq<bool>)
    requires i < |lens| && lens[i] > 0
  {
    MsbBits(Code(lens, i), lens[i])
  }

  /** Codes are at most m bits long. */
  predicate AtMost(lens: seq<nat>, m: nat)
  {
    forall i :: 0 <= i < |lens| ==> lens[i] <= m
  }

  /** 2^m times the Kraft sum of the lengths. */
  function KraftSum(lens: seq<nat>, m: nat): nat
    requires AtMost(lens, m)
  {
    if lens == [] then 0
    else
      var n := |lens| - 1;
      assert forall i :: 0 <= i < n ==> lens[..n][i] == lens[i];
      KraftSum(lens[..n], m) + (if lens[n] == 0 then 0 else Pow2(m - lens[n]))
  }

  /** The Kraft inequality: the lengths leave room for a prefix-free code. */
  predicate Kraft(lens: seq<nat>, m: nat)
    requires AtMost(lens, m)
  {
    KraftSum(lens, m) <= Pow2(m)
  }

  lemma {:induction false} UsedSnoc(lens: seq<nat>, x: nat, s: nat)
    ensures Used(lens + [x], s) == Used(lens, s) + (if 0 < x <= s then Pow2(s - x) else 0)
  {
    if s > 0 {
      UsedSnoc(lens, x, s - 1);
      assert (lens + [x])[..|lens|] == lens;
    }
  }

  /** The Kraft sum is what the code assignment uses up. */
  lemma {:induction false} KraftSumIsUsed(lens: seq<nat>, m: nat)
    requires AtMost(lens, m)
    ensures KraftSum(lens, m) == Used(lens, m)
  {
    if lens == [] {
      UsedEmpty(m);
    } else {
      var n := |lens| - 1;
      assert forall i :: 0 <= i < n ==> lens[..n][i] == lens[i];
      KraftSumIsUsed(lens[..n], m);
      UsedSnoc(lens[..n], lens[n], m);
      assert lens[..n] + [lens[n]] == lens;
    }
  }

  lemma {:induction false} UsedEmpty(s: nat)
    ensures Used([], s) == 0
  {
    if s > 0 { UsedEmpty(s - 1); }
  }

  /** If the code fits at m bits it fits at every shorter length. */
  lemma {:induction false} UsedFits(lens: seq<nat>, s: nat, m: nat)
    requires s <= m && Used(lens, m) <= Pow2(m)
    ensures Used(lens, s) <= Pow2(s)
    decreases m
  {
    if s < m { UsedFits(lens, s, m - 1); }
  }

  lemma {:induction false} CountSplit(lens: seq<nat>, k: nat, s: nat)
    requires k <= |lens|
    ensures Count(lens, s) == Count(lens[..k], s) + Count(lens[k..], s)
  {
    if k == |lens| {
      assert lens[..k] == lens;
    } else {
      var n := |lens| - 1;
      CountSplit(lens[..n], k, s);
      assert lens[..n][..k] == lens[..k];
      assert lens[k..][..n - k] == lens[..n][k..];
      assert lens[k..][n - k] == lens[n];
    }
  }

  lemma {:induction false} CountSame(n: nat, x: nat, s: nat)
    ensures Count(seq(n, _ => x), s) == if x == s then n else 0
  {
    if n > 0 {
      CountSame(n - 1, x, s);
      assert seq(n, _ => x)[..n - 1] == seq(n - 1, _ => x);
    }
  }

  lemma RankBelowCount(lens: seq<nat>, i: nat)
    requires i < |lens|
    ensures Rank(lens, i) < Count(lens, lens[i])
  {
    CountSplit(lens, i + 1, lens[i]);
    assert lens[..i + 1][..i] == lens[..i];
  }

  lemma RankInjective(lens: seq<nat>, i: nat, j: nat)
    requires i < |lens| && j < |lens| && lens[i] == lens[j]
    requires Rank(lens, i) == Rank(lens, j)
    ensures i == j
  {
    if i < j {
      assert lens[..j][..i] == lens[..i];
      RankBelowCount(lens[..j], i);
    } else if j < i {
      assert lens[..i][..j] == lens[..j];
      RankBelowCount(lens[..i], j);
    }
  }

  /** Every number below the count is the rank of a symbol. */
  lemma {:induction false} RankSurjective(lens: seq<nat>, s: nat, r: nat) returns (i: nat)
    requires r < Count(lens, s)
    ensures i < |lens| && lens[i] == s && Rank(lens, i) == r
  {
    var n := |lens| - 1;
    if lens[n] == s && Count(lens[..n], s) == r {
      i := n;
    } else {
      i := RankSurjective(lens[..n], s, r);
      assert lens[..n][..i] == lens[..i];
    }
  }

  // ---------------------------------------------------------------------------
  // The symbols listed by code length: slots are distinct and there are as many as symbols

  /** The number of symbols with a nonempty code shorter than s bits. */
  function FirstSymbol(lens: seq<nat>, s: nat): nat
  {
    if s <= 1 then 0 else FirstSymbol(lens, s - 1) + Count(lens, s - 1)
  }

  /** The place of symbol i among all used symbols, by code length and then by number. */
  function Slot(lens: seq<nat>, i: nat): nat
    requires i < |lens|
  {
    FirstSymbol(lens, lens[i]) + Rank(lens, i)
  }

  lemma {:induction false} FirstSymbolMono(lens: seq<nat>, s: nat, t: nat)
    requires 1 <= s < t
    ensures FirstSymbol(lens, s) + Count(lens, s) <= FirstSymbol(lens, t)
    decreases t
  {
    if s + 1 < t { FirstSymbolMono(lens, s, t - 1); }
  }

  lemma {:induction false} FirstSymbolSnoc(lens: seq<nat>, x: nat, s: nat)
    ensures FirstSymbol(lens + [x], s) == FirstSymbol(lens, s) + (if 1 <= x < s then 1 else 0)
  {
    if s > 1 {
      FirstSymbolSnoc(lens, x, s - 1);
      assert (lens + [x])[..|lens|] == lens;
    }
  }

  lemma {:induction false} FirstSymbolEmpty(s: nat)
    ensures FirstSymbol([], s) == 0
  {
    if s > 1 { FirstSymbolEmpty(s - 1); }
  }

  lemma {:induction false} FirstSymbolBound(lens: seq<nat>, s: nat)
    ensures FirstSymbol(lens, s) <= |lens|
  {
    if lens == [] {
      FirstSymbolEmpty(s);
    } else {
      var n := |lens| - 1;
      FirstSymbolBound(lens[..n], s);
      FirstSymbolSnoc(lens[..n], lens[n], s);
      assert lens[..n] + [lens[n]] == lens;
    }
  }

  lemma SlotBound(lens: seq<nat>, i: nat)
    requires i < |lens| && lens[i] > 0
    ensures Slot(lens, i) < |lens|
  {
    RankBelowCount(lens, i);
    FirstSymbolMono(lens, lens[i], lens[i] + 1);
    FirstSymbolBound(lens, lens[i] + 1);
  }

  lemma SlotInjective(lens: seq<nat>, i: nat, j: nat)
    requires i < |lens| && j < |lens| && lens[i] > 0 && lens[j] > 0
    requires Slot(lens, i) == Slot(lens, j)
    ensures i == j
  {
    RankBelowCount(lens, i);
    RankBelowCount(lens, j);
    if lens[i] < lens[j] {
      FirstSymbolMono(lens, lens[i], lens[j]);
    } else if lens[j] < lens[i] {
      FirstSymbolMono(lens, lens[j], lens[i]);
    } else {
      RankInjective(lens, i, j);
    }
  }

  // ---------------------------------------------------------------------------
  // Matching a 16-bit window of the stream

  /** The first s bits of the window w come before the end of the codes of at most s bits. */
  predicate Below(lens: seq<nat>, w: nat, s: nat)
    requires s <= 16
  {
    Shr(w, 16 - s) < Used(lens, s)
  }

  /** The window w begins with the code of symbol i. */
  predicate Matches(lens: seq<nat>, i: nat, w: nat)
    requires i < |lens| && 0 < lens[i] <= 16
  {
    Shr(w, 16 - lens[i]) == Code(lens, i)
  }

  lemma BelowStep(lens: seq<nat>, w: nat, s: nat)
    requires s < 16
    ensures Below(lens, w, s) ==> Below(lens, w, s + 1)
    ensures Below(lens, w, s) <==> Shr(w, 16 - (s + 1)) < FirstCode(lens, s + 1)
  {
    ShrShr(w, 15 - s, 1);
  }

  lemma {:induction false} BelowMono(lens: seq<nat>, w: nat, s: nat, t: nat)
    requires s <= t <= 16 && Below(lens, w, s)
    ensures Below(lens, w, t)
    decreases t
  {
    if s < t {
      BelowMono(lens, w, s, t - 1);
      BelowStep(lens, w, t - 1);
    }
  }

  lemma {:induction false} FirstBelow(lens: seq<nat>, w: nat, t: nat) returns (s: nat)
    requires t <= 16 && Below(lens, w, t)
    ensures 0 < s <= t && Below(lens, w, s) && !Below(lens, w, s - 1)
  {
    if Below(lens, w, t - 1) { s := FirstBelow(lens, w, t - 1); } else { s := t; }
  }

  /** A match of length s happens exactly at the first s where the window is below. */
  lemma MatchIsFirstBelow(lens: seq<nat>, i: nat, w: nat)
    requires i < |lens| && 0 < lens[i] <= 16 && Matches(lens, i, w)
    ensures Below(lens, w, lens[i]) && !Below(lens, w, lens[i] - 1)
  {
    RankBelowCount(lens, i);
    BelowStep(lens, w, lens[i] - 1);
  }

  lemma MatchExists(lens: seq<nat>, s: nat, w: nat) returns (i: nat)
    requires 0 < s <= 16 && Below(lens, w, s) && !Below(lens, w, s - 1)
    ensures i < |lens| && lens[i] == s && Matches(lens, i, w)
  {
    BelowStep(lens, w, s - 1);
    i := RankSurjective(lens, s, Shr(w, 16 - s) - FirstCode(lens, s));
  }

  lemma MatchUnique(lens: seq<nat>, i: nat, j: nat, w: nat)
    requires i < |lens| && 0 < lens[i] <= 16 && Matches(lens, i, w)
    requires j < |lens| && 0 < lens[j] <= 16 && Matches(lens, j, w)
    ensures i == j
  {
    MatchIsFirstBelow(lens, i, w);
    MatchIsFirstBelow(lens, j, w);
    if lens[i] < lens[j] {
      BelowMono(lens, w, lens[i], lens[j] - 1);
    } else if lens[j] < lens[i] {
      BelowMono(lens, w, lens[j], lens[i] - 1);
    } else {
      RankInjective(lens, i, j);
    }
  }

  /** A code fits in its length. */
  lemma CodeFits(lens: seq<nat>, i: nat, m: nat)
    requires AtMost(lens, m) && Kraft(lens, m)
    requires i < |lens| && lens[i] > 0
    ensures Code(lens, i) < Pow2(lens[i])
    ensures MsbVal(CodeBits(lens, i)) == Code(lens, i)
  {
    KraftSumIsUsed(lens, m);
    UsedFits(lens, lens[i], m);
    RankBelowCount(lens, i);
    MsbValBits(Code(lens, i), lens[i]);
  }

  /** A string of at least 16 bits begins with a code exactly when its window matches. */
  lemma PrefixIffMatches(lens: seq<nat>, i: nat, m: nat, s: seq<bool>)
    requires m <= 16 && AtMost(lens, m) && Kraft(lens, m)
    requires i < |lens| && lens[i] > 0 && |s| == 16
    ensures CodeBits(lens, i) <= s <==> Matches(lens, i, MsbVal(s))
  {
    var n := lens[i];
    CodeFits(lens, i, m);
    MsbValSplit(s, n);
    if CodeBits(lens, i) <= s {
      assert s[..n] == CodeBits(lens, i);
    } else if Matches(lens, i, MsbVal(s)) {
      MsbBitsVal(s[..n]);
    }
  }

  /** No code is a prefix of another. */
  lemma PrefixFree(lens: seq<nat>, i: nat, j: nat, m: nat)
    requires m <= 16 && AtMost(lens, m) && Kraft(lens, m)
    requires i < |lens| && lens[i] > 0 && j < |lens| && lens[j] > 0
    requires CodeBits(lens, i) <= CodeBits(lens, j)
    ensures i == j
  {
    var s := CodeBits(lens, j) + seq(16 - lens[j], _ => false);
    PrefixIffMatches(lens, i, m, s);
    PrefixIffMatches(lens, j, m, s);
    MatchUnique(lens, i, j, MsbVal(s));
  }
}
