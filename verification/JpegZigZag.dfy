/** The zigzag order of the coefficients of a block and its inverse. */
module JpegZigZag {

  /** The place of row-major coefficient j in the stream. */
  function ZigZag(j: nat): (i: nat)
    requires j < 64
    ensures i < 64
  {
    var c := j % 8;
    match j / 8
    case 0 => (match c
      case 0 => 0 case 1 => 1 case 2 => 5 case 3 => 6 case 4 => 14 case 5 => 15 case 6 => 27 case _ => 28)
    case 1 => (match c
      case 0 => 2 case 1 => 4 case 2 => 7 case 3 => 13 case 4 => 16 case 5 => 26 case 6 => 29 case _ => 42)
    case 2 => (match c
      case 0 => 3 case 1 => 8 case 2 => 12 case 3 => 17 case 4 => 25 case 5 => 30 case 6 => 41 case _ => 43)
    case 3 => (match c
      case 0 => 9 case 1 => 11 case 2 => 18 case 3 => 24 case 4 => 31 case 5 => 40 case 6 => 44 case _ => 53)
    case 4 => (match c
      case 0 => 10 case 1 => 19 case 2 => 23 case 3 => 32 case 4 => 39 case 5 => 45 case 6 => 52 case _ => 54)
    case 5 => (match c
      case 0 => 20 case 1 => 22 case 2 => 33 case 3 => 38 case 4 => 46 case 5 => 51 case 6 => 55 case _ => 60)
    case 6 => (match c
      case 0 => 21 case 1 => 34 case 2 => 37 case 3 => 47 case 4 => 50 case 5 => 56 case 6 => 59 case _ => 61)
    case 7 => (match c
      case 0 => 35 case 1 => 36 case 2 => 48 case 3 => 49 case 4 => 57 case 5 => 58 case 6 => 62 case _ => 63)
  }

  /** The row-major place of the coefficient at place i of the stream. Only a corrupt stream counts
      beyond the last place. */
  function DeZigZag(i: nat): (j: nat)
    requires i < 79
    ensures j < 64
  {
    var c := i % 8;
    match i / 8
    case 0 => (match c
      case 0 => 0 case 1 => 1 case 2 => 8 case 3 => 16 case 4 => 9 case 5 => 2 case 6 => 3 case _ => 10)
    case 1 => (match c
      case 0 => 17 case 1 => 24 case 2 => 32 case 3 => 25 case 4 => 18 case 5 => 11 case 6 => 4 case _ => 5)
    case 2 => (match c
      case 0 => 12 case 1 => 19 case 2 => 26 case 3 => 33 case 4 => 40 case 5 => 48 case 6 => 41 case _ => 34)
    case 3 => (match c
      case 0 => 27 case 1 => 20 case 2 => 13 case 3 => 6 case 4 => 7 case 5 => 14 case 6 => 21 case _ => 28)
    case 4 => (match c
      case 0 => 35 case 1 => 42 case 2 => 49 case 3 => 56 case 4 => 57 case 5 => 50 case 6 => 43 case _ => 36)
    case 5 => (match c
      case 0 => 29 case 1 => 22 case 2 => 15 case 3 => 23 case 4 => 30 case 5 => 37 case 6 => 44 case _ => 51)
    case 6 => (match c
      case 0 => 58 case 1 => 59 case 2 => 52 case 3 => 45 case 4 => 38 case 5 => 31 case 6 => 39 case _ => 46)
    case 7 => (match c
      case 0 => 53 case 1 => 60 case 2 => 61 case 3 => 54 case 4 => 47 case 5 => 55 case 6 => 62 case _ => 63)
    case _ => 63
  }

  /** The place after row r and column c: along the anti-diagonals, upwards on even ones and downwards on
      odd ones, and on to the next one at the edge. */
  function After(r: nat, c: nat): (nat, nat)
    requires r < 8 && c < 8
  {
    if (r + c) % 2 == 0 then
      if c == 7 then (r + 1, c) else if r == 0 then (r, c + 1) else (r - 1, c + 1)
    else
      if r == 7 then (r, c + 1) else if c == 0 then (r + 1, c) else (r + 1, c - 1)
  }

  /** The order is the zigzag of figure A.6 of ITU-T T.81, and all places past its end are the last one. */
  lemma ZigZagWalk(i: nat)
    requires i < 78
    ensures DeZigZag(0) == 0
    ensures
      if i >= 63 then DeZigZag(i + 1) == 63
      else (DeZigZag(i + 1) / 8, DeZigZag(i + 1) % 8) == After(DeZigZag(i) / 8, DeZigZag(i) % 8)
  {
    hide After;
    if i < 16 { FirstQuarter(i); } else if i < 32 { SecondQuarter(i); }
    else if i < 48 { ThirdQuarter(i); } else if i < 63 { LastQuarter(i); }
  }

  lemma FirstQuarter(i: nat)
    requires 0 <= i < 16
    ensures (DeZigZag(i + 1) / 8, DeZigZag(i + 1) % 8) == After(DeZigZag(i) / 8, DeZigZag(i) % 8)
  {
  }

  lemma SecondQuarter(i: nat)
    requires 16 <= i < 32
    ensures (DeZigZag(i + 1) / 8, DeZigZag(i + 1) % 8) == After(DeZigZag(i) / 8, DeZigZag(i) % 8)
  {
  }

  lemma ThirdQuarter(i: nat)
    requires 32 <= i < 48
    ensures (DeZigZag(i + 1) / 8, DeZigZag(i + 1) % 8) == After(DeZigZag(i) / 8, DeZigZag(i) % 8)
  {
  }

  lemma LastQuarter(i: nat)
    requires 48 <= i < 63
    ensures (DeZigZag(i + 1) / 8, DeZigZag(i + 1) % 8) == After(DeZigZag(i) / 8, DeZigZag(i) % 8)
  {
  }

  /** The two orders are inverse to each other. */
  lemma Inverse(j: nat)
    requires j < 64
    ensures DeZigZag(ZigZag(j)) == j
    ensures ZigZag(DeZigZag(j)) == j
  {
    InverseZigZag(j);
    InverseDeZigZag(j);
  }

  lemma InverseZigZag(j: nat)
    requires j < 64
    ensures DeZigZag(ZigZag(j)) == j
  {
  }

  lemma InverseDeZigZag(j: nat)
    requires j < 64
    ensures ZigZag(DeZigZag(j)) == j
  {
  }
}
