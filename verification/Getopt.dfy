/** getopt: the scan state of _getopt_data_a and _getopt_internal_r_a, which permutes argv in place. */
module Getopt {
  import opened GetoptSpec

  // ---------------------------------------------------------------------------
  // exchange_a

  /** The blocks of the given length at x and y have changed places. */
  ghost predicate Swapped(was: seq<string>, now: seq<string>, x: nat, y: nat, len: nat)
  {
    && x + len <= y && y + len <= |was| == |now|
    && now[..x] == was[..x] && now[x + len..y] == was[x + len..y] && now[y + len..] == was[y + len..]
    && now[x..x + len] == was[y..y + len] && now[y..y + len] == was[x..x + len]
  }

  /** Swaps two blocks of the same length. */
  method SwapBlocks(argv: array<string>, x: nat, y: nat, len: nat)
    requires x + len <= y && y + len <= argv.Length
    modifies argv
    ensures Swapped(old(argv[..]), argv[..], x, y, len)
  {
    for i := 0 to len
      invariant forall k :: 0 <= k < argv.Length ==>
        argv[k] == if x <= k < x + i then old(argv[k - x + y])
                   else if y <= k < y + i then old(argv[k - y + x]) else old(argv[k])
    {
      var tem := argv[x + i];
      argv[x + i] := argv[y + i];
      argv[y + i] := tem;
    }
  }

  /** The elements between bottom and top, their two parts exchanged, are what the result wants there;
      outside the result is in place. */
  ghost predicate Exchanging(now: seq<string>, want: seq<string>, bottom: nat, middle: nat, top: nat)
  {
    && bottom <= middle <= top <= |now| == |want|
    && now[..bottom] == want[..bottom] && now[top..] == want[top..]
    && now[middle..top] + now[bottom..middle] == want[bottom..top]
  }

  /** After the first part changed places with the end of the second. */
  lemma ExchangeTop(was: seq<string>, now: seq<string>, want: seq<string>, bottom: nat, middle: nat, top: nat)
    requires Exchanging(was, want, bottom, middle, top) && middle - bottom < top - middle
    requires Swapped(was, now, bottom, top - (middle - bottom), middle - bottom)
    ensures Exchanging(now, want, bottom, middle, top - (middle - bottom))
  {
    var x := top - (middle - bottom);
    var a, b := was[bottom..middle], was[middle..top];
    assert b == was[middle..x] + was[x..top];
    assert want[bottom..top] == b + a;
    assert want[bottom..x] == want[bottom..top][..x - bottom] == b;
    assert want[x..top] == want[bottom..top][x - bottom..] == a;
    assert want[x..] == want[x..top] + want[top..];
    assert now[x..] == now[x..top] + now[top..];
  }

  /** After the beginning of the first part changed places with the second. */
  lemma ExchangeBottom(was: seq<string>, now: seq<string>, want: seq<string>, bottom: nat, middle: nat, top: nat)
    requires Exchanging(was, want, bottom, middle, top) && top - middle <= middle - bottom
    requires Swapped(was, now, bottom, middle, top - middle)
    ensures Exchanging(now, want, bottom + (top - middle), middle, top)
  {
    var x := bottom + (top - middle);
    var a, b := was[bottom..middle], was[middle..top];
    assert a == was[bottom..x] + was[x..middle];
    assert want[bottom..top] == b + a;
    assert want[bottom..x] == want[bottom..top][..x - bottom] == b;
    assert want[x..top] == want[bottom..top][x - bottom..] == a;
    assert want[..x] == want[..bottom] + want[bottom..x];
    assert now[..x] == now[..bottom] + now[bottom..x];
  }

  lemma ExchangeDone(now: seq<string>, want: seq<string>, bottom: nat, middle: nat, top: nat)
    requires Exchanging(now, want, bottom, middle, top) && (top <= middle || middle <= bottom)
    ensures now == want
  {
    assert now == now[..bottom] + now[bottom..top] + now[top..];
    assert want == want[..bottom] + want[bottom..top] + want[top..];
    if top <= middle {
      assert now[middle..top] + now[bottom..middle] == now[bottom..top];
    } else {
      assert now[middle..top] + now[bottom..middle] == now[bottom..top];
    }
  }

  lemma ExchangeBounds(now: seq<string>, want: seq<string>, bottom: nat, middle: nat, top: nat)
    requires Exchanging(now, want, bottom, middle, top)
    ensures top <= |now|
  {
  }

  /** Swaps the shorter part into its place. */
  method ExchangeStep(argv: array<string>, bottom0: nat, middle: nat, top0: nat, ghost want: seq<string>)
    returns (bottom: nat, top: nat)
    requires bottom0 < middle < top0 && Exchanging(argv[..], want, bottom0, middle, top0)
    modifies argv
    ensures bottom0 <= bottom <= middle <= top <= top0 && top - bottom < top0 - bottom0
    ensures Exchanging(argv[..], want, bottom, middle, top)
  {
    hide Swapped, Exchanging;
    bottom, top := bottom0, top0;
    ghost var was := argv[..];
    ExchangeBounds(was, want, bottom, middle, top);
    if top - middle > middle - bottom {
      var len := middle - bottom;
      SwapBlocks(argv, bottom, top - (middle - bottom), len);
      ExchangeTop(was, argv[..], want, bottom, middle, top);
      top := top - len;
    } else {
      var len := top - middle;
      SwapBlocks(argv, bottom, middle, len);
      ExchangeBottom(was, argv[..], want, bottom, middle, top);
      bottom := bottom + len;
    }
  }

  function Rotated(s: seq<string>, bottom: nat, middle: nat, top: nat): (r: seq<string>)
    requires bottom <= middle <= top <= |s|
    ensures |r| == |s|
  {
    s[..bottom] + s[middle..top] + s[bottom..middle] + s[top..]
  }

  lemma ExchangeStart(s: seq<string>, bottom: nat, middle: nat, top: nat)
    requires bottom <= middle <= top <= |s|
    ensures Exchanging(s, Rotated(s, bottom, middle, top), bottom, middle, top)
  {
  }

  /** exchange_a is a rotation: the block of non-options moves behind the options found after it,
      both in their order. */
  method Exchange(argv: array<string>, first: nat, last: nat, optind: nat)
    requires first <= last <= optind <= argv.Length
    modifies argv
    ensures argv[..] == Rotated(old(argv[..]), first, last, optind)
  {
    hide Exchanging, Rotated;
    var bottom, middle, top := first, last, optind;
    ExchangeStart(argv[..], first, last, optind);
    ghost var want := Rotated(argv[..], first, last, optind);
    while top > middle && middle > bottom
      invariant 0 <= bottom <= middle <= top <= argv.Length
      invariant Exchanging(argv[..], want, bottom, middle, top)
      decreases top - bottom
    {
      bottom, top := ExchangeStep(argv, bottom, middle, top, want);
    }
    ExchangeDone(argv[..], want, bottom, middle, top);
  }

  // ---------------------------------------------------------------------------
  // What a scan keeps

  /** The arguments before optind have been looked at: those between first and last are operands in
      order, the others are options and their arguments in order, and the rest is untouched. */
  ghost predicate Scanned(cfg: Config, args: seq<string>, now: seq<string>, first: nat, last: nat, optind: nat)
  {
    && 1 <= first <= last <= optind <= |args| == |now|
    && now[0] == args[0] && now[optind..] == args[optind..]
    && now[1..first] + now[last..optind] + Options(cfg, args, optind) == Options(cfg, args, 1)
    && now[first..last] + Operands(cfg, args, optind) == Operands(cfg, args, 1)
  }

  lemma ScanStart(cfg: Config, args: seq<string>)
    requires |args| >= 1
    ensures Scanned(cfg, args, args, 1, 1, 1)
  {
  }

  /** The options found since move before the operands, or there are no operands yet. */
  lemma ScanExchange(cfg: Config, args: seq<string>, now: seq<string>, first: nat, last: nat, optind: nat)
    requires Scanned(cfg, args, now, first, last, optind)
    ensures Scanned(cfg, args, Rotated(now, first, last, optind), first + (optind - last), optind, optind)
    ensures first == last ==> Scanned(cfg, args, now, optind, optind, optind)
  {
    hide Options, Operands;
    var r := Rotated(now, first, last, optind);
    var mid := first + (optind - last);
    assert r[1..mid] == now[1..first] + now[last..optind];
    assert r[mid..optind] == now[first..last];
    assert r[optind..optind] == [];
    assert r[optind..] == now[optind..];
    if first == last {
      assert now[1..optind] == now[1..first] + now[last..optind];
      assert now[optind..optind] == [] && now[first..last] == [];
    }
  }

  /** Stepping over an operand. */
  lemma ScanOperand(cfg: Config, args: seq<string>, now: seq<string>, first: nat, optind: nat)
    requires Scanned(cfg, args, now, first, optind, optind) && optind < |args|
    requires args[optind] != "--" && IsNonOption(args[optind])
    ensures Scanned(cfg, args, now, first, optind + 1, optind + 1)
  {
    hide Options, Operands;
    OperandNext(cfg, args, optind);
    assert now[optind] == now[optind..][0] == args[optind..][0];
    assert now[optind + 1..] == now[optind..][1..] && args[optind + 1..] == args[optind..][1..];
    assert now[first..optind + 1] == now[first..optind] + [now[optind]];
    assert now[optind..optind] == [] && now[optind + 1..optind + 1] == [];
  }

  /** Stepping over an option and its argument. */
  lemma ScanOption(cfg: Config, args: seq<string>, now: seq<string>, first: nat, last: nat, optind: nat)
    requires Scanned(cfg, args, now, first, last, optind) && optind < |args|
    requires args[optind] != "--" && !IsNonOption(args[optind])
    ensures Scanned(cfg, args, now, first, last, optind + Width(cfg, args, optind))
  {
    hide Width, Options, Operands;
    OptionNext(cfg, args, optind);
    var w := Width(cfg, args, optind);
    assert now[optind + w..] == now[optind..][w..] && args[optind + w..] == args[optind..][w..];
    assert now[optind..optind + w] == now[optind..][..w] == args[optind..][..w] == args[optind..optind + w];
    assert now[last..optind + w] == now[last..optind] + now[optind..optind + w];
    var o := Options(cfg, args, optind + w);
    assert now[1..first] + now[last..optind + w] + o
      == now[1..first] + now[last..optind] + (now[optind..optind + w] + o);
  }

  /** The scan is over: options with their arguments first, operands from place first on. */
  ghost predicate Finished(cfg: Config, args: seq<string>, now: seq<string>, first: nat)
  {
    && |args| >= 1
    && now == [args[0]] + Options(cfg, args, 1) + Operands(cfg, args, 1)
    && first == 1 + |Options(cfg, args, 1)|
  }

  lemma ScanEnd(cfg: Config, args: seq<string>, now: seq<string>, first: nat, last: nat)
    requires Scanned(cfg, args, now, first, last, |args|) && last == |args|
    ensures Finished(cfg, args, now, first)
  {
    assert now == [now[0]] + now[1..first] + now[first..];
    assert now[last..last] == [] && now[first..last] == now[first..];
  }

  /** The double dash joins the options, and what follows it the operands. */
  lemma ScanDashes(cfg: Config, args: seq<string>, now: seq<string>, first: nat, optind: nat)
    requires Scanned(cfg, args, now, first, optind, optind) && optind < |args| && args[optind] == "--"
    ensures Finished(cfg, args, Rotated(now, first, optind, optind + 1), first + 1)
    ensures first == optind ==> Rotated(now, first, optind, optind + 1) == now
  {
    hide Options, Operands;
    DashesNext(cfg, args, optind);
    var r := Rotated(now, first, optind, optind + 1);
    assert now[optind] == now[optind..][0] == args[optind..][0] == "--";
    assert now[optind + 1..] == now[optind..][1..] && args[optind + 1..] == args[optind..][1..];
    assert now[optind..optind + 1] == ["--"] && now[optind..optind] == [];
    assert r == now[..first] + ["--"] + (now[first..optind] + now[optind + 1..]);
    assert now[..first] == [now[0]] + now[1..first];
  }

  /** One step on the text left of the argument at place `at`: either some of the text is used up, or
      the argument is done, together with the next one if it takes it. */
  ghost predicate Progress(
      cfg: Config, now: seq<string>, at: nat, text: string, takes: bool, optind: nat, nextchar: string,
      optarg: Argument)
  {
    && at < |now| && !IsNonOption(now[at])
    && if nextchar != "" then
         optind == at && |nextchar| < |text| && TakesNext(cfg, now[at], nextchar) == takes
       else if at + 1 < |now| && takes then
         optind == at + 2 && optarg == Arg(now[at + 1])
       else
         optind == at + 1
  }

  /** What is left of the text, and whether the next argument is taken, by the kind of the option. */
  lemma TextCases(cfg: Config, arg: string, text: string)
    requires !IsNonOption(arg) && text != ""
    ensures !IsLong(cfg, arg, text) ==> TakesNext(cfg, arg, text) == ShortTakesNext(cfg, arg, text)
    ensures IsLong(cfg, arg, text) ==> TriesLong(cfg, arg)
  {
  }

  lemma {:induction false} NameEnds(text: string, n: nat)
    requires n <= |text| && (n < |text| ==> text[n] == '=') && forall i :: 0 <= i < n ==> text[i] != '='
    ensures NameLength(text) == n
  {
  }

  lemma MatchInRange(cfg: Config, name: string)
    ensures LongMatch(cfg, name).Found? ==> LongMatch(cfg, name).index < |cfg.longopts|
  {
  }

  // ---------------------------------------------------------------------------
  // The scanner

  class Scanner {
    const cfg: Config
    const ordering: Ordering
    var optind: nat
    var nextchar: string          // what is left of the option argument at optind
    var first: nat                // __first_nonopt
    var last: nat                 // __last_nonopt
    var optarg: Argument
    var optopt: int

    /** _getopt_initialize_a: a leading '-' or '+' chooses the ordering. */
    constructor (optstring: string, hasLong: bool, longopts: seq<LongOption>, longOnly: bool, posixlyCorrect: bool)
      ensures optind == 1 && first == 1 && last == 1 && nextchar == "" && optopt == '?' as int
      ensures cfg.hasLong == hasLong && cfg.longopts == longopts && cfg.longOnly == longOnly
      ensures CharAt(optstring, 0, '-') || CharAt(optstring, 0, '+') ==> cfg.optstring == optstring[1..]
      ensures !(CharAt(optstring, 0, '-') || CharAt(optstring, 0, '+')) ==> cfg.optstring == optstring
      ensures ordering == ReturnInOrder <==> CharAt(optstring, 0, '-')
      ensures ordering == RequireOrder <==> CharAt(optstring, 0, '+') || (posixlyCorrect && !CharAt(optstring, 0, '-'))
    {
      optind, first, last, nextchar := 1, 1, 1, "";
      optarg, optopt := NoArg, '?' as int;
      if CharAt(optstring, 0, '-') {
        ordering := ReturnInOrder;
        cfg := Config(optstring[1..], hasLong, longopts, longOnly);
      } else if CharAt(optstring, 0, '+') {
        ordering := RequireOrder;
        cfg := Config(optstring[1..], hasLong, longopts, longOnly);
      } else {
        ordering := if posixlyCorrect then RequireOrder else Permute;
        cfg := Config(optstring, hasLong, longopts, longOnly);
      }
    }

    /** Inside an argument, what is left takes the next argument exactly when the whole does. */
    ghost predicate InArgument(now: seq<string>)
      reads this
    {
      nextchar != "" ==>
        && optind < |now| && !IsNonOption(now[optind]) && now[optind] != "--"
        && TakesNext(cfg, now[optind], nextchar) == TakesNext(cfg, now[optind], OptionText(cfg, now[optind]))
    }

    /** The scan of args in permuting order has got this far. */
    ghost predicate Permuting(args: seq<string>, now: seq<string>)
      reads this
    {
      Scanned(cfg, args, now, first, last, optind) && InArgument(now)
    }

    /** The search in the list of long options: an exact name, or else the first that it abbreviates. */
    method FindLong(name: string) returns (r: Match)
      ensures r == LongMatch(cfg, name)
    {
      var found := false;
      var index: nat := 0;
      var ambiguous := false;
      for i := 0 to |cfg.longopts|
        invariant found ==> index < i && index == FirstPrefix(cfg.longopts, name, 0)
        invariant !found ==> forall j :: 0 <= j < i ==> !(name <= cfg.longopts[j].name)
        invariant forall j :: 0 <= j < i ==> cfg.longopts[j].name != name
        invariant !found ==> !ambiguous
        invariant ambiguous <==> found && exists j :: index < j < i && Rival(cfg, name, index, j)
      {
        var p := cfg.longopts[i];
        assert found ==> (Rival(cfg, name, index, i) <==> name <= p.name && Conflicts(cfg, cfg.longopts[index], p));
        if name <= p.name {
          if |name| == |p.name| {
            assert name == p.name;
            ExactIs(cfg.longopts, name, i);
            return Found(i);
          } else if !found {
            PrefixIs(cfg.longopts, name, i);
            found, index := true, i;
          } else if Conflicts(cfg, cfg.longopts[index], p) {
            ambiguous := true;
          }
        }
      }
      if ambiguous { return Ambiguous; }
      if found { return Found(index); }
      return NotFound;
    }

    /** The last part of _getopt_internal_r_a: one short option, without the "W;" extension. */
    method ShortOption(argv: array<string>) returns (ret: int)
      requires NoExtension(cfg.optstring)
      requires nextchar != "" && optind < argv.Length && !IsNonOption(argv[optind]) && optarg == NoArg
      modifies `optind, `nextchar, `optarg, `optopt
      ensures Progress(cfg, argv[..], old(optind), old(nextchar), ShortTakesNext(cfg, argv[old(optind)], old(nextchar)),
        optind, nextchar, optarg)
      ensures ret == ShortResult(cfg, old(nextchar), old(optind) + 1 < argv.Length)
      ensures optopt == ShortComplaint(cfg, old(nextchar), old(optind) + 1 < argv.Length, old(optopt))
      ensures optind < old(optind) + 2 ==> optarg == ShortAttached(cfg, old(nextchar))
      ensures nextchar == ShortLeft(cfg, old(nextchar))
    {
      hide IsNonOption;
      var c := nextchar[0];
      var temp := IndexOf(cfg.optstring, c);
      nextchar := nextchar[1..];
      if nextchar == "" { optind := optind + 1; }
      if temp == |cfg.optstring| || c == ':' || c == ';' {
        optopt := c as int;
        return '?' as int;
      }
      assert !(c == 'W' && CharAt(cfg.optstring, temp + 1, ';'));
      ret := c as int;
      if CharAt(cfg.optstring, temp + 1, ':') {
        if CharAt(cfg.optstring, temp + 2, ':') {
          if nextchar != "" {
            optarg := Arg(nextchar);
            optind := optind + 1;
          } else {
            optarg := NoArg;
          }
          nextchar := "";
        } else {
          if nextchar != "" {
            optarg := Arg(nextchar);
            optind := optind + 1;
          } else if optind == argv.Length {
            optopt := c as int;
            ret := if CharAt(cfg.optstring, 0, ':') then ':' as int else '?' as int;
          } else {
            optarg := Arg(argv[optind]);
            optind := optind + 1;
          }
          nextchar := "";
        }
      }
    }

    /** The long-option part. Without a match the text may be left for the short options. */
    method LongOptionStep(argv: array<string>) returns (handled: bool, ret: int)
      requires nextchar != "" && optind < argv.Length && !IsNonOption(argv[optind]) && optarg == NoArg
      requires TriesLong(cfg, argv[optind])
      modifies `optind, `nextchar, `optarg, `optopt
      ensures handled ==> Progress(cfg, argv[..], old(optind), old(nextchar),
        TakesNext(cfg, argv[old(optind)], old(nextchar)), optind, nextchar, optarg)
      ensures handled ==> nextchar == "" && ret == LongResult(cfg, old(nextchar), old(optind) + 1 < argv.Length)
      ensures handled && optind < old(optind) + 2 ==> optarg == LongAttached(cfg, old(nextchar))
      ensures optopt ==
        if handled then LongComplaint(cfg, old(nextchar), old(optind) + 1 < argv.Length, old(optopt)) else old(optopt)
      ensures handled <==> IsLong(cfg, argv[old(optind)], old(nextchar))
      ensures !handled ==> optind == old(optind) && nextchar == old(nextchar) && optarg == NoArg
      ensures !handled ==> LongMatch(cfg, nextchar[..NameLength(nextchar)]).NotFound?
      ensures !handled ==> FallsBack(cfg, argv[optind], nextchar)
    {
      hide LongMatch, TriesLong;
      ghost var text := nextchar;
      var arg := argv[optind];
      var nameend := 0;
      while nameend < |nextchar| && nextchar[nameend] != '='
        invariant nameend <= |nextchar| && forall i :: 0 <= i < nameend ==> nextchar[i] != '='
      {
        nameend := nameend + 1;
      }
      NameEnds(nextchar, nameend);
      var found := FindLong(nextchar[..nameend]);
      MatchInRange(cfg, nextchar[..nameend]);
      handled := true;
      match found
      case Ambiguous =>
        nextchar := "";
        optind := optind + 1;
        optopt := 0;
        ret := '?' as int;
      case Found(i) =>
        var p := cfg.longopts[i];
        optind := optind + 1;
        ret := if p.flag != 0 then 0 else p.val;
        if nameend < |nextchar| {
          if p.hasArg != 0 {
            optarg := Arg(nextchar[nameend + 1..]);
          } else {
            optopt := p.val;
            ret := '?' as int;
          }
        } else if p.hasArg == 1 {
          if optind < argv.Length {
            optarg := Arg(argv[optind]);
            optind := optind + 1;
          } else {
            optopt := p.val;
            ret := if CharAt(cfg.optstring, 0, ':') then ':' as int else '?' as int;
          }
        }
        nextchar := "";
      case NotFound =>
        if !cfg.longOnly || arg[1] == '-' || nextchar[0] !in cfg.optstring {
          nextchar := "";
          optind := optind + 1;
          optopt := 0;
          ret := '?' as int;
        } else {
          handled := false;
          ret := 0;
        }
    }

    /** One option of the argument at optind. */
    method Element(argv: array<string>) returns (ret: int)
      requires NoExtension(cfg.optstring)
      requires nextchar != "" && optind < argv.Length && !IsNonOption(argv[optind]) && optarg == NoArg
      modifies `optind, `nextchar, `optarg, `optopt
      ensures Progress(cfg, argv[..], old(optind), old(nextchar), TakesNext(cfg, argv[old(optind)], old(nextchar)),
        optind, nextchar, optarg)
      ensures nextchar == Leftover(cfg, argv[old(optind)], old(nextchar))
      ensures Report(ret, optarg, optopt)
        == OptionReport(cfg, argv[old(optind)], old(nextchar), Following(argv[..], old(optind)), old(optopt))
    {
      hide LongMatch, LongResult, LongAttached, LongComplaint, ShortResult, ShortAttached, ShortComplaint, TriesLong,
        FallsBack, TakesNext, ShortTakesNext, IsNonOption, ShortArity;
      ghost var arg, text := argv[optind], nextchar;
      TextCases(cfg, arg, text);
      if TriesLong(cfg, argv[optind]) {
        var handled;
        handled, ret := LongOptionStep(argv);
        if handled { return; }
      }
      ret := ShortOption(argv);
    }

    /** The "W;" extension when there are no long options: the rest of the argument is set aside, but the
        argument itself is not. */
    method ExtensionOption() returns (ret: int)
      requires !cfg.hasLong && !NoExtension(cfg.optstring) && nextchar != "" && nextchar[0] == 'W'
      modifies `optind, `nextchar
      ensures nextchar == "" && ret == 'W' as int
      ensures optind == if |old(nextchar)| == 1 then old(optind) + 1 else old(optind)
    {
      nextchar := nextchar[1..];
      if nextchar == "" { optind := optind + 1; }
      nextchar := "";
      ret := 'W' as int;
    }

    /** A whole call on an argument such as "-Wfoo" then leaves everything as it was. */
    method ExtensionCall(argv: array<string>) returns (ret: int)
      requires !cfg.hasLong && !NoExtension(cfg.optstring) && nextchar == ""
      requires first <= last == optind < argv.Length && |argv[optind]| > 2 && argv[optind][..2] == "-W"
      modifies this
      ensures ret == 'W' as int && optind == old(optind) && nextchar == "" && first == old(first) && last == old(last)
    {
      optarg := NoArg;
      assert argv[optind][0] == argv[optind][..2][0] == '-' && argv[optind][1] == argv[optind][..2][1] == 'W';
      if ordering == Permute {
        assert !(last != optind);
        assert !IsNonOption(argv[optind]);
        last := optind;
      }
      assert argv[optind] != "--" && optind != argv.Length;
      nextchar := OptionText(cfg, argv[optind]);
      ret := ExtensionOption();
    }

    /** So the next call does the same again: no number of calls ends the scan. */
    method ExtensionRepeats(argv: array<string>, n: nat) returns (rets: seq<int>)
      requires !cfg.hasLong && !NoExtension(cfg.optstring) && nextchar == ""
      requires first <= last == optind < argv.Length && |argv[optind]| > 2 && argv[optind][..2] == "-W"
      modifies this
      ensures rets == seq(n, _ => 'W' as int) && optind == old(optind) && nextchar == ""
    {
      rets := [];
      for k := 0 to n
        invariant rets == seq(k, _ => 'W' as int)
        invariant optind == old(optind) && nextchar == "" && first == old(first) && last == old(last)
      {
        var ret := ExtensionCall(argv);
        rets := rets + [ret];
      }
    }

    /** The first part of _getopt_internal_r_a, when the last argument is done: in permuting order the
        options found move before the operands, and the operands that follow are stepped over. */
    method Advance(argv: array<string>, ghost args: seq<string>)
      requires ordering == Permute && nextchar == "" && Permuting(args, argv[..])
      modifies argv, `optind, `first, `last
      ensures Permuting(args, argv[..]) && old(optind) <= optind
      ensures 1 <= first <= last == optind <= argv.Length == |args|
      ensures optind < argv.Length ==> !IsNonOption(argv[optind])
      ensures forall prev ::
        Returned(cfg, Permute, args, optind, prev) == Returned(cfg, Permute, args, old(optind), prev)
    {
      hide Scanned, Rotated, IsNonOption, Returned;
      ScanBounds(cfg, args, argv[..], first, last, optind);
      ScanExchange(cfg, args, argv[..], first, last, optind);
      if first != last && last != optind {
        Exchange(argv, first, last, optind);
        first := first + (optind - last);
        last := optind;
      } else if last != optind {
        first := optind;
      }
      ghost var now := argv[..];
      while optind < argv.Length && IsNonOption(argv[optind])
        invariant argv[..] == now && optind <= argv.Length && old(optind) <= optind
        invariant Scanned(cfg, args, now, first, optind, optind)
        invariant forall prev ::
          Returned(cfg, Permute, args, optind, prev) == Returned(cfg, Permute, args, old(optind), prev)
      {
        ScanBounds(cfg, args, now, first, optind, optind);
        DashesAreNoOperand(argv[optind]);
        NothingReported(cfg, args, optind);
        ScanOperand(cfg, args, now, first, optind);
        optind := optind + 1;
      }
      last := optind;
      ScanBounds(cfg, args, argv[..], first, last, optind);
    }

    /** A double dash at optind ends the options. */
    method EndOptions(argv: array<string>, ghost args: seq<string>)
      requires optind < argv.Length && argv[optind] == "--"
      requires ordering == Permute ==> Scanned(cfg, args, argv[..], first, last, optind) && last == optind
      requires ordering != Permute ==> first == last <= optind
      modifies argv, `optind, `first, `last
      ensures optind == argv.Length && first <= last == optind
      ensures ordering == Permute ==> Finished(cfg, args, argv[..], first)
      ensures ordering != Permute ==> argv[..] == old(argv[..]) && first == old(optind) + 1
    {
      hide Scanned, Rotated, Finished;
      if ordering == Permute {
        ScanBounds(cfg, args, argv[..], first, last, optind);
        ScanDashes(cfg, args, argv[..], first, optind);
      }
      optind := optind + 1;
      if first != last && last != optind {
        Exchange(argv, first, last, optind);
        first := first + (optind - last);
        last := optind;
      } else if first == last {
        first := optind;
      }
      last := argv.Length;
      optind := argv.Length;
    }

    /** In the orderings that do not permute, operands are never collected. */
    ghost predicate InOrder(now: seq<string>)
      reads this
    {
      first == last <= optind <= |now| && InArgument(now)
    }

    /** Some progress since a state with these values of optind and nextchar. */
    ghost predicate Further(optind0: nat, nextchar0: string)
      reads this
    {
      optind > optind0 || (optind == optind0 && nextchar != "" && (nextchar0 == "" || |nextchar| < |nextchar0|))
    }

    /** _getopt_internal_r_a. In permuting order the scan goes on, or it is over and the command line
        is completely sorted; in the other orders the command line does not change. In every order the call
        reports the next element of what the command line stands for. */
    method Next(argv: array<string>, ghost args: seq<string>) returns (done: bool, ret: int)
      requires NoExtension(cfg.optstring)
      requires ordering == Permute ==> Permuting(args, argv[..])
      requires ordering != Permute ==> InOrder(argv[..]) && args == argv[..]
      modifies argv, this
      ensures done ==> Remaining(cfg, ordering, args, old(optind), old(nextchar), old(optopt)) == []
      ensures !done ==>
        Remaining(cfg, ordering, args, old(optind), old(nextchar), old(optopt))
          == [Report(ret, optarg, optopt)] + Remaining(cfg, ordering, args, optind, nextchar, optopt)
      ensures done ==> ret == -1
      ensures ordering == Permute && done ==> Finished(cfg, args, argv[..], optind)
      ensures ordering == Permute && !done ==> Permuting(args, argv[..]) && Further(old(optind), old(nextchar))
      ensures ordering != Permute ==> argv[..] == old(argv[..])
      ensures ordering != Permute && !done ==> InOrder(argv[..]) && Further(old(optind), old(nextchar))
      ensures ordering == RequireOrder && done && old(nextchar) == "" ==> StopsAt(argv[..], old(optind), optind)
    {
      hide Scanned, Finished, IsNonOption, TakesNext, Returned, Remaining, OptionReport, Leftover, Following;
      RemainingStart(cfg, ordering, args, optind, optopt);
      if ordering == Permute { ScanBounds(cfg, args, argv[..], first, last, optind); }
      if argv.Length < 1 {
        NothingToReport(cfg, ordering, args, optind, optopt);
        return true, -1;
      }
      optarg := NoArg;
      if nextchar == "" {
        if ordering == Permute {
          Advance(argv, args);
          ScanBounds(cfg, args, argv[..], first, last, optind);
        }
        ReportsBegin(cfg, ordering, args, argv[..], optind, optopt);
        if optind != argv.Length && argv[optind] == "--" {
          EndOptions(argv, args);
        } else if ordering == Permute && optind == argv.Length {
          ScanEnd(cfg, args, argv[..], first, last);
        }
        if optind == argv.Length {
          if first != last { optind := first; }
          return true, -1;
        }
        if IsNonOption(argv[optind]) {
          if ordering == RequireOrder { return true, -1; }
          optarg := Arg(argv[optind]);
          optind := optind + 1;
          RemainingStart(cfg, ordering, args, optind, optopt);
          return false, 1;
        }
        TextLeft(cfg, argv[optind]);
        nextchar := OptionText(cfg, argv[optind]);
      }
      done := false;
      ghost var at, text, now, prev := optind, nextchar, argv[..], optopt;
      ret := Element(argv);
      if ordering == Permute {
        ElementDone(cfg, args, now, first, last, at, text, optind, nextchar, optarg);
        ScanBounds(cfg, args, now, first, last, at);
        SameFollowing(cfg, args, now, first, last, at);
      }
      ReportsStep(cfg, ordering, args, now, at, text, optind, nextchar, Report(ret, optarg, optopt), prev);
    }
  }

  /** A whole scan in permuting order. At the end the options with their arguments come first and the
      operands last, each in their original order; optind is the place of the first operand, and argv
      is a permutation of the command line. The calls report every option of the command line with its
      argument, in order. */
  method Scan(argv: array<string>, optstring: string, hasLong: bool, longopts: seq<LongOption>, longOnly: bool)
    returns (cfg: Config, optind: nat, reports: seq<Report>)
    requires argv.Length >= 1 && !CharAt(optstring, 0, '-') && !CharAt(optstring, 0, '+') && NoExtension(optstring)
    modifies argv
    ensures cfg == Config(optstring, hasLong, longopts, longOnly)
    ensures
      var args := old(argv[..]);
      && argv[..] == [args[0]] + Options(cfg, args, 1) + Operands(cfg, args, 1)
      && optind == 1 + |Options(cfg, args, 1)|
      && multiset(argv[..]) == multiset(args)
      && reports == Returned(cfg, Permute, args, 1, '?' as int)
  {
    hide Options, Operands, Scanned, Finished, Returned, Remaining, IsNonOption, TakesNext, CharAt, NoExtension;
    ghost var args := argv[..];
    var d := new Scanner(optstring, hasLong, longopts, longOnly, false);
    cfg := d.cfg;
    ScanStart(cfg, args);
    var done, ret := false, 0;
    reports := [];
    RemainingStart(cfg, Permute, args, 1, '?' as int);
    while !done
      invariant Returned(cfg, Permute, args, 1, '?' as int)
        == reports + if done then [] else Remaining(cfg, Permute, args, d.optind, d.nextchar, d.optopt)
      invariant !done ==> d.Permuting(args, argv[..])
      invariant done ==> Finished(cfg, args, argv[..], d.optind)
      decreases !done, argv.Length - d.optind, if d.nextchar == "" then 1 else 0, |d.nextchar|
    {
      ScanBounds(cfg, args, argv[..], d.first, d.last, d.optind);
      done, ret := d.Next(argv, args);
      if !done {
        ScanBounds(cfg, args, argv[..], d.first, d.last, d.optind);
        var report := Report(ret, d.optarg, d.optopt);
        ConcatReports(reports, [report], Remaining(cfg, Permute, args, d.optind, d.nextchar, d.optopt));
        reports := reports + [report];
      }
    }
    optind := d.optind;
    FinishedMeans(cfg, args, argv[..], optind);
  }

  /** A whole scan in the orders that do not permute: the command line stays as it is. In the strict order the
      scan ends at the first operand; in the other one operands are reported like options, in their places. */
  method ScanInOrder(
      argv: array<string>, optstring: string, hasLong: bool, longopts: seq<LongOption>, longOnly: bool,
      posixlyCorrect: bool)
    returns (cfg: Config, ord: Ordering, reports: seq<Report>)
    requires argv.Length >= 1 && (CharAt(optstring, 0, '-') || CharAt(optstring, 0, '+') || posixlyCorrect)
    requires
      NoExtension(if CharAt(optstring, 0, '-') || CharAt(optstring, 0, '+') then optstring[1..] else optstring)
    modifies argv
    ensures ord == if CharAt(optstring, 0, '-') then ReturnInOrder else RequireOrder
    ensures cfg.optstring ==
      if CharAt(optstring, 0, '-') || CharAt(optstring, 0, '+') then optstring[1..] else optstring
    ensures cfg == Config(cfg.optstring, hasLong, longopts, longOnly)
    ensures argv[..] == old(argv[..]) && reports == Returned(cfg, ord, argv[..], 1, '?' as int)
  {
    hide Returned, Remaining, IsNonOption, TakesNext, CharAt, NoExtension, StopsAt;
    ghost var args := argv[..];
    var d := new Scanner(optstring, hasLong, longopts, longOnly, posixlyCorrect);
    cfg, ord := d.cfg, d.ordering;
    var done, ret := false, 0;
    reports := [];
    RemainingStart(cfg, ord, args, 1, '?' as int);
    while !done
      invariant argv[..] == args
      invariant Returned(cfg, ord, args, 1, '?' as int)
        == reports + if done then [] else Remaining(cfg, ord, args, d.optind, d.nextchar, d.optopt)
      invariant !done ==> d.InOrder(argv[..])
      decreases !done, argv.Length - d.optind, if d.nextchar == "" then 1 else 0, |d.nextchar|
    {
      done, ret := d.Next(argv, args);
      if !done {
        var report := Report(ret, d.optarg, d.optopt);
        ConcatReports(reports, [report], Remaining(cfg, ord, args, d.optind, d.nextchar, d.optopt));
        reports := reports + [report];
      }
    }
  }

  /** The command line prog -Wfoo with the option string "W;" is never done. */
  method EndlessScan(n: nat) returns (rets: seq<int>)
    ensures rets == seq(n, _ => 'W' as int)
  {
    var argv := new string[2](_ => "prog");
    argv[1] := "-Wfoo";
    var d := new Scanner("W;", false, [], false, false);
    rets := d.ExtensionRepeats(argv, n);
  }

  lemma FinishedMeans(cfg: Config, args: seq<string>, now: seq<string>, first: nat)
    requires Finished(cfg, args, now, first)
    ensures now == [args[0]] + Options(cfg, args, 1) + Operands(cfg, args, 1) && first == 1 + |Options(cfg, args, 1)|
    ensures multiset(now) == multiset(args)
  {
    hide Options, Operands;
    Partition(cfg, args, 1);
    SameArguments(args, Options(cfg, args, 1), Operands(cfg, args, 1));
  }

  lemma SameArguments(args: seq<string>, opts: seq<string>, rest: seq<string>)
    requires |args| >= 1 && Bag(opts + rest) == Bag(args[1..])
    ensures multiset([args[0]] + opts + rest) == multiset(args)
  {
    assert args == [args[0]] + args[1..];
    assert [args[0]] + opts + rest == [args[0]] + (opts + rest);
  }

  /** In the strict order the scan stops at the first operand, or after a double dash, or at the end. */
  ghost predicate StopsAt(now: seq<string>, at: nat, optind: nat)
  {
    at <= optind <= |now| &&
    if at < |now| && now[at] == "--" then optind == at + 1
    else optind == at && (at < |now| ==> IsNonOption(now[at]))
  }

  lemma NothingReported(cfg: Config, args: seq<string>, i: nat)
    requires i < |args| && args[i] != "--" && IsNonOption(args[i])
    ensures forall prev :: Returned(cfg, Permute, args, i, prev) == Returned(cfg, Permute, args, i + 1, prev)
  {
  }

  lemma NothingToReport(cfg: Config, ord: Ordering, args: seq<string>, i: nat, prev: int)
    requires i >= |args|
    ensures forall text :: Remaining(cfg, ord, args, i, text, prev) == []
  {
  }

  lemma RemainingStart(cfg: Config, ord: Ordering, args: seq<string>, i: nat, prev: int)
    ensures Remaining(cfg, ord, args, i, "", prev) == Returned(cfg, ord, args, i, prev)
  {
  }

  /** At the end and at a double dash nothing is left to report; at an option its text is, and an operand ends the
      scan or is reported. */
  lemma ReportsBegin(cfg: Config, ord: Ordering, args: seq<string>, now: seq<string>, optind: nat, prev: int)
    requires optind <= |now| == |args| && (optind < |now| ==> now[optind] == args[optind])
    requires ord == Permute && optind < |now| ==> !IsNonOption(now[optind])
    ensures optind == |now| || now[optind] == "--" ==> Returned(cfg, ord, args, optind, prev) == []
    ensures optind < |now| && IsNonOption(now[optind]) ==>
      Returned(cfg, ord, args, optind, prev) ==
        if ord == RequireOrder then []
        else [Report(1, Arg(now[optind]), prev)] + Returned(cfg, ord, args, optind + 1, prev)
    ensures optind < |now| && now[optind] != "--" && !IsNonOption(now[optind]) ==>
      Returned(cfg, ord, args, optind, prev) == Remaining(cfg, ord, args, optind, OptionText(cfg, now[optind]), prev)
  {
    hide ElementReports, Width, IsNonOption;
    if optind < |now| {
      DashesAreNoOperand(now[optind]);
      if now[optind] != "--" && !IsNonOption(now[optind]) { TextLeft(cfg, now[optind]); }
    }
  }

  lemma ReportsStep(
      cfg: Config, ord: Ordering, args: seq<string>, now: seq<string>, at: nat, text: string, optind: nat,
      nextchar: string, r: Report, prev: int)
    requires text != "" && |args| == |now| && Following(args, at) == Following(now, at)
    requires at < |now| && args[at] == now[at] && !IsNonOption(now[at]) && now[at] != "--"
    requires Width(cfg, args, at) == if at + 1 < |now| && TakesNext(cfg, now[at], text) then 2 else 1
    requires Progress(cfg, now, at, text, TakesNext(cfg, now[at], text), optind, nextchar, r.optarg)
    requires nextchar == Leftover(cfg, now[at], text)
    requires r == OptionReport(cfg, now[at], text, Following(now, at), prev)
    ensures Remaining(cfg, ord, args, at, text, prev) == [r] + Remaining(cfg, ord, args, optind, nextchar, r.optopt)
  {
    hide IsNonOption, TakesNext, OptionReport, Leftover, Returned, Width;
    var rest := ElementReports(cfg, args[at], nextchar, Following(args, at), r.optopt);
    assert LastComplaint([r] + rest, prev) == LastComplaint(rest, r.optopt);
    ConcatReports([r], rest, Returned(cfg, ord, args, at + Width(cfg, args, at), LastComplaint(rest, r.optopt)));
  }

  lemma ConcatReports(a: seq<Report>, b: seq<Report>, c: seq<Report>)
    ensures (a + b) + c == a + (b + c)
    ensures [] + c == c
  {
  }

  lemma SameFollowing(cfg: Config, args: seq<string>, now: seq<string>, first: nat, last: nat, at: nat)
    requires Scanned(cfg, args, now, first, last, at)
    ensures Following(args, at) == Following(now, at)
  {
    hide Options, Operands;
    if at + 1 < |now| { assert now[at + 1] == now[at..][1] == args[at..][1]; }
  }

  lemma TextLeft(cfg: Config, arg: string)
    requires !IsNonOption(arg) && arg != "--"
    ensures OptionText(cfg, arg) != ""
  {
  }

  lemma ElementDone(
      cfg: Config, args: seq<string>, now: seq<string>, first: nat, last: nat, at: nat, text: string,
      optind: nat, nextchar: string, optarg: Argument)
    requires Scanned(cfg, args, now, first, last, at)
    requires at < |now| && !IsNonOption(now[at]) && now[at] != "--"
    requires TakesNext(cfg, now[at], text) == TakesNext(cfg, now[at], OptionText(cfg, now[at]))
    requires Progress(cfg, now, at, text, TakesNext(cfg, now[at], text), optind, nextchar, optarg)
    ensures Scanned(cfg, args, now, first, last, optind)
  {
    hide Scanned, IsNonOption, TakesNext;
    ScanBounds(cfg, args, now, first, last, at);
    ScanOption(cfg, args, now, first, last, at);
  }

  lemma ScanBounds(cfg: Config, args: seq<string>, now: seq<string>, first: nat, last: nat, optind: nat)
    requires Scanned(cfg, args, now, first, last, optind)
    ensures 1 <= first <= last <= optind <= |args| == |now|
    ensures optind < |now| ==> now[optind] == args[optind]
    ensures last == optind && first == last ==> Scanned(cfg, args, now, optind, optind, optind)
  {
    hide Options, Operands;
    if optind < |now| { assert now[optind] == now[optind..][0] == args[optind..][0]; }
  }

  lemma DashesAreNoOperand(arg: string)
    ensures IsNonOption(arg) ==> arg != "--"
  {
  }

  lemma ExactIs(longopts: seq<LongOption>, name: string, i: nat)
    requires i < |longopts| && longopts[i].name == name && forall j :: 0 <= j < i ==> longopts[j].name != name
    ensures FirstExact(longopts, name, 0) == i
  {
  }

  lemma PrefixIs(longopts: seq<LongOption>, name: string, i: nat)
    requires i < |longopts| && name <= longopts[i].name && forall j :: 0 <= j < i ==> !(name <= longopts[j].name)
    ensures FirstPrefix(longopts, name, 0) == i
  {
  }
}
