/** What getopt does to a command line, said without its bookkeeping: one pass over the arguments
    that puts each of them on the list of options and their arguments or on the list of the rest. */
module GetoptSpec {

  /** What happens to operands between the options. */
  datatype Ordering = RequireOrder | Permute | ReturnInOrder

  /** A long option; flag names the variable that it sets, 0 standing for none. */
  datatype LongOption = LongOption(name: string, hasArg: int, flag: int, val: int)

  /** The option string without its leading ordering character, and the long options if any. */
  datatype Config = Config(optstring: string, hasLong: bool, longopts: seq<LongOption>, longOnly: bool)

  // ---------------------------------------------------------------------------
  // Short options

  datatype Arity = Unknown | NoArgument | OptionalArgument | RequiredArgument

  /** strchr: the first place of c, or the length of s. */
  function IndexOf(s: string, c: char): (i: nat)
    ensures i <= |s| && (i < |s| ==> s[i] == c) && (i < |s| <==> c in s)
  {
    if s == "" then 0 else if s[0] == c then 0 else 1 + IndexOf(s[1..], c)
  }

  predicate CharAt(s: string, i: nat, c: char)
  {
    i < |s| && s[i] == c
  }

  function ShortArity(optstring: string, c: char): Arity
  {
    var i := IndexOf(optstring, c);
    if i == |optstring| || c == ':' || c == ';' then Unknown
    else if !CharAt(optstring, i + 1, ':') then NoArgument
    else if CharAt(optstring, i + 2, ':') then OptionalArgument
    else RequiredArgument
  }

  // ---------------------------------------------------------------------------
  // Long options

  datatype Match = Found(index: nat) | Ambiguous | NotFound

  /** The name before the equals sign. */
  function NameLength(text: string): (n: nat)
    ensures n <= |text| && (n < |text| ==> text[n] == '=')
    ensures forall i :: 0 <= i < n ==> text[i] != '='
  {
    if text == "" || text[0] == '=' then 0 else 1 + NameLength(text[1..])
  }

  /** The first option from k on with exactly this name. */
  function FirstExact(longopts: seq<LongOption>, name: string, k: nat): (i: nat)
    requires k <= |longopts|
    ensures k <= i <= |longopts| && (i < |longopts| ==> longopts[i].name == name)
    ensures forall j :: k <= j < i ==> longopts[j].name != name
    decreases |longopts| - k
  {
    if k < |longopts| && longopts[k].name != name then FirstExact(longopts, name, k + 1) else k
  }

  /** The first option from k on whose name begins this way. */
  function FirstPrefix(longopts: seq<LongOption>, name: string, k: nat): (i: nat)
    requires k <= |longopts|
    ensures k <= i <= |longopts| && (i < |longopts| ==> name <= longopts[i].name)
    ensures forall j :: k <= j < i ==> !(name <= longopts[j].name)
    decreases |longopts| - k
  {
    if k < |longopts| && !(name <= longopts[k].name) then FirstPrefix(longopts, name, k + 1) else k
  }

  /** Option q could not stand in for option p. */
  predicate Conflicts(cfg: Config, p: LongOption, q: LongOption)
  {
    cfg.longOnly || p.hasArg != q.hasArg || p.flag != q.flag || p.val != q.val
  }

  predicate Rival(cfg: Config, name: string, f: nat, j: nat)
    requires f < |cfg.longopts| && j < |cfg.longopts|
  {
    name <= cfg.longopts[j].name && Conflicts(cfg, cfg.longopts[f], cfg.longopts[j])
  }

  /** An exact name wins; an abbreviation must not stand for options that differ. */
  function LongMatch(cfg: Config, name: string): Match
  {
    var n := |cfg.longopts|;
    var e := FirstExact(cfg.longopts, name, 0);
    var f := FirstPrefix(cfg.longopts, name, 0);
    if e < n then Found(e)
    else if f == n then NotFound
    else if exists j :: f < j < n && Rival(cfg, name, f, j) then Ambiguous
    else Found(f)
  }

  // ---------------------------------------------------------------------------
  // Arguments

  /** Arguments that are not options: they do not start with a dash, or are only a dash. */
  predicate IsNonOption(arg: string)
  {
    arg == "" || arg[0] != '-' || |arg| == 1
  }

  /** The text after the dash, or after both dashes when there are long options. */
  function OptionText(cfg: Config, arg: string): (text: string)
    requires !IsNonOption(arg)
  {
    if cfg.hasLong && arg[1] == '-' then arg[2..] else arg[1..]
  }

  /** The rest of the argument is tried as a long option first. */
  predicate TriesLong(cfg: Config, arg: string)
    requires !IsNonOption(arg)
  {
    cfg.hasLong && (arg[1] == '-' || (cfg.longOnly && (|arg| > 2 || arg[1] !in cfg.optstring)))
  }

  /** When no long option fits, a single-dash argument may still be short options. */
  predicate FallsBack(cfg: Config, arg: string, text: string)
    requires !IsNonOption(arg) && text != ""
  {
    cfg.longOnly && arg[1] != '-' && text[0] in cfg.optstring
  }

  /** What is left of an option argument, text, makes getopt take the next argument as well. */
  predicate TakesNext(cfg: Config, arg: string, text: string)
    requires !IsNonOption(arg)
    decreases |text|
  {
    if text == "" then false
    else if TriesLong(cfg, arg) then
      match LongMatch(cfg, text[..NameLength(text)])
      case Found(i) => NameLength(text) == |text| && i < |cfg.longopts| && cfg.longopts[i].hasArg == 1
      case Ambiguous => false
      case NotFound => FallsBack(cfg, arg, text) && ShortTakesNext(cfg, arg, text)
    else ShortTakesNext(cfg, arg, text)
  }

  predicate ShortTakesNext(cfg: Config, arg: string, text: string)
    requires !IsNonOption(arg) && text != ""
    decreases |text|, 0
  {
    match ShortArity(cfg.optstring, text[0])
    case Unknown => TakesNext(cfg, arg, text[1..])
    case NoArgument => TakesNext(cfg, arg, text[1..])
    case OptionalArgument => false
    case RequiredArgument => |text| == 1
  }

  /** How many arguments an option at place i takes up. */
  function Width(cfg: Config, args: seq<string>, i: nat): (w: nat)
    requires i < |args| && !IsNonOption(args[i])
    ensures 1 <= w <= 2 && i + w <= |args|
  {
    if i + 1 < |args| && TakesNext(cfg, args[i], OptionText(cfg, args[i])) then 2 else 1
  }

  /** From place i on: the options with their arguments, up to and including a double dash. */
  function Options(cfg: Config, args: seq<string>, i: nat): seq<string>
    decreases |args| - i
  {
    if i >= |args| then []
    else if args[i] == "--" then ["--"]
    else if IsNonOption(args[i]) then Options(cfg, args, i + 1)
    else args[i..i + Width(cfg, args, i)] + Options(cfg, args, i + Width(cfg, args, i))
  }

  /** From place i on: the arguments that are not options, and everything after a double dash. */
  function Operands(cfg: Config, args: seq<string>, i: nat): seq<string>
    decreases |args| - i
  {
    if i >= |args| then []
    else if args[i] == "--" then args[i + 1..]
    else if IsNonOption(args[i]) then [args[i]] + Operands(cfg, args, i + 1)
    else Operands(cfg, args, i + Width(cfg, args, i))
  }

  lemma OperandNext(cfg: Config, args: seq<string>, i: nat)
    requires i < |args| && args[i] != "--" && IsNonOption(args[i])
    ensures Options(cfg, args, i) == Options(cfg, args, i + 1)
    ensures Operands(cfg, args, i) == [args[i]] + Operands(cfg, args, i + 1)
  {
  }

  lemma OptionNext(cfg: Config, args: seq<string>, i: nat)
    requires i < |args| && args[i] != "--" && !IsNonOption(args[i])
    ensures
      var j := i + Width(cfg, args, i);
      && Options(cfg, args, i) == args[i..j] + Options(cfg, args, j)
      && Operands(cfg, args, i) == Operands(cfg, args, j)
  {
    hide Width;
  }

  lemma DashesNext(cfg: Config, args: seq<string>, i: nat)
    requires i < |args| && args[i] == "--"
    ensures Options(cfg, args, i) == ["--"] && Operands(cfg, args, i) == args[i + 1..]
  {
  }

  /** How often each argument occurs. */
  ghost function Bag(s: seq<string>): multiset<string>
  {
    multiset(s)
  }

  /** The two lists together hold every argument exactly as often as the command line does. */
  lemma {:induction false} Partition(cfg: Config, args: seq<string>, i: nat)
    requires i <= |args|
    ensures Bag(Options(cfg, args, i) + Operands(cfg, args, i)) == Bag(args[i..])
    ensures |Options(cfg, args, i)| + |Operands(cfg, args, i)| == |args| - i
    decreases |args| - i
  {
    hide Width, IsNonOption, Options, Operands, Bag;
    if i == |args| {
      NothingLeft(cfg, args);
      assert Options(cfg, args, i) + Operands(cfg, args, i) == args[i..];
    } else {
      if args[i] == "--" {
        DashesNext(cfg, args, i);
        Cut(args, i, 1);
        Join(["--"], args[i + 1..]);
      } else if IsNonOption(args[i]) {
        OperandNext(cfg, args, i);
        Partition(cfg, args, i + 1);
        Insert(Options(cfg, args, i + 1), [args[i]], Operands(cfg, args, i + 1));
        Cut(args, i, 1);
      } else {
        OptionNext(cfg, args, i);
        var w := Width(cfg, args, i);
        Partition(cfg, args, i + w);
        Prepend(args[i..i + w], Options(cfg, args, i + w), Operands(cfg, args, i + w));
        Cut(args, i, w);
      }
    }
  }

  lemma NothingLeft(cfg: Config, args: seq<string>)
    ensures Options(cfg, args, |args|) == [] && Operands(cfg, args, |args|) == []
  {
  }

  lemma Cut(args: seq<string>, i: nat, w: nat)
    requires i + w <= |args|
    ensures Bag(args[i..]) == Bag(args[i..i + w]) + Bag(args[i + w..])
    ensures w == 1 ==> args[i..i + w] == [args[i]]
  {
    assert args[i..] == args[i..i + w] + args[i + w..];
  }

  lemma Join(a: seq<string>, b: seq<string>)
    ensures Bag(a + b) == Bag(a) + Bag(b)
  {
  }

  lemma Insert(a: seq<string>, x: seq<string>, b: seq<string>)
    ensures Bag(a + (x + b)) == Bag(x) + Bag(a + b)
    ensures |a + (x + b)| == |x| + |a + b|
  {
  }

  lemma Prepend(x: seq<string>, a: seq<string>, b: seq<string>)
    ensures Bag((x + a) + b) == Bag(x) + Bag(a + b)
    ensures |(x + a) + b| == |x| + |a + b|
  {
  }

  // ---------------------------------------------------------------------------
  // What the calls report

  datatype Argument = NoArg | Arg(text: string)

  /** The result of a call, the option's argument, and the option last complained about. */
  datatype Report = Report(ret: int, optarg: Argument, optopt: int)

  /** The option string does not use the "W;" extension: its first 'W' is not followed by a semicolon. */
  predicate NoExtension(optstring: string)
  {
    !CharAt(optstring, IndexOf(optstring, 'W') + 1, ';')
  }

  /** The result for a long option: what the option says, or a complaint. */
  function LongResult(cfg: Config, text: string, more: bool): int
  {
    var n := NameLength(text);
    match LongMatch(cfg, text[..n])
    case Found(i) =>
      if i >= |cfg.longopts| then '?' as int
      else
        var p := cfg.longopts[i];
        if n < |text| && p.hasArg == 0 then '?' as int
        else if n == |text| && p.hasArg == 1 && !more then
          (if CharAt(cfg.optstring, 0, ':') then ':' as int else '?' as int)
        else if p.flag != 0 then 0 else p.val
    case _ => '?' as int
  }

  /** A complaint about a long option names its value, and 0 when no single one was found. */
  function LongComplaint(cfg: Config, text: string, more: bool, prev: int): int
  {
    var n := NameLength(text);
    match LongMatch(cfg, text[..n])
    case Found(i) =>
      if
        && i < |cfg.longopts|
        && ((n < |text| && cfg.longopts[i].hasArg == 0) || (n == |text| && cfg.longopts[i].hasArg == 1 && !more))
      then cfg.longopts[i].val else prev
    case _ => 0
  }

  /** A complaint about a short option names it: it is unknown, or its argument is missing. */
  function ShortComplaint(cfg: Config, text: string, more: bool, prev: int): int
    requires text != ""
  {
    match ShortArity(cfg.optstring, text[0])
    case Unknown => text[0] as int
    case RequiredArgument => if |text| == 1 && !more then text[0] as int else prev
    case _ => prev
  }

  /** The argument that the text itself carries: behind an equals sign, or behind a short option. */
  function LongAttached(cfg: Config, text: string): Argument
  {
    var n := NameLength(text);
    match LongMatch(cfg, text[..n])
    case Found(i) =>
      if n < |text| && i < |cfg.longopts| && cfg.longopts[i].hasArg != 0 then Arg(text[n + 1..]) else NoArg
    case _ => NoArg
  }

  function ShortAttached(cfg: Config, text: string): Argument
    requires text != ""
  {
    match ShortArity(cfg.optstring, text[0])
    case OptionalArgument => if |text| > 1 then Arg(text[1..]) else NoArg
    case RequiredArgument => if |text| > 1 then Arg(text[1..]) else NoArg
    case _ => NoArg
  }

  /** The text is handled as a long option. */
  predicate IsLong(cfg: Config, arg: string, text: string)
    requires !IsNonOption(arg) && text != ""
  {
    TriesLong(cfg, arg) && !(LongMatch(cfg, text[..NameLength(text)]).NotFound? && FallsBack(cfg, arg, text))
  }

  /** The result for the short option that begins the text: its character, or a complaint. */
  function ShortResult(cfg: Config, text: string, more: bool): int
    requires text != ""
  {
    match ShortArity(cfg.optstring, text[0])
    case Unknown => '?' as int
    case RequiredArgument =>
      if |text| == 1 && !more then (if CharAt(cfg.optstring, 0, ':') then ':' as int else '?' as int)
      else text[0] as int
    case _ => text[0] as int
  }

  /** What a short option leaves of the text. */
  function ShortLeft(cfg: Config, text: string): string
    requires text != ""
  {
    match ShortArity(cfg.optstring, text[0])
    case Unknown => text[1..]
    case NoArgument => text[1..]
    case _ => ""
  }

  /** What one call leaves of the text of an argument. */
  function Leftover(cfg: Config, arg: string, text: string): (rest: string)
    requires !IsNonOption(arg) && text != ""
    ensures |rest| < |text|
  {
    if IsLong(cfg, arg, text) then "" else ShortLeft(cfg, text)
  }

  /** The report of one call on the text; next is the following element of the command line, if any, and prev the
      option last complained about before. */
  function OptionReport(cfg: Config, arg: string, text: string, next: Argument, prev: int): Report
    requires !IsNonOption(arg) && text != ""
  {
    var own := if IsLong(cfg, arg, text) then LongAttached(cfg, text) else ShortAttached(cfg, text);
    Report(
      if IsLong(cfg, arg, text) then LongResult(cfg, text, next.Arg?) else ShortResult(cfg, text, next.Arg?),
      if Leftover(cfg, arg, text) == "" && TakesNext(cfg, arg, text) && next.Arg? then next else own,
      if IsLong(cfg, arg, text) then LongComplaint(cfg, text, next.Arg?, prev)
      else ShortComplaint(cfg, text, next.Arg?, prev))
  }

  /** The reports of all calls on the text of an argument. */
  function ElementReports(cfg: Config, arg: string, text: string, next: Argument, prev: int): seq<Report>
    requires !IsNonOption(arg)
    decreases |text|
  {
    if text == "" then []
    else
      var r := OptionReport(cfg, arg, text, next, prev);
      [r] + ElementReports(cfg, arg, Leftover(cfg, arg, text), next, r.optopt)
  }

  function LastComplaint(reports: seq<Report>, prev: int): int
  {
    if reports == [] then prev else reports[|reports| - 1].optopt
  }

  function Following(args: seq<string>, i: nat): Argument
  {
    if i + 1 < |args| then Arg(args[i + 1]) else NoArg
  }

  /** The reports of all calls from place i of the command line on. Operands are passed over, or end the scan, or
      are reported with the result 1. */
  function Returned(cfg: Config, ord: Ordering, args: seq<string>, i: nat, prev: int): seq<Report>
    decreases |args| - i
  {
    if i >= |args| || args[i] == "--" then []
    else if IsNonOption(args[i]) then
      match ord
      case Permute => Returned(cfg, ord, args, i + 1, prev)
      case RequireOrder => []
      case ReturnInOrder => [Report(1, Arg(args[i]), prev)] + Returned(cfg, ord, args, i + 1, prev)
    else
      var reports := ElementReports(cfg, args[i], OptionText(cfg, args[i]), Following(args, i), prev);
      reports + Returned(cfg, ord, args, i + Width(cfg, args, i), LastComplaint(reports, prev))
  }

  /** The reports still to come when text is left of the argument at place i. */
  function Remaining(cfg: Config, ord: Ordering, args: seq<string>, i: nat, text: string, prev: int): seq<Report>
  {
    if text == "" || i >= |args| || IsNonOption(args[i]) then Returned(cfg, ord, args, i, prev)
    else
      var reports := ElementReports(cfg, args[i], text, Following(args, i), prev);
      reports + Returned(cfg, ord, args, i + Width(cfg, args, i), LastComplaint(reports, prev))
  }
}
