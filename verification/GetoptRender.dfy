/** What getopt promises its callers: command lines that are written according to the declared options are
    reported as they were meant. */
module GetoptRender {
  import opened GetoptSpec
  import Getopt

  // ---------------------------------------------------------------------------
  // Declaring short options

  datatype Decl = Decl(c: char, arity: Arity)

  predicate ProperDecls(decls: seq<Decl>)
  {
    && (forall i :: 0 <= i < |decls| ==> decls[i].c != ':' && decls[i].c != ';' && decls[i].arity != Unknown)
    && (forall i, j :: 0 <= i < j < |decls| ==> decls[i].c != decls[j].c)
  }

  /** One colon after an option that needs an argument, two after one that may have one. */
  function Marked(d: Decl): (s: string)
  {
    [d.c] + if d.arity == RequiredArgument then ":" else if d.arity == OptionalArgument then "::" else ""
  }

  function Spelled(decls: seq<Decl>): (s: string)
  {
    if decls == [] then "" else Marked(decls[0]) + Spelled(decls[1..])
  }

  lemma {:induction false} SpelledStart(decls: seq<Decl>)
    requires ProperDecls(decls)
    ensures !CharAt(Spelled(decls), 0, ':')
  {
  }

  lemma ArityOfNext(s: string, t: string, c: char)
    requires c !in s && c != ':'
    ensures ShortArity(s + t, c) == ShortArity(t, c)
  {
    hide IndexOf;
    IndexSkips(s, t, c);
    var i := IndexOf(t, c);
    assert i + 1 < |t| ==> (s + t)[|s| + i + 1] == t[i + 1];
    assert i + 2 < |t| ==> (s + t)[|s| + i + 2] == t[i + 2];
  }

  lemma {:induction false} IndexSkips(s: string, t: string, c: char)
    requires c !in s
    ensures IndexOf(s + t, c) == |s| + IndexOf(t, c)
    decreases |s|
  {
    if s != "" {
      assert (s + t)[1..] == s[1..] + t;
      IndexSkips(s[1..], t, c);
    } else {
      assert s + t == t;
    }
  }

  lemma ArityOfFirst(d: Decl, rest: string)
    requires d.c != ':' && d.c != ';' && d.arity != Unknown && !CharAt(rest, 0, ':')
    ensures ShortArity(Marked(d) + rest, d.c) == d.arity
  {
    var s := Marked(d) + rest;
    assert s[0] == d.c;
    assert IndexOf(s, d.c) == 0;
    assert |Marked(d)| > 1 ==> s[1] == Marked(d)[1];
    assert |Marked(d)| > 2 ==> s[2] == Marked(d)[2];
    assert rest != "" ==> s[|Marked(d)|] == rest[0];
  }

  /** Every option has the arity that it was declared with, and others are unknown. */
  lemma {:induction false} ArityOf(decls: seq<Decl>, c: char)
    requires ProperDecls(decls) && c != ':'
    ensures forall i :: 0 <= i < |decls| && decls[i].c == c ==> ShortArity(Spelled(decls), c) == decls[i].arity
    ensures (forall i :: 0 <= i < |decls| ==> decls[i].c != c) ==> ShortArity(Spelled(decls), c) == Unknown
  {
    if decls != [] {
      hide ShortArity, CharAt;
      var tail := decls[1..];
      assert forall i :: 1 <= i < |decls| ==> decls[i] == tail[i - 1];
      SpelledStart(tail);
      if decls[0].c == c {
        ArityOfFirst(decls[0], Spelled(tail));
      } else {
        ArityOf(tail, c);
        ArityOfNext(Marked(decls[0]), Spelled(tail), c);
      }
    }
  }

  /** A colon in front, which asks for other error results, changes no arity. */
  lemma ArityAfterColon(s: string, c: char)
    requires c != ':'
    ensures ShortArity(":" + s, c) == ShortArity(s, c)
  {
    ArityOfNext(":", s, c);
  }

  // ---------------------------------------------------------------------------
  // Naming long options

  /** The name stands for option k: it is its name, the first of that name, or it is the beginning of this
      name only. */
  predicate Stands(cfg: Config, name: string, k: nat)
  {
    && k < |cfg.longopts|
    && if cfg.longopts[k].name == name then forall j :: 0 <= j < k ==> cfg.longopts[j].name != name
       else
         && name <= cfg.longopts[k].name
         && forall j :: 0 <= j < |cfg.longopts| && j != k ==> !(name <= cfg.longopts[j].name)
  }

  lemma StandsFor(cfg: Config, name: string, k: nat)
    requires Stands(cfg, name, k)
    ensures LongMatch(cfg, name) == Found(k)
  {
    var e, f := FirstExact(cfg.longopts, name, 0), FirstPrefix(cfg.longopts, name, 0);
    if cfg.longopts[k].name == name {
      assert e == k;
    } else {
      assert e == |cfg.longopts|;
      assert f == k;
    }
  }

  predicate Begins(cfg: Config, name: string, j: nat)
  {
    j < |cfg.longopts| && name <= cfg.longopts[j].name
  }

  predicate Differ(p: LongOption, q: LongOption)
  {
    (p.hasArg, p.flag, p.val) != (q.hasArg, q.flag, q.val)
  }

  /** The name begins the names of two options that differ, or of any two where single dashes are allowed. */
  predicate Between(cfg: Config, name: string, i: nat, j: nat)
  {
    && i < j && Begins(cfg, name, i) && Begins(cfg, name, j)
    && (cfg.longOnly || Differ(cfg.longopts[i], cfg.longopts[j]))
  }

  predicate IsName(cfg: Config, name: string)
  {
    exists j :: 0 <= j < |cfg.longopts| && cfg.longopts[j].name == name
  }

  /** A name that begins no option's name is not found. */
  lemma StandsForNone(cfg: Config, name: string)
    ensures LongMatch(cfg, name) == NotFound <==> forall j :: 0 <= j < |cfg.longopts| ==> !Begins(cfg, name, j)
  {
    var e, f := FirstExact(cfg.longopts, name, 0), FirstPrefix(cfg.longopts, name, 0);
    if e < |cfg.longopts| { assert Begins(cfg, name, e); }
    if f < |cfg.longopts| { assert Begins(cfg, name, f); }
  }

  /** It is ambiguous exactly when it is no name itself and begins the names of two options that differ. */
  lemma StandsForSeveral(cfg: Config, name: string)
    ensures LongMatch(cfg, name) == Ambiguous <==> !IsName(cfg, name) && exists i, j :: Between(cfg, name, i, j)
  {
    var n, f := |cfg.longopts|, FirstPrefix(cfg.longopts, name, 0);
    if i, j :| Between(cfg, name, i, j) {
      FirstRival(cfg, name, i, j);
    }
    if f < n && exists j :: f < j < n && Rival(cfg, name, f, j) {
      var j :| f < j < n && Rival(cfg, name, f, j);
      assert Between(cfg, name, f, j);
    }
  }

  /** Of two options that differ one differs from the first. */
  lemma FirstRival(cfg: Config, name: string, i: nat, j: nat)
    requires Between(cfg, name, i, j)
    ensures
      var n, f := |cfg.longopts|, FirstPrefix(cfg.longopts, name, 0);
      f < n && exists k :: f < k < n && Rival(cfg, name, f, k)
  {
    var f := FirstPrefix(cfg.longopts, name, 0);
    assert f <= i;
    if Rival(cfg, name, f, j) { } else { assert f < i && Rival(cfg, name, f, i); }
  }

  // ---------------------------------------------------------------------------
  // Command lines

  /** How an option is given its argument; Missing is for an option that needs one at the end of the line. */
  datatype How = Alone | Glued(text: string) | Apart(text: string) | Missing

  /** Short options may follow several others that take no argument in one word; long options may have a single
      dash where the settings say so. */
  datatype Given =
    | Short(flags: string, c: char, how: How)
    | Long(name: string, index: nat, how: How, single: bool)
    | Operand(text: string)

  function Word(g: Given): (s: string)
  {
    match g
    case Short(flags, c, how) => ("-" + flags) + ([c] + if how.Glued? then how.text else "")
    case Long(name, _, how, single) =>
      (if single then "-" else "--") + (name + if how.Glued? then "=" + how.text else "")
    case Operand(text) => text
  }

  function Apartment(g: Given): (s: seq<string>)
  {
    if !g.Operand? && g.how.Apart? then [g.how.text] else []
  }

  function Line(gs: seq<Given>): (s: seq<string>)
  {
    if gs == [] then [] else [Word(gs[0])] + Apartment(gs[0]) + Line(gs[1..])
  }

  /** Whether the option's declaration admits this use of it. */
  predicate FitsShort(arity: Arity, how: How, last: bool)
  {
    match how
    case Alone => arity != RequiredArgument
    case Glued(text) => text != "" && (arity == OptionalArgument || arity == RequiredArgument)
    case Apart(_) => arity == RequiredArgument
    case Missing => arity == RequiredArgument && last
  }

  predicate FitsLong(hasArg: int, how: How, last: bool)
  {
    match how
    case Alone => hasArg != 1
    case Glued(_) => hasArg != 0
    case Apart(_) => hasArg == 1
    case Missing => hasArg == 1 && last
  }

  /** Options before the last one of a word take no argument; they need not be declared. */
  predicate Flags(cfg: Config, flags: string)
  {
    forall i :: 0 <= i < |flags| ==>
      ShortArity(cfg.optstring, flags[i]) == NoArgument || ShortArity(cfg.optstring, flags[i]) == Unknown
  }

  predicate Proper(cfg: Config, g: Given, last: bool)
  {
    match g
    case Short(flags, c, how) =>
      && (cfg.hasLong && cfg.longOnly ==> |Word(g)| == 2 && c in cfg.optstring)
      && Flags(cfg, flags) && FitsShort(ShortArity(cfg.optstring, c), how, last)
      && (if flags == "" then c else flags[0]) != '-'
    case Long(name, k, how, single) =>
      && cfg.hasLong && name != "" && '=' !in name && Stands(cfg, name, k)
      && (single ==> cfg.longOnly && name[0] != '-' && (|Word(g)| > 2 || name[0] !in cfg.optstring))
      && FitsLong(cfg.longopts[k].hasArg, how, last)
    case Operand(text) => text == "" || text == "-" || text[0] != '-'
  }

  predicate AllProper(cfg: Config, gs: seq<Given>, last: bool)
  {
    forall i :: 0 <= i < |gs| ==> Proper(cfg, gs[i], last && i == |gs| - 1)
  }

  function ArgumentOf(how: How): Argument
  {
    match how
    case Glued(text) => Arg(text)
    case Apart(text) => Arg(text)
    case _ => NoArg
  }

  /** What is reported for a missing argument. */
  function MissingResult(cfg: Config): int
  {
    if cfg.optstring != "" && cfg.optstring[0] == ':' then ':' as int else '?' as int
  }

  /** What the calls report: every option, with a question mark for those that are not declared. */
  function FlagReports(cfg: Config, flags: string, prev: int): (r: seq<Report>)
  {
    if flags == "" then []
    else if ShortArity(cfg.optstring, flags[0]) == Unknown then
      [Report('?' as int, NoArg, flags[0] as int)] + FlagReports(cfg, flags[1..], flags[0] as int)
    else [Report(flags[0] as int, NoArg, prev)] + FlagReports(cfg, flags[1..], prev)
  }

  function LastReport(cfg: Config, c: char, how: How, prev: int): Report
  {
    if ShortArity(cfg.optstring, c) == Unknown then Report('?' as int, NoArg, c as int)
    else if how.Missing? then Report(MissingResult(cfg), NoArg, c as int)
    else Report(c as int, ArgumentOf(how), prev)
  }

  function Reported(cfg: Config, g: Given, prev: int): (r: seq<Report>)
    requires g.Long? ==> g.index < |cfg.longopts|
  {
    match g
    case Short(flags, c, how) =>
      var before := FlagReports(cfg, flags, prev);
      before +
      [LastReport(cfg, c, how, LastComplaint(before, prev))]
    case Long(_, k, how, _) =>
      var p := cfg.longopts[k];
      [if how.Missing? then Report(MissingResult(cfg), NoArg, p.val)
       else Report(if p.flag != 0 then 0 else p.val, ArgumentOf(how), prev)]
    case Operand(text) => [Report(1, Arg(text), prev)]
  }

  /** In the strict order nothing is reported from the first operand on, and in permuting order no operand. */
  function AllReported(cfg: Config, ord: Ordering, gs: seq<Given>, prev: int): (r: seq<Report>)
    requires forall i :: 0 <= i < |gs| && gs[i].Long? ==> gs[i].index < |cfg.longopts|
  {
    if gs == [] || (gs[0].Operand? && ord == RequireOrder) then []
    else if gs[0].Operand? && ord == Permute then AllReported(cfg, ord, gs[1..], prev)
    else
      var first := Reported(cfg, gs[0], prev);
      first + AllReported(cfg, ord, gs[1..], LastComplaint(first, prev))
  }

  function OperandsOf(gs: seq<Given>): (s: seq<string>)
  {
    if gs == [] then []
    else (if gs[0].Operand? then [gs[0].text] else []) + OperandsOf(gs[1..])
  }

  // ---------------------------------------------------------------------------
  // They are reported as they were meant

  /** A word, or what is left of it, that an option begins. */
  lemma OptionOfWord(cfg: Config, arg: string, text: string, next: Argument, prev: int)
    requires !IsNonOption(arg) && text != ""
    ensures
      var r := OptionReport(cfg, arg, text, next, prev);
      ElementReports(cfg, arg, text, next, prev) ==
        [r] + ElementReports(cfg, arg, Leftover(cfg, arg, text), next, r.optopt)
    ensures Leftover(cfg, arg, text) == "" ==>
      ElementReports(cfg, arg, text, next, prev) == [OptionReport(cfg, arg, text, next, prev)]
  {
    hide OptionReport, Leftover;
  }

  lemma FlagReported(cfg: Config, arg: string, text: string, next: Argument, prev: int)
    requires !IsNonOption(arg) && !TriesLong(cfg, arg) && |text| > 1
    requires ShortArity(cfg.optstring, text[0]) == NoArgument || ShortArity(cfg.optstring, text[0]) == Unknown
    ensures Leftover(cfg, arg, text) == text[1..] && TakesNext(cfg, arg, text) == TakesNext(cfg, arg, text[1..])
    ensures OptionReport(cfg, arg, text, next, prev) ==
      if ShortArity(cfg.optstring, text[0]) == Unknown then Report('?' as int, NoArg, text[0] as int)
      else Report(text[0] as int, NoArg, prev)
  {
    hide IsNonOption, TriesLong, ShortArity;
  }

  /** Options of one word before the last. */
  lemma {:induction false} FlagsReported(
      cfg: Config, arg: string, flags: string, rest: string, next: Argument, prev: int)
    requires !IsNonOption(arg) && !TriesLong(cfg, arg) && Flags(cfg, flags) && rest != ""
    ensures
      var before := FlagReports(cfg, flags, prev);
      && ElementReports(cfg, arg, flags + rest, next, prev)
           == before + ElementReports(cfg, arg, rest, next, LastComplaint(before, prev))
      && TakesNext(cfg, arg, flags + rest) == TakesNext(cfg, arg, rest)
    decreases |flags|
  {
    hide IsNonOption, TriesLong, ShortArity, ElementReports, OptionReport, Leftover, TakesNext, LastComplaint;
    var text := flags + rest;
    if flags == "" {
      assert text == rest;
      NoComplaint(prev);
    } else {
      assert text[1..] == flags[1..] + rest && text[0] == flags[0];
      var r := OptionReport(cfg, arg, text, next, prev);
      FlagReported(cfg, arg, text, next, prev);
      OptionOfWord(cfg, arg, text, next, prev);
      FlagsReported(cfg, arg, flags[1..], rest, next, r.optopt);
      var more := FlagReports(cfg, flags[1..], r.optopt);
      LaterComplaint(r, more, prev);
      Regroup([r], more, ElementReports(cfg, arg, rest, next, LastComplaint(more, r.optopt)));
    }
  }

  lemma NoComplaint(prev: int)
    ensures LastComplaint([], prev) == prev
  {
  }

  lemma LaterComplaint(r: Report, more: seq<Report>, prev: int)
    ensures LastComplaint([r] + more, prev) == LastComplaint(more, r.optopt)
  {
  }

  lemma Regroup(a: seq<Report>, b: seq<Report>, c: seq<Report>)
    ensures a + (b + c) == (a + b) + c && [] + c == c
  {
  }

  /** The last option of a word. */
  lemma LastReported(cfg: Config, arg: string, c: char, how: How, next: Argument, prev: int)
    requires !IsNonOption(arg) && !TriesLong(cfg, arg)
    requires FitsShort(ShortArity(cfg.optstring, c), how, next == NoArg)
    requires how.Apart? ==> next == Arg(how.text)
    ensures
      var rest := [c] + if how.Glued? then how.text else "";
      && ElementReports(cfg, arg, rest, next, prev) == [LastReport(cfg, c, how, prev)]
      && (TakesNext(cfg, arg, rest) && next.Arg? <==> how.Apart?)
  {
    hide IsNonOption, TriesLong, ShortArity, ElementReports;
    var rest := [c] + if how.Glued? then how.text else "";
    assert rest[0] == c && rest[1..] == if how.Glued? then how.text else "";
    assert !TakesNext(cfg, arg, "");
    OptionOfWord(cfg, arg, rest, next, prev);
    match how
    case Alone => assert Leftover(cfg, arg, rest) == "" && !TakesNext(cfg, arg, rest);
    case Glued(text) =>
      assert Leftover(cfg, arg, rest) == "" && !TakesNext(cfg, arg, rest);
      assert ShortAttached(cfg, rest) == Arg(rest[1..]) && rest[1..] == text;
    case Apart(text) => assert Leftover(cfg, arg, rest) == "" && TakesNext(cfg, arg, rest);
    case Missing => assert Leftover(cfg, arg, rest) == "" && TakesNext(cfg, arg, rest);
  }

  lemma LongReported(cfg: Config, arg: string, name: string, k: nat, how: How, next: Argument, prev: int)
    requires !IsNonOption(arg) && TriesLong(cfg, arg)
    requires name != "" && '=' !in name && Stands(cfg, name, k)
    requires FitsLong(cfg.longopts[k].hasArg, how, next == NoArg)
    requires how.Apart? ==> next == Arg(how.text)
    ensures
      var text, p := name + (if how.Glued? then "=" + how.text else ""), cfg.longopts[k];
      && ElementReports(cfg, arg, text, next, prev) ==
           [if how.Missing? then Report(MissingResult(cfg), NoArg, p.val)
            else Report(if p.flag != 0 then 0 else p.val, ArgumentOf(how), prev)]
      && (TakesNext(cfg, arg, text) && next.Arg? <==> how.Apart?)
  {
    hide IsNonOption, TriesLong, LongMatch, Stands, ElementReports;
    var text := name + if how.Glued? then "=" + how.text else "";
    NameBefore(name, if how.Glued? then "=" + how.text else "");
    assert text[..|name|] == name;
    assert how.Glued? ==> text[|name| + 1..] == how.text;
    StandsFor(cfg, name, k);
    StandsIn(cfg, name, k);
    OptionOfWord(cfg, arg, text, next, prev);
  }

  /** A long name that stands for nothing, or not for one option, and an argument for an option that takes none:
      question marks, with 0 or the option's value in optopt. */
  lemma LongRefused(cfg: Config, arg: string, text: string, next: Argument, prev: int)
    requires !IsNonOption(arg) && TriesLong(cfg, arg) && arg[1] == '-' && text != ""
    ensures
      var n := NameLength(text);
      var reports := ElementReports(cfg, arg, text, next, prev);
      match LongMatch(cfg, text[..n])
      case Found(k) =>
        k < |cfg.longopts| && cfg.longopts[k].hasArg == 0 && n < |text| ==>
          reports == [Report('?' as int, NoArg, cfg.longopts[k].val)]
      case _ => reports == [Report('?' as int, NoArg, 0)]
  {
    hide IsNonOption, TriesLong, LongMatch, ElementReports;
    OptionOfWord(cfg, arg, text, next, prev);
  }

  lemma StandsIn(cfg: Config, name: string, k: nat)
    requires Stands(cfg, name, k)
    ensures k < |cfg.longopts|
  {
  }

  lemma {:induction false} NameBefore(name: string, rest: string)
    requires '=' !in name && (rest == "" || rest[0] == '=')
    ensures NameLength(name + rest) == |name|
    decreases |name|
  {
    if name == "" {
      assert name + rest == rest;
    } else {
      assert (name + rest)[1..] == name[1..] + rest;
      NameBefore(name[1..], rest);
    }
  }

  /** What an option is reported as, and how many words it takes. */
  lemma GivenReported(cfg: Config, g: Given, next: Argument, prev: int)
    requires Proper(cfg, g, next == NoArg) && !g.Operand? && (g.how.Apart? ==> next == Arg(g.how.text))
    ensures
      var arg := Word(g);
      && !IsNonOption(arg) && arg != "--"
      && ElementReports(cfg, arg, OptionText(cfg, arg), next, prev) == Reported(cfg, g, prev)
      && (TakesNext(cfg, arg, OptionText(cfg, arg)) && next.Arg? <==> g.how.Apart?)
  {
    hide Stands, ShortArity, TakesNext, ElementReports, FlagReports, Flags, FitsShort, FitsLong;
    var arg := Word(g);
    match g
    case Short(flags, c, how) =>
      var rest := [c] + if how.Glued? then how.text else "";
      assert arg[0] == '-' && arg[1] == if flags == "" then c else flags[0];
      assert arg[1..] == flags + rest;
      FlagsReported(cfg, arg, flags, rest, next, prev);
      LastReported(cfg, arg, c, how, next, LastComplaint(FlagReports(cfg, flags, prev), prev));
    case Long(name, k, how, single) =>
      var text := name + if how.Glued? then "=" + how.text else "";
      assert arg[0] == '-';
      assert if single then arg[1] == name[0] && arg[1..] == text else arg[1] == '-' && arg[2..] == text;
      LongReported(cfg, arg, name, k, how, next, prev);
  }

  lemma Tail(cfg: Config, gs: seq<Given>, last: bool)
    requires gs != [] && AllProper(cfg, gs, last)
    ensures Proper(cfg, gs[0], last && |gs| == 1) && AllProper(cfg, gs[1..], last)
  {
    hide Proper;
    forall i | 0 <= i < |gs[1..]| ensures Proper(cfg, gs[1..][i], last && i == |gs[1..]| - 1) {
      assert gs[1..][i] == gs[i + 1];
    }
  }

  lemma Indices(cfg: Config, gs: seq<Given>, last: bool)
    requires AllProper(cfg, gs, last)
    ensures forall i :: 0 <= i < |gs| && gs[i].Long? ==> gs[i].index < |cfg.longopts|
  {
  }

  /** One thing given, at place i of the command line. */
  lemma OneRendered(cfg: Config, ord: Ordering, args: seq<string>, i: nat, g: Given, prev: int)
    requires i < |args| && args[i] == Word(g) && Proper(cfg, g, i + 1 == |args|)
    requires !g.Operand? && g.how.Apart? ==> i + 1 < |args| && args[i + 1] == g.how.text
    ensures
      var after := i + 1 + |Apartment(g)|;
      && after <= |args|
      && (g.Operand? ==>
           Returned(cfg, ord, args, i, prev) ==
             (match ord
              case Permute => Returned(cfg, ord, args, after, prev)
              case RequireOrder => []
              case ReturnInOrder => Reported(cfg, g, prev) + Returned(cfg, ord, args, after, prev)))
      && (!g.Operand? ==>
           Returned(cfg, ord, args, i, prev) ==
             Reported(cfg, g, prev) + Returned(cfg, ord, args, after, LastComplaint(Reported(cfg, g, prev), prev)))
      && Operands(cfg, args, i) == (if g.Operand? then [g.text] else []) + Operands(cfg, args, after)
  {
    hide Stands, ShortArity, TakesNext, ElementReports, FlagReports, Flags, FitsShort, FitsLong;
    if g.Operand? {
      assert args[i] != "--";
    } else {
      hide Reported, Proper;
      GivenReported(cfg, g, Following(args, i), prev);
      assert [] + Operands(cfg, args, i + 1 + |Apartment(g)|) == Operands(cfg, args, i + 1 + |Apartment(g)|);
    }
  }

  /** A command line that is written according to the declarations is reported as it was meant, in every
      order, and its operands are those that were given. What follows is nothing, or what a double dash keeps
      from being read as options. */
  lemma {:induction false} Rendered(
      cfg: Config, ord: Ordering, before: seq<string>, gs: seq<Given>, rest: seq<string>, prev: int)
    requires AllProper(cfg, gs, rest == []) && (rest == [] || rest[0] == "--")
    ensures forall i :: 0 <= i < |gs| && gs[i].Long? ==> gs[i].index < |cfg.longopts|
    ensures
      var args := before + (Line(gs) + rest);
      && Returned(cfg, ord, args, |before|, prev) == AllReported(cfg, ord, gs, prev)
      && Operands(cfg, args, |before|) == OperandsOf(gs) + if rest == [] then [] else rest[1..]
    decreases |gs|
  {
    hide Proper, AllProper, Reported, Word, Returned, Operands, Apartment;
    Indices(cfg, gs, rest == []);
    var args := before + (Line(gs) + rest);
    if gs == [] {
      NothingGiven(cfg, ord, before, rest, prev);
    } else {
      var g, words := gs[0], [Word(gs[0])] + Apartment(gs[0]);
      Tail(cfg, gs, rest == []);
      Indices(cfg, gs[1..], rest == []);
      LineSplit(before, gs, rest);
      var prev' := LastComplaint(Reported(cfg, g, prev), prev);
      Rendered(cfg, ord, before + words, gs[1..], rest, prev');
      OperandReport(cfg, g, prev);
      FirstWords(args, before, g, Line(gs[1..]) + rest);

      ProperHere(cfg, g, rest == [] && |gs| == 1, |before| + 1 == |args|);
      OneRendered(cfg, ord, args, |before|, g, prev);
      assert OperandsOf(gs) + (if rest == [] then [] else rest[1..])
        == (if g.Operand? then [g.text] else []) + (OperandsOf(gs[1..]) + if rest == [] then [] else rest[1..]);
    }
  }

  lemma NothingGiven(cfg: Config, ord: Ordering, before: seq<string>, rest: seq<string>, prev: int)
    requires rest == [] || rest[0] == "--"
    ensures
      var args := before + (Line([]) + rest);
      && Returned(cfg, ord, args, |before|, prev) == []
      && Operands(cfg, args, |before|) == [] + if rest == [] then [] else rest[1..]
  {
    var args := before + (Line([]) + rest);
    assert rest != [] ==> args[|before|] == "--" && args[|before| + 1..] == rest[1..];
  }

  /** The words of the first thing given, and the others after them. */
  lemma LineSplit(before: seq<string>, gs: seq<Given>, rest: seq<string>)
    requires gs != []
    ensures
      var args, words := before + (Line(gs) + rest), [Word(gs[0])] + Apartment(gs[0]);
      && args == (before + words) + (Line(gs[1..]) + rest)
      && (|before| + |words| == |args| <==> |gs| == 1 && rest == [])
  {
    hide Word;
    var words, later := [Word(gs[0])] + Apartment(gs[0]), Line(gs[1..]);
    assert later == [] <==> |gs| == 1;
    Parts(before, words, later, rest);
  }

  lemma Parts(a: seq<string>, b: seq<string>, c: seq<string>, d: seq<string>)
    ensures a + ((b + c) + d) == (a + b) + (c + d)
  {
  }

  lemma FirstWords(args: seq<string>, before: seq<string>, g: Given, later: seq<string>)
    requires args == (before + ([Word(g)] + Apartment(g))) + later
    ensures |before| < |args| && args[|before|] == Word(g)
    ensures Apartment(g) == [] || (!g.Operand? && g.how.Apart?)
    ensures !g.Operand? && g.how.Apart? ==> |before| + 1 < |args| && args[|before| + 1] == g.how.text
    ensures |before + ([Word(g)] + Apartment(g))| == |before| + 1 + |Apartment(g)|
  {
    hide Word;
  }

  /** Only what is given last can be the last word. */
  lemma ProperHere(cfg: Config, g: Given, last: bool, end: bool)
    requires Proper(cfg, g, last) && (last == end || (!g.Operand? && g.how.Apart?))
    ensures Proper(cfg, g, end)
  {
    hide Stands, ShortArity, Flags;
  }

  lemma OperandReport(cfg: Config, g: Given, prev: int)
    requires g.Long? ==> g.index < |cfg.longopts|
    ensures g.Operand? ==> LastComplaint(Reported(cfg, g, prev), prev) == prev
  {
  }

  /** So a permuting scan of such a command line reports what was meant, and ends with the operands at the end
      of the command line, in their order. */
  method ScanRendered(
      argv: array<string>, cfg: Config, ghost prog: string, ghost gs: seq<Given>, ghost rest: seq<string>)
    returns (optind: nat, reports: seq<Report>)
    requires !CharAt(cfg.optstring, 0, '-') && !CharAt(cfg.optstring, 0, '+') && NoExtension(cfg.optstring)
    requires AllProper(cfg, gs, rest == []) && (rest == [] || rest[0] == "--")
    requires argv[..] == [prog] + (Line(gs) + rest)
    modifies argv
    ensures forall i :: 0 <= i < |gs| && gs[i].Long? ==> gs[i].index < |cfg.longopts|
    ensures reports == AllReported(cfg, Permute, gs, '?' as int)
    ensures optind <= argv.Length && argv[optind..] == OperandsOf(gs) + if rest == [] then [] else rest[1..]
    ensures multiset(argv[..]) == multiset(old(argv[..]))
  {
    hide AllProper, AllReported, Line, OperandsOf, Options, Operands, Returned, CharAt, NoExtension;
    Rendered(cfg, Permute, [prog], gs, rest, '?' as int);
    var same;
    assert argv.Length == |argv[..]|;
    same, optind, reports := Getopt.Scan(argv, cfg.optstring, cfg.hasLong, cfg.longopts, cfg.longOnly);
    assert argv[optind..] == argv[..][optind..];
  }
}
