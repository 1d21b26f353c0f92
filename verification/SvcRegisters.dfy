/** The register allocation of tools/svc_generator.py: which machine registers carry the arguments of a
    system call. */
module SvcRegisters {

  const NUM_REGS := 8

  /** The number of registers for a value of this size. */
  function Words(size: int, byteSize: int): (n: nat)
    requires byteSize > 0
  {
    if size <= byteSize then 1 else 1 + Words(size - byteSize, byteSize)
  }

  /** The size divided by the register size, rounded up; at least one. */
  lemma {:induction false} WordsCover(size: int, byteSize: int)
    requires byteSize > 0
    ensures
      var n := Words(size, byteSize);
      n >= 1 && size <= n * byteSize && (n > 1 ==> (n - 1) * byteSize < size)
    decreases size
  {
    if size > byteSize {
      WordsCover(size - byteSize, byteSize);
      var n := Words(size - byteSize, byteSize);
      assert (n + 1) * byteSize == n * byteSize + byteSize;
      if n > 1 { assert n * byteSize == (n - 1) * byteSize + byteSize; }
    }
  }

  /** The registers of several values, one after the other. */
  function Flatten(lists: seq<seq<nat>>): seq<nat>
  {
    if lists == [] then [] else Flatten(lists[..|lists| - 1]) + lists[|lists| - 1]
  }

  predicate Distinct(s: seq<nat>)
  {
    forall i, j :: 0 <= i < j < |s| ==> s[i] != s[j]
  }

  /** s lists the elements of the set, each once. */
  ghost predicate Lists(s: seq<nat>, regs: set<nat>)
  {
    Distinct(s) && (forall x :: x in regs <==> x in s) && forall x :: x in s ==> x < NUM_REGS
  }

  lemma ListsMore(s: seq<nat>, regs: set<nat>, r: nat)
    requires Lists(s, regs) && r !in regs && r < NUM_REGS
    ensures Lists(s + [r], regs + {r})
  {
  }

  lemma {:induction false} InitialCount(n: nat) returns (all: set<nat>)
    ensures |all| == n && forall x: nat :: x in all <==> x < n
  {
    if n == 0 {
      all := {};
    } else {
      var rest := InitialCount(n - 1);
      all := rest + {n - 1};
    }
  }

  lemma {:induction false} ListCount(s: seq<nat>, regs: set<nat>)
    requires Distinct(s) && forall x :: x in regs <==> x in s
    ensures |s| == |regs|
  {
    if s == [] {
      assert regs == {};
    } else {
      var n := |s| - 1;
      assert s[n] !in s[..n];
      assert s == s[..n] + [s[n]];
      ListCount(s[..n], regs - {s[n]});
    }
  }

  lemma {:induction false} SubsetCount(a: set<nat>, b: set<nat>)
    requires a <= b
    ensures |a| <= |b|
    ensures |a| == |b| ==> a == b
  {
    if a == {} {
    } else {
      var x :| x in a;
      SubsetCount(a - {x}, b - {x});
    }
  }

  /** All registers are taken exactly when eight have been given out. */
  lemma FullWhenEight(s: seq<nat>, regs: set<nat>)
    requires Lists(s, regs)
    ensures |s| <= NUM_REGS
    ensures |s| == NUM_REGS <==> forall x :: 0 <= x < NUM_REGS ==> x in regs
  {
    var all := InitialCount(NUM_REGS);
    ListCount(s, regs);
    SubsetCount(regs, all);
    if forall x :: 0 <= x < NUM_REGS ==> x in regs { assert regs == all; }
  }

  /** RegisterAllocator. */
  class Allocator {
    const byteSize: int
    const parameterCount: nat
    var registers: set<nat>
    ghost var given: seq<nat>      // the registers in the order in which they were given out

    /** While the counter ngrn has not passed the parameter registers, only registers below it are taken. */
    ghost predicate Valid(ngrn: nat)
      reads this
    {
      && byteSize > 0 && parameterCount <= NUM_REGS && Lists(given, registers)
      && (ngrn < parameterCount ==> forall x :: x in registers ==> x < ngrn)
    }

    /** reg_alloc: 32-bit calls pass four 4-byte registers, 64-bit calls eight 8-byte registers. */
    constructor (bitness: int)
      requires bitness == 0 || bitness == 1
      ensures Valid(0) && given == [] && byteSize == (if bitness == 0 then 4 else 8)
      ensures parameterCount == (if bitness == 0 then 4 else 8)
    {
      byteSize, parameterCount := if bitness == 0 then 4 else 8, if bitness == 0 then 4 else 8;
      registers := {};
      given := [];
    }

    /** allocate: its assertion that the register is not taken becomes the precondition. */
    method Allocate(i: nat)
      requires i !in registers && i < NUM_REGS && Lists(given, registers)
      modifies this
      ensures registers == old(registers) + {i} && given == old(given) + [i] && Lists(given, registers)
    {
      ListsMore(given, registers, i);
      registers := registers + {i};
      given := given + [i];
    }

    /** allocate_first_free: fails exactly when all eight registers are taken. */
    method AllocateFirstFree() returns (ok: bool, r: nat)
      requires Lists(given, registers)
      modifies this
      ensures ok <==> |old(given)| < NUM_REGS
      ensures Lists(given, registers)
      ensures ok ==> given == old(given) + [r] && registers == old(registers) + {r}
      ensures ok ==> r !in old(registers) && forall x :: 0 <= x < r ==> x in old(registers)
      ensures !ok ==> given == old(given) && registers == old(registers)
    {
      FullWhenEight(given, registers);
      for i := 0 to NUM_REGS
        invariant registers == old(registers) && given == old(given)
        invariant forall x :: 0 <= x < i ==> x in registers
      {
        if i !in registers {
          Allocate(i);
          return true, i;
        }
      }
      return false, 0;
    }

    /** add_single. Its register is never taken already, and it fails exactly when eight are taken. */
    method AddSingle(ngrn: nat) returns (ok: bool, r: nat, inc: nat)
      requires Valid(ngrn)
      modifies this
      ensures ok <==> |old(given)| < NUM_REGS
      ensures ok ==> Valid(ngrn + inc) && given == old(given) + [r]
      ensures ok && ngrn < parameterCount ==> r == ngrn && inc == 1
      ensures ok && ngrn >= parameterCount ==> inc == 0 && r !in old(registers)
      ensures ok && ngrn >= parameterCount ==> forall x :: 0 <= x < r ==> x in old(registers)
      ensures !ok ==> given == old(given)
    {
      FullWhenEight(given, registers);
      if ngrn >= parameterCount {
        ok, r := AllocateFirstFree();
        inc := 0;
      } else {
        Allocate(ngrn);
        FullWhenEight(given, registers);
        ok, r, inc := true, ngrn, 1;
      }
    }

    /** add: as many registers as the value has words, at the ABI positions from pos on as far as there are
        parameter registers, and then the lowest free ones. The counter is the position, until both have
        passed the parameter registers. */
    method Add(ngrn: nat, dataSize: int, align: bool, ghost pos: nat) returns (ok: bool, regs: seq<nat>, inc: nat)
      requires Valid(ngrn) && SamePosition(ngrn, pos, parameterCount)
      modifies this
      ensures ok <==> |old(given)| + Words(dataSize, byteSize) <= NUM_REGS
      ensures ok ==> Valid(ngrn + inc) && given == old(given) + regs && |regs| == Words(dataSize, byteSize)
      ensures ok ==> InPlace(regs, Begin(pos, dataSize, byteSize, align), parameterCount, old(given))
      ensures ok ==> SamePosition(ngrn + inc, Begin(pos, dataSize, byteSize, align) + |regs|, parameterCount)
    {
      if dataSize <= byteSize {
        var r;
        ok, r, inc := AddSingle(ngrn);
        regs := [r];
        assert old(given) + regs[..0] == old(given);
        return;
      }
      regs := [];
      inc := if align then ngrn % 2 else 0;
      ghost var start := Begin(pos, dataSize, byteSize, align);
      var remaining := dataSize;
      while remaining > 0
        invariant Valid(ngrn + inc) && given == old(given) + regs && InPlace(regs, start, parameterCount, old(given))
        invariant SamePosition(ngrn + inc, start + |regs|, parameterCount)
        invariant |regs| + (if remaining > 0 then Words(remaining, byteSize) else 0) == Words(dataSize, byteSize)
        invariant |old(given)| + |regs| <= NUM_REGS || remaining == dataSize
        decreases remaining
      {
        FullWhenEight(given, registers);
        ghost var was := given;
        var r, i;
        ok, r, i := AddSingle(ngrn + inc);
        if !ok { return; }
        InPlaceMore(regs, r, start, parameterCount, old(given));
        regs := regs + [r];
        inc := inc + i;
        remaining := remaining - byteSize;
        FullWhenEight(given, registers);
      }
      ok := true;
    }
  }

  /** The counter has the value of the position, unless both have passed the parameter registers. */
  predicate SamePosition(ngrn: nat, pos: nat, count: nat)
  {
    ngrn == pos || (ngrn >= count && pos >= count)
  }

  /** The position where a value begins: aligned values of several words begin at an even one. */
  function Begin(pos: nat, size: int, byteSize: int, align: bool): nat
  {
    if align && size > byteSize then pos + pos % 2 else pos
  }

  /** That is the next even position. */
  lemma BeginEven(pos: nat, size: int, byteSize: int)
    requires size > byteSize
    ensures
      var start := Begin(pos, size, byteSize, true);
      start % 2 == 0 && pos <= start < pos + 2 && Begin(pos, size, byteSize, false) == pos
    ensures forall align :: Begin(pos, byteSize, byteSize, align) == pos
  {
  }

  predicate LowestFree(r: nat, taken: seq<nat>)
  {
    r !in taken && forall x :: 0 <= x < r ==> x in taken
  }

  /** The register of a word at an ABI position. */
  predicate WordInPlace(r: nat, pos: nat, count: nat, taken: seq<nat>)
  {
    if pos < count then r == pos else LowestFree(r, taken)
  }

  /** The words of a value that begins at this position. */
  predicate InPlace(regs: seq<nat>, start: nat, count: nat, taken: seq<nat>)
  {
    forall w :: 0 <= w < |regs| ==> WordInPlace(regs[w], start + w, count, taken + regs[..w])
  }

  lemma InPlaceMore(regs: seq<nat>, r: nat, start: nat, count: nat, taken: seq<nat>)
    requires InPlace(regs, start, count, taken) && WordInPlace(r, start + |regs|, count, taken + regs)
    ensures InPlace(regs + [r], start, count, taken)
  {
    hide WordInPlace;
    var more := regs + [r];
    forall w | 0 <= w < |more| ensures WordInPlace(more[w], start + w, count, taken + more[..w]) {
      assert more[..w] == regs[..w];
      assert w == |regs| ==> regs[..w] == regs;
    }
  }

  // ---------------------------------------------------------------------------
  // get_registers

  /** An argument: its size, and whether it is an output in a register or through a pointer. */
  datatype Argument = Argument(size: int, isOutput: bool, isOutptr: bool)

  predicate InRegister(a: Argument, output: bool)
  {
    (a.isOutput && !a.isOutptr) == output
  }

  /** The registers that the inputs, or the outputs, need. */
  function Demand(args: seq<Argument>, byteSize: int, output: bool): nat
    requires byteSize > 0
  {
    if args == [] then 0 else
    var last := args[|args| - 1];
    Demand(args[..|args| - 1], byteSize, output) + (if InRegister(last, output) then Words(last.size, byteSize) else 0)
  }

  lemma {:induction false} DemandMono(args: seq<Argument>, n: nat, byteSize: int, output: bool)
    requires byteSize > 0 && n <= |args|
    ensures Demand(args[..n], byteSize, output) <= Demand(args, byteSize, output)
  {
    if n == |args| {
      assert args[..n] == args;
    } else {
      DemandMono(args[..|args| - 1], n, byteSize, output);
      assert args[..|args| - 1][..n] == args[..n];
    }
  }

  /** The ABI position that comes after the first n arguments. An input of several words begins at an even
      position, and an output takes one position among the inputs; outputs follow each other directly. */
  function Position(args: seq<Argument>, n: nat, byteSize: int, output: bool, first: nat): nat
    requires byteSize > 0 && n <= |args|
  {
    if n == 0 then first else
    var p, a := Position(args, n - 1, byteSize, output, first), args[n - 1];
    if InRegister(a, output) then Begin(p, a.size, byteSize, !output) + Words(a.size, byteSize)
    else if output then p else p + 1
  }

  /** The arguments among the first n that are in registers, in their order. */
  function Carried(args: seq<Argument>, n: nat, output: bool): (ids: seq<nat>)
    requires n <= |args|
    ensures forall k :: 0 <= k < |ids| ==> ids[k] < n && InRegister(args[ids[k]], output)
  {
    if n == 0 then [] else
    var ids := Carried(args, n - 1, output);
    if InRegister(args[n - 1], output) then ids + [n - 1] else ids
  }

  /** List j holds a value of this size that begins at this position. */
  predicate Holds(lists: seq<seq<nat>>, j: nat, size: int, start: nat, byteSize: int, count: nat)
    requires byteSize > 0
  {
    && j < |lists| && |lists[j]| == Words(size, byteSize)
    && InPlace(lists[j], start, count, Flatten(lists[..j]))
  }

  /** Every argument in a register has its list, and its words sit where the ABI puts them. */
  predicate Laid(
      lists: seq<seq<nat>>, args: seq<Argument>, n: nat, byteSize: int, output: bool, returnSize: int, count: nat)
    requires byteSize > 0 && n <= |args|
  {
    var returned := output && returnSize > 0;
    var skip, first := if returned then 1 else 0, if returned then Words(returnSize, byteSize) else 0;
    var ids := Carried(args, n, output);
    && |lists| == skip + |ids|
    && (returned ==> Holds(lists, 0, returnSize, 0, byteSize, count))
    && forall k :: 0 <= k < |ids| ==>
         var a := args[ids[k]];
         Holds(lists, skip + k, a.size,
           Begin(Position(args, ids[k], byteSize, output, first), a.size, byteSize, !output), byteSize, count)
  }

  /** Later lists do not change what earlier ones hold. */
  lemma HoldsMore(lists: seq<seq<nat>>, regs: seq<nat>, j: nat, size: int, start: nat, byteSize: int, count: nat)
    requires byteSize > 0 && Holds(lists, j, size, start, byteSize, count)
    ensures Holds(lists + [regs], j, size, start, byteSize, count)
  {
    hide InPlace;
    assert (lists + [regs])[..j] == lists[..j];
  }

  lemma LaidMore(
      lists: seq<seq<nat>>, regs: seq<nat>, args: seq<Argument>, n: nat, byteSize: int, output: bool, returnSize: int,
      count: nat)
    requires byteSize > 0 && n < |args| && InRegister(args[n], output)
    requires Laid(lists, args, n, byteSize, output, returnSize, count) && |regs| == Words(args[n].size, byteSize)
    requires
      var first := if output && returnSize > 0 then Words(returnSize, byteSize) else 0;
      var begin := Begin(Position(args, n, byteSize, output, first), args[n].size, byteSize, !output);
      InPlace(regs, begin, count, Flatten(lists))
    ensures Laid(lists + [regs], args, n + 1, byteSize, output, returnSize, count)
  {
    hide InPlace, InRegister, Position;
    var returned := output && returnSize > 0;
    var skip, first := if returned then 1 else 0, if returned then Words(returnSize, byteSize) else 0;
    var ids, more := Carried(args, n, output), lists + [regs];
    if returned { HoldsMore(lists, regs, 0, returnSize, 0, byteSize, count); }
    forall k | 0 <= k < |ids| + 1
      ensures
        var i := (ids + [n])[k];
        Holds(more, skip + k, args[i].size,
          Begin(Position(args, i, byteSize, output, first), args[i].size, byteSize, !output), byteSize, count)
    {
      if k < |ids| {
        var a := args[ids[k]];
        HoldsMore(lists, regs, skip + k, a.size,
          Begin(Position(args, ids[k], byteSize, output, first), a.size, byteSize, !output), byteSize, count);
      } else {
        assert more[..|lists|] == lists;
      }
    }
  }

  /** Registers for the inputs of a call, or for its outputs after the return value. Allocation succeeds
      exactly when the demand is at most eight registers, no register is given out twice, and every word sits
      at its ABI position or, beyond the parameter registers, in the lowest free register. */
  method Assign(args: seq<Argument>, bitness: int, output: bool, returnSize: int)
    returns (ok: bool, lists: seq<seq<nat>>)
    requires bitness == 0 || bitness == 1
    ensures
      var b := if bitness == 0 then 4 else 8;
      var first := if output && returnSize > 0 then Words(returnSize, b) else 0;
      ok <==> first + Demand(args, b, output) <= NUM_REGS
    ensures
      var b := if bitness == 0 then 4 else 8;
      var first := if output && returnSize > 0 then Words(returnSize, b) else 0;
      ok ==> |Flatten(lists)| == first + Demand(args, b, output)
    ensures ok ==> Distinct(Flatten(lists)) && forall x :: x in Flatten(lists) ==> x < NUM_REGS
    ensures
      var b := if bitness == 0 then 4 else 8;
      ok ==> Laid(lists, args, |args|, b, output, returnSize, b)
  {
    hide InPlace, InRegister, Laid, Words, Begin, Flatten;
    var alloc := new Allocator(bitness);
    var b := alloc.byteSize;
    lists := [];
    NoLists();
    var ngrn: nat := 0;
    ghost var first: nat := 0;
    if output && returnSize > 0 {
      first := Words(returnSize, b);
      var regs, inc;
      ok, regs, inc := alloc.Add(ngrn, returnSize, false, 0);
      DemandMono(args, 0, b, output);
      if !ok { return; }
      lists := [regs];
      ngrn := ngrn + inc;
      OneList(regs);
      Unaligned(0, returnSize, b);
    }
    NoneLaid(lists, args, b, output, returnSize, b);
    assert args[..0] == [];
    for i := 0 to |args|
      invariant fresh(alloc) && SoFar(alloc, args, i, output, returnSize, ngrn, lists)
    {
      ok, ngrn, lists := AssignNext(alloc, args, i, output, returnSize, ngrn, lists);
      if !ok { return; }
    }
    FullWhenEight(alloc.given, alloc.registers);
    assert args[..|args|] == args;
    ok := true;
  }

  /** The first n arguments have their registers. */
  ghost predicate SoFar(
      alloc: Allocator, args: seq<Argument>, n: nat, output: bool, returnSize: int, ngrn: nat, lists: seq<seq<nat>>)
    reads alloc
  {
    && n <= |args| && alloc.Valid(ngrn) && alloc.given == Flatten(lists)
    && (var b := alloc.byteSize;
        var first := if output && returnSize > 0 then Words(returnSize, b) else 0;
        && |alloc.given| == first + Demand(args[..n], b, output)
        && SamePosition(ngrn, Position(args, n, b, output, first), alloc.parameterCount)
        && Laid(lists, args, n, b, output, returnSize, alloc.parameterCount))
  }

  /** One turn of the loops of get_registers. */
  method AssignNext(
      alloc: Allocator, args: seq<Argument>, i: nat, output: bool, ghost returnSize: int, ngrn: nat,
      lists: seq<seq<nat>>)
    returns (ok: bool, ngrn': nat, lists': seq<seq<nat>>)
    requires i < |args| && SoFar(alloc, args, i, output, returnSize, ngrn, lists)
    modifies alloc
    ensures ok ==> SoFar(alloc, args, i + 1, output, returnSize, ngrn', lists')
    ensures
      var first := if output && returnSize > 0 then Words(returnSize, alloc.byteSize) else 0;
      !ok ==> first + Demand(args, alloc.byteSize, output) > NUM_REGS
  {
    hide InPlace, InRegister, Laid, Words, Begin, Flatten, SamePosition;
    var b := alloc.byteSize;
    ghost var first := if output && returnSize > 0 then Words(returnSize, b) else 0;
    ok, ngrn', lists' := true, ngrn, lists;
    assert args[..i + 1][..i] == args[..i];
    DemandMono(args, i + 1, b, output);
    if !InRegister(args[i], output) {
      LaidSkip(lists, args, i, b, output, returnSize, alloc.parameterCount);
      NextPosition(ngrn, Position(args, i, b, output, first), alloc.parameterCount);
      if !output { ngrn' := ngrn + 1; }
    } else {
      var regs, inc;
      ok, regs, inc := alloc.Add(ngrn, args[i].size, !output, Position(args, i, b, output, first));
      if !ok { return; }
      LaidMore(lists, regs, args, i, b, output, returnSize, alloc.parameterCount);
      FlattenMore(lists, regs);
      lists' := lists + [regs];
      ngrn' := ngrn + inc;
    }
  }

  lemma NextPosition(ngrn: nat, pos: nat, count: nat)
    requires SamePosition(ngrn, pos, count)
    ensures SamePosition(ngrn + 1, pos + 1, count)
  {
  }

  lemma NoLists()
    ensures Flatten([]) == []
  {
  }

  lemma FlattenMore(lists: seq<seq<nat>>, regs: seq<nat>)
    ensures Flatten(lists + [regs]) == Flatten(lists) + regs
  {
    assert (lists + [regs])[..|lists|] == lists;
  }

  lemma Unaligned(pos: nat, size: int, byteSize: int)
    ensures Begin(pos, size, byteSize, false) == pos
  {
  }

  lemma OneList(regs: seq<nat>)
    ensures Flatten([regs]) == regs
  {
    assert [regs][..0] == [];
  }

  lemma NoneLaid(lists: seq<seq<nat>>, args: seq<Argument>, byteSize: int, output: bool, returnSize: int, count: nat)
    requires byteSize > 0 && |lists| == if output && returnSize > 0 then 1 else 0
    requires output && returnSize > 0 ==> |lists[0]| == Words(returnSize, byteSize) && InPlace(lists[0], 0, count, [])
    ensures Laid(lists, args, 0, byteSize, output, returnSize, count)
  {
    assert lists[..0] == [];
  }

  lemma LaidSkip(
      lists: seq<seq<nat>>, args: seq<Argument>, n: nat, byteSize: int, output: bool, returnSize: int, count: nat)
    requires byteSize > 0 && n < |args| && !InRegister(args[n], output)
    requires Laid(lists, args, n, byteSize, output, returnSize, count)
    ensures Laid(lists, args, n + 1, byteSize, output, returnSize, count)
  {
    hide InPlace, InRegister;
  }

  // ---------------------------------------------------------------------------
  // There is only one such assignment

  lemma {:induction false} InPlaceUnique(a: seq<nat>, b: seq<nat>, start: nat, count: nat, taken: seq<nat>, n: nat)
    requires n <= |a| == |b| && InPlace(a, start, count, taken) && InPlace(b, start, count, taken)
    ensures a[..n] == b[..n]
  {
    if n > 0 {
      InPlaceUnique(a, b, start, count, taken, n - 1);
      assert WordInPlace(a[n - 1], start + (n - 1), count, taken + a[..n - 1]);
      assert WordInPlace(b[n - 1], start + (n - 1), count, taken + b[..n - 1]);
      assert a[..n] == a[..n - 1] + [a[n - 1]] && b[..n] == b[..n - 1] + [b[n - 1]];
    }
  }

  lemma HoldsUnique(a: seq<seq<nat>>, b: seq<seq<nat>>, j: nat, size: int, start: nat, byteSize: int, count: nat)
    requires byteSize > 0 && Holds(a, j, size, start, byteSize, count) && Holds(b, j, size, start, byteSize, count)
    requires a[..j] == b[..j]
    ensures a[..j + 1] == b[..j + 1]
  {
    InPlaceUnique(a[j], b[j], start, count, Flatten(a[..j]), |a[j]|);
    assert a[j] == a[j][..|a[j]|] && b[j] == b[j][..|b[j]|];
    assert a[..j + 1] == a[..j] + [a[j]] && b[..j + 1] == b[..j] + [b[j]];
  }

  lemma {:induction false} LaidUnique(
      a: seq<seq<nat>>, b: seq<seq<nat>>, args: seq<Argument>, n: nat, byteSize: int, output: bool, returnSize: int,
      count: nat, j: nat)
    requires byteSize > 0 && n <= |args| && j <= |a|
    requires Laid(a, args, n, byteSize, output, returnSize, count)
    requires Laid(b, args, n, byteSize, output, returnSize, count)
    ensures |a| == |b| && a[..j] == b[..j]
    ensures j == |a| ==> a == b
  {
    hide Holds, InRegister, Position, Begin;
    var returned := output && returnSize > 0;
    var skip, first := if returned then 1 else 0, if returned then Words(returnSize, byteSize) else 0;
    var ids := Carried(args, n, output);
    if j > 0 {
      LaidUnique(a, b, args, n, byteSize, output, returnSize, count, j - 1);
      if j - 1 < skip {
        HoldsUnique(a, b, 0, returnSize, 0, byteSize, count);
      } else {
        var i := ids[j - 1 - skip];
        HoldsUnique(a, b, j - 1, args[i].size,
          Begin(Position(args, i, byteSize, output, first), args[i].size, byteSize, !output), byteSize, count);
      }
    }
    assert a[..|a|] == a && b[..|b|] == b;
  }

  /** The inputs of GetInfo(uint64_t* out, InfoType, Handle, uint64_t) in 32-bit calls: the output takes position
      0, and the last argument, aligned to position 4, has no parameter registers left and takes 0 and 3. */
  lemma GetInfoInputs(lists: seq<seq<nat>>)
    ensures
      var args :=
        [Argument(8, true, false), Argument(4, false, false), Argument(4, false, false), Argument(8, false, false)];
      Laid(lists, args, 4, 4, false, 0, 4) <==> lists == [[1], [2], [0, 3]]
  {
    var args :=
      [Argument(8, true, false), Argument(4, false, false), Argument(4, false, false), Argument(8, false, false)];
    GetInfoPositions(args);
    GetInfoLaid(args);
    if Laid(lists, args, 4, 4, false, 0, 4) { LaidUnique(lists, [[1], [2], [0, 3]], args, 4, 4, false, 0, 4, |lists|); }
  }

  lemma GetInfoPositions(args: seq<Argument>)
    requires args ==
      [Argument(8, true, false), Argument(4, false, false), Argument(4, false, false), Argument(8, false, false)]
    ensures Carried(args, 4, false) == [1, 2, 3]
    ensures Position(args, 1, 4, false, 0) == 1 && Position(args, 2, 4, false, 0) ==
      2 && Position(args, 3, 4, false, 0) == 3
  {
    assert Carried(args, 0, false) == [] && Carried(args, 1, false) == [];
    assert Carried(args, 2, false) == [1] && Carried(args, 3, false) == [1, 2];
    assert Position(args, 0, 4, false, 0) == 0;
  }

  lemma GetInfoLaid(args: seq<Argument>)
    requires args ==
      [Argument(8, true, false), Argument(4, false, false), Argument(4, false, false), Argument(8, false, false)]
    requires Carried(args, 4, false) == [1, 2, 3]
    requires Position(args, 1, 4, false, 0) == 1 && Position(args, 2, 4, false, 0) ==
      2 && Position(args, 3, 4, false, 0) == 3
    ensures Laid([[1], [2], [0, 3]], args, 4, 4, false, 0, 4)
  {
    hide Position, Carried;
    var lists: seq<seq<nat>> := [[1], [2], [0, 3]];
    assert lists[..1] == [[1]] && lists[..2] == [[1], [2]];
    OneList([1]);
    FlattenMore([[1]], [2]);
    assert [[1], [2]] == [[1]] + [[2]];
    assert [0, 3][..0] == [] && [0, 3][..1] == [0];
  }
}
