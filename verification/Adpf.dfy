/** The performance-hint sessions of src/common/adpf.cpp: two lists of threads, each with a session of the
    operating system behind it, under an operating system that may refuse any call. */
module Adpf {

  const NULL := 0

  const DEFAULT_TARGET := 16_666_667

  /** What the operating system is asked for: that an open session take over the threads, or a new session
      with a target duration. */
  datatype Request = Follow(handle: int) | Open(target: int)

  /** A call and its answer: the session that has the threads now, or null. */
  datatype Call = Asked(request: Request, ids: seq<int>, answer: int) | Closed(handle: int)

  /** The operating system's side: the open sessions and their threads, and the calls so far. */
  class Os {
    var open: map<int, seq<int>>
    ghost var calls: seq<Call>

    constructor ()
      ensures open == map[] && calls == []
    {
      open, calls := map[], [];
    }

    /** A new session, or null. Handles of open sessions are not given out again. */
    method CreateSession(ids: seq<int>, target: int) returns (h: int)
      modifies this
      ensures h == NULL ==> open == old(open)
      ensures h != NULL ==> h !in old(open) && open == old(open)[h := ids]
      ensures calls == old(calls) + [Asked(Open(target), ids, h)]
    {
      h :| h == NULL || (h != NULL && h !in open);
      if h != NULL { open := open[h := ids]; }
      calls := calls + [Asked(Open(target), ids, h)];
    }

    /** Closing needs a session that is open. */
    method CloseSession(h: int)
      requires h != NULL && h in open
      modifies this
      ensures open == old(open) - {h}
      ensures calls == old(calls) + [Closed(h)]
    {
      open := open - {h};
      calls := calls + [Closed(h)];
    }

    method SetThreads(h: int, ids: seq<int>) returns (ok: bool)
      requires h != NULL && h in open
      modifies this
      ensures open == if ok then old(open)[h := ids] else old(open)
      ensures calls == old(calls) + [Asked(Follow(h), ids, if ok then h else NULL)]
    {
      ok := *;
      if ok { open := open[h := ids]; }
      calls := calls + [Asked(Follow(h), ids, if ok then h else NULL)];
    }
  }

  datatype State = State(handle: int, threads: seq<int>, unsupported: bool)

  const RENDER := 0
  const BACKGROUND := 1

  predicate NoDuplicates(s: seq<int>)
  {
    forall i, j :: 0 <= i < j < |s| ==> s[i] != s[j]
  }

  /** std::erase: all occurrences. */
  function Without(s: seq<int>, t: int): (r: seq<int>)
  {
    if s == [] then []
    else Without(s[..|s| - 1], t) + if s[|s| - 1] == t then [] else [s[|s| - 1]]
  }

  lemma {:induction false} WithoutMembers(s: seq<int>, t: int)
    ensures forall x :: x in Without(s, t) <==> x in s && x != t
    ensures t !in s ==> Without(s, t) == s
  {
    if s != [] {
      var n := |s| - 1;
      WithoutMembers(s[..n], t);
      assert s == s[..n] + [s[n]];
    }
  }

  lemma {:induction false} WithoutKeepsOrder(s: seq<int>, t: int)
    requires NoDuplicates(s)
    ensures NoDuplicates(Without(s, t))
  {
    if s != [] {
      var n := |s| - 1;
      WithoutKeepsOrder(s[..n], t);
      WithoutMembers(s[..n], t);
      assert s[n] !in s[..n];
    }
  }

  /** Pushing a thread and erasing it again leaves the list as it was. */
  lemma PushErase(s: seq<int>, t: int)
    requires t !in s
    ensures Without(s + [t], t) == s
  {
    WithoutMembers(s, t);
    assert (s + [t])[..|s|] == s;
  }

  /** Lists have no duplicates and share no thread; a list has a session exactly when it is not empty; the
      open sessions are exactly the stored ones, which differ. */
  ghost predicate Consistent(states: seq<State>, open: map<int, seq<int>>)
  {
    && |states| == 2
    && (forall i :: 0 <= i < 2 ==> Sane(states[i]))
    && (forall t :: t in states[0].threads ==> t !in states[1].threads)
    && Matched(states, open)
  }

  predicate Sane(s: State)
  {
    NoDuplicates(s.threads) && (s.handle == NULL <==> s.threads == [])
  }

  ghost predicate Matched(states: seq<State>, open: map<int, seq<int>>)
    requires |states| == 2
  {
    && NULL !in open
    && (forall h :: h in open <==> h != NULL && (h == states[0].handle || h == states[1].handle))
    && (states[0].handle != NULL ==> states[0].handle != states[1].handle)
  }

  lemma Parts(states: seq<State>, open: map<int, seq<int>>)
    requires Consistent(states, open)
    ensures |states| == 2 && Matched(states, open) && Sane(states[0]) && Sane(states[1])
    ensures forall t :: t in states[0].threads ==> t !in states[1].threads
  {
  }

  lemma SameHandles(was: seq<State>, now: seq<State>, open: map<int, seq<int>>)
    requires |was| == |now| == 2 && Matched(was, open)
    requires was[0].handle == now[0].handle && was[1].handle == now[1].handle
    ensures Matched(now, open)
  {
  }

  lemma NothingOpen(states: seq<State>, open: map<int, seq<int>>)
    requires |states| == 2 && Matched(states, open) && states[0].handle == NULL && states[1].handle == NULL
    ensures open == map[]
  {
    assert forall h :: h !in open;
  }

  /** After a thread was taken out of list i and its session followed it, or did not. */
  lemma TakeKeeps(i: nat, tid: int, was: seq<State>, now: seq<State>, open: map<int, seq<int>>, ok: bool)
    requires i < 2 && |was| == |now| == 2
    requires Sane(was[0]) && Sane(was[1]) && (forall t :: t in was[0].threads ==> t !in was[1].threads)
    requires tid in was[i].threads && now[i].threads == Without(was[i].threads, tid)
    requires Matched(now, open) && now[1 - i] == was[1 - i]
    requires ok ==> now[i].threads != [] && now[i].handle != NULL
    requires !ok && now[i].threads == [] ==> now[i].handle == NULL
    requires !ok && now[i].threads != [] ==> now[i].handle == was[i].handle
    ensures Consistent(now, open)
  {
    hide Without, Matched;
    WithoutMembers(was[i].threads, tid);
    WithoutKeepsOrder(was[i].threads, tid);
  }

  /** After list i was given a thread and its session followed it, or did not. */
  lemma AddKeeps(i: nat, tid: int, was: seq<State>, now: seq<State>, open: map<int, seq<int>>, ok: bool)
    requires i < 2 && |was| == |now| == 2 && tid !in was[1 - i].threads
    requires Sane(was[0]) && Sane(was[1]) && (forall t :: t in was[0].threads ==> t !in was[1].threads)
    requires Matched(now, open) && now[1 - i] == was[1 - i]
    requires now[i].threads == was[i].threads + if tid in was[i].threads then [] else [tid]
    requires ok ==> now[i].handle != NULL
    requires !ok ==> now[i].handle == was[i].handle
    ensures ok ==> Consistent(now, open)
    ensures !ok ==> Consistent(now[i := now[i].(threads := was[i].threads)], open)
  {
    if !ok { SameHandles(now, now[i := now[i].(threads := was[i].threads)], open); }
  }

  // ---------------------------------------------------------------------------
  // What is asked of the operating system

  /** What is asked for, one after the other until something is granted: the session that is there takes the
      threads over, or a new one is opened; for background threads first without a target duration. */
  function Requests(i: nat, handle: int, hasSetThreads: bool, target: int): (r: seq<Request>)
  {
    (if handle != NULL && hasSetThreads then [Follow(handle)] else []) +
    if i == RENDER then [Open(target)] else [Open(0), Open(DEFAULT_TARGET)]
  }

  /** The calls ask for these in order until one is granted, whose answer is got, or all have been refused. */
  ghost predicate Tried(requests: seq<Request>, ids: seq<int>, calls: seq<Call>, got: int)
  {
    && 0 < |calls| <= |requests|
    && (forall k :: 0 <= k < |calls| ==>
          calls[k] == Asked(requests[k], ids, if k == |calls| - 1 then got else NULL))
    && (got == NULL ==> |calls| == |requests|)
  }

  /** What synchronising a list with its session asks for, and what then becomes of the session. An old
      session is closed only after its replacement has been opened. */
  ghost predicate Synced(
      i: nat, hasSetThreads: bool, target: int, was: State, now: State, ok: bool, calls: seq<Call>)
  {
    if was.threads == [] then
      now == was.(handle := NULL) && !ok && calls == if was.handle == NULL then [] else [Closed(was.handle)]
    else
      var replaced := ok && was.handle != NULL && now.handle != was.handle;
      var n := |calls| - if replaced then 1 else 0;
      && n >= 0 && calls[n..] == (if replaced then [Closed(was.handle)] else [])
      && Tried(Requests(i, was.handle, hasSetThreads, target), was.threads, calls[..n],
               if ok then now.handle else NULL)
      && (ok ==> now == was.(handle := now.handle) && now.handle != NULL)
      && (!ok ==> now == was.(unsupported := was.unsupported || was.handle == NULL))
  }

  /** No session with a target duration was refused. */
  ghost predicate Willing(calls: seq<Call>)
  {
    forall k :: 0 <= k < |calls| ==>
      !(calls[k].Asked? && calls[k].request.Open? && calls[k].request.target != 0 && calls[k].answer == NULL)
  }

  lemma WillingParts(a: seq<Call>, b: seq<Call>)
    requires Willing(a + b)
    ensures Willing(a) && Willing(b)
  {
    assert forall k :: 0 <= k < |a| ==> a[k] == (a + b)[k];
    assert forall k :: 0 <= k < |b| ==> b[k] == (a + b)[|a| + k];
  }

  /** A willing system refuses no list that has threads. */
  lemma WillingGrants(
      i: nat, hasSetThreads: bool, target: int, was: State, now: State, ok: bool, calls: seq<Call>)
    requires Synced(i, hasSetThreads, target, was, now, ok, calls) && target != 0 && Willing(calls)
    ensures ok <==> was.threads != []
  {
    var r := Requests(i, was.handle, hasSetThreads, target);
    assert was.threads != [] && !ok ==>
      calls == calls[..|calls|] && calls[|r| - 1] == Asked(r[|r| - 1], was.threads, NULL);
  }

  // ---------------------------------------------------------------------------
  // What the lists hold after a sequence of operations

  /** The number of a list. */
  type Session = i: nat | i < 2

  /** The operations that take the lock and change the registry. */
  datatype Op = Add(session: Session, tid: int) | Remove(tid: int) | SetTarget(duration: int) | Shutdown

  /** Whether an operation puts a thread into list i, and whether it takes it out. */
  predicate Puts(op: Op, ok: bool, i: nat, tid: int)
  {
    op.Add? && ok && op.session == i && op.tid == tid
  }

  predicate Takes(op: Op, i: nat, tid: int)
  {
    match op
    case Add(session, t) => session != i && t == tid
    case Remove(t) => t == tid
    case SetTarget(_) => false
    case Shutdown => true
  }

  /** List i after an operation: threads taken out leave the others in order, and a new one comes last. */
  ghost predicate ListStep(op: Op, ok: bool, i: nat, was: seq<int>, now: seq<int>)
  {
    match op
    case Add(session, t) =>
      if session != i then now == Without(was, t)
      else now == was + if ok && t !in was then [t] else []
    case Remove(t) => now == Without(was, t)
    case SetTarget(_) => now == was
    case Shutdown => now == []
  }

  /** A thread is in list i after a run exactly when some addition to this list succeeded, or it was there
      at first, and nothing took it out later. */
  ghost predicate Member(ops: seq<Op>, results: seq<bool>, first: seq<int>, i: nat, tid: int)
    requires |results| == |ops|
  {
    || (tid in first && (forall m :: 0 <= m < |ops| ==> !Takes(ops[m], i, tid)))
    || exists k :: Since(ops, results, i, tid, k)
  }

  ghost predicate Since(ops: seq<Op>, results: seq<bool>, i: nat, tid: int, k: int)
    requires |results| == |ops|
  {
    && 0 <= k < |ops| && Puts(ops[k], results[k], i, tid)
    && forall m :: k < m < |ops| ==> !Takes(ops[m], i, tid)
  }

  /** What list i holds after a run. */
  ghost predicate Holds(ops: seq<Op>, results: seq<bool>, first: seq<int>, i: nat, list: seq<int>)
    requires |results| == |ops|
  {
    forall tid :: tid in list <==> Member(ops, results, first, i, tid)
  }

  lemma StepMember(op: Op, ok: bool, i: nat, was: seq<int>, now: seq<int>, tid: int)
    requires ListStep(op, ok, i, was, now)
    ensures tid in now <==> Puts(op, ok, i, tid) || (tid in was && !Takes(op, i, tid))
  {
    match op
    case Add(_, t) => WithoutMembers(was, t);
    case Remove(t) => WithoutMembers(was, t);
    case _ =>
  }

  lemma MemberSnoc(ops: seq<Op>, results: seq<bool>, first: seq<int>, i: nat, op: Op, ok: bool, tid: int)
    requires |results| == |ops|
    ensures Member(ops + [op], results + [ok], first, i, tid) <==>
      Puts(op, ok, i, tid) || (Member(ops, results, first, i, tid) && !Takes(op, i, tid))
  {
    hide Puts, Takes;
    var ops', results' := ops + [op], results + [ok];
    assert ops'[|ops|] == op && results'[|ops|] == ok;
    if Puts(op, ok, i, tid) {
      assert Since(ops', results', i, tid, |ops|);
    }
    if k :| Since(ops, results, i, tid, k) && !Takes(op, i, tid) {
      assert Since(ops', results', i, tid, k);
    }
    if k :| Since(ops', results', i, tid, k) && !Puts(op, ok, i, tid) {
      assert k < |ops| && ops'[k] == ops[k];
      assert forall m :: 0 <= m < |ops| ==> ops'[m] == ops[m];
      assert Since(ops, results, i, tid, k);
    }
    assert (forall m :: 0 <= m < |ops'| ==> !Takes(ops'[m], i, tid)) ==>
        forall m :: 0 <= m < |ops| ==> !Takes(ops[m], i, tid) by {
      assert forall m :: 0 <= m < |ops| ==> ops'[m] == ops[m];
    }
  }

  lemma HoldsStep(
      ops: seq<Op>, results: seq<bool>, first: seq<int>, i: nat, op: Op, ok: bool, was: seq<int>, now: seq<int>)
    requires |results| == |ops| && Holds(ops, results, first, i, was) && ListStep(op, ok, i, was, now)
    ensures Holds(ops + [op], results + [ok], first, i, now)
  {
    hide ListStep, Member, Puts, Takes;
    forall tid ensures tid in now <==> Member(ops + [op], results + [ok], first, i, tid) {
      StepMember(op, ok, i, was, now, tid);
      MemberSnoc(ops, results, first, i, op, ok, tid);
    }
  }

  /** Every session has exactly the threads of its list. */
  ghost predicate InStep(states: seq<State>, open: map<int, seq<int>>)
    requires |states| == 2
  {
    forall i :: 0 <= i < 2 && states[i].threads != [] ==>
      states[i].handle in open && open[states[i].handle] == states[i].threads
  }

  /** Other sessions than h are as they were. */
  ghost predicate OthersSame(was: map<int, seq<int>>, now: map<int, seq<int>>, h: int)
  {
    forall x :: x in was && x != h ==> x in now && now[x] == was[x]
  }

  lemma InStepAfter(
      i: nat, was: seq<State>, now: seq<State>, openWas: map<int, seq<int>>, openNow: map<int, seq<int>>, ok: bool)
    requires i < 2 && |was| == |now| == 2 && now[1 - i] == was[1 - i]
    requires Matched(was, openWas) && Matched(now, openNow) && OthersSame(openWas, openNow, was[i].handle)
    requires was[1 - i].threads != [] ==>
      was[1 - i].handle in openWas && openWas[was[1 - i].handle] == was[1 - i].threads
    requires ok ==> now[i].handle != NULL && now[i].handle in openNow && openNow[now[i].handle] == now[i].threads
    requires ok || now[i].threads == []
    ensures InStep(now, openNow)
  {
  }

  lemma InStepOther(i: nat, states: seq<State>, open: map<int, seq<int>>)
    requires i < 2 && |states| == 2 && InStep(states, open)
    ensures states[i].threads != [] ==> states[i].handle in open && open[states[i].handle] == states[i].threads
  {
  }

  lemma InStepEmpty(states: seq<State>, open: map<int, seq<int>>)
    requires states == [State(NULL, [], false), State(NULL, [], false)]
    ensures InStep(states, open)
  {
  }

  lemma HoldsAtFirst(first: seq<int>, i: nat)
    ensures Holds([], [], first, i, first)
  {
  }

  lemma ClosedMatched(i: nat, was: seq<State>, now: seq<State>, open: map<int, seq<int>>)
    requires i < 2 && |was| == 2 && Matched(was, open) && now == was[i := was[i].(handle := NULL)]
    ensures Matched(now, open - {was[i].handle})
  {
  }

  /** A new session in the place of the one of list i. */
  lemma ReplacedMatched(i: nat, was: seq<State>, now: seq<State>, open: map<int, seq<int>>, h: int, ids: seq<int>)
    requires i < 2 && |was| == 2 && Matched(was, open) && h != NULL && h !in open
    requires now == was[i := was[i].(handle := h)]
    ensures
      var open' := open[h := ids] - {was[i].handle};
      Matched(now, open') && h in open' && open'[h] == ids && OthersSame(open, open', was[i].handle)
  {
  }

  lemma SetMatched(i: nat, states: seq<State>, open: map<int, seq<int>>, ids: seq<int>)
    requires i < 2 && |states| == 2 && Matched(states, open) && states[i].handle != NULL
    ensures
      var open' := open[states[i].handle := ids];
      Matched(states, open') && OthersSame(open, open', states[i].handle)
  {
  }

  lemma Untouched(open: map<int, seq<int>>, h: int)
    ensures OthersSame(open, open, h) && OthersSame(open, open - {h}, h)
  {
  }

  lemma StoredOpen(i: nat, states: seq<State>, open: map<int, seq<int>>)
    requires i < 2 && |states| == 2 && Matched(states, open)
    ensures NULL !in open && (states[i].handle != NULL ==> states[i].handle in open)
  {
  }

  lemma SyncedEmpty(i: nat, hasSetThreads: bool, target: int, was: State, calls: seq<Call>)
    requires was.threads == [] && calls == if was.handle == NULL then [] else [Closed(was.handle)]
    ensures Synced(i, hasSetThreads, target, was, was.(handle := NULL), false, calls)
  {
  }

  lemma SyncedFollow(i: nat, hasSetThreads: bool, target: int, was: State)
    requires was.threads != [] && was.handle != NULL && hasSetThreads
    ensures Synced(i, hasSetThreads, target, was, was, true, [Asked(Follow(was.handle), was.threads, was.handle)])
  {
    var calls := [Asked(Follow(was.handle), was.threads, was.handle)];
    assert calls[..1] == calls && was == was.(handle := was.handle);
  }

  /** Opening a new session comes after a refusal to follow, or is all there is to ask for. */
  lemma SyncedOpen(i: nat, hasSetThreads: bool, target: int, was: State, opening: seq<Call>, got: int)
    requires was.threads != [] && Tried(Requests(i, NULL, false, target), was.threads, opening, got)
    requires got == NULL || got != was.handle
    ensures
      var following :=
        if was.handle != NULL && hasSetThreads then [Asked(Follow(was.handle), was.threads, NULL)] else [];
      var closing := if was.handle == NULL || got == NULL then [] else [Closed(was.handle)];
      var now :=
        if got == NULL then was.(unsupported := was.unsupported || was.handle == NULL) else was.(handle := got);
      Synced(i, hasSetThreads, target, was, now, got != NULL, following + opening + closing)
  {
    hide Tried;
    NextTried(i, was.handle, hasSetThreads, target, was.threads, opening, got);
    var following :=
      if was.handle != NULL && hasSetThreads then [Asked(Follow(was.handle), was.threads, NULL)] else [];
    var closing := if was.handle == NULL || got == NULL then [] else [Closed(was.handle)];
    var calls, n := following + opening + closing, |following + opening|;
    assert calls[..n] == following + opening && calls[n..] == closing;
  }

  lemma NextTried(
      i: nat, handle: int, hasSetThreads: bool, target: int, ids: seq<int>, opening: seq<Call>, got: int)
    requires Tried(Requests(i, NULL, false, target), ids, opening, got)
    ensures
      var following := if handle != NULL && hasSetThreads then [Asked(Follow(handle), ids, NULL)] else [];
      Tried(Requests(i, handle, hasSetThreads, target), ids, following + opening, got)
  {
  }

  lemma SyncedParts(i: nat, hasSetThreads: bool, target: int, was: State, now: State, ok: bool, calls: seq<Call>)
    requires Synced(i, hasSetThreads, target, was, now, ok, calls)
    ensures now.threads == was.threads
    ensures ok ==> now.threads != [] && now.handle != NULL
    ensures !ok && now.threads == [] ==> now.handle == NULL
    ensures !ok && now.threads != [] ==> now.handle == was.handle
  {
  }

  class Registry {
    const os: Os
    const hasSetThreads: bool
    var states: seq<State>
    var target: int

    ghost predicate Valid()
      reads this, os
    {
      Consistent(states, os.open) && target > 0
    }

    constructor (hasSetThreads: bool)
      ensures Valid() && fresh(os) && os.calls == []
      ensures states == [State(NULL, [], false), State(NULL, [], false)] && target == 16_666_667
    {
      this.hasSetThreads := hasSetThreads;
      os := new Os();
      states := [State(NULL, [], false), State(NULL, [], false)];
      target := DEFAULT_TARGET;
    }

    /** CloseLocked. */
    method CloseLocked(i: nat) returns (ghost calls: seq<Call>)
      requires i < 2 && |states| == 2 && NULL !in os.open
      requires states[i].handle != NULL ==> states[i].handle in os.open
      modifies this`states, os
      ensures |states| == 2 && states == old(states)[i := old(states)[i].(handle := NULL)]
      ensures os.calls == old(os.calls) + calls
      ensures calls == if old(states)[i].handle == NULL then [] else [Closed(old(states)[i].handle)]
      ensures os.open == old(os.open) - {old(states)[i].handle}
    {
      calls := [];
      if states[i].handle != NULL {
        calls := [Closed(states[i].handle)];
        os.CloseSession(states[i].handle);
        states := states[i := states[i].(handle := NULL)];
      }
    }

    /** CreateSessionFor: a session without a target duration is tried again with the default one. */
    method CreateSessionFor(i: nat, threads: seq<int>) returns (h: int, ghost calls: seq<Call>)
      requires target > 0
      modifies os
      ensures h == NULL ==> os.open == old(os.open)
      ensures h != NULL ==> h !in old(os.open) && os.open == old(os.open)[h := threads]
      ensures os.calls == old(os.calls) + calls && Tried(Requests(i, NULL, false, target), threads, calls, h)
    {
      var wanted := if i == RENDER then target else 0;
      h := os.CreateSession(threads, wanted);
      calls := [Asked(Open(wanted), threads, h)];
      if h == NULL && wanted == 0 {
        h := os.CreateSession(threads, DEFAULT_TARGET);
        calls := calls + [Asked(Open(DEFAULT_TARGET), threads, h)];
      }
    }

    /** A session that has been opened takes the place of the one of list i. */
    method Replace(i: nat, h: int, ghost open: map<int, seq<int>>) returns (ghost calls: seq<Call>)
      requires i < 2 && |states| == 2 && Matched(states, open) && h != NULL && h !in open
      requires os.open == open[h := states[i].threads]
      modifies this`states, os
      ensures |states| == 2 && states == old(states)[i := old(states)[i].(handle := h)] && Matched(states, os.open)
      ensures h in os.open && os.open[h] == states[i].threads && OthersSame(open, os.open, old(states)[i].handle)
      ensures os.calls == old(os.calls) + calls
      ensures calls == if old(states)[i].handle == NULL then [] else [Closed(old(states)[i].handle)]
    {
      hide Matched, OthersSame;
      StoredOpen(i, states, open);
      ghost var before := states;
      calls := CloseLocked(i);
      states := states[i := states[i].(handle := h)];
      assert states == before[i := before[i].(handle := h)];
      ReplacedMatched(i, before, states, open, h, before[i].threads);
    }

    /** A new session for list i, or the old one stays. */
    method Reopen(i: nat) returns (ok: bool, ghost opening: seq<Call>, ghost closing: seq<Call>)
      requires i < 2 && |states| == 2 && Matched(states, os.open) && target > 0
      modifies this`states, os
      ensures |states| == 2 && Matched(states, os.open) && states[1 - i] == old(states)[1 - i]
      ensures os.calls == old(os.calls) + opening + closing
      ensures closing == if !ok || old(states)[i].handle == NULL then [] else [Closed(old(states)[i].handle)]
      ensures
        var got := if ok then states[i].handle else NULL;
        Tried(Requests(i, NULL, false, target), old(states)[i].threads, opening, got)
      ensures ok ==> states[i] == old(states)[i].(handle := states[i].handle) && states[i].handle != NULL
      ensures ok ==> states[i].handle in os.open && os.open[states[i].handle] == states[i].threads
      ensures ok ==> states[i].handle != old(states)[i].handle
      ensures !ok ==>
        var was := old(states)[i];
        states[i] == was.(unsupported := was.unsupported || was.handle == NULL)
      ensures OthersSame(old(os.open), os.open, old(states)[i].handle)
    {
      hide Tried, Matched, OthersSame, Requests;
      ghost var open, before := os.open, states;
      StoredOpen(i, states, os.open);
      var replacement;
      replacement, opening := CreateSessionFor(i, states[i].threads);
      closing := [];
      ok := replacement != NULL;
      if !ok {
        if states[i].handle == NULL {
          states := states[i := states[i].(unsupported := true)];
        }
        SameHandles(before, states, os.open);
        Untouched(open, before[i].handle);
        return;
      }
      closing := Replace(i, replacement, open);
    }

    /** SyncLocked: the session of list i follows the list, or the old session stays. */
    method SyncLocked(i: nat) returns (ok: bool, ghost calls: seq<Call>)
      requires i < 2 && |states| == 2 && Matched(states, os.open) && target > 0
      modifies this`states, os
      ensures |states| == 2 && Matched(states, os.open) && states[1 - i] == old(states)[1 - i]
      ensures os.calls == old(os.calls) + calls
      ensures Synced(i, hasSetThreads, target, old(states)[i], states[i], ok, calls)
      ensures ok ==> states[i].handle in os.open && os.open[states[i].handle] == states[i].threads
      ensures OthersSame(old(os.open), os.open, old(states)[i].handle)
    {
      hide Tried, Synced, Matched, OthersSame;
      calls := [];
      ghost var was, open, before := states[i], os.open, states;
      StoredOpen(i, states, os.open);
      if states[i].threads == [] {
        calls := CloseLocked(i);
        ClosedMatched(i, before, states, open);
        SyncedEmpty(i, hasSetThreads, target, was, calls);
        Untouched(open, was.handle);
        return false, calls;
      }
      if states[i].handle != NULL && hasSetThreads {
        ok := os.SetThreads(states[i].handle, states[i].threads);
        calls := [Asked(Follow(was.handle), was.threads, if ok then was.handle else NULL)];
        if ok {
          SyncedFollow(i, hasSetThreads, target, was);
          SetMatched(i, states, open, was.threads);
          return;
        }
      }
      ghost var opening, closing;
      ok, opening, closing := Reopen(i);
      SyncedOpen(i, hasSetThreads, target, was, opening, if ok then states[i].handle else NULL);
      calls := calls + opening + closing;
    }

    /** Takes a thread out of list i, if it is there. */
    method TakeOut(i: nat, tid: int) returns (ghost calls: seq<Call>)
      requires Valid() && i < 2 && |states| == 2
      modifies this`states, os
      ensures Valid() && |states| == 2
      ensures states[i].threads == Without(old(states)[i].threads, tid) && states[1 - i] == old(states)[1 - i]
      ensures os.calls == old(os.calls) + calls
      ensures tid !in old(states)[i].threads ==> calls == []
      ensures tid in old(states)[i].threads ==> exists ok ::
        Synced(i, hasSetThreads, target, old(states)[i].(threads := states[i].threads), states[i], ok, calls)
      ensures Willing(calls) && InStep(old(states), old(os.open)) ==> InStep(states, os.open)
    {
      hide Consistent, Matched, Sane, Without, Synced, Willing, InStep;
      Parts(states, os.open);
      WithoutMembers(states[i].threads, tid);
      calls := [];
      if tid in states[i].threads {
        ghost var before := states;
        states := states[i := states[i].(threads := Without(states[i].threads, tid))];
        SameHandles(before, states, os.open);
        ghost var shrunk := states;
        var ok;
        ok, calls := SyncLocked(i);
        SyncedParts(i, hasSetThreads, target, shrunk[i], states[i], ok, calls);
        TakeKeeps(i, tid, before, states, os.open, ok);
        assert shrunk[i] == old(states)[i].(threads := states[i].threads);
        if Willing(calls) && InStep(old(states), old(os.open)) {
          WillingGrants(i, hasSetThreads, target, shrunk[i], states[i], ok, calls);
          InStepOther(1 - i, old(states), old(os.open));
          InStepAfter(i, shrunk, states, old(os.open), os.open, ok);
        }
      }
    }

    /** Adds a thread that is not in the other list. */
    method AddOwn(i: nat, tid: int) returns (ok: bool, ghost calls: seq<Call>)
      requires Valid() && i < 2 && |states| == 2 && tid !in states[1 - i].threads
      modifies this`states, os
      ensures Valid() && |states| == 2 && states[1 - i] == old(states)[1 - i]
      ensures states[i].threads == old(states)[i].threads + if ok && tid !in old(states)[i].threads then [tid] else []
      ensures ok ==> tid in states[i].threads && states[i].handle in os.open
      ensures ok ==> os.open[states[i].handle] == states[i].threads
      ensures os.calls == old(os.calls) + calls
      ensures
        var all := old(states)[i].threads + if tid in old(states)[i].threads then [] else [tid];
        Synced(i, hasSetThreads, target, old(states)[i].(threads := all), states[i].(threads := all), ok, calls)
      ensures Willing(calls) ==> ok
      ensures Willing(calls) && InStep(old(states), old(os.open)) ==> InStep(states, os.open)
    {
      hide Consistent, Matched, Sane, Without, Synced, Willing, InStep, OthersSame;
      ghost var before, open := states, os.open;
      Parts(states, os.open);
      var added := tid !in states[i].threads;
      if added {
        PushErase(states[i].threads, tid);
        states := states[i := states[i].(threads := states[i].threads + [tid])];
        SameHandles(before, states, os.open);
      }
      ghost var grown := states;
      ok, calls := SyncLocked(i);
      SyncedParts(i, hasSetThreads, target, grown[i], states[i], ok, calls);
      AddKeeps(i, tid, before, states, os.open, ok);
      assert !added ==> states[i := states[i].(threads := before[i].threads)] == states;
      if Willing(calls) {
        WillingGrants(i, hasSetThreads, target, grown[i], states[i], ok, calls);
        if InStep(before, open) {
          InStepOther(1 - i, before, open);
          InStepAfter(i, grown, states, open, os.open, ok);
        }
      }
      if !ok {
        if added {
          states := states[i := states[i].(threads := Without(states[i].threads, tid))];
        }
      }
    }

    /** The locked part of AddCurrentThread. On success the thread is in this list only, and the
        operating system's session has exactly the threads of the list; on failure, which only refusals of
        the operating system bring about, the list is as before. */
    method AddLocked(i: nat, tid: int) returns (ok: bool, ghost moving: seq<Call>, ghost calls: seq<Call>)
      requires Valid() && i < 2 && |states| == 2
      modifies this`states, os
      ensures Valid() && |states| == 2
      ensures states[1 - i].threads == Without(old(states)[1 - i].threads, tid)
      ensures states[i].threads == old(states)[i].threads + if ok && tid !in old(states)[i].threads then [tid] else []
      ensures ok ==> tid in states[i].threads && states[i].handle in os.open
      ensures ok ==> os.open[states[i].handle] == states[i].threads
      ensures os.calls == old(os.calls) + (moving + calls)
      ensures tid !in old(states)[1 - i].threads ==> moving == []
      ensures
        var all := old(states)[i].threads + if tid in old(states)[i].threads then [] else [tid];
        Synced(i, hasSetThreads, target, old(states)[i].(threads := all), states[i].(threads := all), ok, calls)
      ensures Willing(moving + calls) ==> ok
      ensures Willing(moving + calls) && InStep(old(states), old(os.open)) ==> InStep(states, os.open)
    {
      hide Consistent, Without, Synced, Willing, InStep;
      WithoutMembers(states[1 - i].threads, tid);
      moving := TakeOut(1 - i, tid);
      ok, calls := AddOwn(i, tid);
      if Willing(moving + calls) { WillingParts(moving, calls); }
    }

    /** RemoveCurrentThread. */
    method RemoveLocked(tid: int) returns (ghost calls: seq<Call>)
      requires Valid() && |states| == 2
      modifies this`states, os
      ensures Valid() && |states| == 2
      ensures forall i :: 0 <= i < 2 ==> states[i].threads == Without(old(states)[i].threads, tid)
      ensures os.calls == old(os.calls) + calls
      ensures Willing(calls) && InStep(old(states), old(os.open)) ==> InStep(states, os.open)
    {
      hide Consistent, Without, Willing, InStep;
      ghost var first := TakeOut(0, tid);
      ghost var second := TakeOut(1, tid);
      calls := first + second;
      if Willing(calls) { WillingParts(first, second); }
    }

    /** SetTargetWorkDuration. */
    method SetTarget(duration: int)
      requires Valid() && |states| == 2
      modifies this`target
      ensures Valid() && target == if duration > 0 then duration else old(target)
    {
      if duration > 0 { target := duration; }
    }

    /** Shutdown: everything is closed and forgotten. */
    method ShutdownLocked() returns (ghost calls: seq<Call>)
      requires Valid()
      modifies this`states, os
      ensures Valid() && os.open == map[]
      ensures states == [State(NULL, [], false), State(NULL, [], false)]
      ensures os.calls == old(os.calls) + calls
    {
      calls := [];
      for i := 0 to 2
        invariant |states| == 2 && Matched(states, os.open)
        invariant forall k :: 0 <= k < i ==> states[k] == State(NULL, [], false)
        invariant os.calls == old(os.calls) + calls
      {
        StoredOpen(i, states, os.open);
        ghost var before, open := states, os.open;
        ghost var closing := CloseLocked(i);
        ClosedMatched(i, before, states, open);
        calls := calls + closing;
        states := states[i := State(NULL, [], false)];
      }
      NothingOpen(states, os.open);
    }

    /** Any operation: what becomes of the lists. */
    method Do(op: Op) returns (ok: bool, ghost calls: seq<Call>)
      requires Valid() && |states| == 2
      modifies this, os
      ensures Valid() && |states| == 2
      ensures forall i :: 0 <= i < 2 ==> ListStep(op, ok, i, old(states)[i].threads, states[i].threads)
      ensures os.calls == old(os.calls) + calls
      ensures Willing(calls) ==> ok
      ensures Willing(calls) && InStep(old(states), old(os.open)) ==> InStep(states, os.open)
      ensures op.Shutdown? ==> os.open == map[]
    {
      hide Consistent, Without, Willing, InStep, Synced;
      ok, calls := true, [];
      match op
      case Add(session, tid) =>
        ghost var moving, own;
        ok, moving, own := AddLocked(session, tid);
        calls := moving + own;
      case Remove(tid) => calls := RemoveLocked(tid);
      case SetTarget(duration) => SetTarget(duration);
      case Shutdown =>
        calls := ShutdownLocked();
        InStepEmpty(states, os.open);
    }

    /** Any sequence of operations, with any answers of the operating system, keeps the lists and sessions
        consistent. A thread is in a list exactly when an addition succeeded and nothing took it out since.
        If the operating system never refuses a session, every addition succeeds and every session has
        exactly the threads of its list. */
    method Run(ops: seq<Op>) returns (results: seq<bool>, ghost calls: seq<Call>)
      requires Valid() && |states| == 2
      modifies this, os
      ensures Valid() && |states| == 2 && |results| == |ops|
      ensures forall i :: 0 <= i < 2 ==> Holds(ops, results, old(states)[i].threads, i, states[i].threads)
      ensures os.calls == old(os.calls) + calls
      ensures Willing(calls) ==> forall k :: 0 <= k < |ops| ==> results[k]
      ensures Willing(calls) && InStep(old(states), old(os.open)) ==> InStep(states, os.open)
      ensures ops != [] && ops[|ops| - 1].Shutdown? ==> os.open == map[]
    {
      hide Consistent, Willing, InStep, Holds, ListStep;
      results, calls := [], [];
      HoldsAtFirst(states[0].threads, 0);
      HoldsAtFirst(states[1].threads, 1);
      for n := 0 to |ops|
        invariant Valid() && |states| == 2 && |results| == n
        invariant forall i :: 0 <= i < 2 ==>
          Holds(ops[..n], results, old(states)[i].threads, i, states[i].threads)
        invariant os.calls == old(os.calls) + calls
        invariant Willing(calls) ==> forall k :: 0 <= k < n ==> results[k]
        invariant Willing(calls) && InStep(old(states), old(os.open)) ==> InStep(states, os.open)
        invariant n > 0 && ops[n - 1].Shutdown? ==> os.open == map[]
      {
        ghost var before, earlier := states, calls;
        var ok;
        ghost var more;
        ok, more := Do(ops[n]);
        calls := calls + more;
        if Willing(calls) { WillingParts(earlier, more); }
        HoldsStep(ops[..n], results, old(states)[0].threads, 0, ops[n], ok, before[0].threads, states[0].threads);
        HoldsStep(ops[..n], results, old(states)[1].threads, 1, ops[n], ok, before[1].threads, states[1].threads);
        assert ops[..n] + [ops[n]] == ops[..n + 1];
        results := results + [ok];
      }
      assert ops[..|ops|] == ops;
    }
  }
}
