/** The ring of free session ids of the audio managers: AcquireSessionId and ReleaseSessionId, for any
    number of sessions. */
module SessionIds {

  /** k places after place i of a ring of n places. */
  function Place(i: nat, k: nat, n: nat): (p: nat)
    requires i < n && k <= n
    ensures p < n
  {
    if i + k < n then i + k else i + k - n
  }

  lemma PlaceIsModulo(i: nat, n: nat)
    requires i < n
    ensures (i + 1) % n == Place(i, 1, n)
  {
    if i + 1 == n { assert (i + 1) % n == 0; }
  }

  /** The free ids in the order in which they will be given out. */
  function Queue(ids: seq<nat>, next: nat, count: nat): (q: seq<nat>)
    requires next < |ids| && count <= |ids|
    ensures |q| == count
  {
    seq(count, k requires 0 <= k < count => ids[Place(next, k, |ids|)])
  }

  predicate Distinct(s: seq<nat>)
  {
    forall i, j :: 0 <= i < j < |s| ==> s[i] != s[j]
  }

  lemma QueueRest(ids: seq<nat>, next: nat, count: nat)
    requires next < |ids| && 0 < count <= |ids|
    ensures Queue(ids, next, count)[0] == ids[next]
    ensures Queue(ids, Place(next, 1, |ids|), count - 1) == Queue(ids, next, count)[1..]
  {
  }

  lemma QueueMore(ids: seq<nat>, next: nat, count: nat, id: nat)
    requires next < |ids| && count < |ids|
    ensures Queue(ids[Place(next, count, |ids|) := id], next, count + 1) == Queue(ids, next, count) + [id]
  {
  }

  class Ring {
    const max: nat
    var ids: array<nat>           // session_ids
    var next: nat                 // next_session_id
    var free: nat                 // free_session_id
    var count: nat                // num_free_sessions
    ghost var held: set<nat>

    /** Free and held ids partition the numbers below max, no id is free twice, and the release cursor
        stands behind the last free id. */
    ghost predicate Valid()
      reads this, ids
    {
      && max > 0 && ids.Length == max && next < max && free < max && count <= max
      && free == Place(next, count, max)
      && Distinct(Free())
      && (forall x: nat :: x in Free() ==> x < max)
      && (forall x: nat :: x < max ==> (x in held <==> x !in Free()))
      && (forall x: nat :: x in held ==> x < max)
      && |held| + count == max
    }

    ghost function Free(): seq<nat>
      reads this, ids
      requires next < ids.Length && count <= ids.Length
    {
      Queue(ids[..], next, count)
    }

    constructor (max: nat)
      requires max > 0
      ensures this.max == max && Valid() && fresh(ids) && held == {}
      ensures Free() == seq(max, i => i)
    {
      this.max := max;
      ids := new nat[max](i => i);
      next, free, count := 0, 0, max;
      held := {};
      new;
      assert Queue(ids[..], 0, max) == seq(max, i => i);
      forall x: nat | x < max ensures x in Free() { assert Free()[x] == x; }
    }

    /** AcquireSessionId: fails exactly when all ids are held; otherwise the id that was released
        longest ago. */
    method Acquire() returns (ok: bool, id: nat)
      requires Valid()
      modifies this
      ensures Valid() && ids == old(ids)
      ensures ok <==> |old(held)| < max
      ensures ok ==> old(Free()) != [] && id == old(Free())[0] && id !in old(held)
      ensures ok ==> Free() == old(Free())[1..] && held == old(held) + {id}
      ensures !ok ==> Free() == old(Free()) && held == old(held)
    {
      if count == 0 { return false, 0; }
      QueueRest(ids[..], next, count);
      PlaceIsModulo(next, max);
      ghost var q := Free();
      id := ids[next];
      next := (next + 1) % max;
      count := count - 1;
      held := held + {id};
      ok := true;
      assert forall x :: x in q <==> x == q[0] || x in q[1..];
    }

    /** ReleaseSessionId of a held id: it becomes the last free one. */
    method Release(id: nat)
      requires Valid() && id in held
      modifies this, ids
      ensures Valid() && ids == old(ids)
      ensures Free() == old(Free()) + [id] && held == old(held) - {id}
    {
      QueueMore(ids[..], next, count, id);
      PlaceIsModulo(free, max);
      ids[free] := id;
      count := count + 1;
      free := (free + 1) % max;
      held := held - {id};
    }
  }
}
