/**
 * The fixed-capacity connection pool (`zDBPoolStack`, `zDBPoolStackHeader`,
 * `zpDBPool_`, `zpg_conn_pool_init` and the pop/push sections of `zwrite_db`).
 *
 * Slot ids `0 .. PoolSize-1` are either on the free-id stack or checked out
 * by exactly one caller. The stack is an array whose live part is
 * `stack[..header+1]`; `header == -1` means every slot is checked out.
 */
module Pool {
  import opened Wrappers
  import Teardown

  /** `zDB_POOL_SIZ`. */
  const PoolSize: nat := 16

  /** An open database session, opaque to the pool. */
  type Session = nat

  // ---------------------------------------------------------------------
  // The free-list as a value

  /** The ids `0 .. n-1` in increasing order. */
  function Range(n: nat): seq<int>
  {
    seq(n, i => i)
  }

  /** The set of slot ids `{0, .., n-1}`. */
  ghost function Ids(n: nat): set<int>
  {
    set i | i in Range(n)
  }

  ghost predicate Distinct(s: seq<int>)
  {
    forall i, j :: 0 <= i < j < |s| ==> s[i] != s[j]
  }

  /**
   * The pool invariant: the free stack holds no id twice, no id is both free
   * and checked out, and together they are exactly the ids `0 .. n-1`.
   */
  ghost predicate Partition(free: seq<int>, out: set<int>, n: nat)
  {
    && Distinct(free)
    && (forall i :: 0 <= i < |free| ==> 0 <= free[i] < n && free[i] !in out)
    && (forall id :: id in out ==> 0 <= id < n)
    && (forall id :: 0 <= id < n ==> id in out || id in free)
  }

  /** The id an acquire takes: the top of the stack. */
  function Top(free: seq<int>): int
    requires |free| > 0
  {
    free[|free| - 1]
  }

  /** The stack after an acquire. */
  function Popped(free: seq<int>): seq<int>
    requires |free| > 0
  {
    free[..|free| - 1]
  }

  /** The stack after a release of `id`. */
  function Pushed(free: seq<int>, id: int): seq<int>
  {
    free + [id]
  }

  /** The stack after releasing `ids` one after another, first to last. */
  function ReleaseAll(free: seq<int>, ids: seq<int>): seq<int>
    decreases |ids|
  {
    if ids == [] then free else ReleaseAll(Pushed(free, ids[0]), ids[1..])
  }

  /** The ids `k` successive acquires return, in order, and the stack left behind. */
  function AcquireAll(free: seq<int>, k: nat): (seq<int>, seq<int>)
    requires k <= |free|
  {
    if k == 0 then ([], free)
    else
      var (got, rest) := AcquireAll(Popped(free), k - 1);
      ([Top(free)] + got, rest)
  }

  function Reversed(s: seq<int>): seq<int>
  {
    if s == [] then [] else Reversed(s[1..]) + [s[0]]
  }

  // ---------------------------------------------------------------------
  // Properties of the free-list

  lemma {:induction false} DistinctCard(s: seq<int>)
    requires Distinct(s)
    ensures |set x | x in s| == |s|
  {
    if s != [] {
      var init := s[..|s| - 1];
      DistinctCard(init);
      assert (set x | x in s) == (set x | x in init) + {s[|s| - 1]};
    }
  }

  lemma IdsCard(n: nat)
    ensures |Ids(n)| == n
  {
    DistinctCard(Range(n));
  }

  /** Capacity: free ids plus checked-out ids always number exactly `n`. */
  lemma Capacity(free: seq<int>, out: set<int>, n: nat)
    requires Partition(free, out, n)
    ensures |free| + |out| == n
  {
    var fs := set x | x in free;
    DistinctCard(free);
    IdsCard(n);
    assert fs !! out;
    forall id | id in Ids(n)
      ensures id in fs + out
    {
      assert Range(n)[id] == id;
    }
    forall id | id in fs + out
      ensures id in Ids(n)
    {
      assert Range(n)[id] == id;
    }
    assert fs + out == Ids(n);
  }

  /** After `zpg_conn_pool_init` every id is free and none is checked out. */
  lemma InitialPartition(n: nat)
    ensures Partition(Range(n), {}, n)
  {
    var r := Range(n);
    forall id | 0 <= id < n
      ensures id in r
    {
      assert r[id] == id;
    }
  }

  /**
   * No double issue: an acquire on a non-empty stack returns an id that is not
   * checked out, and the invariant holds with that id added to the checked-out set.
   */
  lemma AcquireKeepsPartition(free: seq<int>, out: set<int>, n: nat)
    requires Partition(free, out, n) && |free| > 0
    ensures 0 <= Top(free) < n && Top(free) !in out
    ensures Partition(Popped(free), out + {Top(free)}, n)
  {
  }


  /**
   * A release of a checked-out id keeps the invariant, and there is always
   * room on the stack for it.
   */
  lemma ReleaseKeepsPartition(free: seq<int>, out: set<int>, n: nat, id: int)
    requires Partition(free, out, n) && id in out
    ensures |free| < n
    ensures Partition(Pushed(free, id), out - {id}, n)
  {
    Capacity(free, out, n);
    assert |out| >= 1 by {
      assert out != {};
    }
    var p := Pushed(free, id);
    forall i, j | 0 <= i < j < |p|
      ensures p[i] != p[j]
    {
      if j == |free| {
        assert p[i] == free[i];
      }
    }
  }

  lemma {:induction false} ReleaseAllAppends(free: seq<int>, ids: seq<int>)
    ensures ReleaseAll(free, ids) == free + ids
    decreases |ids|
  {
    if ids != [] {
      ReleaseAllAppends(Pushed(free, ids[0]), ids[1..]);
      assert Pushed(free, ids[0]) + ids[1..] == free + ids;
    }
  }

  lemma {:induction false} AcquireAfterAppend(free: seq<int>, ids: seq<int>)
    ensures AcquireAll(free + ids, |ids|) == (Reversed(ids), free)
    decreases |ids|
  {
    if ids == [] {
      assert free + ids == free;
    } else {
      var last := ids[|ids| - 1];
      var init := ids[..|ids| - 1];
      assert Popped(free + ids) == free + init;
      assert Top(free + ids) == last;
      AcquireAfterAppend(free, init);
      ReversedSnoc(init, last);
      assert init + [last] == ids;
      calc {
        AcquireAll(free + ids, |ids|);
        ([last] + AcquireAll(free + init, |init|).0, AcquireAll(free + init, |init|).1);
        ([last] + Reversed(init), free);
      }
    }
  }

  lemma {:induction false} ReversedSnoc(s: seq<int>, x: int)
    ensures Reversed(s + [x]) == [x] + Reversed(s)
    decreases |s|
  {
    if s != [] {
      assert (s + [x])[1..] == s[1..] + [x];
      ReversedSnoc(s[1..], x);
    }
  }

  /**
   * LIFO reuse: after releasing `ids` first to last, the next `|ids|` acquires
   * return them last to first and leave the stack as it was before.
   */
  lemma LifoReuse(free: seq<int>, ids: seq<int>)
    ensures |ReleaseAll(free, ids)| == |free| + |ids|
    ensures AcquireAll(ReleaseAll(free, ids), |ids|) == (Reversed(ids), free)
  {
    ReleaseAllAppends(free, ids);
    AcquireAfterAppend(free, ids);
  }

  // ---------------------------------------------------------------------
  // The pool object

  /** The process-wide pool state of `dbpool_postgres.c`. */
  class ConnPool {
    /** `zDBPoolStack`: free slot ids, bottom first. */
    var stack: array<int>
    /** `zDBPoolStackHeader`: index of the top of the stack, -1 when empty. */
    var header: int
    /** `zpDBPool_`: the session held by each slot (None for NULL). */
    var sessions: array<Option<Session>>
    /** The ids currently popped and not yet pushed back. */
    ghost var checkedOut: set<int>

    ghost predicate Valid()
      reads this, stack, sessions
    {
      && stack.Length == PoolSize
      && sessions.Length == PoolSize
      && -1 <= header < PoolSize
      && Partition(Free(), checkedOut, PoolSize)
      && forall i :: 0 <= i < PoolSize ==> sessions[i].Some?
    }

    /** The free ids, bottom of the stack first. */
    ghost function Free(): seq<int>
      reads this, stack
      requires -1 <= header < stack.Length
    {
      stack[..header + 1]
    }

    /** The statically allocated globals before `zpg_conn_pool_init`: all zero or NULL. */
    constructor ()
      ensures fresh(stack) && fresh(sessions)
      ensures stack.Length == PoolSize && sessions.Length == PoolSize
      ensures header == 0 && checkedOut == {}
      ensures forall i :: 0 <= i < PoolSize ==> stack[i] == 0 && sessions[i] == None
    {
      stack := new int[PoolSize](_ => 0);
      sessions := new Option<Session>[PoolSize](_ => None);
      header := 0;
      checkedOut := {};
    }

    /**
     * `zpg_conn_pool_init`. `connects[i]` is what the i-th connect attempt
     * returns (None for NULL). The first failing attempt ends the process
     * (`exited`); otherwise the stack holds `0 .. PoolSize-1` with the top at
     * `PoolSize-1` and every slot has its session.
     */
    method Init(connects: seq<Option<Session>>) returns (exited: bool)
      requires stack.Length == PoolSize && sessions.Length == PoolSize
      requires |connects| == PoolSize
      modifies this, stack, sessions
      ensures stack == old(stack) && sessions == old(sessions)
      ensures header == PoolSize - 1
      ensures exited <==> exists i :: 0 <= i < PoolSize && connects[i] == None
      ensures !exited ==> Valid() && checkedOut == {}
      ensures !exited ==> stack[..] == Range(PoolSize) && sessions[..] == connects
      ensures exited ==> exists k :: 0 <= k < PoolSize && connects[k] == None
                                     && (forall i :: 0 <= i < k ==> connects[i].Some?)
                                     && stack[..k + 1] == Range(k + 1)
                                     && sessions[..k + 1] == connects[..k + 1]
    {
      header := PoolSize - 1;
      var i := 0;
      while i < PoolSize
        invariant 0 <= i <= PoolSize
        invariant header == PoolSize - 1
        invariant stack == old(stack) && sessions == old(sessions)
        invariant forall k :: 0 <= k < i ==> stack[k] == k && sessions[k] == connects[k]
        invariant forall k :: 0 <= k < i ==> connects[k].Some?
      {
        stack[i] := i;
        sessions[i] := connects[i];
        if connects[i] == None {
          exited := true;
          assert stack[..i + 1] == Range(i + 1);
          assert sessions[..i + 1] == connects[..i + 1];
          return;
        }
        i := i + 1;
      }
      exited := false;
      checkedOut := {};
      assert stack[..] == Range(PoolSize);
      assert stack[..header + 1] == stack[..];
      InitialPartition(PoolSize);
    }

    /**
     * Pop section of `zwrite_db`: take the top id. The wait while the stack is
     * empty is not modelled, so the caller must find it non-empty.
     */
    method Acquire() returns (id: int)
      requires Valid() && header >= 0
      modifies this
      ensures Valid()
      ensures stack == old(stack) && sessions == old(sessions)
      ensures header == old(header) - 1
      ensures id == Top(old(Free())) && Free() == Popped(old(Free()))
      ensures 0 <= id < PoolSize && id !in old(checkedOut)
      ensures checkedOut == old(checkedOut) + {id}
    {
      AcquireKeepsPartition(Free(), checkedOut, PoolSize);
      id := stack[header];
      header := header - 1;
      checkedOut := checkedOut + {id};
    }

    /** Push section of `zwrite_db`: put a checked-out id back on top. */
    method Release(id: int)
      requires Valid() && id in checkedOut
      modifies this, stack
      ensures Valid()
      ensures stack == old(stack) && sessions == old(sessions)
      ensures header == old(header) + 1
      ensures Free() == Pushed(old(Free()), id)
      ensures checkedOut == old(checkedOut) - {id}
    {
      ReleaseKeepsPartition(Free(), checkedOut, PoolSize, id);
      ghost var before := Free();
      header := header + 1;
      stack[header] := id;
      checkedOut := checkedOut - {id};
      assert Free() == Pushed(before, id);
    }

    /**
     * `zwrite_db`: run one statement on a pooled session. `execResult` is what
     * the execute call on that session returns (None for NULL); a result it
     * returns is a new handle, which `owned` records and then clears. The slot
     * goes back on the stack on both branches, the raw result is cleared only
     * on success, and the return value is always 0.
     */
    method WriteDb(execResult: Option<Teardown.RawId>, owned: Teardown.Resources)
      returns (rc: int, used: int, session: Session)
      requires Valid() && header >= 0
      requires owned.Safe()
      requires execResult.Some? ==> execResult.value !in owned.rawLive
      modifies this, stack, owned
      ensures Valid() && rc == 0
      ensures stack == old(stack) && sessions == old(sessions)
      ensures used == Top(old(Free())) && Some(session) == sessions[used]
      ensures header == old(header) && Free() == old(Free())
      ensures checkedOut == old(checkedOut)
      ensures owned.Safe()
      ensures owned.trace == old(owned.trace) + Teardown.ClearActions(execResult, None)
      ensures owned.rawLive == if execResult.Some? then old(owned.rawLive)[execResult.value := false]
                               else old(owned.rawLive)
      ensures owned.blockLive == old(owned.blockLive) && owned.borrows == old(owned.borrows)
    {
      used := Acquire();
      session := sessions[used].value;
      if execResult.Some? {
        owned.AddResult(execResult.value);
        owned.ResClear(execResult, None);
      }
      Release(used);
      rc := 0;
    }
  }
}
