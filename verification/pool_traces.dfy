/**
 Runs of calls on one pool, each call applied in turn. A call that would
 block leaves the state as it was: in a run nothing else could wake it.
 */
module PoolTraces {
  import opened Optional
  import P = ResourcePool
  import ListOps
  import PoolProperties

  /** The public methods of the pool; `isOpen()` changes nothing and is left
      out of runs. The constructors carry the names of the `ResourcePool`
      functions they apply, which this module only reaches as `P.`. */
  datatype Call<R> =
    | Open
    | CloseNow
    | Acquire
    | TimedAcquire
    | Add(r: Option<R>)
    | Release(r: Option<R>)
    | RemoveNow(r: Option<R>)
    | Close
    | Remove(r: Option<R>)

  /** The state after one call. */
  function Apply<R(==)>(p: P.Pool<R>, c: Call<R>): P.Pool<R>
  {
    match c
    case Open => P.Open(p)
    case CloseNow => P.CloseNow(p)
    case Acquire => var o := P.Acquire(p); if o.Blocked? then p else o.pool
    case TimedAcquire => P.TimedAcquire(p).pool
    case Add(r) => P.Add(p, r).pool
    case Release(r) => P.Release(p, r)
    case RemoveNow(r) => P.RemoveNow(p, r).pool
    case Close => var o := P.Close(p); if o.Blocked? then p else o.pool
    case Remove(r) => var o := P.Remove(p, r); if o.Blocked? then p else o.pool
  }

  /** The state after a run of calls. */
  function Run<R(==)>(p: P.Pool<R>, cs: seq<Call<R>>): P.Pool<R>
    decreases |cs|
  {
    if |cs| == 0 then p else Run(Apply(p, cs[0]), cs[1..])
  }

  /** The pool holds no `null` entry. */
  predicate NullFree<R(==)>(p: P.Pool<R>)
  {
    None !in p.unAcquired && None !in p.acquired
  }

  /** What one call hands to the pool: the argument of a successful `add`,
      and the argument of any `release`. */
  function SuppliedBy<R(==)>(c: Call<R>): multiset<Option<R>>
  {
    match c
    case Add(r) => if r.Some? then multiset{r} else multiset{}
    case Release(r) => multiset{r}
    case _ => multiset{}
  }

  /** What a run hands to the pool. */
  function Supplied<R(==)>(cs: seq<Call<R>>): multiset<Option<R>>
    decreases |cs|
  {
    if |cs| == 0 then multiset{} else SuppliedBy(cs[0]) + Supplied(cs[1..])
  }

  /** What one call adds through `add`. */
  function AddedBy<R(==)>(c: Call<R>): multiset<Option<R>>
  {
    if c.Add? then SuppliedBy(c) else multiset{}
  }

  /** What a run adds through `add`. */
  function Added<R(==)>(cs: seq<Call<R>>): multiset<Option<R>>
    decreases |cs|
  {
    if |cs| == 0 then multiset{} else AddedBy(cs[0]) + Added(cs[1..])
  }

  /** What one call takes out of the pool: the argument of a `removeNow` or
      `remove` that answers true. */
  function RemovedBy<R(==)>(p: P.Pool<R>, c: Call<R>): multiset<Option<R>>
  {
    match c
    case RemoveNow(r) => if P.RemoveNow(p, r).value then multiset{r} else multiset{}
    case Remove(r) =>
      var o := P.Remove(p, r);
      if o.Done? && o.value then multiset{r} else multiset{}
    case _ => multiset{}
  }

  /** What a run takes out of the pool, each call in the state it meets. */
  function Removed<R(==)>(p: P.Pool<R>, cs: seq<Call<R>>): multiset<Option<R>>
    decreases |cs|
  {
    if |cs| == 0 then multiset{} else RemovedBy(p, cs[0]) + Removed(Apply(p, cs[0]), cs[1..])
  }

  /** A call by a client that hands back only what it acquired and uses the
      untimed `acquire`; removals are allowed. */
  predicate Balanced<R(==)>(p: P.Pool<R>, c: Call<R>)
  {
    match c
    case TimedAcquire => false
    case Release(r) => r in p.acquired
    case _ => true
  }

  /** Every call of the run is `Balanced` in the state it meets. */
  predicate BalancedRun<R(==)>(p: P.Pool<R>, cs: seq<Call<R>>)
    decreases |cs|
  {
    |cs| == 0 || (Balanced(p, cs[0]) && BalancedRun(Apply(p, cs[0]), cs[1..]))
  }

  /** No call but `release(null)` brings `null` into the pool. */
  lemma ApplyKeepsNullFree<R>(p: P.Pool<R>, c: Call<R>)
    requires NullFree(p)
    requires c != Release(None)
    ensures NullFree(Apply(p, c))
  {
    match c
    case Acquire => AcquireKeepsNullFree(p);
    case TimedAcquire => TimedAcquireKeepsNullFree(p);
    case Release(r) => ReleaseKeepsNullFree(p, r);
    case RemoveNow(r) => RemoveNowKeepsNullFree(p, r);
    case Remove(r) => RemoveKeepsNullFree(p, r);
    case _ =>
  }

  /** `acquire()` moves an existing entry, so it brings in no `null`. */
  lemma AcquireKeepsNullFree<R>(p: P.Pool<R>)
    requires NullFree(p)
    ensures NullFree(Apply(p, Acquire))
  {
    var o := P.Acquire(p);
    if o.Done? {
      assert p.unAcquired == o.pool.unAcquired + [o.value];
      assert o.value in p.unAcquired;
    }
  }

  /** The timed acquire only drops an entry. */
  lemma TimedAcquireKeepsNullFree<R>(p: P.Pool<R>)
    requires NullFree(p)
    ensures NullFree(Apply(p, TimedAcquire))
  {
    var s := P.TimedAcquire(p);
    if P.CanAcquire(p) {
      assert p.unAcquired == s.pool.unAcquired + [s.value];
    }
  }

  /** `release` of a non-null resource appends no `null`. */
  lemma ReleaseKeepsNullFree<R>(p: P.Pool<R>, r: Option<R>)
    requires NullFree(p) && r != None
    ensures NullFree(Apply(p, Release(r)))
  {
    ListOps.RemoveFirstKeepsOut(p.acquired, r, None);
  }

  /** `removeNow` only drops entries. */
  lemma RemoveNowKeepsNullFree<R>(p: P.Pool<R>, r: Option<R>)
    requires NullFree(p)
    ensures NullFree(Apply(p, RemoveNow(r)))
  {
    ListOps.RemoveFirstKeepsOut(p.unAcquired, r, None);
    ListOps.RemoveFirstKeepsOut(p.acquired, r, None);
  }

  /** `remove` only drops entries. */
  lemma RemoveKeepsNullFree<R>(p: P.Pool<R>, r: Option<R>)
    requires NullFree(p)
    ensures NullFree(Apply(p, Remove(r)))
  {
    ListOps.RemoveFirstKeepsOut(p.unAcquired, r, None);
  }

  /** A pool without `null` entries keeps none through any run that never
      releases `null`. */
  lemma {:induction false} RunKeepsNullFree<R>(p: P.Pool<R>, cs: seq<Call<R>>)
    requires NullFree(p)
    requires forall i :: 0 <= i < |cs| ==> cs[i] != Release(None)
    ensures NullFree(Run(p, cs))
    decreases |cs|
  {
    if |cs| > 0 {
      ApplyKeepsNullFree(p, cs[0]);
      RunKeepsNullFree(Apply(p, cs[0]), cs[1..]);
    }
  }

  /** One call never brings in a slot it was not handed. */
  lemma ApplyBoundedBySupply<R>(p: P.Pool<R>, c: Call<R>)
    ensures P.Ledger(Apply(p, c)) <= P.Ledger(p) + SuppliedBy(c)
  {
    match c
    case TimedAcquire => TimedAcquireShrinks(p);
    case Release(r) => PoolProperties.ReleaseLedger(p, r);
    case RemoveNow(r) => RemoveNowShrinks(p, r);
    case Remove(r) => RemoveShrinks(p, r);
    case _ =>
  }

  /** The timed acquire never adds a slot. */
  lemma TimedAcquireShrinks<R>(p: P.Pool<R>)
    ensures P.Ledger(Apply(p, TimedAcquire)) <= P.Ledger(p)
  {
    var s := P.TimedAcquire(p);
    if P.CanAcquire(p) {
      assert P.Ledger(s.pool) + multiset{s.value} == P.Ledger(p);
    }
  }

  /** `removeNow` never adds a slot. */
  lemma RemoveNowShrinks<R>(p: P.Pool<R>, r: Option<R>)
    ensures P.Ledger(Apply(p, RemoveNow(r))) <= P.Ledger(p)
  {
  }

  /** `remove` never adds a slot. */
  lemma RemoveShrinks<R>(p: P.Pool<R>, r: Option<R>)
    ensures P.Ledger(Apply(p, Remove(r))) <= P.Ledger(p)
  {
  }

  /** Nothing appears from nowhere: whatever the pool holds after a run was
      there before, or was added or released during the run. */
  lemma {:induction false} RunBoundedBySupply<R>(p: P.Pool<R>, cs: seq<Call<R>>)
    ensures P.Ledger(Run(p, cs)) <= P.Ledger(p) + Supplied(cs)
    decreases |cs|
  {
    if |cs| > 0 {
      ApplyBoundedBySupply(p, cs[0]);
      RunBoundedBySupply(Apply(p, cs[0]), cs[1..]);
    }
  }

  /** Taking one `x` out of a multiset that holds it and putting it back
      gives the multiset again. */
  lemma PutBack<T>(m: multiset<T>, x: T)
    requires x in m
    ensures (m - multiset{x}) + multiset{x} == m
  {
  }

  /** A successful `removeNow(r)` takes exactly one `r` out of the pool. */
  lemma RemoveNowAccounts<R>(p: P.Pool<R>, r: Option<R>)
    ensures P.Ledger(Apply(p, RemoveNow(r))) + RemovedBy(p, RemoveNow(r)) == P.Ledger(p)
  {
    var s := P.RemoveNow(p, r);
    assert Apply(p, RemoveNow(r)) == s.pool;
    if s.value {
      assert RemovedBy(p, RemoveNow(r)) == multiset{r};
      PutBack(P.Ledger(p), r);
    } else {
      assert RemovedBy(p, RemoveNow(r)) == multiset{};
    }
  }

  /** A successful `remove(r)` takes exactly one `r` out of the pool. */
  lemma RemoveAccounts<R>(p: P.Pool<R>, r: Option<R>)
    ensures P.Ledger(Apply(p, Remove(r))) + RemovedBy(p, Remove(r)) == P.Ledger(p)
  {
    var o := P.Remove(p, r);
    if o.Blocked? {
      assert Apply(p, Remove(r)) == p;
      assert RemovedBy(p, Remove(r)) == multiset{};
    } else if o.value {
      assert Apply(p, Remove(r)) == o.pool;
      assert RemovedBy(p, Remove(r)) == multiset{r};
      assert r in P.Ledger(p);
      PutBack(P.Ledger(p), r);
    } else {
      assert Apply(p, Remove(r)) == p;
      assert RemovedBy(p, Remove(r)) == multiset{};
    }
  }

  /** A balanced call keeps every slot except the one it removes, and `add`
      adds exactly its argument. */
  lemma ApplyConserves<R>(p: P.Pool<R>, c: Call<R>)
    requires Balanced(p, c)
    ensures P.Ledger(Apply(p, c)) + RemovedBy(p, c) == P.Ledger(p) + AddedBy(c)
  {
    match c
    case Release(r) => PoolProperties.ReleaseLedger(p, r);
    case RemoveNow(r) => RemoveNowAccounts(p, r);
    case Remove(r) => RemoveAccounts(p, r);
    case _ =>
  }

  /** Joins the accounting of one step to that of the rest of a run. */
  lemma ChainAccounts<T>(last: multiset<T>, removedRest: multiset<T>, mid: multiset<T>,
                         addedRest: multiset<T>, removedHead: multiset<T>, first: multiset<T>,
                         addedHead: multiset<T>)
    requires last + removedRest == mid + addedRest
    requires mid + removedHead == first + addedHead
    ensures last + (removedHead + removedRest) == first + (addedHead + addedRest)
  {
    forall x
      ensures (last + (removedHead + removedRest))[x] == (first + (addedHead + addedRest))[x]
    {
      assert (last + removedRest)[x] == (mid + addedRest)[x];
      assert (mid + removedHead)[x] == (first + addedHead)[x];
    }
  }

  /** Conservation: over a balanced run, what the pool holds at the end plus
      what was removed is what it held at the start plus what was added -- no
      slot is duplicated or lost. */
  lemma {:induction false} RunConserves<R>(p: P.Pool<R>, cs: seq<Call<R>>)
    requires BalancedRun(p, cs)
    ensures P.Ledger(Run(p, cs)) + Removed(p, cs) == P.Ledger(p) + Added(cs)
    decreases |cs|
  {
    if |cs| > 0 {
      var q := Apply(p, cs[0]);
      ApplyConserves(p, cs[0]);
      RunConserves(q, cs[1..]);
      assert Run(p, cs) == Run(q, cs[1..]);
      assert Removed(p, cs) == RemovedBy(p, cs[0]) + Removed(q, cs[1..]);
      assert Added(cs) == AddedBy(cs[0]) + Added(cs[1..]);
      ChainAccounts(P.Ledger(Run(q, cs[1..])), Removed(q, cs[1..]), P.Ledger(q),
                    Added(cs[1..]), RemovedBy(p, cs[0]), P.Ledger(p), AddedBy(cs[0]));
    }
  }
}
