/**
 The pool of `org/pjdu4/resourcepool/ResourcePool.java` with its lock taken
 away: each public method, once it holds the lock, is a transition on an
 immutable `Pool` value.

 The ledgers hold Java references, so their entries are `Option<R>`:
 `add` and `removeNow` refuse `null`, but `release` and `remove` do not test
 for it, and `release(null)` does put `null` into `unAcquired`.

 Blocking is not waiting here. A method that would wait on a condition
 returns `Blocked`, and the caller keeps the state it had: with no other
 thread to change that state, the wait never ends.
 */
module ResourcePool {
  import opened Optional
  import opened ListOps

  /** `isOpen`, and the two ledgers: `unAcquired` (available) and `acquired`
      (handed out). Both are ordered and may hold equal entries. */
  datatype Pool<R> = Pool(isOpen: bool, unAcquired: seq<Option<R>>, acquired: seq<Option<R>>)

  /** A call that always completes: what it returns and the state it leaves. */
  datatype Step<A, R> = Step(value: A, pool: Pool<R>)

  /** A call that may have to wait on a condition first. */
  datatype Outcome<A, R> = Blocked | Done(value: A, pool: Pool<R>)

  /** Every slot of the pool, wherever it sits. */
  function Ledger<R(==)>(p: Pool<R>): multiset<Option<R>>
  {
    multiset(p.unAcquired) + multiset(p.acquired)
  }

  /** The pool as the field initialisers build it. */
  function Init<R(==)>(): (p: Pool<R>)
    ensures !p.isOpen
    ensures Ledger(p) == multiset{}
  {
    Pool(false, [], [])
  }

  /** `open()`: sets the flag; the ledgers are not touched. */
  function Open<R(==)>(p: Pool<R>): (q: Pool<R>)
    ensures q.isOpen
    ensures q.unAcquired == p.unAcquired && q.acquired == p.acquired
    ensures p.isOpen ==> q == p
  {
    if !p.isOpen then p.(isOpen := true) else p
  }

  /** `isOpen()`. */
  function IsOpen<R(==)>(p: Pool<R>): bool
  {
    p.isOpen
  }

  /** `closeNow()`: clears the flag whatever is still acquired. */
  function CloseNow<R(==)>(p: Pool<R>): (q: Pool<R>)
    ensures !q.isOpen
    ensures q.unAcquired == p.unAcquired && q.acquired == p.acquired
    ensures !p.isOpen ==> q == p
  {
    if p.isOpen then p.(isOpen := false) else p
  }

  /** The condition every `acquire` waits on: open, and something available. */
  predicate CanAcquire<R(==)>(p: Pool<R>)
  {
    p.isOpen && |p.unAcquired| > 0
  }

  /** `acquire()`: waits until the pool is open and `unAcquired` is not empty,
      then moves the TAIL of `unAcquired` to the tail of `acquired`. */
  function Acquire<R(==)>(p: Pool<R>): (o: Outcome<Option<R>, R>)
    ensures o.Blocked? <==> !p.isOpen || |p.unAcquired| == 0
    ensures o.Done? ==> o.value == p.unAcquired[|p.unAcquired| - 1]
    ensures o.Done? ==> o.pool.unAcquired + [o.value] == p.unAcquired
    ensures o.Done? ==> o.pool.acquired == p.acquired + [o.value]
    ensures o.Done? ==> o.pool.isOpen
    ensures o.Done? ==> Ledger(o.pool) == Ledger(p)
  {
    if !CanAcquire(p) then Blocked
    else
      var r := Last(p.unAcquired);
      Done(r, p.(unAcquired := DropLast(p.unAcquired), acquired := p.acquired + [r]))
  }

  /** `acquire(timeout, unit)`, success or failure only: when the pool is
      closed or empty it answers `null` unchanged, otherwise it pops the tail
      of `unAcquired` -- and, unlike `acquire()`, does not append it to
      `acquired`, so the popped slot leaves the ledger. A `null` entry popped
      from `unAcquired` is returned as `None` too, as in Java. */
  function TimedAcquire<R(==)>(p: Pool<R>): (s: Step<Option<R>, R>)
    ensures !CanAcquire(p) ==> s == Step(None, p)
    ensures CanAcquire(p) ==> s.value == p.unAcquired[|p.unAcquired| - 1]
    ensures CanAcquire(p) ==> s.pool.unAcquired + [s.value] == p.unAcquired
    ensures s.pool.acquired == p.acquired && s.pool.isOpen == p.isOpen
    ensures CanAcquire(p) ==> Ledger(s.pool) + multiset{s.value} == Ledger(p)
  {
    if !CanAcquire(p) then Step(None, p)
    else Step(Last(p.unAcquired), p.(unAcquired := DropLast(p.unAcquired)))
  }

  /** The timed acquire with the bookkeeping of `acquire()`: the popped
      resource is recorded in `acquired`, so the ledger keeps it. */
  function TimedAcquireRecorded<R(==)>(p: Pool<R>): (s: Step<Option<R>, R>)
    ensures !CanAcquire(p) ==> s == Step(None, p)
    ensures CanAcquire(p) ==> s.value == p.unAcquired[|p.unAcquired| - 1]
    ensures CanAcquire(p) ==> s.pool.acquired == p.acquired + [s.value]
    ensures Ledger(s.pool) == Ledger(p)
  {
    if !CanAcquire(p) then Step(None, p)
    else
      var r := Last(p.unAcquired);
      Step(r, p.(unAcquired := DropLast(p.unAcquired), acquired := p.acquired + [r]))
  }

  /** `add(r)`: refuses `null`; otherwise appends to `unAcquired`, whether
      the pool is open or not, and even when an equal resource is present. */
  function Add<R(==)>(p: Pool<R>, r: Option<R>): (s: Step<bool, R>)
    ensures s.value <==> r.Some?
    ensures !s.value ==> s.pool == p
    ensures s.value ==> s.pool.unAcquired == p.unAcquired + [r]
    ensures s.pool.acquired == p.acquired && s.pool.isOpen == p.isOpen
    ensures Ledger(s.pool) == if r.Some? then Ledger(p) + multiset{r} else Ledger(p)
  {
    if r.None? then Step(false, p)
    else Step(true, p.(unAcquired := p.unAcquired + [r]))
  }

  /** `release(r)`: appends `r` to `unAcquired` unconditionally -- no null
      check, no check that `r` was acquired -- and drops the first occurrence
      of `r` from `acquired` when there is one. */
  function Release<R(==)>(p: Pool<R>, r: Option<R>): (q: Pool<R>)
    ensures q.unAcquired == p.unAcquired + [r]
    ensures multiset(q.acquired) == multiset(p.acquired) - multiset{r}
    ensures |q.acquired| == if r in p.acquired then |p.acquired| - 1 else |p.acquired|
    ensures r !in p.acquired ==> q.acquired == p.acquired
    ensures q.isOpen == p.isOpen
  {
    Pool(p.isOpen, p.unAcquired + [r], RemoveFirst(p.acquired, r))
  }

  /** `removeNow(r)`: refuses `null`; takes the first occurrence from
      `unAcquired` if there is one, else from `acquired` without waiting for
      it to come back, and reports whether it found one. */
  function RemoveNow<R(==)>(p: Pool<R>, r: Option<R>): (s: Step<bool, R>)
    ensures r.None? ==> s == Step(false, p)
    ensures r.Some? && r !in Ledger(p) ==> s == Step(false, p)
    ensures r.Some? && r in p.unAcquired ==>
      && s.value
      && s.pool.acquired == p.acquired
      && multiset(s.pool.unAcquired) == multiset(p.unAcquired) - multiset{r}
    ensures r.Some? && r !in p.unAcquired ==>
      && (s.value <==> r in p.acquired)
      && s.pool.unAcquired == p.unAcquired
      && multiset(s.pool.acquired) == multiset(p.acquired) - multiset{r}
    ensures s.pool.isOpen == p.isOpen
    ensures s.value <==> r.Some? && r in Ledger(p)
    ensures Ledger(s.pool) == if s.value then Ledger(p) - multiset{r} else Ledger(p)
  {
    if r.None? then Step(false, p)
    else if r in p.unAcquired then
      Step(true, p.(unAcquired := RemoveFirst(p.unAcquired, r)))
    else
      assert r in Ledger(p) <==> r in p.acquired;
      Step(r in p.acquired, p.(acquired := RemoveFirst(p.acquired, r)))
  }

  /** `close()`: nothing to do on a closed pool; an open pool waits until
      `acquired` is empty and is then closed. */
  function Close<R(==)>(p: Pool<R>): (o: Outcome<(), R>)
    ensures o.Blocked? <==> p.isOpen && |p.acquired| > 0
    ensures o.Done? ==> !o.pool.isOpen
    ensures o.Done? ==> o.pool.unAcquired == p.unAcquired && o.pool.acquired == p.acquired
  {
    if !p.isOpen then Done((), p)
    else if |p.acquired| > 0 then Blocked
    else Done((), p.(isOpen := false))
  }

  /** `remove(r)`: takes the first occurrence from `unAcquired` if there is
      one; answers false if `r` is in neither ledger; waits while `r` is only
      in `acquired`. No null check: `remove(null)` finds a `null` entry. */
  function Remove<R(==)>(p: Pool<R>, r: Option<R>): (o: Outcome<bool, R>)
    ensures o.Blocked? <==> r !in p.unAcquired && r in p.acquired
    ensures o.Done? ==> (o.value <==> r in p.unAcquired)
    ensures o.Done? && !o.value ==> o.pool == p && r !in Ledger(p)
    ensures o.Done? && o.value ==> o.pool.acquired == p.acquired && o.pool.isOpen == p.isOpen
    ensures o.Done? && o.value ==> |o.pool.unAcquired| == |p.unAcquired| - 1
    ensures o.Done? ==> Ledger(o.pool) == Ledger(p) - multiset{r}
  {
    if r in p.unAcquired then Done(true, p.(unAcquired := RemoveFirst(p.unAcquired, r)))
    else if r !in p.acquired then Done(false, p)
    else Blocked
  }
}
