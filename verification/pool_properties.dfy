/**
 Properties that relate several calls on the pool: conservation of the
 ledger, the order in which resources come back out, round trips, and the
 worked scenarios the pool is meant to support.
 */
module PoolProperties {
  import opened Optional
  import opened ListOps
  import opened ResourcePool

  /** `release(r)` keeps every slot exactly when `r` was acquired; releasing
      anything else adds a slot the pool never handed out. */
  lemma ReleaseLedger<R>(p: Pool<R>, r: Option<R>)
    ensures r in p.acquired ==> Ledger(Release(p, r)) == Ledger(p)
    ensures r !in p.acquired ==> Ledger(Release(p, r)) == Ledger(p) + multiset{r}
    ensures Ledger(Release(p, r)) == Ledger(p) <==> r in p.acquired
  {
    if r in p.acquired {
      ReleaseOfAcquired(p, r);
    } else {
      ReleaseOfUnacquired(p, r);
      assert (Ledger(p) + multiset{r})[r] == Ledger(p)[r] + 1;
    }
  }

  /** Releasing an acquired resource moves it between the ledgers. */
  lemma ReleaseOfAcquired<R>(p: Pool<R>, r: Option<R>)
    requires r in p.acquired
    ensures Ledger(Release(p, r)) == Ledger(p)
  {
    var q := Release(p, r);
    RemoveFirstRestores(p.acquired, r);
    assert multiset(q.unAcquired) == multiset(p.unAcquired) + multiset{r};
  }

  /** Releasing anything not acquired leaves `acquired` as it was. */
  lemma ReleaseOfUnacquired<R>(p: Pool<R>, r: Option<R>)
    requires r !in p.acquired
    ensures Ledger(Release(p, r)) == Ledger(p) + multiset{r}
  {
    var q := Release(p, r);
    assert q.acquired == p.acquired;
    assert multiset(q.unAcquired) == multiset(p.unAcquired) + multiset{r};
  }

  /** `open` and `closeNow` only set the flag `isOpen()` reports, and doing
      either twice is doing it once. */
  lemma LifecycleFlag<R>(p: Pool<R>)
    ensures IsOpen(Open(p)) && !IsOpen(CloseNow(p))
    ensures Open(Open(p)) == Open(p) && CloseNow(CloseNow(p)) == CloseNow(p)
    ensures Ledger(Open(p)) == Ledger(p) && Ledger(CloseNow(p)) == Ledger(p)
    ensures !p.isOpen ==> CloseNow(Open(p)) == p
    ensures p.isOpen ==> Open(CloseNow(p)) == p
  {
  }

  /** Stack order: on an open pool the resource just added is the very next
      one `acquire()` hands out, and the pool is then as before except that
      the resource is now acquired. */
  lemma AddThenAcquireIsLifo<R>(p: Pool<R>, r: R)
    requires p.isOpen
    ensures Add(p, Some(r)).value
    ensures Acquire(Add(p, Some(r)).pool) == Done(Some(r), p.(acquired := p.acquired + [Some(r)]))
  {
    var q := Add(p, Some(r)).pool;
    assert DropLast(q.unAcquired) == p.unAcquired;
  }

  /** The first-in-first-out order the field comments describe does not hold:
      with resource 1 waiting, adding 2 makes 2 the next one acquired. */
  lemma AcquireIsNotFifo()
    ensures Acquire(Add(Pool(true, [Some(1)], []), Some(2)).pool).value == Some(2)
  {
    AddThenAcquireIsLifo(Pool(true, [Some(1)], []), 2);
  }

  /** The resource released last is the next one handed out, whatever it is. */
  lemma ReleaseThenAcquire<R>(p: Pool<R>, x: Option<R>)
    requires p.isOpen
    ensures Acquire(Release(p, x)).Done?
    ensures Acquire(Release(p, x)).value == x
    ensures Acquire(Release(p, x)).pool.unAcquired == p.unAcquired
  {
    var q := Release(p, x);
    assert DropLast(q.unAcquired) == p.unAcquired;
  }

  /** Acquire followed by the release of what was acquired restores
      `unAcquired` exactly and `acquired` up to order; the state is restored
      exactly unless an equal resource was already acquired (then `release`
      removes that earlier occurrence, not the new one). */
  lemma AcquireReleaseRoundTrip<R>(p: Pool<R>)
    requires CanAcquire(p)
    ensures var o := Acquire(p);
      && o.Done?
      && Release(o.pool, o.value).unAcquired == p.unAcquired
      && multiset(Release(o.pool, o.value).acquired) == multiset(p.acquired)
      && Ledger(Release(o.pool, o.value)) == Ledger(p)
      && (o.value !in p.acquired ==> Release(o.pool, o.value) == p)
  {
    var o := Acquire(p);
    var x := o.value;
    var q := Release(o.pool, x);
    if x !in p.acquired {
      RemoveFirstOfAppended(p.acquired, x);
    } else {
      RemoveFirstAppend(p.acquired, [x], x);
    }
    assert q.acquired == RemoveFirst(p.acquired + [x], x);
    assert multiset(q.acquired) == multiset(p.acquired);
  }

  /** `add(r)` followed by `removeNow(r)` succeeds and restores every slot;
      when `r` was not already available the state is restored exactly. */
  lemma AddRemoveNowRoundTrip<R>(p: Pool<R>, r: R)
    ensures RemoveNow(Add(p, Some(r)).pool, Some(r)).value
    ensures Ledger(RemoveNow(Add(p, Some(r)).pool, Some(r)).pool) == Ledger(p)
    ensures Some(r) !in p.unAcquired ==> RemoveNow(Add(p, Some(r)).pool, Some(r)).pool == p
  {
    var q := Add(p, Some(r)).pool;
    assert Some(r) in q.unAcquired;
    if Some(r) !in p.unAcquired {
      RemoveFirstOfAppended(p.unAcquired, Some(r));
    }
  }

  /** `add(r)` followed by `remove(r)` never blocks, succeeds and restores
      every slot. */
  lemma AddRemoveRoundTrip<R>(p: Pool<R>, r: R)
    ensures Remove(Add(p, Some(r)).pool, Some(r)) != Blocked
    ensures Remove(Add(p, Some(r)).pool, Some(r)).value
    ensures Ledger(Remove(Add(p, Some(r)).pool, Some(r)).pool) == Ledger(p)
  {
    var q := Add(p, Some(r)).pool;
    assert Some(r) in q.unAcquired;
  }

  /** `removeNow`, `remove` and `release` take out the FIRST equal entry of
      the ledger they search, and leave every other entry in order. */
  lemma RemovalTakesFirstOccurrence<R>(p: Pool<R>, r: Option<R>)
    ensures r.Some? && r in p.unAcquired ==>
      var i := IndexOf(p.unAcquired, r);
      RemoveNow(p, r).pool.unAcquired == p.unAcquired[..i] + p.unAcquired[i + 1..]
    ensures r.Some? && r !in p.unAcquired && r in p.acquired ==>
      var i := IndexOf(p.acquired, r);
      RemoveNow(p, r).pool.acquired == p.acquired[..i] + p.acquired[i + 1..]
    ensures r in p.unAcquired ==>
      var i := IndexOf(p.unAcquired, r);
      Remove(p, r).pool.unAcquired == p.unAcquired[..i] + p.unAcquired[i + 1..]
    ensures r in p.acquired ==>
      var i := IndexOf(p.acquired, r);
      Release(p, r).acquired == p.acquired[..i] + p.acquired[i + 1..]
  {
    if r in p.unAcquired {
      RemoveFirstSplices(p.unAcquired, r);
    }
    if r in p.acquired {
      RemoveFirstSplices(p.acquired, r);
    }
  }

  /** `close()` on an open pool waits for the last acquired resource and
      completes once it is released. */
  lemma CloseWaitsForRelease<R>(p: Pool<R>, x: Option<R>)
    requires p.isOpen && p.acquired == [x]
    ensures Close(p).Blocked?
    ensures Close(Release(p, x)).Done?
    ensures !IsOpen(Close(Release(p, x)).pool)
    ensures Close(Release(p, x)).pool.unAcquired == p.unAcquired + [x]
  {
    assert Release(p, x).acquired == [];
  }

  /** Whenever `close()` completes, it leaves the pool exactly as
      `closeNow()` would; it differs only by waiting while something is
      acquired on an open pool. */
  lemma CloseAgreesWithCloseNow<R>(p: Pool<R>)
    ensures Close(p).Done? ==> Close(p).pool == CloseNow(p)
    ensures Close(p).Blocked? ==> CloseNow(p).acquired != []
  {
  }

  /** Whenever `remove(r)` completes on a non-null argument, it agrees with
      `removeNow(r)`; where `remove` waits, `removeNow` takes the resource out
      of `acquired` at once. */
  lemma RemoveAgreesWithRemoveNow<R>(p: Pool<R>, r: R)
    ensures Remove(p, Some(r)).Done? ==>
      Remove(p, Some(r)) == Done(RemoveNow(p, Some(r)).value, RemoveNow(p, Some(r)).pool)
    ensures Remove(p, Some(r)).Blocked? ==>
      && RemoveNow(p, Some(r)).value
      && RemoveNow(p, Some(r)).pool.unAcquired == p.unAcquired
      && |RemoveNow(p, Some(r)).pool.acquired| == |p.acquired| - 1
  {
  }

  /** `remove(r)` waits while `r` is checked out and finds it once released. */
  lemma RemoveWaitsForRelease<R>(p: Pool<R>, r: Option<R>)
    requires r !in p.unAcquired && r in p.acquired
    ensures Remove(p, r).Blocked?
    ensures Remove(Release(p, r), r).Done? && Remove(Release(p, r), r).value
    ensures Remove(Release(p, r), r).pool.unAcquired == p.unAcquired
    ensures Ledger(Remove(Release(p, r), r).pool) == Ledger(p) - multiset{r}
  {
    var q := Release(p, r);
    RemoveFirstOfAppended(p.unAcquired, r);
    ReleaseLedger(p, r);
    assert Remove(q, r).pool.unAcquired == RemoveFirst(p.unAcquired + [r], r);
  }

  /** Round trip on a fresh pool: open, add `r`, acquire, release, acquire
      hands out `r` both times; between the two acquires `r` is the only
      available resource and nothing is acquired. */
  lemma AddAcquireReleaseScenario<R>(r: R)
    ensures var p1 := Add(Open(Init<R>()), Some(r)).pool;
      var a1 := Acquire(p1);
      && a1.Done? && a1.value == Some(r)
      && var p2 := Release(a1.pool, a1.value);
      && p2 == Pool(true, [Some(r)], [])
      && Acquire(p2) == Done(Some(r), Pool(true, [], [Some(r)]))
  {
    var p1 := Add(Open(Init<R>()), Some(r)).pool;
    assert p1 == Pool(true, [Some(r)], []);
    var a1 := Acquire(p1);
    assert a1 == Done(Some(r), Pool(true, [], [Some(r)]));
    assert Release(a1.pool, a1.value).acquired == [];
  }

  /** Equal resources are separate slots: after adding `r` twice, two
      acquires both return `r`, and one release makes exactly one `r`
      available while the other stays acquired. */
  lemma DuplicateSlotsScenario<R>(r: R)
    ensures var p := Add(Add(Open(Init<R>()), Some(r)).pool, Some(r)).pool;
      var a1 := Acquire(p);
      && a1.Done? && a1.value == Some(r)
      && var a2 := Acquire(a1.pool);
      && a2.Done? && a2.value == Some(r)
      && !CanAcquire(a2.pool)
      && Release(a2.pool, Some(r)) == Pool(true, [Some(r)], [Some(r)])
  {
    var p := Add(Add(Open(Init<R>()), Some(r)).pool, Some(r)).pool;
    assert p == Pool(true, [Some(r), Some(r)], []);
    var a1 := Acquire(p);
    assert a1 == Done(Some(r), Pool(true, [Some(r)], [Some(r)]));
    var a2 := Acquire(a1.pool);
    assert a2 == Done(Some(r), Pool(true, [], [Some(r), Some(r)]));
    assert RemoveFirst([Some(r), Some(r)], Some(r)) == [Some(r)];
  }

  /** A closed pool makes `acquire()` wait even with resources available;
      opening an empty pool does not release the waiter, adding `r1` does;
      once `r1` is released `close()` completes at once and the pool reports
      itself closed. */
  lemma OpenAddCloseScenario<R>(r1: R)
    ensures Acquire(Pool(false, [Some(r1)], [])).Blocked?
    ensures Acquire(Init<R>()).Blocked?
    ensures Acquire(Open(Init<R>())).Blocked?
    ensures var p := Add(Open(Init<R>()), Some(r1)).pool;
      var a := Acquire(p);
      && a.Done? && a.value == Some(r1)
      && Close(a.pool).Blocked?
      && var c := Close(Release(a.pool, a.value));
      && c.Done? && !IsOpen(c.pool)
  {
    var p := Add(Open(Init<R>()), Some(r1)).pool;
    assert p == Pool(true, [Some(r1)], []);
    var a := Acquire(p);
    assert a == Done(Some(r1), Pool(true, [], [Some(r1)]));
    assert Release(a.pool, a.value).acquired == [];
  }

  /** `release(null)` is accepted: it puts a `null` entry into `unAcquired`,
      which the next `acquire()` on an open pool hands out. */
  lemma ReleaseNullIsAcquired<R>(p: Pool<R>)
    requires p.isOpen
    ensures None in Release(p, None).unAcquired
    ensures Acquire(Release(p, None)) == Done(None, p.(acquired := RemoveFirst(p.acquired, None) + [None]))
  {
    var q := Release(p, None);
    assert q.unAcquired[|q.unAcquired| - 1] == None;
    assert DropLast(q.unAcquired) == p.unAcquired;
  }

  /** The timed acquire as written loses track of what it hands out: on an
      open pool holding one resource and nothing acquired, the resource is
      checked out yet `close()` completes at once and `remove` reports it
      not found, where after `acquire()` both would wait for its release. */
  lemma TimedAcquireLosesTrack()
    ensures var s := TimedAcquire(Pool(true, [Some(1)], []));
      && s.value == Some(1)
      && Ledger(s.pool) == multiset{}
      && Close(s.pool).Done?
      && Remove(s.pool, Some(1)) == Done(false, s.pool)
    ensures var o := Acquire(Pool(true, [Some(1)], []));
      && o.value == Some(1)
      && Close(o.pool).Blocked?
      && Remove(o.pool, Some(1)).Blocked?
  {
    var p := Pool(true, [Some(1)], []);
    assert TimedAcquire(p).pool == Pool(true, [], []);
    assert Acquire(p).pool == Pool(true, [], [Some(1)]);
  }

  /** The timed acquire as written, when it succeeds, removes one slot from
      the ledger; a later release of that resource adds it back only if no
      equal resource is acquired, and otherwise consumes the other holder's
      slot, so the ledger stays one short. */
  lemma TimedAcquireThenRelease<R>(p: Pool<R>)
    requires CanAcquire(p)
    ensures var s := TimedAcquire(p);
      && Ledger(s.pool) + multiset{s.value} == Ledger(p)
      && (s.value !in p.acquired ==> Ledger(Release(s.pool, s.value)) == Ledger(p))
      && (s.value in p.acquired ==> Ledger(Release(s.pool, s.value)) + multiset{s.value} == Ledger(p))
  {
    var s := TimedAcquire(p);
    ReleaseLedger(s.pool, s.value);
  }

  /** With the bookkeeping of `acquire()`, the timed acquire agrees with it
      whenever it succeeds and changes nothing when it fails, so `close()`
      waits for what it hands out and every slot stays in the ledger. */
  lemma TimedAcquireRecordedAgrees<R>(p: Pool<R>)
    ensures var s := TimedAcquireRecorded(p);
      && (CanAcquire(p) ==> Acquire(p) == Done(s.value, s.pool))
      && (!CanAcquire(p) ==> Acquire(p).Blocked? && s == Step(None, p))
      && Ledger(s.pool) == Ledger(p)
      && (CanAcquire(p) ==> Close(s.pool).Blocked?)
  {
  }
}
