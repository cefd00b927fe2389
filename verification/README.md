# ResourcePool ledger and lifecycle, modelled in Dafny

`ResourcePool` is a thread-safe pool of caller-supplied resources. Callers
`add` resources, check them out with `acquire`, hand them back with
`release`, and take them out with `removeNow` or `remove`. The pool can be
opened, closed at once with `closeNow`, or closed with `close`, which waits
for every acquired resource to come back. Every public method takes one lock.

This project models what each method does once it holds that lock. The
model is a pure transition on an immutable state with three parts:

- `isOpen`, the lifecycle flag;
- `unAcquired`, the available resources, in order and possibly with equal
  entries;
- `acquired`, the resources handed out, also in order and possibly with
  equal entries.

Java references may be `null`, so ledger entries and arguments are
`Option<R>`, where `None` is `null`. `add` and `removeNow` reject `null`.
`release` and `remove` do not test for it. A method that waits on a
condition (`acquire()`, `close()`, and `remove` when the resource is only
held) returns `Blocked` when its wait condition is false. In that case the
state is unchanged.

Files:

- `optional.dfy`: `Option`, the model of a nullable reference.
- `list_ops.dfy`: module `ListOps`, the `ArrayList` operations the pool
  uses. `remove(Object)` drops only the first equal element, and
  `remove(size()-1)` pops the tail.
- `resource_pool.dfy`: module `ResourcePool`, the state and one function per
  public method.
- `pool_properties.dfy`: module `PoolProperties`, lemmas that relate several
  calls. They cover round trips, stack order, conservation of the ledger,
  and worked scenarios.
- `pool_traces.dfy`: module `PoolTraces`, runs of calls and invariants that
  hold over whole runs.

The model follows the code as written:

- `unAcquired` is appended and popped at the tail, so acquisition is
  last-in-first-out. `acquired` is appended at the tail and loses its first
  equal entry on `release` and `removeNow`. The field comments describe
  adding at one end and removing at the other.
  `PoolProperties.AcquireIsNotFifo` shows the actual order.
- The timed `acquire` pops a resource without recording it in `acquired`
  (see Findings).
- `release(null)` puts `null` into `unAcquired`, and a later `acquire()`
  hands it out. No other call brings `null` in.
- `remove(null)` has no null check. It answers false on a pool without
  `null` entries, and finds a `null` entry if one was released.
- The documented round trip is open, `add(r)`, acquire `x`, release `x`,
  acquire `y`. The model proves `x == r` and `y == r`. `acquired` is empty
  only between the release and the second acquire. After the second acquire
  it holds `r`.

## Model

| member | source | states |
|---|---|---|
| `ResourcePool.Init` | org/pjdu4/resourcepool/ResourcePool.java:33-60 | a new pool is closed and its ledger is empty |
| `ResourcePool.Open` | org/pjdu4/resourcepool/ResourcePool.java:67-77 | `open()` leaves the pool open, does not touch either ledger, and changes nothing if the pool is already open |
| `ResourcePool.CloseNow` | org/pjdu4/resourcepool/ResourcePool.java:96-105 | `closeNow()` leaves the pool closed whatever is acquired, does not touch either ledger, and changes nothing if the pool is already closed |
| `ResourcePool.Acquire` | org/pjdu4/resourcepool/ResourcePool.java:111-124 | `acquire()` blocks exactly when the pool is closed or `unAcquired` is empty. Otherwise it returns the tail of `unAcquired`, moves it to the tail of `acquired`, and keeps every slot |
| `ResourcePool.TimedAcquire` | org/pjdu4/resourcepool/ResourcePool.java:133-163 | the timed `acquire` answers `null` with no change when the pool is closed or empty. Otherwise it returns and pops the tail of `unAcquired`, leaves `acquired` alone, and the ledger loses exactly that occurrence |
| `ResourcePool.TimedAcquireRecorded` | org/pjdu4/resourcepool/ResourcePool.java:118-119 | corrected timed acquire: on success it records the resource in `acquired` as `acquire()` does, so the ledger is unchanged |
| `ResourcePool.Add` | org/pjdu4/resourcepool/ResourcePool.java:172-183 | `add` returns true exactly for a non-null argument. On success it appends the argument to `unAcquired`, open or closed, and the ledger gains exactly that resource. `add(null)` changes nothing |
| `ResourcePool.Release` | org/pjdu4/resourcepool/ResourcePool.java:195-209 | `release(r)` always appends `r` to `unAcquired`. It drops one occurrence of `r` from `acquired` exactly when `r` is there, leaves `acquired` unchanged otherwise, and keeps the flag |
| `ResourcePool.RemoveNow` | org/pjdu4/resourcepool/ResourcePool.java:215-232 | `removeNow(null)`, and `removeNow(r)` with `r` in neither ledger, are false with no change. An available `r` is taken from `unAcquired` with `acquired` untouched. Otherwise one occurrence is taken from `acquired`. The result is true exactly when `r` was in the ledger, which then loses exactly that occurrence |
| `ResourcePool.Close` | org/pjdu4/resourcepool/ResourcePool.java:239-256 | `close()` blocks exactly when the pool is open with something acquired. Otherwise it leaves the pool closed with both ledgers unchanged |
| `ResourcePool.Remove` | org/pjdu4/resourcepool/ResourcePool.java:263-289 | `remove(r)` blocks exactly when `r` is held but not available. Otherwise it answers whether `r` was available. On true it takes one occurrence from `unAcquired`. On false nothing changes and `r` is in neither ledger |
| `ListOps.IndexOf` | org/pjdu4/resourcepool/ResourcePool.java:267-268 | the position found is the first element equal to the argument, and there is none exactly when the element is absent |
| `ListOps.RemoveFirst` | org/pjdu4/resourcepool/ResourcePool.java:220-224 | `ArrayList.remove(Object)` changes nothing when the element is absent. Otherwise it shortens the list by one and takes exactly one occurrence from its contents |
| `ListOps.DropLast` | org/pjdu4/resourcepool/ResourcePool.java:118 | popping the tail leaves a list that, with the popped element appended, is the original |
| `ListOps.RemoveFirstSplices` | org/pjdu4/resourcepool/ResourcePool.java:220-224 | `remove(Object)` splices out the first equal element and keeps every other element in order |
| `ListOps.RemoveFirstOfAppended` | org/pjdu4/resourcepool/ResourcePool.java:198-199 | removing `x` from a list that only has `x` as its appended tail gives back the list before the append |
| `ListOps.RemoveFirstAppend` | org/pjdu4/resourcepool/ResourcePool.java:198-199 | an earlier occurrence of `x` is removed instead of anything appended after it |
| `PoolProperties.ReleaseLedger` | org/pjdu4/resourcepool/ResourcePool.java:195-199 | `release(r)` keeps the ledger exactly when `r` was acquired. Otherwise the ledger gains `r` |
| `PoolProperties.LifecycleFlag` | org/pjdu4/resourcepool/ResourcePool.java:67-105 | `isOpen()` reports true after `open()` and false after `closeNow()`. Both are idempotent and keep the ledger, and each undoes the other |
| `PoolProperties.AddThenAcquireIsLifo` | org/pjdu4/resourcepool/ResourcePool.java:172-183 | on an open pool, the resource just added is the next one `acquire()` returns, and the pool is then as before with it acquired |
| `PoolProperties.AcquireIsNotFifo` | org/pjdu4/resourcepool/ResourcePool.java:50-60 | the comments' add-at-one-end, remove-at-the-other order does not hold: with 1 waiting, adding 2 makes 2 the next acquired |
| `PoolProperties.ReleaseThenAcquire` | org/pjdu4/resourcepool/ResourcePool.java:195-202 | on an open pool, what was released last is the next resource `acquire()` hands out |
| `PoolProperties.AcquireReleaseRoundTrip` | org/pjdu4/resourcepool/ResourcePool.java:111-124 | acquiring and then releasing the result restores `unAcquired` exactly and `acquired` as a multiset. It restores the state exactly unless an equal resource was already acquired |
| `PoolProperties.AddRemoveNowRoundTrip` | org/pjdu4/resourcepool/ResourcePool.java:215-228 | `removeNow(r)` right after `add(r)` succeeds and restores the ledger. It restores the whole state when `r` was not already available |
| `PoolProperties.AddRemoveRoundTrip` | org/pjdu4/resourcepool/ResourcePool.java:263-280 | `remove(r)` right after `add(r)` does not block, answers true and restores the ledger |
| `PoolProperties.RemovalTakesFirstOccurrence` | org/pjdu4/resourcepool/ResourcePool.java:215-228 | `removeNow`, `remove` and `release` each splice out the first equal entry of the ledger they search |
| `PoolProperties.CloseWaitsForRelease` | org/pjdu4/resourcepool/ResourcePool.java:239-256 | with one resource acquired, `close()` blocks, and after its release `close()` completes with the pool closed |
| `PoolProperties.CloseAgreesWithCloseNow` | org/pjdu4/resourcepool/ResourcePool.java:239-256 | when `close()` completes it leaves the same state as `closeNow()`. It blocks only when something is acquired |
| `PoolProperties.RemoveAgreesWithRemoveNow` | org/pjdu4/resourcepool/ResourcePool.java:263-289 | for a non-null argument, a completed `remove` gives the same answer and state as `removeNow`. Where `remove` blocks, `removeNow` takes one occurrence from `acquired` and answers true |
| `PoolProperties.RemoveWaitsForRelease` | org/pjdu4/resourcepool/ResourcePool.java:263-289 | `remove(r)` blocks while `r` is only held. Once `r` is released it succeeds, and the ledger is one `r` short of where it started |
| `PoolProperties.AddAcquireReleaseScenario` | org/pjdu4/resourcepool/ResourcePool.java:111-124 | open, add `r`, acquire, release, acquire: both acquires return `r`. Between them `r` is the only available resource and nothing is acquired |
| `PoolProperties.DuplicateSlotsScenario` | org/pjdu4/resourcepool/ResourcePool.java:16-18 | equal resources added twice are two slots: two acquires both return `r`, and one release leaves one `r` available and one acquired |
| `PoolProperties.OpenAddCloseScenario` | org/pjdu4/resourcepool/ResourcePool.java:111-124 | `acquire()` blocks on a closed pool even with resources available, and on an open empty pool. After `add(r1)` it returns `r1`. `close()` blocks until `r1` is released and then closes the pool |
| `PoolProperties.ReleaseNullIsAcquired` | org/pjdu4/resourcepool/ResourcePool.java:195-199 | `release(null)` puts `null` into `unAcquired`, and `acquire()` on an open pool then returns `null` |
| `PoolProperties.TimedAcquireLosesTrack` | org/pjdu4/resourcepool/ResourcePool.java:159 | after a timed acquire takes the only resource, `close()` completes and `remove` reports it absent. After `acquire()` both would block |
| `PoolProperties.TimedAcquireThenRelease` | org/pjdu4/resourcepool/ResourcePool.java:155-159 | a successful timed acquire costs the ledger one occurrence. Releasing it restores the ledger only if no equal resource is acquired, and otherwise the ledger stays one short |
| `PoolProperties.TimedAcquireRecordedAgrees` | org/pjdu4/resourcepool/ResourcePool.java:114-120 | the corrected timed acquire equals `acquire()` when it succeeds and changes nothing when it fails. It keeps the ledger, and `close()` then waits for what it handed out |
| `PoolTraces.ApplyKeepsNullFree` | org/pjdu4/resourcepool/ResourcePool.java:172-232 | no call except `release(null)` brings a `null` entry into a pool that has none |
| `PoolTraces.RunKeepsNullFree` | org/pjdu4/resourcepool/ResourcePool.java:20-21 | a pool with no `null` entries keeps none through any run of calls that never releases `null` |
| `PoolTraces.ApplyBoundedBySupply` | org/pjdu4/resourcepool/ResourcePool.java:172-199 | one call never brings in a slot it was not handed by `add` or `release` |
| `PoolTraces.RunBoundedBySupply` | org/pjdu4/resourcepool/ResourcePool.java:172-199 | after any run, the ledger is contained in the starting ledger plus what was added or released |
| `PoolTraces.ApplyConserves` | org/pjdu4/resourcepool/ResourcePool.java:111-290 | a call that avoids the timed acquire and releases only what is acquired keeps every slot, except that `add` contributes exactly its argument and a `removeNow` or `remove` that answers true takes out exactly one copy of its argument |
| `PoolTraces.RunConserves` | org/pjdu4/resourcepool/ResourcePool.java:111-290 | over such a run, removals included, the final ledger plus everything removed is exactly the starting ledger plus everything added. No slot is duplicated or lost |

## Left out

- The `ReentrantLock`, its three `Condition`s and every `signalAll` (lines 35-45, 72, 178, 201-205, 225-227). A blocking wait is modelled as a `Blocked` outcome that leaves the state as it was, not as a wait that another thread ends.
- `InterruptedException` and cancellation while waiting, and the choice of which waiter wins after a wake-up. These are scheduling behaviour, outside a sequential model.
- Timeout accounting in the timed `acquire` (`toNanos`, `awaitNanos`, lines 143-149) and the re-checks at lines 151-157. These depend on wall-clock time and other threads. `ResourcePool.TimedAcquire` covers only success or failure.
- The re-evaluation loop of `remove` after a wake-up (lines 278-283). In a sequential run nothing changes while it waits, so it is `Blocked`.
- `isOpen()` is the function `ResourcePool.IsOpen` with no contract of its own. `PoolProperties.LifecycleFlag` states what it reports.
- Java `equals` on resources is modelled as Dafny equality. A resource class whose `equals` is not an equivalence is not modelled.
- The undeclared type `R` of the class is modelled as a type parameter with equality.

## Findings

| source | as written | input that shows it | evidently intended | confidence | as-written member | corrected member |
|---|---|---|---|---|---|---|
| org/pjdu4/resourcepool/ResourcePool.java:159 | the timed `acquire` pops the tail of `unAcquired` and returns it without appending it to `acquired` | open pool with `unAcquired = [1]` and `acquired = []`: the timed acquire returns 1, after which `close()` completes and `remove(1)` answers false while 1 is still checked out | record the resource in `acquired`, as `acquire()` does at lines 118-119 | medium, not executed | `PoolProperties.TimedAcquireLosesTrack` | `ResourcePool.TimedAcquireRecorded` |

The pool model and `PoolTraces.Apply` keep the timed acquire as written,
because that is the code's behaviour. `PoolProperties.TimedAcquireRecordedAgrees`
proves the corrected operation against `acquire()`, and the conserving runs
of `PoolTraces.RunConserves` leave the timed acquire out.
