/**
 * The component registry: the registration list, the active-instance map,
 * the re-entrancy guards, the dependency cache, the reverse dependency
 * table, the reload-candidate list and the bound-plugin flag, with the
 * operations that register, initialise, reload and tear down components.
 */
module Registry {
  import opened Types
  import opened Sequences
  import opened DependentTable
  import ReloadPass
  import opened DependencyGraph

  /** The parts of the registry that registration and initialisation only ever extend. */
  datatype Footprint = Footprint(registered: seq<ClassId>, active: map<ClassId, Instance>, pending: set<ClassId>,
                                 dependents: Table, calls: seq<Event>, candidates: seq<Instance>, next: nat)

  /**
   * What registration and initialisation may change: the registration list
   * only grows, active classes stay active with the same instance,
   * pending-init flags are only added, dependent lists only get longer, calls
   * and reload candidates are only appended, a candidate appended was
   * constructed afterwards, and a class that was pending initialisation
   * before does not become active.
   */
  ghost predicate Grown(a: Footprint, b: Footprint)
  {
    && a.registered <= b.registered
    && a.active.Keys <= b.active.Keys
    && (forall k | k in a.active :: b.active[k] == a.active[k])
    && (b.active.Keys - a.active.Keys) !! a.pending
    && a.pending <= b.pending
    && Grows(a.dependents, b.dependents)
    && a.calls <= b.calls
    && a.candidates <= b.candidates
    && a.next <= b.next
    && (forall x | x in b.candidates[|a.candidates|..] :: a.next <= x.serial)
  }

  /** Growth composes. */
  lemma GrownTrans(a: Footprint, b: Footprint, c: Footprint)
    requires Grown(a, b) && Grown(b, c)
    ensures Grown(a, c)
  {
    assert c.candidates[|a.candidates|..] == b.candidates[|a.candidates|..] + c.candidates[|b.candidates|..];
  }

  /** Making one more class active, with an instance constructed from `a.next` on, extends the footprint. */
  lemma GrownByActivation(a: Footprint, b: Footprint, x: Instance)
    requires x.cls !in a.active && x.cls !in a.pending && a.next <= x.serial
    requires b.active == a.active[x.cls := x]
    requires b.registered == a.registered && b.pending == a.pending && b.dependents == a.dependents
    requires a.calls <= b.calls && a.next <= b.next
    requires b.candidates == a.candidates || b.candidates == a.candidates + [x]
    ensures Grown(a, b)
  {
    assert b.candidates[|a.candidates|..] == [] || b.candidates[|a.candidates|..] == [x];
  }

  /**
   * Why initialising `c` may fail, given the classes active and the classes
   * pending initialisation when it starts: `c` was already active; or a
   * class `c` reaches through its dependencies, not active, was already
   * pending or lies on a dependency cycle; or such a class, neither active
   * nor pending, could not be constructed.
   */
  ghost predicate InitFailure(cat: Catalog, c: ClassId, e: Error, activeKeys: set<ClassId>, pending: set<ClassId>)
  {
    match e
    case AlreadyInitialised(d) => d == c && c in activeKeys
    case CircularInitialisation(d) =>
      Reaches(cat, c, d) && d !in activeKeys && (d in pending || ReachesPlus(cat, d, d))
    case ConstructionFailed(d) =>
      Reaches(cat, c, d) && d !in activeKeys && d !in pending && !Constructible(cat, d)
    case _ => false
  }

  /** Why initialising the dependencies of `c` may fail: as for `c`, but strictly below `c`. */
  ghost predicate DependencyFailure(cat: Catalog, c: ClassId, e: Error, activeKeys: set<ClassId>, pending: set<ClassId>)
  {
    match e
    case CircularInitialisation(d) =>
      ReachesPlus(cat, c, d) && d !in activeKeys && (d in pending || ReachesPlus(cat, d, d))
    case ConstructionFailed(d) =>
      ReachesPlus(cat, c, d) && d !in activeKeys && d !in pending && !Constructible(cat, d)
    case _ => false
  }

  /** A failure to initialise an inactive dependency `d` of `c` is a failure among `c`'s dependencies. */
  lemma DependencyFailureLifts(cat: Catalog, c: ClassId, d: ClassId, e: Error,
                               activeKeys: set<ClassId>, later: set<ClassId>, pending: set<ClassId>)
    requires d in cat.deps(c) && d !in later && activeKeys <= later
    requires InitFailure(cat, d, e, later, pending)
    ensures DependencyFailure(cat, c, e, activeKeys, pending)
  {
    match e
    case CircularInitialisation(b) => ReachesThrough(cat, c, d, b);
    case ConstructionFailed(b) => ReachesThrough(cat, c, d, b);
    case _ =>
  }

  /** A failure among the dependencies of `c`, while `c` is pending, is a failure to initialise `c`. */
  lemma DependencyFailureIsInitFailure(cat: Catalog, c: ClassId, e: Error, activeKeys: set<ClassId>, pending: set<ClassId>)
    requires DependencyFailure(cat, c, e, activeKeys, pending + {c})
    ensures InitFailure(cat, c, e, activeKeys, pending)
  {
    match e
    case CircularInitialisation(b) => ReachesPlusReaches(cat, c, b);
    case ConstructionFailed(b) => ReachesPlusReaches(cat, c, b);
    case _ =>
  }

  /** The first `n` dependencies in `ds` are registered, active and record `c` as a dependent. */
  ghost predicate ReadyUpTo(f: Footprint, ds: seq<ClassId>, n: nat, c: ClassId)
    requires n <= |ds|
  {
    forall j | 0 <= j < n :: ds[j] in f.registered && ds[j] in f.active && c in Dependents(f.dependents, ds[j])
  }

  /** Growth keeps the dependencies done so far ready, and one more is ready. */
  lemma GrownExtend(a: Footprint, b: Footprint, ds: seq<ClassId>, n: nat, c: ClassId)
    requires Grown(a, b) && n < |ds| && ReadyUpTo(a, ds, n, c)
    requires ds[n] in b.registered && ds[n] in b.active && c in Dependents(b.dependents, ds[n])
    ensures ReadyUpTo(b, ds, n + 1, c)
  {
    forall j | 0 <= j < n
      ensures ds[j] in b.registered && ds[j] in b.active && c in Dependents(b.dependents, ds[j])
    {
      assert a.dependents[ds[j]] <= b.dependents[ds[j]];
    }
  }

  /**
   * A batch initialisation of `queue` that started with the classes `start`
   * active and has the classes `current` active now: it made active only
   * the classes `newly`, in order, and the first `n` classes of `queue` are
   * active.
   */
  ghost predicate InitProgress(cat: Catalog, queue: seq<ClassId>, n: nat, start: set<ClassId>,
                               current: set<ClassId>, newly: seq<ClassId>)
  {
    && n <= |queue| && start <= current
    && ActivatedInOrder(cat, start, newly) && AddedOnly(start, current, newly)
    && forall j | 0 <= j < n :: queue[j] in current
  }

  /**
   * One more class of the batch initialised, going from the active classes
   * `mid` to `after` by making active the classes `more`, in order: the
   * progress extends, and covers that class once it is active.
   */
  lemma InitStep(cat: Catalog, queue: seq<ClassId>, n: nat, start: set<ClassId>, mid: set<ClassId>, after: set<ClassId>,
                 newly: seq<ClassId>, more: seq<ClassId>)
    requires n < |queue| && InitProgress(cat, queue, n, start, mid, newly)
    requires mid <= after && ActivatedInOrder(cat, mid, more) && AddedOnly(mid, after, more)
    ensures InitProgress(cat, queue, n, start, after, newly + more)
    ensures queue[n] in after ==> InitProgress(cat, queue, n + 1, start, after, newly + more)
  {
    ActivatedAppend(cat, start, mid, after, newly, more);
  }

  /** `after` has lost entries of `before`, only entries holding members of `collection`, and kept the rest. */
  ghost predicate RemovedOnly(before: map<ClassId, Instance>, after: map<ClassId, Instance>, collection: seq<Instance>)
  {
    && after.Keys <= before.Keys
    && (forall k | k in after :: after[k] == before[k])
    && (forall k | k in before && k !in after :: before[k] in collection)
  }

  /** Every instance `m` holds was constructed before serial number `n`. */
  ghost predicate Below(m: map<ClassId, Instance>, n: nat)
  {
    forall k | k in m :: m[k].serial < n
  }

  /** Removing entries keeps every remaining instance below the bound. */
  lemma RemovedOnlyBelow(before: map<ClassId, Instance>, after: map<ClassId, Instance>, collection: seq<Instance>, n: nat)
    requires RemovedOnly(before, after, collection) && Below(before, n)
    ensures Below(after, n)
  {
  }

  /** `x` is the instance `m` holds for its class. */
  ghost predicate Holds(m: map<ClassId, Instance>, x: Instance)
  {
    x.cls in m && m[x.cls] == x
  }

  /** No member of `batch` whose outcome is `Ok` is held any longer. */
  ghost predicate Released(active: map<ClassId, Instance>, batch: seq<Instance>, outcomes: seq<Outcome>)
  {
    forall i | 0 <= i < |outcomes| && i < |batch| && outcomes[i].Ok? :: !Holds(active, batch[i])
  }

  /**
   * Dropping the entry of `x` if it holds `x`, or nothing, extends a
   * removal by `x`, and no instance is held afterwards that was not before.
   */
  lemma RemovedOnlyStep(before: map<ClassId, Instance>, mid: map<ClassId, Instance>, after: map<ClassId, Instance>,
                        done: seq<Instance>, x: Instance)
    requires RemovedOnly(before, mid, done)
    requires after == mid || (Holds(mid, x) && after == mid - {x.cls})
    ensures RemovedOnly(before, after, done + [x])
    ensures forall y | Holds(after, y) :: Holds(mid, y)
  {
  }

  /** `unload()` returns normally, or the component is not `Unloadable`. */
  ghost predicate Unloads(cat: Catalog, x: Instance)
  {
    !cat.unloadable(x.cls) || cat.unloadSucceeds(x.cls)
  }

  /** The calls that end the teardown of `x`: `unload()`, then unsubscription. */
  function TeardownCalls(cat: Catalog, x: Instance): seq<Event>
  {
    (if cat.unloadable(x.cls) then [Unloaded(x)] else []) + (if cat.listener(x.cls) then [Unsubscribed(x)] else [])
  }

  /**
   * Every edge of the dependent table `before` missing from `after` is the
   * edge of a dependent that is active in `current`, whose instance was not
   * being torn down (is not in `busy`), and whose teardown calls occur in
   * `calls`: an edge goes only once its dependent has been torn down.
   */
  ghost predicate EdgesTornDown(cat: Catalog, current: map<ClassId, Instance>, busy: set<Instance>,
                                before: Table, after: Table, calls: seq<Event>)
  {
    forall k, b | b in Dependents(before, k) && b !in Dependents(after, k) ::
      b in current && current[b] !in busy && AllIn(TeardownCalls(cat, current[b]), calls)
  }

  /**
   * Two teardowns one after the other, the second against an active map
   * that keeps a part of the first's: the edges both removed are explained
   * by the calls both made.
   */
  lemma EdgesTornDownTrans(cat: Catalog, current: map<ClassId, Instance>, later: map<ClassId, Instance>,
                           busy: set<Instance>, t0: Table, t1: Table, t2: Table,
                           l0: seq<Event>, l1: seq<Event>, l2: seq<Event>)
    requires l0 <= l1 <= l2
    requires forall k | k in later :: k in current && later[k] == current[k]
    requires EdgesTornDown(cat, current, busy, t0, t1, l1[|l0|..])
    requires EdgesTornDown(cat, later, busy, t1, t2, l2[|l1|..])
    ensures EdgesTornDown(cat, current, busy, t0, t2, l2[|l0|..])
  {
    forall k, b | b in Dependents(t0, k) && b !in Dependents(t2, k)
      ensures b in current && current[b] !in busy && AllIn(TeardownCalls(cat, current[b]), l2[|l0|..])
    {
      if b in Dependents(t1, k) {
        assert l2[|l0|..] == l2[|l0|..|l1|] + l2[|l1|..];
      } else {
        AllInGrows(TeardownCalls(cat, current[b]), l0, l1, l2);
      }
    }
  }

  /**
   * Calls appended later, and fewer instances counted as being torn down,
   * keep the removed edges explained.
   */
  lemma EdgesTornDownGrows(cat: Catalog, current: map<ClassId, Instance>, busy: set<Instance>, fewer: set<Instance>,
                           t0: Table, t1: Table, l0: seq<Event>, l1: seq<Event>, l2: seq<Event>)
    requires l0 <= l1 <= l2 && fewer <= busy
    requires EdgesTornDown(cat, current, busy, t0, t1, l1[|l0|..])
    ensures EdgesTornDown(cat, current, fewer, t0, t1, l2[|l0|..])
  {
    forall k, b | b in Dependents(t0, k) && b !in Dependents(t1, k)
      ensures AllIn(TeardownCalls(cat, current[b]), l2[|l0|..])
    {
      AllInGrows(TeardownCalls(cat, current[b]), l0, l1, l2);
    }
  }

  /**
   * Removing the edge from `k` to a dependent `d` that is active, not being
   * torn down and whose teardown calls were made keeps the removed edges
   * explained.
   */
  lemma EdgesTornDownUnregister(cat: Catalog, current: map<ClassId, Instance>, busy: set<Instance>,
                                t0: Table, t1: Table, calls: seq<Event>, k: ClassId, d: ClassId)
    requires EdgesTornDown(cat, current, busy, t0, t1, calls)
    requires d in current && current[d] !in busy && AllIn(TeardownCalls(cat, current[d]), calls)
    ensures EdgesTornDown(cat, current, busy, t0, WithoutDependent(t1, k, d), calls)
  {
    WithoutDependentEdges(t1, k, d);
  }

  /**
   * `e` is a teardown call of its target, and the target is not being torn
   * down (is not in `busy`) and is either listed in `extra` or active in
   * `current`.
   */
  ghost predicate TornDownCall(cat: Catalog, extra: seq<Instance>, current: map<ClassId, Instance>,
                               busy: set<Instance>, e: Event)
  {
    && e in TeardownCalls(cat, e.target)
    && e.target !in busy
    && (e.target in extra || Holds(current, e.target))
  }

  /** Every call in `calls` is such a call: a teardown makes no other calls. */
  ghost predicate CallsTornDown(cat: Catalog, extra: seq<Instance>, current: map<ClassId, Instance>,
                                busy: set<Instance>, calls: seq<Event>)
  {
    forall e | e in calls :: TornDownCall(cat, extra, current, busy, e)
  }

  /**
   * The teardown of `x`, once its dependents' calls are made while `x`
   * itself is being torn down, may end with the calls of `x`: all of them
   * are calls of `x` or of active instances not being torn down before `x`.
   */
  lemma FinishCalls(cat: Catalog, x: Instance, current: map<ClassId, Instance>, outer: set<Instance>,
                    l0: seq<Event>, l1: seq<Event>, l2: seq<Event>)
    requires l0 <= l1 && x !in outer
    requires CallsTornDown(cat, [], current, outer + {x}, l1[|l0|..])
    requires l2 == l1 || l2 == l1 + TeardownCalls(cat, x)
    ensures CallsTornDown(cat, [x], current, outer, l2[|l0|..])
  {
    assert l2[|l0|..] == l1[|l0|..] + l2[|l1|..];
  }

  /** The calls of a teardown of an active instance `y` are calls of active instances. */
  lemma HeldCalls(cat: Catalog, y: Instance, current: map<ClassId, Instance>, busy: set<Instance>, calls: seq<Event>)
    requires Holds(current, y) && CallsTornDown(cat, [y], current, busy, calls)
    ensures CallsTornDown(cat, [], current, busy, calls)
  {
  }

  /**
   * Two teardowns one after the other, the second against an active map
   * that keeps a part of the first's: the calls both made are teardown
   * calls of instances listed in `extra` or active at the start, as long
   * as each instance either lists is one of those and the instances being
   * torn down include `busy`.
   */
  lemma CallsTornDownJoin(cat: Catalog, e1: seq<Instance>, e2: seq<Instance>, extra: seq<Instance>,
                          current: map<ClassId, Instance>, later: map<ClassId, Instance>,
                          b1: set<Instance>, b2: set<Instance>, busy: set<Instance>,
                          l0: seq<Event>, l1: seq<Event>, l2: seq<Event>)
    requires l0 <= l1 <= l2 && busy <= b1 && busy <= b2
    requires forall k | k in later :: k in current && later[k] == current[k]
    requires forall y | y in e1 :: y in extra || Holds(current, y)
    requires forall y | y in e2 :: y in extra || Holds(current, y)
    requires CallsTornDown(cat, e1, current, b1, l1[|l0|..]) && CallsTornDown(cat, e2, later, b2, l2[|l1|..])
    ensures CallsTornDown(cat, extra, current, busy, l2[|l0|..])
  {
    assert l2[|l0|..] == l1[|l0|..] + l2[|l1|..];
  }

  /**
   * Why tearing down the dependents of a component against the queue
   * `queue` may fail, given the active map, the instances being torn down
   * (`busy`) and the dependent table when it starts: a recorded dependent,
   * active, not being torn down and not queued, blocks a teardown; or the
   * `unload()` of an active component not being torn down failed.
   */
  ghost predicate CommitFailure(cat: Catalog, e: Error, active: map<ClassId, Instance>, busy: set<Instance>,
                                table: Table, queue: seq<Instance>)
  {
    match e
    case DependentStillActive(k, b) =>
      b in Dependents(table, k) && b in active && active[b] !in busy && active[b] !in queue
    case UnloadFailed(y) => !Unloads(cat, y) && y !in busy && Holds(active, y)
    case _ => false
  }

  /**
   * Why tearing down `x` may fail, given the active map, the instances being
   * torn down (`busy`) and the dependent table when it starts: `x` was being
   * torn down already; without a queue, `x` has recorded dependents; with
   * one, a teardown of its dependents fails as above; or the `unload()` of
   * `x` itself failed.
   */
  ghost predicate TeardownFailure(cat: Catalog, x: Instance, queue: Option<seq<Instance>>, e: Error,
                                  active: map<ClassId, Instance>, busy: set<Instance>, table: Table)
  {
    || (e == CircularDeinitialisation(x) && x in busy)
    || (x !in busy && queue.None? && e == DependentsActive(x.cls) && Dependents(table, x.cls) != [])
    || (x !in busy && queue.Some? && CommitFailure(cat, e, active, busy, table, queue.value))
    || (x !in busy && e == UnloadFailed(x) && !Unloads(cat, x))
  }

  /** A commit failure against a table is one against any table it was shrunk from. */
  lemma CommitFailureWidens(cat: Catalog, e: Error, active: map<ClassId, Instance>, busy: set<Instance>,
                            table: Table, shrunk: Table, queue: seq<Instance>)
    requires Shrinks(table, shrunk) && CommitFailure(cat, e, active, busy, shrunk, queue)
    ensures CommitFailure(cat, e, active, busy, table, queue)
  {
  }

  /**
   * A teardown failure against an active map with entries removed and a
   * shrunk dependent table is one against the original map and table.
   */
  lemma TeardownFailureWidens(cat: Catalog, x: Instance, queue: Option<seq<Instance>>, e: Error,
                              active: map<ClassId, Instance>, removed: map<ClassId, Instance>, done: seq<Instance>,
                              busy: set<Instance>, table: Table, shrunk: Table)
    requires RemovedOnly(active, removed, done) && Shrinks(table, shrunk)
    requires TeardownFailure(cat, x, queue, e, removed, busy, shrunk)
    ensures TeardownFailure(cat, x, queue, e, active, busy, table)
  {
    if x !in busy && queue.None? && e == DependentsActive(x.cls) {
      assert Dependents(shrunk, x.cls)[0] in Dependents(table, x.cls);
    }
  }

  /** Each failed outcome of a batch teardown of `batch` has one of the causes above. */
  ghost predicate FailuresExplained(cat: Catalog, batch: seq<Instance>, outcomes: seq<Outcome>,
                                    active: map<ClassId, Instance>, busy: set<Instance>, table: Table)
    requires |outcomes| <= |batch|
    decreases |outcomes|
  {
    || outcomes == []
    || (var n := |outcomes| - 1;
        && FailuresExplained(cat, batch, outcomes[..n], active, busy, table)
        && (outcomes[n].Fail? ==> TeardownFailure(cat, batch[n], Some(batch), outcomes[n].error, active, busy, table)))
  }

  /** One more member attempted, whose failure, if any, has a cause. */
  lemma FailuresExplainedSnoc(cat: Catalog, batch: seq<Instance>, outcomes: seq<Outcome>, o: Outcome,
                              active: map<ClassId, Instance>, busy: set<Instance>, table: Table)
    requires |outcomes| < |batch| && FailuresExplained(cat, batch, outcomes, active, busy, table)
    requires o.Fail? ==> TeardownFailure(cat, batch[|outcomes|], Some(batch), o.error, active, busy, table)
    ensures FailuresExplained(cat, batch, outcomes + [o], active, busy, table)
  {
    assert (outcomes + [o])[..|outcomes|] == outcomes;
  }

  /** The cause of each failed outcome, one at a time. */
  lemma {:induction false} FailureExplained(cat: Catalog, batch: seq<Instance>, outcomes: seq<Outcome>,
                                            active: map<ClassId, Instance>, busy: set<Instance>, table: Table, i: nat)
    requires |outcomes| <= |batch| && FailuresExplained(cat, batch, outcomes, active, busy, table)
    requires i < |outcomes| && outcomes[i].Fail?
    ensures TeardownFailure(cat, batch[i], Some(batch), outcomes[i].error, active, busy, table)
    decreases |outcomes|
  {
    var n := |outcomes| - 1;
    if i < n {
      FailureExplained(cat, batch, outcomes[..n], active, busy, table, i);
    }
  }

  /**
   * A batch teardown of `queue` that started from the active map `before`,
   * the instances `busy` being torn down and the dependent table `table`,
   * and has the outcomes `outcomes` so far: only entries of members
   * attempted have left the active map, no member torn down is held, and
   * each failure has a cause.
   */
  ghost predicate Progress(cat: Catalog, queue: seq<Instance>, outcomes: seq<Outcome>, before: map<ClassId, Instance>,
                           active: map<ClassId, Instance>, busy: set<Instance>, table: Table)
  {
    && |outcomes| <= |queue|
    && RemovedOnly(before, active, queue[..|outcomes|])
    && Released(active, queue, outcomes)
    && FailuresExplained(cat, queue, outcomes, before, busy, table)
  }

  /**
   * One more member of a batch attempted: the active map went from `mid`
   * to `after`, dropping at most the member's own entry, and the dependent
   * table from `table` down to `shrunk` in earlier steps. The removals,
   * the members released and the causes of failures extend to it.
   */
  lemma BatchStep(cat: Catalog, queue: seq<Instance>, outcomes: seq<Outcome>, r: Outcome,
                  before: map<ClassId, Instance>, mid: map<ClassId, Instance>, after: map<ClassId, Instance>,
                  busy: set<Instance>, table: Table, shrunk: Table)
    requires |outcomes| < |queue| && Shrinks(table, shrunk)
    requires RemovedOnly(before, mid, queue[..|outcomes|]) && Released(mid, queue, outcomes)
    requires FailuresExplained(cat, queue, outcomes, before, busy, table)
    requires after == mid || (Holds(mid, queue[|outcomes|]) && after == mid - {queue[|outcomes|].cls})
    requires r.Ok? ==> !Holds(after, queue[|outcomes|])
    requires r.Fail? ==> TeardownFailure(cat, queue[|outcomes|], Some(queue), r.error, mid, busy, shrunk)
    ensures RemovedOnly(before, after, queue[..|outcomes| + 1]) && Released(after, queue, outcomes + [r])
    ensures FailuresExplained(cat, queue, outcomes + [r], before, busy, table)
  {
    var x := queue[|outcomes|];
    RemovedOnlyStep(before, mid, after, queue[..|outcomes|], x);
    assert queue[..|outcomes| + 1] == queue[..|outcomes|] + [x];
    if r.Fail? {
      TeardownFailureWidens(cat, x, Some(queue), r.error, before, mid, queue[..|outcomes|], busy, table, shrunk);
    }
    FailuresExplainedSnoc(cat, queue, outcomes, r, before, busy, table);
  }

  /**
   * With nothing being torn down, every component queued, and every
   * `unload()` returning normally, no teardown of an active component can fail.
   */
  lemma NoBatchFailure(cat: Catalog, before: map<ClassId, Instance>, table: Table, order: seq<Instance>, x: Instance, e: Error)
    requires forall k | k in before :: Unloads(cat, before[k])
    requires forall y :: y in order <==> y in before.Values
    requires x in order
    ensures !TeardownFailure(cat, x, Some(order), e, before, {}, table)
  {
    assert x in before.Values;
    if e.DependentStillActive? && e.dependent in before {
      assert before[e.dependent] in before.Values;
    }
  }

  /**
   * The batch teardown of every active component, with nothing being torn
   * down before and every `unload()` returning normally, leaves no
   * component active: no member can fail, and each one torn down without
   * failure is no longer held.
   */
  lemma {:induction false} AllTornDown(cat: Catalog, before: map<ClassId, Instance>, after: map<ClassId, Instance>,
                                       table: Table, order: seq<Instance>, outcomes: seq<Outcome>)
    requires forall k | k in before :: before[k].cls == k && Unloads(cat, before[k])
    requires forall x :: x in order <==> x in before.Values
    requires RemovedOnly(before, after, order) && |outcomes| == |order|
    requires FailuresExplained(cat, order, outcomes, before, {}, table)
    requires forall i | 0 <= i < |order| && outcomes[i].Ok? :: !Holds(after, order[i])
    ensures after == map[]
  {
    forall i | 0 <= i < |order|
      ensures outcomes[i].Ok?
    {
      if outcomes[i].Fail? {
        FailureExplained(cat, order, outcomes, before, {}, table, i);
        NoBatchFailure(cat, before, table, order, order[i], outcomes[i].error);
      }
    }
    forall k | k in after
      ensures false
    {
      assert after[k] in before.Values;
      var i :| 0 <= i < |order| && order[i] == after[k];
      assert Holds(after, order[i]);
    }
  }

  class ComponentRegistry {
    /** The classes, their declared dependencies and capabilities. */
    const cat: Catalog

    /** `componentsRegistry`: registered classes in registration order. */
    var registered: seq<ClassId>
    /** `activeComponents`: the live instance of each active class. */
    var active: map<ClassId, Instance>
    /** `pendingInitialisationValues`: the classes whose flag is `true`. */
    var pendingInit: set<ClassId>
    /** `pendingDeinitialisationValues`: the instances whose flag is `true`. */
    var pendingDeinit: set<Instance>
    /** `resolvedDependencies`: the dependency cache. */
    var resolvedDeps: map<ClassId, seq<ClassId>>
    /** `resolvedDependents`: the reverse dependency table. */
    var dependents: Table
    /** `reloadableComponents`: the reload candidates. */
    var reloadables: seq<Instance>
    /** Whether `boundPlugin` is set. */
    var pluginBound: bool
    /** The serial number the next constructed instance gets. */
    var nextSerial: nat
    /** Calls made into components and into the host's event system, in order. */
    var log: seq<Event>

    ghost predicate Valid()
      reads this`registered, this`active, this`resolvedDeps, this`dependents
    {
      && Closed(cat)
      && (forall k | k in active :: active[k].cls == k && k in cat.classes)
      && (forall k | k in resolvedDeps :: resolvedDeps[k] == cat.deps(k))
      && (forall i | 0 <= i < |registered| :: registered[i] in cat.classes)
      && NoDup(registered)
      && WellFormed(dependents)
    }

    /**
     * Instances are numbered in construction order: every instance held as
     * active or as a reload candidate was constructed before `nextSerial`,
     * and no candidate is listed twice. Every active class is registered,
     * since only registered classes are initialised and a class is
     * unregistered only once it is no longer active.
     */
    ghost predicate Numbered()
      reads this`registered, this`active, this`reloadables, this`nextSerial
    {
      && (forall k | k in active :: k in registered)
      && Below(active, nextSerial)
      && (forall x | x in reloadables :: x.serial < nextSerial)
      && NoDup(reloadables)
    }

    constructor (cat: Catalog)
      requires Closed(cat)
      ensures Valid() && Numbered() && this.cat == cat
      ensures registered == [] && active == map[] && pendingInit == {} && pendingDeinit == {}
      ensures resolvedDeps == map[] && dependents == map[] && reloadables == [] && !pluginBound && log == []
    {
      this.cat := cat;
      registered := [];
      active := map[];
      pendingInit := {};
      pendingDeinit := {};
      resolvedDeps := map[];
      dependents := map[];
      reloadables := [];
      pluginBound := false;
      nextSerial := 0;
      log := [];
    }

    // ---------------------------------------------------------------- queries

    function HasComponentRegistered(c: ClassId): (r: bool)
      reads this
      requires Valid()
      ensures r ==> c in cat.classes
      ensures r <==> exists i :: 0 <= i < |registered| && registered[i] == c
    {
      c in registered
    }

    function HasComponentInitialized(c: ClassId): (r: bool)
      reads this
      requires Valid()
      ensures r ==> c in cat.classes
    {
      c in active
    }

    function LookupActiveComponent(c: ClassId): (r: Option<Instance>)
      reads this
      requires Valid()
      ensures r.Some? <==> HasComponentInitialized(c)
      ensures r.Some? ==> r.value.cls == c && r.value == active[c]
    {
      if c in active then Some(active[c]) else None
    }

    function GetActiveComponent(c: ClassId): (r: Result<Instance>)
      reads this
      requires Valid()
      ensures r.Success? <==> HasComponentInitialized(c)
      ensures r.Success? ==> r.value.cls == c && r.value == active[c]
      ensures r.Failure? ==> r.error == NotInitialised(c)
    {
      match LookupActiveComponent(c)
      case Some(x) => Success(x)
      case None => Failure(NotInitialised(c))
    }

    /** The dependents recorded for the instance's class; every reference is live. */
    function GetActiveComponentDependents(x: Instance): (r: seq<ClassId>)
      reads this
      requires Valid()
      ensures NoDup(r)
      ensures r != [] <==> x.cls in dependents
    {
      Dependents(dependents, x.cls)
    }

    // ---------------------------------------------------- re-entrancy guards

    /** A class with no entry in the guard map reads as not pending. */
    function IsPendingInitialization(c: ClassId): bool
      reads this
    {
      c in pendingInit
    }

    method SetPendingInitialization(c: ClassId, value: bool)
      modifies this`pendingInit
      ensures pendingInit == if value then old(pendingInit) + {c} else old(pendingInit) - {c}
      ensures IsPendingInitialization(c) == value
      ensures forall k | k != c :: IsPendingInitialization(k) == old(IsPendingInitialization(k))
    {
      if value {
        pendingInit := pendingInit + {c};
      } else {
        pendingInit := pendingInit - {c};
      }
    }

    function IsPendingDeinitialization(x: Instance): bool
      reads this
    {
      x in pendingDeinit
    }

    method SetPendingDeinitialization(x: Instance, value: bool)
      modifies this`pendingDeinit
      ensures pendingDeinit == if value then old(pendingDeinit) + {x} else old(pendingDeinit) - {x}
      ensures IsPendingDeinitialization(x) == value
      ensures forall y | y != x :: IsPendingDeinitialization(y) == old(IsPendingDeinitialization(y))
    {
      if value {
        pendingDeinit := pendingDeinit + {x};
      } else {
        pendingDeinit := pendingDeinit - {x};
      }
    }

    // ------------------------------------------------------ dependency cache

    /** The declared dependencies of `c`, read once and cached. */
    method GetComponentDependencies(c: ClassId) returns (ds: seq<ClassId>)
      requires Valid()
      modifies this`resolvedDeps
      ensures Valid()
      ensures ds == cat.deps(c)
      ensures resolvedDeps == old(resolvedDeps)[c := cat.deps(c)]
    {
      if c in resolvedDeps {
        ds := resolvedDeps[c];
      } else {
        ds := cat.deps(c);
        resolvedDeps := resolvedDeps[c := ds];
      }
    }

    // ----------------------------------------------- reverse dependency table

    /** The scan of a dependents list for a reference to `dependent`. */
    static method ContainsDependent(refs: seq<ClassId>, dependent: ClassId) returns (found: bool)
      ensures found <==> dependent in refs
    {
      var i := 0;
      while i < |refs|
        invariant 0 <= i <= |refs|
        invariant dependent !in refs[..i]
      {
        if refs[i] == dependent {
          return true;
        }
        i := i + 1;
      }
      assert refs[..i] == refs;
      return false;
    }

    method RegisterDependent(dependency: ClassId, dependent: ClassId)
      requires Valid()
      modifies this`dependents
      ensures Valid()
      ensures dependents == WithDependent(old(dependents), dependency, dependent)
      ensures Grows(old(dependents), dependents) && dependent in Dependents(dependents, dependency)
    {
      WithDependentWellFormed(dependents, dependency, dependent);
      WithDependentGrows(dependents, dependency, dependent);
      var refs := Dependents(dependents, dependency);
      dependents := dependents[dependency := refs];
      var found := ContainsDependent(refs, dependent);
      if found {
        return;
      }
      dependents := dependents[dependency := refs + [dependent]];
    }

    /**
     * The removal loop of `unregisterDependent`: walk a copy of the list and
     * remove, from the list itself, each reference to `dependent`.
     */
    static method RemoveDependentRefs(copy: seq<ClassId>, dependent: ClassId) returns (refs: seq<ClassId>)
      ensures refs == Without(copy, {dependent})
    {
      refs := copy;
      var kept := 0;
      ghost var done: seq<ClassId> := [];
      for i := 0 to |copy|
        invariant done == Without(copy[..i], {dependent}) && kept == |done|
        invariant refs == done + copy[i..]
      {
        WithoutStep(copy, i, done, {dependent});
        if copy[i] == dependent {
          refs := refs[..kept] + refs[kept + 1..];
        } else {
          done := done + [copy[i]];
          kept := kept + 1;
        }
      }
      assert copy[..|copy|] == copy && copy[|copy|..] == [];
    }

    method UnregisterDependent(dependency: ClassId, dependent: ClassId)
      requires Valid()
      modifies this`dependents
      ensures Valid()
      ensures dependents == WithoutDependent(old(dependents), dependency, dependent)
      ensures Shrinks(old(dependents), dependents) && dependent !in Dependents(dependents, dependency)
    {
      WithoutDependentWellFormed(dependents, dependency, dependent);
      WithoutDependentEdges(dependents, dependency, dependent);
      if dependency !in dependents {
        return;
      }
      var refs := RemoveDependentRefs(dependents[dependency], dependent);
      if refs == [] {
        dependents := dependents - {dependency};
      } else {
        dependents := dependents[dependency := refs];
      }
    }

    // ---------------------------------------------------------- initialisation

    /** Every dependency of `c` is registered, active and records `c` as a dependent. */
    ghost predicate DependenciesReady(c: ClassId)
      reads this`registered, this`active, this`dependents
    {
      forall d | d in cat.deps(c) :: d in registered && d in active && c in Dependents(dependents, d)
    }

    /** The current footprint. */
    ghost function Fp(): Footprint
      reads this`registered, this`active, this`pendingInit, this`dependents, this`log, this`reloadables, this`nextSerial
    {
      Footprint(registered, active, pendingInit, dependents, log, reloadables, nextSerial)
    }

    method RegisterComponent(c: ClassId) returns (r: Outcome, ghost newly: seq<ClassId>)
      requires Valid() && Numbered() && c in cat.classes
      modifies this`registered, this`active, this`pendingInit, this`resolvedDeps, this`dependents,
               this`reloadables, this`nextSerial, this`log
      decreases cat.classes - pendingInit, 1
      ensures Valid() && Numbered() && Grown(old(Fp()), Fp())
      ensures ActivatedInOrder(cat, old(active).Keys, newly) && AddedOnly(old(active).Keys, active.Keys, newly)
      ensures old(HasComponentRegistered(c)) ==> r == Ok && unchanged(this)
      ensures !old(HasComponentRegistered(c)) ==>
        |old(registered)| < |registered| && registered[|old(registered)|] == c
      ensures !old(HasComponentRegistered(c)) && !pluginBound ==>
        && r == Ok && registered == old(registered) + [c] && active == old(active)
        && pendingInit == old(pendingInit) && dependents == old(dependents)
        && reloadables == old(reloadables) && log == old(log)
      ensures !old(HasComponentRegistered(c)) && pluginBound && r.Ok? ==> c in active
      ensures r.Ok? ==> pendingInit == old(pendingInit)
      ensures r.Fail? ==> InitFailure(cat, c, r.error, old(active).Keys, old(pendingInit))
    {
      newly := [];
      if HasComponentRegistered(c) {
        return Ok, newly;
      }
      registered := registered + [c];
      if pluginBound {
        r, newly := InitializeComponent(c);
      } else {
        r := Ok;
      }
    }

    method RegisterAndInitializeDependencies(c: ClassId) returns (r: Outcome, ghost newly: seq<ClassId>)
      requires Valid() && Numbered() && c in cat.classes && IsPendingInitialization(c)
      modifies this`registered, this`active, this`pendingInit, this`resolvedDeps, this`dependents,
               this`reloadables, this`nextSerial, this`log
      decreases cat.classes - pendingInit, 4
      ensures Valid() && Numbered() && Grown(old(Fp()), Fp())
      ensures ActivatedInOrder(cat, old(active).Keys, newly) && AddedOnly(old(active).Keys, active.Keys, newly)
      ensures r.Ok? ==> DependenciesReady(c) && pendingInit == old(pendingInit)
      ensures r.Fail? ==> DependencyFailure(cat, c, r.error, old(active).Keys, old(pendingInit))
    {
      var ds := GetComponentDependencies(c);
      newly := [];
      var i := 0;
      while i < |ds|
        invariant 0 <= i <= |ds|
        invariant Valid() && Numbered() && Grown(old(Fp()), Fp())
        invariant ActivatedInOrder(cat, old(active).Keys, newly) && AddedOnly(old(active).Keys, active.Keys, newly)
        invariant pendingInit == old(pendingInit)
        invariant ReadyUpTo(Fp(), ds, i, c)
      {
        ghost var before := Fp();
        ghost var more;
        r, more := RegisterAndInitializeDependency(c, ds[i]);
        ActivatedAppend(cat, old(active).Keys, before.active.Keys, active.Keys, newly, more);
        newly := newly + more;
        GrownTrans(old(Fp()), before, Fp());
        if r.Fail? {
          return;
        }
        GrownExtend(before, Fp(), ds, i, c);
        i := i + 1;
      }
      return Ok, newly;
    }

    /**
     * One turn of the loop of `registerAndInitializeDependencies`: record
     * `c` as a dependent of `d`, register `d` if it is not, and initialise it
     * if it is not active.
     */
    method RegisterAndInitializeDependency(c: ClassId, d: ClassId) returns (r: Outcome, ghost newly: seq<ClassId>)
      requires Valid() && Numbered() && c in cat.classes && d in cat.deps(c) && IsPendingInitialization(c)
      modifies this`registered, this`active, this`pendingInit, this`resolvedDeps, this`dependents,
               this`reloadables, this`nextSerial, this`log
      decreases cat.classes - pendingInit, 3
      ensures Valid() && Numbered() && Grown(old(Fp()), Fp())
      ensures ActivatedInOrder(cat, old(active).Keys, newly) && AddedOnly(old(active).Keys, active.Keys, newly)
      ensures r.Ok? ==> d in registered && d in active && c in Dependents(dependents, d)
      ensures r.Ok? ==> pendingInit == old(pendingInit)
      ensures r.Fail? ==> DependencyFailure(cat, c, r.error, old(active).Keys, old(pendingInit))
    {
      r, newly := RegisterDependency(c, d);
      if r.Fail? {
        return;
      }
      ghost var registeredDep := Fp();
      if !HasComponentInitialized(d) {
        ghost var more;
        r, more := InitializeComponent(d);
        GrownTrans(old(Fp()), registeredDep, Fp());
        ActivatedAppend(cat, old(active).Keys, registeredDep.active.Keys, active.Keys, newly, more);
        newly := newly + more;
        if r.Fail? {
          DependencyFailureLifts(cat, c, d, r.error, old(active).Keys, registeredDep.active.Keys, old(pendingInit));
          return;
        }
      }
      assert d in registered && c in Dependents(dependents, d) by {
        assert registeredDep.dependents[d] <= dependents[d];
      }
      return Ok, newly;
    }

    /** The first half of such a turn: record `c` as a dependent of `d`, and register `d` if it is not. */
    method RegisterDependency(c: ClassId, d: ClassId) returns (r: Outcome, ghost newly: seq<ClassId>)
      requires Valid() && Numbered() && c in cat.classes && d in cat.deps(c) && IsPendingInitialization(c)
      modifies this`registered, this`active, this`pendingInit, this`resolvedDeps, this`dependents,
               this`reloadables, this`nextSerial, this`log
      decreases cat.classes - pendingInit, 2
      ensures Valid() && Numbered() && Grown(old(Fp()), Fp())
      ensures ActivatedInOrder(cat, old(active).Keys, newly) && AddedOnly(old(active).Keys, active.Keys, newly)
      ensures r.Ok? ==> d in registered && c in Dependents(dependents, d) && pendingInit == old(pendingInit)
      ensures r.Fail? ==> DependencyFailure(cat, c, r.error, old(active).Keys, old(pendingInit))
    {
      RegisterDependent(d, c);
      ghost var recorded := Fp();
      newly := [];
      if !HasComponentRegistered(d) {
        r, newly := RegisterComponent(d);
        GrownTrans(old(Fp()), recorded, Fp());
        if r.Fail? {
          DependencyFailureLifts(cat, c, d, r.error, old(active).Keys, old(active).Keys, old(pendingInit));
          return;
        }
        assert c in Dependents(dependents, d) by {
          assert recorded.dependents[d] <= dependents[d];
        }
      }
      return Ok, newly;
    }

    /**
     * `initializeComponent`. `newly` lists the classes it made active, in
     * order; a class `c` leads into a dependency cycle of classes not active
     * is never made active, and neither is any class on the cycle.
     */
    method InitializeComponent(c: ClassId) returns (r: Outcome, ghost newly: seq<ClassId>)
      requires Valid() && Numbered() && c in cat.classes && c in registered
      modifies this`registered, this`active, this`pendingInit, this`resolvedDeps, this`dependents,
               this`reloadables, this`nextSerial, this`log
      decreases cat.classes - pendingInit, 0
      ensures Valid() && Numbered() && Grown(old(Fp()), Fp())
      ensures ActivatedInOrder(cat, old(active).Keys, newly) && AddedOnly(old(active).Keys, active.Keys, newly)
      ensures old(HasComponentInitialized(c)) ==> r == Fail(AlreadyInitialised(c)) && unchanged(this)
      ensures old(!HasComponentInitialized(c) && IsPendingInitialization(c)) ==>
        r == Fail(CircularInitialisation(c)) && unchanged(this)
      ensures r.Ok? ==> c in active && DependenciesReady(c) && pendingInit == old(pendingInit)
      ensures r == Fail(ConstructionFailed(c)) ==> c !in active && !IsPendingInitialization(c)
      ensures (old(!HasComponentInitialized(c) && !IsPendingInitialization(c)) && r.Fail? &&
               r.error != ConstructionFailed(c)) ==> IsPendingInitialization(c)
      ensures r.Fail? && r.error != AlreadyInitialised(c) ==> c !in active
      ensures r.Fail? ==> InitFailure(cat, c, r.error, old(active).Keys, old(pendingInit))
      ensures forall p, cyc | LeadsTo(cat, p, cyc) && p[0] == c && Avoids(p, old(active).Keys) && Avoids(cyc, old(active).Keys) ::
        r.Fail? && Avoids(cyc, active.Keys)
    {
      newly := [];
      if HasComponentInitialized(c) {
        return Fail(AlreadyInitialised(c)), newly;
      }
      if IsPendingInitialization(c) {
        ReachesSelf(cat, c);
        return Fail(CircularInitialisation(c)), newly;
      }
      SetPendingInitialization(c, true);
      r, newly := InitializePending(c, old(pendingInit));
      forall p, cyc | LeadsTo(cat, p, cyc) && p[0] == c && Avoids(p, old(active).Keys) && Avoids(cyc, old(active).Keys)
        ensures r.Fail? && Avoids(cyc, active.Keys)
      {
        CycleStaysInactive(cat, old(active).Keys, newly, p, cyc);
      }
    }

    /**
     * The rest of `initializeComponent` once `c` is marked pending on top of
     * the pending classes `outer`: initialise the dependencies, then
     * construct `c`.
     */
    method InitializePending(c: ClassId, ghost outer: set<ClassId>) returns (r: Outcome, ghost newly: seq<ClassId>)
      requires Valid() && Numbered() && c in cat.classes && c in registered && c !in active
      requires pendingInit == outer + {c} && c !in outer
      modifies this`registered, this`active, this`pendingInit, this`resolvedDeps, this`dependents,
               this`reloadables, this`nextSerial, this`log
      decreases cat.classes - pendingInit, 5
      ensures Valid() && Numbered() && Grown(old(Fp()).(pending := outer), Fp())
      ensures ActivatedInOrder(cat, old(active).Keys, newly) && AddedOnly(old(active).Keys, active.Keys, newly)
      ensures r.Ok? ==> c in active && DependenciesReady(c) && pendingInit == outer
      ensures r == Fail(ConstructionFailed(c)) ==> c !in pendingInit
      ensures r.Fail? && r.error != ConstructionFailed(c) ==> c in pendingInit
      ensures r.Fail? ==> c !in active && InitFailure(cat, c, r.error, old(active).Keys, outer)
    {
      r, newly := RegisterAndInitializeDependencies(c);
      if r.Fail? {
        DependencyFailureIsInitFailure(cat, c, r.error, old(active).Keys, outer);
        return;
      }
      ghost var ready := Fp();
      assert Grown(old(Fp()).(pending := outer), ready.(pending := outer));
      r := ConstructComponent(c);
      GrownTrans(old(Fp()).(pending := outer), ready.(pending := outer), Fp());
      if r.Fail? {
        ReachesSelf(cat, c);
        return;
      }
      ActivatedSingle(cat, ready.active.Keys, active.Keys, c);
      ActivatedAppend(cat, old(active).Keys, ready.active.Keys, active.Keys, newly, [c]);
      newly := newly + [c];
    }

    /**
     * The rest of `initializeComponent` once the dependencies are ready:
     * construct the component, record it, and clear the pending flag
     * whether construction succeeded or not.
     */
    method ConstructComponent(c: ClassId) returns (r: Outcome)
      requires Valid() && Numbered() && c in cat.classes && c in registered && c !in active
      modifies this`active, this`pendingInit, this`reloadables, this`nextSerial, this`log
      ensures Valid() && Numbered() && Grown(old(Fp()).(pending := old(pendingInit) - {c}), Fp())
      ensures pendingInit == old(pendingInit) - {c}
      ensures r.Ok? <==> Constructible(cat, c)
      ensures r.Ok? ==> c in active && active.Keys == old(active).Keys + {c}
      ensures r.Ok? ==> active[c] !in old(active).Values && active[c] !in old(reloadables)
      ensures r.Fail? ==> r.error == ConstructionFailed(c) && active == old(active)
      ensures r.Fail? ==> reloadables == old(reloadables) && log == old(log)
      ensures old(DependenciesReady(c)) ==> DependenciesReady(c)
    {
      var instance := InstantiateComponent(c);
      if instance.Failure? {
        SetPendingInitialization(c, false);
        return Fail(instance.error);
      }
      ActivateComponent(instance.value);
      SetPendingInitialization(c, false);
      GrownByActivation(old(Fp()).(pending := old(pendingInit) - {c}), Fp(), instance.value);
      return Ok;
    }

    /**
     * The guarded part of `initializeComponent`: construct the class
     * reflectively, set its plugin field and run `init()` when it is
     * `Initializable`. Any exception there becomes one construction failure.
     */
    method InstantiateComponent(c: ClassId) returns (r: Result<Instance>)
      requires Numbered()
      modifies this`nextSerial
      ensures Numbered()
      ensures r.Success? ==> (forall k | k in active :: active[k] != r.value) && r.value !in reloadables
      ensures r.Success? <==> cat.constructs(c) && (cat.initializable(c) ==> cat.initSucceeds(c))
      ensures r.Success? ==> r.value.cls == c && r.value.serial == old(nextSerial) < nextSerial
      ensures r.Failure? ==> r.error == ConstructionFailed(c) && nextSerial == old(nextSerial)
    {
      if !cat.constructs(c) || (cat.initializable(c) && !cat.initSucceeds(c)) {
        return Failure(ConstructionFailed(c));
      }
      r := Success(Instance(c, nextSerial));
      nextSerial := nextSerial + 1;
    }

    /**
     * Record a constructed component: make it the active instance of its
     * class, add it to the reload candidates when `Reloadable` and subscribe
     * it to events when it is a `Listener`.
     */
    method ActivateComponent(x: Instance)
      requires Valid() && Numbered() && x.cls in cat.classes && x.cls in registered
      requires x.serial < nextSerial && x !in reloadables
      modifies this`active, this`reloadables, this`log
      ensures Valid() && Numbered()
      ensures active == old(active)[x.cls := x]
      ensures reloadables == old(reloadables) + (if cat.reloadable(x.cls) then [x] else [])
      ensures log == old(log) + (if cat.listener(x.cls) then [Subscribed(x)] else [])
    {
      active := active[x.cls := x];
      if cat.reloadable(x.cls) {
        reloadables := reloadables + [x];
      }
      if cat.listener(x.cls) {
        log := log + [Subscribed(x)];
      }
    }

    /**
     * Initialise each class of `collection` that is not active, in order,
     * stopping at the first failure. `newly` lists the classes made active,
     * in order; a class of `collection` leading into a dependency cycle of
     * classes not active makes the batch fail, and no class on the cycle
     * becomes active.
     */
    method InitializeComponentsSet(collection: seq<ClassId>) returns (r: Outcome, ghost newly: seq<ClassId>)
      requires Valid() && Numbered() && forall c | c in collection :: c in cat.classes && c in registered
      modifies this`registered, this`active, this`pendingInit, this`resolvedDeps, this`dependents,
               this`reloadables, this`nextSerial, this`log
      ensures Valid() && Numbered() && Grown(old(Fp()), Fp())
      ensures ActivatedInOrder(cat, old(active).Keys, newly) && AddedOnly(old(active).Keys, active.Keys, newly)
      ensures r.Ok? ==> (forall c | c in collection :: c in active) && pendingInit == old(pendingInit)
      ensures r.Fail? ==> exists i | 0 <= i < |collection| ::
        && (forall j | 0 <= j < i :: collection[j] in active)
        && collection[i] !in old(active)
        && InitFailure(cat, collection[i], r.error, old(active).Keys, old(pendingInit))
      ensures forall p, cyc | LeadsTo(cat, p, cyc) && p[0] in collection &&
                              Avoids(p, old(active).Keys) && Avoids(cyc, old(active).Keys) ::
        r.Fail? && Avoids(cyc, active.Keys)
    {
      var queue := collection;
      newly := [];
      for i := 0 to |queue|
        invariant Valid() && Numbered() && Grown(old(Fp()), Fp())
        invariant InitProgress(cat, queue, i, old(active).Keys, active.Keys, newly)
        invariant pendingInit == old(pendingInit)
      {
        ghost var before := Fp();
        r, newly := InitializeMember(queue, i, old(active).Keys, newly);
        GrownTrans(old(Fp()), before, Fp());
        if r.Fail? {
          CyclesStayInactive(cat, collection, false, old(active).Keys, active.Keys, newly);
          return;
        }
      }
      CyclesStayInactive(cat, collection, true, old(active).Keys, active.Keys, newly);
      return Ok, newly;
    }

    /**
     * One turn of the loop of `initializeComponentsSet`: initialise
     * `queue[i]` unless it is active. `newly` are the classes the batch
     * made active so far, from the active classes `start`.
     */
    method InitializeMember(queue: seq<ClassId>, i: nat, ghost start: set<ClassId>, ghost newly: seq<ClassId>)
      returns (r: Outcome, ghost newlyOut: seq<ClassId>)
      requires Valid() && Numbered() && i < |queue| && queue[i] in cat.classes && queue[i] in registered
      requires InitProgress(cat, queue, i, start, active.Keys, newly)
      modifies this`registered, this`active, this`pendingInit, this`resolvedDeps, this`dependents,
               this`reloadables, this`nextSerial, this`log
      ensures Valid() && Numbered() && Grown(old(Fp()), Fp())
      ensures InitProgress(cat, queue, i, start, active.Keys, newlyOut)
      ensures r.Ok? ==> InitProgress(cat, queue, i + 1, start, active.Keys, newlyOut) && pendingInit == old(pendingInit)
      ensures r.Fail? ==> queue[i] !in old(active) && InitFailure(cat, queue[i], r.error, old(active).Keys, old(pendingInit))
    {
      newlyOut := newly;
      if HasComponentInitialized(queue[i]) {
        return Ok, newlyOut;
      }
      ghost var more;
      r, more := InitializeComponent(queue[i]);
      InitStep(cat, queue, i, start, old(active).Keys, active.Keys, newly, more);
      newlyOut := newly + more;
    }

    /**
     * Bind the plugin, initialise every registered class in registration
     * order, then run a reload pass. `live` tells which reload candidates'
     * weak references are still set. `batch` is the outcome of the
     * initialisation, and `candidates` and `initialised` are the reload
     * candidates and the calls made once it is over: the reload pass runs
     * on exactly those candidates, as `reloadComponents` does.
     */
    method InitializeComponents(live: Instance -> bool)
      returns (r: Outcome, ghost batch: Outcome, ghost candidates: seq<Instance>, ghost initialised: seq<Event>,
               ghost newly: seq<ClassId>)
      requires Valid() && Numbered()
      modifies this`pluginBound, this`registered, this`active, this`pendingInit, this`resolvedDeps, this`dependents,
               this`reloadables, this`nextSerial, this`log
      ensures Valid() && Numbered()
      ensures old(pluginBound) ==> r == Fail(AlreadyBound) && unchanged(this)
      ensures !old(pluginBound) ==> pluginBound && pendingDeinit == old(pendingDeinit)
      ensures !old(pluginBound) ==>
        Grown(old(Fp()), Footprint(registered, active, pendingInit, dependents, initialised, candidates, nextSerial))
      ensures !old(pluginBound) ==>
        && old(registered) <= registered && old(active).Keys <= active.Keys
        && old(log) <= initialised && old(reloadables) <= candidates
        && forall x | x in candidates[|old(reloadables)|..] :: x !in old(active).Values
      ensures !old(pluginBound) && batch.Fail? ==> r == batch && reloadables == candidates && log == initialised
      ensures !old(pluginBound) && batch.Fail? ==>
        exists i | 0 <= i < |old(registered)| ::
          && (forall j | 0 <= j < i :: old(registered)[j] in active)
          && old(registered)[i] !in old(active)
          && InitFailure(cat, old(registered)[i], batch.error, old(active).Keys, old(pendingInit))
      ensures !old(pluginBound) && batch.Ok? ==> (forall c | c in old(registered) :: c in active) && pendingInit == old(pendingInit)
      ensures !old(pluginBound) ==>
        ActivatedInOrder(cat, old(active).Keys, newly) && AddedOnly(old(active).Keys, active.Keys, newly)
      ensures !old(pluginBound) ==> forall p, cyc | LeadsTo(cat, p, cyc) && p[0] in old(registered) &&
                                                    Avoids(p, old(active).Keys) && Avoids(cyc, old(active).Keys) ::
        batch.Fail? && r == batch && Avoids(cyc, active.Keys)
      ensures !old(pluginBound) && batch.Ok? ==>
        var s := ReloadPass.ReloadAll(cat, active, live, candidates, ReloadPass.Start);
        && log == initialised + s.st.trace
        && reloadables == Without(candidates, s.st.dropped)
        && r == if s.missing.Some? then Fail(NotInitialised(s.missing.value)) else Ok
    {
      if pluginBound {
        return Fail(AlreadyBound), Ok, reloadables, log, [];
      }
      pluginBound := true;
      r, newly := InitializeComponentsSet(registered);
      batch, candidates, initialised := r, reloadables, log;
      if r.Fail? {
        return;
      }
      ghost var activated := active;
      r := ReloadComponents(live);
      assert active == activated;
    }

    // ------------------------------------------------------------------ reload

    /**
     * Reload the direct dependencies of `x` not yet reloaded in this pass.
     * `st` and `pre` are the pass so far: `reloaded` is its set and the log
     * is `pre` followed by its calls.
     */
    method ReloadDependencies(x: Instance, reloaded: set<Instance>, ghost st: ReloadPass.PassState, ghost pre: seq<Event>)
      returns (reloadedOut: set<Instance>, r: Outcome)
      requires Valid() && reloaded == st.reloaded && log == pre + st.trace
      modifies this`resolvedDeps, this`log
      ensures Valid()
      ensures var s := ReloadPass.ReloadDependenciesOf(cat, active, x, st);
        && reloadedOut == s.st.reloaded && log == pre + s.st.trace
        && r == if s.missing.Some? then Fail(NotInitialised(s.missing.value)) else Ok
    {
      if !cat.reloadable(x.cls) {
        return reloaded, Ok;
      }
      var ds := GetComponentDependencies(x.cls);
      reloadedOut := reloaded;
      ghost var cur := st;
      var i := 0;
      while i < |ds|
        invariant 0 <= i <= |ds| && Valid()
        invariant ReloadPass.ReloadDependencies(cat, active, ds[i..], cur)
               == ReloadPass.ReloadDependencies(cat, active, ds, st)
        invariant reloadedOut == cur.reloaded && log == pre + cur.trace
      {
        ReloadPass.ReloadDependenciesStep(cat, active, ds, i, cur);
        var found := GetActiveComponent(ds[i]);
        if found.Failure? {
          return reloadedOut, Fail(found.error);
        }
        var dep := found.value;
        if cat.reloadable(dep.cls) && dep !in reloadedOut {
          log := log + [Reloaded(dep, false)];
          reloadedOut := reloadedOut + {dep};
          cur := ReloadPass.Reload(cur, dep, false);
        }
        i := i + 1;
      }
      ReloadPass.ReloadDependenciesStep(cat, active, ds, i, cur);
      r := Ok;
    }

    /**
     * One turn of the candidate loop of `reloadComponentsSet`: a candidate
     * whose reference is set first reloads its dependencies, then itself
     * unless this pass already reloaded it. `drop` tells whether the loop
     * then removes the candidate from the candidate list.
     */
    method ReloadCandidate(x: Instance, live: Instance -> bool, reloaded: set<Instance>,
                           ghost st: ReloadPass.PassState, ghost pre: seq<Event>)
      returns (reloadedOut: set<Instance>, drop: bool, r: Outcome)
      requires Valid() && reloaded == st.reloaded && log == pre + st.trace
      modifies this`resolvedDeps, this`log
      ensures Valid()
      ensures var s := ReloadPass.ReloadCandidate(cat, active, live, x, st);
        && reloadedOut == s.st.reloaded && log == pre + s.st.trace
        && s.st.dropped == (if drop then st.dropped + {x} else st.dropped)
        && r == if s.missing.Some? then Fail(NotInitialised(s.missing.value)) else Ok
      ensures r.Fail? ==> !drop
    {
      if !live(x) {
        return reloaded, true, Ok;
      }
      if cat.reloadable(x.cls) {
        ReloadPass.ReloadDependenciesKeepsDropped(cat, active, cat.deps(x.cls), st);
      }
      reloadedOut, r := ReloadDependencies(x, reloaded, st, pre);
      if r.Fail? {
        return reloadedOut, false, r;
      }
      if x in reloadedOut {
        return reloadedOut, true, Ok;
      }
      if cat.reloadable(x.cls) {
        log := log + [Reloaded(x, true)];
        reloadedOut := reloadedOut + {x};
      }
      return reloadedOut, false, Ok;
    }

    /**
     * One reload pass over `collection`. Candidates that are cleared or were
     * already reloaded in this pass are removed from the candidate list.
     */
    method ReloadComponentsSet(collection: seq<Instance>, live: Instance -> bool) returns (r: Outcome)
      requires Valid() && Numbered()
      modifies this`resolvedDeps, this`log, this`reloadables
      ensures Valid() && Numbered()
      ensures var s := ReloadPass.ReloadAll(cat, active, live, collection, ReloadPass.Start);
        && log == old(log) + s.st.trace
        && reloadables == Without(old(reloadables), s.st.dropped)
        && r == if s.missing.Some? then Fail(NotInitialised(s.missing.value)) else Ok
    {
      var queue := collection;
      var reloaded: set<Instance> := {};
      ghost var st := ReloadPass.Start;
      WithoutNothing(reloadables, {});
      var i := 0;
      while i < |queue|
        invariant 0 <= i <= |queue| && Valid() && Numbered()
        invariant ReloadPass.ReloadAll(cat, active, live, queue[i..], st)
               == ReloadPass.ReloadAll(cat, active, live, queue, ReloadPass.Start)
        invariant reloaded == st.reloaded && log == old(log) + st.trace
        invariant reloadables == Without(old(reloadables), st.dropped)
      {
        ReloadPass.ReloadAllStep(cat, active, live, queue, i, st);
        ghost var s := ReloadPass.ReloadCandidate(cat, active, live, queue[i], st);
        var drop, failed;
        reloaded, drop, failed := ReloadCandidate(queue[i], live, reloaded, st, old(log));
        if failed.Fail? {
          return failed;
        }
        if drop {
          WithoutTwice(old(reloadables), st.dropped, {queue[i]});
          DropCandidate(queue[i]);
        }
        st := s.st;
        i := i + 1;
      }
      r := Ok;
    }

    /**
     * `reloadableComponents.remove(ref)`: drop the first reference to `x`,
     * which, with no candidate listed twice, leaves out `x` altogether.
     */
    method DropCandidate(x: Instance)
      requires Valid() && Numbered()
      modifies this`reloadables
      ensures Valid() && Numbered()
      ensures reloadables == RemoveFirst(old(reloadables), x) == Without(old(reloadables), {x})
    {
      RemoveFirstNoDup(reloadables, x);
      WithoutIsRemoveFirst(reloadables, x);
      reloadables := RemoveFirst(reloadables, x);
    }

    method ReloadComponents(live: Instance -> bool) returns (r: Outcome)
      requires Valid() && Numbered()
      modifies this`resolvedDeps, this`log, this`reloadables
      ensures Valid() && Numbered()
      ensures var s := ReloadPass.ReloadAll(cat, active, live, old(reloadables), ReloadPass.Start);
        && log == old(log) + s.st.trace
        && reloadables == Without(old(reloadables), s.st.dropped)
        && r == if s.missing.Some? then Fail(NotInitialised(s.missing.value)) else Ok
    {
      r := ReloadComponentsSet(reloadables, live);
    }

    // ------------------------------------------------------------- teardown

    /**
     * What teardown may change: pending-teardown flags are restored, edges
     * of the dependent table are only removed, and calls are only appended.
     */
    twostate predicate TornDown()
      reads this`pendingDeinit, this`dependents, this`log
    {
      && pendingDeinit == old(pendingDeinit)
      && Shrinks(old(dependents), dependents)
      && old(log) <= log
    }

    /**
     * Every dependent in `ds` whose instance in `current` was not already
     * being torn down (is not in `busy`) has had its teardown calls made in `calls`.
     */
    ghost predicate DependentsCalled(current: map<ClassId, Instance>, ds: seq<ClassId>, busy: set<Instance>, calls: seq<Event>)
    {
      forall d | d in ds && d in current && current[d] !in busy :: AllIn(TeardownCalls(cat, current[d]), calls)
    }

    /**
     * A dependent whose instance is active, not itself being torn down, and
     * not in the teardown queue: it makes a teardown of its dependency fail.
     */
    ghost predicate Blocks(d: ClassId, queue: seq<Instance>)
      reads this`active, this`pendingDeinit
    {
      d in active && active[d] !in pendingDeinit && active[d] !in queue
    }

    /** The check phase of `deinitializeComponentDependencies`: the first blocking dependent. */
    method FindBlockingDependent(ds: seq<ClassId>, queue: seq<Instance>) returns (r: Option<ClassId>)
      requires Valid()
      ensures r.None? ==> forall d | d in ds :: !Blocks(d, queue)
      ensures r.Some? ==> exists i | 0 <= i < |ds| ::
        ds[i] == r.value && Blocks(ds[i], queue) && forall j | 0 <= j < i :: !Blocks(ds[j], queue)
    {
      for i := 0 to |ds|
        invariant forall j | 0 <= j < i :: !Blocks(ds[j], queue)
      {
        var activeDependent := LookupActiveComponent(ds[i]);
        if activeDependent.None? || IsPendingDeinitialization(activeDependent.value) {
          continue;
        }
        if activeDependent.value !in queue {
          return Some(ds[i]);
        }
      }
      return None;
    }

    /**
     * Tear down the dependents of `x` before `x` itself. Without a queue any
     * recorded dependent is an error; with one, the check phase rejects the
     * whole teardown before anything changes if an active dependent is not
     * queued; otherwise each active dependent not already being torn down
     * is torn down, its calls made, and its edge removed.
     */
    method DeinitializeComponentDependencies(x: Instance, queue: Option<seq<Instance>>) returns (r: Outcome)
      requires Valid() && x in pendingDeinit
      modifies this`pendingDeinit, this`dependents, this`log
      decreases active.Values + {x} - pendingDeinit, 4
      ensures Valid() && TornDown()
      ensures old(Dependents(dependents, x.cls)) == [] ==> r == Ok && unchanged(this)
      ensures old(Dependents(dependents, x.cls)) != [] && queue.None? ==>
        r == Fail(DependentsActive(x.cls)) && unchanged(this)
      ensures queue.None? ==> dependents == old(dependents)
      ensures queue.Some? && (exists d | d in old(Dependents(dependents, x.cls)) :: Blocks(d, queue.value)) ==>
        r.Fail? && r.error.DependentStillActive? && r.error.cls == x.cls &&
        Blocks(r.error.dependent, queue.value) && unchanged(this)
      ensures r.Fail? ==> (
        || (queue.None? && r.error == DependentsActive(x.cls) && old(Dependents(dependents, x.cls)) != [])
        || (queue.Some? && CommitFailure(cat, r.error, active, old(pendingDeinit), old(dependents), queue.value)))
      ensures r.Ok? ==> forall d | d in old(Dependents(dependents, x.cls)) && d in active && active[d] !in pendingDeinit ::
        && d !in Dependents(dependents, x.cls)
        && (queue.Some? ==> active[d] in queue.value)
        && AllIn(TeardownCalls(cat, active[d]), log[|old(log)|..])
      ensures r.Ok? ==> DependentsCalled(active, old(Dependents(dependents, x.cls)), old(pendingDeinit), log[|old(log)|..])
      ensures EdgesTornDown(cat, active, old(pendingDeinit), old(dependents), dependents, log[|old(log)|..])
      ensures CallsTornDown(cat, [], active, old(pendingDeinit), log[|old(log)|..])
    {
      var ds := GetActiveComponentDependents(x);
      if ds == [] {
        return Ok;
      }
      if queue.None? {
        return Fail(DependentsActive(x.cls));
      }
      var blocking := FindBlockingDependent(ds, queue.value);
      if blocking.Some? {
        return Fail(DependentStillActive(x.cls, blocking.value));
      }
      r := DeinitializeDependents(x, ds, queue.value);
    }

    /**
     * The commit phase of `deinitializeComponentDependencies`: each active
     * dependent in `ds` not already being torn down is torn down, its calls
     * made, and its edge removed; the first failure stops the phase.
     */
    method DeinitializeDependents(x: Instance, ds: seq<ClassId>, queue: seq<Instance>) returns (r: Outcome)
      requires Valid() && x in pendingDeinit
      modifies this`pendingDeinit, this`dependents, this`log
      decreases active.Values + {x} - pendingDeinit, 3
      ensures Valid() && TornDown()
      ensures r.Fail? ==> CommitFailure(cat, r.error, active, old(pendingDeinit), old(dependents), queue)
      ensures r.Ok? ==> forall d | d in ds && d in active && active[d] !in pendingDeinit ::
        d !in Dependents(dependents, x.cls) && AllIn(TeardownCalls(cat, active[d]), log[|old(log)|..])
      ensures EdgesTornDown(cat, active, old(pendingDeinit), old(dependents), dependents, log[|old(log)|..])
      ensures CallsTornDown(cat, [], active, old(pendingDeinit), log[|old(log)|..])
    {
      for i := 0 to |ds|
        invariant Valid() && TornDown()
        invariant EdgesTornDown(cat, active, old(pendingDeinit), old(dependents), dependents, log[|old(log)|..])
        invariant CallsTornDown(cat, [], active, old(pendingDeinit), log[|old(log)|..])
        invariant forall j | 0 <= j < i && ds[j] in active && active[ds[j]] !in pendingDeinit ::
          ds[j] !in Dependents(dependents, x.cls) && AllIn(TeardownCalls(cat, active[ds[j]]), log[|old(log)|..])
      {
        ghost var before := log;
        ghost var table := dependents;
        r := DeinitializeDependent(x, ds[i], queue);
        EdgesTornDownTrans(cat, active, active, old(pendingDeinit), old(dependents), table, dependents, old(log), before, log);
        CallsTornDownJoin(cat, [], [], [], active, active, old(pendingDeinit), old(pendingDeinit), old(pendingDeinit),
                          old(log), before, log);
        if r.Fail? {
          CommitFailureWidens(cat, r.error, active, old(pendingDeinit), old(dependents), table, queue);
          return;
        }
        forall j | 0 <= j < i && ds[j] in active && active[ds[j]] !in pendingDeinit
          ensures AllIn(TeardownCalls(cat, active[ds[j]]), log[|old(log)|..])
        {
          AllInGrows(TeardownCalls(cat, active[ds[j]]), old(log), before, log);
        }
        if ds[i] in active && active[ds[i]] !in pendingDeinit {
          EndsWithAllIn(TeardownCalls(cat, active[ds[i]]), old(log), before, log);
        }
      }
      return Ok;
    }

    /**
     * One step of the commit phase: an active dependent `d` of `x` that is
     * not already being torn down is torn down, and then its edge is removed.
     */
    method DeinitializeDependent(x: Instance, d: ClassId, queue: seq<Instance>) returns (r: Outcome)
      requires Valid()
      modifies this`pendingDeinit, this`dependents, this`log
      decreases active.Values + {x} - pendingDeinit, 2
      ensures Valid() && TornDown()
      ensures old(d !in active || active[d] in pendingDeinit) ==> r == Ok && unchanged(this)
      ensures r.Fail? ==> CommitFailure(cat, r.error, active, old(pendingDeinit), old(dependents), queue)
      ensures r.Ok? && d in active && active[d] !in pendingDeinit ==>
        d !in Dependents(dependents, x.cls) && EndsWith(log[|old(log)|..], TeardownCalls(cat, active[d]))
      ensures EdgesTornDown(cat, active, old(pendingDeinit), old(dependents), dependents, log[|old(log)|..])
      ensures CallsTornDown(cat, [], active, old(pendingDeinit), log[|old(log)|..])
    {
      r := Ok;
      var activeDependent := LookupActiveComponent(d);
      if activeDependent.Some? && !IsPendingDeinitialization(activeDependent.value) {
        r := TearDownDependent(x, d, activeDependent.value, queue);
      }
    }

    /** The step above for the active instance `y` of the dependent `d`: tear `y` down, then remove the edge. */
    method TearDownDependent(x: Instance, d: ClassId, y: Instance, queue: seq<Instance>) returns (r: Outcome)
      requires Valid() && d in active && active[d] == y && y !in pendingDeinit
      modifies this`pendingDeinit, this`dependents, this`log
      decreases active.Values + {x} - pendingDeinit, 1
      ensures Valid() && TornDown()
      ensures r.Fail? ==> CommitFailure(cat, r.error, active, old(pendingDeinit), old(dependents), queue)
      ensures r.Ok? ==> d !in Dependents(dependents, x.cls) && EndsWith(log[|old(log)|..], TeardownCalls(cat, y))
      ensures EdgesTornDown(cat, active, old(pendingDeinit), old(dependents), dependents, log[|old(log)|..])
      ensures CallsTornDown(cat, [], active, old(pendingDeinit), log[|old(log)|..])
    {
      r := DeinitializeComponent(y, Some(queue));
      HeldCalls(cat, y, active, old(pendingDeinit), log[|old(log)|..]);
      if r.Fail? {
        return;
      }
      EndsWithAllIn(TeardownCalls(cat, y), old(log), old(log), log);
      ghost var torn := dependents;
      UnregisterDependent(x.cls, d);
      EdgesTornDownUnregister(cat, active, old(pendingDeinit), old(dependents), torn, log[|old(log)|..], x.cls, d);
    }

    /**
     * Tear down one component: guard against re-entry, tear down its
     * dependents, call `unload()` and unsubscribe it, and clear the guard
     * whatever happened. The calls to its dependents come before its own.
     */
    method DeinitializeComponent(x: Instance, queue: Option<seq<Instance>>) returns (r: Outcome)
      requires Valid()
      modifies this`pendingDeinit, this`dependents, this`log
      decreases active.Values + {x} - pendingDeinit, 0
      ensures Valid() && TornDown()
      ensures old(x in pendingDeinit) ==> r == Fail(CircularDeinitialisation(x)) && unchanged(this)
      ensures r.Ok? ==> EndsWith(log[|old(log)|..], TeardownCalls(cat, x))
      ensures r.Ok? && queue.Some? ==> DependentsCalled(active, old(Dependents(dependents, x.cls)), old(pendingDeinit) + {x},
        log[|old(log)|..|log| - |TeardownCalls(cat, x)|])
      ensures queue.None? ==> dependents == old(dependents)
      ensures x !in old(pendingDeinit) && queue.None? && old(Dependents(dependents, x.cls)) != [] ==>
        r == Fail(DependentsActive(x.cls)) && unchanged(this)
      ensures queue.None? ==>
        (r.Ok? <==> x !in old(pendingDeinit) && old(Dependents(dependents, x.cls)) == [] && Unloads(cat, x))
      ensures queue.None? && r.Ok? ==> log == old(log) + TeardownCalls(cat, x)
      ensures r.Fail? ==> TeardownFailure(cat, x, queue, r.error, active, old(pendingDeinit), old(dependents))
      ensures EdgesTornDown(cat, active, old(pendingDeinit), old(dependents), dependents, log[|old(log)|..])
      ensures CallsTornDown(cat, [x], active, old(pendingDeinit), log[|old(log)|..])
    {
      if IsPendingDeinitialization(x) {
        return Fail(CircularDeinitialisation(x));
      }
      SetPendingDeinitialization(x, true);
      r := DeinitializeGuarded(x, queue, old(pendingDeinit), old(Dependents(dependents, x.cls)), old(log), old(dependents));
    }

    /**
     * The guarded part of `deinitializeComponent`, run while `x` is marked
     * as being torn down: its dependents first, then its own calls.
     * `outer` are the instances being torn down before `x` was marked, and
     * `pre` and `table` the calls and the dependent table when it starts.
     */
    method DeinitializeGuarded(x: Instance, queue: Option<seq<Instance>>, ghost outer: set<Instance>, ghost ds: seq<ClassId>,
                                ghost pre: seq<Event>, ghost table: Table) returns (r: Outcome)
      requires Valid() && pendingDeinit == outer + {x} && x !in outer && ds == Dependents(dependents, x.cls)
      requires log == pre && dependents == table
      modifies this`pendingDeinit, this`dependents, this`log
      decreases active.Values + {x} - pendingDeinit, 5
      ensures Valid() && pendingDeinit == outer && Shrinks(table, dependents) && pre <= log
      ensures r.Ok? ==> EndsWith(log[|pre|..], TeardownCalls(cat, x))
      ensures r.Ok? && queue.Some? ==> DependentsCalled(active, ds, outer + {x},
        log[|pre|..|log| - |TeardownCalls(cat, x)|])
      ensures queue.None? ==> dependents == table
      ensures queue.None? && ds != [] ==>
        r == Fail(DependentsActive(x.cls)) && dependents == table && log == pre
      ensures queue.None? ==> (r.Ok? <==> ds == [] && Unloads(cat, x))
      ensures queue.None? && r.Ok? ==> log == pre + TeardownCalls(cat, x)
      ensures r.Fail? ==> TeardownFailure(cat, x, queue, r.error, active, outer, table)
      ensures EdgesTornDown(cat, active, outer, table, dependents, log[|pre|..])
      ensures CallsTornDown(cat, [x], active, outer, log[|pre|..])
    {
      r := DeinitializeComponentDependencies(x, queue);
      ghost var committed := log;
      if r.Ok? {
        r := UnloadAndUnsubscribe(x, pre);
      }
      EdgesTornDownGrows(cat, active, outer + {x}, outer, table, dependents, pre, committed, log);
      FinishCalls(cat, x, active, outer, pre, committed, log);
      SetPendingDeinitialization(x, false);
    }

    /**
     * The calls ending a teardown: `unload()` when the component is
     * unloadable, whose failure propagates and skips the rest, then
     * unsubscription from the host's events when it is a listener.
     */
    method UnloadAndUnsubscribe(x: Instance, ghost pre: seq<Event>) returns (r: Outcome)
      requires Valid() && pre <= log
      modifies this`log
      ensures Valid()
      ensures r.Ok? ==> log == old(log) + TeardownCalls(cat, x)
      ensures r.Ok? ==> EndsWith(log[|pre|..], TeardownCalls(cat, x)) && log[|pre|..|log| - |TeardownCalls(cat, x)|] == old(log)[|pre|..]
      ensures r.Fail? ==> r == Fail(UnloadFailed(x)) && log == old(log)
      ensures r.Fail? <==> cat.unloadable(x.cls) && !cat.unloadSucceeds(x.cls)
    {
      r := Ok;
      if cat.unloadable(x.cls) {
        if !cat.unloadSucceeds(x.cls) {
          return Fail(UnloadFailed(x));
        }
        log := log + [Unloaded(x)];
      }
      if cat.listener(x.cls) {
        log := log + [Unsubscribed(x)];
      }
      AppendAfter(pre, old(log), TeardownCalls(cat, x));
    }

    /**
     * Tear down a member `x` of a batch, with the whole batch as the queue,
     * and drop it from the active components if it is still the active
     * instance of its class. `busy` are the instances being torn down.
     */
    method DeinitializeQueued(x: Instance, queue: seq<Instance>, ghost busy: set<Instance>) returns (r: Outcome)
      requires Valid() && pendingDeinit == busy
      modifies this`active, this`pendingDeinit, this`dependents, this`log
      ensures Valid() && TornDown()
      ensures r.Ok? ==> active == if old(Holds(active, x)) then old(active) - {x.cls} else old(active)
      ensures r.Fail? ==> active == old(active)
      ensures r.Ok? ==> !Holds(active, x)
      ensures r.Fail? ==> TeardownFailure(cat, x, Some(queue), r.error, old(active), busy, old(dependents))
      ensures EdgesTornDown(cat, old(active), busy, old(dependents), dependents, log[|old(log)|..])
      ensures CallsTornDown(cat, [x], old(active), busy, log[|old(log)|..])
    {
      r := DeinitializeComponent(x, Some(queue));
      if r.Ok? {
        var activeComponent := LookupActiveComponent(x.cls);
        if activeComponent == Some(x) {
          Deactivate(x.cls);
        }
      }
    }

    /** Tear down the next member `x` of a batch and record its outcome. */
    method DeinitializeNext(x: Instance, queue: seq<Instance>, ghost outcomes: seq<Outcome>,
                            ghost before: map<ClassId, Instance>, ghost busy: set<Instance>, ghost table: Table,
                            ghost calls: seq<Event>)
      returns (r: Outcome)
      requires Valid() && pendingDeinit == busy && Shrinks(table, dependents)
      requires |outcomes| < |queue| && x == queue[|outcomes|]
      requires Progress(cat, queue, outcomes, before, active, busy, table)
      requires calls <= log && EdgesTornDown(cat, before, busy, table, dependents, log[|calls|..])
      requires CallsTornDown(cat, queue, before, busy, log[|calls|..])
      modifies this`active, this`pendingDeinit, this`dependents, this`log
      ensures Valid() && TornDown()
      ensures Progress(cat, queue, outcomes + [r], before, active, busy, table)
      ensures EdgesTornDown(cat, before, busy, table, dependents, log[|calls|..])
      ensures CallsTornDown(cat, queue, before, busy, log[|calls|..])
    {
      ghost var mid, shrunk, pre := active, dependents, log;
      r := DeinitializeQueued(x, queue, busy);
      EdgesTornDownTrans(cat, before, mid, busy, table, shrunk, dependents, calls, pre, log);
      CallsTornDownJoin(cat, queue, [x], queue, before, mid, busy, busy, busy, calls, pre, log);
      BatchStep(cat, queue, outcomes, r, before, mid, active, busy, table, shrunk);
    }

    /** The failure of a batch member as the handler sees it. */
    function Wrapped(collection: seq<Instance>, outcomes: seq<Outcome>, i: nat): Error
      requires i < |outcomes| <= |collection| && outcomes[i].Fail?
    {
      ComponentRelated(collection[i], outcomes[i].error)
    }

    /**
     * Tear down a batch in its order. A failure is wrapped with the
     * component it concerns; without a handler it propagates, otherwise the
     * handler decides whether to go on with the next component, to stop the
     * batch quietly, or to propagate the exception. `outcomes` holds the
     * outcome of each member attempted, in order: the members after the
     * last one attempted are left alone.
     */
    method DeinitializeComponentsSet(collection: seq<Instance>, handler: Handler) returns (r: Outcome, ghost outcomes: seq<Outcome>)
      requires Valid()
      modifies this`active, this`pendingDeinit, this`dependents, this`log
      ensures Valid() && TornDown() && |outcomes| <= |collection|
      ensures RemovedOnly(old(active), active, collection[..|outcomes|])
      ensures forall i | 0 <= i < |outcomes| && outcomes[i].Ok? :: !Holds(active, collection[i])
      ensures FailuresExplained(cat, collection, outcomes, old(active), old(pendingDeinit), old(dependents))
      ensures EdgesTornDown(cat, old(active), old(pendingDeinit), old(dependents), dependents, log[|old(log)|..])
      ensures CallsTornDown(cat, collection, old(active), old(pendingDeinit), log[|old(log)|..])
      ensures forall i | 0 <= i < |outcomes| - 1 && outcomes[i].Fail? ::
        handler.Handler? && handler.decide(Wrapped(collection, outcomes, i)) == Continue
      ensures r.Fail? ==> (
        && |outcomes| > 0 && outcomes[|outcomes| - 1].Fail?
        && r.error == Wrapped(collection, outcomes, |outcomes| - 1)
        && (handler.NoHandler? || handler.decide(r.error) == Rethrow))
      ensures r.Ok? && |outcomes| < |collection| ==> (
        && |outcomes| > 0 && outcomes[|outcomes| - 1].Fail?
        && handler.Handler? && handler.decide(Wrapped(collection, outcomes, |outcomes| - 1)) == Stop)
      ensures r.Ok? && handler.NoHandler? ==> |outcomes| == |collection| && forall i | 0 <= i < |outcomes| :: outcomes[i].Ok?
      ensures handler.Handler? && (forall e :: handler.decide(e) != Rethrow) ==> r == Ok
      ensures handler.Handler? && (forall e :: handler.decide(e) == Continue) ==> r == Ok && |outcomes| == |collection|
    {
      outcomes := [];
      r := Ok;
      for i := 0 to |collection|
        invariant Valid() && TornDown() && |outcomes| == i && r == Ok
        invariant Progress(cat, collection, outcomes, old(active), active, old(pendingDeinit), old(dependents))
        invariant EdgesTornDown(cat, old(active), old(pendingDeinit), old(dependents), dependents, log[|old(log)|..])
        invariant CallsTornDown(cat, collection, old(active), old(pendingDeinit), log[|old(log)|..])
        invariant forall j | 0 <= j < i && outcomes[j].Fail? ::
          handler.Handler? && handler.decide(Wrapped(collection, outcomes, j)) == Continue
      {
        var x := collection[i];
        var outcome := DeinitializeNext(x, collection, outcomes, old(active), old(pendingDeinit), old(dependents), old(log));
        outcomes := outcomes + [outcome];
        if outcome.Fail? {
          var wrapped := ComponentRelated(x, outcome.error);
          if handler.NoHandler? {
            r := Fail(wrapped);
            break;
          }
          var answer := handler.decide(wrapped);
          if answer == Rethrow {
            r := Fail(wrapped);
            break;
          } else if answer == Stop {
            break;
          }
        }
      }
    }

    /**
     * Tear down every active component, in the iteration order `order` of
     * the active map's values, logging and skipping any failure, then
     * unbind the plugin. Every component is attempted, and each one torn
     * down without failure is no longer active.
     */
    method DeinitializeComponents(order: seq<Instance>) returns (r: Outcome, ghost outcomes: seq<Outcome>)
      requires Valid() && Numbered()
      requires forall x :: x in order <==> x in active.Values
      modifies this`active, this`pendingDeinit, this`dependents, this`log, this`pluginBound
      ensures Valid() && Numbered()
      ensures !old(pluginBound) ==> r == Fail(NotBound) && unchanged(this)
      ensures old(pluginBound) ==> r == Ok && !pluginBound && TornDown() && RemovedOnly(old(active), active, order)
      ensures old(pluginBound) ==> (|outcomes| == |order| &&
        (forall i | 0 <= i < |order| && outcomes[i].Ok? :: !Holds(active, order[i])) &&
        FailuresExplained(cat, order, outcomes, old(active), old(pendingDeinit), old(dependents)))
      ensures old(pluginBound) ==>
        && EdgesTornDown(cat, old(active), old(pendingDeinit), old(dependents), dependents, log[|old(log)|..])
        && CallsTornDown(cat, order, old(active), old(pendingDeinit), log[|old(log)|..])
      ensures old(pluginBound) && old(pendingDeinit) == {} && (forall k | k in old(active) :: Unloads(cat, old(active)[k])) ==>
        active == map[]
    {
      if !pluginBound {
        return Fail(NotBound), [];
      }
      r, outcomes := DeinitializeComponentsSet(order, Handler(e => Continue));
      assert order[..|outcomes|] == order;
      RemovedOnlyBelow(old(active), active, order, nextSerial);
      if old(pendingDeinit) == {} && forall k | k in old(active) :: Unloads(cat, old(active)[k]) {
        AllTornDown(cat, old(active), active, old(dependents), order, outcomes);
      }
      pluginBound := false;
    }

    /**
     * Tear down the active instance of `c`, if any, without a queue, so
     * that any recorded dependent makes it fail; then forget the class.
     */
    method UnregisterComponent(c: ClassId) returns (r: Outcome)
      requires Valid() && Numbered()
      modifies this`registered, this`active, this`pendingDeinit, this`dependents, this`log
      ensures Valid() && Numbered() && TornDown()
      ensures r.Ok? ==> c !in active && active == old(active) - {c}
      ensures r.Ok? ==> registered == RemoveFirst(old(registered), c)
      ensures r.Fail? ==> c in old(active) && active == old(active) && registered == old(registered)
      ensures c !in old(active) ==> r == Ok && log == old(log)
      ensures dependents == old(dependents)
      ensures c in old(active) && old(active[c]) !in old(pendingDeinit) && old(Dependents(dependents, c)) != [] ==>
        r == Fail(DependentsActive(c)) && unchanged(this)
      ensures c in old(active) ==> (r.Ok? <==>
        old(active[c]) !in old(pendingDeinit) && old(Dependents(dependents, c)) == [] && Unloads(cat, old(active[c])))
      ensures r.Ok? && c in old(active) ==> log == old(log) + TeardownCalls(cat, old(active[c]))
      ensures r.Fail? ==> (c in old(active) &&
        TeardownFailure(cat, old(active[c]), None, r.error, old(active), old(pendingDeinit), old(dependents)))
    {
      r := DeinitializeUnqueued(c);
      if r.Ok? {
        Forget(c);
      }
    }

    /** The first half of `unregisterComponent`: tear down the active instance of `c` alone. */
    method DeinitializeUnqueued(c: ClassId) returns (r: Outcome)
      requires Valid() && Numbered()
      modifies this`active, this`pendingDeinit, this`dependents, this`log
      ensures Valid() && Numbered() && TornDown()
      ensures r.Ok? ==> active == old(active) - {c}
      ensures r.Fail? ==> c in old(active) && active == old(active)
      ensures c !in old(active) ==> r == Ok && unchanged(this)
      ensures dependents == old(dependents)
      ensures c in old(active) && old(active[c]) !in old(pendingDeinit) && old(Dependents(dependents, c)) != [] ==>
        r == Fail(DependentsActive(c)) && unchanged(this)
      ensures c in old(active) ==> (r.Ok? <==>
        old(active[c]) !in old(pendingDeinit) && old(Dependents(dependents, c)) == [] && Unloads(cat, old(active[c])))
      ensures r.Ok? && c in old(active) ==> log == old(log) + TeardownCalls(cat, old(active[c]))
      ensures r.Fail? ==> (c in old(active) &&
        TeardownFailure(cat, old(active[c]), None, r.error, old(active), old(pendingDeinit), old(dependents)))
    {
      r := Ok;
      var activeComponent := LookupActiveComponent(c);
      if activeComponent.Some? {
        r := DeinitializeComponent(activeComponent.value, None);
        if r.Fail? {
          return;
        }
        Deactivate(c);
      }
    }

    /** Drop the active instance of `c`. */
    method Deactivate(c: ClassId)
      requires Valid()
      modifies this`active
      ensures Valid() && active == old(active) - {c}
    {
      active := active - {c};
    }

    /** `componentsRegistry.remove(c)`: drop `c` from the registered classes. */
    method Forget(c: ClassId)
      requires Valid()
      modifies this`registered
      ensures Valid() && registered == RemoveFirst(old(registered), c)
      ensures forall k :: k in registered <==> k in old(registered) && k != c
    {
      RemoveFirstNoDup(registered, c);
      RemoveFirstWithin(registered, c, cat.classes);
      registered := RemoveFirst(registered, c);
    }
  }
}
