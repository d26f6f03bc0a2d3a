# Componential component registry, modelled in Dafny

This project models `ComponentRegistry`, the lifecycle container of the
Componential library for Bukkit plugins. A registry holds:

- an ordered list of registered component classes;
- a map from each active class to its live instance;
- two re-entrancy guards, one for initialisation (keyed by class) and one for teardown (keyed by instance);
- a cache of each class's declared dependencies;
- a reverse table from a dependency to the classes that declared it;
- the list of reload candidates;
- whether a plugin is bound.

Its operations register and unregister classes. They initialise a class
depth-first over its declared dependencies. They reload every candidate,
reloading its direct dependencies first and nothing twice in one pass. They
tear down a component after its dependents, checking its direct dependents
before tearing any of them down, and they tear down whole batches under an
exception-handler policy.

The registry is the class `Registry.ComponentRegistry`, whose fields are
the Java fields. Every Java method that changes the registry is a Dafny
method with a `modifies` clause naming the fields it changes, and its loops
carry their invariants. The lookups and the pending-flag reads change
nothing and are functions. `instantiateComponentClass` and `setPluginField`
are reflection and are folded into `InstantiateComponent`. A few Java
methods are split into smaller Dafny methods, one per loop body or guarded
block. The operations keep the registry's invariants. Among them, every
active instance belongs to its class, every active class is registered, and
instances are numbered in construction order.

Pure parts are specified as functions and lemmas in their own modules:

- `Sequences`: list removal, written as `Without` and `RemoveFirst`.
- `DependentTable`: the dependent table's edge operations.
- `ReloadPass`: one reload pass, as a function of the registry state. The registry's reload methods are proved to compute exactly this function. The pass's guarantees are proved about the function.
- `DependencyGraph`: chains of declared dependencies, reachability and dependency cycles, and the order in which an initialisation makes classes active. No class on a cycle of inactive classes can ever be made active.

Code the registry calls but cannot see is modelled as fixed answers in a `Catalog`:

- reflective construction;
- `init()`;
- `unload()`;
- annotation reading.

The calls `unload()` and `reload()`, and the subscriptions to and from the
host's event system, are appended to a `log` field of events. Construction
and `init()` are not logged. Their only visible effect is whether the class
becomes active, so the log does not show the order of initialisation.

The pending-initialisation and pending-teardown maps are `WeakHashMap`s
read with `getOrDefault(..., false)`. A stored `false` cannot be told apart
from a missing entry, so each map is modelled as the set of keys whose
value is `true`. In the source both maps are `static`, so registries share
them. Here they are fields of one registry.

Every failure is tied to its cause. An initialisation fails with
`AlreadyInitialised` only for an active class. It fails with
`CircularInitialisation` only for a reachable class that was pending or lies
on a dependency cycle. It fails with `ConstructionFailed` only for a
reachable class whose construction or `init()` fails. A teardown fails only
for one of these reasons:

- its component was already being torn down;
- without a queue, a dependent is recorded;
- with a queue, an active dependent that is not being torn down is not queued;
- an `unload()` fails.

Termination, which the source leaves to its guards, is proved:

- Initialisation recursion decreases the set of known classes that are not yet pending.
- Teardown recursion decreases the set of active instances, plus the one being torn down, that are not yet pending.

The source's quirks are kept and stated in the contracts:

- **Dependency failure leaves the flag set.** `InitializeComponent` leaves its class pending when a dependency fails. Only a failure of its own construction clears the flag.
- **Shallow dependency reload.** `ReloadDependencies` reloads only direct dependencies. It stops with `NotInitialised` at the first inactive one.
- **Candidates dropped.** The reload pass drops from the candidate list both cleared references and candidates that were already reloaded in that pass.
- **A batch may tear a dependent down twice.** Inside a batch, a dependent is torn down recursively with its dependency (java lines 629-636) but stays in the active map. When the batch loop reaches it, it is torn down again and its `unload()` runs a second time (java lines 686-713). `DeinitializeComponentsSet` reproduces this and its contract allows it.
- **Unqueued teardown fails on any recorded dependent.** This includes dependents that are no longer active. `UnregisterComponent` of a class whose dependent was unregistered earlier therefore fails with `DependentsActive`.

## Model

| member | source | states |
|---|---|---|
| Sequences.RemoveFirstMultiset | src/main/java/io/github/brawaru/componential/ComponentRegistry.java:113 | `List.remove(Object)` removes exactly one occurrence of the class, when there is one |
| Sequences.RemoveFirstNoDup | src/main/java/io/github/brawaru/componential/ComponentRegistry.java:113 | on a duplicate-free registration list, removing a class leaves a duplicate-free list holding exactly the other classes |
| Sequences.WithoutMembers | src/main/java/io/github/brawaru/componential/ComponentRegistry.java:146-151 | filtering a dependents list keeps exactly the references that are not to the removed class |
| Sequences.WithoutTwice | src/main/java/io/github/brawaru/componential/ComponentRegistry.java:562-579 | removing candidates from the candidate list one at a time equals removing all of them at once |
| Sequences.WithoutIsRemoveFirst | src/main/java/io/github/brawaru/componential/ComponentRegistry.java:579 | on a duplicate-free list, removing the first occurrence of an element equals filtering out every occurrence |
| Sequences.WithoutNoDup | src/main/java/io/github/brawaru/componential/ComponentRegistry.java:146-151 | filtering never creates a duplicate reference |
| DependentTable.WithDependentEdges | src/main/java/io/github/brawaru/componential/ComponentRegistry.java:122-132 | `registerDependent` adds exactly the one edge and keeps every other edge |
| DependentTable.WithDependentGrows | src/main/java/io/github/brawaru/componential/ComponentRegistry.java:122-132 | every dependents list keeps its old entries as a prefix, and the new edge is present |
| DependentTable.WithDependentIdempotent | src/main/java/io/github/brawaru/componential/ComponentRegistry.java:127-131 | recording the same edge twice gives the same table as recording it once |
| DependentTable.WithDependentWellFormed | src/main/java/io/github/brawaru/componential/ComponentRegistry.java:122-132 | the table keeps no empty list and no duplicate reference |
| DependentTable.WithoutDependentEdges | src/main/java/io/github/brawaru/componential/ComponentRegistry.java:140-156 | `unregisterDependent` removes exactly the one edge and keeps every other edge |
| DependentTable.WithoutDependentWellFormed | src/main/java/io/github/brawaru/componential/ComponentRegistry.java:140-156 | the table stays well formed, and the dependency's key survives exactly when another dependent remains |
| DependentTable.WithoutUndoesWith | src/main/java/io/github/brawaru/componential/ComponentRegistry.java:122-156 | removing an edge just added, which was absent before, restores the table |
| ReloadPass.ReloadDependenciesGood | src/main/java/io/github/brawaru/componential/ComponentRegistry.java:530-549 | the dependency loop reloads each dependency at most once. Completing means every dependency was active and every reloadable one is reloaded. Aborting names an inactive declared dependency |
| ReloadPass.ReloadDependenciesKeepsDropped | src/main/java/io/github/brawaru/componential/ComponentRegistry.java:530-549 | reloading dependencies never removes a candidate from the list |
| ReloadPass.CandidateGood | src/main/java/io/github/brawaru/componential/ComponentRegistry.java:562-580 | one candidate turn keeps the pass consistent. A live reloadable candidate is reloaded unless the pass aborts. Only that candidate can be dropped, and only if its reference is cleared or it was already reloaded |
| ReloadPass.ReloadAllGood | src/main/java/io/github/brawaru/componential/ComponentRegistry.java:557-581 | the candidate loop, by induction, keeps the same guarantees over all the candidates |
| ReloadPass.ReloadPassSound | src/main/java/io/github/brawaru/componential/ComponentRegistry.java:557-581 | in one pass, no component is reloaded twice, and a candidate's active reloadable direct dependencies reload before it. A completed pass reloaded every live reloadable candidate. Drops are only of cleared or already-reloaded candidates. An abort names an inactive class |
| Registry.ComponentRegistry.constructor | src/main/java/io/github/brawaru/componential/ComponentRegistry.java:27-71 | a new registry is empty, unbound and consistent, with no serial in use and no candidate listed |
| Registry.ComponentRegistry.HasComponentRegistered | src/main/java/io/github/brawaru/componential/ComponentRegistry.java:95-97 | true exactly when the class occurs in the registration list |
| Registry.ComponentRegistry.HasComponentInitialized | src/main/java/io/github/brawaru/componential/ComponentRegistry.java:418-420 | only known classes are ever active |
| Registry.ComponentRegistry.LookupActiveComponent | src/main/java/io/github/brawaru/componential/ComponentRegistry.java:384-388 | returns an instance exactly when the class is active; the instance is the active one and belongs to that class |
| Registry.ComponentRegistry.GetActiveComponent | src/main/java/io/github/brawaru/componential/ComponentRegistry.java:400-410 | returns the active instance, or fails with `NotInitialised` exactly when the class is inactive |
| Registry.ComponentRegistry.GetActiveComponentDependents | src/main/java/io/github/brawaru/componential/ComponentRegistry.java:166-182 | the recorded dependents, duplicate-free, and non-empty exactly when the table has the key |
| Registry.ComponentRegistry.SetPendingInitialization | src/main/java/io/github/brawaru/componential/ComponentRegistry.java:487-500 | after the call, `isPendingInitialization` of that class reads back the value just set, and every other class reads as before |
| Registry.ComponentRegistry.SetPendingDeinitialization | src/main/java/io/github/brawaru/componential/ComponentRegistry.java:508-520 | after the call, `isPendingDeinitialization` of that instance reads back the value just set, and every other instance reads as before |
| Registry.ComponentRegistry.GetComponentDependencies | src/main/java/io/github/brawaru/componential/ComponentRegistry.java:428-447 | returns the declared dependencies whether or not they were cached, and afterwards the cache holds them |
| Registry.ComponentRegistry.ContainsDependent | src/main/java/io/github/brawaru/componential/ComponentRegistry.java:127-129 | the scan finds the dependent exactly when the list holds it |
| Registry.ComponentRegistry.RegisterDependent | src/main/java/io/github/brawaru/componential/ComponentRegistry.java:122-132 | the table becomes `WithDependent` of the old one, so the edge is present and every old list is kept as a prefix |
| Registry.ComponentRegistry.RemoveDependentRefs | src/main/java/io/github/brawaru/componential/ComponentRegistry.java:146-151 | in-place removal while walking a copy leaves exactly the list with every reference to the dependent filtered out |
| Registry.ComponentRegistry.UnregisterDependent | src/main/java/io/github/brawaru/componential/ComponentRegistry.java:140-156 | the table becomes `WithoutDependent` of the old one, so the edge is gone and no edge is added |
| Registry.ComponentRegistry.RegisterComponent | src/main/java/io/github/brawaru/componential/ComponentRegistry.java:79-87 | a registered class changes nothing. Otherwise the class is appended at the end. If no plugin is bound, nothing else changes. If one is bound and the call succeeds, the class is active and the pending flags are as before. A failure is an initialisation failure with a cause, as for `InitializeComponent`. The registry only grows, and classes become active in dependency order |
| Registry.ComponentRegistry.RegisterAndInitializeDependencies | src/main/java/io/github/brawaru/componential/ComponentRegistry.java:189-196 | on success, every declared dependency is registered and active, and records the class as a dependent. A failure is a circular or construction failure of a class strictly below the class in the dependency graph. Classes become active only after their dependencies |
| Registry.ComponentRegistry.RegisterAndInitializeDependency | src/main/java/io/github/brawaru/componential/ComponentRegistry.java:191-194 | one dependency: on success it is registered and active, and records the class as a dependent. A failure has a cause strictly below the class |
| Registry.ComponentRegistry.RegisterDependency | src/main/java/io/github/brawaru/componential/ComponentRegistry.java:192-193 | records the class as a dependent of the dependency and registers the dependency when it is not. On success the dependency is registered and the edge is present. A failure has a cause strictly below the class |
| Registry.ComponentRegistry.InitializeComponent | src/main/java/io/github/brawaru/componential/ComponentRegistry.java:290-339 | an active class fails with `AlreadyInitialised` and a pending one with `CircularInitialisation`, both changing nothing. Success means the class is active and not pending, with all dependencies ready. Every other failure leaves the class inactive. A failure of its own construction also clears its flag. A dependency failure leaves it pending. Every failure has a cause: `AlreadyInitialised` only for this active class, `CircularInitialisation` only for a reachable inactive class that was pending or lies on a cycle, `ConstructionFailed` only for a reachable class neither active nor pending whose construction or `init()` fails. A class that leads into a dependency cycle of inactive classes fails, and no class on the cycle becomes active. Active instances keep their value, and the calls, candidates and pending flags only grow |
| Registry.ComponentRegistry.InitializePending | src/main/java/io/github/brawaru/componential/ComponentRegistry.java:304-338 | once the class is marked pending: success makes it active with its dependencies ready and restores the flags. A failure leaves the class inactive, clears its flag only for its own construction failure, and has a cause. Classes become active in dependency order, the class last |
| Registry.ComponentRegistry.ConstructComponent | src/main/java/io/github/brawaru/componential/ComponentRegistry.java:308-338 | clears the flag whatever happens. It succeeds exactly when construction succeeds and, for an `Initializable` class, `init()` does too. Success adds exactly this class to the active map, with an instance that was neither active nor a candidate before. Failure is `ConstructionFailed` and leaves the active map, the candidate list and the calls unchanged |
| Registry.ComponentRegistry.InstantiateComponent | src/main/java/io/github/brawaru/componential/ComponentRegistry.java:310-326 | succeeds exactly when construction succeeds and, for an `Initializable` class, `init()` succeeds. The result is an instance of that class distinct from every active instance and every reload candidate |
| Registry.ComponentRegistry.ActivateComponent | src/main/java/io/github/brawaru/componential/ComponentRegistry.java:328-336 | records the instance as active, appends it to the candidates when `Reloadable`, and subscribes it when a `Listener`. The candidate list stays duplicate-free |
| Registry.ComponentRegistry.InitializeComponentsSet | src/main/java/io/github/brawaru/componential/ComponentRegistry.java:346-354 | on success, every class of the batch is active and the pending flags are as before. On failure, the batch is done in order up to a class that was not active before, and the failure has a cause for that class. The registry only grows: active instances keep their value, and calls and candidates are only appended. Classes become active in dependency order: the classes made active are listed in the order they became active, none was active before, and each one's dependencies were active before it. A class of the batch that leads into a dependency cycle of classes not active makes the batch fail, and no class on the cycle becomes active |
| Registry.ComponentRegistry.InitializeMember | src/main/java/io/github/brawaru/componential/ComponentRegistry.java:349-353 | one turn of the batch loop: an active class is skipped. Otherwise the class is initialised, and on success it is active and the flags are as before. A failure is an initialisation failure of a class that was not active, with its cause. The classes made active so far stay in dependency order |
| Registry.ComponentRegistry.InitializeComponents | src/main/java/io/github/brawaru/componential/ComponentRegistry.java:362-375 | a bound registry fails with `AlreadyBound` and nothing changes. Otherwise the plugin is bound and the pending-teardown flags are kept. Up to the end of the batch, the registration list, the active classes, the calls and the candidates only grow, and active instances keep their value. A new candidate was not active before. A batch failure is the result, with no reload pass, and it has a cause for the first class of the batch that failed. After a successful batch every class registered before is active, and then one reload pass runs over the candidates as `ReloadPass.ReloadAll`. Its calls follow those of the batch, it shrinks the candidate list, and an inactive dependency makes the result `NotInitialised`. The batch makes classes active in dependency order. A registered class that leads into a dependency cycle of classes not active makes the batch fail, so the result is that failure, and no class on the cycle becomes active |
| Registry.ComponentRegistry.ReloadDependencies | src/main/java/io/github/brawaru/componential/ComponentRegistry.java:530-549 | the loop's reloaded set, calls and outcome are exactly those of `ReloadPass.ReloadDependenciesOf` |
| Registry.ComponentRegistry.ReloadCandidate | src/main/java/io/github/brawaru/componential/ComponentRegistry.java:562-580 | one turn computes exactly `ReloadPass.ReloadCandidate`, including whether the candidate is dropped |
| Registry.ComponentRegistry.ReloadComponentsSet | src/main/java/io/github/brawaru/componential/ComponentRegistry.java:557-581 | the calls, the new candidate list and the outcome are exactly those of `ReloadPass.ReloadAll` from an empty pass |
| Registry.ComponentRegistry.DropCandidate | src/main/java/io/github/brawaru/componential/ComponentRegistry.java:579 | `remove(reloadableRef)` removes the first entry for the instance. On the duplicate-free candidate list this is the same as removing every entry for it |
| Registry.ComponentRegistry.ReloadComponents | src/main/java/io/github/brawaru/componential/ComponentRegistry.java:584-586 | a reload pass over the current candidate list, as `ReloadPass.ReloadAll` |
| Registry.ComponentRegistry.FindBlockingDependent | src/main/java/io/github/brawaru/componential/ComponentRegistry.java:616-627 | finds nothing exactly when no dependent is active, not pending and outside the queue. Otherwise it returns the first such dependent |
| Registry.ComponentRegistry.DeinitializeComponentDependencies | src/main/java/io/github/brawaru/componential/ComponentRegistry.java:598-638 | no dependents means success and no change. Without a queue, any recorded dependent is `DependentsActive` with no change. An active unqueued dependent not pending is `DependentStillActive` before anything changes. Any other failure is a commit failure: a blocking dependent or a failed `unload()` of an active instance not being torn down. On success every active dependent that was not pending was queued, was torn down (its `unload()` and unsubscription are among the new calls), and lost its edge. An edge leaves the dependent table only when its dependent was active, was not already being torn down, and has its teardown calls among the new calls. Every new call is a teardown call of an active instance that was not already being torn down |
| Registry.ComponentRegistry.DeinitializeDependents | src/main/java/io/github/brawaru/componential/ComponentRegistry.java:629-637 | the commit loop: a failure is a commit failure. On success every active dependent that was not being torn down lost its edge and has its teardown calls among the new calls. An edge leaves the dependent table only when its dependent was active, was not already being torn down, and has its teardown calls among the new calls. Every new call is a teardown call of an active instance that was not already being torn down |
| Registry.ComponentRegistry.DeinitializeDependent | src/main/java/io/github/brawaru/componential/ComponentRegistry.java:629-636 | one commit step: an inactive or pending dependent is skipped with success and no change. An active dependent that is not pending is torn down, so the new calls end with its `unload()` and unsubscription, and then its edge is removed. A failure is a commit failure. An edge leaves the dependent table only when its dependent was active, was not already being torn down, and has its teardown calls among the new calls. Every new call is a teardown call of an active instance that was not already being torn down |
| Registry.ComponentRegistry.TearDownDependent | src/main/java/io/github/brawaru/componential/ComponentRegistry.java:632-636 | for an active dependent that is not being torn down: the new calls end with its `unload()` and unsubscription, then its edge is removed. A failure is a commit failure. Removed edges and new calls are bounded as for `DeinitializeDependent` |
| Registry.ComponentRegistry.DeinitializeComponent | src/main/java/io/github/brawaru/componential/ComponentRegistry.java:646-669 | a pending instance fails with `CircularDeinitialisation` and nothing changes. On every exit the pending flags are as before, edges are only removed and calls only appended. Success ends the calls with `unload()` and unsubscription. With a queue, the teardown calls of every dependent that was active and not pending come before these. Without a queue the dependent table is untouched, success happens exactly when the instance was not pending, had no recorded dependent and its `unload()` returns normally, and then the calls are exactly its own. Every failure has one of the teardown causes. An edge leaves the dependent table only when its dependent was active, was not already being torn down, and has its teardown calls among the new calls. Every new call is a teardown call of this instance or of an active instance that was not already being torn down |
| Registry.ComponentRegistry.DeinitializeGuarded | src/main/java/io/github/brawaru/componential/ComponentRegistry.java:654-668 | the guarded block, run while the component is marked, with the flag cleared afterwards: dependents first, then the component's own calls. Its own calls end the new calls and come after the calls of every dependent that was active and not already being torn down. Without a queue it succeeds exactly when no dependent is recorded and `unload()` returns normally. Every failure has one of the teardown causes. An edge leaves the dependent table only when its dependent was active, was not already being torn down, and has its teardown calls among the new calls. Every new call is a teardown call of this instance or of an active instance that was not already being torn down |
| Registry.ComponentRegistry.UnloadAndUnsubscribe | src/main/java/io/github/brawaru/componential/ComponentRegistry.java:657-665 | fails with `UnloadFailed` exactly when `unload()` fails, with no call made. Otherwise the calls are `unload()` if `Unloadable`, then unsubscription if `Listener` |
| Registry.ComponentRegistry.DeinitializeQueued | src/main/java/io/github/brawaru/componential/ComponentRegistry.java:689-713 | after a successful teardown, the class leaves the active map only if the map still holds that very instance, and afterwards the map does not hold it. After a failure, the map is unchanged and the failure has one of the teardown causes. Edges removed and calls made are bounded as for `DeinitializeComponent`, against the active map at the start |
| Registry.ComponentRegistry.DeinitializeNext | src/main/java/io/github/brawaru/componential/ComponentRegistry.java:686-713 | one turn of the batch loop keeps the batch's progress: entries leave the active map only for members attempted, members torn down are no longer held, and each failure has a cause. Edges leave the table only for dependents active at the batch's start, not being torn down, whose teardown calls were made. Every call is a teardown call of a batch member or of an instance active at the start, none of them already being torn down |
| Registry.ComponentRegistry.DeinitializeComponentsSet | src/main/java/io/github/brawaru/componential/ComponentRegistry.java:680-715 | members are attempted in order, and the active map only loses entries whose instance was attempted. Every member attempted without failure no longer holds its class. Each failed attempt has one of the teardown causes, judged against the state when the batch started. A failure before the last attempt was handled with "continue". A failure wraps the cause with its component and escapes only with no handler or a handler that rethrows. Fewer attempts than members means the last one failed and the handler said "stop". A handler that always continues attempts every member and succeeds. A handler that never rethrows means success. With no handler, success means every member was attempted without failure. An edge leaves the dependent table only when its dependent was active at the start, was not already being torn down, and has its teardown calls among the new calls. Every new call is a teardown call of a member or of an instance active at the start, none of them already being torn down |
| Registry.ComponentRegistry.DeinitializeComponents | src/main/java/io/github/brawaru/componential/ComponentRegistry.java:722-744 | an unbound registry fails with `NotBound` and nothing changes. Otherwise every active component is attempted, and each one torn down without failure is no longer active. Each failed attempt has one of the teardown causes. Only active components leave the active map. With nothing being torn down and every `unload()` returning normally, no component is left active. An edge leaves the dependent table only when its dependent was active, not already being torn down, and its teardown calls were made. Every call is a teardown call of a component active at the start. It succeeds and leaves the registry unbound |
| Registry.ComponentRegistry.UnregisterComponent | src/main/java/io/github/brawaru/componential/ComponentRegistry.java:104-114 | on success, the class is neither active nor registered, and nothing else leaves the active map. A failure leaves both unchanged. For an active class, success happens exactly when its instance is not being torn down, has no recorded dependent and its `unload()` returns normally, and then the new calls are exactly its teardown calls. A failure has one of the teardown causes. If the instance is not already being torn down and has a recorded dependent, it fails with `DependentsActive` and changes nothing. The dependent table is never changed |
| Registry.ComponentRegistry.DeinitializeUnqueued | src/main/java/io/github/brawaru/componential/ComponentRegistry.java:105-111 | tears down the active instance alone, then removes exactly that class from the active map. It succeeds exactly when the instance is not being torn down, has no recorded dependent and its `unload()` returns normally. The new calls are then exactly its teardown calls, and a failure has one of the teardown causes |
| Registry.ComponentRegistry.Deactivate | src/main/java/io/github/brawaru/componential/ComponentRegistry.java:110 | removes exactly that class from the active map |
| Registry.ComponentRegistry.Forget | src/main/java/io/github/brawaru/componential/ComponentRegistry.java:113 | removes the class from the registration list, which keeps every other class |
| DependencyGraph.ReachesThrough | src/main/java/io/github/brawaru/componential/ComponentRegistry.java:190-194 | a class reaches, in at least one step, whatever one of its declared dependencies reaches |
| DependencyGraph.ActivatedAppend | src/main/java/io/github/brawaru/componential/ComponentRegistry.java:190-195 | two initialisations in a row, the second starting where the first stopped, together make classes active in dependency order and add no other active class |
| DependencyGraph.CycleStaysInactive | src/main/java/io/github/brawaru/componential/ComponentRegistry.java:297-302 | a dependency cycle is an error: if an initialisation makes classes active in dependency order, no class on a cycle of inactive classes becomes active, and neither does any class whose chain of dependencies leads into the cycle |
| DependencyGraph.CyclesStayInactive | src/main/java/io/github/brawaru/componential/ComponentRegistry.java:346-354 | in a batch initialisation that activates in dependency order and succeeds only with every batch class active, a batch class leading into a cycle of inactive classes makes the batch fail, and no class on the cycle is active afterwards |
| Registry.DependencyFailureLifts | src/main/java/io/github/brawaru/componential/ComponentRegistry.java:194 | a failure to initialise an inactive declared dependency is a failure strictly below the dependent class, with the same cause |
| Registry.DependencyFailureIsInitFailure | src/main/java/io/github/brawaru/componential/ComponentRegistry.java:304-306 | a failure among the dependencies, while the class is pending, is a failure to initialise the class, with the same cause |
| Registry.InitStep | src/main/java/io/github/brawaru/componential/ComponentRegistry.java:349-353 | one more class of a batch initialised extends the activation order, and covers that class once it is active |
| Registry.TeardownFailureWidens | src/main/java/io/github/brawaru/componential/ComponentRegistry.java:686-713 | a teardown cause found after some batch members were removed and some edges dropped is a cause against the state when the batch started |
| Registry.BatchStep | src/main/java/io/github/brawaru/componential/ComponentRegistry.java:686-713 | one more batch member attempted extends the batch's removals, releases and explained failures |
| Registry.NoBatchFailure | src/main/java/io/github/brawaru/componential/ComponentRegistry.java:722-741 | with nothing being torn down, every active component queued and every `unload()` returning normally, no teardown in the batch can fail |
| Registry.AllTornDown | src/main/java/io/github/brawaru/componential/ComponentRegistry.java:722-743 | tearing down every active component, with nothing being torn down before and every `unload()` returning normally, leaves no component active |
| Registry.EdgesTornDownTrans | src/main/java/io/github/brawaru/componential/ComponentRegistry.java:629-637 | two teardowns in a row, the second against a part of the first's active map: every edge either removed is explained by the calls both made |
| Registry.EdgesTornDownGrows | src/main/java/io/github/brawaru/componential/ComponentRegistry.java:654-668 | later calls, and fewer instances counted as being torn down, keep the removed edges explained |
| Registry.EdgesTornDownUnregister | src/main/java/io/github/brawaru/componential/ComponentRegistry.java:635 | removing the edge of a dependent that was active, not being torn down, and whose teardown calls were made keeps the removed edges explained |
| Registry.CallsTornDownJoin | src/main/java/io/github/brawaru/componential/ComponentRegistry.java:629-637 | two teardowns in a row: all their calls are teardown calls of instances listed or active at the start, none being torn down |
| Registry.FinishCalls | src/main/java/io/github/brawaru/componential/ComponentRegistry.java:654-668 | a teardown whose dependents made only such calls, ending with its own `unload()` and unsubscription or with nothing, makes only teardown calls of itself or of active instances |
| Registry.HeldCalls | src/main/java/io/github/brawaru/componential/ComponentRegistry.java:632-633 | the calls of a teardown of an active instance are teardown calls of active instances |

## Left out

- **Constructor selection and plugin-field injection** (`instantiateComponentClass`, `setPluginField`). These are Java reflection. Their combined outcome is the `Catalog.constructs` answer.
- **`init()` and `unload()`.** Only whether each returns normally is modelled, as `Catalog.initSucceeds` and `Catalog.unloadSucceeds`. `reload()` is assumed to return normally.
- **Bukkit listener calls.** `registerEvents` and `HandlerList.unregisterAll` are host-framework calls. They are recorded as `Subscribed` and `Unsubscribed` events in `log`.
- **Logging.** The warning that `deinitializeComponents`' handler writes, and the formatting of exception messages, are I/O.
- **Garbage collection.** Class references are never cleared, so every dependent-table reference is live, and the removal of cleared references in `unregisterDependent` never applies. For reload candidates, which references are still set is the parameter `live`.
- **Annotation reading.** `DependsOn` is the fixed function `Catalog.deps`, and the set of classes is finite and closed under it.
- **Shared pending maps.** The maps are `static` and so shared between registries; here they belong to one registry. Sharing only matters when several registries or threads are in use.
- **`DeinitializationCall`.** The value `initializeComponents` returns is not modelled. Calling it is `DeinitializeComponents`.
- **Iteration order.** The order of the active map's values is the parameter `order` of `DeinitializeComponents`.
- **Pending-flag maps.** Java's `Map<…, Boolean>` guards are modelled as the set of keys whose flag is `true`. Through `getOrDefault(…, false)` a stored `false` reads the same as a missing entry, so the getters are plain membership tests. What a getter returns is stated by the setters' read-back clauses.
- Registry.ComponentRegistry.DeinitializeComponentsSet: the calls made for each member are not stated member by member. The outcome of each attempt and its cause, which members were attempted, and which entries may leave the active map are all stated. Every call is a teardown call of a member or of an instance active at the start, but calls of members after a stop are excluded only through the active map, because the log is a single sequence shared by the recursive teardowns.
- Registry.ComponentRegistry.DeinitializeComponent: with a queue, the calls are bounded from above by the teardown calls of the instance and of active instances not already being torn down, not by those of its transitive dependents alone, and how often each call occurs is not stated. The calls of every dependent torn down are stated to occur, and the instance's own calls end the log.
