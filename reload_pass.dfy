/**
 * One reload pass over the reload-candidate list, as functions of the
 * registry's state. The registry's `ReloadComponentsSet` and
 * `ReloadDependencies` methods are proved to compute exactly these; the
 * lemmas below are what the pass guarantees: no component reloads twice,
 * a candidate's direct reloadable dependencies reload before it, and every
 * live reloadable candidate is reloaded when the pass completes.
 */
module ReloadPass {
  import opened Types

  /**
   * The state a pass carries: the `reloaded` set of the source, the calls
   * made so far, and the candidates removed from the candidate list.
   */
  datatype PassState = PassState(reloaded: set<Instance>, trace: seq<Event>, dropped: set<Instance>)

  /** A state reached, and the inactive dependency that aborted the pass, if one did. */
  datatype Step = Step(st: PassState, missing: Option<ClassId>)

  const Start := PassState({}, [], {})

  /** Call `reload()` on `x` and remember it. */
  function Reload(st: PassState, x: Instance, asCandidate: bool): PassState
  {
    st.(reloaded := st.reloaded + {x}, trace := st.trace + [Reloaded(x, asCandidate)])
  }

  /**
   * The loop of `reloadDependencies` over the declared dependencies `ds`:
   * an inactive dependency aborts; an active one that is reloadable and not
   * yet reloaded in this pass is reloaded.
   */
  function ReloadDependencies(cat: Catalog, active: map<ClassId, Instance>, ds: seq<ClassId>, st: PassState): Step
    decreases |ds|
  {
    if ds == [] then Step(st, None)
    else if ds[0] !in active then Step(st, Some(ds[0]))
    else
      var dep := active[ds[0]];
      var next := if !cat.reloadable(dep.cls) || dep in st.reloaded then st else Reload(st, dep, false);
      ReloadDependencies(cat, active, ds[1..], next)
  }

  /** `reloadDependencies`: nothing for a component that is not reloadable. */
  function ReloadDependenciesOf(cat: Catalog, active: map<ClassId, Instance>, x: Instance, st: PassState): Step
  {
    if cat.reloadable(x.cls) then ReloadDependencies(cat, active, cat.deps(x.cls), st) else Step(st, None)
  }

  /**
   * One turn of the candidate loop: a cleared reference is dropped; a live
   * candidate first reloads its dependencies, then reloads itself unless
   * this pass already reloaded it, in which case it is dropped.
   */
  function ReloadCandidate(cat: Catalog, active: map<ClassId, Instance>, live: Instance -> bool,
                           x: Instance, st: PassState): Step
  {
    if !live(x) then Step(st.(dropped := st.dropped + {x}), None)
    else
      var s := ReloadDependenciesOf(cat, active, x, st);
      if s.missing.Some? then s
      else if x !in s.st.reloaded then
        if cat.reloadable(x.cls) then Step(Reload(s.st, x, true), None) else s
      else Step(s.st.(dropped := s.st.dropped + {x}), None)
  }

  /** The candidate loop over `cands`, stopping at the first inactive dependency. */
  function ReloadAll(cat: Catalog, active: map<ClassId, Instance>, live: Instance -> bool,
                     cands: seq<Instance>, st: PassState): Step
    decreases |cands|
  {
    if cands == [] then Step(st, None)
    else
      var s := ReloadCandidate(cat, active, live, cands[0], st);
      if s.missing.Some? then s else ReloadAll(cat, active, live, cands[1..], s.st)
  }

  /** The dependency loop from position `i` on is one turn followed by the rest. */
  lemma ReloadDependenciesStep(cat: Catalog, active: map<ClassId, Instance>, ds: seq<ClassId>, i: nat, st: PassState)
    requires i <= |ds|
    ensures i == |ds| ==> ReloadDependencies(cat, active, ds[i..], st) == Step(st, None)
    ensures i < |ds| && ds[i] !in active ==> ReloadDependencies(cat, active, ds[i..], st) == Step(st, Some(ds[i]))
    ensures i < |ds| && ds[i] in active ==>
      var dep := active[ds[i]];
      var next := if !cat.reloadable(dep.cls) || dep in st.reloaded then st else Reload(st, dep, false);
      ReloadDependencies(cat, active, ds[i..], st) == ReloadDependencies(cat, active, ds[i + 1..], next)
  {
    if i < |ds| {
      assert ds[i..][1..] == ds[i + 1..];
    }
  }

  /** The candidate loop from position `i` on is one turn followed by the rest. */
  lemma ReloadAllStep(cat: Catalog, active: map<ClassId, Instance>, live: Instance -> bool,
                      cands: seq<Instance>, i: nat, st: PassState)
    requires i <= |cands|
    ensures i == |cands| ==> ReloadAll(cat, active, live, cands[i..], st) == Step(st, None)
    ensures i < |cands| ==>
      var s := ReloadCandidate(cat, active, live, cands[i], st);
      ReloadAll(cat, active, live, cands[i..], st)
        == if s.missing.Some? then s else ReloadAll(cat, active, live, cands[i + 1..], s.st)
  {
    if i < |cands| {
      assert cands[i..][1..] == cands[i + 1..];
    }
  }

  /**
   * The trace holds only reload calls, on pairwise distinct targets, and
   * the `reloaded` set is exactly the set of targets.
   */
  ghost predicate Tracked(st: PassState)
  {
    && (forall i | 0 <= i < |st.trace| :: st.trace[i].Reloaded? && st.trace[i].target in st.reloaded)
    && (forall x | x in st.reloaded :: exists i :: 0 <= i < |st.trace| && st.trace[i].target == x)
    && (forall i, j | 0 <= i < j < |st.trace| :: st.trace[i].target != st.trace[j].target)
  }

  /**
   * Every reload made by the candidate loop itself comes after the reloads
   * of the candidate's active reloadable dependencies, and all of the
   * candidate's dependencies were active.
   */
  ghost predicate DependenciesFirst(cat: Catalog, active: map<ClassId, Instance>, trace: seq<Event>)
  {
    forall k | 0 <= k < |trace| && trace[k].Reloaded? && trace[k].asCandidate ::
      forall d | d in cat.deps(trace[k].target.cls) ::
        d in active && (cat.reloadable(active[d].cls) ==> exists j :: 0 <= j < k && trace[j].target == active[d])
  }

  ghost predicate Good(cat: Catalog, active: map<ClassId, Instance>, st: PassState)
  {
    Tracked(st) && DependenciesFirst(cat, active, st.trace)
  }

  /** A later state of the same pass: calls and reloaded set only grow. */
  ghost predicate Extends(st: PassState, st': PassState)
  {
    st.trace <= st'.trace && st.reloaded <= st'.reloaded && st.dropped <= st'.dropped
  }

  /** Reloading a component not yet reloaded keeps the pass consistent. */
  lemma ReloadGood(cat: Catalog, active: map<ClassId, Instance>, st: PassState, x: Instance, asCandidate: bool)
    requires Good(cat, active, st)
    requires x !in st.reloaded
    requires asCandidate ==> forall d | d in cat.deps(x.cls) ::
      d in active && (cat.reloadable(active[d].cls) ==> active[d] in st.reloaded)
    ensures Good(cat, active, Reload(st, x, asCandidate))
  {
    var st' := Reload(st, x, asCandidate);
    var n := |st.trace|;
    assert st'.trace[n].target == x;
    forall i | 0 <= i < n ensures st'.trace[i].target != x {
      assert st'.trace[i] == st.trace[i];
    }
    forall y | y in st'.reloaded ensures exists i :: 0 <= i < |st'.trace| && st'.trace[i].target == y {
      if y != x {
        var i :| 0 <= i < |st.trace| && st.trace[i].target == y;
        assert st'.trace[i] == st.trace[i];
      }
    }
    forall k | 0 <= k < |st'.trace| && st'.trace[k].Reloaded? && st'.trace[k].asCandidate
      ensures forall d | d in cat.deps(st'.trace[k].target.cls) ::
        d in active && (cat.reloadable(active[d].cls) ==> exists j :: 0 <= j < k && st'.trace[j].target == active[d])
    {
      forall d | d in cat.deps(st'.trace[k].target.cls)
        ensures d in active && (cat.reloadable(active[d].cls) ==> exists j :: 0 <= j < k && st'.trace[j].target == active[d])
      {
        if k < n {
          assert st'.trace[k] == st.trace[k];
          if cat.reloadable(active[d].cls) {
            var j :| 0 <= j < k && st.trace[j].target == active[d];
            assert st'.trace[j] == st.trace[j];
          }
        } else if cat.reloadable(active[d].cls) {
          var j :| 0 <= j < |st.trace| && st.trace[j].target == active[d];
          assert st'.trace[j] == st.trace[j];
        }
      }
    }
  }

  /**
   * The dependency loop keeps the pass consistent, reloads only as a
   * dependency, and on completion every dependency was active and every
   * reloadable one is reloaded.
   */
  lemma {:induction false} ReloadDependenciesGood(cat: Catalog, active: map<ClassId, Instance>, ds: seq<ClassId>, st: PassState)
    requires Good(cat, active, st)
    ensures var s := ReloadDependencies(cat, active, ds, st);
      && Good(cat, active, s.st) && Extends(st, s.st) && s.st.dropped == st.dropped
      && (s.missing.None? ==> forall d | d in ds ::
            d in active && (cat.reloadable(active[d].cls) ==> active[d] in s.st.reloaded))
      && (s.missing.Some? ==> s.missing.value in ds && s.missing.value !in active)
    decreases |ds|
  {
    if ds != [] && ds[0] in active {
      var dep := active[ds[0]];
      var next := if !cat.reloadable(dep.cls) || dep in st.reloaded then st else Reload(st, dep, false);
      if cat.reloadable(dep.cls) && dep !in st.reloaded {
        ReloadGood(cat, active, st, dep, false);
      }
      ReloadDependenciesGood(cat, active, ds[1..], next);
    }
  }

  /** The dependency loop never removes a candidate from the list. */
  lemma {:induction false} ReloadDependenciesKeepsDropped(cat: Catalog, active: map<ClassId, Instance>,
                                                          ds: seq<ClassId>, st: PassState)
    ensures ReloadDependencies(cat, active, ds, st).st.dropped == st.dropped
    decreases |ds|
  {
    if ds != [] && ds[0] in active {
      var dep := active[ds[0]];
      var next := if !cat.reloadable(dep.cls) || dep in st.reloaded then st else Reload(st, dep, false);
      ReloadDependenciesKeepsDropped(cat, active, ds[1..], next);
    }
  }

  /** One candidate turn keeps the pass consistent and handles that candidate. */
  lemma CandidateGood(cat: Catalog, active: map<ClassId, Instance>, live: Instance -> bool, x: Instance, st: PassState)
    requires Good(cat, active, st)
    ensures var s := ReloadCandidate(cat, active, live, x, st);
      && Good(cat, active, s.st) && Extends(st, s.st)
      && (s.missing.None? && live(x) && cat.reloadable(x.cls) ==> x in s.st.reloaded)
      && (forall y | y in s.st.dropped && y !in st.dropped :: y == x && (!live(x) || x in s.st.reloaded))
      && (!live(x) ==> x in s.st.dropped)
      && (s.missing.None? && live(x) && x in st.reloaded ==> x in s.st.dropped)
      && (live(x) && x !in ReloadDependenciesOf(cat, active, x, st).st.reloaded ==> s.st.dropped == st.dropped)
      && (s.missing.Some? ==> s.missing.value !in active)
  {
    if live(x) {
      var s := ReloadDependenciesOf(cat, active, x, st);
      if cat.reloadable(x.cls) {
        ReloadDependenciesGood(cat, active, cat.deps(x.cls), st);
        if s.missing.None? && x !in s.st.reloaded {
          ReloadGood(cat, active, s.st, x, true);
        }
      }
    }
  }

  /** The candidate loop, by induction on the candidates left. */
  lemma {:induction false} ReloadAllGood(cat: Catalog, active: map<ClassId, Instance>, live: Instance -> bool,
                                         cands: seq<Instance>, st: PassState)
    requires Good(cat, active, st)
    ensures var s := ReloadAll(cat, active, live, cands, st);
      && Good(cat, active, s.st) && Extends(st, s.st)
      && (s.missing.None? ==> forall x | x in cands && live(x) && cat.reloadable(x.cls) :: x in s.st.reloaded)
      && (forall y | y in s.st.dropped && y !in st.dropped :: y in cands && (!live(y) || y in s.st.reloaded))
      && (s.missing.None? ==> forall x | x in cands && !live(x) :: x in s.st.dropped)
      && (s.missing.Some? ==> s.missing.value !in active)
    decreases |cands|
  {
    if cands != [] {
      var s0 := ReloadCandidate(cat, active, live, cands[0], st);
      CandidateGood(cat, active, live, cands[0], st);
      if s0.missing.None? {
        ReloadAllGood(cat, active, live, cands[1..], s0.st);
      }
    }
  }

  /**
   * What a whole pass guarantees: each component is reloaded at most once;
   * a candidate reloaded by the candidate loop comes after its active
   * reloadable direct dependencies; a pass that completes has reloaded
   * every live reloadable candidate; a candidate is dropped from the list
   * only when its reference is cleared or it was already reloaded; and a
   * pass aborts only on an inactive dependency.
   */
  lemma ReloadPassSound(cat: Catalog, active: map<ClassId, Instance>, live: Instance -> bool, cands: seq<Instance>)
    ensures var s := ReloadAll(cat, active, live, cands, Start);
      && (forall i, j | 0 <= i < j < |s.st.trace| :: s.st.trace[i].target != s.st.trace[j].target)
      && DependenciesFirst(cat, active, s.st.trace)
      && (s.missing.None? ==> forall x | x in cands && live(x) && cat.reloadable(x.cls) ::
            exists i :: 0 <= i < |s.st.trace| && s.st.trace[i].target == x)
      && (forall y | y in s.st.dropped :: y in cands && (!live(y) || y in s.st.reloaded))
      && (s.missing.None? ==> forall x | x in cands && !live(x) :: x in s.st.dropped)
      && (s.missing.Some? ==> s.missing.value !in active)
  {
    ReloadAllGood(cat, active, live, cands, Start);
  }
}
