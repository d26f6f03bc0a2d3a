/**
 * The graph the `DependsOn` annotations declare: chains of declared
 * dependencies, reachability, dependency cycles, and the order in which an
 * initialisation makes classes active. An initialisation activates a class
 * only once its dependencies are active, so no class on a dependency cycle
 * of inactive classes can ever become active.
 */
module DependencyGraph {
  import opened Types

  /** `p` is a chain of declared dependencies: each class declares the next one. */
  ghost predicate Chain(cat: Catalog, p: seq<ClassId>)
  {
    && |p| >= 1
    && forall i | 0 <= i < |p| - 1 :: p[i + 1] in cat.deps(p[i])
  }

  /** `d` is `c` itself or a direct or indirect dependency of `c`. */
  ghost predicate Reaches(cat: Catalog, c: ClassId, d: ClassId)
  {
    exists p :: Chain(cat, p) && p[0] == c && p[|p| - 1] == d
  }

  /** `d` is a direct or indirect dependency of `c`: a chain of at least one step leads there. */
  ghost predicate ReachesPlus(cat: Catalog, c: ClassId, d: ClassId)
  {
    exists p :: Chain(cat, p) && |p| >= 2 && p[0] == c && p[|p| - 1] == d
  }

  lemma ReachesSelf(cat: Catalog, c: ClassId)
    ensures Reaches(cat, c, c)
  {
    assert Chain(cat, [c]);
  }

  lemma ReachesPlusReaches(cat: Catalog, c: ClassId, d: ClassId)
    requires ReachesPlus(cat, c, d)
    ensures Reaches(cat, c, d)
  {
    var p :| Chain(cat, p) && |p| >= 2 && p[0] == c && p[|p| - 1] == d;
  }

  /** Whatever a dependency of `c` reaches, `c` reaches in at least one step. */
  lemma ReachesThrough(cat: Catalog, c: ClassId, e: ClassId, d: ClassId)
    requires e in cat.deps(c) && Reaches(cat, e, d)
    ensures ReachesPlus(cat, c, d) && Reaches(cat, c, d)
  {
    var p :| Chain(cat, p) && p[0] == e && p[|p| - 1] == d;
    var q := [c] + p;
    forall i | 0 <= i < |q| - 1
      ensures q[i + 1] in cat.deps(q[i])
    {
      if i > 0 {
        assert q[i + 1] == p[i] && q[i] == p[i - 1];
      }
    }
    assert Chain(cat, q) && q[0] == c && q[|q| - 1] == d;
  }

  /** `cyc` is a dependency cycle: a chain of at least one step that ends where it starts. */
  ghost predicate Cycle(cat: Catalog, cyc: seq<ClassId>)
  {
    Chain(cat, cyc) && |cyc| >= 2 && cyc[0] == cyc[|cyc| - 1]
  }

  /** The chain `p` leads from its first class into the dependency cycle `cyc`. */
  ghost predicate LeadsTo(cat: Catalog, p: seq<ClassId>, cyc: seq<ClassId>)
  {
    Chain(cat, p) && Cycle(cat, cyc) && p[|p| - 1] == cyc[0]
  }

  /** No class of `p` is in `s`. */
  ghost predicate Avoids(p: seq<ClassId>, s: set<ClassId>)
  {
    forall k | 0 <= k < |p| :: p[k] !in s
  }

  /**
   * `newly` lists the classes an initialisation made active, in the order it
   * made them active, starting from the active classes `before`: none was
   * active before, and the declared dependencies of each one were active
   * when it became active.
   */
  ghost predicate ActivatedInOrder(cat: Catalog, before: set<ClassId>, newly: seq<ClassId>)
  {
    forall i | 0 <= i < |newly| ::
      && newly[i] !in before
      && forall d | d in cat.deps(newly[i]) :: d in before || d in newly[..i]
  }

  /** Every class active in `after` was active in `before` or is listed in `newly`. */
  ghost predicate AddedOnly(before: set<ClassId>, after: set<ClassId>, newly: seq<ClassId>)
  {
    forall k | k in after :: k in before || k in newly
  }

  /**
   * Two initialisations one after the other, the second starting from the
   * active classes `mid` the first left, activate in order.
   */
  lemma ActivatedAppend(cat: Catalog, before: set<ClassId>, mid: set<ClassId>, after: set<ClassId>,
                        a: seq<ClassId>, b: seq<ClassId>)
    requires ActivatedInOrder(cat, before, a) && before <= mid && AddedOnly(before, mid, a)
    requires ActivatedInOrder(cat, mid, b) && AddedOnly(mid, after, b)
    ensures ActivatedInOrder(cat, before, a + b) && AddedOnly(before, after, a + b)
  {
    forall i | 0 <= i < |a + b|
      ensures (a + b)[i] !in before
      ensures forall d | d in cat.deps((a + b)[i]) :: d in before || d in (a + b)[..i]
    {
      if i < |a| {
        assert (a + b)[i] == a[i] && (a + b)[..i] == a[..i];
      } else {
        var j := i - |a|;
        assert (a + b)[i] == b[j] && (a + b)[..i] == a + b[..j];
      }
    }
  }

  /** Activating one class whose dependencies are all active is in order. */
  lemma ActivatedSingle(cat: Catalog, before: set<ClassId>, after: set<ClassId>, c: ClassId)
    requires c !in before && (forall d | d in cat.deps(c) :: d in before) && after <= before + {c}
    ensures ActivatedInOrder(cat, before, [c]) && AddedOnly(before, after, [c])
  {
  }

  /** No class on a cycle of classes inactive before is among the first `m` activated. */
  lemma {:induction false} CycleNotActivated(cat: Catalog, before: set<ClassId>, newly: seq<ClassId>,
                                             cyc: seq<ClassId>, i: nat, m: nat)
    requires ActivatedInOrder(cat, before, newly) && m <= |newly|
    requires Cycle(cat, cyc) && Avoids(cyc, before) && i < |cyc|
    ensures cyc[i] !in newly[..m]
    decreases m
  {
    if cyc[i] in newly[..m] {
      var j :| 0 <= j < m && newly[..m][j] == cyc[i];
      var next := if i + 1 < |cyc| then i + 1 else 1;
      assert cyc[next] in cat.deps(newly[j]);
      assert cyc[next] in newly[..j];
      CycleNotActivated(cat, before, newly, cyc, next, j);
      assert false;
    }
  }

  /** No class on a chain into such a cycle, from position `k` on, is activated. */
  lemma {:induction false} ChainNotActivated(cat: Catalog, before: set<ClassId>, newly: seq<ClassId>,
                                             p: seq<ClassId>, cyc: seq<ClassId>, k: nat)
    requires ActivatedInOrder(cat, before, newly)
    requires LeadsTo(cat, p, cyc) && Avoids(p, before) && Avoids(cyc, before) && k < |p|
    ensures p[k] !in newly
    decreases |p| - k
  {
    if k == |p| - 1 {
      CycleNotActivated(cat, before, newly, cyc, 0, |newly|);
      assert newly[..|newly|] == newly;
    } else {
      ChainNotActivated(cat, before, newly, p, cyc, k + 1);
    }
  }

  /**
   * A dependency cycle is an error: if `c` leads into a cycle, and neither
   * the chain nor the cycle holds a class active before, then an
   * initialisation activates neither `c` nor any class on the cycle.
   */
  lemma CycleStaysInactive(cat: Catalog, before: set<ClassId>, newly: seq<ClassId>, p: seq<ClassId>, cyc: seq<ClassId>)
    requires ActivatedInOrder(cat, before, newly)
    requires LeadsTo(cat, p, cyc) && Avoids(p, before) && Avoids(cyc, before)
    ensures p[0] !in newly
    ensures forall k | 0 <= k < |cyc| :: cyc[k] !in newly
  {
    ChainNotActivated(cat, before, newly, p, cyc, 0);
    forall k | 0 <= k < |cyc|
      ensures cyc[k] !in newly
    {
      CycleNotActivated(cat, before, newly, cyc, k, |newly|);
      assert newly[..|newly|] == newly;
    }
  }

  /**
   * After an initialisation of the classes `batch` that made active only
   * the classes `newly`, in order, and that succeeds only with every class
   * of `batch` active: a class of `batch` leading into a dependency cycle
   * of classes inactive before makes it fail, and no class on the cycle is
   * active afterwards.
   */
  lemma CyclesStayInactive(cat: Catalog, batch: seq<ClassId>, ok: bool,
                           before: set<ClassId>, after: set<ClassId>, newly: seq<ClassId>)
    requires ActivatedInOrder(cat, before, newly) && AddedOnly(before, after, newly)
    requires ok ==> forall c | c in batch :: c in after
    ensures forall p, cyc | LeadsTo(cat, p, cyc) && p[0] in batch && Avoids(p, before) && Avoids(cyc, before) ::
      !ok && Avoids(cyc, after)
  {
    forall p, cyc | LeadsTo(cat, p, cyc) && p[0] in batch && Avoids(p, before) && Avoids(cyc, before)
      ensures !ok && Avoids(cyc, after)
    {
      CycleStaysInactive(cat, before, newly, p, cyc);
    }
  }
}
