/**
 * The reverse dependency table (`resolvedDependents`): for a dependency
 * class, the classes that declared it, in the order they were first
 * recorded. Class references in it are weak in the source; classes are not
 * collected here, so every reference in the table is live.
 */
module DependentTable {
  import opened Types
  import opened Sequences

  type Table = map<ClassId, seq<ClassId>>

  /** The recorded dependents of `k`; a missing key reads as no dependents. */
  function Dependents(t: Table, k: ClassId): seq<ClassId>
  {
    if k in t then t[k] else []
  }

  /**
   * The shape the table keeps: no key holds an empty list, and no list
   * names a dependent twice.
   */
  ghost predicate WellFormed(t: Table)
  {
    forall k | k in t :: t[k] != [] && NoDup(t[k])
  }

  /**
   * `registerDependent`: create the list of `dependency` if absent, then
   * append `dependent` unless it is already in it.
   */
  function WithDependent(t: Table, dependency: ClassId, dependent: ClassId): Table
  {
    var refs := Dependents(t, dependency);
    t[dependency := if dependent in refs then refs else refs + [dependent]]
  }

  /**
   * `unregisterDependent`: if `dependency` has a list, drop every reference
   * to `dependent` from it, and drop the key once the list is empty.
   */
  function WithoutDependent(t: Table, dependency: ClassId, dependent: ClassId): Table
  {
    if dependency !in t then t
    else
      var refs := Without(t[dependency], {dependent});
      if refs == [] then t - {dependency} else t[dependency := refs]
  }

  /** `t'` holds every list of `t`, possibly with more dependents appended. */
  ghost predicate Grows(t: Table, t': Table)
  {
    forall k | k in t :: k in t' && t[k] <= t'[k]
  }

  /** Adding an edge adds exactly that edge. */
  lemma WithDependentEdges(t: Table, dependency: ClassId, dependent: ClassId)
    ensures forall k, d ::
      d in Dependents(WithDependent(t, dependency, dependent), k) <==>
      d in Dependents(t, k) || (k == dependency && d == dependent)
  {
  }

  /** Every edge of `t'` is an edge of `t`. */
  ghost predicate Shrinks(t: Table, t': Table)
  {
    forall k, d | d in Dependents(t', k) :: d in Dependents(t, k)
  }

  /** Adding an edge keeps every list as a prefix and records the edge. */
  lemma WithDependentGrows(t: Table, dependency: ClassId, dependent: ClassId)
    ensures Grows(t, WithDependent(t, dependency, dependent))
    ensures dependent in Dependents(WithDependent(t, dependency, dependent), dependency)
  {
  }

  /** Recording the same edge twice is recording it once. */
  lemma WithDependentIdempotent(t: Table, dependency: ClassId, dependent: ClassId)
    ensures WithDependent(WithDependent(t, dependency, dependent), dependency, dependent)
         == WithDependent(t, dependency, dependent)
  {
  }

  /** Adding an edge never creates a duplicate reference or an empty list. */
  lemma WithDependentWellFormed(t: Table, dependency: ClassId, dependent: ClassId)
    requires WellFormed(t)
    ensures WellFormed(WithDependent(t, dependency, dependent))
  {
    var refs := Dependents(t, dependency);
    if dependent !in refs {
      assert NoDup(refs + [dependent]) by {
        forall i, j | 0 <= i < j < |refs + [dependent]|
          ensures (refs + [dependent])[i] != (refs + [dependent])[j]
        {
          if j == |refs| {
            assert (refs + [dependent])[i] == refs[i];
          }
        }
      }
    }
  }

  /** Removing an edge removes exactly that edge and leaves every other edge. */
  lemma WithoutDependentEdges(t: Table, dependency: ClassId, dependent: ClassId)
    ensures forall k, d ::
      d in Dependents(WithoutDependent(t, dependency, dependent), k) <==>
      d in Dependents(t, k) && !(k == dependency && d == dependent)
  {
    if dependency in t {
      WithoutMembers(t[dependency], {dependent});
    }
  }

  /**
   * Removing an edge keeps the table well formed; in particular the key of
   * `dependency` survives only while some other dependent is left.
   */
  lemma WithoutDependentWellFormed(t: Table, dependency: ClassId, dependent: ClassId)
    requires WellFormed(t)
    ensures WellFormed(WithoutDependent(t, dependency, dependent))
    ensures dependency in WithoutDependent(t, dependency, dependent) <==>
            exists d :: d in Dependents(t, dependency) && d != dependent
  {
    if dependency in t {
      WithoutNoDup(t[dependency], {dependent});
      WithoutMembers(t[dependency], {dependent});
      var refs := Without(t[dependency], {dependent});
      if refs != [] {
        assert refs[0] in t[dependency] && refs[0] != dependent;
      }
    }
  }

  /** Removing an edge that was just added restores the table. */
  lemma WithoutUndoesWith(t: Table, dependency: ClassId, dependent: ClassId)
    requires WellFormed(t)
    requires dependent !in Dependents(t, dependency)
    ensures WithoutDependent(WithDependent(t, dependency, dependent), dependency, dependent) == t
  {
    var refs := Dependents(t, dependency);
    WithoutAppend(refs, [dependent], {dependent});
    WithoutNothing(refs, {dependent});
    assert Without([dependent], {dependent}) == [];
    assert Without(refs + [dependent], {dependent}) == refs;
    var added := WithDependent(t, dependency, dependent);
    assert added[dependency] == refs + [dependent];
    if refs == [] {
      assert dependency !in t;
      assert added - {dependency} == t;
    } else {
      assert added[dependency := refs] == t;
    }
  }
}
