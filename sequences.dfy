/**
 * The list operations the registry uses on its `List` fields, written over
 * Dafny sequences: removing every element of a set, and Java's
 * `List.remove(Object)`, which removes the first equal element only.
 */
module Sequences {

  /** No element occurs twice. */
  ghost predicate NoDup<T>(s: seq<T>)
  {
    forall i, j | 0 <= i < j < |s| :: s[i] != s[j]
  }

  /** `s` with every element of `d` left out, the rest in their order. */
  function Without<T(==)>(s: seq<T>, d: set<T>): (r: seq<T>)
    ensures |r| <= |s|
  {
    if s == [] then [] else (if s[0] in d then [] else [s[0]]) + Without(s[1..], d)
  }

  /** What survives is exactly what occurs and is not left out. */
  lemma {:induction false} WithoutMembers<T>(s: seq<T>, d: set<T>)
    ensures forall x :: x in Without(s, d) <==> x in s && x !in d
  {
    if s != [] {
      WithoutMembers(s[1..], d);
      assert s == [s[0]] + s[1..];
    }
  }

  lemma {:induction false} WithoutAppend<T>(s: seq<T>, t: seq<T>, d: set<T>)
    ensures Without(s + t, d) == Without(s, d) + Without(t, d)
  {
    if s == [] {
      assert s + t == t;
    } else {
      assert (s + t)[1..] == s[1..] + t;
      WithoutAppend(s[1..], t, d);
    }
  }

  /** Filtering a prefix one element longer appends that element unless it is left out. */
  lemma WithoutSnoc<T>(s: seq<T>, i: nat, d: set<T>)
    requires i < |s|
    ensures Without(s[..i + 1], d) == Without(s[..i], d) + (if s[i] in d then [] else [s[i]])
  {
    assert s[..i + 1] == s[..i] + [s[i]];
    WithoutAppend(s[..i], [s[i]], d);
    assert [s[i]][1..] == [];
  }

  /** Deleting the element at position `|a|` of `a + [x] + b` leaves `a + b`. */
  lemma DeleteAt<T>(a: seq<T>, x: T, b: seq<T>)
    ensures (a + [x] + b)[..|a|] + (a + [x] + b)[|a| + 1..] == a + b
  {
    var c := a + [x] + b;
    assert c[..|a|] == a;
    assert c[|a| + 1..] == b;
  }

  /**
   * One step of leaving out `d` in place: with `done`, the first `i`
   * elements of `s` filtered, followed by the rest of `s`, deleting the
   * element after `done` when it is left out, or keeping it otherwise,
   * leaves the first `i + 1` elements filtered, followed by the rest.
   */
  lemma WithoutStep<T>(s: seq<T>, i: nat, done: seq<T>, d: set<T>)
    requires i < |s| && done == Without(s[..i], d)
    ensures s[i] in d ==> (Without(s[..i + 1], d) == done &&
      (done + s[i..])[..|done|] + (done + s[i..])[|done| + 1..] == done + s[i + 1..])
    ensures s[i] !in d ==> (Without(s[..i + 1], d) == done + [s[i]] &&
      done + s[i..] == done + [s[i]] + s[i + 1..])
  {
    WithoutSnoc(s, i, d);
    assert s[i..] == [s[i]] + s[i + 1..];
    DeleteAt(done, s[i], s[i + 1..]);
  }

  /** `t` is a suffix of `s`. */
  ghost predicate EndsWith<T>(s: seq<T>, t: seq<T>)
  {
    |t| <= |s| && s[|s| - |t|..] == t
  }

  /**
   * Appending `t` to a sequence that extends `pre`: what was added since
   * `pre` ends with `t`, and before `t` it is what had been added before.
   */
  lemma AppendAfter<T>(pre: seq<T>, s: seq<T>, t: seq<T>)
    requires pre <= s
    ensures EndsWith((s + t)[|pre|..], t)
    ensures (s + t)[|pre|..|s + t| - |t|] == s[|pre|..]
  {
  }

  /** Every element of `t` occurs in `s`. */
  ghost predicate AllIn<T>(t: seq<T>, s: seq<T>)
  {
    forall e | e in t :: e in s
  }

  /** What occurs in the part of `a` added after `pre` still occurs there once `a` has grown to `b`. */
  lemma AllInGrows<T>(t: seq<T>, pre: seq<T>, a: seq<T>, b: seq<T>)
    requires pre <= a <= b && AllIn(t, a[|pre|..])
    ensures AllIn(t, b[|pre|..])
  {
    assert a[|pre|..] <= b[|pre|..];
  }

  /** A tail added after `a` lies in the part added after any earlier `pre`. */
  lemma EndsWithAllIn<T>(t: seq<T>, pre: seq<T>, a: seq<T>, b: seq<T>)
    requires pre <= a <= b && EndsWith(b[|a|..], t)
    ensures AllIn(t, b[|pre|..])
  {
    forall e | e in t
      ensures e in b[|pre|..]
    {
      var k :| 0 <= k < |t| && t[k] == e;
      assert b[|pre|..][|b| - |t| - |pre| + k] == e;
    }
  }

  /** Leaving out `d` and then `e` is leaving out both at once. */
  lemma {:induction false} WithoutTwice<T>(s: seq<T>, d: set<T>, e: set<T>)
    ensures Without(Without(s, d), e) == Without(s, d + e)
  {
    if s != [] {
      var head := if s[0] in d then [] else [s[0]];
      WithoutAppend(head, Without(s[1..], d), e);
      WithoutTwice(s[1..], d, e);
    }
  }

  /** Leaving out elements that do not occur changes nothing. */
  lemma {:induction false} WithoutNothing<T>(s: seq<T>, d: set<T>)
    requires forall x | x in s :: x !in d
    ensures Without(s, d) == s
  {
    if s != [] {
      WithoutNothing(s[1..], d);
    }
  }

  /** A sequence without duplicates keeps that property when elements are left out. */
  lemma {:induction false} WithoutNoDup<T>(s: seq<T>, d: set<T>)
    requires NoDup(s)
    ensures NoDup(Without(s, d))
  {
    if s != [] {
      WithoutNoDup(s[1..], d);
      WithoutMembers(s[1..], d);
      forall k | 0 <= k < |s[1..]| ensures s[1..][k] != s[0] {
        assert s[1..][k] == s[k + 1];
      }
      assert s[0] !in Without(s[1..], d);
    }
  }

  /** Java's `List.remove(Object)`: drops the first element equal to `x`, if any. */
  function RemoveFirst<T(==)>(s: seq<T>, x: T): (r: seq<T>)
    ensures |r| == if x in s then |s| - 1 else |s|
    ensures x !in s ==> r == s
    ensures forall y | y in r :: y in s
  {
    if s == [] then []
    else if s[0] == x then s[1..]
    else [s[0]] + RemoveFirst(s[1..], x)
  }

  /** Exactly one occurrence of `x` goes, when there is one. */
  lemma {:induction false} RemoveFirstMultiset<T>(s: seq<T>, x: T)
    ensures multiset(RemoveFirst(s, x)) == multiset(s) - multiset{x}
  {
    if s != [] {
      assert s == [s[0]] + s[1..];
      if s[0] != x {
        RemoveFirstMultiset(s[1..], x);
      }
    }
  }

  /** On a list without duplicates, removing the first `x` removes `x` altogether. */
  lemma {:induction false} RemoveFirstNoDup<T>(s: seq<T>, x: T)
    requires NoDup(s)
    ensures NoDup(RemoveFirst(s, x))
    ensures forall y :: y in RemoveFirst(s, x) <==> y in s && y != x
  {
    if s != [] {
      var tail := s[1..];
      assert NoDup(tail) by {
        forall i, j | 0 <= i < j < |tail| ensures tail[i] != tail[j] {
          assert tail[i] == s[i + 1] && tail[j] == s[j + 1];
        }
      }
      assert s[0] !in tail by {
        forall k | 0 <= k < |tail| ensures tail[k] != s[0] {
          assert tail[k] == s[k + 1];
        }
      }
      assert s == [s[0]] + tail;
      if s[0] != x {
        RemoveFirstNoDup(tail, x);
        var rest := RemoveFirst(tail, x);
        assert RemoveFirst(s, x) == [s[0]] + rest;
        forall i, j | 0 <= i < j < |[s[0]] + rest| ensures ([s[0]] + rest)[i] != ([s[0]] + rest)[j] {
          if i == 0 {
            assert ([s[0]] + rest)[j] == rest[j - 1];
          }
        }
      }
    }
  }

  /** On a sequence without repetitions, removing the first `x` removes every `x`. */
  lemma {:induction false} WithoutIsRemoveFirst<T>(s: seq<T>, x: T)
    requires NoDup(s)
    ensures Without(s, {x}) == RemoveFirst(s, x)
  {
    if s != [] {
      if s[0] == x {
        forall y | y in s[1..]
          ensures y !in {x}
        {
          var k :| 0 <= k < |s[1..]| && s[1..][k] == y;
          assert s[k + 1] == y;
        }
        WithoutNothing(s[1..], {x});
      } else {
        assert NoDup(s[1..]) by {
          forall i, j | 0 <= i < j < |s[1..]|
            ensures s[1..][i] != s[1..][j]
          {
            assert s[1..][i] == s[i + 1] && s[1..][j] == s[j + 1];
          }
        }
        WithoutIsRemoveFirst(s[1..], x);
      }
    }
  }

  /** Removing an element keeps every remaining element within a set that held them all. */
  lemma RemoveFirstWithin<T>(s: seq<T>, x: T, within: set<T>)
    requires forall i | 0 <= i < |s| :: s[i] in within
    ensures forall i | 0 <= i < |RemoveFirst(s, x)| :: RemoveFirst(s, x)[i] in within
  {
    var r := RemoveFirst(s, x);
    forall i | 0 <= i < |r| ensures r[i] in within {
      assert r[i] in s;
    }
  }
}
