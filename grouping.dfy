/** Splitting an ordered list of packages into runs (gpyutils/packages.py, group_packages). */
module Grouping {
  import opened PackageTypes

  /** The groups laid end to end. */
  function Flatten<T>(groups: seq<seq<T>>): seq<T>
  {
    if groups == [] then [] else Flatten(groups[..|groups| - 1]) + groups[|groups| - 1]
  }

  /** All members of `run` share the key of its first member. */
  ghost predicate SameKey<K>(run: seq<Pkg>, keyOf: Pkg -> K)
  {
    forall t :: 0 <= t < |run| ==> keyOf(run[t]) == keyOf(run[0])
  }

  /**
   * Every group is a run: none is empty, every member of a group has the key
   * of its first member, and neighbouring groups have different keys.
   */
  ghost predicate AreRuns<K>(groups: seq<seq<Pkg>>, keyOf: Pkg -> K)
  {
    && (forall a :: 0 <= a < |groups| ==> groups[a] != [])
    && (forall a :: 0 <= a < |groups| ==> SameKey(groups[a], keyOf))
    && (forall a :: 0 < a < |groups| ==> keyOf(groups[a - 1][0]) != keyOf(groups[a][0]))
  }

  /** `groups` cut `pkgs` into maximal runs of equal key, in order. */
  ghost predicate IsRunPartition<K>(groups: seq<seq<Pkg>>, pkgs: seq<Pkg>, keyOf: Pkg -> K)
  {
    Flatten(groups) == pkgs && AreRuns(groups, keyOf)
  }

  lemma FlattenAppend<T>(groups: seq<seq<T>>, g: seq<T>)
    ensures Flatten(groups + [g]) == Flatten(groups) + g
  {
    assert (groups + [g])[..|groups|] == groups;
  }

  /**
   * The state of the grouping loop after `i` packages: the closed groups and
   * the open run `curr` together hold `pkgs[..i]`, the closed groups are runs,
   * the open run has one key, which differs from the last closed group's,
   * and the open run is empty only before the first package.
   */
  ghost predicate Scanned<K>(pkgs: seq<Pkg>, i: nat, groups: seq<seq<Pkg>>, curr: seq<Pkg>, keyOf: Pkg -> K)
  {
    && i <= |pkgs|
    && Flatten(groups) + curr == pkgs[..i]
    && AreRuns(groups, keyOf)
    && SameKey(curr, keyOf)
    && (groups != [] && curr != [] ==> keyOf(groups[|groups| - 1][0]) != keyOf(curr[0]))
    && (i == 0 ==> groups == [] && curr == [])
    && (i > 0 ==> curr != [])
  }

  /** A package with the open run's key joins it. */
  lemma {:induction false} ExtendRun<K>(pkgs: seq<Pkg>, i: nat, groups: seq<seq<Pkg>>, curr: seq<Pkg>, keyOf: Pkg -> K)
    requires Scanned(pkgs, i, groups, curr, keyOf) && i < |pkgs|
    requires curr != [] && keyOf(pkgs[i]) == keyOf(curr[0])
    ensures Scanned(pkgs, i + 1, groups, curr + [pkgs[i]], keyOf)
  {
    assert pkgs[..i + 1] == pkgs[..i] + [pkgs[i]];
    assert (curr + [pkgs[i]])[0] == curr[0];
  }

  /** A package with another key closes the open run, if any, and opens its own. */
  lemma {:induction false} StartRun<K>(pkgs: seq<Pkg>, i: nat, groups: seq<seq<Pkg>>, curr: seq<Pkg>, keyOf: Pkg -> K)
    requires Scanned(pkgs, i, groups, curr, keyOf) && i < |pkgs|
    requires curr != [] ==> keyOf(pkgs[i]) != keyOf(curr[0])
    ensures Scanned(pkgs, i + 1, if curr == [] then groups else groups + [curr], [pkgs[i]], keyOf)
  {
    assert pkgs[..i + 1] == pkgs[..i] + [pkgs[i]];
    if curr != [] {
      FlattenAppend(groups, curr);
      assert (groups + [curr])[|groups|] == curr;
      assert (groups + [curr])[..|groups|] == groups;
    }
  }

  /** At the end the open run, if any, is closed, and the groups cut the input into runs. */
  lemma {:induction false} CloseLastRun<K>(pkgs: seq<Pkg>, groups: seq<seq<Pkg>>, curr: seq<Pkg>, keyOf: Pkg -> K)
    requires Scanned(pkgs, |pkgs|, groups, curr, keyOf)
    ensures IsRunPartition(if curr == [] then groups else groups + [curr], pkgs, keyOf)
  {
    assert pkgs[..|pkgs|] == pkgs;
    if curr != [] {
      FlattenAppend(groups, curr);
      assert (groups + [curr])[|groups|] == curr;
      assert (groups + [curr])[..|groups|] == groups;
    }
  }

  /**
   * Walks `pkgs` once, collecting consecutive packages with the same key
   * into `curr`, and closes the run whenever the key changes and at the end.
   * `keyOf` plays the part of the attribute named by `key`; the previous key
   * starts out as no key at all.
   */
  method GroupPackages<K(==)>(pkgs: seq<Pkg>, keyOf: Pkg -> K) returns (groups: seq<seq<Pkg>>)
    ensures IsRunPartition(groups, pkgs, keyOf)
  {
    var prevKey: Option<K> := None;
    var curr: seq<Pkg> := [];
    groups := [];
    for i := 0 to |pkgs|
      invariant Scanned(pkgs, i, groups, curr, keyOf)
      invariant i == 0 ==> prevKey == None
      invariant i > 0 ==> prevKey == Some(keyOf(curr[0]))
    {
      var p := pkgs[i];
      if Some(keyOf(p)) != prevKey {
        StartRun(pkgs, i, groups, curr, keyOf);
        if curr != [] {
          groups := groups + [curr];
          curr := [];
        }
        prevKey := Some(keyOf(p));
      } else {
        ExtendRun(pkgs, i, groups, curr, keyOf);
      }
      curr := curr + [p];
    }
    CloseLastRun(pkgs, groups, curr, keyOf);
    if curr != [] {
      groups := groups + [curr];
    }
  }

  /** The groups before index `n`, laid end to end, start the whole. */
  lemma {:induction false} FlattenPrefix<T>(groups: seq<seq<T>>, n: nat)
    requires n <= |groups|
    ensures |Flatten(groups[..n])| <= |Flatten(groups)|
    ensures Flatten(groups)[..|Flatten(groups[..n])|] == Flatten(groups[..n])
    decreases |groups|
  {
    if n == |groups| {
      assert groups[..n] == groups;
    } else {
      var init := groups[..|groups| - 1];
      assert init[..n] == groups[..n];
      FlattenPrefix(init, n);
    }
  }

  /** Group `a` starts at the position where the groups before it end. */
  lemma GroupStart<T>(groups: seq<seq<T>>, a: nat)
    requires a < |groups| && groups[a] != []
    ensures |Flatten(groups[..a])| < |Flatten(groups[..a + 1])| <= |Flatten(groups)|
    ensures Flatten(groups)[|Flatten(groups[..a])|] == groups[a][0]
  {
    var upto := groups[..a + 1];
    assert upto[..|upto| - 1] == groups[..a];
    FlattenPrefix(groups, a + 1);
  }

  /** Equal keys sit next to each other, as they do in a list sorted by key. */
  ghost predicate KeysContiguous<K>(pkgs: seq<Pkg>, keyOf: Pkg -> K)
  {
    forall i, j, k :: 0 <= i < j < k < |pkgs| && keyOf(pkgs[i]) == keyOf(pkgs[k]) ==> keyOf(pkgs[j]) == keyOf(pkgs[i])
  }

  /**
   * When equal keys are contiguous in the input, as in the sorted list the
   * source groups, no key appears in two groups.
   */
  lemma {:induction false} ContiguousKeysGroupOnce<K>(groups: seq<seq<Pkg>>, pkgs: seq<Pkg>, keyOf: Pkg -> K)
    requires IsRunPartition(groups, pkgs, keyOf)
    requires KeysContiguous(pkgs, keyOf)
    ensures forall a, b, x, y :: 0 <= a < b < |groups| && x in groups[a] && y in groups[b] ==> keyOf(x) != keyOf(y)
  {
    forall a, b, x, y | 0 <= a < b < |groups| && x in groups[a] && y in groups[b]
      ensures keyOf(x) != keyOf(y)
    {
      GroupStart(groups, a);
      GroupStart(groups, a + 1);
      GroupStart(groups, b);
      var sa, s1, sb := |Flatten(groups[..a])|, |Flatten(groups[..a + 1])|, |Flatten(groups[..b])|;
      if a + 1 < b {
        assert groups[..b][..a + 1] == groups[..a + 1];
        FlattenPrefix(groups[..b], a + 1);
      }
      assert s1 <= sb;
      assert pkgs[sa] == groups[a][0] && pkgs[s1] == groups[a + 1][0] && pkgs[sb] == groups[b][0];
      var t :| 0 <= t < |groups[a]| && groups[a][t] == x;
      var u :| 0 <= u < |groups[b]| && groups[b][u] == y;
      assert keyOf(x) == keyOf(pkgs[sa]);
      assert keyOf(y) == keyOf(pkgs[sb]);
    }
  }

  /** The last group of a run partition is the tail of the input of its length. */
  lemma LastGroupIsTail<K>(groups: seq<seq<Pkg>>, pkgs: seq<Pkg>, keyOf: Pkg -> K)
    requires IsRunPartition(groups, pkgs, keyOf) && groups != []
    ensures var last := groups[|groups| - 1];
      && |last| <= |pkgs|
      && last == pkgs[|pkgs| - |last|..]
      && IsRunPartition(groups[..|groups| - 1], pkgs[..|pkgs| - |last|], keyOf)
  {
  }

  /**
   * There is only one way to cut a list into maximal runs of equal key, so
   * the groups `GroupPackages` returns are determined by its contract.
   */
  lemma {:induction false} RunPartitionUnique<K>(g1: seq<seq<Pkg>>, g2: seq<seq<Pkg>>, pkgs: seq<Pkg>, keyOf: Pkg -> K)
    requires IsRunPartition(g1, pkgs, keyOf) && IsRunPartition(g2, pkgs, keyOf)
    ensures g1 == g2
    decreases |pkgs|
  {
    if g1 == [] || g2 == [] {
      if g1 != [] {
        LastGroupIsTail(g1, pkgs, keyOf);
      }
      if g2 != [] {
        LastGroupIsTail(g2, pkgs, keyOf);
      }
    } else {
      LastGroupIsTail(g1, pkgs, keyOf);
      LastGroupIsTail(g2, pkgs, keyOf);
      var l1, l2 := g1[|g1| - 1], g2[|g2| - 1];
      var n := |pkgs|;
      assert keyOf(l1[0]) == keyOf(pkgs[n - 1]) == keyOf(l2[0]) by {
        assert l1[|l1| - 1] == pkgs[n - 1] && l2[|l2| - 1] == pkgs[n - 1];
      }
      LongerLastGroup(g1, l2, pkgs, keyOf);
      LongerLastGroup(g2, l1, pkgs, keyOf);
      assert |l1| == |l2|;
      RunPartitionUnique(g1[..|g1| - 1], g2[..|g2| - 1], pkgs[..n - |l1|], keyOf);
      assert g1 == g1[..|g1| - 1] + [l1] && g2 == g2[..|g2| - 1] + [l2];
    }
  }

  /**
   * A tail of the input with one key is no longer than the last group: the
   * element before the last group belongs to a group with another key.
   */
  lemma LongerLastGroup<K>(groups: seq<seq<Pkg>>, tail: seq<Pkg>, pkgs: seq<Pkg>, keyOf: Pkg -> K)
    requires IsRunPartition(groups, pkgs, keyOf) && groups != []
    requires tail != [] && |tail| <= |pkgs| && tail == pkgs[|pkgs| - |tail|..] && SameKey(tail, keyOf)
    requires keyOf(tail[0]) == keyOf(groups[|groups| - 1][0])
    ensures |tail| <= |groups[|groups| - 1]|
  {
    LastGroupIsTail(groups, pkgs, keyOf);
    var last := groups[|groups| - 1];
    var n := |pkgs|;
    if |tail| > |last| {
      var init := groups[..|groups| - 1];
      var rest := pkgs[..n - |last|];
      assert init != [] by {
        assert rest != [];
      }
      LastGroupIsTail(init, rest, keyOf);
    }
  }
}
