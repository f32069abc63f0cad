/**
 * Redundant versions in one package group (gpyutils/packages.py,
 * find_redundant): versions for which newer versions already carry every
 * keyword at the same or a higher level and every counted implementation.
 */
module Redundancy {
  import opened PackageTypes
  import opened Classification

  // ---------------------------------------------------------------------------
  // Keywords and their levels
  // ---------------------------------------------------------------------------

  predicate StartsWithTilde(kw: string)
  {
    |kw| > 0 && kw[0] == '~'
  }

  /** The name a keyword is recorded under: a leading `~` is stripped, nothing else is. */
  function Arch(kw: string): string
  {
    if StartsWithTilde(kw) then kw[1..] else kw
  }

  /** `~x` is worth 1; any other keyword, `-x` included, is worth 2. */
  function Level(kw: string): nat
  {
    if StartsWithTilde(kw) then 1 else 2
  }

  // ---------------------------------------------------------------------------
  // The declarative specification
  // ---------------------------------------------------------------------------

  /** Some newer version has a keyword for the same name at the same or a higher level. */
  ghost predicate KeywordCovered(kw: string, newer: seq<Pkg>)
  {
    exists j, kw' :: 0 <= j < |newer| && kw' in newer[j].keywords && Arch(kw') == Arch(kw) && Level(kw) <= Level(kw')
  }

  /** Every counted implementation of `p` is counted for some newer version. */
  ghost predicate ImplsCovered(p: Pkg, newer: seq<Pkg>)
  {
    forall i :: i in CountedImpls(p) ==> exists j :: 0 <= j < |newer| && i in CountedImpls(newer[j])
  }

  /**
   * `p` adds nothing to the versions `newer` than it: it has keywords (a live
   * version is never redundant), each of them is covered, and so is each of
   * its counted implementations.
   */
  ghost predicate IsRedundant(p: Pkg, newer: seq<Pkg>)
  {
    && p.keywords != {}
    && (forall kw :: kw in p.keywords ==> KeywordCovered(kw, newer))
    && ImplsCovered(p, newer)
  }

  /**
   * The indices, from `from` on, of the versions of `group` (oldest first)
   * that are redundant with respect to all later versions, newest first.
   */
  ghost function RedundantIndices(group: seq<Pkg>, from: nat): (r: seq<nat>)
    requires from <= |group|
    ensures forall k :: 0 <= k < |r| ==> from <= r[k] < |group|
    ensures forall k, l :: 0 <= k < l < |r| ==> r[k] > r[l]
    decreases |group| - from
  {
    if from == |group| then []
    else RedundantIndices(group, from + 1) + (if IsRedundant(group[from], group[from + 1..]) then [from] else [])
  }

  /** A position from `from` on is listed exactly when its version is redundant. */
  lemma {:induction false} RedundantIndicesExactly(group: seq<Pkg>, from: nat)
    requires from <= |group|
    ensures forall x :: x in RedundantIndices(group, from) <==> from <= x < |group| && IsRedundant(group[x], group[x + 1..])
    decreases |group| - from
  {
    if from < |group| {
      RedundantIndicesExactly(group, from + 1);
    }
  }

  /** The versions of `group` at the positions listed in `idx`. */
  ghost function Select(group: seq<Pkg>, idx: seq<nat>): seq<Pkg>
    requires forall k :: 0 <= k < |idx| ==> idx[k] < |group|
  {
    seq(|idx|, k requires 0 <= k < |idx| => group[idx[k]])
  }

  /** What find_redundant yields for `group`, in the order it yields it. */
  ghost function RedundantVersions(group: seq<Pkg>): seq<Pkg>
  {
    Select(group, RedundantIndices(group, 0))
  }

  // ---------------------------------------------------------------------------
  // The accumulators of the scan, as functions of the versions already seen
  // ---------------------------------------------------------------------------

  function Max(a: nat, b: nat): nat
  {
    if a < b then b else a
  }

  /** `max_keywords.get(name, 0)`. */
  function Get(m: map<string, nat>, name: string): nat
  {
    if name in m then m[name] else 0
  }

  /** The highest level a set of keywords gives `name`: 2 for a bare `name`, 1 for `~name`, else 0. */
  ghost function KeywordsLevel(kws: set<string>, name: string): nat
  {
    if name in kws && !StartsWithTilde(name) then 2
    else if "~" + name in kws then 1
    else 0
  }

  /** The highest level any of `pkgs` gives `name`. */
  ghost function MaxLevel(pkgs: seq<Pkg>, name: string): (r: nat)
    ensures r <= 2
  {
    if pkgs == [] then 0 else Max(KeywordsLevel(pkgs[0].keywords, name), MaxLevel(pkgs[1..], name))
  }

  /** The counted implementations of all of `pkgs`. */
  ghost function UnionImpls(pkgs: seq<Pkg>): set<Impl>
  {
    if pkgs == [] then {} else CountedImpls(pkgs[0]) + UnionImpls(pkgs[1..])
  }

  // ---------------------------------------------------------------------------
  // Linking the accumulators to the specification
  // ---------------------------------------------------------------------------

  lemma TildeArch(name: string)
    ensures StartsWithTilde("~" + name) && Arch("~" + name) == name
  {
    assert ("~" + name)[1..] == name;
  }

  /** `KeywordsLevel` is the highest level of a keyword in the set recorded under the name. */
  lemma KeywordsLevelIsMax(kws: set<string>, name: string)
    ensures forall kw :: kw in kws && Arch(kw) == name ==> Level(kw) <= KeywordsLevel(kws, name)
    ensures KeywordsLevel(kws, name) > 0 ==>
      exists kw :: kw in kws && Arch(kw) == name && Level(kw) == KeywordsLevel(kws, name)
  {
    TildeArch(name);
    forall kw | kw in kws && Arch(kw) == name
      ensures Level(kw) <= KeywordsLevel(kws, name)
    {
      if StartsWithTilde(kw) {
        assert kw == "~" + name;
      }
    }
  }

  /** Recording one more keyword raises the level of its own name only. */
  lemma KeywordsLevelInsert(kws: set<string>, kw: string, name: string)
    ensures KeywordsLevel(kws + {kw}, name) ==
      if name == Arch(kw) then Max(KeywordsLevel(kws, name), Level(kw)) else KeywordsLevel(kws, name)
  {
    TildeArch(name);
    if "~" + name == kw {
      assert name == Arch(kw);
    }
    if StartsWithTilde(kw) {
      assert kw == "~" + kw[1..];
      assert name == kw ==> StartsWithTilde(name);
    }
  }

  lemma {:induction false} MaxLevelAtLeast(pkgs: seq<Pkg>, j: nat, name: string)
    requires j < |pkgs|
    ensures KeywordsLevel(pkgs[j].keywords, name) <= MaxLevel(pkgs, name)
  {
    if j > 0 {
      MaxLevelAtLeast(pkgs[1..], j - 1, name);
    }
  }

  lemma {:induction false} MaxLevelAttained(pkgs: seq<Pkg>, name: string)
    requires MaxLevel(pkgs, name) > 0
    ensures exists j :: 0 <= j < |pkgs| && KeywordsLevel(pkgs[j].keywords, name) == MaxLevel(pkgs, name)
  {
    if KeywordsLevel(pkgs[0].keywords, name) != MaxLevel(pkgs, name) {
      MaxLevelAttained(pkgs[1..], name);
      var j :| 0 <= j < |pkgs[1..]| && KeywordsLevel(pkgs[1..][j].keywords, name) == MaxLevel(pkgs[1..], name);
      assert pkgs[j + 1] == pkgs[1..][j];
    }
  }

  /** A keyword is covered exactly when its level is at most the highest newer level for its name. */
  lemma CoveredIffMaxLevel(kw: string, newer: seq<Pkg>)
    ensures KeywordCovered(kw, newer) <==> Level(kw) <= MaxLevel(newer, Arch(kw))
  {
    var name := Arch(kw);
    if KeywordCovered(kw, newer) {
      var j, kw' :| 0 <= j < |newer| && kw' in newer[j].keywords && Arch(kw') == name && Level(kw) <= Level(kw');
      KeywordsLevelIsMax(newer[j].keywords, name);
      MaxLevelAtLeast(newer, j, name);
    }
    if Level(kw) <= MaxLevel(newer, name) {
      MaxLevelAttained(newer, name);
      var j :| 0 <= j < |newer| && KeywordsLevel(newer[j].keywords, name) == MaxLevel(newer, name);
      KeywordsLevelIsMax(newer[j].keywords, name);
      var kw' :| kw' in newer[j].keywords && Arch(kw') == name && Level(kw') == KeywordsLevel(newer[j].keywords, name);
      assert KeywordCovered(kw, newer);
    }
  }

  /** An implementation is in the union exactly when some version counts it. */
  lemma {:induction false} InUnionImpls(pkgs: seq<Pkg>, i: Impl)
    ensures i in UnionImpls(pkgs) <==> exists j :: 0 <= j < |pkgs| && i in CountedImpls(pkgs[j])
  {
    if pkgs != [] {
      InUnionImpls(pkgs[1..], i);
      if i in UnionImpls(pkgs[1..]) {
        var j :| 0 <= j < |pkgs[1..]| && i in CountedImpls(pkgs[1..][j]);
        assert pkgs[j + 1] == pkgs[1..][j];
      }
      if exists j :: 0 <= j < |pkgs| && i in CountedImpls(pkgs[j]) {
        var j :| 0 <= j < |pkgs| && i in CountedImpls(pkgs[j]);
        if j > 0 {
          assert pkgs[1..][j - 1] == pkgs[j];
        }
      }
    }
  }

  /** The source's test: a version's keywords and implementations against the accumulators. */
  lemma RedundantIffAccumulators(p: Pkg, newer: seq<Pkg>)
    ensures IsRedundant(p, newer) <==>
      && p.keywords != {}
      && (forall kw :: kw in p.keywords ==> Level(kw) <= MaxLevel(newer, Arch(kw)))
      && CountedImpls(p) <= UnionImpls(newer)
  {
    forall kw | kw in p.keywords
      ensures KeywordCovered(kw, newer) <==> Level(kw) <= MaxLevel(newer, Arch(kw))
    {
      CoveredIffMaxLevel(kw, newer);
    }
    forall i | i in CountedImpls(p)
      ensures i in UnionImpls(newer) <==> exists j :: 0 <= j < |newer| && i in CountedImpls(newer[j])
    {
      InUnionImpls(newer, i);
    }
  }

  // ---------------------------------------------------------------------------
  // Properties of the specification
  // ---------------------------------------------------------------------------

  /**
   * The versions yielded are exactly the redundant ones, newest first: the
   * k-th yielded version is the redundant version at the k-th position listed
   * by `RedundantIndices`, and each redundant version is yielded.
   */
  lemma RedundantVersionsExactly(group: seq<Pkg>)
    ensures |RedundantVersions(group)| == |RedundantIndices(group, 0)|
    ensures forall k :: 0 <= k < |RedundantVersions(group)| ==>
      var x := RedundantIndices(group, 0)[k];
      RedundantVersions(group)[k] == group[x] && IsRedundant(group[x], group[x + 1..])
    ensures forall x :: 0 <= x < |group| && IsRedundant(group[x], group[x + 1..]) ==> group[x] in RedundantVersions(group)
  {
    var idx := RedundantIndices(group, 0);
    var out := RedundantVersions(group);
    RedundantIndicesExactly(group, 0);
    assert |out| == |idx|;
    forall k | 0 <= k < |idx|
      ensures out[k] == group[idx[k]] && IsRedundant(group[idx[k]], group[idx[k] + 1..])
    {
      assert idx[k] in idx;
    }
    forall x | 0 <= x < |group| && IsRedundant(group[x], group[x + 1..])
      ensures group[x] in RedundantVersions(group)
    {
      assert x in idx;
      var k :| 0 <= k < |idx| && idx[k] == x;
      assert RedundantVersions(group)[k] == group[x];
    }
  }

  /**
   * A live version is never yielded, and neither is the newest version of a
   * group: each of its keywords beats the empty accumulator.
   */
  lemma NeverYielded(group: seq<Pkg>)
    ensures forall p :: p in RedundantVersions(group) ==> p.keywords != {}
    ensures group != [] ==> |group| - 1 !in RedundantIndices(group, 0)
  {
    RedundantIndicesExactly(group, 0);
    RedundantVersionsExactly(group);
    if group != [] && group[|group| - 1].keywords != {} {
      var kw :| kw in group[|group| - 1].keywords;
      assert !KeywordCovered(kw, group[|group|..]);
    }
  }

  /**
   * Scanning one more (older) version never lowers a recorded level, never
   * drops a name, and never shrinks the set of implementations; levels stay
   * at most 2.
   */
  lemma {:induction false} AccumulatorsGrow(group: seq<Pkg>, i: nat, j: nat)
    requires i <= j <= |group|
    ensures forall name :: MaxLevel(group[j..], name) <= MaxLevel(group[i..], name) <= 2
    ensures UnionImpls(group[j..]) <= UnionImpls(group[i..])
    decreases j - i
  {
    if i < j {
      AccumulatorsGrow(group, i + 1, j);
      assert group[i..][1..] == group[i + 1..];
    }
  }

  /**
   * A version with keywords is redundant when one newer version has a
   * superset of its keywords and of its counted implementations.
   */
  lemma SupersetNewerIsRedundant(p: Pkg, newer: seq<Pkg>, j: nat)
    requires j < |newer|
    requires p.keywords != {} && p.keywords <= newer[j].keywords
    requires CountedImpls(p) <= CountedImpls(newer[j])
    ensures IsRedundant(p, newer)
  {
    forall kw | kw in p.keywords
      ensures KeywordCovered(kw, newer)
    {
      assert kw in newer[j].keywords && Arch(kw) == Arch(kw) && Level(kw) <= Level(kw);
    }
    forall i | i in CountedImpls(p)
      ensures exists j' :: 0 <= j' < |newer| && i in CountedImpls(newer[j'])
    {
      assert i in CountedImpls(newer[j]);
    }
  }

  /**
   * So find_redundant yields every version with keywords that a single newer
   * version supersedes in keywords and implementations.
   */
  lemma SupersetNewerIsYielded(group: seq<Pkg>, x: nat, y: nat)
    requires x < y < |group|
    requires group[x].keywords != {} && group[x].keywords <= group[y].keywords
    requires CountedImpls(group[x]) <= CountedImpls(group[y])
    ensures x in RedundantIndices(group, 0)
    ensures group[x] in RedundantVersions(group)
  {
    assert group[x + 1..][y - x - 1] == group[y];
    SupersetNewerIsRedundant(group[x], group[x + 1..], y - x - 1);
    RedundantIndicesExactly(group, 0);
    RedundantVersionsExactly(group);
  }

  /**
   * A stable version is redundant only if some newer version of its group is
   * stable too: its bare keyword can only be matched by the same bare keyword.
   */
  lemma RedundantStableHasStableNewer(group: seq<Pkg>, x: nat)
    requires forall j, kw :: 0 <= j < |group| && kw in group[j].keywords ==> kw != ""
    requires x < |group| && IsRedundant(group[x], group[x + 1..])
    requires GetPackageClass(group[x]) == Stable
    ensures exists y :: x < y < |group| && GetPackageClass(group[y]) == Stable
  {
    var newer := group[x + 1..];
    var kw :| kw in group[x].keywords && kw[0] != '~' && kw[0] != '-';
    assert KeywordCovered(kw, newer);
    var j, kw' :| 0 <= j < |newer| && kw' in newer[j].keywords && Arch(kw') == Arch(kw) && Level(kw) <= Level(kw');
    assert kw' == kw;
    assert group[x + 1 + j] == newer[j];
  }

  // ---------------------------------------------------------------------------
  // Worked examples
  // ---------------------------------------------------------------------------

  /** [~x, then x]: the newer stable version covers the older testing one. */
  lemma ExampleTestingThenStable()
    ensures var v1, v2 := Pkg({"~x"}, "p", None), Pkg({"x"}, "p", None);
      RedundantVersions([v1, v2]) == [v1]
  {
    var v1, v2 := Pkg({"~x"}, "p", None), Pkg({"x"}, "p", None);
    var g := [v1, v2];
    assert g[1..] == [v2] && g[2..] == [];
    TildeArch("x");
    assert "~" + "x" == "~x";
    assert KeywordCovered("~x", [v2]) by {
      assert "x" in [v2][0].keywords && Arch("x") == Arch("~x");
    }
    assert CountedImpls(v1) == {};
    assert IsRedundant(v1, [v2]);
    assert !IsRedundant(v2, []) by {
      assert !KeywordCovered("x", []);
    }
    assert RedundantIndices(g, 2) == [];
    assert RedundantIndices(g, 1) == [];
    assert RedundantIndices(g, 0) == [0];
  }

  /** [x, then ~x]: the older version is stable where the newer is only testing. */
  lemma ExampleStableThenTesting()
    ensures var v1, v2 := Pkg({"x"}, "p", None), Pkg({"~x"}, "p", None);
      RedundantVersions([v1, v2]) == []
  {
    var v1, v2 := Pkg({"x"}, "p", None), Pkg({"~x"}, "p", None);
    var g := [v1, v2];
    assert g[1..] == [v2] && g[2..] == [];
    TildeArch("x");
    assert "x" !in v2.keywords && "~" + "x" == "~x";
    assert [v2][1..] == [];
    assert MaxLevel([v2], "x") == 1;
    RedundantIffAccumulators(v1, [v2]);
    RedundantIffAccumulators(v2, []);
    assert RedundantIndices(g, 2) == [];
    assert RedundantIndices(g, 1) == [];
  }

  /** [live, then x]: a live version is kept whatever newer versions carry. */
  lemma ExampleLiveThenStable()
    ensures var v1, v2 := Pkg({}, "p", None), Pkg({"x"}, "p", None);
      RedundantVersions([v1, v2]) == []
  {
    var v1, v2 := Pkg({}, "p", None), Pkg({"x"}, "p", None);
    var g := [v1, v2];
    assert g[1..] == [v2] && g[2..] == [];
    RedundantIffAccumulators(v2, []);
    assert RedundantIndices(g, 2) == [];
    assert RedundantIndices(g, 1) == [];
  }

  /** A `-x` keyword is recorded under `-x` at level 2, not skipped: it needs a newer `-x`. */
  lemma ExampleMaskedKeywordCounts()
    ensures var v1, v2 := Pkg({"-x"}, "p", None), Pkg({"x"}, "p", None);
      RedundantVersions([v1, v2]) == []
  {
    var v1, v2 := Pkg({"-x"}, "p", None), Pkg({"x"}, "p", None);
    var g := [v1, v2];
    assert g[1..] == [v2] && g[2..] == [];
    assert "-x" !in v2.keywords && "~-x" !in v2.keywords;
    assert MaxLevel([v2], "-x") == 0;
    RedundantIffAccumulators(v1, [v2]);
    RedundantIffAccumulators(v2, []);
    assert RedundantIndices(g, 2) == [];
    assert RedundantIndices(g, 1) == [];
  }

  // ---------------------------------------------------------------------------
  // The scan
  // ---------------------------------------------------------------------------

  /** Moving the scan one version back: how the accumulators grow. */
  lemma ScanStep(group: seq<Pkg>, i: nat)
    requires i < |group|
    ensures forall name :: MaxLevel(group[i..], name) == Max(KeywordsLevel(group[i].keywords, name), MaxLevel(group[i + 1..], name))
    ensures UnionImpls(group[i..]) == CountedImpls(group[i]) + UnionImpls(group[i + 1..])
  {
    assert group[i..][1..] == group[i + 1..];
  }

  /** Moving the scan one version back: the output grows by that version when it is redundant. */
  lemma OutputStep(group: seq<Pkg>, i: nat)
    requires i < |group|
    ensures Select(group, RedundantIndices(group, i)) ==
      Select(group, RedundantIndices(group, i + 1)) + if IsRedundant(group[i], group[i + 1..]) then [group[i]] else []
  {
    var rest := RedundantIndices(group, i + 1);
    if IsRedundant(group[i], group[i + 1..]) {
      assert RedundantIndices(group, i) == rest + [i];
      assert Select(group, rest + [i]) == Select(group, rest) + [group[i]];
    } else {
      assert RedundantIndices(group, i) == rest;
    }
  }

  /**
   * The inner loop of the scan: records each keyword of one version in
   * `maxKeywords`, raising the level of its name when it beats it, and tells
   * whether any keyword did.
   */
  method RecordKeywords(maxKeywords: map<string, nat>, keywords: set<string>)
    returns (updated: map<string, nat>, raised: bool)
    requires forall name :: name in maxKeywords ==> maxKeywords[name] == 1 || maxKeywords[name] == 2
    ensures forall name :: Get(updated, name) == Max(Get(maxKeywords, name), KeywordsLevel(keywords, name))
    ensures forall name :: name in updated ==> updated[name] == 1 || updated[name] == 2
    ensures raised <==> exists kw :: kw in keywords && Get(maxKeywords, Arch(kw)) < Level(kw)
  {
    updated, raised := maxKeywords, false;
    var todo := keywords;
    while todo != {}
      invariant todo <= keywords
      invariant forall name :: Get(updated, name) == Max(Get(maxKeywords, name), KeywordsLevel(keywords - todo, name))
      invariant forall name :: name in updated ==> updated[name] == 1 || updated[name] == 2
      invariant raised <==> exists kw :: kw in keywords - todo && Get(maxKeywords, Arch(kw)) < Level(kw)
      decreases todo
    {
      var kw :| kw in todo;
      ghost var done := keywords - todo;
      assert keywords - (todo - {kw}) == done + {kw};
      forall name
        ensures KeywordsLevel(done + {kw}, name) ==
          if name == Arch(kw) then Max(KeywordsLevel(done, name), Level(kw)) else KeywordsLevel(done, name)
      {
        KeywordsLevelInsert(done, kw, name);
      }
      var name, v := Arch(kw), Level(kw);
      if !raised {
        KeywordsLevelIsMax(done, name);
      }
      if Get(updated, name) < v {
        updated := updated[name := v];
        raised := true;
      }
      todo := todo - {kw};
    }
    assert keywords - todo == keywords;
  }

  /**
   * Walks `group` (oldest first) from the newest version back, keeping the
   * highest level seen per keyword name and the union of counted
   * implementations, and yields each version that raises neither.
   */
  method FindRedundant(group: seq<Pkg>) returns (redundant: seq<Pkg>)
    ensures redundant == RedundantVersions(group)
  {
    var maxKeywords: map<string, nat> := map[];
    var maxImpls: set<Impl> := {};
    redundant := [];
    var i := |group|;
    while i > 0
      invariant 0 <= i <= |group|
      invariant forall name :: Get(maxKeywords, name) == MaxLevel(group[i..], name)
      invariant forall name :: name in maxKeywords ==> maxKeywords[name] == 1 || maxKeywords[name] == 2
      invariant maxImpls == UnionImpls(group[i..])
      invariant redundant == Select(group, RedundantIndices(group, i))
    {
      i := i - 1;
      var p := group[i];
      ghost var newer := group[i + 1..];
      ScanStep(group, i);
      OutputStep(group, i);
      var isRedundant := true;
      // live versions are never redundant
      if p.keywords == {} {
        isRedundant := false;
      }
      // first, non-redundancy via keywords
      var raised;
      maxKeywords, raised := RecordKeywords(maxKeywords, p.keywords);
      if raised {
        isRedundant := false;
      }
      // then, non-redundancy via implementations
      var impls := CountedImpls(p);
      if !(impls <= maxImpls) {
        isRedundant := false;
        maxImpls := maxImpls + impls;
      }
      RedundantIffAccumulators(p, newer);
      if isRedundant {
        redundant := redundant + [p];
      }
    }
  }
}
