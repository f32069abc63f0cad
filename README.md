# gpyutils package-version analysis, modelled in Dafny

This project models the package-version analysis of gpyutils
(`gpyutils/packages.py`), a helper used in auditing the Gentoo ebuild
repository for Python support. That file does three things:

* **Stability classes** (`PackageClass`, `get_package_class`). A version is
  `stable` (rank 3) when at least one keyword is bare, meaning its first
  character is neither `~` nor `-`. It is `testing` (rank 2) when it has
  keywords but none of them is bare. It is `non_keyworded` (rank 1) when it
  has no keywords, as a live ebuild does. Module `Classification` in
  `classification.dfy` models this as a closed datatype with a `Rank`
  function.
* **Grouping** (`group_packages`). An ordered list of versions is cut into
  maximal runs of equal key. Module `Grouping` in `grouping.dfy` models the
  generator as a method that returns every run at once. It is proved against
  the predicate `IsRunPartition`: the runs laid end to end give the input
  back, no run is empty, every run has a single key, and neighbouring runs
  have different keys.
* **Redundant versions** (`find_redundant`). The scan walks a group from the
  newest version to the oldest. It keeps the highest keyword level seen per
  name (`max_keywords`) and the union of counted implementations
  (`max_impls`). It yields every version that raises neither. Module
  `Redundancy` in `redundancy.dfy` models the scan as the method
  `FindRedundant`. The method is proved equal to `RedundantVersions`, a
  declarative specification. A version is redundant when all of these hold:
  * it has keywords;
  * every keyword is matched, in some strictly newer version, by a keyword
    recorded under the same name at the same or a higher level;
  * every counted implementation is counted for some strictly newer version.

`types.dfy` (module `PackageTypes`) holds the version record `Pkg`, the
implementation entries `Impl` and their `Status`.

Two points where the code and a plain-language reading differ; the model
follows the code:

* A `-x` keyword is not skipped by `find_redundant`. Only a leading `~` is
  stripped (`gpyutils/packages.py:68-70`). `-x` therefore takes the `else`
  branch: it is recorded under the name `-x` at level 2, and only a newer
  `-x` covers it. `Redundancy.ExampleMaskedKeywordCounts` shows this.
* `find_redundant` works on any keyword strings: `startswith('~')` is false
  for an empty string. Only `get_package_class` reads `x[0]`, so only
  `Classification.GetPackageClass` requires keywords to be non-empty.

## Model

| member | source | states |
|---|---|---|
| `Classification.GetPackageClass` | gpyutils/packages.py:26-33 | the class is `stable` iff some keyword starts with neither `~` nor `-`; `testing` iff there are keywords and all start with `~` or `-`; `non_keyworded` iff there are none; keywords must be non-empty strings |
| `Classification.ClassRankMonotone` | gpyutils/packages.py:10-33 | adding keywords to a version never lowers the rank of its class |
| `Grouping.GroupPackages` | gpyutils/packages.py:36-49 | the groups laid end to end are exactly the input; every group is non-empty; all members of a group share its key; neighbouring groups have different keys |
| `Grouping.ExtendRun` | gpyutils/packages.py:41-46 | a package whose key equals the open run's joins that run, and the loop state stays well formed |
| `Grouping.StartRun` | gpyutils/packages.py:41-46 | a package with a different key closes the open run (when it is non-empty) and opens a new run holding only itself |
| `Grouping.CloseLastRun` | gpyutils/packages.py:48-49 | closing the trailing non-empty run at the end yields a partition of the whole input into maximal runs |
| `Grouping.ContiguousKeysGroupOnce` | gpyutils/packages.py:40-46 | when equal keys are contiguous in the input, as in a sorted list, members of two different groups never share a key |
| `Grouping.RunPartitionUnique` | gpyutils/packages.py:36-49 | only one list of groups cuts the input into maximal runs, so the contract of `GroupPackages` fixes its result |
| `Grouping.LastGroupIsTail` | gpyutils/packages.py:48-49 | the last group emitted is the tail of the input of its length, and the groups before it cut the rest of the input into runs |
| `Grouping.LongerLastGroup` | gpyutils/packages.py:41-49 | a tail of the input with the last group's key is no longer than the last group |
| `Grouping.FlattenPrefix` | gpyutils/packages.py:42-46 | the groups emitted so far, laid end to end, are a prefix of the whole output laid end to end |
| `Redundancy.FindRedundant` | gpyutils/packages.py:52-86 | the scan yields exactly `RedundantVersions(group)`: the redundant versions, newest first |
| `Redundancy.ScanStep` | gpyutils/packages.py:59-83 | taking one more (older) version raises each name's level to the maximum with that version's level, and adds its counted implementations to the union |
| `Redundancy.OutputStep` | gpyutils/packages.py:85-86 | taking one more (older) version appends it to the output exactly when it is redundant with respect to all newer versions |
| `Redundancy.RecordKeywords` | gpyutils/packages.py:66-76 | after one version's keywords, `max_keywords.get(name, 0)` is the maximum of its old value and that version's level for the name; all stored values are 1 or 2; the version beat the accumulator iff some keyword's level exceeded the old value for its name |
| `Redundancy.RedundantIndices` | gpyutils/packages.py:59-86 | the positions yielded lie in the group and are strictly decreasing, so the output is a subsequence of the reversed group, newest first |
| `Redundancy.RedundantIndicesExactly` | gpyutils/packages.py:59-86 | a position is listed iff the version there is redundant with respect to all strictly newer versions |
| `Redundancy.RedundantVersionsExactly` | gpyutils/packages.py:59-86 | the k-th yielded version is the version at the k-th listed position and is redundant there; every redundant version is yielded |
| `Redundancy.NeverYielded` | gpyutils/packages.py:57-64 | a version with no keywords is never yielded; the newest version of a non-empty group is never yielded |
| `Redundancy.AccumulatorsGrow` | gpyutils/packages.py:74-83 | scanning older versions never lowers a keyword level, never drops a name and never shrinks the implementation union; levels stay at most 2 |
| `Redundancy.MaxLevel` | gpyutils/packages.py:74-76 | the highest level recorded for a name is at most 2 |
| `Redundancy.KeywordsLevelIsMax` | gpyutils/packages.py:67-76 | the level one version gives a name bounds every keyword recorded under that name, and is reached by one of them when positive |
| `Redundancy.KeywordsLevelInsert` | gpyutils/packages.py:67-76 | recording one keyword raises only its own name, to the maximum of the old level and the keyword's level (`~x` gives 1 under `x`, anything else 2 under itself) |
| `Redundancy.MaxLevelAtLeast` | gpyutils/packages.py:74-76 | the highest level over several versions is at least that of each version |
| `Redundancy.MaxLevelAttained` | gpyutils/packages.py:74-76 | a positive highest level is reached by one of the versions |
| `Redundancy.CoveredIffMaxLevel` | gpyutils/packages.py:74-76 | a keyword is matched by a newer one iff its level is at most the highest newer level for its name |
| `Redundancy.InUnionImpls` | gpyutils/packages.py:79-83 | an implementation is in the running union iff some scanned version counts it |
| `Redundancy.RedundantIffAccumulators` | gpyutils/packages.py:60-86 | the declarative redundancy test agrees with the source's test against `max_keywords` and `max_impls` |
| `Redundancy.SupersetNewerIsRedundant` | gpyutils/packages.py:53-56 | a version with keywords is redundant when one newer version has a superset of its keywords and of its counted implementations |
| `Redundancy.SupersetNewerIsYielded` | gpyutils/packages.py:52-86 | such a superseded version is yielded by the scan |
| `Redundancy.RedundantStableHasStableNewer` | gpyutils/packages.py:67-76 | a redundant stable version always has a strictly newer stable version in its group |
| `Redundancy.ExampleTestingThenStable` | gpyutils/packages.py:59-86 | for `[~x, x]` (oldest first) the scan yields the `~x` version |
| `Redundancy.ExampleStableThenTesting` | gpyutils/packages.py:59-86 | for `[x, ~x]` the scan yields nothing |
| `Redundancy.ExampleLiveThenStable` | gpyutils/packages.py:59-86 | for `[live, x]` the scan yields nothing |
| `Redundancy.ExampleMaskedKeywordCounts` | gpyutils/packages.py:67-76 | for `[-x, x]` the scan yields nothing: `-x` is recorded under `-x` |

## Left out

- `get_python_impls` and `Status` come from `gpyutils/implementations.py`, which is not part of this model. Each version carries an `Option<set<Impl>>` in their place, where `None` stands for a `None` answer and counts as empty. Only `dead` and `future` are named statuses; every other status is `Other(name)`.
- `EnumObj` comes from `gpyutils/util.py`, which is not part of this model. Only the ranks 1, 2 and 3 are kept, in `Classification.Rank`.
- `pkgs.sorted`: sorting belongs to the repository layer. `Grouping.GroupPackages` takes the list in the order to group.
- The `key` attribute name of `group_packages` becomes a function `keyOf` from a version to its key. A key of `None` is not modelled; it would group the same way, because the run is still empty when the first key is compared.
- Generators (`yield`) are modelled as methods that return the whole sequence; laziness and single-pass iteration are not modelled.
- The unused `verbose` parameter and the `sys` import are dropped.
- Keywords are a set, iterated in an arbitrary order, as a `frozenset` would be. `Redundancy.RecordKeywords` is proved for every order of iteration.
- The inner keyword loop of `find_redundant` is a separate method, `Redundancy.RecordKeywords`, called once per version.
