/** Stability classes of a package version (gpyutils/packages.py, PackageClass). */
module Classification {
  import opened PackageTypes

  /** The three classes; they are ranked by `Rank`. */
  datatype PackageClass = NonKeyworded | Testing | Stable

  function Rank(c: PackageClass): nat
  {
    match c
    case NonKeyworded => 1
    case Testing => 2
    case Stable => 3
  }

  /** A keyword whose first character is neither `~` nor `-` is a stable one. */
  predicate IsStableKeyword(kw: string)
    requires kw != ""
  {
    kw[0] != '~' && kw[0] != '-'
  }

  /**
   * The class of a package: stable as soon as one keyword is stable, testing
   * when it has keywords but none is stable, non-keyworded when it has none.
   * The source reads the first character of every keyword, so keywords must
   * not be empty strings.
   */
  function GetPackageClass(p: Pkg): (c: PackageClass)
    requires forall kw :: kw in p.keywords ==> kw != ""
    ensures c == Stable <==> exists kw :: kw in p.keywords && kw[0] != '~' && kw[0] != '-'
    ensures c == Testing <==>
      p.keywords != {} && forall kw :: kw in p.keywords ==> kw[0] == '~' || kw[0] == '-'
    ensures c == NonKeyworded <==> p.keywords == {}
  {
    if exists kw :: kw in p.keywords && IsStableKeyword(kw) then Stable
    else if p.keywords != {} then Testing
    else NonKeyworded
  }

  /** Adding keywords to a package never lowers its class. */
  lemma ClassRankMonotone(p: Pkg, q: Pkg)
    requires forall kw :: kw in q.keywords ==> kw != ""
    requires p.keywords <= q.keywords
    ensures Rank(GetPackageClass(p)) <= Rank(GetPackageClass(q))
  {
    if GetPackageClass(p) == Stable {
      var kw :| kw in p.keywords && IsStableKeyword(kw);
      assert kw in q.keywords;
    } else if GetPackageClass(p) == Testing {
      var kw :| kw in p.keywords;
      assert kw in q.keywords;
    }
  }
}
