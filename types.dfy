/**
 * Package-version records as the analysis in gpyutils/packages.py sees them.
 * The records come from the repository layer and are never changed by the
 * analysis, so they are values.
 */
module PackageTypes {

  datatype Option<T> = None | Some(value: T)

  /**
   * Lifecycle status of a Python implementation. The full enumeration lives
   * in gpyutils/implementations.py, which is not part of this model; the
   * analysis only ever asks whether a status is `dead` or `future`, so every
   * other status is kept opaque under its name.
   */
  datatype Status = Dead | Future | Other(name: string)

  /** One implementation a package version supports, with its status. */
  datatype Impl = Impl(name: string, status: Status)

  /**
   * A package version: its keywords (`x` stable, `~x` testing, `-x` masked,
   * none at all for a live ebuild), the value it is grouped by, and what
   * `get_python_impls` answers for it (`None` when it answers nothing).
   */
  datatype Pkg = Pkg(keywords: set<string>, key: string, impls: Option<set<Impl>>)

  /** Implementations with status `dead` or `future` do not count. */
  predicate IsCountable(i: Impl)
  {
    i.status != Dead && i.status != Future
  }

  /** The implementations of `p` that count, a missing answer standing for none. */
  function CountedImpls(p: Pkg): set<Impl>
  {
    var all := if p.impls.Some? then p.impls.value else {};
    set i | i in all && IsCountable(i)
  }
}
