/** Finding the installed copy of a package. An install directory is
    modelled by what the checker reads from it: for each package present,
    the version field of that package's own manifest. */
module Resolution {
  import opened Wrappers

  /** Package name to installed version text. */
  type InstallDir = map<string, string>

  /** The project being checked: the install directory under its root, and
      an optional explicit install directory (a sibling of the root). */
  datatype Project = Project(rootModules: InstallDir, nodeModulesPath: Option<InstallDir>)

  /** The install directories searched, in order. */
  function SearchRoots(p: Project): (roots: seq<InstallDir>)
    ensures |roots| >= 1 && roots[0] == p.rootModules
    ensures p.nodeModulesPath.Some? <==> |roots| == 2
    ensures p.nodeModulesPath.Some? ==> roots[1] == p.nodeModulesPath.value
  {
    [p.rootModules] + (if p.nodeModulesPath.Some? then [p.nodeModulesPath.value] else [])
  }

  /** The index of the first directory holding `name`, or `|roots|` when none does. */
  function FirstHolder(name: string, roots: seq<InstallDir>): (i: nat)
    ensures i <= |roots|
    ensures i < |roots| ==> name in roots[i]
    ensures forall k :: 0 <= k < i ==> name !in roots[k]
  {
    if roots == [] then 0
    else if name in roots[0] then 0
    else 1 + FirstHolder(name, roots[1..])
  }

  /** The version found for `name` in the first directory holding it. */
  function Resolve(name: string, roots: seq<InstallDir>): (r: Option<string>)
    ensures r.None? <==> forall i :: 0 <= i < |roots| ==> name !in roots[i]
    ensures r.Some? ==>
      exists i :: 0 <= i < |roots| && name in roots[i] && roots[i][name] == r.value
        && forall k :: 0 <= k < i ==> name !in roots[k]
  {
    var i := FirstHolder(name, roots);
    if i < |roots| then Some(roots[i][name]) else None
  }

  /** The root's own install directory is used when it has the package,
      whatever the explicit directory holds. */
  lemma PrimaryRootWins(p: Project, name: string)
    requires name in p.rootModules
    ensures Resolve(name, SearchRoots(p)) == Some(p.rootModules[name])
  {
  }

  /** The explicit directory is searched when the root's does not have the package. */
  lemma SiblingRootFallback(p: Project, name: string)
    requires name !in p.rootModules
    requires p.nodeModulesPath.Some? && name in p.nodeModulesPath.value
    ensures Resolve(name, SearchRoots(p)) == Some(p.nodeModulesPath.value[name])
  {
    var roots := SearchRoots(p);
    assert roots[1..] == [p.nodeModulesPath.value];
  }

  /** A package in neither directory is absent. */
  lemma AbsentEverywhere(p: Project, name: string)
    requires name !in p.rootModules
    requires p.nodeModulesPath.None? || name !in p.nodeModulesPath.value
    ensures Resolve(name, SearchRoots(p)) == None
  {
  }
}
