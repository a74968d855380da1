/** The npm checker's unit scenarios, each as a lemma about the sweep.

    Fixture: the project `project-npm-check` has `ember-cli` installed at
    version 1.2.3 under its own `node_modules`, and nothing else. The sibling
    fixture has no install directory under its `app` root and an explicit
    `node_modules` beside it. Every scenario clears the run-once flag first;
    `Checker.ResetThenCheck` shows that the check then returns exactly the
    sweep stated here. */
module Scenarios {
  import opened Wrappers
  import opened Text
  import opened Semver
  import opened Specifiers
  import opened Evaluation
  import opened Resolution
  import opened Checker

  const NpmCheck: Project := Project(map["ember-cli" := "1.2.3"], None)

  /** The fixture's install directories. */
  function Roots(): seq<InstallDir> {
    SearchRoots(NpmCheck)
  }

  const EmberCliRepo: string := "github.com/stefanpenner/ember-cli.git"

  lemma InstalledEmberCli()
    ensures Resolve("ember-cli", Roots()) == Some("1.2.3")
    ensures Render(Version(1, 2, 3)) == "1.2.3"
    ensures ParseVersion("1.2.3") == Some(Version(1, 2, 3))
  {
    PrimaryRootWins(NpmCheck, "ember-cli");
    VersionRoundTrip(Version(1, 2, 3));
  }

  /** A sweep of one dependency reports it exactly when its verdict is not `Satisfied`. */
  lemma SweepOfOne(d: Dependency, judge: Dependency -> Verdict)
    ensures Failures([d], judge) == if judge(d) == Satisfied then [] else [Failure(d.name, d.specifier, judge(d))]
  {
    assert [d][0] == d && [d][1..] == [];
  }

  /** A sweep of one checked dependency whose package is installed with a
      version text: reported as a mismatch exactly when the requirement
      rejects that version. */
  lemma CheckedSweep(d: Dependency, roots: seq<InstallDir>, text: string, installed: Version)
    requires Resolve(d.name, roots) == Some(text) && ParseVersion(text) == Some(installed)
    requires !Trusted(Classify(d.specifier))
    ensures Failures([d], Judgement(roots))
         == if Accepts(Classify(d.specifier), installed) then [] else [Failure(d.name, d.specifier, VersionMismatch(text))]
  {
    SweepOfOne(d, Judgement(roots));
  }

  /** A sweep of one `ember-cli` range against the fixture: reported as a
      mismatch with 1.2.3 exactly when the range rejects 1.2.3. */
  lemma RangeSweep(raw: string, admits: bool)
    requires Classify(raw) == Range(raw)
    requires SatisfiesRange(Version(1, 2, 3), raw) == admits
    ensures Failures([Dependency("ember-cli", raw)], Judgement(Roots()))
         == if admits then [] else [Failure("ember-cli", raw, VersionMismatch("1.2.3"))]
  {
    InstalledEmberCli();
    CheckedSweep(Dependency("ember-cli", raw), Roots(), "1.2.3", Version(1, 2, 3));
  }

  /** A sweep of one trusted dependency reports nothing. */
  lemma TrustedSweep(d: Dependency, roots: seq<InstallDir>)
    requires Trusted(Classify(d.specifier))
    ensures Failures([d], Judgement(roots)) == []
  {
    SweepOfOne(d, Judgement(roots));
  }

  // ---- reports unsatisfied npm dependencies ----

  /** A sweep of one checked dependency whose package is found nowhere. */
  lemma MissingSweep(d: Dependency, roots: seq<InstallDir>)
    requires Resolve(d.name, roots) == None
    requires !Trusted(Classify(d.specifier))
    ensures Failures([d], Judgement(roots)) == [Failure(d.name, d.specifier, NotInstalled)]
  {
    SweepOfOne(d, Judgement(roots));
  }

  /** What the bare version `b` says of 1.2.3. */
  lemma ExactAgainstInstalled(b: Version)
    ensures Classify(Render(b)) == Range(Render(b))
    ensures SatisfiesRange(Version(1, 2, 3), Render(b)) <==> b == Version(1, 2, 3)
  {
    RenderShape(b);
    ClassifyRangeText(Render(b));
    ExactRangeMeaning(b, Version(1, 2, 3));
  }

  /** What the bare version `0.1.1` says of 1.2.3. */
  lemma ZeroOneOneRejects()
    ensures Classify("0.1.1") == Range("0.1.1")
    ensures !SatisfiesRange(Version(1, 2, 3), "0.1.1")
  {
    assert Render(Version(0, 1, 1)) == "0.1.1";
    ExactAgainstInstalled(Version(0, 1, 1));
  }

  /** What the bare version `1.2.3` says of 1.2.3. */
  lemma OneTwoThreeAdmits()
    ensures Classify("1.2.3") == Range("1.2.3")
    ensures SatisfiesRange(Version(1, 2, 3), "1.2.3")
  {
    InstalledEmberCli();
    ExactAgainstInstalled(Version(1, 2, 3));
  }

  /** `foo` is declared but installed nowhere. */
  lemma FooNotInstalled()
    ensures Failures([Dependency("foo", "0.1.1")], Judgement(Roots())) == [Failure("foo", "0.1.1", NotInstalled)]
  {
    AbsentEverywhere(NpmCheck, "foo");
    ZeroOneOneRejects();
    MissingSweep(Dependency("foo", "0.1.1"), Roots());
  }

  /** A declared package that is not installed is reported, while the
      satisfied `ember-cli` entry beside it is not. */
  lemma ReportsMissingPackage()
    ensures Failures([Dependency("foo", "0.1.1"), Dependency("ember-cli", "1.2.3")], Judgement(Roots()))
         == [Failure("foo", "0.1.1", NotInstalled)]
  {
    var foo, ember := Dependency("foo", "0.1.1"), Dependency("ember-cli", "1.2.3");
    FooNotInstalled();
    AcceptsExactMatch();
    assert [foo, ember] == [foo] + [ember];
    FailuresAppend([foo], [ember], Judgement(Roots()));
  }

  lemma ReportsVersionMismatch()
    ensures Failures([Dependency("ember-cli", "0.1.1")], Judgement(Roots()))
         == [Failure("ember-cli", "0.1.1", VersionMismatch("1.2.3"))]
  {
    ZeroOneOneRejects();
    RangeSweep("0.1.1", false);
  }

  /** What the range `>1.3.2 <=2.3.4` says of 1.2.3. */
  lemma BoundedRangeExcludesInstalled()
    ensures Classify(">1.3.2 <=2.3.4") == Range(">1.3.2 <=2.3.4")
    ensures !SatisfiesRange(Version(1, 2, 3), ">1.3.2 <=2.3.4")
  {
    var installed := Version(1, 2, 3);
    assert OpText(Gt) + Render(Version(1, 3, 2)) == ">1.3.2";
    assert OpText(Le) + Render(Version(2, 3, 4)) == "<=2.3.4";
    assert ">1.3.2 <=2.3.4" == ">1.3.2" + " " + "<=2.3.4";
    ConjunctionMeaning(">1.3.2", "<=2.3.4", installed);
    ComparatorRangeMeaning(Gt, Version(1, 3, 2), installed);
    ClassifyRangeText(">1.3.2 <=2.3.4");
  }

  lemma ReportsRangeMismatch()
    ensures Failures([Dependency("ember-cli", ">1.3.2 <=2.3.4")], Judgement(Roots()))
         == [Failure("ember-cli", ">1.3.2 <=2.3.4", VersionMismatch("1.2.3"))]
  {
    BoundedRangeExcludesInstalled();
    RangeSweep(">1.3.2 <=2.3.4", false);
  }

  /** What the x-range `0.2.x` says of 1.2.3. */
  lemma XRangeExcludesInstalled()
    ensures Classify("0.2.x") == Range("0.2.x")
    ensures !SatisfiesRange(Version(1, 2, 3), "0.2.x")
  {
    assert NatToString(0) + "." + NatToString(2) + ".x" == "0.2.x";
    XRangeMeaning(0, 2, Version(1, 2, 3));
    ClassifyRangeText("0.2.x");
  }

  lemma ReportsIncompatibleXRange()
    ensures Failures([Dependency("ember-cli", "0.2.x")], Judgement(Roots()))
         == [Failure("ember-cli", "0.2.x", VersionMismatch("1.2.3"))]
  {
    XRangeExcludesInstalled();
    RangeSweep("0.2.x", false);
  }

  lemma RepositoryHasNoFragment()
    ensures '#' !in EmberCliRepo
  {
  }

  /** The ref `v0.1.0` is the tag of version 0.1.0. */
  lemma TagOfZeroOneZero(repo: string)
    requires '#' !in repo
    ensures Classify("git://" + repo + "#" + "v0.1.0") == VcsRef(Some("v0.1.0"), Some(Version(0, 1, 0)))
  {
    assert TagText(Version(0, 1, 0), true) == "v0.1.0";
    ClassifyTaggedRef(repo, Version(0, 1, 0), true);
  }

  lemma ReportsTaggedRefMismatch()
    ensures Failures([Dependency("ember-cli", "git://" + EmberCliRepo + "#" + "v0.1.0")], Judgement(Roots()))
         == [Failure("ember-cli", "git://" + EmberCliRepo + "#" + "v0.1.0", VersionMismatch("1.2.3"))]
  {
    RepositoryHasNoFragment();
    TagOfZeroOneZero(EmberCliRepo);
    InstalledEmberCli();
    CheckedSweep(Dependency("ember-cli", "git://" + EmberCliRepo + "#" + "v0.1.0"), Roots(), "1.2.3", Version(1, 2, 3));
  }

  // ---- does not report unsatisfied npm dependencies ----

  lemma AcceptsExactMatch()
    ensures Failures([Dependency("ember-cli", "1.2.3")], Judgement(Roots())) == []
  {
    OneTwoThreeAdmits();
    RangeSweep("1.2.3", true);
  }

  /** What `>1.0.0` says of 1.2.3. */
  lemma LowerBoundAdmitsInstalled()
    ensures Classify(">1.0.0") == Range(">1.0.0")
    ensures SatisfiesRange(Version(1, 2, 3), ">1.0.0")
  {
    assert OpText(Gt) + Render(Version(1, 0, 0)) == ">1.0.0";
    ComparatorRangeMeaning(Gt, Version(1, 0, 0), Version(1, 2, 3));
    ClassifyRangeText(">1.0.0");
  }

  lemma AcceptsSatisfiedComparator()
    ensures Failures([Dependency("ember-cli", ">1.0.0")], Judgement(Roots())) == []
  {
    LowerBoundAdmitsInstalled();
    RangeSweep(">1.0.0", true);
  }

  /** What `^1.2.0` says of 1.2.3. */
  lemma CaretAdmitsInstalled()
    ensures Classify("^1.2.0") == Range("^1.2.0")
    ensures SatisfiesRange(Version(1, 2, 3), "^1.2.0")
  {
    assert "^" + Render(Version(1, 2, 0)) == "^1.2.0";
    CaretRangeMeaning(Version(1, 2, 0), Version(1, 2, 3));
    ClassifyRangeText("^1.2.0");
  }

  lemma AcceptsCompatibleCaret()
    ensures Failures([Dependency("ember-cli", "^1.2.0")], Judgement(Roots())) == []
  {
    CaretAdmitsInstalled();
    RangeSweep("^1.2.0", true);
  }

  /** A download URL on any host and path is trusted. */
  lemma DownloadUrlAccepted(rest: string)
    ensures Failures([Dependency("ember-cli", "http://" + rest)], Judgement(Roots())) == []
  {
    DownloadUrlNeverReported(rest, Resolve("ember-cli", Roots()));
    SweepOfOne(Dependency("ember-cli", "http://" + rest), Judgement(Roots()));
  }

  lemma AcceptsDownloadUrl()
    ensures Failures([Dependency("ember-cli", "http://" + "ember-cli.com/ember-cli.tar.gz")], Judgement(Roots())) == []
  {
    DownloadUrlAccepted("ember-cli.com/ember-cli.tar.gz");
  }

  /** The branch name `master` is not a version tag. */
  lemma MasterIsNoTag()
    ensures ParseTag("master") == None
  {
    NoDotNoVersion("master");
  }

  /** A branch ref on any repository is trusted. */
  lemma BranchRefOnRepository(repo: string)
    requires '#' !in repo
    ensures Failures([Dependency("ember-cli", "git://" + repo + "#" + "master")], Judgement(Roots())) == []
  {
    MasterIsNoTag();
    ClassifyBranchRef(repo, "master");
    TrustedSweep(Dependency("ember-cli", "git://" + repo + "#" + "master"), Roots());
  }

  lemma AcceptsBranchRef()
    ensures Failures([Dependency("ember-cli", "git://" + EmberCliRepo + "#" + "master")], Judgement(Roots())) == []
  {
    RepositoryHasNoFragment();
    BranchRefOnRepository(EmberCliRepo);
  }

  /** A home-relative path is trusted. */
  lemma LocalPathAccepted(rest: string)
    ensures Failures([Dependency("ember-cli", "~/" + rest)], Judgement(Roots())) == []
  {
    assert ("~/" + rest)[..2] == "~/";
    LocalPathNeverReported("~/" + rest, Resolve("ember-cli", Roots()));
    SweepOfOne(Dependency("ember-cli", "~/" + rest), Judgement(Roots()));
  }

  lemma AcceptsLocalPath()
    ensures Failures([Dependency("ember-cli", "~/" + "projects/ember-cli")], Judgement(Roots())) == []
  {
    LocalPathAccepted("projects/ember-cli");
  }

  lemma AcceptsWildcard()
    ensures Failures([Dependency("ember-cli", "*")], Judgement(Roots())) == []
  {
    ClassifyWildcard();
    TrustedSweep(Dependency("ember-cli", "*"), Roots());
  }

  // ---- sibling node_modules directory ----

  /** The sibling fixture: nothing under the `app` root, and `sibling` as the
      explicit `node_modules`. */
  function SiblingRoots(sibling: InstallDir): seq<InstallDir> {
    SearchRoots(Project(map[], Some(sibling)))
  }

  /** With no install directory under the `app` root and `ember-cli` installed
      in the explicit sibling `node_modules`, `ember-cli` is resolved there,
      and a `*` dependency on it is not reported. */
  lemma SiblingNodeModulesChecked(sibling: InstallDir)
    requires "ember-cli" in sibling
    ensures Resolve("ember-cli", SiblingRoots(sibling)) == Some(sibling["ember-cli"])
    ensures Failures([Dependency("ember-cli", "*")], Judgement(SiblingRoots(sibling))) == []
  {
    SiblingRootFallback(Project(map[], Some(sibling)), "ember-cli");
    ClassifyWildcard();
    TrustedSweep(Dependency("ember-cli", "*"), SiblingRoots(sibling));
  }

  /** In the sibling layout the version installed in the sibling
      `node_modules` is the one checked: an exact `0.1.1` is reported against
      any other version text found there. */
  lemma SiblingVersionChecked(sibling: InstallDir)
    requires "ember-cli" in sibling
    ensures Failures([Dependency("ember-cli", "0.1.1")], Judgement(SiblingRoots(sibling)))
         == if sibling["ember-cli"] == "0.1.1" then []
            else [Failure("ember-cli", "0.1.1", VersionMismatch(sibling["ember-cli"]))]
  {
    var roots := SiblingRoots(sibling);
    SiblingRootFallback(Project(map[], Some(sibling)), "ember-cli");
    assert Render(Version(0, 1, 1)) == "0.1.1";
    ExactVersionIsEquality(Version(0, 1, 1), Some(sibling["ember-cli"]));
    SweepOfOne(Dependency("ember-cli", "0.1.1"), Judgement(roots));
  }
}
