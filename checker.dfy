/** The dependency sweep and its run-once gate.

    A sweep walks the declared dependencies in the manifest's insertion
    order, resolves each package, evaluates its specifier and collects the
    unsatisfied ones. The checker runs a sweep at most once until its
    `alreadyChecked` flag is cleared again. */
module Checker {
  import opened Wrappers
  import opened Specifiers
  import opened Evaluation
  import opened Resolution

  /** One entry of the manifest's dependency object: package name and specifier. */
  datatype Dependency = Dependency(name: string, specifier: string)

  /** An unsatisfied dependency, with the reason. */
  datatype Failure = Failure(name: string, specifier: string, reason: Verdict)

  /** The verdict on each declared dependency against fixed install
      directories: its specifier evaluated against the version resolved for it. */
  function Judgement(roots: seq<InstallDir>): Dependency -> Verdict {
    (d: Dependency) => Evaluate(Classify(d.specifier), Resolve(d.name, roots))
  }

  /** The unsatisfied dependencies of `ds`, in declaration order, under the
      per-dependency verdict `judge`. */
  function Failures(ds: seq<Dependency>, judge: Dependency -> Verdict): (fs: seq<Failure>)
    ensures |fs| <= |ds|
    ensures forall i :: 0 <= i < |fs| ==> fs[i].reason != Satisfied
  {
    if ds == [] then []
    else
      var d := ds[0];
      (if judge(d) == Satisfied then [] else [Failure(d.name, d.specifier, judge(d))]) + Failures(ds[1..], judge)
  }

  /** Sweeping a concatenation is sweeping each part, in order. */
  lemma {:induction false} FailuresAppend(a: seq<Dependency>, b: seq<Dependency>, judge: Dependency -> Verdict)
    ensures Failures(a + b, judge) == Failures(a, judge) + Failures(b, judge)
  {
    if a == [] {
      assert a + b == b;
    } else {
      assert (a + b)[0] == a[0];
      assert (a + b)[1..] == a[1..] + b;
      FailuresAppend(a[1..], b, judge);
    }
  }

  /** A failure is reported exactly for each declared dependency whose verdict
      is not `Satisfied`, with that verdict as its reason. */
  lemma {:induction false} FailuresExactly(ds: seq<Dependency>, judge: Dependency -> Verdict, f: Failure)
    ensures f in Failures(ds, judge)
        <==> exists i :: 0 <= i < |ds| && judge(ds[i]) != Satisfied
               && f == Failure(ds[i].name, ds[i].specifier, judge(ds[i]))
  {
    if ds != [] {
      FailuresExactly(ds[1..], judge, f);
      if f in Failures(ds[1..], judge) {
        var i :| 0 <= i < |ds[1..]| && judge(ds[1..][i]) != Satisfied
          && f == Failure(ds[1..][i].name, ds[1..][i].specifier, judge(ds[1..][i]));
        assert ds[1..][i] == ds[i + 1];
      }
      if exists i :: 0 <= i < |ds| && judge(ds[i]) != Satisfied
          && f == Failure(ds[i].name, ds[i].specifier, judge(ds[i])) {
        var i :| 0 <= i < |ds| && judge(ds[i]) != Satisfied
          && f == Failure(ds[i].name, ds[i].specifier, judge(ds[i]));
        if i > 0 {
          assert ds[i] == ds[1..][i - 1];
        }
      }
    }
  }

  /** The sweep reports nothing exactly when every declared dependency is satisfied. */
  lemma {:induction false} NoFailuresIffAllSatisfied(ds: seq<Dependency>, judge: Dependency -> Verdict)
    ensures Failures(ds, judge) == [] <==> forall i :: 0 <= i < |ds| ==> judge(ds[i]) == Satisfied
  {
    if ds != [] {
      NoFailuresIffAllSatisfied(ds[1..], judge);
      assert forall i :: 1 <= i < |ds| ==> ds[i] == ds[1..][i - 1];
    }
  }

  /** One pass over the declared dependencies, in order, collecting the
      unsatisfied ones; `judge` resolves and evaluates one dependency. */
  method Sweep(declared: seq<Dependency>, judge: Dependency -> Verdict) returns (failures: seq<Failure>)
    ensures failures == Failures(declared, judge)
  {
    failures := [];
    var i := 0;
    while i < |declared|
      invariant 0 <= i <= |declared|
      invariant failures == Failures(declared[..i], judge)
    {
      var d := declared[i];
      var verdict := judge(d);
      if verdict != Satisfied {
        failures := failures + [Failure(d.name, d.specifier, verdict)];
      }
      assert declared[..i + 1] == declared[..i] + [d];
      FailuresAppend(declared[..i], [d], judge);
      i := i + 1;
    }
    assert declared[..i] == declared;
  }

  /** The checker with its run-once flag. */
  class DependencyChecker {
    var alreadyChecked: bool

    constructor ()
      ensures !alreadyChecked
    {
      alreadyChecked := false;
    }

    method SetAlreadyChecked(value: bool)
      modifies this
      ensures alreadyChecked == value
    {
      alreadyChecked := value;
    }

    /** Sweeps the project's declared dependencies unless a sweep already ran;
        either way the flag is set afterwards. */
    method CheckDependencies(project: Project, declared: seq<Dependency>) returns (failures: seq<Failure>)
      modifies this
      ensures alreadyChecked
      ensures old(alreadyChecked) ==> failures == []
      ensures !old(alreadyChecked) ==> failures == Failures(declared, Judgement(SearchRoots(project)))
    {
      if alreadyChecked {
        failures := [];
      } else {
        failures := Sweep(declared, Judgement(SearchRoots(project)));
        alreadyChecked := true;
      }
    }
  }

  /** Clearing the flag, then checking, always gives a fresh sweep: the set-up
      every test performs before it checks a project. */
  method ResetThenCheck(checker: DependencyChecker, project: Project, declared: seq<Dependency>)
    returns (failures: seq<Failure>)
    modifies checker
    ensures checker.alreadyChecked
    ensures failures == Failures(declared, Judgement(SearchRoots(project)))
  {
    checker.SetAlreadyChecked(false);
    failures := checker.CheckDependencies(project, declared);
  }

  /** Without a reset, a second check reports nothing, even for other
      dependencies; after a reset the same check sweeps again. */
  method CheckTwiceThenReset(checker: DependencyChecker, project: Project, first: seq<Dependency>, second: seq<Dependency>)
    returns (r1: seq<Failure>, r2: seq<Failure>, r3: seq<Failure>)
    modifies checker
    ensures checker.alreadyChecked
    ensures old(checker.alreadyChecked) ==> r1 == []
    ensures !old(checker.alreadyChecked) ==> r1 == Failures(first, Judgement(SearchRoots(project)))
    ensures r2 == []
    ensures r3 == Failures(second, Judgement(SearchRoots(project)))
  {
    r1 := checker.CheckDependencies(project, first);
    r2 := checker.CheckDependencies(project, second);
    r3 := ResetThenCheck(checker, project, second);
  }
}
