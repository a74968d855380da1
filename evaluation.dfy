/** The verdict on one declared dependency, given its classified specifier
    and the version text found in the installed package's manifest (absent
    when the package was not found). */
module Evaluation {
  import opened Wrappers
  import opened Semver
  import opened Specifiers

  datatype Verdict =
    | Satisfied
      /** The specifier needs a version check and no package was found. */
    | NotInstalled
      /** The package was found, but its version does not meet the requirement. */
    | VersionMismatch(installed: string)

  /** Specifiers whose installed version cannot be checked: the declaration is
      trusted, whether or not the package is present. */
  predicate Trusted(s: Specifier) {
    s.Wildcard? || s.DownloadUrl? || s.LocalPath? || (s.VcsRef? && s.version.None?)
  }

  /** The version requirement of a checkable specifier: a version tag is an
      exact version, a range is read as a range. */
  predicate Accepts(s: Specifier, installed: Version)
    requires !Trusted(s)
  {
    if s.VcsRef? then installed == s.version.value else SatisfiesRange(installed, s.raw)
  }

  function Evaluate(s: Specifier, installed: Option<string>): (r: Verdict)
    ensures r.NotInstalled? <==> !Trusted(s) && installed.None?
    ensures r.VersionMismatch? ==> installed == Some(r.installed)
  {
    if Trusted(s) then Satisfied
    else
      match installed
      case None => NotInstalled
      case Some(text) =>
        match ParseVersion(text)
        case Some(v) => if Accepts(s, v) then Satisfied else VersionMismatch(text)
        case None => VersionMismatch(text)
  }

  // ---- the never-reported kinds ----

  lemma WildcardNeverReported(installed: Option<string>)
    ensures Evaluate(Classify("*"), installed) == Satisfied
  {
  }

  lemma DownloadUrlNeverReported(rest: string, installed: Option<string>)
    ensures Evaluate(Classify("http://" + rest), installed) == Satisfied
    ensures Evaluate(Classify("https://" + rest), installed) == Satisfied
  {
    ClassifyDownloadUrl(rest);
  }

  lemma LocalPathNeverReported(raw: string, installed: Option<string>)
    requires IsLocalPath(raw)
    ensures Evaluate(Classify(raw), installed) == Satisfied
  {
    ClassifyLocalPath(raw);
  }

  lemma BranchRefNeverReported(repo: string, branch: string, installed: Option<string>)
    requires '#' !in repo
    requires ParseTag(branch) == None
    ensures Evaluate(Classify("git://" + repo + "#" + branch), installed) == Satisfied
  {
    ClassifyBranchRef(repo, branch);
  }

  // ---- the checked kinds ----

  /** A version-tag ref is met only by exactly that version installed. */
  lemma TaggedRefIsExact(repo: string, v: Version, prefixed: bool, installed: Option<string>)
    requires '#' !in repo
    ensures Evaluate(Classify("git://" + repo + "#" + TagText(v, prefixed)), installed) == Satisfied
        <==> installed == Some(Render(v))
    ensures installed.None? ==>
      Evaluate(Classify("git://" + repo + "#" + TagText(v, prefixed)), installed) == NotInstalled
  {
    ClassifyTaggedRef(repo, v, prefixed);
    if installed.Some? {
      ParseVersionIff(installed.value, v);
    }
  }

  /** The range written as a bare version `b` is met only by the text of `b`. */
  lemma ExactRangeVerdict(b: Version, installed: Option<string>)
    ensures Evaluate(Range(Render(b)), installed) == Satisfied <==> installed == Some(Render(b))
  {
    if installed.Some? {
      var text := installed.value;
      match ParseVersion(text)
      case Some(v) =>
        ExactRangeMeaning(b, v);
        ParseVersionIff(text, b);
      case None =>
        VersionRoundTrip(b);
    }
  }

  /** A bare version is met only by exactly that version installed. */
  lemma ExactVersionIsEquality(b: Version, installed: Option<string>)
    ensures Evaluate(Classify(Render(b)), installed) == Satisfied <==> installed == Some(Render(b))
    ensures installed.None? ==> Evaluate(Classify(Render(b)), installed) == NotInstalled
  {
    RenderShape(b);
    ClassifyRangeText(Render(b));
    ExactRangeVerdict(b, installed);
  }

  /** A range is met when the installed version text is a version inside it. */
  lemma RangeVerdict(raw: string, installed: Option<string>)
    ensures Evaluate(Range(raw), installed) == Satisfied
        <==> installed.Some? && ParseVersion(installed.value).Some?
             && SatisfiesRange(ParseVersion(installed.value).value, raw)
  {
  }
}
