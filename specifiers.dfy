/** Classification of a declared dependency specifier: the string a project
    writes next to a package name in its manifest. The first matching rule
    wins: the wildcard `*`, a download URL, a `git://` repository reference,
    a local path, and otherwise a version range kept verbatim. No string is
    rejected; an unrecognised one is left to the range reader. */
module Specifiers {
  import opened Wrappers
  import opened Text
  import opened Semver

  datatype Specifier =
    | Wildcard
    | DownloadUrl
      /** `ref` is the text after `#`, if any; `version` is set when that
          ref is a semantic version tag, and then acts as an exact requirement. */
    | VcsRef(ref: Option<string>, version: Option<Version>)
    | LocalPath
    | Range(raw: string)

  predicate IsDownloadUrl(raw: string) {
    StartsWith(raw, "http://") || StartsWith(raw, "https://")
  }

  predicate IsRepositoryUrl(raw: string) {
    StartsWith(raw, "git://")
  }

  predicate IsLocalPath(raw: string) {
    StartsWith(raw, "~/") || StartsWith(raw, "./") || StartsWith(raw, "../") || StartsWith(raw, "/")
  }

  /** The ref named after the first `#` of a repository URL. */
  function RefOf(raw: string): (r: Option<string>)
    ensures r.Some? <==> '#' in raw
  {
    var i := Find(raw, '#');
    if i < |raw| then Some(raw[i + 1..]) else None
  }

  /** A ref read as a version tag: a version, optionally after a literal `v`. */
  function ParseTag(tag: string): Option<Version> {
    if |tag| > 0 && tag[0] == 'v' then ParseVersion(tag[1..]) else ParseVersion(tag)
  }

  function Classify(raw: string): Specifier {
    if raw == "*" then Wildcard
    else if IsDownloadUrl(raw) then DownloadUrl
    else if IsRepositoryUrl(raw) then
      var ref := RefOf(raw);
      VcsRef(ref, if ref.Some? then ParseTag(ref.value) else None)
    else if IsLocalPath(raw) then LocalPath
    else Range(raw)
  }

  /** The text of a version tag, with or without its leading `v`. */
  function TagText(v: Version, prefixed: bool): string {
    (if prefixed then "v" else "") + Render(v)
  }

  /** The text of a version tag reads back as that version. */
  lemma {:induction false} TagRoundTrip(v: Version, prefixed: bool)
    ensures ParseTag(TagText(v, prefixed)) == Some(v)
  {
    var tag := TagText(v, prefixed);
    VersionRoundTrip(v);
    RenderShape(v);
    if prefixed {
      assert tag[0] == 'v' && tag[1..] == Render(v);
    } else {
      assert tag == Render(v) && tag[0] != 'v';
    }
  }

  /** Whatever the tag reader accepts is a tag text. */
  lemma {:induction false} TagIsTagText(tag: string, v: Version)
    requires ParseTag(tag) == Some(v)
    ensures tag == TagText(v, |tag| > 0 && tag[0] == 'v')
  {
    var r := Render(v);
    if |tag| > 0 && tag[0] == 'v' {
      assert ParseVersion(tag[1..]) == Some(v);
      TextAfterPrefix(tag, r);
    } else {
      assert ParseVersion(tag) == Some(v);
    }
  }

  lemma TextAfterPrefix(tag: string, r: string)
    requires |tag| > 0 && tag[0] == 'v' && tag[1..] == r
    ensures tag == "v" + r
  {
  }

  /** The tag reader accepts exactly the tag texts: a ref reads as version `v`
      exactly when it is `v`'s text, with or without a leading `v`. Every
      other ref (a branch name, say) carries no version. */
  lemma ParseTagIff(tag: string, v: Version)
    ensures ParseTag(tag) == Some(v) <==> exists prefixed :: tag == TagText(v, prefixed)
  {
    if ParseTag(tag) == Some(v) {
      TagIsTagText(tag, v);
    }
    forall prefixed | tag == TagText(v, prefixed)
      ensures ParseTag(tag) == Some(v)
    {
      TagRoundTrip(v, prefixed);
    }
  }

  // ---- what each kind of specifier is classified as ----

  lemma ClassifyWildcard()
    ensures Classify("*") == Wildcard
  {
  }

  lemma {:induction false} ClassifyDownloadUrl(rest: string)
    ensures Classify("http://" + rest) == DownloadUrl
    ensures Classify("https://" + rest) == DownloadUrl
  {
    assert ("http://" + rest)[..7] == "http://";
    assert ("https://" + rest)[..8] == "https://";
    assert ("http://" + rest)[0] == 'h' && ("https://" + rest)[0] == 'h';
  }

  /** Every local path (`~/`, `./`, `../` or `/`) is classified as one. */
  lemma {:induction false} ClassifyLocalPath(raw: string)
    requires IsLocalPath(raw)
    ensures Classify(raw) == LocalPath
  {
    assert raw[0] in "~./" by {
      if StartsWith(raw, "~/") { assert raw[..2][0] == raw[0]; }
      else if StartsWith(raw, "./") { assert raw[..2][0] == raw[0]; }
      else if StartsWith(raw, "../") { assert raw[..3][0] == raw[0]; }
      else { assert raw[..1][0] == raw[0]; }
    }
    assert !StartsWith(raw, "http://") by { assert |raw| < 7 || raw[..7][0] == raw[0]; }
    assert !StartsWith(raw, "https://") by { assert |raw| < 8 || raw[..8][0] == raw[0]; }
    assert !StartsWith(raw, "git://") by { assert |raw| < 6 || raw[..6][0] == raw[0]; }
  }

  /** The URL text after `git://` up to the ref. */
  lemma RefOfRepository(repo: string, tag: string)
    requires '#' !in repo
    ensures RefOf("git://" + repo + "#" + tag) == Some(tag)
  {
    var raw := "git://" + repo + "#" + tag;
    assert raw == ("git://" + repo) + ['#'] + tag;
    FindAfter("git://" + repo, '#', tag);
    assert raw[|"git://" + repo| + 1..] == tag;
  }

  lemma {:induction false} ClassifyRepository(repo: string, tag: string)
    requires '#' !in repo
    ensures Classify("git://" + repo + "#" + tag) == VcsRef(Some(tag), ParseTag(tag))
  {
    var raw := "git://" + repo + "#" + tag;
    assert raw[..6] == "git://";
    assert raw[0] == 'g';
    assert !StartsWith(raw, "http://") by { assert raw[..7][0] == 'g'; }
    assert !StartsWith(raw, "https://") by { assert |raw| < 8 || raw[..8][0] == 'g'; }
    RefOfRepository(repo, tag);
  }

  /** A ref that is a version tag, with or without `v`, carries that version. */
  lemma {:induction false} ClassifyTaggedRef(repo: string, v: Version, prefixed: bool)
    requires '#' !in repo
    ensures Classify("git://" + repo + "#" + TagText(v, prefixed)) == VcsRef(Some(TagText(v, prefixed)), Some(v))
  {
    var tag := TagText(v, prefixed);
    ClassifyRepository(repo, tag);
    VersionRoundTrip(v);
    RenderShape(v);
    if prefixed {
      assert tag[1..] == Render(v);
    } else {
      assert tag == Render(v);
    }
  }

  /** A ref that is not a version tag (a branch name) carries no version. */
  lemma {:induction false} ClassifyBranchRef(repo: string, branch: string)
    requires '#' !in repo
    requires ParseTag(branch) == None
    ensures Classify("git://" + repo + "#" + branch) == VcsRef(Some(branch), None)
  {
    ClassifyRepository(repo, branch);
  }

  /** A specifier starting with a digit or a range operator is a range, kept verbatim. */
  lemma {:induction false} ClassifyRangeText(raw: string)
    requires |raw| > 0 && (IsDigit(raw[0]) || raw[0] in "^<>=")
    ensures Classify(raw) == Range(raw)
  {
    assert !StartsWith(raw, "http://") by { assert |raw| < 7 || raw[..7][0] == raw[0]; }
    assert !StartsWith(raw, "https://") by { assert |raw| < 8 || raw[..8][0] == raw[0]; }
    assert !StartsWith(raw, "git://") by { assert |raw| < 6 || raw[..6][0] == raw[0]; }
    assert !StartsWith(raw, "~/") by { assert |raw| < 2 || raw[..2][0] == raw[0]; }
    assert !StartsWith(raw, "./") by { assert |raw| < 2 || raw[..2][0] == raw[0]; }
    assert !StartsWith(raw, "../") by { assert |raw| < 3 || raw[..3][0] == raw[0]; }
    assert !StartsWith(raw, "/") by { assert raw[..1][0] == raw[0]; }
  }
}
