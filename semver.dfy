/** Versions and the version ranges a dependency may declare.

    A version is the normal form X.Y.Z of Semantic Versioning 2.0.0
    (section 2), ordered by precedence (section 11). A range is a
    space-separated conjunction of terms; the terms understood are a bare
    exact version, the comparators `>`, `>=`, `<`, `<=`, `=`, the caret
    form `^X.Y.Z` and the x-range `X.Y.x`. */
module Semver {
  import opened Wrappers
  import opened Text

  datatype Version = Version(major: nat, minor: nat, patch: nat)

  /** The canonical text of a version, "major.minor.patch". */
  function Render(v: Version): string {
    NatToString(v.major) + "." + NatToString(v.minor) + "." + NatToString(v.patch)
  }

  /** `s` read as two parts around its first dot. */
  function SplitDot(s: string): (r: Option<(string, string)>)
    ensures r.Some? ==> s == r.value.0 + "." + r.value.1 && '.' !in r.value.0
  {
    var i := Find(s, '.');
    if i == |s| then None
    else
      SplitAround(s, i);
      Some((s[..i], s[i + 1..]))
  }

  lemma SplitDotOf(a: string, b: string)
    requires '.' !in a
    ensures SplitDot(a + "." + b) == Some((a, b))
  {
    var s := a + "." + b;
    FindAfter(a, '.', b);
    assert s[..|a|] == a && s[|a| + 1..] == b;
  }

  /** Reads the normal version form: three numeric identifiers separated by
      dots. Leading zeroes, missing parts and any extra text are rejected.
      Whatever it accepts is exactly the rendering of what it returns. */
  function ParseVersion(s: string): (r: Option<Version>)
    ensures r.Some? ==> Render(r.value) == s
  {
    match SplitDot(s)
    case None => None
    case Some((a, rest)) =>
      match SplitDot(rest)
      case None => None
      case Some((b, c)) =>
        match (ParseNumeral(a), ParseNumeral(b), ParseNumeral(c))
        case (Some(x), Some(y), Some(z)) => Some(Version(x, y, z))
        case _ => None
  }

  /** The rendering of a version starts and ends with a digit and holds no space. */
  lemma RenderShape(v: Version)
    ensures |Render(v)| > 0 && IsDigit(Render(v)[0]) && IsDigit(Render(v)[|Render(v)| - 1])
    ensures ' ' !in Render(v)
  {
    var a, b, c := NatToString(v.major), NatToString(v.minor), NatToString(v.patch);
    NumeralHasNoSeparator(v.major);
    NumeralHasNoSeparator(v.minor);
    NumeralHasNoSeparator(v.patch);
    var s := Render(v);
    assert s[0] == a[0];
    assert s[|s| - 1] == c[|c| - 1];
  }

  /** Rendering a version and parsing it back gives the version. */
  lemma {:induction false} VersionRoundTrip(v: Version)
    ensures ParseVersion(Render(v)) == Some(v)
  {
    var a, b, c := NatToString(v.major), NatToString(v.minor), NatToString(v.patch);
    NumeralHasNoSeparator(v.major);
    NumeralHasNoSeparator(v.minor);
    assert Render(v) == a + "." + (b + "." + c);
    SplitDotOf(a, b + "." + c);
    SplitDotOf(b, c);
    NumeralRoundTrip(v.major);
    NumeralRoundTrip(v.minor);
    NumeralRoundTrip(v.patch);
  }

  /** A text without a dot is not a version. */
  lemma NoDotNoVersion(s: string)
    requires '.' !in s
    ensures ParseVersion(s) == None
  {
    assert Find(s, '.') == |s|;
  }

  /** Each version has exactly one text: `s` parses to `v` exactly when `s`
      is the rendering of `v`. */
  lemma ParseVersionIff(s: string, v: Version)
    ensures ParseVersion(s) == Some(v) <==> s == Render(v)
  {
    VersionRoundTrip(v);
  }

  // ---- precedence (Semantic Versioning 2.0.0, section 11) ----

  /** `a` has lower precedence than `b`: major, minor and patch compared
      numerically, left to right. */
  predicate Less(a: Version, b: Version) {
    || a.major < b.major
    || (a.major == b.major && a.minor < b.minor)
    || (a.major == b.major && a.minor == b.minor && a.patch < b.patch)
  }

  /** Precedence is a strict total order on versions. */
  lemma LessIsStrictTotalOrder(a: Version, b: Version, c: Version)
    ensures !Less(a, a)
    ensures Less(a, b) && Less(b, c) ==> Less(a, c)
    ensures a == b || Less(a, b) || Less(b, a)
    ensures !(Less(a, b) && Less(b, a))
  {
  }

  // ---- ranges ----

  datatype Op = Eq | Gt | Ge | Lt | Le

  datatype Comparator = Comparator(op: Op, bound: Version)

  /** The comparator's textual operator. */
  function OpText(op: Op): string {
    match op
    case Eq => "="
    case Gt => ">"
    case Ge => ">="
    case Lt => "<"
    case Le => "<="
  }

  predicate Holds(v: Version, c: Comparator) {
    match c.op
    case Eq => v == c.bound
    case Gt => Less(c.bound, v)
    case Ge => !Less(v, c.bound)
    case Lt => Less(v, c.bound)
    case Le => !Less(c.bound, v)
  }

  /** A conjunction of comparators holds when each of them does. */
  predicate Satisfies(v: Version, cs: seq<Comparator>) {
    forall i :: 0 <= i < |cs| ==> Holds(v, cs[i])
  }

  /** The exclusive upper bound of `^b`: the next version that changes the
      left-most non-zero part of `b`. */
  function CaretUpper(b: Version): Version {
    if b.major > 0 then Version(b.major + 1, 0, 0)
    else if b.minor > 0 then Version(0, b.minor + 1, 0)
    else Version(0, 0, b.patch + 1)
  }

  function CaretRange(b: Version): seq<Comparator> {
    [Comparator(Ge, b), Comparator(Lt, CaretUpper(b))]
  }

  function XRange(major: nat, minor: nat): seq<Comparator> {
    [Comparator(Ge, Version(major, minor, 0)), Comparator(Lt, Version(major, minor + 1, 0))]
  }

  /** "Compatible with b" as the caret promises it: the left-most non-zero
      part of `b` and every part to its left are kept. */
  predicate Compatible(v: Version, b: Version) {
    if b.major > 0 then v.major == b.major
    else if b.minor > 0 then v.major == 0 && v.minor == b.minor
    else v.major == 0 && v.minor == 0 && v.patch == b.patch
  }

  predicate IsPatchWildcard(c: char) {
    c == 'x' || c == 'X' || c == '*'
  }

  /** `X.Y.x`: any patch level of minor version X.Y. */
  function XRangeTerm(tok: string): Option<seq<Comparator>>
    requires |tok| > 0
  {
    if |tok| >= 2 && tok[|tok| - 2] == '.' then
      match SplitDot(tok[..|tok| - 2])
      case None => None
      case Some((a, b)) =>
        match (ParseNumeral(a), ParseNumeral(b))
        case (Some(x), Some(y)) => Some(XRange(x, y))
        case _ => None
    else None
  }

  /** The form of a range term, told by its leading operator (or, for a
      bare term, by a trailing wildcard). */
  datatype TermForm = CaretForm | CompareForm(op: Op) | XForm

  /** A non-empty term split into its form and the version text after the operator. */
  function SplitOperator(tok: string): (TermForm, string)
    requires |tok| > 0
  {
    if tok[0] == '^' then (CaretForm, tok[1..])
    else if tok[0] == '>' then
      if |tok| > 1 && tok[1] == '=' then (CompareForm(Ge), tok[2..]) else (CompareForm(Gt), tok[1..])
    else if tok[0] == '<' then
      if |tok| > 1 && tok[1] == '=' then (CompareForm(Le), tok[2..]) else (CompareForm(Lt), tok[1..])
    else if tok[0] == '=' then (CompareForm(Eq), tok[1..])
    else if IsPatchWildcard(tok[|tok| - 1]) then (XForm, tok)
    else (CompareForm(Eq), tok)
  }

  /** One space-free term of a range, read as a conjunction of comparators. */
  function ParseTerm(tok: string): Option<seq<Comparator>> {
    if tok == [] then None
    else
      var (form, text) := SplitOperator(tok);
      if form.XForm? then (if text == [] then None else XRangeTerm(text))
      else
        match ParseVersion(text)
        case None => None
        case Some(v) => Some(if form.CaretForm? then CaretRange(v) else [Comparator(form.op, v)])
  }

  function ParseTerms(ts: seq<string>): Option<seq<Comparator>> {
    if ts == [] then Some([])
    else
      match (ParseTerm(ts[0]), ParseTerms(ts[1..]))
      case (Some(a), Some(b)) => Some(a + b)
      case _ => None
  }

  /** A range expression as the conjunction of its space-separated terms;
      `None` when any term is not understood. */
  function ParseRange(raw: string): Option<seq<Comparator>> {
    ParseTerms(Words(raw))
  }

  /** `v` satisfies the range written `raw`. A range that cannot be read is
      satisfied by no version. */
  predicate SatisfiesRange(v: Version, raw: string) {
    match ParseRange(raw)
    case Some(cs) => Satisfies(v, cs)
    case None => false
  }

  // ---- how each range form is read ----

  /** A bare version text is read as an exact comparison. */
  lemma SplitOperatorBare(r: string)
    requires |r| > 0 && IsDigit(r[0]) && IsDigit(r[|r| - 1])
    ensures SplitOperator(r) == (CompareForm(Eq), r)
  {
  }

  lemma TermOfExact(b: Version)
    ensures ParseTerm(Render(b)) == Some([Comparator(Eq, b)])
  {
    RenderShape(b);
    VersionRoundTrip(b);
    SplitOperatorBare(Render(b));
  }

  /** An operator in front of a version's text is read back as that operator. */
  lemma SplitOperatorOf(op: Op, r: string)
    requires |r| > 0 && IsDigit(r[0]) && IsDigit(r[|r| - 1])
    ensures SplitOperator(OpText(op) + r) == (CompareForm(op), r)
  {
    var tok := OpText(op) + r;
    var n := |OpText(op)|;
    assert tok[n..] == r;
    assert tok[n] == r[0];
    match op
    case Eq => assert tok[0] == '=';
    case Gt => assert tok[0] == '>' && tok[1] == r[0];
    case Ge => assert tok[0] == '>' && tok[1] == '=';
    case Lt => assert tok[0] == '<' && tok[1] == r[0];
    case Le => assert tok[0] == '<' && tok[1] == '=';
  }

  lemma TermOfComparator(op: Op, b: Version)
    ensures ParseTerm(OpText(op) + Render(b)) == Some([Comparator(op, b)])
  {
    RenderShape(b);
    VersionRoundTrip(b);
    SplitOperatorOf(op, Render(b));
  }

  lemma TermOfCaret(b: Version)
    ensures ParseTerm("^" + Render(b)) == Some(CaretRange(b))
  {
    var tok := "^" + Render(b);
    assert tok[0] == '^' && tok[1..] == Render(b);
    assert SplitOperator(tok) == (CaretForm, Render(b));
    VersionRoundTrip(b);
  }

  lemma TermOfXRange(major: nat, minor: nat)
    ensures ParseTerm(NatToString(major) + "." + NatToString(minor) + ".x") == Some(XRange(major, minor))
  {
    var a, b := NatToString(major), NatToString(minor);
    var tok := a + "." + b + ".x";
    NumeralHasNoSeparator(major);
    assert tok[..|tok| - 2] == a + "." + b;
    assert tok[0] == a[0];
    SplitDotOf(a, b);
    NumeralRoundTrip(major);
    NumeralRoundTrip(minor);
  }

  /** A range made of one term means that term's conjunction. */
  lemma SingleTerm(tok: string, v: Version)
    requires |tok| > 0 && ' ' !in tok
    ensures SatisfiesRange(v, tok) <==> ParseTerm(tok).Some? && Satisfies(v, ParseTerm(tok).value)
  {
    WordsOfWord(tok);
    assert [tok][0] == tok && [tok][1..] == [];
    match ParseTerm(tok)
    case Some(cs) =>
      assert cs + [] == cs;
      assert ParseTerms([tok]) == Some(cs);
    case None =>
      assert ParseTerms([tok]) == None;
  }

  /** A one-term range whose term reads as `cs` means `cs`. */
  lemma TermMeaning(tok: string, cs: seq<Comparator>, v: Version)
    requires |tok| > 0 && ' ' !in tok
    requires ParseTerm(tok) == Some(cs)
    ensures SatisfiesRange(v, tok) <==> Satisfies(v, cs)
  {
    SingleTerm(tok, v);
  }

  // ---- what each range form means ----

  /** A bare version is an exact requirement: only that version satisfies it. */
  lemma {:induction false} ExactRangeMeaning(b: Version, v: Version)
    ensures SatisfiesRange(v, Render(b)) <==> v == b
  {
    var tok := Render(b);
    RenderShape(b);
    TermOfExact(b);
    TermMeaning(tok, [Comparator(Eq, b)], v);
    SatisfiesOne(v, Comparator(Eq, b));
  }

  /** An operator followed by a version is that single comparison. */
  lemma {:induction false} ComparatorRangeMeaning(op: Op, b: Version, v: Version)
    ensures SatisfiesRange(v, OpText(op) + Render(b)) <==> Holds(v, Comparator(op, b))
  {
    var tok := OpText(op) + Render(b);
    RenderShape(b);
    TermOfComparator(op, b);
    TermMeaning(tok, [Comparator(op, b)], v);
    SatisfiesOne(v, Comparator(op, b));
  }

  /** `^b` accepts exactly the versions at or above `b` that are compatible with it. */
  lemma {:induction false} CaretRangeMeaning(b: Version, v: Version)
    ensures SatisfiesRange(v, "^" + Render(b)) <==> !Less(v, b) && Compatible(v, b)
  {
    var tok := "^" + Render(b);
    RenderShape(b);
    TermOfCaret(b);
    TermMeaning(tok, CaretRange(b), v);
    SatisfiesTwo(v, Comparator(Ge, b), Comparator(Lt, CaretUpper(b)));
    CaretBounds(b, v);
  }

  /** `M.m.x` accepts exactly the versions whose major and minor are `M` and `m`. */
  lemma {:induction false} XRangeMeaning(major: nat, minor: nat, v: Version)
    ensures SatisfiesRange(v, NatToString(major) + "." + NatToString(minor) + ".x")
        <==> v.major == major && v.minor == minor
  {
    var tok := NatToString(major) + "." + NatToString(minor) + ".x";
    NumeralHasNoSeparator(major);
    NumeralHasNoSeparator(minor);
    TermOfXRange(major, minor);
    TermMeaning(tok, XRange(major, minor), v);
    SatisfiesTwo(v, Comparator(Ge, Version(major, minor, 0)), Comparator(Lt, Version(major, minor + 1, 0)));
  }

  /** A term followed by a space and more of the range: the term and the
      rest must both hold. Applied repeatedly, a range of any number of
      terms means the conjunction of its terms. */
  lemma {:induction false} ConjunctionMeaning(a: string, rest: string, v: Version)
    requires |a| > 0 && ' ' !in a
    ensures SatisfiesRange(v, a + " " + rest) <==> SatisfiesRange(v, a) && SatisfiesRange(v, rest)
  {
    var ws := Words(rest);
    WordsAfterWord(a, rest);
    SingleTerm(a, v);
    assert ([a] + ws)[0] == a && ([a] + ws)[1..] == ws;
    match (ParseTerm(a), ParseTerms(ws))
    case (Some(ca), Some(cb)) =>
      assert ParseTerms([a] + ws) == Some(ca + cb);
      SatisfiesAppend(v, ca, cb);
    case (None, _) =>
      assert ParseTerms([a] + ws) == None;
    case (_, None) =>
      assert ParseTerms([a] + ws) == None;
  }

  lemma SatisfiesAppend(v: Version, ca: seq<Comparator>, cb: seq<Comparator>)
    ensures Satisfies(v, ca + cb) <==> Satisfies(v, ca) && Satisfies(v, cb)
  {
    if Satisfies(v, ca + cb) {
      forall i | 0 <= i < |ca| ensures Holds(v, ca[i]) {
        assert (ca + cb)[i] == ca[i];
      }
      forall i | 0 <= i < |cb| ensures Holds(v, cb[i]) {
        assert (ca + cb)[|ca| + i] == cb[i];
      }
    }
  }

  /** Below the caret's upper bound and at or above `b` is being compatible with `b`. */
  lemma CaretBounds(b: Version, v: Version)
    ensures (!Less(v, b) && Less(v, CaretUpper(b))) <==> (!Less(v, b) && Compatible(v, b))
  {
  }

  lemma SatisfiesOne(v: Version, c: Comparator)
    ensures Satisfies(v, [c]) <==> Holds(v, c)
  {
    assert [c][0] == c;
  }

  lemma SatisfiesTwo(v: Version, c: Comparator, d: Comparator)
    ensures Satisfies(v, [c, d]) <==> Holds(v, c) && Holds(v, d)
  {
    assert [c, d][0] == c && [c, d][1] == d;
  }
}
