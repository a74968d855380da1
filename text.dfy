/** Character-level helpers shared by the version parser and the specifier
    classifier: searching, prefixes, splitting on spaces, and decimal numerals. */
module Text {
  import opened Wrappers

  /** Index of the first occurrence of `c` in `s`, or `|s|` when `c` does not occur. */
  function Find(s: string, c: char): (r: nat)
    ensures r <= |s|
    ensures r < |s| ==> s[r] == c
    ensures forall k :: 0 <= k < r ==> s[k] != c
  {
    if s == [] then 0
    else if s[0] == c then 0
    else 1 + Find(s[1..], c)
  }

  /** `Find` is pinned down by its contract: the first position holding `c`. */
  lemma FindAt(s: string, c: char, i: nat)
    requires i < |s| && s[i] == c
    requires forall k :: 0 <= k < i ==> s[k] != c
    ensures Find(s, c) == i
  {
  }

  /** In `a`, then `c`, then anything, where `a` lacks `c`: `c` is first found right after `a`. */
  lemma FindAfter(a: string, c: char, rest: string)
    requires c !in a
    ensures Find(a + [c] + rest, c) == |a|
  {
    var s := a + [c] + rest;
    assert forall k :: 0 <= k < |a| ==> s[k] == a[k];
    FindAt(s, c, |a|);
  }

  /** A string is what lies before position `i`, the character there, and what follows. */
  lemma SplitAround(s: string, i: nat)
    requires i < |s|
    ensures s == s[..i] + [s[i]] + s[i + 1..]
  {
  }

  predicate StartsWith(s: string, prefix: string) {
    |prefix| <= |s| && s[..|prefix|] == prefix
  }

  /** The words of `s`: the maximal runs of characters other than a space. */
  function Words(s: string): (ws: seq<string>)
    ensures forall i :: 0 <= i < |ws| ==> |ws[i]| > 0 && ' ' !in ws[i]
    decreases |s|
  {
    if s == [] then []
    else
      var i := Find(s, ' ');
      if i == 0 then Words(s[1..])
      else if i == |s| then [s]
      else [s[..i]] + Words(s[i + 1..])
  }

  /** A single word splits to itself. */
  lemma WordsOfWord(w: string)
    requires |w| > 0 && ' ' !in w
    ensures Words(w) == [w]
  {
    assert Find(w, ' ') == |w|;
  }

  /** A word followed by a space splits into that word and then the words
      of whatever follows. */
  lemma {:induction false} WordsAfterWord(a: string, rest: string)
    requires |a| > 0 && ' ' !in a
    ensures Words(a + " " + rest) == [a] + Words(rest)
  {
    var s := a + " " + rest;
    FindAt(s, ' ', |a|);
    assert s[..|a|] == a;
    assert s[|a| + 1..] == rest;
  }

  // ---- decimal numerals ----

  predicate IsDigit(c: char) {
    '0' <= c <= '9'
  }

  predicate AllDigits(t: string) {
    forall k :: 0 <= k < |t| ==> IsDigit(t[k])
  }

  function DigitValue(c: char): (d: nat)
    requires IsDigit(c)
    ensures d < 10
  {
    (c as int) - ('0' as int)
  }

  function DigitChar(d: nat): (c: char)
    requires d < 10
    ensures IsDigit(c) && DigitValue(c) == d
  {
    ('0' as int + d) as char
  }

  /** The value of a string of decimal digits, most significant digit first. */
  function DigitsValue(t: string): nat
    requires AllDigits(t)
    decreases |t|
  {
    if t == [] then 0
    else 10 * DigitsValue(t[..|t| - 1]) + DigitValue(t[|t| - 1])
  }

  /** A numeric identifier in the sense of Semantic Versioning 2.0.0,
      section 2: one or more digits, without leading zeroes. */
  predicate IsNumeral(t: string) {
    |t| > 0 && AllDigits(t) && (t[0] == '0' ==> |t| == 1)
  }

  /** The canonical decimal numeral of `n`. */
  function NatToString(n: nat): (s: string)
    ensures IsNumeral(s)
    ensures DigitsValue(s) == n
    ensures n < 10 <==> |s| == 1
  {
    if n < 10 then [DigitChar(n)]
    else
      var s := NatToString(n / 10) + [DigitChar(n % 10)];
      assert s[..|s| - 1] == NatToString(n / 10);
      s
  }

  /** A numeral without a leading zero has a positive value unless it is "0". */
  lemma {:induction false} NumeralPositive(t: string)
    requires |t| > 0 && AllDigits(t) && t[0] != '0'
    ensures DigitsValue(t) >= 1
  {
    if |t| > 1 {
      var p := t[..|t| - 1];
      assert p[0] == t[0];
      NumeralPositive(p);
    }
  }

  /** Every numeral is the canonical rendering of its own value. */
  lemma {:induction false} NumeralCanonical(t: string)
    requires IsNumeral(t)
    ensures NatToString(DigitsValue(t)) == t
  {
    var last := t[|t| - 1];
    if |t| == 1 {
      assert DigitChar(DigitValue(last)) == last;
    } else {
      var p := t[..|t| - 1];
      assert p[0] == t[0];
      NumeralPositive(p);
      NumeralCanonical(p);
      var n := DigitsValue(t);
      assert n / 10 == DigitsValue(p) && n % 10 == DigitValue(last);
      assert DigitChar(DigitValue(last)) == last;
      assert t == p + [last];
    }
  }

  /** Reads a numeric identifier; anything else (empty, a non-digit, a
      leading zero) is rejected. */
  function ParseNumeral(t: string): (r: Option<nat>)
    ensures r.Some? <==> IsNumeral(t)
    ensures r.Some? ==> NatToString(r.value) == t
  {
    if IsNumeral(t) then
      NumeralCanonical(t);
      Some(DigitsValue(t))
    else None
  }

  /** A numeral holds neither a space nor a dot. */
  lemma NumeralHasNoSeparator(n: nat)
    ensures ' ' !in NatToString(n) && '.' !in NatToString(n)
  {
    var s := NatToString(n);
    assert forall k :: 0 <= k < |s| ==> IsDigit(s[k]);
  }

  /** Rendering a number and reading it back gives the number. */
  lemma NumeralRoundTrip(n: nat)
    ensures ParseNumeral(NatToString(n)) == Some(n)
  {
  }
}
