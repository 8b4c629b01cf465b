/**
  The string trimming the article schema applies through its `trim: true`
  setters. JavaScript's `String.prototype.trim` strips the ECMAScript
  WhiteSpace and LineTerminator characters from both ends.
 */
module Text {

  /** The ECMAScript WhiteSpace and LineTerminator code points. */
  predicate IsWhitespace(c: char) {
    || ('\U{9}' <= c <= '\U{D}')          // tab, line feed, vertical tab, form feed, carriage return
    || c == ' '
    || c == '\U{A0}'                      // no-break space
    || c == '\U{1680}'                    // ogham space mark
    || ('\U{2000}' <= c <= '\U{200A}')    // en quad .. hair space
    || c == '\U{2028}' || c == '\U{2029}' // line and paragraph separators
    || c == '\U{202F}' || c == '\U{205F}' || c == '\U{3000}'
    || c == '\U{FEFF}'                    // byte order mark
  }

  /** Every character is whitespace. */
  predicate AllWhitespace(s: string) {
    forall i :: 0 <= i < |s| ==> IsWhitespace(s[i])
  }

  /** A string with no whitespace at either end. */
  predicate Trimmed(s: string) {
    |s| == 0 || (!IsWhitespace(s[0]) && !IsWhitespace(s[|s| - 1]))
  }

  /** The first position at or after `i` that is not whitespace (`|s|` when there is none). */
  function SkipWhitespace(s: string, i: nat): (k: nat)
    requires i <= |s|
    ensures i <= k <= |s|
    ensures forall j :: i <= j < k ==> IsWhitespace(s[j])
    ensures k < |s| ==> !IsWhitespace(s[k])
    decreases |s| - i
  {
    if i < |s| && IsWhitespace(s[i]) then SkipWhitespace(s, i + 1) else i
  }

  /** The end of `s[lo..j]` once its trailing whitespace is dropped. */
  function SkipWhitespaceBack(s: string, lo: nat, j: nat): (e: nat)
    requires lo <= j <= |s|
    ensures lo <= e <= j
    ensures forall m :: e <= m < j ==> IsWhitespace(s[m])
    ensures e > lo ==> !IsWhitespace(s[e - 1])
  {
    if j > lo && IsWhitespace(s[j - 1]) then SkipWhitespaceBack(s, lo, j - 1) else j
  }

  /** Where the part of `s` that `Trim` keeps starts. */
  function TrimStartIndex(s: string): (a: nat)
    ensures a <= |s|
  {
    SkipWhitespace(s, 0)
  }

  /** Where the part of `s` that `Trim` keeps ends. */
  function TrimEndIndex(s: string): (b: nat)
    ensures TrimStartIndex(s) <= b <= |s|
  {
    SkipWhitespaceBack(s, TrimStartIndex(s), |s|)
  }

  /**
    JavaScript `trim`: the result is trimmed, it is a contiguous slice of `s`,
    and everything of `s` before and after that slice is whitespace.
   */
  function Trim(s: string): (r: string)
    ensures Trimmed(r)
    ensures r == s[TrimStartIndex(s)..TrimEndIndex(s)]
    ensures forall i :: 0 <= i < TrimStartIndex(s) ==> IsWhitespace(s[i])
    ensures forall i :: TrimEndIndex(s) <= i < |s| ==> IsWhitespace(s[i])
  {
    var a := TrimStartIndex(s);
    var b := TrimEndIndex(s);
    assert a < b ==> !IsWhitespace(s[a]) && !IsWhitespace(s[b - 1]);
    s[a..b]
  }

  /** Applies `Trim` to every element, as the schema does for an array of trimmed strings. */
  function TrimAll(ss: seq<string>): (r: seq<string>)
    ensures |r| == |ss|
    ensures forall i :: 0 <= i < |r| ==> r[i] == Trim(ss[i])
    ensures forall i :: 0 <= i < |r| ==> Trimmed(r[i])
  {
    seq(|ss|, i requires 0 <= i < |ss| => Trim(ss[i]))
  }

  /** Trimming leaves an already trimmed string alone, and only such strings. */
  lemma TrimFixesExactlyTrimmed(s: string)
    ensures Trim(s) == s <==> Trimmed(s)
  {
    if Trimmed(s) && |s| > 0 {
      assert TrimStartIndex(s) == 0;
      assert TrimEndIndex(s) == |s|;
    }
  }

  /** Trimming twice is trimming once. */
  lemma TrimIdempotent(s: string)
    ensures Trim(Trim(s)) == Trim(s)
  {
    TrimFixesExactlyTrimmed(Trim(s));
  }

  /** A string trims to the empty string exactly when it is all whitespace. */
  lemma TrimEmptyIffAllWhitespace(s: string)
    ensures |Trim(s)| == 0 <==> AllWhitespace(s)
  {
    var a := TrimStartIndex(s);
    if a < |s| {
      assert !IsWhitespace(s[a]);
      assert TrimEndIndex(s) > a;
    }
  }
}
