/** Whitespace trimming as done by Go's strings.TrimSpace, on strings of
    Unicode code points. As in Go, TrimSpace is trimming by a character
    class (strings.TrimFunc) with the class unicode.IsSpace: find where the
    leading run of the class ends and where the trailing run starts, and
    slice between them. The facts about trimming are proved for any class. */
module Text {

  /** The white-space code points of Go's unicode.IsSpace: the ASCII ones
      '\t', '\n', '\v', '\f', '\r', ' ', the Latin-1 ones U+0085 (NEL) and
      U+00A0 (NBSP), and the remaining code points with the Unicode
      White_Space property. */
  predicate IsSpace(c: char)
  {
    c in WhiteSpace
  }

  const WhiteSpace: set<char> := {
    ' ', '\t', '\n', '\U{000B}', '\U{000C}', '\r', '\U{0085}', '\U{00A0}', '\U{1680}',
    '\U{2000}', '\U{2001}', '\U{2002}', '\U{2003}', '\U{2004}', '\U{2005}', '\U{2006}',
    '\U{2007}', '\U{2008}', '\U{2009}', '\U{200A}',
    '\U{2028}', '\U{2029}', '\U{202F}', '\U{205F}', '\U{3000}'
  }

  /** Every character of `s` from position `lo` up to `hi` is in the class `f`. */
  predicate AllIn(s: string, f: char -> bool, lo: nat, hi: nat)
    requires lo <= hi <= |s|
  {
    forall k :: lo <= k < hi ==> f(s[k])
  }

  /** `s` neither starts nor ends with a character of the class `f`. */
  predicate IsTrimmedBy(s: string, f: char -> bool)
  {
    s == [] || (!f(s[0]) && !f(s[|s| - 1]))
  }

  /** Scanning right from `i`: the end of the run of characters of `f` that
      starts at `i`. */
  function LeadingEnd(s: string, f: char -> bool, i: nat): (e: nat)
    requires i <= |s|
    ensures i <= e <= |s|
    ensures AllIn(s, f, i, e)
    ensures e == |s| || !f(s[e])
    decreases |s| - i
  {
    if i < |s| && f(s[i]) then LeadingEnd(s, f, i + 1) else i
  }

  /** Scanning left from `j`, not past `lo`: the start of the run of
      characters of `f` that ends at `j`. */
  function TrailingStart(s: string, f: char -> bool, lo: nat, j: nat): (b: nat)
    requires lo <= j <= |s|
    ensures lo <= b <= j
    ensures AllIn(s, f, b, j)
    ensures b == lo || !f(s[b - 1])
  {
    if lo < j && f(s[j - 1]) then TrailingStart(s, f, lo, j - 1) else j
  }

  /** Go's strings.TrimFunc: TrimRightFunc of TrimLeftFunc, the slice of `s`
      between its leading and its trailing run of characters of `f`. */
  function TrimFunc(s: string, f: char -> bool): (r: string)
    ensures |r| <= |s|
    ensures IsTrimmedBy(r, f)
    ensures exists i, j :: 0 <= i <= j <= |s| && AllIn(s, f, 0, i) && AllIn(s, f, j, |s|) && r == s[i..j]
  {
    var i := LeadingEnd(s, f, 0);
    s[i..TrailingStart(s, f, i, |s|)]
  }

  /** Go's strings.TrimSpace: `s` with leading and trailing white space removed. */
  function TrimSpace(s: string): (r: string)
    ensures |r| <= |s|
    ensures IsTrimmedBy(r, IsSpace)
    ensures exists i, j :: 0 <= i <= j <= |s| && AllIn(s, IsSpace, 0, i) && AllIn(s, IsSpace, j, |s|) && r == s[i..j]
  {
    TrimFunc(s, IsSpace)
  }

  /** The leading run ends exactly at the first character outside `f`: it
      follows from the contract of LeadingEnd, which pins the end down. */
  lemma LeadingEndUnique(s: string, f: char -> bool, i: nat, e: nat)
    requires i <= e <= |s| && AllIn(s, f, i, e)
    requires e == |s| || !f(s[e])
    ensures LeadingEnd(s, f, i) == e
  {
  }

  /** The trailing run starts exactly after the last character outside `f`,
      again by the contract of TrailingStart alone. */
  lemma TrailingStartUnique(s: string, f: char -> bool, lo: nat, b: nat, j: nat)
    requires lo <= b <= j <= |s| && AllIn(s, f, b, j)
    requires b == lo || !f(s[b - 1])
    ensures TrailingStart(s, f, lo, j) == b
  {
  }

  /** Trimming is characterised uniquely: any split of `s` into characters of
      `f`, a middle that neither starts nor ends with one, and characters of
      `f` has the trimmed string as its middle. */
  lemma TrimFuncUnique(s: string, f: char -> bool, i: nat, j: nat)
    requires i <= j <= |s|
    requires AllIn(s, f, 0, i) && AllIn(s, f, j, |s|)
    requires IsTrimmedBy(s[i..j], f)
    ensures TrimFunc(s, f) == s[i..j]
  {
    if i == j {
      LeadingEndUnique(s, f, 0, |s|);
      TrailingStartUnique(s, f, |s|, |s|, |s|);
    } else {
      assert !f(s[i]) && !f(s[j - 1]) by { assert s[i..j][0] == s[i] && s[i..j][j - i - 1] == s[j - 1]; }
      LeadingEndUnique(s, f, 0, i);
      TrailingStartUnique(s, f, i, j, |s|);
    }
  }

  /** A string that is already trimmed is left as it is. */
  lemma TrimFuncOfTrimmed(s: string, f: char -> bool)
    requires IsTrimmedBy(s, f)
    ensures TrimFunc(s, f) == s
  {
    assert s[0..|s|] == s;
    TrimFuncUnique(s, f, 0, |s|);
  }

  /** Trimming white space twice is the same as trimming it once. */
  lemma TrimSpaceIdempotent(s: string)
    ensures TrimSpace(TrimSpace(s)) == TrimSpace(s)
  {
    TrimFuncOfTrimmed(TrimSpace(s), IsSpace);
  }
}
