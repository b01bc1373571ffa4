/**
 * The one piece of the JavaScript string library the menu filter relies on:
 * `String.prototype.trim`, which removes leading and trailing code points that
 * belong to the WhiteSpace or LineTerminator productions of ECMA-262
 * (sections 12.2 and 12.3).
 */
module JsString {

  /** WhiteSpace (TAB, VT, FF, ZWNBSP and every Unicode Zs code point) or LineTerminator (LF, CR, LS, PS). */
  predicate IsJsWhitespace(c: char) {
    || c == '\t' || c == '\U{000B}' || c == '\U{000C}' || c == '\U{FEFF}'
    || c == ' ' || c == '\U{00A0}' || c == '\U{1680}'
    || ('\U{2000}' <= c <= '\U{200A}')
    || c == '\U{202F}' || c == '\U{205F}' || c == '\U{3000}'
    || c == '\n' || c == '\r' || c == '\U{2028}' || c == '\U{2029}'
  }

  /** True when every character of `s` is trimmed away. */
  predicate AllBlank(s: string) {
    forall k :: 0 <= k < |s| ==> IsJsWhitespace(s[k])
  }

  /** Where the text starts: the first index at or after `i` that does not hold a blank (or `|s|`). */
  function SkipBlanks(s: string, i: nat): (j: nat)
    requires i <= |s|
    ensures i <= j <= |s|
    ensures forall k :: i <= k < j ==> IsJsWhitespace(s[k])
    ensures j < |s| ==> !IsJsWhitespace(s[j])
    decreases |s| - i
  {
    if i < |s| && IsJsWhitespace(s[i]) then SkipBlanks(s, i + 1) else i
  }

  /** Where the text ends: the least index `e` in `lo .. j` such that `s[e..j]` is all blanks. */
  function SkipBlanksBack(s: string, lo: nat, j: nat): (e: nat)
    requires lo <= j <= |s|
    ensures lo <= e <= j
    ensures forall k :: e <= k < j ==> IsJsWhitespace(s[k])
    ensures lo < e ==> !IsJsWhitespace(s[e - 1])
    decreases j - lo
  {
    if lo < j && IsJsWhitespace(s[j - 1]) then SkipBlanksBack(s, lo, j - 1) else j
  }

  /**
   * `s.trim()`: the leading blanks are skipped first, then the trailing blanks of what
   * is left. The result is a contiguous piece of `s` that neither starts nor ends with
   * a blank, and everything cut away is blank.
   */
  function Trim(s: string): (r: string)
    ensures SkipBlanks(s, 0) + |r| <= |s|
    ensures r != [] ==> !IsJsWhitespace(r[0]) && !IsJsWhitespace(r[|r| - 1])
    ensures AllBlank(s[..SkipBlanks(s, 0)]) && AllBlank(s[SkipBlanks(s, 0) + |r|..])
    ensures r == s[SkipBlanks(s, 0)..SkipBlanks(s, 0) + |r|]
  {
    var i := SkipBlanks(s, 0);
    var e := SkipBlanksBack(s, i, |s|);
    assert forall k :: 0 <= k < i ==> s[..i][k] == s[k];
    assert forall k :: 0 <= k < |s| - e ==> s[e..][k] == s[e + k];
    s[i..e]
  }

  /** Reference view of a string: its characters other than blanks, in order. */
  function NonBlanks(s: string): (r: string)
    ensures |r| <= |s|
  {
    if s == [] then []
    else if IsJsWhitespace(s[0]) then NonBlanks(s[1..])
    else [s[0]] + NonBlanks(s[1..])
  }

  lemma {:induction false} NonBlanksAppend(a: string, b: string)
    ensures NonBlanks(a + b) == NonBlanks(a) + NonBlanks(b)
  {
    if a != [] {
      assert (a + b)[0] == a[0] && (a + b)[1..] == a[1..] + b;
      NonBlanksAppend(a[1..], b);
    } else {
      assert a + b == b;
    }
  }

  lemma {:induction false} NonBlanksOfBlank(s: string)
    ensures AllBlank(s) <==> NonBlanks(s) == []
  {
    if s != [] {
      NonBlanksOfBlank(s[1..]);
      assert AllBlank(s) <==> IsJsWhitespace(s[0]) && AllBlank(s[1..]);
    }
  }

  /** Trimming never changes which non-blank characters a string holds. */
  lemma {:induction false} TrimKeepsNonBlanks(s: string)
    ensures NonBlanks(Trim(s)) == NonBlanks(s)
  {
    var r := Trim(s);
    var i := SkipBlanks(s, 0);
    var left, right := s[..i], s[i + |r|..];
    assert s == left + r + right;
    NonBlanksAppend(left + r, right);
    NonBlanksAppend(left, r);
    NonBlanksOfBlank(left);
    NonBlanksOfBlank(right);
  }

  /** A trimmed string with at least two characters keeps at least two non-blank ones (its two ends). */
  lemma TrimmedEndsSurvive(r: string)
    requires |r| >= 2
    requires !IsJsWhitespace(r[0]) && !IsJsWhitespace(r[|r| - 1])
    ensures |NonBlanks(r)| >= 2
  {
    assert r == [r[0]] + r[1..|r| - 1] + [r[|r| - 1]];
    NonBlanksAppend([r[0]] + r[1..|r| - 1], [r[|r| - 1]]);
    NonBlanksAppend([r[0]], r[1..|r| - 1]);
  }

  /** `s.trim() === "-"` exactly when the only non-blank character of `s` is a single dash. */
  lemma {:induction false} TrimIsDash(s: string)
    ensures Trim(s) == "-" <==> NonBlanks(s) == "-"
  {
    var r := Trim(s);
    TrimKeepsNonBlanks(s);
    if |r| >= 2 {
      TrimmedEndsSurvive(r);
    } else if |r| == 1 {
      assert NonBlanks(r) == r;
    }
  }

  /** `s.trim() === ""` exactly when `s` is made of blanks only. */
  lemma {:induction false} TrimIsEmpty(s: string)
    ensures Trim(s) == "" <==> AllBlank(s)
  {
    TrimKeepsNonBlanks(s);
    NonBlanksOfBlank(s);
    NonBlanksOfBlank(Trim(s));
  }
}
