/**
 * The string operations the pipeline relies on, over ASCII text: Python's
 * `str.strip`, `str.lower`, prefix and substring tests, and the code-point order Python uses to compare and sort strings.
 */
module Text {

  /** The ASCII characters Python's `str.isspace` accepts: space, \t \n \v \f \r and \x1c-\x1f. */
  predicate IsSpace(c: char) {
    c == ' ' || '\t' <= c <= '\r' || '\U{1C}' <= c <= '\U{1F}'
  }

  predicate AllSpace(s: string) {
    forall i :: 0 <= i < |s| ==> IsSpace(s[i])
  }

  /** A string that `strip` leaves alone: empty, or starting and ending with a non-space. */
  predicate Trimmed(s: string) {
    s == [] || (!IsSpace(s[0]) && !IsSpace(s[|s| - 1]))
  }

  predicate IsUpper(c: char) {
    'A' <= c <= 'Z'
  }

  function LowerChar(c: char): char {
    if IsUpper(c) then (c as int + 32) as char else c
  }

  /** Python's `str.lower` on ASCII text. */
  function Lower(s: string): (r: string)
    ensures |r| == |s|
    ensures forall i :: 0 <= i < |r| ==> !IsUpper(r[i])
    ensures forall i :: 0 <= i < |s| && !IsUpper(s[i]) ==> r[i] == s[i]
  {
    seq(|s|, i requires 0 <= i < |s| => LowerChar(s[i]))
  }

  /** Lower-casing twice is lower-casing once. */
  lemma LowerTwice(s: string)
    ensures Lower(Lower(s)) == Lower(s)
  {
    var once := Lower(s);
    assert forall i :: 0 <= i < |once| ==> Lower(once)[i] == once[i];
  }

  /** Leading whitespace removed. */
  function StripLeft(s: string): (r: string)
    ensures |r| <= |s| && r == s[|s| - |r|..]
    ensures forall i :: 0 <= i < |s| - |r| ==> IsSpace(s[i])
    ensures r == [] || !IsSpace(r[0])
    decreases |s|
  {
    if s != [] && IsSpace(s[0]) then
      var r := StripLeft(s[1..]);
      assert s[|s| - |r|..] == s[1..][|s| - 1 - |r|..];
      r
    else s
  }

  /** Trailing whitespace removed. */
  function StripRight(s: string): (r: string)
    ensures r <= s
    ensures AllSpace(s[|r|..])
    ensures r == [] || !IsSpace(r[|r| - 1])
    decreases |s|
  {
    if s != [] && IsSpace(s[|s| - 1]) then
      var r := StripRight(s[..|s| - 1]);
      assert s[|r|..] == s[..|s| - 1][|r|..] + [s[|s| - 1]];
      r
    else s
  }

  /** Python's `str.strip()`: whitespace removed at both ends. */
  function Strip(s: string): (r: string)
    ensures Trimmed(r)
    ensures |r| <= |s|
  {
    StripRight(StripLeft(s))
  }

  lemma {:induction false} StripLeftPadded(w: string, u: string)
    requires AllSpace(w)
    requires u == [] || !IsSpace(u[0])
    ensures StripLeft(w + u) == u
    decreases |w|
  {
    if w != [] {
      assert (w + u)[1..] == w[1..] + u;
      StripLeftPadded(w[1..], u);
    }
  }

  lemma {:induction false} StripRightPadded(u: string, w: string)
    requires AllSpace(w)
    requires u == [] || !IsSpace(u[|u| - 1])
    ensures StripRight(u + w) == u
    decreases |w|
  {
    if w != [] {
      assert (u + w)[..|u + w| - 1] == u + w[..|w| - 1];
      StripRightPadded(u, w[..|w| - 1]);
    } else {
      assert u + w == u;
    }
  }

  /**
   * `strip` removes exactly the surrounding whitespace: a trimmed text with any
   * whitespace padding on either side strips back to that text.
   */
  lemma StripRemovesPadding(w1: string, t: string, w2: string)
    requires AllSpace(w1) && AllSpace(w2) && Trimmed(t)
    ensures Strip(w1 + t + w2) == t
  {
    if t == [] {
      assert w1 + t + w2 == (w1 + w2) + [];
      StripLeftPadded(w1 + w2, []);
    } else {
      assert w1 + t + w2 == w1 + (t + w2);
      StripLeftPadded(w1, t + w2);
      StripRightPadded(t, w2);
    }
  }

  /** A prefix of `s` that ends in a non-space survives `StripRight`. */
  lemma {:induction false} StripRightKeeps(s: string, k: nat)
    requires k < |s| && !IsSpace(s[k])
    ensures k < |StripRight(s)|
    decreases |s|
  {
    if IsSpace(s[|s| - 1]) {
      StripRightKeeps(s[..|s| - 1], k);
    }
  }

  /** A prefix ending in a non-space is a prefix of a text exactly when it is one of the text with trailing whitespace removed. */
  lemma StripRightPrefix(t: string, p: string)
    requires p != [] && !IsSpace(p[|p| - 1])
    ensures p <= StripRight(t) <==> p <= t
  {
    var u := StripRight(t);
    if p <= t {
      StripRightKeeps(t, |p| - 1);
      assert u[..|p|] == t[..|p|];
    }
    if p <= u {
      assert t[..|p|] == u[..|p|];
    }
  }

  /** `needle` occurs as a contiguous piece of `hay` (Python's `needle in hay`). */
  predicate IsSubstring(needle: string, hay: string)
    decreases |hay|
  {
    needle <= hay || (hay != [] && IsSubstring(needle, hay[1..]))
  }

  /** Case-insensitive containment of a literal term, as `re.IGNORECASE` treats ASCII letters. */
  predicate ContainsIgnoringCase(hay: string, term: string) {
    IsSubstring(Lower(term), Lower(hay))
  }

  /** Python's string order: code point by code point, a proper prefix first. */
  predicate LexLe(a: string, b: string) {
    a == [] || (b != [] && (a[0] < b[0] || (a[0] == b[0] && LexLe(a[1..], b[1..]))))
  }

  lemma {:induction false} LexLeTotal(a: string, b: string)
    ensures LexLe(a, b) || LexLe(b, a)
  {
    if a != [] && b != [] && a[0] == b[0] {
      LexLeTotal(a[1..], b[1..]);
    }
  }

  lemma {:induction false} LexLeTransitive(a: string, b: string, c: string)
    requires LexLe(a, b) && LexLe(b, c)
    ensures LexLe(a, c)
  {
    if a != [] && a[0] == b[0] && b[0] == c[0] {
      LexLeTransitive(a[1..], b[1..], c[1..]);
    }
  }

  /** A piece of `hay` found at position `k` is a substring of it. */
  lemma {:induction false} SubstringAt(needle: string, hay: string, k: nat)
    requires k + |needle| <= |hay| && hay[k..k + |needle|] == needle
    ensures IsSubstring(needle, hay)
    decreases k
  {
    if k > 0 {
      assert hay[1..][k - 1..k - 1 + |needle|] == needle;
      SubstringAt(needle, hay[1..], k - 1);
    }
  }

  /** Every character of a substring occurs in the text containing it. */
  lemma {:induction false} SubstringCharacters(needle: string, hay: string)
    requires IsSubstring(needle, hay)
    ensures forall c :: c in needle ==> c in hay
    decreases |hay|
  {
    if !(needle <= hay) {
      SubstringCharacters(needle, hay[1..]);
    }
  }

  /** A letter occurs in the lower-cased text only if it occurs in the text in one of its cases. */
  lemma LowerCharacters(s: string, c: char)
    requires 'a' <= c <= 'z'
    requires c in Lower(s)
    ensures c in s || ((c as int - 32) as char) in s
  {
    var i :| 0 <= i < |s| && Lower(s)[i] == c;
    if !IsUpper(s[i]) {
      assert s[i] == c;
    } else {
      assert s[i] == (c as int - 32) as char;
    }
  }
}
