/**
 * The string operations the wheel's entry list relies on: JavaScript's
 * `String.prototype.trim` and `String.prototype.replace` with a one-character
 * string pattern (which replaces the FIRST occurrence only).
 *
 * Strings are sequences of Unicode scalar values; every character JavaScript's
 * `trim` removes lies in the Basic Multilingual Plane, so a UTF-16 code unit
 * and a scalar value coincide for all the characters these functions inspect.
 */
module Text {

  /** The characters `trim` strips: ECMAScript WhiteSpace (TAB, VT, FF, SP,
      NBSP, ZWNBSP and the Unicode Zs category) and LineTerminator (LF, CR,
      LS, PS). */
  predicate IsWhite(c: char) {
    || c == '\t' || c == '\n' || c == '\U{B}' || c == '\U{C}' || c == '\r'
    || c == ' ' || c == '\U{A0}' || c == '\U{1680}'
    || ('\U{2000}' <= c <= '\U{200A}')
    || c == '\U{2028}' || c == '\U{2029}' || c == '\U{202F}'
    || c == '\U{205F}' || c == '\U{3000}' || c == '\U{FEFF}'
  }

  predicate AllWhite(s: string) {
    forall k :: 0 <= k < |s| ==> IsWhite(s[k])
  }

  /** Neither end of `t` is white space: `t` is a fixed point of trimming. */
  predicate IsTrimmed(t: string) {
    t == [] || (!IsWhite(t[0]) && !IsWhite(t[|t| - 1]))
  }

  /** Every character of `s` before `i` and from `j` on is white space. */
  predicate WhiteOutside(s: string, i: nat, j: nat)
    requires i <= j <= |s|
  {
    && (forall m :: 0 <= m < i ==> IsWhite(s[m]))
    && (forall m :: j <= m < |s| ==> IsWhite(s[m]))
  }

  /** `s` is `t` with white space (possibly none) added at both ends. */
  predicate WhiteFramed(s: string, t: string) {
    exists i, j :: 0 <= i <= j <= |s| && s[i..j] == t && WhiteOutside(s, i, j)
  }

  /** The index of the first non-white character at or after `i`, or `|s|`. */
  function TextStart(s: string, i: nat): (k: nat)
    requires i <= |s|
    ensures i <= k <= |s|
    ensures forall m :: i <= m < k ==> IsWhite(s[m])
    ensures k < |s| ==> !IsWhite(s[k])
    decreases |s| - i
  {
    if i < |s| && IsWhite(s[i]) then TextStart(s, i + 1) else i
  }

  /** The index just past the last non-white character before `j`, but no
      lower than `lo`. */
  function TextEnd(s: string, lo: nat, j: nat): (k: nat)
    requires lo <= j <= |s|
    ensures lo <= k <= j
    ensures forall m :: k <= m < j ==> IsWhite(s[m])
    ensures lo < k ==> !IsWhite(s[k - 1])
    decreases j
  {
    if lo < j && IsWhite(s[j - 1]) then TextEnd(s, lo, j - 1) else j
  }

  /** JavaScript's `s.trim()`. */
  function Trim(s: string): (r: string)
    ensures IsTrimmed(r)
    ensures WhiteFramed(s, r)
  {
    var i := TextStart(s, 0);
    var j := TextEnd(s, i, |s|);
    assert WhiteOutside(s, i, j);
    s[i..j]
  }

  lemma {:induction false} TextStartIs(s: string, i: nat, k: nat)
    requires i <= k <= |s|
    requires forall m :: i <= m < k ==> IsWhite(s[m])
    requires k < |s| ==> !IsWhite(s[k])
    ensures TextStart(s, i) == k
    decreases k - i
  {
    if i < k {
      TextStartIs(s, i + 1, k);
    }
  }

  lemma {:induction false} TextEndIs(s: string, lo: nat, j: nat, k: nat)
    requires lo <= k <= j <= |s|
    requires forall m :: k <= m < j ==> IsWhite(s[m])
    requires lo < k ==> !IsWhite(s[k - 1])
    ensures TextEnd(s, lo, j) == k
    decreases j - k
  {
    if k < j {
      TextEndIs(s, lo, j - 1, k);
    }
  }

  /** Trimming `s` yields `s[i..j]` when everything outside `i..j` is white
      and neither end of `s[i..j]` is. */
  lemma TrimAt(s: string, i: nat, j: nat)
    requires i <= j <= |s| && WhiteOutside(s, i, j)
    requires i < j ==> !IsWhite(s[i]) && !IsWhite(s[j - 1])
    ensures Trim(s) == s[i..j]
  {
    if i == j {
      TextStartIs(s, 0, |s|);
      TextEndIs(s, |s|, |s|, |s|);
    } else {
      TextStartIs(s, 0, i);
      TextEndIs(s, i, |s|, j);
    }
  }

  /** `Trim(s)` is characterised exactly: it is the one trimmed string that
      `s` frames with white space. */
  lemma TrimCharacterization(s: string, t: string)
    ensures Trim(s) == t <==> IsTrimmed(t) && WhiteFramed(s, t)
  {
    if IsTrimmed(t) && WhiteFramed(s, t) {
      var i, j :| 0 <= i <= j <= |s| && s[i..j] == t && WhiteOutside(s, i, j);
      if t != [] {
        assert s[i] == t[0] && s[j - 1] == t[|t| - 1];
      }
      TrimAt(s, i, j);
    }
  }

  /** A trimmed string is left alone by trimming. */
  lemma TrimOfTrimmed(t: string)
    requires IsTrimmed(t)
    ensures Trim(t) == t
  {
    TrimAt(t, 0, |t|);
  }

  /** Trimming twice is trimming once. */
  lemma TrimIdempotent(s: string)
    ensures Trim(Trim(s)) == Trim(s)
  {
    TrimOfTrimmed(Trim(s));
  }

  /** A string of white space alone trims to the empty string, and only such
      strings do. */
  lemma TrimEmptyIffWhite(s: string)
    ensures Trim(s) == [] <==> AllWhite(s)
  {
    if AllWhite(s) {
      TrimAt(s, |s|, |s|);
    }
  }

  /** Index of the first `c` in `s` at or after `i`, or `|s|` when there is
      none. */
  function IndexFrom(s: string, c: char, i: nat): (k: nat)
    requires i <= |s|
    ensures i <= k <= |s|
    ensures forall m :: i <= m < k ==> s[m] != c
    ensures k < |s| ==> s[k] == c
    decreases |s| - i
  {
    if i == |s| || s[i] == c then i else IndexFrom(s, c, i + 1)
  }

  /** Index of the first `c` in `s`, or `|s|` when there is none. */
  function FirstIndex(s: string, c: char): (i: nat)
    ensures i <= |s|
    ensures forall k :: 0 <= k < i ==> s[k] != c
    ensures i < |s| ==> s[i] == c
  {
    IndexFrom(s, c, 0)
  }

  /** `FirstIndex` is the position of the first occurrence. */
  lemma FirstIndexIs(s: string, c: char, i: nat)
    requires i <= |s| && (i < |s| ==> s[i] == c)
    requires forall k :: 0 <= k < i ==> s[k] != c
    ensures FirstIndex(s, c) == i
  {
  }

  /** JavaScript's `s.replace(c, '')` for a one-character pattern: the first
      occurrence of `c` is deleted, and `s` is returned as is when it has none. */
  function RemoveFirst(s: string, c: char): (r: string)
    ensures c !in s ==> r == s
    ensures c in s ==>
      exists i :: 0 <= i < |s| && s[i] == c && (forall k :: 0 <= k < i ==> s[k] != c)
                  && r == s[..i] + s[i + 1..]
  {
    var i := FirstIndex(s, c);
    if i == |s| then s else s[..i] + s[i + 1..]
  }

  /** Removing the first `c` when it sits at position `i`. */
  lemma RemoveFirstAt(s: string, c: char, i: nat)
    requires i < |s| && s[i] == c
    requires forall k :: 0 <= k < i ==> s[k] != c
    ensures RemoveFirst(s, c) == s[..i] + s[i + 1..]
  {
    FirstIndexIs(s, c, i);
  }

  /** Removing a `c` that is appended to a `c`-free string undoes the append. */
  lemma RemoveFirstOfAppended(t: string, c: char)
    requires c !in t
    ensures RemoveFirst(t + [c], c) == t
  {
    var s := t + [c];
    forall k | 0 <= k < |t|
      ensures s[k] != c
    {
      assert s[k] == t[k];
    }
    RemoveFirstAt(s, c, |t|);
    assert s[..|t|] == t;
  }
}
