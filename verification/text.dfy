/** Text helpers the store applies to names: Python's `str.strip()` and the
    BINARY collation SQLite uses for `ORDER BY name`. */
module Text {

  /** The code points Python's `str.isspace` accepts; `str.strip()` with no
      argument removes exactly these from both ends. */
  predicate IsSpace(c: char) {
    || ('\t' <= c <= '\r')
    || ('\U{1C}' <= c <= '\U{1F}')
    || c == ' '
    || c == '\U{85}'
    || c == '\U{A0}'
    || c == '\U{1680}'
    || ('\U{2000}' <= c <= '\U{200A}')
    || c == '\U{2028}'
    || c == '\U{2029}'
    || c == '\U{202F}'
    || c == '\U{205F}'
    || c == '\U{3000}'
  }

  /** `s[i..j]` is what stripping `s` keeps: everything outside is white
      space and, when something is kept, it starts and ends with a
      non-space character. */
  predicate StrippedAt(s: string, i: int, j: int) {
    && 0 <= i <= j <= |s|
    && (forall k :: 0 <= k < i ==> IsSpace(s[k]))
    && (forall k :: j <= k < |s| ==> IsSpace(s[k]))
    && (i < j ==> !IsSpace(s[i]) && !IsSpace(s[j - 1]))
  }

  /** The first index at or after `i` that does not hold white space. */
  function SkipLeft(s: string, i: nat): (n: nat)
    requires i <= |s|
    ensures i <= n <= |s|
    ensures forall k :: i <= k < n ==> IsSpace(s[k])
    ensures n < |s| ==> !IsSpace(s[n])
    decreases |s| - i
  {
    if i < |s| && IsSpace(s[i]) then SkipLeft(s, i + 1) else i
  }

  /** The end of `s[lo..j]` once trailing white space is dropped. */
  function SkipRight(s: string, lo: nat, j: nat): (m: nat)
    requires lo <= j <= |s|
    ensures lo <= m <= j
    ensures forall k :: m <= k < j ==> IsSpace(s[k])
    ensures lo < m ==> !IsSpace(s[m - 1])
    decreases j - lo
  {
    if lo < j && IsSpace(s[j - 1]) then SkipRight(s, lo, j - 1) else j
  }

  /** Python's `s.strip()`: skip white space from the left, then from the
      right down to where the left scan stopped. */
  function Strip(s: string): (r: string)
    ensures |r| <= |s|
    ensures r == [] || (!IsSpace(r[0]) && !IsSpace(r[|r| - 1]))
    ensures exists i, j :: StrippedAt(s, i, j) && r == s[i..j]
  {
    var i := SkipLeft(s, 0);
    var j := SkipRight(s, i, |s|);
    assert StrippedAt(s, i, j);
    s[i..j]
  }

  /** `Strip` keeps a cut of `s` meeting the stripping conditions. */
  lemma StripCut(s: string) returns (i: nat, j: nat)
    ensures StrippedAt(s, i, j)
    ensures Strip(s) == s[i..j]
  {
    i := SkipLeft(s, 0);
    j := SkipRight(s, i, |s|);
  }

  /** Any cut that satisfies the stripping conditions keeps the same text. */
  lemma StrippedAtUnique(s: string, i: int, j: int, i': int, j': int)
    requires StrippedAt(s, i, j) && StrippedAt(s, i', j')
    ensures s[i..j] == s[i'..j']
  {
    assert i < j ==> i' <= i < j' && i' <= j - 1 < j';
    assert i' < j' ==> i <= i' < j && i <= j' - 1 < j;
  }

  /** `Strip` is characterised by `StrippedAt`: any cut meeting those
      conditions is the result. */
  lemma StripIsStrippedAt(s: string, i: int, j: int)
    requires StrippedAt(s, i, j)
    ensures Strip(s) == s[i..j]
  {
    var i', j' := StripCut(s);
    StrippedAtUnique(s, i, j, i', j');
  }

  /** Stripping twice is stripping once, so a stored folder name is a fixed
      point of the `create_folder` normalisation. */
  lemma StripIdempotent(s: string)
    ensures Strip(Strip(s)) == Strip(s)
  {
    var t := Strip(s);
    assert StrippedAt(t, 0, |t|);
    StripIsStrippedAt(t, 0, |t|);
  }

  /** Strict lexicographic order by code point. SQLite's BINARY collation
      compares the UTF-8 bytes, and UTF-8 preserves code point order, so
      this is the order of `ORDER BY name`. */
  predicate LexLess(a: string, b: string) {
    if |a| == 0 then |b| > 0
    else |b| > 0 && (a[0] < b[0] || (a[0] == b[0] && LexLess(a[1..], b[1..])))
  }

  lemma {:induction false} LexLessAsymmetric(a: string, b: string)
    ensures !(LexLess(a, b) && LexLess(b, a))
  {
    if |a| > 0 && |b| > 0 && a[0] == b[0] {
      LexLessAsymmetric(a[1..], b[1..]);
    }
  }

  lemma {:induction false} LexLessTransitive(a: string, b: string, c: string)
    requires LexLess(a, b) && LexLess(b, c)
    ensures LexLess(a, c)
  {
    if |a| > 0 && a[0] == b[0] && b[0] == c[0] {
      LexLessTransitive(a[1..], b[1..], c[1..]);
    }
  }

  lemma {:induction false} LexLessTotal(a: string, b: string)
    ensures a == b || LexLess(a, b) || LexLess(b, a)
  {
    if |a| > 0 && |b| > 0 && a[0] == b[0] {
      LexLessTotal(a[1..], b[1..]);
      if a[1..] == b[1..] {
        assert a == [a[0]] + a[1..] && b == [b[0]] + b[1..];
      }
    }
  }
}
