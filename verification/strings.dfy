/**
 * The pieces of Python's `str` and `os.path` that the filter relies on:
 * whitespace stripping, ASCII case mapping, suffix tests, `os.path.splitext`
 * and `os.path.join`. Paths follow the POSIX flavour (`/` is the only
 * separator) and characters are taken to be ASCII.
 */
module Strings {

  /** Python's `str.isspace()` on ASCII: tab, line feed, vertical tab, form
      feed, carriage return, the separators 0x1C-0x1F, and space. */
  predicate IsSpace(c: char) {
    9 <= c as int <= 13 || 28 <= c as int <= 32
  }

  /** Every character of `s` from index `lo` up to (not including) `hi` is whitespace. */
  predicate BlankBetween(s: string, lo: int, hi: int)
    requires 0 <= lo && hi <= |s|
  {
    forall k :: lo <= k < hi ==> IsSpace(s[k])
  }

  predicate AllSpace(s: string) {
    BlankBetween(s, 0, |s|)
  }

  /** The index of the first non-blank character of `s` at or after `from`,
      or `|s|` when there is none. */
  function SkipBlanks(s: string, from: nat): (k: nat)
    requires from <= |s|
    ensures from <= k <= |s| && BlankBetween(s, from, k)
    ensures k < |s| ==> !IsSpace(s[k])
    decreases |s| - from
  {
    if from == |s| || !IsSpace(s[from]) then from else SkipBlanks(s, from + 1)
  }

  /** The end of the last non-blank character of `s` in [lo, end), or `lo`
      when there is none. */
  function BackBlanks(s: string, lo: nat, end: nat): (k: nat)
    requires lo <= end <= |s|
    ensures lo <= k <= end && BlankBetween(s, k, end)
    ensures k > lo ==> !IsSpace(s[k - 1])
  {
    if end == lo || !IsSpace(s[end - 1]) then end else BackBlanks(s, lo, end - 1)
  }

  /** `s.strip()`: `s` with whitespace removed from both ends. */
  function Strip(s: string): (r: string)
    ensures exists i :: 0 <= i <= |s| - |r| && r == s[i..i + |r|] && BlankBetween(s, 0, i) && BlankBetween(s, i + |r|, |s|)
    ensures r != [] ==> !IsSpace(r[0]) && !IsSpace(r[|r| - 1])
  {
    var lo := SkipBlanks(s, 0);
    var hi := BackBlanks(s, lo, |s|);
    s[lo..hi]
  }

  /** Stripping yields the empty string exactly for blank input. */
  lemma {:induction false} StripBlank(s: string)
    ensures Strip(s) == [] <==> AllSpace(s)
  {
    var lo := SkipBlanks(s, 0);
    var hi := BackBlanks(s, lo, |s|);
    assert Strip(s) == s[lo..hi];
  }

  /** `s.strip()` is the only piece of `s` with blank surroundings and
      non-blank ends: any such piece is what stripping returns. */
  lemma {:induction false} StripUnique(s: string, r: string, i: nat)
    requires i + |r| <= |s| && r == s[i..i + |r|]
    requires BlankBetween(s, 0, i) && BlankBetween(s, i + |r|, |s|)
    requires r != [] ==> !IsSpace(r[0]) && !IsSpace(r[|r| - 1])
    ensures Strip(s) == r
  {
    var lo := SkipBlanks(s, 0);
    var hi := BackBlanks(s, lo, |s|);
    assert Strip(s) == s[lo..hi];
    if r != [] {
      assert s[i] == r[0] && s[i + |r| - 1] == r[|r| - 1];
      assert lo == i;
      assert hi == i + |r|;
    }
  }

  /** Blanks added on either side do not change what stripping returns. */
  lemma {:induction false} StripPadded(x: string, left: string, right: string)
    requires AllSpace(left) && AllSpace(right)
    ensures Strip(left + x + right) == Strip(x)
  {
    var r := Strip(x);
    var i :| 0 <= i <= |x| - |r| && r == x[i..i + |r|] && BlankBetween(x, 0, i) && BlankBetween(x, i + |r|, |x|);
    var s := left + x + right;
    var i' := |left| + i;
    assert BlankBetween(s, 0, i') by { BlankAround(left, x, right, 0, i); }
    assert BlankBetween(s, i' + |r|, |s|) by { BlankAround(left, x, right, i + |r|, |x|); }
    assert s[i'..i' + |r|] == r by { SliceOfPadded(left, x, right, i, i + |r|); }
    StripUnique(s, r, i');
  }

  /** A piece of `x` is the same piece of `x` padded on either side. */
  lemma {:induction false} SliceOfPadded(left: string, x: string, right: string, lo: nat, hi: nat)
    requires lo <= hi <= |x|
    ensures (left + x + right)[|left| + lo..|left| + hi] == x[lo..hi]
  {
    var s := left + x + right;
    assert forall k :: 0 <= k < |x| ==> s[|left| + k] == x[k];
  }

  /** Padding `x` with blanks on both sides keeps the blanks of `x` and
      extends a run of them that touches either end. */
  lemma {:induction false} BlankAround(left: string, x: string, right: string, lo: nat, hi: nat)
    requires AllSpace(left) && AllSpace(right)
    requires lo <= hi <= |x| && BlankBetween(x, lo, hi)
    ensures var s := left + x + right;
      BlankBetween(s, if lo == 0 then 0 else |left| + lo, if hi == |x| then |s| else |left| + hi)
  {
    var s := left + x + right;
    var from := if lo == 0 then 0 else |left| + lo;
    var to := if hi == |x| then |s| else |left| + hi;
    forall k | from <= k < to ensures IsSpace(s[k]) {
      if k < |left| {
        assert s[k] == left[k];
      } else if k < |left| + |x| {
        assert s[k] == x[k - |left|];
      } else {
        assert s[k] == right[k - |left| - |x|];
      }
    }
  }

  /** Stripping twice is stripping once. */
  lemma {:induction false} StripIdempotent(s: string)
    ensures Strip(Strip(s)) == Strip(s)
  {
    var r := Strip(s);
    StripUnique(r, r, 0);
  }

  function ToUpper(c: char): char {
    if 'a' <= c <= 'z' then (c as int - 32) as char else c
  }

  function ToLower(c: char): char {
    if 'A' <= c <= 'Z' then (c as int + 32) as char else c
  }

  /** `s.upper()` on ASCII. */
  function Upper(s: string): string {
    seq(|s|, i requires 0 <= i < |s| => ToUpper(s[i]))
  }

  lemma {:induction false} UpperConcat(a: string, b: string)
    ensures Upper(a + b) == Upper(a) + Upper(b)
  {
  }

  lemma {:induction false} UpperBlank(a: string)
    requires AllSpace(a)
    ensures Upper(a) == a
  {
    forall k | 0 <= k < |a| ensures Upper(a)[k] == a[k] {
      assert IsSpace(a[k]);
    }
  }

  /** Upper-casing leaves blank padding as it is. */
  lemma {:induction false} UpperPadded(x: string, left: string, right: string)
    requires AllSpace(left) && AllSpace(right)
    ensures Upper(left + x + right) == left + Upper(x) + right
  {
    UpperConcat(left + x, right);
    UpperConcat(left, x);
    UpperBlank(left);
    UpperBlank(right);
  }

  /** What `upper()` gives: a string of the same length with no lower-case
      letter left, each character equal to the original up to case. */
  lemma {:induction false} UpperMeaning(s: string)
    ensures |Upper(s)| == |s|
    ensures forall i :: 0 <= i < |s| ==> !('a' <= Upper(s)[i] <= 'z') && ToLower(Upper(s)[i]) == ToLower(s[i])
  {
  }

  /** What `lower()` gives: a string of the same length with no upper-case
      letter left, each character equal to the original up to case. */
  lemma {:induction false} LowerMeaning(s: string)
    ensures |Lower(s)| == |s|
    ensures forall i :: 0 <= i < |s| ==> !('A' <= Lower(s)[i] <= 'Z') && ToUpper(Lower(s)[i]) == ToUpper(s[i])
  {
  }

  /** Upper-casing a lower-cased string is upper-casing the original. */
  lemma {:induction false} UpperOfLower(s: string)
    ensures Upper(Lower(s)) == Upper(s)
  {
  }

  /** `s.lower()` on ASCII. */
  function Lower(s: string): string {
    seq(|s|, i requires 0 <= i < |s| => ToLower(s[i]))
  }

  /** `s.endswith(suffix)`. */
  predicate EndsWith(s: string, suffix: string) {
    |suffix| <= |s| && s[|s| - |suffix|..] == suffix
  }

  /** `s.rfind(c)`: the last index holding `c`, or -1. */
  function RFind(s: string, c: char): (r: int)
    ensures -1 <= r < |s|
    ensures r >= 0 ==> s[r] == c
    ensures forall k :: r < k < |s| ==> s[k] != c
  {
    if s == [] then -1
    else if s[|s| - 1] == c then |s| - 1
    else RFind(s[..|s| - 1], c)
  }

  /** Every character of `p` from `lo` up to (not including) `hi` is a dot. */
  predicate OnlyDots(p: string, lo: int, hi: int)
    requires 0 <= lo <= hi <= |p|
    decreases hi - lo
  {
    lo == hi || (p[lo] == '.' && OnlyDots(p, lo + 1, hi))
  }

  /**
   * `os.path.splitext(p)` (POSIX): the last `.` after the last `/` starts the
   * extension, unless everything between that `/` and the dot is dots, so a
   * leading dot does not count. The pair is (root, extension).
   */
  function SplitExt(p: string): (r: (string, string))
    ensures r.0 + r.1 == p
    ensures r.1 == [] || (r.1[0] == '.' && forall k :: 0 < k < |r.1| ==> r.1[k] != '.' && r.1[k] != '/')
    ensures p != [] ==> r.0 != []
    ensures r.1 != [] <==> exists q, d :: 0 <= q < d < |p| && p[q] != '.' && p[d] == '.' && NoSlashFrom(p, q)
  {
    var sepIndex := RFind(p, '/');
    var dotIndex := RFind(p, '.');
    if dotIndex > sepIndex then
      OnlyDotsAll(p, sepIndex + 1, dotIndex);
      if !OnlyDots(p, sepIndex + 1, dotIndex) then
        assert p[..dotIndex] + p[dotIndex..] == p;
        var q :| sepIndex + 1 <= q < dotIndex && p[q] != '.';
        assert NoSlashFrom(p, q);
        (p[..dotIndex], p[dotIndex..])
      else
        (p, [])
    else
      (p, [])
  }

  /** No character of `p` at or after `q` is a `/`: `q` lies in the last
      path component. */
  predicate NoSlashFrom(p: string, q: int)
    requires 0 <= q
  {
    forall k :: q <= k < |p| ==> p[k] != '/'
  }

  lemma {:induction false} OnlyDotsAll(p: string, lo: int, hi: int)
    requires 0 <= lo <= hi <= |p|
    ensures OnlyDots(p, lo, hi) <==> forall k :: lo <= k < hi ==> p[k] == '.'
    decreases hi - lo
  {
    if lo < hi {
      OnlyDotsAll(p, lo + 1, hi);
    }
  }

  /** `os.path.splitext(p)[0]`. */
  function Stem(p: string): string {
    SplitExt(p).0
  }

  /** Only the last extension is removed: a stem can keep an extension of its own. */
  lemma {:induction false} StemStripsOnlyLast()
    ensures Stem("a.tar.gz") == "a.tar"
    ensures Stem(Stem("a.tar.gz")) == "a"
  {
    assert RFind("a.tar.gz", '/') == -1;
    assert RFind("a.tar.gz", '.') == 5;
    assert ("a.tar.gz")[0] != '.';
    assert RFind("a.tar", '/') == -1;
    var stem := "a.tar";
    assert stem[1] == '.' && stem[2] != '.' && stem[3] != '.' && stem[4] != '.';
    assert RFind(stem, '.') == 1;
    assert ("a.tar")[0] != '.';
  }

  /** A name whose only dot is its first character (".bashrc", ".tif") has no extension. */
  lemma {:induction false} LeadingDotIsNotExtension(name: string)
    requires name != [] && name[0] == '.'
    requires forall k :: 0 < k < |name| ==> name[k] != '.'
    ensures SplitExt(name) == (name, [])
  {
    var dotIndex := RFind(name, '.');
    assert dotIndex == 0;
  }

  /** What joining gives: the result ends in `b`; an absolute `b` is the
      result; otherwise the result starts with `a`, adds at most one
      character between them, and the joint is a `/` when `a` is not empty. */
  lemma {:induction false} JoinShape(a: string, b: string)
    ensures EndsWith(Join(a, b), b)
    ensures |b| > 0 && b[0] == '/' ==> Join(a, b) == b
    ensures !(|b| > 0 && b[0] == '/') ==>
              var r := Join(a, b);
              && |r| == |a| + |b| + (if a == [] || a[|a| - 1] == '/' then 0 else 1)
              && r[..|a|] == a && (a != [] ==> r[|r| - |b| - 1] == '/')
  {
  }

  /** `os.path.join(a, b)` (POSIX): an absolute `b` replaces `a`; otherwise
      one `/` is put between them unless `a` is empty or already ends in one. */
  function Join(a: string, b: string): string {
    if |b| > 0 && b[0] == '/' then b
    else if a == [] || a[|a| - 1] == '/' then a + b
    else a + "/" + b
  }
}
