/**
 * The handful of Python `str` operations the converter relies on, stated over
 * `seq<char>`: whitespace as `str.isspace` sees it, `strip`, `find`,
 * `split` on a separator, `join` and `replace`.
 */
module Text {

  datatype Option<T> = None | Some(value: T)

  /** The characters for which Python's `str.isspace()` holds; a regular
      expression `\s` in a `str` pattern matches exactly these. */
  predicate IsSpace(c: char) {
    || c == ' '
    || ('\t' <= c <= '\r')
    || ('\U{1C}' <= c <= '\U{1F}')
    || c == '\U{85}'
    || c == '\U{A0}'
    || c == '\U{1680}'
    || ('\U{2000}' <= c <= '\U{200A}')
    || c == '\U{2028}'
    || c == '\U{2029}'
    || c == '\U{202F}'
    || c == '\U{205F}'
    || c == '\U{3000}'
  }

  /** Neither end of `s` is whitespace. */
  predicate IsStripped(s: string) {
    s == [] || (!IsSpace(s[0]) && !IsSpace(s[|s| - 1]))
  }

  /** The index of the first character at or after `p` that is not whitespace
      (the end of `s` when there is none). */
  function SkipSpace(s: string, p: nat): (r: nat)
    ensures p <= r
    ensures p <= |s| ==> r <= |s|
    ensures forall k :: p <= k < r ==> k < |s| && IsSpace(s[k])
    ensures r < |s| ==> !IsSpace(s[r])
    decreases |s| - p
  {
    if p < |s| && IsSpace(s[p]) then SkipSpace(s, p + 1) else p
  }

  /** The index just after the last character before `q` that is not
      whitespace (0 when there is none). */
  function SkipSpaceBack(s: string, q: nat): (r: nat)
    requires q <= |s|
    ensures r <= q
    ensures forall k :: r <= k < q ==> IsSpace(s[k])
    ensures r > 0 ==> !IsSpace(s[r - 1])
  {
    if q > 0 && IsSpace(s[q - 1]) then SkipSpaceBack(s, q - 1) else q
  }

  /** `s.strip()`: `s` with all leading and trailing whitespace removed, and
      nothing else. */
  function Strip(s: string): (r: string)
    ensures IsStripped(r)
    ensures exists i :: TrimmedAt(s, i, r)
    ensures forall c :: c in r ==> c in s
  {
    var i := SkipSpace(s, 0);
    var j := SkipSpaceBack(s, |s|);
    if j <= i then
      assert TrimmedAt(s, i, []);
      []
    else
      var r := s[i..j];
      assert TrimmedAt(s, i, r);
      r
  }

  /** `r` is the slice of `s` at `i` and everything of `s` outside it is whitespace. */
  predicate TrimmedAt(s: string, i: nat, r: string) {
    && i + |r| <= |s|
    && r == s[i..i + |r|]
    && (forall k :: 0 <= k < i ==> IsSpace(s[k]))
    && (forall k :: i + |r| <= k < |s| ==> IsSpace(s[k]))
  }

  /** `lit` occurs in `s` at index `i`. */
  predicate StartsAt(s: string, i: nat, lit: string) {
    i + |lit| <= |s| && s[i..i + |lit|] == lit
  }

  predicate StartsWith(s: string, lit: string) {
    StartsAt(s, 0, lit)
  }

  predicate EndsWith(s: string, lit: string) {
    |lit| <= |s| && s[|s| - |lit|..] == lit
  }

  /** A slice that begins where `lit` occurs starts with `lit`. */
  lemma SliceStartsWith(s: string, i: nat, j: nat, lit: string)
    requires StartsAt(s, i, lit) && i + |lit| <= j <= |s|
    ensures StartsWith(s[i..j], lit)
  {
    assert s[i..j][..|lit|] == s[i..i + |lit|];
  }

  /** A slice that ends where an occurrence of `lit` ends ends with `lit`. */
  lemma SliceEndsWith(s: string, i: nat, j: nat, lit: string)
    requires i + |lit| <= j <= |s| && StartsAt(s, j - |lit|, lit)
    ensures EndsWith(s[i..j], lit)
  {
    assert s[i..j][j - i - |lit|..] == s[j - |lit|..j];
  }

  lemma StartsWithTrans(a: string, b: string, c: string)
    requires StartsWith(a, b) && StartsWith(b, c)
    ensures StartsWith(a, c)
  {
    assert a[..|c|] == a[..|b|][..|c|];
  }

  lemma EndsWithTrans(a: string, b: string, c: string)
    requires EndsWith(a, b) && EndsWith(b, c)
    ensures EndsWith(a, c)
  {
    assert a[|a| - |c|..] == a[|a| - |b|..][|b| - |c|..];
  }

  /** A text is the part before an occurrence, the occurrence, and the rest. */
  lemma CutAt(s: string, i: nat, lit: string)
    requires StartsAt(s, i, lit)
    ensures s == s[..i] + lit + s[i + |lit|..]
  {
    assert s == s[..i] + s[i..i + |lit|] + s[i + |lit|..];
  }

  /** The text up to the end of an occurrence is the text before it and `lit`. */
  lemma PrefixThrough(s: string, i: nat, lit: string)
    requires StartsAt(s, i, lit)
    ensures s[..i + |lit|] == s[..i] + lit
  {
    assert s[..i + |lit|] == s[..i] + s[i..i + |lit|];
  }

  /** `lit in s`, for a literal that is a whole substring. */
  predicate Occurs(s: string, lit: string) {
    exists k: nat | k <= |s| :: StartsAt(s, k, lit)
  }

  /** `k` is the first index at or after `from` where `lit` occurs. */
  predicate FirstAt(s: string, from: nat, lit: string, k: nat) {
    from <= k && StartsAt(s, k, lit) && forall j :: from <= j < k ==> !StartsAt(s, j, lit)
  }

  /** Where `lit` occurs at or after `from`, there is a first such index. */
  lemma {:induction false} FirstExists(s: string, from: nat, lit: string, k: nat)
    requires from <= k && StartsAt(s, k, lit)
    ensures exists m: nat :: m <= k && FirstAt(s, from, lit, m)
    decreases k - from
  {
    if StartsAt(s, from, lit) {
      assert FirstAt(s, from, lit, from);
    } else {
      FirstExists(s, from + 1, lit, k);
      var m: nat :| m <= k && FirstAt(s, from + 1, lit, m);
      assert FirstAt(s, from, lit, m);
    }
  }

  /** `s.find(lit, from)`: the first index at or after `from` where `lit` occurs. */
  function Find(s: string, from: nat, lit: string): (r: Option<nat>)
    ensures r.Some? ==>
      && from <= r.value
      && StartsAt(s, r.value, lit)
      && forall k :: from <= k < r.value ==> !StartsAt(s, k, lit)
    ensures r.None? ==> forall k :: from <= k ==> !StartsAt(s, k, lit)
  {
    if exists k: nat | from <= k <= |s| :: StartsAt(s, k, lit) then
      assert exists m: nat :: m <= |s| && FirstAt(s, from, lit, m) by {
        var k: nat :| from <= k <= |s| && StartsAt(s, k, lit);
        FirstExists(s, from, lit, k);
      }
      var m: nat :| m <= |s| && FirstAt(s, from, lit, m);
      Some(m)
    else None
  }

  /** The first occurrence is determined by the text up to its end: two strings
      that agree on that prefix find `lit` at the same index. */
  lemma FindAgrees(s: string, t: string, from: nat, lit: string, q: nat)
    requires Find(s, from, lit) == Some(q)
    requires q + |lit| <= |t| && s[..q + |lit|] == t[..q + |lit|]
    ensures Find(t, from, lit) == Some(q)
  {
    SameWindow(s, t, q + |lit|, q, lit);
    forall j | from <= j < q ensures !StartsAt(t, j, lit) {
      SameWindow(s, t, q + |lit|, j, lit);
    }
  }

  lemma SameWindow(s: string, t: string, n: nat, k: nat, lit: string)
    requires n <= |s| && n <= |t| && s[..n] == t[..n] && k + |lit| <= n
    ensures StartsAt(s, k, lit) == StartsAt(t, k, lit)
  {
    assert s[k..k + |lit|] == s[..n][k..k + |lit|];
    assert t[k..k + |lit|] == t[..n][k..k + |lit|];
  }

  /** `s.split(sep)`: the pieces between the occurrences of `sep` found from
      left to right. There is always at least one piece. */
  function SplitOn(s: string, sep: string): (r: seq<string>)
    requires |sep| > 0
    ensures |r| >= 1
    ensures forall i :: 0 <= i < |r| ==> !Occurs(r[i], sep)
    decreases |s|
  {
    match Find(s, 0, sep)
    case None => [s]
    case Some(i) =>
      var piece := s[..i];
      assert !Occurs(piece, sep) by {
        forall k: nat | StartsAt(piece, k, sep) ensures false {
          assert s[k..k + |sep|] == piece[k..k + |sep|];
          assert StartsAt(s, k, sep);
        }
      }
      [piece] + SplitOn(s[i + |sep|..], sep)
  }

  /** The total length of `parts`. */
  function TotalLength(parts: seq<string>): nat
    decreases |parts|
  {
    if parts == [] then 0 else |parts[0]| + TotalLength(parts[1..])
  }

  /** `sep.join(parts)`: every part, with one separator between each two
      neighbours and none at either end. */
  function JoinWith(parts: seq<string>, sep: string): (r: string)
    ensures |parts| == 0 ==> r == ""
    ensures |parts| > 0 ==> |r| == TotalLength(parts) + (|parts| - 1) * |sep|
    decreases |parts|
  {
    if |parts| == 0 then ""
    else if |parts| == 1 then parts[0]
    else
      var r := parts[0] + sep + JoinWith(parts[1..], sep);
      assert (|parts| - 1) * |sep| == |sep| + (|parts| - 2) * |sep|;
      r
  }

  /** Joining the pieces of a split with the same separator gives the text back. */
  lemma {:induction false} JoinSplit(s: string, sep: string)
    requires |sep| > 0
    ensures JoinWith(SplitOn(s, sep), sep) == s
    decreases |s|
  {
    match Find(s, 0, sep)
    case None =>
    case Some(i) =>
      var rest := s[i + |sep|..];
      JoinSplit(rest, sep);
      CutAt(s, i, sep);
  }

  /** A joined text starts with its first part and ends with its last. */
  lemma {:induction false} JoinWithEnds(parts: seq<string>, sep: string)
    requires |parts| > 0
    ensures StartsWith(JoinWith(parts, sep), parts[0])
    ensures EndsWith(JoinWith(parts, sep), parts[|parts| - 1])
    decreases |parts|
  {
    if |parts| > 1 {
      JoinWithEnds(parts[1..], sep);
      var r := JoinWith(parts, sep);
      var tail := JoinWith(parts[1..], sep);
      assert r == parts[0] + sep + tail;
      assert r[..|parts[0]|] == parts[0];
      assert r[|r| - |tail|..] == tail;
      var last := parts[|parts| - 1];
      assert r[|r| - |last|..] == tail[|tail| - |last|..];
    }
  }

  /** `s.replace(target, replacement)`: Python scans left to right, replaces each
      occurrence it finds and resumes the scan after it. */
  function Replace(s: string, target: string, replacement: string): (r: string)
    requires |target| > 0
    ensures !Occurs(s, target) ==> r == s
    decreases |s|
  {
    match Find(s, 0, target)
    case None => s
    case Some(i) => s[..i] + replacement + Replace(s[i + |target|..], target, replacement)
  }

  /** Replace cuts `s` at the occurrences of `target` found left to right (the
      pieces between them contain no `target`) and puts `replacement` at each cut;
      the text between occurrences is kept as it is. */
  lemma {:induction false} ReplaceSwapsOccurrences(s: string, target: string, replacement: string)
    requires |target| > 0
    ensures var pieces := SplitOn(s, target);
      && s == JoinWith(pieces, target)
      && Replace(s, target, replacement) == JoinWith(pieces, replacement)
    decreases |s|
  {
    JoinSplit(s, target);
    match Find(s, 0, target)
    case None =>
    case Some(i) =>
      ReplaceSwapsOccurrences(s[i + |target|..], target, replacement);
  }
}
