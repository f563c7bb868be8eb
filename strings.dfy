/** The few Python `str` operations the ontology loader relies on, on `seq<char>`. */
module Strings {
  import opened Wrappers
  import opened Seqs

  /** Python's `str.isspace()`: the ASCII controls TAB..CR, the four information
      separators U+001C..U+001F, SPACE, and Unicode's space characters. Python's
      regular-expression class `\s` on `str` patterns matches the same set. */
  predicate IsSpace(c: char) {
    var n := c as int;
    (9 <= n <= 13) || (28 <= n <= 32) || n == 0x85 || n == 0xA0 || n == 0x1680
    || (0x2000 <= n <= 0x200A) || n == 0x2028 || n == 0x2029 || n == 0x202F
    || n == 0x205F || n == 0x3000
  }

  ghost predicate AllSpace(s: string) {
    forall i :: 0 <= i < |s| ==> IsSpace(s[i])
  }

  /** `s.startswith(prefix)` */
  predicate StartsWith(s: string, prefix: string) {
    |prefix| <= |s| && s[..|prefix|] == prefix
  }

  /** `s.endswith(suffix)` */
  predicate EndsWith(s: string, suffix: string) {
    |suffix| <= |s| && s[|s| - |suffix|..] == suffix
  }

  /** Number of whitespace characters at the front of `s`. */
  function LeadingSpaces(s: string): (n: nat)
    ensures n <= |s|
    ensures forall i :: 0 <= i < n ==> IsSpace(s[i])
    ensures n < |s| ==> !IsSpace(s[n])
  {
    if s == [] || !IsSpace(s[0]) then 0 else 1 + LeadingSpaces(s[1..])
  }

  /** Number of whitespace characters at the end of `s`. */
  function TrailingSpaces(s: string): (n: nat)
    ensures n <= |s|
    ensures forall i :: |s| - n <= i < |s| ==> IsSpace(s[i])
    ensures n < |s| ==> !IsSpace(s[|s| - 1 - n])
  {
    if s == [] || !IsSpace(s[|s| - 1]) then 0 else 1 + TrailingSpaces(s[..|s| - 1])
  }

  /** No whitespace at either end of `s`. */
  predicate Stripped(s: string) {
    s != [] ==> !IsSpace(s[0]) && !IsSpace(s[|s| - 1])
  }

  /** `s.strip()`: the middle of `s` once the whitespace at both ends is gone. */
  function Strip(s: string): (r: string)
    ensures r == [] <==> AllSpace(s)
    ensures r != [] ==> !IsSpace(r[0]) && !IsSpace(r[|r| - 1])
    ensures exists i :: 0 <= i <= |s| - |r| && s[i..i + |r|] == r
                        && AllSpace(s[..i]) && AllSpace(s[i + |r|..])
  {
    var i := LeadingSpaces(s);
    var r := s[i..][..|s[i..]| - TrailingSpaces(s[i..])];
    StripParts(s, i, s[i..], r);
    StripEnds(s, i, s[i..], r);
    r
  }

  lemma StripParts(s: string, i: nat, rest: string, r: string)
    requires i == LeadingSpaces(s) && rest == s[i..] && r == rest[..|rest| - TrailingSpaces(rest)]
    ensures i + |r| <= |s| && s[i..i + |r|] == r
    ensures AllSpace(s[..i]) && AllSpace(s[i + |r|..])
  {
    SliceOfSuffix(s, i, |r|);
    assert AllSpace(s[..i]) by {
      assert forall j :: 0 <= j < i ==> s[..i][j] == s[j];
    }
    SpaceSuffix(rest, |r|);
  }

  lemma SpaceSuffix(s: string, k: nat)
    requires k <= |s| && forall j :: k <= j < |s| ==> IsSpace(s[j])
    ensures AllSpace(s[k..])
  {
    assert forall j :: 0 <= j < |s| - k ==> s[k..][j] == s[k + j];
  }

  lemma StripEnds(s: string, i: nat, rest: string, r: string)
    requires i == LeadingSpaces(s) && rest == s[i..] && r == rest[..|rest| - TrailingSpaces(rest)]
    ensures r == [] <==> AllSpace(s)
    ensures r != [] ==> !IsSpace(r[0]) && !IsSpace(r[|r| - 1])
  {
    StripParts(s, i, rest, r);
    var tail := s[i + |r|..];
    assert forall j :: 0 <= j < |tail| ==> s[i + |r| + j] == tail[j];
  }

  /** What `Strip` keeps starts where the leading whitespace ends. */
  lemma StripFrom(t: string, i: nat, r: string)
    requires i == LeadingSpaces(t) && r == Strip(t)
    ensures i + |r| <= |t| && r == t[i..i + |r|]
  {
    SliceOfSuffix(t, i, |t[i..]| - TrailingSpaces(t[i..]));
  }

  /** Stripping the slice `t == s[a..b]` keeps the text of `s` that starts after the
      slice's leading whitespace and runs up to the slice's trailing whitespace. */
  lemma StripSliceAt(s: string, a: nat, b: nat, t: string, i: nat, r: string)
    requires a <= b <= |s| && t == s[a..b] && i == LeadingSpaces(t) && r == Strip(t)
    ensures a + i + |r| <= b && OccursAt(s, r, a + i)
  {
    StripFrom(t, i, r);
    SliceOfSlice(s, a, b, i, i + |r|);
  }

  /** After the text that stripping the slice `t == s[a..b]` keeps, only whitespace
      remains up to `b`. */
  lemma StripSliceRest(s: string, a: nat, b: nat, t: string, i: nat, r: string)
    requires a <= b <= |s| && t == s[a..b] && i == LeadingSpaces(t) && r == Strip(t)
    ensures a + i + |r| <= b && AllSpace(s[a + i + |r|..b])
  {
    StripTail(t, i, r);
    var k := i + |r|;
    assert s[a + k..b] == t[k..] by {
      SliceOfSlice(s, a, b, k, b - a);
    }
  }

  /** Only whitespace follows what `Strip` keeps. */
  lemma StripTail(t: string, i: nat, r: string)
    requires i == LeadingSpaces(t) && r == Strip(t)
    ensures i + |r| <= |t| && AllSpace(t[i + |r|..])
  {
    StripParts(t, i, t[i..], r);
  }

  /** `s.lstrip(c)` for a single character `c`: every leading `c` is removed. */
  function LStripChar(s: string, c: char): (r: string)
    ensures |r| <= |s| && r == s[|s| - |r|..]
    ensures r != [] ==> r[0] != c
    ensures forall i :: 0 <= i < |s| - |r| ==> s[i] == c
  {
    if s != [] && s[0] == c then LStripChar(s[1..], c) else s
  }

  /** `s.rstrip(c)` for a single character `c`: every trailing `c` is removed. */
  function RStripChar(s: string, c: char): (r: string)
    ensures |r| <= |s| && r == s[..|r|]
    ensures r != [] ==> r[|r| - 1] != c
    ensures forall i :: |r| <= i < |s| ==> s[i] == c
  {
    if s != [] && s[|s| - 1] == c then RStripChar(s[..|s| - 1], c) else s
  }

  /** `pat` occurs in `s` starting at index `j`. */
  predicate OccursAt(s: string, pat: string, j: int) {
    0 <= j && j + |pat| <= |s| && s[j..j + |pat|] == pat
  }

  function IndexFrom(s: string, pat: string, k: nat): (r: Option<nat>)
    requires k <= |s|
    ensures r.Some? ==> k <= r.value && OccursAt(s, pat, r.value)
                        && forall j :: k <= j < r.value ==> !OccursAt(s, pat, j)
    ensures r.None? ==> forall j :: k <= j <= |s| ==> !OccursAt(s, pat, j)
    decreases |s| - k
  {
    if OccursAt(s, pat, k) then Some(k)
    else if k + |pat| >= |s| then None
    else IndexFrom(s, pat, k + 1)
  }

  /** `s.find(pat)`, with `None` for -1: the first index at which `pat` occurs. */
  function IndexOf(s: string, pat: string): (r: Option<nat>)
    ensures r.Some? ==> OccursAt(s, pat, r.value)
                        && forall j :: 0 <= j < r.value ==> !OccursAt(s, pat, j)
    ensures r.None? <==> forall j :: 0 <= j <= |s| ==> !OccursAt(s, pat, j)
  {
    IndexFrom(s, pat, 0)
  }

  /** Number of non-whitespace characters at the front of `s`. */
  function WordLength(s: string): (n: nat)
    ensures n <= |s|
    ensures forall i :: 0 <= i < n ==> !IsSpace(s[i])
    ensures n < |s| ==> IsSpace(s[n])
  {
    if s == [] || IsSpace(s[0]) then 0 else 1 + WordLength(s[1..])
  }

  /** `w` is the first run of non-whitespace characters of `s`, and starts at `i`:
      only whitespace comes before it, and whitespace or the end comes after it. */
  ghost predicate FirstRunAt(s: string, i: int, w: string) {
    0 <= i && i + |w| <= |s| && AllSpace(s[..i]) && s[i..i + |w|] == w
    && (i + |w| == |s| || IsSpace(s[i + |w|]))
  }

  /** `s.split()`: the maximal runs of non-whitespace characters, in order
      (`WordsStep` states which runs). */
  function Words(s: string): (ws: seq<string>)
    ensures ws == [] <==> AllSpace(s)
    ensures forall k :: 0 <= k < |ws| ==> ws[k] != []
    ensures forall k, i :: 0 <= k < |ws| && 0 <= i < |ws[k]| ==> !IsSpace(ws[k][i])
    decreases |s|
  {
    var i := LeadingSpaces(s);
    if i == |s| then []
    else
      var rest := s[i..];
      var n := WordLength(rest);
      assert rest[0] == s[i];
      var ws := Words(rest[n..]);
      ConsWord(rest[..n], ws);
      [rest[..n]] + ws
  }

  /** `s.split()` unfolded once: when `s` is not all whitespace, its first word is the
      first run of non-whitespace (after the `i` leading whitespace characters, `n`
      long), and the words of what follows that run come after it. */
  lemma {:induction false} WordsStep(s: string, i: nat, n: nat)
    requires i == LeadingSpaces(s) && i < |s| && n == WordLength(s[i..])
    ensures FirstRunAt(s, i, s[i..i + n])
    ensures Words(s) == [s[i..i + n]] + Words(s[i + n..])
  {
    SliceOfSuffix(s, i, n);
    FirstRun(s, i, n);
  }

  lemma {:induction false} FirstRun(s: string, i: nat, n: nat)
    requires i == LeadingSpaces(s) && i < |s| && n == WordLength(s[i..])
    ensures FirstRunAt(s, i, s[i..i + n])
  {
    assert AllSpace(s[..i]) by {
      assert forall j :: 0 <= j < i ==> s[..i][j] == s[j];
    }
    assert i + n < |s| ==> s[i + n] == s[i..][n];
  }

  /** A non-empty run without whitespace in front of such runs is still such runs. */
  lemma ConsWord(w: string, ws: seq<string>)
    requires w != [] && forall i :: 0 <= i < |w| ==> !IsSpace(w[i])
    requires forall k :: 0 <= k < |ws| ==> ws[k] != []
    requires forall k, i :: 0 <= k < |ws| && 0 <= i < |ws[k]| ==> !IsSpace(ws[k][i])
    ensures forall k :: 0 <= k < |[w] + ws| ==> ([w] + ws)[k] != []
    ensures forall k, i :: 0 <= k < |[w] + ws| && 0 <= i < |([w] + ws)[k]| ==> !IsSpace(([w] + ws)[k][i])
  {
    assert forall k :: 0 < k < |[w] + ws| ==> ([w] + ws)[k] == ws[k - 1];
  }
}
