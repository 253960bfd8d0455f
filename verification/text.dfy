/** Python string primitives the translator is built from, over `seq<char>`.

    Each function follows the CPython behaviour of the operation it is named
    after: `in`, `str.find`, `str.split(sep)`, `str.split()`, `str.strip()`,
    `str.strip(chars)`, `str.replace` (equivalently `re.sub` with a literal
    pattern), `sep.join` and `str(int)`.
 */
module Text {
  import opened Results

  /** Python's `str.isspace()` and the regex class `\s` (Py_UNICODE_ISSPACE). */
  predicate IsSpace(c: char) {
    var n := c as int;
    (9 <= n <= 13) || (28 <= n <= 32) || n == 0x85 || n == 0xA0 || n == 0x1680
    || (0x2000 <= n <= 0x200A) || n == 0x2028 || n == 0x2029 || n == 0x202F
    || n == 0x205F || n == 0x3000
  }

  predicate NotSpace(c: char) {
    !IsSpace(c)
  }

  /** The characters of `strip(' .')` / `strip('. ')`. */
  predicate IsBlankOrDot(c: char) {
    c == ' ' || c == '.'
  }

  /** The regex class `[A-Z]`. */
  predicate IsUpper(c: char) {
    'A' <= c <= 'Z'
  }

  predicate IsLower(c: char) {
    'a' <= c <= 'z'
  }

  predicate IsDigit(c: char) {
    '0' <= c <= '9'
  }

  /** The regex class `\w` on str patterns: `str.isalnum()` or '_'.
      Exact for code points up to U+00FF; higher code points count as non-word. */
  predicate IsWordChar(c: char) {
    var n := c as int;
    IsUpper(c) || IsLower(c) || IsDigit(c) || c == '_'
    || n == 0xAA || n == 0xB2 || n == 0xB3 || n == 0xB5 || n == 0xB9 || n == 0xBA
    || (0xBC <= n <= 0xBE) || (0xC0 <= n <= 0xFF && n != 0xD7 && n != 0xF7)
  }

  /** A word of `str.split()`: non-empty and free of whitespace. */
  predicate IsWord(w: string) {
    |w| > 0 && forall j :: 0 <= j < |w| ==> !IsSpace(w[j])
  }

  predicate AllSpace(s: string) {
    forall j :: 0 <= j < |s| ==> IsSpace(s[j])
  }

  /** No whitespace at either end: what `str.strip()` guarantees. */
  predicate Stripped(s: string) {
    s == [] || (!IsSpace(s[0]) && !IsSpace(s[|s| - 1]))
  }

  /** End of the maximal run of characters satisfying `p` that starts at `from`;
      this is where a greedy `p*` stops. */
  function RunEnd(s: string, from: nat, p: char -> bool): (e: nat)
    requires from <= |s|
    ensures from <= e <= |s|
    ensures forall j :: from <= j < e ==> p(s[j])
    ensures e == |s| || !p(s[e])
    decreases |s| - from
  {
    if from < |s| && p(s[from]) then RunEnd(s, from + 1, p) else from
  }

  function SpaceRunEnd(s: string, from: nat): (e: nat)
    requires from <= |s|
    ensures from <= e <= |s|
    ensures forall j :: from <= j < e ==> IsSpace(s[j])
    ensures e == |s| || !IsSpace(s[e])
  {
    RunEnd(s, from, IsSpace)
  }

  /** `s[a..b]` is a whole whitespace run: non-empty, and not continued at `b`. */
  predicate SpaceRun(s: string, a: nat, b: nat) {
    a < b <= |s| && (forall k :: a <= k < b ==> IsSpace(s[k])) && (b == |s| || !IsSpace(s[b]))
  }

  /** A whole whitespace run ends where `SpaceRunEnd` says. */
  lemma SpaceRunsEnd(s: string)
    ensures forall a: nat, b: nat :: SpaceRun(s, a, b) ==> b == SpaceRunEnd(s, a)
  {
    forall a: nat, b: nat | SpaceRun(s, a, b)
      ensures b == SpaceRunEnd(s, a)
    {
    }
  }

  /** A run is maximal: it ends at the first character outside the class. */
  lemma RunEndAt(s: string, from: nat, e: nat, p: char -> bool)
    requires from <= e <= |s|
    requires forall j :: from <= j < e ==> p(s[j])
    requires e == |s| || !p(s[e])
    ensures RunEnd(s, from, p) == e
  {
  }

  /** A run measured inside a slice stops where the run in the whole string stops,
      or at the end of the slice. */
  lemma {:induction false} RunEndSlice(s: string, a: nat, b: nat, k: nat, p: char -> bool)
    requires a + k <= b <= |s|
    ensures a + RunEnd(s[a..b], k, p) == if RunEnd(s, a + k, p) < b then RunEnd(s, a + k, p) else b
    decreases b - a - k
  {
    if a + k < b {
      assert s[a..b][k] == s[a + k];
      if p(s[a + k]) {
        RunEndSlice(s, a, b, k + 1, p);
      }
    }
  }

  // ---------------------------------------------------------------------------
  // Substring search: `pat in s` and `s.find(pat)`

  predicate OccursAt(s: string, pat: string, i: nat) {
    i + |pat| <= |s| && s[i..i + |pat|] == pat
  }

  /** Leftmost occurrence of `pat` at or after `from`. */
  function IndexOfFrom(s: string, pat: string, from: nat): (r: Option<nat>)
    ensures r.Some? ==> from <= r.value && OccursAt(s, pat, r.value)
    ensures r.Some? ==> forall j :: from <= j < r.value ==> !OccursAt(s, pat, j)
    ensures r.None? ==> forall j :: from <= j ==> !OccursAt(s, pat, j)
    decreases |s| - from
  {
    if from + |pat| > |s| then None
    else if s[from..from + |pat|] == pat then Some(from)
    else IndexOfFrom(s, pat, from + 1)
  }

  /** `s.find(pat)`, with -1 as `None`. */
  function IndexOf(s: string, pat: string): (r: Option<nat>)
    ensures r.Some? ==> OccursAt(s, pat, r.value) && r.value + |pat| <= |s|
    ensures r.Some? ==> forall j: nat :: j < r.value ==> !OccursAt(s, pat, j)
    ensures r.None? ==> forall j: nat :: !OccursAt(s, pat, j)
  {
    IndexOfFrom(s, pat, 0)
  }

  /** One character out of place rules an occurrence out. */
  lemma MismatchAt(s: string, pat: string, i: nat, k: nat)
    requires k < |pat| && (i + k >= |s| || s[i + k] != pat[k])
    ensures !OccursAt(s, pat, i)
  {
    if i + |pat| <= |s| {
      assert s[i..i + |pat|][k] != pat[k];
    }
  }

  /** The first occurrence is the one `find` reports. */
  lemma IndexOfFirst(s: string, pat: string, i: nat)
    requires OccursAt(s, pat, i)
    requires forall j: nat :: j < i ==> !OccursAt(s, pat, j)
    ensures IndexOf(s, pat) == Some(i)
  {
  }

  /** Python's `pat in s`. */
  predicate Contains(s: string, pat: string) {
    IndexOf(s, pat).Some?
  }

  lemma ContainsAt(s: string, pat: string, i: nat)
    requires OccursAt(s, pat, i)
    ensures Contains(s, pat)
  {
  }

  /** An occurrence inside a slice is an occurrence in the whole string. */
  lemma OccursInSlice(s: string, pat: string, a: nat, b: nat, j: nat)
    requires a <= b <= |s|
    requires OccursAt(s[a..b], pat, j)
    ensures OccursAt(s, pat, a + j)
  {
    var t := s[a..b];
    assert t[j..j + |pat|] == pat;
    forall k | 0 <= k < |pat|
      ensures pat[k] == s[a + j..a + j + |pat|][k]
    {
      assert pat[k] == t[j + k];
    }
    assert s[a + j..a + j + |pat|] == pat;
  }

  /** A string free of `pat` has no slice containing `pat`. */
  lemma NotContainsSlice(s: string, pat: string, a: nat, b: nat)
    requires a <= b <= |s|
    requires !Contains(s, pat)
    ensures !Contains(s[a..b], pat)
  {
    if Contains(s[a..b], pat) {
      OccursInSlice(s, pat, a, b, IndexOf(s[a..b], pat).value);
    }
  }

  /** A text containing `pat` contains every piece of `pat`. */
  lemma ContainsSub(s: string, pat: string, sub: string, a: nat)
    requires Contains(s, pat) && OccursAt(pat, sub, a)
    ensures Contains(s, sub)
  {
    var k := IndexOf(s, pat).value;
    assert s[k..k + |pat|] == pat;
    OccursInSlice(s, sub, k, k + |pat|, a);
    ContainsAt(s, sub, k + a);
  }

  /** A text missing one character of `pat` does not contain `pat`. */
  lemma MissingCharAbsent(t: string, pat: string, k: nat)
    requires k < |pat| && pat[k] !in t
    ensures !Contains(t, pat)
  {
    forall j: nat | j + |pat| <= |t|
      ensures !OccursAt(t, pat, j)
    {
      assert t[j..j + |pat|][k] == t[j + k];
    }
  }

  /** A text without the separator's first character is clear before it. */
  lemma MissingLeadClear(p: string, sep: string)
    requires |sep| > 0 && sep[0] !in p
    ensures ClearBefore(p, sep)
  {
    forall j | 0 <= j < |p|
      ensures !OccursAt(p + sep, sep, j)
    {
      assert (p + sep)[j] == p[j];
      if j + |sep| <= |p + sep| {
        assert (p + sep)[j..j + |sep|][0] == p[j];
      }
    }
  }

  /** A character that appears nowhere in `t` is not contained in it. */
  lemma CharAbsent(t: string, c: char)
    requires forall k :: 0 <= k < |t| ==> t[k] != c
    ensures !Contains(t, [c])
  {
    forall j: nat | j + 1 <= |t|
      ensures !OccursAt(t, [c], j)
    {
      assert t[j..j + 1][0] == t[j];
    }
  }

  /** A character unlike the pattern's first one, put in front of a text free of
      the pattern, leaves it free. */
  lemma AbsentAfterLead(c: char, w: string, pat: string)
    requires |pat| > 0 && c != pat[0] && !Contains(w, pat)
    ensures !Contains([c] + w, pat)
  {
    var s := [c] + w;
    forall j: nat | j + |pat| <= |s|
      ensures !OccursAt(s, pat, j)
    {
      if j == 0 {
        assert s[0..|pat|][0] == c;
      } else {
        assert s[j..j + |pat|] == w[j - 1..j - 1 + |pat|];
        assert !OccursAt(w, pat, j - 1);
      }
    }
  }

  /** `pat` occurs in a concatenation when it occurs in the left part. */
  lemma ContainsLeft(s: string, t: string, pat: string)
    requires Contains(s, pat)
    ensures Contains(s + t, pat)
  {
    var i := IndexOf(s, pat).value;
    assert (s + t)[i..i + |pat|] == s[i..i + |pat|];
    ContainsAt(s + t, pat, i);
  }

  // ---------------------------------------------------------------------------
  // Splitting and joining

  /** `sep.join(parts)`. */
  function Join(parts: seq<string>, sep: string): string
  {
    if |parts| == 0 then ""
    else if |parts| == 1 then parts[0]
    else parts[0] + sep + Join(parts[1..], sep)
  }

  /** A join starts with its first part. */
  lemma JoinHead(parts: seq<string>, sep: string)
    requires |parts| > 0
    ensures Join(parts, sep) == parts[0] + (if |parts| > 1 then sep + Join(parts[1..], sep) else "")
  {
  }

  /** A join of two or more parts holds the separator, whatever precedes it. */
  lemma JoinHoldsSep(lead: string, parts: seq<string>, sep: string)
    requires |parts| >= 2
    ensures Contains(lead + Join(parts, sep), sep)
  {
    JoinHead(parts, sep);
    var s := lead + Join(parts, sep);
    var i := |lead| + |parts[0]|;
    assert s == lead + parts[0] + sep + Join(parts[1..], sep);
    assert s[i..i + |sep|] == sep;
    ContainsAt(s, sep, i);
  }

  /** `s.split(sep)` for a non-empty separator: cut at every occurrence, left to right. */
  function Split(s: string, sep: string): (parts: seq<string>)
    requires |sep| > 0
    ensures |parts| >= 1
    ensures |parts| > 1 <==> Contains(s, sep)
    ensures forall k :: 0 <= k < |parts| ==> !Contains(parts[k], sep)
    ensures Join(parts, sep) == s
    decreases |s|
  {
    match IndexOf(s, sep)
    case None => [s]
    case Some(i) =>
      var rest := Split(s[i + |sep|..], sep);
      FirstPieceFree(s, sep, i);
      assert ([s[..i]] + rest)[1..] == rest;
      assert s == s[..i] + sep + s[i + |sep|..] by {
        assert s[i..i + |sep|] == sep;
      }
      [s[..i]] + rest
  }

  /** The text before the leftmost separator does not contain the separator. */
  lemma FirstPieceFree(s: string, sep: string, i: nat)
    requires |sep| > 0 && IndexOf(s, sep) == Some(i)
    ensures !Contains(s[..i], sep)
  {
    if Contains(s[..i], sep) {
      var j := IndexOf(s[..i], sep).value;
      assert s[..i] == s[0..i];
      OccursInSlice(s, sep, 0, i, j);
      assert false;
    }
  }

  /** The first piece of `s.split(sep)` is the text before the leftmost separator. */
  lemma SplitFirst(s: string, sep: string)
    requires |sep| > 0
    ensures IndexOf(s, sep).None? ==> Split(s, sep) == [s]
    ensures IndexOf(s, sep).Some? ==> Split(s, sep)[0] == s[..IndexOf(s, sep).value]
  {
  }

  /** Every piece of `s.split(sep)` is a slice of `s`, so a pattern absent from `s`
      is absent from every piece. */
  lemma {:induction false} SplitPiecesInherit(s: string, sep: string, pat: string)
    requires |sep| > 0
    requires !Contains(s, pat)
    ensures forall k :: 0 <= k < |Split(s, sep)| ==> !Contains(Split(s, sep)[k], pat)
    decreases |s|
  {
    match IndexOf(s, sep)
    case None =>
    case Some(i) =>
      NotContainsSlice(s, pat, 0, i);
      NotContainsSlice(s, pat, i + |sep|, |s|);
      assert s[..i] == s[0..i];
      assert s[i + |sep|..] == s[i + |sep|..|s|];
      SplitPiecesInherit(s[i + |sep|..], sep, pat);
  }

  /** The second piece of `s.split(sep)` is the text after the first `sep`, up
      to the next one. */
  lemma SplitSecond(s: string, sep: string)
    requires |sep| > 0 && Contains(s, sep)
    ensures |Split(s, sep)| >= 2
    ensures Split(s, sep)[1] == Split(s[IndexOf(s, sep).value + |sep|..], sep)[0]
  {
  }

  /** No occurrence of `sep` starts inside `p` when `sep` follows it: the
      separator written after `p` is the first one. */
  predicate ClearBefore(p: string, sep: string) {
    forall j :: 0 <= j < |p| ==> !OccursAt(p + sep, sep, j)
  }

  /** After a clear `p`, the first separator is the one written after it. */
  lemma ClearFirst(p: string, sep: string, x: string)
    requires |sep| > 0 && ClearBefore(p, sep)
    ensures IndexOf(p + sep + x, sep) == Some(|p|)
  {
    var s := p + sep + x;
    assert s[|p|..|p| + |sep|] == sep;
    assert OccursAt(s, sep, |p|);
    forall j: nat | j < |p|
      ensures !OccursAt(s, sep, j)
    {
      if OccursAt(s, sep, j) {
        assert (p + sep)[j..j + |sep|] == s[j..j + |sep|];
        assert OccursAt(p + sep, sep, j);
      }
    }
  }

  /** A separator whose first character does not recur in it cannot overlap
      itself, so a text free of it is clear before it. */
  lemma LeadCharClear(p: string, sep: string)
    requires |sep| > 0 && !Contains(p, sep)
    requires forall k :: 1 <= k < |sep| ==> sep[k] != sep[0]
    ensures ClearBefore(p, sep)
  {
    forall j | 0 <= j < |p|
      ensures !OccursAt(p + sep, sep, j)
    {
      if j + |sep| <= |p| {
        if OccursAt(p + sep, sep, j) {
          assert p[j..j + |sep|] == (p + sep)[j..j + |sep|];
          ContainsAt(p, sep, j);
        }
      } else {
        // the separator written after `p` would have to start inside itself
        var m := |p| - j;
        assert (p + sep)[j..j + |sep|][m] == sep[0] != sep[m];
      }
    }
  }

  /** Splitting after a clear first piece. */
  lemma SplitAfterClear(p: string, sep: string, x: string)
    requires |sep| > 0 && ClearBefore(p, sep)
    ensures Split(p + sep + x, sep) == [p] + Split(x, sep)
  {
    var s := p + sep + x;
    ClearFirst(p, sep, x);
    assert s[..|p|] == p && s[|p| + |sep|..] == x;
  }

  /** `s.split(sep)` undoes `sep.join(parts)` when every part but the last is
      clear before the separator and the last holds none. */
  lemma {:induction false} SplitJoin(parts: seq<string>, sep: string)
    requires |sep| > 0 && |parts| > 0
    requires forall k :: 0 <= k < |parts| - 1 ==> ClearBefore(parts[k], sep)
    requires !Contains(parts[|parts| - 1], sep)
    ensures Split(Join(parts, sep), sep) == parts
  {
    if |parts| > 1 {
      var rest := parts[1..];
      assert forall k :: 0 <= k < |rest| - 1 ==> rest[k] == parts[k + 1];
      SplitJoin(rest, sep);
      SplitAfterClear(parts[0], sep, Join(rest, sep));
    }
  }

  /** `s.split(sep, 1)`: at most two pieces. */
  function SplitOnce(s: string, sep: string): (parts: seq<string>)
    requires |sep| > 0
    ensures |parts| == 1 || |parts| == 2
    ensures |parts| == 2 <==> Contains(s, sep)
    ensures !Contains(parts[0], sep)
    ensures Join(parts, sep) == s
  {
    match IndexOf(s, sep)
    case None => [s]
    case Some(i) =>
      FirstPieceFree(s, sep, i);
      assert s[i..i + |sep|] == sep;
      assert s == s[..i] + sep + s[i + |sep|..];
      [s[..i], s[i + |sep|..]]
  }

  /** `s.split()`: the maximal runs of non-whitespace, in order. */
  function SplitWs(s: string): (words: seq<string>)
    ensures forall k :: 0 <= k < |words| ==> IsWord(words[k])
    ensures |words| == 0 <==> AllSpace(s)
    decreases |s|
  {
    var a := SpaceRunEnd(s, 0);
    if a == |s| then []
    else
      var b := RunEnd(s, a, NotSpace);
      [s[a..b]] + SplitWs(s[b..])
  }

  /** The first word of `s.split()` is the first non-space run of `s`. */
  lemma SplitWsFirst(s: string)
    requires !AllSpace(s)
    ensures SplitWs(s)[0] == s[SpaceRunEnd(s, 0)..RunEnd(s, SpaceRunEnd(s, 0), NotSpace)]
  {
  }

  /** A word followed by whitespace (or nothing) is the first word of `split()`. */
  lemma FirstWord(w: string, tail: string)
    requires IsWord(w)
    requires tail == [] || IsSpace(tail[0])
    ensures !AllSpace(w + tail) && SplitWs(w + tail)[0] == w
  {
    var s := w + tail;
    assert s[0] == w[0];
    assert SpaceRunEnd(s, 0) == 0;
    var e := RunEnd(s, 0, NotSpace);
    assert forall j :: 0 <= j < |w| ==> s[j] == w[j];
    if tail != [] {
      assert s[|w|] == tail[0];
    }
    assert e == |w| by {
      if e < |w| {
        assert false;
      } else if e > |w| {
        assert false;
      }
    }
    SplitWsFirst(s);
    assert s[0..|w|] == w;
  }

  /** Two words with one blank between them split back into those words. */
  lemma SplitWsTwo(w: string, l: string)
    requires IsWord(w) && IsWord(l)
    ensures SplitWs(w + " " + l) == [w, l]
  {
    var s := w + " " + l;
    assert s[0] == w[0] && s[|w|] == ' ';
    assert SpaceRunEnd(s, 0) == 0;
    assert forall j :: 0 <= j < |w| ==> s[j] == w[j];
    var b := RunEnd(s, 0, NotSpace);
    assert b == |w|;
    assert s[0..b] == w;
    var t := s[b..];
    assert t == " " + l;
    assert forall j :: 1 <= j < |t| ==> t[j] == l[j - 1];
    assert IsSpace(t[0]) && !IsSpace(t[1]);
    assert SpaceRunEnd(t, 0) == 1;
    var e := RunEnd(t, 1, NotSpace);
    assert e == |t|;
    assert t[1..e] == l;
    assert t[e..] == [];
  }

  /** A stripped text holding a blank has at least two words. */
  lemma StrippedSpaceTwoWords(f: string)
    requires Stripped(f) && Contains(f, " ")
    ensures |SplitWs(f)| >= 2
  {
    var k := IndexOf(f, " ").value;
    assert f[k..k + 1] == " ";
    assert f[k] == ' ';
    assert SpaceRunEnd(f, 0) == 0;
    var b := RunEnd(f, 0, NotSpace);
    assert b <= k;
    assert f[b..][|f| - 1 - b] == f[|f| - 1];
    assert !AllSpace(f[b..]);
  }

  // ---------------------------------------------------------------------------
  // Stripping

  /** Bounds of `s.strip(chars)`, where `drop` says which characters are stripped. */
  function TrimBounds(s: string, drop: char -> bool): (b: (nat, nat))
    ensures b.0 <= b.1 <= |s|
    ensures forall j :: 0 <= j < b.0 ==> drop(s[j])
    ensures forall j :: b.1 <= j < |s| ==> drop(s[j])
    ensures b.0 == b.1 || (!drop(s[b.0]) && !drop(s[b.1 - 1]))
  {
    var a := RunEnd(s, 0, drop);
    (a, LastKept(s, drop, a, |s|))
  }

  /** The largest `r` in `lo..hi` such that everything in `s[r..hi]` is dropped. */
  function LastKept(s: string, drop: char -> bool, lo: nat, hi: nat): (r: nat)
    requires lo <= hi <= |s|
    ensures lo <= r <= hi
    ensures forall j :: r <= j < hi ==> drop(s[j])
    ensures r == lo || !drop(s[r - 1])
    decreases hi
  {
    if hi > lo && drop(s[hi - 1]) then LastKept(s, drop, lo, hi - 1) else hi
  }

  function TrimBy(s: string, drop: char -> bool): (r: string)
    ensures |r| <= |s|
    ensures r == [] || (!drop(r[0]) && !drop(r[|r| - 1]))
  {
    var b := TrimBounds(s, drop);
    s[b.0..b.1]
  }

  /** `s.strip()`. */
  function Strip(s: string): (r: string)
    ensures |r| <= |s|
    ensures Stripped(r)
  {
    TrimBy(s, IsSpace)
  }

  /** One leading blank before a word is all `strip()` removes. */
  lemma StripLeadBlank(w: string)
    requires IsWord(w)
    ensures Strip([' '] + w) == w
  {
    var s := [' '] + w;
    assert s[1] == w[0];
    assert RunEnd(s, 1, IsSpace) == 1;
    assert RunEnd(s, 0, IsSpace) == 1;
    assert LastKept(s, IsSpace, 1, |s|) == |s|;
    assert s[1..|s|] == w;
  }

  /** Text already without droppable ends is returned as it is. */
  lemma TrimByKeeps(s: string, drop: char -> bool)
    requires s == [] || (!drop(s[0]) && !drop(s[|s| - 1]))
    ensures TrimBy(s, drop) == s
  {
    var b := TrimBounds(s, drop);
    if s != [] {
      assert b.0 == 0;
      assert b.1 == |s|;
    }
  }

  /** `s.strip(' .')`. */
  function StripBlankOrDot(s: string): (r: string)
    ensures |r| <= |s|
    ensures r == [] || (!IsBlankOrDot(r[0]) && !IsBlankOrDot(r[|r| - 1]))
  {
    TrimBy(s, IsBlankOrDot)
  }

  /** Stripping an already stripped string changes nothing. */
  lemma StripStripped(s: string)
    requires Stripped(s)
    ensures Strip(s) == s
  {
    var b := TrimBounds(s, IsSpace);
    if s != [] {
      assert b.0 == 0;
      assert b.1 == |s|;
    }
  }

  // ---------------------------------------------------------------------------
  // Replacement

  /** `s.replace(target, repl)`, equivalently `re.sub(target, repl, s)` for a literal
      pattern: the leftmost non-overlapping occurrences, left to right. */
  function Replace(s: string, target: string, repl: string): (r: string)
    requires |target| > 0
    decreases |s|
  {
    match IndexOf(s, target)
    case None => s
    case Some(i) => s[..i] + repl + Replace(s[i + |target|..], target, repl)
  }

  /** A replacement that does not lengthen the pattern never lengthens the string,
      and strictly shortens it when the pattern occurs and the replacement is shorter. */
  lemma {:induction false} ReplaceLength(s: string, target: string, repl: string)
    requires |target| > 0 && |repl| <= |target|
    ensures |Replace(s, target, repl)| <= |s|
    ensures Contains(s, target) && |repl| < |target| ==> |Replace(s, target, repl)| < |s|
    decreases |s|
  {
    match IndexOf(s, target)
    case None =>
    case Some(i) =>
      ReplaceLength(s[i + |target|..], target, repl);
  }

  /** Replacing a pattern that does not occur is the identity. */
  lemma ReplaceAbsent(s: string, target: string, repl: string)
    requires |target| > 0 && !Contains(s, target)
    ensures Replace(s, target, repl) == s
  {
  }

  /** Replacing a whole text by nothing leaves nothing. */
  lemma ReplaceWhole(t: string)
    requires |t| > 0
    ensures Contains(t, t) && Replace(t, t, "") == ""
  {
    assert OccursAt(t, t, 0);
    assert IndexOf(t, t) == Some(0);
    assert t[|t|..] == "";
    assert !Contains("", t);
    ReplaceAbsent("", t, "");
  }

  /** A replacement whose pattern starts and ends with whitespace keeps a
      stripped text stripped: no occurrence can touch either end. */
  lemma ReplaceKeepsStripped(s: string, target: string, repl: string)
    requires |target| > 0 && IsSpace(target[0]) && IsSpace(target[|target| - 1])
    requires Stripped(s)
    ensures Stripped(Replace(s, target, repl))
  {
    if s != [] {
      ReplaceKeepsLast(s, target, repl);
      if Contains(s, target) {
        var i := IndexOf(s, target).value;
        assert s[i..i + |target|][0] == s[i];
        assert i > 0;
        assert Replace(s, target, repl)[0] == s[..i][0];
      } else {
        ReplaceAbsent(s, target, repl);
      }
    }
  }

  /** ... and its last character stays last. */
  lemma {:induction false} ReplaceKeepsLast(s: string, target: string, repl: string)
    requires |target| > 0 && IsSpace(target[|target| - 1])
    requires |s| > 0 && !IsSpace(s[|s| - 1])
    ensures |Replace(s, target, repl)| > 0
    ensures Replace(s, target, repl)[|Replace(s, target, repl)| - 1] == s[|s| - 1]
    decreases |s|
  {
    var found := IndexOf(s, target);
    if found.Some? {
      var i := found.value;
      var end := i + |target|;
      assert s[i..end][|target| - 1] == s[end - 1];
      assert end < |s|;
      var rest := s[end..];
      assert rest[|rest| - 1] == s[|s| - 1];
      ReplaceKeepsLast(rest, target, repl);
      var r := Replace(rest, target, repl);
      assert Replace(s, target, repl) == s[..i] + repl + r;
    }
  }

  /** A text whose only whitespace is at `p0` ends with a blank-led suffix
      only when its part after `p0` is the rest of the suffix. */
  lemma NoSpacedEnding(s: string, p0: nat, suffix: string)
    requires forall k :: 0 <= k < |s| && IsSpace(s[k]) ==> k == p0
    requires |suffix| > 0 && suffix[0] == ' '
    requires p0 < |s| ==> s[p0 + 1..] != suffix[1..]
    ensures !EndsWith(s, suffix) && !EndsWith(s, suffix + "\n")
  {
    if |suffix| <= |s| {
      var q := |s| - |suffix|;
      if q == p0 {
        assert s[q..][1..] == s[p0 + 1..];
      } else {
        assert s[q..][0] == s[q];
      }
    }
    if |suffix| + 1 <= |s| {
      var q := |s| - |suffix| - 1;
      if q == p0 {
        assert s[q..][|suffix|] == s[|s| - 1];
      } else {
        assert s[q..][0] == s[q];
      }
    }
  }

  /** A text whose only whitespace is at `p0` holds a blank-led pattern only
      where the pattern starts at `p0`. */
  lemma SpaceOnlyAt(s: string, p0: nat, pat: string)
    requires forall k :: 0 <= k < |s| && IsSpace(s[k]) ==> k == p0
    requires |pat| > 0 && pat[0] == ' '
    requires !OccursAt(s, pat, p0)
    ensures !Contains(s, pat)
  {
    forall j: nat | j + |pat| <= |s| && j != p0
      ensures !OccursAt(s, pat, j)
    {
      assert s[j..j + |pat|][0] == s[j];
    }
  }

  // ---------------------------------------------------------------------------
  // Anchored removal and numbers

  predicate EndsWith(s: string, suffix: string) {
    |suffix| <= |s| && s[|s| - |suffix|..] == suffix
  }

  /** `re.sub(suffix + '$', '', s)`: Python's `$` matches at the very end and also
      just before a final newline. */
  function SubAtEnd(s: string, suffix: string): (r: string)
    requires |suffix| > 0 && suffix[|suffix| - 1] != '\n'
    ensures EndsWith(s, suffix) ==> r + suffix == s
    ensures !EndsWith(s, suffix) && EndsWith(s, suffix + "\n") ==>
              |r| >= 1 && r[|r| - 1] == '\n' && r[..|r| - 1] + suffix + "\n" == s
    ensures !EndsWith(s, suffix) && !EndsWith(s, suffix + "\n") ==> r == s
  {
    if EndsWith(s, suffix) then s[..|s| - |suffix|]
    else if EndsWith(s, suffix + "\n") then s[..|s| - |suffix| - 1] + "\n"
    else s
  }

  /** `str(n)` for a natural number. */
  function NatToString(n: nat): (r: string)
    ensures |r| >= 1
    ensures forall j :: 0 <= j < |r| ==> IsDigit(r[j])
    ensures n > 0 ==> r[0] != '0'
  {
    if n < 10 then [DigitChar(n)]
    else NatToString(n / 10) + [DigitChar(n % 10)]
  }

  function DigitChar(d: nat): (c: char)
    requires d < 10
    ensures IsDigit(c) && (c == '0' <==> d == 0)
  {
    ['0', '1', '2', '3', '4', '5', '6', '7', '8', '9'][d]
  }

  // ---------------------------------------------------------------------------
  // Words joined by single blanks

  /** A lone word is all `split()` reports. */
  lemma SplitWsOne(w: string)
    requires IsWord(w)
    ensures SplitWs(w) == [w]
  {
    RunEndAt(w, 0, 0, IsSpace);
    RunEndAt(w, 0, |w|, NotSpace);
    assert w[0..|w|] == w && w[|w|..] == [];
  }

  /** `split()` of a text whose first word spans `a` to `b`. */
  lemma SplitWsFrom(s: string, a: nat, b: nat)
    requires a < |s| && !IsSpace(s[a]) && forall j :: 0 <= j < a ==> IsSpace(s[j])
    requires a <= b <= |s| && b == RunEnd(s, a, NotSpace)
    ensures SplitWs(s) == [s[a..b]] + SplitWs(s[b..])
  {
    RunEndAt(s, 0, a, IsSpace);
  }

  /** A run measured in a suffix stops where the run in the whole string stops. */
  lemma RunEndDrop(s: string, a: nat, k: nat, p: char -> bool)
    requires a + k <= |s|
    ensures a + RunEnd(s[a..], k, p) == RunEnd(s, a + k, p)
  {
    RunEndSlice(s, a, |s|, k, p);
    assert s[a..|s|] == s[a..];
  }

  /** A single leading blank changes nothing in `split()` when what follows
      it is not whitespace. */
  lemma SplitWsBlank(t: string)
    requires |t| > 0 && t[0] == ' ' && (|t| == 1 || !IsSpace(t[1]))
    ensures SplitWs(t) == SplitWs(t[1..])
  {
    if |t| == 1 {
      RunEndAt(t, 0, 1, IsSpace);
    } else {
      SplitWsBlankWord(t, RunEnd(t, 1, NotSpace));
    }
  }

  lemma SplitWsBlankWord(t: string, b: nat)
    requires 1 < |t| && t[0] == ' ' && !IsSpace(t[1])
    requires 1 <= b <= |t| && b == RunEnd(t, 1, NotSpace)
    ensures SplitWs(t) == SplitWs(t[1..])
  {
    SplitWsFrom(t, 1, b);
    RunEndDrop(t, 1, 0, NotSpace);
    SplitWsLead(t[1..]);
    SliceShift(t, b);
  }

  /** `split()` of a text that starts with a word. */
  lemma SplitWsLead(r: string)
    requires |r| > 0 && !IsSpace(r[0])
    ensures SplitWs(r) == [r[0..RunEnd(r, 0, NotSpace)]] + SplitWs(r[RunEnd(r, 0, NotSpace)..])
  {
    SplitWsFrom(r, 0, RunEnd(r, 0, NotSpace));
  }

  lemma SliceShift(t: string, b: nat)
    requires 1 <= b <= |t|
    ensures t[1..][0..b - 1] == t[1..b] && t[1..][b - 1..] == t[b..]
  {
  }

  /** `split()` of a text that opens with a word and one blank, not followed
      by whitespace, is that word and then the words after the blank. */
  lemma SplitWsAt(s: string, n: nat)
    requires 0 < n < |s| && IsWord(s[..n]) && s[n] == ' '
    requires n + 1 == |s| || !IsSpace(s[n + 1])
    ensures SplitWs(s) == [s[..n]] + SplitWs(s[n + 1..])
  {
    assert forall j :: 0 <= j < n ==> s[j] == s[..n][j];
    RunEndAt(s, 0, 0, IsSpace);
    RunEndAt(s, 0, n, NotSpace);
    assert s[0..n] == s[..n];
    SplitWsBlank(s[n..]);
    assert s[n..][1..] == s[n + 1..];
  }

  /** `split()` of "w rest" is `w` and then the words of `rest`, when `rest`
      does not start with whitespace. */
  lemma SplitWsCons(w: string, rest: string)
    requires IsWord(w) && (rest == [] || !IsSpace(rest[0]))
    ensures SplitWs(w + " " + rest) == [w] + SplitWs(rest)
  {
    var s := w + " " + rest;
    assert s[..|w|] == w && s[|w|] == ' ' && s[|w| + 1..] == rest;
    SplitWsAt(s, |w|);
  }

  /** Words joined by single blanks start with the first word's first character. */
  lemma JoinFirstChar(ws: seq<string>)
    requires |ws| > 0 && |ws[0]| > 0
    ensures |Join(ws, " ")| > 0 && Join(ws, " ")[0] == ws[0][0]
  {
    JoinHead(ws, " ");
  }

  /** `split()` undoes a join of words by single blanks. */
  lemma {:induction false} SplitWsJoin(ws: seq<string>)
    requires |ws| > 0 && forall k :: 0 <= k < |ws| ==> IsWord(ws[k])
    ensures SplitWs(Join(ws, " ")) == ws
    decreases |ws|
  {
    if |ws| == 1 {
      SplitWsOne(ws[0]);
    } else {
      JoinFirstChar(ws[1..]);
      SplitWsJoin(ws[1..]);
      SplitWsCons(ws[0], Join(ws[1..], " "));
      assert ws == [ws[0]] + ws[1..];
    }
  }

  /** A join of words by single blanks holds a blank exactly when there are
      two words or more. */
  lemma {:induction false} JoinBlank(ws: seq<string>)
    requires |ws| > 0 && forall k :: 0 <= k < |ws| ==> IsWord(ws[k])
    ensures Contains(Join(ws, " "), " ") <==> |ws| >= 2
  {
    if |ws| >= 2 {
      JoinHoldsSep("", ws, " ");
      assert "" + Join(ws, " ") == Join(ws, " ");
    } else {
      assert forall j :: 0 <= j < |ws[0]| ==> ws[0][j] != ' ';
      MissingCharAbsent(ws[0], " ", 0);
    }
  }

  /** A character outside every word, and not a blank, is not in their join. */
  lemma {:induction false} JoinLacks(ws: seq<string>, c: char)
    requires c != ' ' && forall k :: 0 <= k < |ws| ==> c !in ws[k]
    ensures c !in Join(ws, " ")
    decreases |ws|
  {
    if |ws| > 1 {
      JoinLacks(ws[1..], c);
    }
  }

  /** A join of words by single blanks ends with the last word, with a blank
      before it when there are two words or more. */
  lemma {:induction false} JoinLast(ws: seq<string>)
    requires |ws| > 0
    ensures EndsWith(Join(ws, " "), ws[|ws| - 1])
    ensures |ws| >= 2 ==> |Join(ws, " ")| > |ws[|ws| - 1]|
                          && Join(ws, " ")[|Join(ws, " ")| - |ws[|ws| - 1]| - 1] == ' '
    decreases |ws|
  {
    var s := Join(ws, " ");
    var last := ws[|ws| - 1];
    if |ws| == 1 {
      assert s[|s| - |last|..] == s;
    } else {
      var rest := Join(ws[1..], " ");
      JoinLast(ws[1..]);
      assert ws[1..][|ws[1..]| - 1] == last;
      assert s == ws[0] + " " + rest;
      assert s[|s| - |last|..] == rest[|rest| - |last|..];
      if |ws| == 2 {
        assert rest == last;
        assert s[|s| - |last| - 1] == ' ';
      } else {
        assert s[|s| - |last| - 1] == rest[|rest| - |last| - 1];
      }
    }
  }

  /** A text whose last word is not `x` does not end in " x", nor in " x"
      and a newline. */
  lemma NoEndingAfterWord(s: string, last: string, x: string)
    requires IsWord(last) && EndsWith(s, last)
    requires |s| == |last| || s[|s| - |last| - 1] == ' '
    requires IsWord(x) && last != x
    ensures !EndsWith(s, " " + x) && !EndsWith(s, " " + x + "\n")
  {
    var d := |s| - |last|;
    assert s[d..] == last;
    var n := " " + x + "\n";
    if |n| <= |s| {
      assert s[|s| - |n|..][|n| - 1] == last[|last| - 1] != n[|n| - 1];
    }
    var t := " " + x;
    var q := |s| - |t|;
    if |t| <= |s| {
      if |x| < |last| {
        assert s[q..][0] == last[q - d] != t[0];
      } else if |x| == |last| {
        assert s[q..][1..] == last != x == t[1..];
      } else {
        assert s[q..][d - 1 - q] == ' ' != x[d - 2 - q] == t[d - 1 - q];
      }
    }
  }

  /** A blank-led pattern in " a b", with `a` free of whitespace, occurs at the
      very start or inside `b`. */
  lemma BlankLedSplit(a: string, b: string, pat: string)
    requires forall k :: 0 <= k < |a| ==> !IsSpace(a[k])
    requires |pat| > 0 && IsSpace(pat[0])
    ensures Contains(" " + a + b, pat) ==> OccursAt(" " + a + b, pat, 0) || Contains(b, pat)
  {
    var s := " " + a + b;
    if Contains(s, pat) && !OccursAt(s, pat, 0) {
      var i := IndexOf(s, pat).value;
      assert s[i..i + |pat|][0] == s[i];
      assert i > |a|;
      assert s[i..i + |pat|] == b[i - |a| - 1..i - |a| - 1 + |pat|];
      ContainsAt(b, pat, i - |a| - 1);
    }
  }

  /** A blank-led pattern in "w rest", with `w` free of whitespace, lies
      inside `rest`. */
  lemma BlankLedIn(w: string, rest: string, pat: string)
    requires forall k :: 0 <= k < |w| ==> !IsSpace(w[k])
    requires |pat| > 0 && IsSpace(pat[0])
    ensures Contains(w + rest, pat) ==> Contains(rest, pat)
  {
    var s := w + rest;
    if Contains(s, pat) {
      var i := IndexOf(s, pat).value;
      assert s[i..i + |pat|][0] == s[i];
      assert i >= |w|;
      assert s[i..i + |pat|] == rest[i - |w|..i - |w| + |pat|];
      ContainsAt(rest, pat, i - |w|);
    }
  }

  /** When no word starts with the two characters after the blank of `pat`,
      `pat` never occurs in a blank and the words joined by single blanks. */
  lemma {:induction false} JoinNoBlankPrefix(ws: seq<string>, pat: string)
    requires |ws| > 0 && forall k :: 0 <= k < |ws| ==> IsWord(ws[k])
    requires |pat| == 3 && pat[0] == ' ' && IsWord(pat[1..])
    requires forall k :: 0 <= k < |ws| ==> !(|ws[k]| >= 2 && ws[k][..2] == pat[1..])
    ensures !Contains(" " + Join(ws, " "), pat)
    decreases |ws|
  {
    var t := " " + Join(ws, " ");
    var p := pat[1..];
    var a := ws[0];
    if 3 <= |t| {
      if |a| >= 2 {
        assert t[0..3][1..] == a[..2];
      } else {
        assert t[0..3][2] == ' ' != p[1];
      }
    }
    if |ws| == 1 {
      assert forall k :: 0 < k < |t| ==> t[k] == a[k - 1];
      SpaceOnlyAt(t, 0, pat);
    } else {
      JoinNoBlankPrefix(ws[1..], pat);
      var b := " " + Join(ws[1..], " ");
      assert t == " " + a + b;
      BlankLedSplit(a, b, pat);
    }
  }

  /** A blank-led pattern right after a whitespace-free `w` is found there
      first. */
  lemma FirstAfterWord(w: string, rest: string, pat: string)
    requires forall k :: 0 <= k < |w| ==> !IsSpace(w[k])
    requires |pat| > 0 && IsSpace(pat[0]) && OccursAt(w + rest, pat, |w|)
    ensures IndexOf(w + rest, pat) == Some(|w|)
  {
    var s := w + rest;
    ContainsAt(s, pat, |w|);
    var i := IndexOf(s, pat).value;
    assert s[i..i + |pat|][0] == s[i];
    assert forall k :: 0 <= k < |w| ==> s[k] == w[k];
  }
}
