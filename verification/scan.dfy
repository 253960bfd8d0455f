/** Leftmost-match search, the part of Python's `re.search` that every pattern of
    the translator shares. A pattern is given as a matcher: anchored at a
    position, it yields the end of its match there, if any. */
module Scan {
  import opened Results

  /** A match `s[start..end]`. */
  datatype Span = Span(start: nat, end: nat)

  /** A pattern anchored at a position: the end of the match found there. */
  type Matcher = (string, nat) -> Option<nat>

  /** The leftmost position at or after `from` where the pattern matches. */
  function SearchFrom(s: string, at: Matcher, from: nat): (r: Option<Span>)
    ensures r.Some? ==> from <= r.value.start <= |s| && at(s, r.value.start) == Some(r.value.end)
    ensures r.Some? ==> forall j :: from <= j < r.value.start ==> at(s, j).None?
    ensures r.None? ==> forall j :: from <= j <= |s| ==> at(s, j).None?
    decreases |s| + 1 - from
  {
    if from > |s| then None
    else
      match at(s, from)
      case Some(e) => Some(Span(from, e))
      case None => SearchFrom(s, at, from + 1)
  }

  /** `re.search(pattern, s)`. */
  function Search(s: string, at: Matcher): (r: Option<Span>)
    ensures r.Some? ==> r.value.start <= |s| && at(s, r.value.start) == Some(r.value.end)
    ensures r.Some? ==> forall j :: 0 <= j < r.value.start ==> at(s, j).None?
    ensures r.None? ==> forall j :: 0 <= j <= |s| ==> at(s, j).None?
  {
    SearchFrom(s, at, 0)
  }

  /** The search reports the first position where the pattern matches. */
  lemma SearchFirst(s: string, at: Matcher, i: nat)
    requires i <= |s| && at(s, i).Some?
    requires forall j: nat :: j < i ==> at(s, j).None?
    ensures Search(s, at) == Some(Span(i, at(s, i).value))
  {
    var r := Search(s, at);
    assert r.Some?;
    assert !(r.value.start > i);
  }

  /** Where `re.findall` resumes after a match: its end, or one past its start
      when the match is empty (no pattern of the translator has empty matches). */
  function Resume(span: Span): (next: nat)
    ensures next > span.start && next >= span.end
  {
    if span.end > span.start then span.end else span.start + 1
  }

  /** The matches `re.findall` reports from `from` on: leftmost match, then
      the leftmost match at or after where it ended, and so on. */
  function FindAllFrom(s: string, at: Matcher, from: nat): (spans: seq<Span>)
    ensures forall k :: 0 <= k < |spans| ==>
              from <= spans[k].start <= |s| && at(s, spans[k].start) == Some(spans[k].end)
    ensures forall k :: 0 < k < |spans| ==> Resume(spans[k - 1]) <= spans[k].start
    decreases |s| + 1 - from
  {
    if from > |s| then []
    else
      match SearchFrom(s, at, from)
      case None => []
      case Some(span) =>
        var rest := FindAllFrom(s, at, Resume(span));
        var spans := [span] + rest;
        assert forall k :: 1 <= k < |spans| ==> spans[k] == rest[k - 1];
        spans
  }

  /** One match that spans the whole text is all `findall` reports. */
  lemma FindAllWhole(s: string, at: Matcher)
    requires 0 < |s| && at(s, 0) == Some(|s|) && at(s, |s|).None?
    ensures FindAllFrom(s, at, 0) == [Span(0, |s|)]
  {
    assert SearchFrom(s, at, 0) == Some(Span(0, |s|));
    assert SearchFrom(s, at, |s|).None?;
    assert FindAllFrom(s, at, |s|) == [];
  }

  /** `findall` skips nothing: every position at or after `from` where the
      pattern matches lies inside one of the reported matches. */
  lemma {:induction false} FindAllComplete(s: string, at: Matcher, from: nat, i: nat)
    requires from <= i <= |s| && at(s, i).Some?
    ensures exists k :: 0 <= k < |FindAllFrom(s, at, from)|
                        && FindAllFrom(s, at, from)[k].start <= i < Resume(FindAllFrom(s, at, from)[k])
    decreases |s| + 1 - from
  {
    var spans := FindAllFrom(s, at, from);
    match SearchFrom(s, at, from)
    case None =>
      assert false;
    case Some(span) =>
      assert spans[0] == span;
      if i >= Resume(span) {
        FindAllComplete(s, at, Resume(span), i);
        var rest := FindAllFrom(s, at, Resume(span));
        var k :| 0 <= k < |rest| && rest[k].start <= i < Resume(rest[k]);
        assert spans[k + 1] == rest[k];
      }
  }

  /** For a pattern without empty matches, every position where it matches lies
      inside one of the reported matches. */
  lemma FindAllCovers(s: string, at: Matcher, i: nat)
    requires i <= |s| && at(s, i).Some?
    requires forall j: nat :: j <= |s| && at(s, j).Some? ==> j < at(s, j).value
    ensures exists k :: 0 <= k < |FindAllFrom(s, at, 0)|
                        && FindAllFrom(s, at, 0)[k].start <= i < FindAllFrom(s, at, 0)[k].end
  {
    FindAllComplete(s, at, 0, i);
    var spans := FindAllFrom(s, at, 0);
    var k :| 0 <= k < |spans| && spans[k].start <= i < Resume(spans[k]);
    assert at(s, spans[k].start) == Some(spans[k].end);
  }
}
