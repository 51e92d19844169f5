/** The clean-up applied to the model's reply before it is parsed: find a
    Markdown block that opens with ```json and closes with ```, keep what is
    inside it, and strip surrounding whitespace (main.py, extract_json_string).

    The search for the block is modelled as the backtracking matcher that
    Python's `re.search` runs for the pattern  ```json\s*(.*?)\s*```  with
    DOTALL: try every start position from the left, match the opener, let the
    first `\s*` take as much whitespace as it can and give it back one
    character at a time, let the lazy group grow one character at a time, and
    let the second `\s*` again take as much as it can before it must be
    followed by ```. The lemmas at the end characterise the outcome without
    any reference to that search. */
module JsonFence {
  import opened Options

  // ---------------------------------------------------------------------
  // Whitespace and str.strip()
  // ---------------------------------------------------------------------

  /** Whitespace as both `\s` and `str.strip()` see it here: the six ASCII
      whitespace characters. */
  predicate IsSpace(c: char) {
    c == ' ' || c == '\t' || c == '\n' || c == '\r' || c == '\U{000B}' || c == '\U{000C}'
  }

  /** Every character of `s[i..j]` is whitespace. */
  predicate SpaceBetween(s: string, i: int, j: int) {
    forall k :: i <= k < j && 0 <= k < |s| ==> IsSpace(s[k])
  }

  /** Neither begins nor ends with whitespace. */
  predicate Trimmed(s: string) {
    s == [] || (!IsSpace(s[0]) && !IsSpace(s[|s| - 1]))
  }

  /** `s[i..j]` is what is left of `s[lo..hi]` when its leading and trailing
      whitespace is removed. */
  ghost predicate StripsTo(s: string, lo: int, hi: int, i: int, j: int) {
    0 <= lo <= i <= j <= hi <= |s| && SpaceBetween(s, lo, i) && SpaceBetween(s, j, hi) &&
    (i == j || (!IsSpace(s[i]) && !IsSpace(s[j - 1])))
  }

  /** `r` is `s` with its leading and trailing whitespace removed. */
  ghost predicate IsStripOf(s: string, r: string) {
    exists i, j :: StripsTo(s, 0, |s|, i, j) && r == s[i..j]
  }

  /** `r` occurs in `s` as a contiguous slice. */
  ghost predicate IsSliceOf(r: string, s: string) {
    exists i, j :: 0 <= i <= j <= |s| && r == s[i..j]
  }

  /** The end of the run of whitespace that begins at `i`, going no higher than `hi`. */
  function SkipSpace(s: string, i: nat, hi: nat): (j: nat)
    requires i <= hi <= |s|
    ensures i <= j <= hi
    ensures SpaceBetween(s, i, j)
    ensures j < hi ==> !IsSpace(s[j])
    decreases hi - i
  {
    if i < hi && IsSpace(s[i]) then SkipSpace(s, i + 1, hi) else i
  }

  /** The start of the run of whitespace that ends at `j`, going no lower than `lo`. */
  function SpaceStart(s: string, lo: nat, j: nat): (i: nat)
    requires lo <= j <= |s|
    ensures lo <= i <= j
    ensures SpaceBetween(s, i, j)
    ensures lo < i ==> !IsSpace(s[i - 1])
    decreases j
  {
    if lo < j && IsSpace(s[j - 1]) then SpaceStart(s, lo, j - 1) else j
  }

  /** Python's `str.strip()` with no argument. */
  function Strip(s: string): (r: string)
    ensures IsStripOf(s, r)
    ensures Trimmed(r)
  {
    var i := SkipSpace(s, 0, |s|);
    var j := SpaceStart(s, i, |s|);
    assert StripsTo(s, 0, |s|, i, j);
    s[i..j]
  }

  /** Stripping a slice: any `i`, `j` meeting the definition are the bounds of
      the result. */
  lemma StripSlice(s: string, lo: nat, hi: nat, i: nat, j: nat)
    requires StripsTo(s, lo, hi, i, j)
    ensures Strip(s[lo..hi]) == s[i..j]
  {
    var x := s[lo..hi];
    var i0 := SkipSpace(x, 0, |x|);
    var j0 := SpaceStart(x, i0, |x|);
    assert forall k :: 0 <= k < |x| ==> x[k] == s[lo + k];
    if i == j {
      assert SpaceBetween(x, 0, |x|);
      assert i0 == |x|;
    } else {
      assert i0 == i - lo;
      assert j0 == j - lo;
      assert x[i0..j0] == s[i..j];
    }
  }

  /** Stripping has exactly one possible outcome. */
  lemma StripUnique(s: string, r: string)
    requires IsStripOf(s, r)
    ensures r == Strip(s)
  {
  }

  /** Whitespace around a slice does not change what stripping it gives. */
  lemma StripInner(s: string, lo: nat, a: nat, e: nat, hi: nat)
    requires lo <= a <= e <= hi <= |s|
    requires SpaceBetween(s, lo, a) && SpaceBetween(s, e, hi)
    ensures Strip(s[a..e]) == Strip(s[lo..hi])
  {
    var i := SkipSpace(s, a, e);
    var j := SpaceStart(s, i, e);
    StripSlice(s, a, e, i, j);
    StripSlice(s, lo, hi, i, j);
  }

  // ---------------------------------------------------------------------
  // The pattern  ```json\s*(.*?)\s*```
  // ---------------------------------------------------------------------

  const Opener: string := "```json"
  const Closer: string := "```"

  predicate OpensAt(s: string, p: int) {
    0 <= p && p + |Opener| <= |s| && s[p..p + |Opener|] == Opener
  }

  predicate ClosesAt(s: string, t: int) {
    0 <= t && t + |Closer| <= |s| && s[t..t + |Closer|] == Closer
  }

  /** What `re.search` reports: where the opener starts, the span of group 1,
      and where the closing ``` starts. */
  datatype Match = Match(start: nat, groupStart: nat, groupEnd: nat, closer: nat)

  /** `m` is a way of matching the whole pattern in `s`. */
  predicate IsMatch(s: string, m: Match) {
    OpensAt(s, m.start) && ClosesAt(s, m.closer) &&
    m.start + |Opener| <= m.groupStart <= m.groupEnd <= m.closer &&
    SpaceBetween(s, m.start + |Opener|, m.groupStart) && SpaceBetween(s, m.groupEnd, m.closer)
  }

  /** The trailing `\s*` followed by ```: the whitespace run from `e` has been
      taken up to `t`; try ``` at `t`, then give back one character at a time
      down to `e`. Yields where ``` starts. */
  function CloseFrom(s: string, e: nat, t: nat): (r: Option<nat>)
    requires e <= t <= |s|
    ensures r.Some? ==> e <= r.value <= t && ClosesAt(s, r.value)
    decreases t
  {
    if ClosesAt(s, t) then Some(t)
    else if t == e then None
    else CloseFrom(s, e, t - 1)
  }

  /** The lazy group `(.*?)`: try group ends `e`, `e + 1`, ... until the rest of
      the pattern matches. Yields the group end and where ``` starts. */
  function LazyEnd(s: string, e: nat): (r: Option<(nat, nat)>)
    requires e <= |s|
    ensures r.Some? ==> e <= r.value.0 <= r.value.1 && ClosesAt(s, r.value.1)
    ensures r.Some? ==> SpaceBetween(s, r.value.0, r.value.1)
    decreases |s| - e
  {
    match CloseFrom(s, e, SkipSpace(s, e, |s|))
    case Some(t) => Some((e, t))
    case None => if e == |s| then None else LazyEnd(s, e + 1)
  }

  /** The leading `\s*`: the whitespace from `lo` has been taken up to `w`;
      try the rest of the pattern from `w`, then give back one character at a
      time down to `lo`. Yields the group's span and where ``` starts. */
  function GroupFrom(s: string, lo: nat, w: nat): (r: Option<(nat, nat, nat)>)
    requires lo <= w <= |s|
    requires SpaceBetween(s, lo, w)
    ensures r.Some? ==> lo <= r.value.0 <= r.value.1 <= r.value.2 && ClosesAt(s, r.value.2)
    ensures r.Some? ==> SpaceBetween(s, lo, r.value.0) && SpaceBetween(s, r.value.1, r.value.2)
    decreases w - lo
  {
    match LazyEnd(s, w)
    case Some(g) => Some((w, g.0, g.1))
    case None => if w == lo then None else GroupFrom(s, lo, w - 1)
  }

  /** Matching the pattern with its first character at `p`. */
  function MatchAt(s: string, p: nat): (r: Option<Match>)
    ensures r.Some? ==> IsMatch(s, r.value) && r.value.start == p
  {
    if OpensAt(s, p) then
      var lo := p + |Opener|;
      match GroupFrom(s, lo, SkipSpace(s, lo, |s|))
      case Some(g) => Some(Match(p, g.0, g.1, g.2))
      case None => None
    else None
  }

  /** `re.search`: the match with the leftmost start at or after `p`. */
  function Search(s: string, p: nat): (r: Option<Match>)
    ensures r.Some? ==> IsMatch(s, r.value) && p <= r.value.start
    decreases |s| + 1 - p
  {
    if p > |s| then None
    else
      match MatchAt(s, p)
      case Some(m) => Some(m)
      case None => Search(s, p + 1)
  }

  /** `extract_json_string`: the stripped group of the first match, or the
      whole text stripped when there is none. The result never begins or
      ends with whitespace and is always a slice of the text. */
  function ExtractJsonString(text: string): (r: string)
    ensures Trimmed(r)
    ensures IsSliceOf(r, text)
  {
    var (a, b) := match Search(text, 0)
      case Some(m) => (m.groupStart, m.groupEnd)
      case None => (0, |text|);
    var i := SkipSpace(text, a, b);
    var j := SpaceStart(text, i, b);
    StripSlice(text, a, b, i, j);
    Strip(text[a..b])
  }

  // ---------------------------------------------------------------------
  // What the search finds, stated without the search
  // ---------------------------------------------------------------------

  /** `p` is the leftmost occurrence of the opener. */
  ghost predicate FirstOpener(s: string, p: int) {
    OpensAt(s, p) && forall q :: 0 <= q < p ==> !OpensAt(s, q)
  }

  /** `f` is the first occurrence of ``` at or after `lo`. */
  ghost predicate FirstCloserFrom(s: string, lo: int, f: int) {
    lo <= f && ClosesAt(s, f) && forall t :: lo <= t < f ==> !ClosesAt(s, t)
  }

  /** The block runs from the leftmost opener at `p` to the first ``` at `f` after it. */
  ghost predicate FencedAt(s: string, p: int, f: int) {
    FirstOpener(s, p) && FirstCloserFrom(s, p + |Opener|, f)
  }

  /** No opener is followed, after its last character, by ```. */
  ghost predicate Unfenced(s: string) {
    forall p, t :: OpensAt(s, p) && p + |Opener| <= t ==> !ClosesAt(s, t)
  }

  /** Every ``` starts with a backtick, which is not whitespace. */
  lemma CloserNotSpace(s: string, k: int)
    requires ClosesAt(s, k)
    ensures !IsSpace(s[k])
  {
  }

  /** Over a run of whitespace, giving characters back cannot reach a ```. */
  lemma {:induction false} CloseFromOverSpace(s: string, e: nat, t: nat)
    requires e <= t <= |s|
    requires SpaceBetween(s, e, t)
    ensures CloseFrom(s, e, t) == if ClosesAt(s, t) then Some(t) else None
    decreases t
  {
    if !ClosesAt(s, t) && t != e {
      assert !ClosesAt(s, t - 1) by {
        if ClosesAt(s, t - 1) { CloserNotSpace(s, t - 1); }
      }
      CloseFromOverSpace(s, e, t - 1);
    }
  }

  /** From any group end up to the first ``` after `w`, the lazy group stops at that ```. */
  lemma {:induction false} LazyEndFinds(s: string, w: nat, e: nat, f: nat)
    requires w <= e <= f <= |s|
    requires FirstCloserFrom(s, w, f)
    ensures LazyEnd(s, e).Some? && LazyEnd(s, e).value.1 == f
    decreases f - e
  {
    var t := SkipSpace(s, e, |s|);
    CloserNotSpace(s, f);
    CloseFromOverSpace(s, e, t);
    if !ClosesAt(s, t) {
      LazyEndFinds(s, w, e + 1, f);
    }
  }

  /** When ``` follows `lo`, the pattern after the opener matches on the first
      try, and it closes at the first ```. */
  lemma GroupFromFinds(s: string, lo: nat, f: nat)
    requires lo <= |s|
    requires FirstCloserFrom(s, lo, f)
    ensures GroupFrom(s, lo, SkipSpace(s, lo, |s|)).Some?
    ensures GroupFrom(s, lo, SkipSpace(s, lo, |s|)).value.2 == f
  {
    var w := SkipSpace(s, lo, |s|);
    CloserNotSpace(s, f);
    LazyEndFinds(s, w, w, f);
  }

  lemma {:induction false} SearchFinds(s: string, q: nat, p: nat, f: nat)
    requires q <= p
    requires OpensAt(s, p) && forall r :: q <= r < p ==> !OpensAt(s, r)
    requires FirstCloserFrom(s, p + |Opener|, f)
    ensures Search(s, q).Some? && Search(s, q).value.start == p && Search(s, q).value.closer == f
    decreases p - q
  {
    if q == p {
      GroupFromFinds(s, p + |Opener|, f);
    } else {
      SearchFinds(s, q + 1, p, f);
    }
  }

  /** Without a fenced block (no opener at all, or no ``` after any opener)
      the whole text is returned, stripped: the search ends without a match,
      since every match it reports is genuine. */
  lemma ExtractUnfenced(s: string)
    requires Unfenced(s)
    ensures ExtractJsonString(s) == Strip(s)
  {
    assert Search(s, 0) == None;
    assert s[0..|s|] == s;
  }

  /** The leftmost opener with no ``` after it means there is no block at all. */
  lemma ExtractUnclosed(s: string, p: int)
    requires FirstOpener(s, p)
    requires forall t :: p + |Opener| <= t ==> !ClosesAt(s, t)
    ensures ExtractJsonString(s) == Strip(s)
  {
    ExtractUnfenced(s);
  }

  /** With a fenced block, the result is the stripped text between the
      leftmost opener and the first ``` after it; the text in between may span
      lines. */
  lemma ExtractFenced(s: string, p: int, f: int)
    requires FencedAt(s, p, f)
    ensures ExtractJsonString(s) == Strip(s[p + |Opener|..f])
  {
    SearchFinds(s, 0, p, f);
    var m := Search(s, 0).value;
    StripInner(s, p + |Opener|, m.groupStart, m.groupEnd, f);
  }

  lemma {:induction false} LeastOpener(s: string, p: int)
    requires OpensAt(s, p)
    ensures exists q :: q <= p && FirstOpener(s, q)
    decreases p
  {
    if !FirstOpener(s, p) {
      var q :| 0 <= q < p && OpensAt(s, q);
      LeastOpener(s, q);
    }
  }

  lemma {:induction false} LeastCloser(s: string, lo: int, t: int)
    requires lo <= t && ClosesAt(s, t)
    ensures exists f :: FirstCloserFrom(s, lo, f)
    decreases t - lo
  {
    if !FirstCloserFrom(s, lo, t) {
      var u :| lo <= u < t && ClosesAt(s, u);
      LeastCloser(s, lo, u);
    }
  }

  /** A block is found exactly when some ``` starts at or after the end of an opener. */
  lemma SearchIff(s: string)
    ensures Search(s, 0).Some? <==> !Unfenced(s)
  {
    FenceCases(s);
    if !Unfenced(s) {
      var p, f :| FencedAt(s, p, f);
      SearchFinds(s, 0, p, f);
    }
  }

  /** The cases above cover every text: either it is unfenced, or it has a
      leftmost opener followed by a first ```. */
  lemma FenceCases(s: string)
    ensures Unfenced(s) || exists p, f :: FencedAt(s, p, f)
  {
    if !Unfenced(s) {
      var p, t :| OpensAt(s, p) && p + |Opener| <= t && ClosesAt(s, t);
      LeastOpener(s, p);
      var q :| q <= p && FirstOpener(s, q);
      LeastCloser(s, q + |Opener|, t);
      var f :| FirstCloserFrom(s, q + |Opener|, f);
      assert FencedAt(s, q, f);
    }
  }
}
