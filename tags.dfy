/**
 * Project and context tags: the regex [@+]\S*\w that WorkItem applies to an item's text with
 * re.findall (the tags) and re.sub(..., "") (the description), written out by hand.
 * Both functions scan left to right and take non-overlapping matches, so both are built from
 * one list of match positions.
 */
module Tags {
  import opened Wrappers
  import opened PyStr

  predicate IsTagStart(c: char) {
    c == '@' || c == '+'
  }

  /** s[a..e] is a match of [@+]\S*\w: a tag start, non-whitespace, a word character last. */
  predicate MatchesSpan(s: string, a: nat, e: nat) {
    a + 2 <= e <= |s| && IsTagStart(s[a]) && IsWordChar(s[e - 1])
    && forall j :: a < j < e ==> !IsSpace(s[j])
  }

  /** The end of the run of non-whitespace characters that starts at k. */
  function RunEnd(s: string, k: nat): (e: nat)
    requires k <= |s|
    ensures k <= e <= |s|
    ensures forall j :: k <= j < e ==> !IsSpace(s[j])
    ensures e < |s| ==> IsSpace(s[e])
    decreases |s| - k
  {
    if k == |s| || IsSpace(s[k]) then k else RunEnd(s, k + 1)
  }

  /** The last position in [lo, hi) that holds a word character. */
  function LastWordChar(s: string, lo: nat, hi: nat): (r: Option<nat>)
    requires lo <= hi <= |s|
    ensures r.Some? ==> lo <= r.value < hi && IsWordChar(s[r.value])
    ensures r.Some? ==> forall j :: r.value < j < hi ==> !IsWordChar(s[j])
    ensures r.None? ==> forall j :: lo <= j < hi ==> !IsWordChar(s[j])
    decreases hi - lo
  {
    if hi == lo then None
    else if IsWordChar(s[hi - 1]) then Some(hi - 1)
    else LastWordChar(s, lo, hi - 1)
  }

  /** Where the regex's match at position a ends, if it matches there: \S* first takes the whole
      run of non-whitespace and then gives characters back until \w can match.  So the match is
      the longest span at a that fits the pattern, and there is none when no span fits. */
  function MatchAt(s: string, a: nat): (r: Option<nat>)
    requires a < |s|
    ensures r.Some? ==> a + 2 <= r.value <= |s|
  {
    if !IsTagStart(s[a]) then None
    else
      match LastWordChar(s, a + 1, RunEnd(s, a + 1))
      case None => None
      case Some(j) => Some(j + 1)
  }

  /** The match at a is a span that fits the pattern, and no longer one does; when there is no
      match, no span at a fits. */
  lemma MatchAtIsLongest(s: string, a: nat)
    requires a < |s|
    ensures MatchAt(s, a).Some? ==> MatchesSpan(s, a, MatchAt(s, a).value)
    ensures MatchAt(s, a).Some? ==> forall e :: MatchAt(s, a).value < e <= |s| ==> !MatchesSpan(s, a, e)
    ensures MatchAt(s, a).None? ==> forall e :: !MatchesSpan(s, a, e)
  {
    if IsTagStart(s[a]) {
      var run := RunEnd(s, a + 1);
      assert forall e: nat :: MatchesSpan(s, a, e) ==> e - 1 < run;
    }
  }

  /** The scan that re.findall and re.sub perform from position i: the first position p >= i
      where the pattern matches at all gives the first match (p, e), and the scan goes on from
      its end e. */
  ghost predicate IsLeftmostScan(s: string, i: nat, spans: seq<(nat, nat)>)
    decreases |spans|
  {
    i <= |s| &&
    if spans == [] then
      forall p :: i <= p < |s| ==> MatchAt(s, p).None?
    else
      var a, e := spans[0].0, spans[0].1;
      i <= a < |s| && MatchAt(s, a) == Some(e)
      && (forall p :: i <= p < a ==> MatchAt(s, p).None?)
      && IsLeftmostScan(s, e, spans[1..])
  }

  /** The match positions, in order, found scanning from i. */
  function Spans(s: string, i: nat): seq<(nat, nat)>
    requires i <= |s|
    decreases |s| - i
  {
    if i == |s| then []
    else
      match MatchAt(s, i)
      case Some(e) => [(i, e)] + Spans(s, e)
      case None => Spans(s, i + 1)
  }

  /** A match at i followed by the leftmost scan from its end is the leftmost scan from i. */
  lemma ScanTake(s: string, i: nat, e: nat, rest: seq<(nat, nat)>)
    requires i < |s| && MatchAt(s, i) == Some(e)
    requires IsLeftmostScan(s, e, rest)
    ensures IsLeftmostScan(s, i, [(i, e)] + rest)
  {
    assert ([(i, e)] + rest)[1..] == rest;
  }

  /** Where no match starts at i, the leftmost scan from i + 1 is also the one from i. */
  lemma ScanSkip(s: string, i: nat, spans: seq<(nat, nat)>)
    requires i < |s| && MatchAt(s, i).None?
    requires IsLeftmostScan(s, i + 1, spans)
    ensures IsLeftmostScan(s, i, spans)
  {
  }

  /** The scan Spans performs is the leftmost scan. */
  lemma {:induction false} SpansIsLeftmostScan(s: string, i: nat)
    requires i <= |s|
    ensures IsLeftmostScan(s, i, Spans(s, i))
    decreases |s| - i
  {
    if i < |s| {
      match MatchAt(s, i)
      case Some(e) =>
        SpansIsLeftmostScan(s, e);
        ScanTake(s, i, e, Spans(s, e));
      case None =>
        SpansIsLeftmostScan(s, i + 1);
        ScanSkip(s, i, Spans(s, i + 1));
    }
  }

  /** Every span the scan finds is a match of the pattern that starts at or after i. */
  lemma {:induction false} LeftmostScanMatches(s: string, i: nat, spans: seq<(nat, nat)>, k: nat)
    requires IsLeftmostScan(s, i, spans)
    requires k < |spans|
    ensures i <= spans[k].0 && MatchesSpan(s, spans[k].0, spans[k].1)
    decreases k
  {
    if k > 0 {
      LeftmostScanMatches(s, spans[0].1, spans[1..], k - 1);
    } else {
      MatchAtIsLongest(s, spans[0].0);
    }
  }

  /** The leftmost scan is unique: any list of spans that fits its description is Spans(s, i). */
  lemma {:induction false} LeftmostScanUnique(s: string, i: nat, spans: seq<(nat, nat)>)
    requires IsLeftmostScan(s, i, spans)
    ensures spans == Spans(s, i)
    decreases |s| - i
  {
    var r := Spans(s, i);
    SpansIsLeftmostScan(s, i);
    if spans != [] {
      var a, e := spans[0].0, spans[0].1;
      assert r != [] && r[0].0 == a;
      LeftmostScanUnique(s, e, spans[1..]);
      LeftmostScanUnique(s, e, r[1..]);
      assert spans == [spans[0]] + spans[1..];
      assert r == [r[0]] + r[1..];
    }
  }

  /** Spans that start at or after i, do not overlap and stay within s. */
  predicate Ordered(s: string, i: nat, spans: seq<(nat, nat)>)
    decreases |spans|
  {
    i <= |s|
    && (spans == [] || (i <= spans[0].0 <= spans[0].1 <= |s| && Ordered(s, spans[0].1, spans[1..])))
  }

  lemma {:induction false} LeftmostScanOrdered(s: string, i: nat, spans: seq<(nat, nat)>)
    requires IsLeftmostScan(s, i, spans)
    ensures Ordered(s, i, spans)
    decreases |spans|
  {
    if spans != [] {
      LeftmostScanOrdered(s, spans[0].1, spans[1..]);
    }
  }

  /** The pieces of s[i..] the spans leave between them: one before each span and one after the last. */
  function Gaps(s: string, i: nat, spans: seq<(nat, nat)>): (g: seq<string>)
    requires Ordered(s, i, spans)
    ensures |g| == |spans| + 1
    decreases |spans|
  {
    if spans == [] then [s[i..]] else [s[i..spans[0].0]] + Gaps(s, spans[0].1, spans[1..])
  }

  /** The text of each span. */
  function Slices(s: string, i: nat, spans: seq<(nat, nat)>): (t: seq<string>)
    requires Ordered(s, i, spans)
    ensures |t| == |spans|
    decreases |spans|
  {
    if spans == [] then [] else [s[spans[0].0..spans[0].1]] + Slices(s, spans[0].1, spans[1..])
  }

  /** g[0] + t[0] + g[1] + t[1] + ... + g[n]. */
  function Interleave(g: seq<string>, t: seq<string>): string
    requires |g| == |t| + 1
    decreases |t|
  {
    if t == [] then g[0] else g[0] + t[0] + Interleave(g[1..], t[1..])
  }

  function Concat(g: seq<string>): string
    decreases |g|
  {
    if g == [] then "" else g[0] + Concat(g[1..])
  }

  /** Cutting s[i..] at the spans loses nothing: the gaps and the span texts, in turn, give it back. */
  lemma {:induction false} GapsAndSlicesRebuild(s: string, i: nat, spans: seq<(nat, nat)>)
    requires Ordered(s, i, spans)
    ensures Interleave(Gaps(s, i, spans), Slices(s, i, spans)) == s[i..]
    decreases |spans|
  {
    if spans != [] {
      var a, e := spans[0].0, spans[0].1;
      var g, t := Gaps(s, i, spans), Slices(s, i, spans);
      var g', t' := Gaps(s, e, spans[1..]), Slices(s, e, spans[1..]);
      assert g == [s[i..a]] + g';
      assert t == [s[a..e]] + t';
      assert g[1..] == g' && t[1..] == t';
      GapsAndSlicesRebuild(s, e, spans[1..]);
      calc {
        Interleave(g, t);
        g[0] + t[0] + Interleave(g', t');
        s[i..a] + s[a..e] + s[e..];
        { assert s[i..] == s[i..a] + s[a..e] + s[e..]; }
        s[i..];
      }
    }
  }

  // ---------------------------------------------------------------------------------------
  // What WorkItem.__init__ derives from an item's text.

  /** The match positions of the pattern in text. */
  function TagSpans(text: string): (r: seq<(nat, nat)>)
    ensures IsLeftmostScan(text, 0, r)
    ensures Ordered(text, 0, r)
    ensures forall k :: 0 <= k < |r| ==> MatchesSpan(text, r[k].0, r[k].1)
  {
    var r := Spans(text, 0);
    SpansIsLeftmostScan(text, 0);
    LeftmostScanOrdered(text, 0, r);
    forall k | 0 <= k < |r| ensures MatchesSpan(text, r[k].0, r[k].1) {
      LeftmostScanMatches(text, 0, r, k);
    }
    r
  }

  /** map(str.strip, re.findall("[@+]\S*\w", text)). */
  function ProjectsContexts(text: string): seq<string> {
    var t := Slices(text, 0, TagSpans(text));
    seq(|t|, k requires 0 <= k < |t| => Strip(t[k]))
  }

  /** re.sub("[@+]\S*\w", "", text).strip(). */
  function Description(text: string): string {
    Strip(Concat(Gaps(text, 0, TagSpans(text))))
  }

  lemma {:induction false} SlicesAreMatches(s: string, i: nat, spans: seq<(nat, nat)>, k: nat)
    requires Ordered(s, i, spans)
    requires k < |spans|
    ensures spans[k].0 <= spans[k].1 <= |s|
    ensures Slices(s, i, spans)[k] == s[spans[k].0..spans[k].1]
    decreases k
  {
    if k > 0 {
      SlicesAreMatches(s, spans[0].1, spans[1..], k - 1);
    }
  }

  /** The text of a match starts with '@' or '+', ends with a word character and holds no
      whitespace, so strip leaves it as it is. */
  lemma MatchIsCleanTag(s: string, a: nat, e: nat)
    requires MatchesSpan(s, a, e)
    ensures var t := s[a..e];
      |t| >= 2 && IsTagStart(t[0]) && IsWordChar(t[|t| - 1])
      && (forall j :: 0 <= j < |t| ==> !IsSpace(t[j]))
      && Strip(t) == t
  {
    var t := s[a..e];
    assert t[0] == s[a] && t[|t| - 1] == s[e - 1];
    forall j | 0 <= j < |t| ensures !IsSpace(t[j]) {
      assert t[j] == s[a + j];
    }
    WordCharIsNotSpace(s[e - 1]);
    StripCharsKeepsClean(t, Whitespace);
  }

  /** Each tag is the text of one match, untouched by the strip: it starts with '@' or '+',
      ends with a word character and holds no whitespace. */
  lemma TagsAreMatches(text: string)
    ensures var sp, tags := TagSpans(text), ProjectsContexts(text);
      |tags| == |sp|
      && forall k :: 0 <= k < |tags| ==>
           tags[k] == text[sp[k].0..sp[k].1]
           && |tags[k]| >= 2 && IsTagStart(tags[k][0]) && IsWordChar(tags[k][|tags[k]| - 1])
           && (forall j :: 0 <= j < |tags[k]| ==> !IsSpace(tags[k][j]))
  {
    var sp := TagSpans(text);
    var tags := ProjectsContexts(text);
    forall k | 0 <= k < |tags|
      ensures tags[k] == text[sp[k].0..sp[k].1]
      ensures |tags[k]| >= 2 && IsTagStart(tags[k][0]) && IsWordChar(tags[k][|tags[k]| - 1])
      ensures forall j :: 0 <= j < |tags[k]| ==> !IsSpace(tags[k][j])
    {
      SlicesAreMatches(text, 0, sp, k);
      MatchIsCleanTag(text, sp[k].0, sp[k].1);
    }
  }

  /** Since strip leaves every match as it is, the tags are exactly the matched slices. */
  lemma ProjectsContextsAreSlices(text: string)
    ensures ProjectsContexts(text) == Slices(text, 0, TagSpans(text))
  {
    var sp := TagSpans(text);
    var t := Slices(text, 0, sp);
    forall k | 0 <= k < |t| ensures ProjectsContexts(text)[k] == t[k] {
      SlicesAreMatches(text, 0, sp, k);
      MatchIsCleanTag(text, sp[k].0, sp[k].1);
    }
  }

  /** The text is its description's pieces with the tags put back between them: removing the
      tags removes exactly the matched spans and nothing else. */
  lemma TextIsGapsAndTags(text: string)
    ensures var g := Gaps(text, 0, TagSpans(text));
      |g| == |ProjectsContexts(text)| + 1
      && Interleave(g, ProjectsContexts(text)) == text
      && Description(text) == Strip(Concat(g))
  {
    var sp := TagSpans(text);
    TagsAreMatches(text);
    var t := Slices(text, 0, sp);
    forall k | 0 <= k < |t| ensures ProjectsContexts(text)[k] == t[k] {
      SlicesAreMatches(text, 0, sp, k);
    }
    assert ProjectsContexts(text) == t;
    GapsAndSlicesRebuild(text, 0, sp);
  }

  // ---------------------------------------------------------------------------------------
  // Scanning a text that is built out of tags

  /** No character of s can start a match. */
  predicate TagFree(s: string) {
    forall j :: 0 <= j < |s| ==> !IsTagStart(s[j])
  }

  /** What may follow '@' or '+' for the two to be one whole match: no whitespace, and a word
      character last. */
  predicate IsTagBody(w: string) {
    |w| > 0 && IsWordChar(w[|w| - 1]) && forall j :: 0 <= j < |w| ==> !IsSpace(w[j])
  }

  /** The scan passes over characters that cannot start a match. */
  lemma {:induction false} SpansPassOver(s: string, i: nat, j: nat)
    requires i <= j <= |s| && forall p :: i <= p < j ==> !IsTagStart(s[p])
    ensures Spans(s, i) == Spans(s, j)
    decreases j - i
  {
    if i < j {
      SpansPassOver(s, i + 1, j);
    }
  }

  /** The run of non-whitespace from k ends at the first whitespace character, or at the end. */
  lemma {:induction false} RunEndAt(s: string, k: nat, e: nat)
    requires k <= e <= |s| && forall j :: k <= j < e ==> !IsSpace(s[j])
    requires e == |s| || IsSpace(s[e])
    ensures RunEnd(s, k) == e
    decreases e - k
  {
    if k < e {
      RunEndAt(s, k + 1, e);
    }
  }

  /** '@' or '+' at a, then a tag body, then whitespace or the end of s: the match at a is the
      tag start and the whole body. */
  lemma MatchAtTag(s: string, a: nat, w: string)
    requires IsTagBody(w) && a + |w| + 1 <= |s| && IsTagStart(s[a]) && s[a + 1..a + |w| + 1] == w
    requires a + |w| + 1 == |s| || IsSpace(s[a + |w| + 1])
    ensures MatchAt(s, a) == Some(a + |w| + 1)
  {
    var e := a + |w| + 1;
    forall j | a + 1 <= j < e ensures !IsSpace(s[j]) {
      assert s[j] == w[j - a - 1];
    }
    RunEndAt(s, a + 1, e);
    assert s[e - 1] == w[|w| - 1];
  }
}
