/**
 * TodoFile: two maps from line index to item, one for in-progress and one for complete items,
 * and the index of the next free line.  The module first gives every operation as a function
 * on the state value Doc, with the properties proved about it, and then the class TodoFile
 * whose methods update its three fields as those functions say.
 */
module Document {
  import opened Wrappers
  import opened PyStr
  import opened Items
  import opened LineParser
  import opened Tags

  /** The fields of a TodoFile: _incomplete_items, _complete_items and _next_line. */
  datatype Doc = Doc(incomplete: map<nat, Item>, complete: map<nat, Item>, nextLine: nat)

  /** Every key of either map is a line of the file. */
  predicate KeysBelow(d: Doc) {
    (forall l :: l in d.incomplete ==> l < d.nextLine)
    && (forall l :: l in d.complete ==> l < d.nextLine)
  }

  /** Each map holds items of its own kind. */
  predicate KindsMatch(d: Doc) {
    (forall l :: l in d.incomplete ==> d.incomplete[l].InProgress?)
    && (forall l :: l in d.complete ==> d.complete[l].Complete?)
  }

  /** Every item was constructed, so its dates parse. */
  predicate ValidItems(d: Doc) {
    (forall l :: l in d.incomplete ==> ValidItem(d.incomplete[l]))
    && (forall l :: l in d.complete ==> ValidItem(d.complete[l]))
  }

  /** No line is in both maps.  Parsing establishes it; edit_item can break it. */
  predicate Disjoint(d: Doc) {
    forall l :: l in d.incomplete ==> l !in d.complete
  }

  predicate Valid(d: Doc) {
    KeysBelow(d) && KindsMatch(d) && ValidItems(d)
  }

  /** get_item: the in-progress item at the line, else the complete one, else None. */
  function ItemAt(d: Doc, l: nat): Option<Item> {
    if l in d.incomplete then Some(d.incomplete[l])
    else if l in d.complete then Some(d.complete[l])
    else None
  }

  /** get_item finds an item exactly at the lines either map holds; on a file whose lines are
      in one map only, the item's kind says which map it came from. */
  lemma ItemAtFindsEither(d: Doc, l: nat)
    requires KindsMatch(d) && Disjoint(d)
    ensures ItemAt(d, l).Some? <==> l in d.incomplete || l in d.complete
    ensures ItemAt(d, l).Some? ==>
      (ItemAt(d, l).value.Complete? <==> l in d.complete)
      && ItemAt(d, l).value == (if l in d.complete then d.complete[l] else d.incomplete[l])
  {
  }

  /** What __str__ writes for line i: the item's text, or nothing when the line is empty. */
  function LineText(d: Doc, i: nat): string {
    match ItemAt(d, i)
    case None => ""
    case Some(it) => Render(it)
  }

  /** The lines __str__ writes, one for each index below _next_line. */
  function Lines(d: Doc): (r: seq<string>)
    ensures |r| == d.nextLine
    ensures forall i :: 0 <= i < d.nextLine ==> r[i] == LineText(d, i)
  {
    seq(d.nextLine, i requires 0 <= i => LineText(d, i))
  }

  /** TodoFile.__str__: every line followed by "\n". */
  function RenderDoc(d: Doc): string {
    JoinLines(Lines(d))
  }

  /** Two states that agree on every line below the same _next_line render the same lines. */
  lemma SameLines(d: Doc, e: Doc)
    requires d.nextLine == e.nextLine
    requires forall i :: 0 <= i < d.nextLine ==> ItemAt(d, i) == ItemAt(e, i)
    ensures Lines(d) == Lines(e)
  {
    assert forall i :: 0 <= i < d.nextLine ==> Lines(d)[i] == Lines(e)[i];
  }

  // ---------------------------------------------------------------------------------------
  // TodoFile.__init__

  /** Files item it under line i in the map of its kind. */
  function File(d: Doc, i: nat, it: Item): Doc {
    if it.Complete? then d.(complete := d.complete[i := it])
    else d.(incomplete := d.incomplete[i := it])
  }

  /** What ParseLine makes of each line. */
  function LineResults(lines: seq<string>): (rs: seq<Result<Option<Item>, Error>>)
    ensures |rs| == |lines| && forall i :: 0 <= i < |lines| ==> rs[i] == ParseLine(i, lines[i])
  {
    seq(|lines|, i requires 0 <= i < |lines| => ParseLine(i, lines[i]))
  }

  /** The state the loop of __init__ has built once it has filed the first n line results into
      a file of size lines, or the first exception among them. */
  function Collect(rs: seq<Result<Option<Item>, Error>>, n: nat, size: nat): (r: Result<Doc, Error>)
    requires n <= |rs|
    ensures r.Ok? ==> r.value.nextLine == size
    decreases n
  {
    if n == 0 then Ok(Doc(map[], map[], size))
    else
      match Collect(rs, n - 1, size)
      case Err(e) => Err(e)
      case Ok(d) =>
        match rs[n - 1]
        case Err(e) => Err(e)
        case Ok(None) => Ok(d)
        case Ok(Some(it)) => Ok(File(d, n - 1, it))
  }

  /** One more line result filed. */
  lemma CollectNext(rs: seq<Result<Option<Item>, Error>>, n: nat, size: nat)
    requires n < |rs|
    ensures Collect(rs, n + 1, size)
         == match Collect(rs, n, size)
            case Err(e) => Err(e)
            case Ok(d) =>
              match rs[n]
              case Err(e) => Err(e)
              case Ok(None) => Ok(d)
              case Ok(Some(it)) => Ok(File(d, n, it))
  {
  }

  /** TodoFile(filedata). */
  function Parse(data: string): Result<Doc, Error> {
    var lines := SplitLines(data);
    Collect(LineResults(lines), |lines|, |lines|)
  }

  /** Line results as ParseLine gives them: every item is valid. */
  predicate ValidResults(rs: seq<Result<Option<Item>, Error>>) {
    forall i :: 0 <= i < |rs| && rs[i].Ok? && rs[i].value.Some? ==> ValidItem(rs[i].value.value)
  }

  /** What the loop has built after n lines: each line below n holds its result's item, in the
      map of its kind and in no other, and no other line holds anything; it fails exactly when
      one of those results is an exception. */
  lemma {:induction false} CollectItems(rs: seq<Result<Option<Item>, Error>>, n: nat, size: nat)
    requires n <= |rs| && ValidResults(rs)
    ensures Collect(rs, n, size).Ok? <==> forall i :: 0 <= i < n ==> rs[i].Ok?
    ensures Collect(rs, n, size).Ok? ==>
      var d := Collect(rs, n, size).value;
      (forall i :: 0 <= i < n ==> ItemAt(d, i) == rs[i].value)
      && (forall l :: l in d.incomplete ==> l < n) && (forall l :: l in d.complete ==> l < n)
      && Disjoint(d) && KindsMatch(d) && ValidItems(d)
    decreases n
  {
    if n > 0 {
      CollectItems(rs, n - 1, size);
      if Collect(rs, n - 1, size).Ok? && rs[n - 1].Ok? {
        var d := Collect(rs, n - 1, size).value;
        var r := Collect(rs, n, size).value;
        forall i | 0 <= i < n - 1 ensures ItemAt(r, i) == ItemAt(d, i) {
        }
      }
    }
  }

  /** The exception construction raises is the one the first failing line raised. */
  lemma {:induction false} CollectError(rs: seq<Result<Option<Item>, Error>>, n: nat, size: nat)
    requires n <= |rs| && Collect(rs, n, size).Err?
    ensures exists i :: 0 <= i < n && rs[i] == Err(Collect(rs, n, size).error)
                        && forall j :: 0 <= j < i ==> rs[j].Ok?
    decreases n
  {
    if Collect(rs, n - 1, size).Err? {
      CollectError(rs, n - 1, size);
    } else {
      CollectOk(rs, n - 1, size);
    }
  }

  lemma {:induction false} CollectOk(rs: seq<Result<Option<Item>, Error>>, n: nat, size: nat)
    requires n <= |rs| && Collect(rs, n, size).Ok?
    ensures forall i :: 0 <= i < n ==> rs[i].Ok?
    decreases n
  {
    if n > 0 {
      CollectOk(rs, n - 1, size);
    }
  }

  /** Once a line has raised, the loop has stopped: later lines change nothing. */
  lemma {:induction false} CollectStaysErr(rs: seq<Result<Option<Item>, Error>>, n: nat, m: nat, size: nat)
    requires n <= m <= |rs| && Collect(rs, n, size).Err?
    ensures Collect(rs, m, size) == Collect(rs, n, size)
    decreases m
  {
    if m > n {
      CollectStaysErr(rs, n, m - 1, size);
    }
  }

  lemma LineResultsValid(lines: seq<string>)
    ensures ValidResults(LineResults(lines))
  {
    var rs := LineResults(lines);
    forall i | 0 <= i < |rs| && rs[i].Ok? && rs[i].value.Some? ensures ValidItem(rs[i].value.value) {
      assert rs[i] == ParseLine(i, lines[i]);
    }
  }

  /** Construction fails exactly when a line fails, with the exception of the first line that
      does (LineResults(lines)[i] is ParseLine(i, lines[i])). */
  lemma ParseErrors(data: string)
    ensures var rs := LineResults(SplitLines(data));
      Parse(data).Ok? <==> forall i :: 0 <= i < |rs| ==> rs[i].Ok?
    ensures var rs := LineResults(SplitLines(data));
      Parse(data).Err? ==>
        exists i :: 0 <= i < |rs| && rs[i] == Err(Parse(data).error)
                    && forall j :: 0 <= j < i ==> rs[j].Ok?
  {
    var lines := SplitLines(data);
    var rs := LineResults(lines);
    if Parse(data).Err? {
      CollectError(rs, |lines|, |lines|);
      assert !forall i :: 0 <= i < |rs| ==> rs[i].Ok?;
    } else {
      CollectOk(rs, |lines|, |lines|);
    }
  }

  /** After construction _next_line is the number of lines, every key is a line, no line is
      in both maps, and each line holds the item ParseLine made of it. */
  lemma ParseShape(data: string)
    requires Parse(data).Ok?
    ensures var d, rs := Parse(data).value, LineResults(SplitLines(data));
      d.nextLine == |rs| && Valid(d) && Disjoint(d)
      && forall i :: 0 <= i < |rs| ==> rs[i].Ok? && ItemAt(d, i) == rs[i].value
  {
    var lines := SplitLines(data);
    var rs := LineResults(lines);
    LineResultsValid(lines);
    CollectItems(rs, |lines|, |lines|);
  }

  /** The complete pattern is tried first: a line of the parsed file holds a complete item
      exactly when that pattern matches it. */
  lemma ParseTriesCompleteFirst(data: string, i: nat)
    requires Parse(data).Ok? && i < |SplitLines(data)|
    ensures var d := Parse(data).value;
      ItemAt(d, i).Some? && ItemAt(d, i).value.Complete? <==> MatchComplete(SplitLines(data)[i]).Some?
  {
    var lines := SplitLines(data);
    ParseShape(data);
    assert LineResults(lines)[i] == ParseLine(i, lines[i]);
  }

  /** The lines of data, each stripped. */
  function StripAll(lines: seq<string>): (r: seq<string>)
    ensures |r| == |lines| && forall i :: 0 <= i < |lines| ==> r[i] == Strip(lines[i])
  {
    seq(|lines|, i requires 0 <= i < |lines| => Strip(lines[i]))
  }

  /** One line of the parsed file is written back as the source line stripped. */
  lemma LineWrittenBack(d: Doc, lines: seq<string>, i: nat)
    requires i < |lines| && NoLineBreak(lines[i])
    requires LineResults(lines)[i].Ok? && ItemAt(d, i) == LineResults(lines)[i].value
    ensures LineText(d, i) == Strip(lines[i])
  {
    assert LineResults(lines)[i] == ParseLine(i, lines[i]);
    ParseLineRoundTrip(i, lines[i]);
  }

  /** Parsing a file and writing it back gives every line stripped and followed by "\n"
      (lines without an item come back empty, and they were empty already). */
  lemma ParseRenderRoundTrip(data: string)
    requires Parse(data).Ok?
    ensures RenderDoc(Parse(data).value) == JoinLines(StripAll(SplitLines(data)))
  {
    var lines := SplitLines(data);
    var d := Parse(data).value;
    ParseShape(data);
    forall i | 0 <= i < |lines| ensures Lines(d)[i] == StripAll(lines)[i] {
      LineWrittenBack(d, lines, i);
    }
    assert Lines(d) == StripAll(lines);
  }

  // ---------------------------------------------------------------------------------------
  // Lines after an edit.

  /** A state with one more line that agrees with d on d's lines renders d's lines followed by
      its new last line. */
  lemma AppendedLines(d: Doc, r: Doc)
    requires r.nextLine == d.nextLine + 1
    requires forall i :: 0 <= i < d.nextLine ==> ItemAt(r, i) == ItemAt(d, i)
    ensures Lines(r) == Lines(d) + [LineText(r, d.nextLine)]
  {
    var a, b := Lines(d), Lines(r);
    forall i | 0 <= i < |a| ensures b[i] == a[i] {
      assert LineText(r, i) == LineText(d, i);
    }
    assert b == a + [b[|a|]];
  }

  /** A state that differs from d at one line only renders d's lines with that one replaced. */
  lemma ReplacedLine(d: Doc, r: Doc, line: nat)
    requires r.nextLine == d.nextLine && line < d.nextLine
    requires forall l :: l != line ==> ItemAt(r, l) == ItemAt(d, l)
    ensures Lines(r) == Lines(d)[line := LineText(r, line)]
  {
    var a, b := Lines(d), Lines(r);
    forall i | 0 <= i < |a| && i != line ensures b[i] == a[i] {
      assert LineText(r, i) == LineText(d, i);
    }
    assert b == a[line := b[line]];
  }

  // ---------------------------------------------------------------------------------------
  // add_item and add_existing_item

  /** The elements of xs, each with c in front: ('+' + proj for proj in projects). */
  function Prefixed(c: char, xs: seq<string>): (r: seq<string>)
    ensures |r| == |xs| && forall k :: 0 <= k < |xs| ==> r[k] == [c] + xs[k]
  {
    seq(|xs|, k requires 0 <= k < |xs| => [c] + xs[k])
  }

  /** full_text in add_item and edit_item: the text, the '+' projects and the '@' contexts,
      the three parts always joined by single spaces. */
  function FullText(text: string, projects: seq<string>, contexts: seq<string>): string {
    text + " " + Join(" ", Prefixed('+', projects)) + " " + Join(" ", Prefixed('@', contexts))
  }

  /** An empty list still contributes its separator, so spaces accumulate at the end. */
  lemma FullTextExamples()
    ensures FullText("call", ["mom"], ["phone"]) == "call +mom @phone"
    ensures FullText("call", [], []) == "call  "
    ensures FullText("call", ["mom"], []) == "call +mom "
  {
    assert ['+'] + "mom" == "+mom" && ['@'] + "phone" == "@phone";
    assert Prefixed('+', ["mom"]) == ["+mom"];
    assert Prefixed('@', ["phone"]) == ["@phone"];
    assert Prefixed('+', []) == [] && Prefixed('@', []) == [];
  }

  lemma PrefixedCons(c: char, ws: seq<string>)
    requires ws != []
    ensures Prefixed(c, ws)[0] == [c] + ws[0] && Prefixed(c, ws)[1..] == Prefixed(c, ws[1..])
  {
  }

  /** Where the tags of Join(" ", Prefixed(c, ws)) lie when it is placed at i: each word after
      its tag start, one space between them. */
  function TagPlaces(i: nat, ws: seq<string>): (r: seq<(nat, nat)>)
    ensures |r| == |ws|
    decreases |ws|
  {
    if ws == [] then [] else [(i, i + |ws[0]| + 1)] + TagPlaces(i + |ws[0]| + 2, ws[1..])
  }

  lemma TagPlacesCons(i: nat, w: string, rest: seq<string>)
    ensures TagPlaces(i, [w] + rest) == [(i, i + |w| + 1)] + TagPlaces(i + |w| + 2, rest)
  {
    assert ([w] + rest)[0] == w && ([w] + rest)[1..] == rest;
  }

  /** The joined tags: the first one alone, or the first one, a space and the joined others. */
  lemma JoinPrefixedCons(c: char, w: string, rest: seq<string>)
    ensures rest == [] ==> Join(" ", Prefixed(c, [w] + rest)) == [c] + w
    ensures rest != [] ==> Join(" ", Prefixed(c, [w] + rest)) == [c] + w + " " + Join(" ", Prefixed(c, rest))
  {
    PrefixedCons(c, [w] + rest);
    assert ([w] + rest)[0] == w && ([w] + rest)[1..] == rest;
  }

  /** s holds the joined tags of ws from i on, followed by whitespace or the end of s. */
  predicate JoinedAt(s: string, i: nat, c: char, ws: seq<string>) {
    var j := Join(" ", Prefixed(c, ws));
    i + |j| <= |s| && s[i..i + |j|] == j && (i + |j| == |s| || IsSpace(s[i + |j|]))
  }

  /** Joined tags at i: the first one is at i, then comes whitespace, and when there are others,
      they are joined from the next position on and end where the whole list ends. */
  lemma JoinedAtCons(s: string, i: nat, c: char, w: string, rest: seq<string>)
    requires JoinedAt(s, i, c, [w] + rest)
    ensures i + |w| + 1 <= |s| && s[i] == c && s[i + 1..i + |w| + 1] == w
    ensures i + |w| + 1 == |s| || IsSpace(s[i + |w| + 1])
    ensures rest == [] ==> |Join(" ", Prefixed(c, [w] + rest))| == |w| + 1
    ensures rest != [] ==> s[i + |w| + 1] == ' ' && JoinedAt(s, i + |w| + 2, c, rest)
                           && |Join(" ", Prefixed(c, [w] + rest))| == |w| + 2 + |Join(" ", Prefixed(c, rest))|
  {
    JoinPrefixedCons(c, w, rest);
    var j := Join(" ", Prefixed(c, [w] + rest));
    var e := i + |w| + 1;
    assert s[i..e] == j[..|w| + 1] == [c] + w;
    assert s[i] == ([c] + w)[0];
    if rest != [] {
      var j' := Join(" ", Prefixed(c, rest));
      assert s[e] == j[|w| + 1] == ' ';
      assert s[e + 1..e + 1 + |j'|] == j[|w| + 2..] == j';
    }
  }

  /** Where joined tags of ws placed at i end. */
  function TagsEnd(i: nat, ws: seq<string>): nat
    decreases |ws|
  {
    if ws == [] then i else if |ws| == 1 then i + |ws[0]| + 1 else TagsEnd(i + |ws[0]| + 2, ws[1..])
  }

  /** s holds, from i on, the tags of ws one by one: the tag start c and the word, then a space
      before the next one, and whitespace or the end of s after the last. */
  predicate TagsAt(s: string, i: nat, c: char, ws: seq<string>)
    decreases |ws|
  {
    if ws == [] then i <= |s|
    else
      var e := i + |ws[0]| + 1;
      e <= |s| && s[i] == c && s[i + 1..e] == ws[0]
      && if |ws| == 1 then e == |s| || IsSpace(s[e])
         else e < |s| && s[e] == ' ' && TagsAt(s, e + 1, c, ws[1..])
  }

  /** Joined tags at i are the tags one by one, ending where the joined string does. */
  lemma {:induction false} JoinedAtTags(s: string, i: nat, c: char, ws: seq<string>)
    requires JoinedAt(s, i, c, ws)
    ensures TagsAt(s, i, c, ws) && TagsEnd(i, ws) == i + |Join(" ", Prefixed(c, ws))|
    decreases |ws|
  {
    if ws != [] {
      var w, rest := ws[0], ws[1..];
      assert ws == [w] + rest;
      JoinedAtCons(s, i, c, w, rest);
      if rest != [] {
        JoinedAtTags(s, i + |w| + 2, c, rest);
      }
    }
  }

  /** Tags one by one from i: the scan finds each of them, in order, and then goes on after
      the last. */
  lemma {:induction false} TagsScan(s: string, i: nat, c: char, ws: seq<string>)
    requires IsTagStart(c) && (forall k :: 0 <= k < |ws| ==> IsTagBody(ws[k])) && TagsAt(s, i, c, ws)
    ensures TagsEnd(i, ws) <= |s| && Spans(s, i) == TagPlaces(i, ws) + Spans(s, TagsEnd(i, ws))
    decreases |ws|
  {
    if ws != [] {
      var w := ws[0];
      var e := i + |w| + 1;
      MatchAtTag(s, i, w);
      assert Spans(s, i) == [(i, e)] + Spans(s, e);
      if |ws| > 1 {
        assert Spans(s, e) == Spans(s, e + 1);
        TagsScan(s, e + 1, c, ws[1..]);
      }
    }
  }

  /** Each place TagPlaces gives for joined tags at i holds the tag start and its word. */
  lemma {:induction false} JoinPlaces(s: string, i: nat, c: char, ws: seq<string>, k: nat)
    requires JoinedAt(s, i, c, ws) && k < |ws|
    ensures TagPlaces(i, ws)[k].0 <= TagPlaces(i, ws)[k].1 <= |s|
    ensures s[TagPlaces(i, ws)[k].0..TagPlaces(i, ws)[k].1] == [c] + ws[k]
    decreases k
  {
    var w, rest := ws[0], ws[1..];
    assert ws == [w] + rest;
    JoinedAtCons(s, i, c, w, rest);
    TagPlacesCons(i, w, rest);
    if k == 0 {
      assert s[i..i + |w| + 1] == [s[i]] + s[i + 1..i + |w| + 1];
    } else {
      JoinPlaces(s, i + |w| + 2, c, rest, k - 1);
    }
  }

  /** How full_text is laid out: the text, a space, the joined projects at i1, a space, and
      the joined contexts at i2, up to the end. */
  lemma FullTextLayout(text: string, projects: seq<string>, contexts: seq<string>)
    ensures var s, j1, j2 := FullText(text, projects, contexts), Join(" ", Prefixed('+', projects)), Join(" ", Prefixed('@', contexts));
      var i1 := |text| + 1;
      var i2 := i1 + |j1| + 1;
      i2 + |j2| == |s| && s[..|text|] == text && s[|text|] == ' ' && s[i2 - 1] == ' '
      && JoinedAt(s, i1, '+', projects) && JoinedAt(s, i2, '@', contexts)
  {
    var s := FullText(text, projects, contexts);
    var j1, j2 := Join(" ", Prefixed('+', projects)), Join(" ", Prefixed('@', contexts));
    var i1 := |text| + 1;
    var i2 := i1 + |j1| + 1;
    assert s == text + " " + j1 + " " + j2;
    assert s[..|text|] == text && s[|text|] == ' ';
    assert s[i1..i1 + |j1|] == j1 && s[i1 + |j1|] == ' ' && s[i2..i2 + |j2|] == j2;
  }

  /** A text with no tag start in its first n characters, then a space and '+' tags one by one:
      the scan finds those tags first. */
  lemma HeadSpans(s: string, n: nat, projects: seq<string>)
    requires forall k :: 0 <= k < |projects| ==> IsTagBody(projects[k])
    requires n < |s| && (forall p :: 0 <= p < n ==> !IsTagStart(s[p])) && s[n] == ' '
    requires TagsAt(s, n + 1, '+', projects)
    ensures TagsEnd(n + 1, projects) <= |s|
    ensures Spans(s, 0) == TagPlaces(n + 1, projects) + Spans(s, TagsEnd(n + 1, projects))
  {
    SpansPassOver(s, 0, n + 1);
    TagsScan(s, n + 1, '+', projects);
  }

  /** A space at e and then '@' tags one by one to the end: from e the scan finds just those. */
  lemma TailSpans(s: string, e: nat, contexts: seq<string>)
    requires forall k :: 0 <= k < |contexts| ==> IsTagBody(contexts[k])
    requires e < |s| && s[e] == ' ' && TagsAt(s, e + 1, '@', contexts) && TagsEnd(e + 1, contexts) == |s|
    ensures Spans(s, e) == TagPlaces(e + 1, contexts)
  {
    SpansPassOver(s, e, e + 1);
    TagsScan(s, e + 1, '@', contexts);
    assert TagPlaces(e + 1, contexts) + [] == TagPlaces(e + 1, contexts);
  }

  /** A text with no tag start in its first n characters, then a space, '+' tags one by one up
      to e1, a space, and '@' tags one by one from e1 + 1 to the end: the scan finds the '+'
      tags and then the '@' tags. */
  lemma LayoutSpans(s: string, n: nat, e1: nat, projects: seq<string>, contexts: seq<string>)
    requires forall k :: 0 <= k < |projects| ==> IsTagBody(projects[k])
    requires forall k :: 0 <= k < |contexts| ==> IsTagBody(contexts[k])
    requires n < |s| && (forall p :: 0 <= p < n ==> !IsTagStart(s[p])) && s[n] == ' '
    requires TagsAt(s, n + 1, '+', projects) && e1 == TagsEnd(n + 1, projects)
    requires e1 < |s| && s[e1] == ' ' && TagsAt(s, e1 + 1, '@', contexts) && TagsEnd(e1 + 1, contexts) == |s|
    ensures Spans(s, 0) == TagPlaces(n + 1, projects) + TagPlaces(e1 + 1, contexts)
  {
    HeadSpans(s, n, projects);
    TailSpans(s, e1, contexts);
  }

  /** The texts at the places of the '+' tags and then of the '@' tags are those tags. */
  lemma PlacesHoldTags(s: string, i1: nat, i2: nat, projects: seq<string>, contexts: seq<string>, k: nat)
    requires JoinedAt(s, i1, '+', projects) && JoinedAt(s, i2, '@', contexts)
    requires k < |projects| + |contexts|
    ensures var sp := TagPlaces(i1, projects) + TagPlaces(i2, contexts);
      sp[k].0 <= sp[k].1 <= |s| && s[sp[k].0..sp[k].1] == (Prefixed('+', projects) + Prefixed('@', contexts))[k]
  {
    if k < |projects| {
      JoinPlaces(s, i1, '+', projects, k);
    } else {
      JoinPlaces(s, i2, '@', contexts, k - |projects|);
    }
  }

  /** When the scan finds the '+' tags at i1 and then the '@' tags at i2, those are the tags. */
  lemma LayoutTags(s: string, i1: nat, i2: nat, projects: seq<string>, contexts: seq<string>)
    requires JoinedAt(s, i1, '+', projects) && JoinedAt(s, i2, '@', contexts)
    requires TagSpans(s) == TagPlaces(i1, projects) + TagPlaces(i2, contexts)
    ensures ProjectsContexts(s) == Prefixed('+', projects) + Prefixed('@', contexts)
  {
    var sp := TagSpans(s);
    ProjectsContextsAreSlices(s);
    var tags, want := ProjectsContexts(s), Prefixed('+', projects) + Prefixed('@', contexts);
    forall k | 0 <= k < |sp| ensures tags[k] == want[k] {
      SlicesAreMatches(s, 0, sp, k);
      PlacesHoldTags(s, i1, i2, projects, contexts, k);
    }
  }

  /** The tags of a text laid out as LayoutSpans asks are the '+' tags and then the '@' tags. */
  lemma LayoutRoundTrip(s: string, n: nat, i2: nat, projects: seq<string>, contexts: seq<string>)
    requires forall k :: 0 <= k < |projects| ==> IsTagBody(projects[k])
    requires forall k :: 0 <= k < |contexts| ==> IsTagBody(contexts[k])
    requires n < |s| && (forall p :: 0 <= p < n ==> !IsTagStart(s[p])) && s[n] == ' '
    requires JoinedAt(s, n + 1, '+', projects) && i2 == n + 1 + |Join(" ", Prefixed('+', projects))| + 1
    requires i2 + |Join(" ", Prefixed('@', contexts))| == |s| && s[i2 - 1] == ' ' && JoinedAt(s, i2, '@', contexts)
    ensures ProjectsContexts(s) == Prefixed('+', projects) + Prefixed('@', contexts)
  {
    JoinedAtTags(s, n + 1, '+', projects);
    JoinedAtTags(s, i2, '@', contexts);
    LayoutSpans(s, n, i2 - 1, projects, contexts);
    assert TagSpans(s) == Spans(s, 0);
    LayoutTags(s, n + 1, i2, projects, contexts);
  }

  /** add_item's promise that the item carries the projects and contexts it is given: when the
      text holds no '@' or '+' and every project and context is a tag body, the tags of
      full_text are the projects with '+' and then the contexts with '@', in order. */
  lemma FullTextTags(text: string, projects: seq<string>, contexts: seq<string>)
    requires TagFree(text)
    requires forall k :: 0 <= k < |projects| ==> IsTagBody(projects[k])
    requires forall k :: 0 <= k < |contexts| ==> IsTagBody(contexts[k])
    ensures ProjectsContexts(FullText(text, projects, contexts)) == Prefixed('+', projects) + Prefixed('@', contexts)
  {
    var s := FullText(text, projects, contexts);
    var i2 := |text| + 1 + |Join(" ", Prefixed('+', projects))| + 1;
    FullTextLayout(text, projects, contexts);
    forall p | 0 <= p < |text| ensures !IsTagStart(s[p]) {
      assert s[p] == s[..|text|][p];
    }
    LayoutRoundTrip(s, |text|, i2, projects, contexts);
  }

  /** add_item: a new in-progress item on the next line, which then moves on by one. */
  function AddItemDoc(d: Doc, text: string, priority: Option<string>, start: Option<string>,
                      projects: seq<string>, contexts: seq<string>): Result<Doc, Error>
  {
    match NewInProgress(d.nextLine, FullText(text, projects, contexts), priority, start)
    case Err(e) => Err(e)
    case Ok(it) => Ok(d.(incomplete := d.incomplete[d.nextLine := it], nextLine := d.nextLine + 1))
  }

  /** add_item fails only on a bad start date; otherwise the item is at the old _next_line,
      _next_line has grown by one, every other line is as it was, and the file has gained one
      line at its end. */
  lemma AddItemAppends(d: Doc, text: string, priority: Option<string>, start: Option<string>,
                       projects: seq<string>, contexts: seq<string>)
    requires KeysBelow(d)
    ensures var r := AddItemDoc(d, text, priority, start, projects, contexts);
      (r.Ok? <==> DateFieldOk(start)) && (r.Err? ==> r.error == BadDate(start.value))
    ensures var r := AddItemDoc(d, text, priority, start, projects, contexts);
      var it := InProgress(d.nextLine, FullText(text, projects, contexts), start, priority);
      r.Ok? ==>
        r.value.nextLine == d.nextLine + 1 && r.value.complete == d.complete
        && r.value.incomplete == d.incomplete[d.nextLine := it]
        && ItemAt(r.value, d.nextLine) == Some(it)
        && (forall l :: l != d.nextLine ==> ItemAt(r.value, l) == ItemAt(d, l))
        && Lines(r.value) == Lines(d) + [Render(it)]
        && (Valid(d) ==> Valid(r.value)) && (Disjoint(d) ==> Disjoint(r.value))
  {
    var r := AddItemDoc(d, text, priority, start, projects, contexts);
    if r.Ok? {
      var it := InProgress(d.nextLine, FullText(text, projects, contexts), start, priority);
      assert WithLine(it, d.nextLine) == it;
      assert r.value == AddExistingDoc(d, it, false);
      AddExistingAppends(d, it, false);
      AddExistingValid(d, it, false);
    }
  }
  /** Filtering tags that all start with c on a one-character prefix d keeps them all when d is
      c and none otherwise. */
  lemma {:induction false} WithPrefixPrefixed(xs: seq<string>, c: char, d: char)
    ensures WithPrefix(Prefixed(c, xs), [d]) == if c == d then Prefixed(c, xs) else []
    decreases |xs|
  {
    if xs != [] {
      var p := Prefixed(c, xs);
      assert p[1..] == Prefixed(c, xs[1..]);
      assert p[0][..1] == [c];
      WithPrefixPrefixed(xs[1..], c, d);
    }
  }

  /** The item add_item creates carries the given projects as its '+' tags and the given
      contexts as its '@' tags, when the text has no tags of its own and each project and
      context is a tag body; the properties as written return them the other way round. */
  lemma AddItemTags(d: Doc, text: string, priority: Option<string>, start: Option<string>,
                    projects: seq<string>, contexts: seq<string>)
    requires TagFree(text)
    requires forall k :: 0 <= k < |projects| ==> IsTagBody(projects[k])
    requires forall k :: 0 <= k < |contexts| ==> IsTagBody(contexts[k])
    ensures var r := AddItemDoc(d, text, priority, start, projects, contexts);
      r.Ok? ==>
        d.nextLine in r.value.incomplete
        && Projects(r.value.incomplete[d.nextLine]) == Prefixed('+', projects)
        && Contexts(r.value.incomplete[d.nextLine]) == Prefixed('@', contexts)
        && ProjectsAsWritten(r.value.incomplete[d.nextLine]) == Prefixed('@', contexts)
        && ContextsAsWritten(r.value.incomplete[d.nextLine]) == Prefixed('+', projects)
  {
    var r := AddItemDoc(d, text, priority, start, projects, contexts);
    if r.Ok? {
      var ps, cs := Prefixed('+', projects), Prefixed('@', contexts);
      var it := r.value.incomplete[d.nextLine];
      assert it.origText == FullText(text, projects, contexts);
      FullTextTags(text, projects, contexts);
      assert ProjectsContextsOf(it) == ps + cs;
      WithPrefixAppend(ps, cs, "+");
      WithPrefixAppend(ps, cs, "@");
      WithPrefixPrefixed(projects, '+', '+');
      WithPrefixPrefixed(projects, '+', '@');
      WithPrefixPrefixed(contexts, '@', '+');
      WithPrefixPrefixed(contexts, '@', '@');
      assert ps + [] == ps && [] + cs == cs;
    }
  }


  /** add_existing_item: the item, renumbered to the next line, in the map the flag names. */
  function AddExistingDoc(d: Doc, it: Item, complete: bool): Doc {
    var moved := WithLine(it, d.nextLine);
    if complete then d.(complete := d.complete[d.nextLine := moved], nextLine := d.nextLine + 1)
    else d.(incomplete := d.incomplete[d.nextLine := moved], nextLine := d.nextLine + 1)
  }

  /** The added item is at the old _next_line with that line number, _next_line has grown by
      one, every other line is as it was, and the file has gained the item's line at its end. */
  lemma AddExistingAppends(d: Doc, it: Item, complete: bool)
    requires KeysBelow(d)
    ensures var r := AddExistingDoc(d, it, complete);
      r.nextLine == d.nextLine + 1 && ItemAt(r, d.nextLine) == Some(WithLine(it, d.nextLine))
      && (forall l :: l != d.nextLine ==> ItemAt(r, l) == ItemAt(d, l))
      && Lines(r) == Lines(d) + [Render(it)]
  {
    var r := AddExistingDoc(d, it, complete);
    var moved := WithLine(it, d.nextLine);
    assert d.nextLine !in d.incomplete && d.nextLine !in d.complete;
    if complete {
      assert r.complete == d.complete[d.nextLine := moved] && r.incomplete == d.incomplete;
    } else {
      assert r.incomplete == d.incomplete[d.nextLine := moved] && r.complete == d.complete;
    }
    assert ItemAt(r, d.nextLine) == Some(moved);
    forall l | l != d.nextLine ensures ItemAt(r, l) == ItemAt(d, l) {
    }
    AppendedLines(d, r);
    assert LineText(r, d.nextLine) == Render(moved) == Render(it);
  }

  /** add_existing_item keeps the invariants, provided the item is valid and the flag says its
      kind. */
  lemma AddExistingValid(d: Doc, it: Item, complete: bool)
    requires KeysBelow(d)
    ensures KeysBelow(AddExistingDoc(d, it, complete))
    ensures Valid(d) && ValidItem(it) && complete == it.Complete? ==> Valid(AddExistingDoc(d, it, complete))
    ensures Disjoint(d) ==> Disjoint(AddExistingDoc(d, it, complete))
  {
    var moved := WithLine(it, d.nextLine);
    assert moved.InProgress? == it.InProgress? && ValidItem(moved) == ValidItem(it);
    if complete {
      AddedComplete(d, moved);
    } else {
      AddedInProgress(d, moved);
    }
  }

  lemma AddedComplete(d: Doc, it: Item)
    requires KeysBelow(d)
    ensures var r := d.(complete := d.complete[d.nextLine := it], nextLine := d.nextLine + 1);
      KeysBelow(r)
      && (Valid(d) && ValidItem(it) && it.Complete? ==> Valid(r))
      && (Disjoint(d) ==> Disjoint(r))
  {
  }

  lemma AddedInProgress(d: Doc, it: Item)
    requires KeysBelow(d)
    ensures var r := d.(incomplete := d.incomplete[d.nextLine := it], nextLine := d.nextLine + 1);
      KeysBelow(r)
      && (Valid(d) && ValidItem(it) && it.InProgress? ==> Valid(r))
      && (Disjoint(d) ==> Disjoint(r))
  {
  }

  // ---------------------------------------------------------------------------------------
  // edit_item and complete_item

  /** edit_item.  A line without an item raises (get_item gives None, whose start attribute
      does not exist).  The new in-progress item keeps the old item's start date and goes into
      the in-progress map; a complete item at that line stays where it is. */
  function EditItemDoc(d: Doc, line: nat, text: string, priority: Option<string>,
                       projects: seq<string>, contexts: seq<string>): Result<Doc, Error>
  {
    match ItemAt(d, line)
    case None => Err(NoItemAt(line))
    case Some(orig) =>
      match NewInProgress(line, FullText(text, projects, contexts), priority, orig.start)
      case Err(e) => Err(e)
      case Ok(it) => Ok(d.(incomplete := d.incomplete[line := it]))
  }

  /** edit_item fails exactly on a line without an item; otherwise that line holds the new
      item, nothing else changes, and the file's text changes at that line only. */
  lemma EditItemReplaces(d: Doc, line: nat, text: string, priority: Option<string>,
                         projects: seq<string>, contexts: seq<string>)
    requires ValidItems(d)
    ensures var r := EditItemDoc(d, line, text, priority, projects, contexts);
      (r.Err? <==> ItemAt(d, line).None?) && (r.Err? ==> r.error == NoItemAt(line))
    ensures var r := EditItemDoc(d, line, text, priority, projects, contexts);
      r.Ok? ==>
        var it := InProgress(line, FullText(text, projects, contexts), ItemAt(d, line).value.start, priority);
        r.value.incomplete == d.incomplete[line := it] && r.value.complete == d.complete
        && r.value.nextLine == d.nextLine
        && ItemAt(r.value, line) == Some(it)
        && (forall l :: l != line ==> ItemAt(r.value, l) == ItemAt(d, l))
        && (line < d.nextLine ==> Lines(r.value) == Lines(d)[line := Render(it)])
        && (Valid(d) ==> Valid(r.value))
  {
    var r := EditItemDoc(d, line, text, priority, projects, contexts);
    if r.Ok? && line < d.nextLine {
      ReplacedLine(d, r.value, line);
    }
  }

  /** Editing a complete item leaves it in the complete map as well: the two maps then share
      the line, and get_item shows the in-progress one. */
  lemma EditCompleteItemSharesLine()
    ensures var d := Doc(map[], map[0 := Complete(0, "pay rent", None, "")], 1);
      var r := EditItemDoc(d, 0, "pay rent", None, [], []);
      Disjoint(d) && r.Ok? && !Disjoint(r.value)
      && ItemAt(r.value, 0) == Some(InProgress(0, "pay rent  ", None, None))
  {
    FullTextExamplePayRent();
  }

  lemma FullTextExamplePayRent()
    ensures FullText("pay rent", [], []) == "pay rent  "
  {
    assert Prefixed('+', []) == [] && Prefixed('@', []) == [];
  }

  /** complete_item with end date when.  The original reads the undefined attribute origText
      of the item; the item's original text, orig_text, is what it evidently means. */
  function CompleteItemDoc(d: Doc, line: nat, when: string): Result<Doc, Error> {
    if line !in d.incomplete then Ok(d)
    else
      var prev := d.incomplete[line];
      match NewComplete(line, prev.origText, when, prev.start)
      case Err(e) => Err(e)
      case Ok(it) => Ok(d.(incomplete := d.incomplete - {line}, complete := d.complete[line := it]))
  }

  /** complete_item changes nothing when the line holds no in-progress item, fails only on a
      bad end date, and otherwise replaces the in-progress item by a complete one with the same
      text and start date at the same line, changing nothing else. */
  lemma CompleteItemMoves(d: Doc, line: nat, when: string)
    requires ValidItems(d)
    ensures var r := CompleteItemDoc(d, line, when);
      (line !in d.incomplete ==> r == Ok(d))
      && (line in d.incomplete ==> (r.Ok? <==> DateFieldOk(Some(when))) && (r.Err? ==> r.error == BadDate(when)))
    ensures var r := CompleteItemDoc(d, line, when);
      line in d.incomplete && r.Ok? ==>
        var p := d.incomplete[line];
        var it := Complete(line, p.origText, p.start, when);
        r.value.incomplete == d.incomplete - {line} && r.value.complete == d.complete[line := it]
        && r.value.nextLine == d.nextLine
        && ItemAt(r.value, line) == Some(it)
        && (forall l :: l != line ==> ItemAt(r.value, l) == ItemAt(d, l))
        && (line < d.nextLine ==> Lines(r.value) == Lines(d)[line := Render(it)])
  {
    if line in d.incomplete {
      var p := d.incomplete[line];
      assert ValidItem(p);
      var r := CompleteItemDoc(d, line, when);
      if r.Ok? {
        var it := Complete(line, p.origText, p.start, when);
        assert r.value == d.(incomplete := d.incomplete - {line}, complete := d.complete[line := it]);
        if line < d.nextLine {
          ReplacedLine(d, r.value, line);
        }
      }
    }
  }

  /** complete_item keeps the invariants. */
  lemma CompleteItemValid(d: Doc, line: nat, when: string)
    requires ValidItems(d)
    ensures var r := CompleteItemDoc(d, line, when);
      r.Ok? ==> (Valid(d) ==> Valid(r.value)) && (Disjoint(d) ==> Disjoint(r.value))
  {
    if line in d.incomplete {
      var p := d.incomplete[line];
      assert ValidItem(p);
    }
  }

  // ---------------------------------------------------------------------------------------
  // remove_line

  /** Whether key k is present in map m after remove_line(line). */
  predicate Kept(m: map<nat, Item>, line: nat, k: nat) {
    (k < line && k in m) || (k >= line && k + 1 in m)
  }

  /** One map after remove_line: the entries below line keep their keys, the entry at line is
      dropped, and the entries above it move down by one (bottom.update(top)).  The keys are
      sought below bound, the file's _next_line, beyond which no operation puts a key. */
  function Shift(m: map<nat, Item>, line: nat, bound: nat): map<nat, Item> {
    map k: nat | k < bound && Kept(m, line, k) :: if k < line then m[k] else m[k + 1]
  }

  lemma ShiftAt(m: map<nat, Item>, line: nat, bound: nat, k: nat)
    requires forall l :: l in m ==> l < bound
    ensures k in Shift(m, line, bound) <==> Kept(m, line, k)
    ensures k in Shift(m, line, bound) ==> Shift(m, line, bound)[k] == if k < line then m[k] else m[k + 1]
  {
  }

  /** Where an entry of the shifted map comes from: the same key below line, the next key
      from line on. */
  lemma ShiftFrom(m: map<nat, Item>, line: nat, bound: nat, l: nat)
    requires l in Shift(m, line, bound)
    ensures var j := if l < line then l else l + 1;
      j in m && Shift(m, line, bound)[l] == m[j] && l <= j
  {
  }

  /** remove_line.  It reassigns both maps and leaves _next_line as it was; the items that move
      keep their old line numbers, since change_line is not called. */
  function RemoveLineDoc(d: Doc, line: nat): Doc {
    Doc(Shift(d.incomplete, line, d.nextLine), Shift(d.complete, line, d.nextLine), d.nextLine)
  }

  /** After remove_line every line below line shows the same item, every line from line on
      shows the item of the next line, and so the item at line is gone. */
  lemma RemoveLineShifts(d: Doc, line: nat)
    requires KeysBelow(d)
    ensures var r := RemoveLineDoc(d, line);
      r.nextLine == d.nextLine
      && forall k: nat :: ItemAt(r, k) == ItemAt(d, if k < line then k else k + 1)
  {
    var r := RemoveLineDoc(d, line);
    forall k: nat ensures ItemAt(r, k) == ItemAt(d, if k < line then k else k + 1) {
      ShiftAt(d.incomplete, line, d.nextLine, k);
      ShiftAt(d.complete, line, d.nextLine, k);
    }
  }

  /** remove_line keeps the invariants. */
  lemma RemoveLineValid(d: Doc, line: nat)
    ensures Valid(d) ==> Valid(RemoveLineDoc(d, line))
    ensures Disjoint(d) ==> Disjoint(RemoveLineDoc(d, line))
  {
    var r := RemoveLineDoc(d, line);
    forall l: nat | l in r.incomplete
      ensures var j := if l < line then l else l + 1;
        j in d.incomplete && r.incomplete[l] == d.incomplete[j] && l <= j
    {
      ShiftFrom(d.incomplete, line, d.nextLine, l);
    }
    forall l: nat | l in r.complete
      ensures var j := if l < line then l else l + 1;
        j in d.complete && r.complete[l] == d.complete[j] && l <= j
    {
      ShiftFrom(d.complete, line, d.nextLine, l);
    }
  }

  /** remove_line as text: the line is cut out and, _next_line being unchanged, an empty line
      appears at the end. */
  lemma RemoveLineLines(d: Doc, line: nat)
    requires KeysBelow(d)
    ensures Lines(RemoveLineDoc(d, line))
         == if line < d.nextLine then Lines(d)[..line] + Lines(d)[line + 1..] + [""] else Lines(d)
  {
    var r := RemoveLineDoc(d, line);
    RemoveLineShifts(d, line);
    var a, b := Lines(d), Lines(r);
    if line < d.nextLine {
      forall i | 0 <= i < line ensures b[i] == a[i] {
        assert LineText(r, i) == LineText(d, i);
      }
      forall i | line <= i < |a| - 1 ensures b[i] == a[i + 1] {
        assert LineText(r, i) == LineText(d, i + 1);
      }
      assert ItemAt(d, d.nextLine).None?;
      assert b[|a| - 1] == LineText(d, d.nextLine) == "";
      CutLine(a, b, line, "");
    } else {
      SameLines(r, d);
    }
  }

  /** A sequence that agrees with a below line, with a shifted down by one from there on, and
      ends in z, is a with the element at line cut out and z appended. */
  lemma CutLine<T>(a: seq<T>, b: seq<T>, line: nat, z: T)
    requires line < |a| == |b|
    requires forall i :: 0 <= i < line ==> b[i] == a[i]
    requires forall i :: line <= i < |a| - 1 ==> b[i] == a[i + 1]
    requires b[|a| - 1] == z
    ensures b == a[..line] + a[line + 1..] + [z]
  {
    var c := a[..line] + a[line + 1..];
    assert forall i :: 0 <= i < |c| ==> b[i] == c[i];
    assert b == c + [b[|c|]];
  }

  // ---------------------------------------------------------------------------------------
  // move_item: add_to_file on the destination, then remove_line here

  /** move_item to a different file: nothing happens when the line holds no item; otherwise
      get_item's item is added to the destination (in the map of its kind, which is what
      add_to_file passes as the flag) and the line is removed here.  add_to_file calls
      addExistingItem (todo_parser.py:187, 242), which TodoFile does not define; the model calls
      add_existing_item, as evidently intended. */
  function MoveDocs(src: Doc, dst: Doc, line: nat): (Doc, Doc) {
    match ItemAt(src, line)
    case None => (src, dst)
    case Some(it) => (RemoveLineDoc(src, line), AddExistingDoc(dst, it, it.Complete?))
  }

  /** move_item with the file itself as destination: the item is added at the end first, and
      then its old line is removed. */
  function MoveWithin(d: Doc, line: nat): Doc {
    match ItemAt(d, line)
    case None => d
    case Some(it) => RemoveLineDoc(AddExistingDoc(d, it, it.Complete?), line)
  }

  /** Moving to another file cuts the line out of the source, leaving an empty line at its end,
      and appends the item's line to the destination. */
  lemma MoveDocsLines(src: Doc, dst: Doc, line: nat)
    requires KeysBelow(src) && KeysBelow(dst)
    ensures ItemAt(src, line).None? ==> MoveDocs(src, dst, line) == (src, dst)
    ensures ItemAt(src, line).Some? ==>
      var it := ItemAt(src, line).value;
      var p := MoveDocs(src, dst, line);
      line < src.nextLine
      && Lines(p.0) == Lines(src)[..line] + Lines(src)[line + 1..] + [""]
      && ItemAt(p.1, dst.nextLine) == Some(WithLine(it, dst.nextLine))
      && Lines(p.1) == Lines(dst) + [Render(it)]
  {
    if ItemAt(src, line).Some? {
      var it := ItemAt(src, line).value;
      RemoveLineLines(src, line);
      AddExistingAppends(dst, it, it.Complete?);
    }
  }

  /** Moving keeps the invariants of both files. */
  lemma MoveDocsValid(src: Doc, dst: Doc, line: nat)
    requires KeysBelow(dst)
    ensures var p := MoveDocs(src, dst, line);
      (Valid(src) && Valid(dst) ==> Valid(p.0) && Valid(p.1))
      && (Disjoint(src) ==> Disjoint(p.0)) && (Disjoint(dst) ==> Disjoint(p.1))
  {
    if ItemAt(src, line).Some? {
      var it := ItemAt(src, line).value;
      RemoveLineValid(src, line);
      AddExistingValid(dst, it, it.Complete?);
    }
  }

  /** Moving within the file: the item's line is cut out and the item appears after the last
      line, followed by the empty line that remove_line leaves. */
  lemma MoveWithinLines(d: Doc, line: nat)
    requires KeysBelow(d)
    ensures ItemAt(d, line).None? ==> MoveWithin(d, line) == d
    ensures ItemAt(d, line).Some? ==>
      Lines(MoveWithin(d, line))
      == Lines(d)[..line] + Lines(d)[line + 1..] + [Render(ItemAt(d, line).value), ""]
  {
    if ItemAt(d, line).Some? {
      var it := ItemAt(d, line).value;
      var d1 := AddExistingDoc(d, it, it.Complete?);
      AddExistingAppends(d, it, it.Complete?);
      AddExistingValid(d, it, it.Complete?);
      RemoveLineLines(d1, line);
      SnocCut(Lines(d), Render(it), line);
    }
  }

  lemma MoveWithinValid(d: Doc, line: nat)
    requires KeysBelow(d)
    ensures Valid(d) ==> Valid(MoveWithin(d, line))
    ensures Disjoint(d) ==> Disjoint(MoveWithin(d, line))
  {
    if ItemAt(d, line).Some? {
      var it := ItemAt(d, line).value;
      AddExistingValid(d, it, it.Complete?);
      RemoveLineValid(AddExistingDoc(d, it, it.Complete?), line);
    }
  }

  lemma SnocCut(a: seq<string>, x: string, line: nat)
    requires line < |a|
    ensures (a + [x])[..line] + (a + [x])[line + 1..] + [""] == a[..line] + a[line + 1..] + [x, ""]
  {
    assert (a + [x])[..line] == a[..line];
    assert (a + [x])[line + 1..] == a[line + 1..] + [x];
  }

  // ---------------------------------------------------------------------------------------
  // The file as slots: what get_item finds at each line

  /** get_item at each line below _next_line, in line order. */
  function Slots(d: Doc): (r: seq<Option<Item>>)
    ensures |r| == d.nextLine
    ensures forall i :: 0 <= i < d.nextLine ==> r[i] == ItemAt(d, i)
  {
    seq(d.nextLine, i requires 0 <= i => ItemAt(d, i))
  }

  /** remove_line cuts the line's slot out and leaves an empty slot at the end. */
  lemma RemoveLineSlots(d: Doc, line: nat)
    requires KeysBelow(d) && line < d.nextLine
    ensures Slots(RemoveLineDoc(d, line)) == Slots(d)[..line] + Slots(d)[line + 1..] + [None]
  {
    var r := RemoveLineDoc(d, line);
    RemoveLineShifts(d, line);
    var a, b := Slots(d), Slots(r);
    forall i | 0 <= i < line ensures b[i] == a[i] {
      assert ItemAt(r, i) == ItemAt(d, i);
    }
    forall i | line <= i < |a| - 1 ensures b[i] == a[i + 1] {
      assert ItemAt(r, i) == ItemAt(d, i + 1);
    }
    assert ItemAt(r, |a| - 1) == ItemAt(d, d.nextLine) == None;
    CutLine(a, b, line, None);
  }

  /** add_existing_item fills one more slot, with the item renumbered to that line. */
  lemma AddExistingSlots(d: Doc, it: Item, complete: bool)
    requires KeysBelow(d)
    ensures Slots(AddExistingDoc(d, it, complete)) == Slots(d) + [Some(WithLine(it, d.nextLine))]
  {
    AddExistingAppends(d, it, complete);
    var a, b := Slots(d), Slots(AddExistingDoc(d, it, complete));
    assert forall i :: 0 <= i < |a| ==> b[i] == a[i];
    assert b == a + [b[|a|]];
  }

  /** The items among the slots, in order, each with line number 0: the line number is the one
      field add_existing_item changes. */
  function Unnumbered(s: seq<Option<Item>>): seq<Item>
    decreases |s|
  {
    if s == [] then []
    else (if s[0].Some? then [WithLine(s[0].value, 0)] else []) + Unnumbered(s[1..])
  }

  lemma {:induction false} UnnumberedAppend(a: seq<Option<Item>>, b: seq<Option<Item>>)
    ensures Unnumbered(a + b) == Unnumbered(a) + Unnumbered(b)
    decreases |a|
  {
    if a == [] {
      assert a + b == b;
    } else {
      assert (a + b)[0] == a[0] && (a + b)[1..] == a[1..] + b;
      UnnumberedAppend(a[1..], b);
    }
  }

  /** The items of two files together, without their line numbers. */
  function ItemBag(src: Doc, dst: Doc): multiset<Item> {
    multiset(Unnumbered(Slots(src))) + multiset(Unnumbered(Slots(dst)))
  }

  /** Cutting a filled slot out, and an empty slot on at the end, takes exactly its item out
      of the items. */
  lemma UnnumberedCut(s: seq<Option<Item>>, line: nat)
    requires line < |s| && s[line].Some?
    ensures multiset(Unnumbered(s[..line] + s[line + 1..] + [None])) + multiset{WithLine(s[line].value, 0)}
         == multiset(Unnumbered(s))
  {
    assert s == s[..line] + [s[line]] + s[line + 1..];
    UnnumberedCutParts(s[..line], s[line], s[line + 1..]);
  }

  lemma UnnumberedCutParts(a: seq<Option<Item>>, x: Option<Item>, b: seq<Option<Item>>)
    requires x.Some?
    ensures multiset(Unnumbered(a + b + [None])) + multiset{WithLine(x.value, 0)}
         == multiset(Unnumbered(a + [x] + b))
  {
    var none: seq<Option<Item>> := [None];
    UnnumberedAppend(a + [x], b);
    UnnumberedAppend(a, [x]);
    UnnumberedAppend(a + b, none);
    UnnumberedAppend(a, b);
    assert [x][1..] == [] && none[1..] == [];
  }

  /** A filled slot added at the end adds its item. */
  lemma UnnumberedSnoc(t: seq<Option<Item>>, it: Item, n: nat)
    ensures Unnumbered(t + [Some(WithLine(it, n))]) == Unnumbered(t) + [WithLine(it, 0)]
  {
    var x: Option<Item> := Some(WithLine(it, n));
    UnnumberedAppend(t, [x]);
    assert [x][1..] == [];
    assert WithLine(x.value, 0) == WithLine(it, 0);
  }

  /** archive_item loses no item and makes none up: the item that leaves the source is the one
      the destination gains. */
  lemma ArchiveDocsConserves(src: Doc, dst: Doc, line: nat)
    requires KeysBelow(src) && KeysBelow(dst)
    ensures var p := ArchiveDocs(src, dst, line); ItemBag(p.0, p.1) == ItemBag(src, dst)
  {
    if line in src.complete {
      var it := ItemAt(src, line).value;
      RemoveLineSlots(src, line);
      AddExistingSlots(dst, it, it.Complete?);
      var p := ArchiveDocs(src, dst, line);
      assert Slots(src)[line] == Some(it);
      BagMoves(Slots(src), Slots(p.0), Slots(dst), Slots(p.1), line, it, dst.nextLine);
    }
  }

  /** The item bag on slots: cutting the item at line out of s and adding it to d at line n. */
  lemma BagMoves(s: seq<Option<Item>>, s1: seq<Option<Item>>, d: seq<Option<Item>>, d1: seq<Option<Item>>,
                 line: nat, it: Item, n: nat)
    requires line < |s| && s[line] == Some(it)
    requires s1 == s[..line] + s[line + 1..] + [None] && d1 == d + [Some(WithLine(it, n))]
    ensures multiset(Unnumbered(s1)) + multiset(Unnumbered(d1)) == multiset(Unnumbered(s)) + multiset(Unnumbered(d))
  {
    UnnumberedCut(s, line);
    UnnumberedSnoc(d, it, n);
    var x := multiset{WithLine(it, 0)};
    BagShift(multiset(Unnumbered(s1)), multiset(Unnumbered(d1)), multiset(Unnumbered(s)), multiset(Unnumbered(d)), x);
  }

  lemma BagShift<T>(a1: multiset<T>, b1: multiset<T>, a: multiset<T>, b: multiset<T>, x: multiset<T>)
    requires a1 + x == a && b1 == b + x
    ensures a1 + b1 == a + b
  {
  }

  // ---------------------------------------------------------------------------------------
  // archive_item and archive_all_items

  /** archive_item: move_item, but only for a line of the complete map. */
  function ArchiveDocs(src: Doc, dst: Doc, line: nat): (Doc, Doc) {
    if line in src.complete then MoveDocs(src, dst, line) else (src, dst)
  }

  function ArchiveWithin(d: Doc, line: nat): Doc {
    if line in d.complete then MoveWithin(d, line) else d
  }

  /** Archiving a complete line of a file whose lines are in one map only takes that complete
      item to the destination; any other line is left alone. */
  lemma ArchiveDocsLines(src: Doc, dst: Doc, line: nat)
    requires KeysBelow(src) && KeysBelow(dst) && Disjoint(src)
    ensures line !in src.complete ==> ArchiveDocs(src, dst, line) == (src, dst)
    ensures line in src.complete ==>
      var it := src.complete[line];
      var p := ArchiveDocs(src, dst, line);
      Lines(p.0) == Lines(src)[..line] + Lines(src)[line + 1..] + [""]
      && ItemAt(p.1, dst.nextLine) == Some(WithLine(it, dst.nextLine))
      && Lines(p.1) == Lines(dst) + [Render(it)]
  {
    MoveDocsLines(src, dst, line);
  }

  /** archive_all_items into a different file.  The loop runs over the keys of the complete
      dict as it was at the start (remove_line binds new dicts and never changes that one), in
      the order the dict yields them, given here as order; each key is archived by its number
      at that moment, although every archive renumbers the lines after it. */
  function ArchiveAllDocs(src: Doc, dst: Doc, order: seq<nat>): (Doc, Doc)
    decreases |order|
  {
    if order == [] then (src, dst)
    else
      var p := ArchiveDocs(src, dst, order[0]);
      ArchiveAllDocs(p.0, p.1, order[1..])
  }

  function ArchiveSeqWithin(d: Doc, order: seq<nat>): Doc
    decreases |order|
  {
    if order == [] then d else ArchiveSeqWithin(ArchiveWithin(d, order[0]), order[1..])
  }

  lemma ArchiveAllDocsStep(src: Doc, dst: Doc, order: seq<nat>, i: nat)
    requires i < |order|
    ensures ArchiveAllDocs(src, dst, order[i..])
         == ArchiveAllDocs(ArchiveDocs(src, dst, order[i]).0, ArchiveDocs(src, dst, order[i]).1, order[i + 1..])
  {
    assert order[i..][0] == order[i] && order[i..][1..] == order[i + 1..];
  }

  lemma ArchiveSeqWithinStep(d: Doc, order: seq<nat>, i: nat)
    requires i < |order|
    ensures ArchiveSeqWithin(d, order[i..]) == ArchiveSeqWithin(ArchiveWithin(d, order[i]), order[i + 1..])
  {
    assert order[i..][0] == order[i] && order[i..][1..] == order[i + 1..];
  }

  /** The keys of the complete map, each once, in some order. */
  predicate IsKeyOrder(order: seq<nat>, m: map<nat, Item>) {
    (forall l :: l in order ==> l in m) && (forall l :: l in m ==> l in order)
    && (forall i, j :: 0 <= i < j < |order| ==> order[i] != order[j])
  }

  /** archive_all_items with the file itself as destination.  The first archive adds its item
      to the very dict being iterated whenever it is a complete item at a new key, and the next
      step of the iteration raises RuntimeError, the state already changed; otherwise the
      addition goes elsewhere, remove_line binds fresh dicts, and the loop runs to the end. */
  function ArchiveAllWithin(d: Doc, order: seq<nat>): (r: (Doc, Outcome<Error>))
    ensures r.1.Fail? ==> r.1.error == DictChangedSize
  {
    if order == [] then (d, Pass)
    else
      var d1 := ArchiveWithin(d, order[0]);
      if order[0] in d.complete && order[0] !in d.incomplete && d.nextLine !in d.complete then
        (d1, Fail(DictChangedSize))
      else (ArchiveSeqWithin(d1, order[1..]), Pass)
  }

  /** Whatever the order, archiving everything keeps both files valid, leaves the source's
      length alone, only appends to the destination, and loses no item: what leaves the source
      is what the destination gains. */
  lemma {:induction false} ArchiveAllDocsValid(src: Doc, dst: Doc, order: seq<nat>)
    requires Valid(src) && Valid(dst)
    ensures var p := ArchiveAllDocs(src, dst, order);
      Valid(p.0) && Valid(p.1) && (Disjoint(src) ==> Disjoint(p.0))
      && p.0.nextLine == src.nextLine && dst.nextLine <= p.1.nextLine
      && (forall l :: 0 <= l < dst.nextLine ==> ItemAt(p.1, l) == ItemAt(dst, l))
      && ItemBag(p.0, p.1) == ItemBag(src, dst)
    decreases |order|
  {
    if order != [] {
      var p := ArchiveDocs(src, dst, order[0]);
      ArchiveDocsConserves(src, dst, order[0]);
      if order[0] in src.complete {
        MoveDocsValid(src, dst, order[0]);
        var it := ItemAt(src, order[0]).value;
        AddExistingAppends(dst, it, it.Complete?);
      }
      ArchiveAllDocsValid(p.0, p.1, order[1..]);
    }
  }

  /** A file with two complete items, archived in key order to an empty file: archiving line 0
      moves the second item down to line 0, so the step for line 1 finds nothing and the
      second item stays behind. */
  lemma ArchiveAllLeavesItemBehind(a: Item, b: Item)
    requires a.Complete? && b.Complete?
    ensures ArchiveAllDocs(Doc(map[], map[0 := a, 1 := b], 2), Doc(map[], map[], 0), [0, 1])
         == (Doc(map[], map[0 := b], 2), Doc(map[], map[0 := WithLine(a, 0)], 1))
  {
    ArchivePairRun(a, b);
    assert AddExistingDoc(Doc(map[], map[], 0), a, true) == Doc(map[], map[0 := WithLine(a, 0)], 1);
  }

  lemma ArchivePairRun(a: Item, b: Item)
    requires a.Complete? && b.Complete?
    ensures ArchiveAllDocs(Doc(map[], map[0 := a, 1 := b], 2), Doc(map[], map[], 0), [0, 1])
         == (Doc(map[], map[0 := b], 2), AddExistingDoc(Doc(map[], map[], 0), a, true))
  {
    var src := Doc(map[], map[0 := a, 1 := b], 2);
    var dst := Doc(map[], map[], 0);
    var s1, t1 := Doc(map[], map[0 := b], 2), AddExistingDoc(dst, a, true);
    ArchivePairFirst(a, b);
    assert ArchiveAllDocs(src, dst, [0, 1]) == ArchiveAllDocs(s1, t1, [1]) by {
      assert [0, 1][0] == 0 && [0, 1][1..] == [1];
    }
    assert ArchiveAllDocs(s1, t1, [1]) == (s1, t1) by {
      assert [1][0] == 1 && [1][1..] == [];
    }
  }

  lemma ArchivePairFirst(a: Item, b: Item)
    requires a.Complete?
    ensures ArchiveDocs(Doc(map[], map[0 := a, 1 := b], 2), Doc(map[], map[], 0), 0)
         == (Doc(map[], map[0 := b], 2), AddExistingDoc(Doc(map[], map[], 0), a, true))
  {
    var src := Doc(map[], map[0 := a, 1 := b], 2);
    ShiftPair(a, b);
    assert ItemAt(src, 0) == Some(a);
    assert RemoveLineDoc(src, 0) == Doc(map[], map[0 := b], 2);
  }

  /** remove_line(0) on the two-entry map and on the empty one. */
  lemma ShiftPair(a: Item, b: Item)
    ensures Shift(map[0 := a, 1 := b], 0, 2) == map[0 := b]
    ensures Shift(map[], 0, 2) == map[]
  {
    var m: map<nat, Item> := map[0 := a, 1 := b];
    forall k: nat ensures k in Shift(m, 0, 2) <==> k == 0 {
      ShiftAt(m, 0, 2, k);
    }
    ShiftAt(m, 0, 2, 0);
    forall k: nat ensures k !in Shift(map[], 0, 2) {
      ShiftAt(map[], 0, 2, k);
    }
  }

  /** The same with the file as its own destination: the first step already raises. */
  lemma ArchiveAllWithinRaises(a: Item)
    requires a.Complete?
    ensures ArchiveAllWithin(Doc(map[], map[0 := a], 1), [0]).1 == Fail(DictChangedSize)
  {
  }

  /** A slot that holds a complete item. */
  predicate IsCompleteSlot(o: Option<Item>) {
    o.Some? && o.value.Complete?
  }

  /** The slots that are not complete items, in order: the empty lines and in-progress items. */
  function Remaining(s: seq<Option<Item>>): seq<Option<Item>>
    decreases |s|
  {
    if s == [] then [] else (if IsCompleteSlot(s[0]) then [] else [s[0]]) + Remaining(s[1..])
  }

  /** The complete items among the slots, in line order. */
  function Archived(s: seq<Option<Item>>): seq<Item>
    decreases |s|
  {
    if s == [] then [] else (if IsCompleteSlot(s[0]) then [s[0].value] else []) + Archived(s[1..])
  }

  /** Remaining and Archived share the slots out: each slot goes to one of them, Remaining holds no complete
      item and Archived only complete ones. */
  lemma {:induction false} RemainingArchivedSplit(s: seq<Option<Item>>)
    ensures |Remaining(s)| + |Archived(s)| == |s|
    ensures forall k :: 0 <= k < |Remaining(s)| ==> !IsCompleteSlot(Remaining(s)[k])
    ensures forall k :: 0 <= k < |Archived(s)| ==> Archived(s)[k].Complete?
    decreases |s|
  {
    if s != [] {
      RemainingArchivedSplit(s[1..]);
    }
  }

  /** n empty lines. */
  function Empties(n: nat): seq<Option<Item>> {
    seq(n, k => None)
  }

  /** The slots items fill when appended from line base on, each renumbered to its line. */
  function AppendedAt(items: seq<Item>, base: nat): (r: seq<Option<Item>>)
    ensures |r| == |items|
    decreases |items|
  {
    if items == [] then [] else [Some(WithLine(items[0], base))] + AppendedAt(items[1..], base + 1)
  }

  lemma EmptiesCons(n: nat)
    ensures [None] + Empties(n) == Empties(n + 1)
  {
  }

  lemma AppendedAtCons(it: Item, items: seq<Item>, base: nat)
    ensures [Some(WithLine(it, base))] + AppendedAt(items, base + 1) == AppendedAt([it] + items, base)
  {
    assert ([it] + items)[0] == it && ([it] + items)[1..] == items;
  }

  /** archive_all_items as evidently intended, for a different destination: the lines are
      visited in increasing order, c being the current number of the next line to visit and r
      the number of lines still to visit.  Archiving the line at c moves every later line down
      by one, so the next line to visit is then at c again. */
  function ArchiveUp(src: Doc, dst: Doc, c: nat, r: nat): (Doc, Doc)
    decreases r
  {
    if r == 0 then (src, dst)
    else
      var p := ArchiveDocs(src, dst, c);
      ArchiveUp(p.0, p.1, if c in src.complete then c else c + 1, r - 1)
  }

  function ArchiveAllFixed(src: Doc, dst: Doc): (Doc, Doc) {
    ArchiveUp(src, dst, 0, src.nextLine)
  }

  /** When every complete line is among the r lines from c on, the visit leaves none. */
  lemma {:induction false} ArchiveUpEmpties(src: Doc, dst: Doc, c: nat, r: nat)
    requires forall l :: l in src.complete ==> c <= l < c + r
    ensures ArchiveUp(src, dst, c, r).0.complete == map[]
    decreases r
  {
    if r == 0 {
      assert src.complete == map[];
    } else {
      var p := ArchiveDocs(src, dst, c);
      var next := if c in src.complete then c else c + 1;
      forall l: nat | l in p.0.complete ensures next <= l < next + r - 1 {
        if c in src.complete {
          ShiftFrom(src.complete, c, src.nextLine, l);
        }
      }
      ArchiveUpEmpties(p.0, p.1, next, r - 1);
    }
  }

  /** What an archive run from (src, dst) to p keeps: both files valid, the lines of the source
      in one map each if they were, the source's length, and the destination's old lines. */
  predicate ArchiveKeeps(src: Doc, dst: Doc, p: (Doc, Doc)) {
    Valid(p.0) && Valid(p.1) && (Disjoint(src) ==> Disjoint(p.0))
    && p.0.nextLine == src.nextLine && dst.nextLine <= p.1.nextLine
    && forall l :: 0 <= l < dst.nextLine ==> ItemAt(p.1, l) == ItemAt(dst, l)
  }

  lemma ArchiveKeepsTrans(src: Doc, dst: Doc, p: (Doc, Doc), q: (Doc, Doc))
    requires ArchiveKeeps(src, dst, p) && ArchiveKeeps(p.0, p.1, q)
    ensures ArchiveKeeps(src, dst, q)
  {
  }

  /** One archive_item step keeps both files valid, keeps the source's length, and only
      appends to the destination. */
  lemma ArchiveDocsValid(src: Doc, dst: Doc, line: nat)
    requires Valid(src) && Valid(dst)
    ensures ArchiveKeeps(src, dst, ArchiveDocs(src, dst, line))
  {
    if line in src.complete {
      MoveDocsValid(src, dst, line);
      var it := ItemAt(src, line).value;
      AddExistingAppends(dst, it, it.Complete?);
    }
  }

  /** The corrected visit keeps what ArchiveKeeps names, step by step. */
  lemma {:induction false} ArchiveUpValid(src: Doc, dst: Doc, c: nat, r: nat)
    requires Valid(src) && Valid(dst)
    ensures ArchiveKeeps(src, dst, ArchiveUp(src, dst, c, r))
    decreases r
  {
    if r > 0 {
      var p := ArchiveDocs(src, dst, c);
      var next := if c in src.complete then c else c + 1;
      ArchiveDocsValid(src, dst, c);
      ArchiveUpValid(p.0, p.1, next, r - 1);
      ArchiveKeepsTrans(src, dst, p, ArchiveUp(p.0, p.1, next, r - 1));
    }
  }

  /** Cutting the complete slot at c out of the window of r = m + 1 slots from c: the slots
      before c stay, the rest of the window moves down one, an empty slot comes in at the end,
      and the window loses its first complete item. */
  lemma TakeShape(s: seq<Option<Item>>, s1: seq<Option<Item>>, c: nat, r: nat, m: nat)
    requires r == m + 1 && c + r <= |s| && IsCompleteSlot(s[c])
    requires s1 == s[..c] + s[c + 1..] + [None]
    ensures |s1| == |s| && s1[..c] == s[..c] && s1[c + m..] == s[c + r..] + [None]
    ensures Remaining(s[c..c + r]) == Remaining(s1[c..c + m])
    ensures Archived(s[c..c + r]) == [s[c].value] + Archived(s1[c..c + m])
  {
    var w, w' := s[c..c + r], s1[c..c + m];
    assert w' == s[c + 1..c + r] == w[1..];
  }

  /** Putting the pieces back together after a take: the empty slot that came in at the end
      joins the empty slots of the archived items. */
  lemma TakeJoin(x: seq<Option<Item>>, k: seq<Option<Item>>, t: seq<Option<Item>>, n: nat)
    ensures x + k + (t + [None]) + Empties(n) == x + k + t + Empties(n + 1)
  {
    EmptiesCons(n);
    assert x + k + (t + [None]) + Empties(n) == x + k + t + ([None] + Empties(n));
  }

  /** The destination after a take: the first item at line base, the others after it. */
  lemma TakeDest(d: seq<Option<Item>>, it: Item, items: seq<Item>, base: nat, next: nat)
    requires next == base + 1
    ensures d + [Some(WithLine(it, base))] + AppendedAt(items, next) == d + AppendedAt([it] + items, base)
  {
    AppendedAtCons(it, items, base);
    var a, b := [Some(WithLine(it, base))], AppendedAt(items, next);
    assert d + a + b == d + (a + b);
  }

  /** Skipping the slot at c, which is not complete: it joins what remains of the window of
      r = m + 1 slots, and the rest of the window starts at c1 = c + 1. */
  lemma SkipShape(s: seq<Option<Item>>, c: nat, r: nat, c1: nat, m: nat)
    requires c1 == c + 1 && r == m + 1 && c + r <= |s| && !IsCompleteSlot(s[c])
    ensures Remaining(s[c..c + r]) == [s[c]] + Remaining(s[c1..c1 + m])
    ensures Archived(s[c..c + r]) == Archived(s[c1..c1 + m])
    ensures s[..c1] == s[..c] + [s[c]] && s[c1 + m..] == s[c + r..]
  {
    var w, w' := s[c..c + r], s[c1..c1 + m];
    assert w[0] == s[c] && w[1..] == w';
  }

  /** After a skip and the visit of the other m lines of the window from c1: s and d are the
      slots before, s2 and d2 at the end. */
  lemma SkipCombine(s: seq<Option<Item>>, s2: seq<Option<Item>>, d: seq<Option<Item>>, d2: seq<Option<Item>>,
                    c: nat, r: nat, c1: nat, m: nat)
    requires c1 == c + 1 && r == m + 1 && c + r <= |s| && !IsCompleteSlot(s[c])
    requires s2 == s[..c1] + Remaining(s[c1..c1 + m]) + s[c1 + m..] + Empties(|Archived(s[c1..c1 + m])|)
    requires d2 == d + AppendedAt(Archived(s[c1..c1 + m]), |d|)
    ensures s2 == s[..c] + Remaining(s[c..c + r]) + s[c + r..] + Empties(|Archived(s[c..c + r])|)
    ensures d2 == d + AppendedAt(Archived(s[c..c + r]), |d|)
  {
    SkipShape(s, c, r, c1, m);
    var x, k, t, e := s[..c], Remaining(s[c1..c1 + m]), s[c + r..], Empties(|Archived(s[c1..c1 + m])|);
    SkipJoin(x, [s[c]], k, t, e);
  }

  /** Regrouping five pieces of a sequence. */
  lemma SkipJoin<T>(x: seq<T>, y: seq<T>, k: seq<T>, t: seq<T>, e: seq<T>)
    ensures x + y + k + t + e == x + (y + k) + t + e
  {
  }

  /** Visiting the r lines from c: the source keeps its slots outside that window and the
      window's empty lines and in-progress items, in order, closing up behind them and filling
      up with empty lines at the end; the destination gains the window's complete items, in
      line order, each renumbered to its new line. */
  lemma {:induction false} ArchiveUpMoves(src: Doc, dst: Doc, c: nat, r: nat)
    requires Valid(src) && Disjoint(src) && Valid(dst) && c + r <= src.nextLine
    ensures var p := ArchiveUp(src, dst, c, r);
      var s := Slots(src);
      Slots(p.0) == s[..c] + Remaining(s[c..c + r]) + s[c + r..] + Empties(|Archived(s[c..c + r])|)
      && Slots(p.1) == Slots(dst) + AppendedAt(Archived(s[c..c + r]), dst.nextLine)
    decreases r
  {
    var s := Slots(src);
    if r == 0 {
      assert s[c..c] == [] && s[..c] + s[c..] == s;
    } else if c in src.complete {
      ArchiveUpTake(src, dst, c, r);
    } else {
      ArchiveUpSkip(src, dst, c, r);
    }
  }

  /** The step of ArchiveUpMoves that leaves the line at c, which holds no complete item. */
  lemma {:induction false} ArchiveUpSkip(src: Doc, dst: Doc, c: nat, r: nat)
    requires Valid(src) && Disjoint(src) && Valid(dst) && c + r <= src.nextLine
    requires 0 < r && c !in src.complete
    ensures var p := ArchiveUp(src, dst, c, r);
      var s := Slots(src);
      Slots(p.0) == s[..c] + Remaining(s[c..c + r]) + s[c + r..] + Empties(|Archived(s[c..c + r])|)
      && Slots(p.1) == Slots(dst) + AppendedAt(Archived(s[c..c + r]), dst.nextLine)
    decreases r, 0
  {
    var s := Slots(src);
    assert !IsCompleteSlot(s[c]) by {
      assert s[c] == ItemAt(src, c) == (if c in src.incomplete then Some(src.incomplete[c]) else None);
    }
    var c1, m := c + 1, r - 1;
    ArchiveUpMoves(src, dst, c1, m);
    var q := ArchiveUp(src, dst, c1, m);
    assert ArchiveUp(src, dst, c, r) == q;
    SkipCombine(s, Slots(q.0), Slots(dst), Slots(q.1), c, r, c1, m);
  }

  /** The source after archiving the complete line at c and then visiting the other m lines
      of the window: s is its slots before, s1 after the first step, s2 at the end. */
  lemma TakeSource(s: seq<Option<Item>>, s1: seq<Option<Item>>, s2: seq<Option<Item>>, c: nat, r: nat, m: nat)
    requires r == m + 1 && c + r <= |s| && IsCompleteSlot(s[c])
    requires s1 == s[..c] + s[c + 1..] + [None]
    requires s2 == s1[..c] + Remaining(s1[c..c + m]) + s1[c + m..] + Empties(|Archived(s1[c..c + m])|)
    ensures s2 == s[..c] + Remaining(s[c..c + r]) + s[c + r..] + Empties(|Archived(s[c..c + r])|)
  {
    TakeShape(s, s1, c, r, m);
    var w' := s1[c..c + m];
    TakeJoin(s[..c], Remaining(w'), s[c + r..], |Archived(w')|);
  }

  /** The destination after the same: d is its slots before, d1 after the first step, d2 at
      the end. */
  lemma TakeDestination(s: seq<Option<Item>>, s1: seq<Option<Item>>,
                        d: seq<Option<Item>>, d1: seq<Option<Item>>, d2: seq<Option<Item>>, c: nat, r: nat, m: nat)
    requires r == m + 1 && c + r <= |s| && IsCompleteSlot(s[c])
    requires s1 == s[..c] + s[c + 1..] + [None]
    requires d1 == d + [Some(WithLine(s[c].value, |d|))]
    requires d2 == d1 + AppendedAt(Archived(s1[c..c + m]), |d1|)
    ensures d2 == d + AppendedAt(Archived(s[c..c + r]), |d|)
  {
    TakeShape(s, s1, c, r, m);
    TakeDest(d, s[c].value, Archived(s1[c..c + m]), |d|, |d1|);
  }

  /** The step of ArchiveUpMoves that archives the complete line at c. */
  lemma {:induction false} ArchiveUpTake(src: Doc, dst: Doc, c: nat, r: nat)
    requires Valid(src) && Disjoint(src) && Valid(dst) && c + r <= src.nextLine
    requires 0 < r && c in src.complete
    ensures var p := ArchiveUp(src, dst, c, r);
      var s := Slots(src);
      Slots(p.0) == s[..c] + Remaining(s[c..c + r]) + s[c + r..] + Empties(|Archived(s[c..c + r])|)
      && Slots(p.1) == Slots(dst) + AppendedAt(Archived(s[c..c + r]), dst.nextLine)
    decreases r, 0
  {
    var it := src.complete[c];
    assert ItemAt(src, c) == Some(it) && it.Complete?;
    var p := ArchiveDocs(src, dst, c);
    assert p == (RemoveLineDoc(src, c), AddExistingDoc(dst, it, true));
    ArchiveDocsValid(src, dst, c);
    RemoveLineSlots(src, c);
    AddExistingSlots(dst, it, true);
    var a, b, m := p.0, p.1, r - 1;
    ArchiveUpMoves(a, b, c, m);
    var q := ArchiveUp(a, b, c, m);
    assert ArchiveUp(src, dst, c, r) == q;
    var s, s1, s2, d, d1, d2 := Slots(src), Slots(a), Slots(q.0), Slots(dst), Slots(b), Slots(q.1);
    assert s[c] == Some(it) && |d| == dst.nextLine && |d1| == b.nextLine;
    TakeSource(s, s1, s2, c, r, m);
    TakeDestination(s, s1, d, d1, d2, c, r, m);
  }

  /** The corrected archive, on a file whose lines are in one map only: the source keeps its
      empty lines and in-progress items in their order, closed up, with an empty line for each
      item that left; the destination gains every complete item, in line order, renumbered
      from its old _next_line on. */
  lemma ArchiveAllFixedMoves(src: Doc, dst: Doc)
    requires Valid(src) && Disjoint(src) && Valid(dst)
    ensures var p := ArchiveAllFixed(src, dst);
      var s := Slots(src);
      Slots(p.0) == Remaining(s) + Empties(|Archived(s)|)
      && Slots(p.1) == Slots(dst) + AppendedAt(Archived(s), dst.nextLine)
      && p.1.nextLine == dst.nextLine + |Archived(s)|
  {
    var s, n := Slots(src), src.nextLine;
    assert ArchiveAllFixed(src, dst) == ArchiveUp(src, dst, 0, n);
    ArchiveUpMoves(src, dst, 0, n);
    assert s[..0] == [] && s[0..n] == s && s[n..] == [];
    var k := Remaining(s);
    assert s[..0] + k + s[n..] == k;
  }

  /** The corrected archive empties the complete map of a valid source, keeps both files valid
      and leaves the destination's old lines as they were. */
  lemma ArchiveAllFixedEmpties(src: Doc, dst: Doc)
    requires Valid(src) && Valid(dst)
    ensures var p := ArchiveAllFixed(src, dst);
      p.0.complete == map[] && Valid(p.0) && Valid(p.1)
      && forall l :: 0 <= l < dst.nextLine ==> ItemAt(p.1, l) == ItemAt(dst, l)
  {
    assert ArchiveAllFixed(src, dst) == ArchiveUp(src, dst, 0, src.nextLine);
    ArchiveUpEmpties(src, dst, 0, src.nextLine);
    ArchiveUpValid(src, dst, 0, src.nextLine);
  }

  // ---------------------------------------------------------------------------------------
  // get_all_projects and get_all_contexts

  /** The tags of every item, in progress and complete. */
  function TagSet(d: Doc): set<string> {
    (set l, x | l in d.incomplete && x in ProjectsContextsOf(d.incomplete[l]) :: x)
    + (set l, x | l in d.complete && x in ProjectsContextsOf(d.complete[l]) :: x)
  }

  /** _get_projects_or_contexts(c): the distinct tags starting with c, sorted.  Without any
      item, reduce over an empty sequence with no initial value raises TypeError. */
  function AllTags(d: Doc, c: char): (r: Result<seq<string>, Error>)
    ensures r.Err? <==> d.incomplete == map[] && d.complete == map[]
    ensures r.Err? ==> r.error == NoItems
    ensures r.Ok? ==> forall x :: x in r.value <==> x in TagSet(d) && StartsWith(x, [c])
    ensures r.Ok? ==> forall i, j :: 0 <= i < j < |r.value| ==> StrLess(r.value[i], r.value[j])
  {
    if d.incomplete == map[] && d.complete == map[] then Err(NoItems)
    else Ok(SortedStrings(set x | x in TagSet(d) && StartsWith(x, [c])))
  }

  /** get_all_projects: exactly the projects of the items, each once, in sorted order. */
  lemma AllProjectsOfItems(d: Doc, x: string)
    requires d.incomplete != map[] || d.complete != map[]
    ensures AllTags(d, '+').Ok?
    ensures x in AllTags(d, '+').value <==>
      (exists l :: l in d.incomplete && x in Projects(d.incomplete[l]))
      || (exists l :: l in d.complete && x in Projects(d.complete[l]))
  {
    TagsByPrefix(d, x);
  }

  /** get_all_contexts: exactly the contexts of the items, each once, in sorted order. */
  lemma AllContextsOfItems(d: Doc, x: string)
    requires d.incomplete != map[] || d.complete != map[]
    ensures AllTags(d, '@').Ok?
    ensures x in AllTags(d, '@').value <==>
      (exists l :: l in d.incomplete && x in Contexts(d.incomplete[l]))
      || (exists l :: l in d.complete && x in Contexts(d.complete[l]))
  {
    TagsByPrefix(d, x);
  }

  lemma TagsByPrefix(d: Doc, x: string)
    ensures forall l :: l in d.incomplete ==>
      (x in Projects(d.incomplete[l]) <==> x in ProjectsContextsOf(d.incomplete[l]) && StartsWith(x, "+"))
      && (x in Contexts(d.incomplete[l]) <==> x in ProjectsContextsOf(d.incomplete[l]) && StartsWith(x, "@"))
    ensures forall l :: l in d.complete ==>
      (x in Projects(d.complete[l]) <==> x in ProjectsContextsOf(d.complete[l]) && StartsWith(x, "+"))
      && (x in Contexts(d.complete[l]) <==> x in ProjectsContextsOf(d.complete[l]) && StartsWith(x, "@"))
  {
    if |x| > 0 {
      assert x[..1] == [x[0]];
    }
    forall l | l in d.incomplete
      ensures (x in Projects(d.incomplete[l]) <==> x in ProjectsContextsOf(d.incomplete[l]) && StartsWith(x, "+"))
      ensures (x in Contexts(d.incomplete[l]) <==> x in ProjectsContextsOf(d.incomplete[l]) && StartsWith(x, "@"))
    {
      ProjectsAndContextsSplitTags(d.incomplete[l], x);
    }
    forall l | l in d.complete
      ensures (x in Projects(d.complete[l]) <==> x in ProjectsContextsOf(d.complete[l]) && StartsWith(x, "+"))
      ensures (x in Contexts(d.complete[l]) <==> x in ProjectsContextsOf(d.complete[l]) && StartsWith(x, "@"))
    {
      ProjectsAndContextsSplitTags(d.complete[l], x);
    }
  }
}
