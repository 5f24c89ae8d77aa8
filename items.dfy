/**
 * The work items of a todo.txt file: WorkItem with its two subclasses InProgressItem and
 * CompleteItem, as one datatype with two variants.  What WorkItem.__init__ derives from the text
 * (the description, the tags and the parsed dates) is computed from the stored fields on demand.
 */
module Items {
  import opened Wrappers
  import opened PyStr
  import opened Dates
  import opened Tags

  /** One line of the file.  Dates are kept as the text they were given in. */
  datatype Item =
    | InProgress(line: nat, origText: string, start: Option<string>, priority: Option<string>)
    | Complete(line: nat, origText: string, start: Option<string>, end: string)

  /** The exceptions the parser and the document raise, as values. */
  datatype Error =
    | BadDate(token: string)      // ValueError from strptime
    | NoItemAt(line: nat)         // AttributeError: get_item returned None
    | NoItems                     // TypeError: reduce() of an empty sequence
    | DictChangedSize             // RuntimeError: dictionary changed size during iteration

  /** Python's truth value of an optional string: None and "" are false. */
  predicate Truthy(o: Option<string>) {
    o.Some? && o.value != ""
  }

  /** A date field that WorkItem.__init__ or CompleteItem.__init__ would hand to strptime, and
      that strptime accepts. */
  predicate DateFieldOk(o: Option<string>) {
    Truthy(o) ==> Strptime(o.value).Some?
  }

  /** Every date the item carries reads as a calendar date: what a successfully constructed
      item guarantees. */
  predicate ValidItem(it: Item) {
    DateFieldOk(it.start) && (it.Complete? ==> DateFieldOk(Some(it.end)))
  }

  /** InProgressItem(line, text, priority, start): WorkItem.__init__ parses a truthy start date
      and raises ValueError when it is not one. */
  function NewInProgress(line: nat, text: string, priority: Option<string>, start: Option<string>)
    : (r: Result<Item, Error>)
    ensures r.Ok? <==> DateFieldOk(start)
    ensures r.Ok? ==> r.value.InProgress? && r.value.line == line && r.value.origText == text
                      && r.value.priority == priority && r.value.start == start && ValidItem(r.value)
    ensures r.Err? ==> r.error == BadDate(start.value)
  {
    if Truthy(start) && Strptime(start.value).None? then Err(BadDate(start.value))
    else Ok(InProgress(line, text, start, priority))
  }

  /** CompleteItem(line, text, end, start): the start date is parsed first (in WorkItem.__init__),
      then a truthy end date; the first that does not parse raises. */
  function NewComplete(line: nat, text: string, end: string, start: Option<string>)
    : (r: Result<Item, Error>)
    ensures r.Ok? <==> DateFieldOk(start) && DateFieldOk(Some(end))
    ensures r.Ok? ==> r.value.Complete? && r.value.line == line && r.value.origText == text
                      && r.value.end == end && r.value.start == start && ValidItem(r.value)
    ensures r.Err? ==> r.error == (if DateFieldOk(start) then BadDate(end) else BadDate(start.value))
  {
    if Truthy(start) && Strptime(start.value).None? then Err(BadDate(start.value))
    else if end != "" && Strptime(end).None? then Err(BadDate(end))
    else Ok(Complete(line, text, start, end))
  }

  /** WorkItem.change_line: only the line number changes, so the rendered text does not. */
  function WithLine(it: Item, n: nat): (r: Item)
    ensures r.line == n && r.InProgress? == it.InProgress?
    ensures r.origText == it.origText && r.start == it.start
    ensures Render(r) == Render(it)
    ensures ValidItem(r) == ValidItem(it)
  {
    it.(line := n)
  }

  /** What __str__ of InProgressItem and of CompleteItem builds before its final strip: the
      fields that are set, put back in front of the original text. */
  function Written(it: Item): string {
    var withStart := (if Truthy(it.start) then it.start.value + " " else "") + it.origText;
    match it
    case InProgress(_, _, _, priority) =>
      (if Truthy(priority) then "(" + priority.value + ") " else "") + withStart
    case Complete(_, _, _, end) =>
      "x " + end + " " + withStart
  }

  /** __str__: the written form with its outer whitespace stripped. */
  function Render(it: Item): (r: string)
    ensures r != [] ==> !IsSpace(r[0]) && !IsSpace(r[|r| - 1])
  {
    StripCharsIsSlice(Written(it), Whitespace);
    Strip(Written(it))
  }

  // ---------------------------------------------------------------------------------------
  // What WorkItem.__init__ derives from the original text.

  /** The text property: the original text with the tags cut out, stripped. */
  function Text(it: Item): string {
    Description(it.origText)
  }

  /** The projects_contexts property. */
  function ProjectsContextsOf(it: Item): seq<string> {
    ProjectsContexts(it.origText)
  }

  /** The elements of xs that start with c, in order: itertools.ifilter with startswith. */
  function WithPrefix(xs: seq<string>, c: string): (r: seq<string>)
    ensures |r| <= |xs|
    ensures forall x :: x in r <==> x in xs && StartsWith(x, c)
    decreases |xs|
  {
    if xs == [] then []
    else if StartsWith(xs[0], c) then [xs[0]] + WithPrefix(xs[1..], c)
    else WithPrefix(xs[1..], c)
  }

  /** The filter keeps order: filtering a concatenation is concatenating the filtered parts. */
  lemma {:induction false} WithPrefixAppend(xs: seq<string>, ys: seq<string>, c: string)
    ensures WithPrefix(xs + ys, c) == WithPrefix(xs, c) + WithPrefix(ys, c)
    decreases |xs|
  {
    if xs == [] {
      assert xs + ys == ys;
    } else {
      assert (xs + ys)[0] == xs[0] && (xs + ys)[1..] == xs[1..] + ys;
      WithPrefixAppend(xs[1..], ys, c);
    }
  }

  /** The filter keeps multiplicity: each string that starts with c occurs as often as in xs,
      any other not at all. */
  lemma {:induction false} WithPrefixCounts(xs: seq<string>, c: string, x: string)
    ensures multiset(WithPrefix(xs, c))[x] == if StartsWith(x, c) then multiset(xs)[x] else 0
    decreases |xs|
  {
    if xs != [] {
      assert xs == [xs[0]] + xs[1..];
      WithPrefixCounts(xs[1..], c, x);
    }
  }

  /** The projects property as written: it keeps the tags that start with '@'. */
  function ProjectsAsWritten(it: Item): seq<string> {
    WithPrefix(ProjectsContextsOf(it), "@")
  }

  /** The contexts property as written: it keeps the tags that start with '+'. */
  function ContextsAsWritten(it: Item): seq<string> {
    WithPrefix(ProjectsContextsOf(it), "+")
  }

  /** The projects property as todo.txt and TodoFile.get_all_projects mean it: '+' tags. */
  function Projects(it: Item): seq<string> {
    WithPrefix(ProjectsContextsOf(it), "+")
  }

  /** The contexts property as todo.txt and TodoFile.get_all_contexts mean it: '@' tags. */
  function Contexts(it: Item): seq<string> {
    WithPrefix(ProjectsContextsOf(it), "@")
  }

  /** Filtering on a one-character prefix keeps exactly the strings that begin with it. */
  lemma WithPrefixChar(xs: seq<string>, x: string, c: char)
    ensures x in WithPrefix(xs, [c]) <==> x in xs && |x| > 0 && x[0] == c
  {
    if |x| > 0 {
      assert x[..1] == [x[0]];
    }
  }

  /** Every tag is a project or a context, and never both. */
  lemma ProjectsAndContextsSplitTags(it: Item, x: string)
    ensures x in Projects(it) <==> x in ProjectsContextsOf(it) && |x| > 0 && x[0] == '+'
    ensures x in Contexts(it) <==> x in ProjectsContextsOf(it) && |x| > 0 && x[0] == '@'
    ensures x in ProjectsContextsOf(it) ==> (x in Projects(it)) != (x in Contexts(it))
  {
    var tags := ProjectsContextsOf(it);
    WithPrefixChar(tags, x, '+');
    WithPrefixChar(tags, x, '@');
    if x in tags {
      TagsAreMatches(it.origText);
      var k :| 0 <= k < |tags| && tags[k] == x;
    }
  }

  /** The two filters as written are the intended ones exchanged. */
  lemma ProjectsContextsSwapped(it: Item)
    ensures ProjectsAsWritten(it) == Contexts(it)
    ensures ContextsAsWritten(it) == Projects(it)
  {
  }

  /** The scan moves past a position that cannot start a tag. */
  lemma SpansSkip(s: string, i: nat)
    requires i < |s| && !IsTagStart(s[i])
    ensures Spans(s, i) == Spans(s, i + 1)
  {
  }

  /** The scan takes a match where one starts and goes on from its end. */
  lemma SpansTake(s: string, i: nat, e: nat)
    requires i < |s| && MatchAt(s, i) == Some(e)
    ensures Spans(s, i) == [(i, e)] + Spans(s, e)
  {
  }

  lemma ExampleMatchAtB()
    ensures MatchAt("a +b @c", 2) == Some(4)
  {
  }

  lemma ExampleMatchAtC()
    ensures MatchAt("a +b @c", 5) == Some(7)
  {
  }

  lemma ExampleSpansTail()
    ensures Spans("a +b @c", 4) == [(5, 7)]
  {
    var s := "a +b @c";
    SpansSkip(s, 4);
    ExampleMatchAtC();
    SpansTake(s, 5, 7);
    assert Spans(s, 7) == [];
  }

  lemma ExampleSpans()
    ensures Spans("a +b @c", 0) == [(2, 4), (5, 7)]
  {
    var s := "a +b @c";
    SpansSkip(s, 0);
    SpansSkip(s, 1);
    ExampleMatchAtB();
    SpansTake(s, 2, 4);
    ExampleSpansTail();
  }

  /** The line "a +b @c": as written its projects are ["@c"] and its contexts ["+b"], while
      todo.txt calls +b the project and @c the context. */
  lemma ProjectsAsWrittenExample()
    ensures var it := InProgress(0, "a +b @c", None, None);
      ProjectsContextsOf(it) == ["+b", "@c"]
      && ProjectsAsWritten(it) == ["@c"] && ContextsAsWritten(it) == ["+b"]
      && Projects(it) == ["+b"] && Contexts(it) == ["@c"]
  {
    var s := "a +b @c";
    ExampleSpans();
    assert TagSpans(s) == [(2, 4), (5, 7)];
    ProjectsContextsAreSlices(s);
    assert s[2..4] == "+b" && s[5..7] == "@c";
    assert Slices(s, 4, [(5, 7)]) == ["@c"];
    var tags := ["+b", "@c"];
    assert StartsWith("+b", "+") && !StartsWith("@c", "+");
    assert StartsWith("@c", "@") && !StartsWith("+b", "@");
    assert WithPrefix(tags, "+") == ["+b"] by { assert tags[1..] == ["@c"]; }
    assert WithPrefix(tags, "@") == ["@c"] by { assert tags[1..] == ["@c"]; }
  }

  // ---------------------------------------------------------------------------------------
  // priority_sort and days_taken

  /** InProgressItem.priority_sort: the priority, or "ZZ" when there is none. */
  function PrioritySort(it: Item): (r: string)
    requires it.InProgress?
    ensures Truthy(it.priority) ==> r == it.priority.value
    ensures !Truthy(it.priority) ==> r == "ZZ"
  {
    if Truthy(it.priority) then it.priority.value else "ZZ"
  }

  /** A priority the parser produces: one capital letter. */
  predicate IsLetterPriority(p: Option<string>) {
    p.Some? && |p.value| == 1 && 'A' <= p.value[0] <= 'Z'
  }

  /** Sorting by priority_sort puts letter priorities in alphabetical order and an item without
      a priority after every item with one. */
  lemma PrioritySortOrder(a: Item, b: Item)
    requires a.InProgress? && b.InProgress? && IsLetterPriority(a.priority)
    ensures !Truthy(b.priority) ==> StrLess(PrioritySort(a), PrioritySort(b))
    ensures IsLetterPriority(b.priority) ==>
      (StrLess(PrioritySort(a), PrioritySort(b)) <==> a.priority.value[0] < b.priority.value[0])
  {
    var pa := PrioritySort(a);
    assert pa == [a.priority.value[0]];
    if !Truthy(b.priority) {
      assert PrioritySort(b) == "ZZ";
      if pa[0] == 'Z' {
        assert StrLess(pa[1..], "Z");
      }
    }
  }

  /** The date the start field names, for an item whose dates are valid. */
  function StartDate(it: Item): (r: Option<Date>)
    requires ValidItem(it)
    ensures r.Some? <==> Truthy(it.start)
    ensures r.Some? ==> IsCalendarDate(r.value) && Strptime(it.start.value) == r
  {
    if Truthy(it.start) then Strptime(it.start.value) else None
  }

  /** The date the end field names, for a complete item whose dates are valid. */
  function EndDate(it: Item): (r: Option<Date>)
    requires it.Complete? && ValidItem(it)
    ensures r.Some? <==> it.end != ""
    ensures r.Some? ==> IsCalendarDate(r.value) && Strptime(it.end) == r
  {
    if it.end != "" then Strptime(it.end) else None
  }

  /** CompleteItem.days_taken: the end date minus the start date in days, when both are set. */
  function DaysTaken(it: Item): (r: Option<int>)
    requires it.Complete? && ValidItem(it)
    ensures r.Some? <==> Truthy(it.start) && it.end != ""
  {
    match (StartDate(it), EndDate(it))
    case (Some(s), Some(e)) => Some(Ordinal(e) - Ordinal(s))
    case _ => None
  }

  /** days_taken counts calendar days: an item finished n days after it started took n days. */
  lemma DaysTakenCountsDays(it: Item, n: nat)
    requires it.Complete? && ValidItem(it) && Truthy(it.start) && it.end != ""
    requires AddDays(StartDate(it).value, n) == EndDate(it).value
    ensures DaysTaken(it) == Some(n)
  {
    OrdinalAddDays(StartDate(it).value, n);
  }

  /** Started on 31 January 2012 and finished on 1 March 2012, a leap year: 30 days. */
  lemma DaysTakenExample()
    ensures var it := Complete(0, "pay rent", Some("2012-01-31"), "2012-03-01");
      ValidItem(it) && DaysTaken(it) == Some(30)
  {
    StartTokenExample();
    EndTokenExample();
    assert Ordinal(Date(2012, 3, 1)) - Ordinal(Date(2012, 1, 31)) == 30;
  }

  lemma StartTokenExample()
    ensures Strptime("2012-01-31") == Some(Date(2012, 1, 31))
  {
    StrptimeOnDateToken("2012-01-31");
    assert TokenDate("2012-01-31") == Date(2012, 1, 31);
  }

  lemma EndTokenExample()
    ensures Strptime("2012-03-01") == Some(Date(2012, 3, 1))
  {
    StrptimeOnDateToken("2012-03-01");
    assert TokenDate("2012-03-01") == Date(2012, 3, 1);
  }
}
