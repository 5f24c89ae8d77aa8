/**
 * The two line patterns of TodoFile, matched by hand, and the classification TodoFile.__init__
 * gives each line: the complete pattern first, then the incomplete one, and no item when
 * neither matches.
 *
 *   complete_re   = x (?P<end>DATE )(?P<start>DATE )?(?P<text>.+)
 *   incomplete_re = (?P<priority>\([A-Z]\) )?(?P<start>DATE )?(?P<text>.+)
 *
 * where DATE is [0-9]{4}-[0-9]{2}-[0-9]{2}.  re.match anchors at the start of the line only;
 * an optional group is taken when it is present and the rest of the pattern can then still
 * match, and is given up otherwise.  The groups keep their trailing space.
 */
module LineParser {
  import opened Wrappers
  import opened PyStr
  import opened Dates
  import opened Items

  /** A date group as the patterns capture it: "DATE ". */
  predicate IsDateGroup(g: string) {
    |g| == 11 && IsDateShaped(g[..10]) && g[10] == ' '
  }

  predicate DateGroupAt(s: string, k: nat) {
    k + 11 <= |s| && IsDateGroup(s[k..k + 11])
  }

  /** A priority group as incomplete_re captures it: "(X) " with X a capital letter. */
  predicate IsPriorityGroup(g: string) {
    |g| == 4 && g[0] == '(' && 'A' <= g[1] <= 'Z' && g[2] == ')' && g[3] == ' '
  }

  predicate PriorityGroupAtStart(s: string) {
    |s| >= 4 && IsPriorityGroup(s[..4])
  }

  /** ".+" can match at k: there is a character there and it is not a newline. */
  predicate TextCanStart(s: string, k: nat) {
    k < |s| && s[k] != '\n'
  }

  /** Where the greedy ".+" that starts at k stops: at the first newline or at the end. */
  function DotEnd(s: string, k: nat): (e: nat)
    requires k <= |s|
    ensures k <= e <= |s|
    ensures forall j :: k <= j < e ==> s[j] != '\n'
    ensures e < |s| ==> s[e] == '\n'
    decreases |s| - k
  {
    if k == |s| || s[k] == '\n' then k else DotEnd(s, k + 1)
  }

  /** The groups of a match of complete_re, as the match object gives them. */
  datatype CompleteMatch = CompleteMatch(end: string, start: Option<string>, text: string)

  /** The groups of a match of incomplete_re. */
  datatype IncompleteMatch = IncompleteMatch(priority: Option<string>, start: Option<string>, text: string)

  predicate CompleteGroups(m: CompleteMatch) {
    IsDateGroup(m.end) && (m.start.Some? ==> IsDateGroup(m.start.value)) && m.text != []
  }

  predicate IncompleteGroups(m: IncompleteMatch) {
    (m.priority.Some? ==> IsPriorityGroup(m.priority.value))
    && (m.start.Some? ==> IsDateGroup(m.start.value)) && m.text != []
  }

  /** The optional start group followed by the text, tried at k: the group is taken when it is
      there and a text character follows it. */
  function MatchStartAndText(line: string, k: nat): (r: Option<(Option<string>, string)>)
    requires k <= |line|
    ensures r.None? <==> !TextCanStart(line, k)
    ensures r.Some? ==> r.value.1 != []
    ensures r.Some? && r.value.0.Some? ==>
      DateGroupAt(line, k) && r.value.0.value == line[k..k + 11]
      && TextCanStart(line, k + 11) && r.value.1 == line[k + 11..DotEnd(line, k + 11)]
    ensures r.Some? && r.value.0.None? ==>
      !(DateGroupAt(line, k) && TextCanStart(line, k + 11))
      && r.value.1 == line[k..DotEnd(line, k)]
  {
    if DateGroupAt(line, k) && TextCanStart(line, k + 11) then
      Some((Some(line[k..k + 11]), line[k + 11..DotEnd(line, k + 11)]))
    else if TextCanStart(line, k) then
      Some((None, line[k..DotEnd(line, k)]))
    else None
  }

  /** complete_re.match(line). */
  function MatchComplete(line: string): (r: Option<CompleteMatch>)
    ensures r.None? <==> !(StartsWith(line, "x ") && DateGroupAt(line, 2) && TextCanStart(line, 13))
    ensures r.Some? ==> StartsWith(line, "x ") && DateGroupAt(line, 2) && r.value.end == line[2..13]
                        && MatchStartAndText(line, 13) == Some((r.value.start, r.value.text))
                        && CompleteGroups(r.value)
  {
    if StartsWith(line, "x ") && DateGroupAt(line, 2) then
      match MatchStartAndText(line, 13)
      case Some((start, text)) => Some(CompleteMatch(line[2..13], start, text))
      case None => None
    else None
  }

  /** incomplete_re.match(line): it matches every line that does not start with a newline. */
  function MatchIncomplete(line: string): (r: Option<IncompleteMatch>)
    ensures r.None? <==> !TextCanStart(line, 0)
    ensures r.Some? && r.value.priority.Some? ==>
      PriorityGroupAtStart(line) && r.value.priority.value == line[..4] && TextCanStart(line, 4)
    ensures r.Some? && r.value.priority.None? ==> !(PriorityGroupAtStart(line) && TextCanStart(line, 4))
    ensures r.Some? ==>
      var k := if r.value.priority.Some? then 4 else 0;
      MatchStartAndText(line, k) == Some((r.value.start, r.value.text))
      && IncompleteGroups(r.value)
  {
    if PriorityGroupAtStart(line) && TextCanStart(line, 4) then
      var st := MatchStartAndText(line, 4).value;
      Some(IncompleteMatch(Some(line[..4]), st.0, st.1))
    else
      match MatchStartAndText(line, 0)
      case None => None
      case Some((start, text)) => Some(IncompleteMatch(None, start, text))
  }

  /** The characters priority.strip('() ') removes. */
  const PriorityChars: set<char> := {'(', ')', ' '}

  /** if start: start = start.strip() */
  function StripGroup(g: Option<string>): Option<string> {
    if Truthy(g) then Some(Strip(g.value)) else g
  }

  /** if priority: priority = priority.strip('() ') */
  function StripPriority(g: Option<string>): Option<string> {
    if Truthy(g) then Some(StripChars(g.value, PriorityChars)) else g
  }

  /** The body of the loop in TodoFile.__init__ for line i: the item it files, if any. */
  function ParseLine(i: nat, line: string): (r: Result<Option<Item>, Error>)
    ensures r.Ok? && r.value.Some? ==>
      r.value.value.line == i && ValidItem(r.value.value)
      && (r.value.value.Complete? <==> MatchComplete(line).Some?)
  {
    match MatchComplete(line)
    case Some(m) => FileComplete(i, m)
    case None =>
      match MatchIncomplete(line)
      case Some(m) => FileIncomplete(i, m)
      case None => Ok(None)
  }

  /** The complete item a match of complete_re becomes (the end group is never empty, so it
      is always stripped). */
  function FileComplete(i: nat, m: CompleteMatch): Result<Option<Item>, Error> {
    Filed(NewComplete(i, m.text, Strip(m.end), StripGroup(m.start)))
  }

  /** The in-progress item a match of incomplete_re becomes. */
  function FileIncomplete(i: nat, m: IncompleteMatch): Result<Option<Item>, Error> {
    Filed(NewInProgress(i, m.text, StripPriority(m.priority), StripGroup(m.start)))
  }

  /** A constructed item is filed; a constructor's exception propagates. */
  function Filed(r: Result<Item, Error>): Result<Option<Item>, Error> {
    match r
    case Ok(it) => Ok(Some(it))
    case Err(e) => Err(e)
  }

  // ---------------------------------------------------------------------------------------
  // What the fields of an item are, given the groups.

  /** Stripping a date group leaves the date. */
  lemma StripDateGroup(g: string)
    requires IsDateGroup(g)
    ensures Strip(g) == g[..10]
  {
    assert g == g[..10] + [' '];
    StripCharsDropsOneTrailing(g[..10], ' ', Whitespace);
  }

  /** Stripping the characters "() " from a priority group leaves its letter. */
  lemma StripPriorityGroup(g: string)
    requires IsPriorityGroup(g)
    ensures StripChars(g, PriorityChars) == [g[1]]
  {
    assert LStrip(g, PriorityChars) == g[1..];
    assert g[1..][1..] == [')', ' '];
    assert RStrip(g[1..], PriorityChars) == [g[1]] by {
      assert g[1..][..2] == [g[1], ')'];
      assert g[1..][..1] == [g[1]];
      assert RStrip([g[1]], PriorityChars) == [g[1]];
      assert RStrip([g[1], ')'], PriorityChars) == [g[1]];
    }
  }

  /** The start date a start group becomes. */
  function StartOf(g: Option<string>): (d: Option<string>)
    requires g.Some? ==> IsDateGroup(g.value)
    ensures d == StripGroup(g)
    ensures d.Some? ==> IsDateShaped(d.value)
  {
    if g.Some? then StripDateGroup(g.value); Some(g.value[..10]) else None
  }

  /** The priority a priority group becomes: its letter. */
  function PriorityOf(g: Option<string>): (p: Option<string>)
    requires g.Some? ==> IsPriorityGroup(g.value)
    ensures p == StripPriority(g)
    ensures p.Some? ==> IsLetterPriority(p)
  {
    if g.Some? then StripPriorityGroup(g.value); Some([g.value[1]]) else None
  }

  // ---------------------------------------------------------------------------------------
  // Date errors.

  /** The dates a complete match carries, in the order they are checked: start, then end. */
  function CompleteDates(m: CompleteMatch): (ds: seq<string>)
    requires CompleteGroups(m)
    ensures forall k :: 0 <= k < |ds| ==> IsDateShaped(ds[k])
  {
    var end := m.end[..10];
    var start := StartOf(m.start);
    if start.Some? then [start.value, end] else [end]
  }

  function IncompleteDates(m: IncompleteMatch): (ds: seq<string>)
    requires IncompleteGroups(m)
    ensures forall k :: 0 <= k < |ds| ==> IsDateShaped(ds[k])
  {
    var start := StartOf(m.start);
    if start.Some? then [start.value] else []
  }

  /** The date tokens a line's match captures, stripped, in the order they are checked. */
  function CapturedDates(line: string): (ds: seq<string>)
    ensures forall k :: 0 <= k < |ds| ==> IsDateShaped(ds[k])
  {
    match MatchComplete(line)
    case Some(m) => CompleteDates(m)
    case None =>
      match MatchIncomplete(line)
      case Some(m) => IncompleteDates(m)
      case None => []
  }

  /** The position of the first of ds that is not a calendar date, if any. */
  function FirstBadDate(ds: seq<string>): (r: Option<nat>)
    requires forall k :: 0 <= k < |ds| ==> IsDateShaped(ds[k])
    ensures r.None? <==> forall k :: 0 <= k < |ds| ==> IsCalendarDate(TokenDate(ds[k]))
    ensures r.Some? ==> r.value < |ds| && !IsCalendarDate(TokenDate(ds[r.value]))
                        && forall j :: 0 <= j < r.value ==> IsCalendarDate(TokenDate(ds[j]))
    decreases |ds|
  {
    if ds == [] then None
    else if !IsCalendarDate(TokenDate(ds[0])) then Some(0)
    else match FirstBadDate(ds[1..])
      case None => None
      case Some(k) => Some(k + 1)
  }

  /** Date validation is strict: a line is refused exactly when one of the date tokens its
      pattern captured is not a calendar date, and the error names the first such token;
      otherwise the line is accepted. */
  lemma ParseLineDateErrors(i: nat, line: string)
    ensures var ds := CapturedDates(line);
      match FirstBadDate(ds)
      case None => ParseLine(i, line).Ok?
      case Some(k) => ParseLine(i, line) == Err(BadDate(ds[k]))
  {
    match MatchComplete(line)
    case Some(m) => FileCompleteDateErrors(i, m);
    case None =>
      match MatchIncomplete(line)
      case Some(m) => FileIncompleteDateErrors(i, m);
      case None =>
  }

  lemma FileCompleteDateErrors(i: nat, m: CompleteMatch)
    requires CompleteGroups(m)
    ensures var ds := CompleteDates(m);
      match FirstBadDate(ds)
      case None => FileComplete(i, m).Ok?
      case Some(k) => FileComplete(i, m) == Err(BadDate(ds[k]))
  {
    var end := m.end[..10];
    StripDateGroup(m.end);
    StrptimeOnDateToken(end);
    var start := StartOf(m.start);
    if start.Some? {
      StrptimeOnDateToken(start.value);
      assert [start.value, end][1..] == [end];
    }
  }

  lemma FileIncompleteDateErrors(i: nat, m: IncompleteMatch)
    requires IncompleteGroups(m)
    ensures var ds := IncompleteDates(m);
      match FirstBadDate(ds)
      case None => FileIncomplete(i, m).Ok?
      case Some(k) => FileIncomplete(i, m) == Err(BadDate(ds[k]))
  {
    var start := StartOf(m.start);
    if start.Some? {
      StrptimeOnDateToken(start.value);
    }
  }

  // ---------------------------------------------------------------------------------------
  // From a line to an item and back to text.

  /** ".+" runs to the end of the line when no newline follows k. */
  lemma DotEndOfSuffix(line: string, k: nat)
    requires k <= |line| && NoLineBreak(line[k..])
    ensures DotEnd(line, k) == |line|
  {
    assert forall j :: k <= j < |line| ==> line[j] == line[k..][j - k];
  }

  /** A line without line breaks that the complete pattern matches is made of its groups. */
  lemma CompleteLineShape(line: string)
    requires NoLineBreak(line) && MatchComplete(line).Some?
    ensures var m := MatchComplete(line).value;
      line == "x " + m.end + ((if m.start.Some? then m.start.value else "") + m.text)
  {
    var m := MatchComplete(line).value;
    var k := if m.start.Some? then 24 else 13;
    DotEndOfSuffix(line, k);
    if m.start.Some? {
      assert line == line[..2] + line[2..13] + (line[13..24] + line[24..]);
    } else {
      assert line == line[..2] + line[2..13] + line[13..];
    }
  }

  /** A line without line breaks that the incomplete pattern matches is made of its groups. */
  lemma IncompleteLineShape(line: string)
    requires NoLineBreak(line) && MatchIncomplete(line).Some?
    ensures var m := MatchIncomplete(line).value;
      line == (if m.priority.Some? then m.priority.value else "")
              + ((if m.start.Some? then m.start.value else "") + m.text)
  {
    var m := MatchIncomplete(line).value;
    var k := if m.priority.Some? then 4 else 0;
    var k2 := if m.start.Some? then k + 11 else k;
    DotEndOfSuffix(line, k2);
    assert line == line[..k] + (line[k..k2] + line[k2..]);
  }

  /** The item a complete match becomes is written as the matched groups. */
  lemma WrittenFromComplete(i: nat, m: CompleteMatch)
    requires CompleteGroups(m) && FileComplete(i, m).Ok?
    ensures FileComplete(i, m).value.Some?
    ensures var it := FileComplete(i, m).value.value;
      it.Complete? && it.line == i && ValidItem(it)
      && Written(it) == "x " + m.end + ((if m.start.Some? then m.start.value else "") + m.text)
  {
    StripDateGroup(m.end);
    var start := StartOf(m.start);
    assert m.end == m.end[..10] + " ";
    if m.start.Some? {
      assert m.start.value == start.value + " ";
    }
  }

  /** The item an incomplete match becomes is written as the matched groups. */
  lemma WrittenFromIncomplete(i: nat, m: IncompleteMatch)
    requires IncompleteGroups(m) && FileIncomplete(i, m).Ok?
    ensures FileIncomplete(i, m).value.Some?
    ensures var it := FileIncomplete(i, m).value.value;
      it.InProgress? && it.line == i && ValidItem(it)
      && Written(it) == (if m.priority.Some? then m.priority.value else "")
                        + ((if m.start.Some? then m.start.value else "") + m.text)
  {
    var start := StartOf(m.start);
    var priority := PriorityOf(m.priority);
    if m.start.Some? {
      assert m.start.value == start.value + " ";
    }
    if m.priority.Some? {
      assert m.priority.value == "(" + priority.value + ") ";
    }
  }

  /** Reading a line and rendering the item back gives the line with its outer whitespace
      stripped; an empty line, and only an empty line, gives no item. */
  lemma ParseLineRoundTrip(i: nat, line: string)
    requires NoLineBreak(line)
    ensures ParseLine(i, line) == Ok(None) <==> line == []
    ensures ParseLine(i, line).Ok? && ParseLine(i, line).value.Some? ==>
      var it := ParseLine(i, line).value.value;
      it.line == i && ValidItem(it) && Render(it) == Strip(line)
      && (it.Complete? <==> MatchComplete(line).Some?)
  {
    if line != [] {
      assert TextCanStart(line, 0) by { assert !IsLineBreak(line[0]); }
    }
    match MatchComplete(line)
    case Some(m) =>
      if FileComplete(i, m).Ok? {
        WrittenFromComplete(i, m);
        CompleteLineShape(line);
      }
    case None =>
      if line != [] {
        var m := MatchIncomplete(line).value;
        if FileIncomplete(i, m).Ok? {
          WrittenFromIncomplete(i, m);
          IncompleteLineShape(line);
        }
      }
  }

  // ---------------------------------------------------------------------------------------
  // From an item to text and back to an item.

  /** A date that strptime accepts. */
  predicate IsGoodDate(d: string) {
    IsDateShaped(d) && IsCalendarDate(TokenDate(d))
  }

  /** Text that, right after the optional groups, would itself be read as a start group. */
  predicate StartsLikeDateGroup(t: string) {
    DateGroupAt(t, 0) && TextCanStart(t, 11)
  }

  /** Text that, at the start of a line, would be read as a priority group. */
  predicate StartsLikePriority(t: string) {
    PriorityGroupAtStart(t) && TextCanStart(t, 4)
  }

  /** An item whose written form the parser reads back as the same item: its fields have the
      shapes the parser produces, its text is one non-empty line, and where a group is absent
      the text does not begin with something that would be read as that group. */
  predicate ReadsBack(it: Item) {
    var t := it.origText;
    t != [] && NoLineBreak(t)
    && (it.start.Some? ==> IsGoodDate(it.start.value))
    && (it.start.None? ==> !StartsLikeDateGroup(t))
    && match it
       case InProgress(_, _, start, priority) =>
         (priority.Some? ==> IsLetterPriority(priority))
         && (priority.None? && start.None? ==> !StartsLikePriority(t) && MatchComplete(t).None?)
       case Complete(_, _, _, end) => IsGoodDate(end)
  }

  /** The start group and the text, when the group is written out or the text cannot be taken
      for one. */
  lemma MatchWrittenStartAndText(line: string, k: nat, d: Option<string>, t: string)
    requires k <= |line| && line[k..] == (if d.Some? then d.value + " " else "") + t
    requires d.Some? ==> IsDateShaped(d.value)
    requires t != [] && NoLineBreak(t)
    requires d.None? ==> !StartsLikeDateGroup(t)
    ensures MatchStartAndText(line, k) == Some((if d.Some? then Some(d.value + " ") else None, t))
  {
    assert t[0] != '\n' by { assert !IsLineBreak(t[0]); }
    if d.Some? {
      assert line[k..k + 11] == d.value + " ";
      assert line[k + 11..] == t;
      assert DateGroupAt(line, k) by {
        assert line[k..k + 11][..10] == d.value;
      }
      DotEndOfSuffix(line, k + 11);
      assert line[k + 11] == t[0];
      assert line[k + 11..DotEnd(line, k + 11)] == t;
    } else {
      assert line[k..] == t;
      DotEndOfSuffix(line, k);
      assert line[k] == t[0];
      assert line[k..DotEnd(line, k)] == t;
      if DateGroupAt(line, k) {
        assert line[k..k + 11] == t[..11];
        assert DateGroupAt(t, 0);
      }
    }
  }

  /** A line that does not start with 'x' is not a complete line. */
  lemma NotCompleteLine(line: string)
    requires line != [] && line[0] != 'x'
    ensures MatchComplete(line).None?
  {
    if |line| >= 2 {
      assert line[..2][0] == line[0];
    }
  }

  /** A line whose first character is neither '(' nor a digit starts with no group. */
  lemma NoGroupAtStart(line: string)
    requires line != [] && line[0] != '(' && !IsDigit(line[0])
    ensures !PriorityGroupAtStart(line) && !DateGroupAt(line, 0)
  {
    if |line| >= 4 {
      assert line[..4][0] == line[0];
    }
    if |line| >= 11 {
      assert line[0..11][..10][0] == line[0];
    }
  }

  /** The complete pattern on "x END " followed by an optional "START " and the text. */
  lemma MatchCompleteParts(e: string, d: Option<string>, t: string)
    requires IsDateShaped(e) && (d.Some? ==> IsDateShaped(d.value))
    requires t != [] && NoLineBreak(t) && (d.None? ==> !StartsLikeDateGroup(t))
    ensures MatchComplete("x " + e + " " + ((if d.Some? then d.value + " " else "") + t))
         == Some(CompleteMatch(e + " ", if d.Some? then Some(d.value + " ") else None, t))
  {
    var rest := (if d.Some? then d.value + " " else "") + t;
    var line := "x " + e + " " + rest;
    assert line[..2] == "x ";
    assert line[2..13] == e + " ";
    assert DateGroupAt(line, 2) by {
      assert line[2..13][..10] == e;
    }
    assert line[13..] == rest;
    MatchWrittenStartAndText(line, 13, d, t);
  }

  /** The two patterns on an optional priority group, an optional "START " and the text, when
      the text cannot be taken for a group that is absent. */
  lemma MatchIncompleteParts(p: Option<string>, d: Option<string>, t: string)
    requires p.Some? ==> IsPriorityGroup(p.value)
    requires d.Some? ==> IsDateShaped(d.value)
    requires t != [] && NoLineBreak(t) && (d.None? ==> !StartsLikeDateGroup(t))
    requires p.None? && d.None? ==> !StartsLikePriority(t) && MatchComplete(t).None?
    ensures var line := (if p.Some? then p.value else "") + ((if d.Some? then d.value + " " else "") + t);
      MatchComplete(line).None?
      && MatchIncomplete(line) == Some(IncompleteMatch(p, if d.Some? then Some(d.value + " ") else None, t))
  {
    var mid := if d.Some? then d.value + " " else "";
    var line := (if p.Some? then p.value else "") + (mid + t);
    if p.Some? {
      MatchWrittenWithPriority(line, p.value, d, t);
    } else {
      assert line == mid + t;
      MatchWrittenStartAndText(line, 0, d, t);
      if d.Some? {
        assert line[0] == d.value[0];
        NotCompleteLine(line);
        if |line| >= 4 {
          assert line[..4][0] == line[0];
        }
      }
    }
  }

  lemma MatchWrittenWithPriority(line: string, pre: string, d: Option<string>, t: string)
    requires IsPriorityGroup(pre)
    requires line == pre + ((if d.Some? then d.value + " " else "") + t)
    requires d.Some? ==> IsDateShaped(d.value)
    requires t != [] && NoLineBreak(t)
    requires d.None? ==> !StartsLikeDateGroup(t)
    ensures MatchComplete(line).None?
    ensures MatchIncomplete(line) == Some(IncompleteMatch(Some(pre), if d.Some? then Some(d.value + " ") else None, t))
  {
    assert line[4..] == (if d.Some? then d.value + " " else "") + t;
    MatchWrittenStartAndText(line, 4, d, t);
    assert line[..4] == pre;
    assert line[0] == pre[0];
    NotCompleteLine(line);
  }

  /** Parsing the written form of an item gives the item back, on whatever line it is read. */
  lemma ParseWritten(i: nat, it: Item)
    requires ReadsBack(it)
    ensures ParseLine(i, Written(it)) == Ok(Some(WithLine(it, i)))
  {
    if it.Complete? {
      ParseWrittenComplete(i, it);
    } else {
      ParseWrittenInProgress(i, it);
    }
  }

  /** A complete match whose dates are good files the complete item of those fields. */
  lemma FileGoodComplete(i: nat, e: string, d: Option<string>, t: string)
    requires IsGoodDate(e) && (d.Some? ==> IsGoodDate(d.value))
    ensures FileComplete(i, CompleteMatch(e + " ", if d.Some? then Some(d.value + " ") else None, t))
         == Ok(Some(Complete(i, t, d, e)))
  {
    var g := e + " ";
    assert g[..10] == e;
    StripDateGroup(g);
    StrptimeOnDateToken(e);
    if d.Some? {
      var h := d.value + " ";
      assert h[..10] == d.value;
      StripDateGroup(h);
      StrptimeOnDateToken(d.value);
    }
  }

  /** An incomplete match whose groups are a letter priority and a good date files the
      in-progress item of those fields. */
  lemma FileGoodIncomplete(i: nat, p: Option<string>, d: Option<string>, t: string)
    requires p.Some? ==> IsLetterPriority(p)
    requires d.Some? ==> IsGoodDate(d.value)
    ensures FileIncomplete(i, IncompleteMatch(if p.Some? then Some("(" + p.value + ") ") else None,
                                              if d.Some? then Some(d.value + " ") else None, t))
         == Ok(Some(InProgress(i, t, d, p)))
  {
    if d.Some? {
      var h := d.value + " ";
      assert h[..10] == d.value;
      StripDateGroup(h);
      StrptimeOnDateToken(d.value);
    }
    if p.Some? {
      var g := "(" + p.value + ") ";
      StripPriorityGroup(g);
      assert [g[1]] == p.value;
    }
  }

  lemma ParseWrittenComplete(i: nat, it: Item)
    requires it.Complete? && ReadsBack(it)
    ensures ParseLine(i, Written(it)) == Ok(Some(WithLine(it, i)))
  {
    var d, t := it.start, it.origText;
    var line := "x " + it.end + " " + ((if d.Some? then d.value + " " else "") + t);
    assert Written(it) == line;
    MatchCompleteParts(it.end, d, t);
    FileGoodComplete(i, it.end, d, t);
  }

  lemma ParseWrittenInProgress(i: nat, it: Item)
    requires it.InProgress? && ReadsBack(it)
    ensures ParseLine(i, Written(it)) == Ok(Some(WithLine(it, i)))
  {
    var d, t := it.start, it.origText;
    var p := if it.priority.Some? then Some("(" + it.priority.value + ") ") else None;
    var line := (if p.Some? then p.value else "") + ((if d.Some? then d.value + " " else "") + t);
    assert Written(it) == line;
    MatchIncompleteParts(p, d, t);
    FileGoodIncomplete(i, it.priority, d, t);
  }

  /** So serialising an item whose text has no outer whitespace and parsing the result gives
      the item back: __str__ and the parser are inverse on such items. */
  lemma ParseRendered(i: nat, it: Item)
    requires ReadsBack(it)
    requires !IsSpace(it.origText[0]) && !IsSpace(it.origText[|it.origText| - 1])
    ensures ParseLine(i, Render(it)) == Ok(Some(WithLine(it, i)))
  {
    var w := Written(it);
    var t := it.origText;
    assert w[|w| - 1] == t[|t| - 1] by {
      assert w == w[..|w| - |t|] + t;
    }
    if it.Complete? {
      assert w[0] == 'x';
    } else if it.priority.Some? {
      assert w[0] == '(';
    } else if it.start.Some? {
      assert w[0] == it.start.value[0];
    } else {
      assert w == t;
    }
    StripCharsKeepsClean(w, Whitespace);
    ParseWritten(i, it);
  }

  // ---------------------------------------------------------------------------------------
  // Lines worth spelling out.

  /** "(A) " alone: the text group needs a character, so the priority group gives way and the
      whole line becomes the text. */
  lemma LonePriorityIsText()
    ensures ParseLine(3, "(A) ") == Ok(Some(InProgress(3, "(A) ", None, None)))
  {
    var line := "(A) ";
    DotEndOfSuffix(line, 0);
    assert line[0..4] == line;
  }

  /** A complete line whose end date is not a calendar date is refused with that date. */
  lemma BadEndDate(i: nat, e: string, t: string)
    requires IsDateShaped(e) && !IsCalendarDate(TokenDate(e))
    requires t != [] && NoLineBreak(t) && !StartsLikeDateGroup(t)
    ensures ParseLine(i, "x " + e + " " + t) == Err(BadDate(e))
  {
    MatchCompleteParts(e, None, t);
    assert "" + t == t;
    var m := CompleteMatch(e + " ", None, t);
    FileCompleteDateErrors(i, m);
    assert m.end[..10] == e;
    assert CompleteDates(m) == [e];
  }

  /** Month 13 in an end date is refused. */
  lemma BadEndMonth()
    ensures ParseLine(0, "x 2023-13-01 done") == Err(BadDate("2023-13-01"))
  {
    assert "x 2023-13-01 done" == "x " + "2023-13-01" + " " + "done";
    BadEndDate(0, "2023-13-01", "done");
  }

  /** An in-progress line whose start date is not a calendar date is refused with that date. */
  lemma BadStartDate(i: nat, d: string, t: string)
    requires IsDateShaped(d) && !IsCalendarDate(TokenDate(d))
    requires t != [] && NoLineBreak(t)
    ensures ParseLine(i, d + " " + t) == Err(BadDate(d))
  {
    MatchIncompleteParts(None, Some(d), t);
    assert d + " " + t == "" + ((d + " ") + t);
    var m := IncompleteMatch(None, Some(d + " "), t);
    FileIncompleteDateErrors(i, m);
    assert m.start.value[..10] == d;
    assert IncompleteDates(m) == [d];
  }

  /** 30 February in a start date is refused. */
  lemma BadStartDay()
    ensures ParseLine(0, "2023-02-30 call") == Err(BadDate("2023-02-30"))
  {
    assert "2023-02-30 call" == "2023-02-30" + " " + "call";
    BadStartDate(0, "2023-02-30", "call");
  }

  /** A complete line whose start date is not a calendar date is refused with that date,
      whatever its end date: the start date is checked first. */
  lemma BadCompleteStartDate(i: nat, e: string, d: string, t: string)
    requires IsDateShaped(e) && IsDateShaped(d) && !IsCalendarDate(TokenDate(d))
    requires t != [] && NoLineBreak(t)
    ensures ParseLine(i, "x " + e + " " + ((d + " ") + t)) == Err(BadDate(d))
  {
    MatchCompleteParts(e, Some(d), t);
    var m := CompleteMatch(e + " ", Some(d + " "), t);
    FileCompleteDateErrors(i, m);
    assert m.end[..10] == e && m.start.value[..10] == d;
    assert CompleteDates(m) == [d, e];
  }

  /** Year 0000 is refused, here as the start date of a complete item. */
  lemma BadYearZero()
    ensures ParseLine(0, "x 2012-01-01 0000-01-01 done") == Err(BadDate("0000-01-01"))
  {
    YearZeroLine();
    BadCompleteStartDate(0, "2012-01-01", "0000-01-01", "done");
  }

  lemma YearZeroLine()
    ensures "x 2012-01-01 0000-01-01 done" == "x " + "2012-01-01" + " " + (("0000-01-01" + " ") + "done")
  {
  }

  /** " x 2023-13-01 done" does not start with "x ", so it is read as an in-progress item whose
      text is the whole line. */
  lemma LeadingSpaceLine()
    ensures ParseLine(0, " x 2023-13-01 done") == Ok(Some(InProgress(0, " x 2023-13-01 done", None, None)))
  {
    var line := " x 2023-13-01 done";
    NotCompleteLine(line);
    NoGroupAtStart(line);
    MatchIncompleteParts(None, None, line);
    assert "" + ("" + line) == line;
  }

  /** Stripping a line that is one space followed by clean text gives the text. */
  lemma StripOneLeadingSpace(c: char, r: string)
    requires IsSpace(c) && r != [] && !IsSpace(r[0]) && !IsSpace(r[|r| - 1])
    ensures Strip([c] + r) == r
  {
    assert ([c] + r)[1..] == r;
    assert LStrip([c] + r, Whitespace) == LStrip(r, Whitespace);
    StripCharsKeepsClean(r, Whitespace);
  }

  /** __str__ strips the leading space of that line's item. */
  lemma LeadingSpaceRender()
    ensures Render(InProgress(0, " x 2023-13-01 done", None, None)) == "x 2023-13-01 done"
  {
    var bad := "x 2023-13-01 done";
    LeadingSpaceWritten();
    StripOneLeadingSpace(' ', bad);
  }

  lemma LeadingSpaceWritten()
    ensures Written(InProgress(0, " x 2023-13-01 done", None, None)) == [' '] + "x 2023-13-01 done"
  {
    var it := InProgress(0, " x 2023-13-01 done", None, None);
    assert !Truthy(it.start) && !Truthy(it.priority);
    assert Written(it) == "" + ("" + it.origText);
  }

  /** Reading is not stable under writing: a line with a leading space hides a bad date from
      the complete pattern, and once __str__ strips that space the same text is refused. */
  lemma ReparseCanFail()
    ensures var line := " x 2023-13-01 done";
      ParseLine(0, line) == Ok(Some(InProgress(0, line, None, None)))
      && Render(InProgress(0, line, None, None)) == "x 2023-13-01 done"
      && ParseLine(0, "x 2023-13-01 done") == Err(BadDate("2023-13-01"))
  {
    LeadingSpaceLine();
    LeadingSpaceRender();
    BadEndMonth();
  }
}
