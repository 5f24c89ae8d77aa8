# todo.txt parser and document, in Dafny

This project models `todo_parser.py` without its command-line block. That file reads and writes files in the todo.txt task-list format. The model covers three parts of it:

- **Line classification.** `TodoFile.complete_re` is tried first on each line, then `TodoFile.incomplete_re`. Both are written out by hand as functions over strings. Their optional groups back off when the text part would otherwise be empty, as the regex engine's backtracking does.
- **Work items.** `WorkItem`, `InProgressItem` and `CompleteItem` become one datatype, `Items.Item`, with two variants. The values `WorkItem.__init__` derives from the text are functions of the stored fields. The tags come from `[@+]\S*\w` found by `re.findall`. The description is `re.sub` of that pattern with `""`, then stripped. The start and end dates are parsed by `strptime`. Also modelled: `__str__`, `priority_sort` and `days_taken`.
- **The document.** `TodoFile` holds two maps from line index to item and the counter `_next_line`. Every operation is first a function on the state value `Document.Doc`, and its properties are proved as lemmas there. The class `TodoFiles.TodoFile` has the three fields and one method per operation. Each method's `ensures` ties the new state to that function.

Modules:

| Module | What it holds |
|---|---|
| `Wrappers` | `Option`, `Result` and `Outcome` |
| `PyStr` | The Python 2 `str` behaviour the code relies on: whitespace and `\w` character classes, `strip`, `startswith`, `join`, `splitlines`, string ordering and `sorted` on a set of strings |
| `Dates` | `datetime.datetime.strptime(s, "%Y-%m-%d").date()` as Python 2.7 performs it, calendar validity, and day numbers for date subtraction |
| `Tags` | The left-to-right scan for `[@+]\S*\w` |
| `Items` | The item datatype and the record properties |
| `LineParser` | The two line patterns, the per-line step of `TodoFile.__init__`, and the line round trip |
| `Document` | The document state and every `TodoFile` operation on it |
| `TodoFiles` | The class |

Modelling decisions:

- **Strings.** Python 2 `str` values are `seq<char>`.
  - The whitespace set is `" \t\n\r\x0b\x0c"`.
  - `\w` is `[A-Za-z0-9_]`.
  - `.` excludes only `'\n'`.
  - `splitlines` breaks at `\n`, `\r` and `\r\n`, as it does on a Python 2 byte string.
- **Exceptions are values.** Every exception the code can raise on its inputs is a `Result`/`Outcome` error (`Items.Error`):
  - a `ValueError` from `strptime` is `BadDate`;
  - the `AttributeError` when `edit_item` finds no item is `NoItemAt`;
  - the `TypeError` from `reduce` on a file without items is `NoItems`;
  - the `RuntimeError` when a dict changes size during iteration is `DictChangedSize`.

  `TodoFile(filedata)` is the static method `FromText`. It returns `Err` where the constructor raises: at the first line whose date does not parse.
- **Undefined names.** The source calls two names that do not exist:
  - `add_to_file` calls `addExistingItem` (todo_parser.py:187, 242), so `move_item` and `archive_item` raise `AttributeError` as written.
  - `complete_item` reads `prev_item.origText` (todo_parser.py:370).

  The model takes the evident intent instead: it calls `add_existing_item` and reads `orig_text`.
- **Items are values.** `change_line` is `Items.WithLine`, which returns the item with a new line number. `remove_line` does not call `change_line`, so a shifted item keeps its old line number, here as in the code.
- **`remove_line` and `_next_line`.** `remove_line` (todo_parser.py:408-420) does not decrement `_next_line`, and the model follows the code. So does the lemma `RemoveLineLines`: after a removal the file ends in one more empty line.
- **Other behaviours of the code that the model keeps as written:**
  - `add_item` returns nothing.
  - A bad date raises `strptime`'s error without the line number.
  - `edit_item` keeps a complete entry at the edited line, so one index can be in both maps. `EditCompleteItemSharesLine` shows this.
- **Iteration order.** `archive_all_items` iterates over the complete dict, but the model does not fix Python's dict iteration order. It is a parameter, `order`, of `ArchiveAllItems`, and the contract holds for every order.
- **Archiving into the same file.** The first archive can insert a new key into the very dict being iterated. The next step of the iteration then raises, and `ArchiveAllWithin` models this. Later archives only reach new dicts, because `remove_line` rebinds both fields.

## Model

| member | source | states |
|---|---|---|
| PyStr.StripCharsIsSlice | todo_parser.py:100 | `strip` returns a contiguous middle slice of its input: every character cut off either end is one of the stripped characters, and the result neither starts nor ends with one |
| PyStr.StripCharsIdempotent | todo_parser.py:182 | stripping a stripped string changes nothing |
| PyStr.SplitLines | todo_parser.py:271 | no line that `splitlines` returns contains a line break |
| PyStr.SplitJoinLines | todo_parser.py:271 | `splitlines` undoes writing the lines each followed by `"\n"`, for lines without breaks |
| PyStr.JoinLinesSnoc | todo_parser.py:466 | appending a line to the written file adds that line and `"\n"` at its end |
| PyStr.SortedStrings | todo_parser.py:449 | `sorted(set)` lists exactly the set's elements, in strictly increasing string order |
| PyStr.StrLessTotal | todo_parser.py:449 | Python's string order compares any two distinct strings |
| PyStr.StrLessTransitive | todo_parser.py:449 | Python's string order is transitive |
| Dates.Strptime | todo_parser.py:103 | whatever `strptime` accepts is a real calendar date: month 1-12, day within the month including 29 February of leap years, year at least 1 |
| Dates.StrptimeOnDateToken | todo_parser.py:262-263 | on a `[0-9]{4}-[0-9]{2}-[0-9]{2}` token `strptime` succeeds exactly when the digits spell a calendar date, and then returns that date; month 13, 30 February and year 0000 raise |
| Dates.DaysInYear | todo_parser.py:255 | the day numbers of consecutive 1 Januaries differ by 366 in a leap year and 365 otherwise |
| Dates.OrdinalNextDay | todo_parser.py:255 | the next calendar day has the next day number |
| Dates.OrdinalAddDays | todo_parser.py:255 | the day numbers of a date and of the date n days later differ by exactly n, so date subtraction counts days |
| Tags.MatchAtIsLongest | todo_parser.py:85 | the match of `[@+]\S*\w` at a position is a span that fits the pattern, no longer span fits, and where there is no match no span fits |
| Tags.SpansIsLeftmostScan | todo_parser.py:85 | the scan takes, from each position on, the first position where the pattern matches, and goes on from that match's end |
| Tags.LeftmostScanUnique | todo_parser.py:101 | there is only one list of spans that fits the leftmost non-overlapping scan |
| Tags.LeftmostScanMatches | todo_parser.py:101 | every span the scan finds is a match of the pattern |
| Tags.LeftmostScanOrdered | todo_parser.py:101 | the spans are in increasing order and do not overlap |
| Tags.TagSpans | todo_parser.py:100-101 | the match spans of an item's text: the leftmost scan, non-overlapping, each a match |
| Tags.GapsAndSlicesRebuild | todo_parser.py:100 | the gaps between the spans and the spans' texts, interleaved, give back the text |
| Tags.MatchIsCleanTag | todo_parser.py:101 | a match starts with `@` or `+`, ends with a word character, holds no whitespace, and `strip` leaves it unchanged |
| Tags.TagsAreMatches | todo_parser.py:101 | `projects_contexts` has one tag per match span, each the span's text, starting with `@` or `+`, ending in a word character, without whitespace |
| Tags.ProjectsContextsAreSlices | todo_parser.py:101 | `map(str.strip, findall(...))` is exactly the matched slices |
| Tags.TextIsGapsAndTags | todo_parser.py:100-101 | the text is its description's pieces with the tags put back between them, and `text` is those pieces joined and stripped: exactly the spans are removed, and internal spaces stay |
| Items.NewInProgress | todo_parser.py:163-173 | constructing an in-progress item fails exactly when a truthy start date does not parse, with that date; otherwise it keeps line, text, priority and start as given |
| Items.NewComplete | todo_parser.py:216-230 | constructing a complete item checks the start date first and then a truthy end date; it fails with the first that does not parse, and otherwise keeps its arguments |
| Items.WithLine | todo_parser.py:107-110 | `change_line` changes the line number only: kind, text and start stay, and so do the rendered text and the item's validity |
| Items.Render | todo_parser.py:175-182 | an item's written form has no whitespace at either end |
| Items.WithPrefix | todo_parser.py:152 | `ifilter(startswith(c), xs)` keeps exactly the elements of xs that start with c |
| Items.WithPrefixAppend | todo_parser.py:152 | the filter keeps order: filtering two lists one after the other gives the two filtered lists one after the other |
| Items.WithPrefixCounts | todo_parser.py:152 | the filter keeps multiplicity: a string that starts with c occurs in the result as often as in xs, any other not at all |
| Items.ProjectsAndContextsSplitTags | todo_parser.py:148-158 | with the filters as intended, the projects are the tags starting with `+`, the contexts those starting with `@`, and every tag is exactly one of the two |
| Items.ProjectsContextsSwapped | todo_parser.py:148-158 | the `projects` property as written returns the intended contexts, and `contexts` the intended projects |
| Items.ProjectsAsWrittenExample | todo_parser.py:148-158 | for the text `a +b @c`, the tags are `+b`, `@c`; as written `projects` is `["@c"]` and `contexts` is `["+b"]`; as intended they are the other way round |
| Items.ExampleSpans | todo_parser.py:85 | the scan of `a +b @c` finds the spans (2, 4) and (5, 7) |
| Items.PrioritySortOrder | todo_parser.py:196-202 | an item with a letter priority sorts before one without, and two lettered items sort by their letters |
| Items.StartDate | todo_parser.py:102-105 | `_startDate` exists exactly when the start text is truthy, and is then the calendar date `strptime` reads from it |
| Items.EndDate | todo_parser.py:227-230 | `_endDate` exists exactly when the end text is non-empty, and is then the calendar date `strptime` reads from it |
| Items.DaysTaken | todo_parser.py:250-257 | `days_taken` is a number exactly when both a start and an end date are present |
| Items.DaysTakenCountsDays | todo_parser.py:255 | when the end date is n calendar days after the start date, `days_taken` is n |
| Items.DaysTakenExample | todo_parser.py:250-257 | started 2012-01-31 and finished 2012-03-01 in a leap year: 30 days |
| LineParser.MatchStartAndText | todo_parser.py:262 | the optional start-date group followed by `(?P<text>.+)` at a position: it fails exactly when no text can start there; the date group is taken only when text can follow it; the text runs to the first `'\n'` |
| LineParser.MatchComplete | todo_parser.py:263 | `complete_re.match` succeeds exactly on lines starting with `x `, an end-date group and some text, and returns those groups |
| LineParser.MatchIncomplete | todo_parser.py:262 | `incomplete_re.match` fails only on a line where no text can start; the priority group is taken only when text can follow it; the rest is the start group and the text |
| LineParser.ParseLine | todo_parser.py:277-302 | a line yields an item at its own index whose dates parse, complete exactly when the complete pattern matches |
| LineParser.StripDateGroup | todo_parser.py:283-287 | stripping a matched date group drops its trailing space |
| LineParser.StripPriorityGroup | todo_parser.py:294-296 | `strip('() ')` of a matched `(X) ` group is the letter X |
| LineParser.ParseLineDateErrors | todo_parser.py:280-300 | a line raises exactly when one of its captured date tokens is not a calendar date, and the error names the first such token in the order the constructors parse them |
| LineParser.FileCompleteDateErrors | todo_parser.py:280-290 | a complete line raises for a bad start date first, then for a bad end date, and is filed otherwise |
| LineParser.FileIncompleteDateErrors | todo_parser.py:292-302 | an in-progress line raises exactly for a bad start date, and is filed otherwise |
| LineParser.CompleteLineShape | todo_parser.py:263 | a line the complete pattern matches is `x `, the end group, the start group if any, and the text, in that order |
| LineParser.IncompleteLineShape | todo_parser.py:262 | a line the in-progress pattern matches is the priority group if any, the start group if any, and the text, in that order |
| LineParser.WrittenFromComplete | todo_parser.py:232-237 | the item filed from a complete match writes back as `x ` + end + ` ` + start + ` ` + text, that is the matched line |
| LineParser.WrittenFromIncomplete | todo_parser.py:175-182 | the item filed from an in-progress match writes back as `(P) ` + start + ` ` + text, that is the matched line |
| LineParser.ParseLineRoundTrip | todo_parser.py:262-302 | an empty line yields no item and every other line yields one, unless it raises; that item's `str` is the line stripped at both ends |
| LineParser.MatchCompleteParts | todo_parser.py:263 | a line built as `x ` + end + ` ` + optional start + text is matched with exactly those groups |
| LineParser.MatchIncompleteParts | todo_parser.py:262 | a line built from an optional priority group, an optional start and a text that cannot be mistaken for either is not complete and is matched with exactly those groups |
| LineParser.ParseWritten | todo_parser.py:262-302 | reading the written form of a well-formed item gives that item back at the reading line |
| LineParser.ParseRendered | todo_parser.py:262-302 | reading `str(item)` of a well-formed item whose text has no outer whitespace gives that item back |
| LineParser.LonePriorityIsText | todo_parser.py:262 | the line `(A) ` alone is an in-progress item with text `(A) ` and no priority |
| LineParser.BadEndDate | todo_parser.py:227-228 | a complete line whose end token is not a calendar date raises with that token |
| LineParser.BadEndMonth | todo_parser.py:227-228 | `x 2023-13-01 done` raises for month 13 |
| LineParser.BadStartDate | todo_parser.py:102-103 | an in-progress line whose start token is not a calendar date raises with that token |
| LineParser.BadStartDay | todo_parser.py:102-103 | `2023-02-30 call` raises for 30 February |
| LineParser.BadCompleteStartDate | todo_parser.py:102-103 | a complete line whose start token is not a calendar date raises with the start token, whatever the end token |
| LineParser.BadYearZero | todo_parser.py:102-103 | `x 2012-01-01 0000-01-01 done` raises for year 0000 |
| LineParser.LeadingSpaceLine | todo_parser.py:280-302 | ` x 2023-13-01 done` does not match the complete pattern and is an in-progress item with the whole line as text |
| LineParser.LeadingSpaceRender | todo_parser.py:175-182 | that item's `str` strips the leading space: `x 2023-13-01 done` |
| LineParser.ReparseCanFail | todo_parser.py:262-302 | reading is not stable under writing: a line that reads, written back and read again, can raise |
| Document.ItemAtFindsEither | todo_parser.py:422-430 | `get_item` finds an item exactly at the lines either map holds; when each line is in one map only, the item's kind tells which |
| Document.Lines | todo_parser.py:455-468 | `__str__` writes `_next_line` lines: line i is the text of the item at i, the in-progress one first, or nothing |
| Document.Collect | todo_parser.py:271-275 | the file built from the lines has `_next_line` equal to the number of lines, blank or unmatched lines included |
| Document.CollectItems | todo_parser.py:277-302 | the loop succeeds exactly when every line result does; then every line holds what its line result says, every key is below the number of lines read, no line is in both maps, and each map holds its own kind |
| Document.CollectError | todo_parser.py:277-302 | when the loop fails, the error is that of the first failing line |
| Document.ParseErrors | todo_parser.py:271-302 | `TodoFile(data)` raises exactly when some line raises, with the first such line's error |
| Document.ParseShape | todo_parser.py:271-302 | after construction `_next_line` is the number of lines, no index is in both maps, every key is below `_next_line`, and each line holds what its line parses to |
| Document.ParseTriesCompleteFirst | todo_parser.py:280-302 | line i holds a complete item exactly when the complete pattern matches line i |
| Document.LineWrittenBack | todo_parser.py:455-468 | a line's text in the written file is the original line stripped |
| Document.ParseRenderRoundTrip | todo_parser.py:455-468 | `str(TodoFile(data))` is every line of data, stripped, each followed by `"\n"` |
| Document.AppendedLines | todo_parser.py:455-468 | a file that agrees on every old line and has one line more writes the old lines plus the new one |
| Document.ReplacedLine | todo_parser.py:455-468 | a file that differs at one line only writes the same lines with that one replaced |
| Document.FullTextExamples | todo_parser.py:339 | `full_text` joins text, projects and contexts with single spaces, so an empty list leaves a double space: `call  ` and `call +mom ` |
| Document.LayoutSpans | todo_parser.py:339 | on text laid out as `full_text` lays it out, with no tag start in the text part, the tag scan finds the places of the `+` tags and then of the `@` tags, and nothing else |
| Document.FullTextTags | todo_parser.py:330-339 | when the text holds no `@` or `+` and each project and context is a word, the tags of `full_text` are the projects with `+` and then the contexts with `@`, in the order given, so the item carries exactly what it was given |
| Document.AddItemTags | todo_parser.py:330-342 | the item `add_item` creates has the given projects as its `+` tags and the given contexts as its `@` tags; as written, `projects` returns the contexts and `contexts` the projects |
| Document.AddItemAppends | todo_parser.py:329-342 | `add_item` fails only on a bad start date; otherwise the new in-progress item is at the old `_next_line`, `_next_line` grows by one, every other line and the complete map are untouched, the file gains the item's line at its end, and validity and disjointness are kept |
| Document.AddExistingAppends | todo_parser.py:314-327 | `add_existing_item` puts the item, renumbered, at the old `_next_line`, grows `_next_line` by one, leaves every other line alone and appends the item's text to the file |
| Document.AddExistingValid | todo_parser.py:314-327 | adding keeps every key below `_next_line`, keeps disjointness, and keeps validity when the flag matches the item's kind |
| Document.EditItemReplaces | todo_parser.py:344-357 | `edit_item` fails exactly on a line without an item; otherwise the in-progress map holds the new item, with the old item's start date, at that line; the complete map and `_next_line` are untouched, and the file's text changes at that line only |
| Document.EditCompleteItemSharesLine | todo_parser.py:355-357 | editing a complete item's line leaves the complete entry in place, so that line is in both maps |
| Document.CompleteItemMoves | todo_parser.py:359-373 | `complete_item` is a no-op off the in-progress map and fails only on a bad `when`; otherwise the item leaves the in-progress map and a complete item with the same text and start date and end `when` takes its line; nothing else changes |
| Document.CompleteItemValid | todo_parser.py:359-373 | completing keeps validity and disjointness |
| Document.ShiftAt | todo_parser.py:411-417 | the rebuilt map holds k exactly when the old map held k (below the removed line) or k + 1 (above it), with that entry |
| Document.ShiftFrom | todo_parser.py:411-417 | every entry of the rebuilt map comes from the old map, at the same or the next key |
| Document.RemoveLineShifts | todo_parser.py:408-420 | after `remove_line`, every index below the line holds what it held, every index from the line on holds what the next index held, and `_next_line` is unchanged |
| Document.RemoveLineValid | todo_parser.py:408-420 | removing a line keeps validity and disjointness |
| Document.RemoveLineLines | todo_parser.py:408-420 | the file's text loses the removed line and gains an empty last line |
| Document.MoveDocsLines | todo_parser.py:375-388 | `move_item` to another file is a no-op on an empty line; otherwise it cuts the line from the source, as `remove_line` does, and appends the item, renumbered, to the destination |
| Document.MoveDocsValid | todo_parser.py:375-388 | moving keeps both files valid and disjoint |
| Document.MoveWithinLines | todo_parser.py:375-388 | moving within one file appends the item after the last line and then cuts its old line |
| Document.MoveWithinValid | todo_parser.py:375-388 | moving within one file keeps validity and disjointness |
| Document.RemoveLineSlots | todo_parser.py:408-420 | line by line, `remove_line` cuts the line out, closes up the later lines and leaves an empty line at the end |
| Document.AddExistingSlots | todo_parser.py:314-327 | line by line, `add_existing_item` appends the item, renumbered to its new line |
| Document.ArchiveDocsConserves | todo_parser.py:390-400 | `archive_item` loses no item and makes none up: with line numbers set aside, the items of both files together are the same before and after |
| Document.ArchiveDocsLines | todo_parser.py:390-400 | `archive_item` moves a complete item only; any other line is left alone |
| Document.ArchiveAllWithin | todo_parser.py:402-406 | archiving a file into itself fails only with the dict-changed-size error |
| Document.ArchiveAllDocsValid | todo_parser.py:402-406 | for any iteration order, `archive_all_items` keeps both files valid, leaves the source's `_next_line` alone, only appends to the destination, and loses no item: with line numbers set aside, what leaves the source is what the destination gains |
| Document.ArchiveAllLeavesItemBehind | todo_parser.py:405-406 | as written, two complete items at lines 0 and 1 iterated as 0, 1: the second is left behind; the source keeps one complete item, the destination receives one |
| Document.ArchiveAllWithinRaises | todo_parser.py:405-406 | archiving a file's complete item into the file itself raises once the first item is archived |
| Document.RemainingArchivedSplit | todo_parser.py:402-406 | every line goes either to what stays in the source or to what is archived: what stays holds no complete item, and only complete items are archived |
| Document.ArchiveUpEmpties | todo_parser.py:402-406 | visiting the lines in increasing order, staying at a line that was just archived, leaves no complete item among the visited lines |
| Document.ArchiveUpValid | todo_parser.py:402-406 | that visit keeps both files valid, keeps the source's length and only appends to the destination |
| Document.ArchiveUpMoves | todo_parser.py:402-406 | visiting a window of lines, the source keeps the window's empty lines and in-progress items in order, closed up, with an empty line at the end for each item that left; the destination gains the window's complete items in line order, each renumbered to its new line |
| Document.ArchiveAllFixedMoves | todo_parser.py:402-406 | the corrected archive of a whole file: the source keeps its empty lines and in-progress items in order, then empty lines; the destination's new lines are exactly the source's complete items, in line order, renumbered from its old `_next_line`, which grows by their number |
| Document.ArchiveAllFixedEmpties | todo_parser.py:402-406 | the corrected archive empties the complete map, keeps both files valid and leaves the destination's old lines alone |
| Document.AllTags | todo_parser.py:442-453 | `_get_projects_or_contexts(c)` raises exactly when the file holds no items; otherwise it lists the distinct tags of all items that start with c, in strictly increasing order |
| Document.AllProjectsOfItems | todo_parser.py:432-435 | `get_all_projects` lists exactly the intended projects of the items |
| Document.AllContextsOfItems | todo_parser.py:437-440 | `get_all_contexts` lists exactly the intended contexts of the items |
| Document.TagsByPrefix | todo_parser.py:442-453 | in every item, a project is a tag starting with `+` and a context a tag starting with `@` |
| TodoFiles.TodoFile.Blank | todo_parser.py:273-275 | the new file has two empty maps and `_next_line` set to the number of lines |
| TodoFiles.TodoFile.FromText | todo_parser.py:265-302 | the constructor yields a fresh file whose state is the parse of the data, or the parse's error |
| TodoFiles.TodoFile.FromResults | todo_parser.py:277-302 | the loop over the lines files each line result under its index, stopping at the first error |
| TodoFiles.TodoFile.AddExistingItem | todo_parser.py:314-327 | the new state is the old one with the item added at `_next_line` |
| TodoFiles.TodoFile.AddItem | todo_parser.py:329-342 | the new state is the old one with the new item added, or unchanged with the error |
| TodoFiles.TodoFile.EditItem | todo_parser.py:344-357 | the new state is the old one with the edit applied, or unchanged with the error |
| TodoFiles.TodoFile.CompleteItem | todo_parser.py:359-373 | the new state is the old one with the item completed, or unchanged with the error |
| TodoFiles.TodoFile.RemoveLine | todo_parser.py:408-420 | the new state is the old one with the line removed and the others renumbered |
| TodoFiles.TodoFile.MoveItem | todo_parser.py:375-388 | both files' new states are the move applied to their old states; the destination may be the file itself |
| TodoFiles.TodoFile.ArchiveItem | todo_parser.py:390-400 | both files' new states are `archive_item` applied to their old states |
| TodoFiles.TodoFile.ArchiveAllItems | todo_parser.py:402-406 | the loop archives the keys in the given order, each by its number at that moment; into another file it always completes, into the file itself it can raise after the first archive |
| TodoFiles.TodoFile.ArchiveAllInto | todo_parser.py:402-406 | the loop over the given order into another file leaves both files as `ArchiveAllDocs` says |
| TodoFiles.TodoFile.ArchiveSeqHere | todo_parser.py:402-406 | the loop over the given order into the file itself leaves it as the archives one after the other leave it |
| TodoFiles.TodoFile.ArchiveAllItemsInOrder | todo_parser.py:402-406 | the corrected loop, in increasing line order and staying at a line it has just archived, leaves both files in the state of the corrected archive |
| TodoFiles.TodoFile.ToString | todo_parser.py:455-468 | the method's loop accumulates exactly the written file: each line's text followed by `"\n"` |

## Left out

- The `__main__` block (todo_parser.py:470-486) reads files and prints. That is I/O, and it is not modelled.
- `days_since_start` (todo_parser.py:204-211) reads the clock by calling `date.today()`, so it is not modelled.
- `get_complete_items` and `get_incomplete_items` (todo_parser.py:304-312) sort by a key function the caller supplies. Python attribute getters over objects are not modelled.
- Python 2 iterator objects are not modelled: `itertools.ifilter`, `chain` and `reduce(operator.concat, ...)` are replaced by the sequences and sets they produce. The `TypeError` that `reduce` raises on a file without items is modelled, as `NoItems`.
- `str.splitlines` on a Unicode string also breaks at other characters, such as `\x1c`, `\x1d` and `\x1e`. Only the byte-string line breaks `\n`, `\r` and `\r\n` are modelled.
- move_item and archive_item: as written they fail with `AttributeError`, because `addExistingItem` is undefined. The model calls `add_existing_item`, which is the evident intent.
- Document.CompleteItemDoc: it reads `orig_text` where the code reads the undefined `origText`, so it models the evident intent rather than the `AttributeError`.
- TodoFiles.TodoFile.ArchiveAllItems: it takes the iteration order as a parameter, `order`. It does not model CPython's dict order and does not require `order` to be the complete map's keys; its contract holds for every order.
- TodoFiles.TodoFile.ArchiveAllItemsInOrder: the corrected archive requires the destination to be a different file, as the docstring of `archive_all_items` asks (todo_parser.py:403).
- Document.ArchiveAllFixedMoves: it is stated for a source whose lines are each in one map only. On a line in both maps, which `edit_item` can make, `get_item` gives the in-progress item and the complete one is dropped; the lemma says nothing about that case.
- Document.RemoveLineDoc: the rebuilt maps are computed only for keys below `_next_line`. RemoveLineShifts requires every key to be below `_next_line`, which construction and every operation keep (`KeysBelow`).
- Items.WithLine: an item is a value, so `change_line` changing an object that other references share is not modelled. Nothing in the file keeps a second reference to a moved item.
- TodoFiles.TodoFile.CompleteItem: `when` is a string. Passing `None`, which the code would store and render as `x None`, is not modelled.

## Findings

| source | as written | input that shows it | evidently intended | confidence | as-written member | corrected member |
|---|---|---|---|---|---|---|
| todo_parser.py:148-158 | `projects` keeps the tags starting with `@` and `contexts` those starting with `+` | the text `a +b @c`: `projects` is `["@c"]`, `contexts` is `["+b"]` | todo.txt projects start with `+` and contexts with `@`, as `get_all_projects` (todo_parser.py:435) assumes | high, not executed | Items.ProjectsAsWrittenExample | Items.ProjectsAndContextsSplitTags |
| todo_parser.py:402-406 | `archive_all_items` archives each key of the original complete map by its number, although each earlier archive has renumbered the lines after it | complete items at lines 0 and 1, iterated as 0, 1: after line 0 is archived the second item is at line 0, and line 1 is empty, so that item stays behind | every complete item goes to the destination and the complete map ends empty | high, not executed | Document.ArchiveAllLeavesItemBehind | Document.ArchiveAllFixedMoves |
