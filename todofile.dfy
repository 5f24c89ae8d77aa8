/**
 * The class TodoFile: its three fields, and methods that update them in place as the
 * functions of module Document say.
 */
module TodoFiles {
  import opened Wrappers
  import opened PyStr
  import opened Items
  import opened LineParser
  import opened Document

  class TodoFile {
    var incomplete: map<nat, Item>
    var complete: map<nat, Item>
    var nextLine: nat

    /** The fields as a value. */
    function State(): Doc
      reads this
    {
      Doc(incomplete, complete, nextLine)
    }

    /** The fields as __init__ sets them before its loop. */
    constructor Blank(size: nat)
      ensures State() == Doc(map[], map[], size)
    {
      incomplete, complete, nextLine := map[], map[], size;
    }

    /** TodoFile(filedata): each line is filed under its index, complete pattern first; the
        ValueError of a bad date is returned as Err. */
    static method FromText(data: string) returns (r: Result<TodoFile, Error>)
      ensures Parse(data).Err? <==> r.Err?
      ensures r.Err? ==> r.error == Parse(data).error
      ensures r.Ok? ==> fresh(r.value) && r.value.State() == Parse(data).value
    {
      var lines := SplitLines(data);
      r := FromResults(LineResults(lines), |lines|);
    }

    /** The loop of __init__, given what the two patterns make of each line: a file of size
        lines, each result filed under its index, stopping at the first exception. */
    static method FromResults(rs: seq<Result<Option<Item>, Error>>, size: nat)
      returns (r: Result<TodoFile, Error>)
      ensures Collect(rs, |rs|, size).Err? <==> r.Err?
      ensures r.Err? ==> r.error == Collect(rs, |rs|, size).error
      ensures r.Ok? ==> fresh(r.value) && r.value.State() == Collect(rs, |rs|, size).value
    {
      var f := new TodoFile.Blank(size);
      var i := 0;
      while i < |rs|
        invariant 0 <= i <= |rs|
        invariant fresh(f)
        invariant Collect(rs, i, size) == Ok(f.State())
      {
        CollectNext(rs, i, size);
        match rs[i] {
          case Err(e) =>
            CollectStaysErr(rs, i + 1, |rs|, size);
            return Err(e);
          case Ok(None) =>
          case Ok(Some(it)) =>
            if it.Complete? {
              f.complete := f.complete[i := it];
            } else {
              f.incomplete := f.incomplete[i := it];
            }
        }
        i := i + 1;
      }
      r := Ok(f);
    }

    /** add_existing_item. */
    method AddExistingItem(it: Item, isComplete: bool)
      modifies this
      ensures State() == AddExistingDoc(old(State()), it, isComplete)
    {
      var moved := WithLine(it, nextLine);
      if isComplete {
        complete := complete[nextLine := moved];
      } else {
        incomplete := incomplete[nextLine := moved];
      }
      nextLine := nextLine + 1;
    }

    /** add_item; a bad start date raises before anything changes. */
    method AddItem(text: string, priority: Option<string>, start: Option<string>,
                   projects: seq<string>, contexts: seq<string>) returns (r: Outcome<Error>)
      modifies this
      ensures match AddItemDoc(old(State()), text, priority, start, projects, contexts)
        case Ok(d) => r == Pass && State() == d
        case Err(e) => r == Fail(e) && State() == old(State())
    {
      match NewInProgress(nextLine, FullText(text, projects, contexts), priority, start)
      case Err(e) =>
        return Fail(e);
      case Ok(it) =>
        incomplete := incomplete[nextLine := it];
        nextLine := nextLine + 1;
        return Pass;
    }

    /** edit_item; a line without an item, or a bad start date on it, raises before anything
        changes. */
    method EditItem(line: nat, text: string, priority: Option<string>,
                    projects: seq<string>, contexts: seq<string>) returns (r: Outcome<Error>)
      modifies this
      ensures match EditItemDoc(old(State()), line, text, priority, projects, contexts)
        case Ok(d) => r == Pass && State() == d
        case Err(e) => r == Fail(e) && State() == old(State())
    {
      var orig := ItemAt(State(), line);
      if orig.None? {
        return Fail(NoItemAt(line));
      }
      match NewInProgress(line, FullText(text, projects, contexts), priority, orig.value.start)
      case Err(e) =>
        return Fail(e);
      case Ok(it) =>
        incomplete := incomplete[line := it];
        return Pass;
    }

    /** complete_item. */
    method CompleteItem(line: nat, when: string) returns (r: Outcome<Error>)
      modifies this
      ensures match CompleteItemDoc(old(State()), line, when)
        case Ok(d) => r == Pass && State() == d
        case Err(e) => r == Fail(e) && State() == old(State())
    {
      if line !in incomplete {
        return Pass;
      }
      var prev := incomplete[line];
      match NewComplete(line, prev.origText, when, prev.start)
      case Err(e) =>
        return Fail(e);
      case Ok(it) =>
        incomplete := incomplete - {line};
        complete := complete[line := it];
        return Pass;
    }

    /** remove_line: both maps rebuilt without the line. */
    method RemoveLine(line: nat)
      modifies this
      ensures State() == RemoveLineDoc(old(State()), line)
    {
      incomplete := Shift(incomplete, line, nextLine);
      complete := Shift(complete, line, nextLine);
    }

    /** move_item, to another file or to this one.  It calls AddExistingItem where add_to_file
        calls the undefined addExistingItem (todo_parser.py:187, 242). */
    method MoveItem(line: nat, dest: TodoFile)
      modifies this, dest
      ensures dest == this ==> State() == MoveWithin(old(State()), line)
      ensures dest != this ==>
        var p := MoveDocs(old(State()), old(dest.State()), line);
        State() == p.0 && dest.State() == p.1
    {
      if line !in incomplete && line !in complete {
        return;
      }
      var it := ItemAt(State(), line).value;
      dest.AddExistingItem(it, it.Complete?);
      RemoveLine(line);
    }

    /** archive_item; through MoveItem it adds the item with AddExistingItem, not with the
        undefined addExistingItem of add_to_file. */
    method ArchiveItem(line: nat, dest: TodoFile)
      modifies this, dest
      ensures dest == this ==> State() == ArchiveWithin(old(State()), line)
      ensures dest != this ==> (State(), dest.State()) == ArchiveDocs(old(State()), old(dest.State()), line)
    {
      if line !in complete {
        return;
      }
      MoveItem(line, dest);
    }

    /** archive_all_items, over the keys of the complete map in the order the dict yields
        them (IsKeyOrder; the contract holds for any order).  Only the first archive can reach
        the dict being iterated, since remove_line binds new dicts; when it adds a key to it,
        the iteration raises. */
    method ArchiveAllItems(dest: TodoFile, order: seq<nat>) returns (r: Outcome<Error>)
      modifies this, dest
      ensures dest != this ==>
        r == Pass && (State(), dest.State()) == ArchiveAllDocs(old(State()), old(dest.State()), order)
      ensures dest == this ==> (State(), r) == ArchiveAllWithin(old(State()), order)
    {
      if dest != this {
        ArchiveAllInto(dest, order);
        return Pass;
      }
      if order == [] {
        return Pass;
      }
      var grows := order[0] in complete && order[0] !in incomplete && nextLine !in complete;
      ArchiveItem(order[0], dest);
      if grows {
        return Fail(DictChangedSize);
      }
      ArchiveSeqHere(order[1..]);
      return Pass;
    }

    /** The rest of the loop of archive_all_items with this file as destination, once the
        first archive has left the dict being iterated alone. */
    method ArchiveSeqHere(order: seq<nat>)
      modifies this
      ensures State() == ArchiveSeqWithin(old(State()), order)
    {
      var i := 0;
      assert order[0..] == order;
      while i < |order|
        invariant 0 <= i <= |order|
        invariant ArchiveSeqWithin(State(), order[i..]) == ArchiveSeqWithin(old(State()), order)
      {
        ghost var s0 := State();
        ArchiveItem(order[i], this);
        ArchiveSeqWithinStep(s0, order, i);
        i := i + 1;
      }
    }

    /** The loop of archive_all_items with a different file as destination, where the dict
        being iterated never changes. */
    method ArchiveAllInto(dest: TodoFile, order: seq<nat>)
      requires dest != this
      modifies this, dest
      ensures (State(), dest.State()) == ArchiveAllDocs(old(State()), old(dest.State()), order)
    {
      var i := 0;
      assert order[0..] == order;
      while i < |order|
        invariant 0 <= i <= |order|
        invariant ArchiveAllDocs(State(), dest.State(), order[i..])
               == ArchiveAllDocs(old(State()), old(dest.State()), order)
      {
        ghost var s0, t0 := State(), dest.State();
        ArchiveItem(order[i], dest);
        ArchiveAllDocsStep(s0, t0, order, i);
        i := i + 1;
      }
    }

    /** archive_all_items as evidently intended: the lines in increasing order, with a cursor
        that stays in place after an archive, since every later line has then moved down one. */
    method ArchiveAllItemsInOrder(dest: TodoFile)
      requires dest != this
      modifies this, dest
      ensures (State(), dest.State()) == ArchiveAllFixed(old(State()), old(dest.State()))
    {
      var c: nat, r: nat := 0, nextLine;
      while r > 0
        invariant ArchiveUp(State(), dest.State(), c, r) == ArchiveAllFixed(old(State()), old(dest.State()))
      {
        var next := if c in complete then c else c + 1;
        ArchiveItem(c, dest);
        c, r := next, r - 1;
      }
    }

    /** __str__: each line's text followed by "\n". */
    method ToString() returns (s: string)
      ensures s == RenderDoc(State())
    {
      s := "";
      var i := 0;
      while i < nextLine
        invariant 0 <= i <= nextLine
        invariant s == JoinLines(Lines(State())[..i])
      {
        JoinLinesSnoc(Lines(State())[..i], LineText(State(), i));
        assert Lines(State())[..i + 1] == Lines(State())[..i] + [LineText(State(), i)];
        s := s + LineText(State(), i) + "\n";
        i := i + 1;
      }
      assert Lines(State())[..nextLine] == Lines(State());
    }
  }
}
