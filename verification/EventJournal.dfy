/**
  The append-only journal that reserves an event before it is printed, and the processor that
  sequences reserve, print and submitted. A journal file is a sequence of cells: whole records,
  torn ones (a non-empty proper prefix of a record's bytes), and line ends.
 */
module EventJournal {
  import opened Prelude

  datatype Stage = Reserved | Submitted

  datatype Entry = Entry(id: string, stage: Stage)

  datatype Cell = Record(e: Entry) | Torn | LineEnd

  datatype JournalError = MissingID | NotWritten | RefusedLine

  /** What a failed append may have left in the file. */
  datatype Part = Nothing | Piece | NoLineEnd | Whole

  /** Whether an append was written and synced, or failed after leaving some part behind. */
  datatype Outcome = Synced | Failed(part: Part)

  function Left(e: Entry, part: Part): seq<Cell>
  {
    match part
    case Nothing => []
    case Piece => [Torn]
    case NoLineEnd => [Record(e)]
    case Whole => [Record(e), LineEnd]
  }

  // ----- opening a journal

  /** The scanner's lines: a last line without a line end counts unless it is empty. */
  function Lines(cells: seq<Cell>, cur: seq<Cell>): seq<seq<Cell>>
  {
    if cells == [] then (if cur == [] then [] else [cur])
    else if cells[0].LineEnd? then [cur] + Lines(cells[1..], [])
    else Lines(cells[1..], cur + [cells[0]])
  }

  predicate LineOk(line: seq<Cell>)
  {
    |line| == 1 && line[0].Record? && line[0].e.id != ""
  }

  function Replay(lines: seq<seq<Cell>>): (r: Result<set<string>, JournalError>)
    ensures r.Err? ==> r.error == RefusedLine
  {
    if lines == [] then Ok({})
    else
      var k := |lines| - 1;
      match Replay(lines[..k])
      case Err(e) => Err(e)
      case Ok(seen) => if LineOk(lines[k]) then Ok(seen + {lines[k][0].e.id}) else Err(RefusedLine)
  }

  function Reopened(cells: seq<Cell>): Result<set<string>, JournalError> { Replay(Lines(cells, [])) }

  // ----- the machine: one journal file, at most one process using it, and the printer

  datatype Task = ToPrint(id: string) | ToSubmit(id: string)

  /** `durable` cells are synced; `flight` holds the calls of Process between their effects. */
  datatype World = World(cells: seq<Cell>, durable: nat, live: bool, seen: set<string>, flight: seq<Task>, prints: seq<string>)

  datatype Action =
    | Start
    | Reserve(id: string, outcome: Outcome)
    | Print(task: nat, confirmed: bool)
    | Submit(task: nat, outcome: Outcome)
    | Crash(kept: seq<Cell>)

  function AppendTo(w: World, e: Entry, outcome: Outcome): World
  {
    match outcome
    case Synced => w.(cells := w.cells + [Record(e), LineEnd], durable := |w.cells| + 2)
    case Failed(part) => w.(cells := w.cells + Left(e, part))
  }

  function DropTask(flight: seq<Task>, i: nat): seq<Task>
    requires i < |flight|
  {
    flight[..i] + flight[i + 1..]
  }

  function Do(w: World, a: Action): World
  {
    match a
    case Start =>
      if w.live then w else
      (match Reopened(w.cells)
       case Err(_) => w
       case Ok(seen) => w.(live := true, seen := seen, flight := []))
    case Reserve(id, outcome) =>
      if !w.live || id == "" || id in w.seen then w
      else
        var x := AppendTo(w, Entry(id, Reserved), outcome);
        if outcome.Synced? then x.(seen := w.seen + {id}, flight := w.flight + [ToPrint(id)]) else x
    case Print(i, confirmed) =>
      if !w.live || i >= |w.flight| || !w.flight[i].ToPrint? then w
      else
        var id := w.flight[i].id;
        w.(prints := w.prints + [id],
           flight := if confirmed then w.flight[i := ToSubmit(id)] else DropTask(w.flight, i))
    case Submit(i, outcome) =>
      if !w.live || i >= |w.flight| || !w.flight[i].ToSubmit? then w
      else AppendTo(w, Entry(w.flight[i].id, Submitted), outcome).(flight := DropTask(w.flight, i))
    case Crash(kept) =>
      if w.durable > |w.cells| then w
      else w.(cells := w.cells[..w.durable] + kept, live := false, seen := {}, flight := [])
  }

  const FRESH := World([], 0, false, {}, [], [])

  function After(actions: seq<Action>): World
  {
    if actions == [] then FRESH
    else Do(After(actions[..|actions| - 1]), actions[|actions| - 1])
  }

  // ----- the objects

  class Disk {
    var cells: seq<Cell>
    var durable: nat

    constructor (cells: seq<Cell>, durable: nat)
      ensures this.cells == cells && this.durable == durable
    {
      this.cells, this.durable := cells, durable;
    }

    /** Append one record and sync; the outcome is the environment's choice. */
    method Append(e: Entry, outcome: Outcome) returns (ok: bool)
      modifies this
      ensures ok == outcome.Synced?
      ensures ok ==> cells == old(cells) + [Record(e), LineEnd] && durable == |cells|
      ensures !ok ==> durable == old(durable) && old(cells) <= cells
      ensures forall w: World :: w.cells == old(cells) && w.durable == old(durable) ==>
                AppendTo(w, e, outcome) == w.(cells := cells, durable := durable)
    {
      match outcome
      case Synced =>
        cells := cells + [Record(e), LineEnd];
        durable := |cells|;
        ok := true;
      case Failed(part) =>
        cells := cells + Left(e, part);
        ok := false;
    }
  }

  class Journal {
    const disk: Disk
    var seen: set<string>

    constructor (disk: Disk, seen: set<string>)
      ensures this.disk == disk && this.seen == seen
    {
      this.disk, this.seen := disk, seen;
    }

    method ReserveEvent(id: string, outcome: Outcome) returns (r: Result<bool, JournalError>)
      modifies this, disk
      ensures r == if id == "" then Err(MissingID) else if id in old(seen) then Ok(false)
                   else if outcome.Synced? then Ok(true) else Err(NotWritten)
      ensures seen == if r == Ok(true) then old(seen) + {id} else old(seen)
      ensures r == Ok(true) ==> disk.cells == old(disk.cells) + [Record(Entry(id, Reserved)), LineEnd] && disk.durable == |disk.cells|
      ensures r == Ok(false) || id == "" ==> disk.cells == old(disk.cells) && disk.durable == old(disk.durable)
      ensures forall w: World :: w.live && w.cells == old(disk.cells) && w.durable == old(disk.durable) && w.seen == old(seen) ==>
                Do(w, Reserve(id, outcome))
                == w.(cells := disk.cells, durable := disk.durable, seen := seen,
                      flight := if r == Ok(true) then w.flight + [ToPrint(id)] else w.flight)
    {
      if id == "" {
        return Err(MissingID);
      }
      if id in seen {
        return Ok(false);
      }
      var ok := disk.Append(Entry(id, Reserved), outcome);
      if !ok {
        return Err(NotWritten);
      }
      seen := seen + {id};
      return Ok(true);
    }

    method RecordSubmitted(id: string, outcome: Outcome) returns (ok: bool)
      modifies disk
      ensures ok == outcome.Synced?
      ensures ok ==> disk.cells == old(disk.cells) + [Record(Entry(id, Submitted)), LineEnd] && disk.durable == |disk.cells|
      ensures forall w: World :: w.cells == old(disk.cells) && w.durable == old(disk.durable) ==>
                AppendTo(w, Entry(id, Submitted), outcome) == w.(cells := disk.cells, durable := disk.durable)
    {
      ok := disk.Append(Entry(id, Submitted), outcome);
    }
  }

  /** Replays the file line by line and refuses to start on an empty or malformed line. */
  method OpenJournal(disk: Disk) returns (r: Result<Journal, JournalError>)
    ensures r.Ok? <==> Reopened(disk.cells).Ok?
    ensures r.Err? ==> r.error == RefusedLine
    ensures r.Ok? ==> fresh(r.value) && r.value.disk == disk && r.value.seen == Reopened(disk.cells).value
  {
    var lines := Lines(disk.cells, []);
    var seen: set<string> := {};
    for i := 0 to |lines|
      invariant Replay(lines[..i]) == Ok(seen)
    {
      assert lines[..i + 1][..i] == lines[..i];
      var line := lines[i];
      if |line| == 0 || !(|line| == 1 && line[0].Record? && line[0].e.id != "") {
        RefusedLineFails(lines, i);
        return Err(RefusedLine);
      }
      seen := seen + {line[0].e.id};
    }
    assert lines[..|lines|] == lines;
    var j := new Journal(disk, seen);
    return Ok(j);
  }

  lemma {:induction false} RefusedLineFails(lines: seq<seq<Cell>>, i: nat)
    requires i < |lines| && !LineOk(lines[i])
    ensures Replay(lines).Err?
    decreases |lines|
  {
    var k := |lines| - 1;
    if i < k {
      RefusedLineFails(lines[..k], i);
    }
  }

  class Printer {
    var prints: seq<string>

    constructor ()
      ensures prints == []
    {
      prints := [];
    }

    /** Hands the event to the print command; whether it confirms submission is the environment's choice. */
    method Print(id: string, confirmed: bool) returns (ok: bool)
      modifies this
      ensures prints == old(prints) + [id] && ok == confirmed
    {
      prints := prints + [id];
      ok := confirmed;
    }
  }

  datatype ProcessResult = NotQualified | ReserveFailed | Duplicate | StatusUnknown | SubmittedOk | SubmittedUnrecorded

  /** The actions one call of Process amounts to. */
  function ProcessActions(qualifies: bool, id: string, reserve: Outcome, confirmed: bool, submit: Outcome): seq<Action>
  {
    if !qualifies then []
    else if confirmed then [Reserve(id, reserve), Print(0, confirmed), Submit(0, submit)]
    else [Reserve(id, reserve), Print(0, confirmed)]
  }

  function DoAll(w: World, actions: seq<Action>): World
    decreases actions
  {
    if actions == [] then w else DoAll(Do(w, actions[0]), actions[1..])
  }

  function Running(disk: Disk, journal: Journal, printer: Printer): World
    reads disk, journal, printer
  {
    World(disk.cells, disk.durable, true, journal.seen, [], printer.prints)
  }

  /** One event through reserve, print and submitted, as the cheer, gift and raid processors do it. */
  method Process(journal: Journal, printer: Printer, qualifies: bool, id: string, reserve: Outcome, confirmed: bool, submit: Outcome)
    returns (r: ProcessResult)
    modifies journal, journal.disk, printer
    ensures Running(journal.disk, journal, printer)
            == DoAll(old(Running(journal.disk, journal, printer)), ProcessActions(qualifies, id, reserve, confirmed, submit))
    ensures r == if !qualifies then NotQualified
                 else if id == "" then ReserveFailed
                 else if id in old(journal.seen) then Duplicate
                 else if !reserve.Synced? then ReserveFailed
                 else if !confirmed then StatusUnknown
                 else if submit.Synced? then SubmittedOk else SubmittedUnrecorded
    ensures printer.prints
            == old(printer.prints) + if r.StatusUnknown? || r.SubmittedOk? || r.SubmittedUnrecorded? then [id] else []
    ensures id !in old(journal.seen) && id in journal.seen <==> r.StatusUnknown? || r.SubmittedOk? || r.SubmittedUnrecorded?
    ensures r.NotQualified? || r.Duplicate? ==> journal.disk.cells == old(journal.disk.cells)
    ensures r.StatusUnknown? ==>
              journal.disk.cells == old(journal.disk.cells) + [Record(Entry(id, Reserved)), LineEnd]
    ensures r.SubmittedOk? ==>
              journal.disk.cells
              == old(journal.disk.cells) + [Record(Entry(id, Reserved)), LineEnd, Record(Entry(id, Submitted)), LineEnd]
    ensures r.StatusUnknown? || r.SubmittedOk? ==> journal.disk.durable == |journal.disk.cells|
  {
    hide Reopened, AppendTo, Do, DoAll;
    ghost var w := Running(journal.disk, journal, printer);
    ghost var w1 := Do(w, Reserve(id, reserve));
    ghost var w2 := Do(w1, Print(0, confirmed));
    Chain(w, Reserve(id, reserve), Print(0, confirmed), Submit(0, submit));
    NothingToDo(w, confirmed, submit);
    NothingToDo(w1, confirmed, submit);
    if !qualifies {
      return NotQualified;
    }
    var ok := journal.ReserveEvent(id, reserve);
    assert w1 == Running(journal.disk, journal, printer).(flight := if ok == Ok(true) then [ToPrint(id)] else []);
    if ok.Err? {
      return ReserveFailed;
    }
    if !ok.value {
      return Duplicate;
    }
    var printed := printer.Print(id, confirmed);
    OneTask(w1, id, confirmed);
    if !printed {
      return StatusUnknown;
    }
    SubmitTask(w2, id, submit);
    var recorded := journal.RecordSubmitted(id, submit);
    return if recorded then SubmittedOk else SubmittedUnrecorded;
  }

  /** With nothing under way there is nothing to print or to submit. */
  lemma NothingToDo(w: World, confirmed: bool, outcome: Outcome)
    ensures DoAll(w, []) == w
    ensures w.flight == [] ==> Do(w, Print(0, confirmed)) == w && Do(w, Submit(0, outcome)) == w
  {
  }

  lemma OneTask(w: World, id: string, confirmed: bool)
    requires w.live && w.flight == [ToPrint(id)]
    ensures Do(w, Print(0, confirmed))
            == w.(prints := w.prints + [id], flight := if confirmed then [ToSubmit(id)] else [])
  {
  }

  lemma SubmitTask(w: World, id: string, outcome: Outcome)
    requires w.live && w.flight == [ToSubmit(id)]
    ensures Do(w, Submit(0, outcome)) == AppendTo(w, Entry(id, Submitted), outcome).(flight := [])
  {
    hide AppendTo;
  }

  lemma Chain(w: World, a: Action, b: Action, c: Action)
    ensures DoAll(w, [a, b]) == Do(Do(w, a), b)
    ensures DoAll(w, [a, b, c]) == Do(Do(Do(w, a), b), c)
  {
    hide Do;
    DoTwo(w, a, b);
    DoTwo(Do(w, a), b, c);
    assert [a, b, c][1..] == [b, c];
  }

  lemma DoTwo(w: World, a: Action, b: Action)
    ensures DoAll(w, [a, b]) == Do(Do(w, a), b)
  {
    hide Do;
    assert [a, b][1..] == [b] && [b][1..] == [];
    assert DoAll(Do(w, a), [b]) == DoAll(Do(Do(w, a), b), []);
  }
}
