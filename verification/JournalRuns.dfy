/** Safety of the journal over every run with crashes, torn writes, restarts and redelivery. */
module JournalRuns {
  import opened Prelude
  import opened EventJournal

  /** The synced part of the file holds the event's reservation. */
  ghost predicate Durable(w: World, id: string)
  {
    w.durable <= |w.cells| && Record(Entry(id, Reserved)) in w.cells[..w.durable]
  }

  ghost predicate DistinctTasks(flight: seq<Task>)
  {
    forall i, j :: 0 <= i < j < |flight| ==> flight[i].id != flight[j].id
  }

  ghost predicate Inv(w: World)
  {
    && w.durable <= |w.cells|
    && (forall id :: id in w.prints ==> Durable(w, id))
    && (w.live ==> forall id :: id in w.prints ==> id in w.seen)
    && (forall t :: t in w.flight ==> w.live && t.id in w.seen && Durable(w, t.id))
    && (forall t :: t in w.flight && t.ToPrint? ==> t.id !in w.prints)
    && DistinctTasks(w.flight)
    && NoDup(w.prints)
  }

  // ----- reopening finds every record

  lemma {:induction false} LinesHoldCells(cells: seq<Cell>, cur: seq<Cell>, c: Cell)
    requires (c in cells || c in cur) && !c.LineEnd?
    ensures exists k :: 0 <= k < |Lines(cells, cur)| && c in Lines(cells, cur)[k]
    decreases cells
  {
    var ls := Lines(cells, cur);
    if cells == [] {
      assert ls[0] == cur;
    } else if cells[0].LineEnd? {
      var rest := Lines(cells[1..], []);
      if c in cur {
        assert ls[0] == cur;
      } else {
        LinesHoldCells(cells[1..], [], c);
        var k :| 0 <= k < |rest| && c in rest[k];
        assert ls[k + 1] == rest[k];
      }
    } else {
      LinesHoldCells(cells[1..], cur + [cells[0]], c);
    }
  }

  lemma {:induction false} ReplayHoldsLines(lines: seq<seq<Cell>>, k: nat)
    requires k < |lines| && Replay(lines).Ok?
    ensures LineOk(lines[k]) && lines[k][0].e.id in Replay(lines).value
    decreases |lines|
  {
    var n := |lines| - 1;
    if k < n {
      ReplayHoldsLines(lines[..n], k);
    }
  }

  /** A file that reopens has every recorded id in its seen set, and holds nothing torn. */
  lemma ReopenedSeesAll(cells: seq<Cell>, c: Cell)
    requires Reopened(cells).Ok? && c in cells && !c.LineEnd?
    ensures c.Record? && c.e.id in Reopened(cells).value
  {
    LinesHoldCells(cells, [], c);
    var lines := Lines(cells, []);
    var k :| 0 <= k < |lines| && c in lines[k];
    ReplayHoldsLines(lines, k);
  }

  // ----- every step keeps the invariant

  lemma AppendKeepsDurable(w: World, e: Entry, outcome: Outcome, id: string)
    requires Durable(w, id)
    ensures Durable(AppendTo(w, e, outcome), id)
  {
    var x := AppendTo(w, e, outcome);
    var r := Record(Entry(id, Reserved));
    var k :| 0 <= k < w.durable && w.cells[..w.durable][k] == r;
    assert x.cells[..x.durable][k] == r;
  }

  lemma SyncedIsDurable(w: World, id: string)
    ensures Durable(AppendTo(w, Entry(id, Reserved), Synced), id)
  {
    var x := AppendTo(w, Entry(id, Reserved), Synced);
    assert x.cells[..x.durable][|w.cells|] == Record(Entry(id, Reserved));
  }

  lemma ReserveKeeps(w: World, id: string, outcome: Outcome)
    requires Inv(w)
    ensures Inv(Do(w, Reserve(id, outcome)))
  {
    hide Durable, AppendTo;
    var e := Entry(id, Reserved);
    if w.live && id != "" && id !in w.seen {
      AppendShape(w, e, outcome);
      SyncedIsDurable(w, id);
      forall x | Durable(w, x)
        ensures Durable(AppendTo(w, e, outcome), x)
      {
        AppendKeepsDurable(w, e, outcome, x);
      }
      SameDurable(AppendTo(w, e, outcome), Do(w, Reserve(id, outcome)));
    }
  }

  lemma AppendShape(w: World, e: Entry, outcome: Outcome)
    requires w.durable <= |w.cells|
    ensures var x := AppendTo(w, e, outcome);
            && x.live == w.live && x.seen == w.seen && x.flight == w.flight && x.prints == w.prints
            && x.durable <= |x.cells|
  {
  }

  lemma SameDurable(w: World, v: World)
    requires w.cells == v.cells && w.durable == v.durable
    ensures forall id :: Durable(w, id) <==> Durable(v, id)
  {
  }

  lemma DropDistinct(flight: seq<Task>, i: nat)
    requires i < |flight| && DistinctTasks(flight)
    ensures DistinctTasks(DropTask(flight, i))
    ensures forall t :: t in DropTask(flight, i) ==> t in flight && t.id != flight[i].id
  {
    var r := DropTask(flight, i);
    assert forall k :: 0 <= k < |r| ==> r[k] == flight[if k < i then k else k + 1];
  }

  lemma PrintKeeps(w: World, i: nat, confirmed: bool)
    requires Inv(w)
    ensures Inv(Do(w, Print(i, confirmed)))
  {
    hide Durable;
    if w.live && i < |w.flight| && w.flight[i].ToPrint? {
      var x := Do(w, Print(i, confirmed));
      var id := w.flight[i].id;
      assert w.flight[i] in w.flight;
      DropDistinct(w.flight, i);
      SameDurable(w, x);
      forall t | t in x.flight
        ensures t.id in w.seen && Durable(x, t.id) && (t.ToPrint? ==> t.id !in x.prints)
      {
        if confirmed {
          var k :| 0 <= k < |x.flight| && x.flight[k] == t;
          assert k != i ==> t == w.flight[k] && t in w.flight;
        }
      }
    }
  }

  lemma SubmitKeeps(w: World, i: nat, outcome: Outcome)
    requires Inv(w)
    ensures Inv(Do(w, Submit(i, outcome)))
  {
    hide Durable, AppendTo;
    if w.live && i < |w.flight| && w.flight[i].ToSubmit? {
      var e := Entry(w.flight[i].id, Submitted);
      AppendShape(w, e, outcome);
      DropDistinct(w.flight, i);
      forall x | Durable(w, x)
        ensures Durable(AppendTo(w, e, outcome), x)
      {
        AppendKeepsDurable(w, e, outcome, x);
      }
      SameDurable(AppendTo(w, e, outcome), Do(w, Submit(i, outcome)));
    }
  }

  lemma CrashKeeps(w: World, kept: seq<Cell>)
    requires Inv(w)
    ensures Inv(Do(w, Crash(kept)))
  {
    var x := Do(w, Crash(kept));
    assert x.cells[..x.durable] == w.cells[..w.durable];
  }

  lemma StartKeeps(w: World)
    requires Inv(w)
    ensures Inv(Do(w, Start))
  {
    if !w.live && Reopened(w.cells).Ok? {
      forall id | id in w.prints
        ensures id in Reopened(w.cells).value
      {
        var r := Record(Entry(id, Reserved));
        assert r in w.cells[..w.durable];
        ReopenedSeesAll(w.cells, r);
      }
    }
  }

  lemma StepKeeps(w: World, a: Action)
    requires Inv(w)
    ensures Inv(Do(w, a))
  {
    hide Inv, Do;
    match a
    case Start => StartKeeps(w);
    case Reserve(id, outcome) => ReserveKeeps(w, id, outcome);
    case Print(i, confirmed) => PrintKeeps(w, i, confirmed);
    case Submit(i, outcome) => SubmitKeeps(w, i, outcome);
    case Crash(kept) => CrashKeeps(w, kept);
  }

  lemma {:induction false} RunKeeps(actions: seq<Action>)
    ensures Inv(After(actions))
  {
    if actions != [] {
      hide Inv, Do;
      RunKeeps(actions[..|actions| - 1]);
      StepKeeps(After(actions[..|actions| - 1]), actions[|actions| - 1]);
    } else {
      assert FRESH.cells[..0] == [];
    }
  }

  /** At most once: in every run no event id reaches the printer twice. */
  lemma PrintedAtMostOnce(actions: seq<Action>)
    ensures NoDup(After(actions).prints)
  {
    RunKeeps(actions);
  }

  /** Reserved first: whenever a step prints, the event's reservation was synced before that step,
      and it stays in the file for the rest of the run. */
  lemma PrintedAfterReserved(actions: seq<Action>, a: Action, later: seq<Action>)
    ensures var w := After(actions); var x := Do(w, a);
            && w.prints <= x.prints
            && (forall k :: |w.prints| <= k < |x.prints| ==> Durable(w, x.prints[k]))
            && (forall id :: id in x.prints ==> id in After(actions + [a] + later).prints && Durable(After(actions + [a] + later), id))
  {
    hide Inv, Do;
    var w := After(actions);
    RunKeeps(actions);
    PrintIsReserved(w, a);
    assert (actions + [a])[..|actions|] == actions;
    assert After(actions + [a]) == Do(w, a);
    PrintsGrow(actions + [a], later);
    RunKeeps(actions + [a] + later);
    PrintsDurable(After(actions + [a] + later));
  }

  lemma PrintsDurable(w: World)
    requires Inv(w)
    ensures forall id :: id in w.prints ==> Durable(w, id)
  {
  }

  lemma PrintIsReserved(w: World, a: Action)
    requires Inv(w)
    ensures w.prints <= Do(w, a).prints
    ensures forall k :: |w.prints| <= k < |Do(w, a).prints| ==> Durable(w, Do(w, a).prints[k])
  {
    if a.Print? && a.task < |w.flight| {
      assert w.flight[a.task] in w.flight;
    }
  }

  lemma {:induction false} PrintsGrow(actions: seq<Action>, later: seq<Action>)
    ensures After(actions).prints <= After(actions + later).prints
    decreases later
  {
    if later == [] {
      assert actions + later == actions;
    } else {
      hide Do, Inv, After;
      var k := |later| - 1;
      var w := After(actions + later[..k]);
      PrintsGrow(actions, later[..k]);
      AfterMore(actions, later);
      RunKeeps(actions + later[..k]);
      PrintIsReserved(w, later[k]);
      PrefixOfPrefix(After(actions).prints, w.prints, Do(w, later[k]).prints);
    }
  }

  lemma AfterMore(actions: seq<Action>, later: seq<Action>)
    requires later != []
    ensures var k := |later| - 1; After(actions + later) == Do(After(actions + later[..k]), later[k])
  {
    hide Do, After;
    var k := |later| - 1;
    AfterLast(actions + later[..k], later[k]);
    assert actions + later[..k] + [later[k]] == actions + later;
  }

  /** A run continued by more actions is those actions done from where the run had come to. */
  lemma {:induction false} AfterAll(actions: seq<Action>, later: seq<Action>)
    ensures After(actions + later) == DoAll(After(actions), later)
    decreases later
  {
    if later == [] {
      assert actions + later == actions;
    } else {
      hide Do, After;
      AfterLast(actions, later[0]);
      AfterAll(actions + [later[0]], later[1..]);
      assert actions + [later[0]] + later[1..] == actions + later;
    }
  }

  lemma AfterLast(actions: seq<Action>, a: Action)
    ensures After(actions + [a]) == Do(After(actions), a)
  {
    hide Do;
    assert (actions + [a])[..|actions|] == actions;
  }

  lemma PrefixOfPrefix<T>(a: seq<T>, b: seq<T>, c: seq<T>)
    requires a <= b <= c
    ensures a <= c
  {
  }

  // ----- when a journal can be reopened

  /** Complete record lines, the last of which may lack its line end. */
  ghost predicate CleanFile(cells: seq<Cell>)
  {
    cells == [] ||
    (cells[0].Record? && cells[0].e.id != "" &&
     (|cells| == 1 || (cells[1].LineEnd? && CleanFile(cells[2..]))))
  }

  lemma {:induction false} LinesOfClean(cells: seq<Cell>)
    requires |cells| >= 2 && !cells[0].LineEnd? && cells[1].LineEnd?
    ensures Lines(cells, []) == [[cells[0]]] + Lines(cells[2..], [])
  {
    assert [] + [cells[0]] == [cells[0]];
    assert cells[1..][1..] == cells[2..];
  }

  lemma {:induction false} ReplaySplit(first: seq<Cell>, rest: seq<seq<Cell>>)
    ensures Replay([first] + rest).Ok? <==> LineOk(first) && Replay(rest).Ok?
    decreases rest
  {
    var all := [first] + rest;
    if rest == [] {
      assert all[..0] == [];
    } else {
      var k := |rest| - 1;
      assert all[..|all| - 1] == [first] + rest[..k];
      ReplaySplit(first, rest[..k]);
    }
  }

  /** The first line of a file that does not start a clean record line is refused. */
  lemma {:induction false} FirstLine(cells: seq<Cell>, cur: seq<Cell>)
    requires cells != [] || cur != []
    ensures Lines(cells, cur) != [] && cur <= Lines(cells, cur)[0]
    ensures cells != [] && !cells[0].LineEnd? ==> |Lines(cells, cur)[0]| > |cur|
    decreases cells
  {
    if cells != [] && !cells[0].LineEnd? {
      FirstLine(cells[1..], cur + [cells[0]]);
    }
  }

  /** The process starts again exactly when the file consists of whole record lines; any torn piece,
      any two records run together and any empty line makes it refuse. */
  lemma {:induction false} ReopensExactly(cells: seq<Cell>)
    ensures Reopened(cells).Ok? <==> CleanFile(cells)
    decreases |cells|
  {
    if cells == [] {
    } else if |cells| >= 2 && !cells[0].LineEnd? && cells[1].LineEnd? {
      LinesOfClean(cells);
      ReplaySplit([cells[0]], Lines(cells[2..], []));
      ReopensExactly(cells[2..]);
    } else if |cells| == 1 && !cells[0].LineEnd? {
      assert cells == [] + [cells[0]] && cells[1..] == [];
      assert Lines(cells, []) == Lines(cells[1..], cells);
      ReplaySplit(cells, []);
      assert [cells] + [] == [cells];
    } else {
      BadFirstLine(cells);
      var lines := Lines(cells, []);
      assert lines == [lines[0]] + lines[1..];
      ReplaySplit(lines[0], lines[1..]);
    }
  }

  lemma BadFirstLine(cells: seq<Cell>)
    requires cells != [] && (cells[0].LineEnd? || (|cells| >= 2 && !cells[1].LineEnd?))
    ensures Lines(cells, []) != [] && !LineOk(Lines(cells, [])[0])
  {
    if !cells[0].LineEnd? {
      assert [] + [cells[0]] == [cells[0]];
      FirstLine(cells[1..], [cells[0]]);
    }
  }

  // ----- when the process can start again, over whole runs

  /** No append fails and a crash leaves nothing behind the synced part. */
  predicate Undisturbed(a: Action)
  {
    match a
    case Reserve(_, outcome) => outcome.Synced?
    case Submit(_, outcome) => outcome.Synced?
    case Crash(kept) => kept == []
    case _ => true
  }

  /** Whole lines only, the last one ended too. */
  ghost predicate WholeLines(cells: seq<Cell>)
  {
    cells == [] ||
    (|cells| >= 2 && cells[0].Record? && cells[0].e.id != "" && cells[1].LineEnd? && WholeLines(cells[2..]))
  }

  lemma {:induction false} WholeIsClean(cells: seq<Cell>)
    requires WholeLines(cells)
    ensures CleanFile(cells)
    decreases |cells|
  {
    if cells != [] {
      WholeIsClean(cells[2..]);
    }
  }

  lemma {:induction false} WholeAppend(cells: seq<Cell>, e: Entry)
    requires WholeLines(cells) && e.id != ""
    ensures WholeLines(cells + [Record(e), LineEnd])
    decreases |cells|
  {
    var all := cells + [Record(e), LineEnd];
    if cells == [] {
      assert all[2..] == [];
    } else {
      assert all[2..] == cells[2..] + [Record(e), LineEnd];
      WholeAppend(cells[2..], e);
    }
  }

  ghost predicate AllSynced(w: World)
  {
    && WholeLines(w.cells) && w.durable == |w.cells|
    && forall t :: t in w.flight ==> t.id != ""
  }

  lemma UndisturbedKeeps(w: World, a: Action)
    requires AllSynced(w) && Undisturbed(a)
    ensures AllSynced(Do(w, a))
  {
    hide WholeLines;
    match a
    case Reserve(id, _) =>
      if id != "" {
        WholeAppend(w.cells, Entry(id, Reserved));
      }
    case Submit(i, _) =>
      if i < |w.flight| {
        assert w.flight[i] in w.flight;
        WholeAppend(w.cells, Entry(w.flight[i].id, Submitted));
      }
    case Crash(kept) =>
      assert w.cells[..w.durable] + kept == w.cells;
    case Print(i, confirmed) =>
      if i < |w.flight| {
        assert w.flight[i] in w.flight;
      }
    case Start =>
  }

  /** As long as no append fails and every crash leaves nothing unsynced, the process always starts
      again. */
  lemma {:induction false} StartsAgain(actions: seq<Action>)
    requires forall a :: a in actions ==> Undisturbed(a)
    ensures AllSynced(After(actions)) && Do(After(actions), Start).live
  {
    if actions != [] {
      var k := |actions| - 1;
      assert forall a :: a in actions[..k] ==> a in actions;
      StartsAgain(actions[..k]);
      assert actions[k] in actions;
      hide Do, Undisturbed, AllSynced;
      UndisturbedKeeps(After(actions[..k]), actions[k]);
    }
    SyncedStarts(After(actions));
  }

  lemma SyncedStarts(w: World)
    requires AllSynced(w)
    ensures Do(w, Start).live
  {
    WholeIsClean(w.cells);
    ReopensExactly(w.cells);
  }

  /** The synced part of the file. */
  function SyncedPart(w: World): seq<Cell>
  {
    if w.durable <= |w.cells| then w.cells[..w.durable] else w.cells
  }

  lemma StepExtendsSynced(w: World, a: Action)
    requires w.durable <= |w.cells|
    ensures Do(w, a).durable <= |Do(w, a).cells| && SyncedPart(w) <= SyncedPart(Do(w, a))
  {
    hide Reopened;
  }

  lemma {:induction false} RunExtendsSynced(actions: seq<Action>, later: seq<Action>)
    ensures SyncedPart(After(actions)) <= SyncedPart(After(actions + later))
    decreases later
  {
    if later == [] {
      assert actions + later == actions;
    } else {
      hide Do, Inv, SyncedPart, After;
      var k := |later| - 1;
      var w := After(actions + later[..k]);
      RunExtendsSynced(actions, later[..k]);
      AfterMore(actions, later);
      RunKeeps(actions + later[..k]);
      assert w.durable <= |w.cells| by { BoundedSync(w); }
      StepExtendsSynced(w, later[k]);
      PrefixOfPrefix(SyncedPart(After(actions)), SyncedPart(w), SyncedPart(Do(w, later[k])));
    }
  }

  lemma BoundedSync(w: World)
    requires Inv(w)
    ensures w.durable <= |w.cells|
  {
  }

  /** Once a torn piece lies in the synced part of the file, no start succeeds ever again. */
  lemma TornIsFinal(actions: seq<Action>, later: seq<Action>)
    requires Torn in SyncedPart(After(actions))
    ensures var x := After(actions + later); Torn in x.cells && Reopened(x.cells).Err? && Do(x, Start) == x
  {
    hide After, Reopened;
    var x := After(actions + later);
    RunExtendsSynced(actions, later);
    assert Torn in x.cells;
    if Reopened(x.cells).Ok? {
      ReopenedSeesAll(x.cells, Torn);
    }
  }

  /** One append that fails half-way, followed by one that works, is such a run: the process goes on,
      and once it stops it never starts again. */
  lemma TornPieceStopsRestart(a: string, b: string, later: seq<Action>)
    requires a != "" && b != ""
    ensures var actions := [Start, Reserve(a, Failed(Piece)), Reserve(b, Synced)];
            After(actions).live && Do(After(actions + later), Start) == After(actions + later)
  {
    var actions := [Start, Reserve(a, Failed(Piece)), Reserve(b, Synced)];
    assert actions[..2] == [Start, Reserve(a, Failed(Piece))] && actions[..2][..1] == [Start] && [Start][..0] == [];
    var w := World([Torn], 0, true, {}, [], []);
    assert After([Start]) == FRESH.(live := true);
    assert After(actions[..2]) == w;
    var x := After(actions);
    assert x == Do(w, Reserve(b, Synced));
    assert x.cells == [Torn, Record(Entry(b, Reserved)), LineEnd] && x.durable == 3;
    assert SyncedPart(x)[0] == Torn;
    hide After, Do;
    TornIsFinal(actions, later);
  }

  /** The synced part ends where a line ends. */
  ghost predicate SyncedEnd(w: World)
  {
    w.durable <= |w.cells| && (w.durable == 0 || w.cells[w.durable - 1].LineEnd?)
  }

  lemma {:induction false} RunSyncedEnd(actions: seq<Action>)
    ensures SyncedEnd(After(actions))
  {
    if actions != [] {
      hide Do, SyncedEnd;
      RunSyncedEnd(actions[..|actions| - 1]);
      StepSyncedEnd(After(actions[..|actions| - 1]), actions[|actions| - 1]);
    } else {
      FreshEnd();
    }
  }

  lemma FreshEnd()
    ensures SyncedEnd(FRESH)
  {
  }

  lemma StepSyncedEnd(w: World, a: Action)
    requires SyncedEnd(w)
    ensures SyncedEnd(Do(w, a))
  {
    hide Reopened, DropTask;
  }

  /** A clean file cut where a line ends is clean. */
  lemma {:induction false} CleanPrefix(cells: seq<Cell>, n: nat)
    requires CleanFile(cells) && n <= |cells| && (n == 0 || cells[n - 1].LineEnd?)
    ensures CleanFile(cells[..n])
    decreases |cells|
  {
    if n > 0 {
      assert n >= 2;
      CleanPrefix(cells[2..], n - 2);
      assert cells[..n][2..] == cells[2..][..n - 2];
    }
  }

  lemma DeadStep(w: World, a: Action)
    requires SyncedEnd(w) && !w.live && !CleanFile(SyncedPart(w))
    ensures SyncedEnd(Do(w, a)) && !Do(w, a).live && SyncedPart(Do(w, a)) == SyncedPart(w)
  {
    hide Reopened, CleanFile;
    if a.Start? && Reopened(w.cells).Ok? {
      ReopensExactly(w.cells);
      CleanPrefix(w.cells, w.durable);
    }
  }

  lemma {:induction false} StaysDead(w: World, later: seq<Action>)
    requires SyncedEnd(w) && !w.live && !CleanFile(SyncedPart(w))
    ensures !DoAll(w, later).live
    decreases later
  {
    if later != [] {
      hide Do, CleanFile, SyncedPart;
      DeadStep(w, later[0]);
      StaysDead(Do(w, later[0]), later[1..]);
    }
  }

  /** A process that is down can come up again, in some continuation, exactly when the synced part of
      its file is whole record lines. */
  lemma CanStartExactly(actions: seq<Action>)
    requires !After(actions).live
    ensures (exists later :: After(actions + later).live) <==> CleanFile(SyncedPart(After(actions)))
  {
    hide After;
    var w := After(actions);
    RunSyncedEnd(actions);
    if CleanFile(SyncedPart(w)) {
      var later := [Crash([]), Start];
      CrashThenStart(w);
      AfterAll(actions, later);
      assert After(actions + later).live;
    } else {
      forall later
        ensures !After(actions + later).live
      {
        AfterAll(actions, later);
        StaysDead(w, later);
      }
    }
  }

  lemma CrashThenStart(w: World)
    requires w.durable <= |w.cells| && CleanFile(SyncedPart(w))
    ensures DoAll(w, [Crash([]), Start]).live
  {
    DoTwo(w, Crash([]), Start);
    ReopensExactly(SyncedPart(w));
    assert Do(w, Crash([])).cells == SyncedPart(w);
  }
}
