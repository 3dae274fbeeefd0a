/**
  The appliance's gift path as one machine: collector calls hand their celebrations to the journal's
  processor, other events use the same journal, and the process may die anywhere and start again with
  an empty collector.
 */
module GiftPrints {
  import opened Prelude
  import opened EventJournal
  import opened JournalRuns
  import Collect = GiftCollector
  import Gifts = GiftRuns

  const TESTGIFT := "testgift:"

  /** The journal id of a celebration. */
  function GiftKey(communityID: string): string
  {
    if TESTGIFT <= communityID then communityID else "gift:" + communityID
  }

  lemma GiftKeyInjective(a: string, b: string)
    requires GiftKey(a) == GiftKey(b)
    ensures a == b
  {
    var p := "gift:" + a;
    var q := "gift:" + b;
    assert p[0] == 'g' && q[0] == 'g';
    assert (TESTGIFT <= a ==> a[0] == 't') && (TESTGIFT <= b ==> b[0] == 't');
    assert p[5..] == a && q[5..] == b;
  }

  lemma GiftKeyPresent(communityID: string)
    ensures GiftKey(communityID) != ""
  {
    assert ("gift:" + communityID)[0] == 'g';
  }

  // ----- the joined machine

  /** What the environment does to one call of Process. */
  datatype Fate = Fate(reserve: Outcome, confirmed: bool, submit: Outcome)

  datatype Happening =
    | Called(op: Gifts.Op, fates: seq<Fate>)
    | CutShort(op: Gifts.Op, fates: seq<Fate>, done: nat, kept: seq<Cell>)
    | TestGift(c: Collect.Celebration, fate: Fate)
    | OtherEvent(id: string, fate: Fate)
    | Died(kept: seq<Cell>)
    | Restarted

  /** `ops` are the calls the current collector has seen; `shown` the celebrations that reached the
      printer, over the lives of all collectors. */
  datatype Appliance = Appliance(ops: seq<Gifts.Op>, w: World, shown: seq<Collect.Celebration>)

  function ActionsOf(id: string, f: Fate): (actions: seq<Action>)
    ensures |actions| <= 3
  {
    ProcessActions(true, id, f.reserve, f.confirmed, f.submit)
  }

  function Least(a: nat, b: nat): nat { if a < b then a else b }

  function FirstFate(fates: seq<Fate>): Fate
  {
    if fates == [] then Fate(Failed(Nothing), false, Failed(Nothing)) else fates[0]
  }

  function LaterFates(fates: seq<Fate>): seq<Fate> { if fates == [] then [] else fates[1..] }

  /** The celebrations of one call through Process in turn, for at most `budget` actions; `fates`
      beyond the list are failing reservations. Those that reach the printer join `shown`. */
  function Handled(w: World, cs: seq<Collect.Celebration>, fates: seq<Fate>, budget: nat, shown: seq<Collect.Celebration>):
    (World, seq<Collect.Celebration>)
    decreases cs
  {
    if cs == [] then (w, shown)
    else
      var actions := ActionsOf(GiftKey(cs[0].communityID), FirstFate(fates));
      var k := Least(budget, |actions|);
      var x := DoAll(w, actions[..k]);
      Handled(x, cs[1..], LaterFates(fates), budget - k, shown + Printed(w, x, cs[0]))
  }

  /** The celebration, if anything was printed between w and x. */
  function Printed(w: World, x: World, c: Collect.Celebration): seq<Collect.Celebration>
  {
    if |x.prints| > |w.prints| then [c] else []
  }

  function Emits(window: int, a: Appliance, op: Gifts.Op): seq<Collect.Celebration>
  {
    Gifts.Step(Gifts.Run(window, a.ops).0, op).1
  }

  function Next(window: int, a: Appliance, h: Happening): Appliance
  {
    match h
    case Called(op, fates) =>
      if !a.w.live then a else
      var cs := Emits(window, a, op);
      var (w, shown) := Handled(a.w, cs, fates, 3 * |cs|, a.shown);
      Appliance(a.ops + [op], w, shown)
    case CutShort(op, fates, done, kept) =>
      if !a.w.live then a else
      var (w, shown) := Handled(a.w, Emits(window, a, op), fates, done, a.shown);
      Appliance([], Do(w, Crash(kept)), shown)
    case TestGift(c, fate) =>
      if !a.w.live then a else
      var (w, shown) := Handled(a.w, [c], [fate], 3, a.shown);
      a.(w := w, shown := shown)
    case OtherEvent(id, fate) =>
      if !a.w.live then a else a.(w := DoAll(a.w, ActionsOf(id, fate)))
    case Died(kept) => a.(ops := [], w := Do(a.w, Crash(kept)))
    case Restarted => if a.w.live then a else a.(ops := [], w := Do(a.w, Start))
  }

  function Life(window: int, hs: seq<Happening>): Appliance
  {
    if hs == [] then Appliance([], FRESH, [])
    else Next(window, Life(window, hs[..|hs| - 1]), hs[|hs| - 1])
  }

  // ----- one event through Process

  /** Nothing is under way. */
  ghost predicate Idle(w: World) { Inv(w) && w.live && w.flight == [] }

  /** Processing an event prints it at most, and only when it was neither printed nor known before. */
  lemma PartOfProcess(w: World, id: string, f: Fate, k: nat)
    requires Idle(w) && k <= |ActionsOf(id, f)|
    ensures var x := DoAll(w, ActionsOf(id, f)[..k]);
            && Inv(x) && x.live
            && (x.prints == w.prints || (x.prints == w.prints + [id] && id !in w.prints && id !in w.seen))
            && (k == |ActionsOf(id, f)| ==> x.flight == [])
  {
    hide Inv;
    var acts := ActionsOf(id, f);
    var w1 := Do(w, Reserve(id, f.reserve));
    var w2 := Do(w1, Print(0, f.confirmed));
    var w3 := Do(w2, Submit(0, f.submit));
    Prefixes(w, acts);
    Chain(w, Reserve(id, f.reserve), Print(0, f.confirmed), Submit(0, f.submit));
    StepKeeps(w, Reserve(id, f.reserve));
    StepKeeps(w1, Print(0, f.confirmed));
    StepKeeps(w2, Submit(0, f.submit));
    ThreeSteps(w, id, f);
  }

  lemma Prefixes(w: World, acts: seq<Action>)
    ensures acts[..|acts|] == acts
    ensures DoAll(w, acts[..0]) == w
    ensures |acts| >= 1 ==> DoAll(w, acts[..1]) == Do(w, acts[0])
    ensures |acts| >= 2 ==> DoAll(w, acts[..2]) == Do(Do(w, acts[0]), acts[1])
  {
    hide Do;
    if |acts| >= 1 {
      assert acts[..1][1..] == [];
    }
    if |acts| >= 2 {
      DoTwo(w, acts[0], acts[1]);
      assert acts[..2] == [acts[0], acts[1]];
    }
  }

  lemma ThreeSteps(w: World, id: string, f: Fate)
    requires w.live && w.flight == []
    requires Inv(Do(Do(w, Reserve(id, f.reserve)), Print(0, f.confirmed)))
    ensures var w1 := Do(w, Reserve(id, f.reserve));
            var w2 := Do(w1, Print(0, f.confirmed));
            var w3 := Do(w2, Submit(0, f.submit));
            && w1.live && w2.live && w3.live
            && w1.prints == w.prints && w3.prints == w2.prints
            && (w2.prints == w.prints || (w2.prints == w.prints + [id] && id !in w.prints && id !in w.seen))
            && (!f.confirmed ==> w2.flight == []) && w3.flight == []
            && (w2.prints == w.prints + [id] <==> id != "" && id !in w.seen && f.reserve.Synced?)
  {
    hide Durable, DistinctTasks, AppendTo;
    var e := Entry(id, Reserved);
    AppendFields(w, e, f.reserve);
    var w1 := Do(w, Reserve(id, f.reserve));
    var w2 := Do(w1, Print(0, f.confirmed));
    if w2.prints == w.prints + [id] {
      NoDupParts(w.prints, [id]);
      assert id in [id];
    }
    AppendFields(w2, Entry(id, Submitted), f.submit);
  }

  lemma AppendFields(w: World, e: Entry, outcome: Outcome)
    ensures var x := AppendTo(w, e, outcome);
            x.live == w.live && x.seen == w.seen && x.flight == w.flight && x.prints == w.prints
  {
  }

  // ----- no gift is shown twice

  /** What is shown was printed under its own key, each community once. */
  ghost predicate ShownOk(shown: seq<Collect.Celebration>, w: World)
  {
    NoDup(Gifts.Ids(shown)) && forall id :: id in Gifts.Ids(shown) ==> GiftKey(id) in w.prints
  }

  lemma ShowOne(shown: seq<Collect.Celebration>, w: World, x: World, c: Collect.Celebration)
    requires ShownOk(shown, w)
    requires x.prints == w.prints + [GiftKey(c.communityID)] && GiftKey(c.communityID) !in w.prints
    ensures ShownOk(shown + [c], x)
  {
    hide GiftKey;
    Gifts.IdsConcat(shown, [c]);
    Gifts.OneId(c);
    NoDupConcat(Gifts.Ids(shown), [c.communityID]);
  }

  /** One celebration, for k of its actions. */
  lemma OneKeeps(w: World, c: Collect.Celebration, f: Fate, k: nat, shown: seq<Collect.Celebration>)
    requires Idle(w) && ShownOk(shown, w) && k <= |ActionsOf(GiftKey(c.communityID), f)|
    ensures var acts := ActionsOf(GiftKey(c.communityID), f); var x := DoAll(w, acts[..k]);
            && Inv(x) && x.live && ShownOk(shown + Printed(w, x, c), x) && (k == |acts| ==> Idle(x))
  {
    hide Inv, ShownOk, GiftKey, DoAll;
    var key := GiftKey(c.communityID);
    var x := DoAll(w, ActionsOf(key, f)[..k]);
    PartOfProcess(w, key, f, k);
    if |x.prints| > |w.prints| {
      ShowOne(shown, w, x, c);
    } else {
      SamePrints(shown, w, x);
      assert shown + [] == shown;
    }
  }

  lemma {:induction false} HandledKeeps(w: World, cs: seq<Collect.Celebration>, fates: seq<Fate>, budget: nat,
                                        shown: seq<Collect.Celebration>)
    requires Idle(w) && ShownOk(shown, w)
    ensures var (y, out) := Handled(w, cs, fates, budget, shown);
            && Inv(y) && ShownOk(out, y)
            && (forall c :: c in out ==> c in shown || c in cs)
            && (budget >= 3 * |cs| ==> Idle(y))
    decreases cs
  {
    if cs != [] {
      hide Inv, ShownOk, GiftKey, Idle, DoAll, ActionsOf;
      var actions := ActionsOf(GiftKey(cs[0].communityID), FirstFate(fates));
      var k := Least(budget, |actions|);
      var x := DoAll(w, actions[..k]);
      var next := shown + Printed(w, x, cs[0]);
      OneKeeps(w, cs[0], FirstFate(fates), k, shown);
      if k == |actions| {
        HandledKeeps(x, cs[1..], LaterFates(fates), budget - k, next);
      } else {
        NoBudget(x, cs[1..], LaterFates(fates), next);
      }
    }
  }

  lemma SamePrints(shown: seq<Collect.Celebration>, w: World, x: World)
    requires ShownOk(shown, w) && x.prints == w.prints
    ensures ShownOk(shown, x)
  {
  }

  lemma {:induction false} NoBudget(w: World, cs: seq<Collect.Celebration>, fates: seq<Fate>, shown: seq<Collect.Celebration>)
    ensures Handled(w, cs, fates, 0, shown) == (w, shown)
    decreases cs
  {
    if cs != [] {
      hide GiftKey, ActionsOf;
      assert ActionsOf(GiftKey(cs[0].communityID), FirstFate(fates))[..0] == [];
      assert shown + [] == shown;
      NoBudget(w, cs[1..], LaterFates(fates), shown);
    }
  }

  ghost predicate Sound(a: Appliance)
  {
    Inv(a.w) && ShownOk(a.shown, a.w) && (a.w.live ==> a.w.flight == [])
  }

  lemma NextKeeps(window: int, a: Appliance, h: Happening)
    requires Sound(a)
    ensures Sound(Next(window, a, h))
  {
    hide Inv, ShownOk, Handled, DoAll, Emits;
    match h
    case Called(op, fates) =>
      if a.w.live {
        HandledKeeps(a.w, Emits(window, a, op), fates, 3 * |Emits(window, a, op)|, a.shown);
      }
    case CutShort(op, fates, done, kept) =>
      if a.w.live {
        HandledKeeps(a.w, Emits(window, a, op), fates, done, a.shown);
        var (w, shown) := Handled(a.w, Emits(window, a, op), fates, done, a.shown);
        CrashOrStart(w, Crash(kept), shown);
      }
    case TestGift(c, fate) =>
      if a.w.live {
        HandledKeeps(a.w, [c], [fate], 3, a.shown);
      }
    case OtherEvent(id, fate) =>
      if a.w.live {
        var n := |ActionsOf(id, fate)|;
        assert ActionsOf(id, fate)[..n] == ActionsOf(id, fate);
        PartOfProcess(a.w, id, fate, n);
        MorePrints(a.shown, a.w, DoAll(a.w, ActionsOf(id, fate)));
      }
    case Died(kept) => CrashOrStart(a.w, Crash(kept), a.shown);
    case Restarted =>
      if !a.w.live {
        CrashOrStart(a.w, Start, a.shown);
      }
  }

  lemma CrashOrStart(w: World, action: Action, shown: seq<Collect.Celebration>)
    requires Inv(w) && ShownOk(shown, w) && (action.Crash? || (action.Start? && !w.live))
    ensures var x := Do(w, action); Inv(x) && ShownOk(shown, x) && (x.live ==> x.flight == [])
  {
    StepKeeps(w, action);
    hide Durable, DistinctTasks, ShownOk, Reopened;
    SamePrints(shown, w, Do(w, action));
    assert Inv(w);
  }

  lemma MorePrints(shown: seq<Collect.Celebration>, w: World, x: World)
    requires ShownOk(shown, w) && w.prints <= x.prints
    ensures ShownOk(shown, x)
  {
    hide GiftKey;
  }

  lemma {:induction false} LifeSound(window: int, hs: seq<Happening>)
    ensures Sound(Life(window, hs))
  {
    if hs != [] {
      hide Next, Sound;
      LifeSound(window, hs[..|hs| - 1]);
      NextKeeps(window, Life(window, hs[..|hs| - 1]), hs[|hs| - 1]);
    } else {
      RunKeeps([]);
      assert Gifts.Ids([]) == [];
    }
  }

  /** Over any life of the appliance, with the collector lost at every crash and communities emitted
      again by the next one, no gift community reaches the printer twice. */
  lemma GiftPrintedAtMostOnce(window: int, hs: seq<Happening>)
    ensures NoDup(Gifts.Ids(Life(window, hs).shown))
  {
    hide Life, Inv;
    LifeSound(window, hs);
  }

  /** Whatever a collector call puts on the printer lists exactly the distinct recipients that this
      collector has accepted for the community since its entry opened. */
  lemma ShownListsRecipients(window: int, hs: seq<Happening>, h: Happening, c: Collect.Celebration)
    requires Life(window, hs).w.live && (h.Called? || h.CutShort?)
    requires c in Next(window, Life(window, hs), h).shown && c !in Life(window, hs).shown
    ensures var log := Gifts.Log(window, Life(window, hs).ops + [h.op]);
            && c.communityID in log
            && c.recipients == Gifts.Listed(log[c.communityID])
            && c.total > 0
            && c.missing == if c.total > |c.recipients| then c.total - |c.recipients| else 0
  {
    hide Life, Sound, Inv, ShownOk, Handled, DoAll, Gifts.Run, Gifts.Step, Gifts.Log, Gifts.Listed;
    var a := Life(window, hs);
    var cs := Emits(window, a, h.op);
    LifeSound(window, hs);
    SoundIsIdle(a);
    HandledKeeps(a.w, cs, h.fates, if h.Called? then 3 * |cs| else h.done, a.shown);
    assert c in cs;
    Gifts.CelebrationListsRecipients(window, a.ops, h.op, c);
  }

  lemma SoundIsIdle(a: Appliance)
    requires Sound(a) && a.w.live
    ensures Idle(a.w) && ShownOk(a.shown, a.w)
  {
  }

  // ----- no gift is held back by another one

  /** Every id the process takes for known stands in the file. */
  ghost predicate SeenRecorded(w: World)
  {
    w.live ==> forall id :: id in w.seen ==> exists stage :: Record(Entry(id, stage)) in w.cells
  }

  lemma {:induction false} LineCells(cells: seq<Cell>, cur: seq<Cell>, k: nat, c: Cell)
    requires k < |Lines(cells, cur)| && c in Lines(cells, cur)[k]
    ensures c in cells || c in cur
    decreases cells
  {
    if cells != [] {
      if cells[0].LineEnd? {
        if k > 0 {
          assert Lines(cells, cur)[k] == Lines(cells[1..], [])[k - 1];
          LineCells(cells[1..], [], k - 1, c);
        }
      } else {
        LineCells(cells[1..], cur + [cells[0]], k, c);
      }
    }
  }

  lemma {:induction false} ReplayedLine(lines: seq<seq<Cell>>, id: string) returns (k: nat)
    requires Replay(lines).Ok? && id in Replay(lines).value
    ensures k < |lines| && LineOk(lines[k]) && lines[k][0].e.id == id
    decreases |lines|
  {
    var n := |lines| - 1;
    if lines[n][0].e.id == id {
      k := n;
    } else {
      k := ReplayedLine(lines[..n], id);
    }
  }

  lemma StartRecords(w: World)
    requires !w.live
    ensures SeenRecorded(Do(w, Start))
  {
    if Reopened(w.cells).Ok? {
      forall id | id in Reopened(w.cells).value
        ensures exists stage :: Record(Entry(id, stage)) in w.cells
      {
        var lines := Lines(w.cells, []);
        var k := ReplayedLine(lines, id);
        LineCells(w.cells, [], k, lines[k][0]);
        assert lines[k][0] == Record(Entry(id, lines[k][0].e.stage));
      }
    }
  }

  lemma StepRecords(w: World, action: Action)
    requires SeenRecorded(w)
    ensures SeenRecorded(Do(w, action))
  {
    match action
    case Start =>
      if !w.live {
        StartRecords(w);
      }
    case Reserve(id, outcome) =>
      hide Reopened;
      assert outcome.Synced? ==> Record(Entry(id, Reserved)) in AppendTo(w, Entry(id, Reserved), outcome).cells;
      assert forall c :: c in w.cells ==> c in AppendTo(w, Entry(id, Reserved), outcome).cells;
    case Submit(i, outcome) =>
      hide Reopened;
      if i < |w.flight| {
        assert forall c :: c in w.cells ==> c in AppendTo(w, Entry(w.flight[i].id, Submitted), outcome).cells;
      }
    case _ =>
      hide Reopened;
  }

  lemma {:induction false} DoAllRecords(w: World, actions: seq<Action>)
    requires SeenRecorded(w)
    ensures SeenRecorded(DoAll(w, actions))
    decreases actions
  {
    if actions != [] {
      hide Do, SeenRecorded;
      StepRecords(w, actions[0]);
      DoAllRecords(Do(w, actions[0]), actions[1..]);
    }
  }

  lemma {:induction false} HandledRecords(w: World, cs: seq<Collect.Celebration>, fates: seq<Fate>, budget: nat,
                                          shown: seq<Collect.Celebration>)
    requires SeenRecorded(w)
    ensures SeenRecorded(Handled(w, cs, fates, budget, shown).0)
    decreases cs
  {
    if cs != [] {
      hide SeenRecorded, GiftKey, DoAll, ActionsOf;
      var acts := ActionsOf(GiftKey(cs[0].communityID), FirstFate(fates));
      var k := Least(budget, |acts|);
      var x := DoAll(w, acts[..k]);
      DoAllRecords(w, acts[..k]);
      HandledRecords(x, cs[1..], LaterFates(fates), budget - k, shown + Printed(w, x, cs[0]));
    }
  }

  lemma {:induction false} LifeRecords(window: int, hs: seq<Happening>)
    ensures SeenRecorded(Life(window, hs).w)
  {
    if hs != [] {
      hide SeenRecorded, Handled, DoAll, Do, Emits;
      var a, h := Life(window, hs[..|hs| - 1]), hs[|hs| - 1];
      LifeRecords(window, hs[..|hs| - 1]);
      match h
      case Called(op, fates) => HandledRecords(a.w, Emits(window, a, op), fates, 3 * |Emits(window, a, op)|, a.shown);
      case CutShort(op, fates, done, kept) =>
        HandledRecords(a.w, Emits(window, a, op), fates, done, a.shown);
        StepRecords(Handled(a.w, Emits(window, a, op), fates, done, a.shown).0, Crash(kept));
      case TestGift(c, fate) => HandledRecords(a.w, [c], [fate], 3, a.shown);
      case OtherEvent(id, fate) => DoAllRecords(a.w, ActionsOf(id, fate));
      case Died(kept) => StepRecords(a.w, Crash(kept));
      case Restarted => StepRecords(a.w, Start);
    }
  }

  /** A celebration that a running process handles is printed exactly when its reservation is synced
      and its own journal id is not among those the process knows. */
  lemma PrintedExactly(window: int, hs: seq<Happening>, c: Collect.Celebration, fate: Fate)
    requires Life(window, hs).w.live
    ensures var a := Life(window, hs);
            Handled(a.w, [c], [fate], 3, a.shown).1
            == a.shown + if fate.reserve.Synced? && GiftKey(c.communityID) !in a.w.seen then [c] else []
  {
    hide Life, Inv, GiftKey, DoAll;
    var w := Life(window, hs).w;
    var key := GiftKey(c.communityID);
    GiftKeyPresent(c.communityID);
    LifeSound(window, hs);
    PrintsOf(w, key, fate);
    assert [c][1..] == [];
    var n := |ActionsOf(key, fate)|;
    assert ActionsOf(key, fate)[..n] == ActionsOf(key, fate);
  }

  /** What processing an event adds to the prints. */
  lemma PrintsOf(w: World, id: string, f: Fate)
    requires Idle(w)
    ensures DoAll(w, ActionsOf(id, f)).prints
            == w.prints + if id != "" && id !in w.seen && f.reserve.Synced? then [id] else []
  {
    hide Inv;
    var w1 := Do(w, Reserve(id, f.reserve));
    var w2 := Do(w1, Print(0, f.confirmed));
    Chain(w, Reserve(id, f.reserve), Print(0, f.confirmed), Submit(0, f.submit));
    StepKeeps(w, Reserve(id, f.reserve));
    StepKeeps(w1, Print(0, f.confirmed));
    ThreeSteps(w, id, f);
    assert w.prints + [] == w.prints;
  }

  /** A gift with a synced reservation is printed unless the file already holds a record of that very
      community. */
  lemma NotHeldBack(window: int, hs: seq<Happening>, c: Collect.Celebration, fate: Fate)
    requires Life(window, hs).w.live && fate.reserve.Synced?
    requires forall e :: Record(e) in Life(window, hs).w.cells ==> e.id != GiftKey(c.communityID)
    ensures Handled(Life(window, hs).w, [c], [fate], 3, Life(window, hs).shown).1 == Life(window, hs).shown + [c]
  {
    hide Life, GiftKey, Handled;
    LifeRecords(window, hs);
    PrintedExactly(window, hs, c, fate);
  }

  /** Records of other communities, and records of cheers and raids, whose ids are the key of no
      community at all, never hold a gift back. */
  lemma OthersNeverHoldBack(window: int, hs: seq<Happening>, c: Collect.Celebration, fate: Fate)
    requires Life(window, hs).w.live && fate.reserve.Synced?
    requires forall e :: Record(e) in Life(window, hs).w.cells ==>
               || (exists other :: other != c.communityID && e.id == GiftKey(other))
               || (forall community :: e.id != GiftKey(community))
    ensures Handled(Life(window, hs).w, [c], [fate], 3, Life(window, hs).shown).1 == Life(window, hs).shown + [c]
  {
    hide Life, GiftKey, Handled;
    forall e | Record(e) in Life(window, hs).w.cells
      ensures e.id != GiftKey(c.communityID)
    {
      if other :| other != c.communityID && e.id == GiftKey(other) {
        if GiftKey(c.communityID) == GiftKey(other) {
          GiftKeyInjective(c.communityID, other);
        }
      }
    }
    NotHeldBack(window, hs, c, fate);
  }

  // ----- the appliance's journal is a run of the journal machine

  lemma {:induction false} DoAllConcat(w: World, a: seq<Action>, b: seq<Action>)
    ensures DoAll(w, a + b) == DoAll(DoAll(w, a), b)
    decreases a
  {
    if a == [] {
      assert a + b == b;
    } else {
      hide Do;
      assert (a + b)[1..] == a[1..] + b;
      DoAllConcat(Do(w, a[0]), a[1..], b);
    }
  }

  lemma {:induction false} HandledIsRun(w: World, cs: seq<Collect.Celebration>, fates: seq<Fate>, budget: nat,
                                        shown: seq<Collect.Celebration>) returns (acts: seq<Action>)
    ensures DoAll(w, acts) == Handled(w, cs, fates, budget, shown).0
    decreases cs
  {
    if cs == [] {
      acts := [];
    } else {
      hide GiftKey, DoAll, ActionsOf;
      var actions := ActionsOf(GiftKey(cs[0].communityID), FirstFate(fates));
      var k := Least(budget, |actions|);
      var x := DoAll(w, actions[..k]);
      var rest := HandledIsRun(x, cs[1..], LaterFates(fates), budget - k, shown + Printed(w, x, cs[0]));
      acts := actions[..k] + rest;
      DoAllConcat(w, actions[..k], rest);
    }
  }

  lemma OneAction(w: World, action: Action)
    ensures DoAll(w, [action]) == Do(w, action)
  {
    hide Do;
    assert [action][1..] == [];
    assert DoAll(Do(w, action), []) == Do(w, action);
  }

  /** What one happening does to the journal machine. */
  lemma NextIsRun(window: int, a: Appliance, h: Happening) returns (acts: seq<Action>)
    ensures DoAll(a.w, acts) == Next(window, a, h).w
  {
    hide Do, Handled, ActionsOf, Emits;
    acts := [];
    assert DoAll(a.w, []) == a.w;
    match h
    case Called(op, fates) =>
      if a.w.live {
        acts := HandledIsRun(a.w, Emits(window, a, op), fates, 3 * |Emits(window, a, op)|, a.shown);
      }
    case CutShort(op, fates, done, kept) =>
      if a.w.live {
        acts := HandledIsRun(a.w, Emits(window, a, op), fates, done, a.shown);
        DoAllConcat(a.w, acts, [Crash(kept)]);
        OneAction(DoAll(a.w, acts), Crash(kept));
        acts := acts + [Crash(kept)];
      }
    case TestGift(c, fate) =>
      if a.w.live {
        acts := HandledIsRun(a.w, [c], [fate], 3, a.shown);
      }
    case OtherEvent(id, fate) =>
      if a.w.live {
        acts := ActionsOf(id, fate);
      }
    case Died(kept) =>
      acts := [Crash(kept)];
      OneAction(a.w, Crash(kept));
    case Restarted =>
      if !a.w.live {
        acts := [Start];
        OneAction(a.w, Start);
      }
  }

  /** Every life of the appliance is a run of the journal machine, so whatever holds of those runs
      holds of its journal and its printer. */
  lemma {:induction false} LifeIsRun(window: int, hs: seq<Happening>) returns (acts: seq<Action>)
    ensures After(acts) == Life(window, hs).w
  {
    if hs == [] {
      acts := [];
    } else {
      hide After, Next, DoAll;
      var before := LifeIsRun(window, hs[..|hs| - 1]);
      var more := NextIsRun(window, Life(window, hs[..|hs| - 1]), hs[|hs| - 1]);
      acts := before + more;
      AfterAll(before, more);
    }
  }

  /** Every gift that was printed has its own reservation in the synced part of the file. */
  lemma ShownIsReserved(window: int, hs: seq<Happening>)
    ensures forall id :: id in Gifts.Ids(Life(window, hs).shown) ==> Durable(Life(window, hs).w, GiftKey(id))
  {
    hide Life, Inv, Durable;
    LifeSound(window, hs);
    PrintsDurable(Life(window, hs).w);
  }

  /** And it was there before the gift was printed: whatever a happening prints was done by a step of
      its run that found the reservation synced. */
  lemma ReservedBeforeShown(window: int, hs: seq<Happening>, h: Happening, id: string)
    returns (before: seq<Action>, action: Action, later: seq<Action>)
    requires id !in Life(window, hs).w.prints && id in Life(window, hs + [h]).w.prints
    ensures After(before + [action] + later) == Life(window, hs + [h]).w
    ensures id !in After(before).prints && id in Do(After(before), action).prints && Durable(After(before), id)
  {
    hide Life, After, Do, DoAll, Next, Durable, Inv;
    var acts := LifeIsRun(window, hs);
    var more := NextIsRun(window, Life(window, hs), h);
    LifeLast(window, hs, h);
    AfterAll(acts, more);
    var k := FirstPrint(acts, more, id);
    before, action, later := acts + more[..k], more[k], more[k + 1..];
    assert before + [action] + later == acts + more;
    AfterLast(before, action);
    RunKeeps(before);
    PrintIsReserved(After(before), action);
    NewPrint(After(before), Do(After(before), action), id);
  }

  lemma LifeLast(window: int, hs: seq<Happening>, h: Happening)
    ensures Life(window, hs + [h]) == Next(window, Life(window, hs), h)
  {
    hide Next;
    assert (hs + [h])[..|hs|] == hs;
  }

  /** The first of some actions after which id is printed. */
  lemma {:induction false} FirstPrint(acts: seq<Action>, more: seq<Action>, id: string) returns (k: nat)
    requires id !in After(acts).prints && id in After(acts + more).prints
    ensures k < |more| && id !in After(acts + more[..k]).prints && id in After(acts + more[..k] + [more[k]]).prints
    decreases |more|
  {
    hide After;
    assert more == [] ==> acts + more == acts;
    var n := |more| - 1;
    assert acts + more[..n] + [more[n]] == acts + more;
    if id in After(acts + more[..n]).prints {
      k := FirstPrint(acts, more[..n], id);
      assert more[..n][..k] == more[..k];
    } else {
      k := n;
    }
  }

  lemma NewPrint(w: World, x: World, id: string)
    requires w.prints <= x.prints && id !in w.prints && id in x.prints
    requires forall k :: |w.prints| <= k < |x.prints| ==> Durable(w, x.prints[k])
    ensures Durable(w, id)
  {
    hide Durable;
    assert forall j :: 0 <= j < |w.prints| ==> w.prints[j] == x.prints[j] && w.prints[j] in w.prints;
    var k :| 0 <= k < |x.prints| && x.prints[k] == id;
  }
}
