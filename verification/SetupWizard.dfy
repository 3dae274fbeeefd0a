/**
  The set-up wizard's checkpoints when requests run concurrently. A request loads the saved
  checkpoints, checks and calls the helper on its own copy, and saves that copy over whatever is
  there by then; nothing locks the file in between.
 */
module SetupWizard {

  datatype Checkpoint = Welcome | Network | Printer | Twitch | EventSub | Preview | PhysicalAttempted | Complete

  /** What must have been verified before a checkpoint. */
  function Needs(c: Checkpoint): set<Checkpoint>
  {
    match c
    case Welcome => {}
    case Network => {Welcome}
    case Printer => {Network}
    case Twitch => {Printer}
    case EventSub => {Twitch}
    case Preview => {Printer}
    case PhysicalAttempted => {Preview}
    case Complete => {Twitch, EventSub, Preview}
  }

  predicate Closed(s: set<Checkpoint>)
  {
    forall c :: c in s ==> Needs(c) <= s
  }

  // ----- the state file

  datatype SaveOutcome = Saved | FailedBefore | FailedAfter

  /** A loaded state: checkpoints with the instant they were completed, 0 being the zero time. */
  class SetupState {
    var checkpoints: map<Checkpoint, int>
    var updatedAt: int

    constructor (checkpoints: map<Checkpoint, int>)
      ensures this.checkpoints == checkpoints && updatedAt == 0
    {
      this.checkpoints, updatedAt := checkpoints, 0;
    }

    predicate Completed(c: Checkpoint)
      reads this
    {
      c in checkpoints
    }

    method MarkComplete(c: Checkpoint, at: int) returns (ok: bool)
      modifies this
      ensures ok == (at != 0)
      ensures checkpoints == if ok then old(checkpoints)[c := at] else old(checkpoints)
      ensures checkpoints.Keys == if ok then old(checkpoints).Keys + {c} else old(checkpoints).Keys
      ensures updatedAt == if ok then at else old(updatedAt)
    {
      if at == 0 {
        return false;
      }
      checkpoints := checkpoints[c := at];
      updatedAt := at;
      return true;
    }
  }

  class Store {
    var saved: map<Checkpoint, int>

    constructor ()
      ensures saved == map[]
    {
      saved := map[];
    }

    method Load() returns (s: SetupState)
      ensures fresh(s) && s.checkpoints == saved
    {
      s := new SetupState(saved);
    }

    /** Write a temporary file and rename it over the old one: the file changes as a whole or not at
        all; an error reported after the rename leaves the new content. */
    method Save(s: SetupState, outcome: SaveOutcome) returns (ok: bool)
      modifies this
      ensures ok == outcome.Saved?
      ensures saved == if outcome.FailedBefore? then old(saved) else s.checkpoints
    {
      if outcome.FailedBefore? {
        return false;
      }
      saved := s.checkpoints;
      return outcome.Saved?;
    }
  }

  // ----- requests as steps

  datatype Action = Home | DoWelcome | DoNetwork | DoPrinter | TwitchStart | TwitchPoll | DoEventSub | DoPreview | PhysicalTest | DoComplete

  /** The checkpoints a handler asks for before it goes on. */
  function Guard(a: Action): set<Checkpoint>
  {
    match a
    case Home => {}
    case DoWelcome => {}
    case DoNetwork => {Welcome}
    case DoPrinter => {Network}
    case TwitchStart => {Printer}
    case TwitchPoll => {Printer}
    case DoEventSub => {Twitch}
    case DoPreview => {Printer}
    case PhysicalTest => {Preview}
    case DoComplete => {Twitch, EventSub, Preview}
  }

  /** The checkpoints a handler adds to its copy when its operation is verified. */
  function Adds(a: Action, snap: set<Checkpoint>, verified: bool): set<Checkpoint>
  {
    match a
    case Home => if verified && Network !in snap then {Welcome, Network} else {Welcome}
    case DoWelcome => {Welcome}
    case DoNetwork => if verified then {Network} else {}
    case DoPrinter => if verified then {Printer} else {}
    case TwitchStart => {}
    case TwitchPoll => if verified then {Twitch} else {}
    case DoEventSub => if verified then {EventSub} else {}
    case DoPreview => if verified then {Preview} else {}
    case PhysicalTest => if verified then {PhysicalAttempted} else {}
    case DoComplete => {Complete}
  }

  datatype Request =
    | Arrived(a: Action)
    | Loaded(a: Action, snap: set<Checkpoint>)
    | Saving(a: Action, next: set<Checkpoint>)
    | AskingToPrint
    | MarkerHeld
    | Finished

  /** `marker` is the helper's exclusively created attempt file; `runs` counts runs of the physical
      print command. */
  datatype World = World(saved: set<Checkpoint>, requests: seq<Request>, marker: bool, runs: nat)

  datatype MarkerOutcome = NotCreated | CreatedThenFailed | Created

  datatype Step =
    | Arrive(a: Action)
    | HelperCall
    | Load(i: nat, ok: bool)
    | Decide(i: nat, verified: bool)
    | Save(i: nat, outcome: SaveOutcome)
    | Reserve(i: nat, created: MarkerOutcome)
    | RunCommand(i: nat)
    | Restart

  function Put(w: World, i: nat, r: Request): World
    requires i < |w.requests|
  {
    w.(requests := w.requests[i := r])
  }

  function Decided(a: Action, snap: set<Checkpoint>, verified: bool): Request
  {
    if !(Guard(a) <= snap) || (a.PhysicalTest? && PhysicalAttempted in snap) then Finished
    else if Adds(a, snap, verified) <= (if a.Home? then snap else {}) then Finished
    else Saving(a, snap + Adds(a, snap, verified))
  }

  /** The body of a handler between load and save: its checks on the loaded copy, its verified
      operation, and the checkpoint it marks. `verified` is what the helper or Twitch answered and,
      for the physical test, the confirmation; `at` is the clock, and at the zero time nothing is
      marked or saved. */
  method Handle(st: SetupState, a: Action, verified: bool, at: int) returns (save: bool)
    modifies st
    ensures var d := Decided(a, old(st.checkpoints.Keys), verified);
            save == (d.Saving? && at != 0) && (save ==> st.checkpoints.Keys == d.next)
    ensures !save ==> st.checkpoints == old(st.checkpoints)
    ensures forall c :: c in st.checkpoints ==>
              st.checkpoints[c] == at || (c in old(st.checkpoints) && st.checkpoints[c] == old(st.checkpoints)[c])
  {
    match a
    case Home =>
      var changed := false;
      if !st.Completed(Welcome) {
        var ok := st.MarkComplete(Welcome, at);
        if !ok {
          return false;
        }
        changed := true;
      }
      if !st.Completed(Network) && verified {
        var ok := st.MarkComplete(Network, at);
        if !ok {
          return false;
        }
        changed := true;
      }
      return changed;
    case DoWelcome =>
      save := st.MarkComplete(Welcome, at);
    case DoNetwork =>
      if !st.Completed(Welcome) || !verified {
        return false;
      }
      save := st.MarkComplete(Network, at);
    case DoPrinter =>
      if !st.Completed(Network) || !verified {
        return false;
      }
      save := st.MarkComplete(Printer, at);
    case TwitchStart =>
      return false;
    case TwitchPoll =>
      if !st.Completed(Printer) || !verified {
        return false;
      }
      save := st.MarkComplete(Twitch, at);
    case DoEventSub =>
      if !st.Completed(Twitch) || !verified {
        return false;
      }
      save := st.MarkComplete(EventSub, at);
    case DoPreview =>
      if !st.Completed(Printer) || !verified {
        return false;
      }
      save := st.MarkComplete(Preview, at);
    case PhysicalTest =>
      if !st.Completed(Preview) || st.Completed(PhysicalAttempted) || !verified {
        return false;
      }
      save := st.MarkComplete(PhysicalAttempted, at);
    case DoComplete =>
      if !st.Completed(Twitch) || !st.Completed(EventSub) || !st.Completed(Preview) {
        return false;
      }
      save := st.MarkComplete(Complete, at);
  }

  function Do(w: World, s: Step): World
  {
    match s
    case Arrive(a) => w.(requests := w.requests + [Arrived(a)])
    case HelperCall => w.(requests := w.requests + [AskingToPrint])
    case Restart => w.(requests := [])
    case Load(i, ok) =>
      if i < |w.requests| && w.requests[i].Arrived?
      then Put(w, i, if ok then Loaded(w.requests[i].a, w.saved) else Finished) else w
    case Decide(i, verified) =>
      if i < |w.requests| && w.requests[i].Loaded?
      then Put(w, i, Decided(w.requests[i].a, w.requests[i].snap, verified)) else w
    case Save(i, outcome) =>
      if i < |w.requests| && w.requests[i].Saving? then
        var r := w.requests[i];
        var x := Put(w, i, if outcome.Saved? && r.a.PhysicalTest? then AskingToPrint else Finished);
        if outcome.FailedBefore? then x else x.(saved := r.next)
      else w
    case Reserve(i, created) =>
      if i < |w.requests| && w.requests[i].AskingToPrint? then
        if w.marker || created.NotCreated? then Put(w, i, Finished)
        else Put(w, i, if created.Created? then MarkerHeld else Finished).(marker := true)
      else w
    case RunCommand(i) =>
      if i < |w.requests| && w.requests[i].MarkerHeld?
      then Put(w, i, Finished).(runs := w.runs + 1) else w
  }

  const FRESH := World({}, [], false, 0)

  function Runs(w: World, steps: seq<Step>): World
    decreases |steps|
  {
    if steps == [] then w else Do(Runs(w, steps[..|steps| - 1]), steps[|steps| - 1])
  }

  function After(steps: seq<Step>): World { Runs(FRESH, steps) }

  // ----- invariants

  ghost predicate RequestOk(r: Request)
  {
    match r
    case Loaded(_, snap) => Closed(snap)
    case Saving(_, next) => Closed(next)
    case _ => true
  }

  function Holders(rs: seq<Request>): nat
  {
    if rs == [] then 0
    else Holders(rs[..|rs| - 1]) + if rs[|rs| - 1].MarkerHeld? then 1 else 0
  }

  ghost predicate Inv(w: World)
  {
    && Closed(w.saved)
    && (forall r :: r in w.requests ==> RequestOk(r))
    && w.runs + Holders(w.requests) <= if w.marker then 1 else 0
  }

  lemma {:induction false} HoldersPut(rs: seq<Request>, i: nat, r: Request)
    requires i < |rs|
    ensures Holders(rs[i := r]) + (if rs[i].MarkerHeld? then 1 else 0) == Holders(rs) + (if r.MarkerHeld? then 1 else 0)
  {
    var k := |rs| - 1;
    if i == k {
      assert rs[i := r][..k] == rs[..k];
    } else {
      assert rs[i := r][..k] == rs[..k][i := r];
      HoldersPut(rs[..k], i, r);
    }
  }

  lemma HoldersGrow(rs: seq<Request>, r: Request)
    ensures Holders(rs + [r]) == Holders(rs) + if r.MarkerHeld? then 1 else 0
  {
    assert (rs + [r])[..|rs|] == rs;
  }

  /** Whatever a handler adds to a closed copy under its guard leaves the copy closed. */
  lemma DecidedOk(a: Action, snap: set<Checkpoint>, verified: bool)
    requires Closed(snap)
    ensures RequestOk(Decided(a, snap, verified))
  {
    if Guard(a) <= snap {
      forall c | c in Adds(a, snap, verified)
        ensures Needs(c) <= snap + Adds(a, snap, verified)
      {
      }
    }
  }

  lemma PutKeeps(w: World, i: nat, r: Request)
    requires i < |w.requests| && RequestOk(r) && forall x :: x in w.requests ==> RequestOk(x)
    ensures forall x :: x in Put(w, i, r).requests ==> RequestOk(x)
  {
    hide RequestOk;
  }

  lemma StepKeeps(w: World, s: Step)
    requires Inv(w)
    ensures Inv(Do(w, s))
  {
    hide Closed, RequestOk, Holders, Decided;
    match s
    case Arrive(a) =>
      HoldersGrow(w.requests, Arrived(a));
      Harmless(Arrived(a));
    case HelperCall =>
      HoldersGrow(w.requests, AskingToPrint);
      Harmless(AskingToPrint);
    case Restart =>
      assert Holders([]) == 0 by { NoHolders(); }
    case _ =>
      StepOnRequest(w, s);
  }

  lemma NoHolders()
    ensures Holders([]) == 0
  {
  }

  lemma Harmless(r: Request)
    ensures !r.Loaded? && !r.Saving? ==> RequestOk(r)
    ensures r.Loaded? ==> (RequestOk(r) <==> Closed(r.snap))
    ensures r.Saving? ==> (RequestOk(r) <==> Closed(r.next))
  {
  }

  function Index(s: Step): nat
  {
    match s
    case Load(i, _) => i
    case Decide(i, _) => i
    case Save(i, _) => i
    case Reserve(i, _) => i
    case RunCommand(i) => i
    case _ => 0
  }

  lemma StepOnRequest(w: World, s: Step)
    requires Inv(w) && !s.Arrive? && !s.HelperCall? && !s.Restart?
    ensures Inv(Do(w, s))
  {
    hide Closed, RequestOk, Holders;
    var i := Index(s);
    if i < |w.requests| {
      var x := Do(w, s);
      assert w.requests[i] in w.requests;
      Harmless(w.requests[i]);
      if s.Decide? && w.requests[i].Loaded? {
        DecidedOk(w.requests[i].a, w.requests[i].snap, s.verified);
      }
      assert x.requests == w.requests || x.requests == w.requests[i := x.requests[i]];
      Harmless(x.requests[i]);
      HoldersPut(w.requests, i, x.requests[i]);
      PutKeeps(w, i, x.requests[i]);
    }
  }

  lemma {:induction false} RunKeeps(steps: seq<Step>)
    ensures Inv(After(steps))
  {
    hide Inv, Do;
    if steps != [] {
      RunKeeps(steps[..|steps| - 1]);
      StepKeeps(After(steps[..|steps| - 1]), steps[|steps| - 1]);
    } else {
      FreshIsFine();
    }
  }

  lemma FreshIsFine()
    ensures Inv(FRESH)
  {
  }

  /** In every interleaving, lost updates included, each saved set is closed under its prerequisites;
      so a completed set-up has every step back to the first. */
  lemma SavedSetsAreClosed(steps: seq<Step>)
    ensures var s := After(steps).saved;
            && (Network in s ==> Welcome in s) && (Printer in s ==> Network in s) && (Twitch in s ==> Printer in s)
            && (EventSub in s ==> Twitch in s) && (Preview in s ==> Printer in s) && (PhysicalAttempted in s ==> Preview in s)
            && (Complete in s ==> {Welcome, Network, Printer, Twitch, EventSub, Preview} <= s)
  {
    RunKeeps(steps);
    var s := After(steps).saved;
    assert forall c :: c in s ==> Needs(c) <= s;
    if Complete in s {
      assert Needs(Complete) <= s && Needs(Twitch) <= s && Needs(Printer) <= s && Needs(Network) <= s;
    }
  }

  /** In every interleaving the physical print command runs at most once, and never without the
      helper's marker, whatever becomes of the checkpoint. */
  lemma PhysicalTestAtMostOnce(steps: seq<Step>)
    ensures After(steps).runs <= 1
    ensures After(steps).runs == 1 ==> After(steps).marker
  {
    RunKeeps(steps);
  }

  /** A handler asks for the print only when its own save of the attempt succeeded, and a command runs
      only for a request that holds the marker. */
  lemma AskedOnlyWhenSaved(w: World, s: Step, i: nat)
    requires i < |w.requests| && i < |Do(w, s).requests|
    ensures !w.requests[i].AskingToPrint? && Do(w, s).requests[i].AskingToPrint? ==>
              && s == Save(i, Saved) && w.requests[i].Saving? && w.requests[i].a == PhysicalTest
              && Do(w, s).saved == w.requests[i].next
    ensures Do(w, s).runs != w.runs ==>
              s.RunCommand? && s.i < |w.requests| && w.requests[s.i].MarkerHeld? && Do(w, s).runs == w.runs + 1
  {
    hide Adds, Guard;
  }

  // ----- every checkpoint was earned

  /** What a handler does with its copy once its operation has answered: nothing without the
      checkpoints it asks for or without verification; otherwise it saves the copy and its own
      checkpoint, no other. */
  lemma HandlerOutcome(a: Action, snap: set<Checkpoint>, verified: bool)
    ensures Decided(a, snap, verified) ==
            match a
            case Home =>
              if Welcome in snap && (Network in snap || !verified) then Finished
              else if verified then Saving(a, snap + {Welcome, Network}) else Saving(a, snap + {Welcome})
            case DoWelcome => Saving(a, snap + {Welcome})
            case DoNetwork => if Welcome in snap && verified then Saving(a, snap + {Network}) else Finished
            case DoPrinter => if Network in snap && verified then Saving(a, snap + {Printer}) else Finished
            case TwitchStart => Finished
            case TwitchPoll => if Printer in snap && verified then Saving(a, snap + {Twitch}) else Finished
            case DoEventSub => if Twitch in snap && verified then Saving(a, snap + {EventSub}) else Finished
            case DoPreview => if Printer in snap && verified then Saving(a, snap + {Preview}) else Finished
            case PhysicalTest =>
              if Preview in snap && PhysicalAttempted !in snap && verified then Saving(a, snap + {PhysicalAttempted}) else Finished
            case DoComplete =>
              if Twitch in snap && EventSub in snap && Preview in snap then Saving(a, snap + {Complete}) else Finished
  {
    if a.Home? && Network in snap {
      assert verified ==> snap + {Welcome} == snap + {Welcome, Network};
    }
  }

  /** The request whose decision puts a checkpoint into a copy. */
  predicate Earns(a: Action, verified: bool, c: Checkpoint)
  {
    match c
    case Welcome => a == Home || a == DoWelcome
    case Network => verified && (a == Home || a == DoNetwork)
    case Printer => verified && a == DoPrinter
    case Twitch => verified && a == TwitchPoll
    case EventSub => verified && a == DoEventSub
    case Preview => verified && a == DoPreview
    case PhysicalAttempted => verified && a == PhysicalTest
    case Complete => a == DoComplete
  }

  /** Step k of the run is such a decision. */
  ghost predicate EarnedAt(steps: seq<Step>, k: nat, c: Checkpoint)
  {
    k < |steps| && steps[k].Decide? &&
    var rs := After(steps[..k]).requests;
    steps[k].i < |rs| && rs[steps[k].i].Loaded? && Earns(rs[steps[k].i].a, steps[k].verified, c)
  }

  ghost predicate AllEarned(steps: seq<Step>, s: set<Checkpoint>)
  {
    forall c :: c in s ==> exists k :: EarnedAt(steps, k, c)
  }

  function Copy(r: Request): set<Checkpoint>
  {
    match r
    case Loaded(_, snap) => snap
    case Saving(_, next) => next
    case _ => {}
  }

  ghost predicate Honest(w: World, steps: seq<Step>)
  {
    AllEarned(steps, w.saved) && forall r :: r in w.requests ==> AllEarned(steps, Copy(r))
  }

  lemma StillEarned(steps: seq<Step>, s: Step, cs: set<Checkpoint>)
    requires AllEarned(steps, cs)
    ensures AllEarned(steps + [s], cs)
  {
    hide After, Earns;
    forall c | c in cs
      ensures exists k :: EarnedAt(steps + [s], k, c)
    {
      var k: nat :| EarnedAt(steps, k, c);
      assert (steps + [s])[..k] == steps[..k] && (steps + [s])[k] == steps[k];
      assert EarnedAt(steps + [s], k, c);
    }
  }

  lemma AddsEarn(a: Action, snap: set<Checkpoint>, verified: bool)
    ensures forall c :: c in Copy(Decided(a, snap, verified)) ==> c in snap || Earns(a, verified, c)
  {
  }

  lemma DecisionEarns(steps: seq<Step>, i: nat, verified: bool)
    requires i < |After(steps).requests| && After(steps).requests[i].Loaded?
    requires AllEarned(steps, After(steps).requests[i].snap)
    ensures var r := After(steps).requests[i];
            AllEarned(steps + [Decide(i, verified)], Copy(Decided(r.a, r.snap, verified)))
  {
    hide After, Decided, Earns;
    var r, next := After(steps).requests[i], steps + [Decide(i, verified)];
    StillEarned(steps, Decide(i, verified), r.snap);
    AddsEarn(r.a, r.snap, verified);
    assert next[..|steps|] == steps && next[|steps|] == Decide(i, verified);
    forall c | c in Copy(Decided(r.a, r.snap, verified))
      ensures exists k :: EarnedAt(next, k, c)
    {
      assert c !in r.snap ==> EarnedAt(next, |steps|, c);
    }
  }

  lemma StepHonest(steps: seq<Step>, s: Step)
    requires Honest(After(steps), steps)
    ensures Honest(Do(After(steps), s), steps + [s])
  {
    hide After, AllEarned, Decided;
    var w := After(steps);
    StillEarned(steps, s, w.saved);
    NothingEarned(steps + [s]);
    forall r | r in w.requests
      ensures AllEarned(steps + [s], Copy(r))
    {
      StillEarned(steps, s, Copy(r));
    }
    if s.Decide? && s.i < |w.requests| && w.requests[s.i].Loaded? {
      assert w.requests[s.i] in w.requests;
      DecisionEarns(steps, s.i, s.verified);
    }
    if s.Save? && s.i < |w.requests| {
      assert w.requests[s.i] in w.requests;
    }
  }

  lemma NothingEarned(steps: seq<Step>)
    ensures AllEarned(steps, {})
  {
  }

  lemma {:induction false} RunHonest(steps: seq<Step>)
    ensures Honest(After(steps), steps)
    decreases |steps|
  {
    if steps != [] {
      hide Honest, Do;
      var k := |steps| - 1;
      RunHonest(steps[..k]);
      StepHonest(steps[..k], steps[k]);
      assert steps[..k] + [steps[k]] == steps;
    } else {
      assert After(steps) == FRESH;
    }
  }

  /** In every interleaving each saved checkpoint was put there by a request of its own kind, and all
      but the first and the last only after the operation behind it had been verified. */
  lemma SavedIsEarned(steps: seq<Step>, c: Checkpoint) returns (k: nat)
    requires c in After(steps).saved
    ensures k < |steps| && steps[k].Decide?
    ensures var rs, i := After(steps[..k]).requests, steps[k].i;
            && i < |rs| && rs[i].Loaded?
            && (c == Welcome ==> rs[i].a == Home || rs[i].a == DoWelcome)
            && (c == Network ==> steps[k].verified && (rs[i].a == Home || rs[i].a == DoNetwork))
            && (c == Printer ==> steps[k].verified && rs[i].a == DoPrinter)
            && (c == Twitch ==> steps[k].verified && rs[i].a == TwitchPoll)
            && (c == EventSub ==> steps[k].verified && rs[i].a == DoEventSub)
            && (c == Preview ==> steps[k].verified && rs[i].a == DoPreview)
            && (c == PhysicalAttempted ==> steps[k].verified && rs[i].a == PhysicalTest)
            && (c == Complete ==> rs[i].a == DoComplete)
  {
    hide After;
    RunHonest(steps);
    k :| EarnedAt(steps, k, c);
  }

  // ----- which saved checkpoints stay saved

  /** The copy that a request holds, if any, cannot take c out of the file. */
  predicate Carries(r: Request, c: Checkpoint)
  {
    match r
    case Loaded(a, snap) => forall v :: Decided(a, snap, v).Saving? ==> c in Decided(a, snap, v).next
    case Saving(_, next) => c in next
    case _ => true
  }

  predicate AllCarry(w: World, c: Checkpoint)
  {
    c in w.saved && forall r :: r in w.requests ==> Carries(r, c)
  }

  lemma DecidedKeepsCopy(a: Action, snap: set<Checkpoint>, v: bool)
    ensures Decided(a, snap, v).Saving? ==> snap <= Decided(a, snap, v).next
    ensures Decided(a, snap, v).Saving? || Decided(a, snap, v).Finished?
  {
  }

  lemma FreshCopyCarries(a: Action, snap: set<Checkpoint>, c: Checkpoint)
    requires c in snap
    ensures Carries(Loaded(a, snap), c)
  {
    hide Decided;
    DecidedKeepsCopy(a, snap, true);
    DecidedKeepsCopy(a, snap, false);
  }

  lemma StepCarries(w: World, s: Step, c: Checkpoint)
    requires AllCarry(w, c)
    ensures AllCarry(Do(w, s), c)
  {
    hide Decided, Carries;
    NoCopy(c);
    var i := Index(s);
    var x := Do(w, s);
    if i < |w.requests| && x.requests != [] {
      var r := w.requests[i];
      assert r in w.requests;
      if s.Load? && r.Arrived? {
        FreshCopyCarries(r.a, w.saved, c);
      }
      if s.Decide? && r.Loaded? {
        DecidedCarries(r.a, r.snap, s.verified, c);
      }
      if s.Save? && r.Saving? {
        SavedCarries(r.a, r.next, c);
      }
    }
  }

  lemma NoCopy(c: Checkpoint)
    ensures forall r: Request :: !r.Loaded? && !r.Saving? ==> Carries(r, c)
  {
  }

  lemma DecidedCarries(a: Action, snap: set<Checkpoint>, v: bool, c: Checkpoint)
    requires Carries(Loaded(a, snap), c)
    ensures Carries(Decided(a, snap, v), c)
  {
    DecidedKeepsCopy(a, snap, v);
  }

  lemma SavedCarries(a: Action, next: set<Checkpoint>, c: Checkpoint)
    ensures Carries(Saving(a, next), c) <==> c in next
  {
  }

  lemma {:induction false} RunCarries(w: World, steps: seq<Step>, c: Checkpoint)
    requires AllCarry(w, c)
    ensures AllCarry(Runs(w, steps), c)
    decreases |steps|
  {
    hide AllCarry, Do;
    if steps != [] {
      RunCarries(w, steps[..|steps| - 1], c);
      StepCarries(Runs(w, steps[..|steps| - 1]), steps[|steps| - 1], c);
    }
  }

  lemma RunsTwo(w: World, s: Step, t: Step)
    ensures Runs(w, [s]) == Do(w, s)
    ensures Runs(w, [s, t]) == Do(Do(w, s), t)
  {
    hide Do;
    assert [s][..0] == [] && [s, t][..1] == [s];
  }

  /** One copy in flight without c is enough: two steps later c is gone. */
  lemma StaleCopyLoses(w: World, i: nat, c: Checkpoint) returns (steps: seq<Step>)
    requires i < |w.requests| && !Carries(w.requests[i], c)
    ensures c !in Runs(w, steps).saved
  {
    match w.requests[i]
    case Saving(a, next) =>
      steps := [Save(i, Saved)];
      RunsTwo(w, Save(i, Saved), Restart);
    case Loaded(a, snap) =>
      hide Decided;
      var v :| Decided(a, snap, v).Saving? && c !in Decided(a, snap, v).next;
      steps := [Decide(i, v), Save(i, Saved)];
      RunsTwo(w, Decide(i, v), Save(i, Saved));
  }

  /** A saved checkpoint stays saved in every interleaving that can follow exactly when every copy in
      flight carries it. */
  lemma SurvivesExactly(w: World, c: Checkpoint)
    requires c in w.saved
    ensures (forall steps :: c in Runs(w, steps).saved) <==> (forall r :: r in w.requests ==> Carries(r, c))
  {
    hide Carries;
    if forall r :: r in w.requests ==> Carries(r, c) {
      forall steps
        ensures c in Runs(w, steps).saved
      {
        RunCarries(w, steps, c);
      }
    } else {
      var r :| r in w.requests && !Carries(r, c);
      var i :| 0 <= i < |w.requests| && w.requests[i] == r;
      var steps := StaleCopyLoses(w, i, c);
    }
  }

  // ----- the loss in a run of the wizard

  /** One request from arrival to its save, with nothing else in between. */
  function Serve(a: Action, i: nat): seq<Step>
  {
    [Arrive(a), Load(i, true), Decide(i, true), Save(i, Saved)]
  }

  lemma RunsConcat(w: World, a: seq<Step>, b: seq<Step>)
    ensures Runs(w, a + b) == Runs(Runs(w, a), b)
    decreases |b|
  {
    if b == [] {
      assert a + b == a;
    } else {
      hide Do;
      assert (a + b)[..|a + b| - 1] == a + b[..|b| - 1];
      RunsConcat(w, a, b[..|b| - 1]);
    }
  }

  lemma RunsFour(w: World, a: Step, b: Step, c: Step, d: Step)
    ensures Runs(w, [a, b, c, d]) == Do(Do(Do(Do(w, a), b), c), d)
  {
    hide Do;
    RunsTwo(w, a, b);
    RunsTwo(Runs(w, [a, b]), c, d);
    RunsConcat(w, [a, b], [c, d]);
    assert [a, b] + [c, d] == [a, b, c, d];
  }

  /** Steps of request i, for a world given by the requests before and behind it. */
  lemma StepsAt(before: seq<Request>, a: Action, saved: set<Checkpoint>, behind: seq<Request>, marker: bool, runs: nat)
    ensures var i := |before|; var next := saved + Adds(a, saved, true);
            && Do(World(saved, before + [Arrived(a)] + behind, marker, runs), Load(i, true))
               == World(saved, before + [Loaded(a, saved)] + behind, marker, runs)
            && Do(World(saved, before + [Saving(a, next)] + behind, marker, runs), Save(i, Saved))
               == World(next, before + [if a.PhysicalTest? then AskingToPrint else Finished] + behind, marker, runs)
  {
    var i := |before|;
    assert forall r, q: Request :: (before + [r] + behind)[i := q] == before + [q] + behind;
  }

  lemma DecideAt(before: seq<Request>, a: Action, snap: set<Checkpoint>, behind: seq<Request>, w: World)
    requires w.requests == before + [Loaded(a, snap)] + behind
    ensures Do(w, Decide(|before|, true)) == w.(requests := before + [Decided(a, snap, true)] + behind)
  {
    hide Decided;
    assert w.requests[|before|] == Loaded(a, snap);
    assert w.requests[|before| := Decided(a, snap, true)] == before + [Decided(a, snap, true)] + behind;
  }

  lemma Served(w: World, a: Action)
    requires Decided(a, w.saved, true) == Saving(a, w.saved + Adds(a, w.saved, true)) && !a.PhysicalTest?
    ensures Runs(w, Serve(a, |w.requests|))
            == World(w.saved + Adds(a, w.saved, true), w.requests + [Finished], w.marker, w.runs)
  {
    hide Do, Adds, Guard, Decided;
    var i, rs, next := |w.requests|, w.requests, w.saved + Adds(a, w.saved, true);
    RunsFour(w, Arrive(a), Load(i, true), Decide(i, true), Save(i, Saved));
    assert forall r: Request :: rs + [r] + [] == rs + [r];
    assert Do(w, Arrive(a)) == World(w.saved, rs + [Arrived(a)], w.marker, w.runs) by { Arrives(w, a); }
    StepsAt(rs, a, w.saved, [], w.marker, w.runs);
    DecideAt(rs, a, w.saved, [], World(w.saved, rs + [Loaded(a, w.saved)], w.marker, w.runs));
  }

  lemma Arrives(w: World, a: Action)
    ensures Do(w, Arrive(a)) == World(w.saved, w.requests + [Arrived(a)], w.marker, w.runs)
  {
  }

  /** The set-up up to a first preview, request by request. */
  const PREVIEWED := Serve(DoWelcome, 0) + Serve(DoNetwork, 1) + Serve(DoPrinter, 2) + Serve(DoPreview, 3)

  /** The physical test next to a second preview that loaded before the attempt was saved. */
  const RACED := [Arrive(DoPreview), Arrive(PhysicalTest), Load(4, true), Load(5, true)]

  const ATTEMPTED := [Decide(4, true), Decide(5, true), Save(5, Saved), Reserve(5, Created)]

  const OVERTAKEN := [RunCommand(5), Save(4, Saved)]

  const DONE := [Finished, Finished, Finished, Finished]

  const SEEN := {Welcome, Network, Printer, Preview}

  lemma PreviewedWorld()
    ensures After(PREVIEWED) == World(SEEN, DONE, false, 0)
  {
    hide Runs, Serve;
    var w1 := World({Welcome}, [Finished], false, 0);
    var w2 := World({Welcome, Network}, [Finished, Finished], false, 0);
    var w3 := World({Welcome, Network, Printer}, [Finished, Finished, Finished], false, 0);
    Served(FRESH, DoWelcome);
    Served(w1, DoNetwork);
    Served(w2, DoPrinter);
    Served(w3, DoPreview);
    assert {} + {Welcome} == {Welcome} && [] + [Finished] == [Finished];
    assert Runs(FRESH, Serve(DoWelcome, 0)) == w1;
    assert w1.saved + {Network} == w2.saved && w1.requests + [Finished] == w2.requests;
    assert w2.saved + {Printer} == w3.saved && w2.requests + [Finished] == w3.requests;
    assert w3.saved + {Preview} == SEEN && w3.requests + [Finished] == DONE;
    RunsConcat(FRESH, Serve(DoWelcome, 0), Serve(DoNetwork, 1));
    RunsConcat(FRESH, Serve(DoWelcome, 0) + Serve(DoNetwork, 1), Serve(DoPrinter, 2));
    RunsConcat(FRESH, Serve(DoWelcome, 0) + Serve(DoNetwork, 1) + Serve(DoPrinter, 2), Serve(DoPreview, 3));
  }

  lemma RacedWorld()
    ensures Runs(World(SEEN, DONE, false, 0), RACED)
            == World(SEEN, DONE + [Loaded(DoPreview, SEEN), Loaded(PhysicalTest, SEEN)], false, 0)
  {
    var w := World(SEEN, DONE, false, 0);
    RunsFour(w, Arrive(DoPreview), Arrive(PhysicalTest), Load(4, true), Load(5, true));
    hide Do;
    Arrives(w, DoPreview);
    Arrives(Do(w, Arrive(DoPreview)), PhysicalTest);
    StepsAt(DONE, DoPreview, SEEN, [Arrived(PhysicalTest)], false, 0);
    StepsAt(DONE + [Loaded(DoPreview, SEEN)], PhysicalTest, SEEN, [], false, 0);
    assert forall a, b: Request :: DONE + [a] + [b] == DONE + [a, b] && DONE + [a] + [b] + [] == DONE + [a, b];
  }

  lemma ReserveAt(before: seq<Request>, saved: set<Checkpoint>, runs: nat)
    ensures Do(World(saved, before + [AskingToPrint], false, runs), Reserve(|before|, Created))
            == World(saved, before + [MarkerHeld], true, runs)
  {
    assert (before + [AskingToPrint])[|before| := MarkerHeld] == before + [MarkerHeld];
  }

  lemma BothDecide()
    ensures Decided(DoPreview, SEEN, true) == Saving(DoPreview, SEEN)
    ensures Decided(PhysicalTest, SEEN, true) == Saving(PhysicalTest, SEEN + Adds(PhysicalTest, SEEN, true))
    ensures Adds(PhysicalTest, SEEN, true) == {PhysicalAttempted}
  {
    assert SEEN + {Preview} == SEEN;
  }

  lemma AttemptedWorld()
    ensures Runs(World(SEEN, DONE + [Loaded(DoPreview, SEEN), Loaded(PhysicalTest, SEEN)], false, 0), ATTEMPTED)
            == World(SEEN + {PhysicalAttempted}, DONE + [Saving(DoPreview, SEEN), MarkerHeld], true, 0)
  {
    hide Do, Decided, Adds;
    var p := Saving(DoPreview, SEEN);
    var w := World(SEEN, DONE + [Loaded(DoPreview, SEEN), Loaded(PhysicalTest, SEEN)], false, 0);
    RunsFour(w, Decide(4, true), Decide(5, true), Save(5, Saved), Reserve(5, Created));
    BothDecide();
    assert forall a, b: Request :: DONE + [a] + [b] == DONE + [a, b] && DONE + [a] + [b] + [] == DONE + [a, b];
    DecideAt(DONE, DoPreview, SEEN, [Loaded(PhysicalTest, SEEN)], w);
    DecideAt(DONE + [p], PhysicalTest, SEEN, [], World(SEEN, DONE + [p, Loaded(PhysicalTest, SEEN)], false, 0));
    StepsAt(DONE + [p], PhysicalTest, SEEN, [], false, 0);
    ReserveAt(DONE + [p], SEEN + {PhysicalAttempted}, 0);
  }

  // ----- the way to the end

  /** One verified request more, whatever else is under way. */
  lemma OneMore(w: World, a: Action, c: Checkpoint) returns (steps: seq<Step>)
    requires !a.PhysicalTest? && !a.Home? && Decided(a, w.saved, true) == Saving(a, w.saved + {c})
    ensures Runs(w, steps).saved == w.saved + {c}
  {
    hide Runs, Serve, Guard;
    steps := Serve(a, |w.requests|);
    assert w.saved + Adds(a, w.saved, true) == w.saved + {c} by { SameAdds(a, w.saved, c); }
    Served(w, a);
  }

  lemma SameAdds(a: Action, snap: set<Checkpoint>, c: Checkpoint)
    requires Decided(a, snap, true) == Saving(a, snap + {c})
    ensures snap + Adds(a, snap, true) == snap + {c}
  {
  }

  /** The physical test up to its checkpoint, unless that is there already. */
  lemma TestOnce(w: World) returns (steps: seq<Step>)
    requires Preview in w.saved
    ensures Runs(w, steps).saved == w.saved + {PhysicalAttempted}
  {
    hide Runs;
    if PhysicalAttempted in w.saved {
      steps := [];
      assert Runs(w, []) == w by { NoSteps(w); }
      assert w.saved + {PhysicalAttempted} == w.saved;
    } else {
      var i, rs, next := |w.requests|, w.requests, w.saved + Adds(PhysicalTest, w.saved, true);
      steps := Serve(PhysicalTest, i);
      HandlerOutcome(PhysicalTest, w.saved, true);
      assert next == w.saved + {PhysicalAttempted};
      hide Do, Adds, Decided;
      RunsFour(w, Arrive(PhysicalTest), Load(i, true), Decide(i, true), Save(i, Saved));
      assert forall r: Request :: rs + [r] + [] == rs + [r];
      Arrives(w, PhysicalTest);
      StepsAt(rs, PhysicalTest, w.saved, [], w.marker, w.runs);
      DecideAt(rs, PhysicalTest, w.saved, [], World(w.saved, rs + [Loaded(PhysicalTest, w.saved)], w.marker, w.runs));
    }
  }

  lemma NoSteps(w: World)
    ensures Runs(w, []) == w
  {
  }

  /** From every state the wizard can be brought to the end, every checkpoint saved. */
  lemma CompleteIsReachable(w: World) returns (steps: seq<Step>)
    ensures Runs(w, steps).saved
            == {Welcome, Network, Printer, Twitch, EventSub, Preview, PhysicalAttempted, Complete}
  {
    hide Runs, Decided;
    steps := Then(w, [], DoWelcome, Welcome);
    steps := Then(w, steps, DoNetwork, Network);
    steps := Then(w, steps, DoPrinter, Printer);
    steps := Then(w, steps, TwitchPoll, Twitch);
    steps := Then(w, steps, DoEventSub, EventSub);
    steps := Then(w, steps, DoPreview, Preview);
    var test := TestOnce(Runs(w, steps));
    RunsConcat(w, steps, test);
    steps := Then(w, steps + test, DoComplete, Complete);
    EveryCheckpoint(Runs(w, steps).saved);
  }

  lemma Then(w: World, before: seq<Step>, a: Action, c: Checkpoint) returns (steps: seq<Step>)
    requires !a.PhysicalTest? && !a.Home?
    requires var s := Runs(w, before).saved;
             && (a == DoWelcome ==> c == Welcome)
             && (a == DoNetwork ==> c == Network && Welcome in s)
             && (a == DoPrinter ==> c == Printer && Network in s)
             && a != TwitchStart
             && (a == TwitchPoll ==> c == Twitch && Printer in s)
             && (a == DoEventSub ==> c == EventSub && Twitch in s)
             && (a == DoPreview ==> c == Preview && Printer in s)
             && (a == DoComplete ==> c == Complete && Twitch in s && EventSub in s && Preview in s)
    ensures Runs(w, steps).saved == Runs(w, before).saved + {c}
  {
    hide Runs;
    HandlerOutcome(a, Runs(w, before).saved, true);
    hide Decided;
    var more := OneMore(Runs(w, before), a, c);
    steps := before + more;
    RunsConcat(w, before, more);
  }

  lemma EveryCheckpoint(s: set<Checkpoint>)
    requires Welcome in s && Network in s && Printer in s && Twitch in s
    requires EventSub in s && Preview in s && PhysicalAttempted in s && Complete in s
    ensures s == {Welcome, Network, Printer, Twitch, EventSub, Preview, PhysicalAttempted, Complete}
  {
    var all := {Welcome, Network, Printer, Twitch, EventSub, Preview, PhysicalAttempted, Complete};
    forall c: Checkpoint
      ensures c in all
    {
      assert c.Welcome? || c.Network? || c.Printer? || c.Twitch? || c.EventSub? || c.Preview? || c.PhysicalAttempted? || c.Complete?;
    }
    assert all <= s;
  }

  /** A run of the wizard from the empty state that loses the attempt checkpoint: it is saved once,
      the command runs, and a request that loaded before overwrites it; only the marker still knows. */
  lemma AttemptCheckpointCanBeLost()
    ensures PhysicalAttempted in After(PREVIEWED + RACED + ATTEMPTED).saved
    ensures var x := After(PREVIEWED + RACED + ATTEMPTED + OVERTAKEN);
            PhysicalAttempted !in x.saved && x.runs == 1 && x.marker
  {
    hide Runs;
    PreviewedWorld();
    RacedWorld();
    AttemptedWorld();
    RunsConcat(FRESH, PREVIEWED, RACED);
    RunsConcat(FRESH, PREVIEWED + RACED, ATTEMPTED);
    RunsConcat(FRESH, PREVIEWED + RACED + ATTEMPTED, OVERTAKEN);
    RunsTwo(After(PREVIEWED + RACED + ATTEMPTED), RunCommand(5), Save(4, Saved));
  }
}
