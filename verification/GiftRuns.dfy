/** What holds of the gift collector over whole runs. */
module GiftRuns {
  import opened Prelude
  import opened GiftCollector

  datatype Op = Accepted(e: Event, now: int) | Flushed(now: int)

  function Step(s: State, op: Op): (State, seq<Celebration>)
  {
    match op
    case Accepted(e, now) => AcceptStep(s, e, now)
    case Flushed(now) => FlushStep(s, now)
  }

  /** The state and everything emitted after the calls `ops` on a new collector. */
  function Run(window: int, ops: seq<Op>): (State, seq<Celebration>)
  {
    if ops == [] then (State(window, map[], {}, []), [])
    else
      var (s, out) := Run(window, ops[..|ops| - 1]);
      var (t, more) := Step(s, ops[|ops| - 1]);
      (t, out + more)
  }

  ghost predicate Inv(s: State)
  {
    && (forall id :: id in s.pending ==> id in s.order && id != "" && id !in s.completed)
    && (forall id :: id in s.completed ==> id in s.order)
    && (forall id :: id in s.pending ==> s.pending[id].c.communityID == id)
    && (forall id :: id in s.pending ==> !Ready(s.pending[id]))
  }

  function Ids(cs: seq<Celebration>): (r: seq<string>)
    ensures |r| == |cs|
  {
    if cs == [] then [] else Ids(cs[..|cs| - 1]) + [cs[|cs| - 1].communityID]
  }

  lemma {:induction false} IdsConcat(a: seq<Celebration>, b: seq<Celebration>)
    ensures Ids(a + b) == Ids(a) + Ids(b)
  {
    if b == [] {
      assert a + b == a;
    } else {
      var k := |b| - 1;
      assert (a + b)[..|a| + k] == a + b[..k];
      IdsConcat(a, b[..k]);
    }
  }

  // ----- one step

  lemma UpdatedKeepsId(p: Pending, e: Event, now: int)
    ensures Updated(p, e, now).c.communityID == p.c.communityID
  {
  }

  lemma AcceptKeepsInv(s: State, e: Event, now: int)
    requires Inv(s)
    ensures Inv(AcceptStep(s, e, now).0)
    ensures var (t, out) := AcceptStep(s, e, now);
            && (forall c :: c in out ==> c.communityID !in s.completed)
            && t.completed == s.completed + (set c | c in out :: c.communityID)
            && |out| <= 1
  {
    hide Updated;
    if !Ignored(s, e) {
      UpdatedKeepsId(Entry(s, e.communityID, now), e, now);
    }
  }

  /** The ids among `ids` that are due. */
  function DueIds(ids: seq<string>, s: State, now: int): seq<string>
  {
    if ids == [] then []
    else DueIds(ids[..|ids| - 1], s, now) + if Due(s, ids[|ids| - 1], now) then [ids[|ids| - 1]] else []
  }

  lemma {:induction false} DueIdsExact(ids: seq<string>, s: State, now: int)
    requires NoDup(ids)
    ensures NoDup(DueIds(ids, s, now))
    ensures forall id :: id in DueIds(ids, s, now) <==> id in ids && Due(s, id, now)
  {
    hide Due;
    if ids != [] {
      var k := |ids| - 1;
      DueIdsExact(ids[..k], s, now);
      LastOf(ids);
    }
  }

  lemma LastOf(ids: seq<string>)
    requires ids != [] && NoDup(ids)
    ensures var k := |ids| - 1;
            NoDup(ids[..k]) && ids[k] !in ids[..k] && forall id :: id in ids <==> id in ids[..k] || id == ids[k]
  {
    assert ids == ids[..|ids| - 1] + [ids[|ids| - 1]];
  }

  lemma {:induction false} DueOfIds(ids: seq<string>, s: State, now: int)
    requires Inv(s)
    ensures Ids(DueOf(ids, s, now)) == DueIds(ids, s, now)
  {
    if ids != [] {
      hide Ready;
      var k := |ids| - 1;
      DueOfIds(ids[..k], s, now);
      if Due(s, ids[k], now) {
        IdsConcat(DueOf(ids[..k], s, now), [Closed(s.pending[ids[k]])]);
        OneId(Closed(s.pending[ids[k]]));
      } else {
        assert DueOf(ids, s, now) == DueOf(ids[..k], s, now);
      }
    }
  }

  lemma {:induction false} DueOfMembers(ids: seq<string>, s: State, now: int)
    ensures forall c :: c in DueOf(ids, s, now) <==> exists id :: id in ids && Due(s, id, now) && c == Closed(s.pending[id])
  {
    hide Closed;
    if ids != [] {
      var k := |ids| - 1;
      DueOfMembers(ids[..k], s, now);
      assert ids == ids[..k] + [ids[k]];
    }
  }

  lemma OneId(c: Celebration)
    ensures Ids([c]) == [c.communityID]
  {
    assert [c][..0] == [];
  }

  lemma {:induction false} FirstsExact(order: seq<string>)
    ensures NoDup(Firsts(order))
    ensures forall id :: id in Firsts(order) <==> id in order
  {
    if order != [] {
      var k := |order| - 1;
      FirstsExact(order[..k]);
      assert forall id :: id in order <==> id in order[..k] || id == order[k];
    }
  }

  /** A flush emits exactly the started entries whose window has passed, each once and in order of
      first arrival, drops exactly the entries without a start that are older than two windows, and
      leaves every other entry as it was. */
  lemma FlushExact(s: State, now: int)
    requires Inv(s)
    ensures var (t, out) := FlushStep(s, now);
            && Inv(t)
            && Ids(out) == DueIds(Firsts(s.order), s, now) && NoDup(Ids(out))
            && (forall id :: id in Ids(out) <==> Due(s, id, now))
            && (forall c :: c in out <==> exists id :: Due(s, id, now) && c == Closed(s.pending[id]))
            && t.completed == s.completed + (set c | c in out :: c.communityID)
            && (forall c :: c in out ==> c.communityID !in s.completed)
            && (forall id :: id in t.pending <==> id in s.pending && !Due(s, id, now) && !Expired(s, id, now))
            && (forall id :: id in t.pending ==> t.pending[id] == s.pending[id])
  {
    hide Inv, Due, Expired, Closed, FlushStep;
    var (t, out) := FlushStep(s, now);
    FirstsExact(s.order);
    DueIdsExact(Firsts(s.order), s, now);
    DueOfIds(Firsts(s.order), s, now);
    FlushState(s, now);
    FlushOut(s, now);
  }

  lemma FlushState(s: State, now: int)
    requires Inv(s)
    ensures var t := FlushStep(s, now).0;
            && Inv(t)
            && (forall id :: id in t.completed <==> id in s.completed || Due(s, id, now))
            && (forall id :: id in t.pending <==> id in s.pending && !Due(s, id, now) && !Expired(s, id, now))
            && (forall id :: id in t.pending ==> t.pending[id] == s.pending[id])
  {
    hide Ready;
  }

  lemma FlushOut(s: State, now: int)
    requires Inv(s)
    ensures var (t, out) := FlushStep(s, now);
            && (forall id :: id in Firsts(s.order) && Due(s, id, now) <==> Due(s, id, now))
            && (forall c :: c in out <==> exists id :: Due(s, id, now) && c == Closed(s.pending[id]))
            && t.completed == s.completed + (set c | c in out :: c.communityID)
            && (forall c :: c in out ==> c.communityID !in s.completed)
            && out == DueOf(Firsts(s.order), s, now)
  {
    hide Ready;
    var (t, out) := FlushStep(s, now);
    FirstsExact(s.order);
    DueOfMembers(Firsts(s.order), s, now);
    forall id | Due(s, id, now)
      ensures Closed(s.pending[id]) in out && Closed(s.pending[id]).communityID == id
    {
      assert id in Firsts(s.order);
    }
    forall c | c in out
      ensures Due(s, c.communityID, now) && c == Closed(s.pending[c.communityID])
    {
      var id :| id in Firsts(s.order) && Due(s, id, now) && c == Closed(s.pending[id]);
    }
    assert forall id :: id in t.completed <==> id in s.completed || Due(s, id, now);
  }

  // ----- whole runs: nothing is celebrated twice

  lemma {:induction false} IdsMembers(cs: seq<Celebration>)
    ensures forall x :: x in Ids(cs) <==> x in (set c | c in cs :: c.communityID)
  {
    if cs != [] {
      var k := |cs| - 1;
      IdsMembers(cs[..k]);
      assert cs == cs[..k] + [cs[k]];
    }
  }

  lemma StepKeeps(s: State, op: Op)
    requires Inv(s)
    ensures var (t, out) := Step(s, op);
            && Inv(t) && NoDup(Ids(out))
            && (forall c :: c in out ==> c.communityID !in s.completed)
            && t.completed == s.completed + (set c | c in out :: c.communityID)
  {
    hide Inv, AcceptStep, FlushStep;
    match op
    case Accepted(e, now) => AcceptKeepsInv(s, e, now);
    case Flushed(now) => FlushExact(s, now);
  }

  /** In every run no community is emitted twice, the emitted ids are exactly the completed ones,
      no completed community is pending, and an entry with a total always has fewer recipients. */
  lemma {:induction false} EmittedOnce(window: int, ops: seq<Op>)
    ensures var (s, out) := Run(window, ops);
            && Inv(s) && NoDup(Ids(out))
            && (forall id :: id in Ids(out) <==> id in s.completed)
            && (forall id :: id in s.completed ==> id !in s.pending)
            && (forall id :: id in s.pending && s.pending[id].c.total > 0 ==> |s.pending[id].c.recipients| < s.pending[id].c.total)
  {
    if ops != [] {
      hide Inv, Step, NoDup;
      var k := |ops| - 1;
      var (s, out) := Run(window, ops[..k]);
      var (t, more) := Step(s, ops[k]);
      EmittedOnce(window, ops[..k]);
      StepKeeps(s, ops[k]);
      IdsMembers(more);
      IdsConcat(out, more);
      NoDupConcat(Ids(out), Ids(more));
      WhatInvSays(t);
    } else {
      assert Ids([]) == [];
    }
  }

  lemma WhatInvSays(s: State)
    requires Inv(s)
    ensures forall id :: id in s.completed ==> id !in s.pending
    ensures forall id :: id in s.pending && s.pending[id].c.total > 0 ==> |s.pending[id].c.recipients| < s.pending[id].c.total
  {
  }

  // ----- whole runs: what an entry has of its events

  /** An accepted event and the instant it was accepted at. */
  datatype Arrival = Arrival(e: Event, at: int)

  /** For every open or closed entry, the events accepted since it was last opened. */
  function Log(window: int, ops: seq<Op>): map<string, seq<Arrival>>
  {
    if ops == [] then map[]
    else
      var log := Log(window, ops[..|ops| - 1]);
      var s := Run(window, ops[..|ops| - 1]).0;
      match ops[|ops| - 1]
      case Flushed(_) => log
      case Accepted(e, now) =>
        if e.communityID == "" || e.communityID in s.completed then log
        else
          var id := e.communityID;
          log[id := (if id in s.pending && id in log then log[id] else []) + [Arrival(e, now)]]
  }

  /** Event i is the first to name its recipient. */
  predicate Fresh(es: seq<Arrival>, i: nat)
    requires i < |es|
  {
    && es[i].e.kind == KindRecipient && es[i].e.recipient != ""
    && forall j :: 0 <= j < i && es[j].e.kind == KindRecipient && es[j].e.recipient != "" ==> KeyOf(es[j].e) != KeyOf(es[i].e)
  }

  /** The recipients of distinct keys, in order of arrival. */
  function Listed(es: seq<Arrival>): seq<string>
  {
    if es == [] then []
    else
      var k := |es| - 1;
      Listed(es[..k]) + if Fresh(es, k) then [es[k].e.recipient] else []
  }

  function KeysIn(es: seq<Arrival>): set<string>
  {
    set a | a in es && Names(a.e) :: KeyOf(a.e)
  }

  datatype Started = NotStarted | Started(a: Arrival)

  /** The first start that carries a total. */
  function FirstStart(es: seq<Arrival>): Started
  {
    if es == [] then NotStarted
    else
      var k := |es| - 1;
      var before := FirstStart(es[..k]);
      if before.Started? then before
      else if es[k].e.kind.KindStart? && es[k].e.total != 0 then Started(es[k]) else NotStarted
  }

  /** The latest start, whatever its total. */
  function LatestStart(es: seq<Arrival>): Started
  {
    if es == [] then NotStarted
    else
      var k := |es| - 1;
      if es[k].e.kind.KindStart? then Started(es[k]) else LatestStart(es[..k])
  }

  /** The instant an entry's window counts from: that of the first start with a total; before there is
      one, that of the latest start without; before any start, that of the event that opened it. */
  function Clock(es: seq<Arrival>): int
    requires es != []
  {
    match FirstStart(es)
    case Started(a) => a.at
    case NotStarted =>
      match LatestStart(es)
      case Started(a) => a.at
      case NotStarted => es[0].at
  }

  ghost predicate Reflects(p: Pending, es: seq<Arrival>)
  {
    && p.c.recipients == Listed(es)
    && p.seen == KeysIn(es)
    && (es != [] ==> p.started == Clock(es))
    && (match FirstStart(es)
        case NotStarted => p.c.total == 0
        case Started(a) => p.c.total == a.e.total && p.c.gifter == a.e.gifter)
  }

  lemma UpdateReflects(p: Pending, es: seq<Arrival>, e: Event, now: int)
    requires Reflects(p, es) && (es == [] ==> p.started == now)
    ensures Reflects(Updated(p, e, now), es + [Arrival(e, now)])
  {
    var fs := es + [Arrival(e, now)];
    var k := |es|;
    assert fs[..k] == es && fs[k] == Arrival(e, now);
    FreshLast(es, Arrival(e, now));
    StartHasTotal(es);
    assert KeysIn(fs) == KeysIn(es) + if Names(e) then {KeyOf(e)} else {};
    ClockLast(es, Arrival(e, now));
  }

  /** How one more event moves the clock. */
  lemma ClockLast(es: seq<Arrival>, a: Arrival)
    ensures Clock(es + [a]) ==
            if es == [] || (FirstStart(es).NotStarted? && a.e.kind.KindStart?) then a.at else Clock(es)
  {
    var fs := es + [a];
    assert fs[..|es|] == es;
    assert fs[0] == if es == [] then a else es[0];
    assert FirstStart(fs) == if FirstStart(es).Started? then FirstStart(es)
                             else if a.e.kind.KindStart? && a.e.total != 0 then Started(a) else NotStarted;
    assert LatestStart(fs) == if a.e.kind.KindStart? then Started(a) else LatestStart(es);
  }

  lemma {:induction false} StartHasTotal(es: seq<Arrival>)
    ensures FirstStart(es).Started? ==> FirstStart(es).a.e.total != 0
  {
    if es != [] {
      StartHasTotal(es[..|es| - 1]);
    }
  }

  lemma FreshLast(es: seq<Arrival>, a: Arrival)
    ensures Fresh(es + [a], |es|) <==> Names(a.e) && KeyOf(a.e) !in KeysIn(es)
  {
    var fs := es + [a];
    if Names(a.e) && KeyOf(a.e) in KeysIn(es) {
      var d :| d in es && Names(d.e) && KeyOf(d.e) == KeyOf(a.e);
      var j :| 0 <= j < |es| && es[j] == d;
      assert fs[j] == d;
    }
    if Names(a.e) && KeyOf(a.e) !in KeysIn(es) {
      forall j | 0 <= j < |es| && Names(fs[j].e)
        ensures KeyOf(fs[j].e) != KeyOf(a.e)
      {
        assert fs[j] == es[j] && es[j] in es;
      }
    }
  }

  lemma OpenedReflects(id: string, now: int)
    ensures Reflects(Opened(id, now), []) && Opened(id, now).started == now
  {
  }

  ghost predicate AllReflect(s: State, log: map<string, seq<Arrival>>)
  {
    forall id :: id in s.pending ==> id in log && log[id] != [] && Reflects(s.pending[id], log[id])
  }

  /** The log entry that an accepted event extends. */
  lemma AcceptReflects(window: int, ops: seq<Op>, e: Event, now: int)
    requires var s := Run(window, ops).0; !Ignored(s, e) && AllReflect(s, Log(window, ops))
    ensures var s := Run(window, ops).0; var log := Log(window, ops + [Accepted(e, now)]);
            && e.communityID in log && log[e.communityID] != []
            && Reflects(Updated(Entry(s, e.communityID, now), e, now), log[e.communityID])
  {
    hide Reflects, Updated, Run;
    var s, id := Run(window, ops).0, e.communityID;
    var next := ops + [Accepted(e, now)];
    assert next[..|ops|] == ops && next[|ops|] == Accepted(e, now);
    OpenedReflects(id, now);
    var es := if id in s.pending && id in Log(window, ops) then Log(window, ops)[id] else [];
    UpdateReflects(Entry(s, id, now), es, e, now);
  }

  lemma StepReflects(window: int, ops: seq<Op>, op: Op)
    requires AllReflect(Run(window, ops).0, Log(window, ops))
    ensures AllReflect(Run(window, ops + [op]).0, Log(window, ops + [op]))
  {
    hide Reflects, Updated, Run, Log;
    var s := Run(window, ops).0;
    RunLast(window, ops, op);
    LogLast(window, ops, op);
    match op
    case Flushed(_) =>
    case Accepted(e, now) =>
      if !Ignored(s, e) {
        AcceptReflects(window, ops, e, now);
      }
  }

  lemma LogLast(window: int, ops: seq<Op>, op: Op)
    ensures var s, log, next := Run(window, ops).0, Log(window, ops), Log(window, ops + [op]);
            && (op.Flushed? || Ignored(s, op.e) ==> next == log)
            && (op.Accepted? && !Ignored(s, op.e) ==>
                  forall id :: id != op.e.communityID ==> (id in next <==> id in log) && (id in log ==> next[id] == log[id]))
  {
    hide Run;
    assert (ops + [op])[..|ops|] == ops;
  }

  lemma RunLast(window: int, ops: seq<Op>, op: Op)
    ensures Run(window, ops + [op]).0 == Step(Run(window, ops).0, op).0
  {
    hide Step;
    assert (ops + [op])[..|ops|] == ops;
  }

  lemma {:induction false} RunReflects(window: int, ops: seq<Op>)
    ensures AllReflect(Run(window, ops).0, Log(window, ops))
  {
    if ops != [] {
      hide AllReflect, Run, Log;
      var k := |ops| - 1;
      RunReflects(window, ops[..k]);
      StepReflects(window, ops[..k], ops[k]);
      assert ops[..k] + [ops[k]] == ops;
    }
  }

  /** Every celebration that a call emits, in every run, lists exactly the distinct recipients
      accepted since its entry was opened, in order of arrival, with the total and gifter of the
      first start that carried a total and the number of recipients still missing. */
  lemma CelebrationListsRecipients(window: int, ops: seq<Op>, op: Op, c: Celebration)
    requires c in Step(Run(window, ops).0, op).1
    ensures var log := Log(window, ops + [op]);
            && c.communityID in log
            && c.recipients == Listed(log[c.communityID])
            && c.total > 0
            && FirstStart(log[c.communityID]).Started?
            && c.total == FirstStart(log[c.communityID]).a.e.total
            && c.gifter == FirstStart(log[c.communityID]).a.e.gifter
            && c.missing == if c.total > |c.recipients| then c.total - |c.recipients| else 0
  {
    var s := Run(window, ops).0;
    RunReflects(window, ops);
    EmittedOnce(window, ops);
    hide Updated, Run, Log, Clock, Listed, KeysIn, Inv;
    match op
    case Accepted(e, now) =>
      AcceptReflects(window, ops, e, now);
      UpdatedKeepsId(Entry(s, e.communityID, now), e, now);
      assert c.communityID == e.communityID by { EntryId(s, e.communityID, now); }
    case Flushed(now) =>
      FlushExact(s, now);
      FlushKeepsLog(window, ops, now);
      var id :| Due(s, id, now) && c == Closed(s.pending[id]);
      assert c.communityID == id by { PendingIds(s, id); }
  }

  lemma FlushKeepsLog(window: int, ops: seq<Op>, now: int)
    ensures Log(window, ops + [Flushed(now)]) == Log(window, ops)
  {
    assert (ops + [Flushed(now)])[..|ops|] == ops;
  }

  lemma EntryId(s: State, id: string, now: int)
    requires Inv(s)
    ensures Entry(s, id, now).c.communityID == id
  {
  }

  lemma PendingIds(s: State, id: string)
    requires Inv(s) && id in s.pending
    ensures s.pending[id].c.communityID == id
  {
  }

  /** A recipient goes by its id, or without one by its name in lower case. */
  lemma KeyIs(e: Event)
    ensures e.recipientID != "" ==> KeyOf(e) == e.recipientID
    ensures e.recipientID == "" ==>
              && |KeyOf(e)| == |e.recipient|
              && forall i :: 0 <= i < |e.recipient| ==>
                   KeyOf(e)[i] == if 'A' <= e.recipient[i] <= 'Z' then e.recipient[i] - 'A' + 'a' else e.recipient[i]
  {
    Lowered(e.recipient);
  }

  lemma {:induction false} Lowered(s: string)
    ensures |ToLower(s)| == |s|
    ensures forall i :: 0 <= i < |s| ==> ToLower(s)[i] == if 'A' <= s[i] <= 'Z' then s[i] - 'A' + 'a' else s[i]
  {
    if s != [] {
      Lowered(s[1..]);
      assert forall i :: 0 < i < |s| ==> ToLower(s)[i] == ToLower(s[1..])[i - 1];
    }
  }

  /** All the recipients that the first total asks for have arrived. */
  predicate AllArrived(es: seq<Arrival>)
  {
    match FirstStart(es)
    case NotStarted => false
    case Started(a) => a.e.total > 0 && |Listed(es)| >= a.e.total
  }

  /** What one more event does in any run. Events without a community, or of one that was celebrated,
      do nothing. Any other is added to its community's log, and the community is celebrated in that
      very call exactly when the log's first start with a total has a positive one and as many
      recipients have arrived; otherwise its entry stays open. No other entry changes. */
  lemma AcceptExactly(window: int, ops: seq<Op>, e: Event, now: int)
    ensures var s := Run(window, ops).0; var (t, out) := Step(s, Accepted(e, now));
            e.communityID == "" || e.communityID in s.completed ==> t == s && out == []
    ensures var s, id := Run(window, ops).0, e.communityID; var (t, out) := Step(s, Accepted(e, now));
            id != "" && id !in s.completed ==>
              var before, log := Log(window, ops), Log(window, ops + [Accepted(e, now)]);
              && (id in s.pending ==> id in before) && id in log
              && log[id] == (if id in s.pending then before[id] else []) + [Arrival(e, now)]
              && (AllArrived(log[id]) ==>
                    && |out| == 1 && out[0].communityID == id && out[0].recipients == Listed(log[id]) && out[0].missing == 0
                    && id !in t.pending && t.completed == s.completed + {id})
              && (!AllArrived(log[id]) ==> out == [] && id in t.pending && t.completed == s.completed)
              && forall x :: x != id ==> (x in t.pending <==> x in s.pending) && (x in s.pending ==> t.pending[x] == s.pending[x])
  {
    var s, id := Run(window, ops).0, e.communityID;
    RunReflects(window, ops);
    EmittedOnce(window, ops);
    hide Run, Log, Updated, Clock, Listed, KeysIn, Inv, Entry, Closed, Ready, Reflects, FirstStart;
    if id != "" && id !in s.completed {
      LogGrows(window, ops, e, now);
      AcceptReflects(window, ops, e, now);
      EntryId(s, id, now);
      UpdatedKeepsId(Entry(s, id, now), e, now);
      ReadyExactly(Updated(Entry(s, id, now), e, now), Log(window, ops + [Accepted(e, now)])[id]);
    }
  }

  lemma LogGrows(window: int, ops: seq<Op>, e: Event, now: int)
    requires e.communityID != "" && e.communityID !in Run(window, ops).0.completed
    requires AllReflect(Run(window, ops).0, Log(window, ops))
    ensures var s, id := Run(window, ops).0, e.communityID;
            var before, log := Log(window, ops), Log(window, ops + [Accepted(e, now)]);
            && (id in s.pending ==> id in before) && id in log
            && log[id] == (if id in s.pending then before[id] else []) + [Arrival(e, now)]
  {
    hide Reflects, Run;
    assert (ops + [Accepted(e, now)])[..|ops|] == ops;
  }

  lemma ReadyExactly(p: Pending, es: seq<Arrival>)
    requires Reflects(p, es)
    ensures Ready(p) <==> AllArrived(es)
    ensures Closed(p).communityID == p.c.communityID && Closed(p).recipients == Listed(es)
    ensures AllArrived(es) ==> Closed(p).missing == 0
  {
    StartHasTotal(es);
  }

  // ----- timing, said by the times of the events

  /** In every run each open entry counts its window from the first start that carried a total since
      it was opened, or else from the latest start without one, or else from its first event. */
  lemma WindowCountsFrom(window: int, ops: seq<Op>, id: string)
    requires id in Run(window, ops).0.pending
    ensures var s, log := Run(window, ops).0, Log(window, ops);
            && id in log && log[id] != []
            && s.pending[id].started == Clock(log[id])
            && (s.pending[id].c.total == 0 <==> FirstStart(log[id]).NotStarted?)
  {
    hide Run, Log, Clock, Listed, KeysIn;
    RunReflects(window, ops);
    StartHasTotal(Log(window, ops)[id]);
  }

  lemma {:induction false} RunWindow(window: int, ops: seq<Op>)
    ensures Run(window, ops).0.window == window
  {
    if ops != [] {
      RunWindow(window, ops[..|ops| - 1]);
    }
  }

  /** When a flush celebrates or drops an open entry, by event times alone: it is celebrated exactly
      when its first start with a total carried a positive one and came a window or longer ago, and
      dropped exactly when no start carried a total and two windows have passed since its latest
      start, or since its first event if there was no start. */
  lemma FlushByEventTimes(window: int, ops: seq<Op>, now: int, id: string)
    requires id in Run(window, ops).0.pending
    ensures id in Log(window, ops) && Log(window, ops)[id] != []
    ensures var s, es := Run(window, ops).0, Log(window, ops)[id];
            var (t, out) := FlushStep(s, now);
            && (id in Ids(out) <==>
                  match FirstStart(es) case Started(a) => a.e.total > 0 && now >= a.at + window case NotStarted => false)
            && (id !in t.pending && id !in Ids(out) <==>
                  FirstStart(es).NotStarted?
                  && now >= (match LatestStart(es) case Started(a) => a.at case NotStarted => es[0].at) + 2 * window)
  {
    hide Run, Log, Listed, KeysIn, FlushStep, Inv;
    var s := Run(window, ops).0;
    RunWindow(window, ops);
    EmittedOnce(window, ops);
    WindowCountsFrom(window, ops, id);
    RunReflects(window, ops);
    FlushExact(s, now);
  }

  /** Once an entry has a total, nothing that follows moves its deadline, its total or its gifter, for
      as long as it is open; and it is not closed without being celebrated. */
  lemma {:induction false} StartIsFinal(window: int, ops: seq<Op>, later: seq<Op>, id: string)
    requires id in Run(window, ops).0.pending && Run(window, ops).0.pending[id].c.total != 0
    ensures var p, t := Run(window, ops).0.pending[id], Run(window, ops + later).0;
            if id in t.pending then SameStart(p, t.pending[id]) else id in t.completed
    decreases |later|
  {
    if later == [] {
      assert ops + later == ops;
    } else {
      hide Run, Step, Inv, SameStart;
      var k := |later| - 1;
      var before, op := ops + later[..k], later[k];
      assert ops + later == before + [op];
      RunLast(window, before, op);
      var p, s := Run(window, ops).0.pending[id], Run(window, before).0;
      StartIsFinal(window, ops, later[..k], id);
      EmittedOnce(window, before);
      StepKeepsStart(s, op, id);
      if id in s.pending && id in Step(s, op).0.pending {
        SameStartTransitive(p, s.pending[id], Step(s, op).0.pending[id]);
      }
    }
  }

  predicate SameStart(p: Pending, q: Pending)
  {
    q.started == p.started && q.c.total == p.c.total != 0 && q.c.gifter == p.c.gifter
  }

  lemma SameStartTransitive(p: Pending, q: Pending, r: Pending)
    requires SameStart(p, q)
    ensures q.c.total != 0 && (SameStart(q, r) ==> SameStart(p, r))
  {
  }

  lemma StepKeepsStart(s: State, op: Op, id: string)
    requires Inv(s)
    ensures var t := Step(s, op).0;
            && (id in s.completed ==> id in t.completed && id !in t.pending)
            && (id in s.pending && s.pending[id].c.total != 0 ==>
                  if id in t.pending then SameStart(s.pending[id], t.pending[id]) else id in t.completed)
  {
    match op
    case Accepted(e, now) =>
      hide FlushStep;
    case Flushed(now) =>
      hide AcceptStep, FlushStep, Inv;
      FlushState(s, now);
      assert id in s.completed ==> id !in s.pending by { CompletedIsClosed(s, id); }
  }

  lemma CompletedIsClosed(s: State, id: string)
    requires Inv(s)
    ensures id in s.completed ==> id !in s.pending
  {
  }

  // ----- order of first arrival

  function Arrivals(ops: seq<Op>): seq<string>
  {
    if ops == [] then []
    else
      var op := ops[|ops| - 1];
      Arrivals(ops[..|ops| - 1]) + if op.Accepted? && op.e.communityID != "" then [op.e.communityID] else []
  }

  lemma FirstsSkipsKnown(order: seq<string>, id: string)
    ensures Firsts(order + [id]) == if id in order then Firsts(order) else Firsts(order) + [id]
  {
    assert (order + [id])[..|order|] == order;
  }

  /** The collector's order list, repeats aside, is the order in which ids first arrived. */
  lemma {:induction false} OrderIsFirstArrival(window: int, ops: seq<Op>)
    ensures Firsts(Run(window, ops).0.order) == Firsts(Arrivals(ops))
    ensures forall id :: id in Run(window, ops).0.order <==> id in Arrivals(ops)
  {
    if ops != [] {
      hide Updated, Firsts, Inv, AcceptStep;
      var k := |ops| - 1;
      var s := Run(window, ops[..k]).0;
      OrderIsFirstArrival(window, ops[..k]);
      EmittedOnce(window, ops[..k]);
      match ops[k]
      case Flushed(_) => assert Arrivals(ops[..k]) + [] == Arrivals(ops[..k]);
      case Accepted(e, now) =>
        assert Arrivals(ops[..k]) + [] == Arrivals(ops[..k]);
        AcceptOrder(s, e, now);
        FirstsSkipsKnown(s.order, e.communityID);
        FirstsSkipsKnown(Arrivals(ops[..k]), e.communityID);
    }
  }

  lemma AcceptOrder(s: State, e: Event, now: int)
    requires Inv(s)
    ensures var t := AcceptStep(s, e, now).0;
            t.order == s.order + [e.communityID] || (t.order == s.order && (e.communityID == "" || e.communityID in s.order))
  {
  }

  lemma {:induction false} FirstsOrder(order: seq<string>, i: nat, j: nat) returns (p: nat)
    requires i < j < |Firsts(order)|
    ensures p < |order| && order[p] == Firsts(order)[i] && Firsts(order)[j] !in order[..p + 1]
  {
    var k := |order| - 1;
    var f := Firsts(order[..k]);
    if j < |f| {
      p := FirstsOrder(order[..k], i, j);
      assert order[..k][..p + 1] == order[..p + 1];
    } else {
      FirstsExact(order[..k]);
      assert f[i] in f && f[i] in order[..k];
      p :| 0 <= p < k && order[..k][p] == f[i];
      assert order[..p + 1] == order[..k][..p + 1];
    }
  }

  lemma {:induction false} DueInOrder(ids: seq<string>, s: State, now: int, i: nat, j: nat) returns (a: nat, b: nat)
    requires i < j < |DueIds(ids, s, now)|
    ensures a < b < |ids| && ids[a] == DueIds(ids, s, now)[i] && ids[b] == DueIds(ids, s, now)[j]
  {
    hide Due;
    var k := |ids| - 1;
    var due := DueIds(ids[..k], s, now);
    if j < |due| {
      a, b := DueInOrder(ids[..k], s, now, i, j);
    } else {
      b := k;
      a := DueAt(ids[..k], s, now, i);
    }
  }

  lemma {:induction false} DueAt(ids: seq<string>, s: State, now: int, i: nat) returns (a: nat)
    requires i < |DueIds(ids, s, now)|
    ensures a < |ids| && ids[a] == DueIds(ids, s, now)[i]
  {
    hide Due;
    var k := |ids| - 1;
    if i < |DueIds(ids[..k], s, now)| {
      a := DueAt(ids[..k], s, now, i);
    } else {
      a := k;
    }
  }

  /** Of two communities celebrated by one flush, the first one had arrived when the second had not. */
  lemma FlushInArrivalOrder(window: int, ops: seq<Op>, now: int, i: nat, j: nat) returns (p: nat)
    requires i < j < |Ids(FlushStep(Run(window, ops).0, now).1)|
    ensures var ids := Ids(FlushStep(Run(window, ops).0, now).1);
            p < |Arrivals(ops)| && Arrivals(ops)[p] == ids[i] && ids[j] !in Arrivals(ops)[..p + 1]
  {
    hide Run, FlushStep, Inv, Due, Firsts, DueIds, Arrivals;
    var s := Run(window, ops).0;
    EmittedOnce(window, ops);
    FlushExact(s, now);
    OrderIsFirstArrival(window, ops);
    var a, b := DueInOrder(Firsts(s.order), s, now, i, j);
    p := FirstsOrder(Arrivals(ops), a, b);
  }

  // ----- deadlines

  ghost predicate AllDeadlinesAfter(s: State, now: int)
  {
    forall id :: id in s.pending && s.pending[id].c.total != 0 ==> s.pending[id].started + s.window > now
  }

  /** After a flush every deadline that NextDue looks at lies in the future, exactly when no entry
      with a negative total was already past its deadline: such an entry is never flushed. */
  lemma DeadlinesAfterFlush(s: State, now: int)
    requires Inv(s)
    ensures AllDeadlinesAfter(FlushStep(s, now).0, now) <==>
            forall id :: id in s.pending && s.pending[id].c.total < 0 ==> s.pending[id].started + s.window > now
  {
    hide Inv, FlushStep;
    FlushExact(s, now);
    var t := FlushStep(s, now).0;
    SameWindow(s, now);
    if AllDeadlinesAfter(t, now) {
      forall id | id in s.pending && s.pending[id].c.total < 0
        ensures s.pending[id].started + s.window > now
      {
        assert id in t.pending;
      }
    }
  }

  lemma SameWindow(s: State, now: int)
    ensures FlushStep(s, now).0.window == s.window
  {
  }

  /** Totals stay non-negative when every start carries a positive total, as parsing demands. */
  predicate Parsed(op: Op) { op.Accepted? && op.e.kind.KindStart? ==> op.e.total > 0 }

  lemma {:induction false} TotalsNonNegative(window: int, ops: seq<Op>)
    requires forall op :: op in ops ==> Parsed(op)
    ensures forall id :: id in Run(window, ops).0.pending ==> Run(window, ops).0.pending[id].c.total >= 0
  {
    if ops != [] {
      var k := |ops| - 1;
      assert ops[k] in ops;
      assert forall op :: op in ops[..k] ==> op in ops;
      TotalsNonNegative(window, ops[..k]);
    }
  }

  /** On parsed events, whatever NextDue answers right after a flush is strictly in the future. */
  lemma NextDueAfterFlush(window: int, ops: seq<Op>, now: int, best: int, ok: bool)
    requires forall op :: op in ops ==> Parsed(op)
    requires IsNextDue(FlushStep(Run(window, ops).0, now).0, best, ok) && ok
    ensures best > now
  {
    hide Run, FlushStep, Inv;
    var s := Run(window, ops).0;
    EmittedOnce(window, ops);
    TotalsNonNegative(window, ops);
    DeadlinesAfterFlush(s, now);
    SameWindow(s, now);
  }

  /** An event with a negative total, which parsing never lets through, would break it. */
  lemma NegativeTotalStaysDue()
    ensures var e := Event(KindStart, "c", -1, "", "", "");
            var t := FlushStep(AcceptStep(State(10, map[], {}, []), e, 5).0, 20).0;
            !AllDeadlinesAfter(t, 20)
  {
    var e := Event(KindStart, "c", -1, "", "", "");
    var t := FlushStep(AcceptStep(State(10, map[], {}, []), e, 5).0, 20).0;
    assert "c" in t.pending;
  }

  /** Two started entries, one of them due at the zero instant: depending on the order in which the
      map is visited, NextDue answers the later deadline or that there is none. */
  lemma ZeroInstantIsNone()
    ensures var a, b := Event(KindStart, "a", 10, "", "", ""), Event(KindStart, "b", 10, "", "", "");
            var s := Run(10, [Accepted(a, -10), Accepted(b, -5)]).0;
            && Earliest(s, "a") && Deadline(s, "a") == 0
            && Visits(s, ["a", "b"]) && Scan(s, ["a", "b"]) == 5
            && Visits(s, ["b", "a"]) && Scan(s, ["b", "a"]) == 0
  {
    var a, b := Event(KindStart, "a", 10, "", "", ""), Event(KindStart, "b", 10, "", "", "");
    var s0 := State(10, map[], {}, []);
    var s1 := State(10, map["a" := Updated(Opened("a", -10), a, -10)], {}, ["a"]);
    var s2 := State(10, s1.pending["b" := Updated(Opened("b", -5), b, -5)], {}, ["a", "b"]);
    assert "a" != "b" by { assert "a"[0] != "b"[0]; }
    assert AcceptStep(s0, a, -10).0 == s1 && AcceptStep(s1, b, -5).0 == s2;
    RunLast(10, [], Accepted(a, -10));
    RunLast(10, [Accepted(a, -10)], Accepted(b, -5));
    assert [] + [Accepted(a, -10)] == [Accepted(a, -10)];
    assert [Accepted(a, -10)] + [Accepted(b, -5)] == [Accepted(a, -10), Accepted(b, -5)];
    TwoScans(s2);
  }

  lemma TwoScans(s: State)
    requires HasDeadline(s, "a") && HasDeadline(s, "b") && Deadline(s, "a") == 0 && Deadline(s, "b") == 5
    ensures Scan(s, ["a", "b"]) == 5 && Scan(s, ["b", "a"]) == 0
  {
    assert ["a", "b"][..1] == ["a"] && ["b", "a"][..1] == ["b"] && ["a"][..0] == [] && ["b"][..0] == [];
    assert Scan(s, []) == 0;
    assert Scan(s, ["a"]) == 0 && Scan(s, ["b"]) == 5;
  }
}
