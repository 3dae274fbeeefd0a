/** Collecting the scattered notifications of one community gift into one celebration. */
module GiftCollector {

  datatype Kind = KindUnknown | KindStart | KindRecipient

  datatype Event = Event(kind: Kind, communityID: string, total: int, gifter: string, recipient: string, recipientID: string)

  datatype Celebration = Celebration(communityID: string, total: int, gifter: string, recipients: seq<string>, missing: int)

  /** An open entry; times are instants on one clock, 0 being Go's zero time. */
  datatype Pending = Pending(c: Celebration, started: int, seen: set<string>)

  datatype State = State(window: int, pending: map<string, Pending>, completed: set<string>, order: seq<string>)

  /** Lower case of the ASCII names that reach the collector. */
  function ToLower(s: string): string
  {
    if s == [] then []
    else [if 'A' <= s[0] <= 'Z' then s[0] - 'A' + 'a' else s[0]] + ToLower(s[1..])
  }

  function KeyOf(e: Event): string
  {
    if e.recipientID == "" then ToLower(e.recipient) else e.recipientID
  }

  /** Events that name a recipient. */
  predicate Names(e: Event) { e.kind.KindRecipient? && e.recipient != "" }

  // ----- one call of Accept

  function Opened(id: string, now: int): Pending
  {
    Pending(Celebration(id, 0, "", [], 0), now, {})
  }

  function Entry(s: State, id: string, now: int): Pending
  {
    if id in s.pending then s.pending[id] else Opened(id, now)
  }

  function Updated(p: Pending, e: Event, now: int): Pending
  {
    var q := if e.kind.KindStart? && p.c.total == 0
             then Pending(p.c.(total := e.total, gifter := e.gifter), now, p.seen) else p;
    if Names(e) && KeyOf(e) !in q.seen
    then Pending(q.c.(recipients := q.c.recipients + [e.recipient]), q.started, q.seen + {KeyOf(e)}) else q
  }

  predicate Ready(p: Pending) { p.c.total > 0 && |p.c.recipients| >= p.c.total }

  function Closed(p: Pending): Celebration
  {
    var m := p.c.total - |p.c.recipients|;
    p.c.(missing := if m < 0 then 0 else m)
  }

  predicate Ignored(s: State, e: Event) { e.communityID == "" || e.communityID in s.completed }

  function AcceptStep(s: State, e: Event, now: int): (State, seq<Celebration>)
  {
    var id := e.communityID;
    if Ignored(s, e) then (s, [])
    else
      var p := Updated(Entry(s, id, now), e, now);
      var order := if id in s.pending then s.order else s.order + [id];
      if Ready(p) then
        (State(s.window, s.pending - {id}, s.completed + {id}, order), [Closed(p)])
      else
        (State(s.window, s.pending[id := p], s.completed, order), [])
  }

  // ----- one call of FlushDue, said without its loop

  predicate Due(s: State, id: string, now: int)
  {
    id in s.pending && s.pending[id].c.total > 0 && now >= s.pending[id].started + s.window
  }

  predicate Expired(s: State, id: string, now: int)
  {
    id in s.pending && s.pending[id].c.total == 0 && now >= s.pending[id].started + 2 * s.window
  }

  /** The ids of `order`, each at its first occurrence only. */
  function Firsts(order: seq<string>): seq<string>
  {
    if order == [] then []
    else
      var k := |order| - 1;
      Firsts(order[..k]) + if order[k] in order[..k] then [] else [order[k]]
  }

  function DueOf(ids: seq<string>, s: State, now: int): seq<Celebration>
  {
    if ids == [] then []
    else
      var k := |ids| - 1;
      DueOf(ids[..k], s, now) + if Due(s, ids[k], now) then [Closed(s.pending[ids[k]])] else []
  }

  function FlushStep(s: State, now: int): (State, seq<Celebration>)
  {
    (State(s.window,
           map id | id in s.pending && !(id in s.order && (Due(s, id, now) || Expired(s, id, now))) :: s.pending[id],
           s.completed + (set id | id in s.pending && id in s.order && Due(s, id, now)),
           s.order),
     DueOf(Firsts(s.order), s, now))
  }

  // ----- the next deadline

  predicate HasDeadline(s: State, id: string) { id in s.pending && s.pending[id].c.total != 0 }

  function Deadline(s: State, id: string): int
    requires id in s.pending
  {
    s.pending[id].started + s.window
  }

  ghost predicate Earliest(s: State, id: string)
  {
    HasDeadline(s, id) && forall x :: HasDeadline(s, x) ==> Deadline(s, id) <= Deadline(s, x)
  }

  /** What NextDue answers: nothing when no entry has a deadline; otherwise the earliest deadline if
      and only if that is not the zero instant, which stands for "none" in the loop. */
  ghost predicate IsNextDue(s: State, best: int, ok: bool)
  {
    && (ok <==> best != 0)
    && (ok ==> exists id :: HasDeadline(s, id) && best == Deadline(s, id))
    && (forall id :: HasDeadline(s, id) ==> exists first :: Earliest(s, first))
    && (forall id :: Earliest(s, id) ==> ((ok && best == Deadline(s, id)) <==> Deadline(s, id) != 0))
  }

  /** The best deadline after looking at the entries in the order ids. */
  function Scan(s: State, ids: seq<string>): int
    requires forall id :: id in ids ==> id in s.pending
  {
    if ids == [] then 0
    else
      var k := |ids| - 1;
      var best := Scan(s, ids[..k]);
      assert ids[k] in ids;
      if s.pending[ids[k]].c.total != 0 && (best == 0 || Deadline(s, ids[k]) < best) then Deadline(s, ids[k]) else best
  }

  /** An order in which a loop over the map may visit the entries. */
  ghost predicate Visits(s: State, ids: seq<string>)
  {
    (forall id :: id in ids <==> id in s.pending) && forall i, j :: 0 <= i < j < |ids| ==> ids[i] != ids[j]
  }

  /** The scan of some entries, one of which has the earliest deadline among them. */
  lemma {:induction false} ScanFinds(s: State, ids: seq<string>) returns (first: string)
    requires forall id :: id in ids ==> id in s.pending
    ensures Scan(s, ids) != 0 ==> exists id :: id in ids && HasDeadline(s, id) && Scan(s, ids) == Deadline(s, id)
    ensures forall id :: id in ids && HasDeadline(s, id) ==>
              first in ids && HasDeadline(s, first) && Deadline(s, first) <= Deadline(s, id)
    ensures first in ids && HasDeadline(s, first) && Deadline(s, first) != 0 ==> Scan(s, ids) == Deadline(s, first)
  {
    if ids == [] {
      first := "";
    } else {
      var k := |ids| - 1;
      assert forall id :: id in ids <==> id in ids[..k] || id == ids[k];
      first := ScanFinds(s, ids[..k]);
      if HasDeadline(s, ids[k]) &&
         !(first in ids[..k] && HasDeadline(s, first) && Deadline(s, first) <= Deadline(s, ids[k])) {
        first := ids[k];
      }
    }
  }

  /** In whatever order the map is visited, the answer is the next deadline in the sense above. */
  lemma ScanIsNextDue(s: State, ids: seq<string>)
    requires Visits(s, ids)
    ensures IsNextDue(s, Scan(s, ids), Scan(s, ids) != 0)
  {
    var first := ScanFinds(s, ids);
    if first in ids && HasDeadline(s, first) {
      assert Earliest(s, first);
    }
  }

  class Collector {
    const window: int
    var pending: map<string, Pending>
    var completed: set<string>
    var order: seq<string>

    function View(): State
      reads this
    {
      State(window, pending, completed, order)
    }

    constructor (window: int)
      ensures View() == State(window, map[], {}, [])
    {
      this.window, pending, completed, order := window, map[], {}, [];
    }

    method Accept(e: Event, now: int) returns (out: seq<Celebration>)
      modifies this
      ensures (View(), out) == AcceptStep(old(View()), e, now)
    {
      var id := e.communityID;
      if id == "" || id in completed {
        return [];
      }
      var p := Opened(id, now);
      if id in pending {
        p := pending[id];
      } else {
        pending := pending[id := p];
        order := order + [id];
      }
      if e.kind.KindStart? && p.c.total == 0 {
        p := p.(c := p.c.(total := e.total, gifter := e.gifter), started := now);
        pending := pending[id := p];
      }
      if e.kind.KindRecipient? {
        var key := e.recipientID;
        if key == "" {
          key := ToLower(e.recipient);
        }
        if e.recipient != "" && key !in p.seen {
          p := p.(c := p.c.(recipients := p.c.recipients + [e.recipient]), seen := p.seen + {key});
          pending := pending[id := p];
        }
      }
      assert p == Updated(Entry(old(View()), id, now), e, now);
      assert pending == old(pending)[id := p];
      if p.c.total > 0 && |p.c.recipients| >= p.c.total {
        var c := Finish(id);
        assert pending == old(pending) - {id};
        return [c];
      }
      return [];
    }

    method Finish(id: string) returns (c: Celebration)
      requires id in pending
      modifies this
      ensures c == Closed(old(pending[id]))
      ensures pending == old(pending) - {id} && completed == old(completed) + {id} && order == old(order)
    {
      var p := pending[id];
      pending := pending - {id};
      completed := completed + {id};
      var missing := p.c.total - |p.c.recipients|;
      if missing < 0 {
        missing := 0;
      }
      c := p.c.(missing := missing);
    }

    method FlushDue(now: int) returns (out: seq<Celebration>)
      modifies this
      ensures (View(), out) == FlushStep(old(View()), now)
    {
      out := [];
      ghost var s := View();
      assert pending == Remaining(s, now, 0);
      assert completed == Emitted(s, now, 0);
      for i := 0 to |order|
        invariant order == s.order
        invariant pending == Remaining(s, now, i) && completed == Emitted(s, now, i)
        invariant out == DueOf(Firsts(s.order[..i]), s, now)
      {
        var id := order[i];
        OneMoreFlushed(s, now, i);
        if id in pending {
          var p := pending[id];
          if p.c.total > 0 && now >= p.started + window {
            var c := Finish(id);
            out := out + [c];
          }
          if p.c.total == 0 && now >= p.started + 2 * window {
            pending := pending - {id};
          }
        }
      }
      AllFlushed(s, now);
    }

    method NextDue() returns (best: int, ok: bool)
      ensures exists ids :: Visits(View(), ids) && best == Scan(View(), ids)
      ensures IsNextDue(View(), best, ok)
    {
      best := 0;
      var rest := pending.Keys;
      ghost var ids: seq<string> := [];
      while rest != {}
        invariant forall id :: id in pending <==> id in ids || id in rest
        invariant forall id :: id in ids ==> id in View().pending && id !in rest
        invariant forall i, j :: 0 <= i < j < |ids| ==> ids[i] != ids[j]
        invariant best == Scan(View(), ids)
        decreases rest
      {
        var id :| id in rest;
        rest := rest - {id};
        assert (ids + [id])[..|ids|] == ids;
        ids := ids + [id];
        var p := pending[id];
        if p.c.total != 0 {
          var due := p.started + window;
          if best == 0 || due < best {
            best := due;
          }
        }
      }
      ok := best != 0;
      assert Visits(View(), ids);
      ScanIsNextDue(View(), ids);
    }
  }

  // ----- the flush loop

  /** Entries left, and ids completed, once the first i ids of `order` are visited. */
  function Remaining(s: State, now: int, i: nat): map<string, Pending>
    requires i <= |s.order|
  {
    map id | id in s.pending && !(id in s.order[..i] && (Due(s, id, now) || Expired(s, id, now))) :: s.pending[id]
  }

  function Emitted(s: State, now: int, i: nat): set<string>
    requires i <= |s.order|
  {
    s.completed + (set id | id in s.pending && id in s.order[..i] && Due(s, id, now))
  }

  lemma OneMoreFlushed(s: State, now: int, i: nat)
    requires i < |s.order|
    ensures var id := s.order[i]; var again := id in s.order[..i];
            && Remaining(s, now, i + 1)
               == (if Due(s, id, now) || Expired(s, id, now) then Remaining(s, now, i) - {id} else Remaining(s, now, i))
            && Emitted(s, now, i + 1) == (if Due(s, id, now) then Emitted(s, now, i) + {id} else Emitted(s, now, i))
            && DueOf(Firsts(s.order[..i + 1]), s, now)
               == DueOf(Firsts(s.order[..i]), s, now) + (if Due(s, id, now) && !again then [Closed(s.pending[id])] else [])
            && (id in Remaining(s, now, i) <==> id in s.pending && !(again && (Due(s, id, now) || Expired(s, id, now))))
  {
    var id := s.order[i];
    assert forall x :: x in s.order[..i + 1] <==> x in s.order[..i] || x == id;
    assert s.order[..i + 1][..i] == s.order[..i];
    if id !in s.order[..i] {
      var f := Firsts(s.order[..i]);
      assert Firsts(s.order[..i + 1]) == f + [id];
      assert (f + [id])[..|f|] == f;
    } else {
      assert Firsts(s.order[..i + 1]) == Firsts(s.order[..i]);
    }
  }

  lemma AllFlushed(s: State, now: int)
    ensures Remaining(s, now, |s.order|) == FlushStep(s, now).0.pending
    ensures Emitted(s, now, |s.order|) == FlushStep(s, now).0.completed
    ensures s.order[..|s.order|] == s.order
  {
    assert s.order[..|s.order|] == s.order;
  }
}
