/**
 * The package as a whole: every access to the shared state happens in one of
 * the locked regions of `Call` (through `add`), `Cancel` (through `cancel`)
 * and the watcher loop, so any execution is a sequence of those regions in
 * some order. Which watcher runs a step, and with which `misCount`, is left
 * open: the event carries it.
 */
module Schedule {
  import opened Futures
  import opened CallControl
  import opened Watcher

  /** One locked region. */
  datatype Event =
    | CallEv(id: Id, hasF: bool, now: int, timeout: int)
    | CancelEv(fu: Handle)
    | WatchEv(now: int, misCount: bool)

  /** The region can occur in this state: `Call` allocates a new future, a
      handle refers to a future that exists, and a watcher step needs a
      running watcher. */
  predicate Enabled(c: Control, e: Event) {
    match e
    case CallEv(id, _, _, _) => id !in c.h.mem
    case CancelEv(fu) => fu.Real? ==> fu.id in c.h.mem
    case WatchEv(_, _) => 1 <= c.watchers
  }

  function Next(c: Control, e: Event): (r: Control)
    requires Inv(c) && Enabled(c, e)
    ensures Inv(r)
    ensures c.h.mem.Keys <= r.h.mem.Keys
  {
    match e
    case CallEv(id, hasF, now, timeout) => Call(c, id, hasF, now, timeout).0
    case CancelEv(fu) => CancelHandle(c, fu)
    case WatchEv(now, misCount) => Step(c, now, misCount).c
  }

  /** Runs the regions in order; one that cannot occur in the state reached
      is skipped. */
  function Run(c: Control, es: seq<Event>): (r: Control)
    requires Inv(c)
    ensures Inv(r)
    ensures 0 <= r.watchers <= MaxWatchers
    ensures |r.h.fs| > 0 ==> 1 <= r.watchers
    ensures c.h.mem.Keys <= r.h.mem.Keys
    decreases |es|
  {
    if es == [] then c
    else Run(if Enabled(c, es[0]) then Next(c, es[0]) else c, es[1..])
  }

  /** From the initial state, every reachable state keeps the watcher count
      within [0, MaxWatchers] and has a watcher whenever a future is pending. */
  lemma WatchersStayBounded(es: seq<Event>)
    ensures var r := Run(Init(), es);
            && 0 <= r.watchers <= MaxWatchers
            && (|r.h.fs| > 0 ==> 1 <= r.watchers)
  {
  }

  /** A known future that is out of the heap stays out of it through any one
      region: `Call` only adds the future it allocates, and `cancel` and the
      watcher step only take futures out. */
  lemma NextKeepsOut(c: Control, e: Event, id: Id)
    requires Inv(c) && Enabled(c, e) && id in c.h.mem && id !in c.h.fs
    ensures id in Next(c, e).h.mem && id !in Next(c, e).h.fs
  {
    var r := Next(c, e);
    assert multiset(c.h.fs)[id] == 0;
    match e
    case CallEv(nid, hasF, now, timeout) =>
      assert nid != id;
      assert multiset(r.h.fs)[id] == 0;
    case CancelEv(fu) =>
      if fu.Real? && c.h.mem[fu.id].idx >= 0 {
        assert multiset(r.h.fs)[id] == 0;
      }
    case WatchEv(now, misCount) =>
      var t := Step(c, now, misCount);
      if t.d.Spawn? || t.d.RunInline? {
        assert multiset(r.h.fs)[id] == 0;
      }
  }

  /** A known future that is out of the heap stays out through any sequence
      of regions. */
  lemma {:induction false} RunKeepsOut(c: Control, es: seq<Event>, id: Id)
    requires Inv(c) && id in c.h.mem && id !in c.h.fs
    ensures id in Run(c, es).h.mem && id !in Run(c, es).h.fs
    decreases |es|
  {
    if es != [] {
      var c1 := if Enabled(c, es[0]) then Next(c, es[0]) else c;
      if Enabled(c, es[0]) {
        NextKeepsOut(c, es[0], id);
      }
      assert Run(c, es) == Run(c1, es[1..]);
      RunKeepsOut(c1, es[1..], id);
    }
  }

  /** A cancelled future never fires: whatever regions run after the cancel,
      no watcher step fires it. */
  lemma CancelledNeverFires(c: Control, id: Id, es: seq<Event>, now: int, misCount: bool)
    requires Inv(c) && id in c.h.mem
    ensures var c1 := Run(Cancel(c, id), es);
            1 <= c1.watchers ==>
              var r := Step(c1, now, misCount);
              (r.d.Spawn? || r.d.RunInline?) ==> r.d.fu != id
  {
    RunKeepsOut(Cancel(c, id), es, id);
  }

  /** A fired future never fires again: whatever regions run after the step
      that popped it, no later watcher step fires it. */
  lemma FiredNeverFiresAgain(c: Control, now: int, misCount: bool, es: seq<Event>, now': int, misCount': bool)
    requires Inv(c) && 1 <= c.watchers
    ensures var t := Step(c, now, misCount);
            (t.d.Spawn? || t.d.RunInline?) ==>
              var c1 := Run(t.c, es);
              1 <= c1.watchers ==>
                var r := Step(c1, now', misCount');
                (r.d.Spawn? || r.d.RunInline?) ==> r.d.fu != t.d.fu
  {
    var t := Step(c, now, misCount);
    if t.d.Spawn? || t.d.RunInline? {
      IdxIsPosition(t.c.h, t.d.fu);
      RunKeepsOut(t.c, es, t.d.fu);
    }
  }

  /** A future's fire time never changes after `Call` sets it: no region
      writes `fireT`, and `Call` allocates a different future. */
  lemma NextKeepsFireT(c: Control, e: Event, id: Id)
    requires Inv(c) && Enabled(c, e) && id in c.h.mem
    ensures id in Next(c, e).h.mem && Next(c, e).h.mem[id].fireT == c.h.mem[id].fireT
  {
  }

  /** A future's fire time stays the same through any sequence of regions. */
  lemma {:induction false} RunKeepsFireT(c: Control, es: seq<Event>, id: Id)
    requires Inv(c) && id in c.h.mem
    ensures id in Run(c, es).h.mem && Run(c, es).h.mem[id].fireT == c.h.mem[id].fireT
    decreases |es|
  {
    if es != [] {
      var c1 := if Enabled(c, es[0]) then Next(c, es[0]) else c;
      if Enabled(c, es[0]) {
        NextKeepsFireT(c, es[0], id);
      }
      assert Run(c, es) == Run(c1, es[1..]);
      RunKeepsFireT(c1, es[1..], id);
    }
  }

  /** A callback never runs early: whatever regions follow `Call(f, timeout)`
      made at time `now0`, a watcher step fires that future only at a time
      strictly after `now0 + timeout`. */
  lemma NeverFiresEarly(c: Control, id: Id, now0: int, timeout: int, es: seq<Event>, now: int, misCount: bool)
    requires Inv(c) && id !in c.h.mem
    ensures var c1 := Run(Call(c, id, true, now0, timeout).0, es);
            1 <= c1.watchers ==>
              var r := Step(c1, now, misCount);
              (r.d.Spawn? || r.d.RunInline?) && r.d.fu == id ==> now > now0 + timeout
  {
    RunKeepsFireT(Call(c, id, true, now0, timeout).0, es, id);
  }
}
