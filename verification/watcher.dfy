/**
 * One iteration of a watcher's loop between `cc.lock.Lock()` and the matching
 * `Unlock()`: it looks at the heap and decides to retire, to fire the earliest
 * future (on a new sibling watcher or on itself), or to wait. Time is an
 * integer count of nanoseconds; the wait itself, the timer and the wake
 * channel stay outside this step, which only returns how long to wait.
 */
module Watcher {
  import opened Futures
  import opened CallControl

  const Second := 1_000_000_000

  /** How long a watcher that found the heap empty waits before looking again. */
  const IdleTimeout := 30 * Second

  /** What the watcher does once it releases the lock. */
  datatype Decision =
    | Exit               // `watchers--` and return
    | Spawn(fu: Id)      // popped `fu`; `watchers++` and `go cc.watcher(f)`
    | RunInline(fu: Id)  // popped `fu`; at the cap, so call `f` on this watcher
    | Wait(tmt: int)     // wait `tmt`, or less if a wake signal arrives

  /** The state after the step, the watcher's `misCount`, and its decision. */
  datatype Turn = Turn(c: Control, misCount: bool, d: Decision)

  /** Some pending future's fire time lies strictly before `now`. */
  ghost predicate Overdue(c: Control, now: int)
    requires Inv(c)
  {
    exists k :: 0 <= k < |c.h.fs| && c.h.mem[c.h.fs[k]].fireT < now
  }

  /** The locked section of `callControl.watcher`, run by one of the
      `c.watchers` running watchers. */
  function Step(c: Control, now: int, misCount: bool): (r: Turn)
    requires Inv(c) && 1 <= c.watchers
    ensures Inv(r.c)
    // a future fires exactly when one is overdue, and it is an earliest one
    ensures r.d.Spawn? || r.d.RunInline? <==> Overdue(c, now)
    ensures r.d.Spawn? || r.d.RunInline? ==>
              && r.d.fu in c.h.fs
              && c.h.mem[r.d.fu].hasF
              && c.h.mem[r.d.fu].fireT < now
              && (forall k :: 0 <= k < |c.h.fs| ==> c.h.mem[r.d.fu].fireT <= c.h.mem[c.h.fs[k]].fireT)
              && multiset(r.c.h.fs) == multiset(c.h.fs) - multiset{r.d.fu}
              && SameFutures(c.h.mem, r.c.h.mem)
              && r.c.h.mem[r.d.fu].idx == -1
              && !r.misCount
    ensures r.d.Spawn? ==> c.watchers < MaxWatchers && r.c.watchers == c.watchers + 1
    ensures r.d.RunInline? ==> c.watchers == MaxWatchers && r.c.watchers == c.watchers
    // with nothing overdue, a watcher retires when another one remains, or on
    // its second consecutive look at an empty heap
    ensures r.d.Exit? <==>
              !Overdue(c, now) && (1 < c.watchers || (|c.h.fs| == 0 && misCount))
    ensures r.d.Exit? ==> r.c.h == c.h && r.c.watchers == c.watchers - 1
    // otherwise it waits until the earliest fire time, or idles
    ensures r.d.Wait? ==> r.c == c && 0 <= r.d.tmt
    ensures r.d.Wait? && |c.h.fs| == 0 ==> r.d.tmt == IdleTimeout && r.misCount
    ensures r.d.Wait? && |c.h.fs| > 0 ==>
              && !r.misCount
              && (forall k :: 0 <= k < |c.h.fs| ==> now + r.d.tmt <= c.h.mem[c.h.fs[k]].fireT)
              && (exists k :: 0 <= k < |c.h.fs| && now + r.d.tmt == c.h.mem[c.h.fs[k]].fireT)
  {
    OverdueIffRootOverdue(c, now);
    if |c.h.fs| == 0 then
      if c.watchers > 1 || misCount then
        Turn(c.(watchers := c.watchers - 1), misCount, Exit)
      else
        Turn(c, true, Wait(IdleTimeout))
    else
      var fireT := c.h.mem[c.h.fs[0]].fireT;
      if now > fireT then
        PopKeepsCharged(c);
        var (h, fu) := Pop(c.h);
        if c.watchers < MaxWatchers then
          Turn(Control(h, c.watchers + 1), false, Spawn(fu))
        else
          Turn(Control(h, c.watchers), false, RunInline(fu))
      else if c.watchers > 1 then
        Turn(c.(watchers := c.watchers - 1), false, Exit)
      else
        Turn(c, false, Wait(fireT - now))
  }

  /** Some future is overdue exactly when the root is, and the root's fire time
      is an earliest one. */
  lemma OverdueIffRootOverdue(c: Control, now: int)
    requires Inv(c)
    ensures Overdue(c, now) <==> |c.h.fs| > 0 && c.h.mem[c.h.fs[0]].fireT < now
    ensures |c.h.fs| > 0 ==>
              forall k :: 0 <= k < |c.h.fs| ==> c.h.mem[c.h.fs[0]].fireT <= c.h.mem[c.h.fs[k]].fireT
  {
    if |c.h.fs| > 0 {
      RootIsEarliest(c.h);
    }
  }

  /** Popping the root of a charged heap yields a charged future that was in
      the heap and leaves only charged futures behind. */
  lemma PopKeepsCharged(c: Control)
    requires Inv(c) && |c.h.fs| > 0
    ensures var (h, fu) := Pop(c.h);
            && fu in c.h.fs && c.h.mem[fu].hasF
            && forall k :: 0 <= k < |h.fs| ==> h.mem[h.fs[k]].hasF
  {
    var (h, fu) := Pop(c.h);
    IdxIsPosition(h, fu);
    ChargedAfterRemoval(c.h, h, fu);
  }

  /** With the heap empty and no wake signal between looks, the last watcher
      idles once for IdleTimeout and retires on its second look, leaving no
      watcher running. */
  lemma LastIdleWatcherRetires(c: Control, now: int, later: int)
    requires Inv(c) && |c.h.fs| == 0 && c.watchers == 1
    ensures var first := Step(c, now, false);
            && first.d == Wait(IdleTimeout)
            && first.misCount
            && var second := Step(first.c, later, first.misCount);
               second.d == Exit && second.c.watchers == 0
  {
  }

  /** A fired future can no longer be cancelled: cancel after fire is a no-op. */
  lemma CancelAfterFireIsNoop(c: Control, now: int, misCount: bool)
    requires Inv(c) && 1 <= c.watchers
    ensures var r := Step(c, now, misCount);
            (r.d.Spawn? || r.d.RunInline?) ==> Cancel(r.c, r.d.fu) == r.c
  {
  }
}
