/**
 The runnable queue of the test multiplexer and its inlining shortcut.

 Deferred units wait in a FIFO list until test code steps through them. While
 the inline counter is positive, a newly scheduled unit runs at once instead,
 and a one-shot callback, if installed, runs right after it. Running a unit is
 recorded as an event in `log`, which is what test code observes.
 */
module RunQueue {
  import opened Base

  datatype Event = Ran(unit: Runnable) | Fired(callback: Callback)

  datatype Scheduler = Scheduler(
    resumables: seq<Runnable>,          // deferred units, front runs first
    inlineRunnables: SizeT,             // how many of the next units run inline
    inlineCallback: Option<Callback>,   // one-shot handler for the next inlined unit
    log: seq<Event>)                    // everything executed so far, in order

  /** The events of running `us` one after the other. */
  function RanAll(us: seq<Runnable>): seq<Event>
  {
    if us == [] then [] else [Ran(us[0])] + RanAll(us[1..])
  }

  /** The event of firing the callback, if one is installed. */
  function FiredIfInstalled(f: Option<Callback>): seq<Event>
  {
    match f
    case None => []
    case Some(c) => [Fired(c)]
  }

  /** The units a log says were executed, in order. */
  function Executed(log: seq<Event>): seq<Runnable>
  {
    if log == [] then []
    else (if log[0].Ran? then [log[0].unit] else []) + Executed(log[1..])
  }

  lemma {:induction false} ExecutedAppend(a: seq<Event>, b: seq<Event>)
    ensures Executed(a + b) == Executed(a) + Executed(b)
    decreases |a|
  {
    if a == [] {
      assert a + b == b;
    } else {
      var head := if a[0].Ran? then [a[0].unit] else [];
      assert (a + b)[0] == a[0];
      assert (a + b)[1..] == a[1..] + b;
      ExecutedAppend(a[1..], b);
      assert Executed(a + b) == head + (Executed(a[1..]) + Executed(b));
      assert head + (Executed(a[1..]) + Executed(b)) == (head + Executed(a[1..])) + Executed(b);
    }
  }

  lemma {:induction false} ExecutedRanAll(us: seq<Runnable>)
    ensures Executed(RanAll(us)) == us
    decreases |us|
  {
    if us != [] {
      assert RanAll(us) == [Ran(us[0])] + RanAll(us[1..]);
      ExecutedAppend([Ran(us[0])], RanAll(us[1..]));
      ExecutedRanAll(us[1..]);
    }
  }

  /**
   `exec_later`: under a positive inline counter the unit runs immediately,
   the counter drops by one and the installed callback fires once and is
   removed; otherwise the unit joins the back of the queue.
   */
  function ExecLater(s: Scheduler, u: Runnable): (r: Scheduler)
    ensures s.inlineRunnables == 0 ==> r == s.(resumables := s.resumables + [u])
    ensures s.inlineRunnables > 0 ==>
      && r.resumables == s.resumables
      && r.inlineRunnables == s.inlineRunnables - 1
      && r.inlineCallback == None
      && r.log == s.log + [Ran(u)] + FiredIfInstalled(s.inlineCallback)
  {
    if s.inlineRunnables > 0 then
      Scheduler(s.resumables, s.inlineRunnables - 1, None,
                s.log + [Ran(u)] + FiredIfInstalled(s.inlineCallback))
    else
      s.(resumables := s.resumables + [u])
  }

  /** A sequence of `exec_later` calls, first element first. */
  function ScheduleAll(s: Scheduler, us: seq<Runnable>): Scheduler
    decreases |us|
  {
    if us == [] then s else ScheduleAll(ExecLater(s, us[0]), us[1..])
  }

  /** `try_exec_runnable`: runs and removes the front unit, if there is one. */
  function TryExecRunnable(s: Scheduler): (r: (Scheduler, bool))
    ensures r.1 <==> s.resumables != []
    ensures r.1 ==> && r.0.resumables == s.resumables[1..]
                    && r.0.log == s.log + [Ran(s.resumables[0])]
    ensures r.0.inlineRunnables == s.inlineRunnables
    ensures r.0.inlineCallback == s.inlineCallback
    ensures !r.1 ==> r.0 == s
  {
    if s.resumables == [] then (s, false)
    else (s.(resumables := s.resumables[1..], log := s.log + [Ran(s.resumables[0])]), true)
  }

  /** `flush_runnables`: steps with `try_exec_runnable` until nothing is left. */
  function FlushRunnables(s: Scheduler): (r: Scheduler)
    ensures r.resumables == []
    ensures r.log == s.log + RanAll(s.resumables)
    ensures r.inlineRunnables == s.inlineRunnables
    ensures r.inlineCallback == s.inlineCallback
    decreases |s.resumables|
  {
    var (t, ran) := TryExecRunnable(s);
    if ran then
      var r := FlushRunnables(t);
      assert r.log == s.log + ([Ran(s.resumables[0])] + RanAll(s.resumables[1..]));
      r
    else t
  }

  /** `inline_next_runnables(num)`: raises the counter, wrapping like `size_t`. */
  function InlineNextRunnables(s: Scheduler, num: SizeT): (r: Scheduler)
    ensures r.inlineRunnables == (s.inlineRunnables + num) % SizeTLimit
    ensures r == s.(inlineRunnables := r.inlineRunnables)
  {
    s.(inlineRunnables := (s.inlineRunnables + num) % SizeTLimit)
  }

  /** `inline_next_runnable()`: the case `num == 1`. */
  function InlineNextRunnable(s: Scheduler): (r: Scheduler)
    ensures r == InlineNextRunnables(s, 1)
    ensures s.inlineRunnables < SizeTLimit - 1 ==> r.inlineRunnables == s.inlineRunnables + 1
  {
    InlineNextRunnables(s, 1)
  }

  /** `reset_inlining()`: no unit scheduled from now on runs inline. */
  function ResetInlining(s: Scheduler): (r: Scheduler)
    ensures r.inlineRunnables == 0
    ensures r == s.(inlineRunnables := 0)
  {
    s.(inlineRunnables := 0)
  }

  /** `after_next_inlined_runnable(f)`: installs `f`, dropping any earlier callback. */
  function AfterNextInlinedRunnable(s: Scheduler, f: Option<Callback>): (r: Scheduler)
    ensures r.inlineCallback == f
    ensures r == s.(inlineCallback := f)
  {
    s.(inlineCallback := f)
  }

  // ---------------------------------------------------------------------------
  // Properties relating several calls
  // ---------------------------------------------------------------------------

  /** Without a positive inline counter, scheduling only appends to the queue, in order. */
  lemma {:induction false} QueuedWhenNotInlining(s: Scheduler, us: seq<Runnable>)
    requires s.inlineRunnables == 0
    ensures ScheduleAll(s, us) == s.(resumables := s.resumables + us)
    decreases |us|
  {
    if us != [] {
      var t := ExecLater(s, us[0]);
      QueuedWhenNotInlining(t, us[1..]);
      assert t.resumables + us[1..] == s.resumables + us;
    }
  }

  /**
   While the counter covers them, scheduled units run at once in order and the
   queue is untouched; the callback fires exactly once, right after the first of
   them, and is gone afterwards.
   */
  lemma {:induction false} InlinedWhileCounterLasts(s: Scheduler, us: seq<Runnable>)
    requires |us| <= s.inlineRunnables
    ensures ScheduleAll(s, us).resumables == s.resumables
    ensures ScheduleAll(s, us).inlineRunnables == s.inlineRunnables - |us|
    ensures us != [] ==>
      && ScheduleAll(s, us).inlineCallback == None
      && ScheduleAll(s, us).log
         == s.log + [Ran(us[0])] + FiredIfInstalled(s.inlineCallback) + RanAll(us[1..])
    ensures us == [] ==> ScheduleAll(s, us) == s
    decreases |us|
  {
    if us != [] {
      var t := ExecLater(s, us[0]);
      InlinedNoCallback(t, us[1..]);
    }
  }

  /** Helper of `InlinedWhileCounterLasts`: with no callback installed, nothing fires. */
  lemma {:induction false} InlinedNoCallback(s: Scheduler, us: seq<Runnable>)
    requires |us| <= s.inlineRunnables
    requires s.inlineCallback == None
    ensures ScheduleAll(s, us) == s.(inlineRunnables := s.inlineRunnables - |us|,
                                     log := s.log + RanAll(us))
    decreases |us|
  {
    if us == [] {
      assert s.log + RanAll(us) == s.log;
    } else {
      var t := ExecLater(s, us[0]);
      assert t == s.(inlineRunnables := s.inlineRunnables - 1, log := s.log + [Ran(us[0])]);
      InlinedNoCallback(t, us[1..]);
      assert RanAll(us) == [Ran(us[0])] + RanAll(us[1..]);
      assert (s.log + [Ran(us[0])]) + RanAll(us[1..]) == s.log + ([Ran(us[0])] + RanAll(us[1..]));
    }
  }

  lemma {:induction false} ScheduleAllSplit(s: Scheduler, a: seq<Runnable>, b: seq<Runnable>)
    ensures ScheduleAll(s, a + b) == ScheduleAll(ScheduleAll(s, a), b)
    decreases |a|
  {
    if a == [] {
      assert a + b == b;
    } else {
      assert (a + b)[1..] == a[1..] + b;
      ScheduleAllSplit(ExecLater(s, a[0]), a[1..], b);
    }
  }

  /**
   FIFO scheduling: with inlining off, units already queued and then `us` are
   executed by `flush_runnables` in exactly that order, leaving the queue empty.
   */
  lemma {:induction false} FifoDrain(s: Scheduler, us: seq<Runnable>)
    requires s.inlineRunnables == 0
    ensures FlushRunnables(ScheduleAll(s, us)).resumables == []
    ensures Executed(FlushRunnables(ScheduleAll(s, us)).log)
            == Executed(s.log) + s.resumables + us
  {
    QueuedWhenNotInlining(s, us);
    ExecutedAppend(s.log, RanAll(s.resumables + us));
    ExecutedRanAll(s.resumables + us);
  }

  /** An inlined unit is recorded as executed; a fired callback is not a unit. */
  lemma ExecLaterInlinedExecuted(s: Scheduler, u: Runnable)
    requires s.inlineRunnables > 0
    ensures Executed(ExecLater(s, u).log) == Executed(s.log) + [u]
  {
    var ins := FiredIfInstalled(s.inlineCallback);
    ExecutedAppend(s.log + [Ran(u)], ins);
    ExecutedAppend(s.log, [Ran(u)]);
    assert Executed(ins) == [] by {
      if ins != [] { assert ins[1..] == []; }
    }
    assert Executed([Ran(u)]) == [u] by {
      assert [Ran(u)][1..] == [];
    }
  }

  /** Units run inline are recorded as executed, in scheduling order. */
  lemma {:induction false} InlinedAreExecuted(s: Scheduler, us: seq<Runnable>)
    requires |us| <= s.inlineRunnables
    ensures Executed(ScheduleAll(s, us).log) == Executed(s.log) + us
  {
    if us != [] {
      var t := ExecLater(s, us[0]);
      ExecLaterInlinedExecuted(s, us[0]);
      InlinedNoCallback(t, us[1..]);
      ExecutedAppend(t.log, RanAll(us[1..]));
      ExecutedRanAll(us[1..]);
      assert Executed(s.log) + [us[0]] + us[1..] == Executed(s.log) + us;
    }
  }

  /**
   `inline_next_runnables(k)` on a quiet scheduler, then scheduling `us`: the
   first `k` units run at schedule time, the rest wait in the queue in order,
   and a later `flush_runnables` runs those; every unit runs exactly once.
   */
  lemma {:induction false} InliningScenario(s: Scheduler, k: SizeT, us: seq<Runnable>)
    requires s.inlineRunnables == 0 && s.resumables == []
    requires k <= |us|
    ensures ScheduleAll(InlineNextRunnables(s, k), us).resumables == us[k..]
    ensures Executed(ScheduleAll(InlineNextRunnables(s, k), us).log) == Executed(s.log) + us[..k]
    ensures Executed(FlushRunnables(ScheduleAll(InlineNextRunnables(s, k), us)).log)
            == Executed(s.log) + us
  {
    var t := InlineNextRunnables(s, k);
    assert us == us[..k] + us[k..];
    ScheduleAllSplit(t, us[..k], us[k..]);
    var mid := ScheduleAll(t, us[..k]);
    InlinedWhileCounterLasts(t, us[..k]);
    InlinedAreExecuted(t, us[..k]);
    QueuedWhenNotInlining(mid, us[k..]);
    var fin := ScheduleAll(mid, us[k..]);
    assert fin.log == mid.log;
    ExecutedAppend(fin.log, RanAll(fin.resumables));
    ExecutedRanAll(fin.resumables);
    assert Executed(s.log) + us[..k] + us[k..] == Executed(s.log) + us;
  }

  /** The counter grows by exactly `num` when it does not wrap, and two raises add up. */
  lemma InlineCounterAdds(s: Scheduler, a: SizeT, b: SizeT)
    requires s.inlineRunnables + a + b < SizeTLimit
    ensures InlineNextRunnables(s, a).inlineRunnables == s.inlineRunnables + a
    ensures InlineNextRunnables(InlineNextRunnables(s, a), b) == InlineNextRunnables(s, a + b)
  {
  }

  /**
   After `reset_inlining`, whatever the counter was, every scheduled unit waits
   in the queue in order and nothing runs; resetting again changes nothing.
   */
  lemma ResetInliningQueuesAll(s: Scheduler, us: seq<Runnable>)
    ensures ResetInlining(ResetInlining(s)) == ResetInlining(s)
    ensures ScheduleAll(ResetInlining(s), us) == ResetInlining(s).(resumables := s.resumables + us)
    ensures ScheduleAll(ResetInlining(s), us).log == s.log
  {
    QueuedWhenNotInlining(ResetInlining(s), us);
  }

  /**
   Installing a second callback replaces the first: the next inlined unit fires
   only the second, and the one after that fires nothing.
   */
  lemma CallbackReplacedAndOneShot(s: Scheduler, f: Callback, g: Callback, u1: Runnable, u2: Runnable)
    requires s.inlineRunnables >= 2
    ensures ScheduleAll(AfterNextInlinedRunnable(AfterNextInlinedRunnable(s, Some(f)), Some(g)), [u1, u2]).log
            == s.log + [Ran(u1), Fired(g), Ran(u2)]
  {
    var t := AfterNextInlinedRunnable(AfterNextInlinedRunnable(s, Some(f)), Some(g));
    InlinedWhileCounterLasts(t, [u1, u2]);
    assert [u1, u2][1..] == [u2];
  }
}
