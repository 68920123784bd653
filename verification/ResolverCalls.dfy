// What each call of the transfer achieves by the time it returns, however the steps
// of the threads come in between.
module ResolverCalls {
  import opened Resolver
  import opened ResolverLaws

  // The result of a finished thread, if it made one, is the transfer's.
  predicate Delivered(c: Ctx) {
    c.thrdDone && !c.res && c.taken == c.made && c.dropped == 0
  }

  predicate Owns(s: State, i: nat) {
    s.addr == At(i) && i < |s.ctxs|
  }

  predicate AllInternal(run: seq<Action>) {
    forall k | 0 <= k < |run| :: Internal(run[k])
  }

  // On the way through async_thrdd_shutdown.
  predicate ShuttingDown(pc: Pc, after: After) {
    pc == Shutdown(after) || pc == Mark(after) || pc == Cancel(after)
  }

  // A thread told to before it resolves never does.
  predicate GivesUp(c: Ctx) {
    c.doAbort && c.made == 0 && !c.res && c.thread in {Starting, Leaving, Freeing, Ended}
  }

  // Nor does one told before it looks again notify the transfer.
  predicate Silent(c: Ctx) {
    c.doAbort && !c.woken && c.thread != Unborn && c.thread != Waking
  }

  // The transfer enters a function.
  function Enters(s: State, call: Call): State
    requires Defined(s) && s.pc.Idle?
  {
    Next(s, Api(call))
  }

  // ------------------------------------------------------------- what threads leave alone

  predicate Moved(c: Ctx, c': Ctx) {
    && c'.hnd == c.hnd && c'.doAbort == c.doAbort && c'.cancelled == c.cancelled && c'.taken == c.taken
    && (c.thrdDone ==> c'.thrdDone) && (c.thread == Unborn ==> c' == c) && (c.thread != Unborn ==> c'.thread != Unborn)
    && (Delivered(c) ==> Delivered(c')) && (GivesUp(c) ==> GivesUp(c')) && (Silent(c) ==> Silent(c'))
    && (c.thread == Ended ==> c'.thread == Ended)
  }

  lemma ThreadMoves(c: Ctx, resolved: bool)
    requires Told(c)
    ensures Moved(c, ThreadStep(c, resolved)) && (!Gone(c.thread) ==> Moved(c, c.(thread := Leaving)))
  {
    match c.thread
    case Starting =>
    case Resolving =>
    case Rechecking =>
    case Leaving =>
    case Freeing =>
    case _ =>
  }

  // A thread's step, seen from the transfer and a context.
  lemma ThreadsMove(s: State, a: Action, i: nat)
    requires Inv(s) && Enabled(s, a) && (a.Run? || a.Cancelled?) && i < |s.ctxs|
    ensures var s' := Next(s, a);
            && s'.pc == s.pc && s'.addr == s.addr && s'.asyncDone == s.asyncDone && |s'.ctxs| == |s.ctxs|
            && Moved(s.ctxs[i], s'.ctxs[i])
  {
    hide ThreadStep, Mine, Called;
    assert Sound(s, i);
    ThreadMoves(s.ctxs[i], a.Run? && a.resolved);
  }

  // The transfer's own context is live, and what it made is there or taken.
  predicate Own(c: Ctx) {
    && c.made == One(c.res) + c.taken && c.dropped == 0 && c.freed == 0
    && (c.hnd ==> c.thread != Unborn) && (c.thread == Ended ==> c.thrdDone)
  }

  lemma InvDefined(s: State)
    requires Inv(s)
    ensures Defined(s)
  {
  }

  lemma OwnIsLive(s: State, i: nat)
    requires Inv(s) && Owns(s, i)
    ensures Own(s.ctxs[i])
  {
    hide Mine, Called;
    assert Sound(s, i);
  }

  // ------------------------------------------------------------------------ a poll

  // A poll of context `i`, entered with `done` set or not, `taken` results taken and
  // the thread known to be gone or not.
  predicate PollPhase(s: State, i: nat, done: bool, taken: nat, gone: bool) {
    && Owns(s, i) && (gone ==> s.ctxs[i].thrdDone)
    && (|| (s.pc == Poll(Return) && s.asyncDone == done && s.ctxs[i].taken == taken)
        || (s.pc == Take(Return) && !done && s.ctxs[i].thrdDone)
        || ((ShuttingDown(s.pc, Return) || s.pc.Idle?) && !done && s.asyncDone && Delivered(s.ctxs[i]))
        || (s.pc.Idle? && s.asyncDone == done && s.ctxs[i].taken == taken && (done || !gone)))
  }

  lemma PollTransfer(s: State, a: Action, i: nat, done: bool, taken: nat, gone: bool)
    requires Defined(s) && Enabled(s, a) && a.Transfer? && PollPhase(s, i, done, taken, gone) && Own(s.ctxs[i])
    ensures PollPhase(TransferStep(s, a.created, a.spawned), i, done, taken, gone)
  {
  }

  lemma PollStep(s: State, a: Action, i: nat, done: bool, taken: nat, gone: bool)
    requires Inv(s) && Enabled(s, a) && Internal(a) && PollPhase(s, i, done, taken, gone)
    ensures PollPhase(Next(s, a), i, done, taken, gone)
  {
    hide Inv, TransferStep, ThreadStep;
    if a.Transfer? {
      OwnIsLive(s, i);
      InvDefined(s);
      PollTransfer(s, a, i, done, taken, gone);
    } else {
      ThreadsMove(s, a, i);
    }
  }

  lemma {:induction false} PollSteps(s: State, run: seq<Action>, i: nat, done: bool, taken: nat, gone: bool)
    requires Inv(s) && PollPhase(s, i, done, taken, gone) && AllInternal(run) && Goes(s, run)
    ensures Inv(Ends(s, run)) && PollPhase(Ends(s, run), i, done, taken, gone)
    decreases |run|
  {
    if run != [] {
      hide Inv, PollPhase, Next;
      StepKeeps(s, run[0]);
      PollStep(s, run[0], i, done, taken, gone);
      PollSteps(Next(s, run[0]), run[1..], i, done, taken, gone);
    }
  }

  // A poll that finds the thread gone hands its result over; one that returns before
  // that, or again after it, takes nothing and leaves the answer as it was.
  lemma PollDelivers(s: State, run: seq<Action>, i: nat)
    requires Inv(s) && s.pc.Idle? && Owns(s, i)
    requires AllInternal(run) && Goes(Enters(s, CallPoll), run) && Ends(Enters(s, CallPoll), run).pc.Idle?
    ensures Inv(Ends(Enters(s, CallPoll), run)) && Owns(Ends(Enters(s, CallPoll), run), i)
    ensures var e := Ends(Enters(s, CallPoll), run);
            && (!s.asyncDone && s.ctxs[i].thrdDone ==> e.asyncDone && Delivered(e.ctxs[i]))
            && (s.asyncDone || !e.ctxs[i].thrdDone ==>
                  e.asyncDone == s.asyncDone && e.ctxs[i].taken == s.ctxs[i].taken)
            && (e.asyncDone ==> s.asyncDone || Delivered(e.ctxs[i]))
  {
    hide Inv;
    StepKeeps(s, Api(CallPoll));
    PollSteps(Enters(s, CallPoll), run, i, s.asyncDone, s.ctxs[i].taken, s.ctxs[i].thrdDone);
  }

  // ------------------------------------------------------------------- an await

  predicate AwaitPhase(s: State, i: nat) {
    && Owns(s, i)
    && (|| ((s.pc == Await(true, false) || s.pc == Join(true, false)) && s.ctxs[i].hnd && !s.asyncDone)
        || ((s.pc == Poll(FinishNext(false)) || s.pc == Take(FinishNext(false))) &&
            s.ctxs[i].thrdDone && !s.asyncDone)
        || ((ShuttingDown(s.pc, FinishNext(false)) || s.pc == Finish(false) || s.pc.Idle?) &&
            s.asyncDone && Delivered(s.ctxs[i])))
  }

  lemma AwaitTransfer(s: State, a: Action, i: nat)
    requires Defined(s) && Enabled(s, a) && a.Transfer? && AwaitPhase(s, i) && Own(s.ctxs[i])
    ensures AwaitPhase(TransferStep(s, a.created, a.spawned), i)
  {
  }

  lemma AwaitStep(s: State, a: Action, i: nat)
    requires Inv(s) && Enabled(s, a) && Internal(a) && AwaitPhase(s, i)
    ensures AwaitPhase(Next(s, a), i)
  {
    hide Inv, TransferStep, ThreadStep;
    if a.Transfer? {
      OwnIsLive(s, i);
      InvDefined(s);
      AwaitTransfer(s, a, i);
    } else {
      ThreadsMove(s, a, i);
    }
  }

  lemma {:induction false} AwaitSteps(s: State, run: seq<Action>, i: nat)
    requires Inv(s) && AwaitPhase(s, i) && AllInternal(run) && Goes(s, run) && Ends(s, run).pc.Idle?
    ensures var e := Ends(s, run); Owns(e, i) && e.asyncDone && Delivered(e.ctxs[i])
    decreases |run|
  {
    if run != [] {
      hide Inv, AwaitPhase, Next;
      StepKeeps(s, run[0]);
      AwaitStep(s, run[0], i);
      AwaitSteps(Next(s, run[0]), run[1..], i);
    }
  }

  // Waiting for a result waits for the thread and takes what it made.
  lemma AwaitDelivers(s: State, run: seq<Action>, i: nat)
    requires Inv(s) && s.pc.Idle? && Owns(s, i) && s.ctxs[i].hnd && !s.asyncDone
    requires AllInternal(run) && Goes(Enters(s, CallAwait(true)), run)
    requires Ends(Enters(s, CallAwait(true)), run).pc.Idle?
    ensures var e := Ends(Enters(s, CallAwait(true)), run); Owns(e, i) && e.asyncDone && Delivered(e.ctxs[i])
  {
    StepKeeps(s, Api(CallAwait(true)));
    AwaitSteps(Enters(s, CallAwait(true)), run, i);
  }

  // ------------------------------------------------------------ what is delivered stays

  // What one of the transfer's steps makes of a context.
  predicate KeptBy(c: Ctx, c': Ctx) {
    && c'.made == c.made && c'.woken == c.woken && (c.thrdDone ==> c'.thrdDone) && (c.doAbort ==> c'.doAbort)
    && (c'.thread == c.thread || c'.thread == Starting)
    && (|| (c'.res == c.res && c'.taken == c.taken && c'.dropped == c.dropped)
        || (!c'.res && c'.taken + c'.dropped == c.taken + c.dropped + One(c.res) && c'.dropped <= c.dropped + One(c.res)
            && c'.taken <= c.taken + One(c.res)))
  }

  lemma InitKept(s: State, a: Action, i: nat)
    requires Defined(s) && Enabled(s, a) && a.Transfer? && i < |s.ctxs|
    requires s.pc.Begin? || s.pc.Share? || s.pc.Spawn? || s.pc.Keep? || s.pc.Unspawned? || s.pc.Create?
    ensures i < |TransferStep(s, a.created, a.spawned).ctxs|
    ensures KeptBy(s.ctxs[i], TransferStep(s, a.created, a.spawned).ctxs[i])
  {
  }

  lemma DestroyKept(s: State, a: Action, i: nat)
    requires Defined(s) && Enabled(s, a) && a.Transfer? && i < |s.ctxs|
    requires s.pc.Destroy? || s.pc.Abort? || s.pc.Settle? || s.pc.Unlink? || s.pc.Free?
    ensures i < |TransferStep(s, a.created, a.spawned).ctxs|
    ensures KeptBy(s.ctxs[i], TransferStep(s, a.created, a.spawned).ctxs[i])
  {
    hide Resume;
  }

  lemma OthersKept(s: State, a: Action, i: nat)
    requires Defined(s) && Enabled(s, a) && a.Transfer? && i < |s.ctxs|
    requires s.pc.Shutdown? || s.pc.Mark? || s.pc.Cancel? || s.pc.Await? || s.pc.Join? || s.pc.Finish? || s.pc.Poll? ||
             s.pc.Take?
    ensures i < |TransferStep(s, a.created, a.spawned).ctxs|
    ensures KeptBy(s.ctxs[i], TransferStep(s, a.created, a.spawned).ctxs[i])
  {
    hide Resume;
  }

  lemma KeptByStays(c: Ctx, c': Ctx)
    requires KeptBy(c, c')
    ensures (Delivered(c) ==> Delivered(c')) && (GivesUp(c) ==> GivesUp(c')) && (Silent(c) ==> Silent(c'))
  {
  }

  lemma StepStays(s: State, a: Action, i: nat)
    requires Inv(s) && Enabled(s, a) && i < |s.ctxs|
    ensures i < |Next(s, a).ctxs|
    ensures Delivered(s.ctxs[i]) ==> Delivered(Next(s, a).ctxs[i])
    ensures GivesUp(s.ctxs[i]) ==> GivesUp(Next(s, a).ctxs[i])
    ensures Silent(s.ctxs[i]) ==> Silent(Next(s, a).ctxs[i])
  {
    hide TransferStep, ThreadStep, Called;
    if a.Transfer? {
      if s.pc.Begin? || s.pc.Share? || s.pc.Spawn? || s.pc.Keep? || s.pc.Unspawned? || s.pc.Create? {
        InitKept(s, a, i);
      } else if s.pc.Destroy? || s.pc.Abort? || s.pc.Settle? || s.pc.Unlink? || s.pc.Free? {
        DestroyKept(s, a, i);
      } else {
        OthersKept(s, a, i);
      }
      KeptByStays(s.ctxs[i], TransferStep(s, a.created, a.spawned).ctxs[i]);
    } else if !a.Api? {
      hide Inv;
      ThreadsMove(s, a, i);
    }
  }

  lemma {:induction false} DeliveredForGood(s: State, run: seq<Action>, i: nat)
    requires Inv(s) && Goes(s, run) && i < |s.ctxs| && Delivered(s.ctxs[i])
    ensures i < |Ends(s, run).ctxs| && Delivered(Ends(s, run).ctxs[i])
    decreases |run|
  {
    if run != [] {
      hide Inv, Next;
      StepKeeps(s, run[0]);
      StepStays(s, run[0], i);
      DeliveredForGood(Next(s, run[0]), run[1..], i);
    }
  }

  // Over whole runs: a poll after the thread is gone has made sure that its result is
  // never thrown away, whatever comes later.
  lemma PolledIsKept(before: seq<Action>, steps: seq<Action>, later: seq<Action>, i: nat)
    requires Exec(before).Reached? && Exec(before).s.pc.Idle? && Owns(Exec(before).s, i)
    requires !Exec(before).s.asyncDone && Exec(before).s.ctxs[i].thrdDone
    requires AllInternal(steps)
    requires Exec(before + [Api(CallPoll)] + steps).Reached? && Exec(before + [Api(CallPoll)] + steps).s.pc.Idle?
    requires Exec(before + [Api(CallPoll)] + steps + later).Reached?
    ensures var s := Exec(before + [Api(CallPoll)] + steps + later).s; i < |s.ctxs| && Delivered(s.ctxs[i])
  {
    hide Exec, Inv, Delivered;
    var called := before + [Api(CallPoll)];
    var polled := called + steps;
    RunKeeps(before);
    OneMore(before, Api(CallPoll));
    if Exec(called).Stuck? { StuckStays(called, steps); }
    RunKeeps(called);
    ExecConcat(called, steps);
    PollDelivers(Exec(before).s, steps, i);
    ExecConcat(polled, later);
    DeliveredForGood(Exec(polled).s, later, i);
  }

  lemma OneMore(run: seq<Action>, a: Action)
    requires Exec(run).Reached?
    ensures Exec(run + [a]).Reached? ==>
              Defined(Exec(run).s) && Enabled(Exec(run).s, a) &&
              Exec(run + [a]) == Reached.Reached(Next(Exec(run).s, a))
  {
    assert (run + [a])[..|run|] == run;
  }

  // ------------------------------------------------------------------ a shutdown

  predicate ShutdownPhase(s: State, i: nat) {
    && Owns(s, i) && s.ctxs[i].hnd
    && (|| s.pc == Shutdown(Return) || s.pc == Mark(Return)
        || (s.pc == Cancel(Return) && s.ctxs[i].doAbort)
        || (s.pc.Idle? && s.ctxs[i].doAbort && (s.ctxs[i].thrdDone || s.ctxs[i].cancelled)))
  }

  lemma ShutdownTransfer(s: State, a: Action, i: nat)
    requires Defined(s) && Enabled(s, a) && a.Transfer? && ShutdownPhase(s, i) && Own(s.ctxs[i])
    ensures ShutdownPhase(TransferStep(s, a.created, a.spawned), i)
  {
  }

  lemma ShutdownStep(s: State, a: Action, i: nat)
    requires Inv(s) && Enabled(s, a) && Internal(a) && ShutdownPhase(s, i)
    ensures ShutdownPhase(Next(s, a), i)
  {
    hide Inv, TransferStep, ThreadStep;
    if a.Transfer? {
      OwnIsLive(s, i);
      InvDefined(s);
      ShutdownTransfer(s, a, i);
    } else {
      ThreadsMove(s, a, i);
    }
  }

  lemma {:induction false} ShutdownSteps(s: State, run: seq<Action>, i: nat)
    requires Inv(s) && ShutdownPhase(s, i) && AllInternal(run) && Goes(s, run) && Ends(s, run).pc.Idle?
    ensures var e := Ends(s, run);
            Owns(e, i) && e.ctxs[i].doAbort && (e.ctxs[i].thrdDone || e.ctxs[i].cancelled)
    decreases |run|
  {
    if run != [] {
      hide Inv, ShutdownPhase, Next;
      StepKeeps(s, run[0]);
      ShutdownStep(s, run[0], i);
      ShutdownSteps(Next(s, run[0]), run[1..], i);
    }
  }

  // A shutdown tells the thread to give up, and cancels it if it is not gone.
  lemma ShutdownStops(s: State, run: seq<Action>, i: nat)
    requires Inv(s) && s.pc.Idle? && Owns(s, i) && s.ctxs[i].hnd
    requires AllInternal(run) && Goes(Enters(s, CallShutdown), run) && Ends(Enters(s, CallShutdown), run).pc.Idle?
    ensures var e := Ends(Enters(s, CallShutdown), run);
            Owns(e, i) && e.ctxs[i].doAbort && (e.ctxs[i].thrdDone || e.ctxs[i].cancelled)
  {
    StepKeeps(s, Api(CallShutdown));
    ShutdownSteps(Enters(s, CallShutdown), run, i);
  }

  lemma GivesUpForGood(s: State, run: seq<Action>, i: nat)
    requires Inv(s) && Goes(s, run) && i < |s.ctxs| && s.ctxs[i].doAbort && s.ctxs[i].thread == Starting
    ensures i < |Ends(s, run).ctxs| && Ends(s, run).ctxs[i].made == 0
  {
    assert Sound(s, i);
    ToldRun(s, run, i);
  }

  // One that is done has notified it, unless it was told.
  lemma FinishedHasNotified(run: seq<Action>, i: nat)
    requires Exec(run).Reached? && i < |Exec(run).s.ctxs|
    ensures var c := Exec(run).s.ctxs[i]; c.thread == Ended ==> c.thrdDone && (c.doAbort || c.woken)
  {
    RunKeeps(run);
    assert Sound(Exec(run).s, i);
  }

  // Told while it resolves, or before, it does not.
  lemma SilentForGood(s: State, run: seq<Action>, i: nat)
    requires Inv(s) && Goes(s, run) && i < |s.ctxs| && s.ctxs[i].doAbort && !s.ctxs[i].woken
    requires s.ctxs[i].thread in {Starting, Resolving, Rechecking}
    ensures i < |Ends(s, run).ctxs| && !Ends(s, run).ctxs[i].woken
  {
    ToldRun(s, run, i);
  }

  lemma {:induction false} ToldRun(s: State, run: seq<Action>, i: nat)
    requires Inv(s) && Goes(s, run) && i < |s.ctxs|
    ensures i < |Ends(s, run).ctxs|
    ensures GivesUp(s.ctxs[i]) ==> GivesUp(Ends(s, run).ctxs[i])
    ensures Silent(s.ctxs[i]) ==> Silent(Ends(s, run).ctxs[i])
    decreases |run|
  {
    if run != [] {
      hide Inv, Next;
      StepKeeps(s, run[0]);
      StepStays(s, run[0], i);
      ToldRun(Next(s, run[0]), run[1..], i);
    }
  }

  // ---------------------------------------------------------------------- an init

  // A new context, with its thread on the way and nothing asked of it.
  predicate Started(s: State, n: nat) {
    && Owns(s, n) && |s.ctxs| == n + 1 && !s.asyncDone
    && s.ctxs[n].hnd && s.ctxs[n].thread != Unborn && !s.ctxs[n].doAbort && !s.ctxs[n].cancelled
  }

  // Where async_thrdd_init with `n` contexts before it is, when memory is there and
  // the thread can be made.
  predicate InitPhase(s: State, n: nat) {
    match s.pc
    case Begin => |s.ctxs| == n
    case Destroy(after) => |s.ctxs| == n && after == Restart
    case Abort(after) => |s.ctxs| == n && after == Restart
    case Settle(_, after) => |s.ctxs| == n && after == Restart
    case Unlink(_, after) => |s.ctxs| == n && after == Restart
    case Free(_, after) => |s.ctxs| == n && after == Restart
    case Create => |s.ctxs| == n
    case Share => Owns(s, n) && |s.ctxs| == n + 1 && s.ctxs[n] == Fresh() && !s.asyncDone
    case Spawn => Owns(s, n) && |s.ctxs| == n + 1 && s.ctxs[n] == Fresh().(refs := 2) && !s.asyncDone
    case Keep =>
      && Owns(s, n) && |s.ctxs| == n + 1 && !s.asyncDone
      && s.ctxs[n].thread != Unborn && !s.ctxs[n].doAbort && !s.ctxs[n].cancelled
    case Idle => Started(s, n)
    case _ => false
  }

  predicate Lucky(a: Action) {
    a.Transfer? ==> a.created == Made && a.spawned
  }

  lemma InitTransfer(s: State, a: Action, n: nat)
    requires Defined(s) && Enabled(s, a) && a.Transfer? && Lucky(a) && InitPhase(s, n) && !s.pc.Idle?
    requires s.pc.Create? ==> s.addr.Null?
    ensures InitPhase(TransferStep(s, a.created, a.spawned), n)
  {
  }

  lemma InitThread(s: State, a: Action, n: nat)
    requires Inv(s) && Enabled(s, a) && (a.Run? || a.Cancelled?) && InitPhase(s, n)
    ensures InitPhase(Next(s, a), n)
  {
    hide Inv;
    if n < |s.ctxs| { ThreadsMove(s, a, n); } else if 0 < n { ThreadsMove(s, a, 0); }
  }

  lemma InitStep(s: State, a: Action, n: nat)
    requires Inv(s) && Enabled(s, a) && Internal(a) && Lucky(a) && InitPhase(s, n)
    ensures InitPhase(Next(s, a), n)
  {
    hide TransferStep, ThreadStep, Called, InitPhase;
    if a.Transfer? { InitTransfer(s, a, n); } else { InitThread(s, a, n); }
  }

  lemma {:induction false} InitSteps(s: State, run: seq<Action>, n: nat)
    requires Inv(s) && InitPhase(s, n) && AllInternal(run) && (forall k | 0 <= k < |run| :: Lucky(run[k]))
    requires Goes(s, run) && Ends(s, run).pc.Idle?
    ensures Started(Ends(s, run), n)
    decreases |run|
  {
    if run != [] {
      hide Inv, InitPhase, Next;
      StepKeeps(s, run[0]);
      InitStep(s, run[0], n);
      InitSteps(Next(s, run[0]), run[1..], n);
    }
  }

  // An init with enough memory, whatever was there before, starts a new thread.
  lemma InitStarts(s: State, run: seq<Action>)
    requires Inv(s) && s.pc.Idle? && AllInternal(run) && (forall k | 0 <= k < |run| :: Lucky(run[k]))
    requires Goes(Enters(s, CallInit), run) && Ends(Enters(s, CallInit), run).pc.Idle?
    ensures Started(Ends(Enters(s, CallInit), run), |s.ctxs|)
  {
    StepKeeps(s, Api(CallInit));
    InitSteps(Enters(s, CallInit), run, |s.ctxs|);
  }

  // Where an init is, however it turns out: in the end there is no answer, and a new
  // context or none.
  predicate AnyInitPhase(s: State, n: nat) {
    || InitPhase(s, n)
    || (!s.asyncDone && (s.pc.Idle? || s.pc.Free? ==> s.addr.Null?) &&
        (s.pc.Idle? || (s.pc.Unspawned? && s.addr.At?) || Failing(s.pc, Return) ||
         (Failing(s.pc, Failed) && s.addr.Null?)))
  }

  // On the way through async_thrdd_destroy or addr_ctx_unlink.
  predicate Failing(pc: Pc, after: After) {
    match pc
    case Destroy(a) => a == after
    case Abort(a) => a == after
    case Settle(_, a) => a == after
    case Unlink(_, a) => a == after
    case Free(_, a) => a == after
    case _ => false
  }

  lemma AnyInitTransfer(s: State, a: Action, n: nat)
    requires Defined(s) && Enabled(s, a) && a.Transfer? && AnyInitPhase(s, n) && !s.pc.Idle?
    requires s.pc.Create? ==> s.addr.Null?
    ensures AnyInitPhase(TransferStep(s, a.created, a.spawned), n)
  {
  }

  lemma AnyInitStep(s: State, a: Action, n: nat)
    requires Inv(s) && Enabled(s, a) && Internal(a) && AnyInitPhase(s, n)
    ensures AnyInitPhase(Next(s, a), n)
  {
    if a.Transfer? {
      hide TransferStep, ThreadStep, Called, AnyInitPhase;
      AnyInitTransfer(s, a, n);
    } else if InitPhase(s, n) {
      hide Inv, Next;
      InitThread(s, a, n);
    } else {
      hide ThreadStep, Sound;
    }
  }

  lemma {:induction false} AnyInitSteps(s: State, run: seq<Action>, n: nat)
    requires Inv(s) && AnyInitPhase(s, n) && AllInternal(run) && Goes(s, run) && Ends(s, run).pc.Idle?
    ensures AnyInitPhase(Ends(s, run), n)
    decreases |run|
  {
    if run != [] {
      hide Inv, AnyInitPhase, Next;
      StepKeeps(s, run[0]);
      AnyInitStep(s, run[0], n);
      AnyInitSteps(Next(s, run[0]), run[1..], n);
    }
  }

  // An init ends with a started context or, when memory or a thread is missing, with
  // none, and with no answer from before.
  lemma InitEnds(s: State, run: seq<Action>)
    requires Inv(s) && s.pc.Idle? && AllInternal(run)
    requires Goes(Enters(s, CallInit), run) && Ends(Enters(s, CallInit), run).pc.Idle?
    ensures var e := Ends(Enters(s, CallInit), run);
            !e.asyncDone && (Started(e, |s.ctxs|) || e.addr.Null?)
  {
    StepKeeps(s, Api(CallInit));
    AnyInitSteps(Enters(s, CallInit), run, |s.ctxs|);
  }

  // -------------------------------------------------------------------- a destroy

  predicate DestroyPhase(s: State, i: nat, taken: nat) {
    && i < |s.ctxs| && s.ctxs[i].taken == taken
    && (|| (Owns(s, i) && s.ctxs[i].hnd &&
            (|| s.pc == Await(false, true) || s.pc == Shutdown(JoinNext(true)) || s.pc == Mark(JoinNext(true))
             || ((s.pc == Cancel(JoinNext(true)) || s.pc == Join(false, true)) && s.ctxs[i].doAbort)))
        || (!s.ctxs[i].hnd && s.ctxs[i].doAbort && s.ctxs[i].thread == Ended &&
            (|| (Owns(s, i) && (s.pc == Finish(true) || s.pc == Destroy(Return) || s.pc == Unlink(i, Return)))
             || (s.addr == Null && (s.pc == Free(i, Return) || s.pc.Idle?)))))
  }

  lemma DestroyTransfer(s: State, a: Action, i: nat, taken: nat)
    requires Defined(s) && Enabled(s, a) && a.Transfer? && DestroyPhase(s, i, taken)
    requires Owns(s, i) ==> Own(s.ctxs[i])
    ensures DestroyPhase(TransferStep(s, a.created, a.spawned), i, taken)
  {
  }

  lemma DestroyStep(s: State, a: Action, i: nat, taken: nat)
    requires Inv(s) && Enabled(s, a) && Internal(a) && DestroyPhase(s, i, taken)
    ensures DestroyPhase(Next(s, a), i, taken)
  {
    hide Inv, TransferStep, ThreadStep;
    if a.Transfer? {
      if Owns(s, i) { OwnIsLive(s, i); }
      InvDefined(s);
      hide DestroyPhase;
      DestroyTransfer(s, a, i, taken);
    } else {
      ThreadsMove(s, a, i);
    }
  }

  lemma {:induction false} DestroySteps(s: State, run: seq<Action>, i: nat, taken: nat)
    requires Inv(s) && DestroyPhase(s, i, taken) && AllInternal(run) && Goes(s, run)
    ensures DestroyPhase(Ends(s, run), i, taken)
    decreases |run|
  {
    if run != [] {
      hide Inv, DestroyPhase, Next;
      StepKeeps(s, run[0]);
      DestroyStep(s, run[0], i, taken);
      DestroySteps(Next(s, run[0]), run[1..], i, taken);
    }
  }

  // A destroy that is not quick tells the thread to give up, waits for it, takes
  // nothing, and lets the context go.
  lemma DestroyWaits(s: State, run: seq<Action>, i: nat)
    requires Inv(s) && s.pc.Idle? && Owns(s, i) && s.ctxs[i].hnd && AllInternal(run)
    requires Goes(Enters(s, CallDestroy(false)), run) && Ends(Enters(s, CallDestroy(false)), run).pc.Idle?
    ensures var e := Ends(Enters(s, CallDestroy(false)), run);
            && e.addr == Null && i < |e.ctxs|
            && e.ctxs[i].doAbort && e.ctxs[i].thread == Ended && e.ctxs[i].taken == s.ctxs[i].taken
  {
    StepKeeps(s, Api(CallDestroy(false)));
    DestroySteps(Enters(s, CallDestroy(false)), run, i, s.ctxs[i].taken);
  }
}
