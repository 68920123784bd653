// What holds in every interleaving of the transfer and its resolver threads.
module ResolverLaws {
  import opened Resolver

  // ---------------------------------------------------------------- who holds what

  // References the transfer answers for: its own, and the one it has already
  // counted for a thread that is about to be created.
  function TransferHolds(s: State, i: nat): nat {
    if s.addr == At(i) then (if s.pc.Spawn? || s.pc.Unspawned? then 2 else 1)
    else if s.pc.Unlink? && s.pc.i == i then 1
    else 0
  }

  function ThreadHolds(c: Ctx): nat {
    if Gone(c.thread) then 0 else 1
  }

  function One(b: bool): nat { if b then 1 else 0 }

  // The count is the number of holders; when it is zero the context has been
  // freed once or has one party about to.
  predicate Counted(c: Ctx, holds: nat, frees: nat) {
    && c.refs == holds + ThreadHolds(c)
    && c.freed + frees + One(c.thread == Freeing) == One(c.refs == 0)
  }

  // A started thread's handle is live, about to be stored, or was joined or
  // detached once; only the transfer's own context has a live one.
  predicate Handled(c: Ctx, mine: bool, keeps: bool) {
    && c.settled + One(c.hnd) + One(keeps) == One(c.thread != Unborn)
    && (c.hnd ==> mine)
  }

  // A result is made at most once, and is still there, taken, or freed.
  predicate Accounted(c: Ctx) {
    && c.made == One(c.res) + c.taken + c.dropped && c.made <= 1
    && (c.thread in {Unborn, Starting, Resolving} ==> c.made == 0)
    && (c.freed > 0 ==> !c.res) && c.dropped <= c.freed
  }

  // thrd_done says that the thread is gone.
  predicate Told(c: Ctx) {
    && (c.thrdDone ==> Gone(c.thread))
    && (c.thread in {Freeing, Ended} ==> c.thrdDone)
  }

  // A thread that is done was told to give up, or has notified the transfer; only one
  // that was told is cancelled.
  predicate Notified(c: Ctx) {
    && (c.thread in {Leaving, Freeing, Ended} ==> c.doAbort || c.woken)
    && (c.cancelled ==> c.doAbort)
  }

  predicate SoundCtx(c: Ctx, mine: bool, holds: nat, frees: nat, keeps: bool) {
    Counted(c, holds, frees) && Handled(c, mine, keeps) && Accounted(c) && Told(c) && Notified(c)
  }

  predicate Sound(s: State, i: nat)
    requires i < |s.ctxs|
  {
    SoundCtx(s.ctxs[i], s.addr == At(i), TransferHolds(s, i), One(s.pc.Free? && s.pc.i == i),
             s.pc.Keep? && s.addr == At(i))
  }

  // The transfer's own context, where the function it is in relies on one.
  predicate Mine(s: State) {
    var pc := s.pc;
    && (pc.Share? || pc.Spawn? || pc.Unspawned? ==>
          Linked(s) && s.ctxs[s.addr.i].thread == Unborn && !s.ctxs[s.addr.i].hnd)
    && (pc.Share? || pc.Spawn? ==> Linked(s) && !s.ctxs[s.addr.i].thrdDone)
    && (pc.Keep? ==> Linked(s) && !s.ctxs[s.addr.i].hnd)
    && (NeedsHandle(pc) ==> Linked(s) && s.ctxs[s.addr.i].hnd)
    && (pc.Settle? ==> Linked(s) && (pc.seen ==> s.ctxs[s.addr.i].thrdDone))
    && (pc.Take? ==> Linked(s) && s.ctxs[s.addr.i].thrdDone)
    && (pc.Cancel? ==> s.ctxs[s.addr.i].doAbort)
    && (pc.Await? ==> Linked(s))
    && (pc.Unlink? ==> pc.i < |s.ctxs| && !s.ctxs[pc.i].hnd && (s.addr == At(pc.i) || s.addr == Null))
    && (pc.Free? ==> pc.i < |s.ctxs| && s.addr == Null)
    && (pc.Create? ==> s.addr == Null)
  }

  predicate NeedsHandle(pc: Pc) {
    || pc.Abort? || pc.Settle? || pc.Mark? || pc.Cancel? || pc.Join?
    || (pc.Shutdown? && pc.after.JoinNext?)
  }

  // Which function can have called which.
  predicate Called(pc: Pc) {
    match pc
    case Destroy(after) => after in {Return, Restart}
    case Abort(after) => after in {Return, Restart}
    case Settle(_, after) => after in {Return, Restart}
    case Unlink(_, after) => after in {Return, Restart, Failed}
    case Free(_, after) => after in {Return, Restart, Failed}
    case Shutdown(after) => after == Return || after.JoinNext? || after.FinishNext?
    case Mark(after) => after == Return || after.JoinNext? || after.FinishNext?
    case Cancel(after) => after == Return || after.JoinNext? || after.FinishNext?
    case Poll(after) => after == Return || after.FinishNext?
    case Take(after) => after == Return || after.FinishNext?
    case _ => true
  }

  predicate Inv(s: State) {
    && Defined(s) && Mine(s) && Called(s.pc)
    && forall i | 0 <= i < |s.ctxs| :: Sound(s, i)
  }

  // ------------------------------------------------------------------- every step

  lemma WorkingSound(c: Ctx, resolved: bool, mine: bool, holds: nat, frees: nat, keeps: bool)
    requires SoundCtx(c, mine, holds, frees, keeps) && !Gone(c.thread) && c.thread != Leaving
    ensures SoundCtx(ThreadStep(c, resolved), mine, holds, frees, keeps)
    ensures c.freed == 0 && (c.thread == Resolving ==> !c.thrdDone && !c.res)
  {
  }

  lemma LeavingSound(c: Ctx, resolved: bool, mine: bool, holds: nat, frees: nat, keeps: bool)
    requires SoundCtx(c, mine, holds, frees, keeps) && (c.thread == Leaving || c.thread == Freeing)
    ensures SoundCtx(ThreadStep(c, resolved), mine, holds, frees, keeps)
    ensures c.freed == 0 && (c.thread == Leaving ==> c.refs > 0)
  {
  }

  lemma ThreadSound(s: State, t: nat, resolved: bool)
    requires t < |s.ctxs| && Sound(s, t) && s.ctxs[t].thread !in {Unborn, Ended}
    ensures var s' := s.(ctxs := s.ctxs[t := ThreadStep(s.ctxs[t], resolved)]); Sound(s', t)
    ensures s.ctxs[t].freed == 0
    ensures s.ctxs[t].thread == Leaving ==> s.ctxs[t].refs > 0
    ensures s.ctxs[t].thread == Resolving ==> !s.ctxs[t].thrdDone && !s.ctxs[t].res
  {
    var mine, holds, frees := s.addr == At(t), TransferHolds(s, t), One(s.pc.Free? && s.pc.i == t);
    if s.ctxs[t].thread in {Leaving, Freeing} {
      LeavingSound(s.ctxs[t], resolved, mine, holds, frees, s.pc.Keep? && mine);
    } else {
      WorkingSound(s.ctxs[t], resolved, mine, holds, frees, s.pc.Keep? && mine);
    }
  }

  // What a thread step leaves alone.
  lemma ThreadStepFrame(c: Ctx, resolved: bool)
    ensures var c' := ThreadStep(c, resolved);
            && c'.hnd == c.hnd && c'.doAbort == c.doAbort && (c.thrdDone ==> c'.thrdDone)
            && (c.thread == Unborn ==> c' == c)
  {
    hide Released;
    ReleasedFrame(c);
    match c.thread
    case Freeing =>
    case Resolving =>
    case Leaving =>
    case _ =>
  }

  lemma ReleasedFrame(c: Ctx)
    ensures var r := Released(c);
            r.hnd == c.hnd && r.doAbort == c.doAbort && r.thrdDone == c.thrdDone && r.thread == c.thread
  {
  }

  lemma ThreadKeeps(s: State, t: nat, resolved: bool)
    requires Inv(s) && Enabled(s, Run(t, resolved))
    ensures Safe(s, Run(t, resolved)) && Inv(Next(s, Run(t, resolved)))
  {
    var s' := Next(s, Run(t, resolved));
    assert Sound(s, t);
    ThreadSound(s, t, resolved);
    ThreadStepFrame(s.ctxs[t], resolved);
    forall i | 0 <= i < |s'.ctxs| ensures Sound(s', i) { assert Sound(s, i); }
  }

  lemma CancelKeeps(s: State, t: nat)
    requires Inv(s) && Enabled(s, Cancelled(t))
    ensures Safe(s, Cancelled(t)) && Inv(Next(s, Cancelled(t)))
  {
    var s' := Next(s, Cancelled(t));
    forall i | 0 <= i < |s'.ctxs| ensures Sound(s', i) { assert Sound(s, i); }
  }

  lemma ApiKeeps(s: State, call: Call)
    requires Inv(s) && Enabled(s, Api(call))
    ensures Safe(s, Api(call)) && Inv(Next(s, Api(call)))
  {
    var s' := Next(s, Api(call));
    forall i | 0 <= i < |s'.ctxs| ensures Sound(s', i) { assert Sound(s, i); }
  }

  // async_thrdd_init.
  lemma InitKeeps(s: State, created: Created, spawned: bool)
    requires Inv(s) && Enabled(s, Transfer(created, spawned))
    requires s.pc.Share? || s.pc.Spawn? || s.pc.Keep? || s.pc.Unspawned?
    ensures Safe(s, Transfer(created, spawned)) && Inv(Next(s, Transfer(created, spawned)))
  {
    var s' := Next(s, Transfer(created, spawned));
    assert Sound(s, s.addr.i);
    forall i | 0 <= i < |s'.ctxs| ensures Sound(s', i) { assert Sound(s, i); }
  }

  // Its beginning, and addr_ctx_create.
  lemma CreateKeeps(s: State, created: Created, spawned: bool)
    requires Inv(s) && Enabled(s, Transfer(created, spawned)) && (s.pc.Begin? || s.pc.Create?)
    ensures Safe(s, Transfer(created, spawned)) && Inv(Next(s, Transfer(created, spawned)))
  {
    var s' := Next(s, Transfer(created, spawned));
    forall i | 0 <= i < |s'.ctxs| ensures Sound(s', i) {
      if i < |s.ctxs| { assert Sound(s, i); }
    }
  }

  // async_thrdd_destroy.
  lemma DestroyKeeps(s: State)
    requires Inv(s) && Enabled(s, Transfer(Made, false))
    requires s.pc.Destroy? || s.pc.Abort? || s.pc.Settle?
    ensures Safe(s, Transfer(Made, false)) && Inv(Next(s, Transfer(Made, false)))
  {
    var s' := Next(s, Transfer(Made, false));
    if s.addr.At? { assert Sound(s, s.addr.i); }
    forall i | 0 <= i < |s'.ctxs| ensures Sound(s', i) { assert Sound(s, i); }
  }

  // addr_ctx_unlink.
  lemma UnlinkKeeps(s: State)
    requires Inv(s) && Enabled(s, Transfer(Made, false)) && s.pc.Unlink?
    ensures Safe(s, Transfer(Made, false)) && Inv(Next(s, Transfer(Made, false)))
  {
    var s' := Next(s, Transfer(Made, false));
    assert Sound(s, s.pc.i);
    forall i | 0 <= i < |s'.ctxs| ensures Sound(s', i) { assert Sound(s, i); }
  }

  lemma FreeKeeps(s: State)
    requires Inv(s) && Enabled(s, Transfer(Made, false)) && s.pc.Free?
    ensures Safe(s, Transfer(Made, false)) && Inv(Next(s, Transfer(Made, false)))
  {
    var s' := Next(s, Transfer(Made, false));
    assert Sound(s, s.pc.i);
    forall i | 0 <= i < |s'.ctxs| ensures Sound(s', i) { assert Sound(s, i); }
  }

  // async_thrdd_shutdown.
  lemma ShutdownKeeps(s: State)
    requires Inv(s) && Enabled(s, Transfer(Made, false))
    requires s.pc.Shutdown? || s.pc.Mark? || s.pc.Cancel?
    ensures Safe(s, Transfer(Made, false)) && Inv(Next(s, Transfer(Made, false)))
  {
    var s' := Next(s, Transfer(Made, false));
    if s.addr.At? { assert Sound(s, s.addr.i); }
    forall i | 0 <= i < |s'.ctxs| ensures Sound(s', i) { assert Sound(s, i); }
  }

  // asyn_thrdd_await.
  lemma AwaitKeeps(s: State)
    requires Inv(s) && Enabled(s, Transfer(Made, false))
    requires s.pc.Await? || s.pc.Join? || s.pc.Finish?
    ensures Safe(s, Transfer(Made, false)) && Inv(Next(s, Transfer(Made, false)))
  {
    var s' := Next(s, Transfer(Made, false));
    if s.addr.At? { assert Sound(s, s.addr.i); }
    forall i | 0 <= i < |s'.ctxs| ensures Sound(s', i) { assert Sound(s, i); }
  }

  // Curl_async_is_resolved.
  lemma ResolvedKeeps(s: State)
    requires Inv(s) && Enabled(s, Transfer(Made, false))
    requires s.pc.Poll? || s.pc.Take?
    ensures Safe(s, Transfer(Made, false)) && Inv(Next(s, Transfer(Made, false)))
  {
    var s' := Next(s, Transfer(Made, false));
    if s.addr.At? { assert Sound(s, s.addr.i); }
    forall i | 0 <= i < |s'.ctxs| ensures Sound(s', i) { assert Sound(s, i); }
  }

  lemma TransferKeeps(s: State, created: Created, spawned: bool)
    requires Inv(s) && Enabled(s, Transfer(created, spawned))
    ensures Safe(s, Transfer(created, spawned)) && Inv(Next(s, Transfer(created, spawned)))
  {
    if s.pc.Begin? || s.pc.Create? {
      CreateKeeps(s, created, spawned);
    } else if s.pc.Share? || s.pc.Spawn? || s.pc.Keep? || s.pc.Unspawned? {
      InitKeeps(s, created, spawned);
    } else if s.pc.Destroy? || s.pc.Abort? || s.pc.Settle? {
      DestroyKeeps(s);
    } else if s.pc.Unlink? {
      UnlinkKeeps(s);
    } else if s.pc.Free? {
      FreeKeeps(s);
    } else if s.pc.Shutdown? || s.pc.Mark? || s.pc.Cancel? {
      ShutdownKeeps(s);
    } else if s.pc.Poll? || s.pc.Take? {
      ResolvedKeeps(s);
    } else {
      AwaitKeeps(s);
    }
  }

  lemma StepKeeps(s: State, a: Action)
    requires Inv(s) && Enabled(s, a)
    ensures Safe(s, a) && Inv(Next(s, a))
  {
    match a
    case Api(call) => ApiKeeps(s, call);
    case Transfer(created, spawned) => TransferKeeps(s, created, spawned);
    case Run(t, resolved) => ThreadKeeps(s, t, resolved);
    case Cancelled(t) => CancelKeeps(s, t);
  }

  // -------------------------------------------------------------------- every run

  // The state a run reaches, if every action in it is enabled in turn.
  datatype Reached = Stuck | Reached(s: State)

  function Exec(run: seq<Action>): Reached {
    if run == [] then Reached.Reached(START)
    else
      var n := |run| - 1;
      var before := Exec(run[..n]);
      if before.Stuck? || !Defined(before.s) || !Enabled(before.s, run[n]) then Stuck
      else Reached.Reached(Next(before.s, run[n]))
  }

  lemma {:induction false} RunKeeps(run: seq<Action>)
    ensures Exec(run).Reached? ==> Inv(Exec(run).s)
  {
    if run != [] {
      var n := |run| - 1;
      RunKeeps(run[..n]);
      if Exec(run).Reached? { StepKeeps(Exec(run[..n]).s, run[n]); }
    }
  }

  // In every interleaving no context is touched after it is freed, no handle used
  // that is not live, and no result read while its thread may still write it.
  lemma EveryStepIsSafe(run: seq<Action>, a: Action)
    requires Exec(run).Reached? && Enabled(Exec(run).s, a)
    ensures Defined(Exec(run).s) && Safe(Exec(run).s, a)
  {
    RunKeeps(run);
    StepKeeps(Exec(run).s, a);
  }

  // In every interleaving the count is the number of holders, a context is freed
  // at most once and only without holders, a handle is joined or detached at most
  // once, and a result is taken or freed at most once.
  lemma EveryStateIsSound(run: seq<Action>, i: nat)
    requires Exec(run).Reached? && i < |Exec(run).s.ctxs|
    ensures var s := Exec(run).s; var c := s.ctxs[i];
            && c.refs == TransferHolds(s, i) + ThreadHolds(c)
            && c.freed <= One(c.refs == 0) && c.settled <= 1 && c.taken + c.dropped <= c.made <= 1
  {
    RunKeeps(run);
    assert Sound(Exec(run).s, i);
  }

  predicate AtRest(s: State) {
    s.pc.Idle? && forall i | 0 <= i < |s.ctxs| :: s.ctxs[i].thread in {Unborn, Ended}
  }

  // Nothing is left over: every context freed once, every thread's handle joined
  // or detached once, every result taken or freed once.
  predicate Tidy(c: Ctx) {
    && c.refs == 0 && c.freed == 1
    && !c.hnd && c.settled == One(c.thread != Unborn)
    && !c.res && c.taken + c.dropped == c.made
  }

  lemma RestIsTidy(s: State, i: nat)
    requires Inv(s) && AtRest(s) && s.addr == Null && i < |s.ctxs|
    ensures Tidy(s.ctxs[i])
  {
    assert Sound(s, i);
  }

  // ------------------------------------------------------------------ termination

  predicate Internal(a: Action) { !a.Api? }

  // Someone can always go on, until the transfer is idle and the threads are gone.
  lemma NoDeadlock(s: State) returns (a: Action)
    requires Inv(s) && !AtRest(s)
    ensures Internal(a) && Enabled(s, a)
  {
    if s.pc.Idle? {
      var t :| 0 <= t < |s.ctxs| && s.ctxs[t].thread !in {Unborn, Ended};
      a := Run(t, false);
    } else if Joins(s) && s.ctxs[s.addr.i].thread !in {Unborn, Ended} {
      a := Run(s.addr.i, false);
    } else {
      a := Transfer(NoMemory, false);
    }
  }

  function AfterRank(after: After): nat {
    match after
    case Return => 0
    case Restart => 9
    case Failed => 5
    case JoinNext(d) => if d then 7 else 2
    case FinishNext(d) => if d then 6 else 1
  }

  function PcRank(pc: Pc): nat {
    match pc
    case Idle => 0
    case Begin => 15
    case Create => 9
    case Share => 8
    case Spawn => 7
    case Keep => 1
    case Unspawned => 6
    case Destroy(after) => 5 + AfterRank(after)
    case Abort(after) => 4 + AfterRank(after)
    case Settle(_, after) => 3 + AfterRank(after)
    case Unlink(_, after) => 2 + AfterRank(after)
    case Free(_, after) => 1 + AfterRank(after)
    case Shutdown(after) => 3 + AfterRank(after)
    case Mark(after) => 2 + AfterRank(after)
    case Cancel(after) => 1 + AfterRank(after)
    case Await(_, d) => if d then 13 else 8
    case Join(entry, d) => (if d then 6 else 1) + (if entry then 6 else 1)
    case Finish(d) => if d then 6 else 1
    case Poll(after) => 5 + AfterRank(after)
    case Take(after) => 4 + AfterRank(after)
  }

  function ThreadRank(t: Thread): nat {
    match t
    case Unborn => 0
    case Starting => 6
    case Resolving => 5
    case Rechecking => 4
    case Waking => 3
    case Leaving => 2
    case Freeing => 1
    case Ended => 0
  }

  function ThreadRanks(ctxs: seq<Ctx>): nat {
    if ctxs == [] then 0 else ThreadRanks(ctxs[..|ctxs| - 1]) + ThreadRank(ctxs[|ctxs| - 1].thread)
  }

  lemma {:induction false} ThreadRanksUpdate(ctxs: seq<Ctx>, i: nat, c: Ctx)
    requires i < |ctxs|
    ensures ThreadRanks(ctxs[i := c]) == ThreadRanks(ctxs) - ThreadRank(ctxs[i].thread) + ThreadRank(c.thread)
  {
    var n := |ctxs| - 1;
    if i == n {
      assert ctxs[i := c][..n] == ctxs[..n];
    } else {
      ThreadRanksUpdate(ctxs[..n], i, c);
      assert ctxs[i := c][..n] == ctxs[..n][i := c];
    }
  }

  lemma ResumeRank(after: After)
    ensures PcRank(Resume(after)) <= AfterRank(after)
  {
  }

  lemma InitRunsOut(s: State, created: Created, spawned: bool)
    requires Defined(s) && (s.pc.Begin? || s.pc.Create? || s.pc.Share? || s.pc.Spawn? || s.pc.Keep? || s.pc.Unspawned?)
    ensures PcRank(TransferStep(s, created, spawned).pc) < PcRank(s.pc)
  {
  }

  lemma DestroyRunsOut(s: State, created: Created, spawned: bool)
    requires Defined(s) && (s.pc.Destroy? || s.pc.Abort? || s.pc.Settle? || s.pc.Unlink? || s.pc.Free?)
    ensures PcRank(TransferStep(s, created, spawned).pc) < PcRank(s.pc)
  {
    ResumeRank(s.pc.after);
    hide Resume, AfterRank;
  }

  lemma ShutdownRunsOut(s: State, created: Created, spawned: bool)
    requires Defined(s) && (s.pc.Shutdown? || s.pc.Mark? || s.pc.Cancel? || s.pc.Poll? || s.pc.Take?)
    ensures PcRank(TransferStep(s, created, spawned).pc) < PcRank(s.pc)
  {
    ResumeRank(s.pc.after);
    hide Resume, AfterRank;
  }

  lemma AwaitRunsOut(s: State, created: Created, spawned: bool)
    requires Defined(s) && (s.pc.Await? || s.pc.Join? || s.pc.Finish?)
    ensures PcRank(TransferStep(s, created, spawned).pc) < PcRank(s.pc)
  {
  }

  lemma TransferRunsOut(s: State, created: Created, spawned: bool)
    requires Defined(s) && !s.pc.Idle?
    ensures PcRank(TransferStep(s, created, spawned).pc) < PcRank(s.pc)
  {
    hide TransferStep, PcRank, Defined;
    if s.pc.Destroy? || s.pc.Abort? || s.pc.Settle? || s.pc.Unlink? || s.pc.Free? {
      DestroyRunsOut(s, created, spawned);
    } else if s.pc.Shutdown? || s.pc.Mark? || s.pc.Cancel? || s.pc.Poll? || s.pc.Take? {
      ShutdownRunsOut(s, created, spawned);
    } else if s.pc.Await? || s.pc.Join? || s.pc.Finish? {
      AwaitRunsOut(s, created, spawned);
    } else {
      InitRunsOut(s, created, spawned);
    }
  }

  lemma ThreadRankDrops(c: Ctx, resolved: bool)
    requires c.thread !in {Unborn, Ended}
    ensures ThreadRank(ThreadStep(c, resolved).thread) < ThreadRank(c.thread)
  {
    hide Released;
    match c.thread
    case Starting =>
    case Resolving =>
    case Rechecking =>
    case Waking =>
    case Leaving =>
    case Freeing =>
  }

  lemma ThreadRunsOut(ctxs: seq<Ctx>, t: nat, resolved: bool)
    requires t < |ctxs| && ctxs[t].thread !in {Unborn, Ended}
    ensures ThreadRanks(ctxs[t := ThreadStep(ctxs[t], resolved)]) < ThreadRanks(ctxs)
  {
    ThreadRankDrops(ctxs[t], resolved);
    ThreadRanksUpdate(ctxs, t, ThreadStep(ctxs[t], resolved));
  }

  // Between two calls only finitely many steps are possible.
  lemma StepsRunOut(s: State, a: Action)
    requires Defined(s) && Enabled(s, a) && Internal(a)
    ensures var s' := Next(s, a);
            || PcRank(s'.pc) < PcRank(s.pc)
            || (s'.pc == s.pc && ThreadRanks(s'.ctxs) < ThreadRanks(s.ctxs))
  {
    match a
    case Run(t, resolved) => ThreadRunsOut(s.ctxs, t, resolved);
    case Cancelled(t) => ThreadRanksUpdate(s.ctxs, t, s.ctxs[t].(thread := Leaving));
    case Transfer(created, spawned) => TransferRunsOut(s, created, spawned);
  }

  // ------------------------------------------------------------- tearing it all down

  // The transfer is on its way through Curl_async_thrdd_destroy, or done with it.
  predicate Closing(s: State) {
    match s.pc
    case Idle => s.addr == Null
    case Await(_, d) => d
    case Join(_, d) => d
    case Finish(d) => d
    case Poll(after) => after == FinishNext(true)
    case Take(after) => after == FinishNext(true)
    case Shutdown(after) => after in {JoinNext(true), FinishNext(true)}
    case Mark(after) => after in {JoinNext(true), FinishNext(true)}
    case Cancel(after) => after in {JoinNext(true), FinishNext(true)}
    case Destroy(after) => after == Return
    case Abort(after) => after == Return
    case Settle(_, after) => after == Return
    case Unlink(_, after) => after == Return
    case Free(_, after) => after == Return
    case _ => false
  }

  lemma ClosingKeeps(s: State, a: Action)
    requires Inv(s) && Closing(s) && Enabled(s, a) && Internal(a)
    ensures Closing(Next(s, a))
  {
  }

  lemma DestroyCloses(s: State, quick: bool)
    requires s.pc.Idle? && Defined(s)
    ensures Closing(Next(s, Api(CallDestroy(quick))))
  {
  }

  // Once destroy is called, however the steps interleave, they come to an end, and
  // then nothing is left over.
  lemma {:induction false} DestroyLeavesNothing(s: State, run: seq<Action>)
    requires Inv(s) && Closing(s)
    requires forall k | 0 <= k < |run| :: Internal(run[k])
    requires Goes(s, run) && AtRest(Ends(s, run))
    ensures forall i | 0 <= i < |Ends(s, run).ctxs| :: Tidy(Ends(s, run).ctxs[i])
    decreases |run|
  {
    if run == [] {
      forall i | 0 <= i < |s.ctxs| ensures Tidy(s.ctxs[i]) { RestIsTidy(s, i); }
    } else {
      StepKeeps(s, run[0]);
      ClosingKeeps(s, run[0]);
      DestroyLeavesNothing(Next(s, run[0]), run[1..]);
    }
  }

  predicate Goes(s: State, run: seq<Action>)
    decreases |run|
  {
    run == [] || (Defined(s) && Enabled(s, run[0]) && Goes(Next(s, run[0]), run[1..]))
  }

  function Ends(s: State, run: seq<Action>): State
    requires Goes(s, run)
    decreases |run|
  {
    if run == [] then s else Ends(Next(s, run[0]), run[1..])
  }

  // From every state some such run exists: the transfer always gets there.
  lemma {:induction false} ComesToRest(s: State) returns (run: seq<Action>)
    requires Inv(s)
    ensures (forall k | 0 <= k < |run| :: Internal(run[k])) && Goes(s, run) && AtRest(Ends(s, run))
    decreases PcRank(s.pc), ThreadRanks(s.ctxs)
  {
    run := [];
    if !AtRest(s) {
      var a := NoDeadlock(s);
      StepKeeps(s, a);
      StepsRunOut(s, a);
      var rest := ComesToRest(Next(s, a));
      run := [a] + rest;
      assert run[1..] == rest;
    }
  }

  // ------------------------------------------------- from the first step to the last

  lemma {:induction false} StuckStays(run: seq<Action>, rest: seq<Action>)
    requires Exec(run).Stuck?
    ensures Exec(run + rest).Stuck?
    decreases |rest|
  {
    if rest == [] {
      assert run + rest == run;
    } else {
      var n := |rest| - 1;
      StuckStays(run, rest[..n]);
      assert (run + rest)[..|run + rest| - 1] == run + rest[..n];
    }
  }

  // A run that goes on is the run and what follows from where it got.
  lemma {:induction false} ExecConcat(run: seq<Action>, rest: seq<Action>)
    requires Exec(run).Reached?
    ensures Exec(run + rest).Reached? <==> Goes(Exec(run).s, rest)
    ensures Goes(Exec(run).s, rest) ==> Exec(run + rest) == Reached.Reached(Ends(Exec(run).s, rest))
    decreases |rest|
  {
    if rest == [] {
      assert run + rest == run;
    } else {
      var more := run + [rest[0]];
      assert more[..|more| - 1] == run;
      assert run + rest == more + rest[1..];
      if Exec(more).Reached? {
        ExecConcat(more, rest[1..]);
      } else {
        StuckStays(more, rest[1..]);
      }
    }
  }

  lemma DestroyCalled(before: seq<Action>, quick: bool)
    requires Exec(before + [Api(CallDestroy(quick))]).Reached?
    ensures var s := Exec(before + [Api(CallDestroy(quick))]).s; Inv(s) && Closing(s)
  {
    hide Next, Inv;
    var run := before + [Api(CallDestroy(quick))];
    assert run[..|run| - 1] == before;
    RunKeeps(before);
    RunKeeps(run);
    DestroyCloses(Exec(before).s, quick);
  }

  // Whatever a run did before the transfer tears its resolver down, and however the
  // steps after that interleave: when nothing moves any more, nothing is left over.
  lemma TornDownIsTidy(before: seq<Action>, quick: bool, after: seq<Action>)
    requires forall k | 0 <= k < |after| :: Internal(after[k])
    requires var end := Exec(before + [Api(CallDestroy(quick))] + after); end.Reached? && AtRest(end.s)
    ensures var s := Exec(before + [Api(CallDestroy(quick))] + after).s;
            forall i | 0 <= i < |s.ctxs| :: Tidy(s.ctxs[i])
  {
    hide Exec, Inv, Closing, AtRest, Tidy;
    var run := before + [Api(CallDestroy(quick))];
    if Exec(run).Stuck? { StuckStays(run, after); }
    DestroyCalled(before, quick);
    ExecConcat(run, after);
    DestroyLeavesNothing(Exec(run).s, after);
  }

  // And there is always a way to get there.
  lemma TeardownEnds(before: seq<Action>, quick: bool) returns (after: seq<Action>)
    requires Exec(before + [Api(CallDestroy(quick))]).Reached?
    ensures forall k | 0 <= k < |after| :: Internal(after[k])
    ensures var end := Exec(before + [Api(CallDestroy(quick))] + after); end.Reached? && AtRest(end.s)
  {
    hide Exec, Inv, Closing, AtRest;
    var run := before + [Api(CallDestroy(quick))];
    DestroyCalled(before, quick);
    after := ComesToRest(Exec(run).s);
    ExecConcat(run, after);
  }
}
