// The threaded resolver as a step system: the transfer, and one resolver thread
// for every context it ever shares.  A critical section is one step; so is each
// stretch of code between two of them.
module Resolver {

  // Where a resolver thread stands.
  datatype Thread =
    | Unborn
    | Starting        // reads do_abort
    | Resolving       // in getaddrinfo; may be cancelled
    | Rechecking      // reads do_abort again
    | Waking          // writes to the socket pair; may be cancelled
    | Leaving         // gives up its reference
    | Freeing         // it was the last holder
    | Ended

  // The shared context.  The last five fields only count what happened to it, and
  // whether the transfer was notified through the socket pair.
  datatype Ctx = Ctx(refs: int, thrdDone: bool, doAbort: bool, hnd: bool, res: bool, cancelled: bool, thread: Thread,
                     freed: nat, settled: nat, made: nat, taken: nat, dropped: nat, woken: bool)

  datatype Addr = Null | At(i: nat)

  // What the transfer does next once the current call returns.
  datatype After = Return | Restart | Failed | JoinNext(destroy: bool) | FinishNext(destroy: bool)

  // Where the transfer stands: Idle, or inside one of the resolver's functions.
  datatype Pc =
    | Idle
    // async_thrdd_init
    | Begin | Create | Share | Spawn | Keep | Unspawned
    // async_thrdd_destroy
    | Destroy(after: After) | Abort(after: After) | Settle(seen: bool, after: After)
    // addr_ctx_unlink
    | Unlink(i: nat, after: After) | Free(i: nat, after: After)
    // async_thrdd_shutdown
    | Shutdown(after: After) | Mark(after: After) | Cancel(after: After)
    // asyn_thrdd_await
    | Await(entry: bool, destroy: bool) | Join(entry: bool, destroy: bool) | Finish(destroy: bool)
    // Curl_async_is_resolved
    | Poll(after: After) | Take(after: After)

  datatype State = State(ctxs: seq<Ctx>, addr: Addr, pc: Pc, asyncDone: bool)

  datatype Call = CallInit | CallShutdown | CallDestroy(quick: bool) | CallAwait(entry: bool) | CallPoll

  // How creating a context turns out: no memory for it, a later failure inside
  // addr_ctx_create, or a context.
  datatype Created = NoMemory | Broken | Made

  datatype Action =
    | Api(call: Call)                                  // the transfer enters a function
    | Transfer(created: Created, spawned: bool)        // the transfer's next step
    | Run(t: nat, resolved: bool)                      // a thread's next step
    | Cancelled(t: nat)                                // a thread's cancellation fires

  const START := State([], Null, Idle, false)

  function Fresh(): Ctx {
    Ctx(1, false, false, false, false, false, Unborn, 0, 0, 0, 0, 0, false)
  }

  function Resume(after: After): Pc {
    match after
    case Return => Idle
    case Restart => Create
    case Failed => Destroy(Return)
    case JoinNext(d) => Join(false, d)
    case FinishNext(d) => Finish(d)
  }

  function Upd(s: State, i: nat, c: Ctx, pc: Pc): State
    requires i < |s.ctxs|
  {
    s.(ctxs := s.ctxs[i := c], pc := pc)
  }

  // ------------------------------------------------------------ enabled actions

  predicate Linked(s: State) {
    s.addr.At? && s.addr.i < |s.ctxs|
  }

  // The functions that follow the transfer's pointer.
  predicate NeedsAddr(pc: Pc) {
    || pc.Share? || pc.Spawn? || pc.Keep? || pc.Unspawned? || pc.Abort? || pc.Settle?
    || pc.Mark? || pc.Cancel? || pc.Await? || pc.Join? || pc.Take?
  }

  // The pointer is set, or not followed.
  predicate Defined(s: State) {
    && (s.addr.At? ==> s.addr.i < |s.ctxs|)
    && (NeedsAddr(s.pc) ==> s.addr.At?)
    && (s.pc.Unlink? || s.pc.Free? ==> s.pc.i < |s.ctxs|)
  }

  predicate Joins(s: State) {
    s.pc.Join? || (s.pc.Settle? && s.pc.seen)
  }

  // A join waits for the thread.
  predicate Enabled(s: State, a: Action) {
    match a
    case Api(_) => s.pc.Idle?
    case Transfer(_, _) =>
      !s.pc.Idle? && (Joins(s) && Linked(s) ==> s.ctxs[s.addr.i].thread in {Unborn, Ended})
    case Run(t, _) => t < |s.ctxs| && s.ctxs[t].thread !in {Unborn, Ended}
    case Cancelled(t) => t < |s.ctxs| && s.ctxs[t].cancelled && s.ctxs[t].thread in {Resolving, Waking}
  }

  // ---------------------------------------------------------------------- steps

  function Next(s: State, a: Action): State
    requires Defined(s) && Enabled(s, a)
  {
    match a
    case Api(call) => s.(pc := Entered(s, call))
    case Transfer(created, spawned) => TransferStep(s, created, spawned)
    case Run(t, resolved) => s.(ctxs := s.ctxs[t := ThreadStep(s.ctxs[t], resolved)])
    case Cancelled(t) => s.(ctxs := s.ctxs[t := s.ctxs[t].(thread := Leaving)])
  }

  function Entered(s: State, call: Call): Pc {
    match call
    case CallInit => Begin
    case CallShutdown => Shutdown(Return)
    case CallDestroy(quick) => if s.addr.At? && !quick then Await(false, true) else Destroy(Return)
    case CallAwait(entry) => if s.addr.At? then Await(entry, false) else Idle
    case CallPoll => Poll(Return)
  }

  // The resolver thread; resolving writes the result outside the lock.
  function ThreadStep(c: Ctx, resolved: bool): Ctx {
    match c.thread
    case Starting => c.(thread := if c.doAbort then Leaving else Resolving)
    case Resolving =>
      if resolved then c.(thread := Rechecking, res := true, made := c.made + 1) else c.(thread := Rechecking)
    case Rechecking => c.(thread := if c.doAbort then Leaving else Waking)
    case Waking => c.(thread := Leaving, woken := true)
    case Leaving => c.(thrdDone := true, refs := c.refs - 1, thread := if c.refs == 1 then Freeing else Ended)
    case Freeing => Released(c).(thread := Ended)
    case _ => c
  }

  // The context goes, and with it a result nobody took.
  function Released(c: Ctx): Ctx {
    c.(freed := c.freed + 1, res := false, dropped := c.dropped + if c.res then 1 else 0)
  }

  function TransferStep(s: State, created: Created, spawned: bool): State
    requires Defined(s)
  {
    match s.pc
    case Idle => s
    case Begin => s.(pc := if s.addr.At? then Destroy(Restart) else Create)
    case Create => CreateStep(s, created)
    case Share => Upd(s, s.addr.i, s.ctxs[s.addr.i].(refs := 2), Spawn)
    case Spawn =>
      if spawned then Upd(s, s.addr.i, s.ctxs[s.addr.i].(thread := Starting), Keep) else s.(pc := Unspawned)
    case Keep => Upd(s, s.addr.i, s.ctxs[s.addr.i].(hnd := true), Idle)
    case Unspawned => Upd(s, s.addr.i, s.ctxs[s.addr.i].(refs := 1, thrdDone := true), Destroy(Return))
    case Destroy(after) =>
      if s.addr.Null? then s.(pc := Resume(after))
      else s.(pc := if s.ctxs[s.addr.i].hnd then Abort(after) else Unlink(s.addr.i, after))
    case Abort(after) =>
      var c := s.ctxs[s.addr.i];
      Upd(s, s.addr.i, c.(doAbort := true), Settle(c.thrdDone, after))
    case Settle(_, after) =>     // joins when the thread is done, else detaches
      var c := s.ctxs[s.addr.i];
      Upd(s, s.addr.i, c.(hnd := false, settled := c.settled + 1), Unlink(s.addr.i, after))
    case Unlink(i, after) =>
      var c := s.ctxs[i];
      Upd(s, i, c.(refs := c.refs - 1), if c.refs == 1 then Free(i, after) else Resume(after)).(addr := Null)
    case Free(i, after) => Upd(s, i, Released(s.ctxs[i]), Resume(after))
    case Shutdown(after) =>
      s.(pc := if s.addr.At? && s.ctxs[s.addr.i].hnd then Mark(after) else Resume(after))
    case Mark(after) =>
      var c := s.ctxs[s.addr.i];
      Upd(s, s.addr.i, c.(doAbort := true), if c.thrdDone then Resume(after) else Cancel(after))
    case Cancel(after) => Upd(s, s.addr.i, s.ctxs[s.addr.i].(cancelled := true), Resume(after))
    case Await(entry, destroy) =>
      s.(pc := if !s.ctxs[s.addr.i].hnd then Finish(destroy)
               else if entry then Join(true, destroy) else Shutdown(JoinNext(destroy)))
    case Join(entry, destroy) =>
      var c := s.ctxs[s.addr.i];
      Upd(s, s.addr.i, c.(hnd := false, settled := c.settled + 1),
          if entry then Poll(FinishNext(destroy)) else Finish(destroy))
    case Finish(destroy) => s.(asyncDone := true, pc := if destroy then Destroy(Return) else Idle)
    case Poll(after) =>
      s.(pc := if !s.asyncDone && s.addr.At? && s.ctxs[s.addr.i].thrdDone then Take(after) else Resume(after))
    case Take(after) =>
      var c := s.ctxs[s.addr.i];
      var c' := if c.res then c.(res := false, taken := c.taken + 1) else c;
      Upd(s, s.addr.i, c', Shutdown(after)).(asyncDone := true)
  }

  function CreateStep(s: State, created: Created): State {
    match created
    case NoMemory => s.(asyncDone := false, pc := Destroy(Return))
    case Broken => s.(asyncDone := false, ctxs := s.ctxs + [Fresh()], pc := Unlink(|s.ctxs|, Failed))
    case Made => s.(asyncDone := false, ctxs := s.ctxs + [Fresh()], addr := At(|s.ctxs|), pc := Share)
  }

  // ----------------------------------------------------------------- what is safe

  // The context a step reads or writes.
  function Touched(s: State, a: Action): Addr
    requires Defined(s) && Enabled(s, a)
  {
    match a
    case Api(_) => Null
    case Run(t, _) => At(t)
    case Cancelled(t) => Null
    case Transfer(_, _) =>
      match s.pc
      case Unlink(i, _) => At(i)
      case Free(i, _) => At(i)
      case Idle => Null
      case Begin => Null
      case Create => Null
      case Finish(_) => Null
      case Poll(_) => if s.asyncDone then Null else s.addr
      case _ => s.addr
  }

  // No memory is used after it is freed or freed again, no handle is used that is
  // null, no reference is given up that is not held, and the result changes hands
  // only between a thread that has left and the transfer.
  predicate Safe(s: State, a: Action)
    requires Defined(s) && Enabled(s, a)
  {
    && (Touched(s, a).At? ==> Touched(s, a).i < |s.ctxs| && s.ctxs[Touched(s, a).i].freed == 0)
    && (a.Transfer? && (s.pc.Join? || s.pc.Settle? || s.pc.Cancel?) ==> s.ctxs[s.addr.i].hnd)
    && (a.Transfer? && s.pc.Unlink? ==> s.ctxs[s.pc.i].refs > 0)
    && (a.Transfer? && s.pc.Take? ==> Gone(s.ctxs[s.addr.i].thread))
    && (a.Run? && s.ctxs[a.t].thread == Leaving ==> s.ctxs[a.t].refs > 0)
    && (a.Run? && s.ctxs[a.t].thread == Resolving ==> !s.ctxs[a.t].thrdDone && !s.ctxs[a.t].res)
  }

  predicate Gone(t: Thread) {
    t == Unborn || t == Freeing || t == Ended
  }
}
