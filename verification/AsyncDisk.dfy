/** The asynchronous disk I/O handshake: the simulator (main) thread and one I/O thread per
    unit as interleaved atomic steps. Waiting on a condition is a sleeping state with a
    `signalled` mark, so a signal sent to nobody is lost, as in POSIX; there are no spurious
    wake-ups. Completions travel through the lock-protected event queue, whose links
    (`a_next`, QUEUE_LIST_END) are modelled as they are. */
module AsyncDisk {
  import opened Options

  datatype Op = Rsec | Wsec | Iavl

  /** io_dop. */
  datatype Dop = Done | Doing(op: Op)

  /** One accepted request, with the identity the model gives it. */
  datatype Req = Req(id: nat, op: Op)

  /** io_status, marked with the request and operation that produced it. */
  datatype Status = Status(id: nat, op: Op, result: int)

  datatype Owner = Free | Main | Io

  /** Where the I/O thread of a unit is in _disk_io. */
  datatype IoPc =
    | Absent                    // no thread
    | Created                   // before its first lock
    | LoopTop                   // holds io_lock, about to test asynch_io
    | Asleep(signalled: bool)   // in pthread_cond_wait (&io_cond)
    | Woken                     // holds io_lock again, about to test io_dop
    | Running                   // performs the operation, no lock
    | Finished                  // operation done, wants io_lock
    | Posting                   // io_dop cleared, io_done signalled, about to sim_activate
    | Exited

  /** a_next and the list heads: NULL, QUEUE_LIST_END or a unit. */
  datatype Link = Null | End | To(u: nat)

  datatype Ctx = Ctx(asynch: bool, lock: Owner, io: IoPc, dop: Dop, args: Req, callback: Option<Req>,
                     status: Status, next: Link, absCall: bool, waiting: bool)

  /** Where the main thread is. */
  datatype MainPc =
    | Idle
    | CallLock(u: nat, req: Req) | CallBody(u: nat, req: Req)              // AIO_CALL
    | CancelLock(u: nat) | CancelTest(u: nat) | CancelWait(u: nat, signalled: bool)  // _disk_cancel
    | ClrLock(u: nat) | ClrBody(u: nat) | ClrJoin(u: nat)                  // sim_disk_clr_async
    | SetWait(u: nat, signalled: bool)                                     // sim_disk_set_async
    | Check(u: nat) | Deliver(u: nat, callback: Option<Req>)               // _disk_completion_dispatch

  /** A callback that ran: for which request, with which status. */
  datatype Call = Call(req: Req, status: Status)

  /** queue and local are the heads of the event queue and of the list the main thread has
      taken off it; q and l are history variables naming the units on them, in order. */
  datatype State = State(ctx: seq<Ctx>, queue: Link, local: Link, pc: MainPc, log: seq<Call>, nextId: nat,
                         aborted: bool, q: seq<nat>, l: seq<nat>)

  datatype Action =
    // the client of the disk library, on the main thread
    | Request(u: nat, op: Op, result: int)   // result is used when the unit is synchronous
    | Cancel(u: nat)
    | Clear(u: nat)
    | Set(u: nat, enabled: bool)
    // the main thread
    | MainStep
    | Steal                                   // sim_aio_update_queue takes the whole queue
    | Migrate                                 // and works off one unit of it
    // the I/O thread of unit u
    | IoStep(u: nat, result: int)

  predicate Internal(a: Action) {
    a.MainStep? || a.Steal? || a.Migrate? || a.IoStep?
  }

  function WithCtx(s: State, u: nat, c: Ctx): State
    requires u < |s.ctx|
  {
    s.(ctx := s.ctx[u := c])
  }

  /** pthread_cond_signal (&io_cond): wakes the thread only if it sleeps. */
  function SignalIo(io: IoPc): IoPc {
    if io.Asleep? then Asleep(true) else io
  }

  /** pthread_cond_signal (&io_done), seen from the main thread. */
  function SignalDone(pc: MainPc, u: nat): MainPc {
    if pc.CancelWait? && pc.u == u then CancelWait(u, true) else pc
  }

  function SignalStartup(pc: MainPc, u: nat): MainPc {
    if pc.SetWait? && pc.u == u then SetWait(u, true) else pc
  }

  /** Client calls: each starts when the main thread is idle. A client issues a request only
      after the callback of its previous one. */
  function ClientStep(s: State, a: Action): Option<State>
    requires !Internal(a)
  {
    if s.pc != Idle || a.u >= |s.ctx| then None
    else
      var c := s.ctx[a.u];
      match a
      case Request(u, op, result) =>
        if c.waiting then None
        else
          var r := Req(s.nextId, op);
          if !c.asynch then
            // AIO_CALLSETUP runs the operation, AIO_CALL the callback, at once
            Some(s.(log := s.log + [Call(r, Status(r.id, op, result))], nextId := s.nextId + 1))
          else
            Some(WithCtx(s, u, c.(waiting := true)).(pc := CallLock(u, r), nextId := s.nextId + 1))
      case Cancel(u) => if c.asynch then Some(s.(pc := CancelLock(u))) else Some(s)
      case Clear(u) => if c.asynch then Some(s.(pc := ClrLock(u))) else Some(s)
      case Set(u, enabled) =>
        if c.io != Absent || c.asynch then None
        else if !enabled then Some(s)
        else Some(WithCtx(s, u, c.(asynch := true, io := Created)).(pc := SetWait(u, false)))
  }

  function MainStepOf(s: State): Option<State> {
    if s.pc == Idle || s.pc.u >= |s.ctx| then None
    else
      var c := s.ctx[s.pc.u];
      match s.pc
      case CallLock(u, r) => if c.lock == Free then Some(WithCtx(s, u, c.(lock := Main)).(pc := CallBody(u, r))) else None
      case CallBody(u, r) =>
        if c.callback.Some? then Some(s.(aborted := true))
        else Some(WithCtx(s, u, c.(dop := Doing(r.op), args := r, callback := Some(r), io := SignalIo(c.io), lock := Free)).(pc := Idle))
      case CancelLock(u) => if c.lock == Free then Some(WithCtx(s, u, c.(lock := Main)).(pc := CancelTest(u))) else None
      case CancelTest(u) => Some(WithCtx(s, u, c.(lock := Free)).(pc := if c.dop == Done then Idle else CancelWait(u, false)))
      case CancelWait(u, signalled) =>
        if signalled && c.lock == Free then Some(WithCtx(s, u, c.(lock := Main)).(pc := CancelTest(u))) else None
      case ClrLock(u) => if c.lock == Free then Some(WithCtx(s, u, c.(lock := Main)).(pc := ClrBody(u))) else None
      case ClrBody(u) => Some(WithCtx(s, u, c.(asynch := false, io := SignalIo(c.io), lock := Free)).(pc := ClrJoin(u)))
      case ClrJoin(u) => if c.io == Exited then Some(WithCtx(s, u, c.(io := Absent)).(pc := Idle)) else None
      case SetWait(u, signalled) => if signalled && c.lock == Free then Some(s.(pc := Idle)) else None
      case Check(u) => if c.dop != Done then Some(s.(aborted := true)) else Some(s.(pc := Deliver(u, c.callback)))
      case Deliver(u, callback) =>
        if callback.None? then Some(s.(pc := Idle))
        else Some(WithCtx(s, u, c.(callback := None, waiting := false)).(pc := Idle, log := s.log + [Call(callback.value, c.status)]))
  }

  function StealStep(s: State): Option<State> {
    if s.pc == Idle && s.local == End && s.queue != End then Some(s.(local := s.queue, queue := End, l := s.q, q := [])) else None
  }

  function MigrateStep(s: State): Option<State> {
    if s.pc == Idle && s.local.To? && s.local.u < |s.ctx| && s.l != [] then
      var u := s.local.u;
      Some(WithCtx(s, u, s.ctx[u].(next := Null)).(local := s.ctx[u].next, l := s.l[1..], pc := Check(u)))
    else None
  }

  /** AIO_ACTIVATE from the I/O thread: link the unit unless it is linked already. */
  function Post(s: State, u: nat): State
    requires u < |s.ctx|
  {
    var c := s.ctx[u].(io := LoopTop);
    if c.next != Null then WithCtx(s, u, c.(absCall := true))
    else WithCtx(s, u, c.(next := s.queue, absCall := false)).(queue := To(u), q := [u] + s.q)
  }

  function IoStepOf(s: State, u: nat, result: int): Option<State> {
    if u >= |s.ctx| then None
    else
      var c := s.ctx[u];
      match c.io
      case Absent => None
      case Created => if c.lock == Free then Some(WithCtx(s, u, c.(lock := Io, io := LoopTop)).(pc := SignalStartup(s.pc, u))) else None
      case LoopTop => Some(WithCtx(s, u, c.(lock := Free, io := if c.asynch then Asleep(false) else Exited)))
      case Asleep(signalled) => if signalled && c.lock == Free then Some(WithCtx(s, u, c.(lock := Io, io := Woken))) else None
      case Woken => Some(WithCtx(s, u, c.(lock := Free, io := if c.dop == Done then Exited else Running)))
      case Running =>
        if c.dop == Done then Some(WithCtx(s, u, c.(io := Finished)))   // no case of the switch
        else Some(WithCtx(s, u, c.(status := Status(c.args.id, c.dop.op, result), io := Finished)))
      case Finished =>
        if c.lock == Free then Some(WithCtx(s, u, c.(lock := Io, dop := Done, io := Posting)).(pc := SignalDone(s.pc, u))) else None
      case Posting => Some(Post(s, u))
      case Exited => None
  }

  function Step(s: State, a: Action): Option<State> {
    if s.aborted then None
    else
      match a
      case MainStep => MainStepOf(s)
      case Steal => StealStep(s)
      case Migrate => MigrateStep(s)
      case IoStep(u, result) => IoStepOf(s, u, result)
      case _ => ClientStep(s, a)
  }

  /** n units, nothing running. */
  predicate Initial(s: State) {
    && (forall u :: 0 <= u < |s.ctx| ==>
          var c := s.ctx[u];
          !c.asynch && c.lock == Free && c.io == Absent && c.dop == Done && c.callback == None && c.next == Null && !c.waiting)
    && s.queue == End && s.local == End && s.pc == Idle && s.log == [] && s.nextId == 0 && !s.aborted && s.q == [] && s.l == []
  }

  /** The state after a run, if every step of it was possible. */
  function Run(s: State, run: seq<Action>): Option<State> {
    if run == [] then Some(s)
    else
      var before := Run(s, run[..|run| - 1]);
      if before.None? then None else Step(before.value, run[|run| - 1])
  }

  // ----- the invariant

  predicate Mine(pc: MainPc, u: nat) {
    !pc.Idle? && pc.u == u
  }

  predicate Calling(pc: MainPc, u: nat) {
    Mine(pc, u) && (pc.CallLock? || pc.CallBody?)
  }

  predicate Delivering(pc: MainPc, u: nat) {
    Mine(pc, u) && (pc.Check? || pc.Deliver?)
  }

  predicate StatusFor(st: Status, r: Req) {
    st.id == r.id && st.op == r.op
  }

  /** Who holds io_lock, and what the thread and the main thread may be doing. */
  predicate ThreadInv(c: Ctx, pc: MainPc, u: nat) {
    && (c.lock == Io <==> c.io.LoopTop? || c.io.Woken? || c.io.Posting?)
    && (c.lock == Main <==> Mine(pc, u) && (pc.CallBody? || pc.CancelTest? || pc.ClrBody?))
    && (c.asynch ==> c.io != Absent && c.io != Exited)
    && (!c.asynch && c.io != Absent ==> Mine(pc, u) && pc.ClrJoin?)
    && (c.io == Created ==> pc == SetWait(u, false))
    && (Mine(pc, u) && (pc.CallLock? || pc.CallBody? || pc.CancelLock? || pc.CancelTest? || pc.CancelWait? || pc.ClrLock? || pc.ClrBody? || pc.SetWait?) ==> c.asynch)
    && (Mine(pc, u) && pc.SetWait? && !pc.signalled ==> c.io == Created)
    && (Mine(pc, u) && pc.ClrJoin? ==> !c.asynch && c.io != Absent)
    // no wake-up is lost
    && (c.io == Asleep(false) ==> c.asynch && c.dop == Done)
    && (c.io == Asleep(true) || c.io == Woken ==> c.asynch ==> c.dop != Done)
    && (Mine(pc, u) && pc.CancelWait? ==> (pc.signalled <==> c.dop == Done))
  }

  /** The stage an outstanding request is in: accepted and not yet done, done and about to
      be queued, queued, or being delivered; exactly one of them. */
  predicate RequestInv(c: Ctx, pc: MainPc, u: nat, queued: bool) {
    && (c.next != Null <==> queued)
    && (c.waiting <==> c.callback.Some? || Calling(pc, u))
    && (Calling(pc, u) ==> c.callback.None?)
    && (Mine(pc, u) && pc.Deliver? ==> pc.callback == c.callback)
    && match c.callback
       case None => c.dop == Done && !queued && !Delivering(pc, u) && c.io != Running && c.io != Finished && c.io != Posting
       case Some(r) =>
         if c.dop != Done then
           && c.args == r && c.dop.op == r.op && !queued && !Delivering(pc, u)
           && (c.io == Asleep(true) || c.io == Woken || c.io == Running || (c.io == Finished && StatusFor(c.status, r)))
         else
           && StatusFor(c.status, r)
           && if c.io == Posting then !queued && !Delivering(pc, u)
              else queued == !Delivering(pc, u) && c.io != Running && c.io != Finished
  }

  predicate UnitInv(c: Ctx, pc: MainPc, u: nat, queued: bool) {
    ThreadInv(c, pc, u) && RequestInv(c, pc, u, queued)
  }

  /** The links starting at head name exactly the units of `us`, in order. */
  predicate IsList(ctx: seq<Ctx>, head: Link, us: seq<nat>)
    decreases |us|
  {
    if us == [] then head == End
    else us[0] < |ctx| && head == To(us[0]) && IsList(ctx, ctx[us[0]].next, us[1..])
  }

  predicate NoRepeats(us: seq<nat>) {
    forall i, j :: 0 <= i < j < |us| ==> us[i] != us[j]
  }

  predicate ListsInv(s: State) {
    IsList(s.ctx, s.queue, s.q) && IsList(s.ctx, s.local, s.l) && NoRepeats(s.q + s.l)
  }

  predicate Queued(s: State, u: nat) {
    u in s.q || u in s.l
  }

  function Waiting(ctx: seq<Ctx>): nat {
    if ctx == [] then 0 else Waiting(ctx[..|ctx| - 1]) + if ctx[|ctx| - 1].waiting then 1 else 0
  }

  /** The id of the request a unit has outstanding. */
  function Outstanding(c: Ctx, pc: MainPc, u: nat): Option<nat> {
    if c.callback.Some? then Some(c.callback.value.id)
    else if Calling(pc, u) then Some(pc.req.id)
    else None
  }

  /** Every callback ran with its own request's status, none ran twice, and requests
      accepted are callbacks run plus requests outstanding. */
  predicate LogInv(s: State) {
    && (forall k :: 0 <= k < |s.log| ==> StatusFor(s.log[k].status, s.log[k].req) && s.log[k].req.id < s.nextId)
    && (forall j, k :: 0 <= j < k < |s.log| ==> s.log[j].req.id != s.log[k].req.id)
    && (forall u :: 0 <= u < |s.ctx| ==> var o := Outstanding(s.ctx[u], s.pc, u);
          o.Some? ==> o.value < s.nextId && forall k :: 0 <= k < |s.log| ==> s.log[k].req.id != o.value)
    && (forall u, v :: 0 <= u < v < |s.ctx| ==>
          Outstanding(s.ctx[u], s.pc, u).Some? ==> Outstanding(s.ctx[u], s.pc, u) != Outstanding(s.ctx[v], s.pc, v))
    && |s.log| + Waiting(s.ctx) == s.nextId
  }

  predicate Inv(s: State) {
    && !s.aborted
    && (!s.pc.Idle? ==> s.pc.u < |s.ctx|)
    && (forall u :: 0 <= u < |s.ctx| ==> UnitInv(s.ctx[u], s.pc, u, Queued(s, u)))
    && ListsInv(s)
    && LogInv(s)
  }

  lemma {:induction false} WaitingUpdate(ctx: seq<Ctx>, u: nat, c: Ctx)
    requires u < |ctx|
    ensures Waiting(ctx[u := c]) == Waiting(ctx) - (if ctx[u].waiting then 1 else 0) + if c.waiting then 1 else 0
  {
    var n := |ctx| - 1;
    var after := ctx[u := c];
    if u == n {
      assert after[..n] == ctx[..n];
    } else {
      assert after[..n] == ctx[..n][u := c];
      WaitingUpdate(ctx[..n], u, c);
    }
  }

  lemma {:induction false} ListKept(ctx: seq<Ctx>, ctx': seq<Ctx>, head: Link, us: seq<nat>)
    requires IsList(ctx, head, us) && |ctx'| == |ctx|
    decreases |us|
    requires forall u :: u in us && u < |ctx| ==> ctx'[u].next == ctx[u].next
    ensures IsList(ctx', head, us)
  {
    if us != [] {
      assert forall u :: u in us[1..] ==> u in us;
      ListKept(ctx, ctx', ctx[us[0]].next, us[1..]);
    }
  }

  /** A step that changes one unit without touching its link, and the main thread only as
      far as that unit is concerned, keeps the lists. */
  lemma ListsKept(s: State, t: State, u: nat)
    requires ListsInv(s) && u < |s.ctx| && t.q == s.q && t.l == s.l && t.queue == s.queue && t.local == s.local
    requires t.ctx == s.ctx || (|t.ctx| == |s.ctx| && t.ctx == s.ctx[u := t.ctx[u]] && t.ctx[u].next == s.ctx[u].next)
    ensures ListsInv(t)
  {
    ListKept(s.ctx, t.ctx, s.queue, s.q);
    ListKept(s.ctx, t.ctx, s.local, s.l);
  }

  /** t is s with only unit u, and the main thread's dealings with unit u, changed. */
  predicate OnlyUnit(s: State, t: State, u: nat) {
    && u < |s.ctx| && |t.ctx| == |s.ctx| && t.ctx == s.ctx[u := t.ctx[u]]
    && (t.pc == s.pc || ((s.pc.Idle? || s.pc.u == u) && (t.pc.Idle? || t.pc.u == u)))
  }

  lemma UnitsKept(s: State, t: State, u: nat)
    requires OnlyUnit(s, t, u)
    requires forall v :: 0 <= v < |s.ctx| ==> UnitInv(s.ctx[v], s.pc, v, Queued(s, v))
    requires forall v :: 0 <= v < |s.ctx| && v != u ==> Queued(t, v) == Queued(s, v)
    requires UnitInv(t.ctx[u], t.pc, u, Queued(t, u))
    ensures forall v :: 0 <= v < |t.ctx| ==> UnitInv(t.ctx[v], t.pc, v, Queued(t, v))
  {
    forall v | 0 <= v < |t.ctx| ensures UnitInv(t.ctx[v], t.pc, v, Queued(t, v)) {
      assert UnitInv(s.ctx[v], s.pc, v, Queued(s, v));
    }
  }

  lemma OutstandingElsewhere(s: State, t: State, u: nat)
    requires OnlyUnit(s, t, u)
    ensures forall v :: 0 <= v < |t.ctx| && v != u ==> Outstanding(t.ctx[v], t.pc, v) == Outstanding(s.ctx[v], s.pc, v)
  {
  }

  lemma LogKept(s: State, t: State, u: nat)
    requires OnlyUnit(s, t, u) && LogInv(s) && t.log == s.log && t.nextId == s.nextId
    requires t.ctx[u].waiting == s.ctx[u].waiting && Outstanding(t.ctx[u], t.pc, u) == Outstanding(s.ctx[u], s.pc, u)
    ensures LogInv(t)
  {
    hide Outstanding;
    WaitingUpdate(s.ctx, u, t.ctx[u]);
    OutstandingElsewhere(s, t, u);
  }

  /** A unit's step that leaves lists, log and its outstanding request alone. */
  lemma QuietStep(s: State, t: State, u: nat)
    requires Inv(s) && OnlyUnit(s, t, u)
    requires t.log == s.log && t.nextId == s.nextId && t.q == s.q && t.l == s.l && t.queue == s.queue && t.local == s.local
    requires !t.aborted && t.ctx[u].next == s.ctx[u].next
    requires t.ctx[u].waiting == s.ctx[u].waiting && Outstanding(t.ctx[u], t.pc, u) == Outstanding(s.ctx[u], s.pc, u)
    requires UnitInv(t.ctx[u], t.pc, u, Queued(s, u))
    ensures Inv(t)
  {
    hide UnitInv, LogInv, ListsInv, Outstanding;
    UnitsKept(s, t, u);
    LogKept(s, t, u);
    ListsKept(s, t, u);
  }

  /** The invariant of the unit the main thread is dealing with. */
  lemma MainUnit(s: State, t: State, u: nat, queued: bool)
    requires s.pc != Idle && u == s.pc.u < |s.ctx| && !s.aborted && MainStepOf(s) == Some(t)
    requires !(s.pc.Deliver? && s.pc.callback.Some?) && UnitInv(s.ctx[u], s.pc, u, queued)
    ensures OnlyUnit(s, t, u) && UnitInv(t.ctx[u], t.pc, u, queued) && !t.aborted
    ensures t.ctx[u].waiting == s.ctx[u].waiting && Outstanding(t.ctx[u], t.pc, u) == Outstanding(s.ctx[u], s.pc, u)
  {
    hide UnitInv, MainStepOf, Outstanding, OnlyUnit;
    match s.pc {
      case CallLock(_, _) => MainCalls(s, t, u, queued);
      case CallBody(_, _) => MainCalls(s, t, u, queued);
      case CancelLock(_) => MainCancels(s, t, u, queued);
      case CancelTest(_) => MainCancels(s, t, u, queued);
      case CancelWait(_, _) => MainCancels(s, t, u, queued);
      case ClrLock(_) => MainClears(s, t, u, queued);
      case ClrBody(_) => MainClears(s, t, u, queued);
      case ClrJoin(_) => MainClears(s, t, u, queued);
      case _ => MainAnswers(s, t, u, queued);
    }
  }

  lemma MainCalls(s: State, t: State, u: nat, queued: bool)
    requires (s.pc.CallLock? || s.pc.CallBody?) && u == s.pc.u < |s.ctx| && !s.aborted && MainStepOf(s) == Some(t)
    requires UnitInv(s.ctx[u], s.pc, u, queued)
    ensures KeepsUnit(s, t, u, queued) && !t.aborted
  {
  }

  lemma MainCancels(s: State, t: State, u: nat, queued: bool)
    requires s.pc.CancelLock? || s.pc.CancelTest? || s.pc.CancelWait?
    requires u == s.pc.u < |s.ctx| && !s.aborted && MainStepOf(s) == Some(t) && UnitInv(s.ctx[u], s.pc, u, queued)
    ensures KeepsUnit(s, t, u, queued) && !t.aborted
  {
  }

  lemma MainClears(s: State, t: State, u: nat, queued: bool)
    requires s.pc.ClrLock? || s.pc.ClrBody? || s.pc.ClrJoin?
    requires u == s.pc.u < |s.ctx| && !s.aborted && MainStepOf(s) == Some(t) && UnitInv(s.ctx[u], s.pc, u, queued)
    ensures KeepsUnit(s, t, u, queued) && !t.aborted
  {
  }

  lemma MainAnswers(s: State, t: State, u: nat, queued: bool)
    requires s.pc.SetWait? || s.pc.Check? || (s.pc.Deliver? && s.pc.callback.None?)
    requires u == s.pc.u < |s.ctx| && !s.aborted && MainStepOf(s) == Some(t) && UnitInv(s.ctx[u], s.pc, u, queued)
    ensures KeepsUnit(s, t, u, queued) && !t.aborted
  {
  }

  lemma MainKeepsInv(s: State, t: State)
    requires Inv(s) && Step(s, MainStep) == Some(t)
    ensures Inv(t)
  {
    hide LogInv, ListsInv, UnitInv, Outstanding;
    var u := s.pc.u;
    assert UnitInv(s.ctx[u], s.pc, u, Queued(s, u));
    if s.pc.Deliver? && s.pc.callback.Some? {
      DeliverKeepsInv(s, t);
    } else {
      MainUnit(s, t, u, Queued(s, u));
      QuietStep(s, t, u);
    }
  }

  /** The unit whose callback runs. */
  lemma DeliverUnit(s: State, t: State, u: nat, queued: bool)
    requires s.pc.Deliver? && s.pc.callback.Some? && u == s.pc.u < |s.ctx| && MainStepOf(s) == Some(t)
    requires UnitInv(s.ctx[u], s.pc, u, queued)
    ensures OnlyUnit(s, t, u) && UnitInv(t.ctx[u], t.pc, u, queued) && t.ctx[u].next == s.ctx[u].next
    ensures s.ctx[u].waiting && !t.ctx[u].waiting
    ensures var r := s.pc.callback.value;
      && t.log == s.log + [Call(r, s.ctx[u].status)] && StatusFor(s.ctx[u].status, r)
      && Outstanding(s.ctx[u], s.pc, u) == Some(r.id) && Outstanding(t.ctx[u], t.pc, u) == None
  {
  }

  /** The request of a unit goes from outstanding to the log. */
  lemma DeliverLog(s: State, t: State, u: nat, call: Call)
    requires LogInv(s) && OnlyUnit(s, t, u) && t.nextId == s.nextId
    requires t.log == s.log + [call] && StatusFor(call.status, call.req)
    requires Outstanding(s.ctx[u], s.pc, u) == Some(call.req.id) && Outstanding(t.ctx[u], t.pc, u) == None
    requires s.ctx[u].waiting && !t.ctx[u].waiting
    ensures LogInv(t)
  {
    hide Outstanding, StatusFor;
    WaitingUpdate(s.ctx, u, t.ctx[u]);
    OutstandingElsewhere(s, t, u);
  }

  /** A callback runs: it was not in the log, and it gets its own request's status. */
  lemma DeliverKeepsInv(s: State, t: State)
    requires Inv(s) && s.pc.Deliver? && s.pc.callback.Some? && Step(s, MainStep) == Some(t)
    ensures Inv(t)
  {
    hide LogInv, ListsInv, UnitInv, Outstanding, StatusFor;
    var u := s.pc.u;
    assert UnitInv(s.ctx[u], s.pc, u, Queued(s, u));
    DeliverUnit(s, t, u, Queued(s, u));
    ListsKept(s, t, u);
    UnitsKept(s, t, u);
    DeliverLog(s, t, u, Call(s.pc.callback.value, s.ctx[u].status));
  }

  predicate KeepsUnit(s: State, t: State, u: nat, queued: bool)
    requires u < |s.ctx|
  {
    && OnlyUnit(s, t, u) && UnitInv(t.ctx[u], t.pc, u, queued)
    && t.ctx[u].waiting == s.ctx[u].waiting && Outstanding(t.ctx[u], t.pc, u) == Outstanding(s.ctx[u], s.pc, u)
  }

  lemma IoWakes(s: State, t: State, u: nat, result: int, queued: bool)
    requires u < |s.ctx| && (s.ctx[u].io.Asleep? || s.ctx[u].io.Created?)
    requires IoStepOf(s, u, result) == Some(t) && UnitInv(s.ctx[u], s.pc, u, queued)
    ensures KeepsUnit(s, t, u, queued)
  {
  }

  lemma IoTests(s: State, t: State, u: nat, result: int, queued: bool)
    requires u < |s.ctx| && (s.ctx[u].io.LoopTop? || s.ctx[u].io.Woken?)
    requires IoStepOf(s, u, result) == Some(t) && UnitInv(s.ctx[u], s.pc, u, queued)
    ensures KeepsUnit(s, t, u, queued)
  {
  }

  lemma IoWorks(s: State, t: State, u: nat, result: int, queued: bool)
    requires u < |s.ctx| && (s.ctx[u].io.Running? || s.ctx[u].io.Finished?)
    requires IoStepOf(s, u, result) == Some(t) && UnitInv(s.ctx[u], s.pc, u, queued)
    ensures KeepsUnit(s, t, u, queued)
  {
  }

  lemma IoUnit(s: State, t: State, u: nat, result: int, queued: bool)
    requires u < |s.ctx| && !s.ctx[u].io.Posting? && IoStepOf(s, u, result) == Some(t) && UnitInv(s.ctx[u], s.pc, u, queued)
    ensures KeepsUnit(s, t, u, queued)
  {
    hide KeepsUnit, UnitInv;
    match s.ctx[u].io
    case Asleep(_) => IoWakes(s, t, u, result, queued);
    case Created => IoWakes(s, t, u, result, queued);
    case LoopTop => IoTests(s, t, u, result, queued);
    case Woken => IoTests(s, t, u, result, queued);
    case _ => IoWorks(s, t, u, result, queued);
  }

  lemma IoKeepsInv(s: State, t: State, u: nat, result: int)
    requires Inv(s) && Step(s, IoStep(u, result)) == Some(t)
    ensures Inv(t)
  {
    hide LogInv, ListsInv, UnitInv, Outstanding;
    assert UnitInv(s.ctx[u], s.pc, u, Queued(s, u));
    if s.ctx[u].io.Posting? {
      PostKeepsInv(s, t, u);
    } else {
      IoUnit(s, t, u, result, Queued(s, u));
      QuietStep(s, t, u);
    }
  }

  /** A completed unit is not linked, so it is linked exactly once. */
  lemma PostUnit(s: State, t: State, u: nat, queued: bool)
    requires u < |s.ctx| && s.ctx[u].io.Posting? && t == Post(s, u) && UnitInv(s.ctx[u], s.pc, u, queued)
    requires s.queue != Null
    ensures !queued && s.ctx[u].next == Null && OnlyUnit(s, t, u) && UnitInv(t.ctx[u], t.pc, u, true)
    ensures t.ctx[u].waiting == s.ctx[u].waiting && Outstanding(t.ctx[u], t.pc, u) == Outstanding(s.ctx[u], s.pc, u)
  {
  }

  lemma PostLists(s: State, t: State, u: nat)
    requires u < |s.ctx| && t == Post(s, u) && ListsInv(s) && !Queued(s, u) && s.ctx[u].next == Null
    ensures ListsInv(t)
  {
    ListKept(s.ctx, t.ctx, s.queue, s.q);
    ListKept(s.ctx, t.ctx, s.local, s.l);
    assert t.q[1..] == s.q;
    assert t.q + t.l == [u] + (s.q + s.l);
  }

  lemma PostKeepsInv(s: State, t: State, u: nat)
    requires Inv(s) && u < |s.ctx| && s.ctx[u].io.Posting? && t == Post(s, u)
    ensures Inv(t)
  {
    hide LogInv, UnitInv, Outstanding;
    assert UnitInv(s.ctx[u], s.pc, u, Queued(s, u));
    PostUnit(s, t, u, Queued(s, u));
    UnitsKept(s, t, u);
    LogKept(s, t, u);
    PostLists(s, t, u);
  }

  lemma StealKeepsInv(s: State, t: State)
    requires Inv(s) && Step(s, Steal) == Some(t)
    ensures Inv(t)
  {
    hide LogInv;
    assert s.l == [] && t.q + t.l == s.q + s.l;
    forall u | 0 <= u < |t.ctx| ensures UnitInv(t.ctx[u], t.pc, u, Queued(t, u)) {
      assert UnitInv(s.ctx[u], s.pc, u, Queued(s, u));
    }
    assert LogInv(t) by { LogSame(s, t); }
  }

  lemma LogSame(s: State, t: State)
    requires LogInv(s) && t.ctx == s.ctx && t.pc == s.pc && t.log == s.log && t.nextId == s.nextId
    ensures LogInv(t)
  {
  }

  lemma MigrateKeepsInv(s: State, t: State)
    requires Inv(s) && Step(s, Migrate) == Some(t)
    ensures Inv(t)
  {
    hide LogInv;
    var u := s.local.u;
    assert s.l[0] == u && (s.q + s.l)[|s.q|] == u;
    assert UnitInv(s.ctx[u], s.pc, u, Queued(s, u));
    RestWithout(s.q, s.l);
    UnitsKept(s, t, u);
    LogKept(s, t, u);
    ListKept(s.ctx, t.ctx, s.queue, s.q);
    ListKept(s.ctx, t.ctx, s.ctx[u].next, s.l[1..]);
  }

  lemma RestWithout(q: seq<nat>, l: seq<nat>)
    requires l != [] && NoRepeats(q + l)
    ensures NoRepeats(q + l[1..]) && l[0] !in q && l[0] !in l[1..]
    ensures forall v :: v != l[0] ==> (v in l[1..] <==> v in l)
  {
    var a := q + l;
    var b := q + l[1..];
    assert forall i :: 0 <= i < |b| ==> b[i] == if i < |q| then a[i] else a[i + 1];
    assert a[|q|] == l[0];
    assert forall i :: 0 <= i < |q| ==> a[i] == q[i];
    assert forall i :: 0 <= i < |l[1..]| ==> l[1..][i] == a[|q| + 1 + i];
    assert l == [l[0]] + l[1..];
  }

  lemma ClientKeepsInv(s: State, a: Action, t: State)
    requires Inv(s) && !Internal(a) && Step(s, a) == Some(t)
    ensures Inv(t)
  {
    hide ListsInv, NoRepeats, IsList, LogInv;
    var u := a.u;
    assert UnitInv(s.ctx[u], s.pc, u, Queued(s, u));
    if a.Request? {
      RequestKeepsInv(s, a, t);
    } else {
      QuietStep(s, t, u);
    }
  }

  /** A synchronous unit's request: its callback is the next one in the log. */
  predicate RanAtOnce(log: seq<Call>, log': seq<Call>, r: Req) {
    |log'| == |log| + 1 && log'[..|log|] == log && log'[|log|].req == r && StatusFor(log'[|log|].status, r)
  }

  lemma RequestUnit(s: State, a: Action, t: State, u: nat, queued: bool)
    requires a.Request? && a.u == u && ClientStep(s, a) == Some(t) && u < |s.ctx| && UnitInv(s.ctx[u], s.pc, u, queued)
    ensures OnlyUnit(s, t, u) && UnitInv(t.ctx[u], t.pc, u, queued) && t.ctx[u].next == s.ctx[u].next
    ensures Outstanding(s.ctx[u], s.pc, u) == None && !s.ctx[u].waiting
    ensures Outstanding(t.ctx[u], t.pc, u) == if s.ctx[u].asynch then Some(s.nextId) else None
    ensures t.ctx[u].waiting == s.ctx[u].asynch && t.nextId == s.nextId + 1
    ensures if t.ctx[u].waiting then t.log == s.log else RanAtOnce(s.log, t.log, Req(s.nextId, a.op))
  {
    assert StatusFor(Status(s.nextId, a.op, a.result), Req(s.nextId, a.op));
  }

  lemma RequestKeepsInv(s: State, a: Action, t: State)
    requires Inv(s) && a.Request? && Step(s, a) == Some(t)
    ensures Inv(t)
  {
    hide ListsInv, UnitInv, LogInv, Outstanding;
    var u := a.u;
    assert UnitInv(s.ctx[u], s.pc, u, Queued(s, u));
    RequestUnit(s, a, t, u, Queued(s, u));
    ListsKept(s, t, u);
    UnitsKept(s, t, u);
    RequestLog(s, a, t, u);
  }

  lemma RequestLog(s: State, a: Action, t: State, u: nat)
    requires LogInv(s) && OnlyUnit(s, t, u) && Outstanding(s.ctx[u], s.pc, u) == None && !s.ctx[u].waiting && t.nextId == s.nextId + 1
    requires a.Request?
    requires Outstanding(t.ctx[u], t.pc, u) == if t.ctx[u].waiting then Some(s.nextId) else None
    requires if t.ctx[u].waiting then t.log == s.log else RanAtOnce(s.log, t.log, Req(s.nextId, a.op))
    ensures LogInv(t)
  {
    hide Outstanding, StatusFor;
    WaitingUpdate(s.ctx, u, t.ctx[u]);
    OutstandingElsewhere(s, t, u);
    forall k | 0 <= k < |s.log| ensures t.log[k] == s.log[k] {
      assert t.log[..|s.log|][k] == s.log[k];
    }
  }

  lemma StepKeepsInv(s: State, a: Action, t: State)
    requires Inv(s) && Step(s, a) == Some(t)
    ensures Inv(t)
  {
    hide Inv, Step;
    match a
    case MainStep => MainKeepsInv(s, t);
    case Steal => StealKeepsInv(s, t);
    case Migrate => MigrateKeepsInv(s, t);
    case IoStep(u, result) => IoKeepsInv(s, t, u, result);
    case _ => ClientKeepsInv(s, a, t);
  }

  lemma {:induction false} NoWaiting(ctx: seq<Ctx>)
    requires forall u :: 0 <= u < |ctx| ==> !ctx[u].waiting
    ensures Waiting(ctx) == 0
  {
    if ctx != [] {
      NoWaiting(ctx[..|ctx| - 1]);
    }
  }

  lemma InitialInv(s: State)
    requires Initial(s)
    ensures Inv(s)
  {
    NoWaiting(s.ctx);
  }

  /** The invariant holds after every run of any length, under every interleaving. */
  lemma {:induction false} RunKeepsInv(s: State, run: seq<Action>)
    requires Initial(s) && Run(s, run).Some?
    ensures Inv(Run(s, run).value)
    decreases |run|
  {
    hide Inv, Initial, Step;
    if run == [] {
      InitialInv(s);
    } else {
      var before := run[..|run| - 1];
      RunKeepsInv(s, before);
      StepKeepsInv(Run(s, before).value, run[|run| - 1], Run(s, run).value);
    }
  }

  // ----- what follows for every run

  /** Neither abort is ever reached, and no unit is linked twice. */
  lemma NeverAborts(s: State, run: seq<Action>)
    requires Initial(s) && Run(s, run).Some?
    ensures !Run(s, run).value.aborted
    ensures NoRepeats(Run(s, run).value.q + Run(s, run).value.l)
  {
    RunKeepsInv(s, run);
  }

  /** Every callback that has run got the status of its own request's own operation, no
      request's callback ran twice, and none is lost: what has not run is outstanding. */
  lemma CallbacksMatch(s: State, run: seq<Action>)
    requires Initial(s) && Run(s, run).Some?
    ensures var t := Run(s, run).value;
      && (forall k :: 0 <= k < |t.log| ==> StatusFor(t.log[k].status, t.log[k].req))
      && (forall j, k :: 0 <= j < k < |t.log| ==> t.log[j].req.id != t.log[k].req.id)
      && |t.log| + Waiting(t.ctx) == t.nextId
  {
    RunKeepsInv(s, run);
  }

  /** No operation is under way on the unit. */
  predicate Quiet(c: Ctx) {
    c.dop == Done && c.io != Running && c.io != Finished
  }

  /** Cancel and clear return only when no operation is running: when the main thread comes
      back from _disk_cancel or sim_disk_clr_async the unit is quiet, and after the latter
      it has no thread. */
  lemma ReturnsQuiet(s: State, run: seq<Action>, a: Action)
    requires Initial(s) && Run(s, run).Some? && Run(s, run + [a]).Some?
    ensures var before, after := Run(s, run).value, Run(s, run + [a]).value;
      && (a.MainStep? && (before.pc.CancelTest? || before.pc.ClrJoin?) && after.pc == Idle ==> Quiet(after.ctx[before.pc.u]))
      && (a.MainStep? && before.pc.ClrJoin? && after.pc == Idle ==> after.ctx[before.pc.u].io == Absent)
      && ((a.Cancel? || a.Clear?) && after.pc == Idle ==> Quiet(after.ctx[a.u]) && after.ctx[a.u].io == Absent)
  {
    assert (run + [a])[..|run|] == run;
    RunKeepsInv(s, run);
    var before := Run(s, run).value;
    if a.Cancel? || a.Clear? {
      assert UnitInv(before.ctx[a.u], before.pc, a.u, Queued(before, a.u));
    } else if before.pc != Idle {
      assert UnitInv(before.ctx[before.pc.u], before.pc, before.pc.u, Queued(before, before.pc.u));
    }
  }

  // ----- liveness: steps the client does not choose run out, and only when all is answered

  /** The I/O thread of a unit that has been given work, or has work to hand over, can move. */
  lemma ThreadMoves(s: State, u: nat)
    requires Inv(s) && u < |s.ctx| && (s.ctx[u].dop != Done || s.ctx[u].lock == Io || s.ctx[u].io == Posting) && s.ctx[u].lock != Main
    ensures Step(s, IoStep(u, 0)).Some?
  {
    assert UnitInv(s.ctx[u], s.pc, u, Queued(s, u));
  }

  lemma MainOrThreadMoves(s: State) returns (a: Action)
    requires Inv(s) && s.pc != Idle
    ensures Internal(a) && Step(s, a).Some?
  {
    hide LogInv, ListsInv, Queued;
    var u := s.pc.u;
    assert UnitInv(s.ctx[u], s.pc, u, Queued(s, u));
    a := if MainStepOf(s).Some? then MainStep else IoStep(u, 0);
  }

  lemma QueueMoves(s: State, u: nat) returns (a: Action)
    requires Inv(s) && s.pc == Idle && Queued(s, u)
    ensures Internal(a) && Step(s, a).Some?
  {
    a := if s.l != [] then Migrate else Steal;
  }

  /** As long as a request is outstanding or the main thread is inside the library, some
      thread can move: no deadlock and no lost wake-up. */
  lemma SomeoneMoves(s: State) returns (a: Action)
    requires Inv(s) && (s.pc != Idle || exists u :: 0 <= u < |s.ctx| && s.ctx[u].waiting)
    ensures Internal(a) && Step(s, a).Some?
  {
    if s.pc != Idle {
      a := MainOrThreadMoves(s);
    } else {
      var u :| 0 <= u < |s.ctx| && s.ctx[u].waiting;
      assert UnitInv(s.ctx[u], s.pc, u, Queued(s, u));
      if s.ctx[u].dop != Done || s.ctx[u].io == Posting {
        ThreadMoves(s, u);
        a := IoStep(u, 0);
      } else {
        a := QueueMoves(s, u);
      }
    }
  }

  function IoWeight(c: Ctx): nat {
    match c.io
    case Absent => 0
    case Created => 5
    case LoopTop => 4
    case Asleep(signalled) => if !signalled then 3 else if c.dop == Done then 6 else 60
    case Woken => if c.dop == Done then 5 else 59
    case Running => 58
    case Finished => 57
    case Posting => 35
    case Exited => 1
  }

  function MainWeight(pc: MainPc): nat {
    match pc
    case Idle => 0
    case CallLock(_, _) => 80
    case CallBody(_, _) => 79
    case CancelLock(_) => 12
    case CancelTest(_) => 11
    case CancelWait(_, signalled) => if signalled then 12 else 5
    case ClrLock(_) => 16
    case ClrBody(_) => 15
    case ClrJoin(_) => 1
    case SetWait(_, signalled) => if signalled then 2 else 3
    case Check(_) => 3
    case Deliver(_, _) => 2
  }

  function UnitWeight(s: State, u: nat): nat
    requires u < |s.ctx|
  {
    IoWeight(s.ctx[u]) + (if u in s.q then 20 else 0) + (if u in s.l then 10 else 0)
  }

  function UnitsWeight(s: State, n: nat): nat
    requires n <= |s.ctx|
  {
    if n == 0 then 0 else UnitsWeight(s, n - 1) + UnitWeight(s, n - 1)
  }

  /** Steps the library can still take on its own. */
  function Weight(s: State): nat {
    MainWeight(s.pc) + UnitsWeight(s, |s.ctx|)
  }

  lemma {:induction false} WeightChange(s: State, t: State, n: nat, u: nat)
    requires n <= |s.ctx| == |t.ctx| && u < |s.ctx|
    requires forall v :: 0 <= v < |s.ctx| && v != u ==> UnitWeight(t, v) == UnitWeight(s, v)
    ensures UnitsWeight(t, n) == UnitsWeight(s, n) + if u < n then UnitWeight(t, u) - UnitWeight(s, u) else 0
  {
    if n > 0 {
      WeightChange(s, t, n - 1, u);
    }
  }

  lemma {:induction false} WeightDrop(s: State, t: State, n: nat, u: nat)
    requires n <= |s.ctx| == |t.ctx| && u < |s.ctx| && UnitWeight(t, u) < UnitWeight(s, u)
    requires forall v :: 0 <= v < |s.ctx| ==> UnitWeight(t, v) <= UnitWeight(s, v)
    ensures UnitsWeight(t, n) <= UnitsWeight(s, n) && (u < n ==> UnitsWeight(t, n) < UnitsWeight(s, n))
  {
    if n > 0 {
      WeightDrop(s, t, n - 1, u);
    }
  }

  lemma OneUnitLighter(s: State, t: State, u: nat)
    requires OnlyUnit(s, t, u) && forall v :: 0 <= v < |s.ctx| && v != u ==> (v in t.q <==> v in s.q) && (v in t.l <==> v in s.l)
    requires MainWeight(t.pc) + UnitWeight(t, u) < MainWeight(s.pc) + UnitWeight(s, u)
    ensures Weight(t) < Weight(s)
  {
    hide IoWeight, MainWeight;
    WeightChange(s, t, |s.ctx|, u);
  }

  lemma MainLighter(s: State, t: State)
    requires Inv(s) && Step(s, MainStep) == Some(t)
    ensures Weight(t) < Weight(s)
  {
    hide LogInv, ListsInv, Weight, UnitsWeight, UnitInv, IoWeight, MainWeight, OnlyUnit;
    var u := s.pc.u;
    assert UnitInv(s.ctx[u], s.pc, u, Queued(s, u));
    MainUnitLighter(s, t, u, Queued(s, u));
    OneUnitLighter(s, t, u);
  }

  lemma MainUnitLighter(s: State, t: State, u: nat, queued: bool)
    requires s.pc != Idle && u == s.pc.u < |s.ctx| && !s.aborted && MainStepOf(s) == Some(t)
    requires UnitInv(s.ctx[u], s.pc, u, queued)
    ensures OnlyUnit(s, t, u) && t.q == s.q && t.l == s.l
    ensures MainWeight(t.pc) + IoWeight(t.ctx[u]) < MainWeight(s.pc) + IoWeight(s.ctx[u])
  {
  }

  lemma IoLighter(s: State, t: State, u: nat, result: int)
    requires Inv(s) && Step(s, IoStep(u, result)) == Some(t)
    ensures Weight(t) < Weight(s)
  {
    hide LogInv, ListsInv, Weight, UnitsWeight, UnitInv, IoWeight, MainWeight, OnlyUnit;
    assert UnitInv(s.ctx[u], s.pc, u, Queued(s, u));
    IoUnitLighter(s, t, u, result, Queued(s, u));
    OneUnitLighter(s, t, u);
  }

  /** What a step of its I/O thread does to a unit's weight and to the queue. */
  lemma IoUnitLighter(s: State, t: State, u: nat, result: int, queued: bool)
    requires u < |s.ctx| && IoStepOf(s, u, result) == Some(t) && UnitInv(s.ctx[u], s.pc, u, queued)
    ensures OnlyUnit(s, t, u) && t.l == s.l
    ensures t.q == s.q || (t.q == [u] + s.q && s.ctx[u].io == Posting)
    ensures MainWeight(t.pc) + IoWeight(t.ctx[u]) + (if t.q == s.q then 0 else 20) < MainWeight(s.pc) + IoWeight(s.ctx[u])
  {
  }

  lemma StealLighter(s: State, t: State)
    requires Inv(s) && Step(s, Steal) == Some(t)
    ensures Weight(t) < Weight(s)
  {
    hide LogInv, UnitInv;
    WeightDrop(s, t, |s.ctx|, s.q[0]);
  }

  lemma MigrateLighter(s: State, t: State)
    requires Inv(s) && Step(s, Migrate) == Some(t)
    ensures Weight(t) < Weight(s)
  {
    hide LogInv, Weight, UnitsWeight;
    var u := s.local.u;
    assert s.l[0] == u;
    assert UnitInv(s.ctx[u], s.pc, u, Queued(s, u));
    RestWithout(s.q, s.l);
    OneUnitLighter(s, t, u);
  }

  lemma InternalLighter(s: State, a: Action, t: State)
    requires Inv(s) && Internal(a) && Step(s, a) == Some(t)
    ensures Weight(t) < Weight(s)
  {
    hide Inv, Step, Weight;
    match a
    case MainStep => MainLighter(s, t);
    case Steal => StealLighter(s, t);
    case Migrate => MigrateLighter(s, t);
    case IoStep(u, result) => IoLighter(s, t, u, result);
  }

  lemma {:induction false} InternalRunBounded(s: State, run: seq<Action>)
    requires Inv(s) && Run(s, run).Some? && forall i :: 0 <= i < |run| ==> Internal(run[i])
    ensures Inv(Run(s, run).value) && |run| + Weight(Run(s, run).value) <= Weight(s)
    decreases |run|
  {
    hide Inv, Weight;
    if run != [] {
      var before := run[..|run| - 1];
      InternalRunBounded(s, before);
      StepKeepsInv(Run(s, before).value, run[|run| - 1], Run(s, run).value);
      InternalLighter(Run(s, before).value, run[|run| - 1], Run(s, run).value);
    }
  }

  /** Whatever has happened, and however the threads are scheduled from now on without new
      client calls: they can take at most Weight more steps, and when they can take no more
      every accepted request's callback has run, exactly once. */
  lemma EveryRequestAnswered(s: State, run: seq<Action>, more: seq<Action>)
    requires Initial(s) && Run(s, run).Some?
    requires (forall i :: 0 <= i < |more| ==> Internal(more[i])) && Run(Run(s, run).value, more).Some?
    ensures |more| <= Weight(Run(s, run).value)
    ensures var t := Run(Run(s, run).value, more).value;
      (forall a | Internal(a) :: Step(t, a) == None) ==>
        && t.pc == Idle && Waiting(t.ctx) == 0 && |t.log| == t.nextId == Run(s, run).value.nextId
  {
    hide Weight, Step;
    RunKeepsInv(s, run);
    var mid := Run(s, run).value;
    InternalRunBounded(mid, more);
    var t := Run(mid, more).value;
    InternalKeepsId(mid, more);
    if forall a | Internal(a) :: Step(t, a) == None {
      if t.pc != Idle || exists u :: 0 <= u < |t.ctx| && t.ctx[u].waiting {
        var a := SomeoneMoves(t);
        assert false;
      }
      NoWaiting(t.ctx);
    }
  }

  lemma {:induction false} InternalKeepsId(s: State, run: seq<Action>)
    requires Run(s, run).Some? && forall i :: 0 <= i < |run| ==> Internal(run[i])
    ensures Run(s, run).value.nextId == s.nextId
    decreases |run|
  {
    if run != [] {
      InternalKeepsId(s, run[..|run| - 1]);
    }
  }
}
