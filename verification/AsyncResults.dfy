/** What the callbacks of asynchronous disk I/O report: over every run, each is told the result
    of the one action that performed its request, on the unit and with the operation that the
    client asked for. */
module AsyncResults {
  import opened AsyncDisk
  import opened Options

  /** An operation that has been performed: on which unit, for which request, with what result. */
  datatype Work = Work(u: nat, op: Op, id: nat, result: int)

  /** A request that has been accepted; its number is its place among all of them. */
  datatype Issue = Issue(u: nat, op: Op)

  /** An action performs an operation when it takes an I/O thread through it, or when it is a
      request to a synchronous unit. */
  function DoneBy(s: State, a: Action): seq<Work> {
    match a
    case IoStep(u, result) =>
      if u < |s.ctx| && s.ctx[u].io == Running && s.ctx[u].dop != Done
      then [Work(u, s.ctx[u].dop.op, s.ctx[u].args.id, result)] else []
    case Request(u, op, result) =>
      if Step(s, a).Some? && !s.ctx[u].asynch then [Work(u, op, s.nextId, result)] else []
    case _ => []
  }

  function IssuedBy(s: State, a: Action): seq<Issue> {
    if a.Request? && Step(s, a).Some? then [Issue(a.u, a.op)] else []
  }

  function Works(s: State, run: seq<Action>): seq<Work>
    requires Run(s, run).Some?
  {
    if run == [] then []
    else
      var before := run[..|run| - 1];
      Works(s, before) + DoneBy(Run(s, before).value, run[|run| - 1])
  }

  function Issues(s: State, run: seq<Action>): seq<Issue>
    requires Run(s, run).Some?
  {
    if run == [] then []
    else
      var before := run[..|run| - 1];
      Issues(s, before) + IssuedBy(Run(s, before).value, run[|run| - 1])
  }

  /** The callback was for this operation and was told its result. */
  predicate Tells(w: Work, c: Call) {
    c.req == Req(w.id, w.op) && c.status == Status(w.id, w.op, w.result)
  }

  predicate Told(w: seq<Work>, c: Call) {
    exists j :: 0 <= j < |w| && Tells(w[j], c)
  }

  predicate Untouched(w: seq<Work>, id: nat) {
    forall j :: 0 <= j < |w| ==> w[j].id != id
  }

  /** A request is known by its number: it was made of this unit, for this operation. */
  predicate Made(iss: seq<Issue>, r: Req, u: nat) {
    r.id < |iss| && iss[r.id] == Issue(u, r.op)
  }

  /** An outstanding request was made of its unit. Until it is performed nothing has been done
      for it, and afterwards the unit's status is what its callback will be told. */
  predicate UnitHistory(c: Ctx, pc: MainPc, u: nat, w: seq<Work>, iss: seq<Issue>) {
    && (Calling(pc, u) ==> Made(iss, pc.req, u) && Untouched(w, pc.req.id))
    && (c.callback.Some? ==>
          var r := c.callback.value;
          && Made(iss, r, u)
          && if c.dop == Done || c.io == Finished then Told(w, Call(r, c.status)) else Untouched(w, r.id))
  }

  predicate LogHistory(log: seq<Call>, w: seq<Work>) {
    forall k :: 0 <= k < |log| ==> Told(w, log[k])
  }

  /** Everything done was asked for, of that unit, and once. */
  predicate WorkHistory(w: seq<Work>, iss: seq<Issue>) {
    && (forall j :: 0 <= j < |w| ==> Made(iss, Req(w[j].id, w[j].op), w[j].u))
    && (forall i, j :: 0 <= i < j < |w| ==> w[i].id != w[j].id)
  }

  predicate History(s: State, w: seq<Work>, iss: seq<Issue>) {
    && |iss| == s.nextId
    && WorkHistory(w, iss)
    && LogHistory(s.log, w)
    && forall u :: 0 <= u < |s.ctx| ==> UnitHistory(s.ctx[u], s.pc, u, w, iss)
  }

  lemma ToldStill(w: seq<Work>, more: seq<Work>, c: Call)
    requires Told(w, c)
    ensures Told(w + more, c)
  {
    var j :| 0 <= j < |w| && Tells(w[j], c);
    assert (w + more)[j] == w[j];
  }

  lemma LogStill(log: seq<Call>, w: seq<Work>, more: seq<Work>)
    requires LogHistory(log, w)
    ensures LogHistory(log, w + more)
  {
    hide Told;
    forall k | 0 <= k < |log| ensures Told(w + more, log[k]) {
      ToldStill(w, more, log[k]);
    }
  }

  /** What is known of a unit stays so when work is done for another request. */
  lemma UnitStill(c: Ctx, pc: MainPc, u: nat, w: seq<Work>, iss: seq<Issue>, more: seq<Work>, asked: seq<Issue>)
    requires UnitHistory(c, pc, u, w, iss)
    requires forall j :: 0 <= j < |more| ==> Outstanding(c, pc, u) != Some(more[j].id)
    requires c.callback.Some? ==> !Calling(pc, u)
    ensures UnitHistory(c, pc, u, w + more, iss + asked)
  {
    hide Told;
    if c.callback.Some? && (c.dop == Done || c.io == Finished) {
      ToldStill(w, more, Call(c.callback.value, c.status));
    }
  }

  lemma OtherUnits(s: State, t: State, u: nat, w: seq<Work>, iss: seq<Issue>, more: seq<Work>, asked: seq<Issue>)
    requires Inv(s) && OnlyUnit(s, t, u) && History(s, w, iss)
    requires forall j :: 0 <= j < |more| ==>
      more[j].id >= s.nextId || Outstanding(s.ctx[u], s.pc, u) == Some(more[j].id)
    requires UnitHistory(t.ctx[u], t.pc, u, w + more, iss + asked)
    ensures forall v :: 0 <= v < |t.ctx| ==> UnitHistory(t.ctx[v], t.pc, v, w + more, iss + asked)
  {
    hide UnitHistory, ListsInv, ThreadInv, LogHistory, WorkHistory;
    forall v | 0 <= v < |t.ctx| && v != u ensures UnitHistory(t.ctx[v], t.pc, v, w + more, iss + asked) {
      assert UnitInv(s.ctx[v], s.pc, v, Queued(s, v));
      NotThis(s, u, v, more);
      UnitStill(s.ctx[v], s.pc, v, w, iss, more, asked);
      SameElsewhere(s, t, u, v, w + more, iss + asked);
    }
  }

  lemma NotThis(s: State, u: nat, v: nat, more: seq<Work>)
    requires LogInv(s) && u < |s.ctx| && v < |s.ctx| && u != v
    requires forall j :: 0 <= j < |more| ==>
      more[j].id >= s.nextId || Outstanding(s.ctx[u], s.pc, u) == Some(more[j].id)
    ensures forall j :: 0 <= j < |more| ==> Outstanding(s.ctx[v], s.pc, v) != Some(more[j].id)
  {
    hide Outstanding;
    var o, p := Outstanding(s.ctx[u], s.pc, u), Outstanding(s.ctx[v], s.pc, v);
    assert o.Some? ==> o != p;
  }

  lemma SameElsewhere(s: State, t: State, u: nat, v: nat, w: seq<Work>, iss: seq<Issue>)
    requires OnlyUnit(s, t, u) && v < |s.ctx| && v != u && UnitHistory(s.ctx[v], s.pc, v, w, iss)
    ensures UnitHistory(t.ctx[v], t.pc, v, w, iss)
  {
  }

  /** A step of the main thread inside the library does no work. */
  lemma MainHistory(s: State, t: State, u: nat, queued: bool, w: seq<Work>, iss: seq<Issue>)
    requires s.pc != Idle && u == s.pc.u < |s.ctx| && MainStepOf(s) == Some(t) && UnitInv(s.ctx[u], s.pc, u, queued)
    requires UnitHistory(s.ctx[u], s.pc, u, w, iss)
    ensures UnitHistory(t.ctx[u], t.pc, u, w, iss)
  {
    hide Told, Untouched, Made;
  }

  /** A callback that runs is told what was done for its request. */
  lemma MainLog(s: State, t: State, u: nat, queued: bool, w: seq<Work>, iss: seq<Issue>)
    requires s.pc != Idle && u == s.pc.u < |s.ctx| && MainStepOf(s) == Some(t) && UnitInv(s.ctx[u], s.pc, u, queued)
    requires UnitHistory(s.ctx[u], s.pc, u, w, iss) && LogHistory(s.log, w)
    ensures LogHistory(t.log, w)
  {
    hide Told, Untouched, Made;
  }

  /** A step of the I/O thread: in the state Running it performs the outstanding request, with
      the result it came to. */
  lemma IoHistory(s: State, t: State, u: nat, result: int, queued: bool, w: seq<Work>, iss: seq<Issue>)
    requires u < |s.ctx| && s.ctx[u].io != Posting && IoStepOf(s, u, result) == Some(t) && UnitInv(s.ctx[u], s.pc, u, queued)
    requires UnitHistory(s.ctx[u], s.pc, u, w, iss)
    ensures OnlyUnit(s, t, u) && t.log == s.log && t.nextId == s.nextId
    ensures UnitHistory(t.ctx[u], t.pc, u, w + DoneBy(s, IoStep(u, result)), iss)
    ensures var more := DoneBy(s, IoStep(u, result));
      more != [] ==> Outstanding(s.ctx[u], s.pc, u) == Some(more[0].id) && Made(iss, Req(more[0].id, more[0].op), u)
                     && Untouched(w, more[0].id) && more[0].u == u
  {
    var more := DoneBy(s, IoStep(u, result));
    if more != [] {
      assert Tells((w + more)[|w|], Call(s.ctx[u].callback.value, t.ctx[u].status));
    } else {
      assert w + more == w;
    }
  }

  lemma WorkMore(w: seq<Work>, iss: seq<Issue>, more: seq<Work>, asked: seq<Issue>)
    requires WorkHistory(w, iss) && |more| <= 1
    requires more != [] ==> Made(iss + asked, Req(more[0].id, more[0].op), more[0].u) && Untouched(w, more[0].id)
    ensures WorkHistory(w + more, iss + asked)
  {
  }

  lemma MainOnly(s: State, t: State, u: nat)
    requires s.pc != Idle && u == s.pc.u < |s.ctx| && MainStepOf(s) == Some(t)
    ensures OnlyUnit(s, t, u) && t.nextId == s.nextId
  {
  }

  lemma AfterMain(s: State, t: State, w: seq<Work>, iss: seq<Issue>)
    requires Inv(s) && Step(s, MainStep) == Some(t) && History(s, w, iss)
    ensures History(t, w, iss)
  {
    hide ListsInv, LogInv, UnitInv, UnitHistory, LogHistory, WorkHistory, OnlyUnit;
    var u := s.pc.u;
    assert UnitInv(s.ctx[u], s.pc, u, Queued(s, u)) && UnitHistory(s.ctx[u], s.pc, u, w, iss);
    MainOnly(s, t, u);
    MainHistory(s, t, u, Queued(s, u), w, iss);
    MainLog(s, t, u, Queued(s, u), w, iss);
    NothingMore(w, iss);
    OtherUnits(s, t, u, w, iss, [], []);
  }

  lemma NothingMore(w: seq<Work>, iss: seq<Issue>)
    ensures w + [] == w && iss + [] == iss
  {
  }

  lemma AfterQueue(s: State, a: Action, t: State, w: seq<Work>, iss: seq<Issue>)
    requires Inv(s) && (a.Steal? || a.Migrate?) && Step(s, a) == Some(t) && History(s, w, iss)
    ensures History(t, w, iss)
  {
    hide ListsInv, LogInv, UnitInv, LogHistory, WorkHistory, Told, Made, Untouched;
    forall v | 0 <= v < |t.ctx| ensures UnitHistory(t.ctx[v], t.pc, v, w, iss) {
      assert UnitHistory(s.ctx[v], s.pc, v, w, iss);
    }
  }

  lemma PostHistory(s: State, t: State, u: nat, queued: bool, w: seq<Work>, iss: seq<Issue>)
    requires u < |s.ctx| && s.ctx[u].io == Posting && t == Post(s, u) && UnitInv(s.ctx[u], s.pc, u, queued)
    requires UnitHistory(s.ctx[u], s.pc, u, w, iss)
    ensures OnlyUnit(s, t, u) && t.log == s.log && t.nextId == s.nextId && UnitHistory(t.ctx[u], t.pc, u, w, iss)
  {
    hide Told, Untouched, Made;
  }

  lemma AfterIo(s: State, t: State, u: nat, result: int, w: seq<Work>, iss: seq<Issue>)
    requires Inv(s) && Step(s, IoStep(u, result)) == Some(t) && History(s, w, iss)
    ensures History(t, w + DoneBy(s, IoStep(u, result)), iss)
  {
    hide ListsInv, LogInv, UnitInv, UnitHistory, LogHistory, WorkHistory, OnlyUnit, Post, Outstanding, Made, Untouched;
    assert UnitInv(s.ctx[u], s.pc, u, Queued(s, u)) && UnitHistory(s.ctx[u], s.pc, u, w, iss);
    var more := DoneBy(s, IoStep(u, result));
    NothingMore(w, iss);
    if s.ctx[u].io == Posting {
      PostHistory(s, t, u, Queued(s, u), w, iss);
    } else {
      IoHistory(s, t, u, result, Queued(s, u), w, iss);
    }
    LogStill(s.log, w, more);
    WorkMore(w, iss, more, []);
    OtherUnits(s, t, u, w, iss, more, []);
  }

  /** A request is given the next number; a synchronous one is performed at once. */
  lemma AskHistory(s: State, a: Action, t: State, queued: bool, w: seq<Work>, iss: seq<Issue>)
    requires a.Request? && Step(s, a) == Some(t) && a.u < |s.ctx| && UnitInv(s.ctx[a.u], s.pc, a.u, queued)
    requires UnitHistory(s.ctx[a.u], s.pc, a.u, w, iss) && |iss| == s.nextId && WorkHistory(w, iss) && LogHistory(s.log, w)
    ensures OnlyUnit(s, t, a.u) && t.nextId == s.nextId + 1
    ensures UnitHistory(t.ctx[a.u], t.pc, a.u, w + DoneBy(s, a), iss + IssuedBy(s, a))
    ensures LogHistory(t.log, w + DoneBy(s, a)) && WorkHistory(w + DoneBy(s, a), iss + IssuedBy(s, a))
  {
    var more, asked := DoneBy(s, a), IssuedBy(s, a);
    Numbers(w, iss);
    assert Made(iss + asked, Req(s.nextId, a.op), a.u);
    WorkMore(w, iss, more, asked);
    LogStill(s.log, w, more);
    if more != [] {
      assert Tells((w + more)[|w|], Call(Req(s.nextId, a.op), Status(s.nextId, a.op, a.result)));
    } else {
      assert w + more == w;
    }
  }

  lemma Numbers(w: seq<Work>, iss: seq<Issue>)
    requires WorkHistory(w, iss)
    ensures Untouched(w, |iss|)
  {
  }

  lemma AfterClient(s: State, a: Action, t: State, w: seq<Work>, iss: seq<Issue>)
    requires Inv(s) && !Internal(a) && Step(s, a) == Some(t) && History(s, w, iss)
    ensures History(t, w + DoneBy(s, a), iss + IssuedBy(s, a))
  {
    hide ListsInv, LogInv, UnitInv, UnitHistory, LogHistory, WorkHistory, OnlyUnit, Outstanding;
    assert UnitInv(s.ctx[a.u], s.pc, a.u, Queued(s, a.u)) && UnitHistory(s.ctx[a.u], s.pc, a.u, w, iss);
    NothingMore(w, iss);
    if a.Request? {
      AskHistory(s, a, t, Queued(s, a.u), w, iss);
    } else {
      ManageHistory(s, a, t, Queued(s, a.u), w, iss);
    }
    OtherUnits(s, t, a.u, w, iss, DoneBy(s, a), IssuedBy(s, a));
  }

  lemma ManageHistory(s: State, a: Action, t: State, queued: bool, w: seq<Work>, iss: seq<Issue>)
    requires (a.Cancel? || a.Clear? || a.Set?) && Step(s, a) == Some(t) && a.u < |s.ctx|
    requires UnitInv(s.ctx[a.u], s.pc, a.u, queued) && UnitHistory(s.ctx[a.u], s.pc, a.u, w, iss)
    ensures OnlyUnit(s, t, a.u) && t.log == s.log && t.nextId == s.nextId && UnitHistory(t.ctx[a.u], t.pc, a.u, w, iss)
  {
    hide Told, Untouched, Made;
  }

  lemma AfterStep(s: State, a: Action, t: State, w: seq<Work>, iss: seq<Issue>)
    requires Inv(s) && Step(s, a) == Some(t) && History(s, w, iss)
    ensures History(t, w + DoneBy(s, a), iss + IssuedBy(s, a))
  {
    hide Inv, Step, History;
    NothingMore(w, iss);
    match a
    case MainStep => AfterMain(s, t, w, iss);
    case Steal => AfterQueue(s, a, t, w, iss);
    case Migrate => AfterQueue(s, a, t, w, iss);
    case IoStep(u, result) => AfterIo(s, t, u, result, w, iss);
    case _ => AfterClient(s, a, t, w, iss);
  }

  lemma {:induction false} RunHistory(s: State, run: seq<Action>)
    requires Initial(s) && Run(s, run).Some?
    ensures History(Run(s, run).value, Works(s, run), Issues(s, run))
    decreases |run|
  {
    hide Inv, Step, History, DoneBy, IssuedBy;
    if run == [] {
      NoHistory(s);
    } else {
      var before, a := run[..|run| - 1], run[|run| - 1];
      RunKeepsInv(s, before);
      RunHistory(s, before);
      AfterStep(Run(s, before).value, a, Run(s, run).value, Works(s, before), Issues(s, before));
    }
  }

  lemma NoHistory(s: State)
    requires Initial(s)
    ensures History(s, [], [])
  {
  }

  // ----- back to the actions of a run

  /** Action i of the run performs w. */
  predicate Performs(s: State, run: seq<Action>, i: nat, w: Work) {
    i < |run| && Run(s, run[..i]).Some? && DoneBy(Run(s, run[..i]).value, run[i]) == [w]
  }

  /** Action i of the run is the request with this number. */
  predicate Asks(s: State, run: seq<Action>, i: nat, u: nat, r: Req) {
    && i < |run| && Run(s, run[..i]).Some? && IssuedBy(Run(s, run[..i]).value, run[i]) == [Issue(u, r.op)]
    && Run(s, run[..i]).value.nextId == r.id
  }

  lemma {:induction false} RunPrefix(s: State, run: seq<Action>, i: nat)
    requires Run(s, run).Some? && i <= |run|
    ensures Run(s, run[..i]).Some?
    ensures Works(s, run[..i]) <= Works(s, run) && Issues(s, run[..i]) <= Issues(s, run)
    decreases |run|
  {
    if i < |run| {
      var before := run[..|run| - 1];
      assert before[..i] == run[..i];
      RunPrefix(s, before, i);
    } else {
      assert run[..i] == run;
    }
  }

  /** Where in the history what action i does is noted. */
  lemma NotedAt(s: State, run: seq<Action>, i: nat)
    requires Run(s, run).Some? && i < |run|
    ensures Run(s, run[..i]).Some?
    ensures var at := Works(s, run[..i]); at + DoneBy(Run(s, run[..i]).value, run[i]) <= Works(s, run)
    ensures var at := Issues(s, run[..i]); at + IssuedBy(Run(s, run[..i]).value, run[i]) <= Issues(s, run)
  {
    hide DoneBy, IssuedBy, Step;
    RunPrefix(s, run, i);
    RunPrefix(s, run, i + 1);
    assert run[..i + 1][..i] == run[..i] && run[..i + 1][i] == run[i];
  }

  /** No two actions perform the same request. */
  lemma PerformedOnce(s: State, run: seq<Action>, i: nat, v: Work, j: nat, w: Work)
    requires Initial(s) && Run(s, run).Some? && Performs(s, run, i, v) && Performs(s, run, j, w) && v.id == w.id
    ensures i == j
  {
    hide DoneBy, Step, Initial;
    RunHistory(s, run);
    NotedAt(s, run, i);
    NotedAt(s, run, j);
    var all, p, q := Works(s, run), |Works(s, run[..i])|, |Works(s, run[..j])|;
    assert all[p] == v && all[q] == w;
    if i < j {
      Later(s, run, i, j);
    } else if j < i {
      Later(s, run, j, i);
    }
  }

  lemma Later(s: State, run: seq<Action>, i: nat, j: nat)
    requires Run(s, run).Some? && i < j < |run| && Run(s, run[..i]).Some? && DoneBy(Run(s, run[..i]).value, run[i]) != []
    ensures Run(s, run[..j]).Some? && |Works(s, run[..i])| < |Works(s, run[..j])|
  {
    hide DoneBy, Step;
    RunPrefix(s, run, j);
    assert run[..j][..i] == run[..i] && run[..j][i] == run[i];
    NotedAt(s, run[..j], i);
  }

  lemma {:induction false} FindWork(s: State, run: seq<Action>, k: nat) returns (i: nat)
    requires Run(s, run).Some? && k < |Works(s, run)|
    ensures Performs(s, run, i, Works(s, run)[k])
    decreases |run|
  {
    hide Step;
    var n := |run| - 1;
    var before := run[..n];
    if k < |Works(s, before)| {
      i := FindWork(s, before, k);
      assert before[..i] == run[..i] && before[i] == run[i];
    } else {
      i := n;
    }
  }

  lemma {:induction false} FindIssue(s: State, run: seq<Action>, k: nat) returns (i: nat)
    requires Initial(s) && Run(s, run).Some? && k < |Issues(s, run)|
    ensures Asks(s, run, i, Issues(s, run)[k].u, Req(k, Issues(s, run)[k].op))
    decreases |run|
  {
    hide Step, Initial;
    var n := |run| - 1;
    var before := run[..n];
    RunHistory(s, before);
    if k < |Issues(s, before)| {
      i := FindIssue(s, before, k);
      assert before[..i] == run[..i] && before[i] == run[i];
    } else {
      i := n;
    }
  }

  /** Every callback was told the result of the one action of the run that performed its
      request, which is the action's own result, with the operation and on the unit that the
      client's request named. */
  lemma CallbackTold(s: State, run: seq<Action>, k: nat) returns (asked: nat, done: nat, w: Work)
    requires Initial(s) && Run(s, run).Some? && k < |Run(s, run).value.log|
    ensures var c := Run(s, run).value.log[k];
      && Performs(s, run, done, w) && w.id == c.req.id
      && (forall i, v :: Performs(s, run, i, v) && v.id == c.req.id ==> i == done)
      && (run[done].IoStep? || run[done].Request?) && run[done].u == w.u
      && c.status == Status(c.req.id, c.req.op, run[done].result)
      && Asks(s, run, asked, w.u, c.req) && run[asked].Request? && run[asked].u == w.u && c.req.op == run[asked].op
  {
    hide Step, Initial;
    RunHistory(s, run);
    var c, works := Run(s, run).value.log[k], Works(s, run);
    assert Told(works, c);
    var j :| 0 <= j < |works| && Tells(works[j], c);
    w := works[j];
    done := FindWork(s, run, j);
    assert Made(Issues(s, run), Req(w.id, w.op), w.u);
    asked := FindIssue(s, run, w.id);
    forall i, v | Performs(s, run, i, v) && v.id == c.req.id ensures i == done {
      PerformedOnce(s, run, i, v, done, w);
    }
  }
}
