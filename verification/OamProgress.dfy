/** Runs that exist: the protocol's promises are not empty, and its failures can be reached. */
module OamProgress {
  import opened Bits
  import opened OamTable
  import opened OamMessage
  import opened OamProtocol
  import opened OamRpc

  ghost predicate Good(cfg: Config, w: World)
  {
    TablesAgree(cfg) && Inv(cfg, w) && Genuine(cfg, w) && Recent(w)
  }

  // ---- single steps, seen from one thread

  function Moved(th: Thread, s: Step): Thread
  {
    match s
    case Wake(_) => th.(pc := Finishing, waitOk := true)
    case Expire(_) => th.(pc := Expired)
    case MarkTimeout(_) => th.(pc := Finishing, msg := th.msg.(ret := OAM_E_TIMEOUT), marked := |th.copies|)
    case _ => th.(pc := Returning)
  }

  lemma ThreadStep(cfg: Config, w: World, s: Step, t: nat)
    requires Good(cfg, w) && w.ctrl.Wf() && Enabled(cfg, w, s)
    requires s in {Wake(t), Expire(t), MarkTimeout(t), Free(t)}
    ensures var w' := Do(cfg, w, s);
            && Good(cfg, w') && |w'.threads| == |w.threads| && w'.threads[t] == Moved(w.threads[t], s)
            && w'.requests == w.requests && w'.responses == w.responses && w'.served == w.served
  {
    ClosedStepKeeps(cfg, w, s);
    hide Inv, Genuine, TablesAgree;
  }

  /** The semaphore counts the copies. */
  lemma WaitingCount(cfg: Config, w: World, t: nat)
    requires Inv(cfg, w) && At(w, t, Waiting)
    ensures w.ctrl.Wf() && !w.outside && Count(w, t) == |w.threads[t].copies|
  {
    assert Owns(w, t);
  }

  lemma ServeStep(cfg: Config, w: World, q: Tagged, t: nat)
    requires Good(cfg, w) && q in w.requests && t < |w.threads| && w.threads[t].InFlight()
    requires q.serial == w.threads[t].serial && cfg.Answered(w.threads[t].call.sdkId)
    ensures w.ctrl.Wf() && Enabled(cfg, w, Serve(q)) && w.threads[t].call.Wf(cfg) && Reply(cfg, w.served, q.msg).Some?
    ensures var w', m := Do(cfg, w, Serve(q)), Reply(cfg, w.served, q.msg).value;
            && Good(cfg, w') && w'.threads == w.threads && w'.requests == w.requests
            && Tagged(q.serial, m) in w'.responses
            && HostOrder(cfg, m) == Promised(cfg, w.served, w.threads[t].call, q.serial % WORD)
  {
    assert HistoryOk(cfg, w, w.threads[t]) && RequestOk(cfg, w, q) && w.ctrl.Wf() && !w.outside;
    ReplyIsPromised(cfg, w.served, w.threads[t].call, q.serial % WORD);
    hide Reply, Outgoing, HostOrder, Promised;
    ClosedStepKeeps(cfg, w, Serve(q));
    hide Inv, Genuine, TablesAgree;
  }

  /** The first response to a request in flight is copied. */
  lemma DeliverStep(cfg: Config, w: World, r: Tagged, t: nat)
    requires Good(cfg, w) && r in w.responses && t < |w.threads| && w.threads[t].InFlight()
    requires r.serial == w.threads[t].serial && w.threads[t].copies == []
    ensures w.ctrl.Wf() && Enabled(cfg, w, Deliver(r))
    ensures var w', host := Do(cfg, w, Deliver(r)), HostOrder(cfg, r.msg);
            && Good(cfg, w') && w'.responses == w.responses && |w'.threads| == |w.threads|
            && Fits(w.threads[t].msg, host) && w'.threads[t] == WithCopy(w.threads[t], host)
  {
    assert ResponseOk(cfg, w, r) && w.ctrl.Wf() && !w.outside;
    ResponseIsHandlers(cfg, w, r);
    FirstResponseAccepted(cfg, w, r, t);
    NeverOutside(cfg, w, r);
    ReceiverOwner(cfg, w, r.msg);
    ClosedStepKeeps(cfg, w, Deliver(r));
    var w' := Do(cfg, w, Deliver(r));
    hide Inv, Genuine, TablesAgree, HostOrder, Receiver, Reply, ResponseOk, FromHandler, Copied;
    assert w' == Delivered(cfg, w, r.msg);
    assert forall u | 0 <= u < |w.threads| && u != t :: w'.threads[u] == w.threads[u];
  }

  function Asked(cfg: Config, call: Call): Thread
    requires call.Wf(cfg)
  {
    Thread(Waiting, Outgoing(cfg, call, 0), 0, 0, call, [], 0, false)
  }

  /** A request that gets a record and can be sent. */
  lemma BegunThread(cfg: Config, w: World, t: nat, call: Call)
    requires w.ctrl.Wf() && t < |w.threads| && call.Wf(cfg) && |call.data| <= RECEIVE_ROOM
    requires AllocatedSlot(w.ctrl, true).Some?
    ensures var w' := Begun(cfg, w, t, call, true, true);
            && w'.threads == w.threads[t := Thread(Waiting, Outgoing(cfg, call, w.ctrl.reqNext),
                                                   AllocatedSlot(w.ctrl, true).value, w.Issued(), call, [], 0, false)]
            && w'.requests == w.requests + {Tagged(w.Issued(), Outgoing(cfg, call, w.ctrl.reqNext))}
            && w'.responses == w.responses && w'.served == w.served && w'.Issued() == w.Issued() + 1
  {
    assert SendCode(|call.data|, true) == OAM_E_OK;
    hide Outgoing, Prepared, SendCode, Allocated;
  }

  lemma StartIsGood(cfg: Config, n: nat)
    requires cfg.Wf()
    ensures var w := Start(n);
            && w.ctrl.Wf() && Inv(cfg, w) && Genuine(cfg, w) && Recent(w)
            && AllocatedSlot(w.ctrl, true) == Some(0)
  {
    StartInv(cfg, n);
    hide Inv;
  }

  /** The first request of all. */
  lemma BeginStep(cfg: Config, n: nat, call: Call)
    requires cfg.Wf() && call.Wf(cfg) && |call.data| <= RECEIVE_ROOM && n > 0
    ensures var s := Begin(0, call, true, true);
            && Start(n).ctrl.Wf() && Enabled(cfg, Start(n), s) && Recent(Start(n))
            && var w := Do(cfg, Start(n), s);
               && Inv(cfg, w) && Recent(w) && |w.threads| == n && w.threads[0] == Asked(cfg, call)
               && w.requests == {Tagged(0, Outgoing(cfg, call, 0))} && w.served == 0
               && (TablesAgree(cfg) ==> Good(cfg, w))
  {
    var w, s := Start(n), Begin(0, call, true, true);
    StartIsGood(cfg, n);
    StepKeeps(cfg, w, s);
    BegunThread(cfg, w, 0, call);
    var w' := Do(cfg, w, s);
    assert w' == Begun(cfg, w, 0, call, true, true);
    assert |w.threads| == n && forall t | 0 <= t < n :: w.threads[t].pc == Idle;
    assert w.requests == {} == w.responses && w.calls == [] && w.served == 0 && w.ctrl.reqNext == 0;
    hide Inv, Genuine, Outgoing, Begun, Do, Start;
    BeginStaysInside(cfg, w, 0, call, true, true);
    if TablesAgree(cfg) {
      ClosedStepKeeps(cfg, w, s);
    }
    hide TablesAgree;
  }

  lemma BeginStaysInside(cfg: Config, w: World, t: nat, call: Call, semOk: bool, netOk: bool)
    requires w.ctrl.Wf() && Enabled(cfg, w, Begin(t, call, semOk, netOk))
    ensures !Begun(cfg, w, t, call, semOk, netOk).outside
  {
    BeginFrame(cfg, w, t, call, semOk, netOk);
    hide Begun;
  }

  // ---- stretches of a run

  lemma OneStep(cfg: Config, w: World, s: Step)
    requires w.ctrl.Wf() && Recent(w) && Enabled(cfg, w, s) && FromServer(w, s)
    requires Do(cfg, w, s).ctrl.Wf() && Recent(Do(cfg, w, s))
    ensures ClosedRuns(cfg, w, [s], Do(cfg, w, s))
  {
    hide Do, Recent, Enabled;
    assert [s][1..] == [];
    assert ClosedRuns(cfg, Do(cfg, w, s), [], Do(cfg, w, s));
  }

  lemma {:induction false} Append(cfg: Config, w: World, steps: seq<Step>, w1: World, steps': seq<Step>, w2: World)
    requires ClosedRuns(cfg, w, steps, w1) && ClosedRuns(cfg, w1, steps', w2)
    ensures ClosedRuns(cfg, w, steps + steps', w2)
    decreases |steps|
  {
    hide Do, Recent, Enabled;
    if steps == [] {
      assert steps + steps' == steps';
    } else {
      Append(cfg, Do(cfg, w, steps[0]), steps[1..], w1, steps', w2);
      assert (steps + steps')[1..] == steps[1..] + steps';
    }
  }

  lemma TwoSteps(cfg: Config, w: World, s: Step, s': Step)
    requires w.ctrl.Wf() && Recent(w) && Enabled(cfg, w, s) && FromServer(w, s)
    requires var w1 := Do(cfg, w, s);
             w1.ctrl.Wf() && Recent(w1) && Enabled(cfg, w1, s') && FromServer(w1, s') &&
             var w2 := Do(cfg, w1, s'); w2.ctrl.Wf() && Recent(w2)
    ensures ClosedRuns(cfg, w, [s, s'], Do(cfg, Do(cfg, w, s), s'))
  {
    var w1 := Do(cfg, w, s);
    hide Do, Recent, Enabled, FromServer;
    OneStep(cfg, w, s);
    OneStep(cfg, w1, s');
    Append(cfg, w, [s], w1, [s'], Do(cfg, w1, s'));
    assert [s] + [s'] == [s, s'];
  }

  /** The server answers, and the answer is copied. */
  lemma ServeAndDeliver(cfg: Config, w: World, q: Tagged, t: nat) returns (r: Tagged, w': World)
    requires Good(cfg, w) && q in w.requests && t < |w.threads| && w.threads[t].InFlight()
    requires q.serial == w.threads[t].serial && cfg.Answered(w.threads[t].call.sdkId) && w.threads[t].copies == []
    ensures ClosedRuns(cfg, w, [Serve(q), Deliver(r)], w')
    ensures Good(cfg, w') && |w'.threads| == |w.threads| && r in w'.responses && r.serial == q.serial
    ensures var th := w.threads[t];
            && th.call.Wf(cfg) && Fits(th.msg, Promised(cfg, w.served, th.call, q.serial % WORD))
            && w'.threads[t] == WithCopy(th, Promised(cfg, w.served, th.call, q.serial % WORD))
  {
    ServeStep(cfg, w, q, t);
    r := Tagged(q.serial, Reply(cfg, w.served, q.msg).value);
    var w1 := Do(cfg, w, Serve(q));
    DeliverStep(cfg, w1, r, t);
    w' := Do(cfg, w1, Deliver(r));
    GoodCtrl(cfg, w');
    hide Reply, HostOrder, Promised, Fits, Copied, Recent, Do, Inv, Genuine, TablesAgree;
    TwoSteps(cfg, w, Serve(q), Deliver(r));
  }

  lemma GoodCtrl(cfg: Config, w: World)
    requires Inv(cfg, w)
    ensures w.ctrl.Wf() && !w.outside
  {
  }

  /** The wait times out and its code is written. */
  lemma TimeOut(cfg: Config, w: World, t: nat) returns (w': World)
    requires Good(cfg, w) && At(w, t, Waiting) && w.threads[t].copies == []
    ensures ClosedRuns(cfg, w, [Expire(t), MarkTimeout(t)], w')
    ensures Good(cfg, w') && |w'.threads| == |w.threads| && w'.requests == w.requests && w'.served == w.served
    ensures w'.threads[t] == Moved(Moved(w.threads[t], Expire(t)), MarkTimeout(t))
  {
    WaitingCount(cfg, w, t);
    ThreadStep(cfg, w, Expire(t), t);
    var w1 := Do(cfg, w, Expire(t));
    GoodCtrl(cfg, w1);
    ThreadStep(cfg, w1, MarkTimeout(t), t);
    w' := Do(cfg, w1, MarkTimeout(t));
    GoodCtrl(cfg, w');
    hide Recent, Do, Inv, Genuine, TablesAgree;
    TwoSteps(cfg, w, Expire(t), MarkTimeout(t));
  }

  /** The record is freed. */
  lemma Finish(cfg: Config, w: World, t: nat) returns (w': World)
    requires Good(cfg, w) && At(w, t, Finishing)
    ensures ClosedRuns(cfg, w, [Free(t)], w')
    ensures Good(cfg, w') && |w'.threads| == |w.threads| && w'.threads[t] == Moved(w.threads[t], Free(t))
  {
    GoodCtrl(cfg, w);
    ThreadStep(cfg, w, Free(t), t);
    w' := Do(cfg, w, Free(t));
    GoodCtrl(cfg, w');
    hide Recent, Do, Inv, Genuine, TablesAgree;
    OneStep(cfg, w, Free(t));
  }

  /** The wait succeeds and the record is freed. */
  lemma WakeAndFinish(cfg: Config, w: World, t: nat) returns (w': World)
    requires Good(cfg, w) && At(w, t, Waiting) && w.threads[t].copies != []
    ensures ClosedRuns(cfg, w, [Wake(t), Free(t)], w') && At(w', t, Returning) && w'.threads[t].waitOk
  {
    WaitingCount(cfg, w, t);
    ThreadStep(cfg, w, Wake(t), t);
    var w1 := Do(cfg, w, Wake(t));
    GoodCtrl(cfg, w1);
    ThreadStep(cfg, w1, Free(t), t);
    w' := Do(cfg, w1, Free(t));
    GoodCtrl(cfg, w');
    hide Recent, Do, Inv, Genuine, TablesAgree;
    TwoSteps(cfg, w, Wake(t), Free(t));
  }

  // ---- requests can succeed

  /** The request of thread `t` is on its way to a server that answers it. */
  predicate OnItsWay(cfg: Config, w: World, t: nat, q: Tagged)
  {
    && At(w, t, Waiting) && q in w.requests && q.serial == w.threads[t].serial
    && cfg.Answered(w.threads[t].call.sdkId)
  }

  /**
   * From every reachable state, a waiting request that is on its way has a run in which it is
   * served, its response is accepted, and its wait succeeds.
   */
  lemma CanComplete(cfg: Config, w: World, t: nat, q: Tagged)
    requires TablesAgree(cfg) && Inv(cfg, w) && Genuine(cfg, w) && Recent(w)
    requires OnItsWay(cfg, w, t, q) && w.threads[t].copies == []
    ensures exists steps, w' :: ClosedRuns(cfg, w, steps, w') && At(w', t, Returning) && w'.threads[t].waitOk
  {
    assert Good(cfg, w);
    hide Good, Recent, Inv, Genuine, TablesAgree, ClosedRuns, Promised, Fits, OnItsWay;
    var r, w1 := ServeAndDeliver(cfg, w, q, t);
    var w2 := WakeAndFinish(cfg, w1, t);
    Append(cfg, w, [Serve(q), Deliver(r)], w1, [Wake(t), Free(t)], w2);
  }

  /** Beginning a request puts it on its way exactly when there is a record and the frame can be sent. */
  lemma BeginIsOnItsWayIff(cfg: Config, w: World, t: nat, call: Call, semOk: bool, netOk: bool)
    requires Inv(cfg, w) && Enabled(cfg, w, Begin(t, call, semOk, netOk)) && cfg.Answered(call.sdkId)
    requires Genuine(cfg, w)
    ensures var w' := Do(cfg, w, Begin(t, call, semOk, netOk));
            (exists q :: OnItsWay(cfg, w', t, q)) <==>
            AllocatedSlot(w.ctrl, semOk).Some? && SendCode(|call.data|, netOk) == OAM_E_OK
            && SDK_MSG_HEADER_LEN + |call.data| < 0x1_0000
  {
    assert w.ctrl.Wf() && forall q | q in w.requests :: q.serial < w.Issued();
    hide Outgoing, Prepared, SendCode, Inv, Genuine;
    var w' := Do(cfg, w, Begin(t, call, semOk, netOk));
    if AllocatedSlot(w.ctrl, semOk).Some? && SendCode(|call.data|, netOk) == OAM_E_OK
       && SDK_MSG_HEADER_LEN + |call.data| < 0x1_0000 {
      assert OnItsWay(cfg, w', t, Tagged(w.Issued(), Outgoing(cfg, call, w.ctrl.reqNext)));
    }
  }

  /** So every answered call that fits a frame has, from the start, a run in which it succeeds. */
  lemma EveryCallCanSucceed(cfg: Config, n: nat, call: Call)
    requires TablesAgree(cfg) && cfg.Wf() && call.Wf(cfg) && cfg.Answered(call.sdkId) && n > 0
    requires |call.data| <= RECEIVE_ROOM
    ensures exists steps, w :: ClosedRuns(cfg, Start(n), steps, w) && At(w, 0, Returning) && w.threads[0].waitOk
  {
    var w := FirstRequest(cfg, n, call);
    var q := Tagged(0, Outgoing(cfg, call, 0));
    hide Outgoing, ClosedRuns, Recent, Start, Inv, Genuine, TablesAgree;
    assert OnItsWay(cfg, w, 0, q);
    CanComplete(cfg, w, 0, q);
    var steps, w' :| ClosedRuns(cfg, w, steps, w') && At(w', 0, Returning) && w'.threads[0].waitOk;
    Append(cfg, Start(n), [Begin(0, call, true, true)], w, steps, w');
  }

  lemma FirstRequest(cfg: Config, n: nat, call: Call) returns (w: World)
    requires TablesAgree(cfg) && cfg.Wf() && call.Wf(cfg) && |call.data| <= RECEIVE_ROOM && n > 0
    ensures ClosedRuns(cfg, Start(n), [Begin(0, call, true, true)], w)
    ensures Good(cfg, w) && |w.threads| == n && w.threads[0] == Asked(cfg, call)
    ensures w.requests == {Tagged(0, Outgoing(cfg, call, 0))} && w.served == 0
  {
    BeginStep(cfg, n, call);
    var s := Begin(0, call, true, true);
    w := Do(cfg, Start(n), s);
    GoodCtrl(cfg, w);
    hide Outgoing, Recent, Do, Start, Inv, Genuine, TablesAgree;
    OneStep(cfg, Start(n), s);
  }

  // ---- and the reported failures can be reached

  /** A second response whose length differs in the two byte orders is refused although its id is found. */
  lemma SecondResponseRefused(cfg: Config, n: nat, call: Call)
    requires TablesAgree(cfg) && cfg.Wf() && call.Wf(cfg) && cfg.Answered(call.sdkId) && n > 0
    requires |call.data| <= RECEIVE_ROOM && Swap16(|call.data|) != |call.data|
    ensures exists steps, w, r ::
              && ClosedRuns(cfg, Start(n), steps, w) && w.ctrl.Wf() && r in w.responses && r.msg.Wf()
              && At(w, 0, Waiting) && w.threads[0].serial == r.serial
              && Found(w.ctrl, r.serial % WORD) == Some(w.threads[0].slot) && Receiver(cfg, w, r.msg) == None
  {
    var w := FirstRequest(cfg, n, call);
    var q := Tagged(0, Outgoing(cfg, call, 0));
    hide Outgoing, ClosedRuns, Start, Promised, Fits;
    var r, w1 := ServeAndDeliver(cfg, w, q, 0);
    GoodCtrl(cfg, w1);
    assert ResponseOk(cfg, w1, r);
    ResponseIsHandlers(cfg, w1, r);
    FirstResponseAccepted(cfg, w1, r, 0);
    FindsOwnRecord(cfg, w1, 0);
    hide Recent, Inv, Genuine, TablesAgree, Receiver, Found, HostOrder, ResponseOk;
    Append(cfg, Start(n), [Begin(0, call, true, true)], w, [Serve(q), Deliver(r)], w1);
  }

  /**
   * A response that comes after the time-out code was written replaces it: a wait that timed out
   * returns the handler's code.
   */
  lemma LateResponseReplacesTimeout(cfg: Config, n: nat, call: Call)
    requires TablesAgree(cfg) && cfg.Wf() && call.Wf(cfg) && cfg.Answered(call.sdkId) && n > 0
    requires |call.data| <= RECEIVE_ROOM
    ensures exists steps, w ::
              && ClosedRuns(cfg, Start(n), steps, w) && At(w, 0, Returning) && !w.threads[0].waitOk
              && w.threads[0].msg.ret == Handle(cfg, call.sdkId, 0, call.data).ret
  {
    var steps, w := FirstTimeout(cfg, n, call);
    var q := Tagged(0, Outgoing(cfg, call, 0));
    var r, w' := AnswerLate(cfg, w, q, 0);
    hide ClosedRuns, Start, Handle, Good;
    Append(cfg, Start(n), steps, w, [Serve(q), Deliver(r)] + [Free(0)], w');
  }

  lemma FirstTimeout(cfg: Config, n: nat, call: Call) returns (steps: seq<Step>, w: World)
    requires TablesAgree(cfg) && cfg.Wf() && call.Wf(cfg) && |call.data| <= RECEIVE_ROOM && n > 0
    ensures ClosedRuns(cfg, Start(n), steps, w)
    ensures Good(cfg, w) && |w.threads| == n && w.served == 0 && w.requests == {Tagged(0, Outgoing(cfg, call, 0))}
    ensures w.threads[0] == Moved(Moved(Asked(cfg, call), Expire(0)), MarkTimeout(0))
  {
    var w0 := FirstRequest(cfg, n, call);
    hide Outgoing, ClosedRuns, Start;
    w := TimeOut(cfg, w0, 0);
    hide Good;
    steps := [Begin(0, call, true, true)] + [Expire(0), MarkTimeout(0)];
    Append(cfg, Start(n), [Begin(0, call, true, true)], w0, [Expire(0), MarkTimeout(0)], w);
  }

  /** An answer between the write of the time-out code and the second lock. */
  lemma AnswerLate(cfg: Config, w: World, q: Tagged, t: nat) returns (r: Tagged, w': World)
    requires Good(cfg, w) && q in w.requests && At(w, t, Finishing) && !w.threads[t].waitOk
    requires q.serial == w.threads[t].serial && cfg.Answered(w.threads[t].call.sdkId) && w.threads[t].copies == []
    ensures ClosedRuns(cfg, w, [Serve(q), Deliver(r)] + [Free(t)], w')
    ensures At(w', t, Returning) && !w'.threads[t].waitOk
    ensures w'.threads[t].msg.ret == Handle(cfg, w.threads[t].call.sdkId, w.served, w.threads[t].call.data).ret
  {
    hide ClosedRuns, Handle;
    var w1;
    r, w1 := ServeAndDeliver(cfg, w, q, t);
    w' := Finish(cfg, w1, t);
    Append(cfg, w, [Serve(q), Deliver(r)], w1, [Free(t)], w');
  }

  /** The client lets the id past the server's last one through; such a call is sent, waits and times out. */
  lemma LastIdIsSentAndTimesOut(cfg: Config, n: nat, call: Call)
    requires TablesAgree(cfg) && cfg.Wf() && call.Wf(cfg) && call.sdkId == cfg.maxId && n > 0
    requires |call.data| <= RECEIVE_ROOM
    ensures !cfg.Answered(call.sdkId)
    ensures exists steps, w ::
              && ClosedRuns(cfg, Start(n), steps, w) && At(w, 0, Returning) && w.threads[0].call == call
              && w.threads[0].msg.ret == OAM_E_TIMEOUT
  {
    var steps, w := FirstTimeout(cfg, n, call);
    var w' := Finish(cfg, w, 0);
    hide ClosedRuns, Start, Good;
    Append(cfg, Start(n), steps, w, [Free(0)], w');
  }

  // ---- with forged responses the buffers can be left

  /** A response with the id and the length the receiver looks for, whoever sent it. */
  function Forged(th: Thread): Tagged
    requires |th.call.data| < 0x1_0000
  {
    Tagged(th.serial, Msg(0, Swap32(th.serial % WORD), 0, Swap16(ExpectedLen(th.call, |th.copies|)), []))
  }

  lemma ForgedIsCopied(cfg: Config, w: World, t: nat)
    requires Inv(cfg, w) && Recent(w) && t < |w.threads| && w.threads[t].InFlight()
    ensures w.ctrl.Wf() && !w.outside && BufferOk(cfg, w.threads[t])
    ensures Receiver(cfg, w, Forged(w.threads[t]).msg) == Some(w.threads[t].slot)
  {
    GoodCtrl(cfg, w);
    var th := w.threads[t];
    assert BufferOk(cfg, th);
    var m := Forged(th).msg;
    FindsOwnRecord(cfg, w, t);
    Swap32Twice(th.serial % WORD);
    Swap16Twice(ExpectedLen(th.call, |th.copies|));
    hide Swap16, Swap32, Inv, Recent;
    assert HostOrder(cfg, m).len == ExpectedLen(th.call, |th.copies|);
    hide HostOrder, Receiver;
    ReceiverIs(cfg, w, m, t);
  }

  lemma ForgedStep(cfg: Config, w: World, t: nat)
    requires Inv(cfg, w) && Recent(w) && t < |w.threads| && w.threads[t].InFlight()
    ensures |w.threads[t].call.data| < 0x1_0000 && w.ctrl.Wf() && Enabled(cfg, w, Deliver(Forged(w.threads[t])))
    ensures var w' := Do(cfg, w, Deliver(Forged(w.threads[t])));
            w'.ctrl.Wf() && Recent(w') && |w'.threads| == |w.threads| &&
            (!w'.outside <==> var th := w.threads[t];
                              ExpectedLen(th.call, |th.copies|) <= RECEIVE_ROOM &&
                              (|th.copies| % 2 == 0 || Swap16(|th.call.data|) <= |th.call.data|)) &&
            (!w'.outside ==>
              && Inv(cfg, w') && w'.threads[t].pc == w.threads[t].pc && w'.threads[t].call == w.threads[t].call
              && |w'.threads[t].copies| == |w.threads[t].copies| + 1)
  {
    ForgedIsCopied(cfg, w, t);
    assert BufferOk(cfg, w.threads[t]);
    var m := Forged(w.threads[t]).msg;
    ReceiverOwner(cfg, w, m);
    CopyStaysInsideIff(cfg, w, m, t);
    StepKeeps(cfg, w, Deliver(Forged(w.threads[t])));
    hide Inv, ExpectedLen, Swap16, BufferOk, Receiver, HostOrder, Copied, Forged;
  }

  /**
   * For every request whose length grows when its bytes are swapped there is a run of the open
   * system, with two forged responses, whose second copy leaves the caller's message.
   */
  lemma ForgedResponsesOverrun(cfg: Config, n: nat, call: Call)
    requires cfg.Wf() && call.Wf(cfg) && |call.data| <= RECEIVE_ROOM && Swap16(|call.data|) > |call.data| && n > 0
    ensures exists steps, w :: Runs(cfg, Start(n), steps, w) && w.outside
  {
    BeginStep(cfg, n, call);
    var s := Begin(0, call, true, true);
    var w := Do(cfg, Start(n), s);
    hide Recent, Do, Start, Inv, Outgoing, Enabled, Forged, Swap16;
    ForgedStep(cfg, w, 0);
    var r := Forged(w.threads[0]);
    var w1 := Do(cfg, w, Deliver(r));
    ForgedStep(cfg, w1, 0);
    var r1 := Forged(w1.threads[0]);
    var w2 := Do(cfg, w1, Deliver(r1));
    assert w2.outside;
    assert Runs(cfg, w2, [], w2);
    RunsCons(cfg, w1, Deliver(r1), [], w2);
    RunsCons(cfg, w, Deliver(r), [Deliver(r1)] + [], w2);
    RunsCons(cfg, Start(n), s, [Deliver(r)] + ([Deliver(r1)] + []), w2);
  }

  lemma RunsCons(cfg: Config, w: World, s: Step, steps: seq<Step>, w': World)
    requires w.ctrl.Wf() && Enabled(cfg, w, s) && Runs(cfg, Do(cfg, w, s), steps, w')
    ensures Runs(cfg, w, [s] + steps, w')
  {
    hide Do, Enabled;
    assert ([s] + steps)[1..] == steps;
  }
}
