/**
 * Client and server together: responses come from the server, and ids are not reused while a
 * request or a message with the same number modulo 2^32 is still about.
 */
module OamRpc {
  import opened Bits
  import opened OamTable
  import opened OamMessage
  import opened OamProtocol

  /** Fewer than 2^32 ids are issued while a request is in flight or a message is on the way. */
  ghost predicate Recent(w: World)
  {
    && (forall t | 0 <= t < |w.threads| && w.threads[t].InFlight() :: w.Issued() <= w.threads[t].serial + WORD)
    && (forall q | q in w.requests :: w.Issued() <= q.serial + WORD)
    && (forall r | r in w.responses :: w.Issued() <= r.serial + WORD)
  }

  /** A response copied for call `c`: the handler's code and output of one of its runs. */
  ghost predicate FromHandler(cfg: Config, served: nat, c: Call, id: nat, host: Msg)
    requires c.Wf(cfg) && id < WORD
  {
    cfg.Answered(c.sdkId) && exists n: nat :: n < served && host == Promised(cfg, n, c, id)
  }

  predicate RequestOk(cfg: Config, w: World, q: Tagged)
  {
    && q.serial < w.Issued() && w.calls[q.serial].Wf(cfg) && |w.calls[q.serial].data| <= RECEIVE_ROOM
    && q.msg == Outgoing(cfg, w.calls[q.serial], q.serial % WORD)
  }

  ghost predicate ResponseOk(cfg: Config, w: World, r: Tagged)
  {
    && r.serial < w.Issued() && w.calls[r.serial].Wf(cfg) && |w.calls[r.serial].data| <= RECEIVE_ROOM
    && exists n: nat :: n < w.served && Reply(cfg, n, Outgoing(cfg, w.calls[r.serial], r.serial % WORD)) == Some(r.msg)
  }

  /** A requester's history: handler results only, in a buffer of the size it had. */
  ghost predicate HistoryOk(cfg: Config, w: World, th: Thread)
  {
    && th.call.Wf(cfg) && th.serial < w.Issued() && w.calls[th.serial] == th.call
    && (forall c | c in th.copies :: FromHandler(cfg, w.served, th.call, th.serial % WORD, c))
    && (|th.copies| > 1 ==> Swap16(|th.call.data|) == |th.call.data|)
  }

  ghost predicate Genuine(cfg: Config, w: World)
  {
    && (forall q | q in w.requests :: RequestOk(cfg, w, q))
    && (forall r | r in w.responses :: ResponseOk(cfg, w, r))
    && (forall t | 0 <= t < |w.threads| && (w.threads[t].InFlight() || w.threads[t].pc == Returning) ::
          HistoryOk(cfg, w, w.threads[t]))
  }

  /** Only responses the server has sent are delivered. */
  predicate FromServer(w: World, s: Step)
  {
    s.Deliver? ==> s.r in w.responses
  }

  ghost predicate ClosedRuns(cfg: Config, w: World, steps: seq<Step>, w': World)
    decreases |steps|
  {
    w.ctrl.Wf() && Recent(w) &&
    if steps == [] then w' == w
    else Enabled(cfg, w, steps[0]) && FromServer(w, steps[0]) && ClosedRuns(cfg, Do(cfg, w, steps[0]), steps[1..], w')
  }

  lemma SameResidue(a: nat, b: nat, n: nat)
    requires a < n && b < n && n <= a + WORD && n <= b + WORD && a % WORD == b % WORD
    ensures a == b
  {
  }

  /** Live request ids are pairwise distinct. */
  lemma LiveIdsDistinct(cfg: Config, w: World, t: nat, u: nat)
    requires Inv(cfg, w) && Recent(w) && t < |w.threads| && u < |w.threads| && t != u
    requires w.threads[t].InFlight() && w.threads[u].InFlight()
    ensures w.threads[t].serial != w.threads[u].serial
    ensures w.ctrl.reqs[w.threads[t].slot].reqId != w.ctrl.reqs[w.threads[u].slot].reqId
  {
    assert Owns(w, t) && Owns(w, u);
    assert w.threads[t].serial != w.threads[u].serial;
    if w.threads[t].serial % WORD == w.threads[u].serial % WORD {
      SameResidue(w.threads[t].serial, w.threads[u].serial, w.Issued());
    }
  }

  /** A response the server gave to request `r.serial` reaches that request's buffer or none. */
  lemma DeliveredToItsRequest(cfg: Config, w: World, r: Tagged, t: nat)
    requires Inv(cfg, w) && Genuine(cfg, w) && Recent(w) && r in w.responses && r.msg.Wf()
    requires t < |w.threads| && Delivered(cfg, w, r.msg).threads[t] != w.threads[t]
    ensures w.threads[t].InFlight() && w.threads[t].serial == r.serial
  {
    DeliverWritesItsOwner(cfg, w, r.msg, t);
    assert Owns(w, t) && ResponseOk(cfg, w, r);
    hide Delivered, Receiver, HostOrder, Swap32, Inv, Reply;
    Swap32Twice(r.serial % WORD);
    assert r.msg.reqId == Swap32(r.serial % WORD);
    SameResidue(w.threads[t].serial, r.serial, w.Issued());
  }

  /** In host order, a server's response is the handler's result. */
  lemma ResponseIsHandlers(cfg: Config, w: World, r: Tagged)
    requires TablesAgree(cfg) && ResponseOk(cfg, w, r)
    ensures r.msg.Wf()
    ensures var c := w.calls[r.serial];
            FromHandler(cfg, w.served, c, r.serial % WORD, HostOrder(cfg, r.msg)) &&
            HostOrder(cfg, r.msg).len == |c.data| == |HostOrder(cfg, r.msg).data| == |r.msg.data| <= RECEIVE_ROOM
  {
    var c := w.calls[r.serial];
    var n: nat :| n < w.served && Reply(cfg, n, Outgoing(cfg, c, r.serial % WORD)) == Some(r.msg);
    ReplyIsPromised(cfg, n, c, r.serial % WORD);
    hide Reply, HostOrder, Outgoing, TablesAgree;
    assert HostOrder(cfg, r.msg) == Promised(cfg, n, c, r.serial % WORD);
  }

  /** Histories and messages stay genuine while the numbers of calls and answers only grow. */
  lemma GenuineGrows(cfg: Config, w: World, w': World, th: Thread)
    requires w.calls <= w'.calls && w.served <= w'.served && HistoryOk(cfg, w, th)
    ensures HistoryOk(cfg, w', th)
  {
    hide Promised;
  }

  lemma ResponseGrows(cfg: Config, w: World, w': World, r: Tagged)
    requires w.calls <= w'.calls && w.served <= w'.served && ResponseOk(cfg, w, r)
    ensures ResponseOk(cfg, w', r)
  {
    hide Reply, Outgoing;
  }

  /** A further copy keeps a requester's history in order; it can be the second only for a palindromic length. */
  lemma CopyOk(cfg: Config, w: World, th: Thread, host: Msg)
    requires BufferOk(cfg, th) && HistoryOk(cfg, w, th) && host.len == Swap16(th.msg.len)
    requires FromHandler(cfg, w.served, th.call, th.serial % WORD, host) && host.len <= RECEIVE_ROOM
    ensures host.len == |host.data| && Fits(th.msg, host) && HistoryOk(cfg, w, WithCopy(th, host))
  {
    hide FromHandler, Outgoing, Swap16;
    var c, id := th.call, th.serial % WORD;
    LenOf(cfg, w.served, c, id, host);
    if th.copies != [] {
      var last := th.copies[|th.copies| - 1];
      assert last in th.copies;
      LenOf(cfg, w.served, c, id, last);
    }
  }

  lemma DeliverFrame(cfg: Config, w: World, m: Msg)
    requires w.ctrl.Wf() && m.Wf()
    ensures var w' := Delivered(cfg, w, m);
            && w'.requests == w.requests && w'.responses == w.responses && w'.calls == w.calls
            && w'.served == w.served && |w'.threads| == |w.threads|
  {
    hide HostOrder, Copied;
  }

  lemma DeliverHistory(cfg: Config, w: World, r: Tagged, t: nat)
    requires TablesAgree(cfg) && Inv(cfg, w) && Genuine(cfg, w) && Recent(w)
    requires r in w.responses && r.msg.Wf() && t < |w.threads|
    requires Delivered(cfg, w, r.msg).threads[t] != w.threads[t]
    ensures HistoryOk(cfg, w, Delivered(cfg, w, r.msg).threads[t])
  {
    hide Delivered, HostOrder, Receiver, HistoryOk, ResponseOk, Swap16, FromHandler, TablesAgree;
    var th := w.threads[t];
    DeliveredToItsRequest(cfg, w, r, t);
    DeliverWritesItsOwner(cfg, w, r.msg, t);
    assert BufferOk(cfg, th) && HistoryOk(cfg, w, th) && ResponseOk(cfg, w, r) && Owns(w, t);
    hide Inv, Genuine, Recent;
    ResponseIsHandlers(cfg, w, r);
    CopyOk(cfg, w, th, HostOrder(cfg, r.msg));
  }

  /** A server's response never leaves the buffers. */
  lemma NeverOutside(cfg: Config, w: World, r: Tagged)
    requires TablesAgree(cfg) && Inv(cfg, w) && Genuine(cfg, w) && Recent(w)
    requires r in w.responses && r.msg.Wf()
    ensures !Delivered(cfg, w, r.msg).outside
  {
    assert ResponseOk(cfg, w, r) && !w.outside;
    ResponseIsHandlers(cfg, w, r);
    if Receiver(cfg, w, r.msg).Some? {
      ReceiverOwner(cfg, w, r.msg);
      var t := w.ctrl.reqs[Receiver(cfg, w, r.msg).value].msg.value;
      assert HistoryOk(cfg, w, w.threads[t]);
      hide Receiver, HostOrder, Reply, FromHandler, Genuine, Inv, Swap16, Outgoing, TablesAgree;
      Swap32Twice(r.serial % WORD);
      Swap32Twice(w.threads[t].serial % WORD);
      hide Swap32;
      SameResidue(w.threads[t].serial, r.serial, w.Issued());
    }
  }

  lemma DeliverGenuine(cfg: Config, w: World, r: Tagged)
    requires TablesAgree(cfg) && Inv(cfg, w) && Genuine(cfg, w) && Recent(w)
    requires r in w.responses && r.msg.Wf()
    ensures !Delivered(cfg, w, r.msg).outside && Genuine(cfg, Delivered(cfg, w, r.msg))
  {
    var w' := Delivered(cfg, w, r.msg);
    NeverOutside(cfg, w, r);
    DeliverFrame(cfg, w, r.msg);
    assert Genuine(cfg, w);
    forall t | 0 <= t < |w'.threads| && (w'.threads[t].InFlight() || w'.threads[t].pc == Returning)
      ensures HistoryOk(cfg, w', w'.threads[t])
    {
      hide Inv, Recent, TablesAgree, Delivered, HistoryOk, RequestOk, ResponseOk;
      if w'.threads[t] != w.threads[t] {
        DeliverHistory(cfg, w, r, t);
      }
      GenuineGrows(cfg, w, w', w'.threads[t]);
    }
    hide Inv, Recent, TablesAgree, Delivered, HistoryOk, ResponseOk;
    forall q | q in w'.responses
      ensures ResponseOk(cfg, w', q)
    {
      ResponseGrows(cfg, w, w', q);
    }
  }

  lemma LenOf(cfg: Config, served: nat, c: Call, id: nat, host: Msg)
    requires c.Wf(cfg) && id < WORD && FromHandler(cfg, served, c, id, host)
    ensures host.len == |c.data| == |host.data| && host.sdkId == c.sdkId && host.reqId == Swap32(id)
  {
  }

  /** A step that changes at most thread `t` and only adds history keeps everything else genuine. */
  lemma OthersStayGenuine(cfg: Config, w: World, w': World, t: nat)
    requires Genuine(cfg, w) && w.calls <= w'.calls && w.served <= w'.served
    requires |w'.threads| == |w.threads| && forall u | 0 <= u < |w.threads| && u != t :: w'.threads[u] == w.threads[u]
    ensures forall q | q in w.requests :: RequestOk(cfg, w', q)
    ensures forall r | r in w.responses :: ResponseOk(cfg, w', r)
    ensures forall u | 0 <= u < |w'.threads| && u != t && (w'.threads[u].InFlight() || w'.threads[u].pc == Returning) ::
              HistoryOk(cfg, w', w'.threads[u])
  {
    hide ResponseOk, HistoryOk;
    forall r | r in w.responses
      ensures ResponseOk(cfg, w', r)
    {
      ResponseGrows(cfg, w, w', r);
    }
    forall u | 0 <= u < |w'.threads| && u != t && (w'.threads[u].InFlight() || w'.threads[u].pc == Returning)
      ensures HistoryOk(cfg, w', w'.threads[u])
    {
      GenuineGrows(cfg, w, w', w.threads[u]);
    }
  }

  /** What a begin step sends fits a receive buffer. */
  lemma BeginSends(cfg: Config, w: World, t: nat, call: Call, semOk: bool, netOk: bool)
    requires w.ctrl.Wf() && t < |w.threads| && call.Wf(cfg)
    ensures var w' := Begun(cfg, w, t, call, semOk, netOk);
            && w'.responses == w.responses && w'.served == w.served
            && (w'.requests == w.requests ||
                (w'.requests == w.requests + {Tagged(w.Issued(), Outgoing(cfg, call, w.ctrl.reqNext))}
                 && w'.calls == w.calls + [call] && |call.data| <= RECEIVE_ROOM))
  {
    hide Outgoing, Prepared, Allocated, Freed;
  }

  lemma BeginGenuine(cfg: Config, w: World, t: nat, call: Call, semOk: bool, netOk: bool)
    requires Inv(cfg, w) && Genuine(cfg, w) && Enabled(cfg, w, Begin(t, call, semOk, netOk))
    ensures Genuine(cfg, Begun(cfg, w, t, call, semOk, netOk))
  {
    var w' := Begun(cfg, w, t, call, semOk, netOk);
    OthersStayGenuine(cfg, w, w', t);
    BeginSends(cfg, w, t, call, semOk, netOk);
    assert w.ctrl.reqNext == w.Issued() % WORD;
    hide Genuine, ResponseOk, SendCode, Outgoing, Prepared, Swap16, Inv;
  }

  lemma ThreadStepGenuine(cfg: Config, w: World, s: Step, t: nat)
    requires Inv(cfg, w) && Genuine(cfg, w) && Enabled(cfg, w, s)
    requires s in {Wake(t), Expire(t), MarkTimeout(t), Free(t), Return(t)}
    ensures Genuine(cfg, Do(cfg, w, s))
  {
    var w' := Do(cfg, w, s);
    hide Inv, FromHandler, Swap16, Genuine;
    OthersStayGenuine(cfg, w, w', t);
    assert w'.requests == w.requests && w'.responses == w.responses;
    if w'.threads[t].pc != Idle {
      assert HistoryOk(cfg, w, w.threads[t]) by { assert Genuine(cfg, w); }
    }
  }

  /** Adding genuine responses and losing messages keeps a world genuine. */
  lemma MessagesStayGenuine(cfg: Config, w: World, w': World)
    requires Genuine(cfg, w)
    requires w'.threads == w.threads && w'.calls == w.calls && w.served <= w'.served
    requires w'.requests <= w.requests
    requires forall r | r in w'.responses :: r in w.responses || ResponseOk(cfg, w', r)
    ensures Genuine(cfg, w')
  {
    OthersStayGenuine(cfg, w, w', |w.threads|);
    hide ResponseOk, HistoryOk, RequestOk;
  }

  lemma ServeGenuine(cfg: Config, w: World, q: Tagged)
    requires w.ctrl.Wf() && Genuine(cfg, w) && Enabled(cfg, w, Serve(q))
    ensures Genuine(cfg, Do(cfg, w, Serve(q)))
  {
    var w' := Do(cfg, w, Serve(q));
    assert RequestOk(cfg, w, q);
    hide Reply, ResponseOk, RequestOk, HistoryOk, Genuine;
    AnswerIsGenuine(cfg, w, w', q);
    MessagesStayGenuine(cfg, w, w');
  }

  lemma LossGenuine(cfg: Config, w: World, m: Tagged)
    requires w.ctrl.Wf() && !w.outside && Genuine(cfg, w)
    ensures Genuine(cfg, Do(cfg, w, LoseRequest(m))) && Genuine(cfg, Do(cfg, w, LoseResponse(m)))
  {
    hide Genuine, ResponseOk;
    MessagesStayGenuine(cfg, w, Do(cfg, w, LoseRequest(m)));
    MessagesStayGenuine(cfg, w, Do(cfg, w, LoseResponse(m)));
  }

  lemma AnswerIsGenuine(cfg: Config, w: World, w': World, q: Tagged)
    requires RequestOk(cfg, w, q) && w.calls <= w'.calls && q.msg.Wf()
    ensures var r := Reply(cfg, w.served, q.msg);
            r.Some? && w'.served == w.served + 1 ==> ResponseOk(cfg, w', Tagged(q.serial, r.value))
  {
    hide Reply, Outgoing;
  }

  lemma ClosedStepKeeps(cfg: Config, w: World, s: Step)
    requires TablesAgree(cfg) && Inv(cfg, w) && Genuine(cfg, w) && Recent(w)
    requires Enabled(cfg, w, s) && FromServer(w, s)
    ensures Inv(cfg, Do(cfg, w, s)) && Genuine(cfg, Do(cfg, w, s))
  {
    assert w.ctrl.Wf();
    hide Inv, Genuine, Recent, Begun, Delivered, Reply, TablesAgree;
    StepKeeps(cfg, w, s);
    match s
    case Begin(t, call, semOk, netOk) => BeginGenuine(cfg, w, t, call, semOk, netOk);
    case Wake(t) => ThreadStepGenuine(cfg, w, s, t);
    case Expire(t) => ThreadStepGenuine(cfg, w, s, t);
    case MarkTimeout(t) => ThreadStepGenuine(cfg, w, s, t);
    case Free(t) => ThreadStepGenuine(cfg, w, s, t);
    case Return(t) => ThreadStepGenuine(cfg, w, s, t);
    case Deliver(r) => DeliverGenuine(cfg, w, r);
    case Serve(q) => ServeGenuine(cfg, w, q);
    case LoseRequest(q) => LossGenuine(cfg, w, q);
    case LoseResponse(r) => LossGenuine(cfg, w, r);
  }

  lemma {:induction false} ClosedRunKeeps(cfg: Config, w: World, steps: seq<Step>, w': World)
    requires TablesAgree(cfg) && Inv(cfg, w) && Genuine(cfg, w) && ClosedRuns(cfg, w, steps, w')
    ensures Inv(cfg, w') && Genuine(cfg, w') && Recent(w')
    decreases |steps|
  {
    if steps != [] {
      hide Inv, Genuine, Recent, Do, TablesAgree;
      ClosedStepKeeps(cfg, w, steps[0]);
      ClosedRunKeeps(cfg, Do(cfg, w, steps[0]), steps[1..], w');
    }
  }

  lemma ClosedSafety(cfg: Config, n: nat, steps: seq<Step>, w: World)
    requires TablesAgree(cfg) && cfg.Wf() && ClosedRuns(cfg, Start(n), steps, w)
    ensures Inv(cfg, w) && Genuine(cfg, w) && Recent(w) && !w.outside
  {
    StartInv(cfg, n);
    assert Genuine(cfg, Start(n));
    hide Inv, Genuine, Recent, TablesAgree;
    ClosedRunKeeps(cfg, Start(n), steps, w);
  }

  /** The buffer holds the code and the bytes of this run of the configured handler, under the call's id and length. */
  predicate Returned(cfg: Config, k: nat, th: Thread)
  {
    var a := cfg.handler(th.call.sdkId, k, th.call.data);
    && th.msg.sdkId == th.call.sdkId && th.msg.len == |th.call.data|
    && (a.ret < WORD && |a.out| == |th.call.data| ==> th.msg.ret == a.ret && th.msg.data == a.out)
  }

  lemma PromisedIsReturned(cfg: Config, k: nat, th: Thread)
    requires th.call.Wf(cfg) && cfg.Answered(th.call.sdkId) && th.msg == Promised(cfg, k, th.call, th.serial % WORD)
    ensures Returned(cfg, k, th)
  {
    if HandlerOk(cfg, k, th.call) {
      PromisedIsHandlersResult(cfg, k, th.call, th.serial % WORD);
    }
    hide Handle, Swap32;
  }

  /**
   * End to end over whole runs: when the wait succeeded, the caller's buffer is exactly what the
   * handler returned and wrote in one of its runs for this very call, in host order, under the id
   * and length the caller used.
   */
  lemma SuccessfulCallReturnsHandlersResult(cfg: Config, n: nat, steps: seq<Step>, w: World, t: nat)
    requires TablesAgree(cfg) && cfg.Wf() && ClosedRuns(cfg, Start(n), steps, w)
    requires At(w, t, Returning) && w.threads[t].waitOk
    ensures var th := w.threads[t];
            && th.call.Wf(cfg) && cfg.Answered(th.call.sdkId)
            && exists k: nat :: k < w.served && th.msg == Promised(cfg, k, th.call, th.serial % WORD) && Returned(cfg, k, th)
  {
    ClosedSafety(cfg, n, steps, w);
    hide ClosedRuns, TablesAgree, Recent;
    var th := w.threads[t];
    assert BufferOk(cfg, th) && HistoryOk(cfg, w, th);
    hide Inv, Genuine;
    var last := th.copies[|th.copies| - 1];
    assert last in th.copies;
    LenOf(cfg, w.served, th.call, th.serial % WORD, last);
    assert th.msg.data == last.data;
    assert th.msg == last;
    var k: nat :| k < w.served && last == Promised(cfg, k, th.call, th.serial % WORD);
    PromisedIsReturned(cfg, k, th);
  }

  /**
   * The length check: the first response of the server to a request in flight is copied, a second
   * one is refused unless the length reads the same in both byte orders.
   */
  lemma FirstResponseAccepted(cfg: Config, w: World, r: Tagged, t: nat)
    requires TablesAgree(cfg) && Inv(cfg, w) && Genuine(cfg, w) && Recent(w)
    requires r in w.responses && r.msg.Wf() && t < |w.threads|
    requires w.threads[t].InFlight() && w.threads[t].serial == r.serial
    ensures var th := w.threads[t];
            Receiver(cfg, w, r.msg) ==
            if th.copies == [] || Swap16(|th.call.data|) == |th.call.data| then Some(th.slot) else None
  {
    hide HostOrder, Receiver, Swap16, Swap32, TablesAgree, FromHandler, Outgoing, Reply;
    var th := w.threads[t];
    assert BufferOk(cfg, th) && HistoryOk(cfg, w, th) && Owns(w, t) && ResponseOk(cfg, w, r);
    FindsOwnRecord(cfg, w, t);
    Swap32Twice(r.serial % WORD);
    assert r.msg.reqId == Swap32(r.serial % WORD);
    ReceiverIs(cfg, w, r.msg, t);
    ResponseIsHandlers(cfg, w, r);
    hide Inv, Genuine, Recent, ResponseOk, Owns;
    assert HostOrder(cfg, r.msg).len == |th.call.data|;
    Swap16Twice(|th.call.data|);
    if th.copies != [] {
      var last := th.copies[|th.copies| - 1];
      assert last in th.copies;
      LenOf(cfg, w.served, th.call, th.serial % WORD, last);
    }
  }

  lemma ReceiverIs(cfg: Config, w: World, m: Msg, t: nat)
    requires Inv(cfg, w) && m.Wf() && t < |w.threads| && w.threads[t].InFlight()
    requires Found(w.ctrl, Swap32(m.reqId)) == Some(w.threads[t].slot)
    ensures w.threads[t].msg.len < 0x1_0000
    ensures Receiver(cfg, w, m) ==
            if HostOrder(cfg, m).len == Swap16(w.threads[t].msg.len) then Some(w.threads[t].slot) else None
  {
    assert Owns(w, t) && BufferOk(cfg, w.threads[t]);
    hide HostOrder, Swap16, Swap32, Found;
  }

  lemma FindsOwnRecord(cfg: Config, w: World, t: nat)
    requires Inv(cfg, w) && Recent(w) && t < |w.threads| && w.threads[t].InFlight()
    ensures Found(w.ctrl, w.threads[t].serial % WORD) == Some(w.threads[t].slot)
  {
    hide BufferOk;
    assert Owns(w, t);
    var i := Found(w.ctrl, w.threads[t].serial % WORD);
    assert OwnedSlot(w, i.value);
    var u := w.ctrl.reqs[i.value].msg.value;
    if u != t {
      LiveIdsDistinct(cfg, w, t, u);
    }
  }

  /**
   * The client lets the id just past the server's last one through, the server drops it: such a
   * call is never answered and always returns the time-out code.
   */
  lemma LastIdAlwaysTimesOut(cfg: Config, n: nat, steps: seq<Step>, w: World, t: nat)
    requires TablesAgree(cfg) && cfg.Wf() && ClosedRuns(cfg, Start(n), steps, w)
    requires At(w, t, Returning) && !cfg.Answered(w.threads[t].call.sdkId)
    ensures w.threads[t].copies == [] && w.threads[t].msg.ret == OAM_E_TIMEOUT
  {
    ClosedSafety(cfg, n, steps, w);
    hide ClosedRuns, TablesAgree, Recent;
    var th := w.threads[t];
    assert BufferOk(cfg, th) && HistoryOk(cfg, w, th);
    hide Inv, Genuine;
    assert forall i | 0 <= i < |th.copies| :: th.copies[i] in th.copies;
  }

  /** The window is what routing needs: a response matches a record exactly when the numbers agree modulo 2^32. */
  lemma MatchesIff(cfg: Config, w: World, r: Tagged, t: nat)
    requires Inv(cfg, w) && ResponseOk(cfg, w, r) && r.msg.Wf() && t < |w.threads| && w.threads[t].InFlight()
    ensures w.ctrl.reqs[w.threads[t].slot].reqId == Swap32(r.msg.reqId) <==>
            w.threads[t].serial % WORD == r.serial % WORD
  {
    assert Owns(w, t);
    hide Swap32, Reply, Inv;
    Swap32Twice(r.serial % WORD);
    assert r.msg.reqId == Swap32(r.serial % WORD);
  }
}
