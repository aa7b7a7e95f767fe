/**
 * The OAM request/response protocol: requester threads and the receiver share the request table.
 * A section under the mutex is one step; so is the write of the time-out code, which is outside it.
 */
module OamProtocol {
  import opened Bits
  import opened OamTable
  import opened OamMessage

  /** Where a thread is inside `cv_oam_sdk_api_request`. */
  datatype Pc =
    | Idle        // not in a request
    | Waiting     // in os_sem_wait
    | Expired     // the wait has timed out, the time-out code is not yet written
    | Finishing   // before the second lock
    | Returning   // the record is freed, the code is not yet read

  /**
   * A requester: its message buffer, its record, and the history of the request: the number of the
   * request, what was asked, the responses copied into the buffer, how many of them had been
   * copied when the time-out code was written, and whether the wait returned zero.
   */
  datatype Thread = Thread(pc: Pc, msg: Msg, slot: nat, serial: nat, call: Call,
                           copies: seq<Msg>, marked: nat, waitOk: bool) {
    predicate InFlight() { pc in {Waiting, Expired, Finishing} }
  }

  /** Messages on the way, each with the number of the request it belongs to. */
  datatype Tagged = Tagged(serial: nat, msg: Msg)

  /**
   * `outside` says that a response was copied beyond a buffer. What the machine does then is not
   * part of this model: no step is enabled any more.
   */
  datatype World = World(ctrl: Ctrl<nat>, threads: seq<Thread>, calls: seq<Call>,
                         requests: set<Tagged>, responses: set<Tagged>, served: nat, outside: bool) {
    /** How many ids were issued so far. */
    function Issued(): nat { |calls| }
  }

  datatype Step =
    | Begin(t: nat, call: Call, semOk: bool, netOk: bool)
    | Wake(t: nat)
    | Expire(t: nat)
    | MarkTimeout(t: nat)
    | Free(t: nat)
    | Return(t: nat)
    | Deliver(r: Tagged)
    | Serve(q: Tagged)
    | LoseRequest(q: Tagged)
    | LoseResponse(r: Tagged)

  predicate At(w: World, t: nat, pc: Pc)
  {
    t < |w.threads| && w.threads[t].pc == pc
  }

  /** The wait ends by the semaphore whenever it can; it times out only on a zero count. */
  predicate Enabled(cfg: Config, w: World, s: Step)
    requires w.ctrl.Wf()
  {
    !w.outside &&
    match s
    case Begin(t, call, _, _) => At(w, t, Idle) && call.Wf(cfg)
    case Wake(t) => At(w, t, Waiting) && Count(w, t) > 0
    case Expire(t) => At(w, t, Waiting) && Count(w, t) == 0
    case MarkTimeout(t) => At(w, t, Expired)
    case Free(t) => At(w, t, Finishing)
    case Return(t) => At(w, t, Returning)
    case Deliver(r) => r.msg.Wf() && |r.msg.data| <= RECEIVE_ROOM
    case Serve(q) => q in w.requests && q.msg.Wf()
    case LoseRequest(q) => true
    case LoseResponse(r) => true
  }

  /** The semaphore of the thread's record. */
  function Count(w: World, t: nat): nat
    requires t < |w.threads|
  {
    var i := w.threads[t].slot;
    if i < |w.ctrl.reqs| then w.ctrl.reqs[i].sem else 0
  }

  function SetThread(w: World, t: nat, th: Thread): World
    requires t < |w.threads|
  {
    w.(threads := w.threads[t := th])
  }

  function SetCount(w: World, t: nat, n: nat): World
    requires t < |w.threads| && w.threads[t].slot < |w.ctrl.reqs|
  {
    var i := w.threads[t].slot;
    w.(ctrl := w.ctrl.(reqs := w.ctrl.reqs[i := w.ctrl.reqs[i].(sem := n)]))
  }

  /** Conversion, allocation and sending, up to the unlock before the wait. */
  function Begun(cfg: Config, w: World, t: nat, call: Call, semOk: bool, netOk: bool): World
    requires w.ctrl.Wf() && t < |w.threads| && call.Wf(cfg)
  {
    var ctrl := Allocated(w.ctrl, t, semOk);
    var slot := AllocatedSlot(w.ctrl, semOk);
    var full := FirstFree(w.ctrl.reqs, 0) == |w.ctrl.reqs|;
    var w1 := w.(ctrl := ctrl, calls := if full then w.calls else w.calls + [call]);
    var id := w.ctrl.reqNext;
    if slot.None? then
      SetThread(w1, t, Thread(Idle, Prepared(cfg, call, 0).(ret := OAM_E_TOO_MUCH_API), 0, 0, call, [], 0, false))
    else
      var m := Outgoing(cfg, call, id);
      var code := SendCode(|call.data|, netOk);
      if code != OAM_E_OK then
        SetThread(w1.(ctrl := Freed(ctrl, slot.value)), t,
                  Thread(Idle, m.(ret := code), 0, 0, call, [], 0, false))
      else
        // a frame longer than 16 bits can say is cut and reaches the server as no request
        var sent := if SDK_MSG_HEADER_LEN + |call.data| < 0x1_0000 then {Tagged(w.Issued(), m)} else {};
        SetThread(w1.(requests := w1.requests + sent), t,
                  Thread(Waiting, m, slot.value, w.Issued(), call, [], 0, false))
  }

  /** The record a response is copied to: its id must be found and its length must match. */
  function Receiver(cfg: Config, w: World, m: Msg): Option<nat>
    requires w.ctrl.Wf() && m.Wf()
  {
    var i := Found(w.ctrl, Swap32(m.reqId));
    if i.None? then None
    else
      var t := w.ctrl.reqs[i.value].msg;
      if t.None? || t.value >= |w.threads| || w.threads[t.value].msg.len >= 0x1_0000 then None
      else if HostOrder(cfg, m).len != Swap16(w.threads[t.value].msg.len) then None
      else Some(i.value)
  }

  function WithCopy(th: Thread, host: Msg): Thread
    requires Fits(th.msg, host) && |host.data| == host.len
  {
    th.(msg := Copied(th.msg, host), copies := th.copies + [host])
  }

  /** `cv_oam_sdk_api_rsp`. */
  function Delivered(cfg: Config, w: World, m: Msg): World
    requires w.ctrl.Wf() && m.Wf()
  {
    var i := Receiver(cfg, w, m);
    if i.None? then w
    else
      var t := w.ctrl.reqs[i.value].msg.value;
      var th := w.threads[t];
      var host := HostOrder(cfg, m);
      var rec := w.ctrl.reqs[i.value];
      if !Fits(th.msg, host) then w.(outside := true)
      else w.(threads := w.threads[t := WithCopy(th, host)],
              ctrl := w.ctrl.(reqs := w.ctrl.reqs[i.value := rec.(sem := rec.sem + 1)]))
  }

  function Do(cfg: Config, w: World, s: Step): World
    requires w.ctrl.Wf() && Enabled(cfg, w, s)
  {
    match s
    case Begin(t, call, semOk, netOk) => Begun(cfg, w, t, call, semOk, netOk)
    case Wake(t) =>
      SetThread(SetCount(w, t, Count(w, t) - 1), t, w.threads[t].(pc := Finishing, waitOk := true))
    case Expire(t) => SetThread(w, t, w.threads[t].(pc := Expired))
    case MarkTimeout(t) =>
      var th := w.threads[t];
      SetThread(w, t, th.(pc := Finishing, msg := th.msg.(ret := OAM_E_TIMEOUT), marked := |th.copies|))
    case Free(t) =>
      var th := w.threads[t];
      var ctrl := if th.slot < |w.ctrl.reqs| then Freed(w.ctrl, th.slot) else w.ctrl;
      SetThread(w.(ctrl := ctrl), t, th.(pc := Returning))
    case Return(t) => SetThread(w, t, w.threads[t].(pc := Idle))
    case Deliver(r) => Delivered(cfg, w, r.msg)
    case Serve(q) =>
      (match Reply(cfg, w.served, q.msg)
       case None => w
       case Some(m) => w.(responses := w.responses + {Tagged(q.serial, m)}, served := w.served + 1))
    case LoseRequest(q) => w.(requests := w.requests - {q})
    case LoseResponse(r) => w.(responses := w.responses - {r})
  }

  predicate Over(w: World, w': World, t: nat, code: nat)
    requires t < |w.threads|
  {
    && |w'.threads| == |w.threads| && w'.threads[t].pc == Idle && w'.threads[t].msg.ret == code
    && w'.requests == w.requests && |w'.ctrl.reqs| == |w.ctrl.reqs|
    && forall j | 0 <= j < |w.ctrl.reqs| ::
         w'.ctrl.reqs[j].valid == w.ctrl.reqs[j].valid && (w.ctrl.reqs[j].valid ==> w'.ctrl.reqs[j] == w.ctrl.reqs[j])
  }

  /**
   * What becomes of a request that begins: it waits with a record, a count of zero and its message on
   * the way, or it is over with the code that says why, and no record is left behind.
   */
  lemma BeginOutcome(cfg: Config, w: World, t: nat, call: Call, semOk: bool, netOk: bool)
    requires w.ctrl.Wf() && t < |w.threads| && call.Wf(cfg)
    ensures var w' := Begun(cfg, w, t, call, semOk, netOk);
            var full := forall j | 0 <= j < |w.ctrl.reqs| :: w.ctrl.reqs[j].valid;
            var th := w'.threads[t];
            if full || !semOk then Over(w, w', t, 8)
            else if (16 + |call.data|) % 0x1_0000 > 1196 then Over(w, w', t, 3)
            else if !netOk then Over(w, w', t, 0xFFFF_FFFF)
            else
              && th.pc == Waiting && th.call == call && th.copies == [] && th.serial == |w.calls|
              && th.slot < |w.ctrl.reqs| && !w.ctrl.reqs[th.slot].valid
              && w'.ctrl.reqs == w.ctrl.reqs[th.slot := Record(true, w.ctrl.reqNext, 0, Some(t))]
              && w'.requests == w.requests + if |call.data| < 0xFFF0 then {Tagged(|w.calls|, th.msg)} else {}
  {
    AllocatedIs(w.ctrl, t, semOk);
    hide Outgoing, Prepared, Allocated, AllocatedSlot, FirstFree;
  }

  // ---- ownership

  /** The thread's record is valid, its own, and counts every copy once, but for the one a wait has consumed. */
  predicate Owns(w: World, t: nat)
    requires t < |w.threads|
  {
    var th := w.threads[t];
    && th.slot < |w.ctrl.reqs|
    && th.serial < w.Issued() && w.calls[th.serial] == th.call
    && var rec := w.ctrl.reqs[th.slot];
       && rec.valid && rec.msg == Some(t) && rec.reqId == th.serial % WORD
       && rec.sem + (if th.waitOk then 1 else 0) == |th.copies|
  }

  ghost predicate Ownership(w: World)
  {
    && (forall t | 0 <= t < |w.threads| && w.threads[t].InFlight() :: Owns(w, t))
    && (forall i | 0 <= i < |w.ctrl.reqs| && w.ctrl.reqs[i].valid :: OwnedSlot(w, i))
  }

  /** No two requests in flight have the same number. */
  ghost predicate SerialsDistinct(w: World)
  {
    forall t, u | 0 <= t < u < |w.threads| && w.threads[t].InFlight() && w.threads[u].InFlight() ::
      w.threads[t].serial != w.threads[u].serial
  }

  predicate OwnedSlot(w: World, i: nat)
    requires i < |w.ctrl.reqs|
  {
    var m := w.ctrl.reqs[i].msg;
    m.Some? && m.value < |w.threads| && w.threads[m.value].InFlight() && w.threads[m.value].slot == i
  }

  // ---- what the buffer holds

  /** The code in a thread's buffer, as its history explains it. */
  function ExplainedCode(th: Thread): nat
  {
    if (th.pc == Finishing || th.pc == Returning) && !th.waitOk then
      if |th.copies| > th.marked then th.copies[|th.copies| - 1].ret else OAM_E_TIMEOUT
    else if |th.copies| > 0 then th.copies[|th.copies| - 1].ret
    else OAM_E_OK
  }

  /**
   * The length the `k`-th copied response must have: the check swaps the length field of the
   * caller's message, which every copy leaves in host order.
   */
  function ExpectedLen(call: Call, k: nat): nat
    requires |call.data| < 0x1_0000
  {
    if k % 2 == 0 then |call.data| else Swap16(|call.data|)
  }

  /** Every response copied for a request carried its id and the expected length. */
  predicate CopiesMatch(th: Thread)
    requires |th.call.data| < 0x1_0000
  {
    forall i | 0 <= i < |th.copies| ::
      && th.copies[i].reqId == Swap32(th.serial % WORD)
      && th.copies[i].len == |th.copies[i].data| == ExpectedLen(th.call, i)
  }

  /** A request's buffer is its request until a response is copied, then the last response; it keeps its size. */
  predicate BufferOk(cfg: Config, th: Thread)
  {
    && cfg.Wf() && th.call.Wf(cfg)
    && th.msg.ret == ExplainedCode(th)
    && |th.msg.data| == |th.call.data|
    && th.msg.len < 0x1_0000 && Swap16(th.msg.len) == ExpectedLen(th.call, |th.copies|)
    && CopiesMatch(th)
    && (th.copies == [] ==> th.msg.(ret := 0) == Outgoing(cfg, th.call, th.serial % WORD))
    && (th.copies != [] ==>
          var last := th.copies[|th.copies| - 1];
          && th.msg.reqId == last.reqId && th.msg.sdkId == last.sdkId && th.msg.len == last.len
          && last.data <= th.msg.data)
    && th.marked <= |th.copies|
    && (th.pc == Waiting || th.pc == Expired ==> !th.waitOk)
    && (th.waitOk ==> th.copies != [])
  }

  ghost predicate Buffers(cfg: Config, w: World)
  {
    forall t | 0 <= t < |w.threads| && (w.threads[t].InFlight() || w.threads[t].pc == Returning) ::
      BufferOk(cfg, w.threads[t])
  }

  ghost predicate Inv(cfg: Config, w: World)
  {
    && cfg.Wf() && w.ctrl.Wf() && !w.outside
    && w.ctrl.reqNext == w.Issued() % WORD
    && Ownership(w) && SerialsDistinct(w) && Buffers(cfg, w)
  }

  // ---- every step keeps the invariant

  lemma NextId(n: nat)
    ensures (n + 1) % WORD == (n % WORD + 1) % WORD
  {
  }

  /** Taking a free record disturbs nobody who owns one. */
  lemma OthersKeepRecords(cfg: Config, w: World, w': World, t: nat)
    requires Inv(cfg, w) && At(w, t, Idle)
    requires |w'.threads| == |w.threads| && w.calls <= w'.calls && |w'.ctrl.reqs| == |w.ctrl.reqs|
    requires forall u | 0 <= u < |w.threads| && u != t :: w'.threads[u] == w.threads[u]
    requires forall i | 0 <= i < |w.ctrl.reqs| && w.ctrl.reqs[i].valid :: w'.ctrl.reqs[i] == w.ctrl.reqs[i]
    ensures forall u | 0 <= u < |w'.threads| && u != t && w'.threads[u].InFlight() :: Owns(w', u)
    ensures forall i | 0 <= i < |w'.ctrl.reqs| && w.ctrl.reqs[i].valid :: OwnedSlot(w', i)
    ensures forall u | 0 <= u < |w'.threads| && u != t && (w'.threads[u].InFlight() || w'.threads[u].pc == Returning) ::
              BufferOk(cfg, w'.threads[u])
  {
    hide BufferOk;
    forall u | 0 <= u < |w'.threads| && u != t && w'.threads[u].InFlight()
      ensures Owns(w', u)
    {
      assert Owns(w, u);
    }
    forall i | 0 <= i < |w'.ctrl.reqs| && w.ctrl.reqs[i].valid
      ensures OwnedSlot(w', i)
    {
      assert OwnedSlot(w, i);
    }
  }

  lemma BeginKeeps(cfg: Config, w: World, t: nat, call: Call, semOk: bool, netOk: bool)
    requires Inv(cfg, w) && Enabled(cfg, w, Begin(t, call, semOk, netOk))
    ensures Inv(cfg, Begun(cfg, w, t, call, semOk, netOk))
  {
    var w' := Begun(cfg, w, t, call, semOk, netOk);
    NextId(w.Issued());
    BeginLocal(cfg, w, t, call, semOk, netOk);
    BeginFrame(cfg, w, t, call, semOk, netOk);
    OthersKeepRecords(cfg, w, w', t);
    NewSerial(w, w', t);
    hide Begun, Outgoing, BufferOk, Owns, OwnedSlot, SerialsDistinct;
  }

  /** A new request's number is larger than every other one's. */
  lemma NewSerial(w: World, w': World, t: nat)
    requires Ownership(w) && SerialsDistinct(w) && t < |w.threads| == |w'.threads|
    requires forall u | 0 <= u < |w.threads| && u != t :: w'.threads[u] == w.threads[u]
    requires w'.threads[t].InFlight() ==> w'.threads[t].serial == w.Issued()
    ensures SerialsDistinct(w')
  {
    forall u | 0 <= u < |w.threads| && w.threads[u].InFlight()
      ensures w.threads[u].serial < w.Issued()
    {
      assert Owns(w, u);
    }
    hide Owns, OwnedSlot;
  }

  /** What a begin step leaves alone. */
  lemma BeginFrame(cfg: Config, w: World, t: nat, call: Call, semOk: bool, netOk: bool)
    requires w.ctrl.Wf() && t < |w.threads| && call.Wf(cfg)
    ensures var w' := Begun(cfg, w, t, call, semOk, netOk);
            && |w'.threads| == |w.threads| && w.calls <= w'.calls && |w'.ctrl.reqs| == |w.ctrl.reqs|
            && w'.outside == w.outside
            && (forall u | 0 <= u < |w.threads| && u != t :: w'.threads[u] == w.threads[u])
            && (forall i | 0 <= i < |w.ctrl.reqs| && w.ctrl.reqs[i].valid :: w'.ctrl.reqs[i] == w.ctrl.reqs[i])
            && ((w'.calls == w.calls && w'.ctrl.reqNext == w.ctrl.reqNext) ||
                (w'.Issued() == w.Issued() + 1 && w'.ctrl.reqNext == (w.ctrl.reqNext + 1) % WORD))
  {
    hide Outgoing, Prepared, SendCode;
  }

  lemma FreshBuffer(cfg: Config, th: Thread, id: nat)
    requires th.call.Wf(cfg) && th.serial % WORD == id && th.msg == Outgoing(cfg, th.call, id)
    requires th.pc == Waiting && th.copies == [] && th.marked == 0 && !th.waitOk
    ensures BufferOk(cfg, th)
  {
    hide Outgoing;
    Swap16Twice(|th.call.data|);
  }

  /** What a begin step does to its own thread and record. */
  lemma BeginLocal(cfg: Config, w: World, t: nat, call: Call, semOk: bool, netOk: bool)
    requires Inv(cfg, w) && Enabled(cfg, w, Begin(t, call, semOk, netOk))
    ensures var w' := Begun(cfg, w, t, call, semOk, netOk);
            && w'.ctrl.Wf()
            && (w'.threads[t].pc == Idle ||
                (w'.threads[t].pc == Waiting && w'.threads[t].serial == w.Issued() && Owns(w', t) && BufferOk(cfg, w'.threads[t])))
            && forall i | 0 <= i < |w'.ctrl.reqs| && w'.ctrl.reqs[i].valid && !w.ctrl.reqs[i].valid :: OwnedSlot(w', i)
  {
    assert w.ctrl.Wf() && w.ctrl.reqNext == w.Issued() % WORD;
    hide Outgoing, Prepared, SendCode, Inv, BufferOk;
    var w' := Begun(cfg, w, t, call, semOk, netOk);
    if At(w', t, Waiting) {
      assert w'.ctrl.reqs[w'.threads[t].slot] == Record(true, w.ctrl.reqNext, 0, Some(t));
      FreshBuffer(cfg, w'.threads[t], w.ctrl.reqNext);
    }
  }

  /** A further copy explains the buffer as the copies before it did. */
  lemma CopyKeepsBuffer(cfg: Config, th: Thread, host: Msg)
    requires BufferOk(cfg, th) && th.InFlight() && host.len == Swap16(th.msg.len)
    requires host.reqId == Swap32(th.serial % WORD) && |host.data| == host.len < 0x1_0000 && Fits(th.msg, host)
    ensures BufferOk(cfg, WithCopy(th, host))
  {
    var th' := WithCopy(th, host);
    Swap16Twice(|th.call.data|);
    Swap16Twice(th.msg.len);
    hide Outgoing, Swap16, Swap32;
    forall i | 0 <= i < |th'.copies|
      ensures th'.copies[i].reqId == Swap32(th.serial % WORD)
      ensures th'.copies[i].len == |th'.copies[i].data| == ExpectedLen(th.call, i)
    {
      assert i < |th.copies| ==> th'.copies[i] == th.copies[i];
    }
  }

  /** What the receiver knows about the record it copies to. */
  lemma ReceiverOwner(cfg: Config, w: World, m: Msg)
    requires Inv(cfg, w) && m.Wf() && Receiver(cfg, w, m).Some?
    ensures var i := Receiver(cfg, w, m).value;
            && i < |w.ctrl.reqs| && w.ctrl.reqs[i].valid && w.ctrl.reqs[i].msg.Some?
            && var t := w.ctrl.reqs[i].msg.value;
               && t < |w.threads| && w.threads[t].InFlight() && w.threads[t].slot == i && Owns(w, t)
               && BufferOk(cfg, w.threads[t])
               && HostOrder(cfg, m).len == Swap16(w.threads[t].msg.len)
               && HostOrder(cfg, m).reqId == Swap32(w.threads[t].serial % WORD)
  {
    var i := Receiver(cfg, w, m).value;
    assert OwnedSlot(w, i);
    var t := w.ctrl.reqs[i].msg.value;
    assert Owns(w, t) && BufferOk(cfg, w.threads[t]);
    hide Inv, BufferOk, Outgoing, Swap16, Swap32;
    Swap32Twice(m.reqId);
  }

  lemma DeliverKeeps(cfg: Config, w: World, m: Msg)
    requires Inv(cfg, w) && m.Wf()
    ensures Delivered(cfg, w, m).outside || Inv(cfg, Delivered(cfg, w, m))
  {
    var w' := Delivered(cfg, w, m);
    var i := Receiver(cfg, w, m);
    if i.Some? && !w'.outside {
      ReceiverOwner(cfg, w, m);
      var t := w.ctrl.reqs[i.value].msg.value;
      CopyKeepsBuffer(cfg, w.threads[t], HostOrder(cfg, m));
      hide Receiver, HostOrder, BufferOk, Copied;
      forall u | 0 <= u < |w'.threads| && w'.threads[u].InFlight()
        ensures Owns(w', u)
      {
        assert Owns(w, u);
      }
      forall j | 0 <= j < |w'.ctrl.reqs| && w'.ctrl.reqs[j].valid
        ensures OwnedSlot(w', j)
      {
        assert OwnedSlot(w, j);
      }
    }
  }

  /** One thread moves on and keeps its record. */
  lemma ThreadMoves(cfg: Config, w: World, w': World, t: nat)
    requires Inv(cfg, w) && t < |w.threads| == |w'.threads| && w.threads[t].InFlight() && w'.threads[t].InFlight()
    requires w'.calls == w.calls && !w'.outside && w'.ctrl.Wf() && w'.ctrl.reqNext == w.ctrl.reqNext
    requires forall u | 0 <= u < |w.threads| && u != t :: w'.threads[u] == w.threads[u]
    requires forall i | 0 <= i < CV_SDK_MAX_REQ && i != w.threads[t].slot :: w'.ctrl.reqs[i] == w.ctrl.reqs[i]
    requires w'.threads[t].serial == w.threads[t].serial && w'.threads[t].slot == w.threads[t].slot
    requires Owns(w', t) && BufferOk(cfg, w'.threads[t])
    ensures Inv(cfg, w')
  {
    hide BufferOk;
    assert Owns(w, t);
    forall u | 0 <= u < |w'.threads| && w'.threads[u].InFlight()
      ensures Owns(w', u)
    {
      assert Owns(w, u);
    }
    forall i | 0 <= i < |w'.ctrl.reqs| && w'.ctrl.reqs[i].valid
      ensures OwnedSlot(w', i)
    {
      assert OwnedSlot(w, i);
    }
  }

  /** The wait of one thread. */
  lemma WaitStepKeeps(cfg: Config, w: World, s: Step, t: nat)
    requires Inv(cfg, w) && Enabled(cfg, w, s)
    requires s in {Wake(t), Expire(t), MarkTimeout(t)}
    ensures Inv(cfg, Do(cfg, w, s))
  {
    var th, w' := w.threads[t], Do(cfg, w, s);
    assert BufferOk(cfg, th) && Owns(w, t);
    hide Outgoing, Begun, Delivered, Reply, Inv, BufferOk;
    WaitKeepsBuffer(cfg, th, w'.threads[t]);
    ThreadMoves(cfg, w, w', t);
  }

  lemma WaitKeepsBuffer(cfg: Config, th: Thread, th': Thread)
    requires BufferOk(cfg, th)
    requires || (th.pc == Waiting && th.copies != [] && th' == th.(pc := Finishing, waitOk := true))
             || (th.pc == Waiting && !th.waitOk && th' == th.(pc := Expired))
             || (th.pc == Expired && th' == th.(pc := Finishing, msg := th.msg.(ret := OAM_E_TIMEOUT), marked := |th.copies|))
    ensures BufferOk(cfg, th')
  {
    hide Outgoing, Swap16, Swap32;
  }

  /** The second locked section of one thread, and its return. */
  lemma EndStepKeeps(cfg: Config, w: World, s: Step, t: nat)
    requires Inv(cfg, w) && Enabled(cfg, w, s)
    requires s in {Free(t), Return(t)}
    ensures Inv(cfg, Do(cfg, w, s))
  {
    var w' := Do(cfg, w, s);
    assert BufferOk(cfg, w.threads[t]) && (s == Free(t) ==> Owns(w, t));
    hide Outgoing, Begun, Delivered, Reply, CopiesMatch;
    assert s == Free(t) ==> BufferOk(cfg, w'.threads[t]);
    hide BufferOk;
    forall u | 0 <= u < |w'.threads| && w'.threads[u].InFlight()
      ensures Owns(w', u)
    {
      assert Owns(w, u);
    }
    forall i | 0 <= i < |w'.ctrl.reqs| && w'.ctrl.reqs[i].valid
      ensures OwnedSlot(w', i)
    {
      assert OwnedSlot(w, i);
    }
  }

  /** The steps of the server and of the network. */
  lemma ChannelStepKeeps(cfg: Config, w: World, s: Step)
    requires Inv(cfg, w) && Enabled(cfg, w, s)
    requires s.Serve? || s.LoseRequest? || s.LoseResponse?
    ensures Inv(cfg, Do(cfg, w, s))
  {
    hide Outgoing, Begun, Delivered, Reply, BufferOk;
    var w' := Do(cfg, w, s);
    assert w'.ctrl == w.ctrl && w'.threads == w.threads && w'.calls == w.calls;
    hide Do;
    forall t | 0 <= t < |w'.threads| && w'.threads[t].InFlight()
      ensures Owns(w', t)
    {
      assert Owns(w, t);
    }
    forall i | 0 <= i < |w'.ctrl.reqs| && w'.ctrl.reqs[i].valid
      ensures OwnedSlot(w', i)
    {
      assert OwnedSlot(w, i);
    }
  }

  /** Every step of every thread, of the receiver and of the server keeps the invariant, or leaves the buffers. */
  lemma StepKeeps(cfg: Config, w: World, s: Step)
    requires Inv(cfg, w) && Enabled(cfg, w, s)
    ensures Do(cfg, w, s).outside || Inv(cfg, Do(cfg, w, s))
  {
    hide Inv, Begun, Delivered, Reply;
    match s
    case Begin(t, call, semOk, netOk) => BeginKeeps(cfg, w, t, call, semOk, netOk);
    case Wake(t) => WaitStepKeeps(cfg, w, s, t);
    case Expire(t) => WaitStepKeeps(cfg, w, s, t);
    case MarkTimeout(t) => WaitStepKeeps(cfg, w, s, t);
    case Free(t) => EndStepKeeps(cfg, w, s, t);
    case Return(t) => EndStepKeeps(cfg, w, s, t);
    case Deliver(r) => DeliverKeeps(cfg, w, r.msg);
    case Serve(q) => ChannelStepKeeps(cfg, w, s);
    case LoseRequest(q) => ChannelStepKeeps(cfg, w, s);
    case LoseResponse(r) => ChannelStepKeeps(cfg, w, s);
  }

  // ---- what the invariant says about single steps

  /** The thread a step belongs to. */
  predicate StepOf(s: Step, t: nat)
  {
    match s
    case Begin(u, _, _, _) => u == t
    case Wake(u) => u == t
    case Expire(u) => u == t
    case MarkTimeout(u) => u == t
    case Free(u) => u == t
    case Return(u) => u == t
    case _ => false
  }

  /** Two requests in flight never share a record. */
  lemma RecordsAreExclusive(cfg: Config, w: World, t: nat, u: nat)
    requires Inv(cfg, w) && t < |w.threads| && u < |w.threads| && t != u
    requires w.threads[t].InFlight() && w.threads[u].InFlight()
    ensures w.threads[t].slot != w.threads[u].slot
  {
    assert Owns(w, t) && Owns(w, u);
  }

  /**
   * Once a request has freed its record, nothing but the caller's own next step touches its buffer:
   * no response that stays inside its buffer, however late or often repeated, is written to it.
   */
  lemma BufferIsPrivate(cfg: Config, w: World, s: Step, t: nat)
    requires Inv(cfg, w) && Enabled(cfg, w, s) && t < |w.threads| && !w.threads[t].InFlight() && !StepOf(s, t)
    ensures Do(cfg, w, s).outside || Do(cfg, w, s).threads[t] == w.threads[t]
  {
    if s.Deliver? && Receiver(cfg, w, s.r.msg).Some? {
      ReceiverOwner(cfg, w, s.r.msg);
    }
    hide HostOrder, Outgoing, BufferOk, Receiver, Inv;
  }

  /** A response is copied to at most one buffer, that of the owner of a record with its id. */
  lemma DeliverWritesItsOwner(cfg: Config, w: World, m: Msg, t: nat)
    requires Inv(cfg, w) && m.Wf() && t < |w.threads|
    requires Delivered(cfg, w, m).threads[t] != w.threads[t]
    ensures var th := w.threads[t];
            && th.InFlight() && Receiver(cfg, w, m) == Some(th.slot)
            && th.serial % WORD == Swap32(m.reqId)
            && HostOrder(cfg, m).len == Swap16(th.msg.len) && Fits(th.msg, HostOrder(cfg, m))
            && Delivered(cfg, w, m).threads[t] == WithCopy(th, HostOrder(cfg, m))
  {
    ReceiverOwner(cfg, w, m);
    hide HostOrder, Outgoing, BufferOk, Swap16, Receiver, Inv, Copied;
    Swap32Twice(w.threads[t].serial % WORD);
    hide Swap32;
  }

  /** The wait can time out only while no response has been copied. */
  lemma ExpiresOnlyUnanswered(cfg: Config, w: World, t: nat)
    requires Inv(cfg, w) && Enabled(cfg, w, Expire(t))
    ensures w.threads[t].copies == []
  {
    assert Owns(w, t);
  }

  // ---- runs

  ghost predicate Runs(cfg: Config, w: World, steps: seq<Step>, w': World)
    decreases |steps|
  {
    w.ctrl.Wf() &&
    if steps == [] then w' == w
    else Enabled(cfg, w, steps[0]) && Runs(cfg, Do(cfg, w, steps[0]), steps[1..], w')
  }

  /** `cv_oam_sdk_init`, with `n` threads that have not asked anything. */
  function Start(n: nat): World
  {
    World(Ctrl(seq(CV_SDK_MAX_REQ, _ => Record(false, 0, 0, None)), 0),
          seq(n, _ => Thread(Idle, Msg(0, 0, 0, 0, []), 0, 0, Call(0, []), [], 0, false)),
          [], {}, {}, 0, false)
  }

  lemma StartInv(cfg: Config, n: nat)
    requires cfg.Wf()
    ensures Inv(cfg, Start(n))
  {
  }

  lemma {:induction false} RunKeeps(cfg: Config, w: World, steps: seq<Step>, w': World)
    requires Inv(cfg, w) && Runs(cfg, w, steps, w')
    ensures w'.outside || Inv(cfg, w')
    decreases |steps|
  {
    if steps != [] {
      StepKeeps(cfg, w, steps[0]);
      var w1 := Do(cfg, w, steps[0]);
      if w1.outside {
        OutsideIsFinal(cfg, w1, steps[1..], w');
      } else {
        hide Inv, Do;
        RunKeeps(cfg, w1, steps[1..], w');
      }
    }
  }

  lemma OutsideIsFinal(cfg: Config, w: World, steps: seq<Step>, w': World)
    requires w.outside && Runs(cfg, w, steps, w')
    ensures steps == [] && w' == w
  {
  }

  /** After any run inside the buffers the invariant holds: records are exclusively owned and buffers explained. */
  lemma Safety(cfg: Config, n: nat, steps: seq<Step>, w: World)
    requires cfg.Wf() && Runs(cfg, Start(n), steps, w)
    ensures w.outside || Inv(cfg, w)
  {
    StartInv(cfg, n);
    RunKeeps(cfg, Start(n), steps, w);
  }

  // ---- when a response leaves the buffers

  /**
   * A response that is copied stays inside the caller's message and the receive buffer if and only
   * if its length fits a receive buffer and an even number of responses was copied before, or the
   * swapped length is no larger than the caller's.
   */
  lemma CopyStaysInsideIff(cfg: Config, w: World, m: Msg, t: nat)
    requires Inv(cfg, w) && m.Wf() && t < |w.threads| && w.threads[t].InFlight()
    requires Receiver(cfg, w, m) == Some(w.threads[t].slot)
    ensures var th := w.threads[t]; var len := |th.call.data|;
            && (!Delivered(cfg, w, m).outside <==>
                  ExpectedLen(th.call, |th.copies|) <= RECEIVE_ROOM && (|th.copies| % 2 == 0 || Swap16(len) <= len))
            && (len <= RECEIVE_ROOM ==>
                  (!Delivered(cfg, w, m).outside <==> |th.copies| % 2 == 0 || Swap16(len) <= len))
  {
    ReceiverOwner(cfg, w, m);
    var th := w.threads[t];
    assert Owns(w, t) && BufferOk(cfg, th);
    hide HostOrder, Outgoing, Receiver, Inv, CopiesMatch, Swap16;
  }

  /**
   * The code a request returns: the last response's, if the wait was ended by one; otherwise the
   * time-out code, unless a response came in after that code was written.
   */
  lemma ReturnedCode(cfg: Config, n: nat, steps: seq<Step>, w: World, t: nat)
    requires cfg.Wf() && Runs(cfg, Start(n), steps, w) && At(w, t, Returning) && !w.outside
    ensures var th := w.threads[t];
            && th.call.Wf(cfg) && CopiesMatch(th)
            && (th.waitOk ==> th.copies != [] && th.msg.ret == th.copies[|th.copies| - 1].ret)
            && (!th.waitOk && |th.copies| == th.marked ==> th.msg.ret == OAM_E_TIMEOUT)
            && (!th.waitOk && |th.copies| > th.marked ==> th.msg.ret == th.copies[|th.copies| - 1].ret)
            && th.marked <= |th.copies|
  {
    Safety(cfg, n, steps, w);
    hide Runs;
    assert BufferOk(cfg, w.threads[t]);
  }

  /** Request `serial` of thread `t` cannot time out any more. */
  predicate Settled(w: World, t: nat, serial: nat)
    requires t < |w.threads|
  {
    var th := w.threads[t];
    th.serial == serial ==>
      && (th.pc == Waiting ==> th.copies != [])
      && th.pc != Expired
      && (th.pc == Finishing || th.pc == Returning ==> th.waitOk)
  }

  lemma SettledStep(cfg: Config, w: World, s: Step, t: nat, serial: nat)
    requires Inv(cfg, w) && Enabled(cfg, w, s) && t < |w.threads| && serial < w.Issued() && Settled(w, t, serial)
    ensures var w' := Do(cfg, w, s);
            |w'.threads| == |w.threads| && w'.Issued() >= w.Issued() && Settled(w', t, serial)
  {
    if s.Deliver? {
      SettledDeliver(cfg, w, s.r.msg, t, serial);
    } else if s.Begin? {
      SettledBegin(cfg, w, s, t, serial);
    } else {
      hide Delivered, Begun, Reply;
      if w.threads[t].pc == Waiting {
        assert Owns(w, t);
      }
      hide Inv, Owns;
    }
  }

  lemma SettledDeliver(cfg: Config, w: World, m: Msg, t: nat, serial: nat)
    requires Inv(cfg, w) && m.Wf() && t < |w.threads| && Settled(w, t, serial)
    ensures var w' := Delivered(cfg, w, m);
            |w'.threads| == |w.threads| && w'.Issued() == w.Issued() && Settled(w', t, serial)
  {
    if Receiver(cfg, w, m).Some? {
      ReceiverOwner(cfg, w, m);
    }
    hide HostOrder, Inv, Receiver, Copied, BufferOk;
  }

  lemma SettledBegin(cfg: Config, w: World, s: Step, t: nat, serial: nat)
    requires w.ctrl.Wf() && s.Begin? && Enabled(cfg, w, s)
    requires t < |w.threads| && serial < w.Issued() && Settled(w, t, serial)
    ensures var w' := Do(cfg, w, s);
            |w'.threads| == |w.threads| && w'.Issued() >= w.Issued() && Settled(w', t, serial)
  {
    BeginFrame(cfg, w, s.t, s.call, s.semOk, s.netOk);
    hide Outgoing, Prepared, SendCode, Allocated, Freed, AllocatedSlot;
  }

  /** A response copied while its requester still waits is never lost: that wait succeeds. */
  lemma {:induction false} ResponseBeforeTimeoutWins(cfg: Config, w: World, steps: seq<Step>, w': World, t: nat, serial: nat)
    requires Inv(cfg, w) && Runs(cfg, w, steps, w') && t < |w.threads| && serial < w.Issued()
    requires Settled(w, t, serial)
    ensures t < |w'.threads| && Settled(w', t, serial)
    decreases |steps|
  {
    if steps != [] {
      StepKeeps(cfg, w, steps[0]);
      SettledStep(cfg, w, steps[0], t, serial);
      var w1 := Do(cfg, w, steps[0]);
      if w1.outside {
        OutsideIsFinal(cfg, w1, steps[1..], w');
      } else {
        hide Inv, Do;
        ResponseBeforeTimeoutWins(cfg, w1, steps[1..], w', t, serial);
      }
    }
  }
}
