/** The client's and the server's half of the protocol on message objects, changed in place. */
module OamClient {
  import opened Bits
  import opened OamTable
  import opened OamMessage
  import opened OamFrame
  import opened OamWire

  /** `cv_sdk_msg_t` in a caller's or a receiver's buffer. */
  class Message {
    var ret: nat
    var reqId: nat
    var sdkId: nat
    var len: nat
    var data: seq<Byte>

    function Value(): Msg
      reads this
    {
      Msg(ret, reqId, sdkId, len, data)
    }

    constructor (m: Msg)
      ensures Value() == m
    {
      ret, reqId, sdkId, len, data := m.ret, m.reqId, m.sdkId, m.len, m.data;
    }
  }

  /** What became of a response; `Outside` stands for a copy beyond a C buffer. */
  datatype Response = Refused | CopiedTo(target: Message) | Outside

  /** Bytes written over the front of a buffer, which keeps its size. */
  function Overlaid(buf: seq<Byte>, front: seq<Byte>): (r: seq<Byte>)
    ensures |r| == |buf| && (|front| <= |buf| ==> r[..|front|] == front && r[|front|..] == buf[|front|..])
  {
    if |front| <= |buf| then front + buf[|front|..] else front[..|buf|]
  }

  /** What the two copies leave in the caller's message. */
  lemma CopiedFront(target: Msg, host: Msg, msg: Msg, dest: Msg)
    requires Fits(target, host) && |host.data| == host.len <= |msg.data|
    requires msg.(data := host.data) == host && msg.data[..host.len] == host.data
    requires dest == msg.(data := Overlaid(target.data, msg.data[..host.len]))
    ensures dest == Copied(target, host) && dest.len <= |dest.data| && dest.(data := dest.data[..dest.len]) == host
  {
  }

  class Client {
    const cfg: Config
    const table: RequestTable<Message>
    /** The frames handed to the socket. */
    var sent: seq<seq<Byte>>

    ghost predicate Valid()
      reads this, table
    {
      cfg.Wf() && table.Valid()
    }

    constructor (cfg: Config)
      requires cfg.Wf()
      ensures Valid() && this.cfg == cfg && fresh(table) && fresh(table.reqs) && sent == []
    {
      this.cfg := cfg;
      table := new RequestTable<Message>();
      sent := [];
    }

    /** `cv_oam_client_send_msg`: one frame with these types around the message; `netOk` is the outcome of `send`. */
    method SendMsg(frameType: nat, msgType: nat, msg: seq<Byte>, msgLen: nat, netOk: bool) returns (code: nat)
      requires frameType < 0x1_0000 && msgType < 0x1_0000
      requires msgLen <= CV_OAM_PKT_MAX_LEN - CV_FRAME_HEADER_LEN ==> msgLen <= |msg|
      modifies this`sent
      ensures code == if msgLen > CV_OAM_PKT_MAX_LEN - CV_FRAME_HEADER_LEN then OAM_E_PARAM
                      else if netOk then OAM_E_OK else SEND_FAILED
      ensures sent == old(sent) + if code == OAM_E_OK then [Frame(frameType, msgType, msg[..msgLen])] else []
      ensures code == OAM_E_OK ==>
                var f := sent[|sent| - 1];
                Be16(f, 0) == frameType && Be16(f, 2) == msgType && f[CV_FRAME_HEADER_LEN..] == msg[..msgLen]
    {
      hide Frame, Be16;
      if msgLen > CV_OAM_PKT_MAX_LEN - CV_FRAME_HEADER_LEN {
        return OAM_E_PARAM;
      }
      var pkt := FillPacket(frameType, msgType, msg, msgLen);
      if !netOk {
        return SEND_FAILED;
      }
      sent := sent + [pkt[..msgLen + CV_FRAME_HEADER_LEN]];
      return OAM_E_OK;
    }

    /**
     * `cv_oam_sdk_api_request` up to the wait: checks the id, converts the message in place,
     * takes a record and sends. `req` is the record when there is something to wait for.
     */
    method RequestBegin(msg: Message, semOk: bool, netOk: bool) returns (code: nat, req: Option<nat>)
      requires Valid() && msg.len == |msg.data| < 0x1_0000 && msg.sdkId < 0x1_0000
      modifies msg, table, table.reqs, this`sent
      ensures Valid()
      ensures old(msg.sdkId) > cfg.maxId ==>
                && code == OAM_E_WRONG_SDK_ID && req == None
                && msg.Value() == old(msg.Value()) && table.Value() == old(table.Value()) && sent == old(sent)
      ensures old(msg.sdkId) <= cfg.maxId ==>
                var c := Call(old(msg.sdkId), old(msg.data));
                var before := old(table.Value());
                var slot := AllocatedSlot(before, semOk);
                match slot
                case None =>
                  && code == OAM_E_TOO_MUCH_API && req == None && sent == old(sent)
                  && table.Value() == Allocated(before, msg, semOk)
                  && msg.Value() == Prepared(cfg, c, 0).(reqId := old(msg.reqId), ret := code)
                case Some(i) =>
                  && code == SendCode(|c.data|, netOk)
                  && msg.Value() == Outgoing(cfg, c, before.reqNext).(ret := code)
                  && sent == old(sent) + (if code == OAM_E_OK then [RequestFrame(Outgoing(cfg, c, before.reqNext))] else [])
                  && if code == OAM_E_OK then req == slot && table.Value() == Allocated(before, msg, semOk)
                     else req == None && table.Value() == Freed(Allocated(before, msg, semOk), i)
      ensures old(msg.sdkId) <= cfg.maxId ==>
                var data, id := cfg.client.hton(old(msg.sdkId), old(msg.data)), old(table.reqNext);
                && (|data| == old(|msg.data|) ==> msg.data == data)
                && (code == OAM_E_OK && SDK_MSG_HEADER_LEN + |msg.data| < 0x1_0000 ==>
                      OnWire(cfg, Call(old(msg.sdkId), old(msg.data)), id, sent[|sent| - 1]))
    {
      hide Swap16, Swap32, Encode, Frame, OnWire, Be16;
      if msg.sdkId > cfg.maxId {
        return OAM_E_WRONG_SDK_ID, None;
      }
      msg.ret := OAM_E_OK;
      var len := msg.len;
      msg.data := ToNet(cfg.client, msg.sdkId, msg.data);
      msg.sdkId := Swap16(msg.sdkId);
      msg.len := Swap16(msg.len);
      var id := table.reqNext;
      req := table.RecordAlloc(msg, semOk);
      if req.None? {
        msg.ret := OAM_E_TOO_MUCH_API;
        return msg.ret, None;
      }
      msg.reqId := Swap32(id);
      ghost var call := Call(old(msg.sdkId), old(msg.data));
      assert msg.Value() == Outgoing(cfg, call, id);
      if SDK_MSG_HEADER_LEN + len < 0x1_0000 {
        RequestBytes(cfg, call, id);
      }
      hide ToNet;
      msg.ret := SendMsg(CV_OAM_FRAME_TYPE_CMD_MSG, CV_OAM_L2_MSG_CMD_REQ, Encode(msg.Value()),
                         (SDK_MSG_HEADER_LEN + len) % 0x1_0000, netOk);
      code := msg.ret;
      if code != OAM_E_OK {
        table.RecordFree(req.value);
        req := None;
      }
    }

    /** The write of the time-out code, outside the lock. */
    method RequestTimedOut(msg: Message)
      modifies msg`ret
      ensures msg.Value() == old(msg.Value()).(ret := OAM_E_TIMEOUT)
    {
      msg.ret := OAM_E_TIMEOUT;
    }

    /** The second locked section and the return. */
    method RequestEnd(msg: Message, req: nat) returns (code: nat)
      requires Valid() && req < CV_SDK_MAX_REQ
      modifies table.reqs
      ensures Valid() && table.Value() == Freed(old(table.Value()), req) && code == msg.ret
    {
      table.RecordFree(req);
      code := msg.ret;
    }

    /** The messages the records point to. */
    ghost function Targets(): set<Message>
      reads table.reqs
    {
      set i | 0 <= i < table.reqs.Length && table.reqs[i].msg.Some? :: table.reqs[i].msg.value
    }

    /** What a response does to the table and the messages. */
    twostate predicate Responded(m: Msg, new r: Response, targets: set<Message>)
      requires old(Valid()) && Valid() && m.Wf() && targets == old(Targets())
      reads this, table, table.reqs, targets
    {
      && (match Found(old(table.Value()), Swap32(m.reqId))
          case None => r == Refused && table.Value() == old(table.Value())
          case Some(i) =>
            var before, host := old(table.Value()), HostOrder(cfg, m);
            match before.reqs[i].msg
            case None => r == Refused && table.Value() == before
            case Some(dest) =>
              assert old(table.reqs[i]).msg.value in targets;
              if old(dest.len) >= 0x1_0000 || host.len != Swap16(old(dest.len)) then r == Refused && table.Value() == before
              else if !Fits(old(dest.Value()), host) then r == Outside
              else && r == CopiedTo(dest) && dest.Value() == Copied(old(dest.Value()), host)
                   && table.Value() == before.(reqs := before.reqs[i := before.reqs[i].(sem := before.reqs[i].sem + 1)]))
      && (forall d | d in targets && r != CopiedTo(d) :: r == Outside || d.Value() == old(d.Value()))
    }

    /** The response as the caller will read it, converted in the receive buffer. */
    method ToHostOrder(msg: Message)
      requires cfg.Wf() && msg.Value().Wf()
      modifies msg
      ensures var host := HostOrder(cfg, old(msg.Value())); msg.Value() == host.(data := Overlaid(old(msg.data), host.data))
    {
      hide Swap16, Swap32, ToHost, Body, Overlaid;
      msg.sdkId := Swap16(msg.sdkId);
      msg.len := Swap16(msg.len);
      msg.ret := Swap32(msg.ret);
      msg.data := Overlaid(msg.data, ToHost(cfg.client, msg.sdkId, Body(msg.data, msg.len)));
    }

    /** The `memcpy` of a header and of `len` bytes of data. */
    method CopyMessage(dest: Message, msg: Message)
      requires msg.len <= |msg.data| && msg.len <= |dest.data| && dest != msg
      modifies dest
      ensures dest.Value() == msg.Value().(data := Overlaid(old(dest.data), msg.data[..msg.len]))
    {
      dest.ret, dest.reqId, dest.sdkId, dest.len := msg.ret, msg.reqId, msg.sdkId, msg.len;
      dest.data := Overlaid(dest.data, msg.data[..msg.len]);
    }

    /** `cv_oam_sdk_api_rsp` on a message in a receive buffer. */
    method ApiRsp(msg: Message) returns (r: Response)
      requires Valid() && msg.Value().Wf() && msg !in Targets() && |msg.data| == RECEIVE_ROOM
      requires forall m | m in Targets() :: m.len < 0x1_0000
      modifies msg, table.reqs, Targets()
      ensures Valid() && Responded(old(msg.Value()), r, old(Targets()))
      ensures r.CopiedTo? ==>
                var m := r.target.Value();
                m.len <= |m.data| && Hosts(cfg, Encode(old(msg.Value())), m.(data := m.data[..m.len]))
    {
      hide Swap16, Swap32, ToHost, Body, Overlaid, FirstWith, Hosts, Encode;
      var reqId := Swap32(msg.reqId);
      var req := table.RecordFind(reqId);
      if req.None? || table.reqs[req.value].msg.None? {
        return Refused;
      }
      var dest := table.reqs[req.value].msg.value;
      assert dest in Targets();
      HostOrderOfMessage(cfg, msg.Value());
      ghost var host, target := HostOrder(cfg, msg.Value()), dest.Value();
      hide HostOrder;
      ToHostOrder(msg);
      if msg.len != Swap16(dest.len) {
        return Refused;
      }
      if msg.len > |msg.data| || msg.len > |dest.data| {
        return Outside;
      }
      CopyMessage(dest, msg);
      CopiedFront(target, host, msg.Value(), dest.Value());
      table.reqs[req.value] := table.reqs[req.value].(sem := table.reqs[req.value].sem + 1);
      return CopiedTo(dest);
    }

    /** `cv_oam_proc` on a receive buffer: command responses are handled, everything else is dropped. */
    method Proc(pdu: seq<Byte>) returns (r: Response)
      requires Valid() && |pdu| == CV_OAM_PKT_MAX_LEN
      requires forall m | m in Targets() :: m.len < 0x1_0000
      modifies table.reqs, Targets()
      ensures Valid()
      ensures match Dispatched(pdu, CV_OAM_L2_MSG_CMD_RSP)
              case None => r == Refused && table.Value() == old(table.Value()) && forall m | m in Targets() :: m.Value() == old(m.Value())
              case Some(m) => Responded(m, r, old(Targets()))
    {
      hide Dispatched, FirstWith, Hosts, Encode, HostOrder, Copied;
      match Dispatched(pdu, CV_OAM_L2_MSG_CMD_RSP)
      case None =>
        return Refused;
      case Some(m) =>
        var msg := new Message(m);
        r := ApiRsp(msg);
    }
  }

  class Server {
    const cfg: Config
    /** How many handler calls there were. */
    var served: nat
    /** The frames handed to the socket. */
    var sent: seq<seq<Byte>>

    constructor (cfg: Config)
      ensures this.cfg == cfg && served == 0 && sent == []
    {
      this.cfg := cfg;
      served := 0;
      sent := [];
    }

    /** `cv_oam_send_msg`; the message length is a 16-bit number. */
    method SendMsg(msgType: nat, msg: seq<Byte>, msgLen: nat, netOk: bool) returns (ok: bool)
      requires msgType < 0x1_0000 && (msgLen <= CV_OAM_PKT_MAX_LEN - CV_FRAME_HEADER_LEN ==> msgLen <= |msg|)
      modifies this`sent
      ensures ok == (msgLen <= CV_OAM_PKT_MAX_LEN - CV_FRAME_HEADER_LEN && netOk)
      ensures sent == old(sent) + if ok then [Frame(CV_OAM_FRAME_TYPE_CMD_MSG, msgType, msg[..msgLen])] else []
      ensures ok ==>
                var f := sent[|sent| - 1];
                Be16(f, 0) == 2 && Be16(f, 2) == msgType && f[CV_FRAME_HEADER_LEN..] == msg[..msgLen]
    {
      hide Frame, Be16;
      if msgLen > CV_OAM_PKT_MAX_LEN - CV_FRAME_HEADER_LEN {
        return false;
      }
      var pkt := FillPacket(CV_OAM_FRAME_TYPE_CMD_MSG, msgType, msg, msgLen);
      if !netOk {
        return false;
      }
      sent := sent + [pkt[..msgLen + CV_FRAME_HEADER_LEN]];
      return true;
    }

    /** `cv_oam_sdk_msg_handler` on a message in a receive buffer: answers in the request's own buffer. */
    method MsgHandler(msg: Message, netOk: bool)
      requires msg.Value().Wf() && |msg.data| == RECEIVE_ROOM
      modifies this`served, this`sent, msg
      ensures match Reply(cfg, old(served), old(msg.Value()))
              case None => msg.Value() == old(msg.Value()) && served == old(served) && sent == old(sent)
              case Some(m) =>
                && msg.Value() == m.(data := Overlaid(old(msg.data), m.data)) && served == old(served) + 1
                && sent == old(sent) + (if netOk then AnswerFrames(msg.Value()) else [])
                && (|m.data| <= RECEIVE_ROOM ==> AnswerFrames(msg.Value()) == [WholeAnswer(m)])
      ensures var s := Encode(old(msg.Value()));
              if Be16(s, 12) < cfg.maxId && Be16(s, 12) in cfg.handled then
                netOk && Be16(s, 14) <= RECEIVE_ROOM ==>
                  var f := WholeAnswer(Reply(cfg, old(served), old(msg.Value())).value);
                  sent == old(sent) + [f] && f[..4] == [0, 2, 0, 2] && Answers(cfg, old(served), s, f[4..])
              else msg.Value() == old(msg.Value()) && sent == old(sent)
    {
      hide Swap16, Swap32, ToNet, ToHost, Body, Handle, Frame, Encode;
      ReplyToMessage(cfg, served, msg.Value());
      NetworkFields(msg.Value());
      hide Answers, Be16;
      var sdkId, len := Swap16(msg.sdkId), Swap16(msg.len);
      if !cfg.Answered(sdkId) {
        return;
      }
      var a := Handle(cfg, sdkId, served, ToHost(cfg.server, sdkId, Body(msg.data, len)));
      served := served + 1;
      msg.ret := Swap32(a.ret);
      ghost var m := Msg(msg.ret, msg.reqId, msg.sdkId, msg.len, ToNet(cfg.server, sdkId, a.out));
      AnswerBytes(m);
      msg.data := Overlaid(msg.data, ToNet(cfg.server, sdkId, a.out));
      if len <= RECEIVE_ROOM {
        EncodedPrefix(m, msg.data[len..]);
        assert msg.data == m.data + msg.data[len..];
      }
      var ok := SendMsg(CV_OAM_L2_MSG_CMD_RSP, Encode(msg.Value()), (len + SDK_MSG_HEADER_LEN) % 0x1_0000, netOk);
    }
  }

  lemma EncodedPrefix(m: Msg, rest: seq<Byte>)
    requires m.Wf()
    ensures Encode(m.(data := m.data + rest))[..SDK_MSG_HEADER_LEN + |m.data|] == Encode(m)
  {
    hide Bytes16, Bytes32;
  }

  /** The frame of an answer reaches the client's dispatcher as the message the server sent. */
  lemma AnswerIsDispatched(cfg: Config, n: nat, m: Msg)
    requires m.Wf() && |m.data| <= RECEIVE_ROOM && Swap16(m.len) <= RECEIVE_ROOM
    ensures var pdu := InBuffer(WholeAnswer(m));
            && Dispatched(pdu, CV_OAM_L2_MSG_CMD_RSP) == Some(Landed(m))
            && HostOrder(cfg, Landed(m)) == HostOrder(cfg, m)
  {
    DispatchFrame(CV_OAM_FRAME_TYPE_CMD_MSG, CV_OAM_L2_MSG_CMD_RSP, m, CV_OAM_L2_MSG_CMD_RSP);
    LandedReadsTheSame(cfg, n, m);
  }

  /** So does the frame of a request reach the server's. */
  lemma RequestIsDispatched(cfg: Config, n: nat, m: Msg)
    requires m.Wf() && |m.data| <= RECEIVE_ROOM && Swap16(m.len) <= RECEIVE_ROOM
    ensures Dispatched(InBuffer(RequestFrame(m)), CV_OAM_L2_MSG_CMD_REQ) == Some(Landed(m))
    ensures Reply(cfg, n, Landed(m)) == Reply(cfg, n, m)
  {
    hide Frame, Encode, InBuffer, Dispatched, Landed, Reply, HostOrder, Swap16;
    assert Encode(m)[..SDK_MSG_HEADER_LEN + |m.data|] == Encode(m);
    assert RequestFrame(m) == Frame(CV_OAM_FRAME_TYPE_CMD_MSG, CV_OAM_L2_MSG_CMD_REQ, Encode(m));
    DispatchFrame(CV_OAM_FRAME_TYPE_CMD_MSG, CV_OAM_L2_MSG_CMD_REQ, m, CV_OAM_L2_MSG_CMD_REQ);
    LandedReadsTheSame(cfg, n, m);
  }
}
