/**
 * What goes over the wire and comes off it, in terms of the bytes, the configured conversions and the
 * configured handlers.
 */
module OamWire {
  import opened Bits
  import opened OamTable
  import opened OamMessage
  import opened OamFrame

  function RequestFrame(m: Msg): seq<Byte>
    requires m.Wf()
  {
    Frame(CV_OAM_FRAME_TYPE_CMD_MSG, CV_OAM_L2_MSG_CMD_REQ, Encode(m)[..(SDK_MSG_HEADER_LEN + |m.data|) % 0x1_0000])
  }

  /** What the server sends of an answer in its receive buffer: the length field says how much, in 16 bits. */
  function AnswerFrames(m: Msg): seq<seq<Byte>>
    requires m.Wf() && |m.data| == RECEIVE_ROOM
  {
    var msgLen := (Swap16(m.len) + SDK_MSG_HEADER_LEN) % 0x1_0000;
    if msgLen > CV_OAM_PKT_MAX_LEN - CV_FRAME_HEADER_LEN then []
    else [Frame(CV_OAM_FRAME_TYPE_CMD_MSG, CV_OAM_L2_MSG_CMD_RSP, Encode(m)[..msgLen])]
  }

  function WholeAnswer(m: Msg): seq<Byte>
    requires m.Wf()
  {
    Frame(CV_OAM_FRAME_TYPE_CMD_MSG, CV_OAM_L2_MSG_CMD_RSP, Encode(m))
  }

  lemma DecodesBack(m: Msg)
    requires m.Wf()
    ensures Decode(Encode(m)) == m
  {
    DecodeEncode(m, []);
    assert Encode(m) + [] == Encode(m) && m.data + [] == m.data;
    hide Encode, Decode;
  }

  /** Where the fields of a message lie in memory. */
  lemma MessageFields(m: Msg)
    requires m.Wf()
    ensures var s := Encode(m);
            && Le32(s, 0) == m.ret && Le32(s, 4) == m.reqId && Le16(s, 12) == m.sdkId && Le16(s, 14) == m.len
            && s[16..] == m.data
  {
    DecodesBack(m);
    hide Encode;
  }

  /** The same, as the network reads them. */
  lemma NetworkFields(m: Msg)
    requires m.Wf()
    ensures var s := Encode(m);
            && Be32(s, 0) == Swap32(m.ret) && Be32(s, 4) == Swap32(m.reqId)
            && Be16(s, 12) == Swap16(m.sdkId) && Be16(s, 14) == Swap16(m.len)
  {
    var s := Encode(m);
    MessageFields(m);
    BigEndian32(s, 0);
    BigEndian32(s, 4);
    BigEndian16(s, 12);
    BigEndian16(s, 14);
    hide Encode, Le16, Le32, Be16, Be32, Swap16, Swap32;
  }

  /**
   * A request on the wire: command message and request, code 0, then the id, the `sdk_id` and the
   * length in network order, then the data as the client's table converts it.
   */
  predicate OnWire(cfg: Config, c: Call, id: nat, f: seq<Byte>)
  {
    && |f| == 20 + |c.data| && f[..4] == [0, 2, 0, 1] && f[4..8] == [0, 0, 0, 0]
    && Be32(f, 8) == id && Be16(f, 16) == c.sdkId && Be16(f, 18) == |c.data|
    && (|cfg.client.hton(c.sdkId, c.data)| == |c.data| ==> f[20..] == cfg.client.hton(c.sdkId, c.data))
  }

  lemma RequestBytes(cfg: Config, c: Call, id: nat)
    requires c.Wf(cfg) && id < WORD && SDK_MSG_HEADER_LEN + |c.data| < 0x1_0000
    ensures OnWire(cfg, c, id, RequestFrame(Outgoing(cfg, c, id)))
  {
    hide Outgoing, RequestFrame, OnWire, Encode, Frame, Swap16, Swap32;
    var m := Outgoing(cfg, c, id);
    OutgoingIs(cfg, c, id);
    WholeRequest(m);
    PreparedOnWire(cfg, c, id, m);
  }

  lemma PreparedOnWire(cfg: Config, c: Call, id: nat, m: Msg)
    requires c.Wf(cfg) && id < WORD && m.Wf() && |m.data| == |c.data|
    requires m.ret == 0 && m.reqId == Swap32(id) && m.sdkId == Swap16(c.sdkId) && m.len == Swap16(|c.data|)
    requires |cfg.client.hton(c.sdkId, c.data)| == |c.data| ==> m.data == cfg.client.hton(c.sdkId, c.data)
    ensures OnWire(cfg, c, id, Frame(CV_OAM_FRAME_TYPE_CMD_MSG, CV_OAM_L2_MSG_CMD_REQ, Encode(m)))
  {
    hide Encode, Frame, Be16, Be32, Le16, Le32, OnWire, Swap32, Swap16;
    var s := Encode(m);
    FrameTypes(CV_OAM_FRAME_TYPE_CMD_MSG, CV_OAM_L2_MSG_CMD_REQ, s);
    MessageFields(m);
    NetworkFields(m);
    Swap32Twice(id);
    Swap16Twice(c.sdkId);
    Swap16Twice(|c.data|);
    BytesOnWire(cfg, c, id, Frame(CV_OAM_FRAME_TYPE_CMD_MSG, CV_OAM_L2_MSG_CMD_REQ, s), s);
  }

  lemma BytesOnWire(cfg: Config, c: Call, id: nat, f: seq<Byte>, s: seq<Byte>)
    requires |s| == 16 + |c.data| && |f| == |s| + 4 && Be16(f, 0) == 2 && Be16(f, 2) == 1 && f[4..] == s
    requires Le32(s, 0) == 0 && Be32(s, 4) == id && Be16(s, 12) == c.sdkId && Be16(s, 14) == |c.data|
    requires |cfg.client.hton(c.sdkId, c.data)| == |c.data| ==> s[16..] == cfg.client.hton(c.sdkId, c.data)
    ensures OnWire(cfg, c, id, f)
  {
    TwoTypes(f, 2, 1);
    ZeroField(s);
    assert f[20..] == s[16..] && f[4..8] == s[..4];
    assert forall i | 0 <= i < |s| :: f[4 + i] == s[i];
  }

  /** Below 65520 bytes of data the whole message is sent. */
  lemma WholeRequest(m: Msg)
    requires m.Wf() && SDK_MSG_HEADER_LEN + |m.data| < 0x1_0000
    ensures RequestFrame(m) == Frame(CV_OAM_FRAME_TYPE_CMD_MSG, CV_OAM_L2_MSG_CMD_REQ, Encode(m))
  {
    var s := Encode(m);
    hide Encode, Frame;
    assert s[..SDK_MSG_HEADER_LEN + |m.data|] == s;
  }

  lemma OutgoingIs(cfg: Config, c: Call, id: nat)
    requires c.Wf(cfg) && id < WORD
    ensures Outgoing(cfg, c, id).sdkId == Swap16(c.sdkId)
    ensures |cfg.client.hton(c.sdkId, c.data)| == |c.data| ==>
              Outgoing(cfg, c, id).data == cfg.client.hton(c.sdkId, c.data)
  {
    hide Swap16, Swap32;
  }

  lemma TwoTypes(f: seq<Byte>, a: Byte, b: Byte)
    requires |f| >= 4 && Be16(f, 0) == a && Be16(f, 2) == b
    ensures f[..4] == [0, a, 0, b]
  {
  }

  lemma ZeroField(s: seq<Byte>)
    requires |s| >= 4
    ensures Le32(s, 0) == 0 <==> s[..4] == [0, 0, 0, 0]
  {
  }

  /** The fields of a message in a buffer, as the network reads them. */
  lemma DecodedFields(s: seq<Byte>)
    requires |s| >= SDK_MSG_HEADER_LEN
    ensures var m := Decode(s);
            && Swap32(m.ret) == Be32(s, 0) && Swap32(m.reqId) == Be32(s, 4) && m.reqId == Le32(s, 4)
            && Swap16(m.sdkId) == Be16(s, 12) && Swap16(m.len) == Be16(s, 14) && m.data == s[16..]
  {
    BigEndian32(s, 0);
    BigEndian32(s, 4);
    BigEndian16(s, 12);
    BigEndian16(s, 14);
    hide Le16, Le32, Be16, Be32, Swap16, Swap32;
  }

  /**
   * A code and data sent back for a request with this body: those of the configured handler, given
   * the body as the server's table converts it, the data converted again.
   */
  predicate Served(cfg: Config, n: nat, id: nat, body: seq<Byte>, code: nat, data: seq<Byte>)
  {
    var d := cfg.server.ntoh(id, body);
    |d| == |body| ==>
      var a := cfg.handler(id, n, d);
      a.ret < WORD && |a.out| == |body| ==>
        && code == a.ret
        && (|cfg.server.hton(id, a.out)| == |body| ==> data == cfg.server.hton(id, a.out))
  }

  lemma ReplyServes(cfg: Config, n: nat, m: Msg, id: nat, len: nat)
    requires m.Wf() && id == Swap16(m.sdkId) && len == Swap16(m.len)
    ensures var r := Reply(cfg, n, m);
            && (r.Some? <==> id < cfg.maxId && id in cfg.handled)
            && (r.Some? && len <= |m.data| ==> Served(cfg, n, id, m.data[..len], Swap32(r.value.ret), r.value.data))
  {
    hide Swap16, Swap32, Body;
    if cfg.Answered(id) && len <= |m.data| {
      var body := m.data[..len];
      assert Body(m.data, len) == body;
      var a := Handle(cfg, id, n, ToHost(cfg.server, id, body));
      Swap32Twice(a.ret);
      ServedBy(cfg, n, id, body);
    }
  }

  lemma ServedBy(cfg: Config, n: nat, id: nat, body: seq<Byte>)
    ensures var a := Handle(cfg, id, n, ToHost(cfg.server, id, body));
            Served(cfg, n, id, body, a.ret, ToNet(cfg.server, id, a.out))
  {
  }

  /**
   * The server on the bytes of a request: it answers exactly the ids it has a handler for, under the
   * id, the `sdk_id` and the length it was asked with.
   */
  lemma ReplyBytes(cfg: Config, n: nat, s: seq<Byte>)
    requires |s| >= SDK_MSG_HEADER_LEN
    ensures var id, len, r := Be16(s, 12), Be16(s, 14), Reply(cfg, n, Decode(s));
            && (r.Some? <==> id < cfg.maxId && id in cfg.handled)
            && (r.Some? ==> Answers(cfg, n, s, Encode(r.value)))
  {
    hide Reply, Decode, Encode, Served, Be16, Be32, Le16, Le32, Swap16, Swap32;
    var m := Decode(s);
    DecodedFields(s);
    ReplyServes(cfg, n, m, Be16(s, 12), Be16(s, 14));
    var r := Reply(cfg, n, m);
    if r.Some? {
      MessageFields(r.value);
      NetworkFields(r.value);
      if 16 + Be16(s, 14) <= |s| {
        assert s[16..][..Be16(s, 14)] == s[16..16 + Be16(s, 14)];
      }
    }
  }

  /** `t` is an answer to the request `s`. */
  predicate Answers(cfg: Config, n: nat, s: seq<Byte>, t: seq<Byte>)
    requires |s| >= SDK_MSG_HEADER_LEN && |t| >= SDK_MSG_HEADER_LEN
  {
    var id, len := Be16(s, 12), Be16(s, 14);
    && |t| == 16 + len && Be32(t, 4) == Be32(s, 4) && Be16(t, 12) == id && Be16(t, 14) == len
    && (16 + len <= |s| ==> Served(cfg, n, id, s[16..16 + len], Be32(t, 0), t[16..]))
  }

  /** The frame of an answer is a command message and a response. */
  lemma AnswerBytes(m: Msg)
    requires m.Wf()
    ensures WholeAnswer(m)[..4] == [0, 2, 0, 2] && WholeAnswer(m)[4..] == Encode(m)
  {
    hide Encode, Frame;
    FrameTypes(CV_OAM_FRAME_TYPE_CMD_MSG, CV_OAM_L2_MSG_CMD_RSP, Encode(m));
    TwoTypes(WholeAnswer(m), 2, 2);
  }

  /** A response as the caller reads it: numbers in host order, the data as the client's table converts it. */
  lemma HostOrderBytes(cfg: Config, s: seq<Byte>)
    requires |s| >= SDK_MSG_HEADER_LEN
    ensures Hosts(cfg, s, HostOrder(cfg, Decode(s)))
  {
    hide Decode, Be16, Be32, Le16, Le32, Swap16, Swap32;
    DecodedFields(s);
    var len := Be16(s, 14);
    if 16 + len <= |s| {
      assert s[16..][..len] == s[16..16 + len];
      assert Body(s[16..], len) == s[16..16 + len];
    }
    hide Body;
  }

  predicate Hosts(cfg: Config, s: seq<Byte>, host: Msg)
    requires |s| >= SDK_MSG_HEADER_LEN
  {
    var id, len := Be16(s, 12), Be16(s, 14);
    && host.ret == Be32(s, 0) && host.reqId == Le32(s, 4) && host.sdkId == id && host.len == len
    && (16 + len <= |s| && |cfg.client.ntoh(id, s[16..16 + len])| == len ==>
          host.data == cfg.client.ntoh(id, s[16..16 + len]))
  }

  /** The same for messages that are at hand as structures. */
  lemma ReplyToMessage(cfg: Config, n: nat, m: Msg)
    requires m.Wf()
    ensures var s, r := Encode(m), Reply(cfg, n, m);
            && (r.Some? <==> Be16(s, 12) < cfg.maxId && Be16(s, 12) in cfg.handled)
            && (r.Some? ==> Answers(cfg, n, s, Encode(r.value)))
  {
    DecodesBack(m);
    ReplyBytes(cfg, n, Encode(m));
    hide Encode, Decode, Reply, Answers, Be16;
  }

  lemma HostOrderOfMessage(cfg: Config, m: Msg)
    requires m.Wf()
    ensures Hosts(cfg, Encode(m), HostOrder(cfg, m))
  {
    DecodesBack(m);
    HostOrderBytes(cfg, Encode(m));
    hide Encode, Decode, HostOrder, Hosts;
  }
}
