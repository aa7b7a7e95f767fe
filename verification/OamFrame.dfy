/** OAM messages as bytes in a frame (app/oam/cmn/oam_sdk_cmn.h, app/oam/cmn/oam_cmn.h). */
module OamFrame {
  import opened Bits
  import opened Memory
  import opened OamTable
  import opened OamMessage

  const CV_OAM_FRAME_TYPE_CMD_MSG := 2
  const CV_OAM_L2_MSG_CMD_REQ := 1
  const CV_OAM_L2_MSG_CMD_RSP := 2

  /** A field in memory on a little-endian host. */
  function Bytes16(x: nat): (r: seq<Byte>)
    requires x < 0x1_0000
    ensures |r| == 2 && Le16(r, 0) == x
  {
    [x % 0x100, x / 0x100]
  }

  function Bytes32(x: nat): (r: seq<Byte>)
    requires x < WORD
    ensures |r| == 4 && Le32(r, 0) == x
  {
    var r := Bytes16(x % 0x1_0000) + Bytes16(x / 0x1_0000);
    assert Le32(r, 0) == Le16(Bytes16(x % 0x1_0000), 0) + 0x1_0000 * Le16(Bytes16(x / 0x1_0000), 0);
    r
  }

  /** The packed structure; its reserved field is not used. */
  function Encode(m: Msg): (r: seq<Byte>)
    requires m.Wf()
    ensures |r| == SDK_MSG_HEADER_LEN + |m.data|
  {
    Bytes32(m.ret) + Bytes32(m.reqId) + [0, 0, 0, 0] + Bytes16(m.sdkId) + Bytes16(m.len) + m.data
  }

  /** The same structure laid over the bytes of a buffer. */
  function Decode(s: seq<Byte>): (m: Msg)
    requires |s| >= SDK_MSG_HEADER_LEN
    ensures m.Wf()
  {
    Msg(Le32(s, 0), Le32(s, 4), Le16(s, 12), Le16(s, 14), s[16..])
  }

  lemma DecodeEncode(m: Msg, rest: seq<Byte>)
    requires m.Wf()
    ensures Decode(Encode(m) + rest) == m.(data := m.data + rest)
  {
    var s := Encode(m) + rest;
    var a, b, c, d := Bytes32(m.ret), Bytes32(m.reqId), Bytes16(m.sdkId), Bytes16(m.len);
    hide Bytes32, Bytes16;
    assert s[0..4] == a && s[4..8] == b && s[12..14] == c && s[14..16] == d && s[16..] == m.data + rest;
    SameLoads(s);
  }

  lemma SameLoads(s: seq<Byte>)
    requires |s| >= 16
    ensures Le32(s, 0) == Le32(s[0..4], 0) && Le32(s, 4) == Le32(s[4..8], 0)
    ensures Le16(s, 12) == Le16(s[12..14], 0) && Le16(s, 14) == Le16(s[14..16], 0)
  {
  }

  /** A frame: type and command in network order, then the message. */
  function Frame(frameType: nat, cmdType: nat, msg: seq<Byte>): (f: seq<Byte>)
    requires frameType < 0x1_0000 && cmdType < 0x1_0000
    ensures |f| == CV_FRAME_HEADER_LEN + |msg|
  {
    Bytes16(Swap16(frameType)) + Bytes16(Swap16(cmdType)) + msg
  }

  function Zeros(n: nat): (r: seq<Byte>)
    ensures |r| == n
  {
    seq(n, _ => 0)
  }

  /** A buffer of the receiver, cleared and then filled by `recv`. */
  function InBuffer(frame: seq<Byte>): (pdu: seq<Byte>)
    requires |frame| <= CV_OAM_PKT_MAX_LEN
    ensures |pdu| == CV_OAM_PKT_MAX_LEN
  {
    frame + Zeros(CV_OAM_PKT_MAX_LEN - |frame|)
  }

  /** `cv_oam_proc` for responses, and the server's counterpart for requests: the message, if the types say so. */
  function Dispatched(pdu: seq<Byte>, cmdType: nat): (m: Option<Msg>)
    requires |pdu| == CV_OAM_PKT_MAX_LEN
    ensures m.Some? ==> m.value.Wf() && |m.value.data| == RECEIVE_ROOM
  {
    if Swap16(Le16(pdu, 0)) == CV_OAM_FRAME_TYPE_CMD_MSG && Swap16(Le16(pdu, 2)) == cmdType
    then Some(Decode(pdu[CV_FRAME_HEADER_LEN..]))
    else None
  }

  /** A message in a cleared receive buffer. */
  function Landed(m: Msg): (r: Msg)
    requires |m.data| <= RECEIVE_ROOM
    ensures |r.data| == RECEIVE_ROOM
  {
    m.(data := m.data + Zeros(RECEIVE_ROOM - |m.data|))
  }

  /** What was put in a frame is what the dispatcher takes out, for its own command type only. */
  lemma DispatchFrame(frameType: nat, cmdType: nat, m: Msg, wanted: nat)
    requires frameType < 0x1_0000 && cmdType < 0x1_0000 && m.Wf() && |m.data| <= RECEIVE_ROOM
    ensures Dispatched(InBuffer(Frame(frameType, cmdType, Encode(m))), wanted) ==
            if frameType == CV_OAM_FRAME_TYPE_CMD_MSG && cmdType == wanted then Some(Landed(m)) else None
  {
    var body, zeros := Encode(m), Zeros(RECEIVE_ROOM - |m.data|);
    var a, b := Bytes16(Swap16(frameType)), Bytes16(Swap16(cmdType));
    Swap16Twice(frameType);
    Swap16Twice(cmdType);
    PacketIs(frameType, cmdType, body);
    var pdu := InBuffer(Frame(frameType, cmdType, body));
    DecodeEncode(m, zeros);
    assert Landed(m) == m.(data := m.data + zeros) && pdu == a + b + (body + zeros);
    assert Le16(a, 0) == Swap16(frameType) && Le16(b, 0) == Swap16(cmdType);
    hide Swap16, Bytes16, Encode, Decode, InBuffer, Frame, Dispatched, Zeros, Landed, Le16;
    DispatchedParts(a, b, body + zeros, wanted);
  }

  lemma DispatchedParts(a: seq<Byte>, b: seq<Byte>, rest: seq<Byte>, wanted: nat)
    requires |a| == |b| == 2 && |rest| == CV_OAM_PKT_MAX_LEN - CV_FRAME_HEADER_LEN
    ensures Dispatched(a + b + rest, wanted) ==
            if Swap16(Le16(a, 0)) == CV_OAM_FRAME_TYPE_CMD_MSG && Swap16(Le16(b, 0)) == wanted then Some(Decode(rest)) else None
  {
    HeaderLoads(a, b, rest);
    hide Swap16, Le16, Decode;
  }

  lemma PacketIs(frameType: nat, cmdType: nat, body: seq<Byte>)
    requires frameType < 0x1_0000 && cmdType < 0x1_0000 && |body| <= CV_OAM_PKT_MAX_LEN - CV_FRAME_HEADER_LEN
    ensures InBuffer(Frame(frameType, cmdType, body)) ==
            Bytes16(Swap16(frameType)) + Bytes16(Swap16(cmdType)) +
            (body + Zeros(CV_OAM_PKT_MAX_LEN - CV_FRAME_HEADER_LEN - |body|))
  {
    hide Swap16, Bytes16, Zeros;
  }

  lemma HeaderLoads(a: seq<Byte>, b: seq<Byte>, rest: seq<Byte>)
    requires |a| == |b| == 2
    ensures var s := a + b + rest; Le16(s, 0) == Le16(a, 0) && Le16(s, 2) == Le16(b, 0) && s[4..] == rest
  {
  }

  /** Types in network order, then the message. */
  lemma FrameTypes(frameType: nat, cmdType: nat, msg: seq<Byte>)
    requires frameType < 0x1_0000 && cmdType < 0x1_0000
    ensures var f := Frame(frameType, cmdType, msg);
            Be16(f, 0) == frameType && Be16(f, 2) == cmdType && f[CV_FRAME_HEADER_LEN..] == msg
  {
    var a, b := Bytes16(Swap16(frameType)), Bytes16(Swap16(cmdType));
    var f := Frame(frameType, cmdType, msg);
    Swap16Twice(frameType);
    Swap16Twice(cmdType);
    BigEndian16(f, 0);
    BigEndian16(f, 2);
    HeaderLoads(a, b, msg);
    assert f == a + b + msg;
    hide Swap16, Bytes16, Le16, Be16, Frame;
  }

  /** The zeros behind a message change neither its host order nor the answer to it. */
  lemma LandedReadsTheSame(cfg: Config, n: nat, m: Msg)
    requires m.Wf() && |m.data| <= RECEIVE_ROOM && Swap16(m.len) <= RECEIVE_ROOM
    ensures HostOrder(cfg, Landed(m)) == HostOrder(cfg, m)
    ensures Reply(cfg, n, Landed(m)) == Reply(cfg, n, m)
  {
    assert Body(Landed(m).data, Swap16(m.len)) == Body(m.data, Swap16(m.len));
    hide Body, Swap16, Swap32, ToHost, ToNet, Handle;
  }

  /**
   * `cv_oam_client_send_msg` and `cv_oam_send_msg` fill a cleared packet; what they send are its
   * first bytes.
   */
  method FillPacket(frameType: nat, cmdType: nat, msg: seq<Byte>, msgLen: nat) returns (pkt: array<Byte>)
    requires frameType < 0x1_0000 && cmdType < 0x1_0000
    requires msgLen <= CV_OAM_PKT_MAX_LEN - CV_FRAME_HEADER_LEN && msgLen <= |msg|
    ensures fresh(pkt) && pkt.Length == CV_OAM_PKT_MAX_LEN
    ensures pkt[..CV_FRAME_HEADER_LEN + msgLen] == Frame(frameType, cmdType, msg[..msgLen])
    ensures var f := pkt[..CV_FRAME_HEADER_LEN + msgLen];
            Be16(f, 0) == frameType && Be16(f, 2) == cmdType && f[CV_FRAME_HEADER_LEN..] == msg[..msgLen]
  {
    FrameTypes(frameType, cmdType, msg[..msgLen]);
    var a, b := Bytes16(Swap16(frameType)), Bytes16(Swap16(cmdType));
    hide Swap16, Bytes16, Le16, Be16;
    pkt := Filled(a, b, msg[..msgLen]);
  }

  method Filled(a: seq<Byte>, b: seq<Byte>, msg: seq<Byte>) returns (pkt: array<Byte>)
    requires |a| == |b| == 2 && |msg| <= CV_OAM_PKT_MAX_LEN - CV_FRAME_HEADER_LEN
    ensures fresh(pkt) && pkt.Length == CV_OAM_PKT_MAX_LEN && pkt[..CV_FRAME_HEADER_LEN + |msg|] == a + b + msg
  {
    pkt := new Byte[CV_OAM_PKT_MAX_LEN](_ => 0);
    Copy(pkt, 0, a);
    Copy(pkt, 2, b);
    Copy(pkt, CV_FRAME_HEADER_LEN, msg);
    PacketFront(pkt[..], a, b, msg);
    assert pkt[..CV_FRAME_HEADER_LEN + |msg|] == pkt[..][..CV_FRAME_HEADER_LEN + |msg|];
  }

  lemma PacketFront(pkt: seq<Byte>, a: seq<Byte>, b: seq<Byte>, msg: seq<Byte>)
    requires |a| == |b| == 2 && 4 + |msg| <= |pkt|
    requires pkt[0] == a[0] && pkt[1] == a[1] && pkt[2] == b[0] && pkt[3] == b[1]
    requires forall i | 0 <= i < |msg| :: pkt[4 + i] == msg[i]
    ensures pkt[..4 + |msg|] == a + b + msg
  {
  }
}
