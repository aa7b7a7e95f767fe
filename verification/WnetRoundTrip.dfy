/** What the sending and the receiving half of the stack do together. */
module WnetRoundTrip {
  import opened Bits
  import opened Memory
  import opened Radiotap
  import opened WnetFormat
  import opened WnetStack
  import Bpf
  import BpfAssembler
  import MonitorFilter

  /** A radiotap header as some receiver's driver puts it in front of a frame. */
  ghost predicate ValidRadiotap(rtap: seq<Byte>)
  {
    |rtap| >= FIXED_LEN && Le16(rtap, 2) == |rtap| && Acceptable(rtap, |rtap|)
  }

  /** Reading a header depends on the header's own bytes only. */
  lemma AcceptablePrefix(rtap: seq<Byte>, rest: seq<Byte>, len: nat)
    requires ValidRadiotap(rtap) && |rtap| <= len <= |rtap + rest|
    ensures Acceptable(rtap + rest, len) && Le16(rtap + rest, 2) == |rtap|
  {
    var buf := rtap + rest;
    assert buf[2] == rtap[2] && buf[3] == rtap[3];
    var words: nat :| ChainEnds(rtap, |rtap|, words);
    forall w: nat | w < words
      ensures 8 + 4 * w <= |rtap| && Present(buf, w, EXT) == Present(rtap, w, EXT)
    {
      assert Word(buf, w) == Word(rtap, w);
      hide Bit;
    }
    hide Bit, Word;
    assert ChainEnds(buf, |rtap|, words);
  }

  /** A received buffer: radiotap header, frame, trailing bytes such as a checksum, stale bytes. */
  ghost predicate Holds(buf: seq<Byte>, len: nat, rtap: seq<Byte>, frame: seq<Byte>)
  {
    && |buf| == RECV_LENGTH && ValidRadiotap(rtap)
    && |rtap + frame| == len <= |buf| && buf[..len] == rtap + frame
  }

  lemma StripsTo(mac: Mac, buf: seq<Byte>, len: nat, rtap: seq<Byte>, frame: seq<Byte>)
    requires Holds(buf, len, rtap, frame) && |frame| >= 40
    ensures Strip(mac, buf, len) == if !Ours(mac, frame, 0) then NotOurs else Cut(buf, len, |rtap|)
  {
    assert buf == rtap + buf[|rtap|..];
    AcceptablePrefix(rtap, buf[|rtap|..], len);
    var h := |rtap|;
    assert buf[h + 16..h + 22] == frame[16..22];
    assert buf[h + 10..h + 16] == frame[10..16];
  }

  lemma HeaderFields(mac: Mac, rest: seq<Byte>)
    ensures var f := MacHeader(mac) + rest; f[10..16] == mac && f[16..22] == BSSID_FOR_V2V
  {
  }

  lemma FrameBytes(buf: seq<Byte>, len: nat, rtap: seq<Byte>, frame: seq<Byte>)
    requires Holds(buf, len, rtap, frame) && |frame| >= 40
    ensures var h := |rtap|;
            && buf[h + 10..h + 16] == frame[10..16] && buf[h + 24..h + 32] == frame[24..32]
            && buf[h + 38] == frame[38] && buf[h + 38..len] == frame[38..] && buf[h + 40..len] == frame[40..]
  {
    hide Acceptable;
    var h := |rtap|;
    assert forall i | 0 <= i < |frame| :: buf[h + i] == buf[..len][h + i] == frame[i];
  }

  /** A frame in the RSU layout, from another station, is stripped to the packet and the trailer. */
  lemma StripsRsu(mac: Mac, buf: seq<Byte>, len: nat, rtap: seq<Byte>, sender: Mac, packet: seq<Byte>)
    requires Holds(buf, len, rtap, RsuFrame(sender, packet)) && sender != mac
    requires 2 <= |packet| <= WNET_MQ_MSG_SIZE && packet[0] == LLC_SAP
    ensures Strip(mac, buf, len) == Data(sender, packet)
  {
    var frame := RsuFrame(sender, packet);
    assert frame == MacHeader(sender) + (BEACON_FIXED_ELEMENT + packet);
    HeaderFields(sender, BEACON_FIXED_ELEMENT + packet);
    StripsTo(mac, buf, len, rtap, frame);
    var h := |rtap|;
    FrameBytes(buf, len, rtap, frame);
    assert frame[38..] == packet;
  }

  /** So is a frame in the OBU layout, although its LLC header comes first and is moved in place. */
  lemma StripsObu(mac: Mac, buf: seq<Byte>, len: nat, rtap: seq<Byte>, sender: Mac, packet: seq<Byte>,
                  filler: seq<Byte>, elementLen: Byte)
    requires 8 <= |packet| <= WNET_MQ_MSG_SIZE && |filler| == 6
    requires Holds(buf, len, rtap, ObuFrame(sender, packet, filler, elementLen)) && sender != mac
    ensures Strip(mac, buf, len) == Data(sender, packet)
  {
    var frame := ObuFrame(sender, packet, filler, elementLen);
    ObuFields(sender, packet, filler, elementLen);
    hide ObuFrame;
    StripsTo(mac, buf, len, rtap, frame);
    var h := |rtap|;
    FrameBytes(buf, len, rtap, frame);
    assert (buf[h + 24..h + 32] + buf[h + 40..])[..len - h - 32] == packet[..8] + packet[8..];
  }

  lemma ObuFields(sender: Mac, packet: seq<Byte>, filler: seq<Byte>, elementLen: Byte)
    requires |packet| >= 8 && |filler| == 6
    ensures var f := ObuFrame(sender, packet, filler, elementLen);
            && |f| == |packet| + 32 && f[10..16] == sender && f[16..22] == BSSID_FOR_V2V
            && f[24..32] == packet[..8] && f[38] == ELEMENT_ID_OBU && f[40..] == packet[8..]
  {
    var rest := packet[..8] + filler + [ELEMENT_ID_OBU, elementLen] + packet[8..];
    var f := ObuFrame(sender, packet, filler, elementLen);
    assert f == MacHeader(sender) + rest;
    HeaderFields(sender, rest);
    assert f[24..] == rest;
    assert f[24..32] == rest[..8];
    assert f[38] == rest[14];
    assert f[40..] == rest[16..];
  }

  /** Two wire layouts, one meaning. */
  lemma LayoutsAgree(mac: Mac, rsu: seq<Byte>, rsuLen: nat, obu: seq<Byte>, obuLen: nat,
                     rtap: seq<Byte>, rtap': seq<Byte>, sender: Mac, packet: seq<Byte>,
                     filler: seq<Byte>, elementLen: Byte)
    requires 8 <= |packet| <= WNET_MQ_MSG_SIZE && packet[0] == LLC_SAP && |filler| == 6 && sender != mac
    requires Holds(rsu, rsuLen, rtap, RsuFrame(sender, packet))
    requires Holds(obu, obuLen, rtap', ObuFrame(sender, packet, filler, elementLen))
    ensures Strip(mac, rsu, rsuLen) == Strip(mac, obu, obuLen)
  {
    StripsRsu(mac, rsu, rsuLen, rtap, sender, packet);
    StripsObu(mac, obu, obuLen, rtap', sender, packet, filler, elementLen);
  }

  /** The upper layers deliver the payload exactly when headers, payload and trailer fit the buffer. */
  lemma DeliversIff(reserved: seq<Byte>, payload: seq<Byte>, trailer: seq<Byte>)
    requires |reserved| == 2
    ensures Deliver(Packet(reserved, payload) + trailer) == Payload(payload) <==>
            20 + |payload| + |trailer| <= RXBUF_LENGTH
  {
    var data := Packet(reserved, payload) + trailer;
    if |data| <= RXBUF_LENGTH {
      var rx := data + seq(RXBUF_LENGTH - |data|, _ => 0);
      assert rx[6] == 0x88 && rx[7] == 0xE2 && rx[9] == 0;
      assert rx[13] == 0 && rx[14] == 0 && rx[15] == 0 && rx[16] == 20 && rx[17] == 128;
      assert Be16(rx, 18) == |payload|;
      assert rx[20..20 + |payload|] == payload;
    }
  }

  /**
   * Send, then receive: any payload that fits, from another station, behind any radiotap header
   * and before any trailing bytes, arrives as it was sent.
   */
  lemma RoundTrip(mac: Mac, sender: Mac, reserved: seq<Byte>, payload: seq<Byte>,
                  rtap: seq<Byte>, trailer: seq<Byte>, buf: seq<Byte>, len: nat)
    requires |reserved| == 2 && sender != mac
    requires Holds(buf, len, rtap, RsuFrame(sender, Packet(reserved, payload)) + trailer)
    requires 20 + |payload| + |trailer| <= RXBUF_LENGTH
    ensures var s := Strip(mac, buf, len);
            s.Data? && s.src == sender && Deliver(s.bytes) == Payload(payload)
  {
    var packet := Packet(reserved, payload) + trailer;
    assert RsuFrame(sender, Packet(reserved, payload)) + trailer == RsuFrame(sender, packet);
    StripsRsu(mac, buf, len, rtap, sender, packet);
    DeliversIff(reserved, payload, trailer);
  }

  /** Frames of this station and of other networks are skipped. */
  ghost predicate Skippable(mac: Mac, message: seq<Byte>)
  {
    exists n: nat :: n <= |message| && SkippedBehind(mac, message, n)
  }

  ghost predicate SkippedBehind(mac: Mac, message: seq<Byte>, n: nat)
    requires n <= |message|
  {
    && ValidRadiotap(message[..n]) && n + 22 <= |message| <= RECV_LENGTH
    && !Ours(mac, message, n)
  }

  lemma SkippableIsSkipped(mac: Mac, message: seq<Byte>, buf: seq<Byte>)
    requires |buf| == RECV_LENGTH && Skippable(mac, message)
    ensures Strip(mac, Received(buf, message), ReceivedLength(message)) == NotOurs
  {
    var n: nat :| n <= |message| && SkippedBehind(mac, message, n);
    var b, rtap := Received(buf, message), message[..n];
    assert b == rtap + b[n..];
    AcceptablePrefix(rtap, b[n..], |message|);
    assert b[n + 16..n + 22] == message[n + 16..n + 22] && b[n + 10..n + 16] == message[n + 10..n + 16];
  }

  /** A station never hears itself: its own frames are skipped. */
  lemma OwnFramesSkipped(mac: Mac, packet: seq<Byte>, rtap: seq<Byte>)
    requires ValidRadiotap(rtap) && |rtap + RsuFrame(mac, packet)| <= RECV_LENGTH
    ensures Skippable(mac, rtap + RsuFrame(mac, packet))
  {
    var n, rest := |rtap|, BEACON_FIXED_ELEMENT + packet;
    var message := rtap + RsuFrame(mac, packet);
    assert RsuFrame(mac, packet) == MacHeader(mac) + rest;
    HeaderFields(mac, rest);
    assert message[..n] == rtap && message[n + 10..n + 16] == RsuFrame(mac, packet)[10..16];
    assert SkippedBehind(mac, message, n);
  }

  /** Whatever the buffer held, skipped messages leave the next one to decide. */
  lemma {:induction false} RecvSkips(mac: Mac, buf: seq<Byte>, before: seq<seq<Byte>>, message: seq<Byte>,
                                     after: seq<seq<Byte>>, s: Stripped)
    requires |buf| == RECV_LENGTH && !s.NotOurs? && forall i | 0 <= i < |before| :: Skippable(mac, before[i])
    requires forall b: seq<Byte> | |b| == RECV_LENGTH ::
               Strip(mac, Received(b, message), ReceivedLength(message)) == s
    ensures RecvFrom(mac, buf, before + [message] + after) == s
    decreases |before|
  {
    hide Strip, Received, Skippable;
    var stream := before + [message] + after;
    if before == [] {
      assert stream[0] == message;
    } else {
      assert stream[0] == before[0] && stream[1..] == before[1..] + [message] + after;
      SkippableIsSkipped(mac, before[0], buf);
      RecvSkips(mac, Received(buf, before[0]), before[1..], message, after, s);
    }
  }

  /**
   * End to end: in any stream, behind skipped messages and over whatever the buffer held, the frame
   * of another station comes out as its payload.
   */
  lemma StreamDelivers(mac: Mac, sender: Mac, reserved: seq<Byte>, payload: seq<Byte>, rtap: seq<Byte>, trailer: seq<Byte>,
                       before: seq<seq<Byte>>, after: seq<seq<Byte>>, buf: seq<Byte>)
    requires |reserved| == 2 && sender != mac && |buf| == RECV_LENGTH && ValidRadiotap(rtap)
    requires forall i | 0 <= i < |before| :: Skippable(mac, before[i])
    requires |rtap| + 58 + |payload| + |trailer| <= RECV_LENGTH && 20 + |payload| + |trailer| <= RXBUF_LENGTH
    ensures var message := rtap + RsuFrame(sender, Packet(reserved, payload)) + trailer;
            var s := RecvFrom(mac, buf, before + [message] + after);
            s == Data(sender, Packet(reserved, payload) + trailer) && Deliver(s.bytes) == Payload(payload)
  {
    var frame, packet := RsuFrame(sender, Packet(reserved, payload)), Packet(reserved, payload) + trailer;
    var message := rtap + frame + trailer;
    forall b: seq<Byte> | |b| == RECV_LENGTH
      ensures Strip(mac, Received(b, message), ReceivedLength(message)) == Data(sender, packet)
    {
      assert message == rtap + RsuFrame(sender, packet);
      assert Received(b, message)[..|message|] == message;
      StripsRsu(mac, Received(b, message), |message|, rtap, sender, packet);
    }
    hide Strip, Received, Skippable;
    RecvSkips(mac, buf, before, message, after, Data(sender, packet));
    DeliversIff(reserved, payload, trailer);
  }

  /** The header in front of injected frames is a radiotap header, with the frame right behind it. */
  lemma TxRadiotapIsValid(encrypt: bool, noack: bool)
    ensures ValidRadiotap(TxRadiotap(encrypt, noack))
  {
    var h := TxRadiotap(encrypt, noack);
    assert Word(h, 0) == 0xC002 < Pow2(16) by { assert Pow2(4) == 16 && Pow2(8) == 16 * Pow2(4) && Pow2(12) == 16 * Pow2(8); }
    BitBeyond(0xC002, 16, EXT);
    assert ChainEnds(h, 14, 1);
  }

  /**
   * The two halves of the stack put together: what `wnet_send` hands to one station's socket, behind
   * another station's radiotap header, comes out of that station's receive path as the payload.
   */
  method Exchange(from: Driver, to: Driver, payload: seq<Byte>, noack: bool, rtap: seq<Byte>, trailer: seq<Byte>,
                  before: seq<seq<Byte>>, after: seq<seq<Byte>>)
    returns (d: Delivered, ghost src: Mac)
    requires from.monitorSock > 0 && from.mac != to.mac && ValidRadiotap(rtap)
    requires HEADROOM + |payload| <= TXBUF_LENGTH && forall i | 0 <= i < |before| :: Skippable(to.mac, before[i])
    requires |rtap| + 58 + |payload| + |trailer| <= RECV_LENGTH && 20 + |payload| + |trailer| <= RXBUF_LENGTH
    modifies from`air
    ensures d == Payload(payload) && src == from.mac
  {
    var buf, data := GetTxBuf();
    Copy(buf, data, payload);
    ghost var reserved := buf[data - 10..data - 8];
    assert buf[..][data..data + |payload|] == payload && buf[..][data - 10..data - 8] == reserved;
    var r := WnetSend(from, TxInfo(PROT_DSMP, 0), buf, data, |payload|, noack, true);
    var message := from.air[|from.air| - 1];
    assert message == Injected(noack, from.mac, Packet(reserved, payload));
    var frame := message[14..];
    assert frame == RsuFrame(from.mac, Packet(reserved, payload));
    var pdata := new Byte[WNET_MQ_MSG_SIZE];
    var code, stale := DrvVnetRecv(to, before + [rtap + frame + trailer] + after, pdata);
    StreamDelivers(to.mac, from.mac, reserved, payload, rtap, trailer, before, after, stale);
    src := code.src;
    d := FpRecv(pdata, code.length);
  }

  /** Every frame the driver sends passes the monitor filter, whole, behind any radiotap header. */
  lemma FilterKeepsSentFrames(sender: Mac, packet: seq<Byte>, rtap: seq<Byte>)
    requires |rtap| >= 4 && Le16(rtap, 2) == |rtap|
    requires |rtap + RsuFrame(sender, packet)| < Bpf.WORD
    ensures Bpf.Run(BpfAssembler.Resolved(MonitorFilter.FILTER), Bpf.Literal, 0, Bpf.START,
                    rtap + RsuFrame(sender, packet)) == MonitorFilter.KEEP
  {
    var pkt := rtap + RsuFrame(sender, packet);
    assert pkt[2] == rtap[2] && pkt[3] == rtap[3];
    assert pkt[|rtap|] == 0x80;
    MonitorFilter.AttachedFilterLanguage(pkt);
  }
}
