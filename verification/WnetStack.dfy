/** The send and receive paths, moving `pdata` through byte buffers in place. */
module WnetStack {
  import opened Bits
  import opened Memory
  import opened Radiotap
  import opened RadiotapIterator
  import opened WnetFormat

  const PROT_DSMP := 0

  /** The parts of `wnet_txinfo_t` the send path looks at. */
  datatype TxInfo = TxInfo(protocol: Byte, encryption: Byte)

  lemma FlagBits()
    ensures Or(RADIOTAP_F_FRAG, RADIOTAP_F_WEP) == 0x0C && Or(0, RADIOTAP_F_TX_NOACK) == 0x08
  {
    assert Or(2, 1) == 3;
  }

  class Driver {
    var mac: Mac
    var monitorSock: int
    /** The messages handed to the monitor socket: a radiotap header each, then the 802.11 frame. */
    var air: seq<seq<Byte>>

    constructor (mac: Mac, sock: int)
      ensures this.mac == mac && monitorSock == sock && air == []
    {
      this.mac := mac;
      monitorSock := sock;
      air := [];
    }

    /** `nl80211_send_monitor`; `accepts` is the outcome of `sendmsg`. */
    method SendMonitor(data: seq<Byte>, encrypt: bool, noack: bool, accepts: bool) returns (r: int)
      modifies this`air
      ensures r == if monitorSock >= 0 && accepts then 0 else -1
      ensures air == old(air) + if r == 0 then [TxRadiotap(encrypt, noack) + data] else []
    {
      FlagBits();
      hide Or;
      var rtapHdr := new Byte[] [0x00, 0x00, 0x0E, 0x00, 0x02, 0xC0, 0x00, 0x00, RADIOTAP_F_FRAG, 0x00, 0x00, 0x00, 0x00, 0x00];
      if encrypt {
        rtapHdr[8] := Or(rtapHdr[8], RADIOTAP_F_WEP);
      }
      if monitorSock < 0 {
        return -1;
      }
      var txflags := 0;
      if noack {
        txflags := Or(txflags, RADIOTAP_F_TX_NOACK);
      }
      rtapHdr[12], rtapHdr[13] := txflags % 0x100, txflags / 0x100;
      if !accepts {
        return -1;
      }
      assert rtapHdr[..] == TxRadiotap(encrypt, noack);
      air := air + [rtapHdr[..] + data];
      return 0;
    }
  }

  /** `wnet_get_txbuf`. */
  method GetTxBuf() returns (buf: array<Byte>, data: nat)
    ensures fresh(buf) && buf.Length == TXBUF_LENGTH && data == HEADROOM
    ensures forall i | 0 <= i < buf.Length :: buf[i] == 0
  {
    buf := new Byte[TXBUF_LENGTH](_ => 0);
    data := TXBUF_RESERVE_LENGTH + IEEE80211_HDRLEN + MAC_BEACON_FIX_LENGTH;
  }

  /** Everything but the `n` bytes in front of `pdata` is as before. */
  ghost predicate OnlyHeadroom(after: seq<Byte>, before: seq<Byte>, pdata: nat, n: nat)
    requires n <= pdata <= |before|
  {
    |after| == |before| && forall i | 0 <= i < |before| && !(pdata - n <= i < pdata) :: after[i] == before[i]
  }

  /** Headroom only, and what it now holds. */
  ghost predicate Headed(after: seq<Byte>, before: seq<Byte>, pdata: nat, header: seq<Byte>)
    requires |header| <= pdata <= |before|
  {
    OnlyHeadroom(after, before, pdata, |header|) && after[pdata - |header|..pdata] == header
  }

  /** A header in front of a payload. */
  lemma HeadedSlice(after: seq<Byte>, before: seq<Byte>, pdata: nat, header: seq<Byte>, length: nat)
    requires |header| <= pdata && pdata + length <= |before| && Headed(after, before, pdata, header)
    ensures after[pdata - |header|..pdata + length] == header + before[pdata..pdata + length]
  {
    assert after[pdata..pdata + length] == before[pdata..pdata + length];
  }

  lemma Roomier(after: seq<Byte>, before: seq<Byte>, pdata: nat, n: nat, k: nat)
    requires n <= k <= pdata <= |before| && OnlyHeadroom(after, before, pdata, n)
    ensures OnlyHeadroom(after, before, pdata, k)
  {
  }

  /** Headroom used up in two steps. */
  lemma HeadroomAdds(after: seq<Byte>, middle: seq<Byte>, before: seq<Byte>, pdata: nat, n: nat, k: nat)
    requires n + k <= pdata <= |before|
    requires OnlyHeadroom(middle, before, pdata, n) && OnlyHeadroom(after, middle, pdata - n, k)
    ensures OnlyHeadroom(after, before, pdata, n + k)
  {
  }

  /** The 802.11 header and the fixed beacon elements go into the 38 bytes before `pdata`. */
  method WriteMacHeader(buf: array<Byte>, pdata: nat, mac: Mac)
    requires 38 <= pdata <= buf.Length
    modifies buf
    ensures Headed(buf[..], old(buf[..]), pdata, MacHeader(mac) + BEACON_FIXED_ELEMENT)
  {
    ghost var before := buf[..];
    var payload := pdata - MAC_BEACON_FIX_LENGTH;
    Copy(buf, payload, BEACON_FIXED_ELEMENT);
    var hdr := payload - IEEE80211_HDRLEN;
    Copy(buf, hdr, seq(IEEE80211_HDRLEN, _ => 0));
    Copy(buf, hdr, [8 * 0x10 + 0 * 4]);
    Copy(buf, hdr + 4, BROADCAST);
    Copy(buf, hdr + 10, mac);
    Copy(buf, hdr + 16, BSSID_FOR_V2V);
    MacHeaded(before, hdr, mac, buf[..]);
  }

  lemma MacHeaded(s: seq<Byte>, hdr: nat, mac: Mac, r: seq<Byte>)
    requires hdr + 38 <= |s|
    requires var s1 := Patched(s, hdr + 24, BEACON_FIXED_ELEMENT);
             var s2 := Patched(Patched(s1, hdr, seq(IEEE80211_HDRLEN, _ => 0)), hdr, [0x80]);
             r == Patched(Patched(Patched(s2, hdr + 4, BROADCAST), hdr + 10, mac), hdr + 16, BSSID_FOR_V2V)
    ensures Headed(r, s, hdr + 38, MacHeader(mac) + BEACON_FIXED_ELEMENT)
  {
    hide Patched;
  }

  /**
   * `drv_vnet_send`. It passes four of the five arguments of `nl80211_send_monitor`, so `noack` is
   * whatever the machine finds in its place.
   */
  method DrvVnetSend(drv: Driver, buf: array<Byte>, pdata: nat, length: nat, noack: bool, accepts: bool) returns (r: int)
    requires 38 <= pdata && pdata + length <= buf.Length
    modifies buf, drv`air
    ensures OnlyHeadroom(buf[..], old(buf[..]), pdata, 38)
    ensures r == if drv.monitorSock > 0 && accepts then 0 else -1
    ensures drv.air == old(drv.air) + if r == 0 then [Injected(noack, drv.mac, old(buf[..])[pdata..pdata + length])] else []
  {
    WriteMacHeader(buf, pdata, drv.mac);
    var hdr := pdata - 38;
    HeadedSlice(buf[..], old(buf[..]), pdata, MacHeader(drv.mac) + BEACON_FIXED_ELEMENT, length);
    hide MacHeader, Headed;
    if drv.monitorSock != 0 {
      r := drv.SendMonitor(buf[..][hdr..pdata + length], true, noack, accepts);
    } else {
      r := -1;
    }
  }

  /** `llc_send` and `fp_send`, which hands the frame to the driver. */
  method LlcSend(drv: Driver, tx: TxInfo, buf: array<Byte>, pdata: nat, length: nat, noack: bool, accepts: bool) returns (r: int)
    requires 46 <= pdata && pdata + length <= buf.Length
    modifies buf, drv`air
    ensures OnlyHeadroom(buf[..], old(buf[..]), pdata, 46)
    ensures r == if tx.protocol == PROT_DSMP && drv.monitorSock > 0 && accepts then 0 else -1
    ensures drv.air == old(drv.air) +
                       if r == 0 then [Injected(noack, drv.mac, LlcHeader() + old(buf[..])[pdata..pdata + length])] else []
  {
    hide Patched, OnlyHeadroom, LlcHeader, Injected, Headed;
    ghost var before := buf[..];
    var p := pdata - WNET_LLC_HEADER_LEN;
    Copy(buf, p, seq(WNET_LLC_HEADER_LEN, _ => 0));
    Copy(buf, p, [LLC_SAP, LLC_SAP]);
    if tx.protocol != PROT_DSMP {
      LlcStarted(before, p, buf[..]);
      Roomier(buf[..], before, pdata, 8, 46);
      return -1;
    }
    Copy(buf, p + 6, [LLC_ETHERTYPE_DSMP / 0x100, LLC_ETHERTYPE_DSMP % 0x100]);
    ghost var middle := buf[..];
    LlcHeaded(before, p, middle);
    HeadedSlice(middle, before, pdata, LlcHeader(), length);
    r := DrvVnetSend(drv, buf, p, length + WNET_LLC_HEADER_LEN, noack, accepts);
    HeadroomAdds(buf[..], middle, before, pdata, 8, 38);
  }

  lemma LlcStarted(s: seq<Byte>, p: nat, r: seq<Byte>)
    requires p + 8 <= |s| && r == Patched(Patched(s, p, seq(WNET_LLC_HEADER_LEN, _ => 0)), p, [LLC_SAP, LLC_SAP])
    ensures OnlyHeadroom(r, s, p + 8, 8)
  {
    hide Patched;
  }

  lemma LlcHeaded(s: seq<Byte>, p: nat, r: seq<Byte>)
    requires p + 8 <= |s|
    requires r == Patched(Patched(Patched(s, p, seq(WNET_LLC_HEADER_LEN, _ => 0)), p, [LLC_SAP, LLC_SAP]), p + 6,
                          [LLC_ETHERTYPE_DSMP / 0x100, LLC_ETHERTYPE_DSMP % 0x100])
    ensures Headed(r, s, p + 8, LlcHeader()) && OnlyHeadroom(r, s, p + 8, 8)
  {
    hide Patched;
  }

  /** `dsmp_send`; the encrypting branch writes its header and sends nothing. */
  method DsmpSend(drv: Driver, tx: TxInfo, buf: array<Byte>, pdata: nat, length: nat, noack: bool, accepts: bool) returns (r: int)
    requires HEADROOM <= pdata && pdata + length <= buf.Length
    modifies buf, drv`air
    ensures OnlyHeadroom(buf[..], old(buf[..]), pdata, HEADROOM)
    ensures tx.encryption != 0 ==> r == 0 && drv.air == old(drv.air)
    ensures tx.encryption == 0 ==>
              && r == (if tx.protocol == PROT_DSMP && drv.monitorSock > 0 && accepts then 0 else -1)
              && drv.air == old(drv.air) + if r == 0 then [Sent(noack, drv.mac, old(buf[..]), pdata, length)] else []
  {
    hide Patched, LlcHeader, Injected, Headed, DsmpHeader, OnlyHeadroom, Packet;
    ghost var before := buf[..];
    WriteDsmpHeader(buf, pdata, length);
    ghost var middle := buf[..];
    if tx.encryption != 0 {
      Roomier(middle, before, pdata, 8, HEADROOM);
      return 0;
    }
    var p := pdata - 12;
    Copy(buf, p, [2, 0]);
    ghost var last := buf[..];
    PacketLaid(before, middle, last, pdata, length);
    r := LlcSend(drv, tx, buf, p, length + 12, noack, accepts);
    HeadroomAdds(buf[..], last, before, pdata, 12, 46);
  }

  /** What a packet of this length at `pdata` goes out as; two bytes of the security header are never written. */
  function Sent(noack: bool, mac: Mac, buf: seq<Byte>, pdata: nat, length: nat): seq<Byte>
    requires HEADROOM <= pdata && pdata + length <= |buf|
  {
    Injected(noack, mac, Packet(buf[pdata - 10..pdata - 8], buf[pdata..pdata + length]))
  }

  lemma SecurityHeaded(s: seq<Byte>, p: nat, r: seq<Byte>)
    requires p + 4 <= |s| && r == Patched(s, p, [2, 0])
    ensures Headed(r, s, p + 4, SecurityHeader(s[p + 2..p + 4]))
    ensures OnlyHeadroom(r, s, p + 4, 4)
  {
    hide Patched;
  }

  /** The two headers of a DSMP packet, in front of its payload. */
  lemma PacketLaid(before: seq<Byte>, middle: seq<Byte>, last: seq<Byte>, pdata: nat, length: nat)
    requires HEADROOM <= pdata && pdata + length <= |before|
    requires Headed(middle, before, pdata, DsmpHeader(length)) && OnlyHeadroom(middle, before, pdata, 8)
    requires last == Patched(middle, pdata - 12, [2, 0])
    ensures OnlyHeadroom(last, before, pdata, 12)
    ensures LlcHeader() + last[pdata - 12..pdata + length] == Packet(before[pdata - 10..pdata - 8], before[pdata..pdata + length])
  {
    hide Patched, DsmpHeader, Packet, SecurityHeader;
    var p := pdata - 12;
    SecurityHeaded(middle, p, last);
    var reserved := before[pdata - 10..pdata - 8];
    assert middle[p + 2..p + 4] == reserved;
    HeadedSlice(middle, before, pdata, DsmpHeader(length), length);
    HeadedSlice(last, middle, pdata - 8, SecurityHeader(reserved), length + 8);
    HeadroomAdds(last, middle, before, pdata, 8, 4);
    LayersAdd(reserved, before[pdata..pdata + length]);
  }

  lemma LayersAdd(reserved: seq<Byte>, payload: seq<Byte>)
    requires |reserved| == 2
    ensures LlcHeader() + (SecurityHeader(reserved) + (DsmpHeader(|payload|) + payload)) == Packet(reserved, payload)
  {
    hide LlcHeader, SecurityHeader, DsmpHeader;
  }

  method WriteDsmpHeader(buf: array<Byte>, pdata: nat, length: nat)
    requires DSMP_HEADER_LEN <= pdata <= buf.Length
    modifies buf
    ensures Headed(buf[..], old(buf[..]), pdata, DsmpHeader(length)) && OnlyHeadroom(buf[..], old(buf[..]), pdata, 8)
  {
    ghost var before := buf[..];
    var p := pdata - DSMP_HEADER_LEN;
    Copy(buf, p, seq(DSMP_HEADER_LEN, _ => 0));
    Copy(buf, p, [1]);
    Copy(buf, p + 4, [AID_VEHICLE_SAFETY]);
    Copy(buf, p + 5, [ELEMENT_ID_WSM]);
    Copy(buf, p + 6, [length % 0x1_0000 / 0x100, length % 0x100]);
    DsmpHeaded(before, p, length, buf[..]);
  }

  lemma DsmpHeaded(s: seq<Byte>, p: nat, length: nat, r: seq<Byte>)
    requires p + 8 <= |s|
    requires var s1 := Patched(Patched(s, p, seq(DSMP_HEADER_LEN, _ => 0)), p, [1]);
             var s2 := Patched(Patched(s1, p + 4, [AID_VEHICLE_SAFETY]), p + 5, [ELEMENT_ID_WSM]);
             r == Patched(s2, p + 6, [length % 0x1_0000 / 0x100, length % 0x100])
    ensures Headed(r, s, p + 8, DsmpHeader(length)) && OnlyHeadroom(r, s, p + 8, 8)
  {
    hide Patched;
  }

  method WnetSend(drv: Driver, tx: TxInfo, buf: array<Byte>, pdata: nat, length: nat, noack: bool, accepts: bool) returns (r: int)
    requires HEADROOM <= pdata && pdata + length <= buf.Length
    modifies buf, drv`air
    ensures OnlyHeadroom(buf[..], old(buf[..]), pdata, HEADROOM)
    ensures tx.protocol != PROT_DSMP ==> r == -1 && drv.air == old(drv.air)
    ensures tx.protocol == PROT_DSMP && tx.encryption != 0 ==> r == 0 && drv.air == old(drv.air)
    ensures tx.protocol == PROT_DSMP && tx.encryption == 0 ==>
              && r == (if drv.monitorSock > 0 && accepts then 0 else -1)
              && drv.air == old(drv.air) + if r == 0 then [Sent(noack, drv.mac, old(buf[..]), pdata, length)] else []
  {
    if tx.protocol == PROT_DSMP {
      r := DsmpSend(drv, tx, buf, pdata, length, noack, accepts);
    } else {
      r := -1;
    }
  }

  /** The receive buffer after `recv`: the frame, cut to the buffer, over what was there before. */
  function Received(buf: seq<Byte>, frame: seq<Byte>): (r: seq<Byte>)
    requires |buf| == RECV_LENGTH
    ensures |r| == RECV_LENGTH
    ensures forall i | 0 <= i < |r| :: r[i] == if i < |frame| then frame[i] else buf[i]
  {
    if |frame| >= RECV_LENGTH then frame[..RECV_LENGTH] else frame + buf[|frame|..]
  }

  function ReceivedLength(frame: seq<Byte>): nat
  {
    if |frame| >= RECV_LENGTH then RECV_LENGTH else |frame|
  }

  /** The first frame of the stream that is not skipped decides; `Invalid` also when the socket fails. */
  ghost function RecvFrom(mac: Mac, buf: seq<Byte>, stream: seq<seq<Byte>>): Stripped
    requires |buf| == RECV_LENGTH
    decreases |stream|
  {
    if stream == [] then Invalid
    else
      var buf' := Received(buf, stream[0]);
      var s := Strip(mac, buf', ReceivedLength(stream[0]));
      if s.NotOurs? then RecvFrom(mac, buf', stream[1..]) else s
  }

  datatype RecvCode = Failed | Done(length: nat, src: Mac) | Undefined

  /** The code and the output bytes stand for a stripping result. */
  ghost predicate Reports(r: RecvCode, pdata: array<Byte>, s: Stripped)
    reads pdata
  {
    match s
    case Invalid => r.Failed?
    case NotOurs => false
    case Outside => r.Undefined?
    case Data(src, bytes) => r == Done(|bytes|, src) && |bytes| <= pdata.Length && pdata[..|bytes|] == bytes
  }

  /** The loop skips frames that are not ours; each `recv` leaves the rest of the buffer as it was. */
  method DrvVnetRecv(drv: Driver, stream: seq<seq<Byte>>, pdata: array<Byte>) returns (r: RecvCode, ghost stale: seq<Byte>)
    requires pdata.Length == WNET_MQ_MSG_SIZE
    modifies pdata
    ensures |stale| == RECV_LENGTH && Reports(r, pdata, RecvFrom(drv.mac, stale, stream))
  {
    hide Strip, Received, Reports;
    var buf := new Byte[RECV_LENGTH];
    stale := buf[..];
    var next := 0;
    while next < |stream|
      invariant next <= |stream| && fresh(buf)
      invariant RecvFrom(drv.mac, stale, stream) == RecvFrom(drv.mac, buf[..], stream[next..])
    {
      assert stream[next..][0] == stream[next] && stream[next..][1..] == stream[next + 1..];
      var ours;
      ours, r := RecvOne(drv, stream[next], buf, pdata);
      if ours {
        return r, stale;
      }
      next := next + 1;
    }
    r := Failed;
    SocketFailed(r, pdata);
  }

  lemma SocketFailed(r: RecvCode, pdata: array<Byte>)
    requires r.Failed?
    ensures Reports(r, pdata, Invalid)
  {
  }

  /** One turn of the loop: `ours` is false when the frame is skipped. */
  method RecvOne(drv: Driver, frame: seq<Byte>, buf: array<Byte>, pdata: array<Byte>) returns (ours: bool, r: RecvCode)
    requires buf.Length == RECV_LENGTH && pdata.Length == WNET_MQ_MSG_SIZE && buf != pdata
    modifies buf, pdata
    ensures var s := Strip(drv.mac, Received(old(buf[..]), frame), ReceivedLength(frame));
            && ours == !s.NotOurs?
            && (ours ==> Reports(r, pdata, s))
            && (!ours ==> buf[..] == Received(old(buf[..]), frame))
  {
    hide Acceptable, Cut, Ours, Le16;
    var len := if |frame| >= RECV_LENGTH then RECV_LENGTH else |frame|;
    Copy(buf, 0, frame[..len]);
    ghost var b := Received(old(buf[..]), frame);
    assert buf[..] == b;
    hide Received;
    var ok, h := RadiotapLength(buf[..], len);
    if !ok {
      return true, Failed;
    }
    if h + 22 > RECV_LENGTH {
      return true, Undefined;
    }
    if !Ours(drv.mac, buf[..], h) {
      return false, Failed;
    }
    if h + 40 > RECV_LENGTH {
      return true, Undefined;
    }
    r := StripInPlace(buf, len, h, pdata);
    ours := true;
  }

  /** The driver initialises an iterator only to validate the header and to learn its length. */
  method RadiotapLength(header: seq<Byte>, len: nat) returns (ok: bool, h: nat)
    requires len <= |header|
    ensures ok == Acceptable(header, len)
    ensures ok ==> h == Le16(header, 2)
  {
    var it := new Iterator();
    var status := it.Init(header, len, NoVns);
    ok, h := status.Ok?, it.maxLength;
  }

  /** An OBU frame's two parts, joined where the second one starts. */
  lemma Joined(s: seq<Byte>, h: nat, length: nat)
    requires h + 40 <= |s| && h + 32 + length <= |s|
    ensures var first := s[h + 24..h + 32];
            Patched(s, h + 32, first)[h + 32..h + 32 + length] == (first + s[h + 40..])[..length]
  {
  }

  /** Finds the LLC header of either layout, joins an OBU frame's two parts and copies out. */
  method StripInPlace(buf: array<Byte>, len: nat, h: nat, pdata: array<Byte>) returns (r: RecvCode)
    requires buf.Length == RECV_LENGTH && len <= buf.Length && h + 40 <= buf.Length
    requires pdata.Length == WNET_MQ_MSG_SIZE && buf != pdata
    modifies buf, pdata
    ensures Reports(r, pdata, Cut(old(buf[..]), len, h))
  {
    hide Patched;
    ghost var before := buf[..];
    var src := buf[h + 10..h + 16];
    var length: int := len - h;
    var p := h + IEEE80211_HDRLEN;
    length := length - IEEE80211_HDRLEN;
    p := p + 14;
    var id := buf[p];
    p := p + 2;
    if id == ELEMENT_ID_OBU {
      p := p - 8;
      Copy(buf, p, buf[h + 24..h + 32]);
      length := length - 8;
    }
    if id == LLC_SAP {
      p := p - 2;
      length := length - 14;
    }
    if length < 0 || length > pdata.Length || p + length > buf.Length {
      return Undefined;
    }
    if id == ELEMENT_ID_OBU {
      Joined(before, h, length);
    }
    CopyOut(buf, p, length, pdata);
    r := Done(length, src);
  }

  method CopyOut(buf: array<Byte>, p: nat, length: nat, pdata: array<Byte>)
    requires p + length <= buf.Length && length <= pdata.Length && buf != pdata
    modifies pdata
    ensures pdata[..length] == buf[..][p..p + length]
  {
    Copy(pdata, 0, buf[p..p + length]);
  }

  /** `fp_recv`, `llc_recv` and `dsmp_recv`; the result is what reaches `vam_rcp_recv`. */
  method FpRecv(pdata: array<Byte>, length: nat) returns (d: Delivered)
    requires length <= pdata.Length
    ensures d == Deliver(pdata[..length])
  {
    if length > RXBUF_LENGTH {
      return Beyond;
    }
    var rx := new Byte[RXBUF_LENGTH](_ => 0);
    Copy(rx, 0, pdata[..length]);
    assert rx[..] == pdata[..length] + seq(RXBUF_LENGTH - length, _ => 0);
    d := LlcRecv(rx, 0, length);
  }

  method LlcRecv(rx: array<Byte>, pdata: nat, length: nat) returns (d: Delivered)
    requires rx.Length == RXBUF_LENGTH && pdata == 0
    ensures d == DeliverFrom(rx[..], length)
  {
    if length < WNET_LLC_HEADER_LEN {
      return Dropped;
    }
    var p := pdata + WNET_LLC_HEADER_LEN;
    if Be16(rx[..], pdata + 6) != LLC_ETHERTYPE_DSMP {
      return Dropped;
    }
    d := DsmpRecv(rx, p);
  }

  method DsmpRecv(rx: array<Byte>, pdata: nat) returns (d: Delivered)
    requires rx.Length == RXBUF_LENGTH && pdata == 8
    ensures d == DeliverDsmp(rx[..])
  {
    var p, len := pdata, 0;
    if rx[p + 1] != 0 {
      len := SECURITY_HEADER_LEN;
      p := p + len;
      len := len + SECURITY_INFO_LEN;
      p := p + len;
    } else {
      len := SECURITY_HEADER_LEN;
      p := p + len;
    }
    var aid := Be32(rx[..], p + 1);
    if aid != AID_VEHICLE_SAFETY {
      return Dropped;
    }
    if rx[p + 5] != ELEMENT_ID_WSM {
      return Dropped;
    }
    var length := Be16(rx[..], p + 6);
    p := p + DSMP_HEADER_LEN;
    if p + length > rx.Length {
      return Beyond;
    }
    d := Payload(rx[p..p + length]);
  }
}
