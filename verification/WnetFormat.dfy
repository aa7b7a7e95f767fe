/** Byte layouts of the DSMP, LLC and 802.11 layers, as the sender writes and the receiver reads them. */
module WnetFormat {
  import opened Bits
  import opened Radiotap

  const MACADDR_LENGTH := 6
  const IEEE80211_HDRLEN := 24
  const MAC_BEACON_FIX_LENGTH := 14
  const WNET_LLC_HEADER_LEN := 8
  const SECURITY_HEADER_LEN := 4
  const SECURITY_INFO_LEN := 4
  const DSMP_HEADER_LEN := 8

  const TXBUF_LENGTH := 512
  const RXBUF_LENGTH := 512
  const TXBUF_RESERVE_LENGTH := 20
  const RECV_LENGTH := 2048
  const WNET_MQ_MSG_SIZE := 1280

  /** Room in front of the payload for all headers. */
  const HEADROOM := TXBUF_RESERVE_LENGTH + IEEE80211_HDRLEN + MAC_BEACON_FIX_LENGTH

  type Mac = m: seq<Byte> | |m| == MACADDR_LENGTH witness [0, 0, 0, 0, 0, 0]

  const BROADCAST: Mac := [0xFF, 0xFF, 0xFF, 0xFF, 0xFF, 0xFF]
  const BSSID_FOR_V2V: Mac := [0x00, 0x63, 0x73, 0x76, 0x32, 0x76]

  const BEACON_FIXED_ELEMENT: seq<Byte> := [0, 0, 0, 0, 0, 0, 0, 0, 0x64, 0, 0x22, 0x04, 0, 0]

  const LLC_ETHERTYPE_DSMP := 0x88E2
  const AID_VEHICLE_SAFETY := 20
  const ELEMENT_ID_WSM := 128
  const ELEMENT_ID_OBU := 0xDD
  const LLC_SAP := 0xAA

  /** Management frame, subtype beacon, to everyone, in the V2V basic service set. */
  function MacHeader(mac: Mac): (h: seq<Byte>)
    ensures |h| == IEEE80211_HDRLEN
  {
    [0x80, 0, 0, 0] + BROADCAST + mac + BSSID_FOR_V2V + [0, 0]
  }

  function LlcHeader(): (h: seq<Byte>)
    ensures |h| == WNET_LLC_HEADER_LEN
  {
    [LLC_SAP, LLC_SAP, 0, 0, 0, 0, 0x88, 0xE2]
  }

  /** The two reserved bytes of the security header are not written by the sender. */
  function SecurityHeader(reserved: seq<Byte>): (h: seq<Byte>)
    requires |reserved| == 2
    ensures |h| == SECURITY_HEADER_LEN
  {
    [2, 0] + reserved
  }

  /** The length field has 16 bits; multi-byte fields are in network order. */
  function DsmpHeader(length: nat): (h: seq<Byte>)
    ensures |h| == DSMP_HEADER_LEN
  {
    [1, 0, 0, 0, AID_VEHICLE_SAFETY, ELEMENT_ID_WSM, length % 0x1_0000 / 0x100, length % 0x100]
  }

  /** What the LLC layer hands down. */
  function Packet(reserved: seq<Byte>, payload: seq<Byte>): seq<Byte>
    requires |reserved| == 2
  {
    LlcHeader() + SecurityHeader(reserved) + DsmpHeader(|payload|) + payload
  }

  /** The frame on the air, sent by this repository (the RSU layout). */
  function RsuFrame(mac: Mac, packet: seq<Byte>): seq<Byte>
  {
    MacHeader(mac) + BEACON_FIXED_ELEMENT + packet
  }

  /** The OBU layout: LLC header in the timestamp, the rest in a vendor element. */
  function ObuFrame(mac: Mac, packet: seq<Byte>, filler: seq<Byte>, elementLen: Byte): seq<Byte>
    requires |packet| >= WNET_LLC_HEADER_LEN && |filler| == 6
  {
    MacHeader(mac) + packet[..8] + filler + [ELEMENT_ID_OBU, elementLen] + packet[8..]
  }

  const RADIOTAP_F_WEP := 0x04
  const RADIOTAP_F_FRAG := 0x08
  const RADIOTAP_F_TX_NOACK := 0x08

  /** The radiotap header in front of an injected frame: flags, receive flags, transmit flags. */
  function TxRadiotap(encrypt: bool, noack: bool): (h: seq<Byte>)
    ensures |h| == 14
  {
    [0, 0, 14, 0, 0x02, 0xC0, 0, 0, if encrypt then 0x0C else 0x08, 0, 0, 0, if noack then 0x08 else 0, 0]
  }

  /** What the driver hands to its monitor socket for a packet. */
  function Injected(noack: bool, mac: Mac, packet: seq<Byte>): seq<Byte>
  {
    TxRadiotap(true, noack) + RsuFrame(mac, packet)
  }

  /** The same, byte by byte. */
  lemma InjectedBytes(noack: bool, mac: Mac, reserved: seq<Byte>, payload: seq<Byte>)
    requires |reserved| == 2 && |payload| < 0x1_0000
    ensures Injected(noack, mac, Packet(reserved, payload)) ==
            [0, 0, 14, 0, 0x02, 0xC0, 0, 0, 0x0C, 0, 0, 0, if noack then 0x08 else 0, 0]
            + [0x80, 0, 0, 0, 0xFF, 0xFF, 0xFF, 0xFF, 0xFF, 0xFF] + mac + [0x00, 0x63, 0x73, 0x76, 0x32, 0x76, 0, 0]
            + [0, 0, 0, 0, 0, 0, 0, 0, 0x64, 0, 0x22, 0x04, 0, 0]
            + [0xAA, 0xAA, 0, 0, 0, 0, 0x88, 0xE2]
            + [2, 0] + reserved
            + [1, 0, 0, 0, 20, 128, |payload| / 0x100, |payload| % 0x100] + payload
  {
    assert |payload| % 0x1_0000 == |payload|;
    assert DsmpHeader(|payload|) == [1, 0, 0, 0, 20, 128, |payload| / 0x100, |payload| % 0x100];
    assert MacHeader(mac) == [0x80, 0, 0, 0, 0xFF, 0xFF, 0xFF, 0xFF, 0xFF, 0xFF] + mac + [0x00, 0x63, 0x73, 0x76, 0x32, 0x76, 0, 0];
    hide DsmpHeader, MacHeader;
  }

  /** What stripping a received frame yields; `Outside` stands for an access beyond a C buffer. */
  datatype Stripped = Invalid | NotOurs | Data(src: Mac, bytes: seq<Byte>) | Outside

  predicate Ours(mac: Mac, buf: seq<Byte>, h: nat)
    requires h + 22 <= |buf|
  {
    buf[h + 16..h + 22] == BSSID_FOR_V2V && buf[h + 10..h + 16] != mac
  }

  /** `drv_vnet_recv` on a buffer whose first `len` bytes were just received. */
  ghost function Strip(mac: Mac, buf: seq<Byte>, len: nat): Stripped
    requires |buf| == RECV_LENGTH && len <= |buf|
  {
    if !Acceptable(buf, len) then Invalid
    else
      var h := Le16(buf, 2);
      if h + 22 > |buf| then Outside
      else if !Ours(mac, buf, h) then NotOurs
      else if h + 40 > |buf| then Outside
      else Cut(buf, len, h)
  }

  function Cut(buf: seq<Byte>, len: nat, h: nat): Stripped
    requires len <= |buf| && h + 40 <= |buf|
  {
    var src := buf[h + 10..h + 16];
    var id := buf[h + 38];
    if id == ELEMENT_ID_OBU then
      if len < h + 32 || len - h - 32 > WNET_MQ_MSG_SIZE then Outside
      else Data(src, (buf[h + 24..h + 32] + buf[h + 40..])[..len - h - 32])
    else if id == LLC_SAP then
      if len < h + 38 || len - h - 38 > WNET_MQ_MSG_SIZE then Outside
      else Data(src, buf[h + 38..len])
    else
      if len < h + 24 || len + 16 > |buf| || len - h - 24 > WNET_MQ_MSG_SIZE then Outside
      else Data(src, buf[h + 40..len + 16])
  }

  datatype Delivered = Payload(bytes: seq<Byte>) | Dropped | Beyond

  /** `fp_recv`: the stripped bytes are copied to a zeroed receive buffer. */
  function Deliver(data: seq<Byte>): Delivered
  {
    if |data| > RXBUF_LENGTH then Beyond
    else DeliverFrom(data + seq(RXBUF_LENGTH - |data|, _ => 0), |data|)
  }

  /** `llc_recv`. */
  function DeliverFrom(rx: seq<Byte>, length: nat): Delivered
    requires |rx| == RXBUF_LENGTH
  {
    if length < WNET_LLC_HEADER_LEN || Be16(rx, 6) != LLC_ETHERTYPE_DSMP then Dropped else DeliverDsmp(rx)
  }

  /** `dsmp_recv`; a marked security header is stepped over together with its information block. */
  function DeliverDsmp(rx: seq<Byte>): Delivered
    requires |rx| == RXBUF_LENGTH
  {
    var p := if rx[9] != 0 then 20 else 12;
    if Be32(rx, p + 1) != AID_VEHICLE_SAFETY || rx[p + 5] != ELEMENT_ID_WSM then Dropped
    else
      var length := Be16(rx, p + 6);
      if p + 8 + length > RXBUF_LENGTH then Beyond else Payload(rx[p + 8..p + 8 + length])
  }
}
