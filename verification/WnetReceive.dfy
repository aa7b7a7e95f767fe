/** What the receive path does with any frame at all, in terms of the frame's bytes. */
module WnetReceive {
  import opened Bits
  import opened Radiotap
  import opened WnetFormat
  import opened WnetStack
  import opened WnetRoundTrip

  /** A header that is too short, of another version or longer than what was received ends the reception. */
  lemma RefusesBadHeaders(mac: Mac, message: seq<Byte>, buf: seq<Byte>, rest: seq<seq<Byte>>)
    requires |buf| == RECV_LENGTH && |message| <= RECV_LENGTH
    requires |message| < 8 || message[0] != 0 || Le16(message, 2) > |message|
    ensures RecvFrom(mac, buf, [message] + rest) == Invalid
  {
    var b := Received(buf, message);
    assert ([message] + rest)[0] == message && ([message] + rest)[1..] == rest;
    if |message| >= 8 {
      assert b[0] == message[0] && b[2] == message[2] && b[3] == message[3];
    }
    assert !Acceptable(b, |message|);
    hide Acceptable;
  }

  /** A whole frame has been received: what is skipped, and what is cut out of each layout. */
  lemma StripIs(mac: Mac, buf: seq<Byte>, len: nat, rtap: seq<Byte>, frame: seq<Byte>)
    requires Holds(buf, len, rtap, frame) && |frame| >= 40
    ensures var src, layout := frame[10..16], frame[38];
            Strip(mac, buf, len) ==
            if frame[16..22] != [0x00, 0x63, 0x73, 0x76, 0x32, 0x76] || src == mac then NotOurs
            else if layout == 0xDD then
              if |frame| - 32 <= 1280 then Data(src, frame[24..32] + frame[40..]) else Outside
            else if layout == 0xAA then
              if |frame| - 38 <= 1280 then Data(src, frame[38..]) else Outside
            else
              if |frame| - 24 <= 1280 && len + 16 <= 2048 then Data(src, buf[|rtap| + 40..len + 16]) else Outside
  {
    StripsTo(mac, buf, len, rtap, frame);
    FrameBytes(buf, len, rtap, frame);
    hide Strip, Holds, Acceptable;
    var h := |rtap|;
    if frame[38] == 0xDD && |frame| - 32 <= 1280 {
      assert buf[h + 40..][..len - h - 40] == buf[h + 40..len];
      assert (buf[h + 24..h + 32] + buf[h + 40..])[..len - h - 32] == buf[h + 24..h + 32] + buf[h + 40..len];
    }
  }

  /**
   * A frame of another network or of this station is passed over, wherever it stands in the stream
   * and whatever was in the buffer: what comes next decides.
   */
  lemma ForeignIsSkipped(mac: Mac, message: seq<Byte>, n: nat, buf: seq<Byte>, rest: seq<seq<Byte>>)
    requires |buf| == RECV_LENGTH && n + 22 <= |message| && n + 22 <= RECV_LENGTH && ValidRadiotap(message[..n])
    requires message[n + 16..n + 22] != [0x00, 0x63, 0x73, 0x76, 0x32, 0x76] || message[n + 10..n + 16] == mac
    ensures Strip(mac, Received(buf, message), ReceivedLength(message)) == NotOurs
    ensures RecvFrom(mac, buf, [message] + rest) == RecvFrom(mac, Received(buf, message), rest)
  {
    var b, rtap := Received(buf, message), message[..n];
    assert b == rtap + b[n..];
    AcceptablePrefix(rtap, b[n..], ReceivedLength(message));
    assert b[n + 16..n + 22] == message[n + 16..n + 22] && b[n + 10..n + 16] == message[n + 10..n + 16];
    assert ([message] + rest)[0] == message && ([message] + rest)[1..] == rest;
    hide Acceptable;
  }

  /**
   * What reaches the message layer. Short packets and other ether types are dropped. The DSMP header
   * follows the security header of 4 bytes, or of 12 when it is marked; another application or element
   * is dropped, and the payload is as long as the DSMP header says.
   */
  lemma DeliverIs(data: seq<Byte>)
    requires |data| <= 512
    ensures var rx := data + seq(512 - |data|, _ => 0);
            var p := if rx[9] == 0 then 12 else 20;
            var length := rx[p + 6] as int * 0x100 + rx[p + 7] as int;
            Deliver(data) ==
            if |data| < 8 || data[6..8] != [0x88, 0xE2] then Dropped
            else if rx[p + 1..p + 5] != [0, 0, 0, 20] || rx[p + 5] != 128 then Dropped
            else if p + 8 + length > 512 then Beyond
            else Payload(rx[p + 8..p + 8 + length])
  {
    var rx := data + seq(512 - |data|, _ => 0);
    var p := if rx[9] == 0 then 12 else 20;
    AidBytes(rx, p + 1);
    if |data| >= 8 {
      EtherType(rx, 6);
      assert data[6..8] == rx[6..8];
    }
    hide Be32;
  }

  /** Anything larger does not fit the receive buffer. */
  lemma DeliverTooLarge(data: seq<Byte>)
    ensures |data| > 512 ==> Deliver(data) == Beyond
  {
  }

  lemma AidBytes(s: seq<Byte>, i: nat)
    requires i + 4 <= |s|
    ensures Be32(s, i) == 20 <==> s[i..i + 4] == [0, 0, 0, 20]
  {
  }

  lemma EtherType(s: seq<Byte>, i: nat)
    requires i + 2 <= |s|
    ensures Be16(s, i) == 0x88E2 <==> s[i..i + 2] == [0x88, 0xE2]
  {
  }
}
