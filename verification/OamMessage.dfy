/** OAM messages: byte order, conversion tables, what a client sends and a server answers. */
module OamMessage {
  import opened Bits
  import opened OamTable

  const OAM_E_OK := 0
  const OAM_E_PARAM := 3
  const OAM_E_TIMEOUT := 7
  const OAM_E_TOO_MUCH_API := 8
  const OAM_E_WRONG_SDK_ID := 9
  const SEND_FAILED := WORD - 1

  const CV_OAM_PKT_MAX_LEN := 1200
  const CV_FRAME_HEADER_LEN := 4
  const SDK_MSG_HEADER_LEN := 16

  /** The room for a message's data in a receive buffer, which is cleared before every `recv`. */
  const RECEIVE_ROOM := CV_OAM_PKT_MAX_LEN - CV_FRAME_HEADER_LEN - SDK_MSG_HEADER_LEN

  /** `oam_htonl` on a little-endian host; its own inverse, like `Swap16`. */
  function Swap32(x: nat): (r: nat)
    requires x < WORD
    ensures r < WORD
  {
    Swap16(x % 0x1_0000) * 0x1_0000 + Swap16(x / 0x1_0000)
  }

  lemma Swap32Twice(x: nat)
    requires x < WORD
    ensures Swap32(Swap32(x)) == x
  {
    var lo, hi := Swap16(x % 0x1_0000), Swap16(x / 0x1_0000);
    Swap16Twice(x % 0x1_0000);
    Swap16Twice(x / 0x1_0000);
    hide Swap16;
    assert Swap32(x) == lo * 0x1_0000 + hi;
    assert Swap32(x) / 0x1_0000 == lo && Swap32(x) % 0x1_0000 == hi;
  }

  /** A 32-bit field of a little-endian host, swapped, is its bytes read in network order. */
  lemma BigEndian32(s: seq<Byte>, i: nat)
    requires i + 4 <= |s|
    ensures Be32(s, i) == Swap32(Le32(s, i))
  {
    var lo, hi := Le16(s, i), Le16(s, i + 2);
    BigEndian16(s, i);
    BigEndian16(s, i + 2);
    assert Le32(s, i) == lo + 0x1_0000 * hi;
    assert Be32(s, i) == 0x1_0000 * Be16(s, i) + Be16(s, i + 2);
    hide Swap16, Le16, Le32, Be16, Be32;
    assert Le32(s, i) % 0x1_0000 == lo && Le32(s, i) / 0x1_0000 == hi;
  }

  /** `cv_sdk_msg_t`. */
  datatype Msg = Msg(ret: nat, reqId: nat, sdkId: nat, len: nat, data: seq<Byte>) {
    predicate Wf() { ret < WORD && reqId < WORD && sdkId < 0x1_0000 && len < 0x1_0000 }
  }

  /** The conversion table of one side, by id; an id without an entry is converted to itself. */
  datatype Tables = Tables(hton: (nat, seq<Byte>) -> seq<Byte>, ntoh: (nat, seq<Byte>) -> seq<Byte>)

  /** A conversion or handler overwrites the bytes it is given, so it keeps their number. */
  function InPlace(data: seq<Byte>, out: seq<Byte>): (r: seq<Byte>)
    ensures |r| == |data|
  {
    if |out| == |data| then out else data
  }

  function ToNet(t: Tables, id: nat, data: seq<Byte>): (r: seq<Byte>)
    ensures |r| == |data|
  {
    InPlace(data, t.hton(id, data))
  }

  function ToHost(t: Tables, id: nat, data: seq<Byte>): (r: seq<Byte>)
    ensures |r| == |data|
  {
    InPlace(data, t.ntoh(id, data))
  }

  /** The first `n` bytes behind a message's header, in a receive buffer of zeros. */
  function Body(data: seq<Byte>, n: nat): (r: seq<Byte>)
    ensures |r| == n && (n <= |data| ==> r == data[..n])
  {
    if n <= |data| then data[..n] else data + seq(n - |data|, _ => 0)
  }

  /** What a handler may do on its `n`-th call: return a code and overwrite the data. */
  datatype Answer = Answer(ret: nat, out: seq<Byte>)

  /**
   * Both sides: the largest id, the ids for which the server has a conversion and a handler, the
   * conversions, and the handlers by id and number of the call.
   */
  datatype Config = Config(maxId: nat, handled: set<nat>, client: Tables, server: Tables,
                           handler: (nat, nat, seq<Byte>) -> Answer) {
    predicate Wf() { maxId < 0x1_0000 }

    /** The ids the server answers. */
    predicate Answered(id: nat) { id < maxId && id in handled }
  }

  /** The `n`-th handler call of the server: a 32-bit code, and an output that stays in the buffer. */
  function Handle(cfg: Config, id: nat, n: nat, data: seq<Byte>): (a: Answer)
    ensures |a.out| == |data| && a.ret < WORD
  {
    var a := cfg.handler(id, n, data);
    Answer(a.ret % WORD, InPlace(data, a.out))
  }

  /** The conversions keep the number of bytes, and those of client and server undo each other. */
  ghost predicate TablesAgree(cfg: Config)
  {
    forall id, d | cfg.Answered(id) ::
      && |cfg.client.hton(id, d)| == |d| && cfg.server.ntoh(id, cfg.client.hton(id, d)) == d
      && |cfg.server.hton(id, d)| == |d| && cfg.client.ntoh(id, cfg.server.hton(id, d)) == d
  }

  /** What a caller asks for: an id and the data in host order. */
  datatype Call = Call(sdkId: nat, data: seq<Byte>) {
    predicate Wf(cfg: Config) { cfg.Wf() && sdkId <= cfg.maxId && |data| < 0x1_0000 }
  }

  /** The caller's message after conversion, before it gets an id. */
  function Prepared(cfg: Config, c: Call, reqId: nat): (m: Msg)
    requires c.Wf(cfg) && reqId < WORD
    ensures m.Wf() && |m.data| == |c.data|
  {
    Msg(OAM_E_OK, reqId, Swap16(c.sdkId), Swap16(|c.data|), ToNet(cfg.client, c.sdkId, c.data))
  }

  /** The message as it goes out under id `id`. */
  function Outgoing(cfg: Config, c: Call, id: nat): (m: Msg)
    requires c.Wf(cfg) && id < WORD
    ensures m.Wf() && |m.data| == |c.data| && m.ret == OAM_E_OK && m.len == Swap16(|c.data|) && m.reqId == Swap32(id)
  {
    Prepared(cfg, c, Swap32(id))
  }

  /** `cv_oam_client_send_msg`: the frame length is a 16-bit number. */
  function SendCode(len: nat, netOk: bool): nat
  {
    if (SDK_MSG_HEADER_LEN + len) % 0x1_0000 > CV_OAM_PKT_MAX_LEN - CV_FRAME_HEADER_LEN then OAM_E_PARAM
    else if !netOk then SEND_FAILED
    else OAM_E_OK
  }

  /** What `cv_oam_sdk_msg_handler` sends on its `n`-th call of a handler; `None` when nothing is answered. */
  function Reply(cfg: Config, n: nat, m: Msg): (r: Option<Msg>)
    requires m.Wf()
    ensures r.Some? ==> r.value.Wf() && r.value.reqId == m.reqId && r.value.sdkId == m.sdkId && r.value.len == m.len
    ensures r.Some? ==> |r.value.data| == Swap16(m.len)
  {
    var id, body := Swap16(m.sdkId), Body(m.data, Swap16(m.len));
    if !cfg.Answered(id) then None
    else
      var a := Handle(cfg, id, n, ToHost(cfg.server, id, body));
      Some(m.(ret := Swap32(a.ret), data := ToNet(cfg.server, id, a.out)))
  }

  /** A response after `cv_oam_sdk_api_rsp` has put it in host order. */
  function HostOrder(cfg: Config, m: Msg): (r: Msg)
    requires m.Wf()
    ensures r.Wf() && |r.data| == r.len
  {
    var id, len := Swap16(m.sdkId), Swap16(m.len);
    Msg(Swap32(m.ret), m.reqId, id, len, ToHost(cfg.client, id, Body(m.data, len)))
  }

  /** `memcpy(req->msg, msg, header + len)` stays inside the receive buffer and the caller's. */
  predicate Fits(target: Msg, host: Msg)
  {
    host.len <= RECEIVE_ROOM && host.len <= |target.data|
  }

  function Copied(target: Msg, host: Msg): (r: Msg)
    requires Fits(target, host) && |host.data| == host.len
    ensures |r.data| == |target.data| && r.(data := host.data) == host
  {
    host.(data := host.data + target.data[|host.data|..])
  }

  /** The result a caller is promised: the handler's code and output for this call. */
  function Promised(cfg: Config, n: nat, c: Call, id: nat): Msg
    requires c.Wf(cfg) && cfg.Answered(c.sdkId) && id < WORD
  {
    var a := Handle(cfg, c.sdkId, n, c.data);
    Msg(a.ret, Swap32(id), c.sdkId, |c.data|, a.out)
  }

  lemma Agree(cfg: Config, id: nat, d: seq<Byte>)
    requires TablesAgree(cfg) && cfg.Answered(id)
    ensures ToHost(cfg.server, id, ToNet(cfg.client, id, d)) == d
    ensures ToHost(cfg.client, id, ToNet(cfg.server, id, d)) == d
  {
    assert |cfg.client.hton(id, d)| == |d| && |cfg.server.hton(id, d)| == |d|;
  }

  /**
   * End to end: whatever the server answers to a request reaches the caller as the handler's code
   * and output in host order, with the id and length it asked with.
   */
  lemma ReplyIsPromised(cfg: Config, n: nat, c: Call, id: nat)
    requires TablesAgree(cfg) && c.Wf(cfg) && id < WORD
    ensures var r := Reply(cfg, n, Outgoing(cfg, c, id));
            if !cfg.Answered(c.sdkId) then r == None
            else r.Some? && |r.value.data| == Swap16(r.value.len) == |c.data| &&
                 HostOrder(cfg, r.value) == Promised(cfg, n, c, id)
  {
    hide TablesAgree, ToNet, ToHost, Swap16, Swap32;
    Swap16Twice(c.sdkId);
    Swap16Twice(|c.data|);
    var m := Outgoing(cfg, c, id);
    assert Body(m.data, |c.data|) == m.data;
    if cfg.Answered(c.sdkId) {
      Agree(cfg, c.sdkId, c.data);
      var a := Handle(cfg, c.sdkId, n, c.data);
      Agree(cfg, c.sdkId, a.out);
      Swap32Twice(a.ret);
      var r := Reply(cfg, n, m).value;
      assert r.data == ToNet(cfg.server, c.sdkId, a.out);
      assert Body(r.data, |c.data|) == r.data;
    }
  }

  /** The handler of this call did what a handler may: a 32-bit code, and output in the place of the data. */
  predicate HandlerOk(cfg: Config, n: nat, c: Call)
  {
    var a := cfg.handler(c.sdkId, n, c.data);
    a.ret < WORD && |a.out| == |c.data|
  }

  /** So the caller gets the code the configured handler returned and the bytes it wrote. */
  lemma ReplyIsHandlersResult(cfg: Config, n: nat, c: Call, id: nat)
    requires TablesAgree(cfg) && c.Wf(cfg) && id < WORD && c.sdkId < cfg.maxId && c.sdkId in cfg.handled
    requires HandlerOk(cfg, n, c)
    ensures var r, a := Reply(cfg, n, Outgoing(cfg, c, id)), cfg.handler(c.sdkId, n, c.data);
            r.Some? && HostOrder(cfg, r.value) == Msg(a.ret, Swap32(id), c.sdkId, |c.data|, a.out)
  {
    ReplyIsPromised(cfg, n, c, id);
    PromisedIsHandlersResult(cfg, n, c, id);
    hide Reply, HostOrder, Promised, TablesAgree, Outgoing;
  }

  lemma PromisedIsHandlersResult(cfg: Config, n: nat, c: Call, id: nat)
    requires c.Wf(cfg) && cfg.Answered(c.sdkId) && id < WORD && HandlerOk(cfg, n, c)
    ensures var a := cfg.handler(c.sdkId, n, c.data);
            Promised(cfg, n, c, id) == Msg(a.ret, Swap32(id), c.sdkId, |c.data|, a.out)
  {
    assert cfg.handler(c.sdkId, n, c.data).ret % WORD == cfg.handler(c.sdkId, n, c.data).ret;
    hide Swap32;
  }
}
