# carsmart V2X terminal: a verified model

This project models the protocol-heavy parts of the carsmart vehicle-to-vehicle terminal and proves
properties of them. `dafny verify dfyconfig.toml` checks everything.

| Part | Files | Source |
|---|---|---|
| Radiotap header walk | `Radiotap`, `RadiotapIterator`, `RadiotapProperties`, `RadiotapListing`, `RadiotapOrder`, `RadiotapGap` | `drivers/vnet/wifi/radiotap.c` |
| OAM request/response protocol | `OamTable`, `OamMessage`, `OamFrame`, `OamWire`, `OamClient`, `OamProtocol`, `OamRpc`, `OamProgress` | `app/oam/cmn`, `app/oam/external`, `app/oam/internal` |
| Monitor socket filter | `Bpf`, `MonitorFilter` | `drivers/vnet/wifi/cv_drv_wifi_dev.c` |
| DSMP/LLC/802.11 stack | `WnetFormat`, `WnetStack`, `WnetRoundTrip`, `WnetReceive` | `app/wnet`, `drivers/vnet/wifi/cv_drv_wifi.c` |
| Circular list and statistics table | `CircularList`, `StatTable` | `include/list.h`, `app/vam/cv_vam_rcp.c` |
| Bits, bytes and copies into buffers | `Bits`, `Memory` | |
| Smaller encoders | `HexMask`, `Itis`, `Ubx` | `cv_drv_wifi_util.c`, `cv_vam_rcp.c`, `ublox.c` |

**Radiotap.** `Radiotap.Contents` lists a header's fields from the decoded presence words alone. The
class `Iterator` has the C iterator's fields (shifter, running index, argument and next-namespace
pointers, reset flag) and is proved to yield exactly that list and that final error, one field per
`Next`, for any registered vendor namespaces. Every load is a function whose precondition is that it
lies inside the stated header length, so the bound on reads holds by construction of the methods;
termination is by (presence words left, bits left). `RadiotapListing` says what the listing is without
the functions that define it: exactly for headers of the standard namespace, block by block for vendors. Pointers are distances from the header; a null
pointer is a value of its own that fails every bound check.

**OAM.** `Client`, `Server` and `RequestTable` change messages and records in place and are proved
against functions on values; `OamFrame` is the message as bytes in a frame, and what one side puts on
the socket is proved to be what the other side's dispatcher takes out. `OamWire` says what those bytes
are, in network order, in terms of the configured conversions and handlers alone. `OamProtocol.Do` is the step
function of any number of requester threads, the receiver, the server and the network built from those
functions: one step per section under the mutex, and a step of its own for the time-out code, which is
written outside it. Requests, responses and their losses interleave freely. `OamProtocol` lets the
receiver process any well-formed message at all, so late, duplicate and forged responses are included;
a copy past a C buffer sets `outside`, after which nothing is claimed. `OamRpc` closes the system with
the server, where `outside` is never set, and `OamProgress` shows that its promises are not empty:
requests on their way can succeed, and the failures below can be reached.

**Filter.** `Bpf.Run` is the classic BPF machine with two readings of a jump offset: as a number, or
with PASS and FAIL as labels. The rewriting loop is proved to preserve meaning, and the attached
29-instruction program is proved equivalent to a predicate on frames (frame control as in section
8.2.4.1 of IEEE 802.11-2012).

**Stack.** Each sending layer moves the payload start down inside one buffer and writes a header; the
receive path undoes it for the RSU and the OBU wire layout. `WnetRoundTrip.Exchange` runs the one into
the other, and `WnetReceive` says what becomes of any other frame. Frames are beacons as in section 8.3.3.2 of IEEE 802.11-2012.

## What the proofs show about the code

- A field index on the gap of the standard radiotap table sends the argument pointer back to the end
  of the last vendor block, so a byte can be returned twice (`RadiotapGap.GapLetsFieldsOverlap`). This
  takes a vendor block, then a returned standard field, then the gap in force, then an argument that is
  reached; `RadiotapOrder.FallsBack` reads that pattern off the presence words. Without it the fields
  of every header are disjoint and increasing; with it some header with the same words has overlapping
  fields (`RadiotapOrder.OrderedIff`). The second half is for headers of up to 101 presence words: with
  more, 65535 bytes may not hold what the words announce, and the walk ends before the overlap.
- The length check of `cv_oam_sdk_api_rsp` compares with a length field that the first response has
  already put in host order. A second response to the same request is therefore refused unless the
  length reads the same in both byte orders (`OamRpc.FirstResponseAccepted`; a run that ends so is
  `OamProgress.SecondResponseRefused`).
- For the same reason a second response, forged with the swapped length, passes the check, and its copy
  stays inside the caller's message if and only if the swapped length is no larger
  (`OamProtocol.CopyStaysInsideIff`). For every length that grows when swapped two such responses
  overrun the message (`OamProgress.ForgedResponsesOverrun`). With the server of this repository no
  copy ever does (`OamRpc.NeverOutside`).
- The client accepts `sdk_id == max_sdk_id`, the server drops it: such a call always ends with the
  time-out code (`OamRpc.LastIdAlwaysTimesOut`), and there are such calls
  (`OamProgress.LastIdIsSentAndTimesOut`).
- The time-out code is written outside the lock, so a response copied after it replaces it
  (`OamProgress.LateResponseReplacesTimeout`); the exact code returned in each case is
  `OamProtocol.ReturnedCode`. A wait that returned zero always has a
  response behind it, and a response copied before the time-out is never lost.
- Routing needs fewer than 2^32 ids between a request and any message about it
  (`OamRpc.MatchesIff`).
- The label pass is right exactly when every labelled jump is at most 255 instructions from its
  target. `BpfAssembler.LongProgramLosesItsLabel` is a longer program whose verdict changes. Applying
  the pass twice is the same as once exactly for `Stable` programs; all programs of up to 255
  instructions are.
- The upper receive layers hand a packet up exactly when headers, payload and trailing bytes fit the
  512-byte buffer (`WnetRoundTrip.DeliversIff`).
- A hexadecimal list with empty groups can need more bytes than `parse_hex_mask` sets aside
  (`HexMask.EmptyGroupsNeedMore`); the contract of `ParseHexMask` says exactly when. Without empty
  groups everything fits (`HexMask.NonEmptyGroupsFit`).
- An encrypted DSMP send transmits nothing and reports success (`WnetStack.WnetSend`).
- The driver passes four arguments to the five parameters of `nl80211_send_monitor`: whether frames ask
  for no acknowledgement is undefined (`noack` in `WnetStack.DrvVnetSend`). The model allows both.
- An ITIS description that was not zeroed is read back as an alert (`Itis.DecodedBits`).

## Model

| member | source | states |
|---|---|---|
| RadiotapIterator.Iterator.Init | drivers/vnet/wifi/radiotap.c:90-164 | accepts exactly the headers with version 0, a length within the buffer and a terminated presence chain; afterwards the calls to come will list the whole header |
| RadiotapIterator.Iterator.ScanExtensions | drivers/vnet/wifi/radiotap.c:124-155 | succeeds exactly when the presence chain ends inside the stated length, and stops behind its last word |
| RadiotapIterator.ChainTooLong | drivers/vnet/wifi/radiotap.c:131-146 | a chain that still continues at the stated length can be ended by no number of words |
| RadiotapIterator.Iterator.FindNs | drivers/vnet/wifi/radiotap.c:166-185 | chooses the first registered namespace with this OUI and sub-namespace, none if there is none |
| RadiotapIterator.Iterator.Next | drivers/vnet/wifi/radiotap.c:234-396 | returns the first field of the reference listing and keeps the rest, or returns the listing's error and changes nothing to come; terminates |
| RadiotapIterator.Iterator.Argument | drivers/vnet/wifi/radiotap.c:250-346 | alignment, padding, vendor block and bound checks place the argument as the format says |
| RadiotapIterator.Iterator.Special | drivers/vnet/wifi/radiotap.c:348-390 | namespace bits, the extension bit and ordinary hits move the walk on as the format says, towards later bits or words only |
| RadiotapIterator.Iterator.Drain | drivers/vnet/wifi/radiotap.c:211-235 | calling until an error lists exactly the reference fields and that error |
| RadiotapIterator.Iterator.CallAgain | drivers/vnet/wifi/radiotap.c:242-282 | errors are sticky: every later call returns the same code |
| RadiotapIterator.Walk | drivers/vnet/wifi/radiotap.c:90-396 | initialise and drain: refused exactly when the presence chain is broken, otherwise the reference listing of the header |
| Radiotap.LookupIs | drivers/vnet/wifi/radiotap.c:166-185 | the namespace chosen is the first registered one with this OUI and sub-namespace, none exactly when there is none |
| RadiotapListing.IndexBaseFrom | drivers/vnet/wifi/radiotap.c:364-387 | field indices count on over words and start again behind a word with a namespace bit |
| RadiotapListing.PlainContents | drivers/vnet/wifi/radiotap.c:242-390 | without namespace bits and the gap, the listing is exactly the fields present in the first word, in order, each at its next aligned offset, up to the first that does not fit (EINVAL) or to the end (ENOENT), whatever later words announce |
| RadiotapListing.VendorBlockIs | drivers/vnet/wifi/radiotap.c:305-346 | a registered vendor block leads into its namespace behind six bytes, any other is returned with the bytes it says to skip, read from the header's bytes |
| RadiotapListing.UncoveredBit | drivers/vnet/wifi/radiotap.c:266-282 | a bit past a registered table returns nothing and leads behind the block |
| RadiotapProperties.ContentsInBounds | drivers/vnet/wifi/radiotap.c:286-346 | every field starts at or after the presence words, ends inside the stated length and, for power-of-two alignments, is aligned from the header start |
| RadiotapProperties.StandardAligned | drivers/vnet/wifi/radiotap.c:24-50 | the standard table needs no assumption on alignments |
| RadiotapOrder.ContentsOrdered | drivers/vnet/wifi/radiotap.c:242-390 | without registered namespaces, fields are disjoint and increasing unless the presence words have the pattern that leads back over a vendor block |
| RadiotapOrder.OrderedIff | drivers/vnet/wifi/radiotap.c:242-390 | for up to 101 presence words, order holds for every header with these words if and only if they do not have that pattern |
| RadiotapOrder.HarmlessNeverFallsBack | drivers/vnet/wifi/radiotap.c:276-282 | words whose gap bits in force each follow a vendor word, or have no vendor block before them, do not have the pattern |
| RadiotapGap.GappedContents | drivers/vnet/wifi/radiotap.c:276-282 | a family of headers with a present gap bit whose walk lists one byte twice |
| RadiotapGap.GapLetsFieldsOverlap | drivers/vnet/wifi/radiotap.c:276-282 | a concrete, well-formed 27-byte header has the pattern and overlapping fields |
| RadiotapProperties.NullFailsBoundCheck | drivers/vnet/wifi/radiotap.c:343-346 | the C bound check on a null pointer wraps beyond every 16-bit length |
| BpfAssembler.RewriteJumps | drivers/vnet/wifi/cv_drv_wifi_dev.c:145-167 | the loop resolves every label in place and touches nothing else |
| BpfAssembler.TargetsKeptIff | drivers/vnet/wifi/cv_drv_wifi_dev.c:149-166 | rewritten jumps lead to the labelled returns if and only if no offset is truncated |
| BpfAssembler.RewritePreservesRun | drivers/vnet/wifi/cv_drv_wifi_dev.c:145-167 | for every program, state and packet the rewritten program gives the labelled program's verdict |
| BpfAssembler.RewrittenJumpsLandInside | drivers/vnet/wifi/cv_drv_wifi_dev.c:145-167 | after the pass every jump lands forward and inside the program |
| BpfAssembler.RewriteTwiceIff | drivers/vnet/wifi/cv_drv_wifi_dev.c:145-167 | rewriting twice equals rewriting once if and only if no label resolves to the other label's number |
| BpfAssembler.ShortProgramsAssemble | drivers/vnet/wifi/cv_drv_wifi_dev.c:33-34 | programs of up to 255 instructions satisfy both conditions |
| BpfAssembler.LongProgramLosesItsLabel | drivers/vnet/wifi/cv_drv_wifi_dev.c:157-160 | a 300-instruction program whose verdict the pass changes on every packet |
| MonitorFilter.KeepsWanted | drivers/vnet/wifi/cv_drv_wifi_dev.c:36-134 | the labelled program keeps exactly management frames, To-DS data frames, frames with both DS bits, empty frames and EAPOL frames, all loads in bounds |
| MonitorFilter.FilterShape | drivers/vnet/wifi/cv_drv_wifi_dev.c:129-139 | the filter has 29 instructions, ends in its two returns, and both conditions of the pass hold |
| MonitorFilter.AttachedFilterLanguage | drivers/vnet/wifi/cv_drv_wifi_dev.c:36-167 | the program as attached keeps exactly those packets |
| WnetStack.GetTxBuf | app/wnet/cv_wnet_fp.c:112-120 | a zeroed buffer with room for all headers in front of the payload |
| WnetFormat.InjectedBytes | drivers/vnet/wifi/cv_drv_wifi_dev.c:504-512 | the message for the socket, byte by byte: radiotap, 802.11, LLC, security and DSMP headers and the payload |
| WnetStack.WriteMacHeader | drivers/vnet/wifi/cv_drv_wifi.c:45-59 | a beacon header and the fixed elements in the 38 bytes before the payload, nothing else |
| WnetStack.DrvVnetSend | drivers/vnet/wifi/cv_drv_wifi.c:39-68 | the message sent is the driver's radiotap header and the RSU layout of the packet; only headroom is written; no message without a socket |
| WnetStack.Driver.SendMonitor | drivers/vnet/wifi/cv_drv_wifi_dev.c:500-555 | one message goes out, with the encryption and acknowledgement flags in its radiotap header, unless there is no socket or sending fails |
| WnetStack.LlcSend | app/wnet/cv_wnet_llc.c:32-58 | an LLC header for DSMP in front, anything else is refused |
| WnetStack.DsmpSend | app/wnet/cv_wnet_dsmp.c:38-77 | security and DSMP headers in front; an encrypted send transmits nothing and reports success |
| WnetStack.WnetSend | app/wnet/cv_wnet_fp.c:143-159 | a plain DSMP payload goes out as one RSU frame, all headers in the headroom, payload untouched; an encrypted one is not sent and reported as sent; other protocols are refused |
| WnetStack.DrvVnetRecv | drivers/vnet/wifi/cv_drv_wifi.c:70-134 | the first frame that is not skipped is stripped to its packet; foreign networks and own frames are skipped |
| WnetStack.RadiotapLength | drivers/vnet/wifi/cv_drv_wifi.c:88-93 | initialising the iterator decides exactly which headers are accepted and how long they are |
| WnetStack.StripInPlace | drivers/vnet/wifi/cv_drv_wifi.c:95-130 | the in-place move of the OBU layout's LLC header and the copy-out give the reference cut |
| WnetStack.FpRecv | app/wnet/cv_wnet_fp.c:93-110 | what reaches the message layer is the reference delivery |
| WnetStack.LlcRecv | app/wnet/cv_wnet_llc.c:60-92 | short frames and foreign ether types are dropped |
| WnetStack.DsmpRecv | app/wnet/cv_wnet_dsmp.c:79-134 | the security header decides where the DSMP header is; other applications and elements are dropped |
| WnetRoundTrip.AcceptablePrefix | drivers/vnet/wifi/cv_drv_wifi.c:88-94 | a receiver's radiotap header is accepted whatever follows it |
| WnetRoundTrip.StripsRsu | drivers/vnet/wifi/cv_drv_wifi.c:101-128 | an RSU frame from another station is stripped to packet and trailer |
| WnetRoundTrip.StripsObu | drivers/vnet/wifi/cv_drv_wifi.c:113-120 | so is an OBU frame, despite the in-place move |
| WnetRoundTrip.LayoutsAgree | drivers/vnet/wifi/cv_drv_wifi.c:95-128 | both layouts of the same packet are received as the same bytes, length and sender |
| WnetRoundTrip.DeliversIff | app/wnet/cv_wnet_fp.c:93-110 | the payload is delivered if and only if headers, payload and trailer fit the receive buffer |
| WnetRoundTrip.RoundTrip | app/wnet/cv_wnet_dsmp.c:38-134 | every payload that fits, from any other station, behind any radiotap header and before any trailer, arrives as sent |
| WnetRoundTrip.SkippableIsSkipped | drivers/vnet/wifi/cv_drv_wifi.c:88-99 | frames of other networks or of the station itself are skipped, over any buffer contents |
| WnetRoundTrip.OwnFramesSkipped | drivers/vnet/wifi/cv_drv_wifi.c:95 | a station's own frames are among those, behind any radiotap header |
| WnetRoundTrip.StreamDelivers | drivers/vnet/wifi/cv_drv_wifi.c:79-130 | in any stream, behind any number of skipped frames and over any stale buffer, another station's frame comes out as its payload and sender |
| WnetRoundTrip.TxRadiotapIsValid | drivers/vnet/wifi/cv_drv_wifi_dev.c:504-512 | the driver's own radiotap header is one the iterator accepts, ending where the frame starts |
| WnetRoundTrip.Exchange | app/wnet/cv_wnet_fp.c:93-159 | the frame that sending a payload hands to the socket is received by another station, in any such stream, as that payload from that sender |
| WnetRoundTrip.FilterKeepsSentFrames | drivers/vnet/wifi/cv_drv_wifi.c:45-59 | every frame the driver builds passes the attached filter behind any radiotap header |
| WnetReceive.RefusesBadHeaders | drivers/vnet/wifi/cv_drv_wifi.c:88-91 | a radiotap header that is too short, of another version or longer than the message ends the reception |
| WnetReceive.StripIs | drivers/vnet/wifi/cv_drv_wifi.c:95-130 | for any frame at all: skipped for another network or the own address, else cut by its layout byte, the third layout with stale bytes included |
| WnetReceive.ForeignIsSkipped | drivers/vnet/wifi/cv_drv_wifi.c:79-99 | a frame of another network or of the station itself is passed over, over any buffer and before any rest of the stream |
| WnetReceive.DeliverIs | app/wnet/cv_wnet_llc.c:60-92 | for any packet of up to 512 bytes: short ones and other ether types are dropped, other applications and elements too, behind a marked or an unmarked security header; the rest is delivered with its stated length |
| WnetReceive.DeliverTooLarge | app/wnet/cv_wnet_fp.c:93-110 | a larger packet does not fit the receive buffer |
| OamTable.RequestTable.RecordAlloc | app/oam/external/oam_ext_sdk.c:18-47 | takes the first free record and the next id; a failed semaphore leaves it free |
| OamTable.AllocatedIs | app/oam/external/oam_ext_sdk.c:18-47 | the first free record gets the next id and a zero count; a failed semaphore uses up an id only; a full table stays as it is |
| OamTable.RequestTable.RecordFree | app/oam/external/oam_ext_sdk.c:49-57 | clears exactly this record |
| OamTable.RequestTable.RecordFind | app/oam/external/oam_ext_sdk.c:60-77 | finds the first valid record with this id |
| OamTable.RequestTable.constructor | app/oam/external/oam_ext_sdk.c:185-202 | 255 free records, first id 0 |
| Bits.Swap16Twice | app/oam/cmn/oam_types.h:142-149 | the 16-bit byte swap undoes itself |
| Bits.BigEndian16 | app/oam/cmn/oam_types.h:142-149 | the 16-bit swap of a stored field is its bytes in network order |
| OamMessage.Swap32Twice | app/oam/cmn/oam_types.h:126-139 | the 32-bit byte swap undoes itself |
| OamMessage.BigEndian32 | app/oam/cmn/oam_types.h:126-139 | the 32-bit swap of a stored field is its bytes in network order |
| OamMessage.ReplyIsPromised | app/oam/internal/oam_int_sdk.c:27-53 | with agreeing tables, a reply in host order is the handler's code and output under the caller's id and length; unanswered ids get none |
| OamMessage.ReplyIsHandlersResult | app/oam/internal/oam_int_sdk.c:27-53 | with agreeing tables, a reply in host order has the code the configured handler returned and the bytes it wrote |
| OamFrame.DecodeEncode | app/oam/cmn/oam_sdk_cmn.h:20-29 | the packed message structure laid over encoded bytes reads back every field and the data |
| OamFrame.FrameTypes | app/oam/external/oam_ext_main.c:166-167 | frame type and command type, read big-endian, and the message behind them |
| OamFrame.FillPacket | app/oam/external/oam_ext_main.c:154-178 | the packet starts with frame type and command type in network order, read big-endian from its bytes, and the message's bytes |
| OamFrame.DispatchFrame | app/oam/external/oam_ext_main.c:47-80 | from the bytes of a frame in a cleared receive buffer the dispatcher takes the message that was sent, and nothing for any other frame or command type |
| OamWire.RequestBytes | app/oam/external/oam_ext_sdk.c:94-112 | the bytes of a request: 00 02 00 01, code 0, then id, `sdk_id` and length big-endian, then the data as the configured table converts it |
| OamWire.ReplyBytes | app/oam/internal/oam_int_sdk.c:19-54 | from a request's bytes: answered exactly when the big-endian id has a handler, with the configured handler's code and its converted output, under the same id and length |
| OamWire.AnswerBytes | app/oam/internal/oam_int_sdk.c:57-81 | the frame of an answer starts 00 02 00 02 |
| OamWire.HostOrderBytes | app/oam/external/oam_ext_sdk.c:152-168 | from a response's bytes: code, `sdk_id` and length as their big-endian reads, data as the configured table converts it |
| OamClient.Client.SendMsg | app/oam/external/oam_ext_main.c:154-178 | one frame with these types, read big-endian, and the message's bytes is sent; messages beyond the packet buffer are refused and a failed send is reported, with nothing sent |
| OamClient.Client.Proc | app/oam/external/oam_ext_main.c:47-80 | command responses are handled as the message in the buffer says, everything else changes nothing |
| OamClient.AnswerIsDispatched | app/oam/external/oam_ext_main.c:47-80 | the frame of an answer reaches the client's handler as that answer, the same in host order |
| OamClient.RequestIsDispatched | app/oam/internal/oam_int_sdk.c:19-54 | the frame of a request reaches the server's handler as that request, with the same answer |
| OamClient.Server.SendMsg | app/oam/internal/oam_int_sdk.c:57-81 | one command frame with this type, read big-endian, and the message's bytes is sent, or nothing when it is too large or sending fails |
| OamClient.Client.RequestBegin | app/oam/external/oam_ext_sdk.c:80-120 | the four ways a request starts, with the message, the table and the frame sent after each; the data left and sent is what the configured table converts it to, the numbers in the frame are big-endian |
| OamClient.Client.RequestTimedOut | app/oam/external/oam_ext_sdk.c:122-124 | writes the time-out code and nothing else |
| OamClient.Client.RequestEnd | app/oam/external/oam_ext_sdk.c:126-131 | frees the record and returns the code in the message |
| OamClient.Client.ApiRsp | app/oam/external/oam_ext_sdk.c:135-182 | a response is copied to the message of the record with its id when the lengths agree, and counted, its numbers and data as the configured table converts them; a copy past either buffer is an outcome of its own; without one no other message changes |
| OamClient.Server.MsgHandler | app/oam/internal/oam_int_sdk.c:19-54 | answers in the request's own buffer and sends a frame with the configured handler's code and converted output, or, without a handler, leaves the message alone and sends nothing |
| OamProtocol.StepKeeps | app/oam/external/oam_ext_sdk.c:80-182 | every step of every thread, the receiver, the server and the network keeps exclusive ownership of records and explained buffers, unless it copies past a buffer |
| OamProtocol.BeginOutcome | app/oam/external/oam_ext_sdk.c:105-120 | a request that begins waits with a fresh record and its message on the way, or is over with code 8, 3 or -1 and leaves no record behind |
| OamProtocol.Safety | app/oam/external/oam_ext_sdk.c:80-182 | the invariant holds after every interleaving from the initial table in which no copy left a buffer |
| OamProtocol.RecordsAreExclusive | app/oam/external/oam_ext_sdk.c:105-131 | two requests in flight never share a record |
| OamProtocol.BufferIsPrivate | app/oam/external/oam_ext_sdk.c:126-131 | once a request has freed its record no step of anyone else that stays inside its buffer changes its message |
| OamProtocol.DeliverWritesItsOwner | app/oam/external/oam_ext_sdk.c:142-178 | a response changes at most the message of the in-flight owner of a record with its id and length, to that message with the response's bytes in front |
| OamProtocol.CopyStaysInsideIff | app/oam/external/oam_ext_sdk.c:170-176 | an accepted copy stays inside the buffers if and only if its length fits the receive buffer and an even number of responses was copied before or the swapped length is no larger than the request's |
| OamProtocol.ExpiresOnlyUnanswered | app/oam/external/oam_ext_sdk.c:122 | the wait can time out only while no response was copied |
| OamProtocol.ReturnedCode | app/oam/external/oam_ext_sdk.c:122-131 | which code a request returns: the last response's, or the time-out code unless a response came after it was written; every copied response had this request's id and the expected length |
| OamProtocol.ResponseBeforeTimeoutWins | app/oam/external/oam_ext_sdk.c:105-131 | over whole runs, a request answered while it waits never times out |
| OamRpc.LiveIdsDistinct | app/oam/external/oam_ext_sdk.c:31-34 | with fewer than 2^32 ids issued during a request's life, live ids are pairwise distinct |
| OamRpc.DeliveredToItsRequest | app/oam/external/oam_ext_sdk.c:142-150 | a response reaches the request it answers or none: never a reused record |
| OamRpc.MatchesIff | app/oam/external/oam_ext_sdk.c:60-77 | a response matches a record exactly when the numbers agree modulo 2^32 |
| OamRpc.FirstResponseAccepted | app/oam/external/oam_ext_sdk.c:170-178 | the length check never rejects the first response to a request in flight; a second one passes only for a byte-symmetric length |
| OamRpc.NeverOutside | app/oam/external/oam_ext_sdk.c:170-176 | no response of this server is ever copied past a buffer |
| OamRpc.ClosedSafety | app/oam/external/oam_ext_sdk.c:80-182 | over every run with this server, no copy leaves a buffer and histories contain handler results only |
| OamRpc.SuccessfulCallReturnsHandlersResult | app/oam/external/oam_ext_sdk.c:92-131 | over every run, a successful wait leaves the code the configured handler returned and the bytes it wrote for this very call, in host order, with id and length restored |
| OamRpc.LastIdAlwaysTimesOut | app/oam/internal/oam_int_sdk.c:30-42 | a call the server does not answer, the id just past its last one included, returns the time-out code |
| OamProgress.BeginIsOnItsWayIff | app/oam/external/oam_ext_sdk.c:105-120 | a request begun in any reachable state is waiting with its message on the way if and only if there is a record and the frame can be sent |
| OamProgress.CanComplete | app/oam/external/oam_ext_sdk.c:122-178 | from every reachable state a waiting request on its way has a run in which it is served, its response accepted and its wait succeeds |
| OamProgress.EveryCallCanSucceed | app/oam/external/oam_ext_sdk.c:80-182 | every answered call that fits a frame has a run from the start in which it succeeds |
| OamProgress.SecondResponseRefused | app/oam/external/oam_ext_sdk.c:170-178 | for every length that is not byte-symmetric a run from the start ends with a second response in flight that is refused although its record is there |
| OamProgress.LateResponseReplacesTimeout | app/oam/external/oam_ext_sdk.c:122-131 | every answered call has a run from the start in which its wait times out and it returns the handler's code |
| OamProgress.LastIdIsSentAndTimesOut | app/oam/external/oam_ext_sdk.c:87-90 | a call with the id past the server's last one has a run from the start in which it is sent and times out |
| OamProgress.ForgedResponsesOverrun | app/oam/external/oam_ext_sdk.c:170-176 | for every length that grows when swapped, two forged responses lead from the start to a copy past the caller's message |
| CircularList.ListAddBetween | include/list.h:34-42 | inserts between two neighbours of any circle, also when they are the same node |
| CircularList.ListAdd | include/list.h:52-55 | the new node becomes the first element |
| CircularList.ListAddTail | include/list.h:65-68 | the new node becomes the last element |
| CircularList.ListDelBetween | include/list.h:77-81 | takes a node out of the circle and leaves its own links |
| CircularList.ListDel | include/list.h:88-101 | removes exactly the element, also next to the head or the only one |
| CircularList.ListDelInit | include/list.h:107-111 | removes the element and makes it a list of its own |
| CircularList.ListReplace | include/list.h:120-127 | the new node takes the old one's place, self-linked nodes and heads included |
| CircularList.ListMove | include/list.h:134-138 | within one list the entry becomes the first element |
| CircularList.ListMoveTail | include/list.h:145-150 | within one list the entry becomes the last element |
| CircularList.ListMoveAcross | include/list.h:134-138 | from one list to the front of another, both stay lists |
| CircularList.ListMoveTailAcross | include/list.h:145-150 | from one list to the end of another, both stay lists |
| CircularList.HeadNeighbours | include/list.h:156-159 | the head is its own neighbour exactly for the empty list |
| CircularList.NextElement | include/list.h:205-208 | the traversal goes from each element to the next and from the last to the head |
| StatTable.Table.Search | app/vam/cv_vam_rcp.c:49-56 | finds the node with the pid, or there is none |
| StatTable.Table.FindSta | app/vam/cv_vam_rcp.c:47-72 | the node for the pid, a new zeroed one in front if there was none, null only when memory is short; pids stay distinct, counts unchanged |
| StatTable.Table.CountMessage | app/vam/cv_vam_rcp.c:375-381 | one more message is counted, under its pid, and its distance stored with it; without memory for a new node nothing is counted and the call fails |
| StatTable.Table.Empty | app/vam/cv_vam_rcp.c:74-89 | terminates, unlinks each node once in list order, leaves an empty list |
| StatTable.TallyAt | app/vam/cv_vam_rcp.c:47-56 | with distinct pids a node's count is its pid's multiplicity |
| StatTable.TallyIncrement | app/vam/cv_vam_rcp.c:379 | counting one node up adds exactly its pid to what was counted |
| StatTable.CountAll | app/vam/cv_vam_rcp.c:375-381 | over a whole run since the last emptying, the table holds every message once and one node per pid |
| HexMask.ParseHexMask | drivers/vnet/wifi/cv_drv_wifi_util.c:69-131 | the exact outcome, length, bytes and mask bits for any text, and which colons were cut |
| HexMask.StrtoulReads | drivers/vnet/wifi/cv_drv_wifi_util.c:109-111 | the value of a whole numeral: space, sign, prefix and digits; too large saturates, negative wraps |
| HexMask.StrtoulIff | drivers/vnet/wifi/cv_drv_wifi_util.c:109-114 | a non-empty group is read to its end if and only if it is such a numeral |
| HexMask.SkipIff | drivers/vnet/wifi/cv_drv_wifi_util.c:98-102 | exactly `-`, `xx` and `--` skip a byte, and only with a mask |
| HexMask.CellReads | drivers/vnet/wifi/cv_drv_wifi_util.c:104-111 | any other numeral is the low 32 bits of its value if they are a byte, else refused |
| HexMask.BadIfNoNumeral | drivers/vnet/wifi/cv_drv_wifi_util.c:109-111 | a non-empty group that is no numeral is refused |
| HexMask.TwoDigits | drivers/vnet/wifi/cv_drv_wifi_util.c:104-111 | two hexadecimal digits of either case are read as their byte |
| HexMask.GroupsOfJoin | drivers/vnet/wifi/cv_drv_wifi_util.c:92-97 | splitting at colons undoes joining with colons |
| HexMask.JoinOfGroups | drivers/vnet/wifi/cv_drv_wifi_util.c:92-97 | joining undoes splitting, and no group holds a colon |
| HexMask.PrintedCell | drivers/vnet/wifi/cv_drv_wifi_util.c:99-114 | a printed byte or wildcard is read as what it was |
| HexMask.ParsePrinted | drivers/vnet/wifi/cv_drv_wifi_util.c:69-125 | parsing undoes printing: count, every byte, every mask bit |
| HexMask.NonEmptyGroupsFit | drivers/vnet/wifi/cv_drv_wifi_util.c:72-90 | without empty groups every write stays inside the buffers |
| HexMask.EmptyGroupsNeedMore | drivers/vnet/wifi/cv_drv_wifi_util.c:72-114 | a text of four colons needs a fifth byte where four were set aside |
| Itis.EncodeItisCode | app/vam/cv_vam_rcp.c:253-271 | bit 0 is returned, bits 1 to 8 overwrite their descriptions, the others keep theirs |
| Itis.ItisCodeToRsaMask | app/vam/cv_vam_rcp.c:273-283 | adds the bit of the first entry with this code, if any |
| Itis.DecodeItisCode | app/vam/cv_vam_rcp.c:284-297 | the mask holds exactly the alerts whose codes were sent |
| Itis.SentStands | app/vam/cv_vam_rcp.c:253-297 | which alert each received code stands for |
| Itis.DecodedBits | app/vam/cv_vam_rcp.c:253-297 | what comes back: the alerts that were set and those a stale description names |
| Itis.RoundTrip | app/vam/cv_vam_rcp.c:253-297 | for every table of at least 8 distinct non-zero codes and zeroed descriptions, decoding an encoded mask returns its bits below min(9, N) |
| Itis.ShippedTable | app/vam/cv_vam_rcp.c:27-32 | for the repository's own table, the eight alerts survive and bit 8 does not |
| Ubx.ChecknumCalc | drivers/gps/ublox.c:23-34 | despite 16-bit accumulators, the sum and the position-weighted sum of the bytes modulo 256 |
| Ubx.ChecksumSteps | drivers/gps/ublox.c:23-34 | both sums start at 0; each byte is added to the first, and the first to the second, modulo 256 |
| Ubx.ByteDamageIsSeen | drivers/gps/ublox.c:23-34 | any change of one byte changes the checksum |
| Ubx.NeighbourDamageIsSeen | drivers/gps/ublox.c:23-34 | any change confined to two neighbouring bytes, their exchange included, changes the checksum |
| Ubx.ExchangeIsSeenIff | drivers/gps/ublox.c:23-34 | the exchange of two bytes changes the checksum if and only if distance times difference is no multiple of 256 |

## Left out

- Sockets, netlink, threads, timers, semaphores and the mutex are foreign: their outcomes are
  parameters (`accepts`, `netOk`, `semOk`), time-out is a step that may happen, a locked section is one step.
- Memory allocation succeeds except where a parameter says otherwise; `free` is not modelled.
- TCP framing: one OAM frame per `recv` into a cleared buffer. The server's receive loop is not part of
  this model; it is taken to dispatch like `cv_oam_proc`, on requests.
- OAM: asserts on null pointers; the unused header field `reservd`, sent as zeros. A request of 65520
  bytes or more, whose total length wraps in 16 bits, and a reply too large to send count as lost
  messages.
- OAM: conversions and handlers that would write past the bytes they are given.
- OAM: what happens after a copy left a buffer (`outside`, `Outside`). Conversions in place stay inside
  the receive buffer, whatever the length field says; only the copy to the caller is checked.
- OAM: a response with an `sdk_id` past the client's table, which the C code only reports before
  indexing the table, is converted by an entry that changes nothing.
- OamProtocol.Safety: threads do not share one message object between concurrent requests.
- OamProtocol.BufferIsPrivate: nothing about the step that leaves a buffer.
- OamClient.Client.ApiRsp: the caller's messages and the receiver's buffer are different objects.
- Byte order: a little-endian host.
- The encrypted DSMP branch of sending builds no packet, so there is no round trip to state for it. The
  receiving branch is modelled as it is: it steps over the security header twice and over the
  information block once.
- Reads and copies past a C buffer during reception end in `Outside`, `Beyond` or `Undefined`; what
  the machine would do then is not modelled.
- The radiotap override table is not compiled in. Pointer arithmetic does not overflow.
- RadiotapOrder.ContentsOrdered: only without registered vendor namespaces, whose tables may have sizes
  of zero and whose blocks announce their own end.
- RadiotapOrder.OrderedIff: headers of more than 101 presence words, for which only the one direction
  `RadiotapOrder.ContentsOrdered` is stated.
- What the kernel does with the driver's radiotap header in front of injected frames.
- `list_move` of a list's head onto itself, `list_splice`-like helpers, and the debug branch of `list_del`.
- StatTable.Table.CountMessage: the null pointer that is followed when memory is short is the outcome
  `!ok`; how the distance is computed.
- HexMask.ParseHexMask: allocation failure, and the freed buffers of a refused text. `unsigned long`
  has `ulong` values, a parameter; round trips need at least 2^32 of them.
- Itis.ItisCodeToRsaMask: tables with more than 31 alerts, for which the C shift is undefined.
- Float encoders of speed, heading and position, `mktime`, flash storage and the human interface.
- Multi-hop forwarding and the neighbour table; channel and frequency mapping; MAC address and hex
  digit conversion: easy members that would prove little.
