# Packet Browser: a verified model

Packet Browser carries web pages over packet radio. A client on the operator's
machine sends text requests through an AGWPE modem and a LinBPQ node to a
server, and gets each page back as one text frame. The link chops the stream
anywhere, puts node text in front of it, swaps line feeds and carriage returns,
stalls, and dies. This project models the code that has to stay correct over
such a link and proves what it promises.

The modules follow the program:

- `Bytes`, `Utf8`, `Decimal`, `Base64`: byte strings, UTF-8 and white space, the
  number formats of the header, RFC 4648 base64 (sections 4 and 5). A Rust
  `String` is a byte string that is valid UTF-8.
- `RequestCodec`, `ResponseCodec`: the two wire formats of `shared/src/protocol.rs`.
- `Teardown`, `Reassembly`: the session-death markers and the loop that rebuilds
  a response from Data events.
- `AgwpeFrame`, `AgwpeTransport`, `LinkStack`: the modem protocol, its stream
  reader and data path, and both receive layers together.
- `ServerReader`, `PreAuth`, `Admission`, `AddressFilter`: the server's
  incremental reader, its conversation before the request loop, its connection
  counters, and its address filter.
- `Cache`, `Browse`: the client's page cache and the browse request around it.
- `SessionTrace`, `SessionInputs`, `SessionActor`: the session manager with its
  operator and peer: what it does, what reaches it, and the actor itself.

Objects that the source updates in place are classes here (`Transport`,
`Socket`, `Counters`, `Cache`, `Proxy`, `Manager`), and each of their methods is
proved against a function of the old state or of the whole byte stream. The
outside world is data: a script of socket events, of transport outcomes and arrivals, of
other tasks' steps, over all of which the theorems range. `Manager.trace` and
`Proxy.ledger` are ghost records of what happened.

## Conditions and exceptions

Where the code keeps a promise only under a condition, the condition is stated
exactly:

- Alignment (`Reassembly.EveryCutServed`): a response is rebuilt under every
  cutting of the stream if and only if the text pending before it leaves room for
  three more bytes in the 32 KiB noise limit, and pending text and frame together
  fit the 10 MiB response limit.
- Abort (`SessionActor.Manager.HandleSendRequestWithReconnect`): once the
  operator disconnects at most one more protocol action is started, if and only
  if there is no `Race(2)`: the flag rises between the last look at it and the
  first send, that send succeeds, and then silence, a disconnect or a death marker
  ends the session at once. Exactly then both the request goes out and the
  connection is reopened, because `handle_reconnect` does not look at the flag
  before reopening.
- Recovery (`SessionActor.Manager.HandleSendRequestWithReconnect`): when nobody
  disconnects or clears the agreement, a request whose session died is answered by
  the second call if and only if the modem and the link reopen, what is sent goes
  out, both prompts come within the size limit and the disclaimer is, byte for
  byte, the stored agreement. If it differs, and only then, the operator is asked.
- Consent (`SessionTrace.StillStoredExactly`, `SessionActor.Manager.AutoConsent`):
  the stored agreement is read in one step and AGREE is sent in a later one. When
  AGREE goes out the agreement is still stored if and only if nothing cleared or
  replaced it between the two. The only code that clears it is the HTTP handler of
  a disconnect (`client/src/proxy.rs:886-891`), after the serial actor answered its
  `CloseSession`; so a clear falls between the two steps only when that handler is
  held up until a later session has been opened, which resets the abort flag, and
  is being reconnected. `SessionActor.AgreeAfterClear` takes the actor through
  the two steps with such a clear between them.
- Staleness (`Browse.LatestExactly`, `Browse.NoStoreLeavesOlder`): a page answered
  without radio traffic arrived recently (`Browse.BrowseAll`), but a page sent
  under no-store leaves an older cache entry in place: the cache serves the last
  page sent if and only if that page was storable or has the cached etag. A
  confirmation renews an entry's time but not its age limit.
- Requests (`ServerReader.ReaderAgrees`): the server's reader returns what
  `Request::decode` returns if and only if the first line does not end in white
  space, because the reader trims the line.
- Callsigns (`PreAuth.DuplicateSkippedExactly`): a repeated callsign line is
  recognised as noise if and only if no SSID was entered or it starts with `***`;
  the comment in `server/src/main.rs` does not make that exception.
- Addresses (`AddressFilter.ValidatedCanBePinned`): a validated URL whose host is
  an address literal can still be refused when it is pinned, if and only if the
  literal's text is on the name lists, which URL validation does not consult
  for literals.

## Model

| member | source | states |
|---|---|---|
| `Utf8.WhiteSpaceExactly` | server/src/main.rs:483 | what `trim` takes away are the code points with the Unicode property White_Space, CR and LF among them, and no others |
| `Utf8.TrimExactly` | server/src/main.rs:345-370 | ASCII white space around a text that neither starts nor ends with white space goes, and nothing else does |
| `Base64.DecodeEncode` | shared/src/protocol.rs:168-170 | decoding undoes encoding for every byte string, in both alphabets |
| `Base64.EncodeDecode` | shared/src/protocol.rs:245-250 | the decoder accepts canonical text only: what it accepts is what encoding its result prints |
| `Base64.AlphabetExactly` | shared/src/protocol.rs:168-170 | the characters of both alphabets, as RFC 4648 lists them (sections 4 and 5) |
| `Base64.SameBits` | shared/src/protocol.rs:168-170 | three bytes and their four characters are the same 24-bit number, most significant bits first |
| `Decimal.U32RoundTrip` | shared/src/protocol.rs:182-238 | the length field survives printing and `parse::<u32>` for every 32-bit value |
| `Decimal.I32RoundTrip` | shared/src/protocol.rs:186-239 | the age field survives printing and `parse::<i32>` for every 32-bit value, the minimum included |
| `ResponseCodec.MagicAfter` | shared/src/protocol.rs:197-203 | `RESP` does not overlap itself: behind text without it, it is found exactly where the frame starts |
| `ResponseCodec.WireWords` | shared/src/protocol.rs:168-192 | the frame field by field: `RESP`, the status digit, length, etag and age in words, the payload, each line closed by LF |
| `ResponseCodec.FrameRoundTrip` | shared/src/protocol.rs:168-250 | behind any `RESP`-free text, under any LF/CR rewriting, before any following bytes, the two decoders recover the response if and only if its base64 length fits u32, its age fits i32 and its etag is valid |
| `ResponseCodec.EncodeTelnetSafe` | shared/src/protocol.rs:139-192 | every encoded byte is LF or printable ASCII |
| `ResponseCodec.DecodeHeaderStable` | shared/src/protocol.rs:194-242 | a header or an error decided on a prefix of the stream is the decision on every longer prefix |
| `ResponseCodec.EtagOfDigestValid` | shared/src/protocol.rs:480-486 | the server's etags always pass the header's check and are equal only for equal hash prefixes |
| `RequestCodec.SentinelPosition` | shared/src/protocol.rs:98-110 | the sentinel is first found at the end of the URL if and only if the URL neither contains it nor ends with all of it but the last blank |
| `RequestCodec.RoundTrip` | shared/src/protocol.rs:55-135 | with any bytes behind it a request decodes to itself if and only if: no LF in URL or etag, no sentinel clash for a GET, a body shorter than 2^32 for a POST |
| `Teardown.NoFalseSessionDeath` | client/src/transport/agwpe.rs:199-219 | after marker-free text no prefix of the stream of a response contains a teardown marker, whatever the cut and the payload |
| `Teardown.DeadExactly` | client/src/transport/agwpe.rs:199-219 | a text ends the session if and only if it contains `*** DISCONNECTED` or `Returned to Node` |
| `Reassembly.OneMorePiece` | client/src/transport/session.rs:430-540 | what one more piece does to a call that waits, judged by all that came: over 10 MiB, a node's last words, an invalid header, or more than 32 KiB without `RESP` end it |
| `Reassembly.CallServed` | client/src/transport/session.rs:395-540 | one call, any cutting: the buffer returned decodes to the response sent, and at most the frame's closing byte is left unread |
| `Reassembly.EveryCutServed` | client/src/transport/session.rs:395-540 | every cutting is served if and only if the pending text and the frame stay within the two size limits |
| `Reassembly.Alignment` | client/src/transport/session.rs:369-540 | over a whole session without timeouts, aborts or deaths, call k returns response k, although each frame's last byte leaks into the next call |
| `AgwpeFrame.CallRoundTrip` | client/src/transport/agwpe.rs:118-196 | a callsign survives its 10-byte field if and only if it has at most nine bytes and no NUL |
| `AgwpeFrame.FrameRoundTrip` | client/src/transport/agwpe.rs:90-190 | a frame built by `new` survives encoding and decoding if and only if its data is at most 64 KiB and its callsigns fit |
| `AgwpeFrame.FrameBytes` | client/src/transport/agwpe.rs:109-146 | the encoded frame byte by byte: port, kind letter, the sender's and the receiver's call, the length low byte first, the data |
| `AgwpeFrame.ScanExactly` | client/src/transport/agwpe.rs:148-196 | what any buffer of at least a header amounts to: refused over 64 KiB, waited for while short, refused for an unknown kind or a call that is not UTF-8, else that frame |
| `AgwpeFrame.ScanComplete` | client/src/transport/agwpe.rs:298-325 | a complete frame at the front of the buffer is found whatever follows it |
| `AgwpeFrame.ScanPartial` | client/src/transport/agwpe.rs:298-325 | every proper prefix of a frame is waited for |
| `AgwpeTransport.Transport.ReadFrameFromStream` | client/src/transport/agwpe.rs:298-336 | the loop computes `ReadFrame` of the buffer and the coming socket events: result, new buffer and unread events; a refused frame stays in the buffer |
| `AgwpeTransport.ReadRefinesScan` | client/src/transport/agwpe.rs:298-336 | one call on any cutting delivers the first frame of the whole stream or, cancelled, loses no byte |
| `AgwpeTransport.AnyCutting` | client/src/transport/agwpe.rs:298-351 | for every byte stream, well formed or not, the frames read do not depend on how it is cut or when waits are cancelled |
| `AgwpeTransport.StreamReassembly` | client/src/transport/agwpe.rs:109-351 | repeated reading of any cutting of encoded frames returns exactly those frames in order and leaves the buffer empty |
| `AgwpeTransport.EventExactly` | client/src/transport/agwpe.rs:681-717 | by the kind letter and the data on the wire: `d`, `R`, or `D` with a node's last words report a disconnect, `C` and other `D` frames their data, the rest empty data |
| `AgwpeTransport.Transport.Recv` | client/src/transport/agwpe.rs:667-717 | if the bytes ahead, in the buffer or on any cutting of the stream, start with a frame, that frame's report comes and exactly its bytes go, or a deadline came first and nothing is lost; an expired deadline touches nothing |
| `AgwpeTransport.Transport.Send` | client/src/transport/agwpe.rs:639-665 | the socket gets the encodings of the data cut into pieces of 256 bytes, up to the byte at which writing fails; the result is an error exactly if that cuts them short, flushing fails or there is no connection |
| `AgwpeTransport.ChunksExactly` | client/src/transport/agwpe.rs:639-655 | piece i of what is sent are bytes 256 i to 256 i + 256 of the data, the last one what is left |
| `AgwpeTransport.PieceBytes` | client/src/transport/agwpe.rs:643-651 | each piece goes out as a `D` frame on the link's port, from the local to the remote station |
| `AgwpeTransport.ByteTransparency` | client/src/transport/agwpe.rs:639-717 | marker-free data comes out, for any cutting of TCP, as Data events of 1 to 256 bytes whose concatenation is the original |
| `LinkStack.ResponseThroughLink` | client/src/transport/session.rs:395-540 | a response forwarded in any data frames over any cutting of TCP is served intact through both layers |
| `ServerReader.Socket.ReadUntil` | server/src/main.rs:212-247 | what `read_until` appends, under a limit, interrupted anywhere |
| `ServerReader.Socket.ReadBoundedLineUntil` | server/src/main.rs:192-256 | barring the deadline and socket faults, the line, end or error that the whole stream determines, with exactly its bytes used up; the deadline error only at the deadline, and always when the peer falls silent or the deadline has passed |
| `ServerReader.LineExactly` | server/src/main.rs:192-256 | which streams have a line, none, a line over 1025 bytes or one cut off |
| `ServerReader.Socket.ReadExactUntil` | server/src/main.rs:261-294 | fills the buffer with exactly the next bytes of the stream, or reports that there are too few |
| `ServerReader.Socket.ReadRequest` | server/src/main.rs:474-524 | the request, end or error that the whole stream determines, with exactly its bytes used up, for any arrival pattern before the deadline; a silent peer times out |
| `ServerReader.VerbExactly` | server/src/main.rs:483-524 | a trimmed line that starts with neither `GET ` nor `POST ` is refused, the others begin their request |
| `ServerReader.BodyExactly` | server/src/main.rs:502-521 | a POST's length, most significant byte first, and its body: too short, over 1 MiB, or exactly the body |
| `ServerReader.Socket.ServeRequests` | server/src/main.rs:411-470 | the requests handled are the stream's own in order, always, and all of them unless a timeout, a socket fault or a failed answer ends the loop |
| `ServerReader.ReaderAgrees` | server/src/main.rs:474-524 | on every stream that `Request::decode` accepts, within the limits, the reader gives the same request if and only if the first line does not end in white space |
| `ServerReader.EncodedRequestRead` | server/src/main.rs:474-524 | an encoded request that fits the line and body limits, survives `decode` and does not end its line in white space is read back, and exactly its bytes are consumed, whatever follows |
| `ServerReader.ClosedByWhiteSpace` | server/src/main.rs:474-524 | a readable request is read from its words on the wire with its line closed by CR LF or any other ASCII white space, and exactly its bytes are used up |
| `ServerReader.CrLfGet` | server/src/main.rs:474-500 | a GET line closed by CR LF gives the URL without the CR |
| `ServerReader.BackToBack` | server/src/main.rs:411-524 | back-to-back encodings of such requests come out complete and in order |
| `PreAuth.AwaitAgree` | server/src/main.rs:345-372 | the loop returns the verdict that the stream determines and uses up exactly the lines it judged |
| `PreAuth.AgreeExact` | server/src/main.rs:345-382 | the verdict is yes if and only if the stream is noise lines and then a line that trims and upper-cases to AGREE |
| `PreAuth.AgreeLine` | server/src/main.rs:345-382 | AGREE in any mixture of cases, with white space around it and closed by LF or CR LF, is a yes for every callsign but AGREE; another word that is no noise is a no |
| `PreAuth.ItuExactly` | server/src/session.rs:6-8 | the callsign pattern: one to three letters or digits, a digit, up to three letters or digits, a letter |
| `PreAuth.AdmittedExactly` | server/src/session.rs:56-70 | a callsign is admitted by its part before the first hyphen, by the pattern or by the allowlist in any case, under that part in upper case |
| `PreAuth.ClientAdmitted` | server/src/main.rs:313-383 | the lines that the client sends, a callsign of the pattern and AGREE, authenticate the station and are used up exactly |
| `PreAuth.NoiseInsertion` | server/src/main.rs:337-372 | noise lines inserted before anything leave the verdict as it was |
| `PreAuth.DuplicateSkippedExactly` | server/src/main.rs:680-689 | a copy of the callsign line is skipped if and only if no SSID was entered, or the text starts with `***` |
| `PreAuth.NoiseTolerance` | server/src/main.rs:337-382 | for a station without SSID any number of duplicate callsign lines and status lines changes nothing |
| `PreAuth.AgreeStationShutOut` | server/src/main.rs:680-689 | a station admitted under the callsign AGREE never gets past its own duplicates |
| `PreAuth.Authenticate` | server/src/main.rs:313-383 | callsign check and AGREE under one five-minute deadline, as the stream determines, with exactly the judged lines used up |
| `PreAuth.HandleConnection` | server/src/main.rs:296-472 | barring a timeout or fault the station is the one the stream authenticates; requests are handled only for a station, and are those that follow its lines, all of them when the stream ends the loop; a silent peer is dropped after five minutes |
| `Admission.Counters.ClaimPeer` | server/src/main.rs:98-113 | a connection is turned away exactly if its address holds five slots; the counters stay exact |
| `Admission.Counters.ClaimSlot` | server/src/main.rs:121-123 | over the cap exactly if fifty handlers exist |
| `Admission.Counters.UnclaimSlot` | server/src/main.rs:123-124 | the counter gives the slot back and cannot wrap |
| `Admission.Counters.UnclaimPeer` | server/src/main.rs:125-136 | the table finds a positive entry, does not saturate, and drops the entry at zero |
| `Admission.Counters.Spawn` | server/src/main.rs:141-170 | the slots pass to the handler |
| `Admission.Counters.DropPeerGuard` | server/src/main.rs:151-166 | a handler's peer slot is given back, without saturating, whatever the accept loop is doing |
| `Admission.Counters.DropConnGuard` | server/src/main.rs:144-150 | a handler's global slot is given back, without wrapping |
| `Admission.Counters.Run` | server/src/main.rs:79-181 | every interleaving leaves exactly the connections that the same steps leave when they go by the connections alone, and the counters equal the slots held, entries are positive, no address exceeds five and no more than fifty handlers run |
| `Admission.Counters.WindDown` | server/src/main.rs:79-181 | when nobody connects any more, whatever the order of the remaining steps, the counters end empty |
| `Cache.Cache.Lookup` | client/src/cache.rs:68-88 | the entry's etag, body, time and age, or nothing |
| `Cache.Cache.Insert` | client/src/cache.rs:90-165 | a negative age changes nothing; otherwise the new row has this etag, body, second and age within the limit, and what leaves is the shortest least-recently-used run that brings the total under the cap, nothing if all fits; for caps from 2^63 on only the row stays |
| `Cache.Cache.EvictDownTo` | client/src/cache.rs:131-161 | the eviction loop takes exactly such a run, for any order of rows used in the same second |
| `Cache.ByLastUsed` | client/src/cache.rs:133-139 | all rows once, oldest use first, ties in any order |
| `Cache.Cache.TouchFresh` | client/src/cache.rs:167-180 | both times of the row become this second, its other fields and all other rows stay |
| `Cache.Cache.TouchLastUsed` | client/src/cache.rs:182-195 | the time of use of the row becomes this second, its other fields and all other rows stay |
| `Cache.Cache.Delete` | client/src/cache.rs:197-203 | exactly the row goes; the cap still holds |
| `Cache.Cache.Clear` | client/src/cache.rs:205-211 | all rows go |
| `Cache.NoNeedlessEviction` | client/src/cache.rs:127-161 | nothing leaves a table that fits |
| `Cache.LargestSurvivor` | client/src/cache.rs:127-161 | with distinct times of use, no other choice that respects the order of use and fits keeps a row that was evicted |
| `Cache.JustServedOutlives` | client/src/cache.rs:127-195 | at the next insert a row just served outlives every row used in an earlier second |
| `Browse.ReplyRead` | server/src/main.rs:607-661 | what the client decodes from the server's answer: NotModified if and only if the condition is the page's etag, the compressed page otherwise |
| `Browse.Proxy.HandleBrowse` | client/src/proxy.rs:355-409 | a plain GET of an entry is answered by the cache alone if and only if, counted from the second of its last arrival, less than min(stored age, limit) has passed; without a body exactly if the browser named its etag; otherwise the request with the entry's etag goes out, the page shown is the one the server has, and table and ledger change exactly by what arrived |
| `Browse.BrowseAll` | client/src/proxy.rs:355-513 | over any history of browses, deletes and clears: a page answered without radio traffic is the one that the last browse to store one brought over the link, and the last reply to bring or confirm it came less than min(its age, limit) before; an etag is asked about only when that time has passed; every other browse asked what it should and shows what the server has |
| `Browse.Proxy.DispatchAx25` | client/src/proxy.rs:413-513 | whatever is shown is the server's page, in full, and it is shown whenever the reply is in and the page can be rewritten; table and ledger change exactly as a stored page, a confirmation or neither |
| `Browse.Proxy.Revalidate` | client/src/proxy.rs:453-466 | a confirmed entry is the page the server has; its time is renewed, and the browser may keep it for exactly the seconds left since |
| `Browse.Proxy.Store` | client/src/proxy.rs:467-474 | a page is stored unless its age is negative, which leaves the table as it is |
| `Browse.Proxy.ServeFresh` | client/src/proxy.rs:379-394 | a fresh hit is served within the staleness bound, or confirmed to a browser that named its etag |
| `Browse.HitKeptWithin` | client/src/proxy.rs:536-556 | the browser may keep the page for exactly the whole seconds left, which end within the staleness bound |
| `Browse.FreshIsRecent` | client/src/cache.rs:29-35 | freshness of a row, whose time is cut to seconds, means less than the stored age since its confirmation arrived |
| `Browse.FreshExactly` | client/src/cache.rs:29-35 | a row is fresh exactly if its record is: counted from the second of its arrival, less time than its age has passed |
| `Browse.LatestExactly` | client/src/cache.rs:97-99 | the cached page is the last page sent if and only if that one was storable or has the cached etag |
| `Browse.NoStoreLeavesOlder` | client/src/cache.rs:97-99 | three browses: a page for five minutes, another under no-store, and a plain GET that is answered with the first page, for every limit above zero |
| `AddressFilter.CidrIsInterval` | server/src/filter.rs:193-202 | the masked comparison is membership in the block of 2^(32-prefix) addresses at the masked network, which contains the network, for prefixes 0 to 32 (RFC 4632, section 3.1) |
| `AddressFilter.BlockedExactly` | server/src/filter.rs:144-157 | an IPv4 address is blocked if and only if it lies in the block of some well-formed range |
| `AddressFilter.UniqueLocal` | server/src/filter.rs:167-171 | the masked test for fc00::/7 is first octets FC and FD |
| `AddressFilter.EmbeddedExactly` | server/src/filter.rs:162-191 | IPv4-mapped and 6to4 addresses are blocked if and only if their embedded IPv4 address is |
| `AddressFilter.Ipv6Exactly` | server/src/filter.rs:162-191 | an IPv6 address is blocked exactly if it is ::, ::1, multicast, unique local, link local or in the discard prefix, or if the IPv4 address embedded in a mapped or 6to4 address lies in a configured block |
| `AddressFilter.RangesOnlyAdd` | server/src/filter.rs:137-191 | more ranges never unblock an address |
| `AddressFilter.PinnedIsAllowed` | server/src/filter.rs:32-82 | a pinned address is unblocked and is the literal's own or the resolver's first answer |
| `AddressFilter.PinnedExactly` | server/src/filter.rs:32-82 | an address is pinned exactly if the name is on no list, the address is unblocked, and it is what the host text denotes or else the resolver's first answer |
| `AddressFilter.ValidatedExactly` | server/src/filter.rs:84-135 | a URL passes exactly if it is a web URL for an unblocked literal or for an unlisted name all of whose addresses are unblocked |
| `AddressFilter.ValidatedCanBePinned` | server/src/filter.rs:32-135 | after validation, pinning on the same answer succeeds if and only if the answer is not empty, or, for a literal, its text is on no name list |
| `AddressFilter.ValidatedAnswerAllowed` | server/src/filter.rs:104-120 | validation means that every address of the answer is unblocked |
| `SessionTrace.ConsentSafety` | client/src/transport/session.rs:310-677 | in a safe trace every AGREE answers a text received on this link and accepted by the operator since, or read as equal to one accepted earlier and not cleared or replaced before that read |
| `SessionTrace.ConnectedOnlyAgreed` | client/src/transport/manager.rs:362-384 | at every point of a safe trace, Connected means AGREE was delivered since the last link-open attempt |
| `SessionTrace.StillStoredExactly` | client/src/transport/session.rs:642-677 | an AGREE without an acceptance on this link rests on a read that found its text stored, and the text is still stored when AGREE goes out if and only if nothing was cleared or accepted in between |
| `SessionActor.Manager.Apply` | client/src/proxy.rs:941-984 | consent is recorded only while a prompt is open, for the text on display; abort and clear happen at any time |
| `SessionActor.Manager.ReceiveText` | client/src/transport/session.rs:164-216 | the text of the Data events that arrive, up to the first that completes the prompt within the size limit; it fails if and only if none does |
| `SessionActor.Manager.PromptExactly` | client/src/transport/session.rs:164-276 | which words complete a prompt within 64 KiB: `callsign` or AGREE as they stand, and AGREE in any case for the disclaimer |
| `SessionActor.Manager.AwaitDisclaimer` | client/src/transport/session.rs:225-276 | the disclaimer is the text of the Data events since the wait began, up to the first AGREE in any case; it fails if and only if none comes within the limit |
| `SessionActor.Manager.AwaitConsent` | client/src/transport/session.rs:310-340 | the handshake goes on only after the operator accepted this text; the result is the first answer that comes in time, and a failure exactly if none does |
| `SessionActor.Manager.PerformBpqHandshake` | client/src/transport/session.rs:280-362 | it succeeds if and only if what it sends goes out, both prompts come and the operator's first answer in time is yes; then the steps were app command unless skipped, callsign, disclaimer, AGREE, in that order, with AGREE delivered |
| `SessionActor.Manager.AwaitResponse` | client/src/transport/session.rs:395-554 | unless the operator aborts, the result is the reply that the alignment theorems speak of to the Data events that arrive, or the failure that ends them; on success exactly the events of that reply are taken |
| `SessionInputs.ReplyAt` | client/src/transport/session.rs:395-540 | the reply to a run of pieces is what stops the loop first, whatever comes after, or its waiting at the end |
| `SessionInputs.AnswerExactly` | client/src/transport/session.rs:395-554 | what ends the wait decides the result, event by event: silence, a disconnect or a deadly text anywhere in the response is the session's death, other transport errors are reported as they are |
| `SessionInputs.TurnTaken` | client/src/transport/session.rs:369-554 | one turn of a conversation: the answer to the events carries the turn's response, and the events after it continue the conversation |
| `SessionActor.Manager.HandleSendRequest` | client/src/transport/session.rs:369-554 | at most one transmission, none once the abort flag is up; unless aborted the result is the failure of the send or the answer to the Data events that arrive, and the session's death exactly if it `Dies` in the call |
| `SessionActor.Manager.Converse` | client/src/transport/session.rs:369-554 | k calls on arrivals whose Data events are a conversation, cut and leaked between the calls in any way, return the k responses in order |
| `SessionActor.Manager.StoredMatches` | client/src/transport/session.rs:87-92 | true if and only if the stored agreement is the text, byte for byte, when it is read |
| `SessionActor.Manager.AutoConsent` | client/src/transport/session.rs:637-681 | AGREE is sent without a prompt if and only if the disclaimer that arrives is the stored agreement, no step before the read clears it and none before the last look raises the abort flag; otherwise nothing is sent; and whether the agreement is still stored when it is sent |
| `SessionActor.AgreeAfterClear` | client/src/transport/session.rs:642-677 | a run of the actor in which AGREE goes out while no agreement is stored |
| `SessionActor.Manager.HandleReconnect` | client/src/transport/session.rs:564-703 | one reopen; success means the whole handshake in order, AGREE delivered and Connected, and, undisturbed, comes exactly if all it awaits arrives and the disclaimer is the stored agreement; undisturbed, the operator is asked again, with the disclaimer that came, exactly if it differs; any other failure ends in the error state; with the flag up only the reopen happens |
| `SessionActor.Manager.ReconnectAndRetry` | client/src/transport/session.rs:718-728 | undisturbed, a request whose session died gets the answer of the second call exactly if the reconnect has all it needs, and fails otherwise |
| `SessionActor.Manager.HandleSendRequestWithReconnect` | client/src/transport/session.rs:705-731 | at most two transmissions and one reopen, the second transmission only after an AGREE since the reopen; a disconnect is followed by at most one action if and only if there is no `Race(2)`; undisturbed, the connection is reopened exactly if the session dies in the first call, whose result is returned otherwise, and the recovery's then |
| `SessionActor.Manager.HandleConnectModem` | client/src/transport/manager.rs:258-278 | connected to the modem, with the callsign kept, exactly if the transport connects, else in error |
| `SessionActor.Manager.HandleOpenSession` | client/src/transport/manager.rs:322-385 | Connected exactly on success, which took the whole handshake in order, and success exactly if the link opens and the handshake has all it needs; a failed handshake ends in the error state |
| `SessionActor.Manager.HandleCloseSession` | client/src/transport/manager.rs:387-408 | raises the abort flag; the state changes exactly if the transport closed |
| `SessionActor.Manager.BackgroundTask` | client/src/transport/manager.rs:159-249 | over any commands, steps of other tasks and outcomes the trace stays safe, and every command, from the moment the one before ended, does and answers what it should: requests go out and get what the arrivals or the recovery come to, a session opens exactly if it can |
| `SessionActor.Manager.EveryAgreeConsented` | client/src/transport/session.rs:310-677 | every AGREE of a manager's run was consented to |
| `SessionActor.Manager.ConnectedAfterAgree` | client/src/transport/manager.rs:159-408 | in every state of a manager's run Connected means AGREE was delivered since the last link-open attempt |

## Left out

- The telnet driver's effect on a response is modelled as turning any LF into CR
  or back; bytes inserted into a response (LF to CRLF) are not.
- Timeouts inside a session: a late response is then read as the next answer, so
  alignment is about runs without timeouts. What a single call or handshake makes
  of a timeout is covered.
- Browses that overlap in time: each browse is one step, and the etag sent is the
  one of the entry still in the cache when the reply arrives.
- Brotli, the page hash and page rewriting are functions given as parameters:
  decompression undoes compression, and the pages that occur have distinct etags.
- SQLite is a finite map whose operations succeed; `ORDER BY` leaves ties open.
- Cache.Cache.Insert: the subtraction of the cap from the total is on unbounded
  integers; with caps above 2^63, which come out negative here as in the source,
  the source's 64-bit subtraction could overflow.
- ServerReader.Socket.ServeRequests: what handling a request does is reduced to
  the time it takes and whether the answer could be written.
- SessionActor.Manager.OpenLink: opening a link is one awaited step with an
  outcome; the frames it reads and discards are not modelled there.
- SessionActor.Manager.Apply: answering the consent prompt is one atomic step; a
  consent channel dropped by its sender is not modelled.
- SessionActor.Manager.HandleQueryPorts: a port query is one awaited step with an
  outcome; the list of ports and logging are not modelled.
- PreAuth.Authenticate: the prompts written to the peer and the access log are
  not modelled; upper-casing of non-ASCII characters is a parameter whose ASCII
  results are capital letters.
- AddressFilter.ResolveAndPin: parsing of ranges, hosts and URLs, the resolver and
  the domain list are inputs.
- The VARA transport, two managers at once after a transport swap, the HTTP
  pages, the host allowlist, configuration, the server's filtering proxy and the
  browser automation.
