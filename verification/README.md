# Verified models of the networking projects

Six components of the repository, modelled in Dafny 4.11 and proved correct, or proved to fail on
exactly the inputs on which they fail:

- **ARP resolution** (`Arp*.dfy`, `Router.dfy`): the 100-slot cache with expiry, the queue of
  outstanding requests with their waiting packets, and the router's sending path. `ArpSpec` gives
  every operation as a function on a value; `ArpCaching` and `Routers` are the mutable objects, each
  method proved equal to its function; `ArpInvariant`, `ArpCacheMap`, `ArpDelivery`, `ArpProvenance`,
  `ArpQuestions` and `ArpLiveness` prove what holds in every state of every run; `ArpWitness` has
  concrete runs.
- **HTTP requests** (`CString.dfy`, `HeaderTable.dfy`, `HttpSpec.dfy`, `HttpHeaders.dfy`,
  `HttpRoundTrip.dfy`, `ProxyParse.dfy`): the `strtok_r` parser that cuts its buffer in place, the
  growable header table with tombstones, the length functions and the printer.
- **SHA-1** (`Sha1Spec.dfy`, `Sha1Example.dfy`, `Sha1.dfy`): the streaming context against the
  pad-then-fold definition of FIPS PUB 180-1 (sections 4 to 6.1 of RFC 3174), and that definition
  against the standard's first example.
- **Internet checksum and forwarding** (`Checksum.dfy`, `IpForwarding.dfy`): `cksum`, the receive
  check and the header rewrite, on the bytes of the frame and in both host byte orders.
- **Longest prefix match** (`Routing.dfy`): the loop over raw masks, in both byte orders.
- **STCP** (`Stcp*.dfy`): two endpoints joined by two reliable first-in first-out channels, as a
  transition system over whole runs (`StcpSpec`, `StcpData`, `StcpInvariant`, `StcpDelivery`,
  `StcpNumbers`, `StcpClose`), and the endpoint with its mutable variables refining it (`Stcp`).

`Machine.dfy` holds the integer widths, the host byte order and the option type. Sends, accepted and
dropped packets, and the data exchanged with an application are ghost histories. Time and random
numbers are inputs of each operation. Run `dafny verify dfyconfig.toml`.

## Where the code falls short

Each of these is proved: the condition under which the code does what it should and, where that does
not name one, an input or a run on which it does not.

- A reply that arrives while the cache is full delivers nothing: the waiting packets go into a new
  request in reverse order (`ArpDelivery.FullCacheRequeues`), as on the run of a hundred neighbours,
  one packet and the gateway's answer in `ArpWitness.AnswerLost`. With a free slot all are sent
  (`ArpDelivery.ReplyDeliversAll`).
- `FillAndSendPkt` dereferences a null cache entry for an ARP reply when the sender could not be
  cached, or is reached through another next hop that is not cached: `ArpDelivery.ReplyDefinedIff`
  has the condition, `ArpWitness.ReplyUndefined` the first packet of a router with a default route.
- The comment in `sr_arpcache.h` asks for a request every second; the comparison `> 1.0` on whole
  seconds makes it two or more (part of `ArpInvariant.Inv`), and with it an unanswered request may
  outlive ten sweeps (`ArpLiveness.TenSweepsNotEnough`) but never eleven (`LeavesWithin11Sweeps`).
- The missing-path test of the request parser compares lengths at a fixed distance from the start of
  the address. It lets `http:host` pass, which has no path (`HttpRoundTrip.MissingPathDetected`,
  `MissingPathAccepted`), and it refuses `http:host/x`, which has one (`PresentPathRefused`,
  `PathRefused`).
- The header reader looks for a colon in all the text that is left, so a line without one joins the
  next, even across the empty line that ends the headers. The proxy's "Connection: close" is lost on
  exactly the requests with such a key (`HttpRoundTrip.ProxyForwards`, `EditLost`).
- The receive check compares checksums instead of folding the whole header: it differs for a stored
  0xffff where 0 is computed (`IpForwarding.AcceptanceVersusAllOnes`, `AllOnesRefused`).
- The accumulator of `cksum` is exact for buffers up to 131074 bytes and for no longer length: both
  directions, with the buffer of 0xff bytes that overflows, are in `Checksum.AccumulatorExact`.
- STCP delivers data through `strncpy`, so what follows a NUL in a chunk is lost
  (`StcpDelivery.CopyableIff`, `PrefixIff`). The server takes its first sequence number from a header
  it never received, so its numbers are off by a constant, in every run
  (`StcpDelivery.ReverseOffset`).
- STCP data segments reuse the flags of the last received header, so an endpoint can be done before
  its peer has closed (`StcpClose.DoneBeforePeerCloses`), and only then
  (`StcpClose.DoneMeansBothClosed`). When both ends close at once neither is ever done
  (`StcpClose.SimultaneousClose`, `NeverDone`).

## Model

| member | source | states |
|---|---|---|
| ArpInvariant.RunKeeps | Project4/router/sr_arpcache.c:18-217 | In every state reached from the empty router by any events: one request per address, one valid slot per address, no address both cached and queued, every waiting packet routed to its request's address, 1 to 5 attempts, attempts at least two seconds apart, and accepted packets = queued + delivered + dropped as multisets |
| ArpInvariant.StepKeeps | Project4/router/sr_router.c:131-160 | Each forwarded packet, ARP frame and sweep keeps that joint invariant |
| ArpInvariant.SendIpKeeps | Project4/router/sr_router.c:213-272 | Sending one packet moves it from the hand to exactly one of delivered, queued, dropped, and keeps the rest of the invariant |
| ArpInvariant.LearnKeeps | Project4/router/sr_arpcache.c:138-177 | Learning an address that is not cached, and resending what waited for it, keeps the invariant, also when the cache is full |
| ArpInvariant.SweepKeeps | Project4/router/sr_arpcache.c:258-282 | Expiry followed by the retry sweep keeps the invariant |
| ArpCacheMap.RunRefinesMap | Project4/router/sr_arpcache.c:63-85 | Along every run the slots stand for a finite map with expiry of at most 100 bindings, which lookup reads |
| ArpCacheMap.StepRefinesMap | Project4/router/sr_router.c:146-157 | Every event acts on the map as: filter by age on a sweep, add a binding for an unbound address if there is room, nothing otherwise |
| ArpCacheMap.LookupIsMap | Project4/router/sr_arpcache.c:63-85 | The last-match scan returns the binding of the address and nothing exactly when it is unbound |
| ArpCacheMap.InsertIsUpdate | Project4/router/sr_arpcache.c:161-172 | Inserting an unbound address adds a binding, or changes nothing when all slots are taken; no binding is overwritten |
| ArpCacheMap.MapSize | Project4/router/sr_arpcache.c:161-167 | No more bindings than slots, and as many exactly when the search for a free slot fails |
| ArpCacheMap.ExpireIsFilter | Project4/router/sr_arpcache.c:267-274 | Expiry keeps exactly the bindings that are at most 15 seconds old |
| ArpCacheMap.SweepLeavesFresh | Project4/router/sr_arpcache.c:267-276 | After a sweep no valid slot is older than 15 seconds |
| ArpDelivery.ReplyDeliversAll | Project4/router/sr_router.c:146-160 | An ARP packet, request or reply, from the awaited address with a free slot sends every waiting packet once, in queue order, to the sender's hardware address; nothing is queued again, and nothing else happens but the answer to a request |
| ArpDelivery.FullCacheRequeues | Project4/router/sr_arpcache.c:18-35 | With a full cache it sends no waiting packet: the same packets, reversed, wait in a new request at the head, asked once |
| ArpWitness.AnswerLost | Project4/router/sr_arpcache.c:161-172 | A run within the expiry time on which that happens: a hundred neighbours, one packet, the gateway's answer; nothing is delivered and the packet waits as before |
| ArpDelivery.ReplyDefinedIff | Project4/router/sr_router.c:249-250 | The null dereference in an ARP reply is avoided exactly when the next hop was cached, or is the sender itself and a slot was free |
| ArpDelivery.AnswersFrom | Project4/router/sr_router.c:146-160 | The answer to an ARP packet is looked up in the slots after its sender has been looked up and learned, whatever was sent in between |
| ArpWitness.ReplyUndefined | Project4/router/sr_router.c:228-250 | On a router with one default route and an empty cache, the ARP request of a neighbour meets the null dereference |
| ArpProvenance.DeliveredAsAnnounced | Project4/router/sr_router.c:228-255 | In every run each delivered packet left by its own longest-prefix route's interface, to a hardware address that some ARP packet of the run gave for that route's gateway |
| ArpProvenance.AnsweredAsAnnounced | Project4/router/sr_router.c:249-250 | An ARP answer that could be addressed went to a hardware address given, in the run, for the gateway of its route |
| ArpQuestions.SaysWhatItShould | Project4/router/sr_arpcache.c:309-334 | In every run each ARP request sent is a broadcast by the route of its target, in the name of an interface of the router, and the targets are those of the log, in order and one for one; every other ARP packet sent answers a request of the run, in the name of the interface that received it, to both addresses of the asker |
| ArpLiveness.LeavesWithin11Sweeps | Project4/router/sr_arpcache.c:41-57 | With a clock that never runs back and advances between sweeps, an unanswered address is out of the queue at some point within eleven sweeps, whatever else happens |
| ArpLiveness.TenSweepsNotEnough | Project4/router/sr_arpcache.c:289-304 | The bound is tight: a run in which the request is still queued after n sweeps, for every n up to ten |
| ArpCaching.ArpCache.Lookup | Project4/router/sr_arpcache.c:63-85 | The loop over the slots returns a copy of the last valid slot of the address, all fields included, and nothing exactly when there is none |
| ArpCaching.ArpCache.QueueRequest | Project4/router/sr_arpcache.c:93-132 | The packet joins the head of its address's request, which is made at the head of the queue if absent; other requests keep packets and order |
| ArpCaching.ArpCache.Insert | Project4/router/sr_arpcache.c:138-177 | Takes the address's request out of the queue and hands it back, fills the first free slot or none |
| ArpCaching.ArpCache.Destroy | Project4/router/sr_arpcache.c:181-217 | Takes exactly that request out of the queue; a null or unqueued one changes nothing |
| ArpCaching.ArpCache.ExpireAll | Project4/router/sr_arpcache.c:267-274 | Every slot is the expired form of what it was |
| Routers.Router.FillAndSendPkt | Project4/router/sr_router.c:213-272 | A cached or ARP packet is sent on its route's interface with the right addresses; any other is queued and its request handled at once |
| Routers.Router.ArpReqHandle | Project4/router/sr_arpcache.c:289-304 | Asks again, drops the request with its packets after five attempts, or does nothing within a second |
| Routers.Router.SendArpRequest | Project4/router/sr_arpcache.c:309-334 | One request frame is sent, the one of the model, whose contents `ArpQuestions.SaysWhatItShould` fixes; cache and queue untouched |
| Routers.Router.SendPackets | Project4/router/sr_arpcache.c:18-35 | Sends the waiting packets one by one, in order, over the changing cache and queue |
| Routers.Router.HandleArp | Project4/router/sr_router.c:131-162 | Refines the ARP step, answers included, and keeps the joint invariant |
| Routers.Router.AnswerRequest | Project4/router/sr_router.c:275-297 | Exactly one reply frame is sent, the one of the model, whose contents `ArpQuestions.SaysWhatItShould` fixes; nothing else changes |
| Routers.Router.HandleIp | Project4/router/sr_router.c:167-208 | On the bytes: a valid frame whose bytes 30 to 33 are no interface's address is rewritten in byte 22 (down by one), 24 and 25 (valid again) only, and its datagram is accepted for forwarding; a frame that is invalid or for the router changes neither cache, queue, sent nor accepted packets. The joint invariant is kept |
| Routers.TransitDelivered | Project4/router/sr_router.c:204-261 | A valid frame for another host whose next hop is cached leaves at once, rewritten, to the cached hardware address, and nothing else changes |
| ArpWitness.OneFrameThrough | Project4/router/sr_router.c:303-321 | On a run: once the gateway has been heard of, one such frame in is exactly one frame out |
| ArpSpec.DestinationBytes | Project4/router/sr_router.c:319 | A packet is routed by the address in its bytes 16 to 19 |
| Routers.Router.SweepQueue | Project4/router/sr_arpcache.c:41-57 | The walk with saved next handles each request of the old queue once, although the current one may be unlinked |
| Routers.Router.Timeout | Project4/router/sr_arpcache.c:262-279 | One pass of the timer refines the sweep step and keeps the joint invariant |
| HttpRoundTrip.RoundTrip | Project2/proxy_parse.c:351-538 | Exactly the well-formed requests whose text is at most 65535 long are parsed back from their text, fields and headers in order, and without a read outside the text |
| HttpRoundTrip.ParsedIsWellFormed | Project2/proxy_parse.c:351-538 | Whatever the parser accepts is well formed |
| HttpHeaders.PlainKeysSettle | Project2/proxy_parse.c:519-535 | For headers whose keys hold no line end, the one condition on the whole table in that notion always holds |
| HttpHeaders.Walk | Project2/proxy_parse.c:519-535 | A key with line ends in it is read again from each of them, with the same value, up to an empty line |
| HttpHeaders.ReadSettled | Project2/proxy_parse.c:519-535 | A settled table, however its keys overlap, is read back behind what the table held under other keys |
| HttpHeaders.ParsedIsSettled | Project2/proxy_parse.c:519-535 | Reading any text into a settled table with no key the reader stops in gives a settled table |
| HttpRoundTrip.ReparseIsStable | Project2/proxy_parse.c:351-538 | Whatever is accepted is printed to a text that parses to the same request, exactly when that text is at most 65535 long |
| HttpRoundTrip.ProxyForwards | Project2/proxy.cpp:140-150 | The forwarded text of any accepted request parses to that request with its other headers in order and one "Connection: close" last, exactly when it is not too long and no key of the request holds an empty line |
| HttpRoundTrip.EditLost | Project2/proxy_parse.c:227-254 | A request with such a key: it is accepted, and its forwarded text parses to it without the edit |
| HttpRoundTrip.LineRoundTrip | Project2/proxy_parse.c:391-514 | The request line alone survives printing and parsing, with and without a port |
| HttpRoundTrip.PrintedForm | Project2/proxy_parse.c:561-603 | The text of a request, character by character between its fields |
| HttpHeaders.PrintedRead | Project2/proxy_parse.c:227-254 | Printed headers of any keys are read inside their text, to the table that unfolding key by key gives |
| HttpRoundTrip.MissingPathDetected | Project2/proxy_parse.c:447-465 | An address with no path is refused exactly when three delimiters surround the protocol, or the leading ones exceed the authority's length by three |
| HttpRoundTrip.PresentPathRefused | Project2/proxy_parse.c:447-465 | An address with a path is refused by that test exactly when the delimiters leading it, those in front of the authority beyond the first, and the path behind its slash come to one character in all, or three or more leading delimiters exceed the authority's length by three |
| HttpRoundTrip.PathRefused | Project2/proxy_parse.c:447-465 | The address "http:host/x" is refused |
| HttpRoundTrip.MissingPathAccepted | Project2/proxy_parse.c:447-465 | The address "http:host" is accepted with the path "/" |
| HeaderTable.SetMovesToEnd | Project2/proxy_parse.c:41-70 | Setting a key keeps keys unique, keeps the order of the others and puts the key last |
| HeaderTable.LookupAfterSet | Project2/proxy_parse.c:74-89 | After a set, get returns the new value for that key and the old answer for every other key |
| HeaderTable.RemoveKeepsOthers | Project2/proxy_parse.c:92-103 | Removing leaves no header with the key, and exactly the others in their order |
| HeaderTable.RemoveAt | Project2/proxy_parse.c:92-103 | Removing takes out the key's position and keeps everything before and behind it |
| HeaderTable.RemoveThenSet | Project2/proxy.cpp:144-145 | Remove followed by set leaves exactly one header with the key, last |
| ProxyParse.CloseConnection | Project2/proxy.cpp:144-145 | The proxy's edit leaves the other headers in order followed by one "Connection: close" |
| ProxyParse.ParsedRequest.Get | Project2/proxy_parse.c:74-89 | Returns the first slot with the key, found exactly when the map has it, and it holds the map's value |
| ProxyParse.ParsedRequest.SetHeader | Project2/proxy_parse.c:41-70 | Tombstone, growth and append act on the live headers as an ordered-map update; used stays below length |
| ProxyParse.ParsedRequest.RemoveHeader | Project2/proxy_parse.c:92-103 | Succeeds exactly when the key is present and takes it out of the live headers |
| ProxyParse.ParsedRequest.TotalLength | Project2/proxy_parse.c:330-335 | The exact length of the printed request |
| ProxyParse.ParsedRequest.HeadersLength | Project2/proxy_parse.c:142-165 | The exact length of the printed headers with their blank line |
| ProxyParse.ParsedRequest.RequestLineLength | Project2/proxy_parse.c:544-559 | The exact length of the printed request line |
| ProxyParse.ParsedRequest.PrintHeaders | Project2/proxy_parse.c:167-196 | Fits exactly when the length allows, writes all of the text and no byte outside it, or nothing |
| ProxyParse.ParsedRequest.PrintRequestLine | Project2/proxy_parse.c:561-603 | The same for the request line, and where the next write starts |
| ProxyParse.ParsedRequest.Unparse | Project2/proxy_parse.c:299-311 | Succeeds exactly when the whole text fits, writes every byte of it and nothing outside it; a failure leaves at most the request line behind |
| ProxyParse.ParsedRequest.ParseBuffer | Project2/proxy_parse.c:351-538 | Succeeds exactly when the specification accepts the input, with the same fields; a used object is left as it is |
| ProxyParse.ParsedRequest.ParseRequestLine | Project2/proxy_parse.c:382-514 | The line, cut in place, denotes the specified fields as C strings inside the buffer |
| ProxyParse.ParsedRequest.ParseHeader | Project2/proxy_parse.c:227-254 | One header line updates the table by its key and value, or leaves it alone |
| ProxyParse.PrintAndParse | Project2/proxy_parse.c:299-335 | Printing into a buffer of exactly the total length and parsing that succeeds and gives an equal request |
| CString.StrtokR | Project2/proxy_parse.c:392-409 | The in-place tokenizer leaves the token as a C string, overwrites one delimiter, and continues behind it |
| CString.TokenShape | Project2/proxy_parse.c:438-467 | A token is a maximal run of non-delimiters behind leading delimiters; text, delimiter and rest make up the string |
| Sha1.HashChunks | Project4/router/sha1.c:71-185 | For every message and every division into input calls: success exactly below 2^61 bytes, and then the digest is the hash of the whole message |
| Sha1Example.HashOfAbc | Project4/router/sha1.c:207-301 | That hash, of "abc", is the one of the first example of FIPS PUB 180-1: start value, constants, schedule, logical functions, padding and byte order are those of the standard |
| Sha1Spec.ChooseSelects | Project4/router/sha1.c:243-253 | In the first twenty rounds b chooses, bit by bit, between c and d |
| Sha1Spec.MajorityAgrees | Project4/router/sha1.c:266-276 | In the third twenty the result agrees with any two that agree |
| Sha1.SHA1Context.Input | Project4/router/sha1.c:143-185 | Extends the message absorbed so far, whatever the chunk; fails exactly after a result or at 2^61 bytes |
| Sha1.SHA1Context.Result | Project4/router/sha1.c:104-119 | Fails exactly if corrupted; otherwise the digest is the hash of the message, again on every later call |
| Sha1.SHA1Context.PadMessage | Project4/router/sha1.c:326-371 | From whole blocks compressed and a tail in the buffer, either padding branch ends in the hash of the message |
| Sha1.SHA1Context.ProcessMessageBlock | Project4/router/sha1.c:207-301 | The schedule and the four round loops compute the compression function of the standard on the block |
| Sha1.SHA1Context.Reset | Project4/router/sha1.c:71-85 | A context equal to one that has absorbed nothing |
| Sha1Spec.HashBlocksIsFold | Project4/router/sha1.c:178-181 | Compressing block by block as they fill is the left fold over the block sequence |
| Sha1Spec.PadIsWholeBlocks | Project4/router/sha1.c:326-371 | Padding gives whole blocks and is the shortest that holds the marker and the length |
| Sha1Spec.PadShortTail | Project4/router/sha1.c:349-368 | With at most 55 bytes left the padded message ends in one block: tail, 0x80, zeros, length |
| Sha1Spec.PadLongTail | Project4/router/sha1.c:334-368 | With more than 55 bytes left it ends in two |
| Sha1Spec.PadInjective | Project4/router/sha1.c:326-371 | Messages with the same block sequence are the same message |
| Sha1Spec.CircularShiftRotates | Project4/router/sha1.c:46-48 | The shift macro rotates a 32-bit word by 1, 5 and 30 |
| Checksum.Cksum | Project4/router/sr_utils.c:8-24 | The loops return htons of the complement of the folded 32-bit sum, odd byte included |
| Checksum.CksumStores | Project4/router/sr_utils.c:8-24 | On either host order the stored bytes are the one checksum of the data |
| Checksum.ByteOrderIndependence | Project4/router/sr_utils.c:12-22 | Section 2(B) of RFC 1071: summing little-endian words and storing directly leaves the same bytes |
| Checksum.AccumulatorExact | Project4/router/sr_utils.c:12-17 | The 32-bit sum is exact for every buffer of n bytes exactly when n is at most 131074 |
| Checksum.FoldTwice | Project4/router/sr_utils.c:19-21 | The folding loop ends within two iterations |
| Checksum.FoldProperties | Project4/router/sr_utils.c:19-21 | The folded value is congruent modulo 65535 and zero only for zero |
| Checksum.FoldUnique | Project4/router/sr_utils.c:19-21 | Those two facts determine the folded value |
| Checksum.OddIsPadded | Project4/router/sr_utils.c:15-17 | An odd byte at the end counts as if a zero byte followed |
| Checksum.ExampleSum | Project4/router/sr_utils.c:8-24 | The example of section 3 of RFC 1071 has the sum and the checksum given there |
| IpForwarding.Receive | Project4/router/sr_router.c:167-182 | Accepts exactly the frames long enough whose stored checksum is that of the header with the field cleared; changes only that field |
| IpForwarding.ForwardToNextHop | Project4/router/sr_router.c:303-321 | Rewrites time to live and checksum in the frame, nothing else, and passes on the first ip_len bytes |
| IpForwarding.PathPreservesHeader | Project4/router/sr_router.c:303-321 | After any number of hops the next router accepts the header; only time to live, lowered by the hops, and checksum differ |
| IpForwarding.AgedIsAccepted | Project4/router/sr_router.c:310-315 | A rewritten header is accepted, with every other byte kept |
| IpForwarding.IncrementalUpdate | Project4/router/sr_router.c:310-315 | The recomputed checksum is the update HC' = ~(~HC + ~m + m') of section 3 of RFC 1624 |
| IpForwarding.AcceptanceVersusAllOnes | Project4/router/sr_router.c:175-182 | The header folds to 0xffff exactly when it is accepted, or 0xffff is stored where 0 is computed |
| IpForwarding.AllOnesRefused | Project4/router/sr_router.c:175-182 | A 20-byte header that folds to 0xffff and is refused |
| IpForwarding.ValidAccepted | Project4/router/sr_router.c:175-182 | A concrete header with checksum 0xb861 is accepted |
| IpForwarding.AcceptanceIgnoresPayload | Project4/router/sr_router.c:172-182 | Cutting the packet behind the header does not change the verdict |
| Routing.RoutingTable.LongestPrefixMatch | Project4/router/sr_rt.c:180-201 | The loop returns the last of the matching entries with the numerically largest mask |
| Routing.LookupIsLongestPrefix | Project4/router/sr_rt.c:180-201 | With contiguous masks, in either byte order, the last entry of maximal length among those in whose prefix the address lies (as numbers without their last 32 - n bits) is the one selected |
| Routing.NoRouteIff | Project4/router/sr_rt.c:188-200 | No entry is selected exactly when the address lies in no entry's prefix |
| Routing.LookupIgnoresOrder | Project4/router/sr_rt.c:191-193 | Hosts of both byte orders select the same entry |
| Routing.MatchesIff | Project4/router/sr_rt.c:190 | The masked comparison of the four bytes holds exactly when the two addresses, as 32-bit numbers, begin with the same n bits |
| Routing.LargestIsLongest | Project4/router/sr_rt.c:190-195 | Entry by entry, the numeric rule selects what the prefix rule selects, and only that |
| Routing.MaskOrder | Project4/router/sr_rt.c:191-193 | Raw masks compare as their prefix lengths, read in either byte order |
| Routing.SelectedIsMostSpecific | Project4/router/sr_rt.c:180-201 | Every address the selected route covers is covered by every other matching route |
| StcpDelivery.ReliableDelivery | Project3/transport.c:140-184 | In every state of every run before a close: no FIN travels, each application was given exactly the strncpy copies of the first chunks written, the rest is in flight in order, and the stream is a prefix of the written one exactly when those chunks have nothing behind a NUL |
| StcpDelivery.CopyableIff | Project3/transport.c:163-164 | strncpy keeps a payload exactly when only NULs follow its first NUL |
| StcpDelivery.CopiedByte | Project3/transport.c:163-164 | Each byte is copied up to the first NUL and is NUL from there on |
| StcpDelivery.SequenceAccounting | Project3/transport.c:150-184 | From the moment the client opens, its sequence number is what the server expects next plus the bytes in flight, modulo 2^32 |
| StcpDelivery.ReverseOffset | Project3/transport.c:78-87 | In the other direction the two sides differ by a non-zero number, so the forward relation never holds |
| StcpDelivery.ReverseBaseFixed | Project3/transport.c:78-87 | That constant does not change in any run once the SYN is answered |
| StcpDelivery.AcknowledgedNeverPasses | Project3/transport.c:167-170 | Along every run the client's acknowledged byte stands for integer counts that start at -1, never go down and never pass the bytes the server has delivered, which its next expected byte counts |
| StcpNumbers.SegmentNumbers | Project3/transport.c:150-155 | In every state of a run each segment in flight carries, in network order, the number the other side will expect when it comes: from the client counted from the handshake, from the server from 0 |
| StcpNumbers.AckNumbers | Project3/transport.c:174-190 | Data and a FIN are each answered by one acknowledgement, with the next number and the number now expected |
| StcpNumbers.AllAcknowledged | Project3/transport.c:167-170 | What was delivered is acknowledged: the segments in flight bring the acknowledged byte up to what the other side expects, in both directions |
| StcpNumbers.FinNumber | Project3/transport.c:202-206 | The FIN continues the numbering behind all data in flight and acknowledges all that was received |
| StcpNumbers.Handshake | Project3/transport.c:61-88 | The three segments and the six counters in terms of the two random numbers |
| StcpNumbers.HtonlStores | Project3/transport.c:151-152 | On either host the stored bytes have the most significant first |
| StcpInvariant.RunKeeps | Project3/transport.c:61-184 | The connection invariant holds from the first SYN on, through the handshake and the data phase |
| StcpInvariant.StepCounts | Project3/transport.c:160-184 | Every step but a close keeps the connection invariant, and the acknowledged count never goes back |
| StcpClose.DoneIff | Project3/transport.c:186-212 | In every run an endpoint is done exactly when it has handled a close with nothing else pending, has taken a FIN from the network in the loop, in either order, and is not blocked behind its own FIN |
| StcpClose.CloseRun | Project3/transport.c:186-212 | connection_state records at all times which of the two happened |
| StcpClose.GenuineStep | Project3/transport.c:147-158 | A step keeps every travelling FIN backed by a close of its sender exactly when it does not write behind a received FIN |
| StcpClose.DoneMeansBothClosed | Project3/transport.c:186-212 | Without such writes, done implies that both applications have closed |
| StcpClose.DoneBeforePeerCloses | Project3/transport.c:147-156 | With one, a run in which the server is done and the client never closed |
| StcpClose.SimultaneousClose | Project3/transport.c:201-212 | A run in which both ends swallow the other's FIN |
| StcpClose.NeverDone | Project3/transport.c:192-211 | From there neither end is ever done, until an application closes again |
| Stcp.Transport.Connect | Project3/transport.c:61-73 | The active handshake: two segments, and counters taken from the answer |
| Stcp.Transport.Accept | Project3/transport.c:76-88 | The passive handshake, with the sequence number read from a header never received |
| Stcp.Transport.ServeNetwork | Project3/transport.c:160-199 | Data, acknowledgement and FIN handling refine the network step |
| Stcp.Transport.ControlLoop | Project3/transport.c:132-215 | Over any sequence of wakeups the loop ends in the state, and sends the segments, of the specified iterations, and stops when done |
| Stcp.IterationIsSteps | Project3/transport.c:140-214 | One iteration is one event of the two-endpoint system, or two when it sends a FIN |
| Stcp.CopyString | Project3/transport.c:163-164 | The array copy computes the specified strncpy and touches nothing behind it |

## Left out

- ICMP echo replies and port-unreachable messages (`sr_send_echo_reply`, `sr_send_port_unreachable`); ICMP host unreachable is announced in comments and never sent.
- Expiry of the time to live: the router has no test for it, so it wraps modulo 256 in the model as in the code.
- Thread interleaving, locks and memory reclamation: one packet handler call or one timer pass is one atomic step with one clock reading. `sr_arpreq_handle` runs outside the lock in the code.
- Clocks at or below 1 second after the epoch, for which a new request would not be asked at once.
- The linked lists of requests, packets and routes are sequences (of objects, for requests); relinking of individual nodes is not modelled.
- Routers.Router.HandleIp: the total length must cover the header and lie within the frame and the destination must have a route; the code reads out of bounds or through a null route otherwise. For a packet to the router itself the ICMP frame the source then sends is not among the sent frames of the model.
- Routers.Router.HandleArp: an ARP request is answered only when the reply is defined (`ArpDelivery.ReplyDefinedIff`); otherwise the code dereferences a null pointer.
- IpForwarding.ForwardToNextHop: the total length must lie within the frame, which the code takes on trust.
- IpForwarding.IncrementalUpdate: headers that claim fewer than five words are excluded; `Receive` covers them.
- Every route names an existing interface and every gateway has a route, as the router's own start-up check of the table demands for interfaces.
- ProxyParse.ParsedRequest.ParseBuffer: covers inputs on which every read stays inside the text (`HttpSpec.InBounds`); header lines without anything behind the colon and a request line that ends in its address read beyond it.
- The `strtol` and `errno` test of the port: `errno` is not part of the model, and no port is refused.
- Printed header text of 2^31 bytes or more, where the length functions and the printer use `int`.
- `ParsedHeader_modify`, `unparse_headers`, allocation failure, and the port pointer before a parse, which is never initialised.
- Sha1.SHA1Context.Input: one call takes fewer than 2^32 bytes, the range of its length argument.
- STCP window sizes and console output, failing stcp calls, and a retransmitting or reordering network; both ends have the same byte order. The flag constants are those of the TCP header; transport.h is not part of this model.
- STCP data that arrives in the blocking receive behind a FIN: it is swallowed, as in the code, and no delivery claim is made past a close.
- Sockets, processes, frame logging, argument parsing and file loading.
