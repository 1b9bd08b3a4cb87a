# vmod-wasm: a verified model of its stateful core

vmod-wasm runs Proxy-Wasm filters inside Varnish. This project models the parts of it that keep
state or speak a wire format, in Dafny, and proves what they promise over every input, every
history of calls or every interleaving:

- `StorePool`: the lock-free pool of Wasm stores, as a step system with one program counter per
  thread, and the code that refines it.
- `SharedData`, `CounterClients`: the versioned key-value store as a chained hash table that refines
  a map, and the compare-and-swap retry loops that count on top of it.
- `SharedQueues`: the named message queues as linked lists.
- `HeaderCodec`, `TrailerMap`: the serialized header map, its printer, both decoders and the size
  query.
- `HttpText`, `HttpFields`, `HttpRequest`, `HttpResponse`, `HeaderCount`: the HTTP callout from
  upstream name to printed request head and from socket pieces to response body.
- `ConnPool`, `CircuitBreaker`, `HttpCaches`, `DnsTable`: the HTTP pool behind it.
- `PoolHistory`: the connection pool told by its history of acquires and releases alone.
- `CalloutRuns`: callouts over pooled connections, in any interleaving.
- `Lifecycle`: who gives a store back, over calls, delivery filters and ends of requests.
- `BodyEdits`: body rewrites and what the delivery filter forwards.
- `Bytes`: octets, little-endian numbers, C strings, first-match and substring search.

State that the C code updates in place is a class whose methods are proved against functions on
values; the laws are lemmas about those functions, usually over runs, that is, over sequences of
states joined by steps. Where a law would otherwise lean on the same definition as the code it is
about, it is said again without it: the answers of the queues, the key-value store, the breakers, the
DNS table and the connection pool follow from the earlier calls and answers alone, printed text and
binary fields are fixed octet by octet. Sockets, DNS, clocks, Wasmtime, Varnish and allocation results are inputs.
`dafny verify dfyconfig.toml` checks everything.

Some properties one would expect do not hold of the code as it is. Each is kept as a lemma with
the exact condition under which it holds, and where that is not plain from the condition with a case
where it fails:

- a pool scan misses a slot exactly when the 64-bit hint wraps during it and the capacity does not
  divide 2^64, and exactly then an uninterrupted acquire from some reachable pool returns NULL
  although a slot is free and initialised
  (`StorePool.CoversIff`, `StorePool.NullDespiteIff`, `StorePool.TenSlotsMissOne`);
- a counter is exact unless an unconditional write hits a present nonzero counter, as when two clients
  both find no counter (`CounterClients.CounterExactIff`, `CounterClients.FirstTwoCanCollide`);
- a key or queue name with an embedded NUL is stored under one name and looked up under another
  (`SharedData.ReadBackIff`, `SharedQueues.RegisteredResolvesIff`, `SharedQueues.PermanentIff`,
  `SharedQueues.RunPermanentIff`, `SharedQueues.HiddenName`);
- the 32-bit offsets of the lenient header decoder stay inside the data exactly for sizes up to
  2^32 - 4353 (`TrailerMap.InsideIff`);
- without a Content-Length the outcome of a callout depends on how the bytes arrive unless nothing
  follows the head (`HttpResponse.UnsizedIff`);
- callouts retried less than 10 s apart keep a breaker open without bound
  (`CircuitBreaker.RetriesRejected`), because a rejected callout is itself reported as a failure;
- requests to two different methods and hosts can share a cache key, and then get each other's
  responses, exactly when "method:host" of one is that of the other or goes on after it as a key does
  (`HttpCaches.ClashIff`, `HttpCaches.ConfusedIff`, `HttpCaches.CacheKeysCanCollide`);
- the callout's own Host, Content-Length or Connection is the only one of its name exactly when the
  guest adds none (`HttpRequest.SoleIff`);
- the reported number of response headers is that of the lines exactly when no line feed before the
  last byte of the head is bare (`HttpResponse.CountsFieldsIff`, `HttpResponse.BareFeedMiscounts`);
- a store is given back twice when its task slot is refused, and never when its unfinished task is
  overwritten (`Lifecycle.GivenBackOnceIff`, `Lifecycle.RefusedTwice`, `Lifecycle.OverwrittenLost`).

Documentation and code differ in one place that matters here: the comment on the overflow branch of
the connection pool says a caller without a record closes the descriptor itself, while the code
always makes a record; the model follows the code.

## Model

| member | source | states |
|---|---|---|
| StorePool.RunInv | src/store_pool.c:482-552 | in every interleaving of any number of threads, flags, program counters and counters stay consistent |
| StorePool.OneHolderPerSlot | src/store_pool.c:482-552 | no slot ever has two holders |
| StorePool.AcquiresBalance | src/store_pool.c:525-551 | acquires minus releases is the number of stores held plus releases not yet counted |
| StorePool.FlagIffOwned | src/store_pool.c:500-545 | an in_use flag is set exactly while some thread owns the slot |
| StorePool.RunCounts | src/store_pool.c:482-552 | in every interleaving fallbacks counts the NULL returns, acquires the stores returned, releases the releases, resets the restored memories, and the hint the acquires begun modulo 2^64 |
| StorePool.EveryAcquireEnds | src/store_pool.c:482-533 | every acquire begun has returned a store, has returned NULL, or is still under way |
| StorePool.ScanHistory | src/store_pool.c:495-511 | at every moment of a scan, each probe made so far saw its slot busy or uninitialised after the scan began |
| StorePool.NullMeansAllSeen | src/store_pool.c:495-533 | a NULL result means every slot was seen unavailable during that scan, when the hint does not wrap inside it |
| StorePool.NullMeansNoneFree | src/store_pool.c:495-533 | an uninterrupted acquire whose scan covers the pool returns NULL only if every slot is busy or uninitialised, whether its probes met the ones or the others |
| StorePool.NullDespiteIff | src/store_pool.c:495-533 | an uninterrupted acquire from some pool reachable with this hint and capacity returns NULL although a slot is free and initialised, exactly for starts that do not cover the pool |
| StorePool.CoversIff | src/store_pool.c:495-498 | a scan reaches every slot exactly when start + capacity stays within 64 bits or the capacity divides 2^64 |
| StorePool.MissedSlot | src/store_pool.c:495-498 | otherwise some slot is never probed, and the lemma names it |
| StorePool.TenSlotsMissOne | src/store_pool.c:495-498 | a ten-slot pool with the hint at 2^64 - 1 never probes slot 9 |
| StorePool.RestoreIff | src/store_pool.c:288-307 | a restore makes the snapshot a prefix of the memory exactly when it fits, and changes nothing behind it |
| StorePool.AcquireHandsOutSnapshot | src/store_pool.c:512-526 | after any history of guest writes, growth and reuse, an acquire hands out memory whose prefix is the snapshot, if it once was large enough |
| StorePool.Restore | src/store_pool.c:288-307 | the copy loop, which acquire and construction use: succeeds exactly when the snapshot fits, and the array is the restored memory |
| StorePool.StorePool.constructor | src/store_pool.c:380-450 | capacity clamped to 8..1024, every made slot restored, an initial state of the step system |
| StorePool.StorePool.Acquire | src/store_pool.c:482-533 | an uninterrupted acquire is a sequence of steps of the system; it returns an available slot, or NULL only if none was (for a covering scan) |
| StorePool.StorePool.TryProbe | src/store_pool.c:497-511 | one probe claims its slot exactly when it is available, and otherwise leaves all slots as they were |
| StorePool.StorePool.ClaimFrom | src/store_pool.c:501-526 | claim, restore and count lead to holding the slot |
| StorePool.StorePool.Release | src/store_pool.c:535-552 | a release is three steps that leave the thread outside and the slot free |
| SharedData.ComputeFnv1a | src/proxy_wasm_shared.c:18-29 | the hash loop computes FNV-1a modulo 2^32 |
| SharedData.Fnv1aVectors | src/proxy_wasm_shared.c:18-29 | the published hash values of nothing and of "a" |
| SharedData.PutRefinesMap | src/proxy_wasm_shared.c:122-196 | one write acts on the chained table as on a plain map from key to value and version |
| SharedData.MismatchIff | src/proxy_wasm_shared.c:153-161 | a set reports a mismatch exactly when the key is present and the version given is nonzero and different |
| SharedData.ReadBackIff | src/proxy_wasm_shared.c:97-98 | a value written can be read back exactly when its key holds no NUL |
| SharedData.HistoryDeterminesCell | src/proxy_wasm_shared.c:80-196 | after any history a key is present iff written, holds the latest value, and its version is its number of successful writes modulo 2^32 |
| SharedData.SetAnswers | src/proxy_wasm_shared.c:122-196 | in every history of NUL-free keys: an error exactly for a bad length of key or value, a mismatch exactly when the key was written and the version is neither 0 nor the number of successful writes modulo 2^32 |
| SharedData.HistoryWellFormed | src/proxy_wasm_shared.c:122-196 | after any history chains hold each key once and in its own bucket |
| SharedData.Store.Get | src/proxy_wasm_shared.c:80-120 | walking the linked chain finds what the table says |
| SharedData.Store.Set | src/proxy_wasm_shared.c:122-196 | the linked structure moves from table to table exactly as Put says, status included |
| CounterClients.RunInv | examples/edge-security-filter/src/lib.rs:372-420 | what every interleaving of clients and other writers keeps about versions, values read and successes |
| CounterClients.CounterExactIff | examples/edge-security-filter/src/lib.rs:372-390 | the counter is the start value plus the successes exactly when no unconditional write hit a present nonzero counter, and never more |
| CounterClients.ExistingCounterExact | examples/edge-security-filter/src/lib.rs:372-390 | a counter that exists at the start loses no increment, unless a read fails |
| CounterClients.CountedAtMost | examples/edge-security-filter/src/lib.rs:392-420 | the number a client ends with counts no more than the successes up to its own |
| CounterClients.LimitedOnlyAfter | examples/edge-security-filter/src/lib.rs:392-420 | a request is limited only after at least max_requests counted ones, and exactly then once the counter exists |
| CounterClients.FirstTwoCanCollide | examples/edge-security-filter/src/lib.rs:372-390 | a run in which two first increments both succeed and the counter stands at one |
| CounterClients.RetryMeansProgress | examples/edge-security-filter/src/lib.rs:383-387 | whenever a client has its write refused, another client counted itself after its read |
| CounterClients.IncrementPass | examples/edge-security-filter/src/lib.rs:374-384 | one uninterrupted pass over the real store, its read failed or not, is a read step and a write step of the step system |
| CounterClients.Increment | examples/edge-security-filter/src/lib.rs:372-390 | the whole retry loop against any failed reads and any writes of others in between: every refused attempt had read and had the counter written during it, the loop ends in success, the last attempt writes one more than it read, and the cell then holds that number in 4 or 8 octets, least significant first |
| CounterClients.ReadOctets | examples/edge-security-filter/src/lib.rs:423-437 | the number a client reads has the octets of the cell as its digits, least significant first |
| SharedQueues.FifoConservation | src/proxy_wasm_shared.c:339-434 | messages taken, followed by those waiting, are the messages accepted, in order; never more than 1024 wait |
| SharedQueues.TakeAnswers | src/proxy_wasm_shared.c:399-434 | in every history a dequeue returns the first message sent and not yet taken, and nothing exactly when there is none |
| SharedQueues.SendAnswers | src/proxy_wasm_shared.c:339-397 | in every history an enqueue succeeds exactly when the id was handed out, the message has at most 65536 bytes, and sent minus taken is below 1024 |
| SharedQueues.RegisterAnswers | src/proxy_wasm_shared.c:254-308 | in every history a registration gets the id of the latest registration read as that name, else the next id up to 64, and 0 exactly for a bad length or a full table |
| SharedQueues.ResolvesLatest | src/proxy_wasm_shared.c:310-337 | in every history a name resolves to what the latest registration read as that name was answered |
| SharedQueues.IdsConsecutive | src/proxy_wasm_shared.c:277-303 | ids are handed out consecutively from 1 |
| SharedQueues.RunInv | src/proxy_wasm_shared.c:254-434 | after any history ids are consecutive and unique and no queue is over its depth |
| SharedQueues.NamesInjective | src/proxy_wasm_shared.c:310-337 | different names never resolve to one queue |
| SharedQueues.RegisteredResolvesIff | src/proxy_wasm_shared.c:254-337 | a registered name resolves to its id exactly when it holds no NUL |
| SharedQueues.NewQueueResolves | src/proxy_wasm_shared.c:254-308 | a new queue is found under its C-string name and every other name resolves as before |
| SharedQueues.PermanentIff | src/proxy_wasm_shared.c:254-308 | one registration keeps every resolution exactly when the name is NUL-free, refused, or names nothing before its NUL |
| SharedQueues.RunPermanentIff | src/proxy_wasm_shared.c:254-434 | over every history of calls a name keeps the id it resolves to exactly until a name with an embedded NUL hides it, and ids only grow |
| SharedQueues.QueueObject.Append | src/proxy_wasm_shared.c:374-390 | linking at the tail appends one message; head, tail and depth stay consistent |
| SharedQueues.QueueObject.Pop | src/proxy_wasm_shared.c:414-430 | unlinking the head returns the oldest message; head, tail and depth stay consistent |
| SharedQueues.HiddenName | src/proxy_wasm_shared.c:254-337 | in every run of the two calls Reg("a"), Reg("a\0b") the name "a" resolves first to 1, then to 2 |
| SharedQueues.QueueStore.RegisterQueue | src/proxy_wasm_shared.c:254-308 | the linked list of queues gets a new head, or stays, as Register says, id included |
| SharedQueues.QueueStore.ResolveQueue | src/proxy_wasm_shared.c:310-337 | the walk along the links finds what Resolve says |
| SharedQueues.QueueStore.EnqueueMessage | src/proxy_wasm_shared.c:339-397 | exactly the addressed queue grows by the message, or the call fails and nothing changes |
| SharedQueues.QueueStore.DequeueMessage | src/proxy_wasm_shared.c:399-434 | exactly the addressed queue loses its oldest message, which is returned |
| HeaderCodec.EncodeIff | src/proxy_wasm_headers.c:678-709 | a buffer starts with the encoding of a list exactly when its count, size fields and NUL-terminated data say so |
| HeaderCodec.EncodePairs | src/proxy_wasm_headers.c:678-709 | the loop that fills the buffer writes the encoding |
| HeaderCodec.EncodedOctets | src/proxy_wasm_headers.c:678-709 | octet by octet: the count, each length least significant octet first, then every key and value with its NUL |
| Bytes.U32AtOctets | src/proxy_wasm_http.c:606-622 | a 32-bit field is read with its least significant octet first |
| Bytes.LEOctet | examples/edge-security-filter/src/lib.rs:380-381 | octet k of a printed number is its digit of weight 256^k |
| HeaderCodec.ComputeSize | src/proxy_wasm_headers.c:1197-1206 | the size query is the length of the encoding modulo 2^32 |
| HeaderCodec.DecodeStrict | src/proxy_wasm_http.c:591-647 | accepts exactly the buffers that start with an encoding of at most 64 pairs, and returns those pairs |
| HeaderCodec.EncodeInjective | src/proxy_wasm_http.c:606-647 | at most one list of pairs is encoded at the front of a buffer |
| HeaderCodec.RoundTrip | src/proxy_wasm_http.c:606-647 | decoding what was encoded, whatever follows it, gives the pairs back up to 64 and is refused above |
| TrailerMap.StoredInside | src/proxy_wasm_headers.c:1066-1116 | for sizes up to 2^32 - 4353 every pair the modulo-2^32 decoder stores lies inside the data |
| TrailerMap.LargerSizesEscape | src/proxy_wasm_headers.c:1066-1116 | for every larger size some data makes it store a pair that does not |
| TrailerMap.InsideIff | src/proxy_wasm_headers.c:1066-1116 | so the bound is exact |
| TrailerMap.StoredReach | src/proxy_wasm_headers.c:1066-1116 | for every size a stored pair ends at most 4351 bytes past the data |
| TrailerMap.EncodingStored | src/proxy_wasm_headers.c:1075-1116 | given the encoding of up to 256 pairs, or a front of one, the decoder stores exactly the pairs that are all there, with a name of 1 to 255 bytes and a value of at most 4095 |
| TrailerMap.WholeEncoding | src/proxy_wasm_headers.c:1075-1086 | data that begins with the encoding of up to 256 pairs is such data, and with that of more it is refused |
| TrailerMap.FrontOfEncoding | src/proxy_wasm_headers.c:1098-1107 | and so is a front of it cut inside the data of some pair |
| TrailerMap.OwnEncoding | src/proxy_wasm_headers.c:1088-1116 | decoding the encoding of valid entries recovers exactly those with a name |
| TrailerMap.Trailers.AddValue | src/proxy_wasm_headers.c:125-154 | adds the pair as C strings exactly when both fit and the map holds fewer than 32 |
| TrailerMap.Trailers.GetPairs | src/proxy_wasm_headers.c:660-721 | the serialized map is the encoding of the entries, empty for none |
| TrailerMap.Trailers.SizeQuery | src/proxy_wasm_headers.c:1173-1206 | equals the length of what GetPairs returns |
| TrailerMap.Trailers.SetPairs | src/proxy_wasm_headers.c:1042-1119 | replaces the map by the first 32 pairs the decoder recovers from the memory, past the end of the data too, or fails and keeps it; for an encoding of up to 256 pairs, or a front of one, these are its first 32 trailers |
| TrailerMap.Trailers.SetFromOwn | src/proxy_wasm_headers.c:1042-1119 | setting a map from its own encoding keeps the named entries, and all of it exactly when every name is non-empty |
| HttpText.ParseSize | src/proxy_wasm_http.c:200-230 | accepts exactly blanks, digits, blanks with a value up to SIZE_MAX and returns it |
| HttpText.SizeUnique | src/proxy_wasm_http.c:200-230 | a text denotes at most one size |
| HttpText.ParsePort | src/proxy_wasm_http.c:312-334 | accepts exactly the decimal texts of 1..65535 |
| HttpText.ParseUpstream | src/proxy_wasm_http.c:440-472 | accepts exactly the names of an endpoint and returns it |
| HttpText.NamesOne | src/proxy_wasm_http.c:440-472 | a text names at most one endpoint |
| HttpText.CanonicalNames | src/proxy_wasm_http.c:559-563 | parsing undoes the printing used for the allowlist exactly while the spelling fits the buffer |
| HttpText.CanonicalInjective | src/proxy_wasm_http.c:562-571 | two endpoints with one spelling are one, so the decision depends only on parsed host and port |
| HttpText.CheckUpstream | src/proxy_wasm_http.c:549-577 | an upstream passes exactly when it parses and, with an allowlist, its canonical spelling is on it |
| HttpText.DecOfPrint | src/proxy_wasm_http.c:562-563 | reading a printed number gives it back |
| HttpText.PrintDigits | src/proxy_wasm_http.c:562-563 | the printed digits are those of the number, most significant first, without a leading zero |
| HttpText.Characters | src/proxy_wasm_http.c:56-173 | which characters a token, a path, a host and a field value may hold |
| HttpText.HostAlone | src/proxy_wasm_http.c:440-472 | a host alone names its port 80 |
| HttpFields.FindHeaderValue | src/proxy_wasm_http.c:232-279 | the pointer walk finds the trimmed value of the first field of that name among the lines of the head |
| HttpFields.FieldValueOne | src/proxy_wasm_http.c:232-279 | a head has at most one such value |
| HttpFields.EqFoldIff | src/proxy_wasm_http.c:262-264 | names are equal up to case exactly when every octet is the same or the other case of one letter |
| HttpFields.ValueHasToken | src/proxy_wasm_http.c:281-310 | true exactly when some trimmed element of the comma list is the token up to case |
| HttpRequest.AppendHeader | src/proxy_wasm_http.c:175-198 | appends exactly "key: value CRLF" iff both are well formed and the buffer keeps room for the NUL |
| HttpRequest.HeadSplits | src/proxy_wasm_http.c:682-709 | splitting a printed head at CRLF gives the request line, Host, optional Content-Length, Connection, the extra fields in order, one empty line, and nothing else |
| HttpRequest.LookupIff | src/proxy_wasm_http.c:682-709 | for every name, a lookup in the printed head finds the trimmed value of the first of the own and extra fields of that name |
| HttpRequest.HostReadsBack | src/proxy_wasm_http.c:687-708 | a receiver's lookup of Host finds the parsed host, whatever the guest adds |
| HttpRequest.LengthReadsBack | src/proxy_wasm_http.c:687-697 | its lookup of Content-Length finds the length of the body |
| HttpRequest.ConnectionReadsBack | src/proxy_wasm_http.c:684-708 | its lookup of Connection finds the option the callout chose |
| HttpRequest.LengthWithoutBody | src/proxy_wasm_http.c:698-708 | without a body a receiver reads a Content-Length exactly when the extra fields hold one, and then the first |
| HttpRequest.SoleIff | src/proxy_wasm_http.c:655-709 | an own field is the only one of its name exactly when no extra field has that name up to case |
| HttpRequest.RequestLineInjective | src/proxy_wasm_http.c:687-708 | method and path can be read off the request line |
| HttpRequest.HeadInjective | src/proxy_wasm_http.c:682-709 | two heads that print alike are equal in every component |
| HttpRequest.LastWins | src/proxy_wasm_http.c:649-654 | of several :method or :path pairs the last one counts, and without one the default |
| HttpRequest.ExtrasInOrder | src/proxy_wasm_http.c:655-663 | exactly the pairs with a name that does not start with ':' are sent, in order |
| HttpRequest.BuildRequest | src/proxy_wasm_http.c:649-714 | refused exactly when the last :method is no token, the last :path has a character outside '!'..'~', a field is ill-formed or they do not fit; otherwise, below 8192 bytes, a request that splits into exactly the request line, Host, Content-Length iff there is a body, Connection, the extra fields in order and one empty line, and reads back host, length and connection option |
| HttpRequest.PrepareRequest | src/proxy_wasm_http.c:580-714 | the same from the serialized headers: a plain GET for none, refusal of an undecodable buffer, and otherwise the answer to the pairs encoded |
| HttpRequest.OutcomeAnswers | src/proxy_wasm_http.c:649-714 | the three answers hold of every list of pairs, host, length and option, in the literal words of the format |
| HttpRequest.PrintHead | src/proxy_wasm_http.c:682-709 | the format filled in is the joined lines of the head |
| HttpResponse.ReadHead | src/proxy_wasm_http.c:781-792 | whatever pieces arrive, the first phase finds the end of the head of the stream and takes a prefix of it |
| HttpResponse.ReadBody | src/proxy_wasm_http.c:859-878 | reads exactly what is missing or what is left |
| HttpResponse.FindFraming | src/proxy_wasm_http.c:808-832 | decides chunked, bad, absent or usable Content-Length as the fields of the head say |
| HttpResponse.ReadResponse | src/proxy_wasm_http.c:775-895 | the outcome and the bytes consumed are those of the framing table for every delivery |
| HttpResponse.AcceptedIff | src/proxy_wasm_http.c:838-882 | a Content-Length response is accepted exactly when it fits 256 KiB and the stream holds all of it, independent of pieces |
| HttpResponse.OthersRefused | src/proxy_wasm_http.c:808-893 | for every delivery: a chunked response is unimplemented, no head or a Content-Length that is no size is a parse failure, and without a Content-Length it is accepted exactly when nothing past the head was taken; none leaves the connection reusable |
| HttpResponse.CompleteIff | src/proxy_wasm_http.c:775-895 | a response is complete exactly when it has a head, no chunks, and either a size that fits and is all there, or no Content-Length and nothing taken past the head |
| HttpResponse.KindsExhaust | src/proxy_wasm_http.c:808-888 | every stream with a head is chunked, badly sized, unsized or sized |
| HttpResponse.HeadEndIff | src/proxy_wasm_http.c:781-795 | the head ends at the first CRLF CRLF, within 262144 bytes and with no NUL before it |
| HttpResponse.ReusableIff | src/proxy_wasm_http.c:848-882 | a connection is reusable only if precisely head plus Content-Length bytes were consumed, and exactly then if it may persist |
| HttpResponse.UnsizedIff | src/proxy_wasm_http.c:883-888 | without Content-Length the outcome is independent of the pieces exactly when nothing follows the head |
| HttpResponse.NulHidesHead | src/proxy_wasm_http.c:787-795 | a NUL before the first blank line means refusal |
| HttpResponse.SearchesAgree | src/proxy_wasm_http.c:927-935 | the second, raw search finds the blank line the first one found |
| HttpResponse.SplitResponse | src/proxy_wasm_http.c:927-935 | the raw search loop finds the first blank line and the bytes after it |
| HttpResponse.ReceiveBody | src/proxy_wasm_http.c:775-953 | a body is stored exactly for the receivable streams of CompleteIff, every other kind of stream gets its own status, and the stored body is exactly the Content-Length bytes after the first blank line, or empty, with the header count of the bytes before it |
| HeaderCount.CountHeaders | src/proxy_wasm_http.c:937-953 | the counting loop counts the line-feed-separated lines after the first |
| HttpResponse.BareFeedMiscounts | src/proxy_wasm_http.c:937-953 | the head "A\nB" has no field line and one header is reported |
| HttpResponse.CountsFieldsIff | src/proxy_wasm_http.c:937-953 | that is the number of fields of the head exactly when no line feed is bare, but for one right before the blank line |
| ConnPool.Pool.constructor | src/http_pool.c:272-303 | 16 empty slots by default, at most 256 |
| ConnPool.Pool.Scan | src/http_pool.c:650-696 | closes stale idle connections to the upstream up to the first fit one, which it returns |
| ConnPool.Pool.FindOldest | src/http_pool.c:740-752 | finds the idle slot of least last use, the last of several |
| ConnPool.Pool.Acquire | src/http_pool.c:627-794 | slots, records, counters, descriptors and closes change exactly as the outcome says; every opened descriptor keeps exactly one place and closed ones were closed once |
| ConnPool.Pool.Create | src/http_pool.c:710-794 | a new descriptor goes to the first free slot, else the oldest idle one, else a record, else is closed |
| ConnPool.Pool.Release | src/http_pool.c:796-850 | a kept slot becomes idle on the same descriptor; anything else is closed, and its count of closes becomes one |
| ConnPool.OnePlace | src/http_pool.c:627-850 | an opened descriptor is in exactly one slot, or in exactly one record, and never closed, or in none and closed exactly once |
| ConnPool.LoansKept | src/http_pool.c:627-794 | an acquire touches nothing that is held and hands out nothing that was |
| ConnPool.OverflowOnlyWhenBusy | src/http_pool.c:738-794 | an overflow record is made only when every slot is busy |
| ConnPool.EvictsOldest | src/http_pool.c:738-775 | an eviction takes the least recently used idle slot of a full pool |
| ConnPool.RunClocked | src/http_pool.c:676-823 | in every run with a nondecreasing clock no idle connection was used in the future |
| ConnPool.RunChoices | src/http_pool.c:627-794 | in every such run: reuse iff a fit idle connection exists, overflow only when all are busy, eviction of the least recently used |
| PoolHistory.AcquireAnswers | src/http_pool.c:627-794 | in every run the answer of an acquire follows from the earlier events: reuse of the first usable slot, else the first vacant one, else the one idle longest, else a record of its own |
| PoolHistory.AnswerUnique | src/http_pool.c:627-794 | these cases exclude each other, so the history determines the answer up to the number of a record |
| PoolHistory.ReusedLife | src/http_pool.c:650-696 | a reused connection was opened by an earlier acquire for the same host and port, at most 300 s before, handed out fewer than 100 times since, is alive and in nobody's hands, and the upstream is exempt |
| PoolHistory.RunTold | src/http_pool.c:627-850 | in every run each slot is open, held, opened for, counted and dated as its events say |
| CircuitBreaker.RunExplains | src/http_pool.c:478-621 | in every run a breaker counts requests, failures and failures since the last success; while closed there are fewer than 5 of those; else it knows the latest failure time |
| CircuitBreaker.OpensIff | src/http_pool.c:605-618 | a closed breaker opens exactly at the failure that brings that run to 5 |
| CircuitBreaker.HalfOpensIff | src/http_pool.c:536-545 | an open breaker goes half-open exactly at a request 10 s or more after the latest failure, never straight to closed |
| CircuitBreaker.HalfOpenLeavesIff | src/http_pool.c:551-618 | a half-open breaker closes exactly at a success and opens exactly at a failure |
| CircuitBreaker.RejectedOnlySoon | src/http_pool.c:536-549 | a rejection occurs only less than 10 s after the latest failure |
| CircuitBreaker.RejectedIff | src/http_pool.c:512-621 | in every run a request is rejected exactly when its upstream is among the first 32, is open by its events (five failures without a success, or one while half-open), and failed less than 10 s before |
| CircuitBreaker.RejectionsAddUp | src/http_pool.c:546-548 | the pool's total is the sum over breakers and the number of rejected requests |
| CircuitBreaker.RunShaped | src/http_pool.c:478-510 | breakers have distinct upstreams and are at most 32 |
| CircuitBreaker.UntrackedUnseen | src/http_pool.c:487-496 | while there is room an upstream without a breaker has had no event |
| CircuitBreaker.RetriesRejected | src/proxy_wasm_http.c:725-731 | in every run, with any events of other upstreams in between, retries to an open upstream are all rejected while less than 10 s apart, and the first let through is the first that waits longer |
| CircuitBreaker.Breakers.FindOrCreate | src/http_pool.c:478-510 | finds the breaker, or appends a closed one, or reports a full table |
| CircuitBreaker.Breakers.CbAllow | src/http_pool.c:512-560 | the table changes as one request event, and the answer is the rejection rule |
| CircuitBreaker.Breakers.CbSuccess | src/http_pool.c:562-588 | the table changes as one success event |
| CircuitBreaker.Breakers.CbFailure | src/http_pool.c:590-621 | the table changes as one failure event |
| HttpCaches.CacheKeyInjective | src/http_pool.c:45-63 | requests to one method and host, or to two that do not clash, share a key only if equal |
| HttpCaches.ClashIff | src/http_pool.c:45-63 | two methods and hosts have requests with one key exactly when their fronts are equal or one goes on after the other with a port |
| HttpCaches.ConfusedIff | src/http_pool.c:863-988 | for different methods and hosts, some put of one is a hit for the other exactly when they clash |
| HttpCaches.ColonFreeApart | src/http_pool.c:45-63 | different methods and hosts without ':' never clash |
| HttpCaches.ColonFreeHistory | src/http_pool.c:863-988 | so histories without ':' in methods and hosts meet the condition of HitIff |
| HttpCaches.CacheKeysCanCollide | src/http_pool.c:45-63 | with ':' different requests can share a key |
| HttpCaches.CacheHash | src/http_pool.c:34-43 | the hash loop computes djb2 modulo 2^32 and its bucket |
| HttpCaches.Djb2Vectors | src/http_pool.c:34-43 | the hash values of nothing and of "a" |
| HttpCaches.PutEffect | src/http_pool.c:937-985 | the chained cache refines a map: a put is seen by its own key only |
| HttpCaches.RunHoldsLatest | src/http_pool.c:915-988 | after any run of puts each key holds exactly its latest accepted put |
| HttpCaches.HitIff | src/http_pool.c:863-913 | where no other method and host of the history clashes, a hit is exactly the latest accepted put of the very same request while younger than its TTL |
| HttpCaches.ResponseCache.CacheGet | src/http_pool.c:863-913 | walking the chain answers as Hit says and counts it |
| HttpCaches.ResponseCache.CachePut | src/http_pool.c:915-988 | updates in place or prepends; refuses empty and oversized data |
| DnsTable.RunShaped | src/http_pool.c:438-465 | host entries stay unique and at most 64, whatever lookups interleave |
| DnsTable.RunHoldsLatest | src/http_pool.c:438-465 | a host's entry is its latest record, and is there exactly when no later record pushed it out |
| DnsTable.HitIff | src/http_pool.c:403-430 | a lookup hits exactly the latest recorded address, younger than the TTL and not pushed out |
| DnsTable.LookupAnswers | src/http_pool.c:403-465 | in every run a lookup finds exactly the latest record of a host that still has one of the 64 slots, for less than 60 s, the slots being determined by the order of records |
| DnsTable.Table.Consult | src/http_pool.c:403-432 | the scan answers as Lookup says |
| DnsTable.Table.Record | src/http_pool.c:446-465 | overwrites the host's entry, else appends, else overwrites the first |
| CalloutRuns.Callouts.Begin | src/http_pool.c:627-794 | a connection handed out again stands exactly at the end of the last response on it |
| CalloutRuns.Callouts.ReadOn | src/proxy_wasm_http.c:775-896 | reading on a held connection leaves every idle one where it stood |
| CalloutRuns.Callouts.Finish | src/proxy_wasm_http.c:775-903 | a callout leaves a connection idle only at the end of its response; all idle ones stay so |
| CalloutRuns.Ended | src/proxy_wasm_http.c:849-903 | only a call that consumed exactly its response leaves the connection reusable |
| CalloutRuns.StartCallout | src/proxy_wasm_http.c:716-731 | a breaker rejection leaves the connections alone, and every failure to connect is reported |
| CalloutRuns.EndCallout | src/proxy_wasm_http.c:898-911 | complete responses, that is exactly the receivable ones, and only those are reported as successes |
| Lifecycle.RunInv | src/wasm_engine.c:992-1454 | in every interleaving each store was given back as often as its fate says, and tasks and stores agree |
| Lifecycle.RunBalance | src/wasm_engine.c:1361-1429 | in every run calls_total is calls_ok plus calls_error plus the number of stores taken by a deferred call whose filter has not finished, a set read off the run itself rather than off the counters |
| Lifecycle.RunCounts | src/wasm_engine.c:992-1454 | in every run the three counters are numbers of events: calls with a store, good ends and finished filters, bad ends and refused task slots |
| Lifecycle.GivenBackOnceIff | src/wasm_engine.c:1346-1454 | once all requests ended, every store was given back exactly once iff no task slot was refused and no unfinished task overwritten |
| Lifecycle.OwnedOrReturned | src/vdp_wasm.c:52-76 | at any moment of such a run a store is given back once or is with exactly one task |
| Lifecycle.RefusedTwice | src/wasm_engine.c:1348-1357 | a refused task slot gives the store back twice |
| Lifecycle.OverwrittenLost | src/wasm_engine.c:1358-1376 | of two deferrals in one request the first store is never given back |
| Lifecycle.Engine.Execute | src/wasm_engine.c:992-1454 | for every script of the runtime: which calls get a store, which count as good, bad or neither yet, how often the store is given back, what is returned and which task gets it |
| Lifecycle.Engine.RunPhases | src/wasm_engine.c:1182-1410 | after the header callbacks: finished, deferred to the request's task, or refused |
| Lifecycle.Engine.CleanUp | src/wasm_engine.c:1412-1454 | one total, one of ok and error, and the store goes back |
| Lifecycle.Engine.FilterFini | src/vdp_wasm.c:207-309 | counts the call as ok and gives its store back |
| Lifecycle.Engine.TaskFini | src/vdp_wasm.c:52-76 | gives the store back unless the filter already did |
| BodyEdits.SpliceBytes | src/proxy_wasm.c:313-355 | every byte of a rewritten buffer: kept before, the value, kept behind |
| BodyEdits.SucceedsIff | src/proxy_wasm.c:313-355 | a rewrite succeeds, whatever its start, exactly when the new length is below 2^64 and there is memory, which an empty result does not need |
| BodyEdits.ChunkUntilWritten | src/proxy_wasm.c:507-718 | up to the first successful rewrite the buffer is the chunk itself |
| BodyEdits.ReadsAfterWrite | src/proxy_wasm.c:507-634 | a read right after a successful rewrite sees the value at the clamped start and all the rest as before |
| BodyEdits.WrittenReadsBack | src/proxy_wasm.c:507-545 | reading where a value was written gives it back |
| BodyEdits.ReadWritesBack | src/proxy_wasm.c:313-355 | writing back what was read changes nothing |
| BodyEdits.WindowsTile | src/proxy_wasm.c:534-545 | consecutive reads tile the buffer |
| BodyEdits.ReplaceBytes | src/proxy_wasm.c:313-355 | the filled buffer is the clamped splice, or the call fails exactly when it cannot be made |
| BodyEdits.Context.SetBufferBytes | src/proxy_wasm.c:598-634 | a rewrite splices the current buffer or leaves it alone |
| BodyEdits.Context.GetBufferBytes | src/proxy_wasm.c:507-545 | a read is a window of the current buffer |
| BodyEdits.Context.GetBufferStatus | src/proxy_wasm.c:697-718 | the length reported is that of the current buffer, as a 32-bit word |
| BodyEdits.Context.Serve | src/proxy_wasm.c:507-718 | one host call is answered from the current buffer, and only a rewrite changes it |
| BodyEdits.Context.Callback | src/proxy_wasm.c:507-718 | any mix of rewrites, reads and length queries leaves the left fold of the splices, and each answer is the one for the fold so far |
| BodyEdits.Context.FilterBytes | src/vdp_wasm.c:113-205 | runs the callback exactly when there is data or the end, forwards exactly the fold of the chunk, or the chunk itself, and answers the guest's calls as Callback does |
| BodyEdits.Context.Deliver | src/vdp_wasm.c:113-205 | over a whole response the client gets exactly the folds in order |

## Left out

- TrailerMap.Trailers.SetPairs: requires memory as far as the stored pairs reach, at most 4351 bytes past the data; a read beyond the memory is not modelled.
- CounterClients.CounterExactIff: assumes fewer than 2^32 writes to the key and a counter that does not overflow its width, since versions and counters wrap there.
- StorePool.StorePool.Acquire: states one uninterrupted call; interleavings are the step system of RunInv, which it refines.
- ConnPool.Pool.Acquire: acquire and release are atomic; the few writes of release outside the lock are not interleaved. num_active is not modelled. Descriptor numbers are never reused.
- ConnPool.Pool.Release: requires a connection that the caller holds.
- Lifecycle.Engine.FilterFini: a delivery filter finishes once per task; a filter list that names it twice is not modelled.
- BodyEdits.Context.SetBufferBytes: one body type per context; request and response bodies share one rewritten buffer in the code.
- CircuitBreaker.RunExplains: counters are unbounded; the consecutive-success count is carried but nothing depends on it.
- Sockets, polling, timeouts, DNS resolution, private-address checks and liveness probes are inputs.
- Wasmtime instantiation, traps, epochs and tick threads are inputs; guest callbacks are arbitrary steps.
- Header maps backed by Varnish's own header structure, and header lookup in stored callout responses.
- VCL argument checks, the filter-chain loop, properties, metrics, logging, statistics as JSON.
- Destruction of stores, pools and caches, and allocation failure except where a member names it.
- The example filters other than the two counter loops.
