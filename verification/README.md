# A verified model of the gateway's stateful core

RemLink is a VPN gateway. These Dafny modules model the parts of it that keep state, count, or parse
untrusted bytes, and prove what those parts promise. Each module follows one source file; where the source
updates an object or an array in place, the model is a class or an array method, proved equal to a
specification function, and the theorems are about that function and about whole runs of it.

* **TCP stream cache and ClientHello** (`TcpSegments`, `TcpStreams`, `StreamCache`, `SniParser`,
  `CommonProtocols`, `HelloRun`, `CacheRuns`, `InOrderRuns`, with `MapSum` and `Wire`). Segments are kept by
  32-bit sequence number (section 3.4 of RFC 9293), rebased, trimmed and evicted; the assembled bytes go to a
  parser for the server name of a TLS ClientHello (section 4.1.2 of RFC 8446, section 3 of RFC 6066).
* **IP address allocator** (`IpTable`, `IpPool`, `IpPoolGrants`, `IpPoolSafety`, `BigIp`) and
  **groups' address blocks** (`CidrBlocks`, `CidrGroups`).
* **Lockout and login** (`LockCounter`, `LockManager`, `LockRuns`, `LockCleanup`, `AuthPipeline`, `AuthFlow`).
* **Packets** (`Checksum`, `DnsResponse`, `V6Header`, `Cstp`, `DomainRules`): the internet checksum (section 1
  of RFC 1071), DNS answers over IPv4 and IPv6 (RFC 768, section 3.1 of RFC 791, section 8.1 of RFC 8200), the
  walk over IPv6 extension headers (section 4 of RFC 8200, section 2.2 of RFC 4302), CSTP frames (section 2.2
  of draft-mavrogiannopoulos-openconnect-02), and the domain rules of FakeDNS.
* **FakeDNS address map** (`FakeDns`, `FakeDnsRuns`) and **audit batches** (`AuditBatch`).

`dafny verify dfyconfig.toml` checks everything.

## Where the code does less than one would expect

Several promises hold only under a condition. Each condition is proved exact, or a concrete run shows that
it cannot be dropped:

* A stream keeps the longest transmission from each offset and, while these exceed 4096 bytes, drops the lowest.
  So a ClientHello that is cut and retransmitted at other boundaries can lose its start although the message
  itself fits. While the start is kept, the host is reported exactly if what is kept covers the message; a start
  that was dropped can come back when it is sent again while there is room for it (`HelloRun.ReportedIff`,
  `HelloRun.RecutLosesStart`, `HelloRun.StartSentAgainReports`). A retransmission that arrives after the stream
  was recognised and released is judged on its own (`CacheRuns.LateStartIsPlain`). Another connection's segment
  evicts a stream unless everything seen since fits beside it (`StreamCache.SurvivesIff`).
* When the write that makes a lease row over to a new device violates the unique (MAC, group) constraint, the
  allocator only logs it and hands the address out; the old device can then be given the same address
  (`IpPoolSafety.GrantKeepsMatchIff`, `IpPoolSafety.RejectedWriteShares`). Whether that can happen is decided by
  the table before the call (`IpPoolSafety.RejectableIff`).
* The allocator refuses although an idle, unreserved row exists if that row's lease is not over and its last
  login is not in the past (`IpPoolSafety.LoopRefusesIff`), for example at the moment of its release
  (`IpPoolSafety.ReleasedNowIsRefused`).
* A cleanup of the lock manager is invisible only if the expiry is no shorter than the reset window of every
  table that counts to a lock. A failure without a user name bumps the address counter of the empty address
  instead of a user counter, so in that counter the windows of both tables matter for the locks of either
  (`LockCleanup.CleanupInvisibleIff`).
* Unlocking a user does not lift the user's lock at one address; the user gets in exactly if neither that lock nor
  the address's own holds (`LockRuns.UnlockedUserAdmittedIff`).
* A login session resumed after a failed attempt lists the steps passed in that attempt twice, and so does one
  that is started again while it is paused (`AuthPipeline.RecordExactIff`,
  `AuthPipeline.FailedAttemptRecordsTwice`, `AuthPipeline.RestartRecordsTwice`).
* Choosing another group keeps the break-point of a paused session. The session then runs every step of the new
  group's profile exactly if the two profiles agree on the steps before the break-point
  (`AuthPipeline.GroupSwitchIff`). Neither does a new user name: it is completed as one user although earlier
  steps passed for another, and every step has passed for the user who completes it exactly if those behind the
  break-point had (`AuthPipeline.UserSwitchIff`, `AuthPipeline.HandOverIff`, `AuthPipeline.TwoUsersPass`).
* The 32-bit sum of the checksum wraps for very long data; the result is still right exactly while the wraps take
  nothing away (`Checksum.CalculateChecksum`).
* The loop limit of 12 in the IPv6 header walker admits 11 extension headers: the last round has to find the
  upper layer (`V6Header.ParsesBuilt`).
* An IPv6 DNS answer whose datagram exceeds 65535 octets has a truncated length field and does not parse
  (`DnsResponse.Answer6ParsesBack`).
* A CSTP payload that compresses to nothing is dropped by the reader (`Cstp.RoundTripIff`).
* A fake address handed out while still in use breaks the map (`FakeDnsRuns.AcquireKeepsInverseIff`); if
  a firewall rule is deleted and its replacement fails, the map keeps a route without a rule
  (`FakeDnsRuns.AddKeepsRulesIff`); the IPv6 cursor yields the first address twice when it wraps
  (`FakeDnsRuns.V6FirstComesTwice`).
* When the groups cannot be read, an overlapping block is accepted (`CidrGroups.AcceptedKeepsDisjointIff`).

## Model

| member | source | states |
|---|---|---|
| TcpSegments.RelativeSeq | server/handler/payload_tcp_stream.go:120-122 | the forward distance of two sequence numbers: adding it to the base gives the number back, modulo 2^32 |
| TcpSegments.FindLowest | server/handler/payload_tcp_stream.go:153-159 | the scan finds the segment nearest above the base |
| TcpSegments.SortSegments | server/handler/payload_tcp_stream.go:124-133 | the segments in increasing distance from the base, each once |
| TcpSegments.AssembleTcpStream | server/handler/payload_tcp_stream.go:124-149 | the loop with its moving end computes the merge of the ordered segments |
| TcpSegments.AssembledIsLongestRun | server/handler/payload_tcp_stream.go:120-149 | if the segments are slices of one byte stream within half the sequence space, the result is exactly the longest gap-free run of that stream from the lowest segment, across wraparound |
| TcpStreams.Decode | server/handler/payload_tcp_stream.go:50-64 | a segment is buffered only with a payload, of at most 4096 bytes |
| TcpStreams.DecodeInverts | server/handler/payload_tcp_stream.go:50-64 | decoding finds number and payload of any well-formed segment, with or without options |
| TcpStreams.DecodeCuts | server/handler/payload_tcp_stream.go:50-64 | without a payload nothing is buffered, and of a longer one its first 4096 octets |
| TcpStreams.DecodeRejects | server/handler/payload_tcp_stream.go:50-58 | a header shorter than 20 octets, or as long as the segment, is not read |
| TcpStreams.TrimmedKeepsHighest | server/handler/payload_tcp_stream.go:151-166 | trimming keeps at least one segment and at most 4096 bytes, and drops only segments below those it keeps |
| TcpStreams.ReceivedIsSound | server/handler/payload_tcp_stream.go:66-96 | whatever arrives, its stream is afterwards not empty, within its limit, and its byte count is the sum of its segments |
| TcpStreams.ReceivedFollows | server/handler/payload_tcp_stream.go:77-94 | an arrival from anywhere within half the sequence space moves the base to the lowest number seen and leaves only slices of the stream |
| TcpStreams.OnTcpPayload | server/handler/payload_tcp_stream.go:111-118 | the first parser that recognises the bytes decides |
| TcpStreams.VerdictInOrder | server/handler/payload_tcp_stream.go:111-118 | a ClientHello's verdict first, then the HTTP reader's, then the text parser's |
| StreamCache.Absorb | server/handler/payload_tcp_stream.go:69-93 | a longer retransmission replaces the held one, a shorter one is ignored, and the growth is counted |
| StreamCache.TcpStreamCache.RemoveLocked | server/handler/payload_tcp_stream.go:227-232 | a stream goes and the books still balance |
| StreamCache.TcpStreamCache.ExpireLocked | server/handler/payload_tcp_stream.go:186-192 | exactly the idle streams go |
| StreamCache.TcpStreamCache.EvictOldestLocked | server/handler/payload_tcp_stream.go:200-212 | a stream seen longest ago goes |
| StreamCache.TcpStreamCache.TrimLocked | server/handler/payload_tcp_stream.go:151-184 | the current stream is cut to its limit, then oldest others are evicted until the cache fits; the current one stays |
| StreamCache.TcpStreamCache.Add | server/handler/payload_tcp_stream.go:49-109 | the whole step: expiry, eviction, storing, trimming and the verdict on the assembled bytes; a recognised stream is released |
| StreamCache.PayloadIsAnswered | server/handler/payload_tcp_stream.go:96-118 | what is assembled is answered as a ClientHello, else, not starting like TLS, as HTTP with its host if the reader takes it, else as the text parser says; the stream is there afterwards exactly if that is plain TCP |
| StreamCache.TcpStreamCache.Cleanup | server/handler/payload_tcp_stream.go:194-198 | the periodic cleanup drops exactly the idle streams |
| StreamCache.TcpStreamCache.Close | server/handler/payload_tcp_stream.go:214-225 | both directions of a connection are dropped |
| StreamCache.StepKeepsLimits | server/handler/payload_tcp_stream.go:66-96 | after every step a stream holds at most 4096 bytes, the cache at most 1 MiB and 4096 streams, and the current stream is there with what it received |
| StreamCache.StepEvictsOldest | server/handler/payload_tcp_stream.go:151-212 | no other stream changes, and those that went were idle or seen no later than any that stayed |
| StreamCache.EvictionIsLru | server/handler/payload_tcp_stream.go:167-184 | eviction for space takes streams in order of last use and never the current one |
| StreamCache.SurvivesIff | server/handler/payload_tcp_stream.go:167-212 | another stream outlives an arrival if the streams seen no earlier than it and the arrival's own fit, and, where last uses differ, only then |
| StreamCache.StepWithRoom | server/handler/payload_tcp_stream.go:66-96 | while everything fits, nothing but idle streams is dropped |
| SniParser.ValidDomainChar | server/handler/payload_tcp_parser.go:265-274 | a host name is accepted exactly if all its bytes are letters, digits, dots or hyphens |
| SniParser.SniNewParser | server/handler/payload_tcp_parser.go:39-142 | the cursor loops compute the recursive reading of the message, without reading outside it |
| SniParser.SniInvertsBuilder | server/handler/payload_tcp_parser.go:39-142 | parsing a built ClientHello gives HTTPS and its host, or none without a server name or with other characters in it, for any session id, ciphers, other names and preceding extensions |
| SniParser.RecognisedIsBuilt | server/handler/payload_tcp_parser.go:64-100 | what is recognised is made up of a ClientHello's parts, none of which reaches beyond the body |
| SniParser.CutExtensionIsPlain | server/handler/payload_tcp_parser.go:101-111 | an extension that is cut short or announces too much makes the whole plain TCP |
| SniParser.NamelessListIsSkipped | server/handler/payload_tcp_parser.go:112-136 | a server_name extension without a host name is passed over up to the end of its list |
| SniParser.StrictPrefixIsPlain | server/handler/payload_tcp_parser.go:39-62 | a strict prefix of the record is plain TCP |
| SniParser.LaterBytesIgnored | server/handler/payload_tcp_parser.go:39-142 | once the answer is HTTPS, appended bytes do not change it |
| SniParser.AnswerNeedsWholeRecord | server/handler/payload_tcp_parser.go:39-62 | an answer other than plain TCP is given only when the whole record has arrived |
| CommonProtocols.CommonRejectsTls | server/handler/payload_tcp_parser.go:204-262 | input that starts like a TLS record is none of the other protocols |
| CommonProtocols.CommandIsRecognised | server/handler/payload_tcp_parser.go:204-229 | a first line that starts with a known command, in capitals or not, tells SMTP, FTP, IMAP or POP3 |
| CommonProtocols.GreetingsAreRecognised | server/handler/payload_tcp_parser.go:204-242 | without one, the greetings of SSH, SMTP, FTP, IMAP and POP3 are told apart by what they mention, in capitals or not, and everything else is plain TCP |
| CommonProtocols.FirstLineIs | server/handler/payload_tcp_parser.go:244-250 | the first line is what stands before the line feed without the white space around it |
| CacheRuns.StepPossible | server/handler/payload_tcp_stream.go:49-232 | a cache within its limits takes any segment, cleanup or closing: making room and evicting always come to an end |
| CacheRuns.StepIsBounded | server/handler/payload_tcp_stream.go:49-232 | and is within all its limits again, whichever of several oldest streams went |
| CacheRuns.OwnRunPossible | server/handler/payload_tcp_stream.go:49-109 | the runs below exist: a connection's own segments and cleanups spare its stream, from any cache |
| CacheRuns.StreamIsFollowed | server/handler/payload_tcp_stream.go:49-109 | over any run of arrivals on any connection, cleanups and closings in which a connection's stream is not idle for ten seconds, evicted, closed or recognised, the cache holds just what that connection's own segments make of it |
| CacheRuns.AnsweredAsJudged | server/handler/payload_tcp_stream.go:97-109 | its next segment is answered as that stream alone is judged, and releases it exactly if it is recognised |
| CacheRuns.PendingIsUnrecognised | server/handler/payload_tcp_stream.go:97-109 | as long as the start is kept and the message has a gap, every answer is plain TCP |
| CacheRuns.HelloAnsweredIff | server/handler/payload_tcp_stream.go:49-109 | in such a run, a segment of a ClientHello after which the start is kept is answered with the ClientHello's own verdict, and the stream is gone, exactly if what is kept covers the message; else with plain TCP |
| CacheRuns.CutHelloAnswered | server/handler/payload_tcp_stream.go:49-109 | so for a ClientHello built for any host, of at most 4096 bytes, cut anywhere, in any order and with retransmissions as cut: plain TCP until the last gap closes, then HTTPS with the host |
| InOrderRuns.InOrderAnswered | server/handler/payload_tcp_stream.go:49-109 | from any cache without the connection, a ClientHello cut anywhere and sent in order: such runs exist, every segment but the last is answered with plain TCP, the last with HTTPS and the host, and the stream is gone then and not before |
| CacheRuns.LateStartIsPlain | server/handler/payload_tcp_stream.go:103-106 | once the stream has been released, its start arriving again is plain TCP and opens a stream of its own |
| CacheRuns.AnyOrderInCache | server/handler/payload_tcp_stream.go:77-149 | in any order of arrival within half the sequence space, the base in the cache is the smallest number seen, and the assembled bytes are the longest gap-free run from the lowest kept offset |
| HelloRun.StartHeldIff | server/handler/payload_tcp_stream.go:151-166 | in any run that begins with the first byte the start is held exactly if it survives keeping the longest transmission from each offset and dropping the lowest while they exceed the limit |
| HelloRun.AssembledIs | server/handler/payload_tcp_stream.go:124-149 | what is assembled is what is so kept, up to its first gap |
| HelloRun.ReportedIff | server/handler/payload_tcp_stream.go:77-149 | while the start is kept, the report is the ClientHello's verdict exactly if what is kept covers the message, and plain TCP otherwise, whatever the cuts and retransmissions |
| HelloRun.OverflowDropsStart | server/handler/payload_tcp_stream.go:151-166 | the first overflow drops the start |
| HelloRun.RecutLosesStart | server/handler/payload_tcp_stream.go:80-94 | a run with a differently cut retransmission that sent every byte of a message of 4096 and has lost the start |
| HelloRun.StartSentAgainReports | server/handler/payload_tcp_stream.go:80-109 | sending the start of that run once more completes it, and it is reported |
| IpPool.IpPoolManager.LoopLong | server/sessdata/ip_pool.go:508-579 | one scan segment: the first available address, or the earliest recyclable row |
| IpPool.IpPoolManager.LoopIp | server/sessdata/ip_pool.go:457-506 | two scan segments and recycling compute the specification of a dynamic grant |
| IpPool.IpPoolManager.AcquireIpWithRange | server/sessdata/ip_pool.go:329-455 | the whole acquisition: binding, reservation, reuse by user, or a dynamic grant |
| IpPoolGrants.ReportedMacIsGiven | server/sessdata/ip_pool.go:354-404 | a client that reports its MAC gets the address of its own row, bound in the group or else without one, if that is in the pool and idle; is refused if it is not and the row is reserved; and is otherwise given what the scan finds without the row |
| IpPoolGrants.NamedClientIsGiven | server/sessdata/ip_pool.go:406-454 | a client known by name gets the address of the first of the user's first thirty rows that is unreserved, of no reported MAC, in the pool, and idle or its own; otherwise what the scan finds |
| IpPoolGrants.LoopIsScanned | server/sessdata/ip_pool.go:457-579 | the scan finds the first address from the cursor on that is free and whose row, if any, is unreserved and past its lease; else the unreserved one of earliest login; and nothing exactly if there is neither |
| IpPoolGrants.GrantIsRecorded | server/sessdata/ip_pool.go:329-579 | afterwards the granted address is in use and nothing else is new, its row holds the client's data exactly if the MAC is bound in the group to no other address, and all other rows are as they were |
| IpPoolGrants.ReportedMacIsRecorded | server/sessdata/ip_pool.go:354-404 | a client that reports its MAC is always recorded |
| IpPool.IpPoolManager.LoopIpV6 | server/sessdata/ip_pool.go:206-282 | the IPv6 scan and its effect on row, active set and cursor |
| IpPoolGrants.V6FirstVacant | server/sessdata/ip_pool.go:206-282 | the first IPv6 address from the cursor on is granted that is idle and of no other client and no lapsed lease |
| IpPoolGrants.V6GrantIsRecorded | server/sessdata/ip_pool.go:239-277 | the client's own row gets the address, or the row that had it already stays; all others are as they were |
| IpPool.IpPoolManager.ReleaseIp | server/sessdata/ip_pool.go:582-609 | releasing deactivates both addresses and stamps their rows |
| IpPoolGrants.ReleaseIsRecorded | server/sessdata/ip_pool.go:582-609 | both addresses are idle again, exactly their rows are stamped, and the IPv6 address leaves its row |
| IpPoolGrants.AddressIsKept | server/sessdata/ip_pool.go:354-381 | a device that reports its MAC gets its address back after a release, whenever it asks |
| IpPoolSafety.AvailableIsPreferred | server/sessdata/ip_pool.go:457-579 | if any address is free or its lease is over, such an address is handed out, for any cursor position |
| IpPoolSafety.RecycledIsOldest | server/sessdata/ip_pool.go:482-506 | otherwise the recycled row has the earliest last login of all inactive unreserved rows |
| IpPoolSafety.LoopRefusesIff | server/sessdata/ip_pool.go:457-579 | nothing is granted exactly if every address of the pool is the gateway, active, reserved, or neither past its lease nor last used before now |
| IpPoolSafety.ReleasedNowIsRefused | server/sessdata/ip_pool.go:541-579 | a pool of one address that is released and asked for at the same reading of the clock gives nothing, although the address is idle and not reserved |
| IpPoolSafety.GrantIsExclusive | server/sessdata/ip_pool.go:329-455 | a granted address was idle or belongs to the same MAC |
| IpPoolSafety.GrantKeepsMatchIff | server/sessdata/ip_pool.go:329-579 | the rows of active addresses still carry their owners' MACs exactly if the write of the new owner is not rejected |
| IpPoolSafety.RunsNeverShare | server/sessdata/ip_pool.go:329-609 | in every run over all pools without a rejected write no active address goes to another MAC |
| IpPoolSafety.RejectableIff | server/sessdata/ip_pool.go:329-579 | before the call: some cursor position makes the write be rejected exactly if the client does not report its MAC, the MAC is bound in the group, and the row it would be given, or the scan may come upon, is another device's |
| IpPoolSafety.UnendangeredNeverShare | server/sessdata/ip_pool.go:329-609 | so no run shares an address in which no acquisition is like that, wherever the cursors are |
| IpPoolSafety.ReportedMacsNeverShare | server/sessdata/ip_pool.go:354-404 | in particular where all clients report their MAC |
| IpPoolSafety.RejectedWriteShares | server/sessdata/ip_pool.go:557-571 | a run of two acquisitions in which a rejected write gives one address to two devices |
| IpPoolSafety.ReservedRowsStay | server/sessdata/ip_pool.go:329-609 | no operation changes the MAC or address of a reserved row or deletes it |
| IpPoolSafety.ReservedAddressGoesToItsMac | server/sessdata/ip_pool.go:329-455 | a reserved address is granted only to its MAC |
| IpPoolSafety.V6GrantsFromRange | server/sessdata/ip_pool.go:206-282 | an IPv6 grant is in the range and was inactive; the two segments miss no address |
| IpPoolSafety.V6ColumnsStayDistinct | server/sessdata/ip_pool.go:239-277 | nonempty IPv6 columns stay pairwise distinct, and so do addresses and bindings |
| BigIp.IpToBig | server/sessdata/ip_pool.go:178-180 | the number that big-endian octets stand for |
| BigIp.BigToIp | server/sessdata/ip_pool.go:182-187 | 16 octets that stand for the given 128-bit number |
| BigIp.ValueDetermines | server/sessdata/ip_pool.go:178-187 | equally many octets with the same number are equal, so the two conversions are inverse |
| BigIp.InitV6 | server/sessdata/ip_pool.go:97-116 | the block is the network address, the gateway behind it, and the pool's range, with nothing in two parts or in none |
| CidrBlocks.ContainsIff | server/dbdata/group.go:284-286 | masking tests membership of the interval from the network address on |
| CidrBlocks.OverlapsIff | server/dbdata/group.go:283-286 | the test of the two network addresses is true exactly if the blocks share an address |
| CidrGroups.CheckCidrOverlap | server/dbdata/group.go:289-347 | a clash is reported exactly if the block meets the global pool, another group's block or a parent network of its family |
| CidrGroups.GroupTable.ValidateV4 | server/dbdata/group.go:166-211 | what is wrong with the IPv4 part, in the order of the checks, overlaps last |
| CidrGroups.GroupTable.ValidateV6 | server/dbdata/group.go:213-233 | likewise the IPv6 part, which needs the IPv4 part |
| CidrGroups.GroupTable.SetGroup | server/dbdata/group.go:126-281 | which error a call gives, in order; an accepted group is stored under its id or a new one, and otherwise nothing changes |
| CidrGroups.AcceptedIff | server/dbdata/group.go:160-233 | a group is accepted exactly if the rest is in order, its IPv4 part is empty or four fields in order inside a block that meets no other, its IPv6 block is empty or likewise beside such a part, and the table takes it |
| CidrGroups.ErrorNamesDefect | server/dbdata/group.go:160-233 | an error names a defect that is there, with what is checked before it in order |
| CidrGroups.AcceptedKeepsDisjointIff | server/dbdata/group.go:289-322 | saving an accepted group keeps blocks disjoint exactly if the groups could be read or there was no clash |
| CidrGroups.RunsKeepDisjoint | server/dbdata/group.go:166-233 | every run of calls with readable groups keeps all blocks disjoint from each other and the global ones |
| CidrGroups.NoAddressInTwoPools | server/sessdata/ip_pool.go:48-94 | then no IPv4 address is in two groups' pools or in a group's pool and the global block |
| CidrGroups.NoAddressInTwoPools6 | server/sessdata/ip_pool.go:80-116 | nor an IPv6 address in two pools |
| CidrGroups.PoolsNeverMeet | server/sessdata/ip_pool.go:48-116 | starting from no groups, over every run of calls, for both families |
| LockCounter.BumpLockState | server/auth/lockmanager.go:430-449 | counting a failure: lazy unlock, reset after a pause, locking at the maximum |
| LockCounter.CheckState | server/auth/lockmanager.go:504-518 | checking a counter: the answer and the reset it leaves |
| LockCounter.BumpFollowsRule | server/auth/lockmanager.go:430-449 | whatever expired bookkeeping a counter carries, a failure moves its real phase by the plain counting rule |
| LockCounter.CheckFollowsRule | server/auth/lockmanager.go:504-518 | a check answers the phase and forgets only outdated counts |
| LockCounter.SweepChangesNothing | server/auth/lockmanager.go:570-633 | a cleanup no earlier than the reset window changes no phase |
| LockManager.Manager.Check | server/auth/lockmanager.go:142-186 | lists first, then the tables that are switched on, in order, up to the first that blocks |
| LockRuns.CheckDecides | server/auth/lockmanager.go:142-186 | no address is refused, an allowed one let on, a denied one refused, with the manager off everybody else let on, and otherwise the tables that are on decide; only then is a counter touched |
| LockManager.Manager.Update | server/auth/lockmanager.go:357-396 | which counters a failure bumps and a success clears |
| LockManager.Manager.Success | server/auth/lockmanager.go:198-201 | a full success also forgets the challenge counter |
| LockManager.Manager.ChallengeFail | server/auth/lockmanager.go:211-230 | a wrong code bumps only the challenge counter |
| LockManager.Manager.Cleanup | server/auth/lockmanager.go:570-633 | the loop over the tables unlocks what is over and drops what is outdated |
| LockCleanup.CleanupInvisible | server/auth/lockmanager.go:430-633 | from any book, with an expiry no shorter than the reset windows, runs with and without cleanups answer every check alike |
| LockCleanup.CleanupVisibleOtherwise | server/auth/lockmanager.go:570-633 | where a reset window that matters is longer, of pairs, users, addresses, or of one of the last two in the counter they share, some run is answered differently |
| LockCleanup.CleanupInvisibleIff | server/auth/lockmanager.go:357-633 | for every configuration, cleanup is invisible in all runs exactly if no address reaches the counters or the expiry covers the reset window of every policy whose counts can add up to a lock, its own or that of the policy it shares a counter with |
| LockRuns.PhaseCountsFailures | server/auth/lockmanager.go:357-449 | a counter is what its own failures amount to, whatever happens to other clients and however often it is checked and cleaned |
| LockRuns.MaxFailuresLock | server/auth/lockmanager.go:357-449 | the maximum number of failures, none too long after the one before, locks for the lock time |
| LockRuns.LockHolds | server/auth/lockmanager.go:142-186 | until then every check that looks at the counter refuses, and the lock is not extended |
| LockRuns.ChallengeIndependent | server/auth/lockmanager.go:198-230 | stage successes and first-factor failures leave challenge counters alone |
| LockRuns.UnlockedAdmittedIff | server/auth/lockmanager.go:233-282 | after unlocking by hand, the next check lets a client on exactly if no counter it looks at, other than those named, blocks; the others are untouched |
| LockRuns.UnlockedUserAdmittedIff | server/auth/lockmanager.go:233-282 | an unlocked user still waits for the lock of the pair or of the address, a user unlocked at one address for the user's own or the address's |
| AuthPipeline.Pipeline.RunFrom | server/auth/pipeline.go:76-109 | the loop over the steps, its pending index, its record and the identity check at the end |
| AuthPipeline.Pipeline.Run | server/auth/pipeline.go:52-54 | a first run starts at the first step |
| AuthPipeline.Pipeline.Resume | server/auth/pipeline.go:56-61 | a resumed run starts at the saved step; an index out of range fails without calling anybody |
| AuthPipeline.Pipeline.InsertForcePwd | server/auth/authsrv/forcepwd.go:50-62 | the forced password change comes right behind the first local step |
| AuthPipeline.ForcePwdFollowsLocal | server/auth/authsrv/forcepwd.go:50-62 | a profile with a local step gets the forced password change right behind the first one, another none |
| AuthPipeline.ForcePwdIsNotCounted | server/auth/pipeline.go:93-97 | it adds nothing to the record |
| AuthPipeline.StepsReach | server/auth/pipeline.go:76-109 | an attempt passes or pauses according to the first step that does not pass |
| AuthPipeline.StepsRecord | server/auth/pipeline.go:93-97 | and has recorded the steps before it |
| AuthPipeline.BreakPointIsEarned | server/handler/authflow.go:131-140 | however a session was paused, failed, restarted and resumed, and whatever groups were chosen, the steps its break-point stands for have passed in order |
| AuthPipeline.PassNeedsEveryStep | server/auth/pipeline.go:52-109 | an attempt passes only if the steps its start stands for and, behind them, all later steps of its own profile passed in order, and the identity is the user's |
| AuthPipeline.OneGroupPassNeedsEveryStep | server/auth/pipeline.go:52-109 | while the group stays the same, these are all steps of its profile, each at its own index and after the one before |
| AuthPipeline.GroupSwitchIff | server/handler/link_webauth.go:183-289 | a session paused under one profile and resumed under another runs all the other's steps in order, whatever happened on the way, exactly if the two agree on the steps before the break-point |
| AuthPipeline.PassForUserNeedsEveryStep | server/auth/pipeline.go:52-109 | if the steps an attempt builds on and its own are for one user, it passes only if all of them passed for that user, in order |
| AuthPipeline.UserSwitchIff | server/handler/link_webauth.go:416-459 | a session whose break-point some steps led to, passed for some users, and that is resumed for a user under some profile has, whenever it passes, run every step of that profile for that user exactly if those steps are the profile's own and passed for that very user |
| AuthPipeline.HandOverIff | server/handler/link_webauth.go:421-423 | where no authenticator replaces a name: a break-point earned under one name and resumed under another keeps that promise exactly if nothing was earned or the names are the same |
| AuthPipeline.OneUserPassNeedsEveryStep | server/auth/pipeline.go:52-109 | so a session of one group whose break-point was earned under the name it is completed with passes only if every step passed for that user |
| AuthPipeline.TwoUsersPass | server/handler/link_webauth.go:421-423 | for any profile and any pause behind its first step, a session of two users that passes as the second, for whom an earlier step never passed |
| AuthPipeline.RecordExactIff | server/auth/auth.go:241-256 | when an attempt passes that builds on its own profile's steps, the record is the profile's steps once each in order exactly if nothing was recorded before by an attempt without a saved pause or before a start from the first step |
| AuthPipeline.FailedAttemptRecordsTwice | server/handler/link_webauth.go:453-459 | a session resumed after a failed attempt that lists a step twice |
| AuthPipeline.RestartRecordsTwice | server/handler/link_webauth.go:387-415 | a session started again while paused, with every pause saved, that lists a step twice |
| AuthFlow.Authenticate | server/auth/authsrv/authsrv.go:11-32 | a first attempt, or failure when the profile cannot be used |
| AuthFlow.ResumeFrom | server/auth/authsrv/authsrv.go:35-52 | an attempt from a break-point |
| AuthFlow.Flow.PendingLockDecision | server/handler/authflow.go:111-119 | a pause is progress exactly if it is no retry and offers a challenge |
| AuthFlow.Flow.Dispatch | server/handler/authflow.go:76-128 | what the lock manager is told about each result |
| AuthFlow.Flow.SavePendingState | server/handler/authflow.go:131-140 | only a pause is written back |
| AuthFlow.Flow.Attempted | server/handler/authflow.go:34-140 | one request, started at the first step or resumed, under any profile or an unusable one, refines one step of a session and tells the lock manager what came of it |
| AuthFlow.AttemptReported | server/auth/authsrv/authsrv.go:11-81 | what an attempt reports: a failure with an error without a usable step; else what the first step that does not pass says, with its challenge, its place and the record; else what the identity says |
| AuthFlow.RetryIffSameStepAsks | server/auth/auth.go:281-286 | an attempt counts as a wrong code exactly if it is resumed and the step it waited for asks again |
| AuthFlow.GuessingLocks | server/handler/authflow.go:108-128 | whoever guesses codes is locked out after the maximum of wrong ones, however often they log in anew in between |
| AuthFlow.WrongPasswordsLock | server/handler/authflow.go:76-106 | the maximum of wrong results, with no success and no fresh challenge between them, locks the counters of the pair, the user and the address until the lock is over |
| AuthFlow.PassClears | server/handler/authflow.go:80-128 | a pass leaves no failures and no lock in these counters and forgets the challenge counter; a fresh challenge clears them and leaves the challenge counter alone; no other counter changes |
| Checksum.AddWords | server/handler/dns_intercept.go:438-444 | the sum of the words modulo 2^32, which does not wrap for up to 65537 words |
| Checksum.CalculateChecksum | server/handler/dns_intercept.go:438-450 | folding ends; the result is the complement of the ones'-complement sum exactly if the wraps of the 32-bit sum take nothing away, as for up to 65537 words |
| Checksum.OnesSumFolds | server/handler/dns_intercept.go:446-449 | adding with an end-around carry each time is folding the plain sum |
| Checksum.OddIsPadded | server/handler/dns_intercept.go:443-445 | an odd number of octets is summed as if a zero octet followed |
| Checksum.ChecksumVerifies | server/handler/dns_intercept.go:370-373 | with the complement in a field that held zero, or all ones for 0, the receiver's sum is 0xffff |
| DnsResponse.BuildDnsResponsePacket | server/handler/dns_intercept.go:353-401 | an IPv4 answer, for any header length and odd or even payload: fields in place, addresses and ports swapped, header and datagram verify |
| DnsResponse.Answer4ReadsBack | server/handler/dns_intercept.go:353-401 | an IPv4 answer read as a packet has the query's addresses and ports exchanged, announces its lengths, carries the message, and is otherwise the query's header |
| DnsResponse.ReceiverAccepts4 | server/handler/dns_intercept.go:389-398 | to a receiver, both addresses, the protocol 17, the length field and the datagram add up to all ones |
| DnsResponse.BuildDnsResponsePacket6 | server/handler/dns_intercept.go:405-436 | an IPv6 answer: likewise, with the mandatory checksum over the pseudo-header |
| DnsResponse.ReceiverAccepts6 | server/handler/dns_intercept.go:424-433 | the same with the 32-bit length of the IPv6 pseudo-header |
| DnsResponse.Answer6ParsesBack | server/handler/dns_intercept.go:405-436 | parsing it gives the query's addresses and ports swapped, exactly if its length fits the length field |
| DomainRules.MatchDomainSet | server/handler/dns_intercept.go:337-350 | a name matches exactly if it is a listed domain or a subdomain of one |
| DomainRules.UnderIff | server/handler/dns_intercept.go:337-350 | a name is covered by a listed one exactly if it is that or ends in a dot and that |
| DomainRules.ShouldUseFakeIP | server/handler/dns_intercept.go:316-334 | included names alone if there are any, else all but the excluded ones, else none |
| DomainRules.SubdomainsFollow | server/handler/dns_intercept.go:337-350 | a rule that covers a name covers its subdomains |
| V6Header.ParseV6Header | server/handler/payload_v6.go:25-112 | the loop answers what the recursion along the chain answers, without reading outside the packet |
| V6Header.ParsesBuilt | server/handler/payload_v6.go:25-112 | for any well-formed chain: exact protocol, offset, ports and last fragment header with at most 11 extension headers, rejection with more, whatever follows the packet |
| V6Header.PortsAreRead | server/handler/payload_v6.go:85-107 | a packet that ends in TCP or UDP gives the two ports its header starts with, source first, for any of them and whatever follows; a header cut short is rejected unless more fragments follow |
| V6Header.OthersHaveNoPorts | server/handler/payload_v6.go:78-107 | behind a nonzero fragment offset, for ESP and for every other protocol there are no ports |
| V6Header.CutPortsAreNone | server/handler/payload_v6.go:90-101 | with less than the two ports there are none while more fragments follow, and the packet is rejected otherwise |
| V6Header.FragmentIsRead | server/handler/payload_v6.go:66-77 | the last fragment header counts, and its offset, flag and identification are read as they were built |
| V6Header.ExtensionIsSkipped | server/handler/payload_v6.go:50-65 | one more options, routing, mobility or authentication header in front changes nothing but the offsets, by its length |
| V6Header.ParsedIsBuilt | server/handler/payload_v6.go:46-112 | whatever is accepted is such a chain |
| Cstp.Payload.Write | server/handler/link_cstp.go:161-194 | the in-place shift behind a header, or the compressed frame, or a refusal for lack of room |
| Cstp.FramedIs | server/handler/link_cstp.go:161-194 | a payload is compressed exactly if that is on, it is longer than the limit and gets shorter, else refused exactly above 2040 octets; the frame's magic octets, length and kind |
| Cstp.Payload.Read | server/handler/link_cstp.go:70-134 | the reader's answer depends on the bytes read only, not on what else the buffer holds |
| Cstp.DataIsRead | server/handler/link_cstp.go:111-134 | a data frame gives its announced octets exactly if they are there and fit |
| Cstp.CompressedIsRead | server/handler/link_cstp.go:97-110 | a compressed frame gives what it uncompresses to, exactly if that is neither nothing nor too long |
| Cstp.OthersAreIgnored | server/handler/link_cstp.go:70-134 | too little for a kind, and any other kind, is ignored |
| Cstp.RoundTripIff | server/handler/link_cstp.go:97-194 | reading a written frame gives the payload back exactly for 1 to 2040 bytes not compressed to nothing |
| Cstp.ControlRoundTrip | server/handler/link_cstp.go:71-96 | a control frame is the magic octets with no body and the kind, and is read as that control |
| Cstp.NothingBeyondIsRead | server/handler/link_cstp.go:215-220 | bytes behind the announced ones do not matter |
| FakeDns.FakeDnsManager.AcquireFakeIP | server/sessdata/fakedns.go:222-253 | a domain keeps its address while active, or gets the counter's next slot |
| FakeDns.FakeDnsManager.NextV6 | server/sessdata/fakedns.go:83-101 | the cursor's next address and where it stands then |
| FakeDns.FakeDnsManager.AcquireFakeIPv6 | server/sessdata/fakedns.go:256-287 | the same for IPv6, from the cursor |
| FakeDns.FakeDnsManager.LookupAndTouch | server/sessdata/fakedns.go:295-341 | route and domain of an address in use, which is touched, and whether it is due to be resolved anew, which is then put off |
| FakeDnsRuns.RenewalsAreApart | server/sessdata/fakedns.go:289-341 | over every run in which the lookups of one address come one after the other, two that are told to renew it are more than a minute apart |
| FakeDns.FakeDnsManager.AddMapping | server/sessdata/fakedns.go:563-615 | it succeeds exactly if the address is in use and the route is there already or the firewall obeys; then the target is the route, else the old route stays; nothing else changes |
| FakeDnsRuns.AddedIsOnlyRule | server/sessdata/fakedns.go:563-615 | with matching rules, the target is then the address's only rule, and no other address's route or rule changes |
| FakeDns.FakeDnsManager.RemoveMapping | server/sessdata/fakedns.go:618-635 | a route goes, and its rule if the firewall obeys |
| FakeDns.FakeDnsManager.CleanupExpired | server/sessdata/fakedns.go:865-919 | exactly the idle addresses go, with names, routes and rules |
| FakeDnsRuns.AccessIsLastUse | server/sessdata/fakedns.go:222-341 | over every run an address in use was last accessed at its last lookup or acquisition |
| FakeDnsRuns.CleanupSparesUsed | server/sessdata/fakedns.go:865-919 | a cleanup takes away just the addresses not used for more than two hours |
| FakeDnsRuns.AcquireKeepsInverseIff | server/sessdata/fakedns.go:222-253 | names and entries stay inverse exactly if the domain has an address or the next slot is free |
| FakeDnsRuns.Acquire6KeepsInverseIff | server/sessdata/fakedns.go:256-287 | the same for IPv6 and the cursor's next address |
| FakeDnsRuns.SpacedSlotIsFree | server/sessdata/fakedns.go:235-236 | the next slot is free while no entry has seen as many allocations as there are addresses and the counter does not overflow |
| FakeDnsRuns.FreeHasNoRoute | server/sessdata/fakedns.go:865-919 | a free address has neither route nor rule, so it never starts with an old one |
| FakeDnsRuns.AddKeepsRulesIff | server/sessdata/fakedns.go:563-615 | rules stay the routes exactly unless a delete succeeds and the add behind it fails |
| FakeDnsRuns.RemoveKeepsRulesIff | server/sessdata/fakedns.go:618-635 | rules stay the routes exactly if there was none or the delete succeeds |
| FakeDnsRuns.ClearKeepsRulesIff | server/sessdata/fakedns.go:883-915 | a cleanup likewise, for all addresses it gives up |
| FakeDnsRuns.RunsStayConsistent | server/sessdata/fakedns.go:222-253 | over every run within these bounds: both families' maps inverse, rules equal to routes, every route's address in use |
| FakeDnsRuns.V6Rounds | server/sessdata/fakedns.go:83-101 | the address of the n-th allocation, for every n |
| FakeDnsRuns.V6FirstComesTwice | server/sessdata/fakedns.go:91-93 | at the wrap the first address comes twice in a row |
| AuditBatch.LogBatch.AppendAudit | server/handler/payload_access_audit.go:91-111 | the scan drops, replaces in place, or appends |
| AuditBatch.BatchLaw | server/handler/payload_access_audit.go:60-111 | in any batch a connection's records are its distinct application records in order, then the distinct raw records seen before the first of these that were not replaced |
| AuditBatch.BatchCount | server/handler/payload_access_audit.go:91-111 | their number is the larger of the two |
| AuditBatch.BatchDifferent | server/handler/payload_access_audit.go:94-108 | all records of a connection differ up to case, and application records come first |
| AuditBatch.NoAppLost | server/handler/payload_access_audit.go:98-104 | for every application record there is one like it in the batch |

## Left out

- Concurrency: operations are one after the other, as the source's mutexes make most of them. Where the source
  releases a lock between two parts of one operation (firewall calls, the verdict on assembled bytes), the
  model treats the operation as one step; FakeDNS operations are serial per fake address.
- FakeDnsRuns.RenewalsAreApart: lookups of one address are serialised by the model. In the source they share a
  read lock and load and store the renewal time separately, so two simultaneous lookups can both be told to renew.
- One reading of the clock per operation, and a clock that does not run backwards over a run.
- Streams, lock counters, lease rows and fake-address entries are values in a map field, not objects behind
  pointers: sharing of one such object by two holders is not modelled.
- The library's HTTP request reader is an arbitrary function that rejects input starting with 0x16; sorting is
  modelled by selection; case folding and trimming in the text protocols are those of ASCII.
- Reading the IP lists of the lock manager: membership of the allow and deny lists is two predicates. Its
  rate-limited warnings and the admin view of locks.
- LockRuns.PhaseCountsFailures: leaves out runs in which a failure without a user name bumps the address counter
  of the empty address by the rule of the user table.
- IpPool.IpPoolManager.LoopLong: the pool's last address is below 255.255.255.255, where the scan's 32-bit
  index would wrap, and its first address is not above its last.
- Reads and writes of the lease table succeed, but for writes that violate a unique constraint.
- AuthPipeline.BreakPointIsEarned: an authenticator's answer is arbitrary but given once per attempt; the reload
  of the user record before a resumed attempt is not modelled. A request that replaces the context starts a new
  session.
- The compressors and decompressors behind CSTP are arbitrary functions; rate limits, idle checks and timeouts
  of the link are not part of this model.
- DNS resolution, its cache and the tasks that resolve names anew are not part of this model. A firewall call is
  a flag that says whether it succeeded.
- FakeDns.FakeDnsManager.CleanupExpired: the second look at an entry's last access uses the same time as the first.
- CidrGroups.GroupTable.SetGroup: checks of names, policies, DNS, the outgoing interface and the login profile
  are one flag; IPv4-mapped IPv6 blocks are not modelled.
- HTTP handlers, the portal, the admin API, SSO, LDAP and RADIUS clients, TLS and DTLS, devices and
  routing, backups, cron jobs and the web front end: I/O or remote calls.
- The limit on clients, handshake counters, statistics and configuration metadata: small members that would
  add little.
