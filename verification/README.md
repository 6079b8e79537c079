# A verified model of the DHCP and DNS servers

This project models the parts of the repository where state, concurrency and byte
formats meet, and proves what those parts promise.

- **DHCPv6 server.** Lease table and lease file, address pools, prefix pools, packet
  processing and the cleanup turn, as a state machine over whole runs (`Leases6`,
  `Pools6`, `AddressPool`, `PrefixPool`, `Server6`) and as the objects the source
  mutates (`Leases6.LeaseTable`, `LivePools6`, `LiveServer6`). No dynamic address and
  no prefix is granted to a client with a usable DUID while a live lease names another,
  in any run, after any restarts, whatever other clients did; for a client without one
  the exact condition is stated, and shown to fail (`Nameless6`). Delegated blocks of a
  pool never overlap, the counters are exact, and the lease file always rebuilds the
  table. All this is for pools that share no address or prefix and leave out the
  unspecified address, which disjoint ranges guarantee.
- **128-bit addresses** (`Address6`): comparison, increment, subnet test and prefix
  step, in place on sixteen bytes, against integer arithmetic.
- **DHCPv6 messages** (`Wire6`, `Reply6`, `Append6`, `Exchange6`): the parser on
  arbitrary bytes, the append functions in place, and one whole exchange from request
  bytes to reply bytes.
- **DHCPv4 server** (`Pool4`, `PoolStart4`, `PoolSync4`, `Server4`, `LiveServer4`):
  pool initialisation, allocation by four priorities, the synchronisation pass, lease
  table and packet processing.
- **DHCPv4 options** (`Options4`), **identifiers** (`Identifiers`): option area, DUID
  and client-id text.
- **Concurrency** (`Rings`, `ThreadPool`, `IoQueue`): the worker pool and the lease
  writer as state machines over their critical sections, and their ring buffers in
  place.
- **DNS** (`DnsCache`, `DnsName`, `DomainEncoder`): the answer cache as a linked trie, and domain names
  on the wire.

Functions and lemmas are about values. Every class method states its new state as one
of those functions of its old state, so the lemmas hold of the objects as well. What
each main operation answers is also said without its function, in terms of entries and
leases before and after alone (`Answers6`, `Answers4`). Clocks,
probe results, signal wake-ups and the order in which threads run are inputs of the
steps; a theorem about every run is about every choice of them.

Where the code does not do what it looks meant to do, the code is modelled as it is,
a lemma gives the failing case, and another says exactly when it does work:

- `DnsCache.LivesItsTtl`: an answer whose 32-bit expiry time wraps is born expired.
- `Options4.AddedIsAppended`, `Options4.AdditionCanOverwrite`: the scan for END gives
  up at offset 308 and may overwrite an option that starts there.
- `IoQueue.StopLeavesMarker`, `IoQueue.StopCanHang`: a full ring swallows the shutdown
  marker and the stop call waits for ever.
- `ThreadPool.LockIsLostWhen`, `ThreadPool.FinishesUnlessLockLost`,
  `ThreadPool.DestroyedTwice`: a second destroy returns with the lock held and the
  workers never exit.
- `Server4.OfferIsConfirmed`, `Server4.OfferCanBeRefused`: an offered address with an
  old lease keeps the old owner and is refused to the client it was offered to.
- `PoolStart4.ReserveIsExact`: reservations that repeat an address or name an excluded
  one make the available counter wrong.
- `AddressPool.GrantIsOwn`, `Nameless6.NamelessLosesAddress`: a client without a DUID
  is leased an address under the DUID that held it before.
- `PrefixPool.PdGrantIsOwn`, `Nameless6.NamelessTakesPrefix`: the same for prefixes, and
  such a client is also taken for the owner of a prefix whose DUID was too long for the
  pool's text.
- `PoolSync4.PassNames`, `Server4.PassKeepsWrongOwner`: a pass of the DHCPv4 pool does
  not repair a wrong hardware address of an entry whose state is already right.
- `AddressPool.ClaimIsFoundAgain`: a DUID of more than 42 bytes is not recognised
  again.
- `DnsName.NameRoundTrip`, `DnsName.MeasureIsWhole`: an empty label ends a name early.
- `DomainEncoder.EncodersAgree`: the two encoders differ on the empty text and on a
  trailing dot.

Where comments and code disagree the code counts: the comment above the scan in
`dhcp_message_add_option` derives its limit from three bytes of room, the limit leaves
four.

## Model

| member | source | states |
|---|---|---|
| `Address6.CompareIsOrder` | DHCP_Server/DHCPv6/sources/utilsv6.c:39-42 | comparing the bytes of two addresses is comparing them as integers |
| `Address6.Increment` | DHCP_Server/DHCPv6/sources/utilsv6.c:75-90 | adds one in place; reports false exactly on overflow, which leaves zero |
| `Address6.CarryValue` | DHCP_Server/DHCPv6/sources/utilsv6.c:75-90 | where the carry loop stops the integer has grown by exactly one |
| `Address6.IncrementPrefix` | DHCP_Server/DHCPv6/sources/pd_pool.c:18-41 | adds 2^(128-plen) modulo 2^128 in place for lengths 1 to 128 and changes nothing for others |
| `Address6.CarriedStep` | DHCP_Server/DHCPv6/sources/pd_pool.c:18-41 | each turn of the carry loop keeps bytes plus carry worth the old bytes plus the addend |
| `Address6.CarriedOut` | DHCP_Server/DHCPv6/sources/pd_pool.c:18-41 | when the loop ends, with the carry spent or past the top byte, the total is the sum modulo 2^128 |
| `Address6.NextPrefixValue` | DHCP_Server/DHCPv6/sources/pd_pool.c:18-41 | the bit that is stepped is worth 2^(128-plen) whatever byte it lies in |
| `Address6.WrapAddIsModular` | DHCP_Server/DHCPv6/sources/pd_pool.c:18-41 | addition with one wrap is addition modulo 2^128 |
| `Address6.InSubnetIsBlock` | DHCP_Server/DHCPv6/sources/utilsv6.c:44-73 | the byte and mask comparison holds exactly for addresses in the same block of 2^(128-plen) |
| `Address6.BlockIsLeadingBits` | DHCP_Server/DHCPv6/sources/utilsv6.c:44-73 | the number of a block is the number its leading bytes and odd bits spell |
| `Address6.NextBlock` | DHCP_Server/DHCPv6/sources/pd_pool.c:18-41 | k steps lead to the k-th block after the first one, aligned start or not |
| `Identifiers.HexInjective` | DHCP_Server/DHCPv6/sources/utilsv6.c:227-248 | two DUIDs with the same text are the same DUID |
| `Identifiers.DuidBinToHex` | DHCP_Server/DHCPv6/sources/utilsv6.c:227-248 | writes the colon-separated text and a terminator in place if three bytes a byte fit, else an empty text and -1 |
| `Identifiers.WriteHex` | DHCP_Server/DHCPv6/sources/utilsv6.c:227-248 | the loop writes every character of the text in its place |
| `Identifiers.DuidHexToBin` | DHCP_Server/DHCPv6/sources/leases6.c:147-177 | the parse loop computes the reference reading of the text, byte by byte, into at most 128 bytes |
| `Identifiers.HexRoundTrip` | DHCP_Server/DHCPv6/sources/leases6.c:147-177 | parsing the text of a DUID gives the DUID back, for every DUID that fits the target |
| `Identifiers.HexParsesWhen` | DHCP_Server/DHCPv6/sources/leases6.c:147-177 | the text of a DUID parses back to it if and only if there is room for it, and is refused otherwise |
| `Identifiers.FormatClientIdToString` | DHCP_Server/DHCPv4/utils/encoding_utils.c:60-92 | writes between quotes, in octal, the bytes of the id that fit the buffer |
| `Identifiers.WriteOctal` | DHCP_Server/DHCPv4/utils/encoding_utils.c:60-92 | the loop writes as many bytes as fit and no more |
| `Identifiers.ParseClientId` | DHCP_Server/DHCPv4/utils/encoding_utils.c:5-58 | the loop computes the reference reading of octal, hex and plain characters, into at most 64 bytes, for every text whose escapes the end does not cut off |
| `Identifiers.EscapesMean` | DHCP_Server/DHCPv4/utils/encoding_utils.c:23-47 | an escape stands for its one to three octal digits, for the up to two hexadecimal digits behind an x, or for its character, modulo 256 |
| `Identifiers.ParseOfFormat` | DHCP_Server/DHCPv4/utils/encoding_utils.c:5-92 | for every id and every buffer size, parsing the formatted id gives back exactly the bytes that fit both the buffer and the 64 bytes of the record |
| `Identifiers.ClientIdRoundTrip` | DHCP_Server/DHCPv4/utils/encoding_utils.c:5-92 | the id comes back if and only if it has at most 64 bytes and the buffer has room for it, which 256 bytes have for 63 |
| `Leases6.AddHolder` | DHCP_Server/DHCPv6/sources/leases6.c:715-829 | an add makes the client the holder of its key, except that one without a name leaves the name of the slot; no other lease changes; the new holder is the client if and only if it has a name or the slot had none |
| `Leases6.RetireHolder` | DHCP_Server/DHCPv6/sources/leases6.c:865-883 | a release ends the holding of its key and no other |
| `Leases6.ExpireHolder` | DHCP_Server/DHCPv6/sources/leases6.c:906-917 | expiry ends holdings and starts none |
| `Leases6.CleanupHolder` | DHCP_Server/DHCPv6/sources/leases6.c:919-932 | dropping dead leases changes nobody's holding |
| `Leases6.KeepLookup` | DHCP_Server/DHCPv6/sources/leases6.c:919-932 | after the compaction a key finds its lease exactly if that lease was not dead |
| `Leases6.ReplayShape` | DHCP_Server/DHCPv6/sources/leases6.c:472-558 | whatever the file holds, loading it gives at most one lease a key and no more than the table holds |
| `Leases6.LoadIsDurable` | DHCP_Server/DHCPv6/sources/leases6.c:472-558 | a table just loaded is one its own file rebuilds |
| `Leases6.ReplayRecords` | DHCP_Server/DHCPv6/sources/leases6.c:472-667 | loading what a full save wrote gives the same bindings in the same order; no record is dropped, since no time reads back as zero |
| `Leases6.SaveIsDurable` | DHCP_Server/DHCPv6/sources/leases6.c:560-667 | a full save leaves a file that rebuilds the table |
| `Leases6.LoadFollows` | DHCP_Server/DHCPv6/sources/leases6.c:472-558 | loading an appended record does to the rebuilt table what the add did in memory |
| `Leases6.AddIsDurable` | DHCP_Server/DHCPv6/sources/leases6.c:670-829 | an add with its appended record keeps the file able to rebuild the table |
| `Leases6.RetireIsDurable` | DHCP_Server/DHCPv6/sources/leases6.c:865-883 | so does a release |
| `Leases6.MarkExpiredIsDurable` | DHCP_Server/DHCPv6/sources/leases6.c:906-917 | so does expiry |
| `Leases6.CleanupIsDurable` | DHCP_Server/DHCPv6/sources/leases6.c:919-932 | so does cleanup |
| `Leases6.FileRebuildsTable` | DHCP_Server/DHCPv6/sources/leases6.c:472-932 | after any run of adds, releases, conflicts, expiries and cleanups from any file, replaying the file gives the table: same order, keys, DUIDs, IAIDs and states |
| `Leases6.LeaseTable.constructor` | DHCP_Server/DHCPv6/sources/leases6.c:230-558 | loads the records, the last one for a key winning in the first one's slot |
| `Leases6.LeaseTable.Find` | DHCP_Server/DHCPv6/sources/leases6.c:832-852 | finds the first slot with the key |
| `Leases6.LeaseTable.SaveAll` | DHCP_Server/DHCPv6/sources/leases6.c:560-667 | leaves the leases and rewrites the file as their records |
| `Leases6.LeaseTable.AddLease` | DHCP_Server/DHCPv6/sources/leases6.c:715-829 | overwrites the slot of its key or takes a new one and appends the record; fails, changing nothing, on a full table; for every text that reads as a DUID, or the empty one |
| `Leases6.LeaseTable.RetireLease` | DHCP_Server/DHCPv6/sources/leases6.c:865-883 | sets the state and end of the key's lease and rewrites the file |
| `Leases6.LeaseTable.MarkExpiredOlder` | DHCP_Server/DHCPv6/sources/leases6.c:906-917 | slot by slot, expires the active leases whose end has passed and leaves every other lease; says whether there were any |
| `Leases6.LeaseTable.CleanupDead` | DHCP_Server/DHCPv6/sources/leases6.c:919-932 | replaces the table by one without exactly the expired and released leases, in order, and counts them |
| `Pools6.NamesOnlyOne` | DHCP_Server/DHCPv6/sources/ip6_pool.c:264-317 | an entry's text that is a client's whole text names no other client |
| `Pools6.GrantPermitted` | DHCP_Server/DHCPv6/sources/ip6_pool.c:391-537 | an entry that is free or in the client's own name has no live lease of anyone else |
| `Pools6.ClaimIsSafe` | DHCP_Server/DHCPv6/sources/ip6_pool.c:391-537 | claiming a free entry keeps pool and table in step, also when the add fails and is rolled back, for every client; strictly so when the record takes the client's name |
| `Pools6.ClaimKeepsOneEach` | DHCP_Server/DHCPv6/sources/ip6_pool.c:391-537 | a client without an entry that claims one has one |
| `AddressPool.SyncAt` | DHCP_Server/DHCPv6/sources/ip6_pool.c:264-327 | after a pass each entry is what its own lease makes of it; prefix leases touch none |
| `AddressPool.SyncOwns` | DHCP_Server/DHCPv6/sources/ip6_pool.c:319-327 | after a pass the pool shows every holding, whatever it showed before |
| `AddressPool.SyncKeepsOneEach` | DHCP_Server/DHCPv6/sources/ip6_pool.c:319-327 | a pass over a pool in step gives no client a second entry |
| `AddressPool.SetAsideIsSafe` | DHCP_Server/DHCPv6/sources/ip6_pool.c:331-345 | setting an address aside as in conflict keeps pool and table in step |
| `AddressPool.RefreshIsSafe` | DHCP_Server/DHCPv6/sources/ip6_pool.c:391-537 | refreshing a client's own entry keeps pool and table in step, rolled back or not |
| `AddressPool.ScanPermitted` | DHCP_Server/DHCPv6/sources/ip6_pool.c:391-537 | what the scan for a free address grants, nobody else held before it |
| `AddressPool.ScanIsSafe` | DHCP_Server/DHCPv6/sources/ip6_pool.c:391-537 | the scan with its probes, conflicts and failed claims keeps pool and table in step |
| `AddressPool.AllocateIsSafe` | DHCP_Server/DHCPv6/sources/ip6_pool.c:391-537 | whatever branch is taken and whoever asks, allocation keeps pool and table in step; strictly so when the grant is recorded in the client's name, and then nobody else held a dynamic address |
| `AddressPool.FreshIsDistinct` | DHCP_Server/DHCPv6/sources/ip6_pool.c:194-255 | the range loop lays down no address twice |
| `AddressPool.StartedIsOk` | DHCP_Server/DHCPv6/sources/ip6_pool.c:194-255 | a pool built from a table shows all its holdings under their DUIDs, and gives no client two entries if the table does not |
| `AddressPool.GrantIsOwn` | DHCP_Server/DHCPv6/sources/ip6_pool.c:391-537 | a dynamic address is granted to a client, named or not, with nobody else holding it before or after, if and only if the client has a name or the table had no other name left over for the address |
| `AddressPool.GrantsOnlyGrantable` | DHCP_Server/DHCPv6/sources/ip6_pool.c:391-537 | only an address reserved by the client's own text, an available one, or one allocated under the client's own non-empty text is granted |
| `AddressPool.AllocateElsewhere` | DHCP_Server/DHCPv6/sources/ip6_pool.c:391-537 | named or not, a request leaves every lease outside the pool alone and the file ready to rebuild the table |
| `AddressPool.ClaimIsFoundAgain` | DHCP_Server/DHCPv6/sources/ip6_pool.c:391-537 | a client finds its entry again if and only if its DUID has at most 42 bytes |
| `AddressPool.PrefixLeaseFreesUnspecified` | DHCP_Server/DHCPv6/sources/ip6_pool.c:264-317 | a prefix lease frees the unspecified address, which is why it must not be in a pool |
| `PrefixPool.BlocksDisjoint` | DHCP_Server/DHCPv6/sources/pd_pool.c:43-119 | two entries of a prefix pool never cover the same address, aligned start or not |
| `PrefixPool.SteppedIsDistinct` | DHCP_Server/DHCPv6/sources/pd_pool.c:43-119 | no prefix is laid down twice |
| `PrefixPool.PdSyncOwns` | DHCP_Server/DHCPv6/sources/pd_pool.c:43-119 | a prefix pool built from a table shows every delegation in it |
| `PrefixPool.PdAllocateIsSafe` | DHCP_Server/DHCPv6/sources/pd_pool.c:141-210 | whoever asks, allocation keeps prefix pool and table in step; strictly so when the grant is recorded in the client's name, and then nobody else held the block |
| `PrefixPool.PdGrantIsOwn` | DHCP_Server/DHCPv6/sources/pd_pool.c:141-210 | a prefix is granted to a client, named or not, with nobody else holding it before or after, if and only if the client has a name or the table had no other name left over for the prefix |
| `PrefixPool.PdGrantsOnlyGrantable` | DHCP_Server/DHCPv6/sources/pd_pool.c:141-210 | only an available prefix, or one allocated under the client's own text, even an empty one, is granted |
| `PrefixPool.PdReleaseIsSafe` | DHCP_Server/DHCPv6/sources/pd_pool.c:212-228 | release keeps them in step |
| `PrefixPool.StartedPdIsOk` | DHCP_Server/DHCPv6/sources/pd_pool.c:43-119 | a started prefix pool shows all its holdings under their DUIDs, and gives no client two entries if the table does not |
| `LivePools6.AddressTable.constructor` | DHCP_Server/DHCPv6/sources/ip6_pool.c:194-255 | entries start, start+1 and so on, min(end-start+1, 4096) of them, brought in line with leases and reservations; counters exact |
| `LivePools6.AddressTable.FillRange` | DHCP_Server/DHCPv6/sources/ip6_pool.c:205-238 | the increment loop lays down exactly those addresses |
| `LivePools6.AddressTable.ReserveHosts` | DHCP_Server/DHCPv6/sources/ip6_pool.c:194-255 | every reservation that lies in the pool is reserved |
| `LivePools6.AddressTable.FollowLease` | DHCP_Server/DHCPv6/sources/ip6_pool.c:264-317 | moves the entry to its lease's state and keeps all three counters exact |
| `LivePools6.AddressTable.SyncWithLeases` | DHCP_Server/DHCPv6/sources/ip6_pool.c:319-327 | the pass over the table, counters exact |
| `LivePools6.AddressTable.MarkConflict` | DHCP_Server/DHCPv6/sources/ip6_pool.c:331-345 | sets the entry and its lease aside, or changes nothing if there is none |
| `LivePools6.AddressTable.ReserveIp` | DHCP_Server/DHCPv6/sources/ip6_pool.c:367-387 | reserves an entry for a text, counters exact |
| `LivePools6.AddressTable.ReleaseIp` | DHCP_Server/DHCPv6/sources/ip6_pool.c:347-363 | frees the entry and releases its lease |
| `LivePools6.AddressTable.ClaimEntry` | DHCP_Server/DHCPv6/sources/ip6_pool.c:391-537 | claims an entry and adds the lease, or undoes the claim; counters exact either way |
| `LivePools6.AddressTable.TryEntry` | DHCP_Server/DHCPv6/sources/ip6_pool.c:391-537 | probes an entry and claims it, or sets it aside |
| `LivePools6.AddressTable.ScanEntries` | DHCP_Server/DHCPv6/sources/ip6_pool.c:391-537 | tries the free entries in order |
| `LivePools6.AddressTable.AllocateAddress` | DHCP_Server/DHCPv6/sources/ip6_pool.c:391-537 | own entry, reservation, requested address, first free one, in that order, with every rollback; counters exact |
| `LivePools6.PrefixTable.constructor` | DHCP_Server/DHCPv6/sources/pd_pool.c:43-119 | prefixes start, start+2^(128-plen) and so on within the range, brought in line with the table; counters exact |
| `LivePools6.PrefixTable.FillPrefixes` | DHCP_Server/DHCPv6/sources/pd_pool.c:43-119 | the stepping loop lays down exactly those prefixes |
| `LivePools6.PrefixTable.AllocatePrefix` | DHCP_Server/DHCPv6/sources/pd_pool.c:141-210 | own prefix or first free one, with rollback; counters exact |
| `LivePools6.PrefixTable.ReleasePrefix` | DHCP_Server/DHCPv6/sources/pd_pool.c:212-228 | frees the entry and releases its lease |
| `LivePools6.CountUpdate` | DHCP_Server/DHCPv6/sources/ip6_pool.c:264-317 | changing one entry changes a state's count by what it was and what it is |
| `Server6.NameText` | DHCP_Server/DHCPv6/sources/server.c:218-219 | the server's text buffer shows the whole DUID up to 85 bytes and nothing beyond |
| `Server6.FindSubnet` | DHCP_Server/DHCPv6/sources/server.c:113-124 | the first subnet that contains the sender, and 0 if none does or the sender is link-local |
| `Server6.GrantNaOk` | DHCP_Server/DHCPv6/sources/server.c:227-239 | for every packet, an address grant keeps the invariant, was reserved, free or the requester's, and if dynamic is nobody else's before and after if and only if it is recorded in the requester's name |
| `Server6.GrantPdOk` | DHCP_Server/DHCPv6/sources/server.c:252-263 | the same for a prefix grant |
| `Server6.GiveBackOk` | DHCP_Server/DHCPv6/sources/server.c:187-200 | RELEASE and DECLINE keep the invariant |
| `Server6.TidyOk` | DHCP_Server/DHCPv6/sources/server.c:298-319 | a cleanup turn keeps the invariant |
| `Server6.ProcessOk` | DHCP_Server/DHCPv6/sources/server.c:138-282 | every packet keeps the invariant, and every grant in it is as just said |
| `Server6.StepIsOk` | DHCP_Server/DHCPv6/sources/server.c:138-323 | every step does |
| `Server6.RunKeepsInv` | DHCP_Server/DHCPv6/sources/server.c:138-323 | every state of every run satisfies the invariant: pools mirror the table, share nothing, and the file rebuilds the table; and the strict one as long as grants are recorded in their clients' names |
| `Server6.StartIsInv` | DHCP_Server/DHCPv6/sources/server.c:350-546 | the start-up state does, on every file |
| `Server6.ReachableIsStepped` | DHCP_Server/DHCPv6/sources/pd_pool.c:43-119 | in every reachable state the prefixes are where start-up laid them, and pools hold keys of their own kind only |
| `Server6.LiveLeaseIsAllocated` | DHCP_Server/DHCPv6/sources/server.c:138-323 | in every reachable state, restarts and clients without a name included, a live lease on a dynamic pool address shows as an entry allocated under the lease's DUID or under no text |
| `Server6.NoAddressGrantedTwice` | DHCP_Server/DHCPv6/sources/server.c:138-323 | in every reachable state, whoever the clients were and however often the server was restarted, and for every event: a granted address was reserved by the requester's own text, free or already the requester's, and each live lease on it, if it is dynamic, names the requester before the step and after it if and only if the requester has a usable DUID or the table had no other left for the address |
| `Server6.NoPrefixGrantedTwice` | DHCP_Server/DHCPv6/sources/server.c:138-323 | the same for prefixes, reservations included |
| `Server6.NamedGrantsAreExclusive` | DHCP_Server/DHCPv6/sources/server.c:138-323 | so every live lease on a dynamic address or prefix granted to a client with a DUID of 1 to 85 bytes carries that DUID, before and after |
| `Nameless6.NamelessLosesAddress` | DHCP_Server/DHCPv6/sources/ip6_pool.c:391-537 | a run from start-up in which a client without a DUID is granted an address whose lease then names its old holder, and after a clean-up the old holder is granted it too while the first lease still runs |
| `Nameless6.NamelessTakesPrefix` | DHCP_Server/DHCPv6/sources/pd_pool.c:141-210 | a first step after start-up that grants a client without a DUID the prefix of another, whose live lease has a DUID of more than 42 bytes |
| `Server6.DelegationsDisjoint` | DHCP_Server/DHCPv6/sources/server.c:138-323 | in every reachable state two live delegations of one pool, or of two with ranges apart, never cover a common address, and each one's entry is allocated under its DUID or under no text |
| `Server6.ConfiguredIsSensible` | DHCP_Server/DHCPv6/sources/server.c:350-546 | ranges without a common address, none with the unspecified one, give pools that share nothing in every reachable state |
| `PrefixPool.FreshPrefixInSpan` | DHCP_Server/DHCPv6/sources/pd_pool.c:43-119 | a prefix that is laid down, and every address it covers, lies in the configured range rounded out to whole blocks |
| `Server6.OneEntryPerClient` | DHCP_Server/DHCPv6/sources/ip6_pool.c:194-537 | in every state reached from a file that gives no client two holdings, with all grants recorded in their clients' names, a DUID of 1 to 42 bytes has at most one dynamic entry in a pool |
| `Server6.LiveLeaseIsNamed` | DHCP_Server/DHCPv6/sources/server.c:138-323 | in the same states a live lease on a dynamic pool address shows under its DUID, and under the whole text up to 42 bytes |
| `Nameless6.NamelessDoublesEntry` | DHCP_Server/DHCPv6/sources/ip6_pool.c:391-537 | a run from start-up, with a client without a DUID, after which another client has two entries in its name |
| `Server6.RestartRebuildsTable` | DHCP_Server/DHCPv6/sources/leases6.c:472-932 | after every run from start-up, whoever the clients are, the lease file rebuilds the lease table |
| `Server6.RestartKeepsHolders` | DHCP_Server/DHCPv6/sources/server.c:350-546 | a restart in any reachable state leaves every key with its holder and every pool with its keys, and leads to a reachable state again |
| `Server6.RestartStaysNamed` | DHCP_Server/DHCPv6/sources/server.c:350-546 | and no client with two holdings in a pool where there was none |
| `Answers6.AddRecords` | DHCP_Server/DHCPv6/sources/leases6.c:715-829 | an add succeeds if and only if the key has a slot or fewer than 4096 are taken; the lease is then active with the IAID and end asked for and the name given, every other lease is as before, and the file gains its record |
| `Answers6.RetireRecords` | DHCP_Server/DHCPv6/sources/leases6.c:865-883 | the lease of the key gets the new state and ends now; every other is as before |
| `Answers6.ExpiresExactly` | DHCP_Server/DHCPv6/sources/leases6.c:906-917 | slot by slot: expired if it was active and its end has passed, else unchanged |
| `Answers6.CleanupDrops` | DHCP_Server/DHCPv6/sources/leases6.c:919-932 | a lease is left if and only if it was there and is neither expired nor released |
| `Answers6.LoadTakesLast` | DHCP_Server/DHCPv6/sources/leases6.c:472-558 | a key has the lease of its last readable record, and is found while the table is not full |
| `Answers6.LoadInventsNothing` | DHCP_Server/DHCPv6/sources/leases6.c:472-558 | a key without a readable record is not found |
| `Answers6.SyncFollowsLease` | DHCP_Server/DHCPv6/sources/ip6_pool.c:264-327 | an entry with a lease takes the state and text of the lease, written out for each lease state; one without stays |
| `Answers6.PdSyncFollowsLease` | DHCP_Server/DHCPv6/sources/pd_pool.c:43-119 | the same for a prefix at start-up, whose text a lease without a DUID leaves alone |
| `Answers6.RangeIsLaidDown` | DHCP_Server/DHCPv6/sources/ip6_pool.c:205-238 | the addresses of a started pool are those of the range, up to 4096, and no others |
| `Answers6.FixedStartsReserved` | DHCP_Server/DHCPv6/sources/ip6_pool.c:194-255 | every fixed address in a pool starts reserved |
| `Answers6.FixedStartsForItsHost` | DHCP_Server/DHCPv6/sources/ip6_pool.c:194-255 | for the last host that names it and has a text |
| `Answers6.ReservationComesFirst` | DHCP_Server/DHCPv6/sources/ip6_pool.c:391-537 | a client whose first reservation lies in the pool is granted that address or nothing, nothing only if the probe answers or the table is full; entry and lease as they should be, nothing else changed |
| `Answers6.OwnComesSecond` | DHCP_Server/DHCPv6/sources/ip6_pool.c:391-537 | otherwise a client with an entry under its text is granted the first such entry, always; no entry changes, and its lease is renewed if there is room |
| `Answers6.RequestComesThird` | DHCP_Server/DHCPv6/sources/ip6_pool.c:391-537 | otherwise a requested address that is in range and available is granted, or nothing, only for the same reasons |
| `Answers6.FreeComesLast` | DHCP_Server/DHCPv6/sources/ip6_pool.c:391-537 | otherwise the first available address that answers no probe and can be recorded is granted, nothing if and only if there is none; those that answered are set aside, every other entry stays |
| `Answers6.GrantIsOnRecord` | DHCP_Server/DHCPv6/sources/ip6_pool.c:391-537 | whatever branch granted it, the lease is active for the IAID and end asked for, except a renewal in a full table |
| `Answers6.PdOwnComesFirst` | DHCP_Server/DHCPv6/sources/pd_pool.c:141-210 | a client with a prefix under its text is delegated the first such one, always, and its lease is renewed if there is room |
| `Answers6.PdFreeComesNext` | DHCP_Server/DHCPv6/sources/pd_pool.c:141-210 | otherwise the first available prefix is delegated, its entry allocated under the client's clipped text, its lease active for the IAID and end asked for, and the file saved; nothing if the table is full |
| `Answers6.PdNoneLeft` | DHCP_Server/DHCPv6/sources/pd_pool.c:141-210 | without an available one nothing is delegated and nothing changes |
| `Answers6.PdGrantsWhen` | DHCP_Server/DHCPv6/sources/pd_pool.c:141-210 | a prefix is delegated if and only if the client has one under its text or the first available one can be recorded |
| `Answers6.PdReleaseAnswers` | DHCP_Server/DHCPv6/sources/pd_pool.c:212-228 | an allocated entry of the pool is free again and its lease released now; a foreign prefix changes nothing |
| `Answers6.ReleaseEndsLeases` | DHCP_Server/DHCPv6/sources/server.c:185-200 | RELEASE: the lease on the named address, and on the named prefix if the sender's pool has it, is released now; no other lease and no address entry changes |
| `Answers6.ReleaseFreesPrefix` | DHCP_Server/DHCPv6/sources/server.c:185-200 | and the named prefix entry of the sender's pool is free again; no other prefix entry changes |
| `Answers6.DeclineAbandonsLease` | DHCP_Server/DHCPv6/sources/server.c:185-200 | DECLINE: the lease on the named address, if the sender's pool has it, is abandoned now; no other lease and no prefix entry changes |
| `Answers6.DeclineSetsAside` | DHCP_Server/DHCPv6/sources/server.c:185-200 | and its entry is set aside as in conflict; no other address entry changes |
| `Answers6.RequestsGoToThePools` | DHCP_Server/DHCPv6/sources/server.c:213-265 | SOLICIT, REQUEST, RENEW and REBIND: the sender's address pool answers first, its prefix pool then, each for the client's DUID up to 85 bytes, its IAID and the subnet's lease time |
| `Answers6.OtherMessagesChangeNothing` | DHCP_Server/DHCPv6/sources/server.c:161-168 | every other message type changes and grants nothing |
| `Answers6.LinkLocalIsAPrefix` | DHCP_Server/DHCPv6/sources/server.c:113-124 | the link-local test is membership in fe80::/10 |
| `Answers6.CleanUpDropsExactly` | DHCP_Server/DHCPv6/sources/server.c:298-319 | if some active lease is past its end, a clean-up turn drops exactly the leases past their end, the expired and the released; otherwise none; and saves the file |
| `Answers6.CleanUpIsExact` | DHCP_Server/DHCPv6/sources/server.c:298-319 | after a turn no lease is active past its end, and every backup lease and every active one not past its end is still there and still the holder |
| `LiveServer6.Server.constructor` | DHCP_Server/DHCPv6/sources/server.c:350-546 | loads the table and builds every pool from it |
| `LiveServer6.Server.SubnetOf` | DHCP_Server/DHCPv6/sources/server.c:113-124 | the first subnet the sender lies in, the first one for link-local and foreign senders |
| `LiveServer6.Server.GiveBackAddress` | DHCP_Server/DHCPv6/sources/server.c:187-194 | what RELEASE and DECLINE do to table and pool |
| `LiveServer6.Server.GiveBackPrefix` | DHCP_Server/DHCPv6/sources/server.c:195-199 | what RELEASE does to table and prefix pool |
| `LiveServer6.Server.GrantAddress` | DHCP_Server/DHCPv6/sources/server.c:216-240 | the address part of a request |
| `LiveServer6.Server.GrantPrefix` | DHCP_Server/DHCPv6/sources/server.c:242-265 | the prefix part of a request |
| `LiveServer6.Server.ProcessPacket` | DHCP_Server/DHCPv6/sources/server.c:138-282 | is the packet step of the state machine on the live objects, and keeps every counter exact |
| `LiveServer6.Server.SyncAll` | DHCP_Server/DHCPv6/sources/server.c:306-310 | brings every address pool in line with the table |
| `LiveServer6.Server.CleanUpLeases` | DHCP_Server/DHCPv6/sources/server.c:286-323 | is the cleanup step of the state machine on the live objects |
| `Wire6.NextOption` | DHCP_Server/DHCPv6/sources/protocol_v6.c:22-60 | yields only whole options inside the bytes, and always moves forward |
| `Wire6.WalkIsOptions` | DHCP_Server/DHCPv6/sources/protocol_v6.c:22-206 | for arbitrary bytes, walking with the next-option function behind a header of any size, the 4 bytes of a message or the 12 of an IA, visits exactly the options the parser reads from there |
| `Wire6.FieldsComeFromTheirOptions` | DHCP_Server/DHCPv6/sources/protocol_v6.c:91-200 | each field of the meta data comes from the last option with its code, read as that code demands, and is empty without one |
| `Wire6.LastAddressDecides` | DHCP_Server/DHCPv6/sources/protocol_v6.c:102-126 | the last address suboption of at least 16 bytes decides an IA_NA's address |
| `Wire6.LastPrefixDecides` | DHCP_Server/DHCPv6/sources/protocol_v6.c:128-156 | the last prefix suboption of at least 25 bytes decides an IA_PD's prefix and length |
| `Wire6.AppendOneOption` | DHCP_Server/DHCPv6/sources/protocol_v6.c:452-577 | an option appended to a packet whose options use it up extends the decoded list by exactly that option |
| `Wire6.OptBytesRead` | DHCP_Server/DHCPv6/sources/protocol_v6.c:452-467 | an option's bytes read back as its code and value |
| `Wire6.ReadIaNa` | DHCP_Server/DHCPv6/sources/protocol_v6.c:102-126 | the inner loop finds the last address among the suboptions |
| `Wire6.ReadIaPd` | DHCP_Server/DHCPv6/sources/protocol_v6.c:128-156 | the inner loop finds the last prefix among the suboptions |
| `Wire6.ReadServers` | DHCP_Server/DHCPv6/sources/protocol_v6.c:158-169 | the first four addresses |
| `Wire6.ReadOption` | DHCP_Server/DHCPv6/sources/protocol_v6.c:91-200 | every case of the switch |
| `Wire6.Parse` | DHCP_Server/DHCPv6/sources/protocol_v6.c:62-206 | for arbitrary bytes: ends, stays inside, and folds the decoded option list from left to right |
| `Reply6.IaReads` | DHCP_Server/DHCPv6/sources/protocol_v6.c:469-577 | an identity association reads back as its IAID and its one suboption |
| `Reply6.NaAbsorbed` | DHCP_Server/DHCPv6/sources/protocol_v6.c:469-521 | parsing an IA_NA sets the IAID, and the address exactly on success |
| `Reply6.PdAbsorbed` | DHCP_Server/DHCPv6/sources/protocol_v6.c:523-577 | parsing an IA_PD sets the IAID, and prefix and length exactly on success |
| `Reply6.DnsAbsorbed` | DHCP_Server/DHCPv6/sources/protocol_v6.c:242-270 | parsing the servers written gives the first four of them |
| `Reply6.Header` | DHCP_Server/DHCPv6/include/protocol_v6.h:186-205 | a transaction id survives in its low 24 bits |
| `Reply6.ParsedGrows` | DHCP_Server/DHCPv6/sources/protocol_v6.c:62-206 | one more option is exactly one more thing read |
| `Reply6.ReplyReadsBack` | DHCP_Server/DHCPv6/sources/server.c:168-265 | a reply that fits parses to its type, transaction id, both DUIDs, both IAIDs, address, prefix with length, and first four DNS servers |
| `Reply6.ReplyCarriesTimes` | DHCP_Server/DHCPv6/sources/protocol_v6.c:469-577 | in the bytes of a reply the IA_NA and the IA_PD carry IAID, T1, T2 and, after the address or around the prefix, both lifetimes, or the status |
| `Reply6.ReplyIsTiled` | DHCP_Server/DHCPv6/sources/server.c:168-265 | a reply is a whole number of options in the buffer even when appends fail |
| `Append6.AppendOption` | DHCP_Server/DHCPv6/sources/protocol_v6.c:452-467 | writes the whole option behind the offset, or leaves offset and packet alone when it does not fit |
| `Append6.AppendIa` | DHCP_Server/DHCPv6/sources/protocol_v6.c:469-577 | the same for IA_NA and IA_PD, whose length goes in last |
| `Append6.AppendDns` | DHCP_Server/DHCPv6/sources/protocol_v6.c:242-270 | the same for DNS servers in a buffer of any size: as many as there is room for, less those the 16-bit length leaves out |
| `Append6.BuildReply` | DHCP_Server/DHCPv6/sources/server.c:168-265 | fills the reply buffer in place with exactly the reply |
| `Exchange6.ClientFits` | DHCP_Server/DHCPv6/sources/protocol_v6.c:92-95 | a client identifier is no longer than its packet |
| `Exchange6.GrantsAreOfTheirKind` | DHCP_Server/DHCPv6/sources/server.c:216-265 | in every reachable state addresses are granted as addresses and prefixes as prefixes |
| `Exchange6.ReplyTellsTheGrant` | DHCP_Server/DHCPv6/sources/server.c:138-282 | in every reachable state, from message bytes to reply bytes: the reply is an ADVERTISE to a SOLICIT and else a REPLY, and parses to the sender's transaction id, DUID and IAIDs and to exactly the address and prefix granted, or on RELEASE and DECLINE those given back |
| `Exchange6.ReplyCarriesLifetimes` | DHCP_Server/DHCPv6/sources/server.c:213-265 | its bytes carry the subnet's default lease time as T1 and preferred lifetime and the maximum as T2 and valid lifetime with a grant, zeros with what is given back, zeros and NoAddrsAvail with nothing |
| `Exchange6.OthersGetNoReply` | DHCP_Server/DHCPv6/sources/server.c:138-168 | a datagram is sent if and only if the message parses and is one of the six types |
| `Rings.WrapIsModular` | DHCP_Server/DHCPv4/utils/thread_pool.c:71-111 | the remainder the source takes is one wrap |
| `Rings.PutAppends` | DHCP_Server/DHCPv4/utils/thread_pool.c:96-106 | putting into a ring appends to what it holds |
| `Rings.TakeDrops` | DHCP_Server/DHCPv4/utils/thread_pool.c:188-192 | taking from a ring drops the oldest |
| `ThreadPool.AddConserves` | DHCP_Server/DHCPv4/utils/thread_pool.c:71-111 | an add keeps tasks conserved and in order |
| `ThreadPool.AddKeepsOrder` | DHCP_Server/DHCPv4/utils/thread_pool.c:71-111 | an add with its signal loses no wakeup |
| `ThreadPool.LookConserves` | DHCP_Server/DHCPv4/utils/thread_pool.c:166-209 | a worker's look at the queue keeps tasks conserved and in order |
| `ThreadPool.LookKeepsOrder` | DHCP_Server/DHCPv4/utils/thread_pool.c:166-209 | it sleeps, leaves or grabs only where that loses nothing |
| `ThreadPool.StepKeepsInv` | DHCP_Server/DHCPv4/utils/thread_pool.c:71-209 | every step of every thread keeps conservation, wakeups and orderly exits |
| `ThreadPool.CreateIsInv` | DHCP_Server/DHCPv4/utils/thread_pool.c:12-69 | a new pool has them |
| `ThreadPool.CreateAnswers` | DHCP_Server/DHCPv4/utils/thread_pool.c:12-69 | a pool can be created if and only if it has 1 to 64 workers and room for 1 to 65536 tasks; it starts open and empty with that many workers |
| `ThreadPool.ExactlyOnceInOrder` | DHCP_Server/DHCPv4/utils/thread_pool.c:71-209 | at every point of every interleaving each accepted task is exactly once queued, being executed or finished, and tasks leave the queue in the order of acceptance |
| `ThreadPool.WorkIsNoticed` | DHCP_Server/DHCPv4/utils/thread_pool.c:71-209 | in every reachable state with queued work some worker is awake or busy, unless an immediate shutdown has sent all home; and none sleeps unless each queued task has a woken worker to itself |
| `ThreadPool.ShutdownOutcome` | DHCP_Server/DHCPv4/utils/thread_pool.c:113-209 | when all workers have exited, a graceful shutdown has finished every accepted task exactly once, an immediate one exactly those handed out |
| `ThreadPool.ShutdownIsBounded` | DHCP_Server/DHCPv4/utils/thread_pool.c:113-209 | once shutdown has begun nothing is accepted and the workers have a bounded number of steps left |
| `ThreadPool.ShutdownProceeds` | DHCP_Server/DHCPv4/utils/thread_pool.c:113-209 | with the lock free some worker can move exactly until all have exited |
| `ThreadPool.LockIsLostWhen` | DHCP_Server/DHCPv4/utils/thread_pool.c:127-153 | over every run from creation the lock is lost if and only if destroy has been called twice while workers were left, and no third call gets through |
| `ThreadPool.SecondDestroyHangs` | DHCP_Server/DHCPv4/utils/thread_pool.c:127-153 | after that no remaining worker ever exits |
| `ThreadPool.FinishesUnlessLockLost` | DHCP_Server/DHCPv4/utils/thread_pool.c:71-209 | from a reachable pool with workers left, some run ends with all workers gone if and only if the lock has not been lost |
| `ThreadPool.DestroyedTwice` | DHCP_Server/DHCPv4/utils/thread_pool.c:127-153 | a pool of any size destroyed twice right after creation is in that state |
| `ThreadPool.FirstDestroyDecides` | DHCP_Server/DHCPv4/utils/thread_pool.c:113-164 | in every run the first destroy decides for good whether the pool closes at once or gracefully |
| `ThreadPool.ImmediateStops` | DHCP_Server/DHCPv4/utils/thread_pool.c:113-209 | after an immediate shutdown no queued task is handed out and none accepted |
| `ThreadPool.TaskPool.constructor` | DHCP_Server/DHCPv4/utils/thread_pool.c:12-31 | an empty open queue of the given size |
| `ThreadPool.TaskPool.Submit` | DHCP_Server/DHCPv4/utils/thread_pool.c:71-111 | appends to what the ring holds exactly when it has room and no shutdown has begun |
| `ThreadPool.TaskPool.Look` | DHCP_Server/DHCPv4/utils/thread_pool.c:166-209 | sleeps, leaves, or takes the oldest entry off the ring |
| `ThreadPool.TaskPool.Close` | DHCP_Server/DHCPv4/utils/thread_pool.c:113-164 | closes an open queue, at once or gracefully by the lowest flag bit, and reports -1, changing nothing, for one that is closing |
| `IoQueue.StepKeepsInv` | DHCP_Server/DHCPv4/src/lease_v4.c:1287-1497 | every step keeps accepted operations equal to those done, the one in hand and those in the ring |
| `IoQueue.CarriedOutInOrder` | DHCP_Server/DHCPv4/src/lease_v4.c:1287-1497 | at every point of every run the operations accepted are those carried out, then the one in hand, then those in the ring, in that order, and the processed counter counts those carried out |
| `IoQueue.SavesAreCounted` | DHCP_Server/DHCPv4/src/lease_v4.c:1328-1389 | in every run each request to save is accepted or counted as dropped |
| `IoQueue.ExitFlushes` | DHCP_Server/DHCPv4/src/lease_v4.c:1287-1497 | when the thread is gone exactly the operations accepted before the first marker have been carried out |
| `IoQueue.ExitIsFinal` | DHCP_Server/DHCPv4/src/lease_v4.c:1417-1497 | nothing is carried out after that |
| `IoQueue.PendingMarkerEndsThread` | DHCP_Server/DHCPv4/src/lease_v4.c:1417-1497 | a pending marker ends the thread after exactly the computed number of its own steps, whatever producers do |
| `IoQueue.PendingProceeds` | DHCP_Server/DHCPv4/src/lease_v4.c:1417-1497 | and until then the thread has a step to take |
| `IoQueue.NoMarkerNoEnd` | DHCP_Server/DHCPv4/src/lease_v4.c:1287-1497 | without a marker the thread never ends unless stop is called again |
| `IoQueue.StopLeavesMarker` | DHCP_Server/DHCPv4/src/lease_v4.c:1287-1326 | stop leaves a marker pending if and only if the ring has room or one was pending |
| `IoQueue.StopCanHang` | DHCP_Server/DHCPv4/src/lease_v4.c:1287-1326 | a reachable state with a full ring in which stop leaves none |
| `IoQueue.LeaseQueue.constructor` | DHCP_Server/DHCPv4/src/lease_v4.c:1260-1285 | an empty running queue |
| `IoQueue.LeaseQueue.Save` | DHCP_Server/DHCPv4/src/lease_v4.c:1328-1389 | appends the operation, or counts it as dropped when the ring is full |
| `IoQueue.LeaseQueue.RequestStop` | DHCP_Server/DHCPv4/src/lease_v4.c:1287-1326 | appends the marker if the queue is running and has room |
| `IoQueue.LeaseQueue.TakeOp` | DHCP_Server/DHCPv4/src/lease_v4.c:1442-1445 | takes the oldest operation off the ring |
| `DnsCache.IndexIsCaseFold` | DNS_Server/sources/dns_cache.c:6-35 | two acceptable characters share a child exactly when they are equal up to case |
| `DnsCache.IndexedCharacters` | DNS_Server/sources/dns_cache.c:6-35 | exactly letters, digits, hyphen, underscore and dot can be cached |
| `DnsCache.SamePathIsSameName` | DNS_Server/sources/dns_cache.c:6-131 | two names share a node exactly when they are the same name up to case |
| `DnsCache.Node.constructor` | DNS_Server/sources/dns_cache.c:37-56 | a blank node |
| `DnsCache.Cache.constructor` | DNS_Server/sources/dns_cache.c:58-62 | an empty cache |
| `DnsCache.Cache.Link` | DNS_Server/sources/dns_cache.c:79-82 | hanging a new node under another changes no answer and keeps every path apart |
| `DnsCache.Cache.StepInto` | DNS_Server/sources/dns_cache.c:79-85 | the child one step further, made if missing |
| `DnsCache.Cache.Insert` | DNS_Server/sources/dns_cache.c:64-94 | binds the folded name to response and expiry and disturbs no other name; a rejected name changes no answer |
| `DnsCache.Cache.Walk` | DNS_Server/sources/dns_cache.c:98-111 | ends at the node of the name, or nowhere exactly if there is none |
| `DnsCache.Cache.Lookup` | DNS_Server/sources/dns_cache.c:96-131 | returns the name's answer exactly if present and not expired, and drops it alone if expired |
| `DnsCache.HistoryIsUpToDate` | DNS_Server/sources/dns_cache.c:64-131 | over any history with a non-decreasing clock the cache holds the latest answer for every path unless it has run out |
| `DnsCache.LookupIsLatest` | DNS_Server/sources/dns_cache.c:64-131 | over any such history a lookup returns the latest insertion under that name, in any case, if and only if it has not expired |
| `DnsCache.UncacheableIsNeverFound` | DNS_Server/sources/dns_cache.c:73-77 | a name with a foreign character is never found and inserting it changes nothing |
| `DnsCache.LivesItsTtl` | DNS_Server/sources/dns_cache.c:88-88 | answers live exactly their time to live if and only if the 32-bit expiry does not wrap, and are born expired if it does |
| `DnsName.JoinSplit` | DNS_Server/utils/string_utils.c:58-82 | the labels of a text, joined, are the text |
| `DnsName.EncodedSize` | DNS_Server/utils/string_utils.c:58-82 | an encoded name is two bytes longer than its text |
| `DnsName.TextToBinary` | DNS_Server/utils/string_utils.c:58-82 | writes every label after its length, and a zero |
| `DnsName.SpeltOnce` | DNS_Server/utils/string_utils.c:6-54 | bytes at a position spell at most one name |
| `DnsName.BinaryToText` | DNS_Server/utils/string_utils.c:6-54 | the labels of the name, pointers followed, as text; the count stops at the end or behind the first pointer |
| `DnsName.DecodingEnds` | DNS_Server/utils/string_utils.c:6-54 | the bytes at a place spell a name, so that decoding it ends, if and only if the loop meets a zero within as many rounds as the packet has bytes |
| `DnsName.CycleSpellsNothing` | DNS_Server/utils/string_utils.c:6-54 | where the loop comes back to its place no name is spelt |
| `DnsName.RunSpells` | DNS_Server/utils/string_utils.c:6-54 | labels with a name behind them spell the labels followed by that name |
| `DnsName.NameRoundTrip` | DNS_Server/utils/string_utils.c:6-82 | for labels of at most 191 bytes, decoding an encoded text gives the text if and only if no label is empty or it is the root; the count is the length plus two, and 1 for the root |
| `DnsName.PointerReads` | DNS_Server/utils/string_utils.c:18-28 | a run of labels ending in a pointer to a name reads as both and counts through the two pointer bytes |
| `DnsName.Measure` | DNS_Server/sources/zone_manager.c:376-383 | the bytes the size loop measures are exactly some non-empty labels of up to 255 bytes and the zero behind them |
| `DnsName.MeasureIsWhole` | DNS_Server/sources/zone_manager.c:374-383 | those labels are the ones of the text up to the first empty one, so the measured size is that of the encoding if and only if no label is empty |
| `DnsName.EncodedIsClosed` | DNS_Server/sources/zone_manager.c:374-383 | the size loop ends inside every encoded text |
| `DomainEncoder.EncodeDomain` | DHCP_Server/DHCPv6/sources/utilsv6.c:281-329 | writes the encoding if and only if it fits, else -1 |
| `DomainEncoder.EncodersAgree` | DHCP_Server/DHCPv6/sources/utilsv6.c:281-329 | the two encoders give the same bytes if and only if the text is not empty and does not end in a dot |
| `Pool4.MovedIsExact` | DHCP_Server/DHCPv4/src/ip_pool.c:953-974 | moving one entry to another state with its counters keeps them exact |
| `Pool4.AllocateKeepsInv` | DHCP_Server/DHCPv4/src/ip_pool.c:464-602 | allocation keeps counters exact, entries distinct and fixed addresses reserved |
| `Pool4.ReleaseKeepsInv` | DHCP_Server/DHCPv4/src/ip_pool.c:410-433 | so does release |
| `Pool4.PassKeepsInv` | DHCP_Server/DHCPv4/src/ip_pool.c:937-975 | so does a synchronisation pass over any lease table |
| `Pool4.RunKeepsInv` | DHCP_Server/DHCPv4/src/ip_pool.c:410-602 | so does every run of the three |
| `Pool4.FixedAddressIsNotGranted` | DHCP_Server/DHCPv4/src/ip_pool.c:464-602 | after any run a client without a reservation is not granted anyone's fixed address |
| `Pool4.OneAddressPerClient` | DHCP_Server/DHCPv4/src/ip_pool.c:410-602 | runs of allocation and release never leave a hardware address with two entries |
| `Pool4.AllocateIsStable` | DHCP_Server/DHCPv4/src/ip_pool.c:464-602 | a client that asks again gets the same address and changes nothing |
| `PoolSync4.PassSettles` | DHCP_Server/DHCPv4/src/ip_pool.c:937-975 | after a pass every touchable entry with a lease is in the state its lease maps to and that lease is not overdue |
| `PoolSync4.PassNames` | DHCP_Server/DHCPv4/src/ip_pool.c:937-975 | after a pass an allocated entry carries its lease's hardware address if and only if it was not allocated before or carried it already, and likewise none for an available one |
| `PoolSync4.PassTwice` | DHCP_Server/DHCPv4/src/ip_pool.c:937-975 | a second pass at the same time changes neither pool nor leases |
| `PoolStart4.FreshIsExact` | DHCP_Server/DHCPv4/src/ip_pool.c:231-258 | the range loop counts the available entries |
| `PoolStart4.FreshIsDistinct` | DHCP_Server/DHCPv4/src/ip_pool.c:231-258 | and lays down no address twice, across the 32-bit wrap too |
| `PoolStart4.ReserveShape` | DHCP_Server/DHCPv4/src/ip_pool.c:260-271 | after the reservation loop every fixed address in the pool is reserved and no other entry changed |
| `PoolStart4.ReserveCounts` | DHCP_Server/DHCPv4/src/ip_pool.c:260-271 | the available counter comes out short by the number of reservations whose entry was not available |
| `PoolStart4.ReserveIsExact` | DHCP_Server/DHCPv4/src/ip_pool.c:260-271 | the counters come out exact if and only if the reservations in the pool are distinct and not excluded |
| `PoolStart4.FollowKeepsInv` | DHCP_Server/DHCPv4/src/ip_pool.c:273-334 | following leases on distinct, not excluded addresses keeps counters exact and fixed addresses reserved |
| `PoolStart4.StartedIsInv` | DHCP_Server/DHCPv4/src/ip_pool.c:212-337 | so a pool started from such reservations and leases has exact counters |
| `PoolStart4.StartedOneEach` | DHCP_Server/DHCPv4/src/ip_pool.c:212-337 | and no client starts with two addresses if none has two leases that count |
| `Server4.StepKeepsPool` | DHCP_Server/DHCPv4/src/main.c:90-249 | every packet and background pass keeps the pool's invariant |
| `Server4.EveryRunIsExact` | DHCP_Server/DHCPv4/src/main.c:90-249 | from start-up, after any run, counters are exact and fixed addresses reserved |
| `Server4.RunKeepsLeases` | DHCP_Server/DHCPv4/src/lease_v4.c:609-752 | no lease moves or changes owner along a run |
| `Server4.SelectingAcksAgree` | DHCP_Server/DHCPv4/src/main.c:156-213 | all acknowledgements of one address in the selecting branch, anywhere in a run, go to the same hardware address |
| `Server4.OfferIsConfirmed` | DHCP_Server/DHCPv4/src/main.c:92-213 | an offered address is confirmed to the client if and only if it had no lease or its first lease was the client's |
| `Server4.OfferCanBeRefused` | DHCP_Server/DHCPv4/src/main.c:92-213 | a run from start-up without leases in which a client gives its address up and the next is offered it and then refused |
| `Server4.PassKeepsWrongOwner` | DHCP_Server/DHCPv4/src/ip_pool.c:937-975 | a run from start-up to a state in which an entry carries the hardware address of one client and its lease that of another, which a pass leaves as it is |
| `Answers4.ReservationComesFirst` | DHCP_Server/DHCPv4/src/ip_pool.c:464-602 | a client with a reservation is granted the address of its first one, always, and the pool stays as it is |
| `Answers4.OwnComesSecond` | DHCP_Server/DHCPv4/src/ip_pool.c:464-602 | otherwise a client with an allocated entry is granted the first of them, and the pool stays as it is |
| `Answers4.RequestComesThird` | DHCP_Server/DHCPv4/src/ip_pool.c:464-602 | otherwise a requested address in range and available is granted; its entry is the client's and the counters move by one |
| `Answers4.FreeComesLast` | DHCP_Server/DHCPv4/src/ip_pool.c:464-602 | otherwise the first available address is granted, and nothing if there is none |
| `Answers4.ReleaseAnswers` | DHCP_Server/DHCPv4/src/ip_pool.c:410-433 | an allocated entry is free again with counters to match; anything else changes nothing |
| `Answers4.ExcludedInNetwork` | DHCP_Server/DHCPv4/src/ip_pool.c:231-258 | in a network of 2^k addresses exactly the first, the last and the router are excluded |
| `Answers4.RangeIsLaidDown` | DHCP_Server/DHCPv4/src/ip_pool.c:231-258 | a range that does not end at the last address there is is laid down whole, up to 1024, available but for the excluded |
| `Answers4.PassFollowsLease` | DHCP_Server/DHCPv4/src/ip_pool.c:937-975 | what a pass makes of an entry, written out for each state of its lease |
| `Answers4.PassExpires` | DHCP_Server/DHCPv4/src/ip_pool.c:937-975 | a pass expires exactly the active leases past their end whose entry is neither reserved nor excluded |
| `Answers4.StartFollowsLease` | DHCP_Server/DHCPv4/src/ip_pool.c:273-334 | what start-up makes of an entry, written out for each state of its lease |
| `Answers4.SelectAnswers` | DHCP_Server/DHCPv4/src/main.c:156-213 | a selecting REQUEST is acknowledged if and only if the first lease on the address is the client's, which is then active for the lease time |
| `Answers4.RenewAnswers` | DHCP_Server/DHCPv4/src/main.c:214-233 | a renewal is acknowledged if and only if there is a lease on the address, whoever it is for |
| `Answers4.GiveUpAnswers` | DHCP_Server/DHCPv4/src/main.c:237-244 | a RELEASE ends the first lease on the address now and frees the address |
| `Answers4.ExpireAnswers` | DHCP_Server/DHCPv4/src/lease_v4.c:728-752 | the expiry turn expires exactly the active leases past their end |
| `Answers4.KnownClientIsOffered` | DHCP_Server/DHCPv4/src/main.c:92-155 | a DISCOVER from a client with a lease is offered the address of its first one |
| `Answers4.NewClientIsOffered` | DHCP_Server/DHCPv4/src/main.c:92-155 | one from a client without is offered what the pool grants, on the address's lease or a new one, or nothing and the address back if the table is full |
| `Answers4.GrantIsNotForeign` | DHCP_Server/DHCPv4/src/ip_pool.c:464-602 | with distinct reservations the pool never grants a client another client's fixed address |
| `Answers4.FixedAddressIsItsOwners` | DHCP_Server/DHCPv4/src/main.c:90-249 | from start-up with distinct clean reservations and a file without foreign leases on them, in every run every lease on a fixed address is its owner's |
| `Answers4.OffersAreNotForeign` | DHCP_Server/DHCPv4/src/main.c:90-249 | so no run ever offers or confirms to one client another client's fixed address |
| `LiveServer4.LeaseTable.FindByIp` | DHCP_Server/DHCPv4/src/lease_v4.c:653-666 | the first lease on the address |
| `LiveServer4.LeaseTable.FindByMac` | DHCP_Server/DHCPv4/src/lease_v4.c:668-681 | the first lease of the hardware address |
| `LiveServer4.LeaseTable.AddLease` | DHCP_Server/DHCPv4/src/lease_v4.c:609-651 | appends an active lease unless the table is full |
| `LiveServer4.LeaseTable.RenewLease` | DHCP_Server/DHCPv4/src/lease_v4.c:703-726 | makes the first lease on the address active with a new end and keeps its owner |
| `LiveServer4.LeaseTable.ReleaseLease` | DHCP_Server/DHCPv4/src/lease_v4.c:683-701 | marks the first lease on the address released |
| `LiveServer4.LeaseTable.ExpireOld` | DHCP_Server/DHCPv4/src/lease_v4.c:728-752 | expires exactly the overdue active leases |
| `LiveServer4.AddressPool.constructor` | DHCP_Server/DHCPv4/src/ip_pool.c:212-337 | range, reservations and leases, in that order, and overdue leases marked |
| `LiveServer4.AddressPool.FillRange` | DHCP_Server/DHCPv4/src/ip_pool.c:231-258 | lays down the range, wrap of the 32-bit counter included |
| `LiveServer4.AddressPool.FollowLeases` | DHCP_Server/DHCPv4/src/ip_pool.c:273-334 | the lease loop |
| `LiveServer4.AddressPool.AllocateIp` | DHCP_Server/DHCPv4/src/ip_pool.c:464-602 | reservation, own entry, requested address, first free one, in that order |
| `LiveServer4.AddressPool.ReleaseIp` | DHCP_Server/DHCPv4/src/ip_pool.c:410-433 | frees an allocated entry |
| `LiveServer4.AddressPool.SyncPass` | DHCP_Server/DHCPv4/src/ip_pool.c:937-975 | the pass over pool and leases |
| `LiveServer4.Server.AllocateAndCreate` | DHCP_Server/DHCPv4/src/ip_pool.c:687-747 | allocates and leases, or rolls back |
| `LiveServer4.Server.Handle` | DHCP_Server/DHCPv4/src/main.c:90-249 | every packet and background turn is the step of the state machine on the live objects |
| `Options4.GetOption` | DHCP_Server/DHCPv4/src/dhcp_message.c:75-115 | in every area whose search stays inside, finds where the value of the first link with the code starts and how long it claims to be; nothing exactly if the cookie is missing or no link has the code |
| `Options4.FirstLinkIsFirst` | DHCP_Server/DHCPv4/src/dhcp_message.c:75-115 | in a well-formed area that is the value of the first option with the code, and lies inside the area |
| `Options4.NoLinkIsNone` | DHCP_Server/DHCPv4/src/dhcp_message.c:75-115 | in a well-formed area without such a link there is no such option |
| `Options4.AddedChain` | DHCP_Server/DHCPv4/src/dhcp_message.c:26-62 | after an addition the chain runs as before to where the option was written and ends behind it |
| `Options4.AddedIsAppended` | DHCP_Server/DHCPv4/src/dhcp_message.c:26-62 | an addition keeps every option and appends the new one if and only if no option starts where the scan stopped or later |
| `Options4.ScanFindsEnd` | DHCP_Server/DHCPv4/src/dhcp_message.c:31-54 | with END before offset 308 an addition fails exactly when the option would not fit behind END |
| `Options4.AddedGrows` | DHCP_Server/DHCPv4/src/dhcp_message.c:26-62 | and otherwise appends, and moves END by 2 plus the length, within 312 bytes |
| `Options4.AddedReads` | DHCP_Server/DHCPv4/src/dhcp_message.c:26-115 | so an absent code becomes readable with exactly its bytes and every other code reads as before |
| `Options4.AdditionCanOverwrite` | DHCP_Server/DHCPv4/src/dhcp_message.c:31-48 | a well-formed area with its cookie on which an addition overwrites an option |
| `Options4.FindEnd` | DHCP_Server/DHCPv4/src/dhcp_message.c:31-48 | where the scan stops, on any bytes |
| `Options4.AddOption` | DHCP_Server/DHCPv4/src/dhcp_message.c:26-62 | on any bytes: writes option and END where the scan stopped, or changes nothing and returns -1 |
| `Options4.GrantReads` | DHCP_Server/DHCPv4/src/dhcp_message.c:144-190 | in an OFFER or ACK message type, mask, router, lease time, server identifier and DNS servers all read back |

## Left out

- Sockets, poll loops, multicast, ICMP probes, signal handlers and the two clients: input and output only. A probe's answer is a function given to the step.
- Text parsing of configuration, lease and zone files, `inet_pton`/`inet_ntop`, and calendar conversion: the models start from records. `Leases6.ReadBack` keeps the one effect that matters, that times do not survive the file, in UTC.
- Failures of file operations: appends and rewrites are taken to succeed; the table-full failure of an add, with its rollbacks, is modelled.
- Fields nothing modelled reads: lease start times, host names, lease and entry ids, last-allocated times, `started`, statistics, and the always-set `in_use` flag of v6 leases.
- `lease_v6_renew_*`, `lease_v6_mark_reserved` and the branch of `lease_v6_set_state` that creates a lease: the server never gets there. `lease_db_cleanup_expired`, `ip_pool_sync_with_leases`, `ip_pool_reserve_ip` and `ip_pool_mark_conflict` of DHCPv4: not reached with the ping check off.
- The iteration guard of 50000 in `ip6_pool_init`: out of reach behind the limit of 4096 entries.
- The single reply builders `dhcpv6_build_ia_na_reply` and `dhcpv6_build_ia_pd_reply`, domain search lists, and the status, SNTP and refresh options on the sending side: `process_packet` does not call them.
- `DNS_Server/DNS_Cache/dns_cache.c`, an older copy of the cache; zone lookup and the rest of DNS responses.
- Statically reserved v6 addresses are exempt from the single-holder claims: `ip6_pool_allocate` hands them to their host whatever the table says.
- Server6.NoAddressGrantedTwice: for pools that share no address and leave out the unspecified one (`Server6.ConfiguredIsSensible`); a pool that repeats another's address does not hear of the other's grants, and `AddressPool.PrefixLeaseFreesUnspecified` shows what happens to the unspecified one.
- Server6.NoPrefixGrantedTwice: for the same pools.
- Server6.OneEntryPerClient: along runs whose grants are all recorded in their clients' names, from a file with no two holdings of a client in a pool; `Nameless6.NamelessDoublesEntry` shows how a client without a DUID breaks it.
- Leases6.LeaseTable.AddLease: takes the empty text or one that reads as a DUID; a text that does not parse, which would leave a half-written slot, does not reach it from the server.
- Identifiers.DuidHexToBin: a sign or a "0x" before the two hex digits, which `sscanf` would skip, is not modelled; `duid_bin_to_hex` writes neither.
- Identifiers.ParseClientId: a text whose last escape is cut off by its end is excluded, because the source reads past it.
- Options4.GetOption: an area whose search comes to a code on its last byte is excluded, because the source reads the length behind the area.
- DnsName.BinaryToText: for bytes that spell a name; `DnsName.DecodingEnds` says which those are, and elsewhere the source does not end or leaves the packet.
- DnsName.Measure: for bytes in which the length bytes lead to a zero, as in every encoded text (`DnsName.EncodedIsClosed`).
- DnsName.TextToBinary: for texts of at most 254 characters, what the source's copy holds.
- DnsCache.Cache.Insert: responses of at most 512 bytes, the size of a node's buffer, which the caller has to respect.
- ThreadPool.LockIsLostWhen: calls made once the last worker has exited are not part of a run; `thread_pool_destroy` may have freed the pool by then.
- ThreadPool.TaskPool.Submit: null arguments and failing lock operations are left out.
- Answers4.OffersAreNotForeign: for distinct clean reservations and a file that gives no fixed address to another client; `Answers4.KnownClientIsOffered` offers a client whatever lease the file has for it.
- Answers4.RangeIsLaidDown: a range that ends at the last address there is fills the pool with 1024 entries past it, which `PoolStart4.RangeSize` models.
- Counters of the v4 pool are unbounded integers in the model; where they are exact they stay between 0 and 1024, so the source's unsigned ones do not wrap.
- The v4 renewal branch renews whatever lease is on the address without looking at the hardware address; it is modelled (`Server4.Step`) but no ownership is claimed for it.
