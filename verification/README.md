# kube-bmlb: a verified model of the load balancer's core

A Dafny 4.11 model of the parts of kube-bmlb where mistakes are easiest to make, with proofs about all
their inputs, all their runs and all their interleavings. `dafny verify dfyconfig.toml` checks everything.

**The LVS reconciler** (`Cluster`, `Ipvs`, `Ipset`, `Adaptor`, `Dump`). `LVSAdaptor.Build` lists what IPVS
and ipset hold and issues deletes and adds until they match what services and endpoints call for. The
handlers are objects over a table; every call may fail without effect, listings come in any order, and so
do Go's maps. The goal, `World.Desired`, is stated declaratively. Proved of `Build`:
convergence from any table, agreement of the two tables, progress under faults, quiescence. Each is false in
general, and each comes with its exact condition:

- A kernel server of a protocol other than TCP and UDP, or one selected by a firewall mark (a *stranger*), is
  listed without a protocol name and taken for a TCP one (`lvs/adaptor/adaptor.go` lines 76-79), so it uses up
  the port of the TCP server it resembles; and no write reaches it, because it is addressed with protocol
  number 0 (`lvs/lvs.go` lines 307-327). Asked for its real servers, the handler may answer with an error or
  with an empty list; both are covered. What a build reaches from a given listing is `Ipvs.Aim`; that is the goal
  for every listing order iff no stranger resembles a wanted server (`ClashExactly`), and a wanted server that is missing is never
  created while its stranger is there (`ClashMissing`).
- Real servers are looked up by the text of their address (compare `lvs/adaptor/adaptor.go` lines 106 and
  174): progress holds iff `World.CoveredBackends`, quiescence iff `World.CanonicalBackends` and there is no
  stranger. Convergence needs neither spelling condition.
- `getTargetPort` compares port numbers only; `ProtocolBackends` says exactly when that picks the right
  backends.

`Syncing` puts the notification protocol and the builds together: once the stores stop changing, the loop
settles both tables within a fixed number of its steps.

**Versions** (`Decimal`, `Version`, `Precedence`, `Gating`). Parser, printer, comparison and the
iptables feature gates. `GenericExactly` and `SemanticExactly` say exactly which texts are accepted, and as what. The
comparison is proved equal to an order on zero-extended component lists followed by an
order on pre-release identifiers, and that one is compared with section 11 of Semantic Versioning 2.0.0: they
agree exactly when the first differing identifiers are not `Opposed`, that is, not a number and other text that string
order puts the other way round, nor two numbers beyond `uint` whose text order opposes their lengths.
`ParseSemantic` admits such identifiers, so the comparison is not an order on everything it
accepts (`NotAnOrder`, `OversizeInverts`), although the package's comment promises the specification's algorithm. The comments
also promise that trailing white space is ignored; a trailing newline is not (`PaddedRoundTrip`).

**The bitmap allocator** (`Words`, `Bits`, `BitsRuns`). A sequential class over 32-bit words that refines a
set of ordinals, and a transition system in which any number of threads interleave loads and
compare-and-swaps. On a full range that ends at the largest `int32` the sequential `Allocate` hands out
ordinals outside its range and then panics; its contract says exactly when.

**iptables text and the sync loop** (`Lines`, `Rules`, `FixedPoints`, `NormalForms`, `SaveFormat`, `SavedLines`,
`FakeIptables`, `LineKinds`, `FakeClass`, `SaveRestore`, `SyncLoop`, `Syncing`). The line reader, the rule normaliser,
the fake iptables with its save and restore, and the notification protocol between the watch handlers and the loop that builds.

`Strings` holds the few operations of Go's library the rest leans on, with their laws.

## Model

| member | source | states |
|---|---|---|
| `Adaptor.LVSAdaptor.Build` | lvs/adaptor/adaptor.go:39-136 | from any IPVS table, strangers included, and any set: a build in which no call fails ends in exactly what its listing lets it reach, which is the desired table if no stranger clashes, and in the desired entries; (VIP, protocol, port) is an entry iff that virtual server exists or a stranger keeps it out of reach; whatever fails, every write goes towards the goal, iff addresses are covered; on settled tables, where no stranger clashes, no write is issued iff addresses are canonical and there is no stranger; with the goal read off the fields: a server exists iff a service declares its protocol and port at the VIP, a real server stands behind it iff it is the parsed address and named port of some address of some matching subset, and the entries are the VIP's text with `,tcp:` or `,udp:` and the port, one for each declared TCP or UDP port and no others |
| `Adaptor.Rounds` | lvs/adaptor/adaptor.go:68-145 | over any number of builds on fixed inputs with any failures, the differences of both tables from the goal never grow, no more writes take effect than there were differences, and with fewer faults than builds, so that one was free of them, the table is the goal at the end; the same for the set |
| `Adaptor.Closer` | lvs/adaptor/adaptor.go:68-145 | any extension of a call log by calls that go the right way leaves a difference contained in the earlier one, and none if there was none |
| `Adaptor.SetCloser` | lvs/adaptor/iptables.go:61-75 | the same for the entries of the set |
| `Adaptor.Round` | lvs/adaptor/adaptor.go:68-145 | one of those builds: no step back on either table, and from the goal it does not move even if calls fail |
| `Adaptor.Agreement` | lvs/adaptor/adaptor.go:56-136 | the expected entries are those of the servers a listing lets a build reach and of the wanted ones a stranger keeps out of reach |
| `Adaptor.GroupServices` | lvs/adaptor/adaptor.go:41-55 | the port maps hold exactly the declared (protocol, port) pairs, each with exactly the services that declare it, and every service has an empty endpoints slot |
| `Adaptor.FileService` | lvs/adaptor/adaptor.go:51-54 | filing one more service turns port maps for the earlier services into port maps for all of them |
| `Adaptor.AttachEndpoints` | lvs/adaptor/adaptor.go:57-67 | each slot ends up with exactly the endpoints of its namespace and name |
| `Adaptor.BuildIpvs` | lvs/adaptor/adaptor.go:68-135 | the IPVS half of the four properties, for any listing order |
| `Adaptor.SyncExisting` | lvs/adaptor/adaptor.go:73-118 | after the first pass every listed server agrees with what the listing lets a build reach if no call failed, nothing new exists, and the port maps hold exactly the wanted servers that no listed one stands for; no call is issued on a settled table only if every stranger drained a wanted port |
| `Adaptor.SyncOne` | lvs/adaptor/adaptor.go:75-117 | one listed server is brought to the goal or removed, no other server is touched, and its port is drained |
| `Adaptor.SyncStranger` | lvs/adaptor/adaptor.go:75-117 | a server without a protocol name changes nothing in the table but drains the TCP port of its number and draws an add per expected entry, unless its real servers cannot be listed, or draws a delete; none of these calls can take effect |
| `Adaptor.AddToStranger` | lvs/adaptor/adaptor.go:138-145 | one refused add per expected entry, nothing else |
| `Adaptor.SyncRealServers` | lvs/adaptor/adaptor.go:98-116 | the real servers of one virtual server become the parsed addresses of its backends; no wanted one is deleted iff addresses are covered; no call is made on a settled server iff they are canonical |
| `Adaptor.DeleteStale` | lvs/adaptor/adaptor.go:104-114 | deletes exactly the listed servers whose text is not expected, and leaves exactly the expected ones that were not listed |
| `Adaptor.KeptAndAdded` | lvs/adaptor/adaptor.go:104-116 | what is kept and what is left to add are together exactly the expected servers, although lookup is by text |
| `Adaptor.StaleExactly` | lvs/adaptor/adaptor.go:106-110 | no wanted server counts as stale if addresses are covered, and on a settled table some does if they are not |
| `Adaptor.NotStruckOff` | lvs/adaptor/adaptor.go:106-112 | an address not in canonical text is never struck off, so it is added again on every build |
| `Adaptor.CreateMissing` | lvs/adaptor/adaptor.go:120-135 | creates exactly the wanted servers of one protocol that do not exist, with their real servers, and touches nothing else |
| `Adaptor.CreateAll` | lvs/adaptor/adaptor.go:120-135 | the two protocols in turn: what the first pass left missing is created, and nothing else is touched |
| `Adaptor.CreateOne` | lvs/adaptor/adaptor.go:127-133 | one missing server is created with exactly its backends unless a call fails |
| `Adaptor.AddRealServers` | lvs/adaptor/adaptor.go:138-145 | one call per expected entry in any order; without a failure the server gains exactly the expected ones |
| `Adaptor.GetExpectRSs` | lvs/adaptor/adaptor.go:147-158 | the map holds exactly the backends of the services at that port, each under its own text; which these are, `Cluster.BackendMember` says |
| `Adaptor.AddExpectRS` | lvs/adaptor/adaptor.go:160-179 | adds exactly the backends one service puts behind the port, every address of every matching subset |
| `Cluster.GetTargetPort` | lvs/adaptor/adaptor.go:181-191 | the first port of that number whatever its protocol, none iff there is none |
| `Cluster.GetTargetIntPort` | lvs/adaptor/adaptor.go:193-200 | the number of the first subset port of that name, 0 if there is none |
| `Cluster.DesiredMember` | lvs/adaptor/adaptor.go:41-67 | field by field: a virtual server is wanted iff it is at the VIP and some service declares its protocol and port; a real server is wanted behind it iff some service that declares it, some endpoints of that namespace and name, some subset of them, some address in it, whichever one, and the first subset port named like the service's first port of that number, if not 0, make it |
| `Cluster.BackendMember` | lvs/adaptor/adaptor.go:160-179 | an address and a port number are a backend of a service iff a matching subset has the address, among any others, and that port under the name of the target port |
| `Adaptor.TableWritten` | lvs/adaptor/adaptor.go:39-136 | the goal table as a whole is the one so called for |
| `Cluster.ProtocolBackends` | lvs/adaptor/adaptor.go:181-200 | a service's backends are those of the port it declares for the protocol, whatever the endpoints, iff the first port of the number and the first of number and protocol have the same name |
| `Cluster.OneProtocolPerNumber` | lvs/adaptor/adaptor.go:181-191 | a service that uses no number for two protocols meets that condition |
| `Cluster.DesiredOrderIndependent` | lvs/adaptor/adaptor.go:45-67 | the goal is the same for any order and repetition of services and endpoints |
| `Cluster.PermutationSameElements` | lvs/adaptor/adaptor.go:45-67 | in particular for permutations |
| `Cluster.KeyInjective` | lvs/adaptor/adaptor.go:106-174 | the `%s:%d` text a real server is filed under determines address text and port |
| `Cluster.RespeltUncovered` | lvs/adaptor/adaptor.go:106-174 | one service with one endpoint in any other spelling is an input on which progress fails |
| `Adaptor.BuildIptables` | lvs/adaptor/iptables.go:35-76 | the set ends with exactly the entries of the wanted servers unless a call fails, with the texts written out: the VIP's text, `,tcp:` or `,udp:`, and the port; every write is towards them, and none is issued on a settled set |
| `Adaptor.ExpectedEntries` | lvs/adaptor/iptables.go:46-55 | one entry per (protocol, port) of the port maps |
| `Adaptor.SyncEntries` | lvs/adaptor/iptables.go:56-75 | deletes what is not expected and adds what is missing, in any listing order |
| `Adaptor.EntryMeansServer` | lvs/adaptor/iptables.go:46-55 | an entry is expected iff its virtual server is desired |
| `Ipset.EntryTextInjective` | utils/ipset/ipset.go:265-268 | a hash:ip,port entry's text determines address, protocol and port |
| `Ipset.EntryTextIs` | utils/ipset/ipset.go:265-268 | the text of a TCP and of a UDP entry, letter by letter |
| `Adaptor.EntriesWritten` | lvs/adaptor/iptables.go:46-55 | the entries of a set of servers at one address are exactly these texts, `tcp` for TCP and `udp` for UDP |
| `Adaptor.WorldWritten` | lvs/adaptor/iptables.go:46-55 | those of the wanted servers are the texts of the TCP ports and the UDP ports some service declares |
| `Ipset.Progress` | lvs/adaptor/iptables.go:61-75 | writes in the right direction never move the set away from its goal, whichever of them fail |
| `Ipvs.Progress` | lvs/adaptor/adaptor.go:68-145 | along any log of right calls each one that takes effect strictly shrinks the difference, so their number is bounded by it |
| `Ipvs.ClashExactly` | lvs/adaptor/adaptor.go:76-96 | the goal is within reach for every listing order iff no stranger resembles a wanted TCP server |
| `Ipvs.ClashMissing` | lvs/adaptor/adaptor.go:76-134 | a wanted server that does not exist is out of reach of every build while its stranger is there |
| `Ipvs.NoClashAim` | lvs/adaptor/adaptor.go:76-96 | without a clash no wanted server is shadowed in any listing |
| `Ipvs.RightMoveShrinks` | lvs/adaptor/adaptor.go:83-141 | the same for each of the four kinds of write |
| `Ipvs.DiffEmpty` | lvs/adaptor/adaptor.go:68-135 | the difference is empty iff the tables are equal |
| `Ipvs.Handler.Write` | lvs/lvs.go:110-204 | a write takes effect only where the kernel allows it, and then adds or removes the one server or real server it names; it is logged, and leaves the table alone when it fails |
| `Ipvs.Handler.GetVirtualServers` | lvs/lvs.go:157-171 | a snapshot in any order that shows each server once and each stranger as often as there are such, or a failure |
| `Ipvs.SameListings` | lvs/lvs.go:157-171 | any two listings of the same state show the same servers equally often |
| `Ipvs.Handler.GetRealServers` | lvs/lvs.go:207-226 | the real servers of one server, once each, or a failure; for a server the kernel does not find, an empty list or a refusal |
| `Dump.Dump` | lvs/lvs.go:332-369 | the text is a function of the table and the strangers alone, whatever the listing orders; it fails only if a call fails or the list of a stranger's real servers is refused |
| `Dump.DumpFaithful` | lvs/lvs.go:332-369 | two states print the same text only if they have the same table and the same strangers, equally often |
| `Dump.HeadsAre` | lvs/lvs.go:338-344 | the sorted texts are the same from every listing |
| `Dump.ServerTextInjective` | lvs/lvs.go:70-72 | a virtual server's text determines it, brackets included |
| `Dump.RealTextInjective` | lvs/lvs.go:81-83 | so does a real server's |
| `Dump.ItemTextInjective` | lvs/lvs.go:70-72 | so does the text of whatever a listing shows, strangers included |
| `Dump.ServerShown` | lvs/lvs.go:332-369 | every listed server is in the dump: its address, in brackets if it has a colon or a percent sign, its port, `/TCP` or `/UDP` (for a stranger `/` alone) on a line, then its real servers in order, each once behind an arrow, then a blank line |
| `Version.Parse` | utils/version/version.go:42-86 | the parser's loops compute `ParseVersion`, error cases included |
| `Version.ReadComponents` | utils/version/version.go:54-67 | the component loop |
| `Version.ReadExtra` | utils/version/version.go:69-85 | pre-release, build metadata and the leading-zero check |
| `Version.Print` | utils/version/version.go:160-179 | the printing loop computes `Show` |
| `Version.ParseWellFormed` | utils/version/version.go:42-86 | every parsed version has the right number of components, components that fit `uint`, and valid identifiers |
| `Version.PaddedRoundTrip` | utils/version/version.go:36-86 | with spaces and a `v` in front and spaces behind, a printed version parses back to itself iff no newline follows it |
| `Version.RoundTrip` | utils/version/version.go:42-179 | parsing what is printed gives back any well-formed version, in its mode |
| `Version.ReparsePrinted` | utils/version/version.go:42-179 | for every text that parses, printing and parsing again in the same mode changes nothing |
| `Version.GenericExactly` | utils/version/version.go:36-86 | exactly what `ParseGeneric` accepts and as what: spaces, perhaps a `v`, two or more numerals that fit 64 bits with dots between, the first without a spare zero, then anything on the same line that does not carry the numerals on |
| `Version.SemanticExactly` | utils/version/version.go:36-86 | exactly what `ParseSemantic` accepts and as what: the printed text of a well-formed version with spaces and perhaps a `v` in front and spaces but no newline behind |
| `Version.SpareZeroRefused` | utils/version/version.go:59-61 | a component with a spare leading zero is refused, the first one in either mode and any one in a semantic version |
| `Precedence.CompareInternal` | utils/version/version.go:183-249 | the loops compute the declarative comparison: first difference of zero-extended components, then pre-release; with tied components a semantic version that has a pre-release is below one that has none |
| `Precedence.ComponentsDecide` | utils/version/version.go:183-206 | at the first place where the components, absent ones being zero, differ, the smaller one makes its version the lower, for the code and for section 11 |
| `Precedence.PreReleasesDecide` | utils/version/version.go:204-248 | between equal components, for the code and for section 11: a pre-release is below the release; the first identifiers that do not tie decide; a proper prefix is below the longer list |
| `Precedence.PairVerdicts` | utils/version/version.go:220-238 | which of two identifiers is below, for the code (both within `uint`: by value, otherwise as text) and for section 11 (numbers by value and below all other text, which goes as text) |
| `Precedence.GenericTie` | utils/version/version.go:204-206 | unless both versions are semantic, equal components are a tie |
| `Precedence.CompareIdentifiers` | utils/version/version.go:217-248 | the identifier loop is lexicographic comparison by `CompareId` |
| `Precedence.OnlyZeros` | utils/version/version.go:252-259 | true iff every element is zero |
| `Precedence.GenericOrder` | utils/version/version.go:183-206 | on components: antisymmetric, transitive, total, tied iff equal after zero extension |
| `Precedence.TrailingZeros` | utils/version/version.go:196-202 | zeros at the end make no difference |
| `Precedence.PrecedenceTotal` | utils/version/version.go:204-249 | section 11 is a strict total order up to build metadata |
| `Precedence.AgreesExactly` | utils/version/version.go:204-249 | for parsed versions whose numeric identifiers have no leading zero, of any size, the code agrees with section 11 iff the first differing identifiers are not opposed: a number against other text that string order inverts, or two numbers not both within `uint` whose text order opposes their lengths |
| `Precedence.NumbersByLength` | utils/version/version.go:220-238 | canonical numbers compare by length first and by text when lengths are equal, so comparing as text is wrong exactly across lengths |
| `Precedence.IdAgrees` | utils/version/version.go:220-238 | the same iff for one pair of identifiers, and ties are identity in both orders |
| `Precedence.LettersAgree` | utils/version/version.go:217-239 | versions whose identifiers are numbers within `uint` or start with a letter are compared as section 11 says |
| `Precedence.SemanticOrder` | utils/version/version.go:183-249 | on them the code's comparison is a strict total order up to build metadata |
| `Precedence.ParsedUsual` | utils/version/version.go:76-82 | parsing leaves no number with a spare zero when numbers fit `uint` |
| `Precedence.NotAnOrder` | utils/version/version.go:219-238 | 9 < 10 < 1a < 9 |
| `Precedence.OversizeInverts` | utils/version/version.go:220-238 | 1.0.0-9 is put above 1.0.0-n for every number n of more than 20 digits that starts below 9, against section 11 |
| `Precedence.TieMeansIdentical` | utils/version/version.go:204-248 | two parsed semantic versions compare equal iff components and pre-release text are identical |
| `Gating.HasCheckCommand` | utils/iptables/iptables.go:550-562 | granted iff the text is no version or its components are not below 1, 4, 11 |
| `Gating.WaitFlag` | utils/iptables/iptables.go:565-591 | `[]` iff the text is no version or below 1.4.20, `["-w"]` iff it is from there and below 1.4.22, `["-w5"]` iff it is from there |
| `Gating.ConstantsParse` | utils/iptables/iptables.go:125-129 | the three constants parse, so their error branches are dead |
| `Gating.GatesMonotone` | utils/iptables/iptables.go:550-591 | a later version is granted every feature an earlier one is, and a wait flag implies the check flag |
| `Bits.Bits.constructor` | utils/bits/bits.go:12-17 | bounds in order whichever way they are given, and no ordinal allocated |
| `Bits.Bits.Allocate` | utils/bits/bits.go:23-33 | hands out the least free ordinal and adds just that one; nil iff the range is full and ends below the largest `int32`; on a full range that ends there it hands out the spare bits of the last word as ordinals outside the range, and panics iff none is free |
| `Bits.Bits.Allocated` | utils/bits/bits.go:35-43 | succeeds iff the ordinal is in range and free, and then claims it |
| `Bits.Bits.Revoke` | utils/bits/bits.go:45-53 | succeeds iff the ordinal is held, and then frees it |
| `Bits.Bits.Swap` | utils/bits/bits.go:25-30 | load and compare-and-swap at the bit level change that bit only, and succeed iff it changes |
| `Bits.Bits.Scan` | utils/bits/bits.go:24-32 | the loop with its wrapping counter stops at the first free bit, at the end of the range, or out of the bitmap |
| `BitsRuns.StepFlips` | utils/bits/bits.go:23-53 | a step changes the bit of an ordinal iff it is a successful swap at that ordinal, even when the word it loaded is out of date |
| `BitsRuns.RunExtends` | utils/bits/bits.go:23-53 | every enabled step extends a run to a run |
| `BitsRuns.BitmapIsOutstanding` | utils/bits/bits.go:23-53 | in every reachable state of every interleaving the bitmap is the set of outstanding allocations |
| `BitsRuns.NoDoubleAllocation` | utils/bits/bits.go:23-53 | between two successful allocations of an ordinal there is a successful revocation |
| `BitsRuns.NoDoubleRevocation` | utils/bits/bits.go:45-53 | and the other way round |
| `BitsRuns.Alone` | utils/bits/bits.go:35-53 | from any reachable state, a call left alone for its steps succeeds iff the bit is not yet the way it wants it |
| `BitsRuns.FailureCause` | utils/bits/bits.go:25-30 | when an attempt fails, the bit was already so at the load or another thread succeeded on the same word since |
| `BitsRuns.NilExplained` | utils/bits/bits.go:23-33 | when `Allocate` returns nil, that disjunction holds for every ordinal in range, for attempts of that very call: the thread starts nothing else in between |
| `SyncLoop.InvStep` | server/bmlb/bmlb.go:87-105 | every step of loop, store or handler keeps the protocol's invariant |
| `SyncLoop.InvRun` | server/bmlb/bmlb.go:87-105 | so does every run |
| `SyncLoop.NoLostNotification` | server/bmlb/handler.go:65-73 | in every interleaving a notified change newer than the last list has a token waiting, or the loop is past its receive and before that list, or still starting; startup is stuck iff two notifications land before the first send |
| `SyncLoop.CanGetStuck` | server/bmlb/bmlb.go:92-93 | two notifications between making the channel and the first send do get it stuck |
| `SyncLoop.StuckForever` | server/bmlb/bmlb.go:92-93 | a stuck startup never lists anything again |
| `SyncLoop.NeverWaitsForTick` | server/bmlb/bmlb.go:95-99 | otherwise a pending change always leaves the loop a step other than the tick |
| `SyncLoop.Delivered` | server/bmlb/bmlb.go:95-104 | within a fixed number of loop steps, interleaved with anything, every earlier change is listed |
| `Syncing.Syncing` | server/bmlb/bmlb.go:87-105 | from any state of the loop, after the last change and within a fixed number of loop steps interleaved with any notifications, if no call fails, the IPVS table (if no stranger clashes) and the set are what the final stores call for |
| `Syncing.BuildOnce` | server/bmlb/bmlb.go:101-102 | one build from the lists held |
| `Lines.ReadLine` | utils/iptables/save_restore.go:64-110 | with a newline ahead, the line up to it without the spaces around it and the index just after it; on an unterminated last line exactly what survives of it; always moves forward |
| `Lines.LastLineTrimmed` | utils/iptables/save_restore.go:83-109 | what survives of an unterminated line has no space at either end |
| `Lines.LastLineLost` | utils/iptables/save_restore.go:64-110 | an unterminated line of a single character, or one that ends in a space, is read as nothing |
| `Lines.LastLineKept` | utils/iptables/save_restore.go:64-110 | any other is read whole, unless its last character follows a space; then that character is lost |
| `Lines.RawUnlines` | utils/iptables/save_restore.go:64-110 | lines written with newlines are the lines read |
| `Lines.TrimUnique` | utils/iptables/save_restore.go:67-103 | what trimming leaves is determined by having no space at either end |
| `SaveFormat.GetChainLines` | utils/iptables/save_restore.go:31-62 | on any text the two loops compute the chain map of the lines read, and the case in which the slice expression panics |
| `SaveFormat.ReadBack` | utils/iptables/testing/fake_iptables.go:246-267 | read on what `SaveInto` writes of one table, the map sends exactly each chain to its chain line, iff no chain name has a space and the table name does not end in one, or there are no chains |
| `SaveFormat.ReadBackFirst` | utils/iptables/save_restore.go:35-61 | from a buffer of several saved tables, the chains of the first whose name starts with the wanted one come back, each under the first word of its name, or none |
| `SaveFormat.ReadBackExactly` | utils/iptables/save_restore.go:35-61 | the wanted table's own chains come back iff the first table whose name starts with its own, itself or another, has the same chain names and none of them has a space |
| `SaveFormat.ShownExactly` | utils/iptables/save_restore.go:54-59 | the map read from one table is the one of another's chains iff the names are the same and none has a space |
| `SaveFormat.SavedAllLines` | utils/iptables/testing/fake_iptables.go:246-267 | tables saved one after another into one buffer split back into the lines written, for both readers |
| `SavedLines.SavedAs` | utils/iptables/testing/fake_iptables.go:246-267 | letter by letter: `*` and the name, `:c - [0:0]` for each chain in the order of their names, `-A c r` for each rule of each chain in the same order, `COMMIT` |
| `SavedLines.Started` | utils/iptables/save_restore.go:36-43 | reading starts just behind the first line that begins, spaces aside, like the wanted table's |
| `SavedLines.NeverStarted` | utils/iptables/save_restore.go:36-43 | and not at all if there is no such line |
| `SavedLines.ChainRead` | utils/iptables/save_restore.go:54-59 | a chain's line is filed, without the spaces around it, under the name between its colon and its first space |
| `SavedLines.BadChainRead` | utils/iptables/save_restore.go:54-59 | one without a space makes the slice expression panic |
| `SavedLines.EndRead` | utils/iptables/save_restore.go:50-51 | a line that begins with COMMIT or a star ends the reading |
| `SavedLines.OtherRead` | utils/iptables/save_restore.go:44-60 | an empty line, a comment, a lone colon, a rule and any other line are passed over |
| `Rules.NormalizeRule` | utils/iptables/testing/fake_iptables.go:170-209 | the loop computes `Normalize`, with the mismatched-quote error and the index panic on an empty rest |
| `Rules.NormalizeIdempotent` | utils/iptables/testing/fake_iptables.go:170-209 | an accepted rule whose only white space is the space is a fixed point once normalised, and fits on one line |
| `FixedPoints.FixedPointsAre` | utils/iptables/testing/fake_iptables.go:170-209 | for every text: the normaliser leaves it alone iff it is settled arguments (quoted or free of spaces, trimmed, no address, no leading `--to-destination=`) with single spaces between them |
| `FixedPoints.IdempotentExactly` | utils/iptables/testing/fake_iptables.go:170-209 | for every accepted rule that hides no quote: normalising again changes nothing iff no argument found is an address or starts with `--to-destination=`; and the result is one line iff every argument is |
| `FixedPoints.IdempotentAlways` | utils/iptables/testing/fake_iptables.go:170-209 | for every accepted rule, quotes hidden or not: normalising again changes nothing iff the scanner would cut the arguments found, joined, into the same arguments |
| `FixedPoints.HiddenQuoteBreaks` | utils/iptables/testing/fake_iptables.go:180-202 | a rule in which a tab hides a quote, accepted at first and refused the second time |
| `FixedPoints.QuoteFree` | utils/iptables/testing/fake_iptables.go:180-185 | a rule without a double quote hides none |
| `FixedPoints.JoinUnique` | utils/iptables/testing/fake_iptables.go:199-202 | a text is made of quoted or plain arguments in one way only |
| `Rules.TabBreaks` | utils/iptables/testing/fake_iptables.go:176-202 | a rule with a tab that is not |
| `NormalForms.NormalizesEach` | utils/iptables/testing/fake_iptables.go:170-209 | a rule of arguments that are quoted or free of spaces becomes those arguments with single spaces between them, each trimmed, and each address `a` as `a/32` |
| `NormalForms.DestinationSplit` | utils/iptables/testing/fake_iptables.go:176-178 | behind any such arguments `--to-destination=x` is taken for `--to-destination x` |
| `NormalForms.NothingPanics` | utils/iptables/testing/fake_iptables.go:170-180 | a rule of nothing but white space makes it index out of range |
| `NormalForms.OpenQuoteRefused` | utils/iptables/testing/fake_iptables.go:180-184 | in front or behind any such arguments, a quote without its mate is the error |
| `NormalForms.StrayPanics` | utils/iptables/testing/fake_iptables.go:180-208 | in front or behind any such arguments, a last quoted one with one more character behind its closing quote makes it index out of range |
| `NormalForms.RequestStored` | utils/iptables/testing/fake_iptables.go:170-221 | from the arguments of `EnsureRule` to the rule stored: those with a space in quotes, an address with `/32`, the others trimmed |
| `FakeIptables.WithRuleKeeps` | utils/iptables/testing/fake_iptables.go:144-168 | adding a rule keeps every chain duplicate-free, and tidy |
| `FakeIptables.RestoreLinesKeeps` | utils/iptables/testing/fake_iptables.go:269-346 | so does restoring any text, however it ends |
| `FakeIptables.WithRuleChanges` | utils/iptables/testing/fake_iptables.go:144-168 | the chain is there afterwards with its old rules and, if the normal form is not among them, that in front of them for `Prepend` and behind them for `Append`; nothing else changes, and a refused rule adds nothing |
| `LineKinds.TableLine` | utils/iptables/testing/fake_iptables.go:283-285 | a line `*t` selects the table, whatever it is, and changes nothing |
| `LineKinds.ChainLine` | utils/iptables/testing/fake_iptables.go:290-305 | a line `:c` leaves the chain there, with its rules iff it had any, nothing is flushed, and it is built in or the text has `-X c`; nothing else changes |
| `LineKinds.RuleLine` | utils/iptables/testing/fake_iptables.go:306-327 | `-A c rule` puts the normal form behind the rules of the chain, `-I c rule` in front, unless it is among them; a bad rule ends the restoration; nothing else changes |
| `LineKinds.ShortRuleLine` | utils/iptables/testing/fake_iptables.go:306-320 | a rule line of fewer than three fields is refused |
| `LineKinds.DeleteLine` | utils/iptables/testing/fake_iptables.go:328-335 | `-X c` deletes that chain and nothing else, and is refused if there is none |
| `LineKinds.ShortDeleteLine` | utils/iptables/testing/fake_iptables.go:328-332 | `-X` without a second field is refused |
| `LineKinds.CommitLine` | utils/iptables/testing/fake_iptables.go:336-341 | COMMIT ends the restoration of the one table asked for, and otherwise leaves none selected |
| `LineKinds.IdleLine` | utils/iptables/testing/fake_iptables.go:278-342 | comments, lines of a table not asked for and lines of no known kind do nothing |
| `FakeClass.FakeIPTables.constructor` | utils/iptables/testing/fake_iptables.go:47-62 | starts with exactly the built-in chains, empty |
| `FakeClass.NewTablesAre` | utils/iptables/testing/fake_iptables.go:47-62 | a chain is there at first iff it is one of the twelve pairs, and then it is empty |
| `FakeClass.WithoutRuleChanges` | utils/iptables/testing/fake_iptables.go:134-142 | the first rule of that text is taken out, everything else stays; without one nothing changes |
| `FakeClass.FakeIPTables.EnsureChain` | utils/iptables/testing/fake_iptables.go:90-114 | adds the chain, and its table, if absent, and says whether it was there; nothing else changes |
| `FakeClass.FakeIPTables.FlushChain` | utils/iptables/testing/fake_iptables.go:116-123 | empties an existing chain, fails on another; nothing else changes |
| `FakeClass.FakeIPTables.DeleteChain` | utils/iptables/testing/fake_iptables.go:125-132 | removes an existing chain, fails on another; nothing else changes |
| `FakeClass.FakeIPTables.AddRule` | utils/iptables/testing/fake_iptables.go:144-168 | if the normal form is not in the old rules of the chain, the new rules are that in front of them for `Prepend` and behind them for `Append`, and otherwise the old ones; also when the rule is refused, and the chain stays even then; nothing else changes |
| `FakeClass.FakeIPTables.EnsureRule` | utils/iptables/testing/fake_iptables.go:211-221 | the same for arguments, those with spaces quoted |
| `FakeClass.FakeIPTables.DeleteRule` | utils/iptables/testing/fake_iptables.go:223-234 | drops the first rule equal to the joined arguments, if there is one; nothing else changes |
| `FakeClass.EnsureRuleIdempotent` | utils/iptables/testing/fake_iptables.go:144-168 | asking again finds the rule and changes nothing |
| `FakeClass.DeleteUndoesEnsure` | utils/iptables/testing/fake_iptables.go:211-234 | `DeleteRule` takes back a rule just added iff the joined arguments are their own quoted normal form |
| `FakeClass.FakeIPTables.SaveInto` | utils/iptables/testing/fake_iptables.go:240-267 | appends the table's text, a function of the table whatever the map order; fails iff there is no such table |
| `FakeClass.FakeIPTables.Restore` | utils/iptables/testing/fake_iptables.go:269-354 | new tables and outcome are those of restoring the lines of the text one by one: refused and panicked exactly where a line is; chains stay distinct and tidy |
| `SaveRestore.RestoreSavedThen` | utils/iptables/testing/fake_iptables.go:246-346 | restoring a saved table into any tables, wherever it stands in the buffer, leaves other tables and chains alone; each saved chain is what its chain line left followed by the normal forms of the saved rules that were missing; then the rest of the buffer is read unless only this table was asked for; if the normaliser refuses a rule, restoring fails |
| `SaveRestore.RestoreSaved` | utils/iptables/testing/fake_iptables.go:246-346 | the same for a buffer that holds one saved table |
| `SaveRestore.RestoresExactly` | utils/iptables/testing/fake_iptables.go:290-327 | a saved table of distinct normalised rules is reproduced iff every chain that is not emptied on the way holds a prefix of the saved rules |
| `SaveRestore.RestoresWhenFilled` | utils/iptables/testing/fake_iptables.go:290-327 | any saved table is reproduced iff the saved rules, normalised and appended one by one where missing, fill every chain up to what was saved |
| `SaveRestore.FillAppends` | utils/iptables/testing/fake_iptables.go:144-168 | appending distinct rules yields them as they stand iff each is its own normal form |
| `SaveRestore.FillSame` | utils/iptables/testing/fake_iptables.go:144-168 | appending rules leaves a chain alone iff it holds all their normal forms |
| `SaveRestore.RefillExact` | utils/iptables/testing/fake_iptables.go:150-168 | appending distinct rules to a chain yields exactly them iff the chain was a prefix of them |
| `SaveRestore.RestoreOwnSave` | utils/iptables/testing/fake_iptables.go:246-354 | restoring the text of any of one's own tables, saved one after another into one buffer, to one of them, another or all, flushing or not, changes nothing |
| `SaveRestore.RestoreOwnExactly` | utils/iptables/testing/fake_iptables.go:246-346 | tidy or not: restoring the text of one's own table to it changes nothing iff every rule is its own normal form or, in a chain that is not emptied on the way, has its normal form in the chain |

## Left out

- The constant iptables rules and the sysctl of `Build`: calls to foreign programs that no property here depends on.
- Weights, schedulers, flags and timeouts of IPVS servers: `Build` never reconciles them; real servers are compared by address and port.
- Service protocols other than TCP and UDP, and ports outside `uint16`: the Kubernetes API admits neither for these services. Kernel servers of another protocol are modelled, as strangers.
- Adaptor.Rounds: supposes that no stranger clashes with the goal and that addresses are covered, the exact conditions under which a build reaches its goal and makes progress.
- `net.ParseIP` and `IP.String`: parameters with one law, that reading a printed address gives it back; for `DumpFaithful` also that a printed address has no newline, and for the normaliser that what parses is made of hexadecimal digits, dots and colons.
- Go's regular expressions and `sort.Strings`: written as direct scanners, and as the sorted permutation that is proved unique.
- Bytes: text is a sequence of characters, so invalid UTF-8 is not modelled.
- Ipvs.Handler.Write: one method for the four write calls of the interface, which differ only in the entry they name.
- Ipvs.Handler.GetVirtualServers: does not model a kernel that reports a server without its hashed flag, which is one more way for the call to fail.
- SaveFormat.ReadBack: names and rules have no newline; with one, lines cannot be told apart. The same holds of ReadBackExactly and SavedAllLines.
- NormalForms.NormalizesEach: for rules whose arguments are quoted or free of spaces, have no destination to split and are separated by single spaces; what is found in any rule, `FixedPoints` speaks of. RequestStored has the same conditions, and supposes arguments without quotes of their own.
- Rules.NormalizeIdempotent: the sufficient condition on the rule's text; the exact ones are `FixedPointsAre` and `IdempotentExactly`.
- FixedPoints.IdempotentExactly: the condition argument by argument, for rules that hide no quote; `IdempotentAlways` has the condition for all.
- Precedence.AgreesExactly: leaves out numeric identifiers beyond `uint` with a leading zero, which the parser lets through and for which section 9 of Semantic Versioning 2.0.0 leaves section 11 undefined.
- SaveRestore.RestoreSavedThen: chain names have no space or newline; with one, a rule line names another chain. The same holds of RestoreSaved, RestoresWhenFilled and RestoreOwnExactly.
- SaveRestore.RestoresExactly: saved rules are also normalised and distinct, which every operation of the fake keeps when it is given rules without other white space; the other members named here do without.
- SaveRestore.RestoreOwnSave: tables are tidy, that is, names and rules are as just said; `RestoreOwnExactly` has the exact condition on the rules, for a buffer with one table.
- Bits.Bits.constructor: the range must fit `int32`; on a wider one the subtraction overflows.
- BitsRuns.NilExplained: a full range that ends at the largest `int32`, where `Bits.Bits.Allocate` goes on into the spare bits instead of returning nil, is outside the transition system; with `count` taken as the number of all bits the other results of `BitsRuns` speak of it too.
- BitsRuns.FailureCause: calls on ordinals out of range are not events of the transition system, since they touch no word.
- `checkRuleWithoutCheck` and the rest of the iptables runner: half-measures by the source's own account, and calls to foreign programs.
- Informers, `updateSvcs`, `filter`, `skipServiceUpdate`: library behaviour that is not in the repository, or easy members. `SyncLoop` speaks of notified changes only.
- `FakeIPVS` and `FakeIPSet`: the first hands out its live slice and shifts it under the caller's loop, so it does not meet the contract of the real runner.
- HAProxy templates, adaptor and process control: text templating and file writes.
- `lvs/adaptor/adaptor_test.go` uses names that `api/api.go` does not declare; the code is what is modelled.
