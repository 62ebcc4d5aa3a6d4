# vpsmgr, verified

vpsmgr runs containers for many accounts on one host. This project models the parts of it in which several things
have to stay in agreement while any step may fail, and proves what keeps them in agreement. Every call to the
container runtime, the database or the system is a step that succeeds or fails as a whole; which ones fail is an
input (a record or a set of failing steps), so each contract determines the state after every combination of
failures, and the results over runs quantify over all of them.

| file | what it models |
|---|---|
| `Lifecycle.dfy`, `Allocation.dfy` | creating, deleting and reinstalling an account over rows, live containers and firewall files; the slot, SSH-port and block allocators |
| `Ownership.dfy`, `Firewall.dfy` | the forwarding rules of an account, and which account a port belongs to over whole runs |
| `Publish.dfy`, `Routing.dfy` | publishing a proxy generation (directories, a link, a counter, pruning), and the text of a generation with the reader of that text |
| `Announcer.dfy` | the announcement queue with its wake channel under every interleaving; which blocks a pass announces, and how far apart |
| `Advertisement.dfy`, `Bytes.dfy` | the Neighbor Advertisement frame and the Internet checksum |
| `Address.dfy`, `ExtraBlocks.dfy` | byte-level IPv6 arithmetic; the /64 allocator with its bounded scan |
| `NdpRules.dfy` | the responder's rules file, printed and read back |
| `CpuLimit.dfy` | the dynamic CPU limit: passes that cap, expire, save and roll back |
| `Throttle.dfy`, `Bandwidth.dfy` | the bandwidth throttle with its cache; the counter-to-total rule and the sampler's transaction |
| `Download.dfy` | the resumable download |
| `ExitScan.dfy` | end-of-session detection in a chunked terminal stream |
| `UserPorts.dfy`, `UserPortText.dfy` | port ranges: parsing, aligning, merging in place, printing, counting |
| `Domains.dfy`, `Text.dfy`, `Common.dfy` | domain names and the block list; the string and sorting operations everything is written with |

Code that changes state step by step is a class or a loop here too: rows, live instances, limits, releases and the
download's file are fields that methods change, the merge and the carry loops work on arrays in place, and each such
method is tied to a function or predicate of the old state about which the results are proved.

## What turned out not to hold

Each of these is stated as found in the code, with the exact condition under which the code does keep the promise.

- A publication can leave the link on a release it then removes: after a failed sync behind the rename, a failed
  restore, or a failed write of the number (`Publish.DanglingExactly`). A lost number restarts the numbering and can
  reuse the release in service (`Publish.FreshNumberExact`); the comment at `src/internal/hpx/hpx.go:266-270` calls a
  lost counter harmless.
- A prefix of exactly /33 is counted as twice its size, although the comment at `src/internal/mgr/ipv6extra.go:129`
  speaks of shorter prefixes only. A full one hands out its neighbour's first block if and only if it is the lower
  half of its /32, and nothing otherwise (`ExtraBlocks.Full33Exactly`). This is a bound on what the scan's argument
  covers, not a failure one can meet: filling a /33 takes 2^31 blocks.
- The conflict check reads only eth0. Where IPv4 is on eth1, an orphan of a failed create is not seen and its address
  can be given out again (`Lifecycle.HiddenOrphanCollides`, exact condition in `Lifecycle.CheckSufficesExactly`).
- A firewall file that cannot be removed while its account is deleted is not harmless, as the comment at
  `src/internal/mgr/mgr.go:836-837` has it: a later account may own the same ports (`Ownership.LeftoverFileMisroutes`,
  exact condition in `Ownership.FilesMatchExactly`).
- The throttle map comes to disagree with the containers through exactly three kinds of event: a limited container
  that does not answer the first pass, and a reinstall or a delete of a throttled account that fails once the old
  container is gone (`Throttle.AgreementExact`). An account then stays out of step exactly as long as
  `Throttle.OverlookedExactly` says: a stale limit while every pass finds the account under its quota
  (`Throttle.StaleLimitStays`), a missing one while every pass finds it over (`Throttle.EscapeLasts`,
  `Throttle.UnfinishedReinstallEscapes`, `Throttle.UnfinishedDeleteEscapes`).
- The quota comparison holds for all months the database can store if and only if the quota is below 2^34 GiB, and the
  setting has no upper limit (`Throttle.StoredTotalsExactly`, `Throttle.ThrottleMeansExactly`, a failing input in
  `Throttle.HugeQuotaThrottles`).
- A cap whose record could not be saved and which could not be lifted either is never lifted by a pass with the rule
  off, because only the stored list is looked at; it stays until a pass caps the container anew, or until an edit of
  the account's quota succeeds or is undone (`CpuLimit.UnrecordedExactly`, `CpuLimit.EditedExactly`, `CpuLimit.LostCapStays`, the exact effect of an off pass in `CpuLimit.OffLiftsAll`).
  The comment at `src/internal/mgr/cpu_limit.go:262-268` says that the next pass re-evaluates it, which it does only
  if the rule is on and the container busy.
- A delete whose last step fails reports an error although the account is gone
  (`Lifecycle.ErrorAfterAllExactly`).
- A late sample is counted twice, once before and once after it, contrary to the comment at
  `src/internal/db/bandwidth.go:64-76`; the excess is exactly the steps back (`Bandwidth.AddedExactly`,
  `Bandwidth.ExactIffInOrder`).
- A download that restarts from nothing and then cannot ask for the file's size resumes at the old offset and leaves
  a hole (`Download.StaleOffsetLeavesHole`, exact condition in `Download.HoleExactly`); the checksum still refuses
  such a file.
- An exit marker is lost if the read that completes it brings so many more bytes that the marker leaves the window
  (`ExitScan.EndsExactly`, `ExitScan.MissedForGood`).

## Model

| member | source | states |
|---|---|---|
| Lifecycle.NeverTwoWithOneAddress | src/internal/mgr/mgr.go:365-862 | over every run of adds, deletes, reinstalls and the operator's own instances from a sound state, with any step of any operation or of its clean-up failing, no two live containers hold one IPv4, orphans hold no account's address, rows share no slot and no port |
| Lifecycle.EventKeeps | src/internal/mgr/mgr.go:365-862 | every single operation, however it fails, keeps that invariant |
| Lifecycle.AddKeeps | src/internal/mgr/mgr.go:559-717 | the create, its later steps and the clean-up keep it for any slot that passed the conflict check |
| Lifecycle.ReinstallKeeps | src/internal/mgr/mgr.go:1532-1697 | the reinstall, which makes no conflict check, keeps it as well |
| Lifecycle.FailureUndoesAll | src/internal/mgr/mgr.go:559-717 | a failed add whose clean-up works restores the state before it exactly |
| Lifecycle.FailedRowExactly | src/internal/mgr/mgr.go:559-592 | a failed add keeps its row if and only if the row was written and some part of the clean-up failed |
| Lifecycle.FailedAddLeaves | src/internal/mgr/mgr.go:559-717 | what a failed add leaves of container, file and row, and with which status, for every clean-up |
| Lifecycle.SuccessGives | src/internal/mgr/mgr.go:665-717 | an add that gets to its end gives exactly the promised row, container and file, and changes nothing else; its row says how the last write of the status ended |
| Lifecycle.DeleteUndoesAdd | src/internal/mgr/mgr.go:797-862 | deleting an added account gives back the state before the add |
| Lifecycle.ReinstallKeepsAccount | src/internal/mgr/mgr.go:1532-1697 | a reinstall, however it fails, keeps slot, ports and everything else; a container it leaves is the old one or a new one with the account's address |
| Lifecycle.ReinstallLeaves | src/internal/mgr/mgr.go:1532-1697 | which container a reinstall leaves, and which status, for every combination of failures |
| Lifecycle.CheckSufficesExactly | src/internal/lx/lx.go:752-766 | after the conflict check a new container leaves all addresses distinct if and only if no live container holds the address out of eth0's sight |
| Lifecycle.HiddenOrphanCollides | src/internal/mgr/mgr.go:731-745 | with IPv4 on eth1 an orphan of a failed create passes the check, and a second add gets its address |
| Lifecycle.Manager.Add | src/internal/mgr/mgr.go:365-725 | the slot it takes is free in every respect, and it takes one unless something is refused, taken, exhausted or shown by a live instance; refusals change nothing, it succeeds exactly if no step fails, and the state afterwards is determined failure by failure |
| Lifecycle.Manager.Allocate | src/internal/mgr/mgr.go:406-543 | nothing is allocated only for a refusal, a failed listing, a taken name, a subnet that is no IPv4 /24, all 200 slots used, the SSH ports or the blocks exhausted, or a live instance that shows the address of an unused slot |
| Lifecycle.Manager.CleanUp | src/internal/mgr/mgr.go:571-592 | a row is dropped only when container, firewall file and wiring are gone, otherwise it is kept as failed |
| Lifecycle.Manager.CheckIncusConflict | src/internal/mgr/mgr.go:731-745 | it passes exactly if the instances could be listed, none has the name, and none shows the address |
| Lifecycle.Manager.Del | src/internal/mgr/mgr.go:797-862 | it succeeds exactly if the account exists and no step but the file's removal fails; the row goes only after the container; the state and the verdict after every failing step, the sessions at the end included; success leaves neither row nor container |
| Lifecycle.ErrorAfterAllExactly | src/internal/mgr/mgr.go:852-857 | an error is reported for an account that is gone exactly if only its sessions could not be deleted |
| Lifecycle.Manager.Reinstall | src/internal/mgr/mgr.go:1532-1697 | it succeeds exactly if no step fails; the state after every combination of failures; success leaves a ready account whose container has its address |
| Allocation.SlotsHaveOwnAddresses | src/internal/mgr/mgr.go:140-157 | different slots have different addresses inside the subnet, none of them the network, gateway or broadcast address |
| Allocation.SlotAddressExact | src/internal/mgr/mgr.go:140-157 | slots 1 to 200 of an IPv4 /24 have the addresses .2 to .201; every other input is refused, with the matching error |
| Allocation.NextFreeIdx | src/internal/db/user.go:129-160 | an unused slot, each of which can be drawn; nothing only if all are used |
| Allocation.AllocSSHPort | src/internal/mgr/mgr.go:165-190 | an available port of 30000 to 31999, and nothing exactly if 2000 ports are in use or no port is available |
| Allocation.FullRange | src/internal/mgr/mgr.go:170-172 | the early refusal is right: with that many ports of the range in use none is left |
| Allocation.AllocUserPortBlock | src/internal/mgr/mgr.go:210-233 | a configured block no account holds, each of which can be drawn; nothing only if all are held |
| Ownership.PortsHaveOneOwner | src/internal/fw/fw.go:79-96 | over every run with any failures and any changes of the ranges, the rules of the accounts take a packet for at most one account, exactly its owner, and send it to the owner's address; SSH ports and blocks never overlap |
| Ownership.EventKeepsRows | src/internal/mgr/mgr.go:165-233 | every operation keeps slots, SSH ports and blocks distinct and in their ranges |
| Ownership.FilesMatchExactly | src/internal/mgr/mgr.go:833-851 | the files on disk stay in step with the rows for every operation and failure but one: a delete that gives up the row while the file stays |
| Ownership.FilesHaveOneOwner | src/internal/fw/fw.go:79-96 | while they are in step, no two files take the same packet |
| Ownership.LeftoverFileMisroutes | src/internal/mgr/mgr.go:836-841 | after that one failure a later account with the same block has its packets taken by two files with different addresses |
| Firewall.UserRulesExact | src/internal/fw/fw.go:79-96 | the rules of an account take exactly its own ports, on the chains and destinations they cover, and send SSH to port 22 and the rest to the same port of its address |
| Firewall.WriteUser | src/internal/fw/fw.go:79-96 | the rules written are those, without the host's own traffic when it has no public address |
| Publish.Proxy.PublishAll | src/internal/hpx/hpx.go:135-205 | it succeeds exactly if no step fails; the tree after a publication, failure by failure, and every state on the way: readers see the old release untouched or the complete new one |
| Publish.EveryMomentServes | src/internal/hpx/hpx.go:135-205 | at every moment the link, if set, names a fully written release, but for the last moment of a stranded publication |
| Publish.FailureChangesNothing | src/internal/hpx/hpx.go:142-205 | any failure short of stranding the link leaves the link, the release it names and the number unchanged |
| Publish.FreshNumberExact | src/internal/hpx/hpx.go:266-281 | all-or-nothing holds if and only if the next number is not the one in service |
| Publish.DanglingExactly | src/internal/hpx/hpx.go:166-205 | the link is left dangling exactly by three late failures, named by their steps |
| Publish.AcceptedRoutes | src/internal/hpx/hpx.go:135-205 | after an accepted publication the release in service routes every given domain over HTTP to port 80 of its own container and over TLS to port 443 with the PROXY header exactly if the domain asks for it, and no other host anywhere |
| Publish.ManifestReads | src/internal/hpx/hpx.go:380-394 | read line by line the manifest gives the number, how many domains there are, the time, and every name once in order |
| Publish.PruneKeepsNewest | src/internal/hpx/hpx.go:311-350 | a faultless prune leaves exactly the newest three releases, the one in service among them |
| Publish.Proxy.PruneOldReleases | src/internal/hpx/hpx.go:318-350 | what is left after pruning, directory by directory, with any removals failing |
| Publish.TopSize | src/internal/hpx/hpx.go:311-350 | exactly min(3, n) of n releases have fewer than three newer ones |
| Publish.HistoryKeepsThree | src/internal/hpx/hpx.go:135-205 | over any history of publications and failures in which no write of the number failed, after each faultless publication exactly the newest three releases remain, the new one among them |
| Publish.FaultlessKeepsThree | src/internal/hpx/hpx.go:197-205 | the same for one publication from a tree without numbers above the next one |
| Publish.HistoryStaysSound | src/internal/hpx/hpx.go:135-205 | over any history, stranded publications included: from a sound start, and again from every accepted publication, there is a complete release to read and a fresh next number until a publication is stranded |
| Publish.AcceptedRecovers | src/internal/hpx/hpx.go:135-205 | from any tree, a dangling one included, an accepted publication leaves a sound one |
| Routing.RoutingPreserved | src/internal/hpx/hpx.go:435-485 | looking a host up in the printed map and then in the printed backends: over HTTP a published host reaches its own container on port 80 with the client's address in a header and no PROXY header, over TLS on port 443 with the PROXY header exactly if the domain asks for it, and any other host reaches nothing |
| Routing.OrderIrrelevant | src/internal/hpx/hpx.go:435-485 | the generation depends on the set of domains, not on their order |
| Routing.SanitizeInjective | src/internal/hpx/hpx.go:99-109 | different canonical names get different identifiers |
| Routing.BackendNameInjective | src/internal/hpx/hpx.go:111-120 | backend names are unique over both listeners and never the reject backends |
| Routing.BackendFound | src/internal/hpx/hpx.go:435-469 | every domain's two backends are found under their names, whatever else is declared, with those modes, ports, PROXY settings and headers |
| Routing.RenderDomains | src/internal/hpx/hpx.go:435-469 | the loops print the sections of the domains in name order, the text RoutingPreserved is about |
| Routing.RenderMap | src/internal/hpx/hpx.go:475-485 | the loop prints one line a domain, in name order |
| Routing.SanitizeDomain | src/internal/hpx/hpx.go:99-109 | the loop turns every dot into an underscore and keeps the rest |
| Announcer.WakeKept | src/internal/ndp/proxy.go:532-582 | in every interleaving, something pending means a token in the channel, a runner at work, or an enqueuer about to signal |
| Announcer.QuiescentIsEmpty | src/internal/ndp/proxy.go:532-582 | when all enqueuers have returned and the runner sleeps, nothing is pending |
| Announcer.PendingIsMinimum | src/internal/ndp/proxy.go:529-556 | a target is pending exactly if it was asked for since its last pop, once, with the smallest delay asked for |
| Announcer.NeverStuck | src/internal/ndp/proxy.go:559-582 | while the runner lives and something is pending, a step towards empty is possible |
| Announcer.StepsDescend | src/internal/ndp/proxy.go:559-582 | every such step brings the queue nearer to empty |
| Announcer.Drains | src/internal/ndp/proxy.go:559-582 | from every reachable state the queue empties within a stated number of steps |
| Announcer.Queue.Insert | src/internal/ndp/proxy.go:532-540 | the locked half of an enqueue is that event, and tells whether a signal is due |
| Announcer.Queue.PopAny | src/internal/ndp/proxy.go:548-556 | it takes some pending target, and none only if none is pending |
| Announcer.Queue.SignalWake | src/internal/ndp/proxy.go:541-545 | the send on the one-slot channel never blocks and is that event |
| Announcer.Queue.ReceiveWake | src/internal/ndp/proxy.go:559-564 | receiving the token is that event and empties the channel |
| Announcer.Queue.DelayOver | src/internal/ndp/proxy.go:575-579 | after the delay the runner goes on draining |
| Announce.AnnounceState.Sync | src/internal/ndp/proxy.go:443-471 | afterwards the recorded keys are exactly the current rules; what is queued and when, rule by rule; with an interval set the first pass is a refresh |
| Announce.RunPasses | src/internal/ndp/proxy.go:443-471 | over any run of passes it queues what the run of the specification queues; with interval 0 a block is queued exactly once for each stretch of presence |
| Announce.OncePerStretch | src/internal/ndp/proxy.go:443-471 | the same for the specification: without an interval, once per stretch |
| Announce.RefreshQueuesAll | src/internal/ndp/proxy.go:446-462 | a refresh queues every rule |
| Announce.AnnouncedAgain | src/internal/ndp/proxy.go:443-471 | with an interval set, between two passes that far apart there is one that queues every block |
| Announce.AgainNoSooner | src/internal/ndp/proxy.go:443-471 | a block that was already seen is queued again only with an interval set, and two such times are at least that far apart |
| Announce.StaggerExactly | src/internal/ndp/proxy.go:473-495 | the delay is the longest up to 200 ms with which all blocks fit into half the interval, but at least 1 ms; without an interval, and for a single block, it is 200 ms |
| Announce.PassFitsExactly | src/internal/ndp/proxy.go:473-495 | a pass takes at most half the interval if and only if it has room for one millisecond a block, or for the full delay when there is one block |
| Announce.PassFitsInMinutes | src/internal/ndp/proxy.go:473-495 | with a refresh every so many minutes, a pass takes at most half the interval if and only if there are at most 30000 blocks a minute |
| Announce.IntervalExact | src/main.go:629 | the interval is the configured minutes exactly up to 153722867 of them, and beyond that the signed 64-bit number of nanoseconds congruent to them |
| Advertisement.BuildNA | src/internal/ndp/proxy.go:387-419 | for all addresses, MACs and flags the frame has the right layout, byte by byte, and a checksum every receiver finds valid (section 8.1 of RFC 8200, section 2.3 of RFC 4443): pseudo-header and message spell a multiple of 2^16 - 1 |
| Advertisement.Checksum | src/internal/ndp/proxy.go:616-629 | the wrapping accumulator and the fold loop compute the complement of the one's complement sum, up to the stated length |
| Advertisement.NoOverflow | src/internal/ndp/proxy.go:616-624 | up to 131074 bytes the 32-bit accumulator cannot overflow |
| Advertisement.BoundIsTight | src/internal/ndp/proxy.go:616-624 | two more bytes can overflow it |
| Advertisement.ComplementFolds | src/internal/ndp/proxy.go:616-629 | adding the complement of a folded sum makes the whole fold to all ones |
| Advertisement.WordSumIsResidue | src/internal/ndp/proxy.go:616-629 | modulo 2^16 - 1 the sum of the words is the number the bytes spell |
| Advertisement.OddByteIsHigh | src/internal/ndp/proxy.go:621-623 | an odd last byte counts as if a zero followed it |
| Advertisement.ValidExactly | src/internal/ndp/proxy.go:399-418 | a frame passes the receiver's check if and only if the number spelled by the pseudo-header and the message is a multiple of 2^16 - 1 other than zero |
| Advertisement.ChecksumCompletes | src/internal/ndp/proxy.go:399-418 | a frame with these fields and that checksum is valid |
| Address.AddHostOffset | src/internal/mgr/ipv6.go:303-314 | the carry loop adds k to the low 64 bits and leaves the others alone |
| Address.HostOffsetSum | src/internal/ndp/proxy.go:596-614 | as numbers: addition modulo 2^64 in the low half |
| Address.OffsetStaysInside | src/internal/ndp/proxy.go:596-614 | less than the size of the host part adds exactly that much and stays in the prefix |
| Address.AnnouncedIsPrimary | src/internal/ndp/proxy.go:584-594 | a block is announced under its first host address, a /128 under itself |
| Address.AnnounceTarget | src/internal/ndp/proxy.go:586-594 | the method computes that address |
| Address.Ipv6BlockIdx | src/internal/mgr/ipv6.go:59-71 | the block of an index has its four bytes in place |
| Address.BlocksDisjoint | src/internal/mgr/ipv6.go:59-71 | blocks of different indices share no address |
| Address.BlockInside | src/internal/mgr/ipv6.go:59-71 | for prefixes up to /80 every address of a block lies in the prefix |
| NdpRules.RulesRoundTrip | src/internal/ndp/proxy.go:277-284 | with the printed file read back, an address is answered if and only if it lies in the /112 or the /64 of an account other than the dropped one, or in a block handed over |
| NdpRules.ServesBlocks | src/internal/mgr/ipv6.go:440-499 | reading the printed file gives exactly the blocks it was printed for as rules, one for one |
| NdpRules.RuleBlocksExact | src/internal/mgr/ipv6.go:440-478 | collected, sorted and compacted: the blocks accounts have as their /112 or /64 and those handed over, each once |
| NdpRules.NdppdConf | src/internal/mgr/ipv6.go:440-499 | the loops print the file, and nothing when there is nothing to serve |
| NdpRules.LoadRules | src/internal/ndp/proxy.go:231-258 | the rules of a text, in order, and an error if it has none |
| NdpRules.ConfReads | src/internal/mgr/ipv6.go:479-499 | the framing lines of the file are not taken for rules |
| NdpRules.ConfStructure | src/internal/mgr/ipv6.go:479-499 | parsed as a whole the printed file is one section for the external interface with one rule for each block, all leading to the bridge, or to the loopback interface without one |
| ExtraBlocks.ExtraBlockAt | src/internal/mgr/ipv6extra.go:139-149 | the loop ORs the index into the high half, byte by byte |
| ExtraBlocks.OrBits | src/internal/mgr/ipv6extra.go:139-149 | a bit of the OR is set exactly if it is set in one of the two |
| ExtraBlocks.BlockIsOffset | src/internal/mgr/ipv6extra.go:136-149 | inside the prefix that is base + index times 2^64 |
| ExtraBlocks.PrefixIsItsBlocks | src/internal/mgr/ipv6extra.go:136-149 | an address lies in the prefix exactly if its /64 is one of the blocks |
| ExtraBlocks.CountFitsExactly | src/internal/mgr/ipv6extra.go:120-134 | the count is zero from /64 on, exact from /34 to /63 and 2^32 up to /33; it exceeds the room only at exactly /33, where it doubles it |
| ExtraBlocks.PickExtraBlock | src/internal/mgr/ipv6extra.go:204-233 | nothing unless the mode and a prefix shorter than /64 allow it; else the first index within used + reserved + 1 whose block is not taken |
| ExtraBlocks.PickIsComplete | src/internal/mgr/ipv6extra.go:196-233 | that is the lowest free block, and nothing only if every counted block is taken |
| ExtraBlocks.ScanReachesFree | src/internal/mgr/ipv6extra.go:200-203 | among used + reserved + 1 indices one is free |
| ExtraBlocks.At33 | src/internal/mgr/ipv6extra.go:126-129 | at /33 the pick is the lowest free block as long as there is one, and otherwise nothing of the prefix |
| ExtraBlocks.Full33Exactly | src/internal/mgr/ipv6extra.go:126-129 | a full /33 hands out its neighbour's first block if and only if it is the lower half of its /32, and otherwise nothing |
| ExtraBlocks.ExtraCapacity | src/internal/mgr/ipv6extra.go:91-118 | total, reserved, used inside the prefix, and what is left, never negative |
| ExtraBlocks.FreeMeansPick | src/internal/mgr/ipv6extra.go:91-118 | a positive free count means the pick succeeds |
| CpuLimit.CapsAlwaysOnRecord | src/internal/mgr/cpu_limit.go:156-276 | over every run of passes and account changes, with any failures, a container is away from its quota and not in the stored map if and only if its last change was one that could not be undone, which was reported |
| CpuLimit.PassKeepsRecord | src/internal/mgr/cpu_limit.go:156-260 | one pass keeps every unrecorded cap among the reported ones, whatever fails |
| CpuLimit.UnrecordedExactly | src/internal/mgr/cpu_limit.go:156-276 | after a pass a cap is unrecorded if and only if the pass could neither save nor lift it, or it was before and the pass did not cap the container anew |
| CpuLimit.LostCapStays | src/internal/mgr/cpu_limit.go:262-276 | an unrecorded cap survives any run of passes that do not cap the container, those with the rule off among them |
| CpuLimit.OffNeverLiftsLost | src/internal/mgr/cpu_limit.go:186-207 | no number of passes with the rule off lifts an unrecorded cap |
| CpuLimit.EditedExactly | src/internal/mgr/mgr.go:1082-1145 | after account changes a container is unrecorded if and only if its edit was left half-done at another CPU without a record, or it was before and was left alone |
| CpuLimit.EditKeepsRecord | src/internal/mgr/mgr.go:1082-1145 | account changes and quota edits, half-done ones included, keep it as well |
| CpuLimit.Enforcer.UpdateQuotas | src/internal/mgr/mgr.go:1082-1145 | the CPU part of a quota edit: container, account and verdict after every failing step, that of the undoing included |
| CpuLimit.CappedExactly | src/internal/mgr/cpu_limit.go:156-308 | an undisturbed pass puts a container on the list if and only if the rule is enabled and in its ranges, its quota is above the rule's CPU, and its newest samples, one a minute for as long as the rule says and no older than two minutes, are all running and above the percentage; it then has the rule's CPU until the rule's time is over, and otherwise the pass leaves it alone |
| CpuLimit.CapsAreRestrictions | src/internal/mgr/cpu_limit.go:224-242 | a pass only ever caps strictly below the quota, a busy container, while the rule is on; every other change sets the quota |
| CpuLimit.OffLiftsAll | src/internal/mgr/cpu_limit.go:186-207 | one undisturbed pass with the rule disabled or out of its ranges empties the map, and a container then has its quota if and only if it was in the map or had it before |
| CpuLimit.ExpiryLifts | src/internal/mgr/cpu_limit.go:186-207 | an expired limit, or one of a disabled rule, is gone after a pass whose restore and save work |
| CpuLimit.UnexpiredStays | src/internal/mgr/cpu_limit.go:186-207 | while the rule is enabled and in its ranges, a limit that has not expired stays as it is, whatever fails |
| CpuLimit.SilenceMeansDone | src/internal/mgr/cpu_limit.go:156-260 | a pass that reports nothing did what it would have done without any failure, and without any failure it reports nothing |
| CpuLimit.NothingToSave | src/internal/mgr/cpu_limit.go:243-260 | with every stored limit still to run and no other container overloaded a pass reports nothing, even if it could not have saved |
| CpuLimit.Enforcer.EnforceCPULimits | src/internal/mgr/cpu_limit.go:156-260 | the stored map and every quota after a pass, name by name; without failures the containers that get on the list are those CappedExactly describes; an error is returned exactly if something failed, and names every rollback that did |
| CpuLimit.Enforcer.RestorePhase | src/internal/mgr/cpu_limit.go:189-207 | which limits stay, which quotas are restored, and whether a restore failed |
| CpuLimit.Enforcer.ApplyPhase | src/internal/mgr/cpu_limit.go:210-242 | which containers are capped and recorded, and whether a cap failed |
| CpuLimit.Enforcer.RollbackCaps | src/internal/mgr/cpu_limit.go:262-276 | every cap is lifted but those whose call fails, which the error names |
| CpuLimit.CpuOverStreak | src/internal/mgr/cpu_limit.go:278-308 | the backward loop decides whether the newest minutes are gapless, running and above the threshold, and recent |
| Throttle.AgreementExact | src/internal/mgr/bandwidth.go:121-188 | an event keeps the map in agreement with the containers if and only if it is no first pass with a missed answer and no reinstall or delete of a throttled account that fails once the container is gone |
| Throttle.AgreesThroughout | src/internal/mgr/bandwidth.go:145-188 | over every run from an agreeing state without those three, with any calls failing, the map names exactly the limited containers |
| Throttle.CacheIsInvisible | src/internal/mgr/bandwidth.go:140-188 | a pass leaves the containers as rewriting every limit would, under the same failures |
| Throttle.UndisturbedPass | src/internal/mgr/bandwidth.go:145-188 | after a pass that is not disturbed at an account, its container is limited exactly if the quota is positive and the month's bytes, if they can be read, have reached it |
| Throttle.MonthDecides | src/internal/mgr/bandwidth.go:117-188 | from the creation of an account or the reset of its month, over every orderly run: a pass limits its container exactly if the bytes moved since then have reached a positive quota |
| Throttle.NewQuotaDecides | src/internal/mgr/bandwidth.go:145-188 | a changed quota decides from the next pass on |
| Throttle.OverlookedExactly | src/internal/mgr/bandwidth.go:121-188 | an account out of step with the map stays so through an event if and only if the event overlooks it, and then in the same way |
| Throttle.OverlookedThroughout | src/internal/mgr/bandwidth.go:121-188 | the same over any run |
| Throttle.StaleLimitStays | src/internal/mgr/bandwidth.go:149-187 | a limit the map does not know of stays as long as every pass finds the account under its quota; no reset lifts it |
| Throttle.OneMissedAnswer | src/internal/mgr/bandwidth.go:157-165 | one unanswered question about such an account on the first pass is enough for that |
| Throttle.UnfinishedReinstallEscapes | src/internal/mgr/mgr.go:1684-1697 | a reinstall of a throttled account that fails behind the create leaves it flagged and unlimited |
| Throttle.UnfinishedDeleteEscapes | src/internal/mgr/mgr.go:852-860 | a delete that fails at its last step leaves the flag, and an account created under the same name is flagged and unlimited from the start |
| Throttle.EscapeLasts | src/internal/mgr/bandwidth.go:166-187 | an account in that state is never limited while every pass finds it over its quota |
| Throttle.ThrottleMeansExactly | src/internal/mgr/bandwidth.go:36-43 | the 64-bit decision is the comparison of the month's bytes with the quota for all months if and only if the quota is below 2^34 GiB |
| Throttle.StoredTotalsExactly | src/internal/mgr/bandwidth.go:166-169 | two totals of the signed 64-bit columns never wrap when added, so for the stored months too the decision is the comparison if and only if the quota is below 2^34 GiB |
| Throttle.HugeQuotaThrottles | src/internal/mgr/bandwidth.go:38-43 | at 2^34 GiB an idle account is throttled |
| Throttle.Limiter.EnforceBandwidthLimits | src/internal/mgr/bandwidth.go:145-188 | map and limits after a pass, account by account; no error exactly if the list was read and the map then has every account as its totals and quota say |
| Throttle.Limiter.ResetBandwidth | src/internal/mgr/bandwidth.go:117-138 | the month is zeroed and the limit lifted at once, or the error says it was not |
| Bandwidth.AddedExactly | src/internal/db/resource.go:35-59 | in one month and boot a run adds last counter minus first baseline plus the sum of all steps back |
| Bandwidth.NewAccountExactly | src/internal/db/resource.go:35-37 | a new account counts nothing before its first sample: its total is last counter minus first plus the steps back in between |
| Bandwidth.ExactIffInOrder | src/internal/db/bandwidth.go:58-76 | the total is exact if and only if no sample came late |
| Bandwidth.NeverOvercounts | src/internal/db/resource.go:35-59 | across restarts told by boot time or by process, in-order samples count the true traffic minus exactly what the restarts hid |
| Bandwidth.ResetCountsFromBaseline | src/internal/db/bandwidth.go:27-35 | after a reset the total counts from the counter last seen |
| Bandwidth.RolloverIsReset | src/internal/db/resource.go:39-55 | a sample that opens a new month acts like a reset just before it |
| Bandwidth.MonthCountsFromBaseline | src/internal/db/resource.go:39-55 | a month's total counts from the last counter of the month before |
| Bandwidth.ApplyAllPerAccount | src/internal/db/resource.go:122-126 | a batch runs every account's row through exactly its own observations |
| Bandwidth.BatchCountsExactly | src/internal/db/resource.go:31-59 | the totals of a batch, account by account: last counter minus first baseline plus the steps back, the baseline of a new account being its own first sample |
| Bandwidth.LastCountersStored | src/internal/db/resource.go:50-59 | after a batch the row holds the counters of the account's last observation, received bytes as downloads, and the given month |
| Bandwidth.InsertAllMeans | src/internal/db/resource.go:88-117 | per account and minute the last snapshot of the batch is kept, else the old one |
| Bandwidth.SnapshotsKept | src/internal/db/resource.go:88-131 | and none from before the cutoff is kept |
| Bandwidth.Store.RecordResourceSamples | src/internal/db/resource.go:77-133 | all of it or nothing, whichever statement fails; what all of it is, is stated by BatchCountsExactly, LastCountersStored and SnapshotsKept |
| Bandwidth.Store.ResetBandwidth | src/internal/db/bandwidth.go:30-35 | totals zeroed, baselines and all other rows kept |
| Download.AlwaysAPrefix | src/main_transfer.go:612-754 | against a server of one archive that follows sections 14.2, 15.3.7 and 15.5.17 of RFC 9110, for every sequence of answers, cuts and full disks the file is a prefix of the archive after every attempt |
| Download.HoleExactly | src/main_transfer.go:727-753 | an attempt loses that exactly if it appends past the end of the file over bytes that are not zero |
| Download.StaleOffsetLeavesHole | src/main_transfer.go:669-671 | a truncated file whose size cannot be read is resumed at the old offset |
| Download.CounterIsLength | src/main_transfer.go:634-671 | as long as sizes are read and chunks written whole, the progress counter is the file's length, whatever the server sends |
| Download.DoneIsWhole | src/main_transfer.go:612-689 | a run that ends as done has the whole archive, so the checksum cannot fail |
| Download.DeliveryEndsIt | src/main_transfer.go:640-672 | from any prefix the run is done, with the whole archive, as soon as an attempt delivers the archive, the rest of it, or word that nothing is missing, after attempts that met a passing connection failure or a broken body |
| Download.OutcomeExactly | src/main_transfer.go:702-754 | which answers end the download as done, which are tried again, and which give up |
| Download.AttemptExactly | src/main_transfer.go:702-754 | file, counter and resume offset after one attempt: a full answer to a resumed download empties both first, a body that was taken lands at its offset and is counted |
| Download.Fetcher.FetchArchive | src/main_transfer.go:612-689 | whatever any server sends, an error-free exit means the file is the archive; from a prefix of the archive the exit is free of errors if one attempt delivers and those before it were worth another try; at most ten attempts, and which error |
| Download.Fetcher.FetchOnce | src/main_transfer.go:702-754 | file, counter and verdict after one attempt, for every answer and failing call |
| Download.Fetcher.Copy | src/main_transfer.go:750-753 | the chunks land one after the other at the offset, however the body is cut |
| ExitScan.AnyChunking | src/internal/lx/attach.go:232-262 | a stream ending in marker, status and BEL ends the session with that status once all of it has arrived and no sooner, however it is cut |
| ExitScan.EndsExactly | src/internal/lx/attach.go:235-262 | with more output behind it, the read that brings BEL ends the session if and only if the marker is still in the window |
| ExitScan.MissedForGood | src/internal/lx/attach.go:235-262 | otherwise the session never ends by it |
| ExitScan.NotTooSoon | src/internal/lx/attach.go:247-254 | before BEL the session goes on |
| ExitScan.NoMarkerNoEnd | src/internal/lx/attach.go:244-247 | a stream without the marker never ends the session |
| ExitScan.TailIsWindow | src/internal/lx/attach.go:236-241 | the rolling tail is the end of the whole stream |
| ExitScan.PrintedStatus | src/internal/lx/attach.go:117-119 | the status the wrapper prints is at most three digits that read back as the code |
| ExitScan.PrintedExitIsRead | src/internal/lx/attach.go:110-262 | what the wrapper prints after any output without the marker ends the session with its exit code once all of it has arrived and no sooner, however it is cut |
| ExitScan.Pty.ScanExit | src/internal/lx/attach.go:235-262 | tail, code and end of session after one read |
| ExitScan.Pty.Read | src/internal/lx/attach.go:212-230 | the read loop is the run the results are about |
| UserPorts.TokenMeans | src/internal/cfg/cfg.go:496-513 | a token is blank exactly if it is made of blanks, and the range a to b exactly if it is those two numbers in order with a dash between them and blanks around them |
| UserPorts.PiecesOfTokens | src/internal/cfg/cfg.go:494-499 | the tokens are what stands between the commas |
| Text.AtoiExactly | src/internal/cfg/cfg.go:505-509 | a number is decimal digits, with a sign or without, that stand for a 64-bit value |
| Text.SpacesExactly | src/internal/mgr/mgr.go:1958 | the blanks that are trimmed are exactly the code points of Unicode's White_Space property |
| UserPorts.NormalizedMeans | src/internal/cfg/cfg.go:484-547 | an accepted value is sorted, separated, aligned ranges that hold exactly the usable blocks lying wholly inside one given range |
| UserPorts.RefusedExactly | src/internal/cfg/cfg.go:484-533 | a value is refused exactly for a malformed token or when no usable block remains |
| UserPorts.NormalFormUnique | src/internal/cfg/cfg.go:534-547 | two such lists with the same ports are equal |
| UserPorts.AnySortWillDo | src/internal/cfg/cfg.go:534-547 | the result does not depend on how the sort arranges equal low ends |
| UserPorts.ClipKeepsWholeBlocks | src/internal/cfg/cfg.go:514-529 | clamping and aligning keep exactly the whole usable blocks |
| UserPorts.MergeInPlace | src/internal/cfg/cfg.go:535-546 | the merge that overwrites its own input computes the merged list |
| UserPorts.ParseUserPorts | src/internal/cfg/cfg.go:494-547 | the parser computes those ranges, or the error of the first malformed token |
| UserPortText.ReparseSame | src/internal/cfg/cfg.go:549-562 | parsing the canonical text gives back the ranges |
| UserPortText.CanonicalFixed | src/internal/cfg/cfg.go:549-562 | canonical text is a fixed point with the same meaning, for every input, accepted or not |
| UserPortText.StartsExact | src/internal/cfg/cfg.go:575-597 | the count is the number of block starts, which increase strictly and are exactly the whole hundreds in the ranges |
| UserPortText.AllocatableExactly | src/internal/cfg/cfg.go:587-597 | a start may be drawn exactly if its block is usable and wholly inside a configured range |
| UserPortText.UserPortCount | src/internal/cfg/cfg.go:575-585 | the loop counts the starts |
| UserPortText.UserPortBlockStarts | src/internal/cfg/cfg.go:587-597 | the nested loops list them |
| UserPortText.DefaultText | src/internal/cfg/cfg.go:93-98 | the whole range prints as the documented default |
| Domains.BlockedIsLabelSuffix | src/internal/mgr/blocked.go:12-23 | the textual test holds if and only if the blocked name's labels end the domain's labels |
| Domains.NormalizeIdempotent | src/internal/mgr/mgr.go:1957-1992 | normalising twice is normalising once |
| Domains.NormalizeMeaning | src/internal/mgr/mgr.go:1957-1992 | a text is accepted as a name exactly if the name is canonical and the text is that name in any case, with blanks around it and dots after it |
| Domains.CanonicalExactly | src/internal/mgr/mgr.go:1957-1992 | a name is canonical exactly if it is two or more labels of 1 to 63 lower-case letters, digits and inner dashes, at most 253 characters in all, and ends in a letter |
| Domains.CaseIrrelevant | src/internal/mgr/mgr.go:1957-1960 | texts that differ only in the case of their letters normalise alike |
| Domains.ParseBlockedList | src/internal/mgr/blocked.go:25-46 | the accepted names are the first mentions of the contributions, the bad lines exactly the numbered malformed ones |
| Domains.LineMeans | src/internal/mgr/blocked.go:30-46 | a line contributes the name it decorates, and is bad exactly if it is neither blank nor decorates one |
| Mentions.FirstMentionsUnique | src/internal/mgr/blocked.go:30-46 | the first mentions of a list determine its deduplicated form |
| Domains.AcceptedProperties | src/internal/mgr/blocked.go:25-46 | the accepted list is duplicate-free and made of fixed points |
| Domains.BlockListRoundTrip | src/internal/db/settings.go:84-100 | storing and loading the list gives it back |
| Domains.AskMeansLabels | src/internal/mgr/blocked.go:12-23 | a name is refused exactly if some stored name's labels end its own |
| Domains.BlockList.SaveAndAsk | src/internal/mgr/blocked.go:12-46 | saving a text and asking about a name goes through parser, storage and search as that says |

## Left out

- Handlers, templates, sessions, messages and translations of the web panel.
- The container runtime's own protocol, SQLite, nftables, systemd and `ip`: each call is one atomic step, and a call
  that reports an error has changed nothing, except a failed create, a failed write of a file and a cut download,
  which may leave a part behind.
- Lifecycle.Manager.Add: IPv6 assignment, provisioning, cloning and the other steps between the create and the row are one step that may fail, because their failures all lead to the same clean-up; what they configure is not modelled.
- Lifecycle.NeverTwoWithOneAddress: rebuilding an account from a snapshot share is not an event, since it briefly holds a stopped clone with the old address by design; two processes adding at once are not modelled, one process serialises its operations.
- Lifecycle.Manager.Del: the withdrawal of domains is one step before everything else; the domain rows are not part of the state.
- Ownership.PortsHaveOneOwner: it is about the rules of the rows and the files, not about when the kernel loads them;
  a firewall file that was cut short counts as having no rules.
- Publish.Proxy.PublishAll: file modes, the reload of the proxy and the domain rows are not modelled; the time stamp is a parameter.
- Routing.RoutingPreserved: the comment header of a generated file is a parameter, any lines of comments and blanks; the reader is the part of HAProxy's file and map syntax these files use; the entry configuration is left out.
- Announce.AnnounceState.Sync: rules come from the parsed file, so every one has a target address, and the branch for a rule without one is left out; the queue and the sync are joined by the calls only.
- Advertisement.BuildNA: proved for arbitrary flags; the flag constant of the duplicate-address reply, which does not clear what its comment says, is not judged.
- NdpRules.RulesRoundTrip: printing and parsing an address is a pair of functions that agree, and the filter by an allowed prefix is left out.
- ExtraBlocks.PickIsComplete: the reserved blocks are a given set; at exactly /33 it asks for fewer used and reserved blocks than the prefix holds, the rest of that case being At33 and Full33Exactly.
- CpuLimit.Enforcer.UpdateQuotas: memory, disk and the database are one later step; only the CPU is part of the state.
- CpuLimit.Enforcer.EnforceCPULimits: the CPU percentage of a sample is an integer input; the stored map's text form is left out.
- Throttle.Limiter.EnforceBandwidthLimits: the month's totals are part of an account; reading them may fail, and does when one has outgrown its column; the two period functions on dates are left out.
- Bandwidth.AddedExactly: counters and totals are unbounded naturals; the columns are 64-bit.
- Download.Fetcher.FetchArchive: SHA-256 is equality of content, the certificate pin is a permanent connection error, and the display of progress is left out.
- ExitScan.Pty.Read: one output stream, which is not read on once the session is over; the other file descriptors, resizing and closing of the connection are left out.
- UserPorts.ParseUserPorts: an error names the number of the malformed token instead of quoting it.
- Sorting is a stable insertion sort wherever the source calls the library's sort; where elements can compare equal without being equal the result is shown not to depend on the arrangement.
- Randomness is any draw from the free elements; the text of error messages, colours, swap, ZFS and the guest scripts are left out.
