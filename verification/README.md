# flowspec-vpp-agent in Dafny

The agent turns BGP FlowSpec rules (RFC 8955, RFC 8956) into VPP ACLs and adds drops of its own,
found in sampled traffic. This project models its decision logic and proves what the agent is
for: **a packet is denied exactly when some standing, accepted announcement covers it**, through
the translator, the reference-counting manager, first-match ACLs, interface lists and VPP
restarts; and, on the detection side, that rings, sketches, windows, leases and saved history
say what a full record of the past would say.

`dafny verify dfyconfig.toml` checks everything. One module per file:

| part | modules |
|---|---|
| rules, packets and their meaning | `FlowSpec`, `Arith` |
| translator | `Intervals`, `TcpFlags`, `Translate` |
| manager | `ManagerState` (maps as values, invariant, refinement), `Pushes` (when to push), `Manager` (the object) |
| VPP | `Acl`, `InterfaceLists`, `Reconnect` (the interleaved actors) |
| whole runs | `EndToEnd` |
| detector | `Detector`, `SampleRing`, `Spread`, `Regions`, `SpreadFields`, `HeavyKeeper`, `Admission`, `Findings`, `Persistence` |
| detector to verdict | `Texts`, `DetectorEvents` |
| interface statistics | `StatsRing`, `StatsStore` |
| leases | `Leases`, `Sustained` (a finding and its lease together) |
| wire format | `Wire` |

## How the model reads the source

- **Two readings of an operator byte.** The code takes lt/gt/eq all clear as "true" and all set
  as "false"; the table in section 4.2.1.1 of RFC 8955 has it the other way round. `Comparison.Holds`
  is the code's reading, and every main theorem uses it. `Translate.ItemAgreesIff` says exactly which
  operators, and `Translate.TranslateAgreesWithRfcIff` exactly which accepted rules, mean the same under
  both; `Translate.BareItemDisagrees` is a rule that does not.
- **`proto = 0`** is accepted but ACL protocol 0 means "any". `Translate.TranslatePreserves` states
  what such a rule becomes; `Translate.TranslateExactIff` shows it is the only inexact case.
- **Packets** carry a full layer-4 header. A port, ICMP or TCP-flag component is false on packets of
  another protocol, and an ACL entry's port fields are looked at only for TCP and UDP, and as type
  and code only for the family's own ICMP.
- **Keys.** The manager's string key prints every field of an ACL rule, so the model keys entries by
  the rule itself, with an arbitrary total order for sorting. A route identity is the rule's text, or
  family and match when it has none, as the code has it.
- **Flag bytes** are sets of bit positions; `TcpFlags.FoldByteIsFoldItem` ties the byte arithmetic of
  the loop to them.
- **VPP's ACLs** carry a tag, ours or another's, and full contents with the trailing permit-any. VPP
  refuses to attach an ACL it does not have and to delete one that is attached. Operators may edit ACLs
  and lists of their own, and add or remove interfaces, at any time, but leave our ACLs and our pair's
  place alone. A bootstrap dumps interfaces, tags and lists in one step and then rewrites one list at a
  time from that dump.
- **What others can lose.** Between the loss of VPP and the re-bootstrap the code still pushes to the
  index it had; `Reconnect.StalePushRun` and `Reconnect.PushKeepsForeignIff` say what that can hit and
  when. The promise that an attach preserves the ACLs of others (internal/vpp/attach.go:26-27) fails
  in three ways, each with a run: VPP restarts inside a bootstrap and gives our indices to others
  (`Reconnect.RestartWhileAttachingRun`), a list is edited after it was dumped
  (`Reconnect.LostEditRun`), and a merged list has more than 255 entries (`Reconnect.OutgrownRun`).
  `Reconnect.AttachKeepsForeignIff` and `Reconnect.AttachKeepsEditsIff` give the exact conditions.
- **Arithmetic.** Go's truncating division and remainder are spelled out (`Arith.TruncDiv`,
  `Arith.TruncMod`). Bytes that can wrap are modelled as such (`i % 256` in `InterfaceLists`, the byte
  counts in `Spread`). Packet and byte counters are unbounded; floating-point rates and sketch counts
  are reals. Times are nanoseconds, the zero time is `None`.
- **Freedom.** Map iteration order, the sketch's random draws and hash, the outcome of every VPP
  call, VPP restarts, the trigger's value and evaluation errors are left free; each theorem holds
  for all of them.
- **Conditions the source states.** Rings equal the sample log for samples in time order and `now` at
  or after the newest; in any order they never over-count, and `SampleRing.RingExactIff` says which
  epochs are exact. Statistics windows must lie after the Unix epoch, because an unused slot carries
  epoch 0. Leases mirror the manager when each rule text belongs to one event, as it does for the
  detector's own events with unique rule names (`DetectorEvents.EventIdentityIff`);
  `Leases.WithdrawKeepsIff` and `Leases.SharedTextLoses` say what a shared text costs. `Wire` shows that an unmapped component, or
  an offset on an IPv4 prefix, is exactly what encoding loses.
- **Ticks and leases.** `Sustained` drives an instance and the lease controller together, event delivered
  at once, events of other findings in between; a rule never lapses while its finding holds exactly when event interval and tick distance
  together fit its lease time.
- **Wildcards in a drop.** A wildcarded field widens a drop, but can also make it one the translator
  rejects; `Detector.DropAcceptedIff` says exactly when and `Detector.AnyProtoRejected` is an instance.
- **Startup coverage.** `Covers` implies that a ring is found at run time. The converse is false for a
  ring configured shorter than its resolution, which still gets one slot;
  `StatsStore.CoveredFindsRing` gives the exact condition.

## Model

| member | source | states |
|---|---|---|
| `Manager.Manager.Run` | internal/manager/manager.go:97-194 | after any sequence of updates and whatever pushes failed on the way, first-match evaluation of the ACL of every family whose last push succeeded denies a packet exactly when a standing, accepted announcement covers it, and permits every other packet of the family |
| `EndToEnd.ManagedVerdict` | internal/vpp/acl.go:71-107 | the list built from the desired entries, in any order, followed by permit-any gives exactly that verdict, and says nothing about the other family |
| `EndToEnd.RunRefines` | internal/manager/manager.go:97-194 | every reachable state keeps the invariant of the three maps and refines one plain map from (session, route identity) to ACL rule |
| `EndToEnd.TableByHistory` | internal/manager/manager.go:118-194 | that plain map holds exactly the accepted announcements of the history that nothing later replaced, withdrew or dropped |
| `EndToEnd.LiveByHistory` | internal/manager/manager.go:118-194 | an entry exists after a run exactly when some standing announcement translates to it |
| `EndToEnd.BlocksIsCovers` | internal/manager/manager.go:118-161 | when no standing rule says `proto = 0`, the packets denied are exactly those the original FlowSpec matches cover |
| `InterfaceLists.InterfaceVerdict` | internal/vpp/attach.go:141-152 | on an interface of either direction the manual verdict wins if a manual entry matches; otherwise the packet is denied exactly when a standing announcement covers it, by the ACL of its own family |
| `Translate.TranslateRule` | internal/translate/translate.go:20-161 | the executable translator, with its loops: it accepts a rule or rejects it for the first demand that it fails, and an accepted rule becomes the one entry whose fields say what its components say |
| `Translate.TranslateIff` | internal/translate/translate.go:20-161 | for every rule: accepted if and only if the action is a drop, no component is unmapped, prefixes have offset 0 and the rule's family, protocol and ICMP lists are absent or one `= v` of a byte, flags are one AND term of carried, consistent items, port lists have port operands and mean one interval, all components call for one protocol, and ports go with TCP or UDP; the reason given is the first of the four groups that fails; and every field of the entry is what its component says |
| `Translate.EntryUnique` | internal/translate/translate.go:125-161 | these fields are the whole entry: no other entry is one of the rule |
| `Translate.TranslatePreserves` | internal/translate/translate.go:20-161 | a packet matches the entry of an accepted rule if and only if it satisfies every FlowSpec component (section 4.2.2 of RFC 8955), absent fields meaning any, with `proto = 0` read as any protocol |
| `Translate.TranslateExactIff` | internal/translate/translate.go:126-134 | an accepted rule is translated equivalently if and only if its protocol list is not `= 0` |
| `Translate.TranslateDenies` | internal/translate/translate.go:126-134 | every entry is a deny of the rule's own family |
| `Translate.SameEntrySameMeaning` | internal/vpp/types.go:39-58 | rules that share one ACL entry cover the same packets, so deduplication loses nothing |
| `Translate.ItemAgreesIff` | internal/translate/port.go:74-82 | one operator agrees with section 4.2.1.1 of RFC 8955 exactly when it is one of the six comparison patterns |
| `Translate.TranslateAgreesWithRfcIff` | internal/translate/translate.go:20-161 | an accepted rule means, on every packet, what RFC 8955 says if and only if its protocol list is not `= 0` and each port list reduces to the same range with its bare items (no bit set, every bit set) read the other way |
| `Translate.FlipMeaning` | internal/translate/port.go:74-82 | the reading of section 4.2.1.1 of RFC 8955 is the agent's reading of the list with its bare items exchanged, so the condition above is computable by the reduction itself |
| `Translate.ComparisonsSameEitherWay` | internal/translate/port.go:26-70 | lists of comparisons alone meet that condition |
| `Translate.MixedSameEitherWay` | internal/translate/port.go:77-82 | and they are not the only ones: a concrete list with bare items meets it |
| `Translate.BareItemDisagrees` | internal/translate/port.go:77-82 | a concrete accepted rule and packet on which the code and the table in section 4.2.1.1 of RFC 8955 differ |
| `Intervals.ReduceRange` | internal/translate/port.go:26-70 | returns (lo, hi) exactly when every operand fits and the OR-of-AND list accepts exactly the nonempty interval [lo, hi] within [0, max]; an error otherwise |
| `Intervals.RangeOfMeaning` | internal/translate/port.go:26-70 | the specification of `ReduceRange` succeeds with an interval if and only if the operands fit and the list means that interval |
| `Intervals.OpToSetMeaning` | internal/translate/port.go:74-117 | one operator yields the canonical set of exactly its numbers, and fails exactly on an operand out of range |
| `Intervals.Normalize` | internal/translate/port.go:148-171 | the result is sorted, disjoint and non-adjacent and has the same members |
| `Intervals.CanonicalUnique` | internal/translate/port.go:145-171 | the normal form of a set is unique |
| `Intervals.UnionSets` | internal/translate/port.go:139-143 | the members of the union, in normal form |
| `Intervals.IntersectSets` | internal/translate/port.go:119-137 | the members of the intersection, in normal form |
| `TcpFlags.ReduceTCPFlags` | internal/translate/tcpflags.go:26-80 | the loop with its early rejections computes the fold `FlagsOf` |
| `TcpFlags.FlagsOfMeaning` | internal/translate/tcpflags.go:26-80 | `flags & mask == value` holds exactly when the bitmask list does (section 4.2.1.2 of RFC 8955) |
| `TcpFlags.FoldItemsIff` | internal/translate/tcpflags.go:31-76 | a list is accepted exactly when it is one AND term of mappable items that want no bit both set and clear |
| `TcpFlags.MappableIff` | internal/translate/tcpflags.go:42-73 | of the nonempty tests on known bits, the items accepted are exactly those that some value and mask pair expresses |
| `TcpFlags.OneBitTrick` | internal/translate/tcpflags.go:48 | a nonzero byte passes `bits & (bits-1) == 0` exactly when the set of its positions has one element |
| `TcpFlags.FoldByteIsFoldItem` | internal/translate/tcpflags.go:41-76 | one pass of the loop body on bytes, with that test and the bitwise operators, is on the positions of those bytes the step the reduction is proved about |
| `FlowSpec.OffsetZero` | internal/flowspec/rule.go:49-59 | a prefix component with offset zero compares the whole prefix |
| `ManagerState.ApplyRefines` | internal/manager/manager.go:97-194 | one update keeps the invariant and does to the three maps what it does to the plain map |
| `ManagerState.SameRouteIff` | internal/manager/refcount.go:147-152 | two rules are one route exactly when they have one text, or neither has a text and family and match are the same |
| `ManagerState.ApplyInv` | internal/manager/manager.go:97-194 | every update keeps: owner counts equal the number of routes mapped to the key, a session's rules are the values of its routes, no entry ownerless, no inner map empty |
| `ManagerState.RemoveRouteInv` | internal/manager/refcount.go:101-113 | removing a route keeps the invariant and changes only that route |
| `ManagerState.AddRouteInv` | internal/manager/refcount.go:14-131 | adding an owner and remembering the route keeps the invariant and changes only that route |
| `ManagerState.AcceptedAnnounce` | internal/manager/manager.go:118-161 | an accepted announcement, new or replacing, keeps the invariant and sets exactly its own route |
| `ManagerState.EarlyReturn` | internal/manager/manager.go:174-179 | when a session has no rules, the early return leaves nothing of it behind |
| `ManagerState.DropSessionInv` | internal/manager/manager.go:174-194 | session-down keeps the invariant and removes exactly that session's routes |
| `Pushes.DirtyExact` | internal/manager/manager.go:97-194 | a family is pushed exactly when its desired set changes (and on resync) |
| `Pushes.LiveIff` | internal/manager/refcount.go:14-67 | an entry exists exactly while some route maps to it |
| `Manager.DesiredUnique` | internal/manager/reconcile.go:36-49 | the pushed list of a state is unique: sorted by key, no duplicates |
| `Manager.CleanStaysDesired` | internal/manager/manager.go:118-194 | an update leaves the desired list of every family it does not push as it was |
| `Manager.Manager.AddOwner` | internal/manager/refcount.go:14-34 | the new maps, and "dirty" exactly when the entry had no owner |
| `Manager.Manager.RemoveOwner` | internal/manager/refcount.go:40-67 | the new maps, and "dirty" exactly when the last owner left |
| `Manager.Manager.RemoveSessionOwner` | internal/manager/refcount.go:71-85 | the session leaves one entry; dirty exactly when nobody is left |
| `Manager.Manager.RemoveSessionOwners` | internal/manager/manager.go:180-188 | the session leaves every entry it owns; dirty families exactly those that lost one |
| `Manager.Manager.RemoveRoute` | internal/manager/refcount.go:101-113 | the new maps and the dirty family |
| `Manager.Manager.ForgetRoute` | internal/manager/refcount.go:133-145 | a route that maps to the given key is gone and no empty table stays; an unknown route or another key changes nothing |
| `Manager.Manager.RememberRoute` | internal/manager/refcount.go:124-131 | the route maps to the key |
| `Manager.Manager.Desired` | internal/manager/reconcile.go:36-49 | the live entries of the family, each once, in key order |
| `Manager.Manager.Reconcile` | internal/manager/reconcile.go:25-34 | one push of the desired list; a success installs it, a failure changes nothing; the other family is untouched |
| `Manager.Manager.Announce` | internal/manager/manager.go:118-161 | translation, replacement and push refine the specification step and keep every family in step; exactly the dirty families are pushed, once each, with their desired list |
| `Manager.Manager.Withdraw` | internal/manager/manager.go:163-172 | the same for a withdrawal, pushes included |
| `Manager.Manager.SessionDown` | internal/manager/manager.go:174-194 | the same for the end of a session, pushes included |
| `Manager.Manager.Resync` | internal/manager/manager.go:112-116 | a resync pushes both families, once each, with their desired lists, whether or not their last push succeeded, and changes no map |
| `Manager.Manager.Apply` | internal/manager/manager.go:97-110 | every update refines its specification step, keeps every family in step and pushes exactly its dirty families |
| `Acl.Blocklist` | internal/vpp/acl.go:71-107 | the pushed list denies exactly what a deny entry matches, permits the rest of its family and ignores the other |
| `Acl.PermitAnyMatches` | internal/vpp/acl.go:89-107 | the trailing entry matches exactly the packets of its family |
| `InterfaceLists.SplitNonManaged` | internal/vpp/attach.go:124-137 | the partition with positions compared as bytes; it is the manual ACLs of each side, in order, if and only if no index past position 255 strays into the inputs |
| `InterfaceLists.MergeManagedLast` | internal/vpp/attach.go:141-152 | for every list, ours come last on our side of the partition and nothing else is added or lost, the input count being its last byte; when no index strays these are the manual ACLs of each side, in order |
| `InterfaceLists.ToldIff` | internal/vpp/attach.go:67-81 | VPP, told both counts in one byte each, is told the list as it is if and only if that has at most 255 ACLs |
| `InterfaceLists.MergeKeepsOthers` | internal/vpp/attach.go:141-152 | whatever part of the managed ACLs is stripped, the other ACLs stay on both sides in order |
| `InterfaceLists.MergeKeepsManual` | internal/vpp/attach.go:141-152 | order and input/output split of the manual ACLs survive |
| `InterfaceLists.MergeIdempotent` | internal/vpp/attach.go:141-152 | attaching twice is attaching once |
| `InterfaceLists.DetachUndoesMerge` | internal/vpp/cleanup.go:105-137 | detaching after an attach leaves exactly the manual lists |
| `InterfaceLists.DetachRestores` | internal/vpp/cleanup.go:105-137 | a list that held nothing of ours comes back as it was |
| `InterfaceLists.AttachAll` | internal/vpp/attach.go:35-87 | every data-plane interface is told the merged list, every other keeps its own |
| `InterfaceLists.DetachAll` | internal/vpp/cleanup.go:105-137 | every interface that holds one of our indices loses them and nothing else; every other is left alone |
| `Reconnect.Safety` | internal/vpp/client.go:139-192 | under every interleaving of updates, pushes that fail or succeed, VPP restarts, operators' edits, bootstraps that stop anywhere and resyncs: once bootstrapped both indices belong to the running VPP generation, and a family with nothing pending and no failed last push holds an ACL that enforces exactly the standing announcements |
| `Reconnect.Recovers` | internal/vpp/client.go:139-192 | from every reachable state, whatever failed or was interrupted, the run can go on to one that has taken every update queued, with VPP bootstrapped, all data-plane interfaces worked through, no ACL of ours left over but for those on a list, and both families quiet, so that `Safety` applies |
| `Reconnect.NextInv` | internal/vpp/client.go:139-192 | every step of every actor keeps the system invariant |
| `Reconnect.RunInv` | internal/vpp/client.go:139-192 | the invariant holds in every reachable state |
| `Reconnect.InterfaceSafety` | internal/vpp/client.go:139-192 | what a packet meets on every data-plane interface the last bootstrap dumped, except those whose merged list had no room, under every interleaving, operators' edits included: once bootstrapped and the packet's family quiet, our pair is last on our side, the first match among the ACLs of others decides, and failing that the packet is denied exactly when a standing announcement covers it |
| `Reconnect.NoRoomMeaning` | internal/vpp/attach.go:66-85 | an interface is excepted only if in this run an attach met it with a merged list of more than 255 entries, or the first bootstrap before the run did |
| `Reconnect.PushKeepsForeignIff` | internal/vpp/acl.go:23-56 | all pushes of a family, failed ones included, leave the ACLs of others alone if and only if the family's index is unset, names no ACL, or names one with our tag |
| `Reconnect.PushWritesOwnIff` | internal/vpp/acl.go:35-53 | every push writes a new ACL or the family's own of the running VPP if and only if its handle is unset, of the running generation, or names nothing |
| `Reconnect.OnlyStaleHarms` | internal/vpp/acl.go:35-53 | in a reachable state only a handle from before a VPP restart can name an ACL of others, and never once re-bootstrapped |
| `Reconnect.StalePushRun` | internal/vpp/acl.go:35-53 | a run in which that happens: after a VPP restart and before the re-bootstrap, a push replaces an operator's ACL that got the stale index |
| `Reconnect.BootKeepsForeign` | internal/vpp/client.go:121-192 | no step of a bootstrap touches an ACL of others, and only the writes of attaching touch interface lists; every other step, orphan cleanup included, keeps the entries of others on all lists, in order |
| `Reconnect.AttachKeepsForeignIff` | internal/vpp/attach.go:35-87 | attaching an interface from a list that still stands keeps the entries of others on both sides of every list, in order, if and only if the merged list has at most 255 entries and both indices of our pair name ACLs with our tag |
| `Reconnect.AttachKeepsEditsIff` | internal/vpp/attach.go:35-87 | with room and a pair of ours, it does so if and only if what was kept of the dumped list is what the list holds of others now |
| `Reconnect.PairTaggedUnlessRestarted` | internal/vpp/client.go:139-160 | in a reachable state the pair can fail to be ours only if VPP restarted since the bootstrap began |
| `Reconnect.UneditedIsCarried` | internal/vpp/attach.go:62-85 | a list nobody edited since the dump is kept as it stands, as long as only ACLs with our tag are stripped |
| `Reconnect.RestartWhileAttachingRun` | internal/vpp/client.go:139-160 | a run in which attaching fails others: VPP restarts inside a bootstrap, an operator's ACLs get our indices, and they are attached to an interface where nobody had put them |
| `Reconnect.LostEditRun` | internal/vpp/attach.go:62-85 | a run in which an operator's entry, added after the lists were dumped, is removed |
| `Reconnect.OutgrownRun` | internal/vpp/attach.go:66-77 | runs in which an interface with any 254 ACLs of an operator loses them all, the count of 256 being told as zero |
| `Reconnect.AttachOneInv` | internal/vpp/attach.go:66-85 | attaching one interface, whether or not the tag dump failed, leaves our pair last on our side and keeps the invariant |
| `Reconnect.TakeInv` | cmd/flowspec-vpp-agent/main.go:108-116 | taking the next update off the single queue, a resync included, keeps the invariant |
| `Reconnect.CleanupOneInv` | internal/vpp/cleanup.go:45-65 | the orphan cleanup at the end of a bootstrap never deletes the pair in use |
| `SampleRing.SlotIndexIs` | internal/detector/store.go:14-20 | the folded index is the Euclidean remainder, in range for negative epochs too |
| `SampleRing.Ring.Add` | internal/detector/store.go:101-109 | the slot update refines appending to the log |
| `SampleRing.Ring.Aggregate` | internal/detector/store.go:113-166 | the loop reports, for samples in time order, the number that `Says` states by time: a sum is the bits or packets sampled in the window, an average that amount per second, a peak the largest epoch's amount per second |
| `SampleRing.RingReadingSays` | internal/detector/store.go:113-166 | the same of any ring that can serve the term, for samples after the Unix epoch read at their newest or later |
| `SampleRing.LogReadingSays` | internal/detector/store.go:134-165 | the number a full log of samples gives: eight bits to a byte, nanoseconds to a second, each sample counted with its weight |
| `SampleRing.EpochIsTime` | internal/detector/store.go:97-99 | an epoch is the stretch of time between two multiples of the resolution |
| `SampleRing.RingRefinesLog` | internal/detector/store.go:97-166 | for samples in time order, a term on a ring picked for it reports what the full sample log would |
| `SampleRing.Ring.ReadingIsLog` | internal/detector/store.go:113-166 | the same for the ring object and its own log |
| `SampleRing.ReadingNeverOver` | internal/detector/store.go:97-166 | in any sample order no reading exceeds the log's |
| `SampleRing.RingAgrees` | internal/detector/store.go:101-109 | every epoch less than a ring behind the newest is held exactly |
| `SampleRing.RingNeverOver` | internal/detector/store.go:101-109 | no epoch is ever over-counted, in any order |
| `SampleRing.RingExactIff` | internal/detector/store.go:101-109 | in any arrival order an epoch is held exactly if and only if none of its nonempty samples precedes a sample of another epoch of the same slot |
| `SampleRing.ChooseRing` | internal/detector/compile.go:637-667 | the first of the coarsest rings that serve window and offset, or none when none does |
| `SampleRing.CompiledSpan` | internal/detector/compile.go:533-547 | an accepted ring has a slot and spans exactly its configured duration |
| `SampleRing.CompileRingIff` | internal/detector/compile.go:533-547 | a ring is accepted exactly when its duration is some positive number of resolutions |
| `SampleRing.CanServeIff` | internal/detector/compile.go:650-662 | the rings admitted for a term are exactly those whose epochs divide window and offset and whose total of the window is the log's on every ordered log |
| `SampleRing.WindowHeld` | internal/detector/compile.go:637-667 | a window and offset admitted by the choice lie within the ring's reach |
| `Spread.Estimator.Observe` | internal/detector/spread.go:178-203 | buffer, counts and `distinct` describe exactly the last min(window, length) samples; the result is 100 times the distinct regions over buckets, rounded down; the byte counts never wrap |
| `Spread.Estimator.constructor` | internal/detector/spread.go:163-173 | an empty history, with a window of at least 16 samples |
| `Spread.SuffixStep` | internal/detector/spread.go:178-199 | how the window moves by one sample |
| `Regions.RegionExact` | internal/detector/spread.go:93-121 | for IPv4 and IPv6 masks of 64 or more the region is floor(varying * n / 2^spreadBits) |
| `Regions.WideWord` | internal/detector/spread.go:93-121 | for shorter IPv6 masks the two shifts join to the top word of the varying bits |
| `Regions.RegionInRange` | internal/detector/spread.go:93-121 | the region is below n for every mask |
| `Regions.RegionMonotone` | internal/detector/spread.go:93-121 | within a prefix, larger addresses are never in a smaller region |
| `Regions.EveryRegionReached` | internal/detector/compile.go:817-833 | with the configured bucket count every region is reached by some address |
| `Regions.BucketsFit` | internal/detector/compile.go:817-833 | a masked field has at least one bucket, and as many as addresses up to 20 |
| `Regions.IpBucketsIff` | internal/detector/compile.go:817-833 | an address field is measured exactly when it has more than one address, in as many regions as addresses but at most twenty |
| `Regions.PortRegionInRange` | internal/detector/spread.go:124-142 | a port region is below n |
| `SpreadFields.BucketInRange` | internal/detector/spread.go:63-74 | for every configured field, IPv4 or IPv6 address or port, and every sample the rule matches, the region is below the field's bucket count, which is at most 20: what the estimator requires |
| `SpreadFields.CompileFieldIff` | internal/detector/compile.go:778-862 | which gates a rule can have and over how many regions: an address of a set family kept to fewer bits than a host, or a port aggregate of more than one port; one region for each address or port, at most twenty |
| `SpreadFields.AddrRegionReached` | internal/detector/compile.go:817-833 | at IPv4 and IPv6, with the configured count, every region is that of some address |
| `SpreadFields.PortRegionReachedIff` | internal/detector/compile.go:839-862 | a port region r is reached by some port if and only if r times the size is at most 65535 times the count |
| `SpreadFields.AllPortRegionsIff` | internal/detector/compile.go:839-862 | every port region is reached if and only if a bucket, where ports are in buckets, has at most 68984 ports |
| `SpreadFields.GateOpensIff` | internal/detector/rule.go:159-169 | some history over a set of regions meets a minimum ratio if and only if the set is share enough of all regions: the estimator's window can show them all |
| `SpreadFields.PortGateOpensIff` | internal/detector/rule.go:159-169 | for every port gate and instance: some sequence of the instance's ports meets the minimum ratio if and only if the regions up to that of its last port are share enough |
| `SpreadFields.NarrowInstances` | internal/detector/compile.go:839-862 | gates that never open fully: with buckets of 131072 ports region 10 is that of no port and at most half of the regions show, and in the last bucket of 60000 at most a tenth |
| `HeavyKeeper.Sketch.Add` | internal/detector/heavykeeper.go:80-105 | for every outcome of the draws: one bucket per row takes the credit, and no bucket credits a key beyond its true decayed weight |
| `HeavyKeeper.Sketch.DecayAll` | internal/detector/heavykeeper.go:120-135 | every counter is scaled, or freed below one, so that none is left between zero and one; a factor outside (0, 1) does nothing; the bounds are kept |
| `HeavyKeeper.Sketch.Estimate` | internal/detector/heavykeeper.go:108-117 | the largest count a row holds for the key |
| `HeavyKeeper.Sketch.NeverOver` | internal/detector/heavykeeper.go:108-117 | 0 <= estimate <= true decayed weight, after every history |
| `HeavyKeeper.Sketch.PrivateIsNear` | internal/detector/heavykeeper.go:80-135 | with one row without colliding keys the estimate falls short of the true decayed weight by at most one for each ageing pass; without ageing it is exact |
| `HeavyKeeper.VoteStep` | internal/detector/heavykeeper.go:84-104 | on a draw that hits, a bucket moves by the whole weight: towards its key when that arrives and by no more than the weight against it when another does |
| `HeavyKeeper.MajorityHolds` | internal/detector/heavykeeper.go:84-104 | when all draws hit, a key that outweighs all others in its bucket together holds it, with at least the margin |
| `HeavyKeeper.MissedDraw` | internal/detector/heavykeeper.go:91-95 | on a draw that misses, another key's bucket is left alone |
| `Admission.Pool.Observe` | internal/detector/rule.go:121-152 | the sketch counts the sample first; the pool then stays, grows, or swaps one resident for the candidate |
| `Admission.Pool.Admit` | internal/detector/store.go:224-241 | the pool never exceeds its maximum and each key maps to its own instance; a newcomer to a full pool takes the place of the weakest resident looked at exactly when its estimate is strictly larger |
| `Admission.Pool.AdmittedIff` | internal/detector/store.go:224-241 | in a full pool of at most sixteen, a newcomer is admitted if and only if its estimate exceeds that of some resident |
| `Admission.Pool.WeakestOfSample` | internal/detector/store.go:249-263 | a weakest of the residents looked at, which are sixteen, or all when there are no more |
| `Admission.Pool.EvictionJustified` | internal/detector/store.go:224-241 | a resident gives way only to a candidate whose hash weighs more than the resident's estimate; that is the true weight of all descriptors with the hash, and of the candidate alone when no two share one |
| `Findings.Instance.EvalInstance` | internal/detector/rule.go:289-320 | the debounce and throttle of one tick, as the step `Eval` |
| `Findings.Instance.ShouldEmit` | internal/detector/store.go:73-79 | emits exactly when there was no event or the interval has passed, and records it |
| `Findings.EmitsIff` | internal/detector/rule.go:289-320 | exactly when a tick emits, over the whole history: the trigger is true, it has held for `sustained` (evaluation errors in between do not count against it), and no earlier emission is less than `emitInterval` before |
| `Findings.NoEarlyEvent` | internal/detector/rule.go:304-314 | no event fires before the trigger has held for `sustained` |
| `Findings.EventsSpaced` | internal/detector/store.go:73-79 | any two events are at least `emitInterval` apart |
| `Findings.NextEventDue` | internal/detector/rule.go:304-317 | while the trigger holds, an event comes as soon as a tick is `emitInterval` past the last |
| `Findings.EventsNotTooFar` | internal/detector/rule.go:304-317 | while it holds, successive events are less than `emitInterval` + d apart for ticks at most d apart |
| `Findings.LeaseNeverLapses` | internal/detector/compile.go:224-227 | with `emitInterval` + d <= ttl the lease set by the latest event outlives the next tick |
| `Sustained.RunTicks` | internal/localrules/controller.go:146-196 | the instance and the controller driven together over any ticks, among other leases and with any events of other findings delivered before and after the finding's own: its lease and the updates sent for its rule are as the specification of a run says, for any refresh setting, lease time and dry-run |
| `Sustained.LeaseHeld` | internal/localrules/controller.go:146-196 | from an event on, at every tick for as long as the trigger holds, the lease is there and is the one the latest event set |
| `Sustained.NothingSent` | internal/localrules/controller.go:146-196 | and nothing more is sent for the rule: it is neither withdrawn nor announced again |
| `Sustained.NeverLapsesIff` | internal/localrules/controller.go:146-196 | with refresh on, every sustained finding keeps its rule at every pace of at most d if and only if the event interval plus d is at most the lease time |
| `Sustained.CompiledNeverLapsesIff` | internal/detector/compile.go:224-227 | the same for compiled rules, in terms of lease time, finest ring and d |
| `Leases.Controller.ApplyEvent` | internal/localrules/controller.go:146-178 | leases and updates sent, case by case, for every event; replaying the updates keeps giving the detector exactly the accepted rules of its leases when the rule text is that event's own |
| `Leases.WithdrawKeepsIff` | internal/localrules/controller.go:180-196 | ending a lease leaves exactly the accepted rules of the others announced if and only if none of them has an accepted rule of the same route |
| `Leases.SharedTextLoses` | internal/localrules/controller.go:180-196 | a failing case from every mirrored state: a second event leased for the rule of the first loses its rule when the first expires |
| `Leases.Controller.Expire` | internal/localrules/controller.go:180-196 | exactly the leases that end after now are kept, each of the others is withdrawn once, and the mirror holds |
| `Leases.Controller.WithdrawAll` | internal/localrules/controller.go:198-206 | no lease and no announced route is left, each lease withdrawn once |
| `Leases.Controller.NextWake` | internal/localrules/controller.go:221-235 | the time to the earliest expiry, one nanosecond if that is due, an hour without leases |
| `Leases.MirrorsIsAnnounced` | internal/localrules/controller.go:146-206 | with an owner for each rule text, the mirror says that the detector's routes are exactly the accepted rules of its leases |
| `Leases.ManagerMirrorsLeases` | internal/localrules/controller.go:146-206 | however the updates interleave with other sessions, the manager holds for the detector exactly its leases' entries |
| `Leases.SessionsIndependent` | internal/manager/manager.go:118-194 | updates of other sessions and resyncs do not touch a session's routes |
| `Detector.DropCoversClass` | internal/detector/rule.go:250-287 | for matched samples, the drop built from one's descriptor covers the other exactly when both have the same descriptor, that is, are one by `SameDescriptorIff` (and any fixed port range contains its ports, and ICMP goes with the family) |
| `Detector.SameDescriptorIff` | internal/detector/rule.go:250-287 | samples share a descriptor exactly when family, protocol unless collapsed, addresses above the mask (the whole address when the mask is out of range), ports of TCP and UDP to the port aggregate and kept ICMP fields are the same |
| `Detector.MatchesIff` | internal/detector/rule.go:196-245 | a rule matches a sample that carries the filtered fields exactly when the FlowSpec rule made of its filters covers the packet, the family is the rule's and the length is in bounds |
| `Detector.DropCoversIff` | internal/detector/rule.go:393-525 | for every choice of wildcards, the drop built from one matched sample covers exactly the matched samples that agree with it on every field the drop names |
| `Detector.DropAcceptedIff` | internal/detector/rule.go:393-525 | for every choice of wildcards, the translator accepts the drop if and only if a named ICMP field goes with the family unless the protocol is wildcarded, and a named port under a wildcarded protocol comes with TCP flags |
| `Detector.AnyProtoRejected` | internal/detector/rule.go:393-525 | a rule that compiles and matches and whose drop is rejected: UDP with exact ports and the protocol wildcarded |
| `Detector.EntryMatchesIff` | internal/detector/rule.go:393-525 | for every choice of wildcards, the ACL entry of an accepted drop matches, among the samples the rule matches, exactly those that agree on what the entry names |
| `Detector.EntryMatchesClassIff` | internal/detector/rule.go:393-525 | a default drop becomes an entry that matches, among the samples the rule matches, exactly those of the same descriptor with ports in any fixed range, if and only if any ICMP field goes with the family, and the rule collapses protocols, the sample's protocol is not 0, or the rule matches protocol 0 alone |
| `Detector.StopsOwnSampleIff` | internal/detector/rule.go:393-525 | a drop stops the sample it was built from if and only if it is accepted, named ports lie in any fixed range and a named ICMP field goes with the family |
| `Detector.WildcardsOnlyWiden` | internal/detector/rule.go:393-525 | the entry of an accepted drop matches every sample of the class that FlowSpec can express, whatever is wildcarded |
| `Detector.PrefixAligned` | internal/detector/rule.go:630-651 | the emitted prefix holds of an address exactly when it masks to the same address, that is, agrees above the mask, in full when the mask is out of range |
| `Detector.PortAligned` | internal/detector/compile.go:403-419 | the emitted port list holds of a port exactly when it has the same aggregate |
| `Detector.FlagOpsHold` | internal/detector/rule.go:686-700 | the emitted flag list means `flags & care == want` and is accepted |
| `Detector.PortOpsHold` | internal/detector/rule.go:702-710 | the emitted port list means its range |
| `DetectorEvents.DetectedIsDropped` | internal/detector/rule.go:393-460 | from a sample to the verdict: while the accepted drop of a sample is leased, and whatever other sessions announce, the ACL of its family denies every matched sample that agrees with it on what the entry names |
| `DetectorEvents.SustainedIsDropped` | internal/localrules/controller.go:146-196 | from a finding's event on, at every tick while its trigger holds, every matched sample of its class that FlowSpec can express is denied, if an event interval and a tick fit within the lease time |
| `DetectorEvents.EventIdentityIff` | internal/detector/rule.go:320-336 | for rules with unique names: two events have the same id exactly when rule name and descriptor are the same, and so for the texts of the rules they announce |
| `DetectorEvents.EventOwned` | internal/detector/rule.go:453-458 | one function from routes to event ids names the event of every rule the detector emits, whatever the rules are called |
| `DetectorEvents.EventsApart` | internal/detector/rule.go:320-336 | events of different findings are the other findings' events that a run of a finding allows for |
| `DetectorEvents.KeyTextInjective` | internal/detector/rule.go:598-626 | the text of a descriptor tells the descriptor, ICMP fields that may be absent included |
| `DetectorEvents.SplitUnique` | internal/detector/rule.go:330-336 | rule name and descriptor can be told from their joined text, although a name may hold any character |
| `Wire.RoundTripIff` | internal/bgp/encode.go:30-71 | reading back an encoded rule returns its match if and only if the rule has no unmapped component and, for IPv4, no prefix offset |
| `Wire.ParseStamped` | internal/flowspec/parse.go:124-149 | length and end-of-list bits set by the library never change what is read back (section 4.2.1 of RFC 8955) |
| `Wire.ParsedIsCarried` | internal/flowspec/parse.go:58-149 | what is read back is exactly what the encoder carries |
| `Wire.EncodeNLRIIff` | internal/bgp/encode.go:30-71 | a rule is encoded exactly when each prefix is of the rule's family and a component that the wire carries is present |
| `Wire.ParseIs` | internal/flowspec/parse.go:58-122 | for any components: each mapped list is that of the last component of its type, and the marks of components never mapped tell exactly which of them occur |
| `Wire.UnmappedIff` | internal/flowspec/parse.go:58-122 | which component lists are read as rules that are never accepted for their components |
| `Wire.OperatorBits` | internal/bgp/encode.go:84-130 | the operator bytes sent have exactly the bits that sections 4.2.1.1 and 4.2.1.2 of RFC 8955 give the operators |
| `StatsRing.SlotIsMean` | internal/vppstats/store.go:340-351 | for polls in time order a slot counts exactly the polls of its epoch and holds their arithmetic mean, field by field |
| `StatsRing.FoldIsMean` | internal/vppstats/store.go:419-428 | folding one more sample into a mean gives the mean of the longer list |
| `StatsRing.Aggregate` | internal/vppstats/store.go:355-381 | the loop reports the mean of the populated slots or their per-field maximum |
| `StatsRing.ReadingIsLog` | internal/vppstats/store.go:355-381 | a covered window after the Unix epoch reads off the ring what it reads off the full log of polls |
| `StatsRing.ReadingSays` | internal/vppstats/store.go:355-381 | field by field a covered window reports the mean, over its epochs with polls, of the arithmetic mean of each epoch's polls, or the largest of these and never below zero |
| `StatsRing.FieldsAreAll` | internal/vppstats/store.go:387-396 | the six fields so reported are the whole rates, each in its place |
| `StatsRing.CoversIff` | internal/vppstats/store.go:104-114 | the coverage test is the one by which a sample ring serves a window, so it is exact in the same sense |
| `StatsRing.PeakBounds` | internal/vppstats/store.go:355-381 | the peak of a window bounds every epoch in it |
| `StatsStore.CoveredFindsRing` | internal/vppstats/store.go:89-114 | a runtime ring is found exactly when the startup test passed, or for a ring configured shorter than its own resolution with the window equal to that resolution and no offset |
| `StatsStore.DefaultCoversIff` | internal/vppstats/store.go:48-102 | without a configuration: whole seconds within five minutes, whole minutes within a day, or whole hours within thirty days |
| `StatsStore.ChooseRing` | internal/vppstats/store.go:293-304 | the first of the coarsest rings that cover the window, or none when none does |
| `StatsStore.Store.Add` | internal/vppstats/store.go:137-152 | the poll joins the log of its interface in all three rings, aliases lead to it, and the total is the sum of the latest rates |
| `StatsStore.Store.RecomputeTotal` | internal/vppstats/store.go:156-162 | the sum of all interfaces' latest rates, in whatever order the map yields them |
| `StatsStore.Store.CoveredHasChoice` | internal/vppstats/store.go:86-114 | what passed the startup test finds a ring on every known interface |
| `StatsStore.Store.InterfaceWindow` | internal/vppstats/store.go:235-247 | a reading exactly for a known name or alias and a window some ring serves |
| `StatsStore.Store.TotalWindow` | internal/vppstats/store.go:253-267 | all interfaces are read off one and the same ring choice and summed |
| `StatsStore.Store.TotalPeakBounds` | internal/vppstats/store.go:249-267 | with peak, the total bounds the sum over interfaces for every epoch in the window |
| `Persistence.EngineRoundTrip` | internal/detector/persist.go:79-126 | importing an export into a fresh copy with unique names restores every instance |
| `Persistence.RestartSameEvents` | internal/detector/rule.go:174-183 | any sequence of ticks then yields, rule by rule, the events the original engine would report, with every trigger term computed from the instance's rings or the interface statistics and the trigger any function of the terms |
| `Persistence.RunReports` | internal/detector/rule.go:289-340 | over a run without new samples, an instance is reported at a tick, with its event, exactly when that tick emits by its whole past and its drop can be built |
| `Persistence.AgedByTime` | internal/detector/rule.go:185-194 | a sketch whose ageing adds up ages by the time that has passed, however many ticks there were |
| `Persistence.OwnTermSays` | internal/detector/rule.go:342-353 | a term over the instance's own ring says how much of its samples fell into the window |
| `Persistence.InterfaceTermSays` | internal/detector/rule.go:355-391 | a windowed term over the ingress interface says its field of the mean, or peak, of the interface's polls in the window |
| `Persistence.TotalTermIs` | internal/detector/rule.go:355-391 | a term over all interfaces reports its field of the latest total, or of the window's peak or mean, and zero without one |
| `Persistence.UnknownInterface` | internal/detector/rule.go:365-389 | a term over the ingress interface reads zero until the instance has one that is known |
| `Persistence.ValuesByExport` | internal/detector/rule.go:342-391 | all trigger terms of two instances with the same export have the same values, at any time and for any statistics |
| `Persistence.ExportDetermines` | internal/detector/persist.go:128-169 | two instances of a rule with the same export differ at most in their diversity estimators |
| `Persistence.TickAgrees` | internal/detector/rule.go:289-340 | rules with equal exports report the same and have equal exports again after a tick, whatever their sketches and estimators hold |
| `Persistence.ImportKeepsValid` | internal/detector/persist.go:95-126 | whatever was saved, damaged or not, import never exceeds a pool's maximum and keys and slot layouts stay right |
| `Persistence.InstanceRoundTrip` | internal/detector/persist.go:108-169 | one instance comes back with its times, interface and all slots of the rings it has |
| `Persistence.KeyRoundTrip` | internal/detector/persist.go:171-218 | a descriptor comes back from its saved bytes |
| `Persistence.Engine.Export` | internal/detector/persist.go:79-90 | every rule with every instance once, in whatever order the map yields them |
| `Persistence.Engine.Import` | internal/detector/persist.go:95-126 | rules gone or changed are skipped, the others filled up to their maximum |
| `Persistence.UnmatchedUntouched` | internal/detector/persist.go:95-107 | saved rules of another name, fingerprint or ring shape leave a rule as it was |
| `Persistence.ImportTakesAll` | internal/detector/persist.go:108-124 | with room for the list every readable instance is taken, the last of a key, and an unreadable one does not stop the rest |
| `Persistence.ImportFull` | internal/detector/persist.go:109-111 | a full pool takes nothing more |
| `Persistence.ImportSlots` | internal/detector/persist.go:162-169 | slots copied into a ring of the same length, untouched otherwise |
| `Persistence.TickRule` | internal/detector/rule.go:174-183 | every instance evaluated once, in whatever order; exactly the events due are reported |

## Left out

- The GoBGP server, its policies, watch callbacks and path attributes, and the reading of actions: wrappers over a library.
- GoVPP calls, dump streams and prefix conversion: VPP is a map of tagged ACLs and of interface lists.
- Packet capture and decoding (sFlow, psample) and the statistics poller: input parsing and I/O; the model starts from a decoded sample or poll.
- YAML configuration, fingerprints, trigger expressions and templates: a trigger is any function of its terms' values, a fingerprint is compared and not computed, and emission has the default and the wildcard mode only.
- Logging, metrics, notifications, HTTP status and snapshots: observability.
- Behaviour after the context is cancelled: sends may then be dropped by design.
- Overflow of 64-bit counters and durations.
- Floating-point rounding: rates and sketch counts are exact reals.
- The sketch's hash and index mixing: any function; nothing is said about how often keys collide.
- Encoding a prefix through the BGP library's text form: taken as the identity.
- The binary encoding of the history file and IPv6 zones in saved addresses: saved states are values, addresses are 4 or 16 bytes.
- How an address is written as text: any injective way in hexadecimal digits, dots and colons (`DetectorEvents.Writes`); zones are not part of this model.
- Reconnect.AttachKeepsForeignIff: for a merged list of more than 255 entries it speaks of attaches whose dump of tags succeeded; after a failed dump such a list may lose only orphans of ours.
- Reconnect.Recovers: the agent can recover from every reachable state; that VPP and its connection let it is up to them.
- Persistence.RestartSameEvents: covers ticks only; diversity estimators and admission sketches are not saved, so later samples may be admitted differently.
- StatsStore.Store.Add: the rings of an interface are values in the store's map, and an alias leads to its interface by name; sharing of ring objects is not modelled.
- Persistence.Engine.Import: instances are values in a rule's pool; `Persistence.ImportSlots` shows the slot copy on arrays by itself.
