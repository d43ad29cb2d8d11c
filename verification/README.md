# CausalWorks, modelled and proved in Dafny

CausalWorks replays a packet capture of an automation cell, classifies each frame onto a node of a
declared dependency graph, keeps the last `CAP` classified events in a ring, detects a falling safety
interlock (a *trip*), walks the graph backwards from the trip and ranks the edges whose observed gap
exceeded its budget. This project models the whole path from the bytes of a capture to the stored
evidence row, together with manifest validation, preflight and discovery, and proves what the results
mean.

`dafny verify dfyconfig.toml` checks everything.

## Layout

| file | models |
|---|---|
| `Basics.dfy` | fixed-width integers, options and results |
| `Ingest.dfy`, `FrameBuilders.dfy` | the frame parser; the fixture builders as its inverse |
| `Wire.dfy`, `FrameMeaning.dfy`, `CaptureBytes.dfy` | what the bytes of a frame and of a capture file say, in the numbers of their standards; the parser, the node table, the readers and the writer measured against that |
| `CausalTypes.dfy`, `RingBuffer.dfy`, `Observer.dfy` | matchers, ring buffer, trip detector and the worklist walk, as classes and loops |
| `History.dfy`, `Runs.dfy`, `Captures.dfy` | whole runs of the engine as the sequence of transitions they record; which of them a node table, and the frames of a capture, can produce |
| `BackwardWalk.dfy`, `LookupMeaning.dfy`, `Ranking.dfy`, `Attribution.dfy` | the walk as a function of the ring's view, the ranking, and the theorems about chains and budgets |
| `Graphs.dfy`, `Completeness.dfy` | paths, orders and funnels; on a funnel the walk sees everything |
| `Scenarios.dfy`, `WalkMirror.dfy`, `Verdicts.dfy` | a family of runs around a fork, walks that agree although reports moved, and the exact conditions for completeness and for the verdict, of what the ring holds |
| `Eviction.dfy`, `ManifestVerdicts.dfy`, `HiddenViolation.dfy` | the same judged against the whole run; for accepted manifests and capture files; two worked counterexamples |
| `Manifest.dfy`, `LintMeaning.dfy` | validation with the three-colour cycle check; the lints |
| `Buckets.dfy`, `Histogram.dfy`, `StreamProfiles.dfy`, `Discovery.dfy`, `CaptureToggles.dfy` | logarithmic histogram, toggle masks, discovery engine, the toggling bits of a capture |
| `PcapFormat.dfy`, `Replay.dfy`, `Streaming.dfy`, `ReaderAgreement.dfy` | the capture format, both readers, their agreement |
| `Trace.dfy`, `Storage.dfy` | evidence record, identifiers, keys and the two sinks |
| `Harness.dfy`, `Preflight.dfy`, `ManifestRun.dfy` | the command-line loops |

Each loop of the source is a Dafny method proved equal to a function of its inputs, or of a ghost log of
everything it was fed; the theorems are lemmas about those functions. The classes keep the source's
fields. Overruns are exact fractions compared by cross multiplication, so a zero budget is an infinite
overrun, as in the source. Bytes and machine words are bounded integers, so that every `u64` sum or
product the model forms is proved to fit, and the one that does not (`bucket_lower`) is written with
its wrap. Counters (`seq`, record and frame counts, bucket counts) are unbounded.

## Main results

* **Bytes.** The parser accepts exactly the frames whose bytes say PROFINET, UDP or TCP on port 102 in the numbers
  of the standards, and reads exactly their fields. In a table without overlaps a frame goes to the node it is
  addressed to, so that the trips of a run are the steps from 1 to 0 of one bit of the captured status bytes.
  Discovery files frames by what is on the wire, and the toggling bits it lists are those that some captured
  frame sets and another clears.
* **Accusations.** Every candidate names a declared edge, the recorded instances of its two ends, the gap between
  their stamps and the edge's own budget; every late step of the walk is named, once, and in the order of the
  relative overruns. Every stored row tells this of one trip, with the conclusions drawn from its first entry.
* **Attribution.** The walk's re-lookups always find the trigger that was pushed; every measured step
  ends a contiguous chain back to the trip whose gaps telescope; a chain slower than its summed budgets
  forces an attribution at least as severe as the chain (no assumption on budgets is needed); raising
  budgets never accuses, trip by trip over a whole run; each declared edge is measured at most once on any
  graph, cyclic or not.
* **What UNATTRIBUTED means.** The verdict is documented to say that no budget was violated on any
  dependency path. Two things can break that, and both are stated exactly, over all runs the node table can
  produce and all sane budgets on given wires.
  * *The walk's order.* Judged against the whole run, and as long as the run fits the ring, the verdict is
    right if and only if the trip node's ancestors form a funnel: no node that has dependencies of its own
    feeds two different nodes on the way to the trip. The same condition is exact for the walk measuring every
    upstream instance. For a longer run it is exact of what the ring still holds.
  * *The ring's size.* As soon as runs may outgrow a ring of `CAP` transitions by one (and `CAP` is at least
    two), the verdict is right if and only if no edge leads into the trip node from a node that can report,
    that is, on manifests that could never attribute anything. On a funnel, the walk sees a given run whole if
    and only if no trigger of its upstream history has been dropped.
  * Outside these conditions every accepted manifest has a twin on the same wires, and a capture file, that
    show the failure; two worked examples give the manifest itself.
  * The possible runs are exactly the histories that some frames make the engine record, and those with stamps
    below 2^32 seconds come from capture files. Edges count only between nodes that can report at all (a ROS 2
    matcher on the pose port never does).
* **Runs.** After any frames the ring is the newest-first view of the last `CAP` transitions; trips are
  the falling edges of the trip node's level sequence; a manifest-driven run never meets a duplicate key
  and stores exactly one row for each falling edge.
* **Manifests.** `build` accepts exactly the well-formed acyclic manifests and every error names a real
  fault with all earlier checks passed; no trip of any run could be attributed if and only if no edge leads
  into the trip node from a node that can report, so the unreachable-trip-node lint is never wrong.
* **Histogram.** The quantile estimate is the larger of the minimum and the lower edge of the bucket of the
  true order statistic, and never above the statistic. From 2 up it is less than an eighth below it if and
  only if the bucket's product does not overflow, or the minimum itself is that close; where a higher rank
  gets a lower estimate is stated exactly too; no gap decoded from a capture overflows.
* **Stores.** Fed the same rows from empty, both sinks accept exactly the first row of every key and answer
  every range query with the same rows.
* **Readers.** Round trip in all four byte orders and precisions, eager and streaming reader agree on
  every byte sequence, and nothing depends on how reads are chunked.

## Where the code differs from its own documentation

* `backtrack` (src/causal.rs:268-276) describes a breadth-first search; the frontier is a stack, and the
  model is last in, first out.
* src/causal.rs:14-17 and the repository's README say that an unattributed trip had no budget violated.
  Outside a funnel that does not follow (`Eviction.VerdictExactIffFunnel`,
  `HiddenViolation.ViolationIsHidden`). On a funnel it does not follow either once the ring has dropped a
  transition (`Eviction.VerdictExactIffUnfed`, `HiddenViolation.ViolationIsDropped`): a trigger that was
  evicted is not looked for.
* src/causal.rs:296-297 speaks of the latest transition before the effect; the lookup finds the most recently
  recorded one. The two differ when stamps are reordered (`LookupMeaning.FindsLatestIff`, `ReorderedLookup`).
* The unreachable-trip-node lint (src/manifest.rs:219-226) is silent about a trip node fed only by nodes that
  never report, although no trip can be attributed then either (`LintMeaning.SilentLint`).
* `build` (src/manifest.rs:150-198) checks neither that `bit_index` is below 8, which `matches` needs for
  its shift, nor that two nodes do not claim the same frame, in which case the map's iteration order
  decides. Both conditions are stated exactly (`Manifest.Build`, `CausalTypes.ClassificationUniqueIff`).
* `bucket_lower` (src/discovery.rs:75-84) overflows 64 bits for values in [3·2^61, 2^63) and from 5·2^61;
  the higher of two ranks can then get the lower estimate (`Histogram.OverflowBreaksMonotony`).
* The toggle mask does not grow to the longest payload (src/discovery.rs:178-181); it keeps the length of
  the first non-empty one, so bits that toggle beyond it are not listed
  (`StreamProfiles.ToggleBeyondReference`; `ListsAllForLengths` says for which lengths none are missed).
* Preflight's comment (src/bin/harness.rs:175-184) says TCP is rejected; frames with port 102 on either
  side are accepted.

## Model

| member | source | states |
|---|---|---|
| FrameMeaning.AcceptedExactly | src/ingest.rs:211-369 | a frame is accepted iff its bytes say PROFINET (0x8892), UDP (IPv4 protocol 17, with 60008 for poses) or TCP (protocol 6) on port 102, behind at most one tag, and the fields are those bytes |
| FrameMeaning.RejectedExactly | src/ingest.rs:211-369 | every other frame is rejected with the error that fits its bytes |
| Ingest.TruncationExact | src/ingest.rs:211-369 | a prefix of an accepted frame is accepted exactly from the needed length on, with the same protocol fields |
| Ingest.PrefixDecidesDecode | src/ingest.rs:211-369 | if a prefix is accepted the whole frame is, with the same protocol fields |
| Ingest.TimestampIsCarried | src/ingest.rs:211-233 | the timestamp and the raw bytes are carried through and decide nothing |
| Ingest.VlanTransparent | src/ingest.rs:216-232 | one 802.1Q tag before a non-VLAN EtherType changes no decode and no error; a second tag is always rejected |
| FrameBuilders.ProfinetFrameParses | src/bin/harness.rs:613-626 | parsing a built PROFINET frame returns its FrameID and interlock level |
| FrameBuilders.UdpFrameParses | src/bin/harness.rs:627-652 | parsing a built UDP frame, behind any IPv4 options, returns port, length or coordinates; only the pose port insists on twelve bytes |
| FrameBuilders.TcpFrameParses | src/ingest.rs:294-319 | TCP is accepted exactly when either port is 102 |
| CausalTypes.DependencyManifest.Classify | src/causal.rs:114-121 | returns some matching node with its level, or none when no node matches |
| FrameMeaning.MatchesFromWire | src/causal.rs:51-72 | a matcher claims exactly the frames addressed to it by FrameID, destination port or pose port, with the level of its own bit of the status byte |
| FrameMeaning.ClassifiedFromWire | src/causal.rs:114-122 | without overlaps, an accepted frame goes to the node it is addressed to, with that level, and to none if there is none |
| CausalTypes.ClassificationUniqueIff | src/causal.rs:51-121 | classification is independent of map order on every frame iff no two matchers overlap |
| CausalTypes.IncomingInOrder | src/causal.rs:101-104 | incoming edges keep their declaration order, list part by list part; `IncomingOfOne` is the single edge |
| CausalTypes.NewManifest | src/causal.rs:97-112 | the reverse adjacency holds each node's incoming edges, in order, and nothing else |
| RingBuffers.RingBuffer.Push | src/causal.rs:175-181 | the view becomes the new transition followed by the old view, cut to capacity |
| RingBuffers.RingBuffer.LastForNodeBefore | src/causal.rs:184-199 | the newest recorded transition of the node stamped strictly before the bound |
| Observer.CausalGraphObserver.Observe | src/causal.rs:224-256 | unclassified frames change nothing; a classified one extends the history, keeps ring, levels and counter functions of it, and is analysed exactly when it is a trip |
| Observer.CausalGraphObserver.Backtrack | src/causal.rs:270-333 | the worklist loop computes the attribution of the ring's view, in one pop more than steps measured; each candidate is a declared edge between recorded instances of its ends, late by its own stamps and budget, and no late step is missing |
| Observer.CausalGraphObserver.ExpandInto | src/causal.rs:283-319 | measures every incoming edge of a popped node, collects violations, pushes every trigger; the re-lookup bound never overflows |
| Observer.ReflectsNext | src/causal.rs:175-192 | pushing keeps the ring equal to the newest-first view of the last CAP transitions of the whole history |
| History.TripsAreFallingEdges | src/causal.rs:235-247 | over a whole run, trips are counted by the true-to-false steps of the trip node's level sequence |
| History.TripMeansFall | src/causal.rs:235-247 | a transition is a trip iff it is low and the trip node's previous level, however old, was high |
| History.HighBetweenTrips | src/causal.rs:235-247 | between two trips the trip node was high |
| BackwardWalk.RelookupFindsTrigger | src/causal.rs:195-199 | looking a trigger up again at its own time finds that same transition, whatever the recording order |
| LookupMeaning.FindsLatestIff | src/causal.rs:195-199 | every lookup of a node finds its latest transition before the bound iff every stamp overtaken in recording order has been recorded again since |
| LookupMeaning.InOrderFindsLatest | src/causal.rs:296-297 | stamps recorded in non-decreasing order suffice |
| LookupMeaning.ReorderedLookup | src/causal.rs:195-199 | two reports recorded against the order of their stamps, of which the lookup finds the earlier |
| BackwardWalk.PoppedInstance | src/causal.rs:284-294 | a popped entry always resolves to the trigger that pushed it, so the missing-effect branch is dead |
| BackwardWalk.WalkFacts | src/causal.rs:270-320 | the finished log is genuine, grounded in earlier triggers, one instance per node, and closed under the incoming edges of every expanded instance |
| AttributionTheorems.AttributionFindings | src/causal.rs:304-327 | the ranking names every late step of the walk and nothing else, field by field, by non-increasing relative overrun |
| AttributionTheorems.StepEndsChain | src/causal.rs:283-319 | every measured step ends a contiguous chain back to the trip |
| AttributionTheorems.ChainTelescopes | src/causal.rs:304-318 | the gaps of a followed chain sum to its end-to-end latency |
| AttributionTheorems.UnattributedIffWithinBudget | src/causal.rs:304-332 | the ranked list is empty iff every measured edge instance kept its budget |
| AttributionTheorems.SlowChainIsAttributed | src/causal.rs:276-327 | a followed chain slower than its budgets forces an attribution whose top overrun is at least (latency - budget) / budget |
| AttributionTheorems.UnattributedBoundsLatency | src/causal.rs:276-327 | an unattributed trip bounds every followed chain's latency by its summed budgets |
| AttributionTheorems.RootEndsContiguousChain | src/causal.rs:287-318 | the root catalyst ends a followed chain; trip minus trigger time is the sum of its gaps |
| AttributionTheorems.EachEdgeMeasuredOnce | src/causal.rs:272-321 | on any graph each declared edge entry is measured at most once, so steps and candidates number at most the edges |
| AttributionTheorems.RaisingBudgetsNeverAccuses | src/causal.rs:304-318 | on one view and trip, raising budgets adds no candidate, attributes no unattributed trip and does not raise the top overrun |
| ManifestRun.RaisingBudgetsOverRun | src/causal.rs:304-318 | over a whole run, raising budgets stores the same trips, row by row, none newly attributed, and attributes no more of them in total |
| Ranking.Rank | src/causal.rs:322-327 | the ranking is a permutation of the candidates |
| Ranking.RankOrders | src/causal.rs:322-327 | the ranking is by non-increasing overrun |
| Ranking.RankIsStable | src/causal.rs:322-327 | equally severe candidates keep walk order |
| Completeness.WalkedIsUpstream | src/causal.rs:258-320 | the walk measures nothing but upstream instances linked to the trip |
| Completeness.FunnelIsComplete | src/causal.rs:258-320 | where the edges that carry anything form an acyclic funnel, the walk measures every upstream instance, whatever the ring holds |
| Completeness.FunnelVerdict | src/causal.rs:258-332 | on a funnel, unattributed means that no upstream instance that the ring's view supports broke its budget, and conversely |
| Captures.PossibleIffRecorded | src/causal.rs:51-72 | some frames, classified as the node table allows, are recorded as a given history iff it is numbered and each transition is a report its node can make: declared, not a ROS 2 matcher on the pose port, with a level exactly for PROFINET |
| WalkMirror.WalkFromTripMirrors | src/causal.rs:276-320 | reports moved in time, but not past anything that looks for them, change neither the edges walked nor their order |
| Captures.PossibleIffCaptured | src/bin/harness.rs:658-679 | of the histories stamped below 2^32 seconds, some accepted capture file is recorded as exactly the possible ones |
| Verdicts.RingCompleteIffFunnel | src/causal.rs:276-320 | for an acyclic graph, the walk measures all that the ring holds upstream, on every trip of every possible run, iff the trip's ancestors form a funnel |
| Verdicts.ForkHides | src/causal.rs:276-320 | around any fork there are sane budgets and a possible run, held whole by the ring, whose trip is unattributed although an upstream budget was broken |
| Verdicts.RingVerdictIffFunnel | src/causal.rs:276-332 | for an acyclic graph, unattributed means no upstream budget broken in what the ring holds, for all sane budgets and possible runs, iff the trip's ancestors form a funnel |
| Eviction.CompleteIffFunnel | src/causal.rs:276-320 | judged against the whole run: for runs that fit the ring, the walk measures every upstream instance iff the trip's ancestors form a funnel |
| Eviction.VerdictExactIffFunnel | src/causal.rs:14-17 | judged against the whole run: for runs that fit the ring, unattributed means no upstream budget broken, for all sane budgets, iff the trip's ancestors form a funnel |
| Eviction.CompleteIffUnfed | src/causal.rs:175-192 | once runs may outgrow the ring, the walk measures every upstream instance of every run iff no edge enters the trip node from a node that can report |
| Eviction.VerdictExactIffUnfed | src/causal.rs:14-17 | once runs may outgrow the ring, unattributed means no upstream budget broken, for all sane budgets and runs, iff no edge enters the trip node from a node that can report |
| Eviction.SeesAllIffNothingLost | src/causal.rs:175-199 | on a funnel, the walk measures a run's whole upstream history iff the ring still holds every trigger of it; unattributed then means no upstream budget broken |
| ManifestVerdicts.ForkedManifestHides | src/causal.rs:276-332 | every accepted manifest outside a funnel has an accepted twin on the same wires and a capture file whose trip it leaves unattributed although the ring holds a broken upstream budget |
| ManifestVerdicts.FedManifestLoses | src/causal.rs:175-192 | every accepted manifest whose trip node is fed has, for any ring size, such a twin and a capture file whose broken budget the ring has dropped |
| HiddenViolation.ViolationIsHidden | src/causal.rs:276-320 | an accepted manifest outside a funnel and a capture file recorded as a run whose trip is unattributed although an upstream edge took twice its budget |
| HiddenViolation.ViolationIsDropped | src/causal.rs:175-192 | an accepted manifest on a funnel and, for any ring size, a capture file whose trip is unattributed although its only edge took fifty seconds against a budget of a millisecond |
| Manifest.DetectCycle | src/manifest.rs:259-301 | none exactly when the graph is acyclic, with a topological order; otherwise the node lies on a cycle; any start order; terminates |
| Manifest.BackEdgeIsCycle | src/manifest.rs:284-285 | a gray child closes a cycle through itself |
| Manifest.PopKeeps | src/manifest.rs:293-296 | blackening a node keeps gray nodes equal to the stack, the stack a path, and black nodes closed under successors |
| Manifest.Build | src/manifest.rs:150-198 | accepts exactly the acceptable manifests, errors are justified, and the result is what the engine relies on iff all bit indices are below 8 |
| Manifest.JustifiedMeansUnacceptable | src/manifest.rs:150-198 | no justified error is reported for an acceptable manifest |
| Manifest.Lint | src/manifest.rs:207-255 | returns exactly the warranted warnings, in the source's groups: the trip node's at most once, one per orphan, one per tight edge entry in declaration order |
| LintMeaning.UnreachableMeansNeverAttributed | src/manifest.rs:222-226 | no trip of any possible run is ever attributed iff no edge enters the trip node from a node that can report; so a firing lint is right |
| LintMeaning.SilentLint | src/manifest.rs:222-226 | a manifest on which the lint is silent although no trip can be attributed |
| Buckets.IndexMonotone | src/discovery.rs:58-71 | larger values never fall in an earlier bucket |
| Buckets.LowerBrackets | src/discovery.rs:58-84 | a bucket's exact lower edge is at most the value and less than an eighth below it |
| Buckets.LowerExactIff | src/discovery.rs:75-84 | the 64-bit lower edge equals the exact one iff the value is outside the two overflowing ranges |
| Buckets.ResolutionIffNoWrap | src/discovery.rs:58-84 | the one-eighth resolution holds of the 64-bit edge iff the product does not overflow |
| Histogram.LogHistogram.Record | src/discovery.rs:86-97 | buckets, count, sum and extremes stay exact functions of everything recorded |
| Histogram.LogHistogram.Mean | src/discovery.rs:129-135 | the rounded-down mean lies between the extremes, so narrowing the wide quotient to 64 bits loses nothing; 0 when empty |
| Histogram.LogHistogram.Quantile | src/discovery.rs:140-155 | the clamped lower edge of the bucket of the true order statistic; the fall-through is unreachable |
| Histogram.SortedFacts | src/discovery.rs:137-139 | the reference order statistics come from the ascending permutation of the samples |
| Histogram.EstimateBrackets | src/discovery.rs:137-155 | without overflow the estimate is max(min, edge), at most the order statistic, and less than an eighth below it |
| Histogram.EstimateResolvesIff | src/discovery.rs:137-155 | the estimate is less than an eighth low iff the bucket does not overflow or the minimum is that close |
| Buckets.EdgeDropsIff | src/discovery.rs:75-84 | a larger value has a lower 64-bit edge exactly across the wrap of the band from 2^62, or from an odd to an even sub-bucket of the band from 2^63 |
| Histogram.EstimateMonotoneIff | src/discovery.rs:137-155 | a higher rank gets a lower estimate iff the lower statistic's edge is above the minimum and the two values lie so |
| Histogram.OverflowBreaksMonotony | src/discovery.rs:75-84 | three samples for which it does get a lower one |
| StreamProfiles.GapsAt | src/discovery.rs:197-205 | each gap is the step between two consecutive stamps, 0 where they go back |
| StreamProfiles.ReferenceIsFirst | src/discovery.rs:207-211 | the reference is the first non-empty payload |
| StreamProfiles.StreamProfile.Observe | src/discovery.rs:197-219 | records the saturating gap, fixes the reference payload and accumulates differences, as functions of all arrivals |
| StreamProfiles.StreamProfile.TogglingBits | src/discovery.rs:223-233 | lists in strict lexicographic order exactly the bits on which two observed payloads covering the byte differ, within the reference length |
| StreamProfiles.ListsAllForLengths | src/discovery.rs:178-181 | for given payload lengths, no bit that toggles is missed whatever the payloads say, iff at most one of them is longer than the first non-empty one |
| StreamProfiles.ListsAllIff | src/discovery.rs:178-181 | for given payloads, the list names every bit that ever toggled iff they agree byte for byte beyond the first non-empty one |
| StreamProfiles.ToggleBeyondReference | src/discovery.rs:178-181 | three payloads with a toggling bit that is not listed |
| StreamProfiles.DiffersIffToggles | src/discovery.rs:207-217 | comparing with the first non-empty payload finds every pairwise disagreement |
| StreamProfiles.TogglingIgnoresOrder | src/discovery.rs:207-233 | for equal-length payloads the list does not depend on arrival order |
| Discovery.OffsetsAgree | src/discovery.rs:334-378 | the re-derived payload starts with the parser's status byte and the re-derived port is the parser's |
| Discovery.DiscoveryEngine.Observe | src/discovery.rs:268-311 | files an accepted frame under the FrameID or port on the wire, with everything behind the FrameID as its payload; every accumulator stays a function of the events |
| Discovery.SameStreamIff | src/discovery.rs:268-311 | two accepted frames share a stream iff they carry the same FrameID, the same UDP destination port, or are both S7comm |
| CaptureToggles.TogglesOf | src/bin/harness.rs:434-438 | the bits listed for a PROFINET stream of a capture are those that one of its frames sets and another clears, within the length of the first |
| Discovery.DiscoveryEngine.ObserveUnclassified | src/discovery.rs:315-321 | counts the frame under its EtherType or as malformed |
| Discovery.NothingIsLost | src/bin/harness.rs:353-356 | every frame is counted once, by its stream or by its tally |
| CaptureBytes.MagicBytes | src/stream.rs:66-74 | a file is recognised by its first four bytes, in either byte order and precision, and pcapng by its own |
| CaptureBytes.RecordAtHead | src/stream.rs:99-146 | the packet at the head is what its sixteen header bytes and stored bytes say, unless it claims more than 262144 or the data ends inside it |
| CaptureBytes.HeaderWritten | src/bin/harness.rs:658-666 | the written header, byte by byte |
| CaptureBytes.RecordWritten | src/bin/harness.rs:667-677 | a written record's seconds, microseconds, lengths and bytes |
| PcapFormat.StampNs | src/stream.rs:134-138 | decoded timestamps are below 2^62 and their arithmetic fits 64 bits |
| PcapFormat.HeaderRoundTrips | src/stream.rs:66-74 | the header of each byte order and precision is recognised as that format |
| PcapFormat.StampRoundTrips | src/bin/harness.rs:668-669 | the time comes back to the format's precision iff its seconds fit 32 bits |
| PcapFormat.RecordRoundTrips | src/bin/harness.rs:667-677 | a written record is read back, unless its stored part exceeds 256 KiB |
| PcapFormat.CaptureRoundTrips | src/bin/harness.rs:658-679 | a written capture is read back up to the first oversized record, and ends cleanly without one |
| Replay.FromBytes | src/replay.rs:73-95 | accepts exactly the four magics on at least 24 bytes, with the source's errors otherwise |
| Replay.PcapReplaySource.NextFrame | src/replay.rs:122-182 | returns the packet at the head and moves past it, or the matching end or error with nothing moved |
| Streaming.ReadFullOrEof | src/stream.rs:161-178 | result and bytes consumed depend only on the remaining bytes, whatever the short reads and interruptions |
| Streaming.ReadExactOrShort | src/stream.rs:181-192 | the same, telling full from short |
| Streaming.Open | src/stream.rs:61-83 | accepts exactly the four magics |
| Streaming.StreamingPcapSource.NextFrame | src/stream.rs:99-146 | returns the packet at the head, or ends with the mid-record flag exactly when the data ends inside a record |
| ReaderAgreement.DrainBoth | src/replay.rs:122-182 | both readers return the same packets and counters and matching verdicts on every byte sequence and schedule |
| ReaderAgreement.ReplayBoth | src/stream.rs:61-146 | both readers accept or reject a file together |
| Trace.TraceIdSpells | src/trace.rs:123 | the identifier is the appliance, the time and the sequence number in decimal, separated by colons; `DecimalOf120` fixes the order of the digits |
| Trace.TraceIdInjective | src/trace.rs:123 | for one appliance the identifier determines time and sequence number |
| Trace.ResponseTimeIsChainSum | src/trace.rs:125-146 | the observed response time is the gap sum of the root's followed chain; unattributed trips claim nothing |
| Trace.BigEndianOrders | src/trace.rs:220-224 | byte order of big-endian number and rest is numeric order, then the order of the rest |
| Storage.KeysAgree | src/storage.rs:54-61 | tuple order and byte order of keys are isomorphic, and encoding is injective |
| Storage.InMemorySink.Put | src/storage.rs:82-92 | stores a row in key order, or rejects an existing key and changes nothing |
| Storage.InMemorySink.Range | src/storage.rs:94-108 | the rows stamped in the half-open interval, in key order |
| Storage.RocksDbSink.Put | src/storage.rs:141-149 | changes what is held under a new key and nothing else, or rejects an existing key and changes nothing; keys stay in strict byte order |
| Storage.RocksDbSink.Range | src/storage.rs:151-177 | the seek-and-break loop returns the scan from the seek position |
| Storage.PutsAgree | src/storage.rs:82-149 | both sinks accept and reject the same rows and stay in step |
| Storage.RangesAgree | src/storage.rs:94-177 | both sinks answer every range query with the same rows in the same order |
| Storage.StoreAndAsk | src/storage.rs:82-177 | from empty, the same rows meet the same verdicts in both sinks, each accepting the first of every key, and every range query returns the accepted rows of the interval from both |
| Harness.WritePcap | src/bin/harness.rs:658-679 | writes the reference encoding in little-endian microsecond format |
| Harness.EthertypeAgrees | src/bin/harness.rs:41-53 | the coarse EtherType agrees with what the parser accepts and reports |
| Harness.CaptureNeverWraps | src/discovery.rs:197-205 | no gap recorded from any capture lies where the bucket edge overflows |
| Harness.CaptureEstimateBrackets | src/discovery.rs:140-155 | for every capture, stream and rank the percentile is within an eighth of the truth |
| Harness.Discover | src/bin/harness.rs:309-337 | every packet read is filed once, in order, under its key on the wire or, if not accepted, under its EtherType there |
| Harness.Coverage | src/bin/harness.rs:353-356 | classified and unclassified totals add up to the frames |
| Preflight.ComputePreflight | src/bin/harness.rs:124-205 | every statistic is the count, span or smallest step it is named after; the verdict rejects what the reader rejects, with the pcapng hint for that magic alone, and otherwise weighs one unclassified frame in five |
| Preflight.CoverageAgrees | src/bin/harness.rs:163-188 | preflight and discovery agree on accepted, unclassified and malformed frames of every capture, and discovery tallies under a type no more than preflight saw |
| ManifestRun.RunWithManifest | src/bin/harness.rs:527-584 | no row is rejected as a duplicate; the sink holds one row for each falling edge of the trip node; each row tells that trip's time, identity, findings and conclusions; without overlaps the trips are the 1-to-0 steps of the trip node's bit in the captured status bytes |
| ManifestRun.LevelsFromWire | src/causal.rs:235-247 | without overlaps, the levels the trip node reports are its bit of its frames' status bytes |
| ManifestRun.TripRowsTell | src/trace.rs:110-215 | every row tells of one trip what the walk found then, and every trip is told of |
| ManifestRun.FreshKey | src/storage.rs:87-89 | a later trip cannot collide with a stored key |

## Left out

- f64 rounding: overruns and the coverage fraction are exact, and `Quantile` takes the rank instead of a floating-point q; Fanuc coordinates stay raw bytes.
- Counter width: `seq`, record, frame and bucket counts do not wrap at 2^64.
- Histogram.LogHistogram.Record: the 30-sample display threshold is not modelled.
- CausalTypes.DependencyManifest.Classify: the map's iteration order is an arbitrary choice; runs are proved for every choice.
- Eviction.EverUpstream: each effect is linked to the most recently recorded trigger before it, as the code's lookup does; `LookupMeaning.FindsLatestIff` says when that is the latest one.
- PcapFormat.Outgoing: writing a record whose cut exceeds its frame panics in the source and is outside `Sliceable`.
- Replay.PcapReplaySource.NextFrame: the largest captured-minus-original difference is not tracked; nothing reads it.
- Streaming.ByteSource: the buffered reader is a byte source with a finite script of short reads, interruptions and hard failures; what a reader does after it has returned an error is not used.
- Storage.InMemorySink.Range: inverted bounds panic in the source and are excluded.
- Storage.RocksDbSink.Range: the store is an ordered byte map of evidence records; rows rebuild from their evidence, as `from_trace` makes them; write-ahead logging, serialization and I/O errors are not modelled.
- Preflight.ComputePreflight: an input error whose own message mentions pcapng is not distinguished from others.
- Captures.PossibleIffRecorded: where matchers overlap, each frame may be classified afresh, while the source's map keeps one order during a run; a fixed order amounts to the table of the nodes it favours, to which the theorems apply as well.
- Live capture (src/hwcapture.rs and the libpcap source in src/ingest.rs), JSON, argument handling, printing and the legacy demo run.
- Node labels, the cell name and the event window copied into the evidence record.
