# Warren contract: verified model

Warren's clients pick a two-hop circuit from a signed directory, biased by an unsigned
advisory and by their own measurements; they print and sign texts, and read back addresses,
tags and versions. This project models those decisions and codecs and proves what the
repository promises about them, on all inputs and over whole runs.

- **Circuit selection**: the policy and its pairs (`Directory`, `Circuits`), the verified
  directory (`Vouching`), the fixed-point score (`PathScore`), ranking and hysteresis
  (`Ranking`, `PathAware`), the RTT store (`Rtt`), the deterministic picks (`Pick`), and the
  laws about them (`PathAwareLaws`, `SelectionViews`, `Legality`). `SelectionMeaning` restates
  what each selection returns on node fields, advisory fields and integer arithmetic alone.
- **Addresses**: positional notation (`Digits`), `Base58` and `Ss58`.
- **Signed texts**: the request message and the revocation list (`Preimages`, `Decimals`).
- **Smaller cores**: the weighted selector (`Selector`), the schema walker and
  the signed schema it walks (`SchemaWalker`, `SignedFields`),
  the attribution tag and envelope (`Attribution`), version targeting (`Versions`).

Fixed-width integers are bounded naturals with explicit saturation and wrapping (`Machine`);
sorting is a stable sort under a total preorder (`Order`). Signatures, AEAD and Blake2b are
opaque function parameters. The methods follow the loops and in-place updates of the code and
are proved against specification functions; the laws are stated on those functions.

Where the code and its documentation differ, the model follows the code:

- An address always has 49 characters; the documentation says 47 to 49 (`Ss58.Shape`).
- The fallback law is documented without condition on the parameters or on the circuit in use;
  it has an exact one for each (`PathAwareLaws.FallbackLawIff`, `PathAwareLaws.FallbackInUseIff`).
- The entry pick is documented as exactly the no-signal path-aware order on the continent
  partition. On any ids, weights and parameters, the two picks agree exactly when no lighter
  entry that the score cannot tell from the pick comes before it by id, or by position on an
  equal id (`Pick.PartitionAgreesIff`). They differ on weights 0 and 1, with different ids or
  one shared id, and on adjacent positive weights when the parameters leave too little
  resolution (`Pick.ClampedWeightDiffers`, `Pick.SharedIdDiffers`, `Pick.LowResolutionDiffers`).
- The retention of the circuit in use is documented without condition on the margin; it holds
  on every step exactly when 100 + margin fits in u64 (`PathAwareLaws.RetentionLawIff`).
- The two selection views share scoring and retention. With a circuit in use toward another
  exit the pair view forgets it and the flat view may retain its entry
  (`SelectionViews.ViewsAgreeIff`, `SelectionViews.ElsewhereDiffers`).
- An empty walk is documented as fully covered; a key that reads like a covered path passes as
  one (`SignedFields.EmptyIffCovered`, `SignedFields.LiteralKeyPasses`).
- Pruning is documented as optional housekeeping; it is invisible exactly for a TTL of at least
  the default (`Rtt.HousekeepingIff`).
- The security rule of the two views is documented as identical. The pair view tests relay ids
  and the flat view exit ids, so on two nodes in different countries that pass the AS clause
  the views agree exactly when the nodes share both ids or neither; they differ both on a shared
  exit id and on a shared relay id (`Circuits.ViewsAgreeOnPair`). On a dual-role fleet they
  always agree (`Circuits.DualRoleViewsAgree`).
- The injectivity contract of the request message asks for a one-line method and path. Under it
  a message names one request exactly when nonce and body hash are one line as well
  (`Preimages.NamedByMessageIff`); the signer prints both as hex, so every message it signs under it
  names one request (`Preimages.SignedRequestInjective`).
- The v11 schema appends 27 paths; its documentation counts six.
- `100 + switch_margin_pct` is modelled as a release build computes it, wrapping in u64; a
  debug build stops there instead (`Ranking.BarExactIff`).

`dafny verify dfyconfig.toml` checks the whole project.

## Model

| member | source | states |
|---|---|---|
| PathAwareLaws.FallbackLawIff | warren-discovery/src/path_aware.rs:25-30 | the documented fallback law (no previous circuit, no RTT, no fresh leg: the path-aware pick is the weight pick, index for index) holds on every directory, pair list, clock and advisory if and only if 1_000_000·K ≥ K + 2·neutral with K = max(1, half score) |
| PathAwareLaws.Fallback | warren-discovery/src/path_aware.rs:194-223 | the law itself, for every input, under that condition |
| PathAwareLaws.DefaultFallback | warren-discovery/src/path_aware.rs:123-133 | the law for the production parameters, without further condition |
| PathAwareLaws.FallbackFails | warren-discovery/src/path_aware.rs:282-300 | below the condition a three-node directory breaks the law: two entries whose weights differ by one score alike and the lighter one wins on its id |
| PathAwareLaws.FallbackInUseIff | warren-discovery/src/path_aware.rs:221-248 | with a circuit in use, no signal and the resolution of the fallback law, the selection takes the weight pick exactly when the circuit in use is no longer offered, is that pick, or has a no-signal score the pick beats over the bar |
| PathAwareLaws.FallbackInUseFails | warren-discovery/src/path_aware.rs:25-30 | entries of weights 100 and 110 at the production parameters: without any signal the lighter one in use stays, and the weight pick is the other |
| PathScore.NeutralStrictIff | warren-discovery/src/path_aware.rs:277-300 | the no-signal score is strictly increasing in the weight product exactly under that condition |
| PathScore.ScoreExact | warren-discovery/src/path_aware.rs:282-300 | no u128 operation of the score saturates: it equals the floored quotient in unbounded integers (divided once more when degraded), and is below 2^84 |
| PathScore.ScoreMonotone | warren-discovery/src/path_aware.rs:180-185 | more weight never lowers a score; a slower client hop or leg, or the degraded latch, never raises it |
| Ranking.BarExactIff | warren-discovery/src/path_aware.rs:239-247 | saturating the challenger bar never changes the switch decision against unbounded integers, on any scores below the 2^84 that bounds them, exactly when 100 + margin does not wrap in u64 |
| PathAwareLaws.OnlyBiasesTheOrder | warren-discovery/src/path_aware.rs:14-23 | under any advisory, RTTs and history the result is one of the offered pairs, and absent only when none is offered |
| PathAware.TieBreakIsThenWith | warren-discovery/src/path_aware.rs:160-178 | comparing the joined ids is comparing relay ids, then exit ids, and only equal ids tie |
| PathAware.FreshLegExact | warren-discovery/src/path_aware.rs:88-102 | the leg a selection reads is the first entry and first leg whose text decodes to the ids, while now ≤ sampled_at + stale_after |
| PathAware.FreshLegNoneIff | warren-discovery/src/path_aware.rs:88-102 | a selection has no signal on a leg exactly when there is no advisory, no entry text decodes to the relay id, no leg text of the first such entry decodes to the exit id, or the first such leg is stale |
| Text.HexMatchIsDecode | warren-discovery/src/path_aware.rs:90-102 | a case-insensitive match against a printed id is exactly decoding to that id, so a text names at most one id |
| Text.HexMeans | src/auth.rs:104-105 | printed hex is two small-letter digits a byte, the high one first |
| PathAware.PickCircuitByWeight | warren-discovery/src/path_aware.rs:145-158 | the sort-and-take-first pick returns the first pair of highest clamped weight product with the smallest ids |
| SelectionMeaning.WeightPickMeans | warren-discovery/src/path_aware.rs:145-178 | that pair, on the nodes: the greatest min(2^64-1, max(1, w_entry)·max(1, w_exit)); of those the smallest relay id, then exit id, byte by byte, then position |
| PathAware.SelectCircuitPathAware | warren-discovery/src/path_aware.rs:194-248 | the sorting, incumbent search and hysteresis compute the specification function the laws are stated on |
| PathAware.SelectEntryPathAware | warren-discovery/src/path_aware.rs:315-369 | the same for the flat entry view, whose incumbent is searched in the sorted ranking |
| SelectionMeaning.OfferMeans | warren-discovery/src/path_aware.rs:206-219 | each offered pair is scored by the floored quotient of that product times 1_000_000·K over K + client + leg, divided once more when the advisory's own leg is degraded |
| SelectionMeaning.SelectMeans | warren-discovery/src/path_aware.rs:194-248 | the whole pair selection on node, advisory and parameter fields: the best pair when nothing offered has the ids in use; otherwise the first pair that has them, unless the advisory's fresh leg for it is degraded or the best score exceeds the bar over its score |
| SelectionMeaning.EntrySelectMeans | warren-discovery/src/path_aware.rs:315-369 | the whole flat selection in the same terms: nothing exactly when no entry has another exit id, another country and, where required, another known ASN; the entry in use is the best scored, then first, of the permitted ones with its id |
| PathAware.AdaptorsMean | warren-discovery/src/path_aware.rs:250-271 | both adaptors read the store under the Ed25519 key of the relay dialed, while now < measured_at + ttl |
| Order.SortHead | warren-discovery/src/path_aware.rs:154-157 | the head of the stable sort is the first minimum |
| Order.SortStable | src/dto.rs:1091-1092 | the sort keeps the input order of elements that compare equal |
| Order.BytesBeforeIff | warren-discovery/src/path_aware.rs:160-178 | the order of ids: the smaller byte at the first difference, a proper prefix first |
| Order.TextBeforeIff | src/dto.rs:1091-1092 | the order of texts: the smaller character at the first difference, a proper prefix first |
| PathAwareLaws.NextExact | warren-discovery/src/path_aware.rs:225-248 | one selection is the best pair, or the circuit in use when it is offered, not freshly degraded and not beaten beyond the bar |
| PathAwareLaws.RetentionLawIff | warren-discovery/src/path_aware.rs:187-190 | the documented retention (a circuit in use that is offered, not freshly degraded and not beaten by more than the margin is kept) holds on every step if and only if 100 + margin fits in u64 |
| PathAwareLaws.RetentionFails | warren-discovery/src/path_aware.rs:239-247 | for every margin that wraps: of two equal entries the one in use is left for the one with the smaller id |
| PathAwareLaws.LeavesIff | warren-discovery/src/path_aware.rs:225-248 | for every margin, the circuit in use is kept exactly when it is not left by the machine's bar or is itself the best; leaving goes to the best pair |
| PathAwareLaws.LeavesMeans | warren-discovery/src/path_aware.rs:239-247 | the machine leaves whenever the documented rule allows, and only then unless the margin wraps |
| PathAwareLaws.NoFlapping | warren-discovery/src/path_aware.rs:187-190 | feeding each result back with unchanged inputs changes the circuit at most once, over runs of any length |
| PathAwareLaws.EveryChangeJustified | warren-discovery/src/path_aware.rs:187-248 | on any run, with inputs changing at will, each change of circuit means the old one was gone, freshly degraded, or beaten over the bar, which unless the margin wraps is ⌊score·(100+margin)/100⌋; it goes to the best pair, or to none when nothing is offered |
| PathAwareLaws.QuietRunStays | warren-discovery/src/path_aware.rs:187-190 | while no step leaves it, the circuit in use stays to the end of the run |
| PathAwareLaws.EntryIdempotent | warren-discovery/src/path_aware.rs:311-369 | the flat view cannot flap either: selecting again with the selected id selects that id, duplicate ids included |
| PathAwareLaws.EntryOnlyBiasesTheOrder | warren-discovery/src/path_aware.rs:303-353 | the flat view selects an entry exactly when one is permitted, a permitted one of the list, and dialing the exit through it succeeds |
| PathAwareLaws.EntryLeavesIff | warren-discovery/src/path_aware.rs:311-369 | for every margin the flat view keeps the entry in use exactly when it is not left (gone, freshly degraded, beaten over the bar) or is itself the best, leaving goes to the best permitted entry, and unless the margin wraps leaving is by the documented rule |
| SelectionViews.WeightPickOrderIndependent | warren-discovery/src/path_aware.rs:145-178 | the ids chosen by weight depend only on the set of offered node pairs |
| SelectionViews.SelectOrderIndependent | warren-discovery/src/path_aware.rs:221-248 | the ids of the path-aware choice depend only on the set of offered node pairs, given that the ids in use, if any, name at most one of them |
| SelectionViews.FleetOrderIndependent | warren-discovery/src/multihop_directory.rs:948-992 | re-listing the fleet in another order changes neither pick over `valid_circuits` |
| SelectionViews.ViewsAgreeIff | warren-discovery/src/path_aware.rs:303-369 | on a dual-role fleet with distinct ids, for any signal and any circuit in use, the entry view picks entry i for exit j exactly when the pair view over the circuits ending in j picks (i, j), if and only if the circuit in use leads to j or the flat view would not retain its entry (none permitted, the entry left, or best anyway) |
| SelectionViews.ViewsAgree | warren-discovery/src/path_aware.rs:303-369 | in particular with nothing in use, or a circuit in use toward exit j |
| SelectionViews.ElsewhereDiffers | warren-discovery/src/path_aware.rs:225-231 | at the production parameters, with the lighter of two entries in use toward any other exit, the flat view keeps it and the pair view takes the heavier |
| SelectionViews.ViewsAgreeOnStore | warren-discovery/src/path_aware.rs:250-271 | the same with both views reading one RTT store through their own adaptor: always with nothing in use, and under that condition with any circuit in use |
| Pick.PickExitBest | warren-discovery/src/pick.rs:142-153 | the exit pick beats every candidate: higher weight, then smaller id, then earlier index |
| Pick.PreferenceNarrows | warren-discovery/src/pick.rs:155-186 | the continent preference keeps the local indices if any, else all, in order: it narrows and never empties |
| Pick.PickEntryBest | warren-discovery/src/pick.rs:188-208 | the entry pick beats every index the continent preference leaves |
| Pick.PickEntryAgreesIff | warren-discovery/src/pick.rs:196-208 | without signal or continent, on any ids, weights and parameters, the entry pick equals the path-aware entry selection if and only if no lighter permitted entry that the no-signal score cannot tell from the pick comes before it by id, or by position on an equal id |
| Pick.ConfusedIffClamped | warren-discovery/src/path_aware.rs:333-353 | with enough resolution the score confuses two weights exactly when the clamped u64 product does: 0 against 1, or saturation |
| Pick.PickEntryAgrees | warren-discovery/src/pick.rs:196-208 | it agrees, with enough resolution, whenever weights are positive and products fit in u64 |
| Pick.PartitionAgreesIff | warren-discovery/src/pick.rs:193-208 | the documented claim, on any ids, weights and parameters and for any client continent: the pick is the no-signal path-aware selection restricted to the continent partition if and only if no lighter entry of the partition that the score cannot tell from the pick comes before it by id, or by position on an equal id |
| Pick.AgreementLawIff | warren-discovery/src/pick.rs:193-208 | where the weights of the partition are positive and their products fit, the claim holds on every input if and only if the parameters have the resolution of the fallback law |
| Pick.PartitionAgrees | warren-discovery/src/pick.rs:193-208 | it holds, with enough resolution, whenever the weights in the partition are positive and their products fit in u64 |
| Pick.ClampedWeightDiffers | warren-discovery/src/pick.rs:193-208 | weights 0 and 1 with the smaller id on the lighter entry: the two picks differ, for every client continent |
| Pick.SharedIdDiffers | warren-discovery/src/pick.rs:193-208 | weights 0 and 1 on two entries with one id, the lighter listed first: they differ |
| Pick.LowResolutionDiffers | warren-discovery/src/pick.rs:193-208 | for all parameters without enough resolution, some two adjacent positive weights make them differ |
| Pick.PartitionPick | warren-discovery/src/pick.rs:188-208 | the pick with a continent is the location-blind pick over the partition |
| Directory.FromAsns | warren-discovery/src/multihop_directory.rs:881-891 | the loop over the ASNs computes the policy |
| Directory.DiversityRequiredIff | warren-discovery/src/multihop_directory.rs:850-891 | AS diversity is required exactly when two nodes have different non-zero ASNs |
| Circuits.ValidCircuits | warren-discovery/src/multihop_directory.rs:948-992 | the nested loops compute the specified list of pairs |
| Circuits.ValidPairsExact | warren-discovery/src/multihop_directory.rs:936-992 | that list holds all and only the legal pairs, once each, in lexicographic order |
| Circuits.OfferedMeans | warren-discovery/src/multihop_directory.rs:948-992 | legality on the nodes' fields: hints absent or equal but for letter case, neither node in the avoid set, two relay ids, two countries, and two known different ASNs once two nodes of the fleet have them |
| Circuits.CaseBlind | warren-discovery/src/multihop_directory.rs:915-934 | the letter case of countries, in the fleet or in the hints, changes no offered circuit |
| Circuits.Symmetric | warren-discovery/src/multihop_directory.rs:850-861 | without country hints a circuit is legal in both directions or neither |
| Circuits.DrainRemoves | warren-discovery/src/multihop_directory.rs:961-981 | draining more nodes removes exactly the circuits through them, on either leg |
| Circuits.UnknownAsnUnused | warren-discovery/src/multihop_directory.rs:856-861 | once two known ASNs differ, both nodes of every offered circuit have known, different ASNs |
| Circuits.ViewsAgreeOnPair | warren-discovery/src/multihop_directory.rs:936-946 | for every two nodes, the pair view and the flat view give one verdict exactly when the nodes share both ids or neither, or fail the country or AS clause anyway |
| Circuits.DualRoleViewsAgree | warren-discovery/src/multihop_directory.rs:936-946 | the rule is identical for every two nodes of a fleet whose relay ids are its exit ids |
| Circuits.SharedExitIdDiffers | warren-discovery/src/multihop_directory.rs:981-990 | two nodes sharing only their exit id: offered as a pair, refused by the flat view |
| Circuits.SharedRelayIdDiffers | warren-discovery/src/multihop_directory.rs:903-915 | two nodes sharing only their relay id: permitted by the flat view, not offered as a pair |
| Vouching.VerifyDirectory | warren-discovery/src/multihop_directory.rs:475-569 | acceptance is exactly the conjunction of the guards; each error names the first guard that fails; an accepted directory keeps exactly the certified nodes, in order, with the generation and times served, and kept + dropped is the input count |
| Vouching.KeptExact | warren-discovery/src/multihop_directory.rs:549-559 | a node is kept exactly when it was served and is fully vouched |
| Vouching.VerifiedNodesExact | warren-discovery/src/multihop_directory.rs:549-569 | on the signature checks themselves: an accepted directory keeps, in order, exactly the served nodes whose relay descriptor verifies, whose exit descriptor verifies as post-quantum, or with attested DNS, or unattested with DNS on, and whose 64-byte attestation verifies for that relay id, exit key, ASN and country |
| Vouching.AcceptedExact | warren-discovery/src/multihop_directory.rs:475-545 | acceptance on the texts and signature checks: at most 4 MiB, version 2, edge pins of 64 hex digits, a pinned server key or none pinned, its signature over all but the signature, and a certificate of the operational key by a pinned root or none pinned |
| Vouching.KeyTextExact | warren-discovery/src/multihop_directory.rs:502-525 | a key text decodes exactly when it is hex of 32 bytes on the curve; each refusal has its own cause |
| Vouching.RedactionPreservesVouching | warren-discovery/src/multihop_directory.rs:650-679 | redacting exit endpoints keeps every per-node verdict, given that the endpoint is outside the signed payload |
| Legality.RedactionInvisible | warren-discovery/src/multihop_directory.rs:650-679 | redaction leaves the offered circuits and both client views as they were |
| Legality.EverySelectionLegal | warren-discovery/src/multihop_directory.rs:475-569 | end to end: under a pinned root, every selection with any signal and history is a legal circuit of vouched nodes under a certified key, and dialing it succeeds exactly when the exit ids differ |
| Legality.EveryEntrySelectionLegal | warren-discovery/src/path_aware.rs:303-369 | end to end for the flat view: over an accepted directory an entry is selected for an exit exactly when one is permitted, both nodes are vouched, and dialing always succeeds with the entry's dial fields and the exit's keys |
| Legality.RunEndsLegal | warren-discovery/src/path_aware.rs:14-23 | at the end of any run the circuit in use carries the ids of a legal circuit of the last accepted directory; none is in use only if none is legal |
| Legality.OfferedIsLegal | warren-discovery/src/multihop_directory.rs:806-848 | dialing takes the entry's address, SNI, carrier, edge pin and identity, and keeps the exit's id, HPKE key and post-quantum key, the last only when attested |
| Directory.EntriesMeans | warren-discovery/src/multihop_directory.rs:997-1015 | the entry view, field by field |
| Directory.ExitsMeans | warren-discovery/src/multihop_directory.rs:1017-1043 | the exit view, field by field, with the post-quantum key only where it is attested |
| Directory.ViaEntryMeans | warren-discovery/src/multihop_directory.rs:808-848 | dialing is refused exactly by the diversity rule; otherwise six fields are the entry's and all others the exit's |
| Directory.RedactMeans | warren-discovery/src/multihop_directory.rs:650-679 | redaction erases the exit endpoint of every node and nothing else |
| Rtt.RttCache.Record | warren-discovery/src/rtt.rs:58-75 | recording updates the store by the specified smoothing |
| Rtt.RttCache.FreshRttMs | warren-discovery/src/rtt.rs:80-90 | the read by age |
| Rtt.RttCache.Prune | warren-discovery/src/rtt.rs:94-97 | pruning keeps exactly the samples younger than the TTL |
| Rtt.RecordMeans | warren-discovery/src/rtt.rs:58-75 | a record stores the floored mean with a sample younger than a day, or its own value, and leaves every other endpoint as it was |
| Rtt.ReadIff | warren-discovery/src/rtt.rs:58-97 | on every run a read succeeds exactly when the endpoint has a record that no later record replaced, no later prune found too old, and that is younger than the TTL |
| Rtt.FreshIff | warren-discovery/src/rtt.rs:76-90 | a read succeeds exactly while now < measured_at + ttl, and never with a zero TTL |
| Rtt.StoredBetweenSamples | warren-discovery/src/rtt.rs:58-75 | on every run a stored value lies between two samples recorded for that endpoint since its last stale gap |
| Rtt.ConvergesFromAbove | warren-discovery/src/rtt.rs:58-75 | n agreeing fresh samples shrink a distance d from above to ⌊d/2ⁿ⌋ |
| Rtt.ConvergesFromBelow | warren-discovery/src/rtt.rs:58-75 | and from below to ⌈d/2ⁿ⌉ |
| Rtt.SettlesOneShort | warren-discovery/src/rtt.rs:58-75 | so one millisecond short of the agreed value is a fixed point |
| Rtt.PruneInvisible | warren-discovery/src/rtt.rs:92-97 | on a non-decreasing clock, prunes with a TTL of at least the default change no later read with a TTL up to the default |
| Rtt.HousekeepingIff | warren-discovery/src/rtt.rs:92-97 | pruning with one TTL changes no read up to the default TTL on any run with a non-decreasing clock if and only if that TTL is at least the default |
| Rtt.RecordOutcomeSame | warren-discovery/src/rtt.rs:92-97 | nor what any later record stores |
| Ss58.DecodeExact | src/ss58.rs:130-183 | an address decodes to a key if and only if it is that key's encoding: round trip and canonicality together |
| Ss58.DecodeMeans | src/ss58.rs:150-183 | on the decoded bytes: an address is base58 of 36 bytes, 0x7B 0xF3, the key, and the first two bytes of the digest of "SS58PRE" and the 34 bytes before |
| Ss58.DecodeErrors | src/ss58.rs:150-183 | each of the four refusals, exactly when its check is the first to fail |
| Ss58.EncodeMeans | src/ss58.rs:130-141 | the address of a key is base58 of those 36 bytes |
| Ss58.Shape | src/ss58.rs:18-23 | every encoded address has exactly 49 characters and starts with `wb`, whatever the key and the checksum |
| Ss58.GateInvisible | src/ss58.rs:72-77 | the 64-byte gate never changes which texts decode, nor to what |
| Base58.LongTextLongBytes | src/ss58.rs:152-166 | any base58 text over 64 characters decodes to more than 36 bytes |
| Base58.Bijection | src/ss58.rs:139-162 | base58 decoding and encoding are inverse on all byte strings and texts |
| Base58.EncodeMeans | src/ss58.rs:38-42 | a text encodes bytes exactly when its digits in the alphabet are the same number with as many leading zeros |
| Base58.AlphabetSpelled | src/ss58.rs:38-42 | the alphabet, character by character |
| Base58.EncodeBytes | src/ss58.rs:139-139 | the digit loops compute the specified base conversion |
| Base58.DecodeString | src/ss58.rs:160-162 | and so does decoding, refusing exactly the texts with a foreign character |
| Digits.ConvertRoundTrip | src/ss58.rs:38-42 | base conversion that keeps leading zeros is undone by the reverse conversion |
| Digits.ConvertDigits | src/ss58.rs:38-42 | the multiply-add-and-carry loops compute that conversion |
| Ss58.EncodeAddress | src/ss58.rs:130-141 | filling the 36-byte buffer in place yields prefix, key and checksum |
| Ss58.PrefixInjective | src/ss58.rs:107-113 | two prefixes share their bytes exactly when their low 14 bits agree |
| Ss58.PrefixInjectiveInRange | src/ss58.rs:107-113 | so the encoding is injective on 64..=16383 |
| Preimages.CrlInjective | src/dto.rs:1065-1107 | two revocation messages are equal if and only if version, time and stably sorted entries are, for pubkeys free of ':' and newline and newline-free reasons |
| Preimages.CrlOrderIff | src/dto.rs:1065-1107 | two lists of clean entries have one message exactly when each pubkey's entries come in the same order |
| Preimages.CrlIgnoresOrder | src/dto.rs:1065-1070 | with one entry per pubkey the message ignores the input order |
| Preimages.CrlCanonicalMessage | src/dto.rs:1081-1107 | the pushing loop builds that message |
| Preimages.CrlLines | src/dto.rs:1065-1107 | the message cut at its newlines: v1, version, time, then pubkey:time:reason for each entry in ascending pubkey order, those of one pubkey as they came |
| Preimages.ValidatedEntryIsClean | src/dto.rs:1032-1063 | a validated address and a single-line reason meet the condition |
| Preimages.SingleLineMeans | src/dto.rs:1048-1063 | the boundary check refuses line feed and carriage return in a reason and nothing else |
| Preimages.NamedByMessageIff | src/auth.rs:25-58 | among requests that meet the documented contract, a message names one request if and only if its nonce and body hash hold no newline |
| Preimages.SameMessageIff | src/auth.rs:25-58 | two such requests have one message if and only if method, path and timestamp are equal and they differ at most in where nonce and body hash are cut |
| Preimages.RequestInjective | src/auth.rs:25-58 | the message determines the request when both nonces, or both body hashes, or nonce and body hash of one side are one line |
| Preimages.SignedRequestInjective | src/auth.rs:93-107 | as the signer calls it, the message determines the nonce bytes and the body hash bytes |
| Preimages.NonceNewlineCollides | src/auth.rs:25-28 | two concrete requests that meet the documented contract and collide: a newline in the nonce of one and in the body hash of the other |
| Preimages.CanonicalMessage | src/auth.rs:32-58 | the step-by-step pushes build that message |
| Preimages.MessageLines | src/auth.rs:32-58 | the message cut at its newlines: method, path, timestamp, nonce, body hash, in that order |
| Decimals.DecimalReads | src/auth.rs:51-51 | a printed number is digits without a leading zero that read back as it |
| Decimals.DecimalInjective | src/auth.rs:51-51 | printed decimals are injective |
| Selector.WeightedPick | warren-discovery/src/selector.rs:200-229 | the subtracting loop always returns before its unreachable end, at the candidate the roll lands on |
| Selector.ExactlyProportional | warren-discovery/src/selector.rs:64-69 | exactly weight(i) of the rolls below the total select candidate i |
| Selector.TotalFits | warren-discovery/src/selector.rs:215-219 | the u128 total cannot overflow for any list of u64 weights that fits in memory |
| Selector.SelectWithRng | warren-discovery/src/selector.rs:70-94 | nothing exactly when no positive-weight relay matches; otherwise the matching relay whose weight interval in the whole list the roll falls in |
| Selector.SelectFailoverAlternative | warren-discovery/src/selector.rs:136-197 | never the excluded relay; in its country, by the roll among those, whenever a same-country alternative exists; by the roll among all alternatives otherwise; nothing exactly when none exists |
| Selector.FilterLanding | warren-discovery/src/selector.rs:200-229 | a roll over the filtered candidates falls in the interval its relay has after the kept relays before it in the whole list |
| SchemaWalker.CollectUnknownFields | warren-discovery/src/signed.rs:616-645 | the recursion onto one shared list appends the specified paths |
| SchemaWalker.UnknownSignedFieldsFor | warren-discovery/src/signed.rs:608-614 | collect, sort and dedup compute the specified list |
| SchemaWalker.UnknownFieldsExact | warren-discovery/src/signed.rs:591-645 | the result is the strictly increasing list of exactly the rendered key paths whose last key is uncovered with every key above covered |
| SchemaWalker.FirstUncoveredMeans | warren-discovery/src/signed.rs:622-636 | that recursive condition says: uncovered, and every proper key prefix covered |
| SchemaWalker.EmptyIff | warren-discovery/src/signed.rs:591-599 | nothing is reported exactly when every key path of the tree is covered |
| SchemaWalker.V11UnknownHasV10Ancestor | warren-discovery/src/signed.rs:586-590 | every path v11 reports has an ancestor, or itself, that v10 reports |
| SchemaWalker.V10CoversV11Covers | warren-discovery/src/signed.rs:586-590 | an empty v10 walk implies an empty v11 walk |
| SignedFields.SignedSchemaClosed | warren-discovery/src/signed.rs:512-589 | in both path lists, the object or array above every covered path is covered |
| SignedFields.CoversMeans | warren-discovery/src/signed.rs:512-589 | the two lists spelled out: version 10, and any other but 11, covers the first 27 paths, version 11 the other 27 as well |
| SignedFields.NothingCoveredSkipped | warren-discovery/src/signed.rs:616-645 | with such lists the walk never stops above a covered field: no path on the way to one is ever reported |
| SignedFields.SignedUnknownExact | warren-discovery/src/signed.rs:591-645 | on a relay list in which no position reads like a covered path without being one, the walk reports exactly the uncovered fields whose parent field is covered, or that have none |
| SignedFields.ImitationHides | warren-discovery/src/signed.rs:616-645 | that condition is needed: below a key spelled `nodes[]` an uncovered key with a covered-looking parent is not reported |
| SignedFields.EmptyIffCovered | warren-discovery/src/signed.rs:591-599 | every key of the tree stands at a position a covered path names exactly when the walk is empty and no position imitates a covered path |
| SignedFields.LiteralKeyPasses | warren-discovery/src/signed.rs:591-599 | a list whose only key is the literal `nodes[].id` is reported as fully covered, though no covered path names it |
| SignedFields.CoveredNamesOne | warren-discovery/src/signed.rs:512-589 | under such lists a covered path names exactly one position |
| Attribution.SealWithNonce | src/pf_attribution.rs:303-330 | the accessors of a sealed tag return exactly the epoch, nonce and ciphertext written, and the signature is over its preimage |
| Attribution.TagIsLayout | src/pf_attribution.rs:186-220 | a parsed tag is the layout of its four fields |
| Attribution.FromBytesExact | src/pf_attribution.rs:155-173 | a tag is accepted as it is exactly when it has 145 bytes and version 1; each refusal names the length or the version |
| Attribution.AadMeans | src/pf_attribution.rs:109-116 | the 33 bytes the AEAD binds: the domain, version 1, the epoch high byte first |
| Attribution.PreimageMeans | src/pf_attribution.rs:118-130 | the 105 bytes signed: those, the nonce, the ciphertext |
| Attribution.TagMeans | src/pf_attribution.rs:162-224 | a tag is 145 bytes with version 1 and its fields at 1..9, 9..33, 33..81 and 81..145 |
| Attribution.PreimageInjective | src/pf_attribution.rs:118-130 | the signed preimage determines epoch, nonce and ciphertext |
| Attribution.TagDetermined | src/pf_attribution.rs:222-237 | preimage and signature determine all 145 bytes |
| Attribution.ParseExact | src/pf_attribution.rs:427-450 | parsing accepts exactly the encoding of the envelope it returns |
| Attribution.ParseMeans | src/pf_attribution.rs:427-440 | every refusal of an envelope by the first check that fails, and where an accepted one keeps token and tag |
| Attribution.NewEnvelopeMeans | src/pf_attribution.rs:410-419 | a token of 354 bytes is paired with its tag, and any other length is named in the refusal |
| Attribution.Encode | src/pf_attribution.rs:444-450 | encoding parses back, and nothing else parses to the same envelope |
| Versions.NumericComponents | warren-discovery/src/version_range.rs:66-81 | the loop computes the specified components, with overflow an error |
| Versions.ComponentsMeans | warren-discovery/src/version_range.rs:63-81 | numbers joined by dots, under any white space around, any run of v or V before and any suffix after, have those components in that order |
| Versions.WhitespaceMeans | warren-discovery/src/version_range.rs:67-67 | the white space trimmed, code point by code point |
| Versions.CompareVersions | warren-discovery/src/version_range.rs:48-61 | the index loop is the lexicographic comparison of the zero-padded components |
| Versions.CompareMeans | warren-discovery/src/version_range.rs:42-61 | one version is below another exactly when it is at the first component that differs, as numbers, reading 0 past the end |
| Versions.VersionPreorder | warren-discovery/src/version_range.rs:42-61 | on parseable versions: reflexive, flipped under a swap, transitive across lengths |
| Versions.EqualIff | warren-discovery/src/version_range.rs:42-47 | versions compare equal exactly when they agree at every index, reading 0 past the end |
| Versions.InBounds | warren-discovery/src/version_range.rs:18-40 | the branches compute the targeting predicate |
| Versions.TargetedMeans | warren-discovery/src/version_range.rs:11-40 | no bound, or a parseable client and parseable bounds with the client not below the lower nor above the upper |
| Versions.TargetedConvex | warren-discovery/src/version_range.rs:11-40 | between two targeted versions every version is targeted |
| Versions.RangeWithholdsUnknown | warren-discovery/src/version_range.rs:15-17 | a declared range withholds an absent or unparseable version |
| Versions.UnparseableIff | warren-discovery/src/version_range.rs:63-81 | a version does not parse exactly when it has no leading numeric component, or a component behind purely numeric ones overflows u64 |

## Left out

- Ed25519, X25519, XChaCha20-Poly1305, Blake2b, SHA-256 and the descriptor checks: opaque deterministic functions and predicates. That the exit endpoint is outside the signed payload is an assumption (`Vouching.EndpointUnsigned`).
- JSON parsing and printing, error texts and redaction of log output: the verified directory starts from a parsed value and its input length; the walker from a JSON tree.
- The alphabet and digit loops of base58 belong to a library; they are modelled after sections 3 and 4 of draft-msporny-base58, on sequences.
- The random generator: every property is over any roll below the bound it is given.
- The country-to-continent table is a parameter of the entry pick; no property depends on its rows.
- `Vec::sort_by` and `sort` are the stable insertion sort of `Order`; their running time is not modelled.
- Selection ranks a local sequence of candidates carrying score and ids, computed once, where the code recomputes them in the comparator; the closures it calls are pure.
- Client RTT closures with effects, clocks and persistence: the closure is a function, the clock a parameter.
- The schema path lists are grouped by the object their fields belong to, where the code spells every path out; the walk only tests membership.
- Relay queries are an abstract predicate on relays; the deterministic first-match `select` is one search.
- The remaining signed envelopes (notices, announcements, roster, forum digest, releases) repeat one verify wrapper and would add only easy members.
- Recovering the account key from a tag (`open`) is one opaque AEAD call.
