# Baseband decoding, configuration files and templates

This project models parts of two C libraries and proves properties of the models.

* `libbtbb`, a Bluetooth baseband decoder: error correction, whitening, header and payload checks, the
  packet types DM and DH, the enumeration of access code errors, the hop selection kernel with its
  precomputed table, and the search of a piconet for its UAP and clock.
* `libwdi`: the configuration file parser and printer in `examples/profile.c`, and the template
  tokenizer in `libwdi/tokenizer.c`.

## How the model is built

| file | what it models |
|---|---|
| Bits, Sequences, Arithmetic | words as bit sequences, numbers, and the arithmetic facts that the proofs need |
| Fec, Whitening, HeaderCheck, PayloadCheck, Packet | sections 7.1 to 7.5 of the baseband specification (volume 2, part B) as `bluetooth_packet.c` decodes them |
| Polynomials, PacketTypes | the same codes as division by their generator polynomials, and the payloads of each packet type in numbers |
| Syndromes | the recursive enumeration of error patterns |
| Permutation, HopKernel, ChannelMap, Patterns, HopCache | section 2.6: the butterfly permutation, the direct kernel, the table, the register bank, which patterns are equal, and their cache |
| HopSelection | section 2.6 again, written out bit by bit as a reference for the kernel and the table |
| HopReversal, Distinguish, Elimination, Piconet, Recovery | what packets say about the clock, the search as a class, and what it recovers |
| ProfileText, ProfileLine, ProfileReading, ProfileWords | what a line says: its text alone, its buffer with the edits in place, when the two agree, and which printed lines are read back |
| ProfileTree, ProfileLookup, ProfilePrint, ProfileLaws | the tree as a value, look-up, printing, and what lines of each shape do |
| ProfileNodes, ProfileParser, ProfileStore | the same on doubly linked nodes, proved to follow the tree |
| Tokenizer | single-pass substitution into a growing buffer |

A host-order word that is only shifted, masked and XORed is the sequence of its bits, least significant
first; a word used as a number is a natural number, and 32-bit wrap-around is written out. Flag words are
sets of flags. Loops, in-place changes and linked lists are methods; each is proved against functions on
values, and the theorems are about these functions. A packet given to the search is a value: its symbols,
and for each of the 64 clocks what `crc_check` returns, which may be any numbers.

## What the model found

* With adaptive hopping the table and the direct kernel reduce the frequency offset differently
  (`HopKernel.AfhTableExact`): they agree for all clocks exactly when 1 or 79 channels are used.
* The cache of hopping patterns compares only the address part of its key, so a pattern generated with
  adaptive hopping is found again without it. It is the pattern wanted exactly when it was generated for
  the channels now in use (`Piconets.Piconet.GetHopPattern`, `HopCaches.PatternsEqual`).
* A piconet whose UAP is 0 is never followed: `ProcessPacket` takes the UAP 0 for an unknown one, and hop
  reversal begins only under a UAP other than 0 (`Piconets.Piconet.FollowedHasUap`). It also begins only
  while CLK1-6 is unknown, so not right after the UAP was found by elimination without an assumed UAP.
  `Piconets.Piconet.ProcessPacket` states exactly when it begins.
* The clock is taken over as soon as one clock alone explains the hops seen; hops that contradict it
  afterwards, which may already have been received, are not looked at (`Piconets.Piconet.WinnowRecorded`;
  `Distinguish.SingledOutThenContradicted` shows such hops).
* `btbb_header_present` lets a header pass that cannot be decoded (`Elimination.PresentButUnreadable`,
  `Elimination.UnreadableExists`).
* The limit that the source looks up for AUX1 is 0, so an AUX1 payload is always empty
  (`Packets.Aux1IsEmpty`), and its test for a payload length out of range cannot fire
  (`Packets.LengthIsClipped`).
* `strip_line` leaves one line end, a star after an unquoted section name is never seen although a comment
  in the source allows for it, and the printer does not escape double quotes (`ProfileText.StrippedLeavesOne`,
  `ProfileWords.StarIsNotSeen`, `ProfileText.QuotedRoundTrip`). So final
  marks do not always survive printing and parsing (`ProfilePrint.PrintThenParse` says exactly when).
* A backslash right before the equals sign of a relation with a quoted name escapes the null character that
  the source has written over the equals sign: the rest of the line is read as part of the name and copied over
  the value (`ProfileReading.TextAfterEquals` says exactly when the value survives, and
  `ProfileReading.ValueIsShortened` and `ProfileReading.SectionIsOpened` show lines on which it does not). So an
  equals sign in a name cannot be escaped.
* A token with an empty name is not replaced when it is all that is left (`Tokenizer.BareToken`,
  `Tokenizer.TokenizedIsSubstituted`).

## Model

| member | source | states |
|---|---|---|
| Recovery.FollowedClockIsTrue | official-libbtbb-src/lib/src/bluetooth_piconet.c:851-899 | when the packets were sent under one UAP and CLK1-27, with headers whitened by the clock that this gives at their time and on the channels that the hop selection written out bit by bit gives for the same clock, and the pattern in use was made for all channels, a piconet that is followed is followed with that UAP, and the clock offset is twice the difference between that CLK1-27 and the time of the first packet, modulo 2^32 |
| Recovery.FollowedWhenUnique | official-libbtbb-src/lib/src/bluetooth_piconet.c:851-899 | with such packets the piconet is followed exactly when its true clock is the only one that explains all hops seen; until then several explain them |
| Recovery.TrueClockFits | official-libbtbb-src/lib/src/bluetooth_piconet.c:455-645 | with such packets the UAP is the true one and the true clock explains every hop, whether the search goes on or is said to start over |
| Recovery.TrueClockIsCandidate | official-libbtbb-src/lib/src/bluetooth_piconet.c:455-645 | during hop reversal, in every state that packets lead to, the UAP is the true one and the true CLK1-27 is among the live candidates |
| Recovery.StartingOverIsJustified | official-libbtbb-src/lib/src/bluetooth_piconet.c:575-611 | when hop reversal starts over, at once or later, the packets seen do not come from a piconet, whatever its UAP and clock, whose headers elimination read right and which hops over all channels |
| Recovery.TrueClockExplains | official-libbtbb-src/lib/src/bluetooth_piconet.c:512-592 | the true clock explains a hop although the time of the hop is kept as a signed 32-bit difference and added to an unsigned candidate |
| Recovery.AfhPatternUsesMap | official-libbtbb-src/lib/src/bluetooth_piconet.c:171-191 | with adaptive hopping the direct kernel and the table name only channels of the map that the bank was filled from; table and kernel agree for all clocks exactly when 1 or 79 channels are used |
| Piconets.Piconet.ProcessPacket | official-libbtbb-src/lib/src/bluetooth_piconet.c:851-899 | every packet keeps the invariant of the search (flags, observations, elimination entries, exact candidates, channel count; followed exactly when CLK1-27 is valid); -1 is returned exactly when the piconet begins to be followed; a packet of at least 122 symbols is used exactly when its trailer, judged by the last symbol of the sync word, and its header triples have fewer than five errors: then hop reversal goes on, or it begins exactly when a UAP other than 0 is assumed, CLK1-6 is unknown, fewer than 1000 packets are remembered and elimination chooses a hypothesis, or else the packet is used for elimination only |
| Piconets.Piconet.NarrowedThroughout | official-libbtbb-src/lib/src/bluetooth_piconet.c:851-899 | between packets, once hop reversal has begun, the piconet is followed exactly when at some time exactly one clock explained the hops seen until then, and otherwise at least two explain all of them |
| Piconets.Piconet.FollowedHasUap | official-libbtbb-src/lib/src/bluetooth_piconet.c:883-891 | a piconet that is followed has a UAP other than 0, marked valid |
| HopReversal.OneOutcome | official-libbtbb-src/lib/src/bluetooth_piconet.c:596-604 | of three things exactly one holds of any hops: at some time one clock alone explained them, several explain all of them, or neither, and then none explains them all |
| Distinguish.ClocksDiffer | official-libbtbb-src/lib/src/bluetooth_piconet.c:311-362 | the pattern without adaptive hopping has no period, so any two clocks lead to different channels after some number of hops |
| Distinguish.HopsSingleOut | official-libbtbb-src/lib/src/bluetooth_piconet.c:575-604 | so the hops of a piconet can leave its clock as the only explanation |
| Distinguish.SingledOutThenContradicted | official-libbtbb-src/lib/src/bluetooth_piconet.c:619-624 | and one more hop, on another channel, contradicts a clock that had been singled out |
| Piconets.Piconet.Search | official-libbtbb-src/lib/src/bluetooth_piconet.c:876-896 | with a UAP other than 0 the packet confirms it and reverses the hopping, without one it is used for elimination; the same outcome as for ProcessPacket |
| Piconets.Piconet.TryHop | official-libbtbb-src/lib/src/bluetooth_piconet.c:501-543 | the assumed UAP stays; hop reversal goes on with the packet, or begins exactly when the packet confirms the UAP, with the outcome that the hops have |
| Piconets.Piconet.ConfirmUap | official-libbtbb-src/lib/src/bluetooth_piconet.c:528-537 | elimination under the assumed UAP; hop reversal is run on all packets seen exactly when a hypothesis is chosen, and finds the clock, goes on or starts over as their hops have it |
| Piconets.Piconet.ConfirmsExactly | official-libbtbb-src/lib/src/bluetooth_piconet.c:648-750 | elimination succeeds exactly when there is room for the packet and the packets seen choose a hypothesis |
| Piconets.Piconet.WinnowRecorded | official-libbtbb-src/lib/src/bluetooth_piconet.c:613-645 | winnowing all hops seen finds the clock exactly when at some time one clock alone explained them, goes on exactly when several explain all, and starts over otherwise |
| Piconets.Piconet.ContinueReversal | official-libbtbb-src/lib/src/bluetooth_piconet.c:510-521 | one more hop is remembered and applied; the clock is found, hop reversal goes on, or the search starts over as the hops seen have it |
| Piconets.Piconet.RestoreUap | official-libbtbb-src/lib/src/bluetooth_piconet.c:539-542 | the assumed UAP is marked valid again after starting over, which restores the invariant |
| Piconets.Piconet.UapFromHeader | official-libbtbb-src/lib/src/bluetooth_piconet.c:648-750 | one packet of elimination: a hypothesis is taken over, several stay open, or the search starts over because none is left or no packet more can be remembered; when one is taken over, the UAP is the one that the header names under the clock that the offset, from 0 to 63, makes of the time of the packet, and a UAP known before is confirmed |
| Piconets.Piconet.Examine | official-libbtbb-src/lib/src/bluetooth_piconet.c:664-750 | after a packet each of the 64 entries is the UAP that all packets since the first agree on under that hypothesis, or -1; CLK1-6 and the UAP are taken over exactly from a check that succeeds first or from the only survivor |
| Piconets.Piconet.TestClocks | official-libbtbb-src/lib/src/bluetooth_piconet.c:674-726 | the loop over the 64 hypotheses: the first check that succeeds, or the number of survivors and the last of them |
| Piconets.Piconet.TestClock | official-libbtbb-src/lib/src/bluetooth_piconet.c:676-725 | one hypothesis: its new entry is what the history says of it, and the check decides exactly when the history lets it |
| Piconets.Piconet.Conclude | official-libbtbb-src/lib/src/bluetooth_piconet.c:710-749 | one survivor is taken over, none means starting over, several are kept |
| Piconets.Piconet.Accept | official-libbtbb-src/lib/src/bluetooth_piconet.c:711-723 | the clock offset is such that adding the time of the first packet gives the low six clock bits back, as hop reversal does later |
| Piconets.Piconet.Remember | official-libbtbb-src/lib/src/bluetooth_piconet.c:664-672 | the observation arrays hold the times since the first packet and the channels of all packets since then |
| Piconets.OffsetRecovers | official-libbtbb-src/lib/src/bluetooth_piconet.c:489-489 | adding the time of the first packet to the CLK1-6 offset recovers the hypothesis |
| Elimination.SurvivorExact | official-libbtbb-src/lib/src/bluetooth_piconet.c:674-709 | hypothesis c stands for a UAP exactly when every packet names it in its header at the clock (c + time - first time) modulo 64, matches a UAP marked valid then, and has there the check result 1 or 2 |
| Elimination.ChosenExactly | official-libbtbb-src/lib/src/bluetooth_piconet.c:674-743 | what is taken over is the least hypothesis for which the last check succeeds and the other packets agree, or, when there is none, the only one that all packets leave open |
| Elimination.SurvivorMonotone | official-libbtbb-src/lib/src/bluetooth_piconet.c:674-709 | what is eliminated stays eliminated, and the UAP that a survivor stands for never changes |
| Elimination.JudgedExtends | official-libbtbb-src/lib/src/bluetooth_piconet.c:682-709 | the tests of the source on one packet and one hypothesis extend the history by that packet |
| Elimination.Conclusion | official-libbtbb-src/lib/src/bluetooth_piconet.c:729-747 | counting survivors tells whether none, exactly one or more than one hypothesis is left |
| Elimination.TrueHypothesisSurvives | official-libbtbb-src/lib/src/bluetooth_piconet.c:648-750 | when all packets were sent with one UAP at the clock that a CLK1-27 gives at their time, with at most one wrong symbol a triple and at most three in all, the hypothesis with the low six bits of that CLK1-27 survives and stands for that UAP |
| Elimination.ChosenIsTrue | official-libbtbb-src/lib/src/bluetooth_piconet.c:710-743 | what is taken over are the low six bits of that CLK1-27, and that UAP, provided no check succeeds under a wrong clock |
| Elimination.PresentExactly | official-libbtbb-src/lib/src/bluetooth_packet.c:1371-1408 | a packet passes the test for a header exactly when it has at least 122 symbols and the four symbols after the sync word, against the alternation that its last symbol asks for, and the header triples have fewer than five errors together |
| Elimination.PerfectTrailerIsUsed | official-libbtbb-src/lib/src/bluetooth_packet.c:1371-1408 | so a packet with a perfect trailer is used although four triples disagree, whichever symbol the sync word ends with |
| Elimination.PresentButUnreadable | official-libbtbb-src/lib/src/bluetooth_packet.c:1371-1408 | a packet can pass the test for a header and still not be decodable, exactly when four triples disagree and the trailer is perfect; it then gives the UAP 0 under every clock |
| Elimination.UnreadableExists | official-libbtbb-src/lib/src/bluetooth_packet.c:1371-1408 | there is such a packet, and under no clock can its header be read |
| Piconets.Piconet.InitHopReversal | official-libbtbb-src/lib/src/bluetooth_piconet.c:475-498 | the candidates are exactly the clocks with the known low bits that explain the first hop, in increasing order |
| Piconets.Piconet.InitCandidates | official-libbtbb-src/lib/src/bluetooth_piconet.c:455-472 | the loop over every 64th clock lists those that lead to the first channel |
| HopReversal.InitialExact | official-libbtbb-src/lib/src/bluetooth_piconet.c:455-472 | that list is exact and strictly increasing |
| Piconets.Piconet.Winnow | official-libbtbb-src/lib/src/bluetooth_piconet.c:613-645 | after winnowing the candidates are exactly the clocks that explain every hop applied; it ends with all hops applied and several candidates, with one and the clock found, or started over because the hops contradict each other; suspicion of adaptive hopping is kept, and raised by two hops in a row on one channel |
| Piconets.Piconet.WinnowNext | official-libbtbb-src/lib/src/bluetooth_piconet.c:619-642 | one turn of the loop |
| Piconets.Piconet.ChannelWinnow | official-libbtbb-src/lib/src/bluetooth_piconet.c:575-611 | one hop removes exactly the candidates that do not explain it; a hop applied twice removes nothing the second time; one candidate left sets the offset and CLK27, none starts over |
| Piconets.Piconet.FilterCandidates | official-libbtbb-src/lib/src/bluetooth_piconet.c:582-595 | the list is narrowed in place to the candidates that explain the hop, in order |
| Piconets.Piconet.Settle | official-libbtbb-src/lib/src/bluetooth_piconet.c:596-611 | the clock offset is 2 * (candidate - first packet time) modulo 2^32, read as signed |
| Piconets.Piconet.NoteRepeat | official-libbtbb-src/lib/src/bluetooth_piconet.c:625-641 | suspicion of adaptive hopping is raised exactly by a hop right after the previous one on the same channel, except at hop 0, where anything may be read |
| Piconets.Piconet.Reset | official-libbtbb-src/lib/src/bluetooth_piconet.c:547-573 | what starting over forgets, and that adaptive hopping is assumed afterwards exactly when it has been suspected |
| HopReversal.WinnowedExact | official-libbtbb-src/lib/src/bluetooth_piconet.c:575-595 | narrowing by a hop keeps the list exact for this hop and all before it |
| HopReversal.NoneLeft | official-libbtbb-src/lib/src/bluetooth_piconet.c:602-604 | when the last candidates vanish with a hop, no clock explains all hops and there never was exactly one that did |
| HopReversal.WinnowedAgain | official-libbtbb-src/lib/src/bluetooth_piconet.c:619-624 | narrowing again by a hop that has been used changes nothing, so it does no harm that the loop stops without counting the last hop |
| HopReversal.WrapKeepsIndex | official-libbtbb-src/lib/src/bluetooth_piconet.c:585-588 | 32-bit wrap-around of offset and sum does not disturb the index into the sequence |
| HopReversal.SignedExactly | official-libbtbb-src/lib/src/bluetooth_piconet.c:585-601 | the signed reading of a 32-bit number is the only one in its range that differs by a multiple of 2^32 |
| HopReversal.AliasedExactly | official-libbtbb-src/lib/src/bluetooth_piconet.c:449-452 | a receiver with few channels takes a channel for the one from 26 to 50 that differs by a multiple of 25 |
| Piconets.AnyRepeatsExactly | official-libbtbb-src/lib/src/bluetooth_piconet.c:625-641 | what raises the suspicion of adaptive hopping, hop by hop |
| HopKernel.GenHops | official-libbtbb-src/lib/src/bluetooth_piconet.c:311-362 | the five nested loops with the running index and frequency offset fill entry t with the value defined for t alone, for all 2^27 entries |
| HopKernel.FillRow | official-libbtbb-src/lib/src/bluetooth_piconet.c:329-359 | the loop over clock bits 7-15 with its running offset |
| HopKernel.FillBlock | official-libbtbb-src/lib/src/bluetooth_piconet.c:331-353 | the innermost loop fills the 64 entries of one block |
| HopKernel.TableRefinesKernel | official-libbtbb-src/lib/src/bluetooth_piconet.c:311-441 | without adaptive hopping entry clock / 2 of the table is what the direct kernel computes, for every 28-bit clock |
| HopKernel.AfhEntryExact | official-libbtbb-src/lib/src/bluetooth_piconet.c:355-357 | with adaptive hopping an entry is right exactly when reducing the offset modulo 79 first makes no difference |
| HopKernel.AfhTableExact | official-libbtbb-src/lib/src/bluetooth_piconet.c:355-357 | with adaptive hopping the whole table is right exactly when 1 or 79 channels are used; clock 640 shows the difference otherwise |
| HopKernel.BlockVisitsDistinctChannels | official-libbtbb-src/lib/src/bluetooth_piconet.c:311-362 | without adaptive hopping any two entries in the same aligned block of 64 are different channels below 79, for every address |
| HopKernel.SingleHopFast | official-libbtbb-src/lib/src/bluetooth_piconet.c:412-441 | the kernel run with the lazily filled table of permutations computes the kernel |
| HopKernel.AfhVisitsUsedChannels | official-libbtbb-src/lib/src/bluetooth_piconet.c:434-436 | with adaptive hopping both forms stay within the used part of the bank |
| HopSelection.KernelSelects | official-libbtbb-src/lib/src/bluetooth_piconet.c:412-441 | for every address and clock the direct kernel gives the channel that section 2.6 selects, written out bit by bit: inputs A to F and Y from the named address and clock bits, addition modulo 32, exclusive or with B, fourteen exchanges of named bits, and even channels before odd ones |
| HopSelection.AdaptiveKernelSelects | official-libbtbb-src/lib/src/bluetooth_piconet.c:412-441 | the same with adaptive hopping, as a place in the bank |
| HopSelection.AdaptiveTableSelects | official-libbtbb-src/lib/src/bluetooth_piconet.c:329-359 | the place of a table entry with adaptive hopping, where the offset is first reduced modulo 79 |
| HopSelection.SampleHops | official-libbtbb-src/lib/src/bluetooth_piconet.c:412-441 | hops in numbers: for address 0 channels 8 and 66 at clocks 0x10 and 0x12, for address 0x80000 channel 2 at clock 0 |
| Permutation.Perm5 | official-libbtbb-src/lib/src/bluetooth_piconet.c:255-287 | the loop of butterflies on the five bits computes the permutation |
| Permutation.PermInjective | official-libbtbb-src/lib/src/bluetooth_piconet.c:255-287 | for every control word the permutation is one-to-one on five-bit numbers |
| Permutation.PermTable.FastPerm | official-libbtbb-src/lib/src/bluetooth_piconet.c:300-308 | the table gives the permutation in every run, the first use included |
| Permutation.PermTable.Init | official-libbtbb-src/lib/src/bluetooth_piconet.c:289-298 | every entry of the table is the permutation of its indices |
| HopCaches.AddressPrecalc | official-libbtbb-src/lib/src/bluetooth_piconet.c:197-216 | shifting and masking gathers every other bit of the address into the numbers that section 2.6 of the baseband specification names |
| HopCaches.PickedIsGathered | official-libbtbb-src/lib/src/bluetooth_piconet.c:197-216 | each masked bit comes from the right bit of the address and goes to its place, for any number of bits |
| HopCaches.UsedIsIrrelevant | official-libbtbb-src/lib/src/bluetooth_piconet.c:339-351 | without adaptive hopping the number of used channels has no influence on the pattern |
| Piconets.Piconet.GetHopPattern | official-libbtbb-src/lib/src/bluetooth_piconet.c:388-409 | the pattern is the cached one of the address, or a new one that is added; it is the pattern over the channels now in use exactly when it is new or was generated for the same channels |
| HopCaches.PatternsEqual | official-libbtbb-src/lib/src/bluetooth_piconet.c:393-406 | two patterns of one address are equal exactly when they hop over the same channels |
| HopCaches.AfhPatternIsPlain | official-libbtbb-src/lib/src/bluetooth_piconet.c:393-406 | a pattern generated with adaptive hopping, which the cache also gives out without it, is the plain pattern exactly when all 79 channels are used |
| Patterns.TableVisits | official-libbtbb-src/lib/src/bluetooth_piconet.c:311-362 | the table visits exactly the channels that it is meant to hop over, each of them within the first 128 entries, with and without adaptive hopping |
| Patterns.TablesEqual | official-libbtbb-src/lib/src/bluetooth_piconet.c:311-362 | so two tables of one address are equal exactly when they hop over the same channels, whether or not adaptive hopping is on |
| Piconets.Piconet.GenHopPattern | official-libbtbb-src/lib/src/bluetooth_piconet.c:365-377 | a new sequence with the pattern of the address over the channels in use |
| Piconets.Piconet.Precalc | official-libbtbb-src/lib/src/bluetooth_piconet.c:171-191 | the bank holds the even channels and then the odd ones, or with adaptive hopping the used ones in that order |
| ChannelMap.BankIsMap | official-libbtbb-src/lib/src/bluetooth_piconet.c:171-191 | with bit 79 clear the adaptive bank holds each used channel exactly once and nothing else |
| ChannelMap.BankInOrder | official-libbtbb-src/lib/src/bluetooth_piconet.c:171-191 | in the bank even channels come before odd ones, and either kind in increasing order |
| ChannelMap.CountIsSetSize | official-libbtbb-src/lib/src/bluetooth_piconet.c:126-136 | counting the bits of the map counts the channels in it |
| ChannelMap.CountBitsOf | official-libbtbb-src/lib/src/bluetooth_piconet.c:33-39 | clearing the lowest bit until none is left counts the bits |
| Piconets.Piconet.SetChannelSeen | official-libbtbb-src/lib/src/bluetooth_piconet.c:142-150 | adds the channel to the map, tells whether it was new, and keeps the count equal to the size of the map |
| Piconets.Piconet.ClearChannelSeen | official-libbtbb-src/lib/src/bluetooth_piconet.c:152-160 | removes the channel from the map, tells whether it was there, and keeps the count |
| Piconets.Piconet.ReplaceMap | official-libbtbb-src/lib/src/bluetooth_piconet.c:126-134 | the loop over the ten bytes replaces the map and recounts it |
| Piconets.Piconet.SetAfhMap | official-libbtbb-src/lib/src/bluetooth_piconet.c:126-136 | a new map keeps the invariant; hop reversal under way keeps its sequence |
| Piconets.Piconet.InitPiconet | official-libbtbb-src/lib/src/bluetooth_piconet.c:70-74 | setting the LAP keeps the invariant |
| Piconets.Piconet.SetUap | official-libbtbb-src/lib/src/bluetooth_piconet.c:90-94 | setting the UAP before hop reversal keeps the invariant |
| Piconets.Piconet.constructor | official-libbtbb-src/lib/src/bluetooth_piconet.c:41-47 | a new piconet satisfies the invariant |
| PacketTypes.DmInNumbers | official-libbtbb-src/lib/src/bluetooth_packet.c:821-958 | for DM1, DV, DM3 and DM5 with their numbers (payload from symbol 122, in DV from 202; one or two header bytes; 20, 12, 125, 228 bytes): DM returns 10 with a payload exactly when the payload agrees with its own header and check, its header blocks and as many symbols as it has bits were received, and every block of fifteen is within one symbol of the code of the payload whitened from position 18 on |
| PacketTypes.DmArrives | official-libbtbb-src/lib/src/bluetooth_packet.c:821-958 | so every body that fits the type arrives unchanged with its LLID and flow bit and result 10, although one symbol in each block is wrong, whatever fills up the last block |
| PacketTypes.DmCodes | official-libbtbb-src/lib/src/bluetooth_packet.c:821-958 | the other codes: 0 exactly when the header blocks were not received or a block is near no codeword, 1 exactly when fewer symbols are left than the payload has bits, and 2 when the check fails |
| PacketTypes.DhInNumbers | official-libbtbb-src/lib/src/bluetooth_packet.c:962-1010 | for DH1, DH3 and DH5 with their numbers (from symbol 122; 30, 187, 343 bytes): DH returns 10 with a payload exactly when the payload agrees with its own header and check and the symbols received are the payload, whitened from position 18 on |
| PacketTypes.DhArrives | official-libbtbb-src/lib/src/bluetooth_packet.c:962-1010 | so every body that fits the type arrives unchanged when no symbol is wrong |
| PacketTypes.DhCodes | official-libbtbb-src/lib/src/bluetooth_packet.c:962-1010 | the other codes: 0 exactly when the header was not received, 1 exactly when fewer symbols are left than the payload has bits, and 2 when the check fails |
| Packets.Aux1IsEmpty | official-libbtbb-src/lib/src/bluetooth_packet.c:821-1010 | for AUX1 the length limit that the source looks up is 0, so its payload is always taken to be empty |
| Packets.LengthIsClipped | official-libbtbb-src/lib/src/bluetooth_packet.c:857-895 | an overlong length is cut down to the limit of the type, so the later test for a length out of range never fires |
| Packets.Packet.DM | official-libbtbb-src/lib/src/bluetooth_packet.c:898-958 | the fields hold what the specification of decoding yields, and the rest is unchanged |
| Packets.Packet.DH | official-libbtbb-src/lib/src/bluetooth_packet.c:962-1010 | the same without error correction |
| Packets.Packet.DecodePayloadHeader | official-libbtbb-src/lib/src/bluetooth_packet.c:821-895 | length, LLID and flow are read from the corrected and unwhitened header, or nothing changes |
| Packets.Packet.CheckPayload | official-libbtbb-src/lib/src/bluetooth_packet.c:772-781 | the check at the end is the one computed over the rest under the UAP |
| Packets.HeaderRoundTrip | official-libbtbb-src/lib/src/bluetooth_packet.c:552-705 | with at most one wrong symbol a triple the header sent under a UAP and clock is read back, and names that UAP, exactly when at most three triples are hit |
| Packets.Packet.TryClock | official-libbtbb-src/lib/src/bluetooth_packet.c:1178-1196 | the UAP and the type that a clock value leads to, or 0 and no change |
| Packets.Packet.DecodeHeader | official-libbtbb-src/lib/src/bluetooth_packet.c:1198-1221 | success exactly when the clock is marked valid, the header can be read and it names the UAP of the packet; the fields then are the decoded ones |
| HeaderCheck.UapOfExact | official-libbtbb-src/lib/src/bluetooth_packet.c:693-705 | running the check backwards finds a UAP exactly when the check is the forward one under that UAP, so each check belongs to one UAP |
| HeaderCheck.UapFromHec | official-libbtbb-src/lib/src/bluetooth_packet.c:693-705 | the loop of the source is that backward run |
| Polynomials.HecExactly | official-libbtbb-src/lib/src/bluetooth_packet.c:693-705 | a header check is right under a UAP exactly when the 18 header bits, with the UAP added to the first eight, are a multiple of D^8 + D^7 + D^5 + D^2 + D + 1 |
| Fec.DecodeBlockExact | official-libbtbb-src/lib/src/bluetooth_packet.c:585-649 | a block of fifteen decodes to ten bits exactly when it is within one symbol of their codeword |
| Fec.TwoErrorsDetected | official-libbtbb-src/lib/src/bluetooth_packet.c:585-649 | two wrong symbols in a block are always detected |
| Fec.Decode23Fails | official-libbtbb-src/lib/src/bluetooth_packet.c:585-649 | a stream fails to decode exactly when one of its blocks does |
| Fec.TwoErrorsFailStream | official-libbtbb-src/lib/src/bluetooth_packet.c:585-649 | two wrong symbols in any one block make the decoding of the whole stream fail |
| Fec.Decode23Exact | official-libbtbb-src/lib/src/bluetooth_packet.c:585-649 | a stream decodes to data exactly when every block is within one symbol of the codeword of its part |
| Fec.Unfec23 | official-libbtbb-src/lib/src/bluetooth_packet.c:585-649 | the decoder in place returns the data of the whole stream, or null exactly when some block cannot be corrected |
| Fec.Fec23 | official-libbtbb-src/lib/src/bluetooth_packet.c:571-582 | the encoder adds the rows of the generator matrix |
| Fec.CodewordSyndrome | official-libbtbb-src/lib/src/bluetooth_packet.c:571-582 | the code is systematic and codewords have syndrome zero |
| Polynomials.CodewordExactly | official-libbtbb-src/lib/src/bluetooth_packet.c:571-582 | a block is a codeword exactly when it is a multiple of D^5 + D^4 + D^2 + 1 |
| Fec.Unfec13 | official-libbtbb-src/lib/src/bluetooth_packet.c:552-568 | majority of each triple, and success exactly when fewer than a quarter of the triples disagree |
| Fec.Decode13Exact | official-libbtbb-src/lib/src/bluetooth_packet.c:552-568 | the data come back exactly when no triple has more than one wrong symbol |
| Fec.DisagreementsAreErrors | official-libbtbb-src/lib/src/bluetooth_packet.c:552-568 | with at most one wrong symbol a triple the disagreements counted are the wrong symbols |
| Whitening.WhiteningSymbol | official-libbtbb-src/lib/src/bluetooth_packet.c:49-52 | a look-up through the start index and the period of 127 gives the symbol of the shift register of section 7.2, at every position for every clock |
| Whitening.Unwhiten | official-libbtbb-src/lib/src/bluetooth_packet.c:653-668 | unwhitening adds the register's sequence, starting at the given skip |
| Whitening.UnwhitenTwice | official-libbtbb-src/lib/src/bluetooth_packet.c:653-668 | unwhitening twice gives the stream back |
| Whitening.UnwhitenChunks | official-libbtbb-src/lib/src/bluetooth_packet.c:653-668 | unwhitening in two parts with an advanced skip is unwhitening in one go |
| Whitening.RecursAt | official-libbtbb-src/lib/src/bluetooth_packet.c:51-52 | the table obeys the recurrence of the shift register at every index, the wrap-around included |
| Whitening.WordInSymbols | official-libbtbb-src/lib/src/bluetooth_packet.c:653-668 | the whitening word of a clock in symbols: its first seven in terms of CLK6-1, and every later one as the sum of those seven and three before it |
| Whitening.WordIsAdded | official-libbtbb-src/lib/src/bluetooth_packet.c:653-668 | unwhitening adds this word, from the symbol with the number of the skip on |
| PayloadCheck.Crcgen | official-libbtbb-src/lib/src/bluetooth_packet.c:671-690 | the register after the loop |
| PayloadCheck.BurstDetected | official-libbtbb-src/lib/src/bluetooth_packet.c:671-690 | any nonzero error within 16 consecutive bits of data and check turns a passing payload into a failing one, for every length |
| PayloadCheck.OddErrorDetected | official-libbtbb-src/lib/src/bluetooth_packet.c:671-690 | so does any error of odd weight |
| PayloadCheck.UapUnique | official-libbtbb-src/lib/src/bluetooth_packet.c:671-690 | a payload passes for at most one UAP |
| PayloadCheck.CrcPassesIsZero | official-libbtbb-src/lib/src/bluetooth_packet.c:772-781 | a payload passes exactly when the register runs to zero over data and check |
| Polynomials.CrcPassesExactly | official-libbtbb-src/lib/src/bluetooth_packet.c:671-690 | a payload passes for a UAP exactly when, with the UAP added to its symbols 8 to 15, it is a multiple of D^16 + D^12 + D^5 + 1 |
| Syndromes.SyndromeMap.Cycle | official-libbtbb-src/lib/src/bluetooth_packet.c:161-178 | the recursion adds the enumerated error patterns, in order |
| Syndromes.EnumerateExact | official-libbtbb-src/lib/src/bluetooth_packet.c:161-178 | these are exactly the supersets of the given error with the given number of further bits at or above the start |
| Syndromes.EnumerateDistinct | official-libbtbb-src/lib/src/bluetooth_packet.c:161-178 | each of them once |
| Syndromes.MapExact | official-libbtbb-src/lib/src/bluetooth_packet.c:180-185 | the whole map has every nonempty error of at most k bits among the 58 positions exactly once |
| ProfileParser.Parser.ParseLine | official-libwdi-src/examples/profile.c:402-554 | one line in its buffer, in which null characters are written and quoted strings replaced as the source does, leads the linked nodes where the step on the tree leads that they stand for: the same error, or nodes that stand for the next tree, well linked, with the current section at the same place |
| ProfileLaws.BraceOnNextLine | official-libwdi-src/examples/profile.c:512-546 | a readable name with its equals sign on one line and a brace first on the next do what the name with its brace and an empty line do: the section is added and entered |
| ProfileLaws.NoBraceOnNextLine | official-libwdi-src/examples/profile.c:412-415 | any other line after a name alone is the error 18 |
| ProfileLaws.SectionAgain | official-libwdi-src/examples/profile.c:450-465 | the line of a section that is there enters it again; a mark that is there stays |
| ProfileLaws.SectionBlanks | official-libwdi-src/examples/profile.c:435-475 | blanks around an unquoted section name are no part of it, and whatever follows the bracket has no effect |
| ProfileLaws.StarMarksFinal | official-libwdi-src/examples/profile.c:547-552 | a star after a name that needs no quotes marks the relation as final and is no part of the name |
| ProfileLaws.SectionNotAtTop | official-libwdi-src/examples/profile.c:432-434 | a bracket inside a section is the error 14, whatever follows it |
| ProfileLaws.BraceAtTop | official-libwdi-src/examples/profile.c:477-479 | a closing brace with no section open is the error 17 |
| ProfileLaws.BracketNotClosed | official-libwdi-src/examples/profile.c:437-439 | a bracket that is not closed is the error 15 |
| ProfileLaws.NoSectionName | official-libwdi-src/examples/profile.c:443-448 | so is a bracket without a name |
| ProfileLaws.JunkAfterSectionName | official-libwdi-src/examples/profile.c:464-474 | so is anything but a star and a comment after a quoted section name |
| ProfileLaws.NoRelation | official-libwdi-src/examples/profile.c:489-494 | a line without an equals sign, or with nothing before it, is the error 16 |
| ProfileLaws.TwoNames | official-libwdi-src/examples/profile.c:499-508 | so are two words before the equals sign |
| ProfileLaws.TwoValues | official-libwdi-src/examples/profile.c:526-533 | so are two words after it, unless what follows the first one is a comment, which is dropped |
| ProfileLaws.QuotedValueEndsLine | official-libwdi-src/examples/profile.c:513-515 | after a quoted value whatever follows is not looked at |
| ProfileLaws.JunkAfterBrace | official-libwdi-src/examples/profile.c:519-525 | so is anything but a comment after an opening brace |
| ProfileLaws.CommentLine | official-libwdi-src/examples/profile.c:427-431 | a comment changes nothing but the line number |
| ProfileLaws.BlankLine | official-libwdi-src/examples/profile.c:425-431 | nor does a line of blanks |
| ProfileLaws.BeforeFirstSection | official-libwdi-src/examples/profile.c:419-423 | nor does any line before the first one that begins with a bracket |
| ProfileLine.ReadSection | official-libwdi-src/examples/profile.c:435-475 | a section line in place: the bracket and the blanks before it are overwritten, or the quoted name is, and the rest of the line is read where the pointer then stands; what it says is a function of the buffer before |
| ProfileLine.TrimName | official-libwdi-src/examples/profile.c:444-446 | the walk back over the blanks before the bracket |
| ProfileLine.ReadRelation | official-libwdi-src/examples/profile.c:489-536 | a relation line in place: the null character over the equals sign, the name, and the value read from the buffer that is then left |
| ProfileLine.ReadName | official-libwdi-src/examples/profile.c:496-508 | the name in place, quoted or ended at the first blank |
| ProfileLine.ReadValue | official-libwdi-src/examples/profile.c:510-552 | the value or brace in place, and the name cut at a star |
| ProfileReading.LexedIsLex | official-libwdi-src/examples/profile.c:402-554 | what is read from the buffer is what the text of the line says, defined on the text alone, unless a quoted string on the line ends in a backslash that escapes what follows it; what is behind the line does not matter |
| ProfileReading.UnquotedSection | official-libwdi-src/examples/profile.c:444-464 | after the walk back over the blanks the character behind the name is a null character, so nothing of an unquoted section line is left to read |
| ProfileReading.TextAfterEquals | official-libwdi-src/examples/profile.c:497-510 | the text after the equals sign of a relation with a quoted name is still there when the value is read exactly when no backslash comes right before the equals sign, or what is read over is no longer than what was freed before it |
| ProfileReading.EscapedEquals | official-libwdi-src/examples/profile.c:497-536 | with such a backslash the name ends there, and the value is read from what has been copied over the text |
| ProfileReading.ValueIsShortened | official-libwdi-src/examples/profile.c:497-536 | a line on which the relation ab gets the value d where cd is written |
| ProfileReading.SectionIsOpened | official-libwdi-src/examples/profile.c:497-546 | a line with an escaped equals sign in its name that opens a section where the text is no relation at all |
| ProfileParser.Parser.EnterSection | official-libwdi-src/examples/profile.c:450-465 | a section line finds the section with that name or adds it |
| ProfileParser.Parser.LeaveSection | official-libwdi-src/examples/profile.c:477-485 | a closing brace goes back to the enclosing section, marking the one left if it has a star |
| ProfileParser.Parser.AddChildNode | official-libwdi-src/examples/profile.c:540-553 | adding a node to a section adds a child to the tree at the path of the section, and to nothing else |
| ProfileParser.Parser.constructor | official-libwdi-src/examples/profile.c:285-294 | the state before the first line |
| ProfileTree.StepKeepsValid | official-libwdi-src/examples/profile.c:402-554 | every accepted line keeps children sorted by name below every node, values only at leaves, top-level sections unique, and the level of the current section one above the group level |
| ProfileTree.AddedSorted | official-libwdi-src/examples/profile.c:827-848 | a child added after the last one with a name not greater keeps the order |
| ProfileTree.GreaterExactly | official-libwdi-src/examples/profile.c:827-832 | the order of names is that of strcmp: the first place where they differ decides, or the longer one is greater |
| ProfileTree.ErrorsAreNotZero | official-libwdi-src/examples/profile.c:402-554 | error codes are never 0 |
| ProfileNodes.AddNode | official-libwdi-src/examples/profile.c:811-850 | the node is linked in after the last child whose name is not greater; all nodes keep the invariant that profile_verify_node checks, and the children in order; nothing else changes |
| ProfileNodes.Splice | official-libwdi-src/examples/profile.c:839-850 | the neighbours and the section point to the new node, and nothing else changes |
| ProfileNodes.FindPlace | official-libwdi-src/examples/profile.c:827-832 | the loop stops at the first child with a greater name |
| ProfileNodes.SectionLinked | official-libwdi-src/examples/profile.c:780-806 | after linking a node in, the links, parents and levels of all children are consistent again |
| ProfileNodes.OthersLinked | official-libwdi-src/examples/profile.c:780-806 | sections elsewhere stay consistent |
| ProfileNodes.PutMirrors | official-libwdi-src/examples/profile.c:811-850 | changing one node changes the tree that the root stands for at its path only |
| ProfileLookup.LookupAfterParsing | official-libwdi-src/examples/profile.c:450-459 | after an accepted file, looking up a section and a relation gives the value that comes first in the file, as it is read from the buffer, among all blocks of that section, and nothing exactly when no block has it |
| ProfileLookup.ValuesAdded | official-libwdi-src/examples/profile.c:827-832 | a new relation comes after those with the same name, so equal names stay in file order |
| ProfileStore.GetValue | official-libwdi-src/examples/profile.c:997-1154 | walking the linked nodes finds the value that the tree has, and PROF_NO_RELATION is returned exactly when there is none |
| ProfileStore.FindNode | official-libwdi-src/examples/profile.c:866-935 | a call returns the first match from the state on, and as new state the match after it; the code for nothing found depends on what was looked for |
| ProfileStore.DumpProfile | official-libwdi-src/examples/profile.c:619-679 | walking the linked nodes prints the lines defined for the tree: relations first, then sections with their contents |
| ProfileStore.DumpRelations | official-libwdi-src/examples/profile.c:628-643 | the loop over the relations prints them in order |
| ProfilePrint.PrintThenParse | official-libwdi-src/examples/profile.c:560-679 | parsing any buffers that hold the lines printed for a tree of readable names and values succeeds and rebuilds, at every node, the same sequence of relations and the same sequence of sections, apart from final marks; the marks come back too exactly when no relation is final and every final top-level section has a name that needs quotes |
| ProfilePrint.RunContents | official-libwdi-src/examples/profile.c:619-679 | the lines printed for the contents of a section rebuild them in an empty section |
| ProfilePrint.SampleDump | official-libwdi-src/examples/profile.c:619-679 | a section with a relation and a final section inside, as the lines that are printed for it, character by character |
| ProfileWords.RelationReadExactly | official-libwdi-src/examples/profile.c:486-536 | for all names and values a printed relation line in a buffer is read as that relation exactly when both are readable: not empty, without a double quote where quotes are needed, else without blanks and without a misleading first character, and a name without equals sign or star |
| ProfileWords.OpenLexes | official-libwdi-src/examples/profile.c:486-536 | a printed opening line with a readable name is read as opening that section |
| ProfileWords.SectionLexes | official-libwdi-src/examples/profile.c:432-473 | a printed top-level section line is read as that section; a star is read exactly when the name needs quotes |
| ProfileWords.StarIsReadExactly | official-libwdi-src/examples/profile.c:432-473 | the line of a final section in a buffer is read as a final section exactly when its name needs quotes |
| ProfileWords.StarIsNotSeen | official-libwdi-src/examples/profile.c:440-465 | in a buffer, too, a star after an unquoted section name has no effect, whatever else follows |
| ProfileText.QuotedRoundTrip | official-libwdi-src/examples/profile.c:576-612 | printing and reading a quoted string is the identity exactly for strings without double quotes, which the printer does not escape |
| ProfileText.EscapedCharacter | official-libwdi-src/examples/profile.c:576-612 | which characters are printed as two, and as which |
| ProfileText.EscapeRead | official-libwdi-src/examples/profile.c:375-400 | what a backslash and the character after it stand for |
| ProfileWords.QuotesNeededExactly | official-libwdi-src/examples/profile.c:560-571 | a word is put in quotes exactly when it holds a blank, tab, newline, backspace, number sign or semicolon, or begins or ends with another blank character |
| ProfileLine.ParseQuotedString | official-libwdi-src/examples/profile.c:375-400 | in place, the content is written over the quoted string and ended with a null character, and the rest of the buffer is untouched; an escaped null character does not end the string |
| ProfileText.OutputQuotedString | official-libwdi-src/examples/profile.c:576-612 | the loop prints the escaped string between quotes |
| ProfileLine.StripLine | official-libwdi-src/examples/profile.c:368-373 | in place, null characters are written over the trailing line ends except the first of them |
| ProfileText.StrippedLeavesOne | official-libwdi-src/examples/profile.c:368-373 | whatever line ends a line has, the first one stays |
| ProfileWords.UnquotedSectionEndsLine | official-libwdi-src/examples/profile.c:440-465 | after any unquoted section name nothing on the line is looked at; blanks at the end of the name are dropped |
| ProfileWords.QuotedSectionSeesRest | official-libwdi-src/examples/profile.c:440-475 | after a quoted one whatever follows is looked at: a star makes the section final, and anything but blanks and a comment is an error |
| Tokenizer.TokenizeString | official-libwdi-src/libwdi/tokenizer.c:76-221 | the error codes, and otherwise a buffer with the tokenized text followed by a null character, and its length |
| Tokenizer.TokenizeText | official-libwdi-src/libwdi/tokenizer.c:113-207 | the loops write the tokenized text; the position stays below the size of the buffer, so the null character fits |
| Tokenizer.TokenizedIsSubstituted | official-libwdi-src/libwdi/tokenizer.c:122-207 | for any prefix, suffix and entities, the text written is the leftmost single-pass substitution in which the first matching entity wins and a prefix without a match stays, for all texts exactly when no entity with an empty name is found for the bare prefix and suffix, or the one found stands for just that |
| Tokenizer.FirstTokenReplaced | official-libwdi-src/libwdi/tokenizer.c:122-207 | that substitution replaces the first token, found where no prefix occurs before it and by the first entity that fits, and treats what comes after it in the same way |
| Tokenizer.NothingToReplace | official-libwdi-src/libwdi/tokenizer.c:122-207 | and it leaves a text alone in which no prefix is followed by a name and the suffix |
| Tokenizer.BareToken | official-libwdi-src/libwdi/tokenizer.c:122-122 | a text that is only the prefix and the suffix is copied as it is, whatever the entities |
| Tokenizer.TemplateRoundTrip | official-libwdi-src/libwdi/tokenizer.c:122-207 | tokenizing a rendered template gives its expansion, when plain text keeps clear of the prefix, names keep clear of the suffix, and no name is used twice |
| Tokenizer.GrowStrcpy | official-libwdi-src/libwdi/tokenizer.c:46-70 | appends the whole text, in a larger buffer if needed, and leaves room for one more character |
| Tokenizer.FindPrefix | official-libwdi-src/libwdi/tokenizer.c:124-135 | the search finds the next prefix that may begin a token, or what is left is copied as it is |
| Tokenizer.FindEntity | official-libwdi-src/libwdi/tokenizer.c:151-186 | the loop finds the first entity whose name and suffix come next |
| Tokenizer.FirstThatFits | official-libwdi-src/libwdi/tokenizer.c:151-186 | that is the one with the smallest number among those that fit, and none exactly when none fits |
| Tokenizer.ReplaceAt | official-libwdi-src/libwdi/tokenizer.c:137-195 | the text before the prefix, and the replacement or the prefix itself, are appended |

## Left out

- Packets.Packet.DM: does not model the fields that `DM` and `DH` share with other types, such as voice data.
- Packets.Packet.TryClock: `crc_check` itself, and with it FHS, EV and HV packets, is not modelled; in the search its results are arbitrary.
- Piconets.Piconet.InitCandidates: the source allots a fixed capacity without a check; the model allots room for all 2^21 clocks that share the known bits.
- Piconets.Piconet.ProcessPacket: requires room in the observation arrays during hop reversal, where the source does not check for it; the decoding of packets and the texts printed are not modelled, and channels are numbered 0 to 78.
- Piconets.Piconet.NoteRepeat: at hop 0 the source reads before its arrays, which is modelled as reading anything.
- Piconets.Piconet.SetChannelSeen: takes channels 0 to 78 only; the source would also mark bit 79, which is no channel.
- Piconets.Piconet.ClearChannelSeen: likewise.
- Piconets.Piconet.SetAfhMap: bit 79 of the map must be clear, and with a valid UAP the map must not be empty, since the source divides by the number of channels.
- Piconets.Piconet.InitPiconet: requires that hop reversal has not begun, as another LAP would change the pattern under the candidates.
- Piconets.Piconet.SetUap: requires that hop reversal has not begun, as another UAP would change the pattern under the candidates.
- Syndromes.SyndromeMap.Cycle: the syndromes that the patterns are filed under need a table in a file that is not part of this model.
- ProfileParser.Parser.ParseLine: the buffer ends with a null character, and nothing is claimed for a line with a quoted string that is read on to the end of the buffer, where a backslash escapes that null character; the line is read to its end before nodes are added.
- ProfileStore.GetValue: one file and no reloading; the iterator's other flags, deleted nodes (nothing sets that mark) and the numeric and boolean getters are not modelled.
- Tokenizer.TokenizeString: the recursive mode, which need not end, and failing allocation, are not modelled; for texts with null characters, which the source copies only in part, the contract does not describe it.
- Survey mode, reference counts, the hash tables themselves, the disabled variant of `perm5`, the BLE decoder, file reading with its line buffer, and everything else in the repository (user interface, installer, signing, logging).
