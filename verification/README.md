# Session management and mobility information elements: a verified model

This project models the coding and checking of information elements of 3GPP TS 24.008 in the
mobility management entity under `component/oai-mme`.

- **Traffic flow templates** (section 10.5.6.12): the packet filter and template coders, the
  verification of received operations with its two indices, the code that applies an accepted
  operation to a stored template, and runs of operations.
- **Access point names** (section 10.5.6.1) and **protocol configuration options** (section 10.5.6.3).
- **PLMN lists** (section 10.5.1.13), **mobile identities** (section 10.5.1.4) and numbers held in
  ASN.1 **bit strings**.

Check it with `dafny verify dfyconfig.toml`.

## How it is organised

Each information element has a module of plain functions that say which octets a value has and
which value octets have, with the theorems about the two, and a module of methods that work the way
the C code does, on buffers and records, proved equal to those functions.

| modules | about |
|---|---|
| `Octets`, `Bits`, `Tlv` | fixed-width numbers, shifts and bitwise or, writing into a buffer |
| `PacketFilters`, `FilterCodec`, `FilterCoder` | packet filters and their octets |
| `TftRules` | the checks on operations, on filter lists alone |
| `TftChecks` | the same checks as read off bitmap and table, and their agreement |
| `TftCauses` | which cause every message is answered with |
| `TftIndices`, `TftStores` | the bitmap and the precedence table, and what they mean |
| `TrafficFlowTemplates` | the template record, its verification and its update in place |
| `TftUpdates`, `TftAdding`, `TftReplacing`, `TftDeleting`, `TftRuns` | applying operations, and runs |
| `TftCodec`, `TftCoder` | templates and their octets |
| `FilterWire`, `TftWire`, `NameWire`, `OptionsWire`, `PlmnWire`, `IdentityWire` | all octets as numbers |
| `TftEffects` | what received octets make of a stored template |
| `TftCursors` | where the template encoder's cursor goes, for every length given |
| `TftSessions`, `TftExchanges` | from received octets to runs, and what a stored template sends |
| `AccessPointNames`, `ConfigurationOptions`, `ConfigurationOptionsCoder` | names and options |
| `PlmnLists`, `MobileIdentities`, `MobileIdentityCoder`, `BitStrings` | the rest |

The modules `FilterWire`, `TftWire`, `NameWire`, `OptionsWire`, `PlmnWire` and `IdentityWire` say the
same octets once more as plain numbers, and prove for each coder that it writes exactly those and
makes of any octets exactly what they say. `TftCauses` does so for the answers of verification.

Decoders read memory beyond the declared lengths in places. A specification function then yields
`Overrun`, and the method requires that this is not the outcome: the memory must cover what is read.
Likewise encoders must be given memory that covers what they write (`TftCursors.TftReaches`).
A failed `DevAssert`, `DevCheck` or `AssertFatal` ends the program and is an outcome of its own,
`Aborted`. A shift that C does not define is the outcome `Undefined`, of which anything may come.

The indices of a received template are empty when verification starts, as
`clear_traffic_flow_template` leaves them and the decoder keeps them. Flag words and bitmaps are sets
of the positions of their one bits; the lemmas `TftIndices.SubtractionClearsBits` and
`TftIndices.ZeroMeansNoBits` connect the subtraction in the C code with set difference. A stored
template has sixteen slots, free when their length is 0, and a counter of four bits.

## Where the code departs from its documentation

The model follows the code. Each of these is proved, with the exact condition where one exists.

- `ENCODE_U24` stores a 32-bit word and counts three octets, so a flow label v comes back as
  (v mod 2^20) / 256, and only 0 comes back as itself (`FilterCodec.RoundTripExact`); one octet after
  the component is touched. `DECODE_U24` reads four octets.
- Applying a replace or delete looks filters up by identifier without skipping free slots, whose
  identifier reads 0. Filter 0 is handled correctly if and only if no free slot comes before it
  (`TftRuns.RunsSoundExactly`; `TftSessions.UnsafeOctetsBreak` is a run of three messages that goes
  wrong). A replacement that misses filter 0 ends in a failed assertion exactly when a new filter
  takes the old one's precedence and that is not 0 (`TftRuns.RunAbortsExactly`).
- The helper of delete looks for filters in the slots below the counter only, though deletions leave
  gaps. So valid deletes are refused, exactly as `TftChecks.DeleteAcceptedWhenDirected` says
  (`TftSessions.ValidOctetsRefused` is a run of three messages).
- Deleted identifiers are octets, and marking one of 30 or more shifts past what an int holds
  (`TftStores.ShiftsDefined`, `TftRuns.StepExact`).
- The decoder's answer to octets received from the gateway is kept in eight bits, so its errors pass
  for sizes and a half-decoded template goes on to verification (`TftSessions.TakenInExactly`). A
  filter can so be kept without any component (`TftExchanges.BareExactly`, `TftExchanges.BareAccepted`).
- A stored template is sent slot by slot below its counter. Filters that deletions left above it are
  lost, and the free slots sent for them make the receiver refuse the message
  (`TftExchanges.SentExactly`, `TftExchanges.StoredAccepted`).
- The template encoder checks only whether any room is left, and only before a filter. When the length
  given ends exactly where a filter starts, the negative answer is added to its unsigned cursor, and
  the filters after it are written over what is there (`TftCursors.RefusalCosts`).
- `BIT_STRING_to_uint32` shifts a first octet of 0x80 or more by 24 when nothing is unused, past what an
  int holds (`BitStrings.ToUint32`).
- The counter of a full template reads 0: the add operation's test for a full template never fires
  (the pigeonhole argument of `TftIndices.AddFits` takes its place), and no filter of a full template
  can be deleted (`TftChecks.FullTftKeepsAll`, `TftRuns.FullRunRefuses`).
- The helper of delete tests bit `identifier` of a bitmap that keeps identifier n at bit n + 1.
- The protocol of configuration options is written to bits 0 to 2 and read from bits 1 to 3. The
  element's decoder passes on the rest of the message rather than the element's own length.
- The PLMN list decoder runs to the end of the message, and asks for room for as many networks as the
  list held before.
- An odd IMEISV has its last digit or-ed into the place of the one before; an absent identity is
  announced with three octets and written with one; a TMGI is written with eight octets and read only
  with nine.

## Model

| member | source | states |
|---|---|---|
| `TftRules.CreateAccepted` | component/oai-mme/src/common/3gpp_24.008_sm_ies.c:1335-1370 | create is accepted if and only if every filter has a length and identifiers and precedences are pairwise distinct; a list property, with no index in it |
| `TftRules.AddAccepted` | component/oai-mme/src/common/3gpp_24.008_sm_ies.c:1371-1416 | add is accepted if and only if every new filter has a length and the old filters followed by the new ones are pairwise distinct in identifier and precedence |
| `TftRules.ReplaceAccepted` | component/oai-mme/src/common/3gpp_24.008_sm_ies.c:1417-1494 | replace is accepted if and only if all lengths are non-zero, identifiers are distinct and known, and the list after replacing all of them at once has distinct precedences; so the "only one layer" test is sound and complete, for chains and swaps too |
| `TftRules.OneLayerSuffices` | component/oai-mme/src/common/3gpp_24.008_sm_ies.c:1466-1491 | soundness half of the one-layer test: if no kept filter loses its precedence, the replaced list has distinct precedences |
| `TftRules.NoneTakesKept` | component/oai-mme/src/common/3gpp_24.008_sm_ies.c:1466-1491 | completeness half: if the replaced list has distinct precedences, the one-layer test does not fire |
| `TftRules.ReplacedKeepsIds` | component/oai-mme/src/common/3gpp_24.008_sm_ies.c:1440-1446 | replacing keeps every identifier in its place, and frees or fills no slot |
| `TftRules.DeleteAccepted` | component/oai-mme/src/common/3gpp_24.008_sm_ies.c:1495-1538 | delete is accepted if and only if the identifiers are distinct and present, a filter is left, and one with a direction passes the off-by-one bit test |
| `TftChecks.DeleteAcceptedExactly` | component/oai-mme/src/common/3gpp_24.008_sm_ies.c:1286-1322 | on a well-formed template, delete is accepted if and only if it names distinct filters of it, leaves one, and some filter in the slots below the counter has a direction and passes the off-by-one test |
| `TftChecks.DeleteAcceptedWhenDirected` | component/oai-mme/src/common/3gpp_24.008_sm_ies.c:1305-1319 | with a direction on every filter, a valid delete is refused if and only if no filter in the slots below the counter passes the off-by-one test; gaps left by deletions make that happen |
| `TftChecks.DeleteAcceptedWithoutGaps` | component/oai-mme/src/common/3gpp_24.008_sm_ies.c:1305-1319 | when moreover all filters lie below the counter, every valid delete is accepted, by the filter with the least identifier |
| `TftChecks.FullTftKeepsAll` | component/oai-mme/src/common/3gpp_24.008_sm_ies.c:1305-1321 | a well-formed template of sixteen filters, whose four-bit counter reads 0, has every delete refused |
| `TftChecks.AddCauseAgrees` | component/oai-mme/src/common/3gpp_24.008_sm_ies.c:1378-1415 | read off the bitmap and table of a stored template whose indices agree with its filters, the cause of an add is that of the rule on filter lists |
| `TftChecks.ReplaceCauseAgrees` | component/oai-mme/src/common/3gpp_24.008_sm_ies.c:1424-1493 | same for a replace, both passes |
| `TftChecks.DeleteCauseAgrees` | component/oai-mme/src/common/3gpp_24.008_sm_ies.c:1506-1536 | same for a delete, where the shifts are defined |
| `TftCauses.CauseExactly` | component/oai-mme/src/common/3gpp_24.008_sm_ies.c:1310-1548 | for every message and every stored template, or none, exactly one cause is the answer: by the number of the operation, the least offending filter or the last offending identifier decides, and operations 0, 2 and 7 are rejected |
| `TftCauses.ClashesWith` | component/oai-mme/src/common/3gpp_24.008_sm_ies.c:1391-1406 | on a well-formed template, a filter to add clashes if and only if it repeats an identifier or precedence of the message or of a stored filter |
| `TftCauses.MisnamesWhich` | component/oai-mme/src/common/3gpp_24.008_sm_ies.c:1430-1491 | on a well-formed template, which replacements name no stored filter, and which take the precedence of one that stays |
| `TftCauses.LeavesWhich` | component/oai-mme/src/common/3gpp_24.008_sm_ies.c:1282-1321 | on a well-formed template, a deletion leaves none if and only if it names all filters, or all with a direction that the off-by-one test below the counter can see |
| `TftStores.BitsRemaining` | component/oai-mme/src/common/3gpp_24.008_sm_ies.c:1290-1296 | the masked difference of the two bitmaps is empty if and only if the message deletes every filter of the original |
| `TftIndices.AppendedIndexed` | component/oai-mme/src/common/3gpp_24.008_sm_ies.c:1360-1365 | setting one bit and one table entry keeps bitmap and table in exact agreement with the filter list |
| `TftIndices.TableReads` | component/oai-mme/src/common/3gpp_24.008_sm_ies.c:1355-1365 | with agreeing indices, entry p of the table is non-zero if and only if some filter has precedence p, and then it is the identifier of such a filter plus one |
| `TftIndices.Pigeonhole` | component/oai-mme/src/common/3gpp_24.008.h:1074-1085 | filters with distinct four-bit identifiers number at most sixteen |
| `TftIndices.AddFits` | component/oai-mme/src/common/3gpp_24.008_sm_ies.c:1385-1389 | an accepted add never overfills the sixteen slots, although the test on the old count can never fire |
| `TftIndices.BitmapSize` | component/oai-mme/src/common/3gpp_24.008_sm_ies.c:1361-1362 | an agreeing bitmap has as many one bits as the list has filters |
| `TftIndices.TableSize` | component/oai-mme/src/common/3gpp_24.008_sm_ies.c:1363-1365 | an agreeing table has as many non-zero entries as the list has filters |
| `TftIndices.SubtractionClearsBits` | component/oai-mme/src/common/3gpp_24.008_sm_ies.c:1290-1293 | subtracting the masked word from the bitmap, as numbers, clears exactly the masked bits |
| `TftIndices.ZeroMeansNoBits` | component/oai-mme/src/common/3gpp_24.008_sm_ies.c:1296 | the difference is zero as a number if and only if no bit of it is left |
| `TrafficFlowTemplates.Tft.VerifyCreate` | component/oai-mme/src/common/3gpp_24.008_sm_ies.c:1342-1369 | the loop over bitmap and table returns the cause of the first offending filter of the list, and leaves indices that agree with an accepted list |
| `TrafficFlowTemplates.Tft.VerifyAdd` | component/oai-mme/src/common/3gpp_24.008_sm_ies.c:1378-1415 | same for add, read off the indices of both templates, whatever the stored ones hold |
| `TrafficFlowTemplates.Tft.VerifyReplace` | component/oai-mme/src/common/3gpp_24.008_sm_ies.c:1424-1493 | same for replace, both passes |
| `TrafficFlowTemplates.Tft.PrecedencesMove` | component/oai-mme/src/common/3gpp_24.008_sm_ies.c:1466-1491 | the second pass returns true if and only if no new filter takes the table entry of an identifier that the message does not name |
| `TrafficFlowTemplates.Tft.RendersEmpty` | component/oai-mme/src/common/3gpp_24.008_sm_ies.c:1286-1322 | the helper, on bitmaps, returns true if and only if all filters are deleted or none with a direction passes the test on bit `identifier` |
| `TrafficFlowTemplates.Tft.VerifyDelete` | component/oai-mme/src/common/3gpp_24.008_sm_ies.c:1506-1536 | the loop keeps the cause of the last offending identifier, repetition outweighing absence, and the helper overrules it; the message bitmap ends as the set of deleted identifiers; an undefined shift is an outcome |
| `TrafficFlowTemplates.Verify` | component/oai-mme/src/common/3gpp_24.008_sm_ies.c:1329-1549 | the whole verification returns the specified cause for every operation code, any stored template, missing message and missing original, changes only the indices of the message, and leaves them in agreement on acceptance |
| `TrafficFlowTemplates.Tft.FinalizeAdd` | component/oai-mme/src/mme_app/mme_app_bearer_context.c:1309-1370 | applying an add performs the specified sequence of first-free-slot insertions, also when it stops half-way |
| `TrafficFlowTemplates.Tft.FinalizeDelete` | component/oai-mme/src/mme_app/mme_app_bearer_context.c:1384-1433 | applying a delete performs the specified sequence of look-ups and clearings, then clears the bitmap |
| `TrafficFlowTemplates.Tft.FinalizeReplace` | component/oai-mme/src/mme_app/mme_app_bearer_context.c:1439-1506 | applying a replace performs the overwriting pass, then the pass that enters the new precedences |
| `TrafficFlowTemplates.Tft.FinalizeTft` | component/oai-mme/src/mme_app/mme_app_bearer_context.c:1290-1521 | the dispatch, including the refusal of other operation codes |
| `TftAdding.AddApplies` | component/oai-mme/src/mme_app/mme_app_bearer_context.c:1309-1370 | an accepted add on a well-formed template never runs out of slots or aborts; the result holds exactly the old filters and the new ones, at most sixteen, and is well-formed |
| `TftReplacing.ReplaceAppliesExactly` | component/oai-mme/src/mme_app/mme_app_bearer_context.c:1439-1506 | an accepted replace is applied as intended, and keeps the template well-formed, if and only if it leaves filter 0 alone or no free slot comes before filter 0 |
| `TftReplacing.ReplaceAbortsExactly` | component/oai-mme/src/mme_app/mme_app_bearer_context.c:1489-1506 | an accepted replace ends in the failed assertion if and only if it names filter 0, a free slot comes before that, and some new filter takes its precedence, which is not 0 |
| `TftReplacing.ReplacedFilters` | component/oai-mme/src/mme_app/mme_app_bearer_context.c:1464-1478 | replacing drops the named filters and brings in the new ones, and nothing else |
| `TftDeleting.DeleteAppliesExactly` | component/oai-mme/src/mme_app/mme_app_bearer_context.c:1384-1433 | an accepted delete is applied as intended, and keeps the template well-formed, if and only if filter 0, when named, has no free slot before it at its turn |
| `TftDeleting.DeleteNeverAborts` | component/oai-mme/src/mme_app/mme_app_bearer_context.c:1398-1402 | an accepted delete never ends in the failed assertion |
| `TftDeleting.ClearedFilters` | component/oai-mme/src/mme_app/mme_app_bearer_context.c:1411-1421 | deleting drops the named filters and nothing else |
| `TftUpdates.WellFormedIsRebuilt` | component/oai-mme/src/common/3gpp_24.008.h:1123-1149 | a template is well-formed if and only if its counter, bitmap and table are those computed anew from good slots: the slots determine the rest |
| `TftUpdates.EmptiedSlot` | component/oai-mme/src/mme_app/mme_app_bearer_context.c:1411-1421 | clearing the table entry and the slot of a filter is the inverse of entering it |
| `TftRuns.IntendedRunsSound` | component/oai-mme/src/common/3gpp_24.008_sm_ies.c:1329-1549 | over every run of verified operations applied as section 10.5.6.12 intends: distinct identifiers and precedences, 1 to 16 filters, bitmap and table in exact agreement |
| `TftRuns.StepExact` | component/oai-mme/src/mme_app/mme_app_bearer_context.c:1290-1521 | from a sound bearer, the program step equals the intended one, and keeps it sound, if and only if the step is safe: no undefined shift, and an accepted replace or delete that names filter 0 meets no free slot before it |
| `TftRuns.RunsSoundExactly` | component/oai-mme/src/mme_app/mme_app_bearer_context.c:1290-1521 | the program keeps a bearer sound throughout a run if and only if every step of the run is safe, and then does what is intended |
| `TftRuns.RunsWithoutZeroSound` | component/oai-mme/src/mme_app/mme_app_bearer_context.c:1290-1521 | every run that never names identifier 0, nor deletes one beyond the shift, is sound throughout and as intended |
| `TftRuns.StepAbortsExactly` | component/oai-mme/src/mme_app/mme_app_bearer_context.c:1489-1506 | from a sound bearer, a message ends the process if and only if it is an accepted replace that collides |
| `TftRuns.RunAbortsExactly` | component/oai-mme/src/mme_app/mme_app_bearer_context.c:1489-1506 | after safe messages, a run ends in a failed assertion if and only if the next message is an accepted replace that collides |
| `TftRuns.UnsafeRunBreaks` | component/oai-mme/src/mme_app/mme_app_bearer_context.c:1444-1478 | three accepted operations (create 1, 0, 2; delete 1; replace 0) after which the program's template is unsound and the intended one is not |
| `TftRuns.UnsafeRunAborts` | component/oai-mme/src/mme_app/mme_app_bearer_context.c:1489-1506 | the same run, with filter 0 keeping its precedence, ends in the failed assertion |
| `TftRuns.ValidDeleteRefused` | component/oai-mme/src/common/3gpp_24.008_sm_ies.c:1305-1321 | a safe run (create 1 to 4; delete 1 and 2; delete 3) whose last operation is valid and refused |
| `TftRuns.FullRunRefuses` | component/oai-mme/src/common/3gpp_24.008_sm_ies.c:1305-1321 | a safe run to sixteen filters, after which the valid delete of any single one is refused |
| `TrafficFlowTemplates.Tft.constructor` | component/oai-mme/src/s11/s11_ie_formatter.c:403-404 | a record from calloc: every field zero, both indices empty, storage of its own |
| `TrafficFlowTemplates.ReceiveFirst` | component/oai-mme/src/mme_app/mme_app_bearer_context.c:316-346 | an operation received without a template is the first step of a run: verified, and kept if it creates one, with the record's filters as they were |
| `TrafficFlowTemplates.ReceiveNext` | component/oai-mme/src/mme_app/mme_app_bearer_context.c:849-958 | verifying against any stored template and then applying is one step of a run; a refusal fails with the cause of verification and changes nothing |
| `TftSessions.GetTft` | component/oai-mme/src/gtpv2-c/gtpv2c_ie_formatter/src/gtpv2c_ie_formatter.c:610-623 | the record is what the decoder leaves, and it is accepted if and only if the low eight bits of the decoder's answer are not zero |
| `TftSessions.TakenInExactly` | component/oai-mme/src/gtpv2-c/gtpv2c_ie_formatter/src/gtpv2c_ie_formatter.c:616-617 | no decoding error is ever noticed; a decoded template is turned down if and only if its size is a multiple of 256 |
| `TftSessions.ReceiveOctetsFirst` | component/oai-mme/src/s11/s11_ie_formatter.c:402-409 | octets decoded into a cleared record and received without a template are the first step of a run, answered with the cause of verification, or a failed assertion; a template kept is a new one with arrays of its own |
| `TftSessions.ReceiveOctetsNext` | component/oai-mme/src/s11/s11_ie_formatter.c:729-735 | octets decoded into a cleared record and received against a stored template are one step of a run, or a failed assertion; a refusal fails with the cause of verification and changes nothing |
| `TftSessions.ReceiveAll` | component/oai-mme/src/mme_app/mme_app_main.c:62-199 | the message loop, as far as one bearer is concerned: receiving octets one after the other, each against the template that the ones before left, ends as the run of those octets does, with a template of its own |
| `TftSessions.OctetsRunMessages` | component/oai-mme/src/gtpv2-c/gtpv2c_ie_formatter/src/gtpv2c_ie_formatter.c:610-623 | octets that are all taken in run exactly as the messages that they stand for |
| `TftWire.MessageRead` | component/oai-mme/src/common/3gpp_24.008_sm_ies.c:838-900 | the upper three bits of the first octet are the operation, the lower four count the entries, and after 5 the identifiers to delete follow |
| `TftEffects.CreateReceived` | component/oai-mme/src/common/3gpp_24.008.h:1125-1131 | octets whose first is 1 in its upper bits, if accepted, make the filters received the slots of a new template |
| `TftEffects.AddReceived` | component/oai-mme/src/mme_app/mme_app_bearer_context.c:1309-1378 | octets with 3, if accepted, bring in exactly the filters received and leave every stored one in its place |
| `TftEffects.ReplaceReceived` | component/oai-mme/src/mme_app/mme_app_bearer_context.c:1439-1506 | octets with 4, if accepted, put every filter received in the place of the stored one it names, if and only if none names filter 0 or no free slot comes before that |
| `TftEffects.DeleteReceived` | component/oai-mme/src/mme_app/mme_app_bearer_context.c:1384-1432 | octets with 5, if accepted, free exactly the slots of the identifiers that follow, if and only if filter 0 is reached in its turn |
| `TftEffects.OthersIgnored` | component/oai-mme/src/common/3gpp_24.008_sm_ies.c:1538-1548 | octets with another operation, and those answered with an error, leave the bearer as it was |
| `TftEffects.AddPort` | component/oai-mme/src/mme_app/mme_app_bearer_context.c:1309-1378 | octet 0x61 and the six octets of a local port add that filter to any sound template, or leave it as it was if and only if the identifier or the precedence is in use |
| `TftEffects.AppliesAdd` | component/oai-mme/src/mme_app/mme_app_bearer_context.c:1309-1378 | one filter added to any template, sound or not: the first free slot, counter and indices, or the cause or failed assertion |
| `TftEffects.AppliesReplace` | component/oai-mme/src/mme_app/mme_app_bearer_context.c:1439-1506 | one filter replaced in any template: the first slot with its identifier, and the table, or the failed assertion |
| `TftEffects.AppliesDelete` | component/oai-mme/src/mme_app/mme_app_bearer_context.c:1384-1432 | one filter deleted from any template: the first slot with its identifier, counter and indices |
| `TftEffects.AppliesNone` | component/oai-mme/src/mme_app/mme_app_bearer_context.c:1398-1402 | a look-up by identifier that meets no slot fails an assertion |
| `TftEffects.DeleteMissesZero` | component/oai-mme/src/mme_app/mme_app_bearer_context.c:1389-1398 | behind a free slot, filter 0 survives its deletion; counter and indices lose it |
| `TftEffects.ReplaceMissesZero` | component/oai-mme/src/mme_app/mme_app_bearer_context.c:1444-1453 | behind a free slot, filter 0 stays beside its replacement, or an assertion fails where the new precedence is taken |
| `TftSessions.MessageTravels` | component/oai-mme/src/common/3gpp_24.008_sm_ies.c:838-900 | a message of restorable filters, or of identifiers to delete, is exactly what its octets leave in a cleared record |
| `TftSessions.UnsafeOctetsBreak` | component/oai-mme/src/mme_app/mme_app_bearer_context.c:1444-1478 | octets of a create, a delete and a replace after which the program's template is unsound |
| `TftSessions.UnsafeOctetsAbort` | component/oai-mme/src/mme_app/mme_app_bearer_context.c:1489-1506 | octets of a create, a delete and a replace that end in the failed assertion |
| `TftSessions.ValidOctetsRefused` | component/oai-mme/src/common/3gpp_24.008_sm_ies.c:1305-1321 | octets of a create and two deletes, the last of them valid and refused |
| `TftSessions.FullOctetsRefused` | component/oai-mme/src/common/3gpp_24.008_sm_ies.c:1305-1321 | octets that create fifteen filters and add one, and then of a valid delete of any one of them, which is refused |
| `TftExchanges.LeftConsistent` | component/oai-mme/src/common/3gpp_24.008_sm_ies.c:641-803 | what the decoder leaves, after an error too, has a non-zero length without a component, or the other way round, if and only if the first component type is unknown |
| `TftExchanges.BareExactly` | component/oai-mme/src/common/3gpp_24.008_sm_ies.c:838-900 | a message taken from octets has a filter whose length and components disagree in that way if and only if decoding stops at a filter whose first component type is unknown |
| `TftExchanges.BareAccepted` | component/oai-mme/src/gtpv2-c/gtpv2c_ie_formatter/src/gtpv2c_ie_formatter.c:616-617 | five octets that fail to decode are taken in, and the create they leave is kept with a filter that has no component |
| `TftExchanges.SentExactly` | component/oai-mme/src/common/3gpp_24.008_sm_ies.c:1167-1183 | what a stored template sends, the slots below its counter, holds all its filters if and only if none lies at or above the counter; each that does is lost |
| `TftExchanges.StoredTravels` | component/oai-mme/src/mme_app/mme_app_bearer_context.c:201-207 | its octets bring a cleared record the create of those slots if and only if each of them is restorable |
| `TftExchanges.StoredReceived` | component/oai-mme/src/mme_app/mme_app_bearer_context.c:201-207 | when its filters are restorable, its octets bring exactly its filters if and only if none lies at or above the counter |
| `TftExchanges.StoredAccepted` | component/oai-mme/src/mme_app/mme_app_bearer_context.c:201-207 | a receiver without a template accepts its octets if and only if no filter lies at or above the counter and every filter has a known component |
| `TrafficFlowTemplates.CreatedIndices` | component/oai-mme/src/mme_app/mme_app_bearer_context.c:345-346 | the indices that verification built are those of the template that the message becomes |
| `FilterCodec.FilterOctets` | component/oai-mme/src/common/3gpp_24.008_sm_ies.c:944-1124 | an encoded filter has 3 octets plus those of its flagged components, at most 75, so the length octet is never truncated |
| `FilterCodec.KindOf` | component/oai-mme/src/common/3gpp_24.008_sm_ies.c:647-802 | the component announced by a type octet, unique, or none for an unknown type |
| `FilterCodec.ParsesLayout` | component/oai-mme/src/common/3gpp_24.008_sm_ies.c:641-803 | parsing finds exactly the components laid out, in any order and with repeats |
| `FilterCodec.LayoutInjective` | component/oai-mme/src/common/3gpp_24.008_sm_ies.c:978-1118 | different component lists have different octets |
| `FilterCodec.FilterRoundTrip` | component/oai-mme/src/common/3gpp_24.008_sm_ies.c:608-804 | for every component set and field values, decoding the encoding restores direction, identifier, precedence, flags and every flagged field but the flow label, leaves the other fields as they were, and consumes exactly what was written |
| `FilterCodec.RoundTripExact` | component/oai-mme/src/common/3gpp_24.008_sm_ies.c:1104-1109 | nothing is lost if and only if no flow label is carried or it is 0 |
| `FilterCodec.FilterRestoredExactly` | component/oai-mme/src/common/3gpp_24.008_sm_ies.c:608-804 | the whole structure comes back if and only if its length counts its components, its flags are known, it carries no flow label but 0, and its unused fields are those of the structure decoded into |
| `FilterCodec.DecodedIsLeft` | component/oai-mme/src/common/3gpp_24.008_sm_ies.c:608-804 | without an error, what the decoder leaves in the structure is the decoded filter |
| `FilterCodec.DecodedLive` | component/oai-mme/src/common/3gpp_24.008_sm_ies.c:641-803 | a decoded filter has a non-zero length if and only if it has a component; unknown flags are never set |
| `FilterCodec.ReencodedNoLonger` | component/oai-mme/src/common/3gpp_24.008_sm_ies.c:944-1124 | whatever decodes re-encodes to no more octets than were consumed |
| `FilterCodec.ReencodedStable` | component/oai-mme/src/common/3gpp_24.008_sm_ies.c:944-1124 | the octets repeat themselves after a trip if and only if no flow label is carried or its lower twenty bits are below 256 |
| `FilterCodec.CanonicalForm` | component/oai-mme/src/common/3gpp_24.008_sm_ies.c:608-804 | any octets that decode: re-encoding is no longer, decodes to the same components, and then repeats itself, flow labels apart |
| `FilterCoder.EncodePacketFilter` | component/oai-mme/src/common/3gpp_24.008_sm_ies.c:944-1124 | the flag loop with the length octet written back produces exactly the specified octets and touches at most one more |
| `FilterCoder.PutBody` | component/oai-mme/src/common/3gpp_24.008_sm_ies.c:975-1118 | the loop over the ten flags lays out the flagged components in flag order |
| `FilterCoder.DecodePacketFilter` | component/oai-mme/src/common/3gpp_24.008_sm_ies.c:608-804 | the type-tagged loop computes the specified filter, size or error, terminates, and leaves the specified structure also after an error |
| `Tlv.PutU24` | component/oai-mme/src/common/common_defs.h:140-142 | storing 24 bits writes four octets and counts three, so the counted ones hold the value divided by 256 |
| `Tlv.WroteExactly` | component/oai-mme/src/common/common_defs.h:132-146 | what the encoders say they wrote, octet by octet: the octets in their place, the slack after them unknown, and everything else as it was |
| `FilterCoder.GetU24` | component/oai-mme/src/common/common_defs.h:114-116 | reading 24 bits reads a word and drops its lowest octet |
| `FilterWire.FilterSpelled` | component/oai-mme/src/common/3gpp_24.008_sm_ies.c:944-1124 | the octets of a filter, for every set of components and every field value, each component with its type and fields as numbers |
| `FilterWire.DecodesExactly` | component/oai-mme/src/common/3gpp_24.008_sm_ies.c:608-804 | for all octets made of known components, in any order and number: the filter read, field by field with the last of a kind, the octets consumed, or the error at an unknown type, and what is left then |
| `FilterWire.DecodesAll` | component/oai-mme/src/common/3gpp_24.008_sm_ies.c:608-804 | all other octets would have to be read beyond their end |
| `FilterWire.PortSent` | component/oai-mme/src/common/3gpp_24.008.h:992 | a filter on a local port is sent as six octets, the fourth of them 0x40 |
| `FilterWire.PortRead` | component/oai-mme/src/common/3gpp_24.008.h:992 | and those six octets are read as that filter |
| `TftCodec.TftRoundTrip` | component/oai-mme/src/common/3gpp_24.008_sm_ies.c:838-900 | for every operation code, decoding the encoding restores code, E bit, count, every filter or identifier, and consumes exactly what was written |
| `TftCodec.TftRestoredExactly` | component/oai-mme/src/common/3gpp_24.008_sm_ies.c:838-900 | the whole record comes back if and only if all it carries is restorable and the rest was there before |
| `TftCodec.IeRoundTrip` | component/oai-mme/src/common/3gpp_24.008_sm_ies.c:902-927 | the element without identifier comes back whatever its size and whatever the message goes on with |
| `TftCodec.IeLengthOctet` | component/oai-mme/src/common/3gpp_24.008_sm_ies.c:1226 | any three filters take at most 226 octets and leave the length octet right, and so do identifiers to delete; four or more filters with all ten components never do |
| `TftWire.TemplateSpelled` | component/oai-mme/src/common/3gpp_24.008_sm_ies.c:1155-1201 | the first octet of a template, and what follows it for each operation, as numbers |
| `TftWire.ElementSpelled` | component/oai-mme/src/common/3gpp_24.008_sm_ies.c:1204-1228 | the element is the size of the template, modulo 256, and the template |
| `TftWire.ElementRead` | component/oai-mme/src/common/3gpp_24.008_sm_ies.c:902-927 | the element is too short below two octets or when its length octet exceeds what is left, and is otherwise a template after one octet; the record stays as it was when it is too short |
| `TftWire.ListRead` | component/oai-mme/src/common/3gpp_24.008_sm_ies.c:838-900 | the filters read from a template: all of them, or those before one that starts where the length given ends, or before one that cannot be decoded, of which a part is kept |
| `TftCursors.TftAnswerExactly` | component/oai-mme/src/common/3gpp_24.008_sm_ies.c:1155-1201 | for every list and every length given, the answer is the size of the template if and only if no filter starts exactly where that length ends |
| `TftCursors.RefusalCosts` | component/oai-mme/src/common/3gpp_24.008_sm_ies.c:953-956 | a filter that starts exactly where the length given ends is left out, and the answer falls short by its size and the four that its refusal takes from the cursor; no other filter is refused |
| `TftCursors.RefusalOverwrites` | component/oai-mme/src/common/3gpp_24.008_sm_ies.c:953-956 | the filters before the refused one are written, and those after it over the last four octets of these |
| `TftCursors.RoomyTft` | component/oai-mme/src/common/3gpp_24.008_sm_ies.c:1155-1201 | a length that covers the template lets no filter start where it ends, and then the memory of the template and its slack is all that is touched |
| `TftCursors.ClearTftWritten` | component/oai-mme/src/common/3gpp_24.008_sm_ies.c:1155-1201 | when no filter starts where the length ends, writing filter by filter leaves the octets of the template one after the other |
| `TftCoder.EncodeTft` | component/oai-mme/src/common/3gpp_24.008_sm_ies.c:1155-1201 | for every length given, the answer and the buffer are those of the cursor as specified; the answer is the size of the template, and its octets are written, if and only if no filter starts exactly where the length given ends |
| `TftCoder.EncodeTftIe` | component/oai-mme/src/common/3gpp_24.008_sm_ies.c:1204-1228 | same for the element, with the low eight bits of the answer written last as its length octet |
| `TftCoder.DecodeTft` | component/oai-mme/src/common/3gpp_24.008_sm_ies.c:838-900 | the decoder fills the record with exactly what is specified, also where it reports an error, and leaves indices alone |
| `TftCoder.DecodeTftIe` | component/oai-mme/src/common/3gpp_24.008_sm_ies.c:902-927 | same for the element |
| `AccessPointNames.PackInto` | component/oai-mme/src/common/3gpp_24.008_sm_ies.c:119-138 | the back-patching loop equals "split at the dots, then length and label for each", for every name with fewer than 102 characters before the first NUL, writes one octet more than those, and never leaves its array of 102 |
| `AccessPointNames.JoinSplit` | component/oai-mme/src/common/3gpp_24.008_sm_ies.c:123-135 | joining the labels of a name with dots gives the name back |
| `AccessPointNames.SplitJoin` | component/oai-mme/src/common/3gpp_24.008_sm_ies.c:69-91 | splitting joined labels gives the labels back, if none has a dot or NUL |
| `AccessPointNames.EncodeName` | component/oai-mme/src/common/3gpp_24.008_sm_ies.c:96-150 | the element is written exactly as specified, or reported as too long for the buffer, before anything is written or once the identifier is |
| `AccessPointNames.NameRoundTrip` | component/oai-mme/src/common/3gpp_24.008_sm_ies.c:47-150 | whatever the message goes on with, decoding an encoded name gives the characters before the first NUL; without any, no name and one octet unread |
| `AccessPointNames.NameRestoredExactly` | component/oai-mme/src/common/3gpp_24.008_sm_ies.c:47-150 | a name is restored if and only if it is not empty and has no NUL |
| `AccessPointNames.LabelsRoundTrip` | component/oai-mme/src/common/3gpp_24.008_sm_ies.c:47-150 | octets that tile into labels without dots and NULs decode to a name that encodes to the same octets |
| `AccessPointNames.NameReencodedExactly` | component/oai-mme/src/common/3gpp_24.008_sm_ies.c:47-150 | any octets that decode to a name are what it encodes to if and only if no label in them has a dot or a NUL, even where the eight-bit count of octets left wrapped around |
| `AccessPointNames.DecodeName` | component/oai-mme/src/common/3gpp_24.008_sm_ies.c:47-93 | the decoder computes the specified name, absence, error or failed assertion |
| `AccessPointNames.DecodeLabels` | component/oai-mme/src/common/3gpp_24.008_sm_ies.c:69-91 | its loop, with the eight-bit count of octets left |
| `NameWire.OneLabel` | component/oai-mme/src/common/3gpp_24.008_sm_ies.c:119-138 | a name without the character 46 and without 0 is one label |
| `NameWire.LabelAndMore` | component/oai-mme/src/common/3gpp_24.008_sm_ies.c:125-128 | the characters before the first 46 are a label after its length, and those after it are packed alike |
| `NameWire.LabelAtNul` | component/oai-mme/src/common/3gpp_24.008_sm_ies.c:123-124 | nothing is packed of a 0 and what follows it |
| `NameWire.ElementSpelled` | component/oai-mme/src/common/3gpp_24.008_sm_ies.c:96-150 | the element is 0x28 if asked for, the length and the labels |
| `NameWire.NameRefused` | component/oai-mme/src/common/3gpp_24.008_sm_ies.c:47-64 | each error of the element by its number, and the absence of a name |
| `NameWire.NameReadExactly` | component/oai-mme/src/common/3gpp_24.008_sm_ies.c:66-91 | labels that fill what is left, counted in eight bits, are joined with 46; one that is longer than what is left fails the assertion |
| `NameWire.NameReadAll` | component/oai-mme/src/common/3gpp_24.008_sm_ies.c:66-91 | all other octets would have to be read beyond their end |
| `NameWire.TwoLabelsRead` | component/oai-mme/src/common/3gpp_24.008_sm_ies.c:66-91 | two labels of any length that fits come back with 46 between them |
| `ConfigurationOptions.FittingNotRefused` | component/oai-mme/src/common/3gpp_24.008_sm_ies.c:304-341 | with room for everything the encoder refuses nothing |
| `ConfigurationOptions.OptionsChain` | component/oai-mme/src/common/3gpp_24.008_sm_ies.c:207-274 | whatever follows them, up to eight containers come back and so does what decodes after them; the protocol comes back halved |
| `ConfigurationOptions.OptionsRestoredExactly` | component/oai-mme/src/common/3gpp_24.008_sm_ies.c:207-341 | options of up to eight containers are restored if and only if their protocol is 0 and every length matches its contents |
| `ConfigurationOptions.OptionsReencodedExactly` | component/oai-mme/src/common/3gpp_24.008_sm_ies.c:207-341 | decoded options are encoded as the octets consumed if and only if the first was 0x80; at most two declared octets stay unread |
| `ConfigurationOptions.OptionsIeRestoredExactly` | component/oai-mme/src/common/3gpp_24.008_sm_ies.c:277-369 | the element is restored if and only if fewer than three octets of the message follow it, since the decoder ignores its length otherwise |
| `ConfigurationOptionsCoder.EncodeOptions` | component/oai-mme/src/common/3gpp_24.008_sm_ies.c:304-341 | the encoder writes exactly the specified octets, or refuses exactly when contents exceed the unsigned room left, and has then written what comes before them |
| `ConfigurationOptionsCoder.EncodeOptionsIe` | component/oai-mme/src/common/3gpp_24.008_sm_ies.c:344-369 | same for the element; an error reaches the caller increased by the octets before it, and its low eight bits become the length octet |
| `ConfigurationOptionsCoder.DecodeOptions` | component/oai-mme/src/common/3gpp_24.008_sm_ies.c:207-274 | the decoder fills the record with exactly the specified options, each container with a string of its own; after an error it holds the protocol and the containers read until then |
| `ConfigurationOptionsCoder.DecodeOptionsIe` | component/oai-mme/src/common/3gpp_24.008_sm_ies.c:277-301 | same for the element |
| `ConfigurationOptionsCoder.Pco.Copy` | component/oai-mme/src/common/3gpp_24.008_sm_ies.c:155-177 | the copy stands for the same options with fresh strings, its unused places and the source unchanged; more than eight abort |
| `ConfigurationOptionsCoder.Pco.Clear` | component/oai-mme/src/common/3gpp_24.008_sm_ies.c:180-190 | everything is zero, and nothing is left in any string that was held |
| `ConfigurationOptionsCoder.CopyThenClear` | component/oai-mme/src/common/3gpp_24.008_sm_ies.c:155-190 | a copy stands for the same options, and clearing it, which destroys its strings, leaves those of the source as they were |
| `OptionsWire.OptionsSpelled` | component/oai-mme/src/common/3gpp_24.008_sm_ies.c:304-369 | the octets of options and of their element as numbers |
| `OptionsWire.RefusedExactly` | component/oai-mme/src/common/3gpp_24.008_sm_ies.c:317-334 | the encoder refuses if and only if the length given ends within the contents of a container or where they start |
| `OptionsWire.SentBefore` | component/oai-mme/src/common/3gpp_24.008_sm_ies.c:317-334 | and has then written all before those contents |
| `OptionsWire.ContainersReadExactly` | component/oai-mme/src/common/3gpp_24.008_sm_ies.c:243-272 | containers are read until fewer than three octets are left, eight at most, or until one announces more than is left |
| `OptionsWire.ContainersKept` | component/oai-mme/src/common/3gpp_24.008_sm_ies.c:243-272 | and those are the containers left in the record, also after the error |
| `OptionsWire.NinthOverruns` | component/oai-mme/src/common/3gpp_24.008_sm_ies.c:243-272 | a ninth container would go beyond the record |
| `OptionsWire.ContainersReadAll` | component/oai-mme/src/common/3gpp_24.008_sm_ies.c:243-272 | all other octets would have to be read beyond their end |
| `OptionsWire.OptionsReadExactly` | component/oai-mme/src/common/3gpp_24.008_sm_ies.c:207-242 | the first octet is one of 0x80 to 0x87, and half of its excess is the protocol |
| `OptionsWire.OptionsRefused` | component/oai-mme/src/common/3gpp_24.008_sm_ies.c:277-301 | each error of the element by its number |
| `PlmnLists.ListRestoredExactly` | component/oai-mme/src/common/3gpp_24.008_common_ies.c:880-951 | the element of up to 15 networks takes at most 47 octets and is restored, in order, if and only if it ends the message and the list held no more networks before |
| `PlmnLists.ListReencodedExactly` | component/oai-mme/src/common/3gpp_24.008_common_ies.c:880-951 | a decoded element is encoded as it was if and only if its length octet was three times the networks read |
| `PlmnLists.EncodeList` | component/oai-mme/src/common/3gpp_24.008_common_ies.c:917-951 | the encoder writes exactly the specified element, or nothing when it does not fit |
| `PlmnLists.DecodePlmns` | component/oai-mme/src/common/3gpp_24.008_common_ies.c:899-913 | the loop fills the places in order and leaves the others as they were |
| `PlmnLists.DecodeList` | component/oai-mme/src/common/3gpp_24.008_common_ies.c:880-914 | the decoder fills the list with exactly what is specified, or changes nothing on an error |
| `PlmnWire.ListSpelled` | component/oai-mme/src/common/3gpp_24.008_common_ies.c:917-951 | the octets of the element, digit by digit |
| `PlmnWire.ListReadExactly` | component/oai-mme/src/common/3gpp_24.008_common_ies.c:899-913 | digits are read back in their places, fifteen networks at most, a last one that exceeds the octets left included |
| `PlmnWire.SixteenthOverruns` | component/oai-mme/src/common/3gpp_24.008_common_ies.c:899-913 | a sixteenth network would go beyond the list |
| `PlmnWire.ListRefused` | component/oai-mme/src/common/3gpp_24.008_common_ies.c:880-898 | each error of the element by its number |
| `MobileIdentities.IdentityRestoredExactly` | component/oai-mme/src/common/3gpp_24.008_common_ies.c:183-291 | an identity of any kind is restored, whatever follows it, if and only if it is restorable: an IMSI without a broken-off pair (and with end marks if even), an IMEI with an end mark if even, an IMEISV ending in the end mark if even and in 0 if odd, a TMSI marked 0xF; never a TMGI or an absent one |
| `MobileIdentities.IdentityReencodedExactly` | component/oai-mme/src/common/3gpp_24.008_common_ies.c:183-291 | a decoded identity is encoded as it was read if and only if it is restorable and the length octet announced no more than it takes |
| `MobileIdentities.SentWhole` | component/oai-mme/src/common/3gpp_24.008_common_ies.c:583-640 | an IMSI is sent digit for digit if and only if no end mark breaks it off |
| `MobileIdentities.ImsiBack` | component/oai-mme/src/common/3gpp_24.008_common_ies.c:294-365 | the IMSI decoder undoes its encoder if and only if no end mark breaks the number off |
| `MobileIdentities.ImeiBack` | component/oai-mme/src/common/3gpp_24.008_common_ies.c:368-416 | the IMEI decoder undoes its encoder if and only if an even number ends in the end mark |
| `MobileIdentities.ImeisvBack` | component/oai-mme/src/common/3gpp_24.008_common_ies.c:419-472 | the IMEISV decoder undoes its encoder if and only if the last digit is the end mark when even and 0 when odd, strict or not |
| `MobileIdentityCoder.EncodeImsi` | component/oai-mme/src/common/3gpp_24.008_common_ies.c:583-640 | the nested tests write exactly the digits specified |
| `MobileIdentityCoder.EncodeIdentityIe` | component/oai-mme/src/common/3gpp_24.008_common_ies.c:234-291 | the dispatch writes exactly the specified element, or reports too little room: for the element, which leaves the buffer alone, or for the identity, once the identifier is written |
| `MobileIdentityCoder.DecodeIdentity` | component/oai-mme/src/common/3gpp_24.008_common_ies.c:202-230 | the dispatch on the type bits computes the specified identity, size or error |
| `MobileIdentityCoder.DecodeIdentityIe` | component/oai-mme/src/common/3gpp_24.008_common_ies.c:183-231 | same for the element |
| `IdentityWire.ImsiSpelled` | component/oai-mme/src/common/3gpp_24.008_common_ies.c:583-640 | the octets of an IMSI for all its digits, up to the first pair that starts with 15, with the parity as 1 or 0 |
| `IdentityWire.ImsiOfDigits` | component/oai-mme/src/common/3gpp_24.008_common_ies.c:583-640 | fifteen digits below 15: eight octets with all of them when odd, and 15 in the upper halves from the seventh digit on when even |
| `IdentityWire.ImeiSpelled` | component/oai-mme/src/common/3gpp_24.008_common_ies.c:643-673 | the octets of an IMEI, ending in 15 when even |
| `IdentityWire.ImeisvSpelled` | component/oai-mme/src/common/3gpp_24.008_common_ies.c:676-708 | the octets of an IMEISV; the last digit is or-ed into the one before it when odd |
| `IdentityWire.OthersSpelled` | component/oai-mme/src/common/3gpp_24.008_common_ies.c:711-768 | the octets of a TMSI, a TMGI and an absent identity |
| `IdentityWire.IdentityElementSpelled` | component/oai-mme/src/common/3gpp_24.008_common_ies.c:234-291 | the element is 0x23 if asked for, the length, which is 3 for an absent identity, and the identity |
| `IdentityWire.RoomAgainstSize` | component/oai-mme/src/common/3gpp_24.008_common_ies.c:643-768 | the room asked for is the size of the identity, one more for a TMGI, and none for an IMSI |
| `IdentityWire.ImsiRead` | component/oai-mme/src/common/3gpp_24.008_common_ies.c:294-365 | the digits read, and an even number refused unless the upper halves of the last six octets are 15 |
| `IdentityWire.ImeiRead` | component/oai-mme/src/common/3gpp_24.008_common_ies.c:368-416 | the digits read, and an even number refused unless it ends in 15 |
| `IdentityWire.ImeisvRead` | component/oai-mme/src/common/3gpp_24.008_common_ies.c:419-472 | likewise, if the end mark is asked for |
| `IdentityWire.OthersRead` | component/oai-mme/src/common/3gpp_24.008_common_ies.c:475-580 | a TMSI, a TMGI and an absent identity as read, and every other kind refused |
| `IdentityWire.IdentityRefused` | component/oai-mme/src/common/3gpp_24.008_common_ies.c:183-231 | each error of the element by its number |
| `BitStrings.ExtractDivides` | component/oai-mme/src/common/asn1_conversions.h:75-90 | the extracted number is the big-endian value divided by 2 to the number of unused bits, rounded down |
| `BitStrings.ToUint8` | component/oai-mme/src/common/asn1_conversions.h:38-42 | one octet: the extracted number; any other size aborts |
| `BitStrings.ToUint16` | component/oai-mme/src/common/asn1_conversions.h:49-68 | one or two octets: shifting and or-ing pieces yields the extracted number, without truncation |
| `BitStrings.ToUint32` | component/oai-mme/src/common/asn1_conversions.h:75-90 | one to four octets: the loop yields the same extracted number, and has no defined result if and only if the first octet is shifted past what an int holds; so the routines agree on every common size |
| `Bits.OrDisjoint` | component/oai-mme/src/common/asn1_conversions.h:83-88 | pieces without a common bit are added by bitwise or |
| `Bits.OrBits` | component/oai-mme/src/common/3gpp_24.008_common_ies.c:699-703 | a bit of a bitwise or is one if and only if it is in one of the numbers |
| `BitStrings.ExtractSpelled` | component/oai-mme/src/common/asn1_conversions.h:75-90 | the number of one to four octets in big-endian order, divided by 1, 2, 4 up to 128 |

## Left out

- Parameter lists of traffic flow templates: neither coder handles them. Copying a template is left out with them.
- The template element with an identifier: its decoder expects another element's identifier.
- Logging, allocation failures, and `free_*` functions; releasing a string is modelled as losing its contents.
- Null buffers, which the coders report as `TLV_BUFFER_NULL`.
- Lengths from 2^31 on, where the C code mixes signed and unsigned comparisons. The unsigned room left in the options encoder is modelled.
- What the mobile identity decoders leave in the union after an error, and what the options decoder leaves in the place of a container it rejects.
- Entries of the precedence table above 30, whose shift would be undefined: no code stores any above 16.
- The C union of filters and deleted identifiers: the template record has a list of each.
- Identity types 6 and 7 on the encoding side, which it reports as a mismatch; the decoder's answer to them is modelled.
- `BIT_STRING_to_uint64`, whose shifts of promoted integers have no meaning above four octets.
- Session bookkeeping around `ReceiveFirst` and `ReceiveNext` (bearer states, QoS, the tests that reject operation codes before verification), and other bearers of the same connection: verification sees one template.
- All other information elements of the same files, which are fixed bit packing, byte strings or stubs.
- MobileIdentityCoder.EncodeImsi: the six nested tests of the C code, one per pair of digits, are one loop that stops at the first failing test; the other identities' digits are likewise written by one loop.
- MobileIdentityCoder.DecodeIdentity: the identity is returned as a value; bytes of the C union outside the decoded variant are not modelled.
