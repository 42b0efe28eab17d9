# CoreSlot and settlement-chunk verification

A Dafny 4.11 model of the consensus-critical parts of the chain: the validator-admission
module `x/coreslot` (messages, block end, genesis, authority handover, selection-policy
history), the settlement-chunk protocol of `x/mining`, the generated protobuf codec of the
small CoreSlot messages and of the genesis document, the overflow-exact arithmetic package,
and the duplicate-key walk over JSON. `dafny verify dfyconfig.toml` checks everything.

## How the model is laid out

| file | what it models |
|---|---|
| `Machine.dfy`, `Checked.dfy` | Go's fixed-width integers, wrap-around, and the checked operations |
| `Types.dfy` | the module's records, messages, errors, parameters and store |
| `PolicyHistory.dfy` | a slot's versioned policy history and its seek index |
| `Handlers.dfy`, `EndBlock.dfy` | what each message and a block's end do to the store, as functions |
| `Acceptance.dfy`, `Effects.dfy` | for every message: exactly when it is accepted, its signer included, and exactly what it leaves |
| `Keeper.dfy` | the keeper itself: the same transitions write by write, proved against those functions |
| `Walks.dfy`, `ValidatorDiff.dfy`, `Ordering.dfy` | iterators, sorting, the validator diff's loops, key order |
| `Invariant.dfy`, `BlockEnd.dfy`, `Runs.dfy` | the store invariant, that every step keeps it, and whole runs |
| `Bounds.dfy` | the configured bounds on the ACTIVE count, and the power CometBFT bears |
| `Timelines.dfy`, `Rotations.dfy`, `Answers.dfy`, `Authority.dfy` | what happens over a run to one key, one rotation, one policy answer, one role |
| `Genesis.dfy`, `GenesisImport.dfy`, `GenesisExport.dfy` | admission, import and export of the genesis document |
| `Amounts.dfy`, `Chunk.dfy`, `ChunkRuns.dfy` | decimal amounts, chunk admission, runs of submissions |
| `Varint.dfy`, `Wire.dfy`, `Codec.dfy`, `RoundTrip.dfy` | varints, field loop and skipper, backward writers, parsers |
| `JsonWalk.dfy` | the recursive walk that refuses repeated member names, and when it ends |
| `Samples.dfy` | concrete chains at which an expected property fails |

A run is any sequence of messages and block ends. It starts from a genesis document the
import accepts, and CometBFT's validator set stands beside the store throughout.
Cryptography and text encodings are the functions of one record, `Rules`: which
consensus address a key's bytes have, and which strings are account addresses, economic
destinations or well-formed weights. Nothing is assumed of them.

## Where a stated property has an exact condition

- **Distinct keys at genesis.** Genesis compares the encoded bytes of public keys, the
  runtime compares derived addresses. A successful import starts a good chain if and only
  if no two slots share a derived address and CometBFT bears the first set
  (`ImportStartsGood`). `SampleImported` shows both sides on one document, and
  `CollisionImported` is the case where its PENDING slot collides with its ACTIVE one. Two
  colliding ACTIVE slots are refused (`ImportSucceeds`).
- **A chain that never halts.** The module's own end of block never fails. CometBFT
  v0.38.21 refuses a validator set heavier than an eighth of the int64 maximum, which
  `Params.Validate` does not check. A run halts if and only if it ends a block at the last
  int64 height, or one whose ACTIVE slots weigh more than that (`RunHalts`, `BlockEnds`).
  `TooHeavy` is valid parameters and two steps that halt. If `max_active_slots` times the
  voting power stays within the ceiling in the starting parameters and in every proposed
  ones, no run halts (`NeverHalts`).
- **Lockout and delay heights.** `height + lockout` and `height + delay` wrap. At each of
  the three places a key is released, it can be taken again at a later height if and only if
  the lockout has run its length or its end wrapped (`LockoutHolds`, `IdleLockoutHolds`,
  `DueLockoutHolds`). A wrapped rotation is due at once (`RequestedFor`). `LockoutWraps` and
  `DelayWraps` are reachable stores where this happens.
- **Handler atomicity.** Without the transaction cache, a refusal leaves writes behind in a
  reachable store if and only if it is a registration that passes every check and has the
  last uint64 as its id (`Keeper.Handle`). `IdsRunOut` is such a store and message.
- **Active bounds.** `min_active <= active <= max_active` is not an invariant. From within
  the bounds a message leads out of them if and only if it is an accepted parameter update
  whose bounds exclude the count, or the emergency suspension of an ACTIVE slot at the
  minimum (`BoundsLeft`); a run that takes neither exit stays inside (`BoundsHold`).
  `MinimumRaised`, `MaximumLowered` and `FloorIgnored` take them. `1 <= active <= 100`
  always holds (`Population`).
- **Past policy answers.** They never change for any id. An answer about the present height
  changes for an id without a slot exactly when one is registered under it in this block
  (`PastAnswersStand`, `PresentAnswer`).
- **The JSON walk's end.** The documentation of `rejectDuplicateKeys` leaves malformed input
  to the decoder that follows, but the code does not always reach it. At bytes that are no
  token, such as `[x` or `[1 2]`, `More` stays true and `Token` fails in place. The walk ends
  if and only if it is not the case that the tokens run out inside an open array, no name
  having been repeated, before such bytes (`WalkEnds`; `StuckAtOnce` is the smallest input).
  For a document broken off anywhere this is a matter of counting array brackets
  (`BrokenDocumentEnds`). The methods that model the code require exactly that.

## Model

| member | source | states |
|---|---|---|
| `Checked.AddUint64` | internal/checked/checked.go:46-51 | the mathematical sum exactly when it is a uint64, else overflow |
| `Checked.SubUint64` | internal/checked/checked.go:55-60 | the mathematical difference exactly when it is nonnegative, else underflow |
| `Checked.MulUint64` | internal/checked/checked.go:63-71 | the mathematical product exactly when it is a uint64, else overflow |
| `Checked.AddInt64` | internal/checked/checked.go:75-83 | the mathematical sum exactly when it is an int64, else the side it left on |
| `Checked.SubInt64` | internal/checked/checked.go:87-95 | the mathematical difference exactly when it is an int64, else the side it left on |
| `Checked.MulInt64` | internal/checked/checked.go:99-119 | the mathematical product exactly when it is an int64, else the side it left on, from the wrapped product's division test and one special case |
| `Checked.DivisionTest` | internal/checked/checked.go:104-117 | the wrapped product divides back to the first factor if and only if the product did not wrap, for every pair but the special one |
| `Checked.Uint64FromInt64` | internal/checked/checked.go:124-129 | the same number exactly when it is nonnegative |
| `Checked.Int64FromUint64` | internal/checked/checked.go:133-138 | the same number exactly when it is at most the int64 maximum |
| `JsonWalk.WalkDocument` | internal/consensusvectors/consensusvectors.go:250-302 | on any well-formed document the walk consumes exactly the document, unless some object at some depth repeats a name, and then it reports it |
| `JsonWalk.RejectDuplicateKeys` | internal/consensusvectors/consensusvectors.go:245-248 | on every input on which the code ends, the stateful walk reports what the functional one does |
| `JsonWalk.RejectDuplicateKeysOf` | internal/consensusvectors/consensusvectors.go:245-248 | an error if and only if some object of the document repeats a member name |
| `JsonWalk.CheckJSONValue` | internal/consensusvectors/consensusvectors.go:250-269 | wherever it ends: leaves exactly the tokens after one value, or finds the repeated name |
| `JsonWalk.CheckJSONObject` | internal/consensusvectors/consensusvectors.go:271-292 | wherever it ends: leaves exactly the tokens after the members and the brace, or finds the repeated name |
| `JsonWalk.CheckJSONArray` | internal/consensusvectors/consensusvectors.go:294-302 | wherever it ends: leaves exactly the tokens after the items and the bracket, or finds the repeated name |
| `JsonWalk.WalkEnds` | internal/consensusvectors/consensusvectors.go:250-302 | taken step by step the walk ends if and only if the tokens do not run out inside an open array, no name repeated, before bytes that are no token; its answer is then the functional walk's |
| `JsonWalk.StuckAtOnce` | internal/consensusvectors/consensusvectors.go:294-302 | at an opening bracket before such bytes the array loop repeats its own state and never ends |
| `JsonWalk.BrokenDocumentEnds` | internal/consensusvectors/consensusvectors.go:250-302 | over a document broken off anywhere the walk ends if and only if a name was repeated, the rest is not stuck, or every array opened was closed |
| `JsonWalk.DocumentCut` | internal/consensusvectors/consensusvectors.go:250-302 | a document cut off anywhere leaves an array open exactly when it opened more than it closed |
| `PolicyHistory.SeekIsScan` | x/coreslot/keeper/invariants.go:82-144 | on a tiled and indexed history the seek returns what a scan of every version returns, at every height; not-found is exactly before the first start, and no divergence is ever reported |
| `PolicyHistory.SupersedeKeepsHistory` | x/coreslot/keeper/msg_server.go:601-618 | closing the open version and appending its successor keeps versions contiguous, intervals tiling and the index exact, and overwrites nothing |
| `PolicyHistory.SupersedeKeepsAnswers` | x/coreslot/keeper/invariants.go:67-144 | a version that starts after a height changes no answer for that height |
| `PolicyHistory.StartsAscend` | x/coreslot/keeper/invariants.go:60-65 | later versions start later, and a closed version ends no later than any successor starts |
| `EndBlock.UpdatesReachDesired` | x/coreslot/keeper/endblock.go:181-253 | applied in order, the updates are ones CometBFT accepts and turn the last applied powers into the desired ones |
| `EndBlock.LoadFails` | x/coreslot/keeper/keeper.go:237-247 | a row that does not load decides the outcome of the whole load |
| `EndBlock.UpdatesInOrder` | x/coreslot/keeper/endblock.go:226 | each update's address precedes every later one's at their first different character |
| `EndBlock.UpdatesAreChanges` | x/coreslot/keeper/endblock.go:191-225 | there is an update for an address if and only if it appears, disappears or changes its power |
| `Ordering.AscendingUnique` | x/coreslot/keeper/endblock.go:226 | a set of keys has one ascending enumeration |
| `Ordering.LessMeans` | x/coreslot/keeper/endblock.go:226 | the order is the one by the first difference: the smaller character there, or the text that ends there, comes first |
| `Walks.VisitIds` | x/coreslot/keeper/keeper.go:178-191 | a collection keyed by id is walked in ascending order, each id once |
| `Walks.SeekBack` | x/coreslot/keeper/invariants.go:86-103 | the reverse iterator starts at the greatest start not after the height |
| `Walks.SortBySlot` | x/coreslot/keeper/endblock.go:47 | a sorted permutation of the due rotations, and the list itself when it already ascends |
| `Walks.SortByKey` | x/coreslot/keeper/endblock.go:226 | a sorted permutation of the updates |
| `ValidatorDiff.CollectDue` | x/coreslot/keeper/endblock.go:38-47 | exactly the due rotations, sorted by the slot each names; one list only when each is stored under its own slot |
| `ValidatorDiff.LoadRows` | x/coreslot/keeper/keeper.go:237-249 | the indexed rows in order, refusing a missing or inactive one |
| `ValidatorDiff.DesiredValidators` | x/coreslot/keeper/endblock.go:161-171 | one validator per ACTIVE slot by address, refusing a repeated address |
| `ValidatorDiff.GatherUpdates` | x/coreslot/keeper/endblock.go:191-225 | whatever order Go ranges over the key union in: one update per changed address and no other, or the refusal of an undecodable leaving key |
| `ValidatorDiff.SortedUpdates` | x/coreslot/keeper/endblock.go:226-242 | the sorted list is the same for every order of gathering, and the duplicate guard never fires |
| `ValidatorDiff.RecordsAgree` | x/coreslot/keeper/genesis.go:156-171 | the independent walk of every record, with its count, succeeds if and only if the index is exactly the ids with an ACTIVE record |
| `ValidatorDiff.AppliedSlots` | x/coreslot/keeper/genesis.go:173-182 | fails if and only if two last applied rows name one slot; else the set of slots named |
| `CoreSlotKeeper.Keeper.constructor` | x/coreslot/keeper/keeper.go:80-120 | the keeper over a given store |
| `CoreSlotKeeper.Keeper.CountActive` | x/coreslot/keeper/keeper.go:166-176 | the size of the ACTIVE index |
| `CoreSlotKeeper.Keeper.GetActiveSlots` | x/coreslot/keeper/keeper.go:232-249 | the indexed rows in ascending slot order, or the divergence |
| `CoreSlotKeeper.Keeper.ReleaseIfAvailable` | x/coreslot/keeper/keeper.go:323-351 | the key's address with its expired reservation removed, or a refusal that wrote nothing |
| `CoreSlotKeeper.Keeper.CancelRotation` | x/coreslot/keeper/keeper.go:359-376 | the staged key and the rotation are gone, or an undecodable staged key and nothing written |
| `CoreSlotKeeper.Keeper.WriteVersion` | x/coreslot/keeper/invariants.go:60-65 | a version and its index entry, together |
| `CoreSlotKeeper.Keeper.WriteInitialPolicy` | x/coreslot/keeper/invariants.go:31-46 | version 1, open, from the given height; refused without a write when absent or out of range |
| `CoreSlotKeeper.Keeper.PolicyAtHeight` | x/coreslot/keeper/invariants.go:82-144 | the seek with all its divergence checks |
| `CoreSlotKeeper.Keeper.CheckSeam` | x/coreslot/keeper/invariants.go:192-243 | every conflict a policy update could overwrite, checked before its first write |
| `CoreSlotKeeper.Keeper.RegisterCoreSlot` | x/coreslot/keeper/msg_server.go:41-145 | the new slot's rows and the advanced counter; a refusal leaves writes if and only if every check passes and the id is the last uint64 |
| `CoreSlotKeeper.Keeper.PrepareActivation` | x/coreslot/keeper/msg_server.go:147-211 | every refusal of an activation, and the record it would write |
| `CoreSlotKeeper.Keeper.ActivateCoreSlot` | x/coreslot/keeper/msg_server.go:147-220 | the ACTIVE record and its index entry, or a refusal that wrote nothing |
| `CoreSlotKeeper.Keeper.InactivateCoreSlot` | x/coreslot/keeper/msg_server.go:222-263 | the INACTIVE record, the cleared index entry and the canceled rotation, or a refusal |
| `CoreSlotKeeper.Keeper.SuspendCoreSlot` | x/coreslot/keeper/msg_server.go:265-316 | the SUSPENDED record, the cleared index entry and the canceled rotation, or a refusal |
| `CoreSlotKeeper.Keeper.RemoveCoreSlot` | x/coreslot/keeper/msg_server.go:318-364 | the REMOVED record, both address indexes released and the key reserved, or a refusal |
| `CoreSlotKeeper.Keeper.RotateConsensusKey` | x/coreslot/keeper/msg_server.go:366-426 | a staged rotation for an ACTIVE slot, an immediate one for any other, or a refusal that wrote nothing |
| `CoreSlotKeeper.Keeper.UpdatePayoutAddress` | x/coreslot/keeper/msg_server.go:428-451 | the record with the new payout address, or a refusal that wrote nothing |
| `CoreSlotKeeper.Keeper.UpdateOperatorMetadata` | x/coreslot/keeper/msg_server.go:453-473 | the record with the new metadata, or a refusal that wrote nothing |
| `CoreSlotKeeper.Keeper.UpdateSettlementAddress` | x/coreslot/keeper/msg_server.go:494-522 | the record with the new settlement address, or a refusal that wrote nothing |
| `CoreSlotKeeper.Keeper.UpdateSelectionPolicy` | x/coreslot/keeper/msg_server.go:524-629 | the closed version, its successor with the index entry, and the slot naming it as current; or a refusal that wrote nothing |
| `CoreSlotKeeper.Keeper.UpdateParams` | x/coreslot/keeper/msg_server.go:631-675 | the new parameters, never another holder nor, with ACTIVE slots, another voting power |
| `CoreSlotKeeper.Keeper.NominateAuthority` | x/coreslot/keeper/authority.go:77-123 | the nomination by the role's holder, replacing any other; the holder unchanged |
| `CoreSlotKeeper.Keeper.AcceptAuthority` | x/coreslot/keeper/authority.go:128-166 | the role moved to its nominee and the nomination cleared, or a refusal that wrote nothing |
| `CoreSlotKeeper.Keeper.CancelAuthorityNomination` | x/coreslot/keeper/authority.go:170-193 | the nomination withdrawn by the role's holder |
| `CoreSlotKeeper.Keeper.Handle` | x/coreslot/keeper/msg_server.go:41-675 | every message without the transaction cache: from a reachable store a refusal leaves writes if and only if it is the registration no id is left for |
| `CoreSlotKeeper.Keeper.Deliver` | x/coreslot/keeper/msg_server.go:41-675 | a message as a transaction: all its writes or none, and the invariant kept |
| `CoreSlotKeeper.Keeper.ApplyDue` | x/coreslot/keeper/endblock.go:48-107 | one due rotation applied, dropped as stale, or failed |
| `CoreSlotKeeper.Keeper.DropStale` | x/coreslot/keeper/endblock.go:114-132 | the staged key freed and the rotation deleted |
| `CoreSlotKeeper.Keeper.RunEndBlock` | x/coreslot/keeper/endblock.go:32-109 | the due rotations in a slot order, then the diff, or the first failure; one outcome only when each rotation is stored under its own slot |
| `CoreSlotKeeper.Keeper.DiffAndPersist` | x/coreslot/keeper/endblock.go:152-254 | one list of updates and one last applied set, whatever order the three maps are ranged over in |
| `CoreSlotKeeper.Keeper.RunBlockEnd` | x/coreslot/keeper/endblock.go:15-30 | a failure writes nothing; from a reachable store it never fails, its updates take CometBFT's powers to the ACTIVE slots', and CometBFT accepts them exactly within its power ceiling |
| `CoreSlotKeeper.Keeper.InitGenesis` | x/coreslot/keeper/genesis.go:15-108 | the rows of the document and the first validators, or a refusal; a refusal leaves writes if and only if two ACTIVE slots of an otherwise importable document collide |
| `CoreSlotKeeper.Keeper.CheckConsistency` | x/coreslot/keeper/genesis.go:143-201 | on any store: succeeds if and only if indexed rows, ACTIVE records, last applied set and update count name the same slots |
| `CoreSlotKeeper.Keeper.ExportGenesis` | x/coreslot/keeper/genesis.go:268-336 | every collection in ascending key order |
| `CoreSlotKeeper.ValidateInitialHeight` | x/coreslot/types/genesis.go:225-250 | ACTIVE slots and policies start exactly at the initial height |
| `CoreSlotKeeper.ValidateEconomicAddresses` | x/coreslot/keeper/genesis.go:230-266 | every operator is an account, every payout, settlement and nominee an economic destination |
| `Invariant.MessageKeeps` | x/coreslot/keeper/msg_server.go:41-675 | every message, accepted or refused, keeps the whole invariant: indexes, rotations, histories, bounds, nominations |
| `Invariant.RegisterEffect` | x/coreslot/keeper/msg_server.go:93-142 | an accepted registration took an unused id, a free operator and a free unreserved key, and wrote exactly these rows |
| `Invariant.RegisterKeeps` | x/coreslot/keeper/msg_server.go:41-145 | a registration keeps the invariant |
| `Invariant.ActivateKeeps` | x/coreslot/keeper/msg_server.go:147-220 | an activation keeps the invariant, both maximums included |
| `Invariant.LeaveKeeps` | x/coreslot/keeper/msg_server.go:249-260 | leaving a status succeeds, keeps the invariant and cancels the staged rotation |
| `Invariant.InactivateKeeps` | x/coreslot/keeper/msg_server.go:222-263 | an inactivation keeps the invariant, one ACTIVE slot at least included |
| `Invariant.SuspendKeeps` | x/coreslot/keeper/msg_server.go:265-316 | a suspension keeps the invariant, even below the configured minimum |
| `Invariant.RemoveKeeps` | x/coreslot/keeper/msg_server.go:318-364 | a removal keeps the invariant |
| `Invariant.RotateKeeps` | x/coreslot/keeper/msg_server.go:366-426 | a rotation, staged or immediate, keeps the invariant |
| `Invariant.PolicyUpdateEffect` | x/coreslot/keeper/msg_server.go:578-626 | an accepted policy update appended exactly the next version, after the cooldown |
| `Invariant.UpdatePolicyKeeps` | x/coreslot/keeper/msg_server.go:524-629 | a policy update keeps the invariant, history and pace included |
| `Invariant.ReplaceParamsKeeps` | x/coreslot/keeper/msg_server.go:631-675 | a parameter update keeps the invariant and the voting power |
| `Invariant.AuthorityKeeps` | x/coreslot/keeper/authority.go:77-193 | nominating, accepting and canceling keep the invariant |
| `Invariant.ConfigurationKeeps` | x/coreslot/keeper/msg_server.go:445-517 | rewriting only a slot's configuration keeps the invariant |
| `Invariant.CounterIsFresh` | x/coreslot/keeper/keeper.go:273-302 | the counter is never zero and never names an existing slot: both refusals are dead |
| `Invariant.SeamIsSound` | x/coreslot/keeper/invariants.go:192-243 | in a reachable store every refusal of the seam check is dead |
| `Invariant.MessageFrame` | x/coreslot/keeper/msg_server.go:663-669 | no message moves the voting power or the last applied set |
| `Acceptance.MessageAccepted` | x/coreslot/keeper/msg_server.go:41-675 | every message is accepted if and only if a condition on its fields and the stored records holds, its signer named: all other refusals are dead in a reachable store |
| `Acceptance.SignerPermitted` | x/coreslot/keeper/msg_server.go:41-675 | on any store, who signed an accepted message: the authority, either authority, the slot's operator, the role's holder or its nominee |
| `Acceptance.StrangersRefused` | x/coreslot/keeper/msg_server.go:41-675 | on any store, anybody else is refused, as not authorized unless the slot, role, nomination or parameters named are not there |
| `Acceptance.RegistrationAccepted` | x/coreslot/keeper/msg_server.go:41-145 | if and only if: the authority, usable addresses, short metadata, a valid policy, an operator no unremoved slot has, a key nobody holds or still reserves, and an id left |
| `Acceptance.ActivationAccepted` | x/coreslot/keeper/msg_server.go:147-220 | if and only if: the authority, a PENDING, INACTIVE or SUSPENDED slot, room below the configured maximum, usable addresses, and a sequence and height that can advance |
| `Acceptance.InactivationAccepted` | x/coreslot/keeper/msg_server.go:222-263 | if and only if: the authority or the operator, an ACTIVE slot, and a count above the minimum |
| `Acceptance.SuspendAccepted` | x/coreslot/keeper/msg_server.go:265-316 | if and only if: either authority, a slot neither SUSPENDED nor REMOVED, and for an ACTIVE one the last-validator and minimum rules |
| `Acceptance.RemovalAccepted` | x/coreslot/keeper/msg_server.go:318-364 | if and only if: the authority and a slot neither ACTIVE nor REMOVED |
| `Acceptance.RotationAccepted` | x/coreslot/keeper/msg_server.go:366-426 | if and only if: the authority, a slot not REMOVED without a staged rotation, and a free key |
| `Acceptance.ConfigurationAccepted` | x/coreslot/keeper/msg_server.go:428-522 | if and only if: the slot's operator, a PENDING, ACTIVE or INACTIVE slot, and an economic payout, short metadata, or an economic and different settlement address |
| `Acceptance.PolicyUpdateAccepted` | x/coreslot/keeper/msg_server.go:524-629 | if and only if: the slot's operator, such a slot, valid values that differ from the open version's, a cooldown passed, and a height and version that can advance |
| `Acceptance.ParamsAccepted` | x/coreslot/keeper/msg_server.go:631-675 | if and only if: the authority, valid parameters, the same holders and the same voting power |
| `Acceptance.NominationAccepted` | x/coreslot/keeper/authority.go:77-123 | if and only if: the role's holder and an economic nominee other than it |
| `Acceptance.AcceptanceAccepted` | x/coreslot/keeper/authority.go:128-166 | if and only if: a role with a pending nomination of exactly the signer, who is economic |
| `Acceptance.WithdrawalAccepted` | x/coreslot/keeper/authority.go:170-193 | if and only if: the role's holder and a pending nomination |
| `Effects.MessageWrites` | x/coreslot/keeper/msg_server.go:41-675 | every accepted message leaves exactly the named writes, field by field, and nothing else changes |
| `Effects.RegistrationWrites` | x/coreslot/keeper/msg_server.go:93-142 | under the old counter the message's operator, key, payout, settlement and metadata, PENDING, power 0, both heights the block's, policy version 1, the literal weights; the indexes and counter to match |
| `Effects.ActivationWrites` | x/coreslot/keeper/msg_server.go:185-213 | ACTIVE, the configured power, the next sequence, this height, effective from the next; the index entry |
| `Effects.InactivationWrites` | x/coreslot/keeper/msg_server.go:222-263 | INACTIVE without power, out of the index, a staged rotation dropped and its key freed |
| `Effects.SuspensionWrites` | x/coreslot/keeper/msg_server.go:265-316 | SUSPENDED without power at this height, out of the index, a staged rotation dropped and its key freed |
| `Effects.RemovalWrites` | x/coreslot/keeper/msg_server.go:318-364 | REMOVED without power at this height, operator and key freed, the key reserved for the lockout with the given reason |
| `Effects.RotationWrites` | x/coreslot/keeper/msg_server.go:366-426 | the new key taken; for an ACTIVE slot a rotation staged for height plus delay, else the key replaced and the old one freed and reserved for the lockout |
| `Effects.ConfigurationWrites` | x/coreslot/keeper/msg_server.go:428-522 | the one field the message names and the slot's updated height |
| `Effects.PolicyUpdateWrites` | x/coreslot/keeper/msg_server.go:601-629 | the open version closed at the next height, where its successor starts, indexed and named by the slot |
| `Effects.GovernanceWrites` | x/coreslot/keeper/authority.go:77-193 | the proposed parameters; the nomination at this height; the nominee in the role's parameter and the nomination gone; or the nomination gone |
| `BlockEnd.RotationApplies` | x/coreslot/keeper/endblock.go:72-107 | a staged rotation of a reachable store applies: the record is readable and ACTIVE, so the stale drop is dead |
| `BlockEnd.RotationsApply` | x/coreslot/keeper/endblock.go:48-107 | any list of distinct staged rotations applies, changing exactly their slots |
| `BlockEnd.ActiveSlotsLoad` | x/coreslot/keeper/keeper.go:232-249 | the ACTIVE slots load without a divergence, and no two share an address |
| `BlockEnd.DiffSucceeds` | x/coreslot/keeper/endblock.go:152-254 | the diff succeeds: the duplicate-key refusal is dead, and the last applied set becomes the ACTIVE slots |
| `BlockEnd.BlockEnds` | x/coreslot/keeper/endblock.go:32-109 | a block's end never fails from a reachable store; removals name present addresses, no address is updated twice, the result is the nonempty ACTIVE set, and CometBFT accepts it exactly when its total power is within the ceiling |
| `BlockEnd.BlockEndRotates` | x/coreslot/keeper/endblock.go:38-107 | exactly the due rotations are applied, each to its own slot |
| `Effects.DueRotationWrites` | x/coreslot/keeper/endblock.go:85-106 | a due rotation puts the staged key in the record, frees and reserves the old one for the lockout, and is gone |
| `Runs.RunGood` | x/coreslot/keeper/endblock.go:15-254 | no sequence of messages and block ends breaks the invariant; after each block CometBFT's set is exactly the ACTIVE slots, and the voting power never moves |
| `Runs.RunHalts` | x/coreslot/keeper/endblock.go:15-254 | a run halts if and only if it ends a block at the last int64 height or with ACTIVE slots heavier than CometBFT bears |
| `ActiveBounds.NeverHalts` | x/coreslot/types/validation.go:65-68 | when no parameters in force or proposed allow more slots than CometBFT bears, no run halts before the last height |
| `ActiveBounds.MessageCounts` | x/coreslot/keeper/msg_server.go:147-316 | an activation adds one ACTIVE slot below the maximum, an inactivation removes one above the minimum, a suspension removes an ACTIVE one; nothing else moves the count, and only a parameter update a bound |
| `ActiveBounds.SuspensionAccepted` | x/coreslot/keeper/msg_server.go:265-294 | the suspension of an ACTIVE slot is accepted if and only if a holder asks, another slot is ACTIVE, and the count is above the minimum or the floor is switched off |
| `ActiveBounds.BoundsLeft` | x/coreslot/keeper/msg_server.go:265-675 | from within the bounds, a message leads out of them if and only if it is an excluding parameter update or the emergency suspension at the minimum |
| `ActiveBounds.BoundsHold` | x/coreslot/keeper/msg_server.go:41-675 | a run that takes neither exit stays within the bounds |
| `ActiveBounds.ParamsMean` | x/coreslot/types/validation.go:45-91 | parameters are valid exactly within the stated ranges, the maximum count times the voting power fitting an int64 |
| `Runs.Population` | x/coreslot/keeper/msg_server.go:162-178 | between 1 and 100 ACTIVE slots, each with the voting power, every other with none, and a total that fits an int64 |
| `Runs.VersionsBounded` | x/coreslot/keeper/msg_server.go:556-629 | a slot of age A has at most 2 + A/360 policy versions, whatever the configured cooldown was |
| `Timelines.KeyStaysLocked` | x/coreslot/keeper/keeper.go:323-351 | a free reserved key is owned and staged by nobody at any height below the reservation's end, in any run |
| `Timelines.RemovedKeyIsLocked` | x/coreslot/keeper/msg_server.go:355-359 | a removed slot's key stays unheld for the whole lockout in force at the removal |
| `Timelines.RotatedKeyIsLocked` | x/coreslot/keeper/endblock.go:97-102 | a rotated key stays unheld for the whole lockout in force at the rotation |
| `Timelines.RemovalLocks` | x/coreslot/keeper/msg_server.go:355-359 | a removal frees and reserves the key |
| `Timelines.IdleRotationLocks` | x/coreslot/keeper/msg_server.go:412-421 | an immediate rotation frees and reserves the old key |
| `Timelines.BlockEndLocks` | x/coreslot/keeper/endblock.go:97-102 | every due rotation of a block frees and reserves its old key |
| `Timelines.LockoutSum` | x/coreslot/keeper/msg_server.go:358 | the lockout's end is the exact sum if and only if it fits an int64; else it is already past |
| `Timelines.LockoutHolds` | x/coreslot/keeper/msg_server.go:355-359 | a removed key can be taken at a later height if and only if the lockout has run its length or its end wrapped |
| `Timelines.IdleLockoutHolds` | x/coreslot/keeper/msg_server.go:412-421 | the same of the key an immediate rotation replaced |
| `Timelines.DueLockoutHolds` | x/coreslot/keeper/endblock.go:97-102 | the same of the key a due rotation replaced |
| `Timelines.IdleKeyIsLocked` | x/coreslot/keeper/msg_server.go:412-421 | the key an immediate rotation replaced stays unheld for the whole lockout in force then, in any run |
| `Timelines.KeyStaysFree` | x/coreslot/keeper/keeper.go:323-351 | a free key that no accepted message takes stays in nobody's hands, and in no validator set after the next block's end |
| `Timelines.LockedKeyAvailability` | x/coreslot/keeper/keeper.go:336-349 | a locked key is available exactly from the reservation's end on |
| `Rotations.MessageOnRotation` | x/coreslot/keeper/msg_server.go:222-426 | a message leaves a staged rotation as it is, or takes its slot out of ACTIVE, cancels it and frees the staged key |
| `Rotations.RotationWaits` | x/coreslot/keeper/endblock.go:38-46 | at any point before the end of its block a rotation is still staged on an ACTIVE slot with the old key, or a step of the run withdrew the slot and canceled it |
| `Rotations.RotationApplied` | x/coreslot/keeper/endblock.go:85-106 | a waiting rotation is applied at its block's end: the slot has the new key, CometBFT's set the new address and not the old |
| `Rotations.RotationDecided` | x/coreslot/keeper/endblock.go:38-107 | at the end of exactly its block a rotation is applied, unless a step before withdrew the slot and canceled it |
| `Rotations.RotationHappens` | x/coreslot/keeper/endblock.go:85-106 | it is applied then whenever its slot stays ACTIVE |
| `Rotations.RequestedFor` | x/coreslot/keeper/msg_server.go:401-408 | a request with delay d at height h is for h + d if that fits an int64, and else due at once |
| `Rotations.RequestDecided` | x/coreslot/keeper/msg_server.go:366-409 | from the request at h to the end of block h + d: applied there, or canceled by a withdrawal of the slot in between |
| `Rotations.CanceledNeverHappens` | x/coreslot/keeper/keeper.go:359-376 | after a cancellation nobody holds or stages the key until a message asks for it again, and no validator set after the next block's end names it |
| `Answers.PastAnswersStand` | x/coreslot/keeper/invariants.go:67-144 | no run changes the policy in force at a past height, of a slot or of an id without one, nor a slot's at the present height |
| `Answers.PresentAnswer` | x/coreslot/keeper/invariants.go:31-46 | for an id without a slot the answer about the present height becomes one if and only if a slot is registered under it before the block ends |
| `Answers.LookupIsScan` | x/coreslot/keeper/invariants.go:67-144 | in every reachable store the indexed lookup equals the scan of the whole history |
| `Answers.MessageSlots` | x/coreslot/keeper/msg_server.go:93-142 | slots are never deleted, and only a registration adds one, the counter's, with a history that starts now |
| `Authority.HolderChanges` | x/coreslot/keeper/authority.go:128-166 | a role changes hands only when the nominee last named and not withdrawn accepts, and nothing else changes with it |
| `Authority.NomineeIsLastNamed` | x/coreslot/keeper/authority.go:77-193 | the stored nominee is always the one the accepted messages last named |
| `Authority.OnlyHolderNames` | x/coreslot/keeper/authority.go:88-111 | only a role's holder names or withdraws a nominee, and never itself |
| `Authority.MessageMovesRole` | x/coreslot/keeper/authority.go:128-166 | a message that moves a role is its nominee's acceptance, at an economic address |
| `Authority.NomineeIsNotHolder` | x/coreslot/keeper/authority.go:106-111 | in every reachable store no pending nominee holds the role already |
| `Genesis.Validate` | x/coreslot/types/genesis.go:22-205 | the passes accept exactly the admissible documents, an order-free reading of the rules |
| `Genesis.ValidateSlots` | x/coreslot/types/genesis.go:36-98 | the slot pass accepts exactly when ids, operators and keys are unique and each record conforms, and counts the ACTIVE ones |
| `Genesis.ValidateFreshGenesisSlot` | x/coreslot/types/genesis.go:286-335 | a PENDING or ACTIVE record of the first generation with its first policy |
| `Genesis.IndexGenesisPolicies` | x/coreslot/types/genesis.go:264-276 | one policy row per slot, or a refusal |
| `Genesis.ValidatePendingAuthorityTransfers` | x/coreslot/types/genesis.go:382-433 | at most one nomination per role, none of the holder, each with a positive height |
| `Genesis.ValidateLastApplied` | x/coreslot/types/genesis.go:175-203 | a supplied last applied set is exactly the ACTIVE slots' |
| `GenesisExport.LastAppliedMeans` | x/coreslot/types/genesis.go:175-203 | with distinct ACTIVE addresses, a supplied set is admitted if and only if its addresses are distinct, each validator has an ACTIVE slot's address, id and power, and each ACTIVE slot has a validator |
| `Genesis.ValidateReserved` | x/coreslot/types/genesis.go:163-174 | no address is reserved twice |
| `Genesis.ValidateRewardWeights` | x/coreslot/types/genesis.go:154-162 | every reward weight belongs to a slot of the document |
| `Genesis.ValidatePolicyOwners` | x/coreslot/types/genesis.go:137-143 | every policy row belongs to a slot of the document |
| `GenesisImport.RowsInvariant` | x/coreslot/keeper/genesis.go:40-99 | the rows written satisfy the invariant if and only if no two slots share a consensus address |
| `GenesisImport.SlotStored` | x/coreslot/keeper/genesis.go:46-53 | each record of the document is stored under its id as it stands |
| `GenesisImport.PoliciesStored` | x/coreslot/keeper/genesis.go:72-76 | a slot's stored history is its one policy row, indexed by its start |
| `GenesisImport.OthersStored` | x/coreslot/keeper/genesis.go:40-99 | parameters and counter are the document's; exactly its nominations and reservations are stored, each under its own role or address |
| `GenesisImport.LastWeightStored` | x/coreslot/keeper/genesis.go:88-92 | of several reward weights for one slot the last is stored |
| `GenesisImport.ImportSucceeds` | x/coreslot/keeper/genesis.go:15-108 | the import succeeds exactly on an admissible document at its heights and addresses whose ACTIVE addresses are distinct; the late consistency check never decides |
| `GenesisImport.FirstSet` | x/coreslot/keeper/genesis.go:100-107 | CometBFT accepts an import's first set if and only if its ACTIVE slots are within the power ceiling |
| `GenesisImport.ZeroIsOne` | x/coreslot/types/genesis.go:211-219 | genesis at height 0 is genesis at height 1, and a negative height is refused |
| `GenesisImport.ImportStartsGood` | x/coreslot/keeper/genesis.go:15-108 | a successful import starts a good chain if and only if no two slots share a consensus address and CometBFT bears the first set |
| `GenesisImport.ReachableGood` | x/coreslot/keeper/genesis.go:15-108 | from such an import every run is good at every point, and halts only at the last height or with ACTIVE slots heavier than CometBFT bears |
| `Samples.SampleImported` | x/coreslot/types/genesis.go:77-81 | one document is imported under every key-to-address map; its chain starts good exactly when the map separates its two keys |
| `Samples.CollisionImported` | x/coreslot/types/genesis.go:77-81 | a concrete accepted document in which a PENDING and an ACTIVE slot share an address |
| `Samples.IdsRunOut` | x/coreslot/keeper/msg_server.go:135-141 | a chain from genesis and a registration that passes every check and cannot advance the counter |
| `Samples.LockoutWraps` | x/coreslot/keeper/msg_server.go:355-359 | a chain from genesis in which a removed key can be taken again in the same block under the longest lockout |
| `Samples.DelayWraps` | x/coreslot/keeper/msg_server.go:401-408 | a chain from genesis in which a rotation with the longest delay is due in its own block |
| `Samples.MinimumRaised` | x/coreslot/keeper/msg_server.go:631-675 | a chain within its bounds and an accepted update that raises the minimum past the count |
| `Samples.MaximumLowered` | x/coreslot/keeper/msg_server.go:631-675 | a chain within its bounds and an accepted update that lowers the maximum below the count |
| `Samples.FloorIgnored` | x/coreslot/keeper/msg_server.go:280-294 | a chain at its minimum and an accepted emergency suspension below it |
| `Samples.TooHeavy` | x/coreslot/types/validation.go:65-68 | valid parameters under which activating a second slot halts the chain at the block's end |
| `GenesisExport.ExportRoundTrip` | x/coreslot/keeper/genesis.go:268-336 | a fresh import's export is importable at the same height and rebuilds every collection; with distinct addresses the store, derived indexes and updates are identical |
| `GenesisExport.SlotsInOrder` | x/coreslot/keeper/genesis.go:289-295 | the exported records are exactly the stored ones, by ascending slot id |
| `GenesisExport.ReservedInOrder` | x/coreslot/keeper/genesis.go:303-309 | the exported reservations are exactly the stored ones, by address in the order of the first difference |
| `GenesisExport.ValidatorsInOrder` | x/coreslot/keeper/genesis.go:317-323 | the exported validators are exactly the last applied ones, by address in that order |
| `GenesisExport.PoliciesInOrder` | x/coreslot/keeper/genesis.go:324-333 | the exported history ascends by slot and then by version |
| `GenesisExport.NominationsInOrder` | x/coreslot/keeper/genesis.go:281-288 | the exported nominations are exactly the pending ones, the primary role's first |
| `GenesisExport.OperatorIndexUnique` | x/coreslot/keeper/genesis.go:54-56 | the slots determine the operator index |
| `GenesisExport.ConsensusIndexUnique` | x/coreslot/keeper/genesis.go:57-59 | the slots determine the consensus index when no rotation is staged |
| `Amounts.ParseCanonicalAmount` | x/mining/types/validation.go:41-65 | the amount of a canonical decimal text below 2^256, and nothing of any other |
| `Amounts.AmountsAreUnique` | x/mining/types/validation.go:32-40 | two accepted texts of one amount are the same text |
| `Amounts.ParsedIsRendered` | x/mining/types/validation.go:41-65 | a text is accepted for an amount if and only if it is that amount's decimal text, from repeated division by ten, and the amount is below 2^256 |
| `SettlementChunks.AdmittedPayouts` | x/mining/keeper/chunk.go:387-481 | exactly the payout sets with strictly ascending accounts, canonical amounts of at least the larger floor and a 256-bit total are admitted, with that total |
| `SettlementChunks.AccountsInOrder` | x/mining/keeper/chunk.go:416-420 | the accounts ascend if and only if each precedes every later one at their first different byte |
| `SettlementChunks.AdmittedInOrder` | x/mining/keeper/chunk.go:404-421 | an admitted chunk's accounts all decode and stand in that order |
| `SettlementChunks.LinePays` | x/mining/keeper/chunk.go:423-446 | a line that spells an amount below 2^256 in decimal pays that amount |
| `SettlementChunks.TotalAdds` | x/mining/keeper/chunk.go:440-446 | a list of lines pays the sum of what its parts pay |
| `SettlementChunks.AdmitPayouts` | x/mining/keeper/chunk.go:387-460 | the loop over the lines decides as the line-by-line specification, the first refusal deciding |
| `SettlementChunks.OneCanonicalForm` | x/mining/keeper/chunk.go:370-386 | two admitted chunks with one set of payouts are one sequence, amount texts included |
| `SettlementChunks.ValidateChunk` | x/mining/types/msgs.go:36-75 | the stateless checks in order |
| `SettlementChunks.Admit` | x/mining/keeper/chunk.go:147-198 | the admission checks in the source's order, nothing written |
| `SettlementChunks.Keeper.constructor` | x/mining/keeper/chunk.go:68-70 | the keeper over given bindings and ledger |
| `SettlementChunks.Keeper.PayEntitlement` | x/rewards/keeper/release.go:49-106 | raises the released amount by the total, or fails with no change |
| `SettlementChunks.Keeper.SubmitUncached` | x/mining/keeper/chunk.go:81-141 | admission, release, then the cursor |
| `SettlementChunks.Keeper.SubmitSettlementChunk` | x/mining/keeper/chunk.go:68-79 | the whole transition or no change at all |
| `ChunkRuns.SubmissionDecides` | x/mining/keeper/chunk.go:68-198 | a submission is accepted if and only if the chunk is acceptable, and its only effects are the cursor's advance and the release |
| `ChunkRuns.RunSettles` | x/mining/keeper/chunk.go:68-198 | over any run, released is its start plus the accepted totals and within the entitlement; accepted indices count up by one, below both maximums, each inside the window and signed by the slot's credential |
| `ChunkRuns.RunBounds` | x/mining/keeper/chunk.go:345-368 | from a fresh settlement at most min(configured, 4) chunks are accepted, no index twice, and released never exceeds the entitlement |
| `ChunkRuns.WindowStaysClosed` | x/mining/keeper/chunk.go:267-303 | once the clock has reached the deadline no later chunk of the epoch is accepted |
| `ChunkRuns.ReplayRefused` | x/mining/keeper/chunk.go:121-125 | an accepted chunk sent again is refused |
| `Varint.SovIsLength` | x/coreslot/types/coreslot.pb.go:2129-2131 | the size computed from the bit length is the encoded length |
| `Varint.PutVarint` | x/coreslot/types/coreslot.pb.go:1807-1817 | the varint is written just before the offset and nothing else changes |
| `Varint.DecodeEncoded` | x/coreslot/types/coreslot.pb.go:2140-2153 | the shift loop reads back every uint64, tenth byte included |
| `Varint.DecodedFits` | x/coreslot/types/coreslot.pb.go:2140-2153 | the shift loop never carries into a bit already set, nor past 64 bits |
| `Varint.GetVarint` | x/coreslot/types/coreslot.pb.go:2140-2153 | the loop ends within ten bytes and inside the input |
| `Wire.SkipFrom` | x/coreslot/types/coreslot.pb.go:4236-4313 | the skipper ends on any bytes and, if it succeeds, consumes at least one |
| `Wire.Skip` | x/coreslot/types/coreslot.pb.go:4236-4313 | the loop with its depth counter computes that |
| `Wire.NextField` | x/coreslot/types/coreslot.pb.go:2138-2230 | on any bytes a field fails or ends inside the input, at least one byte on |
| `Wire.ReadField` | x/coreslot/types/coreslot.pb.go:2138-2230 | the imperative reader computes that |
| `Wire.Unmarshal` | x/coreslot/types/coreslot.pb.go:2135-2235 | the field loop ends on every input |
| `Wire.SkipsExtra` | x/coreslot/types/coreslot.pb.go:4236-4313 | a well-formed field of any wire type is skipped exactly, groups with everything nested in them |
| `Wire.ExtraIsSkipped` | x/coreslot/types/coreslot.pb.go:2216-2228 | a message passes over an unknown field and no further |
| `Codec.PolicySizeExact` | x/coreslot/types/coreslot.pb.go:1948-1973 | Size is the number of bytes written |
| `Codec.TransferSizeExact` | x/coreslot/types/coreslot.pb.go:1818-1832 | Size is the number of bytes written |
| `Codec.EntrySizeExact` | x/coreslot/types/coreslot.pb.go:1834-1848 | Size is the number of bytes written |
| `Codec.GenesisSizeExact` | x/coreslot/types/genesis.pb.go:332-388 | Size is the number of bytes written |
| `Codec.PutPolicy` | x/coreslot/types/coreslot.pb.go:1443-1479 | the backward writer leaves exactly the forward encoding before the offset |
| `Codec.PutTransfer` | x/coreslot/types/coreslot.pb.go:1169-1187 | the backward writer leaves exactly the forward encoding before the offset |
| `Codec.PutEntry` | x/coreslot/types/coreslot.pb.go:1204-1227 | the nested message first, then its length and tag |
| `Codec.PutPolicies` | x/coreslot/types/genesis.pb.go:217-230 | a repeated field written from its last element back is its elements in order |
| `Codec.PutEntries` | x/coreslot/types/genesis.pb.go:203-216 | a repeated field written from its last element back is its elements in order |
| `Codec.PutGenesis` | x/coreslot/types/genesis.pb.go:198-319 | the whole document, last field first |
| `Codec.MarshalPolicy` | x/coreslot/types/coreslot.pb.go:1428-1436 | a buffer of exactly Size bytes, filled to its first |
| `Codec.MarshalEntry` | x/coreslot/types/coreslot.pb.go:1189-1197 | a buffer of exactly Size bytes, filled to its first |
| `Codec.MarshalGenesis` | x/coreslot/types/genesis.pb.go:183-191 | a buffer of exactly Size bytes, filled to its first |
| `RoundTrip.PolicyRoundTrip` | x/coreslot/types/coreslot.pb.go:3029-3192 | parsing what was written gives the message back, whatever unknown fields follow |
| `RoundTrip.TransferRoundTrip` | x/coreslot/types/coreslot.pb.go:2135-2235 | parsing what was written gives the message back, whatever unknown fields follow |
| `RoundTrip.EntryRoundTrip` | x/coreslot/types/coreslot.pb.go:2236-2340 | the same with its nested message, absent and empty kept apart, and a negative enum |
| `RoundTrip.GenesisRoundTrip` | x/coreslot/types/genesis.pb.go:396-738 | the same for the document, every repeated field in order |
| `RoundTrip.KnownVarint` | x/coreslot/types/coreslot.pb.go:1807-1817 | 150 is the two bytes 0x96 0x01, as in the Protocol Buffers encoding |
| `RoundTrip.KnownMessages` | x/coreslot/types/coreslot.pb.go:1169-1495 | one value of each small message, byte by byte: every field under its own number and wire type |
| `RoundTrip.KnownDocument` | x/coreslot/types/genesis.pb.go:198-320 | one document byte by byte: each list under its own field number, in the order of the numbers |

## Left out

- Events, telemetry, queries, the CLI, OpenAPI and application wiring: they decide no state.
- ScheduleUpgrade and CancelUpgrade: they change nothing in the CoreSlot store.
- Bech32, ed25519, SHA-256 and hex: parameters of the model (`Rules`, `Bindings.decode`); `ConsensusKey` folds the two refusals of a key into one error.
- Signature checks and gas: each message's signer field is taken as authenticated.
- Storage decode faults and an absent parameter or counter key: the collections are total maps, so only logical absence is modelled.
- Nil elements of repeated genesis fields and nil nested transfers: the document's lists have no absent elements.
- Error texts and the distinction between genesis validation errors: one kind per refusal class.
- Authority roles other than the two defined ones are one value, `NoRole`.
- The literal weight "1.000000000000000000", its zero and the ed25519 type URL are constructors rather than strings.
- The two classes named `Keeper` hold their collections as maps; the byte encoding of rows and keys is not modelled.
- CoreSlotKeeper.Keeper.CountActive: counts in an unbounded number, because the index holds at most 100 ids in every reachable store.
- CoreSlotKeeper.Keeper.RunEndBlock: for rotations that name one slot more than once Go's sort may leave either order, so the contract says there is an order that gives the outcome; in a reachable store there is only one.
- Import order inside the genesis document when keys repeat: reward weights may repeat a slot and the last row wins, as in the source.
- JsonWalk.CheckJSONArray: requires an input on which the code ends, with JsonWalk.CheckJSONValue and JsonWalk.CheckJSONObject, because a Dafny method must end; `JsonWalk.WalkEnds` says which inputs those are, and error paths carry no location text.
- The JSON decoder itself: which bytes are tokens is a parameter, the token sequence and what follows it.
- CometBFT: its acceptance of a change set is modelled from version 0.38.21, on addresses and powers; proposer priorities and the delay until a set takes effect are not.
- SettlementChunks.Keeper.PayEntitlement: the bank's transfers are one yes-or-no input of the block and the outstanding-liability accumulator is not modelled.
- Settlement finalization, materialization, parameter promotion and the remainder payout: separate transitions, not needed by the chunk protocol.
- SettlementParamsForTarget and EpochLengthForEpoch: their resolved values are fixed inputs per epoch, absence included.
- Codec.GenesisSizeExact: fields 1 to 6 count as the bodies they carry; the sizes of those messages are not modelled.
- Codec.PutGenesis: fields 1 to 6 are written from bodies already encoded.
- Codec.MarshalGenesis: the same.
- RoundTrip.GenesisRoundTrip: fields 1 to 6 of the genesis document are carried as the bytes of their nested messages, so those messages' own parsing failures are not modelled; a repeated params field is merged by concatenating its bodies.
- The generated parsers are one loop with a schema per message rather than one loop per message; bits are combined by addition, which `Varint.DecodedFits` shows to be the same as `|=`.
- UTF-8 validity of string fields: the generated code does not check it.
