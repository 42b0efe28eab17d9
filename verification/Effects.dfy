/**
 What each accepted message, and each due rotation, leaves in a reachable store: every
 collection it touches, with what, and nothing else.
 */
module Effects {
  import opened Machine
  import opened CoreSlotTypes
  import opened Handlers
  import opened Invariant
  import opened PolicyHistory
  import opened Acceptance
  import EndBlock
  import BlockEnd

  /** A slot as a registration at `height` leaves it. */
  predicate FreshRecord(slot: CoreSlot, id: uint64, height: int64, operator: string, key: PubKey, payout: string,
      settlement: string, metadata: Option<Metadata>) {
    && slot.slotId == id && slot.operator == operator && slot.key == key
    && slot.payout == payout && slot.settlement == settlement && slot.metadata == metadata
    && slot.status == Pending && slot.power == 0 && slot.rewardWeight == One
    && slot.createdHeight == height && slot.updatedHeight == height
    && slot.activatedHeight == 0 && slot.activationEffectiveHeight == 0 && slot.activationSequence == 0
    && slot.suspendedHeight == 0 && slot.removedHeight == 0
    && slot.policyVersion == 1 && slot.lastPolicyUpdate == 0
  }

  predicate FreshWeight(w: RewardWeight, id: uint64, height: int64) {
    && w.slotId == id && w.updatedHeight == height
    && w.base == One && w.uptime == One && w.performance == One && w.final == One
    && w.stake == Zero && w.external == Zero
  }

  predicate FreshVersion(p: Policy, id: uint64, height: int64, policy: InitialPolicy) {
    && p.slotId == id && p.version == 1 && p.rate == policy.rate && p.maxParticipants == policy.maxParticipants
    && p.validFrom == height && p.validUntil == 0
  }

  /** Go's int64 sum of a height and a number of blocks. */
  function SumOfBlocks(height: int64, blocks: uint64): int64
    requires height >= 1
  {
    if height + blocks <= MAX_INT64 then height + blocks else height + blocks - 0x1_0000_0000_0000_0000
  }

  /** The store with the slot's staged rotation dropped and its key freed. */
  function Unstage(rules: Rules, s: Store, id: uint64): Store {
    if id in s.rotations && Decodes(rules, s.rotations[id].newKey) then
      s.(rotations := s.rotations - {id},
         byConsensus := s.byConsensus - {AddressOf(rules, s.rotations[id].newKey)})
    else s
  }

  /** The store with the new key's expired reservation gone and the key indexed. */
  function Taken(rules: Rules, s: Store, id: uint64, key: PubKey): Store
    requires Decodes(rules, key)
  {
    s.(reserved := s.reserved - {AddressOf(rules, key)}, byConsensus := s.byConsensus[AddressOf(rules, key) := id])
  }

  /** The store with the slot's key replaced, and the old one freed and reserved. */
  function Rekeyed(rules: Rules, s: Store, height: int64, id: uint64, key: PubKey): Store
    requires height >= 1 && id in s.slots && Decodes(rules, s.slots[id].key)
  {
    var released := AddressOf(rules, s.slots[id].key);
    s.(slots := s.slots[id := s.slots[id].(key := key, updatedHeight := height)],
       byConsensus := s.byConsensus - {released},
       reserved := s.reserved[released := Reservation(released, id, SumOfBlocks(height, s.params.reuseLockout),
                                                      KeyRotation)])
  }

  /** `s'` is what the accepted message leaves of `s`. */
  ghost predicate Leaves(rules: Rules, s: Store, s': Store, height: int64, msg: Msg) {
    && height >= 1
    && match msg
       case RegisterCoreSlot(_, operator, key, payout, settlement, metadata, policy) =>
         && Decodes(rules, key) && policy.Some? && s.nextSlotId !in s.slots && s.nextSlotId < MAX_UINT64
         && var id, a := s.nextSlotId, AddressOf(rules, key);
         && var index: map<int64, uint64> := map[height := 1];
         && id in s'.slots && id in s'.rewardWeights && id in s'.policies && 1 in s'.policies[id]
         && FreshRecord(s'.slots[id], id, height, operator, key, payout, settlement, metadata)
         && FreshWeight(s'.rewardWeights[id], id, height)
         && FreshVersion(s'.policies[id][1], id, height, policy.value)
         && s' == s.(slots := s.slots[id := s'.slots[id]],
                     byOperator := s.byOperator[operator := id],
                     byConsensus := s.byConsensus[a := id],
                     reserved := s.reserved - {a},
                     rewardWeights := s.rewardWeights[id := s'.rewardWeights[id]],
                     nextSlotId := id + 1,
                     policies := s.policies[id := map[1 := s'.policies[id][1]]],
                     starts := s.starts[id := index])
       case ActivateCoreSlot(_, id) =>
         && id in s.slots && s.slots[id].activationSequence < MAX_UINT64 && height < MAX_INT64
         && s' == s.(slots := s.slots[id := s.slots[id].(status := Active, power := s.params.votingPower,
                                                         activationSequence := s.slots[id].activationSequence + 1,
                                                         activatedHeight := height, updatedHeight := height,
                                                         activationEffectiveHeight := height + 1)],
                     active := s.active + {id})
       case InactivateCoreSlot(_, id) =>
         && id in s.slots
         && s' == Unstage(rules, s, id).(
              slots := s.slots[id := s.slots[id].(status := Inactive, power := 0, updatedHeight := height)],
              active := s.active - {id})
       case SuspendCoreSlot(_, id) =>
         && id in s.slots
         && s' == Unstage(rules, s, id).(
              slots := s.slots[id := s.slots[id].(status := Suspended, power := 0, suspendedHeight := height,
                                                  updatedHeight := height)],
              active := s.active - {id})
       case RemoveCoreSlot(_, id, reason) =>
         && id in s.slots && Decodes(rules, s.slots[id].key)
         && var a := AddressOf(rules, s.slots[id].key);
         && s' == s.(slots := s.slots[id := s.slots[id].(status := Removed, power := 0, removedHeight := height,
                                                         updatedHeight := height)],
                     byOperator := s.byOperator - {s.slots[id].operator},
                     byConsensus := s.byConsensus - {a},
                     reserved := s.reserved[a := Reservation(a, id, SumOfBlocks(height, s.params.reuseLockout),
                                                             Given(reason))])
       case RotateConsensusKey(_, id, key) =>
         && id in s.slots && Decodes(rules, s.slots[id].key) && Decodes(rules, key)
         && var taken := Taken(rules, s, id, key);
         && s' == if s.slots[id].status == Active then
                    taken.(rotations := s.rotations[id :=
                      Rotation(id, s.slots[id].key, key, height, SumOfBlocks(height, s.params.rotationDelay))])
                  else Rekeyed(rules, taken, height, id, key)
       case UpdatePayoutAddress(_, id, payout) =>
         && id in s.slots
         && s' == s.(slots := s.slots[id := s.slots[id].(payout := payout, updatedHeight := height)])
       case UpdateOperatorMetadata(_, id, metadata) =>
         && id in s.slots
         && s' == s.(slots := s.slots[id := s.slots[id].(metadata := metadata, updatedHeight := height)])
       case UpdateSettlementAddress(_, id, settlement) =>
         && id in s.slots
         && s' == s.(slots := s.slots[id := s.slots[id].(settlement := settlement, updatedHeight := height)])
       case UpdateSelectionPolicy(_, id, rate, maxParticipants) =>
         && id in s.slots && id in s.policies && id in s.starts && s.slots[id].policyVersion in s.policies[id]
         && s.slots[id].policyVersion < MAX_UINT64 && height < MAX_INT64
         && var v := s.slots[id].policyVersion;
         && var index: map<int64, uint64> := s.starts[id][height + 1 := v + 1];
         && s' == s.(slots := s.slots[id := s.slots[id].(policyVersion := v + 1, lastPolicyUpdate := height,
                                                         updatedHeight := height)],
                     policies := s.policies[id := s.policies[id]
                                   [v := s.policies[id][v].(validUntil := height + 1)]
                                   [v + 1 := Policy(id, v + 1, rate, maxParticipants, height + 1, 0)]],
                     starts := s.starts[id := index])
       case UpdateParams(_, params) => params.Some? && s' == s.(params := params.value)
       case NominateAuthority(_, role, nominee) =>
         s' == s.(nominations := s.nominations[role := Transfer(nominee, height)])
       case AcceptAuthority(nominee, role) =>
         && Holds(s'.params, role, nominee)
         && s' == s.(params := if role == Emergency then s.params.(emergencyAuthority := nominee)
                               else s.params.(authority := nominee),
                     nominations := s.nominations - {role})
       case CancelAuthorityNomination(_, role) => s' == s.(nominations := s.nominations - {role})
  }

  // ----- Message by message -----

  lemma PositiveHeight(rules: Rules, s: Store, height: int64)
    requires Inv(rules, s, height)
    ensures height >= 1
  {
  }

  lemma SumIs(height: int64, blocks: uint64)
    requires height >= 1
    ensures ReservedUntil(height, blocks) == SumOfBlocks(height, blocks)
    ensures WrapInt64(height + Int64OfUint64(blocks)) == SumOfBlocks(height, blocks)
  {
  }

  /** A registration fills the counter's id, field by field, and touches no other slot. */
  lemma RegistrationWrites(rules: Rules, s: Store, height: int64, authority: string, operator: string, key: PubKey,
      payout: string, settlement: string, metadata: Option<Metadata>, policy: Option<InitialPolicy>)
    requires Inv(rules, s, height)
    requires Register(rules, s, height, authority, operator, key, payout, settlement, metadata, policy).Success?
    ensures Leaves(rules, s,
                   Register(rules, s, height, authority, operator, key, payout, settlement, metadata, policy).value,
                   height, RegisterCoreSlot(authority, operator, key, payout, settlement, metadata, policy))
  {
    hide Inv, ConsensusKey, Register, Registered, NewSlot, Leaves, ValidPolicyValues, Address;
    PositiveHeight(rules, s, height);
    RegisterEffect(rules, s, height, authority, operator, key, payout, settlement, metadata, policy);
    AddressIs(rules, key);
    RegisteredLeaves(rules, s, height, authority, operator, key, payout, settlement, metadata, policy);
  }

  lemma RegisteredLeaves(rules: Rules, s: Store, height: int64, authority: string, operator: string, key: PubKey,
      payout: string, settlement: string, metadata: Option<Metadata>, policy: Option<InitialPolicy>)
    requires height >= 1 && Decodes(rules, key) && policy.Some?
    requires s.nextSlotId !in s.slots && s.nextSlotId < MAX_UINT64
    ensures Leaves(rules, s,
                   Registered(rules, s, height, NewSlot(s.nextSlotId, height, operator, key, payout, settlement,
                                                        metadata), policy.value),
                   height, RegisterCoreSlot(authority, operator, key, payout, settlement, metadata, policy))
  {
    hide ConsensusKey, Address, AddressOf, Decodes;
    AddressIs(rules, key);
  }

  lemma LeaveWrites(rules: Rules, s: Store, height: int64, slot: CoreSlot)
    requires Inv(rules, s, height) && slot.slotId in s.slots
    ensures Leave(rules, s, slot) ==
            Success(Unstage(rules, s, slot.slotId).(slots := s.slots[slot.slotId := slot],
                                                    active := s.active - {slot.slotId}))
  {
    hide Inv, ConsensusKey, Frames, FramesPolicies;
    OwnKeyDecodes(rules, s, height, slot.slotId);
    if slot.slotId in s.rotations { AddressIs(rules, s.rotations[slot.slotId].newKey); }
  }

  lemma ActivationWrites(rules: Rules, s: Store, height: int64, authority: string, id: uint64)
    requires Inv(rules, s, height) && Activate(rules, s, height, authority, id).Success?
    ensures Leaves(rules, s, Activate(rules, s, height, authority, id).value, height, ActivateCoreSlot(authority, id))
  {
    hide Inv, ConsensusKey, ValidateActiveSlotInvariant, Frames, FramesPolicies;
    PositiveHeight(rules, s, height);
    OwnKeyDecodes(rules, s, height, id);
  }

  lemma InactivationWrites(rules: Rules, s: Store, height: int64, caller: string, id: uint64)
    requires Inv(rules, s, height) && Inactivate(rules, s, height, caller, id).Success?
    ensures Leaves(rules, s, Inactivate(rules, s, height, caller, id).value, height, InactivateCoreSlot(caller, id))
  {
    hide Inv, ConsensusKey, Leave, Unstage, Frames, FramesPolicies;
    PositiveHeight(rules, s, height);
    OwnKeyDecodes(rules, s, height, id);
    LeaveWrites(rules, s, height, s.slots[id].(status := Inactive, power := 0, updatedHeight := height));
  }

  lemma SuspensionWrites(rules: Rules, s: Store, height: int64, authority: string, id: uint64)
    requires Inv(rules, s, height) && Suspend(rules, s, height, authority, id).Success?
    ensures Leaves(rules, s, Suspend(rules, s, height, authority, id).value, height, SuspendCoreSlot(authority, id))
  {
    hide Inv, ConsensusKey, Leave, Unstage, Frames, FramesPolicies;
    PositiveHeight(rules, s, height);
    OwnKeyDecodes(rules, s, height, id);
    LeaveWrites(rules, s, height, s.slots[id].(status := Suspended, power := 0, suspendedHeight := height,
                                               updatedHeight := height));
  }

  lemma RemovalWrites(rules: Rules, s: Store, height: int64, authority: string, id: uint64, reason: string)
    requires Inv(rules, s, height) && Remove(rules, s, height, authority, id, reason).Success?
    ensures Leaves(rules, s, Remove(rules, s, height, authority, id, reason).value, height,
                   RemoveCoreSlot(authority, id, reason))
  {
    hide Inv, ConsensusKey, Leave, ReservedUntil, SumOfBlocks, Frames, FramesPolicies;
    PositiveHeight(rules, s, height);
    OwnKeyDecodes(rules, s, height, id);
    AddressIs(rules, s.slots[id].key);
    SumIs(height, s.params.reuseLockout);
    LeaveWrites(rules, s, height, s.slots[id].(status := Removed, power := 0, removedHeight := height,
                                               updatedHeight := height));
    assert s.active - {id} == s.active && id !in s.rotations;
  }

  /** The admitted rotation of an ACTIVE slot, and of any other. */
  lemma RotationStaged(rules: Rules, s: Store, height: int64, authority: string, id: uint64, key: PubKey)
    requires AdmitRotation(rules, s, authority, id).Success? && height >= 1
    requires id in s.slots && s.slots[id].slotId == id && s.slots[id].status == Active && Decodes(rules, key)
    requires EnsureConsensusAvailable(rules, s, height, key) ==
             Success((AddressOf(rules, key), s.(reserved := s.reserved - {AddressOf(rules, key)})))
    ensures Rotate(rules, s, height, authority, id, key) ==
            Success(Taken(rules, s, id, key).(rotations := s.rotations[id :=
              Rotation(id, s.slots[id].key, key, height, SumOfBlocks(height, s.params.rotationDelay))]))
  {
    hide ConsensusKey, EnsureConsensusAvailable, SumOfBlocks, Decodes, AddressOf, Frames, FramesPolicies;
    SumIs(height, s.params.rotationDelay);
  }

  lemma RotationImmediate(rules: Rules, s: Store, height: int64, authority: string, id: uint64, key: PubKey)
    requires AdmitRotation(rules, s, authority, id).Success? && height >= 1
    requires id in s.slots && s.slots[id].slotId == id && s.slots[id].status != Active
    requires Decodes(rules, s.slots[id].key) && Decodes(rules, key)
    requires EnsureConsensusAvailable(rules, s, height, key) ==
             Success((AddressOf(rules, key), s.(reserved := s.reserved - {AddressOf(rules, key)})))
    ensures Rotate(rules, s, height, authority, id, key) ==
            Success(Rekeyed(rules, Taken(rules, s, id, key), height, id, key))
  {
    hide ConsensusKey, EnsureConsensusAvailable, SumOfBlocks, ReservedUntil, Decodes, AddressOf, Frames, FramesPolicies;
    AddressIs(rules, s.slots[id].key);
    SumIs(height, s.params.reuseLockout);
  }

  /** A rotation of an ACTIVE slot is staged; of any other it replaces the key at once. */
  lemma RotationWrites(rules: Rules, s: Store, height: int64, authority: string, id: uint64, key: PubKey)
    requires Inv(rules, s, height) && Rotate(rules, s, height, authority, id, key).Success?
    ensures Leaves(rules, s, Rotate(rules, s, height, authority, id, key).value, height,
                   RotateConsensusKey(authority, id, key))
  {
    hide Inv, Rotate, ConsensusKey, EnsureConsensusAvailable, FreeKey, SumOfBlocks, Taken, Rekeyed, AddressOf, Decodes;
    AdmittedRotation(rules, s, height, authority, id, key);
    PositiveHeight(rules, s, height);
    RotationAccepted(rules, s, height, authority, id, key);
    KeyIsFree(rules, s, height, key);
    FreeKeyDecodes(rules, s, height, key);
    OwnKeyDecodes(rules, s, height, id);
    AddressIs(rules, s.slots[id].key);
    if s.slots[id].status == Active {
      RotationStaged(rules, s, height, authority, id, key);
    } else {
      RotationImmediate(rules, s, height, authority, id, key);
    }
  }

  lemma AdmittedRotation(rules: Rules, s: Store, height: int64, authority: string, id: uint64, key: PubKey)
    requires Rotate(rules, s, height, authority, id, key).Success?
    ensures AdmitRotation(rules, s, authority, id).Success?
  {
    hide AdmitRotation, EnsureConsensusAvailable, Frames, FramesPolicies;
  }

  lemma FreeKeyDecodes(rules: Rules, s: Store, height: int64, key: PubKey)
    requires FreeKey(rules, s, height, key)
    ensures Decodes(rules, key)
  {
  }

  lemma ConfigurationWrites(rules: Rules, s: Store, height: int64, msg: Msg)
    requires Inv(rules, s, height) && Handle(rules, s, height, msg).Success?
    requires msg.UpdatePayoutAddress? || msg.UpdateOperatorMetadata? || msg.UpdateSettlementAddress?
    ensures Leaves(rules, s, Handle(rules, s, height, msg).value, height, msg)
  {
    hide Inv, ValidMetadata, Frames, FramesPolicies;
    PositiveHeight(rules, s, height);
    OwnKeyDecodes(rules, s, height, msg.slotId);
  }

  /** A policy update closes the open version at the next height, where its successor starts. */
  lemma PolicyUpdateWrites(rules: Rules, s: Store, height: int64, operator: string, id: uint64, rate: uint64,
      maxParticipants: uint64)
    requires Inv(rules, s, height) && UpdatePolicy(s, height, operator, id, rate, maxParticipants).Success?
    ensures Leaves(rules, s, UpdatePolicy(s, height, operator, id, rate, maxParticipants).value, height,
                   UpdateSelectionPolicy(operator, id, rate, maxParticipants))
  {
    hide Inv, UpdatePolicy, Leaves, Superseded, IndexedWith, HistoryOk, Rested, ValidPolicyValues, ConsensusKey,
      NextPolicy;
    PositiveHeight(rules, s, height);
    PolicyUpdateEffect(rules, s, height, operator, id, rate, maxParticipants);
    SlotFacts(rules, s, height, id);
    UpdateLeaves(rules, s, height, operator, id, rate, maxParticipants);
  }

  lemma UpdateLeaves(rules: Rules, s: Store, height: int64, operator: string, id: uint64, rate: uint64,
      maxParticipants: uint64)
    requires 1 <= height < MAX_INT64 && id in s.slots && id in s.policies && id in s.starts
    requires s.slots[id].slotId == id && s.slots[id].policyVersion in s.policies[id]
    requires s.slots[id].policyVersion < MAX_UINT64
    ensures var slot := s.slots[id];
            var p := NextPolicy(slot, height, rate, maxParticipants);
            Leaves(rules, s, s.(slots := s.slots[id := slot.(policyVersion := p.version, lastPolicyUpdate := height,
                                                             updatedHeight := height)],
                                policies := s.policies[id := Superseded(s.policies[id], slot.policyVersion, p)],
                                starts := s.starts[id := IndexedWith(s.starts[id], p)]),
                   height, UpdateSelectionPolicy(operator, id, rate, maxParticipants))
  {
  }

  lemma GovernanceWrites(rules: Rules, s: Store, height: int64, msg: Msg)
    requires height >= 1 && Handle(rules, s, height, msg).Success?
    requires msg.UpdateParams? || msg.NominateAuthority? || msg.AcceptAuthority? || msg.CancelAuthorityNomination?
    ensures Leaves(rules, s, Handle(rules, s, height, msg).value, height, msg)
  {
    hide ValidParams;
  }

  /** Every accepted message leaves exactly that. */
  lemma MessageWrites(rules: Rules, s: Store, height: int64, msg: Msg)
    requires Inv(rules, s, height) && Handle(rules, s, height, msg).Success?
    ensures Leaves(rules, s, Handle(rules, s, height, msg).value, height, msg)
  {
    hide Inv, Leaves, Register, Activate, Inactivate, Suspend, Remove, Rotate, UpdatePayout, UpdateMetadata,
      UpdateSettlement, UpdatePolicy, ReplaceParams, Nominate, Accept, CancelNomination;
    PositiveHeight(rules, s, height);
    match msg
    case RegisterCoreSlot(authority, operator, key, payout, settlement, metadata, policy) =>
      RegistrationWrites(rules, s, height, authority, operator, key, payout, settlement, metadata, policy);
    case ActivateCoreSlot(authority, id) => ActivationWrites(rules, s, height, authority, id);
    case InactivateCoreSlot(caller, id) => InactivationWrites(rules, s, height, caller, id);
    case SuspendCoreSlot(authority, id) => SuspensionWrites(rules, s, height, authority, id);
    case RemoveCoreSlot(authority, id, reason) => RemovalWrites(rules, s, height, authority, id, reason);
    case RotateConsensusKey(authority, id, key) => RotationWrites(rules, s, height, authority, id, key);
    case UpdatePayoutAddress(_, _, _) => ConfigurationWrites(rules, s, height, msg);
    case UpdateOperatorMetadata(_, _, _) => ConfigurationWrites(rules, s, height, msg);
    case UpdateSettlementAddress(_, _, _) => ConfigurationWrites(rules, s, height, msg);
    case UpdateSelectionPolicy(operator, id, rate, maxParticipants) =>
      PolicyUpdateWrites(rules, s, height, operator, id, rate, maxParticipants);
    case _ => GovernanceWrites(rules, s, height, msg);
  }

  // ----- A due rotation -----

  /** A due rotation of a reachable store gives the slot its new key and reserves the old one. */
  lemma DueRotationWrites(rules: Rules, s: Store, height: int64, id: uint64)
    requires Inv(rules, s, height) && id in s.rotations
    ensures height >= 1 && id in s.slots && Decodes(rules, s.slots[id].key)
    ensures EndBlock.ApplyRotation(rules, s, height, s.rotations[id]) ==
            Success(Rekeyed(rules, s, height, id, s.rotations[id].newKey).(rotations := s.rotations - {id}))
  {
    hide Inv, ConsensusKey, SumOfBlocks, ReservedUntil, EndBlock.DropStaleRotation, Frames, FramesPolicies;
    PositiveHeight(rules, s, height);
    BlockEnd.RotationFacts(rules, s, height, id);
    OwnKeyDecodes(rules, s, height, id);
    AddressIs(rules, s.slots[id].key);
    SumIs(height, s.params.reuseLockout);
  }
}
