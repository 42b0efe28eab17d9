/**
 When each message is accepted in a reachable store, said of the records and the message
 alone: every refusal that the invariant rules out has dropped out. Each condition names
 the signer.
 */
module Acceptance {
  import opened Machine
  import opened CoreSlotTypes
  import opened Handlers
  import opened Invariant
  import opened PolicyHistory
  import opened Timelines
  import EndBlock
  import Checked

  // ----- Keys and operators -----

  /** An ed25519 key whose bytes have an address. */
  predicate Decodes(rules: Rules, key: PubKey) {
    key.typeUrl == Ed25519 && rules.address(key.value).Some?
  }

  function AddressOf(rules: Rules, key: PubKey): string
    requires Decodes(rules, key)
  {
    rules.address(key.value).value
  }

  lemma AddressIs(rules: Rules, key: PubKey)
    ensures Decodes(rules, key) <==> ConsensusKey(rules, key).Success?
    ensures Decodes(rules, key) ==>
              Address(rules, key) == AddressOf(rules, key) == ConsensusKey(rules, key).value
  {
  }

  /** A key nobody holds, and not reserved any longer. */
  ghost predicate FreeKey(rules: Rules, s: Store, height: int64, key: PubKey) {
    && Decodes(rules, key) && Unheld(rules, s, AddressOf(rules, key))
    && (AddressOf(rules, key) in s.reserved ==> s.reserved[AddressOf(rules, key)].until <= height)
  }

  lemma IndexedIsHeld(rules: Rules, s: Store, height: int64, a: string)
    requires Inv(rules, s, height)
    ensures a in s.byConsensus <==> !Unheld(rules, s, a)
  {
    hide SlotRows, ActiveIndex, OperatorIndex, RotationRows, Histories, Bounds, MostSlots, Address;
    if a !in s.byConsensus {
      FreeIsUnheld(rules, s, height, a);
    } else {
      var id := s.byConsensus[a];
      assert Owns(rules, s.slots, id, a) || Stages(rules, s.rotations, id, a);
    }
  }

  lemma KeyIsFree(rules: Rules, s: Store, height: int64, key: PubKey)
    requires Inv(rules, s, height)
    ensures EnsureConsensusAvailable(rules, s, height, key).Success? <==> FreeKey(rules, s, height, key)
    ensures FreeKey(rules, s, height, key) ==>
              EnsureConsensusAvailable(rules, s, height, key).value ==
              (AddressOf(rules, key), s.(reserved := s.reserved - {AddressOf(rules, key)}))
  {
    hide Inv, Unheld, ConsensusKey;
    AddressIs(rules, key);
    if Decodes(rules, key) { IndexedIsHeld(rules, s, height, AddressOf(rules, key)); }
  }

  /** No slot that is not REMOVED has this operator. */
  ghost predicate OperatorFree(s: Store, operator: string) {
    forall id :: id in s.slots && s.slots[id].status != Removed ==> s.slots[id].operator != operator
  }

  lemma OperatorIsFree(rules: Rules, s: Store, height: int64, operator: string)
    requires Inv(rules, s, height)
    ensures operator in s.byOperator <==> !OperatorFree(s, operator)
  {
    hide SlotRows, ActiveIndex, ConsensusIndex, RotationRows, Histories, Bounds, MostSlots;
    if operator in s.byOperator {
      var id := s.byOperator[operator];
      assert id in s.slots && s.slots[id].status != Removed && s.slots[id].operator == operator;
    }
  }

  lemma OwnKeyDecodes(rules: Rules, s: Store, height: int64, id: uint64)
    requires Inv(rules, s, height) && id in s.slots
    ensures s.slots[id].slotId == id && ConsensusKey(rules, s.slots[id].key).Success?
    ensures id in s.rotations ==> ActiveIn(s, id) && ConsensusKey(rules, s.rotations[id].newKey).Success?
    ensures id in s.active <==> ActiveIn(s, id)
  {
    hide Inv, ConsensusKey;
    SlotFacts(rules, s, height, id);
  }

  /** No text of the metadata is longer than 512 bytes. */
  predicate ShortTexts(metadata: Option<Metadata>) {
    metadata.Some? ==>
      var m := metadata.value;
      forall text | text in [m.moniker, m.identity, m.website, m.contact, m.details] :: |text| <= 512
  }

  /** The operator's own slot, in a status the operator may configure. */
  predicate Configures(s: Store, operator: string, id: uint64) {
    && id in s.slots && s.slots[id].operator == operator
    && (s.slots[id].status == Pending || s.slots[id].status == Active || s.slots[id].status == Inactive)
  }

  /** Who holds a role, by the parameter that names them. */
  predicate Holds(p: Params, role: Role, who: string) {
    || (role == Primary && who == p.authority)
    || (role == Emergency && who == p.emergencyAuthority)
  }

  /** The slot's current version, which no later one has closed. */
  function OpenVersion(s: Store, id: uint64): Policy
    requires id in s.slots && id in s.policies && s.slots[id].policyVersion in s.policies[id]
  {
    s.policies[id][s.slots[id].policyVersion]
  }

  /** When a message is accepted, its signer included. */
  ghost predicate Accepted(rules: Rules, s: Store, height: int64, msg: Msg) {
    match msg
    case RegisterCoreSlot(authority, operator, key, payout, settlement, metadata, policy) =>
      && authority == s.params.authority
      && rules.account(operator) && rules.economic(payout) && rules.economic(settlement) && ShortTexts(metadata)
      && policy.Some? && 0 < policy.value.rate <= 5_000 && policy.value.maxParticipants > 0
      && OperatorFree(s, operator) && FreeKey(rules, s, height, key) && s.nextSlotId < MAX_UINT64
    case ActivateCoreSlot(authority, id) =>
      && authority == s.params.authority && id in s.slots
      && var slot := s.slots[id];
      && (slot.status == Pending || slot.status == Inactive || slot.status == Suspended)
      && |s.active| < s.params.maxActive
      && rules.account(slot.operator) && rules.economic(slot.payout) && rules.economic(slot.settlement)
      && slot.activationSequence < MAX_UINT64 && height < MAX_INT64
    case InactivateCoreSlot(caller, id) =>
      && ActiveIn(s, id) && caller in {s.params.authority, s.slots[id].operator}
      && |s.active| > s.params.minActive
    case SuspendCoreSlot(authority, id) =>
      && authority in {s.params.authority, s.params.emergencyAuthority} && id in s.slots
      && s.slots[id].status != Suspended && s.slots[id].status != Removed
      && (s.slots[id].status == Active ==>
            |s.active| > 1 && (s.params.emergencyBelowMin || |s.active| > s.params.minActive))
    case RemoveCoreSlot(authority, id, _) =>
      && authority == s.params.authority && id in s.slots
      && s.slots[id].status != Active && s.slots[id].status != Removed
    case RotateConsensusKey(authority, id, key) =>
      && authority == s.params.authority && id in s.slots && s.slots[id].status != Removed
      && id !in s.rotations && FreeKey(rules, s, height, key)
    case UpdatePayoutAddress(operator, id, payout) => Configures(s, operator, id) && rules.economic(payout)
    case UpdateOperatorMetadata(operator, id, metadata) => Configures(s, operator, id) && ShortTexts(metadata)
    case UpdateSettlementAddress(operator, id, settlement) =>
      Configures(s, operator, id) && rules.economic(settlement) && settlement != s.slots[id].settlement
    case UpdateSelectionPolicy(operator, id, rate, maxParticipants) =>
      && Configures(s, operator, id) && 0 < rate <= 5_000 && maxParticipants > 0
      && id in s.policies && s.slots[id].policyVersion in s.policies[id]
      && (OpenVersion(s, id).rate != rate || OpenVersion(s, id).maxParticipants != maxParticipants)
      && (s.slots[id].lastPolicyUpdate == 0 || height >= s.slots[id].lastPolicyUpdate + s.params.policyCooldown)
      && height < MAX_INT64 && s.slots[id].policyVersion < MAX_UINT64
    case UpdateParams(authority, params) =>
      && authority == s.params.authority && params.Some? && ValidParams(rules, params.value)
      && params.value.authority == s.params.authority
      && params.value.emergencyAuthority == s.params.emergencyAuthority
      && params.value.votingPower == s.params.votingPower
    case NominateAuthority(authority, role, nominee) =>
      Holds(s.params, role, authority) && rules.economic(nominee) && nominee != authority
    case AcceptAuthority(nominee, role) =>
      && role != NoRole && role in s.nominations && s.nominations[role].nominee == nominee
      && rules.economic(nominee)
    case CancelAuthorityNomination(authority, role) => Holds(s.params, role, authority) && role in s.nominations
  }

  // ----- Lifecycle messages -----

  lemma TextsAreShort(metadata: Option<Metadata>)
    ensures ValidMetadata(metadata) <==> ShortTexts(metadata)
  {
    if metadata.Some? && ShortTexts(metadata) {
      var m := metadata.value;
      var texts := [m.moniker, m.identity, m.website, m.contact, m.details];
      assert texts[0] in texts && texts[1] in texts && texts[2] in texts && texts[3] in texts && texts[4] in texts;
    }
  }

  lemma RegistrationAccepted(rules: Rules, s: Store, height: int64, authority: string, operator: string, key: PubKey,
      payout: string, settlement: string, metadata: Option<Metadata>, policy: Option<InitialPolicy>)
    requires Inv(rules, s, height)
    ensures Register(rules, s, height, authority, operator, key, payout, settlement, metadata, policy).Success? <==>
              Accepted(rules, s, height, RegisterCoreSlot(authority, operator, key, payout, settlement, metadata,
                                                          policy))
  {
    hide Inv, ConsensusKey, ValidMetadata, ShortTexts, EnsureConsensusAvailable, FreeKey, OperatorFree, WithSlot,
      NewSlot, NextSlotId, Frames;
    TextsAreShort(metadata);
    CounterIsFresh(rules, s, height);
    OperatorIsFree(rules, s, height, operator);
    KeyIsFree(rules, s, height, key);
  }

  lemma ActivationAccepted(rules: Rules, s: Store, height: int64, authority: string, id: uint64)
    requires Inv(rules, s, height)
    ensures Activate(rules, s, height, authority, id).Success? <==>
              Accepted(rules, s, height, ActivateCoreSlot(authority, id))
  {
    hide Inv, ConsensusKey, CurrentPolicy, ValidPolicyValues, Frames, FramesPolicies;
    HardMaximum(rules, s, height);
    if id in s.slots {
      OwnKeyDecodes(rules, s, height, id);
      var slot := s.slots[id];
      if slot.activationSequence < MAX_UINT64 && height < MAX_INT64 {
        var slot' := Activated(slot, height, s.params.votingPower, slot.activationSequence + 1, height + 1);
        OpenPolicy(rules, s, height, slot');
      }
    }
  }

  lemma HardMaximum(rules: Rules, s: Store, height: int64)
    requires Inv(rules, s, height)
    ensures s.params.maxActive <= HARD_MAX_ACTIVE_CORE_SLOTS
    ensures s.params.minActive >= 1 && |s.active| >= 1 && height >= 1
  {
    hide SlotRows, ActiveIndex, OperatorIndex, ConsensusIndex, RotationRows, Histories, MostSlots;
  }

  /** A record that names a slot's current version has a valid open policy. */
  lemma OpenPolicy(rules: Rules, s: Store, height: int64, slot: CoreSlot)
    requires Inv(rules, s, height) && slot.slotId in s.slots
    requires slot.policyVersion == s.slots[slot.slotId].policyVersion
    ensures slot.slotId in s.policies && slot.policyVersion in s.policies[slot.slotId]
    ensures CurrentPolicy(s, slot) == Success(s.policies[slot.slotId][slot.policyVersion])
    ensures var p := s.policies[slot.slotId][slot.policyVersion]; ValidPolicyValues(p.rate, p.maxParticipants)
    ensures var p := s.policies[slot.slotId][slot.policyVersion]; p.version == slot.policyVersion
  {
    hide Inv, Pace;
    SlotFacts(rules, s, height, slot.slotId);
  }

  lemma InactivationAccepted(rules: Rules, s: Store, height: int64, caller: string, id: uint64)
    requires Inv(rules, s, height)
    ensures Inactivate(rules, s, height, caller, id).Success? <==>
              Accepted(rules, s, height, InactivateCoreSlot(caller, id))
  {
    hide Inv, ConsensusKey, Leave, Frames, FramesPolicies;
    if ActiveIn(s, id) {
      OwnKeyDecodes(rules, s, height, id);
      HardMaximum(rules, s, height);
      LeavesFreely(rules, s, height, s.slots[id].(status := Inactive, power := 0, updatedHeight := height));
    }
  }

  /** Leaving a status succeeds: a staged key always decodes. */
  lemma LeavesFreely(rules: Rules, s: Store, height: int64, slot: CoreSlot)
    requires Inv(rules, s, height) && slot.slotId in s.slots
    ensures Leave(rules, s, slot).Success?
  {
    hide Inv, ConsensusKey, Frames, FramesPolicies;
    OwnKeyDecodes(rules, s, height, slot.slotId);
  }

  /** A suspension of any slot; of an ACTIVE one the floors count. */
  lemma SuspendAccepted(rules: Rules, s: Store, height: int64, authority: string, id: uint64)
    requires Inv(rules, s, height)
    ensures Suspend(rules, s, height, authority, id).Success? <==>
              Accepted(rules, s, height, SuspendCoreSlot(authority, id))
  {
    hide Inv, ConsensusKey, Leave, Frames, FramesPolicies;
    if id in s.slots {
      OwnKeyDecodes(rules, s, height, id);
      LeavesFreely(rules, s, height, s.slots[id].(status := Suspended, power := 0, suspendedHeight := height,
                                                  updatedHeight := height));
    }
  }

  lemma RemovalAccepted(rules: Rules, s: Store, height: int64, authority: string, id: uint64, reason: string)
    requires Inv(rules, s, height)
    ensures Remove(rules, s, height, authority, id, reason).Success? <==>
              Accepted(rules, s, height, RemoveCoreSlot(authority, id, reason))
  {
    hide Inv, ConsensusKey, Leave, ReservedUntil, Frames, FramesPolicies;
    if id in s.slots {
      OwnKeyDecodes(rules, s, height, id);
      LeavesFreely(rules, s, height, s.slots[id].(status := Removed, power := 0, removedHeight := height,
                                                  updatedHeight := height));
    }
  }

  lemma RotationAccepted(rules: Rules, s: Store, height: int64, authority: string, id: uint64, key: PubKey)
    requires Inv(rules, s, height)
    ensures Rotate(rules, s, height, authority, id, key).Success? <==>
              Accepted(rules, s, height, RotateConsensusKey(authority, id, key))
  {
    hide Inv, ConsensusKey, ReservedUntil, EnsureConsensusAvailable, FreeKey, Frames, FramesPolicies;
    if id in s.slots { OwnKeyDecodes(rules, s, height, id); }
    KeyIsFree(rules, s, height, key);
  }

  // ----- Operator messages -----

  lemma ConfigurationAccepted(rules: Rules, s: Store, height: int64, operator: string, id: uint64, payout: string,
      metadata: Option<Metadata>, settlement: string)
    ensures UpdatePayout(rules, s, height, operator, id, payout).Success? <==>
              Accepted(rules, s, height, UpdatePayoutAddress(operator, id, payout))
    ensures UpdateMetadata(s, height, operator, id, metadata).Success? <==>
              Accepted(rules, s, height, UpdateOperatorMetadata(operator, id, metadata))
    ensures UpdateSettlement(rules, s, height, operator, id, settlement).Success? <==>
              Accepted(rules, s, height, UpdateSettlementAddress(operator, id, settlement))
  {
    hide ValidMetadata, ShortTexts, Frames, FramesPolicies;
    TextsAreShort(metadata);
  }

  lemma PolicyUpdateAccepted(rules: Rules, s: Store, height: int64, operator: string, id: uint64, rate: uint64,
      maxParticipants: uint64)
    requires Inv(rules, s, height)
    ensures UpdatePolicy(s, height, operator, id, rate, maxParticipants).Success? <==>
              Accepted(rules, s, height, UpdateSelectionPolicy(operator, id, rate, maxParticipants))
  {
    hide Inv, ValidatePolicyTransitionSeam, PolicyCooldown, CurrentPolicy, AppendVersion, Frames;
    if id in s.slots {
      var slot := s.slots[id];
      OwnKeyDecodes(rules, s, height, id);
      OpenPolicy(rules, s, height, slot);
      UpdatedBefore(rules, s, height, id);
      CooldownPassed(s.params, slot, height);
      if height < MAX_INT64 && slot.policyVersion < MAX_UINT64 && PolicyCooldown(s.params, slot, height).Success? {
        SeamIsSound(rules, s, height, id);
      }
    }
  }

  lemma UpdatedBefore(rules: Rules, s: Store, height: int64, id: uint64)
    requires Inv(rules, s, height) && id in s.slots
    ensures s.slots[id].lastPolicyUpdate >= 0
  {
    hide Inv;
    SlotFacts(rules, s, height, id);
  }

  lemma CooldownPassed(p: Params, slot: CoreSlot, height: int64)
    requires slot.lastPolicyUpdate >= 0
    ensures PolicyCooldown(p, slot, height).Success? <==>
              slot.lastPolicyUpdate == 0 || height >= slot.lastPolicyUpdate + p.policyCooldown
  {
  }

  // ----- Governance messages -----

  lemma ParamsAccepted(rules: Rules, s: Store, height: int64, authority: string, params: Option<Params>)
    requires Inv(rules, s, height)
    ensures ReplaceParams(rules, s, authority, params).Success? <==>
              Accepted(rules, s, height, UpdateParams(authority, params))
  {
    hide Inv, ValidParams;
    HardMaximum(rules, s, height);
  }

  lemma NominationAccepted(rules: Rules, s: Store, height: int64, authority: string, role: Role, nominee: string)
    ensures Nominate(rules, s, height, authority, role, nominee).Success? <==>
              Accepted(rules, s, height, NominateAuthority(authority, role, nominee))
  {
  }

  lemma AcceptanceAccepted(rules: Rules, s: Store, height: int64, nominee: string, role: Role)
    ensures Accept(rules, s, nominee, role).Success? <==>
              Accepted(rules, s, height, AcceptAuthority(nominee, role))
  {
  }

  lemma WithdrawalAccepted(rules: Rules, s: Store, height: int64, authority: string, role: Role)
    ensures CancelNomination(s, authority, role).Success? <==>
              Accepted(rules, s, height, CancelAuthorityNomination(authority, role))
  {
  }

  // ----- Any message -----

  /** In a reachable store a message is accepted exactly then. */
  lemma MessageAccepted(rules: Rules, s: Store, height: int64, msg: Msg)
    requires Inv(rules, s, height)
    ensures Handle(rules, s, height, msg).Success? <==> Accepted(rules, s, height, msg)
  {
    hide Inv, Accepted, Register, Activate, Inactivate, Suspend, Remove, Rotate, UpdatePayout, UpdateMetadata,
      UpdateSettlement, UpdatePolicy, ReplaceParams, Nominate, Accept, CancelNomination;
    match msg
    case RegisterCoreSlot(authority, operator, key, payout, settlement, metadata, policy) =>
      RegistrationAccepted(rules, s, height, authority, operator, key, payout, settlement, metadata, policy);
    case ActivateCoreSlot(authority, id) => ActivationAccepted(rules, s, height, authority, id);
    case InactivateCoreSlot(caller, id) => InactivationAccepted(rules, s, height, caller, id);
    case SuspendCoreSlot(authority, id) => SuspendAccepted(rules, s, height, authority, id);
    case RemoveCoreSlot(authority, id, reason) => RemovalAccepted(rules, s, height, authority, id, reason);
    case RotateConsensusKey(authority, id, key) => RotationAccepted(rules, s, height, authority, id, key);
    case UpdatePayoutAddress(operator, id, payout) =>
      ConfigurationAccepted(rules, s, height, operator, id, payout, None, "");
    case UpdateOperatorMetadata(operator, id, metadata) =>
      ConfigurationAccepted(rules, s, height, operator, id, "", metadata, "");
    case UpdateSettlementAddress(operator, id, settlement) =>
      ConfigurationAccepted(rules, s, height, operator, id, "", None, settlement);
    case UpdateSelectionPolicy(operator, id, rate, maxParticipants) =>
      PolicyUpdateAccepted(rules, s, height, operator, id, rate, maxParticipants);
    case UpdateParams(authority, params) => ParamsAccepted(rules, s, height, authority, params);
    case NominateAuthority(authority, role, nominee) =>
      NominationAccepted(rules, s, height, authority, role, nominee);
    case AcceptAuthority(nominee, role) => AcceptanceAccepted(rules, s, height, nominee, role);
    case CancelAuthorityNomination(authority, role) => WithdrawalAccepted(rules, s, height, authority, role);
  }

  // ----- Signers -----

  /** Who may have signed an accepted message. */
  predicate Permitted(s: Store, msg: Msg) {
    match msg
    case RegisterCoreSlot(authority, _, _, _, _, _, _) => authority == s.params.authority
    case ActivateCoreSlot(authority, _) => authority == s.params.authority
    case InactivateCoreSlot(caller, id) => id in s.slots && caller in {s.params.authority, s.slots[id].operator}
    case SuspendCoreSlot(authority, _) => authority in {s.params.authority, s.params.emergencyAuthority}
    case RemoveCoreSlot(authority, _, _) => authority == s.params.authority
    case RotateConsensusKey(authority, _, _) => authority == s.params.authority
    case UpdatePayoutAddress(operator, id, _) => id in s.slots && operator == s.slots[id].operator
    case UpdateOperatorMetadata(operator, id, _) => id in s.slots && operator == s.slots[id].operator
    case UpdateSettlementAddress(operator, id, _) => id in s.slots && operator == s.slots[id].operator
    case UpdateSelectionPolicy(operator, id, _, _) => id in s.slots && operator == s.slots[id].operator
    case UpdateParams(authority, _) => authority == s.params.authority
    case NominateAuthority(authority, role, _) => Holds(s.params, role, authority)
    case AcceptAuthority(nominee, role) => role in s.nominations && nominee == s.nominations[role].nominee
    case CancelAuthorityNomination(authority, role) => Holds(s.params, role, authority)
  }

  /** What anybody else is told: that they may not, unless what they name is not there. */
  function Refusal(s: Store, msg: Msg): Error {
    match msg
    case RegisterCoreSlot(_, _, _, _, _, _, _) => Unauthorized
    case ActivateCoreSlot(_, _) => Unauthorized
    case InactivateCoreSlot(_, id) => if id in s.slots then Unauthorized else SlotNotFound
    case SuspendCoreSlot(_, _) => Unauthorized
    case RemoveCoreSlot(_, _, _) => Unauthorized
    case RotateConsensusKey(_, _, _) => Unauthorized
    case UpdatePayoutAddress(_, id, _) => if id in s.slots then Unauthorized else SlotNotFound
    case UpdateOperatorMetadata(_, id, _) => if id in s.slots then Unauthorized else SlotNotFound
    case UpdateSettlementAddress(_, id, _) => if id in s.slots then Unauthorized else SlotNotFound
    case UpdateSelectionPolicy(_, id, _, _) => if id in s.slots then Unauthorized else SlotNotFound
    case UpdateParams(_, params) => if params.Some? then Unauthorized else InvalidParams
    case NominateAuthority(_, role, _) => if role == NoRole then InvalidAuthorityRole else Unauthorized
    case AcceptAuthority(_, role) =>
      if role == NoRole then InvalidAuthorityRole
      else if role in s.nominations then Unauthorized
      else NoPendingNomination
    case CancelAuthorityNomination(_, role) => if role == NoRole then InvalidAuthorityRole else Unauthorized
  }

  lemma StrangersRefused(rules: Rules, s: Store, height: int64, msg: Msg)
    requires !Permitted(s, msg)
    ensures Handle(rules, s, height, msg) == Failure(Refusal(s, msg))
  {
    hide ConsensusKey, EnsureConsensusAvailable, Leave, WithSlot, NextSlotId, ValidParams, ValidMetadata,
      ValidPolicyValues, ValidateActiveSlotInvariant, AdmitPolicyUpdate, NextVersion, AppendVersion, ReservedUntil,
      Frames, FramesPolicies;
  }

  /** Every accepted message was signed by someone permitted to. */
  lemma SignerPermitted(rules: Rules, s: Store, height: int64, msg: Msg)
    requires Handle(rules, s, height, msg).Success?
    ensures Permitted(s, msg)
  {
    hide Handle, Permitted, Refusal;
    if !Permitted(s, msg) { StrangersRefused(rules, s, height, msg); }
  }
}
