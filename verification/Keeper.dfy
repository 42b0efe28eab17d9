/**
 x/coreslot/keeper: the keeper itself. Each method performs the source's reads and writes
 on the module's collections in the source's order.

 Every method is proved against the function that specifies it: what it returns, and the
 collections it leaves. Where a method can fail after its first write, its contract says
 exactly when.
 */
module CoreSlotKeeper {
  import opened Machine
  import opened Ordering
  import opened CoreSlotTypes
  import opened PolicyHistory
  import opened Handlers
  import opened Walks
  import opened Invariant
  import opened Genesis
  import opened GenesisImport
  import opened GenesisExport
  import Checked
  import EndBlock
  import BlockEnd
  import ValidatorDiff

  /** What a call returned agrees with its specification, and so does what it left behind. */
  ghost predicate Outcome<T>(r: Result<T>, spec: Result<Store>, after: Store) {
    match r
    case Success(_) => spec == Success(after)
    case Failure(e) => spec == Failure(e)
  }

  ghost predicate AllStagedDecode(rules: Rules, rotations: map<uint64, Rotation>) {
    forall id: uint64 :: id in rotations ==> ConsensusKey(rules, rotations[id].newKey).Success?
  }

  predicate IsSetting(msg: Msg) {
    match msg
    case RegisterCoreSlot(_, _, _, _, _, _, _) => false
    case ActivateCoreSlot(_, _) => false
    case InactivateCoreSlot(_, _) => false
    case SuspendCoreSlot(_, _) => false
    case RemoveCoreSlot(_, _, _) => false
    case RotateConsensusKey(_, _, _) => false
    case _ => true
  }

  /** The same of a block's end, which also hands out the updates. */
  ghost predicate Ended(r: Result<seq<Update>>, spec: Result<(Store, seq<Update>)>, after: Store) {
    match r
    case Success(us) => spec == Success((after, us))
    case Failure(e) => spec == Failure(e)
  }

  /** The key a slot has staged, if any, has a consensus address. */
  predicate StagedDecodes(rules: Rules, rotations: map<uint64, Rotation>, id: uint64) {
    id in rotations ==> ConsensusKey(rules, rotations[id].newKey).Success?
  }

  /** The collections the Go keeper holds a handle to. Each assignment is one Set or Remove. */
  class Keeper {
    const rules: Rules
    var params: Params
    var slots: map<uint64, CoreSlot>
    var byOperator: map<string, uint64>
    var byConsensus: map<string, uint64>
    var reserved: map<string, Reservation>
    var rotations: map<uint64, Rotation>
    var lastApplied: map<string, Validator>
    var rewardWeights: map<uint64, RewardWeight>
    var nextSlotId: uint64
    var nominations: map<Role, Transfer>
    var policies: Policies
    var active: set<uint64>
    var starts: Starts

    /** What the collections hold, as one value. */
    function Contents(): Store
      reads this
    {
      Store(params, slots, byOperator, byConsensus, reserved, rotations, lastApplied, rewardWeights, nextSlotId,
            nominations, policies, active, starts)
    }

    constructor (rules: Rules, s: Store)
      ensures this.rules == rules && Contents() == s
    {
      this.rules := rules;
      params, nextSlotId, active := s.params, s.nextSlotId, s.active;
      slots, byOperator, byConsensus, reserved := s.slots, s.byOperator, s.byConsensus, s.reserved;
      rotations, lastApplied, rewardWeights := s.rotations, s.lastApplied, s.rewardWeights;
      nominations, policies, starts := s.nominations, s.policies, s.starts;
    }

    method RestoreSlots(s: Store)
      modifies this`slots, this`byOperator, this`byConsensus, this`active
      ensures slots == s.slots && byOperator == s.byOperator && byConsensus == s.byConsensus && active == s.active
    {
      slots, byOperator, byConsensus, active := s.slots, s.byOperator, s.byConsensus, s.active;
    }

    method RestoreKeys(s: Store)
      modifies this`reserved, this`rotations, this`lastApplied, this`rewardWeights
      ensures reserved == s.reserved && rotations == s.rotations
      ensures lastApplied == s.lastApplied && rewardWeights == s.rewardWeights
    {
      reserved, rotations, lastApplied, rewardWeights := s.reserved, s.rotations, s.lastApplied, s.rewardWeights;
    }

    method RestoreOthers(s: Store)
      modifies this`params, this`nextSlotId, this`nominations, this`policies, this`starts
      ensures params == s.params && nextSlotId == s.nextSlotId && nominations == s.nominations
      ensures policies == s.policies && starts == s.starts
    {
      params, nextSlotId, nominations, policies, starts := s.params, s.nextSlotId, s.nominations, s.policies, s.starts;
    }

    /** Back to an earlier state: what discarding the SDK's write cache does. */
    method Restore(s: Store)
      modifies this
      ensures Contents() == s
    {
      RestoreSlots(s);
      RestoreKeys(s);
      RestoreOthers(s);
    }

    // ----- keeper.go -----

    /** activeCount walks the index and counts. */
    method CountActive() returns (count: nat)
      ensures count == ActiveCount(Contents())
    {
      var ids := VisitIds(active);
      AscendingIdsCount(active);
      count := 0;
      for i := 0 to |ids|
        invariant count == i
      {
        count := count + 1;
      }
    }

    /** GetActiveSlots: the indexed rows in slot order. */
    method GetActiveSlots() returns (r: Result<seq<CoreSlot>>)
      ensures r == EndBlock.LoadActive(slots, AscendingIds(active))
    {
      var ids := VisitIds(active);
      r := ValidatorDiff.LoadRows(slots, ids);
    }

    method ReleaseIfAvailable(height: int64, key: PubKey) returns (r: Result<string>)
      modifies this
      ensures match r
              case Success(a) =>
                EnsureConsensusAvailable(rules, old(Contents()), height, key) == Success((a, Contents()))
              case Failure(e) =>
                && EnsureConsensusAvailable(rules, old(Contents()), height, key) == Failure(e)
                && Contents() == old(Contents())
    {
      var a :- ConsensusKey(rules, key);
      if a in byConsensus { return Failure(DuplicateConsensusKey); }
      if a in reserved {
        if reserved[a].until > height { return Failure(DuplicateConsensusKey); }
        reserved := reserved - {a};
      } else {
        assert reserved - {a} == reserved;
      }
      return Success(a);
    }

    method CancelRotation(id: uint64) returns (r: Result<()>)
      modifies this
      ensures Outcome(r, CancelPendingRotation(rules, old(Contents()), id), Contents())
      ensures r.Failure? ==> Contents() == old(Contents()) && !StagedDecodes(rules, old(rotations), id)
    {
      if id !in rotations { return Success(()); }
      var a :- ConsensusKey(rules, rotations[id].newKey);
      byConsensus := byConsensus - {a};
      rotations := rotations - {id};
      return Success(());
    }

    // ----- invariants.go -----

    method WriteVersion(p: Policy)
      modifies this`policies, this`starts
      ensures Contents() == WritePolicyVersion(old(Contents()), p)
    {
      policies := policies[p.slotId := Inner(policies, p.slotId)[p.version := p]];
      starts := starts[p.slotId := Inner(starts, p.slotId)[p.validFrom := p.version]];
    }

    method WriteInitialPolicy(id: uint64, validFrom: int64, input: Option<InitialPolicy>) returns (r: Result<()>)
      modifies this
      ensures r.Success? <==> input.Some? && ValidPolicyValues(input.value.rate, input.value.maxParticipants)
      ensures r.Success? ==>
                Contents() == WritePolicyVersion(old(Contents()), Policy(id, INITIAL_POLICY_VERSION, input.value.rate,
                                                                   input.value.maxParticipants, validFrom, 0))
      ensures r.Failure? ==> Contents() == old(Contents())
    {
      if input.None? { return Failure(InvalidSelectionPolicy); }
      if !ValidPolicyValues(input.value.rate, input.value.maxParticipants) { return Failure(InvalidSelectionPolicy); }
      WriteVersion(Policy(id, INITIAL_POLICY_VERSION, input.value.rate, input.value.maxParticipants, validFrom, 0));
      return Success(());
    }

    /** The policy in force at a height, through the seek index. */
    method PolicyAtHeight(id: uint64, height: int64) returns (r: Result<Policy>)
      ensures r == SelectionPolicyAtHeight(Contents(), id, height)
    {
      var index, rows := Inner(starts, id), Inner(policies, id);
      var seek := SeekBack(index, height);
      if seek.None? { return Failure(SelectionPolicyNotFound); }
      var version := index[seek.value];
      if version !in rows { return Failure(InvalidSelectionPolicy); }
      var policy := rows[version];
      if policy.slotId != id || policy.version != version || policy.validFrom != seek.value {
        return Failure(InvalidSelectionPolicy);
      }
      if policy.validFrom > height { return Failure(InvalidSelectionPolicy); }
      if policy.validUntil != 0 && height >= policy.validUntil { return Failure(InvalidSelectionPolicy); }
      return Success(policy);
    }

    method CheckSeam(slot: CoreSlot, current: Policy, height: int64, effective: int64, next: uint64)
          returns (r: Result<()>)
      ensures r == ValidatePolicyTransitionSeam(Contents(), slot, current, height, effective, next)
    {
      if !ValidPolicyValues(current.rate, current.maxParticipants) { return Failure(InvalidSelectionPolicy); }
      var resolved := PolicyAtHeight(slot.slotId, height);
      if resolved.Failure? { return Failure(InvalidSelectionPolicy); }
      if resolved.value.version != current.version { return Failure(InvalidSelectionPolicy); }
      if next in Inner(policies, slot.slotId) { return Failure(InvalidSelectionPolicy); }
      if effective in Inner(starts, slot.slotId) { return Failure(InvalidSelectionPolicy); }
      return Success(());
    }

    // ----- msg_server.go -----

    /** Every refusal that does not depend on the id or the key. */
    method CheckRegistration(authority: string, operator: string, payout: string, settlement: string,
        metadata: Option<Metadata>, policy: Option<InitialPolicy>) returns (r: Result<()>)
      ensures r == AdmitRegistration(rules, Contents(), authority, operator, payout, settlement, metadata, policy)
    {
      hide ValidMetadata, ValidPolicyValues;
      if authority != params.authority { return Failure(Unauthorized); }
      if !rules.account(operator) { return Failure(InvalidAddress); }
      if !rules.economic(payout) { return Failure(InvalidAddress); }
      if !rules.economic(settlement) { return Failure(InvalidAddress); }
      if !ValidMetadata(metadata) { return Failure(InvalidMetadata); }
      if policy.None? { return Failure(InvalidSelectionPolicy); }
      if !ValidPolicyValues(policy.value.rate, policy.value.maxParticipants) { return Failure(InvalidSelectionPolicy); }
      if operator in byOperator { return Failure(DuplicateOperator); }
      return Success(());
    }

    /** A registration's rows, all but the counter. */
    method WriteSlot(height: int64, slot: CoreSlot, a: string, policy: InitialPolicy)
      requires ValidPolicyValues(policy.rate, policy.maxParticipants)
      modifies this
      ensures Contents() == WithSlot(old(Contents()), height, slot, a, policy)
    {
      hide ValidPolicyValues, NewRewardWeight, Inner, WritePolicyVersion;
      slots := slots[slot.slotId := slot];
      var written := WriteInitialPolicy(slot.slotId, height, Some(policy));
      assert written.Success?;
      byOperator := byOperator[slot.operator := slot.slotId];
      byConsensus := byConsensus[a := slot.slotId];
      rewardWeights := rewardWeights[slot.slotId := NewRewardWeight(slot.slotId, height)];
    }

    method RegisterCoreSlot(height: int64, authority: string, operator: string, key: PubKey, payout: string,
        settlement: string, metadata: Option<Metadata>, policy: Option<InitialPolicy>)
        returns (r: Result<uint64>)
      modifies this
      ensures Outcome(r, Register(rules, old(Contents()), height, authority, operator, key, payout, settlement,
                                  metadata, policy), Contents())
      ensures r.Success? ==> r.value == old(nextSlotId)
      ensures r.Failure? && Contents() != old(Contents()) <==>
                ExhaustsIds(rules, old(Contents()), height,
                            Msg.RegisterCoreSlot(authority, operator, key, payout, settlement, metadata, policy))
    {
      hide ConsensusKey, ValidPolicyValues, Frames, EnsureConsensusAvailable, WithSlot, AdmitRegistration;
      var _ :- CheckRegistration(authority, operator, payout, settlement, metadata, policy);
      AdmittedPolicy(rules, Contents(), authority, operator, payout, settlement, metadata, policy);
      var id :- NextSlotId(Contents());
      var a :- ReleaseIfAvailable(height, key);
      ghost var released := Contents();
      var slot := NewSlot(id, height, operator, key, payout, settlement, metadata);
      WriteSlot(height, slot, a, policy.value);
      WithSlotMeans(released, height, slot, a, policy.value);
      var next := Checked.AddUint64(id, 1);
      if next.Fault? { return Failure(InvalidTransition); }
      nextSlotId := next.value;
      return Success(id);
    }

    /** Every refusal of an activation, and the record it would write. */
    method PrepareActivation(height: int64, authority: string, id: uint64) returns (r: Result<CoreSlot>)
      ensures match r
              case Success(slot) =>
                Activate(rules, Contents(), height, authority, id) ==
                Success(Contents().(slots := slots[slot.slotId := slot], active := active + {slot.slotId}))
              case Failure(e) => Activate(rules, Contents(), height, authority, id) == Failure(e)
    {
      hide ValidateActiveSlotInvariant, ConsensusKey, Frames, FramesPolicies, Checked.AddUint64, Checked.AddInt64,
        Activated, ActiveCount, GetSlot;
      if authority != params.authority { return Failure(Unauthorized); }
      var slot :- GetSlot(Contents(), id);
      if slot.status != Pending && slot.status != Inactive && slot.status != Suspended {
        return Failure(InvalidTransition);
      }
      var count := CountActive();
      if count >= params.maxActive { return Failure(MaxActiveSlots); }
      if count >= HARD_MAX_ACTIVE_CORE_SLOTS { return Failure(MaxActiveSlots); }
      var _ :- ConsensusKey(rules, slot.key);
      var sequence := Checked.AddUint64(slot.activationSequence, 1);
      if sequence.Fault? { return Failure(InvalidTransition); }
      var effective := Checked.AddInt64(height, 1);
      if effective.Fault? { return Failure(InvalidTransition); }
      slot := Activated(slot, height, params.votingPower, sequence.value, effective.value);
      var _ :- ValidateActiveSlotInvariant(rules, Contents(), slot);
      return Success(slot);
    }

    method ActivateCoreSlot(height: int64, authority: string, id: uint64) returns (r: Result<()>)
      modifies this
      ensures Outcome(r, Activate(rules, old(Contents()), height, authority, id), Contents())
      ensures r.Failure? ==> Contents() == old(Contents())
    {
      hide Activate;
      var slot :- PrepareActivation(height, authority, id);
      slots := slots[slot.slotId := slot];
      active := active + {slot.slotId};
      return Success(());
    }

    /** The writes that take a slot out of its status: record, index, staged rotation. */
    method LeaveStatus(slot: CoreSlot) returns (r: Result<()>)
      modifies this
      ensures Outcome(r, Leave(rules, old(Contents()), slot), Contents())
      ensures r.Failure? ==> !StagedDecodes(rules, old(rotations), slot.slotId)
    {
      slots := slots[slot.slotId := slot];
      active := active - {slot.slotId};
      r := CancelRotation(slot.slotId);
    }

    method InactivateCoreSlot(height: int64, caller: string, id: uint64) returns (r: Result<()>)
      modifies this
      ensures Outcome(r, Inactivate(rules, old(Contents()), height, caller, id), Contents())
      ensures r.Failure? && Contents() != old(Contents()) ==>
                id in old(slots) && !StagedDecodes(rules, old(rotations), old(slots)[id].slotId)
    {
      hide Leave;
      var slot :- GetSlot(Contents(), id);
      if caller != params.authority && caller != slot.operator { return Failure(Unauthorized); }
      if slot.status != Active { return Failure(InvalidTransition); }
      var count := CountActive();
      if count <= params.minActive { return Failure(MinActiveSlots); }
      var _ :- ConsensusKey(rules, slot.key);
      slot := slot.(status := Inactive, power := 0, updatedHeight := height);
      r := LeaveStatus(slot);
    }

    method SuspendCoreSlot(height: int64, authority: string, id: uint64) returns (r: Result<()>)
      modifies this
      ensures Outcome(r, Suspend(rules, old(Contents()), height, authority, id), Contents())
      ensures r.Failure? && Contents() != old(Contents()) ==>
                id in old(slots) && !StagedDecodes(rules, old(rotations), old(slots)[id].slotId)
    {
      hide Leave;
      if authority != params.authority && authority != params.emergencyAuthority {
        return Failure(Unauthorized);
      }
      var slot :- GetSlot(Contents(), id);
      if slot.status == Removed || slot.status == Suspended { return Failure(InvalidTransition); }
      if slot.status == Active {
        var count := CountActive();
        if count <= 1 { return Failure(CannotRemoveLastValidator); }
        if !params.emergencyBelowMin && count <= params.minActive { return Failure(Error.MinActiveSlots); }
      }
      var _ :- ConsensusKey(rules, slot.key);
      slot := slot.(status := Suspended, power := 0, suspendedHeight := height, updatedHeight := height);
      r := LeaveStatus(slot);
    }

    method RemoveCoreSlot(height: int64, authority: string, id: uint64, reason: string) returns (r: Result<()>)
      modifies this
      ensures Outcome(r, Remove(rules, old(Contents()), height, authority, id, reason), Contents())
      ensures r.Failure? && Contents() != old(Contents()) ==>
                id in old(slots) && !StagedDecodes(rules, old(rotations), old(slots)[id].slotId)
    {
      hide Leave, ReservedUntil;
      var p := params;
      if authority != p.authority { return Failure(Unauthorized); }
      var slot :- GetSlot(Contents(), id);
      if slot.status == Active || slot.status == Removed { return Failure(InvalidTransition); }
      var a :- ConsensusKey(rules, slot.key);
      slot := slot.(status := Removed, power := 0, removedHeight := height, updatedHeight := height);
      var _ :- LeaveStatus(slot);
      byOperator := byOperator - {slot.operator};
      byConsensus := byConsensus - {a};
      var until := ReservedUntil(height, p.reuseLockout);
      reserved := reserved[a := Reservation(a, slot.slotId, until, Given(reason))];
      return Success(());
    }

    /** Every refusal of a rotation but the new key's, and the address it would release. */
    method CheckRotation(authority: string, id: uint64) returns (r: Result<(CoreSlot, string)>)
      ensures r == AdmitRotation(rules, Contents(), authority, id)
    {
      hide ConsensusKey;
      if authority != params.authority { return Failure(Unauthorized); }
      var slot :- GetSlot(Contents(), id);
      if slot.status == Removed { return Failure(InvalidTransition); }
      if slot.slotId in rotations { return Failure(PendingRotationExists); }
      var released :- ConsensusKey(rules, slot.key);
      return Success((slot, released));
    }

    method RotateConsensusKey(height: int64, authority: string, id: uint64, key: PubKey) returns (r: Result<()>)
      modifies this
      ensures Outcome(r, Rotate(rules, old(Contents()), height, authority, id, key), Contents())
      ensures r.Failure? ==> Contents() == old(Contents())
    {
      hide ConsensusKey, ReservedUntil, Frames, FramesPolicies, EnsureConsensusAvailable, AdmitRotation;
      var p := params;
      var admitted :- CheckRotation(authority, id);
      var (slot, released) := admitted;
      var a :- ReleaseIfAvailable(height, key);
      byConsensus := byConsensus[a := slot.slotId];
      if slot.status == Active {
        var effective := WrapInt64(height + Int64OfUint64(p.rotationDelay));
        rotations := rotations[slot.slotId := Rotation(slot.slotId, slot.key, key, height, effective)];
      } else {
        ReplaceKey(height, slot, key, released, p.reuseLockout);
      }
      return Success(());
    }

    /** The key replaced at once: the old one released and reserved. */
    method ReplaceKey(height: int64, slot: CoreSlot, key: PubKey, released: string, lockout: uint64)
      modifies this`byConsensus, this`slots, this`reserved
      ensures byConsensus == old(byConsensus) - {released}
      ensures slots == old(slots)[slot.slotId := slot.(key := key, updatedHeight := height)]
      ensures reserved == old(reserved)[released := Reservation(released, slot.slotId, ReservedUntil(height, lockout),
                                                                KeyRotation)]
    {
      hide ReservedUntil;
      byConsensus := byConsensus - {released};
      slots := slots[slot.slotId := slot.(key := key, updatedHeight := height)];
      var until := ReservedUntil(height, lockout);
      reserved := reserved[released := Reservation(released, slot.slotId, until, KeyRotation)];
    }

    method UpdatePayoutAddress(height: int64, operator: string, id: uint64, payout: string) returns (r: Result<()>)
      modifies this
      ensures Outcome(r, UpdatePayout(rules, old(Contents()), height, operator, id, payout), Contents())
      ensures r.Failure? ==> Contents() == old(Contents())
    {
      var slot :- OwnSlot(Contents(), operator, id);
      if !rules.economic(payout) { return Failure(InvalidAddress); }
      slot := slot.(payout := payout, updatedHeight := height);
      slots := slots[slot.slotId := slot];
      return Success(());
    }

    method UpdateOperatorMetadata(height: int64, operator: string, id: uint64, metadata: Option<Metadata>)
          returns (r: Result<()>)
      modifies this
      ensures Outcome(r, UpdateMetadata(old(Contents()), height, operator, id, metadata), Contents())
      ensures r.Failure? ==> Contents() == old(Contents())
    {
      hide ValidMetadata;
      var slot :- OwnSlot(Contents(), operator, id);
      if !ValidMetadata(metadata) { return Failure(InvalidMetadata); }
      slot := slot.(metadata := metadata, updatedHeight := height);
      slots := slots[slot.slotId := slot];
      return Success(());
    }

    method UpdateSettlementAddress(height: int64, operator: string, id: uint64, settlement: string)
          returns (r: Result<()>)
      modifies this
      ensures Outcome(r, UpdateSettlement(rules, old(Contents()), height, operator, id, settlement), Contents())
      ensures r.Failure? ==> Contents() == old(Contents())
    {
      var slot :- OwnSlot(Contents(), operator, id);
      if settlement == slot.settlement { return Failure(NoOpUpdate); }
      if !rules.economic(settlement) { return Failure(InvalidAddress); }
      slot := slot.(settlement := settlement, updatedHeight := height);
      slots := slots[slot.slotId := slot];
      return Success(());
    }

    /** The version an update closes, or why it is refused. */
    method CheckPolicyUpdate(slot: CoreSlot, height: int64, rate: uint64, maxParticipants: uint64)
      returns (r: Result<Policy>)
      ensures r == AdmitPolicyUpdate(Contents(), slot, height, rate, maxParticipants)
      ensures r.Success? ==> r.value.slotId == slot.slotId
    {
      hide ValidPolicyValues, PolicyCooldown, Inner;
      if !ValidPolicyValues(rate, maxParticipants) { return Failure(InvalidSelectionPolicy); }
      var current :- CurrentPolicy(Contents(), slot);
      if current.rate == rate && current.maxParticipants == maxParticipants { return Failure(NoOpUpdate); }
      var _ :- PolicyCooldown(params, slot, height);
      return Success(current);
    }

    /** The version an update appends, or the conflict it meets. */
    method PrepareVersion(slot: CoreSlot, current: Policy, height: int64, rate: uint64, maxParticipants: uint64)
      returns (r: Result<Policy>)
      ensures r == NextVersion(Contents(), slot, current, height, rate, maxParticipants)
    {
      hide ValidatePolicyTransitionSeam;
      var effective := Checked.AddInt64(height, 1);
      if effective.Fault? { return Failure(InvalidSelectionPolicy); }
      var next := Checked.AddUint64(current.version, 1);
      if next.Fault? { return Failure(InvalidSelectionPolicy); }
      var _ :- CheckSeam(slot, current, height, effective.value, next.value);
      return Success(Policy(slot.slotId, next.value, rate, maxParticipants, effective.value, 0));
    }

    method UpdateSelectionPolicy(height: int64, operator: string, id: uint64, rate: uint64, maxParticipants: uint64)
      returns (r: Result<uint64>)
      modifies this
      ensures Outcome(r, UpdatePolicy(old(Contents()), height, operator, id, rate, maxParticipants), Contents())
      ensures r.Failure? ==> Contents() == old(Contents())
    {
      hide OwnSlot, AdmitPolicyUpdate, NextVersion, Frames, Inner;
      var slot :- OwnSlot(Contents(), operator, id);
      var current :- CheckPolicyUpdate(slot, height, rate, maxParticipants);
      var next :- PrepareVersion(slot, current, height, rate, maxParticipants);
      NextNames(Contents(), slot, current, height, rate, maxParticipants);
      var closed := current.(validUntil := next.validFrom);
      policies := policies[closed.slotId := Inner(policies, closed.slotId)[closed.version := closed]];
      WriteVersion(next);
      slot := slot.(policyVersion := next.version);
      slot := slot.(lastPolicyUpdate := height);
      slot := slot.(updatedHeight := height);
      slots := slots[slot.slotId := slot];
      return Success(next.version);
    }

    method UpdateParams(authority: string, proposed: Option<Params>) returns (r: Result<()>)
      modifies this
      ensures Outcome(r, ReplaceParams(rules, old(Contents()), authority, proposed), Contents())
      ensures r.Failure? ==> Contents() == old(Contents())
    {
      hide ValidParams;
      if proposed.None? { return Failure(InvalidParams); }
      if authority != params.authority { return Failure(Unauthorized); }
      if proposed.value.authority != params.authority { return Failure(InvalidParams); }
      if proposed.value.emergencyAuthority != params.emergencyAuthority { return Failure(InvalidParams); }
      if !ValidParams(rules, proposed.value) { return Failure(InvalidParams); }
      var count := CountActive();
      if count > 0 && proposed.value.votingPower != params.votingPower { return Failure(InvalidParams); }
      params := proposed.value;
      return Success(());
    }

    // ----- authority.go -----

    method NominateAuthority(height: int64, authority: string, role: Role, nominee: string) returns (r: Result<()>)
      modifies this
      ensures Outcome(r, Nominate(rules, old(Contents()), height, authority, role, nominee), Contents())
      ensures r.Failure? ==> Contents() == old(Contents())
    {
      if role == NoRole { return Failure(InvalidAuthorityRole); }
      if authority != CurrentHolder(params, role) { return Failure(Unauthorized); }
      if !rules.economic(nominee) { return Failure(InvalidAddress); }
      if nominee == CurrentHolder(params, role) { return Failure(InvalidAddress); }
      nominations := nominations[role := Transfer(nominee, height)];
      return Success(());
    }

    method AcceptAuthority(nominee: string, role: Role) returns (r: Result<()>)
      modifies this
      ensures Outcome(r, Accept(rules, old(Contents()), nominee, role), Contents())
      ensures r.Failure? ==> Contents() == old(Contents())
    {
      if role == NoRole { return Failure(InvalidAuthorityRole); }
      if role !in nominations { return Failure(NoPendingNomination); }
      if nominee != nominations[role].nominee { return Failure(Unauthorized); }
      if !rules.economic(nominee) { return Failure(InvalidAddress); }
      params := SetHolder(params, role, nominee);
      nominations := nominations - {role};
      return Success(());
    }

    method CancelAuthorityNomination(authority: string, role: Role) returns (r: Result<()>)
      modifies this
      ensures Outcome(r, CancelNomination(old(Contents()), authority, role), Contents())
      ensures r.Failure? ==> Contents() == old(Contents())
    {
      if role == NoRole { return Failure(InvalidAuthorityRole); }
      if authority != CurrentHolder(params, role) { return Failure(Unauthorized); }
      if role !in nominations { return Failure(NoPendingNomination); }
      nominations := nominations - {role};
      return Success(());
    }

    /**
     One message, straight to its handler and without the SDK's cache. From a reachable store
     a refusal leaves writes behind if and only if it is the registration that no id is left for.
     */
    method Handle(height: int64, msg: Msg) returns (r: Result<()>)
      modifies this
      ensures Outcome(r, Handlers.Handle(rules, old(Contents()), height, msg), Contents())
      ensures Inv(rules, old(Contents()), height) ==>
                (r.Failure? && Contents() != old(Contents()) <==> ExhaustsIds(rules, old(Contents()), height, msg))
    {
      hide Inv, Register, Activate, Inactivate, Suspend, Remove, Rotate, UpdatePayout, UpdateMetadata, UpdateSettlement,
        UpdatePolicy, ReplaceParams, Nominate, Accept, CancelNomination, AllStagedDecode, AdmitRegistration,
        EnsureConsensusAvailable, NextSlotId;
      if Inv(rules, Contents(), height) { StagedKeysDecode(rules, Contents(), height); }
      match msg
      case RegisterCoreSlot(authority, operator, key, payout, settlement, metadata, policy) =>
        var _ :- RegisterCoreSlot(height, authority, operator, key, payout, settlement, metadata, policy);
        r := Success(());
      case ActivateCoreSlot(authority, id) => r := ActivateCoreSlot(height, authority, id);
      case RotateConsensusKey(authority, id, key) => r := RotateConsensusKey(height, authority, id, key);
      case InactivateCoreSlot(_, _) => r := HandleDeparture(height, msg);
      case SuspendCoreSlot(_, _) => r := HandleDeparture(height, msg);
      case RemoveCoreSlot(_, _, _) => r := HandleDeparture(height, msg);
      case _ => r := HandleSetting(height, msg);
    }

    /** The messages that take a slot out of its status: writes stay only where a staged key does not decode. */
    method HandleDeparture(height: int64, msg: Msg) returns (r: Result<()>)
      requires msg.InactivateCoreSlot? || msg.SuspendCoreSlot? || msg.RemoveCoreSlot?
      modifies this
      ensures Outcome(r, Handlers.Handle(rules, old(Contents()), height, msg), Contents())
      ensures r.Failure? && Contents() != old(Contents()) ==> !AllStagedDecode(rules, old(rotations))
    {
      hide Inactivate, Suspend, Remove, ConsensusKey;
      match msg
      case InactivateCoreSlot(caller, id) => r := InactivateCoreSlot(height, caller, id);
      case SuspendCoreSlot(authority, id) => r := SuspendCoreSlot(height, authority, id);
      case RemoveCoreSlot(authority, id, reason) => r := RemoveCoreSlot(height, authority, id, reason);
    }

    /** The messages that move no slot between statuses and no key: a refusal leaves nothing behind. */
    method HandleSetting(height: int64, msg: Msg) returns (r: Result<()>)
      requires IsSetting(msg)
      modifies this
      ensures Outcome(r, Handlers.Handle(rules, old(Contents()), height, msg), Contents())
      ensures r.Failure? ==> Contents() == old(Contents())
    {
      hide UpdatePayout, UpdateMetadata, UpdateSettlement, UpdatePolicy, ReplaceParams, Nominate, Accept,
        CancelNomination;
      match msg
      case UpdatePayoutAddress(operator, id, payout) => r := UpdatePayoutAddress(height, operator, id, payout);
      case UpdateOperatorMetadata(operator, id, metadata) =>
        r := UpdateOperatorMetadata(height, operator, id, metadata);
      case UpdateSettlementAddress(operator, id, settlement) =>
        r := UpdateSettlementAddress(height, operator, id, settlement);
      case UpdateSelectionPolicy(operator, id, rate, maxParticipants) =>
        var _ :- UpdateSelectionPolicy(height, operator, id, rate, maxParticipants);
        r := Success(());
      case UpdateParams(authority, proposed) => r := UpdateParams(authority, proposed);
      case NominateAuthority(authority, role, nominee) => r := NominateAuthority(height, authority, role, nominee);
      case AcceptAuthority(nominee, role) => r := AcceptAuthority(nominee, role);
      case CancelAuthorityNomination(authority, role) => r := CancelAuthorityNomination(authority, role);
    }

    /** A transaction: the SDK discards the cached writes of a refused message. */
    method Deliver(height: int64, msg: Msg) returns (r: Result<()>)
      modifies this
      ensures Contents() == Handlers.Deliver(rules, old(Contents()), height, msg)
      ensures r.Failure? <==> Handlers.Handle(rules, old(Contents()), height, msg).Failure?
      ensures Inv(rules, old(Contents()), height) ==> Inv(rules, Contents(), height)
    {
      hide Handlers.Handle, Inv;
      var before := Contents();
      r := Handle(height, msg);
      if r.Failure? { Restore(before); }
      if Inv(rules, before, height) { MessageKeeps(rules, before, height, msg); }
    }

    // ----- endblock.go -----

    method DropStale(rotation: Rotation) returns (r: Result<()>)
      modifies this
      ensures Outcome(r, EndBlock.DropStaleRotation(rules, old(Contents()), rotation), Contents())
    {
      hide ConsensusKey;
      var _ :- ConsensusKey(rules, rotation.oldKey);
      var staged :- ConsensusKey(rules, rotation.newKey);
      byConsensus := byConsensus - {staged};
      rotations := rotations - {rotation.slotId};
      return Success(());
    }

    method ApplyDue(height: int64, rotation: Rotation) returns (r: Result<()>)
      modifies this
      ensures Outcome(r, EndBlock.ApplyRotation(rules, old(Contents()), height, rotation), Contents())
    {
      hide ConsensusKey, ReservedUntil, EndBlock.DropStaleRotation, Frames, FramesPolicies;
      if rotation.slotId !in slots { return Failure(InvalidTransition); }
      var slot := slots[rotation.slotId];
      if slot.status != Active {
        r := DropStale(rotation);
        return;
      }
      var released :- ConsensusKey(rules, rotation.oldKey);
      var _ :- ConsensusKey(rules, rotation.newKey);
      ReplaceKey(height, slot, rotation.newKey, released, params.reuseLockout);
      rotations := rotations - {rotation.slotId};
      return Success(());
    }

    /**
     Applies the due rotations and emits the validator updates, straight to the store. Go's sort
     leaves rotations that name one slot in any order; in a reachable store no two do.
     */
    method RunEndBlock(height: int64) returns (r: Result<seq<Update>>)
      modifies this
      ensures exists due :: ValidatorDiff.DueInOrder(old(rotations), height, due)
                            && Ended(r, EndBlock.RunOver(rules, old(Contents()), height, due), Contents())
      ensures ValidatorDiff.RotationsKeyed(old(rotations)) ==>
                Ended(r, EndBlock.Run(rules, old(Contents()), height), Contents())
    {
      hide EndBlock.ApplyRotation, EndBlock.DueRotations, EndBlock.DiffAndPersist, Frames, FramesPolicies,
        ValidatorDiff.DueInOrder;
      var due := ValidatorDiff.CollectDue(rotations, height);
      ghost var spec := EndBlock.ApplyRotations(rules, Contents(), height, due);
      for i := 0 to |due|
        invariant spec == EndBlock.ApplyRotations(rules, Contents(), height, due[i..])
      {
        assert due[i..][0] == due[i] && due[i..][1..] == due[i + 1..];
        var applied := ApplyDue(height, due[i]);
        if applied.Failure? {
          assert Ended(Failure(applied.error), EndBlock.RunOver(rules, old(Contents()), height, due), Contents());
          return Failure(applied.error);
        }
      }
      r := DiffAndPersist();
      assert Ended(r, EndBlock.RunOver(rules, old(Contents()), height, due), Contents());
    }

    /** The difference to the last applied set, and that set replaced. */
    method DiffAndPersist() returns (r: Result<seq<Update>>)
      modifies this
      ensures match r
              case Success(us) => EndBlock.DiffAndPersist(rules, old(Contents())) == Success((Contents(), us))
              case Failure(e) =>
                EndBlock.DiffAndPersist(rules, old(Contents())) == Failure(e) && Contents() == old(Contents())
    {
      hide EndBlock.Updates, EndBlock.Desired, EndBlock.LoadActive, EndBlock.Decodable, ValidatorDiff.Gathered,
        ValidatorDiff.KeysDecode;
      var rows :- GetActiveSlots();
      var desired :- ValidatorDiff.DesiredValidators(rules, rows);
      ValidatorDiff.DesiredDecodes(rules, rows);
      var last := lastApplied;
      var gathered :- ValidatorDiff.GatherUpdates(rules, last, desired);
      var updates := ValidatorDiff.SortedUpdates(last, desired, gathered);
      assert updates.Success?;
      ClearApplied();
      SetApplied(desired);
      return updates;
    }

    method ClearApplied()
      modifies this
      ensures Contents() == old(Contents()).(lastApplied := map[])
    {
      var rest := lastApplied.Keys;
      while rest != {}
        invariant lastApplied.Keys == rest && Contents() == old(Contents()).(lastApplied := lastApplied)
        decreases |rest|
      {
        var key :| key in rest;
        lastApplied := lastApplied - {key};
        rest := rest - {key};
      }
    }

    method SetApplied(desired: map<string, Validator>)
      requires lastApplied == map[]
      modifies this
      ensures Contents() == old(Contents()).(lastApplied := desired)
    {
      hide ValidatorDiff.Without;
      var rest := desired.Keys;
      ValidatorDiff.WithoutEnds(desired);
      while rest != {}
        invariant rest <= desired.Keys
        invariant Contents() == old(Contents()).(lastApplied := ValidatorDiff.Without(desired, rest))
        decreases |rest|
      {
        var key :| key in rest;
        ValidatorDiff.WithoutOneLess(desired, rest, key);
        lastApplied := lastApplied[key := desired[key]];
        rest := rest - {key};
      }
    }

    /**
     The end of a block: everything or nothing. From a reachable Contents() it is everything,
     and the updates are the ones that take CometBFT to the ACTIVE slots.
     */
    method RunBlockEnd(height: int64) returns (r: Result<seq<Update>>)
      modifies this
      ensures r.Failure? ==> Contents() == old(Contents())
      ensures Inv(rules, old(Contents()), height) ==>
                && r.Success? && EndBlock.Run(rules, old(Contents()), height) == Success((Contents(), r.value))
                && Inv(rules, Contents(), height)
                && (EndBlock.AcceptableUpdates(rules, EndBlock.Powers(old(lastApplied)), r.value) <==>
                      |old(active)| * old(params).votingPower <= EndBlock.MAX_TOTAL_VOTING_POWER)
                && BlockEnd.IsActiveSet(rules, slots, EndBlock.Powers(lastApplied))
                && EndBlock.ApplyUpdates(rules, EndBlock.Powers(old(lastApplied)), r.value) ==
                   EndBlock.Powers(lastApplied)
    {
      hide Inv, EndBlock.Run, BlockEnd.IsActiveSet, EndBlock.AcceptableUpdates;
      var before := Contents();
      if Inv(rules, before, height) {
        RotationsAreKeyed(rules, before, height);
        BlockEnd.BlockEnds(rules, before, height);
      }
      r := RunEndBlock(height);
      if r.Failure? { Restore(before); }
    }

    // ----- genesis.go -----

    /**
     Imports a document into an empty Contents(). Every check comes before the first write but for
     the difference itself, which refuses two ACTIVE slots with one address.
     */
    method InitGenesis(g: GenesisState, contextHeight: int64) returns (r: Result<seq<Update>>)
      requires Blank(Contents())
      modifies this
      ensures match r
              case Success(us) => GenesisImport.InitGenesis(rules, g, contextHeight) == Success((Contents(), us))
              case Failure(e) => GenesisImport.InitGenesis(rules, g, contextHeight) == Failure(e)
      ensures r.Failure? && Contents() != old(Contents()) <==>
                Importable(rules, g, contextHeight) && !ActiveAddressesDistinct(rules, g.slots)
    {
      hide Admissible, HeightsOk, AddressesOk, Consistent, Rows, ActiveAddressesDistinct, EndBlock.DiffAndPersist,
        Blank;
      var valid := Genesis.Validate(rules, g);
      if !valid { return Failure(InvalidGenesis); }
      var initial := EffectiveInitialHeight(contextHeight);
      if initial.None? { return Failure(InvalidGenesis); }
      var pinned := ValidateInitialHeight(g, initial.value);
      if !pinned { return Failure(InvalidGenesis); }
      var admitted := ValidateEconomicAddresses(rules, g);
      if !admitted { return Failure(InvalidAddress); }
      AdmissibleParts(rules, g);
      ghost var before := Contents();
      WriteRows(g);
      if Importable(rules, g, contextHeight) { RowsAreNew(rules, g, before); }
      ImportSucceeds(rules, g, contextHeight);
      DocumentDiffs(rules, g, contextHeight);
      var us :- DiffAndPersist();
      RowsNameThemselves(rules, g);
      var consistent := CheckConsistency(|us|);
      assert consistent.Success?;
      return Success(us);
    }

    /** The writes of the import, collection by collection. */
    method WriteRows(g: GenesisState)
      requires Blank(Contents()) && Admissible(rules, g)
      modifies this
      ensures Contents() == Rows(rules, g)
    {
      hide Admissible, Collect, PoliciesOf, StartsOf, ActiveIds, SlotPairs, OperatorPairs, ConsensusPairs,
        RotationPairs, ReservedPairs, WeightPairs, NominationPairs;
      AdmissibleParts(rules, g);
      params := g.params.value;
      WriteNominations(g.nominations);
      WriteSlots(g);
      WritePolicies(g.policies);
      WriteOthers(g);
    }

    method WriteOthers(g: GenesisState)
      requires rotations == map[] && reserved == map[] && rewardWeights == map[]
      modifies this`rotations, this`reserved, this`rewardWeights, this`nextSlotId
      ensures rotations == Collect(RotationPairs(g.rotations)) && reserved == Collect(ReservedPairs(g.reserved))
      ensures rewardWeights == Collect(WeightPairs(g.rewardWeights)) && nextSlotId == g.nextSlotId
    {
      hide Collect, RotationPairs, ReservedPairs, WeightPairs;
      WriteRotations(g.rotations);
      WriteReserved(g.reserved);
      WriteWeights(g.rewardWeights);
      nextSlotId := g.nextSlotId;
    }

    method WriteNominations(es: seq<Entry>)
      requires nominations == map[]
      modifies this`nominations
      ensures nominations == Collect(NominationPairs(es))
    {
      hide Collect;
      NothingWritten();
      for i := 0 to |es|
        invariant nominations == Collect(NominationPairs(es[..i]))
      {
        CollectNext(NominationPairs(es[..i + 1]), NominationPairs(es[..i]));
        nominations := nominations[es[i].role := es[i].transfer];
      }
      assert es[..|es|] == es;
    }

    method WriteSlots(g: GenesisState)
      requires Admissible(rules, g)
      requires slots == map[] && byOperator == map[] && byConsensus == map[] && active == {}
      modifies this`slots, this`byOperator, this`byConsensus, this`active
      ensures slots == Collect(SlotPairs(g.slots)) && byOperator == Collect(OperatorPairs(g.slots))
      ensures byConsensus == Collect(ConsensusPairs(rules, g.slots)) && active == ActiveIds(g.slots)
    {
      hide Admissible, Collect, ActiveIds, ConsensusKey, Address, SlotPairs, OperatorPairs, ConsensusPairs;
      NothingWritten();
      NoSlotPairs(rules);
      for i := 0 to |g.slots|
        invariant slots == Collect(SlotPairs(g.slots[..i])) && byOperator == Collect(OperatorPairs(g.slots[..i]))
        invariant byConsensus == Collect(ConsensusPairs(rules, g.slots[..i])) && active == ActiveIds(g.slots[..i])
      {
        var slot := g.slots[i];
        SlotDecodes(rules, g, i);
        var key := ConsensusKey(rules, slot.key);
        SlotRowsNext(rules, g.slots, i);
        slots := slots[slot.slotId := slot];
        byOperator := byOperator[slot.operator := slot.slotId];
        byConsensus := byConsensus[key.value := slot.slotId];
        if slot.status == Active { active := active + {slot.slotId}; }
      }
      assert g.slots[..|g.slots|] == g.slots;
    }

    method WritePolicies(ps: seq<Policy>)
      requires policies == map[] && starts == map[]
      modifies this`policies, this`starts
      ensures policies == PoliciesOf(ps) && starts == StartsOf(ps)
    {
      for i := 0 to |ps|
        invariant policies == PoliciesOf(ps[..i]) && starts == StartsOf(ps[..i])
      {
        assert ps[..i + 1][..i] == ps[..i];
        WriteVersion(ps[i]);
      }
      assert ps[..|ps|] == ps;
    }

    method WriteRotations(rs: seq<Rotation>)
      requires rotations == map[]
      modifies this`rotations
      ensures rotations == Collect(RotationPairs(rs))
    {
      hide Collect;
      NothingWritten();
      for i := 0 to |rs|
        invariant rotations == Collect(RotationPairs(rs[..i]))
      {
        CollectNext(RotationPairs(rs[..i + 1]), RotationPairs(rs[..i]));
        rotations := rotations[rs[i].slotId := rs[i]];
      }
      assert rs[..|rs|] == rs;
    }

    method WriteReserved(rs: seq<Reservation>)
      requires reserved == map[]
      modifies this`reserved
      ensures reserved == Collect(ReservedPairs(rs))
    {
      hide Collect;
      NothingWritten();
      for i := 0 to |rs|
        invariant reserved == Collect(ReservedPairs(rs[..i]))
      {
        CollectNext(ReservedPairs(rs[..i + 1]), ReservedPairs(rs[..i]));
        reserved := reserved[rs[i].address := rs[i]];
      }
      assert rs[..|rs|] == rs;
    }

    method WriteWeights(ws: seq<RewardWeight>)
      requires rewardWeights == map[]
      modifies this`rewardWeights
      ensures rewardWeights == Collect(WeightPairs(ws))
    {
      hide Collect;
      NothingWritten();
      for i := 0 to |ws|
        invariant rewardWeights == Collect(WeightPairs(ws[..i]))
      {
        CollectNext(WeightPairs(ws[..i + 1]), WeightPairs(ws[..i]));
        rewardWeights := rewardWeights[ws[i].slotId := ws[i]];
      }
      assert ws[..|ws|] == ws;
    }

    /** assertGenesisValidatorConsistency: slots, index, last applied set and updates name the same slots. */
    method CheckConsistency(updates: nat) returns (r: Result<()>)
      ensures r.Success? <==> NamesAgree(Contents(), updates)
      ensures SlotsKeyed(slots) ==> (r.Success? <==> Consistent(Contents(), updates))
    {
      hide EndBlock.LoadActive, AscendingIds, AscendingKeys, Consistent, ValidatorDiff.SlotsOf, ValidatorDiff.NamedIds,
        ValidatorDiff.ActiveKeys;
      if SlotsKeyed(slots) { ConsistentMeans(Contents(), updates); }
      var loaded := GetActiveSlots();
      ValidatorDiff.ActiveLoads(Contents());
      if loaded.Failure? { return Failure(loaded.error); }
      var named := ValidatorDiff.SlotIdsOf(Contents(), loaded.value);
      var agrees := ValidatorDiff.RecordsAgree(slots, named);
      if !agrees { return Failure(InvalidGenesis); }
      var once, applied := ValidatorDiff.AppliedSlots(lastApplied);
      if !once { return Failure(InvalidGenesis); }
      if |applied| != |named| { return Failure(InvalidGenesis); }
      if !(named <= applied) { return Failure(InvalidGenesis); }
      ValidatorDiff.SubsetOfSameSize(named, applied);
      if updates != |named| { return Failure(InvalidGenesis); }
      return Success(());
    }

    /** Walks every collection in key order. */
    method ExportGenesis() returns (g: GenesisState)
      ensures g == GenesisExport.ExportGenesis(Contents())
    {
      hide SlotList, RotationList, ReservedList, WeightList, ValidatorList, PolicyList;
      var slotRows := ExportSlots(slots);
      var rotationRows := ExportRotations(rotations);
      var reservedRows := ExportReserved(reserved);
      var weightRows := ExportWeights(rewardWeights);
      var validatorRows := ExportValidators(lastApplied);
      var policyRows := ExportPolicies(policies);
      return GenesisState(Some(params), slotRows, rotationRows, reservedRows, weightRows, validatorRows, nextSlotId,
                          policyRows, NominationList(nominations));
    }
  }

  // ----- Genesis -----

  /** Nothing has been written yet. */
  predicate Blank(s: Store) {
    && s.slots == map[] && s.byOperator == map[] && s.byConsensus == map[] && s.reserved == map[]
    && s.rotations == map[]
    && s.lastApplied == map[] && s.rewardWeights == map[] && s.nominations == map[] && s.policies == map[]
    && s.active == {}
    && s.starts == map[]
  }

  method ValidateInitialHeight(g: GenesisState, initial: int64) returns (ok: bool)
    ensures ok <==> HeightsOk(g, initial)
  {
    if initial < 1 { return false; }
    for i := 0 to |g.slots|
      invariant forall k :: 0 <= k < i && g.slots[k].status == Active ==>
                  g.slots[k].activatedHeight == initial && g.slots[k].activationEffectiveHeight == initial
    {
      if g.slots[i].status != Active { continue; }
      if g.slots[i].activatedHeight != initial || g.slots[i].activationEffectiveHeight != initial { return false; }
    }
    for j := 0 to |g.policies|
      invariant forall k :: 0 <= k < j ==> g.policies[k].validFrom == initial
    {
      if g.policies[j].validFrom != initial { return false; }
    }
    return true;
  }

  method ValidateEconomicAddresses(rules: Rules, g: GenesisState) returns (ok: bool)
    ensures ok <==> AddressesOk(rules, g)
  {
    for i := 0 to |g.slots|
      invariant forall k :: 0 <= k < i ==>
                  && rules.account(g.slots[k].operator) && rules.economic(g.slots[k].payout)
                  && rules.economic(g.slots[k].settlement)
    {
      if !rules.account(g.slots[i].operator) { return false; }
      if !rules.economic(g.slots[i].payout) { return false; }
      if !rules.economic(g.slots[i].settlement) { return false; }
    }
    for i := 0 to |g.nominations|
      invariant forall k :: 0 <= k < i ==> rules.economic(g.nominations[k].transfer.nominee)
    {
      if !rules.economic(g.nominations[i].transfer.nominee) { return false; }
    }
    return true;
  }

  lemma NextNames(s: Store, slot: CoreSlot, current: Policy, height: int64, rate: uint64, maxParticipants: uint64)
    ensures var r := NextVersion(s, slot, current, height, rate, maxParticipants);
            r.Success? ==> r.value.slotId == slot.slotId
  {
    hide ValidatePolicyTransitionSeam;
  }

  lemma WithSlotMeans(s: Store, height: int64, slot: CoreSlot, a: string, policy: InitialPolicy)
    ensures var s' := WithSlot(s, height, slot, a, policy);
            s'.slots == s.slots[slot.slotId := slot] && s'.nextSlotId == s.nextSlotId
  {
  }

  lemma AdmittedPolicy(rules: Rules, s: Store, authority: string, operator: string, payout: string,
      settlement: string, metadata: Option<Metadata>, policy: Option<InitialPolicy>)
    requires AdmitRegistration(rules, s, authority, operator, payout, settlement, metadata, policy).Success?
    ensures policy.Some? && ValidPolicyValues(policy.value.rate, policy.value.maxParticipants)
  {
  }

  /** An import writes something. */
  lemma RowsAreNew(rules: Rules, g: GenesisState, before: Store)
    requires Admissible(rules, g) && Blank(before)
    ensures g.params.Some? && Rows(rules, g) != before
  {
    hide Admissible, Collect, PoliciesOf, StartsOf, ActiveIds;
    AdmissibleParts(rules, g);
    SomebodyActive(rules, g, 0);
    assert SlotPairs(g.slots)[0].0 == g.slots[0].slotId;
    assert g.slots[0].slotId in Rows(rules, g).slots;
  }

  lemma NoSlotPairs(rules: Rules)
    ensures SlotPairs([]) == [] && OperatorPairs([]) == [] && ConsensusPairs(rules, []) == []
  {
  }

  lemma NothingWritten()
    ensures Collect<uint64, CoreSlot>([]) == map[] && Collect<string, uint64>([]) == map[]
    ensures Collect<uint64, Rotation>([]) == map[] && Collect<string, Reservation>([]) == map[]
    ensures Collect<uint64, RewardWeight>([]) == map[] && Collect<Role, Transfer>([]) == map[]
    ensures ActiveIds([]) == {}
  {
  }

  /** One more row is one more Set. */
  lemma CollectNext<K(!new), V(!new)>(rows: seq<(K, V)>, front: seq<(K, V)>)
    requires |rows| == |front| + 1 && rows[..|front|] == front
    ensures Collect(rows) == Collect(front)[rows[|front|].0 := rows[|front|].1]
  {
  }

  lemma SlotRowsNext(rules: Rules, slots: seq<CoreSlot>, i: nat)
    requires i < |slots|
    ensures Collect(SlotPairs(slots[..i + 1])) == Collect(SlotPairs(slots[..i]))[slots[i].slotId := slots[i]]
    ensures Collect(OperatorPairs(slots[..i + 1]))
        == Collect(OperatorPairs(slots[..i]))[slots[i].operator := slots[i].slotId]
    ensures Collect(ConsensusPairs(rules, slots[..i + 1])) ==
            Collect(ConsensusPairs(rules, slots[..i]))[Address(rules, slots[i].key) := slots[i].slotId]
    ensures ActiveIds(slots[..i + 1]) == ActiveIds(slots[..i])
        + if slots[i].status == Active then {slots[i].slotId} else {}
  {
    hide Address, Collect;
    CollectNext(SlotPairs(slots[..i + 1]), SlotPairs(slots[..i]));
    CollectNext(OperatorPairs(slots[..i + 1]), OperatorPairs(slots[..i]));
    CollectNext(ConsensusPairs(rules, slots[..i + 1]), ConsensusPairs(rules, slots[..i]));
    assert slots[..i + 1] == slots[..i] + [slots[i]];
    AddsLast(slots[..i], slots[i]);
  }

  lemma SlotDecodes(rules: Rules, g: GenesisState, i: nat)
    requires Admissible(rules, g) && i < |g.slots|
    ensures ConsensusKey(rules, g.slots[i].key) == Success(Address(rules, g.slots[i].key))
  {
    hide Admissible, SlotsOk;
    AdmissibleParts(rules, g);
    SlotsOkParts(rules, g.params.value.votingPower, g.slots, g.policies);
  }

  lemma RowsNameThemselves(rules: Rules, g: GenesisState)
    requires g.params.Some?
    ensures SlotsKeyed(Rows(rules, g).slots)
  {
    hide Collect;
    forall id: uint64 | id in Rows(rules, g).slots ensures Rows(rules, g).slots[id].slotId == id {
      var i := SlotPosition(g.slots, id);
    }
  }

  /** What the difference does to an importable document's rows. */
  lemma DocumentDiffs(rules: Rules, g: GenesisState, contextHeight: int64)
    requires Importable(rules, g, contextHeight)
    ensures g.params.Some?
    ensures EndBlock.DiffAndPersist(rules, Rows(rules, g)).Success? <==> ActiveAddressesDistinct(rules, g.slots)
    ensures EndBlock.DiffAndPersist(rules, Rows(rules, g)).Success? ==>
              var (s, us) := EndBlock.DiffAndPersist(rules, Rows(rules, g)).value;
              Consistent(s, |us|) && s.slots == Rows(rules, g).slots
  {
    hide Admissible, HeightsOk, AddressesOk, EndBlock.DiffAndPersist, Rows, ActiveDistinct, ActiveAddressesDistinct,
      Consistent, IndexedRows;
    AdmissibleParts(rules, g);
    RowsIndexed(rules, g, EffectiveInitialHeight(contextHeight).value);
    DocumentDistinct(rules, g);
    FirstDiff(rules, Rows(rules, g), EffectiveInitialHeight(contextHeight).value);
  }

  /** Every record is stored under its own id. */
  ghost predicate SlotsKeyed(slots: map<uint64, CoreSlot>) {
    forall id: uint64 :: id in slots ==> slots[id].slotId == id
  }

  /** Every indexed row is ACTIVE; the ids those rows carry are the ACTIVE ones, each applied once. */
  ghost predicate NamesAgree(s: Store, updates: nat) {
    var named := ValidatorDiff.NamedIds(s);
    && IndexLoads(s)
    && named == ValidatorDiff.ActiveKeys(s.slots)
    && ValidatorDiff.SlotsOf(s.lastApplied, s.lastApplied.Keys) == named
    && |s.lastApplied| == |named| && updates == |named|
  }

  ghost predicate IndexLoads(s: Store) {
    forall id: uint64 :: id in s.active ==> id in s.slots && s.slots[id].status == Active
  }

  lemma ConsistentMeans(s: Store, updates: nat)
    requires SlotsKeyed(s.slots)
    ensures Consistent(s, updates) <==> NamesAgree(s, updates)
  {
    hide ValidatorDiff.SlotsOf;
    AppliedNames(s);
    ConsistentLoads(s, updates);
    if IndexLoads(s) { KeyedNames(s); }
  }

  lemma ConsistentLoads(s: Store, updates: nat)
    ensures Consistent(s, updates) ==> IndexLoads(s)
  {
    if ActiveIndex(s.slots, s.active) {
      forall id: uint64 | id in s.active ensures id in s.slots && s.slots[id].status == Active {
        IndexedIsActive(s, id);
      }
    }
  }

  lemma IndexedIsActive(s: Store, id: uint64)
    requires ActiveIndex(s.slots, s.active) && id in s.active
    ensures id in s.slots && s.slots[id].status == Active
  {
  }

  lemma AppliedNames(s: Store)
    ensures (set a | a in s.lastApplied :: s.lastApplied[a].slotId) ==
            ValidatorDiff.SlotsOf(s.lastApplied, s.lastApplied.Keys)
  {
  }

  lemma KeyedNames(s: Store)
    requires SlotsKeyed(s.slots) && IndexLoads(s)
    ensures ValidatorDiff.NamedIds(s) == s.active
    ensures ActiveIndex(s.slots, s.active) <==> s.active == ValidatorDiff.ActiveKeys(s.slots)
  {
    forall id | id in s.active ensures id in ValidatorDiff.NamedIds(s) { assert s.slots[id].slotId == id; }
    if s.active == ValidatorDiff.ActiveKeys(s.slots) {
      forall id: int | id in s.slots && s.slots[id].status == Active ensures id in s.active {
        var x: uint64 := id;
        assert x in ValidatorDiff.ActiveKeys(s.slots);
      }
    }
  }

  // The export's walks, one per collection.

  method ExportSlots(m: map<uint64, CoreSlot>) returns (rows: seq<CoreSlot>)
    ensures rows == SlotList(m)
  {
    hide AscendingIds;
    var keys := VisitIds(m.Keys);
    rows := [];
    for i := 0 to |keys|
      invariant |rows| == i && forall k :: 0 <= k < i ==> keys[k] in m && rows[k] == m[keys[k]]
    {
      assert keys[i] in keys;
      rows := rows + [m[keys[i]]];
    }
  }

  method ExportRotations(m: map<uint64, Rotation>) returns (rows: seq<Rotation>)
    ensures rows == RotationList(m)
  {
    hide AscendingIds;
    var keys := VisitIds(m.Keys);
    rows := [];
    for i := 0 to |keys|
      invariant |rows| == i && forall k :: 0 <= k < i ==> keys[k] in m && rows[k] == m[keys[k]]
    {
      assert keys[i] in keys;
      rows := rows + [m[keys[i]]];
    }
  }

  method ExportReserved(m: map<string, Reservation>) returns (rows: seq<Reservation>)
    ensures rows == ReservedList(m)
  {
    hide AscendingKeys;
    var keys := VisitKeys(m.Keys);
    rows := [];
    for i := 0 to |keys|
      invariant |rows| == i && forall k :: 0 <= k < i ==> keys[k] in m && rows[k] == m[keys[k]]
    {
      assert keys[i] in keys;
      rows := rows + [m[keys[i]]];
    }
  }

  method ExportWeights(m: map<uint64, RewardWeight>) returns (rows: seq<RewardWeight>)
    ensures rows == WeightList(m)
  {
    hide AscendingIds;
    var keys := VisitIds(m.Keys);
    rows := [];
    for i := 0 to |keys|
      invariant |rows| == i && forall k :: 0 <= k < i ==> keys[k] in m && rows[k] == m[keys[k]]
    {
      assert keys[i] in keys;
      rows := rows + [m[keys[i]]];
    }
  }

  method ExportValidators(m: map<string, Validator>) returns (rows: seq<Validator>)
    ensures rows == ValidatorList(m)
  {
    hide AscendingKeys;
    var keys := VisitKeys(m.Keys);
    rows := [];
    for i := 0 to |keys|
      invariant |rows| == i && forall k :: 0 <= k < i ==> keys[k] in m && rows[k] == m[keys[k]]
    {
      assert keys[i] in keys;
      rows := rows + [m[keys[i]]];
    }
  }

  method ExportVersions(m: map<uint64, Policy>) returns (rows: seq<Policy>)
    ensures rows == VersionList(m)
  {
    hide AscendingIds;
    var keys := VisitIds(m.Keys);
    rows := [];
    for i := 0 to |keys|
      invariant |rows| == i && forall k :: 0 <= k < i ==> keys[k] in m && rows[k] == m[keys[k]]
    {
      assert keys[i] in keys;
      rows := rows + [m[keys[i]]];
    }
  }

  /** The history in (slot, version) order. */
  method ExportPolicies(m: Policies) returns (rows: seq<Policy>)
    ensures rows == PolicyList(m, AscendingIds(m.Keys))
  {
    hide AscendingIds, VersionList;
    var ids := VisitIds(m.Keys);
    rows := [];
    for i := 0 to |ids|
      invariant rows == PolicyList(m, ids[..i])
    {
      assert ids[i] in ids && ids[..i + 1][..i] == ids[..i];
      var versions := ExportVersions(m[ids[i]]);
      rows := rows + versions;
    }
    assert ids[..|ids|] == ids;
  }

  lemma StagedKeysDecode(rules: Rules, s: Store, height: int64)
    requires Inv(rules, s, height)
    ensures AllStagedDecode(rules, s.rotations)
  {
    hide Inv;
    forall id: uint64 | id in s.rotations ensures ConsensusKey(rules, s.rotations[id].newKey).Success? {
      BlockEnd.RotationFacts(rules, s, height, id);
    }
  }

  lemma RotationsAreKeyed(rules: Rules, s: Store, height: int64)
    requires Inv(rules, s, height)
    ensures forall id: uint64 :: id in s.rotations ==>
              s.rotations[id].slotId == id && ConsensusKey(rules, s.rotations[id].newKey).Success?
  {
    hide Inv;
    forall id: uint64 | id in s.rotations
        ensures s.rotations[id].slotId == id && ConsensusKey(rules, s.rotations[id].newKey).Success? {
      BlockEnd.RotationFacts(rules, s, height, id);
    }
  }
}
