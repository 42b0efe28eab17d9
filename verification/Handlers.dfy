/**
 x/coreslot/keeper/msg_server.go and authority.go: what each message does to the store,
 or the error it is refused with.

 These functions are the specification of the methods of `Keeper`, which perform the
 same transitions write by write. The theorems of Invariant, Runs and Timelines are
 about them.
 */
module Handlers {
  import opened Machine
  import opened CoreSlotTypes
  import opened PolicyHistory
  import Checked

  /** Neither the parameters, the nominations nor the last applied validators differ. */
  predicate Frames(s: Store, r: Result<Store>) {
    r.Success? ==>
      r.value.params == s.params && r.value.nominations == s.nominations && r.value.lastApplied == s.lastApplied
  }

  /** Nor do the policy history and its index. */
  predicate FramesPolicies(s: Store, r: Result<Store>) {
    r.Success? ==> r.value.policies == s.policies && r.value.starts == s.starts
  }

  function GetSlot(s: Store, id: uint64): Result<CoreSlot> {
    if id in s.slots then Success(s.slots[id]) else Failure(SlotNotFound)
  }

  function NextSlotId(s: Store): Result<uint64> {
    if s.nextSlotId == 0 || s.nextSlotId in s.slots then Failure(InvalidTransition) else Success(s.nextSlotId)
  }

  function ActiveCount(s: Store): nat { |s.active| }

  /** The key's address, and the store with an expired reservation for it released. */
  function EnsureConsensusAvailable(rules: Rules, s: Store, height: int64, key: PubKey): (r: Result<(string, Store)>)
    ensures r.Success? ==> r.value.1 == s.(reserved := r.value.1.reserved)
  {
    var a :- ConsensusKey(rules, key);
    if a in s.byConsensus then Failure(DuplicateConsensusKey)
    else if a in s.reserved && s.reserved[a].until > height then Failure(DuplicateConsensusKey)
    else Success((a, s.(reserved := s.reserved - {a})))
  }

  /** The staged key is freed and the rotation dropped, if there is one. */
  function CancelPendingRotation(rules: Rules, s: Store, id: uint64): (r: Result<Store>)
    ensures Frames(s, r) && FramesPolicies(s, r)
  {
    if id !in s.rotations then Success(s)
    else
      var a :- ConsensusKey(rules, s.rotations[id].newKey);
      Success(s.(byConsensus := s.byConsensus - {a}, rotations := s.rotations - {id}))
  }

  /** A version and its index entry are only ever written together. */
  function WritePolicyVersion(s: Store, p: Policy): Store {
    s.(policies := s.policies[p.slotId := Inner(s.policies, p.slotId)[p.version := p]],
       starts := s.starts[p.slotId := Inner(s.starts, p.slotId)[p.validFrom := p.version]])
  }

  function CurrentPolicy(s: Store, slot: CoreSlot): Result<Policy> {
    var rows := Inner(s.policies, slot.slotId);
    if slot.policyVersion == 0 || slot.policyVersion !in rows then Failure(InvalidSelectionPolicy)
    else
      var p := rows[slot.policyVersion];
      if p.slotId != slot.slotId || p.version != slot.policyVersion || p.validUntil != 0 then
        Failure(InvalidSelectionPolicy)
      else Success(p)
  }

  ghost function SelectionPolicyAtHeight(s: Store, id: uint64, height: int64): Result<Policy> {
    Lookup(Inner(s.policies, id), Inner(s.starts, id), id, height)
  }

  /** Everything that could make the next version's two writes overwrite something. */
  ghost function ValidatePolicyTransitionSeam(s: Store, slot: CoreSlot, current: Policy, height: int64,
      effective: int64, next: uint64): Result<()> {
    if !ValidPolicyValues(current.rate, current.maxParticipants) then Failure(InvalidSelectionPolicy)
    else match SelectionPolicyAtHeight(s, slot.slotId, height)
      case Failure(_) => Failure(InvalidSelectionPolicy)
      case Success(resolved) =>
        if resolved.version != current.version then Failure(InvalidSelectionPolicy)
        else if next in Inner(s.policies, slot.slotId) then Failure(InvalidSelectionPolicy)
        else if effective in Inner(s.starts, slot.slotId) then Failure(InvalidSelectionPolicy)
        else Success(())
  }

  function ValidateActiveSlotInvariant(rules: Rules, s: Store, slot: CoreSlot): Result<()> {
    if slot.status != Active then Failure(InvalidTransition)
    else if !rules.account(slot.operator) then Failure(InvalidAddress)
    else if !rules.economic(slot.payout) then Failure(InvalidAddress)
    else if !rules.economic(slot.settlement) then Failure(InvalidAddress)
    else
      var _ :- ConsensusKey(rules, slot.key);
      if slot.activationSequence == 0 then Failure(InvalidTransition)
      else if slot.activationEffectiveHeight == 0 then Failure(InvalidTransition)
      else
        var p :- CurrentPolicy(s, slot);
        if !ValidPolicyValues(p.rate, p.maxParticipants) then Failure(InvalidSelectionPolicy) else Success(())
  }

  function NewSlot(id: uint64, height: int64, operator: string, key: PubKey, payout: string, settlement: string,
      metadata: Option<Metadata>): CoreSlot {
    CoreSlot(id, operator, key, payout, settlement, Pending, 0, One, metadata,
             height, 0, 0, height, 0, 0, 0, INITIAL_POLICY_VERSION, 0)
  }

  function NewRewardWeight(id: uint64, height: int64): RewardWeight {
    RewardWeight(id, One, One, One, Zero, Zero, One, height)
  }

  /** The refusals of a registration that need no write to decide. */
  function AdmitRegistration(rules: Rules, s: Store, authority: string, operator: string, payout: string,
      settlement: string, metadata: Option<Metadata>, policy: Option<InitialPolicy>): (r: Result<()>)
    ensures r.Success? ==>
              && operator !in s.byOperator && policy.Some?
              && ValidPolicyValues(policy.value.rate, policy.value.maxParticipants)
  {
    if authority != s.params.authority then Failure(Unauthorized)
    else if !rules.account(operator) then Failure(InvalidAddress)
    else if !rules.economic(payout) then Failure(InvalidAddress)
    else if !rules.economic(settlement) then Failure(InvalidAddress)
    else if !ValidMetadata(metadata) then Failure(InvalidMetadata)
    else if policy.None? then Failure(InvalidSelectionPolicy)
    else if !ValidPolicyValues(policy.value.rate, policy.value.maxParticipants) then Failure(InvalidSelectionPolicy)
    else if operator in s.byOperator then Failure(DuplicateOperator)
    else Success(())
  }

  /** The rows of a registration but for the advanced counter. */
  function WithSlot(s: Store, height: int64, slot: CoreSlot, a: string, policy: InitialPolicy): Store {
    var first := Policy(slot.slotId, INITIAL_POLICY_VERSION, policy.rate, policy.maxParticipants, height, 0);
    var s1 := WritePolicyVersion(s.(slots := s.slots[slot.slotId := slot]), first);
    s1.(byOperator := s1.byOperator[slot.operator := slot.slotId],
        byConsensus := s1.byConsensus[a := slot.slotId],
        rewardWeights := s1.rewardWeights[slot.slotId := NewRewardWeight(slot.slotId, height)])
  }

  function Register(rules: Rules, s: Store, height: int64, authority: string, operator: string, key: PubKey,
      payout: string, settlement: string, metadata: Option<Metadata>,
      policy: Option<InitialPolicy>): (r: Result<Store>)
    ensures Frames(s, r)
  {
    var _ :- AdmitRegistration(rules, s, authority, operator, payout, settlement, metadata, policy);
    var id :- NextSlotId(s);
    var (a, s1) :- EnsureConsensusAvailable(rules, s, height, key);
    var next := Checked.AddUint64(id, 1);
    if next.Fault? then Failure(InvalidTransition)
    else
      var slot := NewSlot(id, height, operator, key, payout, settlement, metadata);
      Success(WithSlot(s1, height, slot, a, policy.value).(nextSlotId := next.value))
  }

  /**
   A registration that passes every check before its first write, with the last uint64 as its
   id: the counter cannot advance past it, and is advanced last.
   */
  predicate ExhaustsIds(rules: Rules, s: Store, height: int64, msg: Msg) {
    && msg.RegisterCoreSlot? && s.nextSlotId == MAX_UINT64
    && AdmitRegistration(rules, s, msg.authority, msg.operator, msg.payout, msg.settlement, msg.metadata,
                         msg.policy).Success?
    && NextSlotId(s).Success? && EnsureConsensusAvailable(rules, s, height, msg.key).Success?
  }

  function Activated(slot: CoreSlot, height: int64, power: int64, sequence: uint64, effective: int64): (r: CoreSlot)
    ensures r.slotId == slot.slotId
  {
    slot.(status := Active, power := power, activationSequence := sequence, activatedHeight := height,
          updatedHeight := height, activationEffectiveHeight := effective)
  }

  function Activate(rules: Rules, s: Store, height: int64, authority: string, id: uint64): (r: Result<Store>)
    ensures Frames(s, r) && FramesPolicies(s, r)
  {
    if authority != s.params.authority then Failure(Unauthorized)
    else
      var slot :- GetSlot(s, id);
      if slot.status != Pending && slot.status != Inactive && slot.status != Suspended then Failure(InvalidTransition)
      else if ActiveCount(s) >= s.params.maxActive then Failure(MaxActiveSlots)
      else if ActiveCount(s) >= HARD_MAX_ACTIVE_CORE_SLOTS then Failure(MaxActiveSlots)
      else
        var _ :- ConsensusKey(rules, slot.key);
        var sequence := Checked.AddUint64(slot.activationSequence, 1);
        if sequence.Fault? then Failure(InvalidTransition)
        else
          var effective := Checked.AddInt64(height, 1);
          if effective.Fault? then Failure(InvalidTransition)
          else
            var slot' := Activated(slot, height, s.params.votingPower, sequence.value, effective.value);
            var _ :- ValidateActiveSlotInvariant(rules, s, slot');
            Success(s.(slots := s.slots[slot.slotId := slot'], active := s.active + {slot.slotId}))
  }

  /** The common end of the transitions out of a status: record, index, staged rotation. */
  function Leave(rules: Rules, s: Store, slot: CoreSlot): (r: Result<Store>)
    ensures Frames(s, r) && FramesPolicies(s, r)
  {
    CancelPendingRotation(rules, s.(slots := s.slots[slot.slotId := slot], active := s.active - {slot.slotId}),
                          slot.slotId)
  }

  function Inactivate(rules: Rules, s: Store, height: int64, caller: string, id: uint64): (r: Result<Store>)
    ensures Frames(s, r) && FramesPolicies(s, r)
  {
    var slot :- GetSlot(s, id);
    if caller != s.params.authority && caller != slot.operator then Failure(Unauthorized)
    else if slot.status != Active then Failure(InvalidTransition)
    else if ActiveCount(s) <= s.params.minActive then Failure(MinActiveSlots)
    else
      var _ :- ConsensusKey(rules, slot.key);
      Leave(rules, s, slot.(status := Inactive, power := 0, updatedHeight := height))
  }

  function Suspend(rules: Rules, s: Store, height: int64, authority: string, id: uint64): (r: Result<Store>)
    ensures Frames(s, r) && FramesPolicies(s, r)
  {
    if authority != s.params.authority && authority != s.params.emergencyAuthority then Failure(Unauthorized)
    else
      var slot :- GetSlot(s, id);
      if slot.status == Removed || slot.status == Suspended then Failure(InvalidTransition)
      else if slot.status == Active && ActiveCount(s) <= 1 then Failure(CannotRemoveLastValidator)
      else if slot.status == Active && !s.params.emergencyBelowMin && ActiveCount(s) <= s.params.minActive then
        Failure(MinActiveSlots)
      else
        var _ :- ConsensusKey(rules, slot.key);
        Leave(rules, s, slot.(status := Suspended, power := 0, suspendedHeight := height, updatedHeight := height))
  }

  /** The last height, exclusive, at which a key released now stays reserved. Go's sum wraps. */
  function ReservedUntil(height: int64, lockout: uint64): int64 {
    WrapInt64(height + Int64OfUint64(lockout))
  }

  function Remove(rules: Rules, s: Store, height: int64, authority: string, id: uint64,
      reason: string): (r: Result<Store>)
    ensures Frames(s, r) && FramesPolicies(s, r)
  {
    if authority != s.params.authority then Failure(Unauthorized)
    else
      var slot :- GetSlot(s, id);
      if slot.status == Active || slot.status == Removed then Failure(InvalidTransition)
      else
        var a :- ConsensusKey(rules, slot.key);
        var slot' := slot.(status := Removed, power := 0, removedHeight := height, updatedHeight := height);
        var s1 :- Leave(rules, s, slot');
        Success(s1.(
          byOperator := s1.byOperator - {slot.operator},
          byConsensus := s1.byConsensus - {a},
          reserved := s1.reserved[a := Reservation(a, slot.slotId, ReservedUntil(height, s.params.reuseLockout),
              Given(reason))]))
  }

  /** The slot whose key may be rotated, and the address that key has. */
  function AdmitRotation(rules: Rules, s: Store, authority: string, id: uint64): Result<(CoreSlot, string)> {
    if authority != s.params.authority then Failure(Unauthorized)
    else
      var slot :- GetSlot(s, id);
      if slot.status == Removed then Failure(InvalidTransition)
      else if slot.slotId in s.rotations then Failure(PendingRotationExists)
      else
        var released :- ConsensusKey(rules, slot.key);
        Success((slot, released))
  }

  function Rotate(rules: Rules, s: Store, height: int64, authority: string, id: uint64, key: PubKey): (r: Result<Store>)
    ensures Frames(s, r) && FramesPolicies(s, r)
  {
    var (slot, released) :- AdmitRotation(rules, s, authority, id);
    var (a, s1) :- EnsureConsensusAvailable(rules, s, height, key);
    if slot.status == Active then
      var effective := WrapInt64(height + Int64OfUint64(s.params.rotationDelay));
      Success(s1.(
        byConsensus := s1.byConsensus[a := slot.slotId],
        rotations := s1.rotations[slot.slotId := Rotation(slot.slotId, slot.key, key, height, effective)]))
    else
      Success(s1.(
        byConsensus := s1.byConsensus[a := slot.slotId] - {released},
        slots := s1.slots[slot.slotId := slot.(key := key, updatedHeight := height)],
        reserved := s1.reserved[released := Reservation(released, slot.slotId,
                                                   ReservedUntil(height, s.params.reuseLockout), KeyRotation)]))
  }

  predicate OperatorMutationAllowed(slot: CoreSlot) {
    slot.status == Pending || slot.status == Active || slot.status == Inactive
  }

  /** The slot an operator may configure, or why not. */
  function OwnSlot(s: Store, operator: string, id: uint64): Result<CoreSlot> {
    var slot :- GetSlot(s, id);
    if operator != slot.operator then Failure(Unauthorized)
    else if !OperatorMutationAllowed(slot) then Failure(InvalidTransition)
    else Success(slot)
  }

  function UpdatePayout(rules: Rules, s: Store, height: int64, operator: string, id: uint64,
      payout: string): (r: Result<Store>)
    ensures Frames(s, r) && FramesPolicies(s, r)
  {
    var slot :- OwnSlot(s, operator, id);
    if !rules.economic(payout) then Failure(InvalidAddress)
    else Success(s.(slots := s.slots[slot.slotId := slot.(payout := payout, updatedHeight := height)]))
  }

  function UpdateMetadata(s: Store, height: int64, operator: string, id: uint64,
      metadata: Option<Metadata>): (r: Result<Store>)
    ensures Frames(s, r) && FramesPolicies(s, r)
  {
    var slot :- OwnSlot(s, operator, id);
    if !ValidMetadata(metadata) then Failure(InvalidMetadata)
    else Success(s.(slots := s.slots[slot.slotId := slot.(metadata := metadata, updatedHeight := height)]))
  }

  function UpdateSettlement(rules: Rules, s: Store, height: int64, operator: string, id: uint64,
      settlement: string): (r: Result<Store>)
    ensures Frames(s, r) && FramesPolicies(s, r)
  {
    var slot :- OwnSlot(s, operator, id);
    if settlement == slot.settlement then Failure(NoOpUpdate)
    else if !rules.economic(settlement) then Failure(InvalidAddress)
    else Success(s.(slots := s.slots[slot.slotId := slot.(settlement := settlement, updatedHeight := height)]))
  }

  /** The earliest height of the slot's next policy update; registration does not count. */
  function PolicyCooldown(p: Params, slot: CoreSlot, height: int64): Result<()> {
    if slot.lastPolicyUpdate == 0 then Success(())
    else
      var cooldown := Checked.Int64FromUint64(p.policyCooldown);
      if cooldown.Fault? then Failure(InvalidParams)
      else
        var earliest := Checked.AddInt64(slot.lastPolicyUpdate, cooldown.value);
        if earliest.Fault? || height < earliest.value then Failure(SelectionPolicyCooldown) else Success(())
  }

  /** The open version closed, the next one stored, and the slot naming it. */
  function AppendVersion(s: Store, slot: CoreSlot, current: Policy, height: int64, next: Policy): Store {
    var closed := current.(validUntil := next.validFrom);
    var s1 := s.(policies := s.policies[slot.slotId := Inner(s.policies, slot.slotId)[current.version := closed]]);
    var s2 := WritePolicyVersion(s1, next);
    s2.(slots := s2.slots[slot.slotId :=
      slot.(policyVersion := next.version, lastPolicyUpdate := height, updatedHeight := height)])
  }

  /** The version an update closes, once the slot, the values and the cooldown admit it. */
  function AdmitPolicyUpdate(s: Store, slot: CoreSlot, height: int64, rate: uint64,
      maxParticipants: uint64): Result<Policy> {
    if !ValidPolicyValues(rate, maxParticipants) then Failure(InvalidSelectionPolicy)
    else
      var current :- CurrentPolicy(s, slot);
      if current.rate == rate && current.maxParticipants == maxParticipants then Failure(NoOpUpdate)
      else
        var _ :- PolicyCooldown(s.params, slot, height);
        Success(current)
  }

  /** The version that follows, if nothing stored is in its way. */
  ghost function NextVersion(s: Store, slot: CoreSlot, current: Policy, height: int64, rate: uint64,
      maxParticipants: uint64): Result<Policy> {
    var effective := Checked.AddInt64(height, 1);
    var next := Checked.AddUint64(current.version, 1);
    if effective.Fault? || next.Fault? then Failure(InvalidSelectionPolicy)
    else
      var _ :- ValidatePolicyTransitionSeam(s, slot, current, height, effective.value, next.value);
      Success(Policy(slot.slotId, next.value, rate, maxParticipants, effective.value, 0))
  }

  ghost function UpdatePolicy(s: Store, height: int64, operator: string, id: uint64, rate: uint64,
      maxParticipants: uint64): (r: Result<Store>)
    ensures Frames(s, r)
  {
    var slot :- OwnSlot(s, operator, id);
    var current :- AdmitPolicyUpdate(s, slot, height, rate, maxParticipants);
    var next :- NextVersion(s, slot, current, height, rate, maxParticipants);
    Success(AppendVersion(s, slot, current, height, next))
  }

  function ReplaceParams(rules: Rules, s: Store, authority: string, params: Option<Params>): (r: Result<Store>)
    ensures FramesPolicies(s, r)
  {
    if params.None? then Failure(InvalidParams)
    else if authority != s.params.authority then Failure(Unauthorized)
    else if params.value.authority != s.params.authority then Failure(InvalidParams)
    else if params.value.emergencyAuthority != s.params.emergencyAuthority then Failure(InvalidParams)
    else if !ValidParams(rules, params.value) then Failure(InvalidParams)
    else if ActiveCount(s) > 0 && params.value.votingPower != s.params.votingPower then Failure(InvalidParams)
    else Success(s.(params := params.value))
  }

  function CurrentHolder(p: Params, role: Role): string {
    if role == Emergency then p.emergencyAuthority else p.authority
  }

  function SetHolder(p: Params, role: Role, holder: string): Params {
    if role == Emergency then p.(emergencyAuthority := holder) else p.(authority := holder)
  }

  function Nominate(rules: Rules, s: Store, height: int64, authority: string, role: Role,
      nominee: string): (r: Result<Store>)
    ensures r.Success? ==> r.value == s.(nominations := r.value.nominations)
  {
    if role == NoRole then Failure(InvalidAuthorityRole)
    else if authority != CurrentHolder(s.params, role) then Failure(Unauthorized)
    else if !rules.economic(nominee) then Failure(InvalidAddress)
    else if nominee == CurrentHolder(s.params, role) then Failure(InvalidAddress)
    else Success(s.(nominations := s.nominations[role := Transfer(nominee, height)]))
  }

  function Accept(rules: Rules, s: Store, nominee: string, role: Role): (r: Result<Store>)
    ensures FramesPolicies(s, r)
  {
    if role == NoRole then Failure(InvalidAuthorityRole)
    else if role !in s.nominations then Failure(NoPendingNomination)
    else if nominee != s.nominations[role].nominee then Failure(Unauthorized)
    else if !rules.economic(nominee) then Failure(InvalidAddress)
    else Success(s.(params := SetHolder(s.params, role, nominee), nominations := s.nominations - {role}))
  }

  function CancelNomination(s: Store, authority: string, role: Role): (r: Result<Store>)
    ensures r.Success? ==> r.value == s.(nominations := r.value.nominations)
  {
    if role == NoRole then Failure(InvalidAuthorityRole)
    else if authority != CurrentHolder(s.params, role) then Failure(Unauthorized)
    else if role !in s.nominations then Failure(NoPendingNomination)
    else Success(s.(nominations := s.nominations - {role}))
  }

  ghost function Handle(rules: Rules, s: Store, height: int64, msg: Msg): Result<Store> {
    match msg
    case RegisterCoreSlot(authority, operator, key, payout, settlement, metadata, policy) =>
      Register(rules, s, height, authority, operator, key, payout, settlement, metadata, policy)
    case ActivateCoreSlot(authority, id) => Activate(rules, s, height, authority, id)
    case InactivateCoreSlot(caller, id) => Inactivate(rules, s, height, caller, id)
    case SuspendCoreSlot(authority, id) => Suspend(rules, s, height, authority, id)
    case RemoveCoreSlot(authority, id, reason) => Remove(rules, s, height, authority, id, reason)
    case RotateConsensusKey(authority, id, key) => Rotate(rules, s, height, authority, id, key)
    case UpdatePayoutAddress(operator, id, payout) => UpdatePayout(rules, s, height, operator, id, payout)
    case UpdateOperatorMetadata(operator, id, metadata) => UpdateMetadata(s, height, operator, id, metadata)
    case UpdateSettlementAddress(operator, id, settlement) => UpdateSettlement(rules, s, height, operator, id,
        settlement)
    case UpdateSelectionPolicy(operator, id, rate, max) => UpdatePolicy(s, height, operator, id, rate, max)
    case UpdateParams(authority, params) => ReplaceParams(rules, s, authority, params)
    case NominateAuthority(authority, role, nominee) => Nominate(rules, s, height, authority, role, nominee)
    case AcceptAuthority(nominee, role) => Accept(rules, s, nominee, role)
    case CancelAuthorityNomination(authority, role) => CancelNomination(s, authority, role)
  }

  /** A transaction: a refused message leaves the store as it was. */
  ghost function Deliver(rules: Rules, s: Store, height: int64, msg: Msg): Store {
    match Handle(rules, s, height, msg)
    case Success(s') => s'
    case Failure(_) => s
  }
}
