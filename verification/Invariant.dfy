/**
 What every reachable store satisfies: the derived indexes agree with the records, every
 staged rotation is live, the policy histories tile, and the validator set can be
 neither emptied nor overfilled. Every message keeps it.
 */
module Invariant {
  import opened Machine
  import opened CoreSlotTypes
  import opened PolicyHistory
  import opened Handlers
  import EndBlock
  import Checked

  predicate ActiveIn(s: Store, id: uint64) {
    id in s.slots && s.slots[id].status == Active
  }

  /** A key's consensus address; only used of keys that have one. */
  function Address(rules: Rules, key: PubKey): string {
    match ConsensusKey(rules, key)
    case Success(a) => a
    case Failure(_) => ""
  }

  predicate RowOk(rules: Rules, slot: CoreSlot, id: int, next: uint64, votingPower: int64) {
    && slot.slotId == id && 1 <= id < next && slot.status != Unspecified
    && ConsensusKey(rules, slot.key).Success?
    && slot.power == (if slot.status == Active then votingPower else 0)
  }

  ghost predicate SlotRows(rules: Rules, slots: map<uint64, CoreSlot>, next: uint64, votingPower: int64) {
    && next >= 1
    && forall id: int {:trigger RowOk(rules, slots[id], id, next, votingPower)} ::
          id in slots ==> RowOk(rules, slots[id], id, next, votingPower)
  }

  /** The ACTIVE index is exactly the ids whose record is ACTIVE. */
  ghost predicate ActiveIndex(slots: map<uint64, CoreSlot>, active: set<uint64>) {
    forall id: int {:trigger id in active} :: id in active <==> id in slots && slots[id].status == Active
  }

  /** The operator index is exactly the inverse of the slots that are not REMOVED. */
  ghost predicate OperatorIndex(slots: map<uint64, CoreSlot>, byOperator: map<string, uint64>) {
    && (forall op :: op in byOperator ==>
          var id := byOperator[op]; id in slots && slots[id].status != Removed && slots[id].operator == op)
    && (forall id: int :: id in slots && slots[id].status != Removed ==>
          slots[id].operator in byOperator && byOperator[slots[id].operator] == id)
  }

  predicate Owns(rules: Rules, slots: map<uint64, CoreSlot>, id: uint64, a: string) {
    id in slots && slots[id].status != Removed && Address(rules, slots[id].key) == a
  }

  predicate Stages(rules: Rules, rotations: map<uint64, Rotation>, id: uint64, a: string) {
    id in rotations && Address(rules, rotations[id].newKey) == a
  }

  /** The consensus index names the owner of every current and every staged key, and no other key. */
  ghost predicate ConsensusIndex(rules: Rules, slots: map<uint64, CoreSlot>, rotations: map<uint64, Rotation>,
      byConsensus: map<string, uint64>) {
    && (forall id: int {:trigger Address(rules, slots[id].key)} :: id in slots && slots[id].status != Removed ==>
          Address(rules, slots[id].key) in byConsensus && byConsensus[Address(rules, slots[id].key)] == id)
    && (forall id: int :: id in rotations ==>
          && Address(rules, rotations[id].newKey) in byConsensus
          && byConsensus[Address(rules, rotations[id].newKey)] == id)
    && (forall a :: a in byConsensus ==>
          Owns(rules, slots, byConsensus[a], a) || Stages(rules, rotations, byConsensus[a], a))
  }

  /** A staged rotation belongs to an ACTIVE slot that still has the old key, and stages another one. */
  predicate RotationOk(rules: Rules, slots: map<uint64, CoreSlot>, r: Rotation, id: int) {
    && r.slotId == id && id in slots && slots[id].status == Active && slots[id].key == r.oldKey
    && ConsensusKey(rules, r.newKey).Success? && Address(rules, r.newKey) != Address(rules, r.oldKey)
  }

  ghost predicate RotationRows(rules: Rules, slots: map<uint64, CoreSlot>, rotations: map<uint64, Rotation>) {
    forall id: int :: id in rotations ==> RotationOk(rules, slots, rotations[id], id)
  }

  /** How far a slot's history can have grown by `height`: one version per 360 blocks after two. */
  predicate Pace(rows: map<uint64, Policy>, current: uint64, lastUpdate: int64, height: int64)
    requires 1 in rows && current in rows
  {
    if current == 1 then lastUpdate == 0 && rows[1].validFrom <= height
    else
      && 1 <= lastUpdate <= height && rows[current].validFrom == lastUpdate + 1
      && lastUpdate >= rows[1].validFrom + HARD_MIN_COOLDOWN_BLOCKS * (current - 2)
  }

  ghost predicate HistoryOk(rows: map<uint64, Policy>, starts: map<int64, uint64>, slot: CoreSlot, height: int64) {
    && SlotHistory(rows, starts, slot.slotId, slot.policyVersion)
    && Pace(rows, slot.policyVersion, slot.lastPolicyUpdate, height)
  }

  ghost predicate Histories(slots: map<uint64, CoreSlot>, policies: Policies, starts: Starts, height: int64) {
    && policies.Keys == slots.Keys && starts.Keys == slots.Keys
    && forall id: int {:trigger HistoryOk(policies[id], starts[id], slots[id], height)} ::
          id in slots ==> HistoryOk(policies[id], starts[id], slots[id], height)
  }

  predicate Bounds(p: Params) {
    && 0 < p.minActive <= p.maxActive <= HARD_MAX_ACTIVE_CORE_SLOTS
    && 0 < p.votingPower && p.maxActive <= MostSlots(p.votingPower)
    && p.policyCooldown >= HARD_MIN_COOLDOWN_BLOCKS
  }

  /** At least one ACTIVE slot, at most the immutable maximum, and no more power than an int64 holds. */
  ghost predicate Populated(active: set<uint64>, votingPower: int64) {
    1 <= |active| <= HARD_MAX_ACTIVE_CORE_SLOTS && votingPower > 0 && |active| <= MostSlots(votingPower)
  }

  /** Nobody is nominated for a role they hold. */
  ghost predicate Nominations(p: Params, nominations: map<Role, Transfer>) {
    NoRole !in nominations && forall role :: role in nominations ==> nominations[role].nominee != CurrentHolder(p, role)
  }

  ghost predicate Inv(rules: Rules, s: Store, height: int64) {
    && height >= 1
    && SlotRows(rules, s.slots, s.nextSlotId, s.params.votingPower)
    && ActiveIndex(s.slots, s.active)
    && OperatorIndex(s.slots, s.byOperator)
    && ConsensusIndex(rules, s.slots, s.rotations, s.byConsensus)
    && RotationRows(rules, s.slots, s.rotations)
    && Histories(s.slots, s.policies, s.starts, height)
    && Bounds(s.params)
    && Populated(s.active, s.params.votingPower)
    && Nominations(s.params, s.nominations)
    && EndBlock.KeyedByAddress(rules, s.lastApplied)
  }

  // ----- What one write does to each part -----

  lemma PutRow(rules: Rules, slots: map<uint64, CoreSlot>, next: uint64, votingPower: int64, slot: CoreSlot,
      next': uint64)
    requires SlotRows(rules, slots, next, votingPower) && next <= next'
    requires RowOk(rules, slot, slot.slotId, next', votingPower)
    ensures SlotRows(rules, slots[slot.slotId := slot], next', votingPower)
  {
    forall id: int | id in slots ensures RowOk(rules, slots[id], id, next', votingPower) {
      assert RowOk(rules, slots[id], id, next, votingPower);
    }
  }

  lemma PutActiveIndex(slots: map<uint64, CoreSlot>, active: set<uint64>, slot: CoreSlot)
    requires ActiveIndex(slots, active)
    ensures ActiveIndex(slots[slot.slotId := slot],
                        if slot.status == Active then active + {slot.slotId} else active - {slot.slotId})
  {
  }

  lemma PutOperatorIndex(slots: map<uint64, CoreSlot>, byOperator: map<string, uint64>, slot: CoreSlot)
    requires OperatorIndex(slots, byOperator)
    requires slot.slotId in slots && slot.operator == slots[slot.slotId].operator
    requires slot.status != Removed && slots[slot.slotId].status != Removed
    ensures OperatorIndex(slots[slot.slotId := slot], byOperator)
  {
  }

  lemma AddOperatorIndex(slots: map<uint64, CoreSlot>, byOperator: map<string, uint64>, slot: CoreSlot)
    requires OperatorIndex(slots, byOperator)
    requires slot.slotId !in slots && slot.operator !in byOperator && slot.status != Removed
    ensures OperatorIndex(slots[slot.slotId := slot], byOperator[slot.operator := slot.slotId])
  {
  }

  lemma RemoveOperatorIndex(slots: map<uint64, CoreSlot>, byOperator: map<string, uint64>, slot: CoreSlot)
    requires OperatorIndex(slots, byOperator)
    requires slot.slotId in slots && slot.operator == slots[slot.slotId].operator
    requires slot.status == Removed && slots[slot.slotId].status != Removed
    ensures OperatorIndex(slots[slot.slotId := slot], byOperator - {slot.operator})
  {
  }

  lemma PutConsensusIndex(rules: Rules, slots: map<uint64, CoreSlot>, rotations: map<uint64, Rotation>,
      byConsensus: map<string, uint64>, slot: CoreSlot)
    requires ConsensusIndex(rules, slots, rotations, byConsensus)
    requires slot.slotId in slots && slot.key == slots[slot.slotId].key
    requires slot.status != Removed && slots[slot.slotId].status != Removed
    ensures ConsensusIndex(rules, slots[slot.slotId := slot], rotations, byConsensus)
  {
  }

  lemma AddConsensusIndex(rules: Rules, slots: map<uint64, CoreSlot>, rotations: map<uint64, Rotation>,
      byConsensus: map<string, uint64>, slot: CoreSlot)
    requires ConsensusIndex(rules, slots, rotations, byConsensus)
    requires slot.slotId !in slots && slot.status != Removed && Address(rules, slot.key) !in byConsensus
    ensures ConsensusIndex(rules, slots[slot.slotId := slot], rotations,
        byConsensus[Address(rules, slot.key) := slot.slotId])
  {
  }

  lemma StageConsensusIndex(rules: Rules, slots: map<uint64, CoreSlot>, rotations: map<uint64, Rotation>,
      byConsensus: map<string, uint64>, r: Rotation)
    requires ConsensusIndex(rules, slots, rotations, byConsensus)
    requires r.slotId !in rotations && Address(rules, r.newKey) !in byConsensus
    ensures ConsensusIndex(rules, slots, rotations[r.slotId := r], byConsensus[Address(rules, r.newKey) := r.slotId])
  {
  }

  lemma UnstageConsensusIndex(rules: Rules, slots: map<uint64, CoreSlot>, rotations: map<uint64, Rotation>,
      byConsensus: map<string, uint64>, id: uint64)
    requires ConsensusIndex(rules, slots, rotations, byConsensus) && RotationRows(rules, slots, rotations)
    requires id in rotations
    ensures ConsensusIndex(rules, slots, rotations - {id}, byConsensus - {Address(rules, rotations[id].newKey)})
  {
  }

  lemma RekeyConsensusIndex(rules: Rules, slots: map<uint64, CoreSlot>, rotations: map<uint64, Rotation>,
      byConsensus: map<string, uint64>, slot: CoreSlot)
    requires ConsensusIndex(rules, slots, rotations, byConsensus)
    requires slot.slotId in slots && slot.slotId !in rotations
    requires slot.status != Removed && slots[slot.slotId].status != Removed
    requires Address(rules, slot.key) !in byConsensus
    ensures ConsensusIndex(rules, slots[slot.slotId := slot], rotations,
                           byConsensus[Address(rules, slot.key) := slot.slotId]
                             - {Address(rules, slots[slot.slotId].key)})
  {
    hide Address;
  }

  lemma RemoveConsensusIndex(rules: Rules, slots: map<uint64, CoreSlot>, rotations: map<uint64, Rotation>,
      byConsensus: map<string, uint64>, slot: CoreSlot)
    requires ConsensusIndex(rules, slots, rotations, byConsensus)
    requires slot.slotId in slots && slot.slotId !in rotations && slot.key == slots[slot.slotId].key
    requires slot.status == Removed && slots[slot.slotId].status != Removed
    ensures ConsensusIndex(rules, slots[slot.slotId := slot], rotations, byConsensus - {Address(rules, slot.key)})
  {
  }

  lemma PromoteConsensusIndex(rules: Rules, slots: map<uint64, CoreSlot>, rotations: map<uint64, Rotation>,
      byConsensus: map<string, uint64>, slot: CoreSlot)
    requires ConsensusIndex(rules, slots, rotations, byConsensus) && RotationRows(rules, slots, rotations)
    requires slot.slotId in rotations && slot.key == rotations[slot.slotId].newKey && slot.status == Active
    ensures ConsensusIndex(rules, slots[slot.slotId := slot], rotations - {slot.slotId},
                           byConsensus - {Address(rules, slots[slot.slotId].key)})
  {
    hide Address, ConsensusKey;
  }

  lemma PutRotationRows(rules: Rules, slots: map<uint64, CoreSlot>, rotations: map<uint64, Rotation>, slot: CoreSlot)
    requires RotationRows(rules, slots, rotations)
    requires slot.slotId in rotations ==>
               slot.slotId in slots && slot.key == slots[slot.slotId].key && slot.status == slots[slot.slotId].status
    ensures RotationRows(rules, slots[slot.slotId := slot], rotations)
  {
  }

  lemma PutHistories(slots: map<uint64, CoreSlot>, policies: Policies, starts: Starts, height: int64, slot: CoreSlot)
    requires Histories(slots, policies, starts, height)
    requires slot.slotId in slots && slots[slot.slotId].slotId == slot.slotId
    requires slot.policyVersion == slots[slot.slotId].policyVersion
    requires slot.lastPolicyUpdate == slots[slot.slotId].lastPolicyUpdate
    ensures Histories(slots[slot.slotId := slot], policies, starts, height)
  {
    hide SlotHistory, Pace;
    var slots' := slots[slot.slotId := slot];
    assert slots'.Keys == slots.Keys;
    assert HistoryOk(policies[slot.slotId], starts[slot.slotId], slots[slot.slotId], height);
  }

  lemma ExtendHistories(slots: map<uint64, CoreSlot>, policies: Policies, starts: Starts, height: int64,
      slot: CoreSlot, rows: map<uint64, Policy>, index: map<int64, uint64>)
    requires Histories(slots, policies, starts, height)
    requires HistoryOk(rows, index, slot, height)
    ensures Histories(slots[slot.slotId := slot], policies[slot.slotId := rows], starts[slot.slotId := index], height)
  {
    hide HistoryOk;
  }

  // ----- Messages -----

  /** Rewriting only what the invariant does not read. */
  predicate SameShape(a: CoreSlot, b: CoreSlot) {
    && a.slotId == b.slotId && a.operator == b.operator && a.key == b.key && a.status == b.status
    && a.power == b.power && a.policyVersion == b.policyVersion && a.lastPolicyUpdate == b.lastPolicyUpdate
  }

  /** What the invariant says of one slot. */
  lemma SlotFacts(rules: Rules, s: Store, height: int64, id: uint64)
    requires Inv(rules, s, height) && id in s.slots
    ensures RowOk(rules, s.slots[id], id, s.nextSlotId, s.params.votingPower)
    ensures id in s.active <==> s.slots[id].status == Active
    ensures id in s.rotations ==> RotationOk(rules, s.slots, s.rotations[id], id)
    ensures id in s.policies && id in s.starts && HistoryOk(s.policies[id], s.starts[id], s.slots[id], height)
  {
    hide Bounds, MostSlots;
  }

  lemma ConfigurationKeeps(rules: Rules, s: Store, height: int64, slot: CoreSlot)
    requires Inv(rules, s, height)
    requires slot.slotId in s.slots && SameShape(slot, s.slots[slot.slotId]) && slot.status != Removed
    ensures Inv(rules, s.(slots := s.slots[slot.slotId := slot]), height)
  {
    hide SlotRows, ActiveIndex, OperatorIndex, ConsensusIndex, RotationRows, Histories, HistoryOk,
      EndBlock.KeyedByAddress, Bounds, MostSlots;
    SlotFacts(rules, s, height, slot.slotId);
    PutRow(rules, s.slots, s.nextSlotId, s.params.votingPower, slot, s.nextSlotId);
    PutActiveIndex(s.slots, s.active, slot);
    assert s.active == if slot.status == Active then s.active + {slot.slotId} else s.active - {slot.slotId};
    PutOperatorIndex(s.slots, s.byOperator, slot);
    PutConsensusIndex(rules, s.slots, s.rotations, s.byConsensus, slot);
    PutRotationRows(rules, s.slots, s.rotations, slot);
    PutHistories(s.slots, s.policies, s.starts, height, slot);
  }

  /** No message can find the id counter unset or naming a slot that exists. */
  lemma CounterIsFresh(rules: Rules, s: Store, height: int64)
    requires Inv(rules, s, height)
    ensures s.nextSlotId !in s.slots && NextSlotId(s) == Success(s.nextSlotId)
  {
    hide Bounds, MostSlots, Histories, OperatorIndex, ConsensusIndex;
    assert s.nextSlotId in s.slots ==>
        RowOk(rules, s.slots[s.nextSlotId], s.nextSlotId, s.nextSlotId, s.params.votingPower);
  }

  /** The first version a registration gives its slot. */
  function FirstPolicy(id: uint64, height: int64, policy: InitialPolicy): Policy {
    Policy(id, INITIAL_POLICY_VERSION, policy.rate, policy.maxParticipants, height, 0)
  }

  /** The rows an accepted registration leaves under its new id. */
  function Registered(rules: Rules, s: Store, height: int64, slot: CoreSlot, policy: InitialPolicy): Store
    requires s.nextSlotId < MAX_UINT64
  {
    var id, a := s.nextSlotId, Address(rules, slot.key);
    var rows: map<uint64, Policy>, index: map<int64, uint64> := map[1 := FirstPolicy(id, height, policy)],
        map[height := 1];
    s.(slots := s.slots[id := slot],
       byOperator := s.byOperator[slot.operator := id],
       byConsensus := s.byConsensus[a := id],
       reserved := s.reserved - {a},
       rewardWeights := s.rewardWeights[id := NewRewardWeight(id, height)],
       nextSlotId := id + 1,
       policies := s.policies[id := rows],
       starts := s.starts[id := index])
  }

  lemma RegisterEffect(rules: Rules, s: Store, height: int64, authority: string, operator: string, key: PubKey,
      payout: string, settlement: string, metadata: Option<Metadata>, policy: Option<InitialPolicy>)
    requires Inv(rules, s, height)
    requires Register(rules, s, height, authority, operator, key, payout, settlement, metadata, policy).Success?
    ensures s.nextSlotId !in s.slots && s.nextSlotId < MAX_UINT64 && operator !in s.byOperator
    ensures ConsensusKey(rules, key) == Success(Address(rules, key)) && Address(rules, key) !in s.byConsensus
    ensures Address(rules, key) in s.reserved ==> s.reserved[Address(rules, key)].until <= height
    ensures policy.Some? && ValidPolicyValues(policy.value.rate, policy.value.maxParticipants)
    ensures Register(rules, s, height, authority, operator, key, payout, settlement, metadata, policy).value ==
            Registered(rules, s, height, NewSlot(s.nextSlotId, height, operator, key, payout, settlement, metadata),
                policy.value)
  {
    hide Inv, Frames, FramesPolicies, NewRewardWeight, ValidPolicyValues, AdmitRegistration;
    CounterIsFresh(rules, s, height);
    NoActive(rules, s, height, s.nextSlotId);
    assert Inner(s.policies, s.nextSlotId) == map[] && Inner(s.starts, s.nextSlotId) == map[];
  }

  lemma RegisterKeeps(rules: Rules, s: Store, height: int64, authority: string, operator: string, key: PubKey,
      payout: string, settlement: string, metadata: Option<Metadata>, policy: Option<InitialPolicy>)
    requires Inv(rules, s, height)
    ensures var r := Register(rules, s, height, authority, operator, key, payout, settlement, metadata, policy);
            r.Success? ==> Inv(rules, r.value, height)
  {
    hide SlotRows, ActiveIndex, OperatorIndex, ConsensusIndex, RotationRows, Histories, HistoryOk,
      EndBlock.KeyedByAddress, Bounds, MostSlots, Register, NewRewardWeight, Address, ConsensusKey;
    if Register(rules, s, height, authority, operator, key, payout, settlement, metadata, policy).Success? {
      RegisterEffect(rules, s, height, authority, operator, key, payout, settlement, metadata, policy);
      var id := s.nextSlotId;
      var slot := NewSlot(id, height, operator, key, payout, settlement, metadata);
      RowsStartAtOne(rules, s, height);
      PutRow(rules, s.slots, s.nextSlotId, s.params.votingPower, slot, id + 1);
      NoActive(rules, s, height, id);
      PutActiveIndex(s.slots, s.active, slot);
      assert s.active - {id} == s.active;
      AddOperatorIndex(s.slots, s.byOperator, slot);
      AddConsensusIndex(rules, s.slots, s.rotations, s.byConsensus, slot);
      PutRotationRows(rules, s.slots, s.rotations, slot);
      NewHistory(FirstPolicy(id, height, policy.value), slot, height);
      ExtendHistories(s.slots, s.policies, s.starts, height, slot, map[1 := FirstPolicy(id, height, policy.value)],
          map[height := 1]);
    }
  }

  lemma NoActive(rules: Rules, s: Store, height: int64, id: uint64)
    requires Inv(rules, s, height) && id !in s.slots
    ensures id !in s.active && id !in s.rotations && id !in s.policies && id !in s.starts
  {
    hide Bounds, MostSlots, OperatorIndex, ConsensusIndex, HistoryOk;
  }

  lemma NewHistory(p: Policy, slot: CoreSlot, height: int64)
    requires GoodRow(p, p.slotId, 1) && p.validUntil == 0 && p.validFrom == height
    requires slot.slotId == p.slotId && slot.policyVersion == 1 && slot.lastPolicyUpdate == 0
    ensures HistoryOk(map[1 := p], map[height := 1], slot, height)
  {
    FirstVersion(p);
  }

  lemma ActivateKeeps(rules: Rules, s: Store, height: int64, authority: string, id: uint64)
    requires Inv(rules, s, height)
    ensures var r := Activate(rules, s, height, authority, id); r.Success? ==> Inv(rules, r.value, height)
  {
    hide SlotRows, ActiveIndex, OperatorIndex, ConsensusIndex, RotationRows, Histories, HistoryOk,
      EndBlock.KeyedByAddress, Bounds, MostSlots;
    var r := Activate(rules, s, height, authority, id);
    if r.Success? {
      SlotFacts(rules, s, height, id);
      RoomForOneMore(s.params, |s.active|);
      var slot := r.value.slots[id];
      assert r.value.slots == s.slots[id := slot];
      PutRow(rules, s.slots, s.nextSlotId, s.params.votingPower, slot, s.nextSlotId);
      PutActiveIndex(s.slots, s.active, slot);
      PutOperatorIndex(s.slots, s.byOperator, slot);
      PutConsensusIndex(rules, s.slots, s.rotations, s.byConsensus, slot);
      PutRotationRows(rules, s.slots, s.rotations, slot);
      PutHistories(s.slots, s.policies, s.starts, height, slot);
    }
  }

  /** Leaving a status for INACTIVE or SUSPENDED; the staged rotation goes with it. */
  lemma LeaveKeeps(rules: Rules, s: Store, height: int64, slot: CoreSlot)
    requires Inv(rules, s, height)
    requires slot.slotId in s.slots && s.slots[slot.slotId].status != Removed
    requires SameShape(slot, s.slots[slot.slotId].(status := slot.status, power := 0))
    requires slot.status == Inactive || slot.status == Suspended
    requires s.slots[slot.slotId].status == Active ==> |s.active| > 1
    ensures Leave(rules, s, slot).Success? && Inv(rules, Leave(rules, s, slot).value, height)
    ensures slot.slotId !in Leave(rules, s, slot).value.rotations
  {
    hide SlotRows, ActiveIndex, OperatorIndex, ConsensusIndex, RotationRows, Histories, HistoryOk,
      EndBlock.KeyedByAddress, Bounds, MostSlots;
    var id := slot.slotId;
    SlotFacts(rules, s, height, id);
    PutRow(rules, s.slots, s.nextSlotId, s.params.votingPower, slot, s.nextSlotId);
    PutActiveIndex(s.slots, s.active, slot);
    assert 1 <= |s.active - {id}| <= |s.active| by {
      if id in s.active { assert |s.active - {id}| == |s.active| - 1; } else { assert s.active - {id} == s.active; }
    }
    PutOperatorIndex(s.slots, s.byOperator, slot);
    PutHistories(s.slots, s.policies, s.starts, height, slot);
    var s' := Unstaged(rules, s, id);
    UnstageKeeps(rules, s, id);
    PutConsensusIndex(rules, s.slots, s'.rotations, s'.byConsensus, slot);
    PutRotationRows(rules, s.slots, s'.rotations, slot);
  }

  /** The store without the slot's staged rotation and its key. */
  function Unstaged(rules: Rules, s: Store, id: uint64): Store {
    if id !in s.rotations then s
    else s.(byConsensus := s.byConsensus - {Address(rules, s.rotations[id].newKey)}, rotations := s.rotations - {id})
  }

  lemma UnstageKeeps(rules: Rules, s: Store, id: uint64)
    requires ConsensusIndex(rules, s.slots, s.rotations, s.byConsensus) && RotationRows(rules, s.slots, s.rotations)
    ensures var s' := Unstaged(rules, s, id);
            && ConsensusIndex(rules, s.slots, s'.rotations, s'.byConsensus)
            && RotationRows(rules, s.slots, s'.rotations)
            && id !in s'.rotations
  {
    if id in s.rotations { UnstageConsensusIndex(rules, s.slots, s.rotations, s.byConsensus, id); }
  }

  lemma InactivateKeeps(rules: Rules, s: Store, height: int64, caller: string, id: uint64)
    requires Inv(rules, s, height)
    ensures var r := Inactivate(rules, s, height, caller, id); r.Success? ==> Inv(rules, r.value, height)
  {
    hide SlotRows, ActiveIndex, OperatorIndex, ConsensusIndex, RotationRows, Histories, HistoryOk,
      EndBlock.KeyedByAddress, Bounds, MostSlots;
    if Inactivate(rules, s, height, caller, id).Success? {
      SlotFacts(rules, s, height, id);
      AtLeastOneMore(s.params, |s.active|);
      LeaveKeeps(rules, s, height, s.slots[id].(status := Inactive, power := 0, updatedHeight := height));
    }
  }

  lemma RoomForOneMore(p: Params, count: nat)
    requires Bounds(p) && count < p.maxActive
    ensures p.votingPower > 0 && count + 1 <= MostSlots(p.votingPower) && count + 1 <= HARD_MAX_ACTIVE_CORE_SLOTS
  {
  }

  lemma AtLeastOneMore(p: Params, count: nat)
    requires Bounds(p) && count > p.minActive
    ensures count > 1
  {
  }

  lemma SuspendKeeps(rules: Rules, s: Store, height: int64, authority: string, id: uint64)
    requires Inv(rules, s, height)
    ensures var r := Suspend(rules, s, height, authority, id); r.Success? ==> Inv(rules, r.value, height)
  {
    hide SlotRows, ActiveIndex, OperatorIndex, ConsensusIndex, RotationRows, Histories, HistoryOk,
      EndBlock.KeyedByAddress, Bounds, MostSlots;
    if Suspend(rules, s, height, authority, id).Success? {
      SlotFacts(rules, s, height, id);
      LeaveKeeps(rules, s, height,
                 s.slots[id].(status := Suspended, power := 0, suspendedHeight := height, updatedHeight := height));
    }
  }

  lemma RemoveKeeps(rules: Rules, s: Store, height: int64, authority: string, id: uint64, reason: string)
    requires Inv(rules, s, height)
    ensures var r := Remove(rules, s, height, authority, id, reason); r.Success? ==> Inv(rules, r.value, height)
  {
    hide SlotRows, ActiveIndex, OperatorIndex, ConsensusIndex, RotationRows, Histories, HistoryOk,
      EndBlock.KeyedByAddress, Bounds, MostSlots;
    var r := Remove(rules, s, height, authority, id, reason);
    if r.Success? {
      SlotFacts(rules, s, height, id);
      var slot := s.slots[id].(status := Removed, power := 0, removedHeight := height, updatedHeight := height);
      PutRow(rules, s.slots, s.nextSlotId, s.params.votingPower, slot, s.nextSlotId);
      PutActiveIndex(s.slots, s.active, slot);
      RemoveOperatorIndex(s.slots, s.byOperator, slot);
      RemoveConsensusIndex(rules, s.slots, s.rotations, s.byConsensus, slot);
      PutRotationRows(rules, s.slots, s.rotations, slot);
      PutHistories(s.slots, s.policies, s.starts, height, slot);
      assert s.active - {id} == s.active;
    }
  }

  lemma RotateKeeps(rules: Rules, s: Store, height: int64, authority: string, id: uint64, key: PubKey)
    requires Inv(rules, s, height)
    ensures var r := Rotate(rules, s, height, authority, id, key); r.Success? ==> Inv(rules, r.value, height)
  {
    hide SlotRows, ActiveIndex, OperatorIndex, ConsensusIndex, RotationRows, Histories, HistoryOk,
      EndBlock.KeyedByAddress, Bounds, MostSlots;
    var r := Rotate(rules, s, height, authority, id, key);
    if r.Success? {
      SlotFacts(rules, s, height, id);
      if s.slots[id].status == Active {
        var rotation := r.value.rotations[id];
        StageConsensusIndex(rules, s.slots, s.rotations, s.byConsensus, rotation);
        OwnKeyIndexed(rules, s, height, id);
        StageRotationRows(rules, s.slots, s.rotations, rotation);
      } else {
        var slot := s.slots[id].(key := key, updatedHeight := height);
        PutRow(rules, s.slots, s.nextSlotId, s.params.votingPower, slot, s.nextSlotId);
        PutActiveIndex(s.slots, s.active, slot);
        PutOperatorIndex(s.slots, s.byOperator, slot);
        RekeyConsensusIndex(rules, s.slots, s.rotations, s.byConsensus, slot);
        PutRotationRows(rules, s.slots, s.rotations, slot);
        PutHistories(s.slots, s.policies, s.starts, height, slot);
        assert s.active - {id} == s.active;
      }
    }
  }

  lemma OwnKeyIndexed(rules: Rules, s: Store, height: int64, id: uint64)
    requires Inv(rules, s, height) && id in s.slots && s.slots[id].status != Removed
    ensures Address(rules, s.slots[id].key) in s.byConsensus && s.byConsensus[Address(rules, s.slots[id].key)] == id
  {
    hide Bounds, MostSlots, OperatorIndex, HistoryOk;
  }

  lemma StageRotationRows(rules: Rules, slots: map<uint64, CoreSlot>, rotations: map<uint64, Rotation>, r: Rotation)
    requires RotationRows(rules, slots, rotations) && RotationOk(rules, slots, r, r.slotId)
    ensures RotationRows(rules, slots, rotations[r.slotId := r])
  {
  }

  /** The version an accepted update of `slot` appends. */
  function NextPolicy(slot: CoreSlot, height: int64, rate: uint64, maxParticipants: uint64): Policy
    requires slot.policyVersion < MAX_UINT64 && height < MAX_INT64
  {
    Policy(slot.slotId, slot.policyVersion + 1, rate, maxParticipants, height + 1, 0)
  }

  /** The cooldown since the last update has passed, or there has been none. */
  predicate Rested(p: Params, slot: CoreSlot, height: int64) {
    slot.lastPolicyUpdate != 0 ==> height >= slot.lastPolicyUpdate + p.policyCooldown
  }

  lemma RestedIsCooldown(p: Params, slot: CoreSlot, height: int64)
    requires PolicyCooldown(p, slot, height).Success?
    ensures Rested(p, slot, height)
  {
  }

  /** An admitted update closes the slot's current version. */
  lemma UpdateAdmitted(s: Store, slot: CoreSlot, height: int64, rate: uint64, maxParticipants: uint64)
    requires AdmitPolicyUpdate(s, slot, height, rate, maxParticipants).Success?
    ensures var rows := Inner(s.policies, slot.slotId);
            var current := AdmitPolicyUpdate(s, slot, height, rate, maxParticipants).value;
            && slot.policyVersion in rows && current == rows[slot.policyVersion]
            && current.version == slot.policyVersion && current.slotId == slot.slotId
    ensures Rested(s.params, slot, height) && ValidPolicyValues(rate, maxParticipants)
  {
    hide PolicyCooldown, ValidPolicyValues, Rested;
    RestedIsCooldown(s.params, slot, height);
  }

  lemma VersionPrepared(s: Store, slot: CoreSlot, current: Policy, height: int64, rate: uint64, maxParticipants: uint64)
    requires NextVersion(s, slot, current, height, rate, maxParticipants).Success?
    ensures current.version < MAX_UINT64 && height < MAX_INT64
    ensures NextVersion(s, slot, current, height, rate, maxParticipants).value ==
            Policy(slot.slotId, current.version + 1, rate, maxParticipants, height + 1, 0)
  {
    hide ValidatePolicyTransitionSeam;
  }

  lemma VersionAppended(s: Store, slot: CoreSlot, height: int64, rate: uint64, maxParticipants: uint64)
    requires slot.slotId in s.policies && slot.slotId in s.starts && slot.policyVersion in s.policies[slot.slotId]
    requires slot.policyVersion < MAX_UINT64 && height < MAX_INT64
    requires s.policies[slot.slotId][slot.policyVersion].version == slot.policyVersion
    ensures var id, p := slot.slotId, NextPolicy(slot, height, rate, maxParticipants);
            AppendVersion(s, slot, s.policies[id][slot.policyVersion], height, p) ==
            s.(slots := s.slots[id := slot.(policyVersion := p.version, lastPolicyUpdate := height,
                                            updatedHeight := height)],
               policies := s.policies[id := Superseded(s.policies[id], slot.policyVersion, p)],
               starts := s.starts[id := IndexedWith(s.starts[id], p)])
  {
  }

  /** What an accepted policy update writes. */
  lemma PolicyUpdateEffect(rules: Rules, s: Store, height: int64, operator: string, id: uint64, rate: uint64,
      maxParticipants: uint64)
    requires Inv(rules, s, height)
    requires UpdatePolicy(s, height, operator, id, rate, maxParticipants).Success?
    ensures var s' := UpdatePolicy(s, height, operator, id, rate, maxParticipants).value;
            && id in s.slots
            && var slot := s.slots[id];
            && slot.policyVersion < MAX_UINT64 && height < MAX_INT64 && slot.slotId == id && slot.status != Removed
            && Rested(s.params, slot, height) && ValidPolicyValues(rate, maxParticipants)
            && var p := NextPolicy(slot, height, rate, maxParticipants);
            && slot.policyVersion in s.policies[id]
            && s' == s.(
                 slots := s.slots[id := slot.(policyVersion := p.version, lastPolicyUpdate := height,
                                                updatedHeight := height)],
                 policies := s.policies[id := Superseded(s.policies[id], slot.policyVersion, p)],
                 starts := s.starts[id := IndexedWith(s.starts[id], p)])
  {
    hide Inv, HistoryOk, AdmitPolicyUpdate, NextVersion, AppendVersion, Rested, Superseded, IndexedWith, Frames,
      ValidPolicyValues;
    SlotFacts(rules, s, height, id);
    var slot := s.slots[id];
    UpdateAdmitted(s, slot, height, rate, maxParticipants);
    var current := AdmitPolicyUpdate(s, slot, height, rate, maxParticipants).value;
    VersionPrepared(s, slot, current, height, rate, maxParticipants);
    VersionAppended(s, slot, height, rate, maxParticipants);
  }

  lemma UpdatePolicyKeeps(rules: Rules, s: Store, height: int64, operator: string, id: uint64, rate: uint64,
      maxParticipants: uint64)
    requires Inv(rules, s, height)
    ensures var r := UpdatePolicy(s, height, operator, id, rate, maxParticipants); r.Success? ==>
        Inv(rules, r.value, height)
  {
    hide SlotRows, ActiveIndex, OperatorIndex, ConsensusIndex, RotationRows, Histories, HistoryOk,
      EndBlock.KeyedByAddress, Bounds, UpdatePolicy;
    var r := UpdatePolicy(s, height, operator, id, rate, maxParticipants);
    if r.Success? {
      PolicyUpdateEffect(rules, s, height, operator, id, rate, maxParticipants);
      SlotFacts(rules, s, height, id);
      CooldownFloor(s.params);
      var slot := r.value.slots[id];
      PutRow(rules, s.slots, s.nextSlotId, s.params.votingPower, slot, s.nextSlotId);
      PutActiveIndex(s.slots, s.active, slot);
      assert s.active == if slot.status == Active then s.active + {id} else s.active - {id};
      PutOperatorIndex(s.slots, s.byOperator, slot);
      PutConsensusIndex(rules, s.slots, s.rotations, s.byConsensus, slot);
      PutRotationRows(rules, s.slots, s.rotations, slot);
      UpdatedHistory(s.policies[id], s.starts[id], s.params, s.slots[id], slot, height, rate, maxParticipants);
      ExtendHistories(s.slots, s.policies, s.starts, height, slot, r.value.policies[id], r.value.starts[id]);
    }
  }

  lemma CooldownFloor(p: Params)
    requires Bounds(p)
    ensures p.policyCooldown >= HARD_MIN_COOLDOWN_BLOCKS
  {
  }

  /** At an update the open version started no later than now, so the next one follows it. */
  lemma OpenStarted(rows: map<uint64, Policy>, starts: map<int64, uint64>, p: Params, slot: CoreSlot, height: int64)
    requires HistoryOk(rows, starts, slot, height) && Rested(p, slot, height)
    requires p.policyCooldown >= HARD_MIN_COOLDOWN_BLOCKS
    ensures slot.policyVersion in rows && rows[slot.policyVersion].validFrom <= height
  {
  }

  lemma UpdatedHistory(rows: map<uint64, Policy>, starts: map<int64, uint64>, p: Params, slot: CoreSlot,
      slot': CoreSlot, height: int64, rate: uint64, maxParticipants: uint64)
    requires HistoryOk(rows, starts, slot, height) && Rested(p, slot, height) && 1 <= height < MAX_INT64
    requires p.policyCooldown >= HARD_MIN_COOLDOWN_BLOCKS
    requires slot.policyVersion < MAX_UINT64 && ValidPolicyValues(rate, maxParticipants)
    requires slot' == slot.(policyVersion := slot.policyVersion + 1, lastPolicyUpdate := height,
        updatedHeight := height)
    ensures var next := NextPolicy(slot, height, rate, maxParticipants);
            HistoryOk(Superseded(rows, slot.policyVersion, next), IndexedWith(starts, next), slot', height)
  {
    var next := NextPolicy(slot, height, rate, maxParticipants);
    OpenStarted(rows, starts, p, slot, height);
    SupersedeKeepsHistory(rows, starts, slot.slotId, slot.policyVersion, next);
    KeepsPace(rows, p, slot, height, next);
  }

  lemma KeepsPace(rows: map<uint64, Policy>, p: Params, slot: CoreSlot, height: int64, next: Policy)
    requires 1 in rows && slot.policyVersion in rows && Pace(rows, slot.policyVersion, slot.lastPolicyUpdate, height)
    requires Rested(p, slot, height) && p.policyCooldown >= HARD_MIN_COOLDOWN_BLOCKS
    requires 1 <= slot.policyVersion && 1 <= height
    requires next.version == slot.policyVersion + 1 && next.validFrom == height + 1
    ensures Pace(Superseded(rows, slot.policyVersion, next), next.version, height, height)
  {
  }

  /** The seam check before a policy update never refuses: nothing is missing, nothing is occupied. */
  lemma SeamIsSound(rules: Rules, s: Store, height: int64, id: uint64)
    requires Inv(rules, s, height) && id in s.slots && height < MAX_INT64
    requires s.slots[id].policyVersion < MAX_UINT64
    requires PolicyCooldown(s.params, s.slots[id], height).Success?
    ensures CurrentPolicy(s, s.slots[id]).Success?
    ensures ValidatePolicyTransitionSeam(s, s.slots[id], CurrentPolicy(s, s.slots[id]).value, height,
                                         height + 1, s.slots[id].policyVersion + 1) == Success(())
  {
    hide SlotRows, ActiveIndex, OperatorIndex, ConsensusIndex, RotationRows, Histories, HistoryOk,
      EndBlock.KeyedByAddress, Bounds, MostSlots;
    SlotFacts(rules, s, height, id);
    CooldownFloor(s.params);
    RestedIsCooldown(s.params, s.slots[id], height);
    OpenStarted(s.policies[id], s.starts[id], s.params, s.slots[id], height);
    OpenRowResolves(s.policies[id], s.starts[id], s.slots[id], height);
  }

  lemma OpenRowResolves(rows: map<uint64, Policy>, starts: map<int64, uint64>, slot: CoreSlot, height: int64)
    requires HistoryOk(rows, starts, slot, height) && height < MAX_INT64 && slot.policyVersion < MAX_UINT64
    requires rows[slot.policyVersion].validFrom <= height
    ensures slot.policyVersion >= 1 && slot.policyVersion in rows
    ensures GoodRow(rows[slot.policyVersion], slot.slotId, slot.policyVersion)
    ensures rows[slot.policyVersion].validUntil == 0
    ensures Lookup(rows, starts, slot.slotId, height) == Success(rows[slot.policyVersion])
    ensures slot.policyVersion + 1 !in rows && height + 1 !in starts
  {
    hide Lookup, Scan, Indexed, Pace;
    var id, current := slot.slotId, slot.policyVersion;
    SeekIsScan(rows, starts, id, current, height);
    ScanFinds(rows, id, current, height, 1, current);
    SupersedeKeepsHistory(rows, starts, id, current, Policy(id, current + 1, 1, 1, height + 1, 0));
  }

  lemma ReplaceParamsKeeps(rules: Rules, s: Store, height: int64, authority: string, params: Option<Params>)
    requires Inv(rules, s, height)
    ensures var r := ReplaceParams(rules, s, authority, params);
            r.Success? ==> Inv(rules, r.value, height) && r.value.params.votingPower == s.params.votingPower
  {
    hide SlotRows, ActiveIndex, OperatorIndex, ConsensusIndex, RotationRows, Histories, EndBlock.KeyedByAddress,
      MostSlots;
    var r := ReplaceParams(rules, s, authority, params);
    if r.Success? {
      assert forall role :: CurrentHolder(r.value.params, role) == CurrentHolder(s.params, role);
    }
  }

  lemma AuthorityKeeps(rules: Rules, s: Store, height: int64, msg: Msg)
    requires Inv(rules, s, height)
    requires msg.NominateAuthority? || msg.AcceptAuthority? || msg.CancelAuthorityNomination?
    ensures Inv(rules, Deliver(rules, s, height, msg), height)
    ensures Deliver(rules, s, height, msg).params.votingPower == s.params.votingPower
  {
    hide SlotRows, ActiveIndex, OperatorIndex, ConsensusIndex, RotationRows, Histories, HistoryOk,
      EndBlock.KeyedByAddress, Bounds, MostSlots, Nominations, Nominate, Accept, CancelNomination;
    AuthorityFrame(rules, s, height, msg);
    AuthorityNominations(rules, s, height, msg);
    BoundsIgnoreHolders(s.params, Deliver(rules, s, height, msg).params);
  }

  /** The authority messages change holders and nominations only. */
  lemma AuthorityFrame(rules: Rules, s: Store, height: int64, msg: Msg)
    requires msg.NominateAuthority? || msg.AcceptAuthority? || msg.CancelAuthorityNomination?
    ensures var s' := Deliver(rules, s, height, msg);
            && s' == s.(params := s'.params, nominations := s'.nominations)
            && s'.params == s.params.(authority := s'.params.authority,
                                      emergencyAuthority := s'.params.emergencyAuthority)
  {
  }

  lemma AuthorityNominations(rules: Rules, s: Store, height: int64, msg: Msg)
    requires Nominations(s.params, s.nominations)
    requires msg.NominateAuthority? || msg.AcceptAuthority? || msg.CancelAuthorityNomination?
    ensures var s' := Deliver(rules, s, height, msg); Nominations(s'.params, s'.nominations)
  {
    hide Nominations, Nominate, Accept, CancelNomination;
    match msg
    case NominateAuthority(authority, role, nominee) =>
      NominateNominations(rules, s, height, authority, role, nominee);
    case AcceptAuthority(nominee, role) => AcceptNominations(rules, s, nominee, role);
    case CancelAuthorityNomination(authority, role) => CancelNominations(s, authority, role);
    case _ =>
  }

  lemma NominateNominations(rules: Rules, s: Store, height: int64, authority: string, role: Role, nominee: string)
    requires Nominations(s.params, s.nominations)
    ensures var r := Nominate(rules, s, height, authority, role, nominee);
            r.Success? ==> Nominations(r.value.params, r.value.nominations)
  {
  }

  lemma AcceptNominations(rules: Rules, s: Store, nominee: string, role: Role)
    requires Nominations(s.params, s.nominations)
    ensures var r := Accept(rules, s, nominee, role);
            r.Success? ==> Nominations(r.value.params, r.value.nominations)
  {
  }

  lemma CancelNominations(s: Store, authority: string, role: Role)
    requires Nominations(s.params, s.nominations)
    ensures var r := CancelNomination(s, authority, role);
            r.Success? ==> Nominations(r.value.params, r.value.nominations)
  {
  }

  lemma BoundsIgnoreHolders(p: Params, q: Params)
    requires Bounds(p) && q == p.(authority := q.authority, emergencyAuthority := q.emergencyAuthority)
    ensures Bounds(q)
  {
  }

  lemma RowsStartAtOne(rules: Rules, s: Store, height: int64)
    requires Inv(rules, s, height)
    ensures s.nextSlotId >= 1
  {
    hide Bounds, MostSlots;
  }

  /** No message moves the voting power or the last applied set. */
  lemma MessageFrame(rules: Rules, s: Store, height: int64, msg: Msg)
    requires |s.active| > 0
    ensures var s' := Deliver(rules, s, height, msg);
            s'.params.votingPower == s.params.votingPower && s'.lastApplied == s.lastApplied
  {
    hide Register, Activate, Inactivate, Suspend, Remove, Rotate, UpdatePayout, UpdateMetadata, UpdateSettlement,
      UpdatePolicy;
  }

  /** Every message, accepted or refused, keeps the invariant. */
  lemma MessageKeeps(rules: Rules, s: Store, height: int64, msg: Msg)
    requires Inv(rules, s, height)
    ensures Inv(rules, Deliver(rules, s, height, msg), height)
  {
    hide Inv, Register, Activate, Inactivate, Suspend, Remove, Rotate, UpdatePayout, UpdateMetadata, UpdateSettlement,
      UpdatePolicy, ReplaceParams, Nominate, Accept, CancelNomination;
    match msg
    case RegisterCoreSlot(authority, operator, key, payout, settlement, metadata, policy) =>
      RegisterKeeps(rules, s, height, authority, operator, key, payout, settlement, metadata, policy);
    case ActivateCoreSlot(authority, id) => ActivateKeeps(rules, s, height, authority, id);
    case InactivateCoreSlot(caller, id) => InactivateKeeps(rules, s, height, caller, id);
    case SuspendCoreSlot(authority, id) => SuspendKeeps(rules, s, height, authority, id);
    case RemoveCoreSlot(authority, id, reason) => RemoveKeeps(rules, s, height, authority, id, reason);
    case RotateConsensusKey(authority, id, key) => RotateKeeps(rules, s, height, authority, id, key);
    case UpdatePayoutAddress(_, id, _) => OperatorMessageKeeps(rules, s, height, msg, id);
    case UpdateOperatorMetadata(_, id, _) => OperatorMessageKeeps(rules, s, height, msg, id);
    case UpdateSettlementAddress(_, id, _) => OperatorMessageKeeps(rules, s, height, msg, id);
    case UpdateSelectionPolicy(operator, id, rate, max) =>
      UpdatePolicyKeeps(rules, s, height, operator, id, rate, max);
    case UpdateParams(authority, params) => ReplaceParamsKeeps(rules, s, height, authority, params);
    case NominateAuthority(_, _, _) => AuthorityKeeps(rules, s, height, msg);
    case AcceptAuthority(_, _) => AuthorityKeeps(rules, s, height, msg);
    case CancelAuthorityNomination(_, _) => AuthorityKeeps(rules, s, height, msg);
  }

  lemma OperatorMessageKeeps(rules: Rules, s: Store, height: int64, msg: Msg, id: uint64)
    requires Inv(rules, s, height)
    requires match msg
      case UpdatePayoutAddress(_, i, _) => i == id
      case UpdateOperatorMetadata(_, i, _) => i == id
      case UpdateSettlementAddress(_, i, _) => i == id
      case _ => false
    ensures Inv(rules, Deliver(rules, s, height, msg), height)
  {
    hide SlotRows, ActiveIndex, OperatorIndex, ConsensusIndex, RotationRows, Histories, HistoryOk,
      EndBlock.KeyedByAddress, Bounds, MostSlots;
    if Handle(rules, s, height, msg).Success? {
      SlotFacts(rules, s, height, id);
      ConfigurationKeeps(rules, s, height, Deliver(rules, s, height, msg).slots[id]);
    }
  }
}
