/**
 The end of a block from a reachable store: every due rotation applies, no defensive
 check fires, and the updates turn the last validator set into the ACTIVE slots.
 */
module BlockEnd {
  import opened Machine
  import opened Ordering
  import opened CoreSlotTypes
  import opened Handlers
  import opened PolicyHistory
  import opened Invariant
  import opened EndBlock

  // ----- Due rotations -----

  /** Applying one staged rotation succeeds, and this is what it changes. */
  lemma RotationApplies(rules: Rules, s: Store, height: int64, r: Rotation)
    requires Inv(rules, s, height)
    requires r.slotId in s.rotations && s.rotations[r.slotId] == r
    ensures ApplyRotation(rules, s, height, r).Success?
    ensures var s' := ApplyRotation(rules, s, height, r).value;
            && Inv(rules, s', height)
            && s'.params == s.params && s'.active == s.active && s'.lastApplied == s.lastApplied
            && s'.rotations == s.rotations - {r.slotId}
            && r.slotId in s.slots
            && s'.slots == s.slots[r.slotId := s.slots[r.slotId].(key := r.newKey, updatedHeight := height)]
  {
    hide SlotRows, ActiveIndex, OperatorIndex, ConsensusIndex, RotationRows, Histories, HistoryOk, KeyedByAddress,
      Bounds, MostSlots;
    var id := r.slotId;
    RotationFacts(rules, s, height, id);
    SlotFacts(rules, s, height, id);
    var slot := s.slots[id].(key := r.newKey, updatedHeight := height);
    PutRow(rules, s.slots, s.nextSlotId, s.params.votingPower, slot, s.nextSlotId);
    PutActiveIndex(s.slots, s.active, slot);
    assert s.active + {id} == s.active;
    PutOperatorIndex(s.slots, s.byOperator, slot);
    PromoteConsensusIndex(rules, s.slots, s.rotations, s.byConsensus, slot);
    DropRotation(rules, s.slots, s.rotations, id);
    PutRotationRows(rules, s.slots, s.rotations - {id}, slot);
    PutHistories(s.slots, s.policies, s.starts, height, slot);
  }

  lemma RotationFacts(rules: Rules, s: Store, height: int64, id: uint64)
    requires Inv(rules, s, height) && id in s.rotations
    ensures id in s.slots && RotationOk(rules, s.slots, s.rotations[id], id)
  {
    hide Bounds, MostSlots, HistoryOk, OperatorIndex, ConsensusIndex;
  }

  lemma DropRotation(rules: Rules, slots: map<uint64, CoreSlot>, rotations: map<uint64, Rotation>, id: uint64)
    requires RotationRows(rules, slots, rotations)
    ensures RotationRows(rules, slots, rotations - {id})
  {
  }

  /** Distinct rotations, all of them staged. */
  ghost predicate Staged(rotations: map<uint64, Rotation>, due: seq<Rotation>) {
    && (forall i :: 0 <= i < |due| ==> due[i].slotId in rotations && rotations[due[i].slotId] == due[i])
    && (forall i, j :: 0 <= i < j < |due| ==> due[i].slotId != due[j].slotId)
  }

  ghost predicate IsDue(due: seq<Rotation>, id: uint64) {
    exists i :: 0 <= i < |due| && due[i].slotId == id
  }

  /** What a slot's record is after its rotation, if it had one due. */
  ghost predicate Rotated(before: map<uint64, CoreSlot>, after: map<uint64, CoreSlot>,
      rotations: map<uint64, Rotation>, due: seq<Rotation>, height: int64, id: uint64) {
    && (id in after <==> id in before)
    && (id in before && !IsDue(due, id) ==> after[id] == before[id])
    && (IsDue(due, id) ==>
          && id in before && id in rotations
          && after[id] == before[id].(key := rotations[id].newKey, updatedHeight := height))
  }

  lemma {:induction false} RotationsApply(rules: Rules, s: Store, height: int64, due: seq<Rotation>)
    requires Inv(rules, s, height) && Staged(s.rotations, due)
    ensures ApplyRotations(rules, s, height, due).Success?
    ensures var s' := ApplyRotations(rules, s, height, due).value;
            && Inv(rules, s', height)
            && s'.params == s.params && s'.active == s.active && s'.lastApplied == s.lastApplied
            && (forall id: uint64 :: id in s'.rotations <==> id in s.rotations && !IsDue(due, id))
            && (forall id: uint64 :: id in s'.rotations ==> s'.rotations[id] == s.rotations[id])
            && (forall id: uint64 :: Rotated(s.slots, s'.slots, s.rotations, due, height, id))
    decreases |due|
  {
    hide Inv, ApplyRotation;
    if due != [] {
      RotationApplies(rules, s, height, due[0]);
      var s1 := ApplyRotation(rules, s, height, due[0]).value;
      var rest := due[1..];
      forall i | 0 <= i < |rest| ensures rest[i].slotId in s1.rotations && s1.rotations[rest[i].slotId] == rest[i] {
        assert rest[i] == due[i + 1];
      }
      RotationsApply(rules, s1, height, rest);
      var s' := ApplyRotations(rules, s1, height, rest).value;
      forall i | 0 <= i < |rest| ensures rest[i].slotId != due[0].slotId { assert rest[i] == due[i + 1]; }
      forall id: uint64
        ensures IsDue(due, id) <==> id == due[0].slotId || IsDue(rest, id)
        ensures Rotated(s.slots, s'.slots, s.rotations, due, height, id)
      {
        DueSplits(due, id);
        assert Rotated(s1.slots, s'.slots, s1.rotations, rest, height, id);
      }
    }
  }

  lemma DueSplits(due: seq<Rotation>, id: uint64)
    requires due != []
    ensures IsDue(due, id) <==> id == due[0].slotId || IsDue(due[1..], id)
  {
    if IsDue(due, id) {
      var i :| 0 <= i < |due| && due[i].slotId == id;
      assert i > 0 ==> due[1..][i - 1].slotId == id;
    }
    if IsDue(due[1..], id) {
      var i :| 0 <= i < |due| - 1 && due[1..][i].slotId == id;
      assert due[i + 1].slotId == id;
    }
  }

  lemma DueAreStaged(rules: Rules, s: Store, height: int64)
    requires Inv(rules, s, height)
    ensures Staged(s.rotations, DueRotations(s.rotations, height))
    ensures forall id: uint64 :: IsDue(DueRotations(s.rotations, height), id) <==>
                                 id in s.rotations && s.rotations[id].effective <= height
  {
    hide Inv;
    var due := DueRotations(s.rotations, height);
    var ids := AscendingIds(DueIds(s.rotations, height));
    forall i | 0 <= i < |ids|
      ensures ids[i] in s.rotations && due[i] == s.rotations[ids[i]] && due[i].slotId == ids[i]
      ensures due[i].effective <= height
    {
      assert ids[i] in ids;
      RotationFacts(rules, s, height, ids[i]);
    }
    forall id: uint64 | id in s.rotations && s.rotations[id].effective <= height ensures IsDue(due, id) {
      assert id in ids;
    }
  }

  // ----- The validator set -----

  /** `vals` gives every ACTIVE slot's address its power, and nothing else. */
  ghost predicate IsActiveSet(rules: Rules, slots: map<uint64, CoreSlot>, vals: map<string, int64>) {
    && (forall a :: a in vals ==>
          exists id :: id in slots && slots[id].status == Active && Address(rules, slots[id].key) == a)
    && (forall id: int :: id in slots && slots[id].status == Active ==>
          Address(rules, slots[id].key) in vals && vals[Address(rules, slots[id].key)] == slots[id].power)
  }

  lemma {:induction false} LoadSucceeds(slots: map<uint64, CoreSlot>, ids: seq<uint64>)
    requires forall i :: 0 <= i < |ids| ==> ids[i] in slots && slots[ids[i]].status == Active
    ensures LoadActive(slots, ids).Success?
    ensures |LoadActive(slots, ids).value| == |ids|
    ensures forall i :: 0 <= i < |ids| ==> LoadActive(slots, ids).value[i] == slots[ids[i]]
    decreases |ids|
  {
    if ids != [] {
      LoadSucceeds(slots, ids[..|ids| - 1]);
    }
  }

  /** The slot's validator is in `m` under its address. */
  predicate Listed(rules: Rules, m: map<string, Validator>, slot: CoreSlot) {
    var a := Address(rules, slot.key);
    a in m && m[a] == Validator(slot.slotId, slot.key, slot.power)
  }

  ghost predicate Names(rules: Rules, active: seq<CoreSlot>, a: string) {
    exists i :: 0 <= i < |active| && Address(rules, active[i].key) == a
  }

  ghost predicate Distinct(rules: Rules, active: seq<CoreSlot>) {
    && (forall i :: 0 <= i < |active| ==> ConsensusKey(rules, active[i].key).Success?)
    && (forall i, j :: 0 <= i < j < |active| ==> Address(rules, active[i].key) != Address(rules, active[j].key))
  }

  /** `m` lists exactly these slots. */
  ghost predicate Lists(rules: Rules, m: map<string, Validator>, active: seq<CoreSlot>) {
    && |m| == |active|
    && (forall i :: 0 <= i < |active| ==> Listed(rules, m, active[i]))
    && (forall a :: a in m ==> Names(rules, active, a))
  }

  lemma ListsOneMore(rules: Rules, m: map<string, Validator>, active: seq<CoreSlot>, slot: CoreSlot)
    requires Lists(rules, m, active)
    requires forall i :: 0 <= i < |active| ==> Address(rules, active[i].key) != Address(rules, slot.key)
    ensures Address(rules, slot.key) !in m
    ensures Lists(rules, m[Address(rules, slot.key) := Validator(slot.slotId, slot.key, slot.power)], active + [slot])
  {
    hide Address;
    var a, all := Address(rules, slot.key), active + [slot];
    var m' := m[a := Validator(slot.slotId, slot.key, slot.power)];
    forall i | 0 <= i < |all| ensures Listed(rules, m', all[i]) {
      if i < |active| { assert Listed(rules, m, active[i]) && all[i] == active[i]; }
    }
    forall b | b in m' ensures Names(rules, all, b) {
      if b == a {
        assert all[|active|] == slot;
      } else {
        var i :| 0 <= i < |active| && Address(rules, active[i].key) == b;
        assert all[i] == active[i];
      }
    }
  }

  lemma {:induction false} DesiredSucceeds(rules: Rules, active: seq<CoreSlot>)
    requires Distinct(rules, active)
    ensures Desired(rules, active).Success? && Lists(rules, Desired(rules, active).value, active)
    decreases |active|
  {
    hide Lists;
    if active == [] {
      NoneListed(rules);
    } else {
      var n := |active| - 1;
      var front := active[..n];
      DesiredSucceeds(rules, front);
      forall i | 0 <= i < n ensures Address(rules, front[i].key) != Address(rules, active[n].key) {}
      ListsOneMore(rules, Desired(rules, front).value, front, active[n]);
      assert front + [active[n]] == active;
    }
  }

  lemma NoneListed(rules: Rules)
    ensures Lists(rules, map[], [])
  {
  }

  /** An ACTIVE slot's row, in order. */
  predicate ActiveRow(rules: Rules, s: Store, id: uint64, slot: CoreSlot) {
    && id in s.slots && slot == s.slots[id] && slot.status == Active
    && RowOk(rules, slot, id, s.nextSlotId, s.params.votingPower)
  }

  lemma ActiveMember(rules: Rules, s: Store, height: int64, id: uint64)
    requires Inv(rules, s, height)
    ensures id in s.active <==> id in s.slots && s.slots[id].status == Active
    ensures id in s.active ==> ActiveRow(rules, s, id, s.slots[id]) && Owner(rules, s, id)
  {
    hide Bounds, MostSlots, HistoryOk, OperatorIndex;
  }

  predicate Owner(rules: Rules, s: Store, id: uint64) {
    && id in s.slots
    && Address(rules, s.slots[id].key) in s.byConsensus && s.byConsensus[Address(rules, s.slots[id].key)] == id
  }

  /** The ACTIVE slots load in slot order, and no two of them have one address. */
  lemma ActiveSlotsLoad(rules: Rules, s: Store, height: int64) returns (active: seq<CoreSlot>)
    requires Inv(rules, s, height)
    ensures LoadActive(s.slots, AscendingIds(s.active)) == Success(active)
    ensures Distinct(rules, active) && |active| == |s.active|
    ensures forall i :: 0 <= i < |active| ==> ActiveRow(rules, s, active[i].slotId, active[i])
    ensures forall id :: id in s.active ==> exists i :: 0 <= i < |active| && active[i] == s.slots[id]
  {
    hide Inv, AscendingIds, ConsensusKey;
    var ids := AscendingIds(s.active);
    forall i | 0 <= i < |ids|
        ensures ids[i] in s.slots && ActiveRow(rules, s, ids[i], s.slots[ids[i]]) && Owner(rules, s, ids[i]) {
      assert ids[i] in ids;
      ActiveMember(rules, s, height, ids[i]);
    }
    LoadSucceeds(s.slots, ids);
    AscendingIdsCount(s.active);
    active := LoadActive(s.slots, ids).value;
    forall i | 0 <= i < |active|
        ensures active[i] == s.slots[ids[i]] && Owner(rules, s, ids[i]) && active[i].slotId == ids[i] {
    }
    forall id | id in s.active ensures exists i :: 0 <= i < |active| && active[i] == s.slots[id] {
      assert id in ids;
    }
  }

  /** The diff succeeds and leaves exactly the ACTIVE slots as the last applied set. */
  lemma DiffSucceeds(rules: Rules, s: Store, height: int64)
    requires Inv(rules, s, height)
    ensures DiffAndPersist(rules, s).Success?
    ensures var (s', us) := DiffAndPersist(rules, s).value;
            && s' == s.(lastApplied := s'.lastApplied)
            && us == Updates(s.lastApplied, s'.lastApplied)
            && KeyedByAddress(rules, s'.lastApplied)
            && IsActiveSet(rules, s.slots, Powers(s'.lastApplied))
            && |s'.lastApplied| == |s.active| > 0
  {
    hide Inv, Updates, Distinct, KeyedByAddress, IsActiveSet, Names, Listed;
    var active := ActiveSlotsLoad(rules, s, height);
    DesiredSucceeds(rules, active);
    var desired := Desired(rules, active).value;
    AppliedDecodes(rules, s, height);
    DesiredIsActiveSet(rules, s, height, active, desired);
  }

  lemma AppliedDecodes(rules: Rules, s: Store, height: int64)
    requires Inv(rules, s, height)
    ensures KeyedByAddress(rules, s.lastApplied) && s.params.votingPower > 0 && s.active != {}
    ensures forall desired :: Decodable(rules, s.lastApplied, desired)
  {
    hide SlotRows, ActiveIndex, OperatorIndex, ConsensusIndex, RotationRows, Histories;
  }

  /** What a listed ACTIVE slot's validator is. */
  lemma OneListed(rules: Rules, s: Store, slot: CoreSlot, desired: map<string, Validator>)
    requires ActiveRow(rules, s, slot.slotId, slot) && Listed(rules, desired, slot) && s.params.votingPower > 0
    ensures var a := Address(rules, slot.key);
            && a in desired && ConsensusKey(rules, desired[a].key) == Success(a)
            && desired[a].power == slot.power > 0
    ensures slot.slotId in s.slots && s.slots[slot.slotId] == slot && slot.status == Active
  {
  }

  lemma DesiredIsActiveSet(rules: Rules, s: Store, height: int64, active: seq<CoreSlot>,
      desired: map<string, Validator>)
    requires Inv(rules, s, height)
    requires forall i :: 0 <= i < |active| ==> ActiveRow(rules, s, active[i].slotId, active[i])
    requires forall id :: id in s.active ==> exists i :: 0 <= i < |active| && active[i] == s.slots[id]
    requires forall i :: 0 <= i < |active| ==> Listed(rules, desired, active[i])
    requires forall a :: a in desired ==> Names(rules, active, a)
    ensures KeyedByAddress(rules, desired) && IsActiveSet(rules, s.slots, Powers(desired)) && |desired| > 0
  {
    hide Inv, ActiveRow, Listed, Address, ConsensusKey, Owner;
    AppliedDecodes(rules, s, height);
    forall a | a in desired
      ensures ConsensusKey(rules, desired[a].key) == Success(a) && desired[a].power > 0
      ensures exists id :: id in s.slots && s.slots[id].status == Active && Address(rules, s.slots[id].key) == a
    {
      var i :| 0 <= i < |active| && Address(rules, active[i].key) == a;
      OneListed(rules, s, active[i], desired);
    }
    forall id: int | id in s.slots && s.slots[id].status == Active
      ensures Address(rules, s.slots[id].key) in desired
      ensures desired[Address(rules, s.slots[id].key)].power == s.slots[id].power
    {
      ActiveMember(rules, s, height, id);
      var i :| 0 <= i < |active| && active[i] == s.slots[id];
      OneListed(rules, s, active[i], desired);
    }
    var id :| id in s.active;
    ActiveMember(rules, s, height, id);
    assert Address(rules, s.slots[id].key) in desired;
    assert desired != map[];
  }

  lemma NextHeight(rules: Rules, s: Store, height: int64, height': int64)
    requires Inv(rules, s, height) && height <= height'
    ensures Inv(rules, s, height')
  {
    hide SlotRows, ActiveIndex, OperatorIndex, ConsensusIndex, RotationRows, Bounds, MostSlots, KeyedByAddress,
      SlotHistory;
    forall id: int | id in s.slots ensures HistoryOk(s.policies[id], s.starts[id], s.slots[id], height') {
      assert HistoryOk(s.policies[id], s.starts[id], s.slots[id], height);
    }
  }

  lemma ApplyDiff(rules: Rules, s: Store, height: int64, applied: map<string, Validator>)
    requires Inv(rules, s, height) && KeyedByAddress(rules, applied)
    ensures Inv(rules, s.(lastApplied := applied), height)
  {
    hide SlotRows, ActiveIndex, OperatorIndex, ConsensusIndex, RotationRows, Bounds, MostSlots, KeyedByAddress,
      Histories;
  }

  /** A set of ACTIVE slots weighs its number times the voting power. */
  lemma ActiveSetTotal(rules: Rules, s: Store, applied: map<string, Validator>)
    requires SlotRows(rules, s.slots, s.nextSlotId, s.params.votingPower)
    requires IsActiveSet(rules, s.slots, Powers(applied))
    ensures TotalPower(Powers(applied)) == |applied| * s.params.votingPower
  {
    hide Address;
    var vals := Powers(applied);
    forall a | a in vals ensures vals[a] == s.params.votingPower {
      var id :| id in s.slots && s.slots[id].status == Active && Address(rules, s.slots[id].key) == a;
      assert RowOk(rules, s.slots[id], id, s.nextSlotId, s.params.votingPower);
    }
    UniformTotal(vals, s.params.votingPower);
    assert vals.Keys == applied.Keys;
    assert |vals| == |vals.Keys| == |applied.Keys| == |applied|;
  }

  lemma RowsOfInv(rules: Rules, s: Store, height: int64)
    requires Inv(rules, s, height)
    ensures SlotRows(rules, s.slots, s.nextSlotId, s.params.votingPower)
  {
  }

  /**
   The end of a block never fails from a reachable store. It keeps the invariant, and its
   updates turn the last set into the ACTIVE slots. CometBFT accepts them exactly when those
   do not weigh more than it bears.
   */
  lemma BlockEnds(rules: Rules, s: Store, height: int64)
    requires Inv(rules, s, height)
    ensures Run(rules, s, height).Success?
    ensures var (s', us) := Run(rules, s, height).value;
            && Inv(rules, s', height)
            && s'.params == s.params && s'.active == s.active
            && (AcceptableUpdates(rules, Powers(s.lastApplied), us) <==>
                  |s.active| * s.params.votingPower <= MAX_TOTAL_VOTING_POWER)
            && WellFormedUpdates(rules, Powers(s.lastApplied), us)
            && ApplyUpdates(rules, Powers(s.lastApplied), us) == Powers(s'.lastApplied)
            && IsActiveSet(rules, s'.slots, Powers(s'.lastApplied))
            && TotalPower(Powers(s'.lastApplied)) == |s.active| * s.params.votingPower && |s'.lastApplied| > 0
  {
    hide Inv, DueRotations, DiffAndPersist, Updates, WellFormedUpdates, IsActiveSet, KeyedByAddress, Rotated, IsDue;
    AppliedDecodes(rules, s, height);
    DueAreStaged(rules, s, height);
    var due := DueRotations(s.rotations, height);
    RotationsApply(rules, s, height, due);
    var s1 := ApplyRotations(rules, s, height, due).value;
    DiffSucceeds(rules, s1, height);
    var (s', us) := DiffAndPersist(rules, s1).value;
    UpdatesReachDesired(rules, s.lastApplied, s'.lastApplied);
    ApplyDiff(rules, s1, height, s'.lastApplied);
    RowsOfInv(rules, s1, height);
    ActiveSetTotal(rules, s1, s'.lastApplied);
    PowersNonempty(s'.lastApplied);
  }

  lemma PowersNonempty(vs: map<string, Validator>)
    requires |vs| > 0
    ensures Powers(vs) != map[]
  {
    var a :| a in vs;
    assert a in Powers(vs);
  }

  /** What the end of a block does to one slot's rotation and record. */
  lemma BlockEndRotates(rules: Rules, s: Store, height: int64, id: uint64)
    requires Inv(rules, s, height)
    ensures Run(rules, s, height).Success?
    ensures var s' := Run(rules, s, height).value.0;
            var due := id in s.rotations && s.rotations[id].effective <= height;
            && (id in s'.rotations <==> id in s.rotations && !due)
            && (id in s'.rotations ==> s'.rotations[id] == s.rotations[id])
            && (id in s'.slots <==> id in s.slots)
            && (id in s.slots && !due ==> s'.slots[id] == s.slots[id])
            && (due ==>
                  && id in s.slots
                  && s'.slots[id] == s.slots[id].(key := s.rotations[id].newKey, updatedHeight := height))
  {
    hide Inv, DueRotations, DiffAndPersist, Updates, IsActiveSet, KeyedByAddress;
    DueAreStaged(rules, s, height);
    var due := DueRotations(s.rotations, height);
    RotationsApply(rules, s, height, due);
    var s1 := ApplyRotations(rules, s, height, due).value;
    assert Rotated(s.slots, s1.slots, s.rotations, due, height, id);
    DiffSucceeds(rules, s1, height);
  }
}
