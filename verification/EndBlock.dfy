/**
 x/coreslot/keeper/endblock.go: due key rotations, and the difference between the
 validators last handed to CometBFT and the ACTIVE slots.
 */
module EndBlock {
  import opened Machine
  import opened Ordering
  import opened CoreSlotTypes
  import opened Handlers

  function DueIds(rotations: map<uint64, Rotation>, height: int64): set<uint64> {
    set id | id in rotations && rotations[id].effective <= height
  }

  /** The rotations to apply at `height`, in slot order, as they stand when the block ends. */
  ghost function DueRotations(rotations: map<uint64, Rotation>, height: int64): seq<Rotation> {
    var ids := AscendingIds(DueIds(rotations, height));
    assert forall i :: 0 <= i < |ids| ==> ids[i] in ids;
    seq(|ids|, i requires 0 <= i < |ids| => rotations[ids[i]])
  }

  function DropStaleRotation(rules: Rules, s: Store, r: Rotation): (r': Result<Store>)
    ensures Frames(s, r') && FramesPolicies(s, r')
  {
    var _ :- ConsensusKey(rules, r.oldKey);
    var staged :- ConsensusKey(rules, r.newKey);
    Success(s.(byConsensus := s.byConsensus - {staged}, rotations := s.rotations - {r.slotId}))
  }

  function ApplyRotation(rules: Rules, s: Store, height: int64, r: Rotation): (r': Result<Store>)
    ensures Frames(s, r') && FramesPolicies(s, r')
  {
    if r.slotId !in s.slots then Failure(InvalidTransition)
    else
      var slot := s.slots[r.slotId];
      if slot.status != Active then DropStaleRotation(rules, s, r)
      else
        var released :- ConsensusKey(rules, r.oldKey);
        var _ :- ConsensusKey(rules, r.newKey);
        Success(s.(
          slots := s.slots[slot.slotId := slot.(key := r.newKey, updatedHeight := height)],
          byConsensus := s.byConsensus - {released},
          reserved := s.reserved[released := Reservation(released, slot.slotId,
                                                         ReservedUntil(height, s.params.reuseLockout), KeyRotation)],
          rotations := s.rotations - {r.slotId}))
  }

  function ApplyRotations(rules: Rules, s: Store, height: int64, due: seq<Rotation>): (r: Result<Store>)
    ensures Frames(s, r) && FramesPolicies(s, r)
    decreases |due|
  {
    if due == [] then Success(s)
    else
      var s1 :- ApplyRotation(rules, s, height, due[0]);
      ApplyRotations(rules, s1, height, due[1..])
  }

  /** GetActiveSlots: the index's rows in slot order, failing on any divergence. */
  function LoadActive(slots: map<uint64, CoreSlot>, ids: seq<uint64>): Result<seq<CoreSlot>> {
    if ids == [] then Success([])
    else
      var id := ids[|ids| - 1];
      var earlier :- LoadActive(slots, ids[..|ids| - 1]);
      if id !in slots then Failure(InvalidGenesis)
      else if slots[id].status != Active then Failure(InvalidTransition)
      else Success(earlier + [slots[id]])
  }

  /** A row that cannot be loaded decides the outcome, whatever follows it. */
  lemma {:induction false} LoadFails(slots: map<uint64, CoreSlot>, ids: seq<uint64>, n: nat)
    requires n <= |ids| && LoadActive(slots, ids[..n]).Failure?
    ensures LoadActive(slots, ids) == LoadActive(slots, ids[..n])
    decreases |ids|
  {
    if n == |ids| {
      assert ids[..n] == ids;
    } else {
      assert ids[..|ids| - 1][..n] == ids[..n];
      LoadFails(slots, ids[..|ids| - 1], n);
    }
  }

  /** The validator set the slots call for, keyed by consensus address. */
  function Desired(rules: Rules, active: seq<CoreSlot>): Result<map<string, Validator>> {
    if active == [] then Success(map[])
    else
      var slot := active[|active| - 1];
      var earlier :- Desired(rules, active[..|active| - 1]);
      var a :- ConsensusKey(rules, slot.key);
      if a in earlier then Failure(DuplicateConsensusKey)
      else Success(earlier[a := Validator(slot.slotId, slot.key, slot.power)])
  }

  /** What changed for one address, if anything did. */
  function UpdateFor(last: map<string, Validator>, desired: map<string, Validator>, a: string): Option<Update> {
    if a in desired then
      if a in last && last[a].power == desired[a].power then None
      else Some(Update(desired[a].key, desired[a].power))
    else if a in last then Some(Update(last[a].key, 0))
    else None
  }

  function Changed(last: map<string, Validator>, desired: map<string, Validator>): set<string> {
    set a | a in last.Keys + desired.Keys && UpdateFor(last, desired, a).Some?
  }

  /** One update per changed address, in address order. */
  ghost function Updates(last: map<string, Validator>, desired: map<string, Validator>): seq<Update> {
    var ks := AscendingKeys(Changed(last, desired));
    assert forall i :: 0 <= i < |ks| ==> ks[i] in ks;
    seq(|ks|, i requires 0 <= i < |ks| => UpdateFor(last, desired, ks[i]).value)
  }

  predicate Decodable(rules: Rules, last: map<string, Validator>, desired: map<string, Validator>) {
    forall a :: a in last && a !in desired ==> ConsensusKey(rules, last[a].key).Success?
  }

  ghost function DiffAndPersist(rules: Rules, s: Store): Result<(Store, seq<Update>)> {
    var active :- LoadActive(s.slots, AscendingIds(s.active));
    var desired :- Desired(rules, active);
    if !Decodable(rules, s.lastApplied, desired) then Failure(InvalidPubKey)
    else Success((s.(lastApplied := desired), Updates(s.lastApplied, desired)))
  }

  /** The block's end with the due rotations in a given order. */
  ghost function RunOver(rules: Rules, s: Store, height: int64, due: seq<Rotation>): Result<(Store, seq<Update>)> {
    var s1 :- ApplyRotations(rules, s, height, due);
    DiffAndPersist(rules, s1)
  }

  ghost function Run(rules: Rules, s: Store, height: int64): Result<(Store, seq<Update>)> {
    RunOver(rules, s, height, DueRotations(s.rotations, height))
  }

  // ----- What CometBFT makes of the updates -----

  function Powers(vs: map<string, Validator>): map<string, int64> {
    map a | a in vs :: vs[a].power
  }

  /** CometBFT identifies a validator by its key's address; power 0 removes it. */
  function ApplyUpdate(rules: Rules, vals: map<string, int64>, u: Update): map<string, int64> {
    match ConsensusKey(rules, u.key)
    case Failure(_) => vals
    case Success(a) => if u.power == 0 then vals - {a} else vals[a := u.power]
  }

  function ApplyUpdates(rules: Rules, vals: map<string, int64>, us: seq<Update>): map<string, int64> {
    if us == [] then vals
    else ApplyUpdate(rules, ApplyUpdates(rules, vals, us[..|us| - 1]), us[|us| - 1])
  }

  /** CometBFT v0.38's MaxTotalVotingPower: a validator set may not weigh more. */
  const MAX_TOTAL_VOTING_POWER: int := MAX_INT64 / 8

  ghost function TotalPower(vals: map<string, int64>): int
    decreases |vals|
  {
    if vals == map[] then 0
    else
      var a :| a in vals;
      vals[a] + TotalPower(vals - {a})
  }

  lemma {:induction false} UniformTotal(vals: map<string, int64>, power: int64)
    requires forall a :: a in vals ==> vals[a] == power
    ensures TotalPower(vals) == |vals| * power
    decreases |vals|
  {
    if vals != map[] {
      var a :| a in vals && TotalPower(vals) == vals[a] + TotalPower(vals - {a});
      UniformTotal(vals - {a}, power);
      OneMoreShare(|vals - {a}|, power);
      assert vals.Keys - {a} == (vals - {a}).Keys;
    }
  }

  lemma OneMoreShare(n: nat, power: int)
    ensures n * power + power == (n + 1) * power
  {
  }

  /** No more power than CometBFT's ceiling. */
  ghost predicate Bearable(vals: map<string, int64>) {
    TotalPower(vals) <= MAX_TOTAL_VOTING_POWER
  }

  /** Distinct decodable keys, no negative power, and removals of present validators only. */
  ghost predicate WellFormedUpdates(rules: Rules, vals: map<string, int64>, us: seq<Update>) {
    && (forall i :: 0 <= i < |us| ==> ConsensusKey(rules, us[i].key).Success? && us[i].power >= 0)
    && (forall i, j :: 0 <= i < j < |us| ==> ConsensusKey(rules, us[i].key) != ConsensusKey(rules, us[j].key))
    && (forall i :: 0 <= i < |us| && us[i].power == 0 ==> ConsensusKey(rules, us[i].key).value in vals)
  }

  /**
   The change set CometBFT accepts over a set it can bear: well formed, and leading to such a
   set again, with somebody in it. Removals are counted before additions, so only the outcome's total matters.
   */
  ghost predicate AcceptableUpdates(rules: Rules, vals: map<string, int64>, us: seq<Update>) {
    && WellFormedUpdates(rules, vals, us)
    && ApplyUpdates(rules, vals, us) != map[] && Bearable(ApplyUpdates(rules, vals, us))
  }

  /** A validator map keyed by its own keys' addresses, every power positive. */
  ghost predicate KeyedByAddress(rules: Rules, vs: map<string, Validator>) {
    forall a :: a in vs ==> ConsensusKey(rules, vs[a].key) == Success(a) && vs[a].power > 0
  }

  /** Handing the updates to CometBFT turns the last set into the desired one. */
  lemma UpdatesReachDesired(rules: Rules, last: map<string, Validator>, desired: map<string, Validator>)
    requires KeyedByAddress(rules, last) && KeyedByAddress(rules, desired)
    ensures WellFormedUpdates(rules, Powers(last), Updates(last, desired))
    ensures ApplyUpdates(rules, Powers(last), Updates(last, desired)) == Powers(desired)
  {
    hide Updates, ApplyUpdates, KeyedByAddress, WellFormedUpdates;
    UpdatesWellFormed(rules, last, desired);
    var vals := ApplyUpdates(rules, Powers(last), Updates(last, desired));
    forall a ensures a in vals <==> a in desired
             ensures a in vals ==> vals[a] == desired[a].power {
      AddressReached(rules, last, desired, a);
    }
  }

  lemma UpdatesWellFormed(rules: Rules, last: map<string, Validator>, desired: map<string, Validator>)
    requires KeyedByAddress(rules, last) && KeyedByAddress(rules, desired)
    ensures WellFormedUpdates(rules, Powers(last), Updates(last, desired))
  {
    hide Updates;
    UpdatesNamed(rules, last, desired);
  }

  lemma AddressReached(rules: Rules, last: map<string, Validator>, desired: map<string, Validator>, a: string)
    requires KeyedByAddress(rules, last) && KeyedByAddress(rules, desired)
    ensures var vals := ApplyUpdates(rules, Powers(last), Updates(last, desired));
            (a in vals <==> a in desired) && (a in desired ==> vals[a] == desired[a].power)
  {
    var ks, us := AscendingKeys(Changed(last, desired)), Updates(last, desired);
    UpdatesNamed(rules, last, desired);
    if a in ks {
      var i :| 0 <= i < |ks| && ks[i] == a;
      ReplayNamed(rules, Powers(last), ks, us, i);
    } else {
      ReplayOther(rules, Powers(last), ks, us, a);
      assert a !in Changed(last, desired);
      assert UpdateFor(last, desired, a).None?;
    }
  }

  lemma UpdatesNamed(rules: Rules, last: map<string, Validator>, desired: map<string, Validator>)
    requires KeyedByAddress(rules, last) && KeyedByAddress(rules, desired)
    ensures var ks, us := AscendingKeys(Changed(last, desired)), Updates(last, desired);
            && Names(rules, ks, us)
            && (forall i, j :: 0 <= i < j < |ks| ==> ks[i] != ks[j])
            && (forall i :: 0 <= i < |us| ==>
                  (ks[i] in desired && us[i].power == desired[ks[i]].power) ||
                  (ks[i] !in desired && ks[i] in last && us[i].power == 0))
  {
    var ks, us := AscendingKeys(Changed(last, desired)), Updates(last, desired);
    forall i | 0 <= i < |ks| ensures Some(us[i]) == UpdateFor(last, desired, ks[i]) { assert ks[i] in ks; }
    forall i, j | 0 <= i < j < |ks| ensures ks[i] != ks[j] { LessIrreflexive(ks[i]); }
  }

  /** The update is of this address. */
  predicate Concerns(rules: Rules, u: Update, a: string) {
    ConsensusKey(rules, u.key) == Success(a)
  }

  /** The updates ascend by address, in the order of the first difference. */
  lemma UpdatesInOrder(rules: Rules, last: map<string, Validator>, desired: map<string, Validator>)
    requires KeyedByAddress(rules, last) && KeyedByAddress(rules, desired)
    ensures var us := Updates(last, desired);
            forall i, j :: 0 <= i < j < |us| ==>
              && ConsensusKey(rules, us[i].key).Success? && ConsensusKey(rules, us[j].key).Success?
              && Before(ConsensusKey(rules, us[i].key).value, ConsensusKey(rules, us[j].key).value)
  {
    hide Updates, KeyedByAddress, Before, Less, ConsensusKey, Changed;
    UpdatesNamed(rules, last, desired);
    var ks := AscendingKeys(Changed(last, desired));
    forall i, j | 0 <= i < j < |ks| ensures Before(ks[i], ks[j]) { LessMeans(ks[i], ks[j]); }
  }

  /** There is an update of every address whose power changes, and of no other. */
  lemma UpdatesAreChanges(rules: Rules, last: map<string, Validator>, desired: map<string, Validator>, a: string)
    requires KeyedByAddress(rules, last) && KeyedByAddress(rules, desired)
    ensures var us := Updates(last, desired);
            (exists i :: 0 <= i < |us| && Concerns(rules, us[i], a)) <==>
              if a in last && a in desired then last[a].power != desired[a].power else a in last || a in desired
  {
    hide Updates, KeyedByAddress, ConsensusKey;
    UpdatesNamed(rules, last, desired);
    var ks, us := AscendingKeys(Changed(last, desired)), Updates(last, desired);
    if a in Changed(last, desired) {
      assert a in ks;
      var i :| 0 <= i < |ks| && ks[i] == a;
      assert Concerns(rules, us[i], a);
    }
    forall i | 0 <= i < |us| && Concerns(rules, us[i], a) ensures a in Changed(last, desired) { assert ks[i] in ks; }
  }

  /** `us` updates the addresses `ks`, position by position. */
  ghost predicate Names(rules: Rules, ks: seq<string>, us: seq<Update>) {
    |ks| == |us| && forall i :: 0 <= i < |ks| ==> ConsensusKey(rules, us[i].key) == Success(ks[i])
  }

  lemma {:induction false} ReplayOther(rules: Rules, vals: map<string, int64>, ks: seq<string>, us: seq<Update>,
      a: string)
    requires Names(rules, ks, us) && a !in ks
    ensures var vals' := ApplyUpdates(rules, vals, us);
            (a in vals' <==> a in vals) && (a in vals ==> vals'[a] == vals[a])
    decreases |us|
  {
    if us != [] {
      var n := |us| - 1;
      assert ks[n] in ks;
      ReplayOther(rules, vals, ks[..n], us[..n], a);
    }
  }

  lemma {:induction false} ReplayNamed(rules: Rules, vals: map<string, int64>, ks: seq<string>, us: seq<Update>, i: nat)
    requires Names(rules, ks, us) && i < |ks|
    requires forall j :: i < j < |ks| ==> ks[j] != ks[i]
    ensures var vals' := ApplyUpdates(rules, vals, us);
            (ks[i] in vals' <==> us[i].power != 0) && (us[i].power != 0 ==> vals'[ks[i]] == us[i].power)
    decreases |us|
  {
    var n := |us| - 1;
    if i < n { ReplayNamed(rules, vals, ks[..n], us[..n], i); }
  }
}
