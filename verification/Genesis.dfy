/**
 x/coreslot/types/genesis.go: what a fresh genesis document must satisfy, and the passes
 that decide it.

 `Validate` is the source's function: one pass per collection, filling local sets and
 counters. Its specification is `Admissible`, which says the same without any order.
 */
module Genesis {
  import opened Machine
  import opened CoreSlotTypes
  import opened Handlers
  import opened Invariant
  import Checked

  datatype Entry = Entry(role: Role, transfer: Transfer)

  datatype GenesisState = GenesisState(
    params: Option<Params>,
    slots: seq<CoreSlot>,
    rotations: seq<Rotation>,
    reserved: seq<Reservation>,
    rewardWeights: seq<RewardWeight>,
    lastApplied: seq<Validator>,
    nextSlotId: uint64,
    policies: seq<Policy>,
    nominations: seq<Entry>
  )

  // ----- The rules, record by record -----

  predicate NominationOk(rules: Rules, p: Params, e: Entry) {
    && e.role != NoRole && rules.bech32(e.transfer.nominee) && e.transfer.nominatedHeight > 0
    && e.transfer.nominee != CurrentHolder(p, e.role)
  }

  predicate Lifecycle(slot: CoreSlot) {
    match slot.status
    case Pending => slot.activationSequence == 0 && slot.activatedHeight == 0 && slot.activationEffectiveHeight == 0
    case Active =>
      slot.activationSequence == 1 && slot.activatedHeight >= 1
      && slot.activationEffectiveHeight == slot.activatedHeight
    case _ => false
  }

  /** Everything about one slot that its own record decides. */
  predicate SlotOk(rules: Rules, votingPower: int64, slot: CoreSlot) {
    && slot.slotId != 0 && Lifecycle(slot)
    && rules.bech32(slot.settlement) && rules.bech32(slot.operator) && rules.bech32(slot.payout)
    && slot.policyVersion == 1 && slot.lastPolicyUpdate == 0
    && slot.key.value != "" && ConsensusKey(rules, slot.key).Success?
    && rules.weight(slot.rewardWeight)
    && slot.power == (if slot.status == Active then votingPower else 0)
  }

  predicate FirstPolicyOk(p: Policy) {
    p.version == 1 && p.validUntil == 0 && ValidPolicyValues(p.rate, p.maxParticipants)
  }

  ghost predicate Unique<T>(keys: seq<T>) {
    forall i, j :: 0 <= i < j < |keys| ==> keys[i] != keys[j]
  }

  function SlotIds(slots: seq<CoreSlot>): seq<uint64> { seq(|slots|, i requires 0 <= i < |slots| => slots[i].slotId) }
  function Operators(slots: seq<CoreSlot>): seq<string> {
    seq(|slots|, i requires 0 <= i < |slots| => slots[i].operator)
  }
  function Keys(slots: seq<CoreSlot>): seq<PubKey> { seq(|slots|, i requires 0 <= i < |slots| => slots[i].key) }
  function PolicyIds(ps: seq<Policy>): seq<uint64> { seq(|ps|, i requires 0 <= i < |ps| => ps[i].slotId) }
  function Roles(es: seq<Entry>): seq<Role> { seq(|es|, i requires 0 <= i < |es| => es[i].role) }
  function ReservedKeys(rs: seq<Reservation>): seq<string> { seq(|rs|, i requires 0 <= i < |rs| => rs[i].address) }

  function ActiveSlots(slots: seq<CoreSlot>): nat {
    if slots == [] then 0
    else ActiveSlots(slots[..|slots| - 1]) + if slots[|slots| - 1].status == Active then 1 else 0
  }

  /** The ACTIVE slots' validators by address; a later slot replaces an earlier one. */
  function Expected(rules: Rules, slots: seq<CoreSlot>): map<string, (uint64, int64)> {
    if slots == [] then map[]
    else
      var slot := slots[|slots| - 1];
      var earlier := Expected(rules, slots[..|slots| - 1]);
      if slot.status == Active then earlier[Address(rules, slot.key) := (slot.slotId, slot.power)] else earlier
  }

  predicate ValidatorOk(rules: Rules, expected: map<string, (uint64, int64)>, v: Validator) {
    ConsensusKey(rules, v.key).Success?
    && Address(rules, v.key) in expected && expected[Address(rules, v.key)] == (v.slotId, v.power)
  }

  function ValidatorKeys(rules: Rules, vs: seq<Validator>): seq<string> {
    seq(|vs|, i requires 0 <= i < |vs| => Address(rules, vs[i].key))
  }

  ghost predicate NominationsOk(rules: Rules, p: Params, es: seq<Entry>) {
    Unique(Roles(es)) && forall i :: 0 <= i < |es| ==> NominationOk(rules, p, es[i])
  }

  ghost predicate SlotsOk(rules: Rules, votingPower: int64, slots: seq<CoreSlot>, policies: seq<Policy>) {
    && Unique(SlotIds(slots)) && Unique(Operators(slots)) && Unique(Keys(slots))
    && (forall i :: 0 <= i < |slots| ==> SlotOk(rules, votingPower, slots[i]))
    && (forall i {:trigger HasFirstPolicy(policies, slots[i].slotId)} ::
          0 <= i < |slots| ==> HasFirstPolicy(policies, slots[i].slotId))
  }

  ghost predicate HasFirstPolicy(policies: seq<Policy>, id: uint64) {
    exists j :: 0 <= j < |policies| && policies[j].slotId == id && FirstPolicyOk(policies[j])
  }

  ghost predicate LastAppliedOk(rules: Rules, slots: seq<CoreSlot>, vs: seq<Validator>) {
    var expected := Expected(rules, slots);
    vs != [] ==>
      && Unique(ValidatorKeys(rules, vs)) && |vs| == |expected|
      && forall i :: 0 <= i < |vs| ==> ValidatorOk(rules, expected, vs[i])
  }

  /** A document GenesisState.Validate admits. */
  ghost predicate Admissible(rules: Rules, g: GenesisState) {
    && g.params.Some? && ValidParams(rules, g.params.value)
    && var p := g.params.value;
    && NominationsOk(rules, p, g.nominations)
    && Unique(PolicyIds(g.policies))
    && SlotsOk(rules, p.votingPower, g.slots, g.policies)
    && g.rotations == []
    && p.minActive <= ActiveSlots(g.slots) <= p.maxActive
    && (forall j :: 0 <= j < |g.policies| ==> g.policies[j].slotId in SlotIds(g.slots))
    && (forall i :: 0 <= i < |g.slots| ==> g.slots[i].slotId < g.nextSlotId)
    && g.nextSlotId >= 1
    && (forall i :: 0 <= i < |g.rewardWeights| ==> g.rewardWeights[i].slotId in SlotIds(g.slots))
    && Unique(ReservedKeys(g.reserved))
    && LastAppliedOk(rules, g.slots, g.lastApplied)
  }

  // ----- The passes -----

  /** `seen` holds the first `n` keys, no two of them equal. */
  ghost predicate Tracks<T>(seen: set<T>, keys: seq<T>, n: nat) {
    n <= |keys| && Unique(keys[..n]) && |seen| == n && seen == set i | 0 <= i < n :: keys[i]
  }

  lemma Track<T>(seen: set<T>, keys: seq<T>, n: nat)
    requires n < |keys| && Tracks(seen, keys, n)
    ensures keys[n] in seen ==> !Unique(keys)
    ensures keys[n] !in seen ==> Tracks(seen + {keys[n]}, keys, n + 1)
  {
    if keys[n] in seen {
      var i :| 0 <= i < n && keys[i] == keys[n];
    } else {
      assert keys[..n + 1] == keys[..n] + [keys[n]];
    }
  }

  lemma Tracked<T>(seen: set<T>, keys: seq<T>)
    requires Tracks(seen, keys, |keys|)
    ensures Unique(keys) && |seen| == |keys|
    ensures forall k :: k in seen <==> k in keys
  {
    assert keys[..|keys|] == keys;
  }

  method ValidatePendingAuthorityTransfers(rules: Rules, p: Params, es: seq<Entry>) returns (ok: bool)
    ensures ok <==> NominationsOk(rules, p, es)
  {
    hide Tracks, Unique;
    var seen: set<Role> := {};
    TracksNothing(Roles(es));
    for i := 0 to |es|
      invariant Tracks(seen, Roles(es), i)
      invariant forall k :: 0 <= k < i ==> NominationOk(rules, p, es[k])
    {
      var e := es[i];
      assert e.role == Roles(es)[i];
      Track(seen, Roles(es), i);
      if e.role == NoRole { return false; }
      if e.role in seen { return false; }
      seen := seen + {e.role};
      if !rules.bech32(e.transfer.nominee) { return false; }
      if e.transfer.nominatedHeight <= 0 { return false; }
      if e.transfer.nominee == CurrentHolder(p, e.role) { return false; }
    }
    Tracked(seen, Roles(es));
    ok := true;
  }

  lemma TracksNothing<T>(keys: seq<T>)
    ensures Tracks({}, keys, 0)
  {
  }

  /** The one row per slot, or the refusal of a second one. */
  method IndexGenesisPolicies(rows: seq<Policy>) returns (ok: bool, index: map<uint64, Policy>)
    ensures ok <==> Unique(PolicyIds(rows))
    ensures ok ==> forall id :: id in index <==> id in PolicyIds(rows)
    ensures ok ==> forall id :: id in index ==> index[id] in rows && index[id].slotId == id
  {
    hide Tracks;
    index := map[];
    TracksNothing(PolicyIds(rows));
    assert index.Keys == {};
    for i := 0 to |rows|
      invariant Tracks(index.Keys, PolicyIds(rows), i)
      invariant forall id :: id in index ==> index[id] in rows && index[id].slotId == id
    {
      assert PolicyIds(rows)[i] == rows[i].slotId;
      Track(index.Keys, PolicyIds(rows), i);
      if rows[i].slotId in index {
        ok := false;
        return;
      }
      assert index[rows[i].slotId := rows[i]].Keys == index.Keys + {rows[i].slotId};
      index := index[rows[i].slotId := rows[i]];
    }
    Tracked(index.Keys, PolicyIds(rows));
    ok := true;
  }

  method ValidateFreshGenesisSlot(rules: Rules, slot: CoreSlot, index: map<uint64, Policy>) returns (ok: bool)
    ensures ok <==>
              && Lifecycle(slot) && rules.bech32(slot.settlement)
              && slot.policyVersion == 1 && slot.lastPolicyUpdate == 0
              && slot.slotId in index && FirstPolicyOk(index[slot.slotId])
  {
    match slot.status {
      case Pending =>
        if slot.activationSequence != 0 || slot.activatedHeight != 0 || slot.activationEffectiveHeight != 0 {
          return false;
        }
      case Active =>
        if slot.activationSequence != 1 { return false; }
        if slot.activatedHeight < 1 || slot.activationEffectiveHeight != slot.activatedHeight { return false; }
      case _ => return false;
    }
    if !rules.bech32(slot.settlement) { return false; }
    if slot.policyVersion != 1 { return false; }
    if slot.lastPolicyUpdate != 0 { return false; }
    if slot.slotId !in index { return false; }
    var p := index[slot.slotId];
    if p.version != 1 { return false; }
    if p.validUntil != 0 { return false; }
    ok := ValidPolicyValues(p.rate, p.maxParticipants);
  }

  predicate SlotAgainstIndex(rules: Rules, votingPower: int64, slot: CoreSlot, index: map<uint64, Policy>) {
    SlotOk(rules, votingPower, slot) && slot.slotId in index && FirstPolicyOk(index[slot.slotId])
  }

  /** The slot pass's checks of one record other than its uniqueness. */
  method ValidateSlotRecord(rules: Rules, votingPower: int64, slot: CoreSlot, index: map<uint64, Policy>)
        returns (ok: bool)
    ensures ok <==> SlotAgainstIndex(rules, votingPower, slot, index)
  {
    if slot.slotId == 0 { return false; }
    var conforms := ValidateFreshGenesisSlot(rules, slot, index);
    if !conforms { return false; }
    if !rules.bech32(slot.operator) { return false; }
    if !rules.bech32(slot.payout) { return false; }
    if slot.key.value == "" { return false; }
    if ConsensusKey(rules, slot.key).Failure? { return false; }
    if !rules.weight(slot.rewardWeight) { return false; }
    if slot.status == Active { return slot.power == votingPower; }
    ok := slot.power == 0;
  }

  ghost predicate SlotPassOk(rules: Rules, votingPower: int64, slots: seq<CoreSlot>, index: map<uint64, Policy>) {
    && Unique(SlotIds(slots)) && Unique(Operators(slots)) && Unique(Keys(slots))
    && RecordsOk(rules, votingPower, slots, index, |slots|)
  }

  /** The first `n` records conform. */
  ghost predicate RecordsOk(rules: Rules, votingPower: int64, slots: seq<CoreSlot>, index: map<uint64, Policy>,
      n: nat) {
    n <= |slots| && forall i :: 0 <= i < n ==> SlotAgainstIndex(rules, votingPower, slots[i], index)
  }

  /** `maxId` is the largest id among the first `n`, or zero. */
  ghost predicate Largest(slots: seq<CoreSlot>, n: nat, maxId: uint64) {
    && n <= |slots| && (forall i :: 0 <= i < n ==> slots[i].slotId <= maxId)
    && (maxId == 0 || exists i :: 0 <= i < n && slots[i].slotId == maxId)
  }

  /** The slot pass: uniqueness, each record, and the counters the later checks use. */
  method ValidateSlots(rules: Rules, votingPower: int64, slots: seq<CoreSlot>, index: map<uint64, Policy>)
    returns (ok: bool, ids: set<uint64>, active: nat, maxId: uint64, expected: map<string, (uint64, int64)>)
    ensures ok <==> SlotPassOk(rules, votingPower, slots, index)
    ensures ok ==> active == ActiveSlots(slots) && expected == Expected(rules, slots)
    ensures ok ==> forall id :: id in ids <==> id in SlotIds(slots)
    ensures ok ==> Largest(slots, |slots|, maxId)
  {
    hide Tracks, RecordsOk, Largest, SlotAgainstIndex, Unique, ActiveSlots, Expected, Address, SlotIds, Operators, Keys;
    KeyCounts(slots);
    CountNothing(rules, slots);
    ids, active, maxId, expected := {}, 0, 0, map[];
    var operators: set<string> := {};
    var keys: set<PubKey> := {};
    TracksNothing(SlotIds(slots));
    TracksNothing(Operators(slots));
    TracksNothing(Keys(slots));
    for n := 0 to |slots|
      invariant Tracks(ids, SlotIds(slots), n) && Tracks(operators, Operators(slots), n) && Tracks(keys, Keys(slots), n)
      invariant RecordsOk(rules, votingPower, slots, index, n) && Largest(slots, n, maxId)
      invariant active == ActiveSlots(slots[..n]) && expected == Expected(rules, slots[..n])
    {
      var slot := slots[n];
      CountSlot(rules, slots, n);
      OneMore(rules, votingPower, slots, index, n, maxId);
      Track(ids, SlotIds(slots), n);
      Track(operators, Operators(slots), n);
      Track(keys, Keys(slots), n);
      if slot.slotId in ids { ok := false; return; }
      ids := ids + {slot.slotId};
      if slot.slotId > maxId { maxId := slot.slotId; }
      var conforms := ValidateSlotRecord(rules, votingPower, slot, index);
      if !conforms { ok := false; return; }
      FreshIsNotRemoved(rules, votingPower, slot, index);
      if slot.status != Removed {
        if slot.operator in operators { ok := false; return; }
        operators := operators + {slot.operator};
      }
      if slot.key in keys { ok := false; return; }
      keys := keys + {slot.key};
      if slot.status == Active {
        active := active + 1;
        expected := expected[Address(rules, slot.key) := (slot.slotId, slot.power)];
      }
    }
    assert slots[..|slots|] == slots;
    Tracked(ids, SlotIds(slots));
    Tracked(operators, Operators(slots));
    Tracked(keys, Keys(slots));
    ok := true;
  }

  lemma KeyCounts(slots: seq<CoreSlot>)
    ensures |SlotIds(slots)| == |Operators(slots)| == |Keys(slots)| == |slots|
    ensures forall n :: 0 <= n < |slots| ==>
      SlotIds(slots)[n] == slots[n].slotId && Operators(slots)[n] == slots[n].operator && Keys(slots)[n] == slots[n].key
  {
  }

  lemma OneMore(rules: Rules, votingPower: int64, slots: seq<CoreSlot>, index: map<uint64, Policy>, n: nat,
      maxId: uint64)
    requires n < |slots| && RecordsOk(rules, votingPower, slots, index, n) && Largest(slots, n, maxId)
    ensures if SlotAgainstIndex(rules, votingPower, slots[n], index)
        then RecordsOk(rules, votingPower, slots, index, n + 1)
            else !RecordsOk(rules, votingPower, slots, index, |slots|)
    ensures Largest(slots, n + 1, if slots[n].slotId > maxId then slots[n].slotId else maxId)
  {
  }

  lemma CountNothing(rules: Rules, slots: seq<CoreSlot>)
    ensures ActiveSlots(slots[..0]) == 0 && Expected(rules, slots[..0]) == map[] && Largest(slots, 0, 0)
    ensures forall votingPower, index :: RecordsOk(rules, votingPower, slots, index, 0)
  {
  }

  lemma CountSlot(rules: Rules, slots: seq<CoreSlot>, n: nat)
    requires n < |slots|
    ensures ActiveSlots(slots[..n + 1]) == ActiveSlots(slots[..n]) + if slots[n].status == Active then 1 else 0
    ensures Expected(rules, slots[..n + 1]) ==
            if slots[n].status == Active
            then Expected(rules, slots[..n])[Address(rules, slots[n].key) := (slots[n].slotId, slots[n].power)]
            else Expected(rules, slots[..n])
  {
    assert slots[..n + 1][..n] == slots[..n];
  }

  lemma FreshIsNotRemoved(rules: Rules, votingPower: int64, slot: CoreSlot, index: map<uint64, Policy>)
    requires SlotAgainstIndex(rules, votingPower, slot, index)
    ensures slot.status != Removed
  {
  }

  method ValidateReserved(rs: seq<Reservation>) returns (ok: bool)
    ensures ok <==> Unique(ReservedKeys(rs))
  {
    hide Tracks;
    var seen: set<string> := {};
    TracksNothing(ReservedKeys(rs));
    for i := 0 to |rs|
      invariant Tracks(seen, ReservedKeys(rs), i)
    {
      assert ReservedKeys(rs)[i] == rs[i].address;
      Track(seen, ReservedKeys(rs), i);
      if rs[i].address in seen { return false; }
      seen := seen + {rs[i].address};
    }
    Tracked(seen, ReservedKeys(rs));
    ok := true;
  }

  /** The first `n` validators are expected ones. */
  ghost predicate ValidatorsOk(rules: Rules, expected: map<string, (uint64, int64)>, vs: seq<Validator>, n: nat) {
    n <= |vs| && forall k :: 0 <= k < n ==> ValidatorOk(rules, expected, vs[k])
  }

  lemma NoValidators(rules: Rules, expected: map<string, (uint64, int64)>, vs: seq<Validator>)
    ensures ValidatorsOk(rules, expected, vs, 0)
    ensures ValidatorsOk(rules, expected, vs, |vs|) <==> forall k :: 0 <= k < |vs| ==>
        ValidatorOk(rules, expected, vs[k])
  {
  }

  lemma OneMoreValidator(rules: Rules, expected: map<string, (uint64, int64)>, vs: seq<Validator>, n: nat)
    requires n < |vs| && ValidatorsOk(rules, expected, vs, n)
    ensures ValidatorOk(rules, expected, vs[n]) ==> ValidatorsOk(rules, expected, vs, n + 1)
    ensures ValidatorsOk(rules, expected, vs, |vs|) ==> ValidatorOk(rules, expected, vs[n])
  {
    hide ValidatorOk;
  }

  method ValidateLastApplied(rules: Rules, slots: seq<CoreSlot>, expected: map<string, (uint64, int64)>,
      vs: seq<Validator>)
      returns (ok: bool)
    requires expected == Expected(rules, slots)
    ensures ok <==> LastAppliedOk(rules, slots, vs)
  {
    hide Tracks, Expected, Unique, ConsensusKey, Address, ValidatorsOk;
    NoValidators(rules, expected, vs);
    if vs == [] { return true; }
    var seen: set<string> := {};
    TracksNothing(ValidatorKeys(rules, vs));
    for i := 0 to |vs|
      invariant Tracks(seen, ValidatorKeys(rules, vs), i)
      invariant ValidatorsOk(rules, expected, vs, i)
    {
      OneMoreValidator(rules, expected, vs, i);
      if ConsensusKey(rules, vs[i].key).Failure? { return false; }
      var a := Address(rules, vs[i].key);
      assert ValidatorKeys(rules, vs)[i] == a;
      Track(seen, ValidatorKeys(rules, vs), i);
      if a !in expected { return false; }
      if vs[i].slotId != expected[a].0 || vs[i].power != expected[a].1 { return false; }
      if a in seen { return false; }
      seen := seen + {a};
    }
    Tracked(seen, ValidatorKeys(rules, vs));
    ok := |seen| == |expected|;
  }

  method ValidateRewardWeights(slots: seq<CoreSlot>, ids: set<uint64>, ws: seq<RewardWeight>) returns (ok: bool)
    requires forall id :: id in ids <==> id in SlotIds(slots)
    ensures ok <==> forall i :: 0 <= i < |ws| ==> ws[i].slotId in SlotIds(slots)
  {
    for i := 0 to |ws|
      invariant forall k :: 0 <= k < i ==> ws[k].slotId in SlotIds(slots)
    {
      if ws[i].slotId !in ids { return false; }
    }
    ok := true;
  }

  /** Every policy row belongs to a slot of the document. */
  method ValidatePolicyOwners(slots: seq<CoreSlot>, ids: set<uint64>, policies: seq<Policy>, index: map<uint64, Policy>)
    returns (ok: bool)
    requires forall id :: id in ids <==> id in SlotIds(slots)
    requires forall id :: id in index <==> id in PolicyIds(policies)
    ensures ok <==> forall j :: 0 <= j < |policies| ==> policies[j].slotId in SlotIds(slots)
  {
    ok := forall id :: id in index ==> id in ids;
    forall j | 0 <= j < |policies| ensures policies[j].slotId in index {
      assert PolicyIds(policies)[j] == policies[j].slotId;
    }
    forall id | id in index ensures exists j :: 0 <= j < |policies| && policies[j].slotId == id {
      var j :| 0 <= j < |policies| && PolicyIds(policies)[j] == id;
      assert policies[j].slotId == id;
    }
  }

  method Validate(rules: Rules, g: GenesisState) returns (ok: bool)
    ensures ok <==> Admissible(rules, g)
  {
    hide Unique, Expected, LastAppliedOk, NominationsOk, SlotsOk, SlotPassOk, Largest;
    if g.params.None? { return false; }
    var p := g.params.value;
    if !ValidParams(rules, p) { return false; }
    var nominations := ValidatePendingAuthorityTransfers(rules, p, g.nominations);
    if !nominations { return false; }
    var indexed, index := IndexGenesisPolicies(g.policies);
    if !indexed { return false; }
    var slots, ids, active, maxId, expected := ValidateSlots(rules, p.votingPower, g.slots, index);
    IndexFinds(rules, p.votingPower, g.slots, g.policies, index);
    if !slots { return false; }
    if g.rotations != [] { return false; }
    if active < p.minActive || active > p.maxActive { return false; }
    if active > HARD_MAX_ACTIVE_CORE_SLOTS { return false; }
    if active > MostSlots(p.votingPower) { return false; }
    var owned := ValidatePolicyOwners(g.slots, ids, g.policies, index);
    if !owned { return false; }
    var next := Checked.AddUint64(maxId, 1);
    NextBeyondAll(g.slots, maxId, g.nextSlotId);
    if next.Fault? { return false; }
    if g.nextSlotId < next.value { return false; }
    var weights := ValidateRewardWeights(g.slots, ids, g.rewardWeights);
    if !weights { return false; }
    var reserved := ValidateReserved(g.reserved);
    if !reserved { return false; }
    ok := ValidateLastApplied(rules, g.slots, expected, g.lastApplied);
  }

  lemma NextBeyondAll(slots: seq<CoreSlot>, maxId: uint64, next: uint64)
    requires Largest(slots, |slots|, maxId)
    ensures maxId + 1 <= next <==> next >= 1 && forall i :: 0 <= i < |slots| ==> slots[i].slotId < next
  {
  }

  lemma IndexFinds(rules: Rules, votingPower: int64, slots: seq<CoreSlot>, policies: seq<Policy>,
      index: map<uint64, Policy>)
    requires Unique(PolicyIds(policies))
    requires forall id :: id in index <==> id in PolicyIds(policies)
    requires forall id :: id in index ==> index[id] in policies && index[id].slotId == id
    ensures SlotsOk(rules, votingPower, slots, policies) <==> SlotPassOk(rules, votingPower, slots, index)
  {
    hide SlotOk, FirstPolicyOk;
    forall i | 0 <= i < |slots| ensures HasFirstPolicy(policies, slots[i].slotId) <==>
                                        slots[i].slotId in index && FirstPolicyOk(index[slots[i].slotId]) {
      IndexFindsOne(policies, index, slots[i].slotId);
    }
  }

  lemma IndexFindsOne(policies: seq<Policy>, index: map<uint64, Policy>, id: uint64)
    requires Unique(PolicyIds(policies))
    requires id in index <==> id in PolicyIds(policies)
    requires id in index ==> index[id] in policies && index[id].slotId == id
    ensures HasFirstPolicy(policies, id) <==> id in index && FirstPolicyOk(index[id])
  {
    hide FirstPolicyOk;
    forall j | 0 <= j < |policies| && policies[j].slotId == id ensures id in index && index[id] == policies[j] {
      assert PolicyIds(policies)[j] == id;
      var k :| 0 <= k < |policies| && policies[k] == index[id];
      assert PolicyIds(policies)[k] == id;
    }
    if id in index {
      var k :| 0 <= k < |policies| && policies[k] == index[id];
    }
  }
}
