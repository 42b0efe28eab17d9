/**
 x/coreslot/keeper/genesis.go: exporting a freshly imported store, and importing it again.
 */
module GenesisExport {
  import opened Machine
  import opened Ordering
  import opened CoreSlotTypes
  import opened Handlers
  import opened Invariant
  import opened EndBlock
  import opened BlockEnd
  import opened Genesis
  import opened GenesisImport
  import ValidatorDiff

  // ----- The document a store exports -----

  ghost function SlotList(m: map<uint64, CoreSlot>): seq<CoreSlot> {
    var ids := AscendingIds(m.Keys);
    assert forall i :: 0 <= i < |ids| ==> ids[i] in ids;
    seq(|ids|, i requires 0 <= i < |ids| => m[ids[i]])
  }

  ghost function RotationList(m: map<uint64, Rotation>): seq<Rotation> {
    var ids := AscendingIds(m.Keys);
    assert forall i :: 0 <= i < |ids| ==> ids[i] in ids;
    seq(|ids|, i requires 0 <= i < |ids| => m[ids[i]])
  }

  ghost function WeightList(m: map<uint64, RewardWeight>): seq<RewardWeight> {
    var ids := AscendingIds(m.Keys);
    assert forall i :: 0 <= i < |ids| ==> ids[i] in ids;
    seq(|ids|, i requires 0 <= i < |ids| => m[ids[i]])
  }

  ghost function ReservedList(m: map<string, Reservation>): seq<Reservation> {
    var ks := AscendingKeys(m.Keys);
    assert forall i :: 0 <= i < |ks| ==> ks[i] in ks;
    seq(|ks|, i requires 0 <= i < |ks| => m[ks[i]])
  }

  ghost function ValidatorList(m: map<string, Validator>): seq<Validator> {
    var ks := AscendingKeys(m.Keys);
    assert forall i :: 0 <= i < |ks| ==> ks[i] in ks;
    seq(|ks|, i requires 0 <= i < |ks| => m[ks[i]])
  }

  /** One slot's versions, in version order. */
  ghost function VersionList(rows: map<uint64, Policy>): seq<Policy> {
    var vs := AscendingIds(rows.Keys);
    assert forall i :: 0 <= i < |vs| ==> vs[i] in vs;
    seq(|vs|, i requires 0 <= i < |vs| => rows[vs[i]])
  }

  /** The history rows of the slots `ids`, in (slot, version) order. */
  ghost function PolicyList(m: Policies, ids: seq<uint64>): seq<Policy> {
    if ids == [] then [] else PolicyList(m, ids[..|ids| - 1]) + VersionList(Inner(m, ids[|ids| - 1]))
  }

  /** Roles are numbered 1 and 2. */
  function NominationList(m: map<Role, Transfer>): seq<Entry> {
    (if Primary in m then [Entry(Primary, m[Primary])] else [])
    + (if Emergency in m then [Entry(Emergency, m[Emergency])] else [])
  }

  ghost function ExportGenesis(s: Store): GenesisState {
    GenesisState(Some(s.params), SlotList(s.slots), RotationList(s.rotations), ReservedList(s.reserved),
                 WeightList(s.rewardWeights), ValidatorList(s.lastApplied), s.nextSlotId,
                 PolicyList(s.policies, AscendingIds(s.policies.Keys)), NominationList(s.nominations))
  }

  // ----- The order of the lists -----

  /** The records come in slot order, each once. */
  lemma SlotsInOrder(m: map<uint64, CoreSlot>, slot: CoreSlot)
    requires forall id :: id in m ==> m[id].slotId == id
    ensures var rows := SlotList(m);
            && (forall i, j :: 0 <= i < j < |rows| ==> rows[i].slotId < rows[j].slotId)
            && (slot in rows <==> slot.slotId in m && m[slot.slotId] == slot)
  {
    hide AscendingIds;
    var ids, rows := AscendingIds(m.Keys), SlotList(m);
    forall i | 0 <= i < |ids| ensures ids[i] in m && rows[i] == m[ids[i]] { assert ids[i] in ids; }
    if slot.slotId in m && m[slot.slotId] == slot {
      var i :| 0 <= i < |ids| && ids[i] == slot.slotId;
      assert rows[i] == slot;
    }
  }

  /** The reservations come in address order, by the first difference, each once. */
  lemma ReservedInOrder(m: map<string, Reservation>, row: Reservation)
    requires forall a :: a in m ==> m[a].address == a
    ensures var rows := ReservedList(m);
            && (forall i, j :: 0 <= i < j < |rows| ==> Before(rows[i].address, rows[j].address))
            && (row in rows <==> row.address in m && m[row.address] == row)
  {
    hide AscendingKeys, Less, Before;
    var ks, rows := AscendingKeys(m.Keys), ReservedList(m);
    forall i | 0 <= i < |ks| ensures ks[i] in m && rows[i] == m[ks[i]] { assert ks[i] in ks; }
    forall i, j | 0 <= i < j < |ks| ensures Before(ks[i], ks[j]) { LessMeans(ks[i], ks[j]); }
    if row.address in m && m[row.address] == row {
      var i :| 0 <= i < |ks| && ks[i] == row.address;
      assert rows[i] == row;
    }
  }

  /** The last applied validators come in the order of their addresses, each once. */
  lemma ValidatorsInOrder(rules: Rules, m: map<string, Validator>, row: Validator)
    requires KeyedByAddress(rules, m)
    ensures var rows := ValidatorList(m);
            && (forall i, j :: 0 <= i < j < |rows| ==>
                  Before(Address(rules, rows[i].key), Address(rules, rows[j].key)))
            && (row in rows <==> Address(rules, row.key) in m && m[Address(rules, row.key)] == row)
  {
    hide AscendingKeys, Less, Before, ConsensusKey;
    var ks, rows := AscendingKeys(m.Keys), ValidatorList(m);
    forall i | 0 <= i < |ks| ensures ks[i] in m && rows[i] == m[ks[i]] { assert ks[i] in ks; }
    forall i, j | 0 <= i < j < |ks| ensures Before(ks[i], ks[j]) { LessMeans(ks[i], ks[j]); }
    if Address(rules, row.key) in m && m[Address(rules, row.key)] == row {
      var i :| 0 <= i < |ks| && ks[i] == Address(rules, row.key);
      assert rows[i] == row;
    }
  }

  /** Version rows by slot, then by version. */
  predicate RowBefore(a: Policy, b: Policy) {
    a.slotId < b.slotId || (a.slotId == b.slotId && a.version < b.version)
  }

  ghost predicate RowsInOrder(rows: seq<Policy>) {
    forall i, j :: 0 <= i < j < |rows| ==> RowBefore(rows[i], rows[j])
  }

  ghost predicate RowsOf(rows: seq<Policy>, ids: seq<uint64>) {
    forall i :: 0 <= i < |rows| ==> exists k :: 0 <= k < |ids| && ids[k] == rows[i].slotId
  }

  /** The history rows come slot by slot and version by version. */
  lemma {:induction false} PoliciesInOrder(m: Policies, ids: seq<uint64>)
    requires AscendingInts(ids)
    requires forall id, v :: id in m && v in m[id] ==> m[id][v].slotId == id && m[id][v].version == v
    ensures RowsInOrder(PolicyList(m, ids)) && RowsOf(PolicyList(m, ids), ids)
    decreases |ids|
  {
    hide AscendingIds, VersionList;
    if ids != [] {
      var front, id := ids[..|ids| - 1], ids[|ids| - 1];
      PoliciesInOrder(m, front);
      var earlier := PolicyList(m, front);
      forall i | 0 <= i < |earlier|
        ensures earlier[i].slotId < id && exists k :: 0 <= k < |ids| && ids[k] == earlier[i].slotId
      {
        var k :| 0 <= k < |front| && front[k] == earlier[i].slotId;
        assert ids[k] == front[k];
      }
      VersionsInOrder(m, id);
    }
  }

  lemma VersionsInOrder(m: Policies, id: uint64)
    requires forall id, v :: id in m && v in m[id] ==> m[id][v].slotId == id && m[id][v].version == v
    ensures var own := VersionList(Inner(m, id));
            && (forall i, j :: 0 <= i < j < |own| ==> own[i].version < own[j].version)
            && (forall i :: 0 <= i < |own| ==> own[i].slotId == id)
  {
    hide AscendingIds;
    var vs, own := AscendingIds(Inner(m, id).Keys), VersionList(Inner(m, id));
    forall i | 0 <= i < |vs| ensures own[i].slotId == id && own[i].version == vs[i] { assert vs[i] in vs; }
  }

  /** The primary role's nomination comes first. */
  lemma NominationsInOrder(m: map<Role, Transfer>, e: Entry)
    requires NoRole !in m
    ensures var rows := NominationList(m);
            && (forall i, j :: 0 <= i < j < |rows| ==> rows[i].role == Primary && rows[j].role == Emergency)
            && (e in rows <==> e.role in m && m[e.role] == e.transfer)
  {
    assert e.role == Primary || e.role == Emergency || e.role == NoRole;
  }

  // ----- Listing a collection and collecting the list -----

  lemma CollectListed<K(!new), V(!new)>(m: map<K, V>, ks: seq<K>, rows: seq<(K, V)>)
    requires forall k :: k in ks <==> k in m
    requires Unique(ks)
    requires |rows| == |ks| && forall i :: 0 <= i < |ks| ==> ks[i] in m && rows[i] == (ks[i], m[ks[i]])
    ensures Collect(rows) == m
  {
    forall k ensures k in Collect(rows) <==> k in m ensures k in m ==> Collect(rows)[k] == m[k] {
      if k in m {
        var i :| 0 <= i < |ks| && ks[i] == k;
        CollectUnique(rows, i);
      }
    }
  }

  lemma IdsDistinct(s: set<uint64>)
    ensures var ks := AscendingIds(s);
            Unique(ks) && forall i :: 0 <= i < |ks| ==> ks[i] in s
  {
    var ks := AscendingIds(s);
    forall i | 0 <= i < |ks| ensures ks[i] in s { assert ks[i] in ks; }
  }

  lemma KeysDistinct(s: set<string>)
    ensures var ks := AscendingKeys(s);
            Unique(ks) && forall i :: 0 <= i < |ks| ==> ks[i] in s
  {
    var ks := AscendingKeys(s);
    forall i | 0 <= i < |ks| ensures ks[i] in s { assert ks[i] in ks; }
    forall i, j | 0 <= i < j < |ks| ensures ks[i] != ks[j] { LessIrreflexive(ks[i]); }
  }

  // ----- A freshly imported store -----

  /** A slot an import may have written. */
  predicate FreshSlot(rules: Rules, s: Store, id: uint64, initial: int64)
    requires id in s.slots
  {
    var slot := s.slots[id];
    && slot.slotId == id && id < s.nextSlotId && SlotOk(rules, s.params.votingPower, slot)
    && rules.account(slot.operator) && rules.economic(slot.payout) && rules.economic(slot.settlement)
    && (slot.status == Active ==> slot.activatedHeight == initial && slot.activationEffectiveHeight == initial)
  }

  /** One open first version, from the initial height on. */
  predicate FreshPolicy(rows: map<uint64, Policy>, starts: map<int64, uint64>, id: uint64, initial: int64) {
    && 1 in rows && rows == map[1 := rows[1]] && starts == map[initial := 1]
    && rows[1].slotId == id && FirstPolicyOk(rows[1]) && rows[1].validFrom == initial
  }

  predicate FreshNomination(rules: Rules, s: Store, role: Role)
    requires role in s.nominations
  {
    NominationOk(rules, s.params, Entry(role, s.nominations[role])) && rules.economic(s.nominations[role].nominee)
  }

  ghost predicate FreshRows(rules: Rules, s: Store, initial: int64) {
    && initial >= 1 && ValidParams(rules, s.params) && s.nextSlotId >= 1
    && (forall id: uint64 {:trigger FreshSlot(rules, s, id, initial)} ::
          id in s.slots ==> FreshSlot(rules, s, id, initial))
    && s.policies.Keys == s.slots.Keys && s.starts.Keys == s.slots.Keys
    && (forall id: uint64 {:trigger FreshPolicy(s.policies[id], s.starts[id], id, initial)} ::
          id in s.policies ==> FreshPolicy(s.policies[id], s.starts[id], id, initial))
    && s.rotations == map[]
    && (forall role :: role in s.nominations ==> FreshNomination(rules, s, role))
    && (forall a :: a in s.reserved ==> s.reserved[a].address == a)
    && (forall id: uint64 :: id in s.rewardWeights ==> s.rewardWeights[id].slotId == id && id in s.slots)
  }

  ghost predicate FreshStore(rules: Rules, s: Store, initial: int64) {
    && FreshRows(rules, s, initial)
    && ActiveIndex(s.slots, s.active) && OperatorIndex(s.slots, s.byOperator)
    && s.params.minActive <= |s.active| <= s.params.maxActive
    && KeysDistinctIn(s.slots)
  }

  /** No two slots have one public key. */
  ghost predicate KeysDistinctIn(slots: map<uint64, CoreSlot>) {
    forall x: uint64, y: uint64 :: x in slots && y in slots && x != y ==> slots[x].key != slots[y].key
  }

  lemma RowsKeys(slots: seq<CoreSlot>)
    requires Unique(Keys(slots))
    ensures KeysDistinctIn(Collect(SlotPairs(slots)))
  {
    hide Collect;
    var m := Collect(SlotPairs(slots));
    forall x: uint64, y: uint64 | x in m && y in m && x != y ensures m[x].key != m[y].key {
      var i := SlotPosition(slots, x);
      var j := SlotPosition(slots, y);
      assert i < j || j < i;
      assert Keys(slots)[i] != Keys(slots)[j];
    }
  }

  lemma RowsFreshSlots(rules: Rules, g: GenesisState, initial: int64, id: uint64)
    requires Admissible(rules, g) && HeightsOk(g, initial) && AddressesOk(rules, g)
    requires id in Rows(rules, g).slots
    ensures FreshSlot(rules, Rows(rules, g), id, initial)
  {
    hide Collect, PoliciesOf, StartsOf, Lifecycle;
    hide NominationsOk, LastAppliedOk, ValidParams, HasFirstPolicy;
    var i := SlotPosition(g.slots, id);
  }

  lemma RowsFreshPolicies(rules: Rules, g: GenesisState, initial: int64, id: uint64)
    requires Admissible(rules, g) && HeightsOk(g, initial)
    requires id in Rows(rules, g).policies
    ensures id in Rows(rules, g).starts && FreshPolicy(Rows(rules, g).policies[id], Rows(rules, g).starts[id], id,
        initial)
  {
    hide Collect, NominationsOk, LastAppliedOk, ValidParams, SlotOk, PoliciesOf, StartsOf;
    PoliciesStored(g.policies, id);
    var j :| 0 <= j < |g.policies| && PolicyIds(g.policies)[j] == id;
    assert g.policies[j].slotId == id;
    FirstOf(rules, g, j);
  }

  /** The one row of a slot is the first version its slot calls for. */
  lemma FirstOf(rules: Rules, g: GenesisState, j: nat)
    requires Admissible(rules, g) && j < |g.policies|
    ensures FirstPolicyOk(g.policies[j])
  {
    hide NominationsOk, LastAppliedOk, ValidParams, SlotOk, FirstPolicyOk;
    var id := g.policies[j].slotId;
    var i :| 0 <= i < |g.slots| && SlotIds(g.slots)[i] == id;
    assert HasFirstPolicy(g.policies, g.slots[i].slotId);
    var k :| 0 <= k < |g.policies| && g.policies[k].slotId == id && FirstPolicyOk(g.policies[k]);
    assert PolicyIds(g.policies)[k] == PolicyIds(g.policies)[j];
  }

  lemma RowsFreshNominations(rules: Rules, g: GenesisState)
    requires Admissible(rules, g) && AddressesOk(rules, g)
    ensures var s := Rows(rules, g); forall role :: role in s.nominations ==> FreshNomination(rules, s, role)
  {
    hide SlotsOk, LastAppliedOk, ValidParams, SlotOk, PoliciesOf, StartsOf, Unique, Collect;
    AdmissibleParts(rules, g);
    var s := Rows(rules, g);
    forall role | role in s.nominations ensures FreshNomination(rules, s, role) {
      var i :| 0 <= i < |g.nominations| && NominationPairs(g.nominations)[i] == (role, s.nominations[role]);
      assert NominationOk(rules, s.params, g.nominations[i]);
    }
  }

  lemma RowsFreshReserved(rs: seq<Reservation>)
    ensures var m := Collect(ReservedPairs(rs)); forall a :: a in m ==> m[a].address == a
  {
    hide Collect;
    var m := Collect(ReservedPairs(rs));
    forall a | a in m ensures m[a].address == a {
      var i :| 0 <= i < |rs| && ReservedPairs(rs)[i] == (a, m[a]);
    }
  }

  lemma RowsFreshWeights(g: GenesisState)
    requires Unique(SlotIds(g.slots))
    requires forall i :: 0 <= i < |g.rewardWeights| ==> g.rewardWeights[i].slotId in SlotIds(g.slots)
    ensures var m := Collect(WeightPairs(g.rewardWeights));
            forall id: uint64 :: id in m ==> m[id].slotId == id && id in Collect(SlotPairs(g.slots))
  {
    hide Collect;
    var m := Collect(WeightPairs(g.rewardWeights));
    forall id: uint64 | id in m ensures m[id].slotId == id && id in Collect(SlotPairs(g.slots)) {
      var i :| 0 <= i < |g.rewardWeights| && WeightPairs(g.rewardWeights)[i] == (id, m[id]);
      var j :| 0 <= j < |g.slots| && SlotIds(g.slots)[j] == id;
      SlotStored(g.slots, j);
    }
  }

  lemma RowsFreshOthers(rules: Rules, g: GenesisState)
    requires Admissible(rules, g) && AddressesOk(rules, g)
    ensures var s := Rows(rules, g);
            && (forall role :: role in s.nominations ==> FreshNomination(rules, s, role))
            && (forall a :: a in s.reserved ==> s.reserved[a].address == a)
            && (forall id: uint64 :: id in s.rewardWeights ==> s.rewardWeights[id].slotId == id && id in s.slots)
  {
    hide SlotsOk, NominationsOk, LastAppliedOk, ValidParams, AddressesOk, FreshNomination, PoliciesOf, StartsOf, Unique,
      Collect, SlotPairs, WeightPairs, ReservedPairs;
    AdmissibleParts(rules, g);
    RowsFreshNominations(rules, g);
    RowsFreshReserved(g.reserved);
    RowsFreshWeights(g);
    var s := Rows(rules, g);
    assert s.reserved == Collect(ReservedPairs(g.reserved));
    assert s.rewardWeights == Collect(WeightPairs(g.rewardWeights)) && s.slots == Collect(SlotPairs(g.slots));
  }

  lemma RowsFreshRows(rules: Rules, g: GenesisState, initial: int64)
    requires Admissible(rules, g) && HeightsOk(g, initial) && AddressesOk(rules, g)
    ensures FreshRows(rules, Rows(rules, g), initial)
  {
    hide SlotsOk, NominationsOk, LastAppliedOk, ValidParams, FreshSlot, FreshPolicy, FreshNomination, Collect,
      PoliciesOf, StartsOf, ActiveIds, Unique, ActiveSlots, AddressesOk;
    AdmissibleParts(rules, g);
    var s := Rows(rules, g);
    RowsFreshOthers(rules, g);
    HistoryKeys(rules, g, initial);
    forall id: uint64 | id in s.slots ensures FreshSlot(rules, s, id, initial) {
      RowsFreshSlots(rules, g, initial, id);
    }
    forall id: uint64 | id in s.policies
        ensures id in s.starts && FreshPolicy(s.policies[id], s.starts[id], id, initial) {
      RowsFreshPolicies(rules, g, initial, id);
    }
    NoRows<uint64, Rotation>();
    assert RotationPairs(g.rotations) == [];
  }

  lemma RowsFresh(rules: Rules, g: GenesisState, initial: int64)
    requires Admissible(rules, g) && HeightsOk(g, initial) && AddressesOk(rules, g)
    ensures FreshStore(rules, Rows(rules, g), initial)
  {
    hide SlotsOk, NominationsOk, LastAppliedOk, ValidParams, FreshRows, ActiveIndex, OperatorIndex, Collect,
      PoliciesOf, StartsOf, ActiveIds, Unique, ActiveSlots, AddressesOk, HeightsOk, KeysDistinctIn;
    AdmissibleParts(rules, g);
    RowsActive(rules, g);
    RowsOperators(rules, g, g.params.value.votingPower);
    ActiveCounted(g.slots);
    UniqueKeys(rules, g);
    RowsKeys(g.slots);
    RowsFreshRows(rules, g, initial);
  }

  lemma UniqueKeys(rules: Rules, g: GenesisState)
    requires Admissible(rules, g)
    ensures Unique(Keys(g.slots))
  {
  }

  lemma HistoryKeys(rules: Rules, g: GenesisState, initial: int64)
    requires Admissible(rules, g) && HeightsOk(g, initial)
    ensures var s := Rows(rules, g); s.policies.Keys == s.slots.Keys && s.starts.Keys == s.slots.Keys && initial >= 1
  {
    hide SlotsOk, NominationsOk, LastAppliedOk, ValidParams, HistoryOk, Collect, PoliciesOf, StartsOf;
    RowsHistories(rules, g, initial);
  }

  // ----- Exporting it -----

  /** What a fresh store says of one slot. */
  lemma FreshFacts(rules: Rules, s: Store, initial: int64, id: uint64)
    requires FreshRows(rules, s, initial) && id in s.slots
    ensures s.slots[id].slotId == id && s.slots[id].status != Removed && FreshSlot(rules, s, id, initial)
    ensures id in s.policies && id in s.starts && FreshPolicy(s.policies[id], s.starts[id], id, initial)
  {
    hide FreshPolicy, FreshNomination, ValidParams;
    assert FreshSlot(rules, s, id, initial);
    assert id in s.policies.Keys;
  }

  lemma FreshIds(rules: Rules, s: Store, initial: int64)
    requires FreshStore(rules, s, initial)
    ensures forall id: uint64 :: id in s.slots ==> s.slots[id].slotId == id && s.slots[id].status != Removed
    ensures s.policies.Keys == s.slots.Keys && FreshRows(rules, s, initial)
  {
    hide FreshSlot, FreshPolicy, FreshNomination, ValidParams, ActiveIndex, OperatorIndex, KeysDistinctIn;
    forall id: uint64 | id in s.slots ensures s.slots[id].slotId == id && s.slots[id].status != Removed {
      FreshFacts(rules, s, initial, id);
    }
  }

  lemma SlotListed(m: map<uint64, CoreSlot>, id: uint64) returns (i: nat)
    requires id in m
    ensures i < |SlotList(m)| && SlotList(m)[i] == m[id]
  {
    var ids := AscendingIds(m.Keys);
    assert id in ids;
    i :| 0 <= i < |ids| && ids[i] == id;
  }

  lemma SlotListRows(m: map<uint64, CoreSlot>)
    requires forall id: uint64 :: id in m ==> m[id].slotId == id
    ensures Collect(SlotPairs(SlotList(m))) == m
    ensures Unique(SlotIds(SlotList(m)))
    ensures forall i :: 0 <= i < |SlotList(m)| ==>
              SlotList(m)[i].slotId in m && SlotList(m)[i] == m[SlotList(m)[i].slotId]
    ensures forall id: uint64 :: id in SlotIds(SlotList(m)) <==> id in m
  {
    hide AscendingIds, Collect, Unique;
    IdsDistinct(m.Keys);
    SlotListIds(m);
    CollectListed(m, AscendingIds(m.Keys), SlotPairs(SlotList(m)));
  }

  lemma SlotListIds(m: map<uint64, CoreSlot>)
    requires forall id: uint64 :: id in m ==> m[id].slotId == id
    ensures SlotIds(SlotList(m)) == AscendingIds(m.Keys)
  {
    hide AscendingIds;
    var ids := AscendingIds(m.Keys);
    forall i | 0 <= i < |ids| ensures ids[i] in m { assert ids[i] in ids; }
  }

  lemma FreshFirst(rules: Rules, s: Store, initial: int64, id: uint64)
    requires FreshRows(rules, s, initial) && id in s.policies
    ensures 1 in s.policies[id] && s.policies[id] == map[1 := s.policies[id][1]]
  {
    hide FreshRows, FirstPolicyOk;
    SameOwners(rules, s, initial);
    FreshFacts(rules, s, initial, id);
  }

  lemma {:induction false} FreshPolicyList(rules: Rules, s: Store, initial: int64, ids: seq<uint64>)
    requires FreshRows(rules, s, initial) && forall i :: 0 <= i < |ids| ==> ids[i] in s.policies
    ensures |PolicyList(s.policies, ids)| == |ids|
    ensures forall i :: 0 <= i < |ids| ==>
              1 in s.policies[ids[i]] && PolicyList(s.policies, ids)[i] == s.policies[ids[i]][1]
    decreases |ids|
  {
    hide FreshRows, FreshSlot, FreshPolicy, VersionList, FirstPolicyOk;
    forall i | 0 <= i < |ids| ensures 1 in s.policies[ids[i]] { FreshFirst(rules, s, initial, ids[i]); }
    if ids != [] {
      var n := |ids| - 1;
      FreshPolicyList(rules, s, initial, ids[..n]);
      FreshFirst(rules, s, initial, ids[n]);
      OneVersion(s.policies[ids[n]]);
    }
  }

  lemma OneVersion(rows: map<uint64, Policy>)
    requires 1 in rows && rows == map[1 := rows[1]]
    ensures VersionList(rows) == [rows[1]]
  {
    var vs := AscendingIds(rows.Keys);
    assert rows.Keys == {1};
    AscendingIdsCount(rows.Keys);
    assert vs[0] in vs;
  }

  /** The first version of its slot. */
  predicate FirstRow(s: Store, p: Policy) {
    p.slotId in s.policies && 1 in s.policies[p.slotId] && p == s.policies[p.slotId][1]
  }

  lemma ExportedPolicies(rules: Rules, s: Store, initial: int64)
    requires FreshRows(rules, s, initial)
    ensures var ps := ExportGenesis(s).policies; var ids := AscendingIds(s.policies.Keys);
            && PolicyIds(ps) == ids && Unique(PolicyIds(ps))
            && (forall j :: 0 <= j < |ps| ==> FirstRow(s, ps[j]))
  {
    hide FreshRows, Unique, ExportGenesis, PolicyList, FreshPolicy, AscendingIds, FreshSlot, FirstPolicyOk;
    var ids := AscendingIds(s.policies.Keys);
    ExportNames(s);
    IdsDistinct(s.policies.Keys);
    FreshPolicyList(rules, s, initial, ids);
    SameOwners(rules, s, initial);
    FreshPolicyOwners(rules, s, initial, ids);
  }

  lemma FreshPolicyOwners(rules: Rules, s: Store, initial: int64, ids: seq<uint64>)
    requires FreshRows(rules, s, initial) && forall i :: 0 <= i < |ids| ==> ids[i] in s.policies
    ensures var ps := PolicyList(s.policies, ids);
            PolicyIds(ps) == ids && forall j :: 0 <= j < |ps| ==> FirstRow(s, ps[j])
  {
    hide FreshRows, FreshPolicy, AscendingIds, FreshSlot, FirstPolicyOk, PolicyList;
    FreshPolicyList(rules, s, initial, ids);
    SameOwners(rules, s, initial);
    var ps := PolicyList(s.policies, ids);
    forall j | 0 <= j < |ps| ensures ps[j].slotId == ids[j] && FirstRow(s, ps[j]) {
      FreshFacts(rules, s, initial, ids[j]);
      OpenVersion(s.policies[ids[j]], s.starts[ids[j]], ids[j], initial);
    }
  }

  lemma OpenVersion(rows: map<uint64, Policy>, starts: map<int64, uint64>, id: uint64, initial: int64)
    requires FreshPolicy(rows, starts, id, initial)
    ensures 1 in rows && rows[1].slotId == id && rows[1].version == 1 && rows[1].validFrom == initial
    ensures FirstPolicyOk(rows[1])
    ensures rows == map[rows[1].version := rows[1]] && starts == map[rows[1].validFrom := rows[1].version]
  {
  }

  /** The export's collections, by name. */
  lemma ExportNames(s: Store)
    ensures var g := ExportGenesis(s);
            && g.params == Some(s.params) && g.slots == SlotList(s.slots) && g.rotations == RotationList(s.rotations)
            && g.reserved == ReservedList(s.reserved) && g.rewardWeights == WeightList(s.rewardWeights)
            && g.lastApplied == ValidatorList(s.lastApplied) && g.nextSlotId == s.nextSlotId
            && g.policies == PolicyList(s.policies, AscendingIds(s.policies.Keys))
            && g.nominations == NominationList(s.nominations)
  {
  }

  lemma SameOwners(rules: Rules, s: Store, initial: int64)
    requires FreshRows(rules, s, initial)
    ensures s.policies.Keys == s.slots.Keys == s.starts.Keys
  {
    hide FreshSlot, FreshPolicy, FreshNomination, ValidParams;
  }

  lemma ExportedHistories(rules: Rules, s: Store, initial: int64)
    requires FreshRows(rules, s, initial)
    ensures PoliciesOf(ExportGenesis(s).policies) == s.policies && StartsOf(ExportGenesis(s).policies) == s.starts
  {
    hide FreshRows, ExportGenesis, PoliciesOf, StartsOf, FreshPolicy, Unique, AscendingIds, FreshSlot, FirstPolicyOk;
    var ps := ExportGenesis(s).policies;
    SameOwners(rules, s, initial);
    ExportedPolicies(rules, s, initial);
    forall id: uint64
      ensures (id in PoliciesOf(ps) <==> id in s.policies) && (id in StartsOf(ps) <==> id in s.starts)
      ensures id in s.policies ==>
                Inner(PoliciesOf(ps), id) == s.policies[id] && Inner(StartsOf(ps), id) == s.starts[id]
    {
      PoliciesStored(ps, id);
      if id in s.policies { ExportedHistory(rules, s, initial, ps, id); }
    }
  }

  lemma ExportedHistory(rules: Rules, s: Store, initial: int64, ps: seq<Policy>, id: uint64)
    requires FreshRows(rules, s, initial) && id in s.policies && id in s.starts
    requires id in PolicyIds(ps) && Unique(PolicyIds(ps)) && forall j :: 0 <= j < |ps| ==> FirstRow(s, ps[j])
    ensures Inner(PoliciesOf(ps), id) == s.policies[id] && Inner(StartsOf(ps), id) == s.starts[id]
  {
    hide FreshRows, PoliciesOf, StartsOf, FreshPolicy, Unique, FreshSlot, FirstPolicyOk;
    PoliciesStored(ps, id);
    var j :| 0 <= j < |ps| && PolicyIds(ps)[j] == id;
    assert FirstRow(s, ps[j]);
    SameOwners(rules, s, initial);
    FreshFacts(rules, s, initial, id);
    OpenVersion(s.policies[id], s.starts[id], id, initial);
  }

  lemma ExportedNominations(rules: Rules, s: Store)
    requires forall role :: role in s.nominations ==> FreshNomination(rules, s, role)
    ensures Collect(NominationPairs(NominationList(s.nominations))) == s.nominations
    ensures NominationsOk(rules, s.params, NominationList(s.nominations))
    ensures forall i :: 0 <= i < |NominationList(s.nominations)| ==>
        rules.economic(NominationList(s.nominations)[i].transfer.nominee)
  {
    hide ValidParams, Collect;
    var m := s.nominations;
    var es := NominationList(m);
    assert NoRole !in m;
    NominationRows(m);
    forall i | 0 <= i < |es| ensures es[i].role in m && es[i].transfer == m[es[i].role] {}
  }

  lemma NominationRows(m: map<Role, Transfer>)
    requires NoRole !in m
    ensures Collect(NominationPairs(NominationList(m))) == m && Unique(Roles(NominationList(m)))
  {
    hide Collect;
    var es := NominationList(m);
    var ks := Roles(es);
    assert (Primary in m ==> Primary in ks) by { if Primary in m { assert ks[0] == Primary; } }
    assert (Emergency in m ==> Emergency in ks) by { if Emergency in m { assert ks[|ks| - 1] == Emergency; } }
    forall i | 0 <= i < |es| ensures ks[i] in m && NominationPairs(es)[i] == (ks[i], m[ks[i]]) {}
    forall role: Role ensures role in ks <==> role in m {
      assert role == NoRole || role == Primary || role == Emergency;
    }
    assert Unique(ks);
    CollectListed(m, ks, NominationPairs(es));
  }

  lemma ExportedReserved(m: map<string, Reservation>)
    requires forall a :: a in m ==> m[a].address == a
    ensures Collect(ReservedPairs(ReservedList(m))) == m && Unique(ReservedKeys(ReservedList(m)))
  {
    hide AscendingKeys, Collect;
    var ks := AscendingKeys(m.Keys);
    KeysDistinct(m.Keys);
    CollectListed(m, ks, ReservedPairs(ReservedList(m)));
    assert ReservedKeys(ReservedList(m)) == ks;
  }

  lemma ExportedWeights(m: map<uint64, RewardWeight>)
    requires forall id: uint64 :: id in m ==> m[id].slotId == id
    ensures Collect(WeightPairs(WeightList(m))) == m
    ensures forall i :: 0 <= i < |WeightList(m)| ==> WeightList(m)[i].slotId in m
  {
    hide AscendingIds, Collect;
    var ids := AscendingIds(m.Keys);
    IdsDistinct(m.Keys);
    CollectListed(m, ids, WeightPairs(WeightList(m)));
  }

  /** One operator index per slot collection. */
  lemma OperatorIndexUnique(slots: map<uint64, CoreSlot>, a: map<string, uint64>, b: map<string, uint64>)
    requires OperatorIndex(slots, a) && OperatorIndex(slots, b)
    ensures a == b
  {
  }

  /** One consensus index per slot collection without staged keys. */
  lemma ConsensusIndexUnique(rules: Rules, slots: map<uint64, CoreSlot>, a: map<string, uint64>, b: map<string, uint64>)
    requires ConsensusIndex(rules, slots, map[], a) && ConsensusIndex(rules, slots, map[], b)
    ensures a == b
  {
  }

  // ----- The export is admitted again -----

  /** The last applied validators are the ACTIVE slots', each under its own address. */
  ghost predicate AppliedActive(rules: Rules, s: Store) {
    && KeyedByAddress(rules, s.lastApplied)
    && IsActiveSet(rules, s.slots, Powers(s.lastApplied))
    && ListsActive(rules, s, s.lastApplied)
  }

  /** The expected validators of a list whose ACTIVE addresses are distinct. */
  lemma {:induction false} ExpectedMeans(rules: Rules, slots: seq<CoreSlot>)
    requires ActiveAddressesDistinct(rules, slots)
    ensures forall i :: 0 <= i < |slots| && slots[i].status == Active ==>
              var a := Address(rules, slots[i].key);
              a in Expected(rules, slots) && Expected(rules, slots)[a] == (slots[i].slotId, slots[i].power)
    ensures forall a :: a in Expected(rules, slots) ==>
              exists i :: 0 <= i < |slots| && slots[i].status == Active && Address(rules, slots[i].key) == a
    decreases |slots|
  {
    hide Address;
    if slots != [] {
      var n := |slots| - 1;
      var front := slots[..n];
      assert forall i :: 0 <= i < n ==> front[i] == slots[i];
      ExpectedMeans(rules, front);
      forall a | a in Expected(rules, slots)
        ensures exists i :: 0 <= i < |slots| && slots[i].status == Active && Address(rules, slots[i].key) == a
      {
        if a in Expected(rules, front) {
          var i :| 0 <= i < n && front[i].status == Active && Address(rules, front[i].key) == a;
          assert slots[i] == front[i];
        }
      }
      forall i | 0 <= i < n && slots[i].status == Active
        ensures slots[n].status == Active ==> Address(rules, slots[i].key) != Address(rules, slots[n].key)
        ensures front[i].status == Active
      {
      }
    }
  }

  /** The validator stands for the ACTIVE slot: its address, its id and its power. */
  predicate Serves(rules: Rules, v: Validator, slot: CoreSlot) {
    && slot.status == Active && ConsensusKey(rules, v.key).Success?
    && Address(rules, v.key) == Address(rules, slot.key) && v.slotId == slot.slotId && v.power == slot.power
  }

  ghost predicate HasSlot(rules: Rules, slots: seq<CoreSlot>, v: Validator) {
    exists i :: 0 <= i < |slots| && Serves(rules, v, slots[i])
  }

  ghost predicate HasValidator(rules: Rules, vs: seq<Validator>, slot: CoreSlot) {
    exists j :: 0 <= j < |vs| && Serves(rules, vs[j], slot)
  }

  /**
   A supplied last applied set is admitted exactly when its addresses are distinct, each of its
   validators stands for an ACTIVE slot, and each ACTIVE slot has one.
   */
  lemma LastAppliedMeans(rules: Rules, slots: seq<CoreSlot>, vs: seq<Validator>)
    requires ActiveAddressesDistinct(rules, slots) && vs != []
    ensures LastAppliedOk(rules, slots, vs) <==>
              && Unique(ValidatorKeys(rules, vs))
              && (forall j :: 0 <= j < |vs| ==> HasSlot(rules, slots, vs[j]))
              && (forall i :: 0 <= i < |slots| && slots[i].status == Active ==> HasValidator(rules, vs, slots[i]))
  {
    hide Address, Expected, ActiveAddressesDistinct, Unique, ConsensusKey, HasSlot, HasValidator, ValidatorOk;
    var expected, keys := Expected(rules, slots), ValidatorKeys(rules, vs);
    var named := set k | k in keys;
    forall j | 0 <= j < |vs| ensures ValidatorOk(rules, expected, vs[j]) <==> HasSlot(rules, slots, vs[j]) {
      ValidatorServes(rules, slots, vs[j]);
    }
    if Unique(keys) && forall j :: 0 <= j < |vs| ==> HasSlot(rules, slots, vs[j]) {
      UniqueCount(keys);
      assert named <= expected.Keys by { NamedExpected(rules, expected, vs); }
      EachServed(rules, slots, vs);
      if |vs| == |expected| { ValidatorDiff.SubsetOfSameSize(named, expected.Keys); }
      assert expected.Keys <= named ==> named == expected.Keys;
      assert |expected.Keys| == |expected|;
    }
  }

  lemma NamedExpected(rules: Rules, expected: map<string, (uint64, int64)>, vs: seq<Validator>)
    requires forall j :: 0 <= j < |vs| ==> ValidatorOk(rules, expected, vs[j])
    ensures forall k :: k in ValidatorKeys(rules, vs) ==> k in expected
  {
  }

  lemma ValidatorServes(rules: Rules, slots: seq<CoreSlot>, v: Validator)
    requires ActiveAddressesDistinct(rules, slots)
    ensures ValidatorOk(rules, Expected(rules, slots), v) <==> HasSlot(rules, slots, v)
  {
    hide Address, Expected, ActiveAddressesDistinct, ConsensusKey;
    ExpectedMeans(rules, slots);
    if ValidatorOk(rules, Expected(rules, slots), v) {
      var i :| 0 <= i < |slots| && slots[i].status == Active && Address(rules, slots[i].key) == Address(rules, v.key);
      assert Serves(rules, v, slots[i]);
    }
  }

  /** Every ACTIVE slot has a validator exactly when every expected address is named. */
  lemma EachServed(rules: Rules, slots: seq<CoreSlot>, vs: seq<Validator>)
    requires ActiveAddressesDistinct(rules, slots)
    requires forall j :: 0 <= j < |vs| ==> ValidatorOk(rules, Expected(rules, slots), vs[j])
    ensures (forall i :: 0 <= i < |slots| && slots[i].status == Active ==> HasValidator(rules, vs, slots[i])) <==>
              Expected(rules, slots).Keys <= set k | k in ValidatorKeys(rules, vs)
  {
    hide Address, Expected, ActiveAddressesDistinct, ConsensusKey, HasValidator, ValidatorOk, ValidatorKeys;
    var keys := ValidatorKeys(rules, vs);
    forall i | 0 <= i < |slots| && slots[i].status == Active
      ensures HasValidator(rules, vs, slots[i]) <==> Address(rules, slots[i].key) in keys
    {
      SlotServed(rules, slots, vs, i);
    }
    ExpectedMeans(rules, slots);
  }

  lemma SlotServed(rules: Rules, slots: seq<CoreSlot>, vs: seq<Validator>, i: nat)
    requires ActiveAddressesDistinct(rules, slots) && i < |slots| && slots[i].status == Active
    requires forall j :: 0 <= j < |vs| ==> ValidatorOk(rules, Expected(rules, slots), vs[j])
    ensures HasValidator(rules, vs, slots[i]) <==> Address(rules, slots[i].key) in ValidatorKeys(rules, vs)
  {
    hide Address, Expected, ActiveAddressesDistinct, ConsensusKey;
    var keys := ValidatorKeys(rules, vs);
    ExpectedMeans(rules, slots);
    if Address(rules, slots[i].key) in keys {
      var j :| 0 <= j < |vs| && keys[j] == Address(rules, slots[i].key);
      assert Serves(rules, vs[j], slots[i]);
    }
    if HasValidator(rules, vs, slots[i]) {
      var j :| 0 <= j < |vs| && Serves(rules, vs[j], slots[i]);
      assert keys[j] == Address(rules, slots[i].key);
    }
  }

  lemma {:induction false} UniqueCount<T>(keys: seq<T>)
    requires Unique(keys)
    ensures |set k | k in keys| == |keys|
    decreases |keys|
  {
    if keys != [] {
      var n := |keys| - 1;
      UniqueCount(keys[..n]);
      assert keys == keys[..n] + [keys[n]];
      assert (set k | k in keys) == (set k | k in keys[..n]) + {keys[n]};
    }
  }

  lemma ExportedValidators(rules: Rules, s: Store)
    requires forall id: uint64 :: id in s.slots ==> s.slots[id].slotId == id
    requires AppliedActive(rules, s) && KeyedByAddress(rules, s.lastApplied)
    ensures LastAppliedOk(rules, SlotList(s.slots), ValidatorList(s.lastApplied))
    ensures ActiveAddressesDistinct(rules, SlotList(s.slots))
  {
    hide Expected, Address, ActiveAddressesDistinct, SlotList, ValidatorList, IsActiveSet, ListsActive,
      KeyedByAddress, Unique, AppliedActive;
    var slots := SlotList(s.slots);
    AppliedDistinct(rules, s);
    ValidatorsKeyed(rules, s.lastApplied);
    var vs := ValidatorList(s.lastApplied);
    var expected := Expected(rules, slots);
    forall a ensures a in s.lastApplied <==> a in expected
             ensures a in s.lastApplied ==> expected[a] == (s.lastApplied[a].slotId, s.lastApplied[a].power)
    {
      ExpectedIsApplied(rules, s, a);
    }
    assert expected.Keys == s.lastApplied.Keys;
    assert |expected| == |s.lastApplied|;
  }

  lemma ValidatorsKeyed(rules: Rules, m: map<string, Validator>)
    requires KeyedByAddress(rules, m)
    ensures var vs := ValidatorList(m);
            && |vs| == |m| && Unique(ValidatorKeys(rules, vs))
            && (forall i :: 0 <= i < |vs| ==>
                  && ConsensusKey(rules, vs[i].key).Success? && Address(rules, vs[i].key) in m
                  && vs[i] == m[Address(rules, vs[i].key)])
  {
    var vs, ks := ValidatorList(m), AscendingKeys(m.Keys);
    KeysDistinct(m.Keys);
    AscendingKeysCount(m.Keys);
    forall i | 0 <= i < |vs| ensures Address(rules, vs[i].key) == ks[i] && vs[i] == m[ks[i]] {}
  }

  lemma AppliedDistinct(rules: Rules, s: Store)
    requires forall id: uint64 :: id in s.slots ==> s.slots[id].slotId == id
    requires AppliedActive(rules, s)
    ensures ActiveAddressesDistinct(rules, SlotList(s.slots))
  {
    hide SlotList, IsActiveSet, KeyedByAddress, Address;
    var slots := SlotList(s.slots);
    SlotListRows(s.slots);
    forall i, j | 0 <= i < j < |slots| && slots[i].status == Active && slots[j].status == Active
      ensures Address(rules, slots[i].key) != Address(rules, slots[j].key)
    {
      assert SlotIds(slots)[i] != SlotIds(slots)[j];
      assert Listed(rules, s.lastApplied, s.slots[slots[i].slotId]);
      assert Listed(rules, s.lastApplied, s.slots[slots[j].slotId]);
    }
  }

  lemma ExpectedIsApplied(rules: Rules, s: Store, a: string)
    requires forall id: uint64 :: id in s.slots ==> s.slots[id].slotId == id
    requires AppliedActive(rules, s) && ActiveAddressesDistinct(rules, SlotList(s.slots))
    ensures var expected := Expected(rules, SlotList(s.slots));
            && (a in s.lastApplied <==> a in expected)
            && (a in s.lastApplied ==> expected[a] == (s.lastApplied[a].slotId, s.lastApplied[a].power))
  {
    hide Expected, Address, ActiveAddressesDistinct, SlotList, KeyedByAddress, ListsActive, IsActiveSet;
    var slots := SlotList(s.slots);
    SlotListRows(s.slots);
    ExpectedMeans(rules, slots);
    if a in s.lastApplied {
      var id := AppliedSlot(rules, s, a);
      var i := SlotListed(s.slots, id);
      assert slots[i].status == Active;
    }
    if a in Expected(rules, slots) {
      var i :| 0 <= i < |slots| && slots[i].status == Active && Address(rules, slots[i].key) == a;
      ActiveIsApplied(rules, s, slots[i].slotId);
    }
  }

  /** The ACTIVE slot behind a last applied validator. */
  lemma AppliedSlot(rules: Rules, s: Store, a: string) returns (id: uint64)
    requires AppliedActive(rules, s) && a in s.lastApplied
    ensures id in s.slots && s.slots[id].status == Active && Address(rules, s.slots[id].key) == a
    ensures s.lastApplied[a] == Validator(s.slots[id].slotId, s.slots[id].key, s.slots[id].power)
  {
    assert a in Powers(s.lastApplied);
    id :| id in s.slots && s.slots[id].status == Active && Address(rules, s.slots[id].key) == a;
    ActiveIsApplied(rules, s, id);
  }

  lemma ActiveIsApplied(rules: Rules, s: Store, id: uint64)
    requires AppliedActive(rules, s) && id in s.slots && s.slots[id].status == Active
    ensures Listed(rules, s.lastApplied, s.slots[id])
  {
  }

  lemma FreshActive(rules: Rules, s: Store, initial: int64, id: uint64)
    requires FreshStore(rules, s, initial)
    ensures id in s.active <==> id in s.slots && s.slots[id].status == Active
  {
    hide FreshRows, OperatorIndex, KeysDistinctIn;
  }

  lemma ExportedActiveOne(rules: Rules, s: Store, initial: int64, id: uint64)
    requires FreshStore(rules, s, initial)
    ensures id in ActiveIds(SlotList(s.slots)) <==> id in s.active
  {
    hide FreshStore, SlotList, SlotIds, Collect, Unique;
    var slots := SlotList(s.slots);
    FreshIds(rules, s, initial);
    SlotListRows(s.slots);
    FreshActive(rules, s, initial, id);
    if id in s.active {
      var i := SlotListed(s.slots, id);
      assert slots[i].slotId == id;
    }
  }

  lemma ExportedActive(rules: Rules, s: Store, initial: int64)
    requires FreshStore(rules, s, initial)
    ensures ActiveIds(SlotList(s.slots)) == s.active && ActiveSlots(SlotList(s.slots)) == |s.active|
  {
    hide FreshStore, ActiveIds, ActiveSlots, SlotList, Unique, SlotIds, Collect;
    forall id: uint64 ensures id in ActiveIds(SlotList(s.slots)) <==> id in s.active {
      ExportedActiveOne(rules, s, initial, id);
    }
    FreshIds(rules, s, initial);
    SlotListRows(s.slots);
    ActiveCounted(SlotList(s.slots));
  }

  lemma ExportedSlots(rules: Rules, s: Store, initial: int64)
    requires FreshStore(rules, s, initial)
    ensures var g := ExportGenesis(s);
            && SlotsOk(rules, s.params.votingPower, g.slots, g.policies)
            && (forall i :: 0 <= i < |g.slots| ==> FreshSlotRow(rules, s, g.slots[i], initial))
  {
    hide FreshStore, FreshRows, SlotOk, FirstPolicyOk, ExportGenesis, SlotList, Unique, FreshSlotRow, HasFirstPolicy,
      FirstRow, SlotIds, PolicyIds, Operators, Keys;
    var g := ExportGenesis(s);
    FreshIds(rules, s, initial);
    ExportedPolicies(rules, s, initial);
    ExportNames(s);
    SlotListRows(s.slots);
    OperatorsDistinct(rules, s, initial);
    KeysDiffer(rules, s, initial);
    forall i | 0 <= i < |g.slots|
      ensures FreshSlotRow(rules, s, g.slots[i], initial) && HasFirstPolicy(g.policies, g.slots[i].slotId)
      ensures SlotOk(rules, s.params.votingPower, g.slots[i])
    {
      SlotRowFresh(rules, s, initial, g.slots[i]);
      HasExportedPolicy(rules, s, initial, g.policies, g.slots[i].slotId);
    }
  }

  lemma ExportedFirsts(rules: Rules, s: Store, initial: int64)
    requires FreshStore(rules, s, initial)
    ensures var g := ExportGenesis(s);
            forall j :: 0 <= j < |g.policies| ==>
              g.policies[j].slotId in SlotIds(g.slots) && g.policies[j].validFrom == initial
  {
    hide FreshStore, FreshRows, FirstPolicyOk, ExportGenesis, SlotList, Unique, FirstRow, SlotIds, PolicyIds;
    var g := ExportGenesis(s);
    FreshIds(rules, s, initial);
    ExportedPolicies(rules, s, initial);
    ExportNames(s);
    SlotListRows(s.slots);
    forall j | 0 <= j < |g.policies|
        ensures g.policies[j].slotId in SlotIds(g.slots) && g.policies[j].validFrom == initial {
      RowFresh(rules, s, initial, g.policies[j]);
    }
  }

  lemma SlotRowFresh(rules: Rules, s: Store, initial: int64, slot: CoreSlot)
    requires FreshStore(rules, s, initial) && slot.slotId in s.slots && s.slots[slot.slotId] == slot
    ensures FreshSlotRow(rules, s, slot, initial) && SlotOk(rules, s.params.votingPower, slot)
  {
    hide FreshStore, FreshRows, SlotOk;
    FreshIds(rules, s, initial);
    FreshFacts(rules, s, initial, slot.slotId);
  }

  lemma RowFresh(rules: Rules, s: Store, initial: int64, p: Policy)
    requires FreshStore(rules, s, initial) && FirstRow(s, p)
    ensures p.slotId in s.slots && p.validFrom == initial && FirstPolicyOk(p)
  {
    hide FreshStore, FreshRows, FreshSlot, FirstPolicyOk;
    FreshIds(rules, s, initial);
    FreshFacts(rules, s, initial, p.slotId);
  }

  lemma HasExportedPolicy(rules: Rules, s: Store, initial: int64, ps: seq<Policy>, id: uint64)
    requires FreshStore(rules, s, initial) && id in s.slots
    requires PolicyIds(ps) == AscendingIds(s.policies.Keys) && forall j :: 0 <= j < |ps| ==> FirstRow(s, ps[j])
    ensures HasFirstPolicy(ps, id)
  {
    hide FreshStore, FreshRows, FirstRow, FirstPolicyOk, AscendingIds;
    FreshIds(rules, s, initial);
    assert id in AscendingIds(s.policies.Keys);
    var j :| 0 <= j < |ps| && PolicyIds(ps)[j] == id;
    RowFresh(rules, s, initial, ps[j]);
  }

  predicate FreshSlotRow(rules: Rules, s: Store, slot: CoreSlot, initial: int64) {
    slot.slotId in s.slots && s.slots[slot.slotId] == slot && FreshSlot(rules, s, slot.slotId, initial)
  }

  /** Two positions of the list are two slots of the store. */
  lemma TwoSlots(rules: Rules, s: Store, initial: int64, i: nat, j: nat)
    requires FreshStore(rules, s, initial) && i < j < |SlotList(s.slots)|
    ensures var x, y := SlotList(s.slots)[i], SlotList(s.slots)[j];
            && x.slotId != y.slotId && x.slotId in s.slots && y.slotId in s.slots
            && s.slots[x.slotId] == x && s.slots[y.slotId] == y && x.status != Removed && y.status != Removed
  {
    hide FreshStore, FreshRows, SlotList;
    FreshIds(rules, s, initial);
    SlotListRows(s.slots);
    assert SlotIds(SlotList(s.slots))[i] != SlotIds(SlotList(s.slots))[j];
  }

  lemma OneOperatorEach(slots: map<uint64, CoreSlot>, byOperator: map<string, uint64>, x: uint64, y: uint64)
    requires OperatorIndex(slots, byOperator) && x in slots && y in slots && x != y
    requires slots[x].status != Removed && slots[y].status != Removed
    ensures slots[x].operator != slots[y].operator
  {
  }

  lemma OneAddressEach(rules: Rules, slots: map<uint64, CoreSlot>, byConsensus: map<string, uint64>, x: uint64,
      y: uint64)
    requires ConsensusIndex(rules, slots, map[], byConsensus) && x in slots && y in slots && x != y
    requires slots[x].status != Removed && slots[y].status != Removed
    ensures Address(rules, slots[x].key) != Address(rules, slots[y].key)
  {
  }

  lemma OperatorsDistinct(rules: Rules, s: Store, initial: int64)
    requires FreshStore(rules, s, initial)
    ensures Unique(Operators(SlotList(s.slots)))
  {
    hide FreshStore, OperatorIndex, SlotList;
    var slots := SlotList(s.slots);
    FreshParts(rules, s, initial);
    forall i, j | 0 <= i < j < |slots| ensures Operators(slots)[i] != Operators(slots)[j] {
      TwoSlots(rules, s, initial, i, j);
      OneOperatorEach(s.slots, s.byOperator, slots[i].slotId, slots[j].slotId);
    }
  }

  lemma TwoKeys(rules: Rules, s: Store, initial: int64, x: uint64, y: uint64)
    requires FreshStore(rules, s, initial) && x in s.slots && y in s.slots && x != y
    ensures s.slots[x].key != s.slots[y].key
  {
    hide FreshRows, ActiveIndex, OperatorIndex;
  }

  lemma KeysDiffer(rules: Rules, s: Store, initial: int64)
    requires FreshStore(rules, s, initial)
    ensures Unique(Keys(SlotList(s.slots)))
  {
    hide FreshStore, SlotList;
    var slots := SlotList(s.slots);
    forall i, j | 0 <= i < j < |slots| ensures Keys(slots)[i] != Keys(slots)[j] {
      TwoSlots(rules, s, initial, i, j);
      TwoKeys(rules, s, initial, slots[i].slotId, slots[j].slotId);
    }
  }

  /** A fresh store with its validators applied exports a document that can be imported at the same height. */
  lemma FreshExport(rules: Rules, s: Store, initial: int64)
    requires FreshStore(rules, s, initial) && AppliedActive(rules, s)
    ensures Admissible(rules, ExportGenesis(s)) && HeightsOk(ExportGenesis(s), initial)
    ensures AddressesOk(rules, ExportGenesis(s))
    ensures ActiveAddressesDistinct(rules, ExportGenesis(s).slots)
  {
    hide FreshStore, ActiveAddressesDistinct, AppliedActive, ExportGenesis, Admissible, HeightsOk, AddressesOk,
      SlotList, LastAppliedOk;
    ExportNames(s);
    FreshIds(rules, s, initial);
    AppliedKeyed(rules, s);
    ExportedValidators(rules, s);
    ExportedHeights(rules, s, initial);
    FreshAdmissible(rules, s, initial);
  }

  lemma AppliedKeyed(rules: Rules, s: Store)
    requires AppliedActive(rules, s)
    ensures KeyedByAddress(rules, s.lastApplied)
  {
  }

  lemma FreshAdmissible(rules: Rules, s: Store, initial: int64)
    requires FreshStore(rules, s, initial) && LastAppliedOk(rules, SlotList(s.slots), ValidatorList(s.lastApplied))
    ensures Admissible(rules, ExportGenesis(s))
  {
    hide SlotsOk, LastAppliedOk, NominationsOk, ValidParams, Unique, FreshStore, FreshRows, FreshSlot, ActiveSlots,
      SlotList, ExportGenesis, Admissible, HeightsOk, AddressesOk, SlotIds, PolicyIds, FreshNomination, ReservedKeys;
    var g := ExportGenesis(s);
    ExportNames(s);
    FreshIds(rules, s, initial);
    FreshParts(rules, s, initial);
    ExportedSlots(rules, s, initial);
    ExportedFirsts(rules, s, initial);
    ExportedPolicies(rules, s, initial);
    ExportedNominations(rules, s);
    ExportedReserved(s.reserved);
    ExportedActive(rules, s, initial);
    NoRotations(s);
    ExportedHeights(rules, s, initial);
    ExportedOwners(s);
    AdmissibleFrom(rules, g);
  }

  lemma ExportedOwners(s: Store)
    requires forall id: uint64 :: id in s.slots ==> s.slots[id].slotId == id
    requires forall id: uint64 :: id in s.rewardWeights ==> s.rewardWeights[id].slotId == id && id in s.slots
    ensures var g := ExportGenesis(s); forall i :: 0 <= i < |g.rewardWeights| ==>
        g.rewardWeights[i].slotId in SlotIds(g.slots)
  {
    hide SlotList, WeightList, SlotIds;
    SlotListRows(s.slots);
    ExportedWeights(s.rewardWeights);
  }

  lemma AdmissibleFrom(rules: Rules, g: GenesisState)
    requires g.params.Some? && ValidParams(rules, g.params.value) && g.nextSlotId >= 1 && g.rotations == []
    requires NominationsOk(rules, g.params.value, g.nominations)
    requires Unique(PolicyIds(g.policies)) && Unique(ReservedKeys(g.reserved))
    requires SlotsOk(rules, g.params.value.votingPower, g.slots, g.policies)
    requires g.params.value.minActive <= ActiveSlots(g.slots) <= g.params.value.maxActive
    requires forall j :: 0 <= j < |g.policies| ==> g.policies[j].slotId in SlotIds(g.slots)
    requires forall i :: 0 <= i < |g.slots| ==> g.slots[i].slotId < g.nextSlotId
    requires forall i :: 0 <= i < |g.rewardWeights| ==> g.rewardWeights[i].slotId in SlotIds(g.slots)
    requires LastAppliedOk(rules, g.slots, g.lastApplied)
    ensures Admissible(rules, g)
  {
  }

  lemma ExportedHeights(rules: Rules, s: Store, initial: int64)
    requires FreshStore(rules, s, initial)
    ensures var g := ExportGenesis(s);
            && HeightsOk(g, initial) && AddressesOk(rules, g) && forall i :: 0 <= i < |g.slots| ==>
                g.slots[i].slotId < g.nextSlotId
  {
    hide SlotsOk, ValidParams, Unique, SlotOk, FreshStore, FreshRows, SlotList, WeightList, ReservedList,
      ValidatorList, PolicyList, NominationList, SlotIds;
    FreshParts(rules, s, initial);
    ExportedSlots(rules, s, initial);
    ExportedFirsts(rules, s, initial);
    ExportedNominations(rules, s);
    var g := ExportGenesis(s);
    forall i | 0 <= i < |g.slots| ensures FreshSlotRow(rules, s, g.slots[i], initial) {}
  }

  lemma FreshParts(rules: Rules, s: Store, initial: int64)
    requires FreshStore(rules, s, initial)
    ensures initial >= 1 && ValidParams(rules, s.params) && s.nextSlotId >= 1 && s.rotations == map[]
    ensures s.params.minActive <= |s.active| <= s.params.maxActive
    ensures forall role :: role in s.nominations ==> FreshNomination(rules, s, role)
    ensures forall a :: a in s.reserved ==> s.reserved[a].address == a
    ensures forall id: uint64 :: id in s.rewardWeights ==> s.rewardWeights[id].slotId == id && id in s.slots
    ensures OperatorIndex(s.slots, s.byOperator)
  {
    hide FreshSlot, FreshPolicy, FreshNomination, ValidParams, OperatorIndex, ActiveIndex, KeysDistinctIn;
  }

  lemma NoRotations(s: Store)
    requires s.rotations == map[]
    ensures RotationList(s.rotations) == [] && Collect(RotationPairs(RotationList(s.rotations))) == map[]
  {
    NoRows<uint64, Rotation>();
    assert RotationPairs([]) == [];
  }

  /** Importing the export writes the rows that were there, all but the consensus index for certain. */
  lemma ReimportedRows(rules: Rules, s: Store, initial: int64)
    requires FreshStore(rules, s, initial) && AppliedActive(rules, s)
    ensures var t := Rows(rules, ExportGenesis(s));
            && t == s.(byConsensus := t.byConsensus, lastApplied := map[])
            && (ConsensusIndex(rules, s.slots, map[], s.byConsensus) ==> t.byConsensus == s.byConsensus)
  {
    hide SlotsOk, Unique, SlotOk, FreshStore, FreshRows, ActiveAddressesDistinct, ValidParams, LastAppliedOk,
      NominationsOk, AppliedActive, OperatorIndex, ConsensusIndex, ActiveSlots, PoliciesOf, StartsOf, Collect,
      ActiveIds, HeightsOk, AddressesOk, SlotList, WeightList, ReservedList, ValidatorList, PolicyList,
      NominationList, RotationList, DistinctAddresses, Admissible;
    var g := ExportGenesis(s);
    FreshExport(rules, s, initial);
    AdmissibleParts(rules, g);
    FreshIds(rules, s, initial);
    FreshParts(rules, s, initial);
    SlotListRows(s.slots);
    ExportedNominations(rules, s);
    ExportedReserved(s.reserved);
    ExportedWeights(s.rewardWeights);
    ExportedActive(rules, s, initial);
    ExportedHistories(rules, s, initial);
    RowsOperators(rules, g, s.params.votingPower);
    var t := Rows(rules, g);
    OperatorIndexUnique(s.slots, t.byOperator, s.byOperator);
    NoRotations(s);
    if ConsensusIndex(rules, s.slots, map[], s.byConsensus) {
      IndexedAddressesDiffer(rules, s, initial);
      NoRotationsAdmitted(rules, g);
      RowsConsensus(rules, g, s.params.votingPower);
      ConsensusIndexUnique(rules, s.slots, t.byConsensus, s.byConsensus);
    }
  }

  lemma NoRotationsAdmitted(rules: Rules, g: GenesisState)
    requires Admissible(rules, g)
    ensures g.rotations == []
  {
  }

  lemma IndexedAddressesDiffer(rules: Rules, s: Store, initial: int64)
    requires FreshStore(rules, s, initial) && ConsensusIndex(rules, s.slots, map[], s.byConsensus)
    ensures DistinctAddresses(rules, SlotList(s.slots))
  {
    hide FreshStore, Address, SlotList, ConsensusIndex;
    var slots := SlotList(s.slots);
    forall i, j | 0 <= i < j < |slots| ensures Address(rules, slots[i].key) != Address(rules, slots[j].key) {
      TwoSlots(rules, s, initial, i, j);
      OneAddressEach(rules, s.slots, s.byConsensus, slots[i].slotId, slots[j].slotId);
    }
  }

  lemma ImportFresh(rules: Rules, g: GenesisState, contextHeight: int64)
    requires InitGenesis(rules, g, contextHeight).Success?
    ensures var s := InitGenesis(rules, g, contextHeight).value.0;
            var initial := EffectiveInitialHeight(contextHeight).value;
            FreshStore(rules, s, initial) && AppliedActive(rules, s)
  {
    hide Admissible, HeightsOk, AddressesOk, ActiveAddressesDistinct, Rows, Updates, KeyedByAddress, IsActiveSet,
      ListsActive, InitGenesis, FreshStore;
    ImportSucceeds(rules, g, contextHeight);
    AdmissibleParts(rules, g);
    RowsFresh(rules, g, EffectiveInitialHeight(contextHeight).value);
    FreshIgnoresApplied(rules, Rows(rules, g), EffectiveInitialHeight(contextHeight).value,
                        InitGenesis(rules, g, contextHeight).value.0.lastApplied);
    SameSlotsApplied(rules, Rows(rules, g), InitGenesis(rules, g, contextHeight).value.0);
  }

  lemma FreshIgnoresApplied(rules: Rules, s: Store, initial: int64, applied: map<string, Validator>)
    requires FreshStore(rules, s, initial)
    ensures FreshStore(rules, s.(lastApplied := applied), initial)
  {
    hide SlotOk, NominationOk, FreshPolicy, ValidParams, ActiveIndex, OperatorIndex, KeysDistinctIn;
    var t := s.(lastApplied := applied);
    forall id: uint64 | id in t.slots ensures FreshSlot(rules, t, id, initial) {
      assert FreshSlot(rules, s, id, initial);
    }
    forall role | role in t.nominations ensures FreshNomination(rules, t, role) {
      assert FreshNomination(rules, s, role);
    }
  }

  /**
   What a successful import exports is itself importable at the same height, and importing
   it rebuilds every collection but the consensus index. With distinct addresses that one
   is rebuilt too: the second import is the first, validator updates included.
   */
  lemma ExportRoundTrip(rules: Rules, g: GenesisState, contextHeight: int64)
    requires InitGenesis(rules, g, contextHeight).Success?
    ensures var (s, us) := InitGenesis(rules, g, contextHeight).value;
            var again := InitGenesis(rules, ExportGenesis(s), contextHeight);
            && Importable(rules, ExportGenesis(s), contextHeight)
            && again.Success? && again.value.1 == us
            && again.value.0 == s.(byConsensus := again.value.0.byConsensus)
            && (DistinctAddresses(rules, g.slots) ==> again == Success((s, us)))
  {
    hide Admissible, HeightsOk, AddressesOk, ActiveAddressesDistinct, Rows, Updates, FreshStore, AppliedActive,
      ExportGenesis, DiffAndPersist, Consistent, ConsensusIndex, DistinctAddresses, KeyedByAddress, IsActiveSet,
      ListsActive, EffectiveInitialHeight;
    var (s, us) := InitGenesis(rules, g, contextHeight).value;
    var initial := EffectiveInitialHeight(contextHeight).value;
    ImportSucceeds(rules, g, contextHeight);
    ImportFresh(rules, g, contextHeight);
    FreshExport(rules, s, initial);
    AdmissibleParts(rules, g);
    AdmissibleParts(rules, ExportGenesis(s));
    ReimportedRows(rules, s, initial);
    ImportSucceeds(rules, ExportGenesis(s), contextHeight);
    NothingAppliedYet(rules, g);
    NothingAppliedYet(rules, ExportGenesis(s));
    if DistinctAddresses(rules, g.slots) { ImportedIndex(rules, g, initial); }
    DiffIgnoresConsensus(rules, Rows(rules, g), Rows(rules, ExportGenesis(s)));
  }

  lemma NothingAppliedYet(rules: Rules, g: GenesisState)
    requires g.params.Some?
    ensures Rows(rules, g).lastApplied == map[]
  {
  }

  /** The diff reads only the slots, the ACTIVE index and the last applied set. */
  lemma DiffIgnoresConsensus(rules: Rules, s: Store, t: Store)
    requires t == s.(byConsensus := t.byConsensus)
    ensures DiffAndPersist(rules, s).Success? <==> DiffAndPersist(rules, t).Success?
    ensures DiffAndPersist(rules, s).Success? ==>
              && DiffAndPersist(rules, t).value.1 == DiffAndPersist(rules, s).value.1
              && DiffAndPersist(rules, t).value.0 == DiffAndPersist(rules, s).value.0.(byConsensus := t.byConsensus)
  {
  }

  lemma ImportedIndex(rules: Rules, g: GenesisState, initial: int64)
    requires Admissible(rules, g) && DistinctAddresses(rules, g.slots)
    ensures ConsensusIndex(rules, Rows(rules, g).slots, map[], Rows(rules, g).byConsensus)
  {
    hide SlotsOk, LastAppliedOk, NominationsOk, ValidParams, ConsensusIndex, DistinctAddresses;
    RowsConsensus(rules, g, g.params.value.votingPower);
  }
}
