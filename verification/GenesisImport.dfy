/**
 x/coreslot/keeper/genesis.go: the store an admitted genesis document becomes, and the
 chain that starts from it.
 */
module GenesisImport {
  import opened Machine
  import opened Ordering
  import opened CoreSlotTypes
  import opened Handlers
  import opened Invariant
  import opened PolicyHistory
  import opened Genesis
  import opened Runs
  import opened EndBlock
  import opened BlockEnd

  // ----- Preflight -----

  /** The first block's height: the SDK runs genesis at height 0 for a chain starting at 1. */
  function EffectiveInitialHeight(height: int64): Option<int64> {
    if height < 0 then None else if height == 0 then Some(1) else Some(height)
  }

  predicate HeightsOk(g: GenesisState, initial: int64) {
    && initial >= 1
    && (forall i :: 0 <= i < |g.slots| && g.slots[i].status == Active ==>
          g.slots[i].activatedHeight == initial && g.slots[i].activationEffectiveHeight == initial)
    && (forall j :: 0 <= j < |g.policies| ==> g.policies[j].validFrom == initial)
  }

  predicate AddressesOk(rules: Rules, g: GenesisState) {
    && (forall i :: 0 <= i < |g.slots| ==>
          && rules.account(g.slots[i].operator) && rules.economic(g.slots[i].payout)
          && rules.economic(g.slots[i].settlement))
    && (forall i :: 0 <= i < |g.nominations| ==> rules.economic(g.nominations[i].transfer.nominee))
  }

  // ----- The rows -----

  function SlotRow(slot: CoreSlot): (uint64, CoreSlot) { (slot.slotId, slot) }
  function OperatorRow(slot: CoreSlot): (string, uint64) { (slot.operator, slot.slotId) }
  function ConsensusRow(rules: Rules, slot: CoreSlot): (string, uint64) { (Address(rules, slot.key), slot.slotId) }

  function SlotPairs(slots: seq<CoreSlot>): seq<(uint64, CoreSlot)> {
    seq(|slots|, i requires 0 <= i < |slots| => SlotRow(slots[i]))
  }
  function OperatorPairs(slots: seq<CoreSlot>): seq<(string, uint64)> {
    seq(|slots|, i requires 0 <= i < |slots| => OperatorRow(slots[i]))
  }
  function ConsensusPairs(rules: Rules, slots: seq<CoreSlot>): seq<(string, uint64)> {
    seq(|slots|, i requires 0 <= i < |slots| => ConsensusRow(rules, slots[i]))
  }
  function RotationPairs(rs: seq<Rotation>): seq<(uint64, Rotation)> {
    seq(|rs|, i requires 0 <= i < |rs| => (rs[i].slotId, rs[i]))
  }
  function ReservedPairs(rs: seq<Reservation>): seq<(string, Reservation)> {
    seq(|rs|, i requires 0 <= i < |rs| => (rs[i].address, rs[i]))
  }
  function WeightPairs(ws: seq<RewardWeight>): seq<(uint64, RewardWeight)> {
    seq(|ws|, i requires 0 <= i < |ws| => (ws[i].slotId, ws[i]))
  }
  function NominationPairs(es: seq<Entry>): seq<(Role, Transfer)> {
    seq(|es|, i requires 0 <= i < |es| => (es[i].role, es[i].transfer))
  }

  function ActiveIds(slots: seq<CoreSlot>): set<uint64> {
    set i | 0 <= i < |slots| && slots[i].status == Active :: slots[i].slotId
  }

  /** The history and index that writing the versions one after the other leaves. */
  function PoliciesOf(ps: seq<Policy>): Policies {
    if ps == [] then map[]
    else
      var p := ps[|ps| - 1];
      var m := PoliciesOf(ps[..|ps| - 1]);
      m[p.slotId := Inner(m, p.slotId)[p.version := p]]
  }

  function StartsOf(ps: seq<Policy>): Starts {
    if ps == [] then map[]
    else
      var p := ps[|ps| - 1];
      var m := StartsOf(ps[..|ps| - 1]);
      m[p.slotId := Inner(m, p.slotId)[p.validFrom := p.version]]
  }

  /** Everything InitGenesis writes before it hands the validators over. */
  function Rows(rules: Rules, g: GenesisState): Store
    requires g.params.Some?
  {
    Store(g.params.value, Collect(SlotPairs(g.slots)), Collect(OperatorPairs(g.slots)),
          Collect(ConsensusPairs(rules, g.slots)), Collect(ReservedPairs(g.reserved)),
          Collect(RotationPairs(g.rotations)), map[], Collect(WeightPairs(g.rewardWeights)), g.nextSlotId,
          Collect(NominationPairs(g.nominations)), PoliciesOf(g.policies), ActiveIds(g.slots), StartsOf(g.policies))
  }

  /** assertGenesisValidatorConsistency: slots, index, last applied set and updates name the same slots. */
  ghost predicate Consistent(s: Store, updates: nat) {
    && ActiveIndex(s.slots, s.active)
    && (set a | a in s.lastApplied :: s.lastApplied[a].slotId) == s.active
    && |s.lastApplied| == |s.active|
    && updates == |s.active|
  }

  ghost function InitGenesis(rules: Rules, g: GenesisState, contextHeight: int64): Result<(Store, seq<Update>)> {
    if !Admissible(rules, g) then Failure(InvalidGenesis)
    else
      var initial := EffectiveInitialHeight(contextHeight);
      if initial.None? || !HeightsOk(g, initial.value) then Failure(InvalidGenesis)
      else if !AddressesOk(rules, g) then Failure(InvalidAddress)
      else
        var (s, us) :- EndBlock.DiffAndPersist(rules, Rows(rules, g));
        if !Consistent(s, |us|) then Failure(InvalidGenesis) else Success((s, us))
  }

  /** What runtime compares and genesis does not: no two slots' keys have one consensus address. */
  ghost predicate DistinctAddresses(rules: Rules, slots: seq<CoreSlot>) {
    forall i, j :: 0 <= i < j < |slots| ==> Address(rules, slots[i].key) != Address(rules, slots[j].key)
  }

  // ----- The rows of an admitted document -----

  /** A row list with unique keys becomes the map of exactly its rows. */
  lemma CollectUnique<K(!new), V(!new)>(rows: seq<(K, V)>, i: nat)
    requires forall i, j :: 0 <= i < j < |rows| ==> rows[i].0 != rows[j].0
    requires i < |rows|
    ensures rows[i].0 in Collect(rows) && Collect(rows)[rows[i].0] == rows[i].1
  {
    var m := Collect(rows);
    assert rows[i].0 in m;
    var j :| 0 <= j < |rows| && rows[j] == (rows[i].0, m[rows[i].0]);
  }

  /** Position `i` of the document, as the store's slot collection has it. */
  lemma SlotStored(slots: seq<CoreSlot>, i: nat)
    requires Unique(SlotIds(slots)) && i < |slots|
    ensures var m := Collect(SlotPairs(slots)); slots[i].slotId in m && m[slots[i].slotId] == slots[i]
  {
    forall a, b | 0 <= a < b < |slots| ensures SlotPairs(slots)[a].0 != SlotPairs(slots)[b].0 {
      assert SlotIds(slots)[a] != SlotIds(slots)[b];
    }
    CollectUnique(SlotPairs(slots), i);
  }

  /** A stored slot's position in the document. */
  lemma SlotPosition(slots: seq<CoreSlot>, id: uint64) returns (i: nat)
    requires id in Collect(SlotPairs(slots))
    ensures i < |slots| && slots[i].slotId == id && slots[i] == Collect(SlotPairs(slots))[id]
  {
    var m := Collect(SlotPairs(slots));
    var j :| 0 <= j < |slots| && SlotPairs(slots)[j] == (id, m[id]);
    i := j;
  }

  lemma OperatorStored(slots: seq<CoreSlot>, i: nat)
    requires Unique(Operators(slots)) && i < |slots|
    ensures var m := Collect(OperatorPairs(slots)); slots[i].operator in m && m[slots[i].operator] == slots[i].slotId
  {
    forall a, b | 0 <= a < b < |slots| ensures OperatorPairs(slots)[a].0 != OperatorPairs(slots)[b].0 {
      assert Operators(slots)[a] != Operators(slots)[b];
    }
    CollectUnique(OperatorPairs(slots), i);
  }

  lemma ConsensusStored(rules: Rules, slots: seq<CoreSlot>, i: nat)
    requires DistinctAddresses(rules, slots) && i < |slots|
    ensures var m := Collect(ConsensusPairs(rules, slots)); var a := Address(rules, slots[i].key);
            a in m && m[a] == slots[i].slotId
  {
    CollectUnique(ConsensusPairs(rules, slots), i);
  }

  lemma RowsActive(rules: Rules, g: GenesisState)
    requires g.params.Some? && Unique(SlotIds(g.slots))
    ensures ActiveIndex(Rows(rules, g).slots, ActiveIds(g.slots))
  {
    var m := Collect(SlotPairs(g.slots));
    forall id: int ensures id in ActiveIds(g.slots) <==> id in m && m[id].status == Active {
      if id in ActiveIds(g.slots) {
        var i :| 0 <= i < |g.slots| && g.slots[i].status == Active && g.slots[i].slotId == id;
        SlotStored(g.slots, i);
      }
      if id in m {
        var i := SlotPosition(g.slots, id);
      }
    }
  }

  lemma RowsOperators(rules: Rules, g: GenesisState, votingPower: int64)
    requires g.params.Some? && SlotsOk(rules, votingPower, g.slots, g.policies)
    ensures OperatorIndex(Rows(rules, g).slots, Rows(rules, g).byOperator)
  {
    hide SlotsOk, SlotOk;
    SlotsOkParts(rules, votingPower, g.slots, g.policies);
    var m, ops := Collect(SlotPairs(g.slots)), Collect(OperatorPairs(g.slots));
    forall op | op in ops ensures ops[op] in m && m[ops[op]].status != Removed && m[ops[op]].operator == op {
      var i :| 0 <= i < |g.slots| && OperatorPairs(g.slots)[i] == (op, ops[op]);
      SlotStored(g.slots, i);
    }
    forall id: int | id in m ensures m[id].operator in ops && ops[m[id].operator] == id {
      var i := SlotPosition(g.slots, id);
      OperatorStored(g.slots, i);
    }
  }

  lemma SlotsOkParts(rules: Rules, votingPower: int64, slots: seq<CoreSlot>, policies: seq<Policy>)
    requires SlotsOk(rules, votingPower, slots, policies)
    ensures Unique(SlotIds(slots)) && Unique(Operators(slots))
    ensures forall i :: 0 <= i < |slots| ==> slots[i].status != Removed && SlotOk(rules, votingPower, slots[i])
                                             && HasFirstPolicy(policies, slots[i].slotId)
  {
  }

  lemma RowsConsensus(rules: Rules, g: GenesisState, votingPower: int64)
    requires g.params.Some? && SlotsOk(rules, votingPower, g.slots, g.policies) && g.rotations == []
    ensures ConsensusIndex(rules, Rows(rules, g).slots, map[], Rows(rules, g).byConsensus) <==>
            DistinctAddresses(rules, g.slots)
  {
    hide SlotsOk, SlotOk, Address;
    SlotsOkParts(rules, votingPower, g.slots, g.policies);
    var m, keys := Collect(SlotPairs(g.slots)), Collect(ConsensusPairs(rules, g.slots));
    if DistinctAddresses(rules, g.slots) {
      forall a | a in keys ensures Owns(rules, m, keys[a], a) {
        var i :| 0 <= i < |g.slots| && ConsensusPairs(rules, g.slots)[i] == (a, keys[a]);
        SlotStored(g.slots, i);
      }
      forall id: int | id in m ensures Address(rules, m[id].key) in keys && keys[Address(rules, m[id].key)] == id {
        var i := SlotPosition(g.slots, id);
        ConsensusStored(rules, g.slots, i);
      }
    }
    if ConsensusIndex(rules, m, map[], keys) {
      forall i, j | 0 <= i < j < |g.slots| ensures Address(rules, g.slots[i].key) != Address(rules, g.slots[j].key) {
        SlotStored(g.slots, i);
        SlotStored(g.slots, j);
        assert SlotIds(g.slots)[i] != SlotIds(g.slots)[j];
      }
    }
  }

  lemma NominationStored(es: seq<Entry>, e: Entry)
    requires Unique(Roles(es))
    ensures var m := Collect(NominationPairs(es)); e in es <==> e.role in m && m[e.role] == e.transfer
  {
    hide Collect;
    var rows := NominationPairs(es);
    forall i, j | 0 <= i < j < |rows| ensures rows[i].0 != rows[j].0 { assert Roles(es)[i] != Roles(es)[j]; }
    if e in es {
      var i :| 0 <= i < |es| && es[i] == e;
      CollectUnique(rows, i);
    }
    if e.role in Collect(rows) {
      var i :| 0 <= i < |rows| && rows[i] == (e.role, Collect(rows)[e.role]);
      assert es[i] == Entry(rows[i].0, rows[i].1);
    }
  }

  lemma ReservationStored(rs: seq<Reservation>, row: Reservation)
    requires Unique(ReservedKeys(rs))
    ensures var m := Collect(ReservedPairs(rs)); row in rs <==> row.address in m && m[row.address] == row
  {
    hide Collect;
    var rows := ReservedPairs(rs);
    forall i, j | 0 <= i < j < |rows| ensures rows[i].0 != rows[j].0 {
      assert ReservedKeys(rs)[i] != ReservedKeys(rs)[j];
    }
    if row in rs {
      var i :| 0 <= i < |rs| && rs[i] == row;
      CollectUnique(rows, i);
    }
    if row.address in Collect(rows) {
      var i :| 0 <= i < |rows| && rows[i] == (row.address, Collect(rows)[row.address]);
      assert rs[i] == rows[i].1;
    }
  }

  /** What an import stores beside slots and histories is the document's own, each row under its key. */
  lemma OthersStored(rules: Rules, g: GenesisState, e: Entry, row: Reservation)
    requires Admissible(rules, g)
    ensures g.params.Some?
    ensures var s := Rows(rules, g);
            && s.params == g.params.value && s.nextSlotId == g.nextSlotId && s.rotations == map[]
            && (e in g.nominations <==> e.role in s.nominations && s.nominations[e.role] == e.transfer)
            && (row in g.reserved <==> row.address in s.reserved && s.reserved[row.address] == row)
  {
    hide ValidParams, LastAppliedOk, SlotsOk, Collect, Unique, NominationPairs, ReservedPairs, PoliciesOf, StartsOf,
      SlotPairs, OperatorPairs, ConsensusPairs, WeightPairs, ActiveIds, SlotIds, PolicyIds;
    AdmissibleParts(rules, g);
    NoRows<uint64, Rotation>();
    assert RotationPairs(g.rotations) == [];
    NominationStored(g.nominations, e);
    ReservationStored(g.reserved, row);
  }

  /** Of several weights for one slot the last is stored. */
  lemma LastWeightStored(rules: Rules, g: GenesisState, i: nat)
    requires g.params.Some? && i < |g.rewardWeights|
    requires forall j :: i < j < |g.rewardWeights| ==> g.rewardWeights[j].slotId != g.rewardWeights[i].slotId
    ensures var w := g.rewardWeights[i]; var s := Rows(rules, g);
            w.slotId in s.rewardWeights && s.rewardWeights[w.slotId] == w
  {
    CollectLast(WeightPairs(g.rewardWeights), i);
  }

  lemma {:induction false} CollectLast<K(!new), V(!new)>(rows: seq<(K, V)>, i: nat)
    requires i < |rows| && forall j :: i < j < |rows| ==> rows[j].0 != rows[i].0
    ensures rows[i].0 in Collect(rows) && Collect(rows)[rows[i].0] == rows[i].1
    decreases |rows|
  {
    if i < |rows| - 1 { CollectLast(rows[..|rows| - 1], i); }
  }

  /** One version per slot: each slot's rows are the map of its one row. */
  lemma {:induction false} PoliciesStored(ps: seq<Policy>, id: uint64)
    requires Unique(PolicyIds(ps))
    ensures id in PoliciesOf(ps) <==> id in PolicyIds(ps)
    ensures id in StartsOf(ps) <==> id in PolicyIds(ps)
    ensures forall j :: 0 <= j < |ps| && ps[j].slotId == id ==>
              Inner(PoliciesOf(ps), id) == map[ps[j].version := ps[j]]
              && Inner(StartsOf(ps), id) == map[ps[j].validFrom := ps[j].version]
    decreases |ps|
  {
    if ps != [] {
      var n := |ps| - 1;
      var front := ps[..n];
      assert PolicyIds(ps) == PolicyIds(front) + [ps[n].slotId];
      assert forall i, j :: 0 <= i < j < n ==>
          PolicyIds(ps)[i] == PolicyIds(front)[i] && PolicyIds(ps)[j] == PolicyIds(front)[j];
      PoliciesStored(front, id);
      if ps[n].slotId == id {
        forall j | 0 <= j < n ensures PolicyIds(front)[j] != id { assert PolicyIds(ps)[j] != PolicyIds(ps)[n]; }
      }
      forall j | 0 <= j < |ps| && ps[j].slotId == id
        ensures Inner(PoliciesOf(ps), id) == map[ps[j].version := ps[j]]
        ensures Inner(StartsOf(ps), id) == map[ps[j].validFrom := ps[j].version]
      {
        if j < n { assert front[j] == ps[j] && PolicyIds(ps)[j] != PolicyIds(ps)[n]; }
      }
    }
  }

  /** The ids with a first version are exactly the slots'. */
  lemma HistoryKeys(rules: Rules, g: GenesisState, id: uint64)
    requires Admissible(rules, g)
    ensures id in PolicyIds(g.policies) <==> id in Collect(SlotPairs(g.slots))
  {
    hide SlotsOk, NominationsOk, LastAppliedOk, ValidParams, SlotOk, Collect, Unique;
    SlotsOkParts(rules, g.params.value.votingPower, g.slots, g.policies);
    if id in Collect(SlotPairs(g.slots)) {
      var i := SlotPosition(g.slots, id);
      var j :| 0 <= j < |g.policies| && g.policies[j].slotId == id;
      assert PolicyIds(g.policies)[j] == id;
    }
    if id in PolicyIds(g.policies) {
      var j :| 0 <= j < |g.policies| && PolicyIds(g.policies)[j] == id;
      assert g.policies[j].slotId == id;
      var i :| 0 <= i < |g.slots| && SlotIds(g.slots)[i] == id;
      SlotStored(g.slots, i);
    }
  }

  lemma OneHistory(rules: Rules, g: GenesisState, initial: int64, id: uint64)
    requires Admissible(rules, g) && HeightsOk(g, initial) && id in Collect(SlotPairs(g.slots))
    ensures id in PoliciesOf(g.policies) && id in StartsOf(g.policies)
    ensures HistoryOk(PoliciesOf(g.policies)[id], StartsOf(g.policies)[id], Collect(SlotPairs(g.slots))[id], initial)
  {
    hide SlotsOk, NominationsOk, LastAppliedOk, ValidParams, SlotOk, Collect, HistoryOk, PoliciesOf, StartsOf;
    SlotsOkParts(rules, g.params.value.votingPower, g.slots, g.policies);
    var slot := Collect(SlotPairs(g.slots))[id];
    var i := SlotPosition(g.slots, id);
    SlotVersions(rules, g.params.value.votingPower, slot);
    var j :| 0 <= j < |g.policies| && g.policies[j].slotId == id && FirstPolicyOk(g.policies[j]);
    assert PolicyIds(g.policies)[j] == id;
    PoliciesStored(g.policies, id);
    NewHistory(g.policies[j], slot, initial);
  }

  lemma RowsHistories(rules: Rules, g: GenesisState, initial: int64)
    requires Admissible(rules, g) && HeightsOk(g, initial)
    ensures Histories(Rows(rules, g).slots, Rows(rules, g).policies, Rows(rules, g).starts, initial)
  {
    hide SlotsOk, NominationsOk, LastAppliedOk, ValidParams, HeightsOk, Collect, PoliciesOf, StartsOf, HistoryOk,
      SlotPairs, PolicyIds, Unique;
    var m, policies, starts := Collect(SlotPairs(g.slots)), PoliciesOf(g.policies), StartsOf(g.policies);
    forall id: uint64 ensures (id in policies <==> id in m) && (id in starts <==> id in m) {
      HistoryKeys(rules, g, id);
      PoliciesStored(g.policies, id);
    }
    forall id: int | id in m ensures HistoryOk(policies[id], starts[id], m[id], initial) {
      OneHistory(rules, g, initial, id);
    }
    assert policies.Keys == m.Keys && starts.Keys == m.Keys;
  }

  lemma SlotVersions(rules: Rules, votingPower: int64, slot: CoreSlot)
    requires SlotOk(rules, votingPower, slot)
    ensures slot.policyVersion == 1 && slot.lastPolicyUpdate == 0
  {
  }

  lemma {:induction false} ActiveCounted(slots: seq<CoreSlot>)
    requires Unique(SlotIds(slots))
    ensures |ActiveIds(slots)| == ActiveSlots(slots)
  {
    hide ActiveIds, SlotIds;
    if slots == [] {
      NoneActive();
    } else {
      LastActive(slots);
      ActiveCounted(slots[..|slots| - 1]);
    }
  }

  lemma NoneActive()
    ensures ActiveIds([]) == {}
  {
  }

  /** The last slot adds its own id to the ACTIVE ones, if it is ACTIVE. */
  lemma LastActive(slots: seq<CoreSlot>)
    requires slots != [] && Unique(SlotIds(slots))
    ensures var front, last := slots[..|slots| - 1], slots[|slots| - 1];
            && Unique(SlotIds(front))
            && last.slotId !in ActiveIds(front)
            && ActiveIds(slots) == ActiveIds(front) + if last.status == Active then {last.slotId} else {}
  {
    var n := |slots| - 1;
    var front := slots[..n];
    assert forall i :: 0 <= i < n ==> SlotIds(front)[i] == SlotIds(slots)[i];
    forall i | 0 <= i < n ensures front[i].slotId != slots[n].slotId {
      assert SlotIds(slots)[i] != SlotIds(slots)[n];
    }
    AddsLast(front, slots[n]);
    assert front + [slots[n]] == slots;
  }

  lemma AddsLast(front: seq<CoreSlot>, last: CoreSlot)
    ensures ActiveIds(front + [last]) == ActiveIds(front) + if last.status == Active then {last.slotId} else {}
  {
    var slots := front + [last];
    assert slots[|front|] == last;
    forall i | 0 <= i < |front| ensures slots[i] == front[i] {}
  }

  lemma RowsNominations(rules: Rules, g: GenesisState)
    requires g.params.Some? && NominationsOk(rules, g.params.value, g.nominations)
    ensures Nominations(g.params.value, Collect(NominationPairs(g.nominations)))
  {
    var m := Collect(NominationPairs(g.nominations));
    forall role | role in m ensures role != NoRole && m[role].nominee != CurrentHolder(g.params.value, role) {
      var i :| 0 <= i < |g.nominations| && NominationPairs(g.nominations)[i] == (role, m[role]);
      assert NominationOk(rules, g.params.value, g.nominations[i]);
    }
  }

  lemma RowsSlotRows(rules: Rules, g: GenesisState)
    requires Admissible(rules, g)
    ensures SlotRows(rules, Rows(rules, g).slots, g.nextSlotId, g.params.value.votingPower)
  {
    hide SlotsOk, NominationsOk, LastAppliedOk, ValidParams;
    SlotsOkParts(rules, g.params.value.votingPower, g.slots, g.policies);
    var m := Collect(SlotPairs(g.slots));
    forall id: int | id in m ensures RowOk(rules, m[id], id, g.nextSlotId, g.params.value.votingPower) {
      var i := SlotPosition(g.slots, id);
    }
  }

  lemma ParamsBounds(rules: Rules, p: Params, count: nat)
    requires ValidParams(rules, p) && p.minActive <= count <= p.maxActive
    ensures Bounds(p) && 1 <= count <= HARD_MAX_ACTIVE_CORE_SLOTS && p.votingPower > 0
    ensures count <= MostSlots(p.votingPower)
  {
  }

  /** The parts of the invariant that an admitted document's rows always have. */
  ghost predicate IndexedRows(rules: Rules, s: Store, initial: int64) {
    && initial >= 1
    && SlotRows(rules, s.slots, s.nextSlotId, s.params.votingPower)
    && ActiveIndex(s.slots, s.active)
    && OperatorIndex(s.slots, s.byOperator)
    && s.rotations == map[] && s.lastApplied == map[]
    && Histories(s.slots, s.policies, s.starts, initial)
    && Bounds(s.params)
    && Populated(s.active, s.params.votingPower)
    && Nominations(s.params, s.nominations)
  }

  lemma RowsIndexed(rules: Rules, g: GenesisState, initial: int64)
    requires Admissible(rules, g) && HeightsOk(g, initial)
    ensures IndexedRows(rules, Rows(rules, g), initial)
  {
    hide SlotsOk, NominationsOk, LastAppliedOk, ValidParams, SlotRows, ActiveIndex, OperatorIndex, Histories, Bounds,
      MostSlots, Nominations, ActiveIds, Collect, PoliciesOf, StartsOf, Unique;
    var votingPower := g.params.value.votingPower;
    AdmissibleParts(rules, g);
    RowsSlotRows(rules, g);
    RowsActive(rules, g);
    RowsOperators(rules, g, votingPower);
    RowsHistories(rules, g, initial);
    RowsNominations(rules, g);
    ActiveCounted(g.slots);
    ParamsBounds(rules, g.params.value, |ActiveIds(g.slots)|);
    NoRows<uint64, Rotation>();
    assert RotationPairs(g.rotations) == [];
  }

  lemma NoRows<K(!new), V(!new)>()
    ensures Collect<K, V>([]) == map[]
  {
  }

  lemma IndexedRowsInvariant(rules: Rules, s: Store, initial: int64)
    requires IndexedRows(rules, s, initial)
    ensures Inv(rules, s, initial) <==> ConsensusIndex(rules, s.slots, map[], s.byConsensus)
  {
    hide SlotRows, ActiveIndex, OperatorIndex, ConsensusIndex, Histories, Bounds, Populated, Nominations;
  }

  /** An admitted document's rows satisfy the store invariant exactly when its addresses are distinct. */
  lemma RowsInvariant(rules: Rules, g: GenesisState, initial: int64)
    requires Admissible(rules, g) && HeightsOk(g, initial)
    ensures Inv(rules, Rows(rules, g), initial) <==> DistinctAddresses(rules, g.slots)
  {
    hide Inv, Rows, IndexedRows, ConsensusIndex, DistinctAddresses, SlotsOk, HeightsOk;
    RowsIndexed(rules, g, initial);
    IndexedRowsInvariant(rules, Rows(rules, g), initial);
    RowsConsensus(rules, g, g.params.value.votingPower);
  }

  lemma AdmissibleParts(rules: Rules, g: GenesisState)
    requires Admissible(rules, g)
    ensures g.params.Some? && Unique(SlotIds(g.slots)) && NominationsOk(rules, g.params.value, g.nominations)
    ensures ValidParams(rules, g.params.value) && SlotsOk(rules, g.params.value.votingPower, g.slots, g.policies)
  {
  }

  // ----- Handing the validators over -----

  /** No two ACTIVE slots of the store have one consensus address. */
  ghost predicate ActiveDistinct(rules: Rules, s: Store) {
    forall x: uint64, y: uint64 :: x in s.active && y in s.active && x in s.slots && y in s.slots && x != y ==>
      Address(rules, s.slots[x].key) != Address(rules, s.slots[y].key)
  }

  /** `active` is the store's ACTIVE slots in slot order. */
  ghost predicate Loaded(rules: Rules, s: Store, active: seq<CoreSlot>) {
    && |active| == |s.active|
    && (forall i :: 0 <= i < |active| ==>
          ActiveRow(rules, s, active[i].slotId, active[i]) && active[i].slotId in s.active)
    && (forall i, j :: 0 <= i < j < |active| ==> active[i].slotId < active[j].slotId)
    && (forall id :: id in s.active ==> exists i :: 0 <= i < |active| && active[i].slotId == id)
  }

  lemma IndexedIsActive(rules: Rules, s: Store, initial: int64, id: uint64)
    requires IndexedRows(rules, s, initial) && id in s.active
    ensures id in s.slots && ActiveRow(rules, s, id, s.slots[id])
  {
    hide OperatorIndex, Histories, Bounds, Populated, Nominations;
  }

  lemma RowsLoad(rules: Rules, s: Store, initial: int64) returns (active: seq<CoreSlot>)
    requires IndexedRows(rules, s, initial)
    ensures LoadActive(s.slots, AscendingIds(s.active)) == Success(active) && Loaded(rules, s, active)
  {
    hide IndexedRows, RowOk, ActiveRow, AscendingIds;
    var ids := AscendingIds(s.active);
    AscendingIdsCount(s.active);
    forall i | 0 <= i < |ids|
      ensures ids[i] in s.active && ids[i] in s.slots && ActiveRow(rules, s, ids[i], s.slots[ids[i]])
      ensures s.slots[ids[i]].status == Active
    {
      assert ids[i] in ids;
      IndexedIsActive(rules, s, initial, ids[i]);
      RowNamesItself(rules, s, ids[i]);
    }
    LoadSucceeds(s.slots, ids);
    active := LoadActive(s.slots, ids).value;
    forall i | 0 <= i < |active|
      ensures active[i] == s.slots[ids[i]] && active[i].slotId == ids[i]
      ensures ActiveRow(rules, s, active[i].slotId, active[i])
    {
      RowNamesItself(rules, s, ids[i]);
    }
    forall id | id in s.active ensures exists i :: 0 <= i < |active| && active[i].slotId == id {
      assert id in ids;
      var i :| 0 <= i < |ids| && ids[i] == id;
      assert active[i].slotId == id;
    }
  }

  lemma RowNamesItself(rules: Rules, s: Store, id: uint64)
    requires id in s.slots && ActiveRow(rules, s, id, s.slots[id])
    ensures s.slots[id].slotId == id && s.slots[id].status == Active
  {
  }

  /** Distinctness of a list is that of its front, and that its last address is new. */
  lemma DistinctFront(rules: Rules, active: seq<CoreSlot>)
    requires active != []
    requires forall i :: 0 <= i < |active| ==> ConsensusKey(rules, active[i].key).Success?
    ensures Distinct(rules, active) <==>
            Distinct(rules, active[..|active| - 1]) &&
            !BlockEnd.Names(rules, active[..|active| - 1], Address(rules, active[|active| - 1].key))
  {
    hide Address, ConsensusKey;
    var n := |active| - 1;
    var front := active[..n];
    assert forall i :: 0 <= i < n ==> front[i] == active[i];
    if BlockEnd.Names(rules, front, Address(rules, active[n].key)) {
      var i :| 0 <= i < n && Address(rules, front[i].key) == Address(rules, active[n].key);
      assert Address(rules, active[i].key) == Address(rules, active[n].key);
    } else {
      forall i | 0 <= i < n ensures Address(rules, active[i].key) != Address(rules, active[n].key) {
        assert Address(rules, front[i].key) == Address(rules, active[i].key);
      }
    }
  }

  /** The desired set of a slot list exists exactly when its addresses are distinct, one validator per slot. */
  lemma {:induction false} DesiredExists(rules: Rules, active: seq<CoreSlot>)
    requires forall i :: 0 <= i < |active| ==> ConsensusKey(rules, active[i].key).Success?
    ensures Desired(rules, active).Success? <==> Distinct(rules, active)
    ensures Desired(rules, active).Success? ==> |Desired(rules, active).value| == |active|
    decreases |active|
  {
    hide ConsensusKey, Listed;
    if active != [] {
      hide Distinct, BlockEnd.Names;
      var n := |active| - 1;
      var front := active[..n];
      assert forall i :: 0 <= i < n ==> front[i] == active[i];
      DesiredExists(rules, front);
      DistinctFront(rules, active);
      AddressOf(rules, active[n].key);
      if Distinct(rules, front) {
        DesiredSucceeds(rules, front);
        ListedNames(rules, front, Desired(rules, front).value, Address(rules, active[n].key));
      }
    }
  }

  lemma AddressOf(rules: Rules, key: PubKey)
    requires ConsensusKey(rules, key).Success?
    ensures ConsensusKey(rules, key) == Success(Address(rules, key))
  {
  }

  lemma ListedNames(rules: Rules, active: seq<CoreSlot>, m: map<string, Validator>, a: string)
    requires forall i :: 0 <= i < |active| ==> Listed(rules, m, active[i])
    requires a in m ==> BlockEnd.Names(rules, active, a)
    ensures a in m <==> BlockEnd.Names(rules, active, a)
  {
    if BlockEnd.Names(rules, active, a) {
      var i :| 0 <= i < |active| && Address(rules, active[i].key) == a;
      assert Listed(rules, m, active[i]);
    }
  }

  lemma LoadedDistinct(rules: Rules, s: Store, active: seq<CoreSlot>)
    requires Loaded(rules, s, active)
    ensures Distinct(rules, active) <==> ActiveDistinct(rules, s)
  {
    hide Loaded, Address, ConsensusKey;
    LoadedDecode(rules, s, active);
    if Distinct(rules, active) {
      forall x: uint64, y: uint64 | x in s.active && y in s.active && x in s.slots && y in s.slots && x != y
        ensures Address(rules, s.slots[x].key) != Address(rules, s.slots[y].key)
      {
        var i := LoadedSlot(rules, s, active, x);
        var j := LoadedSlot(rules, s, active, y);
        assert i < j || j < i;
      }
    }
    if ActiveDistinct(rules, s) {
      forall i, j | 0 <= i < j < |active| ensures Address(rules, active[i].key) != Address(rules, active[j].key) {
        LoadedRow(rules, s, active, i);
        LoadedRow(rules, s, active, j);
        LoadedApart(rules, s, active, i, j);
      }
    }
  }

  lemma LoadedApart(rules: Rules, s: Store, active: seq<CoreSlot>, i: nat, j: nat)
    requires Loaded(rules, s, active) && i < j < |active|
    ensures active[i].slotId != active[j].slotId && active[i].slotId in s.active && active[j].slotId in s.active
  {
  }

  /** Every ACTIVE slot's validator is there, under its address. */
  ghost predicate ListsActive(rules: Rules, s: Store, applied: map<string, Validator>) {
    forall id: int :: id in s.slots && s.slots[id].status == Active ==> Listed(rules, applied, s.slots[id])
  }

  /** The validators the import applies first: one per ACTIVE slot. */
  lemma FirstDiff(rules: Rules, s: Store, initial: int64)
    requires IndexedRows(rules, s, initial)
    ensures DiffAndPersist(rules, s).Success? <==> ActiveDistinct(rules, s)
    ensures DiffAndPersist(rules, s).Success? ==>
              var (s', us) := DiffAndPersist(rules, s).value;
              && s' == s.(lastApplied := s'.lastApplied)
              && us == Updates(map[], s'.lastApplied)
              && KeyedByAddress(rules, s'.lastApplied)
              && IsActiveSet(rules, s.slots, Powers(s'.lastApplied))
              && ListsActive(rules, s, s'.lastApplied)
              && Consistent(s', |us|)
  {
    hide IndexedRows, Updates, Distinct, ActiveDistinct, KeyedByAddress, IsActiveSet, Consistent, Desired, LoadActive,
      Loaded, ListsActive;
    var active := RowsLoad(rules, s, initial);
    LoadedDistinct(rules, s, active);
    LoadedDecode(rules, s, active);
    DesiredExists(rules, active);
    NothingApplied(rules, s, initial);
    if Distinct(rules, active) {
      var desired := Desired(rules, active).value;
      DesiredSucceeds(rules, active);
      LoadedActiveSet(rules, s, initial, active, desired);
      FirstUpdates(rules, desired);
      LoadedConsistent(rules, s, initial, active, desired);
    }
  }

  lemma NothingApplied(rules: Rules, s: Store, initial: int64)
    requires IndexedRows(rules, s, initial)
    ensures s.lastApplied == map[] && forall desired :: Decodable(rules, s.lastApplied, desired)
  {
    hide SlotRows, ActiveIndex, OperatorIndex, Histories, Bounds, Populated, Nominations;
  }

  lemma LoadedDecode(rules: Rules, s: Store, active: seq<CoreSlot>)
    requires Loaded(rules, s, active)
    ensures forall i :: 0 <= i < |active| ==> ConsensusKey(rules, active[i].key).Success?
  {
    forall i | 0 <= i < |active| ensures ConsensusKey(rules, active[i].key).Success? {
      assert ActiveRow(rules, s, active[i].slotId, active[i]);
    }
  }

  /** From an empty set every desired validator is an update. */
  lemma FirstUpdates(rules: Rules, desired: map<string, Validator>)
    ensures |Updates(map[], desired)| == |desired|
  {
    assert Changed(map[], desired) == desired.Keys;
    AscendingKeysCount(desired.Keys);
  }

  lemma IndexedActive(rules: Rules, s: Store, initial: int64, id: uint64)
    requires IndexedRows(rules, s, initial)
    ensures s.params.votingPower > 0 && (id in s.slots && s.slots[id].status == Active ==> id in s.active)
  {
    hide SlotRows, OperatorIndex, Histories, Bounds, MostSlots, Nominations;
  }

  lemma LoadedSlot(rules: Rules, s: Store, active: seq<CoreSlot>, id: uint64) returns (i: nat)
    requires Loaded(rules, s, active) && id in s.active
    ensures i < |active| && id in s.slots && active[i] == s.slots[id] && active[i].slotId == id
  {
    i :| 0 <= i < |active| && active[i].slotId == id;
    LoadedRow(rules, s, active, i);
  }

  lemma LoadedRow(rules: Rules, s: Store, active: seq<CoreSlot>, i: nat)
    requires Loaded(rules, s, active) && i < |active|
    ensures ActiveRow(rules, s, active[i].slotId, active[i])
    ensures active[i].slotId in s.slots && active[i] == s.slots[active[i].slotId]
  {
    assert ActiveRow(rules, s, active[i].slotId, active[i]);
  }

  lemma LoadedActiveSet(rules: Rules, s: Store, initial: int64, active: seq<CoreSlot>, desired: map<string, Validator>)
    requires IndexedRows(rules, s, initial) && Loaded(rules, s, active)
    requires forall i :: 0 <= i < |active| ==> Listed(rules, desired, active[i])
    requires forall a :: a in desired ==> BlockEnd.Names(rules, active, a)
    ensures KeyedByAddress(rules, desired) && IsActiveSet(rules, s.slots, Powers(desired))
    ensures ListsActive(rules, s, desired)
  {
    hide IndexedRows, Loaded, ActiveRow, Listed, Address, ConsensusKey;
    IndexedActive(rules, s, initial, 0);
    forall a | a in desired
      ensures ConsensusKey(rules, desired[a].key) == Success(a) && desired[a].power > 0
      ensures exists id :: id in s.slots && s.slots[id].status == Active && Address(rules, s.slots[id].key) == a
    {
      var i :| 0 <= i < |active| && Address(rules, active[i].key) == a;
      LoadedRow(rules, s, active, i);
      OneListed(rules, s, active[i], desired);
    }
    forall id: int | id in s.slots && s.slots[id].status == Active
      ensures Address(rules, s.slots[id].key) in desired
      ensures desired[Address(rules, s.slots[id].key)].power == s.slots[id].power
      ensures Listed(rules, desired, s.slots[id])
    {
      IndexedActive(rules, s, initial, id);
      var i := LoadedSlot(rules, s, active, id);
      LoadedRow(rules, s, active, i);
      OneListed(rules, s, active[i], desired);
    }
  }

  /** The slots the desired validators name are the indexed ones. */
  lemma DesiredNames(rules: Rules, s: Store, active: seq<CoreSlot>, desired: map<string, Validator>)
    requires Loaded(rules, s, active)
    requires forall i :: 0 <= i < |active| ==> Listed(rules, desired, active[i])
    requires forall a :: a in desired ==> BlockEnd.Names(rules, active, a)
    ensures (set a | a in desired :: desired[a].slotId) == s.active
  {
    hide ActiveRow, Address;
    forall id: uint64 ensures id in s.active <==> id in (set a | a in desired :: desired[a].slotId) {
      if id in s.active {
        var i :| 0 <= i < |active| && active[i].slotId == id;
        assert Listed(rules, desired, active[i]);
      }
      if id in (set a | a in desired :: desired[a].slotId) {
        var a :| a in desired && desired[a].slotId == id;
        var i :| 0 <= i < |active| && Address(rules, active[i].key) == a;
        assert Listed(rules, desired, active[i]);
      }
    }
  }

  lemma LoadedConsistent(rules: Rules, s: Store, initial: int64, active: seq<CoreSlot>, desired: map<string, Validator>)
    requires IndexedRows(rules, s, initial) && Loaded(rules, s, active) && |desired| == |active|
    requires forall i :: 0 <= i < |active| ==> Listed(rules, desired, active[i])
    requires forall a :: a in desired ==> BlockEnd.Names(rules, active, a)
    ensures Consistent(s.(lastApplied := desired), |desired|)
  {
    hide SlotRows, OperatorIndex, ActiveIndex, Histories, Bounds, Populated, Nominations, ActiveRow, Address,
      ConsensusKey, RowOk, Listed, BlockEnd.Names;
    DesiredNames(rules, s, active, desired);
  }

  // ----- What the import guarantees -----

  /** No two ACTIVE slots of the document have one consensus address. */
  ghost predicate ActiveAddressesDistinct(rules: Rules, slots: seq<CoreSlot>) {
    forall i, j :: 0 <= i < j < |slots| && slots[i].status == Active && slots[j].status == Active ==>
      Address(rules, slots[i].key) != Address(rules, slots[j].key)
  }

  lemma DocumentDistinct(rules: Rules, g: GenesisState)
    requires g.params.Some? && Unique(SlotIds(g.slots))
    ensures ActiveDistinct(rules, Rows(rules, g)) <==> ActiveAddressesDistinct(rules, g.slots)
  {
    hide Collect, Address;
    var slots, m, active := g.slots, Collect(SlotPairs(g.slots)), ActiveIds(g.slots);
    RowsActive(rules, g);
    if ActiveAddressesDistinct(rules, slots) {
      forall x: uint64, y: uint64 | x in active && y in active && x in m && y in m && x != y
        ensures Address(rules, m[x].key) != Address(rules, m[y].key)
      {
        var i := SlotPosition(slots, x);
        var j := SlotPosition(slots, y);
        assert i < j || j < i;
      }
    }
    if ActiveDistinct(rules, Rows(rules, g)) {
      forall i, j | 0 <= i < j < |slots| && slots[i].status == Active && slots[j].status == Active
        ensures Address(rules, slots[i].key) != Address(rules, slots[j].key)
      {
        SlotStored(slots, i);
        SlotStored(slots, j);
        assert SlotIds(slots)[i] != SlotIds(slots)[j];
      }
    }
  }

  /** Everything but the consensus addresses of an import is in order. */
  ghost predicate Importable(rules: Rules, g: GenesisState, contextHeight: int64) {
    && Admissible(rules, g) && contextHeight >= 0
    && HeightsOk(g, EffectiveInitialHeight(contextHeight).value) && AddressesOk(rules, g)
  }

  /**
   An import succeeds exactly on an admissible document, with the initial height and the
   runtime's addresses, in which no two ACTIVE slots collide. Neither the power cross-check
   nor any other late refusal ever decides.
   */
  lemma ImportSucceeds(rules: Rules, g: GenesisState, contextHeight: int64)
    ensures InitGenesis(rules, g, contextHeight).Success? <==>
              Importable(rules, g, contextHeight) && ActiveAddressesDistinct(rules, g.slots)
    ensures InitGenesis(rules, g, contextHeight).Success? ==>
              var (s, us) := InitGenesis(rules, g, contextHeight).value;
              && s == Rows(rules, g).(lastApplied := s.lastApplied)
              && us == Updates(map[], s.lastApplied)
              && KeyedByAddress(rules, s.lastApplied)
              && IsActiveSet(rules, s.slots, Powers(s.lastApplied))
              && ListsActive(rules, s, s.lastApplied)
              && |s.lastApplied| == |s.active| == ActiveSlots(g.slots)
  {
    hide ListsActive, Admissible, HeightsOk, AddressesOk, DiffAndPersist, Rows, ActiveDistinct,
      ActiveAddressesDistinct, Consistent, IndexedRows, KeyedByAddress, IsActiveSet, Updates;
    if Importable(rules, g, contextHeight) {
      var initial := EffectiveInitialHeight(contextHeight).value;
      AdmissibleParts(rules, g);
      RowsIndexed(rules, g, initial);
      DocumentDistinct(rules, g);
      FirstDiff(rules, Rows(rules, g), initial);
      var diff := DiffAndPersist(rules, Rows(rules, g));
      if diff.Success? {
        SameSlotsApplied(rules, Rows(rules, g), diff.value.0);
        ConsistentCount(diff.value.0, |diff.value.1|);
        RowsCount(rules, g);
      }
    }
  }

  lemma ConsistentCount(s: Store, updates: nat)
    requires Consistent(s, updates)
    ensures |s.lastApplied| == |s.active|
  {
  }

  lemma RowsCount(rules: Rules, g: GenesisState)
    requires g.params.Some? && Unique(SlotIds(g.slots))
    ensures |Rows(rules, g).active| == ActiveSlots(g.slots)
  {
    hide Unique, SlotIds, Collect, PoliciesOf, StartsOf, ActiveIds;
    ActiveCounted(g.slots);
  }

  lemma SameSlotsApplied(rules: Rules, s: Store, t: Store)
    requires s.slots == t.slots
    ensures ListsActive(rules, s, t.lastApplied) <==> ListsActive(rules, t, t.lastApplied)
  {
  }

  /** The chain an import starts: CometBFT begins with the updates it was handed. */
  ghost function Started(rules: Rules, s: Store, us: seq<Update>, initial: int64): Chain {
    Chain(s, initial, ApplyUpdates(rules, map[], us))
  }

  /** Genesis at the SDK's height 0 is genesis at height 1, and below 0 there is none. */
  lemma ZeroIsOne(rules: Rules, g: GenesisState, contextHeight: int64)
    ensures InitGenesis(rules, g, 0) == InitGenesis(rules, g, 1)
    ensures contextHeight < 0 ==> InitGenesis(rules, g, contextHeight).Failure?
  {
    hide Admissible, HeightsOk, AddressesOk, DiffAndPersist, Rows, Consistent;
  }

  /** What the document's ACTIVE slots weigh. */
  function StartingPower(g: GenesisState): int
    requires g.params.Some?
  {
    ActiveSlots(g.slots) * g.params.value.votingPower
  }

  /** CometBFT accepts an import's first set exactly when it can bear it. */
  lemma FirstSet(rules: Rules, g: GenesisState, contextHeight: int64)
    requires InitGenesis(rules, g, contextHeight).Success?
    ensures g.params.Some?
    ensures var (s, us) := InitGenesis(rules, g, contextHeight).value;
            && ApplyUpdates(rules, map[], us) == Powers(s.lastApplied)
            && (AcceptableUpdates(rules, map[], us) <==> StartingPower(g) <= MAX_TOTAL_VOTING_POWER)
            && (Bearable(Powers(s.lastApplied)) <==> StartingPower(g) <= MAX_TOTAL_VOTING_POWER)
  {
    hide Admissible, HeightsOk, AddressesOk, ActiveAddressesDistinct, Rows, Updates, KeyedByAddress, IsActiveSet,
      InitGenesis, ListsActive, WellFormedUpdates;
    ImportSucceeds(rules, g, contextHeight);
    AdmissibleParts(rules, g);
    var (s, us) := InitGenesis(rules, g, contextHeight).value;
    ImportedRows(rules, g, s);
    ActiveSetTotal(rules, s, s.lastApplied);
    SomebodyActive(rules, g, contextHeight);
    PowersNonempty(s.lastApplied);
    NothingKeyed(rules);
    UpdatesReachDesired(rules, map[], s.lastApplied);
    assert Powers(map[]) == map[];
  }

  lemma ImportedRows(rules: Rules, g: GenesisState, s: Store)
    requires Admissible(rules, g) && s == Rows(rules, g).(lastApplied := s.lastApplied)
    ensures SlotRows(rules, s.slots, s.nextSlotId, s.params.votingPower) && s.params == g.params.value
  {
    hide Admissible, SlotRows, Collect, PoliciesOf, StartsOf, ActiveIds;
    RowsSlotRows(rules, g);
  }

  lemma SomebodyActive(rules: Rules, g: GenesisState, contextHeight: int64)
    requires Admissible(rules, g)
    ensures ActiveSlots(g.slots) > 0
  {
    hide SlotsOk, NominationsOk, LastAppliedOk, Unique, SlotIds;
  }

  /**
   A successful import starts a good chain exactly when no two of its slots share a
   consensus address and its ACTIVE slots do not weigh more than CometBFT bears. Colliding
   PENDING slots are imported, and break the consensus index.
   */
  lemma ImportStartsGood(rules: Rules, g: GenesisState, contextHeight: int64)
    requires InitGenesis(rules, g, contextHeight).Success?
    ensures g.params.Some?
    ensures var (s, us) := InitGenesis(rules, g, contextHeight).value;
            Good(rules, Started(rules, s, us, EffectiveInitialHeight(contextHeight).value)) <==>
              DistinctAddresses(rules, g.slots) && StartingPower(g) <= MAX_TOTAL_VOTING_POWER
  {
    hide Admissible, HeightsOk, AddressesOk, DistinctAddresses, ActiveAddressesDistinct, Rows, Updates,
      KeyedByAddress, IsActiveSet, Inv, InitGenesis, AcceptableUpdates, StartingPower, Bearable, ListsActive;
    ImportSucceeds(rules, g, contextHeight);
    FirstSet(rules, g, contextHeight);
    var (s, us) := InitGenesis(rules, g, contextHeight).value;
    var initial := EffectiveInitialHeight(contextHeight).value;
    RowsInvariant(rules, g, initial);
    RowsIndexed(rules, g, initial);
    NothingApplied(rules, Rows(rules, g), initial);
    NothingKeyed(rules);
    AppliedIsFree(rules, Rows(rules, g), initial, s.lastApplied);
  }

  lemma NothingKeyed(rules: Rules)
    ensures KeyedByAddress(rules, map[])
  {
  }

  /** The invariant asks of the last applied set only that its keys are its own addresses. */
  lemma AppliedIsFree(rules: Rules, s: Store, height: int64, applied: map<string, Validator>)
    requires KeyedByAddress(rules, applied) && KeyedByAddress(rules, s.lastApplied)
    ensures Inv(rules, s, height) <==> Inv(rules, s.(lastApplied := applied), height)
  {
    hide SlotRows, ActiveIndex, OperatorIndex, ConsensusIndex, RotationRows, Histories, Bounds, Populated,
      Nominations, KeyedByAddress;
  }

  /**
   From every genesis the import accepts whose addresses are distinct and whose first set
   CometBFT bears, every run is good at every point; and it halts only where it ends a block
   at the last height, or one whose ACTIVE slots are heavier than CometBFT bears.
   */
  lemma ReachableGood(rules: Rules, g: GenesisState, contextHeight: int64, steps: seq<Step>)
    requires InitGenesis(rules, g, contextHeight).Success? && DistinctAddresses(rules, g.slots)
    requires g.params.Some? && StartingPower(g) <= MAX_TOTAL_VOTING_POWER
    ensures var (s, us) := InitGenesis(rules, g, contextHeight).value;
            var initial := EffectiveInitialHeight(contextHeight).value;
            var start := Started(rules, s, us, initial);
            var end := Play(rules, start, steps);
            && (end.None? <==> exists n :: HaltsAt(rules, start, steps, n))
            && (end.Some? ==>
                  && Good(rules, end.value) && end.value.height == initial + Blocks(steps)
                  && end.value.store.params.votingPower == g.params.value.votingPower
                  && (steps == [] || steps[|steps| - 1] == End ==>
                        IsActiveSet(rules, end.value.store.slots, end.value.validators)))
  {
    hide Admissible, HeightsOk, AddressesOk, DistinctAddresses, ActiveAddressesDistinct, Updates, KeyedByAddress,
      IsActiveSet, Good, InitGenesis, AcceptableUpdates, Collect, Apply, HaltsAt, StartingPower, ListsActive;
    ImportStartsGood(rules, g, contextHeight);
    ImportSucceeds(rules, g, contextHeight);
    FirstSet(rules, g, contextHeight);
    var (s, us) := InitGenesis(rules, g, contextHeight).value;
    var start := Started(rules, s, us, EffectiveInitialHeight(contextHeight).value);
    RunHalts(rules, start, steps);
    if Play(rules, start, steps).Some? { PlayedGood(rules, start, steps); }
  }
}
