/**
 Concrete chains: a genesis document with two slots, and the inputs at which a property
 one might expect of the code fails.
 */
module Samples {
  import opened Machine
  import opened Ordering
  import opened CoreSlotTypes
  import opened Handlers
  import opened Invariant
  import opened Genesis
  import opened GenesisImport
  import opened Runs
  import opened ActiveBounds
  import opened Timelines
  import EndBlock
  import Rotations

  /** Every key has the address `hash` gives it; everything else is allowed. */
  function Hashing(hash: string -> string): Rules {
    Rules(raw => Some(hash(raw)), _ => true, _ => true, _ => true, _ => true)
  }

  /** Every key is its own address. */
  function Plain(): Rules { Hashing(raw => raw) }

  function SampleSlot(id: uint64, operator: string, key: string, status: Status, power: int64): CoreSlot {
    CoreSlot(id, operator, PubKey(Ed25519, key), "p", "p", status, if status == Active then power else 0, One, None, 1,
             if status == Active then 1 else 0, if status == Active then 1 else 0, 1, 0, 0,
             if status == Active then 1 else 0, 1, 0)
  }

  /** Two slots, the first ACTIVE and the second as asked. */
  function SampleSlots(p: Params, second: Status): seq<CoreSlot> {
    [SampleSlot(1, "o", "k", Active, p.votingPower), SampleSlot(2, "q", "l", second, p.votingPower)]
  }

  function Sample(p: Params, second: Status, next: uint64): GenesisState {
    GenesisState(Some(p), SampleSlots(p, second), [], [], [], [], next,
                 [Policy(1, 1, 1, 1, 1, 0), Policy(2, 1, 1, 1, 1, 0)], [])
  }

  /** One to two ACTIVE slots of power 1. */
  const DEFAULTS: Params := Params("x", "y", 1, 1, 2, 0, 0, 0, 0, false, false, 360)

  function SampleCount(second: Status): nat { if second == Active then 2 else 1 }

  predicate SampleFits(p: Params, second: Status, next: uint64) {
    && ValidParams(Plain(), p) && (second == Pending || second == Active) && next >= 3
    && p.minActive <= SampleCount(second) <= p.maxActive
  }

  lemma SampleSlotsOk(hash: string -> string, p: Params, second: Status, next: uint64)
    requires SampleFits(p, second, next)
    ensures SlotsOk(Hashing(hash), p.votingPower, SampleSlots(p, second), Sample(p, second, next).policies)
    ensures ActiveSlots(SampleSlots(p, second)) == SampleCount(second)
    ensures SlotIds(SampleSlots(p, second)) == [1, 2]
  {
    hide Expected;
    var slots, policies := SampleSlots(p, second), Sample(p, second, next).policies;
    assert FirstPolicyOk(policies[0]) && FirstPolicyOk(policies[1]);
    assert HasFirstPolicy(policies, 1) && HasFirstPolicy(policies, 2);
    assert slots[..1] == [slots[0]] && slots[..1][..0] == [];
    assert ActiveSlots([slots[0]]) == 1;
  }

  lemma SampleImportable(hash: string -> string, p: Params, second: Status, next: uint64)
    requires SampleFits(p, second, next)
    ensures Importable(Hashing(hash), Sample(p, second, next), 1)
  {
    hide Expected, SlotsOk, SampleSlots, ActiveSlots;
    SampleSlotsOk(hash, p, second, next);
    var g := Sample(p, second, next);
    SampleHeights(p, second, next);
    forall i | 0 <= i < |g.slots| ensures g.slots[i].slotId == SlotIds(g.slots)[i] {}
    assert NominationsOk(Hashing(hash), p, []) && LastAppliedOk(Hashing(hash), g.slots, []);
  }

  lemma SampleHeights(p: Params, second: Status, next: uint64)
    ensures HeightsOk(Sample(p, second, next), 1)
  {
  }

  lemma SampleAddresses(hash: string -> string, p: Params, second: Status)
    ensures DistinctAddresses(Hashing(hash), SampleSlots(p, second)) <==> hash("k") != hash("l")
    ensures second == Pending || hash("k") != hash("l") ==>
              ActiveAddressesDistinct(Hashing(hash), SampleSlots(p, second))
  {
    var rules, slots := Hashing(hash), SampleSlots(p, second);
    assert Address(rules, slots[0].key) == hash("k") && Address(rules, slots[1].key) == hash("l");
  }

  /**
   The document is imported whatever the addresses are. When its two keys have one address,
   which the raw bytes do not show, the chain starts bad; otherwise it starts good.
   */
  lemma SampleImported(hash: string -> string)
    ensures InitGenesis(Hashing(hash), Sample(DEFAULTS, Pending, 3), 1).Success?
    ensures var (s, us) := InitGenesis(Hashing(hash), Sample(DEFAULTS, Pending, 3), 1).value;
            Good(Hashing(hash), Started(Hashing(hash), s, us, 1)) <==> hash("k") != hash("l")
  {
    hide InitGenesis, Importable, Good, SampleSlots, ActiveSlots;
    var rules, g := Hashing(hash), Sample(DEFAULTS, Pending, 3);
    SampleImportable(hash, DEFAULTS, Pending, 3);
    SampleSlotsOk(hash, DEFAULTS, Pending, 3);
    SampleAddresses(hash, DEFAULTS, Pending);
    ImportSucceeds(rules, g, 1);
    ImportStartsGood(rules, g, 1);
  }

  /** Two encodings of one key: an ACTIVE and a PENDING slot share an address in an imported document. */
  lemma CollisionImported()
    ensures InitGenesis(Hashing(_ => "a"), Sample(DEFAULTS, Pending, 3), 1).Success?
    ensures !DistinctAddresses(Hashing(_ => "a"), Sample(DEFAULTS, Pending, 3).slots)
  {
    hide InitGenesis, Good, SampleSlots;
    SampleImported(_ => "a");
    SampleAddresses(_ => "a", DEFAULTS, Pending);
  }

  // ----- The chain it starts -----

  /** What the import of the document leaves in the store. */
  ghost predicate SampleStore(p: Params, second: Status, next: uint64, s: Store) {
    && s.params == p && s.nextSlotId == next && s.rotations == map[] && s.reserved == map[]
    && (forall id: int :: id in s.slots <==> id == 1 || id == 2)
    && s.slots[1] == SampleSlots(p, second)[0] && s.slots[2] == SampleSlots(p, second)[1]
    && |s.active| == SampleCount(second)
    && (forall op :: op in s.byOperator <==> op == "o" || op == "q")
    && (forall a :: a in s.byConsensus <==> a == "k" || a == "l")
  }

  lemma SampleRows(p: Params, second: Status, next: uint64)
    requires SampleFits(p, second, next)
    ensures SampleStore(p, second, next, Rows(Plain(), Sample(p, second, next)))
  {
    hide Collect, SampleSlots, ActiveIds, ActiveSlots, SampleFits, SlotPairs, OperatorPairs, ConsensusPairs, SlotIds,
      Unique, RotationPairs, ReservedPairs, Address;
    var g := Sample(p, second, next);
    SampleUnique(p, second, next);
    SampleCells(p, second);
    RowsCount(Plain(), g);
    SlotStored(g.slots, 0);
    SlotStored(g.slots, 1);
    PairsOf(g.slots);
    NoPairs();
  }

  lemma SampleUnique(p: Params, second: Status, next: uint64)
    requires SampleFits(p, second, next)
    ensures Unique(SlotIds(SampleSlots(p, second))) && ActiveSlots(SampleSlots(p, second)) == SampleCount(second)
  {
    hide SampleSlots, ActiveSlots, SampleFits;
    SampleSlotsOk(raw => raw, p, second, next);
  }

  lemma NoPairs()
    ensures Collect(RotationPairs([])) == map[] && Collect(ReservedPairs([])) == map[]
  {
  }

  lemma SampleCells(p: Params, second: Status)
    ensures var slots := SampleSlots(p, second);
            && |slots| == 2 && slots[0].slotId == 1 && slots[1].slotId == 2
            && slots[0].operator == "o" && slots[1].operator == "q"
            && Address(Plain(), slots[0].key) == "k" && Address(Plain(), slots[1].key) == "l"
  {
  }

  lemma PairsOf(slots: seq<CoreSlot>)
    requires |slots| == 2
    ensures forall id: int :: id in Collect(SlotPairs(slots)) <==> id == slots[0].slotId || id == slots[1].slotId
    ensures forall op :: op in Collect(OperatorPairs(slots)) <==> op == slots[0].operator || op == slots[1].operator
    ensures forall a :: a in Collect(ConsensusPairs(Plain(), slots)) <==>
                        a == Address(Plain(), slots[0].key) || a == Address(Plain(), slots[1].key)
  {
    hide Address;
    assert SlotPairs(slots)[0].0 == slots[0].slotId && SlotPairs(slots)[1].0 == slots[1].slotId;
    assert OperatorPairs(slots)[0].0 == slots[0].operator && OperatorPairs(slots)[1].0 == slots[1].operator;
    assert ConsensusPairs(Plain(), slots)[0].0 == Address(Plain(), slots[0].key);
    assert ConsensusPairs(Plain(), slots)[1].0 == Address(Plain(), slots[1].key);
  }

  /** The chain is the one the document starts. */
  ghost predicate Begins(p: Params, second: Status, next: uint64, c: Chain) {
    && InitGenesis(Plain(), Sample(p, second, next), 1).Success?
    && var (s, us) := InitGenesis(Plain(), Sample(p, second, next), 1).value; c == Started(Plain(), s, us, 1)
  }

  /** The chain the document starts, a good one. */
  lemma SampleChain(p: Params, second: Status, next: uint64) returns (c: Chain)
    requires SampleFits(p, second, next)
    requires SampleCount(second) * p.votingPower <= EndBlock.MAX_TOTAL_VOTING_POWER
    ensures Begins(p, second, next, c)
    ensures Good(Plain(), c) && Inv(Plain(), c.store, c.height) && c.height == 1
    ensures SampleStore(p, second, next, c.store)
  {
    hide InitGenesis, Importable, SampleSlots, ActiveSlots, Inv, SampleStore, Rows;
    var rules, g := Plain(), Sample(p, second, next);
    SampleImportable(raw => raw, p, second, next);
    SampleSlotsOk(raw => raw, p, second, next);
    SampleAddresses(raw => raw, p, second);
    ImportSucceeds(rules, g, 1);
    ImportStartsGood(rules, g, 1);
    SampleRows(p, second, next);
    var (s, us) := InitGenesis(rules, g, 1).value;
    c := Started(rules, s, us, 1);
    SampleApplied(p, second, next, Rows(rules, g), s);
  }

  lemma SampleApplied(p: Params, second: Status, next: uint64, s: Store, s': Store)
    requires SampleStore(p, second, next, s) && s' == s.(lastApplied := s'.lastApplied)
    ensures SampleStore(p, second, next, s')
  {
  }

  // ----- Where the code does less than one might expect -----

  /** With the last id as its counter a reachable store admits the registration that cannot be finished. */
  lemma IdsRunOut() returns (c: Chain, msg: Msg)
    ensures Begins(DEFAULTS, Pending, MAX_UINT64, c)
    ensures Good(Plain(), c) && Inv(Plain(), c.store, c.height) && c.store.nextSlotId == MAX_UINT64
    ensures ExhaustsIds(Plain(), c.store, c.height, msg)
  {
    hide Begins, Good, Inv;
    c := SampleChain(DEFAULTS, Pending, MAX_UINT64);
    msg := RegisterCoreSlot("x", "n", PubKey(Ed25519, "m"), "p", "p", None, Some(InitialPolicy(1, 1)));
  }

  /** A lockout of 2^64 - 1 blocks is over at once: the removed key can be taken in the same block. */
  lemma LockoutWraps() returns (c: Chain)
    ensures Begins(DEFAULTS.(reuseLockout := MAX_UINT64), Pending, 3, c)
    ensures Good(Plain(), c) && Inv(Plain(), c.store, c.height) && c.store.params.reuseLockout == MAX_UINT64
    ensures 2 in c.store.slots && Remove(Plain(), c.store, c.height, "x", 2, "r").Success?
    ensures var after := Remove(Plain(), c.store, c.height, "x", 2, "r").value;
            EnsureConsensusAvailable(Plain(), after, c.height, c.store.slots[2].key).Success?
  {
    hide Begins, Good, Inv, EnsureConsensusAvailable;
    c := SampleChain(DEFAULTS.(reuseLockout := MAX_UINT64), Pending, 3);
    LockoutHolds(Plain(), c.store, c.height, "x", 2, "r", c.height);
  }

  /** A rotation delay of 2^64 - 1 blocks is over at once: the rotation is due in its own block. */
  lemma DelayWraps() returns (c: Chain)
    ensures Begins(DEFAULTS.(rotationDelay := MAX_UINT64), Pending, 3, c)
    ensures Good(Plain(), c) && Inv(Plain(), c.store, c.height) && c.store.params.rotationDelay == MAX_UINT64
    ensures ActiveIn(c.store, 1) && Rotate(Plain(), c.store, c.height, "x", 1, PubKey(Ed25519, "m")).Success?
    ensures var after := Rotate(Plain(), c.store, c.height, "x", 1, PubKey(Ed25519, "m")).value;
            1 in after.rotations && after.rotations[1].effective < c.height
  {
    hide Begins, Good, Inv;
    c := SampleChain(DEFAULTS.(rotationDelay := MAX_UINT64), Pending, 3);
    Rotations.RequestedFor(Plain(), c.store, c.height, "x", 1, PubKey(Ed25519, "m"));
  }

  /** A parameter update that raises the minimum past the count, from within the bounds. */
  lemma MinimumRaised() returns (c: Chain, msg: Msg)
    ensures Begins(DEFAULTS, Pending, 3, c)
    ensures Good(Plain(), c) && Inside(c.store) && msg.UpdateParams?
    ensures !Inside(Deliver(Plain(), c.store, c.height, msg))
  {
    hide Begins, Good, Inv, Deliver;
    c := SampleChain(DEFAULTS, Pending, 3);
    msg := UpdateParams("x", Some(DEFAULTS.(minActive := 2)));
    BoundsLeft(Plain(), c.store, c.height, msg);
  }

  /** One that lowers the maximum below it. */
  lemma MaximumLowered() returns (c: Chain, msg: Msg)
    ensures Begins(DEFAULTS, Active, 3, c)
    ensures Good(Plain(), c) && Inside(c.store) && msg.UpdateParams?
    ensures !Inside(Deliver(Plain(), c.store, c.height, msg))
  {
    hide Begins, Good, Inv, Deliver;
    c := SampleChain(DEFAULTS, Active, 3);
    msg := UpdateParams("x", Some(DEFAULTS.(maxActive := 1)));
    BoundsLeft(Plain(), c.store, c.height, msg);
  }

  /** An emergency suspension at the minimum. */
  lemma FloorIgnored() returns (c: Chain, msg: Msg)
    ensures Begins(DEFAULTS.(minActive := 2, emergencyBelowMin := true), Active, 3, c)
    ensures Good(Plain(), c) && Inside(c.store) && msg.SuspendCoreSlot?
    ensures !Inside(Deliver(Plain(), c.store, c.height, msg))
  {
    hide Begins, Good, Inv, Deliver;
    c := SampleChain(DEFAULTS.(minActive := 2, emergencyBelowMin := true), Active, 3);
    msg := SuspendCoreSlot("y", 2);
    BoundsLeft(Plain(), c.store, c.height, msg);
  }

  /** Power an eighth of the int64 range, eight slots allowed: the parameters are valid. */
  const HEAVY: Params := DEFAULTS.(votingPower := MAX_INT64 / 8, maxActive := 8)

  /** From a good start, activating the second of these slots halts the chain at the block's end. */
  lemma TooHeavy() returns (c: Chain)
    ensures Begins(HEAVY, Pending, 3, c) && Good(Plain(), c) && c.store.params == HEAVY
    ensures Activate(Plain(), c.store, c.height, "x", 2).Success?
    ensures Play(Plain(), c, [Tx(ActivateCoreSlot("x", 2)), End]).None?
  {
    hide Begins, Good, Inv, Play, Activate;
    c := SampleChain(HEAVY, Pending, 3);
    var steps := [Tx(ActivateCoreSlot("x", 2)), End];
    SecondActivated(c);
    RunHalts(Plain(), c, steps);
    OneStep(c, ActivateCoreSlot("x", 2));
    assert steps[..1] == [Tx(ActivateCoreSlot("x", 2))];
    assert HaltsAt(Plain(), c, steps, 1);
  }

  lemma SecondActivated(c: Chain)
    requires SampleStore(HEAVY, Pending, 3, c.store) && Inv(Plain(), c.store, c.height) && c.height == 1
    ensures Activate(Plain(), c.store, c.height, "x", 2).Success?
    ensures Deliver(Plain(), c.store, c.height, ActivateCoreSlot("x", 2)) ==
            Activate(Plain(), c.store, c.height, "x", 2).value
    ensures !Fits(Deliver(Plain(), c.store, c.height, ActivateCoreSlot("x", 2)))
  {
    hide Inv;
    SlotFacts(Plain(), c.store, c.height, 2);
    ActivateCounts(Plain(), c.store, c.height, "x", 2);
  }

  lemma OneStep(c: Chain, msg: Msg)
    ensures Play(Plain(), c, [Tx(msg)]) == Some(Delivered(Plain(), c, msg))
  {
    hide Deliver;
    assert [Tx(msg)][..0] == [];
  }
}
