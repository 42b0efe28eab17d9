/**
 Whole runs: any sequence of messages and block ends, at the chain's own heights, with
 CometBFT's validator set beside the store.
 */
module Runs {
  import opened Machine
  import opened CoreSlotTypes
  import opened Handlers
  import opened Invariant
  import opened PolicyHistory
  import EndBlock
  import BlockEnd

  datatype Step = Tx(msg: Msg) | End

  /** The store during the block at `height`, and the set CometBFT holds. */
  datatype Chain = Chain(store: Store, height: int64, validators: map<string, int64>)

  /**
   One step, or None where the chain halts: the end of a block fails, CometBFT refuses
   its updates, or there is no next height.
   */
  ghost function Apply(rules: Rules, c: Chain, step: Step): Option<Chain> {
    match step
    case Tx(msg) => Some(c.(store := Deliver(rules, c.store, c.height, msg)))
    case End =>
      if c.height == MAX_INT64 then None
      else match EndBlock.Run(rules, c.store, c.height)
        case Failure(_) => None
        case Success((s, us)) =>
          if !EndBlock.AcceptableUpdates(rules, c.validators, us) then None
          else Some(Chain(s, c.height + 1, EndBlock.ApplyUpdates(rules, c.validators, us)))
  }

  ghost function Play(rules: Rules, c: Chain, steps: seq<Step>): Option<Chain> {
    if steps == [] then Some(c)
    else match Play(rules, c, steps[..|steps| - 1])
      case None => None
      case Some(c') => Apply(rules, c', steps[|steps| - 1])
  }

  function Blocks(steps: seq<Step>): nat {
    if steps == [] then 0
    else Blocks(steps[..|steps| - 1]) + if steps[|steps| - 1] == End then 1 else 0
  }

  /** The store is in order, and CometBFT holds the last applied set, which it can bear. */
  ghost predicate Good(rules: Rules, c: Chain) {
    && Inv(rules, c.store, c.height)
    && c.validators == EndBlock.Powers(c.store.lastApplied) && EndBlock.Bearable(c.validators)
  }

  /** The ACTIVE slots are not more than CometBFT bears. */
  predicate Fits(s: Store) {
    |s.active| * s.params.votingPower <= EndBlock.MAX_TOTAL_VOTING_POWER
  }

  /** Where a good chain halts: at the end of its last block, or of one whose ACTIVE slots are too heavy. */
  predicate Halts(c: Chain, step: Step) {
    step == End && (c.height == MAX_INT64 || !Fits(c.store))
  }

  lemma StepHalts(rules: Rules, c: Chain, step: Step)
    requires Good(rules, c)
    ensures Apply(rules, c, step).None? <==> Halts(c, step)
  {
    hide Inv, EndBlock.Run, EndBlock.AcceptableUpdates, Deliver, EndBlock.Bearable;
    if step == End { BlockEnd.BlockEnds(rules, c.store, c.height); }
  }

  lemma StepGood(rules: Rules, c: Chain, step: Step)
    requires Good(rules, c) && Apply(rules, c, step).Some?
    ensures var c' := Apply(rules, c, step).value;
            && Good(rules, c')
            && c'.height == c.height + (if step == End then 1 else 0)
            && c'.store.params.votingPower == c.store.params.votingPower
            && (step == End ==>
                  BlockEnd.IsActiveSet(rules, c'.store.slots, c'.validators) && c'.validators != map[])
  {
    hide Inv, EndBlock.Run, EndBlock.WellFormedUpdates, Deliver, BlockEnd.IsActiveSet, EndBlock.Bearable;
    match step
    case Tx(msg) =>
      SomeActive(rules, c.store, c.height);
      MessageKeeps(rules, c.store, c.height, msg);
      MessageFrame(rules, c.store, c.height, msg);
    case End =>
      BlockEnd.BlockEnds(rules, c.store, c.height);
      var (s, us) := EndBlock.Run(rules, c.store, c.height).value;
      BlockEnd.NextHeight(rules, s, c.height, c.height + 1);
  }

  lemma SomeActive(rules: Rules, s: Store, height: int64)
    requires Inv(rules, s, height)
    ensures |s.active| > 0 && s.params.votingPower > 0
  {
    hide Bounds, MostSlots, Histories, OperatorIndex, ConsensusIndex;
  }

  /** What holds at every point a run reaches. */
  lemma {:induction false} PlayedGood(rules: Rules, c: Chain, steps: seq<Step>)
    requires Good(rules, c) && Play(rules, c, steps).Some?
    ensures var c' := Play(rules, c, steps).value;
            && Good(rules, c')
            && c'.height == c.height + Blocks(steps)
            && c'.store.params.votingPower == c.store.params.votingPower
            && (steps != [] && steps[|steps| - 1] == End ==>
                  BlockEnd.IsActiveSet(rules, c'.store.slots, c'.validators) && c'.validators != map[])
    decreases |steps|
  {
    hide Good, Apply, BlockEnd.IsActiveSet;
    if steps != [] {
      PlayedGood(rules, c, steps[..|steps| - 1]);
      StepGood(rules, Play(rules, c, steps[..|steps| - 1]).value, steps[|steps| - 1]);
    }
  }

  /** The run is played up to step `n` and halts there. */
  ghost predicate HaltsAt(rules: Rules, c: Chain, steps: seq<Step>, n: nat) {
    && n < |steps| && Play(rules, c, steps[..n]).Some?
    && Halts(Play(rules, c, steps[..n]).value, steps[n])
  }

  /**
   A run halts if and only if it ends a block at the last int64 height or with ACTIVE slots
   heavier than CometBFT bears. No other sequence of messages and block ends halts the chain.
   */
  lemma {:induction false} RunHalts(rules: Rules, c: Chain, steps: seq<Step>)
    requires Good(rules, c)
    ensures Play(rules, c, steps).None? <==> exists n :: HaltsAt(rules, c, steps, n)
    decreases |steps|
  {
    hide Good, Apply, Halts;
    if steps != [] {
      var front, last := steps[..|steps| - 1], steps[|steps| - 1];
      RunHalts(rules, c, front);
      forall n | 0 <= n < |front| ensures HaltsAt(rules, c, front, n) <==> HaltsAt(rules, c, steps, n) {
        assert front[..n] == steps[..n] && front[n] == steps[n];
      }
      if Play(rules, c, front).Some? {
        PlayedGood(rules, c, front);
        StepHalts(rules, Play(rules, c, front).value, last);
        assert HaltsAt(rules, c, steps, |front|) <==> Halts(Play(rules, c, front).value, last);
      }
    }
  }

  /** Playing a run is playing its first part and then the rest. */
  lemma {:induction false} PlaySplits(rules: Rules, c: Chain, steps: seq<Step>, n: nat)
    requires n <= |steps| && Play(rules, c, steps).Some?
    ensures Play(rules, c, steps[..n]).Some?
    ensures Play(rules, Play(rules, c, steps[..n]).value, steps[n..]) == Play(rules, c, steps)
    decreases |steps|
  {
    hide Apply;
    Prefix(rules, c, steps, n);
    if n == |steps| {
      assert steps[..n] == steps;
    } else {
      var front := steps[..|steps| - 1];
      PlaySplits(rules, c, front, n);
      assert front[..n] == steps[..n] && steps[n..][..|steps| - n - 1] == front[n..];
    }
  }

  /** A run is its first step and then the rest. */
  lemma FirstStep(rules: Rules, c: Chain, step: Step, rest: seq<Step>)
    requires Play(rules, c, [step] + rest).Some?
    ensures Play(rules, c, [step]) == Apply(rules, c, step) && Apply(rules, c, step).Some?
    ensures Play(rules, Apply(rules, c, step).value, rest) == Play(rules, c, [step] + rest)
  {
    hide Apply;
    PlaySplits(rules, c, [step] + rest, 1);
    assert ([step] + rest)[..1] == [step] && ([step] + rest)[1..] == rest;
    assert [step][..0] == [] && Play(rules, c, []) == Some(c);
  }

  /** The run halts nowhere. */
  ghost predicate Continues(rules: Rules, c: Chain, steps: seq<Step>) {
    forall n: nat {:trigger HaltsAt(rules, c, steps, n)} :: !HaltsAt(rules, c, steps, n)
  }

  lemma ContinuesPlays(rules: Rules, c: Chain, steps: seq<Step>)
    requires Good(rules, c)
    ensures Continues(rules, c, steps) <==> Play(rules, c, steps).Some?
  {
    hide Good, Play, HaltsAt;
    RunHalts(rules, c, steps);
  }

  lemma ContinuesFront(rules: Rules, c: Chain, steps: seq<Step>)
    requires steps != [] && Continues(rules, c, steps)
    ensures Continues(rules, c, steps[..|steps| - 1])
  {
    hide Play, Halts;
    var front := steps[..|steps| - 1];
    forall n: nat ensures !HaltsAt(rules, c, front, n) {
      assert n < |front| ==> front[..n] == steps[..n] && front[n] == steps[n];
      assert !HaltsAt(rules, c, steps, n);
    }
  }

  /**
   In every run the invariant holds throughout, CometBFT's set is always the last applied
   one, and right after a block it is exactly the ACTIVE slots. The voting power keeps its
   first value.
   */
  lemma RunGood(rules: Rules, c: Chain, steps: seq<Step>)
    requires Good(rules, c) && Continues(rules, c, steps)
    ensures Play(rules, c, steps).Some?
    ensures var c' := Play(rules, c, steps).value;
            && Good(rules, c')
            && c'.height == c.height + Blocks(steps)
            && c'.store.params.votingPower == c.store.params.votingPower
            && (steps != [] && steps[|steps| - 1] == End ==>
                  BlockEnd.IsActiveSet(rules, c'.store.slots, c'.validators) && c'.validators != map[])
  {
    hide Good, Continues, Play, BlockEnd.IsActiveSet;
    ContinuesPlays(rules, c, steps);
    PlayedGood(rules, c, steps);
  }

  /** A run that is played to its end was played to every point before it. */
  lemma {:induction false} Prefix(rules: Rules, c: Chain, steps: seq<Step>, n: nat)
    requires Play(rules, c, steps).Some? && n <= |steps|
    ensures Play(rules, c, steps[..n]).Some?
    decreases |steps|
  {
    if n == |steps| {
      assert steps[..n] == steps;
    } else {
      assert steps[..|steps| - 1][..n] == steps[..n];
      Prefix(rules, c, steps[..|steps| - 1], n);
    }
  }

  /** The facts about counts and power a reader of the store may rely on. */
  lemma Population(rules: Rules, c: Chain)
    requires Good(rules, c)
    ensures var s := c.store;
            && 1 <= |s.active| <= HARD_MAX_ACTIVE_CORE_SLOTS
            && |s.active| * s.params.votingPower <= MAX_INT64
            && (forall id :: id in s.slots ==> s.slots[id].power == if id in s.active then s.params.votingPower else 0)
  {
    hide OperatorIndex, ConsensusIndex, RotationRows, Histories, Bounds, MostSlots;
    var s := c.store;
    PowerFits(|s.active|, s.params.votingPower);
    forall id | id in s.slots
      ensures s.slots[id].power == if id in s.active then s.params.votingPower else 0
    {
      assert RowOk(rules, s.slots[id], id, s.nextSlotId, s.params.votingPower);
    }
  }

  lemma PowerFits(count: nat, power: int64)
    requires power > 0 && count <= MostSlots(power)
    ensures count * power <= MAX_INT64
  {
    var q := MAX_INT64 / power;
    assert power * q <= MAX_INT64;
    assert power * (q - count) >= 0;
    assert power * (q - count) == power * q - count * power;
  }

  /** A slot's version count is bounded by its age, whatever the configured cooldown was. */
  lemma VersionsBounded(rules: Rules, c: Chain, id: uint64)
    requires Good(rules, c) && id in c.store.slots
    ensures id in c.store.policies && 1 in c.store.policies[id]
    ensures var first := c.store.policies[id][1].validFrom;
            && first <= c.height
            && |c.store.policies[id]| == c.store.slots[id].policyVersion
            && c.store.slots[id].policyVersion <= 2 + (c.height - first) / HARD_MIN_COOLDOWN_BLOCKS
  {
    hide Inv;
    SlotFacts(rules, c.store, c.height, id);
    VersionCount(c.store.policies[id], c.store.slots[id].policyVersion);
    var slot, rows := c.store.slots[id], c.store.policies[id];
    if slot.policyVersion > 1 {
      StartsAscend(rows, id, slot.policyVersion, 1, slot.policyVersion);
    }
  }

  lemma {:induction false} VersionCount(rows: map<uint64, Policy>, n: uint64)
    requires forall v: int :: v in rows <==> 1 <= v <= n
    ensures |rows| == n
    decreases n
  {
    if n == 0 {
      assert rows == map[];
    } else {
      VersionCount(rows - {n}, n - 1);
      assert rows == (rows - {n})[n := rows[n]];
    }
  }
}
