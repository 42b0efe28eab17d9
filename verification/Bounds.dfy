/**
 The configured bounds on the number of ACTIVE slots: what each message does to the
 count, exactly which messages leave the bounds, and when the total power stays bearable.
 */
module ActiveBounds {
  import opened Machine
  import opened CoreSlotTypes
  import opened Handlers
  import opened Invariant
  import opened PolicyHistory
  import opened Runs
  import EndBlock
  import BlockEnd

  /** The count is within the bounds in force. */
  predicate Inside(s: Store) {
    s.params.minActive <= |s.active| <= s.params.maxActive
  }

  /** Params.Validate, with the total power a product. */
  lemma ParamsMean(rules: Rules, p: Params)
    ensures ValidParams(rules, p) <==>
              && rules.bech32(p.authority) && rules.bech32(p.emergencyAuthority)
              && p.votingPower > 0 && 1 <= p.minActive <= p.maxActive <= 100
              && p.maxActive * p.votingPower <= MAX_INT64
              && p.activationDelay == p.removalDelay == 0 && !p.allowSelfRegistration
              && p.policyCooldown >= 360
  {
    if p.votingPower > 0 {
      if p.maxActive <= MostSlots(p.votingPower) { PowerFits(p.maxActive, p.votingPower); }
      if p.maxActive > MostSlots(p.votingPower) { PowerSpills(p.maxActive, p.votingPower); }
    }
  }

  lemma PowerSpills(count: nat, power: int64)
    requires power > 0 && count > MostSlots(power)
    ensures count * power > MAX_INT64
  {
    QuotientSpills(MAX_INT64, power);
    Scaled(MostSlots(power) + 1, count, power);
  }

  lemma QuotientSpills(n: nat, d: int)
    requires d > 0
    ensures (n / d + 1) * d > n
  {
    assert n == d * (n / d) + n % d;
  }

  // ----- What a message does to the count -----

  /** An accepted message adds one ACTIVE slot below the maximum, removes one, or leaves the count. */
  ghost predicate Counted(s: Store, s': Store, msg: Msg) {
    match msg
    case ActivateCoreSlot(_, _) => |s'.active| == |s.active| + 1 <= s.params.maxActive
    case InactivateCoreSlot(_, _) => |s'.active| == |s.active| - 1 >= s.params.minActive
    case SuspendCoreSlot(_, id) => |s'.active| == if ActiveIn(s, id) then |s.active| - 1 else |s.active|
    case _ => |s'.active| == |s.active|
  }

  /** Only a parameter update moves a bound. */
  predicate SameBounds(s: Store, s': Store, msg: Msg) {
    if msg.UpdateParams? then msg.params == Some(s'.params)
    else s'.params.minActive == s.params.minActive && s'.params.maxActive == s.params.maxActive
  }

  lemma LeaveCounts(rules: Rules, s: Store, height: int64, slot: CoreSlot)
    requires Inv(rules, s, height) && slot.slotId in s.slots && Leave(rules, s, slot).Success?
    ensures var s' := Leave(rules, s, slot).value;
            && |s'.active| == (if ActiveIn(s, slot.slotId) then |s.active| - 1 else |s.active|)
            && s'.params == s.params
  {
    hide Inv;
    SlotFacts(rules, s, height, slot.slotId);
    assert Leave(rules, s, slot).value.active == s.active - {slot.slotId};
    if slot.slotId !in s.active { assert s.active - {slot.slotId} == s.active; }
  }

  lemma InactivateCounts(rules: Rules, s: Store, height: int64, caller: string, id: uint64)
    requires Inv(rules, s, height) && Inactivate(rules, s, height, caller, id).Success?
    ensures var s' := Inactivate(rules, s, height, caller, id).value;
            |s'.active| == |s.active| - 1 >= s.params.minActive && s'.params == s.params
  {
    hide Inv, Leave, ConsensusKey, Frames, FramesPolicies;
    SlotFacts(rules, s, height, id);
    LeaveCounts(rules, s, height, s.slots[id].(status := Inactive, power := 0, updatedHeight := height));
  }

  lemma SuspendCounts(rules: Rules, s: Store, height: int64, authority: string, id: uint64)
    requires Inv(rules, s, height) && Suspend(rules, s, height, authority, id).Success?
    ensures var s' := Suspend(rules, s, height, authority, id).value;
            && |s'.active| == (if ActiveIn(s, id) then |s.active| - 1 else |s.active|)
            && s'.params == s.params
  {
    hide Inv, Leave, ConsensusKey, Frames, FramesPolicies;
    SlotFacts(rules, s, height, id);
    LeaveCounts(rules, s, height, s.slots[id].(status := Suspended, power := 0, suspendedHeight := height,
                                               updatedHeight := height));
  }

  lemma RemoveCounts(rules: Rules, s: Store, height: int64, authority: string, id: uint64, reason: string)
    requires Inv(rules, s, height) && Remove(rules, s, height, authority, id, reason).Success?
    ensures var s' := Remove(rules, s, height, authority, id, reason).value;
            |s'.active| == |s.active| && s'.params == s.params
  {
    hide Inv, Leave, ConsensusKey, ReservedUntil;
    SlotFacts(rules, s, height, id);
    LeaveCounts(rules, s, height, s.slots[id].(status := Removed, power := 0, removedHeight := height,
                                               updatedHeight := height));
  }

  lemma ActivateCounts(rules: Rules, s: Store, height: int64, authority: string, id: uint64)
    requires Inv(rules, s, height) && Activate(rules, s, height, authority, id).Success?
    ensures var s' := Activate(rules, s, height, authority, id).value;
            |s'.active| == |s.active| + 1 <= s.params.maxActive && s'.params == s.params
  {
    hide Inv, ValidateActiveSlotInvariant, ConsensusKey;
    SlotFacts(rules, s, height, id);
  }

  /** Messages that touch neither the index nor a bound. */
  lemma OthersCount(rules: Rules, s: Store, height: int64, msg: Msg)
    requires Handle(rules, s, height, msg).Success?
    requires !msg.ActivateCoreSlot? && !msg.InactivateCoreSlot? && !msg.SuspendCoreSlot? && !msg.RemoveCoreSlot?
    ensures var s' := Handle(rules, s, height, msg).value; s'.active == s.active && SameBounds(s, s', msg)
  {
    hide ConsensusKey, ValidParams, ValidMetadata, ValidPolicyValues, Inner, NewSlot, NewRewardWeight, ReservedUntil,
      ValidatePolicyTransitionSeam, PolicyCooldown, CurrentPolicy;
  }

  lemma MessageCounts(rules: Rules, s: Store, height: int64, msg: Msg)
    requires Inv(rules, s, height) && Handle(rules, s, height, msg).Success?
    ensures var s' := Handle(rules, s, height, msg).value; Counted(s, s', msg) && SameBounds(s, s', msg)
  {
    hide Inv, Register, Activate, Inactivate, Suspend, Remove, Rotate, UpdatePayout, UpdateMetadata, UpdateSettlement,
      UpdatePolicy, ReplaceParams, Nominate, Accept, CancelNomination;
    match msg
    case ActivateCoreSlot(authority, id) => ActivateCounts(rules, s, height, authority, id);
    case InactivateCoreSlot(caller, id) => InactivateCounts(rules, s, height, caller, id);
    case SuspendCoreSlot(authority, id) => SuspendCounts(rules, s, height, authority, id);
    case RemoveCoreSlot(authority, id, reason) => RemoveCounts(rules, s, height, authority, id, reason);
    case _ => OthersCount(rules, s, height, msg);
  }

  // ----- The two exits -----

  /** Parameters the handler accepts, with bounds the present count is not within. */
  predicate ExcludingUpdate(rules: Rules, s: Store, msg: Msg) {
    && msg.UpdateParams? && ReplaceParams(rules, s, msg.authority, msg.params).Success?
    && !(msg.params.value.minActive <= |s.active| <= msg.params.value.maxActive)
  }

  /** The emergency suspension: of an ACTIVE slot at the minimum, with the floor switched off. */
  predicate EmergencySuspension(s: Store, msg: Msg) {
    && msg.SuspendCoreSlot? && msg.authority in {s.params.authority, s.params.emergencyAuthority}
    && ActiveIn(s, msg.slotId) && s.params.emergencyBelowMin
    && |s.active| == s.params.minActive && |s.active| > 1
  }

  lemma SuspensionAccepted(rules: Rules, s: Store, height: int64, authority: string, id: uint64)
    requires Inv(rules, s, height) && ActiveIn(s, id)
    ensures Suspend(rules, s, height, authority, id).Success? <==>
              && authority in {s.params.authority, s.params.emergencyAuthority}
              && |s.active| > 1 && (s.params.emergencyBelowMin || |s.active| > s.params.minActive)
  {
    hide Inv, Leave;
    SlotFacts(rules, s, height, id);
    if |s.active| > 1 {
      LeaveKeeps(rules, s, height, s.slots[id].(status := Suspended, power := 0, suspendedHeight := height,
                                                updatedHeight := height));
    }
  }

  /** From within the bounds, these two are exactly the messages that lead out of them. */
  lemma BoundsLeft(rules: Rules, s: Store, height: int64, msg: Msg)
    requires Inv(rules, s, height) && Inside(s)
    ensures Inside(Deliver(rules, s, height, msg)) <==>
            !ExcludingUpdate(rules, s, msg) && !EmergencySuspension(s, msg)
  {
    hide Inv, Register, Activate, Inactivate, Remove, Leave, Rotate, UpdatePolicy, ReplaceParams, Suspend;
    if msg.SuspendCoreSlot? && ActiveIn(s, msg.slotId) {
      SuspensionAccepted(rules, s, height, msg.authority, msg.slotId);
    }
    if Handle(rules, s, height, msg).Success? { MessageCounts(rules, s, height, msg); }
  }

  /** The end of a block moves neither the count nor a bound. */
  lemma BlockEndInside(rules: Rules, s: Store, height: int64)
    requires Inv(rules, s, height)
    ensures EndBlock.Run(rules, s, height).Success?
    ensures var s' := EndBlock.Run(rules, s, height).value.0; s'.active == s.active && s'.params == s.params
  {
    hide Inv, EndBlock.Run, EndBlock.AcceptableUpdates, EndBlock.WellFormedUpdates, BlockEnd.IsActiveSet;
    BlockEnd.BlockEnds(rules, s, height);
  }

  /** Step `n` of the run is one of the two exits. */
  ghost predicate ExitsAt(rules: Rules, c: Chain, steps: seq<Step>, n: nat) {
    && n < |steps| && steps[n].Tx? && Play(rules, c, steps[..n]).Some?
    && var s := Play(rules, c, steps[..n]).value.store;
    && (ExcludingUpdate(rules, s, steps[n].msg) || EmergencySuspension(s, steps[n].msg))
  }

  /** A run that starts within the bounds and takes neither exit stays within them. */
  lemma {:induction false} BoundsHold(rules: Rules, c: Chain, steps: seq<Step>)
    requires Good(rules, c) && Inside(c.store) && Continues(rules, c, steps)
    requires forall n :: 0 <= n < |steps| ==> !ExitsAt(rules, c, steps, n)
    ensures Play(rules, c, steps).Some?
    ensures Inside(Play(rules, c, steps).value.store)
    decreases |steps|
  {
    hide Inv, Deliver, EndBlock.Run, ExcludingUpdate, EmergencySuspension, EndBlock.AcceptableUpdates, Inside;
    ContinuesPlays(rules, c, steps);
    if steps != [] {
      var front, last := steps[..|steps| - 1], steps[|steps| - 1];
      forall n | 0 <= n < |front| ensures !ExitsAt(rules, c, front, n) {
        assert front[..n] == steps[..n] && front[n] == steps[n];
        assert !ExitsAt(rules, c, steps, n);
      }
      ContinuesFront(rules, c, steps);
      BoundsHold(rules, c, front);
      PlayedGood(rules, c, front);
      var c' := Play(rules, c, front).value;
      match last
      case Tx(msg) =>
        assert !ExitsAt(rules, c, steps, |front|);
        BoundsLeft(rules, c'.store, c'.height, msg);
      case End =>
        BlockEndInside(rules, c'.store, c'.height);
        SameInside(c'.store, Play(rules, c, steps).value.store);
    }
  }

  lemma SameInside(s: Store, s': Store)
    requires s'.active == s.active && s'.params == s.params
    ensures Inside(s') <==> Inside(s)
  {
  }

  // ----- The power CometBFT bears -----

  /** Any number of slots the parameters allow is bearable at this voting power. */
  predicate Capped(p: Params, power: int64) {
    p.maxActive * power <= EndBlock.MAX_TOTAL_VOTING_POWER
  }

  /** No parameters named in the run allow more slots than CometBFT bears. */
  predicate AllCapped(steps: seq<Step>, power: int64) {
    forall n :: 0 <= n < |steps| && steps[n].Tx? && steps[n].msg.UpdateParams? && steps[n].msg.params.Some? ==>
      Capped(steps[n].msg.params.value, power)
  }

  lemma MessageFits(rules: Rules, s: Store, height: int64, msg: Msg)
    requires Inv(rules, s, height) && Fits(s) && Capped(s.params, s.params.votingPower)
    requires msg.UpdateParams? && msg.params.Some? ==> Capped(msg.params.value, s.params.votingPower)
    ensures var s' := Deliver(rules, s, height, msg); Fits(s') && Capped(s'.params, s.params.votingPower)
  {
    hide Inv, Handle;
    SomeActive(rules, s, height);
    MessageFrame(rules, s, height, msg);
    if Handle(rules, s, height, msg).Success? {
      MessageCounts(rules, s, height, msg);
      var s' := Handle(rules, s, height, msg).value;
      Scaled(|s'.active|, if |s'.active| <= |s.active| then |s.active| else s.params.maxActive, s.params.votingPower);
    }
  }

  lemma Scaled(x: nat, y: nat, power: int64)
    requires x <= y && power > 0
    ensures x * power <= y * power
  {
  }

  /**
   If neither the starting parameters nor any the run proposes allow more slots than CometBFT
   bears, the chain never halts before the last int64 height.
   */
  lemma {:induction false} NeverHalts(rules: Rules, c: Chain, steps: seq<Step>)
    requires Good(rules, c) && Fits(c.store) && Capped(c.store.params, c.store.params.votingPower)
    requires AllCapped(steps, c.store.params.votingPower) && c.height + Blocks(steps) <= MAX_INT64
    ensures Play(rules, c, steps).Some?
    ensures var s := Play(rules, c, steps).value.store; Fits(s) && Capped(s.params, c.store.params.votingPower)
    decreases |steps|
  {
    hide Good, Deliver, EndBlock.Run, Fits, Capped, EndBlock.AcceptableUpdates;
    if steps != [] {
      var front, last := steps[..|steps| - 1], steps[|steps| - 1];
      assert forall n :: 0 <= n < |front| ==> front[n] == steps[n];
      NeverHalts(rules, c, front);
      PlayedGood(rules, c, front);
      var c' := Play(rules, c, front).value;
      StepHalts(rules, c', last);
      GoodInv(rules, c');
      match last
      case Tx(msg) => MessageFits(rules, c'.store, c'.height, msg);
      case End =>
        BlockEndInside(rules, c'.store, c'.height);
        SameFits(c'.store, Play(rules, c, steps).value.store);
    }
  }

  lemma GoodInv(rules: Rules, c: Chain)
    requires Good(rules, c)
    ensures Inv(rules, c.store, c.height)
  {
  }

  lemma SameFits(s: Store, s': Store)
    requires s'.active == s.active && s'.params == s.params
    ensures Fits(s') <==> Fits(s)
  {
  }
}
