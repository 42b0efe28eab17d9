/**
 Past answers of the selection policy lookup: no later step of any run changes the policy
 in force for a slot at a height the chain has reached.
 */
module Answers {
  import opened Machine
  import opened CoreSlotTypes
  import opened Handlers
  import opened Invariant
  import opened PolicyHistory
  import opened Runs
  import EndBlock
  import BlockEnd

  /** Before and after agree about the policy in force at `height`. */
  predicate Agree(before: Result<Policy>, after: Result<Policy>, height: int64) {
    if before.Success? then after.Success? && SameAnswer(before.value, after.value, height) else after == before
  }

  lemma AgreeTransitive(a: Result<Policy>, b: Result<Policy>, c: Result<Policy>, height: int64)
    requires Agree(a, b, height) && Agree(b, c, height)
    ensures Agree(a, c, height)
  {
  }

  /** The slot's rows and index are untouched. */
  predicate SameHistory(s: Store, s': Store, id: uint64) {
    Inner(s.policies, id) == Inner(s'.policies, id) && Inner(s.starts, id) == Inner(s'.starts, id)
  }

  lemma MessageOnHistory(rules: Rules, s: Store, height: int64, msg: Msg, id: uint64)
    requires Inv(rules, s, height) && id in s.slots
    ensures var s' := Deliver(rules, s, height, msg);
            || SameHistory(s, s', id)
            || (msg.UpdateSelectionPolicy? && msg.slotId == id && Handle(rules, s, height, msg).Success?)
  {
    hide Inv, Register, Activate, Inactivate, Suspend, Remove, Rotate, UpdatePayout, UpdateMetadata, UpdateSettlement,
      UpdatePolicy, ReplaceParams, Nominate, Accept, CancelNomination, Frames, FramesPolicies, SameHistory, Inner;
    match msg
    case RegisterCoreSlot(authority, operator, key, payout, settlement, metadata, policy) =>
      RegisterOnHistory(rules, s, height, authority, operator, key, payout, settlement, metadata, policy, id);
      SameHistoryReflexive(s, id);
    case UpdateSelectionPolicy(operator, i, rate, max) =>
      if i != id { UpdateOnHistory(rules, s, height, operator, i, rate, max, id); }
      SameHistoryReflexive(s, id);
    case _ =>
      OthersOnHistory(rules, s, height, msg, id);
  }

  lemma SameHistoryReflexive(s: Store, id: uint64)
    ensures SameHistory(s, s, id)
  {
  }

  lemma UpdateOnHistory(rules: Rules, s: Store, height: int64, operator: string, i: uint64, rate: uint64, max: uint64,
      id: uint64)
    requires Inv(rules, s, height) && id != i
    ensures var r := UpdatePolicy(s, height, operator, i, rate, max); r.Success? ==> SameHistory(s, r.value, id)
  {
    hide Inv, UpdatePolicy, Superseded, IndexedWith;
    if UpdatePolicy(s, height, operator, i, rate, max).Success? {
      PolicyUpdateEffect(rules, s, height, operator, i, rate, max);
    }
  }

  /** No other message touches the policy collections. */
  lemma OthersOnHistory(rules: Rules, s: Store, height: int64, msg: Msg, id: uint64)
    requires !msg.RegisterCoreSlot? && !msg.UpdateSelectionPolicy?
    ensures SameHistory(s, Deliver(rules, s, height, msg), id)
  {
    hide Activate, Inactivate, Suspend, Remove, Rotate, UpdatePayout, UpdateMetadata, UpdateSettlement, ReplaceParams,
      Nominate, Accept, CancelNomination, Register, UpdatePolicy, Frames, FramesPolicies, Inner, SameHistory;
    var r := Handle(rules, s, height, msg);
    if msg.NominateAuthority? || msg.CancelAuthorityNomination? {
      NominationsFrame(s, r, id);
    } else {
      FramedHistory(s, r, id);
    }
    SameHistoryReflexive(s, id);
  }

  lemma FramedHistory(s: Store, r: Result<Store>, id: uint64)
    requires FramesPolicies(s, r)
    ensures r.Success? ==> SameHistory(s, r.value, id)
  {
  }

  lemma NominationsFrame(s: Store, r: Result<Store>, id: uint64)
    requires r.Success? ==> r.value == s.(nominations := r.value.nominations)
    ensures r.Success? ==> SameHistory(s, r.value, id)
  {
  }

  lemma RegisterOnHistory(rules: Rules, s: Store, height: int64, authority: string, operator: string, key: PubKey,
      payout: string, settlement: string, metadata: Option<Metadata>, policy: Option<InitialPolicy>, id: uint64)
    requires Inv(rules, s, height) && id in s.slots
    ensures var r := Register(rules, s, height, authority, operator, key, payout, settlement, metadata, policy);
            r.Success? ==> SameHistory(s, r.value, id)
  {
    hide Inv, ConsensusKey, Register, NewSlot, NewRewardWeight;
    if Register(rules, s, height, authority, operator, key, payout, settlement, metadata, policy).Success? {
      RegisterEffect(rules, s, height, authority, operator, key, payout, settlement, metadata, policy);
    }
  }

  lemma UpdateKeepsAnswer(rules: Rules, s: Store, height: int64, operator: string, id: uint64, rate: uint64,
      max: uint64, h: int64)
    requires Inv(rules, s, height) && UpdatePolicy(s, height, operator, id, rate, max).Success? && h <= height
    ensures var s' := UpdatePolicy(s, height, operator, id, rate, max).value;
            Agree(SelectionPolicyAtHeight(s, id, h), SelectionPolicyAtHeight(s', id, h), h)
  {
    hide Inv, UpdatePolicy, Lookup;
    PolicyUpdateEffect(rules, s, height, operator, id, rate, max);
    SlotFacts(rules, s, height, id);
    CooldownOf(rules, s, height);
    OpenStarted(s.policies[id], s.starts[id], s.params, s.slots[id], height);
    SupersedeKeepsAnswers(s.policies[id], s.starts[id], id, s.slots[id].policyVersion,
                          NextPolicy(s.slots[id], height, rate, max), h);
  }

  lemma CooldownOf(rules: Rules, s: Store, height: int64)
    requires Inv(rules, s, height)
    ensures s.params.policyCooldown >= HARD_MIN_COOLDOWN_BLOCKS
  {
  }

  /** One step changes no answer about a past height, nor one about the present of an existing slot. */
  lemma StepKeepsAnswer(rules: Rules, c: Chain, step: Step, id: uint64, h: int64)
    requires Good(rules, c) && !Halts(c, step)
    requires h < c.height || (h == c.height && id in c.store.slots)
    ensures Apply(rules, c, step).Some?
    ensures var c' := Apply(rules, c, step).value;
            && (id in c.store.slots ==> id in c'.store.slots)
            && Agree(SelectionPolicyAtHeight(c.store, id, h), SelectionPolicyAtHeight(c'.store, id, h), h)
  {
    hide Good, Apply, SelectionPolicyAtHeight, StartsNow;
    StepHalts(rules, c, step);
    StepKeepsSlots(rules, c, step, id);
    if id in c.store.slots {
      KnownAnswer(rules, c, step, id, h);
    } else {
      StepGood(rules, c, step);
      StepOnUnknown(rules, c, step, id);
      UnknownAnswer(rules, c, id, h);
      var c' := Apply(rules, c, step).value;
      if id in c'.store.slots {
        StartedAt(c'.store, id, c.height);
        FirstAnswer(rules, c', id, h);
      } else {
        UnknownAnswer(rules, c', id, h);
      }
    }
  }

  lemma StartedAt(s: Store, id: uint64, height: int64)
    requires StartsNow(s, id, height)
    ensures id in s.policies && 1 in s.policies[id] && s.policies[id][1].validFrom == height
  {
  }

  lemma KnownAnswer(rules: Rules, c: Chain, step: Step, id: uint64, h: int64)
    requires Good(rules, c) && id in c.store.slots && h <= c.height && Apply(rules, c, step).Some?
    ensures Agree(SelectionPolicyAtHeight(c.store, id, h),
                  SelectionPolicyAtHeight(Apply(rules, c, step).value.store, id, h), h)
  {
    hide Inv, Handle, EndBlock.Run, EndBlock.AcceptableUpdates, Lookup;
    match step
    case Tx(msg) =>
      MessageOnHistory(rules, c.store, c.height, msg, id);
      if msg.UpdateSelectionPolicy? && msg.slotId == id && Handle(rules, c.store, c.height, msg).Success? {
        HandleUpdate(rules, c.store, c.height, msg);
        UpdateKeepsAnswer(rules, c.store, c.height, msg.operator, id, msg.rate, msg.maxParticipants, h);
      }
    case End =>
      BlockEndOnHistory(rules, c.store, c.height);
  }

  lemma HandleUpdate(rules: Rules, s: Store, height: int64, msg: Msg)
    requires msg.UpdateSelectionPolicy?
    ensures Handle(rules, s, height, msg) ==
            UpdatePolicy(s, height, msg.operator, msg.slotId, msg.rate, msg.maxParticipants)
  {
  }

  lemma BlockEndOnHistory(rules: Rules, s: Store, height: int64)
    ensures var r := EndBlock.Run(rules, s, height);
            r.Success? ==> r.value.0.policies == s.policies && r.value.0.starts == s.starts
  {
  }

  lemma LeaveSlots(rules: Rules, s: Store, slot: CoreSlot)
    requires slot.slotId in s.slots && Leave(rules, s, slot).Success?
    ensures Leave(rules, s, slot).value.slots.Keys == s.slots.Keys
  {
    hide ConsensusKey, Frames, FramesPolicies;
  }

  lemma InactivateSlots(rules: Rules, s: Store, height: int64, caller: string, id: uint64)
    requires Inv(rules, s, height) && Inactivate(rules, s, height, caller, id).Success?
    ensures Inactivate(rules, s, height, caller, id).value.slots.Keys == s.slots.Keys
  {
    hide Inv, Leave, ConsensusKey, Frames, FramesPolicies;
    SlotFacts(rules, s, height, id);
    LeaveSlots(rules, s, s.slots[id].(status := Inactive, power := 0, updatedHeight := height));
  }

  lemma SuspendSlots(rules: Rules, s: Store, height: int64, authority: string, id: uint64)
    requires Inv(rules, s, height) && Suspend(rules, s, height, authority, id).Success?
    ensures Suspend(rules, s, height, authority, id).value.slots.Keys == s.slots.Keys
  {
    hide Inv, Leave, ConsensusKey, Frames, FramesPolicies;
    SlotFacts(rules, s, height, id);
    LeaveSlots(rules, s,
               s.slots[id].(status := Suspended, power := 0, suspendedHeight := height, updatedHeight := height));
  }

  lemma RemoveSlots(rules: Rules, s: Store, height: int64, authority: string, id: uint64, reason: string)
    requires Inv(rules, s, height) && Remove(rules, s, height, authority, id, reason).Success?
    ensures Remove(rules, s, height, authority, id, reason).value.slots.Keys == s.slots.Keys
  {
    hide Inv, Leave, ConsensusKey, ReservedUntil, Frames, FramesPolicies;
    SlotFacts(rules, s, height, id);
    LeaveSlots(rules, s, s.slots[id].(status := Removed, power := 0, removedHeight := height, updatedHeight := height));
  }

  lemma ActivateSlots(rules: Rules, s: Store, height: int64, authority: string, id: uint64)
    requires Inv(rules, s, height) && Activate(rules, s, height, authority, id).Success?
    ensures Activate(rules, s, height, authority, id).value.slots.Keys == s.slots.Keys
  {
    hide Inv, ConsensusKey, ValidateActiveSlotInvariant, Frames, FramesPolicies;
    SlotFacts(rules, s, height, id);
  }

  lemma RotateSlots(rules: Rules, s: Store, height: int64, authority: string, id: uint64, key: PubKey)
    requires Inv(rules, s, height) && Rotate(rules, s, height, authority, id, key).Success?
    ensures Rotate(rules, s, height, authority, id, key).value.slots.Keys == s.slots.Keys
  {
    hide Inv, ConsensusKey, ReservedUntil, Frames, FramesPolicies;
    SlotFacts(rules, s, height, id);
  }

  /** The messages with which an operator rewrites a record in place. */
  lemma RecordSlots(rules: Rules, s: Store, height: int64, msg: Msg)
    requires Inv(rules, s, height) && Handle(rules, s, height, msg).Success?
    requires msg.UpdatePayoutAddress? || msg.UpdateOperatorMetadata? || msg.UpdateSettlementAddress?
    ensures Handle(rules, s, height, msg).value.slots.Keys == s.slots.Keys
  {
    hide Inv, ValidMetadata, Frames, FramesPolicies;
    SlotFacts(rules, s, height, msg.slotId);
  }

  lemma HoldersSlots(rules: Rules, s: Store, height: int64, msg: Msg)
    requires msg.UpdateParams? || msg.NominateAuthority? || msg.AcceptAuthority? || msg.CancelAuthorityNomination?
    ensures Deliver(rules, s, height, msg).slots == s.slots
  {
    hide ValidParams, CurrentHolder, SetHolder;
  }

  /** Slots are never deleted, and only a registration adds one: the counter's, with a first version. */
  lemma MessageSlots(rules: Rules, s: Store, height: int64, msg: Msg)
    requires Inv(rules, s, height)
    ensures var s' := Deliver(rules, s, height, msg);
            || s'.slots.Keys == s.slots.Keys
            || (&& msg.RegisterCoreSlot? && s.nextSlotId !in s.slots
                && s'.slots.Keys == s.slots.Keys + {s.nextSlotId}
                && StartsNow(s', s.nextSlotId, height))
  {
    hide Inv, Register, Activate, Inactivate, Suspend, Remove, Rotate, UpdatePolicy, NewSlot, NewRewardWeight,
      UpdatePayout, UpdateMetadata, UpdateSettlement, Frames, FramesPolicies;
    if Handle(rules, s, height, msg).Success? {
      match msg
      case RegisterCoreSlot(authority, operator, key, payout, settlement, metadata, policy) =>
        RegisterEffect(rules, s, height, authority, operator, key, payout, settlement, metadata, policy);
      case ActivateCoreSlot(authority, id) => ActivateSlots(rules, s, height, authority, id);
      case InactivateCoreSlot(caller, id) => InactivateSlots(rules, s, height, caller, id);
      case SuspendCoreSlot(authority, id) => SuspendSlots(rules, s, height, authority, id);
      case RemoveCoreSlot(authority, id, reason) => RemoveSlots(rules, s, height, authority, id, reason);
      case RotateConsensusKey(authority, id, key) => RotateSlots(rules, s, height, authority, id, key);
      case UpdateSelectionPolicy(operator, id, rate, max) =>
        PolicyUpdateEffect(rules, s, height, operator, id, rate, max);
      case UpdatePayoutAddress(_, _, _) => RecordSlots(rules, s, height, msg);
      case UpdateOperatorMetadata(_, _, _) => RecordSlots(rules, s, height, msg);
      case UpdateSettlementAddress(_, _, _) => RecordSlots(rules, s, height, msg);
      case _ => HoldersSlots(rules, s, height, msg);
    }
  }

  /** The slot's history begins at this height. */
  predicate StartsNow(s: Store, id: uint64, height: int64) {
    id in s.slots && id in s.policies && 1 in s.policies[id] && s.policies[id][1].validFrom == height
  }

  /**
   The policy in force for a slot at a height already reached never changes, and an id no
   slot has keeps having none at every height already past.
   */
  lemma {:induction false} PastAnswersStand(rules: Rules, c: Chain, steps: seq<Step>, id: uint64, h: int64)
    requires Good(rules, c) && Continues(rules, c, steps)
    requires h < c.height || (h == c.height && id in c.store.slots)
    ensures Play(rules, c, steps).Some?
    ensures var s' := Play(rules, c, steps).value.store;
            && (id in c.store.slots ==> id in s'.slots)
            && Agree(SelectionPolicyAtHeight(c.store, id, h), SelectionPolicyAtHeight(s', id, h), h)
    decreases |steps|
  {
    hide Good, Apply, SelectionPolicyAtHeight, Agree;
    ContinuesPlays(rules, c, steps);
    if steps == [] {
      AgreeReflexive(SelectionPolicyAtHeight(c.store, id, h), h);
    } else {
      var front := steps[..|steps| - 1];
      ContinuesFront(rules, c, steps);
      PastAnswersStand(rules, c, front, id, h);
      PlayedGood(rules, c, front);
      var c1 := Play(rules, c, front).value;
      StepHalts(rules, c1, steps[|steps| - 1]);
      StepKeepsAnswer(rules, c1, steps[|steps| - 1], id, h);
      var c2 := Play(rules, c, steps).value;
      AgreeTransitive(SelectionPolicyAtHeight(c.store, id, h), SelectionPolicyAtHeight(c1.store, id, h),
                      SelectionPolicyAtHeight(c2.store, id, h), h);
    }
  }

  /** The id has a slot after some prefix of the run that ends no block. */
  ghost predicate InFirstBlock(rules: Rules, c: Chain, steps: seq<Step>, id: uint64) {
    exists n :: 0 <= n <= |steps| && FoundBy(rules, c, steps, id, n)
  }

  ghost predicate FoundBy(rules: Rules, c: Chain, steps: seq<Step>, id: uint64, n: nat)
    requires n <= |steps|
  {
    && Blocks(steps[..n]) == 0 && Play(rules, c, steps[..n]).Some?
    && id in Play(rules, c, steps[..n]).value.store.slots
  }

  lemma FirstBlockNext(rules: Rules, c: Chain, steps: seq<Step>, id: uint64)
    requires steps != [] && Play(rules, c, steps).Some?
    ensures InFirstBlock(rules, c, steps, id) <==>
              || InFirstBlock(rules, c, steps[..|steps| - 1], id)
              || (Blocks(steps) == 0 && id in Play(rules, c, steps).value.store.slots)
  {
    hide Play, Blocks;
    var front := steps[..|steps| - 1];
    assert steps[..|steps|] == steps;
    forall n | 0 <= n <= |front| ensures FoundBy(rules, c, steps, id, n) <==> FoundBy(rules, c, front, id, n) {
      assert front[..n] == steps[..n];
    }
    if InFirstBlock(rules, c, front, id) {
      var n :| 0 <= n <= |front| && FoundBy(rules, c, front, id, n);
      assert FoundBy(rules, c, steps, id, n);
    }
    assert FoundBy(rules, c, steps, id, |steps|) <==>
           Blocks(steps) == 0 && Play(rules, c, steps).Some? && id in Play(rules, c, steps).value.store.slots;
  }

  /**
   The one answer about a height reached that can still change: at the present height, of an
   id no slot has yet. It becomes an answer exactly when a slot is registered under the id
   in this very block, because version 1 starts at the registration's height.
   */
  lemma {:induction false} PresentAnswer(rules: Rules, c: Chain, steps: seq<Step>, id: uint64)
    requires Good(rules, c) && Continues(rules, c, steps) && id !in c.store.slots
    ensures Play(rules, c, steps).Some?
    ensures SelectionPolicyAtHeight(c.store, id, c.height) == Failure(SelectionPolicyNotFound)
    ensures var answer := SelectionPolicyAtHeight(Play(rules, c, steps).value.store, id, c.height);
            if InFirstBlock(rules, c, steps, id) then answer.Success? else answer == Failure(SelectionPolicyNotFound)
    decreases |steps|
  {
    hide Good, Apply, SelectionPolicyAtHeight, InFirstBlock, StartsNow;
    ContinuesPlays(rules, c, steps);
    UnknownAnswer(rules, c, id, c.height);
    if steps == [] {
      NotInFirstBlock(rules, c, id);
    } else {
      var front, last := steps[..|steps| - 1], steps[|steps| - 1];
      ContinuesFront(rules, c, steps);
      PresentAnswer(rules, c, front, id);
      FirstBlockNext(rules, c, steps, id);
      PlayedGood(rules, c, front);
      PlayedGood(rules, c, steps);
      var c1, c2 := Play(rules, c, front).value, Play(rules, c, steps).value;
      if id in c1.store.slots {
        FirstBlockFound(rules, c, front, id);
        StepHalts(rules, c1, last);
        StepKeepsAnswer(rules, c1, last, id, c.height);
      } else {
        UnknownAnswer(rules, c1, id, c.height);
        StepOnUnknown(rules, c1, last, id);
        if id in c2.store.slots {
          StartedAt(c2.store, id, c1.height);
          FirstAnswer(rules, c2, id, c.height);
        } else {
          UnknownAnswer(rules, c2, id, c.height);
        }
      }
    }
  }

  lemma NotInFirstBlock(rules: Rules, c: Chain, id: uint64)
    requires id !in c.store.slots
    ensures !InFirstBlock(rules, c, [], id)
  {
  }

  /** A slot found after no block's end was found in the first block. */
  lemma FirstBlockFound(rules: Rules, c: Chain, steps: seq<Step>, id: uint64)
    requires Play(rules, c, steps).Some? && id in Play(rules, c, steps).value.store.slots
    ensures Blocks(steps) == 0 ==> InFirstBlock(rules, c, steps, id)
  {
    hide Play, Blocks;
    assert steps[..|steps|] == steps;
    assert Blocks(steps) == 0 ==> FoundBy(rules, c, steps, id, |steps|);
  }

  lemma StepKeepsSlots(rules: Rules, c: Chain, step: Step, id: uint64)
    requires Good(rules, c) && Apply(rules, c, step).Some?
    ensures id in c.store.slots ==> id in Apply(rules, c, step).value.store.slots
  {
    hide Inv, Deliver, EndBlock.Run, EndBlock.AcceptableUpdates, StartsNow;
    match step
    case Tx(msg) => MessageSlots(rules, c.store, c.height, msg);
    case End => BlockEnd.BlockEndRotates(rules, c.store, c.height, id);
  }

  /** An id no slot has stays so, unless this message registers it, and then its history starts here. */
  lemma StepOnUnknown(rules: Rules, c: Chain, step: Step, id: uint64)
    requires Good(rules, c) && Apply(rules, c, step).Some? && id !in c.store.slots
    ensures var c' := Apply(rules, c, step).value;
            id in c'.store.slots ==> step.Tx? && StartsNow(c'.store, id, c.height)
  {
    hide Inv, Deliver, EndBlock.Run, EndBlock.AcceptableUpdates, StartsNow;
    match step
    case Tx(msg) => MessageSlots(rules, c.store, c.height, msg);
    case End => BlockEnd.BlockEndRotates(rules, c.store, c.height, id);
  }

  lemma UnknownAnswer(rules: Rules, c: Chain, id: uint64, h: int64)
    requires Good(rules, c) && id !in c.store.slots
    ensures SelectionPolicyAtHeight(c.store, id, h) == Failure(SelectionPolicyNotFound)
  {
    hide SlotRows, ActiveIndex, OperatorIndex, ConsensusIndex, RotationRows, HistoryOk, Bounds, MostSlots;
    assert id !in c.store.policies && id !in c.store.starts;
  }

  /** A history that starts here answers from here on, and says there is none before. */
  lemma FirstAnswer(rules: Rules, c: Chain, id: uint64, h: int64)
    requires Good(rules, c) && id in c.store.slots
    ensures id in c.store.policies && 1 in c.store.policies[id]
    ensures var answer := SelectionPolicyAtHeight(c.store, id, h);
            if c.store.policies[id][1].validFrom <= h then answer.Success?
            else answer == Failure(SelectionPolicyNotFound)
  {
    hide Good, Scan, SelectionPolicyAtHeight;
    LookupIsScan(rules, c, id, h);
  }

  lemma AgreeReflexive(a: Result<Policy>, height: int64)
    ensures Agree(a, a, height)
  {
  }

  /** In every reachable store the lookup is the scan, and absence means before the first start. */
  lemma LookupIsScan(rules: Rules, c: Chain, id: uint64, h: int64)
    requires Good(rules, c) && id in c.store.slots
    ensures id in c.store.policies && 1 in c.store.policies[id]
    ensures var rows, current := c.store.policies[id], c.store.slots[id].policyVersion;
            && SelectionPolicyAtHeight(c.store, id, h) ==
                 (match Scan(rows, h, 1, current)
                  case Some(p) => Success(p)
                  case None => Failure(SelectionPolicyNotFound))
            && (Scan(rows, h, 1, current).None? <==> h < rows[1].validFrom)
  {
    hide Inv;
    SlotFacts(rules, c.store, c.height, id);
    SeekIsScan(c.store.policies[id], c.store.starts[id], id, c.store.slots[id].policyVersion, h);
  }
}
