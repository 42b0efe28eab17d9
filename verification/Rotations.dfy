/**
 What happens to one staged rotation over a run: it is applied at the end of exactly its
 block, or its slot leaves ACTIVE first and the rotation never happens.
 */
module Rotations {
  import opened Machine
  import opened CoreSlotTypes
  import opened Handlers
  import opened Invariant
  import opened PolicyHistory
  import opened Runs
  import opened EndBlock
  import opened BlockEnd
  import opened Timelines

  /** The rotation is staged, and its slot is ACTIVE with the old key. */
  predicate Waits(s: Store, id: uint64, r: Rotation) {
    id in s.rotations && s.rotations[id] == r && ActiveIn(s, id) && s.slots[id].key == r.oldKey
  }

  /** The slot is not ACTIVE, has no rotation, and the key it had staged is free. */
  predicate Canceled(rules: Rules, s: Store, id: uint64, staged: PubKey) {
    && id in s.slots && s.slots[id].status != Active && id !in s.rotations
    && Address(rules, staged) !in s.byConsensus
  }

  /** The rotation is as it was. */
  predicate Untouched(s: Store, s': Store, id: uint64) {
    id in s.rotations && id in s'.rotations && s'.rotations[id] == s.rotations[id]
  }

  // ----- One message -----

  lemma LeaveCancels(rules: Rules, s: Store, height: int64, slot: CoreSlot, id: uint64)
    requires Inv(rules, s, height) && id in s.rotations && Leave(rules, s, slot).Success?
    requires slot.status != Active
    ensures var s' := Leave(rules, s, slot).value;
            if slot.slotId == id then Canceled(rules, s', id, s.rotations[id].newKey) else Untouched(s, s', id)
  {
    hide Inv, Frames, FramesPolicies;
    RotationFacts(rules, s, height, id);
  }

  lemma InactivateOnRotation(rules: Rules, s: Store, height: int64, caller: string, i: uint64, id: uint64)
    requires Inv(rules, s, height) && id in s.rotations && Inactivate(rules, s, height, caller, i).Success?
    ensures var s' := Inactivate(rules, s, height, caller, i).value;
            if i == id then Canceled(rules, s', id, s.rotations[id].newKey) else Untouched(s, s', id)
  {
    hide Inv, ConsensusKey, Leave, Canceled, Frames, FramesPolicies;
    SlotFacts(rules, s, height, i);
    LeaveCancels(rules, s, height, s.slots[i].(status := Inactive, power := 0, updatedHeight := height), id);
  }

  lemma SuspendOnRotation(rules: Rules, s: Store, height: int64, authority: string, i: uint64, id: uint64)
    requires Inv(rules, s, height) && id in s.rotations && Suspend(rules, s, height, authority, i).Success?
    ensures var s' := Suspend(rules, s, height, authority, i).value;
            if i == id then Canceled(rules, s', id, s.rotations[id].newKey) else Untouched(s, s', id)
  {
    hide Inv, ConsensusKey, Leave, Canceled, Frames, FramesPolicies;
    SlotFacts(rules, s, height, i);
    LeaveCancels(rules, s, height,
                 s.slots[i].(status := Suspended, power := 0, suspendedHeight := height, updatedHeight := height), id);
  }

  /** Only a slot that is not ACTIVE is removed, so it has no rotation to lose. */
  lemma RemoveOnRotation(rules: Rules, s: Store, height: int64, authority: string, i: uint64, reason: string,
      id: uint64)
    requires Inv(rules, s, height) && id in s.rotations && Remove(rules, s, height, authority, i, reason).Success?
    ensures Untouched(s, Remove(rules, s, height, authority, i, reason).value, id)
  {
    hide Inv, ConsensusKey, Leave, Canceled, ReservedUntil, Frames, FramesPolicies;
    SlotFacts(rules, s, height, i);
    RotationFacts(rules, s, height, id);
    LeaveCancels(rules, s, height, s.slots[i].(status := Removed, power := 0, removedHeight := height,
                                               updatedHeight := height), id);
  }

  lemma RotateOnRotation(rules: Rules, s: Store, height: int64, authority: string, i: uint64, key: PubKey, id: uint64)
    requires Inv(rules, s, height) && id in s.rotations && Rotate(rules, s, height, authority, i, key).Success?
    ensures Untouched(s, Rotate(rules, s, height, authority, i, key).value, id)
  {
    hide Inv, ConsensusKey, ReservedUntil, Frames, FramesPolicies;
    SlotFacts(rules, s, height, i);
  }

  /** No other message touches the rotations. */
  lemma OthersOnRotation(rules: Rules, s: Store, height: int64, msg: Msg)
    requires Inv(rules, s, height) && Handle(rules, s, height, msg).Success?
    requires !msg.InactivateCoreSlot? && !msg.SuspendCoreSlot? && !msg.RemoveCoreSlot? && !msg.RotateConsensusKey?
    ensures Handle(rules, s, height, msg).value.rotations == s.rotations
  {
    hide Inv, UpdatePolicy, ValidateActiveSlotInvariant, ConsensusKey, ValidParams, ValidMetadata, ValidPolicyValues,
      NewSlot, NewRewardWeight, Inner, Frames, FramesPolicies;
    match msg
    case UpdateSelectionPolicy(operator, i, rate, max) =>
      PolicyUpdateEffect(rules, s, height, operator, i, rate, max);
    case _ =>
  }

  /** Taking the slot out of ACTIVE. */
  predicate Withdraws(msg: Msg, id: uint64) {
    (msg.InactivateCoreSlot? || msg.SuspendCoreSlot?) && msg.slotId == id
  }

  /** A message leaves a staged rotation as it is, or takes its slot out of ACTIVE and cancels it. */
  lemma MessageOnRotation(rules: Rules, s: Store, height: int64, msg: Msg, id: uint64)
    requires Inv(rules, s, height) && id in s.rotations
    ensures var s' := Deliver(rules, s, height, msg);
            Untouched(s, s', id) || (Withdraws(msg, id) && Canceled(rules, s', id, s.rotations[id].newKey))
  {
    hide Inv, Register, Activate, Inactivate, Suspend, Remove, Rotate, UpdatePolicy, UpdatePayout, UpdateMetadata,
      UpdateSettlement, ReplaceParams, Nominate, Accept, CancelNomination, Canceled;
    if Handle(rules, s, height, msg).Success? {
      match msg
      case InactivateCoreSlot(caller, i) => InactivateOnRotation(rules, s, height, caller, i, id);
      case SuspendCoreSlot(authority, i) => SuspendOnRotation(rules, s, height, authority, i, id);
      case RemoveCoreSlot(authority, i, reason) => RemoveOnRotation(rules, s, height, authority, i, reason, id);
      case RotateConsensusKey(authority, i, key) => RotateOnRotation(rules, s, height, authority, i, key, id);
      case _ => OthersOnRotation(rules, s, height, msg);
    }
  }

  // ----- A run -----

  /** The block at whose end the rotation applies. */
  function Effective(c: Chain, r: Rotation): int64 {
    if r.effective <= c.height then c.height else r.effective
  }

  /** Until step `n` the rotation waited; that step took the slot out of ACTIVE and canceled it. */
  ghost predicate CanceledAt(rules: Rules, c: Chain, steps: seq<Step>, id: uint64, r: Rotation, n: nat) {
    && n < |steps| && steps[n].Tx? && Withdraws(steps[n].msg, id)
    && Play(rules, c, steps[..n]).Some? && Waits(Play(rules, c, steps[..n]).value.store, id, r)
    && Play(rules, c, steps[..n + 1]).Some? && Canceled(rules, Play(rules, c, steps[..n + 1]).value.store, id, r.newKey)
  }

  lemma CanceledEarlier(rules: Rules, c: Chain, steps: seq<Step>, id: uint64, r: Rotation, n: nat)
    requires steps != [] && CanceledAt(rules, c, steps[..|steps| - 1], id, r, n)
    ensures CanceledAt(rules, c, steps, id, r, n)
  {
    hide Play, Canceled, Waits;
    var front := steps[..|steps| - 1];
    assert front[..n] == steps[..n] && front[..n + 1] == steps[..n + 1] && front[n] == steps[n];
  }

  lemma RotationStands(rules: Rules, s: Store, height: int64, id: uint64)
    requires Inv(rules, s, height) && id in s.rotations
    ensures Waits(s, id, s.rotations[id])
  {
    hide Inv;
    RotationFacts(rules, s, height, id);
  }

  /** Until the end of its block the rotation waits, unless a withdrawal of its slot cancels it. */
  lemma {:induction false} RotationWaits(rules: Rules, c: Chain, steps: seq<Step>, id: uint64)
    requires Good(rules, c) && id in c.store.rotations && Continues(rules, c, steps)
    requires c.height + Blocks(steps) <= Effective(c, c.store.rotations[id])
    ensures Play(rules, c, steps).Some?
    ensures var r := c.store.rotations[id];
            Waits(Play(rules, c, steps).value.store, id, r) || exists n :: CanceledAt(rules, c, steps, id, r, n)
    decreases |steps|
  {
    hide Good, Apply, Waits, CanceledAt;
    ContinuesPlays(rules, c, steps);
    var r := c.store.rotations[id];
    if steps == [] {
      GoodStore(rules, c);
      RotationStands(rules, c.store, c.height, id);
    } else {
      var front := steps[..|steps| - 1];
      ContinuesFront(rules, c, steps);
      RotationWaits(rules, c, front, id);
      if Waits(Play(rules, c, front).value.store, id, r) {
        RotationStep(rules, c, steps, id, r);
      } else {
        var n :| CanceledAt(rules, c, front, id, r, n);
        CanceledEarlier(rules, c, steps, id, r, n);
      }
    }
  }

  /** One more step of a rotation that has waited so far. */
  lemma RotationStep(rules: Rules, c: Chain, steps: seq<Step>, id: uint64, r: Rotation)
    requires Good(rules, c) && steps != [] && Play(rules, c, steps).Some?
    requires c.height + Blocks(steps) <= Effective(c, r)
    requires Waits(Play(rules, c, steps[..|steps| - 1]).value.store, id, r)
    ensures Waits(Play(rules, c, steps).value.store, id, r) || CanceledAt(rules, c, steps, id, r, |steps| - 1)
  {
    hide Inv, EndBlock.Run, Deliver, AcceptableUpdates, ApplyUpdates, Bearable, Powers, Canceled, Withdraws;
    var front := steps[..|steps| - 1];
    PlayedGood(rules, c, front);
    PlayedGood(rules, c, steps);
    var c' := Play(rules, c, front).value;
    var last := Play(rules, c, steps).value;
    match steps[|steps| - 1] {
      case Tx(msg) =>
        MessageOnRotation(rules, c'.store, c'.height, msg, id);
        assert steps[..|steps|] == steps;
      case End => BlockEndRotates(rules, c'.store, c'.height, id);
    }
    if Untouched(c'.store, last.store, id) { RotationStands(rules, last.store, last.height, id); }
  }

  /** The slot has the new key, and CometBFT's set the new address and not the old one. */
  ghost predicate Switched(rules: Rules, c: Chain, id: uint64, r: Rotation) {
    && id !in c.store.rotations && ActiveIn(c.store, id) && c.store.slots[id].key == r.newKey
    && Address(rules, r.newKey) in c.validators && Address(rules, r.oldKey) !in c.validators
  }

  /** At the end of its block a waiting rotation is applied. */
  lemma RotationApplied(rules: Rules, c: Chain, id: uint64)
    requires Good(rules, c) && id in c.store.rotations && c.store.rotations[id].effective <= c.height
    requires !Halts(c, End)
    ensures Apply(rules, c, End).Some?
    ensures Switched(rules, Apply(rules, c, End).value, id, c.store.rotations[id])
  {
    hide Inv, EndBlock.Run, AcceptableUpdates, ApplyUpdates, Powers, Bearable, Unheld, Locked, ReservedUntil;
    StepHalts(rules, c, End);
    var r := c.store.rotations[id];
    RotationFacts(rules, c.store, c.height, id);
    BlockEndRotates(rules, c.store, c.height, id);
    StepGood(rules, c, End);
    var after := Apply(rules, c, End).value;
    BlockEndLocks(rules, c.store, c.height, id);
    LockedIsFree(after.store, Address(rules, r.oldKey), ReservedUntil(c.height, c.store.params.reuseLockout));
    FreeIsUnheld(rules, after.store, after.height, Address(rules, r.oldKey));
    UnheldIsNoValidator(rules, after.store, after.validators, Address(rules, r.oldKey));
  }

  lemma LockedIsFree(s: Store, a: string, until: int64)
    requires Locked(s, a, until)
    ensures a !in s.byConsensus
  {
  }

  /**
   A staged rotation is applied at the end of exactly its block, unless some message before
   then took its slot out of ACTIVE and canceled it.
   */
  lemma RotationDecided(rules: Rules, c: Chain, steps: seq<Step>, id: uint64)
    requires Good(rules, c) && id in c.store.rotations && Continues(rules, c, steps + [End])
    requires c.height + Blocks(steps) == Effective(c, c.store.rotations[id])
    ensures Play(rules, c, steps + [End]).Some?
    ensures Play(rules, c, steps).Some?
    ensures var r := c.store.rotations[id];
            || Switched(rules, Play(rules, c, steps + [End]).value, id, r)
            || exists n :: CanceledAt(rules, c, steps, id, r, n)
  {
    hide Good, Apply, Switched, Canceled, Withdraws, CanceledAt, Continues, Halts;
    ContinuesPlays(rules, c, steps + [End]);
    ContinuesFront(rules, c, steps + [End]);
    assert (steps + [End])[..|steps|] == steps;
    RotationWaits(rules, c, steps, id);
    PlayedGood(rules, c, steps);
    var before := Play(rules, c, steps).value;
    StepHalts(rules, before, End);
    if Waits(before.store, id, c.store.rotations[id]) { RotationApplied(rules, before, id); }
  }

  /** The slot is ACTIVE in every state the steps pass through. */
  ghost predicate StaysActive(rules: Rules, c: Chain, steps: seq<Step>, id: uint64) {
    forall n :: 0 <= n <= |steps| && Play(rules, c, steps[..n]).Some? ==>
      ActiveIn(Play(rules, c, steps[..n]).value.store, id)
  }

  /** So it is applied whenever the slot stays ACTIVE. */
  lemma RotationHappens(rules: Rules, c: Chain, steps: seq<Step>, id: uint64)
    requires Good(rules, c) && id in c.store.rotations && Continues(rules, c, steps + [End])
    requires c.height + Blocks(steps) == Effective(c, c.store.rotations[id]) && StaysActive(rules, c, steps, id)
    ensures Play(rules, c, steps + [End]).Some?
    ensures Switched(rules, Play(rules, c, steps + [End]).value, id, c.store.rotations[id])
  {
    hide Good, Play, Switched, CanceledAt;
    ContinuesPlays(rules, c, steps + [End]);
    RotationDecided(rules, c, steps, id);
    forall n: nat ensures !CanceledAt(rules, c, steps, id, c.store.rotations[id], n) {
      NeverCanceled(rules, c, steps, id, c.store.rotations[id], n);
    }
  }

  lemma NeverCanceled(rules: Rules, c: Chain, steps: seq<Step>, id: uint64, r: Rotation, n: nat)
    requires StaysActive(rules, c, steps, id)
    ensures !CanceledAt(rules, c, steps, id, r, n)
  {
    hide Play, Waits;
    assert n < |steps| && Play(rules, c, steps[..n + 1]).Some? ==>
        ActiveIn(Play(rules, c, steps[..n + 1]).value.store, id);
  }

  // ----- From the request on -----

  /** The block a request at `height` with delay `delay` is meant for, when the sum fits an int64. */
  lemma RequestedFor(rules: Rules, s: Store, height: int64, authority: string, id: uint64, key: PubKey)
    requires Inv(rules, s, height) && Rotate(rules, s, height, authority, id, key).Success?
    requires ActiveIn(s, id)
    ensures var s' := Rotate(rules, s, height, authority, id, key).value; var delay := s.params.rotationDelay;
            && id in s'.rotations && s'.rotations[id].newKey == key && s'.rotations[id].oldKey == s.slots[id].key
            && (if height + delay <= MAX_INT64 then s'.rotations[id].effective == height + delay
                else s'.rotations[id].effective < height)
  {
    hide SlotRows, ActiveIndex, OperatorIndex, ConsensusIndex, RotationRows, Histories, KeyedByAddress, Bounds,
      MostSlots;
    SlotFacts(rules, s, height, id);
  }

  /** How many blocks a request waits: the delay, or none when its height wraps around. */
  function Delay(height: int64, delay: uint64): int {
    if height + delay <= MAX_INT64 then delay else 0
  }

  /**
   A rotation requested at height h with delay d on an ACTIVE slot is applied at the end of
   block h + d, and at the end of block h if that wraps around, unless a message in between
   took the slot out of ACTIVE and canceled it.
   */
  lemma RequestDecided(rules: Rules, c: Chain, authority: string, id: uint64, key: PubKey, steps: seq<Step>)
    requires Good(rules, c) && Rotate(rules, c.store, c.height, authority, id, key).Success? && ActiveIn(c.store, id)
    requires Blocks(steps) == Delay(c.height, c.store.params.rotationDelay)
    requires Continues(rules, c, [Tx(RotateConsensusKey(authority, id, key))] + (steps + [End]))
    ensures var request := Tx(RotateConsensusKey(authority, id, key));
            var after, end := Play(rules, c, [request]), Play(rules, c, [request] + (steps + [End]));
            && after.Some? && end.Some? && id in after.value.store.rotations
            && after.value.store.rotations[id].newKey == key
            && after.value.store.rotations[id].oldKey == c.store.slots[id].key
            && (|| Switched(rules, end.value, id, after.value.store.rotations[id])
                || exists n :: CanceledAt(rules, after.value, steps, id, after.value.store.rotations[id], n))
  {
    hide Good, Rotate, Play, Switched, CanceledAt, ActiveIn, Continues;
    var msg := RotateConsensusKey(authority, id, key);
    FirstMessage(rules, c, msg, steps + [End]);
    GoodStore(rules, c);
    RequestedFor(rules, c.store, c.height, authority, id, key);
    RotationDecided(rules, Delivered(rules, c, msg), steps, id);
  }

  // ----- After a cancellation -----

  /**
   A canceled rotation never happens: unless a later message asks for the staged key again,
   no slot has it or stages it, and after the next block's end no validator set names it.
   */
  lemma CanceledNeverHappens(rules: Rules, c: Chain, steps: seq<Step>, id: uint64, r: Rotation, n: nat)
    requires Good(rules, c) && Continues(rules, c, steps) && CanceledAt(rules, c, steps, id, r, n)
    requires forall k :: n < k < |steps| ==> !TakenAt(rules, c, steps, Address(rules, r.newKey), k)
    ensures Play(rules, c, steps).Some?
    ensures var c' := Play(rules, c, steps).value; var a := Address(rules, r.newKey);
            && a !in c'.store.byConsensus && Unheld(rules, c'.store, a)
            && (Blocks(steps[n + 1..]) > 0 ==> a !in c'.validators)
  {
    hide Good, Unheld, CanceledAt, Canceled, Takes, TakenAt, Address, Play, Continues;
    var a := Address(rules, r.newKey);
    ContinuesPlays(rules, c, steps);
    CancelFrees(rules, c, steps, id, r, n);
    PlaySplits(rules, c, steps, n + 1);
    var from, rest := Play(rules, c, steps[..n + 1]).value, steps[n + 1..];
    PlayedGood(rules, c, steps[..n + 1]);
    ContinuesPlays(rules, from, rest);
    forall k | 0 <= k < |rest| ensures !TakenAt(rules, from, rest, a, k) {
      TakenShifts(rules, c, steps, n + 1, a, k);
    }
    KeyStaysFree(rules, from, rest, a);
  }

  lemma CancelFrees(rules: Rules, c: Chain, steps: seq<Step>, id: uint64, r: Rotation, n: nat)
    requires CanceledAt(rules, c, steps, id, r, n)
    ensures n < |steps| && Play(rules, c, steps[..n + 1]).Some?
    ensures Address(rules, r.newKey) !in Play(rules, c, steps[..n + 1]).value.store.byConsensus
  {
    hide Play, Waits, Address;
  }

  lemma TakenShifts(rules: Rules, c: Chain, steps: seq<Step>, n: nat, a: string, k: nat)
    requires Play(rules, c, steps).Some? && n + k < |steps|
    ensures Play(rules, c, steps[..n]).Some?
    ensures TakenAt(rules, Play(rules, c, steps[..n]).value, steps[n..], a, k) ==> TakenAt(rules, c, steps, a, n + k)
  {
    hide Takes, Apply;
    Prefix(rules, c, steps, n);
    Prefix(rules, c, steps, n + k);
    PlaySplits(rules, c, steps[..n + k], n);
    assert steps[..n + k][..n] == steps[..n] && steps[..n + k][n..] == steps[n..][..k] && steps[n..][k] == steps[n + k];
  }
}
