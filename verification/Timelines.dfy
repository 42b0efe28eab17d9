/**
 What happens to one consensus key over a run: a released key stays locked for the
 lockout, and a free one that nobody asks for stays free.
 */
module Timelines {
  import opened Machine
  import opened CoreSlotTypes
  import opened Handlers
  import opened Invariant
  import opened PolicyHistory
  import opened Runs
  import opened EndBlock
  import opened BlockEnd

  // ----- A released consensus key -----

  /** The address is in nobody's hands and reserved until `until`, exclusive. */
  predicate Locked(s: Store, a: string, until: int64) {
    a !in s.byConsensus && a in s.reserved && s.reserved[a].until == until
  }

  /** No slot has the key, and no rotation stages it. */
  ghost predicate Unheld(rules: Rules, s: Store, a: string) {
    && (forall id :: id in s.slots && s.slots[id].status != Removed ==> Address(rules, s.slots[id].key) != a)
    && (forall id :: id in s.rotations ==> Address(rules, s.rotations[id].newKey) != a)
  }

  /** What the consensus index does not name, nobody holds. */
  lemma FreeIsUnheld(rules: Rules, s: Store, height: int64, a: string)
    requires Inv(rules, s, height) && a !in s.byConsensus
    ensures Unheld(rules, s, a)
  {
    hide SlotRows, ActiveIndex, OperatorIndex, RotationRows, Histories, KeyedByAddress, Bounds, MostSlots;
  }

  lemma LockedRegister(rules: Rules, s: Store, height: int64, authority: string, operator: string, key: PubKey,
      payout: string, settlement: string, metadata: Option<Metadata>, policy: Option<InitialPolicy>, a: string,
      until: int64)
    requires Locked(s, a, until) && height < until
    ensures var r := Register(rules, s, height, authority, operator, key, payout, settlement, metadata, policy);
            r.Success? ==> Locked(r.value, a, until)
  {
    hide ValidPolicyValues, ValidMetadata, ConsensusKey, NewSlot, NewRewardWeight, Inner;
  }

  lemma LockedLeave(rules: Rules, s: Store, height: int64, slot: CoreSlot, a: string, until: int64)
    requires Locked(s, a, until)
    ensures Leave(rules, s, slot).Success? ==> Locked(Leave(rules, s, slot).value, a, until)
  {
  }

  lemma LockedRemove(rules: Rules, s: Store, height: int64, authority: string, id: uint64, reason: string, a: string,
      until: int64)
    requires Inv(rules, s, height) && Locked(s, a, until)
    ensures var r := Remove(rules, s, height, authority, id, reason); r.Success? ==> Locked(r.value, a, until)
  {
    hide Inv, ConsensusKey, Leave, ReservedUntil;
    if Remove(rules, s, height, authority, id, reason).Success? {
      SlotFacts(rules, s, height, id);
      OwnKeyIndexed(rules, s, height, id);
      LockedLeave(rules, s, height,
                  s.slots[id].(status := Removed, power := 0, removedHeight := height, updatedHeight := height),
                  a, until);
    }
  }

  lemma LockedRotate(rules: Rules, s: Store, height: int64, authority: string, id: uint64, key: PubKey, a: string,
      until: int64)
    requires Inv(rules, s, height) && Locked(s, a, until) && height < until
    ensures var r := Rotate(rules, s, height, authority, id, key); r.Success? ==> Locked(r.value, a, until)
  {
    hide Inv, ConsensusKey, ReservedUntil;
    if Rotate(rules, s, height, authority, id, key).Success? {
      SlotFacts(rules, s, height, id);
      OwnKeyIndexed(rules, s, height, id);
    }
  }

  lemma LockedMessage(rules: Rules, s: Store, height: int64, msg: Msg, a: string, until: int64)
    requires Inv(rules, s, height) && Locked(s, a, until) && height < until
    ensures Locked(Deliver(rules, s, height, msg), a, until)
  {
    hide Inv, Locked, Register, Remove, Rotate, Leave, UpdatePolicy, ValidateActiveSlotInvariant, Frames,
      FramesPolicies, ConsensusKey;
    match msg
    case RegisterCoreSlot(authority, operator, key, payout, settlement, metadata, policy) =>
      LockedRegister(rules, s, height, authority, operator, key, payout, settlement, metadata, policy, a, until);
    case InactivateCoreSlot(caller, id) =>
      if id in s.slots {
        LockedLeave(rules, s, height, s.slots[id].(status := Inactive, power := 0, updatedHeight := height), a, until);
      }
    case SuspendCoreSlot(authority, id) =>
      if id in s.slots {
        LockedLeave(rules, s, height, s.slots[id].(status := Suspended, power := 0, suspendedHeight := height,
                                                   updatedHeight := height), a, until);
      }
    case RemoveCoreSlot(authority, id, reason) => LockedRemove(rules, s, height, authority, id, reason, a, until);
    case RotateConsensusKey(authority, id, key) => LockedRotate(rules, s, height, authority, id, key, a, until);
    case UpdateSelectionPolicy(operator, id, rate, max) =>
      if UpdatePolicy(s, height, operator, id, rate, max).Success? {
        PolicyUpdateEffect(rules, s, height, operator, id, rate, max);
        LockedSame(s, Deliver(rules, s, height, msg), a, until);
      }
    case _ =>
      KeysUntouched(rules, s, height, msg);
      LockedSame(s, Deliver(rules, s, height, msg), a, until);
  }

  lemma LockedSame(s: Store, s': Store, a: string, until: int64)
    requires Locked(s, a, until) && s'.byConsensus == s.byConsensus && s'.reserved == s.reserved
    ensures Locked(s', a, until)
  {
  }

  /** The messages that neither name nor free a consensus key. */
  lemma KeysUntouched(rules: Rules, s: Store, height: int64, msg: Msg)
    requires match msg
      case RegisterCoreSlot(_, _, _, _, _, _, _) => false
      case InactivateCoreSlot(_, _) => false
      case SuspendCoreSlot(_, _) => false
      case RemoveCoreSlot(_, _, _) => false
      case RotateConsensusKey(_, _, _) => false
      case UpdateSelectionPolicy(_, _, _, _) => false
      case _ => true
    ensures Deliver(rules, s, height, msg).byConsensus == s.byConsensus
    ensures Deliver(rules, s, height, msg).reserved == s.reserved
  {
    hide Register, Inactivate, Suspend, Remove, Rotate, UpdatePolicy, ValidateActiveSlotInvariant, ConsensusKey,
      ValidParams, ValidMetadata, Frames, FramesPolicies;
  }

  lemma LockedRotation(rules: Rules, s: Store, height: int64, r: Rotation, a: string, until: int64)
    requires Inv(rules, s, height) && Locked(s, a, until)
    requires r.slotId in s.rotations && s.rotations[r.slotId] == r
    ensures ApplyRotation(rules, s, height, r).Success? && Locked(ApplyRotation(rules, s, height, r).value, a, until)
  {
    hide Inv;
    RotationApplies(rules, s, height, r);
    RotationFacts(rules, s, height, r.slotId);
    OwnKeyIndexed(rules, s, height, r.slotId);
  }

  lemma {:induction false} LockedRotations(rules: Rules, s: Store, height: int64, due: seq<Rotation>, a: string,
      until: int64)
    requires Inv(rules, s, height) && Staged(s.rotations, due) && Locked(s, a, until)
    ensures ApplyRotations(rules, s, height, due).Success?
    ensures Locked(ApplyRotations(rules, s, height, due).value, a, until)
    decreases |due|
  {
    hide Inv, ApplyRotation;
    if due != [] {
      RotationApplies(rules, s, height, due[0]);
      LockedRotation(rules, s, height, due[0], a, until);
      var s1 := ApplyRotation(rules, s, height, due[0]).value;
      forall i | 0 <= i < |due[1..]|
          ensures due[1..][i].slotId in s1.rotations && s1.rotations[due[1..][i].slotId] == due[1..][i] {
        assert due[1..][i] == due[i + 1];
      }
      LockedRotations(rules, s1, height, due[1..], a, until);
    }
  }

  lemma LockedBlockEnd(rules: Rules, s: Store, height: int64, a: string, until: int64)
    requires Inv(rules, s, height) && Locked(s, a, until)
    ensures EndBlock.Run(rules, s, height).Success? && Locked(EndBlock.Run(rules, s, height).value.0, a, until)
  {
    hide Inv, DueRotations, DiffAndPersist, Updates, IsActiveSet, KeyedByAddress, IsDue;
    DueAreStaged(rules, s, height);
    var due := DueRotations(s.rotations, height);
    RotationsApply(rules, s, height, due);
    LockedRotations(rules, s, height, due, a, until);
    DiffSucceeds(rules, ApplyRotations(rules, s, height, due).value, height);
  }

  /** A reserved free key is held by nobody at any height below the reservation's end. */
  lemma {:induction false} KeyStaysLocked(rules: Rules, c: Chain, steps: seq<Step>, a: string, until: int64)
    requires Good(rules, c) && Locked(c.store, a, until) && Continues(rules, c, steps)
    requires c.height + Blocks(steps) < until
    ensures Play(rules, c, steps).Some?
    ensures Locked(Play(rules, c, steps).value.store, a, until)
    ensures Unheld(rules, Play(rules, c, steps).value.store, a)
    decreases |steps|
  {
    hide Inv, EndBlock.Run, Deliver, AcceptableUpdates, Unheld, Bearable;
    ContinuesPlays(rules, c, steps);
    PlayedGood(rules, c, steps);
    if steps != [] {
      var front := steps[..|steps| - 1];
      ContinuesFront(rules, c, steps);
      KeyStaysLocked(rules, c, front, a, until);
      PlayedGood(rules, c, front);
      var c' := Play(rules, c, front).value;
      match steps[|steps| - 1]
      case Tx(msg) => LockedMessage(rules, c'.store, c'.height, msg, a, until);
      case End => LockedBlockEnd(rules, c'.store, c'.height, a, until);
    }
    var last := Play(rules, c, steps).value;
    FreeIsUnheld(rules, last.store, last.height, a);
  }

  /** The lockout is the configured one exactly when the sum fits; otherwise it has already passed. */
  lemma LockoutSum(height: int64, lockout: uint64)
    requires height >= 1
    ensures height + lockout <= MAX_INT64 ==> ReservedUntil(height, lockout) == height + lockout
    ensures height + lockout > MAX_INT64 ==> ReservedUntil(height, lockout) < height
  {
  }

  /** Removing a slot locks its key until the reservation's end. */
  lemma RemovalLocks(rules: Rules, s: Store, height: int64, authority: string, id: uint64, reason: string)
    requires Inv(rules, s, height) && Remove(rules, s, height, authority, id, reason).Success?
    ensures id in s.slots
    ensures Locked(Remove(rules, s, height, authority, id, reason).value, Address(rules, s.slots[id].key),
                   ReservedUntil(height, s.params.reuseLockout))
  {
    hide Inv, ReservedUntil, Leave, Frames, FramesPolicies;
  }

  /** Replacing the key of a slot that is not ACTIVE locks the old one at once. */
  lemma IdleRotationLocks(rules: Rules, s: Store, height: int64, authority: string, id: uint64, key: PubKey)
    requires Inv(rules, s, height) && Rotate(rules, s, height, authority, id, key).Success?
    requires s.slots[id].status != Active
    ensures Locked(Rotate(rules, s, height, authority, id, key).value, Address(rules, s.slots[id].key),
                   ReservedUntil(height, s.params.reuseLockout))
  {
    hide SlotRows, ActiveIndex, OperatorIndex, ConsensusIndex, RotationRows, Histories, KeyedByAddress, Bounds,
      MostSlots, ReservedUntil;
    SlotFacts(rules, s, height, id);
  }

  /** Applying a due rotation at a block's end locks the old key. */
  lemma {:induction false} DueRotationLocks(rules: Rules, s: Store, height: int64, due: seq<Rotation>, i: nat)
    requires Inv(rules, s, height) && Staged(s.rotations, due) && i < |due|
    ensures ApplyRotations(rules, s, height, due).Success?
    ensures Locked(ApplyRotations(rules, s, height, due).value, Address(rules, due[i].oldKey),
                   ReservedUntil(height, s.params.reuseLockout))
    decreases |due|
  {
    hide Inv;
    RotationApplies(rules, s, height, due[0]);
    var s1 := ApplyRotation(rules, s, height, due[0]).value;
    forall j | 0 <= j < |due[1..]|
        ensures due[1..][j].slotId in s1.rotations && s1.rotations[due[1..][j].slotId] == due[1..][j] {
      assert due[1..][j] == due[j + 1];
    }
    if i == 0 {
      RotationFacts(rules, s, height, due[0].slotId);
      LockedRotations(rules, s1, height, due[1..], Address(rules, due[0].oldKey),
          ReservedUntil(height, s.params.reuseLockout));
    } else {
      assert due[1..][i - 1] == due[i];
      DueRotationLocks(rules, s1, height, due[1..], i - 1);
    }
  }

  lemma BlockEndLocks(rules: Rules, s: Store, height: int64, id: uint64)
    requires Inv(rules, s, height) && id in s.rotations && s.rotations[id].effective <= height
    ensures EndBlock.Run(rules, s, height).Success?
    ensures Locked(EndBlock.Run(rules, s, height).value.0, Address(rules, s.rotations[id].oldKey),
                   ReservedUntil(height, s.params.reuseLockout))
  {
    hide Inv, DueRotations, DiffAndPersist, Updates, IsActiveSet, KeyedByAddress;
    DueAreStaged(rules, s, height);
    var due := DueRotations(s.rotations, height);
    var i :| 0 <= i < |due| && due[i].slotId == id;
    DueRotationLocks(rules, s, height, due, i);
    RotationsApply(rules, s, height, due);
    DiffSucceeds(rules, ApplyRotations(rules, s, height, due).value, height);
  }

  /** A locked key may be used again exactly from the reservation's end on. */
  lemma LockedKeyAvailability(rules: Rules, s: Store, height: int64, key: PubKey, until: int64)
    requires ConsensusKey(rules, key).Success? && Locked(s, Address(rules, key), until)
    ensures EnsureConsensusAvailable(rules, s, height, key).Success? <==> until <= height
  {
  }

  /** A lockout that began at `height` is over: it has run its length, or its end wrapped around. */
  predicate LockoutOver(height: int64, lockout: uint64, now: int64) {
    lockout <= now - height || height + lockout > MAX_INT64
  }

  /** A key locked at `height` may be used again exactly when the lockout is over. */
  lemma LockoutEnds(rules: Rules, s: Store, height: int64, lockout: uint64, key: PubKey, now: int64)
    requires 1 <= height <= now && ConsensusKey(rules, key).Success?
    requires Locked(s, Address(rules, key), ReservedUntil(height, lockout))
    ensures EnsureConsensusAvailable(rules, s, now, key).Success? <==> LockoutOver(height, lockout, now)
  {
    hide ReservedUntil, ConsensusKey, EnsureConsensusAvailable;
    LockedKeyAvailability(rules, s, now, key, ReservedUntil(height, lockout));
    LockoutSum(height, lockout);
  }

  /** After a removal nobody can take the key until the lockout is over, and from then on anybody can. */
  lemma LockoutHolds(rules: Rules, s: Store, height: int64, authority: string, id: uint64, reason: string, now: int64)
    requires Inv(rules, s, height) && Remove(rules, s, height, authority, id, reason).Success? && height <= now
    ensures id in s.slots
    ensures var after := Remove(rules, s, height, authority, id, reason).value;
            EnsureConsensusAvailable(rules, after, now, s.slots[id].key).Success? <==>
              LockoutOver(height, s.params.reuseLockout, now)
  {
    hide Inv, Remove, EnsureConsensusAvailable, ReservedUntil, Locked;
    PositiveHeight(rules, s, height);
    RemovalLocks(rules, s, height, authority, id, reason);
    SlotFacts(rules, s, height, id);
    LockoutEnds(rules, Remove(rules, s, height, authority, id, reason).value, height, s.params.reuseLockout,
                s.slots[id].key, now);
  }

  /** The same of the key an immediate rotation replaced. */
  lemma IdleLockoutHolds(rules: Rules, s: Store, height: int64, authority: string, id: uint64, key: PubKey, now: int64)
    requires Inv(rules, s, height) && Rotate(rules, s, height, authority, id, key).Success? && height <= now
    requires id in s.slots && s.slots[id].status != Active
    ensures var after := Rotate(rules, s, height, authority, id, key).value;
            EnsureConsensusAvailable(rules, after, now, s.slots[id].key).Success? <==>
              LockoutOver(height, s.params.reuseLockout, now)
  {
    hide Inv, Rotate, EnsureConsensusAvailable, ReservedUntil, Locked;
    PositiveHeight(rules, s, height);
    IdleRotationLocks(rules, s, height, authority, id, key);
    SlotFacts(rules, s, height, id);
    LockoutEnds(rules, Rotate(rules, s, height, authority, id, key).value, height, s.params.reuseLockout,
                s.slots[id].key, now);
  }

  /** The same of the key a due rotation replaced at its block's end. */
  lemma DueLockoutHolds(rules: Rules, s: Store, height: int64, id: uint64, now: int64)
    requires Inv(rules, s, height) && id in s.rotations && s.rotations[id].effective <= height <= now
    ensures EndBlock.Run(rules, s, height).Success? && id in s.slots
    ensures var after := EndBlock.Run(rules, s, height).value.0;
            EnsureConsensusAvailable(rules, after, now, s.slots[id].key).Success? <==>
              LockoutOver(height, s.params.reuseLockout, now)
  {
    hide Inv, EndBlock.Run, EnsureConsensusAvailable, ReservedUntil, Locked;
    PositiveHeight(rules, s, height);
    BlockEndLocks(rules, s, height, id);
    RotationFacts(rules, s, height, id);
    SlotFacts(rules, s, height, id);
    LockoutEnds(rules, EndBlock.Run(rules, s, height).value.0, height, s.params.reuseLockout, s.slots[id].key, now);
  }

  lemma PositiveHeight(rules: Rules, s: Store, height: int64)
    requires Inv(rules, s, height)
    ensures height >= 1
  {
  }

  /**
   A removed slot's key is nobody's at any height below the removal's plus the lockout then
   in force, in any run, whatever else happens.
   */
  lemma RemovedKeyIsLocked(rules: Rules, c: Chain, authority: string, id: uint64, reason: string, steps: seq<Step>)
    requires Good(rules, c) && Remove(rules, c.store, c.height, authority, id, reason).Success?
    requires Continues(rules, c, [Tx(RemoveCoreSlot(authority, id, reason))] + steps)
    requires c.height + c.store.params.reuseLockout <= MAX_INT64 && Blocks(steps) < c.store.params.reuseLockout
    ensures id in c.store.slots
    ensures var end := Play(rules, c, [Tx(RemoveCoreSlot(authority, id, reason))] + steps);
            end.Some? && Unheld(rules, end.value.store, Address(rules, c.store.slots[id].key))
  {
    hide Good, Remove, Locked, Unheld, Play, Address, ReservedUntil, Continues;
    var msg := RemoveCoreSlot(authority, id, reason);
    FirstMessage(rules, c, msg, steps);
    GoodStore(rules, c);
    RemovalLocks(rules, c.store, c.height, authority, id, reason);
    LockoutSum(c.height, c.store.params.reuseLockout);
    KeyStaysLocked(rules, Delivered(rules, c, msg), steps, Address(rules, c.store.slots[id].key),
                   ReservedUntil(c.height, c.store.params.reuseLockout));
  }

  /** The same for the old key of a slot that was not ACTIVE when its key was replaced. */
  lemma IdleKeyIsLocked(rules: Rules, c: Chain, authority: string, id: uint64, key: PubKey, steps: seq<Step>)
    requires Good(rules, c) && Rotate(rules, c.store, c.height, authority, id, key).Success?
    requires id in c.store.slots && c.store.slots[id].status != Active
    requires Continues(rules, c, [Tx(RotateConsensusKey(authority, id, key))] + steps)
    requires c.height + c.store.params.reuseLockout <= MAX_INT64 && Blocks(steps) < c.store.params.reuseLockout
    ensures var end := Play(rules, c, [Tx(RotateConsensusKey(authority, id, key))] + steps);
            end.Some? && Unheld(rules, end.value.store, Address(rules, c.store.slots[id].key))
  {
    hide Good, Rotate, Locked, Unheld, Play, Address, ReservedUntil, Continues;
    var msg := RotateConsensusKey(authority, id, key);
    FirstMessage(rules, c, msg, steps);
    GoodStore(rules, c);
    IdleRotationLocks(rules, c.store, c.height, authority, id, key);
    LockoutSum(c.height, c.store.params.reuseLockout);
    KeyStaysLocked(rules, Delivered(rules, c, msg), steps, Address(rules, c.store.slots[id].key),
                   ReservedUntil(c.height, c.store.params.reuseLockout));
  }

  /** The same for the old key of a rotation applied at a block's end. */
  lemma RotatedKeyIsLocked(rules: Rules, c: Chain, id: uint64, steps: seq<Step>)
    requires Good(rules, c) && id in c.store.rotations && c.store.rotations[id].effective <= c.height
    requires Continues(rules, c, [End] + steps)
    requires c.height + c.store.params.reuseLockout <= MAX_INT64 && 1 + Blocks(steps) < c.store.params.reuseLockout
    ensures var end := Play(rules, c, [End] + steps);
            end.Some? && Unheld(rules, end.value.store, Address(rules, c.store.rotations[id].oldKey))
  {
    hide Good, Locked, Unheld, AcceptableUpdates, Play, EndBlock.Run, Apply, Address, ReservedUntil, Continues;
    ContinuesPlays(rules, c, [End] + steps);
    FirstStep(rules, c, End, steps);
    var after := Apply(rules, c, End).value;
    StepGood(rules, c, End);
    ContinuesPlays(rules, after, steps);
    GoodStore(rules, c);
    BlockEndLocks(rules, c.store, c.height, id);
    LockoutSum(c.height, c.store.params.reuseLockout);
    EndStores(rules, c);
    var until := ReservedUntil(c.height, c.store.params.reuseLockout);
    KeyStaysLocked(rules, after, steps, Address(rules, c.store.rotations[id].oldKey), until);
  }

  /** A run that starts with a message continues from the delivered store. */
  lemma FirstMessage(rules: Rules, c: Chain, msg: Msg, rest: seq<Step>)
    requires Good(rules, c) && Continues(rules, c, [Tx(msg)] + rest)
    ensures Good(rules, Delivered(rules, c, msg)) && Continues(rules, Delivered(rules, c, msg), rest)
    ensures Play(rules, c, [Tx(msg)]) == Some(Delivered(rules, c, msg))
    ensures Play(rules, Delivered(rules, c, msg), rest) == Play(rules, c, [Tx(msg)] + rest)
    ensures Play(rules, c, [Tx(msg)] + rest).Some?
  {
    hide Good, Deliver, Play, Continues;
    ContinuesPlays(rules, c, [Tx(msg)] + rest);
    FirstStep(rules, c, Tx(msg), rest);
    DeliveredGood(rules, c, msg);
    ContinuesPlays(rules, Delivered(rules, c, msg), rest);
  }

  /** The chain after one message. */
  ghost function Delivered(rules: Rules, c: Chain, msg: Msg): Chain {
    c.(store := Deliver(rules, c.store, c.height, msg))
  }

  lemma DeliveredGood(rules: Rules, c: Chain, msg: Msg)
    requires Good(rules, c)
    ensures Good(rules, Delivered(rules, c, msg))
  {
    hide Good, Deliver;
    StepGood(rules, c, Tx(msg));
  }

  lemma GoodStore(rules: Rules, c: Chain)
    requires Good(rules, c)
    ensures Inv(rules, c.store, c.height) && c.height >= 1
  {
  }

  lemma EndStores(rules: Rules, c: Chain)
    requires Apply(rules, c, End).Some?
    ensures c.height < MAX_INT64 && EndBlock.Run(rules, c.store, c.height).Success?
    ensures Apply(rules, c, End).value.store == EndBlock.Run(rules, c.store, c.height).value.0
    ensures Apply(rules, c, End).value.height == c.height + 1
  {
  }

  // ----- A free key nobody asks for -----

  /** An accepted registration or rotation that takes the address. */
  ghost predicate Takes(rules: Rules, s: Store, height: int64, msg: Msg, a: string) {
    && (msg.RegisterCoreSlot? || msg.RotateConsensusKey?) && ConsensusKey(rules, msg.key) == Success(a)
    && Handle(rules, s, height, msg).Success?
  }

  /** Step `n` of the run takes the address. */
  ghost predicate TakenAt(rules: Rules, c: Chain, steps: seq<Step>, a: string, n: nat) {
    && n < |steps| && steps[n].Tx? && Play(rules, c, steps[..n]).Some?
    && var c' := Play(rules, c, steps[..n]).value; Takes(rules, c'.store, c'.height, steps[n].msg, a)
  }

  lemma FreeRegister(rules: Rules, s: Store, height: int64, msg: Msg, a: string)
    requires msg.RegisterCoreSlot? && a !in s.byConsensus && !Takes(rules, s, height, msg, a)
    ensures a !in Deliver(rules, s, height, msg).byConsensus
  {
    hide ValidMetadata, ValidPolicyValues, NewSlot, NewRewardWeight, Inner, ConsensusKey, Frames;
  }

  lemma FreeRotate(rules: Rules, s: Store, height: int64, msg: Msg, a: string)
    requires msg.RotateConsensusKey? && a !in s.byConsensus && !Takes(rules, s, height, msg, a)
    ensures a !in Deliver(rules, s, height, msg).byConsensus
  {
    hide ConsensusKey, ReservedUntil, Frames, FramesPolicies;
  }

  lemma FreeLeave(rules: Rules, s: Store, slot: CoreSlot, a: string)
    requires a !in s.byConsensus && Leave(rules, s, slot).Success?
    ensures a !in Leave(rules, s, slot).value.byConsensus
  {
    hide ConsensusKey, Frames, FramesPolicies;
  }

  lemma FreeMessage(rules: Rules, s: Store, height: int64, msg: Msg, a: string)
    requires Inv(rules, s, height) && a !in s.byConsensus && !Takes(rules, s, height, msg, a)
    ensures a !in Deliver(rules, s, height, msg).byConsensus
  {
    hide Inv, Register, Rotate, UpdatePolicy, Leave, ReservedUntil, ConsensusKey, Frames, FramesPolicies;
    match msg
    case RegisterCoreSlot(_, _, _, _, _, _, _) => FreeRegister(rules, s, height, msg, a);
    case RotateConsensusKey(_, _, _) => FreeRotate(rules, s, height, msg, a);
    case InactivateCoreSlot(caller, id) =>
      if Inactivate(rules, s, height, caller, id).Success? {
        FreeLeave(rules, s, s.slots[id].(status := Inactive, power := 0, updatedHeight := height), a);
      }
    case SuspendCoreSlot(authority, id) =>
      if Suspend(rules, s, height, authority, id).Success? {
        FreeLeave(rules, s, s.slots[id].(status := Suspended, power := 0, suspendedHeight := height,
                                         updatedHeight := height), a);
      }
    case RemoveCoreSlot(authority, id, reason) =>
      if Remove(rules, s, height, authority, id, reason).Success? {
        FreeLeave(rules, s, s.slots[id].(status := Removed, power := 0, removedHeight := height,
                                         updatedHeight := height), a);
      }
    case UpdateSelectionPolicy(operator, id, rate, max) =>
      if UpdatePolicy(s, height, operator, id, rate, max).Success? {
        PolicyUpdateEffect(rules, s, height, operator, id, rate, max);
      }
    case _ => KeysUntouched(rules, s, height, msg);
  }

  lemma FreeDrop(rules: Rules, s: Store, r: Rotation, a: string)
    requires a !in s.byConsensus && DropStaleRotation(rules, s, r).Success?
    ensures a !in DropStaleRotation(rules, s, r).value.byConsensus
  {
    hide Frames, FramesPolicies, ConsensusKey;
  }

  lemma FreeRotation(rules: Rules, s: Store, height: int64, r: Rotation, a: string)
    requires a !in s.byConsensus && ApplyRotation(rules, s, height, r).Success?
    ensures a !in ApplyRotation(rules, s, height, r).value.byConsensus
  {
    hide ReservedUntil, Frames, FramesPolicies, ConsensusKey, DropStaleRotation;
    if DropStaleRotation(rules, s, r).Success? { FreeDrop(rules, s, r, a); }
  }

  lemma {:induction false} FreeRotations(rules: Rules, s: Store, height: int64, due: seq<Rotation>, a: string)
    requires a !in s.byConsensus && ApplyRotations(rules, s, height, due).Success?
    ensures a !in ApplyRotations(rules, s, height, due).value.byConsensus
    decreases |due|
  {
    hide Frames, FramesPolicies, ApplyRotation;
    if due != [] {
      FreeRotation(rules, s, height, due[0], a);
      FreeRotations(rules, ApplyRotation(rules, s, height, due[0]).value, height, due[1..], a);
    }
  }

  lemma FreeBlockEnd(rules: Rules, s: Store, height: int64, a: string)
    requires a !in s.byConsensus && EndBlock.Run(rules, s, height).Success?
    ensures a !in EndBlock.Run(rules, s, height).value.0.byConsensus
  {
    hide DueRotations, ApplyRotations, Updates;
    var due := DueRotations(s.rotations, height);
    FreeRotations(rules, s, height, due, a);
  }

  lemma UnheldIsNoValidator(rules: Rules, s: Store, vals: map<string, int64>, a: string)
    requires IsActiveSet(rules, s.slots, vals) && Unheld(rules, s, a)
    ensures a !in vals
  {
  }

  /**
   A free key that no accepted message takes stays in nobody's hands. It is in no validator
   set after the next block's end, nor before it unless it was in the one at the start.
   */
  lemma {:induction false} KeyStaysFree(rules: Rules, c: Chain, steps: seq<Step>, a: string)
    requires Good(rules, c) && a !in c.store.byConsensus && Continues(rules, c, steps)
    requires forall n :: 0 <= n < |steps| ==> !TakenAt(rules, c, steps, a, n)
    ensures Play(rules, c, steps).Some?
    ensures var c' := Play(rules, c, steps).value;
            && a !in c'.store.byConsensus && Unheld(rules, c'.store, a)
            && (a in c'.validators ==> a in c.validators && Blocks(steps) == 0)
    decreases |steps|
  {
    hide Inv, EndBlock.Run, Deliver, AcceptableUpdates, Unheld, Bearable, Takes, ApplyUpdates, IsActiveSet;
    ContinuesPlays(rules, c, steps);
    PlayedGood(rules, c, steps);
    var last := Play(rules, c, steps).value;
    if steps != [] {
      var front := steps[..|steps| - 1];
      forall n | 0 <= n < |front| ensures !TakenAt(rules, c, front, a, n) {
        assert front[..n] == steps[..n] && front[n] == steps[n];
        assert !TakenAt(rules, c, steps, a, n);
      }
      ContinuesFront(rules, c, steps);
      KeyStaysFree(rules, c, front, a);
      PlayedGood(rules, c, front);
      var c' := Play(rules, c, front).value;
      match steps[|steps| - 1]
      case Tx(msg) =>
        assert !TakenAt(rules, c, steps, a, |front|);
        FreeMessage(rules, c'.store, c'.height, msg, a);
      case End =>
        FreeBlockEnd(rules, c'.store, c'.height, a);
        FreeIsUnheld(rules, last.store, last.height, a);
        UnheldIsNoValidator(rules, last.store, last.validators, a);
    }
    FreeIsUnheld(rules, last.store, last.height, a);
  }
}
