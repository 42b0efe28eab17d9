/**
 x/coreslot/keeper/endblock.go: which rotations are due, and the computation between the
 ACTIVE slots and the update list. Go ranges over its maps in an order of its own choosing, so these
 loops pick any remaining key; the theorem is that the choice does not show.
 */
module ValidatorDiff {
  import opened Machine
  import opened Ordering
  import opened CoreSlotTypes
  import opened EndBlock
  import opened Walks

  // ----- Due rotations -----

  /** Every row is stored under the slot it names. */
  ghost predicate RotationsKeyed(rotations: map<uint64, Rotation>) {
    forall id: uint64 :: id in rotations ==> rotations[id].slotId == id
  }

  /** The ids of `ids` whose rotation is due, in the same order. */
  function DueAmong(rotations: map<uint64, Rotation>, height: int64, ids: seq<uint64>): seq<uint64> {
    if ids == [] then []
    else
      var id := ids[|ids| - 1];
      var earlier := DueAmong(rotations, height, ids[..|ids| - 1]);
      if id in rotations && rotations[id].effective <= height then earlier + [id] else earlier
  }

  lemma {:induction false} DueAmongMeans(rotations: map<uint64, Rotation>, height: int64, ids: seq<uint64>)
    requires AscendingInts(ids)
    ensures AscendingInts(DueAmong(rotations, height, ids))
    ensures forall id: uint64 :: id in DueAmong(rotations, height, ids) <==>
                                 id in ids && id in rotations && rotations[id].effective <= height
    decreases |ids|
  {
    if ids != [] {
      var n := |ids| - 1;
      var front := ids[..n];
      DueAmongMeans(rotations, height, front);
      assert ids == front + [ids[n]];
      var earlier := DueAmong(rotations, height, front);
      forall i | 0 <= i < |earlier| ensures earlier[i] < ids[n] {
        assert earlier[i] in front;
        var j :| 0 <= j < n && front[j] == earlier[i];
      }
    }
  }

  ghost predicate RowsAt(rotations: map<uint64, Rotation>, ids: seq<uint64>, rs: seq<Rotation>) {
    |ids| == |rs| && forall k :: 0 <= k < |ids| ==> ids[k] in rotations && rs[k] == rotations[ids[k]]
  }

  /** One more id walked. */
  lemma DueAmongNext(rotations: map<uint64, Rotation>, height: int64, ids: seq<uint64>, n: nat, walked: seq<Rotation>)
    requires n < |ids| && ids[n] in rotations
    requires RowsAt(rotations, DueAmong(rotations, height, ids[..n]), walked)
    ensures RowsAt(rotations, DueAmong(rotations, height, ids[..n + 1]),
                   if rotations[ids[n]].effective <= height then walked + [rotations[ids[n]]] else walked)
  {
    assert ids[..n + 1][..n] == ids[..n];
  }

  /** Exactly the due rotations, by the slot each one names. */
  ghost predicate DueInOrder(rotations: map<uint64, Rotation>, height: int64, due: seq<Rotation>) {
    multiset(due) == multiset(DueRotations(rotations, height)) && SlotOrder(due)
  }

  /**
   The rotations due now: walked in key order, then sorted by slot. If every one is stored
   under its own slot there is one such list.
   */
  method CollectDue(rotations: map<uint64, Rotation>, height: int64) returns (due: seq<Rotation>)
    ensures DueInOrder(rotations, height, due)
    ensures RotationsKeyed(rotations) ==> due == DueRotations(rotations, height)
  {
    hide SlotOrder, RowsAt, AscendingIds, DueRotations;
    var ids := VisitIds(rotations.Keys);
    var walked: seq<Rotation> := [];
    assert RowsAt(rotations, DueAmong(rotations, height, ids[..0]), walked) by { NoneDue(rotations, height); }
    hide DueAmong;
    for i := 0 to |ids|
      invariant RowsAt(rotations, DueAmong(rotations, height, ids[..i]), walked)
    {
      assert ids[i] in ids;
      DueAmongNext(rotations, height, ids, i, walked);
      var rotation := rotations[ids[i]];
      if rotation.effective <= height { walked := walked + [rotation]; }
    }
    assert ids[..|ids|] == ids;
    due := SortBySlot(walked);
    WalkedIsDue(rotations, height, walked);
  }

  lemma NoneDue(rotations: map<uint64, Rotation>, height: int64)
    ensures RowsAt(rotations, DueAmong(rotations, height, []), [])
  {
  }

  lemma WalkedIsDue(rotations: map<uint64, Rotation>, height: int64, walked: seq<Rotation>)
    requires RowsAt(rotations, DueAmong(rotations, height, AscendingIds(rotations.Keys)), walked)
    ensures walked == DueRotations(rotations, height)
    ensures RotationsKeyed(rotations) ==> SlotOrder(walked)
  {
    hide AscendingIds, DueAmong;
    var ids := AscendingIds(rotations.Keys);
    var chosen := DueAmong(rotations, height, ids);
    DueAmongMeans(rotations, height, ids);
    AscendingIdsUnique(chosen, AscendingIds(DueIds(rotations, height)));
  }

  // ----- The difference -----

  /** The rows the index names, one after the other; a missing or inactive one refuses. */
  method LoadRows(slots: map<uint64, CoreSlot>, ids: seq<uint64>) returns (r: Result<seq<CoreSlot>>)
    ensures r == LoadActive(slots, ids)
  {
    var rows: seq<CoreSlot> := [];
    for i := 0 to |ids|
      invariant LoadActive(slots, ids[..i]) == Success(rows)
    {
      assert ids[..i + 1][..i] == ids[..i];
      var id := ids[i];
      if id !in slots {
        LoadFails(slots, ids, i + 1);
        return Failure(InvalidGenesis);
      }
      if slots[id].status != Active {
        LoadFails(slots, ids, i + 1);
        return Failure(InvalidTransition);
      }
      rows := rows + [slots[id]];
    }
    assert ids[..|ids|] == ids;
    return Success(rows);
  }

  /** The desired set, slot by slot, refusing a repeated address. */
  method DesiredValidators(rules: Rules, active: seq<CoreSlot>) returns (r: Result<map<string, Validator>>)
    ensures r == Desired(rules, active)
  {
    hide ConsensusKey;
    var desired: map<string, Validator> := map[];
    for i := 0 to |active|
      invariant Desired(rules, active[..i]) == Success(desired)
    {
      assert active[..i + 1][..i] == active[..i];
      var slot := active[i];
      var key := ConsensusKey(rules, slot.key);
      if key.Failure? {
        DesiredFails(rules, active, i + 1);
        return Failure(key.error);
      }
      if key.value in desired {
        DesiredFails(rules, active, i + 1);
        return Failure(DuplicateConsensusKey);
      }
      desired := desired[key.value := Validator(slot.slotId, slot.key, slot.power)];
    }
    assert active[..|active|] == active;
    return Success(desired);
  }

  lemma {:induction false} DesiredFails(rules: Rules, active: seq<CoreSlot>, n: nat)
    requires n <= |active| && Desired(rules, active[..n]).Failure?
    ensures Desired(rules, active) == Failure(Desired(rules, active[..n]).error)
    decreases |active|
  {
    if n == |active| {
      assert active[..n] == active;
    } else {
      assert active[..|active| - 1][..n] == active[..n];
      DesiredFails(rules, active[..|active| - 1], n);
    }
  }

  ghost predicate KeysDecode(rules: Rules, desired: map<string, Validator>) {
    forall a :: a in desired ==> ConsensusKey(rules, desired[a].key) == Success(a)
  }

  lemma {:induction false} DesiredDecodes(rules: Rules, active: seq<CoreSlot>)
    requires Desired(rules, active).Success?
    ensures KeysDecode(rules, Desired(rules, active).value)
    decreases |active|
  {
    hide ConsensusKey;
    if active != [] { DesiredDecodes(rules, active[..|active| - 1]); }
  }

  /** `us` holds exactly the updates of the changed addresses among `done`, each once. */
  ghost predicate Gathered(last: map<string, Validator>, desired: map<string, Validator>, done: set<string>,
      us: seq<Keyed>) {
    && (forall i :: 0 <= i < |us| ==> us[i].key in done && UpdateFor(last, desired, us[i].key) == Some(us[i].update))
    && (forall i, j :: 0 <= i < j < |us| ==> us[i].key != us[j].key)
    && (forall a :: a in done && UpdateFor(last, desired, a).Some? ==> KeyedIn(us, a))
  }

  ghost predicate KeyedIn(us: seq<Keyed>, a: string) {
    exists i :: 0 <= i < |us| && us[i].key == a
  }

  lemma GatherOne(last: map<string, Validator>, desired: map<string, Validator>, done: set<string>, us: seq<Keyed>,
      a: string)
    requires Gathered(last, desired, done, us) && a !in done
    ensures match UpdateFor(last, desired, a)
            case None => Gathered(last, desired, done + {a}, us)
            case Some(u) => Gathered(last, desired, done + {a}, us + [Keyed(a, u)])
  {
    hide UpdateFor;
    match UpdateFor(last, desired, a)
    case None =>
    case Some(u) =>
      var us' := us + [Keyed(a, u)];
      assert us'[|us|].key == a;
      forall b | b in done && UpdateFor(last, desired, b).Some? ensures KeyedIn(us', b) {
        assert KeyedIn(us, b);
        var i :| 0 <= i < |us| && us[i].key == b;
        assert us'[i].key == b;
      }
  }

  /** One update per changed address, in whatever order the addresses come. */
  method GatherUpdates(rules: Rules, last: map<string, Validator>, desired: map<string, Validator>)
        returns (r: Result<seq<Keyed>>)
    requires KeysDecode(rules, desired)
    ensures r.Success? <==> Decodable(rules, last, desired)
    ensures match r
            case Failure(e) => e == InvalidPubKey
            case Success(us) => Gathered(last, desired, last.Keys + desired.Keys, us)
  {
    hide Gathered, UpdateFor, ConsensusKey;
    var us: seq<Keyed> := [];
    var keys := last.Keys + desired.Keys;
    ghost var all := keys;
    NothingGathered(last, desired);
    assert all - keys == {};
    while keys != {}
      invariant keys <= all
      invariant Gathered(last, desired, all - keys, us)
      invariant forall a :: a in last && a !in desired && a !in keys ==> ConsensusKey(rules, last[a].key).Success?
      decreases |keys|
    {
      var key :| key in keys;
      GatherOne(last, desired, all - keys, us, key);
      OneLess(all, keys, key);
      keys := keys - {key};
      var keyed :- UpdateOf(rules, last, desired, key);
      if keyed.Some? { us := us + [keyed.value]; }
    }
    assert all - keys == all;
    return Success(us);
  }

  lemma OneLess<T>(all: set<T>, rest: set<T>, key: T)
    requires rest <= all && key in rest
    ensures all - (rest - {key}) == (all - rest) + {key}
  {
  }

  /** The update one address calls for, if any; a leaving validator's key must still decode. */
  method UpdateOf(rules: Rules, last: map<string, Validator>, desired: map<string, Validator>, key: string)
    returns (r: Result<Option<Keyed>>)
    requires KeysDecode(rules, desired) && (key in last || key in desired)
    ensures match r
            case Failure(e) => e == InvalidPubKey && key in last && key !in desired
                && ConsensusKey(rules, last[key].key).Failure?
            case Success(None) => UpdateFor(last, desired, key).None?
            case Success(Some(keyed)) => keyed.key == key && UpdateFor(last, desired, key) == Some(keyed.update)
    ensures r.Success? && key in last && key !in desired ==> ConsensusKey(rules, last[key].key).Success?
  {
    if key in desired && key in last && desired[key].power == last[key].power { return Success(None); }
    if key in desired {
      var added := ConsensusKey(rules, desired[key].key);
      assert added.Success?;
      return Success(Some(Keyed(key, Update(desired[key].key, desired[key].power))));
    }
    var removed := ConsensusKey(rules, last[key].key);
    if removed.Failure? { return Failure(InvalidPubKey); }
    return Success(Some(Keyed(key, Update(last[key].key, 0))));
  }

  lemma NothingGathered(last: map<string, Validator>, desired: map<string, Validator>)
    ensures Gathered(last, desired, {}, [])
  {
  }

  /** Sorting keeps what was gathered. */
  lemma GatheredAgain(last: map<string, Validator>, desired: map<string, Validator>, done: set<string>,
      us: seq<Keyed>, vs: seq<Keyed>)
    requires Gathered(last, desired, done, us) && multiset(us) == multiset(vs)
    ensures Gathered(last, desired, done, vs)
  {
    hide UpdateFor;
    forall i | 0 <= i < |vs| ensures vs[i].key in done && UpdateFor(last, desired, vs[i].key) == Some(vs[i].update) {
      assert vs[i] in multiset(us);
      var k :| 0 <= k < |us| && us[k] == vs[i];
    }
    forall a | a in done && UpdateFor(last, desired, a).Some? ensures KeyedIn(vs, a) {
      var k :| 0 <= k < |us| && us[k].key == a;
      assert us[k] in multiset(vs);
      var i :| 0 <= i < |vs| && vs[i] == us[k];
    }
    forall i, j | 0 <= i < j < |vs| ensures vs[i].key != vs[j].key {
      CountOnce(us, vs[i]);
      CountTwice(vs, i, j);
    }
  }

  lemma {:induction false} CountOnce(us: seq<Keyed>, u: Keyed)
    requires forall i, j :: 0 <= i < j < |us| ==> us[i].key != us[j].key
    ensures multiset(us)[u] <= 1
    decreases |us|
  {
    if us != [] {
      var n := |us| - 1;
      CountOnce(us[..n], u);
      assert us == us[..n] + [us[n]];
      forall i | 0 <= i < n ensures us[..n][i] != us[n] {}
      assert us[n] !in us[..n];
    }
  }

  lemma CountTwice(us: seq<Keyed>, i: nat, j: nat)
    requires i < j < |us|
    ensures us[i] == us[j] ==> multiset(us)[us[i]] >= 2
  {
    assert us == us[..i] + [us[i]] + us[i + 1..j] + [us[j]] + us[j + 1..];
  }

  /** The sorted, guarded and stripped list. */
  method SortedUpdates(last: map<string, Validator>, desired: map<string, Validator>, gathered: seq<Keyed>)
        returns (r: Result<seq<Update>>)
    requires Gathered(last, desired, last.Keys + desired.Keys, gathered)
    ensures r == Success(Updates(last, desired))
  {
    var keyed := SortByKey(gathered);
    GatheredAgain(last, desired, last.Keys + desired.Keys, gathered, keyed);
    var n := 1;
    while n < |keyed| {
      if keyed[n].key == keyed[n - 1].key { return Failure(DuplicateConsensusKey); }
      n := n + 1;
    }
    var us: seq<Update> := [];
    for i := 0 to |keyed|
      invariant |us| == i && forall k :: 0 <= k < i ==> us[k] == keyed[k].update
    {
      us := us + [keyed[i].update];
    }
    SortedIsUpdates(last, desired, keyed, us);
    return Success(us);
  }

  lemma SortedIsUpdates(last: map<string, Validator>, desired: map<string, Validator>, keyed: seq<Keyed>,
      us: seq<Update>)
    requires Gathered(last, desired, last.Keys + desired.Keys, keyed) && KeyOrder(keyed)
    requires |us| == |keyed| && forall k :: 0 <= k < |us| ==> us[k] == keyed[k].update
    ensures us == Updates(last, desired)
  {
    hide UpdateFor;
    var ks := seq(|keyed|, i requires 0 <= i < |keyed| => keyed[i].key);
    var changed := AscendingKeys(Changed(last, desired));
    forall a ensures a in ks <==> a in changed {
      if a in changed {
        assert KeyedIn(keyed, a);
        var i :| 0 <= i < |keyed| && keyed[i].key == a;
        assert ks[i] == a;
      }
      if a in ks { var i :| 0 <= i < |ks| && ks[i] == a; }
    }
    AscendingUnique(ks, changed);
  }

  /** The rows of `m` whose keys are not in `rest`. */
  function Without(m: map<string, Validator>, rest: set<string>): map<string, Validator> {
    map k | k in m && k !in rest :: m[k]
  }

  lemma WithoutEnds(m: map<string, Validator>)
    ensures Without(m, m.Keys) == map[] && Without(m, {}) == m
  {
  }

  lemma WithoutOneLess(m: map<string, Validator>, rest: set<string>, key: string)
    requires key in rest && key in m
    ensures Without(m, rest - {key}) == Without(m, rest)[key := m[key]]
  {
  }

  // ----- assertGenesisValidatorConsistency -----

  /** The index loads exactly when every indexed id has an ACTIVE record. */
  lemma ActiveLoads(s: Store)
    ensures LoadActive(s.slots, AscendingIds(s.active)).Success? <==>
              forall id: uint64 :: id in s.active ==> id in s.slots && s.slots[id].status == Active
    ensures LoadActive(s.slots, AscendingIds(s.active)).Success? ==>
              RowsOf(s.slots, AscendingIds(s.active), LoadActive(s.slots, AscendingIds(s.active)).value)
  {
    hide AscendingIds;
    LoadMeans(s.slots, AscendingIds(s.active));
    var ids := AscendingIds(s.active);
    forall id: uint64 | id in s.active ensures exists i :: 0 <= i < |ids| && ids[i] == id { assert id in ids; }
    forall i | 0 <= i < |ids| ensures ids[i] in s.active { assert ids[i] in ids; }
  }

  ghost predicate RowsOf(slots: map<uint64, CoreSlot>, ids: seq<uint64>, rows: seq<CoreSlot>) {
    |rows| == |ids| && forall i :: 0 <= i < |ids| ==> ids[i] in slots && rows[i] == slots[ids[i]]
  }

  lemma {:induction false} LoadMeans(slots: map<uint64, CoreSlot>, ids: seq<uint64>)
    ensures LoadActive(slots, ids).Success? <==>
              forall i :: 0 <= i < |ids| ==> ids[i] in slots && slots[ids[i]].status == Active
    ensures LoadActive(slots, ids).Success? ==> RowsOf(slots, ids, LoadActive(slots, ids).value)
    decreases |ids|
  {
    if ids != [] {
      var n := |ids| - 1;
      LoadMeans(slots, ids[..n]);
      assert forall i :: 0 <= i < n ==> ids[..n][i] == ids[i];
    }
  }

  /** The ids the indexed rows carry. */
  function NamedIds(s: Store): set<uint64> {
    set id | id in s.active && id in s.slots :: s.slots[id].slotId
  }

  method SlotIdsOf(ghost s: Store, rows: seq<CoreSlot>) returns (ids: set<uint64>)
    requires RowsOf(s.slots, AscendingIds(s.active), rows)
    ensures ids == NamedIds(s)
  {
    hide AscendingIds;
    ids := {};
    for i := 0 to |rows|
      invariant ids == set k | 0 <= k < i :: rows[k].slotId
    {
      ids := ids + {rows[i].slotId};
    }
    RowsNamed(s, rows);
  }

  lemma RowsNamed(s: Store, rows: seq<CoreSlot>)
    requires RowsOf(s.slots, AscendingIds(s.active), rows)
    ensures (set k | 0 <= k < |rows| :: rows[k].slotId) == NamedIds(s)
  {
    hide AscendingIds;
    var indexed := AscendingIds(s.active);
    forall id: uint64 | id in NamedIds(s) ensures exists k :: 0 <= k < |rows| && rows[k].slotId == id {
      var x :| x in s.active && x in s.slots && s.slots[x].slotId == id;
      assert x in indexed;
    }
    forall k | 0 <= k < |rows| ensures rows[k].slotId in NamedIds(s) {
      assert indexed[k] in indexed;
    }
  }

  /** The records walked so far agree with the index. */
  ghost predicate AgreeOn(slots: map<uint64, CoreSlot>, active: set<uint64>, ids: seq<uint64>) {
    forall i :: 0 <= i < |ids| ==> ids[i] in slots && (slots[ids[i]].status == Active <==> ids[i] in active)
  }

  /** The keys whose record is ACTIVE. */
  function ActiveKeys(slots: map<uint64, CoreSlot>): set<uint64> {
    set id | id in slots && slots[id].status == Active
  }

  /** How many of the ids are in the index. */
  function CountIn(active: set<uint64>, ids: seq<uint64>): nat {
    if ids == [] then 0
    else CountIn(active, ids[..|ids| - 1]) + if ids[|ids| - 1] in active then 1 else 0
  }

  function Found(active: set<uint64>, ids: seq<uint64>): set<uint64> {
    set id | id in active && id in ids
  }

  lemma FoundNext(active: set<uint64>, front: seq<uint64>, id: uint64)
    ensures Found(active, front + [id]) == if id in active then Found(active, front) + {id} else Found(active, front)
    ensures id in Found(active, front) ==> id in front
  {
  }

  lemma {:induction false} CountInMeans(active: set<uint64>, ids: seq<uint64>)
    requires AscendingInts(ids)
    ensures CountIn(active, ids) == |Found(active, ids)|
    decreases |ids|
  {
    hide Found;
    if ids == [] {
      NoneFound(active);
    } else {
      var n := |ids| - 1;
      CountInMeans(active, ids[..n]);
      NotYet(ids, n);
      assert ids == ids[..n] + [ids[n]];
      FoundNext(active, ids[..n], ids[n]);
    }
  }

  lemma NoneFound(active: set<uint64>)
    ensures Found(active, []) == {}
  {
  }

  lemma AgreeNext(slots: map<uint64, CoreSlot>, active: set<uint64>, ids: seq<uint64>, i: nat)
    requires i < |ids| && AgreeOn(slots, active, ids[..i]) && ids[i] in slots
    ensures AgreeOn(slots, active, ids[..i + 1]) <==> (slots[ids[i]].status == Active <==> ids[i] in active)
    ensures CountIn(active, ids[..i + 1]) == CountIn(active, ids[..i]) + if ids[i] in active then 1 else 0
  {
    assert ids[..i + 1][..i] == ids[..i] && ids[..i + 1][i] == ids[i];
    forall k | 0 <= k < i ensures ids[..i + 1][k] == ids[..i][k] {}
  }

  /** When every record agrees the index has the ACTIVE ones; whether it has more, the count tells. */
  lemma AgreeAll(slots: map<uint64, CoreSlot>, active: set<uint64>)
    requires AgreeOn(slots, active, AscendingIds(slots.Keys))
    ensures CountIn(active, AscendingIds(slots.Keys)) == |active| <==> active == ActiveKeys(slots)
  {
    hide AscendingIds;
    var ids := AscendingIds(slots.Keys);
    CountInMeans(active, ids);
    forall id: uint64 | id in slots ensures slots[id].status == Active <==> id in active {
      assert id in ids;
      var i :| 0 <= i < |ids| && ids[i] == id;
    }
    assert Found(active, ids) == ActiveKeys(slots) <= active;
    if |ActiveKeys(slots)| == |active| { SubsetOfSameSize(ActiveKeys(slots), active); }
  }

  lemma Disagrees(slots: map<uint64, CoreSlot>, active: set<uint64>, id: uint64)
    requires id in slots && (slots[id].status == Active) != (id in active)
    ensures active != ActiveKeys(slots)
  {
    assert (id in ActiveKeys(slots)) != (id in active);
  }

  /** Every stored slot is walked, independently of the index. */
  method RecordsAgree(slots: map<uint64, CoreSlot>, active: set<uint64>) returns (ok: bool)
    ensures ok <==> active == ActiveKeys(slots)
  {
    hide AscendingIds, AgreeOn, ActiveKeys, CountIn;
    var ids := VisitIds(slots.Keys);
    var count := 0;
    NoneAgree(slots, active);
    assert ids[..0] == [];
    for i := 0 to |ids|
      invariant AgreeOn(slots, active, ids[..i]) && count == CountIn(active, ids[..i])
    {
      assert ids[i] in ids;
      AgreeNext(slots, active, ids, i);
      if (slots[ids[i]].status == Active) != (ids[i] in active) {
        Disagrees(slots, active, ids[i]);
        return false;
      }
      if slots[ids[i]].status == Active { count := count + 1; }
    }
    assert ids[..|ids|] == ids;
    AgreeAll(slots, active);
    ok := count == |active|;
  }

  lemma NoneAgree(slots: map<uint64, CoreSlot>, active: set<uint64>)
    ensures AgreeOn(slots, active, []) && CountIn(active, []) == 0
  {
  }

  lemma SubsetOfSameSize<T>(a: set<T>, b: set<T>)
    requires a <= b && |a| == |b|
    ensures a == b
  {
    assert |b - a| == 0;
  }

  lemma NotYet(ids: seq<uint64>, i: nat)
    requires AscendingInts(ids) && i < |ids|
    ensures ids[i] !in ids[..i]
  {
  }

  function SlotsOf(m: map<string, Validator>, ks: set<string>): set<uint64>
  {
    set k | k in ks && k in m :: m[k].slotId
  }

  lemma {:induction false} ImageSize(m: map<string, Validator>, ks: set<string>)
    ensures |SlotsOf(m, ks)| <= |ks|
    decreases |ks|
  {
    if ks == {} {
      assert SlotsOf(m, ks) == {};
    } else {
      var k :| k in ks;
      ImageSize(m, ks - {k});
      var rest := SlotsOf(m, ks - {k});
      if k in m {
        assert SlotsOf(m, ks) == rest + {m[k].slotId};
      } else {
        assert SlotsOf(m, ks) == rest;
      }
    }
  }

  /** The slots of the last applied set, unless two rows name one slot. */
  method AppliedSlots(last: map<string, Validator>) returns (once: bool, applied: set<uint64>)
    ensures once <==> |SlotsOf(last, last.Keys)| == |last|
    ensures once ==> applied == SlotsOf(last, last.Keys)
  {
    hide SlotsOf;
    var rest := last.Keys;
    applied := {};
    NoSlotsOf(last);
    while rest != {}
      invariant rest <= last.Keys
      invariant applied == SlotsOf(last, last.Keys - rest)
      invariant |applied| + |rest| == |last|
    {
      var key :| key in rest;
      SlotsOfMore(last, rest, key);
      if last[key].slotId in applied {
        Collapses(last, last.Keys - rest, key);
        return false, applied;
      }
      applied := applied + {last[key].slotId};
      rest := rest - {key};
    }
    assert last.Keys - rest == last.Keys;
    once := true;
  }

  lemma NoSlotsOf(m: map<string, Validator>)
    ensures SlotsOf(m, m.Keys - m.Keys) == {}
  {
  }

  lemma SlotsOfMore(m: map<string, Validator>, rest: set<string>, key: string)
    requires rest <= m.Keys && key in rest
    ensures SlotsOf(m, m.Keys - (rest - {key})) == SlotsOf(m, m.Keys - rest) + {m[key].slotId}
  {
  }

  lemma Collapses(m: map<string, Validator>, seen: set<string>, key: string)
    requires seen <= m.Keys && key in m && key !in seen && m[key].slotId in SlotsOf(m, seen)
    ensures |SlotsOf(m, m.Keys)| < |m|
  {
    assert SlotsOf(m, m.Keys) == SlotsOf(m, m.Keys - {key}) by {
      var k :| k in seen && m[k].slotId == m[key].slotId;
      assert k in m.Keys - {key};
    }
    ImageSize(m, m.Keys - {key});
  }
}
