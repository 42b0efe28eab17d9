/**
 What the keeper's loops rest on: collection iterators, which visit keys in ascending
 order, and `sort.Slice`.
 */
module Walks {
  import opened Machine
  import opened Ordering
  import opened CoreSlotTypes
  import opened PolicyHistory

  /** Keys are visited from the least on. */
  method VisitIds(s: set<uint64>) returns (ids: seq<uint64>)
    ensures ids == AscendingIds(s)
  {
    hide AscendingIds;
    var rest := s;
    ids := [];
    NoIds();
    while rest != {}
      invariant ids + AscendingIds(rest) == AscendingIds(s)
      decreases |rest|
    {
      var id := FirstId(rest);
      FirstThenRest(rest);
      ids := ids + [id];
      rest := rest - {id};
    }
  }

  lemma NoIds()
    ensures AscendingIds({}) == []
  {
  }

  lemma FirstThenRest(s: set<uint64>)
    requires s != {}
    ensures AscendingIds(s) == [LeastInt(s)] + AscendingIds(s - {LeastInt(s)})
  {
  }

  method FirstId(s: set<uint64>) returns (id: uint64)
    requires s != {}
    ensures id == LeastInt(s)
  {
    LeastIdExists(s);
    id :| id in s && forall k :: k in s ==> id <= k;
  }

  lemma LeastIdExists(s: set<uint64>)
    requires s != {}
    ensures exists id: uint64 :: id in s && forall k :: k in s ==> id <= k
  {
    var id: uint64 := LeastInt(s);
  }

  method VisitKeys(s: set<string>) returns (ks: seq<string>)
    ensures ks == AscendingKeys(s)
  {
    hide AscendingKeys, Less;
    var rest := s;
    ks := [];
    NoKeys();
    while rest != {}
      invariant ks + AscendingKeys(rest) == AscendingKeys(s)
      decreases |rest|
    {
      var k := FirstKey(rest);
      FirstKeyThenRest(rest);
      ks := ks + [k];
      rest := rest - {k};
    }
  }

  lemma NoKeys()
    ensures AscendingKeys({}) == []
  {
  }

  lemma FirstKeyThenRest(s: set<string>)
    requires s != {}
    ensures AscendingKeys(s) == [Least(s)] + AscendingKeys(s - {Least(s)})
  {
  }

  method FirstKey(s: set<string>) returns (k: string)
    requires s != {}
    ensures k == Least(s)
  {
    LeastWitness(s);
    k :| k in s && forall o :: o in s ==> o == k || Less(k, o);
    LeastIsOne(s, k);
  }

  lemma LeastIsOne(s: set<string>, k: string)
    requires k in s && forall o :: o in s ==> o == k || Less(k, o)
    ensures k == Least(s)
  {
    if k != Least(s) {
      LessTransitive(k, Least(s), k);
      LessIrreflexive(k);
    }
  }

  /** Where the index's iterator over heights up to `height` starts when it runs backward. */
  method SeekBack(starts: map<int64, uint64>, height: int64) returns (seek: Option<int64>)
    ensures seek == Predecessor(starts, height)
  {
    var range: set<int64> := set h: int64 | h in starts && h <= height;
    if range == {} {
      assert forall h: int64 :: h in starts ==> h in range || h > height;
      return None;
    }
    LastHeightExists(range);
    var h :| h in range && forall k :: k in range ==> k <= h;
    assert h in starts && h <= height;
    assert Predecessor(starts, height).Some? && Predecessor(starts, height).value in range;
    return Some(h);
  }

  lemma LastHeightExists(s: set<int64>)
    requires s != {}
    ensures exists h: int64 :: h in s && forall k :: k in s ==> k <= h
  {
    var h: int64 := GreatestInt(s);
  }

  // ----- sort.Slice -----

  /** Due rotations by slot. */
  ghost predicate SlotOrder(rs: seq<Rotation>) {
    forall i, j :: 0 <= i < j < |rs| ==> rs[i].slotId <= rs[j].slotId
  }

  lemma SlotOrderInsert(rs: seq<Rotation>, at: nat, r: Rotation)
    requires SlotOrder(rs) && at <= |rs|
    requires at > 0 ==> rs[at - 1].slotId <= r.slotId
    requires forall k :: at <= k < |rs| ==> r.slotId < rs[k].slotId
    ensures SlotOrder(rs[..at] + [r] + rs[at..])
  {
    var vs := rs[..at] + [r] + rs[at..];
    forall i, j | 0 <= i < j < |vs| ensures vs[i].slotId <= vs[j].slotId {
      assert i < at ==> vs[i] == rs[i];
      assert i > at ==> vs[i] == rs[i - 1];
      assert j < at ==> vs[j] == rs[j];
      assert j > at ==> vs[j] == rs[j - 1];
    }
  }

  /** Where `r` goes: after everything not beyond it. */
  method Place(rs: seq<Rotation>, r: Rotation) returns (at: nat)
    requires SlotOrder(rs)
    ensures at <= |rs| && SlotOrder(rs[..at] + [r] + rs[at..])
    ensures rs == [] || rs[|rs| - 1].slotId <= r.slotId ==> at == |rs|
  {
    at := |rs|;
    while at > 0 && rs[at - 1].slotId > r.slotId
      invariant 0 <= at <= |rs|
      invariant forall k :: at <= k < |rs| ==> rs[k].slotId > r.slotId
    {
      at := at - 1;
    }
    SlotOrderInsert(rs, at, r);
  }

  lemma Inserted<T>(s: seq<T>, front: seq<T>, at: nat, e: T)
    requires multiset(s) == multiset(front) && at <= |s|
    ensures multiset(s[..at] + [e] + s[at..]) == multiset(front + [e])
  {
    assert s == s[..at] + s[at..];
  }

  /** Sorting keeps the rotations, and changes nothing when their slots already ascend. */
  method SortBySlot(rs: seq<Rotation>) returns (sorted: seq<Rotation>)
    ensures multiset(sorted) == multiset(rs) && SlotOrder(sorted)
    ensures SlotOrder(rs) ==> sorted == rs
  {
    hide SlotOrder;
    sorted := [];
    NoneOrdered();
    for n := 0 to |rs|
      invariant |sorted| == n && multiset(sorted) == multiset(rs[..n]) && SlotOrder(sorted)
      invariant SlotOrder(rs) ==> sorted == rs[..n]
    {
      var at := Place(sorted, rs[n]);
      Inserted(sorted, rs[..n], at, rs[n]);
      assert rs[..n + 1] == rs[..n] + [rs[n]];
      if SlotOrder(rs) {
        InPlace(rs, n);
        assert sorted[..n] + [rs[n]] + sorted[n..] == rs[..n + 1];
      }
      sorted := sorted[..at] + [rs[n]] + sorted[at..];
    }
    assert rs[..|rs|] == rs;
  }

  lemma NoneOrdered()
    ensures SlotOrder([])
  {
  }

  lemma InPlace(rs: seq<Rotation>, n: nat)
    requires SlotOrder(rs) && n < |rs|
    ensures n > 0 ==> rs[n - 1].slotId <= rs[n].slotId
  {
  }

  /** One validator update with the address it is sorted by. */
  datatype Keyed = Keyed(key: string, update: Update)

  ghost predicate KeyOrder(us: seq<Keyed>) {
    forall i, j :: 0 <= i < j < |us| ==> us[i].key == us[j].key || Less(us[i].key, us[j].key)
  }

  lemma KeyOrderInsert(us: seq<Keyed>, at: nat, u: Keyed)
    requires KeyOrder(us) && at <= |us|
    requires at > 0 ==> us[at - 1].key == u.key || Less(us[at - 1].key, u.key)
    requires forall k :: at <= k < |us| ==> Less(u.key, us[k].key)
    ensures KeyOrder(us[..at] + [u] + us[at..])
  {
    var vs := us[..at] + [u] + us[at..];
    forall k | 0 <= k < at ensures us[k].key == u.key || Less(us[k].key, u.key) {
      if k < at - 1 && us[k].key != us[at - 1].key && us[at - 1].key != u.key {
        LessTransitive(us[k].key, us[at - 1].key, u.key);
      }
    }
    forall i, j | 0 <= i < j < |vs| ensures vs[i].key == vs[j].key || Less(vs[i].key, vs[j].key) {
      assert i < at ==> vs[i] == us[i];
      assert i > at ==> vs[i] == us[i - 1];
      assert j < at ==> vs[j] == us[j];
      assert j > at ==> vs[j] == us[j - 1];
    }
  }

  method SortByKey(us: seq<Keyed>) returns (sorted: seq<Keyed>)
    ensures multiset(sorted) == multiset(us) && KeyOrder(sorted)
  {
    sorted := [];
    for n := 0 to |us|
      invariant |sorted| == n && multiset(sorted) == multiset(us[..n]) && KeyOrder(sorted)
    {
      var at := n;
      while at > 0 && Less(us[n].key, sorted[at - 1].key)
        invariant 0 <= at <= n
        invariant forall k :: at <= k < n ==> Less(us[n].key, sorted[k].key)
      {
        at := at - 1;
      }
      assert us[..n + 1] == us[..n] + [us[n]];
      Inserted(sorted, us[..n], at, us[n]);
      if at > 0 { LessTotal(sorted[at - 1].key, us[n].key); }
      KeyOrderInsert(sorted, at, us[n]);
      sorted := sorted[..at] + [us[n]] + sorted[at..];
    }
    assert us[..|us|] == us;
  }
}
