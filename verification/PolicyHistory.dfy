/**
 x/coreslot/keeper/invariants.go: the selection-policy history of a slot and the seek
 index over it.

 A slot's versions are numbered from 1 and their half-open intervals tile the heights
 from its first start on. The index answers "which version started most recently"; the
 theorem is that this is always the version a scan of the whole history would find.
 */
module PolicyHistory {
  import opened Machine
  import opened Ordering
  import opened CoreSlotTypes

  /** The reverse iterator's first entry: the greatest start at or before `height`. */
  ghost function Predecessor(starts: map<int64, uint64>, height: int64): (r: Option<int64>)
    ensures r.Some? ==> r.value in starts && r.value <= height
    ensures r.Some? ==> forall h: int64 :: h in starts && h <= height ==> h <= r.value
    ensures r.None? ==> forall h: int64 :: h in starts ==> h > height
  {
    var hs: set<int> := set h | h in starts && h <= height :: h as int;
    if hs == {} then
      assert forall h: int64 :: h in starts && h <= height ==> h in hs;
      None
    else
      var h := GreatestInt(hs);
      assert forall h: int64 :: h in starts && h <= height ==> h in hs;
      Some(h)
  }

  /** SelectionPolicyAtHeight on one slot's rows and index entries. */
  ghost function Lookup(rows: map<uint64, Policy>, starts: map<int64, uint64>, id: uint64,
      height: int64): Result<Policy> {
    var seek := Predecessor(starts, height);
    if seek.None? then Failure(SelectionPolicyNotFound)
    else
      var version := starts[seek.value];
      if version !in rows then Failure(InvalidSelectionPolicy)
      else
        var policy := rows[version];
        if policy.slotId != id || policy.version != version || policy.validFrom != seek.value then
          Failure(InvalidSelectionPolicy)
        else if policy.validFrom > height then Failure(InvalidSelectionPolicy)
        else if policy.validUntil != 0 && height >= policy.validUntil then Failure(InvalidSelectionPolicy)
        else Success(policy)
  }

  predicate Covers(p: Policy, height: int64) {
    p.validFrom <= height && (p.validUntil == 0 || height < p.validUntil)
  }

  predicate GoodRow(p: Policy, id: uint64, version: uint64) {
    p.slotId == id && p.version == version && p.validFrom >= 1 && ValidPolicyValues(p.rate, p.maxParticipants)
  }

  /** The rows are exactly the versions 1 to `current`, and they tile. */
  ghost predicate Tiled(rows: map<uint64, Policy>, id: uint64, current: uint64) {
    && current >= 1
    && (forall v: int :: v in rows <==> 1 <= v <= current)
    && (forall v: int :: v in rows ==> GoodRow(rows[v], id, v))
    && (forall v: int :: v in rows && v < current ==> Adjacent(rows, v))
    && rows[current].validUntil == 0
  }

  ghost predicate Adjacent(rows: map<uint64, Policy>, v: int)
    requires v in rows
  {
    v + 1 in rows && rows[v].validUntil == rows[v + 1].validFrom > rows[v].validFrom
  }

  /** The index names every row by its start, and nothing else. */
  ghost predicate Indexed(rows: map<uint64, Policy>, starts: map<int64, uint64>) {
    && (forall v: int :: v in rows ==> rows[v].validFrom in starts && starts[rows[v].validFrom] == v)
    && (forall h: int :: h in starts ==> starts[h] in rows && rows[starts[h]].validFrom == h)
  }

  ghost predicate SlotHistory(rows: map<uint64, Policy>, starts: map<int64, uint64>, id: uint64, current: uint64) {
    Tiled(rows, id, current) && Indexed(rows, starts)
  }

  lemma {:induction false} StartsAscend(rows: map<uint64, Policy>, id: uint64, current: uint64, u: int, v: int)
    requires Tiled(rows, id, current)
    requires 1 <= u < v <= current
    ensures rows[u].validFrom < rows[v].validFrom
    ensures 0 < rows[u].validUntil <= rows[v].validFrom
    decreases v - u
  {
    assert Adjacent(rows, u);
    if u + 1 < v { StartsAscend(rows, id, current, u + 1, v); }
  }

  /** The version covering `height`, found by scanning the history upward from version `v`. */
  ghost function Scan(rows: map<uint64, Policy>, height: int64, v: nat, current: uint64): Option<Policy>
    decreases current + 1 - v
  {
    if v > current then None
    else if v in rows && Covers(rows[v], height) then Some(rows[v])
    else Scan(rows, height, v + 1, current)
  }

  lemma {:induction false} ScanFinds(rows: map<uint64, Policy>, id: uint64, current: uint64, height: int64, v: nat,
      w: int)
    requires Tiled(rows, id, current)
    requires 1 <= v <= w <= current && Covers(rows[w], height)
    ensures Scan(rows, height, v, current) == Some(rows[w])
    decreases w - v
  {
    if v < w {
      StartsAscend(rows, id, current, v, w);
      ScanFinds(rows, id, current, height, v + 1, w);
    }
  }

  lemma {:induction false} ScanMisses(rows: map<uint64, Policy>, current: uint64, height: int64, v: nat)
    requires forall w: int :: w in rows ==> height < rows[w].validFrom
    ensures Scan(rows, height, v, current) == None
    decreases current + 1 - v
  {
    if v <= current { ScanMisses(rows, current, height, v + 1); }
  }

  /**
   The seek finds what the scan finds, at every height. It reports absence exactly before
   the slot's first start, and never reports a divergence.
   */
  lemma SeekIsScan(rows: map<uint64, Policy>, starts: map<int64, uint64>, id: uint64, current: uint64, height: int64)
    requires SlotHistory(rows, starts, id, current)
    ensures Lookup(rows, starts, id, height) ==
            match Scan(rows, height, 1, current)
            case Some(p) => Success(p)
            case None => Failure(SelectionPolicyNotFound)
    ensures Scan(rows, height, 1, current).None? <==> height < rows[1].validFrom
  {
    hide Scan, Predecessor;
    var seek := Predecessor(starts, height);
    if seek.None? {
      ScanMisses(rows, current, height, 1);
    } else {
      var v := starts[seek.value];
      assert v < current ==> Adjacent(rows, v);
      ScanFinds(rows, id, current, height, 1, v);
      if v > 1 { StartsAscend(rows, id, current, 1, v); }
    }
  }

  /** The open version `current` is closed at `p`'s first height and `p` follows it. */
  function Superseded(rows: map<uint64, Policy>, current: uint64, p: Policy): map<uint64, Policy>
    requires current in rows
  {
    rows[current := rows[current].(validUntil := p.validFrom)][p.version := p]
  }

  function IndexedWith(starts: map<int64, uint64>, p: Policy): map<int64, uint64> {
    starts[p.validFrom := p.version]
  }

  /** `p` may follow the open version `current`. */
  predicate Follows(rows: map<uint64, Policy>, current: uint64, p: Policy)
    requires current in rows
  {
    && p.version == current + 1 && p.slotId == rows[current].slotId
    && p.validFrom > rows[current].validFrom && p.validUntil == 0
    && ValidPolicyValues(p.rate, p.maxParticipants)
  }

  lemma SupersedeKeepsHistory(rows: map<uint64, Policy>, starts: map<int64, uint64>, id: uint64, current: uint64,
      p: Policy)
    requires SlotHistory(rows, starts, id, current) && Follows(rows, current, p)
    ensures SlotHistory(Superseded(rows, current, p), IndexedWith(starts, p), id, p.version)
    ensures p.validFrom !in starts && p.version !in rows
  {
    SupersedeTiles(rows, id, current, p);
    forall v: int | v in rows ensures rows[v].validFrom < p.validFrom {
      if v < current { StartsAscend(rows, id, current, v, current); }
    }
    SupersedeIndexes(rows, starts, current, p);
  }

  lemma SupersedeTiles(rows: map<uint64, Policy>, id: uint64, current: uint64, p: Policy)
    requires Tiled(rows, id, current) && Follows(rows, current, p)
    ensures Tiled(Superseded(rows, current, p), id, p.version)
    ensures p.version !in rows
  {
    var rows' := Superseded(rows, current, p);
    forall v: int | v in rows' && v < p.version ensures Adjacent(rows', v) {
      assert v < current ==> Adjacent(rows, v);
    }
  }

  lemma SupersedeIndexes(rows: map<uint64, Policy>, starts: map<int64, uint64>, current: uint64, p: Policy)
    requires Indexed(rows, starts) && current in rows && p.version !in rows
    requires forall v: int :: v in rows ==> rows[v].validFrom < p.validFrom
    ensures Indexed(Superseded(rows, current, p), IndexedWith(starts, p))
    ensures p.validFrom !in starts
  {
    assert forall h: int :: h in starts ==> h < p.validFrom;
  }

  /** A first version opens a new slot's history. */
  lemma FirstVersion(p: Policy)
    requires GoodRow(p, p.slotId, 1) && p.validUntil == 0
    ensures SlotHistory(map[1 := p], map[p.validFrom := 1], p.slotId, 1)
  {
  }

  /** The parts of an answer that no later update may change. */
  predicate SameAnswer(a: Policy, b: Policy, height: int64) {
    && a.slotId == b.slotId && a.version == b.version && a.validFrom == b.validFrom
    && a.rate == b.rate && a.maxParticipants == b.maxParticipants
    && (a.validUntil == b.validUntil || (a.validUntil == 0 && b.validUntil > height))
  }

  /** An update taking effect after `height` leaves the answer for `height` alone. */
  lemma SupersedeKeepsAnswers(rows: map<uint64, Policy>, starts: map<int64, uint64>, id: uint64, current: uint64,
      p: Policy, height: int64)
    requires SlotHistory(rows, starts, id, current) && Follows(rows, current, p)
    requires height < p.validFrom
    ensures var before := Lookup(rows, starts, id, height);
            var after := Lookup(Superseded(rows, current, p), IndexedWith(starts, p), id, height);
            if before.Success? then after.Success? && SameAnswer(before.value, after.value, height)
            else after == before
  {
    var rows', starts' := Superseded(rows, current, p), IndexedWith(starts, p);
    SupersedeKeepsHistory(rows, starts, id, current, p);
    SeekIsScan(rows, starts, id, current, height);
    SeekIsScan(rows', starts', id, p.version, height);
    var before := Lookup(rows, starts, id, height);
    if before.Success? {
      ScanFinds(rows', id, p.version, height, 1, before.value.version);
    }
  }
}
