/**
 Key order. The store's collections iterate in ascending key order, Go sorts the
 validator updates by key, and a settlement chunk must list its recipients in strictly
 ascending byte order. A set of keys has exactly one ascending enumeration, which is
 what makes all three deterministic.
 */
module Ordering {
  import opened Machine

  /** Go's `<` on strings and `bytes.Compare(a, b) < 0`: lexicographic, a prefix first. */
  predicate Less(a: string, b: string)
    decreases |a|
  {
    b != "" && (a == "" || a[0] < b[0] || (a[0] == b[0] && Less(a[1..], b[1..])))
  }

  /** `a` and `b` agree up to position `n`, where `a` ends first or has the smaller character. */
  ghost predicate DifferAt(a: string, b: string, n: nat) {
    && n <= |a| && n < |b| && a[..n] == b[..n]
    && (n == |a| || (n < |a| && a[n] < b[n]))
  }

  /** `a` comes before `b` at the first difference between them. */
  ghost predicate Before(a: string, b: string) {
    exists n: nat :: DifferAt(a, b, n)
  }

  /** The order is the one by the first difference. */
  lemma {:induction false} LessMeans(a: string, b: string)
    ensures Less(a, b) <==> Before(a, b)
    decreases |a|
  {
    forall n: nat | n > 0 && DifferAt(a, b, n) ensures a != "" && a[0] == b[0] { SameStart(a, b, n); }
    if b != "" && a != "" && a[0] == b[0] {
      LessMeans(a[1..], b[1..]);
      forall n: nat ensures DifferAt(a[1..], b[1..], n) <==> DifferAt(a, b, n + 1) { OneFurther(a, b, n); }
      forall n: nat | DifferAt(a, b, n) ensures n > 0 && DifferAt(a[1..], b[1..], n - 1) {
        if n > 0 { OneFurther(a, b, n - 1); }
      }
    } else {
      assert Less(a, b) <==> DifferAt(a, b, 0);
    }
  }

  lemma SameStart(a: string, b: string, n: nat)
    requires n > 0 && DifferAt(a, b, n)
    ensures a != "" && b != "" && a[0] == b[0]
  {
    assert a[..n][0] == b[..n][0];
  }

  lemma OneFurther(a: string, b: string, n: nat)
    requires a != "" && b != "" && a[0] == b[0]
    ensures DifferAt(a[1..], b[1..], n) <==> DifferAt(a, b, n + 1)
  {
    if n + 1 <= |a| && n + 1 <= |b| {
      assert a[..n + 1] == [a[0]] + a[1..][..n] && b[..n + 1] == [b[0]] + b[1..][..n];
      assert a[1..][..n] == a[..n + 1][1..] && b[1..][..n] == b[..n + 1][1..];
    }
  }

  lemma {:induction false} LessIrreflexive(a: string)
    ensures !Less(a, a)
    decreases |a|
  {
    if a != "" { LessIrreflexive(a[1..]); }
  }

  lemma {:induction false} LessTransitive(a: string, b: string, c: string)
    requires Less(a, b) && Less(b, c)
    ensures Less(a, c)
    decreases |a|
  {
    if a != "" && a[0] == b[0] && b[0] == c[0] { LessTransitive(a[1..], b[1..], c[1..]); }
  }

  lemma {:induction false} LessTotal(a: string, b: string)
    ensures Less(a, b) || a == b || Less(b, a)
    decreases |a|
  {
    if a != "" && b != "" && a[0] == b[0] {
      LessTotal(a[1..], b[1..]);
      assert a == [a[0]] + a[1..] && b == [b[0]] + b[1..];
    }
  }

  ghost predicate Ascending(ks: seq<string>) {
    forall i, j :: 0 <= i < j < |ks| ==> Less(ks[i], ks[j])
  }

  ghost predicate AscendingInts(ks: seq<uint64>) {
    forall i, j :: 0 <= i < j < |ks| ==> ks[i] < ks[j]
  }

  lemma {:induction false} LeastExists(s: set<string>) returns (m: string)
    requires s != {}
    ensures m in s && forall k :: k in s ==> k == m || Less(m, k)
    decreases |s|
  {
    m :| m in s;
    if s != {m} {
      var n := LeastExists(s - {m});
      LessTotal(m, n);
      if Less(m, n) {
        forall k | k in s && k != m ensures Less(m, k) {
          if k != n { LessTransitive(m, n, k); }
        }
      } else {
        m := n;
      }
    }
  }

  lemma Element<T>(s: set<T>) returns (e: T)
    requires s != {}
    ensures e in s
  {
    e :| e in s;
  }

  lemma {:induction false} LeastIntExists(s: set<int>) returns (m: int)
    requires s != {}
    ensures m in s && forall k :: k in s ==> m <= k
    decreases |s|
  {
    m := Element(s);
    if s != {m} {
      var n := LeastIntExists(s - {m});
      forall k | k in s ensures n <= k || m == k { assert k in s - {m} || k == m; }
      if n < m { m := n; }
    } else {
      assert forall k :: k in s ==> k in {m};
    }
  }

  ghost function Least(s: set<string>): (m: string)
    requires s != {}
    ensures m in s && forall k :: k in s ==> k == m || Less(m, k)
  {
    LeastWitness(s);
    var m :| m in s && forall k :: k in s ==> k == m || Less(m, k);
    m
  }

  lemma LeastWitness(s: set<string>)
    requires s != {}
    ensures exists m :: m in s && forall k :: k in s ==> k == m || Less(m, k)
  {
    var m := LeastExists(s);
  }

  ghost function LeastInt(s: set<int>): (m: int)
    requires s != {}
    ensures m in s && forall k :: k in s ==> m <= k
  {
    LeastIntWitness(s);
    var m :| m in s && forall k :: k in s ==> m <= k;
    m
  }

  lemma LeastIntWitness(s: set<int>)
    requires s != {}
    ensures exists m :: m in s && forall k :: k in s ==> m <= k
  {
    var m := LeastIntExists(s);
  }

  ghost function GreatestInt(s: set<int>): (m: int)
    requires s != {}
    ensures m in s && forall k :: k in s ==> k <= m
  {
    GreatestIntWitness(s);
    var m :| m in s && forall k :: k in s ==> k <= m;
    m
  }

  lemma {:induction false} GreatestIntWitness(s: set<int>)
    requires s != {}
    ensures exists m :: m in s && forall k :: k in s ==> k <= m
    decreases |s|
  {
    var m := Element(s);
    if s == {m} {
      assert forall k :: k in s ==> k in {m};
    } else {
      GreatestIntWitness(s - {m});
      var n :| n in s - {m} && forall k :: k in s - {m} ==> k <= n;
      forall k | k in s ensures k <= n || m == k { assert k in s - {m} || k == m; }
      assert m <= n || forall k :: k in s ==> k <= m;
    }
  }

  /** The keys of `s` in the order the store's iterator visits them. */
  ghost function AscendingKeys(s: set<string>): (ks: seq<string>)
    ensures forall k :: k in ks <==> k in s
    ensures Ascending(ks)
    decreases |s|
  {
    if s == {} then [] else
      var m := Least(s);
      var rest := AscendingKeys(s - {m});
      assert forall i :: 0 <= i < |rest| ==> rest[i] in rest && rest[i] != m;
      [m] + rest
  }

  ghost function AscendingIds(s: set<uint64>): (ks: seq<uint64>)
    ensures forall k :: k in ks <==> k in s
    ensures AscendingInts(ks)
    decreases |s|
  {
    if s == {} then [] else
      var m: uint64 := LeastInt(s);
      var rest := AscendingIds(s - {m});
      LeastFirst(s, m, rest);
      [m] + rest
  }

  lemma LeastFirst(s: set<uint64>, m: uint64, rest: seq<uint64>)
    requires m in s && (forall k :: k in s ==> m <= k) && AscendingInts(rest)
    requires forall k :: k in rest <==> k in s - {m}
    ensures AscendingInts([m] + rest) && forall k :: k in [m] + rest <==> k in s
  {
    forall i | 0 <= i < |rest| ensures m < rest[i] { assert rest[i] in rest; }
  }

  lemma {:induction false} AscendingKeysCount(s: set<string>)
    ensures |AscendingKeys(s)| == |s|
    decreases |s|
  {
    if s != {} { AscendingKeysCount(s - {Least(s)}); }
  }

  lemma {:induction false} AscendingIdsCount(s: set<uint64>)
    ensures |AscendingIds(s)| == |s|
    decreases |s|
  {
    if s != {} { AscendingIdsCount(s - {LeastInt(s)}); }
  }

  /** A set of keys has one ascending enumeration only. */
  lemma {:induction false} AscendingUnique(a: seq<string>, b: seq<string>)
    requires Ascending(a) && Ascending(b)
    requires forall k :: k in a <==> k in b
    ensures a == b
    decreases |a|
  {
    assert a != [] ==> a[0] in b;
    assert b != [] ==> b[0] in a;
    if a != [] {
      if a[0] != b[0] {
        LessIrreflexive(a[0]);
        LessTransitive(a[0], b[0], a[0]);
      }
      forall k ensures k in a[1..] <==> k in b[1..] { TailMembers(a, k); TailMembers(b, k); }
      AscendingUnique(a[1..], b[1..]);
      assert a == [a[0]] + a[1..] && b == [b[0]] + b[1..];
    }
  }

  lemma {:induction false} AscendingIdsUnique(a: seq<uint64>, b: seq<uint64>)
    requires AscendingInts(a) && AscendingInts(b)
    requires forall k: uint64 :: k in a <==> k in b
    ensures a == b
    decreases |a|
  {
    assert a != [] ==> a[0] in b;
    assert b != [] ==> b[0] in a;
    if a != [] {
      assert a == [a[0]] + a[1..] && b == [b[0]] + b[1..];
      forall k: uint64 ensures k in a[1..] <==> k in b[1..] { TailIds(a, k); TailIds(b, k); }
      AscendingIdsUnique(a[1..], b[1..]);
    }
  }

  lemma TailIds(a: seq<uint64>, k: uint64)
    requires a != [] && AscendingInts(a)
    ensures k in a[1..] <==> k in a && k != a[0]
  {
    assert a == [a[0]] + a[1..];
  }

  lemma TailMembers(a: seq<string>, k: string)
    requires a != [] && Ascending(a)
    ensures k in a[1..] <==> k in a && k != a[0]
  {
    LessIrreflexive(a[0]);
    assert a == [a[0]] + a[1..];
  }

  /** What a loop of `Set` calls leaves in an empty collection: the last row per key. */
  function Collect<K(!new), V(!new)>(rows: seq<(K, V)>): (m: map<K, V>)
    ensures forall k :: k in m <==> exists i :: 0 <= i < |rows| && rows[i].0 == k
    ensures forall k :: k in m ==> exists i :: 0 <= i < |rows| && rows[i] == (k, m[k])
  {
    if rows == [] then map[]
    else
      var last := rows[|rows| - 1];
      var m := Collect(rows[..|rows| - 1])[last.0 := last.1];
      assert forall i :: 0 <= i < |rows| - 1 ==> rows[..|rows| - 1][i] == rows[i];
      m
  }
}
