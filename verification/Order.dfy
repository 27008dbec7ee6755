// The order of text keys: byte by byte, as the database compares them and as
// lower-case hexadecimal digests of one length compare.
module Order {
  import opened Prelude

  predicate Less(a: bytes, b: bytes) {
    if b == [] then false
    else if a == [] then true
    else a[0] < b[0] || (a[0] == b[0] && Less(a[1..], b[1..]))
  }

  lemma {:induction false} LessTransitive(a: bytes, b: bytes, c: bytes)
    requires Less(a, b) && Less(b, c)
    ensures Less(a, c)
  {
    if a != [] && a[0] == b[0] && b[0] == c[0] {
      LessTransitive(a[1..], b[1..], c[1..]);
    }
  }

  lemma {:induction false} LessIrreflexive(a: bytes)
    ensures !Less(a, a)
  {
    if a != [] {
      LessIrreflexive(a[1..]);
    }
  }

  lemma {:induction false} LessTotal(a: bytes, b: bytes)
    ensures a == b || Less(a, b) || Less(b, a)
  {
    if a != [] && b != [] && a[0] == b[0] {
      LessTotal(a[1..], b[1..]);
      assert a == [a[0]] + a[1..] && b == [b[0]] + b[1..];
    }
  }

  // At the first place where they part, the smaller one has ended or has the smaller byte.
  ghost predicate Smaller(a: bytes, b: bytes) {
    exists i: nat ::
      && i <= |a| && i < |b| && a[..i] == b[..i]
      && (i == |a| || a[i] < b[i])
  }

  /** The order is the lexicographic one. */
  lemma {:induction false} LessIsLexicographic(a: bytes, b: bytes)
    ensures Less(a, b) <==> Smaller(a, b)
  {
    if a != [] && b != [] && a[0] == b[0] {
      LessIsLexicographic(a[1..], b[1..]);
      if Smaller(a[1..], b[1..]) {
        var i: nat :| i <= |a[1..]| && i < |b[1..]| && a[1..][..i] == b[1..][..i] && (i == |a[1..]| || a[1..][i] < b[1..][i]);
        assert a[..i + 1] == [a[0]] + a[1..][..i] && b[..i + 1] == [b[0]] + b[1..][..i];
      }
      if Smaller(a, b) {
        var i: nat :| i <= |a| && i < |b| && a[..i] == b[..i] && (i == |a| || a[i] < b[i]);
        assert i > 0 && a[1..][..i - 1] == a[..i][1..] && b[1..][..i - 1] == b[..i][1..];
      }
    } else if b != [] {
      assert a[..0] == b[..0];
    }
  }

  // Entries keyed by hash, in key order; no key occurs twice.
  ghost predicate Sorted<V>(s: seq<(Hash, V)>) {
    forall i, j :: 0 <= i < j < |s| ==> Less(s[i].0, s[j].0)
  }

  predicate DistinctKeys<V>(s: seq<(Hash, V)>) {
    forall i, j :: 0 <= i < j < |s| ==> s[i].0 != s[j].0
  }

  function Insert<V>(e: (Hash, V), s: seq<(Hash, V)>): (r: seq<(Hash, V)>)
    ensures multiset(r) == multiset(s) + multiset{e}
  {
    if s == [] || Less(e.0, s[0].0) then
      [e] + s
    else
      assert s == [s[0]] + s[1..];
      [s[0]] + Insert(e, s[1..])
  }

  function Sort<V>(s: seq<(Hash, V)>): (r: seq<(Hash, V)>)
    ensures multiset(r) == multiset(s)
  {
    if s == [] then []
    else
      assert s == s[..|s| - 1] + [s[|s| - 1]];
      Insert(s[|s| - 1], Sort(s[..|s| - 1]))
  }

  lemma InMultiset<V>(s: seq<V>, t: seq<V>, x: V)
    requires multiset(s) == multiset(t)
    ensures x in s <==> x in t
  {
    assert x in s <==> x in multiset(s);
    assert x in t <==> x in multiset(t);
  }

  lemma {:induction false} InsertKeepsSorted<V>(e: (Hash, V), s: seq<(Hash, V)>)
    requires Sorted(s) && forall i :: 0 <= i < |s| ==> s[i].0 != e.0
    ensures Sorted(Insert(e, s))
  {
    if s != [] {
      LessTotal(e.0, s[0].0);
      if Less(e.0, s[0].0) {
        forall j | 0 < j < |s|
          ensures Less(e.0, s[j].0)
        {
          LessTransitive(e.0, s[0].0, s[j].0);
        }
      } else {
        var rest := Insert(e, s[1..]);
        InsertKeepsSorted(e, s[1..]);
        forall j | 0 <= j < |rest|
          ensures Less(s[0].0, rest[j].0)
        {
          assert rest[j] in multiset(rest);
          assert rest[j] == e || rest[j] in s[1..];
        }
      }
    }
  }

  /** Sorting entries with distinct keys puts them in strict key order. */
  lemma {:induction false} SortSorts<V>(s: seq<(Hash, V)>)
    requires DistinctKeys(s)
    ensures Sorted(Sort(s))
  {
    if s != [] {
      var front := s[..|s| - 1];
      SortSorts(front);
      forall i | 0 <= i < |Sort(front)|
        ensures Sort(front)[i].0 != s[|s| - 1].0
      {
        InMultiset(Sort(front), front, Sort(front)[i]);
      }
      InsertKeepsSorted(s[|s| - 1], Sort(front));
    }
  }

  /** A set of entries has one sorted listing. */
  lemma {:induction false} SortedIsUnique<V>(s: seq<(Hash, V)>, t: seq<(Hash, V)>)
    requires Sorted(s) && Sorted(t) && forall x :: x in s <==> x in t
    ensures s == t
  {
    if s != [] {
      assert s[0] in s && s[0] in t;
    }
    if t != [] {
      assert t[0] in t && t[0] in s;
    }
    if s != [] {
      FirstIsLeast(s, t);
      forall x | x in s[1..]
        ensures x in t[1..]
      {
        RestAgrees(s, t, x);
      }
      forall x | x in t[1..]
        ensures x in s[1..]
      {
        RestAgrees(t, s, x);
      }
      SortedIsUnique(s[1..], t[1..]);
      assert s == [s[0]] + s[1..] && t == [t[0]] + t[1..];
    }
  }

  lemma FirstIsLeast<V>(s: seq<(Hash, V)>, t: seq<(Hash, V)>)
    requires Sorted(s) && Sorted(t) && s != [] && t != [] && forall x :: x in s <==> x in t
    ensures s[0] == t[0]
  {
    assert s[0] in t && t[0] in s;
    var i :| 0 <= i < |t| && t[i] == s[0];
    var j :| 0 <= j < |s| && s[j] == t[0];
    if i > 0 && j > 0 {
      LessTransitive(s[0].0, s[j].0, t[i].0);
      LessIrreflexive(s[0].0);
    }
  }

  lemma RestAgrees<V>(s: seq<(Hash, V)>, t: seq<(Hash, V)>, x: (Hash, V))
    requires Sorted(s) && Sorted(t) && s != [] && t != [] && s[0] == t[0] && x in s[1..] && x in t
    ensures x in t[1..]
  {
    LessIrreflexive(x.0);
    var i :| 0 <= i < |t| && t[i] == x;
    var j :| 1 <= j < |s| && s[j] == x;
    assert i > 0;
    assert t[1..][i - 1] == x;
  }

  // ----- least members -----

  ghost predicate StrictOrder<T(!new)>(less: (T, T) -> bool) {
    && (forall a, b, c :: less(a, b) && less(b, c) ==> less(a, c))
    && (forall a, b :: a == b || less(a, b) || less(b, a))
    && (forall a :: !less(a, a))
  }

  predicate IsLeast<T(==, !new)>(less: (T, T) -> bool, x: T, members: set<T>) {
    x in members && forall m :: m in members ==> m == x || less(x, m)
  }

  lemma {:induction false} LeastExists<T(!new)>(less: (T, T) -> bool, members: set<T>) returns (least: T)
    requires StrictOrder(less) && members != {}
    ensures IsLeast(less, least, members)
    decreases |members|
  {
    var m :| m in members;
    if members == {m} {
      least := m;
    } else {
      var other := LeastExists(less, members - {m});
      assert m == other || less(m, other) || less(other, m);
      least := if less(m, other) then m else other;
      forall x | x in members
        ensures x == least || less(least, x)
      {
        assert x == m || x in members - {m};
      }
    }
  }

  method Least<T(==, !new)>(less: (T, T) -> bool, members: set<T>) returns (least: T)
    requires StrictOrder(less) && members != {}
    ensures IsLeast(less, least, members)
  {
    ghost var first := LeastExists(less, members);
    least :| least in members && IsLeast(less, least, members);
  }

  lemma LessIsStrictOrder()
    ensures StrictOrder(Less)
  {
    forall a, b, c | Less(a, b) && Less(b, c)
      ensures Less(a, c)
    {
      LessTransitive(a, b, c);
    }
    forall a, b
      ensures a == b || Less(a, b) || Less(b, a)
    {
      LessTotal(a, b);
    }
    forall a
      ensures !Less(a, a)
    {
      LessIrreflexive(a);
    }
  }

  // ----- keys by a number, then by themselves -----

  function NumberOf(numbers: map<bytes, int>, key: bytes): int {
    if key in numbers then numbers[key] else 0
  }

  predicate Before(numbers: map<bytes, int>, a: bytes, b: bytes) {
    NumberOf(numbers, a) < NumberOf(numbers, b) || (NumberOf(numbers, a) == NumberOf(numbers, b) && Less(a, b))
  }

  lemma BeforeIsStrictOrder(numbers: map<bytes, int>)
    ensures StrictOrder((a, b) => Before(numbers, a, b))
  {
    LessIsStrictOrder();
  }

  // The first keys in that order, `limit` of them if there are so many.
  ghost predicate IsFirst(numbers: map<bytes, int>, limit: nat, rows: seq<bytes>) {
    && |rows| == Min(limit, |numbers|)
    && (forall i :: 0 <= i < |rows| ==> rows[i] in numbers)
    && (forall i, j :: 0 <= i < j < |rows| ==> rows[i] != rows[j] && Before(numbers, rows[i], rows[j]))
    && (forall i, k :: 0 <= i < |rows| && k in numbers && k !in rows ==> Before(numbers, rows[i], k))
  }

  // SELECT key ... ORDER BY number, key LIMIT ?
  method FirstInOrder(numbers: map<bytes, int>, limit: nat) returns (rows: seq<bytes>)
    ensures IsFirst(numbers, limit, rows)
  {
    rows := [];
    var rest := numbers.Keys;
    BeforeIsStrictOrder(numbers);
    while rest != {} && |rows| < limit
      invariant rest <= numbers.Keys && |rows| + |rest| == |numbers.Keys| && |rows| <= limit
      invariant forall k :: k in numbers <==> k in rows || k in rest
      invariant forall i :: 0 <= i < |rows| ==> rows[i] !in rest
      invariant forall i, j :: 0 <= i < j < |rows| ==> rows[i] != rows[j] && Before(numbers, rows[i], rows[j])
      invariant forall i, k :: 0 <= i < |rows| && k in rest ==> Before(numbers, rows[i], k)
      decreases rest
    {
      var key := Least((a, b) => Before(numbers, a, b), rest);
      LeastIsBefore(numbers, key, rest);
      rows := rows + [key];
      rest := rest - {key};
    }
    assert |numbers.Keys| == |numbers|;
  }

  lemma LeastIsBefore(numbers: map<bytes, int>, key: bytes, rest: set<bytes>)
    requires IsLeast((a, b) => Before(numbers, a, b), key, rest)
    ensures forall k :: k in rest && k != key ==> Before(numbers, key, k)
  {
  }

  // The keys whose time has come, earliest first and of one time the smaller first: all of them, or the first `limit`.
  ghost predicate Earliest(times: map<bytes, int>, now: int, limit: nat, rows: seq<bytes>) {
    && |rows| <= limit
    && (forall i :: 0 <= i < |rows| ==> rows[i] in times && times[rows[i]] <= now)
    && (forall i, j :: 0 <= i < j < |rows| ==> rows[i] != rows[j] && Sooner(times, rows[i], rows[j]))
    && (forall i, k :: 0 <= i < |rows| && k in times && times[k] <= now && k !in rows ==> Sooner(times, rows[i], k))
    && (forall k :: k in times && times[k] <= now && k !in rows ==> |rows| == limit)
  }

  ghost predicate Sooner(times: map<bytes, int>, a: bytes, b: bytes)
    requires a in times && b in times
  {
    times[a] < times[b] || (times[a] == times[b] && Smaller(a, b))
  }

  lemma FirstIsEarliest(times: map<bytes, int>, now: int, due: map<bytes, int>, limit: nat, rows: seq<bytes>)
    requires due == map k | k in times && times[k] <= now :: times[k]
    requires IsFirst(due, limit, rows)
    ensures Earliest(times, now, limit, rows)
  {
    forall a, b | a in due && b in due && Before(due, a, b)
      ensures Sooner(times, a, b)
    {
      LessIsLexicographic(a, b);
    }
    if |rows| < limit {
      AllOfThem(due.Keys, rows);
      assert |due.Keys| == |due|;
    }
  }

  lemma {:induction false} AllOfThem(members: set<bytes>, rows: seq<bytes>)
    requires |rows| == |members|
    requires forall i :: 0 <= i < |rows| ==> rows[i] in members
    requires forall i, j :: 0 <= i < j < |rows| ==> rows[i] != rows[j]
    ensures forall k :: k in members ==> k in rows
    decreases |rows|
  {
    if rows != [] {
      var last := |rows| - 1;
      AllOfThem(members - {rows[last]}, rows[..last]);
      assert forall k :: k in rows[..last] ==> k in rows;
    }
  }
}
