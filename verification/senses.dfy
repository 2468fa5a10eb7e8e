/** Diary records ("senses"), their (created_at, id) order and the
    pagination vocabulary shared by both storage backends. */
module Senses {
  import opened Results

  /** A 128-bit UUID, compared as the unsigned integer `UUID.int`. */
  type Uuid = x: int | 0 <= x < 0x1_0000_0000_0000_0000_0000_0000_0000_0000

  /** A creation time in microseconds since the epoch, within the signed
      64-bit range that the cursor's timestamp field can hold. */
  type Timestamp = x: int | -0x8000_0000_0000_0000 <= x < 0x8000_0000_0000_0000

  /** A stored record; `data` is the encrypted payload, opaque here. */
  datatype Sense = Sense(id: Uuid, data: string, createdAt: Timestamp)

  /** The pivot a cursor stands for. */
  datatype CursorData = CursorData(createdAt: Timestamp, senseId: Uuid)

  /** One page of records, newest first, with the pivots of the neighbouring pages. */
  datatype Page = Page(senses: seq<Sense>, previous: Option<CursorData>, next: Option<CursorData>)

  function KeyOf(s: Sense): CursorData {
    CursorData(s.createdAt, s.id)
  }

  /** `a` is strictly older than `b`: earlier `created_at`, or the same
      `created_at` and a smaller id. */
  predicate Earlier(a: CursorData, b: CursorData) {
    a.createdAt < b.createdAt || (a.createdAt == b.createdAt && a.senseId < b.senseId)
  }

  /** The record lies strictly after (is newer than) the pivot. */
  predicate IsAfter(s: Sense, p: CursorData) {
    Earlier(p, KeyOf(s))
  }

  /** Newest first, equal keys allowed. */
  ghost predicate SortedNewestFirst(s: seq<Sense>) {
    forall i, j :: 0 <= i < j < |s| ==> !Earlier(KeyOf(s[i]), KeyOf(s[j]))
  }

  /** Strictly newest first. */
  ghost predicate NewestFirst(s: seq<Sense>) {
    forall i, j :: 0 <= i < j < |s| ==> Earlier(KeyOf(s[j]), KeyOf(s[i]))
  }

  /** No two records share a (created_at, id) key; implied by unique ids. */
  ghost predicate DistinctKeys(s: seq<Sense>) {
    forall i, j :: 0 <= i < j < |s| ==> KeysDiffer(s, i, j)
  }

  /** The records at positions `i` and `j` have different keys. Naming the
      comparison keeps `DistinctKeys` from being applied to every pair of
      positions a proof happens to mention. */
  ghost predicate KeysDiffer(s: seq<Sense>, i: int, j: int)
    requires 0 <= i < |s| && 0 <= j < |s|
  {
    KeyOf(s[i]) != KeyOf(s[j])
  }

  ghost predicate UniqueIds(s: seq<Sense>) {
    forall i, j :: 0 <= i < j < |s| ==> s[i].id != s[j].id
  }

  /** The records among the first `n` of `s` on one side of the pivot, in
      their order in `s`: those strictly after it when `newer`, those at or
      before it otherwise. */
  function SideOf(s: seq<Sense>, p: CursorData, newer: bool, n: nat): (r: seq<Sense>)
    requires n <= |s|
    ensures |r| <= n
  {
    if n == 0 then []
    else
      var rest := SideOf(s, p, newer, n - 1);
      if IsAfter(s[n - 1], p) == newer then rest + [s[n - 1]] else rest
  }

  /** The SQL condition `created_at > p.created_at OR (created_at = p.created_at AND id > p.id)`. */
  function Newer(s: seq<Sense>, p: CursorData): seq<Sense> {
    SideOf(s, p, true, |s|)
  }

  /** The SQL condition `created_at < p.created_at OR (created_at = p.created_at AND id <= p.id)`. */
  function Older(s: seq<Sense>, p: CursorData): seq<Sense> {
    SideOf(s, p, false, |s|)
  }

  /** `SideOf` keeps every record of the prefix on the requested side, as
      many times as it occurs there, and nothing else. */
  lemma {:induction false} PrefixSideSelects(s: seq<Sense>, p: CursorData, newer: bool, n: nat)
    requires n <= |s|
    ensures forall x :: multiset(SideOf(s, p, newer, n))[x] == if IsAfter(x, p) == newer then multiset(s[..n])[x] else 0
    ensures forall x :: x in SideOf(s, p, newer, n) <==> x in s[..n] && IsAfter(x, p) == newer
  {
    if n > 0 {
      PrefixSideSelects(s, p, newer, n - 1);
      assert s[..n] == s[..n - 1] + [s[n - 1]];
      var r := SideOf(s, p, newer, n);
      assert forall x :: x in r <==> x in multiset(r);
      assert forall x :: x in s[..n] <==> x in multiset(s[..n]);
    }
  }

  /** The same for a whole sequence: `Newer` and `Older` select by side. */
  lemma SideOfSelects(s: seq<Sense>, p: CursorData, newer: bool)
    ensures forall x :: multiset(SideOf(s, p, newer, |s|))[x] == if IsAfter(x, p) == newer then multiset(s)[x] else 0
    ensures forall x :: x in SideOf(s, p, newer, |s|) <==> x in s && IsAfter(x, p) == newer
  {
    PrefixSideSelects(s, p, newer, |s|);
    assert s[..|s|] == s;
  }

  /** Inserts `x` after the last record that is not older than it. */
  function Insert(x: Sense, s: seq<Sense>): (r: seq<Sense>)
    ensures |r| == |s| + 1
  {
    if |s| == 0 || !Earlier(KeyOf(s[|s| - 1]), KeyOf(x)) then
      s + [x]
    else
      Insert(x, s[..|s| - 1]) + [s[|s| - 1]]
  }

  /** Inserting adds `x` and loses nothing. */
  lemma {:induction false} InsertPermutes(x: Sense, s: seq<Sense>)
    ensures multiset(Insert(x, s)) == multiset(s) + multiset{x}
  {
    if |s| > 0 && Earlier(KeyOf(s[|s| - 1]), KeyOf(x)) {
      var t := s[..|s| - 1];
      InsertPermutes(x, t);
      assert s == t + [s[|s| - 1]];
    }
  }

  /** Inserting into a list in order keeps it in order. */
  lemma {:induction false} InsertKeepsOrder(x: Sense, s: seq<Sense>)
    requires SortedNewestFirst(s)
    ensures SortedNewestFirst(Insert(x, s))
  {
    if |s| == 0 || !Earlier(KeyOf(s[|s| - 1]), KeyOf(x)) {
      InsertLast(x, s);
    } else {
      var t := s[..|s| - 1];
      assert SortedNewestFirst(t);
      InsertKeepsOrder(x, t);
      InsertPermutes(x, t);
      InsertBefore(x, s, Insert(x, t));
    }
  }

  lemma InsertLast(x: Sense, s: seq<Sense>)
    requires |s| == 0 || !Earlier(KeyOf(s[|s| - 1]), KeyOf(x))
    requires SortedNewestFirst(s)
    ensures SortedNewestFirst(s + [x])
  {
    assert forall z :: z in s ==> !Earlier(KeyOf(z), KeyOf(x)) by {
      forall z | z in s ensures !Earlier(KeyOf(z), KeyOf(x)) {
        var i :| 0 <= i < |s| && s[i] == z;
        assert i == |s| - 1 || !Earlier(KeyOf(s[i]), KeyOf(s[|s| - 1]));
      }
    }
    SnocSorted(s, x);
  }

  lemma InsertBefore(x: Sense, s: seq<Sense>, rest: seq<Sense>)
    requires |s| > 0 && Earlier(KeyOf(s[|s| - 1]), KeyOf(x))
    requires multiset(rest) == multiset(s[..|s| - 1]) + multiset{x}
    requires SortedNewestFirst(s) && SortedNewestFirst(rest)
    ensures SortedNewestFirst(rest + [s[|s| - 1]])
  {
    var t, last := s[..|s| - 1], s[|s| - 1];
    assert forall z :: z in rest ==> !Earlier(KeyOf(z), KeyOf(last)) by {
      forall z | z in rest ensures !Earlier(KeyOf(z), KeyOf(last)) {
        assert z in multiset(rest);
        if z != x {
          assert z in multiset(t);
          var i :| 0 <= i < |t| && t[i] == z;
          assert s[i] == z;
        }
      }
    }
    SnocSorted(rest, last);
  }

  lemma SnocSorted(t: seq<Sense>, y: Sense)
    requires SortedNewestFirst(t)
    requires forall z :: z in t ==> !Earlier(KeyOf(z), KeyOf(y))
    ensures SortedNewestFirst(t + [y])
  {
    var r := t + [y];
    forall i, j | 0 <= i < j < |r| ensures !Earlier(KeyOf(r[i]), KeyOf(r[j])) {
      assert r[i] == t[i];
      if j < |t| {
        assert r[j] == t[j];
      } else {
        assert r[i] in t;
      }
    }
  }

  /** `ORDER BY created_at DESC, id DESC`, as an insertion sort. That the
      result is in order is `SortNewestFirstOrders`. */
  function SortNewestFirst(s: seq<Sense>): (r: seq<Sense>)
    ensures |r| == |s|
  {
    SortPrefix(s, |s|)
  }

  /** The first `n` records of `s`, sorted. */
  function SortPrefix(s: seq<Sense>, n: nat): (r: seq<Sense>)
    requires n <= |s|
    ensures |r| == n
  {
    if n == 0 then [] else Insert(s[n - 1], SortPrefix(s, n - 1))
  }

  lemma {:induction false} SortPrefixPermutes(s: seq<Sense>, n: nat)
    requires n <= |s|
    ensures multiset(SortPrefix(s, n)) == multiset(s[..n])
  {
    if n > 0 {
      var front := SortPrefix(s, n - 1);
      assert SortPrefix(s, n) == Insert(s[n - 1], front);
      InsertPermutes(s[n - 1], front);
      SortPrefixPermutes(s, n - 1);
      PrefixMultiset(s, n);
    }
  }

  lemma PrefixMultiset<T>(s: seq<T>, n: nat)
    requires 0 < n <= |s|
    ensures multiset(s[..n]) == multiset(s[..n - 1]) + multiset{s[n - 1]}
  {
    assert s[..n] == s[..n - 1] + [s[n - 1]];
  }

  lemma {:induction false} SortPrefixOrders(s: seq<Sense>, n: nat)
    requires n <= |s|
    ensures SortedNewestFirst(SortPrefix(s, n))
  {
    if n > 0 {
      SortPrefixOrders(s, n - 1);
      InsertKeepsOrder(s[n - 1], SortPrefix(s, n - 1));
    }
  }

  /** The sort rearranges the records, adding and losing none. */
  lemma SortNewestFirstPermutes(s: seq<Sense>)
    ensures multiset(SortNewestFirst(s)) == multiset(s)
  {
    SortPrefixPermutes(s, |s|);
    assert s[..|s|] == s;
  }

  /** The sort puts the records newest first, strictly so when their keys
      are distinct. */
  lemma SortNewestFirstOrders(s: seq<Sense>)
    ensures SortedNewestFirst(SortNewestFirst(s))
    ensures DistinctKeys(s) ==> NewestFirst(SortNewestFirst(s))
  {
    SortPrefixOrders(s, |s|);
    SortNewestFirstPermutes(s);
    PermutedStrict(s, SortNewestFirst(s));
  }

  /** Both occurrences of a record that occurs twice can be located. */
  lemma {:induction false} TwoOccurrences(s: seq<Sense>, x: Sense)
    requires multiset(s)[x] >= 2
    ensures exists i, j :: 0 <= i < j < |s| && s[i] == x && s[j] == x
  {
    assert s == [s[0]] + s[1..];
    if s[0] == x {
      assert x in multiset(s[1..]);
      var j :| 0 <= j < |s[1..]| && s[1..][j] == x;
      assert s[j + 1] == x;
    } else {
      TwoOccurrences(s[1..], x);
      var i, j :| 0 <= i < j < |s[1..]| && s[1..][i] == x && s[1..][j] == x;
      assert s[i + 1] == x && s[j + 1] == x;
    }
  }

  /** A sorted rearrangement of records with distinct keys is strictly sorted. */
  lemma PermutedStrict(s: seq<Sense>, d: seq<Sense>)
    requires SortedNewestFirst(d) && multiset(d) == multiset(s)
    ensures DistinctKeys(s) ==> NewestFirst(d)
  {
    if DistinctKeys(s) {
      StrictWhenDistinct(s, d);
    }
  }

  lemma StrictWhenDistinct(s: seq<Sense>, d: seq<Sense>)
    requires DistinctKeys(s) && SortedNewestFirst(d)
    requires multiset(d) == multiset(s)
    ensures NewestFirst(d)
  {
    DistinctKeysOnce(s);
    forall i, j | 0 <= i < j < |d| ensures Earlier(KeyOf(d[j]), KeyOf(d[i])) {
      assert d == d[..j] + d[j..];
      assert d[i] in multiset(d[..j]) && d[j] in multiset(d[j..]);
      assert multiset(s)[d[i]] <= 1;
      assert d[i] != d[j];
      assert d[i] in multiset(s) && d[j] in multiset(s);
      var a :| 0 <= a < |s| && s[a] == d[i];
      var b :| 0 <= b < |s| && s[b] == d[j];
      if a < b {
        assert KeysDiffer(s, a, b);
      } else {
        assert KeysDiffer(s, b, a);
      }
    }
  }

  /** Records with distinct keys occur at most once. */
  lemma {:induction false} DistinctKeysOnce(s: seq<Sense>)
    requires DistinctKeys(s)
    ensures forall x :: multiset(s)[x] <= 1
  {
    if s != [] {
      var t := s[1..];
      assert s == [s[0]] + t;
      forall i, j | 0 <= i < j < |t| ensures KeysDiffer(t, i, j) {
        assert KeysDiffer(s, i + 1, j + 1);
      }
      DistinctKeysOnce(t);
      assert forall k :: 0 <= k < |t| ==> t[k] != s[0] by {
        forall k | 0 <= k < |t| ensures t[k] != s[0] {
          assert t[k] == s[k + 1];
          assert KeysDiffer(s, 0, k + 1);
        }
      }
      assert multiset(t)[s[0]] == 0;
    }
  }

  /** `s` back to front. */
  function Reverse<T>(s: seq<T>): (r: seq<T>)
    ensures |r| == |s|
  {
    ReversePrefix(s, |s|)
  }

  /** The first `n` elements of `s`, back to front. */
  function ReversePrefix<T>(s: seq<T>, n: nat): (r: seq<T>)
    requires n <= |s|
    ensures |r| == n
  {
    if n == 0 then [] else [s[n - 1]] + ReversePrefix(s, n - 1)
  }

  lemma {:induction false} ReversePrefixAt<T>(s: seq<T>, n: nat, k: nat)
    requires k < n <= |s|
    ensures ReversePrefix(s, n)[k] == s[n - 1 - k]
  {
    if k > 0 {
      ReversePrefixAt(s, n - 1, k - 1);
    }
  }

  /** Position `k` of the reversal holds position `|s| - 1 - k` of `s`. */
  lemma ReverseAt<T>(s: seq<T>, k: nat)
    requires k < |s|
    ensures Reverse(s)[k] == s[|s| - 1 - k]
  {
    ReversePrefixAt(s, |s|, k);
  }

  /** `ORDER BY created_at ASC, id ASC`: the reverse of the newest-first order. */
  function SortOldestFirst(s: seq<Sense>): (r: seq<Sense>)
    ensures |r| == |s|
  {
    Reverse(SortNewestFirst(s))
  }

  /** With distinct keys the ascending order is strictly oldest first. */
  lemma SortOldestFirstOrders(s: seq<Sense>)
    requires DistinctKeys(s)
    ensures forall i, j :: 0 <= i < j < |SortOldestFirst(s)| ==> Earlier(KeyOf(SortOldestFirst(s)[i]), KeyOf(SortOldestFirst(s)[j]))
  {
    var d := SortNewestFirst(s);
    SortNewestFirstOrders(s);
    forall i, j | 0 <= i < j < |d|
      ensures Earlier(KeyOf(SortOldestFirst(s)[i]), KeyOf(SortOldestFirst(s)[j]))
    {
      ReverseAt(d, i);
      ReverseAt(d, j);
    }
  }

  /** Every record of the ascending order is one of the records sorted. */
  lemma OldestFirstMember(s: seq<Sense>, k: nat)
    requires k < |SortOldestFirst(s)|
    ensures SortOldestFirst(s)[k] in s
  {
    var a := SortNewestFirst(s);
    SortNewestFirstPermutes(s);
    ReverseAt(a, k);
    assert a[|a| - 1 - k] in multiset(s);
  }

  lemma UniqueIdsDistinctKeys(s: seq<Sense>)
    requires UniqueIds(s)
    ensures DistinctKeys(s)
  {
    forall i, j | 0 <= i < j < |s| ensures KeysDiffer(s, i, j) {
    }
  }

  /** A sorted sequence and a strictly sorted sequence holding the same
      records are the same sequence: the newest-first order is unique once
      keys are distinct. */
  lemma {:induction false} SortedEqual(a: seq<Sense>, b: seq<Sense>)
    requires SortedNewestFirst(a) && NewestFirst(b)
    requires multiset(a) == multiset(b)
    ensures a == b
    decreases |a|
  {
    assert |a| == |multiset(a)| == |b|;
    if a != [] {
      SameNewest(a, b);
      SameRest(a, b);
      SortedEqual(a[1..], b[1..]);
      assert a == [a[0]] + a[1..] && b == [b[0]] + b[1..];
    }
  }

  lemma SameNewest(a: seq<Sense>, b: seq<Sense>)
    requires SortedNewestFirst(a) && NewestFirst(b)
    requires multiset(a) == multiset(b) && a != [] && b != []
    ensures a[0] == b[0]
  {
    assert a[0] in multiset(b);
    var k :| 0 <= k < |b| && b[k] == a[0];
    assert b[0] in multiset(a);
    var m :| 0 <= m < |a| && a[m] == b[0];
    assert !Earlier(KeyOf(b[k]), KeyOf(b[0]));
  }

  lemma SameRest<T>(a: seq<T>, b: seq<T>)
    requires multiset(a) == multiset(b) && a != [] && b != [] && a[0] == b[0]
    ensures multiset(a[1..]) == multiset(b[1..])
  {
    assert a == [a[0]] + a[1..] && b == [b[0]] + b[1..];
    assert multiset(a[1..]) == multiset(a) - multiset{a[0]};
    assert multiset(b[1..]) == multiset(b) - multiset{b[0]};
  }

  /** On a newest-first sequence the pivot splits the records into a prefix
      of newer ones and a suffix of the rest. */
  lemma SplitAtPivot(s: seq<Sense>, p: CursorData)
    requires SortedNewestFirst(s)
    ensures Newer(s, p) == s[..|Newer(s, p)|]
    ensures Older(s, p) == s[|Newer(s, p)|..]
  {
    SplitPrefix(s, p, |s|);
  }

  lemma {:induction false} SplitPrefix(s: seq<Sense>, p: CursorData, n: nat)
    requires SortedNewestFirst(s) && n <= |s|
    ensures |SideOf(s, p, true, n)| <= n
    ensures SideOf(s, p, true, n) == s[..|SideOf(s, p, true, n)|]
    ensures SideOf(s, p, false, n) == s[|SideOf(s, p, true, n)|..n]
  {
    if n > 0 {
      SplitPrefix(s, p, n - 1);
      var k := |SideOf(s, p, true, n - 1)|;
      if IsAfter(s[n - 1], p) {
        if k < n - 1 {
          assert SideOf(s, p, false, n - 1)[0] == s[k];
          OlderSideNotAfter(s, p, n - 1);
          assert false;
        }
        assert s[..n] == s[..n - 1] + [s[n - 1]];
      } else {
        assert s[k..n] == s[k..n - 1] + [s[n - 1]];
      }
    }
  }

  lemma {:induction false} OlderSideNotAfter(s: seq<Sense>, p: CursorData, n: nat)
    requires n <= |s|
    ensures forall i :: 0 <= i < |SideOf(s, p, false, n)| ==> !IsAfter(SideOf(s, p, false, n)[i], p)
  {
    if n > 0 {
      OlderSideNotAfter(s, p, n - 1);
    }
  }

  /** In a strictly newest-first sequence the records newer than the one at
      position `j` are exactly the first `j`. */
  lemma {:induction false} SplitAtRecord(s: seq<Sense>, j: nat)
    requires NewestFirst(s) && j < |s|
    ensures Newer(s, KeyOf(s[j])) == s[..j]
    ensures Older(s, KeyOf(s[j])) == s[j..]
  {
    var p := KeyOf(s[j]);
    SplitAtPivot(s, p);
    var k := |Newer(s, p)|;
    RecordSides(s, j);
    PivotPosition(s, j, k);
  }

  lemma RecordSides(s: seq<Sense>, j: nat)
    requires NewestFirst(s) && j < |s|
    ensures s[j] in Older(s, KeyOf(s[j]))
    ensures 0 < j ==> s[j - 1] in Newer(s, KeyOf(s[j]))
  {
    SideOfSelects(s, KeyOf(s[j]), true);
    SideOfSelects(s, KeyOf(s[j]), false);
  }

  lemma PivotPosition(s: seq<Sense>, j: nat, k: nat)
    requires NewestFirst(s) && j < |s| && k <= |s|
    requires s[j] in s[k..]
    requires 0 < j ==> s[j - 1] in s[..k]
    ensures j == k
  {
    var a :| k <= a < |s| && s[a] == s[j];
    assert a == j;
    if 0 < j {
      var b :| 0 <= b < k && s[b] == s[j - 1];
      assert b == j - 1;
    }
  }

  lemma SidesPermute(s: seq<Sense>, t: seq<Sense>, p: CursorData, newer: bool)
    requires multiset(s) == multiset(t)
    ensures multiset(SideOf(s, p, newer, |s|)) == multiset(SideOf(t, p, newer, |t|))
  {
    SideOfSelects(s, p, newer);
    SideOfSelects(t, p, newer);
    var a, b := multiset(SideOf(s, p, newer, |s|)), multiset(SideOf(t, p, newer, |t|));
    assert forall x :: a[x] == b[x];
  }

  /** With distinct keys, sorting the records newer than the pivot gives the
      first `k` records of the full order, and sorting the rest gives the
      remainder, where `k` counts the newer records. */
  lemma SortedSides(s: seq<Sense>, p: CursorData)
    requires DistinctKeys(s)
    ensures |Newer(s, p)| <= |s|
    ensures SortNewestFirst(Newer(s, p)) == SortNewestFirst(s)[..|Newer(s, p)|]
    ensures SortNewestFirst(Older(s, p)) == SortNewestFirst(s)[|Newer(s, p)|..]
  {
    var d := SortNewestFirst(s);
    SortNewestFirstOrders(s);
    SortNewestFirstOrders(Newer(s, p));
    SortNewestFirstOrders(Older(s, p));
    SortNewestFirstPermutes(s);
    SortNewestFirstPermutes(Newer(s, p));
    SortNewestFirstPermutes(Older(s, p));
    SplitAtPivot(d, p);
    var k := |Newer(d, p)|;
    SidesPermute(s, d, p, true);
    SidesPermute(s, d, p, false);
    assert |Newer(s, p)| == k by {
      assert |multiset(Newer(s, p))| == |multiset(Newer(d, p))|;
    }
    SortedSlice(d, k);
    SortedEqual(SortNewestFirst(Newer(s, p)), d[..k]);
    SortedEqual(SortNewestFirst(Older(s, p)), d[k..]);
  }

  lemma SortedSlice(d: seq<Sense>, k: nat)
    requires NewestFirst(d) && k <= |d|
    ensures NewestFirst(d[..k]) && NewestFirst(d[k..])
  {
    assert forall i, j :: 0 <= i < j < |d| - k ==> d[k..][i] == d[k + i] && d[k..][j] == d[k + j];
  }
}
