/** The server's record queries (`DatabaseService` in
    soul_diary/backend/database/service.py), with the SQL written as
    operations on the sequence of table rows: `WHERE` is a filter and
    `ORDER BY ... OFFSET ... LIMIT ...` a sort followed by a slice. */
module DatabaseService {
  import opened Results
  import opened Senses
  import opened Windows
  import Cursor

  /** A row of the `senses` table: the record and the id of the user owning it. */
  datatype SenseRow = SenseRow(userId: Uuid, sense: Sense)

  /** What `get_senses` returns: the page and the two encoded cursors. */
  datatype SensesResult = SensesResult(senses: seq<Sense>, previous: Option<string>, next: Option<string>)

  /** The table's primary key: no two rows share a record id. */
  ghost predicate PrimaryKey(rows: seq<SenseRow>) {
    forall i, j :: 0 <= i < j < |rows| ==> rows[i].sense.id != rows[j].sense.id
  }

  /** `get_senses_filters`: the rows whose owner is `user`, as records. */
  function UserSenses(rows: seq<SenseRow>, user: Uuid): (r: seq<Sense>)
    ensures |r| <= |rows|
    ensures forall i :: 0 <= i < |rows| && rows[i].userId == user ==> rows[i].sense in r
    ensures forall x :: x in r ==> exists i :: 0 <= i < |rows| && rows[i].userId == user && rows[i].sense == x
    ensures PrimaryKey(rows) ==> UniqueIds(r)
  {
    if |rows| == 0 then []
    else
      var init, last := rows[..|rows| - 1], rows[|rows| - 1];
      var rest := UserSenses(init, user);
      assert forall i :: 0 <= i < |init| ==> rows[i] == init[i];
      if last.userId == user then
        assert PrimaryKey(rows) ==> forall x :: x in rest ==> x.id != last.sense.id;
        rest + [last.sense]
      else
        rest
  }

  /** `get_senses_count`: how many records the user owns. It depends on
      neither the cursor nor the limit. */
  function SensesCount(rows: seq<SenseRow>, user: Uuid): (n: nat)
    ensures n <= |rows|
    ensures n == 0 <==> forall i :: 0 <= i < |rows| ==> rows[i].userId != user
    ensures n == OwnedCount(rows, user)
  {
    var owned := UserSenses(rows, user);
    assert owned != [] ==> owned[0] in owned;
    UserSensesCounted(rows, user);
    |owned|
  }

  /** The number of rows owned by `user`, counted row by row over the table. */
  function OwnedCount(rows: seq<SenseRow>, user: Uuid): nat {
    if |rows| == 0 then 0
    else OwnedCount(rows[..|rows| - 1], user) + (if rows[|rows| - 1].userId == user then 1 else 0)
  }

  /** The owner filter keeps one record per owned row. */
  lemma {:induction false} UserSensesCounted(rows: seq<SenseRow>, user: Uuid)
    ensures |UserSenses(rows, user)| == OwnedCount(rows, user)
  {
    if |rows| > 0 {
      UserSensesCounted(rows[..|rows| - 1], user);
    }
  }

  /** The rows the main query selects: everything without a cursor, else
      the records at or before the pivot. */
  function Candidates(owned: seq<Sense>, pivot: Option<CursorData>): (r: seq<Sense>)
    ensures |r| <= |owned|
  {
    match pivot
    case None => owned
    case Some(p) => Older(owned, p)
  }

  lemma CandidatesSelect(owned: seq<Sense>, pivot: Option<CursorData>)
    ensures forall x :: x in Candidates(owned, pivot) <==> x in owned && (pivot.Some? ==> !IsAfter(x, pivot.value))
  {
    if pivot.Some? {
      SideOfSelects(owned, pivot.value, false);
    }
  }

  /** Python's `s[:-1]`, which is empty on an empty list. */
  function DropLast<T>(s: seq<T>): (r: seq<T>)
    ensures |r| == if |s| == 0 then 0 else |s| - 1
  {
    if |s| == 0 then [] else s[..|s| - 1]
  }

  /** The previous-page lookup: among the records strictly after the pivot,
      in ascending order, skip `offset` and take one. */
  function PreviousLookup(owned: seq<Sense>, pivot: Option<CursorData>, offset: nat): (r: Option<CursorData>)
    ensures pivot.None? ==> r.None?
    ensures pivot.Some? ==> (r.Some? <==> |Newer(owned, pivot.value)| > offset)
    ensures r.Some? ==> Earlier(pivot.value, r.value)
  {
    match pivot
    case None => None
    case Some(p) =>
      var ascending := SortOldestFirst(Newer(owned, p));
      if |ascending| > offset then
        var x := ascending[offset];
        assert IsAfter(x, p) by {
          OldestFirstMember(Newer(owned, p), offset);
          SideOfSelects(owned, p, true);
        }
        Some(KeyOf(x))
      else
        None
  }

  /** The previous pivot is the key of one of the user's records. */
  lemma PreviousIsOwned(owned: seq<Sense>, pivot: Option<CursorData>, offset: nat)
    requires PreviousLookup(owned, pivot, offset).Some?
    ensures exists x :: x in owned && KeyOf(x) == PreviousLookup(owned, pivot, offset).value
  {
    var p := pivot.value;
    var ascending := SortOldestFirst(Newer(owned, p));
    var x := ascending[offset];
    assert x in owned by {
      OldestFirstMember(Newer(owned, p), offset);
      SideOfSelects(owned, p, true);
    }
  }

  /** The main query: the candidates newest first, at most `limit + 1` of them. */
  function Fetch(owned: seq<Sense>, pivot: Option<CursorData>, limit: nat): (r: seq<Sense>)
    ensures |r| == Min(|Candidates(owned, pivot)|, limit + 1)
  {
    var sorted := SortNewestFirst(Candidates(owned, pivot));
    sorted[..Min(|sorted|, limit + 1)]
  }

  /** The fetched rows are candidates, newest first, and no candidate left
      out is newer than one fetched. */
  lemma FetchOrdered(owned: seq<Sense>, pivot: Option<CursorData>, limit: nat)
    ensures SortedNewestFirst(Fetch(owned, pivot, limit))
    ensures forall x :: x in Fetch(owned, pivot, limit) ==> x in Candidates(owned, pivot)
    ensures forall x :: x in Candidates(owned, pivot) && x !in Fetch(owned, pivot, limit) ==>
              forall y :: y in Fetch(owned, pivot, limit) ==> !Earlier(KeyOf(y), KeyOf(x))
  {
    var sorted := SortNewestFirst(Candidates(owned, pivot));
    SortNewestFirstOrders(Candidates(owned, pivot));
    var r := Fetch(owned, pivot, limit);
    assert forall x :: x in sorted <==> x in Candidates(owned, pivot) by {
      SortNewestFirstPermutes(Candidates(owned, pivot));
      assert forall x :: x in sorted <==> x in multiset(sorted);
    }
    assert forall x :: x in sorted && x !in r ==> exists k :: |r| <= k < |sorted| && sorted[k] == x;
  }

  /** The extra fetched row, when the query returned one. */
  function NextOf(fetched: seq<Sense>, limit: nat): (r: Option<CursorData>)
    ensures r.Some? <==> |fetched| == limit + 1
  {
    if |fetched| == limit + 1 then Some(KeyOf(fetched[limit])) else None
  }

  /** `get_senses`, once the cursor has been decoded, as a function of the
      user's records. The previous pivot is the record `limit` places
      into the ascending list of newer records (`offset(limit)`), the next
      pivot is the extra `limit + 1`-th fetched row, and the page is every
      fetched row but the last (`senses[:-1]`). */
  function Query(owned: seq<Sense>, pivot: Option<CursorData>, limit: nat): (r: Page)
    requires limit >= 1
    ensures |r.senses| == if |Candidates(owned, pivot)| == 0 then 0 else Min(|Candidates(owned, pivot)|, limit + 1) - 1
    ensures r.next.Some? <==> |Candidates(owned, pivot)| > limit
    ensures r.next.Some? ==> |r.senses| == limit
    ensures pivot.None? ==> r.previous.None?
    ensures pivot.Some? ==> (r.previous.Some? <==> |Newer(owned, pivot.value)| > limit)
    ensures r.previous.Some? ==> Earlier(pivot.value, r.previous.value)
  {
    var fetched := Fetch(owned, pivot, limit);
    Page(DropLast(fetched), PreviousLookup(owned, pivot, limit), NextOf(fetched, limit))
  }

  /** The page is newest first and holds only the user's records at or
      before the pivot; the next pivot is a candidate no newer than any
      record on the page. */
  lemma QueryOrdered(owned: seq<Sense>, pivot: Option<CursorData>, limit: nat)
    requires limit >= 1
    ensures SortedNewestFirst(Query(owned, pivot, limit).senses)
    ensures forall x :: x in Query(owned, pivot, limit).senses ==> x in owned && (pivot.Some? ==> !IsAfter(x, pivot.value))
    ensures Query(owned, pivot, limit).next.Some? ==>
              exists x :: x in Candidates(owned, pivot) && KeyOf(x) == Query(owned, pivot, limit).next.value
    ensures Query(owned, pivot, limit).next.Some? ==>
              forall x :: x in Query(owned, pivot, limit).senses ==> !Earlier(KeyOf(x), Query(owned, pivot, limit).next.value)
  {
    var fetched := Fetch(owned, pivot, limit);
    FetchOrdered(owned, pivot, limit);
    CandidatesSelect(owned, pivot);
    DropLastOfSorted(fetched);
    if |fetched| == limit + 1 {
      assert fetched[limit] in fetched;
    }
  }

  lemma DropLastOfSorted(fetched: seq<Sense>)
    requires SortedNewestFirst(fetched)
    ensures SortedNewestFirst(DropLast(fetched))
    ensures forall x :: x in DropLast(fetched) ==> x in fetched
    ensures fetched != [] ==> forall x :: x in DropLast(fetched) ==> !Earlier(KeyOf(x), KeyOf(fetched[|fetched| - 1]))
  {
  }

  /** `get_senses`: decodes the cursor (an undecodable one is an error),
      runs the query and encodes the two pivots. */
  function GetSenses(rows: seq<SenseRow>, user: Uuid, cursor: Option<string>, limit: nat): (r: Result<SensesResult, Cursor.CursorError>)
    requires limit >= 1
    ensures r.Failure? <==> cursor.Some? && Cursor.Decode(cursor.value).Failure?
    ensures r.Failure? ==> r.error == Cursor.Decode(cursor.value).error
    ensures r.Success? ==> |r.value.senses| <= limit
    ensures r.Success? && r.value.next.Some? ==> |r.value.senses| == limit
    ensures r.Success? ==>
      var pivot := if cursor.None? then None else Some(Cursor.Decode(cursor.value).value);
      var page := Query(UserSenses(rows, user), pivot, limit);
      && r.value.senses == page.senses
      && (r.value.next.Some? <==> page.next.Some?)
      && (r.value.next.Some? ==> Cursor.Decode(r.value.next.value) == Success(page.next.value))
      && (r.value.previous.Some? <==> page.previous.Some?)
      && (r.value.previous.Some? ==> Cursor.Decode(r.value.previous.value) == Success(page.previous.value))
  {
    var pivot :- match cursor
      case None => Success(None)
      case Some(token) =>
        match Cursor.Decode(token)
        case Failure(e) => Failure(e)
        case Success(p) => Success(Some(p));
    var page := Query(UserSenses(rows, user), pivot, limit);
    TokenDecodes(page.previous);
    TokenDecodes(page.next);
    Success(SensesResult(page.senses, page.previous.Map(Cursor.Encode), page.next.Map(Cursor.Encode)))
  }


  /** A pivot, once encoded as a token, decodes back to itself. */
  lemma TokenDecodes(pivot: Option<CursorData>)
    ensures pivot.Map(Cursor.Encode).Some? <==> pivot.Some?
    ensures pivot.Some? ==> Cursor.Decode(pivot.Map(Cursor.Encode).value) == Success(pivot.value)
  {
    if pivot.Some? {
      Cursor.RoundTrip(pivot.value);
    }
  }

  // ---------------------------------------------------------------------
  // Where a page sits in the user's newest-first order

  /** Position in the newest-first order at which the query's candidates begin. */
  function StartOf(owned: seq<Sense>, pivot: Option<CursorData>): nat {
    match pivot
    case None => 0
    case Some(p) => |Newer(owned, p)|
  }

  /** With distinct keys the candidates, newest first, are the run of the
      full order from `StartOf` to the end. */
  lemma CandidatesAreTail(owned: seq<Sense>, pivot: Option<CursorData>)
    requires DistinctKeys(owned)
    ensures StartOf(owned, pivot) <= |SortNewestFirst(owned)|
    ensures SortNewestFirst(Candidates(owned, pivot)) == Sub(SortNewestFirst(owned), StartOf(owned, pivot), |SortNewestFirst(owned)|)
  {
    var d := SortNewestFirst(owned);
    if pivot.Some? {
      SortedSides(owned, pivot.value);
    } else {
      assert d[0..|d|] == d;
    }
    SubIsSlice(d, StartOf(owned, pivot), |d|);
  }

  /** ... and the records newer than the pivot are the run before it. */
  lemma NewerIsHead(owned: seq<Sense>, pivot: Option<CursorData>)
    requires DistinctKeys(owned) && pivot.Some?
    ensures StartOf(owned, pivot) <= |SortNewestFirst(owned)|
    ensures SortNewestFirst(Newer(owned, pivot.value)) == SortNewestFirst(owned)[..StartOf(owned, pivot)]
  {
    SortedSides(owned, pivot.value);
  }

  /** The record at position `k` of the order, used as a pivot, starts its
      page at `k`. */
  lemma StartOfRecord(owned: seq<Sense>, k: nat)
    requires DistinctKeys(owned) && k < |owned|
    ensures StartOf(owned, Some(KeyOf(SortNewestFirst(owned)[k]))) == k
  {
    var d := SortNewestFirst(owned);
    var p := KeyOf(d[k]);
    assert Newer(d, p) == d[..k] by {
      SortNewestFirstOrders(owned);
      SplitAtRecord(d, k);
    }
    assert multiset(Newer(owned, p)) == multiset(Newer(d, p)) by {
      SortNewestFirstPermutes(owned);
      SidesPermute(owned, d, p, true);
    }
    assert |Newer(owned, p)| == |multiset(Newer(owned, p))| == |multiset(Newer(d, p))| == k;
  }

  /** The previous-page lookup with skip `offset` names the record
      `offset + 1` places before the pivot's position. */
  lemma PreviousAt(owned: seq<Sense>, pivot: Option<CursorData>, offset: nat)
    requires DistinctKeys(owned) && pivot.Some?
    ensures StartOf(owned, pivot) <= |SortNewestFirst(owned)|
    ensures PreviousLookup(owned, pivot, offset) ==
              if StartOf(owned, pivot) > offset
              then Some(KeyOf(SortNewestFirst(owned)[StartOf(owned, pivot) - 1 - offset]))
              else None
  {
    var p := pivot.value;
    var d, j := SortNewestFirst(owned), StartOf(owned, pivot);
    var a := SortNewestFirst(Newer(owned, p));
    assert j <= |d| && a == d[..j] by {
      NewerIsHead(owned, pivot);
    }
    var ascending := SortOldestFirst(Newer(owned, p));
    if j > offset {
      ReverseAt(a, offset);
    }
  }

  /** The main query fetches the run of at most `limit + 1` records from
      the pivot's position. */
  lemma FetchAt(owned: seq<Sense>, pivot: Option<CursorData>, limit: nat)
    requires DistinctKeys(owned)
    ensures (var d, j := SortNewestFirst(owned), StartOf(owned, pivot);
             j <= |d| && Fetch(owned, pivot, limit) == Sub(d, j, Min(j + limit + 1, |d|)))
  {
    var d, j, c := SortNewestFirst(owned), StartOf(owned, pivot), SortNewestFirst(Candidates(owned, pivot));
    assert j <= |d| && c == Sub(d, j, |d|) by {
      CandidatesAreTail(owned, pivot);
    }
    assert c[..Min(|c|, limit + 1)] == Sub(d, j, Min(j + limit + 1, |d|)) by {
      TakeOfTail(d, j, c, limit + 1);
    }
  }

  lemma TakeOfTail<T>(d: seq<T>, j: nat, c: seq<T>, n: nat)
    requires j <= |d| && c == Sub(d, j, |d|)
    ensures c[..Min(|c|, n)] == Sub(d, j, Min(j + n, |d|))
  {
    SubIsSlice(d, j, |d|);
    SubIsSlice(d, j, Min(j + n, |d|));
  }

  /** What `senses[:-1]` leaves of a fetched run. */
  lemma DropLastOfRun<T>(d: seq<T>, j: nat, limit: nat, fetched: seq<T>)
    requires j <= |d| && fetched == Sub(d, j, Min(j + limit + 1, |d|))
    ensures DropLast(fetched) == if j == |d| then [] else Sub(d, j, Min(j + limit + 1, |d|) - 1)
  {
    var m := Min(j + limit + 1, |d|);
    if j < |d| {
      SubIsSlice(d, j, m);
      SubIsSlice(d, j, m - 1);
      assert d[j..m][..m - 1 - j] == d[j..m - 1];
    }
  }

  /** What `senses[:limit]` leaves of a fetched run, and where the extra row is. */
  lemma TakeOfRun<T>(d: seq<T>, j: nat, limit: nat, fetched: seq<T>)
    requires j <= |d| && fetched == Sub(d, j, Min(j + limit + 1, |d|))
    ensures fetched[..Min(|fetched|, limit)] == Sub(d, j, Min(j + limit, |d|))
    ensures |fetched| == limit + 1 <==> j + limit < |d|
    ensures j + limit < |d| ==> fetched[limit] == d[j + limit]
  {
    SubIsSlice(d, j, Min(j + limit + 1, |d|));
    SubIsSlice(d, j, Min(j + limit, |d|));
  }

  /** The page, the next and the previous cursor of `get_senses` as
      positions of the newest-first order `d`, the pivot being at `j`. */
  lemma QueryWindow(owned: seq<Sense>, pivot: Option<CursorData>, limit: nat)
    requires limit >= 1 && DistinctKeys(owned)
    ensures (var d, j, r := SortNewestFirst(owned), StartOf(owned, pivot), Query(owned, pivot, limit);
             && j <= |d|
             && r.senses == (if j == |d| then [] else Sub(d, j, Min(j + limit + 1, |d|) - 1))
             && r.next == (if j + limit < |d| then Some(KeyOf(d[j + limit])) else None)
             && r.previous == (if pivot.Some? && j > limit then Some(KeyOf(d[j - 1 - limit])) else None))
  {
    QuerySenses(owned, pivot, limit);
    QueryNext(owned, pivot, limit);
    if pivot.Some? {
      PreviousAt(owned, pivot, limit);
    }
  }

  lemma QuerySenses(owned: seq<Sense>, pivot: Option<CursorData>, limit: nat)
    requires limit >= 1 && DistinctKeys(owned)
    ensures (var d, j := SortNewestFirst(owned), StartOf(owned, pivot);
             && j <= |d|
             && Query(owned, pivot, limit).senses == (if j == |d| then [] else Sub(d, j, Min(j + limit + 1, |d|) - 1)))
  {
    var d, j, fetched := SortNewestFirst(owned), StartOf(owned, pivot), Fetch(owned, pivot, limit);
    assert j <= |d| && fetched == Sub(d, j, Min(j + limit + 1, |d|)) by {
      FetchAt(owned, pivot, limit);
    }
    assert DropLast(fetched) == if j == |d| then [] else Sub(d, j, Min(j + limit + 1, |d|) - 1) by {
      DropLastOfRun(d, j, limit, fetched);
    }
  }

  lemma QueryNext(owned: seq<Sense>, pivot: Option<CursorData>, limit: nat)
    requires limit >= 1 && DistinctKeys(owned)
    ensures (var d, j := SortNewestFirst(owned), StartOf(owned, pivot);
             && j <= |d|
             && Query(owned, pivot, limit).next == (if j + limit < |d| then Some(KeyOf(d[j + limit])) else None))
  {
    var d, j, fetched := SortNewestFirst(owned), StartOf(owned, pivot), Fetch(owned, pivot, limit);
    assert j <= |d| && fetched == Sub(d, j, Min(j + limit + 1, |d|)) by {
      FetchAt(owned, pivot, limit);
    }
    assert (|fetched| == limit + 1 <==> j + limit < |d|) && (j + limit < |d| ==> fetched[limit] == d[j + limit]) by {
      TakeOfRun(d, j, limit, fetched);
    }
  }

  /** Following the next cursor starts the following page exactly at the
      extra row: the two pages are consecutive in the order, with no record
      skipped and none repeated. */
  lemma FollowNext(owned: seq<Sense>, pivot: Option<CursorData>, limit: nat)
    requires limit >= 1 && DistinctKeys(owned)
    requires Query(owned, pivot, limit).next.Some?
    ensures (var d, j := SortNewestFirst(owned), StartOf(owned, pivot);
             var r1 := Query(owned, pivot, limit);
             var r2 := Query(owned, r1.next, limit);
             && StartOf(owned, r1.next) == j + limit
             && j + limit + |r2.senses| <= |d|
             && r1.senses == Sub(d, j, j + limit)
             && r1.senses + r2.senses == Sub(d, j, j + limit + |r2.senses|))
  {
    var d, j := SortNewestFirst(owned), StartOf(owned, pivot);
    var r1 := Query(owned, pivot, limit);
    NextAfterPage(owned, pivot, limit);
    PageIsRun(owned, pivot, limit);
    PageIsRun(owned, r1.next, limit);
    RunStep(d, j, StartOf(owned, r1.next), limit, r1.senses, Query(owned, r1.next, limit).senses);
  }

  lemma RunStep<T>(d: seq<T>, j: nat, j2: nat, limit: nat, p1: seq<T>, p2: seq<T>)
    requires j2 == j + limit && |p1| == limit
    requires j + |p1| <= |d| && p1 == Sub(d, j, j + |p1|)
    requires j2 + |p2| <= |d| && p2 == Sub(d, j2, j2 + |p2|)
    ensures j + limit + |p2| <= |d|
    ensures p1 == Sub(d, j, j + limit)
    ensures p1 + p2 == Sub(d, j, j + limit + |p2|)
  {
    SubAppend(d, j, j2, j2 + |p2|);
  }

  /** Every page is a run of the order starting at the pivot's position. */
  lemma PageIsRun(owned: seq<Sense>, pivot: Option<CursorData>, limit: nat)
    requires limit >= 1 && DistinctKeys(owned)
    ensures (var d, j, p := SortNewestFirst(owned), StartOf(owned, pivot), Query(owned, pivot, limit).senses;
             && j + |p| <= |d|
             && p == Sub(d, j, j + |p|)
             && (|p| > 0 ==> j + |p| < |d|))
  {
    var d, j, fetched := SortNewestFirst(owned), StartOf(owned, pivot), Fetch(owned, pivot, limit);
    FetchAt(owned, pivot, limit);
    DropLastIsRun(d, j, limit, fetched);
  }

  lemma DropLastIsRun<T>(d: seq<T>, j: nat, limit: nat, fetched: seq<T>)
    requires j <= |d| && fetched == Sub(d, j, Min(j + limit + 1, |d|))
    ensures (var p := DropLast(fetched);
             && j + |p| <= |d|
             && p == Sub(d, j, j + |p|)
             && (|p| > 0 ==> j + |p| < |d|))
  {
    DropLastOfRun(d, j, limit, fetched);
  }

  /** A next cursor names the record just after a full page. */
  lemma NextAfterPage(owned: seq<Sense>, pivot: Option<CursorData>, limit: nat)
    requires limit >= 1 && DistinctKeys(owned)
    requires Query(owned, pivot, limit).next.Some?
    ensures (var d, j, r := SortNewestFirst(owned), StartOf(owned, pivot), Query(owned, pivot, limit);
             j + limit < |d| && |r.senses| == limit && StartOf(owned, r.next) == j + limit)
  {
    var d, j, r := SortNewestFirst(owned), StartOf(owned, pivot), Query(owned, pivot, limit);
    assert j + limit < |d| && r.next == Some(KeyOf(d[j + limit])) by {
      QueryNext(owned, pivot, limit);
    }
    StartOfRecord(owned, j + limit);
  }

  // ---------------------------------------------------------------------
  // The two defects of `get_senses` as written

  /** `senses[:-1]` drops the last fetched row even when no extra row came
      back, so the oldest record is on no page, whatever the cursor. */
  lemma OldestRecordNeverReturned(owned: seq<Sense>, pivot: Option<CursorData>, limit: nat)
    requires limit >= 1 && DistinctKeys(owned) && owned != []
    ensures (var d := SortNewestFirst(owned); d[|d| - 1] !in Query(owned, pivot, limit).senses)
  {
    var d := SortNewestFirst(owned);
    PageIsRun(owned, pivot, limit);
    assert forall i :: 0 <= i < |d| - 1 ==> d[i] != d[|d| - 1] by {
      SortNewestFirstOrders(owned);
      LastIsUnique(d);
    }
    LastOutsideRun(d, StartOf(owned, pivot), Query(owned, pivot, limit).senses);
  }

  lemma LastIsUnique(d: seq<Sense>)
    requires NewestFirst(d) && d != []
    ensures forall i :: 0 <= i < |d| - 1 ==> d[i] != d[|d| - 1]
  {
    assert forall i :: 0 <= i < |d| - 1 ==> Earlier(KeyOf(d[|d| - 1]), KeyOf(d[i]));
  }

  /** A run that stops before the last position does not hold the last
      element, when that element occurs nowhere else. */
  lemma LastOutsideRun<T>(d: seq<T>, j: nat, p: seq<T>)
    requires j + |p| <= |d| && p == Sub(d, j, j + |p|) && (|p| > 0 ==> j + |p| < |d|)
    requires forall i :: 0 <= i < |d| - 1 ==> d[i] != d[|d| - 1]
    ensures d != [] ==> d[|d| - 1] !in p
  {
    SubIsSlice(d, j, j + |p|);
    assert forall k :: 0 <= k < |p| ==> p[k] == d[j + k];
  }

  /** A user with a single record sees an empty list. */
  lemma SingleRecordPageIsEmpty(x: Sense, limit: nat)
    requires limit >= 1
    ensures Query([x], None, limit) == Page([], None, None)
  {
    assert SortNewestFirst([x]) == [x];
  }

  /** `offset(limit)` looks one record too far back: from the second page
      (pivot at position `limit`) no previous cursor is produced at all. */
  lemma SecondPageHasNoPrevious(owned: seq<Sense>, limit: nat)
    requires limit >= 1 && DistinctKeys(owned) && |owned| > limit
    ensures Query(owned, Query(owned, None, limit).next, limit).previous == None
  {
    var d := SortNewestFirst(owned);
    var pivot := Query(owned, None, limit).next;
    assert pivot == Some(KeyOf(d[limit])) by {
      QueryNext(owned, None, limit);
    }
    assert StartOf(owned, pivot) == limit by {
      StartOfRecord(owned, limit);
    }
    assert PreviousLookup(owned, pivot, limit) == None by {
      PreviousAt(owned, pivot, limit);
    }
  }

  /** Further on, the previous cursor names the record `limit + 1` places
      back rather than `limit`, so the previous page overlaps a page it
      should not. */
  lemma PreviousOneTooFar(owned: seq<Sense>, pivot: Option<CursorData>, limit: nat)
    requires limit >= 1 && DistinctKeys(owned)
    requires Query(owned, pivot, limit).previous.Some?
    ensures StartOf(owned, Query(owned, pivot, limit).previous) == StartOf(owned, pivot) - 1 - limit
  {
    LookupLandsAt(owned, pivot, limit);
  }

  /** A previous pivot found with skip `offset` starts its page `offset + 1`
      places before the pivot's. */
  lemma LookupLandsAt(owned: seq<Sense>, pivot: Option<CursorData>, offset: nat)
    requires DistinctKeys(owned) && PreviousLookup(owned, pivot, offset).Some?
    ensures StartOf(owned, PreviousLookup(owned, pivot, offset)) == StartOf(owned, pivot) - 1 - offset
  {
    var d, j := SortNewestFirst(owned), StartOf(owned, pivot);
    assert j <= |d| && j > offset && PreviousLookup(owned, pivot, offset) == Some(KeyOf(d[j - 1 - offset])) by {
      PreviousAt(owned, pivot, offset);
    }
    StartOfRecord(owned, j - 1 - offset);
  }

  // ---------------------------------------------------------------------
  // The query with both defects corrected

  /** `get_senses` with the evident intent: the page is the first `limit`
      fetched rows (`senses[:limit]`) and the previous pivot is looked up
      with `offset(limit - 1)`. */
  function QueryCorrected(owned: seq<Sense>, pivot: Option<CursorData>, limit: nat): (r: Page)
    requires limit >= 1
    ensures |r.senses| == Min(|Candidates(owned, pivot)|, limit)
    ensures r.next.Some? <==> |Candidates(owned, pivot)| > limit
    ensures pivot.None? ==> r.previous.None?
    ensures pivot.Some? ==> (r.previous.Some? <==> |Newer(owned, pivot.value)| >= limit)
  {
    var fetched := Fetch(owned, pivot, limit);
    Page(fetched[..Min(|fetched|, limit)], PreviousLookup(owned, pivot, limit - 1), NextOf(fetched, limit))
  }

  /** The corrected page is newest first and holds only the user's records
      at or before the pivot. */
  lemma QueryCorrectedOrdered(owned: seq<Sense>, pivot: Option<CursorData>, limit: nat)
    requires limit >= 1
    ensures SortedNewestFirst(QueryCorrected(owned, pivot, limit).senses)
    ensures forall x :: x in QueryCorrected(owned, pivot, limit).senses ==> x in owned && (pivot.Some? ==> !IsAfter(x, pivot.value))
  {
    var fetched := Fetch(owned, pivot, limit);
    FetchOrdered(owned, pivot, limit);
    CandidatesSelect(owned, pivot);
    assert forall x :: x in fetched[..Min(|fetched|, limit)] ==> x in fetched;
  }

  /** The corrected page, next and previous cursor as positions of the
      newest-first order: exactly the `limit` records from the pivot's
      position, and the records `limit` places either side of it. */
  lemma CorrectedWindow(owned: seq<Sense>, pivot: Option<CursorData>, limit: nat)
    requires limit >= 1 && DistinctKeys(owned)
    ensures (var d, j, r := SortNewestFirst(owned), StartOf(owned, pivot), QueryCorrected(owned, pivot, limit);
             && j <= |d|
             && r.senses == Sub(d, j, Min(j + limit, |d|))
             && r.next == (if j + limit < |d| then Some(KeyOf(d[j + limit])) else None)
             && r.previous == (if pivot.Some? && j >= limit then Some(KeyOf(d[j - limit])) else None))
  {
    CorrectedRun(owned, pivot, limit);
    if pivot.Some? {
      CorrectedPrevious(owned, pivot, limit);
    }
  }

  lemma CorrectedRun(owned: seq<Sense>, pivot: Option<CursorData>, limit: nat)
    requires limit >= 1 && DistinctKeys(owned)
    ensures (var d, j, r := SortNewestFirst(owned), StartOf(owned, pivot), QueryCorrected(owned, pivot, limit);
             && j <= |d|
             && r.senses == Sub(d, j, Min(j + limit, |d|))
             && r.next == (if j + limit < |d| then Some(KeyOf(d[j + limit])) else None)
             && (pivot.None? ==> r.previous == None))
  {
    var d, j, fetched := SortNewestFirst(owned), StartOf(owned, pivot), Fetch(owned, pivot, limit);
    assert j <= |d| && fetched == Sub(d, j, Min(j + limit + 1, |d|)) by {
      FetchAt(owned, pivot, limit);
    }
    assert && fetched[..Min(|fetched|, limit)] == Sub(d, j, Min(j + limit, |d|))
           && (|fetched| == limit + 1 <==> j + limit < |d|)
           && (j + limit < |d| ==> fetched[limit] == d[j + limit]) by {
      TakeOfRun(d, j, limit, fetched);
    }
  }

  lemma CorrectedPrevious(owned: seq<Sense>, pivot: Option<CursorData>, limit: nat)
    requires limit >= 1 && DistinctKeys(owned) && pivot.Some?
    ensures (var d, j, r := SortNewestFirst(owned), StartOf(owned, pivot), QueryCorrected(owned, pivot, limit);
             && j <= |d|
             && r.previous == (if j >= limit then Some(KeyOf(d[j - limit])) else None))
  {
    var d, j := SortNewestFirst(owned), StartOf(owned, pivot);
    assert j <= |d| && PreviousLookup(owned, pivot, limit - 1) ==
             if j > limit - 1 then Some(KeyOf(d[j - 1 - (limit - 1)])) else None by {
      PreviousAt(owned, pivot, limit - 1);
    }
  }

  /** The corrected page is the run of `limit` records from the pivot's
      position, cut short by the end of the order. */
  lemma CorrectedPageAt(owned: seq<Sense>, pivot: Option<CursorData>, limit: nat)
    requires limit >= 1 && DistinctKeys(owned)
    ensures (var d, j := SortNewestFirst(owned), StartOf(owned, pivot);
             j <= |d| && QueryCorrected(owned, pivot, limit).senses == Sub(d, j, Min(j + limit, |d|)))
  {
    CorrectedRun(owned, pivot, limit);
  }

  /** The corrected next cursor exists exactly when records remain past
      the page, and its page starts right after this one. */
  lemma CorrectedNextAt(owned: seq<Sense>, pivot: Option<CursorData>, limit: nat)
    requires limit >= 1 && DistinctKeys(owned)
    ensures (var d, j, r := SortNewestFirst(owned), StartOf(owned, pivot), QueryCorrected(owned, pivot, limit);
             && j <= |d|
             && (r.next.Some? <==> j + limit < |d|)
             && (r.next.Some? ==> StartOf(owned, r.next) == j + limit))
  {
    var d, j, r := SortNewestFirst(owned), StartOf(owned, pivot), QueryCorrected(owned, pivot, limit);
    assert j <= |d| && r.next == (if j + limit < |d| then Some(KeyOf(d[j + limit])) else None) by {
      CorrectedRun(owned, pivot, limit);
    }
    if j + limit < |d| {
      StartOfRecord(owned, j + limit);
    }
  }

  /** Consecutive pages tile the order: the page after the next cursor
      continues this one with no record skipped or repeated. */
  lemma CorrectedPagesTile(owned: seq<Sense>, pivot: Option<CursorData>, limit: nat)
    requires limit >= 1 && DistinctKeys(owned)
    requires QueryCorrected(owned, pivot, limit).next.Some?
    ensures (var d, j := SortNewestFirst(owned), StartOf(owned, pivot);
             var r1 := QueryCorrected(owned, pivot, limit);
             var r2 := QueryCorrected(owned, r1.next, limit);
             && StartOf(owned, r1.next) == j + limit
             && j + limit + |r2.senses| <= |d|
             && r1.senses + r2.senses == Sub(d, j, j + limit + |r2.senses|))
  {
    var d, j := SortNewestFirst(owned), StartOf(owned, pivot);
    var r1 := QueryCorrected(owned, pivot, limit);
    CorrectedPageAt(owned, pivot, limit);
    NextPageAt(owned, pivot, limit);
    TileStep(d, j, StartOf(owned, r1.next), limit, r1.senses, QueryCorrected(owned, r1.next, limit).senses);
  }

  /** The page the next cursor leads to, as a run of the order. */
  lemma NextPageAt(owned: seq<Sense>, pivot: Option<CursorData>, limit: nat)
    requires limit >= 1 && DistinctKeys(owned)
    requires QueryCorrected(owned, pivot, limit).next.Some?
    ensures (var d, next := SortNewestFirst(owned), QueryCorrected(owned, pivot, limit).next;
             var j2 := StartOf(owned, next);
             && j2 == StartOf(owned, pivot) + limit && j2 < |d|
             && QueryCorrected(owned, next, limit).senses == Sub(d, j2, Min(j2 + limit, |d|)))
  {
    CorrectedNextAt(owned, pivot, limit);
    CorrectedPageAt(owned, QueryCorrected(owned, pivot, limit).next, limit);
  }

  /** The page without a next cursor runs to the oldest record, so walking
      forward page by page returns every record exactly once. */
  lemma CorrectedLastPage(owned: seq<Sense>, pivot: Option<CursorData>, limit: nat)
    requires limit >= 1 && DistinctKeys(owned)
    requires QueryCorrected(owned, pivot, limit).next.None?
    ensures (var d, j := SortNewestFirst(owned), StartOf(owned, pivot);
             j <= |d| && QueryCorrected(owned, pivot, limit).senses == Sub(d, j, |d|))
  {
    CorrectedPageAt(owned, pivot, limit);
    CorrectedNextAt(owned, pivot, limit);
  }

  lemma TileStep<T>(d: seq<T>, j: nat, j2: nat, limit: nat, p1: seq<T>, p2: seq<T>)
    requires j2 == j + limit && j2 < |d|
    requires p1 == Sub(d, j, Min(j + limit, |d|)) && p2 == Sub(d, j2, Min(j2 + limit, |d|))
    ensures j + limit + |p2| <= |d|
    ensures p1 + p2 == Sub(d, j, j + limit + |p2|)
  {
    SubAppend(d, j, j2, j2 + |p2|);
  }

  /** Going forward then back, or back then forward, returns to the same
      page (back then forward needs a non-empty page: a pivot older than
      every record has no page to return to). */
  lemma CorrectedNavigationSymmetric(owned: seq<Sense>, pivot: Option<CursorData>, limit: nat)
    requires limit >= 1 && DistinctKeys(owned)
    ensures (var r := QueryCorrected(owned, pivot, limit);
             r.next.Some? ==>
               QueryCorrected(owned, QueryCorrected(owned, r.next, limit).previous, limit).senses == r.senses)
    ensures (var r := QueryCorrected(owned, pivot, limit);
             r.previous.Some? && r.senses != [] ==>
               QueryCorrected(owned, QueryCorrected(owned, r.previous, limit).next, limit).senses == r.senses)
  {
    var r := QueryCorrected(owned, pivot, limit);
    if r.next.Some? {
      ForwardThenBack(owned, pivot, limit);
    }
    if r.previous.Some? && r.senses != [] {
      BackThenForward(owned, pivot, limit);
    }
  }

  lemma ForwardThenBack(owned: seq<Sense>, pivot: Option<CursorData>, limit: nat)
    requires limit >= 1 && DistinctKeys(owned)
    requires QueryCorrected(owned, pivot, limit).next.Some?
    ensures (var r := QueryCorrected(owned, pivot, limit);
             QueryCorrected(owned, QueryCorrected(owned, r.next, limit).previous, limit).senses == r.senses)
  {
    var r := QueryCorrected(owned, pivot, limit);
    CorrectedNextAt(owned, pivot, limit);
    LookupLandsAt(owned, r.next, limit - 1);
    var back := QueryCorrected(owned, r.next, limit).previous;
    CorrectedPageAt(owned, pivot, limit);
    CorrectedPageAt(owned, back, limit);
  }

  lemma BackThenForward(owned: seq<Sense>, pivot: Option<CursorData>, limit: nat)
    requires limit >= 1 && DistinctKeys(owned)
    requires QueryCorrected(owned, pivot, limit).previous.Some? && QueryCorrected(owned, pivot, limit).senses != []
    ensures (var r := QueryCorrected(owned, pivot, limit);
             QueryCorrected(owned, QueryCorrected(owned, r.previous, limit).next, limit).senses == r.senses)
  {
    var r := QueryCorrected(owned, pivot, limit);
    CorrectedPageAt(owned, pivot, limit);
    LookupLandsAt(owned, pivot, limit - 1);
    CorrectedNextAt(owned, r.previous, limit);
    var forth := QueryCorrected(owned, r.previous, limit).next;
    CorrectedPageAt(owned, forth, limit);
  }
}
