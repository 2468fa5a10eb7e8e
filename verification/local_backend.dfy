/** The offline backend of the diary: accounts and records kept in the
    client storage under per-user keys, paginated with the same cursor
    tokens as the server. */
module LocalBackend {
  import opened Results
  import opened Senses
  import opened Windows
  import opened LocalStorage
  import Cursor
  import DatabaseService

  /** The exceptions the backend raises, and the Python errors it runs into. */
  datatype BackendError =
    | UserAlreadyExists
    | IncorrectCredentials
    | NonAuthenticated
    | IndexOutOfRange            // `IndexError`: a list read past its end
    | NotAList                   // the stored sense list is missing or not a list
    | RecordInvalid              // a stored record does not validate
    | NoFreshDraw                // the given id draws are all taken
    | BadCursor(cause: Cursor.CursorError)

  // ---------------------------------------------------------------------
  // Storage keys

  const UsersPrefix: string := "soul_diary.backend.users."

  function AuthBlockKey(username: string): string {
    UsersPrefix + username + ".auth_block"
  }

  function SenseListKey(username: string): string {
    UsersPrefix + username + ".senses"
  }

  /** Each user's two keys differ from each other, from every other user's
      keys and from the client's own keys. */
  lemma KeysDistinct(u: string, v: string)
    ensures u != v ==> AuthBlockKey(u) != AuthBlockKey(v) && SenseListKey(u) != SenseListKey(v)
    ensures AuthBlockKey(u) != SenseListKey(v)
    ensures AuthBlockKey(u) != AuthDataKey && AuthBlockKey(u) != SharedDataKey
    ensures SenseListKey(u) != AuthDataKey && SenseListKey(u) != SharedDataKey
  {
    var n := |UsersPrefix|;
    assert AuthBlockKey(u)[n..n + |u|] == u && AuthBlockKey(v)[n..n + |v|] == v;
    assert SenseListKey(u)[n..n + |u|] == u && SenseListKey(v)[n..n + |v|] == v;
    assert AuthBlockKey(u)[|AuthBlockKey(u)| - 1] == 'k';
    assert SenseListKey(v)[|SenseListKey(v)| - 1] == 's';
    assert AuthBlockKey(u)[11] == SenseListKey(u)[11] == 'b';
    assert AuthDataKey[11] == SharedDataKey[11] == 'c';
  }

  // ---------------------------------------------------------------------
  // Accounts

  /** The text whose hash is a user's auth block. */
  function AuthBlockInput(username: string, password: string): string {
    "auth_block:" + username + ":" + password
  }

  /** Sign-up: a taken name is refused; otherwise the hash of the
      credentials is stored as the user's auth block and returned as the
      token. `digest` stands for the SHA-256 hex digest. */
  function CreateUser(s: Store, digest: string -> string, username: string, password: string)
    : (r: Result<(Store, string), BackendError>)
    ensures r.Failure? <==> AuthBlockKey(username) in s
    ensures r.Failure? ==> r.error == UserAlreadyExists
    ensures r.Success? ==> r.value.1 == digest(AuthBlockInput(username, password))
    ensures r.Success? ==>
      var t := r.value.0;
      AuthBlockKey(username) in t && t[AuthBlockKey(username)] == JStr(r.value.1)
      && SameElsewhere(s, t, AuthBlockKey(username))
  {
    var key := AuthBlockKey(username);
    if key in s then Failure(UserAlreadyExists)
    else
      var block := digest(AuthBlockInput(username, password));
      Success((s[key := JStr(block)], block))
  }

  /** Sign-in: succeeds, returning the auth block as the token, exactly when
      the user exists and the credentials hash to the stored block. */
  function Auth(s: Store, digest: string -> string, username: string, password: string)
    : (r: Result<string, BackendError>)
    ensures r.Success? <==> AuthBlockKey(username) in s
                            && s[AuthBlockKey(username)] == JStr(digest(AuthBlockInput(username, password)))
    ensures r.Success? ==> r.value == digest(AuthBlockInput(username, password))
    ensures r.Failure? ==> r.error == IncorrectCredentials
  {
    var key := AuthBlockKey(username);
    if key !in s then Failure(IncorrectCredentials)
    else
      var block := digest(AuthBlockInput(username, password));
      if s[key] != JStr(block) then Failure(IncorrectCredentials) else Success(block)
  }

  /** After signing up, signing in with the same password yields the same
      token, another password signs in exactly when it hashes to the same
      block, signing up again is refused, and nobody else's sign-in changes. */
  lemma AuthAfterCreateUser(s: Store, digest: string -> string, username: string, password: string,
                            other: string, password2: string)
    requires CreateUser(s, digest, username, password).Success?
    ensures (var t, token := CreateUser(s, digest, username, password).value.0,
                             CreateUser(s, digest, username, password).value.1;
             && Auth(t, digest, username, password) == Success(token)
             && (Auth(t, digest, username, password2).Success? <==>
                   digest(AuthBlockInput(username, password2)) == token)
             && CreateUser(t, digest, username, password2) == Failure(UserAlreadyExists)
             && (other != username ==> Auth(t, digest, other, password2) == Auth(s, digest, other, password2)))
  {
    KeysDistinct(username, other);
  }

  // ---------------------------------------------------------------------
  // Stored records

  /** A record as stored: its JSON dump. Ids and creation times are kept as
      numbers, standing for the UUID and ISO-8601 text of the dump. */
  function DumpSense(x: Sense): Json {
    JObject(map["id" := JNum(x.id), "data" := JStr(x.data), "created_at" := JNum(x.createdAt)])
  }

  /** `j` is an object holding the dump of `x`, field for field; other
      fields are ignored. */
  ghost predicate Holds(j: Json, x: Sense) {
    var d := DumpSense(x).fields;
    j.JObject? && forall k :: k in d ==> k in j.fields && j.fields[k] == d[k]
  }

  /** Validation of one stored record. */
  function ParseSense(j: Json): (r: Result<Sense, BackendError>)
    ensures r.Success? ==> Holds(j, r.value)
    ensures r.Failure? ==> r.error == RecordInvalid
  {
    if !j.JObject? then Failure(RecordInvalid)
    else
      var f := j.fields;
      if !("id" in f && f["id"].JNum? && 0 <= f["id"].n < 0x1_0000_0000_0000_0000_0000_0000_0000_0000) then
        Failure(RecordInvalid)
      else if !("data" in f && f["data"].JStr?) then Failure(RecordInvalid)
      else if !("created_at" in f && f["created_at"].JNum?
                && -0x8000_0000_0000_0000 <= f["created_at"].n < 0x8000_0000_0000_0000) then
        Failure(RecordInvalid)
      else Success(Sense(f["id"].n, f["data"].s, f["created_at"].n))
  }

  /** Validation accepts every document holding a record's dump and yields
      that record; with `ParseSense`'s own contract, it accepts exactly these. */
  lemma ParseHeld(j: Json, x: Sense)
    requires Holds(j, x)
    ensures ParseSense(j) == Success(x)
  {
    var d := DumpSense(x).fields;
    assert "id" in d && "data" in d && "created_at" in d;
  }

  lemma SenseDumpRoundTrip(x: Sense)
    ensures ParseSense(DumpSense(x)) == Success(x)
  {
    ParseHeld(DumpSense(x), x);
  }

  /** Validation of a stored list, record by record. */
  function ParseAll(items: seq<Json>): (r: Result<seq<Sense>, BackendError>)
    ensures r.Success? <==> forall k :: 0 <= k < |items| ==> ParseSense(items[k]).Success?
    ensures r.Success? ==> |r.value| == |items|
    ensures r.Success? ==> forall k :: 0 <= k < |items| ==> ParseSense(items[k]) == Success(r.value[k])
    ensures r.Failure? ==> r.error == RecordInvalid
  {
    ParsePrefix(items, |items|)
  }

  function ParsePrefix(items: seq<Json>, n: nat): (r: Result<seq<Sense>, BackendError>)
    requires n <= |items|
    ensures r.Success? <==> forall k :: 0 <= k < n ==> ParseSense(items[k]).Success?
    ensures r.Success? ==> |r.value| == n
    ensures r.Success? ==> forall k :: 0 <= k < n ==> ParseSense(items[k]) == Success(r.value[k])
    ensures r.Failure? ==> r.error == RecordInvalid
  {
    if n == 0 then Success([])
    else
      match ParsePrefix(items, n - 1)
      case Failure(e) => Failure(e)
      case Success(front) =>
        match ParseSense(items[n - 1])
        case Failure(e) => Failure(e)
        case Success(x) => Success(front + [x])
  }

  /** Python's truthiness of a stored document. */
  predicate Falsy(j: Json) {
    match j
    case JNull => true
    case JBool(b) => !b
    case JNum(n) => n == 0
    case JStr(t) => |t| == 0
    case JList(items) => |items| == 0
    case JObject(f) => |f| == 0
  }

  /** The raw stored list under `key`: its items when it is a list, and
      nothing otherwise. */
  function ItemsAt(s: Store, key: string): seq<Json> {
    if key in s && s[key].JList? then s[key].items else []
  }

  /** `raw_read(key) or []`, validated: a missing or falsy value reads as
      the empty list; any other value must be a list of valid records. */
  function ReadOrEmpty(s: Store, key: string): (r: Result<seq<Sense>, BackendError>)
    ensures key !in s ==> r == Success([])
    ensures r.Success? <==> (key !in s || Falsy(s[key]) || s[key].JList?) && ParseAll(ItemsAt(s, key)).Success?
    ensures r.Success? ==> r == ParseAll(ItemsAt(s, key))
  {
    if key !in s || Falsy(s[key]) then Success([])
    else
      match s[key]
      case JList(items) => ParseAll(items)
      case _ => Failure(NotAList)
  }

  // ---------------------------------------------------------------------
  // Listing records

  /** The signed-in state the backend holds. */
  datatype Session = Session(username: string, encryptionKey: Option<string>, token: Option<string>)

  predicate Present(o: Option<string>) {
    o.Some? && |o.value| > 0
  }

  /** `is_auth`: both the token and the encryption key are set and non-empty. */
  predicate IsAuth(x: Session) {
    Present(x.token) && Present(x.encryptionKey)
  }

  /** The answer of a listing. */
  datatype SenseList = SenseList(
    data: seq<Sense>,
    limit: nat,
    totalItems: nat,
    previous: Option<string>,
    next: Option<string>)

  /** The position of the first record that is not newer than the pivot,
      or the length of the list when every record is newer. */
  function FirstNotAfter(list: seq<Sense>, p: CursorData): (i: nat)
    ensures i <= |list|
    ensures forall k :: 0 <= k < i ==> IsAfter(list[k], p)
    ensures i < |list| ==> !IsAfter(list[i], p)
  {
    FirstNotAfterFrom(list, p, 0)
  }

  function FirstNotAfterFrom(list: seq<Sense>, p: CursorData, from: nat): (i: nat)
    requires from <= |list|
    ensures from <= i <= |list|
    ensures forall k :: from <= k < i ==> IsAfter(list[k], p)
    ensures i < |list| ==> !IsAfter(list[i], p)
    decreases |list| - from
  {
    if from == |list| || !IsAfter(list[from], p) then from
    else FirstNotAfterFrom(list, p, from + 1)
  }

  /** The cursor scan of `fetch_sense_list` as written: it reads the first
      record before testing the length, and reads the next record after
      every step, so it fails whenever no record is at or before the pivot. */
  method ScanToPivot(list: seq<Sense>, p: CursorData) returns (r: Result<nat, BackendError>)
    ensures r.Success? <==> FirstNotAfter(list, p) < |list|
    ensures r.Success? ==> r.value == FirstNotAfter(list, p)
    ensures r.Failure? ==> r.error == IndexOutOfRange
  {
    if |list| == 0 {
      return Failure(IndexOutOfRange);
    }
    var index := 0;
    var cursorSense := list[0];
    while index < |list| && IsAfter(cursorSense, p)
      invariant index < |list| && cursorSense == list[index]
      invariant forall k :: 0 <= k < index ==> IsAfter(list[k], p)
    {
      index := index + 1;
      if index == |list| {
        return Failure(IndexOutOfRange);
      }
      cursorSense := list[index];
    }
    return Success(index);
  }

  /** Where a listing starts: at the top without a cursor, otherwise at the
      first record not newer than the cursor's pivot. */
  function StartIndex(list: seq<Sense>, pivot: Option<CursorData>): (i: nat)
    ensures i <= |list|
  {
    match pivot
    case None => 0
    case Some(p) => FirstNotAfter(list, p)
  }

  /** The page of at most `limit` records from position `index`, with the
      records `limit` places before and after it as the neighbouring pivots. */
  function Window(list: seq<Sense>, index: nat, limit: nat): (r: Page)
    requires index <= |list| && limit >= 1
    ensures |r.senses| == Min(limit, |list| - index)
  {
    Page(Sub(list, index, Min(index + limit, |list|)),
         if index - limit >= 0 then Some(KeyOf(list[index - limit])) else None,
         if index + limit < |list| then Some(KeyOf(list[index + limit])) else None)
  }

  function DecodePivot(cursor: Option<string>): (r: Result<Option<CursorData>, BackendError>)
    ensures r.Success? <==> cursor.None? || Cursor.Decode(cursor.value).Success?
    ensures r.Success? ==> (r.value.Some? <==> cursor.Some?)
    ensures r.Success? && cursor.Some? ==> Cursor.Decode(cursor.value) == Success(r.value.value)
    ensures r.Failure? ==> r.error == BadCursor(Cursor.Decode(cursor.value).error)
  {
    match cursor
    case None => Success(None)
    case Some(token) =>
      match Cursor.Decode(token)
      case Failure(e) => Failure(BadCursor(e))
      case Success(p) => Success(Some(p))
  }

  /** The answer carrying a page: its neighbouring pivots become cursors. */
  function Answer(total: nat, limit: nat, w: Page): (r: SenseList)
    ensures r.data == w.senses && r.totalItems == total && r.limit == limit
    ensures r.previous.Some? <==> w.previous.Some?
    ensures r.next.Some? <==> w.next.Some?
  {
    SenseList(w.senses, limit, total, EncodePivot(w.previous), EncodePivot(w.next))
  }

  /** A neighbouring pivot as the cursor the answer carries; it decodes back
      to the pivot. */
  function EncodePivot(pivot: Option<CursorData>): (r: Option<string>)
    ensures r.Some? <==> pivot.Some?
    ensures DecodePivot(r) == Success(pivot)
  {
    match pivot
    case None => None
    case Some(c) =>
      Cursor.RoundTrip(c);
      Some(Cursor.Encode(c))
  }

  /** `fetch_sense_list` with the scan stopping at the end of the list: a
      pivot older than every record gives the empty page past the end. */
  function FetchSenseListCorrected(s: Store, session: Session, cursor: Option<string>, limit: nat)
    : (r: Result<SenseList, BackendError>)
    requires limit >= 1
    ensures !IsAuth(session) ==> r == Failure(NonAuthenticated)
    ensures r.Success? <==> IsAuth(session) && ReadOrEmpty(s, SenseListKey(session.username)).Success?
                            && DecodePivot(cursor).Success?
    ensures r.Success? ==>
      var list := ReadOrEmpty(s, SenseListKey(session.username)).value;
      r.value == Answer(|list|, limit, Window(list, StartIndex(list, DecodePivot(cursor).value), limit))
  {
    if !IsAuth(session) then Failure(NonAuthenticated)
    else
      var list :- ReadOrEmpty(s, SenseListKey(session.username));
      var pivot :- DecodePivot(cursor);
      Success(Answer(|list|, limit, Window(list, StartIndex(list, pivot), limit)))
  }

  /** The listing fails on its cursor scan exactly when a cursor is given
      and no record is at or before its pivot (the empty list included). */
  ghost predicate ScanReadsPastEnd(s: Store, session: Session, cursor: Option<string>) {
    && IsAuth(session)
    && ReadOrEmpty(s, SenseListKey(session.username)).Success?
    && DecodePivot(cursor).Success?
    && cursor.Some?
    && var list := ReadOrEmpty(s, SenseListKey(session.username)).value;
       FirstNotAfter(list, DecodePivot(cursor).value.value) == |list|
  }

  /** `fetch_sense_list` as written: it answers like the corrected listing
      except when the cursor scan runs off the end of the list. */
  method FetchSenseList(s: Store, session: Session, cursor: Option<string>, limit: nat)
    returns (r: Result<SenseList, BackendError>)
    requires limit >= 1
    ensures ScanReadsPastEnd(s, session, cursor) ==> r == Failure(IndexOutOfRange)
    ensures !ScanReadsPastEnd(s, session, cursor) ==> r == FetchSenseListCorrected(s, session, cursor, limit)
  {
    if !IsAuth(session) {
      return Failure(NonAuthenticated);
    }
    var read := ReadOrEmpty(s, SenseListKey(session.username));
    if read.Failure? {
      return Failure(read.error);
    }
    var list := read.value;
    var decoded := DecodePivot(cursor);
    if decoded.Failure? {
      return Failure(decoded.error);
    }
    var index := 0;
    if decoded.value.Some? {
      var scan := ScanToPivot(list, decoded.value.value);
      if scan.Failure? {
        return Failure(scan.error);
      }
      index := scan.value;
    }
    return Success(Answer(|list|, limit, Window(list, index, limit)));
  }

  // ---------------------------------------------------------------------
  // Paging through a strictly newest-first list

  /** A record's own key, used as a pivot, starts the listing at that record. */
  lemma RecordStarts(list: seq<Sense>, k: nat)
    requires NewestFirst(list) && k < |list|
    ensures FirstNotAfter(list, KeyOf(list[k])) == k
  {
  }

  /** The next cursor starts the following page right after this one, the
      two pages together are one run of the list, and the following page's
      previous cursor leads back here. */
  lemma FollowNext(list: seq<Sense>, index: nat, limit: nat)
    requires limit >= 1 && NewestFirst(list) && index <= |list|
    requires Window(list, index, limit).next.Some?
    ensures (var w1 := Window(list, index, limit);
             var j := StartIndex(list, w1.next);
             var w2 := Window(list, index + limit, limit);
             && j == index + limit
             && index + limit + |w2.senses| <= |list|
             && w1.senses + w2.senses == Sub(list, index, index + limit + |w2.senses|)
             && StartIndex(list, w2.previous) == index)
  {
    RecordStarts(list, index + limit);
    RecordStarts(list, index);
    DatabaseService.TileStep(list, index, index + limit, limit,
                             Window(list, index, limit).senses, Window(list, index + limit, limit).senses);
  }

  /** The previous cursor starts the page `limit` records earlier, which
      ends where this page begins and whose next cursor leads back here. */
  lemma FollowPrevious(list: seq<Sense>, index: nat, limit: nat)
    requires limit >= 1 && NewestFirst(list) && index <= |list|
    requires Window(list, index, limit).previous.Some?
    ensures (var j := StartIndex(list, Window(list, index, limit).previous);
             && j == index - limit
             && Window(list, j, limit).senses == Sub(list, index - limit, index)
             && (index < |list| ==> StartIndex(list, Window(list, j, limit).next) == index))
  {
    RecordStarts(list, index - limit);
    if index < |list| {
      RecordStarts(list, index);
    }
  }

  /** A page without a next cursor runs to the oldest record. */
  lemma LastPage(list: seq<Sense>, index: nat, limit: nat)
    requires limit >= 1 && index <= |list|
    requires Window(list, index, limit).next.None?
    ensures Window(list, index, limit).senses == Sub(list, index, |list|)
  {
  }

  lemma NewestFirstDistinct(list: seq<Sense>)
    requires NewestFirst(list)
    ensures DistinctKeys(list) && SortedNewestFirst(list)
  {
    forall i, j | 0 <= i < j < |list| ensures KeysDiffer(list, i, j) && !Earlier(KeyOf(list[i]), KeyOf(list[j])) {
      assert Earlier(KeyOf(list[j]), KeyOf(list[i]));
    }
  }

  /** A strictly newest-first list is its own newest-first order. */
  lemma OwnOrder(list: seq<Sense>)
    requires NewestFirst(list)
    ensures SortNewestFirst(list) == list
  {
    NewestFirstDistinct(list);
    SortNewestFirstOrders(list);
    SortNewestFirstPermutes(list);
    SortedEqual(SortNewestFirst(list), list);
  }

  /** The local scan stops where the server's query starts: after the
      records newer than the pivot. */
  lemma StartsMatch(list: seq<Sense>, pivot: Option<CursorData>)
    requires NewestFirst(list)
    ensures DatabaseService.StartOf(list, pivot) == StartIndex(list, pivot)
  {
    if pivot.Some? {
      var p := pivot.value;
      var i := FirstNotAfter(list, p);
      NewestFirstDistinct(list);
      SplitAtPivot(list, p);
      SideOfSelects(list, p, true);
      SideOfSelects(list, p, false);
      var k := |Newer(list, p)|;
      forall m | 0 <= m < k ensures IsAfter(list[m], p) {
        assert list[m] == Newer(list, p)[m];
      }
      if k < |list| {
        assert list[k] == Older(list, p)[0];
      }
      FirstNotAfterUnique(list, p, k);
    }
  }

  /** `FirstNotAfter` is the only position with its two properties. */
  lemma FirstNotAfterUnique(list: seq<Sense>, p: CursorData, k: nat)
    requires k <= |list|
    requires forall m :: 0 <= m < k ==> IsAfter(list[m], p)
    requires k < |list| ==> !IsAfter(list[k], p)
    ensures FirstNotAfter(list, p) == k
  {
  }

  /** On a strictly newest-first list the corrected local listing returns
      the same page and pivots as the corrected server query over the same
      records. */
  lemma MatchesServer(list: seq<Sense>, pivot: Option<CursorData>, limit: nat)
    requires limit >= 1 && NewestFirst(list)
    ensures Window(list, StartIndex(list, pivot), limit) == DatabaseService.QueryCorrected(list, pivot, limit)
  {
    NewestFirstDistinct(list);
    OwnOrder(list);
    StartsMatch(list, pivot);
    DatabaseService.CorrectedWindow(list, pivot, limit);
  }

  /** Following an answer's next cursor continues the listing: the cursor
      decodes to a pivot that the scan as written finds inside the list,
      and the listing from it answers with the page `limit` records on. */
  lemma ListingFollowsNext(list: seq<Sense>, pivot: Option<CursorData>, limit: nat)
    requires limit >= 1 && NewestFirst(list)
    requires Window(list, StartIndex(list, pivot), limit).next.Some?
    ensures (var i := StartIndex(list, pivot);
             var next := Answer(|list|, limit, Window(list, i, limit)).next;
             && DecodePivot(next).Success?
             && var p := DecodePivot(next).value;
             && p.Some? && FirstNotAfter(list, p.value) == i + limit < |list|
             && StartIndex(list, p) == i + limit)
  {
    RecordStarts(list, StartIndex(list, pivot) + limit);
  }

  /** Finding, the scan as written: an empty stored list with any valid
      cursor makes the scan read a record that is not there, where the
      corrected listing answers with an empty page. */
  lemma EmptyListWithCursor(session: Session, p: CursorData, limit: nat)
    requires IsAuth(session) && limit >= 1
    ensures ScanReadsPastEnd(map[], session, Some(Cursor.Encode(p)))
    ensures FetchSenseListCorrected(map[], session, Some(Cursor.Encode(p)), limit)
              == Success(SenseList([], limit, 0, None, None))
  {
    Cursor.RoundTrip(p);
  }

  /** Finding, the scan as written: a pivot older than every record (the
      oldest record's key once that record is deleted) also runs the scan
      off the list; the corrected listing returns the empty page past the
      end, whose previous cursor leads back to the last full page. */
  lemma StalePivot()
    ensures (var list, p := [Sense(1, "", 10)], CursorData(5, 1);
             && FirstNotAfter(list, p) == |list|
             && Window(list, FirstNotAfter(list, p), 1) == Page([], Some(KeyOf(list[0])), None))
  {
  }

  // ---------------------------------------------------------------------
  // Adding a record

  /** The added record and the store after it is written back. */
  datatype Pulled = Pulled(store: Store, sense: Sense)

  function IdsOf(records: seq<Sense>): set<Uuid> {
    set x | x in records :: x.id
  }

  /** The id the `uuid4()` loop settles on: the first of the draws not yet
      taken, or `None` when every given draw is taken. */
  function FreshId(ids: set<Uuid>, draws: seq<Uuid>): (r: Option<Uuid>)
    ensures r.Some? ==> r.value !in ids && r.value in draws
    ensures r.Some? ==> exists k :: 0 <= k < |draws| && draws[k] == r.value
                                    && forall j :: 0 <= j < k ==> draws[j] in ids
    ensures r.None? <==> forall k :: 0 <= k < |draws| ==> draws[k] in ids
  {
    FreshIdFrom(ids, draws, 0)
  }

  function FreshIdFrom(ids: set<Uuid>, draws: seq<Uuid>, from: nat): (r: Option<Uuid>)
    requires from <= |draws|
    ensures r.Some? ==> r.value !in ids && r.value in draws
    ensures r.Some? ==> exists k :: from <= k < |draws| && draws[k] == r.value
                                    && forall j :: from <= j < k ==> draws[j] in ids
    ensures r.None? <==> forall k :: from <= k < |draws| ==> draws[k] in ids
    decreases |draws| - from
  {
    if from == |draws| then None
    else if draws[from] !in ids then Some(draws[from])
    else FreshIdFrom(ids, draws, from + 1)
  }

  /** Python's `list.insert(i, x)`. */
  function InsertAt<T>(s: seq<T>, i: nat, x: T): (r: seq<T>)
    requires i <= |s|
    ensures |r| == |s| + 1 && r[i] == x
    ensures forall k :: 0 <= k < i ==> r[k] == s[k]
    ensures forall k :: i < k < |r| ==> r[k] == s[k - 1]
  {
    s[..i] + [x] + s[i..]
  }

  /** The new-record branch of `pull_sense_data` as written. It iterates
      over the stored list first, so a user without a list fails; it reads
      the first record unconditionally, so an empty list fails; and its
      scan keeps comparing with the first record, so the new record goes
      either to the top or to the very end of the list. */
  method PullNewSense(s: Store, username: string, data: string, draws: seq<Uuid>, now: Timestamp)
    returns (r: Result<Pulled, BackendError>)
    ensures (var key := SenseListKey(username);
             r.Success? <==> && key in s && s[key].JList?
                             && ParseAll(s[key].items).Success?
                             && FreshId(IdsOf(ParseAll(s[key].items).value), draws).Some?
                             && |s[key].items| > 0)
    ensures r.Success? ==>
      var key := SenseListKey(username);
      var items := s[key].items;
      var records := ParseAll(items).value;
      var x := r.value.sense;
      && x == Sense(FreshId(IdsOf(records), draws).value, data, now)
      && SameElsewhere(s, r.value.store, key)
      && key in r.value.store
      && r.value.store[key] == JList(InsertAt(items, if Earlier(KeyOf(x), KeyOf(records[0])) then |items| else 0, DumpSense(x)))
  {
    var key := SenseListKey(username);
    if key !in s || !s[key].JList? {
      return Failure(NotAList);
    }
    var items := s[key].items;
    var parsed := ParseAll(items);
    if parsed.Failure? {
      return Failure(parsed.error);
    }
    var records := parsed.value;
    var id := FreshId(IdsOf(records), draws);
    if id.None? {
      return Failure(NoFreshDraw);
    }
    var sense := Sense(id.value, data, now);
    if |records| == 0 {
      return Failure(IndexOutOfRange);
    }
    var index := 0;
    var cursorSense := records[0];
    while index < |records| && Earlier(KeyOf(sense), KeyOf(cursorSense))
      invariant index <= |records|
      invariant index > 0 ==> Earlier(KeyOf(sense), KeyOf(cursorSense))
    {
      index := index + 1;
    }
    return Success(Pulled(s[key := JList(InsertAt(items, index, DumpSense(sense)))], sense));
  }

  /** The new-record branch with its evident intent: a missing or empty list
      is the empty list, and the scan advances through the list, so the new
      record goes before the first record that is not newer than it. */
  function PullNewSenseCorrected(s: Store, username: string, data: string, draws: seq<Uuid>, now: Timestamp)
    : (r: Result<Pulled, BackendError>)
    ensures (var key := SenseListKey(username);
             r.Success? <==> && ReadOrEmpty(s, key).Success?
                             && FreshId(IdsOf(ReadOrEmpty(s, key).value), draws).Some?)
    ensures r.Success? ==>
      var key := SenseListKey(username);
      var records := ReadOrEmpty(s, key).value;
      var x := r.value.sense;
      && x.id !in IdsOf(records) && x.id in draws && x.data == data && x.createdAt == now
      && SameElsewhere(s, r.value.store, key)
      && ReadOrEmpty(r.value.store, key) == Success(InsertAt(records, FirstNotAfter(records, KeyOf(x)), x))
  {
    var key := SenseListKey(username);
    var records :- ReadOrEmpty(s, key);
    var id := FreshId(IdsOf(records), draws);
    if id.None? then Failure(NoFreshDraw)
    else
      var x := Sense(id.value, data, now);
      var i := FirstNotAfter(records, KeyOf(x));
      var written := InsertAt(ItemsAt(s, key), i, DumpSense(x));
      ParseInsert(ItemsAt(s, key), records, i, x);
      ReadWritten(s, key, written);
      Success(Pulled(s[key := JList(written)], x))
  }

  /** A non-empty list written under `key` reads back as its validation. */
  lemma ReadWritten(s: Store, key: string, items: seq<Json>)
    requires |items| > 0
    ensures ReadOrEmpty(s[key := JList(items)], key) == ParseAll(items)
  {
  }

  /** Writing a record's dump into a valid stored list at some position
      reads back as the record inserted at that position. */
  lemma ParseInsert(items: seq<Json>, records: seq<Sense>, i: nat, x: Sense)
    requires ParseAll(items) == Success(records) && i <= |items|
    ensures ParseAll(InsertAt(items, i, DumpSense(x))) == Success(InsertAt(records, i, x))
  {
    SenseDumpRoundTrip(x);
    var t := InsertAt(items, i, DumpSense(x));
    var want := InsertAt(records, i, x);
    forall k | 0 <= k < |t| ensures ParseSense(t[k]) == Success(want[k]) {
      if k > i {
        assert t[k] == items[k - 1];
      }
    }
    var r := ParseAll(t);
    assert r.Success?;
    assert r.value == want;
  }

  /** Python's `list.insert` adds the element and keeps every other one. */
  lemma InsertAtMultiset<T>(s: seq<T>, i: nat, x: T)
    requires i <= |s|
    ensures multiset(InsertAt(s, i, x)) == multiset(s) + multiset{x}
  {
    assert s == s[..i] + s[i..];
  }

  /** The records older than `x` come after the records newer than it in a
      newest-first list; the corrected scan stops at the boundary, so the
      list stays strictly newest first. */
  lemma InsertKeepsNewestFirst(records: seq<Sense>, x: Sense)
    requires NewestFirst(records)
    requires forall k :: 0 <= k < |records| ==> KeyOf(records[k]) != KeyOf(x)
    ensures NewestFirst(InsertAt(records, FirstNotAfter(records, KeyOf(x)), x))
  {
    var i := FirstNotAfter(records, KeyOf(x));
    var t := InsertAt(records, i, x);
    forall k | i < k < |t| ensures Earlier(KeyOf(t[k]), KeyOf(x)) {
      assert KeyOf(records[i]) != KeyOf(x);
      if k - 1 > i {
        assert Earlier(KeyOf(records[k - 1]), KeyOf(records[i]));
      }
    }
    forall a, b | 0 <= a < b < |t| ensures Earlier(KeyOf(t[b]), KeyOf(t[a])) {
      if a < i && b > i {
        assert Earlier(KeyOf(t[b]), KeyOf(x));
      }
    }
  }

  /** A fresh id gives the new record a key no stored record has. */
  lemma FreshKey(records: seq<Sense>, x: Sense)
    requires x.id !in IdsOf(records)
    ensures forall k :: 0 <= k < |records| ==> KeyOf(records[k]) != KeyOf(x)
  {
    forall k | 0 <= k < |records| ensures KeyOf(records[k]) != KeyOf(x) {
      assert records[k].id in IdsOf(records);
    }
  }

  /** The corrected addition keeps a newest-first list newest first, keeps
      ids unique, and adds exactly the new record. */
  lemma AddedKeepsOrder(s: Store, username: string, data: string, draws: seq<Uuid>, now: Timestamp)
    requires PullNewSenseCorrected(s, username, data, draws, now).Success?
    ensures
      var key := SenseListKey(username);
      var r := PullNewSenseCorrected(s, username, data, draws, now).value;
      var before := ReadOrEmpty(s, key).value;
      var after := ReadOrEmpty(r.store, key);
      && after.Success?
      && multiset(after.value) == multiset(before) + multiset{r.sense}
      && (NewestFirst(before) ==> NewestFirst(after.value))
      && (UniqueIds(before) ==> UniqueIds(after.value))
  {
    var key := SenseListKey(username);
    var r := PullNewSenseCorrected(s, username, data, draws, now).value;
    var before := ReadOrEmpty(s, key).value;
    var x := r.sense;
    var i := FirstNotAfter(before, KeyOf(x));
    InsertAtMultiset(before, i, x);
    FreshKey(before, x);
    if NewestFirst(before) {
      InsertKeepsNewestFirst(before, x);
    }
    if UniqueIds(before) {
      UniqueAfterInsert(before, i, x);
    }
  }

  lemma UniqueAfterInsert(records: seq<Sense>, i: nat, x: Sense)
    requires i <= |records| && UniqueIds(records) && x.id !in IdsOf(records)
    ensures UniqueIds(InsertAt(records, i, x))
  {
    var t := InsertAt(records, i, x);
    forall a, b | 0 <= a < b < |t| ensures t[a].id != t[b].id {
      if a == i {
        assert t[b] == records[b - 1] && records[b - 1].id in IdsOf(records);
      } else if b == i {
        assert t[a] == records[a] && records[a].id in IdsOf(records);
      }
    }
  }

  /** The position the as-written scan picks for a new record `x` in a
      non-empty list: the end when `x` is older than the first record,
      the top otherwise. */
  function WrittenPosition(records: seq<Sense>, x: Sense): nat
    requires |records| > 0
  {
    if Earlier(KeyOf(x), KeyOf(records[0])) then |records| else 0
  }

  /** The as-written position is the right one exactly when the new record
      is newer than every stored record or older than every one. */
  lemma WrittenAgreesExactly(records: seq<Sense>, x: Sense)
    requires |records| > 0 && NewestFirst(records)
    requires forall k :: 0 <= k < |records| ==> KeyOf(records[k]) != KeyOf(x)
    ensures WrittenPosition(records, x) == FirstNotAfter(records, KeyOf(x)) <==>
      Earlier(KeyOf(records[0]), KeyOf(x)) || Earlier(KeyOf(x), KeyOf(records[|records| - 1]))
  {
    var n := |records|;
    var i := FirstNotAfter(records, KeyOf(x));
    assert KeyOf(records[0]) != KeyOf(x);
    if Earlier(KeyOf(x), KeyOf(records[n - 1])) {
      forall k | 0 <= k < n ensures IsAfter(records[k], KeyOf(x)) {
        if k < n - 1 {
          assert Earlier(KeyOf(records[n - 1]), KeyOf(records[k]));
        }
      }
    }
  }

  /** Concretely: records at times 30 and 10 and a new record at time 20.
      The as-written code appends the new record, leaving a list that is not
      newest first; the corrected scan puts it in the middle. */
  lemma InsertionBreaksOrder()
    ensures
      var records := [Sense(1, "", 30), Sense(2, "", 10)];
      var x := Sense(3, "", 20);
      && NewestFirst(records)
      && WrittenPosition(records, x) == 2
      && !NewestFirst(InsertAt(records, WrittenPosition(records, x), x))
      && FirstNotAfter(records, KeyOf(x)) == 1
      && NewestFirst(InsertAt(records, FirstNotAfter(records, KeyOf(x)), x))
  {
    var records := [Sense(1, "", 30), Sense(2, "", 10)];
    var x := Sense(3, "", 20);
    var t := InsertAt(records, 2, x);
    assert t[1] == records[1] && t[2] == x;
    assert !IsAfter(records[1], KeyOf(x));
    InsertKeepsNewestFirst(records, x);
  }

  /** A user with no stored list gets one holding just the new record; the
      as-written code fails on such a user before writing anything. */
  lemma FirstRecordCreated(s: Store, username: string, data: string, draws: seq<Uuid>, now: Timestamp)
    requires SenseListKey(username) !in s && |draws| > 0
    ensures
      var r := PullNewSenseCorrected(s, username, data, draws, now);
      && r.Success?
      && r.value.sense == Sense(draws[0], data, now)
      && ReadOrEmpty(r.value.store, SenseListKey(username)) == Success([r.value.sense])
  {
    assert IdsOf([]) == {};
    assert FreshIdFrom({}, draws, 0) == Some(draws[0]);
    var x := Sense(draws[0], data, now);
    assert FirstNotAfter([], KeyOf(x)) == 0;
    assert InsertAt([], 0, x) == [x];
  }
}
