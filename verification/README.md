# Soul Diary: cursor pagination, record storage and credentials

Soul Diary is a diary application whose entries ("senses") can be kept on a
server or locally on the client. Both backends list entries newest first, in
pages. Each page carries opaque cursor tokens for its neighbours. A cursor is
the base64 text of 8 bytes of the pivot's creation time followed by the 16
bytes of its UUID. This project models, in Dafny:

- the cursor codec: `cursor_encode` / `cursor_decode`, the same in both backends;
- the server query `DatabaseService.get_senses`, with its owner filter and its count. The SQL `WHERE` is a filter over the user's records, and `ORDER BY ... OFFSET ... LIMIT ...` is a sort followed by a slice;
- the local backend:
  - the listing `fetch_sense_list`;
  - the new-record branch of `pull_sense_data`;
  - sign-up and sign-in (`create_user`, `auth`);
  - all of these over the client's key-value storage;
- the client storage wrapper `LocalStorage`: the saved login and the shared settings dictionary.

Each operation is a pure function over immutable values. The one exception is
a loop the source writes out (the local cursor scan, the local insertion and
the listing around them): those are methods with loop invariants. Where the
code misbehaves, the model has two definitions:
- one does what the code does;
- one does what the code evidently intends.

A lemma exhibits the difference, and the properties are proved about the
corrected one (see "## Findings").

Modules:
- `Results` (results.dfy): `Option` and `Result`.
- `Bytes` (bytes.dfy): fixed-width little- and big-endian byte encodings of integers.
- `Base64` (base64.dfy): the padded base64 of section 4 of RFC 4648.
- `Cursor` (cursor.dfy): the cursor payload and token.
- `Senses` (senses.dfy): records and the (created_at, id) order.
  - the filters on either side of a pivot;
  - the newest-first sort used for `ORDER BY`.
- `Windows` (windows.dfy): runs of a sequence.
- `DatabaseService` (database_service.dfy): the server queries.
- `LocalStorage` (local_storage.dfy): the client storage, its JSON values and the `LocalStorage` operations.
- `LocalBackend` (local_backend.dfy): the offline backend.

Representation choices:
- A creation time is an integer in the signed 64-bit range. Its 8 cursor bytes are its two's complement, least significant byte first. This stands in for `struct.pack("d", timestamp)`, so the codec's round trip is exact.
- A UUID is an integer below 2^128. Its 16 bytes are `UUID.bytes` (most significant first), and UUIDs compare as integers, as `UUID.__lt__` does.
- Records are ordered by (created_at, id). Ties in creation time are broken by id: in the server's descending query too, and by ascending id in its previous-page lookup (which sorts ascending).
- `EncryptedSense` is imported by soul_diary/ui/app/backend/local.py:18, but its definition is not part of this model (soul_diary/ui/app/backend/models.py defines only `SenseBackendData`). The local record is modelled from its use: an id, a data string and a creation time. The model assumes that the record accepts the naive `datetime.utcnow()` built at local.py:154-158. A field typed `AwareDatetime`, as in `SenseBackendData`, would reject it, and then the whole new-record branch would fail.
- Three values the source obtains from outside are parameters:
  - the SHA-256 hex digest, as `digest`;
  - the `uuid.uuid4()` draws, as `draws`;
  - `datetime.utcnow()`, as `now`.

## Model

| member | source | states |
|---|---|---|
| Bytes.LittleEndianRoundTrip | soul_diary/backend/database/service.py:114 | reading back the `n` little-endian bytes of a number below 256^n gives the number: the timestamp field loses nothing |
| Bytes.LittleEndianOnto | soul_diary/backend/database/service.py:121 | every byte string is the little-endian encoding of the number it denotes, so in the model decoding the timestamp field accepts every 8 bytes (the source's `datetime.fromtimestamp` can still fail on the double they denote; see "## Left out") |
| Bytes.BigEndianRoundTrip | soul_diary/backend/database/service.py:115 | `UUID.bytes` read back with `UUID(bytes=...)` gives the same id |
| Bytes.BigEndianOnto | soul_diary/backend/database/service.py:122 | every 16 bytes are the big-endian encoding of the id they denote |
| Base64.Encode | soul_diary/backend/database/service.py:117 | `b64encode` yields 4 characters per started group of 3 bytes, all from the alphabet or `=`, and no padding when the length is a multiple of 3 |
| Base64.Decode | soul_diary/backend/database/service.py:120 | the model's strict decoder (section 4 of RFC 4648, standing for `b64decode`) refuses a text whose length is not a multiple of 4, and what it yields has 3 bytes per 4 characters, less at most 2 for padding |
| Base64.DecodeEncode | soul_diary/backend/database/service.py:117-120 | decoding the encoding of any byte string gives that byte string back |
| Base64.KnownDecodes | soul_diary/backend/database/service.py:120 | the decoder reads the test vectors of section 10 of RFC 4648, "Zm9vYmFy" and "Zm8=", back to "foobar" and "fo"; with the encoder's vectors (`KnownAnswers`, `KnownAnswersLonger`) this fixes the alphabet, the bit order and the padding, which the round trip alone would not |
| Cursor.TimestampRoundTrip | soul_diary/backend/database/service.py:114-121 | the 8 timestamp bytes of a creation time decode to the same creation time |
| Cursor.UuidRoundTrip | soul_diary/backend/database/service.py:115-122 | the 16 id bytes decode to the same id |
| Cursor.EncodePayload | soul_diary/backend/database/service.py:114-116 | the payload is exactly 24 bytes: 8 timestamp bytes followed by 16 id bytes |
| Cursor.DecodePayload | soul_diary/backend/database/service.py:120-122 | in the model a payload decodes exactly when it is 24 bytes long; under 8 bytes is the `struct.unpack` error, and any other wrong length is the `UUID(bytes=)` error (the source can fail earlier, in `fromtimestamp`; see "## Left out") |
| Cursor.PayloadRoundTrip | soul_diary/backend/database/service.py:113-123 | the payload of a pivot decodes to that pivot |
| Cursor.PayloadOnto | soul_diary/backend/database/service.py:119-123 | every 24-byte payload is the encoding of the pivot it decodes to, so the payload codec is a bijection |
| Cursor.Encode | soul_diary/backend/database/service.py:113-117 | a cursor token is 32 base64 alphabet characters, never padded |
| Cursor.Decode | soul_diary/backend/database/service.py:119-123 | with the strict base64 decoder of the model, a token whose length is not a multiple of 4 is refused as malformed base64 |
| Cursor.RoundTrip | soul_diary/backend/database/service.py:113-123 | decoding an encoded cursor gives back the same creation time and id |
| Cursor.EncodeInjective | soul_diary/ui/app/backend/local.py:72-82 | two pivots with the same token are the same pivot, in either backend's codec |
| Senses.SideOfSelects | soul_diary/backend/database/service.py:161-166 | the filter on one side of the pivot keeps exactly the records on that side, each as often as in the input |
| Senses.SortNewestFirstPermutes | soul_diary/backend/database/service.py:167-169 | the newest-first sort rearranges the records, adding and losing none |
| Senses.SortNewestFirstOrders | soul_diary/backend/database/service.py:167-169 | the sort puts the records newest first by (created_at, id), strictly so when keys are distinct |
| Senses.SortOldestFirstOrders | soul_diary/backend/database/service.py:154-156 | the ascending sort of the previous-page lookup puts records strictly oldest first when keys are distinct |
| Senses.UniqueIdsDistinctKeys | soul_diary/backend/database/models.py:50 | records with unique ids (the table's primary key) have distinct (created_at, id) keys |
| DatabaseService.UserSenses | soul_diary/backend/database/service.py:125-128 | the owner filter keeps every row of the user and only those, and the primary key makes their ids unique |
| DatabaseService.SensesCount | soul_diary/backend/database/service.py:130-135 | the count is the number of rows the user owns, counted row by row over the table (`OwnedCount`); it is zero exactly when the user owns no row, and takes neither cursor nor limit |
| DatabaseService.UserSensesCounted | soul_diary/backend/database/service.py:125-135 | the owner filter keeps exactly one record per row the user owns, so counting the filter's result is counting the user's rows |
| DatabaseService.CandidatesSelect | soul_diary/backend/database/service.py:161-166 | the main query's candidates are all the user's records without a cursor, and with one exactly those not after the pivot, the pivot record included |
| DatabaseService.PreviousLookup | soul_diary/backend/database/service.py:148-159 | no previous pivot without a cursor; with one, a previous pivot exists exactly when more than `offset` records are newer than the pivot, and it is newer than the pivot |
| DatabaseService.PreviousIsOwned | soul_diary/backend/database/service.py:148-159 | the previous pivot is the key of one of the user's records |
| DatabaseService.Fetch | soul_diary/backend/database/service.py:167-172 | the main query returns `min(candidates, limit + 1)` rows |
| DatabaseService.FetchOrdered | soul_diary/backend/database/service.py:167-172 | the fetched rows are candidates, newest first, and no candidate left out is newer than a fetched one |
| DatabaseService.NextOf | soul_diary/backend/database/service.py:182-188 | a next pivot exists exactly when `limit + 1` rows came back |
| DatabaseService.Query | soul_diary/backend/database/service.py:137-190 | as written: the page has `min(m, limit + 1) - 1` records for `m > 0` candidates and none for zero; a next pivot exists exactly when more than `limit` candidates exist, and then the page is full; the previous pivot exists exactly when more than `limit` records are newer than the pivot |
| DatabaseService.QueryOrdered | soul_diary/backend/database/service.py:161-190 | the page is newest first and holds only the user's records at or before the pivot; the next pivot is a candidate no newer than any record on the page |
| DatabaseService.DropLastOfSorted | soul_diary/backend/database/service.py:190 | `senses[:-1]` keeps the order and every remaining record is no older than the dropped one |
| DatabaseService.GetSenses | soul_diary/backend/database/service.py:137-190 | `get_senses` fails exactly when the cursor does not decode, with the decoder's error; otherwise it returns the query's page for the decoded pivot, at most `limit` records, and each cursor is present exactly when the query's pivot is and decodes to that pivot |
| DatabaseService.CandidatesAreTail | soul_diary/backend/database/service.py:161-169 | with distinct keys, the sorted candidates are the run of the user's newest-first order from the pivot's position to the end |
| DatabaseService.NewerIsHead | soul_diary/backend/database/service.py:150-156 | the records newer than the pivot, sorted newest first, are the run before the pivot's position |
| DatabaseService.StartOfRecord | soul_diary/backend/database/service.py:163-166 | a record's own key used as pivot starts the candidates at that record's position |
| DatabaseService.PreviousAt | soul_diary/backend/database/service.py:150-159 | the lookup with skip `offset` names the record `offset + 1` places before the pivot's position, and nothing when fewer records precede it |
| DatabaseService.FetchAt | soul_diary/backend/database/service.py:161-172 | the main query fetches the run of at most `limit + 1` records from the pivot's position |
| DatabaseService.QueryWindow | soul_diary/backend/database/service.py:137-190 | the as-written page, next pivot and previous pivot as positions of the newest-first order: `limit + 1` rows less the last, the record `limit` on, and the record `limit + 1` back |
| DatabaseService.QuerySenses | soul_diary/backend/database/service.py:190 | the as-written page is the fetched run less its last row |
| DatabaseService.QueryNext | soul_diary/backend/database/service.py:182-188 | the next pivot is the record `limit` places after the pivot's position, when there is one |
| DatabaseService.FollowNext | soul_diary/backend/database/service.py:163-190 | following the next cursor starts the next page exactly at the extra row: the two pages are consecutive in the order, nothing skipped or repeated |
| DatabaseService.PageIsRun | soul_diary/backend/database/service.py:167-190 | every as-written page is a run of the order from the pivot's position, ending before the end of the order when non-empty |
| DatabaseService.NextAfterPage | soul_diary/backend/database/service.py:182-188 | a next cursor names the record just after a full page |
| DatabaseService.OldestRecordNeverReturned | soul_diary/backend/database/service.py:190 | as written, the user's oldest record is on no page, whatever the cursor and limit |
| DatabaseService.SingleRecordPageIsEmpty | soul_diary/backend/database/service.py:190 | as written, a user with one record gets an empty page and no cursors |
| DatabaseService.SecondPageHasNoPrevious | soul_diary/backend/database/service.py:154-156 | as written, the second page, reached by the first page's next cursor, has no previous cursor |
| DatabaseService.PreviousOneTooFar | soul_diary/backend/database/service.py:154-156 | as written, the previous cursor starts its page `limit + 1` records back instead of `limit` |
| DatabaseService.LookupLandsAt | soul_diary/backend/database/service.py:150-159 | a previous pivot found with skip `offset` starts its page `offset + 1` places before the pivot's |
| DatabaseService.QueryCorrected | soul_diary/backend/database/service.py:137-190 | corrected: the page has `min(m, limit)` records, a next pivot exists exactly when more than `limit` candidates exist, and a previous one exactly when at least `limit` records are newer than the pivot |
| DatabaseService.QueryCorrectedOrdered | soul_diary/backend/database/service.py:161-190 | the corrected page is newest first and holds only the user's records at or before the pivot |
| DatabaseService.CorrectedWindow | soul_diary/backend/database/service.py:137-190 | the corrected page is the `limit` records from the pivot's position; its next and previous pivots are the records `limit` places after and before it |
| DatabaseService.CorrectedRun | soul_diary/backend/database/service.py:167-190 | the corrected page and next pivot as positions of the order, and no previous pivot without a cursor |
| DatabaseService.CorrectedPrevious | soul_diary/backend/database/service.py:148-159 | with `offset(limit - 1)`, the previous pivot is the record `limit` places before the pivot's position |
| DatabaseService.CorrectedPageAt | soul_diary/backend/database/service.py:167-190 | the corrected page is the run of `limit` records from the pivot's position, cut short by the end |
| DatabaseService.CorrectedNextAt | soul_diary/backend/database/service.py:182-188 | the corrected next cursor exists exactly when records remain past the page, and its page starts right after this one |
| DatabaseService.CorrectedPagesTile | soul_diary/backend/database/service.py:163-190 | consecutive corrected pages tile the order: the page after the next cursor continues this one with nothing skipped or repeated |
| DatabaseService.CorrectedLastPage | soul_diary/backend/database/service.py:182-190 | the corrected page without a next cursor runs to the oldest record |
| DatabaseService.CorrectedNavigationSymmetric | soul_diary/backend/database/service.py:148-190 | going forward then back returns to the same page, and so does going back then forward from a non-empty page |
| DatabaseService.ForwardThenBack | soul_diary/backend/database/service.py:148-190 | the next page's previous cursor leads back to this page |
| DatabaseService.BackThenForward | soul_diary/backend/database/service.py:148-190 | the previous page's next cursor leads back to this non-empty page |
| LocalStorage.BackendOf | soul_diary/ui/app/models.py:16-18 | a backend name is read back only as the enum member whose value it is |
| LocalStorage.DumpAuth | soul_diary/ui/app/local_storage.py:31-38 | the dump of the saved login has exactly the five model fields |
| LocalStorage.ValidateAuth | soul_diary/ui/app/local_storage.py:44-45 | validation succeeds only on an object holding every field of the login it yields; otherwise it is a validation error |
| LocalStorage.ValidateExtension | soul_diary/ui/app/local_storage.py:44-45 | validation accepts every object holding a login's dump, extra fields ignored, and yields that login |
| LocalStorage.AuthDumpRoundTrip | soul_diary/ui/app/local_storage.py:23-45 | validating a dump gives back the same five fields |
| LocalStorage.StoreAuthData | soul_diary/ui/app/local_storage.py:23-38 | storing a login writes its dump under the auth-data key and changes no other key |
| LocalStorage.GetAuthData | soul_diary/ui/app/local_storage.py:40-45 | `None` exactly when no login is saved; otherwise the login the saved document holds, or a validation error |
| LocalStorage.ClearAuthData | soul_diary/ui/app/local_storage.py:47-49 | afterwards no login is saved, and no other key changed |
| LocalStorage.AddSharedData | soul_diary/ui/app/local_storage.py:51-58 | succeeds exactly when the shared value is absent or a dictionary; every given key then reads as given, every other key as before, nothing is lost, and no other storage key changes |
| LocalStorage.GetSharedData | soul_diary/ui/app/local_storage.py:60-65 | `None` without a shared dictionary or without the key, else the stored value; a stored value without `get` fails |
| LocalStorage.ClearSharedData | soul_diary/ui/app/local_storage.py:67-71 | afterwards no shared dictionary exists, and no other key changed |
| LocalStorage.StoreThenGet | soul_diary/ui/app/local_storage.py:23-45 | reading the login back after storing it gives the same login |
| LocalStorage.ClearAuthThenGet | soul_diary/ui/app/local_storage.py:40-49 | after clearing, no login is read back, and clearing twice is clearing once |
| LocalStorage.AddThenGet | soul_diary/ui/app/local_storage.py:51-65 | after a merge, a given key reads its new value and every other key reads as before |
| LocalStorage.ClearSharedThenGet | soul_diary/ui/app/local_storage.py:60-71 | after clearing, every key reads `None`, and clearing twice is clearing once |
| LocalStorage.KeysSeparate | soul_diary/ui/app/local_storage.py:17-18 | the login operations never change what the shared reads see, and the shared operations never change what the login read sees |
| LocalBackend.KeysDistinct | soul_diary/ui/app/backend/local.py:29-30 | a user's auth-block and record-list keys differ from each other, from every other user's keys and from the client's own keys |
| LocalBackend.CreateUser | soul_diary/ui/app/backend/local.py:43-51 | sign-up fails with `UserAlreadyExists` exactly when the user's auth block exists; otherwise it stores the digest of `auth_block:{username}:{password}`, returns it, and changes no other key |
| LocalBackend.Auth | soul_diary/ui/app/backend/local.py:53-64 | sign-in succeeds exactly when the stored block equals the digest of the credentials, and returns it; every other case is `IncorrectCredentials` |
| LocalBackend.AuthAfterCreateUser | soul_diary/ui/app/backend/local.py:43-64 | after sign-up, the same credentials sign in with the returned token, another password exactly when it hashes alike, a second sign-up fails, and no other user's sign-in changes |
| LocalBackend.ParseSense | soul_diary/ui/app/backend/local.py:99-107 | a stored record validates only when it holds the dump of the record yielded; otherwise it is a validation error |
| LocalBackend.ParseHeld | soul_diary/ui/app/backend/local.py:99-107 | validation accepts every document holding a record's dump and yields that record |
| LocalBackend.SenseDumpRoundTrip | soul_diary/ui/app/backend/local.py:161-168 | validating a record's stored dump gives the record back |
| LocalBackend.ParseAll | soul_diary/ui/app/backend/local.py:126-127 | a stored list validates exactly when every item does, into as many records, item by item |
| LocalBackend.ReadOrEmpty | soul_diary/ui/app/backend/local.py:92-93 | a missing or falsy stored list reads as empty; it reads at all exactly when it is also a list of valid records, and then as their validation |
| LocalBackend.FirstNotAfter | soul_diary/ui/app/backend/local.py:97-107 | the first position whose record is not strictly after the pivot: every record before it is after the pivot |
| LocalBackend.ScanToPivot | soul_diary/ui/app/backend/local.py:97-107 | as written, the scan succeeds exactly when some record is at or before the pivot, and then stops at the first such one; otherwise the `IndexError` |
| LocalBackend.StartIndex | soul_diary/ui/app/backend/local.py:96-107 | the listing starts within the list |
| LocalBackend.Window | soul_diary/ui/app/backend/local.py:109-126 | the page holds `min(limit, n - index)` records |
| LocalBackend.DecodePivot | soul_diary/ui/app/backend/local.py:97-98 | no cursor gives no pivot; a cursor gives its decoded pivot, or the decoder's error |
| LocalBackend.EncodePivot | soul_diary/ui/app/backend/local.py:109-124 | a neighbouring pivot becomes a cursor that decodes back to it |
| LocalBackend.Answer | soul_diary/ui/app/backend/local.py:127-133 | the answer carries the page, the limit, the full list length, and a cursor for each neighbouring pivot present |
| LocalBackend.FetchSenseListCorrected | soul_diary/ui/app/backend/local.py:84-134 | corrected listing: refused unless signed in; succeeds exactly when the list reads and the cursor decodes, answering with the `limit` records from the scan's stop, the whole list's length as total, and the records `limit` places either side as cursors |
| LocalBackend.FetchSenseList | soul_diary/ui/app/backend/local.py:84-134 | as written: the `IndexError` exactly when a cursor is given and no record is at or before its pivot; otherwise the corrected listing's answer |
| LocalBackend.RecordStarts | soul_diary/ui/app/backend/local.py:100-107 | on a strictly newest-first list, a record's key used as pivot starts the listing at that record |
| LocalBackend.FollowNext | soul_diary/ui/app/backend/local.py:109-126 | following the next pivot lands at `index + limit`, the two pages are one run of the list, and that page's previous pivot leads back to `index` |
| LocalBackend.FollowPrevious | soul_diary/ui/app/backend/local.py:109-126 | following the previous pivot lands at `index - limit`, on the page that ends where this one begins, whose next pivot leads back here |
| LocalBackend.LastPage | soul_diary/ui/app/backend/local.py:117-126 | a page without a next cursor runs to the end of the list |
| LocalBackend.NewestFirstDistinct | soul_diary/ui/app/backend/local.py:100-104 | a strictly newest-first list has distinct keys and is in order |
| LocalBackend.OwnOrder | soul_diary/ui/app/backend/local.py:100-104 | a strictly newest-first list is its own newest-first order |
| LocalBackend.StartsMatch | soul_diary/ui/app/backend/local.py:97-107 | the local scan stops where the server's query starts: after the records newer than the pivot |
| LocalBackend.FirstNotAfterUnique | soul_diary/ui/app/backend/local.py:97-107 | the scan's stop is the only position with all records before it after the pivot and the one at it not |
| LocalBackend.MatchesServer | soul_diary/ui/app/backend/local.py:96-126 | on a strictly newest-first list, the corrected local page and pivots equal the corrected server query's |
| LocalBackend.ListingFollowsNext | soul_diary/ui/app/backend/local.py:96-134 | an answer's next cursor decodes to a pivot that the as-written scan finds inside the list, and the listing from it starts `limit` records on |
| LocalBackend.EmptyListWithCursor | soul_diary/ui/app/backend/local.py:99 | as written, an empty list with any valid cursor reads past the end, where the corrected listing answers with an empty page |
| LocalBackend.StalePivot | soul_diary/ui/app/backend/local.py:100-107 | as written, a pivot older than every record runs the scan off the list; the corrected scan stops at the end, on an empty page whose previous cursor leads back |
| LocalBackend.FreshId | soul_diary/ui/app/backend/local.py:151-154 | the id drawn is the first of the draws that is not an id of the list, as the `while sense_id in sense_ids` loop settles; no id exactly when every draw is taken |
| LocalBackend.InsertAt | soul_diary/ui/app/backend/local.py:168 | `list.insert(i, x)` puts `x` at `i`, keeps the records before it and shifts the rest by one |
| LocalBackend.InsertAtMultiset | soul_diary/ui/app/backend/local.py:168 | the insertion adds exactly the new record and loses none |
| LocalBackend.PullNewSense | soul_diary/ui/app/backend/local.py:147-168 | as written: succeeds exactly when the stored list exists, is a non-empty list of valid records and a fresh draw exists; the new record gets a fresh id, the text and the time; it goes at the end when older than the first record, else at the top; no other key changes |
| LocalBackend.PullNewSenseCorrected | soul_diary/ui/app/backend/local.py:147-168 | corrected: succeeds exactly when the list reads (a missing one as empty) and a fresh draw exists; the record gets a fresh id, and the list reads back with the record inserted before the first record not newer than it; no other key changes |
| LocalBackend.ParseInsert | soul_diary/ui/app/backend/local.py:168 | a dump inserted into a valid stored list reads back as the record inserted at the same position |
| LocalBackend.InsertKeepsNewestFirst | soul_diary/ui/app/backend/local.py:158-168 | inserting a record with a new key at the corrected scan's stop keeps the list strictly newest first |
| LocalBackend.FreshKey | soul_diary/ui/app/backend/local.py:151-154 | a fresh id gives the new record a key no stored record has |
| LocalBackend.AddedKeepsOrder | soul_diary/ui/app/backend/local.py:147-168 | the corrected addition adds exactly the new record, keeps a newest-first list newest first and keeps ids unique |
| LocalBackend.UniqueAfterInsert | soul_diary/ui/app/backend/local.py:151-168 | inserting a record with a fresh id keeps ids unique |
| LocalBackend.WrittenAgreesExactly | soul_diary/ui/app/backend/local.py:158-166 | the as-written position is the right one exactly when the new record is newer than the first record or older than the last |
| LocalBackend.InsertionBreaksOrder | soul_diary/ui/app/backend/local.py:158-168 | records at times 30 and 10 with a new one at 20 (a clock that moved back since the newest record): the as-written code appends it, breaking the order; the corrected scan places it second |
| LocalBackend.FirstRecordCreated | soul_diary/ui/app/backend/local.py:147-168 | a user with no stored list gets a list of just the new record, with the first draw as its id |

## Left out

- Floating-point timestamps and time zones are not modelled. The source packs `datetime.timestamp()` as a native-order IEEE double and reads it back with `datetime.fromtimestamp` in local time. The model uses an integer creation time and an exact 8-byte encoding, because the float rounding and the time-zone shift are not part of the pagination logic. `fromtimestamp` also raises on a NaN double (ValueError), on an infinite one (OverflowError) and on one outside the platform's range (ValueError, OverflowError or OSError). The model's integer encoding has no such failure. So a 24-byte payload can be an error in the source and a `Success` in the model; one example is eight bytes `00 00 00 00 00 00 F8 7F`, a quiet NaN, followed by 16 id bytes. A payload of the wrong length whose first 8 bytes are such a double raises that error in the source, before the `UUID(bytes=)` error the model reports.
- The server's SQL tie order is not modelled as unspecified. The query orders by `created_at` only, so rows with equal creation times come back in an order the database chooses. The model breaks such ties by id, descending in the main query and ascending in the previous lookup, so that pages are determined.
- Python's lenient base64 decoding is left out; the model's decoder follows section 4 of RFC 4648 strictly. The non-strict `b64decode` discards characters outside the alphabet, accepts excess padding (a cursor with an extra trailing `=` decodes to the same 24 bytes) and ignores data after a completed pad group. The model refuses all three, so a token only the lenient decoder accepts is a `MalformedBase64` failure in the model.
- SHA-256 is left out, because hashing is not the logic being modelled; it is the `digest` parameter. AES-EAX record encryption is left out for the same reason; the record's `data` is an opaque string.
- bcrypt on the server is left out, for the same reason.
- Stored records keep their id and creation time as JSON numbers, standing for the UUID and ISO-8601 text of `model_dump(mode="json")`, because the text formats only round-trip the same values.
- LocalBackend.ReadOrEmpty: validates the whole stored list when it is read, while the source validates records lazily, one by one as it touches them. A list holding an invalid record that the source never touches fails in the model. The model is stricter on such a corrupt storage only.
- LocalBackend.PullNewSense: the repeated `uuid.uuid4()` draw is a finite sequence of draws, so the model has a `NoFreshDraw` failure that the source, drawing without end, does not have.
- The source reads the stored list's ids with `sense["id"]` before validating; the model validates records first, for the same reason as the previous item.
- `datetime.utcnow()` is the `now` parameter, because the clock is outside the model.
- A session without a username is not modelled: the model's session always has one. The source formats `None` into the key, which is a stored key like any other.
- The broken update branch of `pull_sense_data`, `delete_sense` and `fetch_sense` are not modelled. They mix dictionaries, model objects and list results, so they fail before doing anything their names promise.
- Pydantic's coercions on validation are left out: the model accepts only values of the field's own type.
- LocalStorage.GetSharedData: a stored JSON `null` and a missing key both read as `None`, as in the source, so the model cannot tell them apart either.
- Persistence, transactions, the HTTP API, the remote backend client and the user interface are left out, because they are I/O and navigation around the modelled logic.
- A positive limit is a precondition (`limit >= 1`). The API's schema declares the limit a positive integer, and the model does not validate it.

## Findings

| source | as written | input that shows it | evidently intended | confidence | as-written member | corrected member |
|---|---|---|---|---|---|---|
| soul_diary/backend/database/service.py:190 | the page is every fetched row but the last, even when no extra row was fetched | a user with one record and no cursor: the page is empty (`SingleRecordPageIsEmpty`); in general the oldest record is on no page (`OldestRecordNeverReturned`) | drop the extra row only: `senses[:limit]`, so the last page runs to the oldest record (`CorrectedLastPage`, `CorrectedPagesTile`) | not executed | DatabaseService.Query | DatabaseService.QueryCorrected |
| soul_diary/backend/database/service.py:156 | the previous pivot is looked up with `offset(limit)`, one record further back than a page | the first page's next cursor gives a second page with no previous cursor (`SecondPageHasNoPrevious`); later pages start `limit + 1` back (`PreviousOneTooFar`) | `offset(limit - 1)`, so the previous page ends where this one begins and its next cursor returns here (`CorrectedPrevious`, `CorrectedNavigationSymmetric`) | not executed | DatabaseService.PreviousOneTooFar | DatabaseService.CorrectedNavigationSymmetric |
| soul_diary/ui/app/backend/local.py:99-107 | the scan reads `sense_list[0]` before checking the length, and reads `sense_list[index]` after every step, including the step to the end | an empty list with any valid cursor (`EmptyListWithCursor`); one record at time 10 and a pivot at time 5 (`StalePivot`) | stop at the end of the list and answer with the empty page there (`FetchSenseListCorrected`, with `MatchesServer` showing it agrees with the corrected server) | not executed | LocalBackend.FetchSenseList | LocalBackend.FetchSenseListCorrected |
| soul_diary/ui/app/backend/local.py:147-168 | the new-record branch iterates over the stored list (failing when there is none), reads its first record (failing on an empty list), and compares the new record only with that first record, never advancing | records at times 30 and 10 and a new record at time 20, which needs the clock to have moved back since the newest record: it is appended, and the list is no longer newest first (`InsertionBreaksOrder`); a user without a list, which sign-up never writes, cannot add a record at all | insert before the first record not newer than the new one, treating a missing list as empty (`AddedKeepsOrder`, `FirstRecordCreated`) | not executed | LocalBackend.PullNewSense | LocalBackend.PullNewSenseCorrected |
