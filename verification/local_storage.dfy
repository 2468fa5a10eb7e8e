/** The client-side key-value storage of the diary app: the saved login
    ("auth data") and a dictionary of shared settings, kept under two fixed
    keys of the client storage. The client storage itself is a map from
    keys to JSON documents; every read and write goes through it. */
module LocalStorage {
  import opened Results

  /** A JSON document as the client storage keeps it. Numbers are integers. */
  datatype Json =
    | JNull
    | JBool(b: bool)
    | JNum(n: int)
    | JStr(s: string)
    | JList(items: seq<Json>)
    | JObject(fields: map<string, Json>)

  /** The client storage: key to stored document. */
  type Store = map<string, Json>

  const AuthDataKey: string := "soul_diary.client.auth_data"
  const SharedDataKey: string := "soul_diary.client.shared_data"

  /** Which backend the saved login belongs to. */
  datatype BackendType = Local | Soul

  /** The enum's stored value. */
  function BackendValue(b: BackendType): string {
    match b
    case Local => "local"
    case Soul => "soul"
  }

  function BackendOf(s: string): (r: Option<BackendType>)
    ensures r.Some? ==> BackendValue(r.value) == s
  {
    if s == "local" then Some(Local)
    else if s == "soul" then Some(Soul)
    else None
  }

  /** The saved login. */
  datatype AuthData = AuthData(
    backend: BackendType,
    backendData: map<string, Json>,
    username: string,
    encryptionKey: string,
    token: string)

  datatype StorageError =
    | ValidationError   // the stored auth data does not have the model's shape
    | NotADict          // the stored shared data is not a dictionary

  /** The JSON dump of the saved login, one field per model attribute. */
  function DumpAuth(a: AuthData): (j: Json)
    ensures j.JObject? && |j.fields.Keys| == 5
  {
    var f := map[
      "backend" := JStr(BackendValue(a.backend)),
      "backend_data" := JObject(a.backendData),
      "username" := JStr(a.username),
      "encryption_key" := JStr(a.encryptionKey),
      "token" := JStr(a.token)];
    assert f.Keys == {"backend", "backend_data", "username", "encryption_key", "token"};
    JObject(f)
  }

  /** `v` is an object holding the dump of `a`, field for field; other
      fields are allowed and ignored. */
  ghost predicate Extends(v: Json, a: AuthData) {
    var d := DumpAuth(a).fields;
    v.JObject? && forall k :: k in d ==> k in v.fields && v.fields[k] == d[k]
  }

  function TextField(f: map<string, Json>, k: string): Option<string> {
    if k in f && f[k].JStr? then Some(f[k].s) else None
  }

  /** Validation of a stored document against the saved-login model. */
  function ValidateAuth(v: Json): (r: Result<AuthData, StorageError>)
    ensures r.Success? ==> Extends(v, r.value)
    ensures r.Failure? ==> r.error == ValidationError
  {
    if !v.JObject? then Failure(ValidationError)
    else
      var f := v.fields;
      var backend := TextField(f, "backend");
      var username := TextField(f, "username");
      var key := TextField(f, "encryption_key");
      var token := TextField(f, "token");
      if backend.None? || username.None? || key.None? || token.None? then Failure(ValidationError)
      else if BackendOf(backend.value).None? then Failure(ValidationError)
      else if !("backend_data" in f && f["backend_data"].JObject?) then Failure(ValidationError)
      else Success(AuthData(BackendOf(backend.value).value, f["backend_data"].fields,
                            username.value, key.value, token.value))
  }

  /** Validation accepts exactly the documents that extend a dump, and
      yields the saved login they extend. */
  lemma ValidateExtension(v: Json, a: AuthData)
    requires Extends(v, a)
    ensures ValidateAuth(v) == Success(a)
  {
    var d := DumpAuth(a).fields;
    assert "backend" in d && "backend_data" in d && "username" in d
      && "encryption_key" in d && "token" in d;
    assert BackendOf(BackendValue(a.backend)) == Some(a.backend) by {
      match a.backend
      case Local =>
      case Soul =>
    }
  }

  lemma AuthDumpRoundTrip(a: AuthData)
    ensures ValidateAuth(DumpAuth(a)) == Success(a)
  {
    ValidateExtension(DumpAuth(a), a);
  }

  /** The store is the same as `s` at every key other than `key`. */
  ghost predicate SameElsewhere(s: Store, r: Store, key: string) {
    forall k :: k != key ==> (k in r <==> k in s) && (k in s ==> r[k] == s[k])
  }

  function StoreAuthData(s: Store, a: AuthData): (r: Store)
    ensures AuthDataKey in r && Extends(r[AuthDataKey], a)
    ensures SameElsewhere(s, r, AuthDataKey)
  {
    s[AuthDataKey := DumpAuth(a)]
  }

  /** `None` when no login is saved; a validation error when the saved
      document is malformed. */
  function GetAuthData(s: Store): (r: Result<Option<AuthData>, StorageError>)
    ensures r == Success(None) <==> AuthDataKey !in s
    ensures r.Success? && r.value.Some? ==> AuthDataKey in s && Extends(s[AuthDataKey], r.value.value)
    ensures r.Failure? ==> r.error == ValidationError
  {
    if AuthDataKey !in s then Success(None)
    else
      match ValidateAuth(s[AuthDataKey])
      case Success(a) => Success(Some(a))
      case Failure(e) => Failure(e)
  }

  function ClearAuthData(s: Store): (r: Store)
    ensures AuthDataKey !in r
    ensures SameElsewhere(s, r, AuthDataKey)
  {
    if AuthDataKey in s then s - {AuthDataKey} else s
  }

  /** Merges `kwargs` into the shared dictionary, creating it when absent;
      a stored value that is not a dictionary has no `update` and fails. */
  function AddSharedData(s: Store, kwargs: map<string, Json>): (r: Result<Store, StorageError>)
    ensures r.Success? <==> SharedDataKey !in s || s[SharedDataKey].JObject?
    ensures r.Failure? ==> r.error == NotADict
    ensures r.Success? ==> SameElsewhere(s, r.value, SharedDataKey)
    ensures r.Success? ==> SharedDataKey in r.value && r.value[SharedDataKey].JObject?
    ensures r.Success? ==>
      var f := r.value[SharedDataKey].fields;
      && (forall k :: k in kwargs ==> k in f && f[k] == kwargs[k])
      && (forall k :: k in f && k !in kwargs ==>
            SharedDataKey in s && k in s[SharedDataKey].fields && f[k] == s[SharedDataKey].fields[k])
      && (SharedDataKey in s ==> forall k :: k in s[SharedDataKey].fields ==> k in f)
  {
    if SharedDataKey in s then
      match s[SharedDataKey]
      case JObject(f) => Success(s[SharedDataKey := JObject(f + kwargs)])
      case _ => Failure(NotADict)
    else
      Success(s[SharedDataKey := JObject(kwargs)])
  }

  /** The value stored under `key` in the shared dictionary; `JNull` (Python's
      `None`) when there is no dictionary or no such key. */
  function GetSharedData(s: Store, key: string): (r: Result<Json, StorageError>)
    ensures SharedDataKey !in s ==> r == Success(JNull)
    ensures r.Success? <==> SharedDataKey !in s || s[SharedDataKey].JObject?
    ensures r.Failure? ==> r.error == NotADict
    ensures r.Success? && SharedDataKey in s ==>
      r.value == (if key in s[SharedDataKey].fields then s[SharedDataKey].fields[key] else JNull)
  {
    if SharedDataKey !in s then Success(JNull)
    else
      match s[SharedDataKey]
      case JObject(f) => Success(if key in f then f[key] else JNull)
      case _ => Failure(NotADict)
  }

  function ClearSharedData(s: Store): (r: Store)
    ensures SharedDataKey !in r
    ensures SameElsewhere(s, r, SharedDataKey)
  {
    if SharedDataKey !in s then s else s - {SharedDataKey}
  }

  /** Reading the login back returns what was saved. */
  lemma StoreThenGet(s: Store, a: AuthData)
    ensures GetAuthData(StoreAuthData(s, a)) == Success(Some(a))
  {
    AuthDumpRoundTrip(a);
  }

  lemma ClearAuthThenGet(s: Store)
    ensures GetAuthData(ClearAuthData(s)) == Success(None)
    ensures ClearAuthData(ClearAuthData(s)) == ClearAuthData(s)
  {
  }

  /** After a merge, a key given to it reads back as given and every other
      key reads as before. */
  lemma AddThenGet(s: Store, kwargs: map<string, Json>, key: string)
    requires AddSharedData(s, kwargs).Success?
    ensures GetSharedData(AddSharedData(s, kwargs).value, key)
      == Success(if key in kwargs then kwargs[key] else GetSharedData(s, key).value)
  {
  }

  lemma ClearSharedThenGet(s: Store, key: string)
    ensures GetSharedData(ClearSharedData(s), key) == Success(JNull)
    ensures ClearSharedData(ClearSharedData(s)) == ClearSharedData(s)
  {
  }

  /** The saved login and the shared dictionary live under different keys:
      changing one never changes what the other reads. */
  lemma KeysSeparate(s: Store, a: AuthData, kwargs: map<string, Json>, key: string)
    ensures GetSharedData(StoreAuthData(s, a), key) == GetSharedData(s, key)
    ensures GetSharedData(ClearAuthData(s), key) == GetSharedData(s, key)
    ensures AddSharedData(s, kwargs).Success? ==>
      GetAuthData(AddSharedData(s, kwargs).value) == GetAuthData(s)
    ensures GetAuthData(ClearSharedData(s)) == GetAuthData(s)
  {
  }
}
