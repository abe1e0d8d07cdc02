/** Key/value storage in OneDrive: one remote file per key, under an OAuth token (`onedrive.c`, `hive_key.c`). */
module OneDrive {
  import opened Prelude
  import opened HiveError
  import opened Http
  import opened Records
  import opened Remote
  import opened Token

  const PATH_MAX := 4096
  const KEYS_DIR := "/KeyValues"

  /** The longest key whose URL still fits `char url[1024]`: 57 bytes of root, `:`, the path, `:/createUploadSession` and a NUL. */
  const MAX_KEY := 1024 - 57 - 1 - 11 - 21 - 1

  /** `snprintf(path, sizeof(path), "%s/%s", KEYS_DIR, key)` */
  function PathOf(key: string): string {
    var path := KEYS_DIR + "/" + key;
    if |path| < PATH_MAX then path else path[..PATH_MAX - 1]
  }

  lemma PathsDiffer(k: string, l: string)
    requires |k| <= MAX_KEY && |l| <= MAX_KEY && PathOf(k) == PathOf(l)
    ensures k == l
  {
    var dir := KEYS_DIR + "/";
    assert PathOf(k)[|dir|..] == k && PathOf(l)[|dir|..] == l;
  }

  const BAD_DATA := Error(GENERAL, BAD_PERSISTENT_DATA)

  /** Files larger than this do not come about; they could not be extended either. */
  const MAX_FILE := INT_LIMIT + HEADER + MAX_VALUE_LEN

  ghost predicate IsLog(f: seq<octet>) {
    |f| < MAX_FILE && exists vs :: Wellformed(vs) && f == Log(vs)
  }

  const ALWAYS: Answers := (k: nat) => true

  /** The values in a file. */
  ghost function ValuesOf(f: seq<octet>): seq<Value> {
    if |f| <= HEADER then [] else Entries(f, 0, ALWAYS).values
  }

  lemma ValuesOfLog(vs: seq<Value>)
    requires Wellformed(vs)
    ensures ValuesOf(Log(vs)) == vs
  {
    if vs != [] {
      LogLength(vs);
      AcceptsExactlyLogs(Log(vs), ALWAYS);
    }
  }

  lemma LogOfValues(f: seq<octet>)
    requires IsLog(f)
    ensures Wellformed(ValuesOf(f)) && Log(ValuesOf(f)) == f
  {
    var vs :| Wellformed(vs) && f == Log(vs);
    ValuesOfLog(vs);
  }

  lemma LogExtended(f: seq<octet>, v: Value)
    requires IsLog(f) && |f| < INT_LIMIT && 0 < |v| <= MAX_VALUE_LEN
    ensures IsLog(f + Record(v)) && ValuesOf(f + Record(v)) == ValuesOf(f) + [v]
  {
    var vs :| Wellformed(vs) && f == Log(vs);
    LogAppend(vs, v);
    ValuesOfLog(vs);
    ValuesOfLog(vs + [v]);
  }

  lemma EmptyLog()
    ensures IsLog([]) && ValuesOf([]) == []
  {
    assert Wellformed([]) && Log([]) == [];
  }

  lemma SingleLog(v: Value)
    requires 0 < |v| <= MAX_VALUE_LEN
    ensures IsLog(Record(v)) && ValuesOf(Record(v)) == [v]
  {
    EmptyLog();
    LogExtended([], v);
    assert [] + Record(v) == Record(v) && [] + [v] == [v];
  }

  ghost function ContentsOf(files: map<string, seq<octet>>): map<string, seq<Value>> {
    map p | p in files :: ValuesOf(files[p])
  }

  lemma ContentsUpdated(files: map<string, seq<octet>>, path: string, data: seq<octet>)
    ensures ContentsOf(files[path := data]) == ContentsOf(files)[path := ValuesOf(data)]
    ensures ContentsOf(files - {path}) == ContentsOf(files) - {path}
  {
  }

  /** What is behind a path; nothing when there is no file. */
  ghost function At(contents: map<string, seq<Value>>, path: string): seq<Value> {
    if path in contents then contents[path] else []
  }

  /** What a successful put leaves behind the path; a misled one takes what is there for nothing. */
  ghost function AfterPut(values: seq<Value>, value: Value, misled: bool): seq<Value> {
    if misled then [value] else values + [value]
  }

  /** A file of this size cannot be extended. */
  ghost predicate TooLong(vs: seq<Value>) {
    Storable(vs) && |Log(vs)| >= INT_LIMIT
  }

  function SizeOf(files: map<string, seq<octet>>, path: string): Option<nat> {
    if path in files then Some(|files[path]|) else None
  }

  lemma TooLongBySize(files: map<string, seq<octet>>, path: string)
    requires path in files ==> IsLog(files[path])
    ensures TooLong(At(ContentsOf(files), path)) <==> path in files && |files[path]| >= INT_LIMIT
  {
    if path in files {
      LogOfValues(files[path]);
    }
  }

  function FileOf(files: map<string, seq<octet>>, path: string): seq<octet> {
    if path in files then files[path] else []
  }

  /** The marks a request with the token leaves when it is answered by `reply`. */
  function BearMarks(reply: Reply): seq<Mark> {
    if reply == Status(HTTP_UNAUTHORIZED) then [Bearer, Expired] else [Bearer]
  }

  /** The last request of an operation was answered with 401: the token has been marked expired since `before`. */
  ghost predicate AskedAgain(before: seq<Mark>, after: seq<Mark>) {
    before < after && Pending(after)
  }

  /** What came before the last of it makes no difference. */
  lemma AskedLater(before: seq<Mark>, between: seq<Mark>, after: seq<Mark>)
    requires before <= between <= after && !AskedAgain(before, between)
    ensures AskedAgain(before, after) <==> AskedAgain(between, after)
  {
    hide Pending;
    if |between| == |after| {
      assert between == after;
    }
  }

  lemma NotAsked(trace: seq<Mark>)
    ensures !AskedAgain(trace, trace)
  {
  }

  class OneDrive {
    const token: Token
    var files: map<string, seq<octet>>  // the remote files behind the keys

    /** The token has not been used between being marked expired and a refresh; no file is larger than an `int` can tell. */
    ghost predicate Usable()
      reads this`files, token
    {
      && token.Valid() && token.refreshToken.Some? && Gated(token.trace)
      && forall p | p in files :: |files[p]| < MAX_FILE
    }

    /** Every file is a log. */
    ghost predicate Valid()
      reads this`files, token
    {
      Usable() && forall p | p in files :: IsLog(files[p])
    }

    constructor (token: Token, files: map<string, seq<octet>>)
      requires token.Valid() && token.refreshToken.Some? && Gated(token.trace) && forall p | p in files :: IsLog(files[p])
      ensures Valid() && this.token == token && this.files == files
    {
      this.token, this.files := token, files;
    }

    /** The values behind each path. */
    ghost function Contents(): map<string, seq<Value>>
      reads this`files
    {
      ContentsOf(files)
    }

    /** Past the check of the token it may be used. */
    ghost predicate Ready()
      reads this`files, token
    {
      Usable() && !Pending(token.trace)
    }

    /** In every reachable state: between being marked expired and its next use the token has been refreshed. */
    lemma RefreshBetween(i: nat, j: nat)
      requires Usable() && i < j < |token.trace| && token.trace[i] == Expired && token.trace[j] == Bearer
      ensures exists k :: i < k < j && token.trace[k] == Refreshed
    {
      GatedMeans(token.trace, i, j);
    }

    /** `oauth_token_check_expire` */
    method CheckExpire(c: Check) returns (rc: int)
      requires Usable() && IsCheck(c)
      modifies token
      ensures Usable() && -INT_LIMIT <= rc <= 0 && (rc == 0 ==> Ready())
      ensures rc == 0 <==> Passes(old(token.expiresAt), c)
      ensures rc == NOT_FOUND <==> Misleads(old(token.expiresAt), c)
      ensures rc != AGAIN && !AskedAgain(old(token.trace), token.trace)
      ensures token.expiresAt == Expiry(old(token.expiresAt), c)
      ensures token.trace == old(token.trace) + CheckMarks(old(token.expiresAt), c)
    {
      hide Granted;
      GatedStep(token.trace, Refreshed);
      assert token.trace + [] == token.trace;
      rc := token.CheckExpire(c);
    }

    /** A request that carries the token and is answered by `reply`. A 401 marks the token expired. */
    method Bear(reply: Reply)
      requires Ready() && IsReply(reply)
      modifies token
      ensures Usable() && (reply != Status(HTTP_UNAUTHORIZED) ==> Ready() && token.expiresAt == old(token.expiresAt))
      ensures token.trace == old(token.trace) + BearMarks(reply)
      ensures AskedAgain(old(token.trace), token.trace) <==> reply == Status(HTTP_UNAUTHORIZED)
    {
      GatedStep(token.trace, Bearer);
      var bearer := token.UseBearer();
      if reply == Status(HTTP_UNAUTHORIZED) {
        GatedStep(token.trace, Expired);
        token.SetExpired();
        assert old(token.trace) + [Bearer] + [Expired] == old(token.trace) + [Bearer, Expired];
      }
    }

    // ----- reading -----

    /** `__get_file_info`; the service reports a file it has, with its size, and says 404 for one it has not. */
    method GetFileInfo(path: string, s: Service, body: Body) returns (rc: int, size: nat)
      requires Ready() && IsService(s, {HTTP_OK, HTTP_NOT_FOUND})
      modifies token
      ensures Usable() && -INT_LIMIT <= rc <= 0
      ensures rc == 0 <==> s.Served? && path in files && body.Complete?
      ensures rc == NOT_FOUND <==> s.Served? && path !in files
      ensures rc == 0 ==> size == |files[path]|
      ensures rc == 0 || rc == NOT_FOUND ==> Ready() && token.expiresAt == old(token.expiresAt)
      ensures token.trace == old(token.trace) + BearMarks(ReplyOf(s, if path in files then HTTP_OK else HTTP_NOT_FOUND))
      ensures AskedAgain(old(token.trace), token.trace) <==> rc == AGAIN
      ensures rc == AGAIN <==> s == Refusal(401)
    {
      var reply := ReplyOf(s, if path in files then HTTP_OK else HTTP_NOT_FOUND);
      Bear(reply);
      if reply != Status(HTTP_OK) { return ReplyError(reply), 0; }
      if !body.Complete? { return BodyError(body), 0; }
      return 0, |files[path]|;
    }

    /** `__get_file_length`. Without memory for a client the error comes back as a positive size. */
    method GetFileLength(path: string, l: Lookup) returns (n: int)
      requires Usable() && IsLookup(l)
      modifies token
      ensures Usable() && -INT_LIMIT <= n < UNSIGNED_LIMIT && old(token.trace) <= token.trace
      ensures n == NOT_FOUND <==> Misleads(old(token.expiresAt), l.check) || (Reports(old(token.expiresAt), l, false) && path !in files)
      ensures n == NO_MEMORY_AS_SIZE <==> Clientless(old(token.expiresAt), l)
      ensures n >= 0 <==> Clientless(old(token.expiresAt), l) || (path in files && Reports(old(token.expiresAt), l, true))
      ensures n >= 0 && n != NO_MEMORY_AS_SIZE ==> path in files && n == |files[path]|
      ensures n >= 0 || n == NOT_FOUND ==> token.expiresAt == Expiry(old(token.expiresAt), l.check)
      ensures AskedAgain(old(token.trace), token.trace) <==> n == AGAIN
    {
      hide Passes, Misleads, Expiry, AskedAgain, Pending, Gated;
      ghost var was := token.trace;
      PassesApart(token.expiresAt, l.check);
      var rc := CheckExpire(l.check);
      if rc < 0 { return rc; }
      ghost var checked := token.trace;
      if !l.client { return NO_MEMORY_AS_SIZE; }
      var size;
      rc, size := GetFileInfo(path, l.service, l.body);
      AskedLater(was, checked, token.trace);
      if rc < 0 { return rc; }
      return size;
    }

    /** `__get_file_to_buffer`: fills the front of `buf` with the file. Errors of its own come back positive. */
    method GetFileToBuffer(path: string, buf: array<octet>, buflen: nat, f: Fetch) returns (n: int)
      requires Usable() && IsFetch(f) && buflen <= buf.Length
      requires buflen == 0 && path in files ==> |files[path]| <= buf.Length
      modifies token, buf
      ensures Usable() && -INT_LIMIT <= n < UNSIGNED_LIMIT && old(token.trace) <= token.trace
      ensures n == NO_MEMORY_AS_SIZE <==> Clientless(old(token.expiresAt), f.lookup)
      ensures n == TOO_SMALL_AS_SIZE <==>
                path in files && |files[path]| > buflen > 0 && Reports(old(token.expiresAt), f.lookup, true)
      ensures 0 <= n < MAX_FILE <==>
                path in files && !(|files[path]| > buflen > 0) && Fetches(old(token.expiresAt), |files[path]|, f)
      ensures n >= MAX_FILE ==> n == NO_MEMORY_AS_SIZE || n == TOO_SMALL_AS_SIZE
      ensures 0 <= n < MAX_FILE ==>
                n == |files[path]| && buf[..n] == files[path] && token.expiresAt == Expiry(old(token.expiresAt), f.lookup.check)
      ensures n < 0 || n >= MAX_FILE ==> buf[..] == old(buf[..])
      ensures AskedAgain(old(token.trace), token.trace) <==> n == AGAIN
    {
      hide Passes, Misleads, Expiry, AskedAgain, Pending, Gated;
      ghost var was := token.trace;
      var rc := CheckExpire(f.lookup.check);
      if rc < 0 { return rc; }
      ghost var checked := token.trace;
      if !f.lookup.client { return NO_MEMORY_AS_SIZE; }
      var size;
      rc, size := GetFileInfo(path, f.lookup.service, f.lookup.body);
      AskedLater(was, checked, token.trace);
      if rc < 0 { return rc; }
      if buflen > 0 && size > buflen { return TOO_SMALL_AS_SIZE; }
      if size == 0 { return 0; }
      var reply := ReplyOf(f.download, HTTP_OK);
      if reply != Status(HTTP_OK) { return PlainError(reply); }
      var data := files[path];
      forall i | 0 <= i < |data| { buf[i] := data[i]; }
      return size;
    }

    // ----- writing -----

    /** `__upload_file`: the file is replaced if the reply says so, is not if it says otherwise, and may be if none comes. */
    method UploadFile(path: string, data: seq<octet>, s: Service) returns (rc: int)
      requires Valid() && Ready() && IsLog(data) && IsService(s, {HTTP_OK, HTTP_CREATED})
      modifies this`files, token
      ensures Valid() && -INT_LIMIT <= rc <= 0 && (rc == 0 <==> s.Served?)
      ensures files == if CarriedOut(s) then old(files)[path := data] else old(files)
      ensures token.trace == old(token.trace) + BearMarks(ReplyOf(s, HTTP_CREATED))
      ensures AskedAgain(old(token.trace), token.trace) <==> rc == AGAIN
      ensures rc == AGAIN <==> s == Refusal(401)
    {
      hide AskedAgain, Pending;
      var reply := ReplyOf(s, if path in files then HTTP_OK else HTTP_CREATED);
      Bear(reply);
      if CarriedOut(s) { files := files[path := data]; }
      if reply != Status(HTTP_CREATED) && reply != Status(HTTP_OK) { return ReplyError(reply); }
      return 0;
    }

    /** `__create_folder`, which is there (200) or is not (201). */
    method CreateFolder(memory: bool, s: Service) returns (rc: int)
      requires Ready() && IsService(s, {HTTP_OK, HTTP_CREATED})
      modifies token
      ensures Usable() && -INT_LIMIT <= rc <= 0 && (rc == 0 <==> memory && s.Served?) && (rc == 0 ==> Ready())
      ensures token.trace == old(token.trace) + if memory then BearMarks(ReplyOf(s, HTTP_CREATED)) else []
      ensures AskedAgain(old(token.trace), token.trace) <==> rc == AGAIN
      ensures rc == AGAIN <==> memory && s == Refusal(401)
    {
      if !memory {
        assert token.trace + [] == token.trace;
        return NO_MEMORY;
      }
      var reply := ReplyOf(s, HTTP_CREATED);
      Bear(reply);
      if reply != Status(HTTP_CREATED) && reply != Status(HTTP_OK) { return ReplyError(reply); }
      return 0;
    }

    /** `__create_upload_session` */
    method CreateUploadSession(s: Service, body: Body, fits: bool) returns (rc: int)
      requires Ready() && IsService(s, {HTTP_OK})
      modifies token
      ensures Usable() && -INT_LIMIT <= rc <= 0 && (rc == 0 <==> s.Served? && body.Complete? && fits)
      ensures token.trace == old(token.trace) + BearMarks(ReplyOf(s, HTTP_OK))
      ensures AskedAgain(old(token.trace), token.trace) <==> rc == AGAIN
      ensures rc == AGAIN <==> s == Refusal(401)
    {
      var reply := ReplyOf(s, HTTP_OK);
      Bear(reply);
      if reply != Status(HTTP_OK) { return ReplyError(reply); }
      if !body.Complete? { return BodyError(body); }
      if !fits { return Error(GENERAL, BUFFER_TOO_SMALL); }
      return 0;
    }

    /** `__upload_to_session`; the session URL needs no token. */
    method UploadToSession(path: string, data: seq<octet>, s: Service) returns (rc: int)
      requires Valid() && IsLog(data) && IsService(s, {HTTP_OK, HTTP_CREATED})
      modifies this`files
      ensures Valid() && -INT_LIMIT <= rc <= 0 && (rc == 0 <==> s.Served?) && rc != AGAIN
      ensures files == if CarriedOut(s) then old(files)[path := data] else old(files)
    {
      var reply := ReplyOf(s, if path in files then HTTP_OK else HTTP_CREATED);
      if CarriedOut(s) { files := files[path := data]; }
      if reply != Status(HTTP_CREATED) && reply != Status(HTTP_OK) { return PlainError(reply); }
      return 0;
    }

    /** `__put_file_from_buffer`: succeeds exactly when all goes well, and replaces the file exactly when the upload is carried out. */
    method PutFileFromBuffer(path: string, data: seq<octet>, u: Upload) returns (rc: int)
      requires Valid() && IsLog(data) && IsUpload(u)
      modifies this`files, token
      ensures Valid() && -INT_LIMIT <= rc <= 0 && old(token.trace) <= token.trace
      ensures rc == 0 <==> Uploads(old(token.expiresAt), |data|, u)
      ensures files == if Replaces(old(token.expiresAt), |data|, u) then old(files)[path := data] else old(files)
      ensures AskedAgain(old(token.trace), token.trace) <==> rc == AGAIN
    {
      hide Passes, IsLog, AskedAgain, Pending;
      ghost var was := token.trace;
      rc := CheckExpire(u.check);
      if rc < 0 { return; }
      ghost var checked := token.trace;
      if !u.client { return NO_MEMORY; }
      if |data| <= ONE_REQUEST_MAX {
        rc := UploadFile(path, data, u.content);
        AskedLater(was, checked, token.trace);
        return;
      }
      rc := CreateFolder(u.folderBody, u.folder);
      AskedLater(was, checked, token.trace);
      if rc < 0 { return; }
      checked := token.trace;
      rc := CreateUploadSession(u.session, u.sessionBody, u.fits);
      AskedLater(was, checked, token.trace);
      if rc < 0 { return; }
      rc := UploadToSession(path, data, u.rest);
    }

    // ----- the operations -----

    /** `set_value` */
    method SetValue(path: string, value: Value, w: World) returns (rc: int)
      requires Valid() && 0 < |value| <= MAX_VALUE_LEN && IsWorld(w)
      modifies this`files, token
      ensures Valid() && rc <= 0 && old(token.trace) <= token.trace
      ensures rc == 0 <==> Sets(old(token.expiresAt), |value|, w)
      ensures Contents() ==
              if SetTakes(old(token.expiresAt), |value|, w) then old(Contents())[path := [value]] else old(Contents())
      ensures AskedAgain(old(token.trace), token.trace) <==> rc == AGAIN
    {
      hide IsLog, ValuesOf, ContentsOf, Uploads, Replaces, AskedAgain;
      NotAsked(token.trace);
      SingleLog(value);
      ContentsUpdated(files, path, Record(value));
      if !w.memory { return NO_MEMORY; }
      rc := PutFileFromBuffer(path, Record(value), w.upload);
    }

    /** What `put_value` gets together to upload: the file as it is, and the new record behind it. */
    method Gather(path: string, value: Value, size: nat, w: World) returns (rc: int, data: seq<octet>)
      requires Usable() && |value| <= MAX_VALUE_LEN && IsWorld(w)
      requires size == NO_MEMORY_AS_SIZE || size == 0 || (path in files && size == |files[path]|)
      modifies token
      ensures Usable() && rc <= 0 && old(token.trace) <= token.trace
      ensures rc == 0 <==> w.memory && (size > 0 ==> size < INT_LIMIT && Fetches(old(token.expiresAt), size, w.fetch))
      ensures rc == 0 ==> data == (if size == 0 then [] else files[path]) + Record(value)
      ensures rc == 0 ==>
                token.expiresAt == if size == 0 then old(token.expiresAt) else Expiry(old(token.expiresAt), w.fetch.lookup.check)
      ensures AskedAgain(old(token.trace), token.trace) <==> rc == AGAIN
    {
      hide Passes, Expiry, Record, Fetches, Reports, Clientless, IsFetch, Gated, Pending, AskedAgain;
      NotAsked(token.trace);
      data := [];
      if !w.memory { return NO_MEMORY, data; }
      var buf := new octet[size + HEADER + |value|](_ => 0);
      if size > 0 {
        var n := GetFileToBuffer(path, buf, size, w.fetch);
        rc := AsInt(n);
        if rc < 0 { return; }
        if rc != AsInt(size) { return Error(GENERAL, INVALID_PERSISTENCE_FILE), data; }
      }
      var record := Record(value);
      assert size > 0 ==> buf[..size] == files[path];
      forall i | 0 <= i < |record| { buf[size + i] := record[i]; }
      return 0, buf[..];
    }

    /**
     * `put_value`. A put that takes effect appends one value, or, when the check of the token is misled, leaves only that;
     * a success takes effect, a failure only when the reply to the upload is lost.
     */
    method PutValue(path: string, value: Value, w: World) returns (rc: int)
      requires Valid() && 0 < |value| <= MAX_VALUE_LEN && IsWorld(w)
      modifies this`files, token
      ensures Valid() && rc <= 0 && old(token.trace) <= token.trace
      ensures rc == 0 <==> Puts(old(token.expiresAt), old(SizeOf(files, path)), |value|, w)
      ensures Contents() ==
              if PutTakes(old(token.expiresAt), old(SizeOf(files, path)), |value|, w)
              then old(Contents())[path := AfterPut(At(old(Contents()), path), value, Misleads(old(token.expiresAt), w.length.check))]
              else old(Contents())
      ensures TooLong(At(old(Contents()), path)) && !Misleads(old(token.expiresAt), w.length.check) ==> rc < 0 && files == old(files)
      ensures AskedAgain(old(token.trace), token.trace) <==> rc == AGAIN
    {
      hide IsLog, ValuesOf, ContentsOf, TooLong, Passes, Misleads, Expiry, Uploads, Replaces, AskedAgain, Pending, Gated;
      ghost var was := token.trace;
      ghost var e := token.expiresAt;
      PassesApart(e, w.length.check);
      TooLongBySize(files, path);
      var size := GetFileLength(path, w.length);
      FileBounds(path);
      ghost var asked := token.trace;
      if AsInt(size) == NOT_FOUND {
        size := 0;
      } else if size < 0 {
        return AsInt(size);
      }
      var data;
      rc, data := Gather(path, value, size, w);
      AskedLater(was, asked, token.trace);
      if rc < 0 { return; }
      assert size == SizeSeen(e, SizeOf(files, path), w);
      PutAppends(path, value, size, data);
      ContentsUpdated(files, path, data);
      asked := token.trace;
      assert ValuesOf(data) == AfterPut(At(ContentsOf(files), path), value, Misleads(e, w.length.check));
      rc := PutFileFromBuffer(path, data, w.upload);
      AskedLater(was, asked, token.trace);
    }

    lemma FileBounds(path: string)
      requires Valid()
      ensures path in files ==> |files[path]| < MAX_FILE && (|files[path]| <= HEADER ==> files[path] == [])
      ensures path in files && |files[path]| == 0 ==> ValuesOf(files[path]) == []
      ensures path in ContentsOf(files) <==> path in files
      ensures path in files ==> ContentsOf(files)[path] == ValuesOf(files[path])
    {
      if path in files {
        LogOfValues(files[path]);
        if |files[path]| <= HEADER {
          NoShortLog(files[path]);
        }
      }
    }

    /** The data to upload is the file, or nothing, and a record. */
    lemma PutAppends(path: string, value: Value, size: nat, data: seq<octet>)
      requires Valid() && 0 < |value| <= MAX_VALUE_LEN && size < INT_LIMIT
      requires size > 0 ==> path in files && |files[path]| == size
      requires data == (if size == 0 then [] else files[path]) + Record(value)
      ensures IsLog(data) && ValuesOf(data) == (if size == 0 then [] else ValuesOf(files[path])) + [value]
      ensures |data| == size + HEADER + |value|
    {
      hide Record;
      if size == 0 {
        SingleLog(value);
        assert data == Record(value);
      } else {
        LogExtended(files[path], value);
      }
    }

    /**
     * `get_values`, whatever is in the file: it fails without a delivery, or the callback gets what reading the file
     * yields. A misled call finds nothing. Fooled by memory running out twice, it reads a block of zeros instead.
     */
    method GetValues(path: string, go: Answers, w: World) returns (rc: int, delivered: seq<Value>)
      requires Usable() && IsWorld(w)
      modifies token
      ensures Usable() && rc <= 0 && old(token.trace) <= token.trace
      ensures Misleads(old(token.expiresAt), w.length.check) ==> rc == 0 && delivered == []
      ensures Gets(old(token.expiresAt), SizeOf(files, path), w) ==> Walked(delivered, rc == 0) == Reading(FileOf(files, path), go)
      ensures Fooled(old(token.expiresAt), w) ==>
                exists f :: |f| == NO_MEMORY_AS_SIZE && Zeros(f) && Walked(delivered, rc == 0) == Entries(f, 0, go)
      ensures (|| Misleads(old(token.expiresAt), w.length.check) || Gets(old(token.expiresAt), SizeOf(files, path), w)
               || Fooled(old(token.expiresAt), w)
               || (rc < 0 && delivered == []))
      ensures AskedAgain(old(token.trace), token.trace) <==> rc == AGAIN
    {
      hide Entries, Passes, Misleads, Expiry, AskedAgain, Pending, Gated;
      ghost var was := token.trace;
      ghost var e := token.expiresAt;
      PassesApart(e, w.length.check);
      delivered := [];
      var n := GetFileLength(path, w.length);
      if AsInt(n) == NOT_FOUND {
        n := 0;
      } else if n < 0 {
        return AsInt(n), delivered;
      }
      ghost var asked := token.trace;
      if 0 < n <= HEADER { return BAD_DATA, delivered; }
      if n == 0 { return 0, delivered; }
      if !w.memory { return NO_MEMORY, delivered; }
      var buf := new octet[n](_ => 0);
      var got := GetFileToBuffer(path, buf, n, w.fetch);
      AskedLater(was, asked, token.trace);
      if got < 0 { return AsInt(got), delivered; }
      if got != n { return Error(GENERAL, INVALID_PERSISTENCE_FILE), delivered; }
      assert !Fooled(e, w) ==> buf[..] == files[path];
      assert Fooled(e, w) ==> Zeros(buf[..]);
      var ok;
      ok, delivered := WalkEntries(buf, go);
      rc := if ok then 0 else BAD_DATA;
    }

    /** `__delete_file`; the service answers 404 for a file it does not have. */
    method DeleteFile(path: string, r: Removal) returns (rc: int)
      requires Valid() && IsRemoval(r)
      modifies this`files, token
      ensures Valid() && -INT_LIMIT <= rc <= 0 && old(token.trace) <= token.trace
      ensures rc == 0 <==> path in old(files) && Removes(old(token.expiresAt), r)
      ensures rc == NOT_FOUND <==> Misleads(old(token.expiresAt), r.check) || (path !in old(files) && Removes(old(token.expiresAt), r))
      ensures files == if RemovalTakes(old(token.expiresAt), r) then old(files) - {path} else old(files)
      ensures AskedAgain(old(token.trace), token.trace) <==> rc == AGAIN
    {
      hide Passes, Misleads, AskedAgain, Pending, Gated;
      ghost var was := token.trace;
      PassesApart(token.expiresAt, r.check);
      rc := CheckExpire(r.check);
      if rc < 0 { return; }
      ghost var checked := token.trace;
      if !r.client { return NO_MEMORY; }
      var reply := ReplyOf(r.service, if path in files then HTTP_NO_CONTENT else HTTP_NOT_FOUND);
      Bear(reply);
      AskedLater(was, checked, token.trace);
      if CarriedOut(r.service) { files := files - {path}; }
      if reply != Status(HTTP_NO_CONTENT) { return ReplyError(reply); }
      return 0;
    }

    /** `delete_key`: a missing file is as good as a deleted one. A misled call leaves the file and says it is gone. */
    method DeleteKey(path: string, w: World) returns (rc: int)
      requires Valid() && IsWorld(w)
      modifies this`files, token
      ensures Valid() && rc <= 0 && old(token.trace) <= token.trace
      ensures rc == 0 <==> Removes(old(token.expiresAt), w.removal) || Misleads(old(token.expiresAt), w.removal.check)
      ensures Contents() == if RemovalTakes(old(token.expiresAt), w.removal) then old(Contents()) - {path} else old(Contents())
      ensures AskedAgain(old(token.trace), token.trace) <==> rc == AGAIN
    {
      hide IsLog, ValuesOf, ContentsOf, Removes, Misleads;
      ContentsUpdated(files, path, []);
      rc := DeleteFile(path, w.removal);
      if rc < 0 && rc != NOT_FOUND { return; }
      rc := 0;
    }

    /** `expire_token` */
    method ExpireToken()
      requires Usable()
      modifies token
      ensures Usable() && token.trace == old(token.trace) + [Expired] && Pending(token.trace) && token.expiresAt == 0
    {
      GatedStep(token.trace, Expired);
      token.SetExpired();
    }

    // ----- what the caller sees -----

    /** `hive_put_value` */
    method HivePutValue(key: string, value: Value, w: World) returns (rc: int)
      requires Valid() && |key| <= MAX_KEY && IsWorld(w)
      modifies this`files, token
      ensures Valid() && old(token.trace) <= token.trace
      ensures rc == if PutsKey(key, value) && Puts(old(token.expiresAt), old(SizeOf(files, PathOf(key))), |value|, w) then 0 else -1
      ensures Contents() ==
              if PutsKey(key, value) && PutTakes(old(token.expiresAt), old(SizeOf(files, PathOf(key))), |value|, w)
              then old(Contents())[PathOf(key) :=
                     AfterPut(At(old(Contents()), PathOf(key)), value, Misleads(old(token.expiresAt), w.length.check))]
              else old(Contents())
    {
      if key == "" || value == [] || |value| > MAX_VALUE_LEN { return -1; }
      hide *;
      PutsKeyMeans(key, value);
      rc := PutValue(PathOf(key), value, w);
      if rc < 0 { rc := -1; }
    }

    /** `hive_set_value` */
    method HiveSetValue(key: string, value: Value, w: World) returns (rc: int)
      requires Valid() && |key| <= MAX_KEY && IsWorld(w)
      modifies this`files, token
      ensures Valid() && old(token.trace) <= token.trace
      ensures rc == if PutsKey(key, value) && Sets(old(token.expiresAt), |value|, w) then 0 else -1
      ensures Contents() ==
              if PutsKey(key, value) && SetTakes(old(token.expiresAt), |value|, w) then old(Contents())[PathOf(key) := [value]]
              else old(Contents())
    {
      if key == "" || value == [] || |value| > MAX_VALUE_LEN { return -1; }
      hide *;
      PutsKeyMeans(key, value);
      rc := SetValue(PathOf(key), value, w);
      if rc < 0 { rc := -1; }
    }

    /** `hive_get_values` */
    method HiveGetValues(key: string, go: Answers, w: World) returns (rc: int, delivered: seq<Value>)
      requires Valid() && |key| <= MAX_KEY && IsWorld(w)
      modifies token
      ensures Valid() && (rc == 0 || rc == -1) && old(token.trace) <= token.trace
      ensures key != "" && Misleads(old(token.expiresAt), w.length.check) ==> rc == 0 && delivered == []
      ensures key != "" && Gets(old(token.expiresAt), SizeOf(files, PathOf(key)), w) ==>
                rc == 0 && delivered == UpTo(At(Contents(), PathOf(key)), 0, go)
      ensures key != "" && Fooled(old(token.expiresAt), w) ==> FooledBy(Walked(delivered, rc == 0), go)
      ensures key == "" ==> rc == -1 && delivered == []
      ensures (|| Misleads(old(token.expiresAt), w.length.check) || Gets(old(token.expiresAt), SizeOf(files, PathOf(key)), w)
               || Fooled(old(token.expiresAt), w)
               || (rc == -1 && delivered == []))
    {
      if key == "" { return -1, []; }
      hide PathOf, IsLog, ValuesOf, Reading, UpTo, Misleads, Gets, Fooled, Zeros, Entries;
      ghost var path := PathOf(key);
      NothingRead(go);
      FileBounds(path);
      if path in files {
        LogDelivers(files[path], go);
      }
      rc, delivered := GetValues(PathOf(key), go, w);
      forall f | |f| == NO_MEMORY_AS_SIZE && Zeros(f) && Walked(delivered, rc == 0) == Entries(f, 0, go)
        ensures FooledBy(Walked(delivered, rc == 0), go)
      {
        FooledReader(f, go);
      }
      if rc < 0 { rc := -1; }
    }

    /** `hive_delete_key` */
    method HiveDeleteKey(key: string, w: World) returns (rc: int)
      requires Valid() && |key| <= MAX_KEY && IsWorld(w)
      modifies this`files, token
      ensures Valid() && old(token.trace) <= token.trace
      ensures rc == if key != "" && (Removes(old(token.expiresAt), w.removal) || Misleads(old(token.expiresAt), w.removal.check)) then 0 else -1
      ensures Contents() ==
              if key != "" && RemovalTakes(old(token.expiresAt), w.removal) then old(Contents()) - {PathOf(key)} else old(Contents())
    {
      if key == "" { return -1; }
      hide *;
      rc := DeleteKey(PathOf(key), w);
      if rc < 0 { rc := -1; }
    }
  }

  /** What `get_values` makes of the contents of a file. */
  ghost function Reading(f: seq<octet>, go: Answers): Walked {
    if f == [] then Walked([], true) else if |f| <= HEADER then Walked([], false) else Entries(f, 0, go)
  }

  /**
   * For any contents at all: a willing reader gets through exactly when they are the log of some values, each of a
   * length that may be stored and the last not empty, and then these are what it gets.
   */
  lemma ReadsExactlyLogs(f: seq<octet>, go: Answers)
    requires Willing(go)
    ensures Reading(f, go).ok <==> exists vs :: Wellformed(vs) && f == Log(vs)
    ensures forall vs | Wellformed(vs) && f == Log(vs) :: Reading(f, go) == Walked(vs, true)
  {
    hide Entries, Log;
    EmptyLogOnly();
    forall vs | Wellformed(vs) && f == Log(vs) ensures vs == [] || |f| > HEADER {
      if vs != [] { LogLength(vs); }
    }
    if |f| > HEADER {
      AcceptsExactlyLogs(f, go);
    }
  }

  lemma EmptyLogOnly()
    ensures Wellformed([]) && Log([]) == []
  {
  }

  lemma NothingRead(go: Answers)
    ensures Reading([], go) == Walked([], true) && UpTo([], 0, go) == []
  {
  }

  /** Of a stored log a reader gets the values up to its first refusal. */
  lemma LogDelivers(f: seq<octet>, go: Answers)
    requires IsLog(f)
    ensures Reading(f, go) == Walked(UpTo(ValuesOf(f), 0, go), true)
  {
    hide Entries, ValuesOf;
    var vs :| Wellformed(vs) && f == Log(vs);
    ValuesOfLog(vs);
    if vs != [] {
      hide UpTo;
      EntriesOfLog(vs, 0, go);
    }
  }

  /** What a fooled reader gets are empty values, and an error in the end unless it stops at one of them. */
  ghost predicate FooledBy(w: Walked, go: Answers) {
    && w.values != [] && (forall v | v in w.values :: v == [])
    && (w.ok <==> exists j :: 0 <= j < 541065215 && !go(j))
  }

  lemma FooledReader(f: seq<octet>, go: Answers)
    requires |f| == NO_MEMORY_AS_SIZE && Zeros(f)
    ensures FooledBy(Entries(f, 0, go), go)
  {
    hide Entries;
    ZerosAreEmptyValues(f, 541065216, 0, go);
  }

  lemma NoShortLog(f: seq<octet>)
    requires IsLog(f) && |f| <= HEADER
    ensures f == []
  {
    var vs :| Wellformed(vs) && f == Log(vs);
    if vs != [] {
      LogLength(vs);
    }
  }

  /** What may be stored under a key. */
  predicate PutsKey(key: string, value: Value) {
    key != "" && 0 < |value| <= MAX_VALUE_LEN
  }

  lemma PutsKeyMeans(key: string, value: Value)
    ensures PutsKey(key, value) <==> key != "" && 0 < |value| <= MAX_VALUE_LEN
  {
  }

  lemma PassesApart(expiresAt: int, c: Check)
    ensures Misleads(expiresAt, c) ==> !Passes(expiresAt, c)
    ensures Misleads(expiresAt, c) ==> Expiry(expiresAt, c) == expiresAt
  {
  }
}
