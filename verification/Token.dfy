/** OAuth tokens (`oauth_token.c`; sections 4.1 and 6 of RFC 6749) and the file they are kept in. */
module Token {
  import opened Prelude
  import opened HiveError
  import opened Http

  // ----- JSON objects, as cJSON presents them -----

  datatype Item = Text(s: string) | Number(n: int) | OtherItem

  datatype Field = Field(name: string, item: Item)

  type Object = seq<Field>

  function Lower(s: string): string {
    seq(|s|, i requires 0 <= i < |s| => ToLower(s[i]))
  }

  /** `cJSON_GetObjectItemCaseSensitive`: the first field of that name. */
  function GetExact(o: Object, name: string): Option<Item> {
    if o == [] then None else if o[0].name == name then Some(o[0].item) else GetExact(o[1..], name)
  }

  /** `cJSON_GetObjectItem`: the first field of that name, whatever its case. */
  function GetAnyCase(o: Object, name: string): Option<Item> {
    if o == [] then None else if Lower(o[0].name) == Lower(name) then Some(o[0].item) else GetAnyCase(o[1..], name)
  }

  predicate IsText(i: Option<Item>) {
    i.Some? && i.value.Text?
  }

  predicate IsNumber(i: Option<Item>) {
    i.Some? && i.value.Number?
  }

  /** `IS_STRING_NODE` */
  predicate IsStringNode(i: Option<Item>) {
    IsText(i) && i.value.s != ""
  }

  // ----- tokens -----

  datatype Tokens = Tokens(tokenType: string, access: string, refresh: string)

  /** What a token endpoint grants: tokens and their life in seconds. */
  datatype Grant = Grant(tokens: Tokens, expiresIn: nat)

  /** The grant in a reply, if it has all that `decode_access_token` looks for. */
  function Decoded(o: Object): Option<Grant> {
    var tokenType, scope := GetExact(o, "token_type"), GetExact(o, "scope");
    var access, refresh, expires := GetExact(o, "access_token"), GetExact(o, "refresh_token"), GetExact(o, "expires_in");
    if IsStringNode(tokenType) && IsStringNode(scope) && IsStringNode(access) && IsStringNode(refresh)
       && IsNumber(expires) && expires.value.n >= 0
    then Some(Grant(Tokens(tokenType.value.s, access.value.s, refresh.value.s), expires.value.n))
    else None
  }

  /** The reply of a token endpoint (section 5.1 of RFC 6749). */
  function TokenReply(tokenType: string, scope: string, access: string, refresh: string, expiresIn: int): Object {
    [Field("token_type", Text(tokenType)), Field("scope", Text(scope)), Field("access_token", Text(access)),
     Field("refresh_token", Text(refresh)), Field("expires_in", Number(expiresIn))]
  }

  lemma {:induction false} FindsExact(o: Object, k: nat, name: string)
    requires k < |o| && o[k].name == name && forall i :: 0 <= i < k ==> o[i].name != name
    ensures GetExact(o, name) == Some(o[k].item)
    decreases k
  {
    if k > 0 {
      FindsExact(o[1..], k - 1, name);
    }
  }

  /** Such a reply grants exactly what it says, unless a string in it is empty or the life is negative. */
  lemma ReplyDecodes(tokenType: string, scope: string, access: string, refresh: string, expiresIn: int)
    ensures Decoded(TokenReply(tokenType, scope, access, refresh, expiresIn)) ==
            if tokenType != "" && scope != "" && access != "" && refresh != "" && expiresIn >= 0
            then Some(Grant(Tokens(tokenType, access, refresh), expiresIn)) else None
  {
    var o := TokenReply(tokenType, scope, access, refresh, expiresIn);
    assert "token_type"[0] == 't' && "scope"[0] == 's' && "access_token"[0] == 'a' && "refresh_token"[0] == 'r' && "expires_in"[0] == 'e';
    FindsExact(o, 0, "token_type");
    FindsExact(o, 1, "scope");
    FindsExact(o, 2, "access_token");
    FindsExact(o, 3, "refresh_token");
    FindsExact(o, 4, "expires_in");
  }

  lemma {:induction false} FindsNothing(o: Object, name: string)
    requires forall i :: 0 <= i < |o| ==> o[i].name != name
    ensures GetExact(o, name) == None
  {
    if o != [] {
      FindsNothing(o[1..], name);
    }
  }

  /** A reply without one of the five fields, spelled just so, grants nothing. */
  lemma ReplyNeedsAll(o: Object, name: string)
    requires name in ["token_type", "scope", "access_token", "refresh_token", "expires_in"]
    requires forall i :: 0 <= i < |o| ==> o[i].name != name
    ensures Decoded(o) == None
  {
    FindsNothing(o, name);
  }

  /** What happens to a token that matters to its bearer. */
  datatype Mark = Expired | Refreshed | Bearer

  /** Marked expired, and not refreshed since. */
  ghost predicate Pending(trace: seq<Mark>) {
    trace != [] && (trace[|trace| - 1] == Expired || (trace[|trace| - 1] == Bearer && Pending(trace[..|trace| - 1])))
  }

  ghost predicate Gated(trace: seq<Mark>) {
    forall i :: 0 <= i < |trace| && trace[i] == Bearer ==> !Pending(trace[..i])
  }

  lemma {:induction false} PendingSince(trace: seq<Mark>, i: nat)
    requires i < |trace| && trace[i] == Expired && forall k :: i < k < |trace| ==> trace[k] != Refreshed
    ensures Pending(trace)
    decreases |trace|
  {
    if i < |trace| - 1 && trace[|trace| - 1] == Bearer {
      PendingSince(trace[..|trace| - 1], i);
    }
  }

  /** Between a mark and the next use of the token there is a refresh. */
  lemma GatedMeans(trace: seq<Mark>, i: nat, j: nat)
    requires Gated(trace) && i < j < |trace| && trace[i] == Expired && trace[j] == Bearer
    ensures exists k :: i < k < j && trace[k] == Refreshed
  {
    if forall k :: i < k < j ==> trace[k] != Refreshed {
      PendingSince(trace[..j], i);
    }
  }

  lemma GatedStep(trace: seq<Mark>, m: Mark)
    requires Gated(trace) && (m == Bearer ==> !Pending(trace))
    ensures Gated(trace + [m])
    ensures Pending(trace + [m]) <==> m == Expired || (m == Bearer && Pending(trace))
  {
    var next := trace + [m];
    assert next[..|trace|] == trace;
    forall i | 0 <= i < |next| && next[i] == Bearer ensures !Pending(next[..i]) {
      if i < |trace| {
        assert next[..i] == trace[..i];
      }
    }
  }

  const SECOND := 1_000_000  // of a `timeval`, in microseconds

  // ----- what a check of the token meets -----

  /**
   * What becomes of a refresh: no memory for the request, a request that is too long, or the reply to it, with whether
   * there is memory for the body, the parsed body, how many of the three strings can be duplicated, and whether there is
   * memory for the object to write back.
   */
  datatype Refreshing =
    | NoClient
    | BodyTooLong
    | Answered(reply: Reply, body: bool, json: Option<Object>, dups: nat, errno: nat, room: bool)

  /** The clock, and what a refresh would meet. */
  datatype Check = Check(now: int, refresh: Refreshing)

  /** The clock is past the epoch. */
  predicate IsCheck(c: Check) {
    c.now > 0 && (c.refresh.Answered? ==> IsReply(c.refresh.reply) && 0 < c.refresh.errno < 0x1000)
  }

  /** What the refresh grants, if anything. */
  function Granted(r: Refreshing): Option<Grant> {
    if r.Answered? && r.reply == Status(HTTP_OK) && r.body && r.json.Some? && r.dups >= 3 then Decoded(r.json.value) else None
  }

  /** What a refresh grants when it is answered as it should be: the tokens of the reply, if there is memory for all that. */
  lemma GrantedMeans(tokenType: string, scope: string, access: string, refresh: string, expiresIn: nat,
                     reply: Reply, body: bool, dups: nat, errno: nat, room: bool)
    requires tokenType != "" && scope != "" && access != "" && refresh != ""
    ensures var o := TokenReply(tokenType, scope, access, refresh, expiresIn);
      Granted(Answered(reply, body, Some(o), dups, errno, room)) ==
      if reply == Status(200) && body && dups >= 3 then Some(Grant(Tokens(tokenType, access, refresh), expiresIn)) else None
  {
    hide Decoded;
    ReplyDecodes(tokenType, scope, access, refresh, expiresIn);
  }

  predicate RefusedAsMissing(r: Refreshing) {
    r.Answered? && r.reply == Status(HTTP_NOT_FOUND)
  }

  /** A token that expires then gets past the check. */
  predicate Passes(expiresAt: int, c: Check) {
    c.now <= expiresAt || Granted(c.refresh).Some?
  }

  /** When the token expires after the check. */
  function Expiry(expiresAt: int, c: Check): int {
    if c.now > expiresAt && Granted(c.refresh).Some? then c.now + Granted(c.refresh).value.expiresIn * SECOND else expiresAt
  }

  /** The check fails with the very number that stands for a missing file: the token has expired and its refresh meets a 404. */
  predicate Misleads(expiresAt: int, c: Check) {
    c.now > expiresAt && RefusedAsMissing(c.refresh)
  }

  /** The marks the check leaves. */
  function CheckMarks(expiresAt: int, c: Check): seq<Mark> {
    if c.now > expiresAt && Granted(c.refresh).Some? then [Refreshed] else []
  }

  /** The tokens are written back: they have been refreshed, and there is memory for the object. */
  predicate WritesBack(expiresAt: int, c: Check) {
    c.now > expiresAt && Granted(c.refresh).Some? && c.refresh.room
  }

  class Token {
    const clientId: string
    var tokenType: Option<string>
    var accessToken: Option<string>
    var refreshToken: Option<string>
    var expiresAt: int
    var written: Option<Object>  // what the writeback callback was last given
    ghost var trace: seq<Mark>

    /** The three strings are all there or none is; a token marked expired has expired at the epoch. */
    ghost predicate Valid()
      reads this
    {
      && (tokenType.Some? <==> accessToken.Some?) && (tokenType.Some? <==> refreshToken.Some?)
      && (Pending(trace) ==> expiresAt == 0)
    }

    ghost function Held(): Option<Tokens>
      requires Valid()
      reads this
    {
      if tokenType.Some? then Some(Tokens(tokenType.value, accessToken.value, refreshToken.value)) else None
    }

    /** `oauth_token_new`: restores the tokens, and goes on without them when it cannot. */
    constructor (clientId: string, store: Option<Object>, memory: bool, errno: nat)
      requires 0 < errno < 0x1000
      ensures Valid() && this.clientId == clientId && trace == [] && written == None
      ensures if memory && Restored(clientId, store).Some?
              then Held().Some? && Some(Saved(Held().value, expiresAt)) == Restored(clientId, store)
              else Held() == None
      ensures forall other, held, t :: store == Some(Written(other, held, t)) && other != clientId ==> Held() == None
    {
      this.clientId, written := clientId, None;
      tokenType, accessToken, refreshToken, expiresAt, trace := None, None, None, 0, [];
      new;
      var rc := Restore(store, memory, errno);
    }

    /** `restore_access_token` on a token that holds nothing. */
    method Restore(json: Option<Object>, memory: bool, errno: nat) returns (rc: int)
      requires Valid() && Held() == None && trace == [] && 0 < errno < 0x1000
      modifies this`tokenType, this`accessToken, this`refreshToken, this`expiresAt
      ensures Valid()
      ensures if memory && Restored(clientId, json).Some?
              then Held().Some? && Restored(clientId, json) == Some(Saved(Held().value, expiresAt))
              else Held() == None
      ensures rc == if json.Some? && !OwnedBy(json.value, clientId) then Error(GENERAL, BAD_PERSISTENT_DATA)
                    else if Restored(clientId, json).Some? && !memory then Error(SYS, errno)
                    else 0
      ensures forall other, held, t :: json == Some(Written(other, held, t)) && other != clientId ==>
                rc == Error(GENERAL, BAD_PERSISTENT_DATA) && Held() == None
    {
      forall other, held, t | json == Some(Written(other, held, t)) && other != clientId ensures !OwnedBy(json.value, clientId) {
        ForeignStoreRefused(clientId, other, held, t);
      }
      if json.None? { return 0; }
      var o := json.value;
      if !OwnedBy(o, clientId) { return Error(GENERAL, BAD_PERSISTENT_DATA); }
      var t, a, r, e := GetAnyCase(o, "token_type"), GetAnyCase(o, "access_token"), GetAnyCase(o, "refresh_token"), GetAnyCase(o, "expires_at");
      if !IsText(t) || !IsText(a) || !IsText(r) || !IsNumber(e) { return 0; }
      expiresAt := e.value.n * SECOND;
      if !memory { return Error(SYS, errno); }
      tokenType, accessToken, refreshToken := Some(t.value.s), Some(a.value.s), Some(r.value.s);
      return 0;
    }

    /**
     * `decode_access_token` on a parsed reply, None when it does not parse; `dups` calls of `strdup` succeed. It takes
     * a complete grant or fails and changes nothing.
     */
    method Decode(reply: Option<Object>, now: int, dups: nat, errno: nat) returns (rc: int)
      requires Valid() && now > 0 && 0 < errno < 0x1000
      modifies this`tokenType, this`accessToken, this`refreshToken, this`expiresAt, this`trace
      ensures Valid()
      ensures rc == 0 <==> reply.Some? && Decoded(reply.value).Some? && dups >= 3
      ensures rc == 0 || rc == BAD_JSON || (rc == Error(SYS, errno) && dups < 3)
      ensures rc < 0 ==> Held() == old(Held()) && expiresAt == old(expiresAt) && trace == old(trace)
      ensures rc == 0 ==>
                && trace == old(trace) + [Refreshed] && Held() == Some(Decoded(reply.value).value.tokens)
                && expiresAt == now + Decoded(reply.value).value.expiresIn * SECOND
    {
      if reply.None? { return BAD_JSON; }
      var o := reply.value;
      var item := GetExact(o, "token_type");
      if !IsStringNode(item) { return BAD_JSON; }
      var newType := item.value.s;
      if dups == 0 { return Error(SYS, errno); }
      item := GetExact(o, "scope");
      if !IsStringNode(item) { return BAD_JSON; }
      item := GetExact(o, "access_token");
      if !IsStringNode(item) { return BAD_JSON; }
      var newAccess := item.value.s;
      if dups == 1 { return Error(SYS, errno); }
      item := GetExact(o, "refresh_token");
      if !IsStringNode(item) { return BAD_JSON; }
      var newRefresh := item.value.s;
      if dups == 2 { return Error(SYS, errno); }
      item := GetExact(o, "expires_in");
      if !IsNumber(item) || item.value.n < 0 { return BAD_JSON; }
      tokenType, accessToken, refreshToken := Some(newType), Some(newAccess), Some(newRefresh);
      expiresAt := now + item.value.n * SECOND;
      trace := trace + [Refreshed];
      return 0;
    }

    /** `writeback_tokens`: the callback gets the current tokens if there is memory for the object. */
    method WriteBack(memory: bool)
      requires Valid()
      modifies this`written
      ensures Valid() && written == if memory then Some(Written(clientId, Held(), expiresAt)) else old(written)
    {
      if memory {
        var held := if tokenType.None? then None else Some(Tokens(tokenType.value, accessToken.value, refreshToken.value));
        written := Some(Written(clientId, held, expiresAt));
      }
    }

    /** `oauth_token_reset` */
    method Reset(memory: bool)
      requires Valid() && tokenType.Some?
      modifies this`tokenType, this`accessToken, this`refreshToken, this`written
      ensures Valid() && Held() == None && written == if memory then Some(Written(clientId, None, expiresAt)) else old(written)
    {
      tokenType, accessToken, refreshToken := None, None, None;
      WriteBack(memory);
    }

    /** `oauth_token_set_expired` */
    method SetExpired()
      requires Valid()
      modifies this`expiresAt, this`trace
      ensures Valid() && trace == old(trace) + [Expired] && Pending(trace)
    {
      expiresAt, trace := 0, trace + [Expired];
    }

    /** `refresh_access_token`: the new tokens of the reply, written back, or an error and everything as it was. */
    method Refresh(c: Check) returns (rc: int)
      requires Valid() && refreshToken.Some? && IsCheck(c)
      modifies this`tokenType, this`accessToken, this`refreshToken, this`expiresAt, this`written, this`trace
      ensures Valid() && -INT_LIMIT <= rc <= 0 && refreshToken.Some?
      ensures rc == 0 <==> Granted(c.refresh).Some?
      ensures rc == NOT_FOUND <==> RefusedAsMissing(c.refresh)
      ensures rc != AGAIN
      ensures rc < 0 ==> Held() == old(Held()) && expiresAt == old(expiresAt) && trace == old(trace) && written == old(written)
      ensures rc == 0 ==> written == if c.refresh.room then Some(Written(clientId, Held(), expiresAt)) else old(written)
      ensures rc == 0 ==>
                && Held() == Some(Granted(c.refresh).value.tokens) && trace == old(trace) + [Refreshed]
                && expiresAt == c.now + Granted(c.refresh).value.expiresIn * SECOND
    {
      hide Decoded;
      match c.refresh {
        case NoClient => return NO_MEMORY;
        case BodyTooLong => return Error(GENERAL, BUFFER_TOO_SMALL);
        case Answered(reply, body, json, dups, errno, room) =>
          if reply != Status(HTTP_OK) { return PlainError(reply); }
          if !body { return NO_MEMORY; }
          rc := Decode(json, c.now, dups, errno);
          if rc < 0 { return; }
          WriteBack(room);
      }
    }

    /**
     * `oauth_token_check_expire`: a token that has not expired passes without a refresh, an expired one exactly when its
     * refresh is granted; whoever gets past may use the token.
     */
    method CheckExpire(c: Check) returns (rc: int)
      requires Valid() && refreshToken.Some? && IsCheck(c)
      modifies this`tokenType, this`accessToken, this`refreshToken, this`expiresAt, this`written, this`trace
      ensures Valid() && -INT_LIMIT <= rc <= 0 && refreshToken.Some?
      ensures rc == 0 <==> Passes(old(expiresAt), c)
      ensures rc == NOT_FOUND <==> Misleads(old(expiresAt), c)
      ensures rc != AGAIN
      ensures rc == 0 ==> !Pending(trace)
      ensures expiresAt == Expiry(old(expiresAt), c) && trace == old(trace) + CheckMarks(old(expiresAt), c)
      ensures written == if WritesBack(old(expiresAt), c) then Some(Written(clientId, Held(), expiresAt)) else old(written)
      ensures !(c.now > old(expiresAt) && Granted(c.refresh).Some?) ==> Held() == old(Held())
      ensures c.now > old(expiresAt) && Granted(c.refresh).Some? ==> Held() == Some(Granted(c.refresh).value.tokens)
    {
      hide Granted, Held, Written;
      if !(c.now > expiresAt) {
        assert !Pending(trace) && trace + [] == trace;
        return 0;
      }
      rc := Refresh(c);
      if rc < 0 {
        assert trace + [] == trace;
        return;
      }
      assert trace[|trace| - 1] == Refreshed;
    }

    /** `get_bearer_token`, for a request that carries it. */
    method UseBearer() returns (token: string)
      requires Valid() && accessToken.Some?
      modifies this`trace
      ensures Valid() && trace == old(trace) + [Bearer] && Some(token) == accessToken
    {
      trace := trace + [Bearer];
      assert trace[..|trace| - 1] == old(trace);
      token := accessToken.value;
    }
  }

  // ----- keeping them -----

  /** The tokens and the expiry time that come back. */
  datatype Saved = Saved(tokens: Tokens, expiresAt: int)

  predicate OwnedBy(o: Object, clientId: string) {
    GetAnyCase(o, "client_id") == Some(Text(clientId))
  }

  function Restored(clientId: string, json: Option<Object>): Option<Saved> {
    if json.None? || !OwnedBy(json.value, clientId) then None
    else
      var o := json.value;
      var t, a, r, e := GetAnyCase(o, "token_type"), GetAnyCase(o, "access_token"), GetAnyCase(o, "refresh_token"), GetAnyCase(o, "expires_at");
      if IsText(t) && IsText(a) && IsText(r) && IsNumber(e)
      then Some(Saved(Tokens(t.value.s, a.value.s, r.value.s), e.value.n * SECOND))
      else None
  }

  /** The object `writeback_tokens` builds; of the expiry time it keeps the seconds. */
  function Written(clientId: string, held: Option<Tokens>, expiresAt: int): Object {
    [Field("client_id", Text(clientId))] +
    if held.None? then []
    else
      [Field("token_type", Text(held.value.tokenType)), Field("access_token", Text(held.value.access)),
       Field("refresh_token", Text(held.value.refresh)), Field("expires_at", Number(expiresAt / SECOND))]
  }

  lemma NamesDiffer()
    ensures Lower("client_id") != Lower("token_type") && Lower("client_id") != Lower("access_token")
    ensures Lower("client_id") != Lower("refresh_token") && Lower("client_id") != Lower("expires_at")
    ensures Lower("token_type") != Lower("access_token") && Lower("token_type") != Lower("refresh_token")
    ensures Lower("token_type") != Lower("expires_at") && Lower("access_token") != Lower("refresh_token")
    ensures Lower("access_token") != Lower("expires_at") && Lower("refresh_token") != Lower("expires_at")
  {
    assert Lower("client_id")[0] == 'c' && Lower("token_type")[0] == 't' && Lower("access_token")[0] == 'a';
    assert Lower("refresh_token")[0] == 'r' && Lower("expires_at")[0] == 'e';
  }

  lemma {:induction false} Finds(o: Object, k: nat, name: string)
    requires k < |o| && Lower(o[k].name) == Lower(name) && forall i :: 0 <= i < k ==> Lower(o[i].name) != Lower(name)
    ensures GetAnyCase(o, name) == Some(o[k].item)
    decreases k
  {
    if k > 0 {
      Finds(o[1..], k - 1, name);
    }
  }

  /** Restoring what was written gives the same tokens and the second of their expiry, or nothing when there was nothing. */
  lemma RestoredFromWritten(clientId: string, held: Option<Tokens>, expiresAt: int)
    ensures Restored(clientId, Some(Written(clientId, held, expiresAt))) ==
            if held.None? then None else Some(Saved(held.value, expiresAt / SECOND * SECOND))
  {
    hide Lower;
    NamesDiffer();
    var o := Written(clientId, held, expiresAt);
    Finds(o, 0, "client_id");
    if held.Some? {
      Finds(o, 1, "token_type");
      Finds(o, 2, "access_token");
      Finds(o, 3, "refresh_token");
      Finds(o, 4, "expires_at");
    } else {
      assert o[1..] == [] && GetAnyCase(o, "token_type") == None;
    }
  }

  /** The store of another client is of no use, whatever it holds. */
  lemma ForeignStoreRefused(clientId: string, other: string, held: Option<Tokens>, expiresAt: int)
    requires other != clientId
    ensures !OwnedBy(Written(other, held, expiresAt), clientId) && Restored(clientId, Some(Written(other, held, expiresAt))) == None
  {
    hide Lower;
    Finds(Written(other, held, expiresAt), 0, "client_id");
  }

  const KEYSTORE_MAX := 4096

  /** A JSON printer and parser. */
  datatype Codec = Codec(toText: Object -> string, ofText: string -> Option<Object>)

  /** The codec brings `o` back; its text is a C string and not empty. */
  ghost predicate Keeps(codec: Codec, o: Object) {
    codec.ofText(codec.toText(o)) == Some(o) && codec.toText(o) != "" && NUL !in codec.toText(o)
  }

  /** `oauth_writeback`: leaves the text with its NUL if the file opens and `took` bytes are all of it, else as much as was written. */
  method Writeback(codec: Codec, json: Object, before: Option<string>, opens: bool, took: nat, errno: nat)
    returns (rc: int, file: Option<string>)
    requires 0 < errno < 0x1000
    ensures var text := codec.toText(json) + [NUL];
      && rc == (if |text| == 1 then NO_MEMORY else if opens && took >= |text| then 0 else Error(SYS, errno))
      && file == if |text| == 1 || !opens then before else Some(if took < |text| then text[..took] else text)
  {
    var text := codec.toText(json);
    if text == "" { return NO_MEMORY, before; }
    if !opens { return Error(SYS, errno), before; }
    var n := if took < |text| + 1 then took else |text| + 1;
    file := Some((text + [NUL])[..n]);
    if n != |text| + 1 { return Error(SYS, errno), file; }
    assert (text + [NUL])[..n] == text + [NUL];
    return 0, file;
  }

  /** `load_keystore_in_json` on a file with a NUL in it: reads at most 4096 bytes, and nothing from a longer file. */
  function LoadKeystore(codec: Codec, file: string): Option<Object>
    requires NUL in file
  {
    if |file| > KEYSTORE_MAX then None
    else
      var mem := file + [NUL];
      codec.ofText(mem[..Until(mem, 0, {})])
  }

  /** What was last written back is restored at the next start, with the second of its expiry, exactly when text and NUL fit 4096 bytes. */
  lemma KeystoreRoundTrip(codec: Codec, clientId: string, held: Tokens, expiresAt: int)
    requires Keeps(codec, Written(clientId, Some(held), expiresAt))
    ensures var file := codec.toText(Written(clientId, Some(held), expiresAt)) + [NUL];
      Restored(clientId, LoadKeystore(codec, file)) ==
      if |file| <= KEYSTORE_MAX then Some(Saved(held, expiresAt / SECOND * SECOND)) else None
  {
    hide Restored;
    var text := codec.toText(Written(clientId, Some(held), expiresAt));
    var mem := text + [NUL] + [NUL];
    assert forall i :: 0 <= i < |text| ==> mem[i] == text[i] && text[i] in text;
    assert mem[|text|] == NUL;
    assert Until(mem, 0, {}) == |text|;
    assert mem[..|text|] == text;
    RestoredFromWritten(clientId, Some(held), expiresAt);
    NothingRestored(clientId);
  }

  lemma NothingRestored(clientId: string)
    ensures Restored(clientId, None) == None
  {
  }
}
