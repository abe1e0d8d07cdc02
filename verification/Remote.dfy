/** What the operations on a remote file meet: token checks, memory and the service, and what they come to (`onedrive.c`). */
module Remote {
  import opened Prelude
  import opened HiveError
  import opened Http
  import opened Records
  import opened Token

  const ONE_REQUEST_MAX := 4 * 1024 * 1024

  /** What comes of a request: no reply, though it may have been carried out; a refusal; or an honest answer. */
  datatype Service = Silent(curl: nat, carriedOut: bool) | Refusal(code: nat) | Served

  /** No refusal looks like an answer. */
  predicate IsService(s: Service, answers: set<nat>) {
    match s
    case Silent(curl, _) => 0 < curl < 1000
    case Refusal(code) => code < 1000 && code !in answers
    case Served => true
  }

  /** The reply, `code` being the honest answer. */
  function ReplyOf(s: Service, code: nat): Reply {
    match s
    case Silent(curl, _) => Failed(curl)
    case Refusal(refused) => Status(refused)
    case Served => Status(code)
  }

  predicate CarriedOut(s: Service) {
    s.Served? || (s.Silent? && s.carriedOut)
  }

  // ----- looking a file up -----

  /** The check of the token, memory for a client, the service and its report. */
  datatype Lookup = Lookup(check: Check, client: bool, service: Service, body: Body)

  predicate IsLookup(l: Lookup) {
    IsCheck(l.check) && IsService(l.service, {HTTP_OK, HTTP_NOT_FOUND})
  }

  /** The token passes, and there is no memory for a client. */
  predicate Clientless(expiresAt: int, l: Lookup) {
    Passes(expiresAt, l.check) && !l.client
  }

  /** The service answers, and what it says about a file it has is understood. */
  predicate Reports(expiresAt: int, l: Lookup, present: bool) {
    Passes(expiresAt, l.check) && l.client && l.service.Served? && (present ==> l.body.Complete?)
  }

  /** A lookup, and the download. */
  datatype Fetch = Fetch(lookup: Lookup, download: Service)

  predicate IsFetch(f: Fetch) {
    IsLookup(f.lookup) && IsService(f.download, {HTTP_OK})
  }

  /** A file of that size arrives. */
  predicate Fetches(expiresAt: int, size: nat, f: Fetch) {
    Reports(expiresAt, f.lookup, true) && (size > 0 ==> f.download.Served?)
  }

  // ----- uploading -----

  /** The check, memory for a client, and the request, or for a large file the folder, the session and the rest. */
  datatype Upload = Upload(check: Check, client: bool, content: Service,
                           folderBody: bool, folder: Service, session: Service, sessionBody: Body, fits: bool, rest: Service)

  predicate IsUpload(u: Upload) {
    && IsCheck(u.check) && IsService(u.content, {HTTP_OK, HTTP_CREATED})
    && IsService(u.folder, {HTTP_OK, HTTP_CREATED}) && IsService(u.session, {HTTP_OK}) && IsService(u.rest, {HTTP_OK, HTTP_CREATED})
  }

  predicate SessionOpens(u: Upload) {
    u.folderBody && u.folder.Served? && u.session.Served? && u.sessionBody.Complete? && u.fits
  }

  /** The upload of so many bytes gets as far as the request that carries them. */
  predicate Sends(expiresAt: int, size: nat, u: Upload) {
    Passes(expiresAt, u.check) && u.client && (size > ONE_REQUEST_MAX ==> SessionOpens(u))
  }

  function Carrier(size: nat, u: Upload): Service {
    if size > ONE_REQUEST_MAX then u.rest else u.content
  }

  predicate Uploads(expiresAt: int, size: nat, u: Upload) {
    Sends(expiresAt, size, u) && Carrier(size, u).Served?
  }

  /** The file is replaced, whether or not the caller gets to know. */
  predicate Replaces(expiresAt: int, size: nat, u: Upload) {
    Sends(expiresAt, size, u) && CarriedOut(Carrier(size, u))
  }

  // ----- operations on a key -----

  datatype Removal = Removal(check: Check, client: bool, service: Service)

  predicate IsRemoval(r: Removal) {
    IsCheck(r.check) && IsService(r.service, {HTTP_NO_CONTENT, HTTP_NOT_FOUND})
  }

  /** All that an operation on a key may meet; each looks at its own parts of it. */
  datatype World = World(length: Lookup, memory: bool, fetch: Fetch, upload: Upload, removal: Removal)

  predicate IsWorld(w: World) {
    IsLookup(w.length) && IsFetch(w.fetch) && IsUpload(w.upload) && IsRemoval(w.removal)
  }

  /** The size `put_value` adds to. */
  function SizeSeen(expiresAt: int, size: Option<nat>, w: World): nat {
    if Misleads(expiresAt, w.length.check) || size.None? then 0 else size.value
  }

  /** `put_value` gets its data together. */
  predicate Gathers(expiresAt: int, size: Option<nat>, w: World) {
    && (Misleads(expiresAt, w.length.check) || Reports(expiresAt, w.length, size.Some?)) && w.memory
    && var seen := SizeSeen(expiresAt, size, w);
       seen > 0 ==> seen < INT_LIMIT && Fetches(Expiry(expiresAt, w.length.check), seen, w.fetch)
  }

  /** When the token expires after that. */
  function GatheredExpiry(expiresAt: int, size: Option<nat>, w: World): int {
    var e := Expiry(expiresAt, w.length.check);
    if SizeSeen(expiresAt, size, w) > 0 then Expiry(e, w.fetch.lookup.check) else e
  }

  function PutSize(expiresAt: int, size: Option<nat>, n: nat, w: World): nat {
    SizeSeen(expiresAt, size, w) + HEADER + n
  }

  /** A put of `n` bytes to a file of that size, None when there is none, succeeds. */
  predicate Puts(expiresAt: int, size: Option<nat>, n: nat, w: World) {
    Gathers(expiresAt, size, w) && Uploads(GatheredExpiry(expiresAt, size, w), PutSize(expiresAt, size, n, w), w.upload)
  }

  /** It takes effect. */
  predicate PutTakes(expiresAt: int, size: Option<nat>, n: nat, w: World) {
    Gathers(expiresAt, size, w) && Replaces(GatheredExpiry(expiresAt, size, w), PutSize(expiresAt, size, n, w), w.upload)
  }

  predicate Sets(expiresAt: int, n: nat, w: World) {
    w.memory && Uploads(expiresAt, HEADER + n, w.upload)
  }

  predicate SetTakes(expiresAt: int, n: nat, w: World) {
    w.memory && Replaces(expiresAt, HEADER + n, w.upload)
  }

  /** `get_values` gets the file to read; of a file no longer than a header it reads the size only. */
  predicate Gets(expiresAt: int, size: Option<nat>, w: World) {
    && Reports(expiresAt, w.length, size.Some?)
    && (size.Some? && size.value > HEADER ==> w.memory && Fetches(Expiry(expiresAt, w.length.check), size.value, w.fetch))
  }

  /** Twice there is no memory for a client, and yet for two gigabytes. */
  predicate Fooled(expiresAt: int, w: World) {
    Clientless(expiresAt, w.length) && w.memory && Clientless(Expiry(expiresAt, w.length.check), w.fetch.lookup)
  }

  predicate Removes(expiresAt: int, r: Removal) {
    Passes(expiresAt, r.check) && r.client && r.service.Served?
  }

  predicate RemovalTakes(expiresAt: int, r: Removal) {
    Passes(expiresAt, r.check) && r.client && CarriedOut(r.service)
  }

  // ----- a world without a fault -----

  predicate Grants(c: Check) {
    Granted(c.refresh).Some?
  }

  predicate Sound(l: Lookup) {
    Grants(l.check) && l.client && l.service.Served? && l.body.Complete?
  }

  /** Memory suffices, every request is served, and so is a refresh should one be due. */
  predicate Faultless(w: World) {
    && Sound(w.length) && w.memory && Sound(w.fetch.lookup) && w.fetch.download.Served?
    && Grants(w.upload.check) && w.upload.client && w.upload.content.Served? && SessionOpens(w.upload) && w.upload.rest.Served?
    && Grants(w.removal.check) && w.removal.client && w.removal.service.Served?
  }

  lemma GrantsPasses(expiresAt: int, c: Check)
    requires Grants(c)
    ensures Passes(expiresAt, c) && !Misleads(expiresAt, c)
  {
  }

  /** While the token does not expire: which operations succeed, by what happens to each request on the way. */
  lemma SuccessNeeds(expiresAt: int, size: Option<nat>, n: nat, w: World)
    requires w.length.check.now <= expiresAt && w.fetch.lookup.check.now <= expiresAt
    requires w.upload.check.now <= expiresAt && w.removal.check.now <= expiresAt
    ensures Puts(expiresAt, size, n, w) <==>
            && w.memory && w.length.client && w.length.service == Served && (size.Some? ==> w.length.body == Complete)
            && (size.Some? && size.value > 0 ==>
                  && size.value < 0x8000_0000 && w.fetch.lookup.client && w.fetch.lookup.service == Served
                  && w.fetch.lookup.body == Complete && w.fetch.download == Served)
            && Stored((if size.Some? then size.value else 0) + 4 + n, w.upload)
    ensures Sets(expiresAt, n, w) <==> w.memory && Stored(4 + n, w.upload)
    ensures Gets(expiresAt, size, w) <==>
            && w.length.client && w.length.service == Served && (size.Some? ==> w.length.body == Complete)
            && (size.Some? && size.value > 4 ==>
                  && w.memory && w.fetch.lookup.client && w.fetch.lookup.service == Served
                  && w.fetch.lookup.body == Complete && w.fetch.download == Served)
    ensures Removes(expiresAt, w.removal) <==> w.removal.client && w.removal.service == Served
  {
    hide Granted;
  }

  /** Every request of an upload of so many bytes is served: one of up to 4 MiB, or the folder, the session and the rest. */
  predicate Stored(size: nat, u: Upload) {
    && u.client
    && if size <= 4194304 then u.content == Served
       else u.folderBody && u.folder == Served && u.session == Served && u.sessionBody == Complete && u.fits && u.rest == Served
  }

  /** An expired token that is not refreshed lets nothing through, but for the 404 that is taken for a missing file. */
  lemma NothingWithoutToken(expiresAt: int, size: Option<nat>, n: nat, w: World)
    ensures w.length.check.now > expiresAt && Granted(w.length.check.refresh).None? ==>
              !Gets(expiresAt, size, w) && (Puts(expiresAt, size, n, w) ==> RefusedAsMissing(w.length.check.refresh))
    ensures w.upload.check.now > expiresAt && Granted(w.upload.check.refresh).None? ==> !Sets(expiresAt, n, w)
    ensures w.removal.check.now > expiresAt && Granted(w.removal.check.refresh).None? ==> !Removes(expiresAt, w.removal)
  {
    hide Granted;
  }

  /** Without a fault everything succeeds, but for a put to a file of 2^31 bytes. */
  lemma FaultlessGoes(expiresAt: int, size: Option<nat>, n: nat, w: World)
    requires Faultless(w)
    ensures Puts(expiresAt, size, n, w) <==> size.None? || size.value < INT_LIMIT
    ensures Sets(expiresAt, n, w) && Gets(expiresAt, size, w) && Removes(expiresAt, w.removal)
    ensures !Fooled(expiresAt, w) && !Misleads(expiresAt, w.length.check) && !Misleads(expiresAt, w.removal.check)
  {
    hide Granted, Passes, Misleads;
    var e := Expiry(expiresAt, w.length.check);
    GrantsPasses(expiresAt, w.length.check);
    GrantsPasses(e, w.fetch.lookup.check);
    GrantsPasses(expiresAt, w.upload.check);
    GrantsPasses(GatheredExpiry(expiresAt, size, w), w.upload.check);
    GrantsPasses(expiresAt, w.removal.check);
  }
}
