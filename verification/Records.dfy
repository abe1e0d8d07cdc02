/** The file behind a key: records of a big-endian length and that many bytes (`KVEntry` of onedrive.c). */
module Records {
  newtype octet = n: int | 0 <= n < 256

  type Value = seq<octet>

  const MAX_VALUE_LEN := 32768
  const HEADER := 4  // sizeof(KVEntry)

  /** The number four bytes stand for, most significant first. */
  function BigEndian(a: octet, b: octet, c: octet, d: octet): (n: nat)
    ensures n < 0x1_0000_0000
  {
    a as nat * 0x100_0000 + b as nat * 0x1_0000 + c as nat * 0x100 + d as nat
  }

  /** `htonl` as it lies in memory. */
  function Htonl(n: nat): (bs: seq<octet>)
    requires n < 0x1_0000_0000
    ensures |bs| == 4 && BigEndian(bs[0], bs[1], bs[2], bs[3]) == n
  {
    var hi, lo := n / 0x1_0000, n % 0x1_0000;
    [(hi / 0x100) as octet, (hi % 0x100) as octet, (lo / 0x100) as octet, (lo % 0x100) as octet]
  }

  lemma HtonlUnique(bs: seq<octet>)
    requires |bs| == 4
    ensures Htonl(BigEndian(bs[0], bs[1], bs[2], bs[3])) == bs
  {
    var n := BigEndian(bs[0], bs[1], bs[2], bs[3]);
    assert n / 0x1_0000 == bs[0] as nat * 0x100 + bs[1] as nat;
    assert n % 0x1_0000 == bs[2] as nat * 0x100 + bs[3] as nat;
  }

  /** The bytes of a length: the most significant comes first. */
  lemma HtonlBytes(n: nat)
    requires n < 0x1_0000_0000
    ensures Htonl(n)[0] as nat == n / 0x100_0000 && Htonl(n)[1] as nat == n / 0x1_0000 % 0x100
    ensures Htonl(n)[2] as nat == n / 0x100 % 0x100 && Htonl(n)[3] as nat == n % 0x100
  {
    Quotients(n);
  }

  lemma Quotients(n: nat)
    ensures n / 0x1_0000 / 0x100 == n / 0x100_0000 && n % 0x1_0000 / 0x100 == n / 0x100 % 0x100 && n % 0x1_0000 % 0x100 == n % 0x100
  {
  }

  function Record(v: Value): (r: seq<octet>)
    requires |v| <= MAX_VALUE_LEN
    ensures |r| == HEADER + |v|
  {
    Htonl(|v|) + v
  }

  /** A record as it is stored: the length in four bytes, the most significant first, and the value. */
  lemma RecordBytes(v: Value)
    requires |v| <= MAX_VALUE_LEN
    ensures Record(v) == [0, 0, (|v| / 0x100) as octet, (|v| % 0x100) as octet] + v
  {
    HtonlBytes(|v|);
    assert Htonl(|v|) == [0, 0, (|v| / 0x100) as octet, (|v| % 0x100) as octet];
  }

  ghost predicate Storable(vs: seq<Value>) {
    forall i :: 0 <= i < |vs| ==> |vs[i]| <= MAX_VALUE_LEN
  }

  function Log(vs: seq<Value>): seq<octet>
    requires Storable(vs)
  {
    if vs == [] then [] else Record(vs[0]) + Log(vs[1..])
  }

  /** What `put_value` leaves behind: values that fit, the last of them not empty. An empty file has none. */
  ghost predicate Wellformed(vs: seq<Value>) {
    Storable(vs) && (vs == [] || vs[|vs| - 1] != [])
  }

  // ----- get_values -----

  /** Whether the callback wants more after the value of this number. */
  type Answers = nat -> bool

  datatype Walked = Walked(values: seq<Value>, ok: bool)

  function LengthAt(f: seq<octet>): nat
    requires |f| >= HEADER
  {
    BigEndian(f[0], f[1], f[2], f[3])
  }

  /** The loop of `get_values` on what is left of the file, `k` values having been delivered. */
  function Entries(f: seq<octet>, k: nat, go: Answers): (w: Walked)
    requires |f| > HEADER
  {
    var n := LengthAt(f);
    var left := |f| - HEADER - n;
    if n > MAX_VALUE_LEN || left < 0 || 0 < left <= HEADER then Walked([], false)
    else if left == 0 || !go(k) then Walked([f[HEADER..HEADER + n]], true)
    else
      var w := Entries(f[HEADER + n..], k + 1, go);
      Walked([f[HEADER..HEADER + n]] + w.values, w.ok)
  }

  /** `kv->val_len = ntohl(kv->val_len)` on a little-endian host, and the length read back. */
  method NtohlAt(buf: array<octet>, p: nat) returns (len: nat)
    requires p + HEADER <= buf.Length
    modifies buf
    ensures len == old(BigEndian(buf[p], buf[p + 1], buf[p + 2], buf[p + 3]))
    ensures buf[p + HEADER..] == old(buf[p + HEADER..])
  {
    buf[p], buf[p + 1], buf[p + 2], buf[p + 3] := buf[p + 3], buf[p + 2], buf[p + 1], buf[p];
    len := BigEndian(buf[p + 3], buf[p + 2], buf[p + 1], buf[p]);
  }

  /** The loop of `get_values`: it rewrites the lengths in place and delivers the values untouched. */
  method WalkEntries(buf: array<octet>, go: Answers) returns (ok: bool, delivered: seq<Value>)
    requires buf.Length > HEADER
    modifies buf
    ensures Walked(delivered, ok) == Entries(old(buf[..]), 0, go)
  {
    hide Entries, BigEndian;
    ghost var f := buf[..];
    var kv, left: int := 0, buf.Length;
    delivered := [];
    assert f[0..] == f;
    while true
      invariant kv + left == buf.Length && left > HEADER && buf[kv..] == f[kv..]
      invariant Entries(f, 0, go) == Behind(delivered, Entries(f[kv..], |delivered|, go))
      decreases left
    {
      EntriesStep(f, kv, |delivered|, go);
      assert forall i :: 0 <= i < HEADER ==> buf[kv..][i] == f[kv..][i];
      var len := NtohlAt(buf, kv);
      if len > MAX_VALUE_LEN { return false, delivered; }
      left := left - (HEADER + len);
      if left < 0 || (left > 0 && left <= HEADER) { return false, delivered; }
      var proceed, value := go(|delivered|), buf[kv + HEADER..kv + HEADER + len];
      SameTail(buf[..], f, kv + HEADER, len);
      delivered := delivered + [value];
      if left == 0 || !proceed { return true, delivered; }
      kv := kv + (HEADER + len);
    }
  }

  lemma SameTail(g: seq<octet>, f: seq<octet>, p: nat, n: nat)
    requires p + n <= |f| == |g| && g[p..] == f[p..]
    ensures g[p..p + n] == f[p..p + n] && g[p + n..] == f[p + n..]
  {
  }

  function Behind(values: seq<Value>, w: Walked): Walked {
    Walked(values + w.values, w.ok)
  }

  lemma EntriesStep(f: seq<octet>, p: nat, k: nat, go: Answers)
    requires p + HEADER < |f|
    ensures var n, left := BigEndian(f[p], f[p + 1], f[p + 2], f[p + 3]), |f| - p - HEADER - BigEndian(f[p], f[p + 1], f[p + 2], f[p + 3]);
      if n > MAX_VALUE_LEN || left < 0 || 0 < left <= HEADER then Entries(f[p..], k, go) == Walked([], false)
      else if left == 0 || !go(k) then Entries(f[p..], k, go) == Walked([f[p + HEADER..p + HEADER + n]], true)
      else forall values: seq<Value> ::
             Behind(values, Entries(f[p..], k, go)) == Behind(values + [f[p + HEADER..p + HEADER + n]], Entries(f[p + HEADER + n..], k + 1, go))
  {
    var g, n := f[p..], BigEndian(f[p], f[p + 1], f[p + 2], f[p + 3]);
    if p + HEADER + n <= |f| {
      assert g[HEADER..HEADER + n] == f[p + HEADER..p + HEADER + n] && g[HEADER + n..] == f[p + HEADER + n..];
    }
  }

  // ----- what it accepts and delivers -----

  /** The values up to the first refusal. */
  function UpTo(vs: seq<Value>, k: nat, go: Answers): seq<Value> {
    if vs == [] then [] else if !go(k) then [vs[0]] else [vs[0]] + UpTo(vs[1..], k + 1, go)
  }

  lemma {:induction false} UpToIsPrefix(vs: seq<Value>, k: nat, go: Answers)
    ensures var n := |UpTo(vs, k, go)|;
      && n <= |vs| && UpTo(vs, k, go) == vs[..n]
      && (forall j :: k <= j < k + n - 1 ==> go(j))
      && (n < |vs| ==> n > 0 && !go(k + n - 1))
  {
    if vs != [] && go(k) {
      UpToIsPrefix(vs[1..], k + 1, go);
    }
  }

  lemma RecordSplits(v: Value, rest: seq<octet>)
    requires |v| <= MAX_VALUE_LEN
    ensures var f := Record(v) + rest;
      LengthAt(f) == |v| && f[HEADER..HEADER + |v|] == v && f[HEADER + |v|..] == rest
  {
  }

  lemma {:induction false} LogLength(vs: seq<Value>)
    requires Wellformed(vs) && vs != []
    ensures |Log(vs)| > HEADER
  {
  }

  /** On a well-formed file the loop delivers the values in order, up to the first refusal. */
  lemma {:induction false} EntriesOfLog(vs: seq<Value>, k: nat, go: Answers)
    requires Wellformed(vs) && vs != []
    ensures |Log(vs)| > HEADER && Entries(Log(vs), k, go) == Walked(UpTo(vs, k, go), true)
  {
    LogLength(vs);
    RecordSplits(vs[0], Log(vs[1..]));
    if |vs| > 1 {
      assert vs[1..][|vs[1..]| - 1] == vs[|vs| - 1];
      LogLength(vs[1..]);
      EntriesOfLog(vs[1..], k + 1, go);
    } else {
      assert vs[1..] == [];
    }
  }

  ghost predicate Willing(go: Answers) {
    forall k: nat :: go(k)
  }

  /** A file the loop accepts to its end is the log of what it delivered. */
  lemma {:induction false} AcceptedIsLog(f: seq<octet>, k: nat, go: Answers)
    requires |f| > HEADER && Willing(go) && Entries(f, k, go).ok
    ensures var vs := Entries(f, k, go).values; vs != [] && Wellformed(vs) && f == Log(vs)
    decreases |f|
  {
    var n := LengthAt(f);
    var v, rest := f[HEADER..HEADER + n], f[HEADER + n..];
    HtonlUnique(f[..HEADER]);
    assert f == Record(v) + rest;
    if rest == [] {
      assert [v][1..] == [] && Log([v]) == Record(v) + [];
    } else {
      AcceptedIsLog(rest, k + 1, go);
      var w := Entries(rest, k + 1, go).values;
      assert ([v] + w)[1..] == w;
    }
  }

  /** A willing reader of a non-empty file succeeds exactly when it is a well-formed log, and gets exactly its values. */
  lemma AcceptsExactlyLogs(f: seq<octet>, go: Answers)
    requires |f| > HEADER && Willing(go)
    ensures Entries(f, 0, go).ok <==> exists vs :: vs != [] && Wellformed(vs) && f == Log(vs)
    ensures forall vs | vs != [] && Wellformed(vs) && f == Log(vs) :: Entries(f, 0, go).values == vs
  {
    if Entries(f, 0, go).ok {
      AcceptedIsLog(f, 0, go);
    }
    forall vs | vs != [] && Wellformed(vs) && f == Log(vs) ensures Entries(f, 0, go) == Walked(vs, true) {
      EntriesOfLog(vs, 0, go);
      UpToIsPrefix(vs, 0, go);
    }
  }

  /** Appending a record to the file appends a value. */
  lemma {:induction false} LogAppend(vs: seq<Value>, v: Value)
    requires Wellformed(vs) && 0 < |v| <= MAX_VALUE_LEN
    ensures Wellformed(vs + [v]) && Log(vs + [v]) == Log(vs) + Record(v)
  {
    if vs == [] {
      assert vs + [v] == [v] && [v][1..] == [] && Record(v) + [] == Record(v) && [] + Record(v) == Record(v);
    } else {
      assert |vs| > 1 ==> vs[1..][|vs[1..]| - 1] == vs[|vs| - 1];
      LogAppend(vs[1..], v);
      assert (vs + [v])[1..] == vs[1..] + [v];
      assert Record(vs[0]) + (Log(vs[1..]) + Record(v)) == (Record(vs[0]) + Log(vs[1..])) + Record(v);
    }
  }

  /** A log stands for one list of values. */
  lemma LogInjective(us: seq<Value>, vs: seq<Value>)
    requires Wellformed(us) && Wellformed(vs) && Log(us) == Log(vs)
    ensures us == vs
  {
    var go: Answers := (k: nat) => true;
    if us != [] {
      LogLength(us);
    }
    if vs != [] {
      LogLength(vs);
      AcceptsExactlyLogs(Log(vs), go);
    }
  }

  ghost predicate Zeros(f: seq<octet>) {
    forall i :: 0 <= i < |f| ==> f[i] == 0
  }

  lemma ZeroLength(f: seq<octet>)
    requires |f| > HEADER && Zeros(f)
    ensures LengthAt(f) == 0
  {
  }

  lemma ZerosRest(f: seq<octet>)
    requires |f| > HEADER && Zeros(f)
    ensures Zeros(f[HEADER..])
  {
  }

  lemma ZerosStep(f: seq<octet>, k: nat, go: Answers)
    requires |f| > HEADER && Zeros(f)
    ensures Zeros(f[HEADER..])
    ensures Entries(f, k, go) ==
            if |f| <= 2 * HEADER then Walked([], false)
            else if go(k) then Behind([[]], Entries(f[HEADER..], k + 1, go))
            else Walked([[]], true)
  {
    hide LengthAt, Zeros;
    ZeroLength(f);
    ZerosRest(f);
    assert f[HEADER..HEADER] == [];
  }

  /** The loop on `4 * m + 2` zeros: empty values, and an error at the end unless the reader stops at one of them. */
  lemma {:induction false} ZerosAreEmptyValues(f: seq<octet>, m: nat, k: nat, go: Answers)
    requires |f| == HEADER * m + 2 && m > 0 && Zeros(f)
    ensures forall v | v in Entries(f, k, go).values :: v == []
    ensures m > 1 ==> Entries(f, k, go).values != []
    ensures Entries(f, k, go).ok <==> exists j :: k <= j < k + m - 1 && !go(j)
    decreases m
  {
    hide Entries, Zeros;
    ZerosStep(f, k, go);
    if m > 1 && go(k) {
      ZerosAreEmptyValues(f[HEADER..], m - 1, k + 1, go);
    }
  }
}
