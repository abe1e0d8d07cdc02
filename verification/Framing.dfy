/** Where a request ends in the bytes received: the framing done by `sb_stream_recv`, section 3.3.3 of RFC 7230. */
module Framing {
  import opened Prelude
  import opened Headers
  import opened Response

  const CONTENT_LENGTH: bytes := "Content-Length"
  const SPACES: set<byte> := {' ', '\t', '\n', '\U{B}', '\U{C}', '\r'}

  /** The C string read from a block that holds `d` and a NUL behind it. */
  function CText(d: bytes): (s: bytes)
    ensures IsCString(s)
  {
    var mem := d + [NUL];
    mem[..Until(mem, 0, {}) + 1]
  }

  // ----- Content-Length -----

  predicate IsDigit(c: byte) {
    '0' <= c <= '9'
  }

  function DigitValue(c: byte): nat
    requires IsDigit(c)
  {
    c as int - '0' as int
  }

  function DigitsValue(s: bytes, p: nat, acc: nat): nat
    requires p < |s| && s[|s| - 1] == NUL
    decreases |s| - p
  {
    if IsDigit(s[p]) then DigitsValue(s, p + 1, 10 * acc + DigitValue(s[p])) else acc
  }

  /** `sscanf(s + p, "%u")` cut to 32 bits, as glibc does it: white space, a sign, digits; 0 when there are no digits. */
  function StrToUint(s: bytes, p: nat): (n: nat)
    requires p < |s| && s[|s| - 1] == NUL
    ensures n < 0x1_0000_0000
  {
    var q := Past(s, p, SPACES);
    var d := if s[q] == '-' || s[q] == '+' then q + 1 else q;
    var v: int := DigitsValue(s, d, 0);
    var w: int := if v >= 0x1_0000_0000_0000_0000 then 0xFFFF_FFFF else if s[q] == '-' then -v else v;
    w % 0x1_0000_0000
  }

  /** The value of a run of digits, read from the left as the code does and from the right as `NatOf` does. */
  lemma {:induction false} DigitsRead(s: bytes, p: nat, d: bytes)
    requires p < |s| && s[|s| - 1] == NUL && Matches(s, p, d) && p + |d| < |s| && forall i :: 0 <= i < |d| ==> IsDigit(d[i])
    ensures NatOf(d) >= 0 && DigitsValue(s, p, 0) == DigitsValue(s, p + |d|, NatOf(d))
    decreases |d|
  {
    if d == [] {
    } else {
      var n := |d| - 1;
      DigitsRead(s, p, d[..n]);
      assert s[p + n] == d[n];
    }
  }

  /**
   * Which number is read: behind white space and perhaps a sign, that of the digits, its negative modulo 2^32 behind a minus
   * sign; what does not fit 32 bits is cut, and 2^64 or more reads as 2^32 - 1.
   */
  lemma StrToUintReads(s: bytes, p: nat, blank: bytes, sign: bytes, d: bytes)
    requires p < |s| && s[|s| - 1] == NUL && (forall c | c in blank :: c == ' ' || '\t' <= c <= '\r') && sign in [[], ['+'], ['-']]
    requires d != [] && (forall i :: 0 <= i < |d| ==> IsDigit(d[i])) && Matches(s, p, blank + (sign + d))
    requires p + |blank + (sign + d)| < |s| && !IsDigit(s[p + |blank + (sign + d)|])
    ensures StrToUint(s, p) ==
            if NatOf(d) >= 0x1_0000_0000_0000_0000 then 0xFFFF_FFFF
            else (if sign == ['-'] then -NatOf(d) else NatOf(d)) % 0x1_0000_0000
  {
    var text := sign + d;
    MatchesConcat(s, p, blank, text);
    var q := p + |blank|;
    MatchesConcat(s, q, sign, d);
    assert text[0] == s[q];
    assert s[q] !in SPACES;
    PastBlank(s, p, blank);
    DigitsRead(s, q + |sign|, d);
  }

  lemma {:induction false} PastBlank(s: bytes, p: nat, blank: bytes)
    requires p < |s| && s[|s| - 1] == NUL && (forall c | c in blank :: c in SPACES)
    requires Matches(s, p, blank) && p + |blank| < |s| && s[p + |blank|] !in SPACES
    ensures Past(s, p, SPACES) == p + |blank|
    decreases |blank|
  {
    if blank != [] {
      assert s[p] == blank[0] && blank[0] in blank;
      assert forall i :: 0 <= i < |blank| - 1 ==> blank[1..][i] == blank[i + 1];
      PastBlank(s, p + 1, blank[1..]);
    }
  }

  /** The number in the Content-Length line of a header, None without such a line. */
  ghost function ContentLength(header: bytes): Option<nat> {
    match Lookup(CText(header), CONTENT_LENGTH, 0)
    case None => None
    case Some(v) => Some(StrToUint(CText(header), v))
  }

  // ----- what a request is -----

  /** The first `n` bytes end in a blank line. */
  predicate BlankLineEnd(d: bytes, n: nat) {
    4 <= n <= |d| && CrLfAt(d, n - 4) && CrLfAt(d, n - 2)
  }

  /** The first `n` bytes are a header: they end in a blank line, and no fewer bytes do. */
  ghost predicate HeaderEnd(d: bytes, n: nat) {
    BlankLineEnd(d, n) && forall m: nat | m < n :: !BlankLineEnd(d, m)
  }

  ghost function BodyLength(header: bytes): nat {
    match ContentLength(header) case None => 0 case Some(n) => n
  }

  /** The first `k` bytes are one request: the shortest header and as many bytes as it announces. */
  ghost predicate RequestEnd(d: bytes, k: nat) {
    k <= |d| && exists n: nat :: HeaderEnd(d, n) && k == n + BodyLength(d[..n])
  }

  // ----- the framer -----

  datatype Progress = Progress(state: State, data: bytes, expected: nat, dataIdx: nat)

  const START := Progress(ReceivingHeader, [], 0, 0)

  ghost predicate Receiving(f: Progress) {
    f.state == ReceivingHeader || f.state == ReceivingRequest
  }

  /** What the loop body does with one more byte. */
  ghost function Take(f: Progress, c: byte): Progress {
    var d := f.data + [c];
    if !Receiving(f) then f
    else if f.state == ReceivingHeader && BlankLineEnd(d, |d|) then
      match ContentLength(d)
      case None => Progress(SendingStatus, d, f.expected, f.dataIdx)
      case Some(n) => Progress(if n == 0 then SendingStatus else ReceivingRequest, d, |d| + n, |d|)
    else if f.expected == |d| then f.(state := SendingStatus, data := d)
    else f.(data := d)
  }

  ghost function Feed(f: Progress, bs: bytes): Progress {
    if bs == [] then f else Take(Feed(f, bs[..|bs| - 1]), bs[|bs| - 1])
  }

  /** The bytes of a sequence of `recv` results. */
  ghost function Flatten(chunks: seq<bytes>): bytes {
    if chunks == [] then [] else Flatten(chunks[..|chunks| - 1]) + chunks[|chunks| - 1]
  }

  ghost function FeedChunks(f: Progress, chunks: seq<bytes>): Progress {
    if chunks == [] then f else Feed(FeedChunks(f, chunks[..|chunks| - 1]), chunks[|chunks| - 1])
  }

  lemma {:induction false} FeedConcat(f: Progress, a: bytes, b: bytes)
    ensures Feed(f, a + b) == Feed(Feed(f, a), b)
  {
    if b == [] {
      assert a + b == a;
    } else {
      var n := |b| - 1;
      assert (a + b)[..|a + b| - 1] == a + b[..n];
      FeedConcat(f, a, b[..n]);
    }
  }

  /** Once the request is complete nothing more is taken. */
  lemma {:induction false} FeedStops(f: Progress, bs: bytes)
    requires !Receiving(f)
    ensures Feed(f, bs) == f
  {
    if bs != [] {
      FeedStops(f, bs[..|bs| - 1]);
    }
  }

  lemma {:induction false} FeedStates(f: Progress, bs: bytes)
    requires Receiving(f)
    ensures Receiving(Feed(f, bs)) || Feed(f, bs).state == SendingStatus
  {
    if bs != [] {
      FeedStates(f, bs[..|bs| - 1]);
    }
  }

  lemma FeedSnoc(f: Progress, bs: bytes, c: byte)
    ensures Feed(f, bs + [c]) == Take(Feed(f, bs), c)
  {
  }

  /** While the request is incomplete every byte is kept. */
  lemma {:induction false} FeedKeeps(f: Progress, bs: bytes)
    requires Receiving(Feed(f, bs))
    ensures Receiving(f) && Feed(f, bs).data == f.data + bs
  {
    if bs != [] {
      FeedKeeps(f, bs[..|bs| - 1]);
      assert f.data + bs == (f.data + bs[..|bs| - 1]) + [bs[|bs| - 1]];
    } else {
      assert f.data + bs == f.data;
    }
  }

  /** Whatever happens, what is kept is a prefix of what came. */
  lemma {:induction false} FeedTakesPrefix(f: Progress, bs: bytes)
    ensures exists n: nat :: n <= |bs| && Feed(f, bs).data == f.data + bs[..n]
  {
    if bs == [] {
      assert f.data + bs[..0] == f.data;
    } else {
      var init := bs[..|bs| - 1];
      if Receiving(Feed(f, init)) {
        FeedKeeps(f, init);
        assert f.data + init + [bs[|bs| - 1]] == f.data + bs[..|bs|];
      } else {
        FeedTakesPrefix(f, init);
        var n: nat :| n <= |init| && Feed(f, init).data == f.data + init[..n];
        assert init[..n] == bs[..n];
      }
    }
  }

  /** How the bytes are cut into chunks makes no difference. */
  lemma {:induction false} ChunksDoNotMatter(f: Progress, chunks: seq<bytes>)
    ensures FeedChunks(f, chunks) == Feed(f, Flatten(chunks))
  {
    if chunks != [] {
      var n := |chunks| - 1;
      ChunksDoNotMatter(f, chunks[..n]);
      FeedConcat(f, Flatten(chunks[..n]), chunks[n]);
    }
  }

  /** How far the framer is after `bs`, said without the framer. */
  ghost predicate Framed(f: Progress, bs: bytes) {
    match f.state
    case ReceivingHeader =>
      f == START.(data := bs) && forall n: nat :: !HeaderEnd(bs, n) && !BlankLineEnd(bs, n)
    case ReceivingRequest =>
      && f.data == bs && HeaderEnd(bs, f.dataIdx) && |bs| < f.expected
      && ContentLength(bs[..f.dataIdx]) == Some(f.expected - f.dataIdx)
    case SendingStatus =>
      && RequestEnd(bs, |f.data|) && f.data == bs[..|f.data|]
      && (f.dataIdx == 0 || HeaderEnd(bs, f.dataIdx))
      && exists n: nat :: HeaderEnd(bs, n) && f.dataIdx == if ContentLength(bs[..n]).None? then 0 else n
    case _ => false
  }

  lemma SameBlankLines(bs: bytes, more: bytes, n: nat)
    ensures n <= |bs| ==> (HeaderEnd(bs + more, n) <==> HeaderEnd(bs, n)) && (bs + more)[..n] == bs[..n]
  {
    var d := bs + more;
    forall m: nat | m <= |bs| ensures BlankLineEnd(d, m) == BlankLineEnd(bs, m) {
      if 4 <= m {
        assert d[m - 4] == bs[m - 4] && d[m - 3] == bs[m - 3] && d[m - 2] == bs[m - 2] && d[m - 1] == bs[m - 1];
      }
    }
  }

  /** What comes behind a request end makes no difference to it. */
  lemma RequestEndWithin(bs: bytes, more: bytes, k: nat)
    requires k <= |bs|
    ensures RequestEnd(bs + more, k) <==> RequestEnd(bs, k)
    ensures (bs + more)[..k] == bs[..k]
  {
    hide ContentLength, BlankLineEnd;
    if n: nat :| n <= |bs| && HeaderEnd(bs, n) && k == n + BodyLength(bs[..n]) {
      SameBlankLines(bs, more, n);
    }
    if n: nat :| n <= k && HeaderEnd(bs + more, n) && k == n + BodyLength((bs + more)[..n]) {
      SameBlankLines(bs, more, n);
    }
  }

  lemma TakeInHeader(f: Progress, bs: bytes, c: byte)
    requires Framed(f, bs) && f.state == ReceivingHeader
    ensures Framed(Take(f, c), bs + [c])
  {
    var d := bs + [c];
    assert d[..|d|] == d;
    forall n: nat | n <= |bs| ensures !BlankLineEnd(d, n) {
      SameBlankLines(bs, [c], n);
    }
    if BlankLineEnd(d, |d|) {
      assert HeaderEnd(d, |d|);
    }
  }

  lemma TakeInBody(f: Progress, bs: bytes, c: byte)
    requires Framed(f, bs) && f.state == ReceivingRequest
    ensures Framed(Take(f, c), bs + [c])
  {
    var d := bs + [c];
    SameBlankLines(bs, [c], f.dataIdx);
    assert d[..|d|] == d;
  }

  lemma TakeWhenDone(f: Progress, bs: bytes, c: byte)
    requires Framed(f, bs) && f.state == SendingStatus
    ensures Framed(Take(f, c), bs + [c])
  {
    var d := bs + [c];
    RequestEndWithin(bs, [c], |f.data|);
    assert d[..|f.data|] == bs[..|f.data|];
    var n: nat :| HeaderEnd(bs, n) && f.dataIdx == if ContentLength(bs[..n]).None? then 0 else n;
    SameBlankLines(bs, [c], n);
    SameBlankLines(bs, [c], f.dataIdx);
  }

  lemma TakeFramed(f: Progress, bs: bytes, c: byte)
    requires Framed(f, bs)
    ensures Framed(Take(f, c), bs + [c])
  {
    if f.state == ReceivingHeader {
      TakeInHeader(f, bs, c);
    } else if f.state == ReceivingRequest {
      TakeInBody(f, bs, c);
    } else {
      TakeWhenDone(f, bs, c);
    }
  }

  lemma {:induction false} FeedFramed(bs: bytes)
    ensures Framed(Feed(START, bs), bs)
  {
    if bs == [] {
      assert Feed(START, bs) == START;
    } else {
      var init, c := bs[..|bs| - 1], bs[|bs| - 1];
      assert init + [c] == bs;
      FeedFramed(init);
      TakeFramed(Feed(START, init), init, c);
      assert Feed(START, bs) == Take(Feed(START, init), c);
    }
  }

  lemma RequestEndUnique(d: bytes, j: nat, k: nat)
    requires RequestEnd(d, j) && RequestEnd(d, k)
    ensures j == k
  {
  }

  /**
   * The framer stops at the end of the request, and only there: the bytes kept are the shortest prefix
   * ending in a blank line and as many bytes more as its Content-Length says, however they arrive.
   */
  lemma FramesExactly(chunks: seq<bytes>)
    ensures var f, bs := FeedChunks(START, chunks), Flatten(chunks);
      && (f.state == SendingStatus <==> exists k: nat :: RequestEnd(bs, k))
      && (forall k: nat | RequestEnd(bs, k) :: f.data == bs[..k])
      && (Receiving(f) ==> f.data == bs)
  {
    hide Feed, FeedChunks, Flatten, ContentLength, BlankLineEnd;
    var f, bs := FeedChunks(START, chunks), Flatten(chunks);
    ChunksDoNotMatter(START, chunks);
    FeedFramed(bs);
    forall k: nat | RequestEnd(bs, k) ensures f.state == SendingStatus && f.data == bs[..k] {
      if f.state == SendingStatus {
        RequestEndUnique(bs, k, |f.data|);
      }
    }
  }
}
