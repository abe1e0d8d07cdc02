/** The response a stream is building: what the `sb_send_*` and `sb_write` calls mean, and the bytes they stand for. */
module Response {
  import opened Prelude
  import opened Codes
  import opened Buffer

  datatype State =
    | ReceivingHeader
    | ReceivingRequest
    | SendingStatus
    | SendingHeader
    | SendingData
    | SendingFile
    | Closing
  {
    function Rank(): nat {
      match this
      case ReceivingHeader => 0
      case ReceivingRequest => 1
      case SendingStatus => 2
      case SendingHeader => 3
      case SendingData => 4
      case SendingFile => 5
      case Closing => 6
    }
  }

  datatype Header = Header(field: bytes, value: bytes)

  datatype Response =
    | Nothing
    | Head(code: int, msg: bytes, headers: seq<Header>)
    | Full(code: int, msg: bytes, headers: seq<Header>, body: bytes)

  // ----- the bytes of a response, section 3 of RFC 7230 -----

  const HTTP: bytes := "HTTP/1.1 "
  const SP: bytes := " "
  const COLON: bytes := ": "

  ghost function StatusText(code: int, msg: bytes): bytes {
    HTTP + (Decimal(code) + (SP + msg))
  }

  ghost function HeaderText(h: Header): bytes {
    h.field + (COLON + h.value)
  }

  ghost function RenderHeaders(hs: seq<Header>): bytes {
    if hs == [] then [] else RenderHeaders(hs[..|hs| - 1]) + (HeaderText(hs[|hs| - 1]) + CRLF)
  }

  ghost function RenderHead(code: int, msg: bytes, hs: seq<Header>): bytes {
    StatusText(code, msg) + CRLF + RenderHeaders(hs)
  }

  ghost function Render(r: Response): bytes {
    match r
    case Nothing => []
    case Head(c, m, hs) => RenderHead(c, m, hs)
    case Full(c, m, hs, b) => RenderHead(c, m, hs) + CRLF + b
  }

  // ----- what the calls do -----

  /** A call of the event handler; a file is given by its contents, None when it cannot be opened. */
  datatype Call =
    | SendStatus(code: int, msg: bytes)
    | SendHeader(field: bytes, value: bytes)
    | SendFile(file: Option<bytes>)
    | Write(data: bytes)

  /** The state a response is built in. */
  ghost predicate Fits(st: State, r: Response) {
    match st
    case Closing => true
    case SendingHeader => r.Head?
    case SendingData => r.Full?
    case SendingFile => r.Full?
    case _ => r.Nothing?
  }

  ghost function WithStatus(r: Response): Response {
    if r.Nothing? then Head(200, "OK", []) else r
  }

  ghost function WithHeader(r: Response, h: Header): Response {
    match WithStatus(r)
    case Head(c, m, hs) => Head(c, m, hs + [h])
    case r => r
  }

  ghost function Finished(r: Response): Response {
    match WithStatus(r)
    case Head(c, m, hs) => Full(c, m, hs, [])
    case r => r
  }

  ghost function WithBody(r: Response, data: bytes): Response {
    match Finished(r)
    case Full(c, m, hs, b) => Full(c, m, hs, b + data)
    case r => r
  }

  /** The header `sb_send_file` adds: the size as a 32-bit unsigned number. */
  function LengthHeader(size: nat): Header {
    Header("Content-Length", Decimal(size % 0x1_0000_0000))
  }

  datatype Snapshot = Snapshot(state: State, response: Response)

  /** What a call that changed nothing or ran out of memory half-way leaves: one of the steps on its way. */
  ghost predicate StoppedAt(a: Snapshot, b: Snapshot, r: Response) {
    b.response == r && (if r == a.response then b.state == a.state else b.state != Closing && b.state != SendingFile && Fits(b.state, r))
  }

  /** The outcome `err` of a call in `a`, leaving `b`; every failure leaves a response that is still well-formed. */
  ghost predicate Effect(call: Call, a: Snapshot, err: Code, b: Snapshot) {
    var r := a.response;
    var early, late := a.state.Rank() < SendingStatus.Rank(), a.state.Rank() > SendingHeader.Rank();
    match call
    case SendStatus(code, msg) =>
      if a.state != SendingStatus then err == BadState && b == a
      else || (err == Success && b == Snapshot(SendingHeader, Head(code, msg, [])))
           || (err == OutOfMem && b == a)
    case SendHeader(f, v) =>
      if early || late then err == BadState && b == a
      else || (err == Success && b == Snapshot(SendingHeader, WithHeader(r, Header(f, v))))
           || (err == OutOfMem && (StoppedAt(a, b, r) || StoppedAt(a, b, WithStatus(r))))
    case SendFile(file) =>
      if late then err == BadState && b == a
      else if file.None? then err == CantOpen && b == a
      else if early then err == BadState && b == a
      else
        var withLength := WithHeader(r, LengthHeader(|file.value|));
        || (err == Success && b == Snapshot(SendingFile, WithBody(withLength, file.value)))
        || (err == OutOfMem && (StoppedAt(a, b, r) || StoppedAt(a, b, WithStatus(r)) || StoppedAt(a, b, withLength)))
    case Write(data) =>
      if early || a.state == SendingFile || a.state == Closing then err == BadState && b == a
      else || (err == Success && b == Snapshot(SendingData, WithBody(r, data)))
           || (err == OutOfMem && (StoppedAt(a, b, r) || StoppedAt(a, b, WithStatus(r)) || StoppedAt(a, b, Finished(r))))
  }

  /** `b` continues `a`: no later state is left, no byte already produced changes. */
  ghost predicate Continues(a: Snapshot, b: Snapshot) {
    a.state.Rank() <= b.state.Rank() && Render(a.response) <= Render(b.response)
  }

  lemma StatusKeepsBytes(r: Response)
    ensures Render(r) <= Render(WithStatus(r))
  {
  }

  lemma HeaderKeepsBytes(r: Response, h: Header)
    ensures Render(WithStatus(r)) <= Render(WithHeader(r, h))
  {
  }

  lemma FinishKeepsBytes(r: Response)
    ensures Render(WithStatus(r)) <= Render(Finished(r))
  {
  }

  lemma BodyKeepsBytes(r: Response, data: bytes)
    ensures Render(Finished(r)) <= Render(WithBody(r, data))
  {
  }

  lemma HeaderEffectContinues(h: Header, a: Snapshot, err: Code, b: Snapshot)
    requires Fits(a.state, a.response) && Effect(SendHeader(h.field, h.value), a, err, b)
    ensures Fits(b.state, b.response) && Continues(a, b)
  {
  }

  lemma FileEffectContinues(file: Option<bytes>, a: Snapshot, err: Code, b: Snapshot)
    requires Fits(a.state, a.response) && Effect(SendFile(file), a, err, b)
    ensures Fits(b.state, b.response) && Continues(a, b)
  {
    hide Render, LengthHeader;
    if file.Some? {
      var r, h := a.response, LengthHeader(|file.value|);
      var l := WithHeader(r, h);
      StatusKeepsBytes(r);
      HeaderKeepsBytes(r, h);
      FinishKeepsBytes(l);
      BodyKeepsBytes(l, file.value);
      PrefixOf(Render(r), Render(WithStatus(r)), Render(l));
      PrefixOf(Render(l), Render(Finished(l)), Render(WithBody(l, file.value)));
      if l.Head? {
        PrefixOf(Render(r), Render(l), Render(WithBody(l, file.value)));
      }
    }
  }

  lemma PrefixOf(a: bytes, b: bytes, c: bytes)
    ensures a <= b <= c ==> a <= c
  {
  }

  lemma WriteEffectContinues(data: bytes, a: Snapshot, err: Code, b: Snapshot)
    requires Fits(a.state, a.response) && Effect(Write(data), a, err, b)
    ensures Fits(b.state, b.response) && Continues(a, b)
  {
  }

  /** No call, whatever it returns, takes back a byte or a state. */
  lemma EffectContinues(call: Call, a: Snapshot, err: Code, b: Snapshot)
    requires Fits(a.state, a.response) && Effect(call, a, err, b)
    ensures Fits(b.state, b.response) && Continues(a, b)
  {
    match call {
      case SendStatus(code, msg) =>
      case SendHeader(f, v) => HeaderEffectContinues(Header(f, v), a, err, b);
      case SendFile(file) => FileEffectContinues(file, a, err, b);
      case Write(data) => WriteEffectContinues(data, a, err, b);
    }
  }

  /** A run of calls with their results: `trace[i]` is the stream before call `i`. */
  ghost predicate IsRun(calls: seq<Call>, errs: seq<Code>, trace: seq<Snapshot>) {
    && |errs| == |calls| && |trace| == |calls| + 1
    && forall i {:trigger calls[i]} :: 0 <= i < |calls| ==> Effect(calls[i], trace[i], errs[i], trace[i + 1])
  }

  ghost predicate GoodRun(calls: seq<Call>, errs: seq<Code>, trace: seq<Snapshot>) {
    IsRun(calls, errs, trace) && Fits(trace[0].state, trace[0].response)
  }

  /** The calls may take a stream from `a` to `b`. */
  ghost predicate RunsTo(calls: seq<Call>, a: Snapshot, b: Snapshot) {
    exists errs, trace :: GoodRun(calls, errs, trace) && trace[0] == a && trace[|calls|] == b
  }

  lemma {:induction false} RunFits(calls: seq<Call>, errs: seq<Code>, trace: seq<Snapshot>, n: nat)
    requires GoodRun(calls, errs, trace) && n <= |calls|
    ensures Fits(trace[n].state, trace[n].response)
  {
    if n > 0 {
      RunFits(calls, errs, trace, n - 1);
      EffectContinues(calls[n - 1], trace[n - 1], errs[n - 1], trace[n]);
    }
  }

  /** Over any run of calls the state never decreases and the bytes produced only grow. */
  lemma {:induction false} RunContinues(calls: seq<Call>, errs: seq<Code>, trace: seq<Snapshot>, m: nat, n: nat)
    requires GoodRun(calls, errs, trace) && m <= n <= |calls|
    ensures Continues(trace[m], trace[n])
    decreases n
  {
    hide Effect, Fits, Render;
    if m < n {
      hide Continues;
      RunContinues(calls, errs, trace, m, n - 1);
      StepContinues(calls, errs, trace, n - 1);
      ContinuesTransitive(trace[m], trace[n - 1], trace[n]);
    }
  }

  lemma RunsToContinues(calls: seq<Call>, a: Snapshot, b: Snapshot)
    requires RunsTo(calls, a, b)
    ensures Continues(a, b)
  {
    hide Effect, Continues;
    var errs, trace :| GoodRun(calls, errs, trace) && trace[0] == a && trace[|calls|] == b;
    RunContinues(calls, errs, trace, 0, |calls|);
  }

  lemma StepContinues(calls: seq<Call>, errs: seq<Code>, trace: seq<Snapshot>, i: nat)
    requires GoodRun(calls, errs, trace) && i < |calls|
    ensures Continues(trace[i], trace[i + 1])
  {
    RunFits(calls, errs, trace, i);
    EffectContinues(calls[i], trace[i], errs[i], trace[i + 1]);
  }

  lemma ContinuesTransitive(a: Snapshot, b: Snapshot, c: Snapshot)
    requires Continues(a, b) && Continues(b, c)
    ensures Continues(a, c)
  {
  }

  /** A response is begun once: behind a call that succeeded, every `sb_send_status` is refused and changes nothing. */
  lemma OneStatusLine(calls: seq<Call>, errs: seq<Code>, trace: seq<Snapshot>, i: nat, j: nat)
    requires GoodRun(calls, errs, trace) && i < j < |calls| && errs[i] == Success && calls[j].SendStatus?
    ensures errs[j] == BadState && trace[j + 1] == trace[j]
  {
    assert Effect(calls[i], trace[i], errs[i], trace[i + 1]) && Effect(calls[j], trace[j], errs[j], trace[j + 1]);
    assert trace[i + 1].state.Rank() > SendingStatus.Rank();
    RunContinues(calls, errs, trace, i + 1, j);
  }

  // ----- reading a response back -----

  /** Offset of the first CRLF, |b| when there is none. */
  ghost function LineEnd(b: bytes, p: nat): (e: nat)
    requires p <= |b|
    ensures p <= e <= |b| && (e < |b| ==> CrLfAt(b, e))
    ensures forall i: nat | p <= i < e :: !CrLfAt(b, i)
    decreases |b| - p
  {
    if p == |b| || CrLfAt(b, p) then p else LineEnd(b, p + 1)
  }

  /** Offset of the first `c`, |b| when there is none. */
  ghost function Find(b: bytes, c: byte): (e: nat)
    ensures e <= |b| && (e < |b| ==> b[e] == c)
    ensures forall i :: 0 <= i < e ==> b[i] != c
  {
    if b == [] || b[0] == c then 0 else 1 + Find(b[1..], c)
  }

  ghost function NatOf(d: bytes): int {
    if d == [] then 0 else 10 * NatOf(d[..|d| - 1]) + (d[|d| - 1] as int - '0' as int)
  }

  ghost function IntOf(d: bytes): int {
    if d != [] && d[0] == '-' then -NatOf(d[1..]) else NatOf(d)
  }

  /** The headers and, behind a blank line, the body. */
  datatype Tail = Tail(headers: seq<Header>, body: Option<bytes>)

  ghost function ParseTail(b: bytes): Option<Tail> {
    if b == [] then Some(Tail([], None))
    else
      var e := LineEnd(b, 0);
      if e == |b| then None
      else if e == 0 then Some(Tail([], Some(b[2..])))
      else
        var c := Find(b[..e], ':');
        if c + 2 > e then None
        else
          match ParseTail(b[e + 2..])
          case None => None
          case Some(t) => Some(Tail([Header(b[..c], b[c + 2..e])] + t.headers, t.body))
  }

  /** The line begins with the version and a blank. */
  ghost predicate IsHttp(line: bytes) {
    9 <= |line| && Matches(line, 0, "HTTP/1.1 ")
  }

  /** Reads a response the way a client does: line by line up to the first blank line. */
  ghost function Parse(b: bytes): Option<Response> {
    if b == [] then Some(Nothing)
    else
      var e := LineEnd(b, 0);
      if e == |b| || !IsHttp(b[..e]) then None
      else
        var line := b[9..e];
        var sp := Find(line, ' ');
        if sp == |line| then None
        else
          var code, msg := IntOf(line[..sp]), line[sp + 1..];
          match ParseTail(b[e + 2..])
          case None => None
          case Some(Tail(hs, None)) => Some(Head(code, msg, hs))
          case Some(Tail(hs, Some(body))) => Some(Full(code, msg, hs, body))
  }

  /** No line break inside. */
  ghost predicate OneLine(text: bytes) {
    forall i: nat :: !CrLfAt(text, i)
  }

  ghost predicate CleanHeader(h: Header) {
    ':' !in h.field && OneLine(h.field) && OneLine(h.value)
  }

  ghost predicate Clean(r: Response) {
    r.Nothing? || (OneLine(r.msg) && forall i :: 0 <= i < |r.headers| ==> CleanHeader(r.headers[i]))
  }

  lemma {:induction false} DecimalReads(n: int)
    ensures IntOf(Decimal(n)) == n
    ensures n >= 0 ==> Decimal(n)[0] != '-' && NatOf(Decimal(n)) == n
    decreases if n < 0 then 1 else 0, if n < 0 then -n else n
  {
    var d := Decimal(n);
    if n < 0 {
      DecimalReads(-n);
      assert d[1..] == Decimal(-n);
    } else if n < 10 {
      assert d[..|d| - 1] == [] && NatOf([]) == 0;
      assert d[0] as int - '0' as int == n;
      assert NatOf(d) == n;
    } else {
      DecimalReads(n / 10);
      assert d[..|d| - 1] == Decimal(n / 10);
    }
  }

  /** What `sb_send_file` announces is the number of bytes it sends exactly when the file is smaller than 4 GiB. */
  lemma FileAnnounced(r: Response, contents: bytes)
    requires !r.Full?
    ensures var sent := WithBody(WithHeader(r, LengthHeader(|contents|)), contents);
      && sent.Full? && sent.headers != [] && sent.body == contents
      && var last := sent.headers[|sent.headers| - 1];
         last.field == "Content-Length" && (IntOf(last.value) == |sent.body| <==> |contents| < 0x1_0000_0000)
  {
    hide Decimal, IntOf;
    DecimalReads(|contents| % 0x1_0000_0000);
    assert [] + contents == contents;
  }

  /** A file of exactly 4 GiB is announced as empty. */
  lemma FourGiBAnnouncedAsNone(r: Response, contents: bytes)
    requires !r.Full? && |contents| == 0x1_0000_0000
    ensures IntOf(LengthHeader(|contents|).value) == 0
  {
    DecimalReads(0);
  }

  lemma LineEndOf(line: bytes, rest: bytes)
    requires OneLine(line)
    ensures LineEnd(line + CRLF + rest, 0) == |line|
    ensures (line + CRLF + rest)[|line| + 2..] == rest && (line + CRLF + rest)[..|line|] == line
  {
    var b := line + CRLF + rest;
    assert b[|line|] == '\r' && b[|line| + 1] == '\n';
    assert CrLfAt(b, |line|);
    forall i: nat | i < |line| ensures !CrLfAt(b, i) {
      assert !CrLfAt(line, i) && b[i] == line[i];
      assert i + 1 < |line| ==> b[i + 1] == line[i + 1];
    }
  }

  lemma FindIn(a: bytes, c: byte, b: bytes)
    requires c !in a
    ensures Find(a + [c] + b, c) == |a|
  {
    var w := a + [c] + b;
    assert w[|a|] == c;
    assert forall i :: 0 <= i < |a| ==> w[i] == a[i];
  }

  lemma {:induction false} RenderHeadersCons(hs: seq<Header>)
    requires hs != []
    ensures RenderHeaders(hs) == HeaderText(hs[0]) + CRLF + RenderHeaders(hs[1..])
  {
    var n := |hs| - 1;
    if n > 0 {
      RenderHeadersCons(hs[..n]);
      assert hs[..n][1..] == hs[1..][..n - 1];
    }
  }

  lemma HeaderTextOneLine(h: Header)
    requires CleanHeader(h)
    ensures OneLine(HeaderText(h)) && Find(HeaderText(h), ':') == |h.field|
    ensures HeaderText(h)[..|h.field|] == h.field && HeaderText(h)[|h.field| + 2..] == h.value
  {
    var w, n := HeaderText(h), |h.field|;
    assert w[n] == ':' && w[n + 1] == ' ';
    forall i: nat ensures !CrLfAt(w, i) {
      if i < n {
        assert !CrLfAt(h.field, i);
      } else if i >= n + 2 {
        assert !CrLfAt(h.value, i - n - 2);
      }
    }
    assert forall i :: 0 <= i < n ==> w[i] == h.field[i];
  }

  lemma ParseTailStep(h: Header, b: bytes, rest: bytes)
    requires CleanHeader(h) && b == HeaderText(h) + CRLF + rest
    ensures ParseTail(b) ==
      match ParseTail(rest)
      case None => None
      case Some(t) => Some(Tail([h] + t.headers, t.body))
  {
    var w := HeaderText(h);
    HeaderTextOneLine(h);
    LineEndOf(w, rest);
    var e, c := |w|, |h.field|;
    assert LineEnd(b, 0) == e && b[..e] == w && b[e + 2..] == rest;
    assert b[..c] == w[..c] == h.field && b[c + 2..e] == w[c + 2..] == h.value;
  }

  /** Headers and body come back as they were sent. */
  lemma {:induction false} ParseTailOf(hs: seq<Header>, body: Option<bytes>)
    requires forall i :: 0 <= i < |hs| ==> CleanHeader(hs[i])
    ensures var end := if body.Some? then CRLF + body.value else [];
            ParseTail(RenderHeaders(hs) + end) == Some(Tail(hs, body))
    decreases |hs|
  {
    var end := if body.Some? then CRLF + body.value else [];
    if hs == [] {
      assert RenderHeaders(hs) + end == end;
      if body.Some? {
        assert end[0] == '\r' && end[1] == '\n' && end[2..] == body.value;
      }
    } else {
      var line, rest := HeaderText(hs[0]), RenderHeaders(hs[1..]) + end;
      RenderHeadersCons(hs);
      assert RenderHeaders(hs) + end == line + CRLF + rest;
      ParseTailOf(hs[1..], body);
      ParseTailStep(hs[0], line + CRLF + rest, rest);
      assert [hs[0]] + hs[1..] == hs;
    }
  }

  lemma StatusTextOneLine(code: int, msg: bytes)
    requires OneLine(msg)
    ensures var w := StatusText(code, msg);
      && OneLine(w) && IsHttp(w) && |HTTP| == 9 && w[|HTTP|..] == Decimal(code) + SP + msg
      && Find(w[|HTTP|..], ' ') == |Decimal(code)|
  {
    var d, w := Decimal(code), StatusText(code, msg);
    var n := |HTTP| + |d|;
    forall i: nat ensures !CrLfAt(w, i) {
      if i < |HTTP| {
        assert w[i] == HTTP[i] && HTTP[i] != '\r';
      } else if i < n {
        assert w[i] == d[i - |HTTP|];
      } else if i > n {
        assert !CrLfAt(msg, i - n - 1);
      }
    }
    FindIn(d, ' ', msg);
    assert w[|HTTP|..] == d + [' '] + msg == d + SP + msg;
  }

  // ----- what a client reads -----

  /** The bytes of a list of writes. */
  ghost function BytesOf(datas: seq<bytes>): bytes {
    if datas == [] then [] else BytesOf(datas[..|datas| - 1]) + datas[|datas| - 1]
  }

  /** The calls for a status line or none, headers and writes. */
  ghost function CallsFor(status: Option<Call>, hs: seq<Header>, datas: seq<bytes>): seq<Call> {
    (if status.Some? then [status.value] else []) + (HeaderCalls(hs) + WriteCalls(datas))
  }

  ghost function HeaderCalls(hs: seq<Header>): seq<Call> {
    seq(|hs|, i requires 0 <= i < |hs| => SendHeader(hs[i].field, hs[i].value))
  }

  ghost function WriteCalls(datas: seq<bytes>): seq<Call> {
    seq(|datas|, i requires 0 <= i < |datas| => Write(datas[i]))
  }

  /** What such calls make of a stream with a request: without a status line of its own the response is `200 OK`. */
  ghost function Composed(status: Option<Call>, hs: seq<Header>, datas: seq<bytes>): Snapshot
    requires status.Some? ==> status.value.SendStatus?
  {
    var code, msg := if status.Some? then status.value.code else 200, if status.Some? then status.value.msg else "OK";
    if datas != [] then Snapshot(SendingData, Full(code, msg, hs, BytesOf(datas)))
    else if status.None? && hs == [] then Snapshot(SendingStatus, Nothing)
    else Snapshot(SendingHeader, Head(code, msg, hs))
  }

  lemma CallAt(status: Option<Call>, hs: seq<Header>, datas: seq<bytes>, n: nat)
    requires (status.Some? ==> status.value.SendStatus?) && n < |CallsFor(status, hs, datas)|
    ensures var k := if status.Some? then 1 else 0;
      && |CallsFor(status, hs, datas)| == k + |hs| + |datas|
      && CallsFor(status, hs, datas)[n] ==
         if n < k then status.value
         else if n < k + |hs| then SendHeader(hs[n - k].field, hs[n - k].value)
         else Write(datas[n - k - |hs|])
  {
  }

  /** As far as the first `n` calls go. */
  ghost function ComposedTo(status: Option<Call>, hs: seq<Header>, datas: seq<bytes>, n: nat): Snapshot
    requires status.Some? ==> status.value.SendStatus?
    requires n <= |CallsFor(status, hs, datas)|
  {
    var k := if status.Some? then 1 else 0;
    if n < k then Composed(None, [], [])
    else if n <= k + |hs| then Composed(status, hs[..n - k], [])
    else Composed(status, hs, datas[..n - k - |hs|])
  }

  /** One more call: unless memory runs out it succeeds. */
  lemma ComposedStep(status: Option<Call>, hs: seq<Header>, datas: seq<bytes>, n: nat, err: Code, b: Snapshot)
    requires (status.Some? ==> status.value.SendStatus?) && n < |CallsFor(status, hs, datas)|
    requires Effect(CallsFor(status, hs, datas)[n], ComposedTo(status, hs, datas, n), err, b) && err != OutOfMem
    ensures err == Success && b == ComposedTo(status, hs, datas, n + 1)
  {
    hide CallsFor;
    CallAt(status, hs, datas, n);
    var k := if status.Some? then 1 else 0;
    if n < k {
      assert hs[..0] == [];
    } else if n < k + |hs| {
      HeaderStep(status, hs, n - k, err, b);
    } else {
      assert hs[..|hs|] == hs;
      WriteStep(status, hs, datas, n - k - |hs|, err, b);
    }
  }

  lemma HeaderStep(status: Option<Call>, hs: seq<Header>, i: nat, err: Code, b: Snapshot)
    requires (status.Some? ==> status.value.SendStatus?) && i < |hs| && err != OutOfMem
    requires Effect(SendHeader(hs[i].field, hs[i].value), Composed(status, hs[..i], []), err, b)
    ensures err == Success && b == Composed(status, hs[..i + 1], [])
  {
    assert hs[..i + 1] == hs[..i] + [hs[i]] && Header(hs[i].field, hs[i].value) == hs[i];
  }

  lemma WriteStep(status: Option<Call>, hs: seq<Header>, datas: seq<bytes>, i: nat, err: Code, b: Snapshot)
    requires (status.Some? ==> status.value.SendStatus?) && i < |datas| && err != OutOfMem
    requires Effect(Write(datas[i]), Composed(status, hs, datas[..i]), err, b)
    ensures err == Success && b == Composed(status, hs, datas[..i + 1])
  {
    JoinedStep(datas, i);
  }

  lemma JoinedStep(datas: seq<bytes>, i: nat)
    requires i < |datas|
    ensures BytesOf(datas[..i + 1]) == BytesOf(datas[..i]) + datas[i] && (i == 0 ==> BytesOf(datas[..i + 1]) == [] + datas[i])
  {
    assert datas[..i + 1][..i] == datas[..i];
  }

  lemma {:induction false} RunComposes(status: Option<Call>, hs: seq<Header>, datas: seq<bytes>, errs: seq<Code>, trace: seq<Snapshot>, n: nat)
    requires status.Some? ==> status.value.SendStatus?
    requires IsRun(CallsFor(status, hs, datas), errs, trace) && trace[0] == Snapshot(SendingStatus, Nothing) && OutOfMem !in errs
    requires n <= |errs|
    ensures trace[n] == ComposedTo(status, hs, datas, n) && forall i :: 0 <= i < n ==> errs[i] == Success
    decreases n
  {
    hide Effect, ComposedTo, CallsFor;
    if n == 0 {
      ComposedStarts(status, hs, datas);
    } else {
      RunComposes(status, hs, datas, errs, trace, n - 1);
      assert CallsFor(status, hs, datas)[n - 1] == CallsFor(status, hs, datas)[n - 1];
      ComposedStep(status, hs, datas, n - 1, errs[n - 1], trace[n]);
    }
  }

  lemma ComposedStarts(status: Option<Call>, hs: seq<Header>, datas: seq<bytes>)
    requires status.Some? ==> status.value.SendStatus?
    ensures ComposedTo(status, hs, datas, 0) == Snapshot(SendingStatus, Nothing)
  {
    assert hs[..0] == [];
  }

  lemma ComposedEnds(status: Option<Call>, hs: seq<Header>, datas: seq<bytes>)
    requires status.Some? ==> status.value.SendStatus?
    ensures ComposedTo(status, hs, datas, |CallsFor(status, hs, datas)|) == Composed(status, hs, datas)
  {
    assert hs[..|hs|] == hs && datas[..|datas|] == datas;
  }

  /**
   * A handler that sends a status line or none, headers and writes, in this order, and does not run out of memory, succeeds with
   * every call, and a client reads exactly what it sent: the status, `200 OK` if it sent none, its headers and its bytes.
   */
  lemma RunReads(status: Option<Call>, hs: seq<Header>, datas: seq<bytes>, errs: seq<Code>, trace: seq<Snapshot>)
    requires status.Some? ==> status.value.SendStatus? && OneLine(status.value.msg)
    requires (forall i :: 0 <= i < |hs| ==> CleanHeader(hs[i])) && (status.Some? || hs != [] || datas != [])
    requires IsRun(CallsFor(status, hs, datas), errs, trace) && trace[0] == Snapshot(SendingStatus, Nothing) && OutOfMem !in errs
    ensures forall i :: 0 <= i < |errs| ==> errs[i] == Success
    ensures var code, msg := if status.Some? then status.value.code else 200, if status.Some? then status.value.msg else "OK";
      Parse(Render(trace[|errs|].response)) == Some(if datas == [] then Head(code, msg, hs) else Full(code, msg, hs, BytesOf(datas)))
  {
    hide IsRun, Parse, Render, ComposedTo, CallsFor;
    RunComposes(status, hs, datas, errs, trace, |errs|);
    RunLength(status, hs, datas, errs, trace);
    ComposedEnds(status, hs, datas);
    ParseInvertsRender(trace[|errs|].response);
  }

  lemma RunLength(status: Option<Call>, hs: seq<Header>, datas: seq<bytes>, errs: seq<Code>, trace: seq<Snapshot>)
    requires IsRun(CallsFor(status, hs, datas), errs, trace)
    ensures |errs| == |CallsFor(status, hs, datas)| && |trace| == |errs| + 1
  {
  }

  /** A handler that only writes: the bytes on the wire. */
  lemma WriteAloneSends(data: bytes, err: Code, b: Snapshot)
    requires Effect(Write(data), Snapshot(SendingStatus, Nothing), err, b) && err != OutOfMem
    ensures err == Success && Render(b.response) == "HTTP/1.1 200 OK\r\n\r\n" + data
  {
    hide Decimal;
    Decimal200();
    assert [] + data == data;
    assert Render(b.response) == StatusText(200, "OK") + CRLF + [] + CRLF + data;
    assert StatusText(200, "OK") + CRLF + [] + CRLF == "HTTP/1.1 200 OK\r\n\r\n";
  }

  lemma Decimal200()
    ensures Decimal(200) == "200"
  {
    assert Decimal(2) == "2" && Decimal(20) == "20";
  }

  /** A handler that only sends a header. */
  lemma HeaderAloneReads(h: Header, err: Code, b: Snapshot)
    requires Effect(SendHeader(h.field, h.value), Snapshot(SendingStatus, Nothing), err, b) && err != OutOfMem && CleanHeader(h)
    ensures err == Success && Parse(Render(b.response)) == Some(Head(200, "OK", [h]))
  {
    hide Parse, Render;
    assert [] + [h] == [h] && Header(h.field, h.value) == h;
    ParseInvertsRender(b.response);
  }

  ghost function CodeOf(r: Response): int {
    if r.Nothing? then 200 else r.code
  }

  ghost function MessageOf(r: Response): bytes {
    if r.Nothing? then "OK" else r.msg
  }

  ghost function HeadersOf(r: Response): seq<Header> {
    if r.Nothing? then [] else r.headers
  }

  lemma FileBuilds(file: bytes, a: Snapshot, err: Code, b: Snapshot)
    requires Effect(SendFile(Some(file)), a, err, b) && err != OutOfMem && Fits(a.state, a.response)
    requires a.state == SendingStatus || a.state == SendingHeader
    ensures err == Success && b.response == Full(CodeOf(a.response), MessageOf(a.response), HeadersOf(a.response) + [LengthHeader(|file|)], file)
  {
    hide LengthHeader;
    assert [] + file == file;
  }

  /** A handler that sends a file, behind a status line or headers or not: the file is the body, its length the last header. */
  lemma FileReads(file: bytes, a: Snapshot, err: Code, b: Snapshot)
    requires Effect(SendFile(Some(file)), a, err, b) && err != OutOfMem && Clean(a.response) && Fits(a.state, a.response)
    requires a.state == SendingStatus || a.state == SendingHeader
    ensures err == Success
    ensures var length := Header("Content-Length", Decimal(|file| % 0x1_0000_0000));
      Parse(Render(b.response)) == Some(Full(CodeOf(a.response), MessageOf(a.response), HeadersOf(a.response) + [length], file))
  {
    hide Parse, Render, Decimal, CleanHeader, LengthHeader, Effect, OneLine, Fits;
    FileBuilds(file, a, err, b);
    LengthClean(|file|);
    OkIsClean();
    ParseInvertsRender(b.response);
  }

  lemma OkIsClean()
    ensures OneLine("OK")
  {
  }

  lemma LengthClean(size: nat)
    ensures LengthHeader(size) == Header("Content-Length", Decimal(size % 0x1_0000_0000)) && CleanHeader(LengthHeader(size))
  {
    hide Decimal;
    var name, d := "Content-Length", Decimal(size % 0x1_0000_0000);
    assert '\r' !in name && ':' !in name;
    forall i: nat ensures !CrLfAt(name, i) && !CrLfAt(d, i) {
      assert i < |name| ==> name[i] in name;
    }
  }

  /** Which calls are refused: those that come too early or too late, and, among those that do not, only a file that cannot be opened. */
  lemma RefusedExactly(call: Call, a: Snapshot, err: Code, b: Snapshot)
    requires Effect(call, a, err, b) && (call.SendFile? ==> call.file.Some?)
    ensures err == BadState <==>
            match call
            case SendStatus(_, _) => a.state != SendingStatus
            case SendHeader(_, _) => a.state !in {SendingStatus, SendingHeader}
            case SendFile(_) => a.state !in {SendingStatus, SendingHeader}
            case Write(_) => a.state !in {SendingStatus, SendingHeader, SendingData}
    ensures err == BadState ==> b == a
  {
  }

  /** Behind the status line come the headers and the body. */
  lemma ParseBehind(code: int, msg: bytes, rest: bytes)
    requires OneLine(msg)
    ensures Parse(StatusText(code, msg) + CRLF + rest) ==
            match ParseTail(rest)
            case None => None
            case Some(Tail(hs, None)) => Some(Head(code, msg, hs))
            case Some(Tail(hs, Some(body))) => Some(Full(code, msg, hs, body))
  {
    hide IsHttp, StatusText, ParseTail, Decimal;
    var line := StatusText(code, msg);
    var b, d := line + CRLF + rest, Decimal(code);
    StatusTextOneLine(code, msg);
    LineEndOf(line, rest);
    assert b[9..|line|] == line[9..];
    assert line[9..][..|d|] == d && line[9..][|d| + 1..] == msg;
    DecimalReads(code);
  }

  /** A client that reads the bytes of a response gets exactly the status, headers and body it was built from. */
  lemma ParseInvertsRender(r: Response)
    requires Clean(r)
    ensures Parse(Render(r)) == Some(r)
  {
    if r != Nothing {
      var body := if r.Full? then Some(r.body) else None;
      var rest := RenderHeaders(r.headers) + if r.Full? then CRLF + r.body else [];
      assert Render(r) == StatusText(r.code, r.msg) + CRLF + rest;
      hide Parse, Render, StatusText, RenderHeaders, ParseTail;
      ParseTailOf(r.headers, body);
      ParseBehind(r.code, r.msg, rest);
    }
  }
}
