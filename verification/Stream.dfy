/** A connection (`sb_Stream`): receiving a request, building the response, sending it piecemeal. */
module Stream {
  import opened Prelude
  import opened Codes
  import opened Buffer
  import opened Headers
  import opened Query
  import opened Response
  import opened Framing

  // ----- the request line -----

  /** End of a run of at most `max` bytes that are not white space. */
  function TokenEnd(s: bytes, p: nat, max: nat): (q: nat)
    requires p < |s| && s[|s| - 1] == NUL
    ensures p <= q < |s|
    decreases |s| - p
  {
    if max == 0 || s[p] == NUL || s[p] in SPACES then p else TokenEnd(s, p + 1, max - 1)
  }

  datatype RequestLine = RequestLine(verb: bytes, path: nat, version: bytes)

  /** `sscanf(s, "%15s %n%*s %15s")` with both conversions made. */
  function ScanRequestLine(s: bytes): (r: Option<RequestLine>)
    requires |s| > 0 && s[|s| - 1] == NUL
    ensures r.Some? ==> r.value.path < |s|
  {
    var a := Past(s, 0, SPACES);
    var b := TokenEnd(s, a, 15);
    var c := Past(s, b, SPACES);
    var d := TokenEnd(s, c, |s|);
    var e := Past(s, d, SPACES);
    var f := TokenEnd(s, e, 15);
    if a == b || c == d || e == f then None else Some(RequestLine(s[a..b], c, s[e..f]))
  }

  // ----- events and the handler -----

  datatype Event = Connect | Request(verb: bytes, path: bytes) | Close

  /** One run of the event handler: the calls it makes and what it returns. */
  datatype Script = Script(calls: seq<Call>, result: int)

  const RES_OK := 0
  const RES_CLOSE := 1

  /** What `recv` can return: data, would-block, or the end of the connection. */
  datatype Arrival = Data(chunk: bytes) | WouldBlock | Gone

  /** The bytes that arrive before the next would-block. */
  function Incoming(net: seq<Arrival>): bytes {
    if net == [] || !net[0].Data? then [] else net[0].chunk + Incoming(net[1..])
  }

  /** After the data that arrives the connection ends, rather than the socket running dry. */
  predicate HangsUp(net: seq<Arrival>) {
    net != [] && if net[0].Data? then HangsUp(net[1..]) else net[0].Gone?
  }

  ghost function DataOf(chunks: seq<bytes>): seq<Arrival> {
    seq(|chunks|, i requires 0 <= i < |chunks| => Data(chunks[i]))
  }

  /** What arrives are the chunks up to the first result that is none, all of them in order; that result says whether the peer is gone. */
  lemma {:induction false} ArrivalsMean(chunks: seq<bytes>, rest: seq<Arrival>)
    requires rest == [] || !rest[0].Data?
    ensures Incoming(DataOf(chunks) + rest) == Flatten(chunks)
    ensures HangsUp(DataOf(chunks) + rest) <==> rest != [] && rest[0].Gone?
    decreases |chunks|
  {
    var net := DataOf(chunks) + rest;
    if chunks == [] {
      assert net == rest;
    } else {
      assert net[0] == Data(chunks[0]) && net[1..] == DataOf(chunks[1..]) + rest;
      ArrivalsMean(chunks[1..], rest);
      FlattenCons(chunks);
    }
  }

  lemma {:induction false} FlattenCons(chunks: seq<bytes>)
    requires chunks != []
    ensures Flatten(chunks) == chunks[0] + Flatten(chunks[1..])
    decreases |chunks|
  {
    var n := |chunks| - 1;
    if n == 0 {
      assert chunks[..0] == [] && chunks[1..] == [];
      assert [] + chunks[0] == chunks[0] + [];
    } else {
      FlattenCons(chunks[..n]);
      assert chunks[..n][1..] == chunks[1..][..n - 1];
    }
  }

  /** The bytes that arrive in a row of polls. */
  function AllIncoming(nets: seq<seq<Arrival>>): bytes {
    if nets == [] then [] else AllIncoming(nets[..|nets| - 1]) + Incoming(nets[|nets| - 1])
  }

  /** Every header found in `d` ends its Content-Length search. */
  predicate Searchable(d: bytes) {
    forall n: nat | n <= |d| && BlankLineEnd(d, n) :: Halts(CText(d[..n]), CONTENT_LENGTH)
  }

  datatype File = File(contents: bytes, pos: nat)

  /** What a server sees of a stream: how far it has come and the events it has emitted. */
  datatype Life = Life(state: State, log: seq<Event>)

  /** One receive or send step: the state never goes back, and a request is emitted only by the step that completes it. */
  ghost predicate Lives(a: Life, b: Life) {
    && a.state.Rank() <= b.state.Rank()
    && (b.log == a.log
        || (a.state.Rank() < State.SendingStatus.Rank() <= b.state.Rank() && exists v, p :: b.log == a.log + [Request(v, p)]))
  }

  /** What `send` does with the bytes it is offered: takes at most so many, at least one; would block; or finds no one there. */
  datatype Socket = Takes(most: nat) | Blocks | Breaks

  predicate IsSocket(s: Socket) {
    s.Takes? ==> s.most > 0
  }

  /** All that a poll meets at one stream: whether its socket is ready, what that yields and takes, and the handler. */
  datatype Input = Input(ready: bool, net: seq<Arrival>, socket: Socket, script: Script)

  /** A stream at one moment; `ample` says that there is always memory for its buffers. */
  datatype Picture = Picture(state: State, log: seq<Event>, response: Response, wire: bytes, pending: bytes, file: Option<File>,
                             heard: bytes, expected: nat, dataIdx: nat, lastActivity: int, ample: bool)
  {
    ghost function Framer(): Progress {
      Progress(state, heard, expected, dataIdx)
    }

    ghost function View(): Snapshot {
      Snapshot(state, response)
    }

    /** Bytes that have been asked for and not yet been sent. */
    ghost function Unsent(): bytes {
      pending + UnreadOf(file)
    }
  }

  ghost function UnreadOf(file: Option<File>): bytes {
    if file.Some? && file.value.pos <= |file.value.contents| then file.value.contents[file.value.pos..] else []
  }

  /** The later picture continues the earlier: no state is left again, no event, no byte of the response or on the wire taken back. */
  ghost predicate Grows(a: Picture, b: Picture) {
    a.log <= b.log && a.wire <= b.wire && Continues(a.View(), b.View())
  }

  /** The handler makes its calls, all of them with their effect, and its result may close the stream. */
  ghost predicate ScriptRan(script: Script, a: Snapshot, b: Snapshot) {
    exists k: State :: RunsTo(script.calls, a, Snapshot(k, b.response)) && b.state == if script.result == RES_CLOSE then Closing else k
  }

  function ResultCode(result: int): Code {
    if result < 0 then Handler(result) else if result == RES_OK || result == RES_CLOSE then Success else BadResult
  }

  /** What a complete request leads to: its event and the handler's answer, or closing when it is none. */
  ghost predicate HandledStep(a: Picture, data: bytes, script: Script, err: Code, b: Picture) {
    match RequestOf(data)
    case None => err == Success && b.state == Closing && b.log == a.log && b.response == a.response
    case Some(e) =>
      b.log == a.log + [e] && err == ResultCode(script.result) && ScriptRan(script, Snapshot(State.SendingStatus, a.response), b.View())
  }

  /** The result of the handler decides: a negative one is passed on, 0 goes on, 1 closes, anything else is an error. */
  lemma HandlerDecides(a: Picture, data: bytes, script: Script, err: Code, b: Picture)
    requires HandledStep(a, data, script, err, b) && RequestOf(data).Some?
    ensures script.result < 0 ==> err == Handler(script.result)
    ensures script.result == 0 || script.result == 1 ==> err == Success
    ensures script.result > 1 ==> err == BadResult
    ensures script.result == 1 ==> b.state == Closing
    ensures script.result != 1 ==> RunsTo(script.calls, Snapshot(State.SendingStatus, a.response), b.View())
  {
    hide RunsTo, RequestOf;
  }

  /** What was held has been followed by some of the bytes that came in. */
  ghost predicate CameIn(before: bytes, came: bytes, after: bytes) {
    exists n: nat :: n <= |came| && after == before + came[..n]
  }

  /** Memory runs out with a byte that completes the header. */
  ghost function HeaderCut(f: Progress, c: byte): Progress {
    Progress(ReceivingRequest, f.data + [c], f.expected, f.dataIdx)
  }

  /** Where memory running out leaves the framer: behind `n` of the bytes that came, or in the middle of the next. */
  ghost predicate HaltedAt(a: Progress, came: bytes, n: nat, b: Progress) {
    n <= |came| && (b == Feed(a, came[..n]) || (n < |came| && b == HeaderCut(Feed(a, came[..n]), came[n])))
  }

  ghost predicate Halted(a: Progress, came: bytes, b: Progress) {
    exists n: nat :: HaltedAt(a, came, n, b)
  }

  /** One `sb_stream_recv`. */
  ghost predicate ReceiveStep(a: Picture, net: seq<Arrival>, script: Script, now: int, err: Code, b: Picture) {
    var f := Feed(a.Framer(), Incoming(net));
    && Grows(a, b) && b.wire == a.wire && CameIn(a.heard, Incoming(net), b.heard)
    && b.lastActivity == (if net != [] && net[0].Data? then now else a.lastActivity)
    && b.ample == a.ample && (a.ample ==> err != OutOfMem)
    && if err == OutOfMem then b.log == a.log && b.response == a.response && Halted(a.Framer(), Incoming(net), b.Framer())
       else
         && b.heard == f.data && b.expected == f.expected && b.dataIdx == f.dataIdx
         && if Receiving(f)
            then err == Success && b.log == a.log && b.response == a.response && b.state == if HangsUp(net) then Closing else f.state
            else HandledStep(a, f.data, script, err, b)
  }

  /** One `sb_stream_send`. A stream is closed for want of data only when everything has been sent. */
  ghost predicate SendStep(a: Picture, socket: Socket, now: int, err: Code, b: Picture) {
    && b.log == a.log && b.response == a.response && b.heard == a.heard && b.expected == a.expected && b.dataIdx == a.dataIdx
    && b.ample == a.ample && (a.ample ==> err == Success)
    && b.wire + b.Unsent() == a.wire + a.Unsent() && a.wire <= b.wire
    && (err == Success || (err == OutOfMem && a.pending == [] && a.file.Some? && b == a))
    && (err == Success ==>
          && b.state == (if (a.pending == [] && a.file.None?) || (a.Unsent() != [] && socket.Breaks?) then Closing else a.state)
          && (if a.Unsent() != [] && socket.Takes? then a.wire < b.wire && b.lastActivity == now
              else b.wire == a.wire && b.lastActivity == a.lastActivity)
          && (a.pending != [] && socket.Takes? ==>
                b.wire == a.wire + if socket.most < |a.pending| then a.pending[..socket.most] else a.pending)
          && (a.file.Some? && a.Unsent() == [] ==> b.file == None))
  }

  /** What a poll does to one stream, up to the checks of its age and size. */
  ghost predicate PollStep(a: Picture, input: Input, now: int, err: Code, b: Picture) {
    if !input.ready then err == Success && b == a
    else if a.state.Rank() < State.SendingStatus.Rank() then ReceiveStep(a, input.net, input.script, now, err, b)
    else SendStep(a, input.socket, now, err, b)
  }

  /** The event for a complete request: its method, the decoded target, if the line says HTTP. */
  ghost function RequestOf(data: bytes): (e: Option<Event>)
    ensures e.Some? ==> e.value.Request?
  {
    var mem := data + [NUL];
    var line := ScanRequestLine(mem);
    if line.None? || !Matches(line.value.version, 0, "HTTP") then None
    else Some(Request(line.value.verb, PathText(mem, line.value.path)))
  }

  class Stream {
    var state: State
    const recvBuf: Buffer
    const sendBuf: Buffer
    var sendFp: Option<File>
    var expectedRecvLen: nat
    var dataIdx: nat
    ghost var wire: bytes  // all bytes `send` has accepted
    ghost var response: Response  // what the handler has asked for
    ghost var log: seq<Event>
    ghost const id: nat  // which of the accepted sockets this is
    const initTime: int
    var lastActivity: int
    var next: Stream?

    /** All objects the stream owns. */
    ghost function Repr(): set<object>
      reads recvBuf`s, sendBuf`s
    {
      {this, recvBuf, sendBuf, recvBuf.s, sendBuf.s}
    }

    ghost function Lived(): Life
      reads this`state, this`log
    {
      Life(state, log)
    }

    ghost function Unread(): bytes
      reads this`sendFp
    {
      UnreadOf(sendFp)
    }

    ghost function Look(): Picture
      reads this`state, this`log, this`response, this`wire, this`sendFp, this`expectedRecvLen, this`dataIdx, this`lastActivity
      reads recvBuf, sendBuf, recvBuf.s, sendBuf.s
    {
      Picture(state, log, response, wire, Held(sendBuf), sendFp, Held(recvBuf), expectedRecvLen, dataIdx, lastActivity,
              recvBuf.ample && sendBuf.ample)
    }

    /** Sent, pending and unread bytes together are the response built so far, in order. */
    ghost predicate Valid()
      reads this`state, this`sendFp, this`wire, this`response, recvBuf, sendBuf, recvBuf.s, sendBuf.s
    {
      && recvBuf != sendBuf && recvBuf.s != sendBuf.s
      && recvBuf.Valid() && sendBuf.Valid()
      && (sendFp.Some? ==> sendFp.value.pos <= |sendFp.value.contents| && (state == SendingFile || state == Closing))
      && Fits(state, response)
      && wire + sendBuf.Contents() + Unread() == Render(response)
    }

    ghost function View(): Snapshot
      reads this
    {
      Snapshot(state, response)
    }

    ghost function Received(): Progress
      requires recvBuf.len <= recvBuf.s.Length
      reads this, recvBuf, recvBuf.s
    {
      Progress(state, recvBuf.Contents(), expectedRecvLen, dataIdx)
    }

    /** `sb_stream_new` */
    constructor (ghost id: nat, now: int, ample: bool)
      ensures Valid() && fresh(recvBuf) && fresh(sendBuf) && fresh(recvBuf.s) && fresh(sendBuf.s)
      ensures Received() == START && wire == [] && response == Nothing && log == [] && sendFp == None
      ensures this.id == id && initTime == lastActivity == now && next == null && recvBuf.ample == sendBuf.ample == ample
    {
      this.id, initTime, lastActivity, next := id, now, now, null;
      state := ReceivingHeader;
      recvBuf := new Buffer(ample);
      sendBuf := new Buffer(ample);
      sendFp, expectedRecvLen, dataIdx := None, 0, 0;
      wire, response, log := [], Nothing, [];
    }

    // ----- writing the response -----

    /** `sb_buffer_push_str` on the send buffer; on success the response has become `next`. */
    method Push(text: bytes, to: State, ghost next: Response) returns (err: Code)
      requires Valid() && sendFp == None && Fits(to, next) && Render(next) == Render(response) + text
      modifies this`state, this`response, sendBuf, sendBuf.s
      ensures Valid() && (sendBuf.s == old(sendBuf.s) || fresh(sendBuf.s))
      ensures if err == Success then View() == Snapshot(to, next) else err == OutOfMem && !sendBuf.ample && View() == old(View())
    {
      hide PowerOfTwo, Render, Fits;
      ghost var before := sendBuf.Contents();
      assert wire + before + [] == wire + before;
      err := sendBuf.PushStr(text);
      if err != Success { return; }
      Assoc(wire, before, text);
      state, response := to, next;
      assert wire + sendBuf.Contents() + [] == Render(next);
    }

    /** `sb_buffer_writef` on the send buffer; on success the response has become `next`. */
    method Pushf(fmt: bytes, args: seq<Arg>, to: State, ghost next: Response) returns (err: Code)
      requires Valid() && sendFp == None && Fits(to, next)
      requires FormatOk(fmt, args) && Render(next) == Render(response) + Expand(fmt, args)
      modifies this`state, this`response, sendBuf, sendBuf.s
      ensures Valid() && (sendBuf.s == old(sendBuf.s) || fresh(sendBuf.s))
      ensures if err == Success then View() == Snapshot(to, next) else err == OutOfMem && !sendBuf.ample && View() == old(View())
    {
      hide PowerOfTwo, Expand, FormatOk, Render;
      ghost var before := sendBuf.Contents();
      assert wire + before + [] == wire + before;
      err := sendBuf.Writef(fmt, args);
      if err != Success { return; }
      Assoc(wire, before, Expand(fmt, args));
      state, response := to, next;
      assert wire + sendBuf.Contents() + [] == Render(next);
    }

    method SendStatus(code: int, msg: bytes) returns (err: Code)
      requires Valid()
      modifies this`state, this`response, sendBuf, sendBuf.s
      ensures Valid() && (sendBuf.s == old(sendBuf.s) || fresh(sendBuf.s))
      ensures Effect(Call.SendStatus(code, msg), old(View()), err, View())
      ensures sendBuf.ample ==> err != OutOfMem
    {
      if state != State.SendingStatus { return BadState; }
      StatusFormat(code, msg);
      err := Pushf(STATUS_FORMAT, [Int(code), Str(msg)], State.SendingHeader, Head(code, msg, []));
    }

    /** Adds the default status line when there is none yet. */
    method EnsureStatus() returns (err: Code)
      requires Valid() && state.Rank() <= State.SendingHeader.Rank()
      modifies this`state, this`response, sendBuf, sendBuf.s
      ensures Valid() && (sendBuf.s == old(sendBuf.s) || fresh(sendBuf.s))
      ensures old(state).Rank() < State.SendingStatus.Rank() ==> err == BadState
      ensures err == Success ==> View() == Snapshot(State.SendingHeader, WithStatus(old(response)))
      ensures err == Success || (View() == old(View()) && ((err == OutOfMem && !sendBuf.ample) || old(state).Rank() < State.SendingStatus.Rank()))
    {
      if state.Rank() < State.SendingHeader.Rank() {
        err := SendStatus(200, "OK");
      } else {
        err := Success;
      }
    }

    method SendHeader(field: bytes, value: bytes) returns (err: Code)
      requires Valid()
      modifies this`state, this`response, sendBuf, sendBuf.s
      ensures Valid() && (sendBuf.s == old(sendBuf.s) || fresh(sendBuf.s))
      ensures Effect(Call.SendHeader(field, value), old(View()), err, View())
      ensures sendBuf.ample ==> err != OutOfMem
    {
      if state.Rank() > State.SendingHeader.Rank() { return BadState; }
      ghost var a := View();
      err := EnsureStatus();
      if err != Success { return; }
      assert response == WithStatus(a.response) && StoppedAt(a, View(), response);
      ghost var h := Header(field, value);
      HeaderAppends(response, h);
      HeaderFormat(h);
      err := Pushf(HEADER_FORMAT, [Str(field), Str(value)], state, WithHeader(response, h));
    }

    method FinalizeHeader() returns (err: Code)
      requires Valid() && state.Rank() <= State.SendingHeader.Rank()
      modifies this`state, this`response, sendBuf, sendBuf.s
      ensures Valid() && (sendBuf.s == old(sendBuf.s) || fresh(sendBuf.s))
      ensures old(state).Rank() < State.SendingStatus.Rank() ==> err == BadState && View() == old(View())
      ensures old(state).Rank() >= State.SendingStatus.Rank() ==>
                || (err == Success && View() == Snapshot(State.SendingData, Finished(old(response))))
                || (err == OutOfMem && !sendBuf.ample && StoppedAt(old(View()), View(), old(response)))
                || (err == OutOfMem && !sendBuf.ample && StoppedAt(old(View()), View(), WithStatus(old(response))))
    {
      err := EnsureStatus();
      if err != Success { return; }
      FinishAppends(response);
      err := Push(CRLF, State.SendingData, Finished(response));
    }

    /** `sb_write` */
    method Write(data: bytes) returns (err: Code)
      requires Valid()
      modifies this`state, this`response, sendBuf, sendBuf.s
      ensures Valid() && (sendBuf.s == old(sendBuf.s) || fresh(sendBuf.s))
      ensures Effect(Call.Write(data), old(View()), err, View())
      ensures sendBuf.ample ==> err != OutOfMem
    {
      hide PowerOfTwo, Render;
      if state.Rank() < State.SendingData.Rank() {
        err := FinalizeHeader();
        if err != Success { return; }
      }
      if state != State.SendingData { return BadState; }
      BodyAppends(response, data);
      err := Push(data, state, WithBody(response, data));
    }

    /** `sb_send_file` on a file with these contents; None when it cannot be opened. */
    method SendFile(file: Option<bytes>) returns (err: Code)
      requires Valid()
      modifies this`state, this`response, this`sendFp, sendBuf, sendBuf.s
      ensures Valid() && (sendBuf.s == old(sendBuf.s) || fresh(sendBuf.s))
      ensures Effect(Call.SendFile(file), old(View()), err, View())
      ensures sendBuf.ample ==> err != OutOfMem
    {
      if state.Rank() > State.SendingHeader.Rank() { return BadState; }
      if file.None? { return CantOpen; }
      ghost var a := View();
      var h := LengthHeader(|file.value|);
      err := SendHeader(h.field, h.value);
      if err != Success {
        FileHeaderFailed(file.value, a, err, View());
        return;
      }
      ghost var m := View();
      FileHeaderDone(file.value, a, m);
      err := FinalizeHeader();
      if err != Success { return; }
      AttachFile(file.value);
    }

    /** Hands the rewound file to the stream. */
    method AttachFile(contents: bytes)
      requires Valid() && state == State.SendingData && sendFp == None
      modifies this`state, this`response, this`sendFp
      ensures Valid() && View() == Snapshot(State.SendingFile, WithBody(old(response), contents))
    {
      BodyAppends(response, contents);
      assert wire + sendBuf.Contents() + [] == wire + sendBuf.Contents();
      assert contents[0..] == contents;
      sendFp := Some(File(contents, 0));
      state, response := State.SendingFile, WithBody(response, contents);
    }

    // ----- sending -----

    /** `sb_stream_send`. Only when everything has been sent is the stream closed for want of data. */
    method Send(socket: Socket, now: int) returns (err: Code)
      requires Valid() && IsSocket(socket)
      modifies this`state, this`sendFp, this`wire, this`lastActivity, sendBuf, sendBuf.s
      ensures Valid() && (sendBuf.s == old(sendBuf.s) || fresh(sendBuf.s))
      ensures SendStep(old(Look()), socket, now, err, Look())
      ensures state == Closing && old(state) != Closing && !socket.Breaks? ==> wire == Render(response)
    {
      hide PowerOfTwo, Render, SendStep;
      ghost var a := Look();
      if sendBuf.len == 0 {
        var ready;
        err, ready := Refill();
        if !ready {
          NothingSent(a, socket, now, err, Look());
          return;
        }
      }
      ghost var m := Look();
      SendPending(socket, now);
      SendsPending(a, m, socket, now, Look());
      return Success;
    }

    /** With an empty send buffer: the next piece of the file is read, or the file is at its end, or there is nothing left to send. */
    method Refill() returns (err: Code, ready: bool)
      requires Valid() && sendBuf.len == 0
      modifies this`state, this`sendFp, sendBuf, sendBuf.s
      ensures Valid() && (sendBuf.s == old(sendBuf.s) || fresh(sendBuf.s))
      ensures ready ==> err == Success && sendBuf.len > 0 && old(sendFp).Some? && Look().Unsent() == old(Look()).Unsent()
      ensures ready ==> Look() == old(Look()).(pending := Look().pending, file := Look().file)
      ensures !ready && err == Success ==>
                && wire == Render(response)
                && if old(sendFp).None? then Look() == old(Look()).(state := Closing)
                   else old(Look()).Unsent() == [] && Look() == old(Look()).(file := None)
      ensures err != Success ==> !ready && err == OutOfMem && !sendBuf.ample && old(sendFp).Some? && Look() == old(Look())
    {
      hide PowerOfTwo, Render;
      assert sendBuf.Contents() == [];
      if sendFp.None? {
        state := Closing;
        assert wire + sendBuf.Contents() + Unread() == wire;
        return Success, false;
      }
      PowerOfTwo8192();
      err := sendBuf.Reserve(8192);
      if err != Success { return err, false; }
      var atEnd := ReadFile();
      return Success, !atEnd;
    }

    /** Behind `send_data`: the socket takes some of what is pending, would block, or is gone. */
    method SendPending(socket: Socket, now: int)
      requires Valid() && IsSocket(socket) && sendBuf.len > 0
      modifies this`state, this`wire, this`lastActivity, sendBuf, sendBuf.s
      ensures Valid() && sendBuf.s == old(sendBuf.s)
      ensures state == if socket.Breaks? then Closing else old(state)
      ensures lastActivity == if socket.Takes? then now else old(lastActivity)
      ensures var n := if !socket.Takes? then 0 else if socket.most < old(sendBuf.len) then socket.most else old(sendBuf.len);
        wire == old(wire) + old(sendBuf.Contents())[..n] && sendBuf.Contents() == old(sendBuf.Contents())[n..]
    {
      hide PowerOfTwo, Render;
      match socket {
        case Blocks =>
        case Breaks => state := Closing;
        case Takes(most) =>
          var sz := if most < sendBuf.len then most else sendBuf.len;
          ghost var pending := sendBuf.Contents();
          sendBuf.Shift(sz);
          SentPart(wire, pending, Unread(), sz);
          wire := wire + pending[..sz];
          lastActivity := now;
      }
    }

    /** Fills the empty send buffer from the file; at the end of the file closes it. */
    method ReadFile() returns (atEnd: bool)
      requires Valid() && sendFp.Some? && sendBuf.len == 0 && sendBuf.s.Length >= 8192
      modifies this`sendFp, sendBuf, sendBuf.s
      ensures Valid() && sendBuf.s == old(sendBuf.s)
      ensures atEnd == (sendBuf.len == 0) == (old(Unread()) == []) && (atEnd ==> wire == Render(response) && sendFp == None)
      ensures sendBuf.Contents() + Unread() == old(Unread())
    {
      hide PowerOfTwo, Render;
      var fp := sendFp.value;
      var left := |fp.contents| - fp.pos;
      var n := if left < sendBuf.s.Length then left else sendBuf.s.Length;
      ReadPart(wire, fp.contents, fp.pos, n);
      assert wire + sendBuf.Contents() + Unread() == wire + fp.contents[fp.pos..];
      sendBuf.Load(fp.contents[fp.pos..fp.pos + n]);
      if n > 0 {
        sendFp := Some(File(fp.contents, fp.pos + n));
        return false;
      }
      sendFp := None;
      return true;
    }

    /** What a client has read is a prefix of the response, and after the last byte reads back as it was built. */
    lemma OnTheWire()
      requires Valid()
      ensures wire <= Render(response)
      ensures wire == Render(response) && Clean(response) ==> Parse(wire) == Some(response)
    {
      Assoc(wire, sendBuf.Contents(), Unread());
      if Clean(response) {
        ParseInvertsRender(response);
      }
    }

    // ----- the event handler -----

    /** The handler makes its calls, whatever they return. */
    method RunCalls(calls: seq<Call>) returns (errs: seq<Code>)
      requires Valid()
      modifies this`state, this`response, this`sendFp, sendBuf, sendBuf.s
      ensures Valid() && (sendBuf.s == old(sendBuf.s) || fresh(sendBuf.s))
      ensures exists trace :: GoodRun(calls, errs, trace) && trace[0] == old(View()) && trace[|calls|] == View()
      ensures RunsTo(calls, old(View()), View())
    {
      hide Effect, Render, Fits;
      errs := [];
      ghost var trace := [View()];
      var i := 0;
      while i < |calls|
        invariant i <= |calls| == |calls| && |errs| == i && |trace| == i + 1
        invariant Valid() && (sendBuf.s == old(sendBuf.s) || fresh(sendBuf.s))
        invariant trace[0] == old(View()) && trace[i] == View()
        invariant forall j {:trigger calls[j]} :: 0 <= j < i ==> Effect(calls[j], trace[j], errs[j], trace[j + 1])
      {
        var err := MakeCall(calls[i]);
        errs, trace := errs + [err], trace + [View()];
        i := i + 1;
      }
      assert GoodRun(calls, errs, trace);
    }

    method MakeCall(call: Call) returns (err: Code)
      requires Valid()
      modifies this`state, this`response, this`sendFp, sendBuf, sendBuf.s
      ensures Valid() && (sendBuf.s == old(sendBuf.s) || fresh(sendBuf.s))
      ensures Effect(call, old(View()), err, View())
      ensures sendBuf.ample ==> err != OutOfMem
    {
      match call {
        case SendStatus(code, msg) => err := SendStatus(code, msg);
        case SendHeader(f, v) => err := SendHeader(f, v);
        case SendFile(file) => err := SendFile(file);
        case Write(data) => err := Write(data);
      }
    }

    /** `sb_stream_emit` */
    method Emit(e: Event, script: Script) returns (err: Code)
      requires Valid()
      modifies this`state, this`response, this`sendFp, this`log, sendBuf, sendBuf.s
      ensures Valid() && (sendBuf.s == old(sendBuf.s) || fresh(sendBuf.s))
      ensures log == old(log) + [e] && Continues(old(View()), View()) && ScriptRan(script, old(View()), View())
      ensures script.result == RES_CLOSE ==> state == Closing
      ensures err == ResultCode(script.result)
    {
      hide RunsTo, GoodRun, Continues, Render;
      log := log + [e];
      ghost var a := View();
      var errs := RunCalls(script.calls);
      RunsToContinues(script.calls, a, View());
      ghost var k := state;
      assert RunsTo(script.calls, a, Snapshot(k, response));
      if script.result < 0 { return Handler(script.result); }
      if script.result == RES_CLOSE {
        state := Closing;
        StillContinues(a, Snapshot(k, response));
        return Success;
      }
      return if script.result == RES_OK then Success else BadResult;
    }

    // ----- receiving -----

    /** A request is being received. */
    ghost predicate Listening()
      reads this`state, recvBuf
    {
      recvBuf.Valid() && (state == ReceivingHeader || state == ReceivingRequest)
    }

    /** The header has just been completed: looks for its Content-Length. */
    method HeaderReceived() returns (err: Code, complete: bool)
      requires recvBuf.Valid() && Halts(CText(recvBuf.Contents()), CONTENT_LENGTH)
      modifies this`expectedRecvLen, this`dataIdx, recvBuf, recvBuf.s
      ensures recvBuf.Valid() && (recvBuf.s == old(recvBuf.s) || fresh(recvBuf.s))
      ensures recvBuf.Contents() == old(recvBuf.Contents())
      ensures err == Success || (err == OutOfMem && !recvBuf.ample)
      ensures err == OutOfMem ==> expectedRecvLen == old(expectedRecvLen) && dataIdx == old(dataIdx)
      ensures err == Success ==>
                match ContentLength(recvBuf.Contents())
                case None => complete && expectedRecvLen == old(expectedRecvLen) && dataIdx == old(dataIdx)
                case Some(n) => !complete && dataIdx == recvBuf.len && expectedRecvLen == recvBuf.len + n
    {
      complete := false;
      err := recvBuf.NullTerminate();
      if err != Success { return; }
      var length := ReadContentLength(recvBuf.s[..recvBuf.len]);
      if length.Some? {
        expectedRecvLen := recvBuf.len + length.value;
        dataIdx := recvBuf.len;
      } else {
        complete := true;
      }
    }

    /** One byte of the loop in `sb_stream_recv`: the framer takes it, unless memory runs out on the way. */
    method TakeByte(c: byte) returns (err: Code)
      requires Listening() && Searchable(recvBuf.Contents() + [c])
      modifies this`state, this`expectedRecvLen, this`dataIdx, recvBuf, recvBuf.s
      ensures recvBuf.Valid() && (recvBuf.s == old(recvBuf.s) || fresh(recvBuf.s))
      ensures err == Success || (err == OutOfMem && !recvBuf.ample)
      ensures state.Rank() >= old(state).Rank()
      ensures err == Success ==> Received() == Take(old(Received()), c)
      ensures err == OutOfMem ==> Listening() && Kept(old(recvBuf.Contents()), [c])
      ensures err == OutOfMem ==> Received() == old(Received()) || Received() == HeaderCut(old(Received()), c)
    {
      hide PowerOfTwo, Halts, CText, ContentLength;
      ghost var before := recvBuf.Contents();
      err := recvBuf.PushChar(c);
      if err != Success {
        assert before == before + [c][..0];
        return;
      }
      assert [c][..1] == [c];
      var complete := false;
      if state == ReceivingHeader && BlankLineEnd(recvBuf.s[..recvBuf.len], recvBuf.len) {
        state := ReceivingRequest;
        ghost var d := recvBuf.Contents();
        assert d[..|d|] == d;
        err, complete := HeaderReceived();
        if err != Success { return; }
      }
      if complete || expectedRecvLen == recvBuf.len {
        state := State.SendingStatus;
      }
    }

    /** The receive buffer holds what it held and some of the bytes that came in. */
    ghost predicate Kept(before: bytes, came: bytes)
      requires recvBuf.len <= recvBuf.s.Length
      reads this, recvBuf, recvBuf.s
    {
      CameIn(before, came, recvBuf.Contents())
    }

    /** The bytes of one `recv`, up to the end of the request. */
    method TakeChunk(chunk: bytes) returns (err: Code)
      requires Listening() && Searchable(recvBuf.Contents() + chunk)
      modifies this`state, this`expectedRecvLen, this`dataIdx, recvBuf, recvBuf.s
      ensures recvBuf.Valid() && (recvBuf.s == old(recvBuf.s) || fresh(recvBuf.s))
      ensures err == Success || (err == OutOfMem && !recvBuf.ample)
      ensures if err == Success then Received() == Feed(old(Received()), chunk) else Listening() && Halted(old(Received()), chunk, Received())
      ensures (Listening() || state == State.SendingStatus) && state.Rank() >= old(state).Rank()
      ensures Kept(old(recvBuf.Contents()), chunk)
    {
      hide Feed, FedTo, Searchable, PowerOfTwo, Halted, HeaderCut, Kept, CameIn;
      ghost var start := Received();
      NothingFed(start, chunk);
      var i := 0;
      while i < |chunk|
        invariant state.Rank() >= old(state).Rank()
        invariant i <= |chunk| && Listening() && (recvBuf.s == old(recvBuf.s) || fresh(recvBuf.s))
        invariant Received() == FedTo(start, chunk, i)
      {
        NextByte(start, chunk, i);
        err := TakeByte(chunk[i]);
        if err != Success {
          HaltedInside(start, chunk, i);
          return;
        }
        i := i + 1;
        if state == State.SendingStatus { break; }
      }
      ChunkFed(start, chunk, i);
      return Success;
    }

    /** Memory ran out at byte `i`. */
    lemma HaltedInside(start: Progress, chunk: bytes, i: nat)
      requires recvBuf.len <= recvBuf.s.Length && i < |chunk| && Receiving(FedTo(start, chunk, i))
      requires Kept(FedTo(start, chunk, i).data, [chunk[i]])
      requires Received() == FedTo(start, chunk, i) || Received() == HeaderCut(FedTo(start, chunk, i), chunk[i])
      ensures Kept(start.data, chunk) && Halted(start, chunk, Received())
    {
      hide Feed, HeaderCut;
      FeedKeeps(start, chunk[..i]);
      KeptMore(start.data, chunk, i);
      assert HaltedAt(start, chunk, i, Received());
    }

    /** Nothing went wrong up to byte `i`, where the chunk or the request ends. */
    lemma ChunkFed(start: Progress, chunk: bytes, i: nat)
      requires recvBuf.len <= recvBuf.s.Length && i <= |chunk| && Receiving(start) && Received() == FedTo(start, chunk, i)
      requires i == |chunk| || Feed(start, chunk) == FedTo(start, chunk, i)
      ensures Received() == Feed(start, chunk) && Kept(start.data, chunk) && (Receiving(Received()) || state == State.SendingStatus)
    {
      hide Feed;
      assert i == |chunk| ==> chunk[..i] == chunk;
      FeedStates(start, chunk);
      FeedTakesPrefix(start, chunk);
    }

    lemma KeptMore(before: bytes, came: bytes, i: nat)
      requires recvBuf.len <= recvBuf.s.Length && i < |came|
      requires Kept(before + came[..i], [came[i]])
      ensures Kept(before, came)
    {
      var n: nat :| n <= 1 && recvBuf.Contents() == before + came[..i] + [came[i]][..n];
      assert recvBuf.Contents() == before + came[..i + n];
    }

    /** The part of `sb_stream_recv` behind `handle_request`. */
    method HandleRequest(script: Script) returns (err: Code)
      requires Valid() && state == State.SendingStatus
      modifies this`state, this`response, this`sendFp, this`log, recvBuf, recvBuf.s, sendBuf, sendBuf.s
      ensures Valid() && (sendBuf.s == old(sendBuf.s) || fresh(sendBuf.s)) && (recvBuf.s == old(recvBuf.s) || fresh(recvBuf.s))
      ensures recvBuf.Contents() == old(recvBuf.Contents())
      ensures state.Rank() >= State.SendingStatus.Rank()
      ensures err == OutOfMem ==> !recvBuf.ample && View() == old(View()) && log == old(log)
      ensures err != OutOfMem ==> Handled(old(log), recvBuf.Contents())
      ensures err != OutOfMem ==> HandledStep(old(Look()), recvBuf.Contents(), script, err, Look())
      ensures Continues(old(View()), View())
    {
      hide Render, PathText, ScanRequestLine, PowerOfTwo, ScriptRan;
      ghost var a := View();
      err := recvBuf.NullTerminate();
      SameContinues(a, View());
      if err != Success { return; }
      var mem := recvBuf.s[..recvBuf.len + 1];
      assert mem == recvBuf.Contents() + [NUL];
      var line := ScanRequestLine(mem);
      if line.None? || !Matches(line.value.version, 0, "HTTP") {
        state := Closing;
        SameContinues(a, View());
        return Success;
      }
      var path := DecodePath(mem, line.value.path);
      err := Emit(Request(line.value.verb, path), script);
    }

    /** The request `data` has been handed to the handler, or has no proper request line and the stream is closing. */
    ghost predicate Handled(before: seq<Event>, data: bytes)
      reads this`state, this`log
    {
      match RequestOf(data)
      case None => state == Closing && log == before
      case Some(e) => log == before + [e]
    }

    /** The bytes of one more `recv`, behind those `done` since `start`; what comes after them is `rest`. */
    method TakeNext(chunk: bytes, now: int, ghost start: Progress, ghost done: bytes, ghost rest: bytes) returns (err: Code)
      requires Listening() && Received() == Feed(start, done) && Searchable(start.data + (done + (chunk + rest)))
      modifies this`state, this`expectedRecvLen, this`dataIdx, this`lastActivity, recvBuf, recvBuf.s
      ensures recvBuf.Valid() && (recvBuf.s == old(recvBuf.s) || fresh(recvBuf.s)) && lastActivity == now
      ensures err == Success || (err == OutOfMem && !recvBuf.ample)
      ensures if err == Success then Received() == Feed(start, done + chunk)
              else Listening() && Kept(start.data, done + (chunk + rest)) && Halted(start, done + (chunk + rest), Received())
      ensures (Listening() || state == State.SendingStatus) && state.Rank() >= old(state).Rank()
    {
      hide Feed, Searchable, PowerOfTwo, Kept, Halted;
      lastActivity := now;
      NextChunk(start, done, chunk, rest);
      err := TakeChunk(chunk);
      if err != Success {
        KeptChunk(start.data, done, chunk, rest);
        HaltedChunk(start, done, chunk, rest, Received());
      }
    }

    /** The receive loop: `k` is where it stopped for want of data. */
    method TakeAll(net: seq<Arrival>, now: int) returns (err: Code, k: nat)
      requires Listening() && Searchable(recvBuf.Contents() + Incoming(net))
      modifies this`state, this`expectedRecvLen, this`dataIdx, this`lastActivity, recvBuf, recvBuf.s
      ensures recvBuf.Valid() && (recvBuf.s == old(recvBuf.s) || fresh(recvBuf.s))
      ensures err == Success || (err == OutOfMem && !recvBuf.ample)
      ensures if err == Success then Received() == Feed(old(Received()), Incoming(net))
              else Listening() && Halted(old(Received()), Incoming(net), Received())
      ensures (Listening() || state == State.SendingStatus) && state.Rank() >= old(state).Rank()
      ensures Kept(old(recvBuf.Contents()), Incoming(net))
      ensures lastActivity == if net != [] && net[0].Data? then now else old(lastActivity)
      ensures err == Success && Listening() ==> (HangsUp(net) <==> k < |net| && net[k].Gone?)
    {
      ghost var start, all, done: bytes := Received(), Incoming(net), [];
      assert Feed(start, done) == start;
      FromStart(net);
      hide Feed, Searchable, Incoming, HangsUp, IncomingFrom, HangsUpFrom, PowerOfTwo, Kept, CameIn, Take, Halts, ContentLength, Halted;
      k := 0;
      while k < |net| && net[k].Data?
        invariant k <= |net| && all == done + IncomingFrom(net, k) && HangsUp(net) == HangsUpFrom(net, k)
        invariant Listening() && (recvBuf.s == old(recvBuf.s) || fresh(recvBuf.s))
        invariant Received() == Feed(start, done) && state.Rank() >= old(state).Rank()
        invariant if k > 0 then net[0].Data? && lastActivity == now else lastActivity == old(lastActivity)
      {
        var chunk := net[k].chunk;
        ghost var rest := IncomingFrom(net, k + 1);
        IncomingStep(net, k);
        Assoc(done, chunk, rest);
        err := TakeNext(chunk, now, start, done, rest);
        if err != Success { return; }
        done := done + chunk;
        k := k + 1;
        if state == State.SendingStatus { break; }
      }
      HangsUpNow(net, k);
      StopsHere(start, all, done, IncomingFrom(net, k));
      err := Success;
    }

    /** `sb_stream_recv`: takes what arrives, up to the end of the request, and handles the request. */
    method Recv(net: seq<Arrival>, script: Script, now: int) returns (err: Code)
      requires Valid() && Listening() && Searchable(recvBuf.Contents() + Incoming(net))
      modifies this`state, this`response, this`sendFp, this`log, this`expectedRecvLen, this`dataIdx, this`lastActivity
      modifies recvBuf, recvBuf.s, sendBuf, sendBuf.s
      ensures Valid() && (sendBuf.s == old(sendBuf.s) || fresh(sendBuf.s)) && (recvBuf.s == old(recvBuf.s) || fresh(recvBuf.s))
      ensures Kept(old(recvBuf.Contents()), Incoming(net))
      ensures Lives(old(Lived()), Lived()) && (recvBuf.ample ==> err != OutOfMem)
      ensures ReceiveStep(old(Look()), net, script, now, err, Look())
      ensures lastActivity == if net != [] && net[0].Data? then now else old(lastActivity)
      ensures err != OutOfMem ==>
                var f := Feed(old(Received()), Incoming(net));
                && recvBuf.Contents() == f.data && expectedRecvLen == f.expected && dataIdx == f.dataIdx
                && if Receiving(f) then log == old(log) && state == (if HangsUp(net) then Closing else f.state)
                else state.Rank() >= State.SendingStatus.Rank() && Handled(old(log), f.data)
    {
      hide Feed, Render, Incoming, Searchable, RequestOf, PowerOfTwo, HangsUp, ReceiveStep, HandledStep, Continues, CameIn, Halted;
      ghost var a := Look();
      var k: nat;
      err, k := TakeAll(net, now);
      ghost var m := Look();
      SameContinues(a.View(), m.View());
      if err != Success {
        MemoryRanOut(a, net, script, now, m);
        return;
      }
      if state == State.SendingStatus {
        HaltedAtEnd(a.Framer(), Incoming(net));
        err := HandleRequest(script);
        RequestCame(a, m, net, script, now, err, Look());
      } else {
        if k < |net| && net[k].Gone? {
          state := Closing;
          SameContinues(a.View(), View());
        }
        StillReceiving(a, net, script, now, Look());
      }
    }

    /** The stream has heard `heard`: the framer is where that puts it, and the request has been handled once complete. */
    ghost predicate Hearing(before: seq<Event>, heard: bytes)
      requires recvBuf.len <= recvBuf.s.Length
      reads this, recvBuf, recvBuf.s
    {
      && recvBuf.Contents() == Feed(START, heard).data && (Listening() ==> Received() == Feed(START, heard))
      && if Receiving(Feed(START, heard)) then log == before else Handled(before, recvBuf.Contents())
    }

    method HearMore(net: seq<Arrival>, script: Script, now: int, ghost before: seq<Event>, ghost heard: bytes) returns (err: Code)
      requires Valid() && Listening() && Hearing(before, heard) && Searchable(heard + Incoming(net))
      modifies this`state, this`response, this`sendFp, this`log, this`expectedRecvLen, this`dataIdx, this`lastActivity
      modifies recvBuf, recvBuf.s, sendBuf, sendBuf.s
      ensures Valid() && (sendBuf.s == old(sendBuf.s) || fresh(sendBuf.s)) && (recvBuf.s == old(recvBuf.s) || fresh(recvBuf.s))
      ensures recvBuf.ample ==> err != OutOfMem
      ensures err != OutOfMem ==> Hearing(before, heard + Incoming(net))
      ensures err != OutOfMem && Receiving(Feed(START, heard + Incoming(net))) ==> err == Success && (Listening() || HangsUp(net))
    {
      hide Feed, Incoming, Searchable, RequestOf, Render, HangsUp, PowerOfTwo;
      HeardSoFar(heard, Incoming(net));
      err := Recv(net, script, now);
    }

    /**
     * The receive steps of a new connection, one a poll, up to the end of the request or of the connection. Whenever a request
     * ends in what the polls bring before one of them hangs up, then however the bytes arrive exactly that request is received,
     * and it has been handled; until then all that has come is kept. Memory alone may come in the way.
     */
    method ReceiveRequest(nets: seq<seq<Arrival>>, script: Script, now: int) returns (err: Code, ghost heard: bytes)
      requires Valid() && Received() == START && Searchable(AllIncoming(nets))
      modifies this`state, this`response, this`sendFp, this`log, this`expectedRecvLen, this`dataIdx, this`lastActivity
      modifies recvBuf, recvBuf.s, sendBuf, sendBuf.s
      ensures Valid() && exists k: nat :: k <= |nets| && heard == AllIncoming(nets[..k])
      ensures err == Success && Listening() ==> heard == AllIncoming(nets)
      ensures recvBuf.ample ==> err != OutOfMem
      ensures err != OutOfMem ==>
                forall k: nat | RequestEnd(AllIncoming(nets), k) && InTime(nets, k) ::
                  recvBuf.Contents() == AllIncoming(nets)[..k] && Handled(old(log), AllIncoming(nets)[..k])
      ensures err != OutOfMem ==>
                && (forall k: nat | RequestEnd(heard, k) :: recvBuf.Contents() == heard[..k] && Handled(old(log), heard[..k]))
                && ((forall k: nat :: !RequestEnd(heard, k)) ==> recvBuf.Contents() == heard && log == old(log))
    {
      ghost var before := log;
      assert Hearing(before, []) && Feed(START, []) == START;
      var i;
      err, heard, i := HearAll(nets, script, now, before);
      if err != OutOfMem {
        RequestHeard(nets, i, heard, before);
      }
    }

    /** The polls up to the end of the request or of the connection, or an error. */
    method HearAll(nets: seq<seq<Arrival>>, script: Script, now: int, ghost before: seq<Event>)
      returns (err: Code, ghost heard: bytes, polls: nat)
      requires Valid() && Received() == START && Hearing(before, []) && Searchable(AllIncoming(nets))
      modifies this`state, this`response, this`sendFp, this`log, this`expectedRecvLen, this`dataIdx, this`lastActivity
      modifies recvBuf, recvBuf.s, sendBuf, sendBuf.s
      ensures Valid() && polls <= |nets| && heard == IncomingIn(nets, polls) && (recvBuf.ample ==> err != OutOfMem)
      ensures err == Success && Listening() ==> polls == |nets|
      ensures err != OutOfMem ==> Hearing(before, heard)
      ensures err != OutOfMem && Receiving(Feed(START, heard)) ==> polls == |nets| || (polls > 0 && HangsUp(nets[polls - 1]))
    {
      heard, err, polls := [], Success, 0;
      assert Feed(START, []) == START;
      hide Feed, Incoming, Searchable, Hearing, Render, AllIncoming, IncomingIn, PowerOfTwo, Fits, Receiving, HangsUp;
      NothingHeard(nets);
      while err == Success && polls < |nets| && (state == ReceivingHeader || state == ReceivingRequest)
        invariant polls <= |nets| && Valid() && (sendBuf.s == old(sendBuf.s) || fresh(sendBuf.s)) && (recvBuf.s == old(recvBuf.s) || fresh(recvBuf.s))
        invariant heard == IncomingIn(nets, polls) && (recvBuf.ample ==> err != OutOfMem) && (err != OutOfMem ==> Hearing(before, heard))
        invariant err != OutOfMem && Receiving(Feed(START, heard)) ==>
                    err == Success && (Listening() || (polls > 0 && HangsUp(nets[polls - 1])))
        decreases |nets| - polls
      {
        NextPoll(nets, polls, heard);
        ghost var more := Incoming(nets[polls]);
        err := HearMore(nets[polls], script, now, before, heard);
        heard, polls := heard + more, polls + 1;
      }
    }

    lemma RequestHeard(nets: seq<seq<Arrival>>, i: nat, heard: bytes, before: seq<Event>)
      requires recvBuf.Valid() && i <= |nets| && heard == IncomingIn(nets, i) && Hearing(before, heard)
      requires Receiving(Feed(START, heard)) ==> i == |nets| || (i > 0 && HangsUp(nets[i - 1]))
      ensures i == |nets| ==> heard == AllIncoming(nets)
      ensures forall k: nat | RequestEnd(AllIncoming(nets), k) && InTime(nets, k) ::
                recvBuf.Contents() == AllIncoming(nets)[..k] && Handled(before, AllIncoming(nets)[..k])
      ensures forall k: nat | RequestEnd(heard, k) :: recvBuf.Contents() == heard[..k] && Handled(before, heard[..k])
      ensures (forall k: nat :: !RequestEnd(heard, k)) ==> recvBuf.Contents() == heard && log == before
    {
      hide Feed, Incoming, HeaderEnd, BodyLength, AllIncoming, PowerOfTwo, RequestOf, HangsUp, InTime;
      FramesNow(heard);
      assert i == |nets| ==> nets[..i] == nets;
      forall k: nat | RequestEnd(AllIncoming(nets), k) && InTime(nets, k)
        ensures RequestEnd(heard, k) && heard[..k] == AllIncoming(nets)[..k]
      {
        HeardInTime(nets, i, k);
      }
    }

    lemma StopsHere(start: Progress, all: bytes, done: bytes, rest: bytes)
      requires recvBuf.len <= recvBuf.s.Length && Received() == Feed(start, done)
      requires all == done + rest && (rest == [] || !Receiving(Feed(start, done)))
      ensures Received() == Feed(start, all) && Kept(start.data, all)
    {
      hide Feed;
      RestMakesNoDifference(start, all, done, rest);
    }

    lemma KeptChunk(before: bytes, done: bytes, chunk: bytes, rest: bytes)
      requires recvBuf.len <= recvBuf.s.Length
      requires Kept(before + done, chunk)
      ensures Kept(before, done + chunk + rest)
    {
      var n: nat :| n <= |chunk| && recvBuf.Contents() == before + done + chunk[..n];
      var all := done + chunk + rest;
      assert all[..|done| + n] == done + chunk[..n];
      assert recvBuf.Contents() == before + all[..|done| + n];
    }
  }

  /** The bytes that arrive in the first polls. */
  ghost function IncomingIn(nets: seq<seq<Arrival>>, polls: nat): bytes
    requires polls <= |nets|
  {
    AllIncoming(nets[..polls])
  }

  lemma NothingHeard(nets: seq<seq<Arrival>>)
    ensures IncomingIn(nets, 0) == []
  {
  }

  /** The first `k` bytes come before a poll hangs up. */
  ghost predicate InTime(nets: seq<seq<Arrival>>, k: nat) {
    forall i {:trigger nets[i]} :: 0 <= i < |nets| && HangsUp(nets[i]) ==> k <= |AllIncoming(nets[..i + 1])|
  }

  /** A request that ends in all that comes has been heard when the polls stop because it is complete, a poll hung up, or none is left. */
  lemma HeardInTime(nets: seq<seq<Arrival>>, i: nat, k: nat)
    requires i <= |nets| && RequestEnd(AllIncoming(nets), k) && InTime(nets, k)
    requires Receiving(Feed(START, AllIncoming(nets[..i]))) ==> i == |nets| || (i > 0 && HangsUp(nets[i - 1]))
    ensures RequestEnd(AllIncoming(nets[..i]), k) && AllIncoming(nets[..i])[..k] == AllIncoming(nets)[..k]
  {
    hide Feed, Incoming, AllIncoming, HangsUp;
    var heard, all := AllIncoming(nets[..i]), AllIncoming(nets);
    assert nets[..|nets|] == nets;
    var rest := IncomingPrefix(nets, i);
    FramesNow(heard);
    if Receiving(Feed(START, heard)) {
      if i < |nets| {
        assert nets[i - 1] == nets[i - 1] && nets[..i - 1 + 1] == nets[..i];
      }
      RequestEndWithin(heard, rest, k);
    } else {
      var j: nat :| RequestEnd(heard, j);
      RequestEndWithin(heard, rest, j);
      RequestEndUnique(all, j, k);
    }
  }

  lemma {:induction false} IncomingPrefix(nets: seq<seq<Arrival>>, i: nat) returns (rest: bytes)
    requires i <= |nets|
    ensures AllIncoming(nets) == AllIncoming(nets[..i]) + rest
    decreases |nets| - i
  {
    if i == |nets| {
      assert nets[..i] == nets;
      rest := [];
      assert AllIncoming(nets) + [] == AllIncoming(nets);
    } else {
      rest := IncomingPrefix(nets, i + 1);
      assert nets[..i + 1][..i] == nets[..i];
      Assoc(AllIncoming(nets[..i]), Incoming(nets[i]), rest);
      rest := Incoming(nets[i]) + rest;
    }
  }

  /** Where the request ends in what has been heard, by the framer's own state. */
  lemma FramesNow(heard: bytes)
    ensures var f := Feed(START, heard);
      && (forall k: nat | RequestEnd(heard, k) :: !Receiving(f) && f.data == heard[..k])
      && (Receiving(f) ==> f.data == heard)
      && ((forall k: nat :: !RequestEnd(heard, k)) ==> Receiving(f))
  {
    assert [heard][..0] == [] && [] + heard == heard;
    assert Flatten([heard]) == heard && FeedChunks(START, [heard]) == Feed(START, heard);
    FramesExactly([heard]);
    FeedStates(START, heard);
  }

  lemma HeardSoFar(heard: bytes, more: bytes)
    ensures Feed(START, heard + more) == Feed(Feed(START, heard), more)
    ensures Receiving(Feed(START, heard)) ==> Feed(START, heard).data == heard
  {
    FeedConcat(START, heard, more);
    if Receiving(Feed(START, heard)) {
      FeedKeeps(START, heard);
      assert START.data + heard == heard;
    }
  }

  lemma NextPoll(nets: seq<seq<Arrival>>, i: nat, heard: bytes)
    requires i < |nets| && heard == IncomingIn(nets, i) && Searchable(AllIncoming(nets))
    ensures IncomingIn(nets, i + 1) == heard + Incoming(nets[i]) && Searchable(heard + Incoming(nets[i]))
  {
    hide Searchable;
    assert nets[..i + 1][..i] == nets[..i];
    AllIncomingPrefix(nets, i + 1);
  }

  lemma {:induction false} AllIncomingPrefix(nets: seq<seq<Arrival>>, i: nat)
    requires i <= |nets| && Searchable(AllIncoming(nets))
    ensures Searchable(AllIncoming(nets[..i]))
    decreases |nets| - i
  {
    hide Searchable;
    if i == |nets| {
      assert nets[..i] == nets;
    } else {
      AllIncomingPrefix(nets, i + 1);
      assert nets[..i + 1][..i] == nets[..i];
      SearchablePrefix(AllIncoming(nets[..i]), Incoming(nets[i]));
    }
  }

  lemma SearchablePrefix(d: bytes, more: bytes)
    requires Searchable(d + more)
    ensures Searchable(d)
  {
    forall n: nat | BlankLineEnd(d, n) ensures Halts(CText(d[..n]), CONTENT_LENGTH) {
      assert BlankLineEnd(d + more, n) && (d + more)[..n] == d[..n];
    }
  }

  /** The framer behind the first `i` bytes of a chunk. */
  ghost function FedTo(start: Progress, chunk: bytes, i: nat): Progress
    requires i <= |chunk|
  {
    Feed(start, chunk[..i])
  }

  lemma NothingFed(start: Progress, chunk: bytes)
    ensures FedTo(start, chunk, 0) == start
  {
  }

  /** The framer takes byte `i` of a chunk; once it has the request the rest makes no difference. */
  lemma NextByte(start: Progress, chunk: bytes, i: nat)
    requires i < |chunk| && Receiving(FedTo(start, chunk, i)) && Searchable(start.data + chunk)
    ensures Searchable(FedTo(start, chunk, i).data + [chunk[i]])
    ensures FedTo(start, chunk, i + 1) == Take(FedTo(start, chunk, i), chunk[i])
    ensures !Receiving(FedTo(start, chunk, i + 1)) ==> Feed(start, chunk) == FedTo(start, chunk, i + 1)
  {
    var init, next := chunk[..i], chunk[..i + 1];
    FeedKeeps(start, init);
    assert next == init + [chunk[i]] && chunk == next + chunk[i + 1..];
    FeedSnoc(start, init, chunk[i]);
    Assoc(start.data, next, chunk[i + 1..]);
    Assoc(start.data, init, [chunk[i]]);
    SearchablePrefix(start.data + next, chunk[i + 1..]);
    FeedConcat(start, next, chunk[i + 1..]);
    if !Receiving(Feed(start, next)) {
      FeedStops(Feed(start, next), chunk[i + 1..]);
    }
  }

  lemma NextChunk(start: Progress, done: bytes, chunk: bytes, rest: bytes)
    requires Receiving(Feed(start, done)) && Searchable(start.data + (done + (chunk + rest)))
    ensures Feed(start, done).data == start.data + done
    ensures Searchable(start.data + done + chunk)
    ensures Feed(start, done + chunk) == Feed(Feed(start, done), chunk)
    ensures done + (chunk + rest) == (done + chunk) + rest
  {
    FeedKeeps(start, done);
    Assoc(done, chunk, rest);
    Assoc(start.data, done + chunk, rest);
    Assoc(start.data, done, chunk);
    SearchablePrefix(start.data + done + chunk, rest);
    FeedConcat(start, done, chunk);
  }

  lemma RestMakesNoDifference(start: Progress, all: bytes, done: bytes, rest: bytes)
    requires all == done + rest && (rest == [] || !Receiving(Feed(start, done)))
    ensures Feed(start, all) == Feed(start, done)
    ensures exists n: nat :: n <= |all| && Feed(start, all).data == start.data + all[..n]
  {
    FeedConcat(start, done, rest);
    if rest != [] {
      FeedStops(Feed(start, done), rest);
    }
    FeedTakesPrefix(start, all);
  }

  /** What arrives from item `k` on. */
  ghost function IncomingFrom(net: seq<Arrival>, k: nat): bytes
    requires k <= |net|
  {
    Incoming(net[k..])
  }

  ghost predicate HangsUpFrom(net: seq<Arrival>, k: nat)
    requires k <= |net|
  {
    HangsUp(net[k..])
  }

  lemma FromStart(net: seq<Arrival>)
    ensures [] + IncomingFrom(net, 0) == Incoming(net) && HangsUpFrom(net, 0) == HangsUp(net)
  {
    assert net[0..] == net;
  }

  lemma IncomingStep(net: seq<Arrival>, k: nat)
    requires k < |net| && net[k].Data?
    ensures IncomingFrom(net, k) == net[k].chunk + IncomingFrom(net, k + 1) && HangsUpFrom(net, k) == HangsUpFrom(net, k + 1)
  {
  }

  lemma HangsUpNow(net: seq<Arrival>, k: nat)
    requires k <= |net|
    ensures k == |net| || !net[k].Data? ==> IncomingFrom(net, k) == [] && (HangsUpFrom(net, k) <==> k < |net| && net[k].Gone?)
  {
  }

  lemma FinishAppends(r: Response)
    requires r.Head?
    ensures Render(Finished(r)) == Render(r) + CRLF
  {
  }

  lemma BodyAppends(r: Response, data: bytes)
    requires r.Full?
    ensures Render(WithBody(r, data)) == Render(r) + data
  {
  }

  /** `find_header_value` and `str_to_uint` on a complete header. */
  method ReadContentLength(header: bytes) returns (length: Option<nat>)
    requires Halts(CText(header), CONTENT_LENGTH)
    ensures length == ContentLength(header)
  {
    var text := CText(header);
    assert NUL !in CONTENT_LENGTH && '\r' !in CONTENT_LENGTH;
    var at := FindHeaderValue(text, CONTENT_LENGTH);
    if at.None? { return None; }
    return Some(StrToUint(text, at.value));
  }

  method DecodePath(mem: bytes, p: nat) returns (path: bytes)
    requires p < |mem| && mem[|mem| - 1] == NUL
    ensures path == PathText(mem, p)
  {
    var dst := new byte[512];
    var code := UrlDecode(dst, mem, p, 512);
    var t := CText(dst[..]);
    PathDecoded(dst[..], mem, p, code);
    path := t[..|t| - 1];
  }

  /** The path of the request event: the decoded target, at most 511 bytes, as a C string. */
  ghost function PathText(mem: bytes, p: nat): bytes
    requires p < |mem| && mem[|mem| - 1] == NUL
  {
    var us := Units(mem, p);
    var v := seq(if |us| < 511 then |us| else 511, i requires 0 <= i < |us| => us[i].Meaning());
    var t := CText(v);
    t[..|t| - 1]
  }

  lemma PathDecoded(dst: bytes, mem: bytes, p: nat, code: Code)
    requires p < |mem| && mem[|mem| - 1] == NUL && |dst| == 512
    requires exists before :: Delivered(dst, before, Units(mem, p), 512, code)
    ensures var t := CText(dst); t[..|t| - 1] == PathText(mem, p)
  {
    hide CText, Units;
    var us := Units(mem, p);
    var v := seq(if |us| < 511 then |us| else 511, i requires 0 <= i < |us| => us[i].Meaning());
    assert dst[..|v|] == v;
    BehindTheNul(dst, v);
  }

  /** What comes behind a NUL makes no difference to a C string. */
  lemma BehindTheNul(dst: bytes, v: bytes)
    requires |v| < |dst| && dst[..|v|] == v && dst[|v|] == NUL
    ensures CText(dst) == CText(v)
  {
    var n := Until(v + [NUL], 0, {});
    assert forall i :: 0 <= i <= |v| ==> (dst + [NUL])[i] == (v + [NUL])[i];
    assert Until(dst + [NUL], 0, {}) == n;
    assert (dst + [NUL])[..n + 1] == (v + [NUL])[..n + 1];
  }

  lemma SameContinues(a: Snapshot, b: Snapshot)
    requires b.response == a.response && a.state.Rank() <= b.state.Rank()
    ensures Continues(a, b)
  {
  }

  lemma MemoryRanOut(a: Picture, net: seq<Arrival>, script: Script, now: int, b: Picture)
    requires Continues(a.View(), b.View()) && b.log == a.log && b.response == a.response && b.wire == a.wire && CameIn(a.heard, Incoming(net), b.heard)
    requires b.lastActivity == if net != [] && net[0].Data? then now else a.lastActivity
    requires b.ample == a.ample == false && Halted(a.Framer(), Incoming(net), b.Framer())
    ensures ReceiveStep(a, net, script, now, OutOfMem, b)
  {
  }

  lemma HaltedAtEnd(a: Progress, came: bytes)
    ensures Halted(a, came, Feed(a, came))
  {
    hide Feed;
    assert came[..|came|] == came;
    assert HaltedAt(a, came, |came|, Feed(a, came));
  }

  /** The same seen from the beginning of all bytes. */
  lemma HaltedChunk(start: Progress, done: bytes, chunk: bytes, rest: bytes, b: Progress)
    requires Halted(Feed(start, done), chunk, b)
    ensures Halted(start, done + (chunk + rest), b)
  {
    hide Feed, HeaderCut;
    var n: nat :| HaltedAt(Feed(start, done), chunk, n, b);
    var all := done + (chunk + rest);
    assert all[..|done| + n] == done + chunk[..n];
    FeedConcat(start, done, chunk[..n]);
    assert HaltedAt(start, all, |done| + n, b);
  }

  lemma StillReceiving(a: Picture, net: seq<Arrival>, script: Script, now: int, b: Picture)
    requires Continues(a.View(), b.View()) && b.log == a.log && b.response == a.response && b.wire == a.wire && CameIn(a.heard, Incoming(net), b.heard)
    requires b.lastActivity == if net != [] && net[0].Data? then now else a.lastActivity
    requires var f := Feed(a.Framer(), Incoming(net));
      && Receiving(f) && b.heard == f.data && b.expected == f.expected && b.dataIdx == f.dataIdx
      && b.state == if HangsUp(net) then Closing else f.state
    requires b.ample == a.ample
    ensures ReceiveStep(a, net, script, now, Success, b)
  {
  }

  lemma RequestCame(a: Picture, m: Picture, net: seq<Arrival>, script: Script, now: int, err: Code, b: Picture)
    requires m.Framer() == Feed(a.Framer(), Incoming(net)) && m.state == State.SendingStatus && m.log == a.log && m.response == a.response
    requires Continues(a.View(), m.View()) && Continues(m.View(), b.View()) && b.wire == a.wire && CameIn(a.heard, Incoming(net), b.heard)
    requires b.lastActivity == if net != [] && net[0].Data? then now else a.lastActivity
    requires b.heard == m.heard && b.expected == m.expected && b.dataIdx == m.dataIdx
    requires b.ample == a.ample && (a.ample ==> err != OutOfMem)
    requires if err == OutOfMem then b.log == m.log && b.response == m.response && b.state == m.state && Halted(a.Framer(), Incoming(net), m.Framer())
             else HandledStep(m, m.heard, script, err, b)
    ensures ReceiveStep(a, net, script, now, err, b)
  {
    hide RequestOf, ScriptRan, Render;
    ContinuesTransitive(a.View(), m.View(), b.View());
  }

  lemma StillContinues(a: Snapshot, b: Snapshot)
    requires Continues(a, b)
    ensures Continues(a, b.(state := Closing))
  {
  }

  lemma NothingSent(a: Picture, socket: Socket, now: int, err: Code, b: Picture)
    requires a.pending == []
    requires if err == Success then (if a.file.None? then b == a.(state := Closing) else a.Unsent() == [] && b == a.(file := None))
             else err == OutOfMem && !a.ample && a.file.Some? && b == a
    ensures SendStep(a, socket, now, err, b)
  {
  }

  /** `m` is the stream when there is something in the send buffer, read from the file if need be. */
  lemma SendsPending(a: Picture, m: Picture, socket: Socket, now: int, b: Picture)
    requires IsSocket(socket) && m.pending != [] && m == a.(pending := m.pending, file := m.file)
    requires if a.pending != [] then m == a else a.file.Some? && m.Unsent() == a.Unsent()
    requires var n := if !socket.Takes? then 0 else if socket.most < |m.pending| then socket.most else |m.pending|;
      b == m.(state := if socket.Breaks? then Closing else m.state, lastActivity := if socket.Takes? then now else m.lastActivity,
              wire := m.wire + m.pending[..n], pending := m.pending[n..])
    ensures SendStep(a, socket, now, Success, b)
  {
    var n := if !socket.Takes? then 0 else if socket.most < |m.pending| then socket.most else |m.pending|;
    SentPart(m.wire, m.pending, UnreadOf(m.file), n);
    Assoc(b.wire, b.pending, UnreadOf(b.file));
    Assoc(m.wire, m.pending, UnreadOf(m.file));
    if a.pending == [] {
      assert a.Unsent() == UnreadOf(a.file);
    }
    assert m.Unsent() != [] by {
      assert m.Unsent()[0] == m.pending[0];
    }
    assert a.wire + a.Unsent() == m.wire + m.Unsent();
    assert !socket.Takes? ==> b.wire == m.wire;
    assert socket.Takes? ==> m.wire < b.wire;
    assert socket.Takes? && n == |m.pending| ==> m.pending[..n] == m.pending;
  }

  lemma SentPart(sent: bytes, pending: bytes, unread: bytes, n: nat)
    requires n <= |pending|
    ensures sent + pending[..n] + pending[n..] + unread == sent + pending + unread
  {
  }

  lemma ReadPart(sent: bytes, contents: bytes, pos: nat, n: nat)
    requires pos + n <= |contents|
    ensures sent + contents[pos..pos + n] + contents[pos + n..] == sent + contents[pos..]
  {
  }

  /** The steps of `sb_send_file` put together. */
  lemma FileHeaderFailed(contents: bytes, a: Snapshot, err: Code, b: Snapshot)
    requires var h := LengthHeader(|contents|); Effect(SendHeader(h.field, h.value), a, err, b)
    requires err != Success && a.state.Rank() <= State.SendingHeader.Rank()
    ensures Effect(SendFile(Some(contents)), a, err, b)
  {
  }

  lemma FileHeaderDone(contents: bytes, a: Snapshot, m: Snapshot)
    requires Fits(a.state, a.response) && a.state.Rank() <= State.SendingHeader.Rank()
    requires var h := LengthHeader(|contents|); Effect(SendHeader(h.field, h.value), a, Success, m)
    ensures m.state == State.SendingHeader && m.response.Head?
    ensures Effect(SendFile(Some(contents)), a, Success, Snapshot(State.SendingFile, WithBody(Finished(m.response), contents)))
    ensures forall b: Snapshot :: StoppedAt(m, b, m.response) || StoppedAt(m, b, WithStatus(m.response)) ==>
              Effect(SendFile(Some(contents)), a, OutOfMem, b)
  {
  }

  lemma HeaderAppends(r: Response, h: Header)
    requires r.Head?
    ensures Render(WithHeader(r, h)) == Render(r) + (HeaderText(h) + CRLF)
  {
    hide HeaderText, StatusText;
    match r
    case Head(c, m, hs) =>
      var next := hs + [h];
      assert next[..|next| - 1] == hs && next[|next| - 1] == h;
      assert RenderHeaders(next) == RenderHeaders(hs) + (HeaderText(h) + CRLF);
      Assoc(StatusText(c, m) + CRLF, RenderHeaders(hs), HeaderText(h) + CRLF);
  }

  const STATUS_FORMAT: bytes := "HTTP/1.1 %d %s\r\n"
  const HEADER_FORMAT: bytes := "%s: %s\r\n"

  /** `%s` and a line end. */
  lemma LineFormat(text: bytes, value: bytes)
    requires '%' !in text
    ensures var f := text + (STRING + CRLF);
      FormatOk(f, [Str(value)]) && Expand(f, [Str(value)]) == text + (value + CRLF)
  {
    ExpandText(CRLF, [], []);
    assert CRLF + [] == CRLF;
    var f := STRING + CRLF;
    assert f[0] == '%' && f[1] == 's' && f[2..] == CRLF && [Str(value)][1..] == [];
    ExpandText(text, f, [Str(value)]);
  }

  const STRING: bytes := "%s"
  const NUMBER: bytes := "%d"

  lemma StatusFormat(code: int, msg: bytes)
    ensures var args := [Int(code), Str(msg)];
      FormatOk(STATUS_FORMAT, args) && Expand(STATUS_FORMAT, args) == StatusText(code, msg) + CRLF
  {
    hide Decimal;
    var args, rest := [Int(code), Str(msg)], SP + (STRING + CRLF);
    LineFormat(SP, msg);
    var f := NUMBER + rest;
    assert f[0] == '%' && f[1] == 'd' && f[2..] == rest && args[1..] == [Str(msg)];
    ExpandText(HTTP, f, args);
    assert HTTP + f == STATUS_FORMAT;
    assert Expand(f, args) == Decimal(code) + (SP + (msg + CRLF));
  }

  lemma HeaderFormat(h: Header)
    ensures var args := [Str(h.field), Str(h.value)];
      FormatOk(HEADER_FORMAT, args) && Expand(HEADER_FORMAT, args) == HeaderText(h) + CRLF
  {
    var args, rest := [Str(h.field), Str(h.value)], COLON + (STRING + CRLF);
    LineFormat(COLON, h.value);
    var f := STRING + rest;
    assert f[0] == '%' && f[1] == 's' && f[2..] == rest && args[1..] == [Str(h.value)];
    assert f == HEADER_FORMAT;
    assert Expand(f, args) == h.field + (COLON + (h.value + CRLF));
  }
}
