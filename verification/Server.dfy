/** The server: accepting, polling and closing connections (`sb_Server`). */
module Server {
  import opened Prelude
  import opened Codes
  import opened Buffer
  import opened Response
  import opened Framing
  import opened Stream

  const FD_SETSIZE := 1024

  // ----- what happens to one socket -----

  /** The events of a stream that is still open. */
  ghost predicate Opened(a: Life) {
    || a.log == [Connect]
    || (a.state.Rank() >= State.SendingStatus.Rank() && |a.log| == 2 && a.log[0] == Connect && a.log[1].Request?)
  }

  /** CONNECT, at most one REQUEST, then CLOSE. */
  ghost predicate Complete(log: seq<Event>) {
    || log == [Connect, Close]
    || (|log| == 3 && log[0] == Connect && log[1].Request? && log[2] == Close)
  }

  lemma StaysOpened(a: Life, b: Life)
    requires Opened(a) && Lives(a, b)
    ensures Opened(b)
  {
  }

  lemma CloseCompletes(a: Life)
    requires Opened(a)
    ensures Complete(a.log + [Close])
  {
  }

  /** How a socket ended: closed right after `accept`, or with its stream. */
  datatype Ended = Refused(id: nat) | Served(id: nat, events: seq<Event>)

  // ----- lists of streams -----

  function Upto(n: nat): seq<nat> {
    seq(n, i => i)
  }

  ghost function Ids(ss: seq<Stream>): seq<nat> {
    seq(|ss|, i requires 0 <= i < |ss| => ss[i].id)
  }

  function EndedIds(es: seq<Ended>): seq<nat> {
    seq(|es|, i requires 0 <= i < |es| => es[i].id)
  }

  /** Every accepted socket is open in the list or has been closed, and only once. */
  ghost predicate Accounted(accepted: nat, ss: seq<Stream>, ended: seq<Ended>) {
    multiset(EndedIds(ended)) + multiset(Ids(ss)) == multiset(Upto(accepted))
  }

  /**
   * What `accept` yields: a descriptor, whether there is memory for its stream, and always for the buffers of that, and what
   * the handler makes of the connection.
   */
  datatype Newcomer = Newcomer(fd: nat, memory: bool, ample: bool, script: Script)
  {
    predicate Turned() {
      fd > FD_SETSIZE || !memory
    }

    function Outcome(): Code {
      if fd > FD_SETSIZE then FdTooBig else if !memory then OutOfMem else ResultCode(script.result)
    }
  }

  /**
   * What the application does next: a poll, with all that the world has in store for it, or a call on the stream at some place
   * of the list.
   */
  datatype Action =
    | Polling(time: int, world: nat -> Input, listening: bool, arrivals: seq<Newcomer>)
    | Calling(place: nat, call: Call)

  /** An input as the model covers it: what `recv` returns lets the search for Content-Length end, and `send` takes something or nothing. */
  function Admitted(heard: bytes, offered: Input): Input {
    offered.(net := if Searchable(heard + Incoming(offered.net)) then offered.net else [],
             socket := if IsSocket(offered.socket) then offered.socket else Blocks)
  }

  lemma NothingComes()
    ensures Incoming([]) == []
  {
  }

  /** What a poll did at one stream: what it met, and the stream before, behind the step of its socket, and behind the checks. */
  datatype Visited = Visited(input: Input, before: Picture, stepped: Picture, after: Picture, err: Code)

  /** The visit is to a stream that looks so, with this input. */
  ghost predicate Came(before: Picture, offered: Input, v: Visited) {
    v.before == before && v.input == Admitted(before.heard, offered)
  }

  /** The stream was found closing. */
  predicate Leaves(v: Visited) {
    v.err == Success && v.after.state == Closing
  }

  datatype Limits = Limits(timeout: nat, maxLifetime: nat, maxRequestSize: nat)

  /** Idle for too long, too old or too large. */
  ghost predicate Overdue(lim: Limits, now: int, born: int, p: Picture) {
    || (lim.timeout != 0 && now - p.lastActivity > lim.timeout / 1000)
    || (lim.maxLifetime != 0 && now - born > lim.maxLifetime / 1000)
    || (lim.maxRequestSize != 0 && |p.heard| >= lim.maxRequestSize)
  }

  /** The step of a stream as its socket allows; then it is closed if it is overdue, and otherwise as the step left it. */
  ghost predicate Did(lim: Limits, now: int, born: int, v: Visited) {
    && PollStep(v.before, v.input, now, v.err, v.stepped)
    && v.after == if v.err == Success && Overdue(lim, now, born, v.stepped) then v.stepped.(state := Closing) else v.stepped
  }

  // ----- what can be seen of a server -----

  /** A stream of the list. */
  datatype Listed = Listed(id: nat, born: int, look: Picture)

  /** The clock, the list from its head, how many sockets have been accepted, and how those that have ended did. */
  datatype Scene = Scene(now: int, list: seq<Listed>, accepted: nat, ended: seq<Ended>)

  /** What an action returns, and what it did at the streams it visited. */
  datatype Round = Round(err: Code, visits: seq<Visited>)

  /** Each visit did to its stream, as that was before the sweep, what a poll does. */
  ghost predicate Toured(lim: Limits, now: int, before: seq<Listed>, world: nat -> Input, visits: seq<Visited>)
    requires |visits| <= |before|
  {
    forall i :: 0 <= i < |visits| ==> Came(before[i].look, world(i), visits[i]) && Did(lim, now, before[i].born, visits[i])
  }

  /** What a sweep leaves of what it has visited: all but what it found closing. */
  ghost function Kept<T>(ss: seq<T>, visits: seq<Visited>): seq<T>
    requires |visits| == |ss|
  {
    if ss == [] then []
    else
      var n := |ss| - 1;
      Kept(ss[..n], visits[..n]) + if Leaves(visits[n]) then [] else [ss[n]]
  }

  /** The ends of the others, in the order of the list. */
  ghost function Departed(before: seq<Listed>, visits: seq<Visited>): seq<Ended>
    requires |visits| == |before|
  {
    if before == [] then []
    else
      var n := |before| - 1;
      Departed(before[..n], visits[..n]) + if Leaves(visits[n]) then [EndOf(before[n].id, visits[n])] else []
  }

  ghost function EndOf(id: nat, v: Visited): Ended {
    Served(id, v.after.log + [Close])
  }

  /** The streams as their visits left them. */
  ghost function Marked(before: seq<Listed>, visits: seq<Visited>): (ls: seq<Listed>)
    requires |visits| <= |before|
    ensures |ls| == |visits|
  {
    seq(|visits|, i requires 0 <= i < |visits| => before[i].(look := visits[i].after))
  }

  /** The scene behind a sweep that has made these visits. */
  ghost function Swept(a: Scene, time: int, visits: seq<Visited>): Scene
    requires |visits| <= |a.list|
  {
    var n := |visits|;
    Scene(time, Kept(Marked(a.list, visits), visits) + a.list[n..], a.accepted, a.ended + Departed(a.list[..n], visits))
  }

  /** A new stream: announced to the handler, which may have closed it. */
  ghost predicate Joined(id: nat, now: int, c: Newcomer, l: Listed) {
    && l.id == id && l.born == now && l.look.lastActivity == now && l.look.log == [Connect] && l.look.ample == c.ample
    && l.look.heard == [] && l.look.expected == l.look.dataIdx == 0
    && l.look.wire == [] && l.look.Unsent() == Render(l.look.response)
    && ScriptRan(c.script, Snapshot(ReceivingHeader, Nothing), l.look.View())
  }

  /** One socket: refused and closed at once, or in front of the list. */
  ghost predicate AcceptStep(a: Scene, c: Newcomer, err: Code, b: Scene) {
    && err == c.Outcome() && b.accepted == a.accepted + 1 && b.now == a.now
    && if c.Turned() then b.list == a.list && b.ended == a.ended + [Refused(a.accepted)]
       else b.ended == a.ended && |b.list| > 0 && b.list[1..] == a.list && Joined(a.accepted, a.now, c, b.list[0])
  }

  /** The first `k` sockets have been accepted: numbered in order, the latest in front, only the last possibly refused or failing. */
  ghost predicate AcceptedTo(a: Scene, arrivals: seq<Newcomer>, k: nat, err: Code, b: Scene) {
    && k <= |arrivals| && b.accepted == a.accepted + k && b.now == a.now
    && (forall i :: 0 <= i < k - 1 ==> arrivals[i].Outcome() == Success)
    && err == (if k == 0 then Success else arrivals[k - 1].Outcome())
    && var turned := k > 0 && arrivals[k - 1].Turned();
       var n := if turned then k - 1 else k;
       && b.ended == a.ended + (if turned then [Refused(a.accepted + n)] else [])
       && |b.list| == n + |a.list| && b.list[n..] == a.list
       && forall i :: 0 <= i < n ==> Joined(a.accepted + i, a.now, arrivals[i], b.list[n - 1 - i])
  }

  /** All sockets, unless one is refused or its handler fails: then it is the last. */
  ghost predicate Accepted(a: Scene, arrivals: seq<Newcomer>, err: Code, b: Scene) {
    var k := b.accepted - a.accepted;
    0 <= k <= |arrivals| && AcceptedTo(a, arrivals, k, err, b) && (k < |arrivals| ==> err != Success)
  }

  /** One `sb_poll_server`: the streams in order, each once, all of them unless one fails; then the new sockets. */
  ghost predicate Polled(lim: Limits, a: Scene, time: int, world: nat -> Input, arrivals: seq<Newcomer>, round: Round, b: Scene) {
    var n := |round.visits|;
    && n <= |a.list| && Toured(lim, time, a.list, world, round.visits)
    && (forall i :: 0 <= i < n - 1 ==> round.visits[i].err == Success)
    && if n > 0 && round.visits[n - 1].err != Success then round.err == round.visits[n - 1].err && b == Swept(a, time, round.visits)
       else n == |a.list| && Accepted(Swept(a, time, round.visits), arrivals, round.err, b)
  }

  /** A call has its effect on the stream. */
  ghost predicate CallStep(a: Picture, call: Call, err: Code, b: Picture) {
    && Effect(call, a.View(), err, b.View()) && (a.ample ==> err != OutOfMem)
    && b == a.(state := b.state, response := b.response, pending := b.pending, file := b.file)
  }

  /** A call on the stream at that place of the list, or the last, if there is one; nothing else changes. */
  ghost predicate Called(a: Scene, place: nat, call: Call, err: Code, b: Scene) {
    if a.list == [] then err == Success && b == a
    else
      var i := if place < |a.list| then place else |a.list| - 1;
      && |b.list| == |a.list| && CallStep(a.list[i].look, call, err, b.list[i].look)
      && b == a.(list := a.list[i := a.list[i].(look := b.list[i].look)])
  }

  ghost predicate ActStep(lim: Limits, a: Scene, action: Action, round: Round, b: Scene) {
    match action
    case Polling(time, world, listening, arrivals) => Polled(lim, a, time, world, if listening then arrivals else [], round, b)
    case Calling(place, call) => round.visits == [] && Called(a, place, call, round.err, b)
  }

  /** How the streams of a list end when the server is closed. */
  ghost function Ends(list: seq<Listed>): (es: seq<Ended>)
    ensures |es| == |list|
  {
    seq(|list|, i requires 0 <= i < |list| => Served(list[i].id, list[i].look.log + [Close]))
  }

  // ----- what every scene and every run keeps -----

  function NumbersOf(list: seq<Listed>): seq<nat> {
    seq(|list|, i requires 0 <= i < |list| => list[i].id)
  }

  /**
   * Every accepted socket is in the list or has ended, and only once, with a complete history if it was served; what a stream
   * has sent, and has yet to send, is the response it stands for.
   */
  ghost predicate Proper(c: Scene) {
    && multiset(EndedIds(c.ended)) + multiset(NumbersOf(c.list)) == multiset(Upto(c.accepted))
    && (forall e | e in c.ended :: e.Served? ==> Complete(e.events))
    && forall l | l in c.list :: ProperLook(l.look)
  }

  ghost predicate ProperLook(p: Picture) {
    Opened(Life(p.state, p.log)) && Fits(p.state, p.response) && p.wire + p.Unsent() == Render(p.response)
  }

  /** The stream is still in the list, and goes on where it was. */
  ghost predicate GoesOn(l: Listed, c: Scene) {
    exists m :: m in c.list && m.id == l.id && m.born == l.born && Grows(l.look, m.look)
  }

  /** The stream has ended, with more events than it had. */
  ghost predicate HasEnded(l: Listed, ended: seq<Ended>) {
    exists e :: e in ended && e.Served? && e.id == l.id && l.look.log < e.events
  }

  /** The history only grows, and every stream goes on or has ended. */
  ghost predicate Onwards(a: Scene, b: Scene) {
    && a.ended <= b.ended && a.accepted <= b.accepted
    && forall l | l in a.list :: GoesOn(l, b) || HasEnded(l, b.ended)
  }

  lemma SameOnwards(a: Scene)
    ensures Onwards(a, a)
  {
    forall l | l in a.list ensures GoesOn(l, a) {
      SameGrows(l.look);
    }
  }

  lemma OnwardsTransitive(a: Scene, b: Scene, c: Scene)
    requires Onwards(a, b) && Onwards(b, c)
    ensures Onwards(a, c)
  {
    hide Grows;
    forall l | l in a.list ensures GoesOn(l, c) || HasEnded(l, c.ended) {
      if HasEnded(l, b.ended) {
        StaysEnded(l, b.ended, c.ended);
      } else {
        var m :| m in b.list && m.id == l.id && m.born == l.born && Grows(l.look, m.look);
        if HasEnded(m, c.ended) {
          EndedBehind(l, m, c.ended);
        } else {
          var k :| k in c.list && k.id == m.id && k.born == m.born && Grows(m.look, k.look);
          GrowsTransitive(l.look, m.look, k.look);
        }
      }
    }
  }

  lemma StaysEnded(l: Listed, was: seq<Ended>, ended: seq<Ended>)
    requires HasEnded(l, was) && was <= ended
    ensures HasEnded(l, ended)
  {
    var e :| e in was && e.Served? && e.id == l.id && l.look.log < e.events;
    assert e in ended;
  }

  lemma EndedBehind(l: Listed, m: Listed, ended: seq<Ended>)
    requires HasEnded(m, ended) && m.id == l.id && Grows(l.look, m.look)
    ensures HasEnded(l, ended)
  {
    hide Continues;
    var e :| e in ended && e.Served? && e.id == m.id && m.look.log < e.events;
    assert l.look.log < e.events;
  }

  lemma GrowsTransitive(a: Picture, b: Picture, c: Picture)
    requires Grows(a, b) && Grows(b, c)
    ensures Grows(a, c)
  {
    hide Render;
  }

  /** No action takes anything back. */
  lemma ActGoesOn(lim: Limits, a: Scene, action: Action, round: Round, b: Scene)
    requires Proper(a) && ActStep(lim, a, action, round, b)
    ensures Onwards(a, b)
  {
    hide Polled, Called, Onwards, Proper;
    match action {
      case Polling(time, world, listening, arrivals) => PollGoesOn(lim, a, time, world, if listening then arrivals else [], round, b);
      case Calling(place, call) => CallGoesOn(a, place, call, round.err, b);
    }
  }

  lemma PollGoesOn(lim: Limits, a: Scene, time: int, world: nat -> Input, arrivals: seq<Newcomer>, round: Round, b: Scene)
    requires Polled(lim, a, time, world, arrivals, round, b)
    ensures Onwards(a, b)
  {
    hide Toured, Accepted, Swept, Onwards;
    SweepGoesOn(lim, a, time, world, round.visits);
    var m := Swept(a, time, round.visits);
    if b == m {
      SameOnwards(a);
    } else {
      AcceptGoesOn(m, arrivals, round.err, b);
      OnwardsTransitive(a, m, b);
    }
  }

  lemma SweepGoesOn(lim: Limits, a: Scene, time: int, world: nat -> Input, visits: seq<Visited>)
    requires |visits| <= |a.list| && Toured(lim, time, a.list, world, visits)
    ensures Onwards(a, Swept(a, time, visits))
  {
    hide Did, Came, Kept, Departed, Leaves, Grows, EndOf;
    var n, m := |visits|, Swept(a, time, visits);
    forall i | 0 <= i < |a.list| ensures GoesOn(a.list[i], m) || HasEnded(a.list[i], m.ended) {
      var l := a.list[i];
      if i >= n {
        assert a.list[n..][i - n] == l;
        SameGrows(l.look);
      } else {
        VisitGrows(lim, time, l, world(i), visits[i]);
        if Leaves(visits[i]) {
          DepartedHas(a.list[..n], visits, i);
          assert EndOf(l.id, visits[i]) in m.ended;
        } else {
          var marked := Marked(a.list, visits);
          KeptHas(marked, visits, i);
          assert marked[i] == l.(look := visits[i].after);
        }
      }
    }
  }

  lemma AcceptGoesOn(a: Scene, arrivals: seq<Newcomer>, err: Code, b: Scene)
    requires Accepted(a, arrivals, err, b)
    ensures Onwards(a, b)
  {
    hide Joined, Grows;
    forall l | l in a.list ensures GoesOn(l, b) {
      SameGrows(l.look);
      var n := |b.list| - |a.list|;
      var i :| 0 <= i < |a.list| && a.list[i] == l;
      assert b.list[n..][i] == b.list[n + i] == l;
    }
  }

  lemma CallGoesOn(a: Scene, place: nat, call: Call, err: Code, b: Scene)
    requires Proper(a) && Called(a, place, call, err, b)
    ensures Onwards(a, b)
  {
    hide Grows, CallStep, ProperLook;
    forall i | 0 <= i < |a.list| ensures GoesOn(a.list[i], b) {
      var l, at := a.list[i], if place < |a.list| then place else |a.list| - 1;
      if i == at {
        CallGrows(l.look, call, err, b.list[i].look);
      } else {
        SameGrows(l.look);
      }
      assert b.list[i] in b.list;
    }
  }

  lemma CallGrows(a: Picture, call: Call, err: Code, b: Picture)
    requires ProperLook(a) && CallStep(a, call, err, b)
    ensures Grows(a, b) && Fits(b.state, b.response)
  {
    hide Effect, Render;
    EffectContinues(call, a.View(), err, b.View());
  }

  lemma VisitGrows(lim: Limits, now: int, l: Listed, offered: Input, v: Visited)
    requires Came(l.look, offered, v) && Did(lim, now, l.born, v)
    ensures Grows(l.look, v.after) && EndOf(l.id, v).Served? && EndOf(l.id, v).id == l.id && l.look.log < EndOf(l.id, v).events
  {
    hide Did;
    DidGrows(lim, now, l.born, v);
  }

  lemma DidGrows(lim: Limits, now: int, born: int, v: Visited)
    requires Did(lim, now, born, v)
    ensures Grows(v.before, v.after)
  {
    hide Overdue, ReceiveStep, SendStep;
    var a, b := v.before, v.stepped;
    if !v.input.ready {
      SameGrows(a);
    } else if a.state.Rank() < State.SendingStatus.Rank() {
      ReceiveGrows(a, v.input.net, v.input.script, now, v.err, b);
    } else {
      SendGrows(a, v.input.socket, now, v.err, b);
    }
  }

  /** What a successful visit leaves in the list is neither closing nor overdue. */
  lemma StaysInTime(lim: Limits, now: int, born: int, v: Visited)
    requires Did(lim, now, born, v) && v.err == Success && !Leaves(v)
    ensures v.after.state != Closing && !Overdue(lim, now, born, v.after)
  {
    hide PollStep;
  }

  /**
   * A run that has made the first of these actions, as many as rounds: `trace[i]` is the server before action `i`, and each step
   * is the one its action determines.
   */
  ghost predicate Traced(lim: Limits, actions: seq<Action>, rounds: seq<Round>, trace: seq<Scene>) {
    var n := |rounds|;
    && n <= |actions| && |trace| == n + 1 && trace[0] == Scene(0, [], 0, [])
    && (forall j {:trigger actions[j]} :: 0 <= j < n ==> ActStep(lim, trace[j], actions[j], rounds[j], trace[j + 1]))
    && forall c | c in trace :: Proper(c)
  }

  lemma TracedMore(lim: Limits, actions: seq<Action>, rounds: seq<Round>, trace: seq<Scene>, round: Round, b: Scene)
    requires Traced(lim, actions, rounds, trace) && |rounds| < |actions|
    requires ActStep(lim, trace[|rounds|], actions[|rounds|], round, b) && Proper(b)
    ensures Traced(lim, actions, rounds + [round], trace + [b])
  {
    hide ActStep, Proper;
  }

  /** Over any part of a run the history only grows, and every stream goes on where it was or has ended. */
  lemma {:induction false} RunGoesOn(lim: Limits, actions: seq<Action>, rounds: seq<Round>, trace: seq<Scene>, i: nat, j: nat)
    requires Traced(lim, actions, rounds, trace) && i <= j <= |rounds|
    ensures Onwards(trace[i], trace[j])
    decreases j
  {
    hide ActStep, Proper, Onwards;
    if i == j {
      SameOnwards(trace[i]);
    } else {
      RunGoesOn(lim, actions, rounds, trace, i, j - 1);
      assert actions[j - 1] == actions[j - 1];
      ActGoesOn(lim, trace[j - 1], actions[j - 1], rounds[j - 1], trace[j]);
      OnwardsTransitive(trace[i], trace[j - 1], trace[j]);
    }
  }

  /** When the server is closed at the end of a run, every stream that was ever in its list has ended, behind what it was then. */
  lemma EveryStreamEnds(lim: Limits, actions: seq<Action>, rounds: seq<Round>, trace: seq<Scene>, i: nat, l: Listed)
    requires Traced(lim, actions, rounds, trace) && i <= |rounds| && l in trace[i].list
    ensures var last := trace[|rounds|]; HasEnded(l, last.ended + Ends(last.list))
  {
    hide ActStep, Proper, Onwards, HasEnded;
    RunGoesOn(lim, actions, rounds, trace, i, |rounds|);
    EachEnds(trace[i], trace[|rounds|], l);
  }

  lemma EachEnds(a: Scene, b: Scene, l: Listed)
    requires Onwards(a, b) && l in a.list
    ensures HasEnded(l, b.ended + Ends(b.list))
  {
    var all := b.ended + Ends(b.list);
    if HasEnded(l, b.ended) {
      StaysEnded(l, b.ended, all);
    } else {
      var m :| m in b.list && m.id == l.id && m.born == l.born && Grows(l.look, m.look);
      var i :| 0 <= i < |b.list| && b.list[i] == m;
      var e := Served(m.id, m.look.log + [Close]);
      assert all[|b.ended| + i] == Ends(b.list)[i] == e;
      assert l.look.log <= m.look.log < e.events;
    }
  }

  // ----- what becomes of one stream -----

  /** A socket opened at some second has been idle, or alive, for more than so many milliseconds; 0 is no limit. */
  ghost predicate Exceeds(limit: nat, since: int, now: int) {
    limit > 0 && 1000 * (now - since) > limit
  }

  lemma SecondsExceed(limit: nat, since: int, now: int)
    ensures Exceeds(limit, since, now) <==> limit != 0 && now - since > limit / 1000
  {
  }

  /**
   * What a poll does at stream `i`, from what the world offers it: nothing to a socket that is not ready, a receive step while
   * the request is incomplete, a send step from then on; and then it is closed exactly if a limit is exceeded.
   */
  lemma VisitMeans(lim: Limits, a: Scene, time: int, world: nat -> Input, arrivals: seq<Newcomer>, round: Round, b: Scene, i: nat)
    requires Polled(lim, a, time, world, arrivals, round, b) && i < |round.visits| <= |a.list|
    requires IsSocket(world(i).socket) && Searchable(a.list[i].look.heard + Incoming(world(i).net))
    ensures var v, offered := round.visits[i], world(i);
      && v.before == a.list[i].look
      && (!offered.ready ==> v.err == Success && v.stepped == v.before)
      && (offered.ready && v.before.state in {ReceivingHeader, ReceivingRequest} ==>
            ReceiveStep(v.before, offered.net, offered.script, time, v.err, v.stepped))
      && (offered.ready && v.before.state !in {ReceivingHeader, ReceivingRequest} ==> SendStep(v.before, offered.socket, time, v.err, v.stepped))
      && v.after ==
         if v.err == Success
            && (|| Exceeds(lim.timeout, v.stepped.lastActivity, time) || Exceeds(lim.maxLifetime, a.list[i].born, time)
                || (lim.maxRequestSize > 0 && |v.stepped.heard| >= lim.maxRequestSize))
         then v.stepped.(state := Closing) else v.stepped
  {
    hide ReceiveStep, SendStep, Searchable, Accepted, Swept, Incoming;
    var v := round.visits[i];
    assert Came(a.list[i].look, world(i), v) && Did(lim, time, a.list[i].born, v);
    SecondsExceed(lim.timeout, v.stepped.lastActivity, time);
    SecondsExceed(lim.maxLifetime, a.list[i].born, time);
  }

  lemma AcceptKeepsList(a: Scene, arrivals: seq<Newcomer>, err: Code, b: Scene)
    requires Accepted(a, arrivals, err, b)
    ensures (forall l | l in a.list :: l in b.list) && a.ended <= b.ended
  {
    hide Joined;
    var n := |b.list| - |a.list|;
    forall l | l in a.list ensures l in b.list {
      var i :| 0 <= i < |a.list| && a.list[i] == l;
      assert b.list[n..][i] == b.list[n + i] == l;
    }
  }

  /**
   * Which streams a poll leaves in the list: what it has not come to as it was, what it has visited as the visit left it, and
   * of that all but what a successful visit left closing, which has ended with CLOSE behind its events.
   */
  lemma PollLeaves(lim: Limits, a: Scene, time: int, world: nat -> Input, arrivals: seq<Newcomer>, round: Round, b: Scene, i: nat)
    requires Polled(lim, a, time, world, arrivals, round, b) && i < |a.list|
    ensures i >= |round.visits| ==> a.list[i] in b.list
    ensures i < |round.visits| && (round.visits[i].err != Success || round.visits[i].after.state != Closing) ==>
              a.list[i].(look := round.visits[i].after) in b.list
    ensures i < |round.visits| && round.visits[i].err == Success && round.visits[i].after.state == Closing ==>
              Served(a.list[i].id, round.visits[i].after.log + [Close]) in b.ended
  {
    hide Toured, Accepted, Kept, Departed;
    var n, visits, m := |round.visits|, round.visits, Swept(a, time, round.visits);
    if b != m {
      AcceptKeepsList(m, arrivals, round.err, b);
    }
    if i >= n {
      assert a.list[n..][i - n] == a.list[i] && a.list[i] in m.list;
    } else if Leaves(visits[i]) {
      DepartedHas(a.list[..n], visits, i);
      assert EndOf(a.list[i].id, visits[i]) in m.ended;
    } else {
      KeptHas(Marked(a.list, visits), visits, i);
      assert Marked(a.list, visits)[i] in m.list;
    }
  }

  lemma {:induction false} CountsOnce(n: nat, x: nat)
    ensures multiset(Upto(n))[x] == if x < n then 1 else 0
  {
    if n == 0 {
      assert Upto(0) == [];
    } else {
      CountsOnce(n - 1, x);
      assert Upto(n) == Upto(n - 1) + [n - 1];
    }
  }

  /** What has ended is not in the list. */
  lemma EndedNotListed(c: Scene, e: Ended, l: Listed)
    requires Proper(c) && e in c.ended && l in c.list
    ensures e.id != l.id
  {
    hide ProperLook, Complete;
    CountsOnce(c.accepted, e.id);
    var i :| 0 <= i < |c.ended| && c.ended[i] == e;
    var j :| 0 <= j < |c.list| && c.list[j] == l;
    assert EndedIds(c.ended)[i] == e.id && e.id in multiset(EndedIds(c.ended));
    assert NumbersOf(c.list)[j] == l.id && l.id in multiset(NumbersOf(c.list));
  }

  /** A call by the application reaches the stream at its place, with its effect there, and no other. */
  lemma CallReaches(lim: Limits, a: Scene, place: nat, call: Call, round: Round, b: Scene)
    requires ActStep(lim, a, Calling(place, call), round, b) && place < |a.list|
    ensures |b.list| == |a.list| && forall i :: 0 <= i < |a.list| && i != place ==> b.list[i] == a.list[i]
    ensures Effect(call, Snapshot(a.list[place].look.state, a.list[place].look.response), round.err,
                   Snapshot(b.list[place].look.state, b.list[place].look.response))
    ensures b.list[place].look.log == a.list[place].look.log && b.list[place].look.heard == a.list[place].look.heard
    ensures b.list[place].look.wire == a.list[place].look.wire && b.ended == a.ended && b.accepted == a.accepted
  {
    hide Effect;
  }

  /** Who is let in: descriptors up to 1024, memory permitting; the handler of the connection decides whether that is a success. */
  lemma NewcomerMeans(c: Newcomer)
    ensures !c.Turned() <==> c.fd <= 1024 && c.memory
    ensures c.Outcome() == Success <==> c.fd <= 1024 && c.memory && (c.script.result == 0 || c.script.result == 1)
  {
  }

  /** An input that is one: the search for Content-Length ends in what arrives, and the socket takes something or nothing. */
  lemma AdmittedAsItIs(heard: bytes, offered: Input)
    ensures Admitted(heard, offered) == offered <==>
            IsSocket(offered.socket) && (Searchable(heard + Incoming(offered.net)) || offered.net == [])
  {
    hide Searchable;
  }

  // ----- streams as objects -----

  ghost function Lists(ss: seq<Stream>): (ls: seq<Listed>)
    reads ss, Buffers(ss), Memory(ss)
    ensures |ls| == |ss| && forall i :: 0 <= i < |ss| ==> ls[i] == Listed(ss[i].id, ss[i].initTime, ss[i].Look())
  {
    seq(|ss|, i requires 0 <= i < |ss| reads ss, Buffers(ss), Memory(ss) => Listed(ss[i].id, ss[i].initTime, ss[i].Look()))
  }

  /** These are the streams of the list. */
  ghost predicate Listing(ss: seq<Stream>, ls: seq<Listed>) {
    |ls| == |ss| && forall i :: 0 <= i < |ss| ==> ls[i].id == ss[i].id && ls[i].born == ss[i].initTime
  }

  lemma ListingAt(ss: seq<Stream>, ls: seq<Listed>, i: nat)
    requires Listing(ss, ls) && i < |ss|
    ensures |ls| == |ss| && ls[i].id == ss[i].id && ls[i].born == ss[i].initTime
  {
  }

  /** The streams look as they did before the sweep, or as their visits left them, if these left them at all. */
  ghost predicate Seen(ss: seq<Stream>, before: seq<Listed>, visits: seq<Visited>)
    requires |visits| <= |ss| == |before|
    reads ss, Buffers(ss), Memory(ss)
  {
    forall i :: 0 <= i < |ss| && (i < |visits| ==> !Leaves(visits[i])) ==>
      ss[i].Look() == if i < |visits| then visits[i].after else before[i].look
  }

  function Nth(ss: seq<Stream>, i: nat): Stream? {
    if i < |ss| then ss[i] else null
  }

  /** The list that starts at `head` is `ss`. */
  ghost predicate Linked(head: Stream?, ss: seq<Stream>)
    reads (set s | s in ss)`next
  {
    head == Nth(ss, 0) && forall i :: 0 <= i < |ss| ==> ss[i].next == Nth(ss, i + 1)
  }

  ghost predicate Sound(s: Stream)
    reads s`state, s`sendFp, s`wire, s`response, s`log, s.recvBuf, s.sendBuf, s.recvBuf.s, s.sendBuf.s
  {
    s.Valid() && Searchable(s.recvBuf.Contents()) && Opened(s.Lived())
  }

  /** The streams are sound and everything they consist of is in `repr`. */
  ghost predicate Owned(ss: seq<Stream>, repr: set<object>)
    reads repr
  {
    forall s | s in ss :: s in repr && s.recvBuf in repr && s.sendBuf in repr && s.Repr() <= repr && Sound(s)
  }

  ghost function Buffers(ss: seq<Stream>): set<Buffer> {
    (set s | s in ss :: s.recvBuf) + (set s | s in ss :: s.sendBuf)
  }

  ghost function Memory(ss: seq<Stream>): set<array<byte>>
    reads Buffers(ss)`s
  {
    set b | b in Buffers(ss) :: b.s
  }

  ghost predicate Apart(ss: seq<Stream>)
    reads Buffers(ss)`s
  {
    forall i, j :: 0 <= i < j < |ss| ==> ss[i].Repr() !! ss[j].Repr()
  }

  class Server {
    var streams: Stream?
    var now: int
    const timeout: nat
    const maxLifetime: nat
    const maxRequestSize: nat
    ghost var spine: seq<Stream>  // the list, from its head
    ghost var repr: set<object>
    ghost var accepted: nat  // sockets accepted so far, numbered in order
    ghost var ended: seq<Ended>

    /** The list is the spine, without sharing; every stream in it is sound. */
    ghost predicate Valid()
      reads this`streams, this`spine, this`repr, this`accepted, this`ended, repr
    {
      && this !in repr
      && List()
      && Accounted(accepted, spine, ended)
      && forall e | e in ended :: e.Served? ==> Complete(e.events)
    }

    constructor (timeout: nat, maxLifetime: nat, maxRequestSize: nat)
      ensures Valid() && spine == [] && repr == {} && accepted == 0 && ended == [] && now == 0
      ensures this.timeout == timeout && this.maxLifetime == maxLifetime && this.maxRequestSize == maxRequestSize
    {
      this.timeout, this.maxLifetime, this.maxRequestSize := timeout, maxLifetime, maxRequestSize;
      streams, now, spine, repr, accepted, ended := null, 0, [], {}, 0, [];
    }

    ghost predicate List()
      reads this`streams, this`spine, this`repr, repr
    {
      Owned(spine, repr) && Linked(streams, spine) && Apart(spine)
    }

    ghost function Bounds(): Limits {
      Limits(timeout, maxLifetime, maxRequestSize)
    }

    ghost function Look(): Scene
      reads this`now, this`spine, this`accepted, this`ended, spine, Buffers(spine), Memory(spine)
    {
      Scene(now, Lists(spine), accepted, ended)
    }

    /** What the world offers, as far as the model goes. */
    method Admit(st: Stream, offered: Input) returns (input: Input)
      requires Sound(st)
      ensures input == Admitted(st.Look().heard, offered)
      ensures IsSocket(input.socket) && Searchable(st.recvBuf.Contents() + Incoming(input.net))
    {
      hide Searchable, Incoming;
      assert st.recvBuf.Contents() + [] == st.recvBuf.Contents();
      NothingComes();
      input := Admitted(st.recvBuf.s[..st.recvBuf.len], offered);
    }

    /** One stream of the sweep: its receive or send step when the socket is ready for it, and the checks behind it. */
    method Visit(st: Stream, input: Input) returns (err: Code, ghost v: Visited)
      requires Sound(st) && IsSocket(input.socket) && Searchable(st.recvBuf.Contents() + Incoming(input.net))
      modifies st`state, st`response, st`sendFp, st`wire, st`log, st`expectedRecvLen, st`dataIdx, st`lastActivity
      modifies st.recvBuf, st.recvBuf.s, st.sendBuf, st.sendBuf.s
      ensures Sound(st)
      ensures (st.recvBuf.s == old(st.recvBuf.s) || fresh(st.recvBuf.s)) && (st.sendBuf.s == old(st.sendBuf.s) || fresh(st.sendBuf.s))
      ensures Did(Bounds(), now, st.initTime, v) && v == Visited(input, old(st.Look()), v.stepped, st.Look(), err)
    {
      hide Sound, Searchable, Incoming, ReceiveStep, SendStep, Overdue;
      var receptive := st.state.Rank() < State.SendingStatus.Rank();
      ghost var before := st.Look();
      if input.ready && receptive {
        err := Receive(st, input.net, input.script);
      } else if input.ready {
        err := Transmit(st, input.socket);
      } else {
        err := Success;
      }
      ghost var stepped := st.Look();
      if err == Success {
        CloseIfOverdue(st);
      }
      v := Visited(input, before, stepped, st.Look(), err);
    }

    /** The checks against timeout, maximum lifetime and maximum request size. */
    method CloseIfOverdue(st: Stream)
      requires Sound(st)
      modifies st`state
      ensures Sound(st)
      ensures st.Look() == if Overdue(Bounds(), now, st.initTime, old(st.Look())) then old(st.Look()).(state := Closing) else old(st.Look())
    {
      hide Searchable, Render;
      if (timeout != 0 && now - st.lastActivity > timeout / 1000)
         || (maxLifetime != 0 && now - st.initTime > maxLifetime / 1000)
         || (maxRequestSize != 0 && st.recvBuf.len >= maxRequestSize) {
        st.state := Closing;
      }
    }

    method Receive(st: Stream, net: seq<Arrival>, script: Script) returns (err: Code)
      requires Sound(st) && st.state.Rank() < State.SendingStatus.Rank() && Searchable(st.recvBuf.Contents() + Incoming(net))
      modifies st`state, st`response, st`sendFp, st`log, st`expectedRecvLen, st`dataIdx, st`lastActivity
      modifies st.recvBuf, st.recvBuf.s, st.sendBuf, st.sendBuf.s
      ensures Sound(st)
      ensures (st.recvBuf.s == old(st.recvBuf.s) || fresh(st.recvBuf.s)) && (st.sendBuf.s == old(st.sendBuf.s) || fresh(st.sendBuf.s))
      ensures ReceiveStep(old(st.Look()), net, script, now, err, st.Look())
    {
      hide Searchable, Lives, Opened, Incoming, ReceiveStep, CameIn;
      ghost var a, before := st.Lived(), st.recvBuf.Contents();
      err := st.Recv(net, script, now);
      StaysOpened(a, st.Lived());
      StillSearchable(before, Incoming(net), st.recvBuf.Contents());
    }

    method Transmit(st: Stream, socket: Socket) returns (err: Code)
      requires Sound(st) && IsSocket(socket) && st.state.Rank() >= State.SendingStatus.Rank()
      modifies st`state, st`sendFp, st`wire, st`lastActivity, st.sendBuf, st.sendBuf.s
      ensures Sound(st) && (st.sendBuf.s == old(st.sendBuf.s) || fresh(st.sendBuf.s))
      ensures SendStep(old(st.Look()), socket, now, err, st.Look())
    {
      hide Searchable, Render, SendStep;
      ghost var a := st.Look();
      err := st.Send(socket, now);
      SendKeepsOpened(a, socket, now, err, st.Look());
    }

    /** The same for a stream of a list; the others stay as they are. */
    method VisitAmong(ghost ss: seq<Stream>, ghost head: Stream?, ghost r: set<object>, st: Stream, input: Input) returns (err: Code, ghost v: Visited)
      requires Owned(ss, r) && Linked(head, ss) && Apart(ss) && st in ss
      requires IsSocket(input.socket) && Sound(st) && Searchable(st.recvBuf.Contents() + Incoming(input.net))
      modifies st`state, st`response, st`sendFp, st`wire, st`log, st`expectedRecvLen, st`dataIdx, st`lastActivity
      modifies st.recvBuf, st.recvBuf.s, st.sendBuf, st.sendBuf.s
      ensures Owned(ss, r + {st.recvBuf.s, st.sendBuf.s}) && Linked(head, ss) && Apart(ss) && fresh({st.recvBuf.s, st.sendBuf.s} - r)
      ensures Did(Bounds(), now, st.initTime, v) && v == Visited(input, old(st.Look()), v.stepped, st.Look(), err)
      ensures forall s | s in ss && s != st :: s.Look() == old(s.Look())
    {
      hide Owned, Linked, Sound, Apart, Did, Searchable, Incoming, Held;
      Member(ss, r, st);
      MembersApart(ss, r, st);
      ghost var reprs := Reprs(ss);
      ReprsApart(ss, r);
      err, v := Visit(st, input);
      AllMembers(ss, r + {st.recvBuf.s, st.sendBuf.s});
      StillApart(ss, reprs, st, {st.recvBuf.s, st.sendBuf.s} - r);
    }

    /** One stream of the list, left in the list; the others stay as they are. */
    method VisitInList(st: Stream, input: Input) returns (err: Code, ghost v: Visited)
      requires Valid() && st in spine && IsSocket(input.socket) && Searchable(st.recvBuf.Contents() + Incoming(input.net))
      modifies this`repr, repr
      ensures Valid() && fresh(repr - old(repr))
      ensures Did(Bounds(), now, st.initTime, v) && v == Visited(input, old(st.Look()), v.stepped, st.Look(), err)
      ensures forall s | s in spine && s != st :: s.Look() == old(s.Look())
    {
      hide Owned, Linked, Sound, Accounted, Complete, Apart, Did, Searchable, Incoming, Held;
      Member(spine, repr, st);
      err, v := VisitAmong(spine, streams, repr, st, input);
      repr := repr + {st.recvBuf.s, st.sendBuf.s};
    }

    /** `*st_next = st->next`, `prev` being the stream whose `next` is meant, null for the head of the list. */
    method Unlink(ghost kept: seq<Stream>, st: Stream, ghost rest: seq<Stream>, prev: Stream?)
      requires Linked(streams, kept + [st] + rest) && Distinct(kept + [st] + rest)
      requires prev == if kept == [] then null else kept[|kept| - 1]
      modifies this`streams, (if prev == null then {} else {prev})`next
      ensures Linked(streams, kept + rest)
    {
      hide Nth;
      ghost var all, left := kept + [st] + rest, kept + rest;
      Skipping(kept, st, rest);
      assert all[|kept|].next == Nth(all, |kept| + 1);
      if prev == null {
        streams := st.next;
      } else {
        prev.next := st.next;
      }
      forall i | 0 <= i < |left| ensures left[i].next == Nth(left, i + 1) {
        var j := if i < |kept| then i else i + 1;
        assert i != |kept| - 1 ==> all[j] != prev && old(all[j].next) == Nth(all, j + 1);
      }
    }

    /** The same for a list of sound streams that share nothing; they stay so. */
    method UnlinkSound(ghost kept: seq<Stream>, st: Stream, ghost rest: seq<Stream>, prev: Stream?)
      requires Linked(streams, kept + [st] + rest) && Distinct(kept + [st] + rest) && Apart(kept + rest)
      requires forall s | s in kept + [st] + rest :: Sound(s) && (prev != null ==> prev !in BuffersOf(s))
      requires prev == if kept == [] then null else kept[|kept| - 1]
      modifies this`streams, (if prev == null then {} else {prev})`next
      ensures Linked(streams, kept + rest) && Apart(kept + rest) && forall s | s in kept + [st] + rest :: Sound(s)
    {
      hide Linked, Sound, Apart, Nth, Distinct;
      ghost var all, bufs := kept + [st] + rest, Buffers(kept + rest);
      Unlink(kept, st, rest, prev);
      assert Apart(kept + rest) by {
        assert forall b | b in bufs :: b.s == old(b.s);
      }
      forall s: Stream | s in all ensures Sound(s) {
        assert old(Sound(s));
      }
    }

    /** Takes a stream out of the list; the list no longer owns it. */
    method TakeOut(ghost kept: seq<Stream>, st: Stream, ghost rest: seq<Stream>, prev: Stream?)
      requires List() && spine == kept + [st] + rest && prev == if kept == [] then null else kept[|kept| - 1]
      modifies this`streams, this`spine, this`repr, (if prev == null then {} else {prev})`next
      ensures List() && spine == kept + rest && repr == old(repr) - st.Repr() && Sound(st)
    {
      hide Owned, Linked, Sound, Apart, Nth, Distinct;
      Parting(kept, st, rest, repr, prev);
      spine, repr := kept + rest, repr - st.Repr();
      UnlinkSound(kept, st, rest, prev);
      AllMembers(kept + rest, repr);
    }

    /** Takes a closing stream out of the list and destroys it. */
    method Remove(ghost kept: seq<Stream>, st: Stream, ghost rest: seq<Stream>, prev: Stream?)
      requires Valid() && spine == kept + [st] + rest && prev == if kept == [] then null else kept[|kept| - 1]
      modifies this`streams, this`spine, this`repr, this`ended, repr
      ensures Valid() && spine == kept + rest && repr <= old(repr)
      ensures ended == old(ended) + [Served(st.id, old(st.log) + [Close])] && st.log == old(st.log) + [Close] && st !in repr
      ensures forall s | s in old(spine) && s != st :: s.Look() == old(s.Look())
    {
      hide Owned, Linked, Sound, Accounted, Complete, Apart, Held;
      Member(spine, repr, st);
      MembersApart(spine, repr, st);
      RestApart(kept, st, rest);
      ServedAccounted(accepted, kept, st, rest, ended);
      TakeOut(kept, st, rest, prev);
      Destroy(st);
    }

    /** One turn of the sweep. */
    method Turn(ghost kept: seq<Stream>, st: Stream, ghost rest: seq<Stream>, prev: Stream?, offered: Input)
      returns (err: Code, gone: bool, ghost v: Visited)
      requires Valid() && spine == kept + [st] + rest && prev == if kept == [] then null else kept[|kept| - 1]
      modifies this`streams, this`spine, this`repr, this`ended, repr
      ensures Valid() && fresh(repr - old(repr))
      ensures Did(Bounds(), now, st.initTime, v) && Came(old(st.Look()), offered, v)
      ensures v.err == err && gone == Leaves(v)
      ensures if gone then spine == kept + rest && ended == old(ended) + [EndOf(st.id, v)]
              else spine == kept + [st] + rest && ended == old(ended) && st.Look() == v.after
      ensures forall s | s in old(spine) && s != st :: s.Look() == old(s.Look())
    {
      hide Owned, Linked, Apart, Accounted, Complete, Sound, Did, Searchable, Incoming, Admitted;
      Member(spine, repr, st);
      var input := Admit(st, offered);
      err, v := VisitInList(st, input);
      gone := err == Success && st.state == Closing;
      if gone {
        Remove(kept, st, rest, prev);
      }
    }

    /** Of the list `all` the sweep has made as many visits, and stands behind `prev`. */
    ghost predicate SweptTo(all: seq<Stream>, visits: seq<Visited>, prev: Stream?)
      requires |visits| <= |all|
      reads this`spine
    {
      var kept := Kept(all[..|visits|], visits);
      spine == kept + all[|visits|..] && prev == if kept == [] then null else kept[|kept| - 1]
    }

    method SweepOne(ghost all: seq<Stream>, ghost before: seq<Listed>, ghost visits: seq<Visited>, prev: Stream?, offered: Input)
      returns (err: Code, ghost v: Visited, last: Stream?)
      requires Valid() && |visits| <= |all| == |before| && Distinct(all) && Cursor(prev) != null
      requires SweptTo(all, visits, prev) && Listing(all, before) && Seen(all, before, visits)
      modifies this`streams, this`spine, this`repr, this`ended, repr
      ensures Valid() && fresh(repr - old(repr)) && |visits| < |all|
      ensures Came(before[|visits|].look, offered, v) && Did(Bounds(), now, before[|visits|].born, v) && v.err == err
      ensures spine == Kept(all[..|visits| + 1], visits + [v]) + all[|visits| + 1..]
      ensures err == Success ==> SweptTo(all, visits + [v], last)
      ensures Seen(all, before, visits + [v])
      ensures ended == old(ended) + if Leaves(v) then [EndOf(before[|visits|].id, v)] else []
    {
      hide Valid, Kept, Did, Admitted, Nth, EndOf, Came, Listing, Held;
      var st := Cursor(prev);
      ghost var kept, rest := Kept(all[..|visits|], visits), all[|visits|..];
      CursorAt(kept, rest, prev);
      RestStep(kept, all, |visits|);
      StillListed(all, visits);
      ListingAt(all, before, |visits|);
      var gone;
      err, gone, v := Turn(kept, st, rest[1..], prev, offered);
      KeptStep(all, visits, v);
      last := if gone then prev else st;
    }

    /** The same, as far as the visits and ends of the whole sweep go. */
    method SweepNext(ghost all: seq<Stream>, ghost before: seq<Listed>, world: nat -> Input, ghost visits: seq<Visited>, prev: Stream?, pos: nat,
                     ghost was: seq<Ended>) returns (err: Code, ghost v: Visited, last: Stream?)
      requires Valid() && |visits| <= |all| == |before| && Distinct(all) && Cursor(prev) != null && pos == |visits|
      requires SweptTo(all, visits, prev) && Listing(all, before) && Seen(all, before, visits) && Toured(Bounds(), now, before, world, visits)
      requires ended == was + Departed(before[..|visits|], visits)
      modifies this`streams, this`spine, this`repr, this`ended, repr
      ensures Valid() && fresh(repr - old(repr)) && |visits| < |all| && v.err == err
      ensures spine == Kept(all[..|visits| + 1], visits + [v]) + all[|visits| + 1..]
      ensures err == Success ==> SweptTo(all, visits + [v], last)
      ensures Seen(all, before, visits + [v]) && Toured(Bounds(), now, before, world, visits + [v])
      ensures ended == was + Departed(before[..|visits| + 1], visits + [v])
    {
      hide Valid, Kept, Departed, Nth, Did, Seen, Leaves, EndOf, Toured, Distinct, Linked, Came, Listing, SweptTo;
      NotOwned();
      err, v, last := SweepOne(all, before, visits, prev, world(pos));
      DepartedStep(before, visits, v);
      TouredMore(before, world, visits, v);
      AssocEnded(was, Departed(before[..|visits|], visits), if Leaves(v) then [EndOf(before[|visits|].id, v)] else []);
    }

    /**
     * The sweep of `sb_poll_server` over the list. It visits the streams from the head on, each once, and takes out
     * the ones it finds closing; an error ends it with the visit it occurs in, whose stream stays.
     */
    method Sweep(world: nat -> Input, ghost before: seq<Listed>) returns (err: Code, ghost visits: seq<Visited>)
      requires Valid() && Listing(spine, before) && Seen(spine, before, [])
      modifies this`streams, this`spine, this`repr, this`ended, repr
      ensures Valid() && fresh(repr - old(repr)) && |visits| <= |old(spine)|
      ensures Toured(Bounds(), now, before, world, visits) && Seen(old(spine), before, visits)
      ensures forall i :: 0 <= i < |visits| ==> visits[i].err == if i < |visits| - 1 then Success else err
      ensures if err == Success then |visits| == |old(spine)| else |visits| > 0
      ensures spine == Kept(old(spine)[..|visits|], visits) + old(spine)[|visits|..]
      ensures ended == old(ended) + Departed(before[..|visits|], visits)
    {
      hide Valid, Kept, Departed, Nth, Did, Seen, Leaves, EndOf, Toured, Distinct, Linked, Came, Listing;
      NotOwned();
      visits, err := [], Success;
      var prev: Stream? := null;
      ghost var all := spine;
      SweepStarts(before, world);
      var pos := 0;
      while Cursor(prev) != null
        invariant Valid() && fresh(repr - old(repr)) && err == Success
        invariant pos == |visits| <= |all| && SweptTo(all, visits, prev) && Toured(Bounds(), now, before, world, visits) && Seen(all, before, visits)
        invariant forall i :: 0 <= i < |visits| ==> visits[i].err == Success
        invariant ended == old(ended) + Departed(before[..|visits|], visits)
        decreases |all| - |visits|
      {
        ghost var v;
        err, v, prev := SweepNext(all, before, world, visits, prev, pos, old(ended));
        visits, pos := visits + [v], pos + 1;
        if err != Success { return; }
      }
      SweepEnds(all, visits, prev);
    }

    lemma SweepStarts(before: seq<Listed>, world: nat -> Input)
      requires Valid() && Listing(spine, before)
      ensures |before| == |spine| && SweptTo(spine, [], null) && Distinct(spine) && Toured(Bounds(), now, before, world, [])
      ensures Departed(before[..0], []) == [] && ended + [] == ended
    {
      hide Owned, Linked, Accounted, Complete;
      ApartDistinct(spine);
    }

    lemma NotOwned()
      requires Valid()
      ensures this !in repr
    {
    }

    lemma TouredMore(before: seq<Listed>, world: nat -> Input, visits: seq<Visited>, v: Visited)
      requires |visits| < |before| && Toured(Bounds(), now, before, world, visits)
      requires Came(before[|visits|].look, world(|visits|), v) && Did(Bounds(), now, before[|visits|].born, v)
      ensures Toured(Bounds(), now, before, world, visits + [v])
    {
      hide Did, Came;
    }

    lemma SweepEnds(all: seq<Stream>, visits: seq<Visited>, prev: Stream?)
      requires Valid() && |visits| <= |all| && SweptTo(all, visits, prev) && Cursor(prev) == null
      ensures |visits| == |all|
    {
      CursorAt(Kept(all[..|visits|], visits), all[|visits|..], prev);
    }

    /** `*st_next` */
    function Cursor(prev: Stream?): Stream?
      reads this`streams, (if prev == null then {} else {prev})`next
    {
      if prev == null then streams else prev.next
    }

    lemma CursorAt(kept: seq<Stream>, rest: seq<Stream>, prev: Stream?)
      requires Valid() && spine == kept + rest && prev == if kept == [] then null else kept[|kept| - 1]
      ensures if rest == [] then Cursor(prev) == null else Cursor(prev) == rest[0]
    {
      assert kept != [] ==> (kept + rest)[|kept| - 1] == prev;
    }

    /** One connection from `accept`: refused, or pushed to the front of the list and announced to the handler. */
    method Accept(c: Newcomer) returns (err: Code)
      requires Valid()
      modifies this`streams, this`spine, this`repr, this`accepted, this`ended
      ensures Valid() && fresh(repr - old(repr)) && AcceptStep(old(Look()), c, err, Look())
      ensures if c.Turned() then spine == old(spine) else |spine| > 0 && spine == [spine[0]] + old(spine) && fresh(spine[0])
    {
      hide Owned, Linked, Apart, Accounted, Complete, Sound, AcceptStep, Lists, ResultCode;
      ghost var a := Look();
      if c.fd > FD_SETSIZE {
        Refuse();
        RefusedLook(a, c);
        return FdTooBig;
      }
      if !c.memory {
        Refuse();
        RefusedLook(a, c);
        return OutOfMem;
      }
      err := Join(c);
    }

    /** The connection is pushed to the front of the list. */
    method Join(c: Newcomer) returns (err: Code)
      requires Valid() && !c.Turned()
      modifies this`streams, this`spine, this`repr, this`accepted
      ensures Valid() && fresh(repr - old(repr)) && AcceptStep(old(Look()), c, err, Look())
      ensures |spine| > 0 && spine == [spine[0]] + old(spine) && fresh(spine[0])
    {
      hide Owned, Linked, Apart, Accounted, Complete, Sound, Joined, AcceptStep, Lists, ResultCode, Held, Memory;
      ghost var a, all := Look(), spine;
      var st;
      err, st := ConnectedBeside(streams, spine, c);
      Joins(st, streams, spine, repr);
      OneMoreSocket(accepted, st, spine, ended);
      streams, spine, repr, accepted := st, [st] + spine, repr + st.Repr(), accepted + 1;
      JoinedLook(a, c, st, all);
    }

    /** A new stream beside those of a list. */
    method ConnectedBeside(head: Stream?, ghost ss: seq<Stream>, c: Newcomer) returns (err: Code, st: Stream)
      requires Apart(ss)
      ensures fresh(st.Repr()) && Sound(st) && st.next == head && st.id == accepted && st.initTime == now
      ensures Joined(accepted, now, c, Listed(accepted, now, st.Look())) && err == ResultCode(c.script.result)
      ensures Apart(ss)
    {
      hide Apart, Sound, Joined, ResultCode;
      ghost var bufs := Buffers(ss);
      err, st := Connected(accepted, head, c);
      assert Apart(ss) by {
        assert forall b | b in bufs :: b.s == old(b.s);
      }
    }

    lemma RefusedLook(a: Scene, c: Newcomer)
      requires c.Turned() && Look() == a.(accepted := a.accepted + 1, ended := a.ended + [Refused(a.accepted)])
      ensures AcceptStep(a, c, if c.fd > FD_SETSIZE then FdTooBig else OutOfMem, Look())
    {
      hide Lists, Joined;
    }

    lemma JoinedLook(a: Scene, c: Newcomer, st: Stream, all: seq<Stream>)
      requires !c.Turned() && spine == [st] + all && Lists(all) == a.list
      requires now == a.now && accepted == a.accepted + 1 && ended == a.ended
      requires Joined(a.accepted, a.now, c, Listed(st.id, st.initTime, st.Look()))
      ensures AcceptStep(a, c, ResultCode(c.script.result), Look())
    {
      hide Joined, ResultCode;
      ListsConcat([st], all);
      assert Look().list[1..] == a.list;
    }

    /** A new stream in front of `head`, announced to the handler. */
    method Connected(ghost id: nat, head: Stream?, c: Newcomer) returns (err: Code, st: Stream)
      ensures fresh(st.Repr()) && Sound(st) && st.next == head && st.id == id && st.initTime == now
      ensures Joined(id, now, c, Listed(id, now, st.Look())) && err == ResultCode(c.script.result)
    {
      hide Sound, Joined, Blank, Searchable, Render, Continues, ScriptRan, ResultCode, Fits;
      st := Unconnected(id, head, c.ample);
      err := st.Emit(Connect, c.script);
      NewSound(st, c.ample);
      NewJoined(st, c);
    }

    /** `sb_stream_new`, and the stream put before `head`. */
    method Unconnected(ghost id: nat, head: Stream?, ample: bool) returns (st: Stream)
      ensures fresh(st.Repr()) && st.Valid() && Blank(st, ample) && st.log == [] && st.View() == Snapshot(ReceivingHeader, Nothing)
      ensures st.next == head && st.id == id && st.initTime == now
    {
      hide Render, Fits;
      st := new Stream(id, now, ample);
      st.next := head;
      assert st.recvBuf.Contents() == [];
    }

    /** A stream as `sb_stream_new` and its CONNECT event leave it. */
    lemma NewJoined(s: Stream, c: Newcomer)
      requires s.Valid() && Blank(s, c.ample) && s.log == [Connect]
      requires ScriptRan(c.script, Snapshot(ReceivingHeader, Nothing), s.View())
      ensures Joined(s.id, s.initTime, c, Listed(s.id, s.initTime, s.Look()))
    {
      hide Render, PowerOfTwo, ScriptRan, Fits;
      Assoc(s.wire, s.sendBuf.Contents(), s.Unread());
    }

    /** Closes a connection right after accepting it. */
    ghost method Refuse()
      requires Accounted(accepted, spine, ended)
      modifies this`accepted, this`ended
      ensures accepted == old(accepted) + 1 && ended == old(ended) + [Refused(old(accepted))] && Accounted(accepted, spine, ended)
    {
      assert Upto(accepted + 1) == Upto(accepted) + [accepted];
      assert EndedIds(ended + [Refused(accepted)]) == EndedIds(ended) + [accepted];
      ended, accepted := ended + [Refused(accepted)], accepted + 1;
    }

    /**
     * `sb_poll_server`. It visits the streams in order, each once, and does to each what a poll does; on success it has visited
     * all of them. The list is the new connections, the latest first, followed by the old streams in order without those found
     * closing; these have ended, and no others but a refused one. What stays goes on where it was.
     */
    method Poll(time: int, world: nat -> Input, listening: bool, arrivals: seq<Newcomer>)
      returns (err: Code, ghost visits: seq<Visited>, ghost news: seq<Stream>)
      requires Valid()
      modifies this`now, this`streams, this`spine, this`repr, this`accepted, this`ended, repr
      ensures Valid() && fresh(repr - old(repr)) && |visits| <= |old(spine)|
      ensures Polled(Bounds(), old(Look()), time, world, if listening then arrivals else [], Round(err, visits), Look())
      ensures spine == news + (Kept(old(spine)[..|visits|], visits) + old(spine)[|visits|..]) && forall s | s in news :: fresh(s)
      ensures Onwards(old(Look()), Look()) && KeptInTime(Bounds(), time, old(Look()).list, visits)
    {
      hide *;
      NotOwned();
      ListDistinct();
      ghost var a, all := Look(), spine;
      LookParts();
      ghost var before := SetClock(time);
      err, visits := Sweep(world, before);
      SweptLook(a, all, visits, old(ended));
      news := [];
      ghost var swept, c := spine, err;
      if err == Success {
        err, news := AcceptIfReady(listening, arrivals);
      }
      assert spine == news + swept;
      SweepThenAccept(Bounds(), a, time, world, if listening then arrivals else [], visits, c, err, Look());
      PollGoesOn(Bounds(), a, time, world, if listening then arrivals else [], Round(err, visits), Look());
      VisitsInTime(Bounds(), time, a.list, world, visits);
    }

    /** What the sweep has left is what its visits say. */
    lemma SweptLook(a: Scene, all: seq<Stream>, visits: seq<Visited>, was: seq<Ended>)
      requires |visits| <= |all| && Listing(all, a.list) && Seen(all, a.list, visits)
      requires spine == Kept(all[..|visits|], visits) + all[|visits|..]
      requires accepted == a.accepted && was == a.ended && ended == was + Departed(a.list[..|visits|], visits)
      ensures Look() == Swept(a, now, visits)
    {
      hide Kept, Departed, Leaves, Seen, Listing, Marked, Lists, Held;
      SeenLists(all, a.list, visits);
      var n, marked := |visits|, Marked(a.list, visits);
      KeptLists(all[..n], marked, visits);
      ListsConcat(Kept(all[..n], visits), all[n..]);
    }

    lemma LookParts()
      ensures Look().list == Lists(spine) && |Lists(spine)| == |spine| && Look().accepted == accepted && Look().ended == ended
    {
      hide Valid;
    }

    /** `srv->now = time(NULL)`; nothing else changes. */
    method SetClock(time: int) returns (ghost before: seq<Listed>)
      modifies this`now
      ensures now == time && before == old(Look()).list
      ensures Listing(spine, before) && Seen(spine, before, [])
    {
      before := Lists(spine);
      now := time;
    }

    /** The second half of the poll; it leaves the streams of the sweep alone. */
    method AcceptIfReady(listening: bool, arrivals: seq<Newcomer>) returns (err: Code, ghost news: seq<Stream>)
      requires Valid()
      modifies this`streams, this`spine, this`repr, this`accepted, this`ended
      ensures Valid() && fresh(repr - old(repr)) && spine == news + old(spine) && forall s | s in news :: fresh(s)
      ensures Accepted(old(Look()), if listening then arrivals else [], err, Look())
    {
      hide Valid, Joined;
      err, news := Success, [];
      if listening {
        err, news := AcceptAll(arrivals);
      }
    }

    method AcceptAll(arrivals: seq<Newcomer>) returns (err: Code, ghost news: seq<Stream>)
      requires Valid()
      modifies this`streams, this`spine, this`repr, this`accepted, this`ended
      ensures Valid() && fresh(repr - old(repr)) && spine == news + old(spine) && forall s | s in news :: fresh(s)
      ensures Accepted(old(Look()), arrivals, err, Look())
    {
      ghost var a := Look();
      NoneAccepted(a, arrivals);
      hide Valid, AcceptedTo, AcceptStep, Accepted, Lists, Look;
      err, news := Success, [];
      var i := 0;
      while i < |arrivals|
        invariant i <= |arrivals| && Valid() && fresh(repr - old(repr)) && spine == news + old(spine) && forall s | s in news :: fresh(s)
        invariant AcceptedTo(a, arrivals, i, Success, Look()) && err == Success
      {
        ghost var m := Look();
        err := Accept(arrivals[i]);
        AcceptedMore(a, arrivals, i, m, err, Look());
        if !arrivals[i].Turned() {
          news := [spine[0]] + news;
        }
        i := i + 1;
        if err != Success { break; }
      }
      SocketsCounted(a, arrivals, i, err, Look());
    }

    /** The application calls the response functions of a stream at any time between polls; the others stay as they are. */
    method CallOn(st: Stream, call: Call) returns (err: Code)
      requires Valid() && st in spine
      modifies this`repr, repr
      ensures Valid() && fresh(repr - old(repr)) && CallStep(old(st.Look()), call, err, st.Look())
      ensures forall s | s in spine && s != st :: s.Look() == old(s.Look())
    {
      hide Owned, Linked, Sound, Accounted, Complete, Apart, CallStep;
      Member(spine, repr, st);
      err := CallAmong(spine, streams, repr, st, call);
      repr := repr + {st.recvBuf.s, st.sendBuf.s};
    }

    /** The same for a stream of a list. */
    method CallAmong(ghost ss: seq<Stream>, ghost head: Stream?, ghost r: set<object>, st: Stream, call: Call) returns (err: Code)
      requires Owned(ss, r) && Linked(head, ss) && Apart(ss) && st in ss && Sound(st)
      modifies st`state, st`response, st`sendFp, st.sendBuf, st.sendBuf.s
      ensures Owned(ss, r + {st.recvBuf.s, st.sendBuf.s}) && Linked(head, ss) && Apart(ss) && fresh({st.recvBuf.s, st.sendBuf.s} - r)
      ensures CallStep(old(st.Look()), call, err, st.Look())
      ensures forall s | s in ss && s != st :: s.Look() == old(s.Look())
    {
      hide Owned, Linked, Sound, Apart, CallStep, Held;
      Member(ss, r, st);
      MembersApart(ss, r, st);
      ghost var reprs := Reprs(ss);
      ReprsApart(ss, r);
      err := MakeCall(st, call);
      AllMembers(ss, r + {st.recvBuf.s, st.sendBuf.s});
      StillApart(ss, reprs, st, {st.recvBuf.s, st.sendBuf.s} - r);
    }

    /** A poll, or a call by the application, as its input determines: nothing is taken back by either. */
    method Act(action: Action) returns (err: Code, ghost visits: seq<Visited>)
      requires Valid()
      modifies this`now, this`streams, this`spine, this`repr, this`accepted, this`ended, repr
      ensures Valid() && fresh(repr - old(repr))
      ensures ActStep(Bounds(), old(Look()), action, Round(err, visits), Look())
      ensures Onwards(old(Look()), Look()) && Proper(Look())
    {
      hide *;
      ValidProper();
      ghost var a := Look();
      match action {
        case Polling(time, world, listening, arrivals) =>
          ghost var news;
          err, visits, news := Poll(time, world, listening, arrivals);
          PollActs(Bounds(), a, action, Round(err, visits), Look());
        case Calling(place, call) =>
          err := Call(place, call);
          visits := [];
          CallActs(Bounds(), a, action, Round(err, visits), Look());
      }
      ActGoesOn(Bounds(), a, action, Round(err, visits), Look());
      ValidProper();
    }

    /** A call on the stream at that place of the list, or the last, if there is one. */
    method Call(place: nat, call: Call) returns (err: Code)
      requires Valid()
      modifies this`repr, repr
      ensures Valid() && fresh(repr - old(repr)) && spine == old(spine)
      ensures Called(old(Look()), place, call, err, Look())
    {
      hide Valid, CallStep, Held, Distinct, Called, Lists;
      NotOwned();
      NoCall(place, call);
      NothingListed();
      err := Success;
      ghost var a := Look();
      if streams != null {
        ListDistinct();
        var st, i := StreamAt(place);
        OthersApart(spine, i);
        ListsParts(spine);
        err := CallOn(st, call);
        OneCalled(a, place, call, i, err);
      }
    }

    lemma NoCall(place: nat, call: Call)
      ensures |Lists(spine)| == |spine| && (spine == [] ==> Called(Look(), place, call, Success, Look()))
    {
    }

    lemma OneCalled(a: Scene, place: nat, call: Call, i: nat, err: Code)
      requires |a.list| == |spine| > 0 && i == (if place < |spine| then place else |spine| - 1)
      requires a == Scene(now, a.list, accepted, ended) && CallStep(a.list[i].look, call, err, spine[i].Look())
      requires forall j :: 0 <= j < |spine| ==>
                 a.list[j] == Listed(spine[j].id, spine[j].initTime, if j == i then a.list[i].look else spine[j].Look())
      ensures Called(a, place, call, err, Look())
    {
      hide CallStep;
    }

    lemma NewLook(actions: seq<Action>)
      requires Valid() && spine == [] && accepted == 0 && ended == [] && now == 0
      ensures Bounds() == Limits(timeout, maxLifetime, maxRequestSize) && Traced(Bounds(), actions, [], [Look()])
    {
      hide Valid, Proper;
      ValidProper();
      assert Look() == Scene(0, [], 0, []);
    }

    /** Everything a server keeps shows in what can be seen of it. */
    lemma ValidProper()
      requires Valid()
      ensures Proper(Look())
    {
      hide Linked, Apart, Complete, Render, Opened, Fits, Searchable;
      assert NumbersOf(Lists(spine)) == Ids(spine);
      forall l | l in Lists(spine) ensures ProperLook(l.look) {
        var i :| 0 <= i < |spine| && Lists(spine)[i] == l;
        SoundProper(spine[i]);
      }
    }

    lemma NothingListed()
      requires Valid()
      ensures streams == null <==> spine == []
    {
    }

    lemma ListDistinct()
      requires Valid()
      ensures Distinct(spine)
    {
      hide Owned, Linked, Accounted, Complete;
      ApartDistinct(spine);
    }

    /** In every reachable state a client has received a prefix of the response its stream stands for. */
    lemma EveryStream(s: Stream)
      requires Valid() && s in spine
      ensures Fits(s.state, s.response) && s.wire <= Render(s.response) && Opened(s.Lived())
      ensures s.wire == Render(s.response) && Clean(s.response) ==> Parse(s.wire) == Some(s.response)
    {
      hide Linked, Apart, Accounted, Complete, Clean, Render, Parse;
      Member(spine, repr, s);
      s.OnTheWire();
    }

    /** The stream at that place of the list, or the last. */
    method StreamAt(place: nat) returns (st: Stream, ghost i: nat)
      requires Valid() && streams != null
      ensures i < |spine| && st == spine[i] && i == if place < |spine| then place else |spine| - 1
    {
      hide Owned, Apart, Accounted, Complete;
      st := streams;
      var at := 0;
      while at < place && st.next != null
        invariant at < |spine| && at <= place && st == spine[at]
        decreases place - at
      {
        at, st := at + 1, st.next;
      }
      i := at;
    }

    method MakeCall(st: Stream, call: Call) returns (err: Code)
      requires Sound(st)
      modifies st`state, st`response, st`sendFp, st.sendBuf, st.sendBuf.s
      ensures Sound(st) && (st.sendBuf.s == old(st.sendBuf.s) || fresh(st.sendBuf.s))
      ensures CallStep(old(st.Look()), call, err, st.Look())
    {
      hide Searchable, Effect, Render;
      ghost var a := st.View();
      err := st.MakeCall(call);
      EffectContinues(call, a, err, st.View());
    }

    /** `sb_close_server`: the streams are destroyed from the head on. */
    method CloseServer()
      requires Valid()
      modifies this`streams, this`spine, this`repr, this`ended, repr
      ensures spine == [] && ended == old(ended) + Ends(old(Look()).list)
      ensures forall s | s in old(spine) :: s.log == old(s.log) + [Close]
      ensures AllClosedOnce()
    {
      hide Valid;
      ghost var all, list, was, k := spine, Lists(spine), ended, 0;
      while streams != null
        invariant Valid() && repr <= old(repr) && k <= |all| && spine == all[k..] && Lists(spine) == list[k..]
        invariant ended == was + Ends(list)[..k]
        invariant forall i :: 0 <= i < k ==> all[i] !in repr && all[i].log == list[i].look.log + [Close]
        decreases |all| - k
      {
        NothingListed();
        NextEnd(all, list, was, k);
        DestroyHead();
        k := k + 1;
      }
      NothingOpen();
      assert k == |all| && Ends(list)[..k] == Ends(list);
    }

    /** The first stream of the list ends; the others stay as they are. */
    method DestroyHead()
      requires Valid() && streams != null
      modifies this`streams, this`spine, this`repr, this`ended, repr
      ensures Valid() && repr <= old(repr) && |old(spine)| > 0 && spine == old(spine)[1..]
      ensures ended == old(ended) + [Served(old(spine[0]).id, old(spine[0].log) + [Close])]
      ensures old(spine[0]) !in repr && old(spine[0]).log == old(spine[0].log) + [Close]
      ensures Lists(spine) == old(Lists(spine))[1..]
    {
      hide Valid, Distinct, Lists;
      HeadListed();
      ListDistinct();
      ghost var all, list := spine, Lists(spine);
      OthersApart(all, 0);
      ListsParts(all);
      Remove([], streams, spine[1..], null);
      OthersListed(all, list);
    }

    lemma HeadListed()
      requires Valid() && streams != null
      ensures spine != [] && streams == spine[0] && spine == [] + [spine[0]] + spine[1..] && [] + spine[1..] == spine[1..]
    {
      hide Owned, Apart, Accounted, Complete, Sound;
    }

    lemma NothingOpen()
      requires Valid() && streams == null
      ensures spine == [] && AllClosedOnce()
    {
    }

    /** Every socket ever accepted has been closed, once; every stream emitted a complete history. */
    ghost predicate AllClosedOnce()
      reads this`accepted, this`ended
    {
      multiset(EndedIds(ended)) == multiset(Upto(accepted)) && forall e | e in ended :: e.Served? ==> Complete(e.events)
    }

    /** `sb_stream_destroy` */
    method Destroy(st: Stream)
      requires Sound(st)
      modifies this`ended, st`state, st`response, st`sendFp, st`log, st.sendBuf, st.sendBuf.s
      ensures ended == old(ended) + [Served(st.id, old(st.log) + [Close])] && Complete(old(st.log) + [Close])
      ensures st.log == old(st.log) + [Close]
    {
      hide Searchable, Opened, Complete;
      var script: Script := *;
      ghost var a := st.Lived();
      var err := st.Emit(Close, script);
      CloseCompletes(a);
      ended := ended + [Served(st.id, st.log)];
    }
  }

  lemma Member(ss: seq<Stream>, repr: set<object>, s: Stream)
    requires Owned(ss, repr) && s in ss
    ensures s in repr && s.recvBuf in repr && s.sendBuf in repr && s.Repr() <= repr && Sound(s)
  {
  }

  /**
   * A whole run: polls and calls by the application in any order, failing or not, each the step its input determines, and then
   * `sb_close_server`, which ends what is still in the list.
   */
  method Run(actions: seq<Action>, timeout: nat, maxLifetime: nat, maxRequestSize: nat)
    returns (server: Server, ghost rounds: seq<Round>, ghost trace: seq<Scene>)
    ensures fresh(server) && |rounds| == |actions| && |trace| == |actions| + 1
    ensures Traced(Limits(timeout, maxLifetime, maxRequestSize), actions, rounds, trace)
    ensures var last := trace[|actions|];
      server.spine == [] && server.ended == last.ended + Ends(last.list) && server.accepted == last.accepted
    ensures server.AllClosedOnce()
  {
    server := new Server(timeout, maxLifetime, maxRequestSize);
    hide *;
    ghost var lim := Limits(timeout, maxLifetime, maxRequestSize);
    server.NewLook(actions);
    rounds, trace := [], [server.Look()];
    for i := 0 to |actions|
      invariant server.Valid() && fresh(server) && fresh(server.repr) && server.Bounds() == lim
      invariant |rounds| == i && |trace| == i + 1 && trace[i] == server.Look() && Traced(lim, actions, rounds, trace)
    {
      ghost var visits;
      var err;
      err, visits := server.Act(actions[i]);
      TracedMore(lim, actions, rounds, trace, Round(err, visits), server.Look());
      rounds, trace := rounds + [Round(err, visits)], trace + [server.Look()];
    }
    server.LookParts();
    server.NotOwned();
    server.CloseServer();
  }

  lemma AllMembers(ss: seq<Stream>, repr: set<object>)
    requires forall s | s in ss :: s in repr && s.recvBuf in repr && s.sendBuf in repr && s.Repr() <= repr && Sound(s)
    ensures Owned(ss, repr)
  {
  }

  ghost function Reprs(ss: seq<Stream>): (rs: seq<set<object>>)
    reads Buffers(ss)
    ensures |rs| == |ss| && forall i :: 0 <= i < |ss| ==> rs[i] == ss[i].Repr()
  {
    seq(|ss|, i requires 0 <= i < |ss| reads Buffers(ss) => ss[i].Repr())
  }

  /** What remains when one stream leaves. */
  lemma Parting(kept: seq<Stream>, st: Stream, rest: seq<Stream>, repr: set<object>, prev: Stream?)
    requires var all := kept + [st] + rest; Owned(all, repr) && Apart(all)
    ensures Distinct(kept + [st] + rest) && Apart(kept + rest) && st in kept + [st] + rest
    ensures forall s: Stream | s in kept + [st] + rest :: Sound(s) && (prev != null ==> prev !in BuffersOf(s))
    ensures forall s: Stream | s in kept + rest ::
              && s in kept + [st] + rest && s in repr && s.recvBuf in repr && s.sendBuf in repr
              && s.Repr() <= repr && s.Repr() !! st.Repr()
  {
    hide Sound;
    RestApart(kept, st, rest);
    ApartDistinct(kept + [st] + rest);
    Member(kept + [st] + rest, repr, st);
    MembersApart(kept + [st] + rest, repr, st);
    forall s: Stream | s in kept + [st] + rest && prev != null ensures prev !in BuffersOf(s) {
      NotABuffer(prev, s);
    }
  }

  lemma ReprsApart(ss: seq<Stream>, repr: set<object>)
    requires Apart(ss) && Owned(ss, repr)
    ensures var reprs := Reprs(ss);
      && (forall i, j :: 0 <= i < j < |ss| ==> reprs[i] !! reprs[j])
      && forall i :: 0 <= i < |ss| ==> ss[i] in reprs[i] && reprs[i] <= repr
  {
  }

  /** One stream of the list has grown by new objects. */
  lemma StillApart(ss: seq<Stream>, reprs: seq<set<object>>, st: Stream, grown: set<object>)
    requires |reprs| == |ss| && (forall i, j :: 0 <= i < j < |ss| ==> reprs[i] !! reprs[j])
    requires forall i :: 0 <= i < |ss| ==> ss[i] in reprs[i] && reprs[i] !! grown
    requires forall i :: 0 <= i < |ss| ==> ss[i].Repr() <= if ss[i] == st then reprs[i] + grown else reprs[i]
    ensures Apart(ss)
  {
  }

  lemma {:induction false} KeptStep(all: seq<Stream>, visits: seq<Visited>, v: Visited)
    requires |visits| < |all|
    ensures var n, kept := |visits|, Kept(all[..|visits|], visits);
      Kept(all[..n + 1], visits + [v]) == if Leaves(v) then kept else kept + [all[n]]
  {
    hide Leaves;
    var n, ss, next := |visits|, all[..|visits| + 1], visits + [v];
    assert ss[..n] == all[..n] && next[..n] == visits && ss[n] == all[n];
  }

  lemma {:induction false} DepartedStep(all: seq<Listed>, visits: seq<Visited>, v: Visited)
    requires |visits| < |all|
    ensures var n := |visits|;
      Departed(all[..n + 1], visits + [v]) == Departed(all[..n], visits) + if Leaves(v) then [EndOf(all[n].id, v)] else []
  {
    hide Leaves, EndOf;
    var n, ss, next := |visits|, all[..|visits| + 1], visits + [v];
    assert ss[..n] == all[..n] && next[..n] == visits && ss[n] == all[n];
  }

  lemma AssocEnded(a: seq<Ended>, b: seq<Ended>, c: seq<Ended>)
    ensures a + (b + c) == (a + b) + c
  {
  }

  lemma ListsConcat(a: seq<Stream>, b: seq<Stream>)
    ensures Lists(a + b) == Lists(a) + Lists(b)
  {
  }

  /** What the streams look like now, where they were visited and where not. */
  lemma SeenLists(ss: seq<Stream>, before: seq<Listed>, visits: seq<Visited>)
    requires |visits| <= |ss| && Listing(ss, before) && Seen(ss, before, visits)
    ensures |before| == |ss|
    ensures var n, marked := |visits|, Marked(before, visits);
      && (forall i :: 0 <= i < n && !Leaves(visits[i]) ==> marked[i] == Listed(ss[..n][i].id, ss[..n][i].initTime, ss[..n][i].Look()))
      && Lists(ss[n..]) == before[n..]
  {
    hide Leaves, Held;
  }

  /** The streams that are kept look as their visits left them. */
  lemma {:induction false} KeptLists(ss: seq<Stream>, ls: seq<Listed>, visits: seq<Visited>)
    requires |ss| == |ls| == |visits|
    requires forall i :: 0 <= i < |ss| && !Leaves(visits[i]) ==> ls[i] == Listed(ss[i].id, ss[i].initTime, ss[i].Look())
    ensures Lists(Kept(ss, visits)) == Kept(ls, visits)
    decreases |ss|
  {
    hide Leaves;
    if ss != [] {
      var n := |ss| - 1;
      KeptLists(ss[..n], ls[..n], visits[..n]);
      ListsConcat(Kept(ss[..n], visits[..n]), if Leaves(visits[n]) then [] else [ss[n]]);
    }
  }

  /** What was visited and not found closing is kept. */
  lemma {:induction false} KeptHas<T>(ss: seq<T>, visits: seq<Visited>, i: nat)
    requires |visits| == |ss| && i < |ss| && !Leaves(visits[i])
    ensures ss[i] in Kept(ss, visits)
    decreases |ss|
  {
    hide Leaves;
    var n := |ss| - 1;
    if i < n {
      KeptHas(ss[..n], visits[..n], i);
    }
  }

  /** What has been visited and not taken out is still in the list, and so is what has not been visited. */
  lemma {:induction false} KeptExactly(ss: seq<Stream>, visits: seq<Visited>, i: nat)
    requires |visits| == |ss| && i < |ss| && Distinct(ss)
    ensures ss[i] in Kept(ss, visits) <==> !Leaves(visits[i])
    ensures forall s | s in Kept(ss, visits) :: s in ss
    decreases |ss|
  {
    hide Leaves;
    var n := |ss| - 1;
    if n > 0 {
      KeptExactly(ss[..n], visits[..n], if i < n then i else 0);
    }
    assert ss[n] !in ss[..n];
  }

  lemma KeptNone()
    ensures Kept<Stream>([], []) == []
  {
  }

  lemma {:induction false} StillListed(all: seq<Stream>, visits: seq<Visited>)
    requires |visits| <= |all| && Distinct(all)
    ensures var spine := Kept(all[..|visits|], visits) + all[|visits|..];
      && (forall i :: 0 <= i < |all| && (i < |visits| ==> !Leaves(visits[i])) ==> all[i] in spine)
      && (forall i :: 0 <= i < |visits| && Leaves(visits[i]) ==> all[i] !in spine)
      && (forall s: Stream | s in spine :: s in all)
  {
    hide Kept, Leaves;
    var n := |visits|;
    if n > 0 {
      KeptExactly(all[..n], visits, 0);
    } else {
      KeptNone();
    }
    forall i | 0 <= i < n ensures all[i] in Kept(all[..n], visits) <==> !Leaves(visits[i]) {
      KeptExactly(all[..n], visits, i);
    }
    forall i | n <= i < |all| ensures all[i] in all[n..] {
      assert all[n..][i - n] == all[i];
    }
    forall i | 0 <= i < n ensures all[i] !in all[n..] {
    }
  }

  lemma RestStep(kept: seq<Stream>, all: seq<Stream>, n: nat)
    requires n < |all|
    ensures all[n..][1..] == all[n + 1..] && kept + all[n..] == kept + [all[n]] + all[n + 1..]
  {
  }

  lemma Skipping(kept: seq<Stream>, st: Stream, rest: seq<Stream>)
    ensures var all, left := kept + [st] + rest, kept + rest;
      && all[|kept|] == st && (kept != [] ==> kept[|kept| - 1] == all[|kept| - 1])
      && (forall i :: 0 <= i < |left| ==> left[i] == all[if i < |kept| then i else i + 1])
      && (forall i :: 0 <= i <= |left| ==> Nth(left, i) == Nth(all, if i < |kept| then i else i + 1))
  {
  }

  ghost predicate Distinct(ss: seq<Stream>) {
    forall i, j :: 0 <= i < j < |ss| ==> ss[i] != ss[j]
  }

  lemma ApartDistinct(ss: seq<Stream>)
    requires Apart(ss)
    ensures Distinct(ss)
  {
  }

  lemma RestApart(kept: seq<Stream>, st: Stream, rest: seq<Stream>)
    requires Apart(kept + [st] + rest)
    ensures Apart(kept + rest) && forall s | s in kept + rest :: s != st && s in kept + [st] + rest
  {
    var all, left := kept + [st] + rest, kept + rest;
    assert forall i :: 0 <= i < |left| ==> left[i] == all[if i < |kept| then i else i + 1];
    ApartDistinct(all);
    assert all[|kept|] == st;
  }

  /** The socket of a stream that is destroyed passes from the list to the closed ones. */
  lemma ServedAccounted(n: nat, kept: seq<Stream>, st: Stream, rest: seq<Stream>, ended: seq<Ended>)
    requires Accounted(n, kept + [st] + rest, ended)
    ensures forall e: Ended :: e.id == st.id ==> Accounted(n, kept + rest, ended + [e])
  {
    assert Ids(kept + [st] + rest) == Ids(kept) + [st.id] + Ids(rest);
    assert Ids(kept + rest) == Ids(kept) + Ids(rest);
    forall e: Ended | e.id == st.id ensures Accounted(n, kept + rest, ended + [e]) {
      assert EndedIds(ended + [e]) == EndedIds(ended) + [st.id];
    }
  }

  lemma NewSound(s: Stream, ample: bool)
    requires s.Valid() && Blank(s, ample) && s.log == [Connect]
    ensures Sound(s)
  {
  }

  /** Nothing has been received or sent. */
  ghost predicate Blank(s: Stream, ample: bool)
    reads s`wire, s`expectedRecvLen, s`dataIdx, s`lastActivity, s.recvBuf, s.recvBuf.s
  {
    && s.recvBuf.len <= s.recvBuf.s.Length && s.recvBuf.Contents() == [] && s.wire == [] && s.expectedRecvLen == s.dataIdx == 0
    && s.initTime == s.lastActivity && s.recvBuf.ample == s.sendBuf.ample == ample
  }

  /** A new stream in front of the list. */
  lemma Joins(st: Stream, head: Stream?, ss: seq<Stream>, repr: set<object>)
    requires Owned(ss, repr) && Apart(ss) && Linked(head, ss) && Sound(st) && st.next == head && st.Repr() !! repr
    ensures Owned([st] + ss, repr + st.Repr()) && Apart([st] + ss) && Linked(st, [st] + ss)
  {
    hide Sound, Owned, Apart, Linked;
    JoinsOwned(st, ss, repr);
    JoinsApart(st, ss, repr);
    JoinsLinked(st, head, ss);
  }

  lemma JoinsOwned(st: Stream, ss: seq<Stream>, repr: set<object>)
    requires Owned(ss, repr) && Sound(st)
    ensures Owned([st] + ss, repr + st.Repr())
  {
    hide Sound;
  }

  lemma JoinsApart(st: Stream, ss: seq<Stream>, repr: set<object>)
    requires Owned(ss, repr) && Apart(ss) && st.Repr() !! repr
    ensures Apart([st] + ss)
  {
    hide Sound, Owned;
    var all := [st] + ss;
    forall i, j | 0 <= i < j < |all| ensures all[i].Repr() !! all[j].Repr() {
      Member(ss, repr, all[j]);
    }
  }

  lemma JoinsLinked(st: Stream, head: Stream?, ss: seq<Stream>)
    requires Linked(head, ss) && st.next == head
    ensures Linked(st, [st] + ss)
  {
    var all := [st] + ss;
    assert all[0] == st && forall i :: 0 < i < |all| ==> all[i] == ss[i - 1];
  }

  lemma OneMoreSocket(n: nat, st: Stream, ss: seq<Stream>, ended: seq<Ended>)
    requires Accounted(n, ss, ended) && st.id == n
    ensures Accounted(n + 1, [st] + ss, ended)
  {
    assert Upto(n + 1) == Upto(n) + [n];
    assert Ids([st] + ss) == [n] + Ids(ss);
  }

  lemma NotABuffer(p: Stream, s: Stream)
    ensures p !in BuffersOf(s)
  {
  }

  ghost function BuffersOf(s: Stream): set<object>
    reads s.recvBuf`s, s.sendBuf`s
  {
    {s.recvBuf, s.sendBuf, s.recvBuf.s, s.sendBuf.s}
  }

  lemma MembersApart(ss: seq<Stream>, repr: set<object>, st: Stream)
    requires Owned(ss, repr) && Apart(ss) && st in ss
    ensures forall s | s in ss && s != st ::
              Sound(s) && s in repr && s.recvBuf in repr && s.sendBuf in repr && s.Repr() <= repr && s.Repr() !! st.Repr()
  {
  }

  lemma SameGrows(a: Picture)
    ensures Grows(a, a)
  {
  }

  /** Visits leave nothing that is closing or overdue. */
  ghost predicate KeptInTime(lim: Limits, now: int, before: seq<Listed>, visits: seq<Visited>)
    requires |visits| <= |before|
  {
    forall i :: 0 <= i < |visits| && !Leaves(visits[i]) && visits[i].err == Success ==>
      visits[i].after.state != Closing && !Overdue(lim, now, before[i].born, visits[i].after)
  }

  lemma VisitsInTime(lim: Limits, now: int, before: seq<Listed>, world: nat -> Input, visits: seq<Visited>)
    requires |visits| <= |before| && Toured(lim, now, before, world, visits)
    ensures KeptInTime(lim, now, before, visits)
  {
    hide Did, Came, Overdue, Leaves;
    forall i | 0 <= i < |visits| && !Leaves(visits[i]) && visits[i].err == Success
      ensures visits[i].after.state != Closing && !Overdue(lim, now, before[i].born, visits[i].after)
    {
      StaysInTime(lim, now, before[i].born, visits[i]);
    }
  }

  lemma NoneAccepted(a: Scene, arrivals: seq<Newcomer>)
    ensures AcceptedTo(a, arrivals, 0, Success, a)
  {
    assert a.ended + [] == a.ended;
  }

  lemma AcceptedMore(a: Scene, arrivals: seq<Newcomer>, k: nat, m: Scene, err: Code, b: Scene)
    requires k < |arrivals| && AcceptedTo(a, arrivals, k, Success, m) && AcceptStep(m, arrivals[k], err, b)
    ensures AcceptedTo(a, arrivals, k + 1, err, b)
  {
    hide Joined, ResultCode;
  }

  lemma SocketsCounted(a: Scene, arrivals: seq<Newcomer>, k: nat, err: Code, b: Scene)
    requires AcceptedTo(a, arrivals, k, err, b) && (k < |arrivals| ==> err != Success)
    ensures Accepted(a, arrivals, err, b)
  {
    hide Joined;
  }

  /** A sweep that ends with an error, or one that visits all streams and is followed by accepting. */
  lemma SweepThenAccept(lim: Limits, a: Scene, time: int, world: nat -> Input, arrivals: seq<Newcomer>, visits: seq<Visited>,
                        swept: Code, err: Code, b: Scene)
    requires |visits| <= |a.list| && Toured(lim, time, a.list, world, visits)
    requires forall i :: 0 <= i < |visits| ==> visits[i].err == if i < |visits| - 1 then Success else swept
    requires if swept == Success then |visits| == |a.list| && Accepted(Swept(a, time, visits), arrivals, err, b)
             else |visits| > 0 && err == swept && b == Swept(a, time, visits)
    ensures Polled(lim, a, time, world, arrivals, Round(err, visits), b)
  {
    hide Toured, Accepted, Swept;
  }

  lemma PollActs(lim: Limits, a: Scene, action: Action, round: Round, b: Scene)
    requires action.Polling?
    requires Polled(lim, a, action.time, action.world, if action.listening then action.arrivals else [], round, b)
    ensures ActStep(lim, a, action, round, b)
  {
    hide Polled;
  }

  lemma CallActs(lim: Limits, a: Scene, action: Action, round: Round, b: Scene)
    requires action.Calling? && round.visits == [] && Called(a, action.place, action.call, round.err, b)
    ensures ActStep(lim, a, action, round, b)
  {
    hide Called;
  }

  lemma SoundProper(s: Stream)
    requires Sound(s)
    ensures ProperLook(s.Look())
  {
    hide Searchable, Render, Opened;
    Assoc(s.wire, s.sendBuf.Contents(), s.Unread());
  }

  /** One more end of those that closing brings. */
  lemma NextEnd(all: seq<Stream>, list: seq<Listed>, was: seq<Ended>, k: nat)
    requires |list| == |all| && k < |all|
    ensures all[k..][0] == all[k] && all[k..][1..] == all[k + 1..] && list[k..][1..] == list[k + 1..] && list[k..][0] == list[k]
    ensures was + Ends(list)[..k] + [Served(list[k].id, list[k].look.log + [Close])] == was + Ends(list)[..k + 1]
  {
  }

  lemma OthersApart(all: seq<Stream>, i: nat)
    requires Distinct(all) && i < |all|
    ensures forall j :: 0 <= j < |all| && j != i ==> all[j] != all[i]
  {
  }

  lemma ListsParts(ss: seq<Stream>)
    ensures |Lists(ss)| == |ss| && forall i :: 0 <= i < |ss| ==> Lists(ss)[i] == Listed(ss[i].id, ss[i].initTime, ss[i].Look())
  {
  }

  /** The others look as before. */
  lemma OthersListed(all: seq<Stream>, list: seq<Listed>)
    requires |list| == |all| > 0
    requires forall i :: 0 < i < |all| ==> list[i] == Listed(all[i].id, all[i].initTime, all[i].Look())
    ensures Lists(all[1..]) == list[1..]
  {
  }

  lemma ReceiveGrows(a: Picture, net: seq<Arrival>, script: Script, now: int, err: Code, b: Picture)
    requires ReceiveStep(a, net, script, now, err, b)
    ensures Grows(a, b) && Grows(a, b.(state := Closing))
  {
    hide Render, Feed, Incoming, HangsUp, HandledStep, CameIn;
  }

  lemma SendGrows(a: Picture, socket: Socket, now: int, err: Code, b: Picture)
    requires SendStep(a, socket, now, err, b)
    ensures Grows(a, b) && Grows(a, b.(state := Closing))
  {
  }

  lemma {:induction false} DepartedHas(before: seq<Listed>, visits: seq<Visited>, i: nat)
    requires |visits| == |before| && i < |before| && Leaves(visits[i])
    ensures EndOf(before[i].id, visits[i]) in Departed(before, visits)
    decreases |before|
  {
    hide Leaves, EndOf;
    var n := |before| - 1;
    if i < n {
      DepartedHas(before[..n], visits[..n], i);
    }
  }

  lemma SendKeepsOpened(a: Picture, socket: Socket, now: int, err: Code, b: Picture)
    requires SendStep(a, socket, now, err, b)
    ensures b.log == a.log && b.heard == a.heard && a.state.Rank() <= b.state.Rank()
  {
  }

  lemma StillSearchable(before: bytes, came: bytes, now: bytes)
    requires Searchable(before + came) && CameIn(before, came, now)
    ensures Searchable(now)
  {
    hide Searchable;
    var n: nat :| n <= |came| && now == before + came[..n];
    assert before + came == now + came[n..];
    SearchablePrefix(now, came[n..]);
  }
}
