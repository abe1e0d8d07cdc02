/** Choosing an IPFS node and talking to it (`ipfs_rpc.c`, `ipfs.c`). */
module Ipfs {
  import opened Prelude
  import opened HiveError
  import opened Http

  datatype Node = Node(ipv4: string, ipv6: string, port: nat)

  datatype Address = Address(ip: string, port: nat)

  /** The addresses of a node in the order they are tried. */
  function Addresses(n: Node): seq<Address> {
    (if n.ipv4 != "" then [Address(n.ipv4, n.port)] else []) + if n.ipv6 != "" then [Address(n.ipv6, n.port)] else []
  }

  function AllAddresses(nodes: seq<Node>): seq<Address> {
    if nodes == [] then [] else Addresses(nodes[0]) + AllAddresses(nodes[1..])
  }

  /** Which addresses answer a request for their version with 200. */
  type Answers = Address -> bool

  function FirstUp(tries: seq<Address>, up: Answers): Option<Address> {
    if tries == [] then None else if up(tries[0]) then Some(tries[0]) else FirstUp(tries[1..], up)
  }

  /** The nodes from `base` on, once around. */
  function Cycle(nodes: seq<Node>, base: nat): seq<Node>
    requires base < |nodes|
  {
    nodes[base..] + nodes[..base]
  }

  /** The first answering address comes before every other one; none answers exactly when there is none. */
  lemma {:induction false} FirstUpMeans(tries: seq<Address>, up: Answers)
    ensures FirstUp(tries, up).None? <==> forall a | a in tries :: !up(a)
    ensures FirstUp(tries, up).Some? ==>
              exists i :: 0 <= i < |tries| && FirstUp(tries, up).value == tries[i] && up(tries[i]) && forall j :: 0 <= j < i ==> !up(tries[j])
  {
    if tries != [] && !up(tries[0]) {
      FirstUpMeans(tries[1..], up);
      if FirstUp(tries[1..], up).Some? {
        var i :| 0 <= i < |tries[1..]| && FirstUp(tries, up).value == tries[1..][i] && up(tries[1..][i]) && forall j :: 0 <= j < i ==> !up(tries[1..][j]);
        assert tries[i + 1] == tries[1..][i];
        assert forall j :: 0 < j < i + 1 ==> tries[j] == tries[1..][j - 1];
      }
    }
  }

  lemma {:induction false} FirstUpBehind(front: seq<Address>, rest: seq<Address>, up: Answers)
    ensures FirstUp(front + rest, up) == if FirstUp(front, up).Some? then FirstUp(front, up) else FirstUp(rest, up)
  {
    if front == [] {
      assert front + rest == rest;
    } else {
      assert (front + rest)[1..] == front[1..] + rest;
      FirstUpBehind(front[1..], rest, up);
    }
  }

  lemma {:induction false} AddressesOfAll(nodes: seq<Node>, a: Address)
    ensures a in AllAddresses(nodes) <==> exists i :: 0 <= i < |nodes| && a in Addresses(nodes[i])
  {
    if nodes != [] {
      AddressesOfAll(nodes[1..], a);
      if i :| 0 <= i < |nodes| && a in Addresses(nodes[i]) {
        assert i > 0 ==> nodes[1..][i - 1] == nodes[i];
      }
      if i :| 0 <= i < |nodes[1..]| && a in Addresses(nodes[1..][i]) {
        assert nodes[i + 1] == nodes[1..][i];
      }
    }
  }

  /** Once around from any node visits the same addresses as from the first. */
  lemma CycleComplete(nodes: seq<Node>, base: nat, a: Address)
    requires base < |nodes|
    ensures a in AllAddresses(Cycle(nodes, base)) <==> a in AllAddresses(nodes)
  {
    hide *;
    var c, n := Cycle(nodes, base), |nodes|;
    AddressesOfAll(nodes, a);
    AddressesOfAll(c, a);
    CycleAt(nodes, base, 0);
    if i :| 0 <= i < n && a in Addresses(nodes[i]) {
      CycleAt(nodes, base, i);
    }
    if i :| 0 <= i < n && a in Addresses(c[i]) {
      CycleAt(nodes, base, i);
    }
  }

  lemma CycleAt(nodes: seq<Node>, base: nat, i: nat)
    requires base < |nodes| && i < |nodes|
    ensures var c, n := Cycle(nodes, base), |nodes|;
      && |c| == n && c[if i >= base then i - base else i + (n - base)] == nodes[i]
      && nodes[if i < n - base then i + base else i - (n - base)] == c[i]
  {
  }

  /** The rest of the cycle from node `i` on, `i` being back at `base` after it. */
  function Ahead(nodes: seq<Node>, base: nat, i: nat): seq<Node>
    requires base < |nodes| && i < |nodes|
  {
    if i < base then nodes[i..base] else nodes[i..] + nodes[..base]
  }

  function Next(nodes: seq<Node>, base: nat, i: nat): seq<Node>
    requires base < |nodes| && i < |nodes|
  {
    if i + 1 == base || (i + 1 == |nodes| && base == 0) then [] else if i + 1 == |nodes| then Ahead(nodes, base, 0) else Ahead(nodes, base, i + 1)
  }

  lemma AheadNext(nodes: seq<Node>, base: nat, i: nat)
    requires base < |nodes| && i < |nodes|
    ensures Ahead(nodes, base, i) == [nodes[i]] + Next(nodes, base, i) && Ahead(nodes, base, i)[1..] == Next(nodes, base, i)
  {
  }

  lemma AheadStep(nodes: seq<Node>, base: nat, i: nat, up: Answers)
    requires base < |nodes| && i < |nodes|
    ensures |Next(nodes, base, i)| + 1 == |Ahead(nodes, base, i)|
    ensures FirstUp(AllAddresses(Ahead(nodes, base, i)), up) ==
            if FirstUp(Addresses(nodes[i]), up).Some? then FirstUp(Addresses(nodes[i]), up)
            else FirstUp(AllAddresses(Next(nodes, base, i)), up)
  {
    hide Addresses, FirstUp, Next, Ahead;
    AheadNext(nodes, base, i);
    FirstUpBehind(Addresses(nodes[i]), AllAddresses(Next(nodes, base, i)), up);
  }

  lemma NextNode(nodes: seq<Node>, base: nat, i: nat)
    requires base < |nodes| && i < |nodes|
    ensures var next := (i + 1) % |nodes|; Next(nodes, base, i) == if next == base then [] else Ahead(nodes, base, next)
  {
    hide Ahead;
    assert (i + 1) % |nodes| == if i + 1 == |nodes| then 0 else i + 1;
  }

  lemma AddressesUp(n: Node, up: Answers)
    ensures var four, six := Address(n.ipv4, n.port), Address(n.ipv6, n.port);
      FirstUp(Addresses(n), up) ==
      if n.ipv4 != "" && up(four) then Some(four) else if n.ipv6 != "" && up(six) then Some(six) else None
  {
    var four, six := Address(n.ipv4, n.port), Address(n.ipv6, n.port);
    assert [four][1..] == [] && [six][1..] == [];
    FirstUpBehind(if n.ipv4 != "" then [four] else [], if n.ipv6 != "" then [six] else [], up);
  }

  /** The tries `select_bootstrap` makes on one node: IPv4 first. */
  method TryNode(n: Node, up: Answers) returns (selected: Option<Address>)
    ensures selected == FirstUp(Addresses(n), up)
  {
    hide Addresses, FirstUp;
    AddressesUp(n, up);
    if n.ipv4 != "" {
      var a := Address(n.ipv4, n.port);
      if up(a) { return Some(a); }
    }
    if n.ipv6 != "" {
      var a := Address(n.ipv6, n.port);
      if up(a) { return Some(a); }
    }
    return None;
  }

  /** `select_bootstrap`: the first address that answers, going once around from `base`. */
  method SelectBootstrap(nodes: seq<Node>, base: nat, up: Answers) returns (rc: int, selected: Option<Address>, ghost visited: nat)
    requires base < |nodes|
    ensures visited <= |nodes| && (selected.None? ==> visited == |nodes|)
    ensures selected == FirstUp(AllAddresses(Cycle(nodes, base)), up)
    ensures rc == if selected.Some? then 0 else Error(GENERAL, BAD_BOOTSTRAP_HOST)
  {
    assert Ahead(nodes, base, base) == Cycle(nodes, base) && |Cycle(nodes, base)| == |nodes| && FirstUp(AllAddresses([]), up) == None;
    hide FirstUp, Addresses, AllAddresses, Ahead, Next, Cycle;
    var i: nat, again := base, true;
    visited := 0;
    while again
      invariant i < |nodes| && visited + (if again then |Ahead(nodes, base, i)| else 0) == |nodes|
      invariant FirstUp(AllAddresses(Cycle(nodes, base)), up) == FirstUp(AllAddresses(if again then Ahead(nodes, base, i) else []), up)
      decreases if again then |Ahead(nodes, base, i)| else 0
    {
      AheadStep(nodes, base, i, up);
      NextNode(nodes, base, i);
      visited := visited + 1;
      selected := TryNode(nodes[i], up);
      if selected.Some? { return 0, selected, visited; }
      i := (i + 1) % |nodes|;
      again := i != base;
    }
    return Error(GENERAL, BAD_BOOTSTRAP_HOST), None, visited;
  }

  // ----- the node in use -----

  /** What happens to the node in use. */
  datatype Event = Unreachable | Selected(a: Address) | Asked(a: Address)

  /** The node selected last, unless it has been marked unreachable since. */
  ghost function Current(trace: seq<Event>): Option<Address> {
    if trace == [] then None
    else match trace[|trace| - 1]
      case Unreachable => None
      case Selected(a) => Some(a)
      case Asked(_) => Current(trace[..|trace| - 1])
  }

  /** Every request goes to the node that is in use. */
  ghost predicate Consistent(trace: seq<Event>) {
    forall j :: 0 <= j < |trace| && trace[j].Asked? ==> Current(trace[..j]) == Some(trace[j].a)
  }

  lemma ConsistentStep(trace: seq<Event>, e: Event)
    requires Consistent(trace) && (e.Asked? ==> Current(trace) == Some(e.a))
    ensures Consistent(trace + [e])
    ensures Current(trace + [e]) == match e case Unreachable => None case Selected(a) => Some(a) case Asked(_) => Current(trace)
  {
    var next := trace + [e];
    assert next[..|trace|] == trace;
    forall j | 0 <= j < |next| && next[j].Asked? ensures Current(next[..j]) == Some(next[j].a) {
      if j < |trace| {
        assert next[..j] == trace[..j];
      }
    }
  }

  lemma {:induction false} SelectedSince(trace: seq<Event>, i: nat)
    requires i < |trace| && trace[i] == Unreachable && Current(trace).Some?
    ensures exists k :: i < k < |trace| && trace[k] == Selected(Current(trace).value)
    decreases |trace|
  {
    var n := |trace| - 1;
    if trace[n].Asked? {
      SelectedSince(trace[..n], i);
      var k :| i < k < n && trace[..n][k] == Selected(Current(trace[..n]).value);
      assert trace[k] == Selected(Current(trace).value);
    } else {
      assert trace[n] == Selected(Current(trace).value);
    }
  }

  /** After a node has been marked unreachable the next request waits for a selection, and goes where that says. */
  lemma ConsistentMeans(trace: seq<Event>, i: nat, j: nat)
    requires Consistent(trace) && i < j < |trace| && trace[i] == Unreachable && trace[j].Asked?
    ensures exists k :: i < k < j && trace[k] == Selected(trace[j].a)
  {
    SelectedSince(trace[..j], i);
    var k :| i < k < j && trace[..j][k] == Selected(trace[j].a);
    assert trace[k] == Selected(trace[j].a);
  }

  lemma {:induction false} NamedAddresses(nodes: seq<Node>, a: Address)
    requires a in AllAddresses(nodes)
    ensures a.ip != ""
  {
    if a !in Addresses(nodes[0]) {
      NamedAddresses(nodes[1..], a);
    }
  }

  const COULDNT_CONNECT := 7
  const REMOTE_ACCESS_DENIED := 9
  const OPERATION_TIMEDOUT := 28

  /** `RC_NODE_UNREACHABLE` */
  predicate NodeUnreachable(curl: nat) {
    curl == COULDNT_CONNECT || curl == REMOTE_ACCESS_DENIED || curl == OPERATION_TIMEDOUT
  }

  /** `ipfs_rpc_t` */
  class Rpc {
    const nodes: seq<Node>
    var currentIp: string
    var currentPort: nat
    ghost var trace: seq<Event>

    /** There is no node in use, or it is a configured address with its own port; requests went nowhere else. */
    ghost predicate Valid()
      reads this
    {
      && nodes != [] && Consistent(trace) && Current(trace) == InUse()
      && (InUse().Some? ==> InUse().value in AllAddresses(nodes))
    }

    ghost function InUse(): Option<Address>
      reads this
    {
      if currentIp == "" then None else Some(Address(currentIp, currentPort))
    }

    constructor (nodes: seq<Node>)
      requires nodes != []
      ensures Valid() && this.nodes == nodes && InUse() == None && trace == []
    {
      this.nodes, currentIp, currentPort, trace := nodes, "", 0, [];
    }

    /** Selects a node, `random` being what `rand` yields. */
    method Select(up: Answers, random: nat) returns (rc: int)
      requires Valid() && InUse() == None
      modifies this
      ensures Valid() && InUse() == Chosen(nodes, up, random)
      ensures rc == if Chosen(nodes, up, random).Some? then 0 else Error(GENERAL, BAD_BOOTSTRAP_HOST)
      ensures rc == 0 <==> exists a :: a in AllAddresses(nodes) && up(a)
      ensures rc == 0 ==> up(InUse().value)
      ensures trace == old(trace) + Marking(Chosen(nodes, up, random))
    {
      hide FirstUp, AllAddresses, Cycle, Consistent, Current;
      var base := random % |nodes|;
      ghost var visited;
      var selected;
      rc, selected, visited := SelectBootstrap(nodes, base, up);
      FirstUpMeans(AllAddresses(Cycle(nodes, base)), up);
      forall a ensures a in AllAddresses(Cycle(nodes, base)) <==> a in AllAddresses(nodes) {
        CycleComplete(nodes, base, a);
      }
      assert trace + [] == trace;
      if rc == 0 {
        NamedAddresses(nodes, selected.value);
        ConsistentStep(trace, Selected(selected.value));
        currentIp, currentPort := selected.value.ip, selected.value.port;
        trace := trace + [Selected(selected.value)];
      }
    }

    /** `ipfs_rpc_check_reachable` */
    method CheckReachable(up: Answers, random: nat) returns (rc: int)
      requires Valid()
      modifies this
      ensures Valid() && InUse() == NodeFor(nodes, old(InUse()), up, random)
      ensures rc == if InUse().Some? then 0 else Error(GENERAL, BAD_BOOTSTRAP_HOST)
      ensures old(InUse()).None? ==> (rc == 0 <==> exists a :: a in AllAddresses(nodes) && up(a)) && (rc == 0 ==> up(InUse().value))
      ensures trace == old(trace) + if old(InUse()).Some? then [] else Marking(InUse())
    {
      hide Chosen;
      if currentIp != "" {
        assert trace + [] == trace;
        return 0;
      }
      rc := Select(up, random);
    }

    /** `ipfs_rpc_mark_node_unreachable` */
    method MarkUnreachable()
      requires Valid()
      modifies this`currentIp, this`trace
      ensures Valid() && InUse() == None && trace == old(trace) + [Unreachable]
    {
      ConsistentStep(trace, Unreachable);
      currentIp, trace := "", trace + [Unreachable];
    }

    /** `http_client_request` to the node in use, which is given up exactly when it cannot be reached. */
    method Request(curl: nat) returns (rc: int)
      requires Valid() && InUse().Some? && curl < 1000
      modifies this`currentIp, this`trace
      ensures Valid() && -INT_LIMIT <= rc <= 0 && (rc == 0 <==> curl == 0)
      ensures rc == Error(GENERAL, TRY_AGAIN) <==> curl == COULDNT_CONNECT || curl == REMOTE_ACCESS_DENIED || curl == OPERATION_TIMEDOUT
      ensures rc == RequestError(curl)
      ensures InUse() == if NodeUnreachable(curl) then None else old(InUse())
      ensures trace == old(trace) + AskedMarks(old(InUse()).value, curl)
    {
      ConsistentStep(trace, Asked(Address(currentIp, currentPort)));
      ghost var a := InUse().value;
      trace := trace + [Asked(Address(currentIp, currentPort))];
      if curl == 0 { return 0; }
      if !NodeUnreachable(curl) { return Error(CURL, curl); }
      MarkUnreachable();
      assert old(trace) + [Asked(a)] + [Unreachable] == old(trace) + [Asked(a), Unreachable];
      return Error(GENERAL, TRY_AGAIN);
    }
  }

  const WRITE_ERROR := 23

  /** The node a selection chooses. */
  function Chosen(nodes: seq<Node>, up: Answers, random: nat): Option<Address>
    requires nodes != []
  {
    FirstUp(AllAddresses(Cycle(nodes, random % |nodes|)), up)
  }

  /** The node for the next request: the one in use, or one that is selected. */
  function NodeFor(nodes: seq<Node>, current: Option<Address>, up: Answers, random: nat): Option<Address>
    requires nodes != []
  {
    if current.Some? then current else Chosen(nodes, up, random)
  }

  function Marking(selected: Option<Address>): seq<Event> {
    if selected.Some? then [Selected(selected.value)] else []
  }

  function AskedMarks(a: Address, curl: nat): seq<Event> {
    if NodeUnreachable(curl) then [Asked(a), Unreachable] else [Asked(a)]
  }

  /** What becomes of a curl code. */
  function RequestError(curl: nat): int
    requires curl < 1000
  {
    if curl == 0 then 0 else if NodeUnreachable(curl) then Error(GENERAL, TRY_AGAIN) else Error(CURL, curl)
  }

  /** `ipfs_rpc_new`: null when there is no memory or no address answers. */
  method NewRpc(nodes: seq<Node>, memory: bool, up: Answers, random: nat) returns (rpc: Rpc?)
    requires nodes != []
    ensures rpc != null <==> memory && exists a :: a in AllAddresses(nodes) && up(a)
    ensures rpc != null ==>
              fresh(rpc) && rpc.Valid() && rpc.nodes == nodes && rpc.InUse().Some? && rpc.InUse() == Chosen(nodes, up, random)
  {
    hide Chosen;
    if !memory { return null; }
    rpc := new Rpc(nodes);
    var rc := rpc.Select(up, random);
    if rc < 0 { return null; }
  }

  predicate Reaches(ip: string, port: nat, up: Answers) {
    ip != "" && up(Address(ip, port))
  }

  /** Node `i` on the way around from the node `rand` points at. */
  function Around(nodes: seq<Node>, random: nat, i: nat): Node
    requires nodes != []
  {
    nodes[(random % |nodes| + i) % |nodes|]
  }

  predicate Dead(n: Node, up: Answers) {
    !Reaches(n.ipv4, n.port, up) && !Reaches(n.ipv6, n.port, up)
  }

  /** The first node around of which an address answers, by its IPv4 address unless only the other does. */
  ghost predicate Reached(nodes: seq<Node>, up: Answers, random: nat, i: nat, a: Address)
    requires nodes != []
  {
    var n := Around(nodes, random, i);
    && (forall j: nat | j < i :: Dead(Around(nodes, random, j), up))
    && if Reaches(n.ipv4, n.port, up) then a == Address(n.ipv4, n.port) else Reaches(n.ipv6, n.port, up) && a == Address(n.ipv6, n.port)
  }

  lemma {:induction false} FirstOfNodes(c: seq<Node>, up: Answers)
    ensures var r := FirstUp(AllAddresses(c), up);
      if r.None? then forall n | n in c :: Dead(n, up)
      else exists i: nat :: i < |c| && FirstUp(Addresses(c[i]), up) == r && forall j: nat | j < i :: Dead(c[j], up)
  {
    hide FirstUp, Addresses;
    NoneUp(up);
    if c != [] {
      FirstUpBehind(Addresses(c[0]), AllAddresses(c[1..]), up);
      AddressesUp(c[0], up);
      FirstOfNodes(c[1..], up);
      var r := FirstUp(AllAddresses(c[1..]), up);
      if FirstUp(Addresses(c[0]), up).Some? {
        assert FirstUp(Addresses(c[0]), up) == FirstUp(AllAddresses(c), up);
      } else if r.Some? {
        var i: nat :| i < |c[1..]| && FirstUp(Addresses(c[1..][i]), up) == r && forall j: nat | j < i :: Dead(c[1..][j], up);
        assert c[1..][i] == c[i + 1];
        forall j: nat | j < i + 1 ensures Dead(c[j], up) {
          assert j > 0 ==> c[1..][j - 1] == c[j];
        }
      }
    }
  }

  lemma NoneUp(up: Answers)
    ensures AllAddresses([]) == [] && FirstUp([], up) == None
  {
  }

  lemma OnceAround(x: nat, n: nat)
    requires x < 2 * n
    ensures x % n == if x < n then x else x - n
  {
  }

  lemma AroundAt(nodes: seq<Node>, random: nat, i: nat)
    requires nodes != []
    ensures Around(nodes, random, i) == nodes[(random % |nodes| + i) % |nodes|]
  {
  }

  lemma AroundIsCycle(nodes: seq<Node>, random: nat, i: nat)
    requires i < |nodes|
    ensures |Cycle(nodes, random % |nodes|)| == |nodes| && Cycle(nodes, random % |nodes|)[i] == Around(nodes, random, i)
  {
    var n, base := |nodes|, random % |nodes|;
    hide Around;
    OnceAround(base + i, n);
    AroundAt(nodes, random, i);
    if base + i < n {
      assert Cycle(nodes, base)[i] == nodes[base + i];
    } else {
      assert Cycle(nodes, base)[i] == nodes[..base][i - (n - base)] == nodes[base + i - n];
    }
  }

  /** Which address a selection chooses: that of the first node around that answers, and none exactly when no node does. */
  lemma ChosenMeans(nodes: seq<Node>, up: Answers, random: nat)
    requires nodes != []
    ensures match Chosen(nodes, up, random)
            case None => forall i: nat | i < |nodes| :: Dead(Around(nodes, random, i), up)
            case Some(a) => exists i: nat :: i < |nodes| && Reached(nodes, up, random, i, a)
  {
    hide FirstUp, Addresses, AllAddresses, Cycle, Around, Dead;
    var c := Cycle(nodes, random % |nodes|);
    FirstOfNodes(c, up);
    AroundIsCycle(nodes, random, 0);
    forall i: nat | i < |nodes| ensures c[i] == Around(nodes, random, i) {
      AroundIsCycle(nodes, random, i);
    }
    var r := Chosen(nodes, up, random);
    if r.Some? {
      var i: nat :| i < |c| && FirstUp(Addresses(c[i]), up) == r && forall j: nat | j < i :: Dead(c[j], up);
      AddressesUp(c[i], up);
      assert Reached(nodes, up, random, i, r.value);
    }
  }

  // ----- files -----

  const BAD_DATA_AS_SIZE := MkError(GENERAL, BAD_PERSISTENT_DATA)

  /** An error that a function of type `ssize_t` returns directly looks like a size of at least 2^31. */
  predicate LooksLikeSize(n: int) {
    INT_LIMIT <= n < UNSIGNED_LIMIT
  }

  /**
   * All that asking a node meets: which addresses answer, what `rand` yields, memory for a client, the curl codes of the
   * request and of asking for its status, and the status.
   */
  datatype Asking = Asking(up: Answers, random: nat, client: bool, curl: nat, info: nat, status: nat)

  predicate IsAsking(a: Asking) {
    a.curl < 1000 && a.info < 1000 && a.status < 1000
  }

  /** There is a node to ask, and a client to ask it with. */
  predicate Asks(nodes: seq<Node>, current: Option<Address>, a: Asking)
    requires nodes != []
  {
    NodeFor(nodes, current, a.up, a.random).Some? && a.client
  }

  /** The node in use afterwards, `curl` being what the request comes to. */
  function NodeAfter(nodes: seq<Node>, current: Option<Address>, a: Asking, curl: nat): Option<Address>
    requires nodes != []
  {
    if Asks(nodes, current, a) && NodeUnreachable(curl) then None else NodeFor(nodes, current, a.up, a.random)
  }

  function AskMarks(nodes: seq<Node>, current: Option<Address>, a: Asking, curl: nat): seq<Event>
    requires nodes != []
  {
    var node := NodeFor(nodes, current, a.up, a.random);
    (if current.Some? then [] else Marking(node)) + if Asks(nodes, current, a) then AskedMarks(node.value, curl) else []
  }

  /** The request goes through, and its status is 200. */
  predicate Answered(nodes: seq<Node>, current: Option<Address>, a: Asking, curl: nat)
    requires nodes != []
  {
    Asks(nodes, current, a) && curl == 0 && a.info == 0 && a.status == HTTP_OK
  }

  /** A request is answered when there is a node for it, which is in use or answers, and nothing else goes wrong. */
  lemma AnsweredMeans(nodes: seq<Node>, current: Option<Address>, a: Asking, curl: nat)
    requires nodes != []
    ensures Answered(nodes, current, a, curl) <==>
            && (current.Some? || exists i: nat :: i < |nodes| && !Dead(Around(nodes, a.random, i), a.up))
            && a.client && curl == 0 && a.info == 0 && a.status == 200
  {
    hide Chosen, Dead, Around;
    ChosenMeans(nodes, a.up, a.random);
    if Chosen(nodes, a.up, a.random).Some? {
      var i: nat :| i < |nodes| && Reached(nodes, a.up, a.random, i, Chosen(nodes, a.up, a.random).value);
      ReachedAlive(nodes, a.up, a.random, i, Chosen(nodes, a.up, a.random).value);
    }
  }

  lemma ReachedAlive(nodes: seq<Node>, up: Answers, random: nat, i: nat, a: Address)
    requires nodes != [] && Reached(nodes, up, random, i, a)
    ensures !Dead(Around(nodes, random, i), up)
  {
  }

  /** How far asking gets: no node, no client, or the request with what it comes to. */
  datatype Contact = NoNode | NoClient | Requested(rc: int)

  function ContactOf(nodes: seq<Node>, current: Option<Address>, a: Asking, curl: nat): (c: Contact)
    requires nodes != [] && curl < 1000
    ensures Asks(nodes, current, a) <==> c.Requested?
    ensures c.Requested? ==> c.rc == RequestError(curl)
  {
    if NodeFor(nodes, current, a.up, a.random).None? then NoNode else if !a.client then NoClient else Requested(RequestError(curl))
  }

  /** Up to the client: a node is found or selected. */
  method Contacting(rpc: Rpc, a: Asking) returns (c: Contact)
    requires rpc.Valid()
    modifies rpc
    ensures rpc.Valid() && rpc.InUse() == NodeFor(rpc.nodes, old(rpc.InUse()), a.up, a.random)
    ensures rpc.trace == old(rpc.trace) + if old(rpc.InUse()).Some? then [] else Marking(rpc.InUse())
    ensures c == if rpc.InUse().None? then NoNode else if !a.client then NoClient else Requested(0)
  {
    hide NodeFor, Marking;
    var rc := rpc.CheckReachable(a.up, a.random);
    c := if rc < 0 then NoNode else if !a.client then NoClient else Requested(0);
  }

  /** A node is found, a client is there, and the request is made. */
  method Ask(rpc: Rpc, a: Asking) returns (c: Contact)
    requires rpc.Valid() && IsAsking(a)
    modifies rpc
    ensures rpc.Valid() && c == ContactOf(rpc.nodes, old(rpc.InUse()), a, a.curl)
    ensures rpc.InUse() == NodeAfter(rpc.nodes, old(rpc.InUse()), a, a.curl)
    ensures rpc.trace == old(rpc.trace) + AskMarks(rpc.nodes, old(rpc.InUse()), a, a.curl)
  {
    hide NodeFor, Marking, AskedMarks;
    c := Contacting(rpc, a);
    AskedHistory(rpc.nodes, old(rpc.InUse()), a, a.curl, old(rpc.trace));
    if c.Requested? {
      var rc := rpc.Request(a.curl);
      c := Requested(rc);
    }
  }

  lemma AskedHistory(nodes: seq<Node>, current: Option<Address>, a: Asking, curl: nat, trace: seq<Event>)
    requires nodes != []
    ensures var node := NodeFor(nodes, current, a.up, a.random);
      var found := trace + if current.Some? then [] else Marking(node);
      trace + AskMarks(nodes, current, a, curl) == if Asks(nodes, current, a) then found + AskedMarks(node.value, curl) else found
  {
    hide NodeFor;
  }

  /** What comes of asking for the response code: 0 for status 200, or an error. */
  function StatusError(a: Asking): (e: nat)
    requires IsAsking(a)
    ensures e == 0 <==> a.info == 0 && a.status == HTTP_OK
    ensures e != 0 ==> LooksLikeSize(e) && AsInt(e) < 0
  {
    if a.info != 0 then MkError(CURL, a.info) else if a.status != HTTP_OK then MkError(HTTP_STATUS, a.status) else 0
  }

  /** `put_file_from_buffer`: succeeds exactly when the request is answered and the answer is understood. */
  method PutFile(rpc: Rpc, a: Asking, body: Body) returns (rc: int)
    requires rpc.Valid() && IsAsking(a)
    modifies rpc
    ensures rpc.Valid() && -INT_LIMIT <= rc <= 0
    ensures rc == 0 <==> Answered(rpc.nodes, old(rpc.InUse()), a, a.curl) && body.Complete?
    ensures rc == PutResult(rpc.nodes, old(rpc.InUse()), a, body)
    ensures rpc.InUse() == NodeAfter(rpc.nodes, old(rpc.InUse()), a, a.curl)
    ensures rpc.trace == old(rpc.trace) + AskMarks(rpc.nodes, old(rpc.InUse()), a, a.curl)
  {
    hide NodeAfter, AskMarks, ContactOf, Asks;
    var c := Ask(rpc, a);
    match c {
      case NoNode => return Error(GENERAL, BAD_BOOTSTRAP_HOST);
      case NoClient => return NO_MEMORY;
      case Requested(err) =>
        if err < 0 { return err; }
        var e := StatusError(a);
        if e != 0 { return AsInt(e); }
        if !body.Complete? { return BodyError(body); }
        return 0;
    }
  }

  function PutResult(nodes: seq<Node>, current: Option<Address>, a: Asking, body: Body): int
    requires nodes != [] && IsAsking(a)
  {
    match ContactOf(nodes, current, a, a.curl)
    case NoNode => Error(GENERAL, BAD_BOOTSTRAP_HOST)
    case NoClient => NO_MEMORY
    case Requested(err) =>
      if err != 0 then err else if StatusError(a) != 0 then AsInt(StatusError(a)) else if !body.Complete? then BodyError(body) else 0
  }

  /** `get_file_length`: the node says `size` if the request is answered and the answer is understood; errors may look like a size. */
  method GetFileLength(rpc: Rpc, a: Asking, body: Body, size: nat) returns (n: int)
    requires rpc.Valid() && IsAsking(a)
    modifies rpc
    ensures rpc.Valid() && n == LengthResult(rpc.nodes, old(rpc.InUse()), a, body, size)
    ensures if Answered(rpc.nodes, old(rpc.InUse()), a, a.curl) && body.Complete? then n == size else n < 0 || LooksLikeSize(n)
    ensures rpc.InUse() == NodeAfter(rpc.nodes, old(rpc.InUse()), a, a.curl)
    ensures rpc.trace == old(rpc.trace) + AskMarks(rpc.nodes, old(rpc.InUse()), a, a.curl)
  {
    hide NodeAfter, AskMarks, ContactOf, Asks;
    var c := Ask(rpc, a);
    match c {
      case NoNode => return Error(GENERAL, BAD_BOOTSTRAP_HOST);
      case NoClient => return NO_MEMORY_AS_SIZE;
      case Requested(err) =>
        if err < 0 { return err; }
        var e := StatusError(a);
        if e != 0 { return AsInt(e); }
        if !body.Complete? { return BodyError(body) + UNSIGNED_LIMIT; }
        return size;
    }
  }

  function LengthResult(nodes: seq<Node>, current: Option<Address>, a: Asking, body: Body, size: nat): int
    requires nodes != [] && IsAsking(a)
  {
    match ContactOf(nodes, current, a, a.curl)
    case NoNode => Error(GENERAL, BAD_BOOTSTRAP_HOST)
    case NoClient => NO_MEMORY_AS_SIZE
    case Requested(err) =>
      if err != 0 then err
      else if StatusError(a) != 0 then AsInt(StatusError(a))
      else if !body.Complete? then BodyError(body) + UNSIGNED_LIMIT
      else size
  }

  /** What `get_response_body_cb` works on. */
  class Sink {
    const to: array<byte>
    const bufsz: nat
    var actual: nat

    ghost predicate Valid()
      reads this
    {
      actual <= bufsz <= to.Length
    }

    constructor (to: array<byte>, bufsz: nat)
      requires bufsz <= to.Length
      ensures Valid() && this.to == to && this.bufsz == bufsz && actual == 0
    {
      this.to, this.bufsz, actual := to, bufsz, 0;
    }

    /** `get_response_body_cb`: takes a chunk that fits, and nothing of one that does not. */
    method Receive(chunk: bytes) returns (n: nat)
      requires Valid()
      modifies this`actual, to
      ensures Valid() && to[..actual] == if n == |chunk| then old(to[..actual]) + chunk else old(to[..actual])
      ensures n == |chunk| || (n == 0 && old(actual) + |chunk| > bufsz)
    {
      if actual + |chunk| > bufsz { return 0; }
      ghost var before := to[..actual];
      forall i | 0 <= i < |chunk| { to[actual + i] := chunk[i]; }
      assert to[..actual + |chunk|] == before + chunk;
      actual := actual + |chunk|;
      return |chunk|;
    }

    /** A transfer, which a refused chunk ends. */
    method Transfer(chunks: seq<bytes>) returns (ok: bool)
      requires Valid() && actual == 0
      modifies this`actual, to
      ensures Valid() && (ok ==> to[..actual] == Joined(chunks))
      ensures ok <==> |Joined(chunks)| <= bufsz
    {
      for i := 0 to |chunks|
        invariant Valid() && to[..actual] == Joined(chunks[..i])
      {
        JoinedStep(chunks, i);
        var n := Receive(chunks[i]);
        if n != |chunks[i]| {
          JoinedPrefix(chunks, i + 1);
          return false;
        }
      }
      assert chunks[..|chunks|] == chunks;
      return true;
    }
  }

  ghost function Joined(chunks: seq<bytes>): bytes {
    if chunks == [] then [] else Joined(chunks[..|chunks| - 1]) + chunks[|chunks| - 1]
  }

  lemma JoinedStep(chunks: seq<bytes>, i: nat)
    requires i < |chunks|
    ensures Joined(chunks[..i + 1]) == Joined(chunks[..i]) + chunks[i]
  {
    assert chunks[..i + 1][..i] == chunks[..i];
  }

  lemma {:induction false} JoinedPrefix(chunks: seq<bytes>, i: nat)
    requires i <= |chunks|
    ensures |Joined(chunks[..i])| <= |Joined(chunks)|
    decreases |chunks| - i
  {
    if i < |chunks| {
      JoinedStep(chunks, i);
      JoinedPrefix(chunks, i + 1);
    } else {
      assert chunks[..i] == chunks;
    }
  }

  /** The requests of a fetch: for the length, and for the file, which comes in chunks. */
  datatype Fetch = Fetch(length: Asking, body: Body, size: nat, file: Asking, chunks: seq<bytes>)

  predicate IsFetch(f: Fetch) {
    IsAsking(f.length) && IsAsking(f.file)
  }

  /** What the second request comes to: a refused chunk makes it fail. */
  ghost function FileCurl(f: Fetch, buflen: nat): nat {
    if |Joined(f.chunks)| <= buflen then f.file.curl else WRITE_ERROR
  }

  ghost function FoundLength(nodes: seq<Node>, current: Option<Address>, f: Fetch): int
    requires nodes != [] && IsFetch(f)
  {
    LengthResult(nodes, current, f.length, f.body, f.size)
  }

  /** There is something to fetch, and room for it. */
  ghost predicate GoesOn(n: int, buflen: nat) {
    n > 0 && !(buflen > 0 && n > buflen)
  }

  ghost function NodeBetween(nodes: seq<Node>, current: Option<Address>, f: Fetch): Option<Address>
    requires nodes != []
  {
    NodeAfter(nodes, current, f.length, f.length.curl)
  }

  /** The whole body is in the buffer, and is as long as was said. */
  ghost predicate Fetches(nodes: seq<Node>, current: Option<Address>, f: Fetch, buflen: nat)
    requires nodes != [] && IsFetch(f)
  {
    var n := FoundLength(nodes, current, f);
    GoesOn(n, buflen) && Answered(nodes, NodeBetween(nodes, current, f), f.file, FileCurl(f, buflen)) && n == |Joined(f.chunks)| <= buflen
  }

  /** What the second request yields, `n` being the length found by the first. */
  ghost function FileResult(nodes: seq<Node>, between: Option<Address>, f: Fetch, buflen: nat, n: nat): int
    requires nodes != [] && IsFetch(f)
  {
    match ContactOf(nodes, between, f.file, FileCurl(f, buflen))
    case NoNode => Error(GENERAL, BAD_BOOTSTRAP_HOST)
    case NoClient => NO_MEMORY_AS_SIZE
    case Requested(err) =>
      if err != 0 then err
      else if StatusError(f.file) != 0 then StatusError(f.file)
      else if n != |Joined(f.chunks)| then BAD_DATA_AS_SIZE
      else n
  }

  ghost function FetchResult(nodes: seq<Node>, current: Option<Address>, f: Fetch, buflen: nat): int
    requires nodes != [] && IsFetch(f)
  {
    var n := FoundLength(nodes, current, f);
    if n <= 0 then n else if !GoesOn(n, buflen) then TOO_SMALL_AS_SIZE else FileResult(nodes, NodeBetween(nodes, current, f), f, buflen, n)
  }

  ghost function FetchNode(nodes: seq<Node>, current: Option<Address>, f: Fetch, buflen: nat): Option<Address>
    requires nodes != [] && IsFetch(f)
  {
    var between := NodeBetween(nodes, current, f);
    if GoesOn(FoundLength(nodes, current, f), buflen) then NodeAfter(nodes, between, f.file, FileCurl(f, buflen)) else between
  }

  ghost function FetchMarks(nodes: seq<Node>, current: Option<Address>, f: Fetch, buflen: nat): seq<Event>
    requires nodes != [] && IsFetch(f)
  {
    AskMarks(nodes, current, f.length, f.length.curl) +
    if GoesOn(FoundLength(nodes, current, f), buflen) then AskMarks(nodes, NodeBetween(nodes, current, f), f.file, FileCurl(f, buflen)) else []
  }

  /**
   * `get_file_to_buffer`. It succeeds exactly when both requests are answered and the body is as long as was said and fits;
   * then the whole body is in the buffer. With a buffer under 2 GiB the caller can tell it by the result alone.
   */
  method GetFileToBuffer(rpc: Rpc, f: Fetch, to: array<byte>, buflen: nat) returns (n: int)
    requires rpc.Valid() && buflen <= to.Length && IsFetch(f)
    modifies rpc, to
    ensures rpc.Valid() && n == FetchResult(rpc.nodes, old(rpc.InUse()), f, buflen)
    ensures Fetches(rpc.nodes, old(rpc.InUse()), f, buflen) ==> 0 < n == |Joined(f.chunks)| <= buflen && to[..n] == Joined(f.chunks)
    ensures !Fetches(rpc.nodes, old(rpc.InUse()), f, buflen) ==> n <= 0 || LooksLikeSize(n)
    ensures buflen < INT_LIMIT ==> (Fetches(rpc.nodes, old(rpc.InUse()), f, buflen) <==> 0 < n <= buflen)
    ensures rpc.InUse() == FetchNode(rpc.nodes, old(rpc.InUse()), f, buflen)
    ensures rpc.trace == old(rpc.trace) + FetchMarks(rpc.nodes, old(rpc.InUse()), f, buflen)
  {
    hide NodeAfter, AskMarks, LengthResult, FileResult, Joined, FileCurl, Answered;
    ghost var current := rpc.InUse();
    n := GetFileLength(rpc, f.length, f.body, f.size);
    assert old(rpc.trace) + AskMarks(rpc.nodes, current, f.length, f.length.curl) + [] ==
        old(rpc.trace) + AskMarks(rpc.nodes, current, f.length, f.length.curl);
    if n <= 0 { return; }
    if buflen > 0 && n > buflen { return TOO_SMALL_AS_SIZE; }
    n := Download(rpc, n, f, to, buflen);
  }

  /** The second request, `size` being what the first one found. */
  method Download(rpc: Rpc, size: nat, f: Fetch, to: array<byte>, buflen: nat) returns (n: int)
    requires rpc.Valid() && buflen <= to.Length && IsFetch(f) && size > 0
    modifies rpc, to
    ensures rpc.Valid() && rpc.InUse() == NodeAfter(rpc.nodes, old(rpc.InUse()), f.file, FileCurl(f, buflen))
    ensures rpc.trace == old(rpc.trace) + AskMarks(rpc.nodes, old(rpc.InUse()), f.file, FileCurl(f, buflen))
    ensures n == FileResult(rpc.nodes, old(rpc.InUse()), f, buflen, size)
    ensures if Answered(rpc.nodes, old(rpc.InUse()), f.file, FileCurl(f, buflen)) && size == |Joined(f.chunks)|
            then n == size <= buflen && to[..n] == Joined(f.chunks)
            else n < 0 || LooksLikeSize(n)
  {
    hide NodeFor, Marking, AskedMarks, Joined;
    ghost var current, trace := rpc.InUse(), rpc.trace;
    var c := Contacting(rpc, f.file);
    AskedHistory(rpc.nodes, current, f.file, FileCurl(f, buflen), trace);
    match c {
      case NoNode => return Error(GENERAL, BAD_BOOTSTRAP_HOST);
      case NoClient => return NO_MEMORY_AS_SIZE;
      case Requested(_) =>
        var sink := new Sink(to, buflen);
        var fits := sink.Transfer(f.chunks);
        var rc := rpc.Request(if fits then f.file.curl else WRITE_ERROR);
        if rc < 0 { return rc; }
        var e := StatusError(f.file);
        if e != 0 { return e; }
        assert |to[..sink.actual]| == sink.actual;
        if size != sink.actual { return BAD_DATA_AS_SIZE; }
        return size;
    }
  }

  // ----- runs -----

  datatype Op =
    | Put(a: Asking, body: Body)
    | Length(a: Asking, body: Body, size: nat)
    | Read(fetch: Fetch, buflen: nat)

  predicate IsOp(op: Op) {
    match op
    case Put(a, _) => IsAsking(a)
    case Length(a, _, _) => IsAsking(a)
    case Read(f, _) => IsFetch(f)
  }

  /** The node in use, and all that has happened to it. */
  datatype State = State(current: Option<Address>, trace: seq<Event>)

  /** The result and, of a read that succeeds, the data. */
  datatype Outcome = Outcome(n: int, data: Option<bytes>)

  ghost predicate Step(nodes: seq<Node>, s: State, op: Op, o: Outcome, t: State)
    requires nodes != [] && IsOp(op)
  {
    match op
    case Put(a, body) =>
      && o == Outcome(PutResult(nodes, s.current, a, body), None)
      && t == State(NodeAfter(nodes, s.current, a, a.curl), s.trace + AskMarks(nodes, s.current, a, a.curl))
    case Length(a, body, size) =>
      && o == Outcome(LengthResult(nodes, s.current, a, body, size), None)
      && t == State(NodeAfter(nodes, s.current, a, a.curl), s.trace + AskMarks(nodes, s.current, a, a.curl))
    case Read(f, buflen) =>
      && o == Outcome(FetchResult(nodes, s.current, f, buflen), if Fetches(nodes, s.current, f, buflen) then Some(Joined(f.chunks)) else None)
      && t == State(FetchNode(nodes, s.current, f, buflen), s.trace + FetchMarks(nodes, s.current, f, buflen))
  }

  ghost predicate Steps(nodes: seq<Node>, ops: seq<Op>, outcomes: seq<Outcome>, states: seq<State>)
    requires nodes != []
  {
    && |outcomes| == |ops| && |states| == |ops| + 1
    && forall i {:trigger ops[i]} :: 0 <= i < |ops| ==> IsOp(ops[i]) && Step(nodes, states[i], ops[i], outcomes[i], states[i + 1])
  }

  ghost function StateOf(rpc: Rpc): State
    reads rpc
  {
    State(rpc.InUse(), rpc.trace)
  }

  method Do(rpc: Rpc, op: Op) returns (n: int, ghost o: Outcome)
    requires rpc.Valid() && IsOp(op)
    modifies rpc
    ensures rpc.Valid() && n == o.n && Step(rpc.nodes, old(StateOf(rpc)), op, o, StateOf(rpc))
  {
    hide PutResult, LengthResult, FetchResult, NodeAfter, AskMarks, FetchNode, FetchMarks, Fetches, Joined, Answered;
    match op {
      case Put(a, body) =>
        n := PutFile(rpc, a, body);
        o := Outcome(n, None);
      case Length(a, body, size) =>
        n := GetFileLength(rpc, a, body, size);
        o := Outcome(n, None);
      case Read(f, buflen) =>
        var to := new byte[buflen];
        ghost var done := Fetches(rpc.nodes, rpc.InUse(), f, buflen);
        n := GetFileToBuffer(rpc, f, to, buflen);
        o := Outcome(n, if done then Some(to[..n]) else None);
    }
  }

  /** Any run of operations: each does and returns exactly what its input determines, and every request goes to the node in use. */
  method Run(rpc: Rpc, ops: seq<Op>) returns (results: seq<int>, ghost outcomes: seq<Outcome>, ghost states: seq<State>)
    requires rpc.Valid() && forall i :: 0 <= i < |ops| ==> IsOp(ops[i])
    modifies rpc
    ensures rpc.Valid() && Consistent(rpc.trace)
    ensures |results| == |ops| == |outcomes| && forall i :: 0 <= i < |ops| ==> results[i] == outcomes[i].n
    ensures Steps(rpc.nodes, ops, outcomes, states) && states[0] == old(StateOf(rpc)) && states[|ops|] == StateOf(rpc)
  {
    hide Step, IsOp;
    results, outcomes, states := [], [], [StateOf(rpc)];
    for i := 0 to |ops|
      invariant rpc.Valid() && |results| == |outcomes| == i && |states| == i + 1
      invariant forall j :: 0 <= j < i ==> results[j] == outcomes[j].n
      invariant states[0] == old(StateOf(rpc)) && states[i] == StateOf(rpc)
      invariant forall j {:trigger ops[j]} :: 0 <= j < i ==> Step(rpc.nodes, states[j], ops[j], outcomes[j], states[j + 1])
    {
      var n;
      ghost var o;
      n, o := Do(rpc, ops[i]);
      results, outcomes, states := results + [n], outcomes + [o], states + [StateOf(rpc)];
    }
  }

  lemma {:induction false} HistoryGrows(nodes: seq<Node>, ops: seq<Op>, outcomes: seq<Outcome>, states: seq<State>, i: nat, j: nat)
    requires nodes != [] && Steps(nodes, ops, outcomes, states) && i <= j <= |ops|
    ensures states[i].trace <= states[j].trace
    decreases j
  {
    hide PutResult, LengthResult, FetchResult, NodeAfter, AskMarks, FetchNode, FetchMarks, Fetches, IsOp;
    if i < j {
      HistoryGrows(nodes, ops, outcomes, states, i, j - 1);
      assert Step(nodes, states[j - 1], ops[j - 1], outcomes[j - 1], states[j]);
    }
  }

  /** An operation that fails with `TRY_AGAIN` has given its node up. */
  lemma TryAgainGivesUp(nodes: seq<Node>, s: State, op: Op, o: Outcome, t: State)
    requires nodes != [] && IsOp(op) && Step(nodes, s, op, o, t) && o.n == Error(GENERAL, TRY_AGAIN)
    ensures t.trace != [] && t.trace[|t.trace| - 1] == Unreachable
  {
    match op {
      case Put(a, body) =>
        hide PutResult, AskMarks;
        PutTryAgain(nodes, s.current, a, body);
      case Length(a, body, size) =>
        hide LengthResult, AskMarks;
        LengthTryAgain(nodes, s.current, a, body, size);
      case Read(f, buflen) =>
        hide LengthResult, FileResult, AskMarks, Joined, FileCurl, NodeBetween;
        LengthTryAgain(nodes, s.current, f.length, f.body, f.size);
        FileTryAgain(nodes, NodeBetween(nodes, s.current, f), f, buflen, FoundLength(nodes, s.current, f));
    }
  }

  ghost predicate EndsUnreachable(marks: seq<Event>) {
    marks != [] && marks[|marks| - 1] == Unreachable
  }

  lemma PutTryAgain(nodes: seq<Node>, current: Option<Address>, a: Asking, body: Body)
    requires nodes != [] && IsAsking(a)
    ensures PutResult(nodes, current, a, body) == Error(GENERAL, TRY_AGAIN) ==> EndsUnreachable(AskMarks(nodes, current, a, a.curl))
  {
    hide NodeFor, Asks, AskMarks;
    UnreachableLast(nodes, current, a, a.curl);
  }

  lemma LengthTryAgain(nodes: seq<Node>, current: Option<Address>, a: Asking, body: Body, size: nat)
    requires nodes != [] && IsAsking(a)
    ensures LengthResult(nodes, current, a, body, size) == Error(GENERAL, TRY_AGAIN) ==> EndsUnreachable(AskMarks(nodes, current, a, a.curl))
  {
    hide NodeFor, Asks, AskMarks;
    UnreachableLast(nodes, current, a, a.curl);
  }

  lemma FileTryAgain(nodes: seq<Node>, between: Option<Address>, f: Fetch, buflen: nat, n: int)
    requires nodes != [] && IsFetch(f)
    ensures n > 0 && FileResult(nodes, between, f, buflen, n) == Error(GENERAL, TRY_AGAIN) ==>
              EndsUnreachable(AskMarks(nodes, between, f.file, FileCurl(f, buflen)))
  {
    hide NodeFor, Asks, AskMarks, Joined;
    UnreachableLast(nodes, between, f.file, FileCurl(f, buflen));
  }

  lemma UnreachableLast(nodes: seq<Node>, current: Option<Address>, a: Asking, curl: nat)
    requires nodes != [] && curl < 1000
    ensures ContactOf(nodes, current, a, curl) == Requested(Error(GENERAL, TRY_AGAIN)) ==>
              EndsUnreachable(AskMarks(nodes, current, a, curl))
  {
    hide NodeFor;
  }

  /** In any run: after an operation that has to be tried again the next request, whenever it comes, follows a selection and goes where that says. */
  lemma SelectionBeforeRetry(nodes: seq<Node>, ops: seq<Op>, outcomes: seq<Outcome>, states: seq<State>, i: nat, j: nat)
    requires nodes != [] && Steps(nodes, ops, outcomes, states) && i < |ops| && outcomes[i].n == Error(GENERAL, TRY_AGAIN)
    requires var trace := states[|ops|].trace; Consistent(trace) && |states[i + 1].trace| <= j < |trace| && trace[j].Asked?
    ensures exists k :: |states[i + 1].trace| <= k < j && states[|ops|].trace[k] == Selected(states[|ops|].trace[j].a)
  {
    hide Step, Consistent;
    TryAgainGivesUp(nodes, states[i], ops[i], outcomes[i], states[i + 1]);
    HistoryGrows(nodes, ops, outcomes, states, i + 1, |ops|);
    ConsistentMeans(states[|ops|].trace, |states[i + 1].trace| - 1, j);
  }
}
