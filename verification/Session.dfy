/** Runs of one connection: key operations, listing and expiry marks in any order, whatever the network does. */
module Session {
  import opened Prelude
  import opened Http
  import opened HiveError
  import opened Records
  import opened Remote
  import opened Token
  import opened OneDrive
  import Listing

  /** An operation and all that it meets. */
  datatype Op =
    | Put(key: string, value: Value, world: World)
    | Set(key: string, value: Value, world: World)
    | Get(key: string, go: Answers, world: World)
    | Delete(key: string, world: World)
    | Expire
    | List(check: Check, client: bool, memory: bool, pages: seq<Listing.Answer>, resume: Listing.Willingness)

  predicate OnKey(op: Op) {
    op.Put? || op.Set? || op.Get? || op.Delete?
  }

  predicate IsOp(op: Op) {
    (OnKey(op) ==> |op.key| <= MAX_KEY && IsWorld(op.world)) && (op.List? ==> IsCheck(op.check) && Listing.Chain(op.pages))
  }

  /** The files, and when the token expires and what has become of it. */
  datatype State = State(files: map<string, seq<octet>>, expiresAt: int, marks: seq<Mark>)

  /** What the caller gets to see. */
  datatype Outcome = Outcome(ok: bool, delivered: seq<Value>, calls: seq<Option<string>>)

  const DONE := Outcome(true, [], [])
  const FAILED := Outcome(false, [], [])

  function Plain(ok: bool): Outcome {
    if ok then DONE else FAILED
  }

  ghost predicate PutStep(a: State, key: string, value: Value, w: World, o: Outcome, b: State) {
    var path, size, before := PathOf(key), SizeOf(a.files, PathOf(key)), ContentsOf(a.files);
    && o == Plain(PutsKey(key, value) && Puts(a.expiresAt, size, |value|, w))
    && ContentsOf(b.files) ==
       if PutsKey(key, value) && PutTakes(a.expiresAt, size, |value|, w)
       then before[path := AfterPut(At(before, path), value, Misleads(a.expiresAt, w.length.check))]
       else before
  }

  ghost predicate SetStep(a: State, key: string, value: Value, w: World, o: Outcome, b: State) {
    && o == Plain(PutsKey(key, value) && Sets(a.expiresAt, |value|, w))
    && ContentsOf(b.files) ==
       if PutsKey(key, value) && SetTakes(a.expiresAt, |value|, w) then ContentsOf(a.files)[PathOf(key) := [value]] else ContentsOf(a.files)
  }

  ghost predicate GetStep(a: State, key: string, go: Answers, w: World, o: Outcome, b: State) {
    var size := SizeOf(a.files, PathOf(key));
    && b.files == a.files && o.calls == []
    && (key != "" && Gets(a.expiresAt, size, w) ==> o.ok && o.delivered == UpTo(At(ContentsOf(a.files), PathOf(key)), 0, go))
    && (key != "" && Misleads(a.expiresAt, w.length.check) ==> o == DONE)
    && (key != "" && Fooled(a.expiresAt, w) ==> FooledBy(Walked(o.delivered, o.ok), go))
    && (key == "" ==> o == FAILED)
    && (Gets(a.expiresAt, size, w) || Misleads(a.expiresAt, w.length.check) || Fooled(a.expiresAt, w) || o == FAILED)
  }

  ghost predicate DeleteStep(a: State, key: string, w: World, o: Outcome, b: State) {
    && o == Plain(key != "" && (Removes(a.expiresAt, w.removal) || Misleads(a.expiresAt, w.removal.check)))
    && ContentsOf(b.files) ==
       if key != "" && RemovalTakes(a.expiresAt, w.removal) then ContentsOf(a.files) - {PathOf(key)} else ContentsOf(a.files)
  }

  ghost predicate ListStep(a: State, op: Op, o: Outcome, b: State)
    requires op.List? && Listing.Chain(op.pages)
  {
    && b.files == a.files && o.delivered == []
    && (o.ok <==> Listing.Lists(a.expiresAt, op.check, op.client, op.memory, op.pages))
    && (!o.ok ==> o.calls == [])
    && (o.ok ==>
          && Listing.AllGood(Listing.Listed(op.pages, 0).value)
          && o.calls == Listing.Calls(Listing.Names(Listing.Listed(op.pages, 0).value), 0, op.resume))
  }

  /** What one operation does, entirely in terms of what it meets. */
  ghost predicate Step(a: State, op: Op, o: Outcome, b: State)
    requires IsOp(op)
  {
    && a.marks <= b.marks
    && match op
       case Put(key, value, w) => PutStep(a, key, value, w, o, b)
       case Set(key, value, w) => SetStep(a, key, value, w, o, b)
       case Get(key, go, w) => GetStep(a, key, go, w, o, b)
       case Delete(key, w) => DeleteStep(a, key, w, o, b)
       case Expire => o == DONE && b == State(a.files, 0, a.marks + [Expired])
       case List(_, _, _, _, _) => ListStep(a, op, o, b)
  }

  ghost predicate Steps(ops: seq<Op>, outcomes: seq<Outcome>, trace: seq<State>) {
    && |outcomes| == |ops| && |trace| == |ops| + 1
    && forall i {:trigger ops[i]} :: 0 <= i < |ops| ==> IsOp(ops[i]) && Step(trace[i], ops[i], outcomes[i], trace[i + 1])
  }

  ghost function StateOf(drive: OneDrive): State
    reads drive`files, drive.token
  {
    State(drive.files, drive.token.expiresAt, drive.token.trace)
  }

  method DoPut(drive: OneDrive, key: string, value: Value, w: World) returns (o: Outcome)
    requires drive.Valid() && |key| <= MAX_KEY && IsWorld(w)
    modifies drive`files, drive.token
    ensures drive.Valid() && old(StateOf(drive)).marks <= StateOf(drive).marks
    ensures PutStep(old(StateOf(drive)), key, value, w, o, StateOf(drive))
  {
    hide ContentsOf, PathOf, Puts, PutTakes, Misleads, PutsKey;
    var rc := drive.HivePutValue(key, value, w);
    o := Plain(rc == 0);
  }

  method DoSet(drive: OneDrive, key: string, value: Value, w: World) returns (o: Outcome)
    requires drive.Valid() && |key| <= MAX_KEY && IsWorld(w)
    modifies drive`files, drive.token
    ensures drive.Valid() && old(StateOf(drive)).marks <= StateOf(drive).marks
    ensures SetStep(old(StateOf(drive)), key, value, w, o, StateOf(drive))
  {
    hide ContentsOf, PathOf, Sets, SetTakes, PutsKey;
    var rc := drive.HiveSetValue(key, value, w);
    o := Plain(rc == 0);
  }

  method DoGet(drive: OneDrive, key: string, go: Answers, w: World) returns (o: Outcome)
    requires drive.Valid() && |key| <= MAX_KEY && IsWorld(w)
    modifies drive.token
    ensures drive.Valid() && old(StateOf(drive)).marks <= StateOf(drive).marks
    ensures GetStep(old(StateOf(drive)), key, go, w, o, StateOf(drive))
  {
    hide ContentsOf, PathOf, Gets, Misleads, Fooled, FooledBy, UpTo;
    var rc, delivered := drive.HiveGetValues(key, go, w);
    o := Outcome(rc == 0, delivered, []);
  }

  method DoDelete(drive: OneDrive, key: string, w: World) returns (o: Outcome)
    requires drive.Valid() && |key| <= MAX_KEY && IsWorld(w)
    modifies drive`files, drive.token
    ensures drive.Valid() && old(StateOf(drive)).marks <= StateOf(drive).marks
    ensures DeleteStep(old(StateOf(drive)), key, w, o, StateOf(drive))
  {
    hide ContentsOf, PathOf, Removes, RemovalTakes, Misleads;
    var rc := drive.HiveDeleteKey(key, w);
    o := Plain(rc == 0);
  }

  method DoList(drive: OneDrive, op: Op) returns (o: Outcome)
    requires drive.Valid() && op.List? && IsOp(op)
    modifies drive.token
    ensures drive.Valid() && old(StateOf(drive)).marks <= StateOf(drive).marks
    ensures ListStep(old(StateOf(drive)), op, o, StateOf(drive))
  {
    hide Passes;
    var rc, calls := Listing.ListFiles(drive, op.check, op.client, op.memory, op.pages, op.resume);
    o := Outcome(rc == 0, [], calls);
  }

  method Do(drive: OneDrive, op: Op) returns (o: Outcome)
    requires drive.Valid() && IsOp(op)
    modifies drive`files, drive.token
    ensures drive.Valid() && Step(old(StateOf(drive)), op, o, StateOf(drive))
  {
    hide PutStep, SetStep, GetStep, DeleteStep, ListStep, IsWorld;
    match op {
      case Put(key, value, w) => o := DoPut(drive, key, value, w);
      case Set(key, value, w) => o := DoSet(drive, key, value, w);
      case Get(key, go, w) => o := DoGet(drive, key, go, w);
      case Delete(key, w) => o := DoDelete(drive, key, w);
      case Expire =>
        drive.ExpireToken();
        o := DONE;
      case List(_, _, _, _, _) => o := DoList(drive, op);
    }
  }

  /**
   * Any run at all, whatever memory, clock, token endpoint and service do: every operation takes exactly the step its
   * input determines, the history of the token grows, and no use of the token comes before a refresh that is due.
   */
  method Run(drive: OneDrive, ops: seq<Op>) returns (outcomes: seq<Outcome>, ghost trace: seq<State>)
    requires drive.Valid() && forall i :: 0 <= i < |ops| ==> IsOp(ops[i])
    modifies drive`files, drive.token
    ensures drive.Valid() && Gated(drive.token.trace) && old(drive.token.trace) <= drive.token.trace
    ensures Steps(ops, outcomes, trace) && trace[0] == old(StateOf(drive)) && trace[|ops|] == StateOf(drive)
  {
    hide Step, IsOp;
    outcomes, trace := [], [StateOf(drive)];
    for i := 0 to |ops|
      invariant drive.Valid() && |outcomes| == i && |trace| == i + 1
      invariant trace[0] == old(StateOf(drive)) && trace[i] == StateOf(drive)
      invariant old(drive.token.trace) <= drive.token.trace
      invariant forall j {:trigger ops[j]} :: 0 <= j < i ==> Step(trace[j], ops[j], outcomes[j], trace[j + 1])
    {
      var o := Do(drive, ops[i]);
      MarksGrow(trace[i], ops[i], o, StateOf(drive));
      outcomes, trace := outcomes + [o], trace + [StateOf(drive)];
    }
  }

  lemma MarksGrow(a: State, op: Op, o: Outcome, b: State)
    requires IsOp(op) && Step(a, op, o, b)
    ensures a.marks <= b.marks && (op.Expire? ==> b.marks == a.marks + [Expired])
  {
  }

  lemma {:induction false} HistoryGrows(ops: seq<Op>, outcomes: seq<Outcome>, trace: seq<State>, i: nat, j: nat)
    requires Steps(ops, outcomes, trace) && i <= j <= |ops|
    ensures trace[i].marks <= trace[j].marks
    decreases j
  {
    hide Step, IsOp;
    if i < j {
      HistoryGrows(ops, outcomes, trace, i, j - 1);
      MarksGrow(trace[j - 1], ops[j - 1], outcomes[j - 1], trace[j]);
    }
  }

  /** In any run: from the step in which the caller has the token expire, no later request carries it before a refresh. */
  lemma ExpireGates(ops: seq<Op>, outcomes: seq<Outcome>, trace: seq<State>, i: nat, j: nat)
    requires Steps(ops, outcomes, trace) && i < |ops| && ops[i].Expire?
    requires var marks := trace[|ops|].marks; Gated(marks) && |trace[i].marks| <= j < |marks| && marks[j] == Bearer
    ensures exists k :: |trace[i].marks| < k < j && trace[|ops|].marks[k] == Refreshed
  {
    hide Step, IsOp;
    var e, marks := |trace[i].marks|, trace[|ops|].marks;
    MarksGrow(trace[i], ops[i], outcomes[i], trace[i + 1]);
    HistoryGrows(ops, outcomes, trace, i + 1, |ops|);
    assert marks[e] == trace[i + 1].marks[e] == Expired;
    GatedMeans(marks, e, j);
  }

  // ----- runs without a fault -----

  ghost predicate NoFault(op: Op)
    requires IsOp(op)
  {
    (OnKey(op) ==> Faultless(op.world)) && (op.List? ==> Grants(op.check) && op.client && op.memory && Listing.Listed(op.pages, 0).Some?)
  }

  /** Arguments that are acceptable, and room for another record. */
  ghost predicate Proper(files: map<string, seq<octet>>, op: Op) {
    && (OnKey(op) ==> op.key != "") && (op.Put? || op.Set? ==> PutsKey(op.key, op.value))
    && (op.Put? ==> PathOf(op.key) !in files || |files[PathOf(op.key)]| < INT_LIMIT)
  }

  /** The multi-map an operation makes of `a`. */
  ghost function Model(a: map<string, seq<Value>>, op: Op): map<string, seq<Value>> {
    match op
    case Put(key, value, _) => a[PathOf(key) := At(a, PathOf(key)) + [value]]
    case Set(key, value, _) => a[PathOf(key) := [value]]
    case Get(_, _, _) => a
    case Delete(key, _) => a - {PathOf(key)}
    case Expire => a
    case List(_, _, _, _, _) => a
  }

  /** What it delivers. */
  ghost function Delivery(a: map<string, seq<Value>>, op: Op): seq<Value> {
    if op.Get? then UpTo(At(a, PathOf(op.key)), 0, op.go) else []
  }

  ghost function ModelRun(a: map<string, seq<Value>>, ops: seq<Op>): map<string, seq<Value>> {
    if ops == [] then a else Model(ModelRun(a, ops[..|ops| - 1]), ops[|ops| - 1])
  }

  lemma StepRefinesModel(a: State, op: Op, o: Outcome, b: State)
    requires IsOp(op) && Step(a, op, o, b) && NoFault(op) && Proper(a.files, op)
    ensures o.ok && ContentsOf(b.files) == Model(ContentsOf(a.files), op) && o.delivered == Delivery(ContentsOf(a.files), op)
  {
    hide Passes, Misleads, Fooled, Uploads, Puts, PutTakes, Sets, SetTakes, Gets, Removes, RemovalTakes, PathOf, ContentsOf, UpTo;
    if OnKey(op) {
      hide Faultless, IsWorld;
      var n := if op.Put? || op.Set? then |op.value| else 0;
      FaultlessGoes(a.expiresAt, SizeOf(a.files, PathOf(op.key)), n, op.world);
      SuccessTakes(a.expiresAt, SizeOf(a.files, PathOf(op.key)), n, op.world);
    } else if op.List? {
      GrantsPasses(a.expiresAt, op.check);
    }
  }

  /** A success has its effect. */
  lemma SuccessTakes(expiresAt: int, size: Option<nat>, n: nat, w: World)
    ensures Puts(expiresAt, size, n, w) ==> PutTakes(expiresAt, size, n, w)
    ensures Sets(expiresAt, n, w) ==> SetTakes(expiresAt, n, w)
    ensures Removes(expiresAt, w.removal) ==> RemovalTakes(expiresAt, w.removal)
  {
    hide Passes, Gathers, Sends;
  }

  ghost predicate NothingFails(ops: seq<Op>, trace: seq<State>) {
    && |trace| == |ops| + 1
    && forall i {:trigger ops[i]} :: 0 <= i < |ops| ==> IsOp(ops[i]) && NoFault(ops[i]) && Proper(trace[i].files, ops[i])
  }

  lemma {:induction false} RunFollowsModel(ops: seq<Op>, outcomes: seq<Outcome>, trace: seq<State>, n: nat)
    requires Steps(ops, outcomes, trace) && NothingFails(ops, trace) && n <= |ops|
    ensures ContentsOf(trace[n].files) == ModelRun(ContentsOf(trace[0].files), ops[..n])
    decreases n
  {
    hide Step, NoFault, Proper, Model, Delivery, IsOp, ContentsOf;
    if n == 0 {
      assert ops[..n] == [];
    } else {
      RunFollowsModel(ops, outcomes, trace, n - 1);
      assert ops[..n][..n - 1] == ops[..n - 1];
      assert ops[n - 1] == ops[..n][n - 1];
      StepRefinesModel(trace[n - 1], ops[n - 1], outcomes[n - 1], trace[n]);
    }
  }

  /** An operation of the run succeeds and delivers what the multi-map says. */
  ghost predicate Follows(ops: seq<Op>, outcomes: seq<Outcome>, a: map<string, seq<Value>>, i: nat)
    requires i < |ops| == |outcomes|
  {
    outcomes[i].ok && outcomes[i].delivered == Delivery(ModelRun(a, ops[..i]), ops[i])
  }

  /** A run without a fault is a run of the multi-map: everything succeeds, does what it is for, and every get delivers what is there. */
  lemma RunRefinesModel(ops: seq<Op>, outcomes: seq<Outcome>, trace: seq<State>)
    requires Steps(ops, outcomes, trace) && NothingFails(ops, trace)
    ensures ContentsOf(trace[|ops|].files) == ModelRun(ContentsOf(trace[0].files), ops)
    ensures forall i :: 0 <= i < |ops| ==> Follows(ops, outcomes, ContentsOf(trace[0].files), i)
  {
    hide Step, NoFault, Proper, Model, Delivery, IsOp, ContentsOf;
    RunFollowsModel(ops, outcomes, trace, |ops|);
    assert ops[..|ops|] == ops;
    forall i | 0 <= i < |ops| ensures Follows(ops, outcomes, ContentsOf(trace[0].files), i) {
      RunFollowsModel(ops, outcomes, trace, i);
      StepRefinesModel(trace[i], ops[i], outcomes[i], trace[i + 1]);
    }
  }

  // ----- the check of the token that looks like a missing file -----

  /** A successful put appends exactly when the token has not expired, its refresh is not answered with 404, or nothing is stored. */
  lemma PutAppendsExactly(a: State, key: string, value: Value, w: World, o: Outcome, b: State)
    requires PutStep(a, key, value, w, o, b) && o.ok
    ensures var p, before := PathOf(key), ContentsOf(a.files);
      ContentsOf(b.files) == before[p := At(before, p) + [value]] <==>
      w.length.check.now <= a.expiresAt || !RefusedAsMissing(w.length.check.refresh) || At(before, p) == []
  {
    hide PathOf, ContentsOf, Puts, PutTakes;
    SuccessTakes(a.expiresAt, SizeOf(a.files, PathOf(key)), |value|, w);
    var p, before := PathOf(key), ContentsOf(a.files);
    assert before[p := [value]][p] == [value] && before[p := At(before, p) + [value]][p] == At(before, p) + [value];
    assert |At(before, p) + [value]| == |At(before, p)| + 1 && [] + [value] == [value];
  }

  /** A get that succeeds and is not fooled delivers what is stored exactly likewise. */
  lemma GetDeliversExactly(a: State, key: string, go: Answers, w: World, o: Outcome, b: State)
    requires GetStep(a, key, go, w, o, b) && o.ok && !Fooled(a.expiresAt, w)
    ensures var stored := At(ContentsOf(a.files), PathOf(key));
      o.delivered == UpTo(stored, 0, go) <==>
      w.length.check.now <= a.expiresAt || !RefusedAsMissing(w.length.check.refresh) || stored == []
  {
    hide PathOf, ContentsOf, Gets, Fooled;
    UpToIsPrefix(At(ContentsOf(a.files), PathOf(key)), 0, go);
  }

  /** A successful delete deletes exactly likewise. */
  lemma DeleteDeletesExactly(a: State, key: string, w: World, o: Outcome, b: State)
    requires DeleteStep(a, key, w, o, b) && o.ok
    ensures var p, before := PathOf(key), ContentsOf(a.files);
      ContentsOf(b.files) == before - {p} <==>
      w.removal.check.now <= a.expiresAt || !RefusedAsMissing(w.removal.check.refresh) || p !in before
  {
    hide PathOf, ContentsOf;
    var p, before := PathOf(key), ContentsOf(a.files);
    PassesApart(a.expiresAt, w.removal.check);
    if before == before - {p} {
      assert p !in before - {p};
    }
    if p !in before {
      assert before == before - {p};
    }
  }

  // ----- an input on which a stored list is lost -----

  const GRANT: Object := TokenReply("bearer", "all", "a", "r", 3600)

  lemma GrantDecodes()
    ensures Decoded(GRANT) == Some(Grant(Tokens("bearer", "a", "r"), 3600))
  {
    ReplyDecodes("bearer", "all", "a", "r", 3600);
  }

  /** The token endpoint answers 404 once, and grants the next refresh; everything else is served. */
  function Hiccup(): World {
    var refused := Check(20, Answered(Status(HTTP_NOT_FOUND), true, None, 3, 1, true));
    var granted := Check(30, Answered(Status(HTTP_OK), true, Some(GRANT), 3, 1, true));
    var lookup := Lookup(refused, true, Served, Complete);
    World(lookup, true, Fetch(lookup, Served), Upload(granted, true, Served, true, Served, Served, Complete, true, Served),
          Removal(refused, true, Served))
  }

  /** With an expired token a value is put behind a stored one; the caller is told that it succeeded, and the stored one is gone. */
  lemma StoredListLost(key: string, o: Outcome, b: State)
    requires key != "" && PutStep(State(map[PathOf(key) := Record([1])], 10, []), key, [2], Hiccup(), o, b)
    ensures IsWorld(Hiccup()) && IsLog(Record([1])) && o.ok
    ensures At(ContentsOf(map[PathOf(key) := Record([1])]), PathOf(key)) == [[1]] && At(ContentsOf(b.files), PathOf(key)) == [[2]]
  {
    hide PathOf, IsLog, ValuesOf, Decoded, Record;
    GrantDecodes();
    SingleLog([1]);
    var files := map[PathOf(key) := Record([1])];
    var w := Hiccup();
    assert Misleads(10, w.length.check);
    assert Puts(10, SizeOf(files, PathOf(key)), 1, w);
    SuccessTakes(10, SizeOf(files, PathOf(key)), 1, w);
  }
}
