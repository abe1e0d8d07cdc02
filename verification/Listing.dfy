/** Listing the remote files page by page (`list_files` of onedrive.c). */
module Listing {
  import opened Prelude
  import opened HiveError
  import opened Http
  import opened Token
  import opened OneDrive

  /** A field of an item that ought to be an object. */
  datatype Facet = Missing | AnObject | SomethingElse

  /** An item of a page: its name, None unless a string, and its `file` and `folder` fields. */
  datatype Item = Item(name: Option<string>, file: Facet, folder: Facet)

  predicate Good(item: Item) {
    && item.name.Some? && item.name.value != ""
    && (item.file.Missing? != item.folder.Missing?) && !item.file.SomethingElse? && !item.folder.SomethingElse?
  }

  /** A file or a folder, not both, with a name. */
  lemma GoodMeans(item: Item)
    ensures Good(item) <==>
            (exists name: string :: name != "" && (item == Item(Some(name), AnObject, Missing) || item == Item(Some(name), Missing, AnObject)))
  {
    if Good(item) {
      var name := item.name.value;
      assert item == Item(Some(name), item.file, item.folder);
    }
  }

  predicate AllGood(items: seq<Item>) {
    forall i :: 0 <= i < |items| ==> Good(items[i])
  }

  /** A cJSON array. */
  class JsonArray {
    var items: seq<Item>

    constructor (items: seq<Item>)
      ensures this.items == items
    {
      this.items := items;
    }
  }

  /** `__merge_array` moves the items from the front of one array to the end of the other, up to the first bad one. */
  method MergeArray(sub: JsonArray, into: JsonArray) returns (rc: int)
    requires sub != into
    modifies sub, into
    ensures into.items + sub.items == old(into.items + sub.items) && old(into.items) <= into.items
    ensures AllGood(old(into.items)) ==> AllGood(into.items)
    ensures rc == 0 ==> sub.items == []
    ensures rc < 0 ==> sub.items != [] && !Good(sub.items[0])
    ensures rc == 0 || rc == BAD_JSON
  {
    var n := |sub.items|;
    for i := 0 to n
      invariant |sub.items| == n - i && into.items + sub.items == old(into.items + sub.items) && old(into.items) <= into.items
      invariant AllGood(old(into.items)) ==> AllGood(into.items)
    {
      var item := sub.items[0];
      if item.name.None? || item.name.value == "" { return BAD_JSON; }
      if item.file.Missing? == item.folder.Missing? { return BAD_JSON; }
      if item.file.SomethingElse? { return BAD_JSON; }
      if item.folder.SomethingElse? { return BAD_JSON; }
      assert sub.items == [item] + sub.items[1..];
      into.items, sub.items := into.items + [item], sub.items[1..];
    }
    return 0;
  }

  function Names(items: seq<Item>): (names: seq<string>)
    requires AllGood(items)
    ensures |names| == |items| && forall i :: 0 <= i < |items| ==> Some(names[i]) == items[i].name
  {
    seq(|items|, i requires 0 <= i < |items| => items[i].name.value)
  }

  /** Whether the callback goes on after the name of this number. */
  type Willingness = nat -> bool

  /** The calls `names` leads to: one a name up to the first refusal, and one with NULL when there is none. */
  function Calls(names: seq<string>, k: nat, go: Willingness): (calls: seq<Option<string>>)
    ensures calls != []
  {
    if names == [] then [None]
    else if !go(k) then [Some(names[0])]
    else [Some(names[0])] + Calls(names[1..], k + 1, go)
  }

  /** Call `i` passes name `i`; the last one is refused or passes NULL after all names; none before it is refused. */
  lemma {:induction false} CallsMean(names: seq<string>, k: nat, go: Willingness)
    ensures var calls, n := Calls(names, k, go), |Calls(names, k, go)| - 1;
      && n <= |names| && (forall i :: 0 <= i < n ==> calls[i] == Some(names[i]))
      && (forall j :: k <= j < k + n ==> go(j))
      && if calls[n] == None then n == |names| else n < |names| && calls[n] == Some(names[n]) && !go(k + n)
  {
    if names != [] && go(k) {
      CallsMean(names[1..], k + 1, go);
    }
  }

  /** `__notify_user_files` */
  method NotifyUserFiles(items: seq<Item>, go: Willingness) returns (calls: seq<Option<string>>)
    requires AllGood(items)
    ensures calls == Calls(Names(items), 0, go)
  {
    ghost var names := Names(items);
    calls := [];
    for k := 0 to |items|
      invariant Calls(names, 0, go) == calls + Calls(names[k..], k, go)
    {
      assert names[k..][1..] == names[k + 1..];
      calls := calls + [items[k].name];
      var resume := go(k);
      if !resume { return; }
    }
    calls := calls + [None];
  }

  datatype Link = NoLink | NextLink | BadLink

  /** How the service answers the request for a page. */
  datatype Answer =
    | Refused(reply: Reply)
    | NoBody
    | Unparsed
    | Page(items: Option<seq<Item>>, link: Link)

  predicate GoodPage(a: Answer) {
    a.Page? && a.items.Some? && AllGood(a.items.value) && !a.link.BadLink?
  }

  /** A page with good items and a link that is a string, or without one. */
  lemma GoodPageMeans(a: Answer)
    ensures GoodPage(a) <==>
            (exists items: seq<Item> :: AllGood(items) && (a == Page(Some(items), NoLink) || a == Page(Some(items), NextLink)))
  {
    if GoodPage(a) {
      assert AllGood(a.items.value) && a == Page(Some(a.items.value), a.link);
    }
  }

  /** Only a good page with a link leads on. */
  predicate LeadsOn(a: Answer) {
    GoodPage(a) && a.link.NextLink?
  }

  predicate Chain(answers: seq<Answer>) {
    && answers != [] && !LeadsOn(answers[|answers| - 1])
    && forall i :: 0 <= i < |answers| && answers[i].Refused? ==> IsReply(answers[i].reply) && answers[i].reply != Status(HTTP_OK)
  }

  /** The items on all pages from number `i` on, if every page is good. */
  function Listed(answers: seq<Answer>, i: nat): Option<seq<Item>>
    requires i < |answers| && !LeadsOn(answers[|answers| - 1])
    decreases |answers| - i
  {
    var a := answers[i];
    if !GoodPage(a) then None
    else if a.link.NoLink? then Some(a.items.value)
    else
      var more := Listed(answers, i + 1);
      if more.None? then None else Some(a.items.value + more.value)
  }

  function ItemsOf(a: Answer): seq<Item> {
    if a.Page? && a.items.Some? then a.items.value else []
  }

  function ItemsOn(pages: seq<Answer>): seq<Item> {
    if pages == [] then [] else ItemsOf(pages[0]) + ItemsOn(pages[1..])
  }

  /** The pages that lead on, and the first that does not: if that is good, all their items in order, otherwise nothing. */
  lemma {:induction false} ListedMeans(answers: seq<Answer>, i: nat, k: nat)
    requires i <= k < |answers| && !LeadsOn(answers[|answers| - 1])
    requires !LeadsOn(answers[k]) && forall j :: i <= j < k ==> LeadsOn(answers[j])
    ensures Listed(answers, i) == if GoodPage(answers[k]) then Some(ItemsOn(answers[i..k + 1])) else None
    decreases k - i
  {
    hide AllGood;
    if i < k {
      ListedMeans(answers, i + 1, k);
      assert answers[i..k + 1][1..] == answers[i + 1..k + 1];
    } else {
      var last := answers[i..k + 1];
      assert last == [answers[k]] && last[1..] == [] && ItemsOn([]) == [];
      assert ItemsOn(last) == ItemsOf(answers[k]) + [] == ItemsOf(answers[k]);
    }
  }

  function ReplyTo(a: Answer): Reply {
    if a.Refused? then a.reply else Status(HTTP_OK)
  }

  function Behind(items: seq<Item>, more: Option<seq<Item>>): Option<seq<Item>> {
    if more.None? then None else Some(items + more.value)
  }

  lemma {:induction false} ListedGood(answers: seq<Answer>, i: nat)
    requires i < |answers| && !LeadsOn(answers[|answers| - 1]) && Listed(answers, i).Some?
    ensures AllGood(Listed(answers, i).value)
    decreases |answers| - i
  {
    if !answers[i].link.NoLink? {
      ListedGood(answers, i + 1);
    }
  }

  lemma ListedStep(answers: seq<Answer>, i: nat, items: seq<Item>)
    requires i < |answers| && !LeadsOn(answers[|answers| - 1])
    ensures items == [] ==> Behind(items, Listed(answers, i)) == Listed(answers, i)
    ensures !GoodPage(answers[i]) ==> Listed(answers, i) == None
    ensures GoodPage(answers[i]) && answers[i].link.NoLink? ==> Listed(answers, i) == Some(answers[i].items.value)
    ensures LeadsOn(answers[i]) ==>
              i + 1 < |answers| && Behind(items, Listed(answers, i)) == Behind(items + answers[i].items.value, Listed(answers, i + 1))
  {
    assert Listed(answers, i).Some? ==> [] + Listed(answers, i).value == Listed(answers, i).value;
    if LeadsOn(answers[i]) && Listed(answers, i + 1).Some? {
      assert items + (answers[i].items.value + Listed(answers, i + 1).value)
          == (items + answers[i].items.value) + Listed(answers, i + 1).value;
    }
  }

  /** One turn of the loop: what page `i` adds to the items so far. */
  method TakePage(a: Answer, into: JsonArray) returns (rc: int)
    requires AllGood(into.items) && (a.Refused? ==> IsReply(a.reply) && a.reply != Status(HTTP_OK))
    modifies into
    ensures AllGood(into.items) && rc <= 0 && (rc == 0 <==> GoodPage(a)) && (rc == AGAIN <==> a == Refused(Status(401)))
    ensures rc == 0 ==> into.items == old(into.items) + a.items.value
  {
    match a {
      case Refused(reply) => return ReplyError(reply);
      case NoBody => return NO_MEMORY;
      case Unparsed => return NO_MEMORY;
      case Page(items, link) =>
        if items.None? { return BAD_JSON; }
        var sub := new JsonArray(items.value);
        rc := MergeArray(sub, into);
        if rc < 0 {
          BadInside(items.value, old(into.items), into.items, sub.items);
          return;
        }
        assert AllGood(items.value) by {
          assert into.items == old(into.items) + items.value;
          assert forall i :: 0 <= i < |items.value| ==> items.value[i] == into.items[|old(into.items)| + i];
        }
        if link.BadLink? { return BAD_JSON; }
        return 0;
    }
  }

  lemma BadInside(items: seq<Item>, before: seq<Item>, after: seq<Item>, left: seq<Item>)
    requires after + left == before + items && before <= after && left != [] && !Good(left[0])
    ensures !AllGood(items)
  {
    var k := |after| - |before|;
    assert (after + left)[|after|] == left[0] && (before + items)[|before| + k] == items[k];
  }

  /**
   * `list_files` over a finite chain of pages. It succeeds exactly when the token passes, memory suffices and every page
   * is good; then the callback gets the names of all pages in order. Any error: no call at all.
   */
  method ListFiles(drive: OneDrive, check: Check, client: bool, memory: bool, answers: seq<Answer>, go: Willingness)
    returns (rc: int, calls: seq<Option<string>>)
    requires drive.Usable() && IsCheck(check) && Chain(answers)
    modifies drive.token
    ensures drive.Usable() && rc <= 0 && old(drive.token.trace) <= drive.token.trace
    ensures rc == 0 <==> Lists(old(drive.token.expiresAt), check, client, memory, answers)
    ensures rc < 0 ==> calls == []
    ensures AskedAgain(old(drive.token.trace), drive.token.trace) <==> rc == AGAIN
    ensures rc == 0 ==> AllGood(Listed(answers, 0).value) && calls == Calls(Names(Listed(answers, 0).value), 0, go)
  {
    hide Passes, Pending, Gated;
    ghost var was := drive.token.trace;
    calls := [];
    rc := drive.CheckExpire(check);
    if rc < 0 { return; }
    if !client { return NO_MEMORY, calls; }
    if !memory { return NO_MEMORY, calls; }
    var into := new JsonArray([]);
    ListedStep(answers, 0, []);
    hide Listed, Calls, AskedAgain;
    var i := 0;
    while true
      invariant i < |answers| && drive.Ready() && AllGood(into.items) && old(drive.token.trace) <= drive.token.trace
      invariant Listed(answers, 0) == Behind(into.items, Listed(answers, i))
      invariant !AskedAgain(was, drive.token.trace)
      decreases |answers| - i
    {
      var a := answers[i];
      ghost var asked := drive.token.trace;
      drive.Bear(ReplyTo(a));
      AskedLater(was, asked, drive.token.trace);
      ListedStep(answers, i, into.items);
      rc := TakePage(a, into);
      if rc < 0 { return; }
      if a.link.NoLink? { break; }
      i := i + 1;
    }
    ListedGood(answers, 0);
    calls := NotifyUserFiles(into.items, go);
  }

  /** The token passes, there is memory for a client and an array, and all pages are good. */
  predicate Lists(expiresAt: int, check: Check, client: bool, memory: bool, answers: seq<Answer>)
    requires Chain(answers)
  {
    Passes(expiresAt, check) && client && memory && Listed(answers, 0).Some?
  }
}
