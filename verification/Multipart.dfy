/** Multipart form data: `sb_get_multipart` of sandbird.c against a printer (section 5.1.1 of RFC 2046). */
module Multipart {
  import opened Prelude
  import opened Headers

  const CONTENT_TYPE: bytes := "Content-Type"
  const DISPOSITION: bytes := "Content-Disposition"
  const BOUNDARY_IS: bytes := "boundary="
  const NAME_IS: bytes := "name=\""
  const BLANK_LINE: bytes := "\r\n\r\n"
  const SIZE_MODULUS := 0x1_0000_0000_0000_0000

  // ----- searching -----

  /** How a search ends: behind a match, without one, past the end of the buffer, or, in a header lookup, never. */
  datatype Search = Hit(next: nat) | Miss | Overrun | Stuck

  /** `P_AFTERL`: gives up at `end - |x|`, and misses that when started behind it. */
  ghost function SearchFor(s: bytes, p: nat, end: nat, x: bytes): (r: Search)
    requires end < |s|
    ensures r.Hit? ==> p + |x| <= r.next < end && Matches(s, r.next - |x|, x)
    decreases end - p
  {
    if p + |x| > end then Overrun
    else if p + |x| == end then Miss
    else if Matches(s, p, x) then Hit(p + |x|)
    else SearchFor(s, p + 1, end, x)
  }

  method After(s: bytes, start: nat, end: nat, x: bytes) returns (r: Search)
    requires end < |s|
    ensures r == SearchFor(s, start, end, x)
  {
    var p := start;
    if p + |x| > end { return Overrun; }
    while true
      invariant p + |x| <= end && SearchFor(s, start, end, x) == SearchFor(s, p, end, x)
      decreases end - p
    {
      if p == end - |x| { return Miss; }
      var found := MemEqual(s, p, x);
      if found { return Hit(p + |x|); }
      p := p + 1;
    }
  }

  /** The search leaves the buffer exactly when it is started fewer bytes before the end than it looks for. */
  lemma {:induction false} OverrunExactly(s: bytes, p: nat, end: nat, x: bytes)
    requires end < |s|
    ensures SearchFor(s, p, end, x) == Overrun <==> p + |x| > end
    decreases end - p
  {
    if p + |x| < end && !Matches(s, p, x) {
      OverrunExactly(s, p + 1, end, x);
    }
  }

  /** `x` stands at `q` and nowhere between `p` and `q`. */
  ghost predicate FirstAt(s: bytes, p: nat, x: bytes, q: nat) {
    p <= q && Matches(s, q, x) && forall i: nat | p <= i < q :: !Matches(s, i, x)
  }

  lemma {:induction false} SearchFinds(s: bytes, p: nat, end: nat, x: bytes, q: nat)
    requires end < |s| && FirstAt(s, p, x, q) && q + |x| < end
    ensures SearchFor(s, p, end, x) == Hit(q + |x|)
    decreases q - p
  {
    if p < q {
      SearchFinds(s, p + 1, end, x, q);
    }
  }

  lemma FirstFromLater(s: bytes, p: nat, later: nat, x: bytes, q: nat)
    requires FirstAt(s, p, x, q) && p <= later <= q
    ensures FirstAt(s, later, x, q)
  {
  }

  /** `x` occurs in `t` at the end and nowhere before, from `p` on. */
  ghost predicate OnlyAtEnd(t: bytes, p: nat, x: bytes) {
    p + |x| <= |t| && FirstAt(t, p, x, |t| - |x|)
  }

  lemma FirstInText(s: bytes, n: nat, t: bytes, p: nat, x: bytes)
    requires Matches(s, n, t) && OnlyAtEnd(t, p, x)
    ensures FirstAt(s, n + p, x, n + |t| - |x|)
  {
    var k := |t| - |x|;
    forall i: nat | n + p <= i < n + k ensures !Matches(s, i, x) {
      assert !Matches(t, i - n, x);
      var j :| 0 <= j < |x| && x[j] != t[i - n + j];
      assert t[i - n + j] == s[i + j];
    }
    assert forall j :: 0 <= j < |x| ==> x[j] == t[k + j] == s[n + k + j];
  }

  // ----- sb_get_multipart -----

  /** Outcome of the lookup: offset and length of the data, no such part, a read outside the buffer, or an endless loop. */
  datatype Found = Part(start: nat, len: nat) | Absent | OutOfBounds | Hangs

  function Failed(r: Search): Found {
    match r
    case Overrun => OutOfBounds
    case Stuck => Hangs
    case _ => Absent
  }

  /** The C string that starts at `p`. */
  function TextAt(s: bytes, p: nat): (t: bytes)
    requires p < |s| && s[|s| - 1] == NUL
    ensures IsCString(t) && p + |t| <= |s|
  {
    s[p..Until(s, p, {}) + 1]
  }

  predicate NameAt(s: bytes, p: nat, name: bytes) {
    Matches(s, p, name) && p + |name| < |s| && s[p + |name|] == '"'
  }

  /** `n - 4` as a `size_t`: a boundary right behind the header makes it wrap. */
  function DataLength(n: nat): nat {
    if n >= 4 then n - 4 else n - 4 + SIZE_MODULUS
  }

  /** The data behind the header that contains `p`, up to the next boundary. */
  ghost function DataFrom(s: bytes, end: nat, bnd: bytes, p: nat): Found
    requires end < |s|
  {
    var h := SearchFor(s, p, end, BLANK_LINE);
    if !h.Hit? then Failed(h)
    else
      var q := SearchFor(s, h.next, end, bnd);
      if !q.Hit? then Failed(q) else Part(h.next, DataLength(q.next - h.next - |bnd|))
  }

  /** Behind the next `x` in the value of a header, the header lines starting at `p`. */
  ghost function InHeader(s: bytes, end: nat, p: nat, field: bytes, x: bytes): (r: Search)
    requires p <= end < |s| && s[|s| - 1] == NUL
    ensures r.Hit? ==> p + |x| <= r.next < end
  {
    var t := TextAt(s, p);
    if !Halts(t, field) then Stuck
    else
      var v := Lookup(t, field, 0);
      if v.None? then Miss else SearchFor(s, p + v.value, end, x)
  }

  /** For the header lines of a part, by offset: where its quoted name starts. */
  type NameFinder = nat -> Search

  ghost predicate Advances(names: NameFinder, end: nat) {
    forall p: nat :: names(p).Hit? ==> p < names(p).next < end
  }

  ghost function NamesIn(s: bytes): (names: NameFinder)
    requires |s| > 0 && s[|s| - 1] == NUL
    ensures Advances(names, |s| - 1)
  {
    (p: nat) => if p < |s| then InHeader(s, |s| - 1, p, DISPOSITION, NAME_IS) else Overrun
  }

  /** Where the quoted name of the next part starts: behind a boundary, in the lines that follow. */
  ghost function NextName(names: NameFinder, s: bytes, end: nat, bnd: bytes, p: nat): (r: Search)
    requires end < |s| && Advances(names, end)
    ensures r.Hit? ==> p < r.next < end
  {
    var q := SearchFor(s, p, end, bnd);
    if !q.Hit? then q
    else
      var r := SearchFor(s, q.next, end, CRLF);
      if !r.Hit? then r else names(r.next)
  }

  /** What the loop over the parts asks: where the next name is, whether it is the one, where its data is. */
  datatype Scan = Scan(next: NameFinder, named: nat -> bool, data: nat -> Found)

  /** The loop of `sb_get_multipart` from `p` on. */
  ghost function Run(scan: Scan, end: nat, p: nat): Found
    requires Advances(scan.next, end)
    decreases end - p
  {
    var n := scan.next(p);
    if !n.Hit? then Failed(n) else if scan.named(n.next) then scan.data(n.next) else Run(scan, end, n.next)
  }

  ghost function ScanFor(s: bytes, bnd: bytes, name: bytes): (scan: Scan)
    requires |s| > 0 && s[|s| - 1] == NUL
    ensures Advances(scan.next, |s| - 1)
  {
    var end := |s| - 1;
    Scan((p: nat) => NextName(NamesIn(s), s, end, bnd, p), (p: nat) => NameAt(s, p, name), (p: nat) => DataFrom(s, end, bnd, p))
  }

  /** The part called `name`, the boundary parameter of the request starting at `b`. */
  ghost function PartBehind(s: bytes, b: Search, name: bytes): Found
    requires |s| > 0 && s[|s| - 1] == NUL
  {
    if !b.Hit? then Failed(b)
    else
      var e := SearchFor(s, b.next, |s| - 1, CRLF);
      if !e.Hit? then Failed(e) else Run(ScanFor(s, s[b.next..e.next - 2], name), |s| - 1, e.next)
  }

  /** What `sb_get_multipart` returns. */
  ghost function PartOf(s: bytes, name: bytes): Found
    requires |s| > 0 && s[|s| - 1] == NUL
  {
    PartBehind(s, InHeader(s, |s| - 1, 0, CONTENT_TYPE, BOUNDARY_IS), name)
  }

  method FindInHeader(s: bytes, end: nat, p: nat, field: bytes, x: bytes) returns (r: Search)
    requires p <= end < |s| && s[|s| - 1] == NUL && FieldName(field)
    requires InHeader(s, end, p, field, x) != Stuck
    ensures r == InHeader(s, end, p, field, x)
  {
    hide SearchFor, Halts, Matches;
    var v := FindHeaderValue(TextAt(s, p), field);
    if v.None? { return Miss; }
    r := After(s, p + v.value, end, x);
  }

  method FindNextName(s: bytes, bnd: bytes, p: nat) returns (r: Search)
    requires |s| > 0 && s[|s| - 1] == NUL && NextName(NamesIn(s), s, |s| - 1, bnd, p) != Stuck
    ensures r == NextName(NamesIn(s), s, |s| - 1, bnd, p)
  {
    hide SearchFor, InHeader;
    var end := |s| - 1;
    r := After(s, p, end, bnd);
    if !r.Hit? { return; }
    r := After(s, r.next, end, CRLF);
    if !r.Hit? { return; }
    r := FindInHeader(s, end, r.next, DISPOSITION, NAME_IS);
  }

  /** The data of a part, `p` being inside its header. */
  method TakeData(s: bytes, end: nat, bnd: bytes, p: nat) returns (r: Found)
    requires end < |s|
    ensures r == DataFrom(s, end, bnd, p)
  {
    var h := After(s, p, end, BLANK_LINE);
    if !h.Hit? { return Failed(h); }
    var q := After(s, h.next, end, bnd);
    if !q.Hit? { return Failed(q); }
    return Part(h.next, DataLength(q.next - h.next - |bnd|));
  }

  /** The loop of `sb_get_multipart`. */
  method FindPart(s: bytes, bnd: bytes, start: nat, name: bytes) returns (r: Found)
    requires |s| > 0 && s[|s| - 1] == NUL && start < |s| && NUL !in name
    requires Run(ScanFor(s, bnd, name), |s| - 1, start) != Hangs
    ensures r == Run(ScanFor(s, bnd, name), |s| - 1, start)
  {
    hide NamesIn, NextName, DataFrom, SearchFor;
    ghost var scan := ScanFor(s, bnd, name);
    var end, p := |s| - 1, start;
    while true
      invariant p < |s| && Run(scan, end, start) == Run(scan, end, p)
      decreases |s| - p
    {
      var n := FindNextName(s, bnd, p);
      if !n.Hit? { return Failed(n); }
      var named := MemEqual(s, n.next, name);
      if named && s[n.next + |name|] == '"' {
        r := TakeData(s, end, bnd, n.next);
        return;
      }
      p := n.next;
    }
  }

  method FindBehind(s: bytes, b: Search, name: bytes) returns (r: Found)
    requires |s| > 0 && s[|s| - 1] == NUL && NUL !in name && PartBehind(s, b, name) != Hangs
    ensures r == PartBehind(s, b, name)
  {
    hide SearchFor, ScanFor, Run;
    if !b.Hit? { return Failed(b); }
    var e := After(s, b.next, |s| - 1, CRLF);
    if !e.Hit? { return Failed(e); }
    r := FindPart(s, s[b.next..e.next - 2], e.next, name);
  }

  /** `sb_get_multipart`, `s` being the receive buffer with its NUL. */
  method GetMultipart(s: bytes, name: bytes) returns (r: Found)
    requires |s| > 0 && s[|s| - 1] == NUL && NUL !in name && PartOf(s, name) != Hangs
    ensures r == PartOf(s, name)
  {
    hide InHeader, Run, ScanFor, SearchFor;
    var b := FindInHeader(s, |s| - 1, 0, CONTENT_TYPE, BOUNDARY_IS);
    r := FindBehind(s, b, name);
  }

  // ----- printing -----

  const DASHES: bytes := "--"
  const QUOTE: bytes := "\""

  /** A part: its header up to the quoted name, the name, the rest of its header, and its data. */
  datatype FormPart = FormPart(open: bytes, name: bytes, rest: bytes, data: bytes)

  ghost function HeaderRest(q: FormPart): bytes {
    q.name + (QUOTE + (q.rest + BLANK_LINE))
  }

  /** A part from its name up to the boundary behind it. */
  ghost function PartText(q: FormPart, bnd: bytes): bytes {
    HeaderRest(q) + (q.data + (CRLF + (DASHES + bnd)))
  }

  /** The body behind its first boundary. */
  ghost function Sections(parts: seq<FormPart>, bnd: bytes): bytes {
    if parts == [] then DASHES
    else CRLF + (parts[0].open + (PartText(parts[0], bnd) + Sections(parts[1..], bnd)))
  }

  /** The name has no quote; the blank line and the boundary occur at their own places first. */
  ghost predicate GoodPart(q: FormPart, bnd: bytes) {
    '"' !in q.name && OnlyAtEnd(HeaderRest(q), 0, BLANK_LINE) && OnlyAtEnd(PartText(q, bnd), 0, bnd)
  }

  ghost predicate GoodParts(parts: seq<FormPart>, bnd: bytes) {
    forall i :: 0 <= i < |parts| ==> GoodPart(parts[i], bnd)
  }

  ghost function FirstNamed(parts: seq<FormPart>, name: bytes): Option<bytes> {
    if parts == [] then None
    else if parts[0].name == name then Some(parts[0].data)
    else FirstNamed(parts[1..], name)
  }

  /** The printed body: its first boundary, from `p` on, at `q`, then the sections, and perhaps a line end. */
  ghost predicate BodyPrinted(s: bytes, end: nat, bnd: bytes, p: nat, q: nat, parts: seq<FormPart>) {
    var close := q + |bnd| + |Sections(parts, bnd)|;
    && end < |s| && FirstAt(s, p, bnd, q)
    && Matches(s, q + |bnd|, Sections(parts, bnd)) && (end == close || end == close + 2)
  }

  // ----- where everything stands -----

  ghost function NameOf(at: nat, q: FormPart): nat {
    at + 2 + |q.open|
  }

  ghost function DataStart(at: nat, q: FormPart): nat {
    NameOf(at, q) + |HeaderRest(q)|
  }

  ghost function NextBoundary(at: nat, q: FormPart): nat {
    DataStart(at, q) + |q.data| + 4
  }

  /** A part behind the boundary that ends at `at`: its pieces in place, each delimiter at its first occurrence. */
  ghost predicate PartAt(s: bytes, end: nat, bnd: bytes, at: nat, q: FormPart) {
    && Matches(s, at, CRLF) && Matches(s, at + 2, q.open)
    && Matches(s, NameOf(at, q), q.name) && Matches(s, NameOf(at, q) + |q.name|, QUOTE) && '"' !in q.name
    && DataStart(at, q) >= 4 && FirstAt(s, NameOf(at, q), BLANK_LINE, DataStart(at, q) - 4)
    && Matches(s, DataStart(at, q), q.data)
    && FirstAt(s, NameOf(at, q), bnd, NextBoundary(at, q)) && NextBoundary(at, q) + |bnd| < end
  }

  lemma SectionLayout(s: bytes, at: nat, parts: seq<FormPart>, bnd: bytes)
    requires parts != [] && Matches(s, at, Sections(parts, bnd))
    ensures var q := parts[0];
      && Matches(s, at, CRLF) && Matches(s, at + 2, q.open) && Matches(s, NameOf(at, q), PartText(q, bnd))
      && Matches(s, NextBoundary(at, q) + |bnd|, Sections(parts[1..], bnd))
      && at + |Sections(parts, bnd)| == NextBoundary(at, q) + |bnd| + |Sections(parts[1..], bnd)|
  {
    var q, t, more := parts[0], PartText(parts[0], bnd), Sections(parts[1..], bnd);
    MatchesConcat(s, at, CRLF, q.open + (t + more));
    MatchesConcat(s, at + 2, q.open, t + more);
    MatchesConcat(s, NameOf(at, q), t, more);
  }

  lemma SectionsLength(parts: seq<FormPart>, bnd: bytes)
    ensures |Sections(parts, bnd)| >= 2
  {
  }

  lemma PartLayout(s: bytes, n: nat, q: FormPart, bnd: bytes)
    requires Matches(s, n, PartText(q, bnd))
    ensures Matches(s, n, HeaderRest(q)) && Matches(s, n + |HeaderRest(q)|, q.data)
    ensures Matches(s, n, q.name) && Matches(s, n + |q.name|, QUOTE)
  {
    MatchesConcat(s, n, HeaderRest(q), q.data + (CRLF + (DASHES + bnd)));
    MatchesConcat(s, n + |HeaderRest(q)|, q.data, CRLF + (DASHES + bnd));
    MatchesConcat(s, n, q.name, QUOTE + (q.rest + BLANK_LINE));
    MatchesConcat(s, n + |q.name|, QUOTE, q.rest + BLANK_LINE);
  }

  lemma PartPrinted(s: bytes, end: nat, bnd: bytes, at: nat, q: FormPart)
    requires GoodPart(q, bnd) && Matches(s, at, CRLF) && Matches(s, at + 2, q.open)
    requires Matches(s, NameOf(at, q), PartText(q, bnd)) && NextBoundary(at, q) + |bnd| < end
    ensures PartAt(s, end, bnd, at, q)
  {
    var n := NameOf(at, q);
    PartLayout(s, n, q, bnd);
    FirstInText(s, n, HeaderRest(q), 0, BLANK_LINE);
    FirstInText(s, n, PartText(q, bnd), 0, bnd);
  }

  /** The printed body in place: boundary, part, boundary, ..., each where the search started at `p` first finds it. */
  ghost predicate Laid(s: bytes, end: nat, bnd: bytes, p: nat, q: nat, parts: seq<FormPart>)
    decreases |parts|
  {
    && FirstAt(s, p, bnd, q)
    && if parts == [] then Closed(s, end, q + |bnd|)
       else
         && PartAt(s, end, bnd, q + |bnd|, parts[0])
         && Laid(s, end, bnd, NameOf(q + |bnd|, parts[0]), NextBoundary(q + |bnd|, parts[0]), parts[1..])
  }

  ghost predicate Closed(s: bytes, end: nat, at: nat) {
    Matches(s, at, DASHES) && (end == at + 2 || end == at + 4)
  }

  /** Behind the first boundary of a printed body stand its first part and, at the next boundary, a printed body of the others. */
  lemma SectionPrinted(s: bytes, end: nat, bnd: bytes, p: nat, q: nat, parts: seq<FormPart>)
    requires GoodParts(parts, bnd) && BodyPrinted(s, end, bnd, p, q, parts) && parts != []
    ensures PartAt(s, end, bnd, q + |bnd|, parts[0])
    ensures BodyPrinted(s, end, bnd, NameOf(q + |bnd|, parts[0]), NextBoundary(q + |bnd|, parts[0]), parts[1..])
  {
    var at := q + |bnd|;
    hide Matches, FirstAt, PartText, HeaderRest, GoodPart, Sections;
    SectionLayout(s, at, parts, bnd);
    SectionsLength(parts[1..], bnd);
    PartPrinted(s, end, bnd, at, parts[0]);
  }

  lemma {:induction false} BodyLaid(s: bytes, end: nat, bnd: bytes, p: nat, q: nat, parts: seq<FormPart>)
    requires GoodParts(parts, bnd) && BodyPrinted(s, end, bnd, p, q, parts)
    ensures Laid(s, end, bnd, p, q, parts)
    decreases |parts|
  {
    hide Matches, FirstAt, PartAt, GoodPart, NameOf, NextBoundary;
    if parts != [] {
      hide BodyPrinted;
      SectionPrinted(s, end, bnd, p, q, parts);
      BodyLaid(s, end, bnd, NameOf(q + |bnd|, parts[0]), NextBoundary(q + |bnd|, parts[0]), parts[1..]);
      PrintedStarts(s, end, bnd, p, q, parts);
    }
  }

  lemma PrintedStarts(s: bytes, end: nat, bnd: bytes, p: nat, q: nat, parts: seq<FormPart>)
    requires BodyPrinted(s, end, bnd, p, q, parts)
    ensures FirstAt(s, p, bnd, q)
  {
  }

  // ----- looking a name up -----

  /** The name finder does its work on every part. */
  ghost predicate NamesFound(names: NameFinder, s: bytes, end: nat, parts: seq<FormPart>) {
    forall i: nat | i < |parts| :: FindsName(names, s, end, parts[i])
  }

  ghost predicate FindsName(names: NameFinder, s: bytes, end: nat, q: FormPart) {
    forall p: nat | Matches(s, p, q.open) && p + |q.open| < end :: names(p) == Hit(p + |q.open|)
  }

  lemma CrLfFound(s: bytes, p: nat, end: nat)
    requires end < |s| && Matches(s, p, CRLF) && p + 2 < end
    ensures SearchFor(s, p, end, CRLF) == Hit(p + 2)
  {
  }

  /** Behind the boundary of a printed part the scan comes to its name. */
  lemma NextNamePrinted(names: NameFinder, s: bytes, end: nat, bnd: bytes, p: nat, b: nat, q: FormPart)
    requires end < |s| && FirstAt(s, p, bnd, b) && PartAt(s, end, bnd, b + |bnd|, q)
    requires Advances(names, end) && FindsName(names, s, end, q)
    ensures NextName(names, s, end, bnd, p) == Hit(NameOf(b + |bnd|, q))
  {
    SearchFinds(s, p, end, bnd, b);
    CrLfFound(s, b + |bnd|, end);
  }

  /** The closing boundary ends the scan. */
  lemma NoNextName(names: NameFinder, s: bytes, end: nat, bnd: bytes, p: nat, b: nat)
    requires end < |s| && FirstAt(s, p, bnd, b) && Advances(names, end)
    requires Closed(s, end, b + |bnd|)
    ensures NextName(names, s, end, bnd, p) == Miss
  {
    var at := b + |bnd|;
    assert DASHES[0] == '-' && DASHES[1] == '-' && CRLF[0] == '\r';
    assert s[at] == '-' && s[at + 1] == '-';
    SearchFinds(s, p, end, bnd, b);
    if end == at + 4 {
      assert SearchFor(s, at + 2, end, CRLF) == Miss;
      assert SearchFor(s, at + 1, end, CRLF) == Miss;
    }
    assert SearchFor(s, at, end, CRLF) == Miss;
  }

  /** The data of the part behind the boundary that ends at `at`. */
  lemma DataInPlace(s: bytes, end: nat, bnd: bytes, at: nat, q: FormPart)
    requires end < |s| && PartAt(s, end, bnd, at, q)
    ensures DataFrom(s, end, bnd, NameOf(at, q)) == Part(DataStart(at, q), |q.data|)
  {
    var n, res, b := NameOf(at, q), DataStart(at, q), NextBoundary(at, q);
    SearchFinds(s, n, end, BLANK_LINE, res - 4);
    FirstFromLater(s, n, res, bnd, b);
    SearchFinds(s, res, end, bnd, b);
  }

  lemma NameMatches(s: bytes, n: nat, x: bytes, name: bytes)
    requires Matches(s, n, x) && Matches(s, n + |x|, QUOTE) && '"' !in x && '"' !in name
    ensures NameAt(s, n, name) <==> name == x
  {
    var k := |x|;
    assert s[n + k] == QUOTE[0] == '"';
    assert |name| < k ==> s[n + |name|] == x[|name|] && x[|name|] in x;
    assert |name| > k ==> name[k] in name;
    if NameAt(s, n, name) {
      assert forall i :: 0 <= i < k ==> name[i] == s[n + i] == x[i];
    }
  }

  /** The bytes a lookup result stands for. */
  ghost function DataOf(s: bytes, r: Found): Option<bytes> {
    if r.Part? && r.start + r.len <= |s| then Some(s[r.start..r.start + r.len]) else None
  }

  /** The scan goes from `p` through the parts in order, knows the name and the data of each, and then ends. */
  ghost predicate Sees(scan: Scan, s: bytes, p: nat, parts: seq<FormPart>, name: bytes)
    decreases |parts|
  {
    var r := scan.next(p);
    if parts == [] then r == Miss
    else
      && r.Hit? && scan.named(r.next) == (name == parts[0].name)
      && DataOf(s, scan.data(r.next)) == Some(parts[0].data)
      && Sees(scan, s, r.next, parts[1..], name)
  }

  /** The data of the first part of that name, or that there is no such part. */
  ghost predicate Answers(s: bytes, r: Found, parts: seq<FormPart>, name: bytes) {
    match FirstNamed(parts, name)
    case None => r == Absent
    case Some(data) => r.Part? && DataOf(s, r) == Some(data)
  }

  lemma {:induction false} RunFindsFirst(scan: Scan, s: bytes, end: nat, p: nat, parts: seq<FormPart>, name: bytes)
    requires Advances(scan.next, end) && Sees(scan, s, p, parts, name)
    ensures Answers(s, Run(scan, end, p), parts, name)
    decreases |parts|
  {
    if parts != [] {
      RunFindsFirst(scan, s, end, scan.next(p).next, parts[1..], name);
    }
  }

  lemma DataPrinted(s: bytes, end: nat, bnd: bytes, at: nat, q: FormPart)
    requires end < |s| && PartAt(s, end, bnd, at, q)
    ensures DataOf(s, DataFrom(s, end, bnd, NameOf(at, q))) == Some(q.data)
  {
    DataInPlace(s, end, bnd, at, q);
    MatchesSlice(s, DataStart(at, q), q.data);
  }

  lemma NamePrinted(s: bytes, end: nat, bnd: bytes, at: nat, q: FormPart, name: bytes)
    requires PartAt(s, end, bnd, at, q) && '"' !in name
    ensures NameAt(s, NameOf(at, q), name) <==> name == q.name
  {
    hide FirstAt, NameAt, Matches;
    NameMatches(s, NameOf(at, q), q.name, name);
  }

  /** What the scan sees of the part behind the boundary at `b`. */
  lemma RoundPrinted(s: bytes, bnd: bytes, p: nat, b: nat, q: FormPart, name: bytes)
    requires |s| > 0 && s[|s| - 1] == NUL && FindsName(NamesIn(s), s, |s| - 1, q) && '"' !in name
    requires FirstAt(s, p, bnd, b) && PartAt(s, |s| - 1, bnd, b + |bnd|, q)
    ensures var scan, n := ScanFor(s, bnd, name), NameOf(b + |bnd|, q);
      scan.next(p) == Hit(n) && scan.named(n) == (name == q.name) && DataOf(s, scan.data(n)) == Some(q.data)
  {
    hide FirstAt, PartAt, FindsName, NextName, NameAt, DataFrom, DataOf, NamesIn, NameOf;
    NextNamePrinted(NamesIn(s), s, |s| - 1, bnd, p, b, q);
    NamePrinted(s, |s| - 1, bnd, b + |bnd|, q, name);
    DataPrinted(s, |s| - 1, bnd, b + |bnd|, q);
  }

  lemma {:induction false} LaidIsSeen(s: bytes, bnd: bytes, p: nat, q: nat, parts: seq<FormPart>, name: bytes)
    requires |s| > 0 && s[|s| - 1] == NUL && NamesFound(NamesIn(s), s, |s| - 1, parts) && '"' !in name
    requires Laid(s, |s| - 1, bnd, p, q, parts)
    ensures Sees(ScanFor(s, bnd, name), s, p, parts, name)
    decreases |parts|
  {
    if parts == [] {
      NoNextName(NamesIn(s), s, |s| - 1, bnd, p, q);
    } else {
      RoundPrinted(s, bnd, p, q, parts[0], name);
      LaidIsSeen(s, bnd, NameOf(q + |bnd|, parts[0]), NextBoundary(q + |bnd|, parts[0]), parts[1..], name);
    }
  }

  // ----- the headers -----

  /** `open` ends in the quote before a name: its first Content-Disposition line has its value at `k` and the only `name="` there. */
  ghost predicate Opens(open: bytes, h: nat, k: nat, field: bytes, x: bytes) {
    && NUL !in open && LineStart(open, h) && HeaderAt(open, h, field) && NoStopBefore(open, field, h)
    && (forall b: nat | b < h :: !BareCR(open, b))
    && h + |field| + 1 <= k < |open| && (forall i :: h + |field| + 1 <= i < k ==> open[i] in {' ', '\t'})
    && open[k] !in {' ', '\t'} && OnlyAtEnd(open, k, x)
  }

  lemma TextStartsWith(s: bytes, p: nat, open: bytes)
    requires p < |s| && s[|s| - 1] == NUL && Matches(s, p, open) && NUL !in open
    ensures Matches(TextAt(s, p), 0, open) && |open| < |TextAt(s, p)|
  {
    forall j | p <= j < p + |open| ensures s[j] != NUL {
      assert s[j] == open[j - p] && open[j - p] in open;
    }
  }

  /** The header lines of a longer text are those of its beginning, as far as it goes. */
  lemma SameLines(t: bytes, open: bytes, h: nat, field: bytes)
    requires Matches(t, 0, open) && h + |field| < |open| && |field| > 0
    requires LineStart(open, h) && HeaderAt(open, h, field) && NoStopBefore(open, field, h)
    ensures LineStart(t, h) && HeaderAt(t, h, field) && NoStopBefore(t, field, h)
  {
    assert forall i :: 0 <= i < |open| ==> open[i] == t[i];
    forall q: nat | q < h ensures !StopAt(t, field, q) {
      assert !StopAt(open, field, q);
    }
  }

  lemma LookupInHeader(t: bytes, open: bytes, h: nat, k: nat, field: bytes, x: bytes)
    requires IsCString(t) && Matches(t, 0, open) && |open| < |t|
    requires Opens(open, h, k, field, x) && FieldName(field) && |field| > 0
    ensures Halts(t, field) && Lookup(t, field, 0) == Some(k)
  {
    SameLines(t, open, h, field);
    assert forall i :: 0 <= i < |open| ==> open[i] == t[i];
    NoCrAtHeader(t, h, field);
    assert StopAt(t, field, h);
    forall b: nat | BareCR(t, b) ensures !NoStopBefore(t, field, b) {
      assert b < h ==> BareCR(open, b);
    }
    assert FirstHeader(t, field, h);
    LookupFindsFirst(t, field);
    assert Past(t, h + |field| + 1, {' ', '\t'}) == k;
  }

  /** A header that opens a part leads to the part's name. */
  lemma NameInHeader(s: bytes, p: nat, open: bytes, h: nat, k: nat, field: bytes, x: bytes)
    requires |s| > 0 && s[|s| - 1] == NUL && Matches(s, p, open) && p + |open| < |s| - 1
    requires Opens(open, h, k, field, x) && FieldName(field) && |field| > 0
    ensures InHeader(s, |s| - 1, p, field, x) == Hit(p + |open|)
  {
    hide Halts, Lookup, FirstAt, Matches;
    TextStartsWith(s, p, open);
    LookupInHeader(TextAt(s, p), open, h, k, field, x);
    FirstInText(s, p, open, k, x);
    SearchFinds(s, p + k, |s| - 1, x, p + |open| - |x|);
  }

  lemma NoCrAtHeader(t: bytes, h: nat, field: bytes)
    requires HeaderAt(t, h, field) && FieldName(field) && |field| > 0
    ensures t[h] != '\r'
  {
    assert ToLower(t[h + 0]) == ToLower(field[0]) && field[0] in field;
  }

  /** Every part's header opens with its Content-Disposition, other lines allowed before it. */
  ghost predicate PartsOpen(parts: seq<FormPart>, field: bytes, x: bytes) {
    forall i :: 0 <= i < |parts| ==> exists h: nat, k: nat :: Opens(parts[i].open, h, k, field, x)
  }

  lemma NamesFoundIn(s: bytes, names: NameFinder, parts: seq<FormPart>, field: bytes, x: bytes)
    requires |s| > 0 && s[|s| - 1] == NUL && PartsOpen(parts, field, x) && FieldName(field) && |field| > 0
    requires Advances(names, |s| - 1) && forall p: nat | p < |s| :: names(p) == InHeader(s, |s| - 1, p, field, x)
    ensures NamesFound(names, s, |s| - 1, parts)
  {
    forall i: nat | i < |parts| ensures FindsName(names, s, |s| - 1, parts[i]) {
      var h: nat, k: nat :| Opens(parts[i].open, h, k, field, x);
      forall p: nat | Matches(s, p, parts[i].open) && p + |parts[i].open| < |s| - 1 {
        NameInHeader(s, p, parts[i].open, h, k, field, x);
      }
    }
  }

  const FORM_DATA: bytes := ": form-data; "

  /** The header browsers print in front of the name opens a part. */
  lemma StandardOpening(field: bytes, x: bytes)
    requires FieldName(field) && NUL !in x && |x| > 0 && x[0] == 'n'
    ensures Opens(field + (FORM_DATA + x), 0, |field| + 2, field, x)
  {
  }

  // ----- the main result -----

  /** The request header names the boundary `bnd` at `b`. */
  ghost predicate Announces(s: bytes, bnd: bytes, b: nat) {
    && |s| > 0 && b + |bnd| + 2 < |s| - 1 && Matches(s, b, bnd) && FirstAt(s, b, CRLF, b + |bnd|)
  }

  lemma BoundaryAnnounced(s: bytes, bnd: bytes, b: nat)
    requires Announces(s, bnd, b)
    ensures SearchFor(s, b, |s| - 1, CRLF) == Hit(b + |bnd| + 2) && s[b..b + |bnd|] == bnd
  {
    SearchFinds(s, b, |s| - 1, CRLF, b + |bnd|);
    MatchesSlice(s, b, bnd);
  }

  lemma RunsBehindBoundary(s: bytes, bnd: bytes, b: nat, name: bytes)
    requires |s| > 0 && s[|s| - 1] == NUL && Announces(s, bnd, b)
    ensures PartBehind(s, Hit(b), name) == Run(ScanFor(s, bnd, name), |s| - 1, b + |bnd| + 2)
  {
    hide Announces, Run, ScanFor, SearchFor;
    BoundaryAnnounced(s, bnd, b);
  }

  lemma NamesFoundInForm(s: bytes, parts: seq<FormPart>)
    requires |s| > 0 && s[|s| - 1] == NUL && PartsOpen(parts, DISPOSITION, NAME_IS)
    ensures NamesFound(NamesIn(s), s, |s| - 1, parts)
  {
    hide PartsOpen, InHeader, NamesFound;
    NamesFoundIn(s, NamesIn(s), parts, DISPOSITION, NAME_IS);
  }

  lemma PrintedIsFound(s: bytes, bnd: bytes, p: nat, q: nat, parts: seq<FormPart>, name: bytes)
    requires |s| > 0 && s[|s| - 1] == NUL && NamesFound(NamesIn(s), s, |s| - 1, parts) && '"' !in name
    requires GoodParts(parts, bnd) && BodyPrinted(s, |s| - 1, bnd, p, q, parts)
    ensures Answers(s, Run(ScanFor(s, bnd, name), |s| - 1, p), parts, name)
  {
    hide *;
    BodyLaid(s, |s| - 1, bnd, p, q, parts);
    LaidIsSeen(s, bnd, p, q, parts, name);
    RunFindsFirst(ScanFor(s, bnd, name), s, |s| - 1, p, parts, name);
  }

  /**
   * `sb_get_multipart` inverts the printer: on a request whose Content-Type line announces the boundary and whose
   * body is the printed parts it returns the data of the first part of that name, none when there is none.
   */
  lemma PartOfInvertsPrinter(s: bytes, bnd: bytes, b: nat, q: nat, parts: seq<FormPart>, name: bytes)
    requires |s| > 0 && s[|s| - 1] == NUL && InHeader(s, |s| - 1, 0, CONTENT_TYPE, BOUNDARY_IS) == Hit(b)
    requires Announces(s, bnd, b) && BodyPrinted(s, |s| - 1, bnd, b + |bnd| + 2, q, parts)
    requires GoodParts(parts, bnd) && PartsOpen(parts, DISPOSITION, NAME_IS) && '"' !in name
    ensures Answers(s, PartOf(s, name), parts, name)
  {
    hide GoodParts, BodyPrinted, PartsOpen, Announces, InHeader, PartBehind, Run, ScanFor, Answers;
    NamesFoundInForm(s, parts);
    RunsBehindBoundary(s, bnd, b, name);
    PrintedIsFound(s, bnd, b + |bnd| + 2, q, parts, name);
  }

  // ----- inside the buffer or not -----

  /** The announced boundary, None when the header has none. */
  ghost function BoundaryOf(s: bytes): Option<bytes>
    requires |s| > 0 && s[|s| - 1] == NUL
  {
    var b := InHeader(s, |s| - 1, 0, CONTENT_TYPE, BOUNDARY_IS);
    if !b.Hit? then None
    else
      var e := SearchFor(s, b.next, |s| - 1, CRLF);
      if !e.Hit? then None else Some(s[b.next..e.next - 2])
  }

  /** Behind the line that announces the boundary. */
  ghost function ScanStart(s: bytes): (p: nat)
    requires |s| > 0 && s[|s| - 1] == NUL && BoundaryOf(s).Some?
    ensures 2 <= p < |s| - 1 && Matches(s, p - 2, CRLF)
  {
    SearchFor(s, InHeader(s, |s| - 1, 0, CONTENT_TYPE, BOUNDARY_IS).next, |s| - 1, CRLF).next
  }

  lemma RunsFromStart(s: bytes, bnd: bytes, name: bytes)
    requires |s| > 0 && s[|s| - 1] == NUL && BoundaryOf(s) == Some(bnd)
    ensures PartOf(s, name) == Run(ScanFor(s, bnd, name), |s| - 1, ScanStart(s))
  {
    hide InHeader, SearchFor, Run, ScanFor;
  }

  /**
   * Without an announced boundary the buffer is left exactly when the Content-Type value starts too close to the end for
   * `boundary=`, or the boundary too close for a line end.
   */
  lemma NoBoundaryInside(s: bytes, name: bytes)
    requires |s| > 0 && s[|s| - 1] == NUL && BoundaryOf(s) == None
    ensures var b, t := InHeader(s, |s| - 1, 0, CONTENT_TYPE, BOUNDARY_IS), TextAt(s, 0);
      PartOf(s, name) == OutOfBounds <==>
      || (Halts(t, CONTENT_TYPE) && Lookup(t, CONTENT_TYPE, 0).Some? && Lookup(t, CONTENT_TYPE, 0).value + |BOUNDARY_IS| > |s| - 1)
      || (b.Hit? && b.next + |CRLF| > |s| - 1)
  {
    hide SearchFor, Halts, Lookup, TextAt;
    var b, t := InHeader(s, |s| - 1, 0, CONTENT_TYPE, BOUNDARY_IS), TextAt(s, 0);
    if Halts(t, CONTENT_TYPE) && Lookup(t, CONTENT_TYPE, 0).Some? {
      OverrunExactly(s, Lookup(t, CONTENT_TYPE, 0).value, |s| - 1, BOUNDARY_IS);
    }
    if b.Hit? {
      OverrunExactly(s, b.next, |s| - 1, CRLF);
    }
  }

  /** A body that ends one byte behind its first boundary makes the search for the line end leave the buffer. */
  lemma CutShort(s: bytes, bnd: bytes, name: bytes)
    requires |s| > 0 && s[|s| - 1] == NUL && BoundaryOf(s) == Some(bnd)
    requires |bnd| + 2 <= |s| && FirstAt(s, ScanStart(s), bnd, |s| - 2 - |bnd|)
    ensures PartOf(s, name) == OutOfBounds
  {
    hide InHeader, BoundaryOf;
    var end, p := |s| - 1, ScanStart(s);
    RunsFromStart(s, bnd, name);
    SearchFinds(s, p, end, bnd, end - 1 - |bnd|);
    OverrunExactly(s, end - 1, end, CRLF);
  }

  /** No CR, LF, NUL or quote. */
  ghost predicate CleanBoundary(bnd: bytes) {
    bnd != [] && forall i :: 0 <= i < |bnd| ==> bnd[i] !in {'\r', '\n', NUL, '"'}
  }

  ghost function ClosingLine(bnd: bytes): bytes {
    CRLF + (DASHES + (bnd + DASHES))
  }

  /** The body ends in the closing boundary line, with a line end behind it or, if the boundary does not end in a dash, without. */
  ghost predicate Closes(s: bytes, bnd: bytes) {
    var n := |ClosingLine(bnd)|;
    && CleanBoundary(bnd)
    && (|| (n + 1 <= |s| && Matches(s, |s| - 1 - n, ClosingLine(bnd)) && bnd[|bnd| - 1] != '-')
        || (n + 3 <= |s| && Matches(s, |s| - 3 - n, ClosingLine(bnd)) && CrLfAt(s, |s| - 3)))
  }

  /** What a closing line that begins at `e` means for the searches. */
  ghost predicate Tail(s: bytes, bnd: bytes, e: nat) {
    && e + 6 + |bnd| < |s| && s[e] == '\r' && s[e + 1] == '\n' && s[e + 2] == '-'
    && (forall i :: e + 2 <= i < |s| - 1 ==> s[i] != '"')
    && (forall i :: e + 2 <= i < |s| - 2 ==> s[i] != '\n')
    && !Matches(s, |s| - 2 - |bnd|, bnd)
  }

  lemma ClosedTail(s: bytes, bnd: bytes, e: nat)
    requires CleanBoundary(bnd) && Matches(s, e, ClosingLine(bnd))
    requires var n := e + |ClosingLine(bnd)|;
      (|s| == n + 1 && bnd[|bnd| - 1] != '-') || (|s| == n + 3 && CrLfAt(s, n))
    ensures Tail(s, bnd, e)
  {
    MatchesConcat(s, e, CRLF, DASHES + (bnd + DASHES));
    MatchesConcat(s, e + 2, DASHES, bnd + DASHES);
    MatchesConcat(s, e + 4, bnd, DASHES);
    var n := e + 4 + |bnd|;
    assert CRLF[0] == '\r' && CRLF[1] == '\n' && DASHES[0] == '-' && DASHES[1] == '-';
    assert s[e] == '\r' && s[e + 1] == '\n' && s[e + 2] == '-' && s[e + 3] == '-' && s[n] == '-' && s[n + 1] == '-';
    forall i | e + 4 <= i < n ensures s[i] !in {'\r', '\n', NUL, '"'} {
      assert bnd[i - e - 4] == s[i];
    }
    MatchesLast(s, |s| - 2 - |bnd|, bnd);
  }

  lemma MatchesLast(s: bytes, p: nat, x: bytes)
    ensures x != [] && Matches(s, p, x) ==> x[|x| - 1] == s[p + |x| - 1]
  {
  }

  lemma BehindLineEnd(t: bytes, h: nat)
    requires h < |t| && LineStart(t, h)
    ensures h > 0 ==> t[h - 1] == '\n'
  {
  }

  lemma ClosesMeans(s: bytes, bnd: bytes) returns (e: nat)
    requires Closes(s, bnd)
    ensures Tail(s, bnd, e)
  {
    var n := |ClosingLine(bnd)|;
    if n + 1 <= |s| && Matches(s, |s| - 1 - n, ClosingLine(bnd)) && bnd[|bnd| - 1] != '-' {
      e := |s| - 1 - n;
    } else {
      e := |s| - 3 - n;
    }
    ClosedTail(s, bnd, e);
  }

  /** A header found in lines that start before the closing line has its value there, too. */
  lemma ValueBeforeTail(s: bytes, bnd: bytes, e: nat, p: nat, field: bytes)
    requires |s| > 0 && s[|s| - 1] == NUL && Tail(s, bnd, e) && p <= e + 2
    requires FieldName(field) && '\n' !in field && field != [] && ToLower(field[0]) != '-'
    requires Halts(TextAt(s, p), field) && Lookup(TextAt(s, p), field, 0).Some?
    ensures p + Lookup(TextAt(s, p), field, 0).value <= e
  {
    hide Lookup, Halts;
    var t := TextAt(s, p);
    LookupFindsFirst(t, field);
    var h: nat :| FirstHeader(t, field, h);
    NotInTail(s, bnd, e, p, h, field);
    var v := Past(t, h + |field| + 1, {' ', '\t'});
    assert p <= e;
    assert e - p < |t| ==> t[e - p] == s[e];
  }

  lemma NotInTail(s: bytes, bnd: bytes, e: nat, p: nat, h: nat, field: bytes)
    requires |s| > 0 && s[|s| - 1] == NUL && Tail(s, bnd, e) && p <= e + 2
    requires FieldName(field) && '\n' !in field && field != [] && ToLower(field[0]) != '-'
    requires var t := TextAt(s, p); LineStart(t, h) && HeaderAt(t, h, field)
    ensures p + h + |field| < e
  {
    var t := TextAt(s, p);
    assert forall i :: 0 <= i < |t| ==> t[i] == s[p + i];
    forall i | p + h <= i < p + h + |field| ensures s[i] !in {'\r', '\n'} {
      assert ToLower(t[h + (i - p - h)]) == ToLower(field[i - p - h]) && field[i - p - h] in field;
    }
    assert s[p + h + |field|] == ':' && ToLower(t[h + 0]) == ToLower(field[0]);
    assert p + h != e + 2;
    BehindLineEnd(t, h);
  }

  /** From a place before the closing line every search of the loop stays inside and leads to such a place again. */
  lemma NextStaysInside(s: bytes, bnd: bytes, e: nat, p: nat)
    requires |s| > 0 && s[|s| - 1] == NUL && Tail(s, bnd, e) && p <= e + 2
    ensures var n := NextName(NamesIn(s), s, |s| - 1, bnd, p); n != Overrun && (n.Hit? ==> n.next <= e + 2)
  {
    hide SearchFor, Halts, Lookup, Matches;
    var end := |s| - 1;
    OverrunExactly(s, p, end, bnd);
    var q := SearchFor(s, p, end, bnd);
    if q.Hit? {
      OverrunExactly(s, q.next, end, CRLF);
      var r := SearchFor(s, q.next, end, CRLF);
      if r.Hit? {
        LineEndMeans(s, r.next);
        DispositionStaysInside(s, bnd, e, r.next);
      }
    }
  }

  lemma LineEndMeans(s: bytes, n: nat)
    requires n >= 2 && Matches(s, n - 2, CRLF)
    ensures s[n - 1] == '\n'
  {
    assert CRLF[1] == '\n';
  }

  lemma DispositionStaysInside(s: bytes, bnd: bytes, e: nat, p: nat)
    requires |s| > 0 && s[|s| - 1] == NUL && Tail(s, bnd, e) && p <= e + 2
    ensures var n := InHeader(s, |s| - 1, p, DISPOSITION, NAME_IS); n != Overrun && (n.Hit? ==> n.next <= e + 2)
  {
    hide SearchFor, Halts, Lookup;
    assert DISPOSITION[0] == 'C';
    assert NUL !in DISPOSITION && '\r' !in DISPOSITION && '\n' !in DISPOSITION;
    var t := TextAt(s, p);
    if Halts(t, DISPOSITION) && Lookup(t, DISPOSITION, 0).Some? {
      ValueBeforeTail(s, bnd, e, p, DISPOSITION);
      var v := p + Lookup(t, DISPOSITION, 0).value;
      OverrunExactly(s, v, |s| - 1, NAME_IS);
      var n := SearchFor(s, v, |s| - 1, NAME_IS);
      if n.Hit? {
        assert NAME_IS[5] == '"' == s[n.next - 1];
      }
    }
  }

  lemma DataStaysInside(s: bytes, bnd: bytes, e: nat, p: nat)
    requires |s| > 0 && Tail(s, bnd, e) && p <= e + 2
    ensures DataFrom(s, |s| - 1, bnd, p) != OutOfBounds
  {
    hide SearchFor;
    OverrunExactly(s, p, |s| - 1, BLANK_LINE);
    var h := SearchFor(s, p, |s| - 1, BLANK_LINE);
    if h.Hit? {
      assert BLANK_LINE[3] == '\n' == s[h.next - 1];
      OverrunExactly(s, h.next, |s| - 1, bnd);
    }
  }

  lemma {:induction false} RunStaysInside(s: bytes, bnd: bytes, e: nat, p: nat, name: bytes)
    requires |s| > 0 && s[|s| - 1] == NUL && Tail(s, bnd, e) && p <= e + 2
    ensures Run(ScanFor(s, bnd, name), |s| - 1, p) != OutOfBounds
    decreases |s| - p
  {
    hide NextName, NamesIn, DataFrom, Tail;
    NextStaysInside(s, bnd, e, p);
    var n := NextName(NamesIn(s), s, |s| - 1, bnd, p);
    if n.Hit? {
      DataStaysInside(s, bnd, e, n.next);
      RunStaysInside(s, bnd, e, n.next, name);
    }
  }

  /** On any request with an announced boundary whose body is closed, whatever stands in between, the buffer is not left. */
  lemma ClosedStaysInside(s: bytes, bnd: bytes, name: bytes)
    requires |s| > 0 && s[|s| - 1] == NUL && BoundaryOf(s) == Some(bnd) && Closes(s, bnd)
    ensures PartOf(s, name) != OutOfBounds
  {
    hide BoundaryOf, Closes, Run, ScanFor, PartOf;
    var e := ClosesMeans(s, bnd);
    var p := ScanStart(s);
    LineEndMeans(s, p);
    assert p <= e + 2;
    RunsFromStart(s, bnd, name);
    RunStaysInside(s, bnd, e, p, name);
  }

  const HEADER_COLON: bytes := ":"

  /** A request whose header is one Content-Type line with nothing but the boundary. */
  ghost function ShortRequest(bnd: bytes, body: bytes): bytes {
    OpeningOf(CONTENT_TYPE, BOUNDARY_IS) + (bnd + (CRLF + (body + [NUL])))
  }

  ghost function OpeningOf(field: bytes, x: bytes): bytes {
    field + (HEADER_COLON + x)
  }

  lemma PlainOpening(field: bytes, x: bytes)
    requires FieldName(field) && NUL !in x && x != [] && x[0] !in {' ', '\t'}
    ensures Opens(OpeningOf(field, x), 0, |field| + 1, field, x)
  {
  }

  lemma HeadersClean()
    ensures FieldName(CONTENT_TYPE) && FieldName(DISPOSITION) && NUL !in BOUNDARY_IS && NUL !in NAME_IS
    ensures BOUNDARY_IS[0] == 'b' && NAME_IS[0] == 'n'
  {
  }

  /** The boundary of a text that begins with an opening, the boundary and a line end. */
  lemma BoundaryRead(s: bytes, open: bytes, h: nat, k: nat, bnd: bytes)
    requires |s| > 0 && s[|s| - 1] == NUL && Opens(open, h, k, CONTENT_TYPE, BOUNDARY_IS)
    requires Matches(s, 0, open) && Matches(s, |open|, bnd + CRLF) && |open| + |bnd| + 2 < |s| - 1 && OnlyAtEnd(bnd + CRLF, 0, CRLF)
    ensures InHeader(s, |s| - 1, 0, CONTENT_TYPE, BOUNDARY_IS) == Hit(|open|) && Announces(s, bnd, |open|)
    ensures BoundaryOf(s) == Some(bnd) && ScanStart(s) == |open| + |bnd| + 2
  {
    hide InHeader, SearchFor, Opens;
    HeadersClean();
    NameInHeader(s, 0, open, h, k, CONTENT_TYPE, BOUNDARY_IS);
    FirstInText(s, |open|, bnd + CRLF, 0, CRLF);
    MatchesConcat(s, |open|, bnd, CRLF);
    BoundaryAnnounced(s, bnd, |open|);
  }

  lemma ShortRequestLaidOut(bnd: bytes, body: bytes)
    ensures var s, open := ShortRequest(bnd, body), OpeningOf(CONTENT_TYPE, BOUNDARY_IS);
      && |s| == |open| + |bnd| + 2 + |body| + 1 && s[|s| - 1] == NUL
      && Matches(s, 0, open) && Matches(s, |open|, bnd + CRLF) && Matches(s, |open| + |bnd| + 2, body)
  {
    hide OpeningOf, Matches;
    var s, open := ShortRequest(bnd, body), OpeningOf(CONTENT_TYPE, BOUNDARY_IS);
    MatchesItself(s);
    MatchesConcat(s, 0, open, bnd + (CRLF + (body + [NUL])));
    MatchesConcat(s, |open|, bnd, CRLF + (body + [NUL]));
    MatchesConcat(s, |open| + |bnd|, CRLF, body + [NUL]);
    MatchesConcat(s, |open|, bnd, CRLF);
    MatchesConcat(s, |open| + |bnd| + 2, body, [NUL]);
  }

  lemma MatchesItself(s: bytes)
    ensures Matches(s, 0, s)
  {
  }

  lemma ShortRequestRead(bnd: bytes, body: bytes)
    requires OnlyAtEnd(bnd + CRLF, 0, CRLF) && body != []
    ensures var s := ShortRequest(bnd, body);
      && s[|s| - 1] == NUL && BoundaryOf(s) == Some(bnd) && |s| == ScanStart(s) + |body| + 1 && Matches(s, ScanStart(s), body)
  {
    hide ShortRequest, BoundaryOf, ScanStart, OnlyAtEnd, Opens;
    HeadersClean();
    var s, open := ShortRequest(bnd, body), OpeningOf(CONTENT_TYPE, BOUNDARY_IS);
    ShortRequestLaidOut(bnd, body);
    PlainOpening(CONTENT_TYPE, BOUNDARY_IS);
    BoundaryRead(s, open, 0, |CONTENT_TYPE| + 1, bnd);
  }

  /** Such requests with one byte behind the boundary, for any boundary: the buffer is left, whatever name is asked for. */
  lemma ShortRequestLeavesBuffer(bnd: bytes, c: byte, name: bytes)
    requires OnlyAtEnd(bnd + CRLF, 0, CRLF)
    ensures var s := ShortRequest(bnd, bnd + [c]); s[|s| - 1] == NUL && PartOf(s, name) == OutOfBounds
  {
    hide ShortRequest, BoundaryOf, ScanStart, PartOf;
    var s := ShortRequest(bnd, bnd + [c]);
    ShortRequestRead(bnd, bnd + [c]);
    MatchesConcat(s, ScanStart(s), bnd, [c]);
    CutShort(s, bnd, name);
  }

  lemma OneByteBoundary(c: byte)
    requires c != '\r'
    ensures OnlyAtEnd([c] + CRLF, 0, CRLF)
  {
    assert CRLF[0] == '\r' && ([c] + CRLF)[0] == c;
  }

  /**
   * The bytes near the end do not decide: two requests of one length that differ in one byte of the header, the same from
   * there on, one of which leaves the buffer while the other just has no such part.
   */
  lemma TailDoesNotDecide(name: bytes)
    ensures var s, t, n := ShortRequest("B", "Bx"), ShortRequest("C", "Bx"), |OpeningOf(CONTENT_TYPE, BOUNDARY_IS)|;
      && |s| == |t| && s[n + 1..] == t[n + 1..] && s[|s| - 1] == t[|t| - 1] == NUL
      && PartOf(s, name) == OutOfBounds && PartOf(t, name) == Absent
  {
    hide PartOf, BoundaryOf, OpeningOf, ShortRequest, OnlyAtEnd, ScanStart;
    assert "B" + ['x'] == "Bx" && "B" == ['B'] && "C" == ['C'];
    OneByteBoundary('B');
    OneByteBoundary('C');
    ShortRequestLeavesBuffer("B", 'x', name);
    ShortRequestRead("C", "Bx");
    NotThere(ShortRequest("C", "Bx"), name);
    ShortRequestTail("B", "C", "Bx");
  }

  lemma ShortRequestTail(b: bytes, c: bytes, body: bytes)
    requires |b| == |c|
    ensures var s, t, n := ShortRequest(b, body), ShortRequest(c, body), |OpeningOf(CONTENT_TYPE, BOUNDARY_IS)|;
      |s| == |t| && s[n + |b|..] == t[n + |c|..]
  {
    hide OpeningOf;
    var open, rest := OpeningOf(CONTENT_TYPE, BOUNDARY_IS), CRLF + (body + [NUL]);
    assert (open + (b + rest))[|open| + |b|..] == rest && (open + (c + rest))[|open| + |c|..] == rest;
  }

  lemma NotThere(t: bytes, name: bytes)
    requires |t| > 2 && t[|t| - 1] == NUL && BoundaryOf(t) == Some("C") && |t| == ScanStart(t) + 3 && Matches(t, ScanStart(t), "Bx")
    ensures PartOf(t, name) == Absent
  {
    hide BoundaryOf, PartOf, ScanStart;
    var p := ScanStart(t);
    assert t[p] == "Bx"[0] && t[p + 1] == "Bx"[1] && "C"[0] == 'C';
    RunsFromStart(t, "C", name);
    assert SearchFor(t, p + 1, p + 2, "C") == Miss;
    assert SearchFor(t, p, p + 2, "C") == Miss;
  }

  // ----- the length of the data -----

  lemma {:induction false} RunYields(scan: Scan, end: nat, p: nat)
    requires Advances(scan.next, end) && Run(scan, end, p).Part?
    ensures exists n: nat :: Run(scan, end, p) == scan.data(n)
    decreases end - p
  {
    var n := scan.next(p).next;
    if !scan.named(n) {
      RunYields(scan, end, n);
    }
  }

  /** A match is found at the first occurrence. */
  lemma {:induction false} HitIsFirst(s: bytes, p: nat, end: nat, x: bytes)
    requires end < |s| && SearchFor(s, p, end, x).Hit?
    ensures FirstAt(s, p, x, SearchFor(s, p, end, x).next - |x|)
    decreases end - p
  {
    if !Matches(s, p, x) {
      HitIsFirst(s, p + 1, end, x);
    }
  }

  /** For any request: the data found lies in the buffer exactly when the next boundary comes at least four bytes behind its start. */
  lemma DataInside(s: bytes, bnd: bytes, name: bytes)
    requires 0 < |s| < SIZE_MODULUS / 2 && s[|s| - 1] == NUL && BoundaryOf(s) == Some(bnd) && PartOf(s, name).Part?
    ensures var start, len := PartOf(s, name).start, PartOf(s, name).len;
      exists q: nat ::
        && FirstAt(s, start, bnd, q) && q + |bnd| < |s| - 1
        && (start + len <= |s| - 1 <==> q >= start + 4) && (q >= start + 4 ==> len == q - 4 - start)
  {
    hide BoundaryOf, PartOf, Run, NextName, NameAt, FirstAt;
    var scan, end := ScanFor(s, bnd, name), |s| - 1;
    RunsFromStart(s, bnd, name);
    RunYields(scan, end, ScanStart(s));
    var n: nat :| Run(scan, end, ScanStart(s)) == scan.data(n);
    var h := SearchFor(s, n, end, BLANK_LINE);
    HitIsFirst(s, h.next, end, bnd);
  }

  // ----- from the printer and back -----

  /** A request: header lines up to the boundary parameter, the boundary, what comes before the first boundary line, the parts. */
  ghost function Printed(open: bytes, bnd: bytes, gap: bytes, parts: seq<FormPart>, tail: bytes): bytes {
    open + (bnd + (CRLF + (gap + (bnd + (Sections(parts, bnd) + (tail + [NUL]))))))
  }

  lemma PrintedLaidOut(open: bytes, bnd: bytes, gap: bytes, parts: seq<FormPart>, tail: bytes)
    ensures var s, p := Printed(open, bnd, gap, parts, tail), |open| + |bnd| + 2;
      && |s| == p + |gap| + |bnd| + |Sections(parts, bnd)| + |tail| + 1 && s[|s| - 1] == NUL
      && Matches(s, 0, open) && Matches(s, |open|, bnd + CRLF) && Matches(s, p, gap + bnd)
      && Matches(s, p + |gap| + |bnd|, Sections(parts, bnd))
  {
    hide Sections, Matches;
    var s, p, sections := Printed(open, bnd, gap, parts, tail), |open| + |bnd| + 2, Sections(parts, bnd);
    var last := tail + [NUL];
    var body := sections + last;
    var first := bnd + body;
    MatchesItself(s);
    MatchesConcat(s, 0, open, bnd + (CRLF + (gap + first)));
    MatchesConcat(s, |open|, bnd, CRLF + (gap + first));
    MatchesConcat(s, |open| + |bnd|, CRLF, gap + first);
    MatchesConcat(s, |open|, bnd, CRLF);
    MatchesConcat(s, p, gap, first);
    MatchesConcat(s, p + |gap|, bnd, body);
    MatchesConcat(s, p, gap, bnd);
    MatchesConcat(s, p + |gap| + |bnd|, sections, last);
  }

  /**
   * The round trip on what a client prints: any header lines whose Content-Type names the boundary, anything before the first
   * boundary, any parts; the result is the data of the first part of that name, none when there is none.
   */
  lemma PrintedFormReads(open: bytes, h: nat, k: nat, bnd: bytes, gap: bytes, parts: seq<FormPart>, tail: bytes, name: bytes)
    requires Opens(open, h, k, CONTENT_TYPE, BOUNDARY_IS) && OnlyAtEnd(bnd + CRLF, 0, CRLF) && OnlyAtEnd(gap + bnd, 0, bnd)
    requires GoodParts(parts, bnd) && PartsOpen(parts, DISPOSITION, NAME_IS) && '"' !in name && (tail == [] || tail == CRLF)
    ensures var s := Printed(open, bnd, gap, parts, tail);
      s[|s| - 1] == NUL && Answers(s, PartOf(s, name), parts, name)
  {
    hide Printed, Opens, GoodParts, PartsOpen, InHeader, Announces, PartOf, Answers, Sections, BoundaryOf, ScanStart;
    var s, p := Printed(open, bnd, gap, parts, tail), |open| + |bnd| + 2;
    PrintedLaidOut(open, bnd, gap, parts, tail);
    SectionsLength(parts, bnd);
    BoundaryRead(s, open, h, k, bnd);
    FirstInText(s, p, gap + bnd, 0, bnd);
    PartOfInvertsPrinter(s, bnd, |open|, p + |gap|, parts, name);
  }

  /** A form of one field as its simplest. */
  lemma SmallFormReads()
    ensures var part := FormPart(DISPOSITION + (FORM_DATA + NAME_IS), "a", "", "x");
      var s := Printed(OpeningOf(CONTENT_TYPE, BOUNDARY_IS), "B", BLANK_LINE + DASHES, [part], CRLF);
      s[|s| - 1] == NUL && DataOf(s, PartOf(s, "a")) == Some("x") && PartOf(s, "b") == Absent
  {
    hide Opens, PartOf, DataOf, Printed, OpeningOf;
    var part := FormPart(DISPOSITION + (FORM_DATA + NAME_IS), "a", "", "x");
    HeadersClean();
    PlainOpening(CONTENT_TYPE, BOUNDARY_IS);
    StandardOpening(DISPOSITION, NAME_IS);
    OnePartOpens(part, 0, |DISPOSITION| + 2, DISPOSITION, NAME_IS);
    SmallPart(part.open);
    assert "B" == ['B'] && 'B' !in BLANK_LINE + DASHES;
    OnlyLast(BLANK_LINE + DASHES, 'B');
    OneByteBoundary('B');
    assert [part][1..] == [] && part.name == "a" && "a"[0] != "b"[0];
    assert FirstNamed([part], "a") == Some("x") && FirstNamed([part], "b") == None;
    PrintedFormReads(OpeningOf(CONTENT_TYPE, BOUNDARY_IS), 0, |CONTENT_TYPE| + 1, "B", BLANK_LINE + DASHES, [part], CRLF, "a");
    PrintedFormReads(OpeningOf(CONTENT_TYPE, BOUNDARY_IS), 0, |CONTENT_TYPE| + 1, "B", BLANK_LINE + DASHES, [part], CRLF, "b");
  }

  /** The bytes of that form. */
  lemma SmallFormText()
    ensures var part := FormPart(DISPOSITION + (FORM_DATA + NAME_IS), "a", "", "x");
      Printed(OpeningOf(CONTENT_TYPE, BOUNDARY_IS), "B", BLANK_LINE + DASHES, [part], CRLF) ==
      "Content-Type:boundary=B" + ("\r\n\r\n\r\n--B\r\n" + ("Content-Disposition: form-data; name=\"a\"\r\n\r\n" + ("x\r\n--B--\r\n" + [NUL])))
  {
    var part := FormPart(DISPOSITION + (FORM_DATA + NAME_IS), "a", "", "x");
    assert [part][1..] == [] && Sections([], "B") == DASHES;
    assert OpeningOf(CONTENT_TYPE, BOUNDARY_IS) + "B" == "Content-Type:boundary=B";
    assert part.open + HeaderRest(part) == "Content-Disposition: form-data; name=\"a\"\r\n\r\n";
    assert PartText(part, "B") == HeaderRest(part) + "x\r\n--B";
    hide OpeningOf, HeaderRest, PartText;
    assert CRLF + (BLANK_LINE + DASHES) + "B" + CRLF == "\r\n\r\n\r\n--B\r\n";
    assert "x\r\n--B" + DASHES + CRLF == "x\r\n--B--\r\n";
    Glue(OpeningOf(CONTENT_TYPE, BOUNDARY_IS), "B", CRLF, BLANK_LINE + DASHES, part.open, HeaderRest(part), "x\r\n--B", DASHES, [NUL]);
  }

  lemma Glue(o: bytes, b: bytes, n: bytes, gap: bytes, open: bytes, rest: bytes, x: bytes, end: bytes, nul: bytes)
    ensures o + (b + (n + (gap + (b + ((n + (open + ((rest + x) + end))) + (n + nul)))))) ==
            (o + b) + ((n + gap + b + n) + ((open + rest) + ((x + end + n) + nul)))
  {
  }

  lemma OnePartOpens(part: FormPart, h: nat, k: nat, field: bytes, x: bytes)
    requires Opens(part.open, h, k, field, x)
    ensures PartsOpen([part], field, x)
  {
    hide Opens;
    assert Opens([part][0].open, h, k, field, x);
  }

  lemma OnlyLast(t: bytes, c: byte)
    requires c !in t
    ensures OnlyAtEnd(t + [c], 0, [c])
  {
    var x := t + [c];
    forall i: nat | i < |t| ensures !Matches(x, i, [c]) {
      assert x[i + 0] == t[i] && t[i] in t && [c][0] != x[i + 0];
    }
  }

  lemma SmallPart(open: bytes)
    ensures GoodPart(FormPart(open, "a", "", "x"), "B")
  {
    var q := FormPart(open, "a", "", "x");
    var h := HeaderRest(q);
    assert h == ['a', '"', '\r', '\n', '\r', '\n'] && BLANK_LINE[0] == '\r';
    assert OnlyAtEnd(h, 0, BLANK_LINE);
    assert 'B' !in h;
    hide HeaderRest;
    var t := h + (q.data + (CRLF + DASHES));
    assert "B" == ['B'] && PartText(q, "B") == t + ['B'];
    hide PartText;
    OnlyLast(t, 'B');
  }
}
