/** From the bytes a client prints to what the server makes of them: the end of the request, its event, its headers and its variables. */
module Requests {
  import opened Prelude
  import opened Buffer
  import opened Headers
  import opened Query
  import opened Response
  import opened Framing
  import opened Stream

  /** `isspace` */
  ghost predicate IsSpace(c: byte) {
    c == ' ' || '\t' <= c <= '\r'
  }

  lemma SpacesAre(c: byte)
    ensures c in SPACES <==> IsSpace(c)
  {
  }

  /** A token: no white space and no NUL in it. */
  ghost predicate IsToken(w: bytes) {
    w != [] && forall c :: c in w ==> !IsSpace(c) && c != NUL
  }

  // ----- the request line -----

  ghost function LineText(verb: bytes, target: bytes, version: bytes): bytes {
    verb + (SP + (target + (SP + version)))
  }

  ghost function MeaningsOf(us: seq<Unit>): bytes {
    seq(|us|, i requires 0 <= i < |us| => us[i].Meaning())
  }

  /** A request line as clients print it: a path, encoded, with or without a query behind it. */
  ghost predicate CleanLine(verb: bytes, us: seq<Unit>, end: bytes, version: bytes) {
    && IsToken(verb) && |verb| <= 15 && IsToken(version) && 4 <= |version| <= 15
    && ValidText(us) && |us| <= 511 && NUL !in MeaningsOf(us)
    && IsToken(Text(us) + end) && (end == [] || end[0] == '?')
  }

  lemma {:induction false} TokenEndAt(s: bytes, p: nat, max: nat, w: bytes)
    requires p < |s| && s[|s| - 1] == NUL && Matches(s, p, w) && p + |w| < |s| && |w| <= max
    requires (forall c :: c in w ==> !IsSpace(c) && c != NUL) && (|w| == max || IsSpace(s[p + |w|]) || s[p + |w|] == NUL)
    ensures TokenEnd(s, p, max) == p + |w|
    decreases |w|
  {
    if w == [] {
      SpacesAre(s[p]);
    } else {
      assert w[0] == s[p] && w[0] in w;
      SpacesAre(s[p]);
      assert forall i :: 0 <= i < |w| - 1 ==> w[1..][i] == w[i + 1];
      TokenEndAt(s, p + 1, max - 1, w[1..]);
    }
  }

  lemma NoSpaceHere(s: bytes, p: nat)
    requires p < |s| && s[|s| - 1] == NUL && !IsSpace(s[p])
    ensures Past(s, p, SPACES) == p
  {
    SpacesAre(s[p]);
  }

  lemma OneSpaceHere(s: bytes, p: nat)
    requires p + 1 < |s| && s[|s| - 1] == NUL && s[p] == ' ' && !IsSpace(s[p + 1])
    ensures Past(s, p, SPACES) == p + 1
  {
    NoSpaceHere(s, p + 1);
  }

  lemma TokenStarts(s: bytes, p: nat, w: bytes)
    requires IsToken(w) && Matches(s, p, w)
    ensures p < |s| && s[p] == w[0] && !IsSpace(s[p])
  {
    assert w[0] in w;
  }

  /** Where the pieces of a printed line stand. */
  lemma LineLaidOut(s: bytes, verb: bytes, target: bytes, version: bytes)
    requires Matches(s, 0, LineText(verb, target, version))
    ensures var c := |verb| + 1; var e := c + |target| + 1;
      && Matches(s, 0, verb) && Matches(s, c, target) && Matches(s, e, version) && e + |version| <= |s|
      && s[|verb|] == ' ' && s[c + |target|] == ' ' && |LineText(verb, target, version)| == e + |version|
  {
    hide Matches;
    var c := |verb| + 1;
    MatchesConcat(s, 0, verb, SP + (target + (SP + version)));
    MatchesConcat(s, |verb|, SP, target + (SP + version));
    MatchesConcat(s, c, target, SP + version);
    MatchesConcat(s, c + |target|, SP, version);
    BlankAt(s, |verb|);
    BlankAt(s, c + |target|);
    MatchesSlice(s, c + |target| + 1, version);
  }

  lemma BlankAt(s: bytes, p: nat)
    requires Matches(s, p, SP)
    ensures p < |s| && s[p] == ' '
  {
    assert SP[0] == ' ';
  }

  /** A token with a blank before it and white space behind it, as `sscanf` sees it. */
  lemma TokenScans(s: bytes, p: nat, max: nat, w: bytes)
    requires |s| > 0 && s[|s| - 1] == NUL && IsToken(w) && |w| <= max && Matches(s, p, w) && p + |w| < |s| && IsSpace(s[p + |w|])
    requires p > 0 ==> s[p - 1] == ' '
    ensures Past(s, if p > 0 then p - 1 else 0, SPACES) == p && TokenEnd(s, p, max) == p + |w| && s[p..p + |w|] == w
  {
    TokenStarts(s, p, w);
    if p > 0 {
      OneSpaceHere(s, p - 1);
    } else {
      NoSpaceHere(s, p);
    }
    TokenEndAt(s, p, max, w);
    MatchesSlice(s, p, w);
  }

  /** `sscanf` takes the line apart as it was put together. */
  lemma LineScans(s: bytes, verb: bytes, target: bytes, version: bytes)
    requires |s| > 0 && s[|s| - 1] == NUL && Matches(s, 0, LineText(verb, target, version) + CRLF)
    requires IsToken(verb) && |verb| <= 15 && IsToken(target) && IsToken(version) && |version| <= 15
    ensures |LineText(verb, target, version)| < |s| && ScanRequestLine(s) == Some(RequestLine(verb, |verb| + 1, version))
  {
    hide LineText, Matches, Past, TokenEnd, IsToken;
    var line := LineText(verb, target, version);
    MatchesConcat(s, 0, line, CRLF);
    MatchesCrLf(s, |line|);
    LineLaidOut(s, verb, target, version);
    TokenScans(s, 0, 15, verb);
    TokenScans(s, |verb| + 1, |s|, target);
    TokenScans(s, |verb| + 1 + |target| + 1, 15, version);
    NotEmpty(verb);
    NotEmpty(target);
    NotEmpty(version);
  }

  lemma NotEmpty(w: bytes)
    requires IsToken(w)
    ensures |w| > 0
  {
  }

  /** The path of the event is what the units mean, whatever comes behind them in the target. */
  lemma PathReads(s: bytes, c: nat, us: seq<Unit>)
    requires c < |s| && s[|s| - 1] == NUL && ValidText(us) && |us| <= 511 && NUL !in MeaningsOf(us)
    requires Matches(s, c, Text(us)) && c + |Text(us)| < |s| && (s[c + |Text(us)|] == ' ' || s[c + |Text(us)|] == '?')
    ensures PathText(s, c) == MeaningsOf(us)
  {
    hide Text, Units, Unit.Meaning, Matches, ValidText;
    UnitsOfText(s, c, us);
    var v := MeaningsOf(us);
    assert v == seq(if |us| < 511 then |us| else 511, i requires 0 <= i < |us| => us[i].Meaning());
    CTextWhole(v);
  }

  lemma CTextWhole(v: bytes)
    requires NUL !in v
    ensures CText(v) == v + [NUL] && CText(v)[..|CText(v)| - 1] == v
  {
    var mem := v + [NUL];
    forall i | 0 <= i < |v| ensures mem[i] != NUL {
      assert v[i] in v;
    }
    assert Until(mem, 0, {}) == |v|;
  }

  /**
   * What a request line says is what the handler is told: the method, and the path without its query, decoded; it is told
   * exactly when the version begins with HTTP.
   */
  lemma RequestLineReads(verb: bytes, us: seq<Unit>, end: bytes, version: bytes, rest: bytes)
    requires CleanLine(verb, us, end, version)
    ensures RequestOf(LineText(verb, Text(us) + end, version) + (CRLF + rest)) ==
            if version[..4] == "HTTP" then Some(Request(verb, MeaningsOf(us))) else None
  {
    hide LineText, Text, MeaningsOf, ScanRequestLine, PathText, ValidText, Unit.Meaning;
    var target := Text(us) + end;
    var line := LineText(verb, target, version);
    var s := line + (CRLF + rest) + [NUL];
    assert s[..|line + CRLF|] == line + CRLF;
    MatchesSlice(s, 0, line + CRLF);
    LineScans(s, verb, target, version);
    MatchesConcat(s, 0, line, CRLF);
    LineLaidOut(s, verb, target, version);
    MatchesConcat(s, |verb| + 1, Text(us), end);
    BehindPath(s, |verb| + 1 + |Text(us)|, end);
    PathReads(s, |verb| + 1, us);
    MatchesSlice(version, 0, "HTTP");
  }

  lemma BehindPath(s: bytes, p: nat, end: bytes)
    requires Matches(s, p, end) && (end == [] || end[0] == '?') && p + |end| < |s| && s[p + |end|] == ' '
    ensures s[p] == ' ' || s[p] == '?'
  {
  }

  // ----- header lines -----

  /** Lines, each with its end. */
  ghost function Lines(ls: seq<bytes>): bytes {
    if ls == [] then [] else ls[0] + (CRLF + Lines(ls[1..]))
  }

  /** Lines and the blank line behind them. */
  ghost function Block(ls: seq<bytes>): bytes {
    Lines(ls) + CRLF
  }

  ghost predicate GoodLine(l: bytes) {
    l != [] && '\r' !in l && NUL !in l
  }

  ghost predicate GoodLines(ls: seq<bytes>) {
    forall i :: 0 <= i < |ls| ==> GoodLine(ls[i])
  }

  /** A line in place, and the rest of the block behind it. */
  lemma BlockSplit(s: bytes, p: nat, ls: seq<bytes>)
    requires Matches(s, p, Block(ls)) && ls != []
    ensures Matches(s, p, ls[0]) && CrLfAt(s, p + |ls[0]|) && Matches(s, p + |ls[0]| + 2, Block(ls[1..]))
    ensures |Lines(ls)| == |ls[0]| + 2 + |Lines(ls[1..])|
  {
    hide Matches;
    var l, rest := ls[0], Lines(ls[1..]);
    assert Block(ls) == l + (CRLF + (rest + CRLF));
    MatchesConcat(s, p, l, CRLF + (rest + CRLF));
    MatchesConcat(s, p + |l|, CRLF, rest + CRLF);
    MatchesCrLf(s, p + |l|);
  }

  lemma BlockEnds(s: bytes, p: nat, ls: seq<bytes>)
    requires Matches(s, p, Block(ls))
    ensures CrLfAt(s, p + |Lines(ls)|)
  {
    MatchesConcat(s, p, Lines(ls), CRLF);
    MatchesCrLf(s, p + |Lines(ls)|);
  }

  lemma InLine(s: bytes, p: nat, l: bytes)
    requires GoodLine(l) && Matches(s, p, l)
    ensures p < |s| && forall j :: p <= j < p + |l| ==> s[j] != '\r' && s[j] != NUL
  {
    forall j | p <= j < p + |l| ensures s[j] != '\r' && s[j] != NUL {
      assert s[j] == l[j - p] && l[j - p] in l;
    }
  }

  /** The line ends of a block: every CR is one, and two meet only in the blank line. */
  ghost predicate EndsMeet(s: bytes, p: nat, e: nat) {
    && p <= e && CrLfAt(s, e)
    && (forall j :: p <= j < e && s[j] == '\r' ==> CrLfAt(s, j) && j + 2 <= e)
    && (forall j :: p <= j < e && CrLfAt(s, j) && CrLfAt(s, j + 2) ==> j + 2 == e)
    && (forall j :: p <= j < e ==> s[j] != NUL)
  }

  lemma OneMoreLine(s: bytes, p: nat, l: bytes, e: nat)
    requires GoodLine(l) && Matches(s, p, l) && CrLfAt(s, p + |l|) && EndsMeet(s, p + |l| + 2, e)
    requires s[p + |l| + 2] == '\r' ==> e == p + |l| + 2
    ensures EndsMeet(s, p, e)
  {
    InLine(s, p, l);
  }

  lemma {:induction false} BlockLines(s: bytes, p: nat, ls: seq<bytes>)
    requires GoodLines(ls) && Matches(s, p, Block(ls))
    ensures EndsMeet(s, p, p + |Lines(ls)|) && (ls != [] ==> s[p] != '\r')
    decreases |ls|
  {
    hide Matches, GoodLine, EndsMeet, Block;
    if ls == [] {
      BlockEnds(s, p, ls);
      NoLines(s, p);
    } else {
      BlockSplit(s, p, ls);
      BlockLines(s, p + |ls[0]| + 2, ls[1..]);
      InLine(s, p, ls[0]);
      LineNotEmpty(ls[0]);
      OneMoreLine(s, p, ls[0], p + |Lines(ls)|);
    }
  }

  lemma LineNotEmpty(l: bytes)
    requires GoodLine(l)
    ensures |l| > 0
  {
  }

  lemma NoLines(s: bytes, p: nat)
    requires CrLfAt(s, p)
    ensures EndsMeet(s, p, p)
  {
  }

  /** A block of lines is a header: it ends in a blank line, and no fewer bytes do. */
  lemma BlockIsHeader(d: bytes, ls: seq<bytes>)
    requires GoodLines(ls) && ls != [] && Matches(d, 0, Block(ls))
    ensures HeaderEnd(d, |Block(ls)|)
  {
    hide Matches, GoodLine, Block;
    var e := |Lines(ls)|;
    BlockLines(d, 0, ls);
    LastLineEnds(d, 0, ls);
    BlockLength(ls);
    forall m: nat | m < e + 2 ensures !BlankLineEnd(d, m) {
    }
  }

  lemma BlockLength(ls: seq<bytes>)
    ensures |Block(ls)| == |Lines(ls)| + 2
  {
  }

  lemma {:induction false} LastLineEnds(s: bytes, p: nat, ls: seq<bytes>)
    requires GoodLines(ls) && ls != [] && Matches(s, p, Block(ls))
    ensures |Lines(ls)| >= 2 && CrLfAt(s, p + |Lines(ls)| - 2)
    decreases |ls|
  {
    hide Matches, GoodLine, Block;
    BlockSplit(s, p, ls);
    if |ls| > 1 {
      LastLineEnds(s, p + |ls[0]| + 2, ls[1..]);
    }
  }

  /** The search for any header ends in a text that begins with such a block. */
  lemma BlockHalts(s: bytes, ls: seq<bytes>, field: bytes)
    requires GoodLines(ls) && ls != [] && Matches(s, 0, Block(ls))
    ensures Halts(s, field)
  {
    hide Matches, GoodLine, Block, HeaderAt;
    var e := |Lines(ls)|;
    BlockLines(s, 0, ls);
    LastLineEnds(s, 0, ls);
    assert StopAt(s, field, e);
  }

  // ----- finding a header -----

  /** The line gives the header its value: the name in any case, a colon, and what comes behind. */
  ghost predicate Names(l: bytes, field: bytes) {
    |field| < |l| && SameButCase(l[..|field|], field) && l[|field|] == ':'
  }

  /** A header name as it is looked for. */
  ghost predicate IsName(field: bytes) {
    ':' !in field && ' ' !in field && '\r' !in field && NUL !in field
  }

  /** At a line the search finds its header or goes on with the next line. */
  lemma LineSearched(s: bytes, p: nat, l: bytes, field: bytes)
    requires IsCString(s) && GoodLine(l) && Matches(s, p, l) && CrLfAt(s, p + |l|) && IsName(field)
    ensures p < |s| && Step(s, field, p) == if Names(l, field) then Found(Past(s, p + |field| + 1, {' ', '\t'})) else At(p + |l| + 2)
  {
    hide SameButCase, HeaderAt, Matches;
    InLine(s, p, l);
    LineNotEmpty(l);
    NamedHere(s, p, l, field);
    assert Until(s, p, {'\r'}) == p + |l|;
  }

  lemma NamedHere(s: bytes, p: nat, l: bytes, field: bytes)
    requires GoodLine(l) && Matches(s, p, l) && CrLfAt(s, p + |l|) && IsName(field)
    ensures HeaderAt(s, p, field) <==> Names(l, field)
  {
    hide HeaderAt, GoodLine;
    HeaderAtMeans(s, p, field);
    var n := |field|;
    if n < |l| {
      assert s[p..p + n] == l[..n] && s[p + n] == l[n];
    } else if n > |l| && p + n < |s| {
      assert s[p..p + n][|l|] == '\r' && field[|l|] in field;
      CrAlone(field[|l|]);
    }
  }

  lemma CrAlone(c: byte)
    requires c != '\r'
    ensures !SameLetter('\r', c)
  {
  }

  /** The value of the first header of that name, None when there is none. */
  ghost function ValueOf(hs: seq<Header>, field: bytes): Option<bytes> {
    if hs == [] then None else if SameButCase(hs[0].field, field) then Some(hs[0].value) else ValueOf(hs[1..], field)
  }

  ghost function Texts(hs: seq<Header>): seq<bytes> {
    seq(|hs|, i requires 0 <= i < |hs| => HeaderText(hs[i]))
  }

  /** Header lines as clients print them. */
  ghost predicate PlainHeaders(hs: seq<Header>) {
    forall i :: 0 <= i < |hs| ==> PlainHeader(hs[i])
  }

  ghost predicate PlainHeader(h: Header) {
    IsName(h.field) && '\r' !in h.value && NUL !in h.value
  }

  lemma HeaderNames(h: Header, field: bytes)
    requires PlainHeader(h) && IsName(field)
    ensures GoodLine(HeaderText(h)) && (Names(HeaderText(h), field) <==> SameButCase(h.field, field))
  {
    var l, n := HeaderText(h), |h.field|;
    assert l[n] == ':' && l[n + 1] == ' ' && l[..n] == h.field && l[n + 2..] == h.value;
    forall i | 0 <= i < |l| ensures l[i] != '\r' && l[i] != NUL && (i < n ==> l[i] != ':') {
      if i < n {
        assert l[i] == h.field[i] && h.field[i] in h.field;
      } else if i >= n + 2 {
        assert l[i] == h.value[i - n - 2] && h.value[i - n - 2] in h.value;
      }
    }
    if |field| > n && Names(l, field) {
      assert SameLetter(l[..|field|][n], field[n]) && field[n] in field;
      ColonAlone(field[n]);
    }
  }

  lemma ColonAlone(c: byte)
    requires c != ':'
    ensures !SameLetter(':', c)
  {
  }

  /** `v` is where a value printed behind a header name starts, leading blanks skipped. */
  ghost predicate StandsAt(s: bytes, v: nat, value: bytes) {
    exists q: nat :: ValueHere(s, q, value) && v == Past(s, q, {' ', '\t'})
  }

  ghost predicate ValueHere(s: bytes, q: nat, value: bytes) {
    q < |s| && s[|s| - 1] == NUL && Matches(s, q, value) && CrLfAt(s, q + |value|)
  }

  lemma ValueStands(s: bytes, p: nat, h: Header)
    requires |s| > 0 && s[|s| - 1] == NUL && Matches(s, p, HeaderText(h)) && CrLfAt(s, p + |HeaderText(h)|)
    ensures p + |h.field| + 1 < |s| && StandsAt(s, Past(s, p + |h.field| + 1, {' ', '\t'}), h.value)
  {
    var q := p + |h.field| + 2;
    MatchesConcat(s, p, h.field, COLON + h.value);
    MatchesConcat(s, p + |h.field|, COLON, h.value);
    assert COLON[1] == ' ' && s[q - 1] == ' ';
    assert ValueHere(s, q, h.value);
  }

  lemma {:induction false} HeadersSearched(s: bytes, p: nat, hs: seq<Header>, field: bytes)
    requires IsCString(s) && PlainHeaders(hs) && IsName(field) && Matches(s, p, Block(Texts(hs)))
    ensures p < |s| && match ValueOf(hs, field) case None => Lookup(s, field, p) == None
                                                case Some(value) => Lookup(s, field, p).Some? && StandsAt(s, Lookup(s, field, p).value, value)
    decreases |hs|
  {
    hide Matches, Block, PlainHeader, StandsAt, SameButCase, Names, HeaderText, GoodLine;
    var ls := Texts(hs);
    if hs == [] {
      BlockEnds(s, p, ls);
    } else {
      var l := HeaderText(hs[0]);
      assert ls[0] == l && ls[1..] == Texts(hs[1..]);
      BlockSplit(s, p, ls);
      HeaderNames(hs[0], field);
      LineSearched(s, p, l, field);
      if SameButCase(hs[0].field, field) {
        SameLength(hs[0].field, field);
        ValueStands(s, p, hs[0]);
      } else {
        HeadersSearched(s, p + |l| + 2, hs[1..], field);
      }
    }
  }

  lemma SameLength(a: bytes, b: bytes)
    requires SameButCase(a, b)
    ensures |a| == |b|
  {
  }

  /**
   * In what a client prints, a first line and header lines, the search finds the value of the first header of that name,
   * whatever the case of its letters, and nothing exactly when no line has it.
   */
  lemma PrintedHeaderFound(s: bytes, first: bytes, hs: seq<Header>, field: bytes)
    requires IsCString(s) && GoodLine(first) && PlainHeaders(hs) && IsName(field) && !Names(first, field)
    requires Matches(s, 0, Block([first] + Texts(hs)))
    ensures match ValueOf(hs, field) case None => Lookup(s, field, 0) == None
                                     case Some(value) => Lookup(s, field, 0).Some? && StandsAt(s, Lookup(s, field, 0).value, value)
  {
    hide Matches, Block, StandsAt, Names, GoodLine, PlainHeaders;
    var ls := [first] + Texts(hs);
    assert ls[0] == first && ls[1..] == Texts(hs);
    BlockSplit(s, 0, ls);
    LineSearched(s, 0, first, field);
    HeadersSearched(s, |first| + 2, hs, field);
  }

  // ----- a whole request -----

  /** A request: its line, its headers, the blank line and the body. */
  ghost function Head(verb: bytes, target: bytes, version: bytes, hs: seq<Header>): bytes {
    Block([LineText(verb, target, version)] + Texts(hs))
  }

  /** What the headers say about the length of the body is right. */
  ghost predicate Announces(hs: seq<Header>, body: bytes) {
    match ValueOf(hs, "Content-Length")
    case None => body == []
    case Some(value) => value == Decimal(|body|) && |body| < 0x1_0000_0000
  }

  lemma {:induction false} DigitsOnly(n: nat)
    ensures forall i :: 0 <= i < |Decimal(n)| ==> IsDigit(Decimal(n)[i])
  {
    if n >= 10 {
      DigitsOnly(n / 10);
    }
  }

  /** A printed number is read where it stands. */
  lemma NumberReads(s: bytes, v: nat, n: nat)
    requires StandsAt(s, v, Decimal(n)) && n < 0x1_0000_0000
    ensures v < |s| && s[|s| - 1] == NUL && StrToUint(s, v) == n
  {
    hide Decimal, StrToUint, Matches;
    var q: nat :| ValueHere(s, q, Decimal(n)) && v == Past(s, q, {' ', '\t'});
    NumberHere(s, q, n);
  }

  lemma NumberHere(s: bytes, q: nat, n: nat)
    requires ValueHere(s, q, Decimal(n)) && n < 0x1_0000_0000
    ensures Past(s, q, {' ', '\t'}) == q && StrToUint(s, q) == n
  {
    hide Decimal, StrToUint, IntOf, NatOf;
    var d := Decimal(n);
    DigitsOnly(n);
    DecimalReads(n);
    assert d[0] == s[q] && IsDigit(s[q]);
    NumberEnds(s, q, d);
    StrToUintReads(s, q, [], [], d);
  }

  lemma NumberEnds(s: bytes, q: nat, d: bytes)
    requires ValueHere(s, q, d)
    ensures var t: bytes := [] + ([] + d); t == d && Matches(s, q, t) && q + |t| < |s| && !IsDigit(s[q + |t|])
  {
    assert [] + ([] + d) == d;
  }

  lemma BlockClean(ls: seq<bytes>)
    requires GoodLines(ls)
    ensures NUL !in Block(ls)
  {
    hide Matches, GoodLine;
    var b := Block(ls);
    MatchesSlice(b, 0, b);
    BlockLines(b, 0, ls);
    BlockLength(ls);
  }

  /** A text that begins with a block and is then cut as a C string still begins with it. */
  lemma CTextBegins(d: bytes, b: bytes)
    requires NUL !in b && |b| <= |d| && d[..|b|] == b
    ensures Matches(CText(d), 0, b) && |b| < |CText(d)|
  {
    var mem := d + [NUL];
    forall i | 0 <= i < |b| ensures mem[i] == b[i] && mem[i] != NUL {
      assert b[i] in b;
    }
    assert Until(mem, 0, {}) >= |b|;
  }

  lemma LineGood(verb: bytes, target: bytes, version: bytes)
    requires IsToken(verb) && IsToken(target) && IsToken(version)
    ensures GoodLine(LineText(verb, target, version))
  {
    var l := LineText(verb, target, version);
    forall i | 0 <= i < |l| ensures l[i] != '\r' && l[i] != NUL {
      assert l[i] == ' ' || l[i] in verb || l[i] in target || l[i] in version;
    }
  }

  /** A request line is no header line. */
  lemma LineNamesNothing(verb: bytes, target: bytes, version: bytes, field: bytes)
    requires ':' !in verb && IsName(field)
    ensures !Names(LineText(verb, target, version), field)
  {
    var l := LineText(verb, target, version);
    assert forall i :: 0 <= i < |verb| ==> l[i] == verb[i] && verb[i] in verb;
    assert l[|verb|] == ' ';
    if |field| > |verb| && Names(l, field) {
      assert SameLetter(l[..|field|][|verb|], field[|verb|]) && field[|verb|] in field;
      BlankAlone(field[|verb|]);
    }
  }

  lemma BlankAlone(c: byte)
    requires c != ' '
    ensures !SameLetter(' ', c)
  {
  }

  lemma LinesGood(first: bytes, hs: seq<Header>)
    requires GoodLine(first) && PlainHeaders(hs)
    ensures GoodLines([first] + Texts(hs))
  {
    hide GoodLine, HeaderText, PlainHeader;
    forall i | 0 <= i < |hs| ensures GoodLine(Texts(hs)[i]) {
      HeaderNames(hs[i], "x");
    }
  }

  lemma LengthIsName()
    ensures IsName("Content-Length") && CONTENT_LENGTH == "Content-Length"
  {
  }

  /** The length of the body, as the server reads it from the header. */
  lemma LengthReads(first: bytes, hs: seq<Header>, body: bytes)
    requires GoodLine(first) && PlainHeaders(hs) && !Names(first, "Content-Length") && Announces(hs, body)
    ensures ContentLength(Block([first] + Texts(hs))) == if ValueOf(hs, "Content-Length").None? then None else Some(|body|)
  {
    hide Block, Names, GoodLine, PlainHeaders, StandsAt, Matches, StrToUint, Decimal, ValueOf;
    var b := Block([first] + Texts(hs));
    LengthIsName();
    LinesGood(first, hs);
    BlockClean([first] + Texts(hs));
    assert b[..|b|] == b;
    CTextBegins(b, b);
    PrintedHeaderFound(CText(b), first, hs, "Content-Length");
    if ValueOf(hs, "Content-Length").Some? {
      NumberReads(CText(b), Lookup(CText(b), CONTENT_LENGTH, 0).value, |body|);
    }
  }

  /** Whatever follows a header, the searches in it end. */
  lemma HeadSearchable(d: bytes, ls: seq<bytes>)
    requires GoodLines(ls) && ls != [] && |Block(ls)| <= |d| && d[..|Block(ls)|] == Block(ls)
    ensures Searchable(d)
  {
    hide GoodLines, Block, Halts, CText;
    var b := Block(ls);
    MatchesSlice(d, 0, b);
    BlockIsHeader(d, ls);
    BlockClean(ls);
    forall n: nat | n <= |d| && BlankLineEnd(d, n) ensures Halts(CText(d[..n]), CONTENT_LENGTH) {
      assert n >= |b| && d[..n][..|b|] == b;
      CTextBegins(d[..n], b);
      BlockHalts(CText(d[..n]), ls, CONTENT_LENGTH);
    }
  }

  lemma BodyBehind(first: bytes, hs: seq<Header>, body: bytes, more: bytes)
    requires GoodLine(first) && PlainHeaders(hs) && !Names(first, "Content-Length") && Announces(hs, body)
    ensures var d := Block([first] + Texts(hs)) + body; RequestEnd(d + more, |d|) && Searchable(d + more)
  {
    hide Block, Names, GoodLine, GoodLines, PlainHeaders, Announces, Searchable, ContentLength, HeaderEnd, ValueOf;
    var ls := [first] + Texts(hs);
    var b := Block(ls);
    var all := b + body + more;
    LinesGood(first, hs);
    assert all[..|b|] == b;
    MatchesSlice(all, 0, b);
    BlockIsHeader(all, ls);
    LengthReads(first, hs, body);
    NothingAnnounced(hs, body);
    HeadSearchable(all, ls);
    assert HeaderEnd(all, |b|) && |b + body| == |b| + BodyLength(all[..|b|]);
  }

  lemma NothingAnnounced(hs: seq<Header>, body: bytes)
    requires Announces(hs, body)
    ensures ValueOf(hs, "Content-Length").None? ==> body == []
  {
  }

  /**
   * The round trip of a request: of what a client prints, with anything behind it, the server takes exactly the request, however
   * the bytes arrive; and its handler is told the method and the path, unless the version is none of HTTP.
   */
  lemma PrintedRequestReads(verb: bytes, us: seq<Unit>, end: bytes, version: bytes, hs: seq<Header>, body: bytes, more: bytes)
    requires CleanLine(verb, us, end, version) && ':' !in verb && PlainHeaders(hs) && Announces(hs, body)
    ensures var d := Head(verb, Text(us) + end, version, hs) + body;
      && RequestEnd(d + more, |d|) && Searchable(d + more)
      && RequestOf(d) == if version[..4] == "HTTP" then Some(Request(verb, MeaningsOf(us))) else None
  {
    hide Text, LineText, IsToken, PlainHeaders, Announces, RequestOf, MeaningsOf, RequestEnd, Searchable, Names, GoodLine, ValidText;
    var target := Text(us) + end;
    var line := LineText(verb, target, version);
    LineGood(verb, target, version);
    LengthIsName();
    LineNamesNothing(verb, target, version, "Content-Length");
    BodyBehind(line, hs, body, more);
    var rest := Lines(Texts(hs)) + CRLF + body;
    FirstLine(line, Texts(hs), body);
    RequestLineReads(verb, us, end, version, rest);
  }

  lemma FirstLine(line: bytes, ls: seq<bytes>, body: bytes)
    ensures Block([line] + ls) + body == line + (CRLF + (Lines(ls) + CRLF + body))
  {
    var all := [line] + ls;
    assert all[0] == line && all[1..] == ls;
    Regroup(line, CRLF, Lines(ls), CRLF, body);
  }

  lemma Regroup(a: bytes, b: bytes, c: bytes, d: bytes, e: bytes)
    ensures (a + (b + c)) + d + e == a + (b + (c + d + e))
  {
  }

  /** So a stream that has handled such a request has told its handler so. */
  lemma PrintedRequestHandled(st: Stream, before: seq<Event>, verb: bytes, us: seq<Unit>, end: bytes, version: bytes, hs: seq<Header>, body: bytes)
    requires CleanLine(verb, us, end, version) && ':' !in verb && PlainHeaders(hs) && Announces(hs, body)
    requires st.Handled(before, Head(verb, Text(us) + end, version, hs) + body)
    ensures if version[..4] == "HTTP" then st.log == before + [Request(verb, MeaningsOf(us))] else st.log == before && st.state == Closing
  {
    hide CleanLine, PlainHeaders, Announces, Head, RequestOf, MeaningsOf, Text, RequestEnd, Searchable;
    PrintedRequestReads(verb, us, end, version, hs, body, []);
  }

  // ----- its variables -----

  ghost predicate CleanName(name: bytes) {
    forall c :: c in name ==> c !in {'=', '&', ' ', '\t', '\r', '\n', NUL}
  }

  /** Form variables with names and values as they may be printed, the delimiters written out. */
  ghost predicate CleanForm(ps: seq<Pair>) {
    forall i :: 0 <= i < |ps| ==> CleanName(ps[i].name) && ValidText(ps[i].units)
  }

  lemma FormCarried(s: bytes, p: nat, ps: seq<Pair>)
    requires CleanForm(ps) && Matches(s, p, Form(ps)) && p + |Form(ps)| < |s| && s[|s| - 1] == NUL
    requires s[p + |Form(ps)|] == ' ' || s[p + |Form(ps)|] == NUL
    ensures Carries(s, p, ps)
  {
    hide Form, Matches, ValidText;
  }

  ghost function PairsOf(query: Option<seq<Pair>>): seq<Pair> {
    if query.Some? then query.value else []
  }

  /** The query of a target, with its question mark, or nothing. */
  ghost function QueryText(query: Option<seq<Pair>>): bytes {
    if query.Some? then ['?'] + Form(query.value) else []
  }

  /** No question mark comes before that of the query. */
  lemma LinePlain(s: bytes, verb: bytes, us: seq<Unit>, end: bytes, version: bytes)
    requires |s| > 0 && s[|s| - 1] == NUL && CleanLine(verb, us, end, version) && '?' !in verb && '?' !in version
    requires Matches(s, 0, LineText(verb, Text(us) + end, version) + CRLF)
    ensures var a, line := |verb| + 1 + |Text(us)|, LineText(verb, Text(us) + end, version);
      && |line| == a + |end| + 1 + |version| < |s| && s[|line|] == '\r' && Matches(s, a, end) && s[a + |end|] == ' '
      && (forall i :: 0 <= i < a ==> s[i] !in {NUL, '?', '\r'})
      && (forall i :: a + |end| <= i < |line| ==> s[i] !in {NUL, '?', '\r'})
  {
    hide LineText, Text, ValidText, MeaningsOf, IsToken, Matches;
    var target := Text(us) + end;
    var line := LineText(verb, target, version);
    MatchesConcat(s, 0, line, CRLF);
    MatchesCrLf(s, |line|);
    LineLaidOut(s, verb, target, version);
    var c := |verb| + 1;
    MatchesConcat(s, c, Text(us), end);
    TokenPlain(s, 0, verb);
    TokenPlain(s, c + |target| + 1, version);
    PathPlain(s, c, us);
  }

  lemma QueryCarried(s: bytes, verb: bytes, us: seq<Unit>, query: Option<seq<Pair>>, version: bytes) returns (a: nat)
    requires |s| > 0 && s[|s| - 1] == NUL && CleanForm(PairsOf(query)) && CleanLine(verb, us, QueryText(query), version)
    requires Matches(s, 0, LineText(verb, Text(us) + QueryText(query), version) + CRLF)
    requires '?' !in verb && '?' !in version
    ensures TargetCarries(s, a, PairsOf(query))
  {
    hide LineText, Text, Form, CleanForm, Carries, CleanLine, Matches;
    var end := QueryText(query);
    LinePlain(s, verb, us, end, version);
    a := |verb| + 1 + |Text(us)|;
    if query.Some? {
      MatchesConcat(s, a, ['?'], Form(query.value));
      MarkAt(s, a);
      FormCarried(s, a + 1, query.value);
    } else {
      a := |LineText(verb, Text(us) + end, version)|;
    }
  }

  lemma MarkAt(s: bytes, p: nat)
    requires Matches(s, p, ['?'])
    ensures p < |s| && s[p] == '?'
  {
    assert ['?'][0] == '?';
  }

  lemma TokenPlain(s: bytes, p: nat, w: bytes)
    requires IsToken(w) && Matches(s, p, w) && '?' !in w
    ensures forall i :: p <= i < p + |w| ==> s[i] !in {NUL, '?', '\r'}
  {
    forall i | p <= i < p + |w| ensures s[i] !in {NUL, '?', '\r'} {
      assert s[i] == w[i - p] && w[i - p] in w;
    }
  }

  lemma PathPlain(s: bytes, c: nat, us: seq<Unit>)
    requires ValidText(us) && Matches(s, c, Text(us)) && c + |Text(us)| < |s| && s[|s| - 1] == NUL
    ensures forall i :: c <= i < c + |Text(us)| ==> s[i] !in {NUL, '?', '\r'}
  {
    hide Text, ValidText, Units, Matches;
    UnitsOfText(s, c, us);
  }

  /**
   * The variables of a printed request: `sb_get_var` finds the first of that name in the query, else the first in the body, and
   * nothing exactly when neither has it. The body is looked at where its length is announced.
   */
  lemma PrintedVariablesRead(verb: bytes, us: seq<Unit>, query: Option<seq<Pair>>, version: bytes, hs: seq<Header>, form: seq<Pair>, name: bytes)
    requires CleanForm(PairsOf(query)) && CleanForm(form) && CleanName(name) && '?' !in verb && '?' !in version
    requires CleanLine(verb, us, QueryText(query), version)
    requires PlainHeaders(hs) && Announces(hs, Form(form)) && (ValueOf(hs, "Content-Length").None? ==> form == [])
    ensures var head := Head(verb, Text(us) + QueryText(query), version, hs);
      var s, dataIdx := head + Form(form) + [NUL], if ValueOf(hs, "Content-Length").Some? then |head| else 0;
      NUL !in name && ValueAt(s, Locate(s, dataIdx, name)) == FirstNamed(PairsOf(query) + form, name)
  {
    hide Text, Form, LineText, CleanForm, CleanLine, PlainHeaders, Announces, ValueOf, Locate, Carries, TargetCarries, Lines, QueryText;
    var head := Head(verb, Text(us) + QueryText(query), version, hs);
    var line := LineText(verb, Text(us) + QueryText(query), version);
    var s, dataIdx := head + Form(form) + [NUL], if ValueOf(hs, "Content-Length").Some? then |head| else 0;
    FirstLine(line, Texts(hs), Form(form));
    assert s[..|line + CRLF|] == line + CRLF;
    MatchesSlice(s, 0, line + CRLF);
    var a := QueryCarried(s, verb, us, query, version);
    assert s[|head|..|head| + |Form(form)|] == Form(form);
    MatchesSlice(s, |head|, Form(form));
    FormCarried(s, |head|, form);
    LocateInvertsRequest(s, a, PairsOf(query), dataIdx, form, name);
  }
}
