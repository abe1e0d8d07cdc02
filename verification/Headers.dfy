/** Header lookup in a request: `find_header_value` of sandbird.c and its line-by-line meaning. */
module Headers {
  import opened Prelude

  /** Case-insensitive `mem_equal`. */
  predicate LowerMatches(s: bytes, p: nat, x: bytes) {
    p + |x| <= |s| && forall k :: 0 <= k < |x| ==> ToLower(s[p + k]) == ToLower(x[k])
  }

  /** The line at `p` is `field: ...`. */
  predicate HeaderAt(s: bytes, p: nat, field: bytes) {
    LowerMatches(s, p, field) && p + |field| < |s| && s[p + |field|] == ':'
  }

  /** A header line starts at the beginning and after every CRLF. */
  predicate LineStart(s: bytes, p: nat) {
    p == 0 || (p >= 2 && CrLfAt(s, p - 2))
  }

  predicate BareCR(s: bytes, p: nat) {
    p < |s| && s[p] == '\r' && !CrLfAt(s, p)
  }

  /** The search is over at line start `p`: blank line or wanted header. */
  predicate StopAt(s: bytes, field: bytes, p: nat) {
    p < |s| && LineStart(s, p) && (CrLfAt(s, p) || HeaderAt(s, p, field))
  }

  predicate NoStopBefore(s: bytes, field: bytes, p: nat) {
    forall q: nat | q < p :: !StopAt(s, field, q)
  }

  /** Every CR not followed by LF comes after a line at which the search is over. */
  predicate Halts(s: bytes, field: bytes) {
    forall b: nat | b < |s| && BareCR(s, b) :: !NoStopBefore(s, field, b)
  }

  /** A header name: no CR and, being a C string, no NUL. */
  ghost predicate FieldName(field: bytes) {
    NUL !in field && '\r' !in field
  }

  /** One iteration of the loop at `p`: where it goes next, or how it ends. */
  datatype Walk = At(pos: nat) | Found(value: nat) | Missing

  ghost function Step(s: bytes, field: bytes, p: nat): (w: Walk)
    requires IsCString(s) && p < |s|
    ensures w.At? ==> p <= w.pos < |s|
    ensures w.Found? ==> w.value < |s|
  {
    if s[p] == NUL || CrLfAt(s, p) then Missing
    else if HeaderAt(s, p, field) then Found(Past(s, p + |field| + 1, {' ', '\t'}))
    else
      var q := Until(s, p, {'\r'});
      if CrLfAt(s, q) then At(q + 2) else At(q)
  }

  /** Where the walk stands after `n` iterations. */
  ghost function WalkFrom(s: bytes, field: bytes, p: nat, n: nat): (w: Walk)
    requires IsCString(s) && p < |s|
    ensures w.At? ==> w.pos < |s|
    decreases n
  {
    if n == 0 then At(p)
    else match Step(s, field, p)
      case At(q) => WalkFrom(s, field, q, n - 1)
      case w => w
  }

  /** The lookup as a function; a walk that would stand still for ever yields None. */
  ghost function Lookup(s: bytes, field: bytes, p: nat): (r: Option<nat>)
    requires IsCString(s) && p < |s|
    ensures r.Some? ==> r.value < |s|
    decreases |s| - p
  {
    match Step(s, field, p)
    case Found(v) => Some(v)
    case Missing => None
    case At(q) => if q > p then Lookup(s, field, q) else None
  }

  ghost predicate Between(s: bytes, field: bytes, p: nat) {
    p < |s| && NoStopBefore(s, field, p) && (s[p] == NUL || LineStart(s, p))
  }

  /** A line that does not end the search holds no other line start, and leads to the next one. */
  lemma NextLine(s: bytes, field: bytes, p: nat)
    requires IsCString(s) && FieldName(field) && Between(s, field, p) && s[p] != NUL && !StopAt(s, field, p)
    ensures var q := Until(s, p, {'\r'});
      if CrLfAt(s, q) then q + 2 > p && Between(s, field, q + 2)
      else if s[q] == NUL then q > p && Between(s, field, q)
      else NoStopBefore(s, field, q) && BareCR(s, q) && !Halts(s, field)
  {
  }

  lemma StartBetween(s: bytes, field: bytes)
    requires IsCString(s)
    ensures Between(s, field, 0)
  {
  }

  /** `find_header_value`: terminates, and reads no further than the NUL, whenever `Halts`. */
  method FindHeaderValue(s: bytes, field: bytes) returns (r: Option<nat>)
    requires IsCString(s) && FieldName(field) && Halts(s, field)
    ensures r == Lookup(s, field, 0)
  {
    hide LowerMatches, Halts, NoStopBefore, LineStart, BareCR;
    StartBetween(s, field);
    var p: nat := 0;
    while true
      invariant Between(s, field, p) && Lookup(s, field, 0) == Lookup(s, field, p)
      decreases |s| - p
    {
      if s[p] == NUL { return None; }
      var blank := AtCrLf(s, p);
      if blank { return None; }
      var named := MemCaseEqual(s, p, field);
      if named && s[p + |field|] == ':' {
        return Some(Past(s, p + |field| + 1, {' ', '\t'}));
      }
      NextLine(s, field, p);
      p := Until(s, p, {'\r'});
      var ends := AtCrLf(s, p);
      p := p + if ends then 2 else 0;
    }
  }

  /** `mem_case_equal(s + p, x, |x|)`. */
  method MemCaseEqual(s: bytes, p: nat, x: bytes) returns (eq: bool)
    requires p < |s| && s[|s| - 1] == NUL && NUL !in x
    ensures eq == LowerMatches(s, p, x)
    ensures eq ==> p + |x| < |s|
  {
    var k := 0;
    while k < |x|
      invariant k <= |x| && p + k < |s|
      invariant forall i :: 0 <= i < k ==> ToLower(s[p + i]) == ToLower(x[i])
    {
      if ToLower(s[p + k]) != ToLower(x[k]) { return false; }
      k := k + 1;
    }
    return true;
  }

  /** What a lookup means: the first line of the block named `field`, if any comes before the blank line. */
  ghost predicate FirstHeader(s: bytes, field: bytes, p: nat) {
    && p < |s| && LineStart(s, p) && HeaderAt(s, p, field) && !CrLfAt(s, p)
    && NoStopBefore(s, field, p)
  }

  /** Neither a NUL nor a CR can begin a header line. */
  lemma NoHeaderHere(s: bytes, field: bytes, p: nat)
    requires IsCString(s) && p < |s| && FieldName(field) && (s[p] == NUL || s[p] == '\r')
    ensures !HeaderAt(s, p, field)
  {
    if |field| > 0 {
      assert ToLower(s[p + 0]) != ToLower(field[0]);
    }
  }

  lemma {:induction false} LookupMeaning(s: bytes, field: bytes, p: nat)
    requires IsCString(s) && FieldName(field) && Halts(s, field) && Between(s, field, p)
    ensures forall h: nat | FirstHeader(s, field, h) ::
              Lookup(s, field, p) == Some(Past(s, h + |field| + 1, {' ', '\t'}))
    ensures Lookup(s, field, p).Some? ==> exists h: nat :: FirstHeader(s, field, h)
    decreases |s| - p
  {
    forall h: nat | FirstHeader(s, field, h) ensures h >= p {
      assert StopAt(s, field, h);
    }
    if s[p] == NUL {
      NoHeaderHere(s, field, p);
    } else if StopAt(s, field, p) {
      assert FirstHeader(s, field, p) || CrLfAt(s, p);
    } else {
      NextLine(s, field, p);
      var q := Until(s, p, {'\r'});
      LookupMeaning(s, field, if CrLfAt(s, q) then q + 2 else q);
    }
  }

  /** The lookup started at the beginning returns the value of the first such header, None when there is none. */
  lemma LookupFindsFirst(s: bytes, field: bytes)
    requires IsCString(s) && FieldName(field) && Halts(s, field)
    ensures Lookup(s, field, 0).Some? <==> exists h: nat :: FirstHeader(s, field, h)
    ensures forall h: nat | FirstHeader(s, field, h) ::
              Lookup(s, field, 0) == Some(Past(s, h + |field| + 1, {' ', '\t'}))
  {
    LookupMeaning(s, field, 0);
  }

  // ----- upper and lower case -----

  /** Letter number `i` in its two cases. */
  ghost predicate Cases(c: byte, d: byte, i: nat) {
    i < 26 && c as int == 'A' as int + i && d as int == 'a' as int + i
  }

  /** The same byte, or the same letter. */
  ghost predicate SameLetter(c: byte, d: byte) {
    c == d || exists i: nat :: Cases(c, d, i) || Cases(d, c, i)
  }

  ghost predicate SameButCase(a: bytes, b: bytes) {
    |a| == |b| && forall k :: 0 <= k < |a| ==> SameLetter(a[k], b[k])
  }

  /** Bytes are compared without regard to case, and to nothing else. */
  lemma ToLowerSame(c: byte, d: byte)
    ensures ToLower(c) == ToLower(d) <==> SameLetter(c, d)
  {
    if 'A' <= c <= 'Z' && ToLower(c) == d {
      assert Cases(c, d, c as int - 'A' as int);
    } else if 'A' <= d <= 'Z' && ToLower(d) == c {
      assert Cases(d, c, d as int - 'A' as int);
    }
  }

  /** A line names a header exactly when it begins with that name, in whatever case, and a colon. */
  lemma HeaderAtMeans(s: bytes, p: nat, field: bytes)
    ensures HeaderAt(s, p, field) <==> p + |field| < |s| && SameButCase(s[p..p + |field|], field) && s[p + |field|] == ':'
  {
    hide SameLetter, ToLower;
    if p + |field| < |s| {
      var name := s[p..p + |field|];
      forall k | 0 <= k < |field| ensures ToLower(s[p + k]) == ToLower(field[k]) <==> SameLetter(name[k], field[k]) {
        ToLowerSame(name[k], field[k]);
      }
    }
  }

  lemma SameSymbols(c: byte, d: byte)
    requires SameLetter(c, d)
    ensures Alike(c, d)
  {
    ToLowerSame(c, d);
  }

  /** As far as a lookup goes the bytes are the same. */
  ghost predicate Alike(c: byte, d: byte) {
    ToLower(c) == ToLower(d) && (c == d || (c !in {NUL, '\r', '\n', ':', ' ', '\t'} && d !in {NUL, '\r', '\n', ':', ' ', '\t'}))
  }

  ghost predicate SymbolsAgree(s: bytes, t: bytes) {
    |s| == |t| && forall k :: 0 <= k < |s| ==> Alike(s[k], t[k])
  }

  lemma SameAgrees(s: bytes, t: bytes)
    requires SameButCase(s, t)
    ensures SymbolsAgree(s, t)
  {
    hide SameLetter, Alike;
    forall k | 0 <= k < |s| ensures Alike(s[k], t[k]) {
      SameSymbols(s[k], t[k]);
    }
  }

  /** Two texts that differ in case only have their lines and blanks in the same places. */
  lemma SameStep(s: bytes, t: bytes, field: bytes, name: bytes, p: nat)
    requires IsCString(s) && IsCString(t) && SymbolsAgree(s, t) && SymbolsAgree(field, name) && p < |s|
    ensures Step(s, field, p) == Step(t, name, p)
  {
    hide ToLower;
    assert Until(s, p, {'\r'}) == Until(t, p, {'\r'});
    assert HeaderAt(s, p, field) <==> HeaderAt(t, p, name);
    if HeaderAt(s, p, field) {
      assert Past(s, p + |field| + 1, {' ', '\t'}) == Past(t, p + |field| + 1, {' ', '\t'});
    }
  }

  /** Neither the case of the name looked for nor that of the text, header names included, makes a difference to a lookup. */
  lemma {:induction false} LookupIgnoresCase(s: bytes, t: bytes, field: bytes, name: bytes, p: nat)
    requires IsCString(s) && IsCString(t) && SameButCase(s, t) && SameButCase(field, name) && p < |s|
    ensures Lookup(s, field, p) == Lookup(t, name, p)
    decreases |s| - p
  {
    hide SameButCase, Step;
    SameAgrees(s, t);
    SameAgrees(field, name);
    SameStep(s, t, field, name, p);
    var w := Step(s, field, p);
    if w.At? && w.pos > p {
      LookupIgnoresCase(s, t, field, name, w.pos);
    }
  }

  // ----- when it ends -----

  lemma {:induction false} WalkEnds(s: bytes, field: bytes, p: nat) returns (n: nat)
    requires IsCString(s) && FieldName(field) && Halts(s, field) && Between(s, field, p)
    ensures !WalkFrom(s, field, p, n).At?
    decreases |s| - p
  {
    if s[p] == NUL || StopAt(s, field, p) {
      n := 1;
    } else {
      NextLine(s, field, p);
      n := WalkEnds(s, field, Step(s, field, p).pos);
      n := n + 1;
    }
  }

  lemma {:induction false} WalkStuck(s: bytes, field: bytes, p: nat, b: nat, n: nat)
    requires IsCString(s) && p <= b && FieldName(field)
    requires BareCR(s, b) && NoStopBefore(s, field, b) && (p == b || LineStart(s, p))
    ensures WalkFrom(s, field, p, n).At?
    decreases n
  {
    if n > 0 {
      if p == b {
        NoHeaderHere(s, field, b);
        WalkStuck(s, field, b, b, n - 1);
      } else {
        assert !StopAt(s, field, p) && Between(s, field, p);
        NextLine(s, field, p);
        var q := Until(s, p, {'\r'});
        if CrLfAt(s, q) {
          WalkStuck(s, field, q + 2, b, n - 1);
        } else {
          WalkStuck(s, field, q, q, n - 1);
        }
      }
    }
  }

  /** The loop ends exactly when no bare CR comes before the line that ends the search. */
  lemma TerminatesExactly(s: bytes, field: bytes)
    requires IsCString(s) && FieldName(field)
    ensures (exists n: nat :: !WalkFrom(s, field, 0, n).At?) <==> Halts(s, field)
  {
    if Halts(s, field) {
      var n := WalkEnds(s, field, 0);
    } else {
      var b: nat :| BareCR(s, b) && NoStopBefore(s, field, b);
      forall n: nat ensures WalkFrom(s, field, 0, n).At? {
        WalkStuck(s, field, 0, b, n);
      }
    }
  }

  const STUCK: bytes := "A\rB\r\n\r\n\0"

  /** A line with a bare CR: whatever header is looked for, the loop never ends. */
  lemma NeverEnds(field: bytes)
    requires FieldName(field)
    ensures IsCString(STUCK) && forall n: nat :: WalkFrom(STUCK, field, 0, n).At?
  {
    var s := STUCK;
    assert s == ['A', '\r', 'B', '\r', '\n', '\r', '\n', NUL];
    assert BareCR(s, 1) && !HeaderAt(s, 0, field);
    assert NoStopBefore(s, field, 1);
    forall n: nat ensures WalkFrom(s, field, 0, n).At? {
      WalkStuck(s, field, 0, 1, n);
    }
  }
}
