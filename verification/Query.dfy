/** Query variables: `url_decode`, `find_var_value` and `sb_get_var` of sandbird.c. */
module Query {
  import opened Prelude
  import opened Codes

  // ----- percent-decoding -----

  const VALUE_END: set<byte> := {'?', '&', ' ', '\t', '\r', '\n'}
  const PAIR_END: set<byte> := {'&', ' ', '\t', '\r', '\n'}

  /** `hex_to_int`: meaningful for hexadecimal digits, defined for every byte. */
  function HexToInt(c: byte): int {
    if '0' <= c <= '9' then c as int - '0' as int else ToLower(c) as int - 'a' as int + 10
  }

  predicate IsHex(c: byte) {
    '0' <= c <= '9' || 'a' <= c <= 'f' || 'A' <= c <= 'F'
  }

  function OrBit(a: nat, b: nat): nat {
    if a == 1 || b == 1 then 1 else 0
  }

  /** Bitwise or of two 4-bit numbers. */
  function Or4(a: nat, b: nat): (r: nat)
    requires a < 16 && b < 16
    ensures r < 16 && (b == 0 ==> r == a)
  {
    OrBit(a / 8, b / 8) * 8 + OrBit(a / 4 % 2, b / 4 % 2) * 4 + OrBit(a / 2 % 2, b / 2 % 2) * 2 + OrBit(a % 2, b % 2)
  }

  lemma Nibble(x: int)
    requires 0 <= x < 16
    ensures x % 16 == x && x / 16 % 16 == 0
  {
  }

  /** The byte stored by `(hi << 4) | lo`: its low eight bits, in two's complement. */
  function HexPair(c: byte, d: byte): (r: byte)
    ensures IsHex(c) && IsHex(d) ==> r as int == 16 * HexToInt(c) + HexToInt(d)
  {
    var hi, lo := HexToInt(c), HexToInt(d);
    var high: nat := Or4(hi % 16, lo / 16 % 16);
    assert IsHex(c) && IsHex(d) ==> high == hi && lo % 16 == lo by {
      if IsHex(c) && IsHex(d) {
        Nibble(hi);
        Nibble(lo);
      }
    }
    (16 * high + lo % 16) as char
  }

  /** One byte of an encoded value: itself, `+` for a space, or `%` and two hex digits (section 2.1 of RFC 3986). */
  datatype Unit = Plain(c: byte) | Plus | Percent(hi: byte, lo: byte) {
    /** What a correct printer emits. */
    ghost predicate Valid() {
      match this
      case Plain(c) => c !in VALUE_END && c != NUL && c != '%' && c != '+'
      case Plus => true
      case Percent(hi, lo) => IsHex(hi) && IsHex(lo)
    }

    ghost function Spelling(): bytes {
      match this
      case Plain(c) => [c]
      case Plus => ['+']
      case Percent(hi, lo) => ['%', hi, lo]
    }

    function Meaning(): byte {
      match this
      case Plain(c) => c
      case Plus => ' '
      case Percent(hi, lo) => HexPair(hi, lo)
    }
  }

  ghost predicate ValueGoesOn(s: bytes, p: nat) {
    p < |s| && s[p] != NUL && s[p] !in VALUE_END
  }

  /** The unit `url_decode` takes at `p`; a `%` too close to the end of the text stands for itself. */
  function UnitAt(s: bytes, p: nat): (u: Unit)
    requires p < |s| && s[p] != NUL && s[|s| - 1] == NUL
    ensures p + UnitLength(u) < |s|
  {
    if s[p] == '%' && s[p + 1] != NUL && s[p + 2] != NUL then Percent(s[p + 1], s[p + 2])
    else if s[p] == '+' then Plus
    else Plain(s[p])
  }

  function UnitLength(u: Unit): nat {
    if u.Percent? then 3 else 1
  }

  /** All the units from `s + p` to the end of the value. */
  ghost function Units(s: bytes, p: nat): seq<Unit>
    requires p < |s| && s[|s| - 1] == NUL
    decreases |s| - p
  {
    if ValueGoesOn(s, p) then [UnitAt(s, p)] + Units(s, p + UnitLength(UnitAt(s, p))) else []
  }

  /** `dst` holds the value `us`, cut to `len - 1` bytes, and a NUL; the rest is untouched. Only a value with room to spare is a success. */
  ghost predicate Delivered(dst: bytes, before: bytes, us: seq<Unit>, len: nat, code: Code) {
    var n := if |us| < len - 1 then |us| else len - 1;
    && 1 <= len <= |dst| == |before|
    && code == (if |us| < len - 1 then Success else Truncated)
    && (forall i :: 0 <= i < n ==> dst[i] == us[i].Meaning())
    && dst[n] == NUL
    && forall i :: n < i < |dst| ==> dst[i] == before[i]
  }

  /** Success means that the whole value is there; one that fills the buffer to its last byte but one is there too, and called truncated. */
  lemma DeliveredMeans(dst: bytes, before: bytes, us: seq<Unit>, len: nat, code: Code)
    requires Delivered(dst, before, us, len, code)
    ensures code == Success <==> |us| + 1 < len
    ensures code == Success || code == Truncated
    ensures |us| < len ==> dst[|us|] == NUL && forall i :: 0 <= i < |us| ==> dst[i] == us[i].Meaning()
    ensures |us| >= len ==> dst[len - 1] == NUL && forall i :: 0 <= i < len - 1 ==> dst[i] == us[i].Meaning()
    ensures dst[len..] == before[len..]
  {
  }

  lemma UnitsStep(s: bytes, p: nat, us: seq<Unit>, d: nat)
    requires ValueGoesOn(s, p) && s[|s| - 1] == NUL && d <= |us| && us[d..] == Units(s, p)
    ensures d < |us| && us[d] == UnitAt(s, p) && us[d + 1..] == Units(s, p + UnitLength(us[d]))
  {
  }

  /** `url_decode(dst, s + p, len)`. Writes at most `len` bytes; an exact fit counts as truncated. */
  method UrlDecode(dst: array<byte>, s: bytes, p: nat, len: nat) returns (code: Code)
    requires p < |s| && s[|s| - 1] == NUL
    requires 1 <= len <= dst.Length
    modifies dst
    ensures Delivered(dst[..], old(dst[..]), Units(s, p), len, code)
  {
    var left, d := len - 1, 0;
    var src: nat := p;
    ghost var us := Units(s, p);
    while s[src] != NUL && s[src] !in VALUE_END && left > 0
      invariant src < |s| && d + left == len - 1
      invariant d <= |us| && us[d..] == Units(s, src)
      invariant forall i :: 0 <= i < d ==> dst[i] == us[i].Meaning()
      invariant forall i :: d <= i < dst.Length ==> dst[i] == old(dst[i])
      decreases left
    {
      UnitsStep(s, src, us, d);
      if s[src] == '%' && s[src + 1] != NUL && s[src + 2] != NUL {
        dst[d] := HexPair(s[src + 1], s[src + 2]);
        src := src + 2;
      } else if s[src] == '+' {
        dst[d] := ' ';
      } else {
        dst[d] := s[src];
      }
      d, src, left := d + 1, src + 1, left - 1;
    }
    dst[d] := NUL;
    code := if left == 0 then Truncated else Success;
  }

  // ----- printing -----

  ghost function HexDigit(n: nat): byte
    requires n < 16
  {
    if n < 10 then ('0' as int + n) as char else ('a' as int + n - 10) as char
  }

  /** A byte as a printer may spell it: escaped whenever it has a meaning of its own. */
  ghost function Escape(c: byte): Unit
    requires c as int < 256
  {
    if c in VALUE_END || c in {NUL, '%', '+'} then Percent(HexDigit(c as int / 16), HexDigit(c as int % 16)) else Plain(c)
  }

  /** Any bytes as a printer may spell them. */
  ghost function Escaped(v: bytes): seq<Unit>
    requires forall i :: 0 <= i < |v| ==> v[i] as int < 256
  {
    seq(|v|, i requires 0 <= i < |v| => Escape(v[i]))
  }

  lemma EscapeMeans(c: byte)
    requires c as int < 256
    ensures Escape(c).Valid() && Escape(c).Meaning() == c
  {
  }

  /** What is printed for a value can be read and means the value. */
  lemma EscapedMeans(v: bytes)
    requires forall i :: 0 <= i < |v| ==> v[i] as int < 256
    ensures ValidText(Escaped(v)) && |Escaped(v)| == |v| && forall i :: 0 <= i < |v| ==> Escaped(v)[i].Meaning() == v[i]
  {
    hide Escape;
    forall i | 0 <= i < |v| ensures Escaped(v)[i].Valid() && Escaped(v)[i].Meaning() == v[i] {
      EscapeMeans(v[i]);
    }
  }

  ghost predicate ValidText(us: seq<Unit>) {
    forall i :: 0 <= i < |us| ==> us[i].Valid()
  }

  ghost function Text(us: seq<Unit>): bytes {
    if us == [] then [] else us[0].Spelling() + Text(us[1..])
  }

  lemma UnitAtSpelling(s: bytes, p: nat, u: Unit)
    requires u.Valid() && Matches(s, p, u.Spelling()) && p + |u.Spelling()| < |s| && s[|s| - 1] == NUL
    ensures ValueGoesOn(s, p) && UnitAt(s, p) == u && UnitLength(u) == |u.Spelling()|
    ensures forall i :: p <= i < p + |u.Spelling()| ==> s[i] != NUL && s[i] !in VALUE_END
  {
    var w := u.Spelling();
    assert w[0] == s[p];
    if u.Percent? {
      assert w[1] == s[p + 1] && w[2] == s[p + 2];
    }
  }

  /** Decoding undoes every percent-encoding, and an encoding contains no delimiter. */
  lemma {:induction false} UnitsOfText(s: bytes, p: nat, us: seq<Unit>)
    requires ValidText(us) && Matches(s, p, Text(us)) && p + |Text(us)| < |s| && s[|s| - 1] == NUL
    ensures !ValueGoesOn(s, p + |Text(us)|) ==> Units(s, p) == us
    ensures forall i :: p <= i < p + |Text(us)| ==> s[i] != NUL && s[i] !in VALUE_END
    decreases |us|
  {
    hide UnitAt, UnitLength, Matches, ValueGoesOn, Unit.Valid, Unit.Spelling;
    if us == [] {
      assert Text(us) == [];
    } else {
      var u, rest := us[0], us[1..];
      assert u.Valid() && ValidText(rest);
      assert Text(us) == u.Spelling() + Text(rest);
      MatchesConcat(s, p, u.Spelling(), Text(rest));
      UnitAtSpelling(s, p, u);
      UnitsOfText(s, p + |u.Spelling()|, rest);
      assert [u] + rest == us;
    }
  }

  // ----- what spells what -----

  /** `c` is the hexadecimal digit of `n`, a letter in either case. */
  ghost predicate HexFor(n: nat, c: byte) {
    n < 16 && if n < 10 then c as int == '0' as int + n else c as int == 'a' as int + (n - 10) || c as int == 'A' as int + (n - 10)
  }

  ghost predicate EscapeFor(c: byte, t: bytes, hi: nat, lo: nat) {
    |t| == 3 && t[0] == '%' && HexFor(hi, t[1]) && HexFor(lo, t[2]) && c as int == 16 * hi + lo
  }

  /** A byte as it may stand in a form or a path: itself unless it has a meaning of its own, `+` for a space, or `%` and its code. */
  ghost predicate Spells(t: bytes, c: byte) {
    || (t == [c] && c !in {'%', '+', '?', '&', ' ', '\t', '\r', '\n', NUL})
    || (t == ['+'] && c == ' ')
    || exists hi: nat, lo: nat :: EscapeFor(c, t, hi, lo)
  }

  lemma UnitFor(t: bytes, c: byte) returns (u: Unit)
    requires Spells(t, c)
    ensures u.Valid() && u.Spelling() == t && u.Meaning() == c
  {
    if t == [c] && c !in {'%', '+', '?', '&', ' ', '\t', '\r', '\n', NUL} {
      u := Plain(c);
    } else if t == ['+'] && c == ' ' {
      u := Plus;
    } else {
      var hi: nat, lo: nat :| EscapeFor(c, t, hi, lo);
      u := Percent(t[1], t[2]);
      assert HexPair(t[1], t[2]) as int == 16 * HexToInt(t[1]) + HexToInt(t[2]);
    }
  }

  ghost function Concat(ts: seq<bytes>): bytes {
    if ts == [] then [] else ts[0] + Concat(ts[1..])
  }

  ghost predicate AllSpell(ts: seq<bytes>, v: bytes) {
    |ts| == |v| && forall i :: 0 <= i < |v| ==> Spells(ts[i], v[i])
  }

  lemma {:induction false} UnitsFor(ts: seq<bytes>, v: bytes) returns (us: seq<Unit>)
    requires AllSpell(ts, v)
    ensures ValidText(us) && Text(us) == Concat(ts) && |us| == |v| && forall i :: 0 <= i < |v| ==> us[i].Meaning() == v[i]
    decreases |v|
  {
    hide Spells, Unit.Valid, Unit.Spelling, Unit.Meaning;
    if v == [] {
      us := [];
    } else {
      var u := UnitFor(ts[0], v[0]);
      var rest := UnitsFor(ts[1..], v[1..]);
      us := [u] + rest;
      assert us[1..] == rest;
    }
  }

  /** Whatever way the bytes of a value are spelled, decoding gives them back, and stops behind them. */
  lemma SpellingDecodes(s: bytes, p: nat, ts: seq<bytes>, v: bytes)
    requires AllSpell(ts, v) && Matches(s, p, Concat(ts)) && p + |Concat(ts)| < |s| && s[|s| - 1] == NUL
    requires s[p + |Concat(ts)|] in {'?', '&', ' ', '\t', '\r', '\n', NUL}
    ensures |Units(s, p)| == |v| && forall i :: 0 <= i < |v| ==> Units(s, p)[i].Meaning() == v[i]
  {
    hide AllSpell, Matches, Units, Concat, Text, Unit.Meaning;
    var us := UnitsFor(ts, v);
    UnitsOfText(s, p, us);
  }

  // ----- lookup -----

  ghost predicate NamedAt(s: bytes, p: nat, name: bytes) {
    Matches(s, p, name) && p + |name| < |s| && s[p + |name|] == '='
  }

  /** `find_var_value(s + p, name)` as a function of the text. */
  ghost function VarValue(s: bytes, p: nat, name: bytes): (r: Option<nat>)
    requires p < |s| && s[|s| - 1] == NUL && NUL !in name
    ensures r.Some? ==> r.value < |s|
    decreases |s| - p
  {
    if NamedAt(s, p, name) then Some(p + |name| + 1)
    else
      var q := Until(s, p, PAIR_END);
      if s[q] == '&' then VarValue(s, q + 1, name) else None
  }

  method FindVarValue(s: bytes, start: nat, name: bytes) returns (r: Option<nat>)
    requires start < |s| && s[|s| - 1] == NUL && NUL !in name
    ensures r == VarValue(s, start, name)
  {
    var p := start;
    while true
      invariant p < |s| && VarValue(s, start, name) == VarValue(s, p, name)
      decreases |s| - p
    {
      var eq := MemEqual(s, p, name);
      if eq && s[p + |name|] == '=' { return Some(p + |name| + 1); }
      p := Until(s, p, PAIR_END);
      if s[p] != '&' { break; }
      p := p + 1;
    }
    return None;
  }

  const EQ: bytes := "="
  const AMP: bytes := "&"

  /** A form variable: its name and the encoding its value is printed in. */
  datatype Pair = Pair(name: bytes, units: seq<Unit>)

  /** The form-urlencoded text of a list of pairs. */
  ghost function Form(ps: seq<Pair>): bytes {
    if ps == [] then []
    else if |ps| == 1 then Head(ps[0])
    else Head(ps[0]) + (AMP + Form(ps[1..]))
  }

  ghost predicate VarName(name: bytes) {
    forall c <- name :: c != NUL && c != '=' && c !in PAIR_END
  }

  ghost predicate GoodPairs(ps: seq<Pair>) {
    forall i :: 0 <= i < |ps| ==> GoodPair(ps[i])
  }

  /** Value of the first pair called `name`. */
  ghost function FirstNamed(ps: seq<Pair>, name: bytes): Option<seq<Unit>> {
    if ps == [] then None
    else if ps[0].name == name then Some(ps[0].units)
    else FirstNamed(ps[1..], name)
  }

  /** Where a variable's text starts, decoded. */
  ghost function ValueAt(s: bytes, at: Option<nat>): Option<seq<Unit>>
    requires |s| > 0 && s[|s| - 1] == NUL && (at.Some? ==> at.value < |s|)
  {
    if at.Some? then Some(Units(s, at.value)) else None
  }

  ghost predicate Ends(s: bytes, p: nat) {
    p < |s| && (s[p] == NUL || (s[p] in PAIR_END && s[p] != '&'))
  }

  ghost function Head(q: Pair): bytes {
    q.name + (EQ + Text(q.units))
  }

  /** A printed form is its first pair, then `&` and the rest. */
  lemma FormSplit(s: bytes, p: nat, ps: seq<Pair>)
    requires ps != [] && Matches(s, p, Form(ps))
    ensures Matches(s, p, Head(ps[0]))
    ensures |ps| == 1 ==> |Form(ps)| == |Head(ps[0])|
    ensures |ps| > 1 ==>
              var t := p + |Head(ps[0])|;
              && t < |s| && s[t] == '&' && Matches(s, t + 1, Form(ps[1..]))
              && t + 1 + |Form(ps[1..])| == p + |Form(ps)|
  {
    hide Head, Text, Matches;
    var h, rest := Head(ps[0]), Form(ps[1..]);
    if |ps| > 1 {
      MatchesConcat(s, p, h, AMP + rest);
      MatchesConcat(s, p + |h|, AMP, rest);
      AmpAt(s, p + |h|);
    }
  }

  lemma AmpAt(s: bytes, p: nat)
    requires Matches(s, p, AMP)
    ensures p < |s| && s[p] == '&'
  {
    assert AMP[0] == '&';
  }

  ghost predicate GoodPair(q: Pair) {
    VarName(q.name) && ValidText(q.units)
  }

  /** The parts of a printed pair in place, without a delimiter in them. */
  ghost predicate PairAt(s: bytes, p: nat, q: Pair) {
    && NamedAt(s, p, q.name) && Matches(s, p + |q.name| + 1, Text(q.units))
    && forall i :: p <= i < p + |Head(q)| ==> s[i] != NUL && s[i] !in PAIR_END
  }

  lemma PairLayout(s: bytes, p: nat, q: Pair)
    requires GoodPair(q) && Matches(s, p, Head(q)) && p + |Head(q)| < |s| && s[|s| - 1] == NUL
    ensures PairAt(s, p, q)
  {
    var n := |q.name|;
    MatchesConcat(s, p, q.name, EQ + Text(q.units));
    MatchesConcat(s, p + n, EQ, Text(q.units));
    assert s[p + n] == EQ[0] == '=';
    UnitsOfText(s, p + n + 1, q.units);
    forall i | p <= i < p + |Head(q)| ensures s[i] != NUL && s[i] !in PAIR_END {
      if i < p + n {
        assert s[i] == q.name[i - p] && q.name[i - p] in q.name;
      }
    }
  }

  lemma NamedExactly(s: bytes, p: nat, x: bytes, name: bytes)
    requires VarName(x) && VarName(name) && NamedAt(s, p, x)
    ensures NamedAt(s, p, name) <==> name == x
  {
    var n := |x|;
    assert |name| < n ==> s[p + |name|] == x[|name|] && x[|name|] in x;
    assert |name| > n ==> name[n] in name;
    if NamedAt(s, p, name) {
      assert forall i :: 0 <= i < n ==> name[i] == s[p + i] == x[i];
    }
  }

  /** Without a delimiter before `t`, the scan that is not at its goal resumes behind `t`. */
  lemma ScanStep(s: bytes, p: nat, t: nat, name: bytes)
    requires p <= t < |s| && s[|s| - 1] == NUL && NUL !in name && !NamedAt(s, p, name)
    requires (forall i :: p <= i < t ==> s[i] != NUL && s[i] !in PAIR_END) && (s[t] == NUL || s[t] in PAIR_END)
    ensures VarValue(s, p, name) == if s[t] == '&' then VarValue(s, t + 1, name) else None
  {
  }

  lemma GoodSplit(ps: seq<Pair>)
    requires ps != [] && GoodPairs(ps)
    ensures GoodPair(ps[0]) && GoodPairs(ps[1..])
  {
  }

  /** The printed form `ps` stands at `p`, with a delimiter or the end of the text behind it. */
  ghost predicate Carries(s: bytes, p: nat, ps: seq<Pair>) {
    GoodPairs(ps) && Matches(s, p, Form(ps)) && Ends(s, p + |Form(ps)|) && s[|s| - 1] == NUL
  }

  /** Where the first pair of a form ends, and what comes next. */
  lemma FormLayout(s: bytes, p: nat, ps: seq<Pair>)
    requires ps != [] && Carries(s, p, ps)
    ensures GoodPair(ps[0]) && PairAt(s, p, ps[0])
    ensures var t := p + |Head(ps[0])|;
      t < |s| && if |ps| == 1 then Ends(s, t) else s[t] == '&' && Carries(s, t + 1, ps[1..])
  {
    hide GoodPair, PairAt, Text, Form, Matches, Head;
    GoodSplit(ps);
    FormSplit(s, p, ps);
    PairLayout(s, p, ps[0]);
  }

  /** A scan at a pair takes that pair's value or goes on behind it. */
  lemma PairHit(s: bytes, p: nat, q: Pair)
    requires GoodPair(q) && PairAt(s, p, q) && p + |Head(q)| < |s| && s[|s| - 1] == NUL
    requires !ValueGoesOn(s, p + |Head(q)|)
    ensures ValueAt(s, VarValue(s, p, q.name)) == Some(q.units)
  {
    UnitsOfText(s, p + |q.name| + 1, q.units);
  }

  lemma GoodNames(q: Pair)
    requires GoodPair(q)
    ensures VarName(q.name)
  {
  }

  lemma PairMiss(s: bytes, p: nat, q: Pair, name: bytes)
    requires GoodPair(q) && PairAt(s, p, q) && VarName(name) && name != q.name
    requires var t := p + |Head(q)|; t < |s| && s[|s| - 1] == NUL && (s[t] == NUL || s[t] in PAIR_END)
    ensures var t := p + |Head(q)|;
      VarValue(s, p, name) == if s[t] == '&' then VarValue(s, t + 1, name) else None
  {
    hide VarValue, GoodPair, Text, ValidText;
    GoodNames(q);
    NamedExactly(s, p, q.name, name);
    ScanStep(s, p, p + |Head(q)|, name);
  }

  lemma EmptyForm(s: bytes, p: nat, name: bytes)
    requires Carries(s, p, []) && VarName(name)
    ensures p < |s| && s[|s| - 1] == NUL && NUL !in name && VarValue(s, p, name) == None
  {
    assert name != [] ==> name[0] in name;
    ScanStep(s, p, p, name);
  }

  /** What the scan does at the first pair of a form. */
  lemma FirstPair(s: bytes, p: nat, ps: seq<Pair>, name: bytes)
    requires ps != [] && Carries(s, p, ps) && VarName(name)
    ensures p < |s| && s[|s| - 1] == NUL && NUL !in name
    ensures name == ps[0].name ==> ValueAt(s, VarValue(s, p, name)) == Some(ps[0].units)
    ensures name != ps[0].name && |ps| == 1 ==> VarValue(s, p, name) == None
    ensures name != ps[0].name && |ps| > 1 ==>
              var next := p + |Head(ps[0])| + 1;
              Carries(s, next, ps[1..]) && next < |s| && VarValue(s, p, name) == VarValue(s, next, name)
  {
    hide PairAt, GoodPair, Text, Units, VarValue, Form;
    FormLayout(s, p, ps);
    if name == ps[0].name {
      PairHit(s, p, ps[0]);
    } else {
      PairMiss(s, p, ps[0], name);
    }
  }

  /** Scanning a printed form yields the value of the first pair with the wanted name. */
  lemma {:induction false} VarValueInvertsForm(s: bytes, p: nat, ps: seq<Pair>, name: bytes)
    requires Carries(s, p, ps) && VarName(name)
    ensures ValueAt(s, VarValue(s, p, name)) == FirstNamed(ps, name)
    decreases |ps|
  {
    hide Carries, VarValue, VarName, Units;
    if ps == [] {
      EmptyForm(s, p, name);
    } else {
      FirstPair(s, p, ps, name);
      if name != ps[0].name && |ps| > 1 {
        VarValueInvertsForm(s, p + |Head(ps[0])| + 1, ps[1..], name);
      }
    }
  }

  /** The same with the delimiters written out: names, pairs and the end of a form. */
  lemma FormReads(s: bytes, p: nat, ps: seq<Pair>, name: bytes)
    requires |s| > 0 && s[|s| - 1] == NUL && Matches(s, p, Form(ps)) && p + |Form(ps)| < |s|
    requires s[p + |Form(ps)|] in {' ', '\t', '\r', '\n', NUL}
    requires forall i, c :: 0 <= i < |ps| && c in ps[i].name ==> c !in {'=', '&', ' ', '\t', '\r', '\n', NUL}
    requires forall i :: 0 <= i < |ps| ==> ValidText(ps[i].units)
    requires forall c :: c in name ==> c !in {'=', '&', ' ', '\t', '\r', '\n', NUL}
    ensures NUL !in name && p < |s| && ValueAt(s, VarValue(s, p, name)) == FirstNamed(ps, name)
  {
    hide Form, Matches, ValidText, VarValue;
    VarValueInvertsForm(s, p, ps, name);
  }

  // ----- sb_get_var -----

  /** Start of the text of a variable in the query string of the request line. */
  ghost function InQuery(s: bytes, name: bytes): (r: Option<nat>)
    requires |s| > 0 && s[|s| - 1] == NUL && NUL !in name
    ensures r.Some? ==> r.value < |s|
  {
    var q := Until(s, 0, {'?', '\r'});
    if s[q] == '?' then VarValue(s, q + 1, name) else None
  }

  /** Start of the text of a variable: the query string first, then the request body. */
  ghost function Locate(s: bytes, dataIdx: nat, name: bytes): (r: Option<nat>)
    requires dataIdx < |s| && s[|s| - 1] == NUL && NUL !in name
    ensures r.Some? ==> r.value < |s|
  {
    if InQuery(s, name).None? && dataIdx > 0 then VarValue(s, dataIdx, name) else InQuery(s, name)
  }

  /** `sb_get_var` on a stream whose `recv_buf` is `s` (with its terminator) and body offset `dataIdx`. */
  method GetVar(s: bytes, dataIdx: nat, name: bytes, dst: array<byte>, len: nat) returns (code: Code)
    requires dataIdx < |s| && s[|s| - 1] == NUL && NUL !in name
    requires 1 <= len <= dst.Length
    modifies dst
    ensures match ValueAt(s, Locate(s, dataIdx, name))
            case None => code == NotFound && dst[0] == NUL && forall i :: 0 < i < dst.Length ==> dst[i] == old(dst[i])
            case Some(us) => Delivered(dst[..], old(dst[..]), us, len, code)
  {
    var q := Until(s, 0, {'?', '\r'});
    var at := None;
    if s[q] == '?' {
      at := FindVarValue(s, q + 1, name);
    }
    if at.None? && dataIdx > 0 {
      at := FindVarValue(s, dataIdx, name);
    }
    if at.None? {
      dst[0] := NUL;
      return NotFound;
    }
    code := UrlDecode(dst, s, at.value, len);
  }

  /** The request target carries the query `qs` (`?` at `a`), or no query at all. */
  ghost predicate TargetCarries(s: bytes, a: nat, qs: seq<Pair>) {
    && a < |s| && s[a] in {NUL, '?', '\r'} && (forall i :: 0 <= i < a ==> s[i] !in {NUL, '?', '\r'})
    && if s[a] == '?' then Carries(s, a + 1, qs) else qs == []
  }

  /** The request body at `dataIdx` is the form `bs`, or there is no body. */
  ghost predicate BodyCarries(s: bytes, dataIdx: nat, bs: seq<Pair>) {
    if dataIdx > 0 then Carries(s, dataIdx, bs) else bs == []
  }

  lemma InQueryInvertsTarget(s: bytes, a: nat, qs: seq<Pair>, name: bytes)
    requires VarName(name) && |s| > 0 && s[|s| - 1] == NUL && TargetCarries(s, a, qs)
    ensures ValueAt(s, InQuery(s, name)) == FirstNamed(qs, name)
  {
    assert Until(s, 0, {'?', '\r'}) == a;
    if s[a] == '?' {
      VarValueInvertsForm(s, a + 1, qs, name);
    }
  }

  /** The variable found is the first of that name in the query, else the first in the body. */
  lemma LocateInvertsRequest(s: bytes, a: nat, qs: seq<Pair>, dataIdx: nat, bs: seq<Pair>, name: bytes)
    requires VarName(name)
    requires dataIdx < |s| && s[|s| - 1] == NUL && TargetCarries(s, a, qs) && BodyCarries(s, dataIdx, bs)
    ensures ValueAt(s, Locate(s, dataIdx, name)) == FirstNamed(qs + bs, name)
  {
    InQueryInvertsTarget(s, a, qs, name);
    if dataIdx > 0 {
      VarValueInvertsForm(s, dataIdx, bs, name);
    }
    FirstNamedConcat(qs, bs, name);
  }

  lemma {:induction false} FirstNamedConcat(ps: seq<Pair>, qs: seq<Pair>, name: bytes)
    ensures FirstNamed(ps + qs, name) == if FirstNamed(ps, name).Some? then FirstNamed(ps, name) else FirstNamed(qs, name)
  {
    if ps == [] {
      assert ps + qs == qs;
    } else {
      assert (ps + qs)[1..] == ps[1..] + qs;
      FirstNamedConcat(ps[1..], qs, name);
    }
  }
}
