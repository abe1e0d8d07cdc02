/** Bytes, C strings and the few libc string functions the parsers are written in. */
module Prelude {
  /** A C `char`, written as the character with that code; arithmetic on codes keeps to eight bits. */
  type byte = char
  type bytes = seq<byte>

  const NUL: byte := '\0'
  const CRLF: bytes := "\r\n"

  datatype Option<+T> = None | Some(value: T)

  /** `x` stands in `s` at offset `p`. */
  predicate Matches(s: bytes, p: nat, x: bytes) {
    p + |x| <= |s| && forall i :: 0 <= i < |x| ==> x[i] == s[p + i]
  }

  lemma MatchesConcat(s: bytes, p: nat, x: bytes, y: bytes)
    ensures Matches(s, p, x + y) <==> Matches(s, p, x) && Matches(s, p + |x|, y)
  {
    var xy := x + y;
    assert forall i :: 0 <= i < |x| ==> x[i] == xy[i];
    assert forall i :: 0 <= i < |y| ==> y[i] == xy[|x| + i];
    if Matches(s, p, x) && Matches(s, p + |x|, y) {
      forall i | 0 <= i < |xy| ensures xy[i] == s[p + i] {
        if i >= |x| { assert xy[i] == y[i - |x|]; }
      }
    }
  }

  lemma MatchesSlice(s: bytes, p: nat, x: bytes)
    ensures Matches(s, p, x) <==> p + |x| <= |s| && s[p..p + |x|] == x
  {
  }

  predicate CrLfAt(s: bytes, p: nat) {
    p + 1 < |s| && s[p] == '\r' && s[p + 1] == '\n'
  }

  lemma MatchesCrLf(s: bytes, p: nat)
    ensures Matches(s, p, CRLF) == CrLfAt(s, p)
  {
    assert CRLF[0] == '\r' && CRLF[1] == '\n';
  }

  /** A C string with its terminator: the only NUL is the last byte. */
  ghost predicate IsCString(s: bytes) {
    |s| > 0 && s[|s| - 1] == NUL && forall i :: 0 <= i < |s| - 1 ==> s[i] != NUL
  }

  /** Offset of the first byte at or after `p` that is in `stop` or is NUL: `p + strcspn(s + p, stop)`. */
  function Until(s: bytes, p: nat, stop: set<byte>): (q: nat)
    requires p < |s| && s[|s| - 1] == NUL
    ensures p <= q < |s| && (s[q] in stop || s[q] == NUL)
    ensures forall i :: p <= i < q ==> s[i] !in stop && s[i] != NUL
    decreases |s| - p
  {
    if s[p] in stop || s[p] == NUL then p else Until(s, p + 1, stop)
  }

  /** Offset of the first byte at or after `p` that is not in `skip`: `p + strspn(s + p, skip)`. */
  function Past(s: bytes, p: nat, skip: set<byte>): (q: nat)
    requires p < |s| && s[|s| - 1] == NUL && NUL !in skip
    ensures p <= q < |s| && s[q] !in skip
    ensures forall i :: p <= i < q ==> s[i] in skip
    decreases |s| - p
  {
    if s[p] in skip then Past(s, p + 1, skip) else p
  }

  function ToLower(c: byte): byte {
    if 'A' <= c <= 'Z' then (c as int + 32) as char else c
  }

  /** `mem_equal(s + p, x, |x|)`. A mismatch before the end of `s` stops the loop in time. */
  method MemEqual(s: bytes, p: nat, x: bytes) returns (eq: bool)
    requires p + |x| <= |s| || (p < |s| && s[|s| - 1] == NUL && NUL !in x)
    ensures eq == Matches(s, p, x)
    ensures eq && p < |s| && s[|s| - 1] == NUL && NUL !in x ==> p + |x| < |s|
  {
    var k := 0;
    while k < |x|
      invariant k <= |x| && (p + |x| <= |s| || p + k < |s|)
      invariant p < |s| && s[|s| - 1] == NUL && NUL !in x ==> p + k < |s|
      invariant forall i :: 0 <= i < k ==> x[i] == s[p + i]
    {
      if s[p + k] != x[k] { return false; }
      k := k + 1;
    }
    return true;
  }

  /** `mem_equal(s + p, "\r\n", 2)` */
  method AtCrLf(s: bytes, p: nat) returns (yes: bool)
    requires p < |s| && s[|s| - 1] == NUL
    ensures yes == CrLfAt(s, p)
  {
    MatchesCrLf(s, p);
    yes := MemEqual(s, p, CRLF);
  }
}
