/** The growable byte buffer of sandbird.c (`sb_Buffer`), with allocation that may fail at any time. */
module Buffer {
  import opened Prelude
  import opened Codes

  ghost predicate PowerOfTwo(n: nat)
    decreases n
  {
    n == 1 || (n > 1 && n % 2 == 0 && PowerOfTwo(n / 2))
  }

  lemma PowerOfTwo8192()
    ensures PowerOfTwo(8192)
  {
  }

  /** Decimal text of `%d`. */
  function Decimal(n: int): (d: bytes)
    ensures d != [] && forall i :: 0 <= i < |d| ==> d[i] == '-' || '0' <= d[i] <= '9'
    decreases if n < 0 then 1 else 0, if n < 0 then -n else n
  {
    if n < 0 then ['-'] + Decimal(-n)
    else if n < 10 then [('0' as int + n) as char]
    else Decimal(n / 10) + [('0' as int + n % 10) as char]
  }

  datatype Arg = Str(text: bytes) | Int(n: int)

  function ArgText(a: Arg): bytes {
    match a case Str(t) => t case Int(n) => Decimal(n)
  }

  /** The formats modelled: text, `%s` and `%d`, each with its argument. */
  predicate FormatOk(fmt: bytes, args: seq<Arg>) {
    if fmt == [] then args == []
    else if fmt[0] != '%' then FormatOk(fmt[1..], args)
    else |fmt| >= 2 && args != [] && fmt[1] == (if args[0].Str? then 's' else 'd') && FormatOk(fmt[2..], args[1..])
  }

  function Expand(fmt: bytes, args: seq<Arg>): bytes
    requires FormatOk(fmt, args)
  {
    if fmt == [] then []
    else if fmt[0] != '%' then [fmt[0]] + Expand(fmt[1..], args)
    else ArgText(args[0]) + Expand(fmt[2..], args[1..])
  }

  /** The text of the format item at `i`, `k` arguments being used up. */
  function ItemText(fmt: bytes, args: seq<Arg>, i: nat, k: nat): bytes
    requires i < |fmt| && k <= |args| && FormatOk(fmt[i..], args[k..])
  {
    if fmt[i] == '%' then ArgText(args[k..][0]) else [fmt[i]]
  }

  /** What one item of the format consumes and yields, behind the text `done` so far. */
  lemma ExpandStep(fmt: bytes, args: seq<Arg>, i: nat, k: nat, done: bytes)
    requires i < |fmt| && k <= |args| && FormatOk(fmt[i..], args[k..])
    ensures var i', k' := if fmt[i] == '%' then i + 2 else i + 1, if fmt[i] == '%' then k + 1 else k;
      && i' <= |fmt| && k' <= |args| && FormatOk(fmt[i'..], args[k'..])
      && done + Expand(fmt[i..], args[k..]) == (done + ItemText(fmt, args, i, k)) + Expand(fmt[i'..], args[k'..])
  {
    hide ArgText;
    var f, a := fmt[i..], args[k..];
    if fmt[i] == '%' {
      assert f[2..] == fmt[i + 2..] && a[1..] == args[k + 1..];
      Assoc(done, ArgText(a[0]), Expand(f[2..], a[1..]));
    } else {
      assert f[1..] == fmt[i + 1..];
      Assoc(done, [f[0]], Expand(f[1..], a));
    }
  }

  lemma Assoc(a: bytes, b: bytes, c: bytes)
    ensures a + (b + c) == (a + b) + c
  {
  }

  class Buffer {
    var s: array<byte>  // the allocated block: `cap` is its length
    var len: nat
    const ample: bool  // there is always memory for it
    ghost var moved: nat  // bytes copied by the reallocations of PushChar
    ghost var peak: nat  // largest length ever reached

    /** Capacity 0 or a power of two; the copying so far is paid for by the bytes pushed. */
    ghost predicate Valid()
      reads this
    {
      && len <= s.Length && len <= peak
      && (s.Length == 0 || PowerOfTwo(s.Length))
      && (moved == 0 || (moved < s.Length && moved < 2 * peak))
    }

    ghost function Contents(): bytes
      requires len <= s.Length
      reads this, s
    {
      s[..len]
    }

    constructor (ample: bool)
      ensures Valid() && Contents() == [] && fresh(s) && moved == 0 && peak == 0 && this.ample == ample
    {
      this.ample := ample;
      s := new byte[0];
      len := 0;
      moved, peak := 0, 0;
    }

    /** A larger block with the same contents; without memory for it nothing changes. */
    method Reserve(n: nat) returns (err: Code)
      requires Valid() && PowerOfTwo(n)
      modifies this
      ensures Valid() && len == old(len) && moved == old(moved) && peak == old(peak)
      ensures Contents() == old(Contents())
      ensures s == old(s) || fresh(s)
      ensures err == Success || (err == OutOfMem && !ample)
      ensures err == Success ==> s.Length == if old(s.Length) >= n then old(s.Length) else n
      ensures err == OutOfMem ==> s == old(s) && old(s.Length) < n
    {
      if s.Length >= n { return Success; }
      var granted: bool := *;
      if !granted && !ample { return OutOfMem; }
      var p := new byte[n];
      forall i | 0 <= i < len { p[i] := s[i]; }
      s := p;
      return Success;
    }

    /** Appends a byte. When the block is full its contents are copied to one of twice its size. */
    method PushChar(chr: byte) returns (err: Code)
      requires Valid()
      modifies this, s
      ensures Valid() && (s == old(s) || fresh(s))
      ensures err == Success || (err == OutOfMem && !ample)
      ensures err == Success ==> Contents() == old(Contents()) + [chr]
      ensures err == OutOfMem ==> s == old(s) && s[..] == old(s[..]) && len == old(len) == s.Length
      ensures moved == old(moved) + if s == old(s) then 0 else old(len)
      ensures peak == if len > old(peak) then len else old(peak)
    {
      if len == s.Length {
        ghost var copied := len;
        err := Reserve(s.Length * 2 + if s.Length == 0 then 1 else 0);
        if err != Success { return; }
        moved := moved + copied;
      }
      s[len] := chr;
      len := len + 1;
      if len > peak { peak := len; }
      err := Success;
    }

    /** `buf->len = orig_len` */
    method Rollback(origLen: nat, ghost before: bytes, ghost tail: bytes)
      requires Valid() && |before| == origLen && Contents() == before + tail
      modifies this`len
      ensures Valid() && Contents() == before
    {
      len := origLen;
      assert Contents() == (before + tail)[..origLen];
    }

    /** Appends the whole string or nothing. */
    method PushStr(p: bytes) returns (err: Code)
      requires Valid()
      modifies this, s
      ensures Valid() && (s == old(s) || fresh(s))
      ensures err == Success || (err == OutOfMem && !ample)
      ensures Contents() == if err == Success then old(Contents()) + p else old(Contents())
    {
      hide PowerOfTwo, Decimal;
      var origLen := len;
      var i := 0;
      while i < |p|
        invariant i <= |p| && Valid() && (s == old(s) || fresh(s))
        invariant len == origLen + i && Contents() == old(Contents()) + p[..i]
      {
        err := PushChar(p[i]);
        if err != Success {
          Rollback(origLen, old(Contents()), p[..i]);
          return;
        }
        i := i + 1;
      }
      return Success;
    }

    /** Drops the first `n` bytes, moving the rest down. */
    method Shift(n: nat)
      requires Valid() && n <= len
      modifies this, s
      ensures Valid() && s == old(s) && moved == old(moved) && peak == old(peak)
      ensures Contents() == old(Contents())[n..]
    {
      len := len - n;
      forall i | 0 <= i < len { s[i] := s[i + n]; }
    }

    /** `buf->len = fread(buf->s, 1, buf->cap, fp)` on an empty buffer. */
    method Load(data: bytes)
      requires Valid() && len == 0 && |data| <= s.Length
      modifies this, s
      ensures Valid() && s == old(s) && Contents() == data
    {
      forall i | 0 <= i < |data| { s[i] := data[i]; }
      len := |data|;
      if len > peak { peak := len; }
    }

    /** Puts a NUL behind the contents without counting it. */
    method NullTerminate() returns (err: Code)
      requires Valid()
      modifies this, s
      ensures Valid() && (s == old(s) || fresh(s))
      ensures err == Success || (err == OutOfMem && !ample)
      ensures Contents() == old(Contents())
      ensures err == Success ==> len < s.Length && s[len] == NUL
    {
      err := PushChar(NUL);
      if err != Success { return; }
      len := len - 1;
    }

    /** One round of the format loop. */
    method PushItem(fmt: bytes, args: seq<Arg>, i: nat, k: nat) returns (err: Code)
      requires Valid() && i < |fmt| && k <= |args| && FormatOk(fmt[i..], args[k..])
      modifies this, s
      ensures Valid() && (s == old(s) || fresh(s))
      ensures err == Success || (err == OutOfMem && !ample)
      ensures Contents() == if err == Success then old(Contents()) + ItemText(fmt, args, i, k) else old(Contents())
    {
      if fmt[i] == '%' {
        err := PushStr(ArgText(args[k]));
      } else {
        err := PushChar(fmt[i]);
      }
    }

    /** `sb_buffer_vwritef`: appends the whole expansion or nothing. */
    method Writef(fmt: bytes, args: seq<Arg>) returns (err: Code)
      requires Valid() && FormatOk(fmt, args)
      modifies this, s
      ensures Valid() && (s == old(s) || fresh(s))
      ensures err == Success || (err == OutOfMem && !ample)
      ensures Contents() == if err == Success then old(Contents()) + Expand(fmt, args) else old(Contents())
    {
      hide PowerOfTwo, Decimal;
      var origLen := len;
      var i, k: nat := 0, 0;
      ghost var before, done: bytes := Contents(), [];
      while i < |fmt|
        invariant i <= |fmt| && k <= |args| && FormatOk(fmt[i..], args[k..])
        invariant Valid() && (s == old(s) || fresh(s))
        invariant Contents() == before + done
        invariant done + Expand(fmt[i..], args[k..]) == Expand(fmt, args)
      {
        ExpandStep(fmt, args, i, k, done);
        err := PushItem(fmt, args, i, k);
        if err != Success {
          Rollback(origLen, before, done);
          return;
        }
        Assoc(before, done, ItemText(fmt, args, i, k));
        done := done + ItemText(fmt, args, i, k);
        i, k := if fmt[i] == '%' then i + 2 else i + 1, if fmt[i] == '%' then k + 1 else k;
      }
      return Success;
    }
  }

  /** Text without `%` stands for itself. */
  lemma {:induction false} ExpandText(text: bytes, fmt: bytes, args: seq<Arg>)
    requires '%' !in text && FormatOk(fmt, args)
    ensures FormatOk(text + fmt, args) && Expand(text + fmt, args) == text + Expand(fmt, args)
  {
    var all := text + fmt;
    if text == [] {
      assert all == fmt;
    } else {
      var c, rest := text[0], text[1..];
      ExpandText(rest, fmt, args);
      assert all[0] == c && all[1..] == rest + fmt;
      assert Expand(all, args) == [c] + Expand(rest + fmt, args);
      Assoc([c], rest, Expand(fmt, args));
      assert [c] + rest == text;
    }
  }

  // ----- what a run of pushes costs -----

  /** The contents, where the fields allow for them. */
  ghost function Held(b: Buffer): bytes
    reads b, b.s
  {
    if b.len <= b.s.Length then b.Contents() else []
  }

  datatype Op = Append(c: byte) | Drop(n: nat)

  /** The contents after one operation, an `Append` having failed if `err` says so. */
  function Applied(before: bytes, op: Op, err: Code): bytes {
    match op
    case Append(c) => if err == Success then before + [c] else before
    case Drop(n) => if n < |before| then before[n..] else []
  }

  /** The contents after these operations. */
  function After(ops: seq<Op>, errs: seq<Code>): bytes
    requires |errs| == |ops|
  {
    if ops == [] then []
    else
      var k := |ops| - 1;
      Applied(After(ops[..k], errs[..k]), ops[k], errs[k])
  }

  /** The length after the first `i` operations. */
  ghost function LengthAfter(ops: seq<Op>, errs: seq<Code>, i: nat): nat
    requires i <= |ops| == |errs|
  {
    |After(ops[..i], errs[..i])|
  }

  /** `longest` is the largest length on the way. */
  ghost predicate Longest(ops: seq<Op>, errs: seq<Code>, longest: nat)
    requires |errs| == |ops|
  {
    && (exists i :: 0 <= i <= |ops| && longest == LengthAfter(ops, errs, i))
    && (forall i :: 0 <= i <= |ops| ==> LengthAfter(ops, errs, i) <= longest)
  }

  /** Only an append fails, and only where the block may be full: at a length that is 0 or a power of two. */
  ghost predicate FailsFull(ops: seq<Op>, errs: seq<Code>)
    requires |errs| == |ops|
  {
    forall i :: 0 <= i < |ops| && errs[i] != Success ==> FailedFull(ops[i], errs[i], LengthAfter(ops, errs, i))
  }

  ghost predicate FailedFull(op: Op, err: Code, n: nat) {
    op.Append? && err == OutOfMem && (n == 0 || PowerOfTwo(n))
  }

  lemma FailsFullStep(ops: seq<Op>, errs: seq<Code>, op: Op, err: Code)
    requires |ops| == |errs| && FailsFull(ops, errs) && (err != Success ==> FailedFull(op, err, |After(ops, errs)|))
    ensures FailsFull(ops + [op], errs + [err])
  {
    hide After, FailedFull;
    var next, news := ops + [op], errs + [err];
    forall i | 0 <= i < |next| && news[i] != Success ensures FailedFull(next[i], news[i], LengthAfter(next, news, i)) {
      assert next[..i] == ops[..i] && news[..i] == errs[..i];
      assert i == |ops| ==> ops[..i] == ops && errs[..i] == errs;
    }
  }

  lemma LongestStep(ops: seq<Op>, errs: seq<Code>, op: Op, err: Code, longest: nat)
    requires |ops| == |errs| && Longest(ops, errs, longest)
    ensures var n := |After(ops + [op], errs + [err])|;
      Longest(ops + [op], errs + [err], if n > longest then n else longest)
  {
    hide After;
    var next, news := ops + [op], errs + [err];
    assert next[..|next|] == next && news[..|news|] == news;
    assert LengthAfter(next, news, |next|) == |After(next, news)|;
    forall i | 0 <= i <= |ops| ensures LengthAfter(next, news, i) == LengthAfter(ops, errs, i) {
      assert next[..i] == ops[..i] && news[..i] == errs[..i];
    }
  }

  lemma AfterStep(ops: seq<Op>, errs: seq<Code>, op: Op, err: Code)
    requires |ops| == |errs|
    ensures After(ops + [op], errs + [err]) == Applied(After(ops, errs), op, err)
  {
    assert (ops + [op])[..|ops|] == ops && (errs + [err])[..|errs|] == errs;
  }

  /**
   * Any run of pushes and shifts on a new buffer, whichever allocations fail; nothing else does. It holds exactly what has been pushed and not
   * been dropped, and all reallocations together copy less than twice the largest length: the total is counted here byte by byte.
   */
  method RunOps(ops: seq<Op>, ample: bool) returns (b: Buffer, errs: seq<Code>, ghost copied: nat, ghost longest: nat)
    ensures fresh(b) && b.Valid() && |errs| == |ops| && b.Contents() == After(ops, errs)
    ensures ample ==> forall i :: 0 <= i < |errs| ==> errs[i] == Success
    ensures FailsFull(ops, errs)
    ensures Longest(ops, errs, longest) && copied == b.moved && (copied == 0 || copied < 2 * longest)
  {
    b := new Buffer(ample);
    errs, copied, longest := [], 0, 0;
    NothingYet(ops);
    hide *;
    for i := 0 to |ops|
      invariant fresh(b) && fresh(b.s) && b.Valid() && |errs| == i && RanTo(ops, i, errs, Held(b), longest)
      invariant b.ample == ample && (ample ==> forall j :: 0 <= j < i ==> errs[j] == Success)
      invariant b.moved == copied && b.peak == longest
    {
      var err;
      ghost var more;
      ghost var before := Held(b);
      err, more := Do(b, ops[i]);
      RanStep(ops, i, errs, err, before, Held(b), longest);
      errs, copied := errs + [err], copied + more;
      longest := if |Held(b)| > longest then |Held(b)| else longest;
    }
    RanAll(ops, errs, b, longest);
  }

  /** The first `i` operations have been made. */
  ghost predicate RanTo(ops: seq<Op>, i: nat, errs: seq<Code>, contents: bytes, longest: nat) {
    && i == |errs| <= |ops| && contents == After(ops[..i], errs) && Longest(ops[..i], errs, longest) && FailsFull(ops[..i], errs)
  }

  lemma NothingYet(ops: seq<Op>)
    ensures RanTo(ops, 0, [], [], 0)
  {
    var none, errs: seq<Code> := ops[..0], [];
    assert none[..0] == none && errs[..0] == errs;
    assert LengthAfter(none, errs, 0) == 0;
  }

  lemma RanStep(ops: seq<Op>, i: nat, errs: seq<Code>, err: Code, before: bytes, after: bytes, longest: nat)
    requires i < |ops| && RanTo(ops, i, errs, before, longest) && after == Applied(before, ops[i], err)
    requires err == Success || FailedFull(ops[i], err, |before|)
    ensures RanTo(ops, i + 1, errs + [err], after, if |after| > longest then |after| else longest)
  {
    hide After, Longest, FailsFull, FailedFull, Applied;
    var done := ops[..i];
    assert ops[..i + 1] == done + [ops[i]];
    AfterStep(done, errs, ops[i], err);
    LongestStep(done, errs, ops[i], err, longest);
    FailsFullStep(done, errs, ops[i], err);
  }

  lemma RanAll(ops: seq<Op>, errs: seq<Code>, b: Buffer, longest: nat)
    requires b.Valid() && RanTo(ops, |ops|, errs, Held(b), longest) && b.peak == longest
    ensures |errs| == |ops| && b.Contents() == After(ops, errs) && FailsFull(ops, errs) && Longest(ops, errs, longest)
    ensures b.moved == 0 || b.moved < 2 * longest
  {
    hide After, Longest, FailsFull;
    assert ops[..|ops|] == ops;
  }

  /** One operation, and how many bytes it copies to another block. */
  method Do(b: Buffer, op: Op) returns (err: Code, ghost more: nat)
    requires b.Valid()
    modifies b, b.s
    ensures b.Valid() && (b.s == old(b.s) || fresh(b.s)) && b.moved == old(b.moved) + more
    ensures err == Success || (!b.ample && FailedFull(op, err, |old(b.Contents())|))
    ensures more == if b.s == old(b.s) then 0 else old(b.len)
    ensures b.peak == if b.len > old(b.peak) then b.len else old(b.peak)
    ensures b.Contents() == Applied(old(b.Contents()), op, err)
  {
    hide PowerOfTwo;
    err := Success;
    match op {
      case Append(c) => err := b.PushChar(c);
      case Drop(n) => b.Shift(if n < b.len then n else b.len);
    }
    more := if b.s == old(b.s) then 0 else old(b.len);
  }
}
