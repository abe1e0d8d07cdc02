/** The buffer that collects the body of an HTTP response (`http_response_body_t` of http_client.c). */
module ResponseBody {
  import opened Prelude

  const SIZE_LIMIT := 0x1_0000_0000_0000_0000  // of a `size_t`
  const HALF_LIMIT := 0x8000_0000_0000_0000
  const FIRST_SIZE := 512

  /** `n << 1` in 64 bits */
  function Doubled(n: nat): (d: nat)
    requires n < SIZE_LIMIT
    ensures d < SIZE_LIMIT && (n < HALF_LIMIT ==> d == 2 * n) && (n >= HALF_LIMIT ==> d < n)
  {
    if n < HALF_LIMIT then 2 * n else 2 * n - SIZE_LIMIT
  }

  /** `a + b` in 64 bits */
  function Sum(a: nat, b: nat): (s: nat)
    requires a < SIZE_LIMIT && b < SIZE_LIMIT
    ensures s < SIZE_LIMIT && (a + b < SIZE_LIMIT ==> s == a + b) && (a + b >= SIZE_LIMIT ==> s < a)
  {
    if a + b < SIZE_LIMIT then a + b else a + b - SIZE_LIMIT
  }

  /** The capacity the loop ends with that tries `size` and goes on doubling: just what is needed when doubling overflows. */
  function Grown(size: nat, need: nat): nat
    requires size < SIZE_LIMIT
    decreases need + 1 - size
  {
    if size > need then size else if Doubled(size) > size then Grown(Doubled(size), need) else need
  }

  /** The capacity for `length` more bytes. */
  function SizeFor(sz: nat, length: nat): nat
    requires sz < SIZE_LIMIT
  {
    if sz == 0 then Grown(FIRST_SIZE, length) else if Doubled(sz) > sz then Grown(Doubled(sz), sz + length) else sz + length
  }

  /** The new capacity is enough, and at most twice what is needed or 512 bytes; just what is needed only from 2^63 bytes on. */
  lemma {:induction false} GrownBounds(size: nat, need: nat)
    requires 0 < size < SIZE_LIMIT && need < SIZE_LIMIT && (size <= FIRST_SIZE || size <= 2 * need)
    ensures need <= Grown(size, need) < SIZE_LIMIT
    ensures Grown(size, need) != need ==> Grown(size, need) <= FIRST_SIZE || Grown(size, need) <= 2 * need
    ensures Grown(size, need) == need ==> need >= HALF_LIMIT
    decreases need + 1 - size
  {
    if size <= need && Doubled(size) > size {
      GrownBounds(Doubled(size), need);
    }
  }

  /** The loop that picks a new capacity. */
  method NewSize(sz: nat, length: nat) returns (newSz: nat)
    requires sz + length < SIZE_LIMIT && length > 0
    ensures newSz == SizeFor(sz, length) && sz + length <= newSz < SIZE_LIMIT
    ensures newSz != sz + length ==> newSz <= FIRST_SIZE || newSz <= 2 * (sz + length)
    ensures newSz == sz + length ==> newSz >= HALF_LIMIT
  {
    ghost var need := sz + length;
    var lastTry := sz;
    newSz := if sz != 0 then Doubled(sz) else FIRST_SIZE;
    if newSz > lastTry {
      GrownBounds(newSz, need);
    }
    while newSz > lastTry && newSz <= sz + length
      invariant lastTry <= need && newSz < SIZE_LIMIT
      invariant if lastTry == 0 then newSz == FIRST_SIZE else newSz == Doubled(lastTry)
      invariant SizeFor(sz, length) == if newSz > lastTry then Grown(newSz, need) else need
      decreases need - lastTry
    {
      lastTry, newSz := newSz, Doubled(newSz);
    }
    if newSz <= lastTry {
      newSz := sz + length;
    }
  }

  // ----- what any sequence of operations comes to -----

  /** A chunk, with whether memory suffices should it need more room; a reset; a move. */
  datatype Op = Chunk(bytes: bytes, memory: bool) | Reset | Move

  /** The body held and the capacity. */
  datatype Held = Held(body: bytes, sz: nat)

  ghost predicate Fits(h: Held) {
    |h.body| <= h.sz < SIZE_LIMIT
  }

  /** The chunk is taken: it fits, or there is memory for a larger block whose size does not overflow. */
  predicate Takes(h: Held, length: nat, memory: bool) {
    |h.body| + length <= h.sz || (h.sz + length < SIZE_LIMIT && memory)
  }

  function Applied(h: Held, op: Op): Held
    requires h.sz < SIZE_LIMIT
  {
    match op
    case Chunk(c, memory) =>
      if !Takes(h, |c|, memory) then h.(body := [])
      else Held(h.body + c, if |h.body| + |c| <= h.sz then h.sz else SizeFor(h.sz, |c|))
    case Reset => h.(body := [])
    case Move => if h.body == [] then h else Held([], 0)
  }

  /** What the caller sees: whether a chunk was taken, and what a move hands over. */
  datatype Seen = Seen(ok: bool, moved: Option<bytes>)

  function SeenOf(h: Held, op: Op): Seen {
    Seen(op.Chunk? ==> Takes(h, |op.bytes|, op.memory), if op.Move? then Some(h.body) else None)
  }

  /** The chunks since the last reset, move or refused chunk. */
  function Collected(ops: seq<Op>, seen: seq<Seen>): bytes
    requires |ops| == |seen|
  {
    if ops == [] then []
    else
      var n := |ops| - 1;
      match ops[n]
      case Chunk(c, _) => if seen[n].ok then Collected(ops[..n], seen[..n]) + c else []
      case Reset => []
      case Move => []
  }

  /** Each operation does what it does to what is held, and shows what it shows. */
  ghost predicate Steps(ops: seq<Op>, seen: seq<Seen>, helds: seq<Held>) {
    && |seen| == |ops| && |helds| == |ops| + 1 && (forall i :: 0 <= i <= |ops| ==> Fits(helds[i]))
    && forall i {:trigger ops[i]} :: 0 <= i < |ops| ==> seen[i] == SeenOf(helds[i], ops[i]) && helds[i + 1] == Applied(helds[i], ops[i])
  }

  /** The body is what has been taken since the last reset, move or refusal; that is also what a move hands over. */
  lemma {:induction false} HeldIsCollected(ops: seq<Op>, seen: seq<Seen>, helds: seq<Held>, n: nat)
    requires Steps(ops, seen, helds) && n <= |ops| && helds[0].body == []
    ensures helds[n].body == Collected(ops[..n], seen[..n])
    ensures n < |ops| && ops[n].Move? ==> seen[n].moved == Some(Collected(ops[..n], seen[..n]))
    decreases n
  {
    if n > 0 {
      var k := n - 1;
      HeldIsCollected(ops, seen, helds, k);
      assert ops[..n][..k] == ops[..k] && seen[..n][..k] == seen[..k];
      assert seen[k] == SeenOf(helds[k], ops[k]) && helds[k + 1] == Applied(helds[k], ops[k]);
    }
  }

  class ResponseBody {
    var used: nat
    var sz: nat
    var data: array?<byte>

    ghost predicate Valid()
      reads this, data
    {
      used <= sz < SIZE_LIMIT && (data == null ==> sz == 0) && (data != null ==> data.Length == sz)
    }

    ghost function Body(): bytes
      requires Valid()
      reads this, data
    {
      if data == null then [] else data[..used]
    }

    ghost function View(): Held
      requires Valid()
      reads this, data
    {
      Held(Body(), sz)
    }

    constructor ()
      ensures Valid() && Body() == [] && data == null
    {
      used, sz, data := 0, 0, null;
    }

    /** `http_response_body_write_callback`: takes the whole chunk, or returns 0 and forgets what it had. */
    method Write(chunk: bytes, memory: bool) returns (n: nat)
      requires Valid() && |chunk| < SIZE_LIMIT
      modifies this, data
      ensures Valid() && (data == old(data) || fresh(data))
      ensures View() == Applied(old(View()), Chunk(chunk, memory))
      ensures n == if Takes(old(View()), |chunk|, memory) then |chunk| else 0
      ensures |chunk| > 0 ==> (n == |chunk| <==> |chunk| <= old(sz - used) || (old(sz) + |chunk| < SIZE_LIMIT && memory))
    {
      hide SizeFor;
      var length := |chunk|;
      if sz - used < length {
        if Sum(sz, length) < sz {
          used := 0;
          return 0;
        }
        var newSz := NewSize(sz, length);
        if !memory {
          used := 0;
          return 0;
        }
        Realloc(newSz);
      }
      Append(chunk);
      return length;
    }

    /** `memcpy` behind what is used */
    method Append(chunk: bytes)
      requires Valid() && used + |chunk| <= sz
      modifies this`used, data
      ensures Valid() && Body() == old(Body()) + chunk
    {
      if data != null {
        forall i | 0 <= i < |chunk| { data[used + i] := chunk[i]; }
        assert data[..used + |chunk|] == old(data[..used]) + chunk;
      } else {
        assert [] + chunk == [];
      }
      used := used + |chunk|;
    }

    /** `realloc` to a larger block */
    method Realloc(newSz: nat)
      requires Valid() && sz < newSz < SIZE_LIMIT
      modifies this`data, this`sz
      ensures Valid() && fresh(data) && sz == newSz && data != null && Body() == old(Body())
    {
      var block := new byte[newSz];
      if data != null {
        var from := data;
        forall i | 0 <= i < used { block[i] := from[i]; }
        assert block[..used] == from[..used];
      }
      data, sz := block, newSz;
    }

    /** The buffer part of `http_client_reset` */
    method Reset()
      requires Valid()
      modifies this`used
      ensures Valid() && Body() == [] && View() == Applied(old(View()), Op.Reset)
    {
      used := 0;
    }

    /** `http_client_move_response_body`: without a place for the length it may only be called on a body. */
    method Move(wantsLength: bool) returns (resp: array?<byte>, len: nat)
      requires Valid() && (wantsLength || used > 0)
      modifies this
      ensures Valid() && Body() == [] && View() == Applied(old(View()), Op.Move) && data == if len == 0 then old(data) else null
      ensures len == |old(Body())| && (resp == null <==> len == 0)
      ensures resp != null ==> resp == old(data) && resp[..len] == old(Body())
    {
      if used == 0 { return null, 0; }
      resp, len := data, used;
      data, used, sz := null, 0, 0;
    }

    /** Any sequence of chunks, resets and moves, with what each of them shows. */
    method Run(ops: seq<Op>) returns (seen: seq<Seen>, ghost helds: seq<Held>)
      requires Valid() && forall i :: 0 <= i < |ops| && ops[i].Chunk? ==> |ops[i].bytes| < SIZE_LIMIT
      modifies this, data
      ensures Valid() && Steps(ops, seen, helds) && helds[0] == old(View()) && helds[|ops|] == View()
      ensures old(Body()) == [] ==> Body() == Collected(ops, seen)
    {
      seen, helds := [], [View()];
      for i := 0 to |ops|
        invariant Valid() && (data == old(data) || data == null || fresh(data))
        invariant |seen| == i && |helds| == i + 1 && helds[0] == old(View()) && helds[i] == View()
        invariant forall j :: 0 <= j <= i ==> Fits(helds[j])
        invariant forall j {:trigger ops[j]} :: 0 <= j < i ==> seen[j] == SeenOf(helds[j], ops[j]) && helds[j + 1] == Applied(helds[j], ops[j])
      {
        hide Applied, Takes;
        var s := Do(ops[i]);
        seen, helds := seen + [s], helds + [View()];
      }
      if old(Body()) == [] {
        HeldIsCollected(ops, seen, helds, |ops|);
        assert ops[..|ops|] == ops && seen[..|ops|] == seen;
      }
    }

    method Do(op: Op) returns (seen: Seen)
      requires Valid() && (op.Chunk? ==> |op.bytes| < SIZE_LIMIT)
      modifies this, data
      ensures Valid() && (data == old(data) || data == null || fresh(data))
      ensures View() == Applied(old(View()), op) && seen == SeenOf(old(View()), op)
    {
      hide Applied;
      match op {
        case Chunk(c, memory) =>
          var n := Write(c, memory);
          seen := Seen(n == |c|, None);
        case Reset =>
          Reset();
          seen := Seen(true, None);
        case Move =>
          var resp, len := Move(true);
          seen := Seen(true, Some(if resp == null then [] else resp[..len]));
      }
    }
  }
}
