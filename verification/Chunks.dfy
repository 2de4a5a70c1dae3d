/**
 obstack.c, as libc/include/obstack.h describes it: the new chunk a growing object moves to,
 and the way back through the older chunks when an object is freed.  Over every allocator it
 keeps the promise that the results in `Obstack` rest on.
 */
module Chunks {
  import opened Bits
  import opened Common
  import opened Obstack

  /** `malloc`, say: unused memory of the size asked for, with whatever it holds, or none. */
  type Allocator = (Memory, nat) -> Option<(nat, seq<Byte>)>

  ghost predicate AllocatorOk(alloc: Allocator, w: nat) {
    forall mem, size :: alloc(mem, size).Some? ==> Suits(alloc(mem, size).value, mem, size, w)
  }

  ghost predicate Suits(block: (nat, seq<Byte>), mem: Memory, size: nat, w: nat) {
    && 0 < block.0 && |block.1| == size && block.0 + size < Pow2(w)
    && forall p :: block.0 <= p < block.0 + size ==> p !in mem
  }

  /** One that finds memory whenever there is some. */
  ghost function AnyFit(w: nat): Allocator {
    (mem, size) =>
      if exists block :: Suits(block, mem, size, w) then
        var block :| Suits(block, mem, size, w);
        Some(block)
      else None
  }

  lemma AnyFitOk(w: nat)
    ensures AllocatorOk(AnyFit(w), w)
    ensures forall mem, size, block :: Suits(block, mem, size, w) ==> AnyFit(w)(mem, size).Some?
  {
  }

  predicate Covers(c: Chunk, p: nat) { c.addr <= p < c.limit }

  function Without(mem: Memory, c: Chunk): (m: Memory)
    ensures forall p :: p in m <==> p in mem && !Covers(c, p)
    ensures forall p :: p in m ==> m[p] == mem[p]
  {
    map p | p in mem && !Covers(c, p) :: mem[p]
  }

  predicate CoverAny(chunks: seq<Chunk>, p: nat) {
    if chunks == [] then false else Covers(chunks[|chunks| - 1], p) || CoverAny(chunks[..|chunks| - 1], p)
  }

  function WithoutAll(mem: Memory, chunks: seq<Chunk>): (m: Memory)
    ensures forall p :: p in m <==> p in mem && !CoverAny(chunks, p)
    ensures forall p :: p in m ==> m[p] == mem[p]
  {
    if chunks == [] then mem else Without(WithoutAll(mem, chunks[..|chunks| - 1]), chunks[|chunks| - 1])
  }

  /** The current chunk holds nothing but the growing object, and the flag rules out empty objects before it. */
  predicate OnlyObject(w: nat, o: Ob) { !o.maybeEmpty && o.objectBase == AlignUp(w, o.chunk + HEADER, o.mask) }

  /** Go on in the chunk at `at`, with the partly formed object copied to its beginning. */
  function MoveTo(w: nat, o: Ob, at: nat, fill: seq<Byte>): Ob {
    var base := AlignUp(w, at + HEADER, o.mask);
    var mem := Write(Write(o.mem, at, fill), base, Growing(o));
    o.(chunk := at, chunkLimit := at + |fill|, objectBase := base, nextFree := base + |Growing(o)|, maybeEmpty := false,
       older := [Chunk(o.chunk, o.chunkLimit)] + o.older, mem := mem)
  }

  /** Give the chunk before the current one back. */
  function DropLast(o: Ob): Ob
    requires o.older != []
  {
    o.(older := o.older[1..], mem := Without(o.mem, o.older[0]))
  }

  /** The old chunk goes if the partly formed object was all there was in it. */
  function GiveBack(w: nat, o: Ob, o1: Ob): Ob
    requires o1.older != []
  {
    if OnlyObject(w, o) then DropLast(o1) else o1
  }

  /** A larger chunk, with the partly formed object copied to its beginning. */
  function NewChunk(w: nat, alloc: Allocator, o: Ob, n: nat): Option<Ob> {
    match alloc(o.mem, HEADER + o.mask + |Growing(o)| + n)
    case None => None
    case Some((at, fill)) => Some(GiveBack(w, o, MoveTo(w, o, at, fill)))
  }

  /** The first chunk that the address may be the address of an object in. */
  function FindChunk(chain: seq<Chunk>, obj: nat): (d: nat)
    ensures d <= |chain| && (d < |chain| ==> chain[d].addr < obj <= chain[d].limit)
    ensures forall i :: 0 <= i < d ==> !(chain[i].addr < obj <= chain[i].limit)
  {
    if chain == [] || chain[0].addr < obj <= chain[0].limit then 0 else FindChunk(chain[1..], obj) + 1
  }

  /**
   Walk back to the chunk of `obj`, giving back those on the way.  There may be empty objects
   in a chunk returned to.  An address in no chunk is an error.
   */
  function WalkBack(o: Ob, obj: nat): Ob {
    var chain := Chain(o);
    var d := FindChunk(chain, obj);
    if d == |chain| then o
    else
      o.(chunk := chain[d].addr, chunkLimit := chain[d].limit, older := chain[d + 1..],
         objectBase := obj, nextFree := obj, maybeEmpty := o.maybeEmpty || d > 0, mem := WithoutAll(o.mem, chain[..d]))
  }

  /** A new obstack, with its first chunk at `at`. */
  function Begin(w: nat, mask: nat, at: nat, fill: seq<Byte>): Ob {
    var base := AlignUp(w, at + HEADER, mask);
    Ob(at, base, base, at + |fill|, mask, false, 0, [], Write(map[], at, fill))
  }

  lemma BeginOk(w: nat, a: nat, at: nat, fill: seq<Byte>)
    requires a <= w && 0 < at && at + |fill| < Pow2(w) && HEADER + Pow2(a) - 1 <= |fill|
    ensures Valid(Begin(w, Pow2(a) - 1, at, fill), [], w, a) && Growing(Begin(w, Pow2(a) - 1, at, fill)) == []
  {
    AlignUpIsNext(w, at + HEADER, a);
  }

  /** obstack.c over an allocator. */
  function Implementation(w: nat, alloc: Allocator): Env {
    Env(w, (o: Ob, n: nat) => NewChunk(w, alloc, o, n), (o: Ob, obj: nat) => WalkBack(o, obj))
  }

  // ---------------------------------------------------------------- it keeps the promise

  lemma NewBase(w: nat, a: nat, o: Ob, n: nat, at: nat, fill: seq<Byte>)
    requires FieldsOk(o, w, a) && Suits((at, fill), o.mem, HEADER + o.mask + |Growing(o)| + n, w)
    ensures var base := AlignUp(w, at + HEADER, o.mask);
            at + HEADER <= base && base + |Growing(o)| + n <= at + |fill| && Aligned(base, a)
  {
    AlignUpIsNext(w, at + HEADER, a);
  }

  /** Memory that was not in use is apart from every chunk. */
  lemma NewIsApart(chain: seq<Chunk>, mem: Memory, w: nat, c: Chunk, i: nat)
    requires ChainOk(chain, mem, w) && i < |chain|
    requires c.addr < c.limit && forall p :: c.addr <= p < c.limit ==> p !in mem
    ensures Apart(c, chain[i])
  {
    assert ChunkOk(chain[i], mem, w);
    var p := if c.addr <= chain[i].addr then chain[i].addr else c.addr;
    assert chain[i].addr <= p < chain[i].limit ==> p in mem;
  }

  lemma MoveToFields(w: nat, a: nat, o: Ob, n: nat, at: nat, fill: seq<Byte>)
    requires FieldsOk(o, w, a) && Suits((at, fill), o.mem, HEADER + o.mask + |Growing(o)| + n, w)
    ensures var o1 := MoveTo(w, o, at, fill);
            FieldsOk(o1, w, a) && o1.nextFree + n <= o1.chunkLimit
  {
    NewBase(w, a, o, n, at, fill);
    var o1 := MoveTo(w, o, at, fill);
    var c, chain := Chunk(at, at + |fill|), Chain(o);
    assert Chain(o1) == [c] + chain;
    forall i | 0 <= i < |chain|
      ensures ChunkOk(chain[i], o1.mem, w) && Apart(c, chain[i])
    {
      assert ChunkOk(chain[i], o.mem, w);
      NewIsApart(chain, o.mem, w, c, i);
    }
  }

  lemma MoveToGrowing(w: nat, o: Ob, at: nat, fill: seq<Byte>)
    ensures Growing(MoveTo(w, o, at, fill)) == Growing(o)
  {
    WrittenGrows(MoveTo(w, o, at, fill), Write(o.mem, at, fill), Growing(o));
  }

  lemma WrittenGrows(o: Ob, mem: Memory, g: seq<Byte>)
    requires o.mem == Write(mem, o.objectBase, g) && o.nextFree == o.objectBase + |g|
    ensures Growing(o) == g
  {
  }

  lemma MoveToHolds(w: nat, a: nat, o: Ob, n: nat, at: nat, fill: seq<Byte>, x: Obj)
    requires FieldsOk(o, w, a) && Suits((at, fill), o.mem, HEADER + o.mask + |Growing(o)| + n, w) && Holds(o.mem, x)
    ensures Holds(MoveTo(w, o, at, fill).mem, x)
  {
    NewBase(w, a, o, n, at, fill);
    WrittenElsewhere(o.mem, at, fill, AlignUp(w, at + HEADER, o.mask), Growing(o), x);
  }

  lemma WrittenElsewhere(mem: Memory, at: nat, fill: seq<Byte>, base: nat, g: seq<Byte>, x: Obj)
    requires at <= base && base + |g| <= at + |fill| && forall p :: at <= p < at + |fill| ==> p !in mem
    requires Holds(mem, x)
    ensures Holds(Write(Write(mem, at, fill), base, g), x)
  {
    if x.bytes == [] || fill == [] { return; }
    var p := if at <= x.addr then x.addr else at;
    assert x.addr <= p < x.End() ==> p in mem;
    var mem1 := Write(mem, at, fill);
    WriteBeside(mem, at, fill, x);
    WriteBeside(mem1, base, g, x);
  }

  lemma WriteBeside(mem: Memory, at: nat, data: seq<Byte>, x: Obj)
    requires Holds(mem, x) && (x.End() <= at || at + |data| <= x.addr)
    ensures Holds(Write(mem, at, data), x)
  {
  }

  lemma MoveToObject(w: nat, a: nat, o: Ob, n: nat, at: nat, fill: seq<Byte>, x: Obj)
    requires FieldsOk(o, w, a) && Suits((at, fill), o.mem, HEADER + o.mask + |Growing(o)| + n, w) && ObjOk(o, a, x)
    ensures var o1 := MoveTo(w, o, at, fill);
            ObjOk(o1, a, x) && Depth(Chain(o1), x) == Depth(Chain(o), x) + 1
  {
    MoveToFields(w, a, o, n, at, fill);
    MoveToHolds(w, a, o, n, at, fill, x);
    MoveToDepth(w, a, o, MoveTo(w, o, at, fill), x);
  }

  lemma MoveToDepth(w: nat, a: nat, o: Ob, o1: Ob, x: Obj)
    requires ChainOk(Chain(o1), o1.mem, w) && o1.older == Chain(o) && Holds(o1.mem, x) && ObjOk(o, a, x)
    ensures ObjOk(o1, a, x) && Depth(Chain(o1), x) == Depth(Chain(o), x) + 1
  {
    var d := Depth(Chain(o), x);
    assert Chain(o1)[d + 1] == Chain(o)[d];
    DepthUnique(Chain(o1), o1.mem, w, x, d + 1);
  }

  lemma MoveToOk(w: nat, a: nat, o: Ob, live: seq<Obj>, n: nat, at: nat, fill: seq<Byte>)
    requires Valid(o, live, w, a) && Suits((at, fill), o.mem, HEADER + o.mask + |Growing(o)| + n, w)
    ensures Valid(MoveTo(w, o, at, fill), live, w, a)
    ensures var chain1 := Chain(MoveTo(w, o, at, fill));
            forall i :: 0 <= i < |live| ==> Depth(chain1, live[i]) == Depth(Chain(o), live[i]) + 1
  {
    MoveToFields(w, a, o, n, at, fill);
    var o1 := MoveTo(w, o, at, fill);
    forall i | 0 <= i < |live|
      ensures ObjOk(o1, a, live[i]) && Depth(Chain(o1), live[i]) == Depth(Chain(o), live[i]) + 1
    {
      assert ObjOk(o, a, live[i]);
      MoveToObject(w, a, o, n, at, fill, live[i]);
    }
    forall i, j | 0 <= i < j < |live|
      ensures PairOk(Chain(o1), live[i], live[j])
    {
      assert PairOk(Chain(o), live[i], live[j]);
    }
  }

  /** No live object is in a chunk that holds only the growing one. */
  lemma NothingBefore(w: nat, a: nat, o: Ob, x: Obj)
    requires FieldsOk(o, w, a) && ObjOk(o, a, x)
    ensures OnlyObject(w, o) ==> Depth(Chain(o), x) > 0
  {
    assert ChunkOk(Chain(o)[0], o.mem, w);
    AlignUpIsNext(w, o.chunk + HEADER, a);
    if OnlyObject(w, o) && Depth(Chain(o), x) == 0 {
      MultipleAbove(o.objectBase, x.addr, o.chunk + HEADER, Pow2(a));
    }
  }

  lemma DropLastFields(w: nat, a: nat, o: Ob)
    requires FieldsOk(o, w, a) && o.older != []
    ensures FieldsOk(DropLast(o), w, a) && Growing(DropLast(o)) == Growing(o)
  {
    var o1 := DropLast(o);
    var chain := Chain(o);
    assert Apart(chain[0], chain[1]) && ChunkOk(chain[0], o.mem, w);
    forall i | 0 <= i < |Chain(o1)|
      ensures ChunkOk(Chain(o1)[i], o1.mem, w)
    {
      var k := if i == 0 then 0 else i + 1;
      assert Chain(o1)[i] == chain[k] && ChunkOk(chain[k], o.mem, w) && (k == 0 || Apart(chain[1], chain[k]));
    }
    forall i, j | 0 <= i < j < |Chain(o1)|
      ensures Apart(Chain(o1)[i], Chain(o1)[j])
    {
      assert Chain(o1)[j] == chain[j + 1] && Chain(o1)[i] == chain[if i == 0 then 0 else i + 1];
      assert Apart(chain[if i == 0 then 0 else i + 1], chain[j + 1]);
    }
  }

  lemma DropLastObject(w: nat, a: nat, o: Ob, x: Obj)
    requires FieldsOk(o, w, a) && o.older != [] && ObjOk(o, a, x) && Depth(Chain(o), x) > 1
    ensures ObjOk(DropLast(o), a, x) && Depth(Chain(DropLast(o)), x) == Depth(Chain(o), x) - 1
  {
    var o1, d := DropLast(o), Depth(Chain(o), x);
    DropLastFields(w, a, o);
    assert Chain(o1)[d - 1] == Chain(o)[d];
    DepthUnique(Chain(o1), o1.mem, w, x, d - 1);
    forall p | x.addr <= p < x.End()
      ensures p in o1.mem && o1.mem[p] == x.bytes[p - x.addr]
    {
      OutsideChunk(Chain(o), o.mem, w, x, 1, p);
    }
  }

  lemma DropLastOk(w: nat, a: nat, o: Ob, live: seq<Obj>)
    requires Valid(o, live, w, a) && o.older != [] && forall i :: 0 <= i < |live| ==> Depth(Chain(o), live[i]) > 1
    ensures Valid(DropLast(o), live, w, a)
  {
    DropLastFields(w, a, o);
    var o1 := DropLast(o);
    forall i | 0 <= i < |live|
      ensures ObjOk(o1, a, live[i]) && Depth(Chain(o1), live[i]) == Depth(Chain(o), live[i]) - 1
    {
      assert ObjOk(o, a, live[i]);
      DropLastObject(w, a, o, live[i]);
    }
    forall i, j | 0 <= i < j < |live|
      ensures PairOk(Chain(o1), live[i], live[j])
    {
      assert PairOk(Chain(o), live[i], live[j]);
    }
  }

  /** Once the old chunk may go, no live object is in it. */
  lemma OldChunkEmpty(w: nat, a: nat, o: Ob, live: seq<Obj>, n: nat, at: nat, fill: seq<Byte>)
    requires Valid(o, live, w, a) && Suits((at, fill), o.mem, HEADER + o.mask + |Growing(o)| + n, w)
    ensures OnlyObject(w, o) ==> forall i :: 0 <= i < |live| ==> Depth(Chain(MoveTo(w, o, at, fill)), live[i]) > 1
  {
    MoveToOk(w, a, o, live, n, at, fill);
    forall i | 0 <= i < |live|
      ensures OnlyObject(w, o) ==> Depth(Chain(MoveTo(w, o, at, fill)), live[i]) > 1
    {
      assert ObjOk(o, a, live[i]);
      NothingBefore(w, a, o, live[i]);
    }
  }

  lemma GiveBackOk(w: nat, a: nat, o: Ob, live: seq<Obj>, n: nat, at: nat, fill: seq<Byte>)
    requires Valid(o, live, w, a) && Suits((at, fill), o.mem, HEADER + o.mask + |Growing(o)| + n, w)
    ensures var o1 := GiveBack(w, o, MoveTo(w, o, at, fill));
            Valid(o1, live, w, a) && Growing(o1) == Growing(o)
  {
    var o1 := MoveTo(w, o, at, fill);
    MoveToOk(w, a, o, live, n, at, fill);
    MoveToGrowing(w, o, at, fill);
    if OnlyObject(w, o) {
      OldChunkEmpty(w, a, o, live, n, at, fill);
      DropLastOk(w, a, o1, live);
      DropLastFields(w, a, o1);
    }
  }

  /** The new chunk, and the old one given back where the flag allows it, meet the promise. */
  lemma NewChunkKeeps(w: nat, a: nat, alloc: Allocator, o: Ob, n: nat, live: seq<Obj>)
    requires AllocatorOk(alloc, w) && Valid(o, live, w, a)
    ensures NewChunk(w, alloc, o, n).Some? ==>
            var o1 := NewChunk(w, alloc, o, n).value;
            Valid(o1, live, w, a) && Growing(o1) == Growing(o) && o1.nextFree + n <= o1.chunkLimit
  {
    var size := HEADER + o.mask + |Growing(o)| + n;
    if alloc(o.mem, size).Some? {
      assert Suits(alloc(o.mem, size).value, o.mem, size, w);
      var (at, fill) := alloc(o.mem, size).value;
      MoveToFields(w, a, o, n, at, fill);
      GiveBackOk(w, a, o, live, n, at, fill);
    }
  }

  /** The walk stops at the chunk of the object. */
  lemma FindsChunk(chain: seq<Chunk>, mem: Memory, w: nat, x: Obj)
    requires ChainOk(chain, mem, w) && Depth(chain, x) < |chain|
    ensures FindChunk(chain, x.addr) == Depth(chain, x)
  {
    var d := Depth(chain, x);
    forall i | 0 <= i < d
      ensures !(chain[i].addr < x.addr <= chain[i].limit)
    {
      assert Apart(chain[i], chain[d]);
    }
    assert chain[d].addr < x.addr <= chain[d].limit;
  }

  /** Bytes of a chunk apart from those given back are still there. */
  lemma {:induction false} NotCovered(chunks: seq<Chunk>, c: Chunk, p: nat)
    requires Covers(c, p) && forall i :: 0 <= i < |chunks| ==> Apart(chunks[i], c)
    ensures !CoverAny(chunks, p)
  {
    if chunks != [] {
      assert Apart(chunks[|chunks| - 1], c);
      NotCovered(chunks[..|chunks| - 1], c, p);
    }
  }

  /** The bytes of the chunks from depth `d` on are as they were. */
  ghost predicate Kept(chain: seq<Chunk>, mem: Memory, mem1: Memory, d: nat) {
    forall k, p :: d <= k < |chain| && Covers(chain[k], p) ==> p in mem1 && p in mem && mem1[p] == mem[p]
  }

  lemma SurvivorsKept(chain: seq<Chunk>, mem: Memory, w: nat, d: nat)
    requires ChainOk(chain, mem, w) && d <= |chain|
    ensures Kept(chain, mem, WithoutAll(mem, chain[..d]), d)
  {
    forall k, p | d <= k < |chain| && Covers(chain[k], p)
      ensures p in mem && !CoverAny(chain[..d], p)
    {
      assert ChunkOk(chain[k], mem, w);
      forall i | 0 <= i < d
        ensures Apart(chain[..d][i], chain[k])
      {
      }
      NotCovered(chain[..d], chain[k], p);
    }
  }

  /** `tail` is `chain` without its first `d` chunks. */
  ghost predicate IsTail(tail: seq<Chunk>, chain: seq<Chunk>, d: nat) {
    |tail| + d == |chain| && forall i :: 0 <= i < |tail| ==> tail[i] == chain[i + d]
  }

  /** `o1` is `o` unwound to depth `d` and address `obj`. */
  ghost predicate Unwound(o: Ob, o1: Ob, d: nat, obj: nat) {
    && d < |Chain(o)| && IsTail(Chain(o1), Chain(o), d) && Kept(Chain(o), o.mem, o1.mem, d)
    && o1.mask == o.mask && o1.objectBase == o1.nextFree == obj && (o1.maybeEmpty <==> o.maybeEmpty || d > 0)
  }

  lemma TailOk(chain: seq<Chunk>, mem: Memory, tail: seq<Chunk>, mem1: Memory, w: nat, d: nat)
    requires ChainOk(chain, mem, w) && IsTail(tail, chain, d) && Kept(chain, mem, mem1, d)
    ensures ChainOk(tail, mem1, w)
  {
    forall i | 0 <= i < |tail|
      ensures ChunkOk(tail[i], mem1, w)
    {
      assert ChunkOk(chain[i + d], mem, w);
      forall p | tail[i].addr <= p < tail[i].limit
        ensures p in mem1
      {
        assert Covers(chain[i + d], p);
      }
    }
    forall i, j | 0 <= i < j < |tail|
      ensures Apart(tail[i], tail[j])
    {
      assert Apart(chain[i + d], chain[j + d]);
    }
  }

  lemma UnwoundFields(w: nat, a: nat, o: Ob, o1: Ob, x: Obj)
    requires FieldsOk(o, w, a) && ObjOk(o, a, x)
    ensures Unwound(o, o1, Depth(Chain(o), x), x.addr) ==> FieldsOk(o1, w, a)
  {
    var d := Depth(Chain(o), x);
    if Unwound(o, o1, d, x.addr) {
      TailOk(Chain(o), o.mem, Chain(o1), o1.mem, w, d);
      assert Chain(o1)[0] == Chain(o)[0 + d];
    }
  }

  lemma UnwoundObject(w: nat, a: nat, o: Ob, o1: Ob, d: nat, obj: nat, y: Obj)
    requires Unwound(o, o1, d, obj) && ChainOk(Chain(o1), o1.mem, w) && ObjOk(o, a, y)
    requires d < Depth(Chain(o), y) || (d == Depth(Chain(o), y) && y.End() <= obj)
    ensures ObjOk(o1, a, y) && Depth(Chain(o1), y) == Depth(Chain(o), y) - d
  {
    var e := Depth(Chain(o), y) - d;
    assert Chain(o1)[e] == Chain(o)[e + d];
    DepthUnique(Chain(o1), o1.mem, w, y, e);
    KeptHolds(Chain(o), o.mem, o1.mem, d, y);
  }

  lemma KeptHolds(chain: seq<Chunk>, mem: Memory, mem1: Memory, d: nat, y: Obj)
    requires Kept(chain, mem, mem1, d) && d <= Depth(chain, y) < |chain| && Holds(mem, y)
    ensures Holds(mem1, y)
  {
    forall p | y.addr <= p < y.End()
      ensures p in mem1 && mem1[p] == y.bytes[p - y.addr]
    {
      assert Covers(chain[Depth(chain, y)], p);
    }
  }

  lemma UnwoundOk(w: nat, a: nat, o: Ob, o1: Ob, live: seq<Obj>, i: nat)
    requires Valid(o, live, w, a) && i < |live| && Unwound(o, o1, Depth(Chain(o), live[i]), live[i].addr)
    ensures Valid(o1, live[..i], w, a)
  {
    assert ObjOk(o, a, live[i]);
    UnwoundFields(w, a, o, o1, live[i]);
    forall k | 0 <= k < i
      ensures ObjOk(o1, a, live[k]) && Depth(Chain(o1), live[k]) == Depth(Chain(o), live[k]) - Depth(Chain(o), live[i])
    {
      assert ObjOk(o, a, live[k]) && PairOk(Chain(o), live[k], live[i]);
      UnwoundObject(w, a, o, o1, Depth(Chain(o), live[i]), live[i].addr, live[k]);
    }
    forall j, k | 0 <= j < k < i
      ensures PairOk(Chain(o1), live[j], live[k])
    {
      assert PairOk(Chain(o), live[j], live[k]);
    }
  }

  /** Walking back to a live object keeps exactly the objects before it. */
  lemma WalkBackKeeps(w: nat, a: nat, o: Ob, live: seq<Obj>, i: nat)
    requires Valid(o, live, w, a) && i < |live|
    ensures var o1 := WalkBack(o, live[i].addr);
            Valid(o1, live[..i], w, a) && o1.nextFree == o1.objectBase == live[i].addr
  {
    assert ObjOk(o, a, live[i]);
    WalkBackUnwinds(w, o, live[i]);
    UnwoundOk(w, a, o, WalkBack(o, live[i].addr), live, i);
  }

  lemma WalkBackUnwinds(w: nat, o: Ob, x: Obj)
    requires ChainOk(Chain(o), o.mem, w) && Depth(Chain(o), x) < |Chain(o)|
    ensures Unwound(o, WalkBack(o, x.addr), Depth(Chain(o), x), x.addr)
  {
    FindsChunk(Chain(o), o.mem, w, x);
    SurvivorsKept(Chain(o), o.mem, w, Depth(Chain(o), x));
  }

  lemma {:induction false} CoveredByOne(chunks: seq<Chunk>, i: nat, p: nat)
    requires i < |chunks| && Covers(chunks[i], p)
    ensures CoverAny(chunks, p)
  {
    if i < |chunks| - 1 { CoveredByOne(chunks[..|chunks| - 1], i, p); }
  }

  /** Nothing of the chunk is left in memory. */
  ghost predicate Gone(mem: Memory, c: Chunk) { forall p :: Covers(c, p) ==> p !in mem }

  lemma AllGone(mem: Memory, chain: seq<Chunk>, d: nat, i: nat)
    requires i < d <= |chain|
    ensures Gone(WithoutAll(mem, chain[..d]), chain[i])
  {
    forall p | Covers(chain[i], p)
      ensures p !in WithoutAll(mem, chain[..d])
    {
      CoveredByOne(chain[..d], i, p);
    }
  }

  /** Moving on gives the old chunk back just when it held nothing but the object moved. */
  lemma NewChunkGivesBack(w: nat, alloc: Allocator, o: Ob, n: nat)
    ensures NewChunk(w, alloc, o, n).Some? ==>
            var o1, c := NewChunk(w, alloc, o, n).value, Chunk(o.chunk, o.chunkLimit);
            if OnlyObject(w, o) then o1.older == o.older && Gone(o1.mem, c) else o1.older == [c] + o.older
  {
  }

  lemma WalkBackFields(o: Ob, obj: nat, d: nat)
    requires d == FindChunk(Chain(o), obj) < |Chain(o)|
    ensures WalkBack(o, obj).mem == WithoutAll(o.mem, Chain(o)[..d]) && Chain(WalkBack(o, obj)) == Chain(o)[d..]
  {
    assert Chain(o)[d..] == [Chain(o)[d]] + Chain(o)[d + 1..];
  }

  /** Walking back gives back all chunks after the one returned to. */
  lemma WalkBackGivesBack(w: nat, o: Ob, x: Obj)
    requires ChainOk(Chain(o), o.mem, w) && Depth(Chain(o), x) < |Chain(o)|
    ensures var o1, d := WalkBack(o, x.addr), Depth(Chain(o), x);
            Chain(o1) == Chain(o)[d..] && forall i :: 0 <= i < d ==> Gone(o1.mem, Chain(o)[i])
  {
    var chain, d := Chain(o), Depth(Chain(o), x);
    FindsChunk(chain, o.mem, w, x);
    WalkBackFields(o, x.addr, d);
    forall i | 0 <= i < d
      ensures Gone(WithoutAll(o.mem, chain[..d]), chain[i])
    {
      AllGone(o.mem, chain, d, i);
    }
  }

  /** So obstack.c keeps the promise, over every allocator. */
  lemma ImplementationOk(w: nat, a: nat, alloc: Allocator)
    requires AllocatorOk(alloc, w)
    ensures ChunksOk(Implementation(w, alloc), a)
  {
    var env := Implementation(w, alloc);
    forall o, n: nat, live
      ensures NewChunkOk(env, a, o, n, live)
    {
      if Valid(o, live, w, a) { NewChunkKeeps(w, a, alloc, o, n, live); }
    }
    forall o, live, i: nat
      ensures FreeOlderOk(env, a, o, live, i)
    {
      if Valid(o, live, w, a) && i < |live| { WalkBackKeeps(w, a, o, live, i); }
    }
  }

  /** All together: whatever is done to a new obstack, over whatever allocator. */
  lemma EveryRunKeeps(w: nat, a: nat, alloc: Allocator, at: nat, fill: seq<Byte>, ops: seq<Op>)
    requires AllocatorOk(alloc, w) && 0 < at && at + |fill| < Pow2(w)
    requires a <= w && HEADER + Pow2(a) - 1 <= |fill|
    ensures var r := Run(Implementation(w, alloc), Begin(w, Pow2(a) - 1, at, fill), [], ops);
            r.Some? ==> Valid(r.value.0, r.value.1, w, a) && Sound(r.value.0, r.value.1, a)
  {
    ImplementationOk(w, a, alloc);
    BeginOk(w, a, at, fill);
    RunKeeps(Implementation(w, alloc), a, Begin(w, Pow2(a) - 1, at, fill), [], ops, 0);
  }

  lemma NewChunkTemp(w: nat, alloc: Allocator, o: Ob, t: nat, n: nat)
    ensures NewChunk(w, alloc, SetTemp(o, t), n) == WithTemp(NewChunk(w, alloc, o, n), t)
  {
    assert Growing(SetTemp(o, t)) == Growing(o) && OnlyObject(w, SetTemp(o, t)) == OnlyObject(w, o);
    var block := alloc(o.mem, HEADER + o.mask + |Growing(o)| + n);
    if block.Some? {
      MoveToTemp(w, o, t, block.value.0, block.value.1);
    }
  }

  lemma MoveToTemp(w: nat, o: Ob, t: nat, at: nat, fill: seq<Byte>)
    ensures MoveTo(w, SetTemp(o, t), at, fill) == SetTemp(MoveTo(w, o, at, fill), t)
  {
    assert Growing(SetTemp(o, t)) == Growing(o);
  }

  lemma WalkBackTemp(o: Ob, t: nat, obj: nat)
    ensures WalkBack(SetTemp(o, t), obj) == SetTemp(WalkBack(o, obj), t)
  {
  }

  /** Nor does it touch the scratch field, so both families of macros agree over it. */
  lemma ImplementationTemp(w: nat, alloc: Allocator)
    ensures TempUnused(Implementation(w, alloc))
  {
    var env := Implementation(w, alloc);
    forall o: Ob, t: nat, n: nat
      ensures env.newChunk(SetTemp(o, t), n) == WithTemp(env.newChunk(o, n), t)
    {
      NewChunkTemp(w, alloc, o, t, n);
    }
    forall o: Ob, t: nat, p: nat
      ensures env.freeOlder(SetTemp(o, t), p) == SetTemp(env.freeOlder(o, p), t)
    {
      WalkBackTemp(o, t, p);
    }
  }
}
