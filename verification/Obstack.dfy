/**
 Object stacks (`obstack.h`): objects are carved one after the other out of a chunk of
 memory; the last one may still grow, and freeing an object frees all later ones too.

 Addresses are numbers below 2^w.  Fetching a new chunk and freeing in an older chunk are
 functions outside the header; they are parameters here, and `ChunksOk` says what their
 documentation promises.  A new chunk may be refused, which ends the run.
 */
module Obstack {
  import opened Bits
  import opened Common

  type Memory = map<nat, Byte>

  /** A chunk of memory: its address, where its header is, and the address after it. */
  datatype Chunk = Chunk(addr: nat, limit: nat)

  /** The space a chunk's header takes: its limit and the address of the chunk before. */
  const HEADER := 16

  /**
   `struct obstack`, with the memory it manages.  `older` are the chunks before the current
   one, the latest first; `temp` is scratch space of one macro family.
   */
  datatype Ob = Ob(
    chunk: nat,
    objectBase: nat,
    nextFree: nat,
    chunkLimit: nat,
    mask: nat,
    maybeEmpty: bool,
    temp: nat,
    older: seq<Chunk>,
    mem: Memory)

  /** The address width, and the two functions of obstack.c. */
  datatype Env = Env(w: nat, newChunk: (Ob, nat) -> Option<Ob>, freeOlder: (Ob, nat) -> Ob)

  // ---------------------------------------------------------------- pure macros

  /** Pointer difference, as an unsigned number. */
  function Distance(w: nat, x: nat, y: nat): int { if x >= y then x - y else x - y + Pow2(w) }

  function Room(w: nat, o: Ob): int { Distance(w, o.chunkLimit, o.nextFree) }

  /** `__PTR_ALIGN` where pointers convert to integers: `(p + mask) & ~mask`. */
  function AlignUp(w: nat, p: nat, mask: nat): nat {
    BitAnd(Wrap(p + mask, Pow2(w)), Pow2(w) - 1 - mask % Pow2(w))
  }

  /** The next multiple of the alignment, or 0 if that is past the end of the address space. */
  lemma AlignUpIsNext(w: nat, p: nat, a: nat)
    requires a <= w && p < Pow2(w)
    ensures Pow2(a) <= Pow2(w)
    ensures var r := AlignUp(w, p, Pow2(a) - 1);
            if p + Pow2(a) - 1 < Pow2(w) then p <= r < p + Pow2(a) && r % Pow2(a) == 0 else r == 0
  {
    Pow2Monotone(a, w);
    var x := if p + Pow2(a) - 1 < Pow2(w) then p + Pow2(a) - 1 else p + Pow2(a) - 1 - Pow2(w);
    AlignUpClears(w, p, a, x);
    RoundDown(p, x, Pow2(a), Pow2(w));
  }

  lemma AlignUpClears(w: nat, p: nat, a: nat, x: nat)
    requires a <= w && p < Pow2(w) && Pow2(a) <= Pow2(w)
    requires x == if p + Pow2(a) - 1 < Pow2(w) then p + Pow2(a) - 1 else p + Pow2(a) - 1 - Pow2(w)
    ensures AlignUp(w, p, Pow2(a) - 1) == x - x % Pow2(a)
  {
    AndNotMask(x, a, w);
    Operands(p, Pow2(a), Pow2(w), x);
  }

  lemma Operands(p: nat, m: nat, size: nat, x: nat)
    requires p < size && 0 < m <= size
    requires x == if p + m - 1 < size then p + m - 1 else p + m - 1 - size
    ensures Wrap(p + (m - 1), size) == x && size - 1 - (m - 1) % size == size - m
  {
    WrapOnce(p + (m - 1), size);
    Complement(m, size);
  }

  lemma Complement(m: nat, size: nat)
    requires 0 < m <= size
    ensures size - 1 - (m - 1) % size == size - m
  {
    DivModUnique(m - 1, size, 0, m - 1);
  }

  lemma WrapOnce(x: nat, m: nat)
    requires x < m + m
    ensures Wrap(x, m) == if x < m then x else x - m
  {
  }

  lemma RoundDown(p: nat, x: nat, m: nat, size: nat)
    requires 0 < m && p < size && x == if p + m - 1 < size then p + m - 1 else p + m - 1 - size
    ensures var r := x - x % m;
            if p + m - 1 < size then p <= r < p + m && r % m == 0 else r == 0
  {
    DivMod(x, m);
    if p + m - 1 < size {
      DivModUnique(x - x % m, m, x / m, 0);
    } else {
      DivModUnique(x, m, 0, x);
    }
  }

  /** `r` is the least multiple of `m` from `p` on. */
  lemma MultipleAbove(r: nat, y: nat, p: nat, m: nat)
    requires 0 < m && r % m == 0 && y % m == 0 && p <= r < p + m && p <= y
    ensures r <= y
  {
    DivMod(r, m);
    DivMod(y, m);
    if y < r {
      MulMonotone(y / m + 1, r / m, m);
    }
  }

  /** So it is the least multiple, if there is one in the address space. */
  lemma AlignUpIsLeast(w: nat, p: nat, a: nat, y: nat)
    requires a <= w && p < Pow2(w) && p <= y < Pow2(w) && y % Pow2(a) == 0
    ensures p <= AlignUp(w, p, Pow2(a) - 1) <= y
  {
    AlignUpIsNext(w, p, a);
    Pow2Add(a, w - a);
    LastMultiple(Pow2(a), Pow2(w - a), p, y);
    MultipleAbove(AlignUp(w, p, Pow2(a) - 1), y, p, Pow2(a));
  }

  /** A multiple of `m` below `m * k` is at least `m` below it. */
  lemma LastMultiple(m: nat, k: nat, p: nat, y: nat)
    requires 0 < m && p <= y < m * k && y % m == 0
    ensures p + m - 1 < m * k
  {
    DivMod(y, m);
    MulMonotone(y / m + 1, k, m);
    assert (y / m + 1) * m == y + m;
  }

  function Write(mem: Memory, at: nat, data: seq<Byte>): (m: Memory)
    ensures forall p :: p in m <==> p in mem || at <= p < at + |data|
    ensures forall p :: p in m ==> m[p] == if at <= p < at + |data| then data[p - at] else mem[p]
    decreases |data|
  {
    if data == [] then mem else Write(mem, at, data[..|data| - 1])[at + |data| - 1 := data[|data| - 1]]
  }

  // ---------------------------------------------------------------- the macros for GNU C

  function MakeRoom(env: Env, o: Ob, n: nat): Option<Ob> {
    if Room(env.w, o) < n then env.newChunk(o, n) else Some(o)
  }

  function Put(o: Ob, data: seq<Byte>): Ob {
    o.(mem := Write(o.mem, o.nextFree, data), nextFree := o.nextFree + |data|)
  }

  function Grow(env: Env, o: Ob, data: seq<Byte>): Option<Ob> {
    match MakeRoom(env, o, |data|)
    case Some(o1) => Some(Put(o1, data))
    case None => None
  }

  function Grow0(env: Env, o: Ob, data: seq<Byte>): Option<Ob> {
    match MakeRoom(env, o, |data| + 1)
    case Some(o1) => Some(Put(Put(o1, data), [0]))
    case None => None
  }

  function Blank(env: Env, o: Ob, n: nat): Option<Ob> {
    match MakeRoom(env, o, n)
    case Some(o1) => Some(o1.(nextFree := o1.nextFree + n))
    case None => None
  }

  /** The object's address, and the obstack with the next object begun. */
  function Finish(env: Env, o: Ob): (Ob, nat) {
    var next := AlignUp(env.w, o.nextFree, o.mask);
    var next1 := if Distance(env.w, next, o.chunk) > Distance(env.w, o.chunkLimit, o.chunk) then o.chunkLimit else next;
    (o.(maybeEmpty := o.maybeEmpty || o.nextFree == o.objectBase, nextFree := next1, objectBase := next1), o.objectBase)
  }

  function Free(env: Env, o: Ob, obj: nat): Ob {
    if o.chunk < obj < o.chunkLimit then o.(nextFree := obj, objectBase := obj) else env.freeOlder(o, obj)
  }

  // ---------------------------------------------------------------- the invariant

  /** A finished object. */
  datatype Obj = Obj(addr: nat, bytes: seq<Byte>) {
    function End(): nat { addr + |bytes| }
  }

  /** All chunks, the current one first. */
  function Chain(o: Ob): seq<Chunk> { [Chunk(o.chunk, o.chunkLimit)] + o.older }

  predicate Inside(c: Chunk, x: Obj) { c.addr + HEADER <= x.addr && x.End() <= c.limit }

  /** How many chunks back the object lies; the number of chunks if it lies in none. */
  function Depth(chain: seq<Chunk>, x: Obj): (d: nat)
    ensures d <= |chain| && (d < |chain| ==> Inside(chain[d], x)) && forall i :: 0 <= i < d ==> !Inside(chain[i], x)
  {
    if chain == [] || Inside(chain[0], x) then 0 else Depth(chain[1..], x) + 1
  }

  predicate Apart(c: Chunk, d: Chunk) { c.limit <= d.addr || d.limit <= c.addr }

  ghost predicate ChunkOk(c: Chunk, mem: Memory, w: nat) {
    0 < c.addr && c.addr + HEADER <= c.limit < Pow2(w) && forall p :: c.addr <= p < c.limit ==> p in mem
  }

  /** The chunks lie in memory, apart from each other. */
  ghost predicate ChainOk(chain: seq<Chunk>, mem: Memory, w: nat) {
    && (forall i :: 0 <= i < |chain| ==> ChunkOk(chain[i], mem, w))
    && (forall i, j :: 0 <= i < j < |chain| ==> Apart(chain[i], chain[j]))
  }

  ghost predicate Holds(mem: Memory, x: Obj) {
    forall p :: x.addr <= p < x.End() ==> p in mem && mem[p] == x.bytes[p - x.addr]
  }

  predicate Aligned(p: nat, a: nat) { p % Pow2(a) == 0 }

  ghost predicate FieldsOk(o: Ob, w: nat, a: nat) {
    && a <= w && o.mask == Pow2(a) - 1 && o.mask < Pow2(w)
    && o.chunk + HEADER <= o.objectBase <= o.nextFree <= o.chunkLimit
    && (o.objectBase == o.chunkLimit || Aligned(o.objectBase, a))
    && ChainOk(Chain(o), o.mem, w)
  }

  /**
   The object lies in a chunk, unharmed; in the current one it is below the growing object,
   and if it is empty the flag tells that there may be such objects.
   */
  ghost predicate ObjOk(o: Ob, a: nat, x: Obj) {
    var d := Depth(Chain(o), x);
    && d < |Chain(o)| && Holds(o.mem, x)
    && (d == 0 ==> x.End() <= o.objectBase && (x.bytes == [] ==> o.maybeEmpty))
    && (Aligned(x.addr, a) || (x.bytes == [] && x.addr == Chain(o)[d].limit))
  }

  /** An earlier object `x` lies further back than a later one `y`, or before it in the same chunk. */
  predicate PairOk(chain: seq<Chunk>, x: Obj, y: Obj) {
    Depth(chain, x) > Depth(chain, y) || (Depth(chain, x) == Depth(chain, y) && x.End() <= y.addr)
  }

  ghost predicate LiveOk(o: Ob, live: seq<Obj>, a: nat) {
    && (forall i :: 0 <= i < |live| ==> ObjOk(o, a, live[i]))
    && (forall i, j :: 0 <= i < j < |live| ==> PairOk(Chain(o), live[i], live[j]))
  }

  /** `live` are the finished objects, oldest first. */
  ghost predicate Valid(o: Ob, live: seq<Obj>, w: nat, a: nat) {
    FieldsOk(o, w, a) && LiveOk(o, live, a)
  }

  function ReadBytes(mem: Memory, at: nat, n: nat): seq<Byte> {
    seq(n, i requires 0 <= i < n => if at + i in mem then mem[at + i] else 0)
  }

  /** The bytes of the object that is still growing. */
  function Growing(o: Ob): seq<Byte> {
    if o.objectBase <= o.nextFree then ReadBytes(o.mem, o.objectBase, o.nextFree - o.objectBase) else []
  }

  /** The object lies strictly inside the current chunk, as `obstack_free` tests it. */
  predicate InChunk(o: Ob, x: Obj) { o.chunk < x.addr < o.chunkLimit }

  /**
   What obstack.c is to do.  A new chunk has the room asked for, holds the partly formed
   object, and leaves every finished object where it was; freeing in an older chunk leaves
   exactly the objects before the freed one.
   */
  ghost predicate ChunksOk(env: Env, a: nat) {
    && (forall o, n, live :: NewChunkOk(env, a, o, n, live))
    && (forall o, live, i :: FreeOlderOk(env, a, o, live, i))
  }

  ghost predicate NewChunkOk(env: Env, a: nat, o: Ob, n: nat, live: seq<Obj>) {
    Valid(o, live, env.w, a) && env.newChunk(o, n).Some? ==>
      var o1 := env.newChunk(o, n).value;
      Valid(o1, live, env.w, a) && Growing(o1) == Growing(o) && o1.nextFree + n <= o1.chunkLimit
  }

  ghost predicate FreeOlderOk(env: Env, a: nat, o: Ob, live: seq<Obj>, i: nat) {
    Valid(o, live, env.w, a) && i < |live| && !InChunk(o, live[i]) ==>
      var o1 := env.freeOlder(o, live[i].addr);
      Valid(o1, live[..i], env.w, a) && o1.nextFree == o1.objectBase == live[i].addr
  }

  // ---------------------------------------------------------------- chunks and objects

  /** An object lies in one chunk only. */
  lemma DepthUnique(chain: seq<Chunk>, mem: Memory, w: nat, x: Obj, d: nat)
    requires ChainOk(chain, mem, w) && d < |chain| && Inside(chain[d], x)
    ensures Depth(chain, x) == d
  {
    forall e | 0 <= e < d
      ensures !Inside(chain[e], x)
    {
      assert Apart(chain[e], chain[d]);
    }
  }

  /** An object further back has no byte in the current chunk. */
  lemma OutsideChunk(chain: seq<Chunk>, mem: Memory, w: nat, x: Obj, i: nat, p: nat)
    requires ChainOk(chain, mem, w) && i < |chain| && Depth(chain, x) < |chain| && Depth(chain, x) != i
    requires x.addr <= p < x.End()
    ensures !(chain[i].addr <= p < chain[i].limit)
  {
    var d := Depth(chain, x);
    assert Apart(chain[i], chain[d]) || Apart(chain[d], chain[i]);
  }

  lemma ObjectsDisjoint(chain: seq<Chunk>, mem: Memory, w: nat, x: Obj, y: Obj)
    requires ChainOk(chain, mem, w) && Depth(chain, x) < |chain| && PairOk(chain, x, y)
    ensures Disjoint(x, y)
  {
    var d, e := Depth(chain, x), Depth(chain, y);
    assert d != e ==> Apart(chain[e], chain[d]);
  }

  predicate Disjoint(x: Obj, y: Obj) { x.End() <= y.addr || y.End() <= x.addr }

  // ---------------------------------------------------------------- each macro keeps it

  lemma RoomIsRest(o: Ob, w: nat, a: nat)
    requires FieldsOk(o, w, a)
    ensures Room(w, o) == o.chunkLimit - o.nextFree
  {
  }

  /** Bytes of the current chunk above the finished objects may change freely. */
  lemma MemoryAbove(o: Ob, live: seq<Obj>, w: nat, a: nat, mem: Memory, next: nat)
    requires Valid(o, live, w, a) && o.objectBase <= next <= o.chunkLimit
    requires forall p :: p in o.mem ==> p in mem
    requires forall p :: p in o.mem && !(o.objectBase <= p < o.chunkLimit) ==> mem[p] == o.mem[p]
    ensures Valid(o.(mem := mem, nextFree := next), live, w, a)
  {
    var o1 := o.(mem := mem, nextFree := next);
    assert Chain(o1) == Chain(o);
    assert forall i :: 0 <= i < |Chain(o)| ==> ChunkOk(Chain(o)[i], o.mem, w);
    forall i | 0 <= i < |live|
      ensures ObjOk(o1, a, live[i])
    {
      MemoryAboveObject(o, o1, w, a, live[i]);
    }
  }

  lemma MemoryAboveObject(o: Ob, o1: Ob, w: nat, a: nat, x: Obj)
    requires FieldsOk(o, w, a) && ObjOk(o, a, x)
    requires o1 == o.(mem := o1.mem, nextFree := o1.nextFree) && forall p :: p in o.mem ==> p in o1.mem
    requires forall p :: p in o.mem && !(o.objectBase <= p < o.chunkLimit) ==> o1.mem[p] == o.mem[p]
    ensures ObjOk(o1, a, x)
  {
    assert Chain(o1) == Chain(o);
    forall p | x.addr <= p < x.End()
      ensures p in o1.mem && o1.mem[p] == x.bytes[p - x.addr]
    {
      if Depth(Chain(o), x) != 0 {
        OutsideChunk(Chain(o), o.mem, w, x, 0, p);
      }
      assert p in o.mem && !(o.objectBase <= p < o.chunkLimit);
    }
  }

  /** There is room for `n` more bytes in the current chunk. */
  predicate Fits(o: Ob, n: nat) { o.nextFree + n <= o.chunkLimit }

  /** The chunks are the same, and so is the flag. */
  predicate SameChunk(o: Ob, o1: Ob) {
    Chain(o1) == Chain(o) && o1.mask == o.mask && o1.maybeEmpty == o.maybeEmpty
  }

  lemma MakeRoomOk(env: Env, a: nat, o: Ob, n: nat, live: seq<Obj>)
    requires ChunksOk(env, a) && Valid(o, live, env.w, a) && MakeRoom(env, o, n).Some?
    ensures var o1 := MakeRoom(env, o, n).value;
            && Valid(o1, live, env.w, a) && Growing(o1) == Growing(o) && o1.nextFree + n <= o1.chunkLimit
            && (Fits(o, n) ==> o1 == o)
  {
    RoomIsRest(o, env.w, a);
    if Room(env.w, o) < n { assert NewChunkOk(env, a, o, n, live); }
  }

  lemma PutOk(o: Ob, live: seq<Obj>, w: nat, a: nat, data: seq<Byte>)
    requires Valid(o, live, w, a) && o.nextFree + |data| <= o.chunkLimit
    ensures Valid(Put(o, data), live, w, a)
  {
    var mem := Write(o.mem, o.nextFree, data);
    MemoryAbove(o, live, w, a, mem, o.nextFree + |data|);
    assert Put(o, data) == o.(mem := mem, nextFree := o.nextFree + |data|);
  }

  lemma PutAppends(o: Ob, data: seq<Byte>)
    requires o.objectBase <= o.nextFree
    ensures Growing(Put(o, data)) == Growing(o) + data
  {
  }

  /** Growing appends to the current object and to nothing else, in whatever chunk it ends up. */
  lemma GrowOk(env: Env, a: nat, o: Ob, live: seq<Obj>, data: seq<Byte>)
    requires ChunksOk(env, a) && Valid(o, live, env.w, a) && Grow(env, o, data).Some?
    ensures var o1 := Grow(env, o, data).value;
            && Valid(o1, live, env.w, a) && Growing(o1) == Growing(o) + data
            && (Fits(o, |data|) ==> SameChunk(o, o1) && o1.objectBase == o.objectBase)
  {
    MakeRoomOk(env, a, o, |data|, live);
    var o1 := MakeRoom(env, o, |data|).value;
    PutOk(o1, live, env.w, a, data);
    PutAppends(o1, data);
  }

  lemma Grow0Ok(env: Env, a: nat, o: Ob, live: seq<Obj>, data: seq<Byte>)
    requires ChunksOk(env, a) && Valid(o, live, env.w, a) && Grow0(env, o, data).Some?
    ensures var o1 := Grow0(env, o, data).value;
            && Valid(o1, live, env.w, a) && Growing(o1) == Growing(o) + data + [0]
            && (Fits(o, |data| + 1) ==> SameChunk(o, o1) && o1.objectBase == o.objectBase)
  {
    MakeRoomOk(env, a, o, |data| + 1, live);
    var o1 := MakeRoom(env, o, |data| + 1).value;
    PutOk(o1, live, env.w, a, data);
    PutAppends(o1, data);
    PutOk(Put(o1, data), live, env.w, a, [0]);
    PutAppends(Put(o1, data), [0]);
  }

  lemma BlankOk(env: Env, a: nat, o: Ob, live: seq<Obj>, n: nat)
    requires ChunksOk(env, a) && Valid(o, live, env.w, a) && Blank(env, o, n).Some?
    ensures var o1 := Blank(env, o, n).value;
            && Valid(o1, live, env.w, a)
            && |Growing(o1)| == |Growing(o)| + n && Growing(o) <= Growing(o1)
            && (Fits(o, n) ==> SameChunk(o, o1) && o1.objectBase == o.objectBase)
  {
    MakeRoomOk(env, a, o, n, live);
    var o1 := MakeRoom(env, o, n).value;
    MemoryAbove(o1, live, env.w, a, o1.mem, o1.nextFree + n);
    var g, g1 := Growing(o1), Growing(Blank(env, o, n).value);
    assert g1[..|g|] == g;
  }

  /** The first aligned place from the end of the object on, or the end of the chunk if there is none before. */
  ghost predicate IsNextBase(o: Ob, a: nat, next: nat) {
    && o.nextFree <= next <= o.chunkLimit && (next == o.chunkLimit || Aligned(next, a))
    && forall y :: o.nextFree <= y <= o.chunkLimit && Aligned(y, a) ==> next <= y
  }

  /** Where the next object starts. */
  lemma FinishBase(env: Env, a: nat, o: Ob)
    requires FieldsOk(o, env.w, a)
    ensures IsNextBase(o, a, Finish(env, o).0.objectBase)
  {
    assert ChunkOk(Chain(o)[0], o.mem, env.w);
    AlignUpIsNext(env.w, o.nextFree, a);
    forall y | o.nextFree <= y <= o.chunkLimit && Aligned(y, a)
      ensures Finish(env, o).0.objectBase <= y
    {
      AlignUpIsLeast(env.w, o.nextFree, a, y);
    }
  }

  /**
   Finishing makes the growing bytes an object at the address returned, after all others in
   its chunk and aligned unless empty; the flag is set just if it is empty or was set before;
   the next object starts empty, at the next aligned place of the chunk.
   */
  lemma FinishOk(env: Env, a: nat, o: Ob, live: seq<Obj>)
    requires Valid(o, live, env.w, a)
    ensures var (o1, addr) := Finish(env, o);
            && Valid(o1, live + [Obj(addr, Growing(o))], env.w, a) && Growing(o1) == []
            && (Growing(o) != [] ==> Aligned(addr, a)) && o1.maybeEmpty == (o.maybeEmpty || Growing(o) == [])
            && Chain(o1) == Chain(o) && o1.nextFree == o1.objectBase && IsNextBase(o, a, o1.objectBase)
  {
    FinishBase(env, a, o);
    FinishLive(o, Finish(env, o).0, live, env.w, a);
  }

  lemma FinishLive(o: Ob, o1: Ob, live: seq<Obj>, w: nat, a: nat)
    requires Valid(o, live, w, a) && MovedUp(o, o1)
    ensures LiveOk(o1, live + [Obj(o.objectBase, Growing(o))], a)
  {
    var x := Obj(o.objectBase, Growing(o));
    FinishAdds(o, o1, x, w, a);
    assert Chain(o1) == Chain(o);
    forall i | 0 <= i < |live|
      ensures ObjOk(o1, a, live[i]) && PairOk(Chain(o1), live[i], x)
    {
      assert ObjOk(o, a, live[i]);
    }
    forall i, j | 0 <= i < j < |live|
      ensures PairOk(Chain(o1), live[i], live[j])
    {
      assert PairOk(Chain(o), live[i], live[j]);
    }
  }

  /** `o1` is `o` with the base moved up past the growing object. */
  predicate MovedUp(o: Ob, o1: Ob) {
    && o1.mem == o.mem && o1.chunk == o.chunk && o1.chunkLimit == o.chunkLimit && o1.older == o.older
    && o.nextFree <= o1.objectBase <= o.chunkLimit && o1.maybeEmpty == (o.maybeEmpty || o.nextFree == o.objectBase)
  }

  lemma FinishAdds(o: Ob, o1: Ob, x: Obj, w: nat, a: nat)
    requires FieldsOk(o, w, a) && MovedUp(o, o1) && x == Obj(o.objectBase, Growing(o))
    ensures ObjOk(o1, a, x) && Depth(Chain(o1), x) == 0
  {
    assert ChunkOk(Chain(o)[0], o.mem, w);
  }

  /** An object strictly inside the current chunk is one of its objects. */
  lemma InChunkIsFirst(o: Ob, w: nat, a: nat, x: Obj)
    requires FieldsOk(o, w, a) && Depth(Chain(o), x) < |Chain(o)| && InChunk(o, x)
    ensures Depth(Chain(o), x) == 0
  {
    var d := Depth(Chain(o), x);
    assert d > 0 ==> Apart(Chain(o)[0], Chain(o)[d]);
  }

  /** Freeing a live object leaves exactly the objects before it, unharmed. */
  lemma FreeOk(env: Env, a: nat, o: Ob, live: seq<Obj>, i: nat)
    requires ChunksOk(env, a) && Valid(o, live, env.w, a) && i < |live|
    ensures var o1 := Free(env, o, live[i].addr);
            && Valid(o1, live[..i], env.w, a) && o1.nextFree == o1.objectBase == live[i].addr
            && (InChunk(o, live[i]) ==> SameChunk(o, o1))
  {
    if InChunk(o, live[i]) {
      FreeInChunk(env, a, o, live, i);
    } else {
      assert FreeOlderOk(env, a, o, live, i);
    }
  }

  lemma FreeInChunk(env: Env, a: nat, o: Ob, live: seq<Obj>, i: nat)
    requires Valid(o, live, env.w, a) && i < |live| && InChunk(o, live[i])
    ensures Valid(Free(env, o, live[i].addr), live[..i], env.w, a)
  {
    var x, o1 := live[i], Free(env, o, live[i].addr);
    assert ObjOk(o, a, x) && Chain(o1) == Chain(o);
    InChunkIsFirst(o, env.w, a, x);
    forall k | 0 <= k < i
      ensures ObjOk(o1, a, live[k])
    {
      assert ObjOk(o, a, live[k]) && PairOk(Chain(o), live[k], x);
    }
    forall j, k | 0 <= j < k < i
      ensures PairOk(Chain(o1), live[j], live[k])
    {
      assert PairOk(Chain(o), live[j], live[k]);
    }
  }

  // ---------------------------------------------------------------- whole runs

  /**
   One use of a macro.  `FreeOp` names the object freed by its address and its place among
   the live objects.  `obstack_alloc`, `obstack_copy` and `obstack_copy0` are a growing
   macro followed by `obstack_finish`, so two uses here.
   */
  datatype Op =
    | RoomOp(n: nat)
    | GrowOp(data: seq<Byte>)
    | Grow0Op(data: seq<Byte>)
    | CharOp(b: Byte)
    | WordOp(data: seq<Byte>)
    | BlankOp(n: nat)
    | FinishOp
    | FreeOp(obj: nat, which: nat)

  /** The new state and the macro's value (0 when it has none). */
  type Outcome = Option<(Ob, nat)>

  function NoValue(r: Option<Ob>): Outcome { if r.Some? then Some((r.value, 0)) else None }

  function Step(env: Env, o: Ob, op: Op): Outcome {
    match op
    case RoomOp(n) => NoValue(MakeRoom(env, o, n))
    case GrowOp(data) => NoValue(Grow(env, o, data))
    case Grow0Op(data) => NoValue(Grow0(env, o, data))
    case CharOp(b) => NoValue(Grow(env, o, [b]))
    case WordOp(data) => NoValue(Grow(env, o, data))
    case BlankOp(n) => NoValue(Blank(env, o, n))
    case FinishOp => Some(Finish(env, o))
    case FreeOp(obj, _) => NoValue(Some(Free(env, o, obj)))
  }

  /** Only live objects may be freed. */
  predicate Legal(live: seq<Obj>, op: Op) {
    op.FreeOp? ==> op.which < |live| && live[op.which].addr == op.obj
  }

  /** The live objects afterwards. */
  ghost function LiveAfter(o: Ob, live: seq<Obj>, op: Op): seq<Obj>
    requires Legal(live, op)
  {
    match op
    case FinishOp => live + [Obj(o.objectBase, Growing(o))]
    case FreeOp(_, which) => live[..which]
    case _ => live
  }

  /** What each macro does to the growing object's bytes `g`. */
  predicate Grows(g: seq<Byte>, op: Op, g1: seq<Byte>) {
    match op
    case RoomOp(_) => g1 == g
    case GrowOp(data) => g1 == g + data
    case Grow0Op(data) => g1 == g + data + [0]
    case CharOp(b) => g1 == g + [b]
    case WordOp(data) => g1 == g + data
    case BlankOp(n) => |g1| == |g| + n && g <= g1
    case FinishOp => g1 == []
    case FreeOp(_, _) => g1 == []
  }

  /** How much room a macro needs. */
  function Needs(op: Op): nat {
    match op
    case RoomOp(n) => n
    case GrowOp(data) => |data|
    case Grow0Op(data) => |data| + 1
    case CharOp(b) => 1
    case WordOp(data) => |data|
    case BlankOp(n) => n
    case FinishOp => 0
    case FreeOp(_, _) => 0
  }

  /**
   Where things are afterwards: a macro that finds room leaves the object where it is, the
   next object starts at the first place it can, and a freed object gives its place.
   */
  ghost predicate Placed(o: Ob, live: seq<Obj>, op: Op, o1: Ob, a: nat)
    requires Legal(live, op)
  {
    match op
    case FinishOp => Chain(o1) == Chain(o) && o1.nextFree == o1.objectBase && IsNextBase(o, a, o1.objectBase)
    case FreeOp(obj, which) => o1.nextFree == o1.objectBase == obj && (InChunk(o, live[which]) ==> SameChunk(o, o1))
    case _ => Fits(o, Needs(op)) ==> SameChunk(o, o1) && o1.objectBase == o.objectBase
  }

  /** Every macro keeps the invariant and does to the objects just what it is for. */
  lemma StepOk(env: Env, a: nat, o: Ob, live: seq<Obj>, op: Op)
    requires ChunksOk(env, a) && Valid(o, live, env.w, a) && Legal(live, op) && Step(env, o, op).Some?
    ensures var (o1, r) := Step(env, o, op).value;
            && Valid(o1, LiveAfter(o, live, op), env.w, a)
            && Grows(Growing(o), op, Growing(o1)) && Placed(o, live, op, o1, a)
            && (op.FinishOp? ==> r == o.objectBase)
  {
    match op
    case RoomOp(n) => MakeRoomOk(env, a, o, n, live);
    case GrowOp(data) => GrowOk(env, a, o, live, data);
    case Grow0Op(data) => Grow0Ok(env, a, o, live, data);
    case CharOp(b) => GrowOk(env, a, o, live, [b]);
    case WordOp(data) => GrowOk(env, a, o, live, data);
    case BlankOp(n) => BlankOk(env, a, o, live, n);
    case FinishOp => FinishOk(env, a, o, live);
    case FreeOp(obj, which) => FreeOk(env, a, o, live, which);
  }

  /** A run: what is live after `ops`, unless a chunk was refused or something not live was freed. */
  ghost function Run(env: Env, o: Ob, live: seq<Obj>, ops: seq<Op>): Option<(Ob, seq<Obj>)>
    decreases |ops|
  {
    if ops == [] then Some((o, live))
    else if !Legal(live, ops[0]) || Step(env, o, ops[0]).None? then None
    else Run(env, Step(env, o, ops[0]).value.0, LiveAfter(o, live, ops[0]), ops[1..])
  }

  /** What users of an obstack rely on. */
  ghost predicate Sound(o: Ob, live: seq<Obj>, a: nat) {
    && o.chunk < o.objectBase <= o.nextFree <= o.chunkLimit
    && (forall i :: 0 <= i < |live| ==>
          Holds(o.mem, live[i]) && (live[i].bytes != [] ==> Aligned(live[i].addr, a)))
    && (forall i, j :: 0 <= i < j < |live| ==> Disjoint(live[i], live[j]))
  }

  /**
   Through every run the live objects stay disjoint, aligned unless empty, and hold their
   bytes; and an object whose place was never freed or lower is still there, unmoved.
   */
  lemma {:induction false} RunKeeps(env: Env, a: nat, o: Ob, live: seq<Obj>, ops: seq<Op>, k: nat)
    requires ChunksOk(env, a) && Valid(o, live, env.w, a)
    ensures Run(env, o, live, ops).Some? ==>
            var (o1, live1) := Run(env, o, live, ops).value;
            && Valid(o1, live1, env.w, a) && Sound(o1, live1, a)
            && (k <= |live| && (forall op :: op in ops && op.FreeOp? ==> k <= op.which) ==>
                  k <= |live1| && live1[..k] == live[..k])
    decreases |ops|
  {
    if ops == [] {
      ValidMeans(env, a, o, live);
    } else if Run(env, o, live, ops).Some? {
      StepOk(env, a, o, live, ops[0]);
      var live0 := LiveAfter(o, live, ops[0]);
      RunKeeps(env, a, Step(env, o, ops[0]).value.0, live0, ops[1..], k);
      if k <= |live| && forall op :: op in ops && op.FreeOp? ==> k <= op.which {
        assert ops[0] in ops && forall op :: op in ops[1..] ==> op in ops;
        assert live0[..k] == live[..k];
      }
    }
  }

  lemma ValidMeans(env: Env, a: nat, o: Ob, live: seq<Obj>)
    requires Valid(o, live, env.w, a)
    ensures forall i :: 0 <= i < |live| ==> Holds(o.mem, live[i]) && (live[i].bytes != [] ==> Aligned(live[i].addr, a))
    ensures forall i, j :: 0 <= i < j < |live| ==> Disjoint(live[i], live[j])
  {
    assert forall i :: 0 <= i < |live| ==> ObjOk(o, a, live[i]);
    forall i, j | 0 <= i < j < |live|
      ensures Disjoint(live[i], live[j])
    {
      assert ObjOk(o, a, live[i]) && PairOk(Chain(o), live[i], live[j]);
      ObjectsDisjoint(Chain(o), o.mem, env.w, live[i], live[j]);
    }
  }

  // ---------------------------------------------------------------- the macros for other compilers

  function PlainMakeRoom(env: Env, o: Ob, length: nat, n: nat): Option<Ob> {
    var o0 := o.(temp := length);
    if Room(env.w, o0) < n then env.newChunk(o0, n) else Some(o0)
  }

  /** Copies as many bytes as the scratch field says. */
  function PlainPut(o: Ob, data: seq<Byte>): Ob {
    Put(o, if o.temp <= |data| then data[..o.temp] else data)
  }

  function PlainGrow(env: Env, o: Ob, data: seq<Byte>): Option<Ob> {
    match PlainMakeRoom(env, o, |data|, |data|)
    case Some(o1) => Some(PlainPut(o1, data))
    case None => None
  }

  function PlainGrow0(env: Env, o: Ob, data: seq<Byte>): Option<Ob> {
    match PlainMakeRoom(env, o, |data|, |data| + 1)
    case Some(o1) => Some(Put(PlainPut(o1, data), [0]))
    case None => None
  }

  /** Moves up first and stores below. */
  function PlainWord(env: Env, o: Ob, data: seq<Byte>): Option<Ob> {
    match MakeRoom(env, o, |data|)
    case Some(o1) =>
      var o2 := o1.(nextFree := o1.nextFree + |data|);
      Some(o2.(mem := Write(o2.mem, o2.nextFree - |data|, data)))
    case None => None
  }

  function PlainBlank(env: Env, o: Ob, n: nat): Option<Ob> {
    match PlainMakeRoom(env, o, n, n)
    case Some(o1) => Some(o1.(nextFree := o1.nextFree + o1.temp))
    case None => None
  }

  function PlainFinish(env: Env, o: Ob): (Ob, nat) {
    var o1 := if o.nextFree == o.objectBase then o.(maybeEmpty := true) else o;
    var o2 := o1.(temp := o1.objectBase);
    var o3 := o2.(nextFree := AlignUp(env.w, o2.nextFree, o2.mask));
    var past := Distance(env.w, o3.nextFree, o3.chunk) > Distance(env.w, o3.chunkLimit, o3.chunk);
    var o4 := if past then o3.(nextFree := o3.chunkLimit) else o3;
    (o4.(objectBase := o4.nextFree), o4.temp)
  }

  function PlainFree(env: Env, o: Ob, obj: nat): Ob {
    var o1 := o.(temp := obj);
    if o1.chunk < o1.temp < o1.chunkLimit then o1.(objectBase := o1.temp, nextFree := o1.temp)
    else env.freeOlder(o1, o1.temp)
  }

  function PlainStep(env: Env, o: Ob, op: Op): Outcome {
    match op
    case RoomOp(n) => NoValue(PlainMakeRoom(env, o, n, n))
    case GrowOp(data) => NoValue(PlainGrow(env, o, data))
    case Grow0Op(data) => NoValue(PlainGrow0(env, o, data))
    case CharOp(b) => NoValue(Grow(env, o, [b]))
    case WordOp(data) => NoValue(PlainWord(env, o, data))
    case BlankOp(n) => NoValue(PlainBlank(env, o, n))
    case FinishOp => Some(PlainFinish(env, o))
    case FreeOp(obj, _) => NoValue(Some(PlainFree(env, o, obj)))
  }

  /** obstack.c leaves the scratch field alone and does not look at it. */
  ghost predicate TempUnused(env: Env) {
    && (forall o: Ob, t: nat, n: nat :: env.newChunk(SetTemp(o, t), n) == WithTemp(env.newChunk(o, n), t))
    && (forall o: Ob, t: nat, p: nat :: env.freeOlder(SetTemp(o, t), p) == SetTemp(env.freeOlder(o, p), t))
  }

  function SetTemp(o: Ob, t: nat): Ob { o.(temp := t) }

  function WithTemp(r: Option<Ob>, t: nat): Option<Ob> { if r.Some? then Some(SetTemp(r.value, t)) else None }

  predicate SameButTemp(x: Ob, y: Ob) { x == SetTemp(y, x.temp) }

  predicate SameOutcome(r: Outcome, s: Outcome) {
    r.Some? == s.Some? && (r.Some? ==> SameButTemp(r.value.0, s.value.0) && r.value.1 == s.value.1)
  }

  lemma MakeRoomSame(env: Env, x: Ob, y: Ob, length: nat, n: nat)
    requires TempUnused(env) && SameButTemp(x, y)
    ensures PlainMakeRoom(env, y, length, n) == WithTemp(MakeRoom(env, x, n), length)
  {
    assert SetTemp(y, length) == SetTemp(x, length);
  }

  /** One macro does the same in both families, but for the scratch field. */
  lemma StepSame(env: Env, x: Ob, y: Ob, op: Op)
    requires TempUnused(env) && SameButTemp(x, y)
    ensures SameOutcome(Step(env, x, op), PlainStep(env, y, op))
  {
    match op
    case RoomOp(n) => MakeRoomSame(env, x, y, n, n);
    case GrowOp(data) => GrowSame(env, x, y, data);
    case Grow0Op(data) => Grow0Same(env, x, y, data);
    case CharOp(b) => CharSame(env, x, y, b);
    case WordOp(data) => WordSame(env, x, y, data);
    case BlankOp(n) => MakeRoomSame(env, x, y, n, n);
    case FinishOp => FinishSame(env, x, y);
    case FreeOp(obj, _) => FreeSame(env, x, y, obj);
  }

  lemma GrowSame(env: Env, x: Ob, y: Ob, data: seq<Byte>)
    requires TempUnused(env) && SameButTemp(x, y)
    ensures SameOutcome(NoValue(Grow(env, x, data)), NoValue(PlainGrow(env, y, data)))
  {
    MakeRoomSame(env, x, y, |data|, |data|);
    assert data[..|data|] == data;
  }

  lemma Grow0Same(env: Env, x: Ob, y: Ob, data: seq<Byte>)
    requires TempUnused(env) && SameButTemp(x, y)
    ensures SameOutcome(NoValue(Grow0(env, x, data)), NoValue(PlainGrow0(env, y, data)))
  {
    MakeRoomSame(env, x, y, |data|, |data| + 1);
    assert data[..|data|] == data;
  }

  lemma CharSame(env: Env, x: Ob, y: Ob, b: Byte)
    requires TempUnused(env) && SameButTemp(x, y)
    ensures SameOutcome(NoValue(Grow(env, x, [b])), NoValue(Grow(env, y, [b])))
  {
    assert x == SetTemp(y, x.temp);
  }

  lemma WordSame(env: Env, x: Ob, y: Ob, data: seq<Byte>)
    requires TempUnused(env) && SameButTemp(x, y)
    ensures SameOutcome(NoValue(Grow(env, x, data)), NoValue(PlainWord(env, y, data)))
  {
    assert x == SetTemp(y, x.temp);
  }

  lemma FinishSame(env: Env, x: Ob, y: Ob)
    requires SameButTemp(x, y)
    ensures SameButTemp(Finish(env, x).0, PlainFinish(env, y).0) && Finish(env, x).1 == PlainFinish(env, y).1
  {
  }

  lemma FreeSame(env: Env, x: Ob, y: Ob, obj: nat)
    requires TempUnused(env) && SameButTemp(x, y)
    ensures SameButTemp(Free(env, x, obj), PlainFree(env, y, obj))
  {
    assert SetTemp(y, obj) == SetTemp(x, obj);
  }

  /** A run of either family: the final state and every value returned. */
  function Values(env: Env, o: Ob, ops: seq<Op>, plain: bool): Option<(Ob, seq<nat>)>
    decreases |ops|
  {
    if ops == [] then Some((o, []))
    else
      match (if plain then PlainStep(env, o, ops[0]) else Step(env, o, ops[0]))
      case None => None
      case Some((o1, r)) =>
        match Values(env, o1, ops[1..], plain)
        case None => None
        case Some((o2, rs)) => Some((o2, [r] + rs))
  }

  /** The two families of macros are equivalent over every run: same memory, same values, same fields. */
  lemma {:induction false} FamiliesAgree(env: Env, x: Ob, y: Ob, ops: seq<Op>)
    requires TempUnused(env) && SameButTemp(x, y)
    ensures var r, s := Values(env, x, ops, false), Values(env, y, ops, true);
            r.Some? == s.Some? && (r.Some? ==> SameButTemp(r.value.0, s.value.0) && r.value.1 == s.value.1)
    decreases |ops|
  {
    if ops != [] {
      StepSame(env, x, y, ops[0]);
      var r, s := Step(env, x, ops[0]), PlainStep(env, y, ops[0]);
      if r.Some? {
        FamiliesAgree(env, r.value.0, s.value.0, ops[1..]);
      }
    }
  }

  // ---------------------------------------------------------------- the struct in memory

  /** `struct obstack` itself, which the macros update field by field, with the objects that are live in it. */
  class Stack {
    const env: Env
    ghost const a: nat
    var chunk: nat
    var objectBase: nat
    var nextFree: nat
    var chunkLimit: nat
    var mask: nat
    var maybeEmpty: bool
    var temp: nat
    var older: seq<Chunk>
    var mem: Memory
    ghost var live: seq<Obj>

    constructor (env: Env, ghost a: nat, o: Ob, ghost live: seq<Obj>)
      requires ChunksOk(env, a) && Valid(o, live, env.w, a)
      ensures Ready() && this.env == env && this.a == a && Value() == o && this.live == live
    {
      this.env, this.a, this.live := env, a, live;
      chunk, objectBase, nextFree, chunkLimit := o.chunk, o.objectBase, o.nextFree, o.chunkLimit;
      mask, maybeEmpty, temp, older, mem := o.mask, o.maybeEmpty, o.temp, o.older, o.mem;
    }

    function Value(): Ob
      reads this
    {
      Ob(chunk, objectBase, nextFree, chunkLimit, mask, maybeEmpty, temp, older, mem)
    }

    ghost predicate Ready()
      reads this
    {
      ChunksOk(env, a) && Valid(Value(), live, env.w, a)
    }

    /** `op` was used on the obstack `o` with the objects `objs` live, and did what it is for. */
    ghost predicate Did(op: Op, o: Ob, objs: seq<Obj>)
      requires Legal(objs, op)
      reads this
    {
      && Step(env, o, op).Some? && Value() == Step(env, o, op).value.0
      && Ready() && live == LiveAfter(o, objs, op)
      && Grows(Growing(o), op, Growing(Value())) && Placed(o, objs, op, Value(), a)
    }

    /** What a function of obstack.c leaves behind. */
    method Store(o: Ob)
      modifies this
      ensures Value() == o && live == old(live)
    {
      chunk, objectBase, nextFree, chunkLimit := o.chunk, o.objectBase, o.nextFree, o.chunkLimit;
      mask, maybeEmpty, temp, older, mem := o.mask, o.maybeEmpty, o.temp, o.older, o.mem;
    }

    /** `obstack_make_room`; false when the new chunk is refused, as for every method below. */
    method Reserve(n: nat) returns (ok: bool)
      requires Ready()
      modifies this
      ensures ok == Step(env, old(Value()), RoomOp(n)).Some?
      ensures ok ==> Did(RoomOp(n), old(Value()), old(live))
    {
      if Room(env.w, Value()) < n {
        var r := env.newChunk(Value(), n);
        if r.None? { return false; }
        StepOk(env, a, Value(), live, RoomOp(n));
        Store(r.value);
      } else {
        StepOk(env, a, Value(), live, RoomOp(n));
      }
      return true;
    }

    /** The copy and the advance that all growing macros share. */
    method WriteOut(data: seq<Byte>)
      modifies `mem, `nextFree
      ensures Value() == Put(old(Value()), data)
    {
      mem := Write(mem, nextFree, data);
      nextFree := nextFree + |data|;
    }

    /** `obstack_grow`, and `obstack_1grow` and the like for data of their size. */
    method Append(data: seq<Byte>) returns (ok: bool)
      requires Ready()
      modifies this
      ensures ok == Step(env, old(Value()), GrowOp(data)).Some?
      ensures ok ==> Did(GrowOp(data), old(Value()), old(live))
    {
      ok := Reserve(|data|);
      if ok {
        StepOk(env, a, old(Value()), live, GrowOp(data));
        WriteOut(data);
      }
    }

    method Append0(data: seq<Byte>) returns (ok: bool)
      requires Ready()
      modifies this
      ensures ok == Step(env, old(Value()), Grow0Op(data)).Some?
      ensures ok ==> Did(Grow0Op(data), old(Value()), old(live))
    {
      ok := Reserve(|data| + 1);
      if ok {
        ghost var o := Value();
        WriteOut(data);
        WriteOut([0]);
        assert Value() == Put(Put(o, data), [0]) == Step(env, old(Value()), Grow0Op(data)).value.0;
        StepOk(env, a, old(Value()), live, Grow0Op(data));
      }
    }

    method Skip(n: nat) returns (ok: bool)
      requires Ready()
      modifies this
      ensures ok == Step(env, old(Value()), BlankOp(n)).Some?
      ensures ok ==> Did(BlankOp(n), old(Value()), old(live))
    {
      ok := Reserve(n);
      if ok {
        StepOk(env, a, old(Value()), live, BlankOp(n));
        nextFree := nextFree + n;
      }
    }

    /** `obstack_finish`: the object is live from now on, at the address returned. */
    method Complete() returns (obj: nat)
      requires Ready()
      modifies this
      ensures Did(FinishOp, old(Value()), old(live)) && live[|live| - 1] == Obj(obj, Growing(old(Value())))
      ensures objectBase == nextFree && IsNextBase(old(Value()), a, nextFree)
    {
      StepOk(env, a, Value(), live, FinishOp);
      live := LiveAfter(Value(), live, FinishOp);
      obj := objectBase;
      if nextFree == objectBase { maybeEmpty := true; }
      nextFree := AlignUp(env.w, nextFree, mask);
      if Distance(env.w, nextFree, chunk) > Distance(env.w, chunkLimit, chunk) { nextFree := chunkLimit; }
      objectBase := nextFree;
    }

    /** `obstack_copy`: an object that holds what was growing and the data. */
    method Copy(data: seq<Byte>) returns (ok: bool, obj: nat)
      requires Ready()
      modifies this
      ensures ok == Step(env, old(Value()), GrowOp(data)).Some?
      ensures ok ==> Ready() && live == old(live) + [Obj(obj, Growing(old(Value())) + data)]
    {
      obj := 0;
      ok := Append(data);
      if ok { obj := Complete(); }
    }

    /** `obstack_alloc`: an object that is longer by that much. */
    method Allocate(n: nat) returns (ok: bool, obj: nat)
      requires Ready()
      modifies this
      ensures ok == Step(env, old(Value()), BlankOp(n)).Some?
      ensures ok ==> Ready() && |live| == |old(live)| + 1 && live[..|live| - 1] == old(live)
      ensures ok ==> live[|live| - 1].addr == obj && |live[|live| - 1].bytes| == |Growing(old(Value()))| + n
    {
      obj := 0;
      ok := Skip(n);
      if ok { obj := Complete(); }
    }

    /** `obstack_free`: the object and all later ones are gone. */
    method Release(obj: nat, ghost which: nat)
      requires Ready() && Legal(live, FreeOp(obj, which))
      modifies this
      ensures Did(FreeOp(obj, which), old(Value()), old(live))
    {
      StepOk(env, a, Value(), live, FreeOp(obj, which));
      if chunk < obj < chunkLimit {
        nextFree, objectBase := obj, obj;
      } else {
        Store(env.freeOlder(Value(), obj));
      }
      live := live[..which];
    }
  }
}
