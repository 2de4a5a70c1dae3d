/**
 The runtime's objects and their methods (`Virtine.cpp`, `Cache.cpp`, `binding.cpp`), each
 proved against the values of `Machine` and the run loop of `Hypercalls`.

 All virtines of a cache point to one reset state object; a snapshot by one of them
 overwrites it for all.
 */
module Runtime {
  import opened Common
  import opened Hypercalls
  import opened Machine
  import Snapshots

  /** `ResetState`. */
  class ResetState {
    var cpu: Cpu
    var regions: seq<Region>

    constructor (cpu: Cpu, regions: seq<Region>)
      ensures Value() == Reset(cpu, regions)
    {
      this.cpu, this.regions := cpu, regions;
    }

    function Value(): Reset
      reads this
    {
      Reset(cpu, regions)
    }
  }

  /** `memcpy` into guest memory. */
  method CopyIn(mem: array<Byte>, at: nat, data: seq<Byte>)
    requires at + |data| <= mem.Length
    modifies mem
    ensures mem[..] == Overlay(old(mem[..]), Region(at, data))
  {
    var i := 0;
    while i < |data|
      invariant 0 <= i <= |data|
      invariant forall j :: 0 <= j < mem.Length ==> mem[j] == if at <= j < at + i then data[j - at] else old(mem[j])
    {
      mem[at + i] := data[i];
      i := i + 1;
    }
    assert mem[..] == Overlay(old(mem[..]), Region(at, data));
  }

  /** What `allocate_memory` does with a size: maps it, or throws one of two exceptions. */
  datatype MemoryResult = Mapped | ZeroSize | Unaligned

  function SizeResult(memsz: nat): MemoryResult {
    if memsz == 0 then ZeroSize else if memsz % 4096 != 0 then Unaligned else Mapped
  }

  class Virtine {
    var cpu: Cpu
    var mem: array<Byte>
    const own: ResetState
    var mask: ResetState?

    /** A new machine has the boot registers, no memory yet, and remembers them as its own reset state. */
    constructor (boot: Cpu)
      ensures cpu == boot && mem.Length == 0 && mask == null && own.Value() == Reset(boot, [])
      ensures fresh(mem) && fresh(own)
    {
      cpu := boot;
      mem := new Byte[0];
      own := new ResetState(boot, []);
      mask := null;
    }

    function State(): Vm
      reads this, mem
    {
      Vm(cpu, mem[..])
    }

    /** The reset state in force: the shared one if there is one. */
    function Rst(): ResetState
      reads this
    {
      if mask != null then mask else own
    }

    method SetResetMask(mask: ResetState)
      modifies `mask
      ensures Rst() == mask
    {
      this.mask := mask;
    }

    /** Without regions: the existing ones are dropped. */
    method SaveResetState()
      modifies Rst()
      ensures Rst().Value() == Reset(cpu, [])
    {
      var r := Rst();
      r.cpu, r.regions := cpu, [];
    }

    method SaveResetStateWith(regions: seq<Region>)
      modifies Rst()
      ensures Rst().Value() == Reset(cpu, regions)
    {
      var r := Rst();
      r.cpu, r.regions := cpu, regions;
    }

    method AllocateMemory(memsz: nat) returns (r: MemoryResult)
      modifies `mem
      ensures r == SizeResult(memsz)
      ensures (r.ZeroSize? <==> memsz == 0) && (r.Mapped? <==> memsz > 0 && memsz % 4096 == 0)
      ensures r.Mapped? ==> fresh(mem) && mem[..] == Zeros(memsz)
      ensures r.Mapped? ==> mem.Length == memsz && forall i :: 0 <= i < memsz ==> mem[i] == 0
      ensures !r.Mapped? ==> mem == old(mem)
    {
      if memsz == 0 {
        return ZeroSize;
      }
      if memsz % 4096 != 0 {
        return Unaligned;
      }
      mem := new Byte[memsz](_ => 0);
      return Mapped;
    }

    /** Registers from the reset state, then each region copied in turn. */
    method ResetToState()
      requires AllFit(Rst().regions, mem.Length)
      modifies `cpu, mem
      ensures State() == ResetVm(old(State()), old(Rst().Value()))
    {
      var rst := Rst();
      cpu := rst.cpu;
      var i := 0;
      assert rst.regions[..0] == [];
      while i < |rst.regions|
        invariant 0 <= i <= |rst.regions|
        invariant cpu == rst.cpu && AllFit(rst.regions, mem.Length) && AllFit(rst.regions[..i], mem.Length)
        invariant mem[..] == Overlays(old(mem[..]), rst.regions[..i])
      {
        var r := rst.regions[i];
        assert Fits(r, mem.Length);
        CopyIn(mem, r.address, r.data);
        assert rst.regions[..i + 1][..i] == rst.regions[..i];
        i := i + 1;
      }
      assert rst.regions[..|rst.regions|] == rst.regions;
    }

    /**
     `load_raw`: refuse an image that does not fit, else copy it and start there.  The test
     computes its sum in 64 bits; where that wraps, the copy would leave memory.
     */
    method LoadRaw(bin: seq<Byte>, rip: Word) returns (r: LoadResult)
      modifies `cpu, mem
      ensures r == if (rip + |bin|) % MOD64 > mem.Length then Refused
                   else if rip + |bin| <= mem.Length then Loaded
                   else Overrun
      ensures r == Loaded ==>
                State() == Vm(old(cpu).(regs := old(cpu).regs.(rip := rip)), Overlay(old(mem[..]), Region(rip, bin)))
      ensures r == Refused ==> State() == old(State())
    {
      if (rip + |bin|) % MOD64 > mem.Length {
        return Refused;
      }
      if rip + |bin| > mem.Length {
        return Overrun;
      }
      CopyIn(mem, rip, bin);
      cpu := cpu.(regs := cpu.regs.(rip := rip));
      return Loaded;
    }
  }

  datatype LoadResult = Refused | Loaded | Overrun

  /** The test of `load_raw` lets an image through that does not fit exactly when the sum wraps. */
  lemma LoadOverruns(memsz: nat, rip: Word, size: nat)
    requires memsz < MOD64 && size < MOD64
    ensures (rip + size) % MOD64 <= memsz && rip + size > memsz <==> MOD64 <= rip + size <= MOD64 + memsz
  {
  }

  /** No virtine occurs twice, and no two share memory. */
  ghost predicate Separate(vs: seq<Virtine>)
    reads vs
  {
    forall i, j :: 0 <= i < j < |vs| ==> vs[i] != vs[j] && vs[i].mem != vs[j].mem
  }

  lemma SeparateTail(vs: seq<Virtine>)
    requires Separate(vs) && vs != []
    ensures Separate(vs[1..]) && vs[0] !in vs[1..]
    ensures forall u :: u in vs[1..] ==> u.mem != vs[0].mem
  {
    forall i | 0 <= i < |vs| - 1
      ensures vs[1..][i] == vs[i + 1] && vs[i + 1] != vs[0] && vs[i + 1].mem != vs[0].mem
    {
    }
  }

  /** A cache of virtines that run one binary; the lock around these methods is the subject of `Pool`. */
  class Cache {
    const memsz: nat
    const boot: Cpu
    var reset: ResetState?
    var binary: seq<Byte>
    var start: nat
    var pool: seq<Virtine>
    var hits: nat
    var misses: nat

    constructor (memsz: nat, boot: Cpu)
      ensures Valid() && pool == [] && reset == null && hits == 0 && misses == 0 && binary == []
      ensures this.memsz == memsz && this.boot == boot
    {
      this.memsz, this.boot := memsz, boot;
      reset, binary, start, pool, hits, misses := null, [], 0, [], 0, 0;
    }

    ghost function Memories(): set<object>
      reads this, pool
    {
      set v | v in pool :: v.mem
    }

    /** A virtine of this cache: it shares the reset state and has memory of the right size. */
    ghost predicate Ready(v: Virtine)
      reads this, v
    {
      reset != null && v.mask == reset && v.mem.Length == memsz && SizeResult(memsz).Mapped?
    }

    ghost predicate Valid()
      reads this, reset, pool
    {
      && (reset != null && SizeResult(memsz).Mapped? ==> AllFit(reset.regions, memsz))
      && (forall v :: v in pool ==> Ready(v))
      && Separate(pool)
    }

    /** The virtine is not pooled, and shares no memory with a pooled one. */
    ghost predicate Apart(v: Virtine)
      reads this, v, pool
    {
      v !in pool && forall u :: u in pool ==> u.mem != v.mem
    }

    /** The value of the shared reset state once the first allocation has been made. */
    function CurrentReset(): Reset
      reads this, reset
    {
      if reset == null then InitialReset(boot, binary, start) else reset.Value()
    }

    /** Memory of this size, if there can be such, holds what a reset copies. */
    ghost predicate Loadable()
      reads this, reset
    {
      SizeResult(memsz).Mapped? ==> AllFit(CurrentReset().regions, memsz)
    }

    /** A virtine can be handed out: there is one, or one can be made. */
    ghost predicate CanServe()
      reads this, reset, pool
    {
      Valid() && (pool == [] ==> SizeResult(memsz).Mapped? && Loadable())
    }

    /** The machine the next `get` hands out. */
    ghost function NextVm(): (vm: Vm)
      requires CanServe()
      reads this, reset, pool, Memories()
      ensures |vm.mem| == memsz
    {
      if pool == [] then AllocateVm(memsz, boot, CurrentReset()) else assert pool[0] in pool; pool[0].State()
    }

    /** The virtine has just booted: boot registers, the binary where it belongs, and zeros elsewhere. */
    ghost predicate Booted(v: Virtine)
      reads this, v, v.mem
    {
      && v.cpu == boot && v.mem.Length == memsz
      && start + |binary| <= memsz && v.mem[start..start + |binary|] == binary
      && forall i :: 0 <= i < memsz && !(start <= i < start + |binary|) ==> v.mem[i] == 0
    }

    /** Any binary; whether it fits is seen when a virtine is made. */
    method SetBinary(data: seq<Byte>, start: nat)
      requires Valid()
      modifies `binary, `start
      ensures Valid() && binary == data && this.start == start
    {
      binary, this.start := data, start;
    }

    /** A memory size that cannot be mapped is an exception; the reset state stays made. */
    method Allocate() returns (r: MemoryResult, v: Virtine)
      requires Valid() && Loadable()
      modifies `reset
      ensures Valid() && r == SizeResult(memsz) && fresh(v)
      ensures old(reset) == null ==> fresh(reset)
      ensures old(reset) != null ==> reset == old(reset)
      ensures CurrentReset() == old(CurrentReset())
      ensures r.Mapped? ==> Ready(v) && fresh(v.mem) && v.State() == AllocateVm(memsz, boot, CurrentReset())
      ensures r.Mapped? && old(reset) == null ==> Booted(v)
    {
      v := new Virtine(boot);
      if reset == null {
        reset := new ResetState(v.cpu, [Region(start, binary)]);
      }
      v.SetResetMask(reset);
      r := v.AllocateMemory(memsz);
      if r.Mapped? {
        if old(reset) == null {
          assert Fits(CurrentReset().regions[0], memsz);
          BootedIs(memsz, boot, binary, start);
        }
        v.ResetToState();
      }
    }

    method PopFront() returns (v: Virtine)
      requires Valid() && pool != []
      modifies `pool
      ensures Valid() && Ready(v) && Apart(v) && [v] + pool == old(pool)
    {
      v := pool[0];
      assert v in pool && Ready(v);
      SeparateTail(pool);
      pool := pool[1..];
      assert [v] + pool == old(pool);
      assert forall u :: u in pool ==> u in old(pool);
    }

    /** The front of the pool, or a new virtine; `r` tells of an exception. */
    method Get() returns (r: MemoryResult, v: Virtine)
      requires Valid() && (pool == [] ==> Loadable())
      modifies `reset, `pool, `hits, `misses
      ensures Valid() && (r.Mapped? ==> Ready(v) && Apart(v))
      ensures CurrentReset() == old(CurrentReset()) && (reset == old(reset) || fresh(reset))
      ensures if old(pool) == [] then
                && r == SizeResult(memsz) && pool == [] && misses == old(misses) + 1 && hits == old(hits)
                && (r.Mapped? ==> fresh(v) && fresh(v.mem) && v.State() == AllocateVm(memsz, boot, CurrentReset()))
              else
                && r.Mapped? && [v] + pool == old(pool) && reset == old(reset) && v.State() == old(pool[0].State())
                && hits == old(hits) + 1 && misses == old(misses)
    {
      if |pool| == 0 {
        misses := misses + 1;
        r, v := Allocate();
      } else {
        hits := hits + 1;
        v := PopFront();
        r := Mapped;
      }
    }

    /** Clean the virtine, then hand it back. */
    method Put(v: Virtine)
      requires Valid() && Ready(v) && Apart(v)
      modifies `pool, v`cpu, v.mem
      ensures Valid() && pool == old(pool) + [v]
      ensures v.State() == ResetVm(old(v.State()), CurrentReset())
      ensures forall u :: u in old(pool) ==> u.State() == old(u.State())
    {
      v.ResetToState();
      pool := pool + [v];
    }

    /** `push_front(allocate())`. */
    method PushNew() returns (r: MemoryResult)
      requires Valid() && Loadable()
      modifies `reset, `pool
      ensures Valid() && Loadable() && CurrentReset() == old(CurrentReset()) && r == SizeResult(memsz)
      ensures if old(reset) == null then fresh(reset) else reset == old(reset)
      ensures !r.Mapped? ==> pool == old(pool)
      ensures r.Mapped? ==> |pool| == |old(pool)| + 1 && pool[1..] == old(pool)
      ensures r.Mapped? ==>
                fresh(pool[0]) && fresh(pool[0].mem) && pool[0].State() == AllocateVm(memsz, boot, CurrentReset())
    {
      var v;
      r, v := Allocate();
      if r.Mapped? {
        pool := [v] + pool;
      }
    }

    /** The pool topped up to the count; an exception leaves it as it was. */
    method Ensure(count: nat) returns (r: MemoryResult)
      requires Valid() && Loadable()
      modifies `reset, `pool
      ensures Valid() && CurrentReset() == old(CurrentReset())
      ensures r == if |old(pool)| < count then SizeResult(memsz) else Mapped
      ensures |pool| == if |old(pool)| < count && r.Mapped? then count else |old(pool)|
      ensures |old(pool)| <= |pool| && pool[|pool| - |old(pool)|..] == old(pool)
      ensures forall u :: u in old(pool) ==> u.State() == old(u.State())
      ensures forall i :: 0 <= i < |pool| - |old(pool)| ==>
                fresh(pool[i]) && pool[i].State() == AllocateVm(memsz, boot, CurrentReset())
    {
      r := Mapped;
      while |pool| < count && r.Mapped?
        invariant Valid() && Loadable() && CurrentReset() == old(CurrentReset())
        invariant reset == old(reset) || (old(reset) == null && fresh(reset))
        invariant |old(pool)| <= |pool| && (|pool| <= count || pool == old(pool))
        invariant r.Mapped? || (pool == old(pool) && |pool| < count && r == SizeResult(memsz))
        invariant |pool| > |old(pool)| ==> SizeResult(memsz).Mapped?
        invariant pool[|pool| - |old(pool)|..] == old(pool)
        invariant forall u :: u in old(pool) ==> u.State() == old(u.State())
        invariant forall i :: 0 <= i < |pool| - |old(pool)| ==>
                    fresh(pool[i]) && fresh(pool[i].mem) && pool[i].State() == AllocateVm(memsz, boot, CurrentReset())
        decreases count - |pool|, if r.Mapped? then 1 else 0
      {
        r := PushNew();
      }
    }
  }

  // ---------------------------------------------------------------- running a virtine

  /** The call as the run loop of `Hypercalls` sees it. */
  ghost function LoopOf(v: Virtine, r: ResetState, trace: seq<Event>, status: Status): Loop
    reads v, v.mem, r
  {
    Loop(v.State(), r.Value(), trace, status)
  }

  /** Let the guest run to its next exit. */
  method RunGuest(cfg: Config, v: Virtine) returns (exit: ExitReason)
    requires KeepsSize(cfg)
    modifies v`cpu, v.mem
    ensures (exit, v.State()) == cfg.guest(old(v.State()))
  {
    var (e, s) := cfg.guest(Vm(v.cpu, v.mem[..]));
    assert |cfg.guest(Vm(v.cpu, v.mem[..])).1.mem| == v.mem.Length;
    v.cpu := s.cpu;
    CopyIn(v.mem, 0, s.mem);
    assert v.mem[..] == s.mem;
    exit := e;
  }

  /** The snapshot hypercall: skip the `out` instruction, then save registers and memory. */
  method TakeSnapshot(v: Virtine) returns (status: Status)
    modifies v`cpu, v.Rst()
    ensures v.State() == SkipOut(old(v.State()))
    ensures status == if v.cpu.regs.rdx > v.mem.Length then Undefined else Running
    ensures v.Rst().Value() == if status == Running then Snapshot(v.State(), v.cpu.regs.rdx) else old(v.Rst().Value())
  {
    v.cpu := v.cpu.(regs := v.cpu.regs.(rip := (v.cpu.regs.rip + 2) % MOD64));
    if v.cpu.regs.rdx > v.mem.Length {
      return Undefined;
    }
    var data := v.mem[..v.cpu.regs.rdx];
    v.SaveResetStateWith([Region(0, data)]);
    assert v.State().mem[..v.cpu.regs.rdx] == data;
    return Running;
  }

  /** Perform a host operation for the guest and hand its reply over. */
  method Perform(cfg: Config, v: Virtine, trace0: seq<Event>, op: HostOp) returns (trace: seq<Event>)
    requires HostOpOf(v.State()) == Some(op)
    modifies v`cpu, v.mem
    ensures var reply := cfg.host(trace0, op);
            && trace == trace0 + [Event(op, reply)]
            && v.State() == WithRax(old(v.State()).(mem := Stored(old(v.mem[..]), op, reply.data)), reply.rax)
  {
    var reply := cfg.host(trace0, op);
    if (op.Read? || op.Fstat?) && Inside(op.buf, v.mem.Length) {
      CopyIn(v.mem, op.buf.addr, if |reply.data| <= op.buf.len then reply.data else reply.data[..op.buf.len]);
    }
    v.cpu := v.cpu.(regs := v.cpu.regs.(rax := reply.rax));
    trace := trace0 + [Event(op, reply)];
  }

  /** The body of the `switch` on the hypercall number. */
  method ServeHypercall(cfg: Config, v: Virtine, trace0: seq<Event>) returns (trace: seq<Event>, status: Status)
    modifies v`cpu, v.mem, v.Rst()
    ensures v.mem == old(v.mem)
    ensures LoopOf(v, v.Rst(), trace, status) == Serve(cfg, old(LoopOf(v, v.Rst(), trace0, Running)))
  {
    trace, status := trace0, Running;
    var rdi := v.cpu.regs.rdi;
    if rdi == HCALL_SNAPSHOT {
      if cfg.useSnapshots {
        status := TakeSnapshot(v);
      }
    } else if rdi == HCALL_EXIT {
      status := Done;
    } else if Serves(rdi) {
      var op := HostOpOf(Vm(v.cpu, v.mem[..]));
      if op.Some? {
        trace := Perform(cfg, v, trace0, op.value);
      }
    } else {
      v.cpu := v.cpu.(regs := v.cpu.regs.(rax := MINUS_ENOSYS));
    }
  }

  /** One turn of the run loop. */
  method RunOnce(cfg: Config, v: Virtine, trace0: seq<Event>) returns (trace: seq<Event>, status: Status)
    requires KeepsSize(cfg)
    modifies v`cpu, v.mem, v.Rst()
    ensures v.mem == old(v.mem)
    ensures LoopOf(v, v.Rst(), trace, status) == LoopStep(cfg, old(LoopOf(v, v.Rst(), trace0, Running)))
  {
    trace, status := trace0, Running;
    var exit := RunGuest(cfg, v);
    match exit {
      case HyperCall =>
        var regs := v.cpu.regs;
        if HypercallAllowed(cfg, ToInt32(regs.rdi)) {
          trace, status := ServeHypercall(cfg, v, trace0);
        } else {
          regs := regs.(rax := MINUS_ENOSYS);   // in the copy only, which is not written back
        }
      case Crashed => status := Aborted;
      case Exited => status := Done;
      case _ =>
    }
  }

  /** Where a call starts on a given machine: argument copied in, and without snapshots the boot address set. */
  function Prepared(cfg: Config, vm: Vm, arg: Option<seq<Byte>>): Vm
    requires arg.Some? ==> |arg.value| <= |vm.mem|
  {
    var vm1 := if arg.Some? then vm.(mem := Overlay(vm.mem, Region(0, arg.value))) else vm;
    if cfg.useSnapshots then vm1
    else vm1.(cpu := vm1.cpu.(regs := vm1.cpu.regs.(rip := 0x8000, rsp := 0x8000)))
  }

  /**
   What a call finds: its argument in the first bytes and the rest of memory as it was; with
   snapshots the registers as they were, and without them both addresses at 0x8000.
   */
  ghost predicate Started(cfg: Config, vm: Vm, arg: Option<seq<Byte>>, vm1: Vm) {
    var size := if arg.Some? then |arg.value| else 0;
    && size <= |vm.mem| == |vm1.mem| && vm1.mem[size..] == vm.mem[size..]
    && (arg.Some? ==> vm1.mem[..size] == arg.value)
    && vm1.cpu == if cfg.useSnapshots then vm.cpu
                  else Cpu(vm.cpu.regs.(rip := 0x8000, rsp := 0x8000), vm.cpu.sregs, vm.cpu.fpu)
  }

  lemma StartedIs(cfg: Config, vm: Vm, arg: Option<seq<Byte>>)
    requires arg.Some? ==> |arg.value| <= |vm.mem|
    ensures Started(cfg, vm, arg, Prepared(cfg, vm, arg))
  {
    var vm1 := Prepared(cfg, vm, arg);
    if arg.Some? {
      assert vm1.mem[..|arg.value|] == arg.value;
      assert vm1.mem[|arg.value|..] == vm.mem[|arg.value|..];
    }
  }

  /** With snapshots a call starts as the calls that share a cache do. */
  lemma StartIsBegin(cfg: Config, vm: Vm, arg: seq<Byte>)
    requires cfg.useSnapshots && |arg| <= |vm.mem|
    ensures Prepared(cfg, vm, Some(arg)) == Snapshots.WithArg(vm, arg)
  {
    StartedIs(cfg, vm, Some(arg));
    var mem := Prepared(cfg, vm, Some(arg)).mem;
    assert mem == mem[..|arg|] + mem[|arg|..];
  }

  method Prepare(cfg: Config, v: Virtine, arg: array?<Byte>)
    requires arg != v.mem && (arg != null ==> arg.Length <= v.mem.Length)
    modifies v`cpu, v.mem
    ensures v.State() == Prepared(cfg, old(v.State()), ArgOf(arg))
    ensures v.mem == old(v.mem) && Started(cfg, old(v.State()), ArgOf(arg), v.State())
  {
    StartedIs(cfg, v.State(), ArgOf(arg));
    if arg != null {
      CopyIn(v.mem, 0, arg[..]);
    }
    if !cfg.useSnapshots {
      v.cpu := v.cpu.(regs := v.cpu.regs.(rip := 0x8000, rsp := 0x8000));
    }
  }

  method RunToEnd(cfg: Config, v: Virtine, ghost limit: nat) returns (trace: seq<Event>, status: Status)
    requires KeepsSize(cfg) && Iterate(cfg, LoopOf(v, v.Rst(), [], Running), limit).status != Running
    modifies v`cpu, v.mem, v.Rst()
    ensures v.mem == old(v.mem) && status != Running
    ensures LoopOf(v, v.Rst(), trace, status) == Iterate(cfg, old(LoopOf(v, v.Rst(), [], Running)), limit)
  {
    trace, status := [], Running;
    ghost var start := LoopOf(v, v.Rst(), [], Running);
    ghost var i := 0;
    while status == Running
      invariant i <= limit && v.mem == old(v.mem) && v.Rst() == old(v.Rst())
      invariant LoopOf(v, v.Rst(), trace, status) == Iterate(cfg, start, i)
      decreases limit - i
    {
      trace, status := RunOnce(cfg, v, trace);
      i := i + 1;
    }
    DoneStays(cfg, start, i, limit);
  }

  /**
   The middle of `wasp_run_virtine`: prepare, run until the call is over, copy the argument out.
   `limit` bounds the exits of a guest that comes to an end; one that does not keeps its thread.
   */
  method Execute(cfg: Config, v: Virtine, arg: array?<Byte>, ghost limit: nat)
    returns (trace: seq<Event>, status: Status)
    requires KeepsSize(cfg) && arg != v.mem
    requires arg != null ==> arg.Length <= v.mem.Length
    requires var start := Loop(Prepared(cfg, v.State(), ArgOf(arg)), v.Rst().Value(), [], Running);
             Iterate(cfg, start, limit).status != Running
    modifies v`cpu, v.mem, v.Rst(), arg
    ensures v.mem == old(v.mem)
    ensures var start := Loop(Prepared(cfg, old(v.State()), old(ArgOf(arg))), old(v.Rst().Value()), [], Running);
            LoopOf(v, v.Rst(), trace, status) == Iterate(cfg, start, limit)
    ensures status != Running
    ensures arg != null && status == Done ==> arg[..] == v.mem[..arg.Length]
    ensures arg != null && status != Done ==> arg[..] == old(arg[..])
  {
    Prepare(cfg, v, arg);
    trace, status := RunToEnd(cfg, v, limit);
    if arg != null && status == Done {
      CopyIn(arg, 0, v.mem[..arg.Length]);
    }
  }

  function ArgOf(arg: array?<Byte>): Option<seq<Byte>>
    reads arg
  {
    if arg == null then None else Some(arg[..])
  }

  /** How a call on this cache ends, if it ends within `limit` exits. */
  ghost function FinalLoop(cfg: Config, c: Cache, arg: array?<Byte>, limit: nat): Loop
    requires c.CanServe() && (arg != null ==> arg.Length <= c.memsz)
    reads c, c.reset, c.pool, c.Memories(), arg
  {
    Iterate(cfg, Loop(Prepared(cfg, c.NextVm(), ArgOf(arg)), c.CurrentReset(), [], Running), limit)
  }

  /** The caller's argument buffer can be passed to a virtine of this cache. */
  ghost predicate ArgFits(c: Cache, arg: array?<Byte>)
    reads c, c.pool
  {
    arg != null ==> arg.Length <= c.memsz && arg !in c.Memories()
  }

  /** From `get` to the end of the run loop: the virtine taken is outside the pool. */
  method TakeAndRun(cfg: Config, c: Cache, arg: array?<Byte>, ghost limit: nat)
    returns (v: Virtine, trace: seq<Event>, status: Status, ghost final: Loop)
    requires KeepsSize(cfg) && c.CanServe() && ArgFits(c, arg)
    requires FinalLoop(cfg, c, arg, limit).status != Running
    modifies c, c.pool, c.Memories(), c.reset, arg
    ensures c.Valid() && c.Ready(v) && c.Apart(v)
    ensures if old(c.pool) == [] then c.pool == [] && fresh(v) else c.pool == old(c.pool)[1..] && v == old(c.pool)[0]
    ensures AllFit(c.CurrentReset().regions, |v.State().mem|)
    ensures v.mem in old(c.Memories()) || fresh(v.mem)
    ensures final == old(FinalLoop(cfg, c, arg, limit))
    ensures Loop(v.State(), c.CurrentReset(), trace, status) == final
    ensures arg != null && status == Done ==> arg.Length <= |v.State().mem| && arg[..] == v.State().mem[..arg.Length]
  {
    var r;
    r, v := c.Get();
    assert old(c.pool) != [] ==> v == old(c.pool)[0] && v in old(c.pool);
    ghost var start := Loop(Prepared(cfg, v.State(), ArgOf(arg)), v.Rst().Value(), [], Running);
    ResetStaysFit(cfg, start, limit);
    SizeKept(cfg, start, limit);
    trace, status := Execute(cfg, v, arg, limit);
    final := LoopOf(v, v.Rst(), trace, status);
  }

  /** How the first call of a code ends, if it ends within `limit` exits. */
  ghost function FirstLoop(cfg: Config, binary: seq<Byte>, memsz: nat, boot: Cpu, arg: array?<Byte>, limit: nat): Loop
    requires 0x8000 + |binary| <= memsz && (arg != null ==> arg.Length <= memsz)
    reads arg
  {
    var rst := InitialReset(boot, binary, 0x8000);
    Iterate(cfg, Loop(Prepared(cfg, AllocateVm(memsz, boot, rst), ArgOf(arg)), rst, [], Running), limit)
  }

  /** With snapshots the first call of a code is the cold call that all later ones are compared with. */
  lemma FirstIsCold(cfg: Config, binary: seq<Byte>, memsz: nat, boot: Cpu, arg: array<Byte>, limit: nat)
    requires cfg.useSnapshots && 0x8000 + |binary| <= memsz && arg.Length <= memsz
    ensures FirstLoop(cfg, binary, memsz, boot, arg, limit) ==
            Snapshots.Cold(Snapshots.Setup(memsz, boot, binary, 0x8000, arg.Length), cfg, arg[..], limit)
  {
    var vm := AllocateVm(memsz, boot, InitialReset(boot, binary, 0x8000));
    StartIsBegin(cfg, vm, arg[..]);
  }

  /** And a later one starts on the front of the pool as a call of `Snapshots` begins there. */
  lemma LaterIsBegin(cfg: Config, c: Cache, arg: array<Byte>, limit: nat)
    requires cfg.useSnapshots && c.CanServe() && c.pool != [] && arg.Length <= c.memsz
    ensures arg.Length <= |c.pool[0].State().mem|
    ensures FinalLoop(cfg, c, arg, limit) ==
            Iterate(cfg, Loop(Snapshots.WithArg(c.pool[0].State(), arg[..]), c.CurrentReset(), [], Running), limit)
  {
    assert c.pool[0] in c.pool && c.Ready(c.pool[0]);
    StartIsBegin(cfg, c.pool[0].State(), arg[..]);
  }

  /** The caches by code pointer (`cached_virtines`). */
  class Registry {
    var caches: map<nat, Cache>

    /** The cache of `code`, made on first use; an existing one keeps its binary and memory size. */
    method GetCache(code: nat, binary: seq<Byte>, memsz: nat, boot: Cpu) returns (c: Cache)
      modifies `caches
      ensures code in caches && c == caches[code]
      ensures code in old(caches) ==> caches == old(caches)
      ensures code !in old(caches) ==>
                caches == old(caches)[code := c] && fresh(c) && c.Valid() && c.pool == [] && c.reset == null
      ensures code !in old(caches) ==> c.memsz == memsz && c.boot == boot && c.binary == binary && c.start == 0x8000
    {
      if code !in caches {
        c := new Cache(memsz, boot);
        c.SetBinary(binary, 0x8000);
        caches := caches[code := c];
      } else {
        c := caches[code];
      }
    }

    /**
     The rest of `wasp_run_virtine` once the cache is there and can serve: one virtine is taken, the call runs, and the
     same virtine goes back, clean, to the cache it came from.
     */
    method RunCached(cfg: Config, code: nat, binary: seq<Byte>, memsz: nat, boot: Cpu, arg: array?<Byte>,
                     ghost limit: nat)
      returns (trace: seq<Event>, status: Status, ghost final: Loop)
      requires KeepsSize(cfg) && code in caches && caches[code].CanServe() && ArgFits(caches[code], arg)
      requires FinalLoop(cfg, caches[code], arg, limit).status != Running
      modifies this, caches[code], caches[code].pool, caches[code].Memories(), caches[code].reset, arg
      ensures caches == old(caches)
      ensures final == old(FinalLoop(cfg, caches[code], arg, limit))
      ensures var c := caches[code];
              && trace == final.trace && status == final.status && c.CurrentReset() == final.reset
              && (status == Done ==>
                    && c.Valid() && |c.pool| > 0
                    && (old(c.pool) != [] ==> c.pool == old(c.pool)[1..] + [old(c.pool)[0]])
                    && (old(c.pool) == [] ==> |c.pool| == 1 && fresh(c.pool[0]))
                    && AllFit(final.reset.regions, |final.vm.mem|)
                    && c.pool[|c.pool| - 1].State() == ResetVm(final.vm, final.reset)
                    && (arg != null ==> arg.Length <= |final.vm.mem| && arg[..] == final.vm.mem[..arg.Length]))
    {
      var c := caches[code];
      var v;
      v, trace, status, final := TakeAndRun(cfg, c, arg, limit);
      if status == Done {
        PutBack(code, binary, memsz, boot, v);
      }
    }

    /** What a call may change apart from the registry and the argument. */
    ghost function Touched(code: nat): set<object?>
      reads *
    {
      if code in caches
      then {caches[code], caches[code].reset} + (set v | v in caches[code].pool) + caches[code].Memories()
      else {}
    }

    /**
     `wasp_run_virtine`.  The first call of a code makes its cache.  A memory size that cannot
     be mapped is an exception unless a virtine is left in the pool.
     */
    method RunVirtine(cfg: Config, code: nat, binary: seq<Byte>, memsz: nat, boot: Cpu, arg: array?<Byte>,
                      ghost limit: nat)
      returns (r: MemoryResult, trace: seq<Event>, status: Status, ghost final: Loop)
      requires KeepsSize(cfg)
      requires code in caches ==> caches[code].Valid() && caches[code].Loadable() && ArgFits(caches[code], arg)
      requires code in caches && caches[code].CanServe() ==> FinalLoop(cfg, caches[code], arg, limit).status != Running
      requires code !in caches ==> arg != null ==> arg.Length <= memsz
      requires code !in caches && SizeResult(memsz).Mapped? ==>
                 0x8000 + |binary| <= memsz && FirstLoop(cfg, binary, memsz, boot, arg, limit).status != Running
      modifies this, Touched(code), arg
      ensures code in caches && (code in old(caches) ==> caches == old(caches))
      ensures code !in old(caches) ==>
                caches == old(caches)[code := caches[code]] && fresh(caches[code]) && caches[code].memsz == memsz
      ensures r == if code in old(caches) && old(code in caches && caches[code].pool != []) then Mapped
                   else SizeResult(caches[code].memsz)
      ensures r.Mapped? && code in old(caches) ==>
                old(caches[code].CanServe()) && final == old(FinalLoop(cfg, caches[code], arg, limit))
      ensures r.Mapped? && code !in old(caches) ==> final == old(FirstLoop(cfg, binary, memsz, boot, arg, limit))
      ensures r.Mapped? ==> trace == final.trace && status == final.status && caches[code].CurrentReset() == final.reset
      ensures r.Mapped? && status == Done ==>
                var c := caches[code];
                && c.Valid() && |c.pool| > 0 && AllFit(final.reset.regions, |final.vm.mem|)
                && c.pool[|c.pool| - 1].State() == ResetVm(final.vm, final.reset)
                && (arg != null ==> arg.Length <= |final.vm.mem| && arg[..] == final.vm.mem[..arg.Length])
    {
      var c := GetCache(code, binary, memsz, boot);
      if |c.pool| == 0 && !SizeResult(c.memsz).Mapped? {
        var v;
        r, v := c.Get();
        return r, [], Aborted, Loop(Vm(boot, []), c.CurrentReset(), [], Aborted);
      }
      r := Mapped;
      trace, status, final := RunCached(cfg, code, binary, memsz, boot, arg, limit);
    }

    method PutBack(code: nat, binary: seq<Byte>, memsz: nat, boot: Cpu, v: Virtine)
      requires code in caches && caches[code].Valid() && caches[code].Ready(v) && caches[code].Apart(v)
      modifies this, caches[code], v`cpu, v.mem
      ensures caches == old(caches)
      ensures var c := caches[code];
              && c.Valid() && c.pool == old(c.pool) + [v] && c.CurrentReset() == old(c.CurrentReset())
              && v.State() == ResetVm(old(v.State()), c.CurrentReset())
    {
      var c := GetCache(code, binary, memsz, boot);
      c.Put(v);
    }
  }
}
