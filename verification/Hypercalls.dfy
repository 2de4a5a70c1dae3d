/**
 The run loop of `wasp_run_virtine`: run the guest until it exits, and serve its hypercalls
 subject to the whitelist.

 The guest is any deterministic function from a machine to an exit reason and a machine;
 the host is any function from what it did so far to its next reply.
 */
module Hypercalls {
  import opened Bits
  import opened Common
  import opened Machine

  datatype ExitReason = Unknown | Crashed | Interrupted | Halted | HyperCall | Exited

  /** A host buffer argument: null, or an address in guest memory. */
  datatype Buffer = Null | Guest(addr: nat, len: nat)

  /** What the runtime asks of the host; `Write` and `Open` carry the bytes the host gets to see. */
  datatype HostOp =
    | Close(fd: Word)
    | Fstat(fd: Word, buf: Buffer)
    | Open(path: Buffer, name: seq<Byte>, flags: Word, mode: Word)
    | Read(fd: Word, buf: Buffer)
    | Write(fd: Word, buf: Buffer, data: seq<Byte>)

  datatype Reply = Reply(rax: Word, data: seq<Byte>)

  datatype Event = Event(op: HostOp, reply: Reply)

  const HCALL_EXIT: nat := 0
  const HCALL_CLOSE: nat := 1
  const HCALL_FSTAT: nat := 2
  const HCALL_OPEN: nat := 5
  const HCALL_READ: nat := 6
  const HCALL_WRITE: nat := 10
  const HCALL_SNAPSHOT: nat := 0xFF
  const STAT_SIZE: nat := 144
  const MINUS_ENOSYS: Word := 0xFFFF_FFFF_FFFF_FFDA

  /** `wild` is what a shift of the whitelist by an amount outside 0..63 happens to yield. */
  datatype Config = Config(
    guest: Vm -> (ExitReason, Vm),
    host: (seq<Event>, HostOp) -> Reply,
    whitelist: Word,
    wild: int -> bool,
    useSnapshots: bool)

  datatype Status = Running | Done | Aborted | Undefined

  /** One call under way: its machine, the reset state it shares, and the host calls so far. */
  datatype Loop = Loop(vm: Vm, reset: Reset, trace: seq<Event>, status: Status)

  /** `int nr = regs.rdi`. */
  function ToInt32(x: Word): int {
    var low := x % 0x1_0000_0000;
    if low < 0x8000_0000 then low else low - 0x1_0000_0000
  }

  predicate HypercallAllowed(cfg: Config, nr: int) {
    if nr == HCALL_SNAPSHOT then true
    else if 0 <= nr < 64 then Shr(cfg.whitelist, nr) % 2 == 1
    else cfg.wild(nr)
  }

  /** The number under which the whitelist knows a host operation. */
  function Number(op: HostOp): nat {
    match op
    case Close(_) => HCALL_CLOSE
    case Fstat(_, _) => HCALL_FSTAT
    case Open(_, _, _, _) => HCALL_OPEN
    case Read(_, _) => HCALL_READ
    case Write(_, _, _) => HCALL_WRITE
  }

  function BufferAt(memsz: nat, addr: Word, len: Word): Buffer {
    match Translate(memsz, addr)
    case None => Null
    case Some(a) => Guest(a, len)
  }

  predicate Inside(buf: Buffer, memsz: nat) { buf.Guest? && buf.addr + buf.len <= memsz }

  function Contents(mem: seq<Byte>, buf: Buffer): seq<Byte> {
    if Inside(buf, |mem|) then mem[buf.addr..buf.addr + buf.len] else []
  }

  /** Bytes from `a` up to a NUL or the end of guest memory. */
  function CString(mem: seq<Byte>, a: nat): seq<Byte>
    decreases |mem| - a
  {
    if a >= |mem| || mem[a] == 0 then [] else [mem[a]] + CString(mem, a + 1)
  }

  /** The host operation a hypercall comes down to; none if it is unknown or its buffer is refused. */
  function HostOpOf(vm: Vm): Option<HostOp> {
    var r, memsz := vm.cpu.regs, |vm.mem|;
    if r.rdi == HCALL_CLOSE then Some(Close(r.rsi))
    else if r.rdi == HCALL_OPEN then
      if ValidateLength(memsz, r.rsi, 256) then
        var path := BufferAt(memsz, r.rsi, 256);
        Some(Open(path, if path.Guest? then CString(vm.mem, path.addr) else [], r.rdx, r.rcx))
      else None
    else if r.rdi == HCALL_READ then
      if ValidateLength(memsz, r.rdx, r.rcx) then Some(Read(r.rsi, BufferAt(memsz, r.rdx, r.rcx))) else None
    else if r.rdi == HCALL_WRITE then
      if ValidateLength(memsz, r.rdx, r.rcx) then
        var buf := BufferAt(memsz, r.rdx, r.rcx);
        Some(Write(r.rsi, buf, Contents(vm.mem, buf)))
      else None
    else if r.rdi == HCALL_FSTAT then
      if ValidateLength(memsz, r.rdx, STAT_SIZE) then Some(Fstat(r.rsi, BufferAt(memsz, r.rdx, STAT_SIZE))) else None
    else None
  }

  predicate Serves(rdi: Word) {
    rdi in {HCALL_CLOSE, HCALL_FSTAT, HCALL_OPEN, HCALL_READ, HCALL_WRITE}
  }

  /** The host stores at most `len` bytes, and nothing through a bad buffer. */
  function Stored(mem: seq<Byte>, op: HostOp, data: seq<Byte>): (m: seq<Byte>)
    ensures |m| == |mem|
  {
    if (op.Read? || op.Fstat?) && Inside(op.buf, |mem|) then
      Overlay(mem, Region(op.buf.addr, if |data| <= op.buf.len then data else data[..op.buf.len]))
    else mem
  }

  function WithRax(vm: Vm, rax: Word): Vm {
    vm.(cpu := vm.cpu.(regs := vm.cpu.regs.(rax := rax)))
  }

  function SkipOut(vm: Vm): Vm {
    vm.(cpu := vm.cpu.(regs := vm.cpu.regs.(rip := (vm.cpu.regs.rip + 2) % MOD64)))
  }

  /** The body of the `switch`, for a hypercall that is allowed. */
  function Serve(cfg: Config, l: Loop): Loop {
    var rdi := l.vm.cpu.regs.rdi;
    if rdi == HCALL_SNAPSHOT then
      if !cfg.useSnapshots then l
      else
        var vm := SkipOut(l.vm);
        if vm.cpu.regs.rdx > |vm.mem| then l.(vm := vm, status := Undefined)
        else l.(vm := vm, reset := Snapshot(vm, vm.cpu.regs.rdx))
    else if rdi == HCALL_EXIT then l.(status := Done)
    else if Serves(rdi) then
      match HostOpOf(l.vm)
      case None => l
      case Some(op) =>
        var reply := cfg.host(l.trace, op);
        var vm := WithRax(l.vm.(mem := Stored(l.vm.mem, op, reply.data)), reply.rax);
        l.(vm := vm, trace := l.trace + [Event(op, reply)])
    else l.(vm := WithRax(l.vm, MINUS_ENOSYS))
  }

  /** One turn of the run loop. A refused hypercall writes nothing back. */
  function LoopStep(cfg: Config, l: Loop): Loop {
    if l.status != Running then l
    else
      var (exit, vm) := cfg.guest(l.vm);
      var l1 := l.(vm := vm);
      match exit
      case HyperCall => if HypercallAllowed(cfg, ToInt32(vm.cpu.regs.rdi)) then Serve(cfg, l1) else l1
      case Crashed => l1.(status := Aborted)
      case Exited => l1.(status := Done)
      case _ => l1
  }

  function Iterate(cfg: Config, l: Loop, n: nat): Loop {
    if n == 0 then l else LoopStep(cfg, Iterate(cfg, l, n - 1))
  }

  // ---------------------------------------------------------------- one turn, register by register

  /** The guest runs from `l` to a hypercall, at which its machine is `vm`. */
  ghost predicate Traps(cfg: Config, l: Loop, vm: Vm) {
    l.status == Running && cfg.guest(l.vm) == (HyperCall, vm) && |vm.mem| < MOD64
  }

  predicate BitSet(cfg: Config, nr: nat) { Shr(cfg.whitelist, nr) % 2 == 1 }

  /** The number is the low half of the register, signed; the whitelist decides, except on snapshots. */
  lemma AllowedIs(cfg: Config, rdi: Word)
    ensures rdi < 64 ==> (HypercallAllowed(cfg, ToInt32(rdi)) <==> BitSet(cfg, rdi))
    ensures rdi % 0x1_0000_0000 == 0xFF ==> HypercallAllowed(cfg, ToInt32(rdi))
    ensures -0x8000_0000 <= ToInt32(rdi) < 0x8000_0000 && (rdi - ToInt32(rdi)) % 0x1_0000_0000 == 0
  {
    var q, low := rdi / 0x1_0000_0000, rdi % 0x1_0000_0000;
    assert rdi == q * 0x1_0000_0000 + low;
    assert (q * 0x1_0000_0000) % 0x1_0000_0000 == 0;
    assert (q * 0x1_0000_0000 + 0x1_0000_0000) % 0x1_0000_0000 == 0;
  }

  /** The turn asks the host for `op`, and hands its value over in rax and nowhere else in the registers. */
  ghost predicate Asks(cfg: Config, l: Loop, vm: Vm, l1: Loop, op: HostOp) {
    && l1.trace == l.trace + [Event(op, cfg.host(l.trace, op))]
    && l1.vm.cpu == Cpu(vm.cpu.regs.(rax := cfg.host(l.trace, op).rax), vm.cpu.sregs, vm.cpu.fpu)
    && l1.reset == l.reset && l1.status == Running && |l1.vm.mem| == |vm.mem|
  }

  /** `data` went to address `at`, as far as `len` bytes of it; all other memory is as it was. */
  ghost predicate Delivered(mem: seq<Byte>, mem1: seq<Byte>, at: nat, len: nat, data: seq<Byte>) {
    && |mem1| == |mem|
    && forall i :: 0 <= i < |mem| ==> mem1[i] == if at <= i < at + len && i - at < |data| then data[i - at] else mem[i]
  }

  /** What the host makes of a guest address. */
  function HostBuffer(memsz: nat, addr: nat, len: nat): Buffer { if addr <= memsz then Guest(addr, len) else Null }

  lemma CloseServed(cfg: Config, l: Loop, vm: Vm)
    requires Traps(cfg, l, vm) && vm.cpu.regs.rdi == 1 && BitSet(cfg, 1)
    ensures var l1 := LoopStep(cfg, l);
            Asks(cfg, l, vm, l1, Close(vm.cpu.regs.rsi)) && l1.vm.mem == vm.mem
  {
  }

  /** `fstat(rsi, rdx)`: the structure is stored at rdx. */
  lemma FstatServed(cfg: Config, l: Loop, vm: Vm)
    requires Traps(cfg, l, vm) && vm.cpu.regs.rdi == 2 && BitSet(cfg, 2)
    ensures var l1, r := LoopStep(cfg, l), vm.cpu.regs;
            if (r.rdx + 144) % MOD64 > |vm.mem| then l1 == l.(vm := vm)
            else
              var op := Fstat(r.rsi, HostBuffer(|vm.mem|, r.rdx, 144));
              && Asks(cfg, l, vm, l1, op)
              && if r.rdx + 144 <= |vm.mem| then Delivered(vm.mem, l1.vm.mem, r.rdx, 144, cfg.host(l.trace, op).data)
                 else l1.vm.mem == vm.mem
  {
  }

  /** `name` is the string at `a`. */
  ghost predicate IsCString(mem: seq<Byte>, a: nat, name: seq<Byte>) {
    && a + |name| <= |mem| && mem[a..a + |name|] == name && 0 !in name
    && (a + |name| < |mem| ==> mem[a + |name|] == 0)
  }

  lemma {:induction false} CStringIs(mem: seq<Byte>, a: nat)
    requires a <= |mem|
    ensures IsCString(mem, a, CString(mem, a))
    decreases |mem| - a
  {
    if a < |mem| && mem[a] != 0 {
      CStringIs(mem, a + 1);
      var rest := CString(mem, a + 1);
      assert mem[a..a + 1 + |rest|] == [mem[a]] + mem[a + 1..a + 1 + |rest|];
    }
  }

  /** `open(rsi, rdx, rcx)`: the string at rsi is the name, rdx the flags and rcx the mode. */
  lemma OpenServed(cfg: Config, l: Loop, vm: Vm) returns (name: seq<Byte>)
    requires Traps(cfg, l, vm) && vm.cpu.regs.rdi == 5 && BitSet(cfg, 5)
    ensures if vm.cpu.regs.rsi <= |vm.mem| then IsCString(vm.mem, vm.cpu.regs.rsi, name) else name == []
    ensures var l1, r := LoopStep(cfg, l), vm.cpu.regs;
            if (r.rsi + 256) % MOD64 > |vm.mem| then l1 == l.(vm := vm)
            else
              && Asks(cfg, l, vm, l1, Open(HostBuffer(|vm.mem|, r.rsi, 256), name, r.rdx, r.rcx))
              && l1.vm.mem == vm.mem
  {
    name := [];
    if vm.cpu.regs.rsi <= |vm.mem| {
      name := CString(vm.mem, vm.cpu.regs.rsi);
      CStringIs(vm.mem, vm.cpu.regs.rsi);
    }
  }

  /** `read(rsi, rdx, rcx)`: what the host read is stored at rdx. */
  lemma ReadServed(cfg: Config, l: Loop, vm: Vm)
    requires Traps(cfg, l, vm) && vm.cpu.regs.rdi == 6 && BitSet(cfg, 6)
    ensures var l1, r := LoopStep(cfg, l), vm.cpu.regs;
            if (r.rdx + r.rcx) % MOD64 > |vm.mem| then l1 == l.(vm := vm)
            else
              var op := Read(r.rsi, HostBuffer(|vm.mem|, r.rdx, r.rcx));
              var data := cfg.host(l.trace, op).data;
              && Asks(cfg, l, vm, l1, op)
              && if r.rdx + r.rcx <= |vm.mem| then Delivered(vm.mem, l1.vm.mem, r.rdx, r.rcx, data)
                 else l1.vm.mem == vm.mem
  {
  }

  /** `write(rsi, rdx, rcx)`: the host gets to see rcx bytes from rdx on. */
  lemma WriteServed(cfg: Config, l: Loop, vm: Vm)
    requires Traps(cfg, l, vm) && vm.cpu.regs.rdi == 10 && BitSet(cfg, 10)
    ensures var l1, r := LoopStep(cfg, l), vm.cpu.regs;
            if (r.rdx + r.rcx) % MOD64 > |vm.mem| then l1 == l.(vm := vm)
            else
              var seen := if r.rdx + r.rcx <= |vm.mem| then vm.mem[r.rdx..r.rdx + r.rcx] else [];
              && Asks(cfg, l, vm, l1, Write(r.rsi, HostBuffer(|vm.mem|, r.rdx, r.rcx), seen))
              && l1.vm.mem == vm.mem
  {
  }

  lemma ExitServed(cfg: Config, l: Loop, vm: Vm)
    requires Traps(cfg, l, vm) && vm.cpu.regs.rdi == 0 && BitSet(cfg, 0)
    ensures LoopStep(cfg, l) == Loop(vm, l.reset, l.trace, Done)
  {
  }

  /** Every other number that is let through, also one beyond 32 bits, is answered with minus ENOSYS. */
  lemma UnknownServed(cfg: Config, l: Loop, vm: Vm)
    requires Traps(cfg, l, vm) && HypercallAllowed(cfg, ToInt32(vm.cpu.regs.rdi))
    requires vm.cpu.regs.rdi !in {0, 1, 2, 5, 6, 10, 0xFF}
    ensures var cpu := Cpu(vm.cpu.regs.(rax := 0x1_0000_0000_0000_0000 - 38), vm.cpu.sregs, vm.cpu.fpu);
            LoopStep(cfg, l) == Loop(Vm(cpu, vm.mem), l.reset, l.trace, Running)
  {
  }

  /**
   A snapshot: the guest goes on after the two bytes of its instruction, and the reset state
   is its registers then and its memory below rdx; or nothing happens, if there are to be none.
   */
  lemma SnapshotServed(cfg: Config, l: Loop, vm: Vm)
    requires Traps(cfg, l, vm) && vm.cpu.regs.rdi == 0xFF
    ensures var l1, r := LoopStep(cfg, l), vm.cpu.regs;
            var cpu := Cpu(r.(rip := (r.rip + 2) % 0x1_0000_0000_0000_0000), vm.cpu.sregs, vm.cpu.fpu);
            if !cfg.useSnapshots then l1 == l.(vm := vm)
            else if r.rdx > |vm.mem| then l1 == Loop(Vm(cpu, vm.mem), l.reset, l.trace, Undefined)
            else l1 == Loop(Vm(cpu, vm.mem), Reset(cpu, [Region(0, vm.mem[..r.rdx])]), l.trace, Running)
  {
  }

  /** A hypercall whose bit is clear, and what the other reasons to exit come to. */
  lemma OtherTurns(cfg: Config, l: Loop, exit: ExitReason, vm: Vm)
    requires l.status == Running && cfg.guest(l.vm) == (exit, vm)
    ensures exit == HyperCall && vm.cpu.regs.rdi < 64 && !BitSet(cfg, vm.cpu.regs.rdi) ==>
              LoopStep(cfg, l) == l.(vm := vm)
    ensures exit == Crashed ==> LoopStep(cfg, l) == l.(vm := vm, status := Aborted)
    ensures exit == Exited ==> LoopStep(cfg, l) == l.(vm := vm, status := Done)
    ensures exit in {Unknown, Interrupted, Halted} ==> LoopStep(cfg, l) == l.(vm := vm)
  {
  }

  // ---------------------------------------------------------------- every run of the loop

  ghost predicate KeepsSize(cfg: Config) {
    forall vm :: |cfg.guest(vm).1.mem| == |vm.mem|
  }

  /** The whitelist bit of every host operation is set, and each reply is the host's own. */
  ghost predicate TraceAllowed(cfg: Config, trace: seq<Event>) {
    forall i :: 0 <= i < |trace| ==>
      && Shr(cfg.whitelist, Number(trace[i].op)) % 2 == 1
      && trace[i].reply == cfg.host(trace[..i], trace[i].op)
  }

  /** Whatever the guest does, the host performs only whitelisted operations. */
  lemma {:induction false} OnlyWhitelisted(cfg: Config, l: Loop, n: nat)
    requires TraceAllowed(cfg, l.trace)
    ensures TraceAllowed(cfg, Iterate(cfg, l, n).trace)
    ensures l.trace <= Iterate(cfg, l, n).trace
  {
    if n > 0 {
      OnlyWhitelisted(cfg, l, n - 1);
      StepWhitelisted(cfg, Iterate(cfg, l, n - 1));
    }
  }

  lemma StepWhitelisted(cfg: Config, l: Loop)
    requires TraceAllowed(cfg, l.trace)
    ensures TraceAllowed(cfg, LoopStep(cfg, l).trace) && l.trace <= LoopStep(cfg, l).trace
  {
    var t := LoopStep(cfg, l).trace;
    if t != l.trace {
      var vm := cfg.guest(l.vm).1;
      var op := HostOpOf(vm).value;
      assert ToInt32(vm.cpu.regs.rdi) == Number(op);
      assert t == l.trace + [Event(op, cfg.host(l.trace, op))];
      assert t[..|l.trace|] == l.trace;
      forall i | 0 <= i < |t|
        ensures Shr(cfg.whitelist, Number(t[i].op)) % 2 == 1 && t[i].reply == cfg.host(t[..i], t[i].op)
      {
        if i < |l.trace| { assert t[..i] == l.trace[..i] && t[i] == l.trace[i]; }
      }
    }
  }

  /** A turn in which nothing is served: the guest runs, and only its end is noticed. */
  function UnservedStep(cfg: Config, l: Loop): Loop {
    if l.status != Running then l
    else
      var (exit, vm) := cfg.guest(l.vm);
      l.(vm := vm, status := if exit == Crashed then Aborted else if exit == Exited then Done else Running)
  }

  function Unserved(cfg: Config, l: Loop, n: nat): Loop {
    if n == 0 then l else UnservedStep(cfg, Unserved(cfg, l, n - 1))
  }

  /** The hypercall of this turn, if there is one, is refused. */
  predicate Refuses(cfg: Config, l: Loop) {
    l.status == Running && cfg.guest(l.vm).0 == HyperCall ==>
      !HypercallAllowed(cfg, ToInt32(cfg.guest(l.vm).1.cpu.regs.rdi))
  }

  /**
   A run whose hypercalls are all refused is the guest's own: its machine gets no error code,
   the host is not called, and the reset state stays.
   */
  lemma {:induction false} RefusedChangesNothing(cfg: Config, l: Loop, n: nat)
    requires forall i: nat :: i < n ==> Refuses(cfg, Iterate(cfg, l, i))
    ensures Iterate(cfg, l, n) == Unserved(cfg, l, n)
    ensures Iterate(cfg, l, n).trace == l.trace && Iterate(cfg, l, n).reset == l.reset
  {
    if n > 0 {
      RefusedChangesNothing(cfg, l, n - 1);
      assert Refuses(cfg, Iterate(cfg, l, n - 1));
    }
  }

  /** With an empty whitelist that is so for every guest that keeps to the numbers below 64. */
  lemma EmptyWhitelistRefuses(cfg: Config, l: Loop, n: nat)
    requires cfg.whitelist == 0 && forall vm :: cfg.guest(vm).0 == HyperCall ==> cfg.guest(vm).1.cpu.regs.rdi < 64
    ensures Iterate(cfg, l, n) == Unserved(cfg, l, n) && Iterate(cfg, l, n).trace == l.trace
  {
    forall i: nat | i < n
      ensures Refuses(cfg, Iterate(cfg, l, i))
    {
      var vm := Iterate(cfg, l, i).vm;
      if cfg.guest(vm).0 == HyperCall {
        ShrZero(cfg.guest(vm).1.cpu.regs.rdi);
      }
    }
    RefusedChangesNothing(cfg, l, n);
  }

  lemma {:induction false} ShrZero(n: nat)
    ensures Shr(0, n) == 0
  {
    if n > 0 { ShrZero(n - 1); }
  }

  /** The buffer of an operation, if it has one. */
  function BufferOf(op: HostOp): Buffer {
    match op
    case Close(_) => Null
    case Fstat(_, buf) => buf
    case Open(path, _, _, _) => path
    case Read(_, buf) => buf
    case Write(_, buf, _) => buf
  }

  /** Every buffer the host is given lies in guest memory exactly when its end does not wrap. */
  lemma BuffersInside(vm: Vm)
    requires |vm.mem| < MOD64 && HostOpOf(vm).Some? && BufferOf(HostOpOf(vm).value).Guest?
    ensures var buf := BufferOf(HostOpOf(vm).value);
            Inside(buf, |vm.mem|) <==> buf.addr + buf.len < MOD64
  {
    var r := vm.cpu.regs;
    if r.rdi == HCALL_OPEN {
      ValidBufferIsInside(|vm.mem|, r.rsi, 256);
    } else if r.rdi == HCALL_FSTAT {
      ValidBufferIsInside(|vm.mem|, r.rdx, STAT_SIZE);
    } else {
      ValidBufferIsInside(|vm.mem|, r.rdx, r.rcx);
    }
  }

  /** A call that is over stays as it is. */
  lemma {:induction false} DoneStays(cfg: Config, l: Loop, m: nat, n: nat)
    requires m <= n && Iterate(cfg, l, m).status != Running
    ensures Iterate(cfg, l, n) == Iterate(cfg, l, m)
  {
    if m < n { DoneStays(cfg, l, m, n - 1); }
  }

  lemma {:induction false} SizeKept(cfg: Config, l: Loop, n: nat)
    requires KeepsSize(cfg)
    ensures |Iterate(cfg, l, n).vm.mem| == |l.vm.mem|
  {
    if n > 0 {
      SizeKept(cfg, l, n - 1);
      assert |cfg.guest(Iterate(cfg, l, n - 1).vm).1.mem| == |Iterate(cfg, l, n - 1).vm.mem|;
    }
  }

  lemma SnapshotFits(cfg: Config, l: Loop, memsz: nat)
    requires KeepsSize(cfg) && |l.vm.mem| == memsz && AllFit(l.reset.regions, memsz)
    ensures |LoopStep(cfg, l).vm.mem| == memsz && AllFit(LoopStep(cfg, l).reset.regions, memsz)
  {
    assert |cfg.guest(l.vm).1.mem| == memsz;
  }

  /** A snapshot always fits the memory it was taken from. */
  lemma {:induction false} ResetStaysFit(cfg: Config, l: Loop, n: nat)
    requires KeepsSize(cfg) && AllFit(l.reset.regions, |l.vm.mem|)
    ensures AllFit(Iterate(cfg, l, n).reset.regions, |l.vm.mem|)
  {
    SizeKept(cfg, l, n);
    if n > 0 {
      ResetStaysFit(cfg, l, n - 1);
      SizeKept(cfg, l, n - 1);
      SnapshotFits(cfg, Iterate(cfg, l, n - 1), |l.vm.mem|);
    }
  }
}
