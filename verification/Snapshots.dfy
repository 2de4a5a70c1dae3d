/**
 Any number of calls sharing one cache of virtines: taking a virtine, running it, and
 returning it reset to a state that a snapshot hypercall may have replaced meanwhile
 (`binding.cpp`, `Cache.cpp`).  Each of these is one step; calls interleave freely.
 */
module Snapshots {
  import opened Bits
  import opened Common
  import opened Hypercalls
  import opened Machine

  type Tid = nat

  /** What is fixed for one cache: memory size, boot registers, binary, and the argument size of its calls. */
  datatype Setup = Setup(memsz: nat, boot: Cpu, binary: seq<Byte>, start: nat, argsz: nat)

  ghost predicate SetupOk(su: Setup) {
    su.start + |su.binary| <= su.memsz && su.argsz <= su.memsz
  }

  function FirstReset(su: Setup): Reset { InitialReset(su.boot, su.binary, su.start) }

  function FreshVm(su: Setup): Vm
    requires SetupOk(su)
  {
    AllocateVm(su.memsz, su.boot, FirstReset(su))
  }

  /** Copying the argument to guest address 0. */
  function WithArg(vm: Vm, arg: seq<Byte>): Vm
    requires |arg| <= |vm.mem|
  {
    vm.(mem := arg + vm.mem[|arg|..])
  }

  /** A call on a newly booted virtine. */
  function ColdStart(su: Setup, arg: seq<Byte>): Loop
    requires SetupOk(su) && |arg| == su.argsz
  {
    Loop(WithArg(FreshVm(su), arg), FirstReset(su), [], Running)
  }

  // ---------------------------------------------------------------- the shared cache

  /** A call under way, with the argument it was given. */
  datatype Active = Active(arg: seq<Byte>, vm: Vm, trace: seq<Event>, status: Status)

  /** A finished call: argument in, argument bytes out, and its host calls. */
  datatype Result = Result(arg: seq<Byte>, out: seq<Byte>, trace: seq<Event>)

  /**
   `reset` is the reset state all virtines of the cache share.  `versions`, its values so
   far, `tags`, the version each pooled virtine was reset to, and `results` are bookkeeping.
   */
  datatype Sys = Sys(
    reset: Option<Reset>,
    pool: seq<Vm>,
    active: map<Tid, Active>,
    versions: seq<Reset>,
    tags: seq<nat>,
    results: seq<Result>)

  const START := Sys(None, [], map[], [], [], [])

  /** The first allocation sets the shared reset state up. */
  function WithReset(su: Setup, s: Sys): Sys {
    if s.reset.None? then s.(reset := Some(FirstReset(su)), versions := s.versions + [FirstReset(su)]) else s
  }

  ghost predicate ResetFits(su: Setup, s: Sys) {
    s.reset.Some? && AllFit(s.reset.value.regions, su.memsz)
  }

  /** `get` and the copy-in of the argument. */
  ghost predicate Begin(su: Setup, s: Sys, t: Tid, arg: seq<Byte>, s': Sys) {
    && t !in s.active && |arg| == su.argsz
    && if s.pool == [] then
         var s1 := WithReset(su, s);
         && ResetFits(su, s1) && su.argsz <= su.memsz
         && var vm := WithArg(AllocateVm(su.memsz, su.boot, s1.reset.value), arg);
            s' == s1.(active := s.active[t := Active(arg, vm, [], Running)])
       else
         && |arg| <= |s.pool[0].mem| && s.tags != []
         && s' == s.(pool := s.pool[1..], tags := s.tags[1..],
                     active := s.active[t := Active(arg, WithArg(s.pool[0], arg), [], Running)])
  }

  /** One turn of the run loop of thread `t`; a snapshot replaces the shared reset state. */
  ghost predicate Advance(cfg: Config, s: Sys, t: Tid, s': Sys) {
    t in s.active && s.reset.Some? &&
    var a := s.active[t];
    var l := LoopStep(cfg, Loop(a.vm, s.reset.value, a.trace, a.status));
    s' == s.(reset := Some(l.reset),
             versions := if l.reset == s.reset.value then s.versions else s.versions + [l.reset],
             active := s.active[t := Active(a.arg, l.vm, l.trace, l.status)])
  }

  /** Copy-out of the argument, then `put`. */
  ghost predicate Finish(su: Setup, s: Sys, t: Tid, s': Sys) {
    t in s.active && s.reset.Some? &&
    var a := s.active[t];
    && a.status == Done && su.argsz <= |a.vm.mem| && AllFit(s.reset.value.regions, |a.vm.mem|) && |s.versions| > 0
    && s' == s.(active := map u | u in s.active && u != t :: s.active[u],
                pool := s.pool + [ResetVm(a.vm, s.reset.value)],
                tags := s.tags + [|s.versions| - 1],
                results := s.results + [Result(a.arg, a.vm.mem[..su.argsz], a.trace)])
  }

  /** One turn of the fill loop of `ensure`. */
  ghost predicate Fill(su: Setup, s: Sys, s': Sys) {
    var s1 := WithReset(su, s);
    && ResetFits(su, s1) && |s1.versions| > 0
    && s' == s1.(pool := [AllocateVm(su.memsz, su.boot, s1.reset.value)] + s1.pool,
        tags := [|s1.versions| - 1] + s1.tags)
  }

  ghost predicate SysStep(su: Setup, cfg: Config, s: Sys, s': Sys) {
    || (exists t, arg :: Begin(su, s, t, arg, s'))
    || (exists t :: Advance(cfg, s, t, s'))
    || (exists t :: Finish(su, s, t, s'))
    || Fill(su, s, s')
  }

  ghost predicate SysRun(su: Setup, cfg: Config, states: seq<Sys>) {
    && |states| > 0 && states[0] == START
    && forall i, j :: 0 <= i && j == i + 1 && j < |states| ==> SysStep(su, cfg, states[i], states[j])
  }

  // ---------------------------------------------------------------- any guest: versions and fit

  ghost predicate TagOk(s: Sys, i: nat) {
    i < |s.pool| && i < |s.tags| && s.tags[i] < |s.versions| && Agrees(s.pool[i], s.versions[s.tags[i]])
  }

  /**
   Every version of the reset state fits every virtine of the cache, and each pooled virtine
   agrees with the version that was current when it was last reset.
   */
  ghost predicate VersionInv(su: Setup, s: Sys) {
    && (s.reset.None? <==> s.versions == [])
    && (s.reset.Some? ==> s.reset.value == s.versions[|s.versions| - 1])
    && (forall i :: 0 <= i < |s.versions| ==> AllFit(s.versions[i].regions, su.memsz))
    && |s.tags| == |s.pool|
    && (forall i :: 0 <= i < |s.pool| ==> TagOk(s, i) && |s.pool[i].mem| == su.memsz)
    && (forall t :: t in s.active ==> |s.active[t].vm.mem| == su.memsz)
    && (s.reset.None? ==> s.pool == [] && s.active == map[])
  }

  lemma WithResetVersion(su: Setup, s: Sys)
    requires SetupOk(su) && VersionInv(su, s)
    ensures VersionInv(su, WithReset(su, s)) && ResetFits(su, WithReset(su, s))
  {
    var s1 := WithReset(su, s);
    if s.reset.Some? {
      assert AllFit(s.versions[|s.versions| - 1].regions, su.memsz);
    } else {
      assert s1.versions == [FirstReset(su)];
    }
  }

  lemma VersionBegin(su: Setup, s: Sys, t: Tid, arg: seq<Byte>, s': Sys)
    requires SetupOk(su) && VersionInv(su, s) && Begin(su, s, t, arg, s')
    ensures VersionInv(su, s')
  {
    if s.pool == [] {
      WithResetVersion(su, s);
    } else {
      forall i | 0 <= i < |s'.pool|
        ensures TagOk(s', i) && |s'.pool[i].mem| == su.memsz
      {
        assert TagOk(s, i + 1) && |s.pool[i + 1].mem| == su.memsz;
        assert s'.pool[i] == s.pool[i + 1] && s'.tags[i] == s.tags[i + 1];
      }
      assert |s.pool[0].mem| == su.memsz;
    }
  }

  lemma VersionAdvance(su: Setup, cfg: Config, s: Sys, t: Tid, s': Sys)
    requires KeepsSize(cfg) && VersionInv(su, s) && Advance(cfg, s, t, s')
    ensures VersionInv(su, s')
  {
    var a := s.active[t];
    assert AllFit(s.versions[|s.versions| - 1].regions, su.memsz);
    SnapshotFits(cfg, Loop(a.vm, s.reset.value, a.trace, a.status), su.memsz);
    forall i | 0 <= i < |s'.pool|
      ensures TagOk(s', i)
    {
      assert TagOk(s, i);
      assert s'.versions[s.tags[i]] == s.versions[s.tags[i]];
    }
  }

  lemma VersionFinish(su: Setup, s: Sys, t: Tid, s': Sys)
    requires VersionInv(su, s) && Finish(su, s, t, s')
    ensures VersionInv(su, s')
  {
    ResetAgrees(s.active[t].vm, s.reset.value);
    forall i | 0 <= i < |s'.pool|
      ensures TagOk(s', i) && |s'.pool[i].mem| == su.memsz
    {
      if i < |s.pool| { assert TagOk(s, i); }
    }
  }

  lemma VersionFill(su: Setup, s: Sys, s': Sys)
    requires SetupOk(su) && VersionInv(su, s) && Fill(su, s, s')
    ensures VersionInv(su, s')
  {
    WithResetVersion(su, s);
    var s1 := WithReset(su, s);
    ResetAgrees(Vm(su.boot, Zeros(su.memsz)), s1.reset.value);
    forall i | 0 <= i < |s'.pool|
      ensures TagOk(s', i) && |s'.pool[i].mem| == su.memsz
    {
      if i > 0 {
        assert TagOk(s1, i - 1);
        assert s'.pool[i] == s1.pool[i - 1] && s'.tags[i] == s1.tags[i - 1];
      }
    }
  }

  lemma VersionStep(su: Setup, cfg: Config, s: Sys, s': Sys)
    requires SetupOk(su) && KeepsSize(cfg) && VersionInv(su, s) && SysStep(su, cfg, s, s')
    ensures VersionInv(su, s')
  {
    if t, arg :| Begin(su, s, t, arg, s') {
      VersionBegin(su, s, t, arg, s');
    } else if t :| Advance(cfg, s, t, s') {
      VersionAdvance(su, cfg, s, t, s');
    } else if t :| Finish(su, s, t, s') {
      VersionFinish(su, s, t, s');
    } else {
      VersionFill(su, s, s');
    }
  }

  /** In every run, for every guest whatsoever. */
  lemma {:induction false} VersionsHold(su: Setup, cfg: Config, states: seq<Sys>)
    requires SetupOk(su) && KeepsSize(cfg) && SysRun(su, cfg, states)
    ensures VersionInv(su, states[|states| - 1])
  {
    if |states| > 1 {
      var before := states[..|states| - 1];
      VersionsHold(su, cfg, before);
      assert SysStep(su, cfg, states[|states| - 2], states[|states| - 1]);
      VersionStep(su, cfg, before[|before| - 1], states[|states| - 1]);
    }
  }

  /** Returning a virtine never writes outside its memory: each copy of `put` fits, whoever took the snapshot. */
  lemma PutAlwaysFits(su: Setup, cfg: Config, states: seq<Sys>, t: Tid)
    requires SetupOk(su) && KeepsSize(cfg) && SysRun(su, cfg, states)
    requires t in states[|states| - 1].active
    ensures var s := states[|states| - 1];
            s.reset.Some? && AllFit(s.reset.value.regions, |s.active[t].vm.mem|)
  {
    VersionsHold(su, cfg, states);
    var s := states[|states| - 1];
    assert AllFit(s.versions[|s.versions| - 1].regions, su.memsz);
  }

  /** A call can always begin, with its argument in place and, on a pooled virtine, with what else that held. */
  lemma CanBegin(su: Setup, s: Sys, t: Tid, arg: seq<Byte>) returns (s': Sys)
    requires SetupOk(su) && VersionInv(su, s) && t !in s.active && |arg| == su.argsz
    ensures Begin(su, s, t, arg, s') && t in s'.active
    ensures var a := s'.active[t];
            && a.arg == arg && a.status == Running && a.trace == [] && |a.vm.mem| == su.memsz
            && a.vm.mem[..su.argsz] == arg
            && (s.pool != [] ==> a.vm.cpu == s.pool[0].cpu && a.vm.mem[su.argsz..] == s.pool[0].mem[su.argsz..])
  {
    if s.pool == [] {
      WithResetVersion(su, s);
      var s1 := WithReset(su, s);
      var vm := WithArg(AllocateVm(su.memsz, su.boot, s1.reset.value), arg);
      s' := s1.(active := s.active[t := Active(arg, vm, [], Running)]);
    } else {
      assert TagOk(s, 0) && |s.pool[0].mem| == su.memsz;
      s' := s.(pool := s.pool[1..], tags := s.tags[1..],
          active := s.active[t := Active(arg, WithArg(s.pool[0], arg), [], Running)]);
    }
  }

  /** It can go on, and when it is over it can end; and the pool can always be filled. */
  lemma CanGoOn(su: Setup, cfg: Config, s: Sys, t: Tid) returns (next: Sys, last: Sys, filled: Sys)
    requires SetupOk(su) && KeepsSize(cfg) && VersionInv(su, s) && t in s.active
    ensures Advance(cfg, s, t, next) && Fill(su, s, filled)
    ensures s.active[t].status == Done ==> Finish(su, s, t, last)
  {
    assert s.reset.Some? && AllFit(s.versions[|s.versions| - 1].regions, su.memsz);
    assert |s.active[t].vm.mem| == su.memsz;
    WithResetVersion(su, s);
    var a := s.active[t];
    var l := LoopStep(cfg, Loop(a.vm, s.reset.value, a.trace, a.status));
    next := s.(reset := Some(l.reset),
        versions := if l.reset == s.reset.value then s.versions else s.versions + [l.reset],
        active := s.active[t := Active(a.arg, l.vm, l.trace, l.status)]);
    last := s.(active := map u | u in s.active && u != t :: s.active[u],
        pool := s.pool + [ResetVm(a.vm, s.reset.value)], tags := s.tags + [|s.versions| - 1],
        results := s.results + [Result(a.arg, a.vm.mem[..su.argsz], a.trace)]);
    filled := s.(pool := [AllocateVm(su.memsz, su.boot, s.reset.value)] + s.pool, tags := [|s.versions| - 1] + s.tags);
  }

  // ---------------------------------------------------------------- guests for which a snapshot is a boot

  /** Same registers, and the same memory below `bound`. */
  ghost predicate SameBelow(v1: Vm, v2: Vm, bound: nat) {
    v1.cpu == v2.cpu && |v1.mem| == |v2.mem| && bound <= |v1.mem| && v1.mem[..bound] == v2.mem[..bound]
  }

  ghost predicate TakesSnapshot(cfg: Config, l: Loop) {
    l.status == Running && cfg.guest(l.vm).0 == HyperCall && cfg.guest(l.vm).1.cpu.regs.rdi == HCALL_SNAPSHOT
  }

  /** The guest neither reads nor writes the argument bytes from here to its next exit. */
  ghost predicate IgnoresArg(cfg: Config, vm: Vm, argsz: nat) {
    argsz <= |vm.mem| == |cfg.guest(vm).1.mem| &&
    forall x: seq<Byte> :: |x| == argsz ==> cfg.guest(WithArg(vm, x)) == (cfg.guest(vm).0, WithArg(cfg.guest(vm).1, x))
  }

  /** What a host operation touches of guest memory lies below `bound`. */
  ghost predicate OpBelow(op: HostOp, bound: nat) {
    match op
    case Close(_) => true
    case Open(path, name, _, _) => path.Guest? ==> path.addr + |name| < bound
    case _ => BufferOf(op).Guest? ==> BufferOf(op).addr + BufferOf(op).len <= bound
  }

  /** From here to its next exit the guest depends on, and its call concerns, memory below `bound` only. */
  ghost predicate Confined(cfg: Config, l: Loop, bound: nat) {
    l.status == Running ==>
      && (forall vm :: SameBelow(l.vm, vm, bound) ==>
            cfg.guest(vm).0 == cfg.guest(l.vm).0 && SameBelow(cfg.guest(l.vm).1, cfg.guest(vm).1, bound))
      && !TakesSnapshot(cfg, l)
      && (cfg.guest(l.vm).0 == HyperCall && HostOpOf(cfg.guest(l.vm).1).Some? ==>
            OpBelow(HostOpOf(cfg.guest(l.vm).1).value, bound))
  }

  /**
   Booting takes `k` exits that make no host call and ignore the argument, then one snapshot
   of `bound` bytes; from there on every call stays below `bound` and takes no snapshot.
   */
  ghost predicate SnapshotIsBoot(su: Setup, cfg: Config, arg0: seq<Byte>, k: nat, bound: nat) {
    && SetupOk(su) && KeepsSize(cfg) && cfg.useSnapshots
    && |arg0| == su.argsz <= bound <= su.memsz
    && (forall i: nat :: i <= k ==> BootAt(su, cfg, arg0, i))
    && (forall i: nat :: i < k ==> QuietAt(su, cfg, arg0, i))
    && TakesSnapshot(cfg, Cold(su, cfg, arg0, k))
    && cfg.guest(Cold(su, cfg, arg0, k).vm).1.cpu.regs.rdx == bound
    && (forall arg: seq<Byte>, n: nat :: |arg| == su.argsz && n > k ==> ConfinedAt(su, cfg, arg, n, bound))
  }

  /** The cold run of a call after `n` exits. */
  ghost function Cold(su: Setup, cfg: Config, arg: seq<Byte>, n: nat): Loop
    requires SetupOk(su) && |arg| == su.argsz
  {
    Iterate(cfg, ColdStart(su, arg), n)
  }

  ghost predicate QuietAt(su: Setup, cfg: Config, arg0: seq<Byte>, i: nat)
    requires SetupOk(su) && |arg0| == su.argsz
  {
    !TakesSnapshot(cfg, Cold(su, cfg, arg0, i))
  }

  ghost predicate ConfinedAt(su: Setup, cfg: Config, arg: seq<Byte>, n: nat, bound: nat)
    requires SetupOk(su) && |arg| == su.argsz
  {
    Confined(cfg, Cold(su, cfg, arg, n), bound)
  }

  ghost predicate BootAt(su: Setup, cfg: Config, arg0: seq<Byte>, i: nat)
    requires SetupOk(su) && |arg0| == su.argsz
  {
    var l := Cold(su, cfg, arg0, i);
    l.status == Running && l.trace == [] && IgnoresArg(cfg, l.vm, su.argsz)
  }

  // ---------------------------------------------------------------- booting ignores the argument

  function Swap(l: Loop, x: seq<Byte>): Loop
    requires |x| <= |l.vm.mem|
  {
    l.(vm := WithArg(l.vm, x))
  }

  lemma WithArgTwice(vm: Vm, x: seq<Byte>, y: seq<Byte>)
    requires |x| == |y| <= |vm.mem|
    ensures WithArg(WithArg(vm, x), y) == WithArg(vm, y)
  {
    assert (x + vm.mem[|x|..])[|y|..] == vm.mem[|y|..];
  }

  /** The runtime's own part of a host-free turn ignores the argument bytes as well. */
  lemma ServeSwap(cfg: Config, l: Loop, x: seq<Byte>)
    requires |x| <= |l.vm.mem| && Serve(cfg, l).trace == l.trace && l.vm.cpu.regs.rdi != HCALL_SNAPSHOT
    ensures Serve(cfg, Swap(l, x)) == Swap(Serve(cfg, l), x)
  {
    if Serves(l.vm.cpu.regs.rdi) {
      HostOpSwap(l.vm, x);
      assert HostOpOf(l.vm).Some? ==> |Serve(cfg, l).trace| == |l.trace| + 1;
    }
  }

  lemma HostOpSwap(vm: Vm, x: seq<Byte>)
    requires |x| <= |vm.mem|
    ensures HostOpOf(WithArg(vm, x)).None? <==> HostOpOf(vm).None?
  {
  }

  lemma StepSwap(cfg: Config, l: Loop, x: seq<Byte>)
    requires l.status == Running && IgnoresArg(cfg, l.vm, |x|) && !TakesSnapshot(cfg, l)
    requires LoopStep(cfg, l).trace == l.trace
    ensures |x| <= |LoopStep(cfg, l).vm.mem| && LoopStep(cfg, Swap(l, x)) == Swap(LoopStep(cfg, l), x)
  {
    var (exit, vm) := cfg.guest(l.vm);
    assert cfg.guest(WithArg(l.vm, x)) == (exit, WithArg(vm, x));
    if exit == HyperCall && HypercallAllowed(cfg, ToInt32(vm.cpu.regs.rdi)) {
      ServeSwap(cfg, l.(vm := vm), x);
    }
  }

  /** Before the snapshot, two cold runs differ in their argument bytes only. */
  lemma {:induction false} BootSame(su: Setup, cfg: Config, arg0: seq<Byte>, k: nat, bound: nat, arg: seq<Byte>, i: nat)
    requires SnapshotIsBoot(su, cfg, arg0, k, bound) && |arg| == su.argsz && i <= k
    ensures |Cold(su, cfg, arg0, i).vm.mem| == su.memsz
    ensures Cold(su, cfg, arg, i) == Swap(Cold(su, cfg, arg0, i), arg)
    ensures Cold(su, cfg, arg0, i).reset == FirstReset(su)
  {
    if i == 0 {
      WithArgTwice(FreshVm(su), arg0, arg);
    } else {
      BootSame(su, cfg, arg0, k, bound, arg, i - 1);
      var l := Cold(su, cfg, arg0, i - 1);
      assert BootAt(su, cfg, arg0, i - 1) && BootAt(su, cfg, arg0, i) && QuietAt(su, cfg, arg0, i - 1);
      StepSwap(cfg, l, arg);
      QuietReset(cfg, l);
      StepSize(cfg, l);
    }
  }

  lemma StepSize(cfg: Config, l: Loop)
    requires KeepsSize(cfg)
    ensures |LoopStep(cfg, l).vm.mem| == |l.vm.mem|
  {
    assert |cfg.guest(l.vm).1.mem| == |l.vm.mem|;
  }

  lemma BootRunning(su: Setup, cfg: Config, arg0: seq<Byte>, k: nat, bound: nat, arg: seq<Byte>, i: nat)
    requires SnapshotIsBoot(su, cfg, arg0, k, bound) && |arg| == su.argsz && i <= k
    ensures Cold(su, cfg, arg, i).status == Running
  {
    BootSame(su, cfg, arg0, k, bound, arg, i);
    assert BootAt(su, cfg, arg0, i);
  }

  lemma QuietReset(cfg: Config, l: Loop)
    requires !TakesSnapshot(cfg, l)
    ensures LoopStep(cfg, l).reset == l.reset
  {
  }

  /** The machine right after the snapshot, with the argument bytes of the reference call. */
  ghost function SnapVm(su: Setup, cfg: Config, arg0: seq<Byte>, k: nat): Vm
    requires SetupOk(su) && |arg0| == su.argsz
  {
    Cold(su, cfg, arg0, k + 1).vm
  }

  lemma SnapshotStep(su: Setup, cfg: Config, arg0: seq<Byte>, k: nat, bound: nat, arg: seq<Byte>)
    requires SnapshotIsBoot(su, cfg, arg0, k, bound) && |arg| == su.argsz
    ensures |SnapVm(su, cfg, arg0, k).mem| == su.memsz
    ensures var l := Cold(su, cfg, arg, k + 1);
            && l.vm == WithArg(SnapVm(su, cfg, arg0, k), arg)
            && l.trace == [] && l.status == Running && l.reset == Snapshot(l.vm, bound)
    ensures TakesSnapshot(cfg, Cold(su, cfg, arg, k))
  {
    BootSame(su, cfg, arg0, k, bound, arg, k);
    assert BootAt(su, cfg, arg0, k);
    SnapshotTurn(cfg, Cold(su, cfg, arg0, k), arg, bound);
  }

  lemma SnapshotTurn(cfg: Config, l: Loop, arg: seq<Byte>, bound: nat)
    requires TakesSnapshot(cfg, l) && cfg.useSnapshots && l.trace == [] && IgnoresArg(cfg, l.vm, |arg|)
    requires cfg.guest(l.vm).1.cpu.regs.rdx == bound <= |l.vm.mem|
    ensures |LoopStep(cfg, l).vm.mem| == |l.vm.mem| && TakesSnapshot(cfg, Swap(l, arg))
    ensures var r := LoopStep(cfg, Swap(l, arg));
            && r.vm == WithArg(LoopStep(cfg, l).vm, arg)
            && r.trace == [] && r.status == Running && r.reset == Snapshot(r.vm, bound)
  {
    assert cfg.guest(WithArg(l.vm, arg)) == (cfg.guest(l.vm).0, WithArg(cfg.guest(l.vm).1, arg));
  }

  // ---------------------------------------------------------------- after the snapshot

  lemma {:induction false} CStringSame(m1: seq<Byte>, m2: seq<Byte>, a: nat, bound: nat)
    requires |m1| == |m2| && bound <= |m1| && m1[..bound] == m2[..bound]
    requires a + |CString(m1, a)| < bound
    ensures CString(m2, a) == CString(m1, a)
    decreases |m1| - a
  {
    assert m1[a] == m1[..bound][a] && m2[a] == m2[..bound][a];
    if m1[a] != 0 {
      CStringSame(m1, m2, a + 1, bound);
    }
  }

  lemma SliceSame(m1: seq<Byte>, m2: seq<Byte>, bound: nat, a: nat, b: nat)
    requires bound <= |m1| && bound <= |m2| && m1[..bound] == m2[..bound] && a <= b <= bound
    ensures m1[a..b] == m2[a..b]
  {
    assert m1[a..b] == m1[..bound][a..b] && m2[a..b] == m2[..bound][a..b];
  }

  lemma HostOpSame(v1: Vm, v2: Vm, bound: nat)
    requires SameBelow(v1, v2, bound) && (HostOpOf(v1).Some? ==> OpBelow(HostOpOf(v1).value, bound))
    ensures HostOpOf(v2) == HostOpOf(v1)
  {
    if HostOpOf(v1).Some? {
      var op := HostOpOf(v1).value;
      if op.Open? && op.path.Guest? {
        CStringSame(v1.mem, v2.mem, op.path.addr, bound);
      } else if op.Write? && Inside(op.buf, |v1.mem|) {
        SliceSame(v1.mem, v2.mem, bound, op.buf.addr, op.buf.addr + op.buf.len);
      }
    }
  }

  lemma StoredSame(m1: seq<Byte>, m2: seq<Byte>, op: HostOp, data: seq<Byte>, bound: nat)
    requires |m1| == |m2| && bound <= |m1| && m1[..bound] == m2[..bound]
    ensures Stored(m1, op, data)[..bound] == Stored(m2, op, data)[..bound]
  {
    forall i | 0 <= i < bound
      ensures Stored(m1, op, data)[i] == Stored(m2, op, data)[i]
    {
      assert m1[i] == m1[..bound][i] && m2[i] == m2[..bound][i];
    }
  }

  lemma ServeSame(cfg: Config, l1: Loop, l2: Loop, bound: nat)
    requires SameBelow(l1.vm, l2.vm, bound) && l1.trace == l2.trace && l1.status == l2.status
    requires l1.vm.cpu.regs.rdi != HCALL_SNAPSHOT
    requires HostOpOf(l1.vm).Some? ==> OpBelow(HostOpOf(l1.vm).value, bound)
    ensures var r1, r2 := Serve(cfg, l1), Serve(cfg, l2);
            SameBelow(r1.vm, r2.vm, bound) && r1.trace == r2.trace && r1.status == r2.status
  {
    HostOpSame(l1.vm, l2.vm, bound);
    if Serves(l1.vm.cpu.regs.rdi) && HostOpOf(l1.vm).Some? {
      var op := HostOpOf(l1.vm).value;
      StoredSame(l1.vm.mem, l2.vm.mem, op, cfg.host(l1.trace, op).data, bound);
    }
  }

  /** Two calls at the same point: same host calls, same status, same machine below the bound. */
  ghost predicate InStep(c: Loop, w: Loop, bound: nat) {
    SameBelow(c.vm, w.vm, bound) && w.trace == c.trace && w.status == c.status
  }

  /** One turn of two calls that are in step. */
  lemma WarmStep(cfg: Config, l1: Loop, l2: Loop, bound: nat)
    requires Confined(cfg, l1, bound) && InStep(l1, l2, bound)
    ensures InStep(LoopStep(cfg, l1), LoopStep(cfg, l2), bound) && LoopStep(cfg, l2).reset == l2.reset
  {
    if l1.status == Running {
      var (exit, vm1) := cfg.guest(l1.vm);
      var vm2 := cfg.guest(l2.vm).1;
      assert cfg.guest(l2.vm).0 == exit && SameBelow(vm1, vm2, bound);
      if exit == HyperCall && HypercallAllowed(cfg, ToInt32(vm1.cpu.regs.rdi)) {
        ServeSame(cfg, l1.(vm := vm1), l2.(vm := vm2), bound);
      }
    }
  }

  /**
   A warm start equals a cold boot: a call on any virtine that agrees with the snapshot
   below its bound goes exit by exit like the call on a newly booted virtine does after
   its boot, with the same host calls, the same end and the same argument bytes.
   */
  lemma WarmEqualsCold(su: Setup, cfg: Config, arg0: seq<Byte>, k: nat, bound: nat,
                       warm: Vm, rst: Reset, arg: seq<Byte>, n: nat)
    requires SnapshotIsBoot(su, cfg, arg0, k, bound) && |arg| == su.argsz
    requires IsWarm(su, cfg, arg0, k, bound, warm)
    ensures var w, c := Iterate(cfg, Loop(WithArg(warm, arg), rst, [], Running), n), Cold(su, cfg, arg, k + 1 + n);
            && InStep(c, w, bound)
            && w.vm.mem[..su.argsz] == c.vm.mem[..su.argsz]
  {
    WarmStarts(su, cfg, arg0, k, bound, warm, rst, arg);
    var l := Loop(WithArg(warm, arg), rst, [], Running);
    StaysInStep(su, cfg, arg0, k, bound, l, arg, n);
    ArgBytesSame(Cold(su, cfg, arg, k + 1 + n), Iterate(cfg, l, n), su.argsz, bound);
  }

  lemma WarmStarts(su: Setup, cfg: Config, arg0: seq<Byte>, k: nat, bound: nat, warm: Vm, rst: Reset, arg: seq<Byte>)
    requires SnapshotIsBoot(su, cfg, arg0, k, bound) && |arg| == su.argsz
    requires IsWarm(su, cfg, arg0, k, bound, warm)
    ensures InStep(Cold(su, cfg, arg, k + 1), Loop(WithArg(warm, arg), rst, [], Running), bound)
  {
    SnapshotStep(su, cfg, arg0, k, bound, arg);
    WarmWithArg(su, cfg, arg0, k, bound, warm, arg);
  }

  lemma StaysInStep(su: Setup, cfg: Config, arg0: seq<Byte>, k: nat, bound: nat, l: Loop, arg: seq<Byte>, n: nat)
    requires SnapshotIsBoot(su, cfg, arg0, k, bound) && |arg| == su.argsz
    requires InStep(Cold(su, cfg, arg, k + 1), l, bound)
    ensures InStep(Cold(su, cfg, arg, k + 1 + n), Iterate(cfg, l, n), bound)
  {
    var c := Cold(su, cfg, arg, k + 1);
    forall i: nat | i < n
      ensures Confined(cfg, Iterate(cfg, c, i), bound)
    {
      ColdLater(su, cfg, arg0, k, bound, arg, i);
    }
    RunInStep(cfg, c, l, bound, n);
    ColdLater(su, cfg, arg0, k, bound, arg, n);
  }

  lemma ColdLater(su: Setup, cfg: Config, arg0: seq<Byte>, k: nat, bound: nat, arg: seq<Byte>, n: nat)
    requires SnapshotIsBoot(su, cfg, arg0, k, bound) && |arg| == su.argsz
    ensures Iterate(cfg, Cold(su, cfg, arg, k + 1), n) == Cold(su, cfg, arg, k + 1 + n)
    ensures Confined(cfg, Iterate(cfg, Cold(su, cfg, arg, k + 1), n), bound)
  {
    IterateAdd(cfg, ColdStart(su, arg), k + 1, n);
    assert ConfinedAt(su, cfg, arg, k + 1 + n, bound);
  }

  lemma {:induction false} IterateAdd(cfg: Config, l: Loop, m: nat, n: nat)
    ensures Iterate(cfg, Iterate(cfg, l, m), n) == Iterate(cfg, l, m + n)
  {
    if n > 0 { IterateAdd(cfg, l, m, n - 1); }
  }

  lemma {:induction false} RunInStep(cfg: Config, c: Loop, l: Loop, bound: nat, n: nat)
    requires InStep(c, l, bound) && forall i: nat :: i < n ==> Confined(cfg, Iterate(cfg, c, i), bound)
    ensures InStep(Iterate(cfg, c, n), Iterate(cfg, l, n), bound)
  {
    if n > 0 {
      RunInStep(cfg, c, l, bound, n - 1);
      WarmStep(cfg, Iterate(cfg, c, n - 1), Iterate(cfg, l, n - 1), bound);
    }
  }

  lemma ArgBytesSame(c: Loop, w: Loop, argsz: nat, bound: nat)
    requires InStep(c, w, bound) && argsz <= bound
    ensures w.vm.mem[..argsz] == c.vm.mem[..argsz]
  {
    SliceSame(c.vm.mem, w.vm.mem, bound, 0, argsz);
  }

  lemma ColdNext(su: Setup, cfg: Config, arg0: seq<Byte>, k: nat, bound: nat, arg: seq<Byte>, n: nat)
    requires SnapshotIsBoot(su, cfg, arg0, k, bound) && |arg| == su.argsz
    ensures Cold(su, cfg, arg, n + 1) == LoopStep(cfg, Cold(su, cfg, arg, n))
    ensures n > k ==> Confined(cfg, Cold(su, cfg, arg, n), bound)
  {
    assert n > k ==> ConfinedAt(su, cfg, arg, n, bound);
  }

  /** Registers and memory of the snapshot, except for the argument bytes and above the bound. */
  ghost predicate IsWarm(su: Setup, cfg: Config, arg0: seq<Byte>, k: nat, bound: nat, vm: Vm)
    requires SetupOk(su) && |arg0| == su.argsz
  {
    var snap := SnapVm(su, cfg, arg0, k);
    && vm.cpu == snap.cpu && |vm.mem| == |snap.mem| == su.memsz && su.argsz <= bound <= su.memsz
    && vm.mem[su.argsz..bound] == snap.mem[su.argsz..bound]
  }

  lemma WarmWithArg(su: Setup, cfg: Config, arg0: seq<Byte>, k: nat, bound: nat, warm: Vm, arg: seq<Byte>)
    requires SetupOk(su) && |arg0| == |arg| == su.argsz && IsWarm(su, cfg, arg0, k, bound, warm)
    ensures SameBelow(WithArg(SnapVm(su, cfg, arg0, k), arg), WithArg(warm, arg), bound)
  {
    var snap := SnapVm(su, cfg, arg0, k);
    assert WithArg(warm, arg).mem[..bound] == arg + warm.mem[su.argsz..bound];
    assert WithArg(snap, arg).mem[..bound] == arg + snap.mem[su.argsz..bound];
  }

  // ---------------------------------------------------------------- every call of every run

  /** The call stands where the cold call with the same argument stands after `m` exits. */
  ghost predicate Tracks(su: Setup, cfg: Config, k: nat, bound: nat, a: Active, m: nat)
    requires SetupOk(su) && |a.arg| == su.argsz
  {
    var c := Cold(su, cfg, a.arg, m);
    && a.trace == c.trace && a.status == c.status
    && if m <= k then a.vm == c.vm else SameBelow(c.vm, a.vm, bound)
  }

  /** The reset state is a snapshot taken by some call. */
  ghost predicate IsSnapshot(su: Setup, cfg: Config, arg0: seq<Byte>, k: nat, bound: nat, r: Reset)
    requires SetupOk(su) && |arg0| == su.argsz
  {
    && |r.regions| == 1 && r.regions[0].address == 0 && |r.regions[0].data| == bound
    && |SnapVm(su, cfg, arg0, k).mem| == su.memsz && su.argsz <= bound <= su.memsz
    && r.cpu == SnapVm(su, cfg, arg0, k).cpu
    && r.regions[0].data[su.argsz..] == SnapVm(su, cfg, arg0, k).mem[su.argsz..bound]
  }

  ghost predicate CallOk(su: Setup, cfg: Config, k: nat, bound: nat, a: Active, snapshotTaken: bool)
    requires SetupOk(su)
  {
    |a.arg| == su.argsz && exists m: nat :: Tracks(su, cfg, k, bound, a, m) && (m > k ==> snapshotTaken)
  }

  /** The call could have been made on a newly booted virtine: same bytes out, same host calls. */
  ghost predicate ColdOutcome(su: Setup, cfg: Config, r: Result)
    requires SetupOk(su)
  {
    |r.arg| == su.argsz && exists m: nat :: ColdEnds(su, cfg, r, m)
  }

  ghost predicate ColdEnds(su: Setup, cfg: Config, r: Result, m: nat)
    requires SetupOk(su) && |r.arg| == su.argsz
  {
    var c := Cold(su, cfg, r.arg, m);
    c.status == Done && su.argsz <= |c.vm.mem| && r.out == c.vm.mem[..su.argsz] && r.trace == c.trace
  }

  ghost predicate ColdInv(su: Setup, cfg: Config, arg0: seq<Byte>, k: nat, bound: nat, s: Sys)
    requires SetupOk(su) && |arg0| == su.argsz
  {
    var taken := s.reset.Some? && IsSnapshot(su, cfg, arg0, k, bound, s.reset.value);
    && (s.reset.Some? ==> taken || s.reset.value == FirstReset(su))
    && (forall i :: 0 <= i < |s.pool| ==>
          s.pool[i] == FreshVm(su) || (taken && IsWarm(su, cfg, arg0, k, bound, s.pool[i])))
    && (forall t :: t in s.active ==> CallOk(su, cfg, k, bound, s.active[t], taken))
    && (forall i :: 0 <= i < |s.results| ==> ColdOutcome(su, cfg, s.results[i]))
  }

  lemma ResetToSnapshot(su: Setup, cfg: Config, arg0: seq<Byte>, k: nat, bound: nat, r: Reset, vm: Vm)
    requires SetupOk(su) && |arg0| == su.argsz && IsSnapshot(su, cfg, arg0, k, bound, r) && |vm.mem| == su.memsz
    ensures AllFit(r.regions, |vm.mem|) && IsWarm(su, cfg, arg0, k, bound, ResetVm(vm, r))
  {
    var region := r.regions[0];
    assert r.regions == [region] && r.regions[..0] == [];
    var m := ResetVm(vm, r).mem;
    assert Overlays(vm.mem, r.regions[..0]) == vm.mem;
    assert m == Overlay(vm.mem, region);
    forall i | su.argsz <= i < bound
      ensures m[i] == region.data[i]
    {
      assert Covers(region, i);
    }
    assert m[su.argsz..bound] == region.data[su.argsz..];
  }

  /** A virtine handed out by `get`, whether pooled or newly allocated. */
  lemma StartOk(su: Setup, cfg: Config, arg0: seq<Byte>, k: nat, bound: nat, vm: Vm, arg: seq<Byte>, taken: bool)
    requires SnapshotIsBoot(su, cfg, arg0, k, bound) && |arg| == su.argsz
    requires vm == FreshVm(su) || (taken && IsWarm(su, cfg, arg0, k, bound, vm))
    ensures |vm.mem| == su.memsz && CallOk(su, cfg, k, bound, Active(arg, WithArg(vm, arg), [], Running), taken)
  {
    var a := Active(arg, WithArg(vm, arg), [], Running);
    if vm == FreshVm(su) {
      assert Tracks(su, cfg, k, bound, a, 0);
    } else {
      SnapshotStep(su, cfg, arg0, k, bound, arg);
      WarmWithArg(su, cfg, arg0, k, bound, vm, arg);
      assert Tracks(su, cfg, k, bound, a, k + 1);
    }
  }

  /** What `allocate` delivers under the current reset state. */
  lemma AllocatedOk(su: Setup, cfg: Config, arg0: seq<Byte>, k: nat, bound: nat, r: Reset)
    requires SnapshotIsBoot(su, cfg, arg0, k, bound)
    requires IsSnapshot(su, cfg, arg0, k, bound, r) || r == FirstReset(su)
    ensures AllFit(r.regions, su.memsz)
    ensures var vm := AllocateVm(su.memsz, su.boot, r);
            if IsSnapshot(su, cfg, arg0, k, bound, r) then IsWarm(su, cfg, arg0, k, bound, vm) else vm == FreshVm(su)
  {
    if IsSnapshot(su, cfg, arg0, k, bound, r) {
      ResetToSnapshot(su, cfg, arg0, k, bound, r, Vm(su.boot, Zeros(su.memsz)));
    }
  }

  lemma ColdWithReset(su: Setup, cfg: Config, arg0: seq<Byte>, k: nat, bound: nat, s: Sys)
    requires SnapshotIsBoot(su, cfg, arg0, k, bound) && VersionInv(su, s) && ColdInv(su, cfg, arg0, k, bound, s)
    ensures ColdInv(su, cfg, arg0, k, bound, WithReset(su, s))
  {
  }

  lemma ColdBegin(su: Setup, cfg: Config, arg0: seq<Byte>, k: nat, bound: nat, s: Sys, t: Tid, arg: seq<Byte>, s': Sys)
    requires SnapshotIsBoot(su, cfg, arg0, k, bound) && VersionInv(su, s) && ColdInv(su, cfg, arg0, k, bound, s)
    requires Begin(su, s, t, arg, s')
    ensures ColdInv(su, cfg, arg0, k, bound, s')
  {
    if s.pool == [] {
      ColdWithReset(su, cfg, arg0, k, bound, s);
      var r := WithReset(su, s).reset.value;
      AllocatedOk(su, cfg, arg0, k, bound, r);
      StartOk(su, cfg, arg0, k, bound, AllocateVm(su.memsz, su.boot, r), arg, IsSnapshot(su, cfg, arg0, k, bound, r));
    } else {
      var r := s.reset.value;
      StartOk(su, cfg, arg0, k, bound, s.pool[0], arg, IsSnapshot(su, cfg, arg0, k, bound, r));
    }
  }

  lemma ColdFill(su: Setup, cfg: Config, arg0: seq<Byte>, k: nat, bound: nat, s: Sys, s': Sys)
    requires SnapshotIsBoot(su, cfg, arg0, k, bound) && VersionInv(su, s) && ColdInv(su, cfg, arg0, k, bound, s)
    requires Fill(su, s, s')
    ensures ColdInv(su, cfg, arg0, k, bound, s')
  {
    ColdWithReset(su, cfg, arg0, k, bound, s);
    var s1 := WithReset(su, s);
    AllocatedOk(su, cfg, arg0, k, bound, s1.reset.value);
    forall i | 0 <= i < |s'.pool|
      ensures s'.pool[i] == FreshVm(su)
              || (IsSnapshot(su, cfg, arg0, k, bound, s'.reset.value) && IsWarm(su, cfg, arg0, k, bound, s'.pool[i]))
    {
      if i > 0 { assert s'.pool[i] == s1.pool[i - 1]; }
    }
  }

  lemma ColdFinish(su: Setup, cfg: Config, arg0: seq<Byte>, k: nat, bound: nat, s: Sys, t: Tid, s': Sys)
    requires SnapshotIsBoot(su, cfg, arg0, k, bound) && VersionInv(su, s) && ColdInv(su, cfg, arg0, k, bound, s)
    requires Finish(su, s, t, s')
    ensures ColdInv(su, cfg, arg0, k, bound, s')
  {
    var a, r := s.active[t], s.reset.value;
    FinishedCall(su, cfg, arg0, k, bound, a, IsSnapshot(su, cfg, arg0, k, bound, r));
    ResetToSnapshot(su, cfg, arg0, k, bound, r, a.vm);
  }

  /** A call that is over has passed its snapshot, and ends as the cold call does. */
  lemma FinishedCall(su: Setup, cfg: Config, arg0: seq<Byte>, k: nat, bound: nat, a: Active, taken: bool)
    requires SnapshotIsBoot(su, cfg, arg0, k, bound) && CallOk(su, cfg, k, bound, a, taken)
    requires a.status == Done && |a.vm.mem| == su.memsz
    ensures taken && ColdOutcome(su, cfg, Result(a.arg, a.vm.mem[..su.argsz], a.trace))
  {
    var m: nat :| Tracks(su, cfg, k, bound, a, m) && (m > k ==> taken);
    if m <= k {
      BootRunning(su, cfg, arg0, k, bound, a.arg, m);
      assert false;
    }
    var c := Cold(su, cfg, a.arg, m);
    SliceSame(c.vm.mem, a.vm.mem, bound, 0, su.argsz);
    assert ColdEnds(su, cfg, Result(a.arg, a.vm.mem[..su.argsz], a.trace), m);
  }

  /** One turn of a call that tracks its cold run: it still does, and only the snapshot turn touches the reset state. */
  lemma AdvanceTracks(su: Setup, cfg: Config, arg0: seq<Byte>, k: nat, bound: nat, a: Active, r: Reset, m: nat)
    requires SnapshotIsBoot(su, cfg, arg0, k, bound) && |a.arg| == su.argsz && Tracks(su, cfg, k, bound, a, m)
    ensures var l := LoopStep(cfg, Loop(a.vm, r, a.trace, a.status));
            && Tracks(su, cfg, k, bound, Active(a.arg, l.vm, l.trace, l.status), m + 1)
            && if m == k then IsSnapshot(su, cfg, arg0, k, bound, l.reset) else l.reset == r
  {
    var c, l := Cold(su, cfg, a.arg, m), Loop(a.vm, r, a.trace, a.status);
    ColdNext(su, cfg, arg0, k, bound, a.arg, m);
    if m > k {
      WarmStep(cfg, c, l, bound);
    } else {
      ResetIrrelevant(cfg, c, r);
      assert l == c.(reset := r);
      BootSame(su, cfg, arg0, k, bound, a.arg, m);
      if m < k {
        BootNoSnapshot(su, cfg, arg0, k, bound, a.arg, m);
        QuietReset(cfg, l);
      } else {
        SnapshotStep(su, cfg, arg0, k, bound, a.arg);
        SnapshotTaken(su, cfg, arg0, k, bound, a.arg, l);
      }
    }
  }

  /** The reset state is only ever written by the loop. */
  lemma ResetIrrelevant(cfg: Config, l: Loop, r: Reset)
    ensures var x, y := LoopStep(cfg, l), LoopStep(cfg, l.(reset := r));
            x.vm == y.vm && x.trace == y.trace && x.status == y.status
    ensures TakesSnapshot(cfg, l) <==> TakesSnapshot(cfg, l.(reset := r))
    ensures TakesSnapshot(cfg, l) && cfg.useSnapshots && LoopStep(cfg, l).status == Running ==>
              LoopStep(cfg, l.(reset := r)).reset == LoopStep(cfg, l).reset
  {
  }

  lemma BootNoSnapshot(su: Setup, cfg: Config, arg0: seq<Byte>, k: nat, bound: nat, arg: seq<Byte>, i: nat)
    requires SnapshotIsBoot(su, cfg, arg0, k, bound) && |arg| == su.argsz && i < k
    ensures !TakesSnapshot(cfg, Cold(su, cfg, arg, i))
  {
    BootSame(su, cfg, arg0, k, bound, arg, i);
    var l := Cold(su, cfg, arg0, i);
    assert BootAt(su, cfg, arg0, i) && QuietAt(su, cfg, arg0, i);
    assert cfg.guest(WithArg(l.vm, arg)) == (cfg.guest(l.vm).0, WithArg(cfg.guest(l.vm).1, arg));
  }

  lemma SnapshotTaken(su: Setup, cfg: Config, arg0: seq<Byte>, k: nat, bound: nat, arg: seq<Byte>, l: Loop)
    requires SnapshotIsBoot(su, cfg, arg0, k, bound) && |arg| == su.argsz
    requires l == Cold(su, cfg, arg, k).(reset := l.reset)
    ensures IsSnapshot(su, cfg, arg0, k, bound, LoopStep(cfg, l).reset)
    ensures SameBelow(LoopStep(cfg, l).vm, LoopStep(cfg, l).vm, bound)
  {
    SnapshotStep(su, cfg, arg0, k, bound, arg);
    ResetIrrelevant(cfg, Cold(su, cfg, arg, k), l.reset);
    var snap := SnapVm(su, cfg, arg0, k);
    var d := WithArg(snap, arg).mem[..bound];
    assert d == arg + snap.mem[su.argsz..bound];
    assert d[su.argsz..] == snap.mem[su.argsz..bound];
  }

  lemma ColdAdvance(su: Setup, cfg: Config, arg0: seq<Byte>, k: nat, bound: nat, s: Sys, t: Tid, s': Sys)
    requires SnapshotIsBoot(su, cfg, arg0, k, bound) && VersionInv(su, s) && ColdInv(su, cfg, arg0, k, bound, s)
    requires Advance(cfg, s, t, s')
    ensures ColdInv(su, cfg, arg0, k, bound, s')
  {
    var a, r := s.active[t], s.reset.value;
    AdvanceCall(su, cfg, arg0, k, bound, a, r);
  }

  lemma AdvanceCall(su: Setup, cfg: Config, arg0: seq<Byte>, k: nat, bound: nat, a: Active, r: Reset)
    requires SnapshotIsBoot(su, cfg, arg0, k, bound)
    requires CallOk(su, cfg, k, bound, a, IsSnapshot(su, cfg, arg0, k, bound, r))
    ensures var l := LoopStep(cfg, Loop(a.vm, r, a.trace, a.status));
            && (l.reset == r || IsSnapshot(su, cfg, arg0, k, bound, l.reset))
            && CallOk(su, cfg, k, bound, Active(a.arg, l.vm, l.trace, l.status),
                      IsSnapshot(su, cfg, arg0, k, bound, l.reset))
  {
    var m: nat :| Tracks(su, cfg, k, bound, a, m) && (m > k ==> IsSnapshot(su, cfg, arg0, k, bound, r));
    AdvanceTracks(su, cfg, arg0, k, bound, a, r, m);
  }

  lemma ColdStep(su: Setup, cfg: Config, arg0: seq<Byte>, k: nat, bound: nat, s: Sys, s': Sys)
    requires SnapshotIsBoot(su, cfg, arg0, k, bound) && VersionInv(su, s) && ColdInv(su, cfg, arg0, k, bound, s)
    requires SysStep(su, cfg, s, s')
    ensures ColdInv(su, cfg, arg0, k, bound, s')
  {
    if t, arg :| Begin(su, s, t, arg, s') {
      ColdBegin(su, cfg, arg0, k, bound, s, t, arg, s');
    } else if t :| Advance(cfg, s, t, s') {
      ColdAdvance(su, cfg, arg0, k, bound, s, t, s');
    } else if t :| Finish(su, s, t, s') {
      ColdFinish(su, cfg, arg0, k, bound, s, t, s');
    } else {
      ColdFill(su, cfg, arg0, k, bound, s, s');
    }
  }

  lemma {:induction false} ColdHolds(su: Setup, cfg: Config, arg0: seq<Byte>, k: nat, bound: nat, states: seq<Sys>)
    requires SnapshotIsBoot(su, cfg, arg0, k, bound) && SysRun(su, cfg, states)
    ensures ColdInv(su, cfg, arg0, k, bound, states[|states| - 1])
  {
    if |states| > 1 {
      var before := states[..|states| - 1];
      ColdHolds(su, cfg, arg0, k, bound, before);
      VersionsHold(su, cfg, before);
      assert SysStep(su, cfg, states[|states| - 2], states[|states| - 1]);
      ColdStep(su, cfg, arg0, k, bound, before[|before| - 1], states[|states| - 1]);
    }
  }

  /**
   In every interleaving of any number of calls on one cache, every call that finishes
   delivers the argument bytes and makes the host calls of a call on a newly booted virtine.
   */
  lemma EveryCallLooksCold(su: Setup, cfg: Config, arg0: seq<Byte>, k: nat, bound: nat, states: seq<Sys>, i: nat)
    requires SnapshotIsBoot(su, cfg, arg0, k, bound) && SysRun(su, cfg, states)
    requires i < |states[|states| - 1].results|
    ensures ColdOutcome(su, cfg, states[|states| - 1].results[i])
  {
    ColdHolds(su, cfg, arg0, k, bound, states);
  }

  /** And no call is lost: if the cold call ends within `n` exits, so does the call under way. */
  lemma {:induction false} CallCompletes(su: Setup, cfg: Config, arg0: seq<Byte>, k: nat, bound: nat, a: Active,
                                         taken: bool, r: Reset, n: nat)
    requires SnapshotIsBoot(su, cfg, arg0, k, bound) && CallOk(su, cfg, k, bound, a, taken)
    requires Cold(su, cfg, a.arg, n).status == Done
    ensures Iterate(cfg, Loop(a.vm, r, a.trace, a.status), n).status == Done
  {
    var m: nat :| Tracks(su, cfg, k, bound, a, m);
    IterateTracks(su, cfg, arg0, k, bound, a, r, m, n);
    DoneStays(cfg, ColdStart(su, a.arg), n, m + n);
  }

  lemma {:induction false} IterateTracks(su: Setup, cfg: Config, arg0: seq<Byte>, k: nat, bound: nat, a: Active,
                                         r: Reset, m: nat, n: nat)
    requires SnapshotIsBoot(su, cfg, arg0, k, bound) && |a.arg| == su.argsz && Tracks(su, cfg, k, bound, a, m)
    ensures var l := Iterate(cfg, Loop(a.vm, r, a.trace, a.status), n);
            Tracks(su, cfg, k, bound, Active(a.arg, l.vm, l.trace, l.status), m + n)
  {
    if n > 0 {
      IterateTracks(su, cfg, arg0, k, bound, a, r, m, n - 1);
      var l := Iterate(cfg, Loop(a.vm, r, a.trace, a.status), n - 1);
      AdvanceTracks(su, cfg, arg0, k, bound, Active(a.arg, l.vm, l.trace, l.status), l.reset, m + n - 1);
    }
  }

  // ---------------------------------------------------------------- a guest that meets the assumptions

  /**
   A guest that boots, takes a snapshot of the first half of its memory, writes its argument
   to a file, adds one to it, and exits.  Register `others` says how far it is.
   */
  function Echo(vm: Vm): (ExitReason, Vm) {
    var r := vm.cpu.regs;
    if r.others == 0 then (Halted, WithRegs(vm, r.(others := 1)))
    else if r.others == 1 then (HyperCall, WithRegs(vm, r.(rdi := HCALL_SNAPSHOT, rdx := 4096, others := 2)))
    else if r.others == 2 then
      (HyperCall, WithRegs(vm, r.(rdi := HCALL_WRITE, rsi := 1, rdx := 0, rcx := 1, others := 3)))
    else if vm.mem == [] then (Exited, vm)
    else (Exited, vm.(mem := vm.mem[0 := NextByte(vm.mem[0])]))
  }

  function WithRegs(vm: Vm, regs: Regs): Vm { vm.(cpu := vm.cpu.(regs := regs)) }

  function NextByte(b: Byte): Byte { if b == 255 then 0 else b + 1 }

  /** The guest on 8192 bytes of memory, allowed to write, called with one byte. */
  ghost predicate RunsEcho(su: Setup, cfg: Config) {
    && SetupOk(su) && su.memsz == 8192 && su.argsz == 1 && su.boot.regs.others == 0
    && cfg.guest == Echo && cfg.useSnapshots && HypercallAllowed(cfg, HCALL_WRITE)
  }

  /** The loop before exit `j` of the guest. */
  ghost predicate Phase(l: Loop, j: nat) { l.status == Running && l.vm.cpu.regs.others == j && |l.vm.mem| == 8192 }

  lemma EchoBoots(su: Setup, cfg: Config, l: Loop)
    requires RunsEcho(su, cfg) && Phase(l, 0)
    ensures var l1 := LoopStep(cfg, l); Phase(l1, 1) && l1.trace == l.trace && l1.vm.mem == l.vm.mem
  {
  }

  lemma EchoSnaps(su: Setup, cfg: Config, l: Loop)
    requires RunsEcho(su, cfg) && Phase(l, 1)
    ensures var l1 := LoopStep(cfg, l); Phase(l1, 2) && l1.trace == l.trace && l1.vm.mem == l.vm.mem
    ensures TakesSnapshot(cfg, l) && cfg.guest(l.vm).1.cpu.regs.rdx == 4096
  {
  }

  lemma EchoWrites(su: Setup, cfg: Config, l: Loop)
    requires RunsEcho(su, cfg) && Phase(l, 2)
    ensures var l1, op := LoopStep(cfg, l), Write(1, Guest(0, 1), l.vm.mem[..1]);
            Phase(l1, 3) && l1.vm.mem == l.vm.mem && l1.trace == l.trace + [Event(op, cfg.host(l.trace, op))]
    ensures HostOpOf(Echo(l.vm).1) == Some(Write(1, Guest(0, 1), l.vm.mem[..1]))
  {
    assert l.vm.mem[0..1] == l.vm.mem[..1];
  }

  lemma EchoEnds(su: Setup, cfg: Config, l: Loop)
    requires RunsEcho(su, cfg) && Phase(l, 3)
    ensures var l1 := LoopStep(cfg, l);
            l1.status == Done && l1.trace == l.trace && l1.vm.mem == l.vm.mem[0 := NextByte(l.vm.mem[0])]
  {
  }

  /** The cold run up to exit `n`. */
  lemma {:induction false} EchoRun(su: Setup, cfg: Config, arg: seq<Byte>, n: nat)
    requires RunsEcho(su, cfg) && |arg| == 1 && n <= 3
    ensures var l := Cold(su, cfg, arg, n);
            Phase(l, n) && l.vm.mem[..1] == arg && (n <= 2 ==> l.trace == [])
  {
    if n > 0 {
      EchoRun(su, cfg, arg, n - 1);
      var l := Cold(su, cfg, arg, n - 1);
      if n == 1 {
        EchoBoots(su, cfg, l);
      } else if n == 2 {
        EchoSnaps(su, cfg, l);
      } else {
        EchoWrites(su, cfg, l);
      }
    }
  }

  /** It ends with its argument written and counted up. */
  lemma EchoResult(su: Setup, cfg: Config, arg: seq<Byte>)
    requires RunsEcho(su, cfg) && |arg| == 1
    ensures var l, op := Cold(su, cfg, arg, 4), Write(1, Guest(0, 1), arg);
            && l.status == Done && |l.vm.mem| == 8192 && l.vm.mem[0] == NextByte(arg[0])
            && l.trace == [Event(op, cfg.host([], op))]
  {
    EchoRun(su, cfg, arg, 2);
    EchoWrites(su, cfg, Cold(su, cfg, arg, 2));
    EchoRun(su, cfg, arg, 3);
    EchoEnds(su, cfg, Cold(su, cfg, arg, 3));
  }

  lemma EchoConfined(su: Setup, cfg: Config, l: Loop, j: nat)
    requires RunsEcho(su, cfg) && Phase(l, j) && 2 <= j <= 3
    ensures Confined(cfg, l, 4096)
  {
    if j == 2 { EchoWrites(su, cfg, l); }
  }

  lemma EchoBootAt(su: Setup, cfg: Config, arg: seq<Byte>, i: nat)
    requires RunsEcho(su, cfg) && |arg| == 1 && i <= 1
    ensures BootAt(su, cfg, arg, i)
  {
    EchoRun(su, cfg, arg, i);
    IgnoresItsArg(cfg, Cold(su, cfg, arg, i).vm);
  }

  lemma IgnoresItsArg(cfg: Config, vm: Vm)
    requires cfg.guest == Echo && vm.cpu.regs.others <= 1 && |vm.mem| == 8192
    ensures IgnoresArg(cfg, vm, 1)
  {
  }

  lemma EchoStaysConfined(su: Setup, cfg: Config, arg: seq<Byte>, n: nat)
    requires RunsEcho(su, cfg) && |arg| == 1 && n > 1
    ensures ConfinedAt(su, cfg, arg, n, 4096)
  {
    if n <= 3 {
      EchoRun(su, cfg, arg, n);
      EchoConfined(su, cfg, Cold(su, cfg, arg, n), n);
    } else {
      EchoResult(su, cfg, arg);
      DoneStays(cfg, ColdStart(su, arg), 4, n);
    }
  }

  /** The assumptions on the guest can be met, by a guest that does something with its argument. */
  lemma SomeSnapshotIsBoot(su: Setup, cfg: Config, arg0: seq<Byte>)
    requires RunsEcho(su, cfg) && |arg0| == 1
    ensures SnapshotIsBoot(su, cfg, arg0, 1, 4096)
  {
    EchoBootAt(su, cfg, arg0, 0);
    EchoBootAt(su, cfg, arg0, 1);
    EchoRun(su, cfg, arg0, 0);
    EchoRun(su, cfg, arg0, 1);
    EchoSnaps(su, cfg, Cold(su, cfg, arg0, 1));
    assert QuietAt(su, cfg, arg0, 0);
    forall arg: seq<Byte>, n: nat | |arg| == su.argsz && n > 1
      ensures ConfinedAt(su, cfg, arg, n, 4096)
    {
      EchoStaysConfined(su, cfg, arg, n);
    }
  }

  /** Such as this one, whose whitelist holds the bit of the write and no other. */
  lemma SomeRunsEcho(host: (seq<Event>, HostOp) -> Reply)
    ensures RunsEcho(Setup(8192, Cpu(Regs(0, 0, 0, 0, 0, 0, 0, 0), 0, 0), [], 0, 1),
                     Config(Echo, host, 0x400, _ => false, true))
  {
    assert Pow2(10) == 0x400;
    ShrOfPower(10);
  }

  lemma {:induction false} ShrOfPower(n: nat)
    ensures Shr(Pow2(n), n) == 1
  {
    if n > 0 { ShrOfPower(n - 1); }
  }
}
