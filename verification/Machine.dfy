/**
 A virtine as a value, and the operations on it (`Virtine.h`, `Virtine.cpp`): registers,
 a block of guest memory, and a reset state that restores both.
 */
module Machine {
  import opened Common

  type Word = x: nat | x < 0x1_0000_0000_0000_0000

  /** The registers the runtime looks at; `others` stands for the remaining ones. */
  datatype Regs = Regs(rax: Word, rcx: Word, rdx: Word, rsi: Word, rdi: Word, rsp: Word, rip: Word, others: nat)

  /** General-purpose, special and floating-point registers. */
  datatype Cpu = Cpu(regs: Regs, sregs: nat, fpu: nat)

  datatype Vm = Vm(cpu: Cpu, mem: seq<Byte>)

  /** `data` is to be copied to `address`. */
  datatype Region = Region(address: nat, data: seq<Byte>)

  datatype Reset = Reset(cpu: Cpu, regions: seq<Region>)

  // ---------------------------------------------------------------- addresses

  /** The host view of a guest address: null beyond the end of guest memory. */
  function Translate(memsz: nat, addr: Word): Option<nat> {
    if addr > memsz then None else Some(addr)
  }

  /** The sum is computed in 64 bits and may wrap. */
  predicate ValidateLength(memsz: nat, addr: Word, len: Word) {
    (addr + len) % MOD64 <= memsz
  }

  /**
   A buffer that passes the length check and translates lies inside guest memory exactly
   when address plus length does not wrap.
   */
  lemma ValidBufferIsInside(memsz: nat, addr: Word, len: Word)
    requires memsz < MOD64
    requires ValidateLength(memsz, addr, len) && Translate(memsz, addr).Some?
    ensures addr + len <= memsz <==> addr + len < MOD64
  {
  }

  /** And every buffer inside guest memory passes, at the address it has. */
  lemma InsideBufferPasses(memsz: nat, addr: Word, len: Word)
    requires memsz < MOD64
    ensures addr + len <= memsz ==> ValidateLength(memsz, addr, len) && Translate(memsz, addr) == Some(addr)
    ensures addr > memsz ==> Translate(memsz, addr) == None
    ensures memsz < addr + len < MOD64 ==> !ValidateLength(memsz, addr, len)
  {
  }

  /** The length check alone refuses no address: a length can be chosen that wraps. */
  lemma WrappingLengthPasses()
    ensures ValidateLength(0x80000, 100, 0xFFFF_FFFF_FFFF_FFF0)
    ensures Translate(0x80000, 100).Some?
    ensures 100 + 0xFFFF_FFFF_FFFF_FFF0 > 0x80000
  {
    assert (100 + 0xFFFF_FFFF_FFFF_FFF0) % MOD64 == 84;
  }

  // ---------------------------------------------------------------- resetting

  predicate Fits(r: Region, memsz: nat) { r.address + |r.data| <= memsz }

  predicate AllFit(rs: seq<Region>, memsz: nat) { forall r :: r in rs ==> Fits(r, memsz) }

  predicate Covers(r: Region, i: nat) { r.address <= i < r.address + |r.data| }

  function Overlay(mem: seq<Byte>, r: Region): (m: seq<Byte>)
    requires Fits(r, |mem|)
    ensures |m| == |mem|
    ensures forall i :: 0 <= i < |mem| ==> m[i] == if Covers(r, i) then r.data[i - r.address] else mem[i]
  {
    mem[..r.address] + r.data + mem[r.address + |r.data|..]
  }

  /** Regions are copied in order, later ones on top. */
  function Overlays(mem: seq<Byte>, rs: seq<Region>): (m: seq<Byte>)
    requires AllFit(rs, |mem|)
    ensures |m| == |mem|
  {
    if rs == [] then mem else Overlay(Overlays(mem, rs[..|rs| - 1]), rs[|rs| - 1])
  }

  function ResetVm(vm: Vm, rst: Reset): Vm
    requires AllFit(rst.regions, |vm.mem|)
  {
    Vm(rst.cpu, Overlays(vm.mem, rst.regions))
  }

  /** Registers and all covered memory are as `rst` says: resetting again changes nothing. */
  ghost predicate Agrees(vm: Vm, rst: Reset) {
    AllFit(rst.regions, |vm.mem|) && ResetVm(vm, rst) == vm
  }

  /** Memory that two overlays of the same regions disagree on was covered by no region. */
  lemma {:induction false} OverlaysSame(m1: seq<Byte>, m2: seq<Byte>, rs: seq<Region>, i: nat)
    requires |m1| == |m2| && AllFit(rs, |m1|) && i < |m1|
    requires m1[i] == m2[i] || exists r :: r in rs && Covers(r, i)
    ensures Overlays(m1, rs)[i] == Overlays(m2, rs)[i]
  {
    if rs != [] {
      var init, last := rs[..|rs| - 1], rs[|rs| - 1];
      assert rs == init + [last];
      if !Covers(last, i) {
        OverlaysSame(m1, m2, init, i);
      }
    }
  }

  lemma {:induction false} OverlaysUncovered(mem: seq<Byte>, rs: seq<Region>, i: nat)
    requires AllFit(rs, |mem|) && i < |mem| && forall r :: r in rs ==> !Covers(r, i)
    ensures Overlays(mem, rs)[i] == mem[i]
  {
    if rs != [] {
      OverlaysUncovered(mem, rs[..|rs| - 1], i);
    }
  }

  /** A byte is as the last region over it says. */
  lemma {:induction false} OverlaysTop(mem: seq<Byte>, rs: seq<Region>, k: nat, i: nat)
    requires AllFit(rs, |mem|) && k < |rs| && i < |mem| && Covers(rs[k], i)
    requires forall j :: k < j < |rs| ==> !Covers(rs[j], i)
    ensures Overlays(mem, rs)[i] == rs[k].data[i - rs[k].address]
  {
    var init, last := rs[..|rs| - 1], rs[|rs| - 1];
    assert rs == init + [last];
    if k < |rs| - 1 {
      OverlaysTop(mem, init, k, i);
    }
  }

  /** After a reset the virtine agrees with the reset state, whatever it did before. */
  lemma ResetAgrees(vm: Vm, rst: Reset)
    requires AllFit(rst.regions, |vm.mem|)
    ensures Agrees(ResetVm(vm, rst), rst)
  {
    var once := Overlays(vm.mem, rst.regions);
    var twice := Overlays(once, rst.regions);
    forall i | 0 <= i < |once|
      ensures twice[i] == once[i]
    {
      if exists r :: r in rst.regions && Covers(r, i) {
        OverlaysSame(once, vm.mem, rst.regions, i);
      } else {
        OverlaysUncovered(once, rst.regions, i);
      }
    }
    assert twice == once;
  }

  /** Two resets to the same state give machines that differ only where no region reaches. */
  lemma ResetErasesHistory(vm1: Vm, vm2: Vm, rst: Reset)
    requires |vm1.mem| == |vm2.mem| && AllFit(rst.regions, |vm1.mem|)
    ensures ResetVm(vm1, rst).cpu == ResetVm(vm2, rst).cpu
    ensures forall r, i: nat :: r in rst.regions && Covers(r, i) ==>
            ResetVm(vm1, rst).mem[i] == ResetVm(vm2, rst).mem[i]
  {
    forall r, i: nat | r in rst.regions && Covers(r, i)
      ensures ResetVm(vm1, rst).mem[i] == ResetVm(vm2, rst).mem[i]
    {
      OverlaysSame(vm1.mem, vm2.mem, rst.regions, i);
    }
  }

  /** The initial reset state of a cache: the boot registers and the binary at its start address. */
  function InitialReset(boot: Cpu, binary: seq<Byte>, start: nat): Reset {
    Reset(boot, [Region(start, binary)])
  }

  /** A snapshot: the current registers, and memory from address 0 up to `bound`. */
  function Snapshot(vm: Vm, bound: nat): Reset
    requires bound <= |vm.mem|
  {
    Reset(vm.cpu, [Region(0, vm.mem[..bound])])
  }

  function Zeros(n: nat): (z: seq<Byte>)
    ensures |z| == n
  {
    seq(n, _ => 0)
  }

  /** Fresh memory, as delivered by the kernel, then reset. */
  function AllocateVm(memsz: nat, boot: Cpu, rst: Reset): Vm
    requires AllFit(rst.regions, memsz)
  {
    ResetVm(Vm(boot, Zeros(memsz)), rst)
  }

  /** A newly booted virtine: the boot registers, the binary at its start address, and zeros elsewhere. */
  lemma BootedIs(memsz: nat, boot: Cpu, binary: seq<Byte>, start: nat)
    requires start + |binary| <= memsz
    ensures var vm := AllocateVm(memsz, boot, InitialReset(boot, binary, start));
            && vm.cpu == boot && |vm.mem| == memsz && vm.mem[start..start + |binary|] == binary
            && forall i :: 0 <= i < memsz && !(start <= i < start + |binary|) ==> vm.mem[i] == 0
  {
    var r, mem := Region(start, binary), Zeros(memsz);
    assert [r][..0] == [] && Overlays(mem, [r][..0]) == mem;
    var mem1 := Overlay(mem, r);
    assert mem1[start..start + |binary|] == binary;
  }
}
