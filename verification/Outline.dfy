/**
 The outlining pass (`pass.cpp`, `VirtineCompiler.cpp`): each marked function gets a body
 that packs its arguments into a structure, runs a virtine on it and unpacks the results,
 and a main inside the virtine that calls the original function on that structure.
 */
module Outline {
  import opened Common
  import DeadCode
  import opened Lang
  import opened Renaming

  // ---------------------------------------------------------------- what the generated code looks like

  /** Fill the argument structure with the first `i` arguments: scalars as they are, pointees for pointers. */
  function MarshalCode(params: seq<Kind>, i: nat): seq<Instr>
    requires i <= |params|
  {
    if i == 0 then [Alloca(|params| + 1)]
    else
      var code := MarshalCode(params, i - 1);
      var p := |code|;
      if params[i - 1].Pointer?
      then code + [Gep(RegOp(0), i - 1), Load(ArgOp(i - 1)), Store(RegOp(p + 1), RegOp(p))]
      else code + [Gep(RegOp(0), i - 1), Store(ArgOp(i - 1), RegOp(p))]
  }

  /** Copy the fields of the pointers among the first `i` parameters back; `start` is the first register used. */
  function UnmarshalCode(params: seq<Kind>, i: nat, start: nat): seq<Instr>
    requires i <= |params|
  {
    if i == 0 then []
    else
      var code := UnmarshalCode(params, i - 1, start);
      var p := start + |code|;
      if params[i - 1].Pointer?
      then code + [Gep(RegOp(0), i - 1), Load(RegOp(p)), Store(RegOp(p + 1), ArgOp(i - 1))]
      else code
  }

  function WrapperCode(params: seq<Kind>): seq<Instr> {
    var n := |params|;
    var run := MarshalCode(params, n) + [RunVirtine(RegOp(0), n + 1)];
    var unpacked := run + UnmarshalCode(params, n, |run|);
    unpacked + [Gep(RegOp(0), n), Load(RegOp(|unpacked|)), Ret(RegOp(|unpacked| + 1))]
  }

  /** In the virtine: the addresses of pointer fields, the contents of the others. */
  function UnpackCode(params: seq<Kind>, i: nat): seq<Instr>
    requires i <= |params|
  {
    if i == 0 then []
    else
      var code := UnpackCode(params, i - 1);
      if params[i - 1].Pointer? then code + [Gep(ArgOp(0), i - 1)]
      else code + [Gep(ArgOp(0), i - 1), Load(RegOp(|code|))]
  }

  function UnpackedArgs(params: seq<Kind>, i: nat): seq<Operand>
    requires i <= |params|
  {
    if i == 0 then []
    else UnpackedArgs(params, i - 1) + [RegOp(|UnpackCode(params, i)| - 1)]
  }

  function MainCode(f: Name, params: seq<Kind>): seq<Instr> {
    var n := |params|;
    var code := UnpackCode(params, n);
    code + [CallFn(f, UnpackedArgs(params, n)), Gep(ArgOp(0), n), Store(RegOp(|code|), RegOp(|code| + 1)), RetVoid]
  }

  function Restricted(funcs: map<Name, Fn>, kept: set<Name>): map<Name, Fn> {
    map g | g in funcs && g in kept :: funcs[g]
  }

  /** `kept` is what dead-code removal leaves of the copied module. */
  function StubFor(m: Module, f: Name, kept: set<Name>): Stub
    requires f in m.funcs
  {
    Stub(WrapperCode(m.funcs[f].params), Image(MainCode(f, m.funcs[f].params), Restricted(m.funcs, kept)))
  }

  /** The functions a statement calls. */
  function Calls(s: Stmt): set<Name> {
    match s
    case Seq(s1, s2) => Calls(s1) + Calls(s2)
    case If(_, s1, s2) => Calls(s1) + Calls(s2)
    case While(_, body) => Calls(body)
    case Call(_, f, _) => {f}
    case _ => {}
  }

  /** No kept function calls one that was removed. */
  ghost predicate NoDanglingCall(funcs: map<Name, Fn>, kept: set<Name>) {
    forall g :: g in kept && g in funcs ==> forall h :: h in Calls(funcs[g].body) && h in funcs ==> h in kept
  }

  /** What is kept for each virtine: at least the function itself, and nothing dangling. */
  ghost predicate KeptOk(m: Module, kept: map<Name, set<Name>>) {
    && m.virtines <= m.funcs.Keys
    && forall f :: f in m.virtines ==> f in kept && f in kept[f] && NoDanglingCall(m.funcs, kept[f])
  }

  /** The module after the pass. */
  ghost function Outlined(m: Module, kept: map<Name, set<Name>>): Module
    requires m.virtines <= m.funcs.Keys && m.virtines <= kept.Keys
  {
    Module(m.funcs - m.virtines, {}, map f | f in m.virtines :: StubFor(m, f, kept[f]))
  }

  // ---------------------------------------------------------------- what dead-code removal keeps

  /** The copied module's functions, with the main added for `f`. */
  function ItemsOf(funcs: map<Name, Fn>): set<DeadCode.Item> {
    {DeadCode.Main} + set g | g in funcs :: DeadCode.Function(g)
  }

  /** Main uses `f`, and a function uses those it calls. */
  function UsesOf(funcs: map<Name, Fn>, f: Name): DeadCode.Uses {
    {(DeadCode.Main, DeadCode.Function(f))} +
    set g, h | g in funcs && h in Calls(funcs[g].body) && h in funcs :: (DeadCode.Function(g), DeadCode.Function(h))
  }

  /** `kept` are the functions that dead-code removal leaves in the module copied for `f`. */
  ghost predicate IsPruned(funcs: map<Name, Fn>, f: Name, kept: set<Name>) {
    && kept <= funcs.Keys
    && DeadCode.IsLargestSupported(UsesOf(funcs, f), DeadCode.Main, ItemsOf(funcs),
                                   {DeadCode.Main} + set g | g in kept :: DeadCode.Function(g))
  }

  ghost predicate AllPruned(m: Module, kept: map<Name, set<Name>>) {
    m.virtines <= m.funcs.Keys && forall f :: f in m.virtines ==> f in kept && IsPruned(m.funcs, f, kept[f])
  }

  ghost predicate CalledBy(funcs: map<Name, Fn>, kept: set<Name>, g: Name) {
    exists h :: h in kept && h in funcs && g in Calls(funcs[h].body)
  }

  /** The function itself stays, with every function all those it calls, and no other that nothing left calls. */
  lemma PrunedKeeps(funcs: map<Name, Fn>, f: Name, kept: set<Name>)
    requires f in funcs && IsPruned(funcs, f, kept)
    ensures f in kept && NoDanglingCall(funcs, kept)
    ensures forall g :: g in kept && g != f ==> CalledBy(funcs, kept, g)
  {
    var uses, all := UsesOf(funcs, f), ItemsOf(funcs);
    var items := {DeadCode.Main} + set g | g in kept :: DeadCode.Function(g);
    DeadCode.NoDanglingUse(uses, DeadCode.Main, all, items, DeadCode.Main, DeadCode.Function(f));
    forall g, h | g in kept && g in funcs && h in Calls(funcs[g].body) && h in funcs
      ensures h in kept
    {
      DeadCode.NoDanglingUse(uses, DeadCode.Main, all, items, DeadCode.Function(g), DeadCode.Function(h));
    }
    forall g | g in kept && g != f
      ensures CalledBy(funcs, kept, g)
    {
      assert DeadCode.HasUser(uses, items, DeadCode.Function(g));
      var x :| x in items && (x, DeadCode.Function(g)) in uses;
      assert x.name in kept;
    }
  }

  lemma AllPrunedKeeps(m: Module, kept: map<Name, set<Name>>)
    requires AllPruned(m, kept)
    ensures KeptOk(m, kept)
  {
    forall f | f in m.virtines
      ensures f in kept[f] && NoDanglingCall(m.funcs, kept[f])
    {
      PrunedKeeps(m.funcs, f, kept[f]);
    }
  }

  // ---------------------------------------------------------------- generating it

  /** One field per parameter, the pointee instead of a pointer when `surrogate`, and one for the result. */
  method CreateArgumentStruct(params: seq<Kind>, surrogate: bool) returns (fields: seq<Kind>)
    ensures |fields| == |params| + 1
    ensures forall i :: 0 <= i < |params| ==> fields[i] == if surrogate then Scalar else params[i]
    ensures fields[|params|] == Scalar
  {
    fields := [];
    for i := 0 to |params|
      invariant |fields| == i
      invariant forall j :: 0 <= j < i ==> fields[j] == if surrogate then Scalar else params[j]
    {
      var t := params[i];
      if surrogate && t.Pointer? {
        t := Scalar;
      }
      fields := fields + [t];
    }
    fields := fields + [Scalar];
  }

  /** `compileFunction`: the new body of a marked function. */
  method CompileFunction(params: seq<Kind>) returns (code: seq<Instr>)
    ensures code == WrapperCode(params)
  {
    var fields := CreateArgumentStruct(params, true);
    code := [Alloca(|fields|)];
    for i := 0 to |params|
      invariant code == MarshalCode(params, i)
    {
      var ptr := |code|;
      code := code + [Gep(RegOp(0), i)];
      if params[i].Pointer? {
        code := code + [Load(ArgOp(i))] + [Store(RegOp(ptr + 1), RegOp(ptr))];
      } else {
        code := code + [Store(ArgOp(i), RegOp(ptr))];
      }
    }
    code := code + [RunVirtine(RegOp(0), |fields|)];
    ghost var run := code;
    for i := 0 to |params|
      invariant code == run + UnmarshalCode(params, i, |run|)
    {
      if params[i].Pointer? {
        var ptr := |code|;
        code := code + [Gep(RegOp(0), i)] + [Load(RegOp(ptr))] + [Store(RegOp(ptr + 1), ArgOp(i))];
      }
    }
    var ptr := |code|;
    code := code + [Gep(RegOp(0), |params|)] + [Load(RegOp(ptr))] + [Ret(RegOp(ptr + 1))];
  }

  /** `create_main`: the entry point inside the virtine. */
  method CreateMain(f: Name, params: seq<Kind>) returns (code: seq<Instr>)
    ensures code == MainCode(f, params)
  {
    code := [];
    var argv := [];
    for i := 0 to |params|
      invariant code == UnpackCode(params, i) && argv == UnpackedArgs(params, i)
    {
      var ptr := |code|;
      code := code + [Gep(ArgOp(0), i)];
      if params[i].Pointer? {
        argv := argv + [RegOp(ptr)];
      } else {
        code := code + [Load(RegOp(ptr))];
        argv := argv + [RegOp(ptr + 1)];
      }
    }
    var result := |code|;
    code := code + [CallFn(f, argv)];
    code := code + [Gep(ArgOp(0), |params|)] + [Store(RegOp(result), RegOp(result + 1))] + [RetVoid];
  }

  /** The constructor of `VirtineCompiler`: dead code goes from the module copied for `f`. */
  method PruneModule(funcs: map<Name, Fn>, f: Name) returns (kept: set<Name>)
    ensures IsPruned(funcs, f, kept)
  {
    var copy := new DeadCode.Module(ItemsOf(funcs), {}, UsesOf(funcs, f));
    copy.RemoveDeadCode(DeadCode.Main);
    kept := set g | g in funcs.Keys && DeadCode.Function(g) in copy.functions;
    assert copy.Items() == {DeadCode.Main} + set g | g in kept :: DeadCode.Function(g);
  }

  /** The image has the kept functions of the module, as they were, and no others. */
  ghost predicate Holds(image: Image, m: Module, kept: set<Name>) {
    image.funcs.Keys == kept && forall g :: g in kept ==> g in m.funcs && image.funcs[g] == m.funcs[g]
  }

  /** So do the images of the module after the pass. */
  lemma ImagesHold(m: Module, kept: map<Name, set<Name>>, f: Name)
    requires AllPruned(m, kept) && m.virtines <= kept.Keys && f in m.virtines
    ensures Holds(Outlined(m, kept).stubs[f].image, m, kept[f])
  {
    assert IsPruned(m.funcs, f, kept[f]);
  }

  method CompileVirtines(m: Module) returns (images: map<Name, Image>, kept: map<Name, set<Name>>)
    requires m.virtines <= m.funcs.Keys
    ensures AllPruned(m, kept) && kept.Keys == m.virtines
    ensures images.Keys == m.virtines && forall f :: f in images ==> images[f] == StubFor(m, f, kept[f]).image
  {
    images, kept := map[], map[];
    var todo := m.virtines;
    while todo != {}
      invariant todo <= m.virtines && images.Keys == kept.Keys == m.virtines - todo
      invariant forall f :: f in images ==> images[f] == StubFor(m, f, kept[f]).image && IsPruned(m.funcs, f, kept[f])
    {
      var f :| f in todo;
      todo := todo - {f};
      var main := CreateMain(f, m.funcs[f].params);
      var left := PruneModule(m.funcs, f);
      kept := kept[f := left];
      images := images[f := Image(main, Restricted(m.funcs, left))];
    }
  }

  /**
   `runOnModule`: all virtines are compiled before any body is replaced, in whatever order.
   The new module does what the old one did, whatever is called on it.
   */
  method RunOnModule(m: Module) returns (m': Module, ghost kept: map<Name, set<Name>>)
    requires m.stubs == map[] && m.virtines <= m.funcs.Keys
    ensures AllPruned(m, kept) && kept.Keys == m.virtines && m' == Outlined(m, kept)
    ensures m'.stubs.Keys == m.virtines && m'.virtines == {} && m'.funcs == m.funcs - m.virtines
    ensures forall fuel, f, vals, st :: ValidValues(vals, |st|) ==> SameCall(m, m', fuel, f, vals, st)
  {
    var images;
    images, kept := CompileVirtines(m);
    var stubs := ReplaceBodies(m, kept, images);
    m' := Module(m.funcs - m.virtines, {}, stubs);
    assert stubs == Outlined(m, kept).stubs;
    AllPrunedKeeps(m, kept);
    forall fuel, f, vals, st | ValidValues(vals, |st|)
      ensures SameCall(m, m', fuel, f, vals, st)
    {
      OutlinedInvoke(fuel, m, kept, f, vals, st);
    }
  }

  /** A call that does not go wrong in `m` ends alike in `m'`. */
  ghost predicate SameCall(m: Module, m': Module, fuel: nat, f: Name, vals: seq<Value>, st: Store) {
    Invoke(2, fuel, m, f, vals, st).Stuck? || Invoke(2, fuel, m', f, vals, st) == Invoke(2, fuel, m, f, vals, st)
  }

  method ReplaceBodies(m: Module, ghost kept: map<Name, set<Name>>, images: map<Name, Image>)
    returns (stubs: map<Name, Stub>)
    requires m.virtines <= m.funcs.Keys && images.Keys == m.virtines && m.virtines <= kept.Keys
    requires forall f :: f in images ==> images[f] == StubFor(m, f, kept[f]).image
    ensures stubs.Keys == m.virtines && forall f :: f in stubs ==> stubs[f] == StubFor(m, f, kept[f])
  {
    stubs := map[];
    var todo := m.virtines;
    while todo != {}
      invariant todo <= m.virtines && stubs.Keys == m.virtines - todo
      invariant forall f :: f in stubs ==> stubs[f] == StubFor(m, f, kept[f])
    {
      var f :| f in todo;
      todo := todo - {f};
      var code := CompileFunction(m.funcs[f].params);
      stubs := stubs[f := Stub(code, images[f])];
    }
  }

  // ---------------------------------------------------------------- running straight-line code

  predicate IsSimple(ins: Instr) { ins.Alloca? || ins.Gep? || ins.Load? || ins.Store? }

  /** Registers and memory after a stretch of code that neither calls nor returns. */
  ghost function RunSimple(code: seq<Instr>, args: seq<Value>, regs: seq<Value>, st: Store)
    : Option<(seq<Value>, Store)>
  {
    if code == [] then Some((regs, st))
    else match SimpleStep(code[0], args, regs, st)
         case Some((v, st1)) => RunSimple(code[1..], args, regs + [v], st1)
         case None => None
  }

  lemma {:induction false} RunAppend(a: seq<Instr>, b: seq<Instr>, args: seq<Value>, regs: seq<Value>, st: Store,
                                     regs1: seq<Value>, st1: Store)
    requires RunSimple(a, args, regs, st) == Some((regs1, st1))
    ensures RunSimple(a + b, args, regs, st) == RunSimple(b, args, regs1, st1)
  {
    if a == [] {
      assert a + b == b;
    } else {
      var r := SimpleStep(a[0], args, regs, st).value;
      assert (a + b)[1..] == a[1..] + b;
      RunAppend(a[1..], b, args, regs + [r.0], r.1, regs1, st1);
    }
  }

  lemma {:induction false} ExecPrefix(level: nat, fuel: nat, image: Image, a: seq<Instr>, b: seq<Instr>,
                                      args: seq<Value>, regs: seq<Value>, st: Store, regs1: seq<Value>, st1: Store)
    requires level > 0 && (forall i :: 0 <= i < |a| ==> IsSimple(a[i]))
             && RunSimple(a, args, regs, st) == Some((regs1, st1))
    ensures ExecCode(level, fuel, image, a + b, args, regs, st) == ExecCode(level, fuel, image, b, args, regs1, st1)
  {
    if a == [] {
      assert a + b == b;
    } else {
      var r := SimpleStep(a[0], args, regs, st).value;
      assert (a + b)[1..] == a[1..] + b;
      ExecPrefix(level, fuel, image, a[1..], b, args, regs + [r.0], r.1, regs1, st1);
    }
  }

  // ---------------------------------------------------------------- packing

  ghost predicate ValidValues(vals: seq<Value>, top: nat) {
    forall i :: 0 <= i < |vals| && vals[i].Ptr? ==> vals[i].loc < top
  }

  /** What goes into the structure for an argument. */
  ghost function FieldOf(v: Value, st: Store): int
    requires v.Ptr? ==> v.loc < |st|
  {
    if v.Ptr? then st[v.loc] else v.n
  }

  /** The structure with its first `i` fields filled in. */
  ghost function Packed(vals: seq<Value>, st: Store, i: nat): Store
    requires ValidValues(vals, |st|) && i <= |vals|
  {
    seq(|vals| + 1, k requires 0 <= k <= |vals| => if k < i then FieldOf(vals[k], st) else 0)
  }

  lemma {:induction false} MarshalIsSimple(params: seq<Kind>, i: nat)
    requires i <= |params|
    ensures forall k :: 0 <= k < |MarshalCode(params, i)| ==> IsSimple(MarshalCode(params, i)[k])
  {
    if i > 0 {
      MarshalIsSimple(params, i - 1);
    }
  }

  lemma {:induction false} UnmarshalIsSimple(params: seq<Kind>, i: nat, start: nat)
    requires i <= |params|
    ensures forall k :: 0 <= k < |UnmarshalCode(params, i, start)| ==> IsSimple(UnmarshalCode(params, i, start)[k])
  {
    if i > 0 {
      UnmarshalIsSimple(params, i - 1, start);
    }
  }

  lemma {:induction false} MarshalRuns(params: seq<Kind>, vals: seq<Value>, st: Store, i: nat)
    returns (regs: seq<Value>)
    requires Matches(params, vals) && ValidValues(vals, |st|) && i <= |params|
    ensures RunSimple(MarshalCode(params, i), vals, [], st) == Some((regs, st + Packed(vals, st, i)))
    ensures |regs| == |MarshalCode(params, i)| && |regs| > 0 && regs[0] == Ptr(|st|)
  {
    if i == 0 {
      regs := [Ptr(|st|)];
      assert Packed(vals, st, 0) == Zeros(|params| + 1);
      assert MarshalCode(params, 0)[1..] == [];
      assert [] + [Ptr(|st|)] == regs;
    } else {
      var before := MarshalRuns(params, vals, st, i - 1);
      var code := MarshalCode(params, i - 1);
      var cells := st + Packed(vals, st, i - 1);
      if params[i - 1].Pointer? {
        regs := PackPointer(vals, st, i, before);
        RunAppend(code, [Gep(RegOp(0), i - 1), Load(ArgOp(i - 1)), Store(RegOp(|code| + 1), RegOp(|code|))], vals,
            [], st, before, cells);
      } else {
        regs := PackScalar(vals, st, i, before);
        RunAppend(code, [Gep(RegOp(0), i - 1), Store(ArgOp(i - 1), RegOp(|code|))], vals, [], st, before, cells);
      }
    }
  }

  lemma PackOne(vals: seq<Value>, st: Store, i: nat)
    requires ValidValues(vals, |st|) && 0 < i <= |vals|
    ensures (st + Packed(vals, st, i - 1))[|st| + i - 1 := FieldOf(vals[i - 1], st)] == st + Packed(vals, st, i)
  {
  }

  lemma PackPointer(vals: seq<Value>, st: Store, i: nat, before: seq<Value>) returns (regs: seq<Value>)
    requires ValidValues(vals, |st|) && 0 < i <= |vals| && vals[i - 1].Ptr?
    requires |before| > 0 && before[0] == Ptr(|st|)
    ensures RunSimple([Gep(RegOp(0), i - 1), Load(ArgOp(i - 1)), Store(RegOp(|before| + 1), RegOp(|before|))], vals,
            before, st + Packed(vals, st, i - 1))
            == Some((regs, st + Packed(vals, st, i)))
    ensures |regs| == |before| + 3 && regs[0] == before[0]
  {
    var code := [Gep(RegOp(0), i - 1), Load(ArgOp(i - 1)), Store(RegOp(|before| + 1), RegOp(|before|))];
    var cells := st + Packed(vals, st, i - 1);
    var r1 := before + [Ptr(|st| + i - 1)];
    var r2 := r1 + [Int(st[vals[i - 1].loc])];
    regs := r2 + [Int(0)];
    PackOne(vals, st, i);
    RunThree(code, vals, before, cells, r1, cells, r2, cells, regs, st + Packed(vals, st, i));
  }

  lemma PackScalar(vals: seq<Value>, st: Store, i: nat, before: seq<Value>) returns (regs: seq<Value>)
    requires ValidValues(vals, |st|) && 0 < i <= |vals| && vals[i - 1].Int?
    requires |before| > 0 && before[0] == Ptr(|st|)
    ensures RunSimple([Gep(RegOp(0), i - 1), Store(ArgOp(i - 1), RegOp(|before|))], vals, before,
                      st + Packed(vals, st, i - 1))
            == Some((regs, st + Packed(vals, st, i)))
    ensures |regs| == |before| + 2 && regs[0] == before[0]
  {
    var code := [Gep(RegOp(0), i - 1), Store(ArgOp(i - 1), RegOp(|before|))];
    var cells := st + Packed(vals, st, i - 1);
    var r1 := before + [Ptr(|st| + i - 1)];
    regs := r1 + [Int(0)];
    PackOne(vals, st, i);
    RunTwo(code, vals, before, cells, r1, cells, regs, st + Packed(vals, st, i));
  }

  lemma RunTwo(code: seq<Instr>, args: seq<Value>, r0: seq<Value>, s0: Store, r1: seq<Value>, s1: Store,
               r2: seq<Value>, s2: Store)
    requires |code| == 2 && |r1| == |r0| + 1 && |r2| == |r1| + 1
    requires r1[..|r0|] == r0 && SimpleStep(code[0], args, r0, s0) == Some((r1[|r0|], s1))
    requires r2[..|r1|] == r1 && SimpleStep(code[1], args, r1, s1) == Some((r2[|r1|], s2))
    ensures RunSimple(code, args, r0, s0) == Some((r2, s2))
  {
    assert r0 + [r1[|r0|]] == r1 && r1 + [r2[|r1|]] == r2;
    assert code[1..][0] == code[1] && code[1..][1..] == [];
    assert RunSimple([], args, r2, s2) == Some((r2, s2));
    assert RunSimple(code[1..], args, r1, s1) == Some((r2, s2));
  }

  lemma RunThree(code: seq<Instr>, args: seq<Value>, r0: seq<Value>, s0: Store, r1: seq<Value>, s1: Store,
                 r2: seq<Value>, s2: Store, r3: seq<Value>, s3: Store)
    requires |code| == 3 && |r1| == |r0| + 1 && |r2| == |r1| + 1 && |r3| == |r2| + 1
    requires r1[..|r0|] == r0 && SimpleStep(code[0], args, r0, s0) == Some((r1[|r0|], s1))
    requires r2[..|r1|] == r1 && SimpleStep(code[1], args, r1, s1) == Some((r2[|r1|], s2))
    requires r3[..|r2|] == r2 && SimpleStep(code[2], args, r2, s2) == Some((r3[|r2|], s3))
    ensures RunSimple(code, args, r0, s0) == Some((r3, s3))
  {
    assert r0 + [r1[|r0|]] == r1;
    RunTwo(code[1..], args, r1, s1, r2, s2, r3, s3);
  }

  // ---------------------------------------------------------------- unpacking

  /** Memory with the pointees of the first `i` arguments taken from the fields. */
  ghost function WrittenBack(st: Store, vals: seq<Value>, fields: Store, i: nat): (r: Store)
    requires ValidValues(vals, |st|) && i <= |vals| <= |fields|
    ensures |r| == |st|
  {
    if i == 0 then st
    else if vals[i - 1].Ptr? then WrittenBack(st, vals, fields, i - 1)[vals[i - 1].loc := fields[i - 1]]
    else WrittenBack(st, vals, fields, i - 1)
  }

  lemma {:induction false} UnmarshalRuns(params: seq<Kind>, vals: seq<Value>, st: Store, fields: Store, i: nat,
                                         regs0: seq<Value>) returns (regs: seq<Value>)
    requires Matches(params, vals) && ValidValues(vals, |st|) && i <= |params| && |fields| == |vals| + 1
    requires |regs0| > 0 && regs0[0] == Ptr(|st|)
    ensures RunSimple(UnmarshalCode(params, i, |regs0|), vals, regs0, st + fields) ==
            Some((regs, WrittenBack(st, vals, fields, i) + fields))
    ensures |regs| == |regs0| + |UnmarshalCode(params, i, |regs0|)| && regs[0] == Ptr(|st|)
  {
    if i == 0 {
      regs := regs0;
    } else {
      var before := UnmarshalRuns(params, vals, st, fields, i - 1, regs0);
      var code := UnmarshalCode(params, i - 1, |regs0|);
      var cells := WrittenBack(st, vals, fields, i - 1) + fields;
      if params[i - 1].Pointer? {
        regs := UnpackPointer(vals, st, fields, i, before);
        RunAppend(code, [Gep(RegOp(0), i - 1), Load(RegOp(|before|)), Store(RegOp(|before| + 1), ArgOp(i - 1))],
            vals, regs0, st + fields, before, cells);
      } else {
        regs := before;
      }
    }
  }

  lemma UnpackPointer(vals: seq<Value>, st: Store, fields: Store, i: nat, before: seq<Value>) returns (regs: seq<Value>)
    requires ValidValues(vals, |st|) && 0 < i <= |vals| && vals[i - 1].Ptr? && |fields| == |vals| + 1
    requires |before| > 0 && before[0] == Ptr(|st|)
    ensures RunSimple([Gep(RegOp(0), i - 1), Load(RegOp(|before|)), Store(RegOp(|before| + 1), ArgOp(i - 1))],
                      vals, before,
                      WrittenBack(st, vals, fields, i - 1) + fields)
            == Some((regs, WrittenBack(st, vals, fields, i) + fields))
    ensures |regs| == |before| + 3 && regs[0] == before[0]
  {
    var code := [Gep(RegOp(0), i - 1), Load(RegOp(|before|)), Store(RegOp(|before| + 1), ArgOp(i - 1))];
    var cells := WrittenBack(st, vals, fields, i - 1) + fields;
    var r1 := before + [Ptr(|st| + i - 1)];
    var r2 := r1 + [Int(fields[i - 1])];
    regs := r2 + [Int(0)];
    assert cells[|st| + i - 1] == fields[i - 1];
    assert cells[vals[i - 1].loc := fields[i - 1]] == WrittenBack(st, vals, fields, i) + fields;
    RunThree(code, vals, before, cells, r1, cells, r2, cells, regs, WrittenBack(st, vals, fields, i) + fields);
  }

  /** With distinct pointers, each pointee ends up with its own field, and nothing else changes. */
  lemma {:induction false} WrittenBackAt(st: Store, vals: seq<Value>, fields: Store, i: nat, l: Loc)
    requires ValidValues(vals, |st|) && DistinctPointers(vals) && i <= |vals| <= |fields| && l < |st|
    ensures forall k :: 0 <= k < i && vals[k] == Ptr(l) ==> WrittenBack(st, vals, fields, i)[l] == fields[k]
    ensures (forall k :: 0 <= k < i ==> vals[k] != Ptr(l)) ==> WrittenBack(st, vals, fields, i)[l] == st[l]
  {
    if i > 0 {
      WrittenBackAt(st, vals, fields, i - 1, l);
    }
  }

  // ---------------------------------------------------------------- inside the virtine

  /** The arguments of the call in main: addresses of fields for pointers, field contents for scalars. */
  ghost function GuestArgs(params: seq<Kind>, g: Store, i: nat): (vs: seq<Value>)
    requires i <= |params| <= |g|
    ensures |vs| == i
    ensures forall k :: 0 <= k < i ==> vs[k] == if params[k].Pointer? then Ptr(k) else Int(g[k])
  {
    if i == 0 then [] else GuestArgs(params, g, i - 1) + [if params[i - 1].Pointer? then Ptr(i - 1) else Int(g[i - 1])]
  }

  lemma {:induction false} FetchMore(os: seq<Operand>, args: seq<Value>, regs: seq<Value>, more: seq<Value>)
    requires FetchAll(os, args, regs).Some?
    ensures FetchAll(os, args, regs + more) == FetchAll(os, args, regs)
  {
    if os != [] {
      FetchMore(os[..|os| - 1], args, regs, more);
    }
  }

  lemma {:induction false} UnpackIsSimple(params: seq<Kind>, i: nat)
    requires i <= |params|
    ensures forall k :: 0 <= k < |UnpackCode(params, i)| ==> IsSimple(UnpackCode(params, i)[k])
  {
    if i > 0 {
      UnpackIsSimple(params, i - 1);
    }
  }

  lemma {:induction false} UnpackRuns(params: seq<Kind>, g: Store, i: nat) returns (regs: seq<Value>)
    requires i <= |params| <= |g|
    ensures RunSimple(UnpackCode(params, i), [Ptr(0)], [], g) == Some((regs, g))
    ensures |regs| == |UnpackCode(params, i)|
    ensures FetchAll(UnpackedArgs(params, i), [Ptr(0)], regs) == Some(GuestArgs(params, g, i))
  {
    if i == 0 {
      regs := [];
    } else {
      var before := UnpackRuns(params, g, i - 1);
      var code := UnpackCode(params, i - 1);
      var more := UnpackOne(params, g, i, before);
      regs := before + more;
      assert UnpackCode(params, i) == code + UnpackCode(params, i)[|code|..];
      RunAppend(code, UnpackCode(params, i)[|code|..], [Ptr(0)], [], g, before, g);
      FetchNext(params, i, [Ptr(0)], before, more, GuestArgs(params, g, i - 1));
    }
  }

  lemma FetchNext(params: seq<Kind>, i: nat, args: seq<Value>, before: seq<Value>, more: seq<Value>, vs: seq<Value>)
    requires 0 < i <= |params| && |before| + |more| == |UnpackCode(params, i)| && |more| > 0
    requires FetchAll(UnpackedArgs(params, i - 1), args, before) == Some(vs)
    ensures FetchAll(UnpackedArgs(params, i), args, before + more) == Some(vs + [more[|more| - 1]])
  {
    var os, regs := UnpackedArgs(params, i - 1), before + more;
    FetchMore(os, args, before, more);
    assert Fetch(RegOp(|regs| - 1), args, regs) == Some(more[|more| - 1]);
    FetchAppend(os, RegOp(|regs| - 1), args, regs, vs, more[|more| - 1]);
  }

  lemma FetchAppend(os: seq<Operand>, o: Operand, args: seq<Value>, regs: seq<Value>, vs: seq<Value>, v: Value)
    requires FetchAll(os, args, regs) == Some(vs) && Fetch(o, args, regs) == Some(v)
    ensures FetchAll(os + [o], args, regs) == Some(vs + [v])
  {
    assert (os + [o])[..|os|] == os;
  }

  lemma UnpackOne(params: seq<Kind>, g: Store, i: nat, before: seq<Value>) returns (more: seq<Value>)
    requires 0 < i <= |params| <= |g| && |before| == |UnpackCode(params, i - 1)|
    ensures var code := UnpackCode(params, i)[|before|..];
            && RunSimple(code, [Ptr(0)], before, g) == Some((before + more, g)) && |more| == |code| > 0
            && more[|more| - 1] == if params[i - 1].Pointer? then Ptr(i - 1) else Int(g[i - 1])
  {
    var code := UnpackCode(params, i)[|before|..];
    if params[i - 1].Pointer? {
      more := [Ptr(i - 1)];
      assert code == [Gep(ArgOp(0), i - 1)];
      assert code[1..] == [];
      assert RunSimple([], [Ptr(0)], before + more, g) == Some((before + more, g));
    } else {
      more := [Ptr(i - 1), Int(g[i - 1])];
      assert code == [Gep(ArgOp(0), i - 1), Load(RegOp(|before|))];
      var r1 := before + [Ptr(i - 1)];
      RunTwo(code, [Ptr(0)], before, g, r1, g, before + more, g);
    }
  }

  /** Main: the call on the structure, and the result stored in its last field. */
  lemma MainRuns(fuel: nat, image: Image, f: Name, params: seq<Kind>, g: Store)
    requires |g| == |params| + 1 && image.main == MainCode(f, params)
    requires var o := Invoke(0, fuel, GuestModule(image), f, GuestArgs(params, g, |params|), g); o.Ok? ==> |o.st| == |g|
    ensures ExecCode(1, fuel, image, image.main, [Ptr(0)], [], g) ==
            match Invoke(0, fuel, GuestModule(image), f, GuestArgs(params, g, |params|), g)
            case Ok(n, g1) => Ok(0, g1[|params| := n])
            case o => o
  {
    var regs := MainPrefix(fuel, image, f, params, g);
    MainCall(fuel, image, f, UnpackedArgs(params, |params|), GuestArgs(params, g, |params|), |params|, regs, g,
        MainCode(f, params)[|regs|..]);
  }

  lemma MainPrefix(fuel: nat, image: Image, f: Name, params: seq<Kind>, g: Store) returns (regs: seq<Value>)
    requires |g| == |params| + 1 && image.main == MainCode(f, params)
    ensures |regs| <= |image.main|
    ensures ExecCode(1, fuel, image, image.main, [Ptr(0)], [], g) ==
            ExecCode(1, fuel, image, image.main[|regs|..], [Ptr(0)], regs, g)
    ensures FetchAll(UnpackedArgs(params, |params|), [Ptr(0)], regs) == Some(GuestArgs(params, g, |params|))
    ensures var n := |params|;
            MainCode(f, params)[|regs|..] == [CallFn(f, UnpackedArgs(params, n)), Gep(ArgOp(0), n),
                Store(RegOp(|regs|), RegOp(|regs| + 1)), RetVoid]
  {
    var code := UnpackCode(params, |params|);
    regs := UnpackRuns(params, g, |params|);
    UnpackIsSimple(params, |params|);
    var rest := image.main[|regs|..];
    assert image.main == code + rest;
    ExecPrefix(1, fuel, image, code, rest, [Ptr(0)], [], g, regs, g);
  }

  lemma MainCall(fuel: nat, image: Image, f: Name, os: seq<Operand>, vals: seq<Value>, n: nat, regs: seq<Value>,
                 g: Store, code: seq<Instr>)
    requires FetchAll(os, [Ptr(0)], regs) == Some(vals) && n < |g|
    requires code == [CallFn(f, os), Gep(ArgOp(0), n), Store(RegOp(|regs|), RegOp(|regs| + 1)), RetVoid]
    requires var o := Invoke(0, fuel, GuestModule(image), f, vals, g); o.Ok? ==> |o.st| == |g|
    ensures ExecCode(1, fuel, image, code, [Ptr(0)], regs, g) ==
            match Invoke(0, fuel, GuestModule(image), f, vals, g)
            case Ok(v, g1) => Ok(0, g1[n := v])
            case o => o
  {
    var o := Invoke(0, fuel, GuestModule(image), f, vals, g);
    if o.Ok? {
      StoreResult(fuel, image, n, regs, o.v, o.st, code[1..]);
    }
  }

  lemma StoreResult(fuel: nat, image: Image, n: nat, regs: seq<Value>, v: int, g: Store, code: seq<Instr>)
    requires n < |g| && code == [Gep(ArgOp(0), n), Store(RegOp(|regs|), RegOp(|regs| + 1)), RetVoid]
    ensures ExecCode(1, fuel, image, code, [Ptr(0)], regs + [Int(v)], g) == Ok(0, g[n := v])
  {
    var r0 := regs + [Int(v)];
    var r1 := r0 + [Ptr(n)];
    var r2 := r1 + [Int(0)];
    RunTwo(code[..2], [Ptr(0)], r0, g, r1, g, r2, g[n := v]);
    assert code == code[..2] + [RetVoid];
    ExecPrefix(1, fuel, image, code[..2], [RetVoid], [Ptr(0)], r0, g, r2, g[n := v]);
  }

  // ---------------------------------------------------------------- the wrapper

  lemma WrapperRuns(fuel: nat, image: Image, params: seq<Kind>, vals: seq<Value>, st: Store)
    requires Matches(params, vals) && ValidValues(vals, |st|)
    requires var o := ExecCode(1, fuel, image, image.main, [Ptr(0)], [], Packed(vals, st, |vals|));
             o.Ok? ==> |o.st| == |vals| + 1
    ensures ExecCode(2, fuel, image, WrapperCode(params), vals, [], st) ==
            match ExecCode(1, fuel, image, image.main, [Ptr(0)], [], Packed(vals, st, |vals|))
            case Ok(_, g) => Ok(g[|vals|], WrittenBack(st, vals, g, |vals|) + g)
            case o => o
  {
    var marshal := MarshalCode(params, |params|);
    var rest := WrapperCode(params)[|marshal|..];
    assert WrapperCode(params) == marshal + rest && rest[0] == RunVirtine(RegOp(0), |params| + 1);
    var regs := MarshalRuns(params, vals, st, |params|);
    MarshalIsSimple(params, |params|);
    ExecPrefix(2, fuel, image, marshal, rest, vals, [], st, regs, st + Packed(vals, st, |vals|));
    RunTurn(fuel, image, vals, st, Packed(vals, st, |vals|), regs, rest);
    var o := ExecCode(1, fuel, image, image.main, [Ptr(0)], [], Packed(vals, st, |vals|));
    if o.Ok? {
      TailRuns(fuel, image, params, vals, st, o.st, regs + [Int(0)], rest[1..]);
    }
  }

  /** Running the virtine on the structure at the top of the stack. */
  lemma RunTurn(fuel: nat, image: Image, args: seq<Value>, st: Store, packed: Store, regs: seq<Value>, code: seq<Instr>)
    requires code != [] && code[0] == RunVirtine(RegOp(0), |packed|) && |regs| > 0 && regs[0] == Ptr(|st|)
    requires var o := ExecCode(1, fuel, image, image.main, [Ptr(0)], [], packed); o.Ok? ==> |o.st| == |packed|
    ensures var o := ExecCode(1, fuel, image, image.main, [Ptr(0)], [], packed);
            ExecCode(2, fuel, image, code, args, regs, st + packed) ==
            if o.Ok? then ExecCode(2, fuel, image, code[1..], args, regs + [Int(0)], st + o.st) else o
  {
    var cells, a, size := st + packed, |st|, |packed|;
    assert cells[a..a + size] == packed;
    var o := ExecCode(1, fuel, image, image.main, [Ptr(0)], [], packed);
    if o.Ok? {
      assert cells[..a] + o.st[..size] + cells[a + size..] == st + o.st;
    }
  }

  lemma TailRuns(fuel: nat, image: Image, params: seq<Kind>, vals: seq<Value>, st: Store, g: Store,
                 regs0: seq<Value>, code: seq<Instr>)
    requires Matches(params, vals) && ValidValues(vals, |st|) && |g| == |vals| + 1
    requires |regs0| == |MarshalCode(params, |params|)| + 1 && regs0[0] == Ptr(|st|)
    requires code == WrapperCode(params)[|regs0|..]
    ensures ExecCode(2, fuel, image, code, vals, regs0, st + g) == Ok(g[|vals|], WrittenBack(st, vals, g, |vals|) + g)
  {
    var n := |params|;
    var unmarshal := UnmarshalCode(params, n, |regs0|);
    UnmarshalIsSimple(params, n, |regs0|);
    var regs := UnmarshalRuns(params, vals, st, g, n, regs0);
    var last := [Gep(RegOp(0), n), Load(RegOp(|regs|)), Ret(RegOp(|regs| + 1))];
    assert code == unmarshal + last;
    var cells := WrittenBack(st, vals, g, n) + g;
    ExecPrefix(2, fuel, image, unmarshal, last, vals, regs0, st + g, regs, cells);
    ReturnRuns(fuel, image, vals, |st| + n, cells, regs, last, n);
  }

  /** Load the result field and return it. */
  lemma ReturnRuns(fuel: nat, image: Image, args: seq<Value>, at: Loc, cells: Store, regs: seq<Value>,
                   code: seq<Instr>, n: nat)
    requires |regs| > 0 && at < |cells| && n <= at && regs[0] == Ptr(at - n)
    requires code == [Gep(RegOp(0), n), Load(RegOp(|regs|)), Ret(RegOp(|regs| + 1))]
    ensures ExecCode(2, fuel, image, code, args, regs, cells) == Ok(cells[at], cells)
  {
    var r1 := regs + [Ptr(at)];
    var r2 := r1 + [Int(cells[at])];
    RunTwo(code[..2], args, regs, cells, r1, cells, r2, cells);
    assert code == code[..2] + [Ret(RegOp(|regs| + 1))];
    ExecPrefix(2, fuel, image, code[..2], [Ret(RegOp(|regs| + 1))], args, regs, cells, r2, cells);
  }

  /** Where each pointee lives in the structure. */
  ghost function FieldMap(vals: seq<Value>, i: nat): (inj: Inj)
    requires i <= |vals|
    ensures forall l :: l in inj <==> exists k :: 0 <= k < i && vals[k] == Ptr(l)
    ensures DistinctPointers(vals) ==> forall k :: 0 <= k < i && vals[k].Ptr? ==> inj[vals[k].loc] == k
  {
    if i == 0 then map[]
    else if vals[i - 1].Ptr? then FieldMap(vals, i - 1)[vals[i - 1].loc := i - 1]
    else FieldMap(vals, i - 1)
  }

  lemma FieldMapAgrees(params: seq<Kind>, vals: seq<Value>, st: Store)
    requires Matches(params, vals) && ValidValues(vals, |st|) && DistinctPointers(vals)
    ensures var inj, g := FieldMap(vals, |vals|), Packed(vals, st, |vals|);
            Agree(inj, st, g) && RelatedAll(inj, vals, GuestArgs(params, g, |vals|))
  {
    var inj, g := FieldMap(vals, |vals|), Packed(vals, st, |vals|);
    forall l | l in inj
      ensures l < |st| && inj[l] < |vals| && vals[inj[l]] == Ptr(l) && st[l] == g[inj[l]]
    {
      var k :| 0 <= k < |vals| && vals[k] == Ptr(l);
    }
    forall k | 0 <= k < |vals|
      ensures Related(inj, vals[k], GuestArgs(params, g, |vals|)[k])
    {
    }
  }

  lemma ResultWrittenBack(vals: seq<Value>, st: Store, st1: Store, g: Store)
    requires ValidValues(vals, |st|) && DistinctPointers(vals) && |g| == |vals| + 1
    requires var inj := FieldMap(vals, |vals|);
             && SameExcept(inj.Keys, st, st1)
             && forall l :: l in inj ==> l < |st1| && inj[l] < |vals| && st1[l] == g[inj[l]]
    ensures WrittenBack(st, vals, g, |vals|) == st1
  {
    var inj := FieldMap(vals, |vals|);
    forall l | 0 <= l < |st|
      ensures WrittenBack(st, vals, g, |vals|)[l] == st1[l]
    {
      WrittenBackAt(st, vals, g, |vals|, l);
      if l in inj {
        var k :| 0 <= k < |vals| && vals[k] == Ptr(l);
        assert inj[vals[k].loc] == k;
      }
    }
  }

  // ---------------------------------------------------------------- the copied module

  /** Functions that are never called can be removed without changing what the others do. */
  lemma {:induction false} PruneExec(fuel: nat, funcs: map<Name, Fn>, kept: set<Name>, fr: Frame, s: Stmt, st: Store)
    requires NoDanglingCall(funcs, kept) && forall h :: h in Calls(s) && h in funcs ==> h in kept
    ensures Exec(0, fuel, Module(Restricted(funcs, kept), {}, map[]), fr, s, st) ==
            Exec(0, fuel, Module(funcs, {}, map[]), fr, s, st)
    decreases fuel, 0, s
  {
    var m := Module(funcs, {}, map[]);
    match s {
      case Seq(s1, s2) =>
        PruneExec(fuel, funcs, kept, fr, s1, st);
        var o := Exec(0, fuel, m, fr, s1, st);
        if o.Ok? { PruneExec(fuel, funcs, kept, fr, s2, o.st); }
      case If(_, s1, s2) =>
        PruneExec(fuel, funcs, kept, fr, s1, st);
        PruneExec(fuel, funcs, kept, fr, s2, st);
      case While(_, body) =>
        if fuel > 0 {
          PruneExec(fuel, funcs, kept, fr, body, st);
          var o := Exec(0, fuel, m, fr, body, st);
          if o.Ok? { PruneExec(fuel - 1, funcs, kept, fr, s, o.st); }
        }
      case Call(_, f, args) =>
        if fuel > 0 && EvalArgs(args, fr, st).Some? {
          PruneInvoke(fuel - 1, funcs, kept, f, EvalArgs(args, fr, st).value, st);
        }
      case _ =>
    }
  }

  lemma {:induction false} PruneInvoke(fuel: nat, funcs: map<Name, Fn>, kept: set<Name>, f: Name, vals: seq<Value>,
                                       st: Store)
    requires NoDanglingCall(funcs, kept) && (f in funcs ==> f in kept)
    ensures Invoke(0, fuel, Module(Restricted(funcs, kept), {}, map[]), f, vals, st) ==
            Invoke(0, fuel, Module(funcs, {}, map[]), f, vals, st)
    decreases fuel, 1, Skip
  {
    if f in funcs {
      PruneExec(fuel, funcs, kept, Frame(vals, |st|), funcs[f].body, st + Zeros(funcs[f].locals));
    }
  }

  /** The generated pair of wrapper and main does what the function does. */
  lemma StubCorrect(fuel: nat, m: Module, f: Name, kept: set<Name>, vals: seq<Value>, st: Store)
    requires m.stubs == map[] && f in m.virtines && f in m.funcs && ValidValues(vals, |st|)
    requires f in kept && NoDanglingCall(m.funcs, kept)
    requires !Invoke(2, fuel, m, f, vals, st).Stuck?
    ensures var o := ExecCode(2, fuel, StubFor(m, f, kept).image, StubFor(m, f, kept).code, vals, [], st);
            match Invoke(2, fuel, m, f, vals, st)
            case Ok(n, st1) => o.Ok? && o.v == n && |st| <= |o.st| && o.st[..|st|] == st1
            case OutOfFuel => o.OutOfFuel?
            case Stuck => true
  {
    var params, image := m.funcs[f].params, StubFor(m, f, kept).image;
    var inj, g := FieldMap(vals, |vals|), Packed(vals, st, |vals|);
    FieldMapAgrees(params, vals, st);
    InvokeSame(2, 0, fuel, m, Module(m.funcs, {}, map[]), inj, f, vals, GuestArgs(params, g, |vals|), st, g);
    PruneInvoke(fuel, m.funcs, kept, f, GuestArgs(params, g, |vals|), g);
    MainRuns(fuel, image, f, params, g);
    WrapperRuns(fuel, image, params, vals, st);
    var o1 := Invoke(2, fuel, m, f, vals, st);
    if o1.Ok? {
      var o2 := Invoke(0, fuel, GuestModule(image), f, GuestArgs(params, g, |vals|), g);
      var g2 := o2.st[|vals| := o2.v];
      FieldMapBelow(vals);
      ResultWrittenBack(vals, st, o1.st, g2);
    }
  }

  lemma FieldMapBelow(vals: seq<Value>)
    requires DistinctPointers(vals)
    ensures forall l :: l in FieldMap(vals, |vals|) ==> FieldMap(vals, |vals|)[l] < |vals|
  {
    forall l | l in FieldMap(vals, |vals|)
      ensures FieldMap(vals, |vals|)[l] < |vals|
    {
      var k :| 0 <= k < |vals| && vals[k] == Ptr(l);
    }
  }

  // ---------------------------------------------------------------- the whole program

  /** All pointers a frame holds are to existing cells. */
  ghost predicate FrameOk(fr: Frame, top: nat) { fr.bottom <= top && ValidValues(fr.args, top) }

  lemma {:induction false} ArgsValid(args: seq<Arg>, fr: Frame, st: Store)
    requires FrameOk(fr, |st|) && EvalArgs(args, fr, st).Some?
    ensures ValidValues(EvalArgs(args, fr, st).value, |st|)
  {
    if args != [] {
      ArgsValid(args[..|args| - 1], fr, st);
    }
  }

  /** Running a statement leaves the stack as deep as it was. */
  lemma ExecKeepsDepth(fuel: nat, m: Module, fr: Frame, s: Stmt, st: Store)
    requires m.stubs == map[] && FrameOk(fr, |st|)
    ensures var o := Exec(2, fuel, m, fr, s, st); o.Ok? ==> |o.st| == |st|
  {
    var id := Extend(map[], 0, 0, |st|);
    forall i | 0 <= i < |fr.args|
      ensures Related(id, fr.args[i], fr.args[i])
    {
    }
    ExecSame(2, 2, fuel, m, m, id, fr, fr, s, st, st);
  }

  lemma {:induction false} OutlinedExec(fuel: nat, m: Module, kept: map<Name, set<Name>>, fr: Frame, s: Stmt, st: Store)
    requires m.stubs == map[] && KeptOk(m, kept) && FrameOk(fr, |st|)
    ensures var o := Exec(2, fuel, m, fr, s, st);
            o.Stuck? || Exec(2, fuel, Outlined(m, kept), fr, s, st) == o
    decreases fuel, 0, s
  {
    match s {
      case Seq(s1, s2) =>
        OutlinedExec(fuel, m, kept, fr, s1, st);
        ExecKeepsDepth(fuel, m, fr, s1, st);
        var o := Exec(2, fuel, m, fr, s1, st);
        if o.Ok? { OutlinedExec(fuel, m, kept, fr, s2, o.st); }
      case If(c, s1, s2) =>
        OutlinedExec(fuel, m, kept, fr, s1, st);
        OutlinedExec(fuel, m, kept, fr, s2, st);
      case While(c, body) =>
        if fuel > 0 {
          OutlinedExec(fuel, m, kept, fr, body, st);
          ExecKeepsDepth(fuel, m, fr, body, st);
          var o := Exec(2, fuel, m, fr, body, st);
          if o.Ok? { OutlinedExec(fuel - 1, m, kept, fr, s, o.st); }
        }
      case Call(x, f, args) =>
        if fuel > 0 && EvalArgs(args, fr, st).Some? {
          ArgsValid(args, fr, st);
          OutlinedInvoke(fuel - 1, m, kept, f, EvalArgs(args, fr, st).value, st);
        }
      case _ =>
    }
  }

  /**
   Outlining preserves meaning: for every program, every call and every fuel, unless the
   original gives a marked function aliased pointers or goes wrong otherwise, the outlined
   program returns the same value, leaves the same memory, and runs on when the original does.
   */
  lemma {:induction false} OutlinedInvoke(fuel: nat, m: Module, kept: map<Name, set<Name>>, f: Name,
                                          vals: seq<Value>, st: Store)
    requires m.stubs == map[] && KeptOk(m, kept) && ValidValues(vals, |st|)
    ensures SameCall(m, Outlined(m, kept), fuel, f, vals, st)
    decreases fuel, 1, Skip
  {
    if !Invoke(2, fuel, m, f, vals, st).Stuck? {
      if f in m.virtines {
        StubCorrect(fuel, m, f, kept[f], vals, st);
      } else {
        var fn := m.funcs[f];
        OutlinedExec(fuel, m, kept, Frame(vals, |st|), fn.body, st + Zeros(fn.locals));
      }
    }
  }

  // ---------------------------------------------------------------- distinct pointers are needed

  /** Outlining the one function `f` does not show in this call. */
  ghost predicate Unseen(fuel: nat, funcs: map<Name, Fn>, f: Name, kept: set<Name>, vals: seq<Value>, st: Store)
    requires f in funcs
  {
    SameCall(Module(funcs, {}, map[]), Outlined(Module(funcs, {f}, map[]), map[f := kept]), fuel, f, vals, st)
  }

  /** No function with these parameters, called with these values, shows that it was outlined. */
  ghost predicate NeverSeen(params: seq<Kind>, vals: seq<Value>, st: Store) {
    forall fuel: nat, funcs: map<Name, Fn>, f: Name, kept: set<Name> ::
      f in funcs && funcs[f].params == params && IsPruned(funcs, f, kept) ==> Unseen(fuel, funcs, f, kept, vals, st)
  }

  /** A call may be outlined, whatever is called, exactly when its pointers are distinct. */
  lemma UnseenIffDistinct(params: seq<Kind>, vals: seq<Value>, st: Store)
    requires Matches(params, vals) && ValidValues(vals, |st|)
    ensures NeverSeen(params, vals, st) <==> DistinctPointers(vals)
  {
    if DistinctPointers(vals) {
      forall fuel: nat, funcs: map<Name, Fn>, f: Name, kept: set<Name>
        | f in funcs && funcs[f].params == params && IsPruned(funcs, f, kept)
        ensures Unseen(fuel, funcs, f, kept, vals, st)
      {
        PrunedKeeps(funcs, f, kept);
        OutlinedInvoke(fuel, Module(funcs, {f}, map[]), map[f := kept], f, vals, st);
      }
    } else {
      var i, j :| 0 <= i < j < |vals| && vals[i].Ptr? && vals[j].Ptr? && vals[i].loc == vals[j].loc;
      AliasLosesUpdate("inc", params, vals, st, i, j);
    }
  }

  /** Adds one through its pointer parameter `i`. */
  function Increment(params: seq<Kind>, i: nat): Fn {
    Fn(params, 0, SetDeref(i, Bin(Add, Deref(i), Const(1))), Const(0))
  }

  lemma IncrementRuns(level: nat, m: Module, f: Name, params: seq<Kind>, vals: seq<Value>, st: Store, i: nat)
    requires f in m.funcs && m.funcs[f] == Increment(params, i) && m.virtines == {} && m.stubs == map[]
    requires Matches(params, vals) && i < |vals| && vals[i].Ptr? && vals[i].loc < |st|
    ensures Invoke(level, 0, m, f, vals, st) == Ok(0, st[vals[i].loc := st[vals[i].loc] + 1])
  {
    var fr, l := Frame(vals, |st|), vals[i].loc;
    assert st + Zeros(0) == st;
    assert Eval(Deref(i), fr, st) == Some(st[l]) && Eval(Const(1), fr, st) == Some(1);
    assert Eval(Bin(Add, Deref(i), Const(1)), fr, st) == Some(st[l] + 1);
    assert Exec(level, 0, m, fr, m.funcs[f].body, st) == Ok(0, st[l := st[l] + 1]);
    assert st[l := st[l] + 1][..|st|] == st[l := st[l] + 1];
  }

  /** If all aliases from `j` on hold `x`, that is what is left in the cell. */
  lemma {:induction false} LastAliasWins(st: Store, vals: seq<Value>, fields: Store, n: nat, l: Loc, j: nat, x: int)
    requires ValidValues(vals, |st|) && j < n <= |vals| <= |fields| && vals[j] == Ptr(l)
    requires forall k :: j <= k < n && vals[k] == Ptr(l) ==> fields[k] == x
    ensures l < |st| && WrittenBack(st, vals, fields, n)[l] == x
  {
    if n > j + 1 {
      LastAliasWins(st, vals, fields, n - 1, l, j, x);
    }
  }

  lemma OnlyFunctionKept(f: Name, fn: Fn)
    requires Calls(fn.body) == {}
    ensures IsPruned(map[f := fn], f, {f})
  {
    var funcs, main, inc := map[f := fn], DeadCode.Main, DeadCode.Function(f);
    assert ItemsOf(funcs) == {main, inc} == {main} + set g | g in {f} :: DeadCode.Function(g);
    assert (main, inc) in UsesOf(funcs, f);
    assert DeadCode.HasUser(UsesOf(funcs, f), {main, inc}, inc);
  }

  /** Given the same pointer twice, a function that adds one through the first loses the update once outlined. */
  lemma AliasLosesUpdate(f: Name, params: seq<Kind>, vals: seq<Value>, st: Store, i: nat, j: nat)
    requires Matches(params, vals) && ValidValues(vals, |st|)
    requires i < j < |vals| && vals[i].Ptr? && vals[i] == vals[j]
    ensures var funcs := map[f := Increment(params, i)];
            IsPruned(funcs, f, {f}) && !Unseen(0, funcs, f, {f}, vals, st)
  {
    var funcs := map[f := Increment(params, i)];
    OnlyFunctionKept(f, funcs[f]);
    IncrementRuns(2, Module(funcs, {}, map[]), f, params, vals, st, i);
    var st1 := UpdateLost(f, params, vals, st, i, j);
  }

  lemma UpdateLost(f: Name, params: seq<Kind>, vals: seq<Value>, st: Store, i: nat, j: nat) returns (st1: Store)
    requires Matches(params, vals) && ValidValues(vals, |st|)
    requires i < j < |vals| && vals[i].Ptr? && vals[i] == vals[j]
    ensures var m := Module(map[f := Increment(params, i)], {f}, map[]);
            Invoke(2, 0, Outlined(m, map[f := {f}]), f, vals, st) == Ok(0, st1)
    ensures |st1| == |st| && st1[vals[i].loc] == st[vals[i].loc]
  {
    var l, n := vals[i].loc, |vals|;
    var m := Module(map[f := Increment(params, i)], {f}, map[]);
    var g1 := Packed(vals, st, n)[i := st[l] + 1];
    var g := g1[n := 0];
    st1 := WrittenBack(st, vals, g, n);
    LastAliasWins(st, vals, g, n, l, j, st[l]);
    IncrementOutlined(StubFor(m, f, {f}).image, f, params, vals, st, i, g1);
    OutlinedCall(0, m, f, {f}, vals, st, 0, st1, g);
  }

  /** A call of an outlined function pops what its wrapper put on the stack. */
  lemma OutlinedCall(fuel: nat, m: Module, f: Name, kept: set<Name>, vals: seq<Value>, st: Store, v: int, st1: Store,
                     g: Store)
    requires f in m.funcs && m.virtines == {f} && |st1| == |st|
    requires var stub := StubFor(m, f, kept); ExecCode(2, fuel, stub.image, stub.code, vals, [], st) == Ok(v, st1 + g)
    ensures Invoke(2, fuel, Outlined(m, map[f := kept]), f, vals, st) == Ok(v, st1)
  {
    assert Outlined(m, map[f := kept]).stubs[f] == StubFor(m, f, kept);
    assert (st1 + g)[..|st|] == st1;
  }

  lemma WrapperResult(fuel: nat, image: Image, f: Name, params: seq<Kind>, vals: seq<Value>, st: Store, v: int,
                      g1: Store)
    requires Matches(params, vals) && ValidValues(vals, |st|) && image.main == MainCode(f, params) && |g1| == |vals| + 1
    requires var g := Packed(vals, st, |vals|);
             Invoke(0, fuel, GuestModule(image), f, GuestArgs(params, g, |vals|), g) == Ok(v, g1)
    ensures var g2 := g1[|vals| := v];
            ExecCode(2, fuel, image, WrapperCode(params), vals, [], st) == Ok(v, WrittenBack(st, vals, g2, |vals|) + g2)
  {
    MainRuns(fuel, image, f, params, Packed(vals, st, |vals|));
    WrapperRuns(fuel, image, params, vals, st);
  }

  lemma GuestIncrement(image: Image, f: Name, params: seq<Kind>, vals: seq<Value>, st: Store, i: nat)
    requires f in image.funcs && image.funcs[f] == Increment(params, i)
    requires Matches(params, vals) && ValidValues(vals, |st|) && i < |vals| && vals[i].Ptr?
    ensures var g := Packed(vals, st, |vals|);
            && Invoke(0, 0, GuestModule(image), f, GuestArgs(params, g, |vals|), g) == Ok(0, g[i := g[i] + 1])
            && g[i] == st[vals[i].loc]
  {
    var g := Packed(vals, st, |vals|);
    IncrementRuns(0, GuestModule(image), f, params, GuestArgs(params, g, |vals|), g, i);
  }

  lemma IncrementOutlined(image: Image, f: Name, params: seq<Kind>, vals: seq<Value>, st: Store, i: nat, g1: Store)
    requires f in image.funcs && image.funcs[f] == Increment(params, i) && image.main == MainCode(f, params)
    requires Matches(params, vals) && ValidValues(vals, |st|) && i < |vals| && vals[i].Ptr?
    requires g1 == Packed(vals, st, |vals|)[i := st[vals[i].loc] + 1]
    ensures var g := g1[|vals| := 0];
            ExecCode(2, 0, image, WrapperCode(params), vals, [], st) == Ok(0, WrittenBack(st, vals, g, |vals|) + g)
  {
    GuestIncrement(image, f, params, vals, st, i);
    WrapperResult(0, image, f, params, vals, st, 0, g1);
  }
}
