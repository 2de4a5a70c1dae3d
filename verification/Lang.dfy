/**
 The programs that the outlining pass works on, and what they do.

 Memory is a stack of integer cells.  A function has scalar and pointer parameters and
 local cells whose address may be passed on; it has no global state.  Functions are either
 source code or, after outlining, generated code that runs the function in a virtine.
 Runs are bounded by `fuel`, which a loop turn and a call each use up one of; statements
 about runs hold for every fuel.
 */
module Lang {
  import opened Common

  type Name = string
  type Loc = nat
  type Store = seq<int>

  // ---------------------------------------------------------------- source code

  datatype Kind = Scalar | Pointer

  datatype Operator = Add | Sub | Mul | Less

  datatype Expr =
    | Const(n: int)
    | Param(i: nat)                       // a scalar parameter
    | Local(x: nat)
    | Deref(i: nat)                       // the cell a pointer parameter points to
    | Bin(op: Operator, l: Expr, r: Expr)

  datatype Arg =
    | ByValue(e: Expr)
    | PassOn(i: nat)                      // one's own pointer parameter
    | AddressOf(x: nat)                   // of a local

  datatype Stmt =
    | Skip
    | SetLocal(x: nat, e: Expr)
    | SetDeref(i: nat, e: Expr)
    | Seq(s1: Stmt, s2: Stmt)
    | If(c: Expr, s1: Stmt, s2: Stmt)
    | While(c: Expr, s: Stmt)
    | Call(x: nat, f: Name, args: seq<Arg>)   // the result goes to local x

  datatype Fn = Fn(params: seq<Kind>, locals: nat, body: Stmt, ret: Expr)

  // ---------------------------------------------------------------- generated code

  /** An argument of the enclosing function, or the result of an earlier instruction. */
  datatype Operand = ArgOp(i: nat) | RegOp(i: nat)

  datatype Instr =
    | Alloca(fields: nat)
    | Gep(ptr: Operand, index: nat)
    | Load(ptr: Operand)
    | Store(val: Operand, ptr: Operand)
    | CallFn(f: Name, args: seq<Operand>)
    | RunVirtine(arg: Operand, size: nat)     // wasp_run_virtine on an argument structure
    | Ret(val: Operand)
    | RetVoid

  /** The module compiled into a virtine: its main, and the functions as they were when it was copied. */
  datatype Image = Image(main: seq<Instr>, funcs: map<Name, Fn>)

  datatype Stub = Stub(code: seq<Instr>, image: Image)

  /** `virtines` are the functions marked by their section; `stubs` replace bodies. */
  datatype Module = Module(funcs: map<Name, Fn>, virtines: set<Name>, stubs: map<Name, Stub>)

  function GuestModule(image: Image): Module { Module(image.funcs, {}, map[]) }

  // ---------------------------------------------------------------- meaning

  datatype Value = Int(n: int) | Ptr(loc: Loc)

  /** Arguments, and where the locals start; they extend to the top of the stack. */
  datatype Frame = Frame(args: seq<Value>, bottom: Loc)

  datatype Outcome = Ok(v: int, st: Store) | OutOfFuel | Stuck

  function Apply(op: Operator, a: int, b: int): int {
    match op
    case Add => a + b
    case Sub => a - b
    case Mul => a * b
    case Less => if a < b then 1 else 0
  }

  function Eval(e: Expr, fr: Frame, st: Store): Option<int> {
    match e
    case Const(n) => Some(n)
    case Param(i) => if i < |fr.args| && fr.args[i].Int? then Some(fr.args[i].n) else None
    case Local(x) => if fr.bottom + x < |st| then Some(st[fr.bottom + x]) else None
    case Deref(i) =>
      if i < |fr.args| && fr.args[i].Ptr? && fr.args[i].loc < |st| then Some(st[fr.args[i].loc]) else None
    case Bin(op, l, r) =>
      match (Eval(l, fr, st), Eval(r, fr, st))
      case (Some(a), Some(b)) => Some(Apply(op, a, b))
      case _ => None
  }

  function EvalArg(a: Arg, fr: Frame, st: Store): Option<Value> {
    match a
    case ByValue(e) => (match Eval(e, fr, st) case Some(n) => Some(Int(n)) case None => None)
    case PassOn(i) => if i < |fr.args| && fr.args[i].Ptr? then Some(fr.args[i]) else None
    case AddressOf(x) => if fr.bottom + x < |st| then Some(Ptr(fr.bottom + x)) else None
  }

  function EvalArgs(args: seq<Arg>, fr: Frame, st: Store): Option<seq<Value>> {
    if args == [] then Some([])
    else match (EvalArgs(args[..|args| - 1], fr, st), EvalArg(args[|args| - 1], fr, st))
         case (Some(vs), Some(v)) => Some(vs + [v])
         case _ => None
  }

  predicate Matches(params: seq<Kind>, vals: seq<Value>) {
    |params| == |vals| && forall i :: 0 <= i < |vals| ==> (params[i].Pointer? <==> vals[i].Ptr?)
  }

  predicate DistinctPointers(vals: seq<Value>) {
    forall i, j :: 0 <= i < j < |vals| && vals[i].Ptr? && vals[j].Ptr? ==> vals[i].loc != vals[j].loc
  }

  function Zeros(n: nat): (z: Store)
    ensures |z| == n
  {
    seq(n, _ => 0)
  }

  /** The module as the body of `f` sees it: a virtine is left only when the marked function returns. */
  function Within(m: Module, f: Name): Module { if f in m.virtines then m.(virtines := {}) else m }

  /** Run a statement; `level` is 2 on the host, 1 in the entry code of a virtine, 0 in its functions. */
  function Exec(level: nat, fuel: nat, m: Module, fr: Frame, s: Stmt, st: Store): Outcome
    decreases level, fuel, 0, s
  {
    match s
    case Skip => Ok(0, st)
    case SetLocal(x, e) =>
      (match Eval(e, fr, st)
       case Some(n) => if fr.bottom + x < |st| then Ok(0, st[fr.bottom + x := n]) else Stuck
       case None => Stuck)
    case SetDeref(i, e) =>
      (match Eval(e, fr, st)
       case Some(n) =>
         if i < |fr.args| && fr.args[i].Ptr? && fr.args[i].loc < |st| then Ok(0, st[fr.args[i].loc := n]) else Stuck
       case None => Stuck)
    case Seq(s1, s2) =>
      (match Exec(level, fuel, m, fr, s1, st)
       case Ok(_, st1) => Exec(level, fuel, m, fr, s2, st1)
       case o => o)
    case If(c, s1, s2) =>
      (match Eval(c, fr, st)
       case Some(n) => if n != 0 then Exec(level, fuel, m, fr, s1, st) else Exec(level, fuel, m, fr, s2, st)
       case None => Stuck)
    case While(c, body) =>
      (match Eval(c, fr, st)
       case Some(n) =>
         if n == 0 then Ok(0, st)
         else if fuel == 0 then OutOfFuel
         else (match Exec(level, fuel, m, fr, body, st)
               case Ok(_, st1) => Exec(level, fuel - 1, m, fr, s, st1)
               case o => o)
       case None => Stuck)
    case Call(x, f, args) =>
      (match EvalArgs(args, fr, st)
       case Some(vals) =>
         if fr.bottom + x >= |st| then Stuck
         else if fuel == 0 then OutOfFuel
         else (match Invoke(level, fuel - 1, m, f, vals, st)
               case Ok(n, st1) => if fr.bottom + x < |st1| then Ok(0, st1[fr.bottom + x := n]) else Stuck
               case o => o)
       case None => Stuck)
  }

  /**
   Call a function; its own cells are popped on return.  From outside, a marked function must
   not be given aliased pointers; what it calls in its turn is not marked any more.
   */
  function Invoke(level: nat, fuel: nat, m: Module, f: Name, vals: seq<Value>, st: Store): Outcome
    decreases level, fuel, 1, Skip
  {
    if f in m.stubs then
      match ExecCode(level, fuel, m.stubs[f].image, m.stubs[f].code, vals, [], st)
      case Ok(n, st1) => if |st| <= |st1| then Ok(n, st1[..|st|]) else Stuck
      case o => o
    else if f !in m.funcs || !Matches(m.funcs[f].params, vals) then Stuck
    else if f in m.virtines && !DistinctPointers(vals) then Stuck
    else
      var fn := m.funcs[f];
      var fr := Frame(vals, |st|);
      match Exec(level, fuel, Within(m, f), fr, fn.body, st + Zeros(fn.locals))
      case Ok(_, st1) =>
        (match Eval(fn.ret, fr, st1)
         case Some(n) => if |st| <= |st1| then Ok(n, st1[..|st|]) else Stuck
         case None => Stuck)
      case o => o
  }

  function Fetch(o: Operand, args: seq<Value>, regs: seq<Value>): Option<Value> {
    match o
    case ArgOp(i) => if i < |args| then Some(args[i]) else None
    case RegOp(i) => if i < |regs| then Some(regs[i]) else None
  }

  function FetchAll(os: seq<Operand>, args: seq<Value>, regs: seq<Value>): Option<seq<Value>> {
    if os == [] then Some([])
    else match (FetchAll(os[..|os| - 1], args, regs), Fetch(os[|os| - 1], args, regs))
         case (Some(vs), Some(v)) => Some(vs + [v])
         case _ => None
  }

  /** An instruction that neither calls nor returns: its result and the new memory. */
  function SimpleStep(ins: Instr, args: seq<Value>, regs: seq<Value>, st: Store): Option<(Value, Store)> {
    match ins
    case Alloca(n) => Some((Ptr(|st|), st + Zeros(n)))
    case Gep(p, i) =>
      (match Fetch(p, args, regs)
       case Some(Ptr(l)) => Some((Ptr(l + i), st))
       case _ => None)
    case Load(p) =>
      (match Fetch(p, args, regs)
       case Some(Ptr(l)) => if l < |st| then Some((Int(st[l]), st)) else None
       case _ => None)
    case Store(o, p) =>
      (match (Fetch(o, args, regs), Fetch(p, args, regs))
       case (Some(Int(n)), Some(Ptr(l))) => if l < |st| then Some((Int(0), st[l := n])) else None
       case _ => None)
    case _ => None
  }

  /** Run generated code from its first instruction on. */
  function ExecCode(level: nat, fuel: nat, image: Image, code: seq<Instr>, args: seq<Value>, regs: seq<Value>,
                    st: Store): Outcome
    decreases level, fuel, 0, |code|
  {
    if code == [] || level == 0 then Stuck
    else
      match code[0]
      case Ret(o) => (match Fetch(o, args, regs) case Some(Int(n)) => Ok(n, st) case _ => Stuck)
      case RetVoid => Ok(0, st)
      case CallFn(f, os) =>
        (match FetchAll(os, args, regs)
         case Some(vals) =>
           (match Invoke(level - 1, fuel, GuestModule(image), f, vals, st)
            case Ok(n, st1) => ExecCode(level, fuel, image, code[1..], args, regs + [Int(n)], st1)
            case o => o)
         case None => Stuck)
      case RunVirtine(o, size) =>
        (match Fetch(o, args, regs)
         case Some(Ptr(a)) =>
           if a + size > |st| then Stuck
           else (match ExecCode(level - 1, fuel, image, image.main, [Ptr(0)], [], st[a..a + size])
                 case Ok(_, g) =>
                   if |g| < size then Stuck
                   else
                     var st1 := st[..a] + g[..size] + st[a + size..];
                     ExecCode(level, fuel, image, code[1..], args, regs + [Int(0)], st1)
                 case o => o)
         case _ => Stuck)
      case _ =>
        (match SimpleStep(code[0], args, regs, st)
         case Some((v, st1)) => ExecCode(level, fuel, image, code[1..], args, regs + [v], st1)
         case None => Stuck)
  }
}
