/**
 A function cannot tell where its cells are: run with the same values in other places, it
 returns the same result and leaves the same values there.  This is what lets a function
 move into a virtine, where its pointers point into an argument structure.
 */
module Renaming {
  import opened Common
  import opened Lang

  type Inj = map<Loc, Loc>

  /** `inj` is one to one, and maps cells of `st1` to cells of `st2` that hold the same. */
  ghost predicate Agree(inj: Inj, st1: Store, st2: Store) {
    && (forall l :: l in inj ==> l < |st1| && inj[l] < |st2| && st1[l] == st2[inj[l]])
    && (forall l, k :: l in inj && k in inj && l != k ==> inj[l] != inj[k])
  }

  ghost predicate Related(inj: Inj, v1: Value, v2: Value) {
    match v1
    case Int(n) => v2 == Int(n)
    case Ptr(l) => l in inj && v2 == Ptr(inj[l])
  }

  ghost predicate RelatedAll(inj: Inj, vs1: seq<Value>, vs2: seq<Value>) {
    |vs1| == |vs2| && forall i :: 0 <= i < |vs1| ==> Related(inj, vs1[i], vs2[i])
  }

  /** The arguments correspond, and so do the locals, up to stack tops `top1` and `top2`. */
  ghost predicate FrameRelated(inj: Inj, fr1: Frame, top1: nat, fr2: Frame, top2: nat) {
    && RelatedAll(inj, fr1.args, fr2.args)
    && fr1.bottom <= top1 && fr2.bottom <= top2 && top1 - fr1.bottom == top2 - fr2.bottom
    && forall l :: fr1.bottom <= l < top1 ==> l in inj && inj[l] == l - fr1.bottom + fr2.bottom
  }

  ghost predicate SameExcept(cells: set<Loc>, st: Store, st': Store) {
    |st'| == |st| && forall l :: 0 <= l < |st| && l !in cells ==> st'[l] == st[l]
  }

  /** Both runs end alike, related by `inj`, and touched nothing but the related cells. */
  ghost predicate SameOutcome(inj: Inj, st1: Store, o1: Outcome, st2: Store, o2: Outcome) {
    match o1
    case Ok(n, st1') =>
      o2.Ok? && o2.v == n && Agree(inj, st1', o2.st) && SameExcept(inj.Keys, st1, st1')
          && SameExcept(inj.Values, st2, o2.st)
    case OutOfFuel => o2.OutOfFuel?
    case Stuck => true
  }

  /** Two stub-free modules with the same functions; the second marks the same or none. */
  ghost predicate SameFunctions(m1: Module, m2: Module) {
    m1.stubs == map[] && m2.stubs == map[] && m1.funcs == m2.funcs && (m2.virtines == {} || m2.virtines == m1.virtines)
  }

  lemma {:induction false} EvalSame(inj: Inj, e: Expr, fr1: Frame, st1: Store, fr2: Frame, st2: Store)
    requires Agree(inj, st1, st2) && FrameRelated(inj, fr1, |st1|, fr2, |st2|)
    ensures Eval(e, fr1, st1) == Eval(e, fr2, st2)
  {
    match e {
      case Const(_) =>
      case Param(i) => if i < |fr1.args| { assert Related(inj, fr1.args[i], fr2.args[i]); }
      case Local(x) => if fr1.bottom + x < |st1| { assert fr1.bottom + x in inj; }
      case Deref(i) => if i < |fr1.args| { assert Related(inj, fr1.args[i], fr2.args[i]); }
      case Bin(_, l, r) =>
        EvalSame(inj, l, fr1, st1, fr2, st2);
        EvalSame(inj, r, fr1, st1, fr2, st2);
    }
  }

  lemma EvalArgSame(inj: Inj, a: Arg, fr1: Frame, st1: Store, fr2: Frame, st2: Store)
    requires Agree(inj, st1, st2) && FrameRelated(inj, fr1, |st1|, fr2, |st2|)
    requires EvalArg(a, fr1, st1).Some?
    ensures EvalArg(a, fr2, st2).Some? && Related(inj, EvalArg(a, fr1, st1).value, EvalArg(a, fr2, st2).value)
  {
    match a {
      case ByValue(e) => EvalSame(inj, e, fr1, st1, fr2, st2);
      case PassOn(i) => assert Related(inj, fr1.args[i], fr2.args[i]);
      case AddressOf(x) => assert fr1.bottom + x in inj;
    }
  }

  lemma {:induction false} EvalArgsSame(inj: Inj, args: seq<Arg>, fr1: Frame, st1: Store, fr2: Frame, st2: Store)
    requires Agree(inj, st1, st2) && FrameRelated(inj, fr1, |st1|, fr2, |st2|)
    requires EvalArgs(args, fr1, st1).Some?
    ensures EvalArgs(args, fr2, st2).Some?
    ensures RelatedAll(inj, EvalArgs(args, fr1, st1).value, EvalArgs(args, fr2, st2).value)
  {
    if args != [] {
      EvalArgsSame(inj, args[..|args| - 1], fr1, st1, fr2, st2);
      EvalArgSame(inj, args[|args| - 1], fr1, st1, fr2, st2);
    }
  }

  /** Writing the same value to related cells. */
  lemma WriteSame(inj: Inj, st1: Store, st2: Store, l: Loc, n: int)
    requires Agree(inj, st1, st2) && l in inj
    ensures l < |st1| && inj[l] < |st2|
    ensures SameOutcome(inj, st1, Ok(0, st1[l := n]), st2, Ok(0, st2[inj[l] := n]))
  {
    assert inj[l] in inj.Values;
  }

  lemma OutcomeTransitive(inj: Inj, st1: Store, o1: Outcome, st2: Store, o2: Outcome, p1: Outcome, p2: Outcome)
    requires SameOutcome(inj, st1, o1, st2, o2) && o1.Ok? && o2.Ok? && SameOutcome(inj, o1.st, p1, o2.st, p2)
    ensures SameOutcome(inj, st1, p1, st2, p2)
  {
  }

  lemma {:induction false} ExecSame(l1: nat, l2: nat, fuel: nat, m1: Module, m2: Module, inj: Inj, fr1: Frame,
                                    fr2: Frame, s: Stmt, st1: Store, st2: Store)
    requires SameFunctions(m1, m2) && Agree(inj, st1, st2) && FrameRelated(inj, fr1, |st1|, fr2, |st2|)
    ensures SameOutcome(inj, st1, Exec(l1, fuel, m1, fr1, s, st1), st2, Exec(l2, fuel, m2, fr2, s, st2))
    decreases fuel, 0, s
  {
    match s {
      case Skip =>
      case SetLocal(x, e) =>
        EvalSame(inj, e, fr1, st1, fr2, st2);
        if Eval(e, fr1, st1).Some? && fr1.bottom + x < |st1| {
          WriteSame(inj, st1, st2, fr1.bottom + x, Eval(e, fr1, st1).value);
        }
      case SetDeref(i, e) =>
        EvalSame(inj, e, fr1, st1, fr2, st2);
        if Eval(e, fr1, st1).Some? && i < |fr1.args| && fr1.args[i].Ptr? {
          assert Related(inj, fr1.args[i], fr2.args[i]);
          WriteSame(inj, st1, st2, fr1.args[i].loc, Eval(e, fr1, st1).value);
        }
      case Seq(s1, s2) => SeqSame(l1, l2, fuel, m1, m2, inj, fr1, fr2, s1, s2, st1, st2);
      case If(c, s1, s2) =>
        EvalSame(inj, c, fr1, st1, fr2, st2);
        ExecSame(l1, l2, fuel, m1, m2, inj, fr1, fr2, s1, st1, st2);
        ExecSame(l1, l2, fuel, m1, m2, inj, fr1, fr2, s2, st1, st2);
      case While(c, body) => WhileSame(l1, l2, fuel, m1, m2, inj, fr1, fr2, c, body, st1, st2);
      case Call(x, f, args) => CallSame(l1, l2, fuel, m1, m2, inj, fr1, fr2, x, f, args, st1, st2);
    }
  }

  lemma {:induction false} SeqSame(l1: nat, l2: nat, fuel: nat, m1: Module, m2: Module, inj: Inj, fr1: Frame,
                                   fr2: Frame, s1: Stmt, s2: Stmt, st1: Store, st2: Store)
    requires SameFunctions(m1, m2) && Agree(inj, st1, st2) && FrameRelated(inj, fr1, |st1|, fr2, |st2|)
    ensures SameOutcome(inj, st1, Exec(l1, fuel, m1, fr1, Seq(s1, s2), st1),
                        st2, Exec(l2, fuel, m2, fr2, Seq(s1, s2), st2))
    decreases fuel, 0, Seq(s1, s2), 0
  {
    ExecSame(l1, l2, fuel, m1, m2, inj, fr1, fr2, s1, st1, st2);
    var o1, o2 := Exec(l1, fuel, m1, fr1, s1, st1), Exec(l2, fuel, m2, fr2, s1, st2);
    if o1.Ok? {
      ExecSame(l1, l2, fuel, m1, m2, inj, fr1, fr2, s2, o1.st, o2.st);
      OutcomeTransitive(inj, st1, o1, st2, o2, Exec(l1, fuel, m1, fr1, s2, o1.st), Exec(l2, fuel, m2, fr2, s2, o2.st));
    }
  }

  lemma {:induction false} WhileSame(l1: nat, l2: nat, fuel: nat, m1: Module, m2: Module, inj: Inj, fr1: Frame,
                                     fr2: Frame, c: Expr, body: Stmt, st1: Store, st2: Store)
    requires SameFunctions(m1, m2) && Agree(inj, st1, st2) && FrameRelated(inj, fr1, |st1|, fr2, |st2|)
    ensures SameOutcome(inj, st1, Exec(l1, fuel, m1, fr1, While(c, body), st1),
                        st2, Exec(l2, fuel, m2, fr2, While(c, body), st2))
    decreases fuel, 0, While(c, body), 0
  {
    var s := While(c, body);
    EvalSame(inj, c, fr1, st1, fr2, st2);
    if Eval(c, fr1, st1).Some? && Eval(c, fr1, st1).value != 0 && fuel > 0 {
      ExecSame(l1, l2, fuel, m1, m2, inj, fr1, fr2, body, st1, st2);
      var o1, o2 := Exec(l1, fuel, m1, fr1, body, st1), Exec(l2, fuel, m2, fr2, body, st2);
      if o1.Ok? {
        ExecSame(l1, l2, fuel - 1, m1, m2, inj, fr1, fr2, s, o1.st, o2.st);
        OutcomeTransitive(inj, st1, o1, st2, o2,
                          Exec(l1, fuel - 1, m1, fr1, s, o1.st), Exec(l2, fuel - 1, m2, fr2, s, o2.st));
      }
    }
  }

  lemma {:induction false} CallSame(l1: nat, l2: nat, fuel: nat, m1: Module, m2: Module, inj: Inj, fr1: Frame,
                                    fr2: Frame, x: nat, f: Name, args: seq<Arg>, st1: Store, st2: Store)
    requires SameFunctions(m1, m2) && Agree(inj, st1, st2) && FrameRelated(inj, fr1, |st1|, fr2, |st2|)
    ensures SameOutcome(inj, st1, Exec(l1, fuel, m1, fr1, Call(x, f, args), st1),
                        st2, Exec(l2, fuel, m2, fr2, Call(x, f, args), st2))
    decreases fuel, 0, Call(x, f, args), 0
  {
    if EvalArgs(args, fr1, st1).Some? && fr1.bottom + x < |st1| && fuel > 0 {
      EvalArgsSame(inj, args, fr1, st1, fr2, st2);
      var vals1, vals2 := EvalArgs(args, fr1, st1).value, EvalArgs(args, fr2, st2).value;
      InvokeSame(l1, l2, fuel - 1, m1, m2, inj, f, vals1, vals2, st1, st2);
      var o1, o2 := Invoke(l1, fuel - 1, m1, f, vals1, st1), Invoke(l2, fuel - 1, m2, f, vals2, st2);
      if o1.Ok? {
        WriteSame(inj, o1.st, o2.st, fr1.bottom + x, o1.v);
        OutcomeTransitive(inj, st1, o1, st2, o2,
                          Ok(0, o1.st[fr1.bottom + x := o1.v]), Ok(0, o2.st[fr2.bottom + x := o1.v]));
      }
    } else if EvalArgs(args, fr1, st1).Some? {
      EvalArgsSame(inj, args, fr1, st1, fr2, st2);
    }
  }

  /** The locals of a new frame correspond as well. */
  function Extend(inj: Inj, top1: nat, top2: nat, locals: nat): (r: Inj)
    ensures forall l :: l in r <==> l in inj || top1 <= l < top1 + locals
    ensures forall l :: l in r ==> r[l] == if top1 <= l < top1 + locals then l - top1 + top2 else inj[l]
  {
    if locals == 0 then inj
    else Extend(inj, top1, top2, locals - 1)[top1 + locals - 1 := top2 + locals - 1]
  }

  lemma ExtendAgrees(inj: Inj, st1: Store, st2: Store, vals1: seq<Value>, vals2: seq<Value>, locals: nat)
    requires Agree(inj, st1, st2) && RelatedAll(inj, vals1, vals2)
    ensures var inj' := Extend(inj, |st1|, |st2|, locals);
            && Agree(inj', st1 + Zeros(locals), st2 + Zeros(locals))
            && FrameRelated(inj', Frame(vals1, |st1|), |st1| + locals, Frame(vals2, |st2|), |st2| + locals)
  {
    var inj' := Extend(inj, |st1|, |st2|, locals);
    forall i | 0 <= i < |vals1|
      ensures Related(inj', vals1[i], vals2[i])
    {
      assert Related(inj, vals1[i], vals2[i]);
    }
  }

  /** Popping the frame. */
  lemma PopSame(inj: Inj, st1: Store, st2: Store, locals: nat, o1: Outcome, o2: Outcome, n: int)
    requires Agree(inj, st1, st2) && o1.Ok?
    requires SameOutcome(Extend(inj, |st1|, |st2|, locals), st1 + Zeros(locals), o1, st2 + Zeros(locals), o2)
    ensures |st1| <= |o1.st| && |st2| <= |o2.st|
    ensures SameOutcome(inj, st1, Ok(n, o1.st[..|st1|]), st2, Ok(n, o2.st[..|st2|]))
  {
    var inj' := Extend(inj, |st1|, |st2|, locals);
    var r1, r2 := o1.st[..|st1|], o2.st[..|st2|];
    forall l | l in inj
      ensures l < |r1| && inj[l] < |r2| && r1[l] == r2[inj[l]]
    {
      assert l in inj' && inj'[l] == inj[l];
    }
    forall l | 0 <= l < |st1| && l !in inj.Keys
      ensures r1[l] == st1[l]
    {
      assert l !in inj'.Keys;
      assert o1.st[l] == (st1 + Zeros(locals))[l];
    }
    forall l | 0 <= l < |st2| && l !in inj.Values
      ensures r2[l] == st2[l]
    {
      OutsideValues(inj, |st1|, |st2|, locals, l);
      assert o2.st[l] == (st2 + Zeros(locals))[l];
    }
  }

  lemma OutsideValues(inj: Inj, top1: nat, top2: nat, locals: nat, l: Loc)
    requires l < top2 && l !in inj.Values
    ensures l !in Extend(inj, top1, top2, locals).Values
  {
    var inj' := Extend(inj, top1, top2, locals);
    forall k | k in inj'
      ensures inj'[k] != l
    {
      if !(top1 <= k < top1 + locals) { assert inj[k] in inj.Values; }
    }
  }

  lemma {:induction false} InvokeSame(l1: nat, l2: nat, fuel: nat, m1: Module, m2: Module, inj: Inj, f: Name,
                                      vals1: seq<Value>, vals2: seq<Value>, st1: Store, st2: Store)
    requires SameFunctions(m1, m2) && Agree(inj, st1, st2) && RelatedAll(inj, vals1, vals2)
    ensures SameOutcome(inj, st1, Invoke(l1, fuel, m1, f, vals1, st1), st2, Invoke(l2, fuel, m2, f, vals2, st2))
    decreases fuel, 1, Skip
  {
    if !Invoke(l1, fuel, m1, f, vals1, st1).Stuck? {
      CalleeSame(inj, m1.funcs[f].params, vals1, vals2);
      var fn := m1.funcs[f];
      var fr1, fr2 := Frame(vals1, |st1|), Frame(vals2, |st2|);
      var inj' := Extend(inj, |st1|, |st2|, fn.locals);
      ExtendAgrees(inj, st1, st2, vals1, vals2, fn.locals);
      var n1, n2 := Within(m1, f), Within(m2, f);
      ExecSame(l1, l2, fuel, n1, n2, inj', fr1, fr2, fn.body, st1 + Zeros(fn.locals), st2 + Zeros(fn.locals));
      var o1 := Exec(l1, fuel, n1, fr1, fn.body, st1 + Zeros(fn.locals));
      var o2 := Exec(l2, fuel, n2, fr2, fn.body, st2 + Zeros(fn.locals));
      if o1.Ok? {
        EvalSame(inj', fn.ret, fr1, o1.st, fr2, o2.st);
        PopSame(inj, st1, st2, fn.locals, o1, o2, Eval(fn.ret, fr1, o1.st).value);
      }
    }
  }

  lemma CalleeSame(inj: Inj, params: seq<Kind>, vals1: seq<Value>, vals2: seq<Value>)
    requires RelatedAll(inj, vals1, vals2) && Matches(params, vals1)
    requires forall l, k :: l in inj && k in inj && l != k ==> inj[l] != inj[k]
    ensures Matches(params, vals2)
    ensures DistinctPointers(vals1) ==> DistinctPointers(vals2)
  {
    forall i | 0 <= i < |vals1|
      ensures params[i].Pointer? <==> vals2[i].Ptr?
    {
      assert Related(inj, vals1[i], vals2[i]);
    }
    if DistinctPointers(vals1) {
      forall i, j | 0 <= i < j < |vals2| && vals2[i].Ptr? && vals2[j].Ptr?
        ensures vals2[i].loc != vals2[j].loc
      {
        assert Related(inj, vals1[i], vals2[i]) && Related(inj, vals1[j], vals2[j]);
      }
    }
  }
}
