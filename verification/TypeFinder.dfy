/**
 The type collection that drives the analysis of a virtine module (`TypeFinder` and
 `run_analysis` of `VirtineCompiler`).  Types, constants and metadata nodes refer to each
 other through identifiers, so every one of the three graphs may be cyclic.
 */
module TypeFinder {
  import opened Common

  type TypeId = nat
  type ValueId = nat
  type NodeId = nat

  datatype TypeKind = Integer(width: nat) | Struct(hasName: bool) | OtherType
  datatype Type = Type(kind: TypeKind, subtypes: seq<TypeId>)

  datatype Metadata = MDNode(id: NodeId) | ConstantAsMetadata(c: ValueId) | LocalAsMetadata(l: ValueId) | OtherMetadata

  datatype Value =
    | MetadataAsValue(md: Metadata)
    | Constant(ty: TypeId, operands: seq<ValueId>)
    | GlobalValue
    | Instruction
    | Local

  datatype Graph = Graph(
    types: map<TypeId, Type>,
    values: map<ValueId, Value>,
    nodes: map<NodeId, seq<Option<Metadata>>>)

  /** A global variable with its initializer, or an alias with its aliasee. */
  datatype Global = Global(ty: TypeId, init: Option<ValueId>)
  datatype Instr = Instr(ty: TypeId, operands: seq<Option<ValueId>>)
  datatype Function = Function(ty: TypeId, operands: seq<ValueId>, args: seq<ValueId>, blocks: seq<seq<Instr>>)
  datatype Program = Program(globals: seq<Global>, aliases: seq<Global>, functions: seq<Function>)

  /** References stay inside the module, and value metadata never wraps wrapped metadata. */
  ghost predicate WellFormed(g: Graph) {
    && (forall t, u :: Subtype(g, t, u) ==> u in g.types)
    && (forall v :: v in g.values ==> ValueOk(g, g.values[v]))
    && (forall n, o :: n in g.nodes && o in g.nodes[n] && o.Some? ==> MetadataOk(g, o.value))
  }

  ghost predicate ValueOk(g: Graph, v: Value) {
    match v
    case MetadataAsValue(md) => MetadataOk(g, md)
    case Constant(ty, operands) => ty in g.types && forall o :: o in operands ==> o in g.values
    case _ => true
  }

  ghost predicate MetadataOk(g: Graph, md: Metadata) {
    match md
    case MDNode(n) => n in g.nodes
    case ConstantAsMetadata(v) => v in g.values && !g.values[v].MetadataAsValue?
    case LocalAsMetadata(v) => v in g.values && !g.values[v].MetadataAsValue?
    case OtherMetadata => true
  }

  // ---------------------------------------------------------------- reachability, the reference

  /** What the value and metadata walk runs over. */
  datatype Item = V(v: ValueId) | M(n: NodeId)

  ghost function Items(g: Graph): set<Item> {
    (set v | v in g.values :: V(v)) + (set n | n in g.nodes :: M(n))
  }

  /** The references the walk follows out of `a`. */
  ghost predicate Refers(g: Graph, a: Item, b: Item) {
    match a
    case V(v) =>
      v in g.values &&
      (match g.values[v]
       case MetadataAsValue(MDNode(n)) => b == M(n)
       case MetadataAsValue(ConstantAsMetadata(w)) => b == V(w)
       case MetadataAsValue(LocalAsMetadata(w)) => b == V(w)
       case Constant(_, operands) => b.V? && b.v in operands
       case _ => false)
    case M(n) =>
      n in g.nodes &&
      (match b
       case V(w) => Some(ConstantAsMetadata(w)) in g.nodes[n]
       case M(k) => Some(MDNode(k)) in g.nodes[n])
  }

  ghost predicate ItemPath(g: Graph, p: seq<Item>) {
    |p| > 0 && forall i, j :: 0 <= i && j == i + 1 && j < |p| ==> Refers(g, p[i], p[j])
  }

  ghost function ReachedItems(g: Graph, roots: set<ValueId>): set<Item> {
    set b | b in Items(g) && exists p: seq<Item> :: ItemPath(g, p) && p[0].V? && p[0].v in roots && p[|p| - 1] == b
  }

  ghost predicate Subtype(g: Graph, t: TypeId, u: TypeId) {
    t in g.types && u in g.types[t].subtypes
  }

  ghost predicate TypePath(g: Graph, p: seq<TypeId>) {
    |p| > 0 && forall i, j :: 0 <= i && j == i + 1 && j < |p| ==> Subtype(g, p[i], p[j])
  }

  /** The subtype closure of `roots`. */
  ghost function TypeClosure(g: Graph, roots: set<TypeId>): set<TypeId> {
    set t | t in g.types && exists p :: TypePath(g, p) && p[0] in roots && p[|p| - 1] == t
  }

  ghost predicate ItemsClosed(g: Graph, s: set<Item>) {
    s <= Items(g) && forall a, b :: a in s && Refers(g, a, b) ==> b in s
  }

  ghost predicate TypesClosed(g: Graph, s: set<TypeId>) {
    s <= g.types.Keys && forall t, u :: t in s && Subtype(g, t, u) ==> u in s
  }

  lemma ReachedItemsClosed(g: Graph, roots: set<ValueId>)
    requires WellFormed(g) && roots <= g.values.Keys
    ensures ItemsClosed(g, ReachedItems(g, roots))
    ensures forall r :: r in roots ==> V(r) in ReachedItems(g, roots)
  {
    forall r | r in roots
      ensures V(r) in ReachedItems(g, roots)
    {
      assert ItemPath(g, [V(r)]);
    }
    forall a, b | a in ReachedItems(g, roots) && Refers(g, a, b)
      ensures b in ReachedItems(g, roots)
    {
      ReachedStep(g, roots, a, b);
    }
  }

  lemma ReachedStep(g: Graph, roots: set<ValueId>, a: Item, b: Item)
    requires WellFormed(g) && a in ReachedItems(g, roots) && Refers(g, a, b)
    ensures b in ReachedItems(g, roots)
  {
    var p: seq<Item> :| ItemPath(g, p) && p[0].V? && p[0].v in roots && p[|p| - 1] == a;
    assert ItemPath(g, p + [b]);
    RefersInside(g, a, b);
  }

  /** Metadata of any kind but the last is looked through, and so are nodes and the operands of constants. */
  ghost predicate LinksFollowed(g: Graph, s: set<Item>) {
    && (forall v, n :: V(v) in s && v in g.values && g.values[v] == MetadataAsValue(MDNode(n)) ==> M(n) in s)
    && (forall v, w ::
          V(v) in s && v in g.values && g.values[v] == MetadataAsValue(ConstantAsMetadata(w)) ==> V(w) in s)
    && (forall v, w ::
          V(v) in s && v in g.values && g.values[v] == MetadataAsValue(LocalAsMetadata(w)) ==> V(w) in s)
    && (forall v, w ::
          V(v) in s && v in g.values && g.values[v].Constant? && w in g.values[v].operands ==> V(w) in s)
    && (forall n, k :: M(n) in s && n in g.nodes && Some(MDNode(k)) in g.nodes[n] ==> M(k) in s)
    && (forall n, w :: M(n) in s && n in g.nodes && Some(ConstantAsMetadata(w)) in g.nodes[n] ==> V(w) in s)
  }

  /** What is reached is the least set that holds the roots and follows all links. */
  lemma ReachedIsLeast(g: Graph, roots: set<ValueId>, s: set<Item>)
    requires WellFormed(g) && roots <= g.values.Keys
    ensures LinksFollowed(g, ReachedItems(g, roots))
    ensures LinksFollowed(g, s) && (forall r :: r in roots ==> V(r) in s) ==> ReachedItems(g, roots) <= s
  {
    ReachedItemsClosed(g, roots);
    FollowsLinks(g, ReachedItems(g, roots));
    if LinksFollowed(g, s) && forall r :: r in roots ==> V(r) in s {
      forall b | b in ReachedItems(g, roots)
        ensures b in s
      {
        var p: seq<Item> :| ItemPath(g, p) && p[0].V? && p[0].v in roots && p[|p| - 1] == b;
        ItemPathStays(g, s, p);
      }
    }
  }

  lemma FollowsLinks(g: Graph, s: set<Item>)
    requires forall a, b :: a in s && Refers(g, a, b) ==> b in s
    ensures LinksFollowed(g, s)
  {
    forall v, n | V(v) in s && v in g.values && g.values[v] == MetadataAsValue(MDNode(n))
      ensures M(n) in s
    {
      assert Refers(g, V(v), M(n));
    }
    forall v, w | V(v) in s && v in g.values && g.values[v] == MetadataAsValue(ConstantAsMetadata(w))
      ensures V(w) in s
    {
      assert Refers(g, V(v), V(w));
    }
    forall v, w | V(v) in s && v in g.values && g.values[v] == MetadataAsValue(LocalAsMetadata(w))
      ensures V(w) in s
    {
      assert Refers(g, V(v), V(w));
    }
    forall v, w | V(v) in s && v in g.values && g.values[v].Constant? && w in g.values[v].operands
      ensures V(w) in s
    {
      assert Refers(g, V(v), V(w));
    }
    forall n, k | M(n) in s && n in g.nodes && Some(MDNode(k)) in g.nodes[n]
      ensures M(k) in s
    {
      assert Refers(g, M(n), M(k));
    }
    forall n, w | M(n) in s && n in g.nodes && Some(ConstantAsMetadata(w)) in g.nodes[n]
      ensures V(w) in s
    {
      assert Refers(g, M(n), V(w));
    }
  }

  lemma {:induction false} ItemPathStays(g: Graph, s: set<Item>, p: seq<Item>)
    requires LinksFollowed(g, s) && ItemPath(g, p) && p[0] in s
    ensures p[|p| - 1] in s
  {
    if |p| > 1 {
      ItemPathStays(g, s, p[..|p| - 1]);
      LinkStays(g, s, p[|p| - 2], p[|p| - 1]);
    }
  }

  lemma LinkStays(g: Graph, s: set<Item>, a: Item, b: Item)
    requires LinksFollowed(g, s) && a in s && Refers(g, a, b)
    ensures b in s
  {
  }

  lemma RefersInside(g: Graph, a: Item, b: Item)
    requires WellFormed(g) && Refers(g, a, b)
    ensures b in Items(g)
  {
    match a {
      case V(v) => assert ValueOk(g, g.values[v]);
      case M(n) =>
        match b {
          case V(w) => assert MetadataOk(g, Some(ConstantAsMetadata(w)).value);
          case M(k) => assert MetadataOk(g, Some(MDNode(k)).value);
        }
    }
  }

  lemma TypeClosureClosed(g: Graph, roots: set<TypeId>)
    requires WellFormed(g) && roots <= g.types.Keys
    ensures TypesClosed(g, TypeClosure(g, roots)) && roots <= TypeClosure(g, roots)
  {
    forall r | r in roots
      ensures r in TypeClosure(g, roots)
    {
      assert TypePath(g, [r]);
    }
    forall t, u | t in TypeClosure(g, roots) && Subtype(g, t, u)
      ensures u in TypeClosure(g, roots)
    {
      var p :| TypePath(g, p) && p[0] in roots && p[|p| - 1] == t;
      assert TypePath(g, p + [u]);
    }
  }

  /** The closure is the least one: it lies in every closed set that holds the roots. */
  lemma TypeClosureLeast(g: Graph, roots: set<TypeId>, s: set<TypeId>)
    requires TypesClosed(g, s) && roots <= s
    ensures TypeClosure(g, roots) <= s
  {
    forall t | t in TypeClosure(g, roots)
      ensures t in s
    {
      var p :| TypePath(g, p) && p[0] in roots && p[|p| - 1] == t;
      TypePathStays(g, s, p);
    }
  }

  lemma {:induction false} TypePathStays(g: Graph, s: set<TypeId>, p: seq<TypeId>)
    requires TypesClosed(g, s) && TypePath(g, p) && p[0] in s
    ensures p[|p| - 1] in s
  {
    if |p| > 1 {
      TypePathStays(g, s, p[..|p| - 1]);
    }
  }

  // ---------------------------------------------------------------- what the module mentions directly

  /** The types and the values the module refers to itself. */
  datatype Roots = Roots(types: set<TypeId>, values: set<ValueId>) {
    function Plus(other: Roots): Roots { Roots(types + other.types, values + other.values) }
  }

  const NO_ROOTS := Roots({}, {})

  function OptionRoot(o: Option<ValueId>): Roots { Roots({}, if o.Some? then {o.value} else {}) }

  function ValueRoots(vs: seq<ValueId>): Roots { Roots({}, set v | v in vs) }

  function GlobalRoots(gs: seq<Global>): Roots {
    if gs == [] then NO_ROOTS
    else var x := gs[|gs| - 1];
         GlobalRoots(gs[..|gs| - 1]).Plus(Roots({x.ty}, OptionRoot(x.init).values))
  }

  /** Instruction operands that are instructions themselves are met on their own. */
  function OperandRoots(g: Graph, os: seq<Option<ValueId>>): Roots {
    Roots({}, set o | o in os && o.Some? && o.value in g.values && !g.values[o.value].Instruction? :: o.value)
  }

  function BlockRoots(g: Graph, block: seq<Instr>): Roots {
    if block == [] then NO_ROOTS
    else var x := block[|block| - 1];
         BlockRoots(g, block[..|block| - 1]).Plus(Roots({x.ty}, OperandRoots(g, x.operands).values))
  }

  function BlocksRoots(g: Graph, blocks: seq<seq<Instr>>): Roots {
    if blocks == [] then NO_ROOTS
    else BlocksRoots(g, blocks[..|blocks| - 1]).Plus(BlockRoots(g, blocks[|blocks| - 1]))
  }

  function FunctionRoots(g: Graph, f: Function): Roots {
    Roots({f.ty}, {}).Plus(ValueRoots(f.operands)).Plus(ValueRoots(f.args)).Plus(BlocksRoots(g, f.blocks))
  }

  function FunctionsRoots(g: Graph, fs: seq<Function>): Roots {
    if fs == [] then NO_ROOTS
    else FunctionsRoots(g, fs[..|fs| - 1]).Plus(FunctionRoots(g, fs[|fs| - 1]))
  }

  function ProgramRoots(g: Graph, m: Program): Roots {
    GlobalRoots(m.globals).Plus(GlobalRoots(m.aliases)).Plus(FunctionsRoots(g, m.functions))
  }

  // ---------------------------------------------------------------- the same, said of the whole program

  ghost predicate OfGlobal(gs: seq<Global>, t: TypeId) { exists x :: x in gs && x.ty == t }

  ghost predicate InitOf(gs: seq<Global>, v: ValueId) { exists x :: x in gs && x.init == Some(v) }

  ghost predicate OfInstr(block: seq<Instr>, t: TypeId) { exists x :: x in block && x.ty == t }

  /** An operand of an instruction that is not an instruction itself. */
  ghost predicate OperandOf(g: Graph, block: seq<Instr>, v: ValueId) {
    v in g.values && !g.values[v].Instruction? && exists x :: x in block && Some(v) in x.operands
  }

  /** The type of the function or of one of its instructions. */
  ghost predicate TypeIn(f: Function, t: TypeId) { f.ty == t || exists b :: b in f.blocks && OfInstr(b, t) }

  /** An operand or argument of the function, or an operand of one of its instructions. */
  ghost predicate ValueIn(g: Graph, f: Function, v: ValueId) {
    v in f.operands || v in f.args || exists b :: b in f.blocks && OperandOf(g, b, v)
  }

  ghost predicate MentionsType(m: Program, t: TypeId) {
    OfGlobal(m.globals, t) || OfGlobal(m.aliases, t) || exists f :: f in m.functions && TypeIn(f, t)
  }

  ghost predicate MentionsValue(g: Graph, m: Program, v: ValueId) {
    InitOf(m.globals, v) || InitOf(m.aliases, v) || exists f :: f in m.functions && ValueIn(g, f, v)
  }

  /** All that the program mentions, and nothing else. */
  ghost function Mentioned(g: Graph, m: Program): Roots {
    Roots(set t | t in g.types && MentionsType(m, t), set v | v in g.values && MentionsValue(g, m, v))
  }

  /** What the program mentions is there. */
  ghost predicate ProgramInside(g: Graph, m: Program) {
    && (forall t :: MentionsType(m, t) ==> t in g.types) && (forall v :: MentionsValue(g, m, v) ==> v in g.values)
    && ProgramOk(g, m)
  }

  lemma {:induction false} GlobalRootsAre(gs: seq<Global>)
    ensures forall t: TypeId :: t in GlobalRoots(gs).types <==> OfGlobal(gs, t)
    ensures forall v: ValueId :: v in GlobalRoots(gs).values <==> InitOf(gs, v)
  {
    if gs != [] {
      var init, x := gs[..|gs| - 1], gs[|gs| - 1];
      GlobalRootsAre(init);
      assert gs == init + [x];
      assert forall t: TypeId :: OfGlobal(gs, t) <==> OfGlobal(init, t) || x.ty == t;
      assert forall v: ValueId :: InitOf(gs, v) <==> InitOf(init, v) || x.init == Some(v);
    }
  }

  lemma {:induction false} BlockRootsAre(g: Graph, block: seq<Instr>)
    ensures forall t: TypeId :: t in BlockRoots(g, block).types <==> OfInstr(block, t)
    ensures forall v: ValueId :: v in BlockRoots(g, block).values <==> OperandOf(g, block, v)
  {
    if block != [] {
      var init, x := block[..|block| - 1], block[|block| - 1];
      BlockRootsAre(g, init);
      assert block == init + [x];
      assert forall t: TypeId :: OfInstr(block, t) <==> OfInstr(init, t) || x.ty == t;
      assert forall v: ValueId ::
          OperandOf(g, block, v) <==>
          OperandOf(g, init, v) || (v in g.values && !g.values[v].Instruction? && Some(v) in x.operands);
    }
  }

  lemma {:induction false} BlocksRootsAre(g: Graph, blocks: seq<seq<Instr>>)
    ensures forall t: TypeId :: t in BlocksRoots(g, blocks).types <==> exists b :: b in blocks && OfInstr(b, t)
    ensures forall v: ValueId :: v in BlocksRoots(g, blocks).values <==> exists b :: b in blocks && OperandOf(g, b, v)
  {
    if blocks != [] {
      var init, last := blocks[..|blocks| - 1], blocks[|blocks| - 1];
      BlocksRootsAre(g, init);
      BlockRootsAre(g, last);
      assert blocks == init + [last];
    }
  }

  lemma FunctionRootsAre(g: Graph, f: Function)
    ensures forall t: TypeId :: t in FunctionRoots(g, f).types <==> TypeIn(f, t)
    ensures forall v: ValueId :: v in FunctionRoots(g, f).values <==> ValueIn(g, f, v)
  {
    BlocksRootsAre(g, f.blocks);
  }

  lemma {:induction false} FunctionsRootsAre(g: Graph, fs: seq<Function>)
    ensures forall t: TypeId :: t in FunctionsRoots(g, fs).types <==> exists f :: f in fs && TypeIn(f, t)
    ensures forall v: ValueId :: v in FunctionsRoots(g, fs).values <==> exists f :: f in fs && ValueIn(g, f, v)
  {
    if fs != [] {
      var init, last := fs[..|fs| - 1], fs[|fs| - 1];
      FunctionsRootsAre(g, init);
      FunctionRootsAre(g, last);
      assert fs == init + [last];
      assert forall t: TypeId :: t in FunctionsRoots(g, fs).types <==>
                                 t in FunctionsRoots(g, init).types || TypeIn(last, t);
      assert forall v: ValueId :: v in FunctionsRoots(g, fs).values <==>
                                  v in FunctionsRoots(g, init).values || ValueIn(g, last, v);
    }
  }

  /** The roots the walk collects are what the program mentions. */
  lemma RootsAreMentioned(g: Graph, m: Program)
    requires ProgramInside(g, m)
    ensures ProgramRoots(g, m) == Mentioned(g, m) && Inside(g, ProgramRoots(g, m))
  {
    GlobalRootsAre(m.globals);
    GlobalRootsAre(m.aliases);
    FunctionsRootsAre(g, m.functions);
    assert forall t: TypeId :: t in ProgramRoots(g, m).types <==> MentionsType(m, t);
    assert forall v: ValueId :: v in ProgramRoots(g, m).values <==> MentionsValue(g, m, v);
  }

  /** The root types: those mentioned, and those of every constant reached from a mentioned value. */
  ghost function RootTypes(g: Graph, r: Roots): set<TypeId> {
    r.types + set c | c in g.values && g.values[c].Constant? && V(c) in ReachedItems(g, r.values) :: g.values[c].ty
  }

  // ---------------------------------------------------------------- the finder

  predicate NamedStruct(g: Graph, t: TypeId) {
    t in g.types && g.types[t].kind.Struct? && g.types[t].kind.hasName
  }

  class Finder {
    const g: Graph
    var visitedConstants: set<ValueId>
    var visitedMetadata: set<NodeId>
    var visitedTypes: set<TypeId>
    var structTypes: seq<TypeId>
    /** The types that went through the worklist, in that order. */
    ghost var processed: seq<TypeId>

    constructor (g: Graph)
      requires WellFormed(g)
      ensures this.g == g && visitedConstants == {} && visitedMetadata == {}
      ensures visitedTypes == {} && structTypes == [] && processed == [] && TypesValid()
    {
      this.g := g;
      visitedConstants, visitedMetadata, visitedTypes, structTypes := {}, {}, {}, [];
      processed := [];
    }

    /** Between calls the visited types are closed, and each was processed once. */
    ghost predicate TypesValid()
      reads this
    {
      WellFormed(g) && TypesClosed(g, visitedTypes) && EachOnce(g, processed, structTypes, visitedTypes)
    }

    method IncorporateType(ty: TypeId, ghost bound: set<TypeId>)
      requires TypesValid() && ty in g.types
      requires TypesClosed(g, bound) && ty in bound && visitedTypes <= bound
      modifies `visitedTypes, `structTypes, `processed
      ensures TypesValid() && old(visitedTypes) + {ty} <= visitedTypes <= bound
      ensures old(processed) <= processed
    {
      if ty in visitedTypes {
        return;
      }
      visitedTypes := visitedTypes + {ty};
      var worklist := [ty];
      assert visitedTypes - Pending(worklist) == old(visitedTypes);
      while worklist != []
        invariant old(visitedTypes) + {ty} <= visitedTypes <= bound
        invariant WorkValid(g, visitedTypes, worklist, processed, structTypes) && old(processed) <= processed
        decreases |g.types.Keys - visitedTypes| + |worklist|
      {
        worklist := ProcessTop(worklist, bound);
      }
      assert visitedTypes - Pending([]) == visitedTypes;
    }

    /** One turn of the worklist loop. */
    method ProcessTop(worklist0: seq<TypeId>, ghost bound: set<TypeId>) returns (worklist: seq<TypeId>)
      requires worklist0 != [] && WorkValid(g, visitedTypes, worklist0, processed, structTypes)
      requires TypesClosed(g, bound) && visitedTypes <= bound
      modifies `visitedTypes, `structTypes, `processed
      ensures WorkValid(g, visitedTypes, worklist, processed, structTypes) && old(visitedTypes) <= visitedTypes <= bound
      ensures processed == old(processed) + [worklist0[|worklist0| - 1]]
      ensures |g.types.Keys - visitedTypes| + |worklist| < |g.types.Keys - old(visitedTypes)| + |worklist0|
    {
      PopOne(worklist0);
      var t := worklist0[|worklist0| - 1];
      assert t in Pending(worklist0);
      worklist := worklist0[..|worklist0| - 1];
      if NamedStruct(g, t) {
        structTypes := structTypes + [t];
      }
      worklist := PushSubtypes(t, worklist, bound);
      processed := processed + [t];
      ProcessedOne(g, old(visitedTypes), worklist0, old(processed), old(structTypes), visitedTypes, worklist,
          structTypes);
    }

    method MarkAndPush(u: TypeId, worklist0: seq<TypeId>) returns (worklist: seq<TypeId>)
      requires Distinct(worklist0) && Pending(worklist0) <= visitedTypes && u in g.types
      modifies `visitedTypes
      ensures visitedTypes == old(visitedTypes) + {u}
      ensures Distinct(worklist) && Pending(worklist) == Pending(worklist0) + (visitedTypes - old(visitedTypes))
      ensures |g.types.Keys - visitedTypes| + |worklist| == |g.types.Keys - old(visitedTypes)| + |worklist0|
    {
      worklist := worklist0;
      if u !in visitedTypes {
        PushOne(worklist, u);
        OneFewer(g.types.Keys, visitedTypes, u);
        visitedTypes := visitedTypes + {u};
        worklist := worklist + [u];
      }
      assert old(visitedTypes) + {u} == visitedTypes;
    }

    /** The inner loop: unvisited subtypes, last first, are marked and pushed. */
    method PushSubtypes(t: TypeId, worklist0: seq<TypeId>, ghost bound: set<TypeId>) returns (worklist: seq<TypeId>)
      requires TypesClosed(g, bound) && t in visitedTypes && visitedTypes <= bound && t in g.types
      requires Distinct(worklist0) && Pending(worklist0) <= visitedTypes
      modifies `visitedTypes
      ensures old(visitedTypes) <= visitedTypes <= bound
      ensures Distinct(worklist) && Pending(worklist) == Pending(worklist0) + (visitedTypes - old(visitedTypes))
      ensures forall u :: Subtype(g, t, u) ==> u in visitedTypes
      ensures |g.types.Keys - visitedTypes| + |worklist| == |g.types.Keys - old(visitedTypes)| + |worklist0|
    {
      worklist := worklist0;
      var subtypes := g.types[t].subtypes;
      var i := |subtypes|;
      while i > 0
        invariant 0 <= i <= |subtypes| && old(visitedTypes) <= visitedTypes <= bound
        invariant Distinct(worklist) && Pending(worklist) == Pending(worklist0) + (visitedTypes - old(visitedTypes))
        invariant Pending(subtypes[i..]) <= visitedTypes
        invariant |g.types.Keys - visitedTypes| + |worklist| == |g.types.Keys - old(visitedTypes)| + |worklist0|
      {
        i := i - 1;
        var u := subtypes[i];
        PendingFrom(subtypes, i);
        assert Subtype(g, t, u);
        worklist := MarkAndPush(u, worklist);
      }
      assert subtypes[0..] == subtypes;
    }

    /**
     What holds between calls of the value walk: all that was visited is reachable, and the
     types of the visited constants have been incorporated.
     */
    ghost predicate Valid(reach: set<Item>, bound: set<TypeId>)
      reads this
    {
      && TypesValid() && visitedTypes <= bound && TypesClosed(g, bound) && ItemsClosed(g, reach)
      && (forall c :: c in visitedConstants ==>
            V(c) in reach && c in g.values && g.values[c].Constant? && g.values[c].ty in visitedTypes)
      && (forall n :: n in visitedMetadata ==> M(n) in reach && n in g.nodes)
      && (forall c :: V(c) in reach && c in g.values && g.values[c].Constant? ==> g.values[c].ty in bound)
    }

    ghost function Unvisited(): nat
      reads this
    {
      |g.values.Keys - visitedConstants| + |g.nodes.Keys - visitedMetadata|
    }

    method IncorporateMDNode(n: NodeId, ghost reach: set<Item>, ghost bound: set<TypeId>)
      requires Valid(reach, bound) && n in g.nodes && M(n) in reach
      modifies this
      ensures Valid(reach, bound) && n in visitedMetadata
      ensures Grown(g, old(visitedConstants), old(visitedMetadata), visitedConstants, visitedMetadata)
      ensures old(visitedTypes) <= visitedTypes
      decreases Unvisited(), 0
    {
      if n in visitedMetadata {
        return;
      }
      OneFewer(g.nodes.Keys, visitedMetadata, n);
      visitedMetadata := visitedMetadata + {n};
      ghost var cs0, ms0 := visitedConstants, visitedMetadata;
      var operands := g.nodes[n];
      for i := 0 to |operands|
        invariant Valid(reach, bound) && old(visitedTypes) <= visitedTypes
        invariant Grown(g, cs0, ms0, visitedConstants, visitedMetadata)
        invariant OperandsCovered(g, visitedConstants, visitedMetadata, operands[..i])
      {
        Fewer(g, cs0, ms0, visitedConstants, visitedMetadata);
        ghost var cs, ms := visitedConstants, visitedMetadata;
        IncorporateOperand(n, operands[i], reach, bound);
        GrownTransitive(g, cs0, ms0, cs, ms, visitedConstants, visitedMetadata);
        OperandsStep(g, cs, ms, visitedConstants, visitedMetadata, operands, i);
      }
      assert operands[..|operands|] == operands;
      NodeExpanded(g, visitedConstants, visitedMetadata, n);
    }

    method IncorporateOperand(n: NodeId, o: Option<Metadata>, ghost reach: set<Item>, ghost bound: set<TypeId>)
      requires Valid(reach, bound) && n in g.nodes && M(n) in reach && o in g.nodes[n]
      modifies this
      ensures Valid(reach, bound) && (o.Some? ==> MetadataCovered(g, visitedConstants, visitedMetadata, o.value))
      ensures Grown(g, old(visitedConstants), old(visitedMetadata), visitedConstants, visitedMetadata)
      ensures old(visitedTypes) <= visitedTypes
      decreases Unvisited(), 3
    {
      if o.Some? {
        assert MetadataOk(g, o.value);
        match o.value {
          case MDNode(k) =>
            assert Refers(g, M(n), M(k));
            IncorporateMDNode(k, reach, bound);
          case ConstantAsMetadata(c) =>
            assert Refers(g, M(n), V(c));
            IncorporateValue(c, reach, bound);
          case _ =>
        }
      }
    }

    method IncorporateValue(v: ValueId, ghost reach: set<Item>, ghost bound: set<TypeId>)
      requires Valid(reach, bound) && v in g.values && V(v) in reach
      modifies this
      ensures Valid(reach, bound) && Covered(g, visitedConstants, visitedMetadata, V(v))
      ensures Grown(g, old(visitedConstants), old(visitedMetadata), visitedConstants, visitedMetadata)
      ensures old(visitedTypes) <= visitedTypes
      decreases Unvisited(), if g.values[v].MetadataAsValue? then 2 else 1
    {
      assert ValueOk(g, g.values[v]);
      match g.values[v] {
        case MetadataAsValue(md) =>
          match md {
            case MDNode(n) =>
              assert Refers(g, V(v), M(n));
              IncorporateMDNode(n, reach, bound);
            case ConstantAsMetadata(w) =>
              assert Refers(g, V(v), V(w));
              IncorporateValue(w, reach, bound);
            case LocalAsMetadata(w) =>
              assert Refers(g, V(v), V(w));
              IncorporateValue(w, reach, bound);
            case OtherMetadata =>
          }
        case Constant(ty, operands) =>
          IncorporateConstant(v, ty, operands, reach, bound);
        case _ =>
      }
    }

    /** The part of `incorporate_value` that is reached for a constant. */
    method IncorporateConstant(v: ValueId, ty: TypeId, operands: seq<ValueId>, ghost reach: set<Item>,
                               ghost bound: set<TypeId>)
      requires Valid(reach, bound) && v in g.values && V(v) in reach && g.values[v] == Constant(ty, operands)
      modifies this
      ensures Valid(reach, bound) && v in visitedConstants
      ensures Grown(g, old(visitedConstants), old(visitedMetadata), visitedConstants, visitedMetadata)
      ensures old(visitedTypes) <= visitedTypes
      decreases Unvisited(), 0
    {
      if v in visitedConstants {
        return;
      }
      MarkConstant(v, ty, reach, bound);
      WalkConstant(v, operands, reach, bound);
      GrownByOne(g, old(visitedConstants), old(visitedMetadata), v, visitedConstants, visitedMetadata);
    }

    method WalkConstant(v: ValueId, operands: seq<ValueId>, ghost reach: set<Item>, ghost bound: set<TypeId>)
      requires Valid(reach, bound) && v in g.values && V(v) in reach
      requires g.values[v].Constant? && g.values[v].operands == operands
      modifies this
      ensures Valid(reach, bound) && old(visitedTypes) <= visitedTypes
      ensures Grown(g, old(visitedConstants), old(visitedMetadata), visitedConstants, visitedMetadata)
      ensures Expanded(g, visitedConstants, visitedMetadata, V(v))
      decreases Unvisited(), 5
    {
      OperandsReached(g, reach, v);
      IncorporateOperands(operands, reach, bound);
      assert operands[..|operands|] == operands;
      ConstantExpanded(g, visitedConstants, visitedMetadata, v);
    }

    method MarkConstant(v: ValueId, ty: TypeId, ghost reach: set<Item>, ghost bound: set<TypeId>)
      requires Valid(reach, bound) && v in g.values && V(v) in reach && g.values[v].Constant? && g.values[v].ty == ty
      requires v !in visitedConstants
      modifies `visitedConstants, `visitedTypes, `structTypes, `processed
      ensures Valid(reach, bound) && visitedConstants == old(visitedConstants) + {v}
      ensures old(visitedTypes) <= visitedTypes && Unvisited() < old(Unvisited())
    {
      assert ValueOk(g, g.values[v]);
      OneFewer(g.values.Keys, visitedConstants, v);
      IncorporateType(ty, bound);
      visitedConstants := visitedConstants + {v};
    }

    /** The first `i` operands are done, starting from `cs0`, `ms0` and the types `ts0`. */
    ghost predicate Walked(operands: seq<ValueId>, i: nat, cs0: set<ValueId>, ms0: set<NodeId>, ts0: set<TypeId>,
                           reach: set<Item>, bound: set<TypeId>)
      requires i <= |operands|
      reads this
    {
      && Valid(reach, bound) && ts0 <= visitedTypes && Grown(g, cs0, ms0, visitedConstants, visitedMetadata)
      && ValuesCovered(g, visitedConstants, visitedMetadata, operands[..i])
    }

    method IncorporateOperands(operands: seq<ValueId>, ghost reach: set<Item>, ghost bound: set<TypeId>)
      requires Valid(reach, bound) && forall o :: o in operands ==> o in g.values && V(o) in reach
      modifies this
      ensures Walked(operands, |operands|, old(visitedConstants), old(visitedMetadata), old(visitedTypes), reach, bound)
      decreases Unvisited(), 4
    {
      ghost var cs0, ms0, ts0 := visitedConstants, visitedMetadata, visitedTypes;
      for i := 0 to |operands|
        invariant Walked(operands, i, cs0, ms0, ts0, reach, bound)
      {
        Fewer(g, cs0, ms0, visitedConstants, visitedMetadata);
        NextOperand(operands, i, cs0, ms0, ts0, reach, bound);
      }
    }

    method NextOperand(operands: seq<ValueId>, i: nat, ghost cs0: set<ValueId>, ghost ms0: set<NodeId>,
                       ghost ts0: set<TypeId>, ghost reach: set<Item>, ghost bound: set<TypeId>)
      requires i < |operands| && operands[i] in g.values && V(operands[i]) in reach
      requires Walked(operands, i, cs0, ms0, ts0, reach, bound)
      modifies this
      ensures Walked(operands, i + 1, cs0, ms0, ts0, reach, bound)
      decreases Unvisited(), 3
    {
      ghost var cs, ms := visitedConstants, visitedMetadata;
      IncorporateValue(operands[i], reach, bound);
      GrownTransitive(g, cs0, ms0, cs, ms, visitedConstants, visitedMetadata);
      ValuesStep(g, cs, ms, visitedConstants, visitedMetadata, operands, i);
    }

    /** Everything in `done` has been incorporated, and nothing visited is left unfinished. */
    ghost predicate Progress(all: Roots, done: Roots)
      reads this
    {
      && Valid(ReachedItems(g, all.values), TypeClosure(g, RootTypes(g, all)))
      && Grown(g, {}, {}, visitedConstants, visitedMetadata)
      && done.types <= visitedTypes
      && ValueSetCovered(g, visitedConstants, visitedMetadata, done.values)
    }

    method MeetType(t: TypeId, ghost all: Roots, ghost done: Roots)
      requires Progress(all, done) && t in all.types && t in g.types
      modifies this
      ensures Progress(all, done.Plus(Roots({t}, {})))
    {
      assert t in RootTypes(g, all) && TypePath(g, [t]);
      IncorporateType(t, TypeClosure(g, RootTypes(g, all)));
    }

    method MeetOption(o: Option<ValueId>, ghost all: Roots, ghost done: Roots)
      requires Progress(all, done) && Inside(g, all) && OptionRoot(o).values <= all.values
      modifies this
      ensures Progress(all, done.Plus(OptionRoot(o)))
    {
      if o.Some? {
        MeetValue(o.value, all, done);
      } else {
        PlusNone(done);
      }
    }

    method MeetValue(v: ValueId, ghost all: Roots, ghost done: Roots)
      requires Progress(all, done) && v in all.values && v in g.values
      modifies this
      ensures Progress(all, done.Plus(Roots({}, {v})))
    {
      assert ItemPath(g, [V(v)]);
      ghost var cs, ms := visitedConstants, visitedMetadata;
      IncorporateValue(v, ReachedItems(g, all.values), TypeClosure(g, RootTypes(g, all)));
      GrownTransitive(g, {}, {}, cs, ms, visitedConstants, visitedMetadata);
      ValueSetStep(g, cs, ms, visitedConstants, visitedMetadata, done.values, v);
    }

    method MeetGlobals(gs: seq<Global>, ghost all: Roots, ghost done: Roots)
      requires Progress(all, done) && Inside(g, all) && Within(GlobalRoots(gs), all)
      modifies this
      ensures Progress(all, done.Plus(GlobalRoots(gs)))
    {
      PlusNone(done);
      for i := 0 to |gs|
        invariant Progress(all, done.Plus(GlobalRoots(gs[..i])))
      {
        GlobalRootsStep(gs, i, all);
        ghost var d := done.Plus(GlobalRoots(gs[..i]));
        MeetType(gs[i].ty, all, d);
        MeetOption(gs[i].init, all, d.Plus(Roots({gs[i].ty}, {})));
        PlusPair(done, GlobalRoots(gs[..i]), gs[i].ty, OptionRoot(gs[i].init).values);
      }
      assert gs[..|gs|] == gs;
    }

    method MeetValues(vs: seq<ValueId>, ghost all: Roots, ghost done: Roots)
      requires Progress(all, done) && Inside(g, all) && Within(ValueRoots(vs), all)
      modifies this
      ensures Progress(all, done.Plus(ValueRoots(vs)))
    {
      PlusNone(done);
      assert ValueRoots(vs[..0]) == NO_ROOTS;
      for i := 0 to |vs|
        invariant Progress(all, done.Plus(ValueRoots(vs[..i])))
      {
        assert vs[..i + 1] == vs[..i] + [vs[i]];
        assert ValueRoots(vs[..i + 1]).values == ValueRoots(vs[..i]).values + {vs[i]};
        MeetValue(vs[i], all, done.Plus(ValueRoots(vs[..i])));
        PlusAssociative(done, ValueRoots(vs[..i]), Roots({}, {vs[i]}));
      }
      assert vs[..|vs|] == vs;
    }

    method MeetOperands(os: seq<Option<ValueId>>, ghost all: Roots, ghost done: Roots)
      requires Progress(all, done) && Inside(g, all) && Within(OperandRoots(g, os), all)
      requires forall o :: o in os && o.Some? ==> o.value in g.values
      modifies this
      ensures Progress(all, done.Plus(OperandRoots(g, os)))
    {
      PlusNone(done);
      assert OperandRoots(g, os[..0]) == NO_ROOTS;
      for i := 0 to |os|
        invariant Progress(all, done.Plus(OperandRoots(g, os[..i])))
      {
        assert os[..i + 1] == os[..i] + [os[i]];
        ghost var d := done.Plus(OperandRoots(g, os[..i]));
        if os[i].Some? && !g.values[os[i].value].Instruction? {
          assert OperandRoots(g, os[..i + 1]).values == OperandRoots(g, os[..i]).values + {os[i].value};
          MeetValue(os[i].value, all, d);
          PlusAssociative(done, OperandRoots(g, os[..i]), Roots({}, {os[i].value}));
        } else {
          assert OperandRoots(g, os[..i + 1]).values == OperandRoots(g, os[..i]).values;
        }
      }
      assert os[..|os|] == os;
    }

    method MeetBlock(block: seq<Instr>, ghost all: Roots, ghost done: Roots)
      requires Progress(all, done) && Inside(g, all) && Within(BlockRoots(g, block), all) && BlockOk(g, block)
      modifies this
      ensures Progress(all, done.Plus(BlockRoots(g, block)))
    {
      PlusNone(done);
      for i := 0 to |block|
        invariant Progress(all, done.Plus(BlockRoots(g, block[..i])))
      {
        BlockRootsStep(g, block, i, all);
        ghost var d := done.Plus(BlockRoots(g, block[..i]));
        MeetType(block[i].ty, all, d);
        MeetOperands(block[i].operands, all, d.Plus(Roots({block[i].ty}, {})));
        PlusPair(done, BlockRoots(g, block[..i]), block[i].ty, OperandRoots(g, block[i].operands).values);
      }
      assert block[..|block|] == block;
    }

    method MeetBlocks(blocks: seq<seq<Instr>>, ghost all: Roots, ghost done: Roots)
      requires Progress(all, done) && Inside(g, all) && Within(BlocksRoots(g, blocks), all)
      requires forall b :: b in blocks ==> BlockOk(g, b)
      modifies this
      ensures Progress(all, done.Plus(BlocksRoots(g, blocks)))
    {
      PlusNone(done);
      for i := 0 to |blocks|
        invariant Progress(all, done.Plus(BlocksRoots(g, blocks[..i])))
      {
        BlocksRootsStep(g, blocks, i, all);
        MeetBlock(blocks[i], all, done.Plus(BlocksRoots(g, blocks[..i])));
        PlusAssociative(done, BlocksRoots(g, blocks[..i]), BlockRoots(g, blocks[i]));
      }
      assert blocks[..|blocks|] == blocks;
    }

    method MeetFunction(f: Function, ghost all: Roots, ghost done: Roots)
      requires Progress(all, done) && Inside(g, all) && Within(FunctionRoots(g, f), all)
      requires forall b :: b in f.blocks ==> BlockOk(g, b)
      modifies this
      ensures Progress(all, done.Plus(FunctionRoots(g, f)))
    {
      ghost var r1 := Roots({f.ty}, {});
      ghost var r2 := r1.Plus(ValueRoots(f.operands));
      ghost var r3 := r2.Plus(ValueRoots(f.args));
      MeetType(f.ty, all, done);
      MeetValues(f.operands, all, done.Plus(r1));
      PlusAssociative(done, r1, ValueRoots(f.operands));
      MeetValues(f.args, all, done.Plus(r2));
      PlusAssociative(done, r2, ValueRoots(f.args));
      MeetBlocks(f.blocks, all, done.Plus(r3));
      PlusAssociative(done, r3, BlocksRoots(g, f.blocks));
    }

    method MeetFunctions(fs: seq<Function>, ghost all: Roots, ghost done: Roots)
      requires Progress(all, done) && Inside(g, all) && Within(FunctionsRoots(g, fs), all)
      requires forall f, b :: f in fs && b in f.blocks ==> BlockOk(g, b)
      modifies this
      ensures Progress(all, done.Plus(FunctionsRoots(g, fs)))
    {
      PlusNone(done);
      for i := 0 to |fs|
        invariant Progress(all, done.Plus(FunctionsRoots(g, fs[..i])))
      {
        FunctionsRootsStep(g, fs, i, all);
        MeetFunction(fs[i], all, done.Plus(FunctionsRoots(g, fs[..i])));
        PlusAssociative(done, FunctionsRoots(g, fs[..i]), FunctionRoots(g, fs[i]));
      }
      assert fs[..|fs|] == fs;
    }

    /**
     `on_module`: the visited types end up being exactly the subtype closure of the types the
     program mentions and of those of the constants it reaches.
     */
    method OnModule(m: Program)
      requires TypesValid() && visitedTypes == {} && visitedConstants == {} && visitedMetadata == {}
      requires ProgramInside(g, m)
      modifies this
      ensures TypesValid()
      ensures visitedTypes == TypeClosure(g, RootTypes(g, Mentioned(g, m)))
      ensures visitedConstants == set c | c in g.values && g.values[c].Constant?
              && V(c) in ReachedItems(g, Mentioned(g, m).values)
      ensures visitedMetadata == set n | n in g.nodes && M(n) in ReachedItems(g, Mentioned(g, m).values)
      ensures EachOnce(g, processed, structTypes, visitedTypes)
      ensures forall t :: t in structTypes <==> t in visitedTypes && g.types[t].kind == Struct(true)
    {
      RootsAreMentioned(g, m);
      Walk(m);
      NamedStructsAre(g, processed);
      assert forall t :: t in visitedTypes <==> t in processed;
    }

    method Walk(m: Program)
      requires TypesValid() && visitedTypes == {} && visitedConstants == {} && visitedMetadata == {}
      requires Inside(g, ProgramRoots(g, m)) && ProgramOk(g, m)
      modifies this
      ensures TypesValid()
      ensures visitedTypes == TypeClosure(g, RootTypes(g, ProgramRoots(g, m)))
      ensures visitedConstants == set c | c in g.values && g.values[c].Constant?
              && V(c) in ReachedItems(g, ProgramRoots(g, m).values)
      ensures visitedMetadata == set n | n in g.nodes && M(n) in ReachedItems(g, ProgramRoots(g, m).values)
    {
      ghost var all := ProgramRoots(g, m);
      StartProgress(all);
      MeetGlobals(m.globals, all, NO_ROOTS);
      PlusNone(GlobalRoots(m.globals));
      MeetGlobals(m.aliases, all, GlobalRoots(m.globals));
      MeetFunctions(m.functions, all, GlobalRoots(m.globals).Plus(GlobalRoots(m.aliases)));
      Finished(all);
    }

    lemma StartProgress(all: Roots)
      requires TypesValid() && visitedTypes == {} && visitedConstants == {} && visitedMetadata == {}
      requires Inside(g, all)
      ensures Progress(all, NO_ROOTS)
    {
      ReachedItemsClosed(g, all.values);
      RootTypesInside(g, all);
      TypeClosureClosed(g, RootTypes(g, all));
    }

    lemma Finished(all: Roots)
      requires Progress(all, all) && Inside(g, all)
      ensures visitedTypes == TypeClosure(g, RootTypes(g, all))
      ensures visitedConstants == set c | c in g.values && g.values[c].Constant? && V(c) in ReachedItems(g, all.values)
      ensures visitedMetadata == set n | n in g.nodes && M(n) in ReachedItems(g, all.values)
    {
      forall a | a in ReachedItems(g, all.values)
        ensures Covered(g, visitedConstants, visitedMetadata, a)
      {
        ReachedIsCovered(g, visitedConstants, visitedMetadata, all.values, a);
      }
      assert RootTypes(g, all) <= visitedTypes;
      TypeClosureLeast(g, RootTypes(g, all), visitedTypes);
    }
  }

  ghost predicate Inside(g: Graph, r: Roots) { r.types <= g.types.Keys && r.values <= g.values.Keys }

  predicate Within(r: Roots, all: Roots) { r.types <= all.types && r.values <= all.values }

  ghost predicate BlockOk(g: Graph, block: seq<Instr>) {
    forall x, o :: x in block && o in x.operands && o.Some? ==> o.value in g.values
  }

  ghost predicate ProgramOk(g: Graph, m: Program) {
    forall f, b :: f in m.functions && b in f.blocks ==> BlockOk(g, b)
  }

  lemma PlusNone(r: Roots)
    ensures r.Plus(NO_ROOTS) == r && NO_ROOTS.Plus(r) == r
  {
  }

  lemma PlusAssociative(a: Roots, b: Roots, c: Roots)
    ensures a.Plus(b).Plus(c) == a.Plus(b.Plus(c))
  {
  }

  lemma PlusPair(a: Roots, b: Roots, t: TypeId, vs: set<ValueId>)
    ensures a.Plus(b).Plus(Roots({t}, {})).Plus(Roots({}, vs)) == a.Plus(b.Plus(Roots({t}, vs)))
  {
  }

  lemma {:induction false} GlobalRootsStep(gs: seq<Global>, i: nat, all: Roots)
    requires i < |gs| && Within(GlobalRoots(gs), all)
    ensures GlobalRoots(gs[..i + 1]) == GlobalRoots(gs[..i]).Plus(Roots({gs[i].ty}, OptionRoot(gs[i].init).values))
    ensures Within(Roots({gs[i].ty}, OptionRoot(gs[i].init).values), all)
  {
    assert gs[..i + 1][..i] == gs[..i];
    if i + 1 < |gs| {
      assert gs[..|gs| - 1][..i + 1] == gs[..i + 1] && gs[..|gs| - 1][..i] == gs[..i];
      GlobalRootsStep(gs[..|gs| - 1], i, all);
    } else {
      assert gs[..i + 1] == gs;
    }
  }

  lemma {:induction false} BlockRootsStep(g: Graph, block: seq<Instr>, i: nat, all: Roots)
    requires i < |block| && Within(BlockRoots(g, block), all)
    ensures BlockRoots(g, block[..i + 1]) ==
            BlockRoots(g, block[..i]).Plus(Roots({block[i].ty}, OperandRoots(g, block[i].operands).values))
    ensures Within(Roots({block[i].ty}, OperandRoots(g, block[i].operands).values), all)
  {
    assert block[..i + 1][..i] == block[..i];
    if i + 1 < |block| {
      assert block[..|block| - 1][..i + 1] == block[..i + 1] && block[..|block| - 1][..i] == block[..i];
      BlockRootsStep(g, block[..|block| - 1], i, all);
    } else {
      assert block[..i + 1] == block;
    }
  }

  lemma {:induction false} BlocksRootsStep(g: Graph, blocks: seq<seq<Instr>>, i: nat, all: Roots)
    requires i < |blocks| && Within(BlocksRoots(g, blocks), all)
    ensures BlocksRoots(g, blocks[..i + 1]) == BlocksRoots(g, blocks[..i]).Plus(BlockRoots(g, blocks[i]))
    ensures Within(BlockRoots(g, blocks[i]), all)
  {
    assert blocks[..i + 1][..i] == blocks[..i];
    if i + 1 < |blocks| {
      assert blocks[..|blocks| - 1][..i + 1] == blocks[..i + 1] && blocks[..|blocks| - 1][..i] == blocks[..i];
      BlocksRootsStep(g, blocks[..|blocks| - 1], i, all);
    } else {
      assert blocks[..i + 1] == blocks;
    }
  }

  lemma {:induction false} FunctionsRootsStep(g: Graph, fs: seq<Function>, i: nat, all: Roots)
    requires i < |fs| && Within(FunctionsRoots(g, fs), all)
    ensures FunctionsRoots(g, fs[..i + 1]) == FunctionsRoots(g, fs[..i]).Plus(FunctionRoots(g, fs[i]))
    ensures Within(FunctionRoots(g, fs[i]), all)
  {
    assert fs[..i + 1][..i] == fs[..i];
    if i + 1 < |fs| {
      assert fs[..|fs| - 1][..i + 1] == fs[..i + 1] && fs[..|fs| - 1][..i] == fs[..i];
      FunctionsRootsStep(g, fs[..|fs| - 1], i, all);
    } else {
      assert fs[..i + 1] == fs;
    }
  }

  lemma RootTypesInside(g: Graph, r: Roots)
    requires WellFormed(g) && Inside(g, r)
    ensures RootTypes(g, r) <= g.types.Keys && RootTypes(g, r) <= TypeClosure(g, RootTypes(g, r))
  {
    forall c | c in g.values && g.values[c].Constant?
      ensures g.values[c].ty in g.types
    {
      assert ValueOk(g, g.values[c]);
    }
    TypeClosureClosed(g, RootTypes(g, r));
  }

  /** A finished walk that covers the roots covers everything reachable from them. */
  lemma ReachedIsCovered(g: Graph, cs: set<ValueId>, ms: set<NodeId>, roots: set<ValueId>, a: Item)
    requires WellFormed(g) && Grown(g, {}, {}, cs, ms) && ValueSetCovered(g, cs, ms, roots)
    requires a in ReachedItems(g, roots)
    ensures Covered(g, cs, ms, a)
  {
    var p: seq<Item> :| ItemPath(g, p) && p[0].V? && p[0].v in roots && p[|p| - 1] == a;
    PathCovered(g, cs, ms, p);
  }

  lemma {:induction false} PathCovered(g: Graph, cs: set<ValueId>, ms: set<NodeId>, p: seq<Item>)
    requires WellFormed(g) && Grown(g, {}, {}, cs, ms) && ItemPath(g, p) && Covered(g, cs, ms, p[0])
    ensures Covered(g, cs, ms, p[|p| - 1])
  {
    if |p| > 1 {
      PathCovered(g, cs, ms, p[..|p| - 1]);
      CoveredStep(g, cs, ms, p[|p| - 2], p[|p| - 1]);
    }
  }

  lemma CoveredStep(g: Graph, cs: set<ValueId>, ms: set<NodeId>, a: Item, b: Item)
    requires WellFormed(g) && Grown(g, {}, {}, cs, ms) && Covered(g, cs, ms, a) && Refers(g, a, b)
    ensures Covered(g, cs, ms, b)
  {
    match a {
      case M(n) => assert n in ms - {};
      case V(v) =>
        assert ValueOk(g, g.values[v]);
        if g.values[v].Constant? { assert v in cs - {}; }
    }
  }

  // ---------------------------------------------------------------- the analysis

  /** `largest` is the greatest integer width among `types`, or -1 if there is no integer type. */
  ghost predicate IsLargestInt(g: Graph, types: set<TypeId>, largest: int) {
    && (forall t :: t in types && t in g.types && g.types[t].kind.Integer? ==> g.types[t].kind.width <= largest)
    && (largest == -1 ||
        exists t :: t in types && t in g.types && g.types[t].kind.Integer? && g.types[t].kind.width == largest)
    && largest >= -1
  }

  /** `run_analysis`; the widths fit the `int` they are converted to. */
  method RunAnalysis(g: Graph, m: Program) returns (largestInt: int)
    requires WellFormed(g) && ProgramInside(g, m)
    ensures IsLargestInt(g, TypeClosure(g, RootTypes(g, Mentioned(g, m))), largestInt)
  {
    largestInt := -1;
    var finder := new Finder(g);
    finder.OnModule(m);
    var todo := finder.visitedTypes;
    while todo != {}
      invariant todo <= finder.visitedTypes
      invariant IsLargestInt(g, finder.visitedTypes - todo, largestInt)
    {
      var t :| t in todo;
      ghost var before := finder.visitedTypes - todo;
      todo := todo - {t};
      assert finder.visitedTypes - todo == before + {t};
      if g.types[t].kind.Integer? && g.types[t].kind.width > largestInt {
        largestInt := g.types[t].kind.width;
      }
    }
    assert finder.visitedTypes - {} == finder.visitedTypes;
  }

  /** `v` stands for metadata that leads to the constant `c` through a node within a node. */
  ghost predicate LeadsTo(g: Graph, v: ValueId, n: NodeId, k: NodeId, c: ValueId) {
    && v in g.values && g.values[v] == MetadataAsValue(MDNode(n))
    && n in g.nodes && Some(MDNode(k)) in g.nodes[n] && k in g.nodes && Some(ConstantAsMetadata(c)) in g.nodes[k]
  }

  /**
   An integer type counts wherever it hides: say below the type of an operand of a constant
   that metadata leads to, which an instruction has as its operand.
   */
  lemma HiddenIntegerCounts(g: Graph, m: Program, f: Function, block: seq<Instr>, v: ValueId, n: NodeId, k: NodeId,
                            c: ValueId, d: ValueId, u: TypeId, largest: int)
    requires WellFormed(g) && ProgramInside(g, m)
    requires f in m.functions && block in f.blocks && OperandOf(g, block, v) && LeadsTo(g, v, n, k, c)
    requires c in g.values && g.values[c].Constant? && d in g.values[c].operands
    requires d in g.values && g.values[d].Constant? && Subtype(g, g.values[d].ty, u)
    requires u in g.types && g.types[u].kind.Integer?
    requires IsLargestInt(g, TypeClosure(g, RootTypes(g, Mentioned(g, m))), largest)
    ensures g.types[u].kind.width <= largest
  {
    var roots := Mentioned(g, m);
    assert ValueIn(g, f, v) && v in roots.values;
    LeadsThere(g, roots.values, v, n, k, c, d);
    TypeBelow(g, roots, d, u);
  }

  lemma LeadsThere(g: Graph, roots: set<ValueId>, v: ValueId, n: NodeId, k: NodeId, c: ValueId, d: ValueId)
    requires WellFormed(g) && v in roots && LeadsTo(g, v, n, k, c)
    requires c in g.values && g.values[c].Constant? && d in g.values[c].operands
    ensures V(d) in ReachedItems(g, roots)
  {
    assert ItemPath(g, [V(v)]);
    ReachedStep(g, roots, V(v), M(n));
    ReachedStep(g, roots, M(n), M(k));
    ReachedStep(g, roots, M(k), V(c));
    ReachedStep(g, roots, V(c), V(d));
  }

  lemma TypeBelow(g: Graph, roots: Roots, d: ValueId, u: TypeId)
    requires d in g.values && g.values[d].Constant? && V(d) in ReachedItems(g, roots.values)
    requires Subtype(g, g.values[d].ty, u) && u in g.types
    ensures u in TypeClosure(g, RootTypes(g, roots))
  {
    assert g.values[d].ty in RootTypes(g, roots);
    assert TypePath(g, [g.values[d].ty, u]);
  }

  ghost predicate ValueSetCovered(g: Graph, cs: set<ValueId>, ms: set<NodeId>, vs: set<ValueId>) {
    forall v :: v in vs ==> Covered(g, cs, ms, V(v))
  }

  lemma ValueSetStep(g: Graph, cs: set<ValueId>, ms: set<NodeId>, cs1: set<ValueId>, ms1: set<NodeId>,
                     vs: set<ValueId>, v: ValueId)
    requires cs <= cs1 && ms <= ms1 && ValueSetCovered(g, cs, ms, vs) && Covered(g, cs1, ms1, V(v))
    ensures ValueSetCovered(g, cs1, ms1, vs + {v})
  {
    forall w | w in vs
      ensures Covered(g, cs1, ms1, V(w))
    {
      CoveredMonotone(g, cs, ms, cs1, ms1, V(w));
    }
  }

  /** The walk has been through `a`, or there is nothing to record for it. */
  ghost predicate Covered(g: Graph, cs: set<ValueId>, ms: set<NodeId>, a: Item) {
    match a
    case M(n) => n in ms
    case V(v) =>
      v in g.values &&
      (match g.values[v]
       case Constant(_, _) => v in cs
       case MetadataAsValue(md) =>
         MetadataCovered(g, cs, ms, md) && (md.LocalAsMetadata? ==> ConstantCovered(g, cs, md.l))
       case _ => true)
  }

  ghost predicate ConstantCovered(g: Graph, cs: set<ValueId>, v: ValueId) {
    v in g.values && (g.values[v].Constant? ==> v in cs)
  }

  ghost predicate MetadataCovered(g: Graph, cs: set<ValueId>, ms: set<NodeId>, md: Metadata) {
    match md
    case MDNode(n) => n in ms
    case ConstantAsMetadata(c) => ConstantCovered(g, cs, c)
    case _ => true
  }

  ghost predicate Expanded(g: Graph, cs: set<ValueId>, ms: set<NodeId>, a: Item) {
    forall b :: Refers(g, a, b) ==> Covered(g, cs, ms, b)
  }

  /** From `cs0`, `ms0` the walk only added, and it finished everything it added. */
  ghost predicate Grown(g: Graph, cs0: set<ValueId>, ms0: set<NodeId>, cs: set<ValueId>, ms: set<NodeId>) {
    && cs0 <= cs && ms0 <= ms
    && (forall c :: c in cs - cs0 ==> Expanded(g, cs, ms, V(c)))
    && (forall n :: n in ms - ms0 ==> Expanded(g, cs, ms, M(n)))
  }

  lemma CoveredMonotone(g: Graph, cs0: set<ValueId>, ms0: set<NodeId>, cs: set<ValueId>, ms: set<NodeId>, a: Item)
    requires cs0 <= cs && ms0 <= ms && Covered(g, cs0, ms0, a)
    ensures Covered(g, cs, ms, a)
  {
  }

  lemma ExpandedMonotone(g: Graph, cs0: set<ValueId>, ms0: set<NodeId>, cs: set<ValueId>, ms: set<NodeId>, a: Item)
    requires cs0 <= cs && ms0 <= ms && Expanded(g, cs0, ms0, a)
    ensures Expanded(g, cs, ms, a)
  {
    forall b | Refers(g, a, b)
      ensures Covered(g, cs, ms, b)
    {
      CoveredMonotone(g, cs0, ms0, cs, ms, b);
    }
  }

  lemma GrownTransitive(g: Graph, cs0: set<ValueId>, ms0: set<NodeId>, cs1: set<ValueId>, ms1: set<NodeId>,
                        cs: set<ValueId>, ms: set<NodeId>)
    requires Grown(g, cs0, ms0, cs1, ms1) && Grown(g, cs1, ms1, cs, ms)
    ensures Grown(g, cs0, ms0, cs, ms)
  {
    forall c | c in cs1 - cs0
      ensures Expanded(g, cs, ms, V(c))
    {
      ExpandedMonotone(g, cs1, ms1, cs, ms, V(c));
    }
    forall n | n in ms1 - ms0
      ensures Expanded(g, cs, ms, M(n))
    {
      ExpandedMonotone(g, cs1, ms1, cs, ms, M(n));
    }
  }

  lemma GrownByOne(g: Graph, cs0: set<ValueId>, ms0: set<NodeId>, v: ValueId, cs: set<ValueId>, ms: set<NodeId>)
    requires Grown(g, cs0 + {v}, ms0, cs, ms) && Expanded(g, cs, ms, V(v))
    ensures Grown(g, cs0, ms0, cs, ms)
  {
  }

  lemma Fewer(g: Graph, cs0: set<ValueId>, ms0: set<NodeId>, cs: set<ValueId>, ms: set<NodeId>)
    requires cs0 <= cs && ms0 <= ms
    ensures |g.values.Keys - cs| <= |g.values.Keys - cs0|
    ensures |g.nodes.Keys - ms| <= |g.nodes.Keys - ms0|
  {
    Smaller(g.values.Keys - cs, g.values.Keys - cs0);
    Smaller(g.nodes.Keys - ms, g.nodes.Keys - ms0);
  }

  lemma Smaller<T>(a: set<T>, b: set<T>)
    requires a <= b
    ensures |a| <= |b|
  {
    assert b == a + (b - a);
  }

  ghost predicate ValuesCovered(g: Graph, cs: set<ValueId>, ms: set<NodeId>, vs: seq<ValueId>) {
    forall v :: v in vs ==> Covered(g, cs, ms, V(v))
  }

  ghost predicate OperandsCovered(g: Graph, cs: set<ValueId>, ms: set<NodeId>, os: seq<Option<Metadata>>) {
    forall o :: o in os && o.Some? ==> MetadataCovered(g, cs, ms, o.value)
  }

  lemma ValuesStep(g: Graph, cs: set<ValueId>, ms: set<NodeId>, cs1: set<ValueId>, ms1: set<NodeId>,
                   vs: seq<ValueId>, i: nat)
    requires cs <= cs1 && ms <= ms1 && i < |vs|
    requires ValuesCovered(g, cs, ms, vs[..i]) && Covered(g, cs1, ms1, V(vs[i]))
    ensures ValuesCovered(g, cs1, ms1, vs[..i + 1])
  {
    assert vs[..i + 1] == vs[..i] + [vs[i]];
    forall v | v in vs[..i + 1]
      ensures Covered(g, cs1, ms1, V(v))
    {
      if v in vs[..i] { CoveredMonotone(g, cs, ms, cs1, ms1, V(v)); }
    }
  }

  lemma OperandsStep(g: Graph, cs: set<ValueId>, ms: set<NodeId>, cs1: set<ValueId>, ms1: set<NodeId>,
                     os: seq<Option<Metadata>>, i: nat)
    requires cs <= cs1 && ms <= ms1 && i < |os|
    requires OperandsCovered(g, cs, ms, os[..i]) && (os[i].Some? ==> MetadataCovered(g, cs1, ms1, os[i].value))
    ensures OperandsCovered(g, cs1, ms1, os[..i + 1])
  {
    assert os[..i + 1] == os[..i] + [os[i]];
  }

  lemma ConstantExpanded(g: Graph, cs: set<ValueId>, ms: set<NodeId>, v: ValueId)
    requires v in g.values && g.values[v].Constant? && ValuesCovered(g, cs, ms, g.values[v].operands)
    ensures Expanded(g, cs, ms, V(v))
  {
  }

  lemma NodeExpanded(g: Graph, cs: set<ValueId>, ms: set<NodeId>, n: NodeId)
    requires WellFormed(g) && n in g.nodes && OperandsCovered(g, cs, ms, g.nodes[n])
    ensures Expanded(g, cs, ms, M(n))
  {
    forall b | Refers(g, M(n), b)
      ensures Covered(g, cs, ms, b)
    {
      var o := match b case V(w) => ConstantAsMetadata(w) case M(k) => MDNode(k);
      assert Some(o) in g.nodes[n] && MetadataOk(g, Some(o).value);
    }
  }

  ghost function Pending(worklist: seq<TypeId>): set<TypeId> { set t | t in worklist }

  /** The named structs of a list, in its order. */
  function NamedStructs(g: Graph, ts: seq<TypeId>): seq<TypeId> {
    if ts == [] then []
    else
      var t := ts[|ts| - 1];
      NamedStructs(g, ts[..|ts| - 1]) + if NamedStruct(g, t) then [t] else []
  }

  lemma {:induction false} NamedStructsAre(g: Graph, ts: seq<TypeId>)
    ensures forall t :: t in NamedStructs(g, ts) <==> t in ts && t in g.types && g.types[t].kind == Struct(true)
  {
    if ts != [] {
      NamedStructsAre(g, ts[..|ts| - 1]);
      assert ts == ts[..|ts| - 1] + [ts[|ts| - 1]];
    }
  }

  /** Each of the types was processed once, and the named structs listed on the way. */
  ghost predicate EachOnce(g: Graph, processed: seq<TypeId>, structs: seq<TypeId>, types: set<TypeId>) {
    Distinct(processed) && Pending(processed) == types && structs == NamedStructs(g, processed)
  }

  /** Everything visited is either processed, with its subtypes visited, or pending exactly once. */
  ghost predicate WorkValid(g: Graph, visited: set<TypeId>, worklist: seq<TypeId>, processed: seq<TypeId>,
                            structs: seq<TypeId>) {
    && visited <= g.types.Keys && Distinct(worklist) && Pending(worklist) <= visited
    && (forall t, u :: t in visited - Pending(worklist) && Subtype(g, t, u) ==> u in visited)
    && EachOnce(g, processed, structs, visited - Pending(worklist))
  }

  lemma OperandsReached(g: Graph, reach: set<Item>, v: ValueId)
    requires WellFormed(g) && ItemsClosed(g, reach) && v in g.values && V(v) in reach && g.values[v].Constant?
    ensures forall o :: o in g.values[v].operands ==> o in g.values && V(o) in reach
  {
    assert ValueOk(g, g.values[v]);
    assert forall o :: o in g.values[v].operands ==> Refers(g, V(v), V(o));
  }

  lemma OneFewer<T>(all: set<T>, seen: set<T>, x: T)
    requires x in all && x !in seen
    ensures |all - (seen + {x})| + 1 == |all - seen|
  {
    assert all - seen == (all - (seen + {x})) + {x};
  }

  lemma PushOne(worklist: seq<TypeId>, u: TypeId)
    requires Distinct(worklist) && u !in Pending(worklist)
    ensures Distinct(worklist + [u]) && Pending(worklist + [u]) == Pending(worklist) + {u}
  {
  }

  lemma PendingFrom(s: seq<TypeId>, i: nat)
    requires i < |s|
    ensures Pending(s[i..]) == Pending(s[i + 1..]) + {s[i]}
  {
    assert s[i..] == [s[i]] + s[i + 1..];
  }

  lemma PopOne(worklist: seq<TypeId>)
    requires Distinct(worklist) && worklist != []
    ensures var rest, t := worklist[..|worklist| - 1], worklist[|worklist| - 1];
            Distinct(rest) && t !in rest && Pending(rest) == Pending(worklist) - {t}
  {
    var rest, t := worklist[..|worklist| - 1], worklist[|worklist| - 1];
    assert worklist == rest + [t];
  }

  lemma OneMore(g: Graph, processed: seq<TypeId>, structs: seq<TypeId>, types: set<TypeId>, t: TypeId)
    requires EachOnce(g, processed, structs, types) && t !in types
    ensures EachOnce(g, processed + [t], if NamedStruct(g, t) then structs + [t] else structs, types + {t})
  {
    PushOne(processed, t);
    assert (processed + [t])[..|processed|] == processed;
  }

  lemma ProcessedOne(g: Graph, visited0: set<TypeId>, worklist0: seq<TypeId>, processed0: seq<TypeId>,
                     structs0: seq<TypeId>, visited: set<TypeId>, worklist: seq<TypeId>, structs: seq<TypeId>)
    requires worklist0 != [] && WorkValid(g, visited0, worklist0, processed0, structs0)
    requires visited0 <= visited <= g.types.Keys && Distinct(worklist)
    requires var t := worklist0[|worklist0| - 1];
             && Pending(worklist) == Pending(worklist0[..|worklist0| - 1]) + (visited - visited0)
             && (forall u :: Subtype(g, t, u) ==> u in visited)
             && structs == if NamedStruct(g, t) then structs0 + [t] else structs0
    ensures WorkValid(g, visited, worklist, processed0 + [worklist0[|worklist0| - 1]], structs)
  {
    var t := worklist0[|worklist0| - 1];
    PopOne(worklist0);
    assert t in Pending(worklist0) && t !in visited0 - Pending(worklist0);
    assert visited - Pending(worklist) == (visited0 - Pending(worklist0)) + {t};
    OneMore(g, processed0, structs0, visited0 - Pending(worklist0), t);
  }
}
