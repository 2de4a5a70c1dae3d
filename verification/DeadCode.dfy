/**
 Dead-code removal in the copied module (`VirtineCompiler`).

 Items are the functions and the global variables of the module.  An item uses another
 when its body or its initializer refers to it; erasing an item drops its uses.
 */
module DeadCode {

  /** `Main` is the entry point that `create_main` adds. */
  datatype Item = Main | Function(name: string) | Global(name: string)

  /** Pairs of user and used item. */
  type Uses = set<(Item, Item)>

  ghost predicate HasUser(uses: Uses, s: set<Item>, x: Item) {
    exists u :: u in s && (u, x) in uses
  }

  /** Every item other than the root has a user in the set. */
  ghost predicate Supported(uses: Uses, root: Item, s: set<Item>) {
    forall x :: x in s && x != root ==> HasUser(uses, s, x)
  }

  /** `kept` is the largest supported set of items of `all`. */
  ghost predicate IsLargestSupported(uses: Uses, root: Item, all: set<Item>, kept: set<Item>) {
    && kept <= all && Supported(uses, root, kept)
    && forall s :: s <= all && Supported(uses, root, s) ==> s <= kept
  }

  class Module {
    const uses: Uses
    var functions: set<Item>
    var globals: set<Item>

    constructor (functions: set<Item>, globals: set<Item>, uses: Uses)
      ensures this.functions == functions && this.globals == globals && this.uses == uses
    {
      this.functions, this.globals, this.uses := functions, globals, uses;
    }

    function Items(): set<Item>
      reads this
    {
      functions + globals
    }

    /** LLVM's `use_empty`: no item still in the module refers to `x`. */
    predicate UseEmpty(x: Item)
      reads this
    {
      forall u :: u in Items() ==> (u, x) !in uses
    }

    /**
     `single_dead_code_pass`: erase the unused functions, then the globals that are unused
     once those functions are gone.
     */
    method SingleDeadCodePass(root: Item) returns (didRemove: bool)
      requires root in functions && functions !! globals
      modifies this
      ensures functions == set f | f in old(functions) && (f == root || HasUser(uses, old(Items()), f))
      ensures globals == set g | g in old(globals) && HasUser(uses, functions + old(globals), g)
      ensures didRemove <==> Items() != old(Items())
    {
      didRemove := false;
      var fndel, todo := {}, functions;
      while todo != {}
        invariant todo <= functions
        invariant fndel == set f | f in functions - todo && f != root && UseEmpty(f)
      {
        var f :| f in todo;
        todo := todo - {f};
        if f != root && UseEmpty(f) {
          fndel := fndel + {f};
        }
      }
      todo := fndel;
      while todo != {}
        invariant todo <= fndel && functions == old(functions) - (fndel - todo)
        invariant globals == old(globals) && (didRemove <==> todo != fndel)
      {
        var f :| f in todo;
        todo, didRemove, functions := todo - {f}, true, functions - {f};
      }
      ghost var removedFunctions := didRemove;
      ghost var between := Items();
      var gvdel := {};
      todo := globals;
      while todo != {}
        invariant todo <= globals && unchanged(`globals) && Items() == between
        invariant gvdel == set g | g in globals - todo && UseEmpty(g)
      {
        var g :| g in todo;
        todo := todo - {g};
        if UseEmpty(g) {
          gvdel := gvdel + {g};
        }
      }
      todo := gvdel;
      while todo != {}
        invariant todo <= gvdel && globals == old(globals) - (gvdel - todo)
        invariant functions == old(functions) - fndel
        invariant didRemove <==> removedFunctions || todo != gvdel
      {
        var g :| g in todo;
        todo, didRemove, globals := todo - {g}, true, globals - {g};
      }
    }

    /** The constructor's loop: passes until one removes nothing. */
    method RemoveDeadCode(root: Item)
      requires root in functions && functions !! globals
      modifies this
      ensures root in functions && functions <= old(functions) && globals <= old(globals)
      ensures IsLargestSupported(uses, root, old(Items()), Items())
    {
      while true
        invariant root in functions && functions <= old(functions) && globals <= old(globals)
        invariant forall s :: s <= old(Items()) && Supported(uses, root, s) ==> s <= Items()
        decreases |functions| + |globals|
      {
        ghost var f0, g0 := functions, globals;
        var didRemove := SingleDeadCodePass(root);
        PassKeepsSupported(uses, root, old(Items()), f0, g0, functions, globals);
        if !didRemove {
          assert functions == f0 && globals == g0;
          break;
        }
        Shrinks(functions, f0);
        Shrinks(globals, g0);
      }
    }
  }

  lemma Shrinks(a: set<Item>, b: set<Item>)
    requires a <= b
    ensures |a| <= |b| && (a != b ==> |a| < |b|)
  {
    assert b == a + (b - a);
  }

  lemma PassKeepsSupported(uses: Uses, root: Item, all: set<Item>, f0: set<Item>, g0: set<Item>, f1: set<Item>,
                           g1: set<Item>)
    requires f1 == set f | f in f0 && (f == root || HasUser(uses, f0 + g0, f))
    requires g1 == set g | g in g0 && HasUser(uses, f1 + g0, g)
    requires root in f0 && f0 !! g0
    requires forall s :: s <= all && Supported(uses, root, s) ==> s <= f0 + g0
    ensures forall s :: s <= all && Supported(uses, root, s) ==> s <= f1 + g1
  {
    forall s | s <= all && Supported(uses, root, s)
      ensures s <= f1 + g1
    {
      assert s <= f0 + g0;
      assert s <= f1 + g0;
    }
  }

  // ---------------------------------------------------------------- what the largest supported set is

  /** A chain of uses inside `all`, from a user to what it uses. */
  ghost predicate Path(uses: Uses, all: set<Item>, p: seq<Item>) {
    && |p| > 0 && (forall i :: 0 <= i < |p| ==> p[i] in all)
    && forall i :: 0 < i < |p| ==> (p[i - 1], p[i]) in uses
  }

  ghost predicate Reaches(uses: Uses, all: set<Item>, a: Item, b: Item) {
    exists p :: Path(uses, all, p) && p[0] == a && p[|p| - 1] == b
  }

  /** Reachable by at least one use. */
  ghost predicate Precedes(uses: Uses, all: set<Item>, a: Item, b: Item) {
    exists p :: Path(uses, all, p) && |p| > 1 && p[0] == a && p[|p| - 1] == b
  }

  ghost predicate OnCycle(uses: Uses, all: set<Item>, c: Item) { Precedes(uses, all, c, c) }

  lemma LargestUnique(uses: Uses, root: Item, all: set<Item>, a: set<Item>, b: set<Item>)
    requires IsLargestSupported(uses, root, all, a) && IsLargestSupported(uses, root, all, b)
    ensures a == b
  {
  }

  /** No kept item refers to an erased one. */
  lemma NoDanglingUse(uses: Uses, root: Item, all: set<Item>, kept: set<Item>, u: Item, x: Item)
    requires IsLargestSupported(uses, root, all, kept) && u in kept && x in all && (u, x) in uses
    ensures x in kept
  {
    var s := kept + {x};
    forall y | y in s && y != root
      ensures HasUser(uses, s, y)
    {
      if y == x { assert u in s && (u, y) in uses; } else { assert HasUser(uses, kept, y); }
    }
    assert Supported(uses, root, s);
  }

  /** Everything reachable from the root is kept. */
  lemma KeepsReachable(uses: Uses, root: Item, all: set<Item>, kept: set<Item>, x: Item)
    requires IsLargestSupported(uses, root, all, kept) && root in all && Reaches(uses, all, root, x)
    ensures x in kept
  {
    assert Supported(uses, root, {root});
    var p :| Path(uses, all, p) && p[0] == root && p[|p| - 1] == x;
    PathKept(uses, root, all, kept, p);
  }

  lemma {:induction false} PathKept(uses: Uses, root: Item, all: set<Item>, kept: set<Item>, p: seq<Item>)
    requires IsLargestSupported(uses, root, all, kept) && Path(uses, all, p) && p[0] in kept
    ensures p[|p| - 1] in kept
  {
    if |p| > 1 {
      NoDanglingUse(uses, root, all, kept, p[0], p[1]);
      PathKept(uses, root, all, kept, p[1..]);
    }
  }

  /**
   The removal is complete, keeping only what the root reaches, exactly when every cycle
   of uses is reachable from the root.
   */
  lemma CompleteIffNoStrayCycle(uses: Uses, root: Item, all: set<Item>, kept: set<Item>)
    requires IsLargestSupported(uses, root, all, kept) && root in all
    ensures (forall x :: x in kept ==> Reaches(uses, all, root, x))
            <==> (forall c :: c in all && OnCycle(uses, all, c) ==> Reaches(uses, all, root, c))
  {
    if forall x :: x in kept ==> Reaches(uses, all, root, x) {
      forall c | c in all && OnCycle(uses, all, c)
        ensures Reaches(uses, all, root, c)
      {
        CycleKept(uses, root, all, kept, c);
      }
    }
    if forall c :: c in all && OnCycle(uses, all, c) ==> Reaches(uses, all, root, c) {
      UnreachedIsEmpty(uses, root, all, kept);
    }
  }

  /** On acyclic use graphs nothing unreachable survives. */
  lemma AcyclicKeepsOnlyReachable(uses: Uses, root: Item, all: set<Item>, kept: set<Item>)
    requires IsLargestSupported(uses, root, all, kept) && root in all
    requires forall c :: c in all ==> !OnCycle(uses, all, c)
    ensures kept == set x | x in all && Reaches(uses, all, root, x)
  {
    CompleteIffNoStrayCycle(uses, root, all, kept);
    forall x | x in all && Reaches(uses, all, root, x)
      ensures x in kept
    {
      KeepsReachable(uses, root, all, kept, x);
    }
  }

  lemma CycleKept(uses: Uses, root: Item, all: set<Item>, kept: set<Item>, c: Item)
    requires IsLargestSupported(uses, root, all, kept) && OnCycle(uses, all, c)
    ensures c in kept
  {
    var p :| Path(uses, all, p) && |p| > 1 && p[0] == c && p[|p| - 1] == c;
    var s := set x | x in p;
    forall x | x in s && x != root
      ensures HasUser(uses, s, x)
    {
      var i :| 0 <= i < |p| && p[i] == x;
      var j := if i == 0 then |p| - 1 else i;
      assert p[j - 1] in s && (p[j - 1], p[j]) in uses;
    }
    assert Supported(uses, root, s);
    assert p[0] in s;
  }

  lemma UnreachedIsEmpty(uses: Uses, root: Item, all: set<Item>, kept: set<Item>)
    requires IsLargestSupported(uses, root, all, kept) && root in all
    requires forall c :: c in all && OnCycle(uses, all, c) ==> Reaches(uses, all, root, c)
    ensures forall x :: x in kept ==> Reaches(uses, all, root, x)
  {
    var n := set x | x in kept && !Reaches(uses, all, root, x);
    assert Path(uses, all, [root]);
    assert Reaches(uses, all, root, root);
    forall x | x in n
      ensures HasUser(uses, n, x)
    {
      var u :| u in kept && (u, x) in uses;
      if Reaches(uses, all, root, u) { ReachesStep(uses, all, root, u, x); }
    }
    if n != {} {
      var c := FindCycle(uses, all, n);
      assert false;
    }
    forall x | x in kept
      ensures Reaches(uses, all, root, x)
    {
      assert x !in n;
    }
  }

  lemma ReachesStep(uses: Uses, all: set<Item>, a: Item, u: Item, x: Item)
    requires Reaches(uses, all, a, u) && (u, x) in uses && x in all
    ensures Reaches(uses, all, a, x)
  {
    var p :| Path(uses, all, p) && p[0] == a && p[|p| - 1] == u;
    assert Path(uses, all, p + [x]);
  }

  lemma PrecedesStep(uses: Uses, all: set<Item>, u: Item, y: Item, x: Item)
    requires (u, y) in uses && u in all && Precedes(uses, all, y, x)
    ensures Precedes(uses, all, u, x)
  {
    var p :| Path(uses, all, p) && |p| > 1 && p[0] == y && p[|p| - 1] == x;
    assert Path(uses, all, [u] + p);
  }

  /** A finite set in which every item has a user holds an item on a cycle. */
  lemma {:induction false} FindCycle(uses: Uses, all: set<Item>, n: set<Item>) returns (c: Item)
    requires n != {} && n <= all && forall x :: x in n ==> HasUser(uses, n, x)
    ensures c in n && OnCycle(uses, all, c)
    decreases |n|
  {
    var x :| x in n;
    var before := set y | y in n && Precedes(uses, all, y, x);
    if x in before {
      return x;
    }
    var u :| u in n && (u, x) in uses;
    UsePrecedes(uses, all, u, x);
    assert u in before;
    UsersPrecede(uses, all, n, before, x);
    Shrinks(before, n);
    c := FindCycle(uses, all, before);
  }

  lemma UsePrecedes(uses: Uses, all: set<Item>, u: Item, x: Item)
    requires u in all && x in all && (u, x) in uses
    ensures Precedes(uses, all, u, x)
  {
    assert Path(uses, all, [u, x]);
  }

  lemma UsersPrecede(uses: Uses, all: set<Item>, n: set<Item>, before: set<Item>, x: Item)
    requires n <= all && before == (set z | z in n && Precedes(uses, all, z, x))
    requires forall y :: y in n ==> HasUser(uses, n, y)
    ensures forall y :: y in before ==> HasUser(uses, before, y)
  {
    forall y | y in before
      ensures HasUser(uses, before, y)
    {
      var v :| v in n && (v, y) in uses;
      PrecedesStep(uses, all, v, y, x);
    }
  }

  lemma FirstStep(uses: Uses, all: set<Item>, p: seq<Item>)
    requires Path(uses, all, p)
    ensures |p| == 1 || (p[0], p[1]) in uses
  {
  }

  /** Two items that only use each other survive, although nothing reaches them. */
  lemma StrayCycleSurvives(f: Item, g: Item, kept: set<Item>)
    requires f != Main && g != Main
    requires IsLargestSupported({(f, g), (g, f)}, Main, {Main, f, g}, kept)
    ensures kept == {Main, f, g}
    ensures !Reaches({(f, g), (g, f)}, {Main, f, g}, Main, f)
  {
    var uses, all := {(f, g), (g, f)}, {Main, f, g};
    assert HasUser(uses, all, f) by { assert (g, f) in uses; }
    assert HasUser(uses, all, g) by { assert (f, g) in uses; }
    assert Supported(uses, Main, all);
    forall p | Path(uses, all, p) && p[0] == Main
      ensures p[|p| - 1] != f
    {
      FirstStep(uses, all, p);
    }
  }
}
