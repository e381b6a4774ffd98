/**
 * The values of the boost::any runtime (scheme/schemetypes.h,
 * scheme/schemetypes.cpp, scheme/collectable.h, scheme/list.cpp) and its
 * environment frames (scheme/context.h, scheme/context.cpp).
 *
 * An `Item` is a `boost::any`; the closed datatype has one constructor per
 * type the runtime stores in one, plus `Empty` for a default-constructed
 * `any`. Cells and contexts are objects: the collector updates their flags
 * in place and a context's bindings change under `Set`. A failed
 * `any_cast` or `assert` is excluded by a precondition.
 */
module Runtime {
  import opened Maybe
  import opened Symbols
  import opened Lexical

  /** A `Native` callable, known to the model only by a tag. */
  type NativeTag = nat

  /**
   * `Proc`: the cell `(params body)` of an interpreted procedure and the
   * context it closes over, or a native callable.
   */
  datatype Proc = Proc(body: Cell?, closure: Context?, native: Option<NativeTag>)

  /** `Item` (`boost::any`). */
  datatype Item =
    | Empty
    | Number(n: Int32)
    | Symbol(id: Symbol)
    | CellRef(cell: Cell?)
    | ProcValue(proc: Proc)
    | Unspecified

  // ---------------------------------------------------------------- procedures

  /** `Proc(Native)`. */
  function NativeProc(native: NativeTag): (p: Proc)
    ensures p.native == Some(native) && p.body == null && p.closure == null
  {
    Proc(null, null, Some(native))
  }

  /** `Proc(Cell*, Context*)`. */
  function ClosureProc(body: Cell?, closure: Context?): (p: Proc)
    ensures p.native.None? && p.body == body && p.closure == closure
  {
    Proc(body, closure, None)
  }

  /** `Proc::operator==`: a native right operand is never equal; otherwise the body pointers decide. */
  predicate ProcEq(p: Proc, rhs: Proc) {
    if rhs.native.Some? then false else p.body == rhs.body
  }

  /** A native procedure is not even equal to itself. */
  lemma NativeNeverEqual(p: Proc, n: NativeTag)
    ensures !ProcEq(p, NativeProc(n))
    ensures !ProcEq(NativeProc(n), NativeProc(n))
  {
  }

  /** Against an interpreted right operand only the bodies are compared; closures are ignored. */
  lemma ClosureEquality(p: Proc, body: Cell?, c1: Context?, c2: Context?)
    ensures ProcEq(p, ClosureProc(body, c1)) <==> p.body == body
    ensures ProcEq(ClosureProc(body, c1), ClosureProc(body, c2))
  {
  }

  /**
   * The comparison is not symmetric: a native on the left equals an
   * interpreted procedure with a null body, never the other way round.
   */
  lemma ProcEqAsymmetric(n: NativeTag, c: Context?)
    ensures ProcEq(NativeProc(n), ClosureProc(null, c))
    ensures !ProcEq(ClosureProc(null, c), NativeProc(n))
  {
  }

  // ---------------------------------------------------------------- cells

  /**
   * `Cell`, with the node header of `Collectable<Cell>`. `Collectable<T>`
   * declares its own `mReachable`, which hides the one of `ICollectable`:
   * `reachable` is the derived flag that `Cell::mark` reads and writes,
   * `baseReachable` the base flag that `setReachable` writes.
   */
  class Cell {
    var car: Item
    var cdr: Item
    /** `Collectable<Cell>::mNext`. */
    var next: Cell?
    /** `Collectable<Cell>::mReachable`. */
    var reachable: bool
    /** `ICollectable::mReachable`; no constructor initialises it. */
    var baseReachable: bool

    /** `Cell()`: both halves are empty `any`s, which is not the unspecified value. */
    constructor Blank()
      ensures car == Empty && cdr == Empty && car != Unspecified
      ensures next == null && !reachable
    {
      car := Empty;
      cdr := Empty;
      next := null;
      reachable := false;
    }

    /** `Cell(car, cdr)`. */
    constructor (car: Item, cdr: Item)
      ensures this.car == car && this.cdr == cdr
      ensures next == null && !reachable
    {
      this.car := car;
      this.cdr := cdr;
      next := null;
      reachable := false;
    }

    /** `Cell(car)`: a one-element list, its `cdr` the null cell pointer. */
    constructor Single(car: Item)
      ensures this.car == car && cdr == CellRef(null)
      ensures next == null && !reachable
    {
      this.car := car;
      cdr := CellRef(null);
      next := null;
      reachable := false;
    }

    /** `getNext`. */
    method GetNext() returns (n: Cell?)
      ensures n == next
    {
      n := next;
    }

    /** `setNext`: only the link changes. */
    method SetNext(n: Cell?)
      modifies this`next
      ensures next == n
    {
      next := n;
    }

    /** `setReachable`, as written: it writes the base flag, which `mark` never reads. */
    method SetReachable(b: bool)
      modifies this`baseReachable
      ensures baseReachable == b && reachable == old(reachable)
    {
      baseReachable := b;
    }

    /** Clearing the flag `mark` reads, which is what unmarking before a collection needs. */
    method Unmark()
      modifies this`reachable
      ensures !reachable
    {
      reachable := false;
    }

    /** The cells `mark` descends into: those that `car` and `cdr` point to, when not null. */
    function Children(): set<Cell>
      reads this
    {
      (if car.CellRef? && car.cell != null then {car.cell} else {})
      + (if cdr.CellRef? && cdr.cell != null then {cdr.cell} else {})
    }

    /**
     * `Cell::mark`: a marked cell returns at once; otherwise the cell is
     * marked, then the cell its `car` points to and the one its `cdr`
     * points to. `U` is a set of cells closed under `Children` (the live
     * cells), `stack` the cells whose `mark` is still running, and `R` any
     * closed set holding this cell, so the cells newly marked are among
     * those reachable from it. Marking only ever adds cells, so the
     * unmarked part of `U` shrinks and the recursion ends on cycles too.
     */
    method Mark(ghost U: set<Cell>, ghost stack: set<Cell>, ghost R: set<Cell>)
      requires this in U && Closed(U) && MarkedBelow(U, stack)
      requires this in R && R <= U && Closed(R)
      modifies U`reachable
      ensures reachable
      ensures forall c :: c in U && old(c.reachable) ==> c.reachable
      ensures forall c :: c in U && c.reachable && !old(c.reachable) ==> c in R
      ensures old(reachable) ==> forall c :: c in U ==> c.reachable == old(c.reachable)
      ensures MarkedBelow(U, stack)
      decreases Unmarked(U)
    {
      if reachable {
        return;
      }
      ghost var before := Unmarked(U);
      reachable := true;
      if car.CellRef? && car.cell != null {
        assert Unmarked(U) < before by {
          assert this in before && this !in Unmarked(U);
        }
        car.cell.Mark(U, stack + {this}, R);
      }
      if cdr.CellRef? && cdr.cell != null {
        assert Unmarked(U) < before by {
          assert this in before && this !in Unmarked(U);
        }
        cdr.cell.Mark(U, stack + {this}, R);
      }
    }

    /**
     * `Cell::length`: the number of cells of the list this cell starts;
     * every `cdr` on the way must hold a cell pointer (`any_cast` throws
     * otherwise), so improper lists are excluded.
     */
    function Length(ghost s: seq<Cell>): (n: nat)
      requires Spine(this, s)
      reads s
      ensures n == |s| && n >= 1
      decreases |s|
    {
      assert s[0] == this && cdr == CellRef(if |s| == 1 then null else s[1]);
      var rest := cdr.cell;
      if rest != null then 1 + rest.Length(s[1..]) else 1
    }
  }

  /** Every cell of `U` points only to cells of `U`. */
  ghost predicate Closed(U: set<Cell>)
    reads U
  {
    forall c, d :: c in U && d in c.Children() ==> d in U
  }

  /** The cells of `U` not yet marked. */
  ghost function Unmarked(U: set<Cell>): set<Cell>
    reads U
  {
    set c | c in U && !c.reachable
  }

  /** The marking invariant: a marked cell whose `mark` has returned has marked children. */
  ghost predicate MarkedBelow(U: set<Cell>, stack: set<Cell>)
    reads U
  {
    forall c, d :: c in U && d in U && c.reachable && c !in stack && d in c.Children() ==> d.reachable
  }

  /** A chain of cells, each a child of the one before it. */
  ghost predicate Path(p: seq<Cell>)
    reads p
  {
    forall i :: 0 <= i < |p| - 1 ==> p[i + 1] in p[i].Children()
  }

  /**
   * What a collection relies on: after every cell of a closed `U` has been
   * unmarked and `mark` has run on `root`, every cell reachable from
   * `root` is marked.
   */
  lemma {:induction false} MarkedReachable(U: set<Cell>, p: seq<Cell>)
    requires Closed(U) && MarkedBelow(U, {})
    requires p != [] && p[0] in U && p[0].reachable && Path(p)
    ensures forall i :: 0 <= i < |p| ==> p[i] in U && p[i].reachable
    decreases |p|
  {
    if |p| > 1 {
      assert p[1] in p[0].Children();
      assert Path(p[1..]) by {
        forall i | 0 <= i < |p[1..]| - 1
          ensures p[1..][i + 1] in p[1..][i].Children()
        {
          assert p[1..][i] == p[i + 1] && p[1..][i + 1] == p[i + 2];
        }
      }
      MarkedReachable(U, p[1..]);
      forall i | 1 <= i < |p|
        ensures p[i] in U && p[i].reachable
      {
        assert p[i] == p[1..][i - 1];
      }
    }
  }

  /** Every path from a marked cell of a closed, fully marked-below `U` stays in `U`. */
  lemma PathsStayMarked(U: set<Cell>, roots: set<Cell>)
    requires Closed(U) && MarkedBelow(U, {})
    requires roots <= U && forall c :: c in roots ==> c.reachable
    ensures forall p :: Path(p) && p != [] && p[0] in roots ==> forall i :: 0 <= i < |p| ==> p[i] in U
  {
    forall p | Path(p) && p != [] && p[0] in roots
      ensures forall i :: 0 <= i < |p| ==> p[i] in U
    {
      MarkedReachable(U, p);
    }
  }

  /**
   * `setReachable(false)` does not undo `mark`: a cell that `mark` has
   * reached stays marked for the flag `mark` and `collect` read.
   */
  method StaleMark() returns (c: Cell)
    ensures c.reachable && !c.baseReachable
  {
    c := new Cell.Single(Number(0));
    assert c.Children() == {};
    c.Mark({c}, {}, {c});
    c.SetReachable(false);
  }

  // ---------------------------------------------------------------- lists

  /** The cells of a proper list from `first`, linked by `cdr` and ending in the null pointer. */
  ghost predicate Spine(first: Cell?, s: seq<Cell>)
    reads s
  {
    && (first == null <==> s == [])
    && (s != [] ==> s[0] == first && s[|s| - 1].cdr == CellRef(null))
    && forall i :: 0 <= i < |s| - 1 ==> s[i].cdr == CellRef(s[i + 1])
  }

  /** `length` (list.cpp): the number of cells of a proper list. */
  function Length(first: Cell?, ghost s: seq<Cell>): (n: nat)
    requires Spine(first, s)
    reads s
    ensures n == |s|
    decreases |s|
  {
    if first == null then 0
    else
      assert first.cdr == CellRef(if |s| == 1 then null else s[1]);
      1 + Length(first.cdr.cell, s[1..])
  }

  /** The two `length`s agree on a non-null cell, and the list one steps through `cdr`. */
  lemma LengthAgrees(first: Cell, s: seq<Cell>)
    requires Spine(first, s)
    ensures Length(first, s) == first.Length(s)
    ensures first.cdr.CellRef? && Spine(first.cdr.cell, s[1..]) && Length(first, s) == 1 + Length(first.cdr.cell, s[1..])
  {
  }

  /** The empty list has length 0. */
  lemma LengthNull()
    ensures Length(null, []) == 0
  {
  }

  /** `car`: asserts a non-null cell pointer and yields its `mCar`. */
  function Car(pair: Item): (r: Item)
    requires pair.CellRef? && pair.cell != null
    reads pair.cell
    ensures r == pair.cell.car
  {
    pair.cell.car
  }

  /** `cdr`: asserts a non-null cell pointer and yields its `mCdr`. */
  function Cdr(pair: Item): (r: Item)
    requires pair.CellRef? && pair.cell != null
    reads pair.cell
    ensures r == pair.cell.cdr
  {
    pair.cell.cdr
  }

  /** Along a proper list, `cdr` leads from each cell to the next and from the last to the null list. */
  lemma CdrFollowsSpine(first: Cell?, s: seq<Cell>, i: nat)
    requires Spine(first, s) && i < |s|
    ensures Cdr(CellRef(s[i])) == CellRef(if i + 1 < |s| then s[i + 1] else null)
  {
  }

  // ---------------------------------------------------------------- contexts

  /**
   * `Context`: a frame of bindings and the context it is nested in. The
   * node header of `Collectable<Context>` is the pair `next`/`reachable`.
   * `ancestors` and `depth` are proof-only: the contexts on the `mOuter`
   * chain and the length of that chain.
   */
  class Context {
    var bindings: map<Symbol, Item>
    const outer: Context?
    var next: Context?
    var reachable: bool
    ghost const ancestors: set<Context>
    ghost const depth: nat

    /** The `mOuter` chain is finite and `ancestors` lists it. */
    ghost predicate Chained()
      decreases depth
    {
      if outer == null then ancestors == {}
      else outer.depth < depth && ancestors == {outer} + outer.ancestors && outer.Chained()
    }

    /** The bindings `Lookup` sees: the outer context's, overridden by this frame's own. */
    ghost function Visible(): map<Symbol, Item>
      requires Chained()
      reads {this} + ancestors
      decreases depth
    {
      (if outer == null then map[] else outer.Visible()) + bindings
    }

    /** `Context()`: the root frame, no outer context and no bindings. */
    constructor Root()
      ensures outer == null && bindings == map[] && Chained()
      ensures next == null && !reachable
    {
      bindings := map[];
      outer := null;
      next := null;
      reachable := false;
      ancestors := {};
      depth := 0;
    }

    /** `Context(Context*)`: an empty frame inside `outer`, which may be null. */
    constructor Inner(outer: Context?)
      requires outer != null ==> outer.Chained()
      ensures this.outer == outer && bindings == map[] && Chained()
      ensures next == null && !reachable
    {
      bindings := map[];
      this.outer := outer;
      next := null;
      reachable := false;
      ancestors := if outer == null then {} else {outer} + outer.ancestors;
      depth := if outer == null then 0 else outer.depth + 1;
    }

    /**
     * `Context(variables, params, outer)`: a symbol as `variables` is bound
     * to the whole argument list; otherwise `variables` must hold a cell
     * pointer and a loop walks the formal list `vs` and the argument list
     * `ps` side by side, binding each formal to its argument. When a formal
     * cell's `cdr` is not a cell pointer it must be a symbol, which is bound
     * to the remaining arguments, and the walk stops.
     */
    constructor Bind(variables: Item, params: Cell?, outer: Context?, ghost vs: seq<Cell>, ghost ps: seq<Cell>)
      requires outer != null ==> outer.Chained()
      requires !variables.Symbol? ==> variables.CellRef? && Formals(variables.cell, vs) && Arguments(params, ps, vs)
      ensures this.outer == outer && Chained()
      ensures next == null && !reachable
      ensures variables.Symbol? ==> bindings == map[variables.id := CellRef(params)]
      ensures !variables.Symbol? ==> bindings == Walked(vs, ps)
    {
      var b: map<Symbol, Item>;
      if variables.Symbol? {
        b := map[variables.id := CellRef(params)];
      } else {
        b := WalkFormals(variables.cell, params, vs, ps);
      }
      bindings := b;
      this.outer := outer;
      next := null;
      reachable := false;
      ancestors := if outer == null then {} else {outer} + outer.ancestors;
      depth := if outer == null then 0 else outer.depth + 1;
    }

    /** `Lookup`: this frame's binding, else the outer context's, else unspecified. */
    function Lookup(symbol: Symbol): (v: Item)
      requires Chained()
      reads {this} + ancestors
      ensures v == if symbol in Visible() then Visible()[symbol] else Unspecified
      decreases depth
    {
      if symbol !in bindings then
        if outer == null then Unspecified else outer.Lookup(symbol)
      else
        bindings[symbol]
    }

    /** `Set`: bind in this frame only, whatever the outer frames bind. */
    method Set(symbol: Symbol, value: Item)
      requires Chained()
      modifies this`bindings
      ensures bindings == old(bindings)[symbol := value]
      ensures Visible() == old(Visible())[symbol := value]
      ensures outer != null ==> outer.Visible() == old(outer.Visible())
      ensures Lookup(symbol) == value
    {
      NotOwnAncestor();
      bindings := bindings[symbol := value];
    }

    /** No context is on its own `mOuter` chain. */
    lemma {:induction false} NotOwnAncestor()
      requires Chained()
      ensures this !in ancestors
      ensures forall a :: a in ancestors ==> a.depth < depth && a.Chained()
      decreases depth
    {
      if outer != null {
        outer.NotOwnAncestor();
      }
    }
  }

  /**
   * The formal list the binding constructor walks: cells `vs` from `first`,
   * each `car` a symbol, linked by `cdr`; the last `cdr` is the null
   * pointer or a rest symbol.
   */
  ghost predicate Formals(first: Cell?, vs: seq<Cell>)
    reads vs
  {
    && (first == null <==> vs == [])
    && (vs != [] ==> vs[0] == first && (vs[|vs| - 1].cdr == CellRef(null) || vs[|vs| - 1].cdr.Symbol?))
    && (forall i :: 0 <= i < |vs| ==> vs[i].car.Symbol?)
    && (forall i :: 0 <= i < |vs| - 1 ==> vs[i].cdr == CellRef(vs[i + 1]))
  }

  /**
   * The argument cells the walk visits, one per formal: `ps` from `first`,
   * linked by `cdr`. After the last formal of a proper list the argument's
   * `cdr` is still cast to a cell pointer; any further arguments are not
   * visited.
   */
  ghost predicate Arguments(first: Cell?, ps: seq<Cell>, vs: seq<Cell>)
    reads ps, vs
  {
    && |ps| == |vs|
    && (ps != [] ==> ps[0] == first)
    && (forall i :: 0 <= i < |ps| - 1 ==> ps[i].cdr == CellRef(ps[i + 1]))
    && (vs != [] && vs[|vs| - 1].cdr.CellRef? ==> ps[|ps| - 1].cdr.CellRef?)
  }

  /** The symbols of the formals, in order. */
  ghost function FormalNames(vs: seq<Cell>): (names: seq<Symbol>)
    requires forall i :: 0 <= i < |vs| ==> vs[i].car.Symbol?
    reads vs
    ensures |names| == |vs| && forall i :: 0 <= i < |vs| ==> names[i] == vs[i].car.id
    decreases |vs|
  {
    if vs == [] then [] else [vs[0].car.id] + FormalNames(vs[1..])
  }

  /** The arguments bound to the formals, in order. */
  ghost function ArgumentValues(ps: seq<Cell>): (values: seq<Item>)
    reads ps
    ensures |values| == |ps| && forall i :: 0 <= i < |ps| ==> values[i] == ps[i].car
    decreases |ps|
  {
    if ps == [] then [] else [ps[0].car] + ArgumentValues(ps[1..])
  }

  /** The binding of the rest symbol, if the last formal cell ends in one: the `cdr` of the last argument visited. */
  ghost function RestBinding(vs: seq<Cell>, ps: seq<Cell>): Option<(Symbol, Item)>
    requires |ps| == |vs|
    reads vs, ps
  {
    if vs != [] && vs[|vs| - 1].cdr.Symbol? then Some((vs[|vs| - 1].cdr.id, ps[|ps| - 1].cdr)) else None
  }

  /** The bindings a walk adds to `m`: name by name, then the rest binding, later ones winning. */
  function BindAll(names: seq<Symbol>, values: seq<Item>, rest: Option<(Symbol, Item)>, m: map<Symbol, Item>): map<Symbol, Item>
    requires |values| == |names|
    decreases |names|
  {
    if names == [] then
      if rest.Some? then m[rest.value.0 := rest.value.1] else m
    else
      BindAll(names[1..], values[1..], rest, m[names[0] := values[0]])
  }

  /** The bindings a walk over the formals `vs` and the arguments `ps` makes in an empty frame. */
  ghost function Walked(vs: seq<Cell>, ps: seq<Cell>): map<Symbol, Item>
    requires |ps| == |vs| && forall i :: 0 <= i < |vs| ==> vs[i].car.Symbol?
    reads vs, ps
  {
    BindAll(FormalNames(vs), ArgumentValues(ps), RestBinding(vs, ps), map[])
  }

  /**
   * The loop of `Context(variables, params, outer)` when `variables` holds a
   * cell pointer: walk the formal cells `vs` from `first` and the argument
   * cells `ps` from `params` side by side, binding each formal's symbol to
   * its argument; a formal cell whose `cdr` is a symbol binds that symbol
   * to the remaining arguments and ends the walk.
   */
  method WalkFormals(first: Cell?, params: Cell?, ghost vs: seq<Cell>, ghost ps: seq<Cell>) returns (b: map<Symbol, Item>)
    requires Formals(first, vs) && Arguments(params, ps, vs)
    ensures b == Walked(vs, ps)
  {
    b := map[];
    var variablelist := first;
    var p := params;
    ghost var i := 0;
    ghost var names, values, rest := FormalNames(vs), ArgumentValues(ps), RestBinding(vs, ps);
    while variablelist != null
      invariant 0 <= i <= |vs|
      invariant variablelist == if i < |vs| then vs[i] else null
      invariant i < |vs| ==> p == ps[i]
      invariant i == |vs| ==> rest.None?
      invariant BindAll(names, values, rest, map[]) == BindAll(names[i..], values[i..], rest, b)
      decreases |vs| - i
    {
      b := b[variablelist.car.id := p.car];
      if variablelist.cdr.CellRef? {
        assert i + 1 < |vs| ==> ps[i].cdr == CellRef(ps[i + 1]);
        variablelist := variablelist.cdr.cell;
        p := p.cdr.cell;
        i := i + 1;
      } else {
        // `return` from the constructor
        assert i == |vs| - 1;
        assert names[i..][1..] == [] && values[i..][1..] == [];
        assert rest == Some((variablelist.cdr.id, p.cdr));
        b := b[variablelist.cdr.id := p.cdr];
        assert b == BindAll(names, values, rest, map[]);
        break;
      }
    }
  }

  /**
   * With distinct names, each name is bound to the value in the same
   * position, the rest symbol to its value, and every other symbol keeps
   * its old binding or stays unbound.
   */
  lemma {:induction false} BindAllPositional(names: seq<Symbol>, values: seq<Item>, rest: Option<(Symbol, Item)>, m: map<Symbol, Item>)
    requires |values| == |names|
    requires forall i, j :: 0 <= i < j < |names| ==> names[i] != names[j]
    requires rest.Some? ==> rest.value.0 !in names
    ensures forall i :: 0 <= i < |names| ==> names[i] in BindAll(names, values, rest, m) && BindAll(names, values, rest, m)[names[i]] == values[i]
    ensures rest.Some? ==> rest.value.0 in BindAll(names, values, rest, m) && BindAll(names, values, rest, m)[rest.value.0] == rest.value.1
    ensures forall k :: k !in names && (rest.None? || k != rest.value.0) ==>
      (k in BindAll(names, values, rest, m) <==> k in m) && (k in m ==> BindAll(names, values, rest, m)[k] == m[k])
    decreases |names|
  {
    if names != [] {
      var r := BindAll(names, values, rest, m);
      BindAllPositional(names[1..], values[1..], rest, m[names[0] := values[0]]);
      assert names[0] !in names[1..];
      forall i | 0 <= i < |names|
        ensures names[i] in r && r[names[i]] == values[i]
      {
        if i > 0 {
          assert names[i] == names[1..][i - 1] && values[i] == values[1..][i - 1];
        }
      }
    }
  }
}
