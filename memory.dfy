/**
 * The fixed-capacity arena of the boost::any runtime (scheme/memory.cpp,
 * scheme/memory.h): a pool of cells and a pool of contexts, allocation that
 * collects garbage once when a pool is exhausted and then retries, and the
 * unmark / mark / collect cycle.
 *
 * The pool class behind `mCells` and `mContexts` is not part of this model;
 * each pool here is the set of its live nodes and the number of free ones,
 * and a node it hands out is a fresh object. `Context::mark` is not part of
 * this model either: a collection takes the contexts and the cells it marks
 * directly as arguments (`reached` and `roots`) and marks from those cells
 * with `Cell::mark`.
 */
module Memory {
  import opened Runtime

  /** `cMaxCells`. */
  const MaxCells: nat := 1000000
  /** `cMaxContexts`. */
  const MaxContexts: nat := 1000

  /** `x` holds no cell pointer, the null one, or one to a cell of `S`. */
  predicate PointsInto(x: Item, S: set<Cell>) {
    x.CellRef? && x.cell != null ==> x.cell in S
  }

  /** A subset is no larger than its superset. */
  lemma {:induction false} SubsetSize<T>(a: set<T>, b: set<T>)
    requires a <= b
    ensures |a| <= |b|
    decreases b
  {
    if a != {} {
      var x :| x in a;
      SubsetSize(a - {x}, b - {x});
    }
  }

  /** A pool of cells: every node is live or free, and live cells point only to live cells. */
  class CellPool {
    const capacity: nat
    var live: set<Cell>
    var free: nat

    ghost predicate Valid()
      reads this, live
    {
      |live| + free == capacity && Closed(live)
    }

    /** A pool whose nodes are all free. */
    constructor (capacity: nat)
      ensures this.capacity == capacity && live == {} && free == capacity && Valid()
    {
      this.capacity := capacity;
      live := {};
      free := capacity;
    }

    /** `alloc(car, cdr)`: null when no node is free, else a new cell holding `car` and `cdr`. */
    method Alloc(car: Item, cdr: Item) returns (c: Cell?)
      requires Valid() && PointsInto(car, live) && PointsInto(cdr, live)
      modifies this
      ensures Valid()
      ensures old(free) == 0 ==> c == null && live == old(live) && free == 0
      ensures old(free) > 0 ==> c != null && fresh(c) && live == old(live) + {c} && free == old(free) - 1
      ensures c != null ==> c.car == car && c.cdr == cdr && !c.reachable
    {
      if free == 0 {
        return null;
      }
      c := new Cell(car, cdr);
      live := live + {c};
      free := free - 1;
    }

    /** `markUnreachable`: clear the mark of every live cell; yields how many there are. */
    method MarkUnreachable() returns (n: nat)
      requires Valid()
      modifies live`reachable
      ensures Valid() && n == |live|
      ensures forall c :: c in live ==> !c.reachable
    {
      var todo := live;
      while todo != {}
        invariant todo <= live
        invariant forall c :: c in live && c !in todo ==> !c.reachable
        decreases todo
      {
        var c :| c in todo;
        c.Unmark();
        todo := todo - {c};
      }
      n := |live|;
    }

    /**
     * Marking from `roots` with `Cell::mark`, one root at a time, once every
     * live cell is unmarked: the roots end up marked, the marked cells are
     * closed under `Children`, and all of them lie in `reach`.
     */
    method MarkFrom(roots: set<Cell>, ghost reach: set<Cell>)
      requires Valid() && roots <= reach <= live && Closed(reach)
      requires forall c :: c in live ==> !c.reachable
      modifies live`reachable
      ensures Valid() && MarkedBelow(live, {})
      ensures forall c :: c in roots ==> c.reachable
      ensures forall c :: c in live && c.reachable ==> c in reach
    {
      var todo := roots;
      while todo != {}
        invariant todo <= roots
        invariant MarkedBelow(live, {})
        invariant forall c :: c in roots && c !in todo ==> c.reachable
        invariant forall c :: c in live && c.reachable ==> c in reach
        decreases todo
      {
        var c :| c in todo;
        c.Mark(live, {}, reach);
        todo := todo - {c};
      }
    }

    /**
     * The cell side of `gc`: unmark every live cell, mark from `roots`, then
     * `collect`. The roots and every cell on a path from them survive, and
     * no cell outside `reach` does.
     */
    method Sweep(roots: set<Cell>, ghost reach: set<Cell>) returns (n: nat)
      requires Valid() && roots <= reach <= live && Closed(reach)
      modifies this, live`reachable
      ensures Valid() && live <= old(live) && roots <= live <= reach
      ensures MarkedBelow(live, {})
      ensures forall p :: Path(p) && p != [] && p[0] in roots ==> forall i :: 0 <= i < |p| ==> p[i] in live
      ensures n == |old(live)| - |live| && free == old(free) + n
    {
      var considered := MarkUnreachable();
      MarkFrom(roots, reach);
      n := Collect();
      PathsStayMarked(live, roots);
    }

    /** `collect`: every unmarked live cell returns to the free list; yields how many did. */
    method Collect() returns (n: nat)
      requires Valid() && MarkedBelow(live, {})
      modifies this
      ensures Valid()
      ensures live == set c | c in old(live) && c.reachable
      ensures free == old(free) + n
    {
      var kept := set c | c in live && c.reachable;
      SubsetSize(kept, live);
      n := |live| - |kept|;
      live := kept;
      free := free + n;
    }
  }

  /** A pool of contexts: every node is live or free. */
  class ContextPool {
    const capacity: nat
    var live: set<Context>
    var free: nat

    ghost predicate Valid()
      reads this
    {
      |live| + free == capacity
    }

    /** A pool whose nodes are all free. */
    constructor (capacity: nat)
      ensures this.capacity == capacity && live == {} && free == capacity && Valid()
    {
      this.capacity := capacity;
      live := {};
      free := capacity;
    }

    /** `alloc(outer)`: null when no node is free, else a new empty context inside `outer`. */
    method Alloc(outer: Context?) returns (c: Context?)
      requires Valid() && (outer != null ==> outer.Chained())
      modifies this
      ensures Valid()
      ensures old(free) == 0 ==> c == null && live == old(live) && free == 0
      ensures old(free) > 0 ==> c != null && fresh(c) && live == old(live) + {c} && free == old(free) - 1
      ensures c != null ==> c.outer == outer && c.bindings == map[] && c.Chained()
    {
      if free == 0 {
        return null;
      }
      c := new Context.Inner(outer);
      live := live + {c};
      free := free - 1;
    }

    /** `alloc(variables, params, outer)`: null when no node is free, else a new context binding the formals. */
    method AllocBind(variables: Item, params: Cell?, outer: Context?, ghost vs: seq<Cell>, ghost ps: seq<Cell>) returns (c: Context?)
      requires Valid() && (outer != null ==> outer.Chained())
      requires !variables.Symbol? ==> variables.CellRef? && Formals(variables.cell, vs) && Arguments(params, ps, vs)
      modifies this
      ensures Valid()
      ensures old(free) == 0 ==> c == null && live == old(live) && free == 0
      ensures old(free) > 0 ==> c != null && fresh(c) && live == old(live) + {c} && free == old(free) - 1
      ensures c != null ==> c.outer == outer && c.Chained()
      ensures c != null && variables.Symbol? ==> c.bindings == map[variables.id := CellRef(params)]
      ensures c != null && !variables.Symbol? ==> c.bindings == Walked(vs, ps)
    {
      if free == 0 {
        return null;
      }
      c := new Context.Bind(variables, params, outer, vs, ps);
      live := live + {c};
      free := free - 1;
    }

    /** `markUnreachable`: clear the mark of every live context; yields how many there are. */
    method MarkUnreachable() returns (n: nat)
      requires Valid()
      modifies live`reachable
      ensures Valid() && n == |live|
      ensures forall c :: c in live ==> !c.reachable
    {
      var todo := live;
      while todo != {}
        invariant todo <= live
        invariant forall c :: c in live && c !in todo ==> !c.reachable
        decreases todo
      {
        var c :| c in todo;
        c.reachable := false;
        todo := todo - {c};
      }
      n := |live|;
    }

    /** What `context->mark()` does to contexts: mark those of `reached` that are live. */
    method MarkReached(reached: set<Context>)
      requires Valid()
      requires forall c :: c in live ==> !c.reachable
      modifies live`reachable
      ensures Valid()
      ensures forall c :: c in live ==> (c.reachable <==> c in reached)
    {
      var pending := reached * live;
      while pending != {}
        invariant pending <= reached * live
        invariant forall c :: c in live ==> (c.reachable <==> c in reached && c !in pending)
        decreases pending
      {
        var c :| c in pending;
        c.reachable := true;
        pending := pending - {c};
      }
    }

    /**
     * The context side of `gc`: unmark every live context, mark those
     * `context->mark()` reaches, then `collect`. The live contexts left are
     * the reached ones.
     */
    method Sweep(reached: set<Context>) returns (n: nat)
      requires Valid()
      modifies this, live`reachable
      ensures Valid() && live == old(live) * reached
      ensures n == |old(live)| - |live| && free == old(free) + n
    {
      var considered := MarkUnreachable();
      MarkReached(reached);
      n := Collect();
    }

    /** `collect`: every unmarked live context returns to the free list; yields how many did. */
    method Collect() returns (n: nat)
      requires Valid()
      modifies this
      ensures Valid()
      ensures live == set c | c in old(live) && c.reachable
      ensures free == old(free) + n
    {
      var kept := set c | c in live && c.reachable;
      SubsetSize(kept, live);
      n := |live| - |kept|;
      live := kept;
      free := free + n;
    }
  }

  /** `Memory`: the two pools and the root context. */
  class Memory {
    const cells: CellPool
    const contexts: ContextPool
    /** `mRootContext`. */
    const root: Context

    ghost predicate Valid()
      reads this, cells, cells.live, contexts
    {
      cells.Valid() && contexts.Valid()
    }

    /** `Memory()`: both pools at their capacities, and the root context allocated from the context pool with no outer context. */
    constructor ()
      ensures Valid() && cells.capacity == MaxCells && contexts.capacity == MaxContexts
      ensures cells.live == {} && contexts.live == {root}
      ensures root.outer == null && root.bindings == map[] && root.Chained()
      ensures fresh(cells) && fresh(contexts)
    {
      var cs := new CellPool(MaxCells);
      var xs := new ContextPool(MaxContexts);
      var r := xs.Alloc(null);
      cells := cs;
      contexts := xs;
      root := r;
    }

    /**
     * `gc(context)`: unmark every live cell and context, mark what
     * `context->mark()` marks, then return every unmarked node to its free
     * list. The two pools share no node and each side only reads and writes
     * its own, so the model runs the context side to its end before the cell
     * side. Every cell on a path from a root survives. `reach` is any set of
     * live cells closed under `Children` that holds the roots, and no cell
     * outside it survives; with `reach` the cells reachable from the roots,
     * the survivors are exactly those.
     */
    method Gc(current: Context, reached: set<Context>, roots: set<Cell>, ghost reach: set<Cell>)
      requires Valid() && current in reached
      requires roots <= reach <= cells.live && Closed(reach)
      modifies cells, cells.live`reachable, contexts, contexts.live`reachable
      ensures Valid()
      ensures cells.live <= old(cells.live) && roots <= cells.live <= reach
      ensures MarkedBelow(cells.live, {})
      ensures forall p :: Path(p) && p != [] && p[0] in roots ==> forall i :: 0 <= i < |p| ==> p[i] in cells.live
      ensures cells.free == old(cells.free) + (|old(cells.live)| - |cells.live|)
      ensures contexts.live == old(contexts.live) * reached
      ensures contexts.free == old(contexts.free) + (|old(contexts.live)| - |contexts.live|)
    {
      var freedContexts := contexts.Sweep(reached);
      var freedCells := cells.Sweep(roots, reach);
    }

    /**
     * `allocCell` as its callers use it: the collection marks only from the
     * current context, so a cell that the caller holds in a local, and that
     * no context reaches, is freed. Here `reach` is what the collection may
     * keep. When the pool was full and `car` or `cdr` points to a cell the
     * collection freed, the source goes on to store that dangling pointer in
     * the new cell; the model stops there and reports it in `dangling`,
     * returning null. Cells outside `reach` held elsewhere by the caller are
     * freed too.
     */
    method AllocCellAsWritten(current: Context, car: Item, cdr: Item, reached: set<Context>, roots: set<Cell>, ghost reach: set<Cell>) returns (cell: Cell?, dangling: bool)
      requires Valid() && current in reached
      requires roots <= reach <= cells.live && Closed(reach)
      requires PointsInto(car, cells.live) && PointsInto(cdr, cells.live)
      modifies cells, cells.live`reachable, contexts, contexts.live`reachable
      ensures Valid()
      ensures dangling <==> old(cells.free) == 0 && !(PointsInto(car, cells.live) && PointsInto(cdr, cells.live))
      ensures old(cells.free) == 0 && !(PointsInto(car, reach) && PointsInto(cdr, reach)) ==> dangling
      ensures old(cells.free) == 0 ==> old(cells.live) * cells.live <= reach
      ensures old(cells.free) > 0 ==> cell != null && cells.live == old(cells.live) + {cell} && contexts.live == old(contexts.live)
      ensures cell != null ==> !dangling && fresh(cell) && cell in cells.live && cell.car == car && cell.cdr == cdr
    {
      dangling := false;
      cell := cells.Alloc(car, cdr);
      if cell == null {
        Gc(current, reached, roots, reach);
        if PointsInto(car, cells.live) && PointsInto(cdr, cells.live) {
          cell := cells.Alloc(car, cdr);
        } else {
          dangling := true;
        }
      }
    }

    /**
     * `allocCell` as intended: a new cell when the pool has a free node;
     * otherwise one collection and a second attempt. The caller passes the
     * cells it still holds, `car` and `cdr` among them, as roots, so the
     * collection keeps them. The source asserts that the second attempt
     * succeeds; here its failure is the null result.
     */
    method AllocCell(current: Context, car: Item, cdr: Item, reached: set<Context>, roots: set<Cell>, ghost reach: set<Cell>) returns (cell: Cell?)
      requires Valid() && current in reached
      requires roots <= reach <= cells.live && Closed(reach)
      requires PointsInto(car, roots) && PointsInto(cdr, roots)
      modifies cells, cells.live`reachable, contexts, contexts.live`reachable
      ensures Valid()
      ensures old(cells.free) > 0 ==> cell != null && cells.live == old(cells.live) + {cell} && contexts.live == old(contexts.live)
      ensures cell != null ==> fresh(cell) && cell in cells.live && cell.car == car && cell.cdr == cdr
      ensures cell == null ==> old(cells.free) == 0 && cells.free == 0 && roots <= cells.live
    {
      cell := cells.Alloc(car, cdr);
      if cell == null {
        Gc(current, reached, roots, reach);
        cell := cells.Alloc(car, cdr);
      }
    }

    /**
     * `allocContext(current, outer)` as written: the retried allocation is
     * stored in a second local that hides the first, so after a failed
     * first attempt the result is null whatever the collection freed, and
     * the retried context is live but lost.
     */
    method AllocContextAsWritten(current: Context, outer: Context?, reached: set<Context>, roots: set<Cell>, ghost reach: set<Cell>) returns (context: Context?)
      requires Valid() && current in reached && (outer != null ==> outer.Chained())
      requires roots <= reach <= cells.live && Closed(reach)
      modifies cells, cells.live`reachable, contexts, contexts.live`reachable
      ensures Valid()
      ensures old(contexts.free) > 0 ==> context != null && fresh(context) && context.outer == outer && context.bindings == map[]
      ensures old(contexts.free) == 0 ==> context == null
    {
      context := contexts.Alloc(outer);
      if context == null {
        Gc(current, reached, roots, reach);
        var retried := contexts.Alloc(outer);
      }
    }

    /** `allocContext(current, outer)` with the retried allocation returned. */
    method AllocContext(current: Context, outer: Context?, reached: set<Context>, roots: set<Cell>, ghost reach: set<Cell>) returns (context: Context?)
      requires Valid() && current in reached && (outer != null ==> outer.Chained())
      requires roots <= reach <= cells.live && Closed(reach)
      modifies cells, cells.live`reachable, contexts, contexts.live`reachable
      ensures Valid()
      ensures old(contexts.free) > 0 ==> context != null && cells.live == old(cells.live)
      ensures context != null ==> fresh(context) && context in contexts.live && context.outer == outer && context.bindings == map[]
      ensures context == null ==> old(contexts.free) == 0 && contexts.free == 0
    {
      context := contexts.Alloc(outer);
      if context == null {
        Gc(current, reached, roots, reach);
        context := contexts.Alloc(outer);
      }
    }

    /** `allocContext(current, variables, params, outer)` as written: null after a failed first attempt, as above. */
    method AllocBindContextAsWritten(current: Context, variables: Item, params: Cell?, outer: Context?, ghost vs: seq<Cell>, ghost ps: seq<Cell>,
                                     reached: set<Context>, roots: set<Cell>, ghost reach: set<Cell>) returns (context: Context?)
      requires Valid() && current in reached && (outer != null ==> outer.Chained())
      requires !variables.Symbol? ==> variables.CellRef? && Formals(variables.cell, vs) && Arguments(params, ps, vs)
      requires roots <= reach <= cells.live && Closed(reach)
      modifies cells, cells.live`reachable, contexts, contexts.live`reachable
      ensures Valid()
      ensures old(contexts.free) > 0 ==> context != null && fresh(context) && context.outer == outer
      ensures old(contexts.free) == 0 ==> context == null
    {
      context := contexts.AllocBind(variables, params, outer, vs, ps);
      if context == null {
        Gc(current, reached, roots, reach);
        var retried := contexts.AllocBind(variables, params, outer, vs, ps);
      }
    }

    /** `allocContext(current, variables, params, outer)` with the retried allocation returned. */
    method AllocBindContext(current: Context, variables: Item, params: Cell?, outer: Context?, ghost vs: seq<Cell>, ghost ps: seq<Cell>,
                            reached: set<Context>, roots: set<Cell>, ghost reach: set<Cell>) returns (context: Context?)
      requires Valid() && current in reached && (outer != null ==> outer.Chained())
      requires !variables.Symbol? ==> variables.CellRef? && Formals(variables.cell, vs) && Arguments(params, ps, vs)
      requires roots <= reach <= cells.live && Closed(reach)
      modifies cells, cells.live`reachable, contexts, contexts.live`reachable
      ensures Valid()
      ensures old(contexts.free) > 0 ==> context != null && cells.live == old(cells.live)
      ensures context != null ==> fresh(context) && context in contexts.live && context.outer == outer
      ensures context != null && variables.Symbol? ==> context.bindings == map[variables.id := CellRef(params)]
      ensures context != null && !variables.Symbol? ==> context.bindings == Walked(vs, ps)
      ensures context == null ==> old(contexts.free) == 0 && contexts.free == 0
    {
      context := contexts.AllocBind(variables, params, outer, vs, ps);
      if context == null {
        Gc(current, reached, roots, reach);
        context := contexts.AllocBind(variables, params, outer, vs, ps);
      }
    }
  }
}
