/**
 * The mutable side of the direct-style interpreter (scheme/scheme.cpp):
 * the global symbol table, the root `Context` and every `Context` created
 * since, with `Lookup` and `Set` on a context, the frame constructors, and
 * `addNativeFns`.
 *
 * The store of frames is a field the methods reassign; a `Context*` is the
 * index of its frame there, and `gRootContext` is frame 0. Each method is
 * proved against the function `eval` is defined with (`DirectCore.Lookup`,
 * `Assign`, `NewFrame`, `BindArguments`, `InstallNatives`), so everything
 * proved about those functions holds of the objects.
 */
module DirectMachine {
  import opened Maybe
  import opened Symbols
  import opened DirectCore
  import opened DirectEval

  class Interpreter {
    /** `gSymbolTable`. */
    const symbols: SymbolTable
    /** Every `Context` created so far; frame 0 is `gRootContext`. */
    var frames: seq<Frame>

    /** The state `eval` reads and updates. */
    function Snapshot(): DirectEval.State
      reads this, symbols
    {
      DirectEval.State(frames, symbols.State())
    }

    /** The root frame exists, the store is well formed and the table consistent. */
    ghost predicate Valid()
      reads this, symbols
    {
      && WellFormed(frames)
      && |frames| >= 1
      && symbols.Valid()
    }

    /** The globals before `main` runs: an empty root context and an empty table. */
    constructor ()
      ensures Valid() && fresh(symbols)
      ensures Snapshot() == DirectEval.State([Frame(map[], None)], EmptyTable())
    {
      symbols := new SymbolTable();
      frames := [Frame(map[], None)];
      new;
      EmptyTableConsistent();
    }

    /**
     * `Context::Lookup`: the binding of `symbol` in frame `f`, else the one
     * its outer context finds, else the unspecified item.
     */
    method Lookup(f: FrameRef, symbol: Symbol) returns (v: Item)
      requires Linked(frames) && f < |frames|
      ensures v == DirectCore.Lookup(frames, f, symbol)
      ensures symbol in Visible(frames, f) ==> v == Visible(frames, f)[symbol]
      ensures symbol !in Visible(frames, f) ==> v == Unspecified
      decreases f
    {
      LookupInnermost(frames, f, symbol);
      if symbol !in frames[f].bindings {
        match frames[f].outer
        case None =>
          v := Unspecified;
        case Some(o) =>
          v := Lookup(o, symbol);
      } else {
        v := frames[f].bindings[symbol];
      }
    }

    /** `Context::Set`: bind `symbol` in frame `f` itself, whatever outer frames bind. */
    method Set(f: FrameRef, symbol: Symbol, value: Item)
      requires WellFormed(frames) && f < |frames| && RefersBelow(value, |frames|)
      modifies this
      ensures frames == Assign(old(frames), f, symbol, value)
      ensures WellFormed(frames)
      ensures DirectCore.Lookup(frames, f, symbol) == value
    {
      AssignWellFormed(frames, f, symbol, value);
      AssignLocal(frames, f, symbol, value);
      frames := Assign(frames, f, symbol, value);
    }

    /** `new Context(outer)`: an empty frame inside `outer`. */
    method NewContext(outer: FrameRef) returns (n: FrameRef)
      requires WellFormed(frames) && outer < |frames|
      modifies this
      ensures (n, Snapshot()) == NewFrame(old(Snapshot()), outer)
    {
      n := |frames|;
      AppendWellFormed(frames, Frame(map[], Some(outer)));
      frames := frames + [Frame(map[], Some(outer))];
    }

    /**
     * The binding constructor `Context(variables, params, outer,
     * evalcontext)`: a new frame inside `outer`, then a do-while loop that
     * binds the current variable to the value of the current argument,
     * evaluated in `env`, and moves both lists on while variables remain.
     */
    method BindFrame(fuel: nat, variables: Item, params: Item, outer: FrameRef, env: FrameRef) returns (n: FrameRef, out: Outcome)
      requires Valid() && outer < |frames| && env < |frames| && RefersBelow(params, |frames|)
      modifies this, symbols
      ensures Valid()
      ensures var (n0, st0) := NewFrame(old(Snapshot()), outer);
        n == n0 && Step(out, Snapshot()) == BindArguments(fuel, variables, params, n0, env, st0)
    {
      ghost var st0 := NewFrame(Snapshot(), outer).1;
      n := NewContext(outer);
      var vs, ps := variables, params;
      var done := false;
      out := Fault;
      while !done
        invariant Valid() && n < |frames| && env < |frames|
        invariant !done ==> RefersBelow(ps, |frames|)
        invariant BindArguments(fuel, variables, params, n, env, st0)
                    == if done then Step(out, Snapshot()) else BindArguments(fuel, vs, ps, n, env, Snapshot())
        decreases !done, vs
      {
        done, out, vs, ps := BindStep(fuel, vs, ps, n, env);
      }
    }

    /**
     * One pass of the binding loop: evaluate the current argument in `env`,
     * bind the current variable of frame `n` to its value, and move both
     * lists on. `done` says the loop stops, with `out` its outcome.
     */
    method BindStep(fuel: nat, vs: Item, ps: Item, n: FrameRef, env: FrameRef) returns (done: bool, out: Outcome, vs': Item, ps': Item)
      requires Valid() && n < |frames| && env < |frames| && RefersBelow(ps, |frames|)
      modifies this, symbols
      ensures Valid() && n < |frames| && env < |frames|
      ensures !done ==> RefersBelow(ps', |frames|) && vs' < vs
      ensures BindArguments(fuel, vs, ps, n, env, old(Snapshot()))
                == if done then Step(out, Snapshot()) else BindArguments(fuel, vs', ps', n, env, Snapshot())
    {
      RefersBelowParts(ps, |frames|);
      vs', ps' := vs, ps;
      done := true;
      if !vs.Pair? || !ps.Pair? {
        // the loop dereferences a null `variables` or `params`
        out := Fault;
      } else {
        var v := Eval(fuel, ps.car, env, Snapshot());
        frames := v.st.frames;
        symbols.stringToSymbol, symbols.symbolToString, symbols.count := v.st.table.stringToSymbol, v.st.table.symbolToString, v.st.table.count;
        assert Snapshot() == v.st;
        if !v.out.Ok? {
          out := v.out;
        } else if !vs.car.Symbol? {
          out := Fault;
        } else {
          Set(n, vs.car.id, v.out.value);
          RefersBelowParts(ps, |frames|);
          if !IsCell(vs.cdr) || !IsCell(ps.cdr) {
            out := Fault;
          } else if vs.cdr == Nil {
            out := Ok(Unspecified);
          } else {
            out := Fault;
            done := false;
            vs', ps' := vs.cdr, ps.cdr;
          }
        }
      }
    }

    /** `gRootContext.Set(gSymbolTable.GetSymbol(name), Item(fn))` for the `i`-th native. */
    method BindNative(i: nat)
      requires Valid() && i < |NativeNames|
      modifies this, symbols
      ensures Valid()
      ensures Snapshot() == InstallNative(old(Snapshot()), 0, i)
    {
      var id := symbols.GetSymbol(NativeNames[i]);
      Set(0, id, NativeProc(NativeFns[i]));
    }

    /** `addNativeFns`: bind each native under its name in the root context, in order. */
    method AddNativeFns()
      requires Valid()
      modifies this, symbols
      ensures Valid()
      ensures Snapshot() == InstallNatives(old(Snapshot()), 0, |NativeNames|)
    {
      ghost var s0 := Snapshot();
      BindNative(0);
      assert Snapshot() == InstallNatives(s0, 0, 1);
      BindNative(1);
      assert Snapshot() == InstallNatives(s0, 0, 2);
      BindNative(2);
      assert Snapshot() == InstallNatives(s0, 0, 3);
      BindNative(3);
      assert Snapshot() == InstallNatives(s0, 0, 4);
      BindNative(4);
      assert Snapshot() == InstallNatives(s0, 0, 5);
      BindNative(5);
      assert Snapshot() == InstallNatives(s0, 0, 6);
      BindNative(6);
      assert Snapshot() == InstallNatives(s0, 0, 7);
      BindNative(7);
      assert Snapshot() == InstallNatives(s0, 0, 8);
      BindNative(8);
      assert Snapshot() == InstallNatives(s0, 0, 9);
      BindNative(9);
    }

    /** `eval(item, &gRootContext)` as the read-eval-print loop calls it. */
    method EvalRoot(fuel: nat, item: Item) returns (out: Outcome)
      requires Valid() && RefersBelow(item, |frames|)
      modifies this, symbols
      ensures Valid()
      ensures Step(out, Snapshot()) == Eval(fuel, item, 0, old(Snapshot()))
    {
      var r := Eval(fuel, item, 0, Snapshot());
      frames := r.st.frames;
      symbols.stringToSymbol, symbols.symbolToString, symbols.count := r.st.table.stringToSymbol, r.st.table.symbolToString, r.st.table.count;
      out := r.out;
    }
  }

  /** The interpreter after start-up: the root context holds the natives, as `RootState` describes. */
  method Start() returns (m: Interpreter)
    ensures fresh(m) && fresh(m.symbols) && m.Valid()
    ensures m.Snapshot() == RootState()
  {
    m := new Interpreter();
    m.AddNativeFns();
  }
}
