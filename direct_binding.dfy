/**
 * What the binding constructor of a call frame binds
 * (scheme/scheme.cpp:165-179): formal `i` is bound to argument `i`,
 * evaluated in the caller's frame in the state the earlier arguments left;
 * names that are not formals keep their bindings; arguments past the last
 * formal are never evaluated; and the binding succeeds only when there are
 * at least as many arguments as formals.
 */
module DirectBinding {
  import opened Maybe
  import opened Symbols
  import opened DirectCore
  import opened DirectEval

  /** The list `x` after its first `n` cells, or the end of `x` when it is shorter. */
  function Tail(x: Item, n: nat): (r: Item)
    ensures n > 0 && x.Pair? ==> r == Tail(x.cdr, n - 1)
    ensures n == 0 || !x.Pair? ==> r == x
  {
    if n == 0 || !x.Pair? then x else Tail(x.cdr, n - 1)
  }

  /** The first `n` cells of `x`, ending in the null cell. */
  function Take(x: Item, n: nat): (r: Item)
    ensures IsCell(r)
    ensures FrameBound(r) <= FrameBound(x)
    ensures n > 0 && x.Pair? ==> r == Pair(x.car, Take(x.cdr, n - 1))
    ensures n == 0 || !x.Pair? ==> r == Nil
  {
    if n == 0 || !x.Pair? then Nil else Pair(x.car, Take(x.cdr, n - 1))
  }

  /**
   * The state in which the binding loop evaluates argument `i`: the state
   * left by evaluating and binding arguments `0 .. i - 1`, or `None` when
   * the loop stops before argument `i`.
   */
  ghost function StateBefore(fuel: nat, variables: Item, params: Item, frame: FrameRef, env: FrameRef, st: State, i: nat): (r: Option<State>)
    requires WellFormed(st.frames) && env < |st.frames| && frame < |st.frames|
    requires RefersBelow(params, |st.frames|)
    ensures r.Some? ==> WellFormed(r.value.frames) && |st.frames| <= |r.value.frames|
    ensures r.Some? ==> RefersBelow(params, |r.value.frames|)
    decreases i
  {
    if i == 0 then Some(st)
    else if !variables.Pair? || !params.Pair? then None
    else
      RefersBelowParts(params, |st.frames|);
      var v := Eval(fuel, params.car, env, st);
      if !v.out.Ok? || !variables.car.Symbol? || !IsCell(variables.cdr) || !IsCell(params.cdr) || variables.cdr == Nil then
        None
      else
        AssignWellFormed(v.st.frames, frame, variables.car.id, v.out.value);
        var st1 := v.st.(frames := Assign(v.st.frames, frame, variables.car.id, v.out.value));
        StateBefore(fuel, variables.cdr, params.cdr, frame, env, st1, i - 1)
  }

  /** A name that is not among the formals keeps its binding in the new frame, or stays unbound. */
  lemma {:induction false} BindKeeps(fuel: nat, variables: Item, params: Item, frame: FrameRef, env: FrameRef, st: State, s: Symbol)
    requires WellFormed(st.frames) && env < |st.frames| && frame < |st.frames|
    requires RefersBelow(params, |st.frames|)
    requires frame != env && s !in ParamSymbols(variables)
    ensures var b := BindArguments(fuel, variables, params, frame, env, st).st.frames[frame].bindings;
      && (s in b <==> s in st.frames[frame].bindings)
      && (s in b ==> b[s] == st.frames[frame].bindings[s])
    decreases variables
  {
    RefersBelowParts(params, |st.frames|);
    if variables.Pair? && params.Pair? {
      var v := Eval(fuel, params.car, env, st);
      assert v.st.frames[frame] == st.frames[frame];
      if v.out.Ok? && variables.car.Symbol? {
        AssignWellFormed(v.st.frames, frame, variables.car.id, v.out.value);
        var st1 := v.st.(frames := Assign(v.st.frames, frame, variables.car.id, v.out.value));
        if IsCell(variables.cdr) && IsCell(params.cdr) && variables.cdr != Nil {
          BindKeeps(fuel, variables.cdr, params.cdr, frame, env, st1, s);
        }
      }
    }
  }

  /**
   * When binding succeeds, every formal `i` is a symbol with an argument
   * `i`; the loop reached argument `i` and evaluated it in the caller's
   * frame to a value; and unless the same name appears again later among
   * the formals (then the later one wins), the new frame binds formal `i`
   * to that value.
   */
  lemma {:induction false} BindValues(fuel: nat, variables: Item, params: Item, frame: FrameRef, env: FrameRef, st: State, i: nat)
    requires WellFormed(st.frames) && env < |st.frames| && frame < |st.frames|
    requires RefersBelow(params, |st.frames|)
    requires frame != env
    requires BindArguments(fuel, variables, params, frame, env, st).out.Ok?
    requires Nth(variables, i).Some?
    ensures Nth(params, i).Some? && Nth(variables, i).value.Symbol?
    ensures StateBefore(fuel, variables, params, frame, env, st, i).Some?
    ensures var s := StateBefore(fuel, variables, params, frame, env, st, i).value;
      var name := Nth(variables, i).value.id;
      var v := Eval(fuel, Nth(params, i).value, env, s);
      var b := BindArguments(fuel, variables, params, frame, env, st).st.frames[frame].bindings;
      && v.out.Ok?
      && (name !in ParamSymbols(Tail(variables, i + 1)) ==> name in b && b[name] == v.out.value)
    decreases i
  {
    RefersBelowParts(params, |st.frames|);
    var v := Eval(fuel, params.car, env, st);
    AssignWellFormed(v.st.frames, frame, variables.car.id, v.out.value);
    var st1 := v.st.(frames := Assign(v.st.frames, frame, variables.car.id, v.out.value));
    if i == 0 {
      if variables.cdr != Nil && variables.car.id !in ParamSymbols(variables.cdr) {
        BindKeeps(fuel, variables.cdr, params.cdr, frame, env, st1, variables.car.id);
      }
    } else {
      BindValues(fuel, variables.cdr, params.cdr, frame, env, st1, i - 1);
    }
  }

  /** After one pass of the loop both lists go on past their first cell, in a well-formed store at least as large. */
  lemma FirstPass(fuel: nat, variables: Item, params: Item, frame: FrameRef, env: FrameRef, st: State)
    requires WellFormed(st.frames) && env < |st.frames| && frame < |st.frames|
    requires RefersBelow(params, |st.frames|)
    ensures var s1 := StateBefore(fuel, variables, params, frame, env, st, 1);
      s1.Some? ==>
        && variables.Pair? && params.Pair? && IsCell(variables.cdr) && IsCell(params.cdr) && variables.cdr != Nil
        && WellFormed(s1.value.frames) && env < |s1.value.frames| && frame < |s1.value.frames|
        && RefersBelow(params.cdr, |s1.value.frames|)
  {
    var s1 := StateBefore(fuel, variables, params, frame, env, st, 1);
    if s1.Some? {
      RefersBelowParts(params, |s1.value.frames|);
    }
  }

  /**
   * One pass of the loop reads only the first argument: two argument lists
   * with the same first argument bind alike when what is left of them after
   * that pass binds alike.
   */
  lemma BindSameHead(fuel: nat, variables: Item, p: Item, q: Item, frame: FrameRef, env: FrameRef, st: State)
    requires WellFormed(st.frames) && env < |st.frames| && frame < |st.frames|
    requires RefersBelow(p, |st.frames|) && RefersBelow(q, |st.frames|)
    requires variables.Pair? && p.Pair? && q.Pair? && p.car == q.car && IsCell(p.cdr) && IsCell(q.cdr)
    requires var s1 := StateBefore(fuel, variables, p, frame, env, st, 1);
      s1.Some? ==> BindArguments(fuel, variables.cdr, p.cdr, frame, env, s1.value) == BindArguments(fuel, variables.cdr, q.cdr, frame, env, s1.value)
    ensures BindArguments(fuel, variables, p, frame, env, st) == BindArguments(fuel, variables, q, frame, env, st)
  {
    RefersBelowParts(p, |st.frames|);
    RefersBelowParts(q, |st.frames|);
  }

  /** The first `n` arguments, for `n` formals, opened up at their first cell. */
  lemma TakeShape(variables: Item, params: Item, n: nat)
    requires Length(variables) == Some(n) && IsCell(Tail(params, n)) && variables.Pair? && params.Pair?
    ensures n > 0 && IsCell(params.cdr)
    ensures Take(params, n) == Pair(params.car, Take(params.cdr, n - 1))
    ensures IsCell(variables.cdr) ==> Length(variables.cdr) == Some(n - 1)
    ensures IsCell(Tail(params.cdr, n - 1))
    ensures !params.cdr.Pair? ==> Take(params.cdr, n - 1) == params.cdr
  {
  }

  /**
   * One pass of the loop over the arguments and over their first `n`: the
   * two bind alike once what is left after the first argument binds alike.
   */
  lemma TakeStep(fuel: nat, variables: Item, params: Item, frame: FrameRef, env: FrameRef, st: State, n: nat)
    requires WellFormed(st.frames) && env < |st.frames| && frame < |st.frames|
    requires RefersBelow(params, |st.frames|)
    requires Length(variables) == Some(n) && IsCell(Tail(params, n)) && variables.Pair? && params.Pair?
    requires var s1 := StateBefore(fuel, variables, params, frame, env, st, 1);
      s1.Some? && params.cdr.Pair? ==>
        BindArguments(fuel, variables.cdr, params.cdr, frame, env, s1.value) == BindArguments(fuel, variables.cdr, Take(params.cdr, n - 1), frame, env, s1.value)
    ensures BindArguments(fuel, variables, params, frame, env, st) == BindArguments(fuel, variables, Take(params, n), frame, env, st)
  {
    TakeShape(variables, params, n);
    var t := Take(params, n);
    assert RefersBelow(t, |st.frames|);
    var s1 := StateBefore(fuel, variables, params, frame, env, st, 1);
    FirstPass(fuel, variables, params, frame, env, st);
    if s1.Some? && params.cdr.Pair? {
      BindSameHead(fuel, variables, params, t, frame, env, st);
    } else if s1.Some? {
      assert params.cdr == t.cdr;
      BindSameHead(fuel, variables, params, t, frame, env, st);
    } else {
      BindSameHead(fuel, variables, params, t, frame, env, st);
    }
  }

  /**
   * Arguments past the last formal are never evaluated: binding against
   * the first `n` arguments alone, for `n` formals, gives the same outcome
   * and state, provided the argument list goes on as a list after them.
   */
  lemma {:induction false} BindIgnoresSurplus(fuel: nat, variables: Item, params: Item, frame: FrameRef, env: FrameRef, st: State, n: nat)
    requires WellFormed(st.frames) && env < |st.frames| && frame < |st.frames|
    requires RefersBelow(params, |st.frames|)
    requires Length(variables) == Some(n) && IsCell(Tail(params, n))
    ensures BindArguments(fuel, variables, params, frame, env, st) == BindArguments(fuel, variables, Take(params, n), frame, env, st)
    decreases variables
  {
    if variables.Pair? && params.Pair? {
      TakeShape(variables, params, n);
      var s1 := StateBefore(fuel, variables, params, frame, env, st, 1);
      FirstPass(fuel, variables, params, frame, env, st);
      if s1.Some? && params.cdr.Pair? {
        BindIgnoresSurplus(fuel, variables.cdr, params.cdr, frame, env, s1.value, n - 1);
      }
      TakeStep(fuel, variables, params, frame, env, st, n);
    } else {
      assert Take(params, n) == Nil;
    }
  }

  /**
   * With fewer arguments than formals the binding fails: the outcome is a
   * `Fault`, unless the evaluation of one of the arguments, from the state
   * the loop reached it in, already ran out of fuel.
   */
  lemma {:induction false} BindRunsOut(fuel: nat, variables: Item, params: Item, frame: FrameRef, env: FrameRef, st: State, m: nat)
    requires WellFormed(st.frames) && env < |st.frames| && frame < |st.frames|
    requires RefersBelow(params, |st.frames|)
    requires Length(params) == Some(m) && Nth(variables, m).Some?
    ensures var r := BindArguments(fuel, variables, params, frame, env, st);
      && !r.out.Ok?
      && (r.out.OutOfFuel? ==>
            exists i: nat :: i < m && StateBefore(fuel, variables, params, frame, env, st, i).Some? && Nth(params, i).Some? &&
              Eval(fuel, Nth(params, i).value, env, StateBefore(fuel, variables, params, frame, env, st, i).value).out.OutOfFuel?)
    decreases m
  {
    RefersBelowParts(params, |st.frames|);
    if m > 0 {
      assert variables.Pair? && params.Pair?;
      var v := Eval(fuel, params.car, env, st);
      if !v.out.Ok? {
        assert StateBefore(fuel, variables, params, frame, env, st, 0) == Some(st);
        assert Nth(params, 0) == Some(params.car);
      } else if variables.car.Symbol? && IsCell(variables.cdr) && IsCell(params.cdr) {
        AssignWellFormed(v.st.frames, frame, variables.car.id, v.out.value);
        var st1 := v.st.(frames := Assign(v.st.frames, frame, variables.car.id, v.out.value));
        BindRunsOut(fuel, variables.cdr, params.cdr, frame, env, st1, m - 1);
        var r := BindArguments(fuel, variables.cdr, params.cdr, frame, env, st1);
        assert BindArguments(fuel, variables, params, frame, env, st) == r;
        if r.out.OutOfFuel? {
          var i: nat :| i < m - 1 && StateBefore(fuel, variables.cdr, params.cdr, frame, env, st1, i).Some? && Nth(params.cdr, i).Some? &&
            Eval(fuel, Nth(params.cdr, i).value, env, StateBefore(fuel, variables.cdr, params.cdr, frame, env, st1, i).value).out.OutOfFuel?;
          assert StateBefore(fuel, variables, params, frame, env, st, i + 1) == StateBefore(fuel, variables.cdr, params.cdr, frame, env, st1, i);
          assert Nth(params, i + 1) == Nth(params.cdr, i);
        }
      }
    }
  }
}
