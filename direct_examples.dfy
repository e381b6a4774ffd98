/**
 * The evaluations `test_eval` and `test_context` check
 * (scheme/scheme.cpp:880-911), stated over the model of `eval`. The
 * reader has already turned each text into cells; the forms are written
 * here as the cells it builds, with the symbol ids it interned. The states
 * are any in which `addNativeFns` has run; `RootNatives` shows the root
 * state is one.
 */
module DirectExamples {
  import opened Maybe
  import opened Symbols
  import opened DirectCore
  import opened DirectEval

  /** The id the table of `st` gives the `j`-th native name. */
  function NativeId(st: State, j: nat): Symbol
    requires NativesInstalled(st) && j < |NativeNames|
  {
    st.table.stringToSymbol[NativeNames[j]]
  }

  /** The cells of `(head a b)`. */
  function Form3(head: Symbol, a: Item, b: Item): (x: Item)
    ensures FrameBound(x) == Max(FrameBound(a), FrameBound(b))
  {
    assert FrameBound(Pair(b, Nil)) == FrameBound(b);
    Pair(Symbol(head), Pair(a, Pair(b, Nil)))
  }

  /** The cells of `'name`, that is `(quote name)`. */
  function Quoted(quote: Symbol, name: Symbol): (x: Item)
    ensures FrameBound(x) == 0
  {
    assert FrameBound(Pair(Symbol(name), Nil)) == 0;
    Pair(Symbol(quote), Pair(Symbol(name), Nil))
  }

  /** The outcome of `(op a b)` in the root frame, where `op` names the `j`-th native. */
  function RootCall(st: State, j: nat, a: Int32, b: Int32): Outcome
    requires NativesInstalled(st) && j < |NativeNames|
  {
    Eval(3, Form3(NativeId(st, j), Number(a), Number(b)), 0, st).out
  }

  /**
   * An arithmetic native applied in the root frame to two numbers yields
   * what the native computes on int32, and a fault where the C operation
   * is undefined.
   */
  lemma RootArithmetic(st: State, j: nat, a: Int32, b: Int32)
    requires NativesInstalled(st) && 5 <= j < |NativeNames|
    ensures RootCall(st, j, a, b) == if Arith(NativeFns[j], a, b).Some? then Ok(Number(Arith(NativeFns[j], a, b).value)) else Fault
  {
    var id := NativeId(st, j);
    var x := Form3(id, Number(a), Number(b));
    assert id < st.table.count && NameOf(st.table, id) !in KeywordNames by {
      assert NameOf(st.table, id) == NativeNames[j];
    }
    assert Lookup(st.frames, 0, id) == NativeProc(NativeFns[j]);
    assert NativeFns[j] !in {NullProc, CarProc, CdrProc};
    var st1 := st.(table := Keyword(st.table, Symbol(id)).0);
    assert WellFormed(st1.frames) && |st1.frames| >= 1 by {
      KeywordGrows(st.table, Symbol(id));
    }
    EvalAtom(2, Number(a), 0, st1);
    EvalAtom(2, Number(b), 0, st1);
    EvalNativeCall(3, x, 0, st, NativeFns[j], Number(a), st1, Number(b), st1);
  }

  /** `(+ 10 1)`, `(* 10 10)`, `(/ 10 2)`, `(- 10 2)` and `(% 3 2)` in the root frame. */
  lemma ArithmeticExamples(st: State)
    requires NativesInstalled(st)
    ensures RootCall(st, 5, 10, 1) == Ok(Number(11))
    ensures RootCall(st, 7, 10, 10) == Ok(Number(100))
    ensures RootCall(st, 8, 10, 2) == Ok(Number(5))
    ensures RootCall(st, 6, 10, 2) == Ok(Number(8))
    ensures RootCall(st, 9, 3, 2) == Ok(Number(1))
  {
    assert Arith(AddProc, 10, 1) == Some(11);
    assert Arith(MulProc, 10, 10) == Some(100);
    assert Arith(DivProc, 10, 2) == Some(5) by { TruncDivMod(10, 2); }
    assert Arith(SubProc, 10, 2) == Some(8);
    assert Arith(ModProc, 3, 2) == Some(1) by { TruncDivMod(3, 2); }
    RootArithmetic(st, 5, 10, 1);
    RootArithmetic(st, 7, 10, 10);
    RootArithmetic(st, 8, 10, 2);
    RootArithmetic(st, 6, 10, 2);
    RootArithmetic(st, 9, 3, 2);
  }

  /** The cells of `(if c 'yes 'no)`. */
  function IfQuoted(i: Symbol, c: Item, quote: Symbol, yes: Symbol, no: Symbol): (x: Item)
    ensures FrameBound(x) == FrameBound(c)
  {
    var tail := Pair(Quoted(quote, no), Nil);
    assert FrameBound(tail) == 0;
    assert FrameBound(Pair(Quoted(quote, yes), tail)) == 0;
    Pair(Symbol(i), Pair(c, Pair(Quoted(quote, yes), tail)))
  }

  /** The ids `st`'s table holds for the names `eval` compares heads against. */
  ghost predicate Names(st: State, i: Symbol, quote: Symbol) {
    && Consistent(st.table)
    && i < st.table.count && NameOf(st.table, i) == "if"
    && quote < st.table.count && NameOf(st.table, quote) == "quote"
  }

  /** Interning more names keeps the ids of `if` and `quote`. */
  lemma NamesKept(st: State, st': State, i: Symbol, quote: Symbol)
    requires Names(st, i, quote) && Grows(st.table, st'.table)
    ensures Names(st', i, quote)
  {
    NameOfExtends(st.table, st'.table, i);
    NameOfExtends(st.table, st'.table, quote);
  }

  /** `(if c 'yes 'no)` has four elements. */
  lemma IfQuotedLength(i: Symbol, c: Item, quote: Symbol, yes: Symbol, no: Symbol)
    ensures Length(IfQuoted(i, c, quote, yes, no)) == Some(4)
  {
    LengthCons(Quoted(quote, no), Nil, 0);
    LengthCons(Quoted(quote, yes), Pair(Quoted(quote, no), Nil), 1);
    LengthCons(c, Pair(Quoted(quote, yes), Pair(Quoted(quote, no), Nil)), 2);
    LengthCons(Symbol(i), Pair(c, Pair(Quoted(quote, yes), Pair(Quoted(quote, no), Nil))), 3);
  }

  /**
   * `(if c 'yes 'no)` where `c` is a number or a symbol bound to one:
   * `yes` when the number is nonzero, `no` when it is zero, and no frame
   * changes.
   */
  lemma EvalIfQuoted(fuel: nat, st: State, env: FrameRef, i: Symbol, c: Item, quote: Symbol, yes: Symbol, no: Symbol, n: Int32)
    requires fuel > 2 && WellFormed(st.frames) && env < |st.frames| && Names(st, i, quote)
    requires c.Number? || c.Symbol?
    requires c.Number? ==> c.n == n
    requires c.Symbol? ==> Lookup(st.frames, env, c.id) == Number(n)
    ensures var r := Eval(fuel, IfQuoted(i, c, quote, yes, no), env, st);
      r.out == Ok(Symbol(if n != 0 then yes else no)) && r.st.frames == st.frames && Names(r.st, i, quote)
  {
    var x := IfQuoted(i, c, quote, yes, no);
    var st1 := st.(table := Keyword(st.table, Symbol(i)).0);
    KeywordGrows(st.table, Symbol(i));
    NamesKept(st, st1, i, quote);
    assert Eval(fuel - 1, c, env, st1) == Step(Ok(Number(n)), st1) by {
      EvalAtom(fuel - 1, c, env, st1);
    }
    IfQuotedLength(i, c, quote, yes, no);
    var sel := Quoted(quote, if n != 0 then yes else no);
    assert EvalIf(fuel - 1, x, env, st1) == Eval(fuel - 1, sel, env, st1);
    assert Eval(fuel, x, env, st) == EvalIf(fuel - 1, x, env, st1) by {
      DispatchIf(fuel, x, env, st);
    }
    EvalQuote(fuel - 1, quote, Symbol(if n != 0 then yes else no), Nil, env, st1);
  }

  /** `(if 1 'true 'false)` yields `true` and `(if 0 'true 'false)` yields `false`. */
  lemma IfExamples(st: State, env: FrameRef, i: Symbol, quote: Symbol, yes: Symbol, no: Symbol)
    requires WellFormed(st.frames) && env < |st.frames| && Names(st, i, quote)
    ensures Eval(4, IfQuoted(i, Number(1), quote, yes, no), env, st).out == Ok(Symbol(yes))
    ensures Eval(4, IfQuoted(i, Number(0), quote, yes, no), env, st).out == Ok(Symbol(no))
  {
    EvalIfQuoted(4, st, env, i, Number(1), quote, yes, no, 1);
    EvalIfQuoted(4, st, env, i, Number(0), quote, yes, no, 0);
  }

  /**
   * In a fresh context inside the root one (`new Context(&gRootContext)`),
   * `(set! x 10)` yields 10 and binds `x` there: a later `x` in that
   * context finds 10, and the root frame is as it was.
   */
  lemma SetExample(fuel: nat, st: State, sb: Symbol, x: Symbol)
    requires fuel > 1 && WellFormed(st.frames) && |st.frames| >= 1
    requires Consistent(st.table) && sb < st.table.count && NameOf(st.table, sb) == "set!"
    ensures var (c, st1) := NewFrame(st, 0);
      var r := Eval(fuel, Form3(sb, Symbol(x), Number(10)), c, st1);
      && r.out == Ok(Number(10))
      && Eval(fuel, Symbol(x), c, r.st).out == Ok(Number(10))
      && r.st.frames[0] == st.frames[0]
  {
    var (c, st1) := NewFrame(st, 0);
    var st2 := st1.(table := Keyword(st1.table, Symbol(sb)).0);
    EvalAtom(fuel - 1, Number(10), c, st2);
    EvalSetBangLocal(fuel, sb, x, Number(10), Nil, c, st1, Number(10), st2);
    var r := Eval(fuel, Form3(sb, Symbol(x), Number(10)), c, st1);
    EvalAtom(fuel, Symbol(x), c, r.st);
  }

  /** `(define x 'cat)` yields `cat` and binds `x` to it in the current frame. */
  lemma DefineExample(fuel: nat, st: State, env: FrameRef, d: Symbol, x: Symbol, quote: Symbol, cat: Symbol)
    requires fuel > 2 && WellFormed(st.frames) && env < |st.frames|
    requires Consistent(st.table) && d < st.table.count && NameOf(st.table, d) == "define"
    requires quote < st.table.count && NameOf(st.table, quote) == "quote"
    ensures var r := Eval(fuel, Form3(d, Symbol(x), Quoted(quote, cat)), env, st);
      && r.out == Ok(Symbol(cat))
      && Lookup(r.st.frames, env, x) == Symbol(cat)
  {
    var st1 := st.(table := Keyword(st.table, Symbol(d)).0);
    KeywordGrows(st.table, Symbol(d));
    NameOfExtends(st.table, st1.table, quote);
    assert Quoted(quote, cat) == Pair(Symbol(quote), Pair(Symbol(cat), Nil));
    EvalQuote(fuel - 1, quote, Symbol(cat), Nil, env, st1);
    EvalDefineValue(fuel, d, x, Quoted(quote, cat), env, st, Symbol(cat), st1);
  }

  /** The cells of `((lambda (v) (if v 'yes 'no)) arg)`. */
  function LambdaIf(l: Symbol, v: Symbol, i: Symbol, quote: Symbol, yes: Symbol, no: Symbol, arg: Item): (x: Item)
    ensures FrameBound(x) == FrameBound(arg)
  {
    var code := Pair(Pair(Symbol(v), Nil), Pair(IfQuoted(i, Symbol(v), quote, yes, no), Nil));
    assert FrameBound(Pair(Symbol(v), Nil)) == 0;
    assert FrameBound(Pair(IfQuoted(i, Symbol(v), quote, yes, no), Nil)) == 0;
    assert FrameBound(Pair(Symbol(l), code)) == 0;
    assert FrameBound(Pair(arg, Nil)) == FrameBound(arg);
    Pair(Pair(Symbol(l), code), Pair(arg, Nil))
  }

  /**
   * `((lambda (x) (if x 'true 'false)) n)`: the lambda yields a closure
   * over the current frame, applying it binds `x` to `n` in a new frame,
   * and the body then selects `true` for a nonzero `n` and `false` for 0.
   */
  lemma LambdaExample(fuel: nat, st: State, env: FrameRef, l: Symbol, v: Symbol, i: Symbol, quote: Symbol, yes: Symbol, no: Symbol, n: Int32)
    requires fuel > 3 && WellFormed(st.frames) && env < |st.frames| && Names(st, i, quote)
    requires l < st.table.count && NameOf(st.table, l) == "lambda"
    ensures Eval(fuel, LambdaIf(l, v, i, quote, yes, no, Number(n)), env, st).out == Ok(Symbol(if n != 0 then yes else no))
  {
    var x := LambdaIf(l, v, i, quote, yes, no, Number(n));
    var params := Pair(Symbol(v), Nil);
    var body := IfQuoted(i, Symbol(v), quote, yes, no);
    var code := Pair(params, Pair(body, Nil));
    var st1 := st.(table := Keyword(st.table, x.car).0);
    DispatchApplication(st.table, x.car);
    KeywordGrows(st.table, x.car);
    NameOfExtends(st.table, st1.table, l);
    NamesKept(st, st1, i, quote);
    assert FrameBound(code) == 0 by {
      assert FrameBound(Pair(body, Nil)) == 0;
    }
    EvalLambda(fuel - 1, l, code, env, st1);
    var st2 := st1.(table := Keyword(st1.table, Symbol(l)).0);
    KeywordGrows(st1.table, Symbol(l));
    NamesKept(st1, st2, i, quote);
    var (n0, st3) := NewFrame(st2, env);
    var st4 := st3.(frames := Assign(st3.frames, n0, v, Number(n)));
    assert BindArguments(fuel - 1, params, x.cdr, n0, env, st3) == Step(Ok(Unspecified), st4) by {
      BindSingle(fuel - 1, v, Number(n), n0, env, st3);
    }
    assert Eval(fuel, x, env, st) == Eval(fuel - 1, body, n0, st4) by {
      EvalApplyClosure(fuel, x, env, st, params, body, Nil, env, st2);
    }
    assert Names(st4, i, quote) && WellFormed(st4.frames) && Lookup(st4.frames, n0, v) == Number(n) by {
      AssignWellFormed(st3.frames, n0, v, Number(n));
      AssignLocal(st3.frames, n0, v, Number(n));
      NamesKept(st2, st4, i, quote);
    }
    EvalIfQuoted(fuel - 1, st4, n0, i, Symbol(v), quote, yes, no, n);
  }

  /** Binding one parameter to one number argument binds it in the new frame and nothing else. */
  lemma BindSingle(fuel: nat, v: Symbol, a: Item, frame: FrameRef, env: FrameRef, st: State)
    requires fuel > 0 && a.Number? && WellFormed(st.frames) && env < |st.frames| && frame < |st.frames|
    ensures BindArguments(fuel, Pair(Symbol(v), Nil), Pair(a, Nil), frame, env, st)
              == Step(Ok(Unspecified), st.(frames := Assign(st.frames, frame, v, a)))
  {
    EvalAtom(fuel, a, env, st);
  }

  /**
   * `((lambda () 'a))`: the binding loop runs its body once before testing
   * for more parameters, so a procedure without parameters dereferences
   * the null parameter list and the call faults.
   */
  lemma NoParametersExample(fuel: nat, st: State, env: FrameRef, l: Symbol, quote: Symbol, a: Symbol)
    requires fuel > 1 && WellFormed(st.frames) && env < |st.frames| && Consistent(st.table)
    requires l < st.table.count && NameOf(st.table, l) == "lambda"
    ensures var x := Pair(Pair(Symbol(l), Pair(Nil, Pair(Quoted(quote, a), Nil))), Nil);
      FrameBound(x) == 0 && Eval(fuel, x, env, st).out == Fault
  {
    var body := Quoted(quote, a);
    var code := Pair(Nil, Pair(body, Nil));
    var x := Pair(Pair(Symbol(l), code), Nil);
    assert FrameBound(code) == 0 by {
      assert FrameBound(Pair(body, Nil)) == 0;
    }
    assert FrameBound(x) == 0 by {
      assert FrameBound(Pair(Symbol(l), code)) == 0;
    }
    var st1 := st.(table := Keyword(st.table, x.car).0);
    DispatchApplication(st.table, x.car);
    KeywordGrows(st.table, x.car);
    NameOfExtends(st.table, st1.table, l);
    EvalLambda(fuel - 1, l, code, env, st1);
    var st2 := st1.(table := Keyword(st1.table, Symbol(l)).0);
    EvalApplyClosure(fuel, x, env, st, Nil, body, Nil, env, st2);
  }
}
