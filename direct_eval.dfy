/**
 * The evaluator of the direct-style interpreter (scheme/scheme.cpp:591-752):
 * `eval` with `quote`, `define`, `set!`, `if`, `lambda` and application,
 * the natives `addNativeFns` installs, and the frame constructor that
 * evaluates the arguments of a call and binds them.
 *
 * `eval` works on the store of frames and on the global symbol table, which
 * it extends: every dispatch interns the keyword names it compares against.
 * User recursion can diverge, so evaluation carries fuel; where the source
 * fails an `assert`, dereferences a null cell or reads a union member the
 * item does not hold, evaluation ends in `Fault`.
 */
module DirectEval {
  import opened Maybe
  import opened Symbols
  import opened DirectCore

  /** What `eval` reads and updates: the frames created so far and the global symbol table. */
  datatype State = State(frames: seq<Frame>, table: Table)

  /**
   * How an evaluation ends: with a value; in `Fault`, where the source has
   * undefined behaviour or a failing `assert`; or with the fuel used up.
   */
  datatype Outcome = Ok(value: Item) | Fault | OutOfFuel

  /** The outcome of an evaluation and the state it leaves. */
  datatype Step = Step(out: Outcome, st: State)

  /** `st'` can follow `st`: both stores well formed, frames only added, symbols only added. */
  ghost predicate Precedes(st: State, st': State) {
    && WellFormed(st.frames)
    && WellFormed(st'.frames)
    && |st.frames| <= |st'.frames|
    && Grows(st.table, st'.table)
  }

  /** `r` can end an evaluation begun in `st`, and a value it yields refers to existing frames. */
  ghost predicate Follows(st: State, r: Step) {
    && Precedes(st, r.st)
    && (r.out.Ok? ==> RefersBelow(r.out.value, |r.st.frames|))
  }

  /**
   * From `st` to `st'` no outer link changes, and only the frames in
   * `touched` and frames created since have their bindings changed.
   */
  ghost predicate Confined(st: State, st': State, touched: set<FrameRef>) {
    && |st.frames| <= |st'.frames|
    && forall i :: 0 <= i < |st.frames| ==>
         && st'.frames[i].outer == st.frames[i].outer
         && (i !in touched ==> st'.frames[i] == st.frames[i])
  }

  lemma ConfinedAfter(st1: State, st2: State, st3: State, a: set<FrameRef>, b: set<FrameRef>)
    requires Confined(st1, st2, a) && Confined(st2, st3, b)
    ensures Confined(st1, st3, a + b)
  {
  }

  /** Frames created after `st` need not be listed among the touched ones. */
  lemma ConfinedNarrow(st: State, st': State, a: set<FrameRef>, b: set<FrameRef>)
    requires Confined(st, st', a)
    requires forall f :: f in a ==> f in b || f >= |st.frames|
    ensures Confined(st, st', b)
  {
  }

  lemma PrecedesTransitive(st1: State, st2: State, st3: State)
    requires Precedes(st1, st2) && Precedes(st2, st3)
    ensures Precedes(st1, st3)
  {
    GrowsTransitive(st1.table, st2.table, st3.table);
  }

  /** An evaluation that ends after a step from `st` to `st1` follows `st`. */
  lemma FollowsAfter(st: State, st1: State, r: Step)
    requires Precedes(st, st1) && Follows(st1, r)
    ensures Follows(st, r)
  {
    PrecedesTransitive(st, st1, r.st);
  }

  /** The parts of an item that refers below `n` refer below `n`, down the first cells of a list. */
  lemma RefersBelowParts(x: Item, n: nat)
    requires RefersBelow(x, n)
    ensures x.Closure? ==> RefersBelow(x.code, n)
    ensures x.Pair? ==> RefersBelow(x.car, n) && RefersBelow(x.cdr, n)
    ensures x.Pair? && x.cdr.Pair? ==> RefersBelow(x.cdr.car, n) && RefersBelow(x.cdr.cdr, n)
    ensures x.Pair? && x.cdr.Pair? && x.cdr.car.Pair? ==> RefersBelow(x.cdr.car.cdr, n)
    ensures x.Pair? && x.cdr.Pair? && x.cdr.cdr.Pair? ==> RefersBelow(x.cdr.cdr.car, n) && RefersBelow(x.cdr.cdr.cdr, n)
    ensures x.Pair? && x.cdr.Pair? && x.cdr.cdr.Pair? && x.cdr.cdr.cdr.Pair? ==> RefersBelow(x.cdr.cdr.cdr.car, n)
  {
    if x.Pair? && x.cdr.Pair? {
      assert FrameBound(x.cdr) <= FrameBound(x);
      if x.cdr.cdr.Pair? {
        assert FrameBound(x.cdr.cdr) <= FrameBound(x.cdr);
        assert FrameBound(x.cdr.cdr.cdr) <= FrameBound(x.cdr.cdr);
      }
    }
  }

  // ------------------------------------------------------------ dispatch

  /** The special forms `eval` recognises, in the order it tests them, and application. */
  datatype Form = Quote | Define | SetBang | If | Lambda | Application

  /** The names of the special forms, in the order `eval` compares the head against them. */
  const KeywordNames: seq<string> := ["quote", "define", "set!", "if", "lambda"]
  /** The special forms, in the order of `KeywordNames`. */
  const KeywordForms: seq<Form> := [Quote, Define, SetBang, If, Lambda]

  /**
   * The comparisons of `eval`: the head is compared with `GetSymbol` of
   * each name in turn, every call interning its name, until one matches.
   * Yields the table after the calls made and the position of the match
   * (`|names|` for none). A head that is not a symbol matches no name.
   */
  function MatchKeyword(t: Table, head: Item, names: seq<string>): (r: (Table, nat))
    ensures r.1 <= |names|
    decreases |names|
  {
    if names == [] then
      (t, 0)
    else
      var (t1, id) := Intern(t, names[0]);
      if head == Symbol(id) then
        (t1, 0)
      else
        var (t2, k) := MatchKeyword(t1, head, names[1..]);
        (t2, k + 1)
  }

  /** The dispatch of `eval` on the head of a non-null cell. */
  function Keyword(t: Table, head: Item): (r: (Table, Form))
    ensures var (t', k) := MatchKeyword(t, head, KeywordNames);
            r.0 == t' && (r.1 == Application <==> k == |KeywordNames|)
  {
    var (t', k) := MatchKeyword(t, head, KeywordNames);
    (t', if k < |KeywordNames| then KeywordForms[k] else Application)
  }

  /** The name a special form is recognised by. */
  function KeywordName(f: Form): (name: string)
    requires f != Application
    ensures name in KeywordNames
  {
    match f
    case Quote => "quote"
    case Define => "define"
    case SetBang => "set!"
    case If => "if"
    case Lambda => "lambda"
  }

  /** The comparisons only intern names: the table grows and stays consistent. */
  lemma {:induction false} MatchKeywordGrows(t: Table, head: Item, names: seq<string>)
    ensures Grows(t, MatchKeyword(t, head, names).0)
    decreases |names|
  {
    if names != [] {
      var (t1, id) := Intern(t, names[0]);
      InternGrows(t, names[0]);
      if head != Symbol(id) {
        MatchKeywordGrows(t1, head, names[1..]);
        GrowsTransitive(t, t1, MatchKeyword(t1, head, names[1..]).0);
      }
    }
  }

  /** A name an extension of a table keeps. */
  lemma NameOfExtends(t: Table, t': Table, id: Symbol)
    requires Consistent(t) && Extends(t, t') && id < t.count
    ensures NameOf(t', id) == NameOf(t, id)
  {
  }

  /**
   * With a consistent table the comparisons go by name: a match at
   * position `k` means the head is the symbol named `names[k]`, and a head
   * that is an existing symbol named by one of `names` is matched, at the
   * first position holding its name.
   */
  lemma {:induction false} MatchKeywordByName(t: Table, head: Item, names: seq<string>)
    requires Consistent(t)
    ensures var (t', k) := MatchKeyword(t, head, names);
      && (k < |names| ==> head.Symbol? && head.id < t'.count && NameOf(t', head.id) == names[k])
      && (k < |names| ==> forall j :: 0 <= j < k ==> names[j] != names[k])
      && (head.Symbol? && head.id < t.count && NameOf(t, head.id) in names ==> k < |names| && names[k] == NameOf(t, head.id))
    decreases |names|
  {
    if names != [] {
      var (t1, id) := Intern(t, names[0]);
      InternConsistent(t, names[0]);
      NameOfIntern(t, names[0]);
      if head == Symbol(id) {
        if head.id < t.count {
          NameOfExtends(t, t1, head.id);
        }
      } else {
        var (t2, k) := MatchKeyword(t1, head, names[1..]);
        MatchKeywordByName(t1, head, names[1..]);
        MatchKeywordGrows(t1, head, names[1..]);
        if k < |names[1..]| {
          assert names[1..][k] == names[k + 1];
          assert names[0] != names[k + 1] by {
            if names[0] == names[k + 1] {
              NameOfExtends(t1, t2, id);
            }
          }
          forall j | 0 <= j < k + 1
            ensures names[j] != names[k + 1]
          {
            if j > 0 {
              assert names[1..][j - 1] == names[j];
            }
          }
        }
        if head.Symbol? && head.id < t.count && NameOf(t, head.id) in names {
          NameOfExtends(t, t1, head.id);
          assert NameOf(t, head.id) in names[1..];
        }
      }
    }
  }

  /** The dispatch only interns the keyword names. */
  lemma KeywordGrows(t: Table, head: Item)
    ensures Grows(t, Keyword(t, head).0)
  {
    MatchKeywordGrows(t, head, KeywordNames);
  }

  /**
   * With a consistent table `eval` dispatches by name: a special form is
   * selected exactly when the head is a symbol carrying its name, and
   * every other head, a symbol or not, is applied.
   */
  lemma KeywordByName(t: Table, head: Item)
    requires Consistent(t)
    ensures var (t', form) := Keyword(t, head);
      && (form != Application ==> head.Symbol? && head.id < t'.count && NameOf(t', head.id) == KeywordName(form))
      && (head.Symbol? && head.id < t.count && NameOf(t, head.id) in KeywordNames ==>
            form != Application && KeywordName(form) == NameOf(t, head.id))
  {
    var (t', k) := MatchKeyword(t, head, KeywordNames);
    MatchKeywordByName(t, head, KeywordNames);
    if k < |KeywordNames| {
      FormName(k);
    }
  }

  /** The form at position `k` is recognised by the name at position `k`. */
  lemma FormName(k: nat)
    requires k < |KeywordNames|
    ensures KeywordForms[k] != Application && KeywordName(KeywordForms[k]) == KeywordNames[k]
  {
  }

  // ------------------------------------------------------------ eval

  /**
   * `eval`: numbers and the null cell evaluate to themselves, symbols to
   * what `Lookup` finds, a non-null cell by its head, and procedures and
   * the unspecified item to unspecified.
   */
  function Eval(fuel: nat, x: Item, env: FrameRef, st: State): (r: Step)
    requires WellFormed(st.frames) && env < |st.frames| && RefersBelow(x, |st.frames|)
    ensures Follows(st, r) && Confined(st, r.st, {env})
    decreases fuel, 0
  {
    if fuel == 0 then
      Step(OutOfFuel, st)
    else
      match x
      case Number(_) => Step(Ok(x), st)
      case Symbol(s) =>
        LookupRefers(st.frames, env, s);
        Step(Ok(Lookup(st.frames, env, s)), st)
      case Nil => Step(Ok(x), st)
      case Pair(_, _) => EvalList(fuel - 1, x, env, st)
      case _ => Step(Ok(Unspecified), st)
  }

  /** A non-null cell: a special form or an application, by its head. */
  function EvalList(fuel: nat, x: Item, env: FrameRef, st: State): (r: Step)
    requires x.Pair?
    requires WellFormed(st.frames) && env < |st.frames| && RefersBelow(x, |st.frames|)
    ensures Follows(st, r) && Confined(st, r.st, {env})
    decreases fuel, 5
  {
    RefersBelowParts(x, |st.frames|);
    var (t1, form) := Keyword(st.table, x.car);
    KeywordGrows(st.table, x.car);
    var st1 := st.(table := t1);
    var r :=
      (match form
      case Quote => if x.cdr.Pair? then Step(Ok(x.cdr.car), st1) else Step(Fault, st1)
      case Define => EvalDefine(fuel, x, env, st1)
      case SetBang => EvalSetBang(fuel, x, env, st1)
      case If => EvalIf(fuel, x, env, st1)
      case Lambda => if IsCell(x.cdr) then Step(Ok(Closure(x.cdr, env)), st1) else Step(Fault, st1)
      case Application => EvalApplication(fuel, x, env, st1));
    FollowsAfter(st, st1, r);
    ConfinedAfter(st, st1, r.st, {}, {env});
    r
  }

  /** `Set` in the current frame, yielding the value bound. */
  function BindHere(st: State, env: FrameRef, name: Symbol, v: Item): (r: Step)
    requires WellFormed(st.frames) && env < |st.frames| && RefersBelow(v, |st.frames|)
    ensures Follows(st, r) && Confined(st, r.st, {env})
  {
    AssignWellFormed(st.frames, env, name, v);
    Step(Ok(v), st.(frames := Assign(st.frames, env, name, v)))
  }

  /**
   * `(define name expr)` binds the value of `expr`, or unspecified unless
   * the form has exactly three elements; `(define (name . params) body)`
   * binds the closure `((params) body)` over the current frame.
   */
  function EvalDefine(fuel: nat, x: Item, env: FrameRef, st: State): (r: Step)
    requires x.Pair?
    requires WellFormed(st.frames) && env < |st.frames| && RefersBelow(x, |st.frames|)
    ensures Follows(st, r) && Confined(st, r.st, {env})
    decreases fuel, 1
  {
    RefersBelowParts(x, |st.frames|);
    if !x.cdr.Pair? then
      Step(Fault, st)
    else
      match x.cdr.car
      case Symbol(name) =>
        (match Length(x)
         case None => Step(Fault, st)
         case Some(n) =>
           if n == 3 then
             LengthDepth(x, n);
             var v := Eval(fuel, x.cdr.cdr.car, env, st);
             if v.out.Ok? then
               var r := BindHere(v.st, env, name, v.out.value);
               FollowsAfter(st, v.st, r);
               ConfinedAfter(st, v.st, r.st, {env}, {env});
               r
             else
               v
           else
             BindHere(st, env, name, Unspecified))
      case Pair(name, params) =>
        if !x.cdr.cdr.Pair? || !name.Symbol? then
          Step(Fault, st)
        else
          assert RefersBelow(Pair(x.cdr.cdr.car, Nil), |st.frames|);
          BindHere(st, env, name.id, Closure(Pair(params, Pair(x.cdr.cdr.car, Nil)), env))
      case _ => Step(Fault, st)
  }

  /** `(set! name expr)`: binds the value of `expr` in the current frame, whether or not `name` is bound further out. */
  function EvalSetBang(fuel: nat, x: Item, env: FrameRef, st: State): (r: Step)
    requires x.Pair?
    requires WellFormed(st.frames) && env < |st.frames| && RefersBelow(x, |st.frames|)
    ensures Follows(st, r) && Confined(st, r.st, {env})
    decreases fuel, 1
  {
    RefersBelowParts(x, |st.frames|);
    if !x.cdr.Pair? || !x.cdr.cdr.Pair? then
      Step(Fault, st)
    else
      var v := Eval(fuel, x.cdr.cdr.car, env, st);
      if !v.out.Ok? then
        v
      else if !x.cdr.car.Symbol? then
        Step(Fault, v.st)
      else
        var r := BindHere(v.st, env, x.cdr.car.id, v.out.value);
        FollowsAfter(st, v.st, r);
        ConfinedAfter(st, v.st, r.st, {env}, {env});
        r
  }

  /**
   * `(if cond then [else])`: a nonzero number selects `then`, zero selects
   * `else` when the form has more than three elements and unspecified
   * otherwise. A condition that is not a number is an undefined read of
   * `mNumber`.
   */
  function EvalIf(fuel: nat, x: Item, env: FrameRef, st: State): (r: Step)
    requires x.Pair?
    requires WellFormed(st.frames) && env < |st.frames| && RefersBelow(x, |st.frames|)
    ensures Follows(st, r) && Confined(st, r.st, {env})
    decreases fuel, 1
  {
    RefersBelowParts(x, |st.frames|);
    if !x.cdr.Pair? then
      Step(Fault, st)
    else
      var c := Eval(fuel, x.cdr.car, env, st);
      if !c.out.Ok? then
        c
      else if !c.out.value.Number? then
        Step(Fault, c.st)
      else
        RefersBelowParts(x, |c.st.frames|);
        var r :=
          if c.out.value.n != 0 then
            if x.cdr.cdr.Pair? then Eval(fuel, x.cdr.cdr.car, env, c.st) else Step(Fault, c.st)
          else
            (match Length(x)
             case None => Step(Fault, c.st)
             case Some(n) =>
               if n > 3 then
                 LengthDepth(x, n);
                 Eval(fuel, x.cdr.cdr.cdr.car, env, c.st)
               else
                 Step(Ok(Unspecified), c.st));
        FollowsAfter(st, c.st, r);
        ConfinedAfter(st, c.st, r.st, {env}, {env});
        r
  }

  /**
   * Application: the head must evaluate to a procedure. A native gets the
   * unevaluated argument list; a closure `(params body)` gets a new frame
   * inside its closure frame, binding its parameters to the arguments
   * evaluated in the caller's frame, and its body is evaluated there.
   */
  function EvalApplication(fuel: nat, x: Item, env: FrameRef, st: State): (r: Step)
    requires x.Pair?
    requires WellFormed(st.frames) && env < |st.frames| && RefersBelow(x, |st.frames|)
    ensures Follows(st, r) && Confined(st, r.st, {env})
    decreases fuel, 4
  {
    RefersBelowParts(x, |st.frames|);
    var p := Eval(fuel, x.car, env, st);
    if !p.out.Ok? then
      p
    else
      var r := Apply(fuel, p.out.value, x.cdr, env, p.st);
      FollowsAfter(st, p.st, r);
      ConfinedAfter(st, p.st, r.st, {env}, {env});
      r
  }

  /** The procedure the head evaluated to, applied to the unevaluated argument list `args`. */
  function Apply(fuel: nat, proc: Item, args: Item, env: FrameRef, st: State): (r: Step)
    requires WellFormed(st.frames) && env < |st.frames| && RefersBelow(proc, |st.frames|) && RefersBelow(args, |st.frames|)
    ensures Follows(st, r) && Confined(st, r.st, {env})
    decreases fuel, 3
  {
    match proc
    case NativeProc(fn) =>
      if IsCell(args) then ApplyNative(fuel, fn, args, env, st) else Step(Fault, st)
    case Closure(code, closure) =>
      RefersBelowParts(proc, |st.frames|);
      RefersBelowParts(code, |st.frames|);
      if !code.Pair? || !IsCell(code.car) || !code.cdr.Pair? || !IsCell(code.cdr.car) || !IsCell(args) then
        Step(Fault, st)
      else
        var (frame, st1) := NewFrame(st, closure);
        var b := BindArguments(fuel, code.car, args, frame, env, st1);
        ConfinedAfter(st, st1, b.st, {}, {frame, env});
        ConfinedNarrow(st, b.st, {frame, env}, {env});
        if !b.out.Ok? then
          FollowsAfter(st, st1, b);
          b
        else
          var e := Eval(fuel, code.cdr.car, frame, b.st);
          PrecedesTransitive(st, st1, b.st);
          FollowsAfter(st, b.st, e);
          ConfinedAfter(st, b.st, e.st, {env}, {frame});
          ConfinedNarrow(st, e.st, {env, frame}, {env});
          e
    case _ => Step(Fault, st)
  }

  /** `new Context(...)`: an empty frame inside `outer`, added to the store. */
  function NewFrame(st: State, outer: FrameRef): (r: (FrameRef, State))
    requires WellFormed(st.frames) && outer < |st.frames|
    ensures Precedes(st, r.1) && r.0 == |st.frames| && |r.1.frames| == r.0 + 1
    ensures r.1.frames[r.0] == Frame(map[], Some(outer)) && r.1.frames[..r.0] == st.frames
    ensures r.1.table == st.table && Confined(st, r.1, {})
  {
    AppendWellFormed(st.frames, Frame(map[], Some(outer)));
    (|st.frames|, st.(frames := st.frames + [Frame(map[], Some(outer))]))
  }

  /**
   * The loop of the binding constructor `Context(variables, params, outer,
   * evalcontext)`: bind the first parameter to the value of the first
   * argument, evaluated in `env`, then go on with the rest of both lists
   * while parameters remain. A null parameter list, an argument list that
   * runs out first or a parameter that is not a symbol is a fault.
   */
  function BindArguments(fuel: nat, variables: Item, params: Item, frame: FrameRef, env: FrameRef, st: State): (r: Step)
    requires WellFormed(st.frames) && env < |st.frames| && frame < |st.frames|
    requires RefersBelow(params, |st.frames|)
    ensures Follows(st, r) && Confined(st, r.st, {frame, env})
    ensures frame != env ==> r.st.frames[frame].bindings.Keys <= st.frames[frame].bindings.Keys + ParamSymbols(variables)
    decreases fuel, 1, variables
  {
    RefersBelowParts(params, |st.frames|);
    if !variables.Pair? || !params.Pair? then
      Step(Fault, st)
    else
      var v := Eval(fuel, params.car, env, st);
      if !v.out.Ok? then
        v
      else if !variables.car.Symbol? then
        Step(Fault, v.st)
      else
        AssignWellFormed(v.st.frames, frame, variables.car.id, v.out.value);
        var st1 := v.st.(frames := Assign(v.st.frames, frame, variables.car.id, v.out.value));
        var r :=
          if !IsCell(variables.cdr) || !IsCell(params.cdr) then
            Step(Fault, st1)
          else if variables.cdr == Nil then
            Step(Ok(Unspecified), st1)
          else
            BindArguments(fuel, variables.cdr, params.cdr, frame, env, st1);
        FollowsAfter(st, st1, r);
        ConfinedAfter(st, v.st, r.st, {env}, {frame, env});
        r
  }

  /** The symbols on the spine of a parameter list, the names the binding constructor can bind. */
  function ParamSymbols(variables: Item): set<Symbol> {
    match variables
    case Pair(v, rest) => (if v.Symbol? then {v.id} else {}) + ParamSymbols(rest)
    case _ => {}
  }

  /** `car(pair)` evaluated: the first argument of a native. */
  function EvalFirst(fuel: nat, args: Item, env: FrameRef, st: State): (r: Step)
    requires WellFormed(st.frames) && env < |st.frames| && RefersBelow(args, |st.frames|)
    ensures Follows(st, r) && Confined(st, r.st, {env})
    decreases fuel, 1
  {
    RefersBelowParts(args, |st.frames|);
    if args.Pair? then Eval(fuel, args.car, env, st) else Step(Fault, st)
  }

  /** `car(cdr(pair))` evaluated: the second argument of a native. */
  function EvalSecond(fuel: nat, args: Item, env: FrameRef, st: State): (r: Step)
    requires WellFormed(st.frames) && env < |st.frames| && RefersBelow(args, |st.frames|)
    ensures Follows(st, r) && Confined(st, r.st, {env})
    decreases fuel, 1
  {
    RefersBelowParts(args, |st.frames|);
    if args.Pair? && args.cdr.Pair? then Eval(fuel, args.cdr.car, env, st) else Step(Fault, st)
  }

  /**
   * The natives: each evaluates its arguments in the caller's frame, left
   * to right. `cons` builds a cell, `null?` and `=` yield 0 or 1, `car` and
   * `cdr` take a non-null cell apart, and the arithmetic natives need two
   * numbers and a result that is defined on int32.
   */
  function ApplyNative(fuel: nat, fn: Native, args: Item, env: FrameRef, st: State): (r: Step)
    requires WellFormed(st.frames) && env < |st.frames| && RefersBelow(args, |st.frames|)
    ensures Follows(st, r) && Confined(st, r.st, {env})
    decreases fuel, 2
  {
    RefersBelowParts(args, |st.frames|);
    var a := EvalFirst(fuel, args, env, st);
    if !a.out.Ok? then
      a
    else
      var first := a.out.value;
      var r :=
        (if fn == NullProc then Step(Ok(Number(IsNullOf(first))), a.st)
        else if fn == CarProc then (if first.Pair? then Step(Ok(first.car), a.st) else Step(Fault, a.st))
        else if fn == CdrProc then (if first.Pair? then Step(Ok(first.cdr), a.st) else Step(Fault, a.st))
        else
          var b := EvalSecond(fuel, args, env, a.st);
          if !b.out.Ok? then
            b
          else
            var second := b.out.value;
            var r2 := Step(Combine(fn, first, second), b.st);
            FollowsAfter(a.st, b.st, r2);
            ConfinedAfter(a.st, b.st, r2.st, {env}, {});
            r2);
      FollowsAfter(st, a.st, r);
      ConfinedAfter(st, a.st, r.st, {env}, {env});
      r
  }

  /** The result of a two-argument native from the values of its arguments. */
  function Combine(fn: Native, first: Item, second: Item): (r: Outcome)
    requires fn !in {NullProc, CarProc, CdrProc}
    ensures fn == ConsProc ==> r == Ok(Pair(first, second))
    ensures fn == CompareProc ==> r == Ok(Number(Compare(first, second)))
    ensures fn in {AddProc, SubProc, MulProc, DivProc, ModProc} ==>
              (r.Ok? <==> first.Number? && second.Number? && Arith(fn, first.n, second.n).Some?)
    ensures fn in {AddProc, SubProc, MulProc, DivProc, ModProc} && r.Ok? ==> r.value == Number(Arith(fn, first.n, second.n).value)
    ensures r != OutOfFuel
  {
    match fn
    case ConsProc => Ok(Pair(first, second))
    case CompareProc => Ok(Number(Compare(first, second)))
    case AddProc | SubProc | MulProc | DivProc | ModProc =>
      if first.Number? && second.Number? then
        match Arith(fn, first.n, second.n)
        case None => Fault
        case Some(v) => Ok(Number(v))
      else
        Fault
  }

  // ------------------------------------------------------------ natives

  /** The names `addNativeFns` binds in the root frame, in the order it binds them. */
  const NativeNames: seq<string> := ["cons", "car", "cdr", "=", "null?", "+", "-", "*", "/", "%"]

  /** The native bound to each of `NativeNames`. */
  const NativeFns: seq<Native> := [ConsProc, CarProc, CdrProc, CompareProc, NullProc, AddProc, SubProc, MulProc, DivProc, ModProc]

  /** `gRootContext.Set(gSymbolTable.GetSymbol(name), Item(fn))` for the `i`-th native, bound in frame `root`. */
  function InstallNative(st: State, root: FrameRef, i: nat): (r: State)
    requires WellFormed(st.frames) && root < |st.frames| && i < |NativeNames|
    ensures Precedes(st, r) && Confined(st, r, {root}) && |r.frames| == |st.frames|
    ensures r.table == Intern(st.table, NativeNames[i]).0
    ensures r.frames[root].bindings == st.frames[root].bindings[Intern(st.table, NativeNames[i]).1 := NativeProc(NativeFns[i])]
  {
    var (t1, id) := Intern(st.table, NativeNames[i]);
    InternGrows(st.table, NativeNames[i]);
    AssignWellFormed(st.frames, root, id, NativeProc(NativeFns[i]));
    State(Assign(st.frames, root, id, NativeProc(NativeFns[i])), t1)
  }

  /** The first `k` lines of `addNativeFns`, run in order on frame `root`. */
  function InstallNatives(st: State, root: FrameRef, k: nat): (r: State)
    requires WellFormed(st.frames) && root < |st.frames| && k <= |NativeNames|
    ensures Precedes(st, r) && Confined(st, r, {root}) && |r.frames| == |st.frames|
  {
    if k == 0 then
      st
    else
      var s := InstallNatives(st, root, k - 1);
      var r := InstallNative(s, root, k - 1);
      PrecedesTransitive(st, s, r);
      ConfinedAfter(st, s, r, {root}, {root});
      r
  }

  /** The state `eval` starts from: the root frame, the table, and `addNativeFns` run on both. */
  function RootState(): (r: State)
    ensures WellFormed(r.frames) && |r.frames| == 1 && r.frames[0].outer == None
  {
    InstallNatives(State([Frame(map[], None)], EmptyTable()), 0, |NativeNames|)
  }

  /** Installing the first `k` natives keeps a binding of a symbol none of their names interns to. */
  lemma {:induction false} InstallNativesKeeps(st: State, root: FrameRef, k: nat, id: Symbol)
    requires WellFormed(st.frames) && root < |st.frames| && k <= |NativeNames| && Consistent(st.table)
    requires id < st.table.count && id in st.frames[root].bindings && forall j :: 0 <= j < k ==> NameOf(st.table, id) != NativeNames[j]
    ensures var r := InstallNatives(st, root, k);
      && Extends(st.table, r.table)
      && id in r.frames[root].bindings && r.frames[root].bindings[id] == st.frames[root].bindings[id]
  {
    if k > 0 {
      var name := NameOf(st.table, id);
      var s := InstallNatives(st, root, k - 1);
      assert Extends(st.table, s.table) && id in s.frames[root].bindings && s.frames[root].bindings[id] == st.frames[root].bindings[id] by {
        InstallNativesKeeps(st, root, k - 1, id);
      }
      assert name in s.table.stringToSymbol && s.table.stringToSymbol[name] == id;
      InstallNativeKeeps(s, root, k - 1, name);
      assert InstallNatives(st, root, k) == InstallNative(s, root, k - 1);
    }
  }

  /** After the first `k` lines of `addNativeFns`, each of those names is interned and bound in `root` itself to its native. */
  lemma {:induction false} InstallNativesBinds(st: State, root: FrameRef, k: nat)
    requires WellFormed(st.frames) && root < |st.frames| && k <= |NativeNames| && Consistent(st.table)
    ensures var r := InstallNatives(st, root, k);
      && Consistent(r.table)
      && forall j :: 0 <= j < k ==>
           && NativeNames[j] in r.table.stringToSymbol
           && r.table.stringToSymbol[NativeNames[j]] in r.frames[root].bindings
           && r.frames[root].bindings[r.table.stringToSymbol[NativeNames[j]]] == NativeProc(NativeFns[j])
  {
    if k > 0 {
      InstallNativesBinds(st, root, k - 1);
      var s := InstallNatives(st, root, k - 1);
      InternConsistent(s.table, NativeNames[k - 1]);
      var r := InstallNative(s, root, k - 1);
      assert r == InstallNatives(st, root, k);
      forall j | 0 <= j < k - 1
        ensures NativeNames[j] in r.table.stringToSymbol
        ensures r.table.stringToSymbol[NativeNames[j]] in r.frames[root].bindings
        ensures r.frames[root].bindings[r.table.stringToSymbol[NativeNames[j]]] == NativeProc(NativeFns[j])
      {
        NativeNamesDistinct(j, k - 1);
        InstallNativeKeeps(s, root, k - 1, NativeNames[j]);
      }
    }
  }

  /** One line of `addNativeFns` keeps the id and the root binding of every other interned name. */
  lemma InstallNativeKeeps(st: State, root: FrameRef, i: nat, name: string)
    requires WellFormed(st.frames) && root < |st.frames| && i < |NativeNames| && Consistent(st.table)
    requires name != NativeNames[i] && name in st.table.stringToSymbol
    ensures var r := InstallNative(st, root, i);
      && name in r.table.stringToSymbol
      && r.table.stringToSymbol[name] == st.table.stringToSymbol[name]
      && (st.table.stringToSymbol[name] in st.frames[root].bindings ==>
            && st.table.stringToSymbol[name] in r.frames[root].bindings
            && r.frames[root].bindings[st.table.stringToSymbol[name]] == st.frames[root].bindings[st.table.stringToSymbol[name]])
  {
    InternConsistent(st.table, NativeNames[i]);
    InternInjective(st.table, name, NativeNames[i]);
  }

  /** The native names are distinct, so each is bound once. */
  lemma NativeNamesDistinct(j: nat, k: nat)
    requires j < k < |NativeNames|
    ensures NativeNames[j] != NativeNames[k]
  {
    assert forall a, b :: 0 <= a < b < |NativeNames| ==> NativeNames[a] != NativeNames[b];
  }

  /** `st` is a state `addNativeFns` has run in: frame 0 binds every native name to its native. */
  ghost predicate NativesInstalled(st: State) {
    && WellFormed(st.frames) && |st.frames| >= 1 && Consistent(st.table)
    && forall j :: 0 <= j < |NativeNames| ==>
         && NativeNames[j] in st.table.stringToSymbol
         && Lookup(st.frames, 0, st.table.stringToSymbol[NativeNames[j]]) == NativeProc(NativeFns[j])
  }

  /** In the root state every native name is bound to its native, as the tests of the arithmetic rely on. */
  lemma RootNatives()
    ensures NativesInstalled(RootState())
  {
    EmptyTableConsistent();
    InstallNativesBinds(State([Frame(map[], None)], EmptyTable()), 0, |NativeNames|);
    var r := RootState();
    forall j | 0 <= j < |NativeNames|
      ensures Lookup(r.frames, 0, r.table.stringToSymbol[NativeNames[j]]) == NativeProc(NativeFns[j])
    {
    }
  }

  // ------------------------------------------------------------ properties of eval

  /** Adding a cell in front of a proper list lengthens it by one. */
  lemma LengthCons(a: Item, d: Item, n: nat)
    requires Length(d) == Some(n)
    ensures Length(Pair(a, d)) == Some(n + 1)
  {
  }

  /** A non-null cell whose head selects `define` is evaluated by `EvalDefine` in the state after the dispatch. */
  lemma UnfoldDefine(fuel: nat, x: Item, env: FrameRef, st: State)
    requires fuel > 0 && x.Pair? && WellFormed(st.frames) && env < |st.frames| && RefersBelow(x, |st.frames|)
    requires Keyword(st.table, x.car).1 == Define
    ensures Eval(fuel, x, env, st) == EvalDefine(fuel - 1, x, env, st.(table := Keyword(st.table, x.car).0))
  {
  }

  /** A non-null cell whose head selects `set!` is evaluated by `EvalSetBang` in the state after the dispatch. */
  lemma UnfoldSetBang(fuel: nat, x: Item, env: FrameRef, st: State)
    requires fuel > 0 && x.Pair? && WellFormed(st.frames) && env < |st.frames| && RefersBelow(x, |st.frames|)
    requires Keyword(st.table, x.car).1 == SetBang
    ensures Eval(fuel, x, env, st) == EvalSetBang(fuel - 1, x, env, st.(table := Keyword(st.table, x.car).0))
  {
  }

  /** A non-null cell whose head selects `if` is evaluated by `EvalIf` in the state after the dispatch. */
  lemma UnfoldIf(fuel: nat, x: Item, env: FrameRef, st: State)
    requires fuel > 0 && x.Pair? && WellFormed(st.frames) && env < |st.frames| && RefersBelow(x, |st.frames|)
    requires Keyword(st.table, x.car).1 == If
    ensures Eval(fuel, x, env, st) == EvalIf(fuel - 1, x, env, st.(table := Keyword(st.table, x.car).0))
  {
  }

  /** A non-null cell whose head selects no special form is evaluated by `EvalApplication` in the state after the dispatch. */
  lemma UnfoldApplication(fuel: nat, x: Item, env: FrameRef, st: State)
    requires fuel > 0 && x.Pair? && WellFormed(st.frames) && env < |st.frames| && RefersBelow(x, |st.frames|)
    requires Keyword(st.table, x.car).1 == Application
    ensures Eval(fuel, x, env, st) == EvalApplication(fuel - 1, x, env, st.(table := Keyword(st.table, x.car).0))
  {
  }

  /** A symbol naming a special form in a consistent table dispatches to that form. */
  lemma DispatchByName(t: Table, i: Symbol, form: Form)
    requires form != Application && Consistent(t) && i < t.count && NameOf(t, i) == KeywordName(form)
    ensures Keyword(t, Symbol(i)).1 == form
  {
    KeywordByName(t, Symbol(i));
  }

  /** A head that is not an existing symbol carrying a keyword's name is applied. */
  lemma DispatchApplication(t: Table, head: Item)
    requires Consistent(t)
    requires head.Symbol? ==> head.id < t.count && NameOf(t, head.id) !in KeywordNames
    ensures Keyword(t, head).1 == Application
  {
    KeywordByName(t, head);
    KeywordGrows(t, head);
    if head.Symbol? {
      NameOfExtends(t, Keyword(t, head).0, head.id);
    }
  }

  /**
   * `(op a b)` where `op` finds a two-argument native: both arguments are
   * evaluated in the caller's frame, left to right, and the native combines
   * their values.
   */
  lemma EvalNativeCall(fuel: nat, x: Item, env: FrameRef, st: State, fn: Native, v1: Item, st2: State, v2: Item, st3: State)
    requires fuel > 1 && WellFormed(st.frames) && env < |st.frames| && RefersBelow(x, |st.frames|)
    requires x.Pair? && x.car.Symbol? && Consistent(st.table) && x.car.id < st.table.count && NameOf(st.table, x.car.id) !in KeywordNames
    requires Lookup(st.frames, env, x.car.id) == NativeProc(fn) && fn !in {NullProc, CarProc, CdrProc}
    requires x.cdr.Pair? && x.cdr.cdr.Pair? && IsCell(x.cdr.cdr.cdr)
    requires RefersBelow(x.cdr.car, |st.frames|)
    requires Eval(fuel - 1, x.cdr.car, env, st.(table := Keyword(st.table, x.car).0)) == Step(Ok(v1), st2)
    requires RefersBelow(x.cdr.cdr.car, |st2.frames|)
    requires Eval(fuel - 1, x.cdr.cdr.car, env, st2) == Step(Ok(v2), st3)
    ensures Eval(fuel, x, env, st) == Step(Combine(fn, v1, v2), st3)
  {
    var st1 := st.(table := Keyword(st.table, x.car).0);
    RefersBelowParts(x, |st.frames|);
    assert EvalFirst(fuel - 1, x.cdr, env, st1) == Step(Ok(v1), st2);
    assert EvalSecond(fuel - 1, x.cdr, env, st2) == Step(Ok(v2), st3);
    ApplyNativeHead(fuel - 1, x, env, st1, fn);
    DispatchApplication(st.table, x.car);
    UnfoldApplication(fuel, x, env, st);
  }

  /** An application whose head evaluates to a native, without changing the state, hands it the argument list. */
  lemma ApplyNativeHead(fuel: nat, x: Item, env: FrameRef, st: State, fn: Native)
    requires fuel > 0 && WellFormed(st.frames) && env < |st.frames| && RefersBelow(x, |st.frames|)
    requires x.Pair? && x.car.Symbol? && Lookup(st.frames, env, x.car.id) == NativeProc(fn) && IsCell(x.cdr)
    ensures RefersBelow(x.cdr, |st.frames|)
    ensures EvalApplication(fuel, x, env, st) == ApplyNative(fuel, fn, x.cdr, env, st)
  {
    RefersBelowParts(x, |st.frames|);
  }

  /**
   * Numbers and the null cell evaluate to themselves, a symbol to its
   * innermost binding, and a procedure or the unspecified item to
   * unspecified; none of them changes the state.
   */
  lemma EvalAtom(fuel: nat, x: Item, env: FrameRef, st: State)
    requires fuel > 0 && !x.Pair? && WellFormed(st.frames) && env < |st.frames| && RefersBelow(x, |st.frames|)
    ensures Eval(fuel, x, env, st).st == st
    ensures x.Number? || x.Nil? ==> Eval(fuel, x, env, st).out == Ok(x)
    ensures x.Symbol? ==> Eval(fuel, x, env, st).out == Ok(if x.id in Visible(st.frames, env) then Visible(st.frames, env)[x.id] else Unspecified)
    ensures x.Closure? || x.NativeProc? || x.Unspecified? ==> Eval(fuel, x, env, st).out == Ok(Unspecified)
  {
    if x.Symbol? {
      LookupInnermost(st.frames, env, x.id);
    }
  }

  /** `(quote d ...)` yields `d` unevaluated, whatever `d` is, and leaves the state as it was. */
  lemma EvalQuote(fuel: nat, q: Symbol, d: Item, rest: Item, env: FrameRef, st: State)
    requires fuel > 0 && WellFormed(st.frames) && env < |st.frames|
    requires RefersBelow(Pair(Symbol(q), Pair(d, rest)), |st.frames|)
    requires Consistent(st.table) && q < st.table.count && NameOf(st.table, q) == "quote"
    ensures Eval(fuel, Pair(Symbol(q), Pair(d, rest)), env, st) == Step(Ok(d), st)
  {
    InternNameOf(st.table, q);
  }

  /**
   * `(if c a [b])`: once `c` has evaluated to a number, a nonzero number
   * continues with `a`, and zero with `b`, or yields unspecified when there
   * is no `b`. The state `c` is evaluated in is the one after the dispatch
   * interned the names it compared against.
   */
  lemma EvalIfSelects(fuel: nat, x: Item, env: FrameRef, st: State, n: Int32, st2: State)
    requires fuel > 0 && WellFormed(st.frames) && env < |st.frames| && RefersBelow(x, |st.frames|)
    requires x.Pair? && x.car.Symbol? && Consistent(st.table) && x.car.id < st.table.count && NameOf(st.table, x.car.id) == "if"
    requires Length(x) == Some(3) || Length(x) == Some(4)
    requires x.cdr.Pair? && RefersBelow(x.cdr.car, |st.frames|)
    requires Eval(fuel - 1, x.cdr.car, env, st.(table := Keyword(st.table, x.car).0)) == Step(Ok(Number(n)), st2)
    ensures x.cdr.cdr.Pair? && RefersBelow(x.cdr.cdr.car, |st2.frames|)
    ensures Length(x) == Some(4) ==> x.cdr.cdr.cdr.Pair? && RefersBelow(x.cdr.cdr.cdr.car, |st2.frames|)
    ensures n != 0 ==> Eval(fuel, x, env, st) == Eval(fuel - 1, x.cdr.cdr.car, env, st2)
    ensures n == 0 && Length(x) == Some(4) ==> Eval(fuel, x, env, st) == Eval(fuel - 1, x.cdr.cdr.cdr.car, env, st2)
    ensures n == 0 && Length(x) == Some(3) ==> Eval(fuel, x, env, st) == Step(Ok(Unspecified), st2)
  {
    DispatchIf(fuel, x, env, st);
    LengthDepth(x, Length(x).value);
    RefersBelowParts(x, |st.frames|);
  }

  /** A non-null cell headed by the symbol named "if" is evaluated by `EvalIf`. */
  lemma DispatchIf(fuel: nat, x: Item, env: FrameRef, st: State)
    requires fuel > 0 && x.Pair? && WellFormed(st.frames) && env < |st.frames| && RefersBelow(x, |st.frames|)
    requires Consistent(st.table) && x.car.Symbol? && x.car.id < st.table.count && NameOf(st.table, x.car.id) == "if"
    ensures Eval(fuel, x, env, st) == EvalIf(fuel - 1, x, env, st.(table := Keyword(st.table, x.car).0))
  {
    DispatchByName(st.table, x.car.id, If);
    UnfoldIf(fuel, x, env, st);
  }

  /**
   * `(define name e)` binds the value of `e` to `name` in the current frame
   * and yields it; a later lookup of `name` from that frame finds it.
   */
  lemma EvalDefineValue(fuel: nat, d: Symbol, name: Symbol, e: Item, env: FrameRef, st: State, v: Item, st2: State)
    requires fuel > 0 && WellFormed(st.frames) && env < |st.frames| && RefersBelow(e, |st.frames|)
    requires Consistent(st.table) && d < st.table.count && NameOf(st.table, d) == "define"
    requires Eval(fuel - 1, e, env, st.(table := Keyword(st.table, Symbol(d)).0)) == Step(Ok(v), st2)
    ensures RefersBelow(Pair(Symbol(d), Pair(Symbol(name), Pair(e, Nil))), |st.frames|)
    ensures Eval(fuel, Pair(Symbol(d), Pair(Symbol(name), Pair(e, Nil))), env, st)
              == Step(Ok(v), st2.(frames := Assign(st2.frames, env, name, v)))
    ensures Lookup(Assign(st2.frames, env, name, v), env, name) == v
  {
    var x := Pair(Symbol(d), Pair(Symbol(name), Pair(e, Nil)));
    assert FrameBound(x) <= |st.frames| by {
      assert FrameBound(Pair(e, Nil)) <= |st.frames|;
      assert FrameBound(Pair(Symbol(name), Pair(e, Nil))) <= |st.frames|;
    }
    var st1 := st.(table := Keyword(st.table, Symbol(d)).0);
    var r := Step(Ok(v), st2.(frames := Assign(st2.frames, env, name, v)));
    DefineLength(d, name, e);
    assert EvalDefine(fuel - 1, x, env, st1) == r;
    assert Eval(fuel, x, env, st) == EvalDefine(fuel - 1, x, env, st1) by {
      DispatchByName(st.table, d, Define);
      UnfoldDefine(fuel, x, env, st);
    }
    AssignLocal(st2.frames, env, name, v);
  }

  /** `(define name e)` is a list of three items. */
  lemma DefineLength(d: Symbol, name: Symbol, e: Item)
    ensures Length(Pair(Symbol(d), Pair(Symbol(name), Pair(e, Nil)))) == Some(3)
  {
    LengthCons(e, Nil, 0);
    LengthCons(Symbol(name), Pair(e, Nil), 1);
    LengthCons(Symbol(d), Pair(Symbol(name), Pair(e, Nil)), 2);
  }

  /**
   * `(define (f . params) body ...)` binds `f` in the current frame to the
   * closure over that frame whose code is `(params body)`, and yields it.
   */
  lemma EvalDefineProcedure(fuel: nat, d: Symbol, f: Symbol, params: Item, body: Item, rest: Item, env: FrameRef, st: State)
    requires fuel > 0 && WellFormed(st.frames) && env < |st.frames|
    requires RefersBelow(Pair(Symbol(d), Pair(Pair(Symbol(f), params), Pair(body, rest))), |st.frames|)
    requires Consistent(st.table) && d < st.table.count && NameOf(st.table, d) == "define"
    ensures var proc := Closure(Pair(params, Pair(body, Nil)), env);
      Eval(fuel, Pair(Symbol(d), Pair(Pair(Symbol(f), params), Pair(body, rest))), env, st)
        == Step(Ok(proc), State(Assign(st.frames, env, f, proc), Keyword(st.table, Symbol(d)).0))
  {
    var x := Pair(Symbol(d), Pair(Pair(Symbol(f), params), Pair(body, rest)));
    DispatchByName(st.table, d, Define);
    UnfoldDefine(fuel, x, env, st);
  }

  /**
   * `(set! name e)` binds the value of `e` to `name` in the current frame,
   * even when `name` is unbound or bound further out, and yields it; no
   * other frame changes, and a later lookup of `name` from the current
   * frame finds the new value.
   */
  lemma EvalSetBangLocal(fuel: nat, sb: Symbol, name: Symbol, e: Item, rest: Item, env: FrameRef, st: State, v: Item, st2: State)
    requires fuel > 0 && WellFormed(st.frames) && env < |st.frames|
    requires RefersBelow(e, |st.frames|) && RefersBelow(rest, |st.frames|)
    requires Consistent(st.table) && sb < st.table.count && NameOf(st.table, sb) == "set!"
    requires Eval(fuel - 1, e, env, st.(table := Keyword(st.table, Symbol(sb)).0)) == Step(Ok(v), st2)
    ensures RefersBelow(Pair(Symbol(sb), Pair(Symbol(name), Pair(e, rest))), |st.frames|)
    ensures Eval(fuel, Pair(Symbol(sb), Pair(Symbol(name), Pair(e, rest))), env, st)
              == Step(Ok(v), st2.(frames := Assign(st2.frames, env, name, v)))
    ensures Lookup(Assign(st2.frames, env, name, v), env, name) == v
    ensures forall g :: 0 <= g < |st2.frames| && g != env ==> Assign(st2.frames, env, name, v)[g] == st2.frames[g]
  {
    var x := Pair(Symbol(sb), Pair(Symbol(name), Pair(e, rest)));
    assert FrameBound(x) <= |st.frames| by {
      assert FrameBound(Pair(e, rest)) <= |st.frames|;
      assert FrameBound(Pair(Symbol(name), Pair(e, rest))) <= |st.frames|;
    }
    DispatchByName(st.table, sb, SetBang);
    UnfoldSetBang(fuel, x, env, st);
    AssignLocal(st2.frames, env, name, v);
  }

  /** `(lambda params body ...)` yields the closure over the current frame whose code is `(params body ...)`. */
  lemma EvalLambda(fuel: nat, l: Symbol, code: Item, env: FrameRef, st: State)
    requires fuel > 0 && WellFormed(st.frames) && env < |st.frames| && IsCell(code)
    requires RefersBelow(code, |st.frames|)
    requires Consistent(st.table) && l < st.table.count && NameOf(st.table, l) == "lambda"
    ensures Eval(fuel, Pair(Symbol(l), code), env, st) == Step(Ok(Closure(code, env)), st.(table := Keyword(st.table, Symbol(l)).0))
  {
    DispatchByName(st.table, l, Lambda);
  }

  /**
   * Applying a closure `Closure((params body ...), cenv)`: the arguments
   * are evaluated in the caller's frame and bound to the parameters in a
   * new frame whose outer frame is `cenv`, the frame the closure was made
   * in, and the body is evaluated in the new frame. `CallFrame` states what
   * that frame binds.
   */
  lemma EvalApplyClosure(fuel: nat, x: Item, env: FrameRef, st: State, params: Item, body: Item, crest: Item, cenv: FrameRef, st2: State)
    requires fuel > 0 && x.Pair? && WellFormed(st.frames) && env < |st.frames| && RefersBelow(x, |st.frames|)
    requires Keyword(st.table, x.car).1 == Application && RefersBelow(x.car, |st.frames|)
    requires Eval(fuel - 1, x.car, env, st.(table := Keyword(st.table, x.car).0))
               == Step(Ok(Closure(Pair(params, Pair(body, crest)), cenv)), st2)
    requires IsCell(params) && IsCell(body) && IsCell(x.cdr)
    ensures cenv < |st2.frames| && RefersBelow(x.cdr, |st2.frames|) && RefersBelow(body, |st2.frames| + 1)
    ensures var (n, st3) := NewFrame(st2, cenv);
      var b := BindArguments(fuel - 1, params, x.cdr, n, env, st3);
      && n == |st2.frames|
      && Eval(fuel, x, env, st) == (if b.out.Ok? then Eval(fuel - 1, body, n, b.st) else b)
  {
    var st1 := st.(table := Keyword(st.table, x.car).0);
    var proc := Closure(Pair(params, Pair(body, crest)), cenv);
    RefersBelowParts(x, |st.frames|);
    assert RefersBelow(proc, |st2.frames|) && RefersBelow(x.cdr, |st2.frames|);
    ApplyClosure(fuel - 1, params, body, crest, cenv, x.cdr, env, st2);
    assert EvalApplication(fuel - 1, x, env, st1) == Apply(fuel - 1, proc, x.cdr, env, st2);
    UnfoldApplication(fuel, x, env, st);
  }

  /** Applying a closure `(params body)` evaluates `body` in the frame `CallFrame` describes, once the arguments are bound. */
  lemma ApplyClosure(fuel: nat, params: Item, body: Item, crest: Item, cenv: FrameRef, args: Item, env: FrameRef, st: State)
    requires WellFormed(st.frames) && env < |st.frames| && RefersBelow(args, |st.frames|)
    requires RefersBelow(Closure(Pair(params, Pair(body, crest)), cenv), |st.frames|)
    requires IsCell(params) && IsCell(body) && IsCell(args)
    ensures cenv < |st.frames| && RefersBelow(body, |st.frames| + 1)
    ensures var (n, st3) := NewFrame(st, cenv);
      var b := BindArguments(fuel, params, args, n, env, st3);
      Apply(fuel, Closure(Pair(params, Pair(body, crest)), cenv), args, env, st) == (if b.out.Ok? then Eval(fuel, body, n, b.st) else b)
  {
    var code := Pair(params, Pair(body, crest));
    assert FrameBound(body) <= FrameBound(code) by {
      assert FrameBound(body) <= FrameBound(Pair(body, crest));
    }
  }

  /**
   * The frame a closure call binds its arguments in: new, inside the
   * closure's frame, and binding parameters only, so every other name the
   * body looks up resolves in the closure's frame: scoping is lexical.
   * Binding leaves every older frame but the caller's as it was.
   */
  lemma CallFrame(fuel: nat, params: Item, args: Item, cenv: FrameRef, env: FrameRef, st2: State)
    requires WellFormed(st2.frames) && env < |st2.frames| && cenv < |st2.frames| && RefersBelow(args, |st2.frames|)
    ensures var (n, st3) := NewFrame(st2, cenv);
      var b := BindArguments(fuel, params, args, n, env, st3);
      && n == |st2.frames|
      && b.st.frames[n].outer == Some(cenv)
      && (forall g :: 0 <= g < |st2.frames| && g != env ==> b.st.frames[g] == st2.frames[g])
      && (forall s :: s !in ParamSymbols(params) ==> Lookup(b.st.frames, n, s) == Lookup(b.st.frames, cenv, s))
  {
    var (n, st3) := NewFrame(st2, cenv);
    var b := BindArguments(fuel, params, args, n, env, st3);
    assert b.st.frames[n].bindings.Keys <= ParamSymbols(params);
  }
}
