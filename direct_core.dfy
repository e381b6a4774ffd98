/**
 * The values and environments of the direct-style interpreter
 * (scheme/scheme.cpp): the tagged `Item` union, cons cells, `length`,
 * `print`, `car`/`cdr`, the pure part of the natives, and the `Context`
 * frames with chained `Lookup` and local `Set`.
 *
 * Cells are never updated after the reader has built them, so a cell is a
 * value here: `Nil` is an `eCell` item holding the null pointer and `Pair`
 * one holding a cell. A `Context*` is the index of its frame in the store
 * of all frames, which `Set` and the frame constructors update.
 */
module DirectCore {
  import opened Maybe
  import opened Symbols
  import Lexical

  type Int32 = Lexical.Int32

  /** The procedures `addNativeFns` installs in the root frame. */
  datatype Native = ConsProc | CarProc | CdrProc | CompareProc | NullProc | AddProc | SubProc | MulProc | DivProc | ModProc

  /** A frame: the index of a `Context` in the store of all frames created so far. */
  type FrameRef = nat

  /** `Item`: one constructor per tag, and `eCell` split into null and non-null. */
  datatype Item =
    | Number(n: Int32)
    | Symbol(id: Symbol)
    | Nil
    | Pair(car: Item, cdr: Item)
      /** An `eProc` whose `mProc` is the cell `(params body)` (`Nil` for a null one) and whose closure frame is `env`. */
    | Closure(code: Item, env: FrameRef)
    | NativeProc(fn: Native)
    | Unspecified

  /** The `Tag` of an item, in the order of the source's enum. */
  function TagOf(x: Item): nat {
    match x
    case Number(_) => 0
    case Symbol(_) => 1
    case Nil => 2
    case Pair(_, _) => 2
    case Closure(_, _) => 3
    case NativeProc(_) => 3
    case Unspecified => 4
  }

  /** The item carries a cell pointer (`mTag == eCell`), null or not. */
  predicate IsCell(x: Item) {
    x.Nil? || x.Pair?
  }

  // ---------------------------------------------------------------- lists

  /** `car`: asserts a non-null cell. */
  function Car(x: Item): (r: Option<Item>)
    ensures r.Some? <==> x.Pair?
    ensures r.Some? ==> Pair(r.value, x.cdr) == x
  {
    if x.Pair? then Some(x.car) else None
  }

  /** `cdr`: asserts a non-null cell. */
  function Cdr(x: Item): (r: Option<Item>)
    ensures r.Some? <==> x.Pair?
    ensures r.Some? ==> Pair(x.car, r.value) == x
  {
    if x.Pair? then Some(x.cdr) else None
  }

  /** `car(cdr(...(cdr(x))))` with `n` cdrs; None where an assert would fail. */
  function Nth(x: Item, n: nat): (r: Option<Item>)
    ensures r.Some? ==> FrameBound(r.value) <= FrameBound(x)
  {
    if !x.Pair? then None else if n == 0 then Some(x.car) else Nth(x.cdr, n - 1)
  }

  /** The proper list holding `xs`. */
  function ListOf(xs: seq<Item>): Item {
    if xs == [] then Nil else Pair(xs[0], ListOf(xs[1..]))
  }

  /**
   * `length(cell)`: follows `mCdr.mCell`; reading `mCell` of an item that is
   * not a cell is undefined in the source, and None here.
   */
  function Length(x: Item): Option<nat> {
    match x
    case Nil => Some(0)
    case Pair(_, d) => if IsCell(d) then match Length(d) case Some(n) => Some(n + 1) case None => None else None
    case _ => None
  }

  /** A proper list of length `n` has `n` cells on its spine. */
  lemma LengthDepth(x: Item, n: nat)
    requires Length(x) == Some(n)
    ensures n >= 1 ==> x.Pair?
    ensures n >= 2 ==> x.Pair? && x.cdr.Pair?
    ensures n >= 3 ==> x.Pair? && x.cdr.Pair? && x.cdr.cdr.Pair?
    ensures n >= 4 ==> x.Pair? && x.cdr.Pair? && x.cdr.cdr.Pair? && x.cdr.cdr.cdr.Pair?
  {
    if n >= 1 {
      assert x.Pair?;
      if n >= 2 {
        assert Length(x.cdr) == Some(n - 1);
        if n >= 3 {
          assert Length(x.cdr.cdr) == Some(n - 2);
          if n >= 4 {
            assert Length(x.cdr.cdr.cdr) == Some(n - 3);
          }
        }
      }
    }
  }

  /** A proper list of length `n` has an element at exactly the indices below `n`. */
  lemma {:induction false} LengthNth(x: Item, n: nat)
    requires Length(x) == Some(n)
    ensures forall k: nat :: k < n <==> Nth(x, k).Some?
  {
    if x.Pair? {
      LengthNth(x.cdr, n - 1);
      forall k: nat
        ensures k < n <==> Nth(x, k).Some?
      {
        if k > 0 {
          assert Nth(x, k) == Nth(x.cdr, k - 1);
        }
      }
    }
  }

  /** The elements of a proper list. */
  function Elements(x: Item): seq<Item>
    requires Length(x).Some?
  {
    if x.Pair? then [x.car] + Elements(x.cdr) else []
  }

  /** `length` counts the elements of a proper list... */
  lemma {:induction false} LengthOfList(xs: seq<Item>)
    ensures Length(ListOf(xs)) == Some(|xs|)
  {
    if xs != [] {
      LengthOfList(xs[1..]);
    }
  }

  /** ...and is defined only on proper lists, which it rebuilds from their elements. */
  lemma {:induction false} LengthProper(x: Item)
    requires Length(x).Some?
    ensures x == ListOf(Elements(x)) && Length(x) == Some(|Elements(x)|)
  {
    if x.Pair? {
      LengthProper(x.cdr);
      assert [x.car] + Elements(x.cdr) != [];
      assert ([x.car] + Elements(x.cdr))[1..] == Elements(x.cdr);
    }
  }

  /** The `n`-th element of a proper list is `Nth`. */
  lemma {:induction false} NthOfList(xs: seq<Item>, n: nat)
    requires n < |xs|
    ensures Nth(ListOf(xs), n) == Some(xs[n])
  {
    if n > 0 {
      NthOfList(xs[1..], n - 1);
    }
  }

  // ---------------------------------------------------------------- print

  function DigitChar(d: nat): char
    requires d < 10
  {
    ('0' as int + d) as char
  }

  /** The decimal numeral of a natural number, as `operator<<` writes it. */
  function NatToString(n: nat): (s: string)
    ensures Lexical.AllDigits(s) && s != []
  {
    if n < 10 then [DigitChar(n)] else NatToString(n / 10) + [DigitChar(n % 10)]
  }

  /** `operator<<` on `int32_t`: a '-' before negative numbers. */
  function IntToString(n: int): string {
    if n < 0 then "-" + NatToString(-n) else NatToString(n)
  }

  /** Reading a printed natural number back gives that number. */
  lemma {:induction false} DecimalNatToString(n: nat)
    ensures Lexical.Decimal(NatToString(n)) == n
  {
    if n >= 10 {
      DecimalNatToString(n / 10);
      var s := NatToString(n);
      assert s[..|s| - 1] == NatToString(n / 10);
    }
  }

  /**
   * `print`: numbers and symbol names followed by a space, `() ` for the null
   * cell and `( car . cdr ) ` for a cell. The `eProc` case prints its body
   * but discards the text, so a procedure prints as nothing.
   */
  function Print(t: Table, x: Item): string {
    match x
    case Number(n) => IntToString(n) + " "
    case Symbol(s) => NameOf(t, s) + " "
    case Nil => "() "
    case Pair(a, d) => "( " + Print(t, a) + ". " + Print(t, d) + ") "
    case Closure(_, _) => ""
    case NativeProc(_) => ""
    case Unspecified => "unspecified "
  }

  // ---------------------------------------------------------------- natives

  function Abs(x: int): (r: int)
    ensures r >= 0
  {
    if x < 0 then -x else x
  }

  /**
   * C's `/` on int: the quotient truncated toward zero (Dafny's `/` is
   * Euclidean, so negative operands are handled explicitly).
   */
  function TruncDiv(a: int, b: int): int
    requires b != 0
  {
    var q := Abs(a) / Abs(b);
    if (a < 0) == (b < 0) then q else -q
  }

  /** C's `%` on int: the remainder that goes with `TruncDiv`. */
  function TruncMod(a: int, b: int): int
    requires b != 0
  {
    a - b * TruncDiv(a, b)
  }

  /**
   * The C rules for `/` and `%` on int: `(a/b)*b + a%b == a`, the remainder is
   * smaller than the divisor in magnitude and has the sign of the dividend,
   * and the quotient is rounded toward zero.
   */
  lemma TruncDivMod(a: int, b: int)
    requires b != 0
    ensures TruncDiv(a, b) * b + TruncMod(a, b) == a
    ensures Abs(TruncMod(a, b)) < Abs(b)
    ensures TruncMod(a, b) == 0 || ((TruncMod(a, b) < 0) <==> (a < 0))
    ensures Abs(TruncDiv(a, b)) == Abs(a) / Abs(b)
  {
    var m := Abs(a) % Abs(b);
    assert 0 <= m < Abs(b);
    TruncModMagnitude(a, b);
    assert TruncMod(a, b) == if a < 0 then -m else m;
  }

  /** Negation moves in and out of a product. */
  lemma NegateProduct(x: int, y: int)
    ensures x * (0 - y) == 0 - x * y && (0 - x) * y == 0 - x * y && (0 - x) * (0 - y) == x * y
  {
  }

  /** The product of the divisor and the truncated quotient has the dividend's sign and magnitude `|b| * (|a| / |b|)`. */
  lemma TruncModMagnitude(a: int, b: int)
    requires b != 0
    ensures b * TruncDiv(a, b) == if a < 0 then 0 - Abs(b) * (Abs(a) / Abs(b)) else Abs(b) * (Abs(a) / Abs(b))
    ensures Abs(a) == Abs(b) * (Abs(a) / Abs(b)) + Abs(a) % Abs(b)
  {
    var q := Abs(a) / Abs(b);
    var m := Abs(b);
    NegateProduct(m, q);
    if b < 0 {
      assert b == 0 - m;
      assert TruncDiv(a, b) == if a < 0 then q else 0 - q;
    } else {
      assert b == m;
      assert TruncDiv(a, b) == if a < 0 then 0 - q else q;
    }
  }

  /** The arithmetic natives on `int32_t`; None for a zero divisor or a result outside int32 (undefined in C). */
  function Arith(op: Native, a: Int32, b: Int32): Option<Int32>
    requires op in {AddProc, SubProc, MulProc, DivProc, ModProc}
  {
    var r: Option<int> :=
      match op
      case AddProc => Some(a + b)
      case SubProc => Some(a - b)
      case MulProc => Some(a * b)
      case DivProc => if b == 0 then None else Some(TruncDiv(a, b))
      case ModProc => if b == 0 || !(Lexical.Int32Min <= TruncDiv(a, b) <= Lexical.Int32Max) then None else Some(TruncMod(a, b));
    if r.Some? && Lexical.Int32Min <= r.value <= Lexical.Int32Max then Some(r.value as Int32) else None
  }

  /** `+`, `-` and `*` give the exact result exactly when it fits in int32. */
  lemma ArithRing(op: Native, a: Int32, b: Int32)
    requires op in {AddProc, SubProc, MulProc}
    ensures var exact := match op case AddProc => a + b case SubProc => a - b case _ => a * b;
            && (Arith(op, a, b).Some? <==> Lexical.Int32Min <= exact <= Lexical.Int32Max)
            && (Arith(op, a, b).Some? ==> Arith(op, a, b).value == exact)
  {
  }

  /**
   * `/` and `%` are defined for every nonzero divisor except the one
   * overflowing case `INT_MIN / -1`, and then obey the C rules of
   * `TruncDivMod`.
   */
  lemma ArithDivision(a: Int32, b: Int32)
    ensures b == 0 ==> Arith(DivProc, a, b).None? && Arith(ModProc, a, b).None?
    ensures b != 0 ==> (Arith(DivProc, a, b).Some? <==> !(a == Lexical.Int32Min && b == -1))
    ensures b != 0 ==> (Arith(ModProc, a, b).Some? <==> !(a == Lexical.Int32Min && b == -1))
    ensures Arith(DivProc, a, b).Some? ==>
              (&& Arith(ModProc, a, b).Some?
               && Arith(DivProc, a, b).value * b + Arith(ModProc, a, b).value == a
               && Abs(Arith(ModProc, a, b).value) < Abs(b))
  {
    if b != 0 {
      TruncDivMod(a, b);
      QuotientFits(a, b);
    }
  }

  /** The truncated quotient of two int32 values fits in int32, except for `INT_MIN / -1`. */
  lemma QuotientFits(a: Int32, b: Int32)
    requires b != 0
    ensures (Lexical.Int32Min <= TruncDiv(a, b) <= Lexical.Int32Max) <==> !(a == Lexical.Int32Min && b == -1)
  {
    if b == 1 {
      assert TruncDiv(a, b) == a;
    } else if b == -1 {
      assert TruncDiv(a, b) == 0 - a as int;
    } else {
      QuotientHalves(Abs(a), Abs(b));
    }
  }

  lemma QuotientHalves(x: int, y: int)
    requires 0 <= x <= 0x8000_0000 && y >= 2
    ensures x / y <= 0x4000_0000
  {
    var q := x / y;
    var extra := y - 2;
    assert x == q * y + x % y;
    assert q * y == q * 2 + q * extra;
    assert q * extra >= 0;
  }

  /** `compare`: 1 when the tags agree and two Numbers or two Symbols are equal; 0 otherwise. */
  function Compare(first: Item, second: Item): (r: Int32)
    ensures r == 1 <==> ((first.Number? && second.Number? && first.n == second.n)
                      || (first.Symbol? && second.Symbol? && first.id == second.id))
    ensures r == 0 || r == 1
  {
    if TagOf(first) == TagOf(second) then
      match first
      case Number(n) => if n == second.n then 1 else 0
      case Symbol(s) => if s == second.id then 1 else 0
      case _ => 0
    else
      0
  }

  /** `null`: 1 for the null cell, 0 for anything else. */
  function IsNullOf(x: Item): (r: Int32)
    ensures r == 1 <==> x == Nil
    ensures r == 0 || r == 1
  {
    if TagOf(x) == 2 && !x.Pair? then 1 else 0
  }

  // ---------------------------------------------------------------- frames

  /**
   * `Context`: its bindings and its outer frame (`None` for the root). The
   * frames of a run live in a store, a sequence indexed by `FrameRef`, in
   * the order they were created.
   */
  datatype Frame = Frame(bindings: map<Symbol, Item>, outer: Option<FrameRef>)

  /** Every frame was created after its outer frame, so each outer chain ends at a root. */
  predicate Linked(frames: seq<Frame>) {
    forall i :: 0 <= i < |frames| && frames[i].outer.Some? ==> frames[i].outer.value < i
  }

  /** One more than the largest frame a closure inside `x` refers to; 0 when there is none. */
  function FrameBound(x: Item): (n: nat)
    ensures x.Closure? ==> x.env < n
  {
    match x
    case Pair(a, d) => Max(FrameBound(a), FrameBound(d))
    case Closure(code, env) => Max(env + 1, FrameBound(code))
    case _ => 0
  }

  function Max(a: nat, b: nat): nat {
    if a < b then b else a
  }

  /** The closures inside `x` refer to frames below `n` only. */
  predicate RefersBelow(x: Item, n: nat) {
    FrameBound(x) <= n
  }

  /** A store the interpreter can be in: linked, and every bound closure refers to an existing frame. */
  ghost predicate WellFormed(frames: seq<Frame>) {
    && Linked(frames)
    && forall i, s :: 0 <= i < |frames| && s in frames[i].bindings ==> RefersBelow(frames[i].bindings[s], |frames|)
  }

  /** `Lookup`: the binding in frame `f`, else the one its outer chain finds, else `Unspecified`. */
  function Lookup(frames: seq<Frame>, f: FrameRef, s: Symbol): Item
    requires Linked(frames) && f < |frames|
    decreases f
  {
    if s in frames[f].bindings then
      frames[f].bindings[s]
    else
      match frames[f].outer
      case None => Unspecified
      case Some(o) => Lookup(frames, o, s)
  }

  /** What frame `f` sees: the view of its outer frame overridden by its own bindings. */
  ghost function Visible(frames: seq<Frame>, f: FrameRef): map<Symbol, Item>
    requires Linked(frames) && f < |frames|
    decreases f
  {
    (match frames[f].outer case None => map[] case Some(o) => Visible(frames, o)) + frames[f].bindings
  }

  /** Frame `f` and all the frames of its outer chain. */
  ghost function Chain(frames: seq<Frame>, f: FrameRef): set<FrameRef>
    requires Linked(frames) && f < |frames|
    decreases f
  {
    {f} + match frames[f].outer case None => {} case Some(o) => Chain(frames, o)
  }

  /** `Lookup` finds the innermost binding of `s`, and `Unspecified` when no frame of the chain binds it. */
  lemma {:induction false} LookupInnermost(frames: seq<Frame>, f: FrameRef, s: Symbol)
    requires Linked(frames) && f < |frames|
    ensures Lookup(frames, f, s) == if s in Visible(frames, f) then Visible(frames, f)[s] else Unspecified
    decreases f
  {
    if s !in frames[f].bindings && frames[f].outer.Some? {
      LookupInnermost(frames, frames[f].outer.value, s);
    }
  }

  /** What `Lookup` finds in a well-formed store refers to existing frames. */
  lemma {:induction false} LookupRefers(frames: seq<Frame>, f: FrameRef, s: Symbol)
    requires WellFormed(frames) && f < |frames|
    ensures RefersBelow(Lookup(frames, f, s), |frames|)
    decreases f
  {
    if s !in frames[f].bindings && frames[f].outer.Some? {
      LookupRefers(frames, frames[f].outer.value, s);
    }
  }

  /** Appending a frame whose outer frame exists and whose bindings refer to existing frames keeps the store well formed. */
  lemma AppendWellFormed(frames: seq<Frame>, fr: Frame)
    requires WellFormed(frames)
    requires fr.outer.Some? ==> fr.outer.value < |frames|
    requires forall s :: s in fr.bindings ==> RefersBelow(fr.bindings[s], |frames| + 1)
    ensures WellFormed(frames + [fr])
  {
    var r := frames + [fr];
    forall i, s | 0 <= i < |r| && s in r[i].bindings
      ensures RefersBelow(r[i].bindings[s], |r|)
    {
    }
  }

  /** A chain only holds frames at or below its start. */
  lemma {:induction false} ChainBelow(frames: seq<Frame>, f: FrameRef)
    requires Linked(frames) && f < |frames|
    ensures forall g :: g in Chain(frames, f) ==> g <= f
    decreases f
  {
    if frames[f].outer.Some? {
      ChainBelow(frames, frames[f].outer.value);
    }
  }

  /** `Set`: (re)binds `s` in frame `f` only. */
  function Assign(frames: seq<Frame>, f: FrameRef, s: Symbol, v: Item): (r: seq<Frame>)
    requires f < |frames|
    ensures |r| == |frames| && r[f].outer == frames[f].outer
  {
    frames[f := Frame(frames[f].bindings[s := v], frames[f].outer)]
  }

  /** The lookups from a frame whose chain avoids `f` do not see an assignment to `f`. */
  lemma {:induction false} AssignElsewhere(frames: seq<Frame>, f: FrameRef, s: Symbol, v: Item, g: FrameRef, t: Symbol)
    requires Linked(frames) && f < |frames| && g < |frames| && f !in Chain(frames, g)
    ensures Linked(Assign(frames, f, s, v))
    ensures Lookup(Assign(frames, f, s, v), g, t) == Lookup(frames, g, t)
    decreases g
  {
    var r := Assign(frames, f, s, v);
    assert forall i :: 0 <= i < |r| ==> r[i].outer == frames[i].outer;
    if t !in frames[g].bindings && frames[g].outer.Some? {
      AssignElsewhere(frames, f, s, v, frames[g].outer.value, t);
    }
  }

  /**
   * `Set` overrides `s` in the view of frame `f`, changes no other frame,
   * and leaves every outer frame's view, in particular any binding of `s`
   * further out, as it was.
   */
  lemma AssignLocal(frames: seq<Frame>, f: FrameRef, s: Symbol, v: Item)
    requires Linked(frames) && f < |frames|
    ensures Linked(Assign(frames, f, s, v))
    ensures Visible(Assign(frames, f, s, v), f) == Visible(frames, f)[s := v]
    ensures Lookup(Assign(frames, f, s, v), f, s) == v
    ensures forall t :: t != s ==> Lookup(Assign(frames, f, s, v), f, t) == Lookup(frames, f, t)
    ensures forall i :: 0 <= i < |frames| && i != f ==> Assign(frames, f, s, v)[i] == frames[i]
    ensures frames[f].outer.Some? ==>
              Visible(Assign(frames, f, s, v), frames[f].outer.value) == Visible(frames, frames[f].outer.value)
  {
    var r := Assign(frames, f, s, v);
    assert forall i :: 0 <= i < |r| ==> r[i].outer == frames[i].outer;
    if frames[f].outer.Some? {
      VisibleUnchanged(frames, r, frames[f].outer.value, f);
    }
    LookupInnermost(r, f, s);
    forall t | t != s
      ensures Lookup(r, f, t) == Lookup(frames, f, t)
    {
      LookupInnermost(r, f, t);
      LookupInnermost(frames, f, t);
    }
  }

  /** Two stores that agree on the frames up to `g` give `g` the same view. */
  lemma {:induction false} VisibleUnchanged(frames: seq<Frame>, r: seq<Frame>, g: FrameRef, f: FrameRef)
    requires Linked(frames) && Linked(r) && g < f <= |frames| == |r|
    requires forall i :: 0 <= i < f ==> r[i] == frames[i]
    ensures Visible(r, g) == Visible(frames, g)
    decreases g
  {
    if frames[g].outer.Some? {
      VisibleUnchanged(frames, r, frames[g].outer.value, f);
    }
  }

  /** Binding a value that refers to existing frames keeps the store well formed. */
  lemma AssignWellFormed(frames: seq<Frame>, f: FrameRef, s: Symbol, v: Item)
    requires WellFormed(frames) && f < |frames| && RefersBelow(v, |frames|)
    ensures WellFormed(Assign(frames, f, s, v))
  {
  }
}
