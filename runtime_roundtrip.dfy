/**
 * The modular runtime's reader (scheme/parser.cpp:141-324) inverts a
 * writer of its forms: a number as its decimal text, a symbol as its name,
 * the null pointer as `()`, and a cell as a parenthesised run of forms that
 * ends either at ')' or in a dotted tail `. form`. Reading back the text of
 * any form, nested lists and dotted tails included, yields the same form,
 * leaves the symbol table alone, and stops at the final blank.
 */
module RuntimeRoundTrip {
  import opened Maybe
  import opened Symbols
  import opened Lexical
  import opened RuntimeReader
  import opened RuntimeReaderExamples
  import DirectCore
  import DirectRoundTrip

  /** The two cells of `(quote x)`, the form `'x` reads as. */
  predicate IsQuote(t: Table, f: Form) {
    f.Cons? && f.car.Symbol? && NameOf(t, f.car.id) == "quote" && f.cdr.Cons? && f.cdr.cdr.Null?
  }

  /** The text of a form: its tokens, each followed by a blank, with `(quote x)` abbreviated to `'x`. */
  function Write(t: Table, f: Form): (w: string)
    ensures w != [] && w[|w| - 1] == ' '
    decreases f, 1
  {
    match f
    case Number(n) => DirectCore.IntToString(n) + " "
    case Symbol(id) => NameOf(t, id) + " "
    case Null => "() "
    case Cons(_, _) =>
      if IsQuote(t, f) then "'" + Write(t, f.cdr.car) else "( " + Run(t, f) + ") "
  }

  /** The inside of a cell's parentheses: its `car`, then the run of its `cdr` or a dotted tail. */
  function Run(t: Table, f: Form): string
    requires f.Cons?
    decreases f, 0
  {
    Write(t, f.car) + (match f.cdr
      case Null => ""
      case Cons(_, _) => Run(t, f.cdr)
      case _ => ". " + Write(t, f.cdr))
  }

  /** The forms whose text reads back: interned symbols with readable names, and anything built of them. */
  ghost predicate Writable(t: Table, f: Form) {
    match f
    case Symbol(id) => id < t.count && DirectRoundTrip.ReadableName(NameOf(t, id))
    case Cons(a, d) => Writable(t, a) && Writable(t, d)
    case _ => true
  }

  /** The text of a form starts a form: no atmosphere, no dotted tail and no ')' there. */
  lemma WriteStarts(t: Table, f: Form, s: seq<char>)
    requires Writable(t, f)
    ensures StartsRun(Write(t, f) + s)
  {
    var w := Write(t, f);
    assert Head(w + s) == w[0];
    match f
    case Number(n) =>
      var m := if n < 0 then 0 - n else n;
      assert n >= 0 ==> w[0] == DirectCore.NatToString(m)[0];
    case Symbol(id) =>
      assert w[0] == NameOf(t, id)[0];
    case Null =>
    case Cons(_, _) =>
      assert w[0] == if IsQuote(t, f) then '\'' else '(';
  }

  /** At '(' the reader reads a list: no quote, number or symbol starts there. */
  lemma FormAtParen(t: Table, cs: seq<char>, rest0: seq<char>)
    requires Head(cs) == '('
    ensures var l := ParseList(cs, rest0, t);
      ParseForm(cs, rest0, t) == if l.form.Some? then l else Parsed(None, l.rest, l.table)
  {
    assert NumeralBody(cs) == cs;
    assert ParseNumber(cs) == None;
    assert SymbolToken(cs) == None;
  }

  /** `() ` reads back as the null pointer. */
  lemma ReadNull(t: Table, s: seq<char>, rest0: seq<char>)
    ensures ParseForm("() " + s, rest0, t) == Parsed(Some(Null), " " + s, t)
  {
    var cs := "() " + s;
    assert cs == "(" + (") " + s) && cs[1..] == ") " + s;
    DirectRoundTrip.AtmosphereAt(") " + s);
    assert (") " + s)[1..] == " " + s;
    FormAtParen(t, cs, rest0);
  }

  /** A run followed by more text, opened up after the text of the cell's `car`. */
  lemma RunText(t: Table, f: Form, s: seq<char>)
    requires f.Cons?
    ensures f.cdr.Null? ==> Run(t, f) + s == Write(t, f.car) + s
    ensures f.cdr.Cons? ==> Run(t, f) + s == Write(t, f.car) + (Run(t, f.cdr) + s)
    ensures !f.cdr.Null? && !f.cdr.Cons? ==> Run(t, f) + s == Write(t, f.car) + (". " + (Write(t, f.cdr) + s))
  {
    var w := Write(t, f.car);
    match f.cdr
    case Null =>
      assert Run(t, f) == w + "";
    case Cons(_, _) =>
      DirectRoundTrip.Assoc(w, Run(t, f.cdr), s);
    case _ =>
      DirectRoundTrip.Assoc(w, ". " + Write(t, f.cdr), s);
      DirectRoundTrip.Assoc(". ", Write(t, f.cdr), s);
  }

  /** The text of a cell, opened up: `(`, a blank, the run, then `) ` and what follows. */
  lemma CellText(t: Table, f: Form, s: seq<char>)
    requires f.Cons? && !IsQuote(t, f)
    ensures Write(t, f) + s == "(" + (" " + (Run(t, f) + (") " + s)))
  {
    var r := Run(t, f);
    assert Write(t, f) == "( " + r + ") ";
    DirectRoundTrip.Regroup(r, s);
  }

  /** A run starts a form: it opens with the text of the cell's `car`. */
  lemma RunStarts(t: Table, f: Form, s: seq<char>)
    requires Writable(t, f) && f.Cons?
    ensures StartsRun(Run(t, f) + s)
  {
    RunText(t, f, s);
    var d := f.cdr;
    var after := if d.Null? then s else if d.Cons? then Run(t, d) + s else ". " + (Write(t, d) + s);
    WriteStarts(t, f.car, after);
  }

  /**
   * The text of a cell, `( run ) `, reads back as the cell once its run
   * does, whichever of the final ')' or the blank before it the run stops at.
   */
  lemma ReadCell(t: Table, f: Form, s: seq<char>, rest0: seq<char>)
    requires Writable(t, f) && f.Cons? && !IsQuote(t, f)
    requires var s2 := ") " + s;
      var r := ParseForms(Run(t, f) + s2, Run(t, f) + s2, t);
      r.form == Some(f) && r.table == t && (r.rest == s2 || r.rest == " " + s2)
    ensures ParseForm(Write(t, f) + s, rest0, t) == Parsed(Some(f), " " + s, t)
  {
    var s2 := ") " + s;
    var a := Run(t, f) + s2;
    var cs := Write(t, f) + s;
    CellText(t, f, s);
    DirectRoundTrip.PastFirst(" " + a);
    DirectRoundTrip.PastFirst(s);
    RunStarts(t, f, s2);
    DirectRoundTrip.AtmosphereBlank(a);
    DirectRoundTrip.AtmosphereAt(s2);
    DirectRoundTrip.AtmosphereBlank(s2);
    ReadListOf(t, cs, rest0, a);
    FormAtParen(t, cs, rest0);
  }

  /**
   * Reading back the text of a form: the form itself, the symbol table
   * unchanged, and `*rest` at the blank after its last token.
   */
  lemma {:induction false} ReadWrite(t: Table, f: Form, s: seq<char>, rest0: seq<char>)
    requires Consistent(t) && Writable(t, f)
    ensures ParseForm(Write(t, f) + s, rest0, t) == Parsed(Some(f), " " + s, t)
    decreases f, 1
  {
    match f
    case Number(n) =>
      ReadNumeral(t, n, s, rest0);
    case Symbol(id) =>
      ReadName(t, NameOf(t, id), s, rest0);
      InternNameOf(t, id);
    case Null =>
      ReadNull(t, s, rest0);
    case Cons(_, _) =>
      if IsQuote(t, f) {
        var x := f.cdr.car;
        DirectRoundTrip.Assoc("'", Write(t, x), s);
        DirectRoundTrip.PastFirst(Write(t, x) + s);
        ReadWrite(t, x, s, rest0);
        InternNameOf(t, f.car.id);
      } else {
        ReadRun(t, f, ") " + s);
        ReadCell(t, f, s, rest0);
      }
  }

  /**
   * Reading back a run followed by ')': the cell it writes, the table
   * unchanged, and `*rest` at the ')' or at the blank before it.
   */
  lemma {:induction false} ReadRun(t: Table, f: Form, s: seq<char>)
    requires Consistent(t) && Writable(t, f) && f.Cons? && Head(s) == ')'
    ensures var r := ParseForms(Run(t, f) + s, Run(t, f) + s, t);
      r.form == Some(f) && r.table == t && (r.rest == s || r.rest == " " + s)
    decreases f, 0
  {
    var x, d := f.car, f.cdr;
    var text := Run(t, f) + s;
    RunText(t, f, s);
    match d
    case Null =>
      ReadWrite(t, x, s, text);
      DirectRoundTrip.AtmosphereBlank(s);
      NoFormAt(t, s, s);
      ReadFormsOn(t, text, text, x, " " + s, t, s);
    case Cons(_, _) =>
      var g := Run(t, d) + s;
      ReadWrite(t, x, g, text);
      RunStarts(t, d, s);
      DirectRoundTrip.AtmosphereBlank(g);
      ReadRun(t, d, s);
      ReadFormsOn(t, text, text, x, " " + g, t, g);
    case _ =>
      var c := Write(t, d) + s;
      var g := ". " + c;
      ReadWrite(t, x, g, text);
      DirectRoundTrip.AtmosphereBlank(g);
      DirectRoundTrip.PastFirst(c);
      WriteStarts(t, d, s);
      DirectRoundTrip.AtmosphereBlank(c);
      ReadWrite(t, d, s, c);
      ReadFormsDotted(t, text, text, x, " " + g, t, g, c);
  }
}
