/**
 * What the runtime's reader makes of the inputs its own tests read
 * (scheme/parser.cpp:365-399), stated for every name and number of the
 * shape those tests use: the empty list with and without blanks inside,
 * a list of a name, a number and a name, a dotted pair, a list left
 * unclosed and a quoted name. The step lemmas first say what one parser
 * does at one kind of character; the examples chain them.
 */
module RuntimeReaderExamples {
  import opened Maybe
  import opened Symbols
  import opened Lexical
  import opened RuntimeReader
  import DirectCore
  import DirectRoundTrip

  // ------------------------------------------------------------ single steps

  /** A name and a blank read as the symbol of that name, interned, with the blank left over. */
  lemma ReadName(t: Table, name: string, s: seq<char>, rest0: seq<char>)
    requires DirectRoundTrip.ReadableName(name)
    ensures ParseForm(name + " " + s, rest0, t) == Parsed(Some(Symbol(Intern(t, name).1)), " " + s, Intern(t, name).0)
  {
    DirectRoundTrip.NameText(name, s);
    assert Head(name + " " + s) == name[0];
  }

  /** The decimal text of a number and a blank, read as that number. */
  lemma ReadNumeral(t: Table, n: Int32, s: seq<char>, rest0: seq<char>)
    ensures ParseForm(DirectCore.IntToString(n) + " " + s, rest0, t) == Parsed(Some(Number(n)), " " + s, t)
  {
    var cs := DirectCore.IntToString(n) + " " + s;
    DirectRoundTrip.NumberText(n, s);
    DirectRoundTrip.NumberBody(n, s);
    assert Head(cs) != '\'';
  }

  /** At a ')' or at the end of the text no form starts, and `*rest` is left alone. */
  lemma NoFormAt(t: Table, cs: seq<char>, rest0: seq<char>)
    requires Head(cs) == ')' || cs == []
    ensures ParseForm(cs, rest0, t) == Parsed(None, rest0, t)
    ensures ParseForms(cs, rest0, t) == Parsed(None, rest0, t)
  {
    assert NumeralBody(cs) == cs && !IsDigit(Head(cs));
    assert ParseNumber(cs) == None;
    assert ParseNumberForm(cs, rest0, t) == Parsed(None, rest0, t);
    assert SymbolToken(cs) == None;
    assert ParseSymbolForm(cs, rest0, t) == Parsed(None, rest0, t);
    assert ParseNil(cs, rest0, t) == Parsed(None, rest0, t);
    assert ParseNonEmptyList(cs, rest0, t) == Parsed(None, rest0, t);
    assert ParseList(cs, rest0, t) == Parsed(None, rest0, t);
    assert ParseUnquotedForm(cs, rest0, t) == Parsed(None, rest0, t);
  }

  /**
   * A form, then atmosphere before anything but '.': the run is that form
   * consed onto the run read after the atmosphere, or onto the null
   * pointer when no run is there.
   */
  lemma ReadFormsOn(t: Table, cs: seq<char>, rest0: seq<char>, x: Form, r: seq<char>, t1: Table, a: seq<char>)
    requires ParseForm(cs, rest0, t) == Parsed(Some(x), r, t1)
    requires a == ParseAtmosphere(r) && Head(a) != '.'
    ensures var tail := ParseForms(a, a, t1);
      ParseForms(cs, rest0, t) == Parsed(Some(Cons(x, if tail.form.Some? then tail.form.value else Null)), tail.rest, tail.table)
  {
  }

  /** A form, atmosphere, '.', atmosphere and a second form: the pair of the two forms. */
  lemma ReadFormsDotted(t: Table, cs: seq<char>, rest0: seq<char>, x: Form, r: seq<char>, t1: Table, a: seq<char>, c: seq<char>)
    requires ParseForm(cs, rest0, t) == Parsed(Some(x), r, t1)
    requires a == ParseAtmosphere(r) && Head(a) == '.'
    requires c == ParseAtmosphere(a[1..])
    requires ParseForm(c, c, t1).form.Some?
    ensures var y := ParseForm(c, c, t1);
      ParseForms(cs, rest0, t) == Parsed(Some(Cons(x, y.form.value)), y.rest, y.table)
  {
  }

  /**
   * '(' then atmosphere before anything but ')', then a run of forms: the
   * list is that run when atmosphere and ')' follow it, and the reader
   * fails with `*rest` past the atmosphere otherwise.
   */
  lemma ReadListOf(t: Table, cs: seq<char>, rest0: seq<char>, a: seq<char>)
    requires Head(cs) == '('
    requires a == ParseAtmosphere(cs[1..]) && Head(a) != ')'
    requires ParseForms(a, a, t).form.Some?
    ensures var fs := ParseForms(a, a, t);
      var b := ParseAtmosphere(fs.rest);
      ParseList(cs, rest0, t) == if Head(b) == ')' then Parsed(fs.form, b[1..], fs.table) else Parsed(None, b, fs.table)
  {
  }

  // ---------------------------------------------------------------- examples

  /** `()` and `(    )` read as the null cell pointer, the empty list. */
  lemma EmptyLists(t: Table)
    ensures ParseList("()", "()", t) == Parsed(Some(Null), [], t)
    ensures ParseList("(    )", "(    )", t) == Parsed(Some(Null), [], t)
  {
    DirectRoundTrip.AtmosphereAt(")");
    assert ("()")[1..] == ")";
    var blanks := "    )";
    assert ("(    )")[1..] == blanks;
    SpanUnique(blanks, IsWhitespace, 4);
    assert SkipWhitespace(blanks) == ")";
    assert ParseAtmosphere(blanks) == ")";
  }

  /** Text where a run of forms can start: no atmosphere, no dotted tail and no ')' there. */
  predicate StartsRun(f: seq<char>) {
    !IsWhitespace(Head(f)) && Head(f) != ';' && Head(f) != '.' && Head(f) != ')'
  }

  /** Text that starts with a symbol's first character starts neither atmosphere nor a dotted tail. */
  lemma NameStart(name: string, s: seq<char>)
    requires DirectRoundTrip.ReadableName(name)
    ensures StartsRun(name + " " + s)
  {
    assert Head(name + " " + s) == name[0];
  }

  /** A run that begins with a name: the symbol consed onto the run after one blank. */
  lemma NameThenForms(t: Table, name: string, f: seq<char>, rest0: seq<char>)
    requires DirectRoundTrip.ReadableName(name)
    requires !IsWhitespace(Head(f)) && Head(f) != ';' && Head(f) != '.'
    ensures var (t1, id) := Intern(t, name);
      var tail := ParseForms(f, f, t1);
      ParseForms(name + " " + f, rest0, t) == Parsed(Some(Cons(Symbol(id), if tail.form.Some? then tail.form.value else Null)), tail.rest, tail.table)
  {
    ReadName(t, name, f, rest0);
    DirectRoundTrip.AtmosphereBlank(f);
    ReadFormsOn(t, name + " " + f, rest0, Symbol(Intern(t, name).1), " " + f, Intern(t, name).0, f);
  }

  /** Text that starts with a printed number starts neither atmosphere nor a dotted tail. */
  lemma NumeralStart(n: Int32, f: seq<char>)
    ensures StartsRun(DirectCore.IntToString(n) + " " + f)
  {
    DirectRoundTrip.NumberBody(n, f);
  }

  /** A run that begins with a numeral: the number consed onto the run after one blank. */
  lemma NumeralThenForms(t: Table, n: Int32, f: seq<char>, rest0: seq<char>)
    requires !IsWhitespace(Head(f)) && Head(f) != ';' && Head(f) != '.'
    ensures var text := DirectCore.IntToString(n) + " " + f;
      StartsRun(text)
    ensures var tail := ParseForms(f, f, t);
      ParseForms(DirectCore.IntToString(n) + " " + f, rest0, t) == Parsed(Some(Cons(Number(n), if tail.form.Some? then tail.form.value else Null)), tail.rest, tail.table)
  {
    NumeralStart(n, f);
    ReadNumeral(t, n, f, rest0);
    DirectRoundTrip.AtmosphereBlank(f);
    ReadFormsOn(t, DirectCore.IntToString(n) + " " + f, rest0, Number(n), " " + f, t, f);
  }

  /** '.', a blank, a name and a blank: the dotted tail of that name. */
  lemma DotName(t: Table, b: string, s: seq<char>)
    requires DirectRoundTrip.ReadableName(b)
    ensures var f := b + " " + s;
      var g := ". " + f;
      && Head(g) == '.' && ParseAtmosphere(g[1..]) == f
      && ParseForm(f, f, t) == Parsed(Some(Symbol(Intern(t, b).1)), " " + s, Intern(t, b).0)
  {
    var f := b + " " + s;
    ReadName(t, b, s, f);
    DirectRoundTrip.PastFirst(f);
    NameStart(b, s);
    DirectRoundTrip.AtmosphereBlank(f);
  }

  /** A name, a blank, '.', a blank and a second name: the pair of the two symbols. */
  lemma NameDotName(t: Table, a: string, b: string, s: seq<char>, rest0: seq<char>)
    requires DirectRoundTrip.ReadableName(a) && DirectRoundTrip.ReadableName(b)
    ensures var text := a + " " + (". " + (b + " " + s));
      var (t1, ia) := Intern(t, a);
      var (t2, ib) := Intern(t1, b);
      && ParseForms(text, rest0, t) == Parsed(Some(Cons(Symbol(ia), Symbol(ib))), " " + s, t2)
  {
    var (t1, ia) := Intern(t, a);
    var f1 := b + " " + s;
    var f2 := ". " + f1;
    DotName(t1, b, s);
    ReadName(t, a, f2, rest0);
    DirectRoundTrip.AtmosphereBlank(f2);
    ReadFormsDotted(t, a + " " + f2, rest0, Symbol(ia), " " + f2, t1, f2, f1);
  }

  /** `( ` then a run of forms: the list of them when atmosphere and ')' follow it, else a failure. */
  lemma OpenThenForms(t: Table, f: seq<char>)
    requires StartsRun(f)
    requires ParseForms(f, f, t).form.Some?
    ensures var fs := ParseForms(f, f, t);
      var b := ParseAtmosphere(fs.rest);
      ParseList("( " + f, "( " + f, t) == if Head(b) == ')' then Parsed(fs.form, b[1..], fs.table) else Parsed(None, b, fs.table)
  {
    DirectRoundTrip.PastFirst(f);
    DirectRoundTrip.AtmosphereBlank(f);
    ReadListOf(t, "( " + f, "( " + f, f);
  }

  /** A name, a blank and ')': the one-item run, stopped at the ')'. */
  lemma LastName(t: Table, c: string)
    requires DirectRoundTrip.ReadableName(c)
    ensures var f := c + " " + ")";
      && StartsRun(f)
      && ParseForms(f, f, t) == Parsed(Some(Cons(Symbol(Intern(t, c).1), Null)), ")", Intern(t, c).0)
  {
    NoFormAt(Intern(t, c).0, ")", ")");
    NameThenForms(t, c, ")", c + " " + ")");
    NameStart(c, ")");
  }

  /** A numeral, a blank, a name, a blank and ')': the two-item run. */
  lemma NumeralThenLastName(t: Table, n: Int32, c: string)
    requires DirectRoundTrip.ReadableName(c)
    ensures var f := DirectCore.IntToString(n) + " " + (c + " " + ")");
      && StartsRun(f)
      && ParseForms(f, f, t) == Parsed(Some(Cons(Number(n), Cons(Symbol(Intern(t, c).1), Null))), ")", Intern(t, c).0)
  {
    LastName(t, c);
    NumeralThenForms(t, n, c + " " + ")", DirectCore.IntToString(n) + " " + (c + " " + ")"));
  }

  /** A name, a blank, then a numeral and a name as above: the three-item run. */
  lemma NameThenNumeralThenLastName(t: Table, a: string, n: Int32, c: string)
    requires DirectRoundTrip.ReadableName(a) && DirectRoundTrip.ReadableName(c)
    ensures var f := a + " " + (DirectCore.IntToString(n) + " " + (c + " " + ")"));
      var (t1, ia) := Intern(t, a);
      var (t2, ic) := Intern(t1, c);
      && StartsRun(f)
      && ParseForms(f, f, t) == Parsed(Some(Cons(Symbol(ia), Cons(Number(n), Cons(Symbol(ic), Null)))), ")", t2)
  {
    var f2 := DirectCore.IntToString(n) + " " + (c + " " + ")");
    NumeralThenLastName(Intern(t, a).0, n, c);
    NameThenForms(t, a, f2, a + " " + f2);
    NameStart(a, f2);
  }

  /**
   * `( cat 100 unicorn )`: three items, the names interned in the order
   * read, so the list has length 3.
   */
  lemma NameNumberName(t: Table, a: string, n: Int32, c: string)
    requires DirectRoundTrip.ReadableName(a) && DirectRoundTrip.ReadableName(c)
    ensures var text := "( " + (a + " " + (DirectCore.IntToString(n) + " " + (c + " " + ")")));
      var (t1, ia) := Intern(t, a);
      var (t2, ic) := Intern(t1, c);
      && ParseList(text, text, t) == Parsed(Some(Cons(Symbol(ia), Cons(Number(n), Cons(Symbol(ic), Null)))), [], t2)
      && ListLength(ParseList(text, text, t).form.value) == Some(3)
  {
    var f3 := a + " " + (DirectCore.IntToString(n) + " " + (c + " " + ")"));
    NameThenNumeralThenLastName(t, a, n, c);
    DirectRoundTrip.AtmosphereAt(")");
    OpenThenForms(t, f3);
    LengthThree(Symbol(Intern(t, a).1), Number(n), Symbol(Intern(Intern(t, a).0, c).1));
  }

  /** Three cells ending in the null pointer make a list of length 3. */
  lemma LengthThree(x: Form, y: Form, z: Form)
    ensures ListLength(Cons(x, Cons(y, Cons(z, Null)))) == Some(3)
  {
    assert ListLength(Cons(z, Null)) == Some(1);
  }

  /** `( first . second )`: the pair of the two symbols. */
  lemma DottedPair(t: Table, a: string, b: string)
    requires DirectRoundTrip.ReadableName(a) && DirectRoundTrip.ReadableName(b)
    ensures var text := "( " + (a + " " + (". " + (b + " " + ")")));
      var (t1, ia) := Intern(t, a);
      var (t2, ib) := Intern(t1, b);
      && ParseList(text, text, t) == Parsed(Some(Cons(Symbol(ia), Symbol(ib))), [], t2)
  {
    var f3 := a + " " + (". " + (b + " " + ")"));
    NameDotName(t, a, b, ")", f3);
    NameStart(a, ". " + (b + " " + ")"));
    DirectRoundTrip.AtmosphereBlank(")");
    OpenThenForms(t, f3);
  }

  /** `( Maddy loves `: without the closing ')' there is no list. */
  lemma Unclosed(t: Table, a: string, b: string)
    requires DirectRoundTrip.ReadableName(a) && DirectRoundTrip.ReadableName(b)
    ensures var text := "( " + (a + " " + (b + " "));
      && ParseList(text, text, t).form == None
  {
    var (t1, ia) := Intern(t, a);
    var (t2, ib) := Intern(t1, b);
    var f0: seq<char> := [];
    var f1 := b + " " + f0;
    var f2 := a + " " + f1;
    assert f1 == b + " " && f2 == a + " " + (b + " ");
    NoFormAt(t2, f0, f0);
    NameThenForms(t1, b, f0, f1);
    NameStart(b, f0);
    NameThenForms(t, a, f1, f2);
    NameStart(a, f1);
    OpenThenForms(t, f2);
  }

  /** `'hello-everyone`: a quoted name reads as the list `(quote hello-everyone)`. */
  lemma QuotedName(t: Table, a: string, s: seq<char>, rest0: seq<char>)
    requires DirectRoundTrip.ReadableName(a)
    ensures var text := "'" + (a + " " + s);
      var (t1, ia) := Intern(t, a);
      var (t2, quote) := Intern(t1, "quote");
      && ParseForm(text, rest0, t) == Parsed(Some(Cons(Symbol(quote), Cons(Symbol(ia), Null))), " " + s, t2)
  {
    var text := "'" + (a + " " + s);
    ReadName(t, a, s, rest0);
    assert text[1..] == a + " " + s;
  }
}
