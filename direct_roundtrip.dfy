/**
 * `print` and the reader of the direct-style interpreter are inverse on the
 * data the reader builds (scheme/scheme.cpp:546-577 against 205-532):
 * printing a datum and reading the text back yields the same datum, leaves
 * the symbol table alone, and stops at the blank `print` writes after the
 * last token.
 */
module DirectRoundTrip {
  import opened Maybe
  import opened Symbols
  import opened Lexical
  import opened DirectCore
  import opened DirectReader

  /**
   * A name `print` writes and `parseSymbol` reads back as the same symbol:
   * a symbol-initial character then symbol-body characters, not a '-' that
   * `parseNumber` would take as a sign.
   */
  ghost predicate ReadableName(name: string) {
    && name != []
    && IsSymbolInitial(name[0])
    && (forall i :: 0 <= i < |name| ==> IsSymbolBody(name[i]))
    && !(name[0] == '-' && |name| > 1 && IsDigit(name[1]))
  }

  /**
   * The data whose printed form reads back: numbers (INT_MIN too, through
   * the wrap-around: its digits accumulate to INT_MIN and negating that
   * wraps back), interned symbols with readable names, and cells of these.
   */
  ghost predicate Readable(t: Table, x: Item) {
    match x
    case Number(n) => true
    case Symbol(id) => id < t.count && ReadableName(NameOf(t, id))
    case Nil => true
    case Pair(a, d) => Readable(t, a) && Readable(t, d)
    case _ => false
  }

  /** The first character of a printed datum starts no atmosphere and no other syntax; it ends in a space. */
  lemma {:induction false} PrintShape(t: Table, x: Item)
    requires Readable(t, x)
    ensures var p := Print(t, x);
      && p != [] && p[|p| - 1] == ' '
      && !IsWhitespace(p[0]) && p[0] != ';' && p[0] != ')' && p[0] != '.' && p[0] != '\''
  {
    match x
    case Number(n) =>
      if n < 0 {
        assert Print(t, x)[0] == '-';
      } else {
        assert Print(t, x)[0] == NatToString(n)[0];
        assert IsDigit(NatToString(n)[0]);
      }
    case Symbol(id) =>
      assert Print(t, x)[0] == NameOf(t, id)[0];
    case Nil =>
    case Pair(a, d) =>
  }

  /** Atmosphere skips nothing before a character that is neither whitespace nor ';'. */
  lemma AtmosphereAt(cs: seq<char>)
    requires !IsWhitespace(Head(cs)) && Head(cs) != ';'
    ensures ParseAtmosphere(cs) == cs
  {
  }

  /** Atmosphere skips exactly one space before such a character. */
  lemma AtmosphereBlank(cs: seq<char>)
    requires !IsWhitespace(Head(cs)) && Head(cs) != ';'
    ensures ParseAtmosphere(" " + cs) == cs
  {
    SpanUnique(" " + cs, IsWhitespace, 1);
    assert SkipWhitespace(" " + cs) == cs;
  }

  /** The digit run of digits followed by a space is those digits. */
  lemma DigitsThenBlank(ds: seq<char>, s: seq<char>)
    requires AllDigits(ds)
    ensures DigitRun(ds + (" " + s)) == ds
  {
    DigitRunAll(ds);
    DigitRunConcat(ds + " ", s);
    assert ds + (" " + s) == (ds + " ") + s;
  }

  /** The printed form of a number is an optional sign, then the digits of its magnitude. */
  lemma NumberBody(n: Int32, s: seq<char>)
    ensures var m := if n < 0 then 0 - n else n;
      && NumeralBody(IntToString(n) + " " + s) == NatToString(m) + (" " + s)
      && (IsSign(Head(IntToString(n) + " " + s)) <==> n < 0)
      && (Head(IntToString(n) + " " + s) == '-' || IsDigit(Head(IntToString(n) + " " + s)))
  {
    var m := if n < 0 then 0 - n else n;
    var ds := NatToString(m);
    var cs := IntToString(n) + " " + s;
    if n < 0 {
      assert cs == "-" + (ds + (" " + s));
    } else {
      assert cs == ds + (" " + s);
      assert Head(cs) == ds[0];
      assert IsDigit(ds[0]);
    }
  }

  /** The printed form of a number, followed by a space, reads back as that number. */
  lemma NumberText(n: Int32, s: seq<char>)
    ensures ParseNumber(IntToString(n) + " " + s) == Some((n, " " + s))
  {
    var cs := IntToString(n) + " " + s;
    var m := if n < 0 then 0 - n else n;
    var ds := NatToString(m);
    DecimalNatToString(m);
    NumberBody(n, s);
    DigitsThenBlank(ds, s);
    ParseNumberValue(cs);
    assert (ds + (" " + s))[|ds|..] == " " + s;
  }

  /** The printed name of a symbol, followed by a space, reads back as that name. */
  lemma NameText(name: string, s: seq<char>)
    requires ReadableName(name)
    ensures SymbolToken(name + " " + s) == Some((name, " " + s))
    ensures ParseNumber(name + " " + s) == None
  {
    var cs := name + " " + s;
    SpanUnique(cs, IsSymbolBody, |name|);
    assert cs[..|name|] == name && cs[|name|..] == " " + s;
    assert NumeralBody(cs) == cs || NumeralBody(cs) == cs[1..];
    assert !IsDigit(Head(NumeralBody(cs))) by {
      if IsSign(Head(cs)) {
        assert |name| > 1 ==> Head(cs[1..]) == name[1];
      }
    }
    assert DigitRun(NumeralBody(cs)) == [];
  }

  /** Regrouping a concatenation of three texts. */
  lemma Assoc(a: string, b: string, c: string)
    ensures a + b + c == a + (b + c)
  {
  }

  /** Regrouping the text of a cell followed by more text. */
  lemma Regroup(r: string, s: string)
    ensures "( " + r + ") " + s == "(" + (" " + (r + (") " + s)))
  {
  }

  /** Past the first character of `(`, `) ` and `. ` followed by more text. */
  lemma PastFirst(x: string)
    ensures ("(" + x)[1..] == x
    ensures ("( " + x)[1..] == " " + x && Head("( " + x) == '('
    ensures ("'" + x)[1..] == x && Head("'" + x) == '\''
    ensures (") " + x)[1..] == " " + x && Head(") " + x) == ')'
    ensures (". " + x)[1..] == " " + x && Head(". " + x) == '.'
  {
  }

  /** Text that `print` may have begun: its first character starts no atmosphere. */
  predicate StartsForm(p: string) {
    p != [] && !IsWhitespace(p[0]) && p[0] != ';'
  }

  /** The second half of `parsePair` succeeds when each of its steps does. */
  lemma ReadDottedCdr(t: Table, cs: seq<char>, c: seq<char>, x: Item, r: seq<char>, e: seq<char>)
    requires Head(cs) == '.' && ParseAtmosphere(cs[1..]) == c
    requires ParseForm(c, c, t) == Parsed(Some(x), r, t)
    requires ParseAtmosphere(r) == e && Head(e) == ')'
    ensures ParseDottedCdr(cs, t) == Parsed(Some(x), e[1..], t)
  {
  }

  /** `parsePair` succeeds when each of its steps does. */
  lemma ReadPair(t: Table, cs: seq<char>, a: seq<char>, x: Item, r: seq<char>, b: seq<char>, y: Item, rest: seq<char>, rest0: seq<char>)
    requires Head(cs) == '(' && ParseAtmosphere(cs[1..]) == a
    requires ParseForm(a, a, t) == Parsed(Some(x), r, t)
    requires ParseAtmosphere(r) == b
    requires ParseDottedCdr(b, t) == Parsed(Some(y), rest, t)
    ensures ParsePair(cs, rest0, t) == Parsed(Some(Pair(x, y)), rest, t)
  {
  }

  /** At '(' followed by a form that is not ')', `parseForm` is `parsePair` when that succeeds. */
  lemma ReadPairList(t: Table, cs: seq<char>, a: seq<char>, x: Item, rest: seq<char>, rest0: seq<char>)
    requires Head(cs) == '(' && ParseAtmosphere(cs[1..]) == a && Head(a) != ')'
    requires forall r :: ParsePair(cs, r, t) == Parsed(Some(x), rest, t)
    ensures ParseForm(cs, rest0, t) == Parsed(Some(x), rest, t)
  {
    assert ParseNumber(cs) == None;
    assert ParseQuotedForm(cs, rest0, t) == Parsed(None, rest0, t);
    assert ParseNumberItem(cs, rest0, t) == Parsed(None, rest0, t);
    assert ParseSymbolItem(cs, rest0, t) == Parsed(None, rest0, t);
    assert ParseNil(cs, rest0, t) == Parsed(None, a, t);
    assert ParseList(cs, rest0, t) == Parsed(Some(x), rest, t);
  }

  /** Reading back a printed number. */
  lemma ReadNumber(t: Table, n: Int32, s: seq<char>, rest0: seq<char>)
    ensures ParseForm(IntToString(n) + " " + s, rest0, t) == Parsed(Some(Number(n)), " " + s, t)
  {
    var cs := IntToString(n) + " " + s;
    NumberText(n, s);
    var m := if n < 0 then 0 - n else n;
    assert Head(cs) == '-' || Head(cs) == NatToString(m)[0];
    assert IsDigit(NatToString(m)[0]);
  }

  /** Reading back a printed symbol: its name interns to the same id and leaves the table alone. */
  lemma ReadSymbol(t: Table, id: Symbol, s: seq<char>, rest0: seq<char>)
    requires Consistent(t) && id < t.count && ReadableName(NameOf(t, id))
    ensures ParseForm(NameOf(t, id) + " " + s, rest0, t) == Parsed(Some(Symbol(id)), " " + s, t)
  {
    var name := NameOf(t, id);
    var cs := name + " " + s;
    NameText(name, s);
    InternNameOf(t, id);
    assert Head(cs) == name[0];
  }

  /** Reading back the printed empty list. */
  lemma ReadNil(t: Table, s: seq<char>, rest0: seq<char>)
    ensures ParseForm("() " + s, rest0, t) == Parsed(Some(Nil), " " + s, t)
  {
    var cs := "() " + s;
    assert cs == "(" + (") " + s) && cs[1..] == ") " + s;
    AtmosphereAt(") " + s);
    assert (") " + s)[1..] == " " + s;
    assert ParseNumber(cs) == None;
    assert ParseQuotedForm(cs, rest0, t) == Parsed(None, rest0, t);
    assert ParseNumberItem(cs, rest0, t) == Parsed(None, rest0, t);
    assert ParseSymbolItem(cs, rest0, t) == Parsed(None, rest0, t);
    assert ParseNil(cs, rest0, t) == Parsed(Some(Nil), " " + s, t);
    assert ParseList(cs, rest0, t) == Parsed(Some(Nil), " " + s, t);
    assert ParseUnquotedForm(cs, rest0, t) == Parsed(Some(Nil), " " + s, t);
  }

  /** How the text of a printed cell followed by `s` splits at the points where `parsePair` looks. */
  lemma CellText(pa: string, pd: string, s: seq<char>)
    ensures var s2 := ") " + s;
      var s1 := ". " + (pd + s2);
      var cs := "( " + pa + ". " + pd + ") " + s;
      && Head(cs) == '(' && cs[1..] == " " + (pa + s1) && IsSuffixOf(pa + s1, cs)
      && Head(s1) == '.' && s1[1..] == " " + (pd + s2) && IsSuffixOf(s1, pa + s1)
      && Head(s2) == ')' && s2[1..] == " " + s
  {
    var s2 := ") " + s;
    var s1 := ". " + (pd + s2);
    var cs := "( " + pa + ". " + pd + ") " + s;
    assert cs == "( " + (pa + s1);
    assert cs[2..] == pa + s1;
    assert (pa + s1)[|pa|..] == s1;
  }

  /** The atmosphere `parsePair` skips in the printed form of a cell: one space each time. */
  lemma CellAtmosphere(pa: string, pd: string, s: seq<char>)
    requires StartsForm(pa) && StartsForm(pd)
    ensures var s2 := ") " + s;
      var s1 := ". " + (pd + s2);
      && ParseAtmosphere(" " + (pa + s1)) == pa + s1
      && ParseAtmosphere(" " + s1) == s1
      && ParseAtmosphere(" " + (pd + s2)) == pd + s2
      && ParseAtmosphere(" " + s2) == s2
  {
    var s2 := ") " + s;
    var s1 := ". " + (pd + s2);
    assert Head(pa + s1) == pa[0] && Head(pd + s2) == pd[0];
    AtmosphereBlank(pa + s1);
    AtmosphereBlank(s1);
    AtmosphereBlank(pd + s2);
    AtmosphereBlank(s2);
  }

  /** Reading back a printed cell, given that its car and its cdr read back. */
  lemma ReadCell(t: Table, a: Item, d: Item, pa: string, pd: string, s: seq<char>, rest0: seq<char>)
    requires StartsForm(pa) && pa[0] != ')' && StartsForm(pd)
    requires var s1 := ". " + (pd + (") " + s));
      ParseForm(pa + s1, pa + s1, t) == Parsed(Some(a), " " + s1, t)
    requires var s2 := ") " + s;
      ParseForm(pd + s2, pd + s2, t) == Parsed(Some(d), " " + s2, t)
    ensures ParseForm("( " + pa + ". " + pd + ") " + s, rest0, t) == Parsed(Some(Pair(a, d)), " " + s, t)
  {
    var s2 := ") " + s;
    var s1 := ". " + (pd + s2);
    var cs := "( " + pa + ". " + pd + ") " + s;
    CellText(pa, pd, s);
    CellAtmosphere(pa, pd, s);
    ReadDottedCdr(t, s1, pd + s2, d, " " + s2, s2);
    forall r0 {
      ReadPair(t, cs, pa + s1, a, " " + s1, s1, d, " " + s, r0);
    }
    ReadPairList(t, cs, pa + s1, Pair(a, d), " " + s, rest0);
  }

  /**
   * Reading back what `print` wrote: the datum, the rest at the final
   * blank of the printed text (the number and symbol parsers stop there),
   * and the symbol table unchanged.
   */
  lemma {:induction false} ReadPrint(t: Table, x: Item, s: seq<char>, rest0: seq<char>)
    requires Consistent(t) && Readable(t, x)
    ensures ParseForm(Print(t, x) + s, rest0, t) == Parsed(Some(x), " " + s, t)
  {
    match x
    case Number(n) =>
      ReadNumber(t, n, s, rest0);
    case Symbol(id) =>
      ReadSymbol(t, id, s, rest0);
    case Nil =>
      ReadNil(t, s, rest0);
    case Pair(a, d) =>
      var pa, pd := Print(t, a), Print(t, d);
      var s2 := ") " + s;
      var s1 := ". " + (pd + s2);
      PrintShape(t, a);
      PrintShape(t, d);
      ReadPrint(t, d, s2, pd + s2);
      ReadPrint(t, a, s1, pa + s1);
      ReadCell(t, a, d, pa, pd, s, rest0);
  }
}
