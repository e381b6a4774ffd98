/**
 * The reader of the boost::any runtime (scheme/parser.cpp:141-324). Its
 * character-level part, lines 12-139, is the same code as the direct-style
 * reader's and is the `Lexical` module. The forms differ: a list is either
 * empty or a run of forms, and a run may end, after any of its forms, in a
 * dotted tail `. form`.
 *
 * Every parser takes the input `cs`, the value `*rest` holds on entry and
 * the global symbol table, and yields whether it succeeded, the value
 * `*rest` holds afterwards (also after a failure) and the table. What it
 * builds is given as the tree of cells it allocates.
 */
module RuntimeReader {
  import opened Maybe
  import opened Symbols
  import opened Lexical

  /** The items the reader builds: numbers, symbols, the null cell pointer and cells. */
  datatype Form =
    | Number(n: Int32)
    | Symbol(id: Symbol)
    | Null
    | Cons(car: Form, cdr: Form)

  /** The result of a parser: `Maybe<Item>`, the final `*rest` and the symbol table. */
  datatype Parsed = Parsed(form: Option<Form>, rest: seq<char>, table: Table)

  /** A cell pointer, null or not. */
  predicate IsList(f: Form) {
    f.Null? || f.Cons?
  }

  /** The number of cells along the `cdr` chain, when it ends in the null pointer. */
  function ListLength(f: Form): Option<nat> {
    match f
    case Null => Some(0)
    case Cons(_, d) => (match ListLength(d) case Some(n) => Some(n + 1) case None => None)
    case _ => None
  }

  /**
   * What every parser promises about `*rest` and the table: on success it
   * consumed at least one character; in any case `*rest` is the entry
   * value or a suffix of the input; the table only grows.
   */
  ghost predicate Reads(cs: seq<char>, rest0: seq<char>, t: Table, r: Parsed) {
    && (r.form.Some? ==> DropsTo(cs, r.rest) && |r.rest| < |cs|)
    && (r.rest == rest0 || DropsTo(cs, r.rest))
    && Grows(t, r.table)
  }

  /**
   * A parse `g` of a strict suffix `a` of `cs`, begun once the table had
   * grown from `t` to `t1`: whatever the caller builds from it, and whether
   * `*rest` stays where `g` left it or moves further on, the combination
   * reads `cs`.
   */
  lemma ReadsSequel(cs: seq<char>, rest0: seq<char>, t: Table, t1: Table, a: seq<char>, g: Parsed, x: Option<Form>, rest: seq<char>)
    requires IsSuffixOf(a, cs) && |a| < |cs| && Grows(t, t1)
    requires Reads(a, a, t1, g)
    requires rest == g.rest || IsSuffixOf(rest, g.rest)
    ensures Reads(cs, rest0, t, Parsed(x, rest, g.table))
  {
    DropsToSuffix(a, g.rest);
    SuffixTransitive(g.rest, a, cs);
    if rest != g.rest {
      SuffixTransitive(rest, g.rest, cs);
    }
    DropsToSuffix(cs, rest);
    GrowsTransitive(t, t1, g.table);
  }

  /** A parse `g` of `a` that begins where an earlier parse `p` of `a` left `*rest`, as one parse. */
  lemma ReadsAfter(a: seq<char>, t: Table, p: Parsed, g: Parsed)
    requires Reads(a, a, t, p) && Reads(a, p.rest, p.table, g)
    ensures Reads(a, a, t, g)
  {
    GrowsTransitive(t, p.table, g.table);
  }

  /** Consuming one character of a non-empty input leaves a strict suffix. */
  lemma DropFirst(cs: seq<char>)
    requires cs != []
    ensures IsSuffixOf(cs[1..], cs) && |cs[1..]| < |cs|
  {
  }

  /** `parseNumber`; it leaves `*rest` alone when it fails. */
  function ParseNumberForm(cs: seq<char>, rest0: seq<char>, t: Table): (r: Parsed)
    ensures Reads(cs, rest0, t, r)
    ensures r.table == t
    ensures r.form.Some? ==> r.form.value.Number?
  {
    ParseNumberRest(cs);
    match ParseNumber(cs)
    case Some((v, rest)) =>
      DropsToSuffix(cs, rest);
      Parsed(Some(Number(v)), rest, t)
    case None => Parsed(None, rest0, t)
  }

  /** `parseSymbol`, interning the name it reads. */
  function ParseSymbolForm(cs: seq<char>, rest0: seq<char>, t: Table): (r: Parsed)
    ensures Reads(cs, rest0, t, r)
    ensures r.form.Some? ==> r.form.value.Symbol?
  {
    match SymbolToken(cs)
    case Some((name, rest)) =>
      InternGrows(t, name);
      assert IsSuffixOf(rest, cs) by {
        assert cs[..|name|] == name && rest == cs[|name|..];
      }
      DropsToSuffix(cs, rest);
      var (t1, id) := Intern(t, name);
      Parsed(Some(Symbol(id)), rest, t1)
    case None => Parsed(None, rest0, t)
  }

  /** `parseQuotedForm`: `'form` reads as the two cells of `(quote form)`. */
  function ParseQuotedForm(cs: seq<char>, rest0: seq<char>, t: Table): (r: Parsed)
    ensures Reads(cs, rest0, t, r)
    decreases |cs|, 3
  {
    if Head(cs) != '\'' then
      Parsed(None, rest0, t)
    else
      var p := ParseForm(cs[1..], rest0, t);
      assert p.rest != rest0 ==> DropsTo(cs, p.rest);
      if p.form.Some? then
        InternGrows(p.table, "quote");
        var (t1, quote) := Intern(p.table, "quote");
        GrowsTransitive(t, p.table, t1);
        Parsed(Some(Cons(Symbol(quote), Cons(p.form.value, Null))), p.rest, t1)
      else
        Parsed(None, p.rest, p.table)
  }

  /** `parseUnquotedForm`: a number, else a symbol, else a list. */
  function ParseUnquotedForm(cs: seq<char>, rest0: seq<char>, t: Table): (r: Parsed)
    ensures Reads(cs, rest0, t, r)
    decreases |cs|, 3
  {
    var n := ParseNumberForm(cs, rest0, t);
    if n.form.Some? then n
    else
      var s := ParseSymbolForm(cs, n.rest, n.table);
      if s.form.Some? then s
      else
        var l := ParseList(cs, s.rest, s.table);
        if l.form.Some? then l else Parsed(None, l.rest, l.table)
  }

  /** `Parser::parseForm`: a quoted form, else an unquoted one. */
  function ParseForm(cs: seq<char>, rest0: seq<char>, t: Table): (r: Parsed)
    ensures Reads(cs, rest0, t, r)
    decreases |cs|, 4
  {
    var q := ParseQuotedForm(cs, rest0, t);
    if q.form.Some? then q
    else
      var u := ParseUnquotedForm(cs, q.rest, q.table);
      if u.form.Some? then u else Parsed(None, u.rest, u.table)
  }

  /** `parsePair`: a dotted tail, '.' then atmosphere then a form, yielding the form. */
  function ParsePair(cs: seq<char>, rest0: seq<char>, t: Table): (r: Parsed)
    ensures Reads(cs, rest0, t, r)
    decreases |cs|, 0
  {
    if Head(cs) != '.' then
      Parsed(None, rest0, t)
    else
      var c := ParseAtmosphere(cs[1..]);
      SuffixTransitive(c, cs[1..], cs);
      DropsToSuffix(cs, c);
      var f := ParseForm(c, c, t);
      ReadsSequel(cs, rest0, t, t, c, f, f.form, f.rest);
      Parsed(f.form, f.rest, f.table)
  }

  /**
   * `parseForms`: a form, atmosphere, then either a dotted tail, which
   * becomes the `cdr`, or the rest of the run read from the same place;
   * when neither is there the `cdr` is the null pointer.
   */
  function ParseForms(cs: seq<char>, rest0: seq<char>, t: Table): (r: Parsed)
    ensures Reads(cs, rest0, t, r)
    ensures r.form.Some? ==> r.form.value.Cons?
    decreases |cs|, 5
  {
    var f := ParseForm(cs, rest0, t);
    if f.form.None? then
      Parsed(None, f.rest, f.table)
    else
      var a := ParseAtmosphere(f.rest);
      DropsToSuffix(cs, f.rest);
      SuffixTransitive(a, f.rest, cs);
      var second := ParsePair(a, a, f.table);
      if second.form.Some? then
        var cell := Some(Cons(f.form.value, second.form.value));
        ReadsSequel(cs, rest0, t, f.table, a, second, cell, second.rest);
        Parsed(cell, second.rest, second.table)
      else
        var tail := ParseForms(a, second.rest, second.table);
        ReadsAfter(a, f.table, second, tail);
        var cell := Some(Cons(f.form.value, if tail.form.Some? then tail.form.value else Null));
        ReadsSequel(cs, rest0, t, f.table, a, tail, cell, tail.rest);
        Parsed(cell, tail.rest, tail.table)
  }

  /** `parseNil`: '(' then atmosphere then ')'. On a failure after '(' `*rest` is past the atmosphere. */
  function ParseNil(cs: seq<char>, rest0: seq<char>, t: Table): (r: Parsed)
    ensures Reads(cs, rest0, t, r)
    ensures r.table == t
    ensures r.form.Some? ==> r.form.value == Null
  {
    if Head(cs) != '(' then
      Parsed(None, rest0, t)
    else
      var a := ParseAtmosphere(cs[1..]);
      SuffixTransitive(a, cs[1..], cs);
      DropsToSuffix(cs, a);
      if Head(a) == ')' then
        DropFirst(a);
        SuffixTransitive(a[1..], a, cs);
        DropsToSuffix(cs, a[1..]);
        Parsed(Some(Null), a[1..], t)
      else
        Parsed(None, a, t)
  }

  /** `parseNonEmptyList`: '(' atmosphere forms atmosphere ')'. */
  function ParseNonEmptyList(cs: seq<char>, rest0: seq<char>, t: Table): (r: Parsed)
    ensures Reads(cs, rest0, t, r)
    ensures r.form.Some? ==> r.form.value.Cons?
    decreases |cs|, 1
  {
    if Head(cs) != '(' then
      Parsed(None, rest0, t)
    else
      var a := ParseAtmosphere(cs[1..]);
      SuffixTransitive(a, cs[1..], cs);
      var fs := ParseForms(a, a, t);
      if fs.form.None? then
        ReadsSequel(cs, rest0, t, t, a, fs, None, fs.rest);
        Parsed(None, fs.rest, fs.table)
      else
        var b := ParseAtmosphere(fs.rest);
        if Head(b) != ')' then
          ReadsSequel(cs, rest0, t, t, a, fs, None, b);
          Parsed(None, b, fs.table)
        else
          DropFirst(b);
          SuffixTransitive(b[1..], b, fs.rest);
          ReadsSequel(cs, rest0, t, t, a, fs, fs.form, b[1..]);
          Parsed(fs.form, b[1..], fs.table)
  }

  /** `parseList`: the empty list, else a non-empty one. */
  function ParseList(cs: seq<char>, rest0: seq<char>, t: Table): (r: Parsed)
    ensures Reads(cs, rest0, t, r)
    ensures r.form.Some? ==> IsList(r.form.value)
    decreases |cs|, 2
  {
    var n := ParseNil(cs, rest0, t);
    if n.form.Some? then n
    else
      var l := ParseNonEmptyList(cs, n.rest, n.table);
      if l.form.Some? then l else Parsed(None, l.rest, l.table)
  }
}
