/**
 * The recursive-descent reader of the direct-style interpreter
 * (scheme/scheme.cpp:205-532). Every parser takes the input `cs`, the value
 * `*rest` holds on entry and the global symbol table, and yields whether it
 * succeeded, the value `*rest` holds afterwards (also after a failure) and
 * the table. Cells are built as values.
 */
module DirectReader {
  import opened Maybe
  import opened Symbols
  import opened Lexical
  import opened DirectCore

  /** The result of a parser: `Maybe<Item>`, the final `*rest` and the symbol table. */
  datatype Parsed = Parsed(item: Option<Item>, rest: seq<char>, table: Table)

  /** Data the reader builds: numbers, symbols and cells, no procedures. */
  predicate IsDatum(x: Item) {
    match x
    case Number(_) => true
    case Symbol(_) => true
    case Nil => true
    case Pair(a, d) => IsDatum(a) && IsDatum(d)
    case _ => false
  }

  /**
   * What every parser promises about `*rest` and the table: on success it
   * consumed at least one character; in any case `*rest` is the entry value
   * or a suffix of the input; the table only grows.
   */
  ghost predicate Reads(cs: seq<char>, rest0: seq<char>, t: Table, r: Parsed) {
    && (r.item.Some? ==> DropsTo(cs, r.rest) && |r.rest| < |cs| && IsDatum(r.item.value))
    && (r.rest == rest0 || DropsTo(cs, r.rest))
    && Grows(t, r.table)
  }

  /**
   * A parse `g` of a strict suffix `a` of `cs`, begun once the table had
   * grown from `t` to `t1`: whatever the caller builds from it, and whether
   * `*rest` stays where `g` left it or moves further on, the combination
   * reads `cs`.
   */
  lemma ReadsSequel(cs: seq<char>, rest0: seq<char>, t: Table, t1: Table, a: seq<char>, g: Parsed, x: Option<Item>, rest: seq<char>)
    requires IsSuffixOf(a, cs) && |a| < |cs| && Grows(t, t1)
    requires Reads(a, a, t1, g)
    requires rest == g.rest || IsSuffixOf(rest, g.rest)
    requires x.Some? ==> IsDatum(x.value)
    ensures Reads(cs, rest0, t, Parsed(x, rest, g.table))
  {
    DropsToSuffix(a, g.rest);
    SuffixTransitive(g.rest, a, cs);
    if rest != g.rest {
      SuffixTransitive(rest, g.rest, cs);
    }
    DropsToSuffix(cs, rest);
    GrowsTransitive(t, t1, g.table);
  }

  /** Consing onto a proper list, or onto the empty list, gives a proper list. */
  lemma ProperCons(x: Item, tail: Item)
    requires tail == Nil || (tail.Pair? && Length(tail).Some?)
    ensures Length(Pair(x, tail)).Some?
  {
  }

  /** Consuming one character of a non-empty input leaves a strict suffix. */
  lemma DropFirst(cs: seq<char>)
    requires cs != []
    ensures IsSuffixOf(cs[1..], cs) && |cs[1..]| < |cs|
  {
  }

  /** `parseNumber` as a parser of items; it leaves `*rest` alone when it fails. */
  function ParseNumberItem(cs: seq<char>, rest0: seq<char>, t: Table): (r: Parsed)
    ensures Reads(cs, rest0, t, r)
    ensures r.table == t
  {
    ParseNumberRest(cs);
    match ParseNumber(cs)
    case Some((v, rest)) =>
      DropsToSuffix(cs, rest);
      Parsed(Some(Number(v)), rest, t)
    case None => Parsed(None, rest0, t)
  }

  /** `parseSymbol`, interning the name it reads (the `Item(std::string)` constructor). */
  function ParseSymbolItem(cs: seq<char>, rest0: seq<char>, t: Table): (r: Parsed)
    ensures Reads(cs, rest0, t, r)
  {
    match SymbolToken(cs)
    case Some((name, rest)) =>
      InternGrows(t, name);
      assert IsSuffixOf(rest, cs) by {
        assert cs[..|name|] == name && rest == cs[|name|..];
      }
      DropsToSuffix(cs, rest);
      var (t1, id) := Intern(t, name);
      Parsed(Some(Symbol(id)), rest, t1)
    case None => Parsed(None, rest0, t)
  }

  /** `parseQuotedForm`: `'form` reads as `(quote form)`. */
  function ParseQuotedForm(cs: seq<char>, rest0: seq<char>, t: Table): (r: Parsed)
    ensures Reads(cs, rest0, t, r)
    decreases |cs|, 3
  {
    if Head(cs) != '\'' then
      Parsed(None, rest0, t)
    else
      var p := ParseForm(cs[1..], rest0, t);
      assert p.rest != rest0 ==> DropsTo(cs, p.rest);
      if p.item.Some? then
        InternGrows(p.table, "quote");
        var (t1, quote) := Intern(p.table, "quote");
        GrowsTransitive(t, p.table, t1);
        Parsed(Some(Pair(Symbol(quote), Pair(p.item.value, Nil))), p.rest, t1)
      else
        Parsed(None, p.rest, p.table)
  }

  /** `parseUnquotedForm`: a number, else a symbol, else a list. */
  function ParseUnquotedForm(cs: seq<char>, rest0: seq<char>, t: Table): (r: Parsed)
    ensures Reads(cs, rest0, t, r)
    decreases |cs|, 3
  {
    var n := ParseNumberItem(cs, rest0, t);
    if n.item.Some? then n
    else
      var s := ParseSymbolItem(cs, n.rest, n.table);
      if s.item.Some? then s
      else
        var l := ParseList(cs, s.rest, s.table);
        if l.item.Some? then l else Parsed(None, l.rest, l.table)
  }

  /** `parseForm`: a quoted form, else an unquoted one. */
  function ParseForm(cs: seq<char>, rest0: seq<char>, t: Table): (r: Parsed)
    ensures Reads(cs, rest0, t, r)
    decreases |cs|, 4
  {
    var q := ParseQuotedForm(cs, rest0, t);
    if q.item.Some? then q
    else
      var u := ParseUnquotedForm(cs, q.rest, q.table);
      if u.item.Some? then u else Parsed(None, u.rest, u.table)
  }

  /**
   * `parseForms`: one or more forms separated by atmosphere, as a proper
   * list; the list ends where the next form fails to parse, and `*rest` is
   * whatever that failed attempt left.
   */
  function ParseForms(cs: seq<char>, rest0: seq<char>, t: Table): (r: Parsed)
    ensures Reads(cs, rest0, t, r)
    ensures r.item.Some? ==> r.item.value.Pair? && Length(r.item.value).Some?
    decreases |cs|, 5
  {
    var f := ParseForm(cs, rest0, t);
    if f.item.None? then
      Parsed(None, f.rest, f.table)
    else
      var a := ParseAtmosphere(f.rest);
      DropsToSuffix(cs, f.rest);
      SuffixTransitive(a, f.rest, cs);
      var tail := ParseForms(a, a, f.table);
      var list := Pair(f.item.value, if tail.item.Some? then tail.item.value else Nil);
      ProperCons(f.item.value, list.cdr);
      ReadsSequel(cs, rest0, t, f.table, a, tail, Some(list), tail.rest);
      Parsed(Some(list), tail.rest, tail.table)
  }

  /** `parseNil`: '(' then atmosphere then ')'. On a failure after '(' `*rest` is past the atmosphere. */
  function ParseNil(cs: seq<char>, rest0: seq<char>, t: Table): (r: Parsed)
    ensures Reads(cs, rest0, t, r)
    ensures r.table == t
    ensures r.item.Some? ==> r.item.value == Nil
  {
    if Head(cs) != '(' then
      Parsed(None, rest0, t)
    else
      var a := ParseAtmosphere(cs[1..]);
      SuffixTransitive(a, cs[1..], cs);
      DropsToSuffix(cs, a);
      if Head(a) == ')' then
        DropFirst(a);
        SuffixTransitive(a[1..], a, cs);
        DropsToSuffix(cs, a[1..]);
        Parsed(Some(Nil), a[1..], t)
      else
        Parsed(None, a, t)
  }

  /** `parseNonEmptyList`: '(' atmosphere forms atmosphere ')'. */
  function ParseNonEmptyList(cs: seq<char>, rest0: seq<char>, t: Table): (r: Parsed)
    ensures Reads(cs, rest0, t, r)
    ensures r.item.Some? ==> r.item.value.Pair? && Length(r.item.value).Some?
    decreases |cs|, 1
  {
    if Head(cs) != '(' then
      Parsed(None, rest0, t)
    else
      var a := ParseAtmosphere(cs[1..]);
      SuffixTransitive(a, cs[1..], cs);
      var fs := ParseForms(a, a, t);
      if fs.item.None? then
        ReadsSequel(cs, rest0, t, t, a, fs, None, fs.rest);
        Parsed(None, fs.rest, fs.table)
      else
        var b := ParseAtmosphere(fs.rest);
        if Head(b) != ')' then
          ReadsSequel(cs, rest0, t, t, a, fs, None, b);
          Parsed(None, b, fs.table)
        else
          DropFirst(b);
          SuffixTransitive(b[1..], b, fs.rest);
          ReadsSequel(cs, rest0, t, t, a, fs, fs.item, b[1..]);
          Parsed(fs.item, b[1..], fs.table)
  }

  /** `parsePair`: exactly `( form . form )`; any other shape fails. */
  function ParsePair(cs: seq<char>, rest0: seq<char>, t: Table): (r: Parsed)
    ensures Reads(cs, rest0, t, r)
    ensures r.item.Some? ==> r.item.value.Pair?
    decreases |cs|, 1
  {
    if Head(cs) != '(' then
      Parsed(None, rest0, t)
    else
      var a := ParseAtmosphere(cs[1..]);
      SuffixTransitive(a, cs[1..], cs);
      var first := ParseForm(a, a, t);
      if first.item.None? then
        ReadsSequel(cs, rest0, t, t, a, first, None, first.rest);
        Parsed(None, first.rest, first.table)
      else
        var b := ParseAtmosphere(first.rest);
        DropsToSuffix(a, first.rest);
        SuffixTransitive(b, first.rest, a);
        SuffixTransitive(b, a, cs);
        var second := ParseDottedCdr(b, first.table);
        var pair := if second.item.Some? then Some(Pair(first.item.value, second.item.value)) else None;
        ReadsSequel(cs, rest0, t, first.table, b, second, pair, second.rest);
        Parsed(pair, second.rest, second.table)
  }

  /** The second half of `parsePair`: `. form )`, yielding the form. */
  function ParseDottedCdr(cs: seq<char>, t: Table): (r: Parsed)
    ensures Reads(cs, cs, t, r)
    decreases |cs|, 0
  {
    if Head(cs) != '.' then
      Parsed(None, cs, t)
    else
      var c := ParseAtmosphere(cs[1..]);
      SuffixTransitive(c, cs[1..], cs);
      var second := ParseForm(c, c, t);
      if second.item.None? then
        ReadsSequel(cs, cs, t, t, c, second, None, second.rest);
        Parsed(None, second.rest, second.table)
      else
        var d := ParseAtmosphere(second.rest);
        if Head(d) != ')' then
          ReadsSequel(cs, cs, t, t, c, second, None, d);
          Parsed(None, d, second.table)
        else
          DropFirst(d);
          SuffixTransitive(d[1..], d, second.rest);
          ReadsSequel(cs, cs, t, t, c, second, second.item, d[1..]);
          Parsed(second.item, d[1..], second.table)
  }

  /** `parseList`: the empty list, else a dotted pair, else a proper list. */
  function ParseList(cs: seq<char>, rest0: seq<char>, t: Table): (r: Parsed)
    ensures Reads(cs, rest0, t, r)
    ensures r.item.Some? ==> IsCell(r.item.value)
    decreases |cs|, 2
  {
    var n := ParseNil(cs, rest0, t);
    if n.item.Some? then n
    else
      var p := ParsePair(cs, n.rest, n.table);
      if p.item.Some? then p
      else
        var l := ParseNonEmptyList(cs, p.rest, p.table);
        if l.item.Some? then l else Parsed(None, l.rest, l.table)
  }
}
