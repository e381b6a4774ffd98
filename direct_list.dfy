/**
 * List notation in the direct-style reader (scheme/scheme.cpp:444-474):
 * `( f1 f2 ... fn )`, where no '.' follows the first form, fails as a dotted
 * pair and reads as the proper list of the forms, nested to the right and
 * ended by the empty list. `print` writes only the dotted notation, so this
 * is the half of the reader its round trip does not reach.
 */
module DirectListNotation {
  import opened Maybe
  import opened Symbols
  import opened Lexical
  import opened DirectCore
  import opened DirectReader
  import opened DirectRoundTrip

  /** The printed forms of `xs`, one after another. */
  function Texts(t: Table, xs: seq<Item>): string {
    if xs == [] then "" else Print(t, xs[0]) + Texts(t, xs[1..])
  }

  /** The data whose printed forms read back. */
  ghost predicate AllReadable(t: Table, xs: seq<Item>) {
    forall i :: 0 <= i < |xs| ==> Readable(t, xs[i])
  }

  /** Dropping the first datum keeps the rest readable. */
  lemma AllReadableTail(t: Table, xs: seq<Item>)
    requires AllReadable(t, xs) && xs != []
    ensures AllReadable(t, xs[1..])
  {
    forall i | 0 <= i < |xs| - 1 ensures Readable(t, xs[1..][i]) {
      assert xs[1..][i] == xs[i + 1];
    }
  }

  /** The forms of `xs` followed by `s`, opened up after the first form. */
  lemma TextsFirst(t: Table, xs: seq<Item>, s: seq<char>)
    requires xs != []
    ensures Texts(t, xs) + s == Print(t, xs[0]) + (Texts(t, xs[1..]) + s)
  {
    Assoc(Print(t, xs[0]), Texts(t, xs[1..]), s);
  }

  /** The forms of `xs` followed by `s` start neither atmosphere nor a dotted tail, nor a ')' unless `xs` is empty. */
  lemma TextsStart(t: Table, xs: seq<Item>, s: seq<char>)
    requires AllReadable(t, xs) && xs != []
    ensures var g := Texts(t, xs) + s;
      !IsWhitespace(Head(g)) && Head(g) != ';' && Head(g) != ')' && Head(g) != '.' && Head(g) != '\''
  {
    TextsFirst(t, xs, s);
    PrintShape(t, xs[0]);
    assert Head(Texts(t, xs) + s) == Print(t, xs[0])[0];
  }

  /** At ')' the reader reads no form and no run of forms, and leaves `*rest` and the table alone. */
  lemma NoFormAtClose(t: Table, cs: seq<char>, rest0: seq<char>)
    requires Head(cs) == ')'
    ensures ParseForm(cs, rest0, t) == Parsed(None, rest0, t)
    ensures ParseForms(cs, rest0, t) == Parsed(None, rest0, t)
  {
    assert NumeralBody(cs) == cs;
    assert ParseNumber(cs) == None;
    assert SymbolToken(cs) == None;
    assert ParseNumberItem(cs, rest0, t) == Parsed(None, rest0, t);
    assert ParseSymbolItem(cs, rest0, t) == Parsed(None, rest0, t);
    assert ParseList(cs, rest0, t) == Parsed(None, rest0, t);
  }

  /** `parseForms` after a form and its atmosphere: the form consed onto the rest of the run. */
  lemma FormsStep(t: Table, cs: seq<char>, x: Item, r: seq<char>, a: seq<char>, tail: Parsed)
    requires ParseForm(cs, cs, t) == Parsed(Some(x), r, t)
    requires ParseAtmosphere(r) == a && ParseForms(a, a, t) == tail
    ensures ParseForms(cs, cs, t) == Parsed(Some(Pair(x, if tail.item.Some? then tail.item.value else Nil)), tail.rest, tail.table)
  {
  }

  /** `parsePair` fails, with the table unchanged, when no '.' follows the first form. */
  lemma PairFails(t: Table, cs: seq<char>, a: seq<char>, x: Item, r: seq<char>, g: seq<char>, rest0: seq<char>)
    requires Head(cs) == '(' && ParseAtmosphere(cs[1..]) == a
    requires ParseForm(a, a, t) == Parsed(Some(x), r, t)
    requires ParseAtmosphere(r) == g && Head(g) != '.'
    ensures ParsePair(cs, rest0, t) == Parsed(None, g, t)
  {
  }

  /** `parseNonEmptyList` succeeds when the run of forms is followed by atmosphere and ')'. */
  lemma NonEmptyListReads(t: Table, cs: seq<char>, a: seq<char>, x: Item, b: seq<char>, rest0: seq<char>)
    requires Head(cs) == '(' && ParseAtmosphere(cs[1..]) == a
    requires ParseForms(a, a, t) == Parsed(Some(x), b, t)
    requires ParseAtmosphere(b) == b && Head(b) == ')'
    ensures ParseNonEmptyList(cs, rest0, t) == Parsed(Some(x), b[1..], t)
  {
  }

  /** At '(' before anything but ')', a failed dotted pair hands over to `parseNonEmptyList`. */
  lemma ListAfterPair(t: Table, cs: seq<char>, a: seq<char>, g: seq<char>, x: Item, rest: seq<char>, rest0: seq<char>)
    requires Head(cs) == '(' && ParseAtmosphere(cs[1..]) == a && Head(a) != ')'
    requires ParsePair(cs, a, t) == Parsed(None, g, t)
    requires ParseNonEmptyList(cs, g, t) == Parsed(Some(x), rest, t)
    ensures ParseForm(cs, rest0, t) == Parsed(Some(x), rest, t)
  {
    assert NumeralBody(cs) == cs;
    assert ParseNumber(cs) == None;
    assert SymbolToken(cs) == None;
    assert ParseNil(cs, rest0, t) == Parsed(None, a, t);
    assert ParseList(cs, rest0, t) == Parsed(Some(x), rest, t);
  }

  /**
   * `parseForms` reads the printed forms of `xs`, up to a ')', as the
   * proper list of `xs`, leaves `*rest` at the ')' and the table alone.
   */
  lemma {:induction false} ReadForms(t: Table, xs: seq<Item>, s: seq<char>)
    requires Consistent(t) && AllReadable(t, xs) && xs != [] && Head(s) == ')'
    ensures var text := Texts(t, xs) + s;
      ParseForms(text, text, t) == Parsed(Some(ListOf(xs)), s, t)
    decreases |xs|
  {
    var text := Texts(t, xs) + s;
    var ys := xs[1..];
    var g := Texts(t, ys) + s;
    assert ListOf(xs) == Pair(xs[0], ListOf(ys));
    TextsFirst(t, xs, s);
    ReadPrint(t, xs[0], g, text);
    if ys == [] {
      assert g == s;
      AtmosphereBlank(s);
      NoFormAtClose(t, s, s);
      FormsStep(t, text, xs[0], " " + s, s, Parsed(None, s, t));
    } else {
      AllReadableTail(t, xs);
      TextsStart(t, ys, s);
      AtmosphereBlank(g);
      ReadForms(t, ys, s);
      FormsStep(t, text, xs[0], " " + g, g, Parsed(Some(ListOf(ys)), s, t));
    }
  }

  /** The text of a proper list in list notation, opened up where the reader looks. */
  lemma ListText(t: Table, xs: seq<Item>, s: seq<char>)
    requires AllReadable(t, xs) && xs != []
    ensures var cs := "( " + Texts(t, xs) + ") " + s;
      var a := Texts(t, xs) + (") " + s);
      && Head(cs) == '(' && ParseAtmosphere(cs[1..]) == a && Head(a) != ')'
      && ParseAtmosphere(") " + s) == ") " + s
      && (") " + s)[1..] == " " + s
  {
    var a := Texts(t, xs) + (") " + s);
    Regroup(Texts(t, xs), s);
    PastFirst(" " + a);
    PastFirst(s);
    TextsStart(t, xs, ") " + s);
    AtmosphereBlank(a);
    AtmosphereAt(") " + s);
  }

  /**
   * `( f1 ... fn )`, the printed forms of `xs` between parentheses, reads
   * as the proper list of `xs`: `n` cells nested to the right, element `i`
   * of which is `xs[i]`, with `*rest` at the final blank and the table
   * unchanged. The dotted-pair attempt fails first and leaves the table as
   * it was, so the proper-list parser starts from the same table.
   */
  lemma ReadList(t: Table, xs: seq<Item>, s: seq<char>, rest0: seq<char>)
    requires Consistent(t) && AllReadable(t, xs) && xs != []
    ensures var r := ParseForm("( " + Texts(t, xs) + ") " + s, rest0, t);
      && r == Parsed(Some(ListOf(xs)), " " + s, t)
      && Length(r.item.value) == Some(|xs|)
      && forall i :: 0 <= i < |xs| ==> Nth(r.item.value, i) == Some(xs[i])
  {
    var cs := "( " + Texts(t, xs) + ") " + s;
    var s2 := ") " + s;
    var a := Texts(t, xs) + s2;
    ListText(t, xs, s);
    ReadForms(t, xs, s2);
    // the dotted-pair attempt: the first form, then no '.'
    var ys := xs[1..];
    var g := Texts(t, ys) + s2;
    TextsFirst(t, xs, s2);
    ReadPrint(t, xs[0], g, a);
    if ys == [] {
      assert g == s2;
      AtmosphereBlank(s2);
    } else {
      AllReadableTail(t, xs);
      TextsStart(t, ys, s2);
      AtmosphereBlank(g);
    }
    PairFails(t, cs, a, xs[0], " " + g, g, a);
    NonEmptyListReads(t, cs, a, ListOf(xs), s2, g);
    ListAfterPair(t, cs, a, g, ListOf(xs), " " + s, rest0);
    LengthOfList(xs);
    forall i | 0 <= i < |xs| ensures Nth(ListOf(xs), i) == Some(xs[i]) {
      NthOfList(xs, i);
    }
  }
}
