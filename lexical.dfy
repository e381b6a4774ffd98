/**
 * The character-level part of both readers: character classes, numerals,
 * symbol names, whitespace and `;` comments. The input is a C string,
 * modelled as the sequence of characters from the read position on; reading
 * past its end yields NUL, as dereferencing the terminator does. A `*rest`
 * result is the suffix of the input where the reader stopped.
 */
module Lexical {
  import opened Maybe

  const Int32Max: int := 0x7fff_ffff
  const Int32Min: int := -0x8000_0000

  /** `int32_t`, the type of a `Number`. */
  type Int32 = x: int | Int32Min <= x <= Int32Max

  /** `*cs`: the current character, NUL at the end of the input. */
  function Head(cs: seq<char>): char {
    if cs == [] then '\0' else cs[0]
  }

  /** `r` is what is left of `cs` after consuming some prefix of it. */
  predicate IsSuffixOf(r: seq<char>, cs: seq<char>) {
    |r| <= |cs| && r == cs[|cs| - |r|..]
  }

  lemma SuffixTransitive(a: seq<char>, b: seq<char>, c: seq<char>)
    requires IsSuffixOf(a, b) && IsSuffixOf(b, c)
    ensures IsSuffixOf(a, c)
  {
    assert c[|c| - |b|..][|b| - |a|..] == c[|c| - |a|..];
  }

  /**
   * `cs` reaches `r` by dropping characters from its front: the relation
   * `IsSuffixOf` states (see `DropsToSuffix`), written one character at a
   * time so that a proof unfolds it only as far as it needs.
   */
  predicate DropsTo(cs: seq<char>, r: seq<char>)
    decreases |cs|
  {
    |r| <= |cs| && (r == cs || (cs != [] && DropsTo(cs[1..], r)))
  }

  lemma {:induction false} DropsToSuffix(cs: seq<char>, r: seq<char>)
    ensures DropsTo(cs, r) <==> IsSuffixOf(r, cs)
    decreases |cs|
  {
    if r != cs && |r| < |cs| {
      DropsToSuffix(cs[1..], r);
      assert cs[1..][|cs| - 1 - |r|..] == cs[|cs| - |r|..];
    }
  }

  predicate IsSign(c: char) {
    c == '-'
  }

  predicate IsDigit(c: char) {
    '0' <= c <= '9'
  }

  predicate IsSymbolInitial(c: char) {
    ('a' <= c <= 'z') || ('A' <= c <= 'Z') || c == '+' || c == '=' || c == '*' || c == '/' || c == '-' || c == '%'
  }

  predicate IsSymbolBody(c: char) {
    IsSymbolInitial(c) || IsDigit(c) || c == '-' || c == '?' || c == '!'
  }

  predicate IsNewline(c: char) {
    c == '\n' || c == '\U{000C}' || c == '\r'
  }

  predicate IsWhitespace(c: char) {
    c == ' ' || c == '\t' || IsNewline(c)
  }

  /** A character that a `;` comment runs over: anything but a newline or NUL. */
  predicate InComment(c: char) {
    !IsNewline(c) && c != '\0'
  }

  /** The length of the longest prefix of `cs` all of whose characters satisfy `p`. */
  function Span(cs: seq<char>, p: char -> bool): (n: nat)
    ensures n <= |cs|
    ensures forall i :: 0 <= i < n ==> p(cs[i])
    ensures n == |cs| || !p(cs[n])
  {
    if cs != [] && p(cs[0]) then 1 + Span(cs[1..], p) else 0
  }

  /** A prefix length satisfying the two properties of `Span` is `Span`. */
  lemma SpanUnique(cs: seq<char>, p: char -> bool, m: nat)
    requires m <= |cs|
    requires forall i :: 0 <= i < m ==> p(cs[i])
    requires m == |cs| || !p(cs[m])
    ensures Span(cs, p) == m
  {
  }

  // ---------------------------------------------------------------- numerals

  function DigitValue(c: char): nat
    requires IsDigit(c)
  {
    c as int - '0' as int
  }

  function Pow10(n: nat): nat {
    if n == 0 then 1 else 10 * Pow10(n - 1)
  }

  predicate AllDigits(ds: seq<char>) {
    forall i :: 0 <= i < |ds| ==> IsDigit(ds[i])
  }

  /** The value of a decimal numeral, last digit least significant. */
  function Decimal(ds: seq<char>): nat
    requires AllDigits(ds)
  {
    if ds == [] then 0 else Decimal(ds[..|ds| - 1]) * 10 + DigitValue(ds[|ds| - 1])
  }

  /** The leading digit run of `cs`. */
  function DigitRun(cs: seq<char>): (ds: seq<char>)
    ensures AllDigits(ds) && ds <= cs
    ensures |ds| == |cs| || !IsDigit(cs[|ds|])
  {
    cs[..Span(cs, IsDigit)]
  }

  /** The digit run of a string starting with a digit is that digit and the run after it. */
  lemma DigitRunCons(cs: seq<char>)
    requires IsDigit(Head(cs))
    ensures DigitRun(cs) == [cs[0]] + DigitRun(cs[1..])
  {
    SpanUnique(cs[1..], IsDigit, Span(cs, IsDigit) - 1);
  }

  /** A digit in front of a numeral is worth its value times the numeral's scale. */
  lemma {:induction false} DecimalCons(d: char, ds: seq<char>)
    requires IsDigit(d) && AllDigits(ds)
    ensures AllDigits([d] + ds)
    ensures Decimal([d] + ds) == DigitValue(d) * Pow10(|ds|) + Decimal(ds)
  {
    var s := [d] + ds;
    if ds != [] {
      var init := ds[..|ds| - 1];
      var last := DigitValue(ds[|ds| - 1]);
      assert s[..|s| - 1] == [d] + init;
      DecimalCons(d, init);
      ScaleStep(DigitValue(d), Pow10(|init|), Decimal(init), last);
    }
  }

  /** `(a * p + b) * 10 + c == a * (10 * p) + (b * 10 + c)`, kept out of the inductive proofs. */
  lemma ScaleStep(a: nat, p: nat, b: nat, c: nat)
    ensures (a * p + b) * 10 + c == a * (10 * p) + (b * 10 + c)
  {
  }

  /** `(10 * a + d) * p + b == a * (10 * p) + (d * p + b)`. */
  lemma ShiftStep(a: int, d: int, p: int, b: int)
    ensures (a * 10 + d) * p + b == a * (10 * p) + (d * p + b)
  {
  }

  const Modulus32: int := 0x1_0000_0000

  /**
   * The `int32_t` that a 32-bit two's-complement machine keeps of `x`: the
   * one value of the type congruent to `x` modulo 2^32. Signed overflow is
   * undefined behaviour in C++; the readers model it as this wrap-around.
   */
  function Wrap32(x: int): (r: Int32)
    ensures (r - x) % Modulus32 == 0
    ensures Int32Min <= x <= Int32Max ==> r == x
  {
    (x - Int32Min) % Modulus32 + Int32Min
  }

  /** An `int32_t` congruent to `x` modulo 2^32 is `Wrap32(x)`. */
  lemma WrapUnique(x: int, r: int)
    requires Int32Min <= r <= Int32Max && (r - x) % Modulus32 == 0
    ensures Wrap32(x) == r
  {
    var w := Wrap32(x);
    assert (r - w) % Modulus32 == 0 by {
      assert r - w == (r - x) - (w - x);
    }
  }

  /** Wrapping an intermediate result and then scaling and adding keeps the wrap of the exact value. */
  lemma WrapScale(y: int, p: int, b: int)
    ensures Wrap32(Wrap32(y) * p + b) == Wrap32(y * p + b)
  {
    var w := Wrap32(y);
    var k := (w - y) / Modulus32;
    assert w == y + Modulus32 * k;
    assert w * p + b == (y * p + b) + Modulus32 * (k * p);
    var r := Wrap32(w * p + b);
    assert (r - (y * p + b)) % Modulus32 == 0 by {
      assert r - (y * p + b) == (r - (w * p + b)) + Modulus32 * (k * p);
    }
    WrapUnique(y * p + b, r);
  }

  /**
   * `parseDigits`: accumulate `previous * 10 + digit` in `int32_t` while the
   * current character is a digit; the value and the input from the first
   * non-digit on.
   */
  function ParseDigits(cs: seq<char>, previous: Int32): (r: (Int32, seq<char>))
    decreases |cs|
  {
    if !IsDigit(Head(cs)) then
      (previous, cs)
    else
      var digit := DigitValue(cs[0]);
      ParseDigits(cs[1..], Wrap32(previous * 10 + digit))
  }

  /**
   * `parseDigits` stops at the first non-digit with the positional value of
   * the digits it read, reduced to `int32_t` once at the end: wrapping at
   * every step loses nothing more.
   */
  lemma {:induction false} ParseDigitsValue(cs: seq<char>, previous: Int32)
    ensures ParseDigits(cs, previous)
         == (Wrap32(previous * Pow10(|DigitRun(cs)|) + Decimal(DigitRun(cs))), cs[|DigitRun(cs)|..])
    decreases |cs|
  {
    if IsDigit(Head(cs)) {
      var n := |DigitRun(cs)|;
      var digit := DigitValue(cs[0]);
      var p := Pow10(n - 1);
      var b := Decimal(DigitRun(cs[1..]));
      DigitRunCons(cs);
      DecimalCons(cs[0], DigitRun(cs[1..]));
      ParseDigitsValue(cs[1..], Wrap32(previous * 10 + digit));
      assert cs[1..][n - 1..] == cs[n..];
      WrapScale(previous * 10 + digit, p, b);
      ShiftStep(previous, digit, p, b);
    } else {
      assert DigitRun(cs) == [];
    }
  }

  /** The characters `parseNumber` reads digits from: the input after an optional sign. */
  function NumeralBody(cs: seq<char>): seq<char> {
    if IsSign(Head(cs)) then cs[1..] else cs
  }

  /** The numeral at the start of `cs`, if any, is at most INT_MAX: reading it does not overflow. */
  predicate NumeralFits(cs: seq<char>) {
    Decimal(DigitRun(NumeralBody(cs))) <= Int32Max
  }

  /** `parseNumber`: an optional '-' then at least one digit; the value and what follows the digits. */
  function ParseNumber(cs: seq<char>): Option<(Int32, seq<char>)> {
    var sign := if IsSign(Head(cs)) then -1 else 1;
    var body := NumeralBody(cs);
    if !IsDigit(Head(body)) then
      None
    else
      var (value, rest) := ParseDigits(body, 0);
      Some((Wrap32(value * sign), rest))
  }

  /**
   * `parseNumber` succeeds exactly when a digit follows the optional sign;
   * the value is the signed decimal value of the digit run reduced to
   * `int32_t`, exactly that value when the digits do not overflow, and the
   * rest starts at the first non-digit.
   */
  lemma ParseNumberValue(cs: seq<char>)
    ensures var body := NumeralBody(cs);
            ParseNumber(cs).Some? <==> IsDigit(Head(body))
    ensures var body := NumeralBody(cs);
            var exact := (if IsSign(Head(cs)) then -1 else 1) * Decimal(DigitRun(body));
            ParseNumber(cs).Some? ==>
              && ParseNumber(cs).value.0 == Wrap32(exact)
              && (NumeralFits(cs) ==> ParseNumber(cs).value.0 == exact)
              && ParseNumber(cs).value.1 == body[|DigitRun(body)|..]
              && !IsDigit(Head(ParseNumber(cs).value.1))
  {
    var body := NumeralBody(cs);
    var sign := if IsSign(Head(cs)) then -1 else 1;
    ParseDigitsValue(body, 0);
    WrapScale(Decimal(DigitRun(body)), sign, 0);
  }

  /** A numeral that parses consumed at least its first digit, and the rest is a suffix of the input. */
  lemma ParseNumberRest(cs: seq<char>)
    ensures ParseNumber(cs).Some? ==> IsSuffixOf(ParseNumber(cs).value.1, cs) && |ParseNumber(cs).value.1| < |cs|
  {
    ParseNumberValue(cs);
    if ParseNumber(cs).Some? {
      var body := NumeralBody(cs);
      var n := |DigitRun(body)|;
      assert body != [] && IsDigit(body[0]);
      assert n > 0;
      assert IsSuffixOf(body, cs);
      assert IsSuffixOf(body[n..], body);
      SuffixTransitive(body[n..], body, cs);
    }
  }

  /** A digit run that stops inside `p` is not extended by what follows `p`. */
  lemma DigitRunConcat(p: seq<char>, s: seq<char>)
    requires |DigitRun(p)| < |p|
    ensures DigitRun(p + s) == DigitRun(p)
  {
    var n := |DigitRun(p)|;
    assert (p + s)[n] == p[n];
    SpanUnique(p + s, IsDigit, n);
    assert (p + s)[..n] == p[..n];
  }

  /** The digit run of a numeral followed by a space is the numeral. */
  lemma DigitRunAll(ds: seq<char>)
    requires AllDigits(ds)
    ensures DigitRun(ds + " ") == ds
    ensures NumeralBody(ds + " ") == ds + " "
  {
    SpanUnique(ds + " ", IsDigit, |ds|);
    assert (ds + " ")[..|ds|] == ds;
  }

  // ------------------------------------------------------------------ symbols

  /** What `parseSymbol` reads: a symbol-initial character, then the longest run of symbol-body characters. */
  function SymbolToken(cs: seq<char>): Option<(string, seq<char>)> {
    if IsSymbolInitial(Head(cs)) then
      var n := Span(cs, IsSymbolBody);
      Some((cs[..n], cs[n..]))
    else
      None
  }

  /** `parseSymbol`: collect symbol-body characters while they last. */
  /** A run of symbol-body characters followed by one that is not is the span `SymbolToken` takes. */
  lemma SymbolRun(cs: seq<char>, symbol: string, p: seq<char>)
    requires symbol + p == cs
    requires forall i :: 0 <= i < |symbol| ==> IsSymbolBody(symbol[i])
    requires !IsSymbolBody(Head(p))
    ensures Span(cs, IsSymbolBody) == |symbol| && cs[..|symbol|] == symbol && cs[|symbol|..] == p
  {
    assert forall i :: 0 <= i < |symbol| ==> cs[i] == symbol[i];
    assert p != [] ==> cs[|symbol|] == p[0];
    SpanUnique(cs, IsSymbolBody, |symbol|);
  }

  method ParseSymbol(cs: seq<char>) returns (r: Option<(string, seq<char>)>)
    ensures r == SymbolToken(cs)
    ensures r.Some? ==> r.value.0 + r.value.1 == cs && r.value.0 != []
    ensures r.Some? ==> forall i :: 0 <= i < |r.value.0| ==> IsSymbolBody(r.value.0[i])
    ensures r.Some? ==> !IsSymbolBody(Head(r.value.1))
  {
    if IsSymbolInitial(Head(cs)) {
      var symbol: string := [];
      var p := cs;
      while IsSymbolBody(Head(p))
        invariant symbol + p == cs
        invariant forall i :: 0 <= i < |symbol| ==> IsSymbolBody(symbol[i])
        decreases |p|
      {
        symbol := symbol + [p[0]];
        p := p[1..];
      }
      SymbolRun(cs, symbol, p);
      r := Some((symbol, p));
    } else {
      r := None;
    }
  }

  // ------------------------------------------------------- whitespace, comments

  /** What `parseWhitespace` leaves: the input after its leading whitespace. */
  function SkipWhitespace(cs: seq<char>): seq<char> {
    cs[Span(cs, IsWhitespace)..]
  }

  /** `parseWhitespace`: advance while the current character is whitespace; always succeeds. */
  method ParseWhitespace(cs: seq<char>) returns (rest: seq<char>)
    ensures rest == SkipWhitespace(cs)
    ensures IsSuffixOf(rest, cs) && !IsWhitespace(Head(rest))
    ensures forall i :: 0 <= i < |cs| - |rest| ==> IsWhitespace(cs[i])
  {
    var p := cs;
    ghost var n := 0;
    while IsWhitespace(Head(p))
      invariant n <= |cs| && p == cs[n..]
      invariant forall i :: 0 <= i < n ==> IsWhitespace(cs[i])
      decreases |p|
    {
      n := n + 1;
      p := p[1..];
    }
    SpanUnique(cs, IsWhitespace, n);
    rest := p;
  }

  /** What `parseSingleLineComment` leaves: after ';', the input from the first newline or NUL on. */
  function SkipComment(cs: seq<char>): Option<seq<char>> {
    if Head(cs) != ';' then None else Some(cs[1 + Span(cs[1..], InComment)..])
  }

  /** `parseSingleLineComment`: fails unless at ';', then advances to the first newline or NUL. */
  method ParseSingleLineComment(cs: seq<char>) returns (r: Option<seq<char>>)
    ensures r == SkipComment(cs)
    ensures r.Some? <==> Head(cs) == ';'
    ensures r.Some? ==> IsSuffixOf(r.value, cs) && |r.value| < |cs| && !InComment(Head(r.value))
  {
    if Head(cs) != ';' {
      return None;
    }
    var p := cs[1..];
    ghost var body := cs[1..];
    ghost var n := 0;
    while InComment(Head(p))
      invariant n <= |body| && p == body[n..]
      invariant forall i :: 0 <= i < n ==> InComment(body[i])
      decreases |p|
    {
      n := n + 1;
      p := p[1..];
    }
    SpanUnique(body, InComment, n);
    assert p == cs[1 + n..];
    r := Some(p);
  }

  /** `parseAtmosphere`: skip comments and whitespace, in any order, as long as they last. */
  function ParseAtmosphere(cs: seq<char>): (rest: seq<char>)
    ensures IsSuffixOf(rest, cs)
    ensures Head(rest) != ';' && !IsWhitespace(Head(rest))
    decreases |cs|
  {
    if Head(cs) == ';' then
      ParseAtmosphere(SkipComment(cs).value)
    else if IsWhitespace(Head(cs)) then
      assert Span(cs, IsWhitespace) > 0;
      ParseAtmosphere(SkipWhitespace(cs))
    else
      cs
  }

  /**
   * An independent account of atmosphere: a scanner that is outside (false)
   * or inside (true) a `;` comment. Outside it steps over whitespace and
   * enters a comment at ';'; inside, it stays in the comment over any
   * character but a newline or NUL, and a newline ends the comment.
   */
  function AtmosphereStep(inComment: bool, c: char): Option<bool> {
    if inComment then
      if InComment(c) then Some(true) else if IsNewline(c) then Some(false) else None
    else
      if IsWhitespace(c) then Some(false) else if c == ';' then Some(true) else None
  }

  /** The scanner's state after all of `s`, or None if it gets stuck on the way. */
  function AtmosphereScan(s: seq<char>, inComment: bool): Option<bool>
    decreases |s|
  {
    if s == [] then
      Some(inComment)
    else
      match AtmosphereStep(inComment, s[0])
      case None => None
      case Some(next) => AtmosphereScan(s[1..], next)
  }

  lemma {:induction false} ScanAppend(a: seq<char>, b: seq<char>, inComment: bool)
    ensures AtmosphereScan(a + b, inComment)
         == match AtmosphereScan(a, inComment)
            case None => None
            case Some(mid) => AtmosphereScan(b, mid)
    decreases |a|
  {
    if a == [] {
      assert a + b == b;
    } else {
      assert (a + b)[0] == a[0] && (a + b)[1..] == a[1..] + b;
      match AtmosphereStep(inComment, a[0])
      case None =>
      case Some(next) => ScanAppend(a[1..], b, next);
    }
  }

  lemma {:induction false} ScanRun(s: seq<char>, inComment: bool)
    requires forall i :: 0 <= i < |s| ==> AtmosphereStep(inComment, s[i]) == Some(inComment)
    ensures AtmosphereScan(s, inComment) == Some(inComment)
    decreases |s|
  {
    if s != [] {
      ScanRun(s[1..], inComment);
    }
  }

  /**
   * `rest` is what is left of `cs` after the longest prefix the scanner
   * accepts starting outside a comment: the scanner runs through the skipped
   * text and is stuck on the first character left.
   */
  predicate SkipsAtmosphere(cs: seq<char>, rest: seq<char>) {
    && IsSuffixOf(rest, cs)
    && AtmosphereScan(cs[..|cs| - |rest|], false).Some?
    && AtmosphereStep(AtmosphereScan(cs[..|cs| - |rest|], false).value, Head(rest)).None?
  }

  /** `parseAtmosphere` skips exactly the atmosphere the scanner accepts. */
  lemma {:induction false} AtmosphereSkips(cs: seq<char>)
    ensures SkipsAtmosphere(cs, ParseAtmosphere(cs))
    decreases |cs|, 1
  {
    if Head(cs) == ';' {
      CommentThenAtmosphere(cs);
    } else if IsWhitespace(Head(cs)) {
      WhitespaceThenAtmosphere(cs);
    } else {
      assert cs[..|cs| - |cs|] == [];
    }
  }

  lemma {:induction false} CommentThenAtmosphere(cs: seq<char>)
    requires Head(cs) == ';'
    ensures SkipsAtmosphere(cs, ParseAtmosphere(cs))
    decreases |cs|, 0
  {
    var after := SkipComment(cs).value;
    var k := Span(cs[1..], InComment);
    var semi: seq<char> := [';'];
    var run := cs[1..][..k];
    assert cs == semi + run + after;
    assert AtmosphereScan(semi, false) == Some(true) by {
      assert semi[1..] == [];
    }
    ScanRun(run, true);
    ScanAppend(semi, run, false);
    AtmosphereSkips(after);
    ResumeAtmosphere(semi + run, after, ParseAtmosphere(after), true);
  }

  lemma {:induction false} WhitespaceThenAtmosphere(cs: seq<char>)
    requires IsWhitespace(Head(cs))
    ensures SkipsAtmosphere(cs, ParseAtmosphere(cs))
    decreases |cs|, 0
  {
    var after := SkipWhitespace(cs);
    var w := cs[..Span(cs, IsWhitespace)];
    assert cs == w + after;
    ScanRun(w, false);
    AtmosphereSkips(after);
    ResumeAtmosphere(w, after, ParseAtmosphere(after), false);
  }

  /**
   * Skipping `pre`, which leaves the scanner in state `inComment`, and then
   * the atmosphere of `after` skips the atmosphere of `pre + after`, provided
   * an open comment was closed where `after` begins.
   */
  /** Dropping a suffix of `after` from `pre + after` leaves `pre` and the rest of `after`. */
  lemma PrefixSplit(pre: seq<char>, after: seq<char>, rest: seq<char>)
    requires IsSuffixOf(rest, after)
    ensures IsSuffixOf(rest, pre + after)
    ensures (pre + after)[..|pre + after| - |rest|] == pre + after[..|after| - |rest|]
  {
    assert after == after[..|after| - |rest|] + rest;
  }

  lemma ResumeAtmosphere(pre: seq<char>, after: seq<char>, rest: seq<char>, inComment: bool)
    requires AtmosphereScan(pre, false) == Some(inComment)
    requires SkipsAtmosphere(after, rest)
    requires inComment ==> !InComment(Head(after))
    ensures SkipsAtmosphere(pre + after, rest)
  {
    var inner := after[..|after| - |rest|];
    var cs := pre + after;
    PrefixSplit(pre, after, rest);
    assert AtmosphereScan(pre + inner, false) == AtmosphereScan(inner, inComment) by {
      ScanAppend(pre, inner, false);
    }
    assert AtmosphereScan(inner, inComment) == AtmosphereScan(inner, false) || (inner == [] && rest == after) by {
      if inComment && inner != [] {
        assert inner[0] == Head(after);
        NewlineEndsComment(inner);
      }
    }
  }

  /** A newline ends a comment, so the scanner continues as if it were outside one. */
  lemma NewlineEndsComment(s: seq<char>)
    requires s != [] && IsNewline(s[0])
    ensures AtmosphereScan(s, true) == AtmosphereScan(s, false)
  {
  }

  /** The reader's own unit tests of numerals, symbols, comments and atmosphere. */
  lemma NumberExamples()
    ensures ParseNumber("10") == Some((10, ""))
    ensures ParseNumber("-0") == Some((0, ""))
    ensures ParseNumber("") == None && ParseNumber("cat") == None
  {
  }

  /**
   * Numerals beyond `int32_t` wrap around: the digits of INT_MAX + 1 read as
   * INT_MIN with or without '-', and those of 2^32 as 0.
   */
  lemma OverflowExamples(cs: seq<char>)
    requires IsDigit(Head(NumeralBody(cs)))
    ensures var n := Decimal(DigitRun(NumeralBody(cs)));
      && (n == Int32Max + 1 ==> ParseNumber(cs).value.0 == Int32Min)
      && (n == Modulus32 ==> ParseNumber(cs).value.0 == 0)
  {
    ParseNumberValue(cs);
  }

  lemma SymbolExamples()
    ensures SymbolToken("set! x") == Some(("set!", " x"))
    ensures SymbolToken("0x") == None
  {
    var s := "set! x";
    SpanUnique(s, IsSymbolBody, 4);
    assert s[..4] == "set!" && s[4..] == " x";
  }

  lemma CommentExamples()
    ensures SkipComment("this is not a comment\n") == None
    ensures SkipComment(";c") == Some("")
    ensures ParseAtmosphere(";c\n x") == "x"
  {
    var s := ";c\n x";
    assert Span(s[1..], InComment) == 1 by {
      assert s[1..][1..] == s[2..];
    }
    assert SkipComment(s) == Some(s[2..]);
    assert Span(s[2..], IsWhitespace) == 2 by {
      assert s[2..][1..] == s[3..] && s[3..][1..] == s[4..];
    }
    assert SkipWhitespace(s[2..]) == s[4..];
  }
}
