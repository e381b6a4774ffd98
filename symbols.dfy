/**
 * Symbol interning: strings are mapped to small integer ids handed out in
 * order of first use, together with the reverse map from ids back to names.
 * `Table` is the state of a table as a value; `SymbolTable` is the object
 * whose maps and counter `GetSymbol` updates in place.
 */
module Symbols {

  type Symbol = nat

  /** The state of a symbol table: both maps and the next id to hand out. */
  datatype Table = Table(stringToSymbol: map<string, Symbol>, symbolToString: map<Symbol, string>, count: nat)

  /** The state of a freshly constructed table. */
  function EmptyTable(): Table {
    Table(map[], map[], 0)
  }

  /**
   * The table invariant: the maps are inverse to each other and the ids in
   * use are exactly 0 .. count-1.
   */
  ghost predicate Consistent(t: Table) {
    && (forall s :: s in t.stringToSymbol ==>
          && t.stringToSymbol[s] < t.count
          && t.stringToSymbol[s] in t.symbolToString
          && t.symbolToString[t.stringToSymbol[s]] == s)
    && (forall id :: id in t.symbolToString ==>
          && id < t.count
          && t.symbolToString[id] in t.stringToSymbol
          && t.stringToSymbol[t.symbolToString[id]] == id)
    && (forall id: Symbol :: id < t.count ==> id in t.symbolToString)
  }

  /** `GetSymbol` as a function of the table: the new table and the id of `s`. */
  function Intern(t: Table, s: string): (Table, Symbol) {
    if s in t.stringToSymbol then
      (t, t.stringToSymbol[s])
    else
      (Table(t.stringToSymbol[s := t.count], t.symbolToString[t.count := s], t.count + 1), t.count)
  }

  /** `GetString` as a function of the table: the name of `id`, or "" for an id never handed out. */
  function NameOf(t: Table, id: Symbol): string {
    if id in t.symbolToString then t.symbolToString[id] else ""
  }

  /** `t'` is `t` with possibly more strings interned; nothing already interned changes. */
  ghost predicate Extends(t: Table, t': Table) {
    && t.count <= t'.count
    && (forall s :: s in t.stringToSymbol ==> s in t'.stringToSymbol && t'.stringToSymbol[s] == t.stringToSymbol[s])
    && (forall id :: id in t.symbolToString ==> id in t'.symbolToString && t'.symbolToString[id] == t.symbolToString[id])
  }

  lemma EmptyTableConsistent()
    ensures Consistent(EmptyTable())
  {
  }

  /** A fresh string gets the old count as its id and the count grows by one; a known one changes nothing. */
  lemma InternCount(t: Table, s: string)
    ensures s in t.stringToSymbol ==> Intern(t, s) == (t, t.stringToSymbol[s])
    ensures s !in t.stringToSymbol ==> Intern(t, s).1 == t.count && Intern(t, s).0.count == t.count + 1
  {
  }

  /** Interning keeps the invariant, only adds to the table, and the result maps `s` to its id. */
  lemma InternConsistent(t: Table, s: string)
    requires Consistent(t)
    ensures Consistent(Intern(t, s).0)
    ensures Extends(t, Intern(t, s).0)
    ensures s in Intern(t, s).0.stringToSymbol && Intern(t, s).0.stringToSymbol[s] == Intern(t, s).1
    ensures Intern(t, s).1 < Intern(t, s).0.count
  {
    if s !in t.stringToSymbol {
      var t' := Intern(t, s).0;
      assert t.count !in t.symbolToString;
      forall id | id in t'.symbolToString
        ensures id < t'.count && t'.symbolToString[id] in t'.stringToSymbol
             && t'.stringToSymbol[t'.symbolToString[id]] == id
      {
        if id != t.count {
          assert t.symbolToString[id] != s;
        }
      }
    }
  }

  /** `GetSymbol` is idempotent: asking again for the same string yields the same id and changes nothing. */
  lemma InternIdempotent(t: Table, s: string)
    ensures Intern(Intern(t, s).0, s) == Intern(t, s)
  {
  }

  /** `GetString(GetSymbol(s)) == s`. */
  lemma NameOfIntern(t: Table, s: string)
    requires Consistent(t)
    ensures NameOf(Intern(t, s).0, Intern(t, s).1) == s
  {
  }

  /** Every id below the count names the string that maps back to it. */
  lemma InternNameOf(t: Table, id: Symbol)
    requires Consistent(t) && id < t.count
    ensures Intern(t, NameOf(t, id)) == (t, id)
  {
  }

  /** An id that was never handed out has the empty name. */
  lemma NameOfUnassigned(t: Table, id: Symbol)
    requires Consistent(t) && id >= t.count
    ensures NameOf(t, id) == ""
  {
  }

  /** Distinct strings get distinct ids, in one table or in any table extending it. */
  lemma InternInjective(t: Table, s1: string, s2: string)
    requires Consistent(t) && s1 != s2
    ensures var (t1, id1) := Intern(t, s1); Intern(t1, s2).1 != id1
  {
    InternConsistent(t, s1);
    var (t1, id1) := Intern(t, s1);
    InternConsistent(t1, s2);
  }

  /** `Intern` keeps a consistent table consistent and only adds to it. */
  lemma InternGrows(t: Table, s: string)
    ensures Grows(t, Intern(t, s).0)
  {
    if Consistent(t) {
      InternConsistent(t, s);
    }
  }

  /** Every update of a consistent table keeps it consistent and only adds to it. */
  ghost predicate Grows(t: Table, t': Table) {
    Consistent(t) ==> Consistent(t') && Extends(t, t')
  }

  lemma GrowsTransitive(t1: Table, t2: Table, t3: Table)
    requires Grows(t1, t2) && Grows(t2, t3)
    ensures Grows(t1, t3)
  {
  }

  /** The table object: `GetSymbol` updates both maps and the counter in place. */
  class SymbolTable {
    var stringToSymbol: map<string, Symbol>
    var symbolToString: map<Symbol, string>
    var count: nat

    /** The state of this table as a value. */
    function State(): Table
      reads this
    {
      Table(stringToSymbol, symbolToString, count)
    }

    ghost predicate Valid()
      reads this
    {
      Consistent(State())
    }

    constructor ()
      ensures State() == EmptyTable() && Valid()
    {
      stringToSymbol := map[];
      symbolToString := map[];
      count := 0;
    }

    method GetSymbol(symbol: string) returns (id: Symbol)
      requires Valid()
      modifies this
      ensures Valid()
      ensures (State(), id) == Intern(old(State()), symbol)
    {
      InternConsistent(State(), symbol);
      if symbol !in stringToSymbol {
        stringToSymbol := stringToSymbol[symbol := count];
        count := count + 1;
        symbolToString := symbolToString[count - 1 := symbol];
      }
      id := stringToSymbol[symbol];
    }

    method GetString(symbol: Symbol) returns (name: string)
      ensures name == NameOf(State(), symbol)
    {
      if symbol in symbolToString {
        name := symbolToString[symbol];
      } else {
        name := "";
      }
    }
  }
}
