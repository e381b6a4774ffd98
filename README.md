# schemedoodle in Dafny

This project models the two generations of the schemedoodle Scheme
interpreter and proves properties of them.

- **The direct-style interpreter**, `scheme/scheme.cpp`, has these parts:
  - a tagged `Item` union, immutable cons cells and a global symbol table;
  - a recursive-descent reader and `print`;
  - environment frames (`Context`) with chained `Lookup` and a local `Set`;
  - the natives `addNativeFns` installs;
  - `eval` with `quote`, `define`, `set!`, `if`, `lambda` and application.
- **The modular runtime** holds Scheme values in `boost::any` and allocates
  cells and contexts from a fixed-capacity arena with a mark-and-sweep
  collector. Its parts are:
  - the value model (`schemetypes.h/.cpp`) and the list primitives
    (`list.cpp`);
  - symbol interning (`symboltable.cpp`);
  - frames whose binding constructor accepts a symbol, a proper list or a
    dotted list of formals (`context.h/.cpp`);
  - the intrusive GC node header (`collectable.h`);
  - the arena (`memory.cpp`);
  - a reader that adds dotted tails (`parser.cpp`).

The modules:

| Module | File | Models |
|---|---|---|
| `Maybe` | `maybe.dfy` | `Option`, for the source's `Maybe<T>` |
| `Symbols` | `symbols.dfy` | the symbol table, shared by both generations: the value `Table` with `Intern`/`NameOf` and the class `SymbolTable` whose `GetSymbol` updates its maps in place |
| `Lexical` | `lexical.dfy` | the character-level reader both generations share: digits, numbers, symbols, whitespace, comments, atmosphere |
| `DirectCore` | `direct_core.dfy` | values of the direct interpreter, list functions, `print`, the pure parts of the natives, and frames kept in a store indexed by `FrameRef` |
| `DirectReader` | `direct_reader.dfy` | the direct interpreter's form and list parsers, with `*rest` threaded explicitly |
| `DirectRoundTrip` | `direct_roundtrip.dfy` | the reader inverts `print` |
| `DirectListNotation` | `direct_list.dfy` | the reader's list notation `( f1 ... fn )`, which `print` never writes |
| `DirectEval` | `direct_eval.dfy` | `eval` as a function with fuel over the store of frames and the symbol table |
| `DirectBinding` | `direct_binding.dfy` | what the binding constructor of a call frame binds: each formal to its argument's value |
| `DirectMachine` | `direct_machine.dfy` | the interpreter's mutable state as a class: its methods `Lookup`, `Set`, the do-while binding constructor and `addNativeFns` are proved equal to the functions `eval` uses |
| `DirectExamples` | `direct_examples.dfy` | the source's `test_eval`/`test_context` cases |
| `Runtime` | `runtime.dfy` | `Proc`, `Cell` (a class with the GC header and `mark`), `length`/`car`/`cdr`, and `Context` (a class with the binding constructor, `Lookup` and `Set`) |
| `Memory` | `memory.dfy` | the arena: a cell pool, a context pool, and `Memory` with `allocCell`, both `allocContext` overloads and `gc` |
| `RuntimeReader` | `runtime_reader.dfy` | the modular runtime's form parsers |
| `RuntimeReaderExamples` | `runtime_reader_examples.dfy` | the list and quote cases of its tests |
| `RuntimeRoundTrip` | `runtime_roundtrip.dfy` | the modular reader inverts a writer of its forms, nested lists, dotted tails and quotes included |

Where the source fails an `assert`, reads a union member the item does not
hold, or dereferences a null cell, the direct evaluator ends in `Fault`, with
one exception: the head of a non-null cell that is not a symbol makes the form
an application. The source reads `.mSymbol` of whatever the head holds
(scheme/scheme.cpp:677), so a number equal to a keyword's id selects that
keyword there: once "quote" has id 10, `(10 x)` yields `x`, while the model
applies 10 and faults.
Where the source calls `any_cast` on the wrong type, the runtime model has a
precondition.

## Model

| member | source | states |
|---|---|---|
| Symbols.EmptyTableConsistent | scheme/symboltable.cpp:4-6 | the empty table (count 0, no entries) satisfies the table invariant: the two maps are mutual inverses and every id is below the count |
| Symbols.InternCount | scheme/symboltable.cpp:10-14 | a known string returns its recorded id and leaves the table unchanged; a fresh string gets the old count as its id and the count grows by exactly one |
| Symbols.InternConsistent | scheme/symboltable.cpp:8-17 | interning keeps the invariant, only adds entries, records the string under the returned id, and the id is below the new count |
| Symbols.InternIdempotent | scheme/symboltable.cpp:8-17 | interning the same string a second time returns the same id and table |
| Symbols.NameOfIntern | scheme/symboltable.cpp:19-25 | `GetString(GetSymbol(s)) == s` on a consistent table |
| Symbols.InternNameOf | scheme/symboltable.cpp:8-25 | interning the name of an assigned id returns that id and leaves the table unchanged |
| Symbols.NameOfUnassigned | scheme/symboltable.cpp:26 | an id that was never assigned has the empty name |
| Symbols.InternInjective | scheme/symboltable.cpp:8-17 | distinct strings get distinct ids |
| Symbols.SymbolTable.constructor | scheme/symboltable.cpp:4-6 | a new table is empty and consistent |
| Symbols.SymbolTable.GetSymbol | scheme/symboltable.cpp:8-17 | the in-place update of the two maps and the counter yields exactly `Intern` of the old table, and the invariant is kept |
| Symbols.SymbolTable.GetString | scheme/symboltable.cpp:19-27 | the result is the name recorded for the id, or "" |
| Lexical.DropsToSuffix | scheme/parser.cpp:22-35 | moving `*rest` forward one character at a time reaches exactly the suffixes of the input |
| Lexical.Span | scheme/parser.cpp:64-81 | the longest prefix whose characters satisfy a predicate: all of them do, and the next one does not |
| Lexical.DigitRun | scheme/parser.cpp:22-35 | the leading digits: all digits, a prefix of the input, followed by a non-digit or the end |
| Lexical.Wrap32 | scheme/parser.cpp:22-52 | the `int32_t` a two's-complement machine keeps of an integer: congruent to it modulo 2^32, and equal to it when it is in range |
| Lexical.WrapUnique | scheme/parser.cpp:22-52 | an `int32_t` congruent to x modulo 2^32 is the wrap of x |
| Lexical.WrapScale | scheme/parser.cpp:22-35 | wrapping an intermediate result before scaling and adding gives the same `int32_t` as wrapping the exact result once |
| Lexical.ParseDigitsValue | scheme/parser.cpp:22-35 | `parseDigits`, accumulating in `int32_t`, returns the 32-bit wrap of `previous * 10^k + value of the k leading digits` and leaves `rest` at the first non-digit |
| Lexical.ParseNumberValue | scheme/parser.cpp:37-52 | `parseNumber` succeeds iff a digit follows the optional '-'; the value is the 32-bit wrap of the sign times the decimal value, exactly that product when the digits are at most INT_MAX, and `rest` is at the first non-digit |
| Lexical.ParseNumberRest | scheme/parser.cpp:37-52 | on success `rest` is a strict suffix of the input |
| Lexical.DigitRunAll | scheme/scheme.cpp:546-557 | a numeral followed by the blank `print` writes reads back as exactly its digits |
| Lexical.ParseSymbol | scheme/parser.cpp:64-81 | the loop returns the token `SymbolToken` defines: none unless the first character is a symbol-initial, otherwise the longest run of symbol-body characters and the text after it |
| Lexical.ParseWhitespace | scheme/parser.cpp:93-103 | `rest` is the input with its leading whitespace removed: everything skipped is whitespace and the next character is not |
| Lexical.ParseSingleLineComment | scheme/parser.cpp:105-119 | succeeds iff the input starts with ';'; then `rest` is a strict suffix starting at the first newline or the end |
| Lexical.ParseAtmosphere | scheme/parser.cpp:121-139 | always succeeds; `rest` is a suffix starting at neither whitespace nor ';' |
| Lexical.AtmosphereSkips | scheme/parser.cpp:121-139 | everything `parseAtmosphere` skips is whitespace or lies inside a comment, so it stops at the first character that is neither |
| Lexical.CommentThenAtmosphere | scheme/parser.cpp:123-127 | the comment branch of `parseAtmosphere` only skips atmosphere |
| Lexical.WhitespaceThenAtmosphere | scheme/parser.cpp:128-132 | the whitespace branch of `parseAtmosphere` only skips atmosphere |
| Lexical.NumberExamples | scheme/parser.cpp:326-336 | "10" reads as 10, "-0" as 0, and "" and "cat" fail |
| Lexical.OverflowExamples | scheme/parser.cpp:22-52 | the digits of INT_MAX + 1 read as INT_MIN with or without '-', and those of 2^32 as 0 |
| Lexical.SymbolExamples | scheme/parser.cpp:353-370 | "set! x" reads the symbol "set!" and leaves " x"; a digit-initial input fails |
| Lexical.CommentExamples | scheme/parser.cpp:338-351 | text without ';' is not a comment; ";c" is one to the end; atmosphere skips ";c\n " |
| DirectCore.Car | scheme/scheme.cpp:579-583 | defined exactly on a non-null cell, and returns that cell's `car` |
| DirectCore.Cdr | scheme/scheme.cpp:585-589 | defined exactly on a non-null cell, and returns that cell's `cdr` |
| DirectCore.LengthOfList | scheme/scheme.cpp:534-544 | the list built from n items has length n |
| DirectCore.LengthProper | scheme/scheme.cpp:534-544 | a cell chain whose length is defined is the list of its elements, and its length is their number |
| DirectCore.LengthDepth | scheme/scheme.cpp:534-544 | a list of length n has a cell at each of its first n positions along the `cdr` chain (stated for n up to 4) |
| DirectCore.LengthNth | scheme/scheme.cpp:534-544 | a list of length n has an element at exactly the indices below n |
| DirectCore.NthOfList | scheme/scheme.cpp:579-589 | the n-th element of a built list is the n-th item |
| DirectCore.NatToString | scheme/scheme.cpp:553 | the decimal text of a natural number is a non-empty run of digits |
| DirectCore.DecimalNatToString | scheme/scheme.cpp:553 | reading the digits `print` writes gives back the number |
| DirectCore.TruncDivMod | scheme/scheme.cpp:630-638 | C++ `/` and `%` truncate toward zero: `q*b + r == a`, `abs r < abs b`, a non-zero remainder has the sign of `a`, and `abs q == abs a / abs b` |
| DirectCore.ArithRing | scheme/scheme.cpp:615-628 | `+`, `-` and `*` give the exact result exactly when it fits in 32 bits |
| DirectCore.ArithDivision | scheme/scheme.cpp:630-638 | `/` and `%` fail on a zero divisor and on INT_MIN by -1, otherwise succeed, with quotient and remainder satisfying the division identity |
| DirectCore.QuotientFits | scheme/scheme.cpp:630-633 | a truncated quotient of 32-bit numbers fits in 32 bits except for INT_MIN / -1 |
| DirectCore.Compare | scheme/scheme.cpp:640-657 | `=` returns 1 iff both items are Numbers with equal values or Symbols with equal ids, and 0 otherwise |
| DirectCore.IsNullOf | scheme/scheme.cpp:599-603 | `null?` returns 1 iff the item is the null cell, and 0 otherwise |
| DirectCore.LookupInnermost | scheme/scheme.cpp:181-195 | `Lookup` returns the binding of the innermost frame on the `mOuter` chain that binds the symbol, or `Unspecified` |
| DirectCore.LookupRefers | scheme/scheme.cpp:181-195 | a value found by `Lookup` refers only to frames that exist |
| DirectCore.Assign | scheme/scheme.cpp:197-200 | `Set` keeps the number of frames and the frame's `mOuter` |
| DirectCore.AssignLocal | scheme/scheme.cpp:197-200 | after `Set` the frame's visible bindings are the old ones updated at the symbol, other frames are unchanged, and what the outer frame sees is unchanged |
| DirectCore.AssignElsewhere | scheme/scheme.cpp:197-200 | `Set` on a frame does not change `Lookup` from any frame whose chain does not contain it |
| DirectCore.AssignWellFormed | scheme/scheme.cpp:197-200 | `Set` keeps the frame store well formed |
| DirectReader.ParseNumberItem | scheme/scheme.cpp:230-245 | reads a number prefix, leaves the table unchanged, and on success consumes input |
| DirectReader.ParseSymbolItem | scheme/scheme.cpp:257-274 | reads and interns a symbol; the table only grows |
| DirectReader.ParseQuotedForm | scheme/scheme.cpp:338-353 | `'form` reads as `(quote form)`; `*rest` stays at its entry value or moves forward in the input |
| DirectReader.ParseUnquotedForm | scheme/scheme.cpp:355-374 | tries a number, then a symbol, then a list |
| DirectReader.ParseForm | scheme/scheme.cpp:376-388 | tries a quoted form first, then an unquoted one |
| DirectReader.ParseForms | scheme/scheme.cpp:390-417 | a run of forms reads as a proper list, whose length is defined |
| DirectReader.ParseNil | scheme/scheme.cpp:419-442 | reads "(" atmosphere ")" as the null cell and leaves the table unchanged |
| DirectReader.ParseNonEmptyList | scheme/scheme.cpp:444-474 | a parenthesised run of forms reads as a proper, non-empty list |
| DirectReader.ParsePair | scheme/scheme.cpp:476-514 | `( a . b )` reads as a single cell |
| DirectReader.ParseDottedCdr | scheme/scheme.cpp:490-507 | the '.' form ')' tail of a pair reads within the input |
| DirectReader.ParseList | scheme/scheme.cpp:516-532 | tries nil, then a pair, then a non-empty list; the result is always a cell item |
| DirectRoundTrip.PrintShape | scheme/scheme.cpp:546-577 | printed text is non-empty, ends in a blank, and starts with a character that begins a form |
| DirectRoundTrip.NumberText | scheme/scheme.cpp:230-245 | every printed 32-bit number reads back as itself, INT_MIN through the wrap-around, and `rest` is at the blank after its digits |
| DirectRoundTrip.NameText | scheme/scheme.cpp:257-274 | a readable printed symbol name reads back as a symbol token and not as a number |
| DirectRoundTrip.ReadNumber | scheme/scheme.cpp:376-388 | `parseForm` of a printed number reads back that number and stops at the blank after it |
| DirectRoundTrip.ReadSymbol | scheme/scheme.cpp:376-388 | `parseForm` of a printed name reads back the same symbol id, and the table is unchanged |
| DirectRoundTrip.ReadNil | scheme/scheme.cpp:419-442 | "() " reads back as the null cell |
| DirectRoundTrip.ReadDottedCdr | scheme/scheme.cpp:490-507 | the dotted tail '.' form ')' reads back its form |
| DirectRoundTrip.ReadPair | scheme/scheme.cpp:476-514 | `(` a `.` b `)` reads back as the cell of a and b |
| DirectRoundTrip.ReadPairList | scheme/scheme.cpp:516-532 | when `parsePair` succeeds on a '(' input that is not nil, `parseForm` gives its result |
| DirectRoundTrip.ReadCell | scheme/scheme.cpp:546-577 | the printed text of a cell reads back as that cell when its car and cdr texts read back |
| DirectRoundTrip.ReadPrint | scheme/scheme.cpp:476-577 | `parseForm(print(x) + s)` returns x for every tree of numbers, readable symbol names and null cells; `*rest` is left at the final blank, `" " + s` |
| DirectListNotation.NoFormAtClose | scheme/scheme.cpp:376-417 | at ')' no form and no run of forms is read, and `*rest` and the table are left alone |
| DirectListNotation.FormsStep | scheme/scheme.cpp:390-417 | after a form and its atmosphere, `parseForms` conses the form onto the rest of the run, or onto the null cell |
| DirectListNotation.PairFails | scheme/scheme.cpp:476-514 | `parsePair` fails, with the table unchanged, when no '.' follows the first form |
| DirectListNotation.NonEmptyListReads | scheme/scheme.cpp:444-474 | `parseNonEmptyList` succeeds with the run of forms when atmosphere and ')' follow it |
| DirectListNotation.ListAfterPair | scheme/scheme.cpp:516-532 | at '(' before anything but ')', a failed dotted pair hands over to `parseNonEmptyList` |
| DirectListNotation.ReadForms | scheme/scheme.cpp:390-417 | the printed forms of a non-empty sequence, up to a ')', read as the proper list of them, with `*rest` at the ')' and the table unchanged |
| DirectListNotation.ReadList | scheme/scheme.cpp:444-532 | `( f1 ... fn )` reads as the right-nested proper list of the fi: length n, element i is fi, `*rest` at the final blank, table unchanged |
| DirectEval.Eval | scheme/scheme.cpp:659-752 | evaluation only adds frames and symbols, changes no frame except the current one (and frames it creates), and its value refers only to existing frames |
| DirectEval.EvalList | scheme/scheme.cpp:671-747 | the non-null cell case of `eval` keeps the same frame discipline |
| DirectEval.Apply | scheme/scheme.cpp:733-745 | applying the evaluated head to the argument list keeps the same frame discipline, natives and closures alike |
| DirectEval.MatchKeyword | scheme/scheme.cpp:678-731 | the index of the first keyword whose interned id equals the head's symbol, at most the number of keywords |
| DirectEval.Keyword | scheme/scheme.cpp:678-731 | the form is an application exactly when no keyword matches |
| DirectEval.KeywordName | scheme/scheme.cpp:679-727 | each special form has one of the keyword names |
| DirectEval.MatchKeywordByName | scheme/scheme.cpp:678-731 | a match means the head is a symbol named by that keyword; a head named by a keyword is matched by it |
| DirectEval.KeywordByName | scheme/scheme.cpp:678-731 | the head selects a special form iff its name is that form's keyword |
| DirectEval.BindHere | scheme/scheme.cpp:703-704 | binding a name in the current frame keeps the frame discipline |
| DirectEval.EvalDefine | scheme/scheme.cpp:683-705 | `define` changes only the current frame and frames it creates |
| DirectEval.EvalSetBang | scheme/scheme.cpp:706-711 | `set!` changes only the current frame and frames it creates |
| DirectEval.EvalIf | scheme/scheme.cpp:712-726 | `if` changes only the current frame and frames it creates |
| DirectEval.EvalApplication | scheme/scheme.cpp:731-746 | an application changes only the current frame and frames it creates |
| DirectEval.NewFrame | scheme/scheme.cpp:161-163 | `Context(outer)` appends one empty frame linked to `outer` and changes nothing else |
| DirectEval.BindArguments | scheme/scheme.cpp:165-179 | binding arguments touches only the new frame and the caller's, and the new frame binds nothing but formals |
| DirectBinding.BindValues | scheme/scheme.cpp:165-179 | when binding succeeds, every formal i is a symbol with an argument i; the loop reached argument i and evaluated it in the caller's frame, from the state left by arguments 0 .. i-1, to a value; unless the same name appears later among the formals (the later one wins) the new frame binds formal i to that value |
| DirectBinding.BindKeeps | scheme/scheme.cpp:165-179 | a name that is not among the formals keeps its binding in the new frame, or stays unbound |
| DirectBinding.BindRunsOut | scheme/scheme.cpp:165-179 | with fewer arguments than formals binding never succeeds: the outcome is `Fault` unless evaluating one of the arguments, from the state the loop reached it in, ran out of fuel |
| DirectBinding.BindIgnoresSurplus | scheme/scheme.cpp:165-179 | arguments past the last formal are never evaluated: binding against the first n arguments only, for n formals, gives the same outcome and state |
| DirectEval.EvalFirst | scheme/scheme.cpp:605-613 | evaluating the first argument keeps the frame discipline |
| DirectEval.EvalSecond | scheme/scheme.cpp:591-597 | evaluating the second argument keeps the frame discipline |
| DirectEval.ApplyNative | scheme/scheme.cpp:591-657 | a native call keeps the frame discipline |
| DirectEval.Combine | scheme/scheme.cpp:591-657 | `cons` builds the cell of its two values, `=` is `Compare`, and arithmetic succeeds iff both values are Numbers and the int32 result is defined, giving that result |
| DirectEval.InstallNative | scheme/scheme.cpp:754-766 | one line of `addNativeFns` interns the name and binds it in the root frame to the native, and changes nothing else |
| DirectEval.InstallNatives | scheme/scheme.cpp:754-766 | installing natives changes only the root frame and adds symbols |
| DirectEval.RootState | scheme/scheme.cpp:203 | the initial state is one root frame with no outer frame |
| DirectEval.InstallNativesKeeps | scheme/scheme.cpp:754-766 | a binding whose name is not installed survives `addNativeFns` |
| DirectEval.InstallNativesBinds | scheme/scheme.cpp:754-766 | after `addNativeFns` each of the ten names is interned and bound in the root frame to its native |
| DirectEval.InstallNativeKeeps | scheme/scheme.cpp:754-766 | installing one native keeps the id and binding of every other known name |
| DirectEval.NativeNamesDistinct | scheme/scheme.cpp:754-766 | the ten native names are distinct |
| DirectEval.RootNatives | scheme/scheme.cpp:754-766 | the root state after `addNativeFns` binds every native name |
| DirectEval.EvalNativeCall | scheme/scheme.cpp:733-737 | calling a two-argument native evaluates both arguments in order and combines the values |
| DirectEval.EvalAtom | scheme/scheme.cpp:665-676 | numbers and the null cell evaluate to themselves, symbols to their innermost binding or `Unspecified`, and the state is unchanged |
| DirectEval.EvalQuote | scheme/scheme.cpp:679-682 | `(quote d ...)` evaluates to `d` unevaluated and changes nothing |
| DirectEval.EvalIfSelects | scheme/scheme.cpp:712-726 | a non-zero test evaluates the then-branch; zero evaluates the else-branch when there is one, and otherwise yields `Unspecified` |
| DirectEval.DispatchIf | scheme/scheme.cpp:712 | a head named "if" dispatches to the `if` form |
| DirectEval.EvalDefineValue | scheme/scheme.cpp:683-705 | `(define x e)` evaluates `e`, binds the value in the current frame, and returns it |
| DirectEval.EvalDefineProcedure | scheme/scheme.cpp:695-704 | `(define (f . ps) body)` binds `f` to the closure of `(ps body)` over the current frame and returns it |
| DirectEval.EvalSetBangLocal | scheme/scheme.cpp:706-711 | `set!` evaluates its expression, binds the value in the current frame even if the name was unbound there, returns it, and leaves every other frame unchanged |
| DirectEval.EvalLambda | scheme/scheme.cpp:727-730 | `lambda` yields a closure of its `cdr` over the current frame |
| DirectEval.EvalApplyClosure | scheme/scheme.cpp:733-745 | a call whose head evaluates to a closure makes a new frame inside the closure's frame, binds the arguments there, and evaluates the body there when binding succeeds |
| DirectEval.ApplyClosure | scheme/scheme.cpp:739-745 | applying a closure is binding its formals in a new frame inside its own frame, then evaluating its body in that frame |
| DirectEval.CallFrame | scheme/scheme.cpp:743 | the call frame is new, its outer frame is the closure's, binding touches no older frame but the caller's, and every name other than the formals resolves as in the closure's frame (lexical scope) |
| DirectMachine.Interpreter.constructor | scheme/scheme.cpp:203 | a root frame with no bindings and an empty symbol table |
| DirectMachine.Interpreter.Lookup | scheme/scheme.cpp:181-195 | the recursive method returns the innermost visible binding or `Unspecified` |
| DirectMachine.Interpreter.Set | scheme/scheme.cpp:197-200 | the update is `Assign`; the new value is what `Lookup` then finds |
| DirectMachine.Interpreter.NewContext | scheme/scheme.cpp:161-163 | allocating `Context(outer)` is `NewFrame` |
| DirectMachine.Interpreter.BindFrame | scheme/scheme.cpp:165-179 | the do-while binding constructor is a new frame followed by `BindArguments` |
| DirectMachine.Interpreter.BindStep | scheme/scheme.cpp:168-178 | one pass of the loop is one step of `BindArguments`: what is left of the binding after the pass equals what was left before it |
| DirectMachine.Interpreter.BindNative | scheme/scheme.cpp:756 | one `Set(GetSymbol(name), native)` line is `InstallNative` |
| DirectMachine.Interpreter.AddNativeFns | scheme/scheme.cpp:754-766 | the ten lines together are `InstallNatives` of all natives |
| DirectMachine.Interpreter.EvalRoot | scheme/scheme.cpp:659-752 | evaluating in the root frame is `Eval` |
| DirectMachine.Start | scheme/scheme.cpp:754-766 | a fresh interpreter after `addNativeFns` is in `RootState` |
| DirectExamples.RootArithmetic | scheme/scheme.cpp:885-892 | `(op a b)` for each arithmetic native evaluates to its int32 result, or faults |
| DirectExamples.ArithmeticExamples | scheme/scheme.cpp:888-892 | `(+ 10 1)`=11, `(* 10 10)`=100, `(/ 10 2)`=5, `(- 10 2)`=8, `(% 3 2)`=1 |
| DirectExamples.EvalIfQuoted | scheme/scheme.cpp:894-895 | `(if c 'yes 'no)` evaluates to `yes` iff the test is non-zero, and leaves the frames unchanged |
| DirectExamples.IfExamples | scheme/scheme.cpp:894-895 | `(if 1 'true 'false)` gives `true`; `(if 0 'true 'false)` gives `false` |
| DirectExamples.SetExample | scheme/scheme.cpp:902-905 | in a fresh child frame `(set! x 10)` gives 10, then `x` gives 10, and the root frame is unchanged |
| DirectExamples.DefineExample | scheme/scheme.cpp:907 | `(define x 'cat)` returns `cat` and binds `x` to it |
| DirectExamples.LambdaExample | scheme/scheme.cpp:896-897 | `((lambda (x) (if x 'true 'false)) n)` gives `true` iff n is non-zero |
| DirectExamples.NoParametersExample | scheme/scheme.cpp:165-179 | applying a lambda with no formals faults: the do-while binds once before checking the null formal list |
| Runtime.NativeProc | scheme/schemetypes.h:20-24 | a native `Proc` has the native, a null body and a null closure |
| Runtime.ClosureProc | scheme/schemetypes.h:25-29 | an interpreted `Proc` has no native and stores body and closure unchanged |
| Runtime.NativeNeverEqual | scheme/schemetypes.h:30-34 | `p == q` is false whenever `q` is native, even when both are the same native |
| Runtime.ClosureEquality | scheme/schemetypes.h:35 | against an interpreted `Proc`, equality compares only the body, ignoring the closure |
| Runtime.ProcEqAsymmetric | scheme/schemetypes.h:30-36 | `==` is not symmetric: a native equals an interpreted `Proc` with a null body, but not the other way round |
| Runtime.Cell.Blank | scheme/schemetypes.h:55-58 | `Cell()` holds empty `any` values, which differ from `Unspecified`; its GC header is fresh |
| Runtime.Cell.constructor | scheme/schemetypes.h:59-62 | `Cell(car, cdr)` stores both unchanged; its GC header is fresh |
| Runtime.Cell.Single | scheme/schemetypes.h:63-66 | `Cell(car)` stores car and the null cell pointer as cdr |
| Runtime.Cell.GetNext | scheme/collectable.h:22 | returns the last value `setNext` stored |
| Runtime.Cell.SetNext | scheme/collectable.h:23 | stores the next pointer and changes no other field |
| Runtime.Cell.SetReachable | scheme/collectable.h:5-16 | writes only the base class's flag; the flag `mark` reads is unchanged |
| Runtime.Cell.Unmark | scheme/memory.cpp:56 | clears the flag `mark` reads (the intended effect of `setReachable(false)`) |
| Runtime.Cell.Mark | scheme/schemetypes.cpp:23-42 | the cell becomes marked and no mark is cleared; an already marked cell changes nothing; newly marked cells are reachable from the cell; every marked cell's cell children are marked once no call is pending; it terminates on cyclic structures |
| Runtime.Cell.Length | scheme/schemetypes.cpp:10-21 | the number of cells on the `cdr` spine, at least 1 |
| Runtime.MarkedReachable | scheme/schemetypes.cpp:23-42 | after marking, every cell on a car/cdr path from a marked cell is marked |
| Runtime.PathsStayMarked | scheme/schemetypes.cpp:23-42 | once marking is closed, every path from a marked root stays among the live cells |
| Runtime.StaleMark | scheme/collectable.h:5-16 | a cell that `mark` reached stays marked for `collect` after `setReachable(false)` |
| Runtime.Length | scheme/list.cpp:5-15 | the number of cells on a proper list's spine |
| Runtime.LengthAgrees | scheme/list.cpp:11-14 | `length(c) == c->length()` for a non-null cell, and `length(c) == 1 + length(cdr c)` |
| Runtime.LengthNull | scheme/list.cpp:7-10 | `length(nullptr) == 0` |
| Runtime.Car | scheme/list.cpp:17-21 | requires a non-null cell and returns its `car` unchanged |
| Runtime.Cdr | scheme/list.cpp:23-27 | requires a non-null cell and returns its `cdr` unchanged |
| Runtime.CdrFollowsSpine | scheme/list.cpp:23-27 | `cdr` of the i-th cell of a proper list is the next cell, or null after the last |
| Runtime.Context.Root | scheme/context.cpp:14-17 | a root frame: no outer frame and no bindings |
| Runtime.Context.Inner | scheme/context.cpp:19-21 | an empty frame linked to `outer` |
| Runtime.WalkFormals | scheme/context.cpp:33-57 | the loop over the formal list yields exactly the bindings `Walked` describes: formal by formal, then the rest symbol |
| Runtime.Context.Bind | scheme/context.cpp:23-59 | symbol formals bind the whole argument list; otherwise each formal is bound to the matching argument (surplus arguments ignored) and a dotted tail symbol to the remaining arguments |
| Runtime.Context.Lookup | scheme/context.cpp:61-75 | the innermost visible binding, or `Unspecified` when the chain is exhausted |
| Runtime.Context.Set | scheme/context.cpp:77-80 | writes only this frame's binding; this frame now sees the new value and what the outer frames see is unchanged |
| Runtime.Context.NotOwnAncestor | scheme/context.h:65-79 | the `mOuter` chain never returns to a frame, so `Lookup` terminates |
| Runtime.FormalNames | scheme/context.h:43 | the symbols in the `car`s of the formal list, in order |
| Runtime.ArgumentValues | scheme/context.h:43 | the values in the `car`s of the argument list, in order |
| Runtime.BindAllPositional | scheme/context.h:36-61 | with distinct formals, each formal is bound to its argument, the rest symbol to the remaining arguments, and no other name is touched |
| Memory.CellPool.constructor | scheme/memory.cpp:10 | an empty pool with all of its capacity free |
| Memory.CellPool.Alloc | scheme/memory.cpp:43 | null when no slot is free, otherwise a fresh unmarked cell holding car and cdr, with live and free counts updated |
| Memory.CellPool.MarkUnreachable | scheme/memory.cpp:56 | clears every live cell's mark and returns the number of live cells |
| Memory.CellPool.MarkFrom | scheme/memory.cpp:64 | marks the roots and every cell they reach, and nothing outside what they reach |
| Memory.CellPool.Collect | scheme/memory.cpp:66 | keeps exactly the marked cells and returns the others to the free count |
| Memory.CellPool.Sweep | scheme/memory.cpp:56-66 | the cell side of `gc`: the roots and every cell on a path from them survive, nothing outside `reach` survives, and the freed cells are added to the free count |
| Memory.ContextPool.constructor | scheme/memory.cpp:9 | an empty pool with all of its capacity free |
| Memory.ContextPool.Alloc | scheme/memory.cpp:17 | null when full, otherwise a fresh empty frame linked to `outer` |
| Memory.ContextPool.AllocBind | scheme/memory.cpp:30 | null when full, otherwise a fresh frame with the bindings of the binding constructor |
| Memory.ContextPool.MarkUnreachable | scheme/memory.cpp:57 | clears every live context's mark and returns their number |
| Memory.ContextPool.MarkReached | scheme/memory.cpp:64 | marks exactly the live contexts that are reached |
| Memory.ContextPool.Collect | scheme/memory.cpp:67 | keeps exactly the marked contexts and returns the others to the free count |
| Memory.ContextPool.Sweep | scheme/memory.cpp:57-67 | the context side of `gc`: exactly the reached live contexts survive, and the freed ones are added to the free count |
| Memory.Memory.constructor | scheme/memory.cpp:8-13 | capacities of 1000000 cells and 1000 contexts; no cells; the only context is the root, which has no outer frame |
| Memory.Memory.Gc | scheme/memory.cpp:54-73 | unmark, mark from the current context, collect: live cells only shrink, every cell on a path from a root survives, no unreached cell survives, the freed cells are added to the free count, and exactly the reached contexts survive |
| Memory.Memory.AllocCellAsWritten | scheme/memory.cpp:41-52 | as the parser calls it: with a full pool, the collection frees every previously live cell outside what it keeps, and the new cell would point to a freed cell exactly when `car` or `cdr` did not survive, which is certain when they lie outside what the collection keeps |
| Memory.Memory.AllocCell | scheme/memory.cpp:41-52 | as intended, with the caller's held cells (`car` and `cdr` among them) as roots: with a free slot, a fresh cell holding car and cdr and no collection; otherwise collect once and retry; null only when the collection freed nothing |
| Memory.Memory.AllocContextAsWritten | scheme/memory.cpp:15-26 | as written, the result is null whenever the pool was full, even when `gc` freed a slot |
| Memory.Memory.AllocContext | scheme/memory.cpp:15-26 | as intended: a fresh empty frame linked to `outer`, retried after `gc`; null only when the pool stays full |
| Memory.Memory.AllocBindContextAsWritten | scheme/memory.cpp:28-39 | as written, the result is null whenever the pool was full |
| Memory.Memory.AllocBindContext | scheme/memory.cpp:28-39 | as intended: a fresh frame with the binding constructor's bindings, retried after `gc`; null only when the pool stays full |
| RuntimeReader.ParseNumberForm | scheme/parser.cpp:37-52 | a number form; on failure `*rest` and the table are unchanged |
| RuntimeReader.ParseSymbolForm | scheme/parser.cpp:64-81 | a symbol form, interned; the table only grows |
| RuntimeReader.ParseQuotedForm | scheme/parser.cpp:143-159 | `'form` reads as `(quote form)`; `*rest` stays at its entry value or moves forward in the input |
| RuntimeReader.ParseUnquotedForm | scheme/parser.cpp:161-180 | tries a number, then a symbol, then a list |
| RuntimeReader.ParseForm | scheme/parser.cpp:182-194 | tries a quoted form first, then an unquoted one |
| RuntimeReader.ParsePair | scheme/parser.cpp:196-214 | '.' atmosphere form reads the form of a dotted tail |
| RuntimeReader.ParseForms | scheme/parser.cpp:216-252 | a run of forms reads as a cell whose `cdr` is a dotted tail, the rest of the run, or null |
| RuntimeReader.ParseNil | scheme/parser.cpp:254-277 | "(" atmosphere ")" reads as the null pointer and leaves the table unchanged |
| RuntimeReader.ParseNonEmptyList | scheme/parser.cpp:279-309 | '(' forms ')' reads as a cell |
| RuntimeReader.ParseList | scheme/parser.cpp:312-324 | tries nil, then a non-empty list; the result is a cell pointer |
| RuntimeReaderExamples.ReadName | scheme/parser.cpp:182-194 | a readable name followed by a blank reads as its interned symbol |
| RuntimeReaderExamples.ReadNumeral | scheme/parser.cpp:161-167 | a printed numeral reads as its number, with the table unchanged |
| RuntimeReaderExamples.NoFormAt | scheme/parser.cpp:182-252 | at ')' or at the end no form and no run is read, and `*rest` is untouched |
| RuntimeReaderExamples.ReadFormsOn | scheme/parser.cpp:216-249 | without a dotted tail, the `cdr` is the rest of the run, or null |
| RuntimeReaderExamples.ReadFormsDotted | scheme/parser.cpp:233-237 | with a dotted tail, the `cdr` is the tail's form |
| RuntimeReaderExamples.ReadListOf | scheme/parser.cpp:279-324 | a non-empty list is read exactly when its run is followed by ')' |
| RuntimeReaderExamples.EmptyLists | scheme/parser.cpp:376-380 | "()" and "(    )" read as the null pointer |
| RuntimeReaderExamples.NameNumberName | scheme/parser.cpp:382-387 | `( cat 100 unicorn )` reads as a three-cell proper list whose length is 3 |
| RuntimeReaderExamples.LengthThree | scheme/list.cpp:5-15 | three cells ending in null have length 3 |
| RuntimeReaderExamples.DottedPair | scheme/parser.cpp:196-252 | `( first . second )` reads as one cell whose `cdr` is the second symbol |
| RuntimeReaderExamples.Unclosed | scheme/parser.cpp:279-309 | a list without ')' fails |
| RuntimeReaderExamples.QuotedName | scheme/parser.cpp:393-397 | `'name` reads as the two cells of `(quote name)` |
| RuntimeRoundTrip.Write | scheme/parser.cpp:141-324 | the text of a form is non-empty and ends in the blank that separates tokens |
| RuntimeRoundTrip.WriteStarts | scheme/parser.cpp:216-252 | the text of a writable form starts neither atmosphere, nor a dotted tail, nor ')' |
| RuntimeRoundTrip.FormAtParen | scheme/parser.cpp:161-194 | at '(' `parseForm` is `parseList` |
| RuntimeRoundTrip.ReadNull | scheme/parser.cpp:254-277 | `() ` reads back as the null pointer, with `*rest` at the blank |
| RuntimeRoundTrip.ReadCell | scheme/parser.cpp:279-324 | `( run ) ` reads back as the cell once its run does, whether the run stops at ')' or at the blank before it |
| RuntimeRoundTrip.ReadRun | scheme/parser.cpp:196-252 | the run of a cell followed by ')' reads back as the cell: its `car`, then the rest of the run, a dotted tail, or null; table unchanged |
| RuntimeRoundTrip.ReadWrite | scheme/parser.cpp:141-324 | reading back the text of any writable form, nested lists, dotted tails and quotes included, gives the same form, the table unchanged and `*rest` at the final blank |

## Left out

- `repl()`, `main`, the test drivers themselves, and the `gTrace`/`gVerboseGC` printing are console I/O. The test cases appear as lemmas instead.
- The recursive examples of `test_context` (`length`, `length2`, `make-plus`/`plus10`, `map`) are not stated as lemmas. Lexical scoping is stated for every closure call by `DirectEval.CallFrame`.
- Natives are tags. The `std::function` callables, the CPS evaluator, continuations and the later native registry of the modular runtime are not part of this model.
- The pool class behind `mCells`/`mContexts` is abstracted to a live set plus a free count. Allocation hands out a fresh object. Slot reuse, free lists and the `mNext` threading between pool nodes are not modelled.
- `Context::mark` is not part of this model. `Memory.Memory.Gc` takes the set of contexts it reaches, and the cells it reaches from them, as parameters.
- Memory.Memory.AllocCell: the source asserts the retried allocation succeeds; here the result is null when the collection freed nothing.
- Memory.Memory.AllocCellAsWritten: where the source would store a pointer to a freed cell, the model returns null and sets `dangling`; what the program does with that pointer afterwards is not modelled.
- Memory.Memory.AllocContext, Memory.Memory.AllocBindContext: likewise null where the source would fail its assert.
- The modular reader builds a tree of `Form`s rather than allocating cells with `gMemory.allocCell`, so allocation failure during reading is not modelled.
- `boost::any_cast` on the wrong type throws; here it is a precondition. The examples are `Runtime.Car`/`Runtime.Cdr` and the `Symbol`/`CellRef` formals of `Runtime.Context.Bind`.
- Runtime.Context.Bind: fewer arguments than formals is a precondition, since the source dereferences a null argument cell.
- Runtime.Cell.Length: covers proper lists only. An improper `cdr` makes `any_cast` throw, and that case is excluded by precondition.
- The `uint32_t` results of `length` and of the pools' counts are unbounded naturals.
- `ICollectable::mReachable` is never initialised by the source, and the model leaves it unconstrained too.
- Reading a numeral whose digits exceed INT_MAX overflows `int32_t` in `previous * 10 + digit` (and `-2147483648` overflows again in `* sign`). That is undefined behaviour in C++. The model reads every numeral and takes the two's-complement wrap-around that 32-bit targets produce (`Lexical.Wrap32`), applied at each step as the source computes.
- Memory.Memory.Gc: the source unmarks cells then contexts, marks, then collects cells then contexts (memory.cpp:56-67); the model unmarks, marks and collects the context pool before the cell pool. The pools share no node and each side touches only its own, so the outcome is the same.
- DirectEval.MatchKeyword: a head that is not a symbol is never a keyword here, where the source compares its `mSymbol` bits with the keyword ids (scheme.cpp:677).
- The direct interpreter's arithmetic evaluates its operands left to right. C++ leaves that order unspecified, and it is observable only when an operand changes frames.
- DirectEval.Eval: carries fuel because user recursion can diverge; running out of fuel yields `OutOfFuel`.
- DirectEval.Eval: its own contract states only the frame discipline. What each form computes is stated by the `EvalAtom`, `EvalQuote`, `EvalIfSelects`, `EvalDefineValue`, `EvalDefineProcedure`, `EvalSetBangLocal`, `EvalLambda`, `EvalApplyClosure` and `EvalNativeCall` lemmas.
- The `car`, `cdr` and `null?` natives are modelled in `ApplyNative` but have no lemma of their own.
- DirectRoundTrip.ReadPrint: excludes names that do not read back as one symbol token (`ReadableName`: a symbol-initial character, then symbol-body characters, and not '-' before a digit). It also excludes closures, natives and `Unspecified`, which `print` writes as nothing. INT_MIN is included only through the wrap-around described above: in C++ reading it back is undefined behaviour.

## Findings

| source | as written | input that shows it | evidently intended | confidence | as-written member | corrected member |
|---|---|---|---|---|---|---|
| scheme/memory.cpp:15-26 | the retry after `gc` assigns a new local `context` declared inside the `if`, so the function returns the outer `context`, which is null | a full context pool where `gc(current)` frees a context the current one does not reach | return the retried allocation | high, not executed | Memory.Memory.AllocContextAsWritten | Memory.Memory.AllocContext |
| scheme/memory.cpp:28-39 | the same shadowing in the binding overload | a full context pool where `gc(current)` frees a context | return the retried allocation | high, not executed | Memory.Memory.AllocBindContextAsWritten | Memory.Memory.AllocBindContext |
| scheme/parser.cpp:154 | `parseQuotedForm` holds the inner cell only in a temporary while the second `allocCell` may collect, and `gc` marks only from the current context; parser.cpp:222 likewise holds the parsed `item` in a local across `allocCell` | `'x` read when the cell pool has one free node: the inner cell takes it, the outer `allocCell` collects and frees the inner cell, and the `quote` cell's `cdr` points to a freed node | keep the cells under construction reachable during the collection | medium (the pool's `collect` is not shown), not executed | Memory.Memory.AllocCellAsWritten | Memory.Memory.AllocCell |
| scheme/collectable.h:5-16 | `Collectable<T>` declares its own `mReachable`, hiding `ICollectable::mReachable`; `setReachable` writes the base flag while `Cell::mark` reads the derived one | one `mark` of a cell, then `setReachable(false)`: the cell still counts as marked, so a later `gc` never marks or frees through it | one reachability flag, cleared by `setReachable(false)` | high for the hidden flag; the consequence for a later `gc` assumes the pool's `markUnreachable` (not shown) clears marks through `setReachable`; not executed | Runtime.StaleMark | Runtime.Cell.Unmark |
