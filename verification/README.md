# A model of the `lisp.js` interpreter core

`lisp.js` is an early stage of a small Lisp interpreter. It has five parts:

- a tokeniser;
- a token cursor (`Rdr`) and a recursive-descent reader (`parse`, `parseList`);
- a printer;
- list helpers and a chain of variable frames;
- an evaluator loop `evl` with its syntax selectors.

This project models each of those parts as pure Dafny functions over one closed value type and proves what they do.

**Values.** The interpreter has a single host string type, so `Value` has one constructor for it:
- a leading `$` marks a string; any other text is a symbol;
- the empty list is the text `nil`, so the symbol `nil` and the empty list are the same value;
- numbers are integers;
- the host boolean `false` and `undefined` are values of their own, because the code produces both.

**Host errors and reads.**
- Every `throw` and every host TypeError becomes an `Err` of `Result`.
- `car` and `cdr` are property reads. A read on a pair gives its field. A read on any other primitive gives undefined. A read on undefined is a TypeError.
- Every selector is therefore total, and it fails exactly where the host fails.

**Mutation and loops.**
- Assignment changes frames in place. The model threads the frame chain through evaluation as a value instead: every evaluator result carries the chain as it stands afterwards.
- The loop in `evl` need not end, because a variable's value is fed back into the loop. The evaluator therefore takes a `fuel` argument.

**Where the code does not do what the interpreter's description says, the model follows the code:**
- An application (a pair whose head is not a special form) never reaches the "Unknown expression type" throw. `noOperandsP` is assigned from `nullP` before `nullP` has a value, so `listOfValues` calls undefined and fails with a TypeError once the operator has been evaluated (lisp.js:486-488, 452-458).
- `define` never binds anything:
  - `evalDefinition` calls `definitionVariable` with three arguments instead of defining a variable.
  - When the name is a symbol, that call reads a property of a string and fails.
  - Otherwise, the value to be evaluated is the undefined result of `makeLambda`.
- `cond` assigns its expansion to the environment variable, not to the expression. The loop therefore meets the same `cond` again until an expansion error or the fuel ends it.
- `lambda` evaluates to undefined, because `makeProcedure` has no `return`.
- `makeIf`, `makeBegin` and `makeLambda` have no `return` either, so their value is undefined. `extendEnvironment` also has no `return`: the model keeps its arity check and its undefined result.

**Modules.**
- `Results`: error values and the `Result` type.
- `Numerals`: whitespace, and integer text in both directions.
- `Values`: values, reads, type predicates, `length` and `listToArray`.
- `Reader` and `ReaderLaws`: the cursor and the reader, with a reader round-trip from a token rendering.
- `Printer`.
- `Tokeniser`.
- `ReadPrint`: the tokeniser, reader and printer together.
- `Environment`: the frame chain.
- `Syntax`: selectors and the `cond` expansion.
- `Evaluator` and `EvaluatorLaws`.

## Model

| member | source | states |
|---|---|---|
| Values.Car | lisp.js:79-81 | `car` gives a pair's first field, undefined for any other primitive, and fails exactly on undefined |
| Values.Cdr | lisp.js:83-85 | `cdr` gives a pair's second field, undefined for any other primitive, and fails exactly on undefined |
| Values.ValueKinds | lisp.js:542-560 | every value is self-evaluating, a symbol, a pair, `false` or undefined; no value is both self-evaluating and a symbol; a tagged list is exactly a pair whose car is the tag; nil is a symbol and a list but not a pair |
| Values.Length | lisp.js:439-448 | `length` succeeds exactly on chains ending in nil, and gives their number of elements; any other value fails |
| Values.ListToArray | lisp.js:97-106 | `listToArray` succeeds exactly on chains ending in nil, and gives their elements in order; any other value fails |
| Values.LengthAgreesWithListToArray | lisp.js:439-448 | `length` and `listToArray` succeed on the same values, and the length is the number of elements returned |
| Values.ListOfRoundTrip | lisp.js:97-106 | the list built from a sequence is a proper list, and `listToArray` gives the sequence back |
| Reader.NewRdr | lisp.js:5-9 | a new cursor is at the first token and has every token remaining |
| Reader.Peek | lisp.js:11-17 | `peek` is null exactly at the end, and otherwise gives the token at the cursor |
| Reader.Pop | lisp.js:19-25 | `pop` is null exactly at the end and then leaves the cursor alone; otherwise it gives the token at the cursor and advances by one, never past the end |
| Reader.PeekAgreesWithPop | lisp.js:11-25 | `peek` sees the token `pop` takes, and `pop` consumes one token exactly when one remains |
| Reader.Parse | lisp.js:150-175 | reading at the end of the tokens fails on `token[0]`; a successful read consumes at least one token and keeps the token array |
| Reader.ParseList | lisp.js:116-148 | a successful list read consumes at least one token and keeps the token array |
| Reader.ParseListAtEnd | lisp.js:120-147 | running out of tokens inside a list throws "expected ')'" |
| Reader.ParseListAtClose | lisp.js:121-124 | a `)` ends the list with nil and is consumed |
| Reader.ParseListAtElement | lisp.js:136-144 | any other token starts an element, which is consed onto the rest of the list |
| Reader.ParseListElementThenRest | lisp.js:136-144 | an element read followed by a rest read gives their pair, ending where the rest ended |
| Reader.ParseListAtDot | lisp.js:126-134 | after `.` the next value becomes the tail (dropped when no element precedes it), and one more token is discarded unchecked |
| Reader.ParseListDottedTail | lisp.js:126-134 | after an element, `. d x` makes `d` the tail and consumes `x` |
| Reader.ParseAtOpen | lisp.js:153-155 | `(` starts a list read |
| Reader.ParseQuote | lisp.js:157-159 | `'x` reads as the list `(quote x)` |
| Reader.ParseAtomToken | lisp.js:161-174 | any other token reads as one atom and consumes one token |
| Reader.AtomOfPlaceholder | lisp.js:162-164 | the placeholder `$i` reads as the string whose text is entry `i` of the side table |
| Reader.ParsePlaceholder | lisp.js:162-164 | a `$i` token reads as `"$" + strs[i]` and consumes one token |
| ReaderLaws.ParseListOfElements | lisp.js:116-148 | a run of element renderings followed by `)` reads as the proper list of those elements and consumes the `)`; without the `)` it throws "expected ')'" |
| ReaderLaws.ParseParenthesised | lisp.js:150-155 | `( e1 ... en )` reads as the proper list of the `ei` in order; a missing `)` throws "expected ')'" |
| ReaderLaws.ParseAtomUnparse | lisp.js:161-174 | the one-token rendering of a readable atom reads back as that atom |
| ReaderLaws.UnparseFirstToken | lisp.js:116-134 | no rendering starts with `)` or `.`, so an element is never mistaken for a list's end |
| ReaderLaws.ParseUnparse | lisp.js:150-175 | the token rendering of any readable value, wherever it sits in a token array, reads back as that value and consumes exactly its tokens |
| ReaderLaws.ParseCellsUnparse | lisp.js:116-148 | the rendering of a list's cells after `(` reads back as those cells, dotted tail included |
| ReaderLaws.ParseRestUnparse | lisp.js:120-144 | the rendering of a pair's cdr (`)`, more cells, or `. tail )`) reads back as that cdr |
| ReaderLaws.ReadBackUnparse | lisp.js:150-175 | reading a readable value's rendering from a fresh cursor gives the value and consumes every token |
| Printer.PrintWith | lisp.js:179-205 | `false` and undefined print as nothing, and every other value prints as text; a number prints as its decimal text; a symbol prints as its name; a string prints raw without its `$`; a readable string prints as its text escaped and put between quotes, with no carriage return, line feed or tab left in it, and when backslashes are doubled, unescaping the part between the quotes gives the text back; a pair prints as text that starts with `(` and ends with `)` |
| Printer.PrintAsWrittenCollides | lisp.js:186-197 | as written, the string of a backslash and `n` and the string of one line feed are different values, yet both print readably as `"\n"` |
| Printer.PrintCorrectedInjective | lisp.js:186-197 | with backslashes doubled, two string values that print alike readably are the same value |
| Printer.PrintPair | lisp.js:207-222 | under either escape, a pair prints as `(`, its elements separated by spaces, then ` . tail` when the last cdr is not nil, then `)` |
| Printer.PrintCellsShape | lisp.js:210-221 | the loop over a pair's cells produces the elements' non-readable texts, each followed by a space, and a readable dotted tail |
| Printer.PrintList | lisp.js:207-222 | under either escape, a non-empty proper list prints as its elements separated by single spaces, in parentheses |
| Printer.UnescapeEscape | lisp.js:188-197 | with backslashes doubled, unescaping the escaped text gives the text back |
| Printer.EscapeInjective | lisp.js:188-197 | with backslashes doubled, the escape never maps two texts to one |
| Printer.EscapeHasNoControls | lisp.js:193-195 | under either escape, escaped text contains no carriage return, line feed or tab |
| Printer.EscapeUnchanged | lisp.js:191-195 | under either escape, escaping never shortens text, and it leaves text as it is exactly when the text holds no character the escape rewrites (carriage return, line feed, tab, and backslash when doubled) |
| Printer.EscapePlain | lisp.js:191-195 | under either escape, text without backslashes or control characters is printed unchanged |
| Printer.EscapeAsWrittenCollides | lisp.js:192 | as written, a backslash followed by `n` and a line feed escape to the same text |
| Tokeniser.ClosingQuote | lisp.js:37 | the scan for a literal's end finds a `"` at or after the start |
| Tokeniser.ClosingQuoteSound | lisp.js:37 | what the scan passes over matches the literal's body grammar: no `"`, and a backslash escapes any character but a line terminator |
| Tokeniser.ClosingQuoteComplete | lisp.js:37 | the scan finds every closing quote whose body matches the grammar |
| Tokeniser.ExtractStrings | lisp.js:41-45 | replacing literals only appends to the side table |
| Tokeniser.ExtractStringsNoQuotes | lisp.js:62 | text without `"` is left as it is, and the table is unchanged |
| Tokeniser.ExtractStringsLiteral | lisp.js:41-45 | a lone literal whose body matches the grammar becomes `$0`, and its body, escapes kept, becomes entry 0 |
| Tokeniser.ExtractStringsPrefix | lisp.js:37-45 | text without `"` in front of the rest is kept as it is, and the rest is replaced as if it stood alone |
| Tokeniser.ExtractStringsStep | lisp.js:37-45 | at the first `"`: when the scan finds its closing quote, the literal becomes `$n`, where `n` is the number of entries so far, its body becomes entry `n`, and replacement goes on after the closing quote; when the scan finds none, the `"` is kept and replacement goes on after it |
| Tokeniser.LiteralBodyConcat | lisp.js:37 | two texts that match the literal body grammar still match it when joined |
| Tokeniser.PadNoDelimiters | lisp.js:63 | text without delimiters is not padded |
| Tokeniser.PadBrackets | lisp.js:47-57 | with `]` mapped, padding treats square brackets as parentheses |
| Tokeniser.CollapseSpaces | lisp.js:64 | collapsing keeps whether the text starts with whitespace, and keeps its first character when that is not whitespace |
| Tokeniser.CollapseSpacesNoRuns | lisp.js:64 | after collapsing, no two neighbouring characters are both whitespace |
| Tokeniser.CollapseSpacesKeepsVisible | lisp.js:64 | collapsing keeps every non-whitespace character, in order |
| Tokeniser.CollapseNoSpaces | lisp.js:64 | text without whitespace is unchanged |
| Tokeniser.TrimEnd | lisp.js:65 | trimming the end keeps a prefix, drops only whitespace, and leaves no trailing whitespace |
| Tokeniser.TrimShape | lisp.js:65 | `trim` keeps a contiguous middle part, drops only whitespace on either side, and leaves none at either end |
| Tokeniser.TrimNoSpaces | lisp.js:65 | text without whitespace is not trimmed |
| Tokeniser.Split | lisp.js:66 | splitting gives at least one piece |
| Tokeniser.SplitJoin | lisp.js:66 | joining the pieces with single spaces gives the text back |
| Tokeniser.SplitPieces | lisp.js:66 | no piece contains a space |
| Tokeniser.SplitNoSpace | lisp.js:66 | text without a space is one piece |
| Tokeniser.TokeniseWith | lisp.js:59-67 | the tokens are wrapped in a fresh cursor |
| Tokeniser.TokeniseBrackets | lisp.js:52-54 | with `]` mapped to `)`, text without literals tokenises the same whether it uses square brackets or parentheses |
| Tokeniser.TokeniseWord | lisp.js:34-68 | whether or not `]` is mapped, a word without whitespace, quotes or delimiters is one token, and the table is empty |
| Tokeniser.TokeniseLiteral | lisp.js:34-68 | whether or not `]` is mapped, a lone literal whose body matches the grammar becomes the one token `$0`, and its body, escapes kept, becomes entry 0 |
| Tokeniser.PlainIsLiteralBody | lisp.js:37 | text without quotes or backslashes matches the literal body grammar |
| Tokeniser.TokeniseWordParts | lisp.js:62-66 | whether or not `]` is mapped, passes 2 to 5 leave a word as its one piece |
| Numerals.NatToStringDigits | lisp.js:179-181 | the decimal text of a natural number is a non-empty run of digits, without a leading zero, that denotes the number |
| Numerals.LeadingIntegerOfNatToString | lisp.js:166 | `parseFloat` of the decimal text of a natural number gives that number |
| Numerals.LeadingIntegerOfNegative | lisp.js:166 | a minus sign followed by digits reads as the negated value of the digits |
| Numerals.LeadingIntegerOfIntToString | lisp.js:166 | `parseFloat` of the decimal text of any integer gives that integer |
| Numerals.SkipSpacesShape | lisp.js:166 | the whitespace `parseFloat` skips is a prefix made only of whitespace, and what is left does not start with whitespace |
| ReadPrint.ReadPrintedNumber | lisp.js:166-174 | whether or not `]` is mapped, the printed text of an integer tokenises and reads back as that number |
| ReadPrint.ReadPrintedSymbol | lisp.js:168-171 | whether or not `]` is mapped, the printed text of a plain word symbol reads back as that symbol |
| ReadPrint.ReadPrintedString | lisp.js:162-164 | under either escape and either tokeniser, the readable print of a string without quotes, backslashes, carriage returns, line feeds or tabs tokenises to `$0` and reads back as that string |
| ReadPrint.ReadLiteral | lisp.js:37-45 | a lone literal whose body matches the grammar tokenises to `$0` and reads as `"$"` followed by its body: the reader undoes no escape |
| ReadPrint.EscapedIsLiteralBody | lisp.js:37 | the escaped text of a string without quotes matches the literal body grammar, under the as-written escape only when the string also has no backslash |
| ReadPrint.ReadPrintedStringEscaped | lisp.js:41-45 | the readable print of a string without quotes (and, under the as-written escape, without backslashes) reads back as the string of its escaped text, since the reader keeps the literal's body raw |
| ReadPrint.ReadPrintedStringBack | lisp.js:186-197 | for those strings, the readable print reads back as the same string exactly when the string holds no character the escape rewrites |
| ReadPrint.PrintedQuoteReadsEmpty | lisp.js:37-45 | a string holding one `"` prints readably as `"""`, which reads back as the empty string and leaves the token `$0"` behind |
| ReadPrint.SquareBracketsAsWritten | lisp.js:52-54 | as written, `[a]` tokenises to `( a ]` and reading it throws "expected ')'"; with `]` mapped, it reads as the list `(a)` |
| Environment.FindFrom | lisp.js:387-397 | the walk from a frame on stops at the first frame owning the key, or passes every frame without finding it |
| Environment.FindVariableValue | lisp.js:387-397 | the nearest frame owning the key, or null exactly when no frame owns it |
| Environment.LookupVariableValue | lisp.js:460-468 | lookup throws "unbound variable - key" exactly when no frame owns the key |
| Environment.SetVariableValue | lisp.js:532-540 | assignment throws "unbound variable - key" exactly when no frame owns the key; on success the chain keeps its frames and keys, and the key reads as the new value |
| Environment.LookupAgreesWithVisible | lisp.js:460-468 | lookup reads the visible binding: inner frames hide outer ones |
| Environment.SetChangesOneBinding | lisp.js:532-540 | assignment rebinds the key in the owning frame only; every other frame and every other binding stays |
| Environment.SetUpdatesVisible | lisp.js:532-540 | after assignment the key reads as the new value, and every other name reads as before |
| Environment.ExtendEnvironment | lisp.js:364-381 | non-lists fail; equal lengths give undefined; more values than parameters throw "Too many arguments supplied"; fewer throw "Too few arguments supplied" |
| Environment.ExtendEnvironmentOfLists | lisp.js:364-381 | for lists built from sequences, the result depends only on comparing the two lengths |
| Syntax.IfParts | lisp.js:403-421 | the predicate, consequent and alternative of `(if p c a)`; for `(if p c)` the alternative is the symbol `false` |
| Syntax.LastExpP | lisp.js:435-437 | a sequence is at its last expression exactly when it is a pair with a nil cdr, and the test fails only on undefined |
| Syntax.SequenceToExp | lisp.js:520-530 | `sequenceToExp` fails only on undefined, with a TypeError |
| Syntax.SequenceToExpOfList | lisp.js:520-530 | nil gives nil; a one-element list gives its element; a longer list gives the undefined result of `makeBegin` |
| Syntax.ExpandClausesOfList | lisp.js:339-360 | no clauses give `false`; an `else` clause before the last throws "ELSE clause isn't last -- cond->if"; a lone last `else` clause gives its actions as one expression; every other list gives the undefined result of `makeIf` |
| Syntax.ElseClauseAlone | lisp.js:347-350 | a last `else` clause with one action gives that action unchanged |
| Syntax.DefinitionReadsFail | lisp.js:287-297 | whenever both reads succeed, either reading the variable a second time fails, or the value expression is undefined |
| Evaluator.Evl | lisp.js:576-631 | a successful evaluation gives back a chain with the same frames and keys |
| Evaluator.EvalAssignment | lisp.js:301-309 | a successful assignment gives back a chain with the same frames and keys |
| Evaluator.EvalDefinition | lisp.js:311-319 | a definition always fails: one of reading the variable, reading the value, evaluating it, or the three-argument `definitionVariable` call throws |
| Evaluator.EvalSequence | lisp.js:323-335 | a successful sequence run gives back a chain with the same frames and keys |
| EvaluatorLaws.EvalSelfEvaluating | lisp.js:578-580 | numbers and strings evaluate to themselves |
| EvaluatorLaws.EvalUnknown | lisp.js:629 | `false` and undefined throw "Unknown expression type -- EVAL" |
| EvaluatorLaws.EvalQuote | lisp.js:587-589 | `(quote x)` gives `x` unevaluated |
| EvaluatorLaws.EvalVariable | lisp.js:582-585 | a symbol's visible value is evaluated in turn; an unbound symbol throws "unbound variable - key" |
| EvaluatorLaws.EvalVariableOfValue | lisp.js:582-585 | a symbol bound to a number or a string evaluates to it |
| EvaluatorLaws.EvalIf | lisp.js:599-607 | `if` evaluates the predicate; it continues with the consequent for any value but the symbol `false`, and with the alternative or the symbol `false` otherwise |
| EvaluatorLaws.EvalIfDefaultAlternative | lisp.js:403-409 | the default alternative is looked up as a variable, so `(if 'false 1)` throws "unbound variable - false" where nothing binds it |
| EvaluatorLaws.EvalSequenceOfList | lisp.js:323-335 | `evalSequence` evaluates all but the last expression in order, threading the chain, and returns the last one unevaluated; an empty sequence gives nil |
| EvaluatorLaws.EvalBegin | lisp.js:613-616 | `(begin e1 ... en)` runs `e1` to `e(n-1)` and then evaluates `en` in the chain they leave; `(begin)` evaluates nil |
| EvaluatorLaws.EvalAssignmentOfList | lisp.js:301-309 | `(set! k e)` evaluates `e`, rebinds `k` where it is bound, and gives the symbol `ok`; an unbound `k` throws |
| EvaluatorLaws.EvalAssignmentThenLookup | lisp.js:301-309 | after a successful `set!`, the name reads as the assigned value, and every other name reads as before |
| EvaluatorLaws.EvalDefineFails | lisp.js:311-319 | `define` never succeeds |
| EvaluatorLaws.EvalCondFails | lisp.js:618-621 | `cond` never succeeds |
| EvaluatorLaws.EvalApplicationFails | lisp.js:623-627 | an application never succeeds |
| EvaluatorLaws.EvalLambda | lisp.js:609-611 | `lambda` gives undefined and leaves the chain alone |
| EvaluatorLaws.EvalSucceedsOnlyOn | lisp.js:576-631 | only numbers, strings, symbols, `quote`, `set!`, `if`, `lambda` and `begin` can evaluate without error |
| EvaluatorLaws.EvlMoreFuel | lisp.js:576-631 | once an evaluation ends without running out of fuel, more fuel gives the same answer |
| EvaluatorLaws.EvalSequenceMoreFuel | lisp.js:323-335 | the same holds for `evalSequence` |

## Left out

- The driver `console.log(print(evl(parse(tokenise(testStr)), core), true))` (lisp.js:653-656) is console I/O.
- `applyPrimitiveProcedure` and `primitiveProcedureP` (lisp.js:231-233, 496-498) call host functions through `f.apply`. They are foreign calls.
- `ap` and the accessors only it uses (`procedureParameters`, `procedureBody`, `procedureEnvironment`, `compoundProcedure`) are not modelled. Every application fails in `listOfValues` before `ap` is called.
- The frame that `extendEnvironment` fills in (lisp.js:365-373) is dropped, because the function returns nothing. Its `baseEnv` parameter therefore has no effect, and the model keeps only the arity check.
- Frames are maps, not host objects. A variable named `_parent` would collide with the parent link of the host frame, and the model does not show this.
- The value `setVariableValue` returns is not modelled. Its one caller ignores it.
- Reader.Atom reads numbers through an integer prefix only:
  - the fraction and exponent parts of `parseFloat` are not modelled, so the token `1.5` reads as 1 here;
  - a leading `.` and `Infinity` read as symbols here;
  - `-0` reads as 0.
- Printer.PrintWith gives the decimal text of a number, where the host returns the number itself and turns it into text only when it concatenates or logs it. That text is the same only for integers of magnitude below 10^21 that are exact in a double, that is, at most 2^53 in magnitude. Larger numbers are rounded by the host, and from 10^21 on they are written in exponent form. The model has unbounded integers and does not show either.
- Tokeniser: regular-expression matching is modelled character by character for the four patterns used. Code points outside the basic plane are single characters here.
- Evaluator.Evl runs on fuel, and `OutOfFuel` stands for two host outcomes. One is a loop that does not end, such as `cond` or a variable bound to itself. The other is a host stack overflow (RangeError) in the non-tail recursion, such as a symbol `x` bound to `(if x 1 2)`: evaluating `x` evaluates the predicate `x` again through `evl(ifPredicate(exp), env)` at lisp.js:600. Every other result is independent of the fuel once the fuel is enough (EvaluatorLaws.EvlMoreFuel).
- Evaluator.Evl keeps the frame chain unchanged on the `cond` path. The host assigns the expansion to its environment variable, but the path it loops back into never reads that variable.
- ReadPrint.ReadPrintedString: the read-back of a printed string holds only for strings without quotes, backslashes, carriage returns, line feeds or tabs. The reader keeps a literal's body raw (lisp.js:43), so an escaped character reads back escaped; ReadPrint.ReadPrintedStringBack states exactly when the read-back fails. The printer does not escape `"`, so a quote inside a string ends the literal early; ReadPrint.PrintedQuoteReadsEmpty shows one such case.
- TypeError stands for every host TypeError. The model does not track the host's wording of that message.

## Findings

| source | as written | input that shows it | evidently intended | confidence | as-written member | corrected member |
|---|---|---|---|---|---|---|
| lisp.js:192 | `.replace(/\\/g, "\\")` replaces each backslash with a single backslash, which changes nothing | the two-character text backslash-`n` and a one-character line feed both print readably as `"\n"` | backslashes doubled, so that readable output is unambiguous: different texts print differently (the reader still undoes no escape) | not executed | Printer.PrintAsWrittenCollides | Printer.PrintCorrectedInjective |
| lisp.js:52-54 | `if (m === ")") m = ")"` leaves `]` as it is, after `[` has been turned into `(` | `[a]` tokenises to `( a ]`, and reading it throws "expected ')'" | `]` turned into `)`, as `[` is turned into `(` | not executed | ReadPrint.SquareBracketsAsWritten | Tokeniser.TokeniseBrackets |

The model's `Printer.Print` and `Tokeniser.Tokenise` follow the code as written. `Printer.PrintWith` and `Tokeniser.TokeniseWith` take the correction as a flag: `doubleBackslash` and `closeBracket`. The lemmas that are not about a finding hold for either value of the flag.
