# A verified model of the dzconfig translator

`dzcongig/translator.py` translates a small configuration language into TOML.
A source text holds constant declarations `var name = value` and then one
root value. A value is one of:

- a hex literal `0x1F`
- an array `array(v, v, ...)`
- a map `{ key = v; key = v; }`
- a constant reference `?[name]`

The program runs four stages:

1. **Lexer.** A cursor object (`i`, `line`, `col`) that turns the text into
   tokens ending with EOF.
2. **Parser.** A recursive-descent cursor over the tokens that builds the
   syntax tree.
3. **Evaluator.** An object that fills a constant table in declaration
   order and reduces the root to ints, lists and insertion-ordered dicts.
4. **Emitter.** Pure functions that print the value as TOML: a root dict as
   one `key = value` line per key, and any other root as `value = ...`.

The model follows the source's own form:

- **Classes.** `Lexing.Lexer`, `Parsing.Parser` and `Evaluation.Evaluator`
  are classes whose methods update their fields in loops. Each method is
  proved equal to a pure function over the text, the token list or the
  table, and the properties are proved about those functions.
- **Emitter.** The emitter consists of recursive functions.

Each stage has a partner:

- **Lexer.** Its output is a well-formed token list ending with one EOF.
- **Parser.**
  - A canonical printer of syntax trees, with the round trip
    `parse(print(p)) == p`.
  - The converse: every accepted token list is the printed form of the
    tree it yields, up to token positions and hex spelling.
- **Evaluator.** Exact success conditions, the shape of arrays and maps,
  and the contents of the constant table.
- **Emitter.** A reader for the TOML it prints. The proved round trips
  cover both a single value and a whole document.
- **Pipeline.** `Translation.TranslateReadsBack` chains all four stages:
  every document the translator produces reads back as the root table of
  the evaluated program.

Files:

- `common.dfy`: result types and a sequence fact.
- `chars.dfy`: character classes, numerals.
- `tokens.dfy`, `lexer.dfy`: the lexer.
- `ast.dfy`, `parser.dfy`, `grammar.dfy`: the syntax tree, the parser, and the printer and round trips.
- `values.dfy`, `evaluator.dfy`: the value tree and the evaluator.
- `emitter.dfy`, `reader.dfy`: the emitter and its reader.
- `pipeline.dfy`: the whole translation.

Three behaviours of the code that a reader of the language might not
expect:

- **Duplicate map keys.** A key repeated inside a map keeps the position
  of its FIRST occurrence and takes the value of its last one. That is
  Python's `result[key] = value` on an existing key. One might expect the
  key to move to its last occurrence; it does not. See `Evaluation.EvaluateMap`.
- **Hex literals with no digits.** For `0x` followed by no hex digit, the
  error carries the line and column just after the `0x` prefix. Those are
  the cursor's `line` and `col` at `translator.py:103`, not the position
  of the `0` where the literal starts. See `Lexing.ScanHex`.
- **No `;` after a declaration.** A text such as `var x = 0x10; ?[x]`,
  with a `;` after the declaration as inside maps, is rejected. The code reads a declaration as `var name = value`
  with nothing after it (`translator.py:211-216`), so the `;` is where the
  root value should start, and the text is a syntax error there. See
  `Parsing.SemicolonAfterDeclaration`.

## Model

| member | source | states |
|---|---|---|
| Lexing.Lexer.constructor | dzcongig/translator.py:37-41 | a new lexer stands at index 0, line 1, column 1 of its text |
| Lexing.Lexer.Peek | dzcongig/translator.py:43-47 | `peek(n)` is the character `n - 1` places past the cursor, or nothing (`""`) past the end of the text |
| Lexing.Lexer.Advance | dzcongig/translator.py:49-59 | the index moves `n` places but never past the end. At the end nothing changes. One step over a line feed moves to the next line, column 1. One step over any other character moves one column right |
| Lexing.PosAfterStep | dzcongig/translator.py:53-59 | the line and column after one more character follow `advance`'s rule |
| Lexing.PosAfterMeaning | dzcongig/translator.py:49-59 | after reading a prefix, the line is 1 plus the number of line feeds in it. The column is 1 plus the number of characters since the last line feed |
| Lexing.RunEnd | dzcongig/translator.py:62-67 | a `while ch and p(ch)` loop stops at the first character without `p`, or at the end |
| Lexing.Lexer.SkipWs | dzcongig/translator.py:61-67 | the cursor moves over the run of whitespace to the first other character |
| Tokens.WordKind | dzcongig/translator.py:82-87 | a word is the keyword `array` or `var` exactly when it is spelled so, and an identifier otherwise |
| Lexing.ScanWord | dzcongig/translator.py:69-87 | succeeds exactly on a letter. The token text is the whole run of letters and digits. The next character is neither a letter nor a digit. The kind is `KW_ARRAY` for `array`, `KW_VAR` for `var` and `IDENT` otherwise (`Tokens.WordKind`). The token carries the line and column where the word starts |
| Lexing.Lexer.LexIdentOrKw | dzcongig/translator.py:69-87 | the method's token, error and final cursor are those of `ScanWord` |
| Lexing.ScanHex | dzcongig/translator.py:89-104 | succeeds exactly when `0x`/`0X` is followed by a hex digit. The token holds the whole run of hex digits after the prefix. Otherwise the error is missing hex digits, at the position after the prefix. The token carries the line and column of the `0` |
| Lexing.Lexer.LexHex | dzcongig/translator.py:89-104 | the method's token, error and final cursor are those of `ScanHex` |
| Lexing.SingleKind | dzcongig/translator.py:112-127 | a kind is found exactly for the ten characters `{};=(),?[]`, and it is a punctuation kind whose spelling is that character |
| Lexing.ScanToken | dzcongig/translator.py:106-135 | after the white space, EOF exactly at the end of the text. Otherwise a punctuation mark or word is exactly the text that follows the white space, and a hex token the digits after a `0x`/`0X` there. A word takes the whole run of letters and digits and a hex token the whole run of hex digits. After a `0x`/`0X` prefix the step succeeds exactly when a hex digit follows it. Every token carries the line and column where its text starts. The unexpected-character error is raised exactly when the next character starts no token (not punctuation, not `0x`, not a letter), and names that character and its position. The only other error is missing hex digits after a `0x` prefix |
| Lexing.Lexer.NextToken | dzcongig/translator.py:106-135 | the method's token, error and final cursor are those of `ScanToken` |
| Lexing.ScanFrom | dzcongig/translator.py:137-144 | a successful tokenization is a valid token list |
| Tokens.ValidTokensEndWithEof | dzcongig/translator.py:137-144 | a valid token list ends with EOF, has no earlier EOF, and every token is well-formed |
| Lexing.ScanFromStep | dzcongig/translator.py:139-143 | one round of the `tokenize` loop: an error stops it, EOF ends the list, any other token is appended |
| Lexing.Lexer.Tokenize | dzcongig/translator.py:137-144 | the method returns exactly `ScanFrom` of the text from the cursor |
| Chars.DigitValue | dzcongig/translator.py:222 | a digit's value as used by `int(s, 16)`, below 10 for decimal digits and below 16 for hex digits |
| Chars.HexValueIgnoresCase | dzcongig/translator.py:222 | `int(s, 16)` does not depend on the case of the hex digits |
| Chars.HexStringValue | dzcongig/translator.py:222 | the lower-case hex spelling of `n` reads back as `n` under `int(s, 16)` |
| Chars.DecimalString | dzcongig/translator.py:304-305 | `str(n)` is a non-empty string of decimal digits with no leading zero, except for `0` itself |
| Chars.DecimalStringValue | dzcongig/translator.py:304-305 | `str(n)` reads back as `n` |
| Parsing.Parser.constructor | dzcongig/translator.py:185-187 | a new parser stands at the first token |
| Parsing.Parser.Peek | dzcongig/translator.py:189-190 | `peek` is the token at the cursor |
| Parsing.Parser.Advance | dzcongig/translator.py:192-195 | `advance` returns the current token and moves past it |
| Parsing.ValidTail | dzcongig/translator.py:192-195 | moving past a token other than EOF leaves a valid token list |
| Parsing.ExpectKind | dzcongig/translator.py:197-201 | succeeds exactly when the next token has the expected kind, and consumes that token. The error names the expected kind, the found kind and the position |
| Parsing.Parser.Expect | dzcongig/translator.py:197-201 | the method agrees with `ExpectKind` and leaves the cursor in place on error |
| Parsing.ReadValue | dzcongig/translator.py:218-229 | a parsed value leaves a shorter valid token list. A token that cannot start a value is the expected-value error at its position |
| Parsing.Parser.ParseValue | dzcongig/translator.py:218-229 | the method agrees with `ReadValue` |
| Parsing.ReadValueArray | dzcongig/translator.py:223-224 | `array` must be followed by `(`, and the items are read after it |
| Parsing.ReadValueDict | dzcongig/translator.py:225-226 | after `{`, the entries are read from an empty list |
| Parsing.ReadArray | dzcongig/translator.py:231-241 | a parsed array leaves a shorter valid token list. What it accepts and returns: `Grammar.ReadArrayUnparse`, `Grammar.ReadArrayItemsCanonical` |
| Parsing.ReadArrayItems | dzcongig/translator.py:234-241 | the items part of `parse_array` leaves a shorter valid token list. What it accepts and returns: `Grammar.ReadArrayItemsUnparse`, `Grammar.ReadArrayItemsCanonical` |
| Parsing.ReadArrayItemsStep | dzcongig/translator.py:235-236 | a non-empty array reads its first item, then the rest of the array |
| Parsing.ReadArrayRest | dzcongig/translator.py:237-241 | the comma loop of `parse_array` leaves a shorter valid token list. What it accepts and returns: `Grammar.ReadArrayRestUnparse`, `Grammar.ReadArrayRestCanonical` |
| Parsing.ReadArrayRestStep | dzcongig/translator.py:237-239 | each comma is followed by one more item, whose error stops the loop |
| Parsing.ReadArrayClose | dzcongig/translator.py:240-241 | an array closes exactly on `)`, with the items read so far |
| Parsing.Parser.ParseArray | dzcongig/translator.py:231-241 | the method agrees with `ReadArray` |
| Parsing.ReadDict | dzcongig/translator.py:243-253 | a parsed map leaves a shorter valid token list. What it accepts and returns: `Grammar.ReadMapUnparse`, `Grammar.ReadDictEntriesCanonical` |
| Parsing.ReadDictEntries | dzcongig/translator.py:246-253 | the entry loop of `parse_dict` leaves a shorter valid token list. What it accepts and returns: `Grammar.ReadDictEntriesUnparse`, `Grammar.ReadDictEntriesCanonical` |
| Parsing.ReadDictEntriesStep | dzcongig/translator.py:246-251 | an entry before `}` is appended and the loop goes on after it |
| Parsing.ReadDictEntry | dzcongig/translator.py:247-251 | a parsed entry leaves a shorter valid token list. What it accepts and returns: `Grammar.ReadEntryUnparse`, `Grammar.ReadEntryCanonical` |
| Parsing.ReadDictEntryParts | dzcongig/translator.py:247-251 | an entry is an identifier, `=`, a value and a `;`, in that order |
| Parsing.Parser.ParseDict | dzcongig/translator.py:243-253 | the method agrees with `ReadDict` |
| Parsing.ReadConstRef | dzcongig/translator.py:255-260 | a reference is exactly `?`, `[`, an identifier, `]`, and names that identifier |
| Parsing.ReadConstRefShape | dzcongig/translator.py:255-260 | the four tokens `? [ name ]` always parse as a reference to `name` |
| Parsing.Parser.ParseConstRef | dzcongig/translator.py:255-260 | the method agrees with `ReadConstRef` |
| Parsing.ReadConstDecl | dzcongig/translator.py:211-216 | a parsed declaration leaves a shorter valid token list. What it accepts and returns: `Grammar.ReadConstDeclUnparse`, `Grammar.ReadConstDeclCanonical` |
| Parsing.ReadConstDeclParts | dzcongig/translator.py:211-216 | a declaration is `var`, an identifier, `=` and a value, and binds that name to that value |
| Parsing.SemicolonAfterDeclaration | dzcongig/translator.py:203-216 | a `;` after a declaration is not skipped: the program fails with the expected-value error at that `;` |
| Parsing.Parser.ParseConstDecl | dzcongig/translator.py:211-216 | the method agrees with `ReadConstDecl` |
| Parsing.ReadDecls | dzcongig/translator.py:204-206 | the declaration loop stops at the first token that is not `var` |
| Parsing.ReadDeclsStep | dzcongig/translator.py:205-206 | a declaration starting at `var` is appended and the loop goes on after it |
| Parsing.Parser.ParseProgram | dzcongig/translator.py:203-209 | the method returns exactly `ReadProgram` of the tokens |
| Grammar.UnparseThen | dzcongig/translator.py:218-229 | the printed tokens of a well-formed value are valid and start with a token that `parse_value` accepts |
| Grammar.ReadValueUnparse | dzcongig/translator.py:218-229 | parsing the printed tokens of a value, whatever follows them, returns the value and stops right after it |
| Grammar.ReadNumberUnparse | dzcongig/translator.py:220-222 | a printed hex literal parses back to its number |
| Grammar.ReadArrayUnparse | dzcongig/translator.py:231-241 | a printed array parses back to the same items |
| Grammar.ReadArrayItemsUnparse | dzcongig/translator.py:234-241 | printed items and `)` parse back to the same array |
| Grammar.ReadItemUnparse | dzcongig/translator.py:237-239 | each further item is a comma followed by the printed item |
| Grammar.ReadArrayRestUnparse | dzcongig/translator.py:237-241 | the comma loop reads back every remaining item, in order |
| Grammar.ReadMapUnparse | dzcongig/translator.py:243-253 | a printed map parses back to the same entries, duplicates and order included |
| Grammar.ReadEntryUnparse | dzcongig/translator.py:247-251 | a printed entry parses back to the same key and value |
| Grammar.ReadDictEntriesUnparse | dzcongig/translator.py:246-253 | the entry loop reads back every remaining entry, in order |
| Grammar.ReadConstRefUnparse | dzcongig/translator.py:255-260 | a printed reference parses back to the same name |
| Grammar.ReadConstDeclUnparse | dzcongig/translator.py:211-216 | a printed declaration parses back to the same declaration |
| Grammar.ReadDeclsUnparse | dzcongig/translator.py:204-206 | the declaration loop reads back every printed declaration, in order |
| Grammar.ReadProgramUnparse | dzcongig/translator.py:203-209 | every well-formed program prints to valid tokens that `parse_program` turns back into the same program |
| Grammar.ReadValueCanonical | dzcongig/translator.py:218-229 | whatever `parse_value` accepts is a well-formed value. Up to positions and hex spelling, the consumed tokens are exactly its printed form |
| Grammar.ReadConstRefCanonical | dzcongig/translator.py:255-260 | an accepted reference is exactly `? [ name ]` |
| Grammar.ReadArrayItemsCanonical | dzcongig/translator.py:234-241 | an accepted array has zero items, or one more item than commas, and is closed by `)` |
| Grammar.ReadArrayRestCanonical | dzcongig/translator.py:237-241 | the comma loop accepts exactly `, item` repeated and then `)` |
| Grammar.ReadEntryCanonical | dzcongig/translator.py:247-251 | an accepted entry is exactly `identifier = value ;` |
| Grammar.ReadDictEntriesCanonical | dzcongig/translator.py:246-253 | an accepted map is a sequence of entries, each ended by `;`, then `}` |
| Grammar.ReadConstDeclCanonical | dzcongig/translator.py:211-216 | an accepted declaration is exactly `var identifier = value` |
| Grammar.ReadDeclsCanonical | dzcongig/translator.py:204-206 | the declaration loop accepts exactly a sequence of declarations |
| Grammar.ReadProgramCanonical | dzcongig/translator.py:203-209 | an accepted token list is the printed form of the program it yields. It has declarations, one value, then EOF and nothing after it |
| Values.Lookup | dzcongig/translator.py:284-288 | a lookup finds nothing exactly when the key is absent |
| Values.PutKeys | dzcongig/translator.py:287 | `d[key] = v` keeps the key order when the key exists, and appends the key otherwise |
| Values.PutLookup | dzcongig/translator.py:287 | after `d[key] = v`, `key` gives `v` and every other key gives what it gave before |
| Values.PutDistinct | dzcongig/translator.py:287 | `d[key] = v` keeps the keys distinct |
| Values.AddKeysOrder | dzcongig/translator.py:285-288 | assigning to keys in turn keeps the old keys in front. Each new key appears once, ordered by first occurrence |
| Evaluation.Evaluator.constructor | dzcongig/translator.py:268-269 | a new evaluator has an empty constant table |
| Evaluation.Evaluator.EvalProgram | dzcongig/translator.py:271-277 | the result and the final table are those of `EvaluateProgram` and `FillConsts` on the table before the call |
| Evaluation.Evaluator.EvalValue | dzcongig/translator.py:279-293 | the method returns exactly `Evaluate` of the node on the current table |
| Evaluation.EvaluateSucceeds | dzcongig/translator.py:279-292 | evaluation succeeds exactly when every referenced name is in the table. Otherwise the error is an unknown constant referenced by the node and missing from the table |
| Evaluation.ItemsSucceed | dzcongig/translator.py:282-283 | array evaluation succeeds exactly when all the items' references are known |
| Evaluation.EntriesSucceed | dzcongig/translator.py:284-288 | map evaluation succeeds exactly when all the values' references are known |
| Evaluation.EvaluateArray | dzcongig/translator.py:282-283 | an array evaluates to a list of the same length, item `k` being the value of node `k` |
| Evaluation.ItemsShape | dzcongig/translator.py:282-283 | the item loop appends each item's value, in order, after the values already computed |
| Evaluation.EntriesShape | dzcongig/translator.py:284-288 | the map loop keeps the keys distinct, adds new keys in order of first occurrence, and binds each key to its last occurrence's value |
| Evaluation.EvaluateMap | dzcongig/translator.py:284-288 | a map evaluates to a dict with distinct keys: exactly the entry keys, ordered by first occurrence, each bound to the value of its last occurrence |
| Evaluation.ResolvesCons | dzcongig/translator.py:272-276 | a declaration list resolves exactly when its first declaration is new and resolvable, and the rest resolve with that name added |
| Evaluation.ResolvesEach | dzcongig/translator.py:272-276 | the declarations resolve exactly when each one is declarable: its name is neither known nor declared before it, and its value refers only to names known or declared before it |
| Evaluation.FillConstsFailure | dzcongig/translator.py:271-291 | at the first declaration that is not declarable the loop fails with the source's error: the duplicate error naming the declaration when its name is known or declared before it, and otherwise the unknown-constant error naming a constant its value refers to that is neither known nor declared before it. Forward and self references therefore give the unknown-constant error |
| Evaluation.FillConstsOutcome | dzcongig/translator.py:271-276 | the declaration loop fails exactly when a name is declared twice or a value refers to a name not declared before it. On success the table's keys are exactly the old keys and the declared names. Old entries never change. A duplicate name is already in the table; an unknown name is not |
| Evaluation.FillConstsBinds | dzcongig/translator.py:271-276 | when the declaration loop runs to the end, each declared constant holds the value of its declaration, evaluated over the table built by the declarations before it |
| Evaluation.EvaluateProgramSucceeds | dzcongig/translator.py:271-277 | `eval_program` succeeds exactly when the declarations resolve in order and the root refers only to known or declared names |
| Emission.RootLineIsPair | dzcongig/translator.py:312-319 | a dict under the root and any other value are both printed as `key = emit_value(value)` |
| Emission.EmitValueEnds | dzcongig/translator.py:303-310 | a printed value is non-empty and ends with a digit, `]` or `}` |
| Emission.JoinThen | dzcongig/translator.py:320 | a join followed by a tail is the first part, then the tail alone or the separator, the join of the other parts and the tail, which is how `"\n".join(lines) + "\n"` ends each line with one line feed |
| Emission.EmitRootCons | dzcongig/translator.py:313-320 | a root dict prints as its first key's line, a line feed, and the document of the remaining keys |
| Emission.EmitRootIsTable | dzcongig/translator.py:312-322 | a root that is not a dict prints as the table `{ value = root }` would |
| Emission.EmitRootShape | dzcongig/translator.py:312-322 | the document is empty exactly for an empty root dict. Otherwise it ends with a single line feed after the last character of a value |
| Reading.EmitThenIsEmit | dzcongig/translator.py:303-310 | the printed text of a value, built front to back, equals `emit_value` followed by what comes after it |
| Reading.ItemsThenIsJoin | dzcongig/translator.py:307-308 | list items are printed as `", ".join` of their texts |
| Reading.PairsThenIsJoin | dzcongig/translator.py:297-301 | inline-table pairs are printed as `", ".join` of `k = v` |
| Reading.ReadTextEmit | dzcongig/translator.py:303-310 | reading the text of a value returns the value and stops right after it, whatever non-digit follows |
| Reading.ReadItemsEmit | dzcongig/translator.py:307-308 | reading a printed list returns the same items |
| Reading.ReadMoreItemsEmit | dzcongig/translator.py:307-308 | reading `, item` repeated and then `]` returns the remaining items, in order |
| Reading.ReadPairEmit | dzcongig/translator.py:299-300 | reading `k = v` returns the binding |
| Reading.ReadPairsEmit | dzcongig/translator.py:297-301 | reading a printed inline table returns the same bindings in the same order |
| Reading.ReadMorePairsEmit | dzcongig/translator.py:297-301 | reading `, k = v` repeated and then ` }` returns the remaining bindings, none repeating a key |
| Reading.EmitValueReadsBack | dzcongig/translator.py:303-310 | `emit_value` round trip: the printed text reads back as the value, with nothing left over |
| Reading.LinesThenIsRoot | dzcongig/translator.py:312-320 | a root dict's document is one `k = v` line per key, in dict order, each ended by one line feed |
| Reading.ReadLinesEmit | dzcongig/translator.py:312-320 | reading the document lines returns the bindings, in order |
| Reading.EmitRootReadsBack | dzcongig/translator.py:312-322 | `emit_root` round trip: the document reads back as the root dict, or as `{ value = root }` for any other root |
| Translation.Run | dzcongig/translator.py:341-347 | the lexer, parser and evaluator objects run in turn, and printing the root gives exactly `Translate` of the source |
| Translation.PutReadable | dzcongig/translator.py:287 | assigning a readable value to a bare key keeps a dict readable |
| Translation.EvaluateReadable | dzcongig/translator.py:279-293 | a parsed node evaluated over readable constants yields a value whose tables have distinct bare keys |
| Translation.ItemsReadable | dzcongig/translator.py:282-283 | the items of an evaluated array are readable |
| Translation.EntriesReadable | dzcongig/translator.py:284-288 | the bindings of an evaluated map are readable |
| Translation.FillConstsReadable | dzcongig/translator.py:271-277 | the constants of a parsed program are readable values |
| Translation.TranslateReadsBack | dzcongig/translator.py:341-347 | any document the translator produces reads back as the root table of the evaluated program |

## Left out

- `run_cli` (lines 326-366) is left out: argument parsing, reading and writing files, messages on the error stream, and exit codes. `Translation.Run` models only the stage calls at lines 341-347.
- The `except Exception` branch (exit code 3) is left out, and so are the two ways the source reaches it on inputs the model translates:
  - `RecursionError`: `parse_value`, `parse_array` and `parse_dict` (lines 218-253), `eval_value` (279-288) and `emit_value` (303-310) recurse once per nesting level, so a value nested a few hundred levels deep exceeds Python's default recursion limit. The model has no depth limit.
  - `ValueError`: on CPython releases since September 2022 (3.11+, 3.10.7+, 3.9.14+, 3.8.14+, 3.7.14+), `str(v)` at line 305 refuses an integer of more than 4300 decimal digits, while `int(s, 16)` at line 222 reads a hex literal of any length. The model prints every integer.
- Error messages are data rather than the source's Russian texts:
  - a lexer error carries its kind and position;
  - a parser error carries the expected and found kinds and the position;
  - an evaluation error carries the constant's name.
- `str.isspace`, `isalpha`, `isalnum` and `isdigit` are restricted to ASCII. Python's Unicode tables are not modelled.
- The unsupported-type branches at lines 293 and 310 are left out because the closed datatypes make them unreachable.
- EOF is modelled as a token with empty text, standing for the source's `None` value.
- Lexing.Lexer.Peek: requires `n >= 1`. The source calls `peek()` and `peek(2)` only, so `peek(0)` is not modelled.
- Parsing.Parser.constructor: requires a valid token list, one that ends with a single EOF and whose hex tokens hold hex digits. `Lexing.ScanFrom` proves that `tokenize` always produces such a list. On other lists the source would fail with `IndexError` or `ValueError`; that is not modelled. The parse functions in `Parsing` share this precondition.
- Evaluation.Evaluator.EvalProgram: the constant table is a Dafny `map`. The source's dict also records insertion order, but nothing ever reads that order.
- The reader in `reader.dfy` is not part of the source. It makes precise what the emitted TOML means. It accepts only the subset the emitter prints, with bare keys made of letters and digits.
- Python integers are unbounded and here are `nat`. Hex literals cannot be negative, so no other integers arise. The limit of `str()` on long integers is not modelled (see the `except Exception` line above).
- TOML integers are signed 64-bit. The emitter prints a constant of 2^63 or more as it is, and a conforming TOML parser must reject that line. "Reads back" in `Reading` and `Translation` is with respect to the reader in `reader.dfy`, which accepts integers of any size.
