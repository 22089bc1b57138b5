# BPL compiler front end and code generator, in Dafny

A model of the front half of a compiler for BPL, a small C-like teaching language. The
compiler is written in Python 2. The model has four parts, one Dafny module each:

- `Scanner` (scanner.dfy). The lexer, which turns source lines into tokens. It covers:
  - the 34 token kinds and the integers the home-made `enum` gives them;
  - the keyword table;
  - one step of `get_next_token`. That step drops blank lines, munches numbers and
    words, does one-character lookahead for `<`, `>`, `=`, `!` and `/`, skips
    multi-line comments and reports errors.
- `ParseTree` (parsetree.dfy). The tree the parser builds: one constructor per node class.
  Sibling chains (`next_node`) are sequences. The module also has the `__str__` printers.
- `TypeChecker` (typechecker.dfy). Pass 1 of the type checker (`find_references`).
  - The symbol table is a stack of scopes. Scope 0 holds the globals. Each function
    pushes its parameters and each compound statement pushes its locals.
  - Every variable, array and call expression is linked to the declaration it names.
    A call is looked up in scope 0 only.
  - Each `TypeCheckerException` becomes an error value. So do the Python runtime errors
    the pass can hit:
    - an `AttributeError` on a missing expression or a nameless top-level node;
    - the `NameError` raised for an unknown expression kind.
- `CodeGenerator` (codegenerator.dfy). `compute_offsets` and the assembly text that
  `generate_code` writes.
  - Parameters get offsets +8, +16, and so on.
  - Block locals are placed downward from the offset their block starts at.
  - A function's `local_var_offset` is the summed total that `compute_offsets_statement`
    returns.
  - The text written is the `.rodata` header, then a five-line block per function:
    label, frame pointer, `sub`, `add`, `ret`.
  - `gen_code_statement` for `write` is modelled with a small abstraction of the
    registers.

`Wrappers` (wrappers.dfy) holds `Option` and `Result`. `Decimal` (decimal.dfy) holds the
decimal text of an integer, as `str`/`format` print it.

Annotations that the later passes add are `Option` fields that start as `None`: a
declaration link, an offset and `local_var_offset`. `ParseTree.Bare` erases them. Most
"nothing else changes" properties say the erased tree is unchanged.

What the model establishes about the pipeline:

- Type checking succeeds exactly when the program is well scoped
  (`TypeChecker.WellScopedDecls`, the condition `TypeChecker.TypeCheck` states). That
  means all of the following:
  - every name is in scope where it is used, and every call names a global;
  - no statement is a `read` statement or any other kind the pass does not handle;
  - no expression statement is empty and no `return` is bare;
  - every parameter, every block local and every top-level item other than a function
    is a variable or array declaration.
  Its output is then the input with links added.
- The checked tree always meets the code generator's assumptions
  (`CodeGenerator.TypeCheckedHasFrameShape`).
- A function's `local_var_offset` is at most 0, and every block local of its body lies
  between it and 0 (`CodeGenerator.FrameCoversLocals`). The summed totals reach further
  down than the deepest block needs (`CodeGenerator.SummedTotalsOverAllocate`).

## Model

| member | source | states |
|---|---|---|
| Scanner.Range | Scanner.py:3 | `range(n)` has length n and holds k at position k |
| Scanner.DictZip | Scanner.py:66 | `dict(zip(keys, values))` binds exactly the keys; a repeated key keeps the value paired with its last occurrence |
| Scanner.Enum | Scanner.py:2-4 | the enum binds exactly the listed names; with distinct names each is bound to its position |
| Scanner.TokenTypeValues | Scanner.py:7-40 | there are 34 distinct token kinds, the enum gives each its ordinal below 34, and no two kinds share a value |
| Scanner.ListedInOrder | Scanner.py:7-40 | the kind list and the ordinal are inverse: the kind at position k has ordinal k and vice versa |
| Scanner.KeywordsDistinct | Scanner.py:62-63 | the ten keywords are pairwise different |
| Scanner.KeywordTokenOrdinals | Scanner.py:64-65 | the ten keyword kinds are the consecutive values 2..11 in table order |
| Scanner.KeywordTable | Scanner.py:62-66 | `keyword_hash` holds exactly the ten keywords, each mapped to its own kind |
| Scanner.KeywordTableInjective | Scanner.py:62-66 | no two keywords share a kind, and no keyword maps to the identifier kind |
| Scanner.KeywordIndex | Scanner.py:93-94 | a word in the table stands at a position k of the keyword list and its kind has value k + 2 |
| Scanner.Init | Scanner.py:57-61 | a new scanner starts at line 1 with no token and an open file, and has lost none of the input text |
| Scanner.RunEnd | Scanner.py:82-84 | the digit, word and whitespace loops stop at the end of the maximal run: every character before is in the class and the one at the end is not |
| Scanner.SkipComment | Scanner.py:165-177 | the comment loop either stops at the first terminator, with the lines it read counted, or fails with no terminator on the rest of the line; it fails on a closed file only when the file is closed |
| Scanner.SkippedToHere | Scanner.py:167 | a terminator at the cursor ends the loop where it stands |
| Scanner.SkipCommentNextChar | Scanner.py:176-177 | moving past a non-terminator does not change where the loop stops |
| Scanner.SkippedToNextChar | Scanner.py:176-177 | a terminator ahead of the cursor is still ahead after one step past a non-terminator |
| Scanner.SkippedToNextLine | Scanner.py:168-175 | a terminator on a later line is reached from the start of the next non-empty line, with the line counter raised by one |
| Scanner.SkipCommentNextLine | Scanner.py:168-175 | reading and counting one more line does not change where the loop stops |
| Scanner.SkipCommentFindsClose | Scanner.py:165-178 | whenever the first terminator lies ahead, the loop returns exactly that position |
| Scanner.SkipCommentNeverCloses | Scanner.py:168-172 | when the input runs out with no terminator, the loop fails |
| Scanner.GetNextToken | Scanner.py:68-79 | a successful step never lowers the line counter and never un-reads input |
| Scanner.ScanToken | Scanner.py:80-192 | the same for the dispatch on the first non-blank character |
| Scanner.ScanComment | Scanner.py:162-180 | the same for the comment branch, which rescans after the terminator |
| Scanner.StartsAt | Scanner.py:69-80 | when a token starts at i, the step is the dispatch on the character at i |
| Scanner.BlankLineAdvances | Scanner.py:77-79 | a whitespace-only line is dropped; the step equals the step on the next line with the counter raised by one |
| Scanner.EndOfInput | Scanner.py:73-76 | at the end of input the step yields an end-of-file token with empty text on the current line and closes the file |
| Scanner.ClosedInputFails | Scanner.py:72-73 | a step that needs another line of a closed file fails |
| Scanner.ScansNumber | Scanner.py:81-87 | a digit starts a number token that is exactly the maximal digit run; the rest of the line follows it |
| Scanner.ScansWord | Scanner.py:88-97 | a letter starts the maximal alphanumeric run; its kind is the keyword's own kind, and it is the identifier kind exactly when the run is not a keyword |
| Scanner.ScansSingleChar | Scanner.py:98-127 | the punctuation and one-character operators, including `*`, `%` and `&` further down the same dispatch, consume exactly their character and give their kind |
| Scanner.ScansComparison | Scanner.py:128-158 | `<`, `>`, `=` and `!` followed by `=` give `T_LEQ`, `T_GEQ`, `T_EQ` and `T_NEQ` and consume both characters; otherwise `<`, `>` and `=` give `T_LESS`, `T_GREATER` and `T_ASSIGN` and consume one, and a lone `!` leaves the scanner unchanged |
| Scanner.LookaheadAtEnd | Scanner.py:128-130 | a lookahead character last on a line with no newline reads past the end of the line, an error at line and index i + 1 |
| Scanner.ScansDivision | Scanner.py:181-183 | a slash not followed by a star is the division token |
| Scanner.UnidentifiableCharacter | Scanner.py:190-192 | any other character is an error naming its line and index |
| Scanner.DispatchesComment | Scanner.py:163-164 | a slash followed by a star leads to the comment branch |
| Scanner.CommentResumes | Scanner.py:178-180 | after the loop, scanning resumes two characters past the terminator with the counted line number |
| Scanner.SkipsComment | Scanner.py:162-180 | a comment is skipped whole: the step equals the step after the first terminator |
| Scanner.UnclosedCommentFails | Scanner.py:169-172 | a comment open at the end of input is an error at the line and index where it began |
| ParseTree.NodeTypesListedInOrder | bpl/parser/parsetree.py:10-33 | there are 23 distinct node kinds; the kind list and the ordinal are inverse |
| ParseTree.NodeTypeValues | bpl/parser/parsetree.py:10-33 | the enum gives each node kind its ordinal below 23, and no two kinds share a value |
| ParseTree.BaseString | bpl/parser/parsetree.py:40-43 | the base string begins `Line `; `BaseStringReadsBack` shows that it determines the line number and the class name |
| ParseTree.BaseStringReadsBack | bpl/parser/parsetree.py:40-43 | two nodes with the same base string have the same line number and class name |
| ParseTree.Str | bpl/parser/parsetree.py:56-317 | every printout begins with the node's `Line <n>: <class name>` base string; `OwnIsBaseAndDetails`, `StrSplitsAtHead` and `ChainPrintsEveryNode` state the rest of it |
| ParseTree.StrIfNotNone | bpl/parser/parsetree.py:334-339 | `str_if_not_none` prints nothing exactly for an absent node, and otherwise a newline and then a printout that begins `Line ` |
| ParseTree.StrOrNone | bpl/parser/parsetree.py:72-77 | a parameter chain printed with plain `str` reads `None` exactly when it is absent |
| ParseTree.StrOpt | bpl/parser/parsetree.py:154-161 | an optional node printed with plain `str`, such as a missing else branch, reads `None` exactly when it is absent |
| ParseTree.Details | bpl/parser/parsetree.py:56-330 | what each class prints between its base string and its siblings; `OwnIsBaseAndDetails`, `ArrayDecPrintsAsVarDec` and `IfWithoutElsePrintsNone` state it |
| ParseTree.OwnIsBaseAndDetails | bpl/parser/parsetree.py:334-339 | a node without siblings prints its base string and its own fields, since `str_if_not_none(None)` is empty |
| ParseTree.StrSplitsAtHead | bpl/parser/parsetree.py:334-339 | a node with siblings prints itself, a newline, then the chain of siblings |
| ParseTree.ChainPrintsEveryNode | bpl/parser/parsetree.py:334-339 | a chain with no read expression before its end prints every node's own printout, newline separated, in order |
| ParseTree.ReadExpHidesSiblings | bpl/parser/parsetree.py:316-317 | a read expression prints only `Line n: ReadExpNode`; its siblings never appear |
| ParseTree.ArrayDecPrintsAsVarDec | bpl/parser/parsetree.py:82-85 | an array declaration prints as a variable declaration: neither its size nor the pointer flag appears |
| ParseTree.IfWithoutElsePrintsNone | bpl/parser/parsetree.py:154-161 | an `if` with no else prints `None` in the else slot, while its siblings go through `str_if_not_none` |
| TypeChecker.ErrorMessageFormat | bpl/type_checker/type_checker.py:8-11 | the exception text is the fixed prefix with the line number, followed by the message unchanged |
| TypeChecker.Lookup | bpl/type_checker/type_checker.py:18-26 | lookup finds a declaration exactly when some scope binds the name, and it is the innermost binding |
| TypeChecker.InnermostUnique | bpl/type_checker/type_checker.py:23-25 | the innermost binding of a name is unique |
| TypeChecker.PushedScopeShadows | bpl/type_checker/type_checker.py:23-25 | a pushed scope binding the name shadows every outer binding; one that does not leaves lookup unchanged |
| TypeChecker.ScopeOf | bpl/type_checker/type_checker.py:79-85 | a declaration list gives a scope exactly when all its items are variable or array declarations; the scope binds exactly their names, each to its last declaration; otherwise the error names the first bad item |
| TypeChecker.ResolveExpression | bpl/type_checker/type_checker.py:97-145 | resolution succeeds exactly when the expression is well scoped (`WellScopedExp`): every node is one of the ten handled expression kinds, every variable or array name is bound in some scope, and every call names a global; the result is the input with links added, each to the declaration that lookup gives (scope 0 for calls); an array's index expression is left unresolved |
| TypeChecker.ResolveOperands | bpl/type_checker/type_checker.py:134-139 | the same for operator, address, dereference and negation expressions |
| TypeChecker.ResolveExpressions | bpl/type_checker/type_checker.py:129-132 | the same for the argument list of a call |
| TypeChecker.ResolveOptExpression | bpl/type_checker/type_checker.py:97-98 | the same for a slot that may be empty; an empty slot is an `AttributeError` on `None` |
| TypeChecker.ResolveStatement | bpl/type_checker/type_checker.py:54-95 | a statement resolves exactly when it is well scoped (`WellScopedStmt`): every statement is one of the seven handled kinds, so not `read`; no expression slot is empty; every expression is well scoped; and its blocks declare only variables and arrays; the links are added to an otherwise unchanged statement; the symbol table is restored |
| TypeChecker.ResolveIf | bpl/type_checker/type_checker.py:72-76 | the same for `if`, with the else branch optional |
| TypeChecker.ResolveBlock | bpl/type_checker/type_checker.py:78-92 | the same for a compound statement, whose scope is pushed and popped; a bad local declaration gives the local-declaration error |
| TypeChecker.ResolveStatements | bpl/type_checker/type_checker.py:88-91 | the same for a block's statement list |
| TypeChecker.ResolveDecls | bpl/type_checker/type_checker.py:28-52 | the top level resolves exactly when it is well scoped (`WellScopedDecls`): every item is a variable, array or function declaration, every function's parameters are variable or array declarations, and each function body is well scoped under the globals declared so far plus its parameters; the output is the input with links added |
| TypeChecker.TypeCheck | bpl/type_checker/type_checker.py:13-15 | type checking starts from one empty global scope: it succeeds exactly when `WellScopedDecls` holds from there, and the output is the input with links added |
| TypeChecker.DeclareBinds | bpl/type_checker/type_checker.py:31-32 | entering the declarations in order binds exactly the earlier globals and their names |
| TypeChecker.DeclareLast | bpl/type_checker/type_checker.py:32 | the declaration entered last keeps its name's binding |
| TypeChecker.FunctionSeesEarlierDeclarations | bpl/type_checker/type_checker.py:31-49 | a checked function's body is linked under the globals up to and including itself, plus its own parameters |
| TypeChecker.CallResolvesGlobally | bpl/type_checker/type_checker.py:114-121 | a call to a name missing from scope 0 is an undeclared-function error; a resolved call links to scope 0's binding, whatever inner scopes hold |
| TypeChecker.UndeclaredVariableFails | bpl/type_checker/type_checker.py:98-104 | a variable or array name bound in no scope is an undeclared-variable error at the expression's line |
| TypeChecker.BlockScopeShadows | bpl/type_checker/type_checker.py:87-92 | inside a block, a variable links to the block's own declaration of the name |
| TypeChecker.ArrayIndexNotResolved | bpl/type_checker/type_checker.py:98-105 | an array expression with a bound name resolves, and its index expression is left as it was |
| TypeChecker.LiteralsCreateNoLinks | bpl/type_checker/type_checker.py:141-142 | number, string and read expressions resolve to themselves |
| TypeChecker.NonExpressionFails | bpl/type_checker/type_checker.py:144-145 | any other node in an expression slot raises the `NameError` for the unbound `statement` |
| TypeChecker.NonStatementFails | bpl/type_checker/type_checker.py:94-95 | any node outside the seven handled statement kinds is rejected at its line; a `read` statement is among the rejected nodes |
| TypeChecker.MissingExpressionFails | bpl/type_checker/type_checker.py:56-64 | an empty expression statement or a bare `return` is an `AttributeError` on `None` |
| TypeChecker.BadLocalDeclarationFails | bpl/type_checker/type_checker.py:81-83 | a block with a non-declaration local fails at the first one, at its line |
| TypeChecker.BadParameterFails | bpl/type_checker/type_checker.py:40-42 | a function with a non-declaration parameter fails at the first one, at its line |
| TypeChecker.BadTopLevelFails | bpl/type_checker/type_checker.py:31-52 | a named top-level item that is neither a declaration nor a function is rejected at its line; one without a name is an `AttributeError` |
| TypeChecker.CallStatementResolves | bpl/type_checker/type_checker.py:114-121 | a call statement to a global function links the call to it |
| TypeChecker.CallBlockResolves | bpl/type_checker/type_checker.py:78-92 | a block holding one such call resolves to the same block with the link added |
| TypeChecker.OneStatementBlock | bpl/type_checker/type_checker.py:78-92 | a block with no declarations resolves as its one statement does under an extra empty scope |
| TypeChecker.SelfRecursionResolves | bpl/type_checker/type_checker.py:32-47 | a function can call itself: it is bound in scope 0 before its body is resolved |
| TypeChecker.LaterFunctionIsUndeclared | bpl/type_checker/type_checker.py:115-119 | calling a function declared later in the program is an undeclared-function error |
| TypeChecker.EarlierFunctionResolves | bpl/type_checker/type_checker.py:31-47 | the same call succeeds when the callee is declared first |
| CodeGenerator.WithOffset | bpl/code_generator/code_generator.py:48 | setting a declaration's offset keeps it a declaration and gives it exactly that offset |
| CodeGenerator.ParameterOffsets | bpl/code_generator/code_generator.py:31-36 | the k-th parameter (from 0) gets offset 8(k + 1), and nothing else changes |
| CodeGenerator.LocalOffsets | bpl/code_generator/code_generator.py:42-49 | a block's declarations stay declarations, and the offset after them is lowered by 8 per slot (an array's size, one for a variable) |
| CodeGenerator.LocalOffsetAt | bpl/code_generator/code_generator.py:42-49 | the k-th local gets the start offset lowered by the slots of the first k + 1 locals |
| CodeGenerator.LocalOffsetsKeepDeclarations | bpl/code_generator/code_generator.py:42-49 | setting the offsets changes nothing else in the declarations |
| CodeGenerator.LocalOffsetsDecrease | bpl/code_generator/code_generator.py:42-49 | with positive sizes, each local sits strictly below every local declared before it |
| CodeGenerator.StatementOffsets | bpl/code_generator/code_generator.py:40-71 | the statement keeps its line, a block stays a block, and a statement that cannot hold a block is unchanged with total 0; `TotalNonPositive`, `LocalsWithinFrame` and `OffsetsKeepStatement` state the totals, the offsets and that nothing else changes |
| CodeGenerator.BlockOffsets | bpl/code_generator/code_generator.py:41-56 | the block keeps its line and the number of its locals and statements; `BlockLocalsWithinFrame`, `OwnLocalsWithin` and `OffsetsKeepStatement` state its offsets and total |
| CodeGenerator.StatementsOffsets | bpl/code_generator/code_generator.py:52-55 | the loop over a block's statements annotates each of them |
| CodeGenerator.OffsetsKeepStatement | bpl/code_generator/code_generator.py:40-71 | computing a statement's offsets changes nothing but the offset annotations |
| CodeGenerator.OffsetsKeepStatements | bpl/code_generator/code_generator.py:52-55 | the same for a block's statement list |
| CodeGenerator.FunctionOffsets | bpl/code_generator/code_generator.py:30-37 | a function keeps its name and parameter count; parameter k gets offset 8(k + 1); `local_var_offset` is its body's computed total |
| CodeGenerator.OffsetsKeepFunction | bpl/code_generator/code_generator.py:30-37 | annotating a function changes nothing but the annotations |
| CodeGenerator.ComputeOffsets | bpl/code_generator/code_generator.py:27-38 | every function is annotated and every other top-level item is left as it was |
| CodeGenerator.OffsetsKeepProgram | bpl/code_generator/code_generator.py:27-38 | annotating the program changes nothing but the annotations |
| CodeGenerator.TotalNonPositive | bpl/code_generator/code_generator.py:40-71 | from a non-positive offset, with non-negative array sizes, a statement's total is non-positive |
| CodeGenerator.TotalsNonPositive | bpl/code_generator/code_generator.py:51-56 | the same for a block's statement list |
| CodeGenerator.LocalsWithinFrame | bpl/code_generator/code_generator.py:40-71 | every local of every block in a statement gets an offset between the statement's total and the offset it started from |
| CodeGenerator.BlockLocalsWithinFrame | bpl/code_generator/code_generator.py:41-56 | the same for a compound statement: its own locals, and its statements' locals under the summed total |
| CodeGenerator.OwnLocalsWithin | bpl/code_generator/code_generator.py:42-49 | a block's own locals lie between the offset after them and its start offset |
| CodeGenerator.StatementsLocalsWithinFrame | bpl/code_generator/code_generator.py:51-56 | the statements of a block, all started from one offset, keep their locals within the block's summed frame |
| CodeGenerator.FrameCoversLocals | bpl/code_generator/code_generator.py:37 | a function's `local_var_offset` is non-positive and every block local of its body lies between it and 0 |
| CodeGenerator.SummedTotalsOverAllocate | bpl/code_generator/code_generator.py:51-56 | a block with one local and two sibling blocks of one local each gets total -40, though its deepest local is at -16 |
| CodeGenerator.LinkedStmtFrameShape | bpl/type_checker/type_checker.py:78-92 | a statement the checker linked has only variable and array declarations in its blocks |
| CodeGenerator.LinkedStmtsFrameShape | bpl/type_checker/type_checker.py:88-91 | the same for a statement list |
| CodeGenerator.TypeCheckedHasFrameShape | bpl/code_generator/code_generator.py:44-47 | every tree that passes `type_check` meets the generator's assumption that parameters and locals are variable or array declarations |
| CodeGenerator.RenderParts | bpl/code_generator/code_generator.py:73-83 | a written instruction line is a tab, the opcode, the operands, ` #`, the comment and a newline, at fixed positions |
| CodeGenerator.RenderAll | bpl/code_generator/code_generator.py:73-83 | a list of instructions is written as one line per instruction, in order |
| CodeGenerator.RenderSplits | bpl/code_generator/code_generator.py:73-83 | two such lines with opcodes and comments of the same lengths are equal exactly when opcode, operands and comment agree |
| CodeGenerator.ImmediateReadsBack | bpl/code_generator/code_generator.py:76-77 | distinct integer immediates give distinct lines |
| CodeGenerator.GenHeader | bpl/code_generator/code_generator.py:85-93 | the header is the eight lines: `.rodata`, the five labelled format strings in order, `.text`, `.globl main` |
| CodeGenerator.GenCodeFunction | bpl/code_generator/code_generator.py:95-101 | a function's block is five lines |
| CodeGenerator.FunctionBlockLines | bpl/code_generator/code_generator.py:95-101 | those lines are the label, `movq %rsp, %rbx`, `sub` and `add` of `local_var_offset` on `%rsp`, and `ret` naming the function; no body code comes between them |
| CodeGenerator.AllocationReadsBack | bpl/code_generator/code_generator.py:98 | the `sub` line determines `local_var_offset`: two functions with the same line have the same frame size |
| CodeGenerator.ItemCode | bpl/code_generator/code_generator.py:23-24 | a function item writes five lines and any other item writes none |
| CodeGenerator.FunctionsCode | bpl/code_generator/code_generator.py:21-25 | the declaration loop writes five lines per function |
| CodeGenerator.FunctionsCodeLayout | bpl/code_generator/code_generator.py:21-25 | the function at position k owns the five lines right after those of the functions before it |
| CodeGenerator.GenerateCode | bpl/code_generator/code_generator.py:17-25 | the output is the header followed by one five-line block per function, in program order, each generated from the annotated function |
| CodeGenerator.FunctionBlockAt | bpl/code_generator/code_generator.py:17-25 | the block at a function's position is generated from that function after `compute_offsets` |
| CodeGenerator.GeneratedFrameSize | bpl/code_generator/code_generator.py:98-100 | in the output, a function's `sub` and `add` lines carry its body's computed total |
| CodeGenerator.GenCodeStatement | bpl/code_generator/code_generator.py:103-112 | `write` of an integer is five instructions ending in the `printf` call; `write` of a string moves the string into `%rax`; another write expression is an `AttributeError`; other statements give no code |
| CodeGenerator.StringWriteRuns | bpl/code_generator/code_generator.py:111-112 | the string case leaves the string in `%rax` and nothing else known |
| CodeGenerator.WriteIntRegisters | bpl/code_generator/code_generator.py:106-110 | the four moves before the call leave the accumulator cleared, the format label in `%rdi`, and the integer in the register it was moved to unless the label overwrote it |
| CodeGenerator.WriteIntLosesValue | bpl/code_generator/code_generator.py:106-110 | as written, at the call `%rdi` holds the format label, `%rsi` holds nothing, and when the integer is nonzero no register holds it |
| CodeGenerator.IntendedGenCodeStatement | bpl/code_generator/code_generator.py:103-112 | with `%esi`, the same shape, and at the call `printf` finds the format label in `%rdi` and the integer in `%rsi` |
| CodeGenerator.WriteIntPassesValue | bpl/code_generator/code_generator.py:106-110 | moving the integer into `%esi` puts the format label and the integer where `printf` reads them |

## Left out

- The parser (bpl/parser/parser.py) is not part of this model. Trees are built directly from the `ParseTree` constructors.
- Pass 2 of the type checker (`type_check_top_level`, `type_check_statement`) is left out: in the source it is unfinished and not valid Python, and `type_check` never calls it.
- File I/O is modelled by its effect. The scanner's input file is a list of lines as `readline` returns them, and `""` means end of file. The generator's output file is the list of strings passed to `write`. The command-line driver (`bpl/__main__.py`, `Scanner.main`) is left out.
- The `debug` printing of the type checker is left out, since it only prints.
- `exit()` after the scanner's two error messages is modelled as an error result carrying the line and index. `Scanner.ErrorMessage` gives the printed text.
- Character classes are ASCII. The source is Python 2 on byte strings, so `isspace`, `isdigit`, `isalpha` and `isalnum` are ASCII tests. Unicode is not modelled.
- Python object identity is left out. A declaration link and an offset are values in the model; in the source they are shared references. A link is a copy of the declaration as the symbol table held it, which may itself be unannotated.
- The `kind` constructor argument of the tree nodes is left out. Each node's kind follows from its class (`ParseTree.Kind`).
- The `**named` argument of `enum` is left out, since the source never passes one.
- `gen_code_statement` is modelled on its own. `generate_code` never calls it, so the generated text contains no statement code, as in the source.
- CodeGenerator.GenCodeStatement: the string branch of the source ends after moving the string into the accumulator, and the model writes only that move.
- CodeGenerator.GenCodeStatement: `movl` of an integer literal is not truncated to 32 bits. The immediate is printed as given, and the register model holds the unbounded value.
- The register model (`CodeGenerator.Run`) tracks only which values the moves place in the 64-bit registers. It does not model the effect of `call`, `sub`, `add` or `ret`, the memory, or flags.
- The generator writes `sub $N, %rsp` with the non-positive total N. That moves the stack pointer up instead of reserving the frame below it. The model keeps this as written and states the sign (`CodeGenerator.FrameCoversLocals`), but it is not logged as a finding because the text of the instruction is what the source promises.
- A function whose `local_var_offset` was never set would print `None` in its `sub` and `add` lines (`CodeGenerator.ImmediateOf`). `generate_code` always sets it first.
- Lookahead past the end of a line with no trailing newline is not assumed away. It is modelled as the `IndexError` it raises (`Scanner.LookaheadPastEnd`).
- `Token.__str__` is modelled as `Scanner.TokenToString` without a contract of its own. Only the driver's printing loop uses it.
- Scanner.GetNextToken: its contract states only that the line counter and the input move forward. What each branch yields is stated by the lemmas from `Scanner.StartsAt` to `Scanner.UnclosedCommentFails`.
- CodeGenerator.GenCodeFunction: its contract states only the line count. `CodeGenerator.FunctionBlockLines` states the five lines.
- ParseTree.Details: it has no contract of its own. `ParseTree.OwnIsBaseAndDetails`, `ParseTree.ArrayDecPrintsAsVarDec` and `ParseTree.IfWithoutElsePrintsNone` state what it prints.
- CodeGenerator.StatementOffsets: its contract states only that the line is kept, that a block stays a block, and that a statement without blocks is unchanged with total 0. The totals are stated by `CodeGenerator.TotalNonPositive` and `CodeGenerator.LocalsWithinFrame`, and the unchanged statement by `CodeGenerator.OffsetsKeepStatement`.
- CodeGenerator.BlockOffsets: its contract states only the shape of the block. Its offsets and total are stated by `CodeGenerator.BlockLocalsWithinFrame` and `CodeGenerator.OwnLocalsWithin`.
- CodeGenerator.StatementsOffsets: its contract states only the length. The totals are stated by `CodeGenerator.TotalsNonPositive` and `CodeGenerator.StatementsLocalsWithinFrame`, and the unchanged statements by `CodeGenerator.OffsetsKeepStatements`.

## Findings

| source | as written | input that shows it | evidently intended | confidence | as-written member | corrected member |
|---|---|---|---|---|---|---|
| bpl/code_generator/code_generator.py:107 | `write` of an integer moves it from `%eax` into `%edi`; the next line then loads the format label into `%rdi`, which overwrites it, and `%rsi` is never set | the statement `write(5);` | move into `%esi`, the second argument register that `printf` reads the integer from, as the line's comment "arg2" says | not executed | CodeGenerator.WriteIntLosesValue | CodeGenerator.WriteIntPassesValue |
