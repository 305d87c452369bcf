# Oto: a Dafny model of the lexer table, the expression compiler, the builtin argument pops and the bytecode dump

Oto is a small music DSL. Its source is turned into token codes, and
expressions are compiled into a five-word-per-instruction bytecode. The
bytecode runs on a stack virtual machine whose builtins (`beep`, `play`,
`print`, `sleep`, array definition, filter connection) pop their arguments
from an operand stack. This project models four pure-logic pieces of that
pipeline and proves what they promise:

- `token.dfy` (module `Token`) models the token interning table of
  `src/token/token.c`. It covers reserved-word recognition (`get_rsvword_tc`),
  lookup-or-create (`allocate_tc` and `append_tc`), and the registration
  passes of `init_token` and `init_osc_wave`. The table is a sequence of
  texts whose positions are the token codes, with a capacity `cap`
  (`MAX_TC`).
- `expr.dfy` (module `Expr`) models `src/expr.c`. It covers the priority
  comparison, the shunting-yard reordering into Reverse Polish order (`rpn`,
  as functions and as a loop method), the operator-to-opcode map (`tc2op`)
  and the emission loop of `expr`.
- `instruction.dfy` (module `Instruction`) models the argument resolution of
  the builtins in `src/vm/instruction.c`. The operand stack is a sequence of
  entries, each a variable reference, an immediate or the "omitted"
  sentinel; its last element is the top.
- `debug.dfy` (module `Debug`) models the bytecode dump of
  `src/debug/debug.c`. It covers decoding the stride-5 word array into
  instruction records (also as a loop method), rendering the records, and
  the name padding of `print_var_name` and `print_token_name`.
- `opcodes.dfy` (module `Opcodes`) holds the opcode numbers and the
  mnemonic table `opcodes[]`. `outcomes.dfy` (module `Outcomes`) holds the
  `Option` and `Result` types and the error kinds.

The files of the repository come from different revisions, so each
component is modelled against its own file and they are not wired end to
end. The token-code layout header that `expr.c` was compiled against is not
part of this model. `expr.c`'s codes are therefore a parameter `Layout`:
- operands are the codes above `TcEnd`;
- operators are the codes in `[TcEEq, TcEqu]`;
- the multiplicative operators are `TcAster`, `TcSlash`, `TcWSlash` and
  `TcPerce`;
- `SentinelApart` says that `TcEnd` is neither an operator nor
  multiplicative.

## Model

| member | source | states |
|---|---|---|
| Token.RsvwordCode | src/token/token.c:71-86 | the code of the first table entry the text spells (same length as the first spelling, and equal to the first spelling or to that many characters of the second), and 0 when it spells none |
| Token.RsvwordCodeOfSpelled | src/token/token.c:71-86 | in a table with nonzero codes where no text spells two entries, a text is recognised exactly when it spells some entry, and then as that entry's code, whatever the scan order |
| Token.SpellsEqualLength | src/token/token.c:76-83 | for a word whose two spellings have equal length, the length-gated comparisons accept exactly the two spellings |
| Token.RsvwordsProper | src/token/token.c:37-69 | the reserved-word table has nonzero codes and no text spells two of its entries |
| Token.RsvwordSpellingsRecognised | src/token/token.c:37-86 | both spellings of every reserved word are recognised, as that word's code |
| Token.RsvwordExamplesAccepted | src/token/token.c:71-86 | `if` and `IF` are recognised as `TcIf`, and `BEEP` as `TcBeep` |
| Token.RsvwordExamplesRejected | src/token/token.c:55-83 | mixed-case `If` gives 0, and lowercase `beep` gives 0 because both spellings of `BEEP` are upper case |
| Token.RsvwordCases | src/token/token.c:37-69 | every first spelling starts lower case and every second spelling upper case, except `BEEP`, which is spelled `BEEP` in both columns |
| Token.RsvwordLetters | src/token/token.c:37-69 | every second spelling in the table is all uppercase letters, and every first spelling all lowercase letters, except `BEEP` |
| Token.RsvwordCaseUniform | src/token/token.c:71-86 | any text that `get_rsvword_tc` recognises is exactly one of the two spellings of some entry, so it is all lowercase or all uppercase |
| Token.RsvwordMixedCaseRejected | src/token/token.c:71-86 | a text that is neither all lowercase nor all uppercase letters gets code 0 |
| Token.SymbolsSpellNoRsvword | src/token/token.c:22-69 | no symbol spells a reserved word, so the symbols keep their own codes after initialisation |
| Token.IndexOf | src/token/token.c:162-168 | the lookup loop finds the first code whose text equals the input, and finds none exactly when the text is absent |
| Token.Intern | src/token/token.c:154-183 | once initialised, a reserved word is answered with its reserved code and the table is unchanged; an existing text gets its existing code and the table is unchanged; otherwise the new code is the old count, the count grows by one, and the stored text is the input; a full table fails with TOO_MANY_TOKEN_ERROR; a new slot holds the parse of the text for a constant and 0 otherwise |
| Token.InternIdempotent | src/token/token.c:162-172 | interning the same text again returns the same code and leaves the table as the first call left it, whatever type the second call passes |
| Token.DistinctTextsDistinctCodes | src/token/token.c:163-172 | two distinct texts, neither answered as a reserved word, receive distinct codes |
| Token.FullTableRejectsNewText | src/token/token.c:102-104 | with the count at the capacity, a text not in the table fails with TOO_MANY_TOKEN_ERROR |
| Token.InternExisting | src/token/token.c:163-171 | a text already at code `c` and not reserved interns to `c` and leaves the table unchanged |
| Token.InternReserved | src/token/token.c:157-160 | once initialised, a reserved word interns to its reserved code and leaves the table unchanged |
| Token.AssignFloat | src/token/token.c:179 | overwrites exactly the slot of the given code and leaves the texts and every other slot unchanged |
| Token.Register | src/token/token.c:209-216 | registering distinct new names in order gives them consecutive codes from the current count, and fails with TOO_MANY_TOKEN_ERROR exactly when they do not all fit |
| Token.SetWave | src/token/token.c:188-201 | one round of `init_osc_wave` keeps the table valid and only extends it, and fails, with TOO_MANY_TOKEN_ERROR, only when the wave name is new and the table is full |
| Token.SetWaveSets | src/token/token.c:188-201 | after a round, that wave's slot holds its number and every wave already set stays set |
| Token.WavesFromSets | src/token/token.c:186-202 | after all rounds every wave name's slot holds its position in the list (sine 0 to white noise 4) |
| Token.WavesFromFresh | src/token/token.c:186-202 | when no wave name is in the table yet, the rounds append exactly the wave names, and succeed exactly when they fit |
| Token.InitOscWave | src/token/token.c:186-202 | `init_osc_wave` registers the five wave names as constants 0 to 4 and only ever fails with TOO_MANY_TOKEN_ERROR |
| Token.InitPhases | src/token/token.c:209-219 | the symbol pass, the reserved-word pass and the wave pass append exactly their names, in order, and succeed exactly when all of them fit |
| Token.InitToken | src/token/token.c:204-222 | a second call is a no-op; a first call on an empty table succeeds exactly when the capacity holds all 57 names, leaves the table initialised, and stores the symbols, then the reserved words, then the wave names |
| Token.InitTokenShape | src/token/token.c:204-222 | a first initialisation yields a valid, initialised table holding the symbols, the reserved words and the wave names in that order |
| Token.InitTokenAssignsSymbolCodes | src/token/token.c:209-212 | after initialisation each symbol interns to the code listed beside it, as the `TEST_EQ` checks assert |
| Token.InitTokenAssignsRsvwordCodes | src/token/token.c:213-216 | after initialisation both spellings of each reserved word intern to its listed code, as the `TEST_EQ` checks assert |
| Token.ReservedWordsFollowSymbols | src/token/token.c:213-216 | the code listed for each reserved word is the position at which the second pass registers its first spelling |
| Token.SymbolPhaseFits | src/token/token.c:209-212 | the symbols are distinct, and registering each one keeps the unchecked copy inside `tcsbuf` |
| Token.RsvwordPhaseFits | src/token/token.c:213-216 | registering each reserved word after the symbols, and then the wave names, keeps the unchecked copy inside `tcsbuf` |
| Token.BufUsedBound | src/token/token.c:97-114 | texts of at most `m - 1` characters use at most `m` bytes each of `tcsbuf`, counting the terminating NUL |
| Expr.Tc2Op | src/expr.c:13-28 | plus, minus, asterisk and slash map to Add, Sub, Mul and Div respectively (each if and only if), and every other code to Nop |
| Expr.Priority | src/expr.c:40-56 | the priority of a code is -99, 1 or 2 |
| Expr.PriorityClasses | src/expr.c:38-59 | the comparison is antisymmetric; operators of the same class compare 0; a multiplicative operator against a non-multiplicative, non-End code is +1; any operator is above `TcEnd` |
| Expr.PopWhile | src/expr.c:96-99 | the inner pop loop only removes a run from the top of the stack |
| Expr.RpnLoop | src/expr.c:69-111 | the loop implementation of `rpn` writes exactly the functional reordering of the window |
| Expr.ScanToken | src/expr.c:80-103 | one pass of the scanning loop over a token performs exactly one step of the functional reordering |
| Expr.RpnPermutesKept | src/expr.c:79-110 | the output holds exactly the window's operands and operators, each as often as it occurs; other tokens are dropped; operands keep their relative order; the output is no longer than the window |
| Expr.RpnNeverWritesEnd | src/expr.c:77-110 | the `TcEnd` sentinel is never written |
| Expr.PendingOperatorsBounded | src/expr.c:77-101 | after any window the operator stack is `TcEnd` under at most two operators, with priorities strictly increasing upwards |
| Expr.ScanKeeps | src/expr.c:79-104 | the scan keeps its stack in one of the three admissible shapes and accounts for every kept token, either written or pending |
| Expr.FlushKeeps | src/expr.c:106-110 | the final loop moves every pending operator to the output and leaves only `TcEnd` |
| Expr.RpnLeftAssociative | src/expr.c:89-110 | `a - b - c` becomes `a b - c -` |
| Expr.RpnProductBindsFirst | src/expr.c:89-110 | `a + b * c` becomes `a b c * +` |
| Expr.RpnProductBindsBefore | src/expr.c:89-110 | `a * b + c` becomes `a b * c +` |
| Expr.SemiFrom | src/expr.c:123-125 | the window ends at the first `TcSemi` from `pc` on, and there is none exactly when no later entry holds it |
| Expr.EmitTracked | src/expr.c:140-161 | the emission fails, always as a stack-discipline violation, exactly when some operator is reached with fewer than two tracking entries. That depth is the starting depth, plus one per operand before the operator, less two per earlier operator. On success it writes what the emission writes regardless of the tracking stack |
| Expr.NeverShortStep | src/expr.c:140-161 | the closed-form condition holds for a token run exactly when the first token finds two entries if it is an operator, and the condition holds for the rest from the depth the first token leaves |
| Expr.EmitAppend | src/expr.c:140-161 | the emission of two consecutive runs of tokens is the emission of the first followed by that of the second |
| Expr.LastOperator | src/expr.c:140-161 | the last operator of a run that has one: no operator follows it, and one fewer operator precedes it than the run holds |
| Expr.DepthAtLastOperator | src/expr.c:140-161 | the last operator finds at most the run's pushes less two per earlier operator; for `k` operators and `k + 1` operands ending in that operator it finds exactly `3 - k` |
| Expr.ChainsUnderflow | src/expr.c:148-154 | any run with two or more operators and at most one operand more than operators underflows the tracking stack, because no result is pushed back |
| Expr.EmitMatchesTokens | src/expr.c:140-161 | over operands and operators the emission writes one instruction per token, in order: `tc2op`'s opcode for an operator, a push of the variable slot for an operand |
| Expr.SingleOperatorIsSafe | src/expr.c:140-161 | `a op b` compiles to two pushes and the operator's opcode without a tracking-stack underflow |
| Expr.ChainedOperatorsUnderflow | src/expr.c:148-154 | `a - b - c` reorders to `a b - c -`, and the second operator pops from a one-entry tracking stack |
| Expr.Expr | src/expr.c:114-164 | without a `TcSemi` the scan runs off the buffer; otherwise the emission succeeds exactly when every operator of the reordered window finds two tracking entries, and then writes one instruction per reordered token: `tc2op`'s opcode for an operator, a push for an operand |
| Expr.TallyKept | src/expr.c:79-104 | the tokens the reordering drops neither push nor pop tracking entries |
| Expr.TallyPermutation | src/expr.c:79-110 | two runs holding the same tokens, in any order, push and pop the same number of tracking entries |
| Expr.ExprRejectsChains | src/expr.c:114-164 | a window with two or more operators and at most one operand more than operators, which every well-formed expression with two or more operators is, always ends in a stack-discipline violation |
| Expr.ExprAsWritten | src/expr.c:127-161 | the emission as written reads all `end - start` entries of `rpnTc`, including the ones `rpn` never wrote. It succeeds exactly when every operator of that whole run finds two tracking entries, and then writes the emission of the whole run |
| Expr.ExprAsWrittenEmitsTail | src/expr.c:127-161 | whenever the emission as written succeeds, the corrected one succeeds too; the as-written output is the corrected output followed by one instruction for each unwritten entry that holds an operand or operator code |
| Expr.ExprReadsUnwrittenEntry | src/expr.c:127-161 | for the window `a TcEnd`, `rpn` writes only `a`, yet the emission as written also emits whatever the second entry holds |
| Instruction.NumArg | src/vm/instruction.c:45-57 | an optional numeric argument: a float or constant variable gives its value, an immediate its value, the sentinel the default, any other variable ARGUMENTS_TYPE_ERROR; exactly one entry is popped |
| Instruction.PrintArg | src/vm/instruction.c:15-41 | `print` pops its one argument, and an omitted one is MISSING_ARGUMENTS_ERROR |
| Instruction.SleepArg | src/vm/instruction.c:331-339 | `sleep` pops its one argument without a type check, an omitted one is MISSING_ARGUMENTS_ERROR, and the sleep is 1000 times the value truncated toward zero |
| Instruction.Trunc | src/vm/instruction.c:333-335 | the conversion to `int64_t` truncates toward zero |
| Instruction.Beep | src/vm/instruction.c:43-74 | `beep` pops the duration first and then the frequency; each must be a number; the call receives the frequency (default 500) and the duration times 1000 (default 1) |
| Instruction.BeepDefaults | src/vm/instruction.c:53-71 | with both arguments omitted, `beep` sounds 500 Hz for 1000 ms and still pops both sentinels |
| Instruction.SoundArg | src/vm/instruction.c:77-88 | a sound variable gives that sound, the sentinel gives none, and an immediate or a non-sound variable is ARGUMENTS_TYPE_ERROR |
| Instruction.Volume | src/vm/instruction.c:104-110 | a volume outside [0, 100] becomes 80 and the safety flag forces 35, so the result always lies in [0, 100] |
| Instruction.FreqArg | src/vm/instruction.c:126-161 | an array gives its length as voice count, and its first `min(len, maxPoly)` elements as voices, each non-positive one replaced by 1; an immediate is corrected when not positive; a number variable is corrected only when it is exactly 0; the sentinel gives 500; any other variable is ARGUMENTS_TYPE_ERROR |
| Instruction.FillVoices | src/vm/instruction.c:133-141 | the fill loop writes `min(len, maxPoly)` voices |
| Instruction.FillVoicesCorrects | src/vm/instruction.c:133-141 | each filled voice is the array element with a non-positive value replaced by 1 |
| Instruction.VoicesNonzero | src/vm/instruction.c:126-161 | no voice the frequency pop yields is 0; a negative number variable is passed on unchanged |
| Instruction.PlayPops | src/vm/instruction.c:76-161 | `play_sub` pops the sound, the volume (default 80), the duration (default 1) and the frequency, in that order, and fails exactly when one of them has the wrong kind |
| Instruction.Play | src/vm/instruction.c:76-169 | `play_sub` as written. The playback data holds the copied voices and a length of sampling rate times duration. It holds the popped sound variable, or none when omitted. The volume is the popped one (default 80), replaced by 80 outside [0, 100] and forced to 35 under the safety flag |
| Instruction.VoiceCopyOverruns | src/vm/instruction.c:126-166 | an array of `maxPoly + 1` frequencies passes every check but sets the voice count one past the buffer the copy reads |
| Instruction.PlayCapped | src/vm/instruction.c:76-169 | `play_sub` with the copy capped like the fill loop, defined for every stack. The voices are the frequency pop's voices, at most `maxPoly` of them and none 0. For an array, even one longer than the buffer, they are its first `min(len, maxPoly)` elements, each non-positive one replaced by 1. Length, sound and volume are as in `Play` |
| Instruction.PlayCappedAgrees | src/vm/instruction.c:134-166 | where the voices fit the buffer, the capped copy and the code as written agree |
| Instruction.PopEntries | src/vm/instruction.c:348-382 | a counted pop returns the top `n` entries in push order and leaves the rest of the stack |
| Instruction.PopEntriesOutcome | src/vm/instruction.c:348-382 | a counted pop succeeds exactly when `n` entries are there and none is omitted; an omitted entry is ARGUMENTS_TYPE_ERROR; running out first is a stack-discipline violation |
| Instruction.DefineArray | src/vm/instruction.c:361-386 | `define_array` consumes exactly `arraysize` entries, stores them in push order (the last popped at index 0), and makes the variable an array of that length |
| Instruction.DefineArrayLoop | src/vm/instruction.c:373-385 | the loop, storing the `i`-th popped entry at index `arraysize - i - 1`, computes the same outcome as the functional definition |
| Instruction.ConnectFilter | src/vm/instruction.c:341-359 | an unconstructable filter kind is FILTER_ERROR, and that is the only way to get it; otherwise exactly the kind's parameter count of entries becomes the new filter's arguments, and exactly that filter is appended to the chain |
| Instruction.ConnectFilterOutcome | src/vm/instruction.c:341-359 | connecting a constructable kind succeeds exactly when its parameter count of entries is there and none is omitted, and then the chain grows by exactly one |
| Opcodes.Decode | src/debug/debug.c:15-49 | an opcode word names a row exactly when it indexes the table, and then names the opcode of that number |
| Opcodes.JumpFamilyContiguous | src/debug/debug.c:39-42 | `Loop`, `Jmp`, `Jz` and `Jnz` sit side by side, so the range test picks out exactly the jump family |
| Debug.OperandsFrom | src/debug/debug.c:81-90 | at most four operands, read from inside the array, and a full five-word record always decodes |
| Debug.OperandsFromShows | src/debug/debug.c:81-90 | the operands are consecutive slots; slot 1 of a jump is raw; every other shown slot is a non-zero variable reference |
| Debug.OperandsFromStops | src/debug/debug.c:81-90 | the scan ends before slot 4 only at a zero slot that is not a jump target |
| Debug.InstrAt | src/debug/debug.c:77-90 | an instruction's opcode is its first word and its index is its word offset; a full record with a valid opcode always decodes |
| Debug.DumpShape | src/debug/debug.c:71-101 | record `j` of the dump is the instruction at word `5 * j`, and only the last record is an `Exit` |
| Debug.DecodeFromPosition | src/debug/debug.c:97-98 | the `j`-th decoded record after record `k` sits at word `5 * (k + j)` |
| Debug.DecodeFromFirstExit | src/debug/debug.c:93-95 | decoding stops right after the first `Exit` |
| Debug.DecodeFromNeedsExit | src/debug/debug.c:76-99 | without an `Exit` at a multiple of five the dump never finishes |
| Debug.DumpLoop | src/debug/debug.c:71-101 | the loop, advancing five words per instruction, produces the same records as the functional decoder |
| Debug.DumpOfExitOnly | src/debug/debug.c:84-95 | a lone `Exit` decodes to one record, and a stream whose last slots lie past the end still decodes when a zero slot stops the scan first |
| Debug.JumpTargetAlwaysShown | src/debug/debug.c:82-85 | a jump's target is shown even when it is 0, while a push with a zero first slot shows no operands |
| Debug.Pad | src/debug/debug.c:51-59 | the name is right-aligned and never cut: the output has length `max(width, len)` and ends with the name after spaces |
| Debug.NatTextValue | src/debug/debug.c:79-83 | the printed decimal text reads back as the number printed |
| Debug.RenderOperand | src/debug/debug.c:82-89 | an operand column ends in four spaces, has the operand's text right before them, and is exactly 18 characters wide when the text fits its 14-wide field |
| Debug.RenderOperands | src/debug/debug.c:81-90 | the operand columns take at least 18 characters each, and exactly 18 each when every text fits |
| Debug.Line | src/debug/debug.c:79-91 | a line is the number right-aligned in a 5-wide field, `" : "`, the mnemonic right-aligned in a 9-wide field, four spaces, the operand columns, and a newline, at exactly those positions |
| Debug.RenderInstr | src/debug/debug.c:79-91 | an instruction's line is laid out as `Line` with its word offset and its opcode's mnemonic; it is exactly 18 characters longer per operand when the operand texts fit |
| Debug.TokenLine | src/debug/debug.c:61-69 | the newline token is shown as the escape `\n` and every other token by its text, unpadded |

## Left out

- `init_filter`, which `init_token` calls between the reserved words and the wave names, is not part of this model. The model registers the wave names right after the reserved words.
- `MAX_TC` and `MAX_POLYPHONIC` are defined in headers that are not part of this model. They are the parameters `cap` and `maxPoly`.
- `strtod` is the parameter `parse`, a function from text to real.
- Token: texts are assumed to contain no NUL character. The source compares texts with `strncmp` (`src/token/token.c:79-83`, `src/token/token.c:165-166`) and copies them with `strncpy` (`src/token/token.c:106`), and both stop at a NUL. So two texts of equal length that agree up to an embedded NUL are the same token there but different texts in the model, which uses sequence equality.
- Token.Intern: the unchecked copy into `tcsbuf` is carried as the precondition `Fits`, because the source does not check it.
- Token.InitToken: requires an empty table on the first call. The static table at `src/token/token.c:89-91` starts empty, and the model assumes `init_token` runs before any `allocate_tc`; no caller of `init_token` is part of this model.
- Opcodes.Decode, Opcodes.JumpFamilyContiguous: `opcode.h` is not part of this model. Each opcode's number is taken to be its row of `opcodes[]`, so these two facts hold by that choice.
- Token: the token-code header is not part of this model. The `Tc*` codes are taken from the `TEST_EQ` checks of `init_token`.
- Instruction.ConnectFilter: an immediate argument is stored as the stack entry itself. The source pops it with `vmstack_popp`, the pointer pop, unlike `define_array`, which uses `vmstack_popf`. What `vmstack_popp` yields for an immediate is not part of this model.
- `call_error` and `oto_error` are taken to abort. Each becomes an `Error` result with its error kind.
- The definitions of `vmstack_typecheck` and the `vmstack_pop*` functions are not part of this model. A pop from an empty operand stack is `Error(InternalError)`.
- The definitions of `push`, `pop` and `peek` in `expr.c` are not part of this model. A pop from fewer than two tracking entries is `Error(InternalError)`.
- Expr.Step: the operator branch tests that the stack is not empty before comparing with the top. The source peeks without that test. `PendingOperatorsBounded` proves that the stack always holds `TcEnd`, so the test never fails.
- `putIc` and the instruction array it writes are not modelled. The emission returns the list of instructions it would write, and `pc` is not advanced.
- The debug `printf`s of `expr.c`, the output text of `print` and the `printf`s of `play_sub` are left out. So are the OS calls `Beep` and `Sleep`, the playback busy-wait loops, the wave window drawing and `print_var`.
- `new_filter` and `def_filters` are the parameter `paramCount`, which gives a parameter count, or `None` for a kind it cannot construct.
- Allocation failure in `define_array` is not modelled. `arraysize` is a natural number, so a negative size is outside the model.
- Instruction.SleepArg: `int64_t` overflow of the truncated value times 1000 is not modelled, because integers are unbounded here.
- Instruction.Play: the playback length is the real product of sampling rate and duration. It is not converted to the integer field of `Playdata`.
- Instruction.Play: the volume is converted with `Floor`. That equals the source's truncation on [0, 100], which is where the volume always lies.
- Debug: an opcode word outside the table, or a read past the end of the word array, makes decoding return `None`. In the source both read memory outside the array.
- Debug.RenderDump: the printed text is assembled, but only its lines' layout is stated, not a parse back into records.
- Debug.TokenLine: the newline code is `Token.TcLF`. `debug.c` comes from an older revision whose token-code header is not part of this model.
- `print_converted_source`, `print_tokenlist` and `print_rpn_tc` only loop over `print_token_name` and `print_var_name`, so they are not modelled separately.

## Findings

| source | as written | input that shows it | evidently intended | confidence | as-written member | corrected member |
|---|---|---|---|---|---|---|
| src/expr.c:127-161 | `rpnTc` has `end - start` entries, and the emission loop reads all of them. `rpn` writes only the operands and operators. | the window `a TcEnd` (any dropped token): `rpn` writes one entry, and the loop also reads the unwritten second one | emit only the entries `rpn` wrote | not executed | Expr.ExprAsWritten, Expr.ExprReadsUnwrittenEntry | Expr.Expr |
| src/vm/instruction.c:126-166 | the fill loop stops at `MAX_POLYPHONIC` voices, but `sound_num` stays the array length, and the copy reads `sound_num` entries of the `MAX_POLYPHONIC`-entry buffer | an array of `MAX_POLYPHONIC + 1` frequencies under three omitted arguments | cap the copy and the voice count at `MAX_POLYPHONIC`, as the fill loop is capped | not executed | Instruction.Play, Instruction.VoiceCopyOverruns | Instruction.PlayCapped, Instruction.PlayCappedAgrees |
