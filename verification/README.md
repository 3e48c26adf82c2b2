# Hack assembler, modelled in Dafny

This project models the assembler for the Hack computer in `src/main.cpp` and `src/hash.hpp`. The assembler reads one source text and produces one text of 17-character records. Each record is sixteen `0`/`1` characters and a newline, one record per instruction.

The model follows the program's passes:

- **Lexer** (`set_digits`, `set_tokens`). Text becomes tokens: names, literals of at most 15 bits, and the one-character symbols `( ) @ = ; + - ! & |`. Blanks and `//` comments are skipped.
- **Parser** (`set_insts`, with `parse_address`, `parse_label`, `parse_compute`, `get_dest`, `get_comp`, `get_jump` and `get_predef`). Tokens become address, symbolic and compute instructions. Each label `(NAME)` is bound to the number of instructions before it.
- **Symbol tables** (`hash.hpp`). A fixed-size open-addressing table keyed by the FNV-1a 32-bit hash, probed linearly.
- **Resolver** (`resolve_labels`). Each symbolic address becomes the label's value if the name is a label. Otherwise it becomes the address of a variable: 16 plus the variable's position in order of first use.
- **Encoder** (`set_bytes`, `emit`). Each instruction becomes its 16-bit word, written as four 4-character groups.
- **Diagnostics** (`print`). A 1-based line and column for an offset into the text.

Every capacity of the program is a field of `Syntax.Limits`. `Syntax.Source` holds the program's own values: 2^19 characters, 2^17 tokens, 0x7FFF instructions, 4513 labels and 131 variables. Every capacity error and every syntax error is the single payload-free `Failure` of `Results.Result`.

Each operation has a partner:

- the lexer has a renderer (`Lexer.Render`) it reads back;
- the parser has a line-by-line description of programs (`Written.Place`);
- the resolver has a reference reading (`Resolver.ResolvedAs` over `Resolver.VarNames`);
- the encoder has a decoder (`Encoder.Unrecords`);
- the hash table has a validity invariant (`Hash.Valid`).

`Assembler.Assemble` chains the passes. `Assembler.AssembleWritten` states the end-to-end result for every program written in the supported forms. `Assembler.AddProgram` works the add-two-numbers program through the whole pipeline.

Three behaviours of the code are kept exactly as written, although they differ from what the assembler is meant to accept:

- **Literals wrap without error.** An overflowing literal is meant to be rejected, but it is accumulated in a u16. The wrap check only rejects a step that lowers the accumulator, so some literals above 65535 wrap and are accepted (`Lexer.WrappedLiteral`: `72820` reads as 7284).
- **A bare computation is never accepted.** A computation with neither destination nor jump is meant to be accepted. Instead, `parse_compute` looks for the next `=` or `;` anywhere after the instruction start. If there is none, it appends an instruction without advancing, so parsing runs into the instruction capacity and fails (`Parser.BareComputeFails`).
- **A jump-only computation cannot start with `-` or `!`.** `set_insts` starts a computation only at a name or an integer, so lines such as `-1;JMP`, `-D;JLT` or `!D;JGT` are rejected (`Parser.LeadingTokenFails`, `Parser.NegatedJumpFails`). With a destination (`D=-1;JMP`) the same computations are accepted.

## Model

| member | source | states |
|---|---|---|
| Syntax.PredefListed | src/main.cpp:344-400 | every predefined name (R0-R15, SP, LCL, ARG, THIS, THAT, SCREEN, KBD) is recognised with its fixed address |
| Syntax.PredefOnlyListed | src/main.cpp:344-400 | a name is predefined only if it is in the table of predefined symbols, with that table's address |
| Hash.HashKey | src/hash.hpp:32-34 | the hash of a key is a 32-bit value |
| Hash.FnvVectors | src/hash.hpp:20-30 | FNV-1a 32 gives the published values for the empty input, "a" and "foobar" |
| Hash.ProbeIndex | src/hash.hpp:40 | a probe index, (h + i) wrapped to 32 bits and reduced modulo N, is a slot of the table |
| Hash.ProbeFrom | src/hash.hpp:37-53 | the probe stops at the first slot in probe order that is free or holds the key; it fails only if no probed slot does |
| Hash.FindSlot | src/hash.hpp:37-53 | find_slot returns a slot that is free or holds the key; it fails exactly when none of the N probed slots is |
| Hash.FindSlotIs | src/hash.hpp:37-53 | the first stopping position in probe order is the slot find_slot returns |
| Hash.ProbeReaches | src/hash.hpp:39-40 | when h + N does not wrap 32 bits, the probe visits every slot |
| Hash.NoWrapFailureMeansFull | src/hash.hpp:37-53 | without 32-bit wrap, find_slot fails only when every slot is taken by another key |
| Hash.WrappedProbeMissesSlots | src/hash.hpp:38-40 | for N = 131, the key "qOZJg" (hash 2^32-6) never probes slots 125..130, so find_slot fails although six slots are free |
| Hash.Lookup | src/hash.hpp:55-62 | lookup gives a value exactly when the slot found is alive, and then the slot holds the key with that value; it fails when find_slot fails |
| Hash.Insert | src/hash.hpp:64-73 | insert fails when the table is full or find_slot fails; otherwise the size is kept and the count grows by one exactly when the key was absent |
| Hash.EmptyValid | src/hash.hpp:13-18 | an all-free table satisfies the table invariant: count of live slots, distinct keys, each key reachable by its probe |
| Hash.ValidShape | src/hash.hpp:13-18 | under the invariant the count is at most N and no key is stored twice |
| Hash.ValidLookup | src/hash.hpp:55-62 | under the invariant lookup finds every stored key's value, and reports absence only for keys not stored |
| Hash.InsertThenLookup | src/hash.hpp:64-73 | after insert(k, v), lookup(k) gives v |
| Hash.InsertValid | src/hash.hpp:64-73 | insert preserves the table invariant |
| Hash.InsertFrame | src/hash.hpp:64-73 | insert(k, v) keeps the value of every other stored key, keeps failing lookups failing, and any lookup of another key that still succeeds is unchanged |
| Hash.FullTableLookupFails | src/hash.hpp:37-62 | after the single slot of a one-slot table is taken, lookup of another key fails instead of reporting absence |
| Lexer.SetDigits | src/main.cpp:207-217 | set_digits stops at the end of the digit run and yields the run's decimal value modulo 2^16; when that value is below 2^16 it is read exactly |
| Lexer.AccumulateValue | src/main.cpp:209-215 | the u16 accumulator holds the decimal value of the digits read so far, modulo 2^16 |
| Lexer.AccumulateExact | src/main.cpp:209-215 | a digit run whose value is below 2^16 never lowers the accumulator and is read exactly |
| Lexer.WrappedLiteral | src/main.cpp:210-213 | "72820" is accepted and read as 7284, since the wrapped value does not drop |
| Lexer.OverflowingLiteral | src/main.cpp:210-213 | "70000" is rejected, since the wrap lowers the accumulator |
| Lexer.DecimalTextValue | src/main.cpp:207-217 | the decimal numeral of v has the value v |
| Lexer.ScanSpec | src/main.cpp:243-331 | one turn of the scanner: a token spells the text at its offset; `/` must be followed by `/` and a comment ends at a newline or the end; stray characters fail; literals up to 32767 are tokens, larger ones below 2^16 fail |
| Lexer.Lex | src/main.cpp:241-333 | on success every token spells the text at its offset, tokens are in order and do not overlap, there are at most the token capacity of them, and the text before the first token, between consecutive tokens and after the last is only blanks and `//` comments, a comment before a token ending at its newline |
| Lexer.LexFromSound | src/main.cpp:242-332 | every token the scanning loop adds spells the text at an offset no smaller than where the loop started, and only blanks and comments lie around and between the tokens it adds |
| Lexer.SkipGap | src/main.cpp:245-263 | a run of blanks and `//` comments, each comment closed by its newline unless it ends the text, is passed over without adding a token |
| Lexer.ScanLiteral | src/main.cpp:309-319 | the decimal numeral of a 15-bit value, followed by no word character, scans to that literal |
| Lexer.ScanName | src/main.cpp:321-330 | a name not starting with a digit, followed by no word character, scans to that name |
| Lexer.LexRendered | src/main.cpp:242-332 | scanning tokens laid out with any blanks and comments after each (none needed between a symbol and its neighbour) gives back exactly those tokens |
| Lexer.LexRender | src/main.cpp:241-333 | Lex of any leading blanks and comments followed by laid-out tokens succeeds and yields exactly the laid-out token kinds |
| Position.Print | src/main.cpp:219-231 | the location loop fails exactly when the offset is not inside the text, gives line and column of at least 1, and agrees with Position.Locate |
| Position.BreaksCount | src/main.cpp:221-229 | the line number counts exactly the newlines before the offset |
| Position.LastLineSpec | src/main.cpp:221-229 | the column counts the characters since the last newline before the offset |
| Position.LocateStep | src/main.cpp:222-228 | a newline moves to column 1 of the next line; any other character moves one column right |
| Parser.ParseAddress | src/main.cpp:409-441 | `@` takes a literal or a name: a literal gives its address, a predefined name its fixed address, any other name a symbolic address; any other token fails |
| Parser.TokenAt | src/main.cpp:402-407 | get_token fails exactly past the last token |
| Parser.Alloc | src/main.cpp:188-191 | an instruction is appended exactly when the instruction capacity is not reached |
| Parser.FirstTerminator | src/main.cpp:710-740 | the first `=` or `;` from a position, or the end if there is none |
| Parser.GetJumpNames | src/main.cpp:684-708 | get_jump accepts exactly the seven jump mnemonics, consuming one token |
| Parser.ParseLabel | src/main.cpp:742-757 | a label is a name followed by `)`; the name is inserted into the label table bound to the instruction count |
| Parser.ParseCompute | src/main.cpp:710-740 | a compute instruction is produced; it consumes nothing only when no `=` or `;` follows |
| Parser.ComputeNoOperand | src/main.cpp:712-729 | an instruction starting with `=` or `;` is rejected |
| Parser.ComputeDestMismatch | src/main.cpp:714-717 | with `=` first, a destination that does not end at the `=` is rejected |
| Parser.ComputeCompMismatch | src/main.cpp:728-731 | with `;` first, a computation that does not end at the `;` is rejected |
| Parser.ComputeJump | src/main.cpp:728-734 | with `;` first, a computation ending at the `;` and a jump after it give that computation and jump with no destination |
| Parser.ComputeAssign | src/main.cpp:714-727 | with `=` first, a destination ending at the `=` and a computation after it give that destination and computation, with the jump after a following `;` or no jump otherwise |
| Parser.SetInstsFrom | src/main.cpp:759-794 | the parse loop only appends instructions and stays within the instruction capacity |
| Parser.BareComputeFails | src/main.cpp:759-794 | an instruction start with no `=` or `;` after it makes parsing fail |
| Parser.LeadingTokenFails | src/main.cpp:763-792 | an instruction starting with anything other than `@`, `(`, a name or an integer makes parsing fail |
| Parser.NegatedJumpFails | src/main.cpp:776-792 | the tokens of `-1;JMP` do not parse |
| Dests.GetDestSpec | src/main.cpp:443-505 | get_dest succeeds exactly when the names before `=` spell a nonempty word of distinct letters M, D, A; the destination is the mask of those letters (M 1, D 2, A 4) |
| Dests.DestLettersSpec | src/main.cpp:447-494 | the letter loop succeeds exactly when the word stays made of distinct letters M, D, A |
| Dests.DestFromSpec | src/main.cpp:445-504 | the token loop up to `=` succeeds exactly when every token is a name and their letters form a destination word |
| Comps.GetCompShape | src/main.cpp:507-682 | get_comp reads every one of the 28 written computations back, stopping right after it |
| Comps.GetCompSound | src/main.cpp:507-682 | whatever get_comp accepts is written exactly as the computation it returns |
| Comps.GetCompFallback | src/main.cpp:655-666 | a register followed by two tokens that write no computation is read alone, the two tokens left for the next instruction |
| Comps.FallbackRejects | src/main.cpp:655-666 | `D=A+D` is read as `D=A` and then fails on the leftover `+` |
| Comps.BinaryShape | src/main.cpp:567-654 | each binary computation recognised is written as register, operator, operand |
| Comps.BinaryComplete | src/main.cpp:567-654 | each binary computation's written form is recognised |
| Written.DestNameSpec | src/main.cpp:443-505 | the written name of a nonzero destination is a destination word whose mask is that destination |
| Written.ComputeLine | src/main.cpp:710-740 | parse_compute reads back a written compute line with destination or jump, ending where the line ends |
| Written.LabelLine | src/main.cpp:742-757 | a written label line inserts the label bound to the instruction count and parsing continues after it |
| Written.InstrLine | src/main.cpp:759-794 | a written instruction line is appended within capacity and parsing continues after it |
| Written.ParseWrittenFrom | src/main.cpp:759-794 | from any position, parsing the tokens of written lines is the line-by-line program the lines describe |
| Written.ParseWritten | src/main.cpp:759-794 | parsing a written program yields its instructions in order and binds every label to the number of instructions before it |
| Resolver.ResolveOne | src/main.cpp:798-823 | one step leaves no symbolic address, keeps the variable table's size, and leaves any other instruction and the table unchanged |
| Resolver.ResolveFrom | src/main.cpp:797-825 | the pass keeps the instruction count and leaves no symbolic address |
| Resolver.Resolve | src/main.cpp:796-826 | resolution keeps the instruction count and leaves no symbolic address |
| Resolver.OneKnown | src/main.cpp:809-817 | a known variable resolves to 16 plus its position in order of first use |
| Resolver.OneNew | src/main.cpp:818-822 | a new variable is inserted with address 16 plus the number of variables so far |
| Resolver.ResolveFromSound | src/main.cpp:797-825 | the variable table holds the names first used so far, each at 16 plus its position, and every instruction is resolved by the reference reading |
| Resolver.ResolveSound | src/main.cpp:796-826 | on success there are at most the variable capacity of variables; each symbolic address becomes its label's value or 16 plus its variable's position in order of first use |
| Resolver.SameName | src/main.cpp:796-826 | two references to the same name resolve to the same address |
| Resolver.EmptyHolds | src/main.cpp:796-826 | the empty variable table holds no variables |
| Encoder.Word | src/main.cpp:842-854 | a word is 16 bits; it has its top bit clear exactly for an address |
| Encoder.Bits | src/main.cpp:828-834 | a record is 17 characters ending in a newline |
| Encoder.Records | src/main.cpp:839-859 | the records exist exactly when no instruction is symbolic, and are 17 characters per instruction |
| Encoder.Emit | src/main.cpp:836-867 | emit succeeds exactly when 17 times the instruction count is below the character capacity and no instruction is symbolic |
| Encoder.UnwordWord | src/main.cpp:842-854 | every resolved instruction decodes back from its word |
| Encoder.WordUnword | src/main.cpp:842-854 | every word that decodes encodes back to itself |
| Encoder.WordValueBits | src/main.cpp:828-834 | the sixteen characters of a record, read as binary most significant bit first, give back the word |
| Encoder.BitsWordValue | src/main.cpp:828-834 | any sixteen bit characters and a newline are the record of their binary value |
| Encoder.NibbleRoundTrip | src/main.cpp:117-120 | each four-character group of the table is the binary numeral of its index |
| Encoder.CompOfCode | src/main.cpp:43-72 | the 28 computation codes are distinct: decoding a code gives its computation |
| Encoder.RecordRoundTrip | src/main.cpp:839-859 | the record of a resolved instruction decodes to that instruction |
| Encoder.RecordsRoundTrip | src/main.cpp:839-859 | the records of resolved instructions decode to those instructions |
| Encoder.UnrecordsRoundTrip | src/main.cpp:839-859 | any text that decodes is the records of what it decodes to |
| Encoder.EmitRoundTrip | src/main.cpp:836-867 | what emit writes decodes to the instructions |
| Encoder.EmitDecodes | src/main.cpp:836-867 | emit writes s exactly when s decodes to the instructions and is shorter than the character capacity |
| Encoder.AddExample | src/main.cpp:836-867 | the six instructions of the add program encode to the six records of its expected output |
| Assembler.Assemble | src/main.cpp:880-925 | on success the text fits the character buffer, and the output is shorter than the capacity and decodes to instructions |
| Assembler.PlaceInsts | src/main.cpp:759-794 | parsing written lines yields the instructions of the lines, in order |
| Assembler.PlacedLabels | src/main.cpp:742-757 | after parsing written lines, a label maps to the number of instructions before its last definition, a redefinition overwriting the earlier value |
| Assembler.PlacedUnlabelled | src/main.cpp:759-794 | a name never defined as a label is not a label after parsing |
| Assembler.PlaceKeeps | src/hash.hpp:64-73 | inserting other labels keeps a label's value, and keeps a non-label a non-label |
| Assembler.AssembleWritten | src/main.cpp:880-925 | assembling a written program gives one record per instruction, each the instruction with its symbol replaced by its label's value or its variable's address |
| Assembler.AssembleNoSymbols | src/main.cpp:880-925 | a written program without symbolic addresses assembles to the records of its instructions |
| Assembler.ResolveNoSymbols | src/main.cpp:796-826 | resolution leaves a program without symbolic addresses unchanged |
| Assembler.AddProgram | src/main.cpp:880-925 | the text `@2`, `D=A`, `@3`, `D=D+A`, `@0`, `M=D`, one per line, assembles to 0000000000000010, 1110110000010000, 0000000000000011, 1110000010010000, 0000000000000000, 1110001100001000 |

## Left out

- Reading the source file and writing the output file (`set_chars_from_file`, the `fopen`/`fwrite` part of `emit`), the `mmap` in `alloc`, and `main`'s argument check are I/O. `Assembler.Assemble` takes the text and returns the output instead.
- The size and statistics printing of `main`, the `DEBUG` output of `find_slot`, and the table's `collisions` counter are diagnostics that never affect results.
- `Position.Print` returns the line and column instead of printing them with the path. The offsets the parser would pass it are not carried: tokens keep their offsets in the lexer, but the parser works on token kinds, because errors carry no payload.
- Error messages and the distinction between `EXIT`, `EXIT_WITH` and `ERROR` are not modelled. Every error is one `Failure`, so the order in which checks fire does not matter.
- `prelude.hpp` and `str.hpp` are not part of this model. String equality is Dafny's sequence equality, and a key's bytes are its characters taken modulo 256.
- The text is the file's bytes, one character per byte: every character of the text is below 256. Under that reading the character capacity of `Assembler.Assemble` and the columns of `Position.Print` count bytes, as the program does. Decoding of multi-byte encodings is not modelled.
- The guard that the text fits the character buffer with its terminator is placed at the start of `Assembler.Assemble`. In the program it lives in `set_chars_from_file`.
- `Hash.InsertFrame`: states that an insert keeps other stored keys' values. Lookups of absent keys may turn from absent to failing once the table fills up (`Hash.FullTableLookupFails`), so it does not state that all other lookups are unchanged.
- `Resolver.ResolveSound`: states what a successful resolution yields, not the converse. Whether resolution succeeds depends on the probe sequence, which can miss free slots when the hash wraps 32 bits (`Hash.WrappedProbeMissesSlots`).
- `Assembler.AssembleWritten`: covers programs written in the forms `Written.WritableLine` allows. These are programs where every compute line has a destination or a jump, a compute line without destination starts with a name or an integer, and a symbolic address is not a predefined name. A jump-only line starting with `-` or `!` (seven of the 28 computations) is left out because the code rejects it (`Parser.LeadingTokenFails`).
- `Lexer.LexRender`: a layout puts blanks or a comment between two adjacent names or literals. Texts where they touch (`2D`) are lexed by the code but are outside the layouts the round trip covers.
- `Encoder.Word`: the bitwise OR of `emit` is written as a sum, which is equal because the fields occupy disjoint bits.
- Label values and variable addresses are stored with `static_cast<u16>`. The model keeps them as 15-bit naturals: the instruction capacity (0x7FFF) and the variable capacity keep them in range, so no truncation occurs.
