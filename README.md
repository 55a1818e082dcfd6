# Visual tape-machine interpreter: verified model of the front end and the machine

`visual_interpreter.c` runs a tape-machine program and shows the tape as a picture.

- **Front end.** It reads a source file and deletes `;` line comments. It then replaces eight keywords (`i `, `use `, `arch `, `linux `, `btw `, `by `, `the `, `way `) by the eight machine symbols `> < + - . , [ ]`. Finally it compiles the text into a flat array of 16-bit slots.
- **Instructions.** Each instruction takes two slots: an opcode (the symbol's character code), then an operand. A run of `>`, `<`, `+` or `-` becomes a single instruction with the run length as its operand. A `[` and its `]` both hold the slot distance between them.
- **Machine.** It has a 30000-cell byte tape, a data address and a program cursor. The host calls it in slices. A slice runs until a `.` hands control back or the cursor leaves the program.
- **Keys and display.** `,` stores the state of eight keys as one byte. Between slices the host draws the first 256 cells as a 16 by 16 grid. Each cell's byte is read as `RRRGGGBB`.

This project models those parts in Dafny and proves properties of the model. Each module follows one part of the program:

| module | file | models |
|---|---|---|
| `Base` | `base.dfy` | opcodes, 8- and 16-bit values, the program capacity |
| `Comments` | `comments.dfy` | the comment-stripping copy loop |
| `Keywords` | `keywords.dfy` | the `strstr`/`memcpy`/`memmove` substitution passes, in place on a `char` array |
| `Brackets` | `brackets.dfy` | nesting depth, the backward scan of a `]`, and matching brackets |
| `Compiler` | `compiler.dfy` | the compile loop, in place on the `uint16_t` program array |
| `Keypad` | `keypad.dfy` | the key byte packed by `,` |
| `Machine` | `machine.dfy` | `run_program`, as a class over the tape array, with a fuel-bounded slice |
| `Colour` | `colour.dfy` | the `RRRGGGBB` colour decode |
| `Pipeline` | `pipeline.dfy` | the whole loading path, a checked compiler, and the picture |

Places where the model follows the code rather than what a reader would expect:

- **Unmatched brackets are not rejected.** An unmatched `]` ends its scan at slot 0 and overwrites slot 1 (see Findings). An unmatched `[` keeps operand 0.
- **The address is never checked.** `>` and `<` may move it off the tape. The model reports `TapeFault` only when an instruction then reads or writes the cell there. The C code has undefined behaviour at that point.
- **Counts wrap at 16 bits.** Run counts and bracket distances are stored in 16-bit slots. The model keeps this wrap-around.
- **The checked compiler.** `Pipeline.CompileChecked` is the corrected compiler. It rejects unmatched brackets, run counts of 65536 or more, loop distances that do not fit in 16 bits, and programs too large for the program array. An address off the tape can only arise at run time, so no compiler can reject it: the machine reports it as `TapeFault`.

## Model

| member | source | states |
|---|---|---|
| Comments.Strip | visual_interpreter.c:120-126 | reference definition, no contract of its own: a `;` skips to the next newline, any other character is copied; what it means is stated by `StripShrinks`, `StripLine`, `StripLines` and `StripNoComment` |
| Comments.NewlineIndex | visual_interpreter.c:122 | the inner skip loop stops at the first newline, or at the end of the text |
| Comments.StripShrinks | visual_interpreter.c:120-126 | stripping never makes the text longer, and no `;` is left |
| Comments.StripLine | visual_interpreter.c:120-126 | on a line without a newline, exactly the text before the first `;` is kept |
| Comments.StripLines | visual_interpreter.c:120-126 | a comment stops at its newline; the newline is kept and each side is stripped on its own |
| Comments.StripNoComment | visual_interpreter.c:120-126 | text without `;` is kept unchanged |
| Comments.StripComments | visual_interpreter.c:116-127 | the `src`/`dst` copy loop writes exactly `Strip` of the text into the caller's `new_code` buffer, never more characters than the text has |
| Keywords.Replaced | visual_interpreter.c:144-148 | reference definition, no contract of its own: one table entry's pass, text before the first match kept, the match replaced by the symbol, the search going on after it; stated by `ReplacedNoMatch`, `ReplacedFirst`, `ReplacedShrinks`, `ReplacedRemovesAll` and `ReplacedKeepsAbsent` |
| Keywords.Substituted | visual_interpreter.c:132-149 | reference definition, no contract of its own: the passes of the first `n` entries of the table (`Keywords.Table`, lines 132-142), in table order; stated by `SubstitutedClean` |
| Keywords.Find | visual_interpreter.c:145 | `strstr` gives the first match at or after the search position, and `None` only when there is no match from there on |
| Keywords.ReplacedNoMatch | visual_interpreter.c:143-149 | a pass over text that does not contain the keyword changes nothing |
| Keywords.ReplacedFirst | visual_interpreter.c:145-147 | text before the first match is copied, the match becomes the symbol, and replacement goes on after it |
| Keywords.ReplacedShrinks | visual_interpreter.c:146-147 | a pass never makes the text longer, and it makes it strictly shorter when the keyword occurs |
| Keywords.PrefixWithoutSymbol | visual_interpreter.c:144-147 | any prefix of the result that contains no written symbol is unchanged text of the input |
| Keywords.ReplacedRemovesAll | visual_interpreter.c:145 | after the pass for a keyword, the keyword occurs nowhere |
| Keywords.ReplacedKeepsAbsent | visual_interpreter.c:143-149 | a later pass creates no occurrence of a keyword already removed, because no symbol occurs in a keyword |
| Keywords.ShiftDown | visual_interpreter.c:147 | `memmove` moves the tail down by the gap and keeps the text before it |
| Keywords.OverwriteMatch | visual_interpreter.c:146-147 | one round writes the symbol over the match and closes the gap: the buffer is the text with the match replaced |
| Keywords.ReplaceAll | visual_interpreter.c:144-148 | the `strstr` loop, in place, leaves `Replaced` of the old buffer and never makes it longer |
| Keywords.TableShape | visual_interpreter.c:132-142 | the table has eight entries, every keyword has at least two characters, and no symbol occurs in any keyword |
| Keywords.SubstitutedClean | visual_interpreter.c:143-149 | after the first `n` passes none of their keywords is left, and the text has not grown |
| Keywords.SubstituteAll | visual_interpreter.c:143-149 | all eight passes in place leave `Substituted` of the old buffer, no longer than it was |
| Keywords.InsideWord | visual_interpreter.c:145 | matching ignores word boundaries: `hi ` becomes `h>` |
| Keywords.MissingCharAbsent | visual_interpreter.c:145 | a keyword that contains a character absent from the text never matches |
| Compiler.Tokens | visual_interpreter.c:154-189 | reference definition, no contract of its own: the instructions the switch reads, a counted symbol with its whole run, other symbols alone, other characters skipped; stated by `TokensShape`, `TokensExpand` and `TokensOfRun` |
| Compiler.Operand | visual_interpreter.c:159-172 | reference definition, no contract of its own: the operand slot as first written, the run count modulo 65536 for `>`, `<`, `+`, `-` and the array's zero otherwise; stated by `CompiledOperands` and `CountWraps` |
| Compiler.Distance | visual_interpreter.c:183-184 | reference definition, no contract of its own: `program_size - i` stored in a 16-bit slot; stated by `CompiledOperands` |
| Compiler.Patch | visual_interpreter.c:183-184 | reference definition, no contract of its own: the two operand writes of a `]`; stated by `CompiledOperands` and `UnmatchedCloseClobbers` |
| Compiler.Compiled | visual_interpreter.c:151-190 | reference definition, no contract of its own: the layout of all the text's instructions; stated by `CompiledShape`, `CompiledOperands` and the three examples, and `Compile` is proved to write it |
| Compiler.RunLength | visual_interpreter.c:168-171 | the counting loop counts the maximal run of the symbol: every counted character is that symbol, and the next one is not |
| Compiler.RunLengthExact | visual_interpreter.c:168-171 | a run length is fixed by those two facts |
| Compiler.TokensShape | visual_interpreter.c:154-189 | every instruction read is one of the eight, with a count of at least 1, and only the counted symbols have a count above 1 |
| Compiler.TokensExpand | visual_interpreter.c:162-173 | coalescing loses nothing: writing each instruction back out as its run gives the text's symbols in order |
| Compiler.TokensOfRun | visual_interpreter.c:162-173 | a maximal run of `n` copies of a counted symbol becomes exactly one instruction with count `n` |
| Compiler.Layout | visual_interpreter.c:154-190 | laying down `n` instructions fills exactly `2n` slots |
| Compiler.LayoutOpcodes | visual_interpreter.c:154-190 | the opcodes sit at the even slots, in instruction order |
| Compiler.CompiledShape | visual_interpreter.c:154-190 | the program has two slots per instruction, and every even slot holds one of the eight opcodes |
| Compiler.CompiledOperands | visual_interpreter.c:159-185 | when no `]` is unmatched, each `]` and its `[` match and hold the same distance; an unmatched `[` holds 0; `.` and `,` hold 0; a counted instruction holds its count modulo 65536 (`OperandsHold`) |
| Compiler.RunsExample | visual_interpreter.c:162-173 | `++.` compiles to `(+,2),(.,0)` |
| Compiler.LoopExample | visual_interpreter.c:174-185 | `+[-]` compiles to `(+,1),([,4),(-,1),(],4)` |
| Compiler.UnmatchedCloseClobbers | visual_interpreter.c:178-184 | `+]` compiles to `(+,2),(],2)`: the unmatched `]` overwrites the count in slot 1 |
| Compiler.CountWraps | visual_interpreter.c:167-170 | a run of 65536 `>` is counted as 0 |
| Compiler.LaySingle | visual_interpreter.c:156-161 | `.`, `,` and `[` write their opcode and leave the operand slot at zero: the array afterwards is the layout of one more instruction, zeros after it |
| Compiler.LayRun | visual_interpreter.c:162-173 | the counting loop reads the whole run and leaves its opcode and 16-bit count: the array afterwards is the layout of one more instruction, the text read on is the rest of the instructions |
| Compiler.LayClose | visual_interpreter.c:174-186 | a `]` writes its opcode, scans back and writes the distance into both operands: the array afterwards is the layout of one more instruction, including the patch of its `[` |
| Compiler.LayToken | visual_interpreter.c:155-189 | one case of the switch for a symbol: the reading position moves past that instruction's text and one more instruction is laid out |
| Compiler.ScanSlots | visual_interpreter.c:176-182 | the backward scan over the opcode slots stops at the slot of `Brackets.Target` |
| Compiler.Compile | visual_interpreter.c:151-190 | the compile loop, in place on the zeroed array, writes exactly `Compiled(code)` into `2 × (number of instructions)` slots and leaves the rest zero |
| Brackets.ScanBack | visual_interpreter.c:178-182 | the backward loop stops at or before where it started; what it computes is stated by `ScanBackSpec`, `MatchesTarget` and `TargetMatches` |
| Brackets.Target | visual_interpreter.c:176-182 | reference definition, no contract of its own: the scan of a `]` started at its own index with depth 1; stated by `MatchesTarget`, `TargetMatches` and `CloseFindsOpen` |
| Brackets.ScanBackSpec | visual_interpreter.c:176-182 | the scan's counter is the start depth plus the nesting it walked back out of; it stops at the first index where that counter is 0, or at index 0 |
| Brackets.MatchesTarget | visual_interpreter.c:176-182 | the scan for a `]` stops, at depth 0, exactly at the `[` it matches |
| Brackets.TargetMatches | visual_interpreter.c:176-182 | a scan that stops at depth 0 has found the matching `[` |
| Brackets.MatchUnique | visual_interpreter.c:176-182 | a `[` matches at most one `]`, and a `]` at most one `[` |
| Brackets.CloseFindsOpen | visual_interpreter.c:176-184 | when no prefix up to a `]` closes more than it opens, the scan finds its matching `[` |
| Brackets.CloseWithoutOpen | visual_interpreter.c:178-184 | when some prefix closes more than it opens, some `]` scans down to index 0 with its depth still positive |
| Brackets.NoUnmatchedCloseIff | visual_interpreter.c:176-184 | every scan ends at depth 0 if and only if no prefix closes more than it opens |
| Brackets.OpenFindsClose | visual_interpreter.c:174-185 | in a balanced program every `[` has a matching `]` |
| Brackets.OpenWithoutClose | visual_interpreter.c:174-185 | when the final depth is positive, some `[` matches no `]` |
| Brackets.ScanBackPrefix | visual_interpreter.c:178-182 | the scan reads only the instructions before it, so instructions laid later do not change it |
| Keypad.Pack | visual_interpreter.c:75-85 | each bit of the key byte is set exactly when its key is down: Z 0x80, X 0x40, RETURN 0x20, SPACE 0x10, UP 0x08, DOWN 0x04, LEFT 0x02, RIGHT 0x01 |
| Keypad.Unpack | visual_interpreter.c:75-85 | every byte is the packing of some key state |
| Keypad.UnpackPack | visual_interpreter.c:75-85 | packing loses no key |
| Keypad.SingleKeys | visual_interpreter.c:75-85 | no key gives 0, Z alone gives 0x80, RIGHT alone gives 0x01 |
| Keypad.ZAndEnter | visual_interpreter.c:75-85 | Z with RETURN gives 0xA0 |
| Machine.Slot | visual_interpreter.c:49-66 | reference definition, no contract of its own: a slot of the zero-initialised static `program` array, zero past the compiled program, as the operand reads of the switch see it |
| Machine.Next | visual_interpreter.c:48-90 | reference definition, no contract of its own: one pass through the switch, with an access off the tape as `TapeFault`; stated by `StepEffects`, `OpenLands`, `CloseLands`, `StraightStep` and `StepEven`, and `Vm.Step` is proved to do it |
| Machine.Slice | visual_interpreter.c:47-92 | reference definition, no contract of its own: the run loop cut off after `fuel` steps; stated by `SliceEnds`, `SliceEven`, `SliceFuel`, `SliceAfterEnd` and `IncrementsRun`, and `Vm.RunSlice` is proved to do it |
| Machine.AddCell | visual_interpreter.c:56 | reference definition, no contract of its own: `uint8_t` addition of an operand; stated by `CellInverse` and `AddAllValue` |
| Machine.SubCell | visual_interpreter.c:57 | reference definition, no contract of its own: `uint8_t` subtraction of an operand; stated by `CellInverse` |
| Machine.KeyByte | visual_interpreter.c:75-85 | reference definition, no contract of its own: the packed key byte stored by `,`; its bits are stated by `Keypad.Pack` |
| Machine.Initial | visual_interpreter.c:41-45 | the machine starts with 30000 zero cells, address 0 and cursor 0 |
| Machine.StepEffects | visual_interpreter.c:48-90 | `>`/`<` change only the address, by the operand; `+`/`-` change only the addressed cell, by the operand modulo 256; `,` stores the key byte there; `.` only moves past its pair and yields; a tape access off the tape is a fault and changes nothing |
| Machine.CellInverse | visual_interpreter.c:56-57 | `-` undoes `+` with the same operand, and `-1` on a zero cell gives 255 |
| Machine.AddCellsValue | visual_interpreter.c:56 | `n` single increments, `n` operands of 1 folded by `AddAll`, add `n` modulo 256 |
| Machine.AddCellRepeated | visual_interpreter.c:56 | a multiple of 256 single increments, folded by `AddAll`, leaves a cell unchanged |
| Machine.AddAllValue | visual_interpreter.c:56 | `+` instructions with any operands add their total modulo 256, so a total that is a multiple of 256 leaves the cell unchanged, whatever the grouping |
| Machine.IncrementsRun | visual_interpreter.c:47-56 | a slice through a block of `+` instructions finishes with only the addressed cell changed, by the total modulo 256; a total of 256 in any grouping leaves the tape as it was |
| Machine.GroupedWrap | visual_interpreter.c:47-56 | `(+,200),(+,56)` and `(+,256)` each leave the tape unchanged |
| Machine.OpenLands | visual_interpreter.c:58-63 | at a paired `[`, a zero cell continues after the matching `]` and a nonzero cell at the first body instruction |
| Machine.CloseLands | visual_interpreter.c:64-69 | at a paired `]`, a nonzero cell goes back to the first body instruction and a zero cell continues after the `]` |
| Machine.StepEven | visual_interpreter.c:47-89 | in a well-formed program, a step from an instruction slot lands on an instruction slot or at the end |
| Machine.StraightStep | visual_interpreter.c:49-89 | any instruction other than a taken bracket moves the cursor past its two slots |
| Machine.SliceEnds | visual_interpreter.c:47-92 | a slice never ends running; it ends `Finished` only with the cursor at or past the end, `Yielded` only just after a `.`, and at a fault only at a tape instruction whose address is off the tape; the tape keeps its size |
| Machine.SliceEven | visual_interpreter.c:47-92 | in a well-formed program every slice ends on an instruction slot or at the end |
| Machine.SliceFuel | visual_interpreter.c:47-92 | a slice that ends within its step bound ends the same way with any larger bound |
| Machine.SliceAfterEnd | visual_interpreter.c:48 | once the cursor has left the program, every later slice is `Finished` and changes nothing |
| Machine.Vm.constructor | visual_interpreter.c:41-44 | a new machine holds the program, a fresh zero tape, address 0 and cursor 0 |
| Machine.Vm.Step | visual_interpreter.c:48-90 | one pass through the switch changes the tape, address and cursor exactly as `Next` says |
| Machine.Vm.RunSlice | visual_interpreter.c:46-92 | the run loop leaves the machine in the state `Slice` gives and returns its status |
| Colour.Decode | visual_interpreter.c:236-242 | red and green are `36v + v/2` of their 3-bit field, blue is `85v` of its 2-bit field, and the byte can be read back from the colour |
| Colour.DecodeInjective | visual_interpreter.c:236-242 | distinct bytes are drawn in distinct colours |
| Colour.WidenValues | visual_interpreter.c:240-242 | bit replication gives `36v + v/2` for a 3-bit field and `85v` for a 2-bit field |
| Colour.WidenMonotone | visual_interpreter.c:240-242 | a larger field gives a brighter channel |
| Colour.Extremes | visual_interpreter.c:236-242 | `0x00` is black, `0xFF` is white, and `0xE0`, `0x1C`, `0x03` are pure red, green and blue |
| Pipeline.TextOfFile | visual_interpreter.c:111-113 | the text is the file's bytes up to the first NUL: a prefix with no NUL, followed by a NUL or the end |
| Pipeline.TextWithoutNul | visual_interpreter.c:111-113 | a file without a NUL is read whole |
| Pipeline.Source | visual_interpreter.c:116-149 | reference definition, no contract of its own: the text after comment stripping and the eight passes; stated by `Load` and `ArchExample` |
| Pipeline.Program | visual_interpreter.c:116-190 | reference definition, no contract of its own: the compiled program of a file; `Load` is proved to leave it in the program array |
| Pipeline.Load | visual_interpreter.c:116-190 | stripping into a new buffer, substituting in place on it and compiling in place leave `Program(raw)` in the array and zeros after it |
| Pipeline.ArchExample | visual_interpreter.c:132-173 | `arch arch btw ` compiles to `(+,2),(.,0)` |
| Pipeline.CompileChecked | visual_interpreter.c:151-190 | the compiler with the missing checks: each error is returned exactly when its case occurs; an accepted program is the compiled layout, well formed, with every count exact |
| Pipeline.CheckedExamples | visual_interpreter.c:174-185 | a lone `[` is refused as unmatched open, and a lone `]` as unmatched close |
| Pipeline.CheckedWellFormed | visual_interpreter.c:174-185 | a balanced program whose size and loops fit compiles to a well-formed program, with every bracket paired |
| Pipeline.CheckedPaired | visual_interpreter.c:174-185 | in an accepted program, a `[` and the `]` it matches sit at slots `2k` and `2m` and both operands hold `2(m - k)` |
| Pipeline.CheckedOpenLands | visual_interpreter.c:58-63 | in an accepted program, the `[` at instruction `k` on a zero cell lands at `2m + 2`, just past the `]` it matches, and otherwise at `2k + 2` |
| Pipeline.CheckedCloseLands | visual_interpreter.c:64-69 | in an accepted program, the `]` at instruction `m` on a nonzero cell lands at `2k + 2`, the body of the `[` it matches, and otherwise at `2m + 2` |
| Pipeline.Build | visual_interpreter.c:116-190 | reference definition, no contract of its own: the loaded text compiled with the checks; stated by `BuildRunsAligned` and through `CompileChecked` |
| Pipeline.BuildRunsAligned | visual_interpreter.c:47-92 | every slice of a build that the checked compiler accepts stops on an instruction slot or at the end |
| Pipeline.Frame | visual_interpreter.c:234-243 | row `y`, column `x` of the picture is drawn in the decoded colour of cell `16y + x`, and each cell can be read back from its pixel |
| Pipeline.Pixel | visual_interpreter.c:236-243 | one cell is drawn in the decoded colour of its byte, and that colour gives the byte back |
| Pipeline.Row | visual_interpreter.c:235-243 | row `y` has 16 pixels, pixel `x` the colour of cell `16y + x` |

## Left out

- Audio (`play_note` and the audio device setup): floating-point tone synthesis through SDL audio. `play_note` is never called.
- Argument checking and file reading (`fopen`, `fseek`, `fread`): these are I/O. The model starts from the file's contents as a string (`Pipeline.TextOfFile`).
- SDL set-up, the window, the renderer and drawing rectangles are left out. So are the event loop and `SDL_Delay`. These are user-interface plumbing. Only the colour of each cell (`Pipeline.Frame`) is modelled.
- `SDL_GetKeyboardState`: the eight key flags are a parameter of `Step` and `RunSlice`.
- The `printf` in the default case of the switch: it only prints. The model moves the cursor one slot, as the code does.
- `Machine.Vm.RunSlice`: `run_program` may loop forever, so the model takes a step bound (`fuel`) and returns `OutOfFuel` when the bound is reached. `Machine.SliceFuel` shows that the bound never changes a result that is reached within it.
- `Machine.Next`: `address` is a C `int`. Overflow of `address` past 2^31 is undefined behaviour and is not modelled. The address is an unbounded integer.
- `Machine.Next`: a tape access off the tape is undefined behaviour in C. It is modelled as a `TapeFault` that ends the slice and leaves the state unchanged.
- `Compiler.Compile`: the program array must have room for the whole program (`2 × instructions ≤ program.Length`). The C code writes past its 16777216-slot array when that is not so.
- `Brackets.ScanBack`: the scan counter `i` is a C `int` and `program_size - i` is stored into a 16-bit slot. The model keeps the 16-bit truncation (`Compiler.Distance`) but not an `int` overflow beyond 2^31 slots, which the capacity rules out.
- `Machine.Next`: the cursor of a bracket jump is taken modulo 2^64, as for `size_t`. In a well-formed program no jump wraps, so nothing is proved about wrapping jumps beyond their definition.

## Findings

| source | as written | input that shows it | evidently intended | confidence | as-written member | corrected member |
|---|---|---|---|---|---|---|
| visual_interpreter.c:178-184 | an unmatched `]` stops its scan at slot 0 and writes its distance into slot 1 | `+]` compiles to `(+,2),(],2)`: the count of the `+` becomes 2 | an unmatched `]` is rejected | not executed | Compiler.UnmatchedCloseClobbers | Pipeline.CompileChecked |
| visual_interpreter.c:167-170 | the run counter is a 16-bit slot that wraps | 65536 `>` in a row compile to `(>,0)` and do not move the address | a run longer than a slot can count is rejected, or counted exactly | not executed | Compiler.CountWraps | Pipeline.CompileChecked |
