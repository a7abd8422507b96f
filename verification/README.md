# A verified model of Husky's kernel

The kernel is a small 32-bit system in C. This project models the parts of it that have loops, state and
arithmetic of their own, and proves what they do: the micro-shell, the AHCI disk driver, the terminal, the
program editor and the line executor, the allocators and the tokenizer, number printing and reading, and the
discovery of the ACPI tables. Hardware is an environment that may do anything the standards allow it.

Each part has a specification on values (a function, or a fold over a run of operations), methods in the
source's own form that are proved to compute it in place, and theorems about the specification.

| files | part |
|---|---|
| `CInt`, `Text`, `Wrappers` | 32-bit arithmetic and bytes, character classes and spans, optional values |
| `Numbers`, `Printk` | `itoa`, `atoi`, the formatting loop of `printk` |
| `ShellSyntax`, `ShellMeaning`, `Shell`, `ShellValues`, `ShellRuns` | the micro-shell: reading chains, what they denote, the evaluator and executor, what their values are, whole sessions |
| `Tokenizer`, `Pages`, `Heap` | `strtok` and `split_command`, the page bitmap, the bump heap with string copies and mappings |
| `Terminal`, `Editor`, `Executor` | the screen and the line being typed, the program editor, running a program line by line |
| `ShellCuts`, `ShellPrograms` | the micro-shell inside a longer memory, and that executor with the micro-shell behind it |
| `AhciProtocol`, `AhciLayout`, `AhciDriver`, `AhciSlots`, `AhciRead` | stopping and starting a port, its memory, the driver's side, the slot search, building a read command |
| `Acpi`, `AcpiSoftOff`, `AcpiBytes` | checksummed table search, the soft-off package, and both on the encoded structures |

## What the proofs show

**Micro-shell.** `eval_expr` reads and evaluates in one pass. For every text, position and variable table it
gives exactly what the chain of operands standing there denotes, every operator taking all that follows as its
right operand; what the value of each step is, is stated without saying how it is computed (`ChainValue`). A chain
that is printed, with any blanks, is read back as itself. Numeric chains are exact
arithmetic grouped to the right and wrapped once; the type and the error of a well-formed chain are
characterised completely. Over whole sessions the table never holds a FLOAT or a BOOL, and, because an
assignment copies the value's own name over the slot's, never a name: no program can read a variable back
(`NoReadBack`), and the 65th assignment of a session fails. A program that ends in blanks can step over its
terminator; the text and the number of free slots decide exactly when (`SessionStops`), and in a program run line
by line the rest of the text then runs within that line's call (`CallReaches`). The text says exactly when a
successful program has made some assignment twice (`AssignsOnceIff`).

**AHCI.** In every interleaving of the driver's accesses with the controller, the address registers and the
shared memory are written only while ST, FRE, FR and CR are all clear, and ST is raised only with FRE set and CR
clear; the call is over after a fixed number of accesses and one for every repeated poll, and the driver's method
is proved to be a run of this protocol. After any calls of `port_rebase`, each port owns disjoint, aligned,
correctly linked memory. `read` puts the sector and the count into the command so that they decode again, but
because the loop at disk.c:184 is never entered the physical region table describes the size asked for only when
that is zero (`NeverDescribesTheRequest`), and because the slot search is bounded by the word it shifts, an idle
port has no slot (`FirstFreeIsMissed`).

**Terminal, editor, executor.** Away from the end of the screen the typed line and the cells show the same
text after every key, and the key that ends this is the one that brings the line to the end. The editor's
cursor is right throughout a run exactly when no backspace removes a newline: the code tests for the newline
after it has cleared it. The executor runs the nonempty lines up to the first failure; a failed line that ends
in a newline is run a second time and leaves the buffer cut.

**Allocators, tokenizer, numbers, ACPI.** The bitmap is the set of pages handed out and not given back. Heap
blocks tile the heap exactly as long as no 32-bit sum has wrapped. At every address mappings and unmappings
balance; an empty mapping before another one at the same address is the one that `munmap` ends first, so a
mapping with bytes in it ends last. Tokens are exactly the maximal
delimiter-free runs. `atoi` undoes `itoa` in base ten for every `int` except INT_MIN, and in the other bases a
negative number has no text of digits. A root structure, its tables and a soft-off package are decoded to the
values they were encoded from.

## Where the code and its comments disagree

The model follows the code: the slot search (disk.c:253-265), the PRDT loop (disk.c:183-191), the newline test
of the editor's backspace (kernel.c:372-379), and the name of an assigned variable (microshell.c:374-388).
Nothing in the kernel writes a program into the buffer that `execute_buffer` reads or raises its position
(kernel.c:273, 287, 298-301): the editor fills a buffer of its own, so Ctrl+R runs the empty program and `run`
refuses. The executor is modelled for every content all the same.

## Model

| member | source | states |
|---|---|---|
| `ShellSyntax.ParseShown` | src/kernel/libs/BuiltIn/microshell.c:177-294 | any chain of numbers, strings and names, printed with any blanks before something that does not continue it, is read back as that chain, and reading stops at the first non-blank after it |
| `ShellSyntax.ReadIsPrinted` | src/kernel/libs/BuiltIn/microshell.c:177-294 | the other direction: any chain read with no operand missing or left open is printed by exactly the characters consumed |
| `Shell.MicroShell.EvalExpr` | src/kernel/libs/BuiltIn/microshell.c:177-355 | for every text and table: the value, type, error flag, final position and name buffer are those of the chain in the text, also after an error; it faults exactly when a string is added to an operand without one or the least int is divided by -1 |
| `Shell.MicroShell.EvalOperand` | src/kernel/libs/BuiltIn/microshell.c:178-234 | the operand branches consume one operand and give its value; an unknown name or an open quote sets the error |
| `Shell.MicroShell.ApplyOperator` | src/kernel/libs/BuiltIn/microshell.c:295-349 | conversion to a common type and one operator agree with the rules on values, including the stale result of an operator without a rule and the division that traps |
| `Shell.MicroShell.Balance` | src/kernel/libs/BuiltIn/microshell.c:295-307 | FLOAT wins over INT and INT over the rest; both operands hold their converted fields |
| `Shell.MicroShell.EvalNumber` | src/kernel/libs/BuiltIn/microshell.c:183-191 | a literal is its decimal value, wrapped to 32 bits, and all its digits are consumed |
| `Shell.MicroShell.EvalLiteral` | src/kernel/libs/BuiltIn/microshell.c:193-208 | the body is what stands between the quotes; without a closing quote everything is consumed |
| `Shell.MicroShell.SkipWhitespace` | src/kernel/libs/BuiltIn/microshell.c:87-89 | stops at the first character that is no blank |
| `Shell.MicroShell.ParseIdent` | src/kernel/libs/BuiltIn/microshell.c:92-102 | consumes the whole identifier and leaves its first 31 characters in the shared buffer |
| `Shell.MicroShell.FindVar` | src/kernel/libs/BuiltIn/microshell.c:105-112 | the first slot with the name, or none |
| `Shell.MicroShell.AssignLast` | src/kernel/libs/BuiltIn/microshell.c:374-389 | the slot named by the buffer, or a new one of at most 64, is replaced as a whole, name included |
| `Shell.MicroShell.RunStatement` | src/kernel/libs/BuiltIn/microshell.c:367-392 | one statement that begins with a letter: an assignment under the last name read, or a word passed over |
| `Shell.MicroShell.Execute` | src/kernel/libs/BuiltIn/microshell.c:358-467 | always ends, with the result, position and memory of the run; behind a terminator that is stepped over the run goes on |
| `Shell.MicroShell.constructor` | src/kernel/libs/BuiltIn/microshell.c:469-471 | no variables |
| `ShellMeaning.GoodChain` | src/kernel/libs/BuiltIn/microshell.c:289-352 | a chain of INT and STR operands faults iff some `/` divides the least int by -1; otherwise it is STR iff all operands are and INT if not, and fails iff some `/` has a zero right side or strings on both sides |
| `ShellMeaning.NumericChain` | src/kernel/libs/BuiltIn/microshell.c:311-335 | a chain of numbers with + - * is exact arithmetic grouped to the right, wrapped to 32 bits once at the end |
| `ShellMeaning.SubtractionAlternates` | src/kernel/libs/BuiltIn/microshell.c:292-328 | an all-minus chain is the alternating sum of its operands |
| `ShellMeaning.GroupingMatters` | src/kernel/libs/BuiltIn/microshell.c:292-328 | that equals left-to-right subtraction iff the third, fifth, ... operands sum to zero |
| `ShellMeaning.Concatenation` | src/kernel/libs/BuiltIn/microshell.c:317-322 | a sum of string literals is all of them in order |
| `ShellMeaning.PlainResult` | src/kernel/libs/BuiltIn/microshell.c:114-175 | over a table without FLOAT and BOOL no chain at all has such a value |
| `ShellValues.ChainValue` | src/kernel/libs/BuiltIn/microshell.c:177-355 | over any table an expression has a value iff, read from the right, every step has one: a sum, difference or product modulo 2^32, a quotient whose remainder is smaller than the divisor and has the sign of the dividend, strings joined, or the left operand; beside an INT a string counts for the number `atoi` reads in it |
| `ShellValues.DivisionHasValue` | src/kernel/libs/BuiltIn/microshell.c:336-338 | a division of numbers has such a quotient unless it is by zero or of the least int by -1 |
| `ShellValues.SevenByTwo` | src/kernel/libs/BuiltIn/microshell.c:336-338 | the text 7/2 has the value 3 |
| `ShellValues.ResultNameIs` | src/kernel/libs/BuiltIn/microshell.c:210-221 | a result carries the name of the first slot that its first operand's name finds, and none if there is no such slot |
| `ShellValues.LastKeyIs` | src/kernel/libs/BuiltIn/microshell.c:93-103 | a chain leaves the last name it read in the name buffer, and the buffer as it was if it read none |
| `ShellValues.AtofOfText` | src/kernel/libs/System/system.c:284-320 | beside a FLOAT: blanks, one sign, digits, a point, digits and then no digit are read as that decimal fraction |
| `ShellValues.StoreReplacesFirst` | src/kernel/libs/BuiltIn/microshell.c:374-388 | an assignment replaces the first slot with the name, or appends one |
| `ShellSyntax.KeyIsPrefix` | src/kernel/libs/BuiltIn/microshell.c:94-100 | the name buffer holds the first 31 characters of the word, or all of it |
| `ShellRuns.TwoTimesThreePlusFour` | src/kernel/libs/BuiltIn/microshell.c:289-335 | the text 2*3+4 has the value 14 |
| `ShellRuns.LeastByMinusOneTraps` | src/kernel/libs/BuiltIn/microshell.c:335-338 | the text 2147483648/0-1 traps |
| `ShellRuns.RunStops` | src/kernel/libs/BuiltIn/microshell.c:363-466 | the position never decreases or leaves the text, success means that a terminator was reached; a run steps over the last terminator iff a statement head is followed only by blanks and every assignment met has a value and a slot, and it succeeds iff no head is and every assignment has |
| `ShellRuns.TextDecides` | src/kernel/libs/BuiltIn/microshell.c:363-392 | in a reachable state whether every assignment met succeeds depends on the text and the number of free slots alone |
| `ShellRuns.SessionStops` | src/kernel/libs/BuiltIn/microshell.c:358-467 | so after any session the text and the free slots decide whether the next run succeeds, steps over its terminator or fails |
| `ShellRuns.RunAddsSlots` | src/kernel/libs/BuiltIn/microshell.c:374-389 | a run takes at most one slot for each assignment it meets, and all of them iff nothing fails |
| `ShellCuts.RunMoved` | src/kernel/libs/BuiltIn/microshell.c:358-467 | what stands in memory before a program has no influence on its run |
| `ShellCuts.RunCut` | src/kernel/libs/BuiltIn/microshell.c:358-467 | with more memory behind its terminator a program runs as by itself, and if it steps over the terminator the run goes on right behind it |
| `ShellRuns.BlanksAtEnd` | src/kernel/libs/BuiltIn/microshell.c:363-464 | that needs a blank at the very end of a nonempty text |
| `ShellRuns.DigitBlankOverruns` | src/kernel/libs/BuiltIn/microshell.c:461-463 | "5 " steps over its terminator |
| `ShellRuns.NoNameHasValue` | src/kernel/libs/BuiltIn/microshell.c:210-221 | over a table without names no expression that mentions one has a value |
| `ShellRuns.AssignReachable` | src/kernel/libs/BuiltIn/microshell.c:368-390 | in a reachable state an assignment that succeeds appends one nameless slot holding the value, and one that fails changes none |
| `ShellRuns.RunReachable` | src/kernel/libs/BuiltIn/microshell.c:358-467 | every run keeps at most 64 slots, none named, none FLOAT or BOOL |
| `ShellRuns.NoReadBack` | src/kernel/libs/BuiltIn/microshell.c:374-388 | after any session from `msh_init` on, an expression that mentions a variable never has a value |
| `ShellRuns.NoFloatNoBool` | src/kernel/libs/BuiltIn/microshell.c:177-355 | after any session every expression is NONE, INT, STR or a fault |
| `ShellRuns.NoSixtyFifthAssignment` | src/kernel/libs/BuiltIn/microshell.c:376-381 | with 64 slots taken in a session no assignment succeeds any more |
| `AhciProtocol.SafeInEveryInterleaving` | src/kernel/libs/Drivers/disk.c:92-157 | from any port state and in any interleaving, set-up writes happen only with ST, FRE, FR, CR clear, and ST rises only with FRE set and CR clear |
| `AhciProtocol.AccessesOfTheCall` | src/kernel/libs/Drivers/disk.c:92-157 | from the first access of the call on and in any interleaving: it is over iff the driver has made the accesses left at its start and one for every repeated poll |
| `AhciProtocol.FinishesOnceLetGo` | src/kernel/libs/Drivers/disk.c:92-157 | after any beginning of a call, once the driver no longer waits for a bit that is up, it is over after exactly the remaining accesses, whatever the controller does |
| `AhciProtocol.BitsOnlyFall` | src/kernel/libs/Drivers/disk.c:148-155 | while the driver polls, FR and CR never rise again |
| `AhciProtocol.WaitsWhileHeld` | src/kernel/libs/Drivers/disk.c:148-155 | as long as the controller keeps FR up, or CR, the driver stays in its loop |
| `AhciLayout.AreasDisjoint` | src/kernel/libs/Drivers/disk.c:96-121 | all command lists, FIS areas and command tables of 32 ports are pairwise disjoint |
| `AhciLayout.AreasAligned` | src/kernel/libs/Drivers/disk.c:96-121 | they are aligned to 1K, 256 and 128 bytes |
| `AhciLayout.Places` | src/kernel/libs/Drivers/disk.c:96-119 | the addresses as the shifts in the code give them |
| `AhciLayout.RebaseOne` | src/kernel/libs/Drivers/disk.c:92-124 | one call leaves 32 headers with eight entries each and their own zeroed table, and every byte of other ports as it was |
| `AhciLayout.RebaseMany` | src/kernel/libs/Drivers/disk.c:92-124 | the same after any sequence of calls, in any order and with repeats |
| `AhciDriver.HbaPort.StopCmd` | src/kernel/libs/Drivers/disk.c:139-157 | the polling loop ends where the protocol does, with all four bits clear |
| `AhciDriver.HbaPort.StartCmd` | src/kernel/libs/Drivers/disk.c:127-136 | on a stopped port the loop ends and FRE and then ST are raised as the protocol does |
| `AhciDriver.HbaPort.SetUpSlot` | src/kernel/libs/Drivers/disk.c:115-121 | one header and one table are written, nothing else, in four set-up writes |
| `AhciDriver.HbaPort.PortRebase` | src/kernel/libs/Drivers/disk.c:92-124 | the memory is the rebased memory, the address registers point to it, the port runs, and the accesses made are one run of the protocol |
| `AhciDriver.HbaPort.ControllerTurn` | src/kernel/libs/Drivers/disk.c:139-157 | what the controller does before an access is a controller's move of the protocol |
| `AhciDriver.HbaPort.WriteCmd` | src/kernel/libs/Drivers/disk.c:129-145 | a write of the register is the protocol's access, and ST rises only with FRE set and CR clear |
| `AhciDriver.HbaPort.SetUpTurn` | src/kernel/libs/Drivers/disk.c:99-121 | a set-up write is the protocol's access, on an idle port |
| `AhciSlots.FindCmdslot` | src/kernel/libs/Drivers/disk.c:254-266 | the number of trailing ones if it is below what is left of the word after shifting, else -1 |
| `AhciSlots.FoundSlotIsFree` | src/kernel/libs/Drivers/disk.c:254-266 | a returned slot is free, all lower ones are taken, and it is below 28 |
| `AhciSlots.FoundBelowABusySlot` | src/kernel/libs/Drivers/disk.c:258-263 | a slot is found only below one that is in use |
| `AhciSlots.FoundIff` | src/kernel/libs/Drivers/disk.c:254-266 | when a slot is found at all: iff the lowest free one is below what is left of the word when its bit has come to the bottom |
| `AhciSlots.FirstFreeIsMissed` | src/kernel/libs/Drivers/disk.c:256-265 | with only the low slots taken, or none, the free slot is missed |
| `AhciRead.PrdtlIsCeiling` | src/kernel/libs/Drivers/disk.c:176 | for 1 to 1048560 sectors the entry count is the ceiling of count/16 |
| `AhciRead.ClearingFits` | src/kernel/libs/Drivers/disk.c:176-180 | for which counts, of all 32-bit ones, the clearing stays in the slot's table |
| `AhciRead.ClearingLeavesTheTable` | src/kernel/libs/Drivers/disk.c:176-180 | 128 sectors clear exactly the table, 129 the first 16 bytes of the next one too |
| `AhciRead.OnlyOwnSlot` | src/kernel/libs/Drivers/disk.c:172-214 | outside the slot's own header and table nothing changes, except that a clearing longer than the table zeroes exactly what it covers behind it |
| `AhciRead.HeaderCounts` | src/kernel/libs/Drivers/disk.c:172-176 | the header says FIS length 5, direction 0, the entry count, and still points to its table |
| `AhciRead.HeaderKeeps` | src/kernel/libs/Drivers/disk.c:172-176 | the header's other flags, its second byte and all behind the entry count stay as they were |
| `AhciRead.FreshHeader` | src/kernel/libs/Drivers/disk.c:172-176 | on a port as `port_rebase` leaves it the first byte becomes exactly 5 |
| `AhciRead.TablesStayLinked` | src/kernel/libs/Drivers/disk.c:172-214 | so does every other header of the port |
| `AhciRead.FisDecodes` | src/kernel/libs/Drivers/disk.c:197-214 | six bytes decode to the 48-bit sector, two to the low 16 bits of the count |
| `AhciRead.FisRest` | src/kernel/libs/Drivers/disk.c:197-214 | the other bytes of the command FIS are zero |
| `AhciRead.EntryFields` | src/kernel/libs/Drivers/disk.c:193-195 | the entry that is filled has the buffer's address, the count in 22 bits, the interrupt bit, and the reserved bits left by the clearing |
| `AhciRead.FilledWithAll` | src/kernel/libs/Drivers/disk.c:193-195 | for 1 to 8192 sectors its count is the size of the whole request |
| `AhciRead.NeverDescribesTheRequest` | src/kernel/libs/Drivers/disk.c:182-195 | the byte counts of the entries in use add up to the request iff it asks for no sectors at all |
| `AhciRead.RepairedEntriesTile` | src/kernel/libs/Drivers/disk.c:183-195 | (repaired, not the code) sixteen sectors an entry and the rest in the last one lie end to end and add up to the request |
| `AhciRead.CommandPort.FillHeader` | src/kernel/libs/Drivers/disk.c:172-180 | the header's fields and the cleared table, byte by byte |
| `AhciRead.CommandPort.FillTable` | src/kernel/libs/Drivers/disk.c:182-214 | the entry and the command FIS, byte by byte |
| `AhciRead.CommandPort.Read` | src/kernel/libs/Drivers/disk.c:164-251 | without a free slot nothing changes; otherwise exactly that slot's command is built and, unless the drive is found busy a million times, issued, the result is true iff it finished without a task file error, and the port is ready for the next read |
| `AhciRead.CommandPort.WaitForCompletion` | src/kernel/libs/Drivers/disk.c:230-250 | the loop ends; success means finished and no error, failure means an error |
| `Terminal.RowsAndColumns` | src/kernel/kernel.c:83-109 | rows and columns with their carries are one position among 2000 cells |
| `Terminal.VgaTerminal.PutChar` | src/kernel/kernel.c:83-109 | newline: next row, or the top from row 24, column 0, no cell changed; backspace: one cell back and a blank there; any other character in its cell, then one column further or to the next row |
| `Terminal.VgaTerminal.Write` | src/kernel/kernel.c:112-116 | every character of a text, in order |
| `Terminal.TextLaidOut` | src/kernel/kernel.c:83-121 | a text without backspaces that stays on the screen: the row has gone down by its newlines and wraps, the column is the length of its last line, each character is in its cell and every other cell is as it was |
| `Terminal.VgaTerminal.constructor` | src/kernel/kernel.c:58-70 | every cell blank, cursor at the top |
| `Terminal.LineInput.Input` | src/kernel/kernel.c:156-202 | each key steps the line and the screen; Enter terminates the buffer |
| `Terminal.TypedIsStack` | src/kernel/kernel.c:156-202 | over any keys the line is a stack: backspace pops, a printing key pushes its character from the shifted table iff the key before it was a shift key, all others leave it |
| `Terminal.TypingIsCoupled` | src/kernel/kernel.c:156-202 | over any keys that stay on the screen the cells from the start show exactly the text, erased cells are blank, others untouched, and the cursor follows the text |
| `Terminal.KeyStaysCoupled` | src/kernel/kernel.c:156-202 | a key keeps that if and only if the line does not come to the end of the screen |
| `Terminal.EraseUndoes` | src/kernel/kernel.c:166-171 | backspace takes a typed character back; the cursor returns iff it had not wrapped |
| `Editor.EditorState.HandleInput` | src/kernel/kernel.c:313-402 | every key: modifiers, control combinations, Enter, backspace, characters |
| `Editor.RunModifiers` | src/kernel/kernel.c:318-332 | over any run a control key is pending iff it was the last key, a shift key likewise, and never both |
| `Editor.RunLeaves` | src/kernel/kernel.c:335-356 | a run leaves the editor at the first key that maps to q or r with a control key pending, and at no other |
| `Editor.RunTypes` | src/kernel/kernel.c:313-402 | the text after a run is a stack: Enter pushes a newline, backspace pops, other keys push their character, shifted iff a shift is pending, and modifiers and combinations change nothing |
| `Editor.StepStaysCoupled` | src/kernel/kernel.c:357-402 | row, column and NUL tail are kept by a key iff it does not erase a newline |
| `Editor.RunStaysCoupled` | src/kernel/kernel.c:313-402 | over a run they are right throughout iff no backspace removes a newline |
| `Editor.InitiallyCoupled` | src/kernel/kernel.c:304-310 | they are right in the empty editor |
| `Editor.EnterThenErase` | src/kernel/kernel.c:365-382 | Enter and backspace leave column 2^32-1 and row 1 on an empty text |
| `Editor.RepairedEraseStaysCoupled` | src/kernel/kernel.c:372-379 | (repaired, not the code) reading the character before clearing it keeps the cursor right |
| `Executor.LineExecutor.ExecuteBuffer` | src/kernel/kernel.c:414-467 | for every buffer and every behaviour of the shell: the calls made, the result and the final buffer are those of the plan over the nonempty lines |
| `Executor.LineExecutor.EndLine` | src/kernel/kernel.c:431-451 | the line runs cut off, and the newline comes back unless it failed |
| `Executor.PlanRunsLines` | src/kernel/kernel.c:430-467 | success iff every line's call succeeds, then each ran once; otherwise the lines up to the first failure ran, with the failing one twice and the text cut iff it ended in a newline |
| `Executor.FullLine` | src/kernel/kernel.c:430-453 | a stretch between newlines is the next maximal newline-free run |
| `ShellPrograms.CallReaches` | src/kernel/kernel.c:431-443 | a run in the buffer cut at a line's end is the run of the line alone, unless that line steps over the NUL: then all that is left of the text runs in it as one program |
| `ShellPrograms.PlanIsRun` | src/kernel/kernel.c:430-467 | the executor over the shell's own verdicts makes the shell's calls up to one that does not return; if all return it makes no others and succeeds iff all of them do |
| `ShellPrograms.LinesStandAlone` | src/kernel/kernel.c:430-467 | if no line has a statement head before trailing blanks, no call leaves its line, and a program that succeeds leaves the memory of the session of its lines |
| `ShellPrograms.CallsLeave` | src/kernel/kernel.c:430-467 | in a successful program some call leaves its line iff some line that ends in a newline has a statement head before trailing blanks |
| `ShellPrograms.ProgramAddsSlots` | src/kernel/kernel.c:430-467 | a successful program takes one slot for each assignment of its lines and again one for each assignment behind a line that leaves itself; every program keeps the table reachable |
| `ShellPrograms.AssignsOnceIff` | src/kernel/kernel.c:430-467 | so a successful program makes each assignment once, and leaves the variables of the session of its lines, iff no assignment stands behind a line that leaves itself |
| `ShellPrograms.ProgramDecides` | src/kernel/kernel.c:430-467 | whether a program succeeds is decided by its text and the number of free slots |
| `ShellPrograms.AnyProgram` | src/kernel/kernel.c:414-467 | both for the lines of any program text after any session from `msh_init` on |
| `ShellPrograms.RunsTwice` | src/kernel/kernel.c:430-467 | the program "5 " newline "x=1" succeeds and has made its one assignment twice |
| `Tokenizer.Tokens.Strtok` | src/kernel/libs/System/system.c:170-202 | the next run and the next saved position; only the end of the run is overwritten; NULL without runs, and after NULL again |
| `Tokenizer.Tokens.SplitCommand` | src/kernel/kernel.c:469-479 | the positions of all runs in order; the text changes only by a NUL at the first delimiter after each |
| `Tokenizer.Strspn` | src/kernel/libs/System/system.c:137-154 | counts up to the first character outside the set |
| `Tokenizer.Strpbrk` | src/kernel/libs/System/system.c:157-167 | the first character in the set, or none |
| `Tokenizer.RunsAreMaximal` | src/kernel/libs/System/system.c:170-202 | every token is a maximal delimiter-free run, and they come in order |
| `Tokenizer.EveryRunIsFound` | src/kernel/libs/System/system.c:170-202 | every maximal delimiter-free run is a token |
| `Tokenizer.CutRun` | src/kernel/libs/System/system.c:196-198 | in the cut text each token stands unchanged and closed off |
| `Tokenizer.RunsBound` | src/kernel/kernel.c:469-479 | at most (n+1)/2 tokens |
| `Tokenizer.BoundIsReached` | src/kernel/kernel.c:469-479 | texts of every odd length reach that bound |
| `Pages.PageAllocator.AllocPage` | src/kernel/libs/System/system.c:17-25 | the lowest free page, NULL iff there is none |
| `Pages.PageAllocator.FreePage` | src/kernel/libs/System/system.c:27-35 | frees the page at that very address, and nothing for any other pointer |
| `Pages.UsedIsLive` | src/kernel/libs/System/system.c:17-35 | over any run the bitmap is the set of pages handed out and not freed since |
| `Pages.LivePagesDisjoint` | src/kernel/libs/System/system.c:17-35 | two live grants never overlap |
| `Pages.FullWhenAllUsed` | src/kernel/libs/System/system.c:17-25 | there is no free page iff all 4096 are used |
| `Pages.OffsetOfPage` | src/kernel/libs/System/system.c:27-34 | the wrapped offset names a page only for page addresses |
| `Heap.KernelHeap.Malloc` | src/kernel/libs/System/system.c:100-105 | grants at the index when the 32-bit sum fits, and moves it |
| `Heap.KernelHeap.Strdup` | src/kernel/libs/System/system.c:121-132 | a terminated copy in a granted block, or NULL and no change |
| `Heap.KernelHeap.Strndup` | src/kernel/libs/System/system.c:204-222 | a terminated copy of at most n characters |
| `Heap.KernelHeap.Mmap` | src/kernel/libs/System/system.c:335-357 | one slot and one block, or neither |
| `Heap.KernelHeap.Munmap` | src/kernel/libs/System/system.c:359-370 | ends the first mapping in use at the address, or fails |
| `Heap.GrantInsideHeap` | src/kernel/libs/System/system.c:100-105 | a granted block lies in the heap iff its sum does not wrap |
| `Heap.GrantedIff` | src/kernel/libs/System/system.c:100-101 | a block is granted iff it ends within the heap, or its sum wraps and what is left of it does |
| `Heap.TakesBytes` | src/kernel/libs/System/system.c:100-145 | what each request takes from the heap, unless a sum wraps: `strndup` its limit and one more however short the text is, and nothing when it does not fit |
| `Heap.WrapReusesBlocks` | src/kernel/libs/System/system.c:100-105 | a wrapping request is granted and rewinds the heap to the first block |
| `Heap.RunPacks` | src/kernel/libs/System/system.c:100-132 | over every run whose copies stay in the heap: the blocks tile the heap up to the index and every copy is still intact iff no 32-bit sum has wrapped |
| `Heap.PackedTotal` | src/kernel/libs/System/system.c:100-105 | the index of a tiled heap is the sum of the granted sizes |
| `Heap.PackedApart` | src/kernel/libs/System/system.c:100-132 | so any two blocks are apart |
| `Heap.CopiesLast` | src/kernel/libs/System/system.c:121-132 | whatever is asked for later, a string copied by `strdup` stands where it was put, with its NUL, and of one copied by `strndup` the first n characters |
| `Heap.MmapsBounded` | src/kernel/libs/System/system.c:335-357 | over every run: slots taken equal successful mmaps, at most 256 |
| `Heap.RunInOrder` | src/kernel/libs/System/system.c:335-357 | without wraps the slots are in address order and do not overlap |
| `Heap.UnmapsBalance` | src/kernel/libs/System/system.c:335-370 | over every run and for every address: successful mmaps returning it equal successful munmaps of it plus the mappings in use there |
| `Heap.RunEndsOldestFirst` | src/kernel/libs/System/system.c:359-370 | over every run: of the mappings at one address the oldest end first |
| `Heap.EachUnmapEndsOne` | src/kernel/libs/System/system.c:359-370 | munmap succeeds iff a mapping is in use at the address, and ends exactly one |
| `Heap.SharedAddress` | src/kernel/libs/System/system.c:335-357 | mappings share an address only after one of length zero |
| `Heap.EndsThisOne` | src/kernel/libs/System/system.c:359-370 | munmap ends a given mapping iff no older one at its address is in use, and without wraps an older one has length zero |
| `Heap.PositiveEndsLast` | src/kernel/libs/System/system.c:335-370 | without wraps a positive-length mapping is in use iff munmap of its address still succeeds, that is until it has succeeded as often as mmap returned the address |
| `Heap.EmptyMappingGoesFirst` | src/kernel/libs/System/system.c:335-370 | mmap(0), mmap(5), munmap(0): the call succeeds but the five bytes stay mapped, and a second munmap(0) succeeds too |
| `Heap.UnmapOnce` | src/kernel/libs/System/system.c:359-370 | once a positive-length mapping has been unmapped, no munmap of its address succeeds again, whatever comes later |
| `Heap.NeverMappedAgain` | src/kernel/libs/System/system.c:324-370 | without wraps, whatever comes later, a positive-length mapping's address is not mapped again and an ended mapping stays ended |
| `Numbers.Itoa` | src/kernel/libs/System/standard.c:15-45 | in every base from 2 to 36 the text and its NUL are written, nothing else |
| `Numbers.ItoaOtherBase` | src/kernel/libs/System/standard.c:25-36 | in every base but ten the characters stand for exactly the number, and all of them are digits iff it is not negative |
| `Numbers.StoreDigits` | src/kernel/libs/System/standard.c:31-35 | the digits, least significant first |
| `Numbers.ReverseInPlace` | src/kernel/libs/System/standard.c:38-44 | the stretch is reversed, the rest unchanged |
| `Numbers.Atoi` | src/kernel/libs/System/system.c:76-98 | blanks, one sign, digits: the exact number, wrapped |
| `Numbers.AtoiOfText` | src/kernel/libs/System/system.c:76-98 | blanks, one sign, digits, then anything that is no digit: the digits with that sign |
| `Text.Classes` | src/kernel/libs/System/system.c:71-74 | the character classes by number: blank and tab to carriage return, the ten digits, the letters |
| `Numbers.DecimalAppend` | src/kernel/libs/System/system.c:92-95 | one more digit: ten times the number so far and the digit |
| `Numbers.ItoaShape` | src/kernel/libs/System/standard.c:15-45 | for all but INT_MIN: '-' iff negative, then canonical digits of the magnitude |
| `Numbers.AtoiOfItoa` | src/kernel/libs/System/system.c:76-98 | `atoi` of the text is the number iff it is not INT_MIN |
| `Numbers.NoOverflowReadingBack` | src/kernel/libs/System/system.c:92-95 | no prefix read on the way exceeds INT_MAX |
| `Numbers.IntMinText` | src/kernel/libs/System/standard.c:25-35 | the text of INT_MIN has no digits for `atoi` to read |
| `Numbers.FitsInTwelve` | src/kernel/libs/System/standard.c:66-72 | every text fits in 12 bytes with its NUL, and one needs them all |
| `Printk.Printk` | src/kernel/libs/System/standard.c:57-87 | the text shown is the expansion of the format |
| `Printk.ExpandConcat` | src/kernel/libs/System/standard.c:63-86 | formats expand piece by piece |
| `Printk.OtherPieces` | src/kernel/libs/System/standard.c:73-84 | `%s` puts its string, a percent sign before another character stays with it, and so does one at the end |
| `Printk.NumberInText` | src/kernel/libs/System/standard.c:66-72 | `%d` puts the number's text in place, and it reads back |
| `Acpi.CheckRsdPtr` | src/kernel/libs/Drivers/acpi.c:46-77 | the address field of a structure with the signature and a zero 20-byte sum, else NULL |
| `Acpi.GetRsdPtr` | src/kernel/libs/Drivers/acpi.c:82-109 | that of the lowest candidate in the BIOS range, then of the EBDA's first kilobyte |
| `Acpi.FirstCandidate` | src/kernel/libs/Drivers/acpi.c:88-106 | the lowest 16-byte step with a non-null address, with none below it |
| `Acpi.SignExtensionIsHarmless` | src/kernel/libs/Drivers/acpi.c:97-98 | the sign-extended segment gives the right linear address |
| `Acpi.CheckHeader` | src/kernel/libs/Drivers/acpi.c:114-130 | 0 iff the signature matches and the bytes sum to zero |
| `Acpi.OneByteIsNoticed` | src/kernel/libs/Drivers/acpi.c:114-130 | two tables of one length that differ in one byte are never both accepted |
| `AcpiSoftOff.DecodeEncoded` | src/kernel/libs/Drivers/acpi.c:207-220 | an encoded package, with any length encoding and either form of name, decodes to its two values shifted by 10 |
| `AcpiSoftOff.BodyRoundTrip` | src/kernel/libs/Drivers/acpi.c:192-220 | the same through the search, when the first occurrence of the name is the package |
| `AcpiSoftOff.FacpIsFirst` | src/kernel/libs/Drivers/acpi.c:183-190 | the first entry of the root table that is a fixed description table, with none before it |
| `AcpiSoftOff.SoftOffRoundTrip` | src/kernel/libs/Drivers/acpi.c:174-254 | the same from the root table on: `InitAcpi` takes exactly the two values encoded in the first description table's definition block |
| `AcpiBytes.RootDecodes` | src/kernel/libs/Drivers/acpi.c:46-77 | an encoded root structure (signature, checksum, six OEM bytes, revision, address) with a zero sum gives its address |
| `AcpiBytes.CandidateIff` | src/kernel/libs/Drivers/acpi.c:82-106 | the search stops at a step iff such a structure with a non-null address is encoded there |
| `AcpiBytes.RootInBios` | src/kernel/libs/Drivers/acpi.c:88-93 | the first one at a 16-byte step of the BIOS range gives the root table, whatever the EBDA holds |
| `AcpiBytes.RootInEbda` | src/kernel/libs/Drivers/acpi.c:96-106 | without one there, the first one in the first kilobyte of the EBDA does |
| `AcpiBytes.NoRoot` | src/kernel/libs/Drivers/acpi.c:82-109 | without any, there is none |
| `AcpiBytes.AcceptedIff` | src/kernel/libs/Drivers/acpi.c:114-130 | a table is accepted iff its four characters match and the bytes over its length field sum to zero |
| `AcpiBytes.DescriptionDecodes` | src/kernel/libs/Drivers/acpi.c:26-41 | every field of an encoded description table comes out as it went in |
| `AcpiBytes.SoftOffFromBytes` | src/kernel/libs/Drivers/acpi.c:174-254 | from bytes to bytes: root structure, root table entries, description table, definition block and package, all encoded, give the package's sleep types and the table's registers |
| `AcpiBytes.RootFound` | src/kernel/libs/Drivers/acpi.c:82-109 | a root table is found only where such a structure is encoded and is the first one, the BIOS range before the EBDA |
| `AcpiBytes.FirstFacpIff` | src/kernel/libs/Drivers/acpi.c:182-192 | the search stops at exactly the first entry within the root table's length that points to an accepted description table |
| `AcpiBytes.NameAtIff` | src/kernel/libs/Drivers/acpi.c:196-206 | the name is found exactly at its first place within the body's length, unless that is the last byte |
| `AcpiBytes.LeadsThere` | src/kernel/libs/Drivers/acpi.c:174-235 | where root structure, root table, first description table, definition block and declared package follow from one another, that table and that package are used |
| `AcpiBytes.SoftOffIff` | src/kernel/libs/Drivers/acpi.c:174-254 | `initAcpi` succeeds iff the bytes of the machine lead that way: no later description table or name makes up for a bad first one |
| `AcpiSoftOff.DisjointFromEnable` | src/kernel/libs/Drivers/acpi.c:215-232 | a shifted sleep type leaves SLP_EN free |
| `AcpiSoftOff.AcpiState.FindName` | src/kernel/libs/Drivers/acpi.c:195-205 | the first occurrence in the body, unless it is at the last byte |
| `AcpiSoftOff.AcpiState.TakeOver` | src/kernel/libs/Drivers/acpi.c:210-233 | the sleep types, and every register and value the table names |
| `AcpiSoftOff.AcpiState.UseFacp` | src/kernel/libs/Drivers/acpi.c:192-244 | the sleep types and every register, or nothing, is taken from one description table |
| `AcpiSoftOff.AcpiState.InitAcpi` | src/kernel/libs/Drivers/acpi.c:174-254 | 0 iff the first description table leads to a well-formed package, and then everything is taken from it; nothing changes otherwise |

## Left out

- Numbers.Itoa: a base outside 2 to 36, which has no digits to write or none to divide by; every caller passes ten.
- Shell.MicroShell.EvalExpr: signed overflow of + - *, undefined in C, is two's complement wrapping; a string is a value and its allocation always succeeds; a fault ends the run; FLOAT is `real`, without rounding, and `NoFloatNoBool` shows that it does not arise; where an error leaves a string's address in place of a number the model has 0.
- ShellMeaning.ConvertVar: conversions to STR are not modelled, because no caller asks for one.
- Shell.MicroShell.Execute: the statements `print(`, `if ` and `while ` and the operands `True`, `False`, `inw(`, `outw(` and `input(` begin with letters and are never reached; a run is followed up to the last terminator of the memory it is given.
- ShellPrograms.Call: the memory behind the whole text is not known, so a call that steps over the text's last terminator ends there, as one that crashes does.
- AhciDriver.HbaPort.StartCmd: only on a port whose ST is clear, as after `stop_cmd`; on a running port the loop may wait for ever.
- AhciDriver.HbaPort.ControllerTurn: assumes that the controller drops FR and CR within a bounded number of its turns once the driver has withdrawn FRE and ST.
- AhciDriver.HbaPort.PortRebase: what a running controller itself writes into a port's memory is not modelled; the shared memory is the driver's alone while the port is idle.
- AhciRead.CommandPort.Read: requires that the clearing stays in the memory of the ports, which `ClearingFits` shows for 0 to 128 sectors and more, and a device that finishes or fails within a bounded number of polls; the status reads of the wait for a ready drive may go either way.
- AhciRead.CommandPort.FillHeader: the same for the clearing.
- Heap.KernelHeap.Strndup: like `Strdup`, requires that a copy that is granted stays inside the heap, and the theorems about runs (`Feasible`) require it of every copy in them; only a wrapped sum can break it (`NoWrapFits`, `GrantInsideHeap`, `WrapReusesBlocks`).
- Terminal.LineInput.Input: keys are below 128 and the layout tables name no newline or backspace; where the key comes from is not modelled.
- Editor.EditorState.HandleInput: the uninitialised `shifted` pointer is a flag; the redraw, which writes the terminal's cursor directly, is left out.
- Executor.LineExecutor.ExecuteBuffer: what is written to the screen is left out; the shell is any sequence of results.
- Tokenizer.Tokens.SplitCommand: requires an argument array as large as the number of tokens; the ten entries of `terminal_prompt` are not checked by the code.
- Printk.Printk: requires arguments of the kinds the format names and a text below 256 characters, as the code does without checking.
- Acpi.CheckHeader: a length above INT_MAX is read as negative and makes the sum empty; the model keeps this.
- `acpiEnable` and `acpiPowerOff`: port access and waiting.
- `pci.c`, `usb.c`, `keyboard.c`, `time.c` and the boot code: device access with no state of their own to reason about.
- `get_hba_port`, `get_ahci_devices`, `probe_port` and the command dispatch of `terminal_prompt`: plumbing.
- `strlen`, `strcpy`, `strcat`, `strncpy`, `memset`, `memcpy`: single loops, used through what they do to their callers' buffers.
