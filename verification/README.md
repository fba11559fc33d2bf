# RetroBSD user-land, modelled in Dafny

Ten programs and library routines of RetroBSD, each with a specification that can be
stated in full. Every module holds the code in the form of the source (classes with fields,
arrays, loops) next to a reference definition that does not look like the code, and the proof
that the two agree.

- **Instruction-cache emulator** (`ICache`, `Emulator`, `Encoding`, `DelaySlot`, `HiLo`,
  `HiLoProgram`).
  A four-way cache over the executable file with a fast path for the rest of a line, driven by an
  interpreter whose three-valued flag stands for the delay slot. Cached fetch is plain fetch over
  whole runs; the flag is the machine with pc and next pc, with the exact condition for agreement
  and a condition on the program text that implies it; HI:LO is exact modulo 2^64 in every run.
- **sort** (`Order`, `Lex`, `QuSort`, `LineOrder`, `MergeSort`, `SortFiles`). Reading lines into a limited
  buffer, the fat-pivot quicksort with four moving boundaries, the k-way merge by insertion and the
  passes over seven files at a time.
- **grep** (`GrepPattern`, `Grep`, `GrepCompile`, `GrepText`, `GrepLaws`). A compiler from patterns
  to bytes, the backtracking interpreter of the bytes, the denotation that both are measured by,
  and the syntax trees whose texts are exactly the patterns.
- **factor** (`Factor`) and **fmod** (`Words`, `FloatValue`, `Fmod32`, `Fmod64`). Mixed-radix
  digits with borrow; shift-and-subtract remainder on one and on two words.
- **tsort** (`Tsort`). The printing loop and the search for a cycle.
- **dd** (`Dd`, `DdRoundTrip`, `DdCase`). The re-blocking buffer and the converters block and unblock.
- **join** (`Join`, `JoinFields`, `JoinText`). The merge that rewinds the second file, the line
  splitter, and both together from text to output.
- **ed** (`EdStore`, `EdLaws`, `EdMove`). The temporary file behind two block buffers, and the `m` command.
- **canfield** (`Canfield`, `CanfieldRules`, `CanfieldLaws`, `CanfieldDeck`, `CanfieldGame`). The
  solitaire as a state machine over typed commands, against the same game played with piles of
  cards and a rule book in card numbers.

`Arith` holds arithmetic used by several modules.

Files are sequences of words, lines or blocks; standard input and output are sequences. Integers
are unbounded in Dafny; 32-bit wrap-around, truncation and range are written out where the source
depends on them. Preconditions are those under which the source works at all: a text segment that
is placed as the linker places it, sorted inputs for `join`, 7-bit text for `grep`.

## What came out differently from the documentation or from expectation

- The fast path of the cache ignores the end of the text segment. `ICache.FetchAcrossEnd` shows
  that this matters exactly when the segment does not end on a line boundary and file and memory
  differ there.
- `j` and `jal` take the upper bits of their target from their own address. The architecture takes
  those of the delay slot. The link register is written before the operands are read.
  `DelaySlot.JumpAtRegionEnd` and `DelaySlot.JumpThroughLink` are the differences, and
  `DelaySlot.StepAgreesIff` has the exact condition.
- In `grep`, all `*` at the start of a pattern are literal, and `[z-a]` is the class of `z` alone.
  A class cut off after `-` reads beyond the pattern, and a literal that finds one byte left stores
  the second past the buffer. Both are outcomes of their own, with the exact condition for each in
  `GrepCompile.Compile`.
- `join` splits a last line without its newline into its own fields and those that an earlier line
  has left in the buffer; `JoinFields.ReadIff` has the exact condition for the line to be read as
  it is.
- `sort` drops lines that do not fit its buffer. A byte 255 beyond the buffer ends the dropping
  early (`SortFiles.DiscardsLineIff`).
- `sort` orders lines backwards and writes its runs from the top (`LineOrder.PrefixIsGreater`).
- In `ed`, a move that is refused because the destination lies inside the block has already cleared
  the marks of the block. A line that does not fit the temporary file is refused without harm to
  the lines stored.
- In `canfield`, the bottom pointer of a pile that has been emptied onto a foundation is out of
  date; the invariant claims it for nonempty piles only, and `tabok` still gives the right answer.
- `dd` restores a text under the condition of `DdRoundTrip.RoundTripIff`, which also covers an
  unfinished last line.

## Model

| member | source | states |
|---|---|---|
| `ICache.Cache.constructor` | src/libicache/icachec.c:399-477 | The empty cache is coherent: every way is marked empty, so the invariant of all later fetches holds at the start. |
| `ICache.Cache.FindTag` | src/libicache/icachec.c:425-437 | The way found is the first of the set whose tag is the one looked for; when none is found, no way has it. |
| `ICache.Cache.ChooseWay` | src/libicache/icachec.c:444-459 | The first empty way is used while there is one; otherwise the victim counter moves on by one, cyclically, and names the way. |
| `ICache.Cache.Fill` | src/libicache/icachec.c:461-472 | After a miss the chosen way holds exactly the line of the file, and coherence is kept: every way is empty or holds a line of the text, no line is held twice, no valid tag has the top bit; all other ways are untouched. |
| `ICache.Cache.Lookup` | src/libicache/icachec.c:425-472 | A lookup succeeds if and only if the file has the whole line, and the way returned then holds that line under its tag. |
| `ICache.Cache.NextInLine` | src/libicache/icachec.c:403-412 | The fast path returns the word of the file at the address asked for and stays in step with the next address. |
| `ICache.Cache.FetchLine` | src/libicache/icachec.c:422-476 | The word returned is the word of the file, and counter and pointer describe exactly the rest of its line. |
| `ICache.Cache.LineStaysInText` | src/libicache/icachec.c:403-412 | When the text segment ends on a line boundary, the fast path can never run past the segment. |
| `ICache.Cache.SkipKeepsSync` | src/libicache/icachec.c:984-997 | Dropping k words from counter and pointer keeps the fast path in step with an address 4k further on. |
| `ICache.Cache.FetchProgramWord` | src/libicache/icachec.c:399-477 | Cached fetch equals plain fetch: for a segment that ends on a line boundary every call returns the word of the image (file inside the text, memory outside, nothing when the file is too short), whatever the cache holds; coherence and the fast path invariant are kept. |
| `ICache.FetchAcrossEnd` | src/libicache/icachec.c:403-412 | Running straight over the end of the segment gives the word of a plain fetch if and only if the segment ends on a line boundary or memory and file hold the same word there. |
| `Emulator.SkippedWords` | src/libicache/icachec.c:720-997 | The words that an instruction drops from the fast path are exactly the words by which it moves the PC further on; a taken transfer drops none. |
| `Emulator.Cpu.DoBranch` | src/libicache/icachec.c:984-997 | A branch has the effect of the reference function on PC, slot flag and registers, and patches counter and pointer by the words skipped, likely or not. |
| `Emulator.Cpu.DoSpecial` | src/libicache/icachec.c:720-758 | Register jumps, system calls (skip of 0 or 2 words) and data instructions of opcode 0 have the effect of the reference function, link value pc+8 included. |
| `Emulator.Cpu.DoRegImm` | src/libicache/icachec.c:920-942 | The branches of opcode 1, with and without link, likely or not, have the effect of the reference function. |
| `Emulator.Cpu.Switch` | src/libicache/icachec.c:671-1151 | The switch stops exactly on the instructions the reference refuses and otherwise has its effect. |
| `Emulator.Cpu.SkipMatchesNextPc` | src/libicache/icachec.c:984-997 | The hand patches of branch-likely and system calls keep the fast path in step with the next PC. |
| `Emulator.Cpu.EndOfLoop` | src/libicache/icachec.c:1153-1171 | The three-valued slot flag, the saved target and the reset of the counter commit the effect and leave the fast path in step with the PC. |
| `Emulator.Cpu.Step` | src/libicache/icachec.c:644-1171 | One pass of the loop stops or ends in the same state as the pass that fetches without a cache, and keeps the cache invariant. |
| `Emulator.Cpu.Emulate` | src/libicache/icachec.c:637-1176 | Over any number of passes the addresses executed and the final state are those of the emulator with plain fetches: cache, tags, eviction and fast path are invisible. |
| `Encoding.ImmediateFields` | src/libicache/icachec.c:660-668 | A word built by addition from opcode, two registers and a signed offset is read back as exactly these, negative offsets included. |
| `Encoding.RegisterFields` | src/libicache/icachec.c:660-668 | The same for words built from three registers, a shift amount and a function code. |
| `Encoding.JumpFields` | src/libicache/icachec.c:660-668 | The same for words built from an opcode and a 26-bit target. |
| `Encoding.CompareBranches` | src/libicache/icachec.c:947-960 | beq, bne, blez and bgtz, for all registers and offsets: the test on the two's complement values, and a taken branch goes to pc + 4 + 4 off, backwards or forwards. |
| `Encoding.LikelyCompareBranches` | src/libicache/icachec.c:984-997 | The four likely forms: the same targets, and the slot is skipped when the branch is not taken. |
| `Encoding.SignBranches` | src/libicache/icachec.c:923-926 | bltz, bgez and their likely forms. |
| `Encoding.LinkingBranches` | src/libicache/icachec.c:935-938 | The four forms that first put the address behind the slot into register 31. |
| `Encoding.Jumps` | src/libicache/icachec.c:944-945 | j and jal go to four times the target in the 256 MB around the jump; jal sets register 31. |
| `Encoding.RegisterJumps` | src/libicache/icachec.c:720-733 | jr and jalr, for all registers. |
| `Encoding.SystemCalls` | src/libicache/icachec.c:752-758 | syscall hands registers and memory to the system and goes on behind it, or two words further. |
| `Encoding.OtherWords` | src/libicache/icachec.c:671-1151 | Every other word is a data instruction or stops the emulator. |
| `Encoding.FileWord` | src/libicache/icachec.c:403-476 | Word k of the file is what is executed at 4 k bytes from the start of the text. |
| `Encoding.RegisterZero` | src/libicache/icachec.c:1153-1171 | After every instruction register 0 is 0, and the other registers and the memory are as the instruction left them. |
| `Encoding.BranchAndSlot` | src/libicache/icachec.c:644-1171 | A taken branch and the instruction in its slot: after two passes the PC is the branch target. |
| `Encoding.BranchToSelf` | src/libicache/icachec.c:947 | `beq $0, $0, -1` comes back to its own address. |
| `DelaySlot.SwitchFollowsTables` | src/libicache/icachec.c:720-997 | Every control transfer of the switch has the condition, target, link value and likely behaviour given in the instruction tables of MIPS32 Architecture For Programmers Volume II, with the link register written before the operands are read. |
| `DelaySlot.TransferAgreesIff` | src/libicache/icachec.c:1155-1171 | For a control transfer, flag and saved target reach the state of the machine with pc and next pc if and only if writing the link register first leaves condition and target as they were, the jump is not on the last word of a region, and a slot that holds it is that of a branch to the next word. |
| `DelaySlot.OtherAgreesIff` | src/libicache/icachec.c:720-758 | The same for all other instructions; only a system call that skips words inside a delay slot disagrees. |
| `DelaySlot.StepAgreesIff` | src/libicache/icachec.c:644-648 | One pass equals one step of the two-counter machine (MIPS32 Architecture For Programmers Volume I, Branch Delays and the Branch Delay Slot) if and only if the instruction is agreeable; both stop together. |
| `DelaySlot.RunsAgree` | src/libicache/icachec.c:644-1171 | Over every run of agreeable instructions the loop executes the address sequence of the two-counter machine, nullified slots included, and ends in the same registers, memory and counters, or stops with it. |
| `DelaySlot.DisciplinedIsAgreeable` | src/libicache/icachec.c:720-997 | Every run without a control transfer or skipping system call in a delay slot and without jumps on a region's last word is agreeable. |
| `DelaySlot.TextDisciplinesRuns` | src/libicache/icachec.c:720-997 | A condition on the program text alone decides it: if no text word is a hazard and none that follows a transfer is a transfer or a system call, every run inside the text is disciplined, whatever data instructions and system calls do. |
| `DelaySlot.TextRunsAgree` | src/libicache/icachec.c:644-1171 | On such a text the loop and the two-counter machine have the same trace and the same final state over every run inside it. |
| `DelaySlot.EmulateArchitecture` | src/libicache/icachec.c:637-1176 | Cached fetch and slot flag together: the emulator's trace is the architecture's trace, and its state after n steps is the architecture's state. |
| `DelaySlot.JumpAtRegionEnd` | src/libicache/icachec.c:944-945 | The counterexample: `j` on the last word of a 256 MB region goes to the region of the jump, where the architecture takes the region of the delay slot. |
| `DelaySlot.JumpThroughLink` | src/libicache/icachec.c:727-733 | The other counterexample: `jalr` with one register for source and link goes to its own return address, where a machine that reads first goes to the register. |
| `HiLo.HalvesJoin` | src/libicache/icachec.c:788-809 | Both halves of a signed or unsigned 64-bit product, joined, are the product modulo 2^64. |
| `HiLo.AddHalves` | src/libicache/icachec.c:1006-1033 | Adding with the carry taken from the low halves only is addition modulo 2^64. |
| `HiLo.SubHalves` | src/libicache/icachec.c:1034-1058 | Subtracting with the borrow taken from the low halves only is subtraction modulo 2^64. |
| `HiLo.AccumulateIsExact` | src/libicache/icachec.c:788-1058 | The halves that one instruction leaves, carry and borrow included, are the exact new sum modulo 2^64. |
| `HiLo.Accumulator.Execute` | src/libicache/icachec.c:1006-1058 | Each of mult, multu, madd, maddu, msub and msubu turns HI:LO for a sum into HI:LO for the new exact sum. |
| `HiLo.Accumulator.ExecuteAll` | src/libicache/icachec.c:788-1058 | After any sequence of the six instructions HI:LO is the exact signed and unsigned sum of products modulo 2^64. |
| `HiLoProgram.MultiplyWords` | src/libicache/icachec.c:788-809 | For all registers: function code 24 of opcode 0 leaves the signed product in HI:LO and 25 the unsigned one, and nothing else changes. |
| `HiLoProgram.AccumulateWords` | src/libicache/icachec.c:1006-1058 | For all registers: function codes 0, 1, 4 and 5 of opcode 28 add or subtract the signed or unsigned product modulo 2^64, and nothing else changes. |
| `HiLoProgram.MaddAndMsub` | src/libicache/icachec.c:1006-1045 | The words of `madd $4, $5` and `msub $4, $5`. |
| `HiLoProgram.StepHiLo` | src/libicache/icachec.c:788-1058 | One pass of the fetch-execute loop adds, subtracts or sets exactly the product of an accumulator instruction in registers LO and HI, and leaves them alone otherwise. |
| `HiLoProgram.RunIsExact` | src/libicache/icachec.c:644-1171 | Over every run of a program, with branches, delay slots and other instructions in between, HI:LO is the exact sum of the products of the accumulator instructions executed, modulo 2^64, with the operands they had at the time. |
| `HiLoProgram.EmulateSum` | src/libicache/icachec.c:637-1176 | The same for the emulator with its cache. |
| `QuSort.Compare` | src/cmd/sort.c:841-854 | Only live rows are compared: a line blanked by -u never reaches the comparison again. |
| `QuSort.ScanLeft` | src/cmd/sort.c:840-850 | The left scan keeps the four-boundary invariant (below, equal, unknown, above the pivot) and stops only at the equal range or at a row above the pivot. |
| `QuSort.ScanRight` | src/cmd/sort.c:852-873 | The right scan, with its two-way and three-way exchanges, keeps the invariant and either shrinks the unknown part or reaches the equal range. |
| `QuSort.Partition` | src/cmd/sort.c:834-892 | The loop ends, and the range is a permutation of what it was, split into rows below, equal to and above the pivot. |
| `QuSort.BlankRepeats` | src/cmd/sort.c:876-878 | With -u all rows of the equal range but its first are blanked; no other row and no line changes. |
| `QuSort.SplitRange` | src/cmd/sort.c:834-878 | Partition and blanking leave both outer parts live, so the later passes may compare them. |
| `QuSort.Sort` | src/cmd/sort.c:821-893 | For any total preorder the range ends up ordered and a permutation, with -u live exactly at the first row of each class, rows outside untouched; the recursion depth d satisfies 2^d <= number of lines. |
| `QuSort.DeeperByOne` | src/cmd/sort.c:879-886 | The real recursive call gets at most half of the range, so one more level keeps the logarithmic bound. |
| `QuSort.LiveRowIsNew` | src/cmd/sort.c:876-878 | After sorting with -u a live row is strictly greater than every row before it. |
| `QuSort.SomeSurvivor` | src/cmd/sort.c:876-878 | With -u every line of the input has a live row equal to it. |
| `QuSort.OnlySurvivor` | src/cmd/sort.c:876-878 | With -u no two live rows are equal: exactly one line of each class survives. |
| `LineOrder.Cmpa` | src/cmd/sort.c:662-673 | The loop over two newline-ended lines computes the recursive comparison of their tails. |
| `LineOrder.EqualOnlyIfSame` | src/cmd/sort.c:662-673 | Lines compare equal if and only if they are the same line. |
| `LineOrder.Antisymmetric` | src/cmd/sort.c:662-673 | Exchanging the lines negates the result. |
| `LineOrder.Transitive` | src/cmd/sort.c:662-673 | The order is transitive, with and without -r. |
| `LineOrder.CmpaIsTotalOrder` | src/cmd/sort.c:662-673 | `cmpa` is a total order, so all results about the sort hold for it. |
| `LineOrder.PrefixIsGreater` | src/cmd/sort.c:662-673 | Without -r a proper prefix is the greater line: the order is reversed because runs are written from the top. |
| `LineOrder.CmpaIsLexicographic` | src/cmd/sort.c:662-673 | `cmpa` is the lexicographic order of the contents of the lines, given by the first place where they differ or by a proper prefix; -r turns it round. |
| `LineOrder.FirstDifferenceDecides` | src/cmd/sort.c:671-672 | Of two lines the one with the smaller character at the first difference comes first, whatever follows. |
| `Lex.Trichotomy` | src/cmd/sort.c:662-673 | In the order by first difference exactly one of two different sequences comes before the other. |
| `LineOrder.SortText` | src/cmd/sort.c:288-359 | `sort` on the lines read: a permutation of them, for any memory limits, rising lexicographically, or falling with -r. |
| `SortFiles.DiscardsLineIff` | src/cmd/sort.c:323-329 | The rest of a line that is too long is thrown away up to its newline, and no further, if and only if it holds no byte 255, which is taken for the end of the file. |
| `SortFiles.StrayLine` | src/cmd/sort.c:326-327 | The family where it is not: what follows a byte 255 behind the buffer is sorted as a line of its own. |
| `SortFiles.ShortLinesAreRead` | src/cmd/sort.c:308-341 | Of a text made of lines, those shorter than the buffer are read, in order, and the longer ones are dropped. |
| `SortFiles.LastNewlineSupplied` | src/cmd/sort.c:330-336 | A missing last newline makes no difference to the lines read. |
| `SortFiles.LinesFit` | src/cmd/sort.c:323-329 | No line of more than 1023 bytes is read. |
| `SortFiles.ReadWholeIff` | src/cmd/sort.c:309-341 | A line is read as it is if and only if it has at most 1023 bytes, newline included. |
| `SortFiles.Fgets` | src/cmd/sort.c:309 | Takes the bytes up to and with the newline, the end of the file, or as many as the buffer holds. |
| `SortFiles.SkipLine` | src/cmd/sort.c:326-327 | Leaves exactly what follows the first newline or byte 255. |
| `SortFiles.ReadFile` | src/cmd/sort.c:308-341 | The loop over a file collects exactly the lines that the file contributes. |
| `SortFiles.Sort` | src/cmd/sort.c:288-359 | From the bytes of the files to the output: a permutation of the lines of all files that fit the buffer, rising lexicographically, or falling with -r. |
| `MergeSort.OpenFiles` | src/cmd/sort.c:378-390 | The head array holds the first line of every file that is not empty, in file order. |
| `MergeSort.HeadsSorted` | src/cmd/sort.c:391-393 | After `qusort` the heads are ascending and none is lost. |
| `MergeSort.InsertTop` | src/cmd/sort.c:435-440 | Moving the top head down restores the order of all heads and only permutes them. |
| `MergeSort.ReadNext` | src/cmd/sort.c:428-434 | After a line is written its file contributes its next line, or drops out; the other heads stay. |
| `MergeSort.EmitConserves` | src/cmd/sort.c:412-434 | Writing the top line and reading on keeps lines written plus lines pending the same multiset. |
| `MergeSort.Merge` | src/cmd/sort.c:366-462 | Without -u and -c the output is a permutation of all lines of the files, and ordered if the files are. |
| `MergeSort.PassConserves` | src/cmd/sort.c:273-279 | A pass over the files a..i consumes each exactly once: the files still to be merged hold the same lines. |
| `MergeSort.MergePasses` | src/cmd/sort.c:273-283 | For every number of runs the loop over seven files at a time ends, and the result is a permutation of all runs, ordered if they are. |
| `MergeSort.ReadChunk` | src/cmd/sort.c:308-341 | A chunk is the next lines up to the limit on lines or to the line that uses up the room for text, whichever comes first; the end of the input is reported if and only if it comes before both. |
| `MergeSort.WrittenOrder` | src/cmd/sort.c:348-356 | Writing a sorted range from the top gives output order; with -u no two written lines are equal. |
| `MergeSort.WriteRun` | src/cmd/sort.c:348-356 | The run is the live rows from the top down. |
| `MergeSort.SortChunk` | src/cmd/sort.c:303-357 | A run is in output order; without -u it is a permutation of the chunk, with -u it has exactly one line of each class. |
| `MergeSort.SortAll` | src/cmd/sort.c:288-359 | The whole of `sort` without -u on the lines read: an ordered permutation for every input and every limit on lines and text. |
| `Grep.EndStep` | src/cmd/grep.c:364-367 | `$` matches exactly at the end of the line. |
| `Grep.AtomStep` | src/cmd/grep.c:354-378 | A single atom matches exactly one character of its set, and never the end of the line. |
| `Grep.StarStep` | src/cmd/grep.c:413-454 | A starred atom matches if and only if the rest matches after some part of the longest run. |
| `Grep.Decode` | src/cmd/grep.c:345-454 | The bytes of compiled code determine kind, star and width of the next item, and where the rest starts. |
| `Grep.TestAtomMeans` | src/cmd/grep.c:354-432 | The test coded for an atom, bit map of a class included, is membership in the atom's set. |
| `Grep.ScanRun` | src/cmd/grep.c:413-432 | The loops before label `star` find the longest run of the atom. |
| `Grep.BackTrack` | src/cmd/grep.c:434-454 | Trying the rest from the end of the run back, with the first-character shortcut, finds a match if and only if there is one. |
| `Grep.Advance` | src/cmd/grep.c:345-473 | Soundness, completeness and termination of the matcher: it succeeds if and only if the items match some prefix of the line from the given place. |
| `Grep.FirstCharacter` | src/cmd/grep.c:319-328 | The first-character shortcut skips only places where no match can start. |
| `Grep.SelectLine` | src/cmd/grep.c:312-334 | The scan selects the line if and only if some place (only the first after `^`) starts a match. |
| `GrepCompile.SetBit` | src/cmd/grep.c:217-221 | Setting a bit adds exactly one character to the class coded in sixteen bytes. |
| `GrepCompile.SetRange` | src/cmd/grep.c:216-221 | A range adds its characters; a range that runs backwards adds its first character. |
| `GrepCompile.NegateMap` | src/cmd/grep.c:223-227 | Negation complements the class and takes the NUL out. |
| `GrepCompile.ClassElements` | src/cmd/grep.c:213-222 | The loop over the elements codes exactly the members of the class as written, or reports the unfinished class. |
| `GrepCompile.CompileClass` | src/cmd/grep.c:203-231 | The sixteen bytes are the bit map of the class's meaning, negated or not. |
| `GrepCompile.ClassWithoutNul` | src/cmd/grep.c:203-231 | No class holds the NUL, so no class matches the end of the line. |
| `GrepCompile.EmitLiteral` | src/cmd/grep.c:271-275 | A literal takes two bytes; the second one goes past the buffer if and only if there is room for one. |
| `GrepCompile.CompileAtom` | src/cmd/grep.c:179-275 | Each case of the switch appends the code of the atom it stands for, or reports the unfinished class, the class cut off, the store past the buffer or the missing room, each under its exact condition. |
| `GrepCompile.Compile` | src/cmd/grep.c:151-279 | Four exact conditions: code is produced if and only if the pattern is well formed and fits, and is then the encoding of the parsed items, `^` recorded apart; a store past the buffer happens if and only if some literal finds one byte left; a read past the pattern if and only if a range runs over its end in a class there is room for; a group or word boundary is reached if and only if it comes before the buffer is full. |
| `GrepText.ElemsParse` | src/cmd/grep.c:213-222 | The elements of a bracket class, written one after the other, are read as the set that they stand for, ranges of either direction included. |
| `GrepText.BracketParses` | src/cmd/grep.c:203-231 | A class in brackets, with `^` or without, is read as its set or the complement. |
| `GrepText.ShapeParses` | src/cmd/grep.c:179-275 | A plain or escaped character, a dot or a class is read as what it stands for. |
| `GrepText.PiecesParse` | src/cmd/grep.c:164-275 | Shapes with any number of stars behind them, and a last `$`, are read as the items they stand for. |
| `GrepText.TextParses` | src/cmd/grep.c:151-279 | The text of every well-formed syntax tree, made without the parser, is read as the items of the tree, `^` and leading stars included. |
| `GrepLaws.ParsedIsText` | src/cmd/grep.c:151-279 | Conversely every string that is accepted is the text of a well-formed tree, so the trees are exactly the patterns. |
| `GrepLaws.PrintedParses` | src/cmd/grep.c:151-279 | Every list of items, with any sets of characters, has a text that is read as that list. |
| `GrepCompile.OneMeaning` | src/cmd/grep.c:151-279 | A string never stands for two different lists of items. |
| `GrepCompile.FitsIff` | src/cmd/grep.c:151-279 | Code is produced if and only if the string is the text of a tree whose code has at most 256 bytes. |
| `GrepLaws.NegatedClassSelects` | src/cmd/grep.c:207-227 | `[^cs]` selects a line if and only if it has a character that is not in cs. |
| `GrepLaws.ClassSelects` | src/cmd/grep.c:203-222 | `[cs]` selects a line if and only if it has a character in cs. |
| `GrepLaws.RangeSelects` | src/cmd/grep.c:216-221 | `[x-y]` selects a line if and only if it has a character from x to y, or an x. |
| `GrepLaws.DotSelects` | src/cmd/grep.c:185-187 | `.` selects the lines that are not empty. |
| `GrepLaws.WordSelects` | src/cmd/grep.c:271-275 | A word of ordinary characters selects the lines that it occurs in. |
| `GrepLaws.StarredLineSelects` | src/cmd/grep.c:160-202 | `^c*$` selects the lines that hold no other character than c. |
| `GrepCompile.ClassCutOff` | src/cmd/grep.c:213-222 | The pattern `[a-` makes the compiler read beyond its end. |
| `GrepCompile.LetterAfterDots` | src/cmd/grep.c:164-275 | Of the patterns that are dots and a letter, exactly the one with 255 dots makes the compiler store one byte past its buffer. |
| `GrepCompile.GrepLine` | src/cmd/grep.c:151-454 | Compiler and matcher together preserve meaning: a pattern for which code is produced is the text of a syntax tree, and a line is selected if and only if some part of it is in the denotation of what that tree stands for. |
| `Factor.DigitZeroIsRemainder` | src/games/factor.c:17-65 | Digit 0 of the mixed-radix number is its remainder by the current radix, which is why a zero there is a divisor. |
| `Factor.ConvertDigit` | src/games/factor.c:42-48 | Taking one digit into the next radix system leaves the represented number unchanged. |
| `Factor.Borrow` | src/games/factor.c:49-52 | A borrow leaves the represented number unchanged. |
| `Factor.TopDigitNonnegative` | src/games/factor.c:42-54 | The top digit can never have borrowed below zero. |
| `Factor.TwoDigitBound` | src/games/factor.c:39-62 | With at most two digits the number is below (f+1)^2. |
| `Factor.NoSmallDivisorMeansPrime` | src/games/factor.c:59-62 | Stopping at two digits or fewer implies that the number is prime. |
| `Factor.FirstDivisorIsPrime` | src/games/factor.c:59-60 | The first divisor found is prime. |
| `Factor.FewDigits` | src/games/factor.c:26-35 | A 32-bit number has fewer than 13 digits, so the digit array never overflows. |
| `Factor.InitialDigits` | src/games/factor.c:26-35 | The first loop represents n with digit i below 2+i. |
| `Factor.BorrowUntilNonnegative` | src/games/factor.c:49-52 | The borrow loop ends with the digit in range and the number unchanged. |
| `Factor.Rebase` | src/games/factor.c:42-54 | Re-basing from f to f+1 keeps the number and puts every digit in range, with products inside 32 bits. |
| `Factor.DropLeadingZeros` | src/games/factor.c:55-56 | Dropping zero digits stops at a digit that is not zero and keeps the number. |
| `Factor.RadixIsSmall` | src/games/factor.c:42-54 | While there are three digits the radix is at most 46340, so no product overflows. |
| `Factor.SmallestFactor` | src/games/factor.c:17-65 | For every n > 1 of 32 bits the result is the smallest prime factor; 1 for 1 (Dijkstra, A Discipline of Programming, chapter 20). |
| `Factor.LaterFactorNotSmaller` | src/games/factor.c:70-81 | A factor of the quotient is not smaller than the factor taken out. |
| `Factor.PrintFactors` | src/games/factor.c:70-81 | The numbers printed are primes in non-decreasing order whose product is n. |
| `FloatValue.ValueMonotone` | src/libm/fmod.c:75-78 | Comparing the bit fields of two positive numbers compares their values. |
| `FloatValue.ExponentOrder` | src/libm/fmod.c:107-109 | The larger number has the larger exponent, so the loop count is not negative. |
| `FloatValue.ReduceDouble` | src/libm/fmod.c:111-113 | Doubling the partial remainder when the divisor does not go in keeps it congruent to x modulo y. |
| `FloatValue.ReduceSubtract` | src/libm/fmod.c:113-117 | Subtracting the divisor and doubling keeps the partial remainder congruent to x modulo y. |
| `FloatValue.ReduceToZero` | src/libm/fmod.c:114-115 | A zero difference means that y divides x. |
| `FloatValue.ReduceEnd` | src/libm/fmod.c:119-122 | After the last subtraction the significand is the remainder at the divisor's scale. |
| `FloatValue.PackSubnormal` | src/libm/fmod.c:134-139 | The final shift into subnormal form drops only zero bits. |
| `Fmod32.SubnormalExponent` | src/libm/fmod.c:80-91 | The shift loop finds the exponent at which a subnormal has its hidden bit. |
| `Fmod32.MagnitudeOfFields` | src/libm/fmod.c:80-105 | The magnitude of a bit pattern by its exponent and fraction fields, hidden bit included. |
| `Fmod32.Unpack` | src/libm/fmod.c:80-105 | Normal or subnormal, significand and exponent denote exactly the number. |
| `Fmod32.Reduce` | src/libm/fmod.c:107-122 | The fixed-point loop computes the exact remainder of the significands at the divisor's scale. |
| `Fmod32.Pack` | src/libm/fmod.c:124-139 | Normalising and packing denote exactly the remainder, with the sign given. |
| `Fmod32.FiniteRemainder` | src/libm/fmod.c:80-139 | For x and y of magnitudes a > b > 0 the result has magnitude a mod b and the sign of x. |
| `Fmod32.Fmod` | src/libm/fmod.c:61-139 | For all finite x and finite nonzero y the result is exactly x - trunc(x/y) y with the sign of x; NaN exactly in the cases of section 7.12.10.1 of ISO/IEC 9899:1999; x itself for infinite y. |
| `Fmod64.ShiftLeft` | src/libm/fmod.c:192-194 | A left shift across two words is multiplication by a power of two. |
| `Fmod64.ShiftRight` | src/libm/fmod.c:253-258 | A right shift across two words is division by a power of two. |
| `Fmod64.ShiftRightFar` | src/libm/fmod.c:259-262 | A right shift by 32 or more leaves the quotient in the low word. |
| `Fmod64.CountDown` | src/libm/fmod.c:165-171 | The loop finds how far a word must be shifted to set its top bit. |
| `Fmod64.SubnormalExponent` | src/libm/fmod.c:163-185 | The exponent search handles subnormals in either word. |
| `Fmod64.MagnitudeOfFields` | src/libm/fmod.c:163-211 | The same for the two words of a 64-bit number. |
| `Fmod64.ShiftUp` | src/libm/fmod.c:187-211 | A subnormal is brought to a 53-bit significand without losing a bit. |
| `Fmod64.Unpack` | src/libm/fmod.c:163-211 | Significand pair and exponent denote exactly the number. |
| `Fmod64.Subtract` | src/libm/fmod.c:216-219 | The borrow by hand gives the exact difference and its sign. |
| `Fmod64.Double` | src/libm/fmod.c:222-223 | The carry by hand doubles the pair exactly. |
| `Fmod64.Reduce` | src/libm/fmod.c:213-238 | The two-word loop computes the exact remainder at the divisor's scale. |
| `Fmod64.PackSubnormal64` | src/libm/fmod.c:251-263 | All three shifts into subnormal form denote exactly the remainder. |
| `Fmod64.Pack` | src/libm/fmod.c:240-265 | Normalising and packing denote exactly the remainder, with the sign given. |
| `Fmod64.NanTest` | src/libm/fmod.c:153-154 | The folded test of both words holds exactly for NaN. |
| `Fmod64.FiniteRemainder` | src/libm/fmod.c:163-265 | For x and y of magnitudes a > b > 0 the result has magnitude a mod b and the sign of x. |
| `Fmod64.Fmod` | src/libm/fmod.c:140-265 | The 64-bit branch meets the same exact specification as the 32-bit one. |
| `Tsort.NIndex` | src/cmd/tsort.c:121-143 | A known name keeps its node; a new name gets a new node at the end; names stay distinct. |
| `Tsort.Present` | src/cmd/tsort.c:97-105 | True exactly when the edge is there. |
| `Tsort.ReadGraph` | src/cmd/tsort.c:62-76 | The graph has an edge for exactly the pairs of different names read, and a node for exactly the names. |
| `Tsort.AnyPred` | src/cmd/tsort.c:109-117 | True exactly when some predecessor is live. |
| `Tsort.ClosesCycle` | src/cmd/tsort.c:197-201 | Meeting a visited node again closes a cycle of live nodes. |
| `Tsort.Mark` | src/cmd/tsort.c:192-210 | When no live node is free, the search never returns NULL from a live node, ends, and returns a node on a cycle of live nodes. |
| `Tsort.Restore` | src/cmd/tsort.c:181-184 | All VISITED marks go back to LIVE and nothing else changes. |
| `Tsort.FindLoop` | src/cmd/tsort.c:170-185 | When no live node is free, the result lies on a cycle of live nodes and all marks are as before. |
| `Tsort.Sweep` | src/cmd/tsort.c:78-88 | A sweep ends at the first free node, or tells correctly that none is free or none is left. |
| `Tsort.PrintOne` | src/cmd/tsort.c:90-91 | Printing a node keeps the account of what has been printed and why. |
| `Tsort.PrintOrder` | src/cmd/tsort.c:77-92 | Every node is printed exactly once and the loop ends; a node printed without a cycle report has all predecessors before it, a reported one lies on a cycle of what was left. |
| `Tsort.AcyclicIsTopological` | src/cmd/tsort.c:77-92 | On an acyclic graph there is no cycle report and the order is topological. |
| `Tsort.TopologicalHasNoCycle` | src/cmd/tsort.c:77-92 | A graph whose nodes have all come after their predecessors has no cycle. |
| `Tsort.NoReportIff` | src/cmd/tsort.c:77-92 | No cycle is reported if and only if the graph has none. |
| `Tsort.Order` | src/cmd/tsort.c:62-93 | From input pairs to lines: each name once, every pair in order if there is no cycle, and nothing is reported if and only if there is none. |
| `Dd.Copier.constructor` | src/cmd/dd.c:105-121 | The empty buffer stands for the empty stream. |
| `Dd.Copier.Flsh` | src/cmd/dd.c:105-121 | Writing the buffer leaves the stream as it is and counts full and partial records. |
| `Dd.Copier.Null` | src/cmd/dd.c:190-198 | One byte is appended to the stream, and only full blocks are written. |
| `Dd.Copier.CNull` | src/cmd/dd.c:178-188 | The byte appended is the case-folded one. |
| `Dd.Copier.DoBlock` | src/cmd/dd.c:312-339 | One character changes stream, column and truncation count as the reference converter says. |
| `Dd.Copier.HeldBlanks` | src/cmd/dd.c:239-242 | Held-back blanks are written when a character follows them. |
| `Dd.Copier.EndOfRecord` | src/cmd/dd.c:245-251 | At the end of a record a newline is written and the trailing blanks are forgotten. |
| `Dd.Copier.DoUnblock` | src/cmd/dd.c:227-252 | One character changes stream, column and held-back blanks as the reference converter says. |
| `Dd.Copier.BlockAll` | src/cmd/dd.c:312-339 | The blocks written, joined, are the conversion of the text for every output block size; every block but the last is full; truncations are counted. |
| `Dd.Copier.UnblockAll` | src/cmd/dd.c:227-252 | The same for conv=unblock. |
| `DdRoundTrip.BlockLine` | src/cmd/dd.c:312-339 | A finished line becomes one record of exactly cbs bytes: cut or padded. |
| `DdRoundTrip.UnblockRecord` | src/cmd/dd.c:227-252 | A record becomes its contents without trailing blanks, and a newline. |
| `DdRoundTrip.BlockThenUnblock` | src/cmd/dd.c:227-339 | There and back, lines are cut to cbs and stripped of trailing blanks and nothing else happens; the truncation count is the number of lines longer than cbs. |
| `DdRoundTrip.RoundTripIff` | src/cmd/dd.c:227-339 | The text comes back unchanged if and only if no line is longer than cbs or ends in a blank and an unfinished last line is shorter than cbs. |
| `DdRoundTrip.CopyThereAndBack` | src/cmd/dd.c:105-339 | Two real copies with any two output block sizes do what the two lemmas say. |
| `DdCase.LettersChange` | src/cmd/dd.c:178-188 | Each letter becomes the letter at the same place in the other alphabet, as the flags say; both flags together leave small letters. |
| `DdCase.OthersStay` | src/cmd/dd.c:178-188 | All other bytes stay as they are. |
| `DdCase.BlockFolds` | src/cmd/dd.c:312-339 | For every text, conv=block with a case flag writes what it writes without, with the case of every letter changed. |
| `DdCase.UnblockFolds` | src/cmd/dd.c:227-252 | The same for conv=unblock. |
| `DdCase.OneCaseOnly` | src/cmd/dd.c:178-188 | With ucase alone no small letter is written, with lcase no capital, for every input. |
| `DdCase.RecordBytes` | src/cmd/dd.c:312-339 | The bytes of a record: the line in the case asked for, cut to the record size or filled up with blanks. |
| `DdCase.LineBytes` | src/cmd/dd.c:227-252 | The bytes that a record comes back as. |
| `Join.CompareIsAntisymmetric` | src/cmd/join.c:222-225 | Exchanging the keys negates the result, and only equal keys compare equal. |
| `Join.CompareIsTransitive` | src/cmd/join.c:222-225 | The key order is transitive, strictly where one step is strict. |
| `Join.CompareIsByteOrder` | src/libc/mips/string/strcmp.S:40-55 | `strcmp` is negative if and only if the first string has the smaller byte at the first difference or is a proper prefix. |
| `Join.FirstDifferenceDecides` | src/cmd/join.c:222-225 | The byte at the first difference decides, whatever follows, and a proper prefix comes first. |
| `Join.SortedIsByteSorted` | src/cmd/join.c:222-225 | Sorted for the merge is sorted by byte values. |
| `Join.PairsAreEqualKeys` | src/cmd/join.c:108-148 | An item is among the pairs if and only if it is made of a line of each file with equal join fields. |
| `Join.UnpairedHaveNoPartner` | src/cmd/join.c:114-122 | A line is among the unpaired ones if and only if no line of the other file has its key. |
| `Join.Input.RowOfGroup` | src/cmd/join.c:123-148 | For a line of file 1, the lines of file 2 with its key form one stretch, outside which its row of the nested loop is empty. |
| `Join.Input.UnpairedRow` | src/cmd/join.c:119-122 | A line of file 1 skipped as smaller has no partner anywhere in file 2. |
| `Join.Input.UnpairedLine` | src/cmd/join.c:114-118 | A line of file 2 skipped as smaller has no partner anywhere in file 1. |
| `Join.Input.GroupIsPaired` | src/cmd/join.c:123-148 | The lines of a matched stretch are never among the unpaired ones. |
| `Join.Merge.Get1` | src/cmd/join.c:108-110 | Reads the line at the file position, or reports the end without moving. |
| `Join.Merge.Get2` | src/cmd/join.c:109-112 | The same for file 2, from wherever it has been rewound to. |
| `Join.Merge.PassLine2` | src/cmd/join.c:114-118 | Keeps the outer invariant: rows of file 1 done so far, unpaired lines so far, output in key order, rewind point at the current line. |
| `Join.Merge.PassLine1` | src/cmd/join.c:119-122 | Keeps the outer invariant while a line of file 1 is passed. |
| `Join.Merge.EmitPair` | src/cmd/join.c:124-128 | Adds the next pair of the current row. |
| `Join.Merge.FirstRow` | src/cmd/join.c:124-128 | Prints the whole row of the first line of a group and finds where the stretch of file 2 ends. |
| `Join.Merge.GroupRows` | src/cmd/join.c:129-146 | The rewinding loop ends, and prints the whole row of every further line of file 1 with the key. |
| `Join.Merge.Run` | src/cmd/join.c:108-148 | Terminates on sorted inputs; the pairs printed are the nested-loop join in its order, the unpaired lines asked for appear exactly once each and in order, and all output is in key order. |
| `Join.JoinFiles` | src/cmd/join.c:108-148 | The same as a statement about two files sorted by the byte values of their join fields, with the output in the order of byte values. |
| `JoinFields.Split` | src/cmd/join.c:153-179 | For every content of the buffer: splitting stays inside it if and only if reading it as a whole does, and every field read is then a C string at its recorded start. |
| `JoinFields.SkipBlanks` | src/cmd/join.c:163-167 | Skips the run of separators when the first one is a blank, else nothing. |
| `JoinFields.ScanWord` | src/cmd/join.c:171-172 | Finds the end of the field, or the end of the buffer. |
| `JoinFields.ReadExactly` | src/cmd/join.c:153-179 | For every line and every content of the buffer behind it: the fields of the line are read, followed, if its last character is neither newline nor separator, by the fields of what an earlier line has left. |
| `JoinFields.ReadIff` | src/cmd/join.c:153-179 | Exactly the fields of the line are read if and only if its last character is a newline or a separator or what is left behind it ends at once. |
| `JoinFields.StaleField` | src/cmd/join.c:173-174 | A last line without newline that takes in a field of an earlier line. |
| `JoinFields.SplitLine` | src/cmd/join.c:153-179 | The same condition for the loop that overwrites separators in place. |
| `JoinFields.ReadBackPlain` | src/cmd/join.c:153-204 | With -t, fields printed with the separator are read back unchanged if and only if the last one is not empty. |
| `JoinFields.ReadBackStripped` | src/cmd/join.c:153-204 | With blanks as separators, they are read back unchanged if and only if none is empty. |
| `JoinFields.WordsAreFields` | src/cmd/join.c:153-179 | With the default separators, words with any runs of blanks and tabs before, between and after them are read as those words. |
| `JoinText.Gets1` | src/cmd/join.c:161 | `fgets` puts the line and a zero into the buffer and leaves what was behind them. |
| `JoinText.ReadLine` | src/cmd/join.c:153-179 | A line goes through the buffer, whatever an earlier line has left there, and comes out as its fields. |
| `JoinText.ReadFile` | src/cmd/join.c:153-179 | All lines of a text, read one after the other through the same buffer, come out as their fields. |
| `JoinText.JoinTexts` | src/cmd/join.c:97-148 | From the text of two files sorted by byte values to the output: the nested-loop join of their fields and every unpaired line once, in the order of byte values. |
| `EdStore.AddressIsBytes` | src/cmd/ed.c:892-894 | Block number and offset of an address are the byte address 2 tl, and the mark bit has no part in it. |
| `EdStore.InPlaceNew` | src/cmd/ed.c:859-885 | A line added after all others overlaps none of them. |
| `EdStore.HoldsNext` | src/cmd/ed.c:915-919 | Writing out a full block and starting the next keeps every byte stored so far. |
| `EdStore.Store.constructor` | src/cmd/ed.c:930-946 | The empty store is valid. |
| `EdStore.Store.GetBlock` | src/cmd/ed.c:887-920 | In every case (block in the read buffer, in the write buffer, to be read, to be started, or beyond the last) buffers, block numbers, dirty flag and file are as stated. |
| `EdStore.Store.WriteBlock` | src/cmd/ed.c:887-920 | For writing, the block is the one in the write buffer or a new one that needs no loading; the read buffer never becomes dirty. |
| `EdStore.Store.ReadBlock` | src/cmd/ed.c:887-920 | For reading, the buffer returned holds the bytes of the block, and every block asked for is in a buffer or in the file. |
| `EdStore.Store.RepFacts` | src/cmd/ed.c:900-913 | In every state the read buffer is clean, and the write block is the one after all blocks of the file. |
| `EdStore.Store.CopyOut` | src/cmd/ed.c:864-881 | The loop stores the line and a zero across block borders without touching earlier bytes; it fails if and only if the line would reach block 255. |
| `EdStore.Store.EndLine` | src/cmd/ed.c:882-884 | The next address is even and past the line; the padding stays in the block. |
| `EdStore.Store.PutLine` | src/cmd/ed.c:859-885 | The line up to a zero or newline is added under a new address; it is refused if and only if it does not fit, and then nothing stored is lost. |
| `EdStore.Store.CopyIn` | src/cmd/ed.c:848-856 | The loop copies the stored line and its zero across block borders. |
| `EdStore.Store.GetLine` | src/cmd/ed.c:842-857 | The line for which `putline` returned the address comes back, marked or not, and the store is unchanged. |
| `EdStore.Session` | src/cmd/ed.c:842-946 | After any interleaving of puts and gets since `init` all answers are those of a plain list of lines. |
| `EdLaws.StoredUpToNewline` | src/cmd/ed.c:870-881 | A line is stored up to its newline. |
| `EdLaws.Capacity` | src/cmd/ed.c:859-897 | How many equal lines of any length a session accepts, in bytes: 255 blocks of 512 bytes less the first four, each line with a zero rounded up to four bytes. |
| `EdMove.Reverse` | src/cmd/ed.c:1193-1204 | The loop from both ends reverses exactly the range. |
| `EdMove.TurnedThrice` | src/cmd/ed.c:1178-1187 | Reversing two neighbouring ranges and then both exchanges them. |
| `EdMove.MovedUp` | src/cmd/ed.c:1174-1180 | A move up is the exchange of the block with the lines between destination and block. |
| `EdMove.MovedDown` | src/cmd/ed.c:1181-1187 | A move down is the exchange of the block with the lines up to the destination. |
| `EdMove.MoveConserves` | src/cmd/ed.c:1151-1191 | No line is lost or duplicated by a move. |
| `EdMove.Buffer.Unmark` | src/cmd/ed.c:1168-1171 | Exactly the marks of the range are cleared. |
| `EdMove.Buffer.Exchange` | src/cmd/ed.c:1178-1187 | The three calls of `reverse` exchange two neighbouring ranges in place. |
| `EdMove.Buffer.Move` | src/cmd/ed.c:1151-1191 | The list becomes the list with the block taken out and put back, unmarked, after the destination; dot is on the last moved line; refused exactly for a bad range or a destination inside it; the buffer counts as changed unless the block was already there. |
| `Canfield.RankSteps` | src/games/canfield.c:943-954 | Both rank tests are the cyclic successor, the ace following the king. |
| `Canfield.ShiftSound` | src/games/canfield.c:550-558 | Relinking one top card keeps all chains equal to their piles and every card at exactly one place. |
| `Canfield.StackSound` | src/games/canfield.c:1172-1182 | Relinking a whole pile through its bottom card does the same. |
| `Canfield.FoundationRanks` | src/games/canfield.c:1218-1261 | The card at position a of a foundation has the suit of the pile and the rank a steps above the base rank. |
| `Canfield.FoundationShort` | src/games/canfield.c:1218-1261 | A foundation holds at most thirteen cards. |
| `Canfield.TableauShort` | src/games/canfield.c:1110-1136 | A tableau pile without a base-rank card holds at most twelve cards. |
| `Canfield.NoSelfMove` | src/games/canfield.c:1166-1186 | The bottom card of a tableau pile never follows its own top card. |
| `Canfield.FreeFoundation` | src/games/canfield.c:600-636 | A base-rank card that is not on a foundation always finds a free foundation: `base` never exceeds 3. |
| `CanfieldRules.FoundedGrows` | src/games/canfield.c:1226-1232 | A card that passes both tests extends the single-suit run. |
| `CanfieldRules.FoundedStarts` | src/games/canfield.c:606-618 | A base-rank card starts the next foundation. |
| `CanfieldRules.TabledGrows` | src/games/canfield.c:1115-1125 | A card that is not of base rank and passes `tabok` extends the alternating run, and the bottom pointer stays right. |
| `CanfieldRules.TabledShrinks` | src/games/canfield.c:1226-1245 | Taking the top card keeps run and bottom pointer. |
| `CanfieldRules.TabledStacks` | src/games/canfield.c:1170-1183 | Stacking keeps the alternating run and the bottom pointers. |
| `CanfieldDeck.Shuffle` | src/games/canfield.c:449-490 | Whatever is drawn, the deck stays a permutation of the 52 cards, and is the new deck with each card exchanged for the one drawn. |
| `CanfieldDeck.EveryDeckIsPossible` | src/games/canfield.c:473-490 | Every order of the cards comes out of some draws. |
| `CanfieldDeck.LinkDeck` | src/games/canfield.c:651-670 | Every card gets the link of its place in the deal. |
| `CanfieldDeck.DealtBoard` | src/games/canfield.c:642-670 | The dealt piles are sound chains, with one base card on the first foundation and one card in each tableau pile. |
| `CanfieldGame.Game.Transit` | src/games/canfield.c:550-558 | The top card of one pile becomes the top card of another, and the 52 cards stay partitioned among the chains. |
| `CanfieldGame.Game.Shorten` | src/games/canfield.c:609-616 | Exactly the length of the pile whose top the card is goes down. |
| `CanfieldGame.Game.PutBase` | src/games/canfield.c:605-634 | One base card goes to a new foundation, with all counters in step. |
| `CanfieldGame.Game.FndBase` | src/games/canfield.c:600-636 | Base cards go out one by one until another card or nothing is on top, as the reference game does; only cards of the base rank leave the pile. |
| `CanfieldGame.Game.MoveToFound` | src/games/canfield.c:1218-1261 | The card goes to the foundation it fits if there is one, else nothing changes; every counter equals its pile's size afterwards. |
| `CanfieldGame.Game.TabOkFromStockOrTalon` | src/games/canfield.c:970-985 | `tabok` is the rule: alternate colour and next lower rank, spaces filled from the stock and, once it is used up, from the talon; outdated bottom pointers do no harm. |
| `CanfieldGame.Game.TabOkFromTableau` | src/games/canfield.c:970-985 | For a whole pile `tabok` is the rule without spaces. |
| `CanfieldGame.Game.SimpleTableau` | src/games/canfield.c:1110-1136 | Plays as the rule says and keeps everything sound. |
| `CanfieldGame.Game.NotOntoItself` | src/games/canfield.c:1166-1186 | Moving a pile onto itself is always refused. |
| `CanfieldGame.Game.TabToTab` | src/games/canfield.c:1166-1186 | Moves a whole pile as the rule says; links, bottoms and lengths stay right. |
| `CanfieldGame.Game.Recycle` | src/games/canfield.c:746-755 | The talon becomes the hand in reverse, so its first card is dealt first again. |
| `CanfieldGame.Game.Deal` | src/games/canfield.c:779-794 | The talon gains exactly the top cards of the hand in the order in which they come off, and both counters follow. |
| `CanfieldGame.Game.MoveToTalon` | src/games/canfield.c:727-803 | In cards and numbers: three cards or what is left go from the top of the hand onto the talon in order, before base cards leave it; an empty hand is first filled with the talon turned over; the fourth time since the last move nothing is turned and the game ends. It is also the step of the reference game. |
| `CanfieldGame.Game.PileSizes` | src/games/canfield.c:1266-1390 | In every sound state `base` is at most 3, foundations have at most 13 and tableau piles at most 12 cards. |
| `CanfieldGame.Game.InitGame` | src/games/canfield.c:642-682 | The deal sets chains, bottoms, lengths and counters that agree. |
| `CanfieldGame.Game.constructor` | src/games/canfield.c:854-888 | A started game is sound and stands at the reference opening: stock, talon, hand and tableau hold the cards of their places in the deck, less base cards, with three cards turned and 31 left in the hand. |
| `CanfieldGame.Game.Refill` | src/games/canfield.c:1274-1275 | An empty talon is refilled from the hand before a command, three cards at a time, and otherwise nothing changes. |
| `CanfieldGame.Game.WonIffCleared` | src/games/canfield.c:1276-1278 | All 52 cards are off if and only if no card is left in stock, talon, hand and tableau. |
| `CanfieldGame.Game.Obey` | src/games/canfield.c:1302-1384 | Every pair of characters has the effect of the rules, and all others have none. |
| `CanfieldLaws.CardNumbers` | src/games/canfield.c:449-468 | The 52 cards by suit and rank, spades and clubs black. |
| `CanfieldLaws.RulesOfRank` | src/games/canfield.c:943-968 | Both tests in card numbers: same suit and one rank up, other colour and one rank down, the ace above the king. |
| `CanfieldLaws.FoundationCommand` | src/games/canfield.c:1302-1384 | In pile and card numbers: a source and `f` move the top card to the first foundation that it is one above, and otherwise nothing changes. |
| `CanfieldLaws.TableauCommand` | src/games/canfield.c:1302-1384 | The stock or talon and a tableau pile move the top card if it may go there, a space being filled from the stock while there is one; otherwise nothing changes. |
| `CanfieldLaws.PileCommand` | src/games/canfield.c:1302-1384 | Two tableau piles move the whole pile if its bottom card may go on the other's top card; otherwise nothing changes. |
| `CanfieldLaws.OtherCommands` | src/games/canfield.c:1302-1384 | `q` and a declined offer end the game, and all other characters do nothing. |
| `CanfieldGame.Game.TableIsProper` | src/games/canfield.c:1266-1390 | The rule book applies to every state with sound chains. |
| `CanfieldGame.Game.Command` | src/games/canfield.c:1273-1390 | One round keeps the whole invariant (partition, counters, runs, bottoms, no base card in the tableau) and does what the reference round does. |
| `CanfieldGame.Game.Play` | src/games/canfield.c:1266-1390 | After every sequence of commands the game is sound and equals the game played with cards on a table. |
| `CanfieldGame.PlayGame` | src/games/canfield.c:854-1390 | The same from the shuffle on, for all draws and all commands, with the deck that the draws give. |

## Left out

- Real input and output, signals, error exits through `longjmp`, and argument parsing.
- icachec.c: data instructions and system calls are parameters of the model; a system call skips 0 or 2 words. Stores by the emulated program are taken not to reach the emulator's own variables. Exceptions and the inline assembly are not modelled.
- Emulator.Cpu.DoSpecial: the data instructions of opcode 0 are a parameter; `HiLoProgram` fills in mult and multu.
- Emulator.Cpu.Switch: the data instructions are a parameter; `HiLoProgram` fills in madd, maddu, msub and msubu.
- DelaySlot.StepAgreesIff: the architecture calls a linking transfer whose source is its link register UNPREDICTABLE; the machine compared with reads its operands first.
- sort.c: -u and -c inside `merge`, the field and numeric comparison `cmp`, -o onto an input file, temporary file names, and zero bytes in the input.
- SortFiles.Sort: reads the files before it divides their lines into chunks; the source does both in one loop, and a dropped line counts towards neither limit.
- grep.c: groups, back references, `\<`, `\>`, -w and -i; a pattern with one of them is an outcome of its own in `GrepCompile.Compile`.
- fmod.c: the floating-point exceptions raised by the last multiplication, and NaN payloads.
- tsort.c: lengths of names and the messages on standard error.
- dd.c: the EBCDIC and ASCII tables and the input side (skip, seek, sync).
- join.c: the text that `output` prints for -o and -e, the limit on the number of fields, and blank lines. A blank line counts as the end of its file except when the second file has ended inside a group, where the first file is read once more; the results are for inputs in which every line has the join field.
- JoinText.JoinTexts: each line is split once; the source splits a line of the second file again after rewinding. Lines fit the buffer and end in a newline or a separator.
- ed.c: the copying variant of the move, the regular expressions, and I/O errors or interrupts inside `putline`.
- EdStore.Store.GetLine: states the result for addresses that `putline` has returned; others are not given out.
- canfield.c: the screen, the betting account and the card-counting display. The answers to "Inspect game?" and "Buy game?" are part of the commands given to the model.
- fgrep, libcurses, the rest of libm and the other commands: not modelled.
