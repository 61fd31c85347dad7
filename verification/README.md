# pozos: page tables, page allocator and formatted output

A Dafny model of the two hardest parts of the kernel, with proofs that the code does what it is for.

**Memory.** `kern/kalloc.c`, `kern/mm.c`, `kern/string.c` and the macros they use. One flat array of
64-bit words (`Kernel.Memory`) holds everything at once: free pages carry the chain of the allocator in
their first word, table pages carry 512 entries, clients write what they like into the pages they hold, and
`memset` overwrites whole pages byte by byte. The routines run in place on that array; which page is free,
held or a table is ghost state, tied to the words by the invariant `KernelState.WF`. The meaning of the tables
is written down separately, in `Sv39`, from sections 4.3.2 and 4.4 of the RISC-V Privileged Architecture
(version 20211203), and knows nothing of the kernel. `Meaning` connects the two, `MapTheorems` says what `map`
does to that meaning and exactly when it succeeds and what it costs, `Startup` runs the start-up sequence, and
`Runs` covers every sequence of calls and client writes. A call that ends in `pz_panic`, which does not return,
has the distinct outcome `Halted`.

**Formatting.** `kern/printf.c` without floating point. `Formats.Render` is the unbounded text that a format
and its arguments stand for, most significant digit first; `Printf` holds the loops as they run, with a reversed
buffer of 32 characters and sinks that write at an index, each proved to send exactly that text. `Digits`,
`FieldLaws`, `HashLaws`, `Parsing` and `RoundTrip` prove what the text means, against an independent reader of
numbers and an independent printer of directives. Arguments are a typed sequence; a format is well formed when
`Render` is defined for it, as it is for every list of texts and directives
(`RoundTrip.FormatPrints`).

Module `C11` writes down the text that sections 7.21.6.1 and 7.21.6.5 of C11 ask an integer conversion and `%s` to
print, with nothing in common with the code but the names of the flags (for base 2, which C11 does not have, by
analogy). Where the code prints something else the model follows the code. `C11Laws.FieldIsC11` and
`C11Laws.StringIsC11` say exactly when the two texts are equal, for every number and string, every precision, given,
negative or omitted, every width and every set of flags for which C11 defines the result; `Conformance.NumberIsC11`
and `Conformance.TextIsC11` say the same of whole directives and the arguments they find, `Conformance.CharPrints`
and `Conformance.PointerDigits` what `%c` and `%p` print. `C11Laws.PlainFieldIs` and `C11Laws.HashedFieldIs` give the
text in any case, and `Departures` a format and arguments for each way in which the conditions can fail. The
laws of `FieldLaws` and `HashLaws` are about less than the text, its length, its value or its prefix, and hold
more often. The kernel's own map does not cover its own root table (`Startup.RootUnmapped`), and a page 0 that is
freed ends the free list (`PageZero.RangeListed`).

`dafny verify dfyconfig.toml` checks the project.

## Model

| member | source | states |
|---|---|---|
| Sysdef.RoundUpMeaning | kern/include/kern/sysdef.h:13 | rounding up gives the least page multiple not below its argument, 0 included through two wraps, exactly up to the last page boundary, and 0 above it |
| Sysdef.RoundDownMeaning | kern/include/kern/sysdef.h:14 | rounding down gives the greatest page multiple not above its argument |
| ArchMm.PteRoundTrip | kern/arch/riscv64/include/kern/arch/mm.h:16-17 | decoding an encoded page address gives the address back, for every aligned 64-bit address |
| ArchMm.GetLvlOfPage | kern/arch/riscv64/include/kern/arch/mm.h:20-24 | shift and mask select the three nine-bit indices of the page number |
| ArchMm.LeafPteIs | kern/mm.c:92 | with a legal permission the fields or-ed into a leaf do not overlap |
| Memset.FilledBytes | kern/string.c:3-12 | the fill loop sets exactly the bytes of its range |
| Memset.FilledPage | kern/string.c:3-12 | filling a page makes each of its words eight copies of the byte and touches no other word |
| Separation.PNewKeeps | kern/kalloc.c:29-41 | allocation hands out the top of the stack, which was free and is now held and all 0xee bytes, or NULL exactly when the stack is empty; the invariant and every translation survive, no other page changes |
| Separation.PFreeKeeps | kern/kalloc.c:43-55 | freeing a held page pushes it; its first word is the old head and its other words are all 0xbb bytes; the invariant and every translation survive, no other page changes |
| Separation.WriteHeld | kern/kalloc.c:29-41 | a client that writes only inside pages it holds cannot break the invariant or change a translation |
| Walking.LinkKeeps | kern/mm.c:122-127 | linking a cleared page as a missing table keeps the invariant and changes no translation |
| Walking.WalkMeans | kern/mm.c:105-132 | from a well-formed state the three-level loop ends with the tables of the path in place, or, exactly when they cannot be afforded or may not be made, without; the invariant, all translations and all foreign pages survive |
| Walking.SlotsInjective | kern/mm.c:131 | two page numbers have the same slot if and only if they are equal |
| Meaning.TranslateIsLeaf | kern/mm.c:114-131 | for every 64-bit address the hardware's walk of the tables in memory finds the leaf of its page number, and faults outside the lower half |
| Meaning.LeafPteMeaning | kern/mm.c:92 | a leaf made for a 56-bit address translates to it, with the permission given, for supervisor mode only |
| Mapping.InstallKeeps | kern/mm.c:92 | storing a leaf changes the leaf of its page number and no other, and keeps the invariant |
| Mapping.MapMeans | kern/mm.c:66-103 | from a well-formed state the loop of `map` keeps the invariant, changes only the leaves it has got to, takes the price of the missing tables from the top of the stack, and ends with success, -2 or a panic for the stated reason |
| MapTheorems.NeededMeaning | kern/mm.c:114-129 | a range of pages needs one level-1 table per distinct va>>30 and one level-0 table per distinct va>>21 |
| MapTheorems.MapOutcome | kern/mm.c:66-103 | `map` returns 0 if and only if the range is in order and below the limit, no page of it is present, and at least as many pages are free as tables are missing |
| MapTheorems.MapCost | kern/mm.c:82-100 | on success exactly the missing tables have been taken, from the top of the free stack, and added |
| MapTheorems.MapRunsOut | kern/mm.c:83-86 | `map` ends with -2 if and only if some page of its way is below the limit and not affordable, with neither it nor any before it present; then the stack is empty |
| MapTheorems.MapPanics | kern/mm.c:87-91 | it ends in a panic if and only if some page of its way is present or beyond the limit, and all before it are affordable |
| MapTheorems.TakenAreTables | kern/mm.c:122-127 | every page that a walk or map took from the stack is a table of the tree afterwards, even on failure |
| MapTheorems.MapTranslation | kern/mm.c:82-100 | however `map` ends, the hardware translates the pages it got to as asked and every other 64-bit address as before |
| MapTheorems.CallEnds | kern/mm.c:78-79 | the page numbers `map` computes are the least not below `va` and that of the last byte |
| MapTheorems.CallInOrder | kern/mm.c:78-79 | the two ends are in order if and only if `va` is aligned or the range reaches the next page |
| MapTheorems.MapCall | kern/mm.c:66-103 | the same in the caller's terms: outcome and translation for `va`, `pa`, `sz`, `perm` inside the address spaces |
| Kernel.Memory.constructor | kern/kalloc.c:17 | start-up state: both globals null, some pages held, arbitrary words |
| Kernel.Memory.Fill | kern/string.c:3-12 | `memset` leaves the memory that the byte-by-byte fill defines |
| Kernel.Memory.AllocPnew | kern/kalloc.c:29-41 | the whole new state is that of PNew, the result its page or 0 |
| Kernel.Memory.AllocPfree | kern/kalloc.c:43-55 | the whole new state: the page is the head, its first word the old head, its other words 0xbb bytes, and every other word as before |
| Kernel.StackedPages | kern/kalloc.c:57-64 | the stack that `free_range` leaves: each page of the range once, highest first, above what was there |
| Kernel.Memory.FreeRange | kern/kalloc.c:57-64 | the whole new state is that of freeing each whole page of the range, lowest first, page 0 included |
| Kernel.FreeAllKeeps | kern/kalloc.c:57-64 | for held pages that keeps the invariant, chains exactly these pages, highest first, above what was free before, leaves 0xbb bytes in all their words but the links, and changes no other page |
| PageZero.HoldsPageZero | kern/kalloc.c:59-60 | a range frees page 0 if and only if it starts at address 0 and reaches the next page |
| PageZero.RangeListed | kern/kalloc.c:43-64 | afterwards the links in memory lead through the pages of the range and those free before if and only if page 0 is not among them |
| PageZero.ChainFromZero | kern/kalloc.c:43-64 | with page 0 they lead through the other pages of the range only: page 0 and all that was free before is lost |
| Kernel.Memory.AllocInit | kern/kalloc.c:24-27 | the same for the 32 MiB from the end of the kernel image |
| Kernel.Memory.Walk | kern/mm.c:105-132 | panics exactly beyond the limit; otherwise leaves exactly the state of the transition WalkState, and returns the address of the slot it found or made, or NULL |
| Kernel.Memory.Map | kern/mm.c:66-103 | leaves exactly the state of the transition MapState and ends as it does, with 0, -2 or a panic; a zero size panics and changes nothing |
| Startup.Kmap | kern/mm.c:59-64 | panics exactly if the size is zero or the range cannot be mapped |
| Startup.MmRoot | kern/mm.c:43-45 | the first free page, cleared, becomes the root of an empty address space |
| Startup.MmInit | kern/mm.c:41-52 | panics exactly if fewer pages are free than tables are needed; otherwise leaves the kernel's map |
| Startup.Start | kern/init.c:47-52 | start-up never panics: identity on the 32 MiB, read and execute below the end of the text, read and write from there, nothing else mapped, and every page free or a table |
| Startup.RootUnmapped | kern/kalloc.c:26 | the root table lies outside what the kernel maps, because the allocator's region starts at the end of the image |
| Boot.NeededCount | kern/mm.c:114-129 | the number of tables for a range, in closed form |
| Boot.SpreadBound | kern/include/kern/mm.h:6 | 32 MiB need at most 19 tables below the root, wherever they start |
| Boot.ConfiguredTables | cmake/arch/riscv64/toolchain.cmake:6 | with the configured start of memory there are 18 tables |
| Boot.BootTranslation | kern/mm.c:47-51 | after both maps every 64-bit address translates as the kernel's map says |
| Boot.WritableXorExecutable | kern/mm.c:47-51 | the tables in memory after start-up make no 64-bit address both writable and executable, or open to user mode, and map every address they map to itself |
| Runs.RunKeeps | kern/mm.c:105-132 | over every run of allocations, releases of held pages, client writes, walks and maps, each a transition of the state, the invariant of the first state holds in all, and no page is lost or gained |
| Runs.Perform | kern/mm.c:66-132 | every call of the class Memory that its caller may make is such a transition |
| Runs.RunExtends | kern/mm.c:66-132 | a run followed by a transition is a run |
| Runs.RunStays | kern/mm.c:105-132 | tables stay where they are, and what is mapped stays mapped to the same place |
| Runs.StepStays | kern/mm.c:92 | from a well-formed state only `map` changes a translation |
| Runs.StepRespectsHeld | kern/kalloc.c:29-55 | from a well-formed state no call but its own release ends a client's hold on a page, and none but its own write changes the contents |
| Runs.FoundAgain | kern/mm.c:114-131 | a walk without `alloc` finds the slot an earlier walk found, whatever happened in between |
| Runs.SlotsApart | kern/mm.c:114-131 | two successful walks of a run return the same slot if and only if they are for the same page number |
| Runs.HandedOut | kern/kalloc.c:29-41 | no page is handed out while held or a table; NULL exactly when none is free |
| Runs.StepStack | kern/kalloc.c:29-55 | the free pages form a stack: popped, pushed, and otherwise only taken from the top |
| Runs.ChainFromHead | kern/kalloc.c:53-54 | following the links in memory from the head lists that stack and ends there |
| Runs.Conservation | kern/kalloc.c:29-55 | free, held and table pages add up to all managed pages |
| Runs.TablesFormTree | kern/mm.c:116-127 | a table below the root is pointed to by exactly one upper-level entry, the root by none |
| Digits.NumeralValue | kern/printf.c:299-307 | the digits stand for the value modulo base to the number of digits kept |
| Digits.ExactExactlyBelow | kern/printf.c:306 | the conversion is exact if and only if the value is below base to the 32 |
| Digits.NoLeadingZero | kern/printf.c:299-307 | a nonzero value that fits has no leading zero |
| Digits.NumeralDigits | kern/printf.c:306 | at most 32 characters, at least one, all digits of the base |
| FieldLaws.FieldReads | kern/printf.c:228-282 | for every base, value, sign, width, precision and flag but `#`, reading the field back gives the value modulo base to the 32, and the sign exactly if the digits left room |
| FieldLaws.CoreDigits | kern/printf.c:239-245 | zero padding keeps the digits within the buffer and their value unchanged |
| FieldLaws.FieldLength | kern/printf.c:233-281 | the exact length of every field without `#` |
| FieldLaws.PromiseKept | kern/printf.c:234-246 | the length alone, without `#`, is the one C11 asks for if and only if digits and sign fit the buffer, or spaces make up the width |
| FieldLaws.SignedReads | kern/printf.c:271-279 | a signed 64-bit number reads back if and only if it is not negative, or left justified, or precision and zero padding leave room for its sign |
| FieldLaws.UnsignedReads | kern/printf.c:284-311 | every unsigned 64-bit number reads back in bases 8, 10 and 16 |
| FieldLaws.BinaryReads | kern/printf.c:306 | base 2 reads back if and only if the value is below 2 to the 32 |
| HashLaws.HexPrefix | kern/printf.c:248-269 | of the prefix and the value alone: the text starts with `0x` and reads as the number if and only if `#` takes only zeros away and the prefix fits |
| HashLaws.BinaryPrefix | kern/printf.c:248-269 | the same for `0b` |
| HashLaws.OctalPrefix | kern/printf.c:248-269 | of the first digit and the value alone: the text starts with 0 and reads as the number if and only if there is a precision or the width is not the number of digits |
| FieldLaws.StringShape | kern/printf.c:858-881 | the field is the first characters of the argument, as many as the precision allows, with spaces on one side |
| FieldLaws.StringLength | kern/printf.c:860-878 | its length is the greater of text and width, unless the unsigned int that counts the text wraps below the width |
| Arguments.ArgumentMeans | kern/printf.c:760-808 | the number an integer conversion prints is the one of the size of its length modifier, signed or not, that agrees with the argument modulo 2 to that size |
| C11Laws.FieldIsC11 | kern/printf.c:228-311 | the field of a number is character for character the one C11 asks for if and only if a condition on the number of digits, sign, precision, width and flags holds; for all numbers, 0 included, all flags for which C11 defines the result, and precisions given, negative or omitted |
| C11Laws.PlainFieldIs | kern/printf.c:228-282 | and what it is in any case, without a prefix: how many zeros and digits, the sign if it has room, and the padding |
| C11Laws.HashedFieldIs | kern/printf.c:248-269 | the same with `#`: which characters are taken away, and what of the prefix has room |
| C11Laws.StringIsC11 | kern/printf.c:858-881 | the field of a string is the one C11 asks for if and only if the counter does not wrap below the width and a negative precision has nothing but spaces to hide |
| Conformance.NumberIsC11 | kern/printf.c:656-808 | the same of every integer directive, for the number that its argument carries, with numbers, `*` or nothing for width and precision |
| Conformance.TextIsC11 | kern/printf.c:656-881 | the same of every `%s`, for the characters before the terminator |
| Conformance.CharPrints | kern/printf.c:838-856 | every `%c` prints the argument modulo 256 as a character, first with `-` and last without, and spaces up to the width |
| Conformance.PointerIsHex | kern/printf.c:884-900 | `%p` without a precision prints what C11 asks `%016X` of the address for, if and only if the same condition holds |
| Conformance.PointerDigits | kern/printf.c:884-900 | plain `%p` prints sixteen upper-case hexadecimal digits that stand for the address |
| Conformance.CaseKept | kern/printf.c:330-338 | `%X` prints no lower-case letter and `%x` no upper-case one, whatever the flags, width and precision |
| Parsing.NumberRead | kern/printf.c:189-196 | `_atoi` reads the decimal number that stands there modulo 2 to the 32 and stops after it |
| Parsing.ParseUndoesPrint | kern/printf.c:621-722 | parsing a printed directive gives back its flags, in whatever order and however often they stand, its width, precision, a bare point included, and length, takes the arguments of its `*`, negative ones included, and stops at the specifier |
| Departures.LeftIgnoresPrecision | kern/printf.c:234 | `%-5.3d` of 7 prints "7    ", C11 asks for "007  " |
| Departures.PlusIsLost | kern/printf.c:271-279 | `%+40.32d` of 1 prints no plus sign |
| Departures.SignIsLost | kern/printf.c:271-279 | `%.32d` of -1 prints no minus sign |
| Departures.DigitsAreLimited | kern/printf.c:239-241 | `%.33u` of 1 prints 32 digits |
| Departures.ZerosAreLimited | kern/printf.c:242-245 | `%033u` of 1 prints 32 characters |
| Departures.NegativePrecisionStopsZeros | kern/printf.c:678-681 | `%02.*u` of 7 with precision -1 pads with a space |
| Departures.NegativePrecisionHidesZero | kern/printf.c:678-681 | `%.*u` of 0 with precision -1 prints nothing |
| Departures.HexDigitsAreLost | kern/printf.c:250-256 | `%#2x` of 0xa5 prints only `0x` |
| Departures.HexDigitIsLost | kern/printf.c:250-256 | `%0#3x` of 0xa5 prints `0x5` |
| Departures.HexZerosCrowdPrefix | kern/printf.c:242-265 | `%0#33x` of 0xa5 prints no prefix |
| Departures.HexPrecisionCrowdsPrefix | kern/printf.c:239-268 | `%#.31x` of 0xa5 prints half of the prefix |
| Departures.HexLeftIgnoresPrecision | kern/printf.c:234 | `%-#.5x` of 0xa5 prints `0xa5`, C11 asks for `0x000a5` |
| Departures.HexNegativePrecisionStopsZeros | kern/printf.c:678-681 | `%0#5.*x` of 0xa5 with precision -1 pads with a space |
| Departures.BinaryZeroIsKept | kern/printf.c:250-256 | `%0#4b` of 2 prints five characters |
| Departures.OctalDigitIsLost | kern/printf.c:250-256 | `%#2o` of 8 prints 00 |
| Departures.OctalZeroTooMany | kern/printf.c:266-268 | `%#.5o` of 8 prints `000010`, C11 asks for `00010` |
| Departures.OctalZeroMissing | kern/printf.c:292-294 | `%#.0o` of 0 prints nothing, C11 asks for 0 |
| Departures.OctalZerosAreLimited | kern/printf.c:242-268 | `%0#33o` of 8 prints 32 characters |
| Departures.OctalLeftIgnoresPrecision | kern/printf.c:234 | `%-#.5o` of 8 prints `010` |
| Departures.OctalNegativePrecisionStopsZeros | kern/printf.c:678-681 | `%0#4.*o` of 8 with precision -1 pads with a space |
| Departures.HighBitIsLost | kern/printf.c:306 | `%lb` of 2 to the 32 reads as 0 |
| Departures.BinaryPrefixIsLost | kern/printf.c:261-268 | `%#b` of 2 to the 32 less 1 prints no `0b` |
| Departures.NegativePrecisionHidesText | kern/printf.c:678-681 | `%.*s` of "abc" with precision -1 prints nothing |
| Departures.CounterWraps | kern/printf.c:860-866 | `%1s` of any text of 4 GiB prints a space before it |
| Departures.RangeOutOfOrder | kern/mm.c:78-79 | one byte at address 1 is a range whose end is before its start, which `map` cannot map in any state |
| RoundTrip.FormatPrints | kern/printf.c:598-922 | every list of literal texts, directives with fitting arguments, those of `*` included, and letters that stand for no conversion is a well-formed format, and prints the texts of its items one after the other; what follows a NUL is not looked at |
| RoundTrip.LiteralPrints | kern/printf.c:611-615 | text without `%` prints itself, wherever it stands |
| RoundTrip.NumberSurvives | kern/printf.c:760-808 | for every integer specifier, length modifier, flag, width, precision and argument, reading the printed text gives the number that the argument carries: signed, if and only if the sign finds room; base 2, if and only if it is below 2 to the 32; otherwise always |
| Printf.Out | kern/printf.c:128-144 | a sink writes its character at its index, or nothing |
| Printf.SentTwice | kern/printf.c:128-134 | sending a text and then another is sending both, for every limit |
| Printf.OutRev | kern/printf.c:199-225 | sends the reversed buffer, justified |
| Printf.PutHash | kern/printf.c:249-269 | the handling of `#` in the buffer |
| Printf.NtoaFormat | kern/printf.c:228-282 | sends the field for the digits in the buffer |
| Printf.PutDigits | kern/printf.c:330-338 | the digit loop leaves the numeral, reversed, in at most 32 cells |
| Printf.NtoaLong | kern/printf.c:285-342 | sends the field for a number |
| Printf.StrnlenS | kern/printf.c:173-179 | the length up to the terminator or the limit, as an unsigned int |
| Printf.PutString | kern/printf.c:858-881 | sends the field for a string |
| Printf.PutChar | kern/printf.c:838-856 | sends the field for a character |
| Printf.Atoi | kern/printf.c:189-196 | the number and where it ends |
| Printf.ScanFlags | kern/printf.c:622-654 | the flags and where they end |
| Printf.ScanDirective | kern/printf.c:621-722 | the whole directive up to its specifier |
| Printf.CleanFlags | kern/printf.c:733-758 | the flags and the base an integer conversion goes by |
| Printf.LoadInt | kern/printf.c:761-808 | sign and magnitude of the number that the argument carries for its length modifier |
| Printf.PutConversion | kern/printf.c:725-914 | sends the text of the directive and steps over it |
| Printf.Terminated | kern/printf.c:918 | text and terminator leave, cell by cell, the longest prefix that fits, a NUL, and the rest of the buffer as it was |
| Printf.Vsnprintf | kern/printf.c:598-922 | returns the length of the unbounded text, whatever the buffer can hold, if it is below 2 to the 31, and otherwise the `int` that agrees with it modulo 2 to the 32; the buffer gets its first count - 1 characters at most, then NUL, and no other cell changes; nothing is written for count 0 or a null buffer |

## Left out

- The contents of pages other than through loads and stores of 64-bit words and the byte fill: no unaligned access.
- Kernel.Memory.Walk: models the walk of the kernel's own root table, the only one the code passes.
- Kernel.Memory.Map: does not model a negative `perm`, which the C code would sign-extend into the entry, nor the diagnostic text it prints before a panic.
- Kernel.Memory.FreeRange: requires both ends to lie two pages below 2 to the 64, because the loop's pointer arithmetic is undefined beyond, and the pages to lie in memory; what it keeps is stated for held pages, which page 0 never is.
- Kernel.Memory.AllocPfree: takes any page; what it keeps is stated for a page that is held, since the code checks nothing.
- Startup.MmRoot: requires a page to be free, because the code clears the page at address 0 otherwise.
- Startup.MmInit: requires a page to be free, for the same reason; takes the linker symbols and the configured start of memory as parameters.
- Startup.Start: leaves out `satp`, the scheduler and the messages printed between the steps.
- Superpages made by software, accessed and dirty bits, the translation cache and fences: the code does not manage them. The hardware model reads superpages but does not check A and D on leaves.
- Locking and more than one hart: only a todo in the code.
- Printf.NtoaLong: stands for `_ntoa_long` and `_ntoa_long_long`, whose bodies are the same.
- Printf.OutSpaces: one method for the padding loop that the code writes out several times.
- Printf.Vsnprintf: requires a format that does not end inside a directive and arguments that match it; counts its output without the wrap of `size_t` at 2 to the 64.
- Printf.LoadInt: leaves out `%hhd`, whose result depends on the sign of plain `char`; the most negative numbers use the wrap of `0 - value` that the target gives.
- Floating-point conversions, compiled out by the configuration, and `%n`, which the code does not have: their letters print themselves.
- `%p` with a precision and `-`, `#` or a sign: only its length without `#` and the number it reads as are stated, in `FieldLaws`.
- Base 2 with more than 32 digits: the text is stated by its length and the number it reads as, in `FieldLaws`.
- The character and function sinks (`_out_char`, `_out_fct`), which drop NUL characters, and the mechanics of variable arguments.
- The UART, the console, traps, `kern/sched.c` and the rest of `kern/init.c`.
