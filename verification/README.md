# Verified model of the rock-osdev runtime

This project models the parts of rock-osdev that everything else in the image
leans on, and proves what they are for:

- division by reciprocal multiplication (`Div64.dfy`);
- the bucket allocator over the page allocator, as a state machine whose runs
  include client writes and interrupts (`Allocator*.dfy`);
- the ring of commands shared with the interrupt translation service
  (`ItsCommands.dfy`, `ItsQueue.dfy`);
- the line editor against an ideal editor and a terminal row, what every key
  does, and the history ring (`Terminal.dfy`, `History.dfy`,
  `LineEditorSpec.dfy`, `LineEditor.dfy`, `LineEditorLaws.dfy`);
- UTF-8 and UTF-16 transcoding (`Charset.dfy`);
- number formatting, bounded output, what every format stands for, and number
  parsing (`Numerals.dfy`, `Decimal.dfy`, `Printf.dfy`, `PrintfNumerals.dfy`,
  `PrintfForms.dfy`, `PrintfLaws.dfy`, `Strto.dfy`);
- the menu walk without a stack (`MenuWalk.dfy`);
- bit counting, bit searching and bitmaps (`Bitops.dfy`, `Bitmap.dfy`);
- the memory layout before relocation (`BoardLayout.dfy`).

`Wrappers.dfy` holds the option type. `Words.dfy` holds C's bitwise operators
on natural numbers, defined on binary digits, and the division facts used
throughout. Integer width and wrap-around
are written out wherever the source depends on them. Dafny 4.11 checks the
whole project with `dafny verify dfyconfig.toml`.

## Where the code does not do what one might expect

Each of these is a theorem with its exact condition.

- `utf16_get` rejects a pair whose low surrogate is 0xDC00 or 0xDFFF, so the
  round trip UTF-8, UTF-16, UTF-8 is the identity if and only if the text has
  no such scalar (`Charset.RoundTrip`, `Charset.RoundTripFails`).
- `utf8_utf16_strnlen` stops at a code of zero while `utf8_utf16_strncpy` goes
  on, and counts a unit for an encoded surrogate for which nothing is written.
  On any bytes the room announced is what is taken if and only if the encoded
  surrogates in front of the first overlong NUL are as many as the units
  written from it on, and it is enough if and only if they are at least as
  many (`Charset.Room16`; which bytes are read so, `Charset.ZeroRead` and
  `Charset.SurrogateRead`). The overlong NUL alone takes too much
  (`Charset.Room16Fails`); an encoded surrogate in front of it makes up for it
  (`Charset.Room16Agrees`).
- `simple_strtoull` with base 16 takes the x behind a single zero for a prefix
  (`Strto.ReadsBack`, `Strto.ZeroXMisread`).
- Without a base `simple_strtoull` takes a leading zero for octal: decimal
  digits are read back if and only if they start with no zero, or are worth
  less than 8 and are not a lone zero in front of an x and a hexadecimal digit
  (`Strto.ReadsBackDecimal`).
- `simple_strtol` stops at a plus sign or at the space `number` writes in its
  place: a signed field is read back if and only if it is negative or its
  flags ask for neither (`Strto.SignedReadsBack`, `Strto.PlusIsUnread`).
- The repeat-free test in `free` misses a block freed again if and only if it
  is the last one of its page's free list (`Allocator.Heap.FreeAgain`).
- The repeat-free test in `free` fires if and only if the block's first word
  equals a link of its page's free list (`Allocator.Heap.FreeLookup`). That
  needs no double free and no client write: whenever a page has three free
  blocks, allocating two of them and freeing them in the same order ends in
  the panic (`AllocatorRepeatFree.InOrderFreeAlarms`), already with the first
  calls after `memory_init` (`AllocatorRepeatFree.FirstInFirstOutPanics`).
- `reserve_malloc` compares after an unsigned subtraction: on a board whose
  RAM starts low enough for it to wrap around, the branch that shrinks the
  arena is not taken. The layout is sound if and only if everything fits, with
  a whole arena and a stack above address 0 (`BoardLayout.SoundExactly`,
  `BoardLayout.LowBoardFails`).

## Model

| member | source | states |
|---|---|---|
| `Div64.XProd64` | include/div64.h:160-194 | the result is the high word of the 128-bit value m * n, plus m with a bias, for all words and both biases: no carry is lost |
| `Div64.LowColumn` | include/div64.h:168-177 | the carry out of the lowest column is exact in all three branches; the one without carry handling cannot overflow |
| `Div64.MiddleColumns` | include/div64.h:179-189 | the same for the two middle columns |
| `Div64.TestProduct` | include/div64.h:78-84 | the product on the test dividend is the exact high word too |
| `Div64.TestDividendIsLargest` | include/div64.h:75-76 | no dividend that leaves remainder b - 1 is larger than the test dividend |
| `Div64.RoundUpExact` | include/div64.h:71-73 | a reciprocal rounded up gives n / b for every n once the error at the test dividend is below one |
| `Div64.OneDividendDecides` | include/div64.h:75-94 | the single test passes if and only if the rounded-up reciprocal is exact for every 64-bit dividend |
| `Div64.RoundDownExact` | include/div64.h:94-106 | a reciprocal rounded down with a bias is exact while the error stays within one |
| `Div64.RoundUpReciprocal` | include/div64.h:71-73 | 64-bit arithmetic yields the reciprocal rounded up, without overflow |
| `Div64.RoundDownReciprocal` | include/div64.h:104-106 | 64-bit arithmetic yields the reciprocal rounded down, without overflow |
| `Div64.ReduceMultiplier` | include/div64.h:113-128 | the reduction shifts out no set bit of m, never drives p to 0, and leaves the overflow bits clear if and only if some lossless shift does |
| `Div64.ChooseMultiplier` | include/div64.h:68-131 | whichever of the three strategies is picked, the multiplier, scale, pre-division and bias divide every 64-bit dividend by b |
| `Div64.Div64Const32` | include/div64.h:54-147 | n / b for every 64-bit n and every 32-bit b that is neither 0 nor a power of two |
| `Div64.RemainderFromLowHalves` | include/div64.h:217-219 | the remainder is determined by the low halves of dividend and quotient alone |
| `Div64.DivByPow2` | include/div64.h:208-211 | shift and mask give quotient and remainder |
| `Div64.DivByConstant` | include/div64.h:212-219 | the reciprocal gives the quotient and 32-bit arithmetic the remainder |
| `Div64.DoDiv` | include/div64.h:204-226 | quotient and remainder for every constant base, and for a variable base with a 32-bit dividend |
| `Div64.LlDiv` | include/div64.h:237-242 | the quotient, by `do_div` |
| `Allocator.Heap.constructor` | common/memory.c:56-70 | an arena whose whole pages fit the tables starts in a valid state with nothing in use |
| `Allocator.Heap.GetFreePage` | common/memory.c:16-28 | the lowest unused page is taken, or nothing changes and NULL is returned |
| `Allocator.Heap.FreePage` | common/memory.c:30-54 | a page of the arena in use once is marked unused, every word of it reads 0 afterwards, and no word outside it has changed |
| `Allocator.Heap.InitBucketDesc` | lib/malloc.c:32-48 | a page of descriptors is linked in front of the unused ones, or memory is exhausted |
| `Allocator.Heap.MallocFrom` | lib/malloc.c:66-98 | the first chained page with room gives its first free block, else a new page is carved |
| `Allocator.Heap.Malloc` | lib/malloc.c:50-101 | the step is the one of the state machine: NULL exactly for more than a page, else a new block of the smallest bucket that fits, every other live block kept in place and content |
| `Allocator.Heap.FreeLookup` | lib/malloc.c:111-140 | for a block of a chained page, live or free, the alignment and bad-address panics are unreachable and its own descriptor is found; the repeat-free panic happens exactly when its first word equals a link of the free list |
| `Allocator.Heap.FreeAgain` | lib/malloc.c:111-140 | a repeated `free` is caught if and only if the block is not the last one of its free list |
| `AllocatorRepeatFree.RepeatCaught` | lib/malloc.c:133-140 | a free block holds a link of its free list if and only if it is not the last one |
| `Allocator.Heap.Unlink` | lib/malloc.c:147-158 | whatever the remembered predecessor is, exactly the descriptor is unlinked and the "chains corrupted" panic is unreachable |
| `Allocator.Heap.FreeCommit` | lib/malloc.c:142-164 | with any predecessor the lookup left behind, the step of the state machine is taken without a panic |
| `Allocator.Heap.Free` | lib/malloc.c:103-165 | freeing a live block takes the step of the state machine unless the repeat-free test fires |
| `Allocator.Heap.FreeInterrupted` | lib/malloc.c:103-165 | with interrupt handlers running any whole calls on other blocks between the lookup and `local_irq_save`, the call returns without a panic, gives exactly its block back and unlinks at most its own descriptor, from its own chain |
| `AllocatorRepeatFree.InOrderFreeAlarms` | lib/malloc.c:133-140 | from every state with three free blocks in a page: allocate two, free them in the same order, and the second `free` panics |
| `AllocatorRepeatFree.FirstInFirstOutPanics` | lib/malloc.c:133-140 | the same as a run of calls from `memory_init`, for every arena of two pages and every length up to 1024 |
| `AllocatorRuns.MallocTheorem` | lib/malloc.c:50-101 | from every valid state `malloc` leads to a valid one and disturbs no live block |
| `AllocatorRuns.MallocPanicsExactly` | lib/malloc.c:71-83 | the out-of-memory panics happen if and only if the bucket has no free block and fewer pages are unused than must be taken |
| `AllocatorRuns.FreeTheorem` | lib/malloc.c:142-164 | exactly the block is given back; its page is released if and only if no other block of it is live |
| `AllocatorRuns.BlockSizes` | lib/malloc.c:20-26 | a block has one of the nine sizes 16 to 4096, holds what was asked for, and is less than twice as large unless it is a smallest one |
| `AllocatorClearing.LastFreeClears` | common/memory.c:30-54 | `free` of the last live block of a page leaves 0 in every word of the page and every word outside it unchanged |
| `AllocatorClearing.OtherFreeKeeps` | lib/malloc.c:142-145 | `free` of any other block writes one word, the link to the former head of the free list, into the block itself |
| `AllocatorClearing.ReleasedPagesReadZero` | common/memory.c:30-54 | over every run, a page in use at some moment reads 0 at every later moment at which it is not in use |
| `AllocatorClearing.UnusedPagesReadZero` | common/memory.c:16-70 | from `memory_init` on a page of zeros, the page reads 0 whenever it is not in use, throughout every run |
| `AllocatorRuns.RunValid` | lib/malloc.c:50-165 | the invariant (chains partition the bucket pages, free lists acyclic over distinct blocks, counts, `bd_kmap`) holds throughout every run of calls and client writes |
| `AllocatorRuns.EveryRunIsSafe` | lib/malloc.c:50-165 | at every moment of every run from `memory_init` the live blocks are aligned and disjoint from each other, from every free block and from every descriptor page, and pages are accounted for |
| `AllocatorRuns.RunKeepsContents` | lib/malloc.c:50-165 | over any run a block that stays live keeps every word its owner does not write |
| `AllocatorRuns.InterruptsKeepBlock` | lib/malloc.c:142-164 | whole calls run by interrupt handlers leave a block they do not free under the same descriptor and bucket |
| `AllocatorRuns.StalePredecessor` | lib/malloc.c:147-151 | a remembered descriptor that still links to the one being freed is its predecessor in its own chain |
| `AllocatorRuns.InterruptedFree` | lib/malloc.c:123-163 | what the lookup found still holds after the handlers, and completing the call unlinks at most its own descriptor, from its own chain |
| `AllocatorTheorems.LiveBlockPlaced` | lib/malloc.c:81-93 | a live block lies in a page of the arena, at a multiple of its size |
| `AllocatorTheorems.LiveBlocksDisjoint` | lib/malloc.c:85-97 | no address is in two live blocks |
| `AllocatorTheorems.LiveBlocksAvoidDescriptors` | lib/malloc.c:32-48 | no live block touches a descriptor page |
| `AllocatorTheorems.LiveBlocksAvoidFreeBlocks` | lib/malloc.c:85-97 | no live block shares an address with a free one |
| `AllocatorTheorems.BlocksConserved` | lib/malloc.c:79-97 | the reference count plus the free blocks is the number of blocks in the page |
| `AllocatorTheorems.PagesConserved` | common/memory.c:16-54 | the pages in use are the descriptor pages plus one for each chained descriptor, and no count leaves 0 and 1 |
| `AllocatorTheorems.AllFreed` | lib/malloc.c:146-163 | once every block is freed all chains are empty and only descriptor pages remain in use |
| `ItsCommands.DecodeEncode` | module/gicv3/gicv3_its.c:136-320 | every command block decodes to its encoder's arguments, masked to field width |
| `ItsCommands.EncodesNothingElse` | module/gicv3/gicv3_its.c:136-320 | outside its arguments a command block has its opcode, the valid bit of a mapping and nothing else: the reserved bits of all four words are clear, by literal masks for each opcode |
| `ItsCommands.EncodeDecode` | module/gicv3/gicv3_its.c:136-320 | encoding what was parsed from a block without stray bits gives that block back |
| `ItsCommands.OnlyBlock` | module/gicv3/gicv3_its.c:136-320 | a block is the one written for a command if and only if it has no stray bits and decodes to the command's masked arguments |
| `ItsQueue.Consume` | module/gicv3/gicv3_its.c:84-99 | reading the oldest slot delivers the oldest pending command unchanged |
| `ItsQueue.StoreWord` | module/gicv3/gicv3_its.c:104-107 | storing into the slot at the write offset changes no pending command |
| `ItsQueue.Publish` | module/gicv3/gicv3_its.c:113-121 | moving the write offset issues exactly the stored command |
| `ItsQueue.CommandQueue.Init` | module/gicv3/gicv3_its.c:25-57 | zero pages change nothing; otherwise the queue is empty with the size and base given, and the register is the combination of the three fields |
| `ItsQueue.CbaserBits` | module/gicv3/gicv3_its.c:29-47 | address, attributes and page count less one are in their fields, and every other bit is clear |
| `ItsQueue.CbaserDescribes` | module/gicv3/gicv3_its.c:77-78 | the size and the base read back from the register are those given |
| `ItsQueue.CommandQueue.AddCommand` | module/gicv3/gicv3_its.c:68-122 | with the hardware advancing between all steps, the command is appended to those issued, its four words are at the write offset and no other word has changed, the offset moves on by 32 or rolls over, at most all but one slot is pending, and the call ends if and only if the queue is not full or the hardware advances |
| `ItsQueue.CommandQueue.Drive` | module/gicv3/gicv3_its.c:68-122 | over any interleaving, what the hardware has read is a prefix of the accepted commands, in order and decodable to their arguments, and every block issued has its reserved bits clear |
| `Terminal.PrintShows` | common/cli_readline.c:182-199 | printing from the cursor on leaves the printed text in the row behind what was left of it |
| `History.StoreLine` | common/cli_readline.c:97-108 | storing a line moves the others one place back and forgets the oldest of a full ring |
| `History.History.Accept` | common/cli_readline.c:490-492 | an accepted line is the newest one, and the browsing position rests at the end |
| `History.History.Prev` | common/cli_readline.c:110-130 | one line further back, or NULL at the end of the reach |
| `History.History.Next` | common/cli_readline.c:132-151 | one line forward, ending in the empty line and then NULL |
| `History.History.AllBack` | common/cli_readline.c:110-130 | repeated `hist_prev` yields the min(n, HIST_MAX - 1) most recent lines, newest first, and then NULL |
| `History.History.AllForward` | common/cli_readline.c:132-151 | repeated `hist_next` retraces them, ending in the empty line and then NULL |
| `LineEditor.Editor.AddChar` | common/cli_readline.c:201-232 | typing a character changes text and row as in the ideal editor, or only rings the bell when the line is full |
| `LineEditor.Editor.AddStr` | common/cli_readline.c:234-242 | the same for several characters |
| `LineEditor.Editor.KillRight` | common/cli_readline.c:401-403 | the text ends at the cursor, in the buffer and on the row |
| `LineEditor.Editor.Prefilled` | common/cli_readline.c:254-257 | a line already in the buffer is typed into it from itself and left unchanged, with the cursor behind it |
| `LineEditor.Editor.DeleteRight` | common/cli_readline.c:386-400 | the character at the cursor goes, in the buffer and on the row |
| `LineEditor.Editor.DeleteLeft` | common/cli_readline.c:415-430 | the character before the cursor goes, in the buffer and on the row |
| `LineEditor.Editor.Replace` | common/cli_readline.c:447-457 | the line becomes an earlier one, with the cursor behind it |
| `LineEditor.Editor.EscapeKey` | common/cli_readline.c:275-355 | an escape sequence is saved, typed literally or converted as the ideal editor's key table says; the laws below say what that table amounts to |
| `LineEditor.Editor.Dispatch` | common/cli_readline.c:357-485 | a key does what the ideal editor does; the "impossible condition #876" branch is unreachable |
| `LineEditor.Editor.Key` | common/cli_readline.c:260-485 | one turn of the key loop is one step of the ideal editor |
| `LineEditor.Editor.ReadKeys` | common/cli_readline.c:259-486 | for every key sequence without TAB, whatever the length of the line, the buffer is the ideal editor's text; while only one-column characters were typed into a line short enough for the print buffer, the row and the cursor show it |
| `LineEditor.KeyCommand` | common/cli_readline.c:357-485 | the labels of the switch are the ideal editor's key bindings, which the laws below spell out |
| `LineEditor.Editor.ReadLine` | common/cli_readline.c:244-495 | an accepted line is the ideal editor's and is remembered by the rule; after control-C the buffer is empty and nothing is remembered |
| `LineEditor.Editor.Finish` | common/cli_readline.c:487-492 | the line is returned whole and stored unless it is empty or starts with an exclamation mark |
| `LineEditorLaws.RunAppend` | common/cli_readline.c:259-486 | keys may be given in pieces |
| `LineEditorLaws.LeftKeys` | common/cli_readline.c:285-288 | code 2, ESC [ D and ESC O D keep the text and move the cursor one to the left, stopping at 0 |
| `LineEditorLaws.RightKeys` | common/cli_readline.c:289-292 | code 6, ESC [ C and ESC O C keep the text and move the cursor one to the right, stopping at the end |
| `LineEditorLaws.HomeKeys` | common/cli_readline.c:293-336 | code 1, ESC [ H, ESC O H, ESC [ 1 ~ and ESC [ 7 ~ keep the text and move the cursor to 0 |
| `LineEditorLaws.EndKeys` | common/cli_readline.c:297-336 | code 5, ESC [ F, ESC O F, ESC [ 4 ~ and ESC [ 8 ~ keep the text and move the cursor to its end |
| `LineEditorLaws.DeleteKeys` | common/cli_readline.c:319-400 | code 4 and ESC [ 3 ~ remove the character at the cursor, if there is one |
| `LineEditorLaws.BackspaceKeys` | common/cli_readline.c:415-430 | codes 8, 127 and 255 remove the character before the cursor, if there is one |
| `LineEditorLaws.KillKey` | common/cli_readline.c:401-403 | code 11 cuts the text at the cursor |
| `LineEditorLaws.KillLineKeys` | common/cli_readline.c:410-414 | codes 21 and 24 empty the line |
| `LineEditorLaws.OlderKeys` | common/cli_readline.c:301-459 | code 16, ESC [ A and ESC O A put the next older stored line in, up to 19 back, or change nothing |
| `LineEditorLaws.NewerKeys` | common/cli_readline.c:305-459 | code 14, ESC [ B and ESC O B put the next newer stored line in, the empty line in front of them all, or change nothing |
| `LineEditorLaws.ToggleKey` | common/cli_readline.c:407-409 | code 15 changes between inserting and overwriting, and nothing else |
| `LineEditorLaws.AbortKey` | common/cli_readline.c:371-373 | code 3 gives the line up |
| `LineEditorLaws.AcceptKeys` | common/cli_readline.c:266-270 | a line end accepts the line as it is, even inside an escape sequence |
| `LineEditorLaws.NulKey` | common/cli_readline.c:262-264 | a NUL does nothing, even inside an escape sequence |
| `LineEditorLaws.NoKeyAfterTheEnd` | common/cli_readline.c:259-495 | nothing is read behind the end of the line |
| `LineEditorLaws.TypeKey` | common/cli_readline.c:481-484 | every other character is inserted at the cursor or written over what stands there, if there is room |
| `LineEditorLaws.NoSequenceTypes` | common/cli_readline.c:345-350 | an ESC and what follows it up to the character that makes it no sequence are typed as they are, as far as there is room |
| `LineEditorLaws.KeystrokesPlain` | common/cli_readline.c:259-486 | printable characters, editing codes and cursor keys on a line shorter than the print buffer meet the condition under which the row and the cursor are shown |
| `TextCodec.DecodesFlat` | lib/charset.c:159-192 | a loop whose reader inverts each piece reads a whole text back, whatever the two codings are |
| `TextCodec.Copy` | lib/charset.c:180-192 | the copying loop writes the encoding of the codes read, errors as question marks |
| `TextCodec.Count` | lib/charset.c:159-176 | the counting loop adds up the widths up to the first zero |
| `TextCodec.RoomBalance` | lib/charset.c:159-194 | room reserved and room taken differ by the spare room in front of the first zero and everything from it on |
| `Charset.GetPut8` | lib/charset.c:29-74 | `get_code` reads back every scalar `utf8_put` wrote and stops right behind it |
| `Charset.OneByte` | lib/charset.c:29-74 | an ASCII byte is itself, and a byte that starts nothing is an error of one byte |
| `Charset.TwoBytes` | lib/charset.c:60-73 | the code of any two-byte form in its bits, or an error that takes the byte that is no continuation |
| `Charset.ThreeBytes` | lib/charset.c:48-73 | the same for three bytes, overlong forms and surrogates included |
| `Charset.FourBytes` | lib/charset.c:40-73 | the same for four bytes, with the error after two when the code is past 0x10FFFF |
| `Charset.AnyUnit` | lib/charset.c:196-222 | what `utf16_get` makes of any unit: itself, the scalar of a pair, or an error of one or two units |
| `Charset.GetPut16` | lib/charset.c:196-240 | `utf16_get` reads back every scalar `utf16_put` wrote, or fails for the rejected low surrogates, and stops right behind it |
| `Charset.Utf8ToUtf16` | lib/charset.c:180-194 | the units written encode the codes read |
| `Charset.Utf8Utf16Length` | lib/charset.c:159-178 | the room announced is the width of the codes up to the first zero |
| `Charset.Utf16ToUtf8Copy` | lib/charset.c:284-298 | the bytes written encode the codes read |
| `Charset.Utf16Utf8Length` | lib/charset.c:260-282 | the room announced is the width of the codes up to the first zero |
| `Charset.Decodes8` | lib/charset.c:29-74 | the loops over well-formed UTF-8 read its scalars back, for every limit |
| `Charset.Decodes16` | lib/charset.c:196-222 | the loops over well-formed UTF-16 read the scalars back, the rejected ones as errors |
| `Charset.Room16` | lib/charset.c:159-194 | on any bytes, the announced room is enough, or exactly what is taken, if and only if the surrogates read in front of the first zero are at least, or exactly, as many as the units written from it on |
| `Charset.Room16Separately` | lib/charset.c:159-194 | without a zero the room is enough, and exact unless a surrogate was read; without a surrogate it is exact unless a zero was read |
| `Charset.Room16WellFormed` | lib/charset.c:159-194 | on well-formed UTF-8 the announced room is exactly what is taken, for every limit |
| `Charset.Room16Agrees` | lib/charset.c:159-194 | a text with both on which they agree |
| `Charset.ZeroRead` | lib/charset.c:29-74 | a code of zero is read from exactly the overlong forms of NUL |
| `Charset.SurrogateRead` | lib/charset.c:29-74 | a surrogate is read from exactly its three-byte and its overlong four-byte form |
| `Charset.Room16Fails` | lib/charset.c:159-194 | the overlong NUL takes a unit nothing was reserved for |
| `Charset.Room8` | lib/charset.c:260-298 | on any units the announced room is exactly what is taken |
| `Charset.RoundTrip` | lib/charset.c:130-298 | UTF-8 to UTF-16 and back is the identity if and only if no scalar has a rejected low surrogate |
| `Charset.RoundTripFails` | lib/charset.c:216-217 | the scalar 0x10000 does not come back |
| `Charset.Utf16ToUtf8` | lib/charset.c:412-462 | the loop is the state machine on units |
| `Charset.MachineBound` | lib/charset.c:412-462 | at most three bytes for each unit, whatever the input |
| `Charset.MachineLone` | lib/charset.c:412-462 | a low surrogate on its own becomes a question mark in one turn, a high one in two, and nothing if it is the last |
| `Charset.MachineTranscodes` | lib/charset.c:412-462 | on well-formed UTF-16, units of zero included, the state machine writes the text in UTF-8 |
| `Numerals.DigitsValue` | lib/vsprintf.c:200-203 | the canonical digits have no leading zero, are below the base and are worth the number |
| `Numerals.DigitsUnique` | lib/vsprintf.c:200-203 | no other digits are canonical and worth the number |
| `Decimal.SplitNibbles` | lib/vsprintf.c:55-59 | the sums of nibbles keep the value in decimal columns |
| `Decimal.PutDecTrunc` | lib/vsprintf.c:52-86 | the shift-multiply approximations give the canonical digits of any value below 100000 |
| `Decimal.PutDecFull` | lib/vsprintf.c:88-128 | always the five low decimal digits |
| `Decimal.PutDec` | lib/vsprintf.c:130-139 | the canonical decimal digits of any 64-bit value, in at most twenty characters |
| `PrintfSpec.NumberLength` | lib/vsprintf.c:159-256 | a number field has length max(width, sign + prefix + max(precision, digits)) |
| `Printf.MaskedDigits` | lib/vsprintf.c:205-216 | the canonical digits in base 8 or 16, within the temporary buffer |
| `Printf.Sink.AddCh` | lib/vsprintf.c:153-157 | the text grows by one character; memory past the bound is untouched |
| `Printf.Sink.Number` | lib/vsprintf.c:159-256 | the field written is sign, prefix, zeros and numeral, padded as the flags say |
| `Printf.Sink.AddString` | lib/vsprintf.c:258-276 | the string cut to the precision, padded to the width |
| `Printf.Sink.PutConversion` | lib/vsprintf.c:552-643 | one conversion writes the text the format stands for and consumes its arguments; the laws below say what that is |
| `Printf.Sink.Terminate` | lib/vsprintf.c:646-653 | the terminator is inside the buffer and everything before it is kept |
| `PrintfNumerals.NumeralIs` | lib/vsprintf.c:162-219 | the digits written are out of 0 to 9 and A to F, or a to f in lower case, have no leading zero and are worth the magnitude |
| `PrintfNumerals.OneNumeral` | lib/vsprintf.c:162-219 | there is one such text to a number |
| `PrintfForms.FlagsRead` | lib/vsprintf.c:489-509 | any flags in any order and number are read as the set of them |
| `PrintfForms.DirectiveRead` | lib/vsprintf.c:489-550 | a directive is taken apart as it was written: flags, width, precision, qualifier and letter, with the position behind it |
| `PrintfLaws.ConvertedIs` | lib/vsprintf.c:623-641 | the argument is taken modulo 2^16 for h, 2^32 for no qualifier and 2^64 for the others, and sign-extended for a signed letter |
| `PrintfLaws.WidthTaken` | lib/vsprintf.c:511-523 | the width is the digits', or an int argument's, a negative one counting as a minus flag |
| `PrintfLaws.PrecisionTaken` | lib/vsprintf.c:525-538 | the precision is the digits', or an int argument's, at least 0, and 0 behind a lone dot |
| `PrintfLaws.ConvertPiece` | lib/vsprintf.c:552-643 | for every letter, qualifier, set of flags, width and precision the text is the literal sign, prefix, zeros, digits and padding, and exactly the letter's argument is taken |
| `PrintfLaws.FormatOutput` | lib/vsprintf.c:484-643 | every format built from characters and directives stands for the texts of its pieces in order, each made from its own arguments |
| `PrintfLaws.PlainInteger` | lib/vsprintf.c:598-643 | o, x, X, u, d and i alone show the low 16, 32 or 64 bits of the argument in base 8, 16 or 10, and for d and i their two's complement value behind a minus |
| `PrintfLaws.TwoIntegers` | lib/vsprintf.c:484-643 | two directives show the first argument and then the second |
| `PrintfLaws.LonePercent` | lib/vsprintf.c:615-621 | a percent sign with nothing but flags behind it stands for itself |
| `Printf.SkipAtoi` | lib/vsprintf.c:32-40 | the decimal value of the longest run of digits and the position behind it |
| `PrintfSpec.ReadNumberIs` | lib/vsprintf.c:32-40 | the recursive reader of formats yields that value and position |
| `Printf.Vsnprintf` | lib/vsprintf.c:458-654 | the length returned is that of the unbounded text for every size; the buffer holds its first size - 1 characters and a terminator; nothing past size changes |
| `Printf.Vscnprintf` | lib/vsprintf.c:662-673 | the number of characters before the terminator |
| `Strto.SimpleStrtoull` | lib/strto.c:127-144 | the value modulo 2^64 of the longest run of digits of the base given, in base 16 behind a prefix, and the position behind it; without a base the digits are decimal if the first is not a zero, hexadecimal behind a prefix with a hexadecimal digit behind it, and octal otherwise |
| `Strto.SimpleStrtol` | lib/strto.c:77-83 | without a leading minus the value of the longest run of digits, with one its negation modulo 2^64, and the position behind the run |
| `Strto.StrtoullParses` | lib/strto.c:17-31 | the same of the recursive reader |
| `Strto.ParsesOneWay` | lib/strto.c:17-31 | no other result and position meet it |
| `Strto.DigitTable` | lib/strto.c:41-45 | the characters of the sixteen digits, in either case |
| `Strto.ReadsBack` | lib/strto.c:127-144 | digits are read as their worth, up to right behind them, if and only if they are not a single hexadecimal zero with an x behind it |
| `Strto.ZeroXMisread` | lib/strto.c:28-29 | that case with its concrete input |
| `Strto.PrintedReadsBack` | lib/vsprintf.c:159-256 | every zero-padded or unpadded field of `number` in base 8, 10 or 16 is read back |
| `Strto.ReadsBackDecimal` | lib/strto.c:17-31 | decimal digits with no digit behind them are read back without a base if and only if they start with no zero, or are worth less than 8 and are not taken for a hexadecimal prefix |
| `Strto.PrintedDecimal` | lib/strto.c:17-31 | the same for every zero-padded or unpadded decimal field of `number` |
| `Strto.PlainDecimal` | lib/strto.c:17-31 | every nonzero decimal without padding, sign or extra zeros is read back without a base |
| `Strto.SignedReadsBack` | lib/strto.c:77-83 | a signed decimal, zero-padded to any width or not padded and with anything but a digit behind it, is read back by `simple_strtol` if and only if it is negative or its flags ask for neither plus nor space |
| `Strto.PlusIsUnread` | lib/strto.c:77-83 | in the other case nothing is read |
| `Strto.PrefixReadsBack` | lib/strto.c:17-31 | a prefixed octal or hexadecimal field is read back without naming the base |
| `MenuWalk.NextMenu` | scripts/kconfig/confdata.c:884-895 | one step moves to the next menu of recursive preorder |
| `MenuWalk.Climb` | scripts/kconfig/confdata.c:803-808 | the inner loop stops at the first menu above with a sibling, or past the root |
| `MenuWalk.Walk` | scripts/kconfig/confdata.c:863-896 | the walk ends, and has visited the menus in recursive preorder |
| `MenuWalk.EveryMenuOnce` | scripts/kconfig/confdata.c:754-810 | preorder repeats no menu, because two ways to one would need two parents |
| `MenuWalk.NoMenuMissed` | scripts/kconfig/confdata.c:754-810 | preorder is closed under the links to children and siblings |
| `MenuWalk.VisitedOnce` | scripts/kconfig/confdata.c:754-810 | on every finite tree with a lone root each menu is visited exactly once |
| `Bitops.Ffs` | include/asm-generic/bitops/__ffs.h:12-41 | the position of the lowest set bit |
| `Bitops.FoldKeepsSum` | include/linux/bitops.h:115-119 | a masked addition halves the number of fields and keeps their sum, at any width |
| `Bitops.Hweight32` | include/linux/bitops.h:113-120 | the number of set bits, with no sum overflowing |
| `Bitops.Hweight64` | include/linux/bitops.h:137-141 | the number of set bits |
| `Bitmap.BitmapSet` | include/linux/bitmap.h:48-67 | exactly the bits of the range become set |
| `Bitmap.BitmapClear` | include/linux/bitmap.h:69-88 | exactly the bits of the range become clear |
| `Bitmap.ChangedMembers` | include/linux/bitmap.h:48-88 | as sets of positions, the range is added or taken away |
| `Bitmap.FindNextBit` | include/linux/bitmap.h:101-140 | the least set bit from the offset on, or the size |
| `Bitmap.FindFirstBit` | include/linux/bitmap.h:145-155 | the least set bit, or the size |
| `Bitmap.ForEachSetBit` | include/linux/bitmap.h:157-160 | exactly the set bits, in increasing order |
| `Bitmap.BitmapWeight` | include/linux/bitmap.h:33-46 | the cardinality of the set of bits below the bound |
| `BoardLayout.GlobalData.SetupDestAddr` | common/board_f.c:100-117 | the top of RAM, or 0 when it lies past the address space |
| `BoardLayout.GlobalData.ReserveMalloc` | common/board_f.c:147-167 | the arena is the largest one of whole pages, within its limit, that leaves the stack its room, if and only if there is room above the start of RAM and for a whole arena above address 0 |
| `BoardLayout.ArenaFits` | common/board_f.c:154-163 | with room, the arena is the largest possible |
| `BoardLayout.ArenaNeeds` | common/board_f.c:154-163 | an arena that ends where it should and leaves the stack its room had room |
| `BoardLayout.SoundExactly` | common/board_f.c:100-237 | page tables, image, global data, arena and stack are in order, disjoint, aligned and indexable if and only if what is left above the start of RAM suffices |
| `BoardLayout.LowBoardFails` | common/board_f.c:154-159 | a board with an image and global data, room for fifteen pages and a stack, on which no computed layout is sound |
| `BoardLayout.InitSequence` | common/board_f.c:264-280 | the reservations in order leave a sound layout if and only if everything fits |
| `BoardLayout.StartAllocator` | common/memory.c:56-70 | on such a layout `memory_init` starts the allocator in a valid state |

## Left out

- Div64.DoDiv: for a variable base only dividends of 32 bits, because `__div64_32` is not part of this model.
- Div64.LlDiv: the same restriction, as it calls `do_div`.
- LineEditor.Editor.AddChar: at a capacity of 0 the source's unsigned comparison wraps around and the character is written past the buffer; the model beeps, as for any full line.
- LineEditor.Editor.ReadKeys: without the TAB key, whose completion prints command names.
- LineEditor.Editor.Key: without the TAB key; what the row shows of a line too long for the print buffer of `printf` is not stated.
- LineEditor.Editor.Prefilled: an initial line longer than the capacity, which the buffer of that capacity cannot hold.
- LineEditor.Editor.Dispatch: reports control-C; `LineEditor.Editor.ReadLine` states the emptied buffer.
- LineEditor.Editor.Finish: the line feed and carriage return printed at the end of a line are not modelled.
- LineEditor.Editor.ReadLine: without the TAB key; a sequence of keys that ends before the line does leaves the editor waiting.
- ItsQueue.CommandQueue.Init: resetting its_creadr stands for the effect of the register write; what commands do after they are read is not modelled.
- Printf.Vsnprintf: formats with `%p` are excluded, as its extensions read foreign memory; `%n` consumes its argument but the store is not modelled; a missing or foreign argument, undefined in C, counts as 0 or NULL; overflow of a width or precision and a buffer that wraps around the address space are not modelled.
- Printf.Vscnprintf: the same restrictions.
- Printf.Sink.PutConversion: every conversion but `%p`.
- PrintfLaws.FormatOutput: formats that break off inside a directive are not among those built from pieces; `PrintfLaws.LonePercent` states the case of flags.
- Bitmap.BitmapSet: positions and lengths are unbounded, where the source has 32-bit ones; a bitmap reaching past them is not modelled.
- Bitmap.BitmapClear: the same.
- MenuWalk.Walk: records the visits; what is written for a visited menu, and the symbol flags, are not modelled.
- Allocator.Heap.FreeInterrupted: interrupts happen after the repeat-free test; the walk of that test under interrupts is not modelled.
- Allocator.Heap.Free: addresses that are not live blocks are the caller's error; for a block freed again `Allocator.Heap.FreeAgain` states whether it is caught, and what a missed one does to the lists is not modelled.
- Charset.Utf8ToUtf16: NULL pointers are not modelled, and a string is its elements before the terminator.
- Charset.Utf16ToUtf8: reads no unit past the end of its input.
- Memory, the fields of descriptors and the fixed tables of the allocator, of the history and of the line buffer are maps and sequences that methods reassign, so aliasing between C objects is stated through addresses and not through Dafny references.
- The capitalization tables, `u16_strncmp` and the other short string functions of lib/charset.c, `simple_itoa`, `print_grouped_ull` and the suffix parsers of lib/strto.c would only add easy members.
- UART, timers, caches, exception levels, the interrupt distributor and inline assembly are hardware effects.
- Symbol evaluation and file output of kconfig, the command interpreter, tab completion and the duplicate formatter under module/ are not part of this model.
