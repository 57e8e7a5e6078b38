# Verified models of Solang's runtime and front end

Solang compiles Solidity to Solana and to wasm chains. This project models the parts of it whose
correctness rests on loops and long-lived state, and proves what they are for. Run
`dafny verify dfyconfig.toml` in this directory to check everything.

| files | what they model |
|---|---|
| `Options`, `Bytes`, `ChunkList` | little-endian bytes, 32-bit arithmetic, the chunk header and the doubly linked chunk list both heaps share |
| `AccountCells`, `AccountHeap` | the heap inside a Solana account's data: its allocator on the list of chunks, and in the bytes |
| `AccountRoom`, `AccountHeapRuns` | how much room that heap can waste, and any run of it |
| `RuntimeCells`, `RuntimeHeap` | the heap of the wasm runtime: its allocator on the list of chunks, and in the bytes |
| `RuntimeHeapRuns` | any run of that heap, and two runs on which it goes wrong |
| `Reaching`, `ReachingFind` | the reaching-definitions analysis of the optimizer on transfer lists, and its worklist |
| `ReachingInstr`, `ReachingProgram` | what each instruction does to definitions, and the analysis of a whole program |
| `Limbs`, `Multiply`, `Divide` | wide integer multiplication, overflow detection and division |
| `Tokens`, `Lexing`, `Lexer`, `Relexing` | the Solidity lexer and the printing of its tokens |
| `Grammar`, `Munching` | the tokens of the language and what is malformed, by themselves, and that the lexer reads the longest token |
| `Decimal`, `Base58` | printing of numbers and addresses |
| `Ripemd` | buffering and padding of RIPEMD-160 |

How the models are built:

- **Heaps.** Memory is an `array<byte>`, and every header field is read and written through its four
  little-endian bytes. A ghost sequence of cells says what the linked list is; `Contents()` is the map
  from block addresses to bytes that a user sees. Each operation replaces a short window of the cells,
  and the splice lemmas of `ChunkList` say what that does to order, links and blocks. `AccountCells` and
  `RuntimeCells` say what the new list is as functions of the old one; the methods on bytes are proved to
  follow them, so a whole run is a fold of its script (`After`). What those functions mean is stated once more
  on offsets and lengths alone, and that is what the contracts of the main methods say.
- **Reaching definitions.** The worklist is a set and the loop takes any element of it. A fact is
  followed backwards through the transfers of a block to where it comes from (`OriginOf`), which turns
  the analysis into reachability along paths; the result is then compared with the paths themselves.
  `ReachingProgram` states it without transfers: looking back along a path for a variable's last assignment,
  through copies, and for modifications since.
- **Wide integers.** The number of limbs is a parameter, so one proof covers the 256-bit and the 512-bit
  routines. Values are the numbers that limbs stand for; wrap-around is written out.
- **Lexer.** `Lexing.StepAt` is what one round of the lexer's loop does at a position. The class
  `Lexer.Lexer` has the fields and loops of the original and is proved to do just that; the theorems are
  about whole runs of `StepAt`. `Grammar` says what text writes which token without saying how it is read, and
  `Munching` proves that each round reads the longest token, a comment or white space, or complains of something
  malformed, exactly when it is. Unicode's XID and whitespace predicates and the keyword map are
  parameters that agree with ASCII.

Results where the code does not do what its text suggests, each with the exact condition:

- `uint256dec` prints the right numeral if and only if the value is below 10^76 or its fourth chunk of 19
  digits has no leading zero (`Decimal.Uint256Dec`, `Decimal.PrintedWrong`).
- Printing tokens and lexing them again gives the same tokens if and only if no string literal holds a
  double quote that is not escaped (`Relexing.RoundTrip`, `Relexing.SingleQuoted`).
- `__free` writes four bytes at address 4 if and only if the freed chunk ends up last, with a free chunk
  before it (`RuntimeHeap.Memory.Free`). Over a whole run the word at address 4 is computed from the script
  (`RuntimeHeapRuns.RunRequests`); two blocks taken and freed in that order are enough to change it
  (`RuntimeHeapRuns.NullStored`).
- `__realloc` runs its copy loop out of memory if and only if it has to move a block and either length is
  0: the loop tests its counter after it counts down, so that a count of 0 makes 2^32 passes
  (`Bytes.MemCpy8`, `RuntimeHeap.Memory.Realloc`). Resizing to 0 a block with another one behind it does it
  (`RuntimeHeapRuns.RanAwayCopying`).
- `account_data_alloc` and `account_data_realloc` round and add in 32 bits, and may take a chunk that is too
  small. For every 32-bit size the list before the call tells whether they do (`AccountCells.Wrapping`,
  `AccountCells.AllocFitsExact`, `AccountCells.ReallocFitsExact`): for the last seven sizes, which round to 0,
  if some chunk is free or the tail has room for a header; for the others, if the sum at the tail wraps
  around to below the end of the data and no free chunk before it is long enough. A new account
  (`AccountCells.TailWraps`) and a run of three steps (`AccountHeapRuns.HoleTaken`) get there.
- The analysis never visits a block past an exit where no variable is defined, so definitions made
  there are missing (`ReachingProgram.EmptyExitHidesDefinitions`). Along live routes it is exact
  (`ReachingProgram.Analyse`), and if the first block assigns a variable that nothing copies into, all
  routes are live and nothing is missing (`ReachingProgram.NothingHidden`).
- A copy of a variable onto itself loses its definitions (`ReachingInstr.InstrMeaning`).
- An empty line comment takes its newline into its text (`Lexing.EmptyLineComment`), and every other one
  stops before its newline (`Lexing.Spans`).
- Signed division with one cell for both operands takes that cell's absolute value before it looks at the
  divisor's sign: the quotient is -1 instead of 1 if and only if the cell holds a negative number other than
  the least (`Divide.SDivModWide`, and -5 in `Divide.MinusFiveByItself`). No compiled program gets there: the
  compiler allocates dividend and divisor apart (src/emit/expression.rs:372-375, 641-644).

## Model

| member | source | states |
|---|---|---|
| AccountHeap.AccountData.constructor | stdlib/solana.c:198-219 | a zeroed header at an aligned heap offset is a well-formed heap with no blocks |
| AccountHeap.AccountData.Alloc | stdlib/solana.c:222-314 | for every 32-bit size the walk terminates; an error means that no chunk fits, and changes nothing; success gives the first free chunk with room, in terms of lengths and offsets, and a block of exactly the size asked for that is new, every other block keeping its address and bytes, unless the 32-bit test let a chunk through that is too small; size 0 gives 0 and changes nothing |
| AccountHeap.AccountData.Len | stdlib/solana.c:316-327 | the length of a live block, 0 for offset 0 |
| AccountHeap.AccountData.Free | stdlib/solana.c:329-395 | the heap stays well formed, with free neighbours merged on both sides; that block is gone and every other one is as it was |
| AccountHeap.AccountData.Realloc | stdlib/solana.c:397-554 | for every 32-bit size, the block stays where it is exactly if the bytes fit before the next chunk, before the one behind a free chunk, or before the end of the data; else it moves to the first chunk with room, or there is none and nothing changes; whenever its new place is large enough the first min(old, new) bytes are kept and no other block changes; size 0 frees |
| AccountHeap.AccountData.Shrink | stdlib/solana.c:421-479 | the path that keeps the block in its chunk, with or without giving back a remainder, keeps heap and bytes |
| AccountHeap.AccountData.Expand | stdlib/solana.c:481-541 | the block stays exactly if the bytes fit behind its header as far as the next used chunk, or the end of the data, leaves room, and heap and bytes are kept; otherwise nothing has changed |
| AccountHeap.AccountData.MoveBlock | stdlib/solana.c:543-553 | allocate, copy, free, into a chunk that is large enough: the old bytes come first in the new block, and nothing else changes; when there is no chunk nothing has changed |
| AccountHeap.ReplaceWindow | stdlib/solana.c:564-623 | rewriting a window of chunks keeps everything the heap validation checks, and changes one block at most |
| AccountHeap.AccountData.Resize | stdlib/solana.c:397-554 | the same for a live block and a size above 0, with what each way leaves in the list |
| AccountHeap.AccountData.ExpandTail | stdlib/solana.c:519-541 | the tail is used exactly if its 32-bit check passes, and keeps heap and bytes if the address past the block does not wrap |
| AccountCells.TailCheckExact | stdlib/solana.c:247-252 | for all 32-bit sizes, the check for room at the end of the data is the true one if and only if its sum does not wrap, or wraps and still lands past the end |
| AccountCells.PickFits | stdlib/solana.c:222-314 | the chunk that the code takes is the first one that fits, or does not fit at all; none is taken only if none fits |
| AccountCells.AllocMeaning | stdlib/solana.c:222-314 | on lengths and offsets: the new block is in the first free chunk with room for the rounded size, or in the tail, and there is none only if nothing has room |
| AccountCells.PlaceExact | stdlib/solana.c:397-554 | a block moves, or has nowhere to go, exactly if the bytes do not fit where it is, told from offsets |
| AccountCells.StaysBetween | stdlib/solana.c:421-517 | between two used chunks a block grows in place as long as it stays short of the second |
| AccountCells.TakenMeaning | stdlib/solana.c:274-310 | a chunk is split exactly if a header and 8 bytes are left behind the rounded size, and where the rest lies |
| AccountCells.FreedMeaning | stdlib/solana.c:329-395 | a freed chunk joins free ones on both sides and then reaches up to the next chunk; alone it keeps its length |
| AccountCells.RefittedMeaning | stdlib/solana.c:421-517 | what a block that stays gives back, with the free chunk behind it, or takes |
| AccountCells.AllocFitsExact | stdlib/solana.c:222-314 | for all 32-bit sizes, the chunk taken is large enough, or none is taken, if and only if the list before the call is not a wrapping one |
| AccountCells.ReallocFitsExact | stdlib/solana.c:519-553 | for all 32-bit sizes, each way of resizing gives room enough under its own condition on the list before the call, and under no other |
| AccountCells.TailWraps | stdlib/solana.c:247-252 | a request for nearly 4 GiB that the wrapped sum lets through |
| AccountCells.SizeWraps | stdlib/solana.c:274-287 | the last seven sizes round to 0 and take a free chunk of 8 bytes |
| AccountRoom.ReallocedSnug | stdlib/solana.c:397-554 | resizing, whichever way it goes, keeps every used chunk within 16 bytes of the longest rounded request, and every longer free one open to its full length |
| AccountRoom.AlwaysRoom | stdlib/solana.c:222-314 | in an account with room for that many blocks at their longest, however they are spread, some chunk fits any request |
| AccountHeapRuns.StepSucceeds | stdlib/solana.c:656-674 | with that room a step of the driver has status 0 |
| AccountHeapRuns.RandomDriver | stdlib/solana.c:625-687 | in 64 KiB with 100 slots and sizes below 210 every status the driver asserts to be 0 is 0, on every run |
| AccountHeapRuns.HoleTaken | stdlib/solana.c:222-314 | a run of two allocations and a free, after which any of the last seven sizes is given the free chunk of 8 bytes |
| AccountHeapRuns.RunScript | stdlib/solana.c:625-687 | after any run of allocations, resizes and frees the chunks, the slots and every status are the fold of the script; the heap is well formed, every slot still owns exactly its bytes, and with room for all slots every status is 0 |
| AccountHeapRuns.DoStep | stdlib/solana.c:652-679 | each step has the status and the state that the list of chunks and the step determine, and a failed one changes nothing |
| ChunkList.SpliceLinked | stdlib/solana.c:213-219 | next and prev mirror each other again after a window of the list is replaced |
| ChunkList.SpliceBlocks | stdlib/solana.c:213-219 | a splice removes the blocks of the old window, adds those of the new one, and moves or changes no other |
| ChunkList.BlocksDisjoint | stdlib/solana.c:564-623 | any two live blocks, with their headers, do not overlap and lie in bounds |
| ChunkList.BlocksAligned | stdlib/solana.c:564-623 | every block is 8-aligned |
| RuntimeHeap.Memory.InitHeap | stdlib/heap.c:31-37 | one free chunk from the start of the heap to the end of memory, nothing else touched |
| RuntimeHeap.ShrinkChunk | stdlib/heap.c:78-96 | a chunk is cut, with a free remainder linked in, exactly if the remainder is worth a chunk; the unsigned subtraction does not underflow |
| RuntimeHeap.RoundedBelow | stdlib/heap.c:81-83 | because lengths are multiples of 8 the rounded size never exceeds the length |
| RuntimeHeap.LengthAligned | stdlib/heap.c:78-96 | in every well-formed heap all lengths are multiples of 8 |
| RuntimeHeap.Memory.Malloc | stdlib/heap.c:98-122 | the first free chunk that is long enough; the block is new, at least as long as asked for and less than a chunk longer, all others unchanged; 0 exactly when no free chunk is long enough, and then nothing changed |
| RuntimeHeap.Memory.Free | stdlib/heap.c:50-76 | the heap stays tiled and merged, that block is gone, the others are as they were; the word at address 4 afterwards, and that nothing else below the heap changes |
| RuntimeHeap.Memory.Realloc | stdlib/heap.c:124-161 | the block stays exactly if the bytes fit up to the end of the free chunk behind it; else it moves to the first free chunk long enough, or there is none and nothing changes, or there is no byte to copy and the copy leaves memory; the first min(old, new) bytes are kept and no other block changes; the word at address 4 afterwards |
| RuntimeHeap.Memory.CopyWords | stdlib/heap.c:154-157 | the copy rounded up to 8 bytes stays inside both blocks and changes only the target |
| RuntimeHeap.BytesConserved | stdlib/heap.c:50-161 | headers and lengths add up to the whole heap at every moment |
| RuntimeCells.MallocMeaning | stdlib/heap.c:98-122 | the address is that of the first free chunk long enough, and 0 exactly if there is none |
| RuntimeCells.ClaimedMeaning | stdlib/heap.c:78-122 | a chunk is cut exactly if a header and 8 bytes are left behind the rounded size, and what both parts are |
| RuntimeCells.FreedMeaning | stdlib/heap.c:50-76 | a freed chunk joins the free ones on both sides with their headers |
| RuntimeCells.NullMeaning | stdlib/heap.c:50-76 | the word at address 4 changes exactly if the freed chunk has a free one before it and ends up last |
| RuntimeCells.ReallocMeaning | stdlib/heap.c:124-161 | told from end addresses, whether a block stays, moves to the first chunk long enough, finds no memory or runs away |
| RuntimeCells.ExtendedMeaning | stdlib/heap.c:130-147 | a block that stays takes in the free chunk behind it and gives back what is worth a chunk |
| RuntimeHeapRuns.RunRequests | stdlib/heap.c:31-161 | over any run of malloc, free, realloc and stores from a fresh memory the chunks, the program's table, the word at address 4 and the request at which it stops are the fold of the script; the heap stays tiled with no byte lost, its blocks are exactly those handed out and not yet given back, each holds every byte written to it, and nothing else below the heap changes |
| RuntimeHeapRuns.Serve | stdlib/heap.c:31-161 | each request has the answer and the state that the list of chunks and the table determine; out of memory changes nothing |
| RuntimeHeapRuns.NullStore | stdlib/heap.c:50-76 | running two takes and two frees in that order on two pages ends in the state of that script, with the heap's start at address 4 |
| RuntimeHeapRuns.RunawayCopy | stdlib/heap.c:124-161 | running two takes and a resize of the first block to 0 on two pages stops at the resize, whose copy leaves memory |
| RuntimeHeapRuns.NullStored | stdlib/heap.c:50-76 | the script of two takes and two frees is served and leaves the heap's start at address 4, whatever was there |
| RuntimeHeapRuns.RanAwayCopying | stdlib/heap.c:124-161 | after two takes, resizing the first block to 0 is answered by the copy that runs away |
| RuntimeHeap.Replace2 | stdlib/heap.c:78-96 | splitting a window into a used chunk and a free one keeps tiling, links and merging |
| Bytes.MemCpy8 | stdlib/stdlib.c:35-44 | the loop that tests its 32-bit counter after each word makes as many passes as the count, 2^32 for 0, and copies that many words; it leaves memory if and only if they do not fit |
| ReachingFind.ControlFlowGraph.Find | src/codegen/reaching_definitions.rs:47-107 | for every order of the worklist the loop terminates, and a fact is in a block's result if and only if a live path from block 0 carries it there; the loop variables are exactly those with a definition from this block or a later one |
| ReachingFind.ControlFlowGraph.ProcessBlock | src/codegen/reaching_definitions.rs:56-105 | one round keeps the invariant and either finds a missing fact or shrinks the worklist |
| ReachingFind.MergeEdge | src/codegen/reaching_definitions.rs:68-102 | merging is the union of facts, and the changed flag is set exactly if something changed |
| ReachingFind.Covers | src/codegen/reaching_definitions.rs:53-107 | when the worklist is empty every live path's state is included in the result of the block it reaches |
| ReachingFind.MissingShrinks | src/codegen/reaching_definitions.rs:53-107 | every change removes a fact from the finite set of missing ones |
| ReachingDefinitions.ExactUnique | src/codegen/reaching_definitions.rs:53-107 | there is one exact result only, so the order of the worklist does not matter |
| ReachingDefinitions.PathIncluded | src/codegen/reaching_definitions.rs:47-107 | soundness: the state along any live path is included in what was computed |
| ReachingDefinitions.OriginExact | src/codegen/reaching_definitions.rs:204-236 | a fact holds after a list of transfers if and only if its origin holds before it |
| ReachingDefinitions.BlockOriginExact | src/codegen/reaching_definitions.rs:62-64 | the same for all instructions of a block |
| ReachingDefinitions.ExitMonotone | src/codegen/reaching_definitions.rs:62-64 | knowing more at the entry means knowing more at the exit |
| ReachingDefinitions.ApplyTransfers | src/codegen/reaching_definitions.rs:204-236 | the loop over transfers computes their composition |
| ReachingInstr.InstrPaired | src/codegen/reaching_definitions.rs:110-192 | every copy an instruction makes comes right after the kill of its target, which the analysis rests on |
| ReachingInstr.ArrayVarNested | src/codegen/reaching_definitions.rs:194-202 | a store under any nest of subscripts and members of a variable is put down to that variable, and one elsewhere to none |
| ReachingInstr.ArrayVarInside | src/codegen/reaching_definitions.rs:194-202 | the variable found for a destination is the one it lies in, for every destination |
| ReachingInstr.AssignMeaning | src/codegen/reaching_definitions.rs:114-131 | after an assignment the facts about its results are exactly its own definitions, unmodified |
| ReachingInstr.InstrMeaning | src/codegen/reaching_definitions.rs:110-192 | for every instruction, which facts hold after it: a variable it assigns has the definitions made here, a copied one what its source had, and one changed in place, or inside which a store goes, may be modified |
| ReachingInstr.BuildSetVar | src/codegen/reaching_definitions.rs:114-131 | the list that is built from both ends is kills followed by definitions |
| ReachingInstr.LoneCopyNotMonotone | src/codegen/reaching_definitions.rs:217-223 | a copy without a kill would not be monotone |
| ReachingProgram.Analyse | src/codegen/reaching_definitions.rs:47-107 | for every program, a definition is found at a block if and only if some live route has it as the last assignment of the variable, through copies, and with the flag if and only if a change in place came since on such a route |
| ReachingProgram.LastMeaning | src/codegen/reaching_definitions.rs:204-236 | folding the transfers of any history gives the facts that looking back through it for the last assignment gives |
| ReachingProgram.OneDefinition | src/codegen/reaching_definitions.rs:110-192 | along a path a variable has one definition, with its flag, if and only if the last assignment names the variable once |
| ReachingProgram.EmptyExitHidesDefinitions | src/codegen/reaching_definitions.rs:66-68 | a program where the definition that reaches a block is not found because an earlier exit is empty |
| ReachingProgram.NothingHidden | src/codegen/reaching_definitions.rs:47-107 | if block 0 assigns a variable that no instruction copies into, what is found is what all routes say |
| Multiply.Mul32 | stdlib/bigint.c:23-64 | for every length, the product modulo 2^(32 len) |
| Multiply.Mul32WithOverflow | stdlib/bigint.c:67-118 | the same product, and overflow is reported if and only if the true product does not fit |
| Multiply.RowsStep | stdlib/bigint.c:38-63 | what each column adds to the part of the product seen so far |
| Multiply.RowsAll | stdlib/bigint.c:38-63 | all columns together are the product of the operands |
| Multiply.DoColumn | stdlib/bigint.c:40-62 | one column with its deferred carry, and that a nonzero column at the width means overflow |
| Multiply.ShiftExact | stdlib/bigint.c:55-62 | the OR of the carry into the shifted sum is an addition without loss |
| Multiply.TrimmedLength | stdlib/bigint.c:27-33 | dropping leading zero limbs keeps the value |
| Divide.Bits | stdlib/bigint.c:229-269 | the position of the highest set bit |
| Divide.Bits128 | stdlib/bigint.c:271-283 | the same for two limbs |
| Divide.BitsWide | stdlib/bigint.c:435-447 | the same for any number of limbs |
| Divide.UDivMod128 | stdlib/bigint.c:339-391 | Euclidean quotient and remainder for every nonzero divisor, also when operands and results share storage; a zero divisor is reported and changes nothing |
| Divide.LongDivision | stdlib/bigint.c:368-390 | the loop that brings down one bit at a time divides |
| Divide.LongDivisionRoom | stdlib/bigint.c:370-385 | doubling the remainder never overflows, because it is bounded by the dividend |
| Divide.UDivModWide | stdlib/bigint.c:449-505 | Euclidean quotient and remainder at every width |
| Divide.ShiftSubtract | stdlib/bigint.c:477-500 | the loop that subtracts the shifted divisor terminates with quotient and remainder |
| Divide.SubtractStep | stdlib/bigint.c:489-499 | the OR of the adder into the quotient is an addition, and the remainder falls below the shifted divisor |
| Divide.Aligned | stdlib/bigint.c:480-487 | the first shift loses no bits and puts twice the shifted divisor above the dividend |
| Divide.SDivMod128 | stdlib/bigint.c:393-429 | truncating division modulo 2^128, the remainder with the dividend's sign; what it gives when operands share storage |
| Divide.SDivModWide | stdlib/bigint.c:507-543 | the same at every width |
| Divide.TruncatedUnique | stdlib/bigint.c:507-543 | truncating quotient and remainder are unique |
| Divide.LeastByMinusOne | stdlib/bigint.c:507-543 | the least value divided by -1 gives itself, remainder 0 |
| Divide.MinusFiveByItself | stdlib/bigint.c:507-543 | one cell holding -5 as both operands: -5 is divided by 5 |
| Relexing.RoundTrip | solang-parser/src/lexer.rs:190-329 | for every source, lexing the printed tokens gives them back if and only if no string body holds an unescaped double quote |
| Relexing.Relex | solang-parser/src/lexer.rs:767-1201 | every token a source can have, printed anywhere and followed by a space or nothing, is lexed as itself in the same mode, or as another token if it is misquoted |
| Relexing.SingleQuoted | solang-parser/src/lexer.rs:194-194 | a single-quoted literal that does not survive printing |
| Relexing.StringCopied | solang-parser/src/lexer.rs:729-765 | a body keeps its end between other quotes exactly if it holds no unescaped double quote, with escapes followed |
| Relexing.RelexRational | solang-parser/src/lexer.rs:636-727 | numbers with integer part, fraction and exponent survive |
| Relexing.WordPrinted | solang-parser/src/lexer.rs:862-866 | the token of any word prints as a word that is looked up as that token |
| Lexing.VersionMode | solang-parser/src/lexer.rs:1225-1243 | version mode is on exactly after pragma and a name, until a semicolon |
| Lexing.StepWithin | solang-parser/src/lexer.rs:767-1201 | every round moves on, and what it yields lies in what it moved over |
| Lexing.Spans | solang-parser/src/lexer.rs:767-1201 | for every input, token spans and comments are not empty, in bounds, in order and apart; each comment is its source text, a line comment going on to the end of its line, an empty one past it, and a block comment to its first closing mark |
| Lexing.Texts | solang-parser/src/lexer.rs:599-1201 | every token of every run is what the characters of its span write: its print, but for the kind of quote, the letter of an exponent and the short names of int256 and uint256; an identifier is no keyword |
| Lexing.NothingSkipped | solang-parser/src/lexer.rs:767-1201 | in a run without errors every character is in a token, in a comment, whitespace, or the newline that ends a line comment |
| Lexing.ErrorSpans | solang-parser/src/lexer.rs:599-1201 | for every input, errors are in bounds and in order, one at a place, each at the text it complains about, and none starts inside a token or a comment |
| Lexing.CommentUnique | solang-parser/src/lexer.rs:875-972 | at most one comment starts at any place, so that a comment's end is fixed by its start |
| Lexing.EmptyLineComment | solang-parser/src/lexer.rs:875-936 | an empty line comment takes its newline in |
| Munching.RoundMeaning | solang-parser/src/lexer.rs:599-1201 | every round on every input reads the longest token that the grammar has at its place, or a comment, or white space where no token is, or complains of what is malformed and goes on where it should |
| Munching.MalformedFound | solang-parser/src/lexer.rs:599-1201 | whatever is malformed at the start of a round is the error of that round |
| Munching.TokensLongest | solang-parser/src/lexer.rs:1222-1244 | every token of every run is the longest at its place, in the mode that the tokens before it leave |
| Munching.ErrorsFounded | solang-parser/src/lexer.rs:1222-1244 | every error of every run is about something malformed |
| Munching.WordRead | solang-parser/src/lexer.rs:862-866 | any word by itself is read as its keyword, or as a name if it has none |
| Munching.VersionRead | solang-parser/src/lexer.rs:1225-1243 | in a pragma 0.8 is read as three tokens |
| Munching.PointEnds | solang-parser/src/lexer.rs:1149-1160 | a fraction without the exponent it should have ends the tokens, though input is left |
| Lexing.LongestOperator | solang-parser/src/lexer.rs:996-1175 | of the operators and punctuation of the language, listed by themselves, the longest that the text starts with is taken, and none only if there is none |
| Lexing.BlockEndFirst | solang-parser/src/lexer.rs:938-953 | a block comment ends at the first closing mark |
| Lexer.Lexer.Round | solang-parser/src/lexer.rs:767-1201 | the branches of the loop do what the step function says, and only a semicolon leaves version mode |
| Lexer.Lexer.ReadWord | solang-parser/src/lexer.rs:770-867 | words and unicode, hex and address literals, with their error paths |
| Lexer.Lexer.ReadNumber | solang-parser/src/lexer.rs:599-727 | hex numbers, integers, fractions, exponents and version mode |
| Lexer.Lexer.SkipString | solang-parser/src/lexer.rs:736-758 | the loop stops at the first quote that is not escaped |
| Lexer.Lexer.ReadSlash | solang-parser/src/lexer.rs:875-972 | comments of all kinds and division |
| Lexer.Lexer.Next | solang-parser/src/lexer.rs:1225-1243 | a call yields the next token of the run and leaves the rest of it to come, recording just its comments and errors |
| Lexer.Tokenize | solang-parser/src/lexer.rs:1222-1244 | calling until the end terminates and yields the whole run |
| Lexer.RoundTotal | solang-parser/src/lexer.rs:767-1201 | a round moves output from still to come to recorded and loses none |
| Tokens.KeywordsSound | solang-parser/src/lexer.rs:400-567 | every keyword's token prints as a keyword for that same token, int and uint included |
| Tokens.KeywordMeaning | solang-parser/src/lexer.rs:400-567 | the map has the words listed and int and uint; every word is its own token, but int and uint are int256 and uint256 |
| Decimal.Uint2Dec | stdlib/format.c:91-110 | the numeral of any 64-bit value, within the buffer and the room needed |
| Decimal.Uint128Dec | stdlib/format.c:115-181 | the numeral of any 128-bit value, zero chunks included |
| Decimal.Uint256Dec | stdlib/format.c:187-241 | the numeral if and only if the value is below 10^76 or its fourth chunk is full; otherwise a smaller number is printed |
| Decimal.PrintedWrong | stdlib/format.c:223-232 | 10^76 is a value it gets wrong |
| Decimal.PutDigits | stdlib/format.c:97-101 | the loop appends exactly the digits of the value, at least one |
| Decimal.CopyOut | stdlib/format.c:104-107 | copying back to front gives text that reads as the number |
| Decimal.NextChunk | stdlib/format.c:199-221 | what each 19-digit chunk adds, and when it is full |
| Decimal.PrintsUnique | stdlib/format.c:91-241 | a number has one numeral without leading zeros |
| Base58.EncodeAddress | stdlib/format.c:246-271 | the text reads back as the number the bytes stand for, when it fits |
| Base58.TakeByte | stdlib/format.c:255-264 | one pass multiplies by 256 and adds the byte although it stops at the mark |
| Base58.ZeroToMark | stdlib/format.c:253-256 | why the digits up to the mark are zero as long as another byte fits |
| Base58.LettersRead | stdlib/format.c:243-243 | every letter of the alphabet reads back as its digit |
| Base58.AddressFits | src/emit/strings.rs:648-650 | the length the compiler reserves is enough for every 32-byte address |
| Ripemd.State.Update | stdlib/ripemd160.c:291-320 | absorbs the bytes given; the chaining words are the fold over whole blocks and the buffer holds the rest followed by zeros |
| Ripemd.State.Finish | stdlib/ripemd160.c:322-341 | the digest's words are the fold over the padded message, first word first and least significant byte first |
| Ripemd.Ripemd160 | stdlib/ripemd160.c:343-353 | for any length, the digest's words are the fold over the only padded form of the input, none of it if the length is not positive |
| Ripemd.InPieces | stdlib/ripemd160.c:291-341 | however a message is split across updates the digest is that of the whole |
| Ripemd.LastBlocks | stdlib/ripemd160.c:324-337 | the one or two last blocks are what the padding of sections 3.1 and 3.2 of RFC 1320 asks for |
| Ripemd.PaddedForm | stdlib/ripemd160.c:322-337 | the padded message is the message, 0x80, as few zeros as fill whole blocks, and the 64-bit length in bits |
| Ripemd.PaddedUnique | stdlib/ripemd160.c:322-337 | there is one such form only |
| Ripemd.ChainWritten | stdlib/ripemd160.c:339-340 | the five words come out in order, each least significant byte first |
| Ripemd.InitialBytes | stdlib/ripemd160.c:75-75 | the initial words are the byte pattern of section 3.3 of RFC 1320 and one word more |
| Ripemd.PaddedInjective | stdlib/ripemd160.c:322-337 | different messages have different padded forms |

## Left out

- AccountHeap.AccountData.Alloc: when the sum wraps around it says which address is given and no more, as the heap is then damaged.
- AccountHeap.AccountData.MoveBlock: when the new chunk is too small, copying to it and freeing the old block on the damaged heap are not modelled, and nothing is said of status, address or heap.
- AccountHeap.AccountData.Resize: the same for a move to a chunk that is too small.
- AccountHeap.AccountData.Realloc: the same.
- AccountHeapRuns.RunScript: the driver's random numbers are a script with any sizes above 0 for which the sum of data length and size stays below 2^32; the original asks for 100 and for 10 to 209 bytes of 65536.
- RuntimeHeap.Memory.Malloc: returns 0 where the original stops the program; the wasm layout only, with memory below 4 GiB, not the 64-bit Solana layout of the header.
- RuntimeHeap.Memory.Realloc: of memory after the runaway copy (`Fault`) it says only what is kept below the heap.
- Multiply.Mul32: lengths below 2^30, so that `int` indices do not overflow; the output is not an operand's storage, as columns already written would be read again. The compiler always passes three allocations (src/emit/math.rs:73-75, 320-322; src/emit/expression.rs:1868-1870).
- Multiply.Mul32WithOverflow: the same.
- Divide.Bits: masks and shifts of the source are the divisions and powers of two they stand for.
- ReachingFind.ControlFlowGraph.Find: takes transfer lists as given, with copies after kills as `instr_transfers` makes them (`ReachingProgram.Analyse` makes them), and all results empty at the start; successors are a list per block.
- ReachingInstr.BuildSetVar: the kinds of instruction are grouped by the transfers they cause; expressions inside them are not modelled.
- Lexing.Spans: positions count characters where the source counts UTF-8 bytes; file numbers in locations are not modelled.
- Relexing.RoundTrip: XID and whitespace predicates are any functions that agree with Unicode on ASCII.
- Ripemd.State.Update: the compression function is a parameter; its rounds and tables are not modelled.
- Base58.EncodeAddress: for output that is zero on entry and long enough for the number, as the caller provides.
- Shifts of 128-bit values (`__ashlti3`, `__lshrti3`, `__ashrti3`, `shl128`, `shr128`) would only add fixed-width case analyses.
- Hexadecimal and binary printing, `__memcmp`, `__memset` and the vector helpers of the standard library are simple loops.
- The grammar, semantic analysis, code generation other than reaching definitions, the other optimizer passes, LLVM emission, ABI files, the formatter and the command line are not part of this model.
