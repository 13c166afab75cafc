# Verification of the regexped engines

Regexped compiles regular expressions into WebAssembly modules. This project models, in Dafny, the compile-time
algorithms and the behaviour of the code they emit where a mistake would silently give a wrong match, and proves that
they give the right one. Opcode bytes are not modelled; what the emitted instructions do is.

| part | files | main results |
|---|---|---|
| Tagged automaton | TagOps, ParallelCopy, Tdfa, RegisterLiveness, RegisterColouring, RegisterNeed, RegisterMinimize, TransitionOps, EpsWalker | register minimisation keeps every capture on every input of every table newTDFA makes, and for any table exactly when its entry operations do; the copy sequentialiser is an atomic parallel assignment; a transition's operations carry every tag to its canonical register; one epsilon walk answers every target |
| Priority search | PrioritySearch, PathGuards | a depth-first search that marks on arrival finds the least path in priority order that repeats no guarded state |
| Backtracking machine | BtProgram, TextLaws, BtMachine, BtSpec, Textbook, ZeroWidth, ChainWalk, WorkBudget, FallbackCost, BtCalls | every call answers what a plain matcher that takes one instruction at a time answers, each capture slot holding the last place the winning path records it, at a cost linear in the span, or says that memory holds too few frames |
| First-byte dispatch | FirstSets, AltChains, DispatchBuild, DispatchKeeps | the plan built for any program changes no answer |
| Search-long memo | GiveUp, SearchMemo | marks kept across attempts and calls never hide a match, and stay so after an attempt ran out of stack exactly when that attempt had nothing to find |
| Memo memory | LazyMemo, LazyFallback, FrameBytes, LazyCall, Wasm32 | a memoised call in one memory, its marks the bits of a lazily cleared table and its frames the bytes of a growing stack, answers leftmost-first, or stops for want of memory |
| Component memory | Allocator, ComponentHeap, HeapRepeat, Scanner | the free lists, the call chain and the handles share out the heap; repeating a call needs no more of it |
| Literals | AhoCorasick, AcLayout, Absence | the automaton and its flat tables report exactly the literals; the absence scan rules no match out |
| Regexp trees | RegexpTree, Utf8, LeafLaws, OperatorLaws, Collapse, CollapseShape, StripKeeps | the collapse of empty repeats keeps matches and captures and leaves no such repeat; stripping the groups keeps every end in order |

FiniteSets holds the counting lemmas the parts share. `dafny verify dfyconfig.toml` checks everything.

How to read the model:

- A program is the instruction list that Go's `regexp/syntax` compiles, its runes already lowered to bytes. A match is
  specified twice: as the first accepting path in priority order (`BtSpec.Reference`), and as the answer of a matcher
  that takes one instruction at a time (`Textbook.MatchFrom`); they are the same (`Textbook.ReferenceIsTextbook`).
- What a primitive means is stated by laws that do not name it: `TextLaws` tells the assertions by a text's lines and
  words, `Utf8` inverts the encoder by byte ranges, and for trees, whose match is `RegexpTree.FirstMatch`, `LeafLaws`
  tells literals, classes and dots by decoding the text (`SpellingIs`, `ClassReads`, `DotReads`) and `OperatorLaws` gives
  each operator in terms of the others (`QuestIs`, `StarIs`, `PlusMoves`, `PlusStays`, `NoneIs`, `BoundedIs`,
  `OptionalIs`, `OpenIs`, `UnboundedIs`, `AlternateIs`, `ConcatIs`, `GroupRecords`).
- Code that updates state is a method with loops or a class; what it computes is a function, and the lemmas are about
  that function. Results a caller could not otherwise see (the run of the machine, the plan's first sets, the live sets
  and the graph of a colouring) are returned as ghosts, so that a contract can say why an answer was given or withheld.
- `memory.grow` (WebAssembly Core Specification 2.0, section 4.4.7) and traps are parameters: each operation takes
  whether a growth is granted, and says when it succeeds.
- Where a property does not hold of every input the code could be given, the exact condition is stated, and an input
  shows that it bites. Marks left by a find that ran out of stack are all failures exactly when the start it stopped at
  has no match (`SearchMemo.GaveUpIsPure`); with one frame of stack the pattern `a??b??` leaves marks that hide its
  match (`SearchMemo.AbandonedMarks`). The component scanner ends its scan after such an answer, so it never consults
  them. A renamed register table answers alike exactly when its entry operations leave in its colour whatever will be
  read (`RegisterNeed.RenameSameAnswers`); the tables newTDFA makes always do, since its first state has nothing to copy
  (`TransitionOps.Transition`).

## Model

| member | source | states |
|---|---|---|
| `ParallelCopy.SequentializeCopies` | compile/engine_tdfa.go:107-207 | the counter-keeping sequentialiser returns, copy for copy, the list of the round-wise reference; run in order it assigns every destination its source's old value, all at once; a repeated destination is the only failure |
| `ParallelCopy.SequenceAssigns` | compile/engine_tdfa.go:209-279 | the round-wise reference list, executed over any register file, is the atomic parallel assignment, and changes nothing else but the one scratch register |
| `ParallelCopy.StuckIsPermutation` | compile/engine_tdfa.go:92-105 | when no copy is ready, the registers still to be read are exactly those still to be written, so the scratch register is free and one break per round is enough |
| `ParallelCopy.Round` | compile/engine_tdfa.go:125-200 | one round keeps the counters equal to a recount of the pending readers, through every redirect to the scratch register, and consumes a prefix of the reference list |
| `RegisterLiveness.ComputeLive` | compile/engine_tdfa.go:2196-2279 | the backward fixpoint reaches the least liveness table closed under every edge: what an edge needs is live before it, what an accept names is live at it, and nothing else is |
| `RegisterLiveness.DropAllSameAnswers` | compile/engine_tdfa.go:2281-2350 | removing the dead writes of every batch changes no accept and no captured value on any input |
| `RegisterLiveness.RemoveDeadWrites` | compile/engine_tdfa.go:2323-2350 | the remove-and-recompute loop stops, at a table with the same answers in which no write is dead for that table's own least liveness |
| `RegisterColouring.BuildInterference` | compile/engine_tdfa.go:2352-2472 | the rows ORed together join exactly the conflicting registers: co-live ones, destinations of one batch, and a destination against every other copy's source; no edge is missing and none is without a reason |
| `RegisterColouring.GreedyColour` | compile/engine_tdfa.go:2474-2531 | the greedy pass gives neighbours different colours; every colour below a register's own is taken by a neighbour coloured before it, in descending degree then index; the count returned is the highest colour used plus one |
| `RegisterNeed.RenameSameAnswers` | compile/engine_tdfa.go:2536-2591 | renaming registers by any proper colouring of that graph, self-copies dropped, keeps every accept and capture on every input exactly when the entry operations leave in its colour each register some accept ahead will read |
| `RegisterNeed.NoReadBackKeeps` | compile/engine_tdfa.go:2412-2423 | which they always do when no entry operation reads a register an earlier one wrote |
| `RegisterNeed.NeededFlows` | compile/engine_tdfa.go:2536-2591 | through a batch and its renaming alike, a needed register's value ends in the same register of those needed behind it, and in that register's colour |
| `RegisterColouring.BatchSeparated` | compile/engine_tdfa.go:2388-2423 | the edges a batch adds, with those to what survives it, are enough: no write of the batch shares its colour with anything still needed behind it, but its own source |
| `RegisterMinimize.ReadBackBreaks` | compile/engine_tdfa.go:2342-2350 | the condition is not idle: a table, not one newTDFA makes, whose entry operations copy a register they have just written, the one colouring the pass can choose for it, and the tag that then reads differently |
| `RegisterMinimize.MinimizeRegisters` | compile/engine_tdfa.go:2187-2591 | the whole pass, for every table: the one left behind has only dead writes removed and matches as before; a copy with fewer registers is returned exactly when the greedy colouring of the exact graph saves one, renamed by it; it answers alike exactly under the entry condition, and its whole match body returns the same end and captures on every input when the entry operations only record the position |
| `Tdfa.StepIsLookup` | compile/engine_tdfa.go:1257-1284 | one byte more moves to the state the table names for it, or stops, and runs the operations beside it at the position past the byte |
| `Tdfa.FromIsChosen` | compile/engine_tdfa.go:1257-1284 | which accept the match body returns: the first place past the start where the state accepts at once; else the end of the input, accepting there; else the last place passed that accepts; with the captures as they were there |
| `Tdfa.PosCounts` | compile/engine_tdfa.go:1257-1284 | operations and captures read the number of bytes consumed, the last one included |
| `Tdfa.UnsetReadsMinusOne` | compile/engine_tdfa.go:1250-1284 | a register no operation writes reads -1 wherever the scan stands |
| `TransitionOps.Transition` | compile/engine_tdfa.go:698-770 | whatever the registers held, the operations of a transition leave every thread's every tag in its canonical register, set to the position or carried from its old one, through the sequentialised copies; the canonical registers are numbered without gaps, and no operation names one past the high-water mark; threads that name no register get operations that only record the position |
| `TransitionOps.Canonicalise` | compile/engine_tdfa.go:643-685 | renumbering in order of first appearance over the threads in instruction order; the priority order gets the same numbers |
| `TransitionOps.NumbersCount` | compile/engine_tdfa.go:643-685 | a register's new number is how many different registers come before its first appearance |
| `TransitionOps.CanonicalIff` | compile/engine_tdfa.go:622-642 | two thread lists get one state key exactly when they have the same instructions and the same tags unset and sharing registers, whatever the registers are called |
| `TransitionOps.ResolveKeeps` | compile/engine_tdfa.go:1135-1158 | putting the register past the high-water mark in the cycle-breaking slot changes no other register |
| `EpsWalker.WalkTracks` | compile/engine_tdfa.go:416-453 | the complete walk that never stops at a target visits in the order, and emits the operations, of the marking search for each target separately |
| `EpsWalker.Walker.Find` | compile/engine_tdfa.go:380-400 | find answers, from a memo filled by one walk per source and on cyclic programs too, whether steps that read nothing lead to the target, and for the path that takes the first branch wherever another parts from it, one operation for each capture passed, in path order: opening group k for slot 2k, closing it for slot 2k + 1 |
| `EpsWalker.OwedAnswers` | compile/engine_tdfa.go:416-453 | the least path of the graph is that path, and its operations stand for those slots |
| `EpsWalker.Walker.WalkAll` | compile/engine_tdfa.go:402-414 | a walk under a fresh generation records, for every instruction, exactly the answer owed, without clearing the marks of earlier walks; a wrapped generation clears them |
| `PrioritySearch.BestIsLeast` | compile/engine_backtrack.go:713-749 | the reference recursion finds the lexicographically least path that repeats no guarded state, and finds none only when there is none |
| `PrioritySearch.SearchIsBest` | compile/engine_backtrack.go:713-749 | a depth-first search that marks guarded states on arrival and never unmarks finds exactly that path, from any marks that are spent; when it fails every mark it leaves is spent |
| `PrioritySearch.SuccessSpent` | compile/engine_backtrack.go:2401-2414 | after a success every mark off the found path is spent: nothing leads from it except across that path |
| `PathGuards.GuardedBest` | compile/engine_backtrack.go:707-749 | marking only the alternations finds the same path as marking every (pc, pos) |
| `PathGuards.UnguardedBest` | compile/engine_backtrack.go:92-112 | without a cycle no guard at all is needed, and the answer is first among all accepting paths |
| `BtMachine.Body` | compile/engine_backtrack.go:288-591 | the emitted loop, ordinary or memoised, terminates; every answer is the marking search's, end and captures, with its marks; it stops only at an accept, an empty stack, a spent budget or a stack that is full, and the run it returns shows which |
| `BtMachine.StepFollows` | compile/engine_backtrack.go:637-945 | one instruction, pushes and marks included, leaves the same answer still to come with strictly less work |
| `BtMachine.TryIsResume` | compile/engine_backtrack.go:707-749 | an alternation's arms pushed last first behave as trying them in priority order |
| `BtSpec.ReferenceIsLeftmostFirst` | compile/engine_backtrack.go:92-112 | on a program without a zero-width cycle the answer owed is the plain leftmost-first one |
| `TextLaws.BeginLineIs` | compile/engine_backtrack.go:784-803 | a line begins exactly at the offsets where the pieces of the text split at its newlines begin |
| `TextLaws.EndLineIs` | compile/engine_backtrack.go:818-838 | and ends where they end |
| `TextLaws.WordBoundaryIs` | compile/engine_backtrack.go:1589-1661 | a word boundary is an end of a whole word, a longest run of word bytes; the other assertion holds everywhere else |
| `TextLaws.HoldsBackwards` | compile/engine_backtrack.go:784-860 | each assertion at a place is its mirror at the same place of the text read backwards |
| `TextLaws.FoldLaws` | compile/engine_backtrack.go:1663-1671 | a folding rune stands for the two cases of an ASCII letter, and for itself alone otherwise |
| `Textbook.ReferenceIsTextbook` | compile/engine_backtrack.go:637-945 | the first accepting path in priority order is the answer of the matcher that tries an alternation's first branch, then its second, records a capture, tests an assertion or a byte by what it means, and turns back from a state met again on the way to itself |
| `Textbook.MatchReadsOff` | compile/engine_backtrack.go:761-776 | the end of an answer is the end of the winning path, and each slot is the position of the last state of that path that records it, or what it held before |
| `ZeroWidth.HasZeroWidthCycle` | compile/engine_backtrack.go:113-146 | the colouring walk answers exactly whether a zero-width cycle exists, with the cycle or a rank that falls along every zero-width edge |
| `ChainWalk.CyclesFork` | compile/engine_backtrack.go:1203-1207 | decides whether every cycle of a program passes through an alternation, the shape the budget and the memo rely on |
| `ChainWalk.RankedIffEveryCycleForks` | compile/engine_backtrack.go:1203-1207 | that shape holds exactly when a rank falling along every edge out of the other instructions exists |
| `WorkBudget.CallCost` | compile/engine_backtrack.go:1193-1211 | a budgeted ordinary run pops fewer frames than its budget, stacks at most what its alternations can push on every row of the span, and executes a number of instructions linear in both |
| `WorkBudget.StepsPerEvent` | compile/engine_backtrack.go:1203-1207 | between two pops or forks at most one pass over the program is executed, in either body |
| `FallbackCost.RunPaid` | compile/engine_backtrack.go:713-749 | every pop, every frame still stacked and every guard passed by a memoised run was paid for by a mark that run made |
| `FallbackCost.FallbackCallCost` | compile/engine_backtrack.go:713-749 | a memoised run's pops, frames and instructions are linear in the span with no budget at all, whatever its memo held at the start |
| `FallbackCost.FallbackFits` | compile/bt_scratch.go:504-545 | a stack that holds the bound never overflows, whatever the memo held |
| `FallbackCost.OrdinaryFits` | compile/engine_backtrack.go:1207-1211 | nor does the ordinary body's, on a program without a zero-width cycle |
| `FallbackCost.EnteredOnce` | compile/engine_backtrack.go:713-749 | a (pc, pos) entered by the memoised body is turned back whenever it is met again in the run |
| `FallbackCost.PassesAreStates` | compile/engine_backtrack.go:713-749 | the guards a run passes are as many as the alternation states it newly marked |
| `FirstSets.Firsts.Of` | compile/bt_dispatch.go:87-157 | the first set of an instruction, computed through cycles with the instruction under way counting as anything, holds every byte a match can begin with there, the end of input when it can match nothing; and nothing else, unless a zero-width cycle lies ahead |
| `AltChains.Flatten` | compile/bt_dispatch.go:190-212 | flattening an alternation terminates and lists its arms in priority order and its inner alternations, each reached only from the chain |
| `AltChains.SharedMeansNested` | compile/bt_dispatch.go:250-262 | two chains share an inner alternation only when one head lies inside the other |
| `DispatchBuild.SortWidest` | compile/bt_dispatch.go:250-252 | candidates taken widest first, none lost, those as wide as each other in program order |
| `DispatchBuild.Accept` | compile/bt_dispatch.go:253-262 | accepted heads never overlap, every alternation taken out of the program belongs to exactly one of them, and a candidate is left out only for an alternation a wider head took |
| `DispatchBuild.BuildPlan` | compile/bt_dispatch.go:159-263 | for any program: each byte goes to exactly the arms it can start, in their order; nothing reachable is taken out; no more frames are pushed than the program has instructions; and an alternation is a head exactly when some byte lets an arm be skipped (for a pair, when no byte starts both) and no wider chain has taken it |
| `DispatchKeeps.DispatchSameResult` | compile/bt_dispatch.go:279-359 | under such a plan the ordinary body and the memoised body, guarded at heads only, find the same end and captures as on the plain program |
| `WorkBudget.ForksArePaid` | compile/bt_dispatch.go:265-277 | with what a dispatch case charges for the arms it skips, every alternation a run of the ordinary body passes, and every pop, is charged to the budget or still stacked |
| `WorkBudget.GoPays` | compile/bt_dispatch.go:265-277 | a dispatched head pays for each of its arms once: the one entered, or the failure's own pop; those pushed; and the rest by its charge |
| `BtCalls.OrdinaryCall` | compile/engine_backtrack.go:472-591 | one ordinary body under a plan: its answer is the reference answer; with frames enough it answers or has spent its budget |
| `BtCalls.FallbackCall` | compile/engine_backtrack.go:713-749 | the fallback never trips, answers the reference answer, and gives up only when memory holds fewer frames than its bound |
| `BtCalls.Planned` | compile/engine_backtrack.go:1250-1273 | the ordinary body unless a zero-width cycle could trap it, the fallback when that is skipped or trips, and which ran and why |
| `BtCalls.Call` | compile/engine_backtrack.go:1250-1325 | a whole call on any program as compiled, dispatch, budget, trip and fallback together: the answer of the plain matcher, its end and slots read off the winning path, or none only for want of stack, at a cost linear in the span |
| `BtCalls.LinearCost` | compile/engine_backtrack.go:1414-1468 | with the emitted budget of (span + 1)·k·N a call executes a number of instructions linear in the span, fallback included |
| `BtCalls.WorkInitAdds` | compile/engine_backtrack.go:1414-1468 | that budget is k·N for each position and k·N for the end of the span |
| `SearchMemo.ClearedIsPure` | compile/bt_search.go:260-302 | after a match, clearing the rows from the attempt's start to its end leaves only marks from which no match is reachable |
| `SearchMemo.AttemptMeans` | compile/engine_backtrack.go:2385-2414 | an attempt on marks other attempts left answers exactly as a first one would, and leaves marks that are pure failures again |
| `SearchMemo.FallbackAttempts` | compile/engine_backtrack.go:2385-2470 | attempts from rising starts that share one memo find the leftmost start and its leftmost-first end, the memo left holding what every attempt marked but the rows of the match; they give up only for want of stack, at a start reported; the marks are then all failures exactly when that start has no match |
| `SearchMemo.GaveUpIsPure` | compile/bt_search.go:260-302 | for every program, plan, start, stack size and memo of failures: an attempt that overflows leaves only failures exactly when its start has no match |
| `GiveUp.AbandonedExactly` | compile/engine_backtrack.go:713-749 | the same of any guarded graph: the state that overflows is marked, and on the way to a match so is every fork passed |
| `SearchMemo.OrdinaryAttempts` | compile/bt_search.go:78-133 | the attempts of one call, one from each candidate in order, each on what those before it left of one budget: the leftmost answer, or the start at which the budget or the stack ran out |
| `SearchMemo.SearchBlock.Place` | compile/bt_search.go:139-236 | the search's memo serves a call when it covers the text; marks made on another text are dropped |
| `SearchMemo.CoversEveryRow` | compile/bt_search.go:139-236 | the memo covers a text exactly when it holds a row for each position of it and its end |
| `SearchMemo.CapsAside` | compile/engine_backtrack.go:2385-2470 | where a find matches and ends does not depend on what capture slots held |
| `SearchMemo.SearchBlock.FallbackFind` | compile/bt_search.go:139-302 | a find on the kept memo answers exactly and keeps the marks failures for the next; when it gives up the block keeps its invariant exactly when its memo was not in use or the start it stopped at has no match |
| `SearchMemo.SearchBlock.Find` | compile/bt_search.go:78-133 | any find call of a search, in any state of its budget, trip and memo, answers the leftmost start from which the plain matcher of the program as compiled matches anywhere in the text, and the end it finds; the attempts are paid for in order from the budget the search has left; it gives up only when memory holds fewer frames than the bound, at a start reported, and the block then keeps its invariant exactly when its memo was not in use or that start has no match |
| `SearchMemo.AbandonedMarks` | compile/bt_search.go:260-302 | that condition bites on a compiled pattern: `a??b??` with one frame of stack overflows at its second fork, and a later search on the marks misses the match |
| `LazyMemo.MemoIndex` | compile/engine_backtrack.go:54-88 | guarded instructions are numbered apart, in the fewest bytes a row can have |
| `LazyMemo.OwnBit` | compile/bt_scratch.go:547-560 | two different guarded states never share a bit |
| `LazyMemo.Region.Place` | compile/bt_scratch.go:350-396 | a call's own region: memo, frame stack and their bounds in place, above the host's base and floor, with no bit known yet; it fails only when the address space or memory.grow does |
| `LazyMemo.Region.PlaceMember` | compile/bt_scratch.go:975-1083 | a set member's memo, placed once per host call, with its stack above it |
| `LazyMemo.Region.Reenter` | compile/bt_scratch.go:975-1083 | a later call of the same member keeps its marks and moves only its stack |
| `LazyMemo.Region.EnsureStack` | compile/bt_scratch.go:450-484 | room for one frame is there, or memory is grown to the page past it, no further, and nothing below changes |
| `LazyMemo.Region.Guard` | compile/bt_scratch.go:547-627 | whatever the memory held, the test reads membership in the visited set and adds to it, zeroing rows only as they are reached, inside the memo, with no wrapped address |
| `LazyMemo.Region.Matched` | compile/bt_scratch.go:934-973 | lowering the watermark after a match forgets exactly the visits from a position on |
| `LazyMemo.Region.Push` | compile/bt_scratch.go:495-545 | a frame is written whole above the memo, memory growing, when the stack is full, by as many pages as the stack has, or by the fewest that hold a frame when that is refused or more; a refused push leaves the region as it was, but for pages gained; it is refused only when growing is |
| `LazyFallback.BitsApart` | compile/engine_backtrack.go:54-88 | distinct guarded (pc, pos) have distinct bits |
| `LazyFallback.HandleLazy` | compile/bt_scratch.go:547-627 | one instruction guarded by the bit table is the step on the set of marks it stands for |
| `LazyFallback.LazyBody` | compile/bt_scratch.go:547-627 | the whole memoised body over the lazily cleared table gives the marking search's answer and leaves its marks in the bits |
| `FrameBytes.FrameFills` | compile/engine_backtrack.go:1545-1570 | a frame is a word for the position, one for each slot and one for the instruction, and nothing more |
| `FrameBytes.FrameRoundTrip` | compile/engine_backtrack.go:1545-1563 | a frame stored as words, the position, the captures, then the instruction, is the frame read back, bit by bit and with negative captures |
| `LazyCall.StackedBody` | compile/bt_scratch.go:495-545 | the body with its frames in the same memory as its marks gives the marking search's answer; it stops only when growth is refused, never when the stack has room for the bound, and with every growth granted never below the ceiling |
| `LazyCall.MemoryCall` | compile/bt_scratch.go:350-393 | a whole call from placing the region on: the answer of the plain matcher, end and captures, or none for want of memory alone |
| `Allocator.ClassFits` | compile/component.go:395-420 | a request and its header fit its class, at most half wasted, and no served request overflows the classes |
| `Allocator.HeadsApart` | compile/component.go:357-364 | the class heads are 32 words side by side, each its own |
| `Allocator.CarveKeeps` | compile/component.go:430-500 | carving a block keeps the books: blocks tile the heap, carry their class, and are each in one place |
| `Allocator.FreeKeeps` | compile/component.go:566-596 | so does giving one back |
| `Allocator.TopIsFootprint` | compile/component.go:320-382 | the heap top is the class heads plus, for each class, the most of its blocks ever live at once |
| `Allocator.RepeatIsFlat` | compile/component.go:320-382 | a balanced run of allocations and frees has the same peak however often it is repeated |
| `HeapRepeat.OneCall` | compile/component.go:383-633 | a call's allocations and its post-return record exactly their events, and need memory only up to the peak those reach |
| `HeapRepeat.SameCall` | compile/component.go:383-633 | the same call again cannot trap, even if memory.grow refuses, and moves neither the heap top nor the pages |
| `ComponentHeap.Heap.Realloc` | compile/component.go:383-533 | cabi_realloc: an 8-aligned block of the right class, off its list or newly carved, linked first on the call chain; memory grows only to the page past the heap top; it traps exactly on a bad request or when the class has nothing free and its block cannot be carved, so never when its history fits the pages there are |
| `ComponentHeap.Heap.Free` | compile/component.go:564-596 | cm_free: the block goes back to the head of its class's list |
| `ComponentHeap.Heap.Post` | compile/component.go:598-633 | cm_post: every block of the call goes back to its list, once each, and nothing else moves |
| `ComponentHeap.Heap.TryReserve` | compile/component.go:680-710 | a request is granted exactly when the pages there are or those memory may grow by hold it, growing by no page more; granted, it will be served without a trap |
| `ComponentHeap.Heap.Restore` | compile/component.go:712-735 | setting the chain back to an earlier point detaches exactly the blocks that joined since |
| `Scanner.Component.Construct` | compile/component.go:1088-1180 | the constructor takes the text and the search's blocks over from the call chain; each block has one owner |
| `Scanner.Component.Next` | compile/component.go:1260-1379 | one step of a scanner keeps ownership, releases what a finished scan held, advances past an empty match, and changes nothing else of its handle but the memo and notes the search has earned: granted when memory has room, kept once held, never given unearned |
| `Scanner.Component.Earn` | compile/component.go:1548-1565 | a memo is granted exactly when the search has tripped, holds none and memory can take it; notes likewise once armed |
| `Scanner.Component.ReleaseFinished` | compile/component.go:1182-1217 | a finished scan gives back its blocks once and forgets them |
| `Scanner.Component.Drop` | compile/component.go:1219-1258 | the destructor frees what the handle still owns, once each |
| `Scanner.Component.GiveMemory` | compile/component.go:712-735 | search memory granted to a handle is detached from the call and owned by it |
| `Scanner.AllFree` | compile/component.go:598-633 | after any run, once every handle is dropped and the call posted, every block ever carved is on its free list and none is live |
| `AhoCorasick.BuildTrie` | compile/aho_corasick.go:34-49 | the nodes are the prefixes of the literals, one each, the literals' ids at their nodes |
| `AhoCorasick.BuildAC` | compile/aho_corasick.go:26-89 | the breadth-first completion leaves every row leading to the longest known suffix and every node listing exactly the literals that end its word |
| `AhoCorasick.WalkExact` | compile/aho_corasick.go:26-89 | after any text the state is the node of the longest suffix that begins some literal |
| `AhoCorasick.EndsAtWalk` | compile/aho_corasick.go:76-85 | its output is the ids of the literals that end there, each once |
| `AhoCorasick.WalkReports` | compile/aho_corasick.go:26-89 | after any text the walk stands at the longest suffix of it that begins some literal, and lists exactly the literals that end there, each once |
| `AcLayout.Renumber` | compile/aho_corasick.go:246-276 | the renumbering is a bijection that fixes the root and puts exactly the reporting nodes in [1, outLimit] |
| `AcLayout.ByteClasses` | compile/aho_corasick.go:191-217 | two bytes share a class exactly when no node tells them apart, and there are as many classes as columns that differ |
| `AcLayout.WriteGoto` | compile/aho_corasick.go:291-320 | every row, plain or by class, decodes for every byte to the renumbered target; an entry no byte reads is zero |
| `AcLayout.WriteOutputs` | compile/aho_corasick.go:322-344 | each node's slice of the flat list is its output, offsets and ids in 16 bits |
| `AcLayout.LiteralsAreOutputs` | compile/aho_corasick.go:103-117 | there are no more literals than propagated outputs, so the output limit bounds the ids too |
| `AcLayout.BuildLayout` | compile/aho_corasick.go:242-357 | within the limits, the tables are the automaton under its new numbers and follow one another without overlapping; rows are by class exactly when that is asked for and there are at most 128 classes, and then as narrow as a power of two that holds them |
| `AcLayout.TablesAreExact` | compile/aho_corasick.go:155-357 | walking the tables and reporting on one unsigned compare gives, after any text, exactly the literals that end there |
| `CollapseShape.CollapseIsClean` | compile/compile.go:3837-3883 | every repeat left holds, somewhere in its body, a group or a leaf that is neither an assertion nor the empty match |
| `CollapseShape.OnlyEmptyIs` | compile/compile.go:3885-3902 | a body is recognised exactly when it holds no group and every leaf of it is an assertion or the empty match |
| `CollapseShape.ChangedIsSmaller` | compile/compile.go:3834-3839 | a rewrite never grows the tree, and reports a change exactly when the tree it returns is another, smaller one |
| `CollapseShape.RejoinLaws` | compile/compile.go:3858-3882 | the parts of a changed concatenation are joined again without their empty matches, in their order: none is the empty match, one stands alone, and two or more stay a concatenation |
| `Collapse.CollapseKeepsMatch` | compile/compile.go:3792-3883 | from every position of every text the rewritten tree has the same first match, end and captures, and the same matches |
| `Collapse.StaysPut` | compile/compile.go:3885-3902 | a body found to match only the empty string never moves and never captures |
| `OperatorLaws.QuestIs` | compile/compile.go:3797-3812 | in the meaning these rewrites keep, an option prefers its body when greedy and the empty match when not |
| `OperatorLaws.PlusStays` | compile/compile.go:3797-3812 | and an iteration that reads nothing is its loop's last, so a loop over a body that never moves is the body |
| `Absence.LitInEveryMatch` | compile/absence_lit.go:45-118 | the literal extracted from a tree occurs inside every match of it |
| `Absence.LitIsFirstLongest` | compile/absence_lit.go:45-118 | it is the first of the longest among the first 16 bytes of every literal that all matches pass through and that does not fold case |
| `Absence.LiteralBytesIff` | compile/mandatory_lit.go:75-105 | a literal has bytes exactly when each of its runes has |
| `Utf8.DecodeEncode` | compile/mandatory_lit.go:75-105 | a rune's bytes decode to it, by the Unicode Standard's table of well-formed sequences |
| `Utf8.EncodeDecode` | compile/mandatory_lit.go:75-105 | and every well-formed sequence is the bytes of the rune it decodes to |
| `Utf8.EncodesIff` | compile/mandatory_lit.go:75-105 | a rune has no bytes exactly when it is a surrogate or past 0x10FFFF, or past 0xFF in byte mode |
| `Utf8.NoPrefix` | compile/mandatory_lit.go:75-105 | no rune's bytes begin another's |
| `LeafLaws.SpellingIs` | compile/mandatory_lit.go:75-105 | a literal is matched exactly where the text decodes to its runes, up to ASCII case when it folds |
| `StripKeeps.StripKeepsEnds` | compile/compile.go:3786-3796 | a tree without its groups holds none, ends where the tree did, in the same order, and captures nothing |
| `Absence.StripKeepsLit` | compile/absence_lit.go:138-139 | stripping the captures first extracts the same literal |
| `Absence.BuildAbsenceLits` | compile/absence_lit.go:120-146 | a set is served exactly when every id lies in the 64-pattern mask, every pattern parses and one has a literal; the literals are then, in order, those of the first 32 patterns that have one, and every other pattern is never ruled out |
| `Absence.AliveMask` | compile/absence_lit.go:187-319 | the sweep by sixteens, its lane drain and its tail leave alive exactly the patterns nothing rules out and those whose literal occurs in the range |
| `Absence.AlivePatterns` | compile/absence_lit.go:120-319 | the alive mask, exactly: a pattern is in it when it has no literal, comes after 32 that have one, or its literal lies wholly in the range; so none with a match at or after the start of the range is missing |

## Left out

Contracts weaker than the source's own promise:

- RegisterMinimize.ReadBackBreaks: concerns a table that newTDFA never makes; it only shows that the condition of RegisterNeed.RenameSameAnswers can fail.
- SearchMemo.SearchBlock.Find: that too small a stack makes it give up is not claimed; the frames a call needs may be fewer than the bound.
- LazyCall.MemoryCall: asks that instructions, positions and captures fit a signed 32-bit word.
- BtCalls.Call: asks that every cycle of the program pass through an alternation, which regexp/syntax guarantees; ChainWalk.CyclesFork decides it.
- FirstSets.Firsts.Of: is exact only where no zero-width cycle lies ahead; behind one it is a superset, as in the source.

Not in the model:

- Building the tagged automaton beyond one transition's registers: newTDFA's epsilon closures, its state map and state limit, and the threads' inheritance from one state to the next. Tables are taken as given; acceptOps is empty, as newTDFA leaves it.
- Liveness, interference rows and colours are sets and sequences rather than bitset words, and the program's slices are sequences, so nothing is said of aliasing between them.
- The round-wise reference sequentialiser is a function; the counter-keeping one is a method with the source's loops.
- Case folding on rune ranges: a fold flag is modelled on single-rune instructions only, and ASCII folds in trees.
- UTF-8 lowering, Unicode fold tables, the parser, and printing a rewritten tree to compile it again.
- The compact encoding of dispatch tables, the mandatory-literal window, the start-anywhere find and the rule that starts Unicode attempts on character boundaries. The prefix scan is a set of candidate starts that holds every start of a match.
- The address arithmetic of the search block's embedded memo and of its neutral twin.
- Set members' epochs across several regions; one member's region is modelled.
- Payload bytes in the allocator, the last page below 65,536, and the groups-next export of the component.
- A trap ends the run: nothing is claimed of the heap after one.
- Absence masks are sets of pattern numbers; positions are unbounded rather than i32.
- Aho-Corasick tables are sequences of 16-bit entries, not little-endian bytes.
- The zero-width collapse is a function on tree values; that the source rewrites nodes in place is not modelled.
- WebAssembly encoding, command line, configuration, stubs, diagnostics, and heuristics that cannot change an answer.
