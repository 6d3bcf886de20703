# KRover: the symbolic store, its steps and its branch decisions

KRover executes x86-64 kernel code concretely and symbolically. Its symbolic state is a byte-addressed store: a bitmap
says which bytes are symbolic, an interval store (`Symbol_List_Map`) holds the expressions, and host memory or register
words hold concrete bytes underneath. This project models that store for memory and registers, the instructions that
work on it, the branch decisions made from saved flag expressions, and the rewriting of RIP-relative instructions.

`dafny verify dfyconfig.toml --resource-limit 2000000 --verification-time-limit 0` checks everything.

## How it is built

| file | what it holds |
|---|---|
| `Bytes`, `Addresses`, `Exprs` | little-endian bytes, ulong addresses and chunk rules, expression trees and their bytes under an assignment |
| `Pieces`, `Assembly` | cell lists as values: cutting to a window, splicing, the byte at an address; `GetExpr`'s part lists |
| `Cells`, `CellIndex`, `SpanCuts`, `SymList` | the heap-allocated interval store: chains of cells, the index, and the class `Symbol_List_Map` |
| `Words`, `Bitmap` | bits of a 32-bit chunk word; the classes `SYMemChunk` and `SYMemBitmap` |
| `Stores` | a store as a value (marks, cells, concrete bytes), its writes and reads, and what they mean |
| `MemState`, `CPUState` | the classes `SYMemState`, `MachineReg` and `SYCPUState`, each method equal to a function on a `Store` |
| `Runs` | whole runs of register and memory writes |
| `Branch`, `Paths` | flag rules, the three deciders, symbolic conditions, the path constraint |
| `Arithmetic`, `Manual` | results, flags and orders by numbers, bits and top bits; what each instruction does to each byte, as the manual tells it: the references that the shared definitions of both machines are held against |
| `Machines`, `Steps`, `Halves`, `Stack`, `VMState` | the symbolic machine and the plain machine it stands for, the simulation and exactly when it holds, 32-bit destinations, push and pop, and the classes `VMState` and `SymExecutor` |
| `Z3Handler`, `Misreads` | how the solver reads an expression, which ones it reads as they mean, and which branches it decides as the flags do |
| `RipRewrite` | a decoder for mov, cmp, lea, add and sub with a memory operand, and `RewRIPInsn` |

Classes change their fields in place as the source does. Every method's new state is equated with a value-level function
of the old one (`Contents() == Splice(...)`, `View() == SymStep(...)`), and the theorems are about those functions.

## Conventions

- **Meaning.** An expression stands for a little-endian byte sequence under an assignment of the symbolic objects.
  `ExtractExpr(e, s, t)` is bytes s to t - 1. A `CombineMultiExpr` is read by its offsets, lowest first. `Denote` lays the
  cells over the concrete bytes.
- **Widths** come from the structure, not from the stored `size`, which defaults to 4 (Expr.h:149-151). A cell's
  expression is as wide as the cell.
- **Addresses** are canonical 48-bit, sign-extended, and no cell starts at -1, whose key is the tail sentinel's.
- **Initial state.** Register bitmaps start at zero; CPUState.h:69 leaves them unset.
- **The plain machine** is the processor on plain bytes: a 32-bit result is zero-extended, and pop into rsp leaves the
  popped value. A step is carried out by a `Writer`, the executor when something it touches is symbolic and the processor
  otherwise; `Exact` says when the step is the plain machine's.
- **Conditions** are decided by `Z3Value`, the value the solver gives an expression; operands mean `Eval`.
- **Evaluation at the seeds** substitutes all objects at once. Z3Handler.cpp:142-254 substitutes one at a time.

## Where the code departs from what it is for

Each of these is stated by a lemma with a concrete input or a failing family, and by the exact condition under which the
code is right.

- A list write clears the marks of its whole target but only the cells between the first and the last cell of the list
  (MemState.cpp:186, CPUState.cpp:415, SymList.cpp:238-246). Marks and cells agree afterwards if and only if no live byte
  of the target lies outside that span: `WriteListAgree`, `StaleByteShows`. Theorems about moves ask for that condition.
- Writing the 32-bit part of a register keeps its upper half (CPUState.cpp:379-457), which the processor clears. The
  executor's step is the processor's under every assignment if and only if the upper halves meant zero, and a concrete
  step if and only if their symbolic bytes did: `HalfWrite`, `SymbolicHalfShows`, `NativeHalfShows`.
- `process_pop` into rsp leaves the raised stack pointer (symexec.cpp:1189-1190), the processor the popped value;
  the step is right if and only if the two are equal: `PopIntoRsp`, `PopIntoRspShows`.
- `Z3HandleCombineMulti` puts the first part highest, `GetExpr` pushes the lowest first. An operand of objects, constants
  and extracts is read right under every assignment if and only if its part list is mirrored: `Z3ReadsParts`,
  `Z3ReadsExample`. A branch after cmp or sub on it and a constant, by any code, and after the other instructions by
  equal or not-equal, is decided right for every constant and assignment if and only if it is mirrored or the
  instruction is or: `BranchExact`, `MisreadBranch`.
- `DependencyFlagConcreted` decides jle by a conjunction (EFlagsManager.cpp:472) where the comment above it and
  `chkCondFail` have a disjunction: `DeciderFollowsRule`, `DeciderMissesLE`.
- A comparison built after add, and, test, or, xor compares that instruction's operands, which is not what the flags say,
  except for equal and not-equal: `ConditionFaithful`.
- `RewRIPInsn` goes by name, gs override and size. It takes seven bytes, or eight with gs, to hold a REX byte, leaves a
  displacement of 128 to 255 to a sign-extended byte, and renames ah, ch, dh and bh where it adds a REX byte. Outside
  these cases the instruction is preserved: `RewriteExact`, `RewriteCorrupts`, `RewriteMovesAddress`, `RewriteRenames`.
- A symbolic write that leaves its 32-byte chunk is refused after its concrete bytes have been written: `MemRefused`.

## Model

| member | source | states |
|---|---|---|
| Pieces.WindowByteAt | Z3Handler.cpp:792-808 | cutting cells to a span through nested extracts keeps the value of every byte inside and drops the rest, under every assignment |
| Pieces.SpliceByteAt | SymList.cpp:112-279 | replacing a span by a list gives every byte inside the list's value, or none, and every byte outside its old value, although its cell may have been cut |
| Pieces.SpliceCovered | SymList.cpp:112-279 | the same for which bytes have a cell at all |
| Pieces.SpliceWF | SymList.cpp:229-279 | the result is again a sorted list of disjoint cells of positive size, in the address domain, as wide as their expressions |
| Assembly.FillTiles | SymList.cpp:335-366 | the parts of `GetExpr` tile 0 to size in increasing offset order with neither gap nor overlap, at most size of them |
| Assembly.CombineWF | Expr.h:635-654 | parts that tile make a well-formed CombineMultiExpr: offsets are the sums of the widths before |
| Assembly.AssembleMeaning | SymList.cpp:324-383 | the expression is as wide as the span and means the live cells laid over the concrete bytes, the single-part case included |
| Assembly.AssembleLow | SymList.cpp:324-383 | bytes of the concrete argument above the span do not matter |
| Cells.KeyTellsApart | SymList.cpp:19-25 | keys are equal exactly for equal canonical addresses, and only -1 has the tail sentinel's key |
| Cells.RelinkChain | SymList.cpp:112-279 | replacing the cells between two cells of a chain, with the four links written, gives a chain again: next and prev stay inverse |
| CellIndex.KeysNoRepeat | SymList.cpp:19-50 | on every sentinel-framed sorted list no two cells are indexed under one key |
| CellIndex.CutIndex | SymList.cpp:112-209 | filing the pieces of a cut cell under their own starts keeps the list framed and sorted and the index exact |
| CellIndex.EraseIndex | SymList.cpp:262-269 | erasing the keys of dropped cells keeps the list framed and the index exact |
| CellIndex.SplicedIndex | SymList.cpp:229-261 | linking in cells that fit between two neighbours and filing them keeps the list framed and the index exact |
| SpanCuts.EmptiedSpliced | SymList.cpp:211-279 | cutting the two straddling cells, dropping what lies between and putting a list there is, on values, a splice of the span |
| SpanCuts.StraddleUnique | SymList.cpp:62-110 | a span has only one pair of straddling cells, so the index lookup and the scan from the header agree |
| SpanCuts.IndexHit | SymList.cpp:62-82 | an index hit is the cell starting at the span's start, and the cell before it ends at or before that |
| SymList.Symbol_List_Map.constructor | SymList.cpp:21-50 | a new store holds the two sentinels, indexed under -1 and the tail's key, and nothing between |
| SymList.Symbol_List_Map.Scan | SymList.cpp:84-107 | both cursors reach their cells without passing the tail; it terminates on every framed list |
| SymList.Symbol_List_Map.GetAffectedCells | SymList.cpp:62-110 | the last cell starting before the span and the first one ending after it, by index or by scan |
| SymList.Symbol_List_Map.SplitCell3 | SymList.cpp:112-154 | the cell becomes three linked cells with the three extracts of its value, each filed unless reading |
| SymList.Symbol_List_Map.SeplitCell_Head | SymList.cpp:156-181 | the part before the cut stays in the cell and the part after it follows in a new, filed cell |
| SymList.Symbol_List_Map.SeplitCell_Tail | SymList.cpp:183-209 | the part from the cut on stays in the cell, refiled under its new start, and the part before precedes it |
| SymList.Symbol_List_Map.Split_Head_Tail | SymList.cpp:211-227 | after the cuts the cells between the two returned ones make up the span exactly; when reading, index and outer list are untouched |
| SymList.Symbol_List_Map.RemoveBetween | SymList.cpp:262-269 | the cells between two cells are unlinked and unfiled, all others kept in list and index |
| SymList.Symbol_List_Map.Merge | SymList.cpp:229-261 | the list invariant is kept and the contents are the old ones with the span of the source list replaced by it; no cell comes from elsewhere |
| SymList.Symbol_List_Map.Remove | SymList.cpp:271-279 | the list invariant is kept and the contents are the old ones with just the span emptied |
| SymList.Symbol_List_Map.CreateSymbolList | SymList.cpp:281-301 | fresh copies of a stretch of cells, linked in the same order, the originals unchanged |
| SymList.Symbol_List_Map.GetCellList | SymList.cpp:303-322 | changes nothing and returns fresh, linked, null-terminated cells: the span's window moved to 0 |
| SymList.Symbol_List_Map.CollectParts | SymList.cpp:335-366 | the three vectors hold the live cells in order with one-byte constants of the concrete value between |
| SymList.Symbol_List_Map.GetExpr | SymList.cpp:324-383 | changes nothing and returns the combination of the span's parts, or the only part itself |
| Words.MaskBit | MemState.cpp:43-61 | the shifted mask sets just the bits from its start for its length, also where it fills the word |
| Words.MarkedWith | MemState.cpp:43-124 | or, and-not and and of words act on each bit alone |
| Bitmap.SYMemChunk.Destroy | MemState.h:34-39 | both neighbours forget the chunk |
| Bitmap.SYMemBitmap.MaskChunk | MemState.cpp:43-61 | one chunk, old or new, gets the bits of the mask on top of its own |
| Bitmap.SYMemBitmap.MarkSYMemBitmap | MemState.cpp:24-41 | after marking, a byte is marked iff it was or lies in the span, across any number of chunks and past the top address; chunks stay aligned and nonempty, links symmetric between chunks 32 bytes apart |
| Bitmap.SYMemBitmap.UnmaskChunk | MemState.cpp:78-93 | the bytes of one chunk's part are unmarked; an emptied chunk is erased and no link refers to it |
| Bitmap.SYMemBitmap.UnmarkSYMemBitmap | MemState.cpp:63-93 | after unmarking, a byte is marked iff it was and lies outside the span; the chunk and link invariants are kept |
| Bitmap.SYMemBitmap.TestSYMemBitmap | MemState.cpp:96-124 | true iff some byte of the span is marked, over any number of chunks |
| Bitmap.SYMemBitmap.FindSYMemChunk | MemState.cpp:126-133 | finds the byte's chunk if it is there; if not, no byte of that block is marked |
| Stores.WriteConcreteMeaning | MemState.cpp:140-156 | a concrete write keeps marks and cells agreeing and changes the meaning of just its target, to its bytes |
| Stores.WriteExprMeaning | MemState.cpp:199-211 | an expression write keeps them agreeing and makes its target mean the expression's bytes |
| Stores.WriteListAgree | MemState.cpp:177-197 | after a list write marks and cells agree if and only if no live byte of the target lay outside the list's span |
| Stores.WriteListMeaning | MemState.cpp:177-197 | then the target means the list laid over the concrete bytes and nothing else changes |
| Stores.StaleByteShows | MemState.cpp:186-197 | every stale byte, in any store, keeps its old symbolic value and loses its mark |
| Stores.StaleByteExample | MemState.cpp:186-197 | a store and a list write for which that happens |
| Stores.ReadFinds | MemState.cpp:136-175 | when marks and cells agree, the bitmap test is true exactly when the cell list of the span is not empty |
| Stores.ReadCellsMeaning | MemState.cpp:213-231 | the cells read, laid over the concrete bytes of the span, mean the span's bytes |
| Stores.ReadExprMeaning | MemState.cpp:233-261 | the expression read is as wide as the span and evaluates to the span's bytes |
| Stores.ReadConcreteMeaning | MemState.cpp:158-175 | an unmarked span means its concrete bytes |
| Stores.RunMeaning | MemState.cpp:140-261 | after any sequence of writes marks and cells agree and the store means the plain byte array where the last write wins |
| Addresses.CrossesIs | MemState.cpp:177-261 | a span leaves its chunk, or its half chunk, if and only if its first and last byte lie in different blocks of 32, or of 16 |
| Addresses.SignedAddrIs | symexec.cpp:1140-1255 | a 64-bit word and its signed address are equal modulo 2^64 |
| MemState.SYMemState.constructor | MemState.h:73-82 | memory starts with no mark and no cell over the host bytes |
| MemState.SYMemState.WriteConcreteValue | MemState.cpp:264-290 | the 1, 2, 4 or 8 low bytes go to host memory; any other size is refused and changes nothing |
| MemState.SYMemState.ReadConcreteValue | MemState.cpp:292-317 | the bytes of host memory, with 255 or 0 above them by the top bit, or the argument unchanged for another size |
| MemState.SYMemState.IsSYMemoryCell | MemState.cpp:136-138 | true iff some byte of the span is marked |
| MemState.SYMemState.WriteSymbolicList | MemState.cpp:177-197 | refused if and only if first and last byte lie in different 32-byte blocks; otherwise bitmap, list and host end up as the value-level list write says |
| MemState.SYMemState.WriteSymbolicExpr | MemState.cpp:199-211 | refused if and only if first and last byte lie in different 32-byte blocks; otherwise as the value-level expression write says |
| MemState.SYMemState.WriteMemoryCell | MemState.cpp:140-156 | whole new state of bitmap, interval store and host memory for each kind of value, refused ones included; cells come only from the old store, the source list or new ones |
| MemState.SYMemState.CheckChunk | MemState.cpp:213-225 | a live span inside one chunk always has its chunk in the map |
| MemState.SYMemState.ReadMemoryCell | MemState.cpp:158-175 | symbolic iff a byte is marked; then refused iff first and last byte lie in different 32-byte blocks, and otherwise fresh cells or one expression of the span, else the sign-extended host bytes; nothing changes; an expression of 3, 5, 6 or 7 bytes has unset bytes between its cells |
| CPUState.RegMaskBit | CPUState.cpp:172-179 | the mask of a part marks just its low bytes |
| CPUState.MarkedBytesOps | CPUState.cpp:278-310 | or, and-not and and on a byte bitmap are union, difference and intersection of byte sets |
| CPUState.MachineReg.IsSYReg | CPUState.cpp:278-294 | a part is symbolic iff one of its bytes is marked |
| CPUState.MachineReg.SetSYReg | CPUState.cpp:296-302 | marks just the bytes of the part |
| CPUState.MachineReg.ClrSYReg | CPUState.cpp:304-310 | unmarks just the bytes of the part |
| CPUState.MachineReg.WriteConcreteValue | CPUState.cpp:429-457 | replaces the low bytes of the register's word by the part's, the upper ones kept, for 32 bits too |
| CPUState.MachineReg.ReadConcreteValue | CPUState.cpp:459-487 | replaces the low bytes of the argument by the part's |
| CPUState.MachineReg.ListBits | CPUState.cpp:407-414 | the loop over a list sets the bits of the bytes its cells cover, and no others |
| CPUState.MachineReg.WriteCellList | CPUState.cpp:399-418 | a list is moved to the register's own offsets and merged; marks of the part are replaced by the list's bytes |
| CPUState.MachineReg.WriteRegister | CPUState.cpp:379-427 | the register's word, bitmap and cells end up as the value-level write to that part says |
| CPUState.MachineReg.ReadRegister | CPUState.cpp:313-343 | symbolic iff a byte of the part is marked; then fresh cells or one expression of the part over its word |
| CPUState.SYCPUState.MakeTable | CPUState.h:119-135 | every named part, and nothing else, gets an entry, and it refers to its register's own storage |
| CPUState.SYCPUState.constructor | CPUState.h:118-137 | all registers are concrete and no two share storage |
| CPUState.SYCPUState.WriteRegister | CPUState.cpp:379-427 | writing one part changes that register alone, and no two registers come to share a cell |
| CPUState.SYCPUState.ReadRegister | CPUState.cpp:313-343 | reading by name reads the named part of the named register and changes nothing |
| Runs.RegRunReads | CPUState.cpp:278-487 | after any mix of 8, 16, 32 and 64-bit writes the bitmap equals the cell coverage, the register means last-write-wins bytes, and every part reads as the low bytes of the whole |
| Runs.MemRunReads | MemState.cpp:140-261 | after any sequence of concrete, expression and list writes a byte is marked iff a cell covers it, and any read evaluates to last-write-wins bytes under every assignment |
| Runs.RegRunExtends | CPUState.cpp:379-457 | a run of register writes goes on just with a write that its outcome allows |
| Runs.MemRunExtends | MemState.cpp:140-261 | the same for memory writes |
| Runs.MemRefused | MemState.cpp:140-156 | a refused symbolic write keeps marks, cells and the value of marked bytes, and still changes the unmarked bytes of its span |
| Branch.DeciderFollowsRule | EFlagsManager.cpp:362-590 | the concrete decider equals the SDM rule on given flags if and only if, for LE, its two tests agree |
| Branch.DeciderMissesLE | EFlagsManager.cpp:460-480 | comparing equal bytes, the rule takes jle and the decider does not |
| Branch.ChkCondFailFollowsRule | thinctrl.cpp:350-459 | on every eflags word the native decider is the negation of the SDM rule |
| Branch.SubWord | Z3Handler.cpp:531-534 | subtraction of words of any width is the difference, wrapped once when it borrows |
| Arithmetic.AluResults | Z3Handler.cpp:526-603 | sum, difference and product are those of the numbers up to a multiple of 256^n, and each bit of and, or, xor is that of the two bits |
| Arithmetic.OpResultsAre | symexec.cpp:420-859 | add, sub, cmp, and, test, or, xor compute these results and nothing else does |
| Arithmetic.UryResults | Z3Handler.cpp:557-581 | negation is the number that wraps the sum to zero, and not turns every byte |
| Arithmetic.FlagsMean | EFlagsManager.cpp:362-590 | after any of the seven instructions CF is the carry or borrow, ZF an all-zero result, SF its top bit, and OF a top bit that two operands of that sign, or of different signs for a difference, cannot give |
| Arithmetic.OrderMeans | Z3Handler.cpp:629-683 | the solver's eight comparisons: the unsigned ones by number, the signed ones first by the top bits and then by number |
| Arithmetic.RuleMeans | EFlagsManager.cpp:837-982 | after cmp and sub, of any width, the flags take a branch if and only if the operands are in the order the code names, by top bit and number |
| Arithmetic.ConditionMeans | EFlagsManager.cpp:837-982 | the condition built after cmp or sub holds for the solver if and only if the operands it reads are in that order |
| Arithmetic.SignExtendMeans | MemState.cpp:292-317 | a widened value has 255 in every upper byte if its top bit is set, and 0 if not |
| Branch.DifferenceFlags | EFlagsManager.cpp:837-982 | sign and overflow of a difference, of any width, order its operands as signed numbers; zero is equality |
| Branch.ConditionSays | Expr.cpp:104-191 | each condition built from the saved expression says of the operands' values, as the solver reads them, what its name says, signed or unsigned |
| Branch.ConditionFaithful | EFlagsManager.cpp:837-982 | for each width, code and instruction: the condition decides as the flags on all operands if and only if the instruction is cmp or sub or the code is equal or not-equal |
| Branch.ConditionDecides | EFlagsManager.cpp:837-982 | for cmp and sub of any width and any operand expressions that the solver reads right, the condition holds for the solver under an assignment iff the flags of the evaluated operands take the branch |
| Machines.CanonicalIs | SymList.cpp:19-25 | the address domain is exactly that of the canonical addresses, those whose upper 17 bits agree |
| Machines.ReadMeaning | oprand.cpp:16-90 | an operand read as an expression or a constant means its bytes in the plain machine, across chunks too |
| Machines.ConMeaning | oprand.cpp:41-64 | setting a concrete value replaces the meaning of just the bytes of the place, in every register part and anywhere in memory |
| Machines.ExprMeaning | oprand.cpp:117-140 | setting an expression replaces the meaning of just the bytes of the place by its value |
| Machines.CellsMeaning | oprand.cpp:92-115 | setting a cell list replaces the meaning of just the bytes of the place by the list laid over the concrete value |
| Machines.NativeMeaning | thinctrl.cpp:921-944 | the processor's write of a place without symbolic bytes is the plain machine's write, zero-extension included, but for bytes of the upper half whose symbolic value hides the concrete one |
| Steps.SymMov | symexec.cpp:382-418 | a move by cell list, rebased between register and memory either way, moves the meaning of its source to its destination |
| Steps.SymOp | symexec.cpp:420-859 | add, sub, and, or, xor, cmp and test with a symbolic operand give the result's bytes and the processor's flags |
| Steps.SymXchg | symexec.cpp:1258-1310 | an exchange, also of a part with itself or of overlapping places, exchanges the meanings |
| Steps.SymPush | symexec.cpp:1196-1255 | a push moves the stack pointer down and the meaning of its operand to the slot |
| Steps.SymPop | symexec.cpp:1140-1194 | a pop moves the meaning of the slot to its destination and then the stack pointer up |
| Steps.ExactIff | CPUState.cpp:379-457 | on plain bytes the executor's step, and the processor's under hidden bytes, is the plain step if and only if the kept upper halves of 32-bit destinations are zero and a pop into rsp pops the raised stack pointer |
| Steps.StepSimulates | symexec.cpp:35-324 | a step, by the executor or by the processor when nothing is symbolic, leaves marks and cells agreeing everywhere; under an assignment it is the plain step of the machine it stands for if and only if nothing shows of who made it |
| Manual.StepManual | symexec.cpp:35-324 | for every step of the symbolic machine and every assignment: the new state means q if and only if q is what the manual tells: mov, xchg, push and pop move the bytes given, add, sub, and, or, xor put their result and cmp and test nothing, push and pop use the slot at the signed address of the 64-bit pointer lowered or not by 8, the flags are those of the result, every other byte is kept, and the upper half of a 32-bit destination is kept or cleared by who carries it out |
| Manual.PlainStepManual | symexec.cpp:35-324 | the same for the plain machine, which always clears that upper half |
| Manual.ConcreteStepOk | symexec.cpp:35-324 | a machine without symbolic bytes may carry out every instruction on places that exist |
| Manual.RegisterStepOk | symexec.cpp:420-859 | operations and exchanges among registers and constants are in order whatever is symbolic |
| Steps.SequenceSimulates | symexec.cpp:35-324 | for every straight-line sequence whose steps are exact under an assignment, evaluating the final symbolic state equals making the same steps of the plain machine on the evaluated initial state, which never gets stuck |
| Steps.SequenceExtends | symexec.cpp:35-324 | a sequence may be extended by a step if and only if that step is in order where the sequence leads |
| Halves.HalfWrite | CPUState.cpp:379-457 | any step, xchg of two lower halves included, but pop into rsp by the executor, is the plain step under every assignment if and only if, under every assignment, the upper half of each register whose lower half it writes meant zero before: all of it for the executor, its symbolic bytes for the processor |
| Halves.SymbolicHalfShows | CPUState.cpp:445-447 | mov eax, ebx with ebx symbolic and rax all ones is not the plain step under any assignment |
| Halves.NativeHalfShows | CPUState.cpp:445-447 | mov ebx, 0 with a symbolic upper half is the plain step exactly under the assignments that make that half zero |
| Halves.PopIntoRsp | symexec.cpp:1175-1190 | pop into rsp of a symbolic slot is the plain step if and only if the popped value is the raised stack pointer |
| Halves.PopIntoRspShows | symexec.cpp:1175-1190 | pop rsp with rsp 0x1000 and an object in the slot is the plain step exactly under the assignments that make the object 0x1008, and not under one that makes it 0 |
| Halves.PopExact | symexec.cpp:1175-1190 | after pop into rsp the executor's stack pointer is the old one plus 8, the plain machine's is the popped value |
| Stack.ReadMarks | CPUState.cpp:313-343 | the cells a read returns cover just the marked bytes of its span |
| Stack.PopMarks | symexec.cpp:1140-1194 | a slot whose marks include the register's may be popped into it, and the register gets the slot's marks |
| Stack.PushThenPop | symexec.cpp:1140-1255 | popping back a pushed register other than rsp is always in order; the two restore its marked bytes, every register's value, the flags and rsp, and change memory only in the slot |
| VMStates.VMState.constructor | VMState.cpp:27-32 | a new machine is concrete and in order, and its registers and memory share no object |
| VMStates.VMState.WriteRegister | VMState.cpp:184-186 | only the named register changes; registers, memory and flag manager still share no object |
| VMStates.VMState.WriteMemory | VMState.cpp:201-203 | only memory changes; nothing comes to be shared |
| VMStates.VMState.SetConValue | oprand.cpp:41-64 | a concrete value goes to a register part or memory, as on values |
| VMStates.VMState.SetSymExpr | oprand.cpp:117-140 | an expression goes to a register part or memory over zero bytes |
| VMStates.VMState.SetSymList | oprand.cpp:92-115 | a cell list that belongs to nobody is taken over by its destination |
| VMStates.VMState.ReadExpr | thinctrl.cpp:1445-1478 | an operand read as an expression, or as a constant if no byte is marked, wherever it lies |
| VMStates.VMState.ReadList | symexec.cpp:2057-2096 | an operand read as fresh cells that belong to no store, or as a constant, wherever it lies |
| VMStates.QueueSimulates | symexec.cpp:35-324 | the queue that the executor works through stands for the same sequence of plain steps under every assignment for which each step is exact |
| VMStates.QueueExtends | symexec.cpp:35-324 | a queue may be extended by a step if and only if that step is in order there and needs the executor |
| VMStates.SymExecutor.PushInstr | symexec.cpp:30-33 | the instruction is queued last |
| VMStates.SymExecutor.ProcessMov | symexec.cpp:382-418 | on the heap: the whole new machine is the symbolic step's, no cell in two stores |
| VMStates.SymExecutor.ProcessAlu | symexec.cpp:420-859 | the same for the seven arithmetic and logic instructions and the saved flag expression |
| VMStates.SymExecutor.ProcessXchg | symexec.cpp:1258-1310 | the same for xchg, both operands read before either is written |
| VMStates.SymExecutor.ProcessPush | symexec.cpp:1196-1255 | the same for push |
| VMStates.SymExecutor.ProcessPop | symexec.cpp:1140-1194 | the same for pop |
| VMStates.SymExecutor.Run | symexec.cpp:35-324 | the queue is worked off in order and left empty; the machine is where the sequence of steps leads |
| Paths.EFlagsManager.SaveFlagChangingInstructionExpr | EFlagsManager.cpp:179-192 | the flags become those of the saved operation, constraints unchanged |
| Paths.EFlagsManager.EvalCondition | EFlagsManager.cpp:743-814 | decides by the solver's truth of the condition at the seeds, that is by the order of the operands it reads, signed codes by top bits, or by whether the result is zero; adds the condition or its negation, so that all constraints still hold at the seeds |
| Paths.EFlagsManager.UpdateJCCDecision | thinctrl.cpp:656-695 | a branch on saved flags decides symbolically, on known ones by eflags, and only the former adds a constraint |
| Paths.RunExtends | thinctrl.cpp:656-695 | a run goes on for one more line if and only if that line can be taken where it has led |
| Paths.LineExactMeans | symexec.cpp:35-324 | a step of a run is exact if and only if it means what the plain machine's step does; a branch on known flags is always exact |
| Paths.JumpAgrees | thinctrl.cpp:656-695 | under any assignment by which the saved operands are read right: either the plain machine goes along and the added constraint holds for the solver, or it goes the other way and the constraint fails |
| Paths.PathConstraint | EFlagsManager.cpp:743-814 | for every program with jumps, every number of lines and every assignment by which each line is exact up to where its own run leaves the path: it satisfies the accumulated constraints, as the solver reads them, if and only if the plain machine started from it takes the same decisions, and then it ends in what the symbolic state stands for |
| Paths.MirroredRun | EFlagsManager.cpp:743-814 | operands that are mirrored, which can be seen without an assignment, make the branches of a run exact, up to where an assignment leaves the path, under every assignment |
| Paths.MisreadBranch | Z3Handler.cpp:811-834 | cmp of a 16-bit operand with a symbolic low byte against 1: at a seed of 1 the flags take je and the solver does not |
| Paths.SeedsHold | EFlagsManager.cpp:743-814 | over every run, exact or not, the seeds satisfy every accumulated constraint |
| Paths.RunFollowsSeeds | thinctrl.cpp:656-695 | in every run that is exact at the seeds each decision is that of the plain run at the seeds, and the two runs end alike |
| RipRewrite.SevenBytes | conexec.cpp:452-476 | a RIP-relative instruction of seven bytes has a prefix or a REX byte before opcode, ModRM and displacement, or a one-byte immediate behind them |
| RipRewrite.RewriteExact | conexec.cpp:382-509 | for every RIP-relative mov, cmp, lea, add or sub that a branch takes by name, gs and size: the emitted bytes are the same instruction on r15, with the same effective address wherever they are placed, if and only if the REX byte the branch assumes is there, the REX byte it adds renames no byte register, and the displacement is not 128 to 255 |
| RipRewrite.RewriteTaken | conexec.cpp:382-509 | every RIP-relative instruction of the five names is taken in six or seven bytes without gs, and mov and add in seven or eight with gs, in no other case; what is emitted is then the same instruction on r15 if and only if the longer size has its REX byte, the shorter no ah, ch, dh or bh, and the displacement is not 128 to 255 |
| RipRewrite.BodyEncodes | conexec.cpp:382-509 | after any prefixes and REX byte, each opcode of the five names with mod 0 and rm 5 decodes to that name, with its signed displacement, its immediate of one, two or four bytes, and its register, high-byte registers included |
| RipRewrite.NamesAre | conexec.cpp:382-509 | an opcode and its register field have a name just when the opcode map gives it |
| RipRewrite.PrefixesRead | conexec.cpp:382-509 | any number of legacy prefixes is read as such before the rest |
| RipRewrite.FormsEncode | conexec.cpp:382-509 | opcode, ModRM with mod 0 and rm 5, and displacement are an instruction that is considered for rewriting, alone, after a REX byte, after gs and after both, for every opcode of the five names without an immediate |
| RipRewrite.RewriteCorrupts | conexec.cpp:452-476 | seven bytes without REX: the displacement is changed and the operand stays on rip |
| RipRewrite.RewriteRenames | conexec.cpp:477-501 | mov ah, [rip] becomes mov spl, [r15] |
| RipRewrite.RewriteMovesAddress | conexec.cpp:462-468 | lea with a displacement of 0x80 gets one of -0x80 |
| RipRewrite.RewRIPInsn | conexec.cpp:382-509 | the five names are taken in six or seven bytes, mov and add with gs in seven or eight, and nothing else; the buffer then begins with the rewritten bytes, which are the instruction on r15 just when it is rewritable, their number is returned and the rest is kept; where nothing is taken nothing is written |
| RipRewrite.InsertInsnUpdateR15 | conexec.cpp:931-943 | ten bytes are written: the two of the opcode and the little-endian value; the rest of the page is kept |
| RipRewrite.LoadSetsR15 | conexec.cpp:1081-1087 | these ten bytes decode to a load of r15 with that value |
| Z3Handler.Z3HandleCombineMulti | Z3Handler.cpp:811-834 | fewer than two parts are refused; otherwise the loop concatenates with the first part highest |
| Z3Handler.TurnedReads | Z3Handler.cpp:258-479 | turning every part list round, at every depth, makes the solver's reading the meaning of any expression |
| Z3Handler.MirroredReads | Z3Handler.cpp:258-479 | an expression whose part lists, at every depth, are of leaves and name the same byte sources from either end is read as it means under every assignment |
| Z3Handler.PartlessMirrored | Z3Handler.cpp:258-479 | every expression without part lists is mirrored |
| Z3Handler.Z3ReadsParts | Z3Handler.cpp:811-834 | for part lists of objects, constants and extracts of them: the solver reads them right under every assignment if and only if they name the same byte sources from either end |
| Misreads.BranchExact | EFlagsManager.cpp:837-982 | an operand made of objects, constants and extracts, after cmp or sub and any code, or after another instruction and equal or not-equal: the branch is decided as the flags are for every constant second operand and every assignment if and only if the part list names the same byte sources from either end or the instruction is or |
| Z3Handler.Z3ReadsExample | Z3Handler.cpp:811-834 | a one-byte object below a concrete byte is read wrongly under some assignment |

## Left out

- Dyninst decoding, operand parsing and register numbers: operands are datatypes with their address computed; register parts have the names of the table in CPUState.cpp:78-150, which has no high-byte registers.
- Z3 solving, models and simplification (Z3Handler.cpp:31-254): replaced by the evaluator over expressions.
- The simulation gives part lists their meaning by offsets and branch conditions the solver's; where these differ is the subject of `Z3Handler`.
- Stores.WriteListMeaning: asks that nothing stale lies in the target, as do the moves, pushes and pops built on it, because marks and cells do not agree otherwise.
- Steps.StepSimulates: asks of a symbolic memory destination that it stay in one 16-byte half chunk and of a symbolic memory source that it stay in its chunk, which the code asserts or refuses, and of every memory operand that it be canonical, mapped and 1, 2, 4 or 8 bytes long; mov and xchg of a concrete value over symbolic memory are excluded, since the code asserts or exits there (symexec.cpp:408, oprand.cpp:52-61); push and pop need a concrete rsp, as the code asserts.
- Runs.MemRunReads: writes of 1, 2, 4 and 8 bytes that are not refused; `MemRefused` and the contract of `WriteMemoryCell` cover the others.
- Paths.PathConstraint: asks for exact lines up to where the assignment leaves the path, that is of branches after add, and, test, or, xor that they ask for equal or not-equal and of saved operands that the solver reads them right, and of steps what `StepSimulates` finds them to need; `ConditionFaithful`, `BranchExact` and `HalfWrite` say when these hold under every assignment.
- Z3Handler.MirroredReads: sufficient for any expression and, by `Z3ReadsParts` and `BranchExact`, necessary for a list of objects, constants and extracts; a list with arithmetic in its parts is covered by `TurnedReads` only.
- RipRewrite.RewRIPInsn: whether gs is read is taken from the 0x65 prefix; the and, xadd and test forms (conexec.cpp:510-592) and other opcodes are not modelled, nor what follows a hypercall.
- CPUState.RegSlot.constructor: one storage object per register stands for the entries of three arrays, and 32 of the 64 bitmap bits are kept, of which only eight are ever set.
- A constant operand keeps eight bytes with the sign extended; only the bytes of its operand's width are ever used.
- CPUState.cpp:269 compares a masked register number with `D_REG` unshifted, lines 433 and 463 compare it with `L_REG` shifted; on no one scale of those library constants do both tests single out their parts. The model takes each part to be recognised.
- Runs.RegRunReads: so holds of the code for the parts that those tests recognise.
- The source's `int` sizes and 64-bit addresses are unbounded integers; the address domain keeps every sum in range.
- Sign, no-sign, overflow, parity and carry-only conditions beyond the ten codes: their expressions are stubs or null.
- Instructions whose symbolic handling is a stub or has mixed widths: shifts, mul, idiv, movsx, movzx, set, cmov, not, neg, lea, cbw, cdq, shrd.
- `ConcreteFlag` and the writing of eflags, the lazily computed flag bits, and printing, counters and file tables.
- Concrete execution of blocks, context switches, self-modifying code, probes and page pools.
- Creation and destruction of user-declared symbolic objects (VMState.cpp:43-150): they are initial writes of object expressions.
