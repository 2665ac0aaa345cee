# Verified model of ER's symbolic engine

ER replays a recorded execution symbolically: a KLEE-derived engine follows the trace of a
failing run, gathers the path constraints, and solves them for an input that fails the same
way. This project models the parts of the engine whose logic carries that guarantee and proves
what they promise.

The parts share one semantics. An expression is a bit-vector term with reads through lists of
byte writes (`Exprs`); an assignment gives every input byte a value, and `Eval` gives every
expression a value of its own width under it. A constraint set stands for the assignments that
satisfy it. What the operations come to as numbers is stated apart from their definitions
(`Numbers`). The solver is a parameter: an `Exact` solver answers feasibility exactly and picks
feasible values. Widths, array sizes and traces are unbounded unless a contract says otherwise;
32-bit offsets and indices are 32-bit sequences of bits, so their wrap-around is modelled.

What is proved, in order of reach:

- Replay: whatever the trace, the constraints gathered say what its entries say, no more and no
  less, and admit only inputs that take its decisions; replaying a recorded trace never
  mismatches and keeps the recorded input (`Replay.Replayer.Run`).
- Symbolic memory: over any sequence of accesses an object with its three-way cache is
  indistinguishable from a byte array (`ObjectRuns.Run`).
- Constraint manager: adding a constraint preserves meaning through rewriting, always
  terminates, and keeps equalities, factors, index and memo in step
  (`ConstraintManagers.ConstraintManager.AddConstraint`); the factors are the connected
  components of the constraints (`FactorTables.Components`) and decide satisfiability
  (`Independence.FactorsDecide`); facts about input bytes are learnt and used (`Facts`).
- Copy-on-write: a tree of address spaces behaves as if every copy were made at once
  (`AddressSpaces.World.Run`).
- Pointer resolution is exact (`Resolution.Resolve`), state merging is exact
  (`Merging.State.Merge`), the scheduler starves no thread (`Threads.Fair`), distances are
  least costs (`Distances.ComputeDistances`), seed patching succeeds
  (`Seeds.SeedInfo.PatchSeed`), and the process tree's leaves are the live states
  (`ProcessTree.Tree.Bijection`).
- Every expression constructor and builder rule preserves evaluation, terminates, and leaves
  nothing that a rule could still reduce (`Constructors.CreateSound`,
  `Irreducibles.CreateIrreducible`, `ExprBuilders.SimplifyBinarySound`,
  `BuilderForms.SimplifyCompact`).

One property the source relies on is false. `IndependentElementSet::intersects` picks the
smaller side twice, once by whole arrays and once by element arrays; when the two picks differ
it never compares the whole arrays of one side with the elements of the other.
`Footprints.IntersectsExact` states exactly for which pairs the answer is wrong,
`Footprints.MissedPair` gives such a pair, and `Regrouping.RegroupMisses` shows that deleting a
constraint can then leave two overlapping factors. The index stays correct as long as the
factors are independent (`FactorIndex.ExactErasable`). Once two overlap, the source's own
assertions in the index no longer all hold: `Regrouping.RegroupErasable` proves that after
regrouping they hold for every group exactly if no two groups share a cell,
`Regrouping.MissedErase` exhibits the failure for the pair above, `FactorIndex.ErasableInserted`
says which factor cannot be erased after any insertions, and `FactorIndex.EraseOrder` that
erasing two factors can succeed in one order and abort in the other. The outcomes `Aborted`,
`StoreFailed` and `Broken` stand for such an abort. The engine's own cross-check of the index
scans with `intersects` and so fails on a correct index, exactly when such a pair is met
(`FactorIndex.ScanExact`). Contracts that depend on it carry a ghost result `sighted`, true when
no such pair was met, and say when it must be: always when every constraint reads input bytes at
constant indices only (`PointReads`), and, for one deletion, whenever no array is read both as a
whole and by element. Meaning is preserved either way.

Traces have two limits. Recording and replaying count distinct labels in 8 bits and distinct
blocks in 16 and assert the counts, so both stop exactly from 256 labels and 65536 blocks on
(`Replay.RecordRun`, `Replay.Replayer.Run`, outcome `TooMany`). The index of a case is cut to 16
bits without an assertion; an entry names its decision exactly if nothing was cut off
(`Replay.RecordEntry`, `Replay.TruncatedCase`).

The memo of the replacing visitor outlives some changes of the equalities: it is cleared when an
equality with a constant other than false is stored, and only then. So a term replaced since may
still occur in a remembered result, and `SimplifyExpr` promises that none is left only as long
as none occurs there; that known input bytes decide what they determine holds in any case.

`dafny verify dfyconfig.toml` checks the whole project. Files are grouped by the part they
model: expressions (`Bits`, `Numbers`, `Exprs`, the constructors, `Irreducibles`, `Weights`,
`PointReads`, `ExprBuilders`, `BuilderForms`), objects (`ByteArrays` to `ObjectRuns`),
constraints (`Replacement` to `ConstraintManagers`, with `KnownBytes`, `ReadSearch` and `Facts`),
and one file per remaining part.

## Model

| member | source | states |
|---|---|---|
| `Replay.RecordEntry` | lib/Core/Executor.cpp:2003-2037 | an entry is written exactly if the assertion on the count of labels or blocks holds; it names the decision the run takes on its input exactly if the index of the case fits 16 bits |
| `Replay.RecordRun` | lib/Core/Executor.cpp:2176-2190 | a concrete run is recorded to its end exactly if no count on the way overflows; then the trace has one entry per decision, in order, and each names that decision exactly if no index of a case was truncated |
| `Replay.LabelsOverflow` | lib/Core/Executor.cpp:1971-2003 | 256 distinct labels, at which the counter wraps and the assertion fails |
| `Replay.BlocksOverflow` | lib/Core/Executor.cpp:2130-2151 | 65535 cases with 65536 distinct blocks, at which the assertion fails |
| `Replay.CasesOverflow` | include/klee/Internal/Support/SerializableTypes.h:33 | a switch with one block and one case too many, whose index is truncated without an assertion |
| `Replay.TruncatedCase` | lib/Core/Executor.cpp:2227-2236 | the constraint a recorded index stands for holds under the recorded input exactly if the index was not truncated |
| `Irreducibles.NegationSymbolic` | lib/Core/Executor.h:483-492 | negating a branch condition as the constructors build them never yields a constant, so `fork` does not take a recorded branch for an error; this is all `Replayer.Run` asks of a condition |
| `Irreducibles.CreateIrreducible` | lib/Expr/Expr.cpp:1140-1198 | from operands to which no rule of the constructors applies, at any depth, every binary constructor makes a node to which none applies either: no constants left to fold or to move, no neutral or absorbing constant, no sum of sums with constants, no equation that could be stripped, no comparison that should have been swapped |
| `Irreducibles.EqPartialIrreducible` | lib/Expr/Expr.cpp:1239-1316 | the same for the equality with a constant, which strips casts and sums, undoes double negation and pushes negation into disjunctions |
| `Irreducibles.SelectIrreducible` | lib/Expr/Expr.cpp:735-764 | the same for select: never a known condition, equal branches or a constant branch of one bit |
| `Irreducibles.ExtractIrreducible` | lib/Expr/Expr.cpp:825-863 | the same for extraction, which never stops at a constant, a concatenation or an extension it can see through |
| `Irreducibles.CastIrreducible` | lib/Expr/Expr.cpp:875-900 | the same for the extensions |
| `Irreducibles.NotIrreducible` | lib/Expr/Expr.cpp:865-873 | the same for bitwise negation |
| `Irreducibles.ReadIrreducible` | lib/Expr/Expr.cpp:681-729 | the same for the read constructor: no read is left whose value a write or a constant array gives, and one at a constant index starts from a write that may be to its cell |
| `Irreducibles.AddIrreducible` | lib/Expr/Expr.cpp:934-957 | the normaliser of sums leaves at most one constant, in front, and none that leads an operand |
| `Irreducibles.SubIrreducible` | lib/Expr/Expr.cpp:982-1007 | that of differences does the same |
| `Irreducibles.ConcatIrreducible` | lib/Expr/Expr.cpp:766-795 | concatenation leaves no two adjacent extracts of one expression and no leading zeros |
| `Irreducibles.BuiltAgain` | lib/Expr/Expr.cpp:1140-1198 | conversely, an expression to which no rule applies is what the constructors build from its operands: such expressions are exactly their fixed points |
| `Replay.SettledBranch` | lib/Core/Executor.cpp:1034-1074 | when the solver or the condition settles a branch, an entry that agrees narrows nothing and every admitted input follows it; one that does not agree, or is no branch, no admitted input follows |
| `Replay.BranchConstraint` | lib/Core/Executor.cpp:1080-1081 | the condition or its negation stands for the recorded branch: it holds exactly for the inputs that take it |
| `Replay.SwitchEntries` | lib/Core/Executor.cpp:2172-2263 | whatever the entry: one of the wrong kind or out of range no admitted input follows; the constraint of a case holds exactly for inputs that take that case, the disjunction for a block exactly for inputs that go to that block |
| `Replay.Replayer.LabelEntries` | lib/Core/Executor.cpp:2014-2052 | the same for an indirect branch: an infeasible label or the wrong concrete one no admitted input follows; the constraint of a feasible one holds exactly for inputs that jump there |
| `Replay.NarrowedBy` | lib/Core/Executor.cpp:1156-1161 | adding a constraint that stands for an entry narrows the constraints to exactly the inputs that do what the entry says; if it cannot be added, no admitted input does |
| `Replay.CaseConstraints` | lib/Core/Executor.cpp:2199-2214 | the loop over the cases builds the constraint of every case and of the default |
| `Replay.BlockConstraint` | lib/Core/Executor.cpp:2247-2262 | the loop over the successors builds the disjunction of the constraints of the cases that lead to a block |
| `Replay.CollectBlocks` | lib/Core/Executor.cpp:2124-2151 | the blocks a switch leads to, numbered by first appearance with the default last (`Branching.BlocksInOrder`, `Branching.DefaultLast`); the counter of 16 bits agrees with their number, as is asserted, exactly if there are fewer than 65536 |
| `Replay.CollectLabels` | lib/Core/Executor.cpp:1970-2003 | the distinct labels in order; the counter of 8 bits agrees with their number, as is asserted, exactly if there are fewer than 256 |
| `Replay.Replayer.FeasibleLabels` | lib/Core/Executor.cpp:1967-2003 | the distinct labels in order, each with its constraint exactly when that is feasible, and an error case that holds exactly for inputs that jump to none of them; the assertion on the count holds exactly below 256 |
| `Replay.Replayer.NextEntry` | lib/Core/Executor.h:579-583 | takes the entry under the cursor and advances the cursor by one |
| `Replay.Replayer.AddPathConstraint` | lib/Core/Executor.cpp:1259-1265 | a condition is rejected or fatal only if no input the state admits satisfies it; otherwise the stored conjunction becomes the old one and the condition |
| `Replay.Replayer.Pin` | lib/Core/Executor.cpp:1156-1161 | after adding the constraint that stands for an entry, exactly the inputs that did what the entry says are left, and they make that decision; it is refused only if there are none; a refusal that `branch` ignores is told apart from one that ends the state |
| `Replay.Replayer.Fork` | lib/Core/Executor.cpp:1063-1167 | for every trace: one entry is consumed; the constraints grow by exactly what it says and every input left takes its branch; a mismatch means that no admitted input follows the entry, and an entry of another kind always is one |
| `Replay.Replayer.Switch` | lib/Core/Executor.cpp:2124-2273 | the same for a switch, by case or by successor block, for every entry; it stops at the count exactly if the blocks are 65536 or more |
| `Replay.Replayer.IndirectBr` | lib/Core/Executor.cpp:1967-2052 | the same for an indirect branch; it stops at the count exactly if the labels are 256 or more |
| `Replay.Replayer.Advance` | lib/Core/Executor.cpp:1063-1167 | the same for any event |
| `Replay.Replayer.Run` | lib/Core/Executor.cpp:1063-1167 | replay theorem. For every trace: when replay ends at the end of the run, the constraints are those of the start and what the entries consumed say, no more and no less, every input that satisfies them runs to the same sequence of targets, and it stops earlier only if the trace ends, no admitted input follows an entry, a count overflows or the constraint store aborts. For the trace of a run on an admitted x: it never mismatches, reaches the end of the run and of the trace and keeps x satisfying the constraints, unless the store aborts or a count overflows; when the initial constraints and every condition of the run read input bytes at constant indices it does so exactly if no count overflows, which is when the recording does |
| `Branching.FindCase` | lib/Core/Executor.cpp:2163-2171 | the index of the case that matches a value, 0 exactly when none does |
| `Branching.CaseHolds` | lib/Core/Executor.cpp:2208-2214 | the constraint of a case holds under an assignment exactly when the switch takes that case |
| `Branching.IntoBlockHolds` | lib/Core/Executor.cpp:2252-2262 | the disjunction built for a block holds exactly when the case taken leads to that block |
| `Branching.BlocksListed` | lib/Core/Executor.cpp:2130-2140 | every case successor is listed once |
| `Branching.BlocksInOrder` | lib/Core/Executor.cpp:2130-2140 | blocks are numbered by the first case that leads to them, so numbers grow with first appearance |
| `Branching.NextBlock` | lib/Core/Executor.cpp:2130-2140 | a block gets the next free number at its first appearance and keeps it |
| `Branching.DefaultLast` | lib/Core/Executor.cpp:2141-2147 | the default comes after the blocks of all cases unless one of them leads there |
| `Branching.SwitchGoes` | lib/Core/Executor.cpp:2163-2171 | a switch goes to the successor of the case that has its value, and to the default exactly when no case has |
| `Branching.UniqueInOrder` | lib/Core/Executor.cpp:1972-1976 | labels are numbered by first appearance |
| `Branching.NextLabel` | lib/Core/Executor.cpp:1972-1976 | a label gets the next free number at its first appearance and keeps it |
| `Branching.Unique` | lib/Core/Executor.cpp:1972-1976 | the labels without repetition: the same labels, none twice |
| `Branching.IntoBlockPointwise` | lib/Core/Executor.cpp:2247-2262 | the constraints of a switch read no symbolic index that the switch value does not read |
| `ObjectRuns.Run` | lib/Core/Memory.cpp:398-591 | over every sequence of initialisations, reads and writes, of any byte-multiple width or Bool, at concrete or symbolic in-bounds offsets and in either byte order, the object holds what a plain byte array would and every value read is what that array held at the time |
| `ObjectRuns.Step` | lib/Core/Memory.cpp:486-591 | one access does to the object what it does to a plain byte array |
| `ObjectRuns.ExtendRun` | lib/Core/Memory.cpp:486-591 | a run that agrees with the plain array up to an access agrees after it |
| `ObjectCells.FlushForReadKeeps` | lib/Core/Memory.cpp:290-310 | flushing a byte for reading keeps the cache invariant, in particular that a flushed byte still cached equals the read of the update list, and changes no byte |
| `ObjectCells.FlushForWriteKeeps` | lib/Core/Memory.cpp:312-346 | flushing a byte for writing, which drops it from the cache, keeps the invariant and changes no byte |
| `ObjectCells.AllFlushedForReadKeeps` | lib/Core/Memory.cpp:290-310 | flushing the whole range flushes every byte and changes none |
| `ObjectCells.AllFlushedForWriteKeeps` | lib/Core/Memory.cpp:312-346 | flushing for a symbolic write leaves no byte cached and changes none |
| `ObjectCells.FlushedList` | lib/Core/Memory.cpp:290-310 | after a flush the update list reads the cached byte at that cell and is unchanged elsewhere |
| `ObjectCells.WriteConcreteSets` | lib/Core/Memory.cpp:428-440 | a concrete byte write keeps the invariant and sets that byte only |
| `ObjectCells.WriteKnownSets` | lib/Core/Memory.cpp:447-462 | a symbolic byte cached at a concrete offset keeps the invariant and sets that byte only |
| `ObjectCells.WriteSymbolicSets` | lib/Core/Memory.cpp:464-484 | a write at a symbolic offset over flushed bytes keeps the invariant and sets the byte the offset denotes |
| `ObjectCells.WithRootKeeps` | lib/Core/Memory.cpp:161-215 | building the constant array from the leading concrete writes keeps the invariant and every byte |
| `ObjectCells.ReadFlushed` | lib/Core/Memory.cpp:398-409 | a byte that is neither concrete nor known reads through the update list to its value |
| `ObjectCells.ReadSymbolic` | lib/Core/Memory.cpp:411-426 | a read at a symbolic offset over flushed bytes has the value of the byte the offset denotes |
| `ObjectCells.PlainContents` | lib/Core/Memory.cpp:75-99 | an object whose bytes are all concrete holds its concrete store |
| `ObjectCells.ArrayContents` | lib/Core/Memory.cpp:101-119 | an object over an array with no cached byte holds the bytes of the array |
| `ObjectStates.ObjectState.constructor` | lib/Core/Memory.cpp:75-99 | a new object satisfies the cache invariant and holds the bytes of its fresh store |
| `ObjectStates.ObjectState.FromArray` | lib/Core/Memory.cpp:101-119 | an object over an array holds the bytes of that array |
| `ObjectStates.ObjectState.Copy` | lib/Core/Memory.cpp:121-143 | a copy holds the same cached and flushed bytes in storage of its own |
| `ObjectStates.ObjectState.GetUpdates` | lib/Core/Memory.cpp:161-215 | the root is created on first use, absorbing the oldest concrete writes; no byte changes |
| `ObjectStates.ObjectState.MakeConcrete` | lib/Core/Memory.cpp:233-240 | the object holds its concrete store |
| `ObjectStates.ObjectState.MakeSymbolic` | lib/Core/Memory.cpp:242-252 | the object holds the bytes of its root array |
| `ObjectStates.ObjectState.InitializeToZero` | lib/Core/Memory.cpp:254-261 | every byte is 0 |
| `ObjectStates.ObjectState.InitializeToRandom` | lib/Core/Memory.cpp:263-273 | every byte is 0xAB |
| `ObjectStates.ObjectState.FlushByteForRead` | lib/Core/Memory.cpp:290-310 | one turn of the flushing loop |
| `ObjectStates.ObjectState.FlushRangeForRead` | lib/Core/Memory.cpp:290-310 | the loop flushes every byte for reading |
| `ObjectStates.ObjectState.FlushByteForWrite` | lib/Core/Memory.cpp:312-346 | one turn of the loop that flushes and uncaches |
| `ObjectStates.ObjectState.FlushRangeForWrite` | lib/Core/Memory.cpp:312-346 | the loop flushes and uncaches every byte |
| `ObjectStates.ObjectState.MarkByteConcrete` | lib/Core/Memory.cpp:360-363 | marks one byte concrete and changes nothing else |
| `ObjectStates.ObjectState.MarkByteSymbolic` | lib/Core/Memory.cpp:365-369 | marks one byte symbolic, allocating the mask on first use |
| `ObjectStates.ObjectState.MarkByteUnflushed` | lib/Core/Memory.cpp:371-374 | marks one byte unflushed; without a mask nothing is flushed |
| `ObjectStates.ObjectState.MarkByteFlushed` | lib/Core/Memory.cpp:376-382 | marks one byte flushed; without a mask, as the code has it, all of them |
| `ObjectStates.ObjectState.SetKnownSymbolic` | lib/Core/Memory.cpp:384-396 | sets or clears one cached symbolic byte and changes nothing else |
| `ObjectStates.ObjectState.Read8` | lib/Core/Memory.cpp:398-409 | the result evaluates to the byte at the offset, under every assignment; no byte changes |
| `ObjectStates.ObjectState.ReadSymbolic8` | lib/Core/Memory.cpp:411-426 | the same at a symbolic offset, where it is in bounds |
| `ObjectStates.ObjectState.Write8Concrete` | lib/Core/Memory.cpp:428-440 | sets the byte at the offset and no other |
| `ObjectStates.ObjectState.Write8` | lib/Core/Memory.cpp:447-462 | sets the byte at the offset to the value of the expression and no other |
| `ObjectStates.ObjectState.WriteSymbolic8` | lib/Core/Memory.cpp:464-484 | sets the byte a symbolic offset denotes and no other |
| `ObjectStates.ObjectState.ReadFixed` | lib/Core/Memory.cpp:513-529 | a read of any width at a concrete offset evaluates to the bytes there, in either byte order |
| `ObjectStates.ObjectState.Read` | lib/Core/Memory.cpp:486-511 | the same at any offset that is in bounds |
| `ObjectStates.ObjectState.WriteFixed` | lib/Core/Memory.cpp:559-591 | a write of any width at a concrete offset stores the bytes of the value there, in either byte order, and changes no other byte |
| `ObjectStates.ObjectState.Write` | lib/Core/Memory.cpp:531-557 | the same at any offset that is in bounds |
| `ObjectStates.FoldedLanes` | lib/Core/Memory.cpp:486-511 | adding a lane number to an offset whose constants are folded never yields a constant offset |
| `ByteArrays.StoredValue` | lib/Core/Memory.cpp:559-591 | a value of any width, one bit included, is loaded as it was stored, and no byte outside is touched |
| `ByteArrays.LoadAfterStore` | lib/Core/Memory.cpp:559-591 | loading what was stored gives it back, in either byte order |
| `ByteArrays.StoreFrame` | lib/Core/Memory.cpp:559-591 | a store leaves every byte outside its range, and lane after lane is where the byte order puts it |
| `ByteArrays.LoadLanes` | lib/Core/Memory.cpp:513-529 | a load is the concatenation of its lanes |
| `ByteArrays.LoadLane` | lib/Core/Memory.cpp:513-529 | in little-endian order byte k of a load is byte k from the offset on, in big-endian order byte k from the other end |
| `ByteArrays.StoreLane` | lib/Core/Memory.cpp:559-591 | likewise for a store |
| `ByteArrays.ValueByte` | lib/Core/Memory.cpp:486-529 | the byte at every position of a loaded value, of any width, in either order |
| `ByteArrays.WrittenByte` | lib/Core/Memory.cpp:531-591 | the byte at every position after a value of any width is stored, inside its range and outside |
| `ArrayReads.BuildConstantArray` | lib/Core/Memory.cpp:161-215 | the three loops compute the constant contents and the writes that remain |
| `ArrayReads.CollectWrites` | lib/Core/Memory.cpp:161-215 | the writes of a list, the oldest first |
| `ArrayReads.AbsorbLeading` | lib/Core/Memory.cpp:161-215 | the contents absorb the longest run of concrete writes from the oldest on |
| `ArrayReads.AbsorbSound` | lib/Core/Memory.cpp:161-215 | absorbing concrete writes into the array leaves every in-bounds read unchanged, for every update list and assignment |
| `ArrayReads.AbsorbsOldest` | lib/Core/Memory.cpp:161-215 | exactly the oldest writes up to the first that is not concrete are absorbed, and the newer ones are kept in order |
| `ArrayReads.ReadExprCreate` | lib/Expr/Expr.cpp:681-729 | the loop over the update list computes the read constructor |
| `ArrayReads.RollBackSound` | lib/Expr/Expr.cpp:681-707 | stepping back over writes to provably different cells leaves the value read unchanged |
| `ArrayReads.ReadSound` | lib/Expr/Expr.cpp:681-729 | the read constructor reads the cell, for every update list, index and assignment |
| `ConstraintManagers.ConstraintManager.constructor` | lib/Expr/Constraints.cpp:400-433 | a manager built from any set holds that set, its factors partition it and are pairwise independent |
| `ConstraintManagers.ConstraintManager.SimplifyExpr` | lib/Expr/Constraints.cpp:104-112 | the result has the value of the expression under every assignment satisfying the constraints, is lighter unless equal, and stays irreducible; no input byte with a known value is left in it outside lists of writes, what such bytes determine becomes a constant, what no equality touches stays as it is; no term with a known value is left at all as long as none was in what the memo holds |
| `ConstraintManagers.ConstraintManager.Candidates` | lib/Expr/Constraints.cpp:50-68 | the candidates for rewriting are exactly the constraints of the factors that share a cell with the replaced term, when factors are independent |
| `ConstraintManagers.ConstraintManager.RewriteConstraints` | lib/Expr/Constraints.cpp:45-76 | each deleted constraint has a lighter replacement of equal value under the new equality, the others stay, and with independent factors the replaced term occurs in none of those that stay |
| `ConstraintManagers.ConstraintManager.NoneMissed` | lib/Expr/Constraints.cpp:53-67 | every stored constraint in which a term that reads a cell occurs lies in a factor that shares a cell with the term, so rewriting by factor misses none |
| `ConstraintManagers.ConstraintManager.AllCandidates` | lib/Expr/Constraints.cpp:53-67 | the candidates include every stored constraint in which the term occurs |
| `ConstraintManagers.ConstraintManager.UpdateEqualities` | lib/Expr/Constraints.cpp:327-353 | the entry of the new constraint comes in, those of the deleted constraints go |
| `ConstraintManagers.ConstraintManager.Store` | lib/Expr/Constraints.cpp:171-179 | constraints, equalities, factors and memo agree again after one constraint replaces others |
| `ConstraintManagers.ConstraintManager.AddInternal` | lib/Expr/Constraints.cpp:120-197 | stored constraints and worklist together mean what they meant with the new constraint, and weigh less if the worklist grew; with independent factors a term given a value is left in no other stored constraint, a new fact about a byte is learnt and one that a stored constraint denies leaves false on the worklist; facts learnt before stay |
| `ConstraintManagers.ConstraintManager.TakeIn` | lib/Expr/Constraints.cpp:143-196 | the case of a constraint that is stored: the same, and it is on record as the value of its right side or as true |
| `ConstraintManagers.ConstraintManager.AddBoth` | lib/Expr/Constraints.cpp:137-142 | both conjuncts of a conjunction are taken in |
| `ConstraintManagers.ConstraintManager.TakeOne` | lib/Expr/Constraints.cpp:365-377 | one turn of the worklist loop keeps the meaning of constraints and worklist, makes progress, and stops exactly on what simplifies to false |
| `ConstraintManagers.ConstraintManager.AddConstraint` | lib/Expr/Constraints.cpp:355-386 | the loop ends on every input; on success the stored conjunction is equivalent to the old one and e; a false result or a failed assertion means that conjunction is unsatisfiable, provided regrouping met no pair that `intersects` misses, which holds whenever the constraints and e read input bytes at constant indices only; factors stay the connected components; a new constraint that known bytes determine is decided at once: false is returned, or nothing changes; with independent factors a new fact about an input byte is learnt, and refused if a stored constraint denies it |
| `ConstraintManagers.PointwiseUnmixed` | lib/Expr/Constraints.cpp:199-271 | constraints that read at constant indices only are regrouped without a missed pair |
| `Facts.LearnsFact` | lib/Expr/Constraints.cpp:143-179 | a fact that gives an input byte a value nothing stored gives it is learnt when it is stored: the value is on record and the byte is left in no other constraint outside lists of writes |
| `Facts.KeepsKnown` | lib/Expr/Constraints.cpp:143-179 | storing a constraint that says nothing else about the byte, with its rewriting, loses no fact learnt |
| `Facts.RefutedFalse` | lib/Expr/Constraints.cpp:104-112 | a stored constraint that denies a new fact is rewritten to false |
| `Facts.Recorded` | lib/Expr/Constraints.cpp:327-353 | a stored constraint is on record as the value of one side or as true |
| `KnownBytes.SameBytes` | lib/Expr/Constraints.cpp:104-112 | which expressions known bytes decide, and which have none left, depends only on which input bytes have known values |
| `ConstraintSets.RewriteMeaning` | lib/Expr/Constraints.cpp:66-76 | moving constraints to the worklist in rewritten form changes nothing, given the equality that rewrote them |
| `ConstraintSets.RewriteLighter` | lib/Expr/Constraints.cpp:66-76 | rewriting makes constraints and worklist together lighter, one unit at least per rewritten constraint |
| `ConstraintSets.EqualitiesKept` | lib/Expr/Constraints.cpp:327-353 | every entry of the equality map comes from a constraint still stored |
| `ConstraintSets.SupportedRules` | lib/Expr/Constraints.cpp:104-112 | so every entry replaces a term by a constant of equal value under the constraints |
| `ConstraintSets.ConstEqSame` | lib/Expr/Constraints.cpp:151-156 | an equality with a constant says the other side has that value |
| `ConstraintSets.RewritePointwise` | lib/Expr/Constraints.cpp:66-76 | rewriting adds no read at a symbolic index |
| `FactorTables.FactorTable.FromConstraints` | lib/Expr/Constraints.cpp:400-433 | the factors built from a set partition it, are its connected components, and each constraint is mapped to the one factor holding it |
| `FactorTables.FactorTable.Add` | lib/Expr/Constraints.cpp:273-317 | adding a constraint joins exactly the factors it shares a cell with; partition, independence, connectedness and the map to factors are kept |
| `FactorTables.FactorTable.Merge` | lib/Expr/Constraints.cpp:300-316 | several factors become one that also holds the new constraint |
| `FactorTables.FactorTable.Collect` | lib/Expr/Constraints.cpp:212-222 | the deleted constraints leave the map, sorted by factor |
| `FactorTables.FactorTable.RebuildFactor` | lib/Expr/Constraints.cpp:229-270 | what survives of a factor is split into groups that are partitioned, stay inside it and are separate |
| `FactorTables.FactorTable.InsertGroups` | lib/Expr/Constraints.cpp:264-269 | the groups become factors and their constraints point at them |
| `FactorTables.FactorTable.Delete` | lib/Expr/Constraints.cpp:199-271 | deleting constraints, which may split factors, keeps partition and map; the factors stay the connected components of what is left unless regrouping met a pair `intersects` misses, and it meets none if no array is read both as a whole and by element |
| `FactorTables.Components` | lib/Expr/Constraints.cpp:199-271 | independent factors are the connected components of the constraints: a factor shares no cell with the rest, and whatever shares none with the rest is made up of whole factors |
| `Regrouping.AbsorbLoop` | lib/Expr/Constraints.cpp:248-259 | the inner loop absorbs every group it intersects |
| `Regrouping.RegroupLoop` | lib/Expr/Constraints.cpp:238-261 | the outer loop computes the regrouping |
| `Regrouping.RegroupPartition` | lib/Expr/Constraints.cpp:238-261 | regrouping keeps the expressions, each in one group, and covers what they read |
| `Regrouping.RegroupSeparate` | lib/Expr/Constraints.cpp:238-261 | groups end up pairwise without a common cell when no missed pair is met |
| `Regrouping.RegroupConnected` | lib/Expr/Constraints.cpp:238-261 | no group can be divided into parts that share no cell if none given could: regrouping splits as far as it can |
| `Regrouping.ConnectedJoin` | lib/Expr/Constraints.cpp:248-259 | joining two connected groups that share a cell gives a connected group |
| `Regrouping.UnmixedSighted` | lib/Expr/Constraints.cpp:238-261 | no missed pair is met when no array is used both as a whole and by element |
| `Regrouping.RegroupPairExact` | lib/Expr/Constraints.cpp:238-261 | two footprints are regrouped apart exactly when they are not a pair `intersects` misses |
| `Regrouping.RegroupMisses` | lib/Expr/Constraints.cpp:238-261 | two constraints that share cells but are left in separate groups |
| `Regrouping.RegroupKinds` | lib/Expr/Constraints.cpp:238-261 | groups that share a cell after all record it in different ways, one as a whole and one by element |
| `Regrouping.RegroupErasable` | lib/Expr/Constraints.cpp:224-268 | whatever is regrouped: once the groups are inserted, the assertions of `erase` hold for all of them exactly if no two share a cell |
| `Regrouping.MissedErase` | lib/Expr/Constraints.cpp:465-486 | an overlap missed is an abort to come: after the missed pair is regrouped and inserted into any index, `erase` fails on one of the groups |
| `Footprints.FootprintOf` | lib/Expr/IndependentElementSet.cpp:3-34 | a footprint covers exactly the cells some read of the expression touches |
| `Footprints.Construct` | lib/Expr/IndependentElementSet.cpp:3-34 | the loop over the reads, with whole arrays absorbing elements, computes that footprint |
| `Footprints.ReadsDecide` | lib/Expr/ExprUtil.cpp:19-75 | two assignments that agree on the cells read give the expression the same value |
| `Footprints.ReadsOccur` | lib/Expr/ExprUtil.cpp:18-75 | the reads of an expression are exactly those that occur in it, lists of writes included |
| `ReadSearch.FindReads` | lib/Expr/ExprUtil.cpp:18-75 | the search with its stack and its tables of terms and lists met ends and finds, each once, exactly the reads that occur in the expression, or exactly those outside its lists of writes |
| `ReadSearch.Turn` | lib/Expr/ExprUtil.cpp:30-74 | one turn: whatever has left the stack has had its operands met, and a turn that meets nothing new shortens the stack |
| `Footprints.FootprintDecides` | lib/Expr/IndependentElementSet.cpp:3-34 | an expression depends on no cell outside its footprint |
| `Footprints.Footprint.Join` | lib/Expr/IndependentElementSet.cpp:118-153 | the union covers exactly what either side covers |
| `Footprints.OccursOverlap` | lib/Expr/IndependentElementSet.cpp:3-34 | a term that reads a cell shares a cell with every expression in which it occurs |
| `Footprints.IntersectsExact` | lib/Expr/IndependentElementSet.cpp:68-115 | `intersects` answers overlap exactly, except for pairs where the side with fewer whole arrays is not the side with fewer element arrays and only the whole arrays of the other side meet its elements |
| `Footprints.MissedPair` | lib/Expr/IndependentElementSet.cpp:68-115 | two constraints that share a cell and that `intersects` calls disjoint, in both directions |
| `FactorIndex.FoundExact` | lib/Expr/Constraints.cpp:488-525 | looking up a footprint in the inverted index finds exactly the factors that overlap it |
| `FactorIndex.AtExact` | lib/Expr/Constraints.cpp:488-525 | an index entry at a cell is the one factor that covers it |
| `FactorIndex.RedirectExact` | lib/Expr/Constraints.cpp:527-573 | redirecting a footprint to a factor, with whole-array promotion, keeps the index exact for the grown factor |
| `FactorIndex.RedirectLive` | lib/Expr/Constraints.cpp:527-573 | redirecting leaves no entry pointing at a factor that does not cover the cell |
| `FactorIndex.EraseExact` | lib/Expr/Constraints.cpp:465-486 | erasing a factor keeps the index exact for the others |
| `FactorIndex.ExactErasable` | lib/Expr/Constraints.cpp:465-486 | the assertions in `erase` hold for every factor of an exact index |
| `FactorIndex.ErasableInserted` | lib/Expr/Constraints.cpp:465-486 | after any sequence of insertions into any index, overlapping or not, they hold for one of the footprints exactly if no array it records by element is a whole of another or was one before |
| `FactorIndex.AllErasable` | lib/Expr/Constraints.cpp:465-486 | they hold for all of them exactly if no array is a whole of one and by element in another |
| `FactorIndex.EraseOrder` | lib/Expr/Constraints.cpp:310-313 | for two such factors, inserted in either order: the one with the elements cannot be erased first, but can after the other, so the outcome depends on the order in which an unordered set is visited |
| `Indexers.Factor.Add` | lib/Expr/IndependentElementSet.cpp:118-153 | a factor grows to the union of footprints, and the flag returned tells exactly whether its cells have changed |
| `Indexers.Indexer.Insert` | lib/Expr/Constraints.cpp:459-463 | a factor that overlaps no other is added and the index stays exact |
| `Indexers.Indexer.Grow` | lib/Expr/Constraints.cpp:293-295 | a factor grows by a footprint no other factor overlaps and the index stays exact |
| `Indexers.Indexer.Redirect` | lib/Expr/Constraints.cpp:527-573 | the two loops redirect every entry of the footprint; no array is in both tables |
| `Indexers.Indexer.Erase` | lib/Expr/Constraints.cpp:465-486 | succeeds exactly when the assertions hold; then the factor is gone and the index stays exact |
| `Indexers.Indexer.GetIntersection` | lib/Expr/Constraints.cpp:488-525 | exactly the factors that share a cell with the footprint, when the index is exact |
| `Indexers.Indexer.CrossCheck` | lib/Expr/Constraints.cpp:276-288 | the assertion that a scan with `intersects` finds the same factors holds, in an exact index, exactly if `intersects` is blind to none of them |
| `FactorIndex.ScanExact` | lib/Expr/Constraints.cpp:276-288 | the same for the index as a value: looking up and scanning agree exactly if no factor is one `intersects` misses |
| `FactorIndex.MissedScan` | lib/Expr/Constraints.cpp:55-65 | in every exact index that has one constraint of the missed pair, looking up the other finds it and the scan does not |
| `Independence.FactorsDecide` | lib/Expr/Constraints.cpp:273-317 | the constraints are satisfiable exactly when each factor is on its own |
| `Independence.SolveTogether` | lib/Expr/Constraints.cpp:273-317 | solutions of independent factors combine into one |
| `Independence.HoldOnCells` | lib/Expr/Constraints.cpp:273-317 | the constraints of a factor depend on its own cells only |
| `ReplaceVisitors.ReplaceVisitor.Visit` | lib/Expr/ExprVisitor.cpp:26-42 | for any valid memo the result has the value of the term under every assignment satisfying the replacements, is lighter unless equal, stays irreducible, reads no new symbolic index, and is remembered; no replaced term is left in it if none is in what the memo holds, and known bytes decide what they determine in any case |
| `ReplaceVisitors.ReplaceVisitor.VisitActual` | lib/Expr/ExprVisitor.cpp:44-153 | the same through lookup, operands, revisiting and post-visit lookup; it ends on every term |
| `ReplaceVisitors.ReplaceVisitor.VisitOperands` | lib/Expr/ExprVisitor.cpp:101-135 | a node rebuilt from visited operands has the same value and is lighter if any changed |
| `ReplaceVisitors.ReplaceVisitor.VisitUpdateNode` | lib/Expr/ExprReplaceVisitor.cpp:3-69 | the explicit stack with its two memo tables returns a list that reads the same at every cell of every array, for any valid memo, has no replaced term left if the memo has none, and ends on every list |
| `ReplaceVisitors.ReplaceVisitor.VisitWrite` | lib/Expr/ExprReplaceVisitor.cpp:33-63 | one rebuilt write reads as the original over the replaced rest |
| `ReplaceVisitors.UpdateMemo.Remember` | lib/Expr/ExprReplaceVisitor.cpp:48-63 | both tables grow by the list and stay valid |
| `ReplaceVisitors.UpdateMemo.MoreConstraints` | include/klee/Expr/ExprReplaceVisitor.h:10-30 | a memo valid under some constraints is valid under more of them |
| `ReplaceVisitors.ReplaceVisitor.MoreRules` | lib/Expr/Constraints.cpp:165-179 | a memo that decides what known bytes determine still does after a rule about something other than an input byte is added, so it need not be cleared |
| `Replacement.RebuildValue` | include/klee/Expr/Expr.h:1103-1107 | rebuilding a node from operands of equal value keeps its value |
| `Replacement.RebuildWeight` | include/klee/Expr/Expr.h:1103-1107 | rebuilding from operands one of which is lighter gives a lighter node |
| `Replacement.RebuildPointwise` | include/klee/Expr/Expr.h:1103-1107 | rebuilding adds no read at a symbolic index |
| `Replacement.RebuildIrreducible` | include/klee/Expr/Expr.h:1103-1107 | rebuilding leaves nothing to reduce |
| `Replacement.RebuildRead` | include/klee/Expr/Expr.h:737-741 | the same three for a read and its update list |
| `Replacement.RebuildWrite` | lib/Expr/ExprReplaceVisitor.cpp:46-48 | one rebuilt write stands for the original |
| `Weights.CreateWeight` | lib/Expr/Expr.cpp:1140-1198 | no binary constructor returns more weight than the plain node |
| `Weights.SelectWeight` | lib/Expr/Expr.cpp:735-764 | nor does the select constructor |
| `Weights.ConcatWeight` | lib/Expr/Expr.cpp:766-795 | nor concatenation |
| `Weights.ExtractWeight` | lib/Expr/Expr.cpp:825-863 | nor extraction, although it may split in two |
| `Weights.CastWeight` | lib/Expr/Expr.cpp:875-899 | nor the casts |
| `Weights.ReadWeight` | lib/Expr/Expr.cpp:681-729 | nor the read constructor |
| `PointReads.CreatePointwise` | lib/Expr/Expr.cpp:1140-1198 | no binary constructor introduces a read at a symbolic index |
| `PointReads.SelectPointwise` | lib/Expr/Expr.cpp:735-764 | nor does select |
| `PointReads.ExtractPointwise` | lib/Expr/Expr.cpp:825-863 | nor extraction |
| `PointReads.ReadPointwise` | lib/Expr/Expr.cpp:681-729 | nor the read constructor |
| `AddressSpaces.World.Run` | lib/Core/AddressSpace.h:62-69 | copy-on-write isolation: after any interleaving of copies, binds, unbinds and writes over any tree of spaces, every space holds what it would if each copy were made at once |
| `AddressSpaces.World.Step` | lib/Core/AddressSpace.cpp:22-54 | one command does the same to every space as with eager copies |
| `AddressSpaces.World.WriteAt` | lib/Core/AddressSpace.cpp:37-54 | a write through `getWriteable` changes that object in that space only |
| `AddressSpaces.World.ForkSpace` | lib/Core/AddressSpace.h:62-69 | a copy holds what its source holds, and nothing else changes |
| `AddressSpaces.World.MakeWriteable` | lib/Core/AddressSpace.cpp:37-54 | the object obtained is owned by the space and holds the same contents |
| `AddressSpaces.AddressSpace.Copy` | lib/Core/AddressSpace.h:67-69 | both spaces get the same new key, and the bindings are shared |
| `AddressSpaces.AddressSpace.BindObject` | lib/Core/AddressSpace.cpp:22-26 | the object is bound and owned |
| `AddressSpaces.AddressSpace.UnbindObject` | lib/Core/AddressSpace.cpp:28-30 | the binding is gone |
| `AddressSpaces.AddressSpace.GetWriteable` | lib/Core/AddressSpace.cpp:37-54 | the object itself when owned, else a fresh owned copy of equal contents |
| `AddressSpaces.ForkIsolated` | lib/Core/AddressSpace.h:62-69 | copying keeps the invariant that an object two spaces share is owned strictly below both keys, although parent and child share the new key |
| `AddressSpaces.BindIsolated` | lib/Core/AddressSpace.cpp:22-26 | binding a new object keeps it |
| `AddressSpaces.UnbindIsolated` | lib/Core/AddressSpace.cpp:28-30 | unbinding keeps it |
| `AddressSpaces.OwnedUnshared` | lib/Core/AddressSpace.h:59-63 | an object whose owner is the key of a space is bound in that space only |
| `AddressSpaces.WriteView` | lib/Core/AddressSpace.cpp:37-54 | writing an owned object changes one object of one space |
| `Resolution.Resolve` | lib/Core/AddressSpace.cpp:207-290 | complete exactly when it says so: the list holds, without repetition, precisely the objects some feasible pointer value falls in, in the order of the search outwards from the example, downwards first; it is incomplete only when a limit of two or more is reached, with that many feasible objects, the first in that order |
| `Resolution.ResolveOne` | lib/Core/AddressSpace.cpp:77-171 | a result is the first object in the order of the search the pointer may fall in, and there is none exactly when there is no such object |
| `Resolution.ResolveConstant` | lib/Core/AddressSpace.cpp:58-75 | the one object that contains a constant address, if any |
| `Resolution.CheckPointerInObject` | lib/Core/AddressSpace.cpp:173-205 | the object is listed exactly when feasible; the search is over exactly when it is the first listed and the pointer can be nowhere else, and cut short exactly when a later one reaches the limit |
| `Resolution.SearchBackwards` | lib/Core/AddressSpace.cpp:243-266 | searching down from the example lists every feasible object below it |
| `Resolution.SearchForwards` | lib/Core/AddressSpace.cpp:268-286 | searching up lists every feasible object above it |
| `Resolution.FindBackwards` | lib/Core/AddressSpace.cpp:112-139 | finds a feasible object below, or there is none |
| `Resolution.FindForwards` | lib/Core/AddressSpace.cpp:141-166 | finds a feasible object above, or there is none |
| `Resolution.InBoundsHolds` | lib/Core/Memory.h:125-141 | the bounds check holds exactly when the pointer value lies in the object, although the offset wraps below the base |
| `Resolution.AccessOffsetHolds` | lib/Core/Memory.h:142-150 | the check for several bytes holds exactly when offset and bytes end within the object; never when the object is smaller, nor when the bound for no bytes wraps around |
| `Resolution.AccessHolds` | lib/Core/Memory.h:131-133 | the same for a pointer: exactly when every byte of the access lies in the object |
| `Resolution.QueryMeans` | lib/Core/Memory.h:119-141 | the solver queries of the search say what the search takes them to say |
| `Resolution.NoneBelow` | lib/Core/AddressSpace.cpp:260-265 | a pointer never below an object is in none before it |
| `Resolution.NoneAbove` | lib/Core/AddressSpace.cpp:274-279 | a pointer always below an object is in none from it on |
| `Solvers.MustBeTrueMeans` | lib/Core/TimingSolver.cpp:47-65 | an exact solver proves a condition exactly when every assignment satisfying the constraints makes it true |
| `Solvers.MayBeTrueMeans` | lib/Core/TimingSolver.cpp:72-79 | and finds it feasible exactly when some such assignment does |
| `Solvers.ToUniqueValue` | lib/Core/Executor.cpp:1346-1365 | a term replaced by its only value keeps its value under the constraints |
| `Solvers.ToUniqueConstant` | lib/Core/Executor.cpp:1346-1365 | a term becomes a constant exactly when the constraints leave it one value |
| `Solvers.EvaluateMeans` | lib/Core/TimingSolver.cpp:25-45 | evaluation tells exactly whether a condition must be true, must be false, or can be either; of contradictory constraints it says true |
| `Solvers.ExactSolver` | lib/Core/TimingSolver.cpp:47-110 | a solver that answers feasibility exactly and picks feasible values exists, so no result that asks for one is empty |
| `Merging.State.Merge` | lib/Core/ExecutionState.cpp:198-361 | merging is refused exactly for states that are not at one place with one stack and the same objects, and aborts exactly if an object that differs is read-only; otherwise, unless an assertion fails inside the constraint store, an assignment satisfies the merged constraints exactly when it satisfies those of either state, and under it every non-null local and every memory byte is that of the first state if that admits the assignment and of the second otherwise; adding the constraints never returns false, and no assertion fails when both sets read at constant indices only |
| `Merging.MergeParts` | lib/Core/ExecutionState.cpp:302-358 | the same for the parts |
| `Merging.MergeFrames` | lib/Core/ExecutionState.cpp:317-332 | every local that is set in both states becomes a select on the first state's condition |
| `Merging.MergeObjects` | lib/Core/ExecutionState.cpp:334-352 | every object that differs becomes a byte-wise select, objects that are shared stay |
| `Merging.MergeObject` | lib/Core/ExecutionState.cpp:343-351 | the loop over the bytes of one object |
| `Merging.MergeConstraints` | lib/Core/ExecutionState.cpp:354-358 | the new store is equivalent to the common constraints and the disjunction, which are never refused when they are satisfiable |
| `Merging.Conditions` | lib/Core/ExecutionState.cpp:225-237 | the disjunction of the suffix conditions with the common constraints says that either state admits the assignment, and the first condition tells which |
| `Merging.MergedConstraints` | lib/Core/ExecutionState.cpp:225-237 | splitting both sets into common and own constraints loses nothing |
| `Merging.Conjoin` | lib/Core/ExecutionState.cpp:304-311 | the loop builds a formula that holds exactly when all constraints of the suffix do |
| `Merging.CompareStacks` | lib/Core/ExecutionState.cpp:211-223 | true exactly when the stacks have the same callers and functions |
| `Threads.Machine.Run` | lib/Core/SpecialFunctionHandler.cpp:1009-1107 | every moment of every run is steady: a thread is in a waiting list exactly when it waits on it, it is disabled exactly when it waits, no list is empty and the current thread is enabled; each step does what its command says |
| `Threads.Fair` | lib/Core/Executor.cpp:5091-5133 | a thread that stays enabled while none is created gets its turn before the scheduler has been called as often as there are threads |
| `Threads.StepNearer` | lib/Core/Executor.cpp:5104-5112 | each scheduler call comes nearer to every enabled thread it does not pick |
| `Threads.Machine.Step` | lib/Core/SpecialFunctionHandler.cpp:1009-1107 | a step goes on, hangs, ends the run or fails exactly as its command and the threads say, and keeps the invariant |
| `Threads.Machine.Schedule` | lib/Core/Executor.cpp:5091-5112 | it ends, picks the next enabled thread in cyclic order and skips none, and fails exactly when none is enabled |
| `Threads.Machine.Create` | lib/Core/ExecutionState.cpp:417-438 | adds an enabled thread; an id can be used once |
| `Threads.Machine.Preempt` | lib/Core/SpecialFunctionHandler.cpp:1042-1053 | another thread is scheduled, nothing else changes |
| `Threads.Machine.Sleep` | lib/Core/ExecutionState.cpp:449-456 | the current thread waits on the list and another is scheduled, or the machine hangs |
| `Threads.Machine.NotifyOne` | lib/Core/ExecutionState.cpp:458-472 | the first thread of the list is woken, and the list goes with its last thread |
| `Threads.Machine.NotifyAll` | lib/Core/ExecutionState.cpp:474-488 | exactly the threads of the list are woken, and the list goes |
| `Threads.Machine.Exit` | lib/Core/Executor.cpp:5154-5166 | the current thread leaves after another is scheduled; the last one ends the run |
| `Threads.LeaveSteady` | lib/Core/ExecutionState.cpp:458-472 | waking one thread keeps the invariant |
| `Threads.WakeSteady` | lib/Core/ExecutionState.cpp:474-488 | waking all keeps the invariant |
| `Exprs.Eval` | lib/Expr/Expr.cpp:520-640 | every well-formed expression has a value of its own width under every assignment; what the value is as a number is stated without its definition by the `Numbers` rows |
| `Numbers.EvalSums` | lib/Expr/Expr.cpp:520-640 | sums, differences and products are those of the integers modulo a power of two |
| `Numbers.EvalQuotients` | lib/Expr/Expr.cpp:520-640 | unsigned division gives the quotient and remainder of the integers; signed division truncates towards zero and the remainder has the sign of the dividend |
| `Numbers.EvalShifts` | lib/Expr/Expr.cpp:520-640 | shifting left multiplies by a power of two, shifting right divides by it, rounding down, with the sign for the arithmetic one |
| `Numbers.EvalOrders` | lib/Expr/Expr.cpp:520-640 | equality and the unsigned comparisons compare the numbers |
| `Numbers.EvalSignedOrders` | lib/Expr/Expr.cpp:520-640 | signed comparisons compare the numbers in two's complement |
| `Numbers.EvalSlices` | lib/Expr/Expr.cpp:520-640 | concatenation, extraction, extension and bitwise negation as operations on numbers |
| `Numbers.TimesIs` | lib/Expr/Expr.cpp:520-640 | the product of the model is the product of the integers |
| `Numbers.OverIs` | lib/Expr/Expr.cpp:520-640 | its quotient is the quotient of the integers |
| `Numbers.TruncatedIs` | lib/Expr/Expr.cpp:520-640 | signed quotient and remainder of the model truncate towards zero |
| `Numbers.TruncatedOnce` | lib/Expr/Expr.cpp:520-640 | a quotient and a remainder with the right sum, bound and sign are unique |
| `Numbers.Residue` | lib/Expr/Expr.cpp:520-640 | cutting an integer to a width gives its residue |
| `Numbers.SignedIs` | lib/Expr/Expr.cpp:520-640 | the signed value is the number in range with the same residue |
| `SmartConstructors.AndSound` | lib/Expr/Expr.cpp:1035-1049 | the constructor of And preserves evaluation |
| `SmartConstructors.OrSound` | lib/Expr/Expr.cpp:1051-1065 | that of Or does |
| `SmartConstructors.EqPartialRSound` | lib/Expr/Expr.cpp:1239-1316 | equality with a constant on the left does: Bool cases, casts with the check for lost bits, and constants moved across sums and differences |
| `SmartConstructors.EqSound` | lib/Expr/Expr.cpp:1185-1211 | the constructor of Eq holds exactly when the operands have equal values |
| `SmartConstructors.NeSound` | lib/Expr/Expr.cpp:1322-1325 | that of Ne exactly when they differ |
| `SmartConstructors.IsZeroSound` | lib/Expr/Expr.cpp:467-469 | the zero test holds exactly for 0 |
| `SmartConstructors.NegationSound` | lib/Expr/Expr.cpp:467-469 | on a condition it is negation |
| `ArithmeticConstructors.XorSound` | lib/Expr/Expr.cpp:1067-1082 | the constructor of Xor preserves evaluation, Bool included |
| `ArithmeticConstructors.AddCreate` | lib/Expr/Expr.cpp:934-957 | the mutually recursive normaliser ends, by the sum of the sizes and then the number of symbolic operands, because a result is no larger than the operands and one node |
| `ArithmeticConstructors.SubCreate` | lib/Expr/Expr.cpp:982-1007 | the same for differences |
| `ArithmeticConstructors.AddPartialRSound` | lib/Expr/Expr.cpp:911-929 | adding a constant preserves evaluation at every width |
| `ArithmeticConstructors.SubPartialRSound` | lib/Expr/Expr.cpp:959-975 | so does subtracting from a constant |
| `ArithmeticConstructors.AddSound` | lib/Expr/Expr.cpp:934-957 | the normaliser of sums preserves evaluation for every width, shape and assignment |
| `ArithmeticConstructors.SubSound` | lib/Expr/Expr.cpp:982-1007 | that of differences does |
| `ArithmeticConstructors.FoldedAdd` | lib/Expr/Expr.cpp:934-957 | sums whose operands have their constants folded in front keep them so |
| `ArithmeticConstructors.FoldedSub` | lib/Expr/Expr.cpp:982-1007 | and differences |
| `Constructors.MulSound` | lib/Expr/Expr.cpp:1009-1033 | the constructor of Mul preserves evaluation, Bool included |
| `Constructors.DivisionSound` | lib/Expr/Expr.cpp:1084-1114 | so do those of the divisions and remainders |
| `Constructors.ShiftSound` | lib/Expr/Expr.cpp:1116-1138 | and of the shifts |
| `Constructors.OrderSound` | lib/Expr/Expr.cpp:1341-1372 | and of the orderings, Bool included |
| `Constructors.CompareSound` | lib/Expr/Expr.cpp:1374-1378 | every comparison holds exactly when the values compare so |
| `Constructors.CreateSound` | lib/Expr/Expr.cpp:1140-1198 | every binary constructor has the value of the plain operation |
| `Constructors.SelectSound` | lib/Expr/Expr.cpp:735-764 | the constructor of Select picks the right branch |
| `Constructors.NotSound` | lib/Expr/Expr.cpp:865-873 | that of Not negates |
| `SliceConstructors.ConcatCreate` | lib/Expr/Expr.cpp:766-795 | concatenation and extraction call each other and end, because concatenating adjacent extracts of one expression makes no larger expression |
| `SliceConstructors.ConcatSound` | lib/Expr/Expr.cpp:766-795 | concatenation preserves evaluation, merging contiguous extracts |
| `SliceConstructors.ExtractSound` | lib/Expr/Expr.cpp:825-863 | extraction does, through concatenations and casts |
| `SliceConstructors.ZExtSound` | lib/Expr/Expr.cpp:875-886 | zero extension does, truncating when narrower |
| `SliceConstructors.SExtSound` | lib/Expr/Expr.cpp:888-899 | sign extension does |
| `SliceConstructors.ConstantExtractSlice` | lib/Expr/Expr.cpp:530-532 | extracting from a constant by an arithmetic shift takes the slice |
| `ExprBuilders.FoldAdd` | lib/Expr/ExprBuilder.cpp:699-786 | the reassociating builder ends on every pair of operands, and its result is no larger than the operands and one node |
| `ExprBuilders.FoldSub` | lib/Expr/ExprBuilder.cpp:788-870 | the same for differences |
| `ExprBuilders.FoldAddSound` | lib/Expr/ExprBuilder.cpp:699-786 | every reassociation rule for sums preserves evaluation, at every width |
| `ExprBuilders.FoldSubSound` | lib/Expr/ExprBuilder.cpp:788-870 | and for differences |
| `ExprBuilders.FoldBinarySound` | lib/Expr/ExprBuilder.cpp:693-979 | every operation of the constant-folding builder has the value of the plain operation |
| `ExprBuilders.SimplifyNotSound` | lib/Expr/ExprBuilder.cpp:1019-1025 | pushing negation through disjunctions preserves evaluation |
| `ExprBuilders.SimplifyEqSound` | lib/Expr/ExprBuilder.cpp:989-1017 | so do the equality rules |
| `ExprBuilders.SimplifyBinarySound` | lib/Expr/ExprBuilder.cpp:984-1051 | every operation of the simplifying builder over the folding one has the value of the plain operation |
| `ExprBuilders.StepBackSound` | lib/Expr/ExprBuilder.cpp:326-333 | stepping back over writes the builder proves different leaves the value read unchanged |
| `ExprBuilders.StepBackStops` | lib/Expr/ExprBuilder.cpp:326-333 | the write stepped back to may be to the cell, as far as the builder can tell |
| `ExprBuilders.BuildRead` | lib/Expr/ExprBuilder.cpp:326-338 | a read built by either builder has the value of the cell in the whole list and starts from the write stepped back to |
| `BuilderForms.AddCompact` | lib/Expr/ExprBuilder.cpp:699-786 | from operands in which nothing is left to fold, sums come out nested to the right with at most one constant, in front and not 0 |
| `BuilderForms.SubCompact` | lib/Expr/ExprBuilder.cpp:788-870 | differences likewise |
| `BuilderForms.FoldCompact` | lib/Expr/ExprBuilder.cpp:693-979 | nothing is left to fold in what the constant-folding builder makes, at any depth |
| `BuilderForms.SimplifyNotCompact` | lib/Expr/ExprBuilder.cpp:1019-1025 | double negations cancel and no disjunction is negated as a whole |
| `BuilderForms.SimplifyCompact` | lib/Expr/ExprBuilder.cpp:984-1051 | nor is anything in what the simplifying builder makes, which also has no comparison that is swapped or negated and no equation of a term with itself |
| `Distances.ComputeDistances` | lib/Core/StatsTracker.cpp:823-911 | the repeat-until-unchanged loop ends on every cyclic control-flow and call graph, and each instruction then has the least cost of reaching a return, 0 exactly when none is reachable; likewise each function |
| `Distances.Pass` | lib/Core/StatsTracker.cpp:860-910 | a pass either takes a well-founded step down or finds nothing to change anywhere |
| `Distances.Relax` | lib/Core/StatsTracker.cpp:863-909 | one instruction: a step down, or nothing to change here; every value stays the cost of an actual way to return |
| `Distances.BestThrough` | lib/Core/StatsTracker.cpp:864-879 | the cheapest known way through an instruction, 0 exactly when a call has no callee known to return |
| `Distances.BestOver` | lib/Core/StatsTracker.cpp:883-894 | the least of the current distance and the ways through successors |
| `Distances.UpdateProgress` | lib/Core/StatsTracker.cpp:900-908 | an update lowers the number of unknown distances, then their sum, then the functions out of step with their entry |
| `Distances.UpdateAttained` | lib/Core/StatsTracker.cpp:900-908 | an update keeps every value the cost of an actual way to return |
| `Distances.ReachesBound` | lib/Core/StatsTracker.cpp:823-911 | when nothing changes, no way to return costs less than the distance |
| `Distances.FixpointLeast` | lib/Core/StatsTracker.cpp:823-911 | so attained values that nothing changes are the least costs |
| `Seeds.SeedInfo.PatchSeed` | lib/Core/SeedInfo.cpp:60-163 | when the state and the condition can hold together the closing assertion holds; every assignment with the bytes left in the seed satisfies the condition when these determine it; the cells read directly are patched first, each byte only if it must be, and the rest only if that was not enough; a seed that already meets both is left as it is |
| `Seeds.SeedInfo.Repair` | lib/Core/SeedInfo.cpp:85-163 | the two loops and the tests after each |
| `Seeds.SeedInfo.PatchByte` | lib/Core/SeedInfo.cpp:95-113 | a byte changes exactly when its old value is inconsistent with the working set, which stays satisfiable and then pins the byte |
| `Seeds.SeedInfo.ChooseByte` | lib/Core/SeedInfo.cpp:95-111 | the old byte exactly if it is consistent with the working set, else another |
| `Seeds.SeedInfo.PatchDirect` | lib/Core/SeedInfo.cpp:85-115 | every bound cell the condition reads directly is pinned to its byte, and no other byte changes |
| `Seeds.SeedInfo.PatchAll` | lib/Core/SeedInfo.cpp:126-152 | every bound byte; afterwards some assignment with exactly these bytes satisfies state and condition |
| `Seeds.NewByteMeans` | lib/Core/SeedInfo.cpp:99-110 | the byte chosen is consistent with the working set, and the old one whenever that is |
| `Seeds.AllPinned` | lib/Core/SeedInfo.cpp:126-152 | with every byte pinned the seed itself satisfies the working set |
| `Seeds.ClosingHolds` | lib/Core/SeedInfo.cpp:154-162 | evaluating the condition under such a seed leaves it feasible |
| `Seeds.SeedSatisfies` | lib/Core/SeedInfo.cpp:154-162 | a condition the seed determines holds under every assignment with its bytes once it evaluates to true |
| `Seeds.DirectlyRead` | lib/Core/SeedInfo.cpp:60-84 | the cells read directly are exactly the input bytes read at constant indices outside lists of writes |
| `Evaluators.EvaluatedSound` | lib/Expr/ExprEvaluator.cpp:14-110 | partial evaluation under bindings has the value of the expression under every assignment with those bytes, divisors that become 0 and unknown update indices included |
| `Evaluators.EvaluatedReadSound` | lib/Expr/ExprEvaluator.cpp:14-39 | the read rule returns the newest write known to be to the cell unless one that may be comes first |
| `Evaluators.EvaluatedConstant` | lib/Expr/ExprEvaluator.cpp:14-110 | every expression whose bytes are known, or with no byte left free, evaluates to a constant, unless some part of it is a mark against optimisation directly over a constant, or a division by a term that evaluates to 0 |
| `Evaluators.NodeEvaluated` | lib/Expr/ExprEvaluator.cpp:41-110 | a node whose kids evaluate to constants becomes one exactly if it is neither of these |
| `Evaluators.Unwrapped` | lib/Expr/ExprEvaluator.cpp:103-110 | a mark against optimisation is dropped exactly if it does not stand directly over a constant |
| `Evaluators.Satisfies` | include/klee/Expr/Assignment.h:89-97 | true exactly if every constraint evaluates to true with no byte left free |
| `Evaluators.SatisfiesMeans` | include/klee/Expr/Assignment.h:89-97 | then an assignment with the bound bytes and 0 elsewhere satisfies the constraints; where every constraint can be decided, only then |
| `Evaluators.AssignmentAgrees` | include/klee/Expr/Assignment.h:69-83 | bindings of symbolic arrays stand for such an assignment |
| `Evaluators.InitialSound` | include/klee/Expr/Assignment.h:69-83 | a bound byte is its value whether or not bytes are left free, an unbound one itself or 0, wherever a read gets past the contents of a constant array |
| `Evaluators.KnownByte` | include/klee/Expr/Assignment.h:69-83 | a bound byte evaluates to the constant it is bound to, bytes left free or not |
| `ProcessTree.Tree.constructor` | lib/Core/PTree.cpp:20-22 | one leaf for the initial state |
| `ProcessTree.Tree.Attach` | lib/Core/PTree.cpp:24-30 | a leaf becomes an inner node with a leaf for each state; leaves and live states stay in bijection |
| `ProcessTree.Tree.Remove` | lib/Core/PTree.cpp:32-46 | a leaf goes with every ancestor left childless; while a state is live the tree stays valid |
| `ProcessTree.Tree.RemoveOne` | lib/Core/PTree.cpp:34-45 | one turn of the loop unlinks a childless node and moves up |
| `ProcessTree.Tree.Bijection` | lib/Core/PTree.cpp:20-46 | leaves and live states point at each other; an inner node has no state and at least one child |
| `ProcessTree.Tree.SelectState` | lib/Core/Searcher.cpp:269-288 | the random descent ends, at a live state, whatever the random words |
| `ProcessTree.Tree.Selectable` | lib/Core/Searcher.cpp:269-288 | for every live state some random words lead the descent to it |

## Left out

- LLVM instruction decoding, floating point, external calls, globals and system calls.
- Solver internals and timeouts: the solver is a parameter and always answers.
- Trace entries for scheduling and recorded data (`SCHEDULE`, `DATAREC`): the replay model covers branches, switches and indirect branches.
- Replay.Replayer.Run: internal forks, seeding and fork limits write no trace entries and are not modelled; a run is a program that maps the decisions so far to the next event.
- Replay.Replayer.Run: does not promise completion when a condition reads at a symbolic index and regrouping meets a pair that `intersects` misses, because the source's own assertion can then fail (`Regrouping.MissedErase`).
- Replay.Replayer.IndirectBr: the error case for illegal labels is built but no state is forked on it, because the source does so only when it is not replaying.
- Replay.RecordEntry: models entries of runs on concrete input; a symbolic recording run that writes block numbers is covered on the replaying side only.
- ConstraintManagers.ConstraintManager.AddConstraint: does not promise that factors stay independent after regrouping met a pair that `intersects` misses; see above.
- ConstraintManagers.ConstraintManager.RewriteConstraints: the branch for a disabled independent solver is not modelled; it advances its iterator twice per element.
- Seeds.SeedInfo.PatchSeed: bindings have one byte per cell of their array, and direct reads at constant indices are in bounds, as the engine builds them.
- Seeds.SeedInfo.PatchDirect: visits the cells in any order; the source's order by pointer is one of them.
- Merging.State.Merge: an object that differs is always copied before it is merged; that it may be owned already is modelled in `AddressSpaces`.
- Merging.State.Merge: says nothing about the merged state when an assertion fails inside the constraint store, which stops the engine; adding never fails in any other way.
- ObjectStates.ObjectState.Read: at a symbolic offset the lanes must stay symbolic, which the source asserts; `ObjectStates.FoldedLanes` shows that folded offsets meet this.
- ObjectStates: provenance flags, `flushToConcreteStore` and reference counts.
- AddressSpaces.AddressSpace.GetWriteable: the `force` parameter, and the abort on a read-only object, which is a precondition.
- AddressSpaces: wrap-around of the 32-bit copy-on-write key.
- Resolution.Resolve: a limit of one never stops the search, because the fast path for one result comes before the test; no bound is stated for it.
- Resolution.ResolveConstant: zero-sized objects are never found, as the code has it; the comment there says otherwise.
- Indexers: the element tables are maps from indices instead of vectors of the size of the array.
- ReplaceVisitors: identity of update nodes; lists are compared by content. Comparison caches and hashes have no effect on meaning.
- Evaluators.Evaluated: the visitor's memo table; the visit is a function of its argument.
- Distances.ComputeDistances: `bestThrough` and `functionShortestPath` are 32 bits wide in the source, which truncates costs from 2^32 on; successor lists are given, not computed from basic blocks; the second phase (distance to uncovered code) is not modelled.
- ExprBuilders: selects, concatenations, extracts and casts, which the builders only dispatch.
- ArithmeticConstructors, Constructors: `TryConstArrayOpt`, off by default.
- Exprs.ApplyDivision: division by zero is undefined in the source; the model gives it the value the one-bit constructors pick, and 0 elsewhere.
- Threads: symbolic arguments of the thread handlers, which end the state.
- `AssignmentGenerator`, `ArrayExprVisitor`, `ArrayExprRewriter`, `ImpliedValue`, `ExprConcretizer`, statistics, printers and files: off by default, disabled, or easier members.
