# radeco ESIL front end, modelled in Dafny

This project models the front end of radeco, a decompiler built on radare2.
The front end turns radare2's ESIL strings into radeco's micro-operation IR
(`MInst`) and builds the SSA graph while doing so. It has three parts:

- **The ESIL decoder.** This is `Parser` in `src/frontend/parser.rs`.
  - It splits an ESIL string on commas.
  - It classifies each token as one of:
    - an operator of the opset;
    - a register, a hexadecimal literal or an internal variable (any token with a letter in it);
    - a decimal literal;
    - a compound `op=` token;
    - a memory token `[op][=][n]`.
  - It keeps an operand stack. It emits `MInst`s, casting operands to equal widths.
  - It feeds every instruction into the SSA construction.
  - `run` discovers basic blocks with a worklist over an address-ordered block map. It adds the deferred control edges afterwards and then seals every block.
  - `emit_insts` is a peephole pass:
    - an `OpIf … OpJmp … OpCl` group becomes one `OpCJmp`;
    - an `OpJmp` is moved behind the micro-operations of its own address.
- **The SSA construction.** This is `SSAConstruction` in `src/transform/ssa.rs`. It follows Braun et al., "Simple and Efficient Construction of Static Single Assignment Form":
  - definitions are recorded per block;
  - reads search backwards through the predecessors, placing phis where control flow joins;
  - phis in unsealed blocks are completed when their block is sealed;
  - trivial phis are removed as soon as they are found, and the removal cascades to the phis that used them.
- **The legacy tokenizer.** This is `Parser` in `src/frontend/esil/mod.rs`. It is an older, self-contained ESIL decoder that works on its own `Value`/`Instruction` types.

Modules, one per file:

| file | module | what it holds |
|---|---|---|
| `syntax.dfy` | `TokenSyntax` | Rust's `split(',')`, the integer literal parsers, `{:x}` formatting, and the token regular expressions as string predicates |
| `ir.dfy` | `Ir` | `MOpcode`, `MVal`, `MInst`, `ParseError`, and the opset table |
| `graph.dfy` | `SsaGraph` | the SSA storage as a value: an arena of nodes and edges with the queries and updates the construction uses |
| `ssa.dfy` | `Ssa` | `SSAConstruction` as a class, and the invariants it keeps |
| `emit.dfy` | `Emit` | `emit_insts` and `emit_inst` |
| `blocks.dfy` | `Blocks` | the instruction sort, the binary search, the ordered block map, and the block bound used by `run` |
| `parser.dfy` | `Frontend` | the decoder `Parser` as a class, including `run` |
| `esil_legacy.dfy` | `EsilLegacy` | the legacy tokenizer: pure step functions, plus a class whose methods are proved against them |

Errors follow the source's `ParseError`, extended by two kinds:

- `Aborted` stands for every place where the source panics. These are an `unwrap` on a failed regex match, `panic!`, the `usize` underflow, and indexing a map or the graph with a missing key.
- `OutOfFuel` is returned when `run`'s worklist exceeds the turn bound it is given.

Inside `SSAConstruction`, a sticky `fault` flag plays the same role as `Aborted`.

## Model

| member | source | states |
|---|---|---|
| TokenSyntax.Split | src/frontend/parser.rs:313-314 | `split(',')` yields at least one piece, and no piece contains a comma |
| TokenSyntax.JoinSplit | src/frontend/parser.rs:313-314 | joining the pieces of a split with commas gives back the original string |
| TokenSyntax.SplitJoin | src/frontend/esil/mod.rs:386 | splitting the comma-join of comma-free pieces gives back those pieces |
| TokenSyntax.FromStrRadix | src/frontend/parser.rs:359 | a successful `i64` parse is non-empty and lies within the 64-bit signed range |
| TokenSyntax.TrimHexPrefix | src/frontend/parser.rs:34-38 | the result is a suffix of the input with every leading "0x" removed |
| TokenSyntax.AsU64 | src/frontend/parser.rs:342-343 | `v as u64` is below 2^64 and congruent to `v` modulo 2^64 |
| TokenSyntax.AlphaTokenIsNotDecimal | src/frontend/parser.rs:326-363 | a token containing a letter never parses as a decimal literal, so the decimal branch only sees letter-free tokens |
| TokenSyntax.FormatRoundTrip | src/frontend/parser.rs:497-503 | reading a `{:x}`-formatted (or decimal) number back gives that number |
| TokenSyntax.HexStringInjective | src/frontend/parser.rs:497-503 | distinct temporary indices give distinct `tmp_` names |
| TokenSyntax.MatchCompound | src/frontend/parser.rs:373-374 | `^(.|..)=$` matches exactly the 2- and 3-character tokens that end in '=', and it captures the operator before the '=' |
| TokenSyntax.AccessBits | src/frontend/parser.rs:393-397 | the access width is the byte digit times 8, or the default size when no digit is given |
| TokenSyntax.MatchTail | src/frontend/parser.rs:390 | the tail `\[([1248]?)\]$` matches exactly `[w]` for a width `w` of 1, 2, 4, 8 or none |
| TokenSyntax.TryMem | src/frontend/parser.rs:390-391 | one way of matching `(.|..)?(=)?` before the tail: the captures are the token's prefix, the '=' mark and the width |
| TokenSyntax.PlainPokeUnreachableAsWritten | src/frontend/parser.rs:390-411 | as written, no token is decoded as a plain poke: an empty operator together with an '=' mark never occurs |
| TokenSyntax.PokeReadAsPeekAsWritten | src/frontend/parser.rs:390-411 | as written, "=[4]" is captured as a peek with operator "=" |
| TokenSyntax.MatchMemSound | src/frontend/parser.rs:390-391 | the intended memory pattern spells the access it reports: prefix, optional '=', and `[w]` |
| TokenSyntax.MatchMemAssign | src/frontend/parser.rs:405-427 | the intended pattern reads `op=[w]` and `=[w]` as assignments through that operator, or through none |
| TokenSyntax.MatchMemPeek | src/frontend/parser.rs:399-403 | the intended pattern reads `op[w]` and `[w]` as peeks |
| TokenSyntax.MatchMemAgreesOnCompoundPoke | src/frontend/parser.rs:390-427 | wherever the regex as written finds an '=' mark, the intended pattern reads the same access |
| Ir.Arity | src/frontend/parser.rs:609-610 | which opcodes are unary and which take no operand; every other opcode is binary |
| Ir.NullVal | src/frontend/parser.rs:580 | `MVal::null()` is a Null value of width 0 with no register info and no node |
| Ir.TmpVal | src/frontend/parser.rs:497-503 | `MVal::tmp` is a Temporary of the given width with no node |
| Ir.TmpNamesDistinct | src/frontend/parser.rs:497-503 | temporaries with different indices have different names |
| Ir.MapEsilToOpset | src/frontend/parser.rs:750-777 | the opset is defined exactly on its 21 tokens, including the swapped "<=" and ">=" entries |
| Ir.OpsetRoundTrip | src/frontend/parser.rs:750-777 | the opset is a bijection between its tokens and their opcodes |
| Ir.OpsetTokensShape | src/frontend/parser.rs:316-330 | every opset token has one or two characters and no letter, so no register name is shadowed by an operator |
| SsaGraph.PredsInMembers | src/transform/ssa.rs:142-160 | a block's predecessors are exactly the sources of its control edges |
| SsaGraph.ArgsInMembers | src/transform/ssa.rs:158-179 | a phi's operands are exactly the targets of its operand edges |
| SsaGraph.UsesInMembers | src/transform/ssa.rs:188-199 | a node's users are exactly the sources of the use edges into it |
| SsaGraph.Subst | src/transform/ssa.rs:185-186 | every occurrence of the old node is replaced by the new one, and nothing else changes |
| SsaGraph.ArgsRedirect | src/transform/ssa.rs:185-186 | rerouting uses replaces the old node in every phi's operand list, in place |
| SsaGraph.PredsRedirect | src/transform/ssa.rs:185-186 | rerouting uses leaves every block's predecessors alone |
| SsaGraph.RedirectNoUses | src/transform/ssa.rs:185-186 | after rerouting to another node, nothing reads the old node |
| SsaGraph.PhiCountRemove | src/transform/ssa.rs:185-186 | removing a node lowers the live phi count by one exactly when it was a phi |
| SsaGraph.AddEdge | src/frontend/parser.rs:256-264 | appending an edge changes each query only by that edge, and keeps the graph well formed |
| SsaGraph.OpUse | src/frontend/parser.rs:743-745 | an operand edge is added when both ends exist, and otherwise the graph is unchanged |
| SsaGraph.PhiUseEdge | src/transform/ssa.rs:158-166 | an operand edge is added when both ends exist, and otherwise the graph is unchanged |
| SsaGraph.ReadConst | src/frontend/parser.rs:271-277 | a constant is read exactly from an `OpConst` operation node, and it is that node's value |
| SsaGraph.Replace | src/transform/ssa.rs:185-186 | `replace`: the old node becomes a tombstone whose replacement is the new node; it has no users left; predecessors are kept; phi operands are substituted; well-formedness and liveness of uses are kept |
| Ssa.ScanMeaning | src/transform/ssa.rs:168-184 | the operand scan says "no operand" iff every operand is the phi itself, "same value v" iff all operands are the phi or v, and "non-trivial" iff two distinct non-self operands exist |
| Ssa.SSAConstruction.Binding | src/transform/ssa.rs:48-54 | a definition is found exactly where `write_variable` recorded one, in `current_def` for tracked registers and in `global_variables` otherwise |
| Ssa.SSAConstruction.constructor | src/transform/ssa.rs:30-46 | every register of the profile is tracked with no definitions; nothing is sealed or pending |
| Ssa.SSAConstruction.AddBlock | src/transform/ssa.rs:97-98 | a new block node is created with an empty table of pending phis |
| Ssa.SSAConstruction.WriteVariable | src/transform/ssa.rs:48-54 | only the (variable, block) definition changes, in `current_def` for tracked registers and in `global_variables` otherwise |
| Ssa.SSAConstruction.ReplacedBy | src/transform/ssa.rs:56-64 | the result is the target of the newest `ReplacedBy` edge, or the invalid node |
| Ssa.ChainEnd | src/transform/ssa.rs:77-80 | following `ReplacedBy` edges from a node ends at a live node, and a live node is its own end |
| Ssa.SSAConstruction.Resolve | src/transform/ssa.rs:77-81 | the loop returns exactly `ChainEnd` of its start: the live node at the end of its replacement chain |
| Ssa.SSAConstruction.ReadVariable | src/transform/ssa.rs:66-83 | an existing binding is returned as the end of its replacement chain, with no state change; otherwise the result is live; the graph only grows and new phis never sit in a sealed one-predecessor block |
| Ssa.SSAConstruction.ReadVariableRecursive | src/transform/ssa.rs:133-156 | on return the value is bound in the block; in an unsealed block exactly one phi is created and recorded as pending in an entry that was empty; no phi is placed in a sealed block with one predecessor |
| Ssa.SSAConstruction.RecordPendingPhi | src/transform/ssa.rs:136-140 | one new phi is recorded in `incomplete_phis[block][variable]`, a slot that was empty |
| Ssa.SSAConstruction.CompletedPhi | src/transform/ssa.rs:146-152 | unless the construction faulted, the new phi is the result or has been removed in favour of it; the result is a node unless the construction faulted |
| Ssa.SSAConstruction.AddPhiOperands | src/transform/ssa.rs:158-166 | the phi gains exactly one operand per predecessor of its block, and no other phi gains one; over the completed operand list the result is the phi when the scan is non-trivial, the one value when it is trivial, and the phi is then removed in favour of the result |
| Ssa.SSAConstruction.AddOperand | src/transform/ssa.rs:160-163 | the phi gains exactly one operand |
| Ssa.SSAConstruction.ScanOperands | src/transform/ssa.rs:168-179 | the loop computes the scan, and a "same" value is a non-self operand |
| Ssa.SSAConstruction.TryRemoveTrivialPhi | src/transform/ssa.rs:168-201 | non-trivial: phi returned and graph unchanged; one value: the phi is replaced by it; none: the phi is replaced by a fresh `Undefined`; no live phi is ever added; afterwards the phi is settled (removed, or with a non-trivial scan), and every node settled before still is |
| Ssa.SSAConstruction.RemoveTrivialPhi | src/transform/ssa.rs:181-200 | the phi becomes a tombstone pointing at the returned value, and every node settled before, the former users included, is settled afterwards |
| Ssa.SSAConstruction.ReplacePhi | src/transform/ssa.rs:181-186 | the users are those of the phi before the replacement; the phi becomes a tombstone pointing at its value or a fresh `Undefined`; only those users can stop being settled |
| Ssa.SettledReplace | src/transform/ssa.rs:185-186 | replacing a node leaves every node that did not read it settled if it was |
| Ssa.SSAConstruction.AddUndefined | src/transform/ssa.rs:181-183 | exactly one `Undefined` node is appended |
| Ssa.SSAConstruction.ReplaceTrivial | src/transform/ssa.rs:185-186 | the graph becomes `Replace(old, phi, same)`, and the live phi count drops by one |
| Ssa.SSAConstruction.SimplifyUsers | src/transform/ssa.rs:188-199 | every former user other than the phi ends up settled (no longer a phi, or a phi whose operands are not trivial), every node settled before still is, and no live phi is added |
| Ssa.SSAConstruction.SealBlock | src/transform/ssa.rs:85-92 | a block with no pending-phi table is the lookup panic (`fault`); otherwise every phi pending in the block gains at least one operand per predecessor, the block is added to the sealed set, the graph only grows and predecessors are unchanged |
| Ssa.SSAConstruction.CompletePending | src/transform/ssa.rs:88-90 | every phi pending in the block gains at least one operand per predecessor of the block, unless the construction faulted |
| Ssa.OperandsAddedStep | src/transform/ssa.rs:88-90 | completing one pending phi keeps every other pending phi's operands and adds the predecessors' count to that phi |
| Ssa.SSAConstruction.AddComment | src/frontend/parser.rs:720-721 | exactly one comment node is appended |
| Ssa.SSAConstruction.AddOp | src/frontend/parser.rs:743 | exactly one operation node of width 64 is appended |
| Ssa.SSAConstruction.OpUseEdge | src/frontend/parser.rs:744-745 | the graph becomes `OpUse(old, user, pos, n)` |
| Ssa.SSAConstruction.AddControlEdge | src/frontend/parser.rs:259-263 | the destination block gains the source as a predecessor, and nodes are unchanged |
| Emit.NextOtherAddr | src/frontend/parser.rs:460-467 | the first later instruction with a different address, all before it sharing the address |
| Emit.NextClose | src/frontend/parser.rs:472-475 | the first `OpCl` after the condition, with none before it |
| Emit.NonJumps | src/frontend/parser.rs:476-479 | the kept body contains no `OpJmp` |
| Emit.NonJumpsFilter | src/frontend/parser.rs:476-479 | the kept body is exactly the group's instructions that are not `OpJmp`, in their order: they sit at increasing positions, and every non-jump position is among them |
| Emit.LastJump | src/frontend/parser.rs:481-485 | the jump that ends up in the `OpCJmp` is an `OpJmp` of the group with no `OpJmp` after it; there is none exactly when the group has no jump |
| Emit.EmitInst | src/frontend/parser.rs:456-495 | the method appends what the step function describes, and the failed `unwrap` becomes `Aborted` |
| Emit.EmitJump | src/frontend/parser.rs:459-468 | the jump loop appends the same-address followers and then the jump and the next instruction |
| Emit.EmitCond | src/frontend/parser.rs:470-489 | the conditional loop appends the non-jump body and one `OpCJmp` |
| Emit.EmitInsts | src/frontend/parser.rs:443-454 | the loop over the shared iterator produces exactly `Emitted(s)` |
| Emit.NoControlUnchanged | src/frontend/parser.rs:490-493 | without jumps and conditionals the pass returns its input unchanged |
| Emit.EmittedNoLonger | src/frontend/parser.rs:443-495 | the pass never lengthens the instruction list |
| Emit.JumpReordered | src/frontend/parser.rs:459-468 | a jump is moved behind its same-address micro-operations, directly before the next address's first instruction, with nothing lost or duplicated |
| Emit.JumpDropped | src/frontend/parser.rs:459-468 | a jump with no later instruction of another address is dropped |
| Emit.CondCollapsed | src/frontend/parser.rs:470-489 | a conditional group succeeds iff it has a jump. Its output is the group's non-jump instructions in order (`NonJumps` of the instructions up to the closing `OpCl`) and then one `OpCJmp` with a Null destination, the If's condition, the If's address and the target of the group's last `OpJmp` |
| Blocks.InsertOp | src/frontend/parser.rs:155 | inserting adds exactly the one element |
| Blocks.SortOpsCorrect | src/frontend/parser.rs:155 | `sort_by` on offsets yields a list sorted by offset that is a permutation of its input |
| Blocks.SortOpsSorted | src/frontend/parser.rs:155 | the sorted list is ordered by offset, by induction over the insertions |
| Blocks.SortOpsPermutes | src/frontend/parser.rs:155 | the sorted list has the same instructions, with multiplicity, as its input |
| Blocks.LowerBound | src/frontend/parser.rs:185-188 | the index splits the sorted list into offsets below `top` and offsets at least `top` |
| Blocks.LowerBoundFound | src/frontend/parser.rs:185-188 | the index holds `top` exactly when some instruction starts at `top` (the `Ok` case of the search) |
| Blocks.Get | src/frontend/parser.rs:258-259 | a lookup succeeds exactly on the map's keys |
| Blocks.Put | src/frontend/parser.rs:254 | `insert` adds exactly its key |
| Blocks.PutOrdered | src/frontend/parser.rs:254 | `insert` keeps the map in key order |
| Blocks.GetPut | src/frontend/parser.rs:168 | after `insert`, the key holds the new entry and every other key keeps its own |
| Blocks.Floor | src/frontend/parser.rs:161 | `range(..=top).next_back()`: an entry at or below `top` with every later entry above `top` |
| Blocks.FloorGreatest | src/frontend/parser.rs:161 | on an ordered map that entry has the greatest key not above `top` |
| Blocks.Above | src/frontend/parser.rs:174 | `range((top, ..)).next()`: a key above `top` |
| Blocks.AboveLeast | src/frontend/parser.rs:174 | on an ordered map that key is the least one above `top` |
| Blocks.NextBound | src/frontend/parser.rs:174-180 | the initial bound is the start of the nearest block after `top`, or unbounded when there is none |
| Frontend.RegisterVal | src/frontend/parser.rs:333-341 | a register token becomes a Register of the profile's width |
| Frontend.ConstIn | src/frontend/parser.rs:271-277 | a constant is read only from a Temporary whose node is an `OpConst` of that value |
| Frontend.JumpEffects | src/frontend/parser.rs:221-244 | an `OpJmp` bounds the block at the current address. Every constant jump target is enqueued with an edge of tag 9 (unconditional) or 1 (conditional), and each edge leaves the current block |
| Frontend.BlockNodeAt | src/frontend/parser.rs:258-260 | a deferred edge endpoint resolves to a graph node only through the block map |
| Frontend.WithEdges | src/frontend/parser.rs:256-264 | adding the deferred edges never changes the nodes |
| Frontend.WithEdgesDefined | src/frontend/parser.rs:256-264 | the edges can all be added exactly when every endpoint is in the map with a live node |
| Frontend.BinaryOperands | src/frontend/parser.rs:606-617 | two operands can be popped exactly when the stack holds two |
| Frontend.IncDecAsWrittenMisses | src/frontend/parser.rs:593-596 | as written, `++` on a one-element stack underflows, and on two elements it combines the wrong operands |
| Frontend.IncDecStack | src/frontend/parser.rs:586-599 | the corrected insertion succeeds exactly on a non-empty stack and adds one element |
| Frontend.IncDecOperands | src/frontend/parser.rs:586-599 | after the corrected insertion, the top value and the constant 1 are the operands of the add or subtract |
| Frontend.AssignInst | src/frontend/parser.rs:536-573 | a `pc` destination gives an `OpJmp`/`OpCall` with a Null destination. Any other destination gives the opcode itself or a widen/narrow cast to the destination's width, with the destination written in |
| Frontend.Classify | src/frontend/parser.rs:315-427 | the token's branch; constants are below 2^64, and memory captures spell the token |
| Frontend.RegistersRecognised | src/frontend/parser.rs:333-341 | every register name with a letter is read as that register |
| Frontend.CompositeTokens | src/frontend/parser.rs:365-390 | the compound and memory branches take exactly the non-empty tokens that are no operator, have no letter and are no decimal literal; the memory branch takes those ending in ']' |
| Frontend.DecimalConstant | src/frontend/parser.rs:359-363 | a decimal literal becomes the constant `v as u64` |
| Frontend.AllAcceptedEach | src/frontend/parser.rs:315-428 | every token of an accepted string is an accepted token |
| Frontend.Parser.constructor | src/frontend/parser.rs:48-67 | an empty stack, instruction lists, block map and worklist, and temporary index 0 |
| Frontend.Parser.ReadConst | src/frontend/parser.rs:271-277 | a constant is read only from a Temporary whose node is an `OpConst` of that value |
| Frontend.Parser.GetTmpRegister | src/frontend/parser.rs:497-503 | the index is incremented, and size 0 becomes the default size |
| Frontend.Parser.ProcessIn | src/frontend/parser.rs:714-724 | Registers are read through the SSA construction, Temporaries give their node, Unknown and Internal values give a comment, and Null gives the invalid node |
| Frontend.Parser.ProcessOp | src/frontend/parser.rs:737-747 | `OpEq` returns its first operand's node, and any other opcode a new operation node with its operand edges |
| Frontend.Parser.ProcessOut | src/frontend/parser.rs:726-735 | only a Register destination is written, and it is bound to the value |
| Frontend.Parser.ReadOperands | src/frontend/parser.rs:705-707 | both operands are read in order, and Temporaries give their own node |
| Frontend.Parser.PushInst | src/frontend/parser.rs:702-712 | the instruction is appended; the result is its destination as a Temporary carrying the new node; a Register destination is bound to it |
| Frontend.Parser.ConstantValue | src/frontend/parser.rs:693-700 | exactly one `OpConst` of the default width is emitted, and its value reads back as the constant |
| Frontend.Parser.AddWidenInst | src/frontend/parser.rs:506-516 | no-op when the operand is at least the target; otherwise one `OpWiden` whose result has the target width |
| Frontend.Parser.AddNarrowInst | src/frontend/parser.rs:519-529 | no-op when the operand is at most the target; otherwise one `OpNarrow` whose result has the target width |
| Frontend.Parser.ZeroFlag | src/frontend/parser.rs:670-675 | `$z` becomes a 1-bit `OpCmp` of the last assignment against the constant 0 |
| Frontend.Parser.GetParam | src/frontend/parser.rs:662-691 | pops one value, or fails on an empty stack; `%%` gives the address as a constant, `%z` the zero flag, and any other value is itself |
| Frontend.Parser.AddAssignInst | src/frontend/parser.rs:531-574 | fewer than two operands gives `InsufficientOperands`, after popping what there was; otherwise both operands are popped and the assignment is emitted |
| Frontend.Parser.AssignValue | src/frontend/parser.rs:541-573 | one assignment instruction is appended, and a Register destination other than the pc becomes the last assignment |
| Frontend.Parser.Equalize | src/frontend/parser.rs:631-641 | both operands end at the width of the wider one, and the wider one is kept as it is |
| Frontend.Parser.Operate | src/frontend/parser.rs:626-657 | one Temporary of the operands' common width is pushed, and `OpCmp` makes it the last assignment |
| Frontend.Parser.AddUnary | src/frontend/parser.rs:604-624 | an empty stack gives `InsufficientOperands`; otherwise the top is popped and is the operand when `get_param` hands it back unchanged, the rest of the stack is kept, `OpIf` pushes nothing, and any other unary opcode pushes one Temporary of the operand's width |
| Frontend.Parser.UnaryWith | src/frontend/parser.rs:612-657 | with the operand popped, `OpIf` records the instruction with a Null destination and any other opcode pushes its Temporary result on the remaining stack |
| Frontend.PoppedUnary | src/frontend/parser.rs:604-624 | popping the operand and then finishing the instruction on the remaining stack is the whole unary operation |
| Frontend.Parser.AddBinary | src/frontend/parser.rs:604-657 | fewer than two values gives `InsufficientOperands`; otherwise two are popped, the rest of the stack is kept, and one Temporary of their maximal width is pushed, with the wider of two unchanged operands used as it is |
| Frontend.Parser.BinaryWith | src/frontend/parser.rs:611-657 | with the first operand popped, an empty stack gives `InsufficientOperands`; otherwise the second is popped and the result replaces it |
| Frontend.PoppedBinary | src/frontend/parser.rs:604-657 | popping the first operand and then finishing the operation on the remaining stack is the whole binary operation |
| Frontend.Parser.AddIncDec | src/frontend/parser.rs:586-599 | with the insertion corrected to `len - 1` (see Findings and Left out): an empty stack is that subtraction's underflow (`Aborted`); otherwise an add or subtract of the top and the constant 1 replaces the top, and the rest of the stack is kept |
| Frontend.Parser.IncDecOn | src/frontend/parser.rs:586-599 | the constant 1 goes below the top and the add or subtract combines the two, replacing the top |
| Frontend.Parser.IncDecBinary | src/frontend/parser.rs:597 | the add or subtract on the prepared stack replaces the top by the result of the top and the constant |
| Frontend.IncDecDone | src/frontend/parser.rs:586-599 | a binary operation on the corrected `++`/`--` stack leaves the rest of the stack alone and replaces the top by a Temporary combining the top with the constant |
| Frontend.Parser.InsertOne | src/frontend/parser.rs:593-595 | the constant 1 is inserted below the top value, and the rest of the stack is kept |
| Frontend.Parser.AddInst | src/frontend/parser.rs:576-659 | `OpCl` emits one null instruction; `OpEq`, unary and binary opcodes fail only with `InsufficientOperands`, and on success the binary or unary instruction reads the old top values and its Temporary result replaces them (`OpIf` pushes nothing); `++`/`--` follow the corrected insertion |
| Frontend.Parser.AddSpecial | src/frontend/parser.rs:579-599 | `OpCl` always succeeds with one null instruction; `++`/`--` fail only with `Aborted` |
| Frontend.Parser.AddOperation | src/frontend/parser.rs:604-657 | only `InsufficientOperands` fails; on success the binary instruction combines the two old top values, the wider of two plain values used unchanged, or the unary one reads the old top, and its Temporary result replaces them (`OpIf` pushes nothing) |
| Frontend.Parser.ParseCompound | src/frontend/parser.rs:382-385 | the operator's instruction is over the old top two values (or the old top, when unary), and the last instruction assigns its result to the original top of stack |
| Frontend.Parser.AssignTo | src/frontend/parser.rs:383-384 | the destination is pushed back and the value below it assigned to it: the stack loses that value, and the assignment reads it when it is a plain value; this fails only on an empty stack |
| Frontend.Parser.ParseMem | src/frontend/parser.rs:388-427 | an empty stack gives `InsufficientOperands` and an unknown prefix gives `InvalidMOperator`; the first instruction is the `OpLoad` of the old top when that is a plain value; a peek replaces the top by the load's result, or by its narrow to the access width; a poke ends with an assignment (an `OpEq` or a cast) to a Temporary |
| Frontend.Parser.Peek | src/frontend/parser.rs:399-404 | the `OpLoad` of the old top comes first, optionally followed by an `OpNarrow` to the access width of that load; the top of stack becomes the last one's result, the rest of the stack is kept |
| Frontend.Parser.Poke | src/frontend/parser.rs:412-426 | the last instruction assigns to the loaded value; without an operator this succeeds exactly when two values are on the stack and assigns the one below; with an operator, that operator's instruction combines the old top values and its result is assigned back; an unknown operator gives `InvalidMOperator` |
| Frontend.Parser.Loaded | src/frontend/parser.rs:400-403 | the loaded value replaces the top of stack unchanged when it fits the access width; otherwise one `OpNarrow` of it to that width is emitted and its result replaces the top |
| Frontend.Parser.PushOperand | src/frontend/parser.rs:352-353 | the value is pushed |
| Frontend.Parser.ParseToken | src/frontend/parser.rs:315-427 | one token's effect per branch: registers, internals and constants push one value; an unrecognised token, an empty token or a failed match aborts; compound tokens check the stack first |
| Frontend.Parser.PushToken | src/frontend/parser.rs:333-353 | a register pushes its Register value, an internal variable its Internal value, and a literal one `OpConst` |
| Frontend.Parser.ParseCompoundTok | src/frontend/parser.rs:366-387 | an empty stack gives `InsufficientOperands`, a failed match `Aborted`, and an unknown operator `InvalidMOperator` |
| Frontend.Parser.ParseStr | src/frontend/parser.rs:308-430 | an empty string gives `InvalidEsil` and emits nothing; success means every token was accepted |
| Frontend.Parser.ParseOpinfo | src/frontend/parser.rs:295-306 | the address becomes the offset, or the previous address plus one; a missing ESIL string is decoded as the empty one |
| Frontend.Parser.ScanJumps | src/frontend/parser.rs:221-244 | the loop over the block's instructions computes `JumpEffects` |
| Frontend.Parser.AddEdges | src/frontend/parser.rs:256-264 | the edges are added exactly when every endpoint resolves; otherwise the result is `Aborted` |
| Frontend.Parser.SealAll | src/frontend/parser.rs:265-267 | every block of the map is sealed |
| Frontend.Parser.Revisit | src/frontend/parser.rs:160-171 | a start with a live block is skipped; an address inside an earlier block re-enqueues that block's start and resets its node |
| Frontend.Parser.OpenBlock | src/frontend/parser.rs:205-215 | the current block is recorded, and a new block node is created at `pc` |
| Frontend.Parser.TakeInst | src/frontend/parser.rs:217-249 | the instruction's micro-operations move to `allinsts`, and its jump targets are enqueued |
| Frontend.Parser.CloseBlock | src/frontend/parser.rs:254 | the block is recorded with its end address |
| Frontend.Parser.CollectInst | src/frontend/parser.rs:197-249 | the worklist and the edge list only grow, and every edge joins known or queued addresses |
| Frontend.Parser.VisitBlock | src/frontend/parser.rs:172-254 | the block's start is recorded, and every instruction it collected starts a block |
| Frontend.Parser.VisitNext | src/frontend/parser.rs:158-254 | no address known or queued is forgotten |
| Frontend.Parser.Discover | src/frontend/parser.rs:157-255 | once the worklist is empty, the start is a block and every deferred edge joins two blocks |
| Frontend.Parser.Run | src/frontend/parser.rs:150-269 | an instruction without an offset aborts when there are two or more instructions, or when a popped address is not already a live block; a single one behind skipped addresses is never read. On success every edge joins two blocks with nodes, and every block is sealed |
| Frontend.Parser.EmitAll | src/frontend/parser.rs:443-454 | `allinsts` is replaced by the emitted list, which is also returned |
| EsilLegacy.N | src/frontend/esil/mod.rs:43-52 | `Arity::n` is at most 3 |
| EsilLegacy.NInjective | src/frontend/esil/mod.rs:43-52 | `Arity::n` tells the arities apart |
| EsilLegacy.ToOperator | src/frontend/esil/mod.rs:99-129 | only `OpNop` takes no operand; `OpNot`, `OpInc`, `OpDec`, `OpIf` and `OpRef` are unary; all others binary; only `OpEq` is "=" |
| EsilLegacy.NullValue | src/frontend/esil/mod.rs:171-173 | the Null value has width 0 and an empty name |
| EsilLegacy.Tmp | src/frontend/esil/mod.rs:175-177 | a Temporary of the given width |
| EsilLegacy.TmpNamesDistinct | src/frontend/esil/mod.rs:175-177 | temporaries with different indices have different names |
| EsilLegacy.ConstantValue | src/frontend/esil/mod.rs:179-181 | a 64-bit Constant carrying the value |
| EsilLegacy.ConstantNameRoundTrip | src/frontend/esil/mod.rs:179-181 | a non-negative constant's name parses back to its value |
| EsilLegacy.Opset | src/frontend/esil/mod.rs:252-279 | defined exactly on the opset tokens; "}" is `OpNop`; no entry is `OpRef` or a cast |
| EsilLegacy.Regset | src/frontend/esil/mod.rs:281-294 | exactly the nine listed x86-64 registers, each 64 bits wide |
| EsilLegacy.WidenOn | src/frontend/esil/mod.rs:326-334 | skipped only when the operand is wider; otherwise one `OpWiden` to a fresh temporary |
| EsilLegacy.NarrowOn | src/frontend/esil/mod.rs:336-344 | skipped only when the operand is narrower; otherwise one `OpNarrow` carrying `Value::constant(size)` |
| EsilLegacy.CastsAtEqualWidth | src/frontend/esil/mod.rs:326-344 | at equal width both casts still emit one instruction |
| EsilLegacy.AddInstOn | src/frontend/esil/mod.rs:346-383 | an empty stack changes nothing; a binary op on one value pops it and emits nothing; "=" assigns the second value to the top; other ops push a fresh temporary sized like the top |
| EsilLegacy.TokenValue | src/frontend/esil/mod.rs:400-415 | a register token is a 64-bit Register; any other alphabetic token is Unknown with the default width |
| EsilLegacy.MemoryStep | src/frontend/esil/mod.rs:443-481 | a memory token panics exactly when it does not match or the stack is empty |
| EsilLegacy.ParseExtends | src/frontend/esil/mod.rs:385-483 | a parse that does not panic only appends instructions and never lowers the temporary index |
| EsilLegacy.ParseConcat | src/frontend/esil/mod.rs:385-483 | parsing a concatenation is parsing the first part, then the second from where it stopped |
| EsilLegacy.EmptyEsilPanics | src/frontend/esil/mod.rs:385-395 | the empty string is one empty token, and the decoder panics on it |
| EsilLegacy.LetterTokens | src/frontend/esil/mod.rs:399-415 | a token with a letter pushes its value and emits nothing |
| EsilLegacy.CompoundAssigns | src/frontend/esil/mod.rs:418-441 | `op=` applies the operator and then assigns the result to the original top of stack |
| EsilLegacy.MemoryTokenDispatch | src/frontend/esil/mod.rs:443-446 | a letter-free token matching the memory pattern takes the memory branch |
| EsilLegacy.MemoryRefFirst | src/frontend/esil/mod.rs:447-459 | a memory token on a non-empty stack emits `OpRef` first, before sizing and any poke |
| EsilLegacy.LegacyParser.constructor | src/frontend/esil/mod.rs:306-316 | empty stack and instructions, temporary index 0, default size 64 |
| EsilLegacy.LegacyParser.GetTmpRegister | src/frontend/esil/mod.rs:318-324 | the index strictly increases, and size 0 becomes the default size |
| EsilLegacy.LegacyParser.AddWidenInst | src/frontend/esil/mod.rs:326-334 | the method's state and result are `WidenOn` of the old state |
| EsilLegacy.LegacyParser.AddNarrowInst | src/frontend/esil/mod.rs:336-344 | the method's state and result are `NarrowOn` of the old state |
| EsilLegacy.LegacyParser.AddInst | src/frontend/esil/mod.rs:346-383 | the new state is `AddInstOn` of the old one |
| EsilLegacy.LegacyParser.CompoundToken | src/frontend/esil/mod.rs:418-441 | the outcome and new state are `CompoundStep` of the old state |
| EsilLegacy.LegacyParser.MemoryToken | src/frontend/esil/mod.rs:443-481 | the outcome and new state are `MemoryStep` of the old state |
| EsilLegacy.LegacyParser.ParseToken | src/frontend/esil/mod.rs:389-481 | the outcome and new state are `TokenStep` of the old state |
| EsilLegacy.LegacyParser.Parse | src/frontend/esil/mod.rs:385-483 | the token loop's outcome and new state are `ParseTokens` over `Split(esil)` |
| EsilLegacy.LegacyParser.EmitInsts | src/frontend/esil/mod.rs:485-487 | returns the instructions collected |

## Left out

- Regular expressions are not modelled as an engine. Each pattern the decoders use is written out as a string predicate: `[a-zA-Z]`, `^(.|..)=$` and `^(.|..)?(=)?\[([1248]?)\]$`. The memory pattern is modelled in two forms, as written and as intended (see Findings); both decoders use the intended form.
- The `num` crate's hexadecimal parse and `str::parse::<i64>` are modelled by `TokenSyntax.FromStrRadix`, a digit-by-digit parser with a range check.
- `SSAStorage` and petgraph are not part of this model. The graph is a value arena (`SsaGraph.Graph`) with only the operations the construction and the decoder call:
  - `add_block`, `add_phi`, `add_comment`, `add_op` and `add_undefined`;
  - `op_use`, `phi_use`, `add_edge` and `replace`;
  - predecessor, argument, use and replacement queries.
  An operand edge to the invalid node is not added. Adding a control edge with an invalid endpoint is `Aborted`.
- `SSAStorage::add_block` is not in ssa.rs. Its insertion into `incomplete_phis` only appears in commented-out code. `Ssa.SSAConstruction.AddBlock` creates the block node together with its empty pending-phi table, which `read_variable_recursive` requires.
- The commented-out code of ssa.rs is not modelled: `process_block`, `run`, `remove_redundant_phis` and `processSCC`.
- `println!` in `run` is not modelled.
- The `Display` implementation of the legacy `Instruction` is not modelled.
- Configuration plumbing is not modelled: `ParserConfig`, `Parser::new`, `set_register_profile`, `set_flags` and `new_mreg_info`. The register set, the alias roles, the default size and the SSA construction are constructor parameters instead.
- `middle::ir` is not part of this model. The arities of `MOpcode` are taken as follows:
  - unary: `OpNot`, `OpIf`, `OpLoad`, widen, narrow, `OpJmp`, `OpCall`, `OpInc`, `OpDec`;
  - zero: `OpCl`, `OpConst`, `OpInvalid`;
  - binary: every other opcode.
  `MVal::null()` is taken to have width 0.
- `Ssa.SSAConstruction.ReadVariable`: the recursion between `read_variable`, `read_variable_recursive` and `add_phi_operands` runs on a `fuel` bound. A cycle of sealed single-predecessor blocks makes the source recurse forever; here it sets `fault` when the fuel runs out. Results are stated for runs that do not fault.
- `Ssa.SSAConstruction.ReadVariableRecursive`: in a sealed block with one predecessor, the contract does not say that the result is the predecessor's read. It states that the value is bound in the block, and that no phi is placed in such a block.
- `Frontend.Parser.Run`: the worklist loop runs at most `fuel` turns and then returns `OutOfFuel`. The source's loop is unbounded.
- `Frontend.Parser.Run`: termination of the source's worklist and which blocks it ends with are not stated. Only the closure properties are: every edge joins two known blocks, and every block is sealed.
- Source panics are modelled as the result `Aborted`, or as the `fault` flag inside `SSAConstruction`. They are not preconditions.
- Widths are unbounded naturals. The `u8` width arithmetic (`n * 8`, the `max` of two widths) is not wrapped, since the widths involved are at most 64. Only `v as u64` is modelled as wrapping.
- Every operation node is created with width 64, as `process_op` does.
- The legacy tokenizer's integer values (`i64`) are unbounded integers in the model.
- `Frontend.Classify`, `Frontend.Parser.ParseMem`, `EsilLegacy.MemoryStep` and `EsilLegacy.LegacyParser.MemoryToken` decode memory tokens with the intended pattern (first row of Findings). So "=[n]" is a plain store here. The source's regex, as written, takes the '=' as the operator and decodes "=[n]" as a peek; that behaviour is stated only by `TokenSyntax.PokeReadAsPeekAsWritten`.
- `Frontend.Parser.AddIncDec`, `Frontend.Parser.IncDecOn`, `Frontend.Parser.InsertOne`, `Frontend.Parser.IncDecBinary`, `Frontend.IncDecDone` and `Frontend.Parser.AddInst` use the corrected insertion of `++`/`--` at `len - 1` (second row of Findings). The source inserts at `len - 2`: a one-element stack panics there, and on [w, x] the constant is left on the stack while w and x are combined. That behaviour is stated only by `Frontend.IncDecAsWrittenMisses`.
- `Frontend.Parser.ParseCompound`, `Frontend.Parser.Poke`: the operator instruction is not described for `?{`, `}`, `++` and `--` used as compound operators, nor for `==` (`OpEq` as the operator); for those only the final assignment is stated.
- `Ssa.SSAConstruction.SealBlock`, `Ssa.SSAConstruction.CompletePending`: each pending phi gains at least, not exactly, one operand per predecessor. The model does not carry the fact that distinct variables have distinct pending phis, and one phi listed twice would be completed twice.

## Findings

| source | as written | input that shows it | evidently intended | confidence | as-written member | corrected member |
|---|---|---|---|---|---|---|
| src/frontend/parser.rs:390 (also src/frontend/esil/mod.rs:444) | `^(.|..)?(=)?\[([1248]?)\]$` is matched leftmost-first, so the optional operator group takes a leading '='; the plain-poke branch (parser.rs:405-408) can never run | "=[4]" is captured as operator "=" with no '=' mark, so it is decoded as a peek | "=[n]" is a plain store: the '=' just before `[` is the assignment mark | not executed | TokenSyntax.PokeReadAsPeekAsWritten | TokenSyntax.MatchMemAssign |
| src/frontend/parser.rs:593-596 | `++`/`--` insert the constant 1 at `len - 2` | stack [x]: `len - 2` underflows; stack [w, x]: the add is applied to x and w, and the 1 is left on the stack | insert 1 just below the top (`len - 1`), so the top value is incremented or decremented | not executed | Frontend.IncDecAsWrittenMisses | Frontend.IncDecOperands |
