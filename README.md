# Block rotation (`Proc::opt_jump`) in Dafny

This project models the jump-rotation pass of the bunny-jit SSA middle end
(`Proc::opt_jump`, src/opt-jump.cpp). The pass walks the worklist `live` and
looks for a block `b` that ends in a plain jump not flagged `no_opt`, where
the jump's target `t` has more than one predecessor and `b` strictly
dominates `t`. When it finds one, it does the following:

- splits the critical edges leaving `t`;
- clones `t`'s code, up to its first control transfer, into a fresh block
  `nb`, renaming operands through a copy-rename map;
- adds, at each successor `s` of the clone, one merge phi per live-in value
  defined in `t`;
- renames the uses of those values in every live block that `s` dominates,
  and in the phi tables of those blocks' successors;
- points `b`'s jump at the clone, appends the clone to `live`, and then
  clears `live` so that the caller rebuilds its analyses.

At most one jump is rotated per call.

The procedure's storage is modelled as three tables, cross-referenced by
index only:

- `ops: seq<Op>`, the op table;
- `blocks: seq<Block>`, the block table (code, predecessors, dominator
  chain, live-in values, phi table, live flag);
- `live: seq<nat>`, the worklist.

An op's 64-bit payload is modelled as its operand list plus its phi slot
index. The phi slot index lives in the same payload, so copying the payload
copies the slot too.

Modules:

- `IR` (ir.dfy): the datatypes, the opcode order (below `JMP` a two-way
  branch, `JMP` the plain jump, above it no followed successor), the table
  invariant `WellFormed` and the dominance tests. `WellFormed` asks only
  the labels that an op's opcode makes meaningful to name existing blocks:
  label 0 of a control transfer, label 1 of a conditional branch. The
  other labels may hold anything.
- `Rename` (rename.dfy): the rename utility as an ordered list of
  (source, destination) pairs. It has a first-match lookup, as used on
  operands, and the sequential in-order application used on phi
  alternatives. The two are proved equal when no destination is also a
  source.
- `JumpSpec` (jump_spec.dfy): the specification functions and the closed
  forms of each stage (`FirstCandidate`, `SplitDone`, `ClonedUpTo`,
  `Cloned`, `InsertedPhis`, `PropagatedOps`/`PropagatedBlocks`, `FixedUp`,
  `SuccessorsFixedUp`, `CloneShaped`, `SplitFrame`, `RotationStages`,
  `RotationFrame`, `Rotated`), with
  the lemmas about them.
- `OptJump` (opt_jump.dfy): the class `Proc` with the three tables as
  fields. Its methods carry the loops of the pass and are proved against
  the closed forms. The collaborators `addOp`, `newOp`, `breakEdge` and
  `args.add` are defined outside this file; the methods `AddOp`, `NewOp`,
  `BreakEdge` and `AddAlternatives` stand in for them, each specified by the
  effect this file relies on.

Line numbers in the doc comments of the `.dfy` files refer to
src/opt-jump.cpp.

## Model

| member | source | states |
|---|---|---|
| `OptJump.Proc.OptJump` | src/opt-jump.cpp:15-259 | The result is true exactly when the worklist holds a candidate jump. With no candidate, ops, blocks and `live` are unchanged. With one, the jump ending the first candidate block is rotated as `Rotated` describes, through the split, clone, fix-up and retarget stages; no other jump is retargeted; and `live` ends empty. The tables stay well formed. |
| `OptJump.Proc.Scan` | src/opt-jump.cpp:27-52 | Changes nothing. Returns the worklist position `FirstCandidate` names, checking on the way the assertion that a jump target has a predecessor. The chosen jump's target has code. |
| `JumpSpec.FirstCandidate` | src/opt-jump.cpp:27-50 | `None` exactly when no worklist entry from `i` on is a candidate. Otherwise, a position whose block is a candidate, with no candidate before it. A candidate ends in a `JMP` without `no_opt` whose target has more than one predecessor and is strictly dominated by the block. |
| `JumpSpec.IsCandidate` | src/opt-jump.cpp:29-50 | Block `b` ends in a plain jump without `no_opt`, whose target has more than one predecessor and is strictly dominated by `b`. A candidate's jump never targets `b` itself. |
| `IR.StrictlyDominates` | src/opt-jump.cpp:44-45 | `a` strictly dominates `x`: `x`'s chain is longer than `a`'s and holds `a` at the position of `a`'s own depth. |
| `IR.Dominates` | src/opt-jump.cpp:207-208 | `a` dominates `x`, reflexively: `x`'s chain is at least as long as `a`'s and holds `a` at that position. |
| `IR.LabelsInRange` | src/opt-jump.cpp:59-81 | The labels an op's opcode makes meaningful name blocks below `n`: label 0 of a control transfer, label 1 of a conditional branch. |
| `IR.WellFormed` | src/opt-jump.cpp:27-35 | The table invariant: there is an entry block, every followed label is in range (`LabelsInRange`), and every op and phi index a block lists is in range. |
| `JumpSpec.ScanAsserts` | src/opt-jump.cpp:35 | The two assertions checked on a block the scan reaches: a plain jump's target has a predecessor (line 35), and a candidate's target has code (line 93). |
| `JumpSpec.ScanAssertsHold` | src/opt-jump.cpp:27-93 | The assertions hold on every worklist block up to and including the first candidate, the blocks the scan reaches. |
| `OptJump.Proc.Rotate` | src/opt-jump.cpp:54-248 | The tables stay well formed, and `live` gains exactly the new block. `Rotated` holds: the new block is numbered with the old block count, at most two forwarding blocks follow it, and the jump keeps its opcode with label 0 set to the new block. The new block is shaped as a clone of the old target (`CloneShaped`), and `t`'s terminal has the labels the pre-split gave it (`SplitDone`). Among the old ops, only the jump's label 0 and the labels of `t`'s terminal change; every other old op keeps its opcode, type, flags, slot and labels (`RotationFrame`). There are intermediate tables through which the rotation went stage by stage (`RotationStages`). The pre-split tables are fixed exactly by `SplitDone`, `SplitFrame` and the op count: one forwarding block and jump per cut edge, `Redirect` on each cut successor, every other old op and block unchanged, and the new block as `OpenedCopy` left it. The clone comes from them with `renameCopy` its copy map (`Cloned`), both successors are fixed up in turn (`SuccessorsFixedUp`), and label 0 of the jump is set to the clone. |
| `OptJump.Proc.RelinkClone` | src/opt-jump.cpp:134-248 | After the split, with its frame `SplitFrame`, and the clone, the successors are fixed up and the jump is retargeted so that `Rotated` holds against the tables before the rotation. `live` gains exactly the clone. |
| `OptJump.Proc.Retarget` | src/opt-jump.cpp:241 | Label 0 of the jump becomes the clone, and nothing else changes. The tables stay well formed. |
| `JumpSpec.RotatedFromStages` | src/opt-jump.cpp:54-248 | The stages, each as its method states it, add up to `Rotated`: the split with its frame, the clone, the two successor fix-ups that keep every op's shape, and the retargeting of the jump. |
| `JumpSpec.RotationFrameFromStages` | src/opt-jump.cpp:54-248 | The op frames of the stages add up to `RotationFrame`. The pre-split changes only the labels of `t`'s terminal, the clone only appends, the fix-up keeps every op's shape, and the retargeting sets label 0 of a jump that is not `t`'s. |
| `JumpSpec.RotationStages` | src/opt-jump.cpp:54-248 | The stages: the split tables with `SplitDone`, `SplitFrame`, the op count and the new block as `OpenedCopy`; the clone by `Cloned`; the fix-up by `SuccessorsFixedUp`; and the jump's label 0 set to the new block. |
| `JumpSpec.RotationFrame` | src/opt-jump.cpp:240-248 | Among old ops the jump changes only label 0 to `nb`, `t`'s terminal only its labels, and every other op keeps its shape. |
| `JumpSpec.Rotated` | src/opt-jump.cpp:54-248 | What a rotation leaves behind: the new block count, the jump retargeted, `CloneShaped`, `SplitDone`, `RotationFrame`, and tables reached through `RotationStages`. |
| `JumpSpec.ThroughStages` | src/opt-jump.cpp:54-248 | Some intermediate tables take the input to the output through `RotationStages`. |
| `JumpSpec.RetargetKeepsShapes` | src/opt-jump.cpp:241 | Setting label 0 of one op keeps the shape of every other op. |
| `JumpSpec.RotatedRetargetsOneJump` | src/opt-jump.cpp:240-248 | One jump is rewritten per call. After a rotation, every old op other than `b`'s jump and `t`'s terminal keeps its opcode and both labels. |
| `OptJump.Proc.NewCopyBlock` | src/opt-jump.cpp:54-91 | The new block is numbered with the old block count, with at most two blocks after it, and is exactly `OpenedCopy`: live, with as many empty phi slots as `t`, and no code, predecessors, dominator chain or live-in values. `t`'s code is kept, and the op table grows by one jump per forwarding block. `SplitDone` says which labels of `t`'s terminal were cut and which forwarding blocks they now name. `SplitFrame` says what else changed: each forwarding block and its jump are as `breakEdge` builds them, a cut successor is `Redirect`ed, the terminal changes only in its labels, and every other old op and block is unchanged. Every old op keeps its opcode, type and slot, and no old op names the new block through a label its opcode follows. |
| `OptJump.Proc.AppendAndSplit` | src/opt-jump.cpp:55-84 | `blocks.resize` and then the pre-split: the result is `SplitOfAppended` of the old tables, numbered from the old block count. The tables stay well formed, the worklist is unchanged and valid, and every block but the new one has a chain. |
| `OptJump.Proc.AppendEmpty` | src/opt-jump.cpp:55-56 | One empty block is appended and its number, the old block count, is returned. Nothing else changes. |
| `JumpSpec.OpenedCopy` | src/opt-jump.cpp:55-91 | The new block before the clone loop: live, with `n` empty phi slots, and no code, predecessor, chain or live-in value. |
| `OptJump.Proc.OpenCopy` | src/opt-jump.cpp:88-91 | The new block becomes live with as many empty phi slots as `t` has. Nothing else changes. |
| `JumpSpec.SplitDoneExtended` | src/opt-jump.cpp:55-84 | The pre-split's outcome, stated against the tables with the new block appended, also holds against the tables before the append, and only depends on the final block count. |
| `JumpSpec.SplitFrameExtended` | src/opt-jump.cpp:55-91 | The pre-split's frame, stated against the tables with the new block appended, also holds against the tables before the append. It still holds when only the new block changes afterwards. |
| `JumpSpec.SplitFrameKept` | src/opt-jump.cpp:93-128 | The pre-split's frame survives a change that keeps every existing op and every old block, such as the clone loop. |
| `JumpSpec.SplitFrameLayout` | src/opt-jump.cpp:59-84 | Under the pre-split's frame, every old block keeps its layout and its number of predecessors, and an old block that neither label of `t`'s terminal names is unchanged. |
| `JumpSpec.EdgeStepsSplitFrame` | src/opt-jump.cpp:59-84 | A step with frame `StepFrame` on label 0 of `t`'s terminal, followed by one on label 1, makes the frame `SplitFrame`, given that label 0 changes only for a control transfer and label 1 only for a conditional branch. |
| `JumpSpec.StepsOps` | src/opt-jump.cpp:59-84 | For two steps, every old op but `t`'s terminal is unchanged, the terminal takes the labels of the second step, and a changed label 0 names the forwarder of the first step, which the second step keeps. |
| `JumpSpec.StepsChained` | src/opt-jump.cpp:69-81 | Every block added by the two steps is a forwarder, so it has a dominator chain. |
| `JumpSpec.EdgeStepFrame` | src/opt-jump.cpp:61-84 | Each of the two outcomes of `EdgeStep`, no cut or one cut, has the frame `StepFrame`. |
| `JumpSpec.EdgeStep` | src/opt-jump.cpp:61-84 | One step of the pre-split on label `k` of the terminal: either nothing changes, or the op table gains the forwarder's jump and label `k` names the forwarder, while the block table gains the `Forwarder` and the successor is `Redirect`ed. |
| `JumpSpec.StepFrame` | src/opt-jump.cpp:61-84 | The frame of one step: other old ops are kept, the other label of the terminal is kept, an unchanged label means nothing changed, and a changed label names the single added block, a forwarder to the old successor, with its jump the single added op. Old blocks are as `CutEdge` leaves them. |
| `JumpSpec.SplitDone` | src/opt-jump.cpp:59-84 | Which labels of `t`'s terminal the pre-split cuts: label 0 of a control transfer, label 1 of a conditional branch, each when its successor has more than one predecessor. A cut label names the next block number, and the block count grows by the number of cuts. |
| `JumpSpec.SplitFrame` | src/opt-jump.cpp:59-84 | Everything else the pre-split does: old ops equal their old values except the terminal's labels; a changed label names a block at or after the old block count that is the `Forwarder` of its edge, with the next new op as its jump; old blocks are `blocks0` with the two `CutEdge`s applied, so a block changes only as the successor of a cut edge. |
| `JumpSpec.CutEdge` | src/opt-jump.cpp:61-84 | The block table after one edge from `from` into `l` is routed through `f`: only `l` changes, by `Redirect`, and it keeps its layout and predecessor count. When the label is unchanged (`f == l`), nothing changes. |
| `JumpSpec.ForwarderAt` | src/opt-jump.cpp:69-81 | Block `f` is the forwarder on the edge `from -> to` and op `j` is its jump: a fresh `JMP` of `f` with label 0 set to `to`. |
| `JumpSpec.Redirect` | src/opt-jump.cpp:69-81 | The successor of a split edge: every predecessor entry and phi tag naming `from` names the forwarder. It keeps its layout and its number of predecessors. |
| `JumpSpec.RetagSlot` | src/opt-jump.cpp:69-81 | A phi slot with every alternative tagged `from` now tagged with the forwarder, and values kept. |
| `JumpSpec.Forwarder` | src/opt-jump.cpp:69-81 | The forwarding block: its only op is the jump, its only predecessor is `from`, its chain is `from`'s chain plus itself, and it passes on the successor's live-in values. |
| `JumpSpec.SplitFrameKeepsTables` | src/opt-jump.cpp:55-84 | The pre-split keeps every old block's code and chain, so the worklist stays in range and the dominator chain stays unbroken. |
| `JumpSpec.SplitOfAppended` | src/opt-jump.cpp:54-84 | The tables once the new block is allocated and the edges out of `t` are split: the new block is still empty, the op count grows by one per forwarder, and `SplitDone` and `SplitFrame` hold against the tables before the allocation. |
| `JumpSpec.SplitOnAppended` | src/opt-jump.cpp:55-84 | A pre-split run on the tables with the empty new block appended is `SplitOfAppended` of the tables before the append, and the worklist and chains stay valid. |
| `JumpSpec.SplitKeepsOps` | src/opt-jump.cpp:59-84 | Under the pre-split's frame, old ops change at most in the labels of `t`'s terminal. So every old op keeps its opcode, type and slot, and no old op names the block reserved for the clone through a label its opcode follows. |
| `JumpSpec.SplitDoneKept` | src/opt-jump.cpp:241 | The labels the pre-split gave `t`'s terminal survive changes that keep the shape of `t`'s ops. |
| `OptJump.Proc.SplitCriticalEdges` | src/opt-jump.cpp:59-84 | `SplitDone` holds: label 0 of `t`'s terminal is cut, and replaced by a new forwarding block, exactly when the op is a control transfer and that successor has more than one predecessor. Label 1 is cut likewise, but only for a conditional branch. The block and op counts grow by the number of cuts. `SplitFrame` holds: each forwarding block holds one fresh jump to the old successor, has `t` as its only predecessor and `t`'s chain plus itself as its chain; a cut successor is `Redirect`ed from `t` to its forwarder; the terminal changes only in its labels; every other old op and every other old block, including blocks that an unfollowed label names, is unchanged. The new blocks have a dominator chain. |
| `OptJump.Proc.SplitEdge` | src/opt-jump.cpp:69-81 | The edge through label `k` of the terminal is split, exactly as `breakEdge` and the label store do it: the op table gains the forwarder's jump to the old successor, label `k` names the forwarder, the successor is `Redirect`ed from `t` to the forwarder, the block table gains the `Forwarder`, and nothing else changes. The tables stay well formed. |
| `OptJump.Proc.BreakEdge` | src/opt-jump.cpp:69 | The forwarding block is numbered with the old block count and holds one fresh jump to `to`. Its only predecessor is `from`, its chain is `from`'s chain plus itself, and its live-in values are `to`'s. In `to`, predecessor entries and phi tags naming `from` now name the forwarder. |
| `OptJump.Proc.CopyTarget` | src/opt-jump.cpp:54-129 | The new block is prepared and shaped as a clone of `t` (`CloneShaped`). The clone's last op names no successor equal to the clone. The ghost results are the tables after the pre-split, fixed exactly: `SplitDone`, `SplitFrame`, the new block as `OpenedCopy` and the op count. `SplitDone` and `SplitFrame` also hold for the final tables. The clone comes from the split tables as `Cloned` says: `ClonedUpTo` for the whole clone, and the returned `renameCopy` is the copy map (`CopyMap`) of the cloned ops. |
| `OptJump.Proc.CloneTarget` | src/opt-jump.cpp:93-128 | `Cloned` holds: after the loop, `ClonedUpTo` holds for `CloneLength` ops, so clone `i` of `t`'s code is op `base + i`, in order. `renameCopy` is `CopyMap`, mapping each original to its clone for every cloned op except a closing control transfer. |
| `OptJump.Proc.CloneStep` | src/opt-jump.cpp:96-127 | One iteration of the clone loop takes `ClonedUpTo(i)` to `ClonedUpTo(i + 1)`, and the clone is numbered `base + i`. |
| `OptJump.Proc.CloneOp` | src/opt-jump.cpp:96-115 | One op is appended to the op table and to `nb`'s code. It takes the original's opcode, type and payload, with operands renamed through the map. A control transfer also takes both labels and gets `no_opt`. |
| `JumpSpec.CloneOf` | src/opt-jump.cpp:96-112 | The clone of an op is an op of `nb` with the original's opcode, type and phi slot, and its operands looked up through the copy-rename map. A control transfer also keeps both labels and is flagged `no_opt`; any other op gets labels 0 and no flag. |
| `OptJump.Proc.CopyPhiSlot` | src/opt-jump.cpp:118-125 | Slot `p` of the clone's phi table becomes the clone op together with a verbatim copy of the alternatives of the original's slot `p`. Nothing else changes. |
| `JumpSpec.FirstTransfer` | src/opt-jump.cpp:105-114 | The first position from `i` on that holds a control transfer, or the end of the code: no transfer lies before it. |
| `JumpSpec.CloneLength` | src/opt-jump.cpp:94-115 | The number of ops cloned is nonzero for nonempty code. No control transfer lies before the last cloned op, and when the clone stops early, its last op is a control transfer. |
| `JumpSpec.ClonedOperand` | src/opt-jump.cpp:100-102 | An operand of a clone either is kept, when it names no earlier cloned original, or names the clone of the earlier original it referred to. |
| `JumpSpec.CloneRefersOnlyToEarlierClones` | src/opt-jump.cpp:100-127 | Clone `i` refers only to old ops or to strictly earlier clones, never to itself. |
| `JumpSpec.CopyMapSendsToClone` | src/opt-jump.cpp:127 | After `n` ops were cloned, the copy-rename map sends each cloned original to its own clone; when an op index repeats, the first occurrence wins. |
| `JumpSpec.CopyMap` | src/opt-jump.cpp:127 | The copy-rename map after `n` ops were cloned: one pair per cloned op, from the original to the clone at `base + j`, in clone order. |
| `JumpSpec.ClonedArgs` | src/opt-jump.cpp:118-125 | The clone's phi table after `n` ops were cloned: as many slots as `t` has, starting empty, each phi cloned so far filling its own slot with its clone and the original's alternatives. Its size is `t`'s slot count. |
| `JumpSpec.ClonedUpTo` | src/opt-jump.cpp:94-127 | After `m` ops of `t`'s code were cloned: the op table is the old one plus the `m` clones in order, each the `ClonedOp` of its original, and only `nb` changes among the blocks, listing the clones and holding `ClonedArgs`. |
| `JumpSpec.Cloned` | src/opt-jump.cpp:94-128 | The whole clone loop: `ClonedUpTo` for `CloneLength` ops, and `renameCopy` the `CopyMap` of every cloned op but a closing control transfer. |
| `JumpSpec.CloneShaped` | src/opt-jump.cpp:94-128 | The clone block against the tables before the rotation: live, `t`'s slot count, one clone per cloned op of `t` with its opcode, type and slot, flagged `no_opt` exactly for a transfer, a transfer's labels copied. |
| `JumpSpec.ClonedArgsSlot` | src/opt-jump.cpp:118-125 | The slot of a cloned phi holds the clone's index and the original slot's alternatives, verbatim. |
| `JumpSpec.ClonedArgsUntouched` | src/opt-jump.cpp:91 | A slot of the resized phi table that no cloned phi names stays empty. |
| `JumpSpec.ClonedWellFormed` | src/opt-jump.cpp:94-128 | Cloning keeps the table invariant. |
| `JumpSpec.CloneShapedFromCloned` | src/opt-jump.cpp:94-128 | The result of the clone loop is a block that is live, has `t`'s slot count, and holds one fresh clone per cloned op. Each clone matches its original in opcode, type and slot, is flagged `no_opt` exactly when it is a control transfer, and, when it is a transfer, copies the labels. |
| `JumpSpec.ClonedLastLabels` | src/opt-jump.cpp:105-108 | When no old op names the clone as a successor, the clone's last op does not either. |
| `JumpSpec.FirstTransferOpcodes` | src/opt-jump.cpp:105 | Where the clone stops depends only on the opcodes. |
| `JumpSpec.CloneShapedKept` | src/opt-jump.cpp:241 | The shape of the clone survives the successor fix-up and the retargeting of the jump. |
| `OptJump.Proc.FixSuccessors` | src/opt-jump.cpp:135-238 | `SuccessorsFixedUp` holds. The successor on label 0 of the clone's last op is fixed up as `FixedUp` says, giving the ghost tables (`ops1`, `blocks1`). For a plain jump nothing else changes. Otherwise the successor on label 1 is then fixed up from those tables as `FixedUp` says. The tables stay well formed and the worklist stays valid. Every old op keeps its shape, and the clone keeps its layout. |
| `OptJump.Proc.FixClonedSuccessor` | src/opt-jump.cpp:141-237 | One successor of the clone is fixed up as `FixedUp` says. The tables stay well formed, every old op keeps its shape, every block but the clone keeps a dominator chain, and the clone keeps its layout. |
| `OptJump.Proc.FixSuccessor` | src/opt-jump.cpp:141-237 | The result is `FixedUp`: nothing changes when no live-in value of `s` is defined in `t`. Otherwise the merge phis are `InsertedPhis` and the fix-up map is propagated over the region `s` dominates. Every old op keeps its shape, other blocks keep their layout, and `s` keeps its chain. |
| `JumpSpec.FixedUpFrame` | src/opt-jump.cpp:141-237 | A fixed-up successor leaves the tables well formed. Every old op keeps its shape, every other block keeps its layout, and `s` keeps its dominator chain. |
| `OptJump.Proc.CountPhis` | src/opt-jump.cpp:146-151 | The count is the number of live-in values of `s` whose defining op belongs to `t`. |
| `JumpSpec.DefinedIn` | src/opt-jump.cpp:147-151 | The values of the live-in list whose defining op belongs to `t`, in order; there are at most as many as live-in values. |
| `JumpSpec.DefinedInMembers` | src/opt-jump.cpp:147-151 | A value is among those counted exactly when it is live-in at `s` and its defining op belongs to `t`. |
| `OptJump.Proc.InsertPhis` | src/opt-jump.cpp:163-198 | The tables become exactly `InsertedPhis`, and the fix-up map sends the `q`-th counted value to the `q`-th new phi. |
| `JumpSpec.InsertedPhis` | src/opt-jump.cpp:163-198 | The tables stay well formed. The op table gains one op per counted value, with the old ops as its prefix. Only block `s` changes, keeping its chain, live-in values and live flag, and no block's code shrinks. |
| `JumpSpec.InsertedPhiAt` | src/opt-jump.cpp:173-182 | The `q`-th new phi is op `|ops| + q`, at position `q` of `s`'s code. It is a phi of `s` typed like its value, owns slot `|args| + q`, and that slot lists it with the value's alternatives. |
| `OptJump.Proc.AddMergePhi` | src/opt-jump.cpp:173-193 | A fresh phi of `s`, typed like `v`, replaces placeholder `iPhi`. It owns a new last slot of `s`'s phi table, which holds `v`'s alternatives. |
| `OptJump.PhiAlternatives` | src/opt-jump.cpp:185-193 | The search over the copy-rename map returns `(v, t)` and `(copy of v, nb)` for the first pair whose source is `v`, or nothing when there is no such pair. |
| `JumpSpec.PhiAlts` | src/opt-jump.cpp:185-193 | The merge phi's alternatives for `v`: `v` from `t` and its copy from `nb` when the copy-rename map has a pair with source `v`, none otherwise. |
| `JumpSpec.PhiAltsOfClonedValue` | src/opt-jump.cpp:185-193 | For a value defined by a cloned non-transfer op of `t`, the merge phi has exactly two alternatives: the value from `t`, and its clone from `nb`. |
| `JumpSpec.PhiAltsOfUnclonedValue` | src/opt-jump.cpp:185-193 | A value the clone loop did not copy gets a phi with no alternatives. |
| `JumpSpec.MergePhiFor` | src/opt-jump.cpp:168-196 | Every live-in value of `s` defined in `t` is renamed by the fix-up map to a new phi listed in `s`'s code, typed like the value. That phi's slot holds the value's alternatives. |
| `JumpSpec.NotMergedKept` | src/opt-jump.cpp:171 | A value that is not live-in at `s`, or is not defined in `t`, is left alone by the fix-up map. |
| `JumpSpec.JumpMapLookup` | src/opt-jump.cpp:177 | The fix-up map sends a counted value to the phi made for its first occurrence. |
| `JumpSpec.JumpMapDisjoint` | src/opt-jump.cpp:177 | The fix-up map's destinations are new ops, so none of them is also a source. |
| `JumpSpec.JumpMap` | src/opt-jump.cpp:177 | The fix-up map: the `q`-th counted value goes to the `q`-th new phi. |
| `JumpSpec.FixedUp` | src/opt-jump.cpp:141-237 | One successor's fix-up: nothing changes when no live-in value of `s` is defined in `t`. Otherwise the merge phis are `InsertedPhis`, and the fix-up map is applied to the ops of `RegionOps` and to the phi tables of `RegionSuccs`. |
| `JumpSpec.SuccessorsFixedUp` | src/opt-jump.cpp:136-238 | The fix-up of the clone's successors: label 0 first, then label 1 unless the clone ends in a plain jump, each as `FixedUp` says. |
| `JumpSpec.RegionOps` | src/opt-jump.cpp:205-221 | The ops listed by the worklist blocks that `s` dominates. |
| `JumpSpec.RegionSuccs` | src/opt-jump.cpp:223-236 | The successors, as `Successors` gives them, of the terminals of the worklist blocks that `s` dominates. |
| `JumpSpec.PropagatedOps` | src/opt-jump.cpp:218-221 | The op table with every op of the region renamed by `RenameOp` and the others kept; the length is kept. |
| `JumpSpec.PropagatedBlocks` | src/opt-jump.cpp:226-236 | The block table with the phi tables of the given successors renamed by `RenameSlots` and everything else kept; the length is kept. |
| `JumpSpec.RenameSlots` | src/opt-jump.cpp:230-235 | A phi table with each alternative's value sent through the pairs in order and its tag kept; the table size is kept. |
| `JumpSpec.RenameAlt` | src/opt-jump.cpp:232-234 | One alternative: its value goes through `ChainRename`, its predecessor tag stays. |
| `OptJump.Proc.Propagate` | src/opt-jump.cpp:205-237 | Ops become `PropagatedOps` over the code of every worklist block that `s` dominates, reflexively. Blocks become `PropagatedBlocks` over the successors of those blocks' terminals. `live` is kept. |
| `OptJump.Proc.PropagateStep` | src/opt-jump.cpp:207-236 | One worklist entry is renamed when `s` dominates it and passed over otherwise, taking `PropagatedUpTo(i)` to `PropagatedUpTo(i + 1)`. |
| `OptJump.Proc.RenameRegionBlock` | src/opt-jump.cpp:215-236 | A worklist entry that `s` dominates is renamed, ops and successor phi tables, and the tables move from `PropagatedUpTo(i)` to `PropagatedUpTo(i + 1)`. `live` is kept. |
| `OptJump.Proc.RenameBlock` | src/opt-jump.cpp:218-236 | The ops of `rb` are renamed, and so are the phi tables of the successors its terminal names: none above `JMP`, label 0 for `JMP`, both labels below it. |
| `JumpSpec.Successors` | src/opt-jump.cpp:224-228 | The blocks a terminal transfers to: none above `JMP`, label 0 for `JMP`, both labels below it. |
| `OptJump.Proc.RenameCode` | src/opt-jump.cpp:218-221 | Exactly the ops listed in `rb`'s code are renamed through the map. Blocks are unchanged. |
| `OptJump.Proc.RenameSuccessorPhis` | src/opt-jump.cpp:230-235 | Every alternative value of every slot of block `x`'s phi table is sent through the pairs in order. Nothing else changes. |
| `OptJump.Proc.RenameSlotAlts` | src/opt-jump.cpp:231-235 | Every alternative of one slot is renamed, and the other slots and blocks are unchanged. |
| `OptJump.Proc.RenameAltValue` | src/opt-jump.cpp:232-235 | One alternative's value goes through the pairs in order (`ChainRename`), and its predecessor tag is kept. |
| `JumpSpec.RenameSlotsEffect` | src/opt-jump.cpp:230-235 | The phi fix-up keeps each slot's phi op, alternative count and predecessor tags, and gives each value its first-match rename. |
| `JumpSpec.RenameSlotsIdempotent` | src/opt-jump.cpp:230-235 | Renaming a phi table twice is renaming it once. A successor shared by two region blocks is therefore still renamed exactly once. |
| `JumpSpec.RegionOpsMembers` | src/opt-jump.cpp:205-221 | An op is renamed exactly when some worklist block that `s` dominates lists it. |
| `JumpSpec.RegionHoldsItsHead` | src/opt-jump.cpp:207-208 | When `s` is on the worklist and its chain ends with itself, its own ops are renamed. |
| `JumpSpec.PropagatedWellFormed` | src/opt-jump.cpp:205-237 | The fix-up rename keeps the table invariant. |
| `JumpSpec.PropagatedTerminal` | src/opt-jump.cpp:223-224 | The fix-up rename keeps every block's code and chain, and the shape of every terminal, so the successors it reads are the original ones. |
| `JumpSpec.PropagatedOpsUnion` | src/opt-jump.cpp:218-221 | Renaming one region and then another renames their union, so an op in two region blocks is renamed once. |
| `JumpSpec.PropagatedBlocksUnion` | src/opt-jump.cpp:226-236 | Renaming the phi tables of one set of blocks and then of another renames those of the union. |
| `Rename.Lookup` | src/opt-jump.cpp:220 | Returns the destination of the first pair whose source is `v`, or `v` when no pair has that source. The result is `v` or some destination. |
| `Rename.ChainRename` | src/opt-jump.cpp:232-235 | Every pair is applied in order, each seeing the value the earlier ones left. With no pair whose source is `v` the value is kept; otherwise the result is `v` or some destination. |
| `Rename.RenameOp` | src/opt-jump.cpp:102 | Only the operand list changes, each operand replaced by its lookup. Opcode, labels, flags and the phi slot stay. |
| `Rename.ChainRenameIsLookup` | src/opt-jump.cpp:232-235 | When no destination is also a source, applying the pairs in order equals the first-match lookup. |
| `Rename.LookupIdempotent` | src/opt-jump.cpp:220 | When no destination is also a source, looking up twice equals looking up once. |
| `Rename.RenameOpIdempotent` | src/opt-jump.cpp:220 | When no destination is also a source, renaming an op twice equals renaming it once. |
| `OptJump.Proc.AddOp` | src/opt-jump.cpp:97 | A fresh op of block `b` is appended to the op table and to `b`'s code, and its index is returned. |
| `OptJump.Proc.NewOp` | src/opt-jump.cpp:173-174 | A fresh op is appended to the op table and attached to no code. |
| `OptJump.Proc.NewPhiSlot` | src/opt-jump.cpp:180-182 | The phi's slot index becomes the old size of `s`'s phi table, and a slot naming the phi is appended. |
| `OptJump.Proc.AddAlternatives` | src/opt-jump.cpp:189-190 | The alternatives are appended to the last slot of `s`'s phi table. |

## Left out

- Diagnostics (`BJIT_LOG`, `debug()` and the `jump_debug` branches at lines 13, 22, 38-39, 47-48, 52, 57, 65-71, 77-83, 130, 155, 160, 200-203, 210-216, 254) produce output only, so they are not modelled.
- The internals of `addOp`, `newOp`, `breakEdge`, `Rename::operator()`, `Rename::add` and `args.add` are not part of this model. They are stand-in methods with the effect this file relies on. The forwarding block that `BreakEdge` builds is not put on the worklist, and no other block's dominator chain is updated to pass through it. So when an edge out of `t` is split, the clone's successor on that label is the forwarder, and its fix-up region is empty: the merge phis go into the forwarder, but no op of a worklist block is renamed, not even the phi alternatives of the block the forwarder jumps to.
- Dominator chains, predecessor lists and live-in lists are inputs taken as given. Their recomputation by later passes is not modelled, and the model does not check that they are consistent with the control flow.
- C++ reference invalidation (`jmp`, `jccHead`, `head`, `copy`, `fixBlock` are references into vectors that `addOp` and `breakEdge` may grow) is not modelled. The tables are `seq` fields that the methods reassign, and every entity is reached by index.
- The 16-bit narrowing of `nb` at line 55 is not modelled as a truncation. `OptJump.Proc.Rotate` and `OptJump.Proc.OptJump` require fewer than 65536 blocks, so `nb` itself is below 0x1_0000. That does not bound the up to two forwarding blocks that the pre-split adds after `nb` (lines 69 and 81): with 65535 blocks they are numbered 0x10000 and 0x10001. The width of the label fields and of the block id that `breakEdge` returns is outside this file. Block ids in the model are unbounded `nat`s, so no wrap-around of a forwarding block's id is modelled. Line 55 itself does not check the block count.
- The numeric opcode values are outside the file. Only their order relative to `jmp` matters here, plus the fact that `phi` lies above it.
- The assertions at lines 35 and 93 abort the process. The model turns them into the precondition `ScanAssertsHold`, which covers the blocks the scan reaches. The assertions at lines 120, 132 and 198 are proved. `OptJump.Proc.Rotate` also requires every op listed in a block's code to name that block as its owner (`Owned`).
- The region rename and the phi fix-up assume `Disjoint` fix-up maps, which the model proves: every destination is a new phi.
- The `continue`s of the scan become an if/else inside `OptJump.Proc.Scan`. The two-iteration loops over `k` (line 136) and `x` (line 226) are unrolled into two guarded calls.
- When the clone ends in a return or tail call (an op above `jmp`), line 139 still fixes up the blocks that `label[0]` and `label[1]` of that op name, whatever they hold. The clone loop copies labels only for ops up to `jmp` (line 105), so these labels are the ones `addOp` gives a fresh op. The internals of `addOp` are not part of this model. Its stand-in `OptJump.Proc.AddOp` gives fresh ops labels 0, so in the model both labels name the entry block.
- `renameCopy` is not cleared between scan iterations. This changes nothing, because the `break` at line 248 ends the scan after the first rotation.
- tests/test_add_ii.cpp compiles and runs native code, so it is outside this model.
- OptJump.Proc.Rotate: the tables between the stages are stated to exist (`ThroughStages`), not given as functions of the input. Each stage fixes its tables from the previous ones, so the final tables are determined, but `Rotated` does not spell them out as one closed form.
- OptJump.Proc.OptJump: states the rotation through `Rotated`, so it leaves the intermediate tables existential in the same way as `OptJump.Proc.Rotate`.
- JumpSpec.Redirect: when both labels of `t`'s terminal name the same successor and both edges are cut, the first `breakEdge` already retags every predecessor entry and phi tag naming `t` (`JumpSpec.Redirect` retags all of them, following the contract of `breakEdge`, under which every alternative tagged with the predecessor is retagged). The second cut then finds no entry for `t`, so the second forwarding block appears in no predecessor list and no phi tag. The body of `breakEdge` is not part of this model, so whether the original retags one entry per call is not settled here.
