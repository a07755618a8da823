/**
  The procedure's storage: a flat table of ops and a flat table of blocks,
  cross-referenced by index only.
 */
module IR {

  /** Opcodes are numbers. Values below JMP are two-successor conditional
      branches, JMP itself is the unconditional jump, and every value above
      JMP (returns, tail calls, arithmetic, phis, ...) has no successor
      label that this pass follows. The concrete numbering lives outside
      this model; only the order relative to JMP matters, and PHI > JMP. */
  const JMP: int := 16
  const PHI: int := 64

  /** The "no value" marker used as a placeholder op index. */
  const NO_VAL: nat := 0xffff

  /** The type tag given to ops that produce no value. */
  const NO_TYPE: int := 0

  /** The 64-bit immediate/operand payload of an op. It is read as the list
      of operand op indices; a phi keeps its slot index in the same payload,
      so copying the payload copies the slot index too. */
  datatype Payload = Payload(operands: seq<nat>, phiIndex: nat)

  datatype Op = Op(
    block: nat,      // owning block id
    opcode: int,
    typ: int,        // result type tag
    noOpt: bool,     // forbids this pass from rotating this jump
    i64: Payload,
    label0: nat,     // successor block ids, meaningful for control transfers
    label1: nat)

  /** A phi alternative: the value flowing in from the predecessor `src`. */
  datatype Alt = Alt(val: nat, src: nat)

  /** One entry of a block's phi table: the phi op and its alternatives. */
  datatype PhiSlot = PhiSlot(phiop: nat, alts: seq<Alt>)

  datatype Block = Block(
    code: seq<nat>,       // op indices, the last one a control transfer
    comeFrom: seq<nat>,   // predecessor block ids
    dom: seq<nat>,        // dominator chain from the entry block to self
    livein: seq<nat>,     // values live at block entry
    args: seq<PhiSlot>,   // phi table
    isLive: bool)

  /** A block as `blocks.resize` default-constructs it. */
  const EMPTY_BLOCK: Block := Block([], [], [], [], [], false)

  /** A phi slot as `args.resize` default-constructs it. */
  const EMPTY_SLOT: PhiSlot := PhiSlot(NO_VAL, [])

  /** The control transfers that name at least one successor: opcode <= JMP. */
  predicate HasTarget(opcode: int) { opcode <= JMP }

  /** The two-successor conditional branches: opcode < JMP. */
  predicate IsConditional(opcode: int) { opcode < JMP }

  /** `label[k]` of an op. */
  function Label(op: Op, k: nat): nat
    requires k < 2
  {
    if k == 0 then op.label0 else op.label1
  }

  /** Every op and phi index a block mentions is in range. */
  predicate BlockInRange(ops: seq<Op>, blk: Block)
  {
    && (forall i :: 0 <= i < |blk.code| ==>
          blk.code[i] < |ops| &&
          (ops[blk.code[i]].opcode == PHI ==> ops[blk.code[i]].i64.phiIndex < |blk.args|))
    && (forall i :: 0 <= i < |blk.livein| ==> blk.livein[i] < |ops|)
  }

  /** The labels that an op's opcode makes meaningful name blocks below
      `n`: label 0 of every control transfer, label 1 of a conditional
      branch. Other labels are never followed and may hold anything. */
  predicate LabelsInRange(op: Op, n: nat)
  {
    && (HasTarget(op.opcode) ==> op.label0 < n)
    && (IsConditional(op.opcode) ==> op.label1 < n)
  }

  /** The structural invariant of the two tables: every index stored in an op
      or a block, and every label the op's opcode makes meaningful, points
      into the table it refers to. Block 0 is the entry. */
  predicate WellFormed(ops: seq<Op>, blocks: seq<Block>)
  {
    && |blocks| > 0
    && (forall j :: 0 <= j < |ops| ==> LabelsInRange(ops[j], |blocks|))
    && (forall x :: 0 <= x < |blocks| ==> BlockInRange(ops, blocks[x]))
  }

  /** Every op listed in a block's code records that block as its owner. */
  predicate Owned(ops: seq<Op>, blocks: seq<Block>)
  {
    forall x, i :: 0 <= x < |blocks| && 0 <= i < |blocks[x].code| ==>
      blocks[x].code[i] < |ops| && ops[blocks[x].code[i]].block == x
  }

  /** Every block except `except` carries a dominator chain (it always
      contains at least the block itself). */
  predicate Chained(blocks: seq<Block>, except: nat)
  {
    forall x :: 0 <= x < |blocks| && x != except ==> |blocks[x].dom| > 0
  }

  /** Every block of the worklist exists and has code. */
  predicate LiveInRange(blocks: seq<Block>, live: seq<nat>)
  {
    forall i :: 0 <= i < |live| ==> live[i] < |blocks| && |blocks[live[i]].code| > 0
  }

  /** The op that ends block `b`. */
  function Terminal(ops: seq<Op>, blocks: seq<Block>, b: nat): Op
    requires WellFormed(ops, blocks) && b < |blocks| && |blocks[b].code| > 0
  {
    ops[blocks[b].code[|blocks[b].code| - 1]]
  }

  /** `a` strictly dominates `x`: `x`'s chain is longer than `a`'s and holds
      `a` at the position of `a`'s own depth. */
  predicate StrictlyDominates(blocks: seq<Block>, a: nat, x: nat)
    requires a < |blocks| && x < |blocks| && |blocks[a].dom| > 0
  {
    |blocks[x].dom| > |blocks[a].dom| && blocks[x].dom[|blocks[a].dom| - 1] == a
  }

  /** `a` dominates `x` (reflexively). */
  predicate Dominates(blocks: seq<Block>, a: nat, x: nat)
    requires a < |blocks| && x < |blocks| && |blocks[a].dom| > 0
  {
    |blocks[x].dom| >= |blocks[a].dom| && blocks[x].dom[|blocks[a].dom| - 1] == a
  }

  /** Two ops agree on everything except their operand list. */
  predicate SameShape(o: Op, p: Op)
  {
    && o.block == p.block && o.opcode == p.opcode && o.typ == p.typ
    && o.noOpt == p.noOpt && o.i64.phiIndex == p.i64.phiIndex
    && o.label0 == p.label0 && o.label1 == p.label1
  }

  /** Each block's code, chain, live-in set and live flag are kept, and its
      phi table keeps its size. */
  predicate SameLayout(b: Block, c: Block)
  {
    b.code == c.code && b.dom == c.dom && b.livein == c.livein && |b.args| == |c.args| && b.isLive == c.isLive
  }

  /** An op as the allocator hands it out for block `b`: default flags, an
      empty payload, both labels 0. */
  function FreshOp(opcode: int, typ: int, b: nat): Op
  {
    Op(b, opcode, typ, false, Payload([], 0), 0, 0)
  }

  /** The structural invariant survives a change that keeps the opcode and
      phi slot of every old op, keeps labels in range, and either keeps each
      block's layout or leaves it in range. */
  lemma WellFormedChange(ops: seq<Op>, blocks: seq<Block>, ops2: seq<Op>, blocks2: seq<Block>)
    requires WellFormed(ops, blocks)
    requires |ops2| >= |ops| && |blocks2| >= |blocks|
    requires forall j :: 0 <= j < |ops| ==>
               ops2[j].opcode == ops[j].opcode && ops2[j].i64.phiIndex == ops[j].i64.phiIndex
    requires forall j :: 0 <= j < |ops2| ==> LabelsInRange(ops2[j], |blocks2|)
    requires forall x :: 0 <= x < |blocks2| ==>
               (x < |blocks| && SameLayout(blocks[x], blocks2[x])) || BlockInRange(ops2, blocks2[x])
    ensures WellFormed(ops2, blocks2)
  {
    forall x | 0 <= x < |blocks2| ensures BlockInRange(ops2, blocks2[x]) {
      if !BlockInRange(ops2, blocks2[x]) {
        assert BlockInRange(ops, blocks[x]);
      }
    }
  }
}
