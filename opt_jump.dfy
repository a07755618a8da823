/**
  The block-rotation pass `Proc::opt_jump` over the procedure's op and
  block tables. It finds one block `b` whose plain jump enters a merge block
  `t` that `b` dominates, clones `t` into a fresh block reached only from
  `b`, adds merge phis at the clone's successors, renames their uses, and
  points `b`'s jump at the clone.
 */
module OptJump {
  import opened IR
  import opened Rename
  import opened JumpSpec

  /** The merge phi's alternatives for `v`: the search over `renameCopy`
      stops at the first pair whose source is `v` and adds `(v, t)` and
      `(copy of v, nb)`. */
  method PhiAlternatives(renameCopy: seq<Pair>, v: nat, t: nat, nb: nat) returns (alts: seq<Alt>)
    ensures alts == PhiAlts(renameCopy, v, t, nb)
  {
    alts := [];
    var r := 0;
    while r < |renameCopy|
      invariant 0 <= r <= |renameCopy|
      invariant forall k :: 0 <= k < r ==> renameCopy[k].src != v
    {
      if renameCopy[r].src == v {
        alts := alts + [Alt(renameCopy[r].src, t)];
        alts := alts + [Alt(renameCopy[r].dst, nb)];
        break;
      }
      r := r + 1;
    }
  }

  class Proc {
    var ops: seq<Op>
    var blocks: seq<Block>
    var live: seq<nat>

    constructor (ops: seq<Op>, blocks: seq<Block>, live: seq<nat>)
      ensures this.ops == ops && this.blocks == blocks && this.live == live
    {
      this.ops := ops;
      this.blocks := blocks;
      this.live := live;
    }

    // -------------------------------------------------------------------
    // Collaborators defined outside this file, given by their effect
    // -------------------------------------------------------------------

    /** `addOp`: a fresh op appended to the op table and to block `b`'s code. */
    method AddOp(opcode: int, typ: int, b: nat) returns (idx: nat)
      requires b < |blocks|
      modifies this
      ensures idx == old(|ops|) && ops == old(ops) + [FreshOp(opcode, typ, b)]
      ensures blocks == old(blocks)[b := old(blocks[b]).(code := old(blocks[b].code) + [idx])]
      ensures live == old(live)
    {
      idx := |ops|;
      ops := ops + [FreshOp(opcode, typ, b)];
      blocks := blocks[b := blocks[b].(code := blocks[b].code + [idx])];
    }

    /** `newOp`: a fresh op appended to the op table only. */
    method NewOp(opcode: int, typ: int, b: nat) returns (idx: nat)
      modifies this
      ensures idx == old(|ops|) && ops == old(ops) + [FreshOp(opcode, typ, b)]
      ensures blocks == old(blocks) && live == old(live)
    {
      idx := |ops|;
      ops := ops + [FreshOp(opcode, typ, b)];
    }

    /** `breakEdge(from, to)`: a new forwarding block `f` holding a single
        jump to `to`, with `to`'s predecessor entry and phi tags for `from`
        moved to `f`. The caller retargets `from`'s label. */
    method BreakEdge(from: nat, to: nat) returns (f: nat)
      requires from < |blocks| && to < |blocks|
      modifies this
      ensures f == old(|blocks|)
      ensures ops == old(ops) + [FreshOp(JMP, NO_TYPE, f).(label0 := to)]
      ensures blocks == old(blocks)[to := Redirect(old(blocks[to]), from, f)] +
                        [Forwarder(old(|ops|), from, old(blocks[from].dom), f, old(blocks[to].livein))]
      ensures live == old(live)
    {
      f := |blocks|;
      var j := |ops|;
      var fwd := Forwarder(j, from, blocks[from].dom, f, blocks[to].livein);
      ops := ops + [FreshOp(JMP, NO_TYPE, f).(label0 := to)];
      blocks := blocks[to := Redirect(blocks[to], from, f)] + [fwd];
    }

    // -------------------------------------------------------------------
    // The stages of one rotation
    // -------------------------------------------------------------------

    /** Route the edge from `t` through label `k` of op `th` via a new
        forwarding block, and retarget that label to it. */
    method SplitEdge(t: nat, th: nat, k: nat)
      requires WellFormed(ops, blocks) && t < |blocks| && th < |ops| && k < 2 && Label(ops[th], k) < |blocks|
      modifies this
      ensures live == old(live) && WellFormed(ops, blocks)
      ensures ops == old(ops)[th := if k == 0 then old(ops[th]).(label0 := old(|blocks|))
                                    else old(ops[th]).(label1 := old(|blocks|))] +
                     [FreshOp(JMP, NO_TYPE, old(|blocks|)).(label0 := old(Label(ops[th], k)))]
      ensures blocks == old(blocks)[old(Label(ops[th], k)) := Redirect(old(blocks[Label(ops[th], k)]), t, old(|blocks|))] +
                        [Forwarder(old(|ops|), t, old(blocks[t].dom), old(|blocks|), old(blocks[Label(ops[th], k)].livein))]
    {
      ghost var ops0, blocks0 := ops, blocks;
      var to := Label(ops[th], k);
      var f := BreakEdge(t, to);
      if k == 0 {
        ops := ops[th := ops[th].(label0 := f)];
      } else {
        ops := ops[th := ops[th].(label1 := f)];
      }
      assert BlockInRange(ops0, blocks0[to]);
      assert BlockInRange(ops, blocks[f]);
      forall j | 0 <= j < |ops| ensures LabelsInRange(ops[j], |blocks|) {
        if j < |ops0| && j != th {
          assert ops[j] == ops0[j];
        }
      }
      WellFormedChange(ops0, blocks0, ops, blocks);
    }

    /** The critical-edge pre-split on the terminal `th` of `t`: an edge is
        split, and that label of `th` replaced by the forwarding block, only
        when the successor has more than one predecessor; label 0 is
        considered for every control transfer, label 1 only for conditional
        branches. A split adds the forwarding block and its jump and
        redirects the successor; nothing else changes (`SplitFrame`). */
    method SplitCriticalEdges(t: nat)
      requires WellFormed(ops, blocks) && t < |blocks| && |blocks[t].code| > 0
      modifies this
      ensures live == old(live) && WellFormed(ops, blocks)
      ensures SplitDone(old(ops), old(blocks), t, old(|blocks|), ops, blocks)
      ensures |ops| == old(|ops|) + |blocks| - old(|blocks|)
      ensures SplitFrame(old(ops), old(blocks), t, ops, blocks)
      ensures forall x :: old(|blocks|) <= x < |blocks| ==> |blocks[x].dom| > 0
    {
      ghost var ops0, blocks0 := ops, blocks;
      var th := blocks[t].code[|blocks[t].code| - 1];
      assert BlockInRange(ops, blocks[t]);
      if ops[th].opcode <= JMP && |blocks[ops[th].label0].comeFrom| > 1 {
        SplitEdge(t, th, 0);
      }
      assert EdgeStep(ops0, blocks0, t, th, 0, ops, blocks);
      ghost var ops1, blocks1 := ops, blocks;
      EdgeStepFrame(ops0, blocks0, t, th, 0, ops1, blocks1);
      if ops0[th].opcode < JMP {
        assert blocks1[..|blocks0|][ops0[th].label1] == blocks1[ops0[th].label1];
      }
      if ops[th].opcode < JMP && |blocks[ops[th].label1].comeFrom| > 1 {
        SplitEdge(t, th, 1);
      }
      assert EdgeStep(ops1, blocks1, t, th, 1, ops, blocks);
      EdgeStepFrame(ops1, blocks1, t, th, 1, ops, blocks);
      EdgeStepsSplitFrame(ops0, blocks0, t, th, ops1, blocks1, ops, blocks);
      StepsChained(ops0, blocks0, t, th, ops1, blocks1, ops, blocks);
    }

    /** One step of the clone loop (lines 96-115): a fresh op in `nb`
        takes the opcode, type and payload of op `j`, its operands renamed
        through `ren`; a control transfer also takes both labels and is
        flagged `no_opt`. */
    method CloneOp(j: nat, nb: nat, ren: seq<Pair>) returns (c: nat)
      requires j < |ops| && nb < |blocks|
      modifies this
      ensures c == old(|ops|) && ops == old(ops) + [CloneOf(old(ops[j]), ren, nb)]
      ensures blocks == old(blocks)[nb := old(blocks[nb]).(code := old(blocks[nb].code) + [c])]
      ensures live == old(live)
    {
      var opi := ops[j];
      c := AddOp(opi.opcode, opi.typ, nb);
      // the clone takes `opi`'s payload, its operands renamed through `ren`
      ops := ops[c := ops[c].(i64 := opi.i64)];
      ops := ops[c := RenameOp(ren, ops[c])];
      if ops[c].opcode <= JMP {
        // a control transfer keeps its successors; its clone is never a candidate
        ops := ops[c := ops[c].(label0 := opi.label0, label1 := opi.label1, noOpt := true)];
      }
    }

    /** For a cloned phi `c` with slot `p` (lines 122-123): the clone's slot
        `p` records `c` and a copy of the alternatives of the original's
        slot `p`. */
    method CopyPhiSlot(t: nat, nb: nat, p: nat, c: nat)
      requires t < |blocks| && nb < |blocks| && p < |blocks[t].args| && p < |blocks[nb].args|
      modifies this
      ensures blocks == old(blocks)[nb := old(blocks[nb]).(args := old(blocks[nb].args)[p := PhiSlot(c, old(blocks[t].args[p].alts))])]
      ensures ops == old(ops) && live == old(live)
    {
      var alts := blocks[t].args[p].alts;
      blocks := blocks[nb := blocks[nb].(args := blocks[nb].args[p := blocks[nb].args[p].(phiop := c)])];
      assert blocks[nb].args[p].phiop == c;
      blocks := blocks[nb := blocks[nb].(args := blocks[nb].args[p := blocks[nb].args[p].(alts := alts)])];
      assert blocks[nb].args == old(blocks[nb].args)[p := PhiSlot(c, alts)];
    }

    /** One iteration of the clone loop (lines 96-127) on `code[i]`, `code`
        being `t`'s code: the clone is appended, and a cloned phi fills its
        own slot of `nb`'s phi table. */
    method CloneStep(ghost ops0: seq<Op>, ghost blocks0: seq<Block>, t: nat, nb: nat, i: nat,
                     renameCopy: seq<Pair>) returns (c: nat)
      requires WellFormed(ops0, blocks0) && t < |blocks0| && nb < |blocks0| && t != nb
      requires i < |blocks0[t].code| && PhisInRange(ops0, blocks0[t].code, blocks0[t].args, |blocks0[t].code|)
      requires ClonedUpTo(ops0, blocks0, t, nb, i, ops, blocks)
      requires renameCopy == CopyMap(blocks0[t].code, |ops0|, i)
      modifies this
      ensures live == old(live)
      ensures c == |ops0| + i && ClonedUpTo(ops0, blocks0, t, nb, i + 1, ops, blocks)
    {
      ghost var opsA, blocksA := ops, blocks;
      var j := blocks[t].code[i];
      assert ops[j] == ops0[j];
      c := CloneOp(j, nb, renameCopy);
      assert ops[c] == ClonedOp(ops0, blocks0[t].code, |ops0|, nb, i);
      if ops[c].opcode == PHI {
        // a cloned phi gets the alternatives of the original's slot
        var p := ops[c].i64.phiIndex;
        assert p == ops[j].i64.phiIndex;
        CopyPhiSlot(t, nb, p, c);
      }
      ClonedStep(ops0, blocks0, t, nb, i, opsA, blocksA, ops, blocks);
    }

    /** The clone loop: every op of `t`'s code up to and including the first
        control transfer is cloned into `nb` by `ClonedOp`, each cloned phi
        fills its own slot of `nb`'s phi table, and `renameCopy` collects
        `(original, clone)` for every clone but the transfer. */
    method CloneTarget(t: nat, nb: nat) returns (renameCopy: seq<Pair>)
      requires WellFormed(ops, blocks) && t < |blocks| && nb < |blocks| && t != nb
      requires |blocks[t].code| > 0 && blocks[nb].code == []
      requires blocks[nb].args == seq(|blocks[t].args|, _ => EMPTY_SLOT)
      modifies this
      ensures live == old(live) && WellFormed(ops, blocks)
      ensures Cloned(old(ops), old(blocks), t, nb, renameCopy, ops, blocks)
    {
      ghost var ops0, blocks0 := ops, blocks;
      var code := blocks[t].code;
      var base := |ops|;
      assert BlockInRange(ops, blocks[t]);
      assert PhisInRange(ops0, code, blocks[t].args, |code|);
      renameCopy := [];
      var i := 0;
      var done := false;
      while i < |code| && !done
        invariant 0 <= i <= |code|
        invariant ClonedUpTo(ops0, blocks0, t, nb, i, ops, blocks)
        invariant if done then 0 < i && FirstTransfer(ops0, code, 0) == i - 1 && renameCopy == CopyMap(code, base, i - 1)
                  else FirstTransfer(ops0, code, 0) >= i && renameCopy == CopyMap(code, base, i)
        invariant live == old(live)
      {
        var c := CloneStep(ops0, blocks0, t, nb, i, renameCopy);
        FirstTransferStep(ops0, code, i);
        assert ops[c] == ClonedOp(ops0, code, base, nb, i);
        if ops[c].opcode <= JMP {
          // the first control transfer ends the clone; nothing after it is reachable
          done := true;
        } else {
          CopyMapSnoc(code, base, i, c);
          renameCopy := renameCopy + [Pair(code[i], c)];
        }
        i := i + 1;
      }
      ClonedWellFormed(ops0, blocks0, t, nb, i, ops, blocks);
    }

    /** The number of live-in values of `s` whose defining op belongs to
        `t`: the merge phis `s` needs. */
    method CountPhis(t: nat, s: nat) returns (nPhi: nat)
      requires WellFormed(ops, blocks) && s < |blocks|
      ensures BlockInRange(ops, blocks[s]) && nPhi == |DefinedIn(ops, blocks[s].livein, t)|
    {
      assert BlockInRange(ops, blocks[s]);
      var livein := blocks[s].livein;
      nPhi := 0;
      var i := 0;
      while i < |livein|
        invariant 0 <= i <= |livein|
        invariant nPhi == |DefinedIn(ops, livein[..i], t)|
      {
        assert livein[..i + 1][..i] == livein[..i];
        // only values defined in `t` get a merge phi
        if ops[livein[i]].block == t {
          nPhi := nPhi + 1;
        }
        i := i + 1;
      }
      assert livein[..i] == livein;
    }

    /** A new slot at the end of `s`'s phi table for the phi `p`, whose
        slot index is set to it. */
    method NewPhiSlot(s: nat, p: nat)
      requires s < |blocks| && p < |ops|
      modifies this
      ensures ops == old(ops)[p := old(ops[p]).(i64 := old(ops[p]).i64.(phiIndex := old(|blocks[s].args|)))]
      ensures blocks == old(blocks)[s := old(blocks[s]).(args := old(blocks[s].args) + [PhiSlot(p, [])])]
      ensures live == old(live)
    {
      ops := ops[p := ops[p].(i64 := ops[p].i64.(phiIndex := |blocks[s].args|))];
      blocks := blocks[s := blocks[s].(args := blocks[s].args + [EMPTY_SLOT])];
      var last := |blocks[s].args| - 1;
      blocks := blocks[s := blocks[s].(args := blocks[s].args[last := blocks[s].args[last].(phiop := p)])];
      assert blocks[s].args == old(blocks[s].args) + [PhiSlot(p, [])];
    }

    /** `args.add`: the alternatives `alts` appended to the last slot of
        `s`'s phi table. */
    method AddAlternatives(s: nat, alts: seq<Alt>)
      requires s < |blocks| && |blocks[s].args| > 0
      modifies this
      ensures var args := old(blocks[s].args);
              var last := |args| - 1;
              blocks == old(blocks)[s := old(blocks[s]).(args := args[last := PhiSlot(args[last].phiop, args[last].alts + alts)])]
      ensures ops == old(ops) && live == old(live)
    {
      var last := |blocks[s].args| - 1;
      blocks := blocks[s := blocks[s].(args := blocks[s].args[last := blocks[s].args[last].(alts := blocks[s].args[last].alts + alts)])];
    }

    /** One merge phi (lines 173-193): a fresh phi op of `s` with the type
        of `v` replaces placeholder `iPhi` of `s`'s code, and gets a new
        slot holding `v`'s alternatives. */
    method AddMergePhi(t: nat, nb: nat, s: nat, renameCopy: seq<Pair>, v: nat, iPhi: nat) returns (p: nat)
      requires s < |blocks| && v < |ops| && iPhi < |blocks[s].code|
      modifies this
      ensures p == old(|ops|)
      ensures ops == old(ops) + [Op(s, PHI, old(ops[v].typ), false, Payload([], old(|blocks[s].args|)), 0, 0)]
      ensures blocks == old(blocks)[s := old(blocks[s]).(code := old(blocks[s].code)[iPhi := p],
                                                         args := old(blocks[s].args) + [PhiSlot(p, PhiAlts(renameCopy, v, t, nb))])]
      ensures live == old(live)
    {
      p := NewOp(PHI, ops[v].typ, s);
      blocks := blocks[s := blocks[s].(code := blocks[s].code[iPhi := p])];
      // `p` gets a slot of its own in `s`'s phi table
      NewPhiSlot(s, p);
      // `v` from `t`, and its clone from `nb`
      var alts := PhiAlternatives(renameCopy, v, t, nb);
      ghost var args1 := blocks[s].args;
      AddAlternatives(s, alts);
      assert [] + alts == alts;
      assert blocks[s].args == args1[|args1| - 1 := PhiSlot(p, alts)];
      assert blocks[s].args == old(blocks[s].args) + [PhiSlot(p, alts)];
      assert blocks[s] == old(blocks[s]).(code := old(blocks[s].code)[iPhi := p],
                                          args := old(blocks[s].args) + [PhiSlot(p, alts)]);
    }

    /** The phi loop: `nPhi` placeholders at the front of `s`'s code, then
        one merge phi per live-in value defined in `t`, in live-in order,
        each with a fresh slot; the fix-up map sends each such value to its
        phi. */
    method InsertPhis(t: nat, nb: nat, s: nat, renameCopy: seq<Pair>, nPhi: nat) returns (renameJump: seq<Pair>)
      requires WellFormed(ops, blocks) && s < |blocks|
      requires nPhi == |DefinedIn(ops, blocks[s].livein, t)|
      modifies this
      ensures (ops, blocks) == InsertedPhis(old(ops), old(blocks), s, t, nb, renameCopy)
      ensures renameJump == JumpMap(DefinedIn(old(ops), old(blocks[s].livein), t), old(|ops|))
      ensures live == old(live)
    {
      ghost var ops0, blocks0 := ops, blocks;
      var base := |ops|;
      var livein := blocks[s].livein;
      assert BlockInRange(ops, blocks[s]);
      // `nPhi` placeholders at the head of `s`'s code, one per merge phi
      blocks := blocks[s := blocks[s].(code := seq(nPhi, _ => NO_VAL) + blocks[s].code)];
      PhisStart(ops0, blocks0, s, t, nb, renameCopy, nPhi);
      renameJump := [];
      ghost var vs: seq<nat> := [];
      var iPhi := 0;
      var i := 0;
      while i < |livein|
        invariant 0 <= i <= |livein|
        invariant vs == DefinedIn(ops0, livein[..i], t) && iPhi == |vs|
        invariant PhisUpTo(ops0, blocks0, s, t, nb, renameCopy, nPhi, vs, ops, blocks)
        invariant renameJump == JumpMap(vs, base)
        invariant live == old(live)
      {
        var v := livein[i];
        DefinedInSnoc(ops0, livein, i, t);
        assert ops[v] == ops0[v];
        // only values defined in `t` get a merge phi
        if ops[v].block == t {
          DefinedInPrefix(ops0, livein, i + 1, t);
          ghost var opsA, blocksA := ops, blocks;
          assert |opsA| == base + |vs|;
          var p := AddMergePhi(t, nb, s, renameCopy, v, iPhi);
          // in `s`'s region, uses of `v` are renamed to `p`
          JumpMapSnoc(vs, v, base, p);
          renameJump := renameJump + [Pair(v, p)];
          PhisStep(ops0, blocks0, s, t, nb, renameCopy, nPhi, vs, v, opsA, blocksA, ops, blocks);
          vs := vs + [v];
          iPhi := iPhi + 1;
        }
        i := i + 1;
      }
      assert livein[..i] == livein;
      assert iPhi == nPhi;
      PhisDone(ops0, blocks0, s, t, nb, renameCopy, nPhi, ops, blocks);
    }

    /** `renameJump(ops[rop])` for every op of `rb`'s code (lines 218-221). */
    method RenameCode(rb: nat, ren: seq<Pair>)
      requires rb < |blocks| && Disjoint(ren)
      requires forall i :: 0 <= i < |blocks[rb].code| ==> blocks[rb].code[i] < |ops|
      modifies this
      ensures ops == PropagatedOps(old(ops), Elements(old(blocks[rb].code)), ren)
      ensures blocks == old(blocks) && live == old(live)
    {
      ghost var ops0 := ops;
      var code := blocks[rb].code;
      assert PropagatedOps(ops0, {}, ren) == ops0;
      var k := 0;
      while k < |code|
        invariant 0 <= k <= |code|
        invariant ops == PropagatedOps(ops0, Elements(code[..k]), ren)
        invariant blocks == old(blocks) && live == old(live)
      {
        PropagatedOpsAdd(ops0, Elements(code[..k]), ren, code[k]);
        ops := ops[code[k] := RenameOp(ren, ops[code[k]])];
        assert Elements(code[..k + 1]) == Elements(code[..k]) + {code[k]} by {
          assert code[..k + 1] == code[..k] + [code[k]];
        }
        k := k + 1;
      }
      assert code[..k] == code;
    }

    /** The innermost loop of the phi fix-up (lines 232-235): every pair of
        `ren`, in order, whose source is the current value of alternative
        `k` of slot `a` of block `x` replaces it by its destination. */
    method RenameAltValue(x: nat, a: nat, k: nat, ren: seq<Pair>)
      requires x < |blocks| && a < |blocks[x].args| && k < |blocks[x].args[a].alts|
      modifies this
      ensures var slot := old(blocks[x].args[a]);
              blocks == WithSlot(old(blocks), x, a, slot.(alts := slot.alts[k := RenameAlt(ren, slot.alts[k])]))
      ensures ops == old(ops) && live == old(live)
    {
      ghost var blocks0 := blocks;
      ghost var slot := blocks[x].args[a];
      ghost var src := slot.alts[k].src;
      assert slot.alts[k := Alt(slot.alts[k].val, src)] == slot.alts;
      WithSlotSame(blocks0, x, a);
      var r := 0;
      while r < |ren|
        invariant 0 <= r <= |ren|
        invariant ops == old(ops) && live == old(live)
        invariant x < |blocks| && a < |blocks[x].args| && k < |blocks[x].args[a].alts|
        invariant blocks == WithSlot(blocks0, x, a, slot.(alts := slot.alts[k := Alt(blocks[x].args[a].alts[k].val, src)]))
        invariant ChainRename(ren[r..], blocks[x].args[a].alts[k].val) == ChainRename(ren, slot.alts[k].val)
      {
        assert ren[r..][1..] == ren[r + 1..];
        if blocks[x].args[a].alts[k].val == ren[r].src {
          var cur := blocks[x].args[a];
          ghost var before := blocks;
          blocks := WithSlot(blocks, x, a, cur.(alts := cur.alts[k := cur.alts[k].(val := ren[r].dst)]));
          WithSlotTwice(blocks0, x, a, before[x].args[a], blocks[x].args[a]);
          assert cur.alts[k := cur.alts[k].(val := ren[r].dst)] == slot.alts[k := Alt(ren[r].dst, src)];
        }
        r := r + 1;
      }
      assert ren[r..] == [];
    }

    /** The middle loop of the phi fix-up (lines 231-235): every alternative
        of slot `a` of block `x` is renamed. */
    method RenameSlotAlts(x: nat, a: nat, ren: seq<Pair>)
      requires x < |blocks| && a < |blocks[x].args|
      modifies this
      ensures var slot := old(blocks[x].args[a]);
              blocks == WithSlot(old(blocks), x, a, RenameSlotPrefix(ren, slot, |slot.alts|))
      ensures ops == old(ops) && live == old(live)
    {
      ghost var blocks0 := blocks;
      var slot := blocks[x].args[a];
      assert RenameSlotPrefix(ren, slot, 0) == slot;
      WithSlotSame(blocks0, x, a);
      var k := 0;
      while k < |slot.alts|
        invariant 0 <= k <= |slot.alts|
        invariant ops == old(ops) && live == old(live)
        invariant blocks == WithSlot(blocks0, x, a, RenameSlotPrefix(ren, slot, k))
      {
        ghost var cur := blocks[x].args[a];
        RenameAltValue(x, a, k, ren);
        RenameSlotPrefixStep(ren, slot, k);
        WithSlotTwice(blocks0, x, a, cur, blocks[x].args[a]);
        k := k + 1;
      }
    }

    /** The phi fix-up of one successor `x` (lines 231-235): every
        alternative value of every slot of `x`'s phi table is sent through
        the pairs of `ren` in order. */
    method RenameSuccessorPhis(x: nat, ren: seq<Pair>)
      requires x < |blocks|
      modifies this
      ensures blocks == old(blocks)[x := old(blocks[x]).(args := RenameSlots(ren, old(blocks[x].args)))]
      ensures ops == old(ops) && live == old(live)
    {
      ghost var blocks0 := blocks;
      var args := blocks[x].args;
      assert RenameSlotsPrefix(ren, args, 0) == args;
      var a := 0;
      while a < |args|
        invariant 0 <= a <= |args|
        invariant ops == old(ops) && live == old(live)
        invariant blocks == blocks0[x := blocks0[x].(args := RenameSlotsPrefix(ren, args, a))]
      {
        RenameSlotAlts(x, a, ren);
        RenameSlotsPrefixStep(ren, args, a);
        a := a + 1;
      }
      RenameSlotsPrefixDone(ren, args);
    }

    /** The fix-up rename of one block `rb` (lines 215-235): its ops are
        renamed through `ren`, and so are the alternative values in the phi
        tables of the successors its terminal names. */
    method RenameBlock(rb: nat, ren: seq<Pair>)
      requires WellFormed(ops, blocks) && rb < |blocks| && |blocks[rb].code| > 0 && Disjoint(ren)
      modifies this
      ensures ops == PropagatedOps(old(ops), Elements(old(blocks[rb].code)), ren)
      ensures blocks == PropagatedBlocks(old(blocks), Successors(Terminal(old(ops), old(blocks), rb)), ren)
      ensures live == old(live)
    {
      ghost var ops0, blocks0 := ops, blocks;
      assert BlockInRange(ops, blocks[rb]);
      RenameCode(rb, ren);
      ghost var k := blocks0[rb].code[|blocks0[rb].code| - 1];
      assert k in Elements(blocks0[rb].code);
      assert ops[k] == RenameOp(ren, ops0[k]);
      var rjmp := ops[blocks[rb].code[|blocks[rb].code| - 1]];
      assert SameShape(Terminal(ops0, blocks0, rb), rjmp);
      assert PropagatedBlocks(blocks0, {}, ren) == blocks0;
      if rjmp.opcode > JMP {
        // a return or tail call has no successor to fix up
        return;
      }
      RenameSuccessorPhis(rjmp.label0, ren);
      PropagatedBlocksAdd(blocks0, {}, ren, rjmp.label0);
      assert {} + {rjmp.label0} == {rjmp.label0};
      if rjmp.opcode != JMP {
        RenameSuccessorPhis(rjmp.label1, ren);
        PropagatedBlocksAdd(blocks0, {rjmp.label0}, ren, rjmp.label1);
        assert {rjmp.label0} + {rjmp.label1} == {rjmp.label0, rjmp.label1};
      }
    }

    /** One dominated worklist entry `live[i]` of the fix-up rename: it is
        renamed by `RenameBlock`, and the tables move on from `i` entries
        visited to `i + 1`. */
    method RenameRegionBlock(ghost ops0: seq<Op>, ghost blocks0: seq<Block>, s: nat, ren: seq<Pair>,
                             worklist: seq<nat>, i: nat)
      requires WellFormed(ops0, blocks0) && LiveInRange(blocks0, worklist) && i < |worklist|
      requires s < |blocks0| && |blocks0[s].dom| > 0 && Disjoint(ren)
      requires PropagatedUpTo(ops0, blocks0, worklist, s, ren, i, ops, blocks)
      requires Dominates(blocks0, s, worklist[i])
      modifies this
      ensures live == old(live)
      ensures PropagatedUpTo(ops0, blocks0, worklist, s, ren, i + 1, ops, blocks)
    {
      var rb := worklist[i];
      ghost var region := RegionOps(blocks0, worklist[..i], s);
      ghost var succs := RegionSuccs(ops0, blocks0, worklist[..i], s);
      RegionStep(ops0, blocks0, worklist, i, s);
      PropagatedTerminal(ops0, blocks0, region, succs, ren, rb);
      RenameBlock(rb, ren);
      PropagatedOpsUnion(ops0, region, Elements(blocks0[rb].code), ren);
      PropagatedBlocksUnion(blocks0, succs, Successors(Terminal(ops0, blocks0, rb)), ren);
    }

    /** One worklist entry of the fix-up rename (lines 208-236): it is
        renamed when `s` dominates it and passed over otherwise. */
    method PropagateStep(ghost ops0: seq<Op>, ghost blocks0: seq<Block>, s: nat, ren: seq<Pair>,
                         worklist: seq<nat>, i: nat)
      requires WellFormed(ops0, blocks0) && LiveInRange(blocks0, worklist) && i < |worklist|
      requires s < |blocks0| && |blocks0[s].dom| > 0 && Disjoint(ren)
      requires PropagatedUpTo(ops0, blocks0, worklist, s, ren, i, ops, blocks)
      modifies this
      ensures live == old(live)
      ensures PropagatedUpTo(ops0, blocks0, worklist, s, ren, i + 1, ops, blocks)
    {
      PropagatedUpToLayout(ops0, blocks0, worklist, s, ren, i, ops, blocks);
      var rb := worklist[i];
      if |blocks[rb].dom| < |blocks[s].dom| || blocks[rb].dom[|blocks[s].dom| - 1] != s {
        // `rb` is not dominated by `s`, so it is skipped
        PropagatedUpToSkip(ops0, blocks0, worklist, s, ren, i, ops, blocks);
      } else {
        RenameRegionBlock(ops0, blocks0, s, ren, worklist, i);
      }
    }

    /** The fix-up rename (lines 205-237): every live block that `s`
        dominates is renamed by `RenameBlock`. */
    method Propagate(s: nat, ren: seq<Pair>)
      requires WellFormed(ops, blocks) && LiveInRange(blocks, live)
      requires s < |blocks| && |blocks[s].dom| > 0 && Disjoint(ren)
      modifies this
      ensures ops == PropagatedOps(old(ops), RegionOps(old(blocks), old(live), s), ren)
      ensures blocks == PropagatedBlocks(old(blocks), RegionSuccs(old(ops), old(blocks), old(live), s), ren)
      ensures live == old(live)
    {
      ghost var ops0, blocks0 := ops, blocks;
      var worklist := live;
      PropagatedUpToStart(ops0, blocks0, worklist, s, ren);
      var i := 0;
      while i < |worklist|
        invariant 0 <= i <= |worklist| && live == old(live)
        invariant PropagatedUpTo(ops0, blocks0, worklist, s, ren, i, ops, blocks)
      {
        PropagateStep(ops0, blocks0, s, ren, worklist, i);
        i := i + 1;
      }
      PropagatedUpToDone(ops0, blocks0, worklist, s, ren, ops, blocks);
    }

    /** The fix-up of one successor `s` of the clone (lines 141-237): with
        no live-in value of `s` defined in `t` nothing changes; otherwise
        the merge phis are inserted and the fix-up map propagated over the
        region `s` dominates. */
    method FixSuccessor(t: nat, nb: nat, s: nat, renameCopy: seq<Pair>)
      requires WellFormed(ops, blocks) && LiveInRange(blocks, live)
      requires s < |blocks| && |blocks[s].dom| > 0
      modifies this
      ensures live == old(live) && WellFormed(ops, blocks) && LiveInRange(blocks, live)
      ensures |ops| >= old(|ops|) && forall j :: 0 <= j < old(|ops|) ==> SameShape(old(ops[j]), ops[j])
      ensures |blocks| == old(|blocks|)
      ensures forall x :: 0 <= x < |blocks| && x != s ==> SameLayout(old(blocks[x]), blocks[x])
      ensures blocks[s].dom == old(blocks[s].dom)
      ensures FixedUp(old(ops), old(blocks), live, t, nb, s, renameCopy, ops, blocks)
    {
      var nPhi := CountPhis(t, s);
      if nPhi == 0 {
        // with no merge phi the fix-up rename is empty
        return;
      }
      ghost var ops0, blocks0 := ops, blocks;
      ghost var vs := DefinedIn(ops, blocks[s].livein, t);
      var renameJump := InsertPhis(t, nb, s, renameCopy, nPhi);
      JumpMapDisjoint(vs, |ops0|);
      Propagate(s, renameJump);
      FixedUpFrame(ops0, blocks0, live, t, nb, s, renameCopy, ops, blocks);
    }

    /** The new block `nb` for the copy of `t` (lines 54-91): it is
        appended, the critical edges out of `t` are split, and it is marked
        live with as many empty phi slots as `t` has. Among the old ops only
        `t`'s terminal changes, and only in its labels; no old op names
        `nb` as a successor. */
    method NewCopyBlock(t: nat) returns (nb: nat)
      requires WellFormed(ops, blocks) && LiveInRange(blocks, live) && Chained(blocks, |blocks|)
      requires t < |blocks| && |blocks[t].code| > 0
      modifies this
      ensures nb == old(|blocks|) && nb < |blocks| <= nb + 3
      ensures WellFormed(ops, blocks) && LiveInRange(blocks, live) && Chained(blocks, nb)
      ensures live == old(live) && |ops| + nb + 1 == old(|ops|) + |blocks|
      ensures blocks[t].code == old(blocks[t].code) && |blocks[t].args| == |old(blocks[t].args)|
      ensures blocks[nb] == OpenedCopy(|old(blocks[t].args)|)
      ensures SplitFrame(old(ops), old(blocks), t, ops, blocks)
      ensures forall j :: 0 <= j < old(|ops|) ==>
                && ops[j].opcode == old(ops[j]).opcode && ops[j].typ == old(ops[j]).typ
                && ops[j].i64.phiIndex == old(ops[j]).i64.phiIndex
                && (HasTarget(ops[j].opcode) ==> ops[j].label0 != nb)
                && (IsConditional(ops[j].opcode) ==> ops[j].label1 != nb)
      ensures SplitDone(old(ops), old(blocks), t, nb + 1, ops, blocks)
    {
      ghost var ops0, blocks0 := ops, blocks;
      nb := AppendAndSplit(t);
      ghost var blocksX := blocks;
      OpenCopy(t, nb);
      SplitFrameKept(ops0, blocks0, t, ops, blocksX, ops, blocks);
      SplitKeepsOps(ops0, blocks0, t, nb, ops, blocks);
      SplitFrameLayout(ops0, blocks0, t, ops, blocks, t);
    }

    /** The new block, still empty (`blocks.resize`). */
    method AppendEmpty() returns (nb: nat)
      requires WellFormed(ops, blocks) && LiveInRange(blocks, live) && Chained(blocks, |blocks|)
      modifies this
      ensures nb == old(|blocks|) && blocks == old(blocks) + [EMPTY_BLOCK]
      ensures ops == old(ops) && live == old(live)
      ensures WellFormed(ops, blocks) && LiveInRange(blocks, live) && Chained(blocks, nb)
    {
      ghost var blocks0 := blocks;
      nb := |blocks|;
      blocks := blocks + [EMPTY_BLOCK];
      WellFormedChange(ops, blocks0, ops, blocks);
    }

    /** The new block `nb` is appended, default-constructed, and the
        critical edges out of `t` are split (lines 54-84); the split leaves
        `nb` as it is. */
    method AppendAndSplit(t: nat) returns (nb: nat)
      requires WellFormed(ops, blocks) && LiveInRange(blocks, live) && Chained(blocks, |blocks|)
      requires t < |blocks| && |blocks[t].code| > 0
      modifies this
      ensures nb == old(|blocks|) && live == old(live)
      ensures SplitOfAppended(old(ops), old(blocks), t, ops, blocks)
      ensures WellFormed(ops, blocks) && LiveInRange(blocks, live) && Chained(blocks, nb)
    {
      ghost var ops0, blocks0 := ops, blocks;
      nb := AppendEmpty();
      ghost var blocksE := blocks;
      SplitCriticalEdges(t);
      assert WellFormed(ops, blocks);
      SplitOnAppended(ops0, blocks0, blocksE, t, ops, blocks, live);
    }

    /** Marks the new block `nb` live and gives it as many (empty) argument
        slots as `t` has (lines 88 and 91). */
    method OpenCopy(t: nat, nb: nat)
      requires WellFormed(ops, blocks) && LiveInRange(blocks, live) && Chained(blocks, nb)
      requires t < |blocks| && nb < |blocks| && blocks[nb].code == []
      modifies this
      ensures blocks == old(blocks)[nb := old(blocks[nb]).(isLive := true, args := seq(|old(blocks[t].args)|, _ => EMPTY_SLOT))]
      ensures ops == old(ops) && live == old(live)
      ensures WellFormed(ops, blocks) && LiveInRange(blocks, live) && Chained(blocks, nb)
    {
      ghost var blocks0 := blocks;
      blocks := blocks[nb := blocks[nb].(isLive := true, args := seq(|blocks[t].args|, _ => EMPTY_SLOT))];
      WellFormedChange(ops, blocks0, ops, blocks);
      assert LiveInRange(blocks, live);
      assert Chained(blocks, nb);
    }

    /** The copy half of a rotation (lines 54-129): the new block `nb` is
        prepared and the edges out of `t` are split, giving the tables
        (`opsS`, `blocksS`), and `t`'s code up to its first control transfer
        is cloned into `nb`, with `renameCopy` pairing originals and clones.
        Only ops of `t`'s code change among the old ones, and the clone's
        last op names no successor `nb`. */
    method CopyTarget(t: nat) returns (nb: nat, renameCopy: seq<Pair>, ghost opsS: seq<Op>, ghost blocksS: seq<Block>)
      requires WellFormed(ops, blocks) && LiveInRange(blocks, live) && Chained(blocks, |blocks|)
      requires t < |blocks| && |blocks[t].code| > 0
      modifies this
      ensures nb == old(|blocks|) && nb < |blocks| <= nb + 3
      ensures WellFormed(ops, blocks) && LiveInRange(blocks, live) && Chained(blocks, nb)
      ensures live == old(live)
      ensures CloneShaped(old(ops), old(blocks), t, nb, ops, blocks)
      ensures NoSelfLoop(ops, blocks, nb)
      ensures WellFormed(opsS, blocksS) && t < |blocksS| && nb < |blocksS| && blocksS[t].code == old(blocks[t].code)
      ensures blocksS[nb] == OpenedCopy(|old(blocks[t].args)|) && |opsS| + nb + 1 == old(|ops|) + |blocksS|
      ensures SplitDone(old(ops), old(blocks), t, nb + 1, opsS, blocksS) && SplitFrame(old(ops), old(blocks), t, opsS, blocksS)
      ensures Cloned(opsS, blocksS, t, nb, renameCopy, ops, blocks)
      ensures SplitDone(old(ops), old(blocks), t, nb + 1, ops, blocks) && SplitFrame(old(ops), old(blocks), t, ops, blocks)
    {
      ghost var ops0, blocks0 := ops, blocks;
      nb := NewCopyBlock(t);
      opsS, blocksS := ops, blocks;
      renameCopy := CloneTarget(t, nb);
      CloneShapedFromCloned(ops0, blocks0, t, nb, opsS, blocksS, ops, blocks);
      assert BlockInRange(ops0, blocks0[t]);
      ClonedLastLabels(opsS, blocksS, t, nb, |ops0|, ops, blocks);
      ClonedFrame(opsS, blocksS, t, nb, CloneLength(opsS, blocksS[t].code), ops, blocks, live);
      ghost var th := blocks0[t].code[|blocks0[t].code| - 1];
      assert ops[th] == opsS[th];
      SplitFrameKept(ops0, blocks0, t, opsS, blocksS, ops, blocks);
    }

    /** `FixSuccessor` applied to a successor `s` of the clone `nb`: the
        successor is fixed up as `FixedUp` says, every block but `nb` keeps a
        dominator chain, and the clone keeps its layout. */
    method FixClonedSuccessor(t: nat, nb: nat, s: nat, renameCopy: seq<Pair>)
      requires WellFormed(ops, blocks) && LiveInRange(blocks, live) && Chained(blocks, nb)
      requires nb < |blocks| && s < |blocks| && s != nb
      modifies this
      ensures live == old(live) && |blocks| == old(|blocks|)
      ensures WellFormed(ops, blocks) && LiveInRange(blocks, live) && Chained(blocks, nb)
      ensures |ops| >= old(|ops|) && forall j :: 0 <= j < old(|ops|) ==> SameShape(old(ops[j]), ops[j])
      ensures SameLayout(old(blocks[nb]), blocks[nb])
      ensures FixedUp(old(ops), old(blocks), live, t, nb, s, renameCopy, ops, blocks)
    {
      FixSuccessor(t, nb, s, renameCopy);
      assert Chained(blocks, nb);
    }

    /** The fix-up half of a rotation (lines 131-237): the successor on
        label 0 of the clone's last op, giving (`ops1`, `blocks1`), and
        unless that op is a plain jump the one on label 1 too, get their
        merge phis and fix-up rename, as `SuccessorsFixedUp` says. The shape
        of every old op and the layout of the clone are kept. */
    method FixSuccessors(t: nat, nb: nat, renameCopy: seq<Pair>) returns (ghost ops1: seq<Op>, ghost blocks1: seq<Block>)
      requires WellFormed(ops, blocks) && LiveInRange(blocks, live) && Chained(blocks, nb)
      requires NoSelfLoop(ops, blocks, nb)
      modifies this
      ensures live == old(live) && |blocks| == old(|blocks|)
      ensures WellFormed(ops, blocks) && LiveInRange(blocks, live) && Chained(blocks, nb)
      ensures |ops| >= old(|ops|) && forall j :: 0 <= j < old(|ops|) ==> SameShape(old(ops[j]), ops[j])
      ensures SameLayout(old(blocks[nb]), blocks[nb])
      ensures SuccessorsFixedUp(old(ops), old(blocks), live, t, nb, renameCopy, ops1, blocks1, ops, blocks)
    {
      assert BlockInRange(ops, blocks[nb]);
      var jcc := ops[blocks[nb].code[|blocks[nb].code| - 1]];
      ghost var ops0, blocks0 := ops, blocks;
      FixClonedSuccessor(t, nb, jcc.label0, renameCopy);
      ops1, blocks1 := ops, blocks;
      if jcc.opcode != JMP {
        FixClonedSuccessor(t, nb, jcc.label1, renameCopy);
        forall j | 0 <= j < |ops0| ensures SameShape(ops0[j], ops[j]) {
          assert SameShape(ops0[j], ops1[j]) && SameShape(ops1[j], ops[j]);
        }
      }
    }

    /** Set the jump `jmpIdx` to the copied block `nb` (line 241). */
    method Retarget(jmpIdx: nat, nb: nat)
      requires WellFormed(ops, blocks) && jmpIdx < |ops| && nb < |blocks|
      modifies this
      ensures ops == old(ops)[jmpIdx := old(ops[jmpIdx]).(label0 := nb)]
      ensures blocks == old(blocks) && live == old(live) && WellFormed(ops, blocks)
    {
      ghost var ops0 := ops;
      ops := ops[jmpIdx := ops[jmpIdx].(label0 := nb)];
      WellFormedChange(ops0, blocks, ops, blocks);
    }

    /** The second half of a rotation (lines 141-247), once `t` is split
        and cloned into `nb` (`opsS`, `blocksS` being the tables after the
        split): the clone's successors are fixed up, the jump `jmpIdx`
        ending `b` is retargeted to the clone and the clone is appended to
        the worklist. */
    method RelinkClone(b: nat, jmpIdx: nat, t: nat, nb: nat, renameCopy: seq<Pair>,
                       ghost ops0: seq<Op>, ghost blocks0: seq<Block>, ghost opsS: seq<Op>, ghost blocksS: seq<Block>)
      requires WellFormed(ops0, blocks0) && b < |blocks0| && |blocks0[b].code| > 0
      requires jmpIdx == blocks0[b].code[|blocks0[b].code| - 1] && jmpIdx < |ops0| && t == ops0[jmpIdx].label0
      requires t < |blocks0| && |blocks0[t].code| > 0 && nb == |blocks0|
      requires forall i :: 0 <= i < |blocks0[t].code| ==> blocks0[t].code[i] != jmpIdx
      requires SplitDone(ops0, blocks0, t, nb + 1, opsS, blocksS) && SplitFrame(ops0, blocks0, t, opsS, blocksS)
      requires WellFormed(opsS, blocksS) && t < |blocksS| && nb < |blocksS| && blocksS[t].code == blocks0[t].code
      requires blocksS[nb] == OpenedCopy(|blocks0[t].args|) && |opsS| + nb + 1 == |ops0| + |blocksS|
      requires Cloned(opsS, blocksS, t, nb, renameCopy, ops, blocks)
      requires CloneShaped(ops0, blocks0, t, nb, ops, blocks)
      requires nb < |blocks| <= nb + 3 && ops[jmpIdx] == ops0[jmpIdx]
      requires SplitDone(ops0, blocks0, t, nb + 1, ops, blocks)
      requires WellFormed(ops, blocks) && LiveInRange(blocks, live) && Chained(blocks, nb)
      requires NoSelfLoop(ops, blocks, nb)
      modifies this
      ensures WellFormed(ops, blocks) && live == old(live) + [nb]
      ensures Rotated(ops0, blocks0, old(live), b, ops, blocks)
    {
      ghost var opsC, blocksC := ops, blocks;
      var ops1, blocks1 := FixSuccessors(t, nb, renameCopy);
      ghost var opsF := ops;
      Retarget(jmpIdx, nb);
      live := live + [nb];
      RotatedFromStages(ops0, blocks0, old(live), b, jmpIdx, t, opsS, blocksS, renameCopy, opsC, blocksC,
                        ops1, blocks1, opsF, ops, blocks);
    }

    /** The rotation of the candidate jump ending block `b` (lines 54-247):
        the target `t` is cloned into the new block, the clone's successors
        are fixed up, the jump is retargeted to the clone and the clone is
        appended to the worklist. */
    method Rotate(b: nat)
      requires WellFormed(ops, blocks) && LiveInRange(blocks, live)
      requires Chained(blocks, |blocks|) && Owned(ops, blocks)
      requires b < |blocks| && |blocks[b].code| > 0 && IsCandidate(ops, blocks, b)
      requires |blocks[Terminal(ops, blocks, b).label0].code| > 0
      requires |blocks| < 0x1_0000
      modifies this
      ensures WellFormed(ops, blocks) && live == old(live) + [old(|blocks|)]
      ensures Rotated(old(ops), old(blocks), old(live), b, ops, blocks)
    {
      ghost var ops0, blocks0 := ops, blocks;
      var jmpIdx := blocks[b].code[|blocks[b].code| - 1];
      assert BlockInRange(ops, blocks[b]);
      var t := ops[jmpIdx].label0;
      assert t != b;
      // the jump belongs to `b`, so it is not among `t`'s ops
      assert jmpIdx !in blocks[t].code;
      assert forall i :: 0 <= i < |blocks[t].code| ==> blocks[t].code[i] != jmpIdx;
      // the precondition keeps `nb` below 0x1_0000
      ghost var th := blocks[t].code[|blocks[t].code| - 1];
      assert jmpIdx != th;
      var nb, renameCopy, opsS, blocksS := CopyTarget(t);
      assert ops[..|ops0|][jmpIdx] == ops[jmpIdx];
      RelinkClone(b, jmpIdx, t, nb, renameCopy, ops0, blocks0, opsS, blocksS);
    }

    /** The scan of the worklist (lines 26-52): the position of the first
        block whose terminal is a candidate jump, evaluating the two
        assertions on the way. */
    method Scan() returns (r: Option<nat>)
      requires WellFormed(ops, blocks) && LiveInRange(blocks, live) && Chained(blocks, |blocks|)
      requires ScanAssertsHold(ops, blocks, live)
      ensures r == FirstCandidate(ops, blocks, live, 0)
      ensures r.Some? ==> |blocks[Terminal(ops, blocks, live[r.value]).label0].code| > 0
    {
      var i := 0;
      while i < |live|
        invariant 0 <= i <= |live|
        invariant forall j :: 0 <= j < i ==> !IsCandidate(ops, blocks, live[j])
      {
        var b := live[i];
        assert BlockInRange(ops, blocks[b]);
        var jmp := ops[blocks[b].code[|blocks[b].code| - 1]];
        var candidate := false;
        // a plain jump that is not marked `noOpt`
        if jmp.opcode == JMP && !jmp.noOpt {
          assert ScanAsserts(ops, blocks, b);
          assert |blocks[jmp.label0].comeFrom| > 0;
          // whose target has more than one predecessor and is strictly dominated by `b`
          candidate := |blocks[jmp.label0].comeFrom| != 1 &&
                       |blocks[jmp.label0].dom| > |blocks[b].dom| && blocks[jmp.label0].dom[|blocks[b].dom| - 1] == b;
        }
        if candidate {
          assert IsCandidate(ops, blocks, b);
          assert ScanAsserts(ops, blocks, b);
          return Some(i);
        }
        assert !IsCandidate(ops, blocks, b);
        i := i + 1;
      }
      return None;
    }

    /** The pass (lines 15-259): rotate the jump ending the first candidate
        block of the worklist, if there is one, and report progress,
        clearing the worklist so that the caller rebuilds it; with no
        candidate nothing changes. */
    method OptJump() returns (progress: bool)
      requires WellFormed(ops, blocks) && LiveInRange(blocks, live)
      requires Chained(blocks, |blocks|) && Owned(ops, blocks)
      requires ScanAssertsHold(ops, blocks, live)
      requires |blocks| < 0x1_0000
      modifies this
      ensures WellFormed(ops, blocks)
      ensures progress <==> FirstCandidate(old(ops), old(blocks), old(live), 0).Some?
      ensures !progress ==> ops == old(ops) && blocks == old(blocks) && live == old(live)
      ensures progress ==> live == []
      ensures progress ==>
                Rotated(old(ops), old(blocks), old(live), old(live)[FirstCandidate(old(ops), old(blocks), old(live), 0).value], ops, blocks)
    {
      progress := false;
      var c := Scan();
      if c.Some? {
        Rotate(live[c.value]);
        progress := true;
        // the emptied worklist makes the caller recompute its analyses
        live := [];
      }
    }
  }
}
