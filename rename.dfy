/**
  The operand rename utility: an ordered list of (source, destination)
  pairs. Appending a pair is `seq` concatenation.
 */
module Rename {
  import opened IR

  datatype Pair = Pair(src: nat, dst: nat)

  /** Some pair of `ren` has source `v`. */
  predicate HasSource(ren: seq<Pair>, v: nat)
  {
    exists j :: 0 <= j < |ren| && ren[j].src == v
  }

  /** No destination of `ren` is also a source of `ren`: renaming once is
      then final. */
  predicate Disjoint(ren: seq<Pair>)
  {
    forall i, j :: 0 <= i < |ren| && 0 <= j < |ren| ==> ren[i].dst != ren[j].src
  }

  /** First-match lookup: the destination of the first pair whose source is
      `v`, or `v` itself when no pair has that source. */
  function Lookup(ren: seq<Pair>, v: nat): (r: nat)
    ensures forall j :: (0 <= j < |ren| && ren[j].src == v &&
                         forall k :: 0 <= k < j ==> ren[k].src != v) ==> r == ren[j].dst
    ensures !HasSource(ren, v) ==> r == v
    ensures r == v || exists j :: 0 <= j < |ren| && r == ren[j].dst
    decreases |ren|
  {
    if ren == [] then v
    else if ren[0].src == v then ren[0].dst
    else
      var r := Lookup(ren[1..], v);
      assert forall j :: 1 <= j < |ren| ==> ren[j] == ren[1..][j - 1];
      assert HasSource(ren[1..], v) ==> HasSource(ren, v);
      r
  }

  /** Sequential application of every pair in order, as the phi-alternative
      loop does it: each pair whose source equals the current value replaces
      it, and later pairs see the replaced value. */
  function ChainRename(ren: seq<Pair>, v: nat): (r: nat)
    ensures !HasSource(ren, v) ==> r == v
    ensures r == v || exists j :: 0 <= j < |ren| && r == ren[j].dst
    decreases |ren|
  {
    if ren == [] then v
    else
      var w := if v == ren[0].src then ren[0].dst else v;
      var r := ChainRename(ren[1..], w);
      assert forall j :: 1 <= j < |ren| ==> ren[j] == ren[1..][j - 1];
      assert HasSource(ren[1..], v) ==> HasSource(ren, v);
      r
  }

  /** Rename the operand list through `ren`. */
  function RenameOperands(ren: seq<Pair>, xs: seq<nat>): (ys: seq<nat>)
    ensures |ys| == |xs|
    ensures forall i :: 0 <= i < |xs| ==> ys[i] == Lookup(ren, xs[i])
  {
    seq(|xs|, i requires 0 <= i < |xs| => Lookup(ren, xs[i]))
  }

  /** Apply the rename to an op: only its operand references change; its
      labels and its phi slot index are left alone. */
  function RenameOp(ren: seq<Pair>, op: Op): (r: Op)
    ensures SameShape(op, r)
    ensures r.i64.operands == RenameOperands(ren, op.i64.operands)
  {
    op.(i64 := op.i64.(operands := RenameOperands(ren, op.i64.operands)))
  }

  /** With no destination also a source, the sequential loop over all pairs
      gives exactly the first-match result. */
  lemma {:induction false} ChainRenameIsLookup(ren: seq<Pair>, v: nat)
    requires Disjoint(ren)
    ensures ChainRename(ren, v) == Lookup(ren, v)
    decreases |ren|
  {
    if ren != [] {
      var tail := ren[1..];
      assert forall j :: 0 <= j < |tail| ==> tail[j] == ren[j + 1];
      assert Disjoint(tail);
      if v == ren[0].src {
        var d := ren[0].dst;
        assert !HasSource(tail, d) by {
          forall j | 0 <= j < |tail| ensures tail[j].src != d {
            assert ren[0].dst != ren[j + 1].src;
          }
        }
        ChainRenameIsLookup(tail, d);
      } else {
        ChainRenameIsLookup(tail, v);
      }
    }
  }

  /** Renaming twice is renaming once, when no destination is a source. */
  lemma LookupIdempotent(ren: seq<Pair>, v: nat)
    requires Disjoint(ren)
    ensures Lookup(ren, Lookup(ren, v)) == Lookup(ren, v)
  {
    var r := Lookup(ren, v);
    if r != v {
      var j :| 0 <= j < |ren| && r == ren[j].dst;
      assert !HasSource(ren, r) by {
        forall k | 0 <= k < |ren| ensures ren[k].src != r {
          assert ren[j].dst != ren[k].src;
        }
      }
    }
  }

  /** Applying the rename to an op twice equals applying it once. */
  lemma RenameOpIdempotent(ren: seq<Pair>, op: Op)
    requires Disjoint(ren)
    ensures RenameOp(ren, RenameOp(ren, op)) == RenameOp(ren, op)
  {
    var xs := op.i64.operands;
    var once := RenameOperands(ren, xs);
    var twice := RenameOperands(ren, once);
    forall i | 0 <= i < |xs| ensures twice[i] == once[i] {
      LookupIdempotent(ren, xs[i]);
    }
    assert twice == once;
  }
}
