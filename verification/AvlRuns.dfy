/** Whole runs of inserts and removals on the AVL index, all as written. */
module AvlRuns {
  import opened AvlNodes
  import opened AvlIndex

  datatype Op = Put(n: AvlNode) | Take(n: AvlNode)

  /** The nodes an index of `s` should hold after `ops`. */
  ghost function After(s: set<AvlNode>, ops: seq<Op>): set<AvlNode> {
    if ops == [] then s
    else
      var r, op := After(s, ops[..|ops| - 1]), ops[|ops| - 1];
      if op.Put? then r + {op.n} else r - {op.n}
  }

  /** Only ids that are not in the index are put, and only its nodes are taken. */
  ghost predicate Playable(s: set<AvlNode>, ops: seq<Op>)
    decreases ops
  {
    ops == [] ||
    var op := ops[0];
    if op.Put? then op.n !in s && (forall v :: v in s ==> v.id != op.n.id) && Playable(s + {op.n}, ops[1..])
    else op.n in s && Playable(s - {op.n}, ops[1..])
  }

  /** A node is freed when it is taken: every node put is a new one. */
  ghost predicate AllNew(s: set<AvlNode>, ops: seq<Op>) {
    forall j :: 0 <= j < |ops| && ops[j].Put? ==> ops[j].n !in s && forall i :: 0 <= i < j ==> ops[i].n != ops[j].n
  }

  lemma AfterOne(s: set<AvlNode>, ops: seq<Op>, i: nat)
    requires i < |ops|
    ensures After(s, ops[..i + 1]) ==
              if ops[i].Put? then After(s, ops[..i]) + {ops[i].n} else After(s, ops[..i]) - {ops[i].n}
  {
    assert ops[..i + 1][..i] == ops[..i];
  }

  lemma PlayOne(s: set<AvlNode>, ops: seq<Op>, i: nat)
    requires i < |ops| && Playable(s, ops[i..])
    ensures var op := ops[i];
            if op.Put? then op.n !in s && (forall v :: v in s ==> v.id != op.n.id) && Playable(s + {op.n}, ops[i + 1..])
            else op.n in s && Playable(s - {op.n}, ops[i + 1..])
  {
    assert ops[i..][0] == ops[i] && ops[i..][1..] == ops[i + 1..];
  }

  lemma NoneYet(s: set<AvlNode>, ops: seq<Op>)
    requires AllNew(s, ops)
    ensures After(s, ops[..0]) == s && ops[0..] == ops && ops[..|ops|] == ops
    ensures forall j :: 0 <= j < |ops| && ops[j].Put? ==> ops[j].n !in s
    ensures forall i, j :: 0 <= i < j < |ops| && ops[j].Put? ==> ops[i].n != ops[j].n
  {
  }

  /** A run of any inserts and removals, with unbalanced trees and stale heights
      as earlier removals leave them.  After every call the nodes are the ones
      they should be, in order, with pointers that agree.  The run stops early
      only at an insert that follows a null pointer or a removal of the only node. */
  method Play(x: AvlIndex, ops: seq<Op>) returns (ok: bool, calls: nat)
    requires x.Intact() && Playable(x.repr, ops) && AllNew(x.repr, ops)
    requires forall i :: 0 <= i < |ops| && ops[i].Put? ==> x.Unlinked(ops[i].n)
    modifies x, x.repr, set i | 0 <= i < |ops| :: ops[i].n
    ensures x.Intact() && calls <= |ops| && x.repr == After(old(x.repr), ops[..calls])
    ensures ok ==> calls == |ops|
    ensures !ok ==> calls > 0 && (ops[calls - 1].Take? ==> x.node_count == 0)
  {
    hide *;
    ok, calls := true, 0;
    NoneYet(x.repr, ops);
    while calls < |ops|
      invariant calls <= |ops|
      invariant x.Intact() && x.repr == After(old(x.repr), ops[..calls])
      invariant Playable(x.repr, ops[calls..])
      invariant forall j :: calls <= j < |ops| && ops[j].Put? ==> ops[j].n !in x.repr && x.Unlinked(ops[j].n)
      invariant x.repr <= old(x.repr) + set i | 0 <= i < |ops| :: ops[i].n
    {
      PlayOne(x.repr, ops, calls);
      AfterOne(old(x.repr), ops, calls);
      var op := ops[calls];
      if op.Put? {
        ghost var k;
        ok, k := x.Insert(op.n);
      } else {
        ghost var p, v, k;
        ok, p, v, k := x.RemoveAsWritten(op.n);
      }
      calls := calls + 1;
      if !ok {
        return;
      }
    }
  }
}
