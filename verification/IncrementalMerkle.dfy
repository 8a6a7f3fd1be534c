/** libraries/chain/include/eosio/chain/incremental_merkle.hpp: appending to a merkle tree while
    keeping only the roots of its complete subtrees. */
module IncrementalMerkle {
  import opened Bits
  import opened Merkle
  import opened TreeDepth

  // ---- complete subtrees ----

  /** The parents of complete pairs; an odd last node has none yet. */
  function FullPairs(h: Hash, nodes: seq<Digest>): (r: seq<Digest>)
    ensures |r| == |nodes| / 2
    decreases |nodes|
  {
    if |nodes| < 2 then [] else [Combine(h, nodes[0], nodes[1])] + FullPairs(h, nodes[2..])
  }

  /** The roots of the maximal complete subtrees, smallest first: one per binary one of the count. */
  function Frontier(h: Hash, nodes: seq<Digest>): (r: seq<Digest>)
    decreases |nodes|
  {
    if nodes == [] then []
    else (if |nodes| % 2 == 1 then [nodes[|nodes| - 1]] else []) + Frontier(h, FullPairs(h, nodes))
  }

  function PopCount(n: nat): (r: nat) {
    if n == 0 then 0 else n % 2 + PopCount(n / 2)
  }

  /** What _active_nodes holds after the given leaves: the frontier, then the root unless the
      frontier is the root alone. */
  function Active(h: Hash, leaves: seq<Digest>): (r: seq<Digest>) {
    var f := Frontier(h, leaves);
    if |f| <= 1 then f else f + [MerkleRoot(h, leaves)]
  }

  /** The parent of a node appended after `nodes`: its right sibling is itself when it is a left node. */
  function Parent(h: Hash, nodes: seq<Digest>, top: Digest): (r: Digest) {
    if |nodes| % 2 == 0 then Combine(h, top, top) else Combine(h, nodes[|nodes| - 1], top)
  }

  /** Appending one node changes one level only in its last entry. */
  lemma {:induction false} LevelAppend(h: Hash, nodes: seq<Digest>, top: Digest)
    ensures Level(h, nodes + [top]) == FullPairs(h, nodes) + [Parent(h, nodes, top)]
    decreases |nodes|
  {
    hide Combine;
    if |nodes| >= 2 {
      var rest := nodes[2..];
      LevelAppend(h, rest, top);
      assert (nodes + [top])[2..] == rest + [top];
      assert Parent(h, rest, top) == Parent(h, nodes, top);
    } else if |nodes| == 1 {
      assert (nodes + [top])[2..] == [];
    }
  }

  lemma {:induction false} PairsAppend(h: Hash, nodes: seq<Digest>, top: Digest)
    ensures FullPairs(h, nodes + [top])
            == if |nodes| % 2 == 0 then FullPairs(h, nodes) else FullPairs(h, nodes) + [Parent(h, nodes, top)]
    decreases |nodes|
  {
    hide Combine;
    if |nodes| >= 2 {
      var rest := nodes[2..];
      PairsAppend(h, rest, top);
      assert (nodes + [top])[2..] == rest + [top];
      assert Parent(h, rest, top) == Parent(h, nodes, top);
    } else if |nodes| == 1 {
      assert (nodes + [top])[2..] == [];
    }
  }

  /** The root after an append, computed one level up. */
  lemma RootAppend(h: Hash, nodes: seq<Digest>, top: Digest)
    requires nodes != []
    ensures MerkleRoot(h, nodes + [top]) == MerkleRoot(h, FullPairs(h, nodes) + [Parent(h, nodes, top)])
  {
    hide Combine, Level, MerkleRoot, Parent;
    MerkleStep(h, nodes + [top]);
    LevelAppend(h, nodes, top);
  }

  lemma FrontierStep(h: Hash, nodes: seq<Digest>)
    requires nodes != []
    ensures |nodes| % 2 == 1 ==> Frontier(h, nodes) == [nodes[|nodes| - 1]] + Frontier(h, FullPairs(h, nodes))
    ensures |nodes| % 2 == 0 ==> Frontier(h, nodes) == Frontier(h, FullPairs(h, nodes))
  {
    hide Combine;
  }

  /** A left node joins the frontier; a right node merges with the smallest subtree in it. */
  lemma FrontierAppend(h: Hash, nodes: seq<Digest>, top: Digest)
    ensures |nodes| % 2 == 0 ==> Frontier(h, nodes + [top]) == [top] + Frontier(h, FullPairs(h, nodes))
    ensures |nodes| % 2 == 1 ==>
              Frontier(h, nodes + [top]) == Frontier(h, FullPairs(h, nodes) + [Parent(h, nodes, top)])
  {
    hide Combine, Frontier, FullPairs, Parent;
    FrontierStep(h, nodes + [top]);
    PairsAppend(h, nodes, top);
  }

  lemma {:induction false} FrontierSize(h: Hash, nodes: seq<Digest>)
    ensures |Frontier(h, nodes)| == PopCount(|nodes|)
    decreases |nodes|
  {
    hide Combine, FullPairs;
    if nodes != [] { FrontierSize(h, FullPairs(h, nodes)); }
  }

  lemma {:induction false} LevelOfEven(h: Hash, nodes: seq<Digest>)
    requires |nodes| % 2 == 0
    ensures Level(h, nodes) == FullPairs(h, nodes)
    decreases |nodes|
  {
    hide Combine;
    if nodes != [] { LevelOfEven(h, nodes[2..]); }
  }

  lemma {:induction false} FrontierNonEmpty(h: Hash, nodes: seq<Digest>)
    ensures Frontier(h, nodes) == [] <==> nodes == []
    decreases |nodes|
  {
    hide Combine, FullPairs;
    if nodes != [] { FrontierNonEmpty(h, FullPairs(h, nodes)); }
  }

  /** A frontier of one subtree is the whole tree, so it is the root. */
  lemma {:induction false} SingleFrontier(h: Hash, nodes: seq<Digest>)
    requires |Frontier(h, nodes)| == 1
    ensures Frontier(h, nodes) == [MerkleRoot(h, nodes)]
    decreases |nodes|
  {
    hide Combine, FullPairs, Level, Frontier;
    FrontierNonEmpty(h, nodes);
    FrontierStep(h, nodes);
    if |nodes| % 2 == 0 {
      SingleFrontier(h, FullPairs(h, nodes));
      LevelOfEven(h, nodes);
    } else {
      FrontierNonEmpty(h, FullPairs(h, nodes));
    }
  }

  /** The last active node is the root, and there is at most one more node than subtrees. */
  lemma ActiveEndsInRoot(h: Hash, leaves: seq<Digest>)
    requires leaves != []
    ensures Active(h, leaves) != [] && Active(h, leaves)[|Active(h, leaves)| - 1] == MerkleRoot(h, leaves)
    ensures |Active(h, leaves)| == if PopCount(|leaves|) == 1 then 1 else PopCount(|leaves|) + 1
  {
    hide Frontier, MerkleRoot, PopCount;
    FrontierNonEmpty(h, leaves);
    FrontierSize(h, leaves);
    if |Frontier(h, leaves)| == 1 { SingleFrontier(h, leaves); }
  }

  // ---- the class ----

  /** incremental_merkle_impl. `leaves` records every digest appended. */
  class IncrementalMerkleTree {
    const h: Hash
    var nodeCount: nat
    var activeNodes: seq<Digest>
    ghost var leaves: seq<Digest>

    ghost predicate Valid()
      reads this
    {
      nodeCount == |leaves| < TWO_64 && activeNodes == Active(h, leaves)
    }

    constructor (h: Hash)
      ensures Valid() && leaves == [] && this.h == h
    {
      this.h := h;
      nodeCount := 0;
      activeNodes := [];
      leaves := [];
    }

    /** append: the new root is the merkle root over every leaf so far. The count is a uint64_t; the
        append that wraps it to zero forgets all earlier leaves. */
    method Append(digest: Digest) returns (root: Digest)
      requires Valid()
      modifies this
      ensures leaves == old(leaves) + [digest]
      ensures |leaves| < TWO_64 ==> Valid() && root == MerkleRoot(h, leaves)
      ensures |leaves| == TWO_64 ==> nodeCount == 0 && activeNodes == [digest] && root == digest
    {
      hide Combine, Frontier, FullPairs, MerkleRoot, Parent, Active, MaxDepth, BitLength, BitAnd, Shr;
      var partial := false;
      var maxDepth := MaxDepth((nodeCount + 1) % TWO_64);
      var currentDepth := maxDepth - 1;
      var index := nodeCount;
      var top := digest;
      var iter := 0;
      var updated: seq<Digest> := [];
      ghost var counted := nodeCount + 1 < TWO_64;
      if counted { MaxDepthIs(nodeCount + 1); } else { MaxDepthOfZero(); }

      ghost var nodes := leaves;
      ghost var all := leaves + [digest];
      ActiveStartsWithFrontier(h, leaves);
      while currentDepth > 0
        invariant !counted ==> currentDepth <= 0 && top == digest && updated == []
        invariant counted ==> index == |nodes| && currentDepth == BitLength(index)
        invariant counted ==> iter + |Frontier(h, nodes)| <= |activeNodes| && Frontier(h, nodes) <= activeNodes[iter..]
        invariant counted ==> MerkleRoot(h, nodes + [top]) == MerkleRoot(h, all)
        invariant counted && !partial ==> updated == [] && Frontier(h, all) == Frontier(h, nodes + [top])
        invariant counted && partial ==> Frontier(h, all) == updated + Frontier(h, nodes) && |Frontier(h, all)| > 1
        modifies {}
        decreases currentDepth
      {
        BitLengthStep(index);
        AndOne(index);
        RootAppend(h, nodes, top);
        FrontierStep(h, nodes);
        FrontierAppend(h, nodes, top);
        FrontierNonEmpty(h, FullPairs(h, nodes));
        ParentIs(h, nodes, top);
        if BitAnd(index, 0x1) == 0 {
          if !partial {
            updated := updated + [top];
          }
          top := Combine(h, top, top);
          partial := true;
        } else {
          var leftValue := activeNodes[iter];
          iter := iter + 1;
          if partial {
            updated := updated + [leftValue];
          }
          top := Combine(h, leftValue, top);
        }
        currentDepth := currentDepth - 1;
        index := Shr(index, 1);
        nodes := FullPairs(h, nodes);
      }
      if counted {
        LastStep(h, index, nodes, top);
        assert updated + Frontier(h, nodes) == updated;
        ActiveIs(h, all);
        assert updated + [top] == Active(h, all);
      }
      updated := updated + [top];
      activeNodes := updated;
      nodeCount := (nodeCount + 1) % TWO_64;
      leaves := all;
      root := activeNodes[|activeNodes| - 1];
    }

    /** get_root. */
    method GetRoot() returns (root: Digest)
      requires Valid()
      ensures root == MerkleRoot(h, leaves)
      ensures leaves == [] ==> root == Digest(0, 0, 0, 0)
    {
      if nodeCount > 0 {
        ActiveEndsInRoot(h, leaves);
        root := activeNodes[|activeNodes| - 1];
      } else {
        root := ZERO_DIGEST;
      }
    }
  }

  lemma MaxDepthOfZero()
    ensures MaxDepth(0) == 0
  {
  }

  lemma ActiveStartsWithFrontier(h: Hash, leaves: seq<Digest>)
    ensures |Frontier(h, leaves)| <= |Active(h, leaves)| && Frontier(h, leaves) <= Active(h, leaves)[0..]
  {
  }

  lemma ActiveIs(h: Hash, leaves: seq<Digest>)
    ensures |Frontier(h, leaves)| > 1 ==> Active(h, leaves) == Frontier(h, leaves) + [MerkleRoot(h, leaves)]
    ensures |Frontier(h, leaves)| == 1 ==> Active(h, leaves) == Frontier(h, leaves)
  {
  }

  lemma BitLengthStep(n: nat)
    requires BitLength(n) > 0
    ensures n > 0 && BitLength(n) == 1 + BitLength(n / 2) && Shr(n, 1) == n / 2
  {
  }

  lemma AndOne(n: nat)
    ensures BitAnd(n, 1) == n % 2
  {
    AndMask(n, 1);
  }

  lemma ParentIs(h: Hash, nodes: seq<Digest>, top: Digest)
    ensures Parent(h, nodes, top)
            == if |nodes| % 2 == 0 then Combine(h, top, top) else Combine(h, nodes[|nodes| - 1], top)
  {
  }

  /** When every level has been climbed the appended node is the root. */
  lemma LastStep(h: Hash, index: nat, nodes: seq<Digest>, top: Digest)
    requires index == |nodes| && BitLength(index) <= 0
    ensures nodes == [] && MerkleRoot(h, nodes + [top]) == top
    ensures Frontier(h, nodes) == [] && Frontier(h, nodes + [top]) == [top]
  {
    FrontierAppend(h, nodes, top);
  }
}
