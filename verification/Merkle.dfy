/** libraries/chain/merkle.cpp: the root over a list of digests. The digest function
    digest_type::hash on a pair is a parameter of every definition. */
module Merkle {
  import opened Bits

  type Word = x: nat | x < TWO_64

  /** The four 64-bit words of a sha256 value. */
  datatype Digest = Digest(h0: Word, h1: Word, h2: Word, h3: Word)

  type Hash = (Digest, Digest) -> Digest

  const ZERO_DIGEST: Digest := Digest(0, 0, 0, 0)

  /** The side bit, 0x80, of the first word. */
  lemma SideBit(x: Word)
    ensures BitAnd(x, 0xFFFF_FFFF_FFFF_FF7F) == x - x / 128 % 2 * 128
    ensures BitOr(x, 0x80) == x + (1 - x / 128 % 2) * 128 < TWO_64
    ensures BitAnd(x, 0x80) == x / 128 % 2 * 128
  {
    hide BitAnd, BitOr, Shr, Pow2;
    Pow2Of6();
    Pow2Succ(6);
    Pow2Of64();
    ShrIsDiv(x, 7);
    ClearBit(x, 7, 64);
    SetBit(x, 7);
    AndBit(x, 7);
  }

  /** Clears the side bit and keeps everything else. */
  function MakeCanonicalLeft(d: Digest): (r: Digest)
    ensures r.h0 == d.h0 - d.h0 / 128 % 2 * 128 && r.h1 == d.h1 && r.h2 == d.h2 && r.h3 == d.h3
  {
    SideBit(d.h0);
    d.(h0 := BitAnd(d.h0, 0xFFFF_FFFF_FFFF_FF7F))
  }

  /** Sets the side bit and keeps everything else. */
  function MakeCanonicalRight(d: Digest): (r: Digest)
    ensures r.h0 == d.h0 + (1 - d.h0 / 128 % 2) * 128 && r.h1 == d.h1 && r.h2 == d.h2 && r.h3 == d.h3
  {
    SideBit(d.h0);
    d.(h0 := BitOr(d.h0, 0x0000_0000_0000_0080))
  }

  predicate IsCanonicalLeft(d: Digest) {
    BitAnd(d.h0, 0x0000_0000_0000_0080) == 0
  }

  predicate IsCanonicalRight(d: Digest) {
    BitAnd(d.h0, 0x0000_0000_0000_0080) != 0
  }

  /** digest_type::hash(make_canonical_pair(l, r)). */
  function Combine(h: Hash, l: Digest, r: Digest): (d: Digest) {
    h(MakeCanonicalLeft(l), MakeCanonicalRight(r))
  }

  /** Equal once the side bit is cleared. */
  predicate SameUpToSide(a: Digest, b: Digest) {
    MakeCanonicalLeft(a) == MakeCanonicalLeft(b)
  }

  /** That is: the same digest but for bit 7 of the first word. */
  lemma SideBitOnly(a: Digest, b: Digest)
    ensures SameUpToSide(a, b)
            <==> a.h0 / 256 == b.h0 / 256 && a.h0 % 128 == b.h0 % 128 && a.h1 == b.h1 && a.h2 == b.h2 && a.h3 == b.h3
  {
    hide MakeCanonicalLeft;
    Around(a.h0);
    Around(b.h0);
  }

  lemma Around(x: nat)
    ensures x - x / 128 % 2 * 128 == x / 256 * 256 + x % 128
  {
    assert x / 128 / 2 == x / 256;
  }

  lemma CanonicalSides(d: Digest)
    ensures IsCanonicalLeft(MakeCanonicalLeft(d)) && IsCanonicalRight(MakeCanonicalRight(d))
    ensures !IsCanonicalRight(MakeCanonicalLeft(d)) && !IsCanonicalLeft(MakeCanonicalRight(d))
    ensures SameUpToSide(MakeCanonicalLeft(d), d) && SameUpToSide(MakeCanonicalRight(d), d)
    ensures IsCanonicalLeft(d) != IsCanonicalRight(d)
  {
    hide BitAnd, BitOr;
    SideBit(d.h0);
    SideBit(MakeCanonicalLeft(d).h0);
    SideBit(MakeCanonicalRight(d).h0);
  }

  /** Equal canonical digests come from digests that differ in the side bit only. */
  lemma RightDetermines(a: Digest, b: Digest)
    requires MakeCanonicalRight(a) == MakeCanonicalRight(b)
    ensures SameUpToSide(a, b)
  {
    hide MakeCanonicalLeft, MakeCanonicalRight, IsCanonicalLeft, IsCanonicalRight, Level, BitLength;
    CanonicalSides(a);
    CanonicalSides(b);
  }

  // ---- the list, level by level ----

  /** The entry paired with position 2i: its right neighbour, or itself at the end of an odd list. */
  function Partner(ids: seq<Digest>, i: nat): (r: Digest)
    requires 2 * i < |ids|
  {
    if 2 * i + 1 < |ids| then ids[2 * i + 1] else ids[2 * i]
  }

  /** One level up; an odd last entry is paired with itself. */
  function Level(h: Hash, ids: seq<Digest>): (r: seq<Digest>)
    ensures |r| == (|ids| + 1) / 2
    decreases |ids|
  {
    if |ids| == 0 then []
    else if |ids| == 1 then [Combine(h, ids[0], ids[0])]
    else [Combine(h, ids[0], ids[1])] + Level(h, ids[2..])
  }

  lemma {:induction false} LevelAt(h: Hash, ids: seq<Digest>, i: nat)
    requires 2 * i < |ids|
    ensures Level(h, ids)[i] == Combine(h, ids[2 * i], Partner(ids, i))
    decreases i
  {
    hide Combine;
    if i > 0 {
      LevelAt(h, ids[2..], i - 1);
      assert ids[2..][2 * (i - 1)] == ids[2 * i];
      assert Partner(ids[2..], i - 1) == Partner(ids, i);
    }
  }

  /** The level is determined entry by entry. */
  lemma LevelIs(h: Hash, ids: seq<Digest>, lv: seq<Digest>)
    requires |lv| == (|ids| + 1) / 2
    requires forall i :: 0 <= i < |lv| ==> lv[i] == Combine(h, ids[2 * i], Partner(ids, i))
    ensures lv == Level(h, ids)
  {
    hide Combine, Level;
    forall i | 0 <= i < |lv|
      ensures lv[i] == Level(h, ids)[i]
    {
      LevelAt(h, ids, i);
    }
  }

  function MerkleRoot(h: Hash, ids: seq<Digest>): (r: Digest)
    decreases |ids|
  {
    if |ids| == 0 then ZERO_DIGEST
    else if |ids| == 1 then ids[0]
    else MerkleRoot(h, Level(h, ids))
  }

  lemma MerkleStep(h: Hash, ids: seq<Digest>)
    requires |ids| > 1
    ensures MerkleRoot(h, ids) == MerkleRoot(h, Level(h, ids))
  {
  }

  /** The pair loop of merkle(): it overwrites the front of the list it is still reading, each
      entry after its last use. */
  method ReduceLevel(h: Hash, level: seq<Digest>) returns (ids: seq<Digest>)
    requires |level| > 1
    ensures ids == Level(h, level)
  {
    hide Combine, Level, Partner;
    ids := level;
    if |ids| % 2 != 0 {
      ids := ids + [ids[|ids| - 1]];
    }
    ghost var padded := ids;
    var i := 0;
    while i < |ids| / 2
      invariant 0 <= i <= |ids| / 2 && |ids| == |padded|
      invariant forall j :: 0 <= j < i ==> ids[j] == Combine(h, padded[2 * j], padded[2 * j + 1])
      invariant forall j :: i <= j < |ids| ==> ids[j] == padded[j]
    {
      ids := ids[i := Combine(h, ids[2 * i], ids[2 * i + 1])];
      i := i + 1;
    }
    ids := ids[..|ids| / 2];
    PaddedPartners(level, padded);
    assert forall j :: 0 <= j < |ids| ==> ids[j] == Combine(h, level[2 * j], Partner(level, j));
    LevelIs(h, level, ids);
  }

  lemma PaddedPartners(level: seq<Digest>, padded: seq<Digest>)
    requires |level| > 0 && padded == if |level| % 2 != 0 then level + [level[|level| - 1]] else level
    ensures forall j :: 0 <= j < |padded| / 2 ==> padded[2 * j] == level[2 * j] && padded[2 * j + 1] == Partner(level, j)
  {
  }

  /** merkle(). */
  method ComputeMerkle(h: Hash, leaves: seq<Digest>) returns (root: Digest)
    ensures root == MerkleRoot(h, leaves)
    ensures leaves == [] ==> root == Digest(0, 0, 0, 0)
  {
    hide Combine, Level;
    var ids := leaves;
    if 0 == |ids| { return ZERO_DIGEST; }
    while |ids| > 1
      invariant |ids| >= 1 && MerkleRoot(h, ids) == MerkleRoot(h, leaves)
      decreases |ids|
    {
      ids := ReduceLevel(h, ids);
    }
    root := ids[0];
  }

  // ---- the tree the list stands for ----

  /** Levels above n leaves: the least d with n <= 2^d. */
  function Depth(n: nat): (d: nat)
    requires n > 0
  {
    BitLength(n - 1)
  }

  lemma DepthIsCeilLog(n: nat)
    requires n > 0
    ensures n <= Pow2(Depth(n))
    ensures Depth(n) > 0 ==> Pow2(Depth(n) - 1) < n
  {
    if n > 1 { BitLengthBounds(n - 1); }
  }

  /** A balanced tree of 2^d leaves in which a missing right subtree repeats the left one. */
  function TreeRoot(h: Hash, ids: seq<Digest>, d: nat): (r: Digest)
    requires 0 < |ids| <= Pow2(d)
    decreases d
  {
    if d == 0 then ids[0]
    else
      var half := Pow2(d - 1);
      if |ids| <= half then var l := TreeRoot(h, ids, d - 1); Combine(h, l, l)
      else Combine(h, TreeRoot(h, ids[..half], d - 1), TreeRoot(h, ids[half..], d - 1))
  }

  lemma LevelFront(h: Hash, ids: seq<Digest>)
    ensures Level(h, []) == []
    ensures |ids| > 1 ==> Level(h, ids) == [Combine(h, ids[0], ids[1])] + Level(h, ids[2..])
  {
    hide Combine;
  }

  /** Levels distribute over a split at an even position. */
  lemma {:induction false} LevelSplit(h: Hash, ids: seq<Digest>, k: nat)
    requires 2 * k <= |ids|
    ensures Level(h, ids) == Level(h, ids[..2 * k]) + Level(h, ids[2 * k..])
    decreases k
  {
    hide Combine, Level;
    LevelFront(h, ids);
    if k == 0 {
      assert ids[..0] == [] && ids[0..] == ids;
    } else {
      var rest, front := ids[2..], ids[..2 * k];
      LevelSplit(h, rest, k - 1);
      LevelFront(h, front);
      assert front[2..] == rest[..2 * (k - 1)];
      assert ids[2 * k..] == rest[2 * (k - 1)..];
    }
  }

  lemma LevelOfPair(h: Hash, ids: seq<Digest>)
    requires 0 < |ids| <= 2
    ensures Level(h, ids) == [Combine(h, ids[0], ids[|ids| - 1])]
  {
    hide Combine;
    if |ids| == 2 { assert Level(h, ids[2..]) == []; }
  }

  lemma {:induction false} TreeLevel(h: Hash, ids: seq<Digest>, d: nat)
    requires 0 < |ids| <= Pow2(d + 1)
    ensures TreeRoot(h, ids, d + 1) == TreeRoot(h, Level(h, ids), d)
    decreases d
  {
    hide Combine, Level, Pow2;
    Pow2Succ(d);
    if d == 0 {
      Pow2Of6();
      LevelOfPair(h, ids);
      if |ids| == 2 { assert ids[..1][0] == ids[0] && ids[1..][0] == ids[1]; }
    } else {
      var half, quarter := Pow2(d), Pow2(d - 1);
      Pow2Succ(d - 1);
      if |ids| <= half {
        TreeLevel(h, ids, d - 1);
      } else {
        LevelSplit(h, ids, quarter);
        TreeLevel(h, ids[..half], d - 1);
        TreeLevel(h, ids[half..], d - 1);
        var lv := Level(h, ids);
        assert lv[..quarter] == Level(h, ids[..half]);
        assert lv[quarter..] == Level(h, ids[half..]);
      }
    }
  }

  lemma DepthOne()
    ensures Depth(1) == 0
  {
  }

  lemma DepthStep(n: nat)
    requires n > 1
    ensures Depth(n) == 1 + Depth((n + 1) / 2)
  {
    assert (n + 1) / 2 - 1 == (n - 1) / 2;
  }

  lemma TreeLeaf(h: Hash, ids: seq<Digest>)
    requires |ids| == 1
    ensures Depth(1) == 0 && 1 <= Pow2(0) && TreeRoot(h, ids, 0) == ids[0]
  {
  }

  /** The level-by-level reduction is the root of the balanced tree of least depth. */
  lemma {:induction false} MerkleIsTree(h: Hash, ids: seq<Digest>)
    requires |ids| > 0
    ensures |ids| <= Pow2(Depth(|ids|))
    ensures MerkleRoot(h, ids) == TreeRoot(h, ids, Depth(|ids|))
    decreases |ids|
  {
    hide Combine, Level, Pow2, TreeRoot;
    DepthIsCeilLog(|ids|);
    if |ids| == 1 {
      TreeLeaf(h, ids);
    } else {
      var lv := Level(h, ids);
      MerkleIsTree(h, lv);
      DepthStep(|ids|);
      Pow2Succ(Depth(|lv|));
      TreeLevel(h, ids, Depth(|lv|));
    }
  }

  // ---- inclusion proofs ----

  /** The canonicalised siblings on the way from leaf i to the root. */
  function Path(h: Hash, ids: seq<Digest>, i: nat): (p: seq<Digest>)
    requires i < |ids|
    decreases |ids|
  {
    if |ids| == 1 then []
    else
      var sibling := if i % 2 == 0 then MakeCanonicalRight(Partner(ids, i / 2)) else MakeCanonicalLeft(ids[i - 1]);
      [sibling] + Path(h, Level(h, ids), i / 2)
  }

  /** The pair hashed next: the sibling's own bit says which side it is on. */
  function ProofPair(cur: Digest, sibling: Digest): (p: (Digest, Digest)) {
    if IsCanonicalLeft(sibling) then (sibling, MakeCanonicalRight(cur)) else (MakeCanonicalLeft(cur), sibling)
  }

  /** Recomputing a root from a leaf and its path. */
  function Recompute(h: Hash, leaf: Digest, path: seq<Digest>): (r: Digest)
    decreases |path|
  {
    if path == [] then leaf
    else
      var p := ProofPair(leaf, path[0]);
      Recompute(h, h(p.0, p.1), path[1..])
  }

  /** The position the side bits of a path stand for, the lowest level first: a left sibling means
      being on the right. */
  function Position(path: seq<Digest>): (i: nat) {
    if path == [] then 0 else (if IsCanonicalLeft(path[0]) then 1 else 0) + 2 * Position(path[1..])
  }

  /** Every leaf's path recomputes the root, has one sibling per level, and tells the leaf's position. */
  lemma {:induction false} PathRecomputes(h: Hash, ids: seq<Digest>, i: nat)
    requires i < |ids|
    ensures Recompute(h, ids[i], Path(h, ids, i)) == MerkleRoot(h, ids)
    ensures |Path(h, ids, i)| == Depth(|ids|) && Position(Path(h, ids, i)) == i
    decreases |ids|
  {
    hide MakeCanonicalLeft, MakeCanonicalRight, IsCanonicalLeft, IsCanonicalRight, Level, BitLength;
    DepthOne();
    if |ids| > 1 {
      var lv := Level(h, ids);
      PathRecomputes(h, lv, i / 2);
      LevelAt(h, ids, i / 2);
      CanonicalSides(Partner(ids, i / 2));
      if i % 2 == 1 { CanonicalSides(ids[i - 1]); }
      assert Path(h, ids, i)[1..] == Path(h, lv, i / 2);
      DepthStep(|ids|);
    }
  }

  // ---- collisions ----

  /** The canonical pairs of one level. */
  ghost function BottomPairs(ids: seq<Digest>): (s: set<(Digest, Digest)>) {
    set i | 0 <= i < (|ids| + 1) / 2 :: (MakeCanonicalLeft(ids[2 * i]), MakeCanonicalRight(Partner(ids, i)))
  }

  /** The canonical pairs hashed while computing a root. */
  ghost function HashedPairs(h: Hash, ids: seq<Digest>): (s: set<(Digest, Digest)>)
    decreases |ids|
  {
    if |ids| <= 1 then {} else BottomPairs(ids) + HashedPairs(h, Level(h, ids))
  }

  /** Two different pairs whose digests agree once the side bit is cleared. */
  ghost predicate Collision(h: Hash, p: (Digest, Digest), q: (Digest, Digest)) {
    p != q && SameUpToSide(h(p.0, p.1), h(q.0, q.1))
  }

  ghost predicate Collide(h: Hash, ps: set<(Digest, Digest)>, qs: set<(Digest, Digest)>) {
    exists p, q :: p in ps && q in qs && Collision(h, p, q)
  }

  ghost predicate LeavesAgree(xs: seq<Digest>, ys: seq<Digest>) {
    |xs| == |ys| && forall i :: 0 <= i < |xs| ==> SameUpToSide(xs[i], ys[i])
  }

  /** The pair at position i of the bottom level is among the hashed ones. */
  lemma PairIsHashed(h: Hash, ids: seq<Digest>, i: nat)
    requires |ids| > 1 && 2 * i < |ids|
    ensures (MakeCanonicalLeft(ids[2 * i]), MakeCanonicalRight(Partner(ids, i))) in HashedPairs(h, ids)
    ensures HashedPairs(h, Level(h, ids)) <= HashedPairs(h, ids)
  {
    hide MakeCanonicalLeft, MakeCanonicalRight, IsCanonicalLeft, IsCanonicalRight, Level, BitLength;
  }

  /** Equal digests one level up: equal leaves below them, or two colliding pairs. */
  lemma PairsBelow(h: Hash, xs: seq<Digest>, ys: seq<Digest>)
    requires |xs| == |ys| > 1 && LeavesAgree(Level(h, xs), Level(h, ys))
    ensures LeavesAgree(xs, ys) || Collide(h, HashedPairs(h, xs), HashedPairs(h, ys))
  {
    hide MakeCanonicalLeft, MakeCanonicalRight, IsCanonicalLeft, IsCanonicalRight, Level, BitLength, HashedPairs;
    if !Collide(h, HashedPairs(h, xs), HashedPairs(h, ys)) {
      forall j | 0 <= j < |xs|
        ensures SameUpToSide(xs[j], ys[j])
      {
        var i := j / 2;
        var p := (MakeCanonicalLeft(xs[2 * i]), MakeCanonicalRight(Partner(xs, i)));
        var q := (MakeCanonicalLeft(ys[2 * i]), MakeCanonicalRight(Partner(ys, i)));
        PairIsHashed(h, xs, i);
        PairIsHashed(h, ys, i);
        LevelAt(h, xs, i);
        LevelAt(h, ys, i);
        assert SameUpToSide(Level(h, xs)[i], Level(h, ys)[i]);
        assert !Collision(h, p, q);
        assert p.1 == q.1;
        RightDetermines(Partner(xs, i), Partner(ys, i));
      }
    }
  }

  /** Equal roots over equally many leaves: the leaves agree up to the side bit, or the two
      computations hashed two different canonical pairs to the same digest up to the side bit. */
  lemma {:induction false} EqualRoots(h: Hash, xs: seq<Digest>, ys: seq<Digest>)
    requires |xs| == |ys| && SameUpToSide(MerkleRoot(h, xs), MerkleRoot(h, ys))
    ensures LeavesAgree(xs, ys) || Collide(h, HashedPairs(h, xs), HashedPairs(h, ys))
    decreases |xs|
  {
    hide MakeCanonicalLeft, MakeCanonicalRight, IsCanonicalLeft, IsCanonicalRight, Level, BitLength;
    if |xs| > 1 {
      EqualRoots(h, Level(h, xs), Level(h, ys));
      PairIsHashed(h, xs, 0);
      PairIsHashed(h, ys, 0);
      if LeavesAgree(Level(h, xs), Level(h, ys)) { PairsBelow(h, xs, ys); }
    }
  }

  /** The pairs hashed while checking a proof. */
  ghost function ProofPairs(h: Hash, leaf: Digest, path: seq<Digest>): (s: set<(Digest, Digest)>)
    decreases |path|
  {
    if path == [] then {}
    else
      var p := ProofPair(leaf, path[0]);
      {p} + ProofPairs(h, h(p.0, p.1), path[1..])
  }
}
