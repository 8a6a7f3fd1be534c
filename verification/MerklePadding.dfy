/** What a root says about its leaves without knowing how many there are: the leaves padded to a full
    tree by the repetitions merkle() makes. */
module MerklePadding {
  import opened Bits
  import opened Merkle

  // ---- the padded list ----

  /** The 2^d leaves of the tree: a missing right half repeats the left one. */
  ghost function Padded(ids: seq<Digest>, d: nat): (r: seq<Digest>)
    requires 0 < |ids| <= Pow2(d)
    ensures |r| == Pow2(d) && ids <= r
    decreases d
  {
    if d == 0 then ids
    else
      var half := Pow2(d - 1);
      if |ids| <= half then Padded(ids, d - 1) + Padded(ids, d - 1)
      else
        assert Padded(ids[..half], d - 1) == ids[..half];
        ids[..half] + Padded(ids[half..], d - 1)
  }

  lemma FullIsPadded(ids: seq<Digest>, d: nat)
    requires |ids| == Pow2(d)
    ensures Padded(ids, d) == ids
  {
    hide Padded, Pow2;
    assert ids <= Padded(ids, d) && |Padded(ids, d)| == |ids|;
  }

  lemma PaddedHalves(ids: seq<Digest>, d: nat)
    requires 0 < |ids| <= Pow2(d + 1)
    ensures Pow2(d + 1) == 2 * Pow2(d)
    ensures |ids| <= Pow2(d) ==> Padded(ids, d + 1) == Padded(ids, d) + Padded(ids, d)
    ensures |ids| > Pow2(d) ==> Padded(ids, d + 1) == Padded(ids[..Pow2(d)], d) + Padded(ids[Pow2(d)..], d)
  {
    hide Pow2;
    Pow2Succ(d);
    if |ids| > Pow2(d) { FullIsPadded(ids[..Pow2(d)], d); }
  }

  /** Levels of an even-length front can be taken apart. */
  lemma LevelConcat(h: Hash, a: seq<Digest>, b: seq<Digest>)
    requires |a| % 2 == 0
    ensures Level(h, a + b) == Level(h, a) + Level(h, b)
  {
    hide Level;
    LevelSplit(h, a + b, |a| / 2);
    assert (a + b)[..|a|] == a && (a + b)[|a|..] == b;
  }

  lemma LevelHalves(h: Hash, ids: seq<Digest>, half: nat)
    requires half % 2 == 0 && half <= |ids|
    ensures |Level(h, ids)| >= half / 2
    ensures Level(h, ids)[..half / 2] == Level(h, ids[..half]) && Level(h, ids)[half / 2..] == Level(h, ids[half..])
  {
    hide Level;
    LevelConcat(h, ids[..half], ids[half..]);
    assert ids == ids[..half] + ids[half..];
  }

  /** One level above the padded leaves is the padded level above. */
  lemma {:induction false} LevelPadded(h: Hash, ids: seq<Digest>, d: nat)
    requires 0 < |ids| <= Pow2(d + 1)
    ensures |Level(h, ids)| <= Pow2(d) && Level(h, Padded(ids, d + 1)) == Padded(Level(h, ids), d)
    decreases d
  {
    hide Combine, Level, Pow2, Padded;
    PaddedHalves(ids, d);
    if d == 0 {
      SmallPadded(ids);
      LevelOfPair(h, ids);
      LevelOfPair(h, Padded(ids, 1));
      FullIsPadded(Level(h, ids), 0);
    } else {
      var half, lv := Pow2(d), Level(h, ids);
      Pow2Succ(d - 1);
      PaddedHalves(lv, d - 1);
      if |ids| <= half {
        LevelPadded(h, ids, d - 1);
        LevelConcat(h, Padded(ids, d), Padded(ids, d));
      } else {
        LevelPadded(h, ids[..half], d - 1);
        LevelPadded(h, ids[half..], d - 1);
        LevelConcat(h, Padded(ids[..half], d), Padded(ids[half..], d));
        LevelHalves(h, ids, half);
      }
    }
  }

  lemma SmallPadded(ids: seq<Digest>)
    requires 0 < |ids| <= Pow2(1)
    ensures Pow2(0) == 1 && Pow2(1) == 2 && Padded(ids, 1) == [ids[0], ids[|ids| - 1]]
  {
    Pow2Of6();
    if |ids| == 2 { FullIsPadded(ids, 1); }
  }

  // ---- the pairs hashed for the padded list ----

  lemma PairsConcat(a: seq<Digest>, b: seq<Digest>)
    requires |a| % 2 == 0
    ensures BottomPairs(a + b) == BottomPairs(a) + BottomPairs(b)
  {
    hide MakeCanonicalLeft, MakeCanonicalRight;
    var ab, n := a + b, |a| / 2;
    forall i | 0 <= i < (|a| + 1) / 2 ensures ab[2 * i] == a[2 * i] && Partner(ab, i) == Partner(a, i) {}
    forall i | 0 <= i < (|b| + 1) / 2 ensures ab[2 * (i + n)] == b[2 * i] && Partner(ab, i + n) == Partner(b, i) {}
    forall p | p in BottomPairs(a) ensures p in BottomPairs(ab) {
      var i :| 0 <= i < (|a| + 1) / 2 && p == (MakeCanonicalLeft(a[2 * i]), MakeCanonicalRight(Partner(a, i)));
      assert p == (MakeCanonicalLeft(ab[2 * i]), MakeCanonicalRight(Partner(ab, i)));
    }
    forall p | p in BottomPairs(b) ensures p in BottomPairs(ab) {
      var i :| 0 <= i < (|b| + 1) / 2 && p == (MakeCanonicalLeft(b[2 * i]), MakeCanonicalRight(Partner(b, i)));
      assert p == (MakeCanonicalLeft(ab[2 * (i + n)]), MakeCanonicalRight(Partner(ab, i + n)));
    }
    forall p | p in BottomPairs(ab) ensures p in BottomPairs(a) || p in BottomPairs(b) {
      var i :| 0 <= i < (|ab| + 1) / 2 && p == (MakeCanonicalLeft(ab[2 * i]), MakeCanonicalRight(Partner(ab, i)));
      if i >= n { assert p == (MakeCanonicalLeft(b[2 * (i - n)]), MakeCanonicalRight(Partner(b, i - n))); }
    }
  }

  /** Padding adds no pairs. */
  lemma {:induction false} PaddedPairs(ids: seq<Digest>, d: nat)
    requires 0 < |ids| <= Pow2(d + 1)
    ensures BottomPairs(Padded(ids, d + 1)) == BottomPairs(ids)
    decreases d
  {
    hide BottomPairs, Pow2, Padded;
    PaddedHalves(ids, d);
    if d == 0 {
      SmallPadded(ids);
      SmallPairs(ids);
    } else {
      var half := Pow2(d);
      Pow2Succ(d - 1);
      if |ids| <= half {
        PaddedPairs(ids, d - 1);
        PairsConcat(Padded(ids, d), Padded(ids, d));
      } else {
        PaddedPairs(ids[..half], d - 1);
        PaddedPairs(ids[half..], d - 1);
        PairsConcat(Padded(ids[..half], d), Padded(ids[half..], d));
        PairsConcat(ids[..half], ids[half..]);
        assert ids == ids[..half] + ids[half..];
      }
    }
  }

  lemma SmallPairs(ids: seq<Digest>)
    requires 0 < |ids| <= 2
    ensures BottomPairs([ids[0], ids[|ids| - 1]]) == BottomPairs(ids)
  {
    hide BottomPairs;
    OnePair(ids);
    OnePair([ids[0], ids[|ids| - 1]]);
  }

  lemma OnePair(ids: seq<Digest>)
    requires 0 < |ids| <= 2
    ensures BottomPairs(ids) == {(MakeCanonicalLeft(ids[0]), MakeCanonicalRight(ids[|ids| - 1]))}
  {
    hide MakeCanonicalLeft, MakeCanonicalRight;
    var p := (MakeCanonicalLeft(ids[0]), MakeCanonicalRight(ids[|ids| - 1]));
    assert p == (MakeCanonicalLeft(ids[2 * 0]), MakeCanonicalRight(Partner(ids, 0)));
  }

  /** The list padded to the depth merkle() gives it. */
  ghost function Full(ids: seq<Digest>): (r: seq<Digest>)
    requires ids != []
  {
    DepthIsCeilLog(|ids|);
    Padded(ids, Depth(|ids|))
  }

  lemma FullLevel(h: Hash, ids: seq<Digest>)
    requires |ids| > 1
    ensures Level(h, Full(ids)) == Full(Level(h, ids)) && BottomPairs(Full(ids)) == BottomPairs(ids)
    ensures |Full(ids)| == 2 * |Full(Level(h, ids))| && |Full(Level(h, ids))| > 0
  {
    hide Level, BottomPairs, Pow2, Padded, Depth;
    DepthIsCeilLog(|ids|);
    DepthStep(|ids|);
    var d := Depth((|ids| + 1) / 2);
    Pow2Succ(d);
    DepthIsCeilLog((|ids| + 1) / 2);
    LevelPadded(h, ids, d);
    PaddedPairs(ids, d);
  }

  /** Padding changes neither the root nor the set of pairs hashed. */
  lemma {:induction false} FullKeepsRoot(h: Hash, ids: seq<Digest>)
    requires ids != []
    ensures MerkleRoot(h, Full(ids)) == MerkleRoot(h, ids) && HashedPairs(h, Full(ids)) == HashedPairs(h, ids)
    decreases |ids|
  {
    hide Level, BottomPairs, Full;
    if |ids| == 1 {
      FullSingle(ids);
    } else {
      FullLevel(h, ids);
      FullKeepsRoot(h, Level(h, ids));
    }
  }

  lemma FullSingle(ids: seq<Digest>)
    requires |ids| == 1
    ensures Full(ids) == ids
  {
    DepthOne();
  }

  // ---- equal roots ----

  /** The level k steps above the leaves. */
  ghost function Up(h: Hash, ids: seq<Digest>, k: nat): (r: seq<Digest>)
    requires ids != []
    ensures r != []
    decreases k
  {
    if k == 0 then ids else Up(h, Level(h, ids), k - 1)
  }

  lemma {:induction false} UpKeepsRoot(h: Hash, ids: seq<Digest>, k: nat)
    requires ids != [] && k <= Depth(|ids|)
    ensures MerkleRoot(h, Up(h, ids, k)) == MerkleRoot(h, ids)
    ensures HashedPairs(h, Up(h, ids, k)) <= HashedPairs(h, ids)
    ensures Depth(|Up(h, ids, k)|) == Depth(|ids|) - k
    decreases k
  {
    hide Level, BottomPairs, Depth;
    DepthOne();
    if k > 0 {
      DepthStep(|ids|);
      UpKeepsRoot(h, Level(h, ids), k - 1);
    }
  }

  /** The leaves of the full tree of depth d that a list of at least that depth stands for. */
  ghost function FullAt(h: Hash, ids: seq<Digest>, d: nat): (r: seq<Digest>)
    requires ids != [] && d <= Depth(|ids|)
  {
    Full(Up(h, ids, Depth(|ids|) - d))
  }

  lemma FullSize(ids: seq<Digest>)
    requires ids != []
    ensures |Full(ids)| == Pow2(Depth(|ids|))
  {
    hide Pow2, Padded, Depth;
  }

  /** Agreeing leaves give agreeing roots. */
  lemma {:induction false} AgreeingRoots(h: Hash, xs: seq<Digest>, ys: seq<Digest>)
    requires xs != [] && LeavesAgree(xs, ys)
    ensures SameUpToSide(MerkleRoot(h, xs), MerkleRoot(h, ys))
    decreases |xs|
  {
    hide MakeCanonicalLeft, MakeCanonicalRight, Level;
    if |xs| > 1 {
      var lx, ly := Level(h, xs), Level(h, ys);
      forall i | 0 <= i < |lx| ensures SameUpToSide(lx[i], ly[i]) {
        LevelAt(h, xs, i);
        LevelAt(h, ys, i);
        LeftDetermines(Partner(xs, i), Partner(ys, i));
      }
      AgreeingRoots(h, lx, ly);
    }
  }

  lemma LeftDetermines(a: Digest, b: Digest)
    requires SameUpToSide(a, b)
    ensures MakeCanonicalRight(a) == MakeCanonicalRight(b)
  {
    hide BitAnd, BitOr;
    SideBit(a.h0);
    SideBit(b.h0);
  }

  /** Any two lists, of whatever lengths: their roots agree if the full trees they stand for agree at
      the lesser of their depths, and only then unless two different pairs collide. */
  lemma EqualRootsIff(h: Hash, xs: seq<Digest>, ys: seq<Digest>, d: nat)
    requires xs != [] && ys != []
    requires d == if Depth(|xs|) < Depth(|ys|) then Depth(|xs|) else Depth(|ys|)
    ensures LeavesAgree(FullAt(h, xs, d), FullAt(h, ys, d)) ==> SameUpToSide(MerkleRoot(h, xs), MerkleRoot(h, ys))
    ensures SameUpToSide(MerkleRoot(h, xs), MerkleRoot(h, ys)) ==>
              LeavesAgree(FullAt(h, xs, d), FullAt(h, ys, d)) || Collide(h, HashedPairs(h, xs), HashedPairs(h, ys))
  {
    hide Level, Depth, Pow2, Full, HashedPairs, MerkleRoot, SameUpToSide, LeavesAgree, Up;
    var i, j := Depth(|xs|) - d, Depth(|ys|) - d;
    var ux, uy := Up(h, xs, i), Up(h, ys, j);
    UpKeepsRoot(h, xs, i);
    UpKeepsRoot(h, ys, j);
    FullKeepsRoot(h, ux);
    FullKeepsRoot(h, uy);
    FullSize(ux);
    FullSize(uy);
    if LeavesAgree(Full(ux), Full(uy)) { AgreeingRoots(h, Full(ux), Full(uy)); }
    if SameUpToSide(MerkleRoot(h, xs), MerkleRoot(h, ys)) { EqualRoots(h, Full(ux), Full(uy)); }
  }

  /** In particular a list has the root of the level above it, and of its padding. */
  lemma SameRootOtherLength(h: Hash, ids: seq<Digest>)
    requires |ids| > 1
    ensures |Level(h, ids)| < |ids| && MerkleRoot(h, Level(h, ids)) == MerkleRoot(h, ids)
    ensures |Full(ids)| >= |ids| && MerkleRoot(h, Full(ids)) == MerkleRoot(h, ids)
    ensures |Full(ids)| > |ids| <==> |ids| != Pow2(Depth(|ids|))
  {
    hide Level, Pow2, Padded, Depth, Combine;
    MerkleStep(h, ids);
    FullKeepsRoot(h, ids);
  }

  // ---- proofs ----

  /** A proof of the right length that reaches the root is a proof for the leaf at the position its
      side bits stand for, in the padded list, or exhibits a collision. */
  lemma {:induction false} PathSound(h: Hash, ids: seq<Digest>, leaf: Digest, path: seq<Digest>)
    requires ids != [] && |path| == Depth(|ids|)
    requires SameUpToSide(Recompute(h, leaf, path), MerkleRoot(h, ids))
    ensures Position(path) < |Full(ids)|
    ensures SameUpToSide(leaf, Full(ids)[Position(path)])
            || Collide(h, ProofPairs(h, leaf, path), HashedPairs(h, ids))
    decreases |ids|
  {
    hide MakeCanonicalLeft, MakeCanonicalRight, IsCanonicalLeft, IsCanonicalRight, Level, BitLength, Full, BottomPairs;
    DepthOne();
    if |ids| == 1 {
      FullSingle(ids);
    } else {
      var lv := Level(h, ids);
      DepthStep(|ids|);
      FullLevel(h, ids);
      var p := ProofPair(leaf, path[0]);
      var up, i := h(p.0, p.1), Position(path[1..]);
      PathSound(h, lv, up, path[1..]);
      if SameUpToSide(up, Full(lv)[i]) { PairOfPath(h, ids, leaf, path[0], i); }
    }
  }

  /** One level of a proof: the pair it hashes is the pair at its position, or they collide. */
  lemma PairOfPath(h: Hash, ids: seq<Digest>, leaf: Digest, sibling: Digest, i: nat)
    requires |ids| > 1 && 2 * i + 1 < |Full(ids)| && |Full(ids)| == 2 * |Full(Level(h, ids))|
    requires SameUpToSide(h(ProofPair(leaf, sibling).0, ProofPair(leaf, sibling).1), Full(Level(h, ids))[i])
    ensures SameUpToSide(leaf, Full(ids)[2 * i + if IsCanonicalLeft(sibling) then 1 else 0])
            || exists q :: q in HashedPairs(h, ids) && Collision(h, ProofPair(leaf, sibling), q)
  {
    hide MakeCanonicalLeft, MakeCanonicalRight, IsCanonicalLeft, IsCanonicalRight, Level, Full, BottomPairs;
    FullLevel(h, ids);
    var f := Full(ids);
    var q := (MakeCanonicalLeft(f[2 * i]), MakeCanonicalRight(f[2 * i + 1]));
    PairInBottom(f, i);
    LevelAt(h, f, i);
    if ProofPair(leaf, sibling) == q {
      if IsCanonicalLeft(sibling) { RightDetermines(leaf, f[2 * i + 1]); }
    } else {
      assert Collision(h, ProofPair(leaf, sibling), q);
    }
  }

  lemma PairInBottom(f: seq<Digest>, i: nat)
    requires 2 * i + 1 < |f|
    ensures (MakeCanonicalLeft(f[2 * i]), MakeCanonicalRight(f[2 * i + 1])) in BottomPairs(f)
  {
    assert Partner(f, i) == f[2 * i + 1];
  }
}
