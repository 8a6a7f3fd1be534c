/** Progress of the confirmation protocol: which blocks are still counted, that a block with enough
    statements has been proposed, and how soon full participation gets it there. */
module DposProgress {
  import opened Bits
  import opened Schedule
  import opened Dpos
  import opened DposSafety
  import opened DposSlots
  import opened Wrappers

  // ---- the blocks that are tracked ----

  /** The counted blocks are those above the proposed one, block 1 apart, but at most the last 1024. */
  ghost predicate TracksAll(s: HeaderState) {
    var open := s.blockNum - if s.proposed > 0 then s.proposed else 1;
    |s.confirmCount| == if open < 1024 then open else 1024
  }

  /** Confirming leaves the counts alone, or cuts them to the blocks above the newly proposed one. */
  lemma CutOrKeep(cc: seq<nat>, confirmed: nat, blockNum: nat, proposed: nat)
    requires |cc| < blockNum && forall i :: 0 <= i < |cc| ==> cc[i] > 0
    ensures var cc', p := ConfirmCounts(cc, confirmed), ConfirmProposed(cc, confirmed, blockNum, proposed);
            (p == proposed && |cc'| == |cc|) || (p > 1 && |cc'| == blockNum - p < |cc|)
  {
    hide LastAtOne, Decrement, FirstConfirmed;
    var lo := FirstConfirmed(|cc|, confirmed);
    FirstInside(|cc|, confirmed);
    var i := LastAtOne(cc, lo);
    if i >= 0 {
      assert |cc[i + 1..]| == |cc| - 1 - i;
    } else {
      assert |cc[..lo]| == lo && |cc[lo..]| == |cc| - lo;
    }
  }

  lemma FirstInside(len: nat, confirmed: nat)
    ensures FirstConfirmed(len, confirmed) <= len
  {
  }

  lemma ExtendKeepsTracking(c: Chain, h: Header)
    requires Valid(c.state) && TracksAll(c.state) && Extend(c, h).Ok?
    ensures TracksAll(Extend(c, h).value.state)
  {
    hide LastIrreversible, MayConfirm, Rebuilt, ScheduledProducer, ConfirmCounts, ConfirmProposed, Valid;
    var s := c.state;
    TrackedCounts(s);
    ValidParts(s);
    var cc := Track(s.confirmCount, RequiredConfirmations(|s.active.producers|));
    BlockOneIsNotCounted(s);
    CutOrKeep(cc, h.confirmed, s.blockNum + 1, s.proposed);
  }

  lemma BlockOneIsNotCounted(s: HeaderState)
    requires Valid(s) && TracksAll(s)
    ensures |s.confirmCount| < s.blockNum && |s.confirmCount| <= 1024
  {
  }

  lemma {:induction false} RunKeepsTracking(c: Chain, headers: seq<Header>)
    requires Valid(c.state) && TracksAll(c.state) && SmallSchedules(headers) && Run(c, headers).Ok?
    ensures TracksAll(Run(c, headers).value.state)
    decreases |headers|
  {
    hide Valid, Extend, TracksAll;
    if headers != [] {
      ExtendKeepsTracking(c, headers[0]);
      ExtendKeepsValid(c, headers[0]);
      RunKeepsTracking(Extend(c, headers[0]).value, headers[1..]);
    }
  }

  /** A block among the last 1024 that has the statements its schedule needs has been proposed, or is
      below one that has. */
  lemma StatedIsProposed(c: Chain, b: nat)
    requires Sound(c) && TracksAll(c.state) && 2 <= b <= c.state.blockNum < b + 1024
    requires Statements(c.hist, b) >= Needed(c.hist, b)
    ensures b <= c.state.proposed
  {
    hide Statements, Needed, OnRecord, NoOverlap, Numbered;
    var cc := c.state.confirmCount;
    var i := b - BlockAt(|cc|, c.state.blockNum, 0);
    if b > c.state.proposed {
      assert 0 <= i < |cc| && BlockAt(|cc|, c.state.blockNum, i) == b;
      StillMissing(c, i);
    }
  }

  lemma StillMissing(c: Chain, i: nat)
    requires Sound(c) && i < |c.state.confirmCount|
    ensures var b := BlockAt(|c.state.confirmCount|, c.state.blockNum, i);
            2 <= b < |c.hist| + 2 && Statements(c.hist, b) < Needed(c.hist, b)
  {
    hide Statements, Needed, OnRecord, NoOverlap, Numbered;
    assert c.state.confirmCount[i] > 0;
  }

  // ---- full participation ----

  /** From block b on, for that many blocks, every slot has its block, the schedule is b's, and every
      producer confirms b with the first of these blocks that is theirs. */
  ghost predicate FullParticipation(hist: seq<Confirmation>, b: nat, len: nat)
    requires 2 <= b && b - 2 + len <= |hist| && len > 0
  {
    var i := b - 2;
    && (forall a :: i <= a < i + len ==> hist[a].schedule == hist[i].schedule && hist[a].slot == hist[i].slot + (a - i))
    && (forall a :: i <= a < i + len ==>
          Confirms(hist[a], b) || exists a' :: i <= a' < a && hist[a'].producer == hist[a].producer && Confirms(hist[a'], b))
  }

  /** The owner of the run of slots m runs after a slot. */
  ghost function Later(n: nat, slot: nat, m: nat): (i: nat)
    requires n > 0
  {
    ScheduledIndex(n, slot + m * PRODUCER_REPETITIONS)
  }

  lemma {:induction false} LaterIs(n: nat, slot: nat, m: nat)
    requires n > 0 && m < n
    ensures var i := ScheduledIndex(n, slot);
            i < n && Later(n, slot, m) == if i + m < n then i + m else i + m - n
    decreases m
  {
    hide ScheduledIndex;
    IndexInRange(n, slot);
    if m > 0 {
      LaterIs(n, slot, m - 1);
      IndexAdvances(n, slot + (m - 1) * PRODUCER_REPETITIONS);
      assert slot + (m - 1) * PRODUCER_REPETITIONS + PRODUCER_REPETITIONS == slot + m * PRODUCER_REPETITIONS;
    }
  }

  /** Within m runs of slots at least m producers have confirmed b. */
  lemma {:induction false} ManyConfirm(c: Chain, b: nat, m: nat) returns (s: set<Account>)
    requires Timed(c) && 2 <= b && b - 2 < |c.hist|
    requires var ps := Own(c.hist, b).producers; m <= |ps| && forall i, j :: 0 <= i < j < |ps| ==> ps[i] != ps[j]
    requires m > 0 ==> b - 2 + m * PRODUCER_REPETITIONS <= |c.hist| && FullParticipation(c.hist, b, m * PRODUCER_REPETITIONS)
    ensures |s| == m && s <= Confirmers(c.hist, b, Own(c.hist, b))
    ensures forall p :: p in s ==> RunOwner(c, b, p, m)
    decreases m
  {
    hide ScheduledIndex, Confirmers, Confirms, Owned, RunOwner, FullParticipation, Later;
    if m == 0 {
      s := {};
    } else {
      if m > 1 { ShorterParticipation(c.hist, b, (m - 1) * PRODUCER_REPETITIONS, m * PRODUCER_REPETITIONS); }
      var s0 := ManyConfirm(c, b, m - 1);
      var q := OwnerConfirms(c, b, m - 1);
      NewOwner(c, b, q, m - 1);
      s := s0 + {q};
      forall p | p in s ensures RunOwner(c, b, p, m) { OwnerStays(c, b, p, m - 1, q); }
    }
  }

  /** The producer p owns one of the first m runs of slots from block b on. */
  ghost predicate RunOwner(c: Chain, b: nat, p: Account, m: nat)
    requires 2 <= b && b - 2 < |c.hist|
  {
    var e := c.hist[b - 2];
    var ps := e.schedule.producers;
    ps != [] && exists k :: 0 <= k < m && Later(|ps|, e.slot, k) < |ps| && p == ps[Later(|ps|, e.slot, k)]
  }

  lemma OwnerStays(c: Chain, b: nat, p: Account, m: nat, q: Account)
    requires 2 <= b && b - 2 < |c.hist|
    requires RunOwner(c, b, p, m) || p == q
    requires var e := c.hist[b - 2]; var ps := e.schedule.producers;
             ps != [] && Later(|ps|, e.slot, m) < |ps| && q == ps[Later(|ps|, e.slot, m)]
    ensures RunOwner(c, b, p, m + 1)
  {
    hide Later;
  }

  lemma NewOwner(c: Chain, b: nat, q: Account, m: nat)
    requires 2 <= b && b - 2 < |c.hist|
    requires var e := c.hist[b - 2]; var ps := e.schedule.producers;
             m < |ps| && (forall i, j :: 0 <= i < j < |ps| ==> ps[i] != ps[j])
             && Later(|ps|, e.slot, m) < |ps| && q == ps[Later(|ps|, e.slot, m)]
    ensures !RunOwner(c, b, q, m)
  {
    hide Later, ScheduledIndex;
    var e := c.hist[b - 2];
    var ps := e.schedule.producers;
    LaterIs(|ps|, e.slot, m);
    forall k | 0 <= k < m ensures Later(|ps|, e.slot, k) < |ps| && q != ps[Later(|ps|, e.slot, k)] {
      LaterIs(|ps|, e.slot, k);
    }
  }

  lemma ShorterParticipation(hist: seq<Confirmation>, b: nat, len: nat, len': nat)
    requires 2 <= b && b - 2 + len' <= |hist| && 0 < len <= len' && FullParticipation(hist, b, len')
    ensures FullParticipation(hist, b, len)
  {
    hide Confirms;
  }

  /** The owner of run m has confirmed b. */
  lemma OwnerConfirms(c: Chain, b: nat, m: nat) returns (q: Account)
    requires Timed(c) && 2 <= b && b - 2 + (m + 1) * PRODUCER_REPETITIONS <= |c.hist| && m < |Own(c.hist, b).producers|
    requires FullParticipation(c.hist, b, (m + 1) * PRODUCER_REPETITIONS)
    ensures q in Confirmers(c.hist, b, Own(c.hist, b))
    ensures var e := c.hist[b - 2]; var ps := e.schedule.producers;
            Later(|ps|, e.slot, m) < |ps| && q == ps[Later(|ps|, e.slot, m)]
  {
    hide ScheduledIndex, Confirms;
    var i := b - 2;
    var a := i + m * PRODUCER_REPETITIONS;
    assert Owned(c.hist[a]);
    q := c.hist[a].producer;
    assert q in Own(c.hist, b).producers;
    if Confirms(c.hist[a], b) {
      assert c.hist[a] in c.hist;
    } else {
      var a' :| i <= a' < a && c.hist[a'].producer == q && Confirms(c.hist[a'], b);
      assert c.hist[a'] in c.hist;
    }
  }

  /** With a schedule of n distinct producers, at most 125, and full participation, a block is proposed
      within (n * 2 / 3 + 1) * 12 slots, which is within the 1024 blocks that are counted. */
  lemma ProposedInTime(c: Chain, b: nat)
    requires Sound(c) && TracksAll(c.state) && Timed(c) && 2 <= b && b - 2 < |c.hist|
    requires var ps := Own(c.hist, b).producers;
             0 < |ps| <= MAX_PRODUCERS && forall i, j :: 0 <= i < j < |ps| ==> ps[i] != ps[j]
    requires |c.hist| == b - 2 + Needed(c.hist, b) * PRODUCER_REPETITIONS
             && FullParticipation(c.hist, b, Needed(c.hist, b) * PRODUCER_REPETITIONS)
    ensures b <= c.state.proposed
  {
    hide Statements, Confirmers, FullParticipation, Timed, CountsMatch, OnRecord, NoOverlap, TracksAll, RunOwner;
    var own, k := Own(c.hist, b), Needed(c.hist, b);
    var s := ManyConfirm(c, b, k);
    SubsetSize(s, Confirmers(c.hist, b, own));
    ProperIff(c.hist, b, own);
    StatedIsProposed(c, b);
  }

  /** All of this holds on every chain from genesis. */
  lemma ProgressFromGenesis(slot: nat, headers: seq<Header>, b: nat)
    requires SmallSchedules(headers) && Run(Genesis(slot), headers).Ok?
    ensures var c := Run(Genesis(slot), headers).value;
            && Sound(c) && TracksAll(c.state) && Timed(c)
            && (2 <= b <= c.state.blockNum < b + 1024 && Statements(c.hist, b) >= Needed(c.hist, b) ==> b <= c.state.proposed)
  {
    hide Run, Statements, Needed, CountsMatch, OnRecord, NoOverlap;
    var c := Run(Genesis(slot), headers).value;
    GenesisSound(slot);
    RunKeepsSound(Genesis(slot), headers);
    RunKeepsTracking(Genesis(slot), headers);
    GenesisTimed(slot, headers);
    if 2 <= b <= c.state.blockNum < b + 1024 && Statements(c.hist, b) >= Needed(c.hist, b) { StatedIsProposed(c, b); }
  }
}
