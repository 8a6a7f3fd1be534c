/** libraries/chain/block_header_state.cpp: how a block header advances the confirmation counts,
    the proposed and the final irreversible block, and the producer schedule. */
module Dpos {
  import opened Bits
  import opened Schedule
  import opened Wrappers

  type Account = nat

  const MAX_PRODUCERS: nat := 125             // config::max_producers
  const MAX_TRACKED_CONFIRMATIONS: nat := 1024 // config::maximum_tracked_dpos_confirmations

  datatype Error =
    | NotInTheFuture          // block_validate_exception
    | DoubleConfirm           // producer_double_confirm
    | PromotedInSameBlock | WrongScheduleVersion | PendingNotConfirmed   // producer_schedule_exception

  datatype ProducerSchedule = ProducerSchedule(version: nat, producers: seq<Account>)

  /** The consensus part of block_header_state. */
  datatype HeaderState = HeaderState(
    blockNum: nat,
    slot: nat,
    proposed: nat,                       // dpos_proposed_irreversible_blocknum
    lib: nat,                            // dpos_irreversible_blocknum
    active: ProducerSchedule,
    pending: ProducerSchedule,
    pendingLibNum: nat,                  // pending_schedule.schedule_lib_num
    lastProduced: map<Account, nat>,     // producer_to_last_produced
    impliedIrb: map<Account, nat>,       // producer_to_last_implied_irb
    confirmCount: seq<nat>)

  /** A header's part in the transition: its time slot, how many earlier blocks it confirms, and
      the schedule it proposes. */
  datatype Header = Header(slot: nat, confirmed: nat, newProducers: Option<ProducerSchedule>)

  datatype Step = Step(state: HeaderState, producer: Account, promoted: bool)

  // ---- counting entries of a map ----

  function AtMost(m: map<Account, nat>, v: int): (s: set<Account>) {
    set k | k in m && m[k] <= v
  }

  ghost function AtLeast(m: map<Account, nat>, v: int): (s: set<Account>) {
    set k | k in m && m[k] >= v
  }

  ghost predicate Bounded(m: map<Account, nat>, bound: nat) {
    forall k :: k in m ==> m[k] <= bound
  }

  lemma AllAtMost(m: map<Account, nat>, bound: nat)
    requires Bounded(m, bound)
    ensures |AtMost(m, bound)| == |m|
  {
    assert AtMost(m, bound) == m.Keys;
  }

  /** nth_element: the least value with more than `index` entries at or below it. */
  function NthSmallest(m: map<Account, nat>, index: nat, from: nat, ghost bound: nat): (q: nat)
    requires index < |m| && from <= bound && Bounded(m, bound)
    decreases bound - from
  {
    AllAtMost(m, bound);
    if |AtMost(m, from)| > index then from
    else NthSmallest(m, index, from + 1, bound)
  }

  /** The position 1/3 into the values sorted from low to high. */
  function QuorumIndex(n: nat): (i: nat)
    requires n > 0
  {
    (n - 1) / 3
  }

  /** The value at that position. */
  ghost predicate IsQuorumValue(m: map<Account, nat>, q: nat)
    requires |m| > 0
  {
    && |AtMost(m, q)| > QuorumIndex(|m|)
    && |AtMost(m, q - 1)| <= QuorumIndex(|m|)
  }

  lemma {:induction false} NthSmallestIs(m: map<Account, nat>, index: nat, from: nat, bound: nat)
    requires index < |m| && from <= bound && Bounded(m, bound)
    requires |AtMost(m, from - 1)| <= index
    ensures var q := NthSmallest(m, index, from, bound);
            && from <= q <= bound
            && |AtMost(m, q)| > index && |AtMost(m, q - 1)| <= index
    decreases bound - from
  {
    AllAtMost(m, bound);
    if |AtMost(m, from)| <= index {
      NthSmallestIs(m, index, from + 1, bound);
    }
  }

  lemma SubsetSize<T>(a: set<T>, b: set<T>)
    requires a <= b
    ensures |a| <= |b|
  {
    assert b == a + (b - a);
  }

  /** More than two thirds of the entries are at or above the quorum value. */
  lemma TwoThirdsAtLeast(m: map<Account, nat>, q: nat)
    requires |m| > 0 && IsQuorumValue(m, q)
    ensures 3 * |AtLeast(m, q)| > 2 * |m|
  {
    hide AtLeast;
    Complement(m, q);
  }

  /** It is the largest such value: exactly the one that more than two thirds of the entries reach, and
      no larger value. */
  lemma QuorumValueIff(m: map<Account, nat>, q: nat)
    requires |m| > 0
    ensures IsQuorumValue(m, q) <==> 3 * |AtLeast(m, q)| > 2 * |m| && 3 * |AtLeast(m, q + 1)| <= 2 * |m|
  {
    hide AtMost, AtLeast;
    Complement(m, q);
    Complement(m, q + 1);
  }

  lemma Complement(m: map<Account, nat>, q: nat)
    ensures |AtMost(m, q - 1)| + |AtLeast(m, q)| == |m|
  {
    var low, high := AtMost(m, q - 1), AtLeast(m, q);
    assert low + high == m.Keys && low !! high;
    assert |low + high| == |low| + |high|;
    assert |m.Keys| == |m|;
  }

  /** Raising entries cannot lower the quorum value. */
  lemma QuorumMonotone(m: map<Account, nat>, m': map<Account, nat>, q: nat, q': nat)
    requires m.Keys == m'.Keys && |m| > 0 && forall k :: k in m ==> m[k] <= m'[k]
    requires IsQuorumValue(m, q) && |m'| > 0 && IsQuorumValue(m', q')
    ensures q <= q'
  {
    assert |m| == |m.Keys| == |m'.Keys| == |m'|;
    if q' < q {
      SubsetSize(AtMost(m', q'), AtMost(m, q - 1));
    }
  }

  lemma {:induction false} BoundExists(m: map<Account, nat>) returns (b: nat)
    ensures Bounded(m, b)
    decreases |m|
  {
    b := 0;
    if m != map[] {
      var k :| k in m;
      var rest := m - {k};
      assert |m.Keys| == |rest.Keys| + 1 by { assert m.Keys == rest.Keys + {k}; }
      b := BoundExists(rest);
      assert forall j :: j in m && j != k ==> j in rest && rest[j] == m[j];
      if m[k] > b { b := m[k]; }
    }
  }

  /** Some upper bound on the values. */
  ghost function Bound(m: map<Account, nat>): (b: nat)
    ensures Bounded(m, b)
  {
    assert exists b :: Bounded(m, b) by { var b := BoundExists(m); }
    var b :| Bounded(m, b);
    b
  }

  // ---- confirmation counts ----

  function RequiredConfirmations(n: nat): (r: nat) {
    n * 2 / 3 + 1
  }

  /** The new block's count goes at the end; at capacity the oldest count is dropped. */
  function Track(cc: seq<nat>, required: nat): (r: seq<nat>) {
    if |cc| < MAX_TRACKED_CONFIRMATIONS then cc + [required] else cc[1..] + [required]
  }

  /** The latest position from lo on whose count is down to its last missing confirmation. */
  function LastAtOne(cc: seq<nat>, lo: nat): (i: int)
    ensures -1 <= i < |cc|
    ensures i >= 0 ==> i >= lo && cc[i] == 1
    ensures forall j :: (if i >= 0 then i + 1 else lo) <= j < |cc| ==> cc[j] != 1
    decreases |cc|
  {
    if |cc| <= lo then -1
    else if cc[|cc| - 1] == 1 then |cc| - 1
    else LastAtOne(cc[..|cc| - 1], lo)
  }

  /** A header confirms its own block and the `confirmed` blocks before it. */
  function FirstConfirmed(len: nat, confirmed: nat): (lo: nat) {
    if len > confirmed + 1 then len - (confirmed + 1) else 0
  }

  function Decrement(cc: seq<nat>): (r: seq<nat>)
    requires forall i :: 0 <= i < |cc| ==> cc[i] > 0
    ensures |r| == |cc| && forall i :: 0 <= i < |cc| ==> r[i] == cc[i] - 1
  {
    if cc == [] then [] else [cc[0] - 1] + Decrement(cc[1..])
  }

  /** The counts after a header: one less for each confirmed block; the latest block that has all
      its confirmations is dropped together with everything before it. */
  function ConfirmCounts(cc: seq<nat>, confirmed: nat): (r: seq<nat>)
    requires forall i :: 0 <= i < |cc| ==> cc[i] > 0
  {
    var lo := FirstConfirmed(|cc|, confirmed);
    var i := LastAtOne(cc, lo);
    if i >= 0 then Decrement(cc[i + 1..]) else cc[..lo] + Decrement(cc[lo..])
  }

  /** The proposed irreversible block after a header. */
  function ConfirmProposed(cc: seq<nat>, confirmed: nat, blockNum: nat, proposed: nat): (r: nat)
    requires |cc| <= blockNum
  {
    var i := LastAtOne(cc, FirstConfirmed(|cc|, confirmed));
    if i >= 0 then blockNum - (|cc| - 1 - i) else proposed
  }

  lemma DecrementIs(cc: seq<nat>, rest: seq<nat>)
    requires |rest| == |cc| && forall j :: 0 <= j < |cc| ==> cc[j] > 0 && rest[j] == cc[j] - 1
    ensures rest == Decrement(cc)
  {
    hide Decrement;
  }

  lemma ConfirmReaches(cc: seq<nat>, confirmed: nat, i: nat, rest: seq<nat>)
    requires forall j :: 0 <= j < |cc| ==> cc[j] > 0
    requires FirstConfirmed(|cc|, confirmed) <= i < |cc| && cc[i] == 1
    requires forall j :: i < j < |cc| ==> cc[j] != 1
    requires rest == Decrement(cc[i + 1..])
    ensures LastAtOne(cc, FirstConfirmed(|cc|, confirmed)) == i && ConfirmCounts(cc, confirmed) == rest
  {
    hide LastAtOne, Decrement, FirstConfirmed;
    var k := LastAtOne(cc, FirstConfirmed(|cc|, confirmed));
    assert cc[i] == 1 && k >= i;
  }

  lemma ConfirmMisses(cc: seq<nat>, confirmed: nat, rest: seq<nat>)
    requires forall j :: 0 <= j < |cc| ==> cc[j] > 0
    requires forall j :: FirstConfirmed(|cc|, confirmed) <= j < |cc| ==> cc[j] != 1
    requires |rest| == |cc|
    requires forall j :: 0 <= j < |cc| ==> rest[j] == if j < FirstConfirmed(|cc|, confirmed) then cc[j] else cc[j] - 1
    ensures LastAtOne(cc, FirstConfirmed(|cc|, confirmed)) == -1 && ConfirmCounts(cc, confirmed) == rest
  {
    hide LastAtOne, Decrement;
    var lo := FirstConfirmed(|cc|, confirmed);
    assert rest == cc[..lo] + Decrement(cc[lo..]);
  }

  /** The loop over confirm_count, whose entries are uint8_t. */
  method ConfirmBlocks(counts: seq<nat>, blockNum: nat, confirmed: nat, proposed: nat)
    returns (cc: seq<nat>, newProposed: nat)
    requires |counts| <= blockNum && forall i :: 0 <= i < |counts| ==> 0 < counts[i] < 256
    ensures cc == ConfirmCounts(counts, confirmed)
    ensures newProposed == ConfirmProposed(counts, confirmed, blockNum, proposed)
  {
    hide LastAtOne, ConfirmCounts, Decrement;
    cc := counts;
    newProposed := proposed;
    var i := |cc| - 1;
    var blocksToConfirm := confirmed + 1;
    while i >= 0 && blocksToConfirm > 0
      invariant -1 <= i < |counts| == |cc| && blocksToConfirm == confirmed + 1 - (|cc| - 1 - i) >= 0
      invariant forall j :: i < j < |cc| ==> counts[j] > 1 && cc[j] == counts[j] - 1
      invariant forall j :: 0 <= j <= i ==> cc[j] == counts[j]
      invariant newProposed == proposed
    {
      cc := cc[i := (cc[i] + 255) % 256];
      if cc[i] == 0 {
        newProposed := blockNum - (|cc| - 1 - i);
        cc := cc[i + 1..];
        DecrementIs(counts[i + 1..], cc);
        ConfirmReaches(counts, confirmed, i, cc);
        return;
      }
      i := i - 1;
      blocksToConfirm := blocksToConfirm - 1;
    }
    ConfirmMisses(counts, confirmed, cc);
  }

  // ---- one block ----

  /** calc_dpos_last_irreversible: the next block's producer already counts as having seen the
      proposed block. */
  function LastIrreversible(s: HeaderState, producer: Account): (lib: nat) {
    var m := map k | k in s.impliedIrb :: if k == producer then s.proposed else s.impliedIrb[k];
    if |m| == 0 then 0
    else NthSmallest(m, QuorumIndex(|m|), 0, Bound(m))
  }

  /** The check against double confirmation, in uint32_t arithmetic. */
  predicate MayConfirm(s: HeaderState, producer: Account, confirmed: nat) {
    producer in s.lastProduced ==> s.lastProduced[producer] < (s.blockNum + 1 - confirmed) % TWO_32
  }

  /** The per-producer map of a newly promoted schedule. */
  function Rebuilt(producers: seq<Account>, self: Account, selfValue: nat, old_: map<Account, nat>, fallback: nat)
    : (m: map<Account, nat>)
    ensures m.Keys == set p | p in producers
  {
    map p | p in producers :: if p == self then selfValue else if p in old_ then old_[p] else fallback
  }

  method RebuildMap(producers: seq<Account>, self: Account, selfValue: nat, old_: map<Account, nat>, fallback: nat)
    returns (m: map<Account, nat>)
    ensures m == Rebuilt(producers, self, selfValue, old_, fallback)
  {
    m := map[];
    for i := 0 to |producers|
      invariant m == Rebuilt(producers[..i], self, selfValue, old_, fallback)
    {
      var p := producers[i];
      assert producers[..i + 1] == producers[..i] + [p];
      if p == self {
        m := m[p := selfValue];
      } else if p in old_ {
        m := m[p := old_[p]];
      } else {
        m := m[p := fallback];
      }
    }
    assert producers[..|producers|] == producers;
  }

  function ScheduledProducer(active: ProducerSchedule, slot: nat): (p: Account)
    requires active.producers != []
    ensures p in active.producers
  {
    IndexInRange(|active.producers|, slot);
    active.producers[ScheduledIndex(|active.producers|, slot)]
  }

  ghost function Producers(schedule: ProducerSchedule): (ps: set<Account>) {
    set p | p in schedule.producers
  }

  /** Genesis: the initial schedule is both active and waiting to be promoted by the first block. */
  ghost predicate InitialSchedulePending(s: HeaderState) {
    s.impliedIrb == map[] && s.pending.producers != [] && s.pendingLibNum == 0
  }

  /** What every header state keeps: the irreversible blocks are ordered, the counts track only
      blocks after the proposed one, none is exhausted, and no producer is ahead of the chain. */
  ghost predicate Valid(s: HeaderState) {
    && 0 < |s.active.producers| <= MAX_PRODUCERS && |s.pending.producers| <= MAX_PRODUCERS
    && s.lib <= s.proposed && s.proposed + |s.confirmCount| <= s.blockNum
    && |s.confirmCount| <= MAX_TRACKED_CONFIRMATIONS
    && (forall i :: 0 <= i < |s.confirmCount| ==> 0 < s.confirmCount[i] < 256)
    && Bounded(s.impliedIrb, s.proposed)
    && (s.impliedIrb.Keys == Producers(s.active) || InitialSchedulePending(s))
    && Bounded(s.lastProduced, s.blockNum)
  }

  /** next(when, confirmed), with the pending schedule as _finish_next leaves it when the header
      proposes none. Slot 0 asks for the slot after the current one. */
  function NextState(s: HeaderState, when: nat, confirmed: nat): (r: Result<Step, Error>)
    requires Valid(s)
  {
    if when != 0 && when <= s.slot then Err(NotInTheFuture)
    else
      var slot := if when != 0 then when else s.slot + 1;
      var producer := ScheduledProducer(s.active, slot);
      if !MayConfirm(s, producer, confirmed) then Err(DoubleConfirm)
      else
        var blockNum := s.blockNum + 1;
        var cc := Track(s.confirmCount, RequiredConfirmations(|s.active.producers|));
        var proposed := ConfirmProposed(cc, confirmed, blockNum, s.proposed);
        var lib := LastIrreversible(s, producer);
        var promoted := s.pending.producers != [] && lib >= s.pendingLibNum;
        var active := if promoted then s.pending else s.active;
        var lastProduced :=
          if promoted then Rebuilt(active.producers, producer, blockNum, s.lastProduced, lib)[producer := blockNum]
          else s.lastProduced[producer := blockNum];
        var impliedIrb :=
          if promoted then Rebuilt(active.producers, producer, s.proposed, s.impliedIrb, lib)
          else s.impliedIrb[producer := s.proposed];
        Ok(Step(HeaderState(blockNum, slot, proposed, lib, active,
                            if promoted then s.pending.(producers := []) else s.pending, s.pendingLibNum,
                            lastProduced, impliedIrb, ConfirmCounts(cc, confirmed)),
                producer, promoted))
  }

  lemma TrackedCounts(s: HeaderState)
    requires Valid(s)
    ensures s.active.producers != []
    ensures var required := RequiredConfirmations(|s.active.producers|);
            var cc := Track(s.confirmCount, required);
            && required % 256 == required
            && |cc| <= s.blockNum + 1 && forall i :: 0 <= i < |cc| ==> 0 < cc[i] < 256
  {
  }

  /** next(when, confirmed) in the order of the source. */
  method Next(s: HeaderState, when: nat, confirmed: nat) returns (r: Result<Step, Error>)
    requires Valid(s)
    ensures r == NextState(s, when, confirmed)
  {
    hide ConfirmCounts, ConfirmProposed, LastIrreversible, Rebuilt, ScheduledProducer, Valid;
    TrackedCounts(s);
    var slot := when;
    if slot != 0 {
      if slot <= s.slot { return Err(NotInTheFuture); }
    } else {
      slot := s.slot + 1;
    }
    var producer := ScheduledProducer(s.active, slot);
    if producer in s.lastProduced {
      if s.lastProduced[producer] >= (s.blockNum + 1 - confirmed) % TWO_32 { return Err(DoubleConfirm); }
    }
    var result := s.(blockNum := s.blockNum + 1, slot := slot);
    var required := RequiredConfirmations(|s.active.producers|) % 256;
    if |s.confirmCount| < MAX_TRACKED_CONFIRMATIONS {
      result := result.(confirmCount := s.confirmCount + [required]);
    } else {
      result := result.(confirmCount := s.confirmCount[1..] + [required]);
    }
    var cc, proposed := ConfirmBlocks(result.confirmCount, result.blockNum, confirmed, s.proposed);
    result := result.(confirmCount := cc, proposed := proposed, lib := LastIrreversible(s, producer));
    if s.pending.producers != [] && result.lib >= s.pendingLibNum {
      var last := RebuildMap(s.pending.producers, producer, result.blockNum, s.lastProduced, result.lib);
      last := last[producer := result.blockNum];
      var irb := RebuildMap(s.pending.producers, producer, s.proposed, s.impliedIrb, result.lib);
      result := result.(active := s.pending, lastProduced := last, impliedIrb := irb,
                        pending := s.pending.(producers := []));
      r := Ok(Step(result, producer, true));
    } else {
      result := result.(lastProduced := s.lastProduced[producer := result.blockNum],
                        impliedIrb := s.impliedIrb[producer := s.proposed]);
      r := Ok(Step(result, producer, false));
    }
  }

  /** _finish_next: a header may propose a schedule only when none is pending or just promoted. */
  function FinishNext(step: Step, hadPending: bool, blockNum: nat, newProducers: Option<ProducerSchedule>)
    : (r: Result<HeaderState, Error>)
  {
    var s := step.state;
    if newProducers.None? then Ok(s)
    else if step.promoted then Err(PromotedInSameBlock)
    else if newProducers.value.version != s.active.version + 1 then Err(WrongScheduleVersion)
    else if hadPending then Err(PendingNotConfirmed)
    else Ok(s.(pending := newProducers.value, pendingLibNum := blockNum))
  }

  // ---- what every step keeps ----

  /** The map the irreversible block number is read from. */
  ghost function SeenBy(s: HeaderState, producer: Account): (m: map<Account, nat>)
    ensures m.Keys == s.impliedIrb.Keys
  {
    map k | k in s.impliedIrb :: if k == producer then s.proposed else s.impliedIrb[k]
  }

  lemma LibIsQuorumValue(s: HeaderState, producer: Account)
    requires Valid(s)
    ensures LastIrreversible(s, producer) <= s.proposed
    ensures |SeenBy(s, producer)| > 0 ==> IsQuorumValue(SeenBy(s, producer), LastIrreversible(s, producer))
    ensures |SeenBy(s, producer)| == 0 ==> LastIrreversible(s, producer) == 0
  {
    var m := SeenBy(s, producer);
    assert Bounded(m, s.proposed);
    if |m| > 0 {
      assert AtMost(m, -1) == {};
      var q := LastIrreversible(s, producer);
      NthSmallestIs(m, QuorumIndex(|m|), 0, Bound(m));
      if q > s.proposed {
        AllAtMost(m, s.proposed);
        SubsetSize(AtMost(m, s.proposed), AtMost(m, q - 1));
      }
    }
  }

  lemma ConfirmKeepsCounts(cc: seq<nat>, confirmed: nat, blockNum: nat, proposed: nat)
    requires |cc| <= blockNum && proposed + |cc| <= blockNum
    requires forall i :: 0 <= i < |cc| ==> 0 < cc[i] < 256
    ensures var cc', p := ConfirmCounts(cc, confirmed), ConfirmProposed(cc, confirmed, blockNum, proposed);
            && p + |cc'| <= blockNum && |cc'| <= |cc|
            && (p == proposed || p > proposed)
            && (forall i :: 0 <= i < |cc'| ==> 0 < cc'[i] < 256)
  {
    hide LastAtOne, Decrement;
  }

  lemma RebuiltBounded(producers: seq<Account>, self: Account, selfValue: nat, old_: map<Account, nat>, fallback: nat, b: nat)
    requires Bounded(old_, b) && selfValue <= b && fallback <= b
    ensures Bounded(Rebuilt(producers, self, selfValue, old_, fallback), b)
  {
  }

  lemma PutBounded(m: map<Account, nat>, k: Account, v: nat, b: nat, b': nat)
    requires Bounded(m, b) && b <= b' && v <= b'
    ensures Bounded(m, b') && Bounded(m[k := v], b')
  {
  }

  /** The per-producer records after an accepted header, producer by producer: a promotion forgets the
      producers that leave, keeps those that stay and starts newcomers at the irreversible block. */
  ghost predicate Recorded(s: HeaderState, step: Step) {
    var s', p := step.state, step.producer;
    var kept := if step.promoted then Producers(s.pending) else s.lastProduced.Keys;
    && s'.lastProduced.Keys == kept + {p}
    && (forall q :: q in s'.lastProduced ==>
          s'.lastProduced[q] == if q == p then s'.blockNum else if q in s.lastProduced then s.lastProduced[q] else s'.lib)
    && s'.impliedIrb.Keys == (if step.promoted then Producers(s.pending) else s.impliedIrb.Keys + {p})
    && (forall q :: q in s'.impliedIrb ==>
          s'.impliedIrb[q] == if q == p then s.proposed else if q in s.impliedIrb then s.impliedIrb[q] else s'.lib)
  }

  lemma NextRecords(s: HeaderState, when: nat, confirmed: nat)
    requires Valid(s) && NextState(s, when, confirmed).Ok?
    ensures var step := NextState(s, when, confirmed).value;
            && Recorded(s, step)
            && (step.promoted <==> s.pending.producers != [] && step.state.lib >= s.pendingLibNum)
            && step.state.active == (if step.promoted then s.pending else s.active)
            && step.state.pending == (if step.promoted then s.pending.(producers := []) else s.pending)
  {
    hide ConfirmCounts, ConfirmProposed, LastIrreversible, MayConfirm, ScheduledProducer, Valid;
  }

  /** What a newcomer states when its schedule takes over lies above the irreversible block, and what
      a producer that stays states lies above its last block. */
  lemma FirstStatement(s: HeaderState, when: nat, confirmed: nat, p: Account, c: nat)
    requires Valid(s) && NextState(s, when, confirmed).Ok? && NextState(s, when, confirmed).value.promoted
    requires var step := NextState(s, when, confirmed).value;
             p in s.pending.producers && p != step.producer && MayConfirm(step.state, p, c)
             && c <= step.state.blockNum && step.state.blockNum < TWO_32 - 1
    ensures var s' := NextState(s, when, confirmed).value.state;
            s'.blockNum + 1 - c > if p in s.lastProduced then s.lastProduced[p] else s'.lib
  {
    hide NextState, Valid;
    NextRecords(s, when, confirmed);
  }

  /** Every accepted header keeps the state valid; the proposed block never goes back. */
  lemma NextKeepsValid(s: HeaderState, when: nat, confirmed: nat)
    requires Valid(s) && NextState(s, when, confirmed).Ok?
    ensures var s' := NextState(s, when, confirmed).value.state;
            Valid(s') && s'.proposed >= s.proposed && s'.lib <= s.proposed
  {
    hide ConfirmCounts, ConfirmProposed, LastIrreversible, MayConfirm, ScheduledProducer, Rebuilt, Bounded;
    var step := NextState(s, when, confirmed).value;
    var s', p := step.state, step.producer;
    LibIsQuorumValue(s, p);
    ConfirmKeepsCounts(Track(s.confirmCount, RequiredConfirmations(|s.active.producers|)), confirmed, s'.blockNum, s.proposed);
    PutBounded(s.impliedIrb, p, s.proposed, s.proposed, s'.proposed);
    PutBounded(s.lastProduced, p, s'.blockNum, s.blockNum, s'.blockNum);
    if step.promoted {
      RebuiltBounded(s'.active.producers, p, s.proposed, s.impliedIrb, s'.lib, s'.proposed);
      RebuiltBounded(s'.active.producers, p, s'.blockNum, s.lastProduced, s'.lib, s'.blockNum);
      PutBounded(Rebuilt(s'.active.producers, p, s'.blockNum, s.lastProduced, s'.lib), p, s'.blockNum, s'.blockNum, s'.blockNum);
    } else {
      assert s'.impliedIrb.Keys == s.impliedIrb.Keys + {p};
    }
  }
}
