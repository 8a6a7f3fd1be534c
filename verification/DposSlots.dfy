/** Time on a chain of headers: when a header is accepted, that slots go up, and how blocks are shared
    out among the producers of a schedule. */
module DposSlots {
  import opened Bits
  import opened Schedule
  import opened Dpos
  import opened DposSafety
  import opened Wrappers

  // ---- one header ----

  /** The slot of the next block: the one asked for, or the one after the parent's. */
  ghost function SlotFor(s: HeaderState, when: nat): (slot: nat) {
    if when == 0 then s.slot + 1 else when
  }

  /** A header is refused for its time exactly when it asks for a slot that is not after its parent's,
      and otherwise for confirming twice; an accepted one is later than its parent and made by the owner
      of its slot. */
  lemma NextAccepts(s: HeaderState, when: nat, confirmed: nat)
    requires Valid(s)
    ensures s.active.producers != [] && ScheduledIndex(|s.active.producers|, SlotFor(s, when)) < |s.active.producers|
    ensures var owner := s.active.producers[ScheduledIndex(|s.active.producers|, SlotFor(s, when))];
            var r := NextState(s, when, confirmed);
            && (r == Err(NotInTheFuture) <==> 0 < when <= s.slot)
            && (r == Err(DoubleConfirm) <==> (when == 0 || when > s.slot) && !MayConfirm(s, owner, confirmed))
            && (r.Ok? <==> (when == 0 || when > s.slot) && MayConfirm(s, owner, confirmed))
            && (r.Ok? ==> r.value.state.slot == SlotFor(s, when) > s.slot && r.value.producer == owner && r.value.state.blockNum == s.blockNum + 1)
  {
    hide ConfirmCounts, ConfirmProposed, LastIrreversible, MayConfirm, Rebuilt, Track;
    IndexInRange(|s.active.producers|, SlotFor(s, when));
  }

  /** Which headers are accepted, given that the step itself succeeds: no proposal, or one of the next
      version when none waits and none is being promoted. */
  lemma ExtendAccepts(c: Chain, h: Header)
    requires Valid(c.state) && NextState(c.state, h.slot, h.confirmed).Ok?
    ensures var s, s1 := c.state, NextState(c.state, h.slot, h.confirmed).value.state;
            var promoted := s.pending.producers != [] && s1.lib >= s.pendingLibNum;
            && NextState(s, h.slot, h.confirmed).value.promoted == promoted
            && (Extend(c, h).Ok? <==> h.newProducers.None?
                                      || (!promoted && s.pending.producers == [] && h.newProducers.value.version == s.active.version + 1))
            && (Extend(c, h) == Err(PromotedInSameBlock) <==> h.newProducers.Some? && promoted)
            && (Extend(c, h) == Err(WrongScheduleVersion) <==>
                  h.newProducers.Some? && !promoted && h.newProducers.value.version != s.active.version + 1)
            && (Extend(c, h) == Err(PendingNotConfirmed) <==>
                  h.newProducers.Some? && !promoted && h.newProducers.value.version == s.active.version + 1 && s.pending.producers != [])
  {
    hide ConfirmCounts, ConfirmProposed, LastIrreversible, MayConfirm, Rebuilt, Track, ScheduledProducer, Valid;
  }

  // ---- whole chains ----

  ghost predicate Owned(e: Confirmation) {
    var ps := e.schedule.producers;
    ps != [] && ScheduledIndex(|ps|, e.slot) < |ps| && e.producer == ps[ScheduledIndex(|ps|, e.slot)]
  }

  /** Every header is by the owner of its slot, slots go up, and the last one is the state's. */
  ghost predicate Timed(c: Chain) {
    && (forall i :: 0 <= i < |c.hist| ==> Owned(c.hist[i]))
    && (forall i, j :: 0 <= i < j < |c.hist| ==> c.hist[i].slot < c.hist[j].slot)
    && (forall i :: 0 <= i < |c.hist| ==> c.hist[i].slot <= c.state.slot)
  }

  lemma ExtendKeepsTimed(c: Chain, h: Header)
    requires Valid(c.state) && Timed(c) && Extend(c, h).Ok?
    ensures var c' := Extend(c, h).value;
            Timed(c') && |c'.hist| == |c.hist| + 1 && c.hist <= c'.hist && c'.hist[|c.hist|].slot == c'.state.slot > c.state.slot
  {
    hide Valid, ConfirmCounts, ConfirmProposed, LastIrreversible, MayConfirm, Rebuilt, Track, ScheduledProducer, Owned;
    NextAccepts(c.state, h.slot, h.confirmed);
    StatementOwned(c, h);
    assert Extend(c, h).value.hist == c.hist + [Statement(c, h)];
  }

  lemma StatementOwned(c: Chain, h: Header)
    requires Valid(c.state) && NextState(c.state, h.slot, h.confirmed).Ok?
    ensures Owned(Statement(c, h))
  {
    hide Valid, NextState;
    NextAccepts(c.state, h.slot, h.confirmed);
  }

  /** Along every run the slots of successive blocks strictly increase. */
  lemma {:induction false} RunKeepsTimed(c: Chain, headers: seq<Header>)
    requires Valid(c.state) && Timed(c) && SmallSchedules(headers) && Run(c, headers).Ok?
    ensures var c' := Run(c, headers).value;
            Timed(c') && c.hist <= c'.hist && c'.state.slot >= c.state.slot + |headers|
            && forall i :: |c.hist| <= i < |c'.hist| ==> c'.hist[i].slot > c.state.slot
    decreases |headers|
  {
    hide Valid, Extend, Timed;
    if headers != [] {
      ExtendKeepsTimed(c, headers[0]);
      ExtendKeepsValid(c, headers[0]);
      var c1 := Extend(c, headers[0]).value;
      RunKeepsTimed(c1, headers[1..]);
      var c' := Run(c, headers).value;
      assert c'.hist[|c.hist|] == c1.hist[|c.hist|];
    }
  }

  lemma GenesisTimed(slot: nat, headers: seq<Header>)
    requires SmallSchedules(headers) && Run(Genesis(slot), headers).Ok?
    ensures var c := Run(Genesis(slot), headers).value;
            Timed(c) && forall i :: 0 <= i < |c.hist| ==> c.hist[i].slot > slot
  {
    hide Run, Valid;
    RunKeepsTimed(Genesis(slot), headers);
  }

  // ---- shares of a round ----

  /** How many of the headers from position i up to j belong to schedule position k. */
  ghost function Made(hist: seq<Confirmation>, n: nat, i: nat, j: nat, k: nat): (c: nat)
    requires n > 0 && i <= j <= |hist|
    decreases j
  {
    if i == j then 0 else Made(hist, n, i, j - 1, k) + if ScheduledIndex(n, hist[j - 1].slot) == k then 1 else 0
  }

  lemma {:induction false} OwnedGrows(n: nat, start: nat, len: nat, len': nat, k: nat)
    requires n > 0 && len <= len'
    ensures SlotsOwned(n, start, len, k) <= SlotsOwned(n, start, len', k)
    decreases len'
  {
    hide ScheduledIndex;
    if len < len' { OwnedGrows(n, start, len, len' - 1, k); }
  }

  lemma {:induction false} MadeAtMostOwned(hist: seq<Confirmation>, n: nat, i: nat, j: nat, start: nat, len: nat, k: nat)
    requires n > 0 && i <= j <= |hist|
    requires forall a, b :: i <= a < b < j ==> hist[a].slot < hist[b].slot
    requires forall a :: i <= a < j ==> start <= hist[a].slot < start + len
    ensures Made(hist, n, i, j, k) <= SlotsOwned(n, start, len, k)
    decreases j
  {
    hide ScheduledIndex;
    if i < j {
      var l := hist[j - 1].slot - start;
      MadeAtMostOwned(hist, n, i, j - 1, start, l, k);
      OwnedGrows(n, start, l + 1, len, k);
    }
  }

  lemma {:induction false} MadeIsOwned(hist: seq<Confirmation>, n: nat, i: nat, j: nat, start: nat, k: nat)
    requires n > 0 && i <= j <= |hist| && forall a :: i <= a < j ==> hist[a].slot == start + (a - i)
    ensures Made(hist, n, i, j, k) == SlotsOwned(n, start, j - i, k)
    decreases j
  {
    hide ScheduledIndex;
    if i < j { MadeIsOwned(hist, n, i, j - 1, start, k); }
  }

  /** Under one schedule of n producers no position makes more than 12 of the blocks of any n * 12
      consecutive slots, and each makes exactly 12 when no slot is missed. */
  lemma SharesOfARound(c: Chain, n: nat, i: nat, j: nat, start: nat, k: nat)
    requires Timed(c) && k < n && i <= j <= |c.hist|
    requires forall a :: i <= a < j ==> |c.hist[a].schedule.producers| == n && start <= c.hist[a].slot < start + n * PRODUCER_REPETITIONS
    ensures Made(c.hist, n, i, j, k) <= PRODUCER_REPETITIONS
    ensures j - i == n * PRODUCER_REPETITIONS ==> Made(c.hist, n, i, j, k) == PRODUCER_REPETITIONS
  {
    hide ScheduledIndex, Owned;
    RoundIsFair(n, start, k);
    MadeAtMostOwned(c.hist, n, i, j, start, n * PRODUCER_REPETITIONS, k);
    if j - i == n * PRODUCER_REPETITIONS {
      forall a | i <= a < j ensures c.hist[a].slot == start + (a - i) { Packed(c.hist, i, j, a, start); }
      MadeIsOwned(c.hist, n, i, j, start, k);
    }
  }

  /** Rising slots that fill a window fill it in order. */
  lemma Packed(hist: seq<Confirmation>, i: nat, j: nat, a: nat, start: nat)
    requires i <= a < j <= |hist| && forall x, y :: i <= x < y < j ==> hist[x].slot < hist[y].slot
    requires forall x :: i <= x < j ==> start <= hist[x].slot < start + (j - i)
    ensures hist[a].slot == start + (a - i)
  {
    RisesAtLeast(hist, i, a);
    RisesAtLeast(hist, a, j - 1);
  }

  lemma {:induction false} RisesAtLeast(hist: seq<Confirmation>, a: nat, b: nat)
    requires a <= b < |hist| && forall x, y :: a <= x < y <= b ==> hist[x].slot < hist[y].slot
    ensures hist[b].slot >= hist[a].slot + (b - a)
    decreases b - a
  {
    if a < b { RisesAtLeast(hist, a, b - 1); }
  }
}
