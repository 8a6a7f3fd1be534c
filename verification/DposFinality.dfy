/** What the double-confirmation check means, how the irreversible block number moves, and how schedules
    follow each other. */
module DposFinality {
  import opened Bits
  import opened Dpos
  import opened DposSafety
  import opened Wrappers

  // ---- when the double-confirmation check means what it says ----

  /** The check compares as intended exactly when the count does not exceed the new block's number;
      a larger uint16_t count wraps and always passes. */
  lemma GuardMeaning(s: HeaderState, producer: Account, confirmed: nat)
    requires Valid(s) && producer in s.lastProduced && confirmed <= 0xFFFF && s.blockNum + 1 < TWO_32
    ensures MayConfirm(s, producer, confirmed)
            <==> (confirmed > s.blockNum + 1 || s.lastProduced[producer] + confirmed < s.blockNum + 1)
  {
    var d := s.blockNum + 1 - confirmed;
    if d >= 0 {
      assert d % TWO_32 == d;
    } else {
      assert d % TWO_32 == d + TWO_32;
      assert s.lastProduced[producer] <= s.blockNum;
    }
  }

  // ---- the irreversible block number ----

  /** The irreversible number agrees with the map it will next be computed from. That holds after
      every block except one that promotes a schedule. */
  ghost predicate Settled(s: HeaderState) {
    |s.impliedIrb| > 0 && IsQuorumValue(s.impliedIrb, s.lib)
  }

  lemma SeenByIsNext(s: HeaderState, producer: Account)
    requires producer in s.impliedIrb
    ensures SeenBy(s, producer) == s.impliedIrb[producer := s.proposed]
  {
  }

  /** The first block promotes the initial schedule. */
  lemma InitialPromotes(s: HeaderState, when: nat, confirmed: nat)
    requires Valid(s) && InitialSchedulePending(s) && NextState(s, when, confirmed).Ok?
    ensures NextState(s, when, confirmed).value.promoted
  {
    hide ConfirmCounts, ConfirmProposed, LastIrreversible, MayConfirm, ScheduledProducer, Rebuilt;
    var p := NextState(s, when, confirmed).value.producer;
    LibIsQuorumValue(s, p);
    assert |SeenBy(s, p).Keys| == 0;
  }

  /** A block that promotes no schedule leaves more than two thirds of its producers at or above the
      irreversible number. */
  lemma LibHasQuorum(s: HeaderState, when: nat, confirmed: nat)
    requires Valid(s) && NextState(s, when, confirmed).Ok? && !NextState(s, when, confirmed).value.promoted
    ensures var s' := NextState(s, when, confirmed).value.state;
            && Settled(s') && s'.impliedIrb.Keys == Producers(s'.active)
            && 3 * |AtLeast(s'.impliedIrb, s'.lib)| > 2 * |s'.impliedIrb|
  {
    hide ConfirmCounts, ConfirmProposed, LastIrreversible, MayConfirm, ScheduledProducer, Rebuilt, IsQuorumValue, SeenBy, AtLeast;
    var step := NextState(s, when, confirmed).value;
    var s', p := step.state, step.producer;
    LibIsQuorumValue(s, p);
    if InitialSchedulePending(s) {
      InitialPromotes(s, when, confirmed);
    } else {
      SeenByIsNext(s, p);
      assert p in SeenBy(s, p).Keys;
      assert |SeenBy(s, p)| == |SeenBy(s, p).Keys| > 0;
      TwoThirdsAtLeast(s'.impliedIrb, s'.lib);
    }
  }

  /** From a settled state the irreversible number never goes back, promotion or not. */
  lemma LibNeverDropsWhenSettled(s: HeaderState, when: nat, confirmed: nat)
    requires Valid(s) && Settled(s) && NextState(s, when, confirmed).Ok?
    ensures NextState(s, when, confirmed).value.state.lib >= s.lib
  {
    hide ConfirmCounts, ConfirmProposed, LastIrreversible, MayConfirm, ScheduledProducer, Rebuilt, IsQuorumValue;
    var p := NextState(s, when, confirmed).value.producer;
    LibIsQuorumValue(s, p);
    var m := SeenBy(s, p);
    assert |m| == |m.Keys| == |s.impliedIrb.Keys| == |s.impliedIrb|;
    QuorumMonotone(s.impliedIrb, m, s.lib, NextState(s, when, confirmed).value.state.lib);
  }

  /** In general the number goes back exactly when too many tracked producers are below it. */
  lemma LibDropsIff(s: HeaderState, when: nat, confirmed: nat)
    requires Valid(s) && |s.impliedIrb| > 0 && NextState(s, when, confirmed).Ok?
    ensures var step := NextState(s, when, confirmed).value;
            step.state.lib < s.lib <==> |AtMost(SeenBy(s, step.producer), s.lib - 1)| > QuorumIndex(|s.impliedIrb|)
  {
    hide ConfirmCounts, ConfirmProposed, LastIrreversible, MayConfirm, ScheduledProducer, Rebuilt;
    var step := NextState(s, when, confirmed).value;
    LibIsQuorumValue(s, step.producer);
    var m, q := SeenBy(s, step.producer), step.state.lib;
    assert |m| == |m.Keys| == |s.impliedIrb.Keys| == |s.impliedIrb|;
    if q < s.lib {
      SubsetSize(AtMost(m, q), AtMost(m, s.lib - 1));
    } else {
      SubsetSize(AtMost(m, s.lib - 1), AtMost(m, q - 1));
    }
  }

  // ---- schedule versions ----

  /** A waiting schedule is the next version, except at genesis. */
  ghost predicate VersionsInOrder(s: HeaderState) {
    s.pending.producers == [] || s.pending.version == s.active.version + 1 || (InitialSchedulePending(s) && s.pending == s.active)
  }

  /** One header keeps the schedule, or replaces it by the one that was waiting, one version up. */
  lemma VersionStep(c: Chain, h: Header)
    requires Valid(c.state) && VersionsInOrder(c.state) && Extend(c, h).Ok?
    ensures var s, s' := c.state, Extend(c, h).value.state;
            && VersionsInOrder(s')
            && (s'.active == s.active || (s'.active == s.pending && s'.active.version == s.active.version + 1))
            && (h.newProducers.Some? ==> s'.active == s.active && s.pending.producers == [] && s'.pending == h.newProducers.value
                                         && s'.pending.version == s.active.version + 1 && s'.pendingLibNum == s'.blockNum)
  {
    hide ConfirmCounts, ConfirmProposed, LastIrreversible, MayConfirm, ScheduledProducer, Rebuilt, Track;
    var s := c.state;
    if InitialSchedulePending(s) { InitialPromotes(s, h.slot, h.confirmed); }
  }

  ghost predicate SameOrNext(a: ProducerSchedule, b: ProducerSchedule) {
    b == a || b.version == a.version + 1
  }

  /** From each block's schedule to the next, and on to the active one, versions go up by at most one. */
  ghost predicate VersionsUp(c: Chain) {
    && (forall i :: 0 <= i < |c.hist| - 1 ==> SameOrNext(c.hist[i].schedule, c.hist[i + 1].schedule))
    && (c.hist != [] ==> SameOrNext(c.hist[|c.hist| - 1].schedule, c.state.active))
  }

  lemma VersionsUpStep(c: Chain, h: Header)
    requires Valid(c.state) && VersionsInOrder(c.state) && VersionsUp(c) && Extend(c, h).Ok?
    ensures var c' := Extend(c, h).value;
            VersionsInOrder(c'.state) && VersionsUp(c') && c'.hist == c.hist + [c'.hist[|c.hist|]] && c'.hist[|c.hist|].schedule == c.state.active
  {
    hide NextState, Valid, VersionsInOrder, SameOrNext;
    VersionStep(c, h);
    var c' := Extend(c, h).value;
    assert SameOrNext(c.state.active, c'.state.active) by { OneUp(c.state.active, c'.state.active); }
    forall i | 0 <= i < |c'.hist| - 1 ensures SameOrNext(c'.hist[i].schedule, c'.hist[i + 1].schedule) {
      if i < |c.hist| - 1 { assert c'.hist[i] == c.hist[i] && c'.hist[i + 1] == c.hist[i + 1]; }
    }
  }

  lemma OneUp(a: ProducerSchedule, b: ProducerSchedule)
    requires b == a || b.version == a.version + 1
    ensures SameOrNext(a, b)
  {
  }

  /** On every run the schedules follow one another version by version. */
  lemma {:induction false} VersionsOnRun(c: Chain, headers: seq<Header>)
    requires Valid(c.state) && VersionsInOrder(c.state) && VersionsUp(c) && SmallSchedules(headers) && Run(c, headers).Ok?
    ensures var c' := Run(c, headers).value;
            && VersionsInOrder(c'.state) && VersionsUp(c') && c.hist <= c'.hist
            && (headers != [] ==> |c'.hist| > |c.hist| && c'.hist[|c.hist|].schedule == c.state.active)
    decreases |headers|
  {
    hide Valid, Extend, VersionsInOrder, VersionsUp;
    if headers != [] {
      VersionsUpStep(c, headers[0]);
      ExtendKeepsValid(c, headers[0]);
      VersionsOnRun(Extend(c, headers[0]).value, headers[1..]);
    }
  }

  /** From genesis: the first block's schedule is version 0, and from block to block the version stays,
      with the schedule, or goes up by one. */
  lemma VersionsFromGenesis(slot: nat, headers: seq<Header>)
    requires SmallSchedules(headers) && Run(Genesis(slot), headers).Ok?
    ensures var c := Run(Genesis(slot), headers).value;
            VersionsUp(c) && (headers != [] ==> |c.hist| > 0 && c.hist[0].schedule == ProducerSchedule(0, [SYSTEM_ACCOUNT]))
  {
    hide Run, Valid;
    VersionsOnRun(Genesis(slot), headers);
  }
}
