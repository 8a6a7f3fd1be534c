/** Concrete chains from genesis: the irreversible block number goes back, and blocks are proposed
    without two thirds of their own schedule. */
module DposRuns {
  import opened Bits
  import opened Schedule
  import opened Dpos
  import opened DposSafety
  import opened DposFinality
  import opened Wrappers

  // ---- running one more header ----

  lemma {:induction false} RunAppend(c: Chain, headers: seq<Header>, h: Header)
    requires Valid(c.state) && SmallSchedules(headers) && SmallSchedules([h]) && Run(c, headers).Ok?
    ensures SmallSchedules(headers + [h])
    ensures Run(c, headers + [h]) == Extend(Run(c, headers).value, h)
    decreases |headers|
  {
    hide Extend, Valid;
    var all := headers + [h];
    assert forall i :: 0 <= i < |headers| ==> all[i] == headers[i];
    assert all[|headers|] == [h][0];
    if headers == [] {
      assert all[0] == h && all[1..] == [];
      if Extend(c, h).Ok? { ExtendKeepsValid(c, h); }
    } else {
      ExtendKeepsValid(c, headers[0]);
      assert all[1..] == headers[1..] + [h];
      assert forall i :: 0 <= i < |headers[1..]| ==> headers[1..][i] == headers[i + 1];
      RunAppend(Extend(c, headers[0]).value, headers[1..], h);
    }
  }

  /** These headers lead from genesis to this chain. */
  ghost predicate Reaches(headers: seq<Header>, c: Chain) {
    SmallSchedules(headers) && Run(Genesis(0), headers) == Ok(c)
  }

  lemma ReachesValid(headers: seq<Header>, c: Chain)
    requires Reaches(headers, c)
    ensures Valid(c.state) && Numbered(c.hist)
  {
    hide Run;
    GenesisSound(0);
    RunKeepsSound(Genesis(0), headers);
  }

  lemma ReachesNext(headers: seq<Header>, c: Chain, h: Header, s': HeaderState)
    requires Reaches(headers, c) && Valid(c.state) && SmallSchedules([h]) && NextState(c.state, h.slot, h.confirmed).Ok?
    requires var step := NextState(c.state, h.slot, h.confirmed).value;
             FinishNext(step, c.state.pending.producers != [], step.state.blockNum, h.newProducers) == Ok(s')
    ensures Reaches(headers + [h], Chain(s', c.hist + [Statement(c, h)]))
  {
    hide NextState, FinishNext, Valid, Run;
    RunAppend(Genesis(0), headers, h);
  }

  // ---- computing one step ----

  lemma QuorumUnique(m: map<Account, nat>, q: nat, q': nat)
    requires |m| > 0 && IsQuorumValue(m, q) && IsQuorumValue(m, q')
    ensures q == q'
  {
    hide IsQuorumValue;
    QuorumMonotone(m, m, q, q');
    QuorumMonotone(m, m, q', q);
  }

  lemma LibIs(s: HeaderState, producer: Account, lib: nat)
    requires Valid(s) && |SeenBy(s, producer)| > 0 && IsQuorumValue(SeenBy(s, producer), lib)
    ensures LastIrreversible(s, producer) == lib
  {
    hide IsQuorumValue, SeenBy, LastIrreversible, Valid;
    LibIsQuorumValue(s, producer);
    QuorumUnique(SeenBy(s, producer), LastIrreversible(s, producer), lib);
  }

  /** The counts and the proposed block after a header, in a given state. */
  ghost predicate Counted(s: HeaderState, confirmed: nat, cc: seq<nat>, proposed: nat)
    requires Valid(s)
  {
    TrackedCounts(s);
    var tracked := Track(s.confirmCount, RequiredConfirmations(|s.active.producers|));
    ConfirmCounts(tracked, confirmed) == cc && ConfirmProposed(tracked, confirmed, s.blockNum + 1, s.proposed) == proposed
  }

  /** A header by this producer, after which lib is irreversible. */
  ghost predicate Fits(s: HeaderState, h: Header, producer: Account, lib: nat) {
    && s.active.producers != [] && h.slot > s.slot && ScheduledProducer(s.active, h.slot) == producer
    && MayConfirm(s, producer, h.confirmed)
    && |SeenBy(s, producer)| > 0 && IsQuorumValue(SeenBy(s, producer), lib)
  }

  lemma KeepStep(s: HeaderState, h: Header, producer: Account, lib: nat, cc: seq<nat>, proposed: nat)
    requires Valid(s) && Fits(s, h, producer, lib) && Counted(s, h.confirmed, cc, proposed)
    requires s.pending.producers == [] || lib < s.pendingLibNum
    ensures NextState(s, h.slot, h.confirmed)
            == Ok(Step(s.(blockNum := s.blockNum + 1, slot := h.slot, proposed := proposed, lib := lib,
                          lastProduced := s.lastProduced[producer := s.blockNum + 1],
                          impliedIrb := s.impliedIrb[producer := s.proposed], confirmCount := cc),
                       producer, false))
  {
    hide LastIrreversible, ScheduledProducer, MayConfirm, IsQuorumValue, SeenBy, ConfirmCounts, ConfirmProposed, Track, Valid;
    TrackedCounts(s);
    LibIs(s, producer, lib);
  }

  lemma PromoteStep(s: HeaderState, h: Header, producer: Account, lib: nat, cc: seq<nat>, proposed: nat)
    requires Valid(s) && Fits(s, h, producer, lib) && Counted(s, h.confirmed, cc, proposed)
    requires s.pending.producers != [] && lib >= s.pendingLibNum
    ensures NextState(s, h.slot, h.confirmed)
            == Ok(Step(s.(blockNum := s.blockNum + 1, slot := h.slot, proposed := proposed, lib := lib,
                          active := s.pending, pending := s.pending.(producers := []),
                          lastProduced := Rebuilt(s.pending.producers, producer, s.blockNum + 1, s.lastProduced, lib)[producer := s.blockNum + 1],
                          impliedIrb := Rebuilt(s.pending.producers, producer, s.proposed, s.impliedIrb, lib), confirmCount := cc),
                       producer, true))
  {
    hide LastIrreversible, ScheduledProducer, MayConfirm, IsQuorumValue, SeenBy, ConfirmCounts, ConfirmProposed, Track, Valid, Rebuilt;
    TrackedCounts(s);
    LibIs(s, producer, lib);
  }

  /** A value is the quorum value if this many producers are below it and this many at or below. */
  lemma QuorumIs(m: map<Account, nat>, keys: set<Account>, below: set<Account>, upTo: set<Account>, q: nat)
    requires m.Keys == keys && keys != {} && AtMost(m, q - 1) == below && AtMost(m, q) == upTo
    requires |below| <= (|keys| - 1) / 3 < |upTo|
    ensures |m| > 0 && IsQuorumValue(m, q)
  {
    assert |m| == |m.Keys|;
  }

  // ---- the first blocks ----

  const S: Account := SYSTEM_ACCOUNT

  ghost function Initial(): (p: ProducerSchedule) { ProducerSchedule(0, [S]) }

  /** Under one producer every block is proposed at once. */
  ghost function Chain2(): (c: Chain) {
    Chain(HeaderState(2, 1, 2, 0, Initial(), ProducerSchedule(0, []), 0, map[S := 2], map[S := 0], []),
          [Confirmation(2, 1, S, 0, Initial())])
  }

  /** Block 3 proposes a schedule. */
  ghost function Chain3(next: ProducerSchedule): (c: Chain) {
    Chain(HeaderState(3, 2, 3, 2, Initial(), next, 3, map[S := 3], map[S := 2], []),
          Chain2().hist + [Confirmation(3, 2, S, 0, Initial())])
  }

  ghost function Headers2(): (hs: seq<Header>) { [Header(1, 0, None)] }

  ghost function Headers3(next: ProducerSchedule): (hs: seq<Header>) { Headers2() + [Header(2, 0, Some(next))] }

  lemma SoloSlot(version: nat, slot: nat)
    ensures ScheduledProducer(ProducerSchedule(version, [S]), slot) == S
  {
    IndexInRange(1, slot);
  }

  /** The initial schedule is promoted by the first block. */
  lemma GenesisStep()
    ensures NextState(Genesis(0).state, 1, 0) == Ok(Step(Chain2().state, S, true))
  {
    hide Valid, ScheduledProducer, ConfirmCounts, ConfirmProposed, NthSmallest;
    var g := Genesis(0).state;
    SoloSlot(0, 1);
    OneOfOne(2, 0);
    assert Track([], 1) == [1];
    assert LastIrreversible(g, S) == 0;
    assert Rebuilt([S], S, 2, map[], 0)[S := 2] == map[S := 2];
    assert Rebuilt([S], S, 0, map[], 0) == map[S := 0];
  }

  lemma Block2()
    ensures Reaches(Headers2(), Chain2())
  {
    hide NextState, Valid;
    GenesisStep();
    assert [] + [Header(1, 0, None)] == Headers2();
    assert [] + [Statement(Genesis(0), Header(1, 0, None))] == Chain2().hist;
    ReachesNext([], Genesis(0), Header(1, 0, None), Chain2().state);
  }

  lemma SoloQuorum(m: map<Account, nat>, v: nat)
    requires m == map[S := v]
    ensures |m| > 0 && IsQuorumValue(m, v)
  {
    assert AtMost(m, v) == {S} && AtMost(m, v - 1) == {};
    QuorumIs(m, {S}, {}, {S}, v);
  }

  lemma Block3(next: ProducerSchedule)
    requires next.version == 1 && 0 < |next.producers| <= MAX_PRODUCERS
    ensures Reaches(Headers3(next), Chain3(next))
  {
    hide NextState, Reaches, Counted, Valid, IsQuorumValue, ScheduledProducer, Headers2;
    var s, h := Chain2().state, Header(2, 0, Some(next));
    Block2();
    ReachesValid(Headers2(), Chain2());
    SoloCounted(s);
    assert SeenBy(s, S) == map[S := 2];
    SoloQuorum(SeenBy(s, S), 2);
    SoloSlot(0, 2);
    KeepStep(s, h, S, 2, [], 3);
    assert map[S := 2][S := 3] == map[S := 3] && map[S := 0][S := 2] == map[S := 2];
    ReachesNext(Headers2(), Chain2(), h, Chain3(next).state);
  }

  // ---- counts ----

  lemma CountedBy(s: HeaderState, confirmed: nat, tracked: seq<nat>, cc: seq<nat>, proposed: nat)
    requires Valid(s) && tracked == Track(s.confirmCount, RequiredConfirmations(|s.active.producers|))
    requires |tracked| <= s.blockNum + 1 && forall i :: 0 <= i < |tracked| ==> tracked[i] > 0
    requires ConfirmCounts(tracked, confirmed) == cc
    requires ConfirmProposed(tracked, confirmed, s.blockNum + 1, s.proposed) == proposed
    ensures Counted(s, confirmed, cc, proposed)
  {
    hide ConfirmCounts, ConfirmProposed, Track, Valid;
  }

  lemma OneOfOne(blockNum: nat, proposed: nat)
    requires blockNum > 0
    ensures ConfirmCounts([1], 0) == [] && ConfirmProposed([1], 0, blockNum, proposed) == blockNum
  {
    hide LastAtOne, Decrement;
    DecrementIs([], []);
    assert [1 as nat][1..] == [];
    ConfirmReaches([1], 0, 0, []);
  }

  lemma SoloCounted(s: HeaderState)
    requires Valid(s) && s.confirmCount == [] && |s.active.producers| == 1
    ensures Counted(s, 0, [], s.blockNum + 1)
  {
    hide ConfirmCounts, ConfirmProposed, Valid, Counted;
    OneOfOne(s.blockNum + 1, s.proposed);
    assert Track([], 1) == [1];
    CountedBy(s, 0, [1], [], s.blockNum + 1);
  }

  lemma ThreeOfThree(blockNum: nat, proposed: nat)
    requires blockNum > 2
    ensures ConfirmCounts([1, 2, 3], 2) == [1, 2] && ConfirmProposed([1, 2, 3], 2, blockNum, proposed) == blockNum - 2
  {
    hide LastAtOne, Decrement;
    var cc: seq<nat> := [1, 2, 3];
    assert cc[1..] == [2, 3];
    DecrementIs([2, 3], [1, 2]);
    ConfirmReaches(cc, 2, 0, [1, 2]);
  }

  /** With three of four needed: the last of three statements about the oldest tracked block. */
  lemma SteadyCounted(s: HeaderState)
    requires Valid(s) && s.confirmCount == [1, 2] && |s.active.producers| == 4 && s.blockNum > 2
    ensures Counted(s, 2, [1, 2], s.blockNum - 1)
  {
    hide ConfirmCounts, ConfirmProposed, Valid, Counted;
    ThreeOfThree(s.blockNum + 1, s.proposed);
    assert Track([1, 2], 3) == [1, 2, 3];
    CountedBy(s, 2, [1, 2, 3], [1, 2], s.blockNum - 1);
  }

  lemma NotYet(blockNum: nat, proposed: nat)
    requires blockNum > 2
    ensures ConfirmCounts([3], 0) == [2] && ConfirmProposed([3], 0, blockNum, proposed) == proposed
    ensures ConfirmCounts([2, 3], 1) == [1, 2] && ConfirmProposed([2, 3], 1, blockNum, proposed) == proposed
  {
    hide LastAtOne, Decrement;
    ConfirmMisses([3], 0, [2]);
    ConfirmMisses([2, 3], 1, [1, 2]);
  }

  lemma FirstCounted(s: HeaderState)
    requires Valid(s) && s.confirmCount == [] && |s.active.producers| == 4 && s.blockNum > 2
    ensures Counted(s, 0, [2], s.proposed)
  {
    hide ConfirmCounts, ConfirmProposed, Valid, Counted;
    NotYet(s.blockNum + 1, s.proposed);
    assert Track([], 3) == [3];
    CountedBy(s, 0, [3], [2], s.proposed);
  }

  lemma SecondCounted(s: HeaderState)
    requires Valid(s) && s.confirmCount == [2] && |s.active.producers| == 4 && s.blockNum > 2
    ensures Counted(s, 1, [1, 2], s.proposed)
  {
    hide ConfirmCounts, ConfirmProposed, Valid, Counted;
    NotYet(s.blockNum + 1, s.proposed);
    assert Track([2], 3) == [2, 3];
    CountedBy(s, 1, [2, 3], [1, 2], s.proposed);
  }

  // ---- four producers ----

  /** One number for each of the producers S, 1, 2 and 3. */
  datatype Four = Four(s: nat, a: nat, b: nat, c: nat) {
    ghost function Get(i: nat): (n: nat)
      requires i < 4
    {
      if i == 0 then s else if i == 1 then a else if i == 2 then b else c
    }

    ghost function Put(i: nat, n: nat): (r: Four)
      requires i < 4
    {
      if i == 0 then Four(n, a, b, c) else if i == 1 then Four(s, n, b, c) else if i == 2 then Four(s, a, n, c) else Four(s, a, b, n)
    }

    ghost function ToMap(): (m: map<Account, nat>) {
      map[S := s, 1 := a, 2 := b, 3 := c]
    }

    /** How many are at most v. */
    ghost function Count(v: int): (n: nat) {
      (if s <= v then 1 else 0) + (if a <= v then 1 else 0) + (if b <= v then 1 else 0) + (if c <= v then 1 else 0)
    }
  }

  ghost function Member(i: nat): (p: Account)
    requires i < 4
  {
    if i == 0 then S else i
  }

  lemma PutIsUpdate(f: Four, i: nat, n: nat)
    requires i < 4
    ensures f.ToMap()[Member(i) := n] == f.Put(i, n).ToMap()
    ensures Member(i) in f.ToMap() && f.ToMap()[Member(i)] == f.Get(i)
  {
  }

  /** One more producer counts when its number is at most v. */
  lemma AtMostPut(m: map<Account, nat>, k: Account, x: nat, v: int)
    requires k !in m
    ensures |AtMost(m[k := x], v)| == |AtMost(m, v)| + (if x <= v then 1 else 0)
    ensures |m[k := x]| == |m| + 1
  {
    assert AtMost(m[k := x], v) == if x <= v then AtMost(m, v) + {k} else AtMost(m, v);
    assert m[k := x].Keys == m.Keys + {k};
    assert |m[k := x]| == |m[k := x].Keys| && |m| == |m.Keys|;
  }

  lemma CountIs(f: Four, v: int)
    ensures |AtMost(f.ToMap(), v)| == f.Count(v) && |f.ToMap()| == 4
  {
    hide AtMost;
    var m0: map<Account, nat> := map[];
    var m1 := m0[S := f.s];
    var m2 := m1[1 := f.a];
    var m3 := m2[2 := f.b];
    AtMostNone(v);
    AtMostPut(m0, S, f.s, v);
    AtMostPut(m1, 1, f.a, v);
    AtMostPut(m2, 2, f.b, v);
    AtMostPut(m3, 3, f.c, v);
    assert f.ToMap() == m3[3 := f.c];
  }

  lemma AtMostNone(v: int)
    ensures |AtMost(map[], v)| == 0
  {
    assert AtMost(map[], v) == {};
  }

  lemma FourQuorum(f: Four, q: nat)
    requires f.Count(q - 1) <= 1 < f.Count(q)
    ensures |f.ToMap()| > 0 && IsQuorumValue(f.ToMap(), q)
  {
    hide AtMost, Four.Count, Four.ToMap;
    CountIs(f, q);
    CountIs(f, q - 1);
  }

  // ---- two producers ----

  /** Of two producers the lower one decides. */
  lemma TwoQuorum(m: map<Account, nat>, p: Account, x: nat, y: nat, q: nat)
    requires p != S && m == map[S := x, p := y] && q == if x < y then x else y
    ensures |m| > 0 && IsQuorumValue(m, q)
  {
    hide AtMost;
    var m1: map<Account, nat> := map[S := x];
    AtMostNone(q - 1);
    AtMostNone(q);
    AtMostPut(map[], S, x, q - 1);
    AtMostPut(map[], S, x, q);
    AtMostPut(m1, p, y, q - 1);
    AtMostPut(m1, p, y, q);
    assert m1 == map[][S := x] && m == m1[p := y];
  }

  lemma TwoSlots(schedule: ProducerSchedule, p: Account, slot: nat)
    requires schedule.producers == [S, p]
    ensures ScheduledProducer(schedule, slot) == if slot % 24 / 12 == 0 then S else p
  {
    IndexInRange(2, slot);
  }

  ghost function First(): (p: ProducerSchedule) { ProducerSchedule(1, [S, 1, 2, 3]) }

  ghost function Second(): (p: ProducerSchedule) { ProducerSchedule(2, [S, 3, 4]) }

  lemma FourSlots(slot: nat, i: nat)
    requires i < 4 && slot % 48 / 12 == i
    ensures ScheduledProducer(First(), slot) == Member(i)
  {
  }

  /** A state under the schedule of four. */
  ghost function Under(num: nat, slot: nat, proposed: nat, lib: nat, pending: ProducerSchedule, pendingLib: nat, last: Four, irb: Four, cc: seq<nat>)
    : (s: HeaderState)
  {
    HeaderState(num, slot, proposed, lib, First(), pending, pendingLib, last.ToMap(), irb.ToMap(), cc)
  }

  lemma FourFits(s: HeaderState, last: Four, irb: Four, h: Header, i: nat, lib: nat)
    requires s.active == First() && s.lastProduced == last.ToMap() && s.impliedIrb == irb.ToMap()
    requires i < 4 && h.slot > s.slot && h.slot % 48 / 12 == i
    requires last.Get(i) + h.confirmed < s.blockNum + 1 < TWO_32
    requires irb.Put(i, s.proposed).Count(lib - 1) <= 1 < irb.Put(i, s.proposed).Count(lib)
    ensures Fits(s, h, Member(i), lib)
  {
    hide ScheduledProducer, IsQuorumValue, Four.Count, Four.ToMap, Four.Put, Four.Get;
    FourSlots(h.slot, i);
    PutIsUpdate(last, i, 0);
    PutIsUpdate(irb, i, s.proposed);
    SeenByIsNext(s, Member(i));
    FourQuorum(irb.Put(i, s.proposed), lib);
  }

  /** A header under the schedule of four that promotes nothing. */
  lemma FourBlock(hs: seq<Header>, c: Chain, last: Four, irb: Four, h: Header, i: nat, lib: nat, cc: seq<nat>, proposed: nat)
    requires Reaches(hs, c) && Valid(c.state) && Counted(c.state, h.confirmed, cc, proposed)
    requires c.state == Under(c.state.blockNum, c.state.slot, c.state.proposed, c.state.lib, Second(), 5, last, irb, c.state.confirmCount)
    requires i < 4 && h.slot > c.state.slot && h.slot % 48 / 12 == i && h.newProducers.None?
    requires last.Get(i) + h.confirmed < c.state.blockNum + 1 < TWO_32
    requires irb.Put(i, c.state.proposed).Count(lib - 1) <= 1 < irb.Put(i, c.state.proposed).Count(lib) && lib < 5
    ensures Reaches(hs + [h], Chain(Under(c.state.blockNum + 1, h.slot, proposed, lib, Second(), 5,
                                          last.Put(i, c.state.blockNum + 1), irb.Put(i, c.state.proposed), cc),
                                    c.hist + [Confirmation(c.state.blockNum + 1, h.slot, Member(i), h.confirmed, First())]))
  {
    hide NextState, Reaches, Counted, Valid, Fits, Four.Count, Four.ToMap, Four.Put, Four.Get;
    var s := c.state;
    FourFits(s, last, irb, h, i, lib);
    KeepStep(s, h, Member(i), lib, cc, proposed);
    PutIsUpdate(last, i, s.blockNum + 1);
    PutIsUpdate(irb, i, s.proposed);
    ReachesNext(hs, c, h, NextState(s, h.slot, h.confirmed).value.state);
  }

  // ---- the first run ----

  ghost function Headers4(): (hs: seq<Header>) { Headers3(First()) + [Header(3, 0, None)] }

  ghost function Headers5(): (hs: seq<Header>) { Headers4() + [Header(12, 0, Some(Second()))] }

  ghost function Headers6(): (hs: seq<Header>) { Headers5() + [Header(24, 1, None)] }

  ghost function Headers7(): (hs: seq<Header>) { Headers6() + [Header(48, 2, None)] }

  ghost function Headers8(): (hs: seq<Header>) { Headers7() + [Header(60, 2, None)] }

  ghost function Headers9(): (hs: seq<Header>) { Headers8() + [Header(72, 2, None)] }

  ghost function Headers10(): (hs: seq<Header>) { Headers9() + [Header(96, 2, None)] }

  ghost function Chain4(): (c: Chain) {
    Chain(Under(4, 3, 4, 3, First().(producers := []), 3, Four(4, 3, 3, 3), Four(3, 3, 3, 3), []),
          Chain3(First()).hist + [Confirmation(4, 3, S, 0, Initial())])
  }

  ghost function Chain5(): (c: Chain) {
    Chain(Under(5, 12, 4, 3, Second(), 5, Four(4, 5, 3, 3), Four(3, 4, 3, 3), [2]),
          Chain4().hist + [Confirmation(5, 12, 1, 0, First())])
  }

  ghost function Chain6(): (c: Chain) {
    Chain(Under(6, 24, 4, 3, Second(), 5, Four(4, 5, 6, 3), Four(3, 4, 4, 3), [1, 2]),
          Chain5().hist + [Confirmation(6, 24, 2, 1, First())])
  }

  ghost function Chain7(): (c: Chain) {
    Chain(Under(7, 48, 5, 4, Second(), 5, Four(7, 5, 6, 3), Four(4, 4, 4, 3), [1, 2]),
          Chain6().hist + [Confirmation(7, 48, S, 2, First())])
  }

  ghost function Chain8(): (c: Chain) {
    Chain(Under(8, 60, 6, 4, Second(), 5, Four(7, 8, 6, 3), Four(4, 5, 4, 3), [1, 2]),
          Chain7().hist + [Confirmation(8, 60, 1, 2, First())])
  }

  ghost function Chain9(): (c: Chain) {
    Chain(Under(9, 72, 7, 4, Second(), 5, Four(7, 8, 9, 3), Four(4, 5, 6, 3), [1, 2]),
          Chain8().hist + [Confirmation(9, 72, 2, 2, First())])
  }

  /** Block 10 makes block 5 irreversible and promotes the schedule of three. */
  ghost function Chain10(): (c: Chain) {
    Chain(HeaderState(10, 96, 8, 5, Second(), Second().(producers := []), 5, map[S := 10, 3 := 3, 4 := 5], map[S := 7, 3 := 3, 4 := 5], [1, 2]),
          Chain9().hist + [Confirmation(10, 96, S, 2, First())])
  }

  lemma RebuiltFour()
    ensures Rebuilt(First().producers, S, 4, map[S := 3], 3)[S := 4] == Four(4, 3, 3, 3).ToMap()
    ensures Rebuilt(First().producers, S, 3, map[S := 2], 3) == Four(3, 3, 3, 3).ToMap()
  {
  }

  lemma Block4()
    ensures Reaches(Headers4(), Chain4())
  {
    hide NextState, Reaches, Counted, Valid, Rebuilt, IsQuorumValue, ScheduledProducer, Four.ToMap, Headers3;
    var s, h := Chain3(First()).state, Header(3, 0, None);
    Block3(First());
    ReachesValid(Headers3(First()), Chain3(First()));
    SoloCounted(s);
    assert SeenBy(s, S) == map[S := 3];
    SoloQuorum(SeenBy(s, S), 3);
    SoloSlot(0, 3);
    RebuiltFour();
    PromoteStep(s, h, S, 3, [], 4);
    ReachesNext(Headers3(First()), Chain3(First()), h, Chain4().state);
  }

  /** Block 5 proposes the schedule of three. */
  lemma Block5()
    ensures Reaches(Headers5(), Chain5())
  {
    hide NextState, Reaches, Counted, Valid, Fits, Four.ToMap, Headers4;
    var s, h := Chain4().state, Header(12, 0, Some(Second()));
    var last, irb := Four(4, 3, 3, 3), Four(3, 3, 3, 3);
    Block4();
    ReachesValid(Headers4(), Chain4());
    FirstCounted(s);
    FourFits(s, last, irb, h, 1, 3);
    KeepStep(s, h, 1, 3, [2], 4);
    PutIsUpdate(last, 1, 5);
    PutIsUpdate(irb, 1, 4);
    ReachesNext(Headers4(), Chain4(), h, Chain5().state);
  }

  lemma Block6()
    ensures Reaches(Headers6(), Chain6())
  {
    hide Reaches, Counted, Valid, Four.ToMap, Headers5;
    Block5();
    ReachesValid(Headers5(), Chain5());
    SecondCounted(Chain5().state);
    FourBlock(Headers5(), Chain5(), Four(4, 5, 3, 3), Four(3, 4, 3, 3), Header(24, 1, None), 2, 3, [1, 2], 4);
  }

  lemma Block7()
    ensures Reaches(Headers7(), Chain7())
  {
    hide Reaches, Counted, Valid, Four.ToMap, Headers6;
    Block6();
    ReachesValid(Headers6(), Chain6());
    SteadyCounted(Chain6().state);
    FourBlock(Headers6(), Chain6(), Four(4, 5, 6, 3), Four(3, 4, 4, 3), Header(48, 2, None), 0, 4, [1, 2], 5);
  }

  lemma Block8()
    ensures Reaches(Headers8(), Chain8())
  {
    hide Reaches, Counted, Valid, Four.ToMap, Headers7;
    Block7();
    ReachesValid(Headers7(), Chain7());
    SteadyCounted(Chain7().state);
    FourBlock(Headers7(), Chain7(), Four(7, 5, 6, 3), Four(4, 4, 4, 3), Header(60, 2, None), 1, 4, [1, 2], 6);
  }

  lemma Block9()
    ensures Reaches(Headers9(), Chain9())
  {
    hide Reaches, Counted, Valid, Four.ToMap, Headers8;
    Block8();
    ReachesValid(Headers8(), Chain8());
    SteadyCounted(Chain8().state);
    FourBlock(Headers8(), Chain8(), Four(7, 8, 6, 3), Four(4, 5, 4, 3), Header(72, 2, None), 2, 4, [1, 2], 7);
  }

  lemma RebuiltThree()
    ensures Rebuilt(Second().producers, S, 10, Four(7, 8, 9, 3).ToMap(), 5)[S := 10] == map[S := 10, 3 := 3, 4 := 5]
    ensures Rebuilt(Second().producers, S, 7, Four(4, 5, 6, 3).ToMap(), 5) == map[S := 7, 3 := 3, 4 := 5]
  {
    RebuiltIs(Four(7, 8, 9, 3), 10);
    RebuiltIs(Four(4, 5, 6, 3), 7);
  }

  lemma RebuiltIs(f: Four, x: nat)
    ensures Rebuilt(Second().producers, S, x, f.ToMap(), 5) == map[S := x, 3 := f.c, 4 := 5]
  {
  }

  lemma Block10()
    ensures Reaches(Headers10(), Chain10())
  {
    hide NextState, Reaches, Counted, Valid, Fits, Rebuilt, Four.ToMap, Headers9;
    var s, h := Chain9().state, Header(96, 2, None);
    Block9();
    ReachesValid(Headers9(), Chain9());
    SteadyCounted(s);
    FourFits(s, Four(7, 8, 9, 3), Four(4, 5, 6, 3), h, 0, 5);
    RebuiltThree();
    PromoteStep(s, h, S, 5, [1, 2], 8);
    ReachesNext(Headers9(), Chain9(), h, Chain10().state);
  }

  /** Of three producers the lowest decides. */
  lemma ThreeQuorum(m: map<Account, nat>, x: nat, y: nat)
    requires m == map[S := x, 3 := 3, 4 := y] && 3 < x && 3 < y
    ensures |m| > 0 && IsQuorumValue(m, 3)
  {
    hide AtMost;
    var m1: map<Account, nat> := map[S := x];
    var m2: map<Account, nat> := map[S := x, 3 := 3];
    AtMostNone(2);
    AtMostNone(3);
    AtMostPut(map[], S, x, 2);
    AtMostPut(map[], S, x, 3);
    AtMostPut(m1, 3, 3, 2);
    AtMostPut(m1, 3, 3, 3);
    AtMostPut(m2, 4, y, 2);
    AtMostPut(m2, 4, y, 3);
    assert m1 == map[][S := x] && m2 == m1[3 := 3] && m == m2[4 := y];
  }

  lemma ThreeSlots()
    ensures ScheduledProducer(Second(), 108) == S && ScheduledProducer(Second(), 97) == 4
  {
  }

  lemma ThreeFits(s: HeaderState, h: Header, p: Account, x: nat, y: nat)
    requires s.active == Second() && p in s.impliedIrb && s.impliedIrb[p := s.proposed] == map[S := x, 3 := 3, 4 := y] && 3 < x && 3 < y
    requires h.slot > s.slot && ScheduledProducer(Second(), h.slot) == p && MayConfirm(s, p, h.confirmed)
    ensures Fits(s, h, p, 3)
  {
    hide IsQuorumValue, ScheduledProducer, MayConfirm, SeenBy;
    SeenByIsNext(s, p);
    ThreeQuorum(SeenBy(s, p), x, y);
  }

  lemma ThreePut()
    ensures map[S := 7, 3 := 3, 4 := 5][S := 8] == map[S := 8, 3 := 3, 4 := 5]
    ensures map[S := 7, 3 := 3, 4 := 5][4 := 8] == map[S := 7, 3 := 3, 4 := 8]
  {
  }

  lemma MayConfirmAfter10()
    ensures MayConfirm(Chain10().state, S, 0) && MayConfirm(Chain10().state, 4, 2)
  {
  }

  lemma SystemFits()
    ensures Fits(Chain10().state, Header(108, 0, None), S, 3)
  {
    hide ScheduledProducer, MayConfirm, Fits;
    ThreePut();
    ThreeSlots();
    MayConfirmAfter10();
    ThreeFits(Chain10().state, Header(108, 0, None), S, 8, 5);
  }

  /** After nine headers block 5 is irreversible, and the next accepted header declares only block 3
      irreversible. */
  lemma LibDropsOnARun()
    ensures SmallSchedules(Headers10()) && Run(Genesis(0), Headers10()).Ok?
    ensures var c, h := Run(Genesis(0), Headers10()).value, Header(108, 0, None);
            c.state.lib == 5 && Extend(c, h).Ok? && Extend(c, h).value.state.lib == 3
  {
    hide NextState, Counted, Valid, Fits, Headers10, Run;
    var s, h := Chain10().state, Header(108, 0, None);
    Block10();
    ReachesValid(Headers10(), Chain10());
    SystemFits();
    var cc, proposed := Count(s, 0);
    KeepStep(s, h, S, 3, cc, proposed);
  }

  lemma Count(s: HeaderState, confirmed: nat) returns (cc: seq<nat>, proposed: nat)
    requires Valid(s)
    ensures Counted(s, confirmed, cc, proposed)
  {
    hide ConfirmCounts, ConfirmProposed, Track;
    TrackedCounts(s);
    var tracked := Track(s.confirmCount, RequiredConfirmations(|s.active.producers|));
    cc, proposed := ConfirmCounts(tracked, confirmed), ConfirmProposed(tracked, confirmed, s.blockNum + 1, s.proposed);
  }

  // ---- across a promotion ----

  lemma NewcomerFits()
    ensures Fits(Chain10().state, Header(97, 2, None), 4, 3)
  {
    hide ScheduledProducer, MayConfirm, Fits;
    ThreePut();
    ThreeSlots();
    MayConfirmAfter10();
    ThreeFits(Chain10().state, Header(97, 2, None), 4, 7, 8);
  }

  /** The statements about block 9: by 2, by S, and by a producer the schedule of block 9 does not know. */
  lemma NinthConfirmers(e: Confirmation)
    requires e == Confirmation(11, 97, 4, 2, Second())
    ensures Confirmers(Chain10().hist + [e], 9, First()) == {S, 2}
  {
    hide Confirmers, Chain8, Reaches, Headers8;
    Block8();
    ReachesValid(Headers8(), Chain8());
    EightHeaders();
    LastThree(Chain8().hist, 9, First(), Confirmation(9, 72, 2, 2, First()), Confirmation(10, 96, S, 2, First()), e);
    assert S in First().producers && 2 in First().producers && 4 !in First().producers;
  }

  /** Three statements about a block, none before them. */
  lemma LastThree(hist: seq<Confirmation>, b: nat, own: ProducerSchedule, x: Confirmation, y: Confirmation, z: Confirmation)
    requires Numbered(hist) && b >= |hist| + 2 && Confirms(x, b) && Confirms(y, b) && Confirms(z, b)
    ensures Confirmers(hist + [x] + [y] + [z], b, own) == set p | p in {x.producer, y.producer, z.producer} && p in own.producers
  {
    hide Confirmers, Confirms, Numbered;
    ConfirmersAhead(hist, b, own);
    ConfirmersAppend(hist, x, b, own);
    ConfirmersAppend(hist + [x], y, b, own);
    ConfirmersAppend(hist + [x] + [y], z, b, own);
  }

  lemma EightHeaders()
    ensures |Chain8().hist| == 7 && |Chain10().hist| == 9 && Chain10().hist[7].schedule == First()
  {
  }

  /** The same nine headers, and one by a producer of the new schedule: block 9 is proposed although
      only two of its own schedule's four producers confirmed it. No header confirms more blocks than
      there are. */
  lemma QuorumFailsAcrossPromotion()
    ensures SmallSchedules(Headers10()) && Run(Genesis(0), Headers10()).Ok?
    ensures var c, h := Run(Genesis(0), Headers10()).value, Header(97, 2, None);
            && WithinRange(Headers10() + [h]) && Extend(c, h).Ok?
            && var c' := Extend(c, h).value;
            && |c'.hist| == 10 && c'.state.proposed == 9 != c.state.proposed
            && Own(c'.hist, 9) == First() && Confirmers(c'.hist, 9, First()) == {S, 2} && !HasQuorum(c'.hist, 9)
  {
    hide NextState, Counted, Valid, Fits, Headers10, Run, Confirmers, ConfirmCounts, ConfirmProposed;
    var s, h := Chain10().state, Header(97, 2, None);
    Block10();
    ReachesValid(Headers10(), Chain10());
    NewcomerFits();
    ThreeOfThree(11, 8);
    assert Track([1, 2], 3) == [1, 2, 3];
    CountedBy(s, 2, [1, 2, 3], [1, 2], 9);
    KeepStep(s, h, 4, 3, [1, 2], 9);
    NinthConfirmers(Confirmation(11, 97, 4, 2, Second()));
    EightHeaders();
    HeadersWithinRange();
  }

  lemma HeadersWithinRange()
    ensures WithinRange(Headers10() + [Header(97, 2, None)])
  {
    assert Headers10() + [Header(97, 2, None)]
           == [Header(1, 0, None), Header(2, 0, Some(First())), Header(3, 0, None), Header(12, 0, Some(Second())), Header(24, 1, None),
               Header(48, 2, None), Header(60, 2, None), Header(72, 2, None), Header(96, 2, None), Header(97, 2, None)];
  }

  // ---- with a count out of range ----

  ghost function Pair(): (p: ProducerSchedule) { ProducerSchedule(1, [S, 1]) }

  ghost function PairState(num: nat, slot: nat, last: nat, irb: nat, cc: seq<nat>): (s: HeaderState) {
    HeaderState(num, slot, 4, 3, Pair(), Pair().(producers := []), 3, map[S := 4, 1 := last], map[S := 3, 1 := irb], cc)
  }

  ghost function PairChain4(): (c: Chain) {
    Chain(PairState(4, 3, 3, 3, []), Chain3(Pair()).hist + [Confirmation(4, 3, S, 0, Initial())])
  }

  ghost function PairChain5(): (c: Chain) {
    Chain(PairState(5, 12, 5, 4, [1]), PairChain4().hist + [Confirmation(5, 12, 1, 0, Pair())])
  }

  ghost function PairHeaders4(): (hs: seq<Header>) { Headers3(Pair()) + [Header(3, 0, None)] }

  ghost function PairHeaders5(): (hs: seq<Header>) { PairHeaders4() + [Header(12, 0, None)] }

  lemma RebuiltPair()
    ensures Rebuilt([S, 1], S, 4, map[S := 3], 3)[S := 4] == map[S := 4, 1 := 3]
    ensures Rebuilt([S, 1], S, 3, map[S := 2], 3) == map[S := 3, 1 := 3]
  {
  }

  /** Block 4 promotes the pair. */
  lemma PairBlock4()
    ensures Reaches(PairHeaders4(), PairChain4())
  {
    hide NextState, Reaches, Counted, Valid, Rebuilt, IsQuorumValue, ScheduledProducer, Headers3;
    var s, h := Chain3(Pair()).state, Header(3, 0, None);
    Block3(Pair());
    ReachesValid(Headers3(Pair()), Chain3(Pair()));
    SoloCounted(s);
    assert SeenBy(s, S) == map[S := 3];
    SoloQuorum(SeenBy(s, S), 3);
    SoloSlot(0, 3);
    RebuiltPair();
    PromoteStep(s, h, S, 3, [], 4);
    ReachesNext(Headers3(Pair()), Chain3(Pair()), h, PairChain4().state);
  }

  lemma PairCounts()
    ensures ConfirmCounts([2], 0) == [1] && ConfirmProposed([2], 0, 5, 4) == 4
    ensures ConfirmCounts([1, 2], 0xFFFF) == [1] && ConfirmProposed([1, 2], 0xFFFF, 6, 4) == 5
  {
    hide LastAtOne, Decrement;
    ConfirmMisses([2], 0, [1]);
    var cc: seq<nat> := [1, 2];
    assert cc[1..] == [2];
    DecrementIs([2], [1]);
    ConfirmReaches(cc, 0xFFFF, 0, [1]);
  }

  /** Producer 1 signs a block under the pair; a count larger than the block number passes the guard. */
  lemma PairFits(s: HeaderState, h: Header, last: nat, irb: nat)
    requires s.active == Pair() && s.lastProduced == map[S := 4, 1 := last] && s.impliedIrb == map[S := 3, 1 := irb] && s.proposed == 4
    requires h.slot > s.slot && h.slot % 24 / 12 == 1 && last < (s.blockNum + 1 - h.confirmed) % TWO_32
    ensures Fits(s, h, 1, 3)
  {
    hide IsQuorumValue, ScheduledProducer;
    assert SeenBy(s, 1) == map[S := 3, 1 := 4];
    TwoQuorum(SeenBy(s, 1), 1, 3, 4, 3);
    TwoSlots(Pair(), 1, h.slot);
  }

  lemma PairBlock5()
    ensures Reaches(PairHeaders5(), PairChain5())
  {
    hide NextState, Reaches, Counted, Valid, Fits, PairHeaders4, ConfirmCounts, ConfirmProposed;
    var s, h := PairChain4().state, Header(12, 0, None);
    PairBlock4();
    ReachesValid(PairHeaders4(), PairChain4());
    PairCounts();
    assert Track([], 2) == [2];
    CountedBy(s, 0, [2], [1], 4);
    PairFits(s, h, 3, 3);
    KeepStep(s, h, 1, 3, [1], 4);
    assert map[S := 4, 1 := 3][1 := 5] == map[S := 4, 1 := 5] && map[S := 3, 1 := 3][1 := 4] == map[S := 3, 1 := 4];
    ReachesNext(PairHeaders4(), PairChain4(), h, PairChain5().state);
  }

  lemma FifthConfirmers(e: Confirmation)
    requires e == Confirmation(6, 13, 1, 0xFFFF, Pair())
    ensures Confirmers(PairChain5().hist + [e], 5, Pair()) == {1}
  {
    hide Confirmers, PairChain4, Reaches, PairHeaders4;
    PairBlock4();
    ReachesValid(PairHeaders4(), PairChain4());
    PairSizes(e);
    LastTwo(PairChain4().hist, 5, Pair(), Confirmation(5, 12, 1, 0, Pair()), e);
    assert 1 in Pair().producers;
  }

  lemma LastTwo(hist: seq<Confirmation>, b: nat, own: ProducerSchedule, x: Confirmation, y: Confirmation)
    requires Numbered(hist) && b >= |hist| + 2 && Confirms(x, b) && Confirms(y, b)
    ensures Confirmers(hist + [x] + [y], b, own) == set p | p in {x.producer, y.producer} && p in own.producers
  {
    hide Confirmers, Confirms, Numbered;
    ConfirmersAhead(hist, b, own);
    ConfirmersAppend(hist, x, b, own);
    ConfirmersAppend(hist + [x], y, b, own);
  }

  lemma PairSizes(e: Confirmation)
    requires e == Confirmation(6, 13, 1, 0xFFFF, Pair())
    ensures |PairChain4().hist| == 3 && |PairChain5().hist| == 4
    ensures Own(PairChain5().hist + [e], 5) == Pair() && Unchanged(PairChain5().hist + [e], 5)
  {
    var hist := PairChain5().hist + [e];
    assert hist[3] == Confirmation(5, 12, 1, 0, Pair()) && hist[4] == e;
  }

  /** After four headers, one that claims to confirm more blocks than there are lets one producer of
      two have its own block proposed, without any change of schedule since that block. */
  lemma QuorumFailsOnARun()
    ensures SmallSchedules(PairHeaders5()) && Run(Genesis(0), PairHeaders5()).Ok?
    ensures var c, h := Run(Genesis(0), PairHeaders5()).value, Header(13, 0xFFFF, None);
            Extend(c, h).Ok?
            && var c' := Extend(c, h).value;
            && |c'.hist| == 5 && c'.state.proposed == 5 != c.state.proposed && Unchanged(c'.hist, 5)
            && Own(c'.hist, 5) == Pair() && Confirmers(c'.hist, 5, Pair()) == {1} && !HasQuorum(c'.hist, 5)
  {
    hide NextState, Counted, Valid, Fits, PairHeaders5, Run, ConfirmCounts, ConfirmProposed, Confirmers, Unchanged, Own, PairChain4;
    var s, h := PairChain5().state, Header(13, 0xFFFF, None);
    PairBlock5();
    ReachesValid(PairHeaders5(), PairChain5());
    PairCounts();
    assert Track([1], 2) == [1, 2];
    CountedBy(s, 0xFFFF, [1, 2], [1], 5);
    PairFits(s, h, 5, 4);
    KeepStep(s, h, 1, 3, [1], 5);
    FifthConfirmers(Confirmation(6, 13, 1, 0xFFFF, Pair()));
    PairSizes(Confirmation(6, 13, 1, 0xFFFF, Pair()));
  }
}
