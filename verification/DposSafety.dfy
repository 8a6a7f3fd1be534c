/** The confirmation protocol over whole chains of headers: how many statements a block needs before
    it is proposed as irreversible, and when those amount to two thirds of the block's own schedule. */
module DposSafety {
  import opened Bits
  import opened Dpos
  import opened Wrappers

  /** One header: its block number, its time slot, its producer, how many earlier blocks it confirms, and
      the schedule it was made under. It states that its producer confirms blocks num - confirmed .. num. */
  datatype Confirmation = Confirmation(num: nat, slot: nat, producer: Account, confirmed: nat, schedule: ProducerSchedule)

  ghost predicate Confirms(c: Confirmation, b: nat) {
    c.num - c.confirmed <= b <= c.num
  }

  /** A chain of headers: its state, and the statement of every header since genesis, which is block
      1. */
  datatype Chain = Chain(state: HeaderState, hist: seq<Confirmation>)

  const SYSTEM_ACCOUNT: Account := 0x5530_EA00_0000_0000   // the name eosio

  /** initialize_blockchain_state: block 1. */
  function Genesis(slot: nat): (c: Chain)
    ensures Valid(c.state)
  {
    var initial := ProducerSchedule(0, [SYSTEM_ACCOUNT]);
    Chain(HeaderState(1, slot, 0, 0, initial, initial, 0, map[], map[], []), [])
  }

  function Extend(c: Chain, h: Header): (r: Result<Chain, Error>)
    requires Valid(c.state)
  {
    var s := c.state;
    match NextState(s, h.slot, h.confirmed)
    case Err(e) => Err(e)
    case Ok(step) =>
      match FinishNext(step, s.pending.producers != [], step.state.blockNum, h.newProducers)
      case Err(e) => Err(e)
      case Ok(s') => Ok(Chain(s', c.hist + [Confirmation(s.blockNum + 1, step.state.slot, step.producer, h.confirmed, s.active)]))
  }

  ghost predicate SmallSchedules(headers: seq<Header>) {
    forall i :: 0 <= i < |headers| && headers[i].newProducers.Some? ==>
      |headers[i].newProducers.value.producers| <= MAX_PRODUCERS
  }

  lemma ExtendKeepsValid(c: Chain, h: Header)
    requires Valid(c.state) && SmallSchedules([h]) && Extend(c, h).Ok?
    ensures Valid(Extend(c, h).value.state)
    ensures Extend(c, h).value.state.proposed >= c.state.proposed
    ensures Extend(c, h).value.state.blockNum == c.state.blockNum + 1
  {
    hide Valid, ConfirmCounts, ConfirmProposed, LastIrreversible, MayConfirm, ScheduledProducer, Rebuilt;
    NextKeepsValid(c.state, h.slot, h.confirmed);
    assert [h][0] == h;
    var step := NextState(c.state, h.slot, h.confirmed).value;
    var s' := Extend(c, h).value.state;
    PendingKeepsValid(step.state, s');
  }

  lemma PendingKeepsValid(s: HeaderState, s': HeaderState)
    requires Valid(s)
    requires s' == s || (|s'.pending.producers| <= MAX_PRODUCERS && !InitialSchedulePending(s) && s' == s.(pending := s'.pending, pendingLibNum := s'.pendingLibNum))
    ensures Valid(s')
  {
  }

  // ---- statements about a block ----

  /** How many headers confirm block b. */
  ghost function Statements(hist: seq<Confirmation>, b: nat): (n: nat) {
    if hist == [] then 0
    else Statements(hist[..|hist| - 1], b) + if Confirms(hist[|hist| - 1], b) then 1 else 0
  }

  lemma StatementsAppend(hist: seq<Confirmation>, e: Confirmation, b: nat)
    ensures Statements(hist + [e], b) == Statements(hist, b) + if Confirms(e, b) then 1 else 0
  {
    var all := hist + [e];
    assert all[..|all| - 1] == hist && all[|all| - 1] == e;
  }

  /** The producers of a schedule whose headers confirm block b. */
  ghost function Confirmers(hist: seq<Confirmation>, b: nat, own: ProducerSchedule): (ps: set<Account>) {
    set c | c in hist && Confirms(c, b) && c.producer in own.producers :: c.producer
  }

  lemma ConfirmersAppend(hist: seq<Confirmation>, e: Confirmation, b: nat, own: ProducerSchedule)
    ensures Confirmers(hist + [e], b, own)
            == Confirmers(hist, b, own) + (if Confirms(e, b) && e.producer in own.producers then {e.producer} else {})
  {
    assert forall c :: c in hist + [e] <==> c in hist || c == e;
  }

  /** Every statement about b is made by a producer of that schedule, and none makes two. */
  ghost predicate Proper(hist: seq<Confirmation>, b: nat, own: ProducerSchedule) {
    && (forall i :: 0 <= i < |hist| && Confirms(hist[i], b) ==> hist[i].producer in own.producers)
    && (forall i, j :: 0 <= i < j < |hist| && Confirms(hist[i], b) && Confirms(hist[j], b) ==> hist[i].producer != hist[j].producer)
  }

  lemma ProperAppend(hist: seq<Confirmation>, e: Confirmation, b: nat, own: ProducerSchedule)
    ensures Proper(hist + [e], b, own)
            <==> Proper(hist, b, own) && (Confirms(e, b) ==> e.producer in own.producers && e.producer !in Confirmers(hist, b, own))
  {
    var all := hist + [e];
    assert all[|hist|] == e && forall i :: 0 <= i < |hist| ==> all[i] == hist[i];
    if Proper(all, b, own) {
      forall i, j | 0 <= i < j < |hist| && Confirms(hist[i], b) && Confirms(hist[j], b) ensures hist[i].producer != hist[j].producer {
        assert all[i].producer != all[j].producer;
      }
    }
  }

  lemma AddOne(a: set<Account>, p: Account)
    ensures |a + {p}| == |a| + if p in a then 0 else 1
  {
    if p in a { assert a + {p} == a; }
  }

  /** There are never more such producers than statements, and as many exactly when all are proper. */
  lemma {:induction false} ProperIff(hist: seq<Confirmation>, b: nat, own: ProducerSchedule)
    ensures |Confirmers(hist, b, own)| <= Statements(hist, b)
    ensures |Confirmers(hist, b, own)| == Statements(hist, b) <==> Proper(hist, b, own)
    decreases |hist|
  {
    hide Confirmers, Proper, Confirms;
    if hist == [] {
      NoStatements(b, own);
    } else {
      var before, e := hist[..|hist| - 1], hist[|hist| - 1];
      assert hist == before + [e];
      ProperIff(before, b, own);
      ConfirmersAppend(before, e, b, own);
      ProperAppend(before, e, b, own);
      AddOne(Confirmers(before, b, own), e.producer);
      assert Confirmers(before, b, own) + {} == Confirmers(before, b, own);
    }
  }

  lemma NoStatements(b: nat, own: ProducerSchedule)
    ensures |Confirmers([], b, own)| == 0 && Proper([], b, own)
  {
    assert Confirmers([], b, own) == {};
  }

  // ---- counts against statements ----

  /** The block whose count is at position i. */
  ghost function BlockAt(len: nat, blockNum: nat, i: int): (b: int) {
    blockNum - len + 1 + i
  }

  /** The headers are those of blocks 2, 3 and so on, each by a producer of its schedule. */
  ghost predicate Numbered(hist: seq<Confirmation>) {
    forall i :: 0 <= i < |hist| ==> hist[i].num == i + 2 && hist[i].producer in hist[i].schedule.producers
  }

  /** The schedule block b was made under. */
  ghost function Own(hist: seq<Confirmation>, b: nat): (p: ProducerSchedule)
    requires 2 <= b < |hist| + 2
  {
    hist[b - 2].schedule
  }

  /** How many statements block b needs: two thirds of its own schedule, plus one. */
  ghost function Needed(hist: seq<Confirmation>, b: nat): (n: nat)
    requires 2 <= b < |hist| + 2
  {
    RequiredConfirmations(|Own(hist, b).producers|)
  }

  /** Each tracked count and the statements made about its block, here those in `said`, add up to what
      the block needs. */
  ghost predicate CountsMatch(cc: seq<nat>, hist: seq<Confirmation>, said: seq<Confirmation>) {
    |cc| <= |hist| &&
    forall i :: 0 <= i < |cc| ==>
      cc[i] + Statements(said, BlockAt(|cc|, |hist| + 1, i)) == Needed(hist, BlockAt(|cc|, |hist| + 1, i))
  }

  /** A producer of the active schedule who has been in every schedule since making statement k. */
  ghost predicate Stays(c: Chain, k: nat)
    requires k < |c.hist|
  {
    var p := c.hist[k].producer;
    p in c.state.active.producers && forall j :: k < j < |c.hist| ==> p in c.hist[j].schedule.producers
  }

  /** For such a producer the last block produced is on record. */
  ghost predicate OnRecord(c: Chain) {
    forall k :: 0 <= k < |c.hist| && Stays(c, k) ==>
      c.hist[k].producer in c.state.lastProduced && c.state.lastProduced[c.hist[k].producer] >= c.hist[k].num
  }

  /** Header j claims to confirm no more blocks than there are. */
  ghost predicate InRange(e: Confirmation) {
    e.confirmed <= e.num < TWO_32
  }

  ghost predicate Between(hist: seq<Confirmation>, i: nat, j: nat)
    requires i < j < |hist|
  {
    forall m :: i < m <= j ==> hist[i].producer in hist[m].schedule.producers
  }

  /** Two statements of a producer who stayed in the schedule do not overlap. */
  ghost predicate NoOverlap(hist: seq<Confirmation>) {
    forall i, j :: 0 <= i < j < |hist| && hist[i].producer == hist[j].producer && InRange(hist[j]) && Between(hist, i, j) ==>
      hist[i].num < hist[j].num - hist[j].confirmed
  }

  ghost predicate Sound(c: Chain) {
    && Valid(c.state) && c.state.blockNum == |c.hist| + 1 && Numbered(c.hist)
    && CountsMatch(c.state.confirmCount, c.hist, c.hist)
    && OnRecord(c) && NoOverlap(c.hist)
  }

  /** No statement about a block that does not exist yet. */
  lemma {:induction false} NoneAhead(hist: seq<Confirmation>, b: nat)
    requires Numbered(hist) && b >= |hist| + 2
    ensures Statements(hist, b) == 0
    decreases |hist|
  {
    if hist != [] { NoneAhead(hist[..|hist| - 1], b); }
  }

  /** Tracking the new block, before its own statement is counted. */
  lemma TrackMatches(cc: seq<nat>, hist: seq<Confirmation>, e: Confirmation)
    requires Numbered(hist) && CountsMatch(cc, hist, hist) && |cc| <= MAX_TRACKED_CONFIRMATIONS
    ensures CountsMatch(Track(cc, RequiredConfirmations(|e.schedule.producers|)), hist + [e], hist)
  {
    hide Statements, Numbered;
    var all := hist + [e];
    var cc' := Track(cc, RequiredConfirmations(|e.schedule.producers|));
    NoneAhead(hist, |hist| + 2);
    forall i | 0 <= i < |cc'|
      ensures cc'[i] + Statements(hist, BlockAt(|cc'|, |all| + 1, i)) == Needed(all, BlockAt(|cc'|, |all| + 1, i))
    {
      if i < |cc'| - 1 {
        var j := if |cc'| == |cc| then i + 1 else i;
        var b := BlockAt(|cc|, |hist| + 1, j);
        assert BlockAt(|cc'|, |all| + 1, i) == b && cc'[i] == cc[j];
        assert all[b - 2] == hist[b - 2];
      }
    }
  }

  /** A position is confirmed by the new header exactly when its block is in the header's range. */
  lemma ConfirmedRange(len: nat, blockNum: nat, confirmed: nat, i: nat)
    requires i < len <= blockNum
    ensures i >= FirstConfirmed(len, confirmed) <==> blockNum - confirmed <= BlockAt(len, blockNum, i)
  {
  }

  /** What one header does to the number of statements missing at a position. */
  lemma MissingAfter(hist: seq<Confirmation>, e: Confirmation, cc: seq<nat>, i: nat)
    requires e.num == |hist| + 2 && CountsMatch(cc, hist + [e], hist) && i < |cc|
    ensures var b := BlockAt(|cc|, e.num, i);
            2 <= b < |hist| + 3 && cc[i] + Statements(hist + [e], b)
                                   == Needed(hist + [e], b) + if i >= FirstConfirmed(|cc|, e.confirmed) then 1 else 0
  {
    hide Statements, Needed, FirstConfirmed;
    var b := BlockAt(|cc|, e.num, i);
    StatementsAppend(hist, e, b);
    ConfirmedRange(|cc|, e.num, e.confirmed, i);
  }

  /** For every tracked block, whatever schedules have come since: its count and the statements about
      it add up to what its own schedule needs. */
  lemma ConfirmMatches(hist: seq<Confirmation>, e: Confirmation, cc: seq<nat>)
    requires e.num == |hist| + 2 && CountsMatch(cc, hist + [e], hist) && forall i :: 0 <= i < |cc| ==> cc[i] > 0
    ensures CountsMatch(ConfirmCounts(cc, e.confirmed), hist + [e], hist + [e])
  {
    hide Statements, LastAtOne, Decrement, Needed;
    var all, cc' := hist + [e], ConfirmCounts(cc, e.confirmed);
    var lo := FirstConfirmed(|cc|, e.confirmed);
    var k := LastAtOne(cc, lo);
    var from := if k >= 0 then k + 1 else 0;
    forall i | 0 <= i < |cc'|
      ensures cc'[i] + Statements(all, BlockAt(|cc'|, |all| + 1, i)) == Needed(all, BlockAt(|cc'|, |all| + 1, i))
    {
      var j := from + i;
      assert BlockAt(|cc'|, e.num, i) == BlockAt(|cc|, e.num, j);
      assert cc'[i] == if j >= lo then cc[j] - 1 else cc[j];
      MissingAfter(hist, e, cc, j);
    }
  }

  // ---- one header ----

  /** The header's own statement. */
  ghost function Statement(c: Chain, h: Header): (e: Confirmation)
    requires Valid(c.state) && NextState(c.state, h.slot, h.confirmed).Ok?
  {
    var step := NextState(c.state, h.slot, h.confirmed).value;
    Confirmation(c.state.blockNum + 1, step.state.slot, step.producer, h.confirmed, c.state.active)
  }

  /** The guard against double confirmation: the new statement does not reach back to one that its
      producer has made since staying in the schedule. */
  lemma NotTwice(c: Chain, e: Confirmation, k: nat)
    requires Valid(c.state) && c.state.blockNum == |c.hist| + 1 && OnRecord(c) && e.num == |c.hist| + 2 && InRange(e)
    requires MayConfirm(c.state, e.producer, e.confirmed)
    requires k < |c.hist| && c.hist[k].producer == e.producer && Stays(c, k)
    ensures c.hist[k].num < e.num - e.confirmed
  {
    hide Stays, Valid;
    assert (e.num - e.confirmed) % TWO_32 == e.num - e.confirmed;
  }

  lemma OverlapStep(c: Chain, e: Confirmation)
    requires Valid(c.state) && c.state.blockNum == |c.hist| + 1 && OnRecord(c) && NoOverlap(c.hist)
    requires e.num == |c.hist| + 2 && e.schedule == c.state.active && MayConfirm(c.state, e.producer, e.confirmed)
    ensures NoOverlap(c.hist + [e])
  {
    hide Valid, OnRecord, MayConfirm;
    var all := c.hist + [e];
    forall i, j | 0 <= i < j < |all| && all[i].producer == all[j].producer && InRange(all[j]) && Between(all, i, j)
      ensures all[i].num < all[j].num - all[j].confirmed
    {
      assert forall m :: i < m <= j ==> all[i].producer in all[m].schedule.producers;
      if j < |c.hist| {
        assert forall m :: i <= m <= j ==> all[m] == c.hist[m];
        assert Between(c.hist, i, j);
      } else {
        assert forall m :: i < m < |c.hist| ==> all[m] == c.hist[m];
        NotTwice(c, e, i);
      }
    }
  }

  lemma ConfirmersAhead(hist: seq<Confirmation>, b: nat, own: ProducerSchedule)
    requires Numbered(hist) && b >= |hist| + 2
    ensures Confirmers(hist, b, own) == {}
  {
  }

  /** A header keeps the record, also when it promotes a schedule. */
  lemma RecordStep(c: Chain, h: Header)
    requires Valid(c.state) && c.state.blockNum == |c.hist| + 1 && Numbered(c.hist) && OnRecord(c) && Extend(c, h).Ok?
    ensures OnRecord(Extend(c, h).value)
  {
    hide ConfirmCounts, ConfirmProposed, LastIrreversible, MayConfirm, ScheduledProducer, Track, Valid;
    var c', e := Extend(c, h).value, Statement(c, h);
    assert c'.hist == c.hist + [e];
    forall k | 0 <= k < |c'.hist| && Stays(c', k)
      ensures c'.hist[k].producer in c'.state.lastProduced && c'.state.lastProduced[c'.hist[k].producer] >= c'.hist[k].num
    {
      var p := c'.hist[k].producer;
      if p != e.producer {
        assert c'.hist[|c.hist|].schedule == c.state.active;
        assert forall j :: k < j < |c.hist| ==> c'.hist[j] == c.hist[j];
        assert Stays(c, k);
      }
    }
  }

  lemma ValidParts(s: HeaderState)
    requires Valid(s)
    ensures Bounded(s.lastProduced, s.blockNum) && |s.confirmCount| <= MAX_TRACKED_CONFIRMATIONS && s.active.producers != []
    ensures forall i :: 0 <= i < |s.confirmCount| ==> s.confirmCount[i] > 0
  {
  }

  /** Every accepted header keeps all of this, across schedule changes and whatever it confirms. */
  lemma ExtendKeepsSound(c: Chain, h: Header)
    requires Sound(c) && SmallSchedules([h]) && Extend(c, h).Ok?
    ensures Sound(Extend(c, h).value)
  {
    hide Statements, OnRecord, NoOverlap, LastAtOne, ConfirmCounts, ConfirmProposed, LastIrreversible, Rebuilt, MayConfirm, Valid, CountsMatch, Track, ScheduledProducer;
    ExtendKeepsValid(c, h);
    ValidParts(c.state);
    var s, e := c.state, Statement(c, h);
    var cc := Track(s.confirmCount, RequiredConfirmations(|s.active.producers|));
    TrackMatches(s.confirmCount, c.hist, e);
    TrackedPositive(s);
    ConfirmMatches(c.hist, e, cc);
    OverlapStep(c, e);
    RecordStep(c, h);
  }

  lemma TrackedPositive(s: HeaderState)
    requires Valid(s)
    ensures var cc := Track(s.confirmCount, RequiredConfirmations(|s.active.producers|)); forall i :: 0 <= i < |cc| ==> cc[i] > 0
  {
  }

  /** A header proposes block b when, with it, exactly as many statements have been made about b as b's
      own schedule needs. */
  lemma ProposedIsStated(c: Chain, h: Header)
    requires Sound(c) && Extend(c, h).Ok?
    ensures var c' := Extend(c, h).value;
            var b := c'.state.proposed;
            b != c.state.proposed ==> 2 <= b < |c'.hist| + 2 && Statements(c'.hist, b) == Needed(c'.hist, b)
  {
    hide Statements, OnRecord, NoOverlap, FirstConfirmed, LastAtOne, ConfirmCounts, LastIrreversible, Rebuilt, ScheduledProducer, MayConfirm, Valid, Needed;
    ValidParts(c.state);
    var s, e := c.state, Statement(c, h);
    var cc := Track(s.confirmCount, RequiredConfirmations(|s.active.producers|));
    var k := LastAtOne(cc, FirstConfirmed(|cc|, h.confirmed));
    TrackMatches(s.confirmCount, c.hist, e);
    assert Extend(c, h).value.state.proposed == ConfirmProposed(cc, h.confirmed, e.num, s.proposed);
    if k >= 0 { MissingAfter(c.hist, e, cc, k); }
  }

  // ---- two thirds of the block's own schedule ----

  /** More than two thirds of the schedule b was made under have confirmed it. */
  ghost predicate HasQuorum(hist: seq<Confirmation>, b: nat)
    requires 2 <= b < |hist| + 2
  {
    3 * |Confirmers(hist, b, Own(hist, b))| > 2 * |Own(hist, b).producers|
  }

  /** The proposed block has its quorum exactly when its statements are proper. */
  lemma ProposedHasQuorumIff(c: Chain, h: Header)
    requires Sound(c) && Extend(c, h).Ok? && Extend(c, h).value.state.proposed != c.state.proposed
    ensures var c' := Extend(c, h).value;
            var b := c'.state.proposed;
            2 <= b < |c'.hist| + 2 && (HasQuorum(c'.hist, b) <==> Proper(c'.hist, b, Own(c'.hist, b)))
  {
    hide Extend, CountsMatch, OnRecord, NoOverlap, Valid, Statements, Confirmers, Proper;
    ProposedIsStated(c, h);
    var hist, b := Extend(c, h).value.hist, Extend(c, h).value.state.proposed;
    ProperIff(hist, b, Own(hist, b));
  }

  /** Every header from block b on was made under b's schedule. */
  ghost predicate Unchanged(hist: seq<Confirmation>, b: nat)
    requires 2 <= b < |hist| + 2
  {
    forall j :: b - 2 <= j < |hist| ==> hist[j].schedule == Own(hist, b)
  }

  /** Statements about b are proper while the schedule is the same and no header claims to confirm more
      blocks than there are. */
  lemma UnchangedIsProper(hist: seq<Confirmation>, b: nat)
    requires Numbered(hist) && NoOverlap(hist) && 2 <= b < |hist| + 2 && Unchanged(hist, b)
    requires forall j :: 0 <= j < |hist| ==> InRange(hist[j])
    ensures Proper(hist, b, Own(hist, b))
  {
    forall i, j | 0 <= i < j < |hist| && Confirms(hist[i], b) && Confirms(hist[j], b) ensures hist[i].producer != hist[j].producer {
      if hist[i].producer == hist[j].producer {
        assert forall m :: i < m <= j ==> hist[m].schedule == Own(hist, b);
        assert Between(hist, i, j);
      }
    }
  }

  /** Statements are improper only because one comes from outside the schedule, claims more blocks than
      there are, or is by a producer who left the schedule between two of them. */
  lemma ImproperBecause(hist: seq<Confirmation>, b: nat)
    requires Numbered(hist) && NoOverlap(hist) && 2 <= b < |hist| + 2 && !Proper(hist, b, Own(hist, b))
    ensures exists j :: 0 <= j < |hist| && Confirms(hist[j], b)
                        && (hist[j].producer !in Own(hist, b).producers || !InRange(hist[j])
                            || exists i :: 0 <= i < j && hist[i].producer == hist[j].producer && Confirms(hist[i], b) && !Between(hist, i, j))
  {
    if i, j :| 0 <= i < j < |hist| && Confirms(hist[i], b) && Confirms(hist[j], b) && hist[i].producer == hist[j].producer {
      assert InRange(hist[j]) ==> !Between(hist, i, j);
    }
  }

  // ---- whole chains ----

  function Run(c: Chain, headers: seq<Header>): (r: Result<Chain, Error>)
    requires Valid(c.state) && SmallSchedules(headers)
    ensures r.Ok? ==> Valid(r.value.state)
    decreases |headers|
  {
    if headers == [] then Ok(c)
    else
      match Extend(c, headers[0])
      case Err(e) => Err(e)
      case Ok(c') =>
        ExtendKeepsValid(c, headers[0]);
        Run(c', headers[1..])
  }

  /** A run keeps the invariant, never lowers the proposed block, and records its headers in order. */
  lemma {:induction false} RunKeepsSound(c: Chain, headers: seq<Header>)
    requires Sound(c) && SmallSchedules(headers) && Run(c, headers).Ok?
    ensures var c' := Run(c, headers).value;
            && Sound(c') && c'.state.proposed >= c.state.proposed
            && |c'.hist| == |c.hist| + |headers| && c.hist <= c'.hist
            && forall i :: 0 <= i < |headers| ==> c'.hist[|c.hist| + i].confirmed == headers[i].confirmed
    decreases |headers|
  {
    hide Sound, Valid, Extend;
    if headers != [] {
      ExtendRecords(c, headers[0]);
      ExtendKeepsSound(c, headers[0]);
      var c1 := Extend(c, headers[0]).value;
      RunKeepsSound(c1, headers[1..]);
      var c' := Run(c, headers).value;
      forall i | 0 <= i < |headers| ensures c'.hist[|c.hist| + i].confirmed == headers[i].confirmed {
        if i == 0 {
          assert c'.hist[|c.hist|] == c1.hist[|c.hist|];
        } else {
          assert headers[i] == headers[1..][i - 1];
        }
      }
    }
  }

  lemma ExtendRecords(c: Chain, h: Header)
    requires Sound(c) && SmallSchedules([h]) && Extend(c, h).Ok?
    ensures Valid(c.state) && Extend(c, h).value.state.proposed >= c.state.proposed
    ensures var hist := Extend(c, h).value.hist;
            |hist| == |c.hist| + 1 && c.hist <= hist && hist[|c.hist|].confirmed == h.confirmed
  {
    hide NextState;
    ExtendKeepsValid(c, h);
  }

  lemma GenesisSound(slot: nat)
    ensures Sound(Genesis(slot))
  {
  }

  /** The headers of blocks 2, 3 and so on: none claims to confirm more blocks than there are. */
  ghost predicate WithinRange(headers: seq<Header>) {
    forall i :: 0 <= i < |headers| ==> headers[i].confirmed <= i + 2 < TWO_32
  }

  /** On every chain grown from genesis the irreversible block is at most the proposed one, which is at
      most the head. A header that proposes block b does so with exactly the number of statements that
      two thirds of b's own schedule plus one would make; it is two thirds of them exactly when the
      statements are proper, and it always is while the schedule stays the same and the headers confirm
      only existing blocks. */
  lemma ChainSafety(slot: nat, headers: seq<Header>, h: Header)
    requires SmallSchedules(headers) && SmallSchedules([h])
    requires Run(Genesis(slot), headers).Ok? && Extend(Run(Genesis(slot), headers).value, h).Ok?
    ensures var c := Run(Genesis(slot), headers).value;
            var c' := Extend(c, h).value;
            var b := c'.state.proposed;
            && c'.state.lib <= c.state.proposed <= c.state.blockNum
            && (b != c.state.proposed ==>
                 && 2 <= b < |c'.hist| + 2 && Statements(c'.hist, b) == Needed(c'.hist, b)
                 && (HasQuorum(c'.hist, b) <==> Proper(c'.hist, b, Own(c'.hist, b)))
                 && (WithinRange(headers + [h]) && Unchanged(c'.hist, b) ==> HasQuorum(c'.hist, b)))
  {
    hide Extend, Run, Statements, Proper, HasQuorum, Unchanged, OnRecord, NoOverlap, CountsMatch;
    var c := Run(Genesis(slot), headers).value;
    GenesisSound(slot);
    RunKeepsSound(Genesis(slot), headers);
    ExtendKeepsSound(c, h);
    ExtendRecords(c, h);
    LibIsBehind(c, h);
    var c' := Extend(c, h).value;
    var b := c'.state.proposed;
    if b != c.state.proposed {
      ProposedIsStated(c, h);
      ProposedHasQuorumIff(c, h);
      if WithinRange(headers + [h]) && Unchanged(c'.hist, b) {
        AllInRange(c'.hist, headers + [h]);
        UnchangedIsProper(c'.hist, b);
      }
    }
  }

  lemma LibIsBehind(c: Chain, h: Header)
    requires Valid(c.state) && Extend(c, h).Ok?
    ensures Extend(c, h).value.state.lib <= c.state.proposed <= c.state.blockNum
  {
    hide Valid, ConfirmCounts, ConfirmProposed, LastIrreversible, MayConfirm, ScheduledProducer, Rebuilt, Track;
    NextKeepsValid(c.state, h.slot, h.confirmed);
    ProposedIsPast(c.state);
  }

  lemma ProposedIsPast(s: HeaderState)
    requires Valid(s)
    ensures s.proposed <= s.blockNum
  {
  }

  lemma AllInRange(hist: seq<Confirmation>, headers: seq<Header>)
    requires Numbered(hist) && WithinRange(headers) && |hist| == |headers|
    requires forall i :: 0 <= i < |hist| ==> hist[i].confirmed == headers[i].confirmed
    ensures forall j :: 0 <= j < |hist| ==> InRange(hist[j])
  {
  }

  // ---- two chains ----

  /** Two quorums of one schedule share more than a third of it. */
  lemma QuorumsMeet(hist: seq<Confirmation>, hist': seq<Confirmation>, b: nat)
    requires 2 <= b < |hist| + 2 && 2 <= b < |hist'| + 2 && Own(hist, b) == Own(hist', b)
    requires HasQuorum(hist, b) && HasQuorum(hist', b)
    ensures var own := Own(hist, b); 3 * |Confirmers(hist, b, own) * Confirmers(hist', b, own)| > |own.producers|
  {
    hide Confirmers;
    var own := Own(hist, b);
    var x, y := Confirmers(hist, b, own), Confirmers(hist', b, own);
    ConfirmersBelong(hist, b, own);
    ConfirmersBelong(hist', b, own);
    SubsetSize(x + y, Producers(own));
    FewProducers(own);
    assert |x + y| == |x| + |y| - |x * y|;
  }

  lemma ConfirmersBelong(hist: seq<Confirmation>, b: nat, own: ProducerSchedule)
    ensures Confirmers(hist, b, own) <= Producers(own)
  {
  }

  lemma {:induction false} FewProducers(schedule: ProducerSchedule)
    ensures |Producers(schedule)| <= |schedule.producers|
    decreases |schedule.producers|
  {
    var ps := schedule.producers;
    if ps == [] {
      assert Producers(schedule) == {};
    } else {
      var rest := schedule.(producers := ps[1..]);
      FewProducers(rest);
      assert Producers(schedule) == Producers(rest) + {ps[0]};
      AddOne(Producers(rest), ps[0]);
    }
  }

  /** Two chains from genesis that both propose their block at height b, made under the same schedule
      and proposed before it changed: more than a third of that schedule confirmed height b on both. */
  lemma TwoChains(slot: nat, headers: seq<Header>, h: Header, headers': seq<Header>, h': Header)
    requires SmallSchedules(headers + [h]) && SmallSchedules(headers' + [h'])
    requires WithinRange(headers + [h]) && WithinRange(headers' + [h'])
    requires SmallSchedules(headers) && Run(Genesis(slot), headers).Ok? && Extend(Run(Genesis(slot), headers).value, h).Ok?
    requires SmallSchedules(headers') && Run(Genesis(slot), headers').Ok? && Extend(Run(Genesis(slot), headers').value, h').Ok?
    ensures var c0, c0' := Run(Genesis(slot), headers).value, Run(Genesis(slot), headers').value;
            var c, c' := Extend(c0, h).value, Extend(c0', h').value;
            var b := c.state.proposed;
            b == c'.state.proposed && b != c0.state.proposed && b != c0'.state.proposed ==>
              && 2 <= b < |c.hist| + 2 && b < |c'.hist| + 2
              && (Own(c.hist, b) == Own(c'.hist, b) && Unchanged(c.hist, b) && Unchanged(c'.hist, b) ==>
                   3 * |Confirmers(c.hist, b, Own(c.hist, b)) * Confirmers(c'.hist, b, Own(c.hist, b))| > |Own(c.hist, b).producers|)
  {
    hide Extend, Run, Statements, Proper, HasQuorum, Unchanged, Confirmers;
    LastIsSmall(headers, h);
    LastIsSmall(headers', h');
    ChainSafety(slot, headers, h);
    ChainSafety(slot, headers', h');
    var c := Extend(Run(Genesis(slot), headers).value, h).value;
    var c' := Extend(Run(Genesis(slot), headers').value, h').value;
    var b := c.state.proposed;
    if b == c'.state.proposed && 2 <= b < |c.hist| + 2 && b < |c'.hist| + 2 && Own(c.hist, b) == Own(c'.hist, b)
       && HasQuorum(c.hist, b) && HasQuorum(c'.hist, b) {
      QuorumsMeet(c.hist, c'.hist, b);
    }
  }

  lemma LastIsSmall(headers: seq<Header>, h: Header)
    requires SmallSchedules(headers + [h])
    ensures SmallSchedules([h])
  {
    assert (headers + [h])[|headers|] == [h][0];
  }
}
