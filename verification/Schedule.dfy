/** Which producer owns a slot, and where a round begins: block_header_state::get_scheduled_producer
    and the schedule tests. */
module Schedule {
  import opened Bits

  const PRODUCER_REPETITIONS: nat := 12   // config::producer_repetitions

  /** The schedule position that owns a slot. */
  function ScheduledIndex(n: nat, slot: nat): (i: nat)
    requires n > 0
  {
    slot % (n * PRODUCER_REPETITIONS) / PRODUCER_REPETITIONS
  }

  lemma IndexInRange(n: nat, slot: nat)
    requires n > 0
    ensures ScheduledIndex(n, slot) < n
  {
    var r := slot % (n * PRODUCER_REPETITIONS);
    assert r < n * PRODUCER_REPETITIONS;
  }

  /** In every round the positions come in order, each for its repetitions in a row. */
  lemma SlotOwner(n: nat, round: nat, i: nat, j: nat)
    requires i < n && j < PRODUCER_REPETITIONS
    ensures ScheduledIndex(n, round * (n * PRODUCER_REPETITIONS) + i * PRODUCER_REPETITIONS + j) == i
  {
    var p := n * PRODUCER_REPETITIONS;
    var r := i * PRODUCER_REPETITIONS + j;
    DivModUnique(round * p + r, p, round, r);
  }

  lemma SlotParts(n: nat, slot: nat) returns (round: nat, i: nat, j: nat)
    requires n > 0
    ensures i < n && j < PRODUCER_REPETITIONS && slot == round * (n * PRODUCER_REPETITIONS) + i * PRODUCER_REPETITIONS + j
    ensures ScheduledIndex(n, slot) == i
  {
    var p := n * PRODUCER_REPETITIONS;
    var r := slot % p;
    round, i, j := slot / p, r / PRODUCER_REPETITIONS, r % PRODUCER_REPETITIONS;
    IndexInRange(n, slot);
  }

  /** One run of slots later the next position has its turn. */
  lemma IndexAdvances(n: nat, slot: nat)
    requires n > 0
    ensures var i := ScheduledIndex(n, slot);
            ScheduledIndex(n, slot + PRODUCER_REPETITIONS) == if i + 1 < n then i + 1 else 0
  {
    hide ScheduledIndex;
    var round, i, j := SlotParts(n, slot);
    if i + 1 < n {
      SlotOwner(n, round, i + 1, j);
    } else {
      SlotOwner(n, round + 1, 0, j);
      NextRound(round, n * PRODUCER_REPETITIONS);
    }
  }

  lemma NextRound(round: nat, p: nat)
    ensures (round + 1) * p == round * p + p
  {
  }

  /** How many of the `len` slots from `start` on belong to position i. */
  ghost function SlotsOwned(n: nat, start: nat, len: nat, i: nat): (c: nat)
    requires n > 0
    decreases len
  {
    if len == 0 then 0
    else SlotsOwned(n, start, len - 1, i) + (if ScheduledIndex(n, start + len - 1) == i then 1 else 0)
  }

  lemma IndexPeriodic(n: nat, slot: nat)
    requires n > 0
    ensures ScheduledIndex(n, slot + n * PRODUCER_REPETITIONS) == ScheduledIndex(n, slot)
  {
    var p := n * PRODUCER_REPETITIONS;
    assert slot + p == (slot / p + 1) * p + slot % p by {
      assert (slot / p + 1) * p == slot / p * p + p;
    }
    DivModUnique(slot + p, p, slot / p + 1, slot % p);
  }

  lemma {:induction false} OwnedShift(n: nat, start: nat, len: nat, i: nat)
    requires n > 0
    ensures SlotsOwned(n, start, len + 1, i)
            == (if ScheduledIndex(n, start) == i then 1 else 0) + SlotsOwned(n, start + 1, len, i)
    decreases len
  {
    hide ScheduledIndex;
    if len > 0 { OwnedShift(n, start, len - 1, i); }
  }

  /** From slot 0 the positions come in order, each for its repetitions. */
  lemma {:induction false} OwnedFromZero(n: nat, len: nat, i: nat)
    requires n > 0 && i < n && len <= n * PRODUCER_REPETITIONS
    ensures SlotsOwned(n, 0, len, i)
            == if len <= 12 * i then 0 else if len >= 12 * i + 12 then 12 else len - 12 * i
    decreases len
  {
    if len > 0 {
      OwnedFromZero(n, len - 1, i);
      DivModUnique(len - 1, n * PRODUCER_REPETITIONS, 0, len - 1);
    }
  }

  /** In every window of one round, wherever it starts, each position owns exactly its repetitions. */
  lemma {:induction false} RoundIsFair(n: nat, start: nat, i: nat)
    requires n > 0 && i < n
    ensures SlotsOwned(n, start, n * PRODUCER_REPETITIONS, i) == PRODUCER_REPETITIONS
    decreases start
  {
    hide ScheduledIndex;
    var p := n * PRODUCER_REPETITIONS;
    if start == 0 {
      OwnedFromZero(n, p, i);
    } else {
      RoundIsFair(n, start - 1, i);
      OwnedShift(n, start - 1, p, i);
      IndexPeriodic(n, start - 1);
    }
  }

  /** calc_block_num_of_next_round_first_block: the least multiple of the round length above the
      head block number. */
  method NextRoundFirstBlock(head: nat, n: nat) returns (res: nat)
    requires n > 0
    ensures res > head && res % (n * PRODUCER_REPETITIONS) == 0
    ensures forall b :: head < b < res ==> b % (n * PRODUCER_REPETITIONS) != 0
  {
    res := head + 1;
    var blocksPerRound := n * PRODUCER_REPETITIONS;
    ghost var q := head / blocksPerRound + 1;
    assert head + 1 <= q * blocksPerRound by {
      assert q * blocksPerRound == head / blocksPerRound * blocksPerRound + blocksPerRound;
    }
    while res % blocksPerRound != 0
      invariant head < res <= q * blocksPerRound
      invariant forall b :: head < b < res ==> b % blocksPerRound != 0
      decreases q * blocksPerRound - res
    {
      if res == q * blocksPerRound { DivModUnique(res, blocksPerRound, q, 0); }
      res := res + 1;
    }
  }
}
