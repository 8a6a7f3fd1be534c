/** fork_database::remove: collecting a block and everything built on it, level by level. */
module ForkQueue {
  import opened Sequences
  import opened Wrappers
  import opened BlockIds
  import opened ForkTree

  lemma {:induction false} DistinctBound(s: seq<Id>, t: set<Id>)
    requires Distinct(s) && forall k :: 0 <= k < |s| ==> s[k] in t
    ensures |s| <= |t|
    decreases |s|
  {
    if s != [] {
      var x := s[|s| - 1];
      DistinctBound(s[..|s| - 1], t - {x});
    }
  }

  /** The range of the by_prev index for one predecessor. */
  method Children(index: Index, p: Id) returns (kids: seq<Id>)
    ensures Distinct(kids)
    ensures forall c :: c in kids <==> c in index && index[c].previous == p
  {
    kids := [];
    var rest := set c | c in index && index[c].previous == p;
    while rest != {}
      invariant Distinct(kids)
      invariant forall c :: c in kids || c in rest <==> c in index && index[c].previous == p
      invariant forall c :: c in rest ==> c !in kids
      decreases rest
    {
      var c :| c in rest;
      kids := kids + [c];
      rest := rest - {c};
    }
  }

  /** Every entry after the first was found among the children of the i expanded ones. */
  ghost predicate Found(index: Index, queue: seq<Id>, i: nat)
    requires i <= |queue|
  {
    forall k :: 0 < k < |queue| ==> queue[k] in index && index[queue[k]].previous in queue[..i]
  }

  /** All children of the i expanded entries are in the queue. */
  ghost predicate Expanded(index: Index, queue: seq<Id>, i: nat)
    requires i <= |queue|
  {
    forall c :: c in index && index[c].previous in queue[..i] ==> c in queue
  }

  /** A removal queue after i of its entries have been expanded. */
  ghost predicate QueueOk(index: Index, id: Id, queue: seq<Id>, i: nat)
    requires Keyed(index)
  {
    && 0 <= i <= |queue| && queue != [] && queue[0] == id && Distinct(queue)
    && (forall x :: x in queue ==> Descends(index, x, id))
    && Found(index, queue, i) && Expanded(index, queue, i)
  }

  /** A child of the entry about to be expanded is not yet in the queue. */
  lemma NewChild(index: Index, id: Id, queue: seq<Id>, i: nat, c: Id)
    requires Keyed(index) && QueueOk(index, id, queue, i) && i < |queue|
    requires c in index && index[c].previous == queue[i]
    ensures c !in queue && Descends(index, c, id)
  {
    hide NumFromId;
    DescendsNum(index, queue[i], id);
    assert queue[i] !in queue[..i];
  }

  lemma DistinctAppend(s: seq<Id>, t: seq<Id>)
    requires Distinct(s) && Distinct(t) && forall c :: c in t ==> c !in s
    ensures Distinct(s + t)
  {
    var q := s + t;
    forall i, j | 0 <= i < j < |q| ensures q[i] != q[j] {
      if j >= |s| { assert q[j] in t; }
    }
  }

  lemma FoundStep(index: Index, queue: seq<Id>, i: nat, kids: seq<Id>)
    requires i < |queue| && Found(index, queue, i)
    requires forall c :: c in kids ==> c in index && index[c].previous == queue[i]
    ensures Found(index, queue + kids, i + 1)
  {
    var q := queue + kids;
    assert q[..i + 1] == queue[..i] + [queue[i]];
    forall k | 0 < k < |q| ensures q[k] in index && index[q[k]].previous in q[..i + 1] {
      if k >= |queue| { assert q[k] == kids[k - |queue|]; } else { assert index[queue[k]].previous in queue[..i]; }
    }
  }

  lemma ExpandedStep(index: Index, queue: seq<Id>, i: nat, kids: seq<Id>)
    requires i < |queue| && Expanded(index, queue, i)
    requires forall c :: c in index && index[c].previous == queue[i] ==> c in kids
    ensures Expanded(index, queue + kids, i + 1)
  {
    var q := queue + kids;
    assert q[..i + 1] == queue[..i] + [queue[i]];
  }

  lemma QueueStep(index: Index, id: Id, queue: seq<Id>, i: nat, kids: seq<Id>)
    requires Keyed(index) && QueueOk(index, id, queue, i) && i < |queue|
    requires Distinct(kids) && forall c :: c in kids <==> c in index && index[c].previous == queue[i]
    ensures QueueOk(index, id, queue + kids, i + 1)
  {
    hide NumFromId, Descends, Found, Expanded, Distinct;
    forall c | c in kids ensures c !in queue && Descends(index, c, id) { NewChild(index, id, queue, i, c); }
    DistinctAppend(queue, kids);
    FoundStep(index, queue, i, kids);
    ExpandedStep(index, queue, i, kids);
  }

  /** A fully expanded queue holds exactly what is built on its first entry. */
  lemma {:induction false} QueueComplete(index: Index, id: Id, queue: seq<Id>, x: Id)
    requires Keyed(index) && QueueOk(index, id, queue, |queue|) && Descends(index, x, id)
    ensures x in queue
    decreases NumFromId(x)
  {
    hide NumFromId;
    assert queue[..|queue|] == queue;
    if x != id { QueueComplete(index, id, queue, index[x].previous); }
  }

  lemma QueueStart(index: Index, id: Id)
    requires Keyed(index)
    ensures QueueOk(index, id, [id], 0)
  {
  }

  lemma QueueEnd(index: Index, id: Id, queue: seq<Id>)
    requires Keyed(index) && QueueOk(index, id, queue, |queue|)
    ensures forall x :: x in queue <==> Descends(index, x, id)
  {
    hide NumFromId, Descends, Found, Expanded;
    forall x | Descends(index, x, id) ensures x in queue { QueueComplete(index, id, queue, x); }
  }

  lemma QueueBound(index: Index, id: Id, queue: seq<Id>, i: nat)
    requires Keyed(index) && QueueOk(index, id, queue, i)
    ensures i <= |queue| <= |index| + 1
  {
    hide NumFromId, Descends, Distinct, Expanded;
    assert index.Keys + {id} == index.Keys - {id} + {id};
    DistinctBound(queue, index.Keys + {id});
  }

  /** The queue of remove: a block and everything built on it, or nothing if the head is among them. */
  method RemovalQueue(index: Index, headId: Id, id: Id) returns (r: Option<seq<Id>>)
    requires Keyed(index)
    ensures Descends(index, headId, id) ==> r == None
    ensures !Descends(index, headId, id) ==> r.Some? && forall x :: x in r.value <==> Descends(index, x, id)
  {
    hide NumFromId, Descends, QueueOk;
    var queue := [id];
    var i := 0;
    QueueStart(index, id);
    while i < |queue|
      invariant 0 <= i <= |queue| && QueueOk(index, id, queue, i) && headId !in queue[..i]
      decreases |index| + 1 - i
    {
      QueueBound(index, id, queue, i);
      if queue[i] == headId {
        EntryDescends(index, id, queue, i);
        return None;
      }
      var kids := Children(index, queue[i]);
      QueueStep(index, id, queue, i, kids);
      assert (queue + kids)[..i + 1] == queue[..i] + [queue[i]];
      queue := queue + kids;
      i := i + 1;
    }
    assert queue[..i] == queue;
    QueueEnd(index, id, queue);
    r := Some(queue);
  }

  lemma EntryDescends(index: Index, id: Id, queue: seq<Id>, i: nat)
    requires Keyed(index) && QueueOk(index, id, queue, i) && i < |queue|
    ensures Descends(index, queue[i], id)
  {
    hide Descends, Found, Expanded, Distinct;
  }
}
