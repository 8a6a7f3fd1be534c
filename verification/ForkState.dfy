/** What every operation of the fork database keeps, and how pruning and advancing the root act on it. */
module ForkState {
  import opened BlockIds
  import opened Merkle
  import opened ForkTree

  datatype State = State(root: Block, head: Block, index: Index, validated: set<Id>)

  /** The head is the root or a validated block, and no validated block is preferred to it. */
  ghost predicate HeadIsBest(s: State)
    requires s.validated <= s.index.Keys
  {
    && (s.head == s.root || (s.head.id in s.validated && s.index[s.head.id] == s.head))
    && forall i :: i in s.validated ==> !Preferred(s.index[i], s.head)
  }

  ghost predicate Sound(s: State) {
    Linked(s.root.id, s.index) && s.validated <= s.index.Keys && HeadIsBest(s)
  }

  // ---- adding and validating ----

  ghost predicate Linkable(s: State, n: Block) {
    n.previous == s.root.id || n.previous in s.index
  }

  /** A linkable block is never the root itself: its number is larger. */
  lemma RootIsNotAdded(s: State, n: Block)
    requires Sound(s) && Linkable(s, n) && NumFromId(n.id) == NumFromId(n.previous) + 1
    ensures n.id != s.root.id
  {
    hide NumFromId;
    RootIsLowest(s.root.id, s.index, n.previous);
  }

  lemma AddKeepsLinked(s: State, n: Block)
    requires Sound(s) && Linkable(s, n) && NumFromId(n.id) == NumFromId(n.previous) + 1 && n.id !in s.index
    ensures Linked(s.root.id, s.index[n.id := n])
  {
    hide NumFromId;
    RootIsNotAdded(s, n);
  }

  /** Marking a block valid moves the head to it or leaves the head alone. */
  lemma FirstAfterMark(s: State, id: Id, c: Id)
    requires Sound(s) && id in s.index
    requires IsFirst(s.index, s.validated + {id}, s.index.Keys, c)
    ensures Preferred(s.index[c], s.head) <==> Preferred(s.index[id], s.head)
    ensures Preferred(s.index[c], s.head) ==> c == id
  {
    hide NumFromId;
    FirstIsBest(s.index, s.validated + {id}, c);
    assert !Preferred(s.index[id], s.index[c]);
  }

  /** A validated block as good as the head that comes before it in the order of ids. */
  ghost predicate TiesAhead(s: State, a: Id) {
    a in s.index && a in s.validated && !Preferred(s.head, s.index[a]) && IdLess(a, s.head.id)
  }

  /** Adding a block that is not validated moves the head exactly when some block is validated and
      the head is the root, or another validated block ties with the head and has a smaller id. From
      the root it moves to a block the root is preferred to, otherwise to one that ties. */
  lemma HeadAfterAdd(s: State, n: Block, c: Id)
    requires Sound(s) && s.validated != {} && n.id !in s.index
    requires Keyed(s.index[n.id := n]) && IsFirst(s.index[n.id := n], s.validated, s.index[n.id := n].Keys, c)
    ensures c in s.validated && c in s.index && !Preferred(s.index[c], s.head)
    ensures c != s.head.id <==> s.head.id !in s.validated || exists a :: TiesAhead(s, a)
    ensures c != s.head.id && s.head.id in s.validated ==> TiesAhead(s, c)
    ensures Preferred(s.head, s.index[c]) <==> s.head.id !in s.validated
  {
    hide NumFromId;
    var index := s.index[n.id := n];
    FirstIsBest(index, s.validated, c);
    if s.head.id in s.validated {
      if c != s.head.id {
        assert Before(index, s.validated, c, s.head.id);
        assert TiesAhead(s, c);
      }
      forall a | TiesAhead(s, a) ensures c != s.head.id {
        if c == s.head.id { TiedBefore(s, index, a); }
      }
    } else {
      RootIsLowest(s.root.id, s.index, c);
    }
  }

  lemma TiedBefore(s: State, index: Index, a: Id)
    requires Sound(s) && s.head.id in s.validated && TiesAhead(s, a)
    requires a in index && s.head.id in index && index[a] == s.index[a] && index[s.head.id] == s.head
    ensures !Before(index, s.validated, s.head.id, a) && a != s.head.id
  {
    hide NumFromId;
  }

  // ---- examples ----

  /** A block with this number, told apart from others by tag. */
  function Sample(tag: nat, num: nat, previous: Id, lib: nat): (b: Block)
    requires tag < 100 && num < 100
  {
    Block(MakeId(Digest(0, 0, 0, tag), num), previous, lib)
  }

  lemma SampleId(tag: nat, num: nat, previous: Id, lib: nat)
    requires tag < 100 && num < 100
    ensures var b := Sample(tag, num, previous, lib);
            NumFromId(b.id) == num && b.id.h1 == 0 && b.id.h2 == 0 && b.id.h3 == tag
            && b.id.h0 == MakeId(Digest(0, 0, 0, 0), num).h0
  {
    hide NumFromId;
    NumOfMadeId(Digest(0, 0, 0, tag), num);
  }

  ghost function SampleRoot(): (b: Block) {
    Sample(0, 1, Digest(0, 0, 0, 0), 0)
  }

  /** Two validated blocks on the root that tie, the head being the later one in the order of ids. */
  ghost function Tied(): (s: State) {
    var root := SampleRoot();
    var a, b := Sample(1, 2, root.id, 0), Sample(2, 2, root.id, 0);
    State(root, b, map[a.id := a, b.id := b], {a.id, b.id})
  }

  /** The tie can occur, so adding a block that is not validated can move the head. */
  lemma TieCanOccur()
    ensures Sound(Tied()) && exists a :: TiesAhead(Tied(), a)
  {
    hide NumFromId, MakeId;
    var root := SampleRoot();
    SampleId(0, 1, Digest(0, 0, 0, 0), 0);
    SampleId(1, 2, root.id, 0);
    SampleId(2, 2, root.id, 0);
    assert TiesAhead(Tied(), Sample(1, 2, root.id, 0).id);
  }

  /** A validated block on a root that declares more irreversible: the head is still the root. */
  ghost function BehindRoot(): (s: State) {
    var root := Sample(0, 1, Digest(0, 0, 0, 0), 5);
    var a := Sample(1, 2, root.id, 3);
    State(root, root, map[a.id := a], {a.id})
  }

  /** Such a state is sound, and the next block added makes its head the worse block. */
  lemma HeadCanGetWorse()
    ensures Sound(BehindRoot()) && BehindRoot().validated != {} && BehindRoot().head.id !in BehindRoot().validated
  {
    hide NumFromId, MakeId;
    var root := Sample(0, 1, Digest(0, 0, 0, 0), 5);
    SampleId(0, 1, Digest(0, 0, 0, 0), 5);
    SampleId(1, 2, root.id, 3);
  }

  /** Two validated branches, the head on one of them, a further block on the other. */
  ghost function Forked(): (s: State) {
    var root := SampleRoot();
    var a, b := Sample(1, 2, root.id, 0), Sample(2, 2, root.id, 1);
    var c := Sample(3, 3, a.id, 0);
    State(root, b, map[a.id := a, b.id := b, c.id := c], {a.id, b.id})
  }

  /** A sound state in which advancing the root is refused and leaves an orphan behind: the head is
      not built on the validated block a, but another block is. */
  lemma RefusalCanBreak()
    ensures Sound(Forked())
    ensures var a := Sample(1, 2, SampleRoot().id, 0).id;
            && a in Forked().validated && !Descends(Forked().index, Forked().head.id, a)
            && Above(Forked().index, a) != map[]
  {
    hide NumFromId, MakeId;
    var s, root := Forked(), SampleRoot();
    var a := Sample(1, 2, root.id, 0);
    SampleId(0, 1, Digest(0, 0, 0, 0), 0);
    SampleId(1, 2, root.id, 0);
    SampleId(2, 2, root.id, 1);
    SampleId(3, 3, a.id, 0);
    ChildIsAbove(s.index, Sample(3, 3, a.id, 0).id, a.id);
  }

  // ---- pruning ----

  lemma PruneKeepsSound(s: State, a: Id)
    requires Sound(s) && !Descends(s.index, s.head.id, a)
    ensures var index := Pruned(s.index, a);
            Sound(s.(index := index, validated := s.validated * index.Keys))
  {
    hide NumFromId;
    PrunedIsLinked(s.root.id, s.index, a);
  }

  // ---- advancing the root ----

  /** A stage of advance_root: the index has lost the new root, keeps all that is built on it, and
      what is left builds on the old root, the new root or another block left. */
  ghost predicate Advancing(s: State, a: Id, cur: Index)
    requires Keyed(s.index)
  {
    && (forall i :: i in cur ==> i in s.index && cur[i] == s.index[i] && i != a)
    && (forall i :: i in Above(s.index, a) ==> i in cur)
    && (forall i :: i in cur ==> cur[i].previous in cur || cur[i].previous == s.root.id || cur[i].previous == a)
  }

  /** Without a, what is built on a is cut off from everything below a. */
  lemma {:induction false} CutOff(index: Index, cur: Index, a: Id, x: Id, p: Id)
    requires Keyed(index) && Keyed(cur) && (forall i :: i in cur ==> i in index && cur[i] == index[i] && i != a)
    requires Descends(index, x, a) && NumFromId(p) < NumFromId(a)
    ensures !Descends(cur, x, p)
    decreases NumFromId(x)
  {
    hide NumFromId;
    DescendsNum(index, x, a);
    if x != a && x in cur { CutOff(index, cur, a, index[x].previous, p); }
  }

  /** What is left and is not built on a still reaches the old root. */
  lemma {:induction false} StillReachesRoot(s: State, a: Id, cur: Index, x: Id)
    requires Keyed(s.index) && Keyed(cur) && Advancing(s, a, cur)
    requires (x in cur || x == s.root.id) && !Descends(s.index, x, a)
    ensures Descends(cur, x, s.root.id)
    decreases NumFromId(x)
  {
    hide NumFromId;
    if x != s.root.id { StillReachesRoot(s, a, cur, cur[x].previous); }
  }

  lemma AdvanceStep(s: State, a: Id, cur: Index, p: Id)
    requires Keyed(s.index) && Keyed(cur) && Advancing(s, a, cur) && NumFromId(p) < NumFromId(a)
    ensures Advancing(s, a, Pruned(cur, p))
  {
    hide NumFromId;
    forall i | i in Above(s.index, a) ensures i in Pruned(cur, p) {
      CutOff(s.index, cur, a, i, p);
    }
  }

  lemma {:induction false} SubDescends(index: Index, cur: Index, x: Id, p: Id)
    requires Keyed(index) && Keyed(cur) && (forall i :: i in cur ==> i in index && cur[i] == index[i])
    requires Descends(cur, x, p)
    ensures Descends(index, x, p)
    decreases NumFromId(x)
  {
    hide NumFromId;
    if x != p { SubDescends(index, cur, cur[x].previous, p); }
  }

  /** After pruning below p nothing is built on p. */
  lemma PrunedHasNone(index: Index, p: Id)
    requires Keyed(index)
    ensures forall i :: i in Pruned(index, p) ==> !Descends(Pruned(index, p), i, p)
    ensures forall x :: !Descends(index, x, p) ==> !Descends(Pruned(index, p), x, p)
  {
    hide NumFromId, Descends;
    forall x | Descends(Pruned(index, p), x, p) ensures Descends(index, x, p) {
      SubDescends(index, Pruned(index, p), x, p);
    }
  }

  /** If pruning below the old root did not take the head, the head is built on the new root. */
  lemma SurvivingHead(s: State, a: Id, cur: Index)
    requires Sound(s) && Keyed(cur) && Advancing(s, a, cur)
    requires Descends(s.index, s.head.id, a) || s.head.id == s.root.id || s.head.id in cur
    requires !Descends(cur, s.head.id, s.root.id)
    ensures Descends(s.index, s.head.id, a)
  {
    hide NumFromId, Descends, HeadIsBest, Advancing;
    if !Descends(s.index, s.head.id, a) { StillReachesRoot(s, a, cur, s.head.id); }
  }

  /** Pruning the old root last leaves exactly what is built on the new one. */
  lemma AdvanceEnds(s: State, a: Id, cur: Index)
    requires Sound(s) && Keyed(cur) && Advancing(s, a, cur)
    requires forall i :: i in cur ==> !Descends(cur, i, s.root.id)
    ensures cur == Above(s.index, a)
  {
    hide NumFromId;
    forall i | i in cur ensures i in Above(s.index, a) {
      if !Descends(s.index, i, a) { StillReachesRoot(s, a, cur, i); }
    }
  }

  lemma AdvanceKeepsSound(s: State, a: Id)
    requires Sound(s) && a in s.index && Descends(s.index, s.head.id, a)
    ensures var index := Above(s.index, a);
            Sound(State(s.index[a], s.head, index, s.validated * index.Keys))
  {
    hide NumFromId;
    AboveIsLinked(s.index, a);
    HeadAboveRoot(s, a);
  }

  /** A head built on a block of the index is itself in the index. */
  lemma HeadAboveRoot(s: State, a: Id)
    requires Sound(s) && a in s.index && Descends(s.index, s.head.id, a)
    ensures s.head.id in s.index && s.index[s.head.id] == s.head
  {
    hide NumFromId;
  }

  lemma SoundIndex(s: State)
    requires Sound(s)
    ensures Keyed(s.index) && s.validated <= s.index.Keys && s.root.id !in s.index
  {
  }

  lemma SoundParts(s: State, a: Id)
    requires Sound(s) && a in s.index
    ensures Keyed(s.index) && s.validated <= s.index.Keys && s.root.id !in s.index && Descends(s.index, a, s.root.id)
  {
    hide NumFromId;
    ReachesRoot(s.root.id, s.index, a);
  }

  lemma AdvanceStarts(s: State, a: Id)
    requires Sound(s) && a in s.index
    ensures Keyed(s.index - {a}) && Advancing(s, a, s.index - {a})
    ensures Descends(s.index, s.head.id, a) || s.head.id == s.root.id || s.head.id in s.index - {a}
  {
    hide NumFromId;
  }

  lemma HeadIsKept(s: State, a: Id, cur: Index, p: Id)
    requires Keyed(s.index) && Keyed(cur) && Advancing(s, a, cur) && NumFromId(p) < NumFromId(a)
    requires Descends(s.index, s.head.id, a)
    ensures !Descends(cur, s.head.id, p)
  {
    hide NumFromId, Descends;
    CutOff(s.index, cur, a, s.head.id, p);
  }

  /** A refused advance leaves a sound database exactly when nothing was built on the refused block. */
  lemma RefusedAdvance(s: State, a: Id, cur: Index)
    requires Sound(s) && a in s.index && Keyed(cur) && Advancing(s, a, cur)
    requires s.head.id == s.root.id || s.head.id in cur
    ensures Sound(s.(index := cur, validated := s.validated * cur.Keys)) <==> Above(s.index, a) == map[]
  {
    hide NumFromId;
    RootIsLowest(s.root.id, s.index, a);
    forall x | x in Above(s.index, a) ensures !Linked(s.root.id, cur) {
      CutOff(s.index, cur, a, x, s.root.id);
      if Linked(s.root.id, cur) { ReachesRoot(s.root.id, cur, x); }
    }
    NothingAbove(s, a, cur);
  }

  lemma NothingAbove(s: State, a: Id, cur: Index)
    requires Sound(s) && a in s.index && Keyed(cur) && Advancing(s, a, cur)
    ensures Above(s.index, a) == map[] ==> Linked(s.root.id, cur)
  {
    hide NumFromId;
    forall i | i in cur && cur[i].previous == a ensures i in Above(s.index, a) { ChildIsAbove(s.index, i, a); }
  }

  lemma ChildIsAbove(index: Index, i: Id, a: Id)
    requires Keyed(index) && i in index && index[i].previous == a
    ensures i in Above(index, a)
  {
    hide NumFromId;
    assert Descends(index, i, a);
  }
}
