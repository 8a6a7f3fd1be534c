/** libraries/chain/fork_database.cpp: the blocks above the last irreversible one, which of them are
    validated, and the head chosen among those. */
module ForkDatabase {
  import opened Wrappers
  import opened Sequences
  import opened BlockIds
  import opened Merkle
  import opened ForkTree
  import opened ForkState
  import opened ForkQueue
  import opened ForkBranches
  import opened ForkFile
  import opened ForkMerge

  datatype Error =
    | RootNotSet | DuplicateBlock | NoSuchBlock | NotValidated | RemovesHead   // fork_database_exception
    | UnlinkableBlock        // unlinkable_block_exception
    | BlockNotFound          // fork_db_block_not_found
    | Corrupted              // fork_database_exception: the stored head is missing or not the best

  /** The first pending block in the index order is a best one among them. */
  lemma FirstOfPending(index: Index, validated: set<Id>, c: Id)
    requires Keyed(index) && validated <= index.Keys && IsFirst(index, validated, index.Keys - validated, c)
    ensures forall i :: i in index && i !in validated ==> !Preferred(index[i], index[c])
  {
    hide NumFromId;
    forall i | i in index && i !in validated ensures !Preferred(index[i], index[c]) {
      if i != c { assert Before(index, validated, c, i); }
    }
  }

  /** Comparing the head with the first block compares it with all validated ones. */
  lemma BestDecides(index: Index, validated: set<Id>, c: Id, head: Block)
    requires Keyed(index) && validated <= index.Keys && IsFirst(index, validated, index.Keys, c)
    ensures c in validated <==> validated != {}
    ensures c in validated ==> (!Preferred(index[c], head) <==> forall i :: i in validated ==> !Preferred(index[i], head))
  {
    hide NumFromId, Before;
    FirstIsBest(index, validated, c);
  }

  /** The opened state is sound exactly when the stored head is the root or validated. */
  lemma OpenedIsSound(s: State, f: File)
    requires Opens(f) && s == State(f.root, FileHead(f), Loaded(f.entries), Flagged(f.entries))
    requires Linked(s.root.id, s.index) && s.validated <= s.index.Keys
    ensures Sound(s) <==> f.headId == f.root.id || f.headId in Flagged(f.entries)
  {
    hide NumFromId, Loaded, Flagged, Addable, Preferred;
  }

  /** Entry k is the first that add refuses, and why: its parent is missing, or it is there already. */
  ghost predicate FirstRefused(f: File, k: nat, e: Error) {
    && k < |f.entries| && !Addable(f, k) && (forall j :: 0 <= j < k ==> Addable(f, j))
    && var b, before := f.entries[k].block, Loaded(f.entries[..k]);
    e == if b.previous == f.root.id || b.previous in before then DuplicateBlock else UnlinkableBlock
  }

  class Database {
    var root: Option<Block>
    var head: Option<Block>
    var index: Index
    var validated: set<Id>

    ghost function View(): (s: State)
      requires root.Some? && head.Some?
      reads this
    {
      State(root.value, head.value, index, validated)
    }

    ghost predicate Valid()
      reads this
    {
      if root.None? then head.None? && index == map[] && validated == {} else head.Some? && Sound(View())
    }

    constructor ()
      ensures Valid() && root.None?
    {
      root, head, index, validated := None, None, map[], {};
    }

    method Reset(newRoot: Block)
      modifies this
      ensures Valid() && root == Some(newRoot) && head == root && index == map[] && validated == {}
    {
      root, head, index, validated := Some(newRoot), Some(newRoot), map[], {};
    }

    method RollbackHeadToRoot()
      requires Valid()
      modifies this
      ensures Valid() && root == old(root) && index == old(index) && head == root && validated == {}
    {
      validated, head := {}, root;
    }

    function GetBlock(id: Id): (b: Option<Block>)
      reads this
    {
      if id in index then Some(index[id]) else None
    }

    /** The root or a block of the index. */
    function GetBlockHeader(id: Id): (b: Option<Block>)
      requires root.Some?
      reads this
    {
      if root.value.id == id then root else GetBlock(id)
    }

    method Add(n: Block, isValid: bool, ignoreDuplicate: bool) returns (r: Result<(), Error>)
      requires Valid() && NumFromId(n.id) == NumFromId(n.previous) + 1
      modifies this
      ensures Valid() && root == old(root)
      ensures r == (if root.None? then Err(RootNotSet)
                    else if !old(Linkable(View(), n)) then Err(UnlinkableBlock)
                    else if n.id in old(index) && !ignoreDuplicate then Err(DuplicateBlock)
                    else Ok(()))
      ensures r.Err? || n.id in old(index) ==> index == old(index) && validated == old(validated) && head == old(head)
      ensures r.Ok? && n.id !in old(index) ==>
                && index == old(index)[n.id := n] && validated == old(validated) + (if isValid then {n.id} else {})
                && (validated == {} ==> head == old(head))
                && (validated != {} ==> IsFirst(index, validated, index.Keys, head.value.id) && IsChoice(index, validated, head.value.id)
                                        && head.value == index[head.value.id])
    {
      hide NumFromId, Before, IdLess, IdValue, IsChoice;
      if root.None? { return Err(RootNotSet); }
      var prev := GetBlockHeader(n.previous);
      if prev.None? { return Err(UnlinkableBlock); }
      if n.id in index {
        if ignoreDuplicate { return Ok(()); }
        return Err(DuplicateBlock);
      }
      AddKeepsLinked(View(), n);
      index := index[n.id := n];
      if isValid { validated := validated + {n.id}; }
      var candidate := First(index, validated, index.Keys);
      FirstIsBest(index, validated, candidate);
      if candidate in validated {
        FirstIsChoice(index, validated, index.Keys, validated, candidate);
        head := Some(index[candidate]);
      }
      r := Ok(());
    }

    /** Marks the block valid; the head moves to it exactly when it is preferred. */
    method MarkValid(id: Id) returns (r: Result<(), Error>)
      requires Valid() && root.Some?
      modifies this`validated, this`head
      ensures Valid()
      ensures r == if id == root.value.id || id in index then Ok(()) else Err(NoSuchBlock)
      ensures r.Err? || id == root.value.id || id in old(validated) ==> validated == old(validated) && head == old(head)
      ensures id in index && id !in old(validated) ==>
                && validated == old(validated) + {id}
                && head == if Preferred(index[id], old(head.value)) then Some(index[id]) else old(head)
    {
      hide NumFromId, Before, IdLess;
      if id == root.value.id || id in validated { return Ok(()); }
      if id !in index { return Err(NoSuchBlock); }
      ghost var s := View();
      validated := validated + {id};
      var candidate := First(index, validated, index.Keys);
      FirstAfterMark(s, id, candidate);
      FirstIsBest(index, validated, candidate);
      if Preferred(index[candidate], head.value) { head := Some(index[candidate]); }
      r := Ok(());
    }

    /** Removes a block and everything built on it, unless the head would go with it. */
    method Remove(id: Id) returns (r: Result<(), Error>)
      requires head.Some? && Keyed(index) && validated <= index.Keys
      modifies this`index, this`validated
      ensures r == if Descends(old(index), head.value.id, id) then Err(RemovesHead) else Ok(())
      ensures r.Ok? ==> index == Pruned(old(index), id) && validated == old(validated) * index.Keys
      ensures r.Err? ==> index == old(index) && validated == old(validated)
      ensures old(Valid()) && root.Some? ==> Valid()
    {
      hide NumFromId, Sound, Descends;
      ghost var index0 := index;
      var found := RemovalQueue(index, head.value.id, id);
      if found.None? { return Err(RemovesHead); }
      var queue := found.value;
      for k := 0 to |queue|
        invariant index == index0 - Elems(queue[..k]) && validated == old(validated) - Elems(queue[..k])
      {
        assert Elems(queue[..k + 1]) == Elems(queue[..k]) + {queue[k]};
        index := index - {queue[k]};
        validated := validated - {queue[k]};
      }
      assert queue[..|queue|] == queue;
      assert index == Pruned(index0, id);
      if old(Valid()) && root.Some? { PruneKeepsSound(old(View()), id); }
      r := Ok(());
    }

    /** Makes a validated ancestor of the head, or the head itself, the root. A block on another branch
        is refused only after it has been taken out of the index. */
    method AdvanceRoot(id: Id) returns (r: Result<(), Error>)
      requires Valid()
      modifies this
      ensures r == (if old(root).None? then Err(RootNotSet)
                    else if id !in old(index) then Err(NoSuchBlock)
                    else if id !in old(validated) then Err(NotValidated)
                    else if !Descends(old(index), old(head.value.id), id) then Err(RemovesHead)
                    else Ok(()))
      ensures r.Ok? ==> Valid() && root == Some(old(index)[id]) && head == old(head)
                        && index == Above(old(index), id) && validated == old(validated) * index.Keys
      ensures r.Err? ==> root == old(root) && head == old(head)
      ensures r.Err? && r.error != RemovesHead ==> index == old(index) && validated == old(validated)
      ensures r == Err(RemovesHead) ==> id !in index && (Valid() <==> Above(old(index), id) == map[])
    {
      hide NumFromId, Descends, Sound, Advancing, Linked;
      if root.None? { return Err(RootNotSet); }
      if id !in index { return Err(NoSuchBlock); }
      if id !in validated { return Err(NotValidated); }
      ghost var s := View();
      SoundParts(s, id);
      var newRoot := index[id];
      var below := AncestorIds(root.value.id, index, id);
      assert below.Some?;   // "orphaned branch was present in forked database" cannot happen
      index, validated := index - {id}, validated - {id};
      AdvanceStarts(s, id);
      for k := 0 to |below.value|
        invariant root == Some(s.root) && head == Some(s.head)
        invariant Keyed(index) && validated == s.validated * index.Keys && id !in index
        invariant Advancing(s, id, index)
        invariant Descends(s.index, s.head.id, id) || s.head.id == s.root.id || s.head.id in index
        invariant k == |below.value| ==> (forall i :: i in index ==> !Descends(index, i, s.root.id)) && !Descends(index, s.head.id, s.root.id)
      {
        ghost var cur := index;
        var p := below.value[k];
        AdvanceStep(s, id, cur, p);
        PrunedHasNone(cur, p);
        if Descends(s.index, s.head.id, id) { HeadIsKept(s, id, cur, p); }
        var removed := Remove(p);
        if removed.Err? {
          RefusedAdvance(s, id, index);
          return removed;
        }
      }
      SurvivingHead(s, id, index);
      AdvanceEnds(s, id, index);
      AdvanceKeepsSound(s, id);
      root := Some(newRoot);
      r := Ok(());
    }

    /** The block to build on: the head, unless a block not yet validated is preferred to it. */
    method PendingHead() returns (b: Block)
      requires Valid() && root.Some?
      ensures forall i :: i in index ==> !Preferred(index[i], b)
      ensures b == head.value || (b.id in index && b.id !in validated && b == index[b.id] && Preferred(b, head.value))
      ensures b != head.value ==> IsChoice(index, index.Keys - validated, b.id)
    {
      hide NumFromId, Before, IdLess, IdValue, IsChoice;
      b := head.value;
      var pending := index.Keys - validated;
      assert forall i :: i in index ==> i in validated || i in pending;
      if pending != {} {
        var first := First(index, validated, pending);
        FirstOfPending(index, validated, first);
        FirstIsChoice(index, validated, pending, pending, first);
        if Preferred(index[first], head.value) { b := index[first]; }
      }
    }

    /** The branch from h down to the root, without the blocks numbered above the limit; nothing if h
        is not in the index. */
    method FetchBranch(h: Id, limit: nat) returns (result: seq<Block>)
      requires Valid() && root.Some?
      ensures h !in index ==> result == []
      ensures h in index ==> Descends(index, h, root.value.id) && result == Below(PathTo(index, h, root.value.id), limit)
    {
      hide NumFromId, Sound, Descends, PathTo;
      result := [];
      var s := GetBlock(h);
      if s.None? { return; }
      BranchOf(View(), h);
      ghost var path := PathTo(index, h, root.value.id);
      ghost var k := 0;
      while s.Some?
        invariant 0 <= k <= |path| && (if k < |path| then s == Some(path[k]) else s == None)
        invariant result == Below(path[..k], limit)
        decreases |path| - k
      {
        BelowSnoc(path, k, limit);
        if s.value.Num() <= limit { result := result + [s.value]; }
        s := GetBlock(s.value.previous);
        k := k + 1;
      }
      assert path[..k] == path;
    }

    /** The block with this number on the branch that ends in h, if there is one. */
    method SearchOnBranch(h: Id, num: nat) returns (r: Option<Block>)
      requires Valid() && root.Some?
      ensures h !in index ==> r == None
      ensures h in index ==> Descends(index, h, root.value.id)
      ensures h in index && r.Some? ==> r.value in PathTo(index, h, root.value.id) && r.value.Num() == num
      ensures h in index ==> (r.Some? <==> NumFromId(root.value.id) < num <= NumFromId(h))
    {
      hide NumFromId, Sound, Descends, PathTo;
      r := None;
      var s := GetBlock(h);
      if s.None? { return; }
      BranchOf(View(), h);
      ghost var path := PathTo(index, h, root.value.id);
      if NumFromId(root.value.id) < num <= NumFromId(h) { assert path[NumFromId(h) - num].Num() == num; }
      ghost var k := 0;
      while s.Some?
        invariant 0 <= k <= |path| && (if k < |path| then s == Some(path[k]) else s == None)
        invariant forall j :: 0 <= j < k ==> path[j].Num() != num
        decreases |path| - k
      {
        if s.value.Num() == num { return s; }
        s := GetBlock(s.value.previous);
        k := k + 1;
      }
    }

    /** The two branches from their nearest common ancestor, without it. */
    method FetchBranchFrom(first: Id, second: Id) returns (r: Result<(seq<Block>, seq<Block>), Error>)
      requires Valid() && root.Some?
      ensures r.Ok? <==> (first == root.value.id || first in index) && (second == root.value.id || second in index)
      ensures r.Err? ==> r.error == BlockNotFound
      ensures r.Ok? ==> var m := Meet(root.value.id, index, first, second);
                        && Descends(index, first, m) && Descends(index, second, m)
                        && r.value == (PathTo(index, first, m), PathTo(index, second, m))
    {
      hide NumFromId, HeadIsBest, Descends, PathTo, Meet, Walked;
      var x, y := GetBlockHeader(first), GetBlockHeader(second);
      if x.None? || y.None? { return Err(BlockNotFound); }
      ghost var rootId, m := root.value.id, Meet(root.value.id, index, first, second);
      MeetIsNearest(rootId, index, first, second);
      WalkStart(rootId, index, first, m);
      WalkStart(rootId, index, second, m);
      var left: seq<Block>, right: seq<Block> := [], [];
      while x.value.Num() > y.value.Num()
        invariant x.Some? && Walked(rootId, index, first, x.value.id, m, left) && GetBlockHeader(x.value.id) == x
        invariant Meet(rootId, index, x.value.id, y.value.id) == m
        decreases x.value.Num()
      {
        WalkStep(rootId, index, first, x.value.id, y.value.id, m, left);
        left := left + [x.value];
        x := GetBlockHeader(x.value.previous);
      }
      while y.value.Num() > x.value.Num()
        invariant y.Some? && Walked(rootId, index, second, y.value.id, m, right) && GetBlockHeader(y.value.id) == y
        invariant Meet(rootId, index, x.value.id, y.value.id) == m
        invariant x.value.Num() <= y.value.Num()
        decreases y.value.Num()
      {
        WalkStep(rootId, index, second, y.value.id, x.value.id, m, right);
        right := right + [y.value];
        y := GetBlockHeader(y.value.previous);
      }
      if x.value.id == y.value.id {
        Arrived(rootId, index, first, second, x.value.id, m, left, right);
        return Ok((left, right));
      }
      while x.value.previous != y.value.previous
        invariant x.Some? && Walked(rootId, index, first, x.value.id, m, left) && GetBlockHeader(x.value.id) == x
        invariant y.Some? && Walked(rootId, index, second, y.value.id, m, right) && GetBlockHeader(y.value.id) == y
        invariant Meet(rootId, index, x.value.id, y.value.id) == m
        invariant x.value.Num() == y.value.Num() && x.value.id != y.value.id
        decreases x.value.Num()
      {
        BothStep(rootId, index, first, second, x.value.id, y.value.id, m, left, right);
        left, right := left + [x.value], right + [y.value];
        x := GetBlock(x.value.previous);
        y := GetBlock(y.value.previous);
      }
      BothStep(rootId, index, first, second, x.value.id, y.value.id, m, left, right);
      left, right := left + [x.value], right + [y.value];
      Arrived(rootId, index, first, second, x.value.previous, m, left, right);
      r := Ok((left, right));
    }

    /** Writes the file and empties the index; writes nothing if there is no root. */
    method Close() returns (file: Option<File>)
      requires Valid()
      modifies this`index, this`validated
      ensures file.None? <==> root.None?
      ensures file.Some? ==> Written(old(View()), file.value)
      ensures index == map[] && validated == {}
    {
      hide NumFromId, HeadIsBest, Before, Rising;
      file := None;
      if root.None? { return; }
      var unvalidated := LastToFirst(index, validated, index.Keys - validated);
      var valid := LastToFirst(index, validated, validated);
      LastToFirstRises(index, validated, unvalidated, false);
      LastToFirstRises(index, validated, valid, true);
      var order := Merge(index, validated, unvalidated, valid);
      RisingIn(index, validated, order);
      var entries: seq<Entry> := [];
      for k := 0 to |order|
        invariant |entries| == k && index == old(index) && validated == old(validated)
        invariant forall j :: 0 <= j < k ==> entries[j] == Entry(index[order[j]], order[j] in validated)
      {
        entries := entries + [Entry(index[order[k]], order[k] in validated)];
      }
      file := Some(File(root.value, entries, head.value.id));
      EntriesAreWritten(View(), order, file.value);
      index, validated := map[], {};
    }

    /** Reads a file back, block by block. */
    method Open(f: File) returns (r: Result<(), Error>)
      requires forall k :: 0 <= k < |f.entries| ==> NumFromId(f.entries[k].block.id) == NumFromId(f.entries[k].block.previous) + 1
      modifies this
      ensures r.Ok? <==> Opens(f)
      ensures r == Err(Corrupted) <==> !Opens(f) && forall k :: 0 <= k < |f.entries| ==> Addable(f, k)
      ensures r.Err? && r.error != Corrupted ==> exists k :: FirstRefused(f, k, r.error)
      ensures r.Ok? ==> root == Some(f.root) && head == Some(FileHead(f)) && index == Loaded(f.entries) && validated == Flagged(f.entries)
      ensures r.Ok? && validated == {} ==> head == root
      ensures r.Ok? ==> (Valid() <==> f.headId == f.root.id || f.headId in Flagged(f.entries))
    {
      hide NumFromId, HeadIsBest, Loaded, Flagged, Before, Preferred;
      Reset(f.root);
      LoadStarts();
      assert f.entries[..0] == [];
      for k := 0 to |f.entries|
        invariant Valid() && root == Some(f.root)
        invariant index == Loaded(f.entries[..k]) && validated == Flagged(f.entries[..k])
        invariant forall j :: 0 <= j < k ==> Addable(f, j)
      {
        var e := f.entries[k];
        LoadStep(f.entries, k);
        var added := Add(e.block, e.isValid, false);
        if added.Err? {
          assert FirstRefused(f, k, added.error);
          return added;
        }
      }
      assert f.entries[..|f.entries|] == f.entries;
      SoundIndex(View());
      if f.headId == root.value.id {
        head := root;
      } else {
        head := GetBlock(f.headId);
        if head.None? { return Err(Corrupted); }
      }
      if index == map[] {
        if head.value.id != root.value.id { return Err(Corrupted); }
      } else {
        var candidate := First(index, validated, index.Keys);
        BestDecides(index, validated, candidate, head.value);
        if candidate !in validated {
          if head.value.id != root.value.id { return Err(Corrupted); }
        } else if Preferred(index[candidate], head.value) {
          return Err(Corrupted);
        }
      }
      OpenedIsSound(View(), f);
      r := Ok(());
    }
  }

  /** The head moves from the root to a block that declares less irreversible. */
  method MoveHeadDown() returns (db: Database)
    ensures fresh(db) && db.Valid() && db.root.Some? && db.head.Some? && Preferred(db.root.value, db.head.value)
  {
    hide NumFromId, MakeId, Linked, Keyed, Before;
    var root := Sample(0, 1, Digest(0, 0, 0, 0), 5);
    var a := Sample(1, 2, root.id, 3);
    var n := Sample(2, 3, a.id, 3);
    SampleId(0, 1, Digest(0, 0, 0, 0), 5);
    SampleId(1, 2, root.id, 3);
    SampleId(2, 3, a.id, 3);
    db := new Database();
    db.Reset(root);
    var added := db.Add(a, false, false);
    var marked := db.MarkValid(a.id);
    assert db.head == Some(root) && db.validated == {a.id};
    added := db.Add(n, false, false);
    SoundIndex(db.View());
    FirstIsBest(db.index, db.validated, db.head.value.id);
  }
}
