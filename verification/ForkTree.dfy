/** The tree of blocks behind libraries/chain/fork_database.cpp: ancestry, branches, the nearest
    common ancestor, pruning, and the order in which the database prefers blocks. */
module ForkTree {
  import opened Bits
  import opened BlockIds

  /** The parts of a block state the fork database looks at. The block number is read from the id;
      the validated flag is kept apart from the block. */
  datatype Block = Block(id: Id, previous: Id, lib: nat) {
    function Num(): (n: nat) {
      NumFromId(id)
    }
  }

  type Index = map<Id, Block>

  /** Every block is filed under its id, and its id carries the number after its predecessor's. */
  ghost predicate Keyed(index: Index) {
    forall i :: i in index ==> index[i].id == i && NumFromId(i) == NumFromId(index[i].previous) + 1
  }

  /** Every block builds on the root or on another block. */
  ghost predicate Linked(root: Id, index: Index) {
    && Keyed(index) && root !in index
    && forall i :: i in index ==> index[i].previous == root || index[i].previous in index
  }

  // ---- ancestry ----

  /** x is a or is built on it. */
  ghost predicate Descends(index: Index, x: Id, a: Id)
    requires Keyed(index)
    decreases NumFromId(x)
  {
    x == a || (x in index && Descends(index, index[x].previous, a))
  }

  lemma {:induction false} DescendsNum(index: Index, x: Id, a: Id)
    requires Keyed(index) && Descends(index, x, a)
    ensures NumFromId(a) <= NumFromId(x)
    ensures x != a ==> NumFromId(a) < NumFromId(x)
    decreases NumFromId(x)
  {
    hide NumFromId;
    if x != a { DescendsNum(index, index[x].previous, a); }
  }

  lemma {:induction false} DescendsTransitive(index: Index, x: Id, y: Id, z: Id)
    requires Keyed(index) && Descends(index, x, y) && Descends(index, y, z)
    ensures Descends(index, x, z)
    decreases NumFromId(x)
  {
    hide NumFromId;
    if x != y { DescendsTransitive(index, index[x].previous, y, z); }
  }

  lemma {:induction false} ReachesRoot(root: Id, index: Index, x: Id)
    requires Linked(root, index) && (x == root || x in index)
    ensures Descends(index, x, root)
    decreases NumFromId(x)
  {
    hide NumFromId;
    if x != root { ReachesRoot(root, index, index[x].previous); }
  }

  /** The ancestors of a block form a chain. */
  lemma {:induction false} AncestorsAreChained(index: Index, x: Id, a: Id, b: Id)
    requires Keyed(index) && Descends(index, x, a) && Descends(index, x, b) && NumFromId(b) <= NumFromId(a)
    ensures Descends(index, a, b)
    decreases NumFromId(x)
  {
    hide NumFromId;
    if x == a {
    } else if x == b {
      DescendsNum(index, x, a);
    } else {
      AncestorsAreChained(index, index[x].previous, a, b);
    }
  }

  /** The blocks from x back to, and without, its ancestor a. */
  ghost function PathTo(index: Index, x: Id, a: Id): (path: seq<Block>)
    requires Keyed(index) && Descends(index, x, a)
    decreases NumFromId(x)
  {
    if x == a then [] else [index[x]] + PathTo(index, index[x].previous, a)
  }

  /** A path starts at x, each block builds on the next, the last builds on a, and the numbers count
      down by one. */
  lemma {:induction false} PathShape(index: Index, x: Id, a: Id)
    requires Keyed(index) && Descends(index, x, a)
    ensures var p := PathTo(index, x, a);
            && |p| == NumFromId(x) - NumFromId(a)
            && (p != [] ==> p[0].id == x && p[|p| - 1].previous == a)
            && (forall k :: 0 <= k < |p| ==> p[k].id in index && p[k] == index[p[k].id])
            && (forall k :: 0 <= k < |p| - 1 ==> p[k].previous == p[k + 1].id)
            && (forall k :: 0 <= k < |p| ==> NumFromId(p[k].id) == NumFromId(x) - k)
    decreases NumFromId(x)
  {
    hide NumFromId;
    if x != a {
      var prev := index[x].previous;
      PathShape(index, prev, a);
      var p, q := PathTo(index, x, a), PathTo(index, prev, a);
      assert p == [index[x]] + q;
      if q == [] { EmptyPath(index, prev, a); }
      assert forall k :: 0 < k < |p| ==> p[k] == q[k - 1];
    }
  }

  lemma EmptyPath(index: Index, x: Id, a: Id)
    requires Keyed(index) && Descends(index, x, a) && PathTo(index, x, a) == []
    ensures x == a
  {
  }

  // ---- nearest common ancestor ----

  /** Walk back from the higher of two blocks, or from both, until they meet. */
  ghost function Meet(root: Id, index: Index, x: Id, y: Id): (m: Id)
    requires Linked(root, index) && (x == root || x in index) && (y == root || y in index)
    decreases NumFromId(x) + NumFromId(y)
  {
    RootIsLowest(root, index, x);
    RootIsLowest(root, index, y);
    if x == y then x
    else if NumFromId(x) > NumFromId(y) then Meet(root, index, index[x].previous, y)
    else if NumFromId(y) > NumFromId(x) then Meet(root, index, x, index[y].previous)
    else Meet(root, index, index[x].previous, index[y].previous)
  }

  lemma RootIsLowest(root: Id, index: Index, x: Id)
    requires Linked(root, index) && (x == root || x in index)
    ensures NumFromId(root) <= NumFromId(x) && (x != root ==> NumFromId(root) < NumFromId(x))
  {
    hide NumFromId;
    ReachesRoot(root, index, x);
    DescendsNum(index, x, root);
  }

  /** They meet in a common ancestor, and every common ancestor is an ancestor of it. */
  lemma {:induction false} MeetIsNearest(root: Id, index: Index, x: Id, y: Id)
    requires Linked(root, index) && (x == root || x in index) && (y == root || y in index)
    ensures var m := Meet(root, index, x, y);
            && Descends(index, x, m) && Descends(index, y, m) && (m == root || m in index)
            && forall a :: Descends(index, x, a) && Descends(index, y, a) ==> Descends(index, m, a)
    decreases NumFromId(x) + NumFromId(y)
  {
    hide NumFromId;
    RootIsLowest(root, index, x);
    RootIsLowest(root, index, y);
    if x == y {
    } else if NumFromId(x) > NumFromId(y) {
      MeetIsNearest(root, index, index[x].previous, y);
      NotAbove(index, x, y);
    } else if NumFromId(y) > NumFromId(x) {
      MeetIsNearest(root, index, x, index[y].previous);
      NotAbove(index, y, x);
    } else {
      MeetIsNearest(root, index, index[x].previous, index[y].previous);
      NotAbove(index, x, y);
      NotAbove(index, y, x);
    }
  }

  /** A block no lower than y, and different from it, is no ancestor of y. */
  lemma NotAbove(index: Index, x: Id, y: Id)
    requires Keyed(index) && x != y && NumFromId(y) <= NumFromId(x)
    ensures !Descends(index, y, x)
  {
    hide NumFromId;
    if Descends(index, y, x) { DescendsNum(index, y, x); }
  }

  // ---- pruning ----

  /** The index without a block and everything built on it. */
  ghost function Pruned(index: Index, a: Id): (r: Index)
    requires Keyed(index)
    ensures Keyed(r)
  {
    map i | i in index && !Descends(index, i, a) :: index[i]
  }

  /** Only what is built on a stays: the index once a has become the root. */
  ghost function Above(index: Index, a: Id): (r: Index)
    requires Keyed(index)
    ensures Keyed(r)
  {
    map i | i in index && i != a && Descends(index, i, a) :: index[i]
  }

  lemma PrunedIsLinked(root: Id, index: Index, a: Id)
    requires Linked(root, index)
    ensures Linked(root, Pruned(index, a))
  {
    hide NumFromId;
  }

  lemma AboveIsLinked(index: Index, a: Id)
    requires Keyed(index)
    ensures Linked(a, Above(index, a))
  {
    hide NumFromId;
    forall i | i in Above(index, a) ensures index[i].previous == a || index[i].previous in Above(index, a) {
      assert Descends(index, index[i].previous, a);
    }
  }

  // ---- preference ----

  /** first_preferred. */
  predicate Preferred(a: Block, b: Block) {
    a.lib > b.lib || (a.lib == b.lib && a.Num() > b.Num())
  }

  /** The preference compares one number: the last irreversible block above, the block number below. */
  lemma PreferredIff(a: Block, b: Block)
    ensures Preferred(a, b) <==> a.lib * TWO_32 + a.Num() > b.lib * TWO_32 + b.Num()
  {
    hide NumFromId;
    if a.lib > b.lib {
      assert a.lib * TWO_32 >= (b.lib + 1) * TWO_32;
    } else if a.lib < b.lib {
      assert b.lib * TWO_32 >= (a.lib + 1) * TWO_32;
    }
  }

  /** The order of the by_lib_block_num index: validated blocks first, then by last irreversible
      block, by number, and by id. */
  predicate Before(index: Index, validated: set<Id>, i: Id, j: Id)
    requires i in index && j in index
  {
    if (i in validated) != (j in validated) then i in validated
    else if index[i].lib != index[j].lib then index[i].lib > index[j].lib
    else if NumFromId(i) != NumFromId(j) then NumFromId(i) > NumFromId(j)
    else IdLess(i, j)
  }

  /** The first of the blocks in s. */
  ghost predicate IsFirst(index: Index, validated: set<Id>, s: set<Id>, c: Id)
    requires s <= index.Keys
  {
    c in s && forall j :: j in s && j != c ==> Before(index, validated, c, j)
  }

  lemma {:induction false} FirstExists(index: Index, validated: set<Id>, s: set<Id>) returns (c: Id)
    requires s <= index.Keys && s != {}
    ensures IsFirst(index, validated, s, c)
    decreases |s|
  {
    hide NumFromId;
    var i :| i in s;
    var rest := s - {i};
    if rest == {} {
      assert s == {i};
      c := i;
    } else {
      c := FirstExists(index, validated, rest);
      if Before(index, validated, i, c) {
        forall j | j in s && j != i ensures Before(index, validated, i, j) {
          if j != c { BeforeTransitive(index, validated, i, c, j); }
        }
        c := i;
      } else {
        assert forall j :: j in s && j != c ==> j == i || j in rest;
      }
    }
  }

  lemma BeforeTransitive(index: Index, validated: set<Id>, i: Id, j: Id, k: Id)
    requires i in index && j in index && k in index
    requires Before(index, validated, i, j) && Before(index, validated, j, k)
    ensures Before(index, validated, i, k)
  {
    hide NumFromId;
  }

  /** The first block is validated if any is, and then no validated block is preferred to it. */
  lemma FirstIsBest(index: Index, validated: set<Id>, c: Id)
    requires Keyed(index) && validated <= index.Keys && IsFirst(index, validated, index.Keys, c)
    ensures c in validated <==> validated != {}
    ensures forall i :: i in index && (i in validated <==> c in validated) ==> !Preferred(index[i], index[c])
  {
    hide NumFromId;
    forall v | v in validated ensures c in validated {
      if v != c { assert Before(index, validated, c, v); }
    }
    forall i | i in index && (i in validated <==> c in validated) ensures !Preferred(index[i], index[c]) {
      if i != c { assert Before(index, validated, c, i); }
    }
  }

  /** Of the blocks in s, one that reaches the highest last irreversible block, of those the highest
      number, and of those the least id, read as a number. */
  ghost predicate IsChoice(index: Index, s: set<Id>, c: Id)
    requires s <= index.Keys
  {
    c in s && forall i :: i in s ==>
      || index[c].lib > index[i].lib
      || (index[c].lib == index[i].lib && NumFromId(c) > NumFromId(i))
      || (index[c].lib == index[i].lib && NumFromId(c) == NumFromId(i) && IdValue(c) <= IdValue(i))
  }

  /** Among blocks of one flag the first in the index order is that choice. */
  lemma FirstIsChoice(index: Index, validated: set<Id>, s: set<Id>, t: set<Id>, c: Id)
    requires s <= index.Keys && t <= s && IsFirst(index, validated, s, c) && c in t
    requires forall i :: i in t ==> (i in validated <==> c in validated)
    ensures IsChoice(index, t, c)
  {
    hide NumFromId, IdValue;
    forall i | i in t && i != c
      ensures || index[c].lib > index[i].lib
              || (index[c].lib == index[i].lib && NumFromId(c) > NumFromId(i))
              || (index[c].lib == index[i].lib && NumFromId(c) == NumFromId(i) && IdValue(c) <= IdValue(i))
    {
      assert Before(index, validated, c, i);
      IdLessIff(c, i);
    }
  }
}
