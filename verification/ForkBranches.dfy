/** The walks of the fork database along the predecessors of a block. */
module ForkBranches {
  import opened Wrappers
  import opened BlockIds
  import opened ForkTree
  import opened ForkState

  // ---- advance_root ----

  /** The walk of advance_root from a block down to the root: the ids of everything below it, or
      nothing if it ends elsewhere. */
  method AncestorIds(root: Id, index: Index, id: Id) returns (r: Option<seq<Id>>)
    requires Keyed(index) && id in index && root !in index
    ensures r.Some? ==> r.value != [] && r.value[|r.value| - 1] == root && r.value[0] == index[id].previous
    ensures r.Some? ==> forall k :: 0 <= k < |r.value| - 1 ==> r.value[k] in index && index[r.value[k]].previous == r.value[k + 1]
    ensures r.Some? <==> Descends(index, id, root)
    ensures r.Some? ==> forall k :: 0 <= k < |r.value| ==> NumFromId(r.value[k]) < NumFromId(id)
  {
    hide NumFromId;
    var b := id;
    var ids: seq<Id> := [];
    while true
      invariant b in index && NumFromId(b) <= NumFromId(id)
      invariant Descends(index, id, root) <==> Descends(index, b, root)
      invariant forall k :: 0 <= k < |ids| ==> NumFromId(ids[k]) < NumFromId(id)
      invariant if ids == [] then b == id else ids[0] == index[id].previous && ids[|ids| - 1] == b
      invariant forall k :: 0 <= k < |ids| - 1 ==> ids[k] in index && index[ids[k]].previous == ids[k + 1]
      decreases NumFromId(b)
    {
      var prev := index[b].previous;
      ids := ids + [prev];
      if prev !in index {
        if prev != root { return None; }
        return Some(ids);
      }
      b := prev;
    }
  }

  // ---- fetch_branch and search_on_branch ----

  /** The blocks of a branch numbered at most limit. */
  ghost function Below(path: seq<Block>, limit: nat): (r: seq<Block>) {
    if path == [] then []
    else Below(path[..|path| - 1], limit) + if path[|path| - 1].Num() <= limit then [path[|path| - 1]] else []
  }

  lemma BelowSnoc(path: seq<Block>, k: nat, limit: nat)
    requires k < |path|
    ensures Below(path[..k + 1], limit) == Below(path[..k], limit) + if path[k].Num() <= limit then [path[k]] else []
  {
    assert path[..k + 1][..k] == path[..k];
  }

  /** How many blocks of a branch of this length are numbered above the limit. */
  ghost function Cut(top: nat, limit: nat, length: nat): (n: nat)
    ensures n <= length
  {
    if top <= limit then 0 else if top - limit <= length then top - limit else length
  }

  /** On a branch the numbers count down, so the limit cuts off its upper end and nothing else. */
  lemma {:induction false} BelowIsSuffix(path: seq<Block>, top: nat, limit: nat)
    requires |path| <= top && forall k :: 0 <= k < |path| ==> path[k].Num() == top - k
    ensures Below(path, limit) == path[Cut(top, limit, |path|)..]
    decreases |path|
  {
    hide NumFromId;
    if path != [] {
      var n := |path| - 1;
      BelowIsSuffix(path[..n], top, limit);
      assert path == path[..n] + [path[n]] && path[n].Num() == top - n;
    }
  }

  /** Each block of a branch leads to the next, and the last out of the index. */
  lemma BranchOf(s: State, h: Id)
    requires Sound(s) && h in s.index
    ensures Keyed(s.index) && Descends(s.index, h, s.root.id)
    ensures var path := PathTo(s.index, h, s.root.id);
            && |path| == NumFromId(h) - NumFromId(s.root.id) && path != [] && path[0] == s.index[h]
            && (forall k :: 0 <= k < |path| ==> path[k].Num() == NumFromId(h) - k)
            && (forall k :: 0 <= k < |path| - 1 ==> path[k].previous in s.index && s.index[path[k].previous] == path[k + 1])
            && path[|path| - 1].previous !in s.index
  {
    hide NumFromId, HeadIsBest, PathTo, Descends;
    ReachesRoot(s.root.id, s.index, h);
    PathShape(s.index, h, s.root.id);
    RootIsLowest(s.root.id, s.index, h);
  }

  // ---- fetch_branch_from ----

  /** The walk from start has reached x, above the meeting point m, and collected all before x. */
  ghost predicate Walked(root: Id, index: Index, start: Id, x: Id, m: Id, done: seq<Block>)
    requires Linked(root, index)
  {
    && (x == root || x in index)
    && Descends(index, start, m) && Descends(index, x, m)
    && PathTo(index, start, m) == done + PathTo(index, x, m)
  }

  lemma WalkStart(root: Id, index: Index, start: Id, m: Id)
    requires Linked(root, index) && (start == root || start in index) && Descends(index, start, m)
    ensures Walked(root, index, start, start, m, [])
  {
    hide PathTo, Descends;
    assert [] + PathTo(index, start, m) == PathTo(index, start, m);
  }

  lemma PathStep(root: Id, index: Index, start: Id, x: Id, m: Id, done: seq<Block>)
    requires Linked(root, index) && Walked(root, index, start, x, m, done) && x != m && x != root
    ensures Walked(root, index, start, index[x].previous, m, done + [index[x]])
  {
    hide NumFromId;
    assert done + PathTo(index, x, m) == done + [index[x]] + PathTo(index, index[x].previous, m);
  }

  lemma WalkStep(root: Id, index: Index, start: Id, x: Id, y: Id, m: Id, done: seq<Block>)
    requires Linked(root, index) && Walked(root, index, start, x, m, done) && (y == root || y in index)
    requires NumFromId(x) > NumFromId(y)
    requires Meet(root, index, x, y) == m || Meet(root, index, y, x) == m
    ensures x != root && Walked(root, index, start, index[x].previous, m, done + [index[x]])
    ensures Meet(root, index, x, y) == m ==> Meet(root, index, index[x].previous, y) == m
    ensures Meet(root, index, y, x) == m ==> Meet(root, index, y, index[x].previous) == m
  {
    hide NumFromId, PathTo, Descends, Meet;
    RootIsLowest(root, index, y);
    MeetBelow(root, index, x, y);
    MeetBelow(root, index, y, x);
    PathStep(root, index, start, x, m, done);
    MeetHigher(root, index, x, y);
  }

  lemma MeetHigher(root: Id, index: Index, x: Id, y: Id)
    requires Linked(root, index) && x in index && (y == root || y in index) && NumFromId(x) > NumFromId(y)
    ensures Meet(root, index, x, y) == Meet(root, index, index[x].previous, y)
    ensures Meet(root, index, y, x) == Meet(root, index, y, index[x].previous)
  {
    hide NumFromId, Descends;
  }

  lemma MeetBelow(root: Id, index: Index, x: Id, y: Id)
    requires Linked(root, index) && (x == root || x in index) && (y == root || y in index)
    ensures NumFromId(Meet(root, index, x, y)) <= NumFromId(x) && NumFromId(Meet(root, index, x, y)) <= NumFromId(y)
    ensures Descends(index, x, Meet(root, index, x, y)) && Descends(index, y, Meet(root, index, x, y))
  {
    hide NumFromId, Meet;
    MeetIsNearest(root, index, x, y);
    DescendsNum(index, x, Meet(root, index, x, y));
    DescendsNum(index, y, Meet(root, index, x, y));
  }

  /** Two different blocks of one height: neither is the root, and both walk on. */
  lemma BothStep(root: Id, index: Index, first: Id, second: Id, x: Id, y: Id, m: Id, left: seq<Block>, right: seq<Block>)
    requires Linked(root, index) && Walked(root, index, first, x, m, left) && Walked(root, index, second, y, m, right)
    requires NumFromId(x) == NumFromId(y) && x != y && Meet(root, index, x, y) == m
    ensures x != root && y != root
    ensures Walked(root, index, first, index[x].previous, m, left + [index[x]])
    ensures Walked(root, index, second, index[y].previous, m, right + [index[y]])
    ensures Meet(root, index, index[x].previous, index[y].previous) == m
    ensures index[x].previous != index[y].previous ==> index[x].previous in index && index[y].previous in index
  {
    hide NumFromId, PathTo, Descends, Meet;
    RootIsLowest(root, index, x);
    RootIsLowest(root, index, y);
    MeetLevel(root, index, x, y);
    RootIsLowest(root, index, index[x].previous);
    RootIsLowest(root, index, index[y].previous);
    PathStep(root, index, first, x, m, left);
    PathStep(root, index, second, y, m, right);
  }

  lemma MeetLevel(root: Id, index: Index, x: Id, y: Id)
    requires Linked(root, index) && x in index && y in index && NumFromId(x) == NumFromId(y) && x != y
    ensures Meet(root, index, x, y) == Meet(root, index, index[x].previous, index[y].previous)
    ensures Meet(root, index, x, y) != x && Meet(root, index, x, y) != y
  {
    hide NumFromId, Descends;
    MeetBelow(root, index, index[x].previous, index[y].previous);
  }

  lemma Arrived(root: Id, index: Index, first: Id, second: Id, x: Id, m: Id, left: seq<Block>, right: seq<Block>)
    requires Linked(root, index) && Walked(root, index, first, x, m, left) && Walked(root, index, second, x, m, right)
    requires Meet(root, index, x, x) == m
    ensures left == PathTo(index, first, m) && right == PathTo(index, second, m)
  {
    hide NumFromId;
    assert x == m;
    assert left + [] == left && right + [] == right;
  }
}
