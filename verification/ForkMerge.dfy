/** fork_database::close: the order in which the blocks are written. */
module ForkMerge {
  import opened Sequences
  import opened BlockIds
  import opened ForkTree
  import opened ForkState
  import opened ForkFile

  /** The first block of a nonempty set in the order of the by_lib_block_num index. */
  method First(index: Index, validated: set<Id>, s: set<Id>) returns (c: Id)
    requires s <= index.Keys && s != {}
    ensures IsFirst(index, validated, s, c)
  {
    ghost var first := FirstExists(index, validated, s);
    c :| c in s && forall j | j in s :: j != c ==> Before(index, validated, c, j);
  }

  /** The ids of s from the last to the first in index order, as a reverse iterator gives them. */
  method LastToFirst(index: Index, validated: set<Id>, s: set<Id>) returns (q: seq<Id>)
    requires s <= index.Keys
    ensures Distinct(q) && forall i :: i in q <==> i in s
    ensures forall j, k :: 0 <= j < k < |q| ==> Before(index, validated, q[k], q[j])
  {
    hide Before;
    q := [];
    var rest := s;
    while rest != {}
      invariant rest <= s && Distinct(q) && (forall i :: i in q || i in rest <==> i in s) && forall i :: i in rest ==> i !in q
      invariant forall k, x :: 0 <= k < |q| && x in rest ==> Before(index, validated, q[k], x)
      invariant forall j, k :: 0 <= j < k < |q| ==> Before(index, validated, q[k], q[j])
      decreases rest
    {
      var c := First(index, validated, rest);
      q := [c] + q;
      rest := rest - {c};
    }
  }

  /** The entry a block is written as. */
  ghost function EntryOf(index: Index, validated: set<Id>, i: Id): (e: Entry)
    requires i in index
  {
    Entry(index[i], i in validated)
  }

  /** Ids of the index in the order of the file. */
  ghost predicate Rising(index: Index, validated: set<Id>, q: seq<Id>) {
    && (forall k :: 0 <= k < |q| ==> q[k] in index)
    && forall j, k :: 0 <= j < k < |q| ==> WrittenFirst(EntryOf(index, validated, q[j]), EntryOf(index, validated, q[k]))
  }

  lemma LastToFirstRises(index: Index, validated: set<Id>, q: seq<Id>, valid: bool)
    requires Keyed(index) && forall k :: 0 <= k < |q| ==> q[k] in index && (q[k] in validated <==> valid)
    requires forall j, k :: 0 <= j < k < |q| ==> Before(index, validated, q[k], q[j])
    ensures Rising(index, validated, q)
  {
    hide NumFromId, IdLess, IdValue;
    forall j, k | 0 <= j < k < |q| ensures WrittenFirst(EntryOf(index, validated, q[j]), EntryOf(index, validated, q[k])) {
      assert Before(index, validated, q[k], q[j]);
      IdLessIff(q[k], q[j]);
    }
  }

  /** All ids in out are written before those of q from position k on. */
  ghost predicate Under(index: Index, validated: set<Id>, out: seq<Id>, q: seq<Id>, k: nat)
    requires Rising(index, validated, out) && Rising(index, validated, q)
  {
    forall j, l :: 0 <= j < |out| && k <= l < |q| ==> WrittenFirst(EntryOf(index, validated, out[j]), EntryOf(index, validated, q[l]))
  }

  lemma WrittenFirstTransitive(x: Entry, y: Entry, z: Entry)
    requires WrittenFirst(x, y) && WrittenFirst(y, z)
    ensures WrittenFirst(x, z)
  {
    hide NumFromId, IdValue;
  }

  /** Taking the next id of q, when it is written before the next one of r. */
  lemma TakeNext(index: Index, validated: set<Id>, out: seq<Id>, q: seq<Id>, k: nat, r: seq<Id>, l: nat)
    requires Rising(index, validated, out) && Rising(index, validated, q) && Rising(index, validated, r)
    requires k < |q| && l <= |r| && Under(index, validated, out, q, k) && Under(index, validated, out, r, l)
    requires l < |r| ==> WrittenFirst(EntryOf(index, validated, q[k]), EntryOf(index, validated, r[l]))
    ensures Rising(index, validated, out + [q[k]])
    ensures Under(index, validated, out + [q[k]], q, k + 1) && Under(index, validated, out + [q[k]], r, l)
  {
    hide WrittenFirst, EntryOf;
    forall m | l <= m < |r| ensures WrittenFirst(EntryOf(index, validated, q[k]), EntryOf(index, validated, r[m])) {
      if m > l { WrittenFirstTransitive(EntryOf(index, validated, q[k]), EntryOf(index, validated, r[l]), EntryOf(index, validated, r[m])); }
    }
  }

  /** The merge of close: of the two next ids, the validated one unless it is preferred. */
  method Merge(index: Index, ghost flagged: set<Id>, unvalidated: seq<Id>, validated: seq<Id>) returns (out: seq<Id>)
    requires Rising(index, flagged, unvalidated) && Rising(index, flagged, validated) && Distinct(unvalidated) && Distinct(validated)
    requires (forall i :: i in unvalidated ==> i !in flagged) && forall i :: i in validated ==> i in flagged
    ensures Rising(index, flagged, out) && Distinct(out) && forall i :: i in out <==> i in unvalidated || i in validated
  {
    hide NumFromId, Rising, Under, Preferred, WrittenFirst, EntryOf;
    out := [];
    var u, v := 0, 0;
    EmptyRises(index, flagged, unvalidated, validated);
    while u < |unvalidated| || v < |validated|
      invariant 0 <= u <= |unvalidated| && 0 <= v <= |validated|
      invariant Rising(index, flagged, out) && Under(index, flagged, out, unvalidated, u) && Under(index, flagged, out, validated, v)
      invariant Distinct(out) && forall i :: i in out <==> i in unvalidated[..u] || i in validated[..v]
      decreases |unvalidated| - u + |validated| - v
    {
      RisingIn(index, flagged, unvalidated);
      RisingIn(index, flagged, validated);
      if u < |unvalidated| && v < |validated| { OneOfTwo(index, flagged, unvalidated[u], validated[v]); }
      if u < |unvalidated| && (v == |validated| || Preferred(index[validated[v]], index[unvalidated[u]])) {
        TakeNext(index, flagged, out, unvalidated, u, validated, v);
        assert unvalidated[u] in unvalidated && unvalidated[u] !in unvalidated[..u];
        assert unvalidated[..u + 1] == unvalidated[..u] + [unvalidated[u]];
        out := out + [unvalidated[u]];
        u := u + 1;
      } else {
        TakeNext(index, flagged, out, validated, v, unvalidated, u);
        assert validated[v] in validated && validated[v] !in validated[..v];
        assert validated[..v + 1] == validated[..v] + [validated[v]];
        out := out + [validated[v]];
        v := v + 1;
      }
    }
    assert unvalidated[..u] == unvalidated && validated[..v] == validated;
  }

  /** Of one unvalidated and one validated block, which is written first. */
  lemma OneOfTwo(index: Index, flagged: set<Id>, u: Id, v: Id)
    requires u in index && v in index && u !in flagged && v in flagged
    ensures Preferred(index[v], index[u]) ==> WrittenFirst(EntryOf(index, flagged, u), EntryOf(index, flagged, v))
    ensures !Preferred(index[v], index[u]) ==> WrittenFirst(EntryOf(index, flagged, v), EntryOf(index, flagged, u))
  {
    hide NumFromId, IdValue;
  }

  lemma EmptyRises(index: Index, validated: set<Id>, q: seq<Id>, r: seq<Id>)
    requires Rising(index, validated, q) && Rising(index, validated, r)
    ensures Rising(index, validated, []) && Under(index, validated, [], q, 0) && Under(index, validated, [], r, 0)
  {
  }

  lemma RisingIn(index: Index, validated: set<Id>, q: seq<Id>)
    requires Rising(index, validated, q)
    ensures forall k :: 0 <= k < |q| ==> q[k] in index
  {
  }

  lemma EntriesAreWritten(s: State, order: seq<Id>, f: File)
    requires Sound(s) && Rising(s.index, s.validated, order) && Distinct(order) && forall i :: i in order <==> i in s.index
    requires f.root == s.root && f.headId == s.head.id && |f.entries| == |order|
    requires forall k :: 0 <= k < |order| ==> f.entries[k] == Entry(s.index[order[k]], order[k] in s.validated)
    ensures Written(s, f)
  {
    hide NumFromId, HeadIsBest, Preferred, WrittenFirst;
    assert forall k :: 0 <= k < |order| ==> f.entries[k].block.id == order[k] && f.entries[k] == EntryOf(s.index, s.validated, order[k]);
    forall i | i in s.index ensures HasId(f.entries, i) {
      var k :| 0 <= k < |order| && order[k] == i;
      assert f.entries[k].block.id == i;
    }
  }
}
