/** The file that fork_database::close writes and fork_database::open reads back. */
module ForkFile {
  import opened BlockIds
  import opened Merkle
  import opened ForkTree
  import opened ForkState

  datatype Entry = Entry(block: Block, isValid: bool)

  datatype File = File(root: Block, entries: seq<Entry>, headId: Id)

  /** The order of the file: the less preferred first, then validated ones, then larger ids. */
  ghost predicate WrittenFirst(x: Entry, y: Entry) {
    if Preferred(y.block, x.block) then true
    else if Preferred(x.block, y.block) then false
    else if x.isValid != y.isValid then x.isValid
    else IdValue(x.block.id) > IdValue(y.block.id)
  }

  ghost predicate Ascending(es: seq<Entry>) {
    forall p, q :: 0 <= p < q < |es| ==> WrittenFirst(es[p], es[q])
  }

  ghost predicate DistinctIds(es: seq<Entry>) {
    forall p, q :: 0 <= p < q < |es| ==> es[p].block.id != es[q].block.id
  }

  ghost predicate AllEntriesOf(s: State, es: seq<Entry>) {
    forall k :: 0 <= k < |es| ==> IsEntryOf(s, es[k])
  }

  ghost predicate HasId(es: seq<Entry>, i: Id) {
    exists k :: 0 <= k < |es| && es[k].block.id == i
  }

  ghost predicate Covers(s: State, es: seq<Entry>) {
    forall i :: i in s.index ==> HasId(es, i)
  }

  /** What close writes for a state: each block once with its flag, in that order. */
  ghost predicate Written(s: State, f: File) {
    && f.root == s.root && f.headId == s.head.id
    && AllEntriesOf(s, f.entries) && Covers(s, f.entries) && DistinctIds(f.entries) && Ascending(f.entries)
  }

  ghost predicate IsEntryOf(s: State, e: Entry) {
    e.block.id in s.index && s.index[e.block.id] == e.block && (e.isValid <==> e.block.id in s.validated)
  }

  /** The index that reading the entries in order leaves. */
  ghost function Loaded(entries: seq<Entry>): (index: Index)
    ensures forall i :: i in index <==> HasId(entries, i)
  {
    if entries == [] then map[]
    else
      var n := |entries| - 1;
      var e := entries[n];
      HasIdSnoc(entries[..n], e);
      assert entries == entries[..n] + [e];
      Loaded(entries[..n])[e.block.id := e.block]
  }

  lemma HasIdSnoc(es: seq<Entry>, e: Entry)
    ensures forall i :: HasId(es + [e], i) <==> HasId(es, i) || i == e.block.id
  {
    var all := es + [e];
    assert all[|es|] == e;
    assert forall k :: 0 <= k < |es| ==> all[k] == es[k];
    forall i | HasId(es, i) ensures HasId(all, i) {
      var k :| 0 <= k < |es| && es[k].block.id == i;
      assert all[k].block.id == i;
    }
  }

  /** The validated blocks it leaves. */
  ghost function Flagged(entries: seq<Entry>): (ids: set<Id>)
    ensures forall i :: i in ids <==> exists k :: 0 <= k < |entries| && entries[k].isValid && entries[k].block.id == i
  {
    set k | 0 <= k < |entries| && entries[k].isValid :: entries[k].block.id
  }

  /** Entry k can be added after the k entries before it. */
  ghost predicate Addable(f: File, k: nat)
    requires k < |f.entries|
  {
    var b, before := f.entries[k].block, Loaded(f.entries[..k]);
    b.id !in before && (b.previous == f.root.id || b.previous in before)
  }

  /** The head that open looks up. */
  ghost predicate HeadFound(f: File) {
    f.headId == f.root.id || f.headId in Loaded(f.entries)
  }

  ghost function FileHead(f: File): (b: Block)
    requires HeadFound(f)
  {
    if f.headId == f.root.id then f.root else Loaded(f.entries)[f.headId]
  }

  /** open succeeds. */
  ghost predicate Opens(f: File) {
    && (forall k :: 0 <= k < |f.entries| ==> Addable(f, k))
    && HeadFound(f)
    && (Flagged(f.entries) == {} ==> f.headId == f.root.id)
    && (forall i :: i in Flagged(f.entries) ==> !Preferred(Loaded(f.entries)[i], FileHead(f)))
  }

  /** No block declares less irreversible than the block it builds on. */
  ghost predicate LibsGrow(index: Index) {
    forall i :: i in index && index[i].previous in index ==> index[index[i].previous].lib <= index[i].lib
  }

  lemma LoadStarts()
    ensures Loaded([]) == map[] && Flagged([]) == {}
  {
  }

  lemma LoadStep(es: seq<Entry>, k: nat)
    requires k < |es|
    ensures Loaded(es[..k + 1]) == Loaded(es[..k])[es[k].block.id := es[k].block]
    ensures Flagged(es[..k + 1]) == Flagged(es[..k]) + (if es[k].isValid then {es[k].block.id} else {})
  {
    var t := es[..k + 1];
    assert t[..k] == es[..k] && t[k] == es[k];
    assert forall j :: 0 <= j < k ==> t[j] == es[..k][j];
    forall i | i in Flagged(es[..k]) ensures i in Flagged(t) {
      var j :| 0 <= j < k && es[..k][j].isValid && es[..k][j].block.id == i;
      assert t[j].isValid && t[j].block.id == i;
    }
  }

  // ---- reading back what was written ----

  lemma {:induction false} LoadedEntry(entries: seq<Entry>, k: nat)
    requires k < |entries| && DistinctIds(entries)
    ensures entries[k].block.id in Loaded(entries) && Loaded(entries)[entries[k].block.id] == entries[k].block
    decreases |entries|
  {
    hide HasId;
    var n := |entries| - 1;
    if k < n {
      LoadedEntry(entries[..n], k);
      assert entries[..n][k] == entries[k];
    }
  }

  lemma EntryFor(s: State, es: seq<Entry>, i: Id) returns (k: nat)
    requires AllEntriesOf(s, es) && Covers(s, es) && i in s.index
    ensures k < |es| && es[k].block == s.index[i] && es[k].block.id == i && (es[k].isValid <==> i in s.validated)
  {
    hide Covers;
    assert HasId(es, i) by { CoversId(s, es, i); }
    k :| 0 <= k < |es| && es[k].block.id == i;
    assert IsEntryOf(s, es[k]);
  }

  lemma CoversId(s: State, es: seq<Entry>, i: Id)
    requires Covers(s, es) && i in s.index
    ensures HasId(es, i)
  {
    hide HasId;
  }

  lemma LoadedIsIndex(s: State, es: seq<Entry>)
    requires AllEntriesOf(s, es) && Covers(s, es) && DistinctIds(es)
    ensures Loaded(es) == s.index
  {
    hide Loaded, AllEntriesOf, Covers, DistinctIds, HasId;
    forall i | i in s.index ensures i in Loaded(es) && Loaded(es)[i] == s.index[i] {
      var k := EntryFor(s, es, i);
      LoadedEntry(es, k);
    }
    forall i | i in Loaded(es) ensures i in s.index { OnlyEntries(s, es, i); }
  }

  lemma OnlyEntries(s: State, es: seq<Entry>, i: Id)
    requires AllEntriesOf(s, es) && HasId(es, i)
    ensures i in s.index
  {
    var k :| 0 <= k < |es| && es[k].block.id == i;
    assert IsEntryOf(s, es[k]);
  }

  lemma FlaggedIsValidated(s: State, es: seq<Entry>)
    requires AllEntriesOf(s, es) && Covers(s, es) && s.validated <= s.index.Keys
    ensures Flagged(es) == s.validated
  {
    hide Covers;
    forall i | i in s.validated ensures i in Flagged(es) {
      var k := EntryFor(s, es, i);
    }
    forall i | i in Flagged(es) ensures i in s.validated {
      var k :| 0 <= k < |es| && es[k].isValid && es[k].block.id == i;
      assert IsEntryOf(s, es[k]);
    }
  }

  /** Among distinct entries, the first k hold the id of entry j exactly when j < k. */
  lemma LoadedBefore(es: seq<Entry>, k: nat, j: nat)
    requires DistinctIds(es) && k <= |es| && j < |es|
    ensures es[j].block.id in Loaded(es[..k]) <==> j < k
  {
    hide Loaded;
    if j < k { assert es[..k][j].block.id == es[j].block.id; }
  }

  /** An entry can be added exactly when its parent, if stored, does not declare more irreversible. */
  lemma AddableIff(s: State, f: File, k: nat)
    requires Sound(s) && Written(s, f) && k < |f.entries|
    ensures var b := f.entries[k].block;
            Addable(f, k) <==> (b.previous in s.index ==> s.index[b.previous].lib <= b.lib)
  {
    hide NumFromId, Loaded, HasId, HeadIsBest, DistinctIds, Covers, AllEntriesOf, IdValue;
    var b := f.entries[k].block;
    EntryIsKeyed(s, f.entries, k);
    LoadedBefore(f.entries, k, k);
    if b.previous in s.index {
      var j := EntryFor(s, f.entries, b.previous);
      LoadedBefore(f.entries, k, j);
      assert j < k ==> WrittenFirst(f.entries[j], f.entries[k]);
      assert j > k ==> WrittenFirst(f.entries[k], f.entries[j]);
    }
  }

  lemma EntryIsKeyed(s: State, es: seq<Entry>, k: nat)
    requires Sound(s) && AllEntriesOf(s, es) && k < |es|
    ensures es[k].block.id in s.index && s.index[es[k].block.id] == es[k].block
    ensures NumFromId(es[k].block.id) == NumFromId(es[k].block.previous) + 1
    ensures es[k].block.previous == s.root.id || es[k].block.previous in s.index
  {
    hide NumFromId, HeadIsBest;
    assert IsEntryOf(s, es[k]);
  }

  /** All entries can be added exactly when irreversibility grows along every branch. */
  lemma AllAddableIff(s: State, f: File)
    requires Sound(s) && Written(s, f)
    ensures (forall k :: 0 <= k < |f.entries| ==> Addable(f, k)) <==> LibsGrow(s.index)
  {
    hide NumFromId, HeadIsBest, Linked, Addable, Covers, DistinctIds, Ascending, AllEntriesOf;
    if LibsGrow(s.index) {
      forall k | 0 <= k < |f.entries| ensures Addable(f, k) {
        AddableIff(s, f, k);
        EntryIsKeyed(s, f.entries, k);
      }
    }
    if forall k :: 0 <= k < |f.entries| ==> Addable(f, k) {
      forall i | i in s.index && s.index[i].previous in s.index ensures s.index[s.index[i].previous].lib <= s.index[i].lib {
        var k := EntryFor(s, f.entries, i);
        AddableIff(s, f, k);
      }
    }
  }

  /** A database written by close can be opened again exactly when irreversibility grows along every
      branch, and then it is the same database. */
  lemma ReopensIff(s: State, f: File)
    requires Sound(s) && Written(s, f)
    ensures Opens(f) <==> LibsGrow(s.index)
    ensures Loaded(f.entries) == s.index && Flagged(f.entries) == s.validated && HeadFound(f) && FileHead(f) == s.head
  {
    hide NumFromId, Loaded, Flagged, Addable, Linked, LibsGrow, Covers, DistinctIds, Ascending, AllEntriesOf;
    LoadedIsIndex(s, f.entries);
    FlaggedIsValidated(s, f.entries);
    AllAddableIff(s, f);
    SoundIndex(s);
  }

  /** A block whose parent declares more irreversible than it does. */
  ghost function Shrinking(): (s: State) {
    var root := SampleRoot();
    var a := Sample(1, 2, root.id, 1);
    var b := Sample(2, 3, a.id, 0);
    State(root, root, map[a.id := a, b.id := b], {})
  }

  /** Such a state is sound, so there are databases that cannot be opened again. */
  lemma ReopenCanFail(f: File)
    requires Written(Shrinking(), f)
    ensures Sound(Shrinking()) && !Opens(f)
  {
    hide NumFromId, MakeId, Written, Opens;
    var root := SampleRoot();
    var a := Sample(1, 2, root.id, 1);
    SampleId(0, 1, Digest(0, 0, 0, 0), 0);
    SampleId(1, 2, root.id, 1);
    SampleId(2, 3, a.id, 0);
    assert !LibsGrow(Shrinking().index) by { assert Shrinking().index[Sample(2, 3, a.id, 0).id].previous == a.id; }
    ReopensIff(Shrinking(), f);
  }

  /** A file whose stored head is not validated. */
  ghost function HeadNotValid(): (f: File) {
    var root := SampleRoot();
    var a, b := Sample(1, 2, root.id, 0), Sample(2, 2, root.id, 0);
    File(root, [Entry(a, true), Entry(b, false)], b.id)
  }

  /** open accepts it. */
  lemma UnsoundFileOpens()
    ensures Opens(HeadNotValid())
    ensures HeadNotValid().headId != HeadNotValid().root.id && HeadNotValid().headId !in Flagged(HeadNotValid().entries)
  {
    hide NumFromId, MakeId, Loaded, Flagged, HasId;
    var f, root := HeadNotValid(), SampleRoot();
    SampleId(0, 1, Digest(0, 0, 0, 0), 0);
    SampleId(1, 2, root.id, 0);
    SampleId(2, 2, root.id, 0);
    LoadTwo(f.entries);
  }

  lemma LoadTwo(es: seq<Entry>)
    requires |es| == 2
    ensures Loaded(es[..0]) == map[] && Loaded(es[..1]) == map[es[0].block.id := es[0].block]
    ensures Loaded(es) == map[es[0].block.id := es[0].block, es[1].block.id := es[1].block]
    ensures Flagged(es) == (if es[0].isValid then {es[0].block.id} else {}) + (if es[1].isValid then {es[1].block.id} else {})
  {
    hide Loaded, Flagged;
    LoadStarts();
    LoadStep(es, 0);
    LoadStep(es, 1);
    assert es[..0] == [] && es[..2] == es;
  }
}
