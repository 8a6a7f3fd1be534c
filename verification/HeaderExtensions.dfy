/** libraries/chain/block_header.cpp, validate_and_extract_header_extensions: checking and decoding
    the extensions of a block header. */
module HeaderExtensions {
  import opened Wrappers

  type Bytes = seq<nat>

  /** A supported extension: its id, whether it may occur only once, and fc::raw::unpack for it. */
  datatype Kind<T> = Kind(id: nat, enforceUnique: bool, unpack: Bytes -> Option<T>)

  datatype Extension = Extension(id: nat, data: Bytes)

  datatype Error = WrongOrder | Unsupported | Undecodable | Repeated

  /** decompose::extract: the first kind with this id. */
  function FindKind<T>(kinds: seq<Kind<T>>, id: nat): (r: Option<Kind<T>>)
    ensures r.None? <==> forall k :: 0 <= k < |kinds| ==> kinds[k].id != id
    ensures r.Some? ==> exists k :: 0 <= k < |kinds| && kinds[k] == r.value && IsFirst(kinds, id, k)
  {
    if kinds == [] then None
    else if id == kinds[0].id then
      assert IsFirst(kinds, id, 0);
      Some(kinds[0])
    else
      var r := FindKind(kinds[1..], id);
      assert forall k :: 0 < k < |kinds| ==> kinds[k] == kinds[1..][k - 1];
      assert forall k :: 0 <= k < |kinds[1..]| && IsFirst(kinds[1..], id, k) ==> IsFirst(kinds, id, k + 1);
      assert r.Some? ==> exists k :: 0 <= k < |kinds[1..]| && kinds[1..][k] == r.value && IsFirst(kinds[1..], id, k) && IsFirst(kinds, id, k + 1);
      r
  }

  ghost predicate IsFirst<T>(kinds: seq<Kind<T>>, id: nat, k: nat)
    requires k < |kinds|
  {
    kinds[k].id == id && forall j :: 0 <= j < k ==> kinds[j].id != id
  }

  ghost predicate MustBeUnique<T>(kinds: seq<Kind<T>>, id: nat) {
    FindKind(kinds, id).Some? && FindKind(kinds, id).value.enforceUnique
  }

  /** What an extension decodes to, if it is supported and its data is well formed. */
  ghost function Decoded<T>(kinds: seq<Kind<T>>, e: Extension): (r: Option<T>) {
    match FindKind(kinds, e.id)
    case None => None
    case Some(k) => k.unpack(e.data)
  }

  ghost predicate Ascending(exts: seq<Extension>) {
    forall i, j :: 0 <= i < j < |exts| ==> exts[i].id <= exts[j].id
  }

  ghost predicate AllDecodable<T>(kinds: seq<Kind<T>>, exts: seq<Extension>) {
    forall i :: 0 <= i < |exts| ==> Decoded(kinds, exts[i]).Some?
  }

  ghost predicate UniqueWhereRequired<T>(kinds: seq<Kind<T>>, exts: seq<Extension>) {
    forall i, j :: 0 <= i < j < |exts| && MustBeUnique(kinds, exts[i].id) ==> exts[i].id != exts[j].id
  }

  /** The whole-list rule. */
  ghost predicate Acceptable<T>(kinds: seq<Kind<T>>, exts: seq<Extension>) {
    Ascending(exts) && AllDecodable(kinds, exts) && UniqueWhereRequired(kinds, exts)
  }

  /** What is wrong with appending e to an acceptable list, if anything, judged against the whole
      list. */
  ghost function Fault<T>(kinds: seq<Kind<T>>, before: seq<Extension>, e: Extension): (r: Option<Error>) {
    if exists j :: 0 <= j < |before| && before[j].id > e.id then Some(WrongOrder)
    else if FindKind(kinds, e.id).None? then Some(Unsupported)
    else if Decoded(kinds, e).None? then Some(Undecodable)
    else if MustBeUnique(kinds, e.id) && exists j :: 0 <= j < |before| && before[j].id == e.id then Some(Repeated)
    else None
  }

  /** Which fault is reported: order before support, support before decoding, decoding before
      uniqueness, each judged by the first kind with the id. */
  lemma FaultIs<T>(kinds: seq<Kind<T>>, before: seq<Extension>, e: Extension, k: nat)
    requires k <= |kinds| && (forall j :: 0 <= j < k ==> kinds[j].id != e.id) && (k < |kinds| ==> kinds[k].id == e.id)
    ensures var late := exists j :: 0 <= j < |before| && before[j].id > e.id;
            var again := exists j :: 0 <= j < |before| && before[j].id == e.id;
            && (Fault(kinds, before, e) == Some(WrongOrder) <==> late)
            && (Fault(kinds, before, e) == Some(Unsupported) <==> !late && k == |kinds|)
            && (Fault(kinds, before, e) == Some(Undecodable) <==> !late && k < |kinds| && kinds[k].unpack(e.data).None?)
            && (Fault(kinds, before, e) == Some(Repeated) <==>
                  !late && k < |kinds| && kinds[k].unpack(e.data).Some? && kinds[k].enforceUnique && again)
  {
    hide FindKind;
    if k < |kinds| { FirstIsFound(kinds, e.id, k); }
  }

  lemma FirstIsFound<T>(kinds: seq<Kind<T>>, id: nat, k: nat)
    requires k < |kinds| && IsFirst(kinds, id, k)
    ensures FindKind(kinds, id) == Some(kinds[k])
  {
    hide FindKind;
    var i :| 0 <= i < |kinds| && Some(kinds[i]) == FindKind(kinds, id) && IsFirst(kinds, id, i);
  }

  /** A list is acceptable exactly when no extension is at fault against those before it. */
  lemma AcceptableSnoc<T>(kinds: seq<Kind<T>>, before: seq<Extension>, e: Extension)
    requires Acceptable(kinds, before)
    ensures Acceptable(kinds, before + [e]) <==> Fault(kinds, before, e).None?
  {
    var all := before + [e];
    assert forall j :: 0 <= j < |before| ==> all[j] == before[j];
    assert all[|before|] == e;
    if Fault(kinds, before, e).None? {
    } else if Ascending(all) && AllDecodable(kinds, all) {
      var j :| 0 <= j < |before| && before[j].id == e.id;
      assert all[j].id == all[|before|].id;
    }
  }

  lemma AcceptablePrefix<T>(kinds: seq<Kind<T>>, exts: seq<Extension>, n: nat)
    requires n <= |exts| && Acceptable(kinds, exts)
    ensures Acceptable(kinds, exts[..n])
  {
    assert forall j :: 0 <= j < n ==> exts[..n][j] == exts[j];
  }

  /** In an acceptable list the last id bounds all ids, so comparing with it alone decides order and
      repetition for the whole list. */
  lemma LastDecides<T>(kinds: seq<Kind<T>>, before: seq<Extension>, e: Extension)
    requires Acceptable(kinds, before) && before != []
    ensures var last := before[|before| - 1].id;
            && ((exists j :: 0 <= j < |before| && before[j].id > e.id) <==> last > e.id)
            && (last <= e.id ==> ((exists j :: 0 <= j < |before| && before[j].id == e.id) <==> last == e.id))
  {
    var n := |before|;
    assert forall j :: 0 <= j < n - 1 ==> before[j].id <= before[n - 1].id;
    if before[n - 1].id > e.id { assert 0 <= n - 1 < n && before[n - 1].id > e.id; }
    if before[n - 1].id == e.id { assert 0 <= n - 1 < n && before[n - 1].id == e.id; }
  }

  /** The loop of the source: it compares each id only with the one before. */
  method ValidateAndExtract<T>(kinds: seq<Kind<T>>, exts: seq<Extension>) returns (r: Result<seq<T>, Error>)
    ensures r.Ok? <==> Acceptable(kinds, exts)
    ensures r.Ok? ==> |r.value| == |exts| && forall i :: 0 <= i < |exts| ==> Decoded(kinds, exts[i]) == Some(r.value[i])
    ensures r.Err? ==> exists i :: 0 <= i < |exts| && Acceptable(kinds, exts[..i]) && Fault(kinds, exts[..i], exts[i]) == Some(r.error)
  {
    hide Acceptable;
    var results: seq<T> := [];
    var lowerBound := 0;
    var i := 0;
    EmptyAcceptable(kinds);
    assert exts[..0] == [];
    while i < |exts|
      invariant 0 <= i <= |exts| && |results| == i && Acceptable(kinds, exts[..i])
      invariant lowerBound == if i == 0 then 0 else exts[i - 1].id
      invariant forall j :: 0 <= j < i ==> Decoded(kinds, exts[j]) == Some(results[j])
    {
      var e := exts[i];
      ghost var before := exts[..i];
      assert exts[..i + 1] == before + [e];
      AcceptableSnoc(kinds, before, e);
      if i > 0 { LastDecides(kinds, before, e); }
      if Acceptable(kinds, exts) { AcceptablePrefix(kinds, exts, i + 1); }
      if e.id < lowerBound { return Err(WrongOrder); }
      var match_ := FindKind(kinds, e.id);
      if match_.None? { return Err(Unsupported); }
      var unpacked := match_.value.unpack(e.data);
      if unpacked.None? { return Err(Undecodable); }
      results := results + [unpacked.value];
      if match_.value.enforceUnique && !(i == 0 || e.id > lowerBound) { return Err(Repeated); }
      lowerBound := e.id;
      i := i + 1;
    }
    assert exts[..i] == exts;
    r := Ok(results);
  }

  lemma EmptyAcceptable<T>(kinds: seq<Kind<T>>)
    ensures Acceptable(kinds, [])
  {
  }
}
