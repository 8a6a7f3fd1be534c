/** What acceptance by the matcher of validate_reflection.py means. */
module ReflectionTheorems {
  import opened Reflection
  import opened Sequences
  import opened Wrappers

  /** A list without the fields of a set. */
  ghost function Without(s: seq<Field>, out: set<Field>): (r: seq<Field>)
    decreases |s|
  {
    if s == [] then []
    else (if s[0] in out then [] else [s[0]]) + Without(s[1..], out)
  }

  /** The intent stated at the top of the script: ignored fields are in the class and not reflected,
      swapped fields are in both, and without them the two lists agree in order. */
  ghost predicate WellReflected(fields: seq<Field>, refl: seq<Field>, swapped: set<Field>, ignored: set<Field>) {
    && (forall x :: x in ignored ==> x in fields && x !in refl)
    && (forall x :: x in swapped ==> x in fields && x in refl)
    && Without(fields, swapped + ignored) == Without(refl, swapped)
  }

  /** What add_field and add_ignore_swaps guarantee. */
  ghost predicate Inputs(fields: seq<Field>, refl: seq<Field>, swapped: set<Field>, ignored: set<Field>) {
    && Distinct(fields) && Distinct(refl)
    && (forall x :: x in swapped && x in ignored ==> x !in refl)
  }

  lemma {:induction false} WithoutConcat(a: seq<Field>, b: seq<Field>, out: set<Field>)
    ensures Without(a + b, out) == Without(a, out) + Without(b, out)
    decreases |a|
  {
    if a == [] {
      assert a + b == b;
    } else {
      assert (a + b)[1..] == a[1..] + b;
      WithoutConcat(a[1..], b, out);
    }
  }

  lemma WithoutPrefix(s: seq<Field>, i: nat, out: set<Field>)
    requires i < |s|
    ensures Without(s[..i + 1], out) == Without(s[..i], out) + (if s[i] in out then [] else [s[i]])
  {
    assert s[..i + 1] == s[..i] + [s[i]];
    WithoutConcat(s[..i], [s[i]], out);
    assert Without([s[i]], out) == (if s[i] in out then [] else [s[i]]) + Without([], out);
  }

  lemma WithoutSplit(s: seq<Field>, i: nat, out: set<Field>)
    requires i <= |s|
    ensures Without(s, out) == Without(s[..i], out) + Without(s[i..], out)
    ensures i < |s| ==> Without(s[i..], out) == (if s[i] in out then [] else [s[i]]) + Without(s[i + 1..], out)
  {
    assert s == s[..i] + s[i..];
    WithoutConcat(s[..i], s[i..], out);
    if i < |s| { assert s[i..][1..] == s[i + 1..]; }
  }

  lemma {:induction false} WithoutMembers(s: seq<Field>, out: set<Field>)
    ensures forall x :: x in Without(s, out) <==> x in s && x !in out
    decreases |s|
  {
    if s != [] {
      WithoutMembers(s[1..], out);
      assert s == [s[0]] + s[1..];
    }
  }

  lemma WithoutEmpty(s: seq<Field>, out: set<Field>)
    ensures Without(s, out) == [] <==> forall x :: x in s ==> x in out
  {
    WithoutMembers(s, out);
    if Without(s, out) != [] { assert Without(s, out)[0] in Without(s, out); }
  }

  /** The invariant of the walk: what has been passed agrees in order once annotated fields are
      taken out. */
  ghost predicate Aligned(fields: seq<Field>, refl: seq<Field>, swapped: set<Field>, ignored: set<Field>, f: nat, g: nat)
    requires f <= |fields| && g <= |refl|
  {
    && Without(fields[..f], swapped + ignored) == Without(refl[..g], swapped)
    && (forall y :: y in refl[..g] ==> y !in ignored)
  }

  lemma AlignedStart(fields: seq<Field>, refl: seq<Field>, swapped: set<Field>, ignored: set<Field>)
    ensures Aligned(fields, refl, swapped, ignored, 0, 0)
  {
  }

  lemma SkipField(fields: seq<Field>, refl: seq<Field>, swapped: set<Field>, ignored: set<Field>, f: nat, g: nat)
    requires f < |fields| && g <= |refl| && Aligned(fields, refl, swapped, ignored, f, g)
    requires fields[f] in swapped || fields[f] in ignored
    ensures Aligned(fields, refl, swapped, ignored, f + 1, g)
  {
    hide Without;
    WithoutPrefix(fields, f, swapped + ignored);
  }

  lemma SkipReflected(fields: seq<Field>, refl: seq<Field>, swapped: set<Field>, ignored: set<Field>, f: nat, g: nat)
    requires Inputs(fields, refl, swapped, ignored)
    requires f <= |fields| && g < |refl| && Aligned(fields, refl, swapped, ignored, f, g)
    requires refl[g] in swapped
    ensures Aligned(fields, refl, swapped, ignored, f, g + 1)
  {
    hide Without, Distinct;
    WithoutPrefix(refl, g, swapped);
    assert refl[..g + 1] == refl[..g] + [refl[g]];
  }

  lemma MatchBoth(fields: seq<Field>, refl: seq<Field>, swapped: set<Field>, ignored: set<Field>, f: nat, g: nat)
    requires f < |fields| && g < |refl| && Aligned(fields, refl, swapped, ignored, f, g)
    requires fields[f] == refl[g] && fields[f] !in swapped && fields[f] !in ignored
    ensures Aligned(fields, refl, swapped, ignored, f + 1, g + 1)
  {
    hide Without;
    WithoutPrefix(fields, f, swapped + ignored);
    WithoutPrefix(refl, g, swapped);
    assert refl[..g + 1] == refl[..g] + [refl[g]];
  }

  // ---- soundness ----

  lemma DiffEmpty(a: set<Field>, b: set<Field>)
    ensures a - b == {} <==> a <= b
  {
    if a - b == {} {
      forall x | x in a
        ensures x in b
      {
        assert x !in a - b;
      }
    }
  }

  lemma FinishSound(fields: seq<Field>, refl: seq<Field>, swapped: set<Field>, ignored: set<Field>, g: nat)
    requires Inputs(fields, refl, swapped, ignored) && g <= |refl|
    requires Aligned(fields, refl, swapped, ignored, |fields|, g)
    requires Finish(fields, refl, swapped, ignored, g).Accepted?
    ensures WellReflected(fields, refl, swapped, ignored)
  {
    hide Without, Distinct, Elems;
    var fs, before, after := Elems(fields), Elems(refl[..g]), Elems(refl[g..]);
    DiffEmpty(ignored, fs);
    DiffEmpty(after, swapped * fs);
    DiffEmpty(swapped - fs, before);
    DiffEmpty(swapped * fs, Elems(refl));
    DiffEmpty(swapped * before, fs);
    assert fields[..|fields|] == fields;
    assert refl == refl[..g] + refl[g..];
    forall x | x in refl[g..]
      ensures x in swapped
    {
      ElemsIn(refl[g..], x);
    }
    WithoutSplit(refl, g, swapped);
    WithoutEmpty(refl[g..], swapped);
    forall x | x in swapped
      ensures x in fields && x in refl
    {
      ElemsIn(fields, x);
      ElemsIn(refl[..g], x);
      ElemsIn(refl, x);
    }
    forall x | x in ignored
      ensures x in fields && x !in refl
    {
      ElemsIn(fields, x);
      ElemsIn(refl[g..], x);
    }
  }

  /** If no assertion fires, the fields are reflected as the annotations say. */
  lemma {:induction false} WalkSound(fields: seq<Field>, refl: seq<Field>, swapped: set<Field>, ignored: set<Field>, f: nat, g: nat)
    requires Inputs(fields, refl, swapped, ignored) && f <= |fields| && g <= |refl|
    requires Aligned(fields, refl, swapped, ignored, f, g)
    requires Walk(fields, refl, swapped, ignored, f, g).Accepted?
    ensures WellReflected(fields, refl, swapped, ignored)
    decreases |fields| - f + |refl| - g
  {
    hide Aligned, Inputs, WellReflected, Finish, Elems, Without, Distinct;
    if f == |fields| {
      FinishSound(fields, refl, swapped, ignored, g);
    } else {
      var x, y := fields[f], At(refl, g);
      if x in swapped && x !in Elems(refl[..g]) {
        SkipField(fields, refl, swapped, ignored, f, g);
        WalkSound(fields, refl, swapped, ignored, f + 1, g);
      } else if In(y, swapped) && y.value !in Elems(fields[..f]) {
        SkipReflected(fields, refl, swapped, ignored, f, g);
        WalkSound(fields, refl, swapped, ignored, f, g + 1);
      } else if x in ignored {
        SkipField(fields, refl, swapped, ignored, f, g);
        WalkSound(fields, refl, swapped, ignored, f + 1, g);
      } else if In(y, swapped) {
        SkipReflected(fields, refl, swapped, ignored, f, g);
        WalkSound(fields, refl, swapped, ignored, f, g + 1);
      } else if x in swapped {
        SkipField(fields, refl, swapped, ignored, f, g);
        WalkSound(fields, refl, swapped, ignored, f + 1, g);
      } else {
        MatchBoth(fields, refl, swapped, ignored, f, g);
        WalkSound(fields, refl, swapped, ignored, f + 1, g + 1);
      }
    }
  }

  /** A well-reflected class: the reflected fields are a permutation of the class fields without
      the ignored ones. */
  lemma ReflectedIsPermutation(fields: seq<Field>, refl: seq<Field>, swapped: set<Field>, ignored: set<Field>)
    requires Distinct(fields) && Distinct(refl) && WellReflected(fields, refl, swapped, ignored)
    ensures multiset(refl) == multiset(Without(fields, ignored))
  {
    hide Without;
    WithoutMembers(fields, ignored);
    WithoutMembers(fields, swapped + ignored);
    WithoutMembers(refl, swapped);
    WithoutDistinct(fields, ignored);
    var kept := Without(fields, ignored);
    forall x
      ensures x in refl <==> x in kept
    {
      assert x in Without(fields, swapped + ignored) <==> x in Without(refl, swapped);
    }
    SameMembers(refl, kept);
  }

  lemma {:induction false} WithoutDistinct(s: seq<Field>, out: set<Field>)
    requires Distinct(s)
    ensures Distinct(Without(s, out))
    decreases |s|
  {
    if s != [] {
      assert forall i :: 0 <= i < |s| - 1 ==> s[1..][i] == s[i + 1];
      WithoutDistinct(s[1..], out);
      WithoutMembers(s[1..], out);
      assert s[0] !in s[1..];
    }
  }

  lemma {:induction false} CountOf(s: seq<Field>, x: Field)
    requires Distinct(s)
    ensures multiset(s)[x] == if x in s then 1 else 0
    decreases |s|
  {
    if s != [] {
      assert forall i :: 0 <= i < |s| - 1 ==> s[1..][i] == s[i + 1];
      CountOf(s[1..], x);
      assert s == [s[0]] + s[1..];
      assert s[0] !in s[1..];
    }
  }

  lemma SameMembers(a: seq<Field>, b: seq<Field>)
    requires Distinct(a) && Distinct(b) && forall x :: x in a <==> x in b
    ensures multiset(a) == multiset(b)
  {
    forall x
      ensures multiset(a)[x] == multiset(b)[x]
    {
      CountOf(a, x);
      CountOf(b, x);
    }
  }

  // ---- completeness ----

  /** Where the walk stands in a well-reflected class, the next unannotated fields agree. */
  lemma NextAgrees(fields: seq<Field>, refl: seq<Field>, swapped: set<Field>, ignored: set<Field>, f: nat, g: nat)
    requires WellReflected(fields, refl, swapped, ignored) && f <= |fields| && g <= |refl|
    requires Aligned(fields, refl, swapped, ignored, f, g)
    ensures Without(fields[f..], swapped + ignored) == Without(refl[g..], swapped)
  {
    hide Without;
    WithoutSplit(fields, f, swapped + ignored);
    WithoutSplit(refl, g, swapped);
    Cancel(Without(fields[..f], swapped + ignored), Without(fields[f..], swapped + ignored), Without(refl[g..], swapped));
  }

  lemma Cancel(a: seq<Field>, b: seq<Field>, c: seq<Field>)
    requires a + b == a + c
    ensures b == c
  {
    assert b == (a + b)[|a|..];
    assert c == (a + c)[|a|..];
  }

  lemma NormalMatches(fields: seq<Field>, refl: seq<Field>, swapped: set<Field>, ignored: set<Field>, f: nat, g: nat)
    requires WellReflected(fields, refl, swapped, ignored) && f < |fields| && g <= |refl|
    requires Aligned(fields, refl, swapped, ignored, f, g)
    requires fields[f] !in swapped && fields[f] !in ignored && !In(At(refl, g), swapped)
    ensures At(refl, g) == Some(fields[f])
  {
    hide Without, WellReflected, Aligned;
    NextAgrees(fields, refl, swapped, ignored, f, g);
    WithoutSplit(fields, f, swapped + ignored);
    WithoutSplit(refl, g, swapped);
    var w := Without(fields[f..], swapped + ignored);
    assert w[0] == fields[f];
    if g == |refl| { WithoutEmpty(refl[g..], swapped); }
  }

  lemma FinishComplete(fields: seq<Field>, refl: seq<Field>, swapped: set<Field>, ignored: set<Field>, g: nat)
    requires WellReflected(fields, refl, swapped, ignored) && g <= |refl|
    requires Aligned(fields, refl, swapped, ignored, |fields|, g)
    ensures Finish(fields, refl, swapped, ignored, g).Accepted?
  {
    hide Without;
    NextAgrees(fields, refl, swapped, ignored, |fields|, g);
    WithoutEmpty(fields[|fields|..], swapped + ignored);
    WithoutEmpty(refl[g..], swapped);
    assert forall x :: x in Elems(refl[g..]) ==> x in swapped && x in fields;
  }

  /** On a well-reflected class the only assertion that can fire is the one about a swapped field
      that is in the correct order. */
  lemma {:induction false} WalkComplete(fields: seq<Field>, refl: seq<Field>, swapped: set<Field>, ignored: set<Field>, f: nat, g: nat)
    requires Inputs(fields, refl, swapped, ignored) && f <= |fields| && g <= |refl|
    requires Aligned(fields, refl, swapped, ignored, f, g)
    requires WellReflected(fields, refl, swapped, ignored)
    ensures var o := Walk(fields, refl, swapped, ignored, f, g);
            o.Accepted? || (o.SwapInOrder? && o.field in swapped)
    decreases |fields| - f + |refl| - g
  {
    hide Aligned, Inputs, Finish, Elems, Without, Distinct;
    if f == |fields| {
      FinishComplete(fields, refl, swapped, ignored, g);
    } else {
      var x, y := fields[f], At(refl, g);
      ElemsIn(refl, x);
      assert x in fields && (y.Some? ==> y.value in refl);
      if x in swapped && x !in Elems(refl[..g]) {
        SkipField(fields, refl, swapped, ignored, f, g);
        WalkComplete(fields, refl, swapped, ignored, f + 1, g);
      } else if In(y, swapped) {
        SkipReflected(fields, refl, swapped, ignored, f, g);
        WalkComplete(fields, refl, swapped, ignored, f, g + 1);
        if x in ignored {
          SkipField(fields, refl, swapped, ignored, f, g);
          WalkComplete(fields, refl, swapped, ignored, f + 1, g);
        }
      } else if x in ignored || x in swapped {
        SkipField(fields, refl, swapped, ignored, f, g);
        WalkComplete(fields, refl, swapped, ignored, f + 1, g);
      } else {
        NormalMatches(fields, refl, swapped, ignored, f, g);
        MatchBoth(fields, refl, swapped, ignored, f, g);
        WalkComplete(fields, refl, swapped, ignored, f + 1, g + 1);
      }
    }
  }

  // ---- the check for needless swaps ----

  lemma {:induction false} WithoutSame(s: seq<Field>, a: set<Field>, b: set<Field>)
    requires forall x :: x in s ==> (x in a <==> x in b)
    ensures Without(s, a) == Without(s, b)
    decreases |s|
  {
    if s != [] { WithoutSame(s[1..], a, b); }
  }

  /** A list without `out` but with one field of it kept, split at that field. */
  lemma WithoutButOne(s: seq<Field>, i: nat, out: set<Field>)
    requires Distinct(s) && i < |s|
    ensures Without(s, out - {s[i]}) == Without(s[..i], out) + [s[i]] + Without(s[i + 1..], out)
  {
    hide Without;
    var x := s[i];
    WithoutSplit(s, i, out - {x});
    WithoutSame(s[..i], out - {x}, out);
    WithoutSame(s[i + 1..], out - {x}, out);
  }

  lemma SwapIsNeedless(fields: seq<Field>, refl: seq<Field>, swapped: set<Field>, ignored: set<Field>, f: nat, g: nat)
    requires Inputs(fields, refl, swapped, ignored) && f < |fields| && g < |refl|
    requires Aligned(fields, refl, swapped, ignored, f, g) && WellReflected(fields, refl, swapped, ignored)
    requires fields[f] == refl[g] && fields[f] in swapped
    ensures WellReflected(fields, refl, swapped - {fields[f]}, ignored)
  {
    hide Without;
    var x := fields[f];
    NextAgrees(fields, refl, swapped, ignored, f, g);
    WithoutSplit(fields, f, swapped + ignored);
    WithoutSplit(refl, g, swapped);
    WithoutButOne(fields, f, swapped + ignored);
    WithoutButOne(refl, g, swapped);
    assert [] + Without(fields[f + 1..], swapped + ignored) == Without(fields[f + 1..], swapped + ignored);
    assert [] + Without(refl[g + 1..], swapped) == Without(refl[g + 1..], swapped);
    assert x !in ignored;
    assert (swapped + ignored) - {x} == (swapped - {x}) + ignored;
  }

  /** When that assertion does fire its message is true: the annotations are still right without
      the swap. */
  lemma {:induction false} RejectedSwapIsNeedless(fields: seq<Field>, refl: seq<Field>, swapped: set<Field>, ignored: set<Field>, f: nat, g: nat)
    requires Inputs(fields, refl, swapped, ignored) && f <= |fields| && g <= |refl|
    requires Aligned(fields, refl, swapped, ignored, f, g)
    requires WellReflected(fields, refl, swapped, ignored)
    requires Walk(fields, refl, swapped, ignored, f, g).SwapInOrder?
    ensures var x := Walk(fields, refl, swapped, ignored, f, g).field;
            x in swapped && WellReflected(fields, refl, swapped - {x}, ignored)
    decreases |fields| - f + |refl| - g
  {
    hide Aligned, Inputs, Elems, Without, Distinct, WellReflected;
    if f < |fields| {
      var x, y := fields[f], At(refl, g);
      if x in swapped && x !in Elems(refl[..g]) {
        if y == Some(x) {
          SwapIsNeedless(fields, refl, swapped, ignored, f, g);
        } else {
          SkipField(fields, refl, swapped, ignored, f, g);
          RejectedSwapIsNeedless(fields, refl, swapped, ignored, f + 1, g);
        }
      } else if In(y, swapped) && y.value !in Elems(fields[..f]) {
        SkipReflected(fields, refl, swapped, ignored, f, g);
        RejectedSwapIsNeedless(fields, refl, swapped, ignored, f, g + 1);
      } else if x in ignored {
        SkipField(fields, refl, swapped, ignored, f, g);
        RejectedSwapIsNeedless(fields, refl, swapped, ignored, f + 1, g);
      } else if In(y, swapped) {
        SkipReflected(fields, refl, swapped, ignored, f, g);
        RejectedSwapIsNeedless(fields, refl, swapped, ignored, f, g + 1);
      } else if x in swapped {
        SkipField(fields, refl, swapped, ignored, f, g);
        RejectedSwapIsNeedless(fields, refl, swapped, ignored, f + 1, g);
      } else {
        MatchBoth(fields, refl, swapped, ignored, f, g);
        RejectedSwapIsNeedless(fields, refl, swapped, ignored, f + 1, g + 1);
      }
    }
  }

  // ---- complaints ----

  /** What each complaint says, and for the checks after the loop also what the earlier ones have
      established. */
  ghost predicate Justified(fields: seq<Field>, refl: seq<Field>, swapped: set<Field>, ignored: set<Field>, o: Outcome) {
    match o
    case Accepted => WellReflected(fields, refl, swapped, ignored)
    case SwappedNotReflected(x) => x in swapped && x in fields && x !in refl
    case SwapInOrder(x) => x in swapped && MeetIn(fields, refl, swapped, ignored, x, Some(x))
    case IgnoredButReflected(y) => y in ignored && y in fields && y in refl
    case IgnoreInOrder(x) => x in ignored && x in fields && x in refl
    case Mismatch(x, y) => x !in swapped && x !in ignored && !In(y, swapped) && y != Some(x) && MeetIn(fields, refl, swapped, ignored, x, y)
    case ErroneousIgnores => exists x :: x in ignored && x !in fields
    case UnusedReflected => AllIn(ignored, fields) && exists y :: y in refl && (y !in swapped || y !in fields)
    case ErroneousSwaps => AllIn(ignored, fields) && exists x :: x in swapped && x !in fields
    case SwapNeverProvided =>
      AllIn(ignored, fields) && AllIn(swapped, fields + refl) && exists x :: x in swapped && x in fields && x !in refl
    case SwapNotInClass => AllIn(ignored, fields) && AllIn(swapped, refl) && exists x :: x in swapped && x !in fields
  }

  ghost predicate AllIn(s: set<Field>, l: seq<Field>) {
    forall x :: x in s ==> x in l
  }

  /** The class field x and the reflected field y, or the end, come next when the lists before them agree. */
  ghost predicate MeetIn(fields: seq<Field>, refl: seq<Field>, swapped: set<Field>, ignored: set<Field>, x: Field, y: Option<Field>) {
    exists f, g :: 0 <= f < |fields| && 0 <= g <= |refl| && fields[f] == x && At(refl, g) == y && Aligned(fields, refl, swapped, ignored, f, g)
  }

  lemma SwapSomewhere(fields: seq<Field>, refl: seq<Field>, swapped: set<Field>, g: nat, y: Field)
    requires g <= |refl| && y in swapped && swapped - Elems(fields) - Elems(refl[..g]) == {}
    ensures y in fields + refl && (swapped * Elems(fields) - Elems(refl) == {} ==> y in refl)
  {
    assert y !in swapped - Elems(fields) - Elems(refl[..g]);
    assert y in Elems(fields) || y in refl[..g];
    if swapped * Elems(fields) - Elems(refl) == {} { assert y !in swapped * Elems(fields) - Elems(refl); }
  }

  lemma FinishJustified(fields: seq<Field>, refl: seq<Field>, swapped: set<Field>, ignored: set<Field>, g: nat)
    requires Inputs(fields, refl, swapped, ignored) && g <= |refl| && Aligned(fields, refl, swapped, ignored, |fields|, g)
    ensures Justified(fields, refl, swapped, ignored, Finish(fields, refl, swapped, ignored, g))
  {
    hide Without, Aligned, Inputs, WellReflected, MeetIn;
    var fs := Elems(fields);
    if ignored - fs == {} {
      forall x | x in ignored ensures x in fields { assert x !in ignored - fs; }
    }
    if ignored - fs != {} {
      var x :| x in ignored - fs;
    } else if Elems(refl[g..]) - swapped * fs != {} {
      var y :| y in Elems(refl[g..]) - swapped * fs;
      assert y in refl;
    } else if swapped - fs - Elems(refl[..g]) != {} {
      var x :| x in swapped - fs - Elems(refl[..g]);
    } else if swapped * fs - Elems(refl) != {} {
      var x :| x in swapped * fs - Elems(refl);
      forall y | y in swapped ensures y in fields + refl { SwapSomewhere(fields, refl, swapped, g, y); }
    } else if swapped * Elems(refl[..g]) - fs != {} {
      forall y | y in swapped ensures y in refl { SwapSomewhere(fields, refl, swapped, g, y); }
      var x :| x in swapped * Elems(refl[..g]) - fs;
      assert x in refl;
    } else {
      FinishSound(fields, refl, swapped, ignored, g);
    }
  }

  /** On every input the outcome is true of the lists. */
  lemma {:induction false} OutcomeJustified(fields: seq<Field>, refl: seq<Field>, swapped: set<Field>, ignored: set<Field>, f: nat, g: nat)
    requires Inputs(fields, refl, swapped, ignored) && f <= |fields| && g <= |refl| && Aligned(fields, refl, swapped, ignored, f, g)
    ensures Justified(fields, refl, swapped, ignored, Walk(fields, refl, swapped, ignored, f, g))
    decreases |fields| - f + |refl| - g
  {
    hide Aligned, Inputs, Elems, Without, WellReflected, Finish;
    if f == |fields| {
      FinishJustified(fields, refl, swapped, ignored, g);
    } else {
      var x, y := fields[f], At(refl, g);
      assert MeetIn(fields, refl, swapped, ignored, x, y);
      ElemsIn(refl, x);
      if y.Some? { PrefixIn(fields, f, y.value); }
      if x in swapped && x !in Elems(refl[..g]) {
        SkipField(fields, refl, swapped, ignored, f, g);
        OutcomeJustified(fields, refl, swapped, ignored, f + 1, g);
      } else if In(y, swapped) {
        SkipReflected(fields, refl, swapped, ignored, f, g);
        OutcomeJustified(fields, refl, swapped, ignored, f, g + 1);
        if x in ignored {
          SkipField(fields, refl, swapped, ignored, f, g);
          OutcomeJustified(fields, refl, swapped, ignored, f + 1, g);
        }
      } else if x in ignored || x in swapped {
        SkipField(fields, refl, swapped, ignored, f, g);
        OutcomeJustified(fields, refl, swapped, ignored, f + 1, g);
      } else if y == Some(x) {
        MatchBoth(fields, refl, swapped, ignored, f, g);
        OutcomeJustified(fields, refl, swapped, ignored, f + 1, g + 1);
      }
    }
  }
}
