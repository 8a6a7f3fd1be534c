/** Which swaps the matcher of validate_reflection.py complains about. */
module ReflectionSwaps {
  import opened Reflection
  import opened ReflectionTheorems
  import opened Sequences
  import opened Wrappers

  // ---- the condition ----

  ghost predicate Annotated(swapped: set<Field>, ignored: set<Field>, x: Field) {
    x in swapped || x in ignored
  }

  /** Class position c and reflected position r are the beginnings, or follow one unannotated field. */
  ghost predicate Starts(fields: seq<Field>, refl: seq<Field>, swapped: set<Field>, ignored: set<Field>, c: nat, r: nat) {
    && c <= |fields| && r <= |refl|
    && ((c == 0 && r == 0) || (c > 0 && r > 0 && fields[c - 1] == refl[r - 1] && !Annotated(swapped, ignored, fields[c - 1])))
  }

  /** Not yet met on the reflected side. */
  ghost predicate Fresh(refl: seq<Field>, swapped: set<Field>, x: Field, g: nat)
    requires g <= |refl|
  {
    x in swapped && x !in Elems(refl[..g])
  }

  /** The swapped class field p is the next reflected field after such a pair of positions, and only
      fresh swapped fields come before it in the class. */
  ghost predicate InOrder(fields: seq<Field>, refl: seq<Field>, swapped: set<Field>, ignored: set<Field>, c: nat, r: nat, p: nat) {
    && Starts(fields, refl, swapped, ignored, c, r) && c <= p < |fields| && r < |refl|
    && fields[p] in swapped && refl[r] == fields[p]
    && forall i :: c <= i < p ==> Fresh(refl, swapped, fields[i], r)
  }

  ghost predicate SomeInOrder(fields: seq<Field>, refl: seq<Field>, swapped: set<Field>, ignored: set<Field>, lo: nat) {
    exists c, r, p :: lo <= c && InOrder(fields, refl, swapped, ignored, c, r, p)
  }

  // ---- the walk between two unannotated fields ----

  /** The current class field and the current reflected field are not both swapped fields met for the
      first time. */
  ghost predicate Calm(fields: seq<Field>, refl: seq<Field>, swapped: set<Field>, f: nat, g: nat)
    requires f <= |fields| && g <= |refl|
  {
    || f == |fields| || g == |refl|
    || !Fresh(refl, swapped, fields[f], g)
    || refl[g] !in swapped || refl[g] in Elems(fields[..f])
  }

  ghost predicate Standing(fields: seq<Field>, refl: seq<Field>, swapped: set<Field>, ignored: set<Field>, f: nat, g: nat) {
    && f <= |fields| && g <= |refl|
    && Inputs(fields, refl, swapped, ignored) && WellReflected(fields, refl, swapped, ignored)
    && Aligned(fields, refl, swapped, ignored, f, g)
  }

  /** No pair of positions starts behind an annotated field. */
  lemma NotBehind(fields: seq<Field>, refl: seq<Field>, swapped: set<Field>, ignored: set<Field>, f: nat)
    requires f < |fields| && Annotated(swapped, ignored, fields[f])
    ensures SomeInOrder(fields, refl, swapped, ignored, f + 1) <==> SomeInOrder(fields, refl, swapped, ignored, f + 2)
  {
    hide Fresh;
    if SomeInOrder(fields, refl, swapped, ignored, f + 1) {
      var c, r, p :| f + 1 <= c && InOrder(fields, refl, swapped, ignored, c, r, p);
      assert c != f + 1;
    }
    if SomeInOrder(fields, refl, swapped, ignored, f + 2) {
      var c, r, p :| f + 2 <= c && InOrder(fields, refl, swapped, ignored, c, r, p);
      assert f + 1 <= c;
    }
  }

  /** Once calm, the walk complains only about what comes after the next unannotated field. */
  lemma {:induction false} CalmWalk(fields: seq<Field>, refl: seq<Field>, swapped: set<Field>, ignored: set<Field>, f: nat, g: nat)
    requires Standing(fields, refl, swapped, ignored, f, g) && Calm(fields, refl, swapped, f, g)
    ensures Walk(fields, refl, swapped, ignored, f, g).SwapInOrder? <==> SomeInOrder(fields, refl, swapped, ignored, f + 1)
    decreases |fields| - f + |refl| - g, 0
  {
    hide Aligned, Elems, Without, SomeInOrder, Inputs, WellReflected;
    if f == |fields| {
      NoneLeft(fields, refl, swapped, ignored);
    } else {
      var x, y := fields[f], At(refl, g);
      Reflected(fields, refl, swapped, ignored, f, g);
      if Fresh(refl, swapped, x, g) || (x in ignored && !(In(y, swapped) && y.value !in Elems(fields[..f]))) {
        SkipField(fields, refl, swapped, ignored, f, g);
        StaysCalm(fields, refl, swapped, f, g);
        NotBehind(fields, refl, swapped, ignored, f);
        CalmWalk(fields, refl, swapped, ignored, f + 1, g);
      } else if In(y, swapped) {
        SkipReflected(fields, refl, swapped, ignored, f, g);
        StaysNotFresh(refl, swapped, x, g);
        CalmWalk(fields, refl, swapped, ignored, f, g + 1);
      } else if x in swapped {
        SkipField(fields, refl, swapped, ignored, f, g);
        NotBehind(fields, refl, swapped, ignored, f);
        CalmWalk(fields, refl, swapped, ignored, f + 1, g);
      } else {
        NormalMatches(fields, refl, swapped, ignored, f, g);
        MatchBoth(fields, refl, swapped, ignored, f, g);
        FreshWalk(fields, refl, swapped, ignored, f + 1, g + 1, f + 1);
      }
    }
  }

  /** From a pair of starting positions: fresh swapped fields are passed until one is in order or
      the walk is calm. */
  lemma {:induction false} FreshWalk(fields: seq<Field>, refl: seq<Field>, swapped: set<Field>, ignored: set<Field>, f: nat, g: nat, c: nat)
    requires Standing(fields, refl, swapped, ignored, f, g) && Starts(fields, refl, swapped, ignored, c, g) && c <= f
    requires forall i :: c <= i < f ==> Fresh(refl, swapped, fields[i], g) && At(refl, g) != Some(fields[i])
    ensures Walk(fields, refl, swapped, ignored, f, g).SwapInOrder? <==> SomeInOrder(fields, refl, swapped, ignored, c)
    decreases |fields| - f + |refl| - g, 1
  {
    hide Aligned, Elems, Without, SomeInOrder, Inputs, WellReflected;
    if f < |fields| && Fresh(refl, swapped, fields[f], g) {
      Reflected(fields, refl, swapped, ignored, f, g);
      if At(refl, g) == Some(fields[f]) {
        Witness(fields, refl, swapped, ignored, c, g, f);
      } else {
        SkipField(fields, refl, swapped, ignored, f, g);
        FreshWalk(fields, refl, swapped, ignored, f + 1, g, c);
      }
    } else {
      CalmWalk(fields, refl, swapped, ignored, f, g);
      SegmentDone(fields, refl, swapped, ignored, f, g, c);
    }
  }

  lemma Witness(fields: seq<Field>, refl: seq<Field>, swapped: set<Field>, ignored: set<Field>, c: nat, r: nat, p: nat)
    requires InOrder(fields, refl, swapped, ignored, c, r, p)
    ensures SomeInOrder(fields, refl, swapped, ignored, c)
  {
    hide InOrder;
  }

  lemma NoneLeft(fields: seq<Field>, refl: seq<Field>, swapped: set<Field>, ignored: set<Field>)
    ensures !SomeInOrder(fields, refl, swapped, ignored, |fields| + 1)
  {
  }

  /** What well-reflected lists say about the fields at hand. */
  lemma Reflected(fields: seq<Field>, refl: seq<Field>, swapped: set<Field>, ignored: set<Field>, f: nat, g: nat)
    requires Standing(fields, refl, swapped, ignored, f, g) && f < |fields|
    ensures fields[f] in swapped ==> fields[f] in Elems(refl)
    ensures g < |refl| ==> refl[g] !in ignored && refl[g] !in Elems(refl[..g])
    ensures g < |refl| && refl[g] == fields[f] ==> refl[g] !in Elems(fields[..f])
  {
    hide Without, Aligned;
    ElemsIn(refl, fields[f]);
    if g < |refl| {
      assert refl[g] in refl;
      PrefixGrows(refl, g);
      PrefixGrows(fields, f);
    }
  }

  lemma StaysCalm(fields: seq<Field>, refl: seq<Field>, swapped: set<Field>, f: nat, g: nat)
    requires f < |fields| && g <= |refl|
    requires g == |refl| || refl[g] !in swapped || refl[g] in Elems(fields[..f])
    ensures Calm(fields, refl, swapped, f + 1, g)
  {
    hide Fresh;
    assert fields[..f + 1] == fields[..f] + [fields[f]];
  }

  lemma StaysNotFresh(refl: seq<Field>, swapped: set<Field>, x: Field, g: nat)
    requires g < |refl| && !Fresh(refl, swapped, x, g)
    ensures !Fresh(refl, swapped, x, g + 1)
  {
    assert refl[..g + 1] == refl[..g] + [refl[g]];
  }

  /** A segment passed without a complaint has no field in order. */
  lemma SegmentDone(fields: seq<Field>, refl: seq<Field>, swapped: set<Field>, ignored: set<Field>, f: nat, g: nat, c: nat)
    requires Standing(fields, refl, swapped, ignored, f, g) && Starts(fields, refl, swapped, ignored, c, g) && c <= f
    requires forall i :: c <= i < f ==> Fresh(refl, swapped, fields[i], g) && At(refl, g) != Some(fields[i])
    requires f < |fields| ==> !Fresh(refl, swapped, fields[f], g)
    ensures SomeInOrder(fields, refl, swapped, ignored, c) <==> SomeInOrder(fields, refl, swapped, ignored, f + 1)
  {
    hide Without, WellReflected, Aligned, Elems;
    if SomeInOrder(fields, refl, swapped, ignored, c) {
      var d, r, p :| c <= d && InOrder(fields, refl, swapped, ignored, d, r, p);
      if d <= f {
        SameStart(fields, refl, swapped, ignored, c, g, r);
        if f < |fields| && p == f { Reflected(fields, refl, swapped, ignored, f, g); }
      }
      assert f + 1 <= d;
      Witness(fields, refl, swapped, ignored, d, r, p);
    }
    if SomeInOrder(fields, refl, swapped, ignored, f + 1) {
      var d, r, p :| f + 1 <= d && InOrder(fields, refl, swapped, ignored, d, r, p);
      assert c <= d;
    }
  }

  lemma SameStart(fields: seq<Field>, refl: seq<Field>, swapped: set<Field>, ignored: set<Field>, c: nat, g: nat, r: nat)
    requires Distinct(refl) && Starts(fields, refl, swapped, ignored, c, g) && Starts(fields, refl, swapped, ignored, c, r)
    ensures g == r
  {
  }

  /** Given right annotations, with any set of swaps: the matcher complains exactly when some swapped
      field is the next reflected field after a common unannotated field, or the beginning, and only
      swapped fields not reflected before come in between in the class; otherwise it accepts. */
  lemma SwapsAcceptedIff(fields: seq<Field>, refl: seq<Field>, swapped: set<Field>, ignored: set<Field>)
    requires Inputs(fields, refl, swapped, ignored) && WellReflected(fields, refl, swapped, ignored)
    ensures Walk(fields, refl, swapped, ignored, 0, 0).Accepted? <==> !SomeInOrder(fields, refl, swapped, ignored, 0)
    ensures Walk(fields, refl, swapped, ignored, 0, 0).SwapInOrder? <==> SomeInOrder(fields, refl, swapped, ignored, 0)
  {
    hide Walk, Inputs, WellReflected, SomeInOrder;
    AlignedStart(fields, refl, swapped, ignored);
    WalkComplete(fields, refl, swapped, ignored, 0, 0);
    FreshWalk(fields, refl, swapped, ignored, 0, 0, 0);
  }

  // ---- one swap ----

  lemma {:induction false} WithoutNothing(s: seq<Field>)
    ensures Without(s, {}) == s
    decreases |s|
  {
    if s != [] { WithoutNothing(s[1..]); }
  }

  /** Lists that agree without the swap: the swapped field stands right behind what precedes it. */
  lemma StandsBehind(fields: seq<Field>, refl: seq<Field>, ignored: set<Field>, p: nat) returns (r: nat)
    requires WellReflected(fields, refl, {}, ignored) && p < |fields| && fields[p] !in ignored
    ensures r < |refl| && refl[r] == fields[p]
    ensures p == 0 ==> r == 0
    ensures p > 0 && fields[p - 1] !in ignored ==> r > 0 && refl[r - 1] == fields[p - 1]
  {
    hide Without;
    var before := Without(fields[..p], ignored);
    r := |before|;
    assert {} + ignored == ignored;
    WithoutNothing(refl);
    WithoutSplit(fields, p, ignored);
    assert refl == before + ([fields[p]] + Without(fields[p + 1..], ignored));
    if p == 0 {
      assert fields[..0] == [];
      WithoutNothingLeft(ignored);
    } else {
      WithoutPrefix(fields, p - 1, ignored);
    }
  }

  /** One swap: given right annotations, it is accepted if and only if it is needed, or the class field
      just before it is ignored. */
  lemma SingleSwapAcceptedIff(fields: seq<Field>, refl: seq<Field>, x: Field, ignored: set<Field>, p: nat)
    requires Inputs(fields, refl, {x}, ignored) && p < |fields| && fields[p] == x
    requires WellReflected(fields, refl, {x}, ignored)
    ensures Walk(fields, refl, {x}, ignored, 0, 0).Accepted?
            <==> (!WellReflected(fields, refl, {}, ignored) || (p > 0 && fields[p - 1] in ignored))
  {
    hide Walk, Without;
    SwapsAcceptedIff(fields, refl, {x}, ignored);
    if Walk(fields, refl, {x}, ignored, 0, 0).SwapInOrder? {
      AlignedStart(fields, refl, {x}, ignored);
      RejectedSwapIsNeedless(fields, refl, {x}, ignored, 0, 0);
      assert {x} - {x} == {};
      var c, r, q :| 0 <= c && InOrder(fields, refl, {x}, ignored, c, r, q);
      assert q == p;
    }
    if WellReflected(fields, refl, {}, ignored) && !(p > 0 && fields[p - 1] in ignored) {
      var r := StandsBehind(fields, refl, ignored, p);
      assert InOrder(fields, refl, {x}, ignored, p, r, p);
    }
  }

  // ---- two swaps ----

  /** A needless swap passes when another swapped field stands in front of it: a class a, b, c, d
      reflected as a, d, b, c only needs d to be swapped, but b and d are accepted. */
  lemma NeedlessSwapCanPass(a: Field, b: Field, c: Field, d: Field)
    requires a != b && a != c && a != d && b != c && b != d && c != d
    ensures var fields, refl := [a, b, c, d], [a, d, b, c];
            && Inputs(fields, refl, {b, d}, {}) && WellReflected(fields, refl, {b, d}, {}) && WellReflected(fields, refl, {d}, {})
            && Walk(fields, refl, {b, d}, {}, 0, 0).Accepted?
  {
    hide Walk, Without;
    var fields, refl := [a, b, c, d], [a, d, b, c];
    assert {d} + {} == {d} && {b, d} + {} == {b, d};
    OneSwapSuffices(a, b, c, d);
    TwoSwapsSuffice(a, b, c, d);
    SwapsAcceptedIff(fields, refl, {b, d}, {});
    forall i, r, p ensures !InOrder(fields, refl, {b, d}, {}, i, r, p) { NotInOrder(a, b, c, d, i, r, p); }
  }

  lemma NotInOrder(a: Field, b: Field, c: Field, d: Field, i: nat, r: nat, p: nat)
    requires a != b && a != c && a != d && b != c && b != d && c != d
    ensures !InOrder([a, b, c, d], [a, d, b, c], {b, d}, {}, i, r, p)
  {
    hide Elems;
    var fields, refl := [a, b, c, d], [a, d, b, c];
    if Starts(fields, refl, {b, d}, {}, i, r) && r < 4 { assert i < 2; }
    assert fields[2] !in {b, d};
  }

  lemma OneSwapSuffices(a: Field, b: Field, c: Field, d: Field)
    requires a != b && a != c && a != d && b != c && b != d && c != d
    ensures Without([a, b, c, d], {d}) == [a, b, c] && Without([a, d, b, c], {d}) == [a, b, c]
  {
    hide Without;
    WithoutNothingLeft({d});
    WithoutCons(d, [], {d});
    WithoutCons(c, [d], {d});
    WithoutCons(b, [c, d], {d});
    WithoutCons(a, [b, c, d], {d});
    WithoutCons(c, [], {d});
    WithoutCons(b, [c], {d});
    WithoutCons(d, [b, c], {d});
    WithoutCons(a, [d, b, c], {d});
    assert [a] + [b, c, d] == [a, b, c, d] && [b] + [c, d] == [b, c, d] && [c] + [d] == [c, d] && [d] + [] == [d];
    assert [a] + [d, b, c] == [a, d, b, c] && [d] + [b, c] == [d, b, c] && [b] + [c] == [b, c] && [c] + [] == [c];
  }

  lemma WithoutNothingLeft(out: set<Field>)
    ensures Without([], out) == []
  {
  }

  lemma WithoutCons(x: Field, rest: seq<Field>, out: set<Field>)
    ensures Without([x] + rest, out) == (if x in out then [] else [x]) + Without(rest, out)
  {
    assert ([x] + rest)[1..] == rest;
  }

  lemma TwoSwapsSuffice(a: Field, b: Field, c: Field, d: Field)
    requires a != b && a != c && a != d && b != c && b != d && c != d
    ensures Without([a, b, c, d], {b, d}) == [a, c] && Without([a, d, b, c], {b, d}) == [a, c]
  {
    hide Without;
    var s := {b, d};
    WithoutNothingLeft(s);
    WithoutCons(d, [], s);
    WithoutCons(c, [d], s);
    WithoutCons(b, [c, d], s);
    WithoutCons(a, [b, c, d], s);
    WithoutCons(c, [], s);
    WithoutCons(b, [c], s);
    WithoutCons(d, [b, c], s);
    WithoutCons(a, [d, b, c], s);
    assert [a] + [b, c, d] == [a, b, c, d] && [b] + [c, d] == [b, c, d] && [c] + [d] == [c, d] && [d] + [] == [d];
    assert [a] + [d, b, c] == [a, d, b, c] && [d] + [b, c] == [d, b, c] && [b] + [c] == [b, c] && [c] + [] == [c];
  }
}
