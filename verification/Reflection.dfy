/** tools/validate_reflection.py: matching the fields of a reflection macro against the fields of
    its class, given the fields annotated as ignored and as swapped. */
module Reflection {
  import opened Sequences
  import opened Wrappers

  type Field = string

  /** The result, one constructor for each assertion that can fail. */
  datatype Outcome =
    | Accepted
    | SwappedNotReflected(field: Field)
    | SwapInOrder(field: Field)
    | IgnoredButReflected(field: Field)
    | IgnoreInOrder(field: Field)
    | Mismatch(field: Field, reflected: Option<Field>)
    | ErroneousIgnores
    | UnusedReflected
    | ErroneousSwaps
    | SwapNeverProvided
    | SwapNotInClass

  /** list.remove: drops the first occurrence. */
  function Remove(s: seq<Field>, x: Field): (r: seq<Field>)
  {
    if s == [] then [] else if s[0] == x then s[1..] else [s[0]] + Remove(s[1..], x)
  }

  lemma {:induction false} RemoveIs(s: seq<Field>, x: Field)
    requires Distinct(s)
    ensures Distinct(Remove(s, x)) && Elems(Remove(s, x)) == Elems(s) - {x}
    decreases |s|
  {
    if s != [] {
      assert forall i :: 0 <= i < |s| - 1 ==> s[1..][i] == s[i + 1];
      RemoveIs(s[1..], x);
      assert Elems(s) == {s[0]} + Elems(s[1..]);
      assert s[0] !in s[1..];
      if s[0] != x {
        var r := Remove(s[1..], x);
        assert Elems([s[0]] + r) == {s[0]} + Elems(r);
        assert s[0] !in r by { assert s[0] !in Elems(r); }
      }
    }
  }

  lemma AppendIs(s: seq<Field>, x: Field)
    requires Distinct(s) && x !in Elems(s)
    ensures Distinct(s + [x]) && Elems(s + [x]) == Elems(s) + {x}
  {
  }

  // ---- the walk over both lists, without the work lists ----

  /** The reflected field at the second index, if there is one. */
  function At(r: seq<Field>, i: nat): (x: Option<Field>) {
    if i < |r| then Some(r[i]) else None
  }

  predicate In(x: Option<Field>, s: set<Field>) {
    x.Some? && x.value in s
  }

  /** The outcome from class position f and reflected position g on, given the swapped and ignored
      fields: a swapped field met on one side is skipped on both. */
  function Walk(fields: seq<Field>, refl: seq<Field>, swapped: set<Field>, ignored: set<Field>, f: nat, g: nat)
    : (o: Outcome)
    requires f <= |fields| && g <= |refl|
    decreases |fields| - f + |refl| - g
  {
    if f == |fields| then Finish(fields, refl, swapped, ignored, g)
    else
      var x, y := fields[f], At(refl, g);
      if x in swapped && x !in Elems(refl[..g]) then
        if x !in Elems(refl) then SwappedNotReflected(x)
        else if y == Some(x) then SwapInOrder(x)
        else Walk(fields, refl, swapped, ignored, f + 1, g)
      else if In(y, swapped) && y.value !in Elems(fields[..f]) then
        Walk(fields, refl, swapped, ignored, f, g + 1)
      else if In(y, ignored) && y.value in Elems(fields[..f]) then IgnoredButReflected(y.value)
      else if x in ignored then
        if y == Some(x) then IgnoreInOrder(x) else Walk(fields, refl, swapped, ignored, f + 1, g)
      else if In(y, swapped) then Walk(fields, refl, swapped, ignored, f, g + 1)
      else if x in swapped then Walk(fields, refl, swapped, ignored, f + 1, g)
      else if y == Some(x) then Walk(fields, refl, swapped, ignored, f + 1, g + 1)
      else Mismatch(x, y)
  }

  /** The checks after the loop. */
  function Finish(fields: seq<Field>, refl: seq<Field>, swapped: set<Field>, ignored: set<Field>, g: nat)
    : (o: Outcome)
    requires g <= |refl|
  {
    var fs := Elems(fields);
    if ignored - fs != {} then ErroneousIgnores
    else if Elems(refl[g..]) - swapped * fs != {} then UnusedReflected
    else if swapped - fs - Elems(refl[..g]) != {} then ErroneousSwaps
    else if swapped * fs - Elems(refl) != {} then SwapNeverProvided
    else if swapped * Elems(refl[..g]) - fs != {} then SwapNotInClass
    else Accepted
  }

  // ---- the loop with its work lists ----

  /** The four work lists at class position f and reflected position g. */
  ghost predicate ListsMatch(fields: seq<Field>, refl: seq<Field>, swapped0: set<Field>, ignored0: set<Field>,
                             f: nat, g: nat, swapped: seq<Field>, ignoring: seq<Field>, ignored: seq<Field>,
                             back: seq<Field>, fwd: seq<Field>)
    requires f <= |fields| && g <= |refl|
  {
    var fs, rs := Elems(fields[..f]), Elems(refl[..g]);
    && Distinct(swapped) && Elems(swapped) == swapped0 - fs - rs
    && Distinct(back) && Elems(back) == swapped0 * fs - rs
    && Distinct(fwd) && Elems(fwd) == swapped0 * rs - fs
    && Distinct(ignoring) && Elems(ignoring) == ignored0 - fs
    && Distinct(ignored) && Elems(ignored) == ignored0 * fs
  }

  lemma PrefixGrows(s: seq<Field>, i: nat)
    requires Distinct(s) && i < |s|
    ensures Elems(s[..i + 1]) == Elems(s[..i]) + {s[i]} && s[i] !in Elems(s[..i])
  {
    assert s[..i + 1] == s[..i] + [s[i]];
  }

  lemma ElemsIn(s: seq<Field>, x: Field)
    ensures x in Elems(s) <==> x in s
  {
  }

  lemma ElemsEmpty(s: seq<Field>)
    ensures Elems(s) == {} <==> |s| == 0
  {
    if |s| > 0 { assert s[0] in Elems(s); }
  }

  /** Membership in the work lists, in terms of what both lists have shown so far. */
  lemma ListsSay(fields: seq<Field>, refl: seq<Field>, s0: set<Field>, i0: set<Field>, f: nat, g: nat,
                 swapped: seq<Field>, ignoring: seq<Field>, ignored: seq<Field>, back: seq<Field>, fwd: seq<Field>, x: Field)
    requires f <= |fields| && g <= |refl|
    requires ListsMatch(fields, refl, s0, i0, f, g, swapped, ignoring, ignored, back, fwd)
    ensures var fs, rs := Elems(fields[..f]), Elems(refl[..g]);
            && (x in swapped <==> x in s0 && x !in fs && x !in rs)
            && (x in back <==> x in s0 && x in fs && x !in rs)
            && (x in fwd <==> x in s0 && x in rs && x !in fs)
            && (x in ignoring <==> x in i0 && x !in fs)
            && (x in ignored <==> x in i0 && x in fs)
  {
    hide Distinct, Elems;
    ElemsIn(swapped, x);
    ElemsIn(back, x);
    ElemsIn(fwd, x);
    ElemsIn(ignoring, x);
    ElemsIn(ignored, x);
  }

  /** The matching part of validate_file. Fields are not repeated in a class (C++), in a reflection
      (add_field) or among the annotations (add_ignore_swaps), and a field is annotated both ways only
      when it is an implicitly ignored id that is not reflected. */
  method MatchFields(fields: seq<Field>, refl: seq<Field>, swaps: seq<Field>, ignores: seq<Field>)
    returns (o: Outcome)
    requires Distinct(fields) && Distinct(refl) && Distinct(swaps) && Distinct(ignores)
    requires forall x :: x in swaps && x in ignores ==> x !in refl
    ensures o == Walk(fields, refl, Elems(swaps), Elems(ignores), 0, 0)
  {
    hide Distinct, Elems, Remove, Finish;
    ghost var s0, i0 := Elems(swaps), Elems(ignores);
    var swapped, ignoring := swaps, ignores;
    var g, f := 0, 0;
    var back: seq<Field>, fwd: seq<Field>, ignored: seq<Field> := [], [], [];
    StartLists(fields, refl, swaps, ignores);
    while f < |fields|
      invariant f <= |fields| && g <= |refl|
      invariant ListsMatch(fields, refl, s0, i0, f, g, swapped, ignoring, ignored, back, fwd)
      invariant s0 * i0 * Elems(fields[..f]) == {}
      invariant Walk(fields, refl, s0, i0, f, g) == Walk(fields, refl, s0, i0, 0, 0)
      decreases |fields| - f + |refl| - g
    {
      var field, reflected := fields[f], At(refl, g);
      PrefixGrows(fields, f);
      ElemsIn(refl, field);
      ListsSay(fields, refl, s0, i0, f, g, swapped, ignoring, ignored, back, fwd, field);
      if reflected.Some? {
        PrefixGrows(refl, g);
        ListsSay(fields, refl, s0, i0, f, g, swapped, ignoring, ignored, back, fwd, reflected.value);
      }
      if field in swapped {
        RemoveIs(swapped, field);
        swapped := Remove(swapped, field);
        AppendIs(back, field);
        back := back + [field];
        if field !in refl { return SwappedNotReflected(field); }
        if reflected == Some(field) { return SwapInOrder(field); }
        NotBoth(swaps, ignores, refl, field);
        f := f + 1;
        continue;
      }
      if reflected.Some? && reflected.value in swapped {
        RemoveIs(swapped, reflected.value);
        swapped := Remove(swapped, reflected.value);
        AppendIs(fwd, reflected.value);
        fwd := fwd + [reflected.value];
        g := g + 1;
        continue;
      }
      if reflected.Some? && reflected.value in ignored { return IgnoredButReflected(reflected.value); }
      if field in ignoring {
        RemoveIs(ignoring, field);
        ignoring := Remove(ignoring, field);
        AppendIs(ignored, field);
        ignored := ignored + [field];
        if reflected == Some(field) { return IgnoreInOrder(field); }
        PrefixIn(refl, g, field);
        NotBoth(swaps, ignores, refl, field);
        f := f + 1;
        continue;
      }
      if reflected.Some? && reflected.value in back {
        RemoveIs(back, reflected.value);
        back := Remove(back, reflected.value);
        g := g + 1;
      } else if field in fwd {
        RemoveIs(fwd, field);
        fwd := Remove(fwd, field);
        f := f + 1;
      } else {
        if reflected != Some(field) { return Mismatch(field, reflected); }
        f := f + 1;
        g := g + 1;
      }
    }
    assert fields[..f] == fields;
    o := FinalChecks(fields, refl, g, swapped, ignoring, back, fwd, s0, i0);
  }

  lemma StartLists(fields: seq<Field>, refl: seq<Field>, swaps: seq<Field>, ignores: seq<Field>)
    requires Distinct(swaps) && Distinct(ignores)
    ensures ListsMatch(fields, refl, Elems(swaps), Elems(ignores), 0, 0, swaps, ignores, [], [], [])
    ensures Elems(fields[..0]) == {}
  {
  }

  /** A reflected field is not annotated both ways. */
  lemma NotBoth(swaps: seq<Field>, ignores: seq<Field>, refl: seq<Field>, x: Field)
    requires forall x :: x in swaps && x in ignores ==> x !in refl
    ensures x in Elems(swaps) && x in Elems(ignores) ==> x !in refl
  {
  }

  lemma PrefixIn(s: seq<Field>, i: nat, x: Field)
    requires i <= |s|
    ensures x in Elems(s[..i]) ==> x in s
  {
  }

  /** The checks after the loop, with the loop over the remaining reflected fields. */
  method FinalChecks(fields: seq<Field>, refl: seq<Field>, g: nat, swapped: seq<Field>, ignoring: seq<Field>,
                     back0: seq<Field>, fwd: seq<Field>, ghost s0: set<Field>, ghost i0: set<Field>)
    returns (o: Outcome)
    requires Distinct(refl) && g <= |refl|
    requires Elems(swapped) == s0 - Elems(fields) - Elems(refl[..g]) && Elems(ignoring) == i0 - Elems(fields)
    requires Distinct(back0) && Elems(back0) == s0 * Elems(fields) - Elems(refl[..g])
    requires Elems(fwd) == s0 * Elems(refl[..g]) - Elems(fields)
    ensures o == Finish(fields, refl, s0, i0, g)
  {
    hide Distinct, Elems, Remove;
    ElemsEmpty(ignoring);
    ElemsEmpty(swapped);
    ElemsEmpty(fwd);
    if |ignoring| != 0 { return ErroneousIgnores; }
    var unused: seq<Field>, back, i := [], back0, g;
    ElemsEmpty(unused);
    ElemsEmpty(refl[g..g]);
    while i < |refl|
      invariant g <= i <= |refl|
      invariant Distinct(back) && Elems(back) == s0 * Elems(fields) - Elems(refl[..i])
      invariant Elems(unused) == Elems(refl[g..i]) - s0 * Elems(fields)
    {
      var reflected := refl[i];
      PrefixGrows(refl, i);
      ElemsIn(back, reflected);
      assert refl[g..i + 1] == refl[g..i] + [reflected];
      ElemsAppend(refl[g..i], reflected);
      if reflected in back {
        RemoveIs(back, reflected);
        back := Remove(back, reflected);
      } else {
        ElemsAppend(unused, reflected);
        unused := unused + [reflected];
      }
      i := i + 1;
    }
    assert refl[g..|refl|] == refl[g..] && refl[..|refl|] == refl;
    ElemsEmpty(unused);
    ElemsEmpty(back);
    if |unused| != 0 { return UnusedReflected; }
    if |swapped| != 0 { return ErroneousSwaps; }
    if |back| != 0 { return SwapNeverProvided; }
    if |fwd| != 0 { return SwapNotInClass; }
    return Accepted;
  }

  lemma ElemsAppend(s: seq<Field>, x: Field)
    ensures Elems(s + [x]) == Elems(s) + {x}
  {
  }
}
