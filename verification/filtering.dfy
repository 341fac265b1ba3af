/** The filter engine that every update callback of the dashboard repeats:
    an optional gender selection, an optional neighbourhood selection and an
    age range, applied one boolean mask after the other to the loaded table. */
module Filtering {
  import opened Records
  import opened Optional

  /** A dropdown value: nothing selected (None) or one string. */
  type Selection = Option<string>

  /** A selection constrains the view only when it is a non-empty string:
      `x is not None and x != ""` and the truthiness test `if x:` agree on
      strings, so both spellings in the callbacks are this predicate. */
  predicate Active(s: Selection)
  {
    s.Some? && s.value != ""
  }

  /** The value of the age slider: a list (or tuple) of integers, or anything
      else (None, or a value that is not a list). */
  datatype AgeInput = NotAList | Bounds(items: seq<int>)

  datatype FilterState = FilterState(gender: Selection, neighbourhood: Selection, ageRange: AgeInput)

  /** What a callback does when the age input is not a two-element list:
      three callbacks leave age unconstrained, four fall back to [0, 100]. */
  datatype Fallback = Unconstrained | ZeroToHundred

  predicate WellFormed(a: AgeInput)
  {
    a.Bounds? && |a.items| == 2
  }

  /** The inclusive age window a callback filters on, if any. */
  function AgeWindow(a: AgeInput, fb: Fallback): Option<(int, int)>
  {
    if WellFormed(a) then Some((a.items[0], a.items[1]))
    else if fb == ZeroToHundred then Some((0, 100))
    else None
  }

  /** One boolean mask of the pipeline. */
  datatype Mask = GenderIs(g: string) | NeighbourhoodIs(n: string) | AgeBetween(lo: int, hi: int)

  predicate Holds(m: Mask, r: Record)
  {
    match m
    case GenderIs(g) => r.gender == g
    case NeighbourhoodIs(n) => r.neighbourhood == n
    case AgeBetween(lo, hi) => lo <= r.age && r.age <= hi
  }

  predicate AllHold(ms: seq<Mask>, r: Record)
  {
    forall i :: 0 <= i < |ms| ==> Holds(ms[i], r)
  }

  /** `rows[mask]`: the rows for which every mask holds, in their order. */
  function Select(rows: seq<Record>, ms: seq<Mask>): (kept: seq<Record>)
    ensures |kept| <= |rows|
    ensures forall i :: 0 <= i < |kept| ==> AllHold(ms, kept[i])
  {
    if rows == [] then []
    else (if AllHold(ms, rows[0]) then [rows[0]] else []) + Select(rows[1..], ms)
  }

  /** Each record occurs in the selection as often as in the input when the
      masks hold of it, and not at all otherwise. */
  lemma {:induction false} SelectMultiplicity(rows: seq<Record>, ms: seq<Mask>, x: Record)
    ensures multiset(Select(rows, ms))[x] == if AllHold(ms, x) then multiset(rows)[x] else 0
  {
    if rows != [] {
      assert rows == [rows[0]] + rows[1..];
      SelectMultiplicity(rows[1..], ms, x);
    }
  }

  /** The decision the three `if` statements of a callback make about one
      record, read directly off the source. */
  predicate Keep(st: FilterState, fb: Fallback, r: Record)
  {
    && (!Active(st.gender) || r.gender == st.gender.value)
    && (!Active(st.neighbourhood) || r.neighbourhood == st.neighbourhood.value)
    && match AgeWindow(st.ageRange, fb)
       case None => true
       case Some(w) => w.0 <= r.age && r.age <= w.1
  }

  /** The filtered view: `filtered_df` rebound by the gender mask, then the
      neighbourhood mask, then the age mask, each applied only when active. */
  function Filter(rows: seq<Record>, st: FilterState, fb: Fallback): (view: seq<Record>)
    ensures |view| <= |rows|
    ensures forall x :: multiset(view)[x] == if Keep(st, fb, x) then multiset(rows)[x] else 0
  {
    var byGender :=
      if Active(st.gender) then Select(rows, [GenderIs(st.gender.value)]) else rows;
    var byNeighbourhood :=
      if Active(st.neighbourhood) then Select(byGender, [NeighbourhoodIs(st.neighbourhood.value)]) else byGender;
    var view :=
      match AgeWindow(st.ageRange, fb)
      case None => byNeighbourhood
      case Some(w) => Select(byNeighbourhood, [AgeBetween(w.0, w.1)]);
    FilterStages(rows, st, fb, byGender, byNeighbourhood, view);
    view
  }

  /** The counting argument behind Filter's contract, one stage at a time. */
  lemma FilterStages(rows: seq<Record>, st: FilterState, fb: Fallback,
                     byGender: seq<Record>, byNeighbourhood: seq<Record>, view: seq<Record>)
    requires byGender == if Active(st.gender) then Select(rows, [GenderIs(st.gender.value)]) else rows
    requires byNeighbourhood ==
      if Active(st.neighbourhood) then Select(byGender, [NeighbourhoodIs(st.neighbourhood.value)]) else byGender
    requires view ==
      match AgeWindow(st.ageRange, fb)
      case None => byNeighbourhood
      case Some(w) => Select(byNeighbourhood, [AgeBetween(w.0, w.1)])
    ensures forall x :: multiset(view)[x] == if Keep(st, fb, x) then multiset(rows)[x] else 0
  {
    if Active(st.gender) {
      SelectOne(rows, GenderIs(st.gender.value));
    }
    if Active(st.neighbourhood) {
      SelectOne(byGender, NeighbourhoodIs(st.neighbourhood.value));
    }
    match AgeWindow(st.ageRange, fb)
    case None =>
    case Some(w) => SelectOne(byNeighbourhood, AgeBetween(w.0, w.1));
  }

  /** One stage: selecting by a single mask. */
  lemma SelectOne(rows: seq<Record>, m: Mask)
    ensures forall x :: multiset(Select(rows, [m]))[x] == if Holds(m, x) then multiset(rows)[x] else 0
  {
    forall x ensures multiset(Select(rows, [m]))[x] == if Holds(m, x) then multiset(rows)[x] else 0 {
      SelectMultiplicity(rows, [m], x);
      assert AllHold([m], x) <==> Holds(m, x) by { assert [m][0] == m; }
    }
  }

  /** The masks a callback applies, in order. */
  function Masks(st: FilterState, fb: Fallback): seq<Mask>
  {
    (if Active(st.gender) then [GenderIs(st.gender.value)] else [])
    + (if Active(st.neighbourhood) then [NeighbourhoodIs(st.neighbourhood.value)] else [])
    + match AgeWindow(st.ageRange, fb)
      case None => []
      case Some(w) => [AgeBetween(w.0, w.1)]
  }

  /** `a` occurs in `b` in order, possibly with gaps. */
  predicate IsSubsequence<T(==)>(a: seq<T>, b: seq<T>)
    decreases |b|
  {
    if a == [] then true
    else if b == [] then false
    else (a[0] == b[0] && IsSubsequence(a[1..], b[1..])) || IsSubsequence(a, b[1..])
  }

  // ---------------------------------------------------------------------
  // Lemmas about masks and Select
  // ---------------------------------------------------------------------

  lemma AllHoldConcat(a: seq<Mask>, b: seq<Mask>, r: Record)
    ensures AllHold(a + b, r) <==> AllHold(a, r) && AllHold(b, r)
  {
    if AllHold(a, r) && AllHold(b, r) {
      forall i | 0 <= i < |a + b| ensures Holds((a + b)[i], r) {
        if i >= |a| { assert (a + b)[i] == b[i - |a|]; }
      }
    }
    if AllHold(a + b, r) {
      forall i | 0 <= i < |a| ensures Holds(a[i], r) {
        assert (a + b)[i] == a[i];
      }
      forall i | 0 <= i < |b| ensures Holds(b[i], r) {
        assert (a + b)[|a| + i] == b[i];
      }
    }
  }

  lemma KeepIsAllMasks(st: FilterState, fb: Fallback, r: Record)
    ensures Keep(st, fb, r) <==> AllHold(Masks(st, fb), r)
  {
    var g := if Active(st.gender) then [GenderIs(st.gender.value)] else [];
    var n := if Active(st.neighbourhood) then [NeighbourhoodIs(st.neighbourhood.value)] else [];
    var a := match AgeWindow(st.ageRange, fb) case None => [] case Some(w) => [AgeBetween(w.0, w.1)];
    assert Masks(st, fb) == g + n + a;
    AllHoldConcat(g + n, a, r);
    AllHoldConcat(g, n, r);
    assert AllHold(g, r) <==> (!Active(st.gender) || r.gender == st.gender.value) by {
      if Active(st.gender) { assert g[0] == GenderIs(st.gender.value); }
    }
    assert AllHold(n, r) <==> (!Active(st.neighbourhood) || r.neighbourhood == st.neighbourhood.value) by {
      if Active(st.neighbourhood) { assert n[0] == NeighbourhoodIs(st.neighbourhood.value); }
    }
    match AgeWindow(st.ageRange, fb)
    case None =>
    case Some(w) =>
      assert a[0] == AgeBetween(w.0, w.1);
  }

  /** An empty mask list keeps every row. */
  lemma {:induction false} SelectNoMasks(rows: seq<Record>)
    ensures Select(rows, []) == rows
  {
    if rows != [] {
      SelectNoMasks(rows[1..]);
    }
  }

  /** Applying masks one after the other is one selection by all of them. */
  lemma {:induction false} SelectThenSelect(rows: seq<Record>, a: seq<Mask>, b: seq<Mask>)
    ensures Select(Select(rows, a), b) == Select(rows, a + b)
  {
    if rows != [] {
      var x := rows[0];
      SelectThenSelect(rows[1..], a, b);
      AllHoldConcat(a, b, x);
      if AllHold(a, x) {
        var s := Select(rows, a);
        assert s == [x] + Select(rows[1..], a);
        assert s[0] == x && s[1..] == Select(rows[1..], a);
      } else {
        assert Select(rows, a) == Select(rows[1..], a);
      }
    }
  }

  /** A selection whose masks every row already satisfies changes nothing. */
  lemma {:induction false} SelectKeepsConforming(rows: seq<Record>, ms: seq<Mask>)
    requires forall i :: 0 <= i < |rows| ==> AllHold(ms, rows[i])
    ensures Select(rows, ms) == rows
  {
    if rows != [] {
      SelectKeepsConforming(rows[1..], ms);
    }
  }

  lemma {:induction false} SubsequenceOfTail<T>(a: seq<T>, x: T, b: seq<T>)
    requires IsSubsequence(a, b)
    ensures IsSubsequence(a, [x] + b)
  {
    if a != [] {
      assert ([x] + b)[1..] == b;
    }
  }

  lemma {:induction false} SubsequenceLength<T>(a: seq<T>, b: seq<T>)
    requires IsSubsequence(a, b)
    ensures |a| <= |b|
    decreases |b|
  {
    if a != [] {
      if a[0] == b[0] && IsSubsequence(a[1..], b[1..]) {
        SubsequenceLength(a[1..], b[1..]);
      } else {
        SubsequenceLength(a, b[1..]);
      }
    }
  }

  /** A stricter set of masks keeps a subsequence of what a looser one keeps. */
  lemma {:induction false} SelectNarrower(rows: seq<Record>, loose: seq<Mask>, strict: seq<Mask>)
    requires forall i :: 0 <= i < |rows| ==> AllHold(strict, rows[i]) ==> AllHold(loose, rows[i])
    ensures IsSubsequence(Select(rows, strict), Select(rows, loose))
  {
    if rows != [] {
      var x := rows[0];
      SelectNarrower(rows[1..], loose, strict);
      var s, l := Select(rows[1..], strict), Select(rows[1..], loose);
      if AllHold(strict, x) {
        assert Select(rows, strict) == [x] + s;
        assert Select(rows, loose) == [x] + l;
        assert ([x] + s)[1..] == s && ([x] + l)[1..] == l;
      } else if AllHold(loose, x) {
        assert Select(rows, strict) == s;
        assert Select(rows, loose) == [x] + l;
        SubsequenceOfTail(s, x, l);
      } else {
        assert Select(rows, strict) == s;
        assert Select(rows, loose) == l;
      }
    }
  }

  // ---------------------------------------------------------------------
  // Properties of the filtered view
  // ---------------------------------------------------------------------

  /** The stage-by-stage rebinding of the callbacks is one selection by the
      conjunction of the active masks. */
  lemma FilterIsOneSelection(rows: seq<Record>, st: FilterState, fb: Fallback)
    ensures Filter(rows, st, fb) == Select(rows, Masks(st, fb))
  {
    var g := if Active(st.gender) then [GenderIs(st.gender.value)] else [];
    var n := if Active(st.neighbourhood) then [NeighbourhoodIs(st.neighbourhood.value)] else [];
    var a := match AgeWindow(st.ageRange, fb) case None => [] case Some(w) => [AgeBetween(w.0, w.1)];
    assert Masks(st, fb) == g + n + a;
    SelectNoMasks(rows);
    var byGender := if Active(st.gender) then Select(rows, [GenderIs(st.gender.value)]) else rows;
    assert byGender == Select(rows, g);
    SelectNoMasks(byGender);
    SelectThenSelect(rows, g, n);
    var byNeighbourhood := Select(rows, g + n);
    SelectNoMasks(byNeighbourhood);
    SelectThenSelect(rows, g + n, a);
  }

  /** A record is in the view exactly when it is in the table and every
      active constraint holds of it. */
  lemma FilterMembership(rows: seq<Record>, st: FilterState, fb: Fallback, x: Record)
    ensures x in Filter(rows, st, fb) <==> x in rows && Keep(st, fb, x)
  {
    var view := Filter(rows, st, fb);
    assert x in view <==> multiset(view)[x] > 0;
    assert x in rows <==> multiset(rows)[x] > 0;
  }

  /** The view keeps the table's order: it is a subsequence of it. */
  lemma FilterIsSubsequence(rows: seq<Record>, st: FilterState, fb: Fallback)
    ensures IsSubsequence(Filter(rows, st, fb), rows)
  {
    FilterIsOneSelection(rows, st, fb);
    SelectNoMasks(rows);
    forall i | 0 <= i < |rows| ensures AllHold(Masks(st, fb), rows[i]) ==> AllHold([], rows[i]) { }
    SelectNarrower(rows, [], Masks(st, fb));
  }

  /** Filtering the view again with the same state changes nothing. */
  lemma FilterIdempotent(rows: seq<Record>, st: FilterState, fb: Fallback)
    ensures Filter(Filter(rows, st, fb), st, fb) == Filter(rows, st, fb)
  {
    var view := Filter(rows, st, fb);
    FilterIsOneSelection(rows, st, fb);
    FilterIsOneSelection(view, st, fb);
    forall i | 0 <= i < |view| ensures AllHold(Masks(st, fb), view[i]) {
      assert view[i] in multiset(view);
      KeepIsAllMasks(st, fb, view[i]);
    }
    SelectKeepsConforming(view, Masks(st, fb));
  }

  /** Conjunctive narrowing: when every record the stricter state keeps is
      also kept by the looser one, the stricter view is a subsequence of the
      looser view, so never longer. */
  lemma FilterNarrows(rows: seq<Record>, loose: FilterState, fbLoose: Fallback, strict: FilterState, fbStrict: Fallback)
    requires forall i :: 0 <= i < |rows| ==> Keep(strict, fbStrict, rows[i]) ==> Keep(loose, fbLoose, rows[i])
    ensures IsSubsequence(Filter(rows, strict, fbStrict), Filter(rows, loose, fbLoose))
    ensures |Filter(rows, strict, fbStrict)| <= |Filter(rows, loose, fbLoose)|
  {
    FilterIsOneSelection(rows, loose, fbLoose);
    FilterIsOneSelection(rows, strict, fbStrict);
    forall i | 0 <= i < |rows|
      ensures AllHold(Masks(strict, fbStrict), rows[i]) ==> AllHold(Masks(loose, fbLoose), rows[i])
    {
      KeepIsAllMasks(strict, fbStrict, rows[i]);
      KeepIsAllMasks(loose, fbLoose, rows[i]);
    }
    SelectNarrower(rows, Masks(loose, fbLoose), Masks(strict, fbStrict));
    SubsequenceLength(Filter(rows, strict, fbStrict), Filter(rows, loose, fbLoose));
  }

  /** Selecting a gender where none was selected never grows the view. */
  lemma GenderSelectionNarrows(rows: seq<Record>, st: FilterState, fb: Fallback, g: string)
    requires !Active(st.gender)
    ensures |Filter(rows, st.(gender := Some(g)), fb)| <= |Filter(rows, st, fb)|
  {
    FilterNarrows(rows, st, fb, st.(gender := Some(g)), fb);
  }

  /** A well-formed range with lo > hi keeps no record: there is no swap. */
  lemma ReversedRangeKeepsNothing(rows: seq<Record>, st: FilterState, fb: Fallback)
    requires WellFormed(st.ageRange) && st.ageRange.items[0] > st.ageRange.items[1]
    ensures Filter(rows, st, fb) == []
  {
    var view := Filter(rows, st, fb);
    assert forall x :: !Keep(st, fb, x);
    assert multiset(view) == multiset{};
  }

  /** In the three lenient callbacks a malformed age input removes nothing:
      the view is decided by gender and neighbourhood alone. */
  lemma LenientIgnoresMalformedRange(rows: seq<Record>, st: FilterState, x: Record)
    requires !WellFormed(st.ageRange)
    ensures x in Filter(rows, st, Unconstrained) <==>
      x in rows
      && (!Active(st.gender) || x.gender == st.gender.value)
      && (!Active(st.neighbourhood) || x.neighbourhood == st.neighbourhood.value)
  {
    FilterMembership(rows, st, Unconstrained, x);
  }

  /** In the four other callbacks a malformed age input behaves exactly like
      the range [0, 100]. */
  lemma StrictFallsBackToDefault(rows: seq<Record>, st: FilterState, fb: Fallback)
    requires !WellFormed(st.ageRange)
    ensures Filter(rows, st, ZeroToHundred) == Filter(rows, st.(ageRange := Bounds([0, 100])), fb)
  {
  }

  /** ... so that there every record of the view has an age in [0, 100]. */
  lemma StrictDropsOutOfRangeAges(rows: seq<Record>, st: FilterState, x: Record)
    requires !WellFormed(st.ageRange)
    requires x in Filter(rows, st, ZeroToHundred)
    ensures 0 <= x.age <= 100
  {
    FilterMembership(rows, st, ZeroToHundred, x);
  }

  /** With nothing selected and no usable range, the lenient view is the
      whole table. */
  lemma UnconstrainedIsIdentity(rows: seq<Record>, st: FilterState)
    requires !Active(st.gender) && !Active(st.neighbourhood) && !WellFormed(st.ageRange)
    ensures Filter(rows, st, Unconstrained) == rows
  {
  }

  /** The default slider value [0, 100] removes nothing from a table whose
      ages all lie in [0, 100]. */
  lemma DefaultRangeIsIdentity(rows: seq<Record>, st: FilterState, fb: Fallback)
    requires !Active(st.gender) && !Active(st.neighbourhood) && st.ageRange == Bounds([0, 100])
    requires forall i :: 0 <= i < |rows| ==> 0 <= rows[i].age <= 100
    ensures Filter(rows, st, fb) == rows
  {
    SelectKeepsConforming(rows, [AgeBetween(0, 100)]);
  }

  // ---------------------------------------------------------------------
  // The seven callbacks and the fallback each of them uses
  // ---------------------------------------------------------------------

  datatype Callback =
    | KpiCards            // update_kpis
    | NoshowRatesChart    // update_noshow_rates
    | AgeBoxPlot          // update_age_plot
    | WeekdayChart        // distripution_dayweek
    | NeighbourhoodChart  // neighbourhood_noshow
    | ChronicChart        // chronic_noshow
    | AgeImpactChart      // age_impact_on_attendance

  /** The age bounds each callback applies: a two-element input is used as
      given by all seven; any other input leaves age unconstrained in
      `update_kpis`, `update_noshow_rates` and `age_impact_on_attendance`,
      and is replaced by [0, 100] in the other four. */
  function FallbackOf(cb: Callback): (fb: Fallback)
    ensures forall a :: WellFormed(a) ==> AgeWindow(a, fb) == Some((a.items[0], a.items[1]))
    ensures forall a :: !WellFormed(a) ==>
      AgeWindow(a, fb) == if cb == KpiCards || cb == NoshowRatesChart || cb == AgeImpactChart then None else Some((0, 100))
  {
    match cb
    case KpiCards | NoshowRatesChart | AgeImpactChart => Unconstrained
    case AgeBoxPlot | WeekdayChart | NeighbourhoodChart | ChronicChart => ZeroToHundred
  }

  /** The `filtered_df` a callback computes before aggregating. */
  function View(rows: seq<Record>, st: FilterState, cb: Callback): (view: seq<Record>)
    ensures forall x :: x in view <==> x in rows && Keep(st, FallbackOf(cb), x)
  {
    var v := Filter(rows, st, FallbackOf(cb));
    assert forall x :: x in v <==> x in rows && Keep(st, FallbackOf(cb), x) by {
      forall x ensures x in v <==> x in rows && Keep(st, FallbackOf(cb), x) {
        FilterMembership(rows, st, FallbackOf(cb), x);
      }
    }
    v
  }

  /** With a well-formed age input all seven callbacks see the same view. */
  lemma WellFormedRangeAgrees(rows: seq<Record>, st: FilterState, cb1: Callback, cb2: Callback)
    requires WellFormed(st.ageRange)
    ensures View(rows, st, cb1) == View(rows, st, cb2)
  {
  }

  /** With a malformed one, the lenient callbacks see every record the
      strict ones see, and possibly more. */
  lemma MalformedRangeDiverges(rows: seq<Record>, st: FilterState)
    requires !WellFormed(st.ageRange)
    ensures IsSubsequence(View(rows, st, WeekdayChart), View(rows, st, KpiCards))
    ensures forall x :: x in View(rows, st, KpiCards) && 0 <= x.age <= 100 ==> x in View(rows, st, WeekdayChart)
  {
    FilterNarrows(rows, st, Unconstrained, st, ZeroToHundred);
  }
}
