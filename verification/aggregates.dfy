/** What the callbacks compute from their filtered view: the three KPI
    counts and their display strings, the attendance split, the weekday
    distribution and the (neighbourhood, no-show) bars. Every callback first
    asks for its own view (`Filtering.View`) and returns the empty result
    when that view is empty. */
module Aggregates {
  import opened Optional
  import opened Records
  import opened Filtering
  import opened Grouping
  import opened ThousandsFormat
  import opened Labels

  // ---------------------------------------------------------------------
  // Counting records
  // ---------------------------------------------------------------------

  /** `(view['No-show'] == f).sum()`: records whose flag is exactly `f`. */
  function CountFlag(view: seq<Record>, f: string): nat
  {
    if view == [] then 0
    else (if view[0].noShow == f then 1 else 0) + CountFlag(view[1..], f)
  }

  /** The view's 'No-show' column. */
  function FlagColumn(view: seq<Record>): seq<string>
  {
    seq(|view|, i requires 0 <= i < |view| => view[i].noShow)
  }

  /** The mask sum is the number of times `f` appears in the flag column. */
  lemma {:induction false} CountFlagIsMultiplicity(view: seq<Record>, f: string)
    ensures CountFlag(view, f) == multiset(FlagColumn(view))[f]
  {
    if view != [] {
      CountFlagIsMultiplicity(view[1..], f);
      assert FlagColumn(view) == [view[0].noShow] + FlagColumn(view[1..]);
    }
  }

  predicate FlagsAreYesNo(view: seq<Record>)
  {
    forall i :: 0 <= i < |view| ==> view[i].noShow == Yes || view[i].noShow == No
  }

  /** The grouping columns of the three grouped charts. */
  datatype GroupBy = ByNoShow | ByWeekday | ByNeighbourhoodNoShow

  /** A record's grouping key: the values of the grouping columns. */
  function KeyOf(r: Record, g: GroupBy): Key
  {
    match g
    case ByNoShow => [r.noShow]
    case ByWeekday => [r.weekday]
    case ByNeighbourhoodNoShow => [r.neighbourhood, r.noShow]
  }

  /** The key column of the view, one key per record. */
  function KeyColumn(view: seq<Record>, g: GroupBy): (keys: seq<Key>)
    ensures |keys| == |view|
    ensures forall i :: 0 <= i < |view| ==> keys[i] == KeyOf(view[i], g)
  {
    seq(|view|, i requires 0 <= i < |view| => KeyOf(view[i], g))
  }

  /** The number of records of the view whose grouping key is `k`. */
  function CountKey(view: seq<Record>, g: GroupBy, k: Key): nat
  {
    if view == [] then 0
    else (if KeyOf(view[0], g) == k then 1 else 0) + CountKey(view[1..], g, k)
  }

  lemma {:induction false} KeyColumnCounts(view: seq<Record>, g: GroupBy, k: Key)
    ensures Occurrences(KeyColumn(view, g), k) == CountKey(view, g, k)
  {
    if view != [] {
      KeyColumnCounts(view[1..], g, k);
      assert KeyColumn(view, g) == [KeyOf(view[0], g)] + KeyColumn(view[1..], g);
      OccurrencesConcat([KeyOf(view[0], g)], KeyColumn(view[1..], g), k);
      assert [KeyOf(view[0], g)][..0] == [];
    }
  }

  /** The grouped chart counts and the KPI mask sum agree on every flag. */
  lemma {:induction false} CountKeyIsCountFlag(view: seq<Record>, f: string)
    ensures CountKey(view, ByNoShow, [f]) == CountFlag(view, f)
  {
    if view != [] {
      CountKeyIsCountFlag(view[1..], f);
    }
  }

  /** `view.groupby(g).size()` */
  function GroupBySize(view: seq<Record>, g: GroupBy): (t: seq<Group>)
    ensures Ascending(t) && Positive(t)
    ensures TotalSize(t) == |view|
    ensures forall k :: SizeOf(t, k) == CountKey(view, g, k)
  {
    var t := GroupSizes(KeyColumn(view, g));
    assert forall k :: SizeOf(t, k) == CountKey(view, g, k) by {
      forall k ensures SizeOf(t, k) == CountKey(view, g, k) {
        KeyColumnCounts(view, g, k);
      }
    }
    t
  }

  /** Every row of a grouped table carries the key of some record of the view. */
  lemma GroupRowFromRecord(view: seq<Record>, g: GroupBy, i: nat)
    requires i < |GroupBySize(view, g)|
    ensures exists j :: 0 <= j < |view| && GroupBySize(view, g)[i].key == KeyOf(view[j], g)
  {
    var t := GroupBySize(view, g);
    assert KeysOf(t)[i] == t[i].key;
    GroupSizesKeys(KeyColumn(view, g), t[i].key);
  }

  /** One row per distinct key of the view: zero-count keys never appear and
      no key appears twice. */
  lemma GroupRowsAreDistinctKeys(view: seq<Record>, g: GroupBy)
    ensures |GroupBySize(view, g)| == |set j | 0 <= j < |view| :: KeyOf(view[j], g)|
  {
    var t := GroupBySize(view, g);
    AscendingKeysDistinct(t);
    var rowKeys := set i | 0 <= i < |t| :: t[i].key;
    var recKeys := set j | 0 <= j < |view| :: KeyOf(view[j], g);
    forall k | k in rowKeys ensures k in recKeys {
      RowKeyIsRecordKey(view, g, k);
    }
    forall k | k in recKeys ensures k in rowKeys {
      RecordKeyIsRowKey(view, g, k);
    }
    assert rowKeys == recKeys;
  }

  lemma RowKeyIsRecordKey(view: seq<Record>, g: GroupBy, k: Key)
    requires exists i :: 0 <= i < |GroupBySize(view, g)| && GroupBySize(view, g)[i].key == k
    ensures exists j :: 0 <= j < |view| && KeyOf(view[j], g) == k
  {
    var t := GroupBySize(view, g);
    var i :| 0 <= i < |t| && t[i].key == k;
    GroupRowFromRecord(view, g, i);
  }

  lemma RecordKeyIsRowKey(view: seq<Record>, g: GroupBy, k: Key)
    requires exists j :: 0 <= j < |view| && KeyOf(view[j], g) == k
    ensures exists i :: 0 <= i < |GroupBySize(view, g)| && GroupBySize(view, g)[i].key == k
  {
    var t := GroupBySize(view, g);
    var keys := KeyColumn(view, g);
    var j :| 0 <= j < |view| && KeyOf(view[j], g) == k;
    assert keys[j] == k;
    GroupSizesKeys(keys, k);
    var i :| 0 <= i < |t| && KeysOf(t)[i] == k;
    assert t[i].key == k;
  }

  // ---------------------------------------------------------------------
  // update_kpis
  // ---------------------------------------------------------------------

  datatype Kpis = Kpis(total: nat, noShows: nat, shows: nat)

  /** `len(view)`, the "Yes" mask sum and the "No" mask sum: the no-shows are
      the rows whose flag is exactly "Yes", the shows those whose flag is
      exactly "No". Together they never exceed the total, and add up to it
      exactly when every flag is "Yes" or "No". */
  function Tally(view: seq<Record>): (k: Kpis)
    ensures k.total == |view|
    ensures k.noShows == multiset(FlagColumn(view))[Yes]
    ensures k.shows == multiset(FlagColumn(view))[No]
    ensures k.noShows + k.shows <= k.total
    ensures k.noShows + k.shows == k.total <==> FlagsAreYesNo(view)
  {
    FlagCountsAddUp(view);
    CountFlagIsMultiplicity(view, Yes);
    CountFlagIsMultiplicity(view, No);
    Kpis(|view|, CountFlag(view, Yes), CountFlag(view, No))
  }

  lemma {:induction false} FlagCountsAddUp(view: seq<Record>)
    ensures CountFlag(view, Yes) + CountFlag(view, No) <= |view|
    ensures CountFlag(view, Yes) + CountFlag(view, No) == |view| <==> FlagsAreYesNo(view)
  {
    if view != [] {
      FlagCountsAddUp(view[1..]);
      assert FlagsAreYesNo(view) <==> (view[0].noShow == Yes || view[0].noShow == No) && FlagsAreYesNo(view[1..]) by {
        if (view[0].noShow == Yes || view[0].noShow == No) && FlagsAreYesNo(view[1..]) {
          forall i | 0 <= i < |view| ensures view[i].noShow == Yes || view[i].noShow == No {
            if i > 0 { assert view[i] == view[1..][i - 1]; }
          }
        }
        if FlagsAreYesNo(view) {
          forall i | 0 <= i < |view[1..]| ensures view[1..][i].noShow == Yes || view[1..][i].noShow == No {
            assert view[1..][i] == view[i + 1];
          }
        }
      }
    }
  }

  /** The three KPI card texts. */
  datatype KpiText = KpiText(total: string, noShows: string, shows: string)

  /** `update_kpis`: the counts of the view, each formatted `{:,}`. Every
      text is grouped by thousands and reads back, commas removed, as the
      decimal numeral of its count. */
  function UpdateKpis(rows: seq<Record>, st: FilterState): (out: KpiText)
    ensures var k := Tally(View(rows, st, KpiCards));
      && k.total == |View(rows, st, KpiCards)|
      && RemoveCommas(out.total) == Decimal(k.total)
      && RemoveCommas(out.noShows) == Decimal(k.noShows)
      && RemoveCommas(out.shows) == Decimal(k.shows)
      && GroupedByThousands(out.total) && GroupedByThousands(out.noShows) && GroupedByThousands(out.shows)
  {
    var k := Tally(View(rows, st, KpiCards));
    KpiText(WithCommas(k.total), WithCommas(k.noShows), WithCommas(k.shows))
  }

  /** An empty view shows 0 / 0 / 0. */
  lemma KpisOfEmptyView(rows: seq<Record>, st: FilterState)
    requires View(rows, st, KpiCards) == []
    ensures UpdateKpis(rows, st) == KpiText("0", "0", "0")
  {
  }

  // ---------------------------------------------------------------------
  // update_noshow_rates
  // ---------------------------------------------------------------------

  /** `view['No-show'].value_counts()`: one row per distinct flag with its
      count, the counts summing to the size of the view; nothing for an
      empty view. */
  function UpdateNoshowRates(rows: seq<Record>, st: FilterState): (t: seq<Group>)
    ensures var view := View(rows, st, NoshowRatesChart);
      && Ascending(t) && Positive(t)
      && TotalSize(t) == |view|
      && (forall f :: SizeOf(t, [f]) == CountFlag(view, f))
      && (view == [] ==> t == [])
  {
    var view := View(rows, st, NoshowRatesChart);
    if view == [] then []
    else
      assert forall f :: CountKey(view, ByNoShow, [f]) == CountFlag(view, f) by {
        forall f ensures CountKey(view, ByNoShow, [f]) == CountFlag(view, f) {
          CountKeyIsCountFlag(view, f);
        }
      }
      GroupBySize(view, ByNoShow)
  }

  /** The attendance split and the KPI cards count the same records: the
      split's "Yes" and "No" rows are the no-show and show cards. */
  lemma SplitAgreesWithKpis(rows: seq<Record>, st: FilterState)
    ensures SizeOf(UpdateNoshowRates(rows, st), [Yes]) == Tally(View(rows, st, KpiCards)).noShows
    ensures SizeOf(UpdateNoshowRates(rows, st), [No]) == Tally(View(rows, st, KpiCards)).shows
  {
  }

  // ---------------------------------------------------------------------
  // distripution_dayweek
  // ---------------------------------------------------------------------

  /** `view.groupby(['appointment_weekday']).size()`: one row per weekday
      that occurs, with its number of appointments; weekdays without
      appointments are omitted, and the counts sum to the size of the view. */
  function DistributionDayweek(rows: seq<Record>, st: FilterState): (t: seq<Group>)
    ensures var view := View(rows, st, WeekdayChart);
      && Ascending(t) && Positive(t)
      && TotalSize(t) == |view|
      && (forall d :: SizeOf(t, [d]) == CountKey(view, ByWeekday, [d]))
      && (view == [] ==> t == [])
  {
    var view := View(rows, st, WeekdayChart);
    if view == [] then [] else GroupBySize(view, ByWeekday)
  }

  // ---------------------------------------------------------------------
  // neighbourhood_noshow
  // ---------------------------------------------------------------------

  /** One bar of the neighbourhood chart. */
  datatype Bar = Bar(axisLabel: string, noShow: string, size: nat)

  /** `grouped['Neighbourhood'].apply(lambda x: x.split()[0][:5])` over the
      grouped rows: Err with the first neighbourhood that has no word, which
      happens exactly when some grouped name has none; otherwise every row
      keeps its flag and its count and only its name is replaced by the
      label. */
  function Relabel(t: seq<Group>): (r: Result<seq<Bar>, string>)
    requires forall i :: 0 <= i < |t| ==> |t[i].key| == 2
    ensures r.Err? <==> exists i :: 0 <= i < |t| && ShortLabel(t[i].key[0]).None?
    ensures r.Ok? ==>
      && |r.value| == |t|
      && forall i :: 0 <= i < |t| ==> r.value[i] == Bar(ShortLabel(t[i].key[0]).value, t[i].key[1], t[i].size)
  {
    if t == [] then Ok([])
    else
      var rest := Relabel(t[1..]);
      RelabelStep(t, rest);
      RelabelRow(t[0], rest)
  }

  /** One grouped row in front of the relabelled rest. */
  function RelabelRow(g: Group, rest: Result<seq<Bar>, string>): Result<seq<Bar>, string>
    requires |g.key| == 2
  {
    match ShortLabel(g.key[0])
    case None => Err(g.key[0])
    case Some(l) =>
      match rest
      case Err(e) => Err(e)
      case Ok(bars) => Ok([Bar(l, g.key[1], g.size)] + bars)
  }

  lemma RelabelStep(t: seq<Group>, rest: Result<seq<Bar>, string>)
    requires t != [] && forall i :: 0 <= i < |t| ==> |t[i].key| == 2
    requires rest.Err? <==> exists i :: 0 <= i < |t[1..]| && ShortLabel(t[1..][i].key[0]).None?
    requires rest.Ok? ==>
      && |rest.value| == |t[1..]|
      && forall i :: 0 <= i < |t[1..]| ==> rest.value[i] == Bar(ShortLabel(t[1..][i].key[0]).value, t[1..][i].key[1], t[1..][i].size)
    ensures var r := RelabelRow(t[0], rest);
      && (r.Err? <==> exists i :: 0 <= i < |t| && ShortLabel(t[i].key[0]).None?)
      && (r.Ok? ==>
           && |r.value| == |t|
           && forall i :: 0 <= i < |t| ==> r.value[i] == Bar(ShortLabel(t[i].key[0]).value, t[i].key[1], t[i].size))
  {
    RelabelStepFails(t, rest);
    if RelabelRow(t[0], rest).Ok? {
      RelabelStepRows(t, rest.value);
    }
  }

  /** The front row fails, or the rest does, exactly when some row has no word. */
  lemma RelabelStepFails(t: seq<Group>, rest: Result<seq<Bar>, string>)
    requires t != [] && forall i :: 0 <= i < |t| ==> |t[i].key| == 2
    requires rest.Err? <==> exists i :: 0 <= i < |t[1..]| && ShortLabel(t[1..][i].key[0]).None?
    ensures RelabelRow(t[0], rest).Err? <==> exists i :: 0 <= i < |t| && ShortLabel(t[i].key[0]).None?
  {
    if ShortLabel(t[0].key[0]).Some? && rest.Err? {
      var i :| 0 <= i < |t[1..]| && ShortLabel(t[1..][i].key[0]).None?;
      assert t[i + 1] == t[1..][i];
    }
    if exists i :: 0 <= i < |t| && ShortLabel(t[i].key[0]).None? {
      var i :| 0 <= i < |t| && ShortLabel(t[i].key[0]).None?;
      if i > 0 { assert t[1..][i - 1] == t[i]; }
    }
  }

  /** When nothing fails, the front bar followed by the rest's bars has one
      bar per row. */
  lemma RelabelStepRows(t: seq<Group>, bars: seq<Bar>)
    requires t != [] && forall i :: 0 <= i < |t| ==> |t[i].key| == 2
    requires forall i :: 0 <= i < |t| ==> ShortLabel(t[i].key[0]).Some?
    requires |bars| == |t[1..]|
    requires forall i :: 0 <= i < |t[1..]| ==>
      ShortLabel(t[1..][i].key[0]).Some? && bars[i] == Bar(ShortLabel(t[1..][i].key[0]).value, t[1..][i].key[1], t[1..][i].size)
    ensures var r := RelabelRow(t[0], Ok(bars));
      && r.Ok? && |r.value| == |t|
      && forall i :: 0 <= i < |t| ==> r.value[i] == Bar(ShortLabel(t[i].key[0]).value, t[i].key[1], t[i].size)
  {
    var all := [Bar(ShortLabel(t[0].key[0]).value, t[0].key[1], t[0].size)] + bars;
    assert RelabelRow(t[0], Ok(bars)) == Ok(all);
    forall i | 0 <= i < |t|
      ensures all[i] == Bar(ShortLabel(t[i].key[0]).value, t[i].key[1], t[i].size)
    {
      if i > 0 { assert t[1..][i - 1] == t[i] && all[i] == bars[i - 1]; }
    }
  }

  /** The grouped (neighbourhood, flag) table of the view. */
  function PlaceTable(view: seq<Record>): (t: seq<Group>)
    ensures forall i :: 0 <= i < |t| ==> |t[i].key| == 2
  {
    var t := GroupBySize(view, ByNeighbourhoodNoShow);
    assert forall i :: 0 <= i < |t| ==> |t[i].key| == 2 by {
      forall i | 0 <= i < |t| ensures |t[i].key| == 2 {
        GroupRowFromRecord(view, ByNeighbourhoodNoShow, i);
      }
    }
    t
  }

  /** `neighbourhood_noshow`: group by (neighbourhood, flag), then relabel.
      It fails (IndexError) exactly when a record of its view has a
      neighbourhood made only of whitespace. */
  function NeighbourhoodNoshow(rows: seq<Record>, st: FilterState): (r: Result<seq<Bar>, string>)
    ensures var view := View(rows, st, NeighbourhoodChart);
      r.Err? <==> exists j :: 0 <= j < |view| && AllSpace(view[j].neighbourhood)
  {
    var view := View(rows, st, NeighbourhoodChart);
    if view == [] then Ok([])
    else
      BlankNameIffRelabelFails(view);
      Relabel(PlaceTable(view))
  }

  lemma BlankNameIffRelabelFails(view: seq<Record>)
    ensures Relabel(PlaceTable(view)).Err? <==> exists j :: 0 <= j < |view| && AllSpace(view[j].neighbourhood)
  {
    var t := PlaceTable(view);
    if exists i :: 0 <= i < |t| && ShortLabel(t[i].key[0]).None? {
      var i :| 0 <= i < |t| && ShortLabel(t[i].key[0]).None?;
      BlankRowHasBlankRecord(view, i);
    }
    if exists j :: 0 <= j < |view| && AllSpace(view[j].neighbourhood) {
      var j :| 0 <= j < |view| && AllSpace(view[j].neighbourhood);
      BlankRecordHasBlankRow(view, j);
    }
  }

  lemma BlankRowHasBlankRecord(view: seq<Record>, i: nat)
    requires i < |PlaceTable(view)| && ShortLabel(PlaceTable(view)[i].key[0]).None?
    ensures exists j :: 0 <= j < |view| && AllSpace(view[j].neighbourhood)
  {
    var t := PlaceTable(view);
    GroupRowFromRecord(view, ByNeighbourhoodNoShow, i);
    var j :| 0 <= j < |view| && t[i].key == KeyOf(view[j], ByNeighbourhoodNoShow);
  }

  lemma BlankRecordHasBlankRow(view: seq<Record>, j: nat)
    requires j < |view| && AllSpace(view[j].neighbourhood)
    ensures exists i :: 0 <= i < |PlaceTable(view)| && ShortLabel(PlaceTable(view)[i].key[0]).None?
  {
    var t := PlaceTable(view);
    var k := KeyOf(view[j], ByNeighbourhoodNoShow);
    assert KeyColumn(view, ByNeighbourhoodNoShow)[j] == k;
    GroupSizesKeys(KeyColumn(view, ByNeighbourhoodNoShow), k);
    var i :| 0 <= i < |t| && KeysOf(t)[i] == k;
  }

  /** Each bar counts the records with that exact (neighbourhood, flag) pair;
      its label is the neighbourhood's `split()[0][:5]`: at most five
      characters, no whitespace, a prefix of the first word. The labels are taken after
      grouping, so there is one bar per distinct pair even when two
      neighbourhoods share a label, and the bars add up to the view. */
  lemma NeighbourhoodBars(rows: seq<Record>, st: FilterState)
    requires NeighbourhoodNoshow(rows, st).Ok?
    ensures var view := View(rows, st, NeighbourhoodChart);
      var bars := NeighbourhoodNoshow(rows, st).value;
      && |bars| == |set j | 0 <= j < |view| :: KeyOf(view[j], ByNeighbourhoodNoShow)|
      && BarTotal(bars) == |view|
      && |bars| == |PlaceTable(view)| && Ascending(PlaceTable(view))
      && forall i :: 0 <= i < |bars| ==>
           exists j ::
             && 0 <= j < |view|
             && PlaceTable(view)[i].key == KeyOf(view[j], ByNeighbourhoodNoShow)
             && bars[i].noShow == view[j].noShow
             && bars[i].size == CountKey(view, ByNeighbourhoodNoShow, [view[j].neighbourhood, view[j].noShow]) >= 1
             && 1 <= |bars[i].axisLabel| <= LabelWidth && NoSpace(bars[i].axisLabel)
             && FirstToken(view[j].neighbourhood).Some?
             && bars[i].axisLabel <= FirstToken(view[j].neighbourhood).value
             && ShortLabel(view[j].neighbourhood).Some? && bars[i].axisLabel == ShortLabel(view[j].neighbourhood).value
  {
    var view := View(rows, st, NeighbourhoodChart);
    var bars := NeighbourhoodNoshow(rows, st).value;
    if view == [] {
      GroupRowsAreDistinctKeys(view, ByNeighbourhoodNoShow);
      assert KeyColumn(view, ByNeighbourhoodNoShow) == [];
    } else {
      var t := PlaceTable(view);
      GroupRowsAreDistinctKeys(view, ByNeighbourhoodNoShow);
      BarTotalOfRelabel(t);
      forall i | 0 <= i < |bars|
        ensures exists j ::
             && 0 <= j < |view|
             && PlaceTable(view)[i].key == KeyOf(view[j], ByNeighbourhoodNoShow)
             && bars[i].noShow == view[j].noShow
             && bars[i].size == CountKey(view, ByNeighbourhoodNoShow, [view[j].neighbourhood, view[j].noShow]) >= 1
             && 1 <= |bars[i].axisLabel| <= LabelWidth && NoSpace(bars[i].axisLabel)
             && FirstToken(view[j].neighbourhood).Some?
             && bars[i].axisLabel <= FirstToken(view[j].neighbourhood).value
             && ShortLabel(view[j].neighbourhood).Some? && bars[i].axisLabel == ShortLabel(view[j].neighbourhood).value
      {
        BarOfRecord(view, i);
      }
    }
  }

  /** The `i`-th bar comes from a record of the view and counts its pair. */
  lemma BarOfRecord(view: seq<Record>, i: nat)
    requires Relabel(PlaceTable(view)).Ok? && i < |PlaceTable(view)|
    ensures var bar := Relabel(PlaceTable(view)).value[i];
      exists j ::
        && 0 <= j < |view|
        && PlaceTable(view)[i].key == KeyOf(view[j], ByNeighbourhoodNoShow)
        && bar.noShow == view[j].noShow
        && bar.size == CountKey(view, ByNeighbourhoodNoShow, [view[j].neighbourhood, view[j].noShow]) >= 1
        && 1 <= |bar.axisLabel| <= LabelWidth && NoSpace(bar.axisLabel)
        && FirstToken(view[j].neighbourhood).Some?
        && bar.axisLabel <= FirstToken(view[j].neighbourhood).value
        && ShortLabel(view[j].neighbourhood).Some? && bar.axisLabel == ShortLabel(view[j].neighbourhood).value
  {
    var t := PlaceTable(view);
    GroupRowFromRecord(view, ByNeighbourhoodNoShow, i);
    var j :| 0 <= j < |view| && t[i].key == KeyOf(view[j], ByNeighbourhoodNoShow);
    SizeOfAt(t, i);
    assert t[i].key == [view[j].neighbourhood, view[j].noShow];
  }

  function BarTotal(bars: seq<Bar>): nat
  {
    if bars == [] then 0 else bars[0].size + BarTotal(bars[1..])
  }

  lemma {:induction false} BarTotalOfRelabel(t: seq<Group>)
    requires forall i :: 0 <= i < |t| ==> |t[i].key| == 2
    requires Relabel(t).Ok?
    ensures BarTotal(Relabel(t).value) == TotalSize(t)
  {
    if t != [] {
      BarTotalOfRelabel(t[1..]);
      assert Relabel(t).value[1..] == Relabel(t[1..]).value;
    }
  }
}
