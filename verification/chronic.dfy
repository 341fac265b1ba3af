/** `chronic_noshow`: the view is melted into one long row per (record,
    condition column), the rows whose value is exactly 1 are kept, and they
    are counted by (Condition, No-show). A record with several conditions
    counts once under each of them. */
module ChronicConditions {
  import opened Records
  import opened Filtering
  import opened Grouping

  /** One row of `filtered_df.melt(id_vars=['No-show'], value_vars=conditions,
      var_name='Condition', value_name='HasCondition')`. */
  datatype LongRow = LongRow(noShow: string, condition: string, hasCondition: int)

  /** The melted rows of one condition column, one per record, in order. */
  function MeltColumn(view: seq<Record>, c: Condition): (long: seq<LongRow>)
    ensures |long| == |view|
    ensures forall j :: 0 <= j < |view| ==>
      long[j] == LongRow(view[j].noShow, ConditionName(c), ConditionValue(view[j], c))
  {
    if view == [] then []
    else [LongRow(view[0].noShow, ConditionName(c), ConditionValue(view[0], c))] + MeltColumn(view[1..], c)
  }

  /** The melted row of record `r` for condition column `c`. */
  function RowOf(r: Record, c: Condition): LongRow
  {
    LongRow(r.noShow, ConditionName(c), ConditionValue(r, c))
  }

  /** The melt stacks the four columns in the order they are listed: each
      block holds one row per record, in record order. */
  function Melt(view: seq<Record>): (long: seq<LongRow>)
    ensures |long| == 4 * |view|
    ensures forall j :: 0 <= j < |view| ==>
      && long[j] == RowOf(view[j], Hipertension)
      && long[|view| + j] == RowOf(view[j], Diabetes)
      && long[2 * |view| + j] == RowOf(view[j], Alcoholism)
      && long[3 * |view| + j] == RowOf(view[j], Handcap)
  {
    MeltColumn(view, Hipertension) + MeltColumn(view, Diabetes)
    + MeltColumn(view, Alcoholism) + MeltColumn(view, Handcap)
  }

  /** `df_long[df_long['HasCondition'] == 1]` as its ['Condition', 'No-show']
      keys: a key is produced exactly when some long row with value 1
      carries it, and there are never more keys than long rows. */
  function ConditionKeys(long: seq<LongRow>): (keys: seq<Key>)
    ensures |keys| <= |long|
    ensures forall k :: k in keys <==> HasRowWithKey(long, k)
    ensures forall k :: Occurrences(keys, k) == RowsWithKey(long, k)
  {
    if long == [] then []
    else
      var rest := ConditionKeys(long[1..]);
      ConditionKeysStep(long, rest);
      ConditionKeysCountStep(long, rest);
      (if long[0].hasCondition == 1 then [[long[0].condition, long[0].noShow]] else []) + rest
  }

  /** The number of long rows with value 1 whose condition and flag are `k`. */
  function RowsWithKey(long: seq<LongRow>, k: Key): nat
  {
    if long == [] then 0
    else (if long[0].hasCondition == 1 && k == [long[0].condition, long[0].noShow] then 1 else 0)
         + RowsWithKey(long[1..], k)
  }

  lemma ConditionKeysCountStep(long: seq<LongRow>, rest: seq<Key>)
    requires long != []
    requires forall k :: Occurrences(rest, k) == RowsWithKey(long[1..], k)
    ensures var head := if long[0].hasCondition == 1 then [[long[0].condition, long[0].noShow]] else [];
      forall k :: Occurrences(head + rest, k) == RowsWithKey(long, k)
  {
    var head := if long[0].hasCondition == 1 then [[long[0].condition, long[0].noShow]] else [];
    forall k ensures Occurrences(head + rest, k) == RowsWithKey(long, k) {
      OccurrencesConcat(head, rest, k);
      if head != [] {
        assert head[..0] == [];
      }
    }
  }

  /** Some long row with value 1 has condition and flag `k`. */
  predicate HasRowWithKey(long: seq<LongRow>, k: Key)
  {
    exists j :: 0 <= j < |long| && long[j].hasCondition == 1 && k == [long[j].condition, long[j].noShow]
  }

  lemma ConditionKeysStep(long: seq<LongRow>, rest: seq<Key>)
    requires long != []
    requires forall k :: k in rest <==> HasRowWithKey(long[1..], k)
    ensures var head := if long[0].hasCondition == 1 then [[long[0].condition, long[0].noShow]] else [];
      forall k :: k in head + rest <==> HasRowWithKey(long, k)
  {
    var head := if long[0].hasCondition == 1 then [[long[0].condition, long[0].noShow]] else [];
    forall k ensures k in head + rest <==> HasRowWithKey(long, k) {
      if HasRowWithKey(long[1..], k) {
        var j :| 0 <= j < |long[1..]| && long[1..][j].hasCondition == 1 && k == [long[1..][j].condition, long[1..][j].noShow];
        assert long[j + 1] == long[1..][j];
      }
      if HasRowWithKey(long, k) {
        var j :| 0 <= j < |long| && long[j].hasCondition == 1 && k == [long[j].condition, long[j].noShow];
        if j > 0 {
          assert long[1..][j - 1] == long[j];
        }
      }
    }
  }

  /** `chronic_noshow`'s table; nothing for an empty view. */
  function ChronicNoshow(rows: seq<Record>, st: FilterState): (t: seq<Group>)
    ensures Ascending(t) && Positive(t)
    ensures View(rows, st, ChronicChart) == [] ==> t == []
  {
    var view := View(rows, st, ChronicChart);
    if view == [] then [] else GroupSizes(ConditionKeys(Melt(view)))
  }

  // ---------------------------------------------------------------------
  // Reference counts over the records
  // ---------------------------------------------------------------------

  /** Records whose column `c` is exactly 1 and whose flag is `f`. */
  function CountHaving(view: seq<Record>, c: Condition, f: string): nat
  {
    if view == [] then 0
    else (if ConditionValue(view[0], c) == 1 && view[0].noShow == f then 1 else 0)
         + CountHaving(view[1..], c, f)
  }

  /** How many of the four columns of `r` are exactly 1. */
  function Ones(r: Record): nat
  {
    (if r.hipertension == 1 then 1 else 0) + (if r.diabetes == 1 then 1 else 0)
    + (if r.alcoholism == 1 then 1 else 0) + (if r.handcap == 1 then 1 else 0)
  }

  /** The number of (record, condition) pairs whose value is 1. */
  function FanOut(view: seq<Record>): nat
  {
    if view == [] then 0 else Ones(view[0]) + FanOut(view[1..])
  }

  /** The distinct no-show flags of the view. */
  function FlagSet(view: seq<Record>): set<string>
  {
    set j | 0 <= j < |view| :: view[j].noShow
  }

  // ---------------------------------------------------------------------
  // Lemmas
  // ---------------------------------------------------------------------

  lemma {:induction false} ConditionKeysConcat(a: seq<LongRow>, b: seq<LongRow>)
    ensures ConditionKeys(a + b) == ConditionKeys(a) + ConditionKeys(b)
  {
    if a == [] {
      assert a + b == b;
    } else {
      assert (a + b)[1..] == a[1..] + b;
      ConditionKeysConcat(a[1..], b);
    }
  }

  /** The keys of the melt are the keys of its four column blocks, in order. */
  lemma MeltKeys(view: seq<Record>)
    ensures ConditionKeys(Melt(view)) ==
      ConditionKeys(MeltColumn(view, Hipertension)) + ConditionKeys(MeltColumn(view, Diabetes))
      + ConditionKeys(MeltColumn(view, Alcoholism)) + ConditionKeys(MeltColumn(view, Handcap))
  {
    var h, d, a, x := MeltColumn(view, Hipertension), MeltColumn(view, Diabetes),
                      MeltColumn(view, Alcoholism), MeltColumn(view, Handcap);
    ConditionKeysConcat(h + d + a, x);
    ConditionKeysConcat(h + d, a);
    ConditionKeysConcat(h, d);
  }

  /** In the block of column `d`, the key (c, f) occurs once per record with
      c = d, value 1 and flag f, and never for another column. */
  lemma {:induction false} ColumnOccurrences(view: seq<Record>, d: Condition, c: Condition, f: string)
    ensures Occurrences(ConditionKeys(MeltColumn(view, d)), [ConditionName(c), f]) ==
      if c == d then CountHaving(view, c, f) else 0
  {
    if view != [] {
      ColumnOccurrences(view[1..], d, c, f);
      var row := LongRow(view[0].noShow, ConditionName(d), ConditionValue(view[0], d));
      assert MeltColumn(view, d)[1..] == MeltColumn(view[1..], d);
      var head := if row.hasCondition == 1 then [[row.condition, row.noShow]] else [];
      OccurrencesConcat(head, ConditionKeys(MeltColumn(view[1..], d)), [ConditionName(c), f]);
      ConditionNamesDistinct(c, d);
      if head != [] {
        assert head[..0] == [];
        assert [ConditionName(d), view[0].noShow] == [ConditionName(c), f] <==> ConditionName(d) == ConditionName(c) && view[0].noShow == f;
      }
    }
  }

  /** Across the four blocks of the melt, the key (c, f) occurs once per
      record with column c equal to 1 and flag f. */
  lemma MeltOccurrences(view: seq<Record>, c: Condition, f: string)
    ensures Occurrences(ConditionKeys(Melt(view)), [ConditionName(c), f]) == CountHaving(view, c, f)
  {
    var k := [ConditionName(c), f];
    var h, d, a, x := ConditionKeys(MeltColumn(view, Hipertension)), ConditionKeys(MeltColumn(view, Diabetes)),
                      ConditionKeys(MeltColumn(view, Alcoholism)), ConditionKeys(MeltColumn(view, Handcap));
    MeltKeys(view);
    OccurrencesConcat(h + d + a, x, k);
    OccurrencesConcat(h + d, a, k);
    OccurrencesConcat(h, d, k);
    ColumnOccurrences(view, Hipertension, c, f);
    ColumnOccurrences(view, Diabetes, c, f);
    ColumnOccurrences(view, Alcoholism, c, f);
    ColumnOccurrences(view, Handcap, c, f);
  }

  /** The bar for (c, f) counts the records of the view whose column c is
      exactly 1 and whose flag is f. */
  lemma ChronicCounts(rows: seq<Record>, st: FilterState, c: Condition, f: string)
    ensures SizeOf(ChronicNoshow(rows, st), [ConditionName(c), f]) == CountHaving(View(rows, st, ChronicChart), c, f)
  {
    var view := View(rows, st, ChronicChart);
    if view != [] {
      MeltOccurrences(view, c, f);
    }
  }

  lemma {:induction false} ColumnKeyCount(view: seq<Record>, c: Condition)
    ensures |ConditionKeys(MeltColumn(view, c))| == CountOnes(view, c)
  {
    if view != [] {
      ColumnKeyCount(view[1..], c);
      assert MeltColumn(view, c)[1..] == MeltColumn(view[1..], c);
    }
  }

  /** Records whose column `c` is exactly 1. */
  function CountOnes(view: seq<Record>, c: Condition): nat
  {
    if view == [] then 0
    else (if ConditionValue(view[0], c) == 1 then 1 else 0) + CountOnes(view[1..], c)
  }

  lemma {:induction false} FanOutByColumn(view: seq<Record>)
    ensures FanOut(view) == CountOnes(view, Hipertension) + CountOnes(view, Diabetes)
                          + CountOnes(view, Alcoholism) + CountOnes(view, Handcap)
  {
    if view != [] {
      FanOutByColumn(view[1..]);
    }
  }

  /** Fan-out: the bars add up to the number of (record, condition) pairs
      with value 1, so a record with two conditions adds two. */
  lemma ChronicTotal(rows: seq<Record>, st: FilterState)
    ensures TotalSize(ChronicNoshow(rows, st)) == FanOut(View(rows, st, ChronicChart))
  {
    var view := View(rows, st, ChronicChart);
    if view != [] {
      MeltKeys(view);
      ColumnKeyCount(view, Hipertension);
      ColumnKeyCount(view, Diabetes);
      ColumnKeyCount(view, Alcoholism);
      ColumnKeyCount(view, Handcap);
      FanOutByColumn(view);
    }
  }

  /** The possible keys: every condition name paired with every flag. */
  function Grid(flags: set<string>): set<Key>
  {
    Column(Hipertension, flags) + Column(Diabetes, flags) + Column(Alcoholism, flags) + Column(Handcap, flags)
  }

  function Column(c: Condition, flags: set<string>): set<Key>
  {
    set f | f in flags :: [ConditionName(c), f]
  }

  lemma {:induction false} ColumnSize(c: Condition, flags: set<string>)
    ensures |Column(c, flags)| == |flags|
  {
    if flags != {} {
      var x :| x in flags;
      ColumnSize(c, flags - {x});
      assert Column(c, flags) == Column(c, flags - {x}) + {[ConditionName(c), x]};
      assert [ConditionName(c), x] !in Column(c, flags - {x}) by {
        forall f | f in flags - {x} ensures [ConditionName(c), f] != [ConditionName(c), x] {
          assert [ConditionName(c), f][1] == f;
        }
      }
    }
  }

  lemma SubsetSize<T>(a: set<T>, b: set<T>)
    requires a <= b
    ensures |a| <= |b|
  {
    assert b == a + (b - a);
  }

  /** Every key the melt produces pairs a condition name with a flag of the view. */
  lemma MeltKeyInGrid(view: seq<Record>, k: Key)
    requires k in ConditionKeys(Melt(view))
    ensures k in Grid(FlagSet(view))
  {
    var h, d, a := ConditionKeys(MeltColumn(view, Hipertension)), ConditionKeys(MeltColumn(view, Diabetes)),
                   ConditionKeys(MeltColumn(view, Alcoholism));
    MeltKeys(view);
    var c := if k in h then Hipertension else if k in d then Diabetes else if k in a then Alcoholism else Handcap;
    ColumnKeyInGrid(view, c, k);
  }

  /** A key of the column-`c` block pairs c's name with a flag of the view. */
  lemma ColumnKeyInGrid(view: seq<Record>, c: Condition, k: Key)
    requires k in ConditionKeys(MeltColumn(view, c))
    ensures k in Column(c, FlagSet(view))
  {
    var long := MeltColumn(view, c);
    var j :| 0 <= j < |long| && long[j].hasCondition == 1 && k == [long[j].condition, long[j].noShow];
    assert view[j].noShow in FlagSet(view);
  }

  lemma GridSize(flags: set<string>)
    ensures |Grid(flags)| <= 4 * |flags|
  {
    ColumnSize(Hipertension, flags);
    ColumnSize(Diabetes, flags);
    ColumnSize(Alcoholism, flags);
    ColumnSize(Handcap, flags);
    UnionSize(Column(Hipertension, flags), Column(Diabetes, flags));
    UnionSize(Column(Hipertension, flags) + Column(Diabetes, flags), Column(Alcoholism, flags));
    UnionSize(Column(Hipertension, flags) + Column(Diabetes, flags) + Column(Alcoholism, flags), Column(Handcap, flags));
  }

  lemma UnionSize<T>(a: set<T>, b: set<T>)
    ensures |a + b| <= |a| + |b|
  {
    assert a + b == a + (b - a);
    SubsetSize(b - a, b);
  }

  /** The distinct keys of a grouping of `keys` all lie in `grid` when every
      key does. */
  lemma DistinctKeysWithin(keys: seq<Key>, grid: set<Key>)
    requires forall k :: k in keys ==> k in grid
    ensures |GroupSizes(keys)| <= |grid|
  {
    var t := GroupSizes(keys);
    AscendingKeysDistinct(t);
    var rowKeys := set i | 0 <= i < |t| :: t[i].key;
    forall k | k in rowKeys ensures k in grid {
      var i :| 0 <= i < |t| && t[i].key == k;
      assert KeysOf(t)[i] == k;
      GroupSizesKeys(keys, k);
    }
    SubsetSize(rowKeys, grid);
  }

  /** At most one bar per (condition, flag): no more than four times the
      number of distinct flags in the view. */
  lemma ChronicRowBound(rows: seq<Record>, st: FilterState)
    ensures |ChronicNoshow(rows, st)| <= 4 * |FlagSet(View(rows, st, ChronicChart))|
  {
    var view := View(rows, st, ChronicChart);
    if view != [] {
      var keys := ConditionKeys(Melt(view));
      forall k | k in keys ensures k in Grid(FlagSet(view)) {
        MeltKeyInGrid(view, k);
      }
      DistinctKeysWithin(keys, Grid(FlagSet(view)));
      GridSize(FlagSet(view));
    }
  }

  /** With the dataset's two flags the chart has at most 4 x 2 = 8 bars. */
  lemma ChronicAtMostEight(rows: seq<Record>, st: FilterState)
    requires forall j :: 0 <= j < |rows| ==> rows[j].noShow == Yes || rows[j].noShow == No
    ensures |ChronicNoshow(rows, st)| <= 8
  {
    var view := View(rows, st, ChronicChart);
    ChronicRowBound(rows, st);
    assert FlagSet(view) <= {Yes, No} by {
      forall f | f in FlagSet(view) ensures f in {Yes, No} {
        var j :| 0 <= j < |view| && view[j].noShow == f;
        assert view[j] in rows;
      }
    }
    SubsetSize(FlagSet(view), {Yes, No});
  }
}
