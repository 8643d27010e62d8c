/** How the preprocessing output feeds the charts: the "<label>: <code>"
    cells the script writes are read back by the parallel-coordinates plot,
    the magnitude categories drive the scatterplot fill, and the month and
    week columns would drive the heatmap counts if the heatmap were given
    the script's CSV. As the grid mounts it, the heatmap gets no `csvUrl`
    and counts nothing (`UnfedHeatmapCountsNothing`). */
module Pipeline {
  import opened Text
  import P = Preprocessing
  import H = TimeHeatmap
  import PC = ParallelCoordinates
  import S = TsneScatterplot

  // ----- label codec: Python encoder, JavaScript decoder -----

  /** The plot's `split(':')` and `parseFloat` undo the script's
      `f"{x}: {code}"` for a label without a colon. */
  lemma {:induction false} DecodeEncoded(x: string, code: nat)
    requires ':' !in x
    ensures PC.DecodeCell(x + P.CodeSeparator + NatToString(code)) == (x, PC.Num(code))
  {
    var digits := NatToString(code);
    var number := " " + digits;
    assert ':' !in number by {
      forall i | 0 <= i < |number| ensures number[i] != ':' {
        if i > 0 {
          assert number[i] == digits[i - 1];
        }
      }
    }
    assert x + P.CodeSeparator + digits == x + ":" + number + [];
    PC.DecodeCellParts(x, number, []);
    PC.ParseFloatNumber(code, true);
  }

  /** The label the script writes for a known label is decoded to that
      label and its code. */
  lemma EncodeLabelDecodes(x: string, mapping: map<string, nat>)
    requires x in mapping && ':' !in x
    ensures P.EncodeLabel(x, mapping).Ok?
    ensures PC.DecodeCell(P.EncodeLabel(x, mapping).value) == (x, PC.Num(mapping[x]))
  {
    DecodeEncoded(x, mapping[x]);
  }

  /** Every depth category survives the round trip through the codec. */
  lemma DepthCategoryDecodes(c: P.DepthCategory, mapping: map<string, nat>)
    requires P.DepthName(c) in mapping
    ensures PC.DecodeCell(P.EncodeLabel(P.DepthName(c), mapping).value) == (P.DepthName(c), PC.Num(mapping[P.DepthName(c)]))
  {
    P.CategoryNames();
    EncodeLabelDecodes(P.DepthName(c), mapping);
  }

  /** A label encoder's dictionary gives different labels different codes. */
  predicate Injective(mapping: map<string, nat>) {
    forall x, y :: x in mapping && y in mapping && x != y ==> mapping[x] != mapping[y]
  }

  /** Row `row` holds, under dimension `k`, the encoded form of some label
      of the dictionary that contains no colon. */
  predicate EncodedCell(row: PC.Row, k: string, mapping: map<string, nat>) {
    k in row && row[k].Str? &&
    exists x :: x in mapping && ':' !in x && row[k].s == x + P.CodeSeparator + NatToString(mapping[x])
  }

  /** A number some row carried under `k` ends up in `k`'s dictionary. */
  lemma {:induction false} EntryPresent(rows: seq<PC.Row>, k: string, j: nat)
    requires j < |rows| && PC.Carries(rows[j], k)
    ensures k in PC.CategoryMappings(rows)
    ensures PC.Entry(rows[j], k).1 in PC.CategoryMappings(rows)[k]
    decreases |rows|
  {
    var init := rows[..|rows| - 1];
    if j < |rows| - 1 {
      assert init[j] == rows[j];
      EntryPresent(init, k, j);
    }
  }

  /** End to end: when every row's cell for a dimension was written by the
      script from an injective dictionary, the plot's dictionary maps each
      code back to the label it was encoded from, whichever row wrote last,
      and the axis tick for that code shows the label. */
  lemma CodesDecodeToLabels(rows: seq<PC.Row>, k: string, mapping: map<string, nat>, j: nat)
    requires Injective(mapping) && k in PC.DimensionSet
    requires forall i :: 0 <= i < |rows| && k in rows[i] ==> EncodedCell(rows[i], k, mapping)
    requires j < |rows| && k in rows[j]
    ensures var x := PC.Entry(rows[j], k).0;
      x in mapping &&
      k in PC.CategoryMappings(rows) &&
      PC.Num(mapping[x]) in PC.CategoryMappings(rows)[k] &&
      PC.CategoryMappings(rows)[k][PC.Num(mapping[x])] == x &&
      PC.TickFormat(PC.CategoryMappings(rows), k, mapping[x] as real) == PC.Label(x)
  {
    var m := PC.CategoryMappings(rows);
    var x :| x in mapping && ':' !in x && rows[j][k].s == x + P.CodeSeparator + NatToString(mapping[x]);
    DecodeEncoded(x, mapping[x]);
    assert PC.Entry(rows[j], k) == (x, PC.Num(mapping[x]));
    EntryPresent(rows, k, j);
    var v := PC.Num(mapping[x]);
    PC.EntriesComeFromRows(rows, k, v);
    var i :| 0 <= i < |rows| && PC.Carries(rows[i], k) && PC.Entry(rows[i], k) == (m[k][v], v);
    var y :| y in mapping && ':' !in y && rows[i][k].s == y + P.CodeSeparator + NatToString(mapping[y]);
    DecodeEncoded(y, mapping[y]);
    assert mapping[y] == mapping[x];
    PC.TickFormatCases(m, k, mapping[x], mapping[x] as real);
  }

  // ----- magnitude category to scatterplot fill -----

  /** The `magnitude_category` cell of the exported CSV: the category text,
      or an empty cell where the script produced None. */
  function MagnitudeCell(magnitude: real): string {
    match P.CategorizeMagnitude(magnitude)
    case Some(c) => P.MagnitudeName(c)
    case None => ""
  }

  /** A point is drawn black exactly when its magnitude is 8.0 or more;
      otherwise it gets the table colour of its category. */
  lemma FillFromMagnitude(magnitude: real)
    ensures S.FillColor(Some(MagnitudeCell(magnitude))) == S.Fallback <==> 8.0 <= magnitude
    ensures magnitude < 8.0 ==>
      exists i :: 0 <= i < |S.ColorTable| && S.ColorTable[i].0 == MagnitudeCell(magnitude) &&
        S.FillColor(Some(MagnitudeCell(magnitude))) == S.ColorTable[i].1
  {
    var cell := MagnitudeCell(magnitude);
    if magnitude < 8.0 {
      var i: nat := match P.CategorizeMagnitude(magnitude).value
        case Minor => 0 case Light => 1 case Moderate => 2 case Strong => 3 case Major => 4;
      assert S.ColorTable[i].0 == cell;
      S.FillKnown(i);
    } else {
      S.FillUnknown(Some(cell));
    }
  }

  // ----- month and week columns to heatmap counts -----

  /** `+row.week` on a week label; text that is not a number gives NaN in
      JavaScript, which fails the range guard just as 0 does. */
  function WeekNumber(week: string): int {
    if AllDigits(week) then DigitsValue(week) else 0
  }

  /** The heatmap row the script's columns produce for one event. */
  function HeatmapRow(t: P.Timestamp): H.CsvRow {
    H.CsvRow(t.month, WeekNumber(P.WeekOfDay(t.day)))
  }

  function HeatmapRows(times: seq<P.Timestamp>): (rows: seq<H.CsvRow>)
    ensures |rows| == |times|
    ensures forall i :: 0 <= i < |times| ==> rows[i] == HeatmapRow(times[i])
  {
    seq(|times|, i requires 0 <= i < |times| => HeatmapRow(times[i]))
  }

  /** If the heatmap is fed the script's CSV (the corrected mounting),
      every week label is in range, so every event with a calendar month is
      counted once: the cells add up to the number of events. */
  lemma {:induction false} EveryEventCounted(times: seq<P.Timestamp>)
    requires forall i :: 0 <= i < |times| ==> 1 <= times[i].month <= 12
    ensures H.CountInRange(HeatmapRows(times)) == |times|
    ensures H.GridSum(H.Counts(HeatmapRows(times))) == |times|
    decreases |times|
  {
    if times != [] {
      var init := times[..|times| - 1];
      EveryEventCounted(init);
      assert HeatmapRows(times)[..|times| - 1] == HeatmapRows(init);
      var week := P.WeekOfDay(times[|times| - 1].day);
      P.WeekBands(times[|times| - 1].day);
      assert 1 <= WeekNumber(week) <= 4 by {
        assert week in ["1", "2", "3", "4"];
        if week == "1" { assert DigitsValue(week) == 1 by { assert week[..0] == []; } }
        else if week == "2" { assert DigitsValue(week) == 2 by { assert week[..0] == []; } }
        else if week == "3" { assert DigitsValue(week) == 3 by { assert week[..0] == []; } }
        else { assert DigitsValue(week) == 4 by { assert week[..0] == []; } }
      }
      assert H.InRange(HeatmapRows(times)[|times| - 1]);
    }
    H.TotalIsInRange(HeatmapRows(times));
  }

  // ----- the heatmap as mounted -----

  /** A row of whatever `d3.csv(undefined)` loads: it has no `month` or
      `week` column, so `+row.month` and `+row.week` are NaN, which fails
      every comparison of the range guard just as month 0 does. */
  const RowWithoutColumns := H.CsvRow(0, 0)

  /** As mounted without a `csvUrl`, no loaded row carries a month or a
      week: however many rows load, every cell stays 0 and no event of the
      script's dataset is counted. */
  lemma {:induction false} UnfedHeatmapCountsNothing(loaded: nat)
    ensures H.Counts(seq(loaded, _ => RowWithoutColumns)) == H.Zeros()
    ensures H.GridSum(H.Counts(seq(loaded, _ => RowWithoutColumns))) == 0
  {
    H.NothingInRangeCountsNothing(seq(loaded, _ => RowWithoutColumns));
  }
}
