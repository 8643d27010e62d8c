/** The preprocessing script: week bucketing of the event time, depth and
    magnitude categories, sequential ids, and the "<label>: <code>" text
    codec for label-encoded columns. Pandas, file I/O, date parsing, label
    encoder fitting and t-SNE are outside the model; the parsed month and
    day and the fitted label-to-code dictionary are inputs. */
module Preprocessing {
  import opened Text

  // ----- depth categories (categorize_depth) -----

  datatype DepthCategory = Shallow | Intermediate | Deep

  /** The text the script stores in the `depth_category` column. */
  function DepthName(c: DepthCategory): string {
    match c
    case Shallow => "shallow"
    case Intermediate => "intermediate"
    case Deep => "deep"
  }

  function CategorizeDepth(depth: real): DepthCategory {
    if depth < 70.0 then Shallow
    else if 70.0 <= depth < 300.0 then Intermediate
    else Deep
  }

  /** Every depth falls in exactly one band: shallow below 70, intermediate
      from 70 up to 300, deep from 300 on. */
  lemma DepthBands(depth: real)
    ensures CategorizeDepth(depth) == Shallow <==> depth < 70.0
    ensures CategorizeDepth(depth) == Intermediate <==> 70.0 <= depth < 300.0
    ensures CategorizeDepth(depth) == Deep <==> 300.0 <= depth
  {
  }

  /** Deeper never means a shallower category. */
  lemma DepthMonotone(d1: real, d2: real)
    requires d1 <= d2
    ensures DepthRank(CategorizeDepth(d1)) <= DepthRank(CategorizeDepth(d2))
  {
  }

  function DepthRank(c: DepthCategory): nat {
    match c
    case Shallow => 0
    case Intermediate => 1
    case Deep => 2
  }

  // ----- magnitude categories (categorize_magnitude) -----

  datatype MagnitudeCategory = Minor | Light | Moderate | Strong | Major

  /** The text the script stores in the `magnitude_category` column. */
  function MagnitudeName(c: MagnitudeCategory): string {
    match c
    case Minor => "minor"
    case Light => "light"
    case Moderate => "moderate"
    case Strong => "strong"
    case Major => "major"
  }

  /** The order minor < light < moderate < strong < major. */
  function MagnitudeRank(c: MagnitudeCategory): nat {
    match c
    case Minor => 0
    case Light => 1
    case Moderate => 2
    case Strong => 3
    case Major => 4
  }

  /** The elif chain has no final else: a magnitude of 8.0 or more falls off
      the end and the function returns Python's None. */
  function CategorizeMagnitude(magnitude: real): Option<MagnitudeCategory> {
    if magnitude < 4.0 then Some(Minor)
    else if 4.0 <= magnitude < 5.0 then Some(Light)
    else if 5.0 <= magnitude < 6.0 then Some(Moderate)
    else if 6.0 <= magnitude < 7.0 then Some(Strong)
    else if 7.0 <= magnitude < 8.0 then Some(Major)
    else None
  }

  /** A category exactly for the magnitudes below 8.0. */
  lemma MagnitudeDefined(magnitude: real)
    ensures CategorizeMagnitude(magnitude).Some? <==> magnitude < 8.0
  {
  }

  /** The bands, one unit wide from 4.0 to 8.0. */
  lemma MagnitudeBands(magnitude: real)
    ensures CategorizeMagnitude(magnitude) == Some(Minor) <==> magnitude < 4.0
    ensures CategorizeMagnitude(magnitude) == Some(Light) <==> 4.0 <= magnitude < 5.0
    ensures CategorizeMagnitude(magnitude) == Some(Moderate) <==> 5.0 <= magnitude < 6.0
    ensures CategorizeMagnitude(magnitude) == Some(Strong) <==> 6.0 <= magnitude < 7.0
    ensures CategorizeMagnitude(magnitude) == Some(Major) <==> 7.0 <= magnitude < 8.0
  {
  }

  /** A larger magnitude never gets a lower category. */
  lemma MagnitudeMonotone(m1: real, m2: real)
    requires m1 <= m2 < 8.0
    ensures CategorizeMagnitude(m1).Some? && CategorizeMagnitude(m2).Some?
    ensures MagnitudeRank(CategorizeMagnitude(m1).value) <= MagnitudeRank(CategorizeMagnitude(m2).value)
  {
  }

  /** The texts of the categories are distinct, and none holds a colon, so
      both the ": " codec and the ":" split of the charts keep them intact. */
  lemma CategoryNames()
    ensures forall c, c' :: DepthName(c) == DepthName(c') ==> c == c'
    ensures forall c, c' :: MagnitudeName(c) == MagnitudeName(c') ==> c == c'
    ensures forall c :: ':' !in DepthName(c)
    ensures forall c :: ':' !in MagnitudeName(c)
  {
  }

  // ----- month and week columns -----

  /** The month and day of a parsed event time. */
  datatype Timestamp = Timestamp(month: int, day: int)

  /** Week label of a day of the month. */
  function WeekOfDay(day: int): string {
    if 0 < day <= 7 then "1"
    else if 7 < day <= 14 then "2"
    else if 14 < day <= 21 then "3"
    else "4"
  }

  /** Days 1-7, 8-14 and 15-21 are weeks 1, 2 and 3; every other day,
      including days 29 to 31 and anything below 1, is week 4. */
  lemma WeekBands(day: int)
    ensures WeekOfDay(day) in ["1", "2", "3", "4"]
    ensures WeekOfDay(day) == "1" <==> 1 <= day <= 7
    ensures WeekOfDay(day) == "2" <==> 8 <= day <= 14
    ensures WeekOfDay(day) == "3" <==> 15 <= day <= 21
    ensures WeekOfDay(day) == "4" <==> day < 1 || 22 <= day
  {
  }

  /** The loop over the time column: appends one month and one week label
      per element, in input order. */
  method MonthsAndWeeks(times: seq<Timestamp>) returns (months: seq<int>, weeks: seq<string>)
    ensures |months| == |times| && |weeks| == |times|
    ensures forall i :: 0 <= i < |times| ==> months[i] == times[i].month
    ensures forall i :: 0 <= i < |times| ==> weeks[i] == WeekOfDay(times[i].day)
    ensures forall i :: 0 <= i < |times| ==> weeks[i] in ["1", "2", "3", "4"]
  {
    months, weeks := [], [];
    var k := 0;
    while k < |times|
      invariant 0 <= k <= |times|
      invariant |months| == k && |weeks| == k
      invariant forall i :: 0 <= i < k ==> months[i] == times[i].month
      invariant forall i :: 0 <= i < k ==> weeks[i] == WeekOfDay(times[i].day)
      invariant forall i :: 0 <= i < k ==> weeks[i] in ["1", "2", "3", "4"]
    {
      var dt := times[k];
      months := months + [dt.month];
      var day := dt.day;
      if 0 < day <= 7 {
        weeks := weeks + ["1"];
      } else if 7 < day <= 14 {
        weeks := weeks + ["2"];
      } else if 14 < day <= 21 {
        weeks := weeks + ["3"];
      } else {
        weeks := weeks + ["4"];
      }
      k := k + 1;
    }
  }

  // ----- ids -----

  /** `list(range(n))`. */
  function Range(n: nat): (ids: seq<nat>)
    ensures |ids| == n
    ensures forall i :: 0 <= i < n ==> ids[i] == i
    decreases n
  {
    if n == 0 then [] else Range(n - 1) + [n - 1]
  }

  /** The ids given to the n rows after the index reset are 0..n-1 in row
      order, each row gets a different one, and every value below n is used. */
  lemma IdsDistinct(n: nat)
    ensures forall i, j :: 0 <= i < j < n ==> Range(n)[i] != Range(n)[j]
    ensures forall id: nat :: id < n ==> id in Range(n)
  {
    forall id: nat | id < n ensures id in Range(n) {
      assert Range(n)[id] == id;
    }
  }

  // ----- "<label>: <code>" codec -----

  datatype PyError = KeyError | IndexError | ValueError

  datatype Result<T> = Ok(value: T) | Err(error: PyError)

  const CodeSeparator := ": "

  /** `f"{x}: {mapping[x]}"`; a label the dictionary lacks raises KeyError. */
  function EncodeLabel(x: string, mapping: map<string, nat>): Result<string> {
    if x in mapping then Ok(x + CodeSeparator + NatToString(mapping[x]))
    else Err(KeyError)
  }

  /** Python `int` on text: an optional sign and at least one decimal digit;
      anything else raises ValueError. */
  function PyInt(s: string): (r: Option<int>)
    ensures r.Some? <==> (|s| > 0 && AllDigits(s)) || (|s| > 1 && s[0] in "+-" && AllDigits(s[1..]))
  {
    if |s| > 1 && s[0] == '-' && AllDigits(s[1..]) then Some(-(DigitsValue(s[1..]) as int))
    else if |s| > 1 && s[0] == '+' && AllDigits(s[1..]) then Some(DigitsValue(s[1..]))
    else if |s| > 0 && AllDigits(s) then Some(DigitsValue(s))
    else None
  }

  /** `int(x.split(': ')[1])`: IndexError when there is no ": ", ValueError
      when the second part is not an integer. */
  function DecodeCode(s: string): Result<int> {
    var parts := Split(s, CodeSeparator);
    if |parts| < 2 then Err(IndexError)
    else match PyInt(parts[1])
      case None => Err(ValueError)
      case Some(n) => Ok(n)
  }

  /** No ": " can start inside a label free of ": " once ": " follows it. */
  lemma SeparatorAfterLabel(x: string, rest: string)
    requires Free(x, CodeSeparator)
    ensures forall k: nat :: k < |x| ==> !OccursAt(x + CodeSeparator + rest, CodeSeparator, k)
  {
    var s := x + CodeSeparator + rest;
    forall k: nat | k < |x| ensures !OccursAt(s, CodeSeparator, k) {
      if k + 1 < |x| {
        assert !OccursAt(x, CodeSeparator, k);
        assert s[k..k + 2] == x[k..k + 2];
      } else {
        assert s[k + 1] == ':';
      }
    }
  }

  /** Round trip: decoding an encoded label gives back its code, provided the
      label does not itself contain ": ". */
  lemma {:induction false} CodecRoundTrip(x: string, code: nat)
    requires Free(x, CodeSeparator)
    ensures DecodeCode(x + CodeSeparator + NatToString(code)) == Ok(code)
  {
    var digits := NatToString(code);
    SeparatorAfterLabel(x, digits);
    SplitAfter(x, CodeSeparator, digits);
    DigitsFree(digits, CodeSeparator);
    SplitFree(digits, CodeSeparator);
    DigitsRoundTrip(code);
  }

  /** `df[col].map(lambda x: f"{x}: {mapping[x]}")`. */
  function EncodeColumn(col: seq<string>, mapping: map<string, nat>): (r: Result<seq<string>>)
    ensures r.Ok? <==> forall i :: 0 <= i < |col| ==> col[i] in mapping
    ensures r.Err? ==> r.error == KeyError
    ensures r.Ok? ==> |r.value| == |col|
    ensures r.Ok? ==> forall i :: 0 <= i < |col| ==> Ok(r.value[i]) == EncodeLabel(col[i], mapping)
    decreases |col|
  {
    if col == [] then Ok([])
    else match EncodeLabel(col[0], mapping)
      case Err(e) => Err(e)
      case Ok(head) =>
        match EncodeColumn(col[1..], mapping)
        case Err(e) => Err(e)
        case Ok(tail) => Ok([head] + tail)
  }

  /** `df[col].apply(lambda x: int(x.split(': ')[1]))`; the first failing
      cell's error is the column's. */
  function DecodeColumn(col: seq<string>): (r: Result<seq<int>>)
    ensures r.Ok? <==> forall i :: 0 <= i < |col| ==> DecodeCode(col[i]).Ok?
    ensures r.Err? ==>
      exists i :: 0 <= i < |col| && DecodeCode(col[i]) == Err(r.error) && (forall j :: 0 <= j < i ==> DecodeCode(col[j]).Ok?)
    ensures r.Ok? ==> |r.value| == |col|
    ensures r.Ok? ==> forall i :: 0 <= i < |col| ==> DecodeCode(col[i]) == Ok(r.value[i])
    decreases |col|
  {
    if col == [] then Ok([])
    else match DecodeCode(col[0])
      case Err(e) => Err(e)
      case Ok(head) =>
        match DecodeColumn(col[1..])
        case Err(e) => Err(e)
        case Ok(tail) => Ok([head] + tail)
  }

  /** Encoding a column whose labels the dictionary knows and which hold no
      ": " and decoding it again gives each row's code. */
  lemma {:induction false} ColumnRoundTrip(col: seq<string>, mapping: map<string, nat>)
    requires forall i :: 0 <= i < |col| ==> col[i] in mapping && Free(col[i], CodeSeparator)
    ensures EncodeColumn(col, mapping).Ok?
    ensures DecodeColumn(EncodeColumn(col, mapping).value) == Ok(CodesOf(col, mapping))
    decreases |col|
  {
    if col != [] {
      CodecRoundTrip(col[0], mapping[col[0]]);
      ColumnRoundTrip(col[1..], mapping);
      var enc := EncodeColumn(col, mapping).value;
      assert enc == [col[0] + CodeSeparator + NatToString(mapping[col[0]])] + EncodeColumn(col[1..], mapping).value;
      assert enc[1..] == EncodeColumn(col[1..], mapping).value;
      assert CodesOf(col, mapping) == [mapping[col[0]] as int] + CodesOf(col[1..], mapping);
    }
  }

  /** The code of each row's label. */
  function CodesOf(col: seq<string>, mapping: map<string, nat>): seq<int>
    requires forall i :: 0 <= i < |col| ==> col[i] in mapping
  {
    seq(|col|, i requires 0 <= i < |col| => mapping[col[i]] as int)
  }
}
