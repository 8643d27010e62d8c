/** The parallel-coordinates plot's data step: for the four categorical
    dimensions each "category:number" cell is replaced in place by its
    number, and a per-dimension dictionary from number back to category is
    filled (last writer wins); the axis tick formatter looks labels up in
    it. Scales, axes and paths are drawing and are outside the model. */
module ParallelCoordinates {
  import opened Text

  /** A JavaScript number as `parseFloat` can produce it here. */
  datatype JsNumber = Num(n: nat) | NaN

  /** A CSV cell: text as loaded, or the number written back over it. */
  datatype Cell = Str(s: string) | Number(v: JsNumber)

  /** A row object: property name to value. */
  type Row = map<string, Cell>

  /** Per dimension, number to category text. */
  type Mappings = map<string, map<JsNumber, string>>

  const Dimensions: seq<string> := ["magSource", "magType", "type", "depth_category"]

  // ----- parseFloat -----

  predicate IsSpace(c: char) {
    c == ' '
  }

  function SkipSpaces(s: string): (t: string)
    ensures |t| <= |s| && t == s[|s| - |t|..]
    ensures t != [] ==> !IsSpace(t[0])
    decreases |s|
  {
    if s != [] && IsSpace(s[0]) then SkipSpaces(s[1..]) else s
  }

  /** The longest prefix of decimal digits. */
  function LeadingDigits(s: string): (t: string)
    ensures AllDigits(t) && t <= s
    ensures |t| < |s| ==> !IsDigit(s[|t|])
    decreases |s|
  {
    if s != [] && IsDigit(s[0]) then [s[0]] + LeadingDigits(s[1..]) else []
  }

  /** `parseFloat` on the text after the colon, or on `undefined` when the
      cell has no colon: leading spaces are skipped and the longest run of
      digits that follows is read; no digits gives NaN. */
  function ParseFloat(text: Option<string>): JsNumber {
    match text
    case None => NaN
    case Some(s) =>
      var digits := LeadingDigits(SkipSpaces(s));
      if digits == [] then NaN else Num(DigitsValue(digits))
  }

  /** A rendered number, after one optional space, parses back to itself. */
  lemma ParseFloatNumber(n: nat, space: bool)
    ensures ParseFloat(Some((if space then " " else "") + NatToString(n))) == Num(n)
  {
    var digits := NatToString(n);
    var s := (if space then " " else "") + digits;
    assert SkipSpaces(s) == digits by {
      if space {
        assert s[1..] == digits;
      }
    }
    AllDigitsLeading(digits);
    DigitsRoundTrip(n);
  }

  lemma {:induction false} AllDigitsLeading(s: string)
    requires AllDigits(s)
    ensures LeadingDigits(s) == s
    decreases |s|
  {
    if s != [] {
      AllDigitsLeading(s[1..]);
    }
  }

  // ----- one cell -----

  /** `const [category, numericValue] = text.split(':')`, then the number
      `parseFloat(numericValue)`. */
  function DecodeCell(text: string): (string, JsNumber) {
    var parts := Split(text, ":");
    (parts[0], ParseFloat(if |parts| > 1 then Some(parts[1]) else None))
  }

  /** The category is the text before the first colon and the number is
      parsed from the text between the first and the second colon (or the
      end). */
  lemma DecodeCellParts(category: string, number: string, rest: string)
    requires ':' !in category && ':' !in number
    requires rest == [] || rest[0] == ':'
    ensures DecodeCell(category + ":" + number + rest) == (category, ParseFloat(Some(number)))
  {
    var tail := number + rest;
    var text := category + ":" + number + rest;
    assert text == category + ":" + tail;
    NoColonFree(category);
    NoColonFree(number);
    ColonSplit(category, tail);
    var parts := Split(text, ":");
    assert parts == [category] + Split(tail, ":");
    if rest == [] {
      assert tail == number;
      SplitFree(number, ":");
      assert Split(tail, ":") == [number];
    } else {
      assert tail == number + ":" + rest[1..];
      ColonSplit(number, rest[1..]);
      assert Split(tail, ":")[0] == number;
    }
    assert parts[0] == category && parts[1] == number;
  }

  /** A cell without a colon has no number: NaN, category the whole text. */
  lemma DecodeCellNoColon(text: string)
    requires ':' !in text
    ensures DecodeCell(text) == (text, NaN)
  {
    NoColonFree(text);
    SplitFree(text, ":");
  }

  lemma NoColonFree(s: string)
    requires ':' !in s
    ensures Free(s, ":")
  {
    forall i: nat | i <= |s| ensures !OccursAt(s, ":", i) {
      if i + 1 <= |s| {
        assert s[i..i + 1][0] == s[i];
        assert s[i] in s;
      }
    }
  }

  lemma ColonSplit(a: string, b: string)
    requires Free(a, ":")
    ensures Split(a + ":" + b, ":") == [a] + Split(b, ":")
  {
    var s := a + ":" + b;
    forall k: nat | k < |a| ensures !OccursAt(s, ":", k) {
      assert !OccursAt(a, ":", k);
      assert s[k..k + 1] == a[k..k + 1];
    }
    SplitAfter(a, ":", b);
  }

  // ----- rows -----

  const DimensionSet: set<string> := set d | d in Dimensions

  /** Key `k` of the row is one of the four dimensions. */
  predicate Carries(row: Row, k: string) {
    k in row && k in DimensionSet
  }

  /** The text of a cell. The data step only meets text cells (a CSV load
      yields nothing else); on a number JavaScript's `split` would throw. */
  function CellText(c: Cell): string {
    match c
    case Str(s) => s
    case Number(_) => ""
  }

  /** The category and number of row `row`'s cell under `k`. */
  function Entry(row: Row, k: string): (string, JsNumber)
    requires k in row
  {
    DecodeCell(CellText(row[k]))
  }

  /** The row after the keys in `done` have been visited. */
  function RewriteKeys(row: Row, done: set<string>): (r: Row)
    ensures r.Keys == row.Keys
  {
    map k | k in row :: if k in done && k in DimensionSet then Number(Entry(row, k).1) else row[k]
  }

  /** The row after the inner `forEach` over all its keys. */
  function RewriteRow(row: Row): Row {
    RewriteKeys(row, row.Keys)
  }

  /** The dictionary after the keys in `done` of one row have been visited. */
  function RecordKeys(m: Mappings, row: Row, done: set<string>): (r: Mappings)
    ensures r.Keys == m.Keys + (done * row.Keys * DimensionSet)
  {
    map k | k in m.Keys + (done * row.Keys * DimensionSet) ::
      if k in done && k in row && k in DimensionSet then Updated(m, k, Entry(row, k)) else m[k]
  }

  /** Dimension `key`'s dictionary (a fresh one when missing) with `entry`
      written into it. */
  function Updated(m: Mappings, key: string, entry: (string, JsNumber)): map<JsNumber, string> {
    (if key in m then m[key] else map[])[entry.1 := entry.0]
  }

  function RecordRow(m: Mappings, row: Row): Mappings {
    RecordKeys(m, row, row.Keys)
  }

  /** The dictionary after the outer `forEach` over `rows`, in order. */
  function CategoryMappings(rows: seq<Row>): Mappings
    decreases |rows|
  {
    if rows == [] then map[] else RecordRow(CategoryMappings(rows[..|rows| - 1]), rows[|rows| - 1])
  }

  /** Only the four dimensions are rewritten, each to the number its text
      carries; every other property keeps its value. */
  lemma RewriteRowFrame(row: Row, k: string)
    requires k in row
    ensures RewriteRow(row).Keys == row.Keys
    ensures k !in Dimensions ==> RewriteRow(row)[k] == row[k]
    ensures Carries(row, k) ==> RewriteRow(row)[k] == Number(Entry(row, k).1)
  {
  }

  /** A dimension gets a dictionary iff some row carries it. */
  lemma {:induction false} MappingsDomain(rows: seq<Row>, k: string)
    ensures k in CategoryMappings(rows) <==> exists j :: 0 <= j < |rows| && Carries(rows[j], k)
    decreases |rows|
  {
    if rows != [] {
      var init := rows[..|rows| - 1];
      MappingsDomain(init, k);
      if k in CategoryMappings(init) {
        var j :| 0 <= j < |init| && Carries(init[j], k);
        assert rows[j] == init[j];
      }
      if exists j :: 0 <= j < |rows| && Carries(rows[j], k) {
        var j :| 0 <= j < |rows| && Carries(rows[j], k);
        if j < |init| {
          assert init[j] == rows[j];
        }
      }
    }
  }

  /** Last writer wins: the entry for a number is the category of the last
      row whose cell for that dimension carried that number. */
  lemma {:induction false} LastWriterWins(rows: seq<Row>, k: string, j: nat)
    requires j < |rows| && Carries(rows[j], k)
    requires forall j' :: j < j' < |rows| && Carries(rows[j'], k) ==>
               Entry(rows[j'], k).1 != Entry(rows[j], k).1
    ensures k in CategoryMappings(rows)
    ensures Entry(rows[j], k).1 in CategoryMappings(rows)[k]
    ensures CategoryMappings(rows)[k][Entry(rows[j], k).1] == Entry(rows[j], k).0
    decreases |rows|
  {
    var init, last := rows[..|rows| - 1], rows[|rows| - 1];
    if j < |rows| - 1 {
      assert init[j] == rows[j];
      forall j' | j < j' < |init| && Carries(init[j'], k)
        ensures Entry(init[j'], k).1 != Entry(init[j], k).1
      {
        assert init[j'] == rows[j'];
      }
      LastWriterWins(init, k, j);
    }
  }

  /** Every entry comes from some row: its number is that row's number and
      its text that row's category. */
  lemma {:induction false} EntriesComeFromRows(rows: seq<Row>, k: string, v: JsNumber)
    requires k in CategoryMappings(rows) && v in CategoryMappings(rows)[k]
    ensures exists j :: 0 <= j < |rows| && Carries(rows[j], k) &&
              Entry(rows[j], k) == (CategoryMappings(rows)[k][v], v)
    decreases |rows|
  {
    var init, last := rows[..|rows| - 1], rows[|rows| - 1];
    var m := CategoryMappings(rows);
    if Carries(last, k) && Entry(last, k).1 == v {
      assert Entry(rows[|rows| - 1], k) == (m[k][v], v);
    } else {
      assert k in CategoryMappings(init) && v in CategoryMappings(init)[k];
      EntriesComeFromRows(init, k, v);
      var j :| 0 <= j < |init| && Carries(init[j], k) &&
               Entry(init[j], k) == (CategoryMappings(init)[k][v], v);
      assert rows[j] == init[j];
    }
  }

  /** Visiting one more key of a row rewrites that key alone. */
  lemma RewriteStep(row: Row, done: set<string>, key: string)
    requires key in row && key !in done
    ensures RewriteKeys(row, done + {key}) ==
      if key in Dimensions then RewriteKeys(row, done)[key := Number(Entry(row, key).1)]
      else RewriteKeys(row, done)
  {
  }

  /** Visiting one more key of a row updates that dimension's dictionary
      alone, creating it first when it is missing. */
  lemma RecordStep(m: Mappings, row: Row, done: set<string>, key: string)
    requires key in row && key !in done
    ensures key !in Dimensions ==> RecordKeys(m, row, done + {key}) == RecordKeys(m, row, done)
    ensures key in Dimensions ==> RecordKeys(m, row, done + {key}) == Record(RecordKeys(m, row, done), key, Entry(row, key))
  {
    if key in Dimensions {
      RecordStepDimension(m, row, done, key);
    } else {
      RecordStepOther(m, row, done, key);
    }
  }

  lemma RecordStepOther(m: Mappings, row: Row, done: set<string>, key: string)
    requires key in row && key !in done && key !in DimensionSet
    ensures RecordKeys(m, row, done + {key}) == RecordKeys(m, row, done)
  {
    var r := RecordKeys(m, row, done);
    var r2 := RecordKeys(m, row, done + {key});
    assert (done + {key}) * row.Keys * DimensionSet == done * row.Keys * DimensionSet;
    assert r2.Keys == r.Keys;
  }

  lemma RecordStepDimension(m: Mappings, row: Row, done: set<string>, key: string)
    requires key in row && key !in done && key in DimensionSet
    ensures RecordKeys(m, row, done + {key}) == Record(RecordKeys(m, row, done), key, Entry(row, key))
  {
    var r := RecordKeys(m, row, done);
    var r2 := RecordKeys(m, row, done + {key});
    var expected := Record(r, key, Entry(row, key));
    assert Updated(r, key, Entry(row, key)) == Updated(m, key, Entry(row, key)) by {
      assert key in r ==> key in m && r[key] == m[key];
    }
    assert r2.Keys == expected.Keys;
    forall k | k in r2 ensures r2[k] == expected[k] {
      if k != key {
        assert r2[k] == r[k];
      }
    }
  }

  /** `if (!mappings[key]) mappings[key] = {}; mappings[key][value] = category`. */
  function Record(m: Mappings, key: string, entry: (string, JsNumber)): (r: Mappings)
    ensures r.Keys == m.Keys + {key}
  {
    m[key := Updated(m, key, entry)]
  }

  /** Create or update the category mapping of one dimension. */
  method Store(mappings: Mappings, key: string, category: string, value: JsNumber) returns (mappings': Mappings)
    ensures mappings' == Record(mappings, key, (category, value))
  {
    mappings' := mappings;
    if key !in mappings' {
      mappings' := mappings'[key := map[]];
    }
    mappings' := mappings'[key := mappings'[key][value := category]];
  }

  /** The inner `forEach` over the keys of row `i`, in whatever order they
      come: the row object is rewritten in place and the dictionary grows. */
  method DecodeRow(rows: array<Row>, i: nat, mappings: Mappings) returns (mappings': Mappings)
    requires i < rows.Length
    requires forall k :: k in rows[i] ==> rows[i][k].Str?
    modifies rows
    ensures rows[i] == RewriteRow(old(rows[i]))
    ensures forall j :: 0 <= j < rows.Length && j != i ==> rows[j] == old(rows[j])
    ensures mappings' == RecordRow(mappings, old(rows[i]))
  {
    var d := rows[i];
    mappings' := mappings;
    var keys := d.Keys;
    ghost var done: set<string> := {};
    while keys != {}
      invariant keys + done == d.Keys && keys !! done
      invariant rows[i] == RewriteKeys(d, done)
      invariant mappings' == RecordKeys(mappings, d, done)
      invariant forall j :: 0 <= j < rows.Length && j != i ==> rows[j] == old(rows[j])
      decreases keys
    {
      var key :| key in keys;
      RewriteStep(d, done, key);
      RecordStep(mappings, d, done, key);
      assert rows[i][key] == d[key];
      if key in Dimensions {
        assert Entry(d, key) == DecodeCell(d[key].s);
        var parts := Split(rows[i][key].s, ":");
        var category := parts[0];
        var numericValue := if |parts| > 1 then Some(parts[1]) else None;
        rows[i] := rows[i][key := Number(ParseFloat(numericValue))];
        mappings' := Store(mappings', key, category, ParseFloat(numericValue));
      }
      keys := keys - {key};
      done := done + {key};
    }
  }

  /** The fetch step: each row object is rewritten in place and the
      dictionary is filled, row by row. Rows come from a CSV load, so every
      cell is still text. */
  method DecodeRows(rows: array<Row>) returns (mappings: Mappings)
    requires forall i, k :: 0 <= i < rows.Length && k in rows[i] ==> rows[i][k].Str?
    modifies rows
    ensures forall i :: 0 <= i < rows.Length ==> rows[i] == RewriteRow(old(rows[i]))
    ensures mappings == CategoryMappings(old(rows[..]))
  {
    ghost var loaded := rows[..];
    mappings := map[];
    var i := 0;
    while i < rows.Length
      invariant 0 <= i <= rows.Length
      invariant forall j :: 0 <= j < i ==> rows[j] == RewriteRow(loaded[j])
      invariant forall j :: i <= j < rows.Length ==> rows[j] == loaded[j]
      invariant mappings == CategoryMappings(loaded[..i])
    {
      mappings := DecodeRow(rows, i, mappings);
      assert loaded[..i + 1][..i] == loaded[..i];
      i := i + 1;
    }
    assert loaded[..i] == loaded;
  }

  // ----- tick formatter -----

  /** What the formatter returns: a category, JavaScript's `undefined`, or the
      tick value itself. */
  datatype Tick = Label(text: string) | Undefined | Value(v: real)

  /** The dictionary key a tick value hits: whole non-negative values hit
      the entry for that number; no tick is NaN. */
  function TickKey(value: real): Option<JsNumber> {
    if value >= 0.0 && value == value.Floor as real then Some(Num(value.Floor)) else None
  }

  /** `categoryMappings[d] ? categoryMappings[d][value] : value`. */
  function TickFormat(mappings: Mappings, d: string, value: real): Tick {
    if d !in mappings then Value(value)
    else match TickKey(value)
      case Some(key) => if key in mappings[d] then Label(mappings[d][key]) else Undefined
      case None => Undefined
  }

  /** Without a dictionary for the dimension the raw value is shown; with
      one, a recorded number shows its category and any other value shows
      nothing (`undefined`). */
  lemma TickFormatCases(mappings: Mappings, d: string, n: nat, value: real)
    ensures d !in mappings ==> TickFormat(mappings, d, value) == Value(value)
    ensures d in mappings && Num(n) in mappings[d] ==> TickFormat(mappings, d, n as real) == Label(mappings[d][Num(n)])
    ensures d in mappings && value != value.Floor as real ==> TickFormat(mappings, d, value) == Undefined
    ensures d in mappings && Num(n) !in mappings[d] ==> TickFormat(mappings, d, n as real) == Undefined
  {
    assert (n as real).Floor == n;
  }
}
