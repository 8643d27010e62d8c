/** The t-SNE scatterplot's styling: the magnitude-category colour table
    with its black fallback, the constant point radius, and the legend built
    from the table. Scales, axes and the numeric conversion of the
    coordinates are outside the model. */
module TsneScatterplot {
  import opened Text

  /** `magnitudeCategoryColorMap`, in its declaration order. */
  const ColorTable: seq<(string, string)> := [
    ("minor", "#FFFF33"),
    ("light", "green"),
    ("moderate", "#8B4000"),
    ("strong", "red"),
    ("major", "purple")
  ]

  const Fallback := "#000000"

  /** Property lookup in a table of distinct keys. */
  function Lookup(table: seq<(string, string)>, key: string): (r: Option<string>)
    ensures r.Some? <==> exists i :: 0 <= i < |table| && table[i].0 == key
    ensures r.Some? ==> exists i :: 0 <= i < |table| && table[i] == (key, r.value)
    decreases |table|
  {
    if table == [] then None
    else if table[0].0 == key then Some(table[0].1)
    else
      var r := Lookup(table[1..], key);
      assert forall i :: 0 < i < |table| ==> table[i] == table[1..][i - 1];
      r
  }

  /** The keys of the table, which are distinct. */
  lemma ColorTableKeys()
    ensures forall i, j :: 0 <= i < j < |ColorTable| ==> ColorTable[i].0 != ColorTable[j].0
  {
  }

  /** The fill of a point whose `magnitude_category` is `category` (None
      when the property is missing): `magnitudeCategoryColorMap[category] ||
      "#000000"`. */
  function FillColor(category: Option<string>): string {
    match category
    case None => Fallback
    case Some(c) =>
      match Lookup(ColorTable, c)
      case Some(color) => if color != "" then color else Fallback
      case None => Fallback
  }

  /** Each of the five categories gets its table colour. */
  lemma FillKnown(i: nat)
    requires i < |ColorTable|
    ensures FillColor(Some(ColorTable[i].0)) == ColorTable[i].1
  {
    ColorTableKeys();
    var key := ColorTable[i].0;
    var r := Lookup(ColorTable, key);
    var j :| 0 <= j < |ColorTable| && ColorTable[j] == (key, r.value);
  }

  /** A missing or unknown category is drawn black. */
  lemma FillUnknown(category: Option<string>)
    requires category.Some? ==> forall i :: 0 <= i < |ColorTable| ==> ColorTable[i].0 != category.value
    ensures FillColor(category) == Fallback
  {
  }

  /** Circle attributes from the data. */
  datatype Circle = Circle(radius: nat, fill: string)

  /** `.attr("r", 3)`: the radius does not depend on the point. */
  function PointCircle(category: Option<string>): (c: Circle)
    ensures c.radius == 3
    ensures c.fill == FillColor(category)
  {
    Circle(3, FillColor(category))
  }

  /** Every point is drawn with the same radius. */
  lemma SameRadius(c1: Option<string>, c2: Option<string>)
    ensures PointCircle(c1).radius == PointCircle(c2).radius
  {
  }

  // ----- legend -----

  /** ASCII upper-casing of one character. */
  function ToUpper(c: char): char {
    if 'a' <= c <= 'z' then (c as int - 32) as char else c
  }

  /** `key.charAt(0).toUpperCase() + key.slice(1)`. */
  function Capitalize(key: string): (caption: string)
    ensures |caption| == |key|
    ensures |key| > 0 ==> caption[0] == ToUpper(key[0]) && caption[1..] == key[1..]
  {
    if key == [] then [] else [ToUpper(key[0])] + key[1..]
  }

  datatype LegendItem = LegendItem(caption: string, color: string)

  /** `Object.entries(magnitudeCategoryColorMap).map(...)`. */
  function Legend(table: seq<(string, string)>): (items: seq<LegendItem>)
    decreases |table|
  {
    if table == [] then [] else [LegendItem(Capitalize(table[0].0), table[0].1)] + Legend(table[1..])
  }

  /** One legend item per table entry, in table order, with the entry's
      colour and its key capitalised. */
  lemma {:induction false} LegendMatchesTable(table: seq<(string, string)>)
    ensures |Legend(table)| == |table|
    ensures forall i :: 0 <= i < |table| ==> Legend(table)[i] == LegendItem(Capitalize(table[i].0), table[i].1)
    decreases |table|
  {
    if table != [] {
      LegendMatchesTable(table[1..]);
    }
  }

  /** The legend reads Minor, Light, Moderate, Strong, Major. */
  lemma LegendLabels()
    ensures Legend(ColorTable) == [
      LegendItem("Minor", "#FFFF33"),
      LegendItem("Light", "green"),
      LegendItem("Moderate", "#8B4000"),
      LegendItem("Strong", "red"),
      LegendItem("Major", "purple")
    ]
  {
    LegendMatchesTable(ColorTable);
    CapitalizeWord("minor", "Minor");
    CapitalizeWord("light", "Light");
    CapitalizeWord("moderate", "Moderate");
    CapitalizeWord("strong", "Strong");
    CapitalizeWord("major", "Major");
  }

  lemma CapitalizeWord(key: string, caption: string)
    requires |key| > 0 && |caption| == |key| && caption[0] == ToUpper(key[0]) && caption[1..] == key[1..]
    ensures Capitalize(key) == caption
  {
    assert Capitalize(key) == [caption[0]] + caption[1..];
  }
}
