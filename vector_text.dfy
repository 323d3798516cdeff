/** `convertJsonToVectorText` of the page-approval function
    (supabase/functions/approve-ocr-pages/index.ts): the text stored for
    vector search, built from a page's OCR result. The page context comes
    first; a table follows as "## category" headers, "### row" headings and
    one "- product: value" line per filled cell. */
module VectorText {
  import opened Wrappers
  import opened Text

  datatype Column = Column(group: Option<string>, columnLabel: string)

  datatype OcrRow = OcrRow(category: string, rowLabel: string, values: seq<Option<string>>)

  datatype OcrTable = OcrTable(hasTable: bool, columns: seq<Column>, rows: seq<OcrRow>)

  /** The OCR result of one page. A missing legend is an empty one. */
  datatype OcrContent = OcrContent(pageContext: Option<string>, legend: map<string, string>, table: Option<OcrTable>)

  /** JavaScript truthiness of a string. */
  predicate Filled(s: string) {
    s != ""
  }

  /** Every filled value has a column; the source reads `cols[index]` for it
      and fails without one. */
  predicate ValuesInColumns(values: seq<Option<string>>, columns: seq<Column>) {
    forall i :: 0 <= i < |values| && values[i].Some? && Filled(values[i].value) ==> i < |columns|
  }

  predicate RowsInColumns(rows: seq<OcrRow>, columns: seq<Column>) {
    forall k :: 0 <= k < |rows| ==> ValuesInColumns(rows[k].values, columns)
  }

  /** The table is rendered: present and flagged. */
  predicate RendersTable(c: OcrContent) {
    c.table.Some? && c.table.value.hasTable
  }

  /** What the conversion demands of its input. */
  predicate WellFormed(c: OcrContent) {
    RendersTable(c) ==> RowsInColumns(c.table.value.rows, c.table.value.columns)
  }

  /** "{group} - {label}", or the label alone without a group. */
  function ProductName(col: Column): string {
    if col.group.Some? && Filled(col.group.value) then col.group.value + " - " + col.columnLabel else col.columnLabel
  }

  /** " ({meaning})" when the legend explains the value, else nothing. */
  function Meaning(legend: map<string, string>, val: string): string {
    if val in legend && Filled(legend[val]) then " (" + legend[val] + ")" else ""
  }

  /** The line for one filled value. */
  function ValueLine(col: Column, val: string, legend: map<string, string>): string {
    "- " + ProductName(col) + ": " + val + Meaning(legend, val) + "\n"
  }

  /** The lines for the values of one row, in column order. */
  function ValueLines(values: seq<Option<string>>, columns: seq<Column>, legend: map<string, string>): string
    requires ValuesInColumns(values, columns)
    decreases |values|
  {
    if |values| == 0 then ""
    else
      var n := |values| - 1;
      ValueLines(values[..n], columns, legend)
      + (if values[n].Some? && Filled(values[n].value) then ValueLine(columns[n], values[n].value, legend) else "")
  }

  /** The category in force after a row: a filled category replaces it, an
      empty one leaves it. */
  function NextCategory(current: string, row: OcrRow): string {
    if Filled(row.category) && row.category != current then row.category else current
  }

  /** The category in force after the rows, starting from none. */
  function CategoryAfter(rows: seq<OcrRow>): string
    decreases |rows|
  {
    if |rows| == 0 then "" else NextCategory(CategoryAfter(rows[..|rows| - 1]), rows[|rows| - 1])
  }

  /** The "## " header a row opens with, if its category changes. */
  function Header(current: string, row: OcrRow): string {
    if Filled(row.category) && row.category != current then "## " + row.category + "\n\n" else ""
  }

  /** The text for one row. */
  function RowBlock(row: OcrRow, current: string, columns: seq<Column>, legend: map<string, string>): string
    requires ValuesInColumns(row.values, columns)
  {
    Header(current, row) + "### " + row.rowLabel + "\n" + ValueLines(row.values, columns, legend) + "\n"
  }

  /** The text for the rows, in order. */
  function RowsText(rows: seq<OcrRow>, columns: seq<Column>, legend: map<string, string>): string
    requires RowsInColumns(rows, columns)
    decreases |rows|
  {
    if |rows| == 0 then ""
    else
      var n := |rows| - 1;
      RowsText(rows[..n], columns, legend) + RowBlock(rows[n], CategoryAfter(rows[..n]), columns, legend)
  }

  /** The untrimmed text. */
  function RawText(c: OcrContent): string
    requires WellFormed(c)
  {
    var context := c.pageContext.GetOr("");
    if RendersTable(c) then context + "\n\n" + RowsText(c.table.value.rows, c.table.value.columns, c.legend)
    else context
  }

  /** The text stored for the page. */
  function VectorTextOf(c: OcrContent): (r: string)
    requires WellFormed(c)
    ensures r == [] || (!IsSpace(r[0]) && !IsSpace(r[|r| - 1]))
    ensures Trim(r) == r
  {
    TrimIdempotent(RawText(c));
    Trim(RawText(c))
  }

  lemma AppendAssoc(a: string, b: string, c: string)
    ensures a + (b + c) == (a + b) + c
  {
  }

  /** The lines of one more value are the lines so far and that value's line. */
  lemma ValueLinesStep(values: seq<Option<string>>, columns: seq<Column>, legend: map<string, string>, i: nat)
    requires ValuesInColumns(values, columns) && i < |values|
    ensures ValuesInColumns(values[..i], columns) && ValuesInColumns(values[..i + 1], columns)
    ensures ValueLines(values[..i + 1], columns, legend) == ValueLines(values[..i], columns, legend)
      + (if values[i].Some? && Filled(values[i].value) then ValueLine(columns[i], values[i].value, legend) else "")
  {
    assert values[..i + 1][..i] == values[..i];
  }

  /** The text of one more row is the text so far and that row's block. */
  lemma RowsTextStep(rows: seq<OcrRow>, columns: seq<Column>, legend: map<string, string>, k: nat)
    requires RowsInColumns(rows, columns) && k < |rows|
    ensures RowsInColumns(rows[..k], columns) && RowsInColumns(rows[..k + 1], columns)
    ensures CategoryAfter(rows[..k + 1]) == NextCategory(CategoryAfter(rows[..k]), rows[k])
    ensures RowsText(rows[..k + 1], columns, legend)
         == RowsText(rows[..k], columns, legend) + RowBlock(rows[k], CategoryAfter(rows[..k]), columns, legend)
  {
    assert rows[..k + 1][..k] == rows[..k];
  }

  /** The body of the `forEach`: the line for the value at `index`, or
      nothing when the value is empty. */
  method LineFor(val: Option<string>, cols: seq<Column>, index: nat, legend: map<string, string>) returns (line: string)
    requires val.Some? && Filled(val.value) ==> index < |cols|
    ensures line == if val.Some? && Filled(val.value) then ValueLine(cols[index], val.value, legend) else ""
  {
    line := "";
    if val.Some? && Filled(val.value) {
      var col := cols[index];
      var productName := ProductName(col);
      var meaning := Meaning(legend, val.value);
      line := "- " + productName + ": " + val.value + meaning + "\n";
    }
  }

  /** The `forEach` over one row's values: append a line per filled value. */
  method AppendValueLines(output: string, values: seq<Option<string>>, cols: seq<Column>, legend: map<string, string>)
    returns (o: string)
    requires ValuesInColumns(values, cols)
    ensures o == output + ValueLines(values, cols, legend)
  {
    o := output;
    var i := 0;
    while i < |values|
      invariant 0 <= i <= |values|
      invariant ValuesInColumns(values[..i], cols)
      invariant o == output + ValueLines(values[..i], cols, legend)
    {
      ValueLinesStep(values, cols, legend, i);
      var line := LineFor(values[i], cols, i, legend);
      AppendAssoc(output, ValueLines(values[..i], cols, legend), line);
      o := o + line;
      i := i + 1;
    }
    assert values[..i] == values;
  }

  /** One pass of the row loop: the header if the category changes, the
      heading, the value lines and the closing blank line. */
  method AppendRow(output: string, currentCategory: string, row: OcrRow, cols: seq<Column>, legend: map<string, string>)
    returns (o: string, category: string)
    requires ValuesInColumns(row.values, cols)
    ensures o == output + RowBlock(row, currentCategory, cols, legend)
    ensures category == NextCategory(currentCategory, row)
  {
    category := currentCategory;
    var header := "";
    if Filled(row.category) && row.category != category {
      category := row.category;
      header := "## " + category + "\n\n";
    }
    var lines := AppendValueLines("", row.values, cols, legend);
    assert "" + ValueLines(row.values, cols, legend) == ValueLines(row.values, cols, legend);
    o := output + (header + "### " + row.rowLabel + "\n" + lines + "\n");
  }

  /** `convertJsonToVectorText`: the same text, built by appending to the
      output row by row and value by value. */
  method ConvertJsonToVectorText(c: OcrContent) returns (text: string)
    requires WellFormed(c)
    ensures text == VectorTextOf(c)
  {
    var output := c.pageContext.GetOr("");
    if c.table.Some? && c.table.value.hasTable {
      output := output + "\n\n";
      var cols := c.table.value.columns;
      var rows := c.table.value.rows;
      var start := output;
      var currentCategory := "";
      var k := 0;
      while k < |rows|
        invariant 0 <= k <= |rows|
        invariant currentCategory == CategoryAfter(rows[..k])
        invariant output == start + RowsText(rows[..k], cols, c.legend)
      {
        RowsTextStep(rows, cols, c.legend, k);
        var block := RowBlock(rows[k], currentCategory, cols, c.legend);
        AppendAssoc(start, RowsText(rows[..k], cols, c.legend), block);
        output, currentCategory := AppendRow(output, currentCategory, rows[k], cols, c.legend);
        k := k + 1;
      }
      assert rows[..k] == rows;
    }
    text := Trim(output);
  }

  // ---------------------------------------------------------------------
  // properties

  /** Without a rendered table the text is the trimmed page context, "" when
      there is none. */
  lemma NoTableGivesContext(c: OcrContent)
    requires !RendersTable(c)
    ensures VectorTextOf(c) == Trim(c.pageContext.GetOr(""))
  {
  }

  /** The category in force is that of the last row with a filled category,
      or none. */
  function LastFilledCategory(rows: seq<OcrRow>): string
    decreases |rows|
  {
    if |rows| == 0 then ""
    else if Filled(rows[|rows| - 1].category) then rows[|rows| - 1].category
    else LastFilledCategory(rows[..|rows| - 1])
  }

  lemma {:induction false} CategoryAfterIsLastFilled(rows: seq<OcrRow>)
    ensures CategoryAfter(rows) == LastFilledCategory(rows)
    decreases |rows|
  {
    if |rows| > 0 {
      CategoryAfterIsLastFilled(rows[..|rows| - 1]);
    }
  }

  /** A row opens a header exactly when its category is filled and differs
      from the last filled category before it; so a row with an empty
      category never resets the category in force, and a row repeating the
      previous filled category gets no header. */
  lemma HeaderOnlyOnChange(rows: seq<OcrRow>, k: int)
    requires 0 <= k < |rows|
    ensures Header(CategoryAfter(rows[..k]), rows[k]) != "" <==>
              Filled(rows[k].category) && rows[k].category != LastFilledCategory(rows[..k])
    ensures !Filled(rows[k].category) ==> CategoryAfter(rows[..k + 1]) == CategoryAfter(rows[..k])
    ensures k > 0 && Filled(rows[k - 1].category) && rows[k].category == rows[k - 1].category ==>
              Header(CategoryAfter(rows[..k]), rows[k]) == ""
  {
    CategoryAfterIsLastFilled(rows[..k]);
    assert rows[..k + 1][..k] == rows[..k];
    if k > 0 {
      assert rows[..k][..k - 1] == rows[..k - 1];
    }
  }

  /** A value line is written for exactly the filled values: with no filled
      value, a row contributes only its heading and the blank line. */
  lemma {:induction false} EmptyValuesWriteNothing(values: seq<Option<string>>, columns: seq<Column>, legend: map<string, string>)
    requires forall i :: 0 <= i < |values| ==> values[i].None? || !Filled(values[i].value)
    ensures ValuesInColumns(values, columns)
    ensures ValueLines(values, columns, legend) == ""
    decreases |values|
  {
    if |values| > 0 {
      EmptyValuesWriteNothing(values[..|values| - 1], columns, legend);
    }
  }

  /** One filled value in a row, with its column's group and the legend
      entry: "- {group} - {label}: {value} ({meaning})". */
  lemma OneValueLine(group: string, columnLabel: string, val: string, meaning: string)
    requires group != "" && val != "" && meaning != ""
    ensures ValueLines([Some(val)], [Column(Some(group), columnLabel)], map[val := meaning])
            == "- " + group + " - " + columnLabel + ": " + val + " (" + meaning + ")\n"
  {
    var values := [Some(val)];
    var cols := [Column(Some(group), columnLabel)];
    var legend := map[val := meaning];
    assert values[..0] == [];
    assert ValueLines(values[..0], cols, legend) == "";
    assert ProductName(cols[0]) == group + " - " + columnLabel;
    assert Meaning(legend, val) == " (" + meaning + ")";
  }
}
