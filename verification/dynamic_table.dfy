/** The schema-driven table (src/components/DynamicDataTable.tsx): positional
    rows become records keyed `col_<i>`, columns get the matching accessors,
    and each cell is rendered according to its column's semantic type. */
module DynamicTable {

  import opened Values
  import opened Text
  import DataTable

  /** A column of the view: its title and its semantic type
      (`string`, `number`, `boolean`, `datetime`, `duration`, or anything else). */
  datatype ColumnDef = ColumnDef(name: string, kind: string)

  // ---------------------------------------------------------------------
  // Adapting columns and rows

  /** `col_${i}`. */
  function Accessor(i: nat): (key: string)
    ensures |key| > 4 && key[..4] == "col_"
  {
    "col_" + NatToString(i)
  }

  /** Different positions have different accessors. */
  lemma AccessorInjective(i: nat, j: nat)
    requires Accessor(i) == Accessor(j)
    ensures i == j
  {
    assert Accessor(i)[4..] == NatToString(i);
    assert Accessor(j)[4..] == NatToString(j);
    NatToStringInjective(i, j);
  }

  /** The renderer every adapted column carries: `(value) => renderCellValue(value, col)`. */
  function CellRenderer(col: ColumnDef, fmt: Formatters): (JsValue, Row) -> JsValue {
    (value: JsValue, row: Row) => JStr(RenderCellValue(value, col.kind, fmt))
  }

  /** `adaptedColumns`: column `i` is headed by its name, reads `col_i`, and
      renders its value by its column's semantic type. */
  function AdaptColumns(cols: seq<ColumnDef>, fmt: Formatters): (columns: seq<DataTable.Column>)
    ensures |columns| == |cols|
    ensures forall i :: 0 <= i < |cols| ==>
              columns[i].header == cols[i].name && columns[i].accessor == Accessor(i) && columns[i].render.Some?
    ensures forall i, value: JsValue, row: Row :: 0 <= i < |cols| ==>
              columns[i].render.value(value, row) == JStr(RenderCellValue(value, cols[i].kind, fmt))
  {
    seq(|cols|, i requires 0 <= i < |cols| => DataTable.Column(cols[i].name, Accessor(i), Some(CellRenderer(cols[i], fmt))))
  }

  /** One row of `adaptedData`: value `i` stored under `col_i`. */
  function AdaptRow(row: seq<JsValue>): (rec: Row)
    ensures |rec| == |row|
    ensures forall i :: 0 <= i < |row| ==> rec[i] == (Accessor(i), row[i])
  {
    seq(|row|, i requires 0 <= i < |row| => (Accessor(i), row[i]))
  }

  /** `adaptedData`: the rows adapted one by one, count and order kept. */
  function AdaptData(rows: seq<seq<JsValue>>): (data: seq<Row>)
    ensures |data| == |rows|
    ensures forall r :: 0 <= r < |rows| ==> data[r] == AdaptRow(rows[r])
  {
    seq(|rows|, r requires 0 <= r < |rows| => AdaptRow(rows[r]))
  }

  /** Reading `col_i` back from an adapted row gives the row's value `i`,
      and `undefined` past the row's end. */
  lemma AdaptRowGet(row: seq<JsValue>, i: nat)
    ensures Get(AdaptRow(row), Accessor(i)) == if i < |row| then row[i] else JUndefined
  {
    var rec := AdaptRow(row);
    if i < |row| {
      forall j | 0 <= j < i
        ensures rec[j].0 != Accessor(i)
      {
        if rec[j].0 == Accessor(i) {
          AccessorInjective(j, i);
        }
      }
    } else {
      forall j | 0 <= j < |rec|
        ensures rec[j].0 != Accessor(i)
      {
        if rec[j].0 == Accessor(i) {
          AccessorInjective(j, i);
        }
      }
    }
  }

  /** The unsorted table built from the adapted columns and rows shows, in
      row `r` and column `c`, the positional value `rows[r][c]` rendered by
      column `c`'s type (`undefined`, so "-", past the row's end). */
  lemma AdaptedTableCell(cols: seq<ColumnDef>, rows: seq<seq<JsValue>>, r: nat, c: nat, fmt: Formatters)
    requires r < |rows| && c < |cols|
    ensures var body := DataTable.TableBody(AdaptColumns(cols, fmt), AdaptData(rows));
            var value := if c < |rows[r]| then rows[r][c] else JUndefined;
            body.Cells? && body.rows[r][c] == JStr(RenderCellValue(value, cols[c].kind, fmt))
  {
    AdaptRowGet(rows[r], c);
  }

  /** Every cell of the schema-driven table is text: "-" for a missing or
      nullish value, "Yes"/"No" in a boolean column. */
  lemma AdaptedCellText(cols: seq<ColumnDef>, rows: seq<seq<JsValue>>, r: nat, c: nat, fmt: Formatters)
    requires r < |rows| && c < |cols|
    ensures var body := DataTable.TableBody(AdaptColumns(cols, fmt), AdaptData(rows));
            && body.Cells? && body.rows[r][c].JStr?
            && ((c >= |rows[r]| || IsNullish(rows[r][c])) ==> body.rows[r][c] == JStr("-"))
            && ((c < |rows[r]| && !IsNullish(rows[r][c]) && cols[c].kind == "boolean") ==>
                  body.rows[r][c] == JStr(if Truthy(rows[r][c]) then "Yes" else "No"))
  {
    AdaptedTableCell(cols, rows, r, c, fmt);
  }

  // ---------------------------------------------------------------------
  // The date pattern

  /** `s` holds `dddd-dd-dd` starting at position `i`. */
  predicate DateRunAt(s: string, i: nat) {
    i + 10 <= |s| &&
    IsDigit(s[i]) && IsDigit(s[i + 1]) && IsDigit(s[i + 2]) && IsDigit(s[i + 3]) &&
    s[i + 4] == '-' && IsDigit(s[i + 5]) && IsDigit(s[i + 6]) &&
    s[i + 7] == '-' && IsDigit(s[i + 8]) && IsDigit(s[i + 9])
  }

  /** The first position at or after `from` where a date run starts. */
  function FindDateRun(s: string, from: nat): (r: Option<nat>)
    ensures r.Some? ==> from <= r.value && DateRunAt(s, r.value)
    ensures r.None? ==> forall k: nat :: from <= k ==> !DateRunAt(s, k)
    decreases |s| - from
  {
    if from + 10 > |s| then None
    else if DateRunAt(s, from) then Some(from)
    else FindDateRun(s, from + 1)
  }

  /** `/\d{4}-\d{2}-\d{2}/.test(s)`: the pattern is not anchored. */
  predicate HasDateRun(s: string) {
    FindDateRun(s, 0).Some?
  }

  lemma HasDateRunIff(s: string)
    ensures HasDateRun(s) <==> exists k: nat :: DateRunAt(s, k)
  {
  }

  /** A date run anywhere in a string is found, whatever surrounds it. */
  lemma DateRunInside(prefix: string, date: string, suffix: string)
    requires DateRunAt(date, 0)
    ensures HasDateRun(prefix + date + suffix)
  {
    var s := prefix + date + suffix;
    forall k | 0 <= k < 10
      ensures s[|prefix| + k] == date[k]
    {
    }
    assert DateRunAt(s, |prefix|);
  }

  // ---------------------------------------------------------------------
  // renderCellValue

  /** `renderCellValue(value, column)`. */
  function RenderCellValue(value: JsValue, kind: string, fmt: Formatters): (text: string)
    ensures IsNullish(value) ==> text == "-"
    ensures !IsNullish(value) && kind == "boolean" ==> text == if Truthy(value) then "Yes" else "No"
    ensures (!IsNullish(value) && kind in {"datetime", "number", "duration"} && !value.JStr? && !value.JNum?)
            ==> text == JsString(value, fmt)
  {
    if IsNullish(value) then "-"
    else if kind == "datetime" then
      if value.JStr? && HasDateRun(value.s) then fmt.formatDate(value.s) else JsString(value, fmt)
    else if kind == "boolean" then
      if Truthy(value) then "Yes" else "No"
    else if kind == "number" then
      if value.JNum? then fmt.toLocaleString(value.n) else JsString(value, fmt)
    else if kind == "duration" then
      if value.JNum? then
        var formatted := fmt.humanDuration(value.n / 1000000.0);
        if formatted == "" then "0s" else formatted
      else JsString(value, fmt)
    else JsString(value, fmt)
  }

  /** Every semantic type renders `null` and `undefined` as "-". */
  lemma NullishDash(value: JsValue, kind: string, fmt: Formatters)
    requires IsNullish(value)
    ensures forall k: string :: RenderCellValue(value, k, fmt) == RenderCellValue(value, kind, fmt) == "-"
  {
  }

  /** A boolean column shows "Yes" or "No", and "Yes" exactly for truthy values. */
  lemma BooleanYesNo(value: JsValue, fmt: Formatters)
    requires !IsNullish(value)
    ensures RenderCellValue(value, "boolean", fmt) in {"Yes", "No"}
    ensures RenderCellValue(value, "boolean", fmt) == "Yes" <==> Truthy(value)
  {
  }

  /** Types other than the four special ones render like `string`: `String(value)`. */
  lemma OtherKindsAsString(value: JsValue, kind: string, fmt: Formatters)
    requires kind !in {"datetime", "boolean", "number", "duration"}
    requires !IsNullish(value)
    ensures RenderCellValue(value, kind, fmt) == RenderCellValue(value, "string", fmt) == JsString(value, fmt)
  {
  }

  /** A string that holds no date run anywhere is shown as it is in a datetime
      column; one that holds a run is formatted. */
  lemma DatetimeStrings(s: string, fmt: Formatters)
    ensures (forall k: nat :: !DateRunAt(s, k)) ==> RenderCellValue(JStr(s), "datetime", fmt) == s
    ensures (exists k: nat :: DateRunAt(s, k)) ==> RenderCellValue(JStr(s), "datetime", fmt) == fmt.formatDate(s)
  {
    HasDateRunIff(s);
  }

  /** Number and duration columns show non-numbers exactly like string columns. */
  lemma NonNumbersAsString(value: JsValue, fmt: Formatters)
    requires !value.JNum?
    ensures RenderCellValue(value, "number", fmt) == RenderCellValue(value, "string", fmt)
    ensures RenderCellValue(value, "duration", fmt) == RenderCellValue(value, "string", fmt)
  {
  }

  /** A numeric duration (in nanoseconds) is never shown as an empty
      string: an empty human form becomes "0s". */
  lemma DurationNeverEmpty(n: real, fmt: Formatters)
    ensures RenderCellValue(JNum(n), "duration", fmt) != ""
    ensures fmt.humanDuration(n / 1000000.0) == "" ==> RenderCellValue(JNum(n), "duration", fmt) == "0s"
    ensures fmt.humanDuration(n / 1000000.0) != "" ==>
              RenderCellValue(JNum(n), "duration", fmt) == fmt.humanDuration(n / 1000000.0)
  {
  }
}
