/** The static table (src/components/DataTable.tsx): its tri-state sort,
    the comparator sort of the rows, the sort indicator, the column width
    classes and the placeholder row shown for empty data. */
module DataTable {

  import opened Values
  import Sorting

  // ---------------------------------------------------------------------
  // JavaScript `<` on cell values

  /** Lexicographic order on strings by character code (`<` on two strings). */
  predicate StrLess(a: string, b: string) {
    if |a| == 0 then |b| > 0
    else if |b| == 0 then false
    else if a[0] != b[0] then a[0] < b[0]
    else StrLess(a[1..], b[1..])
  }

  lemma {:induction false} StrLessIrreflexive(a: string)
    ensures !StrLess(a, a)
  {
    if |a| > 0 {
      StrLessIrreflexive(a[1..]);
    }
  }

  lemma {:induction false} StrLessTransitive(a: string, b: string, c: string)
    requires StrLess(a, b) && StrLess(b, c)
    ensures StrLess(a, c)
  {
    if |a| > 0 && |b| > 0 && |c| > 0 && a[0] == b[0] && b[0] == c[0] {
      StrLessTransitive(a[1..], b[1..], c[1..]);
    }
  }

  /** Two different strings are ordered one way or the other. */
  lemma {:induction false} StrLessTotal(a: string, b: string)
    requires a != b
    ensures StrLess(a, b) || StrLess(b, a)
  {
    if |a| > 0 && |b| > 0 && a[0] == b[0] {
      assert a == [a[0]] + a[1..] && b == [b[0]] + b[1..];
      StrLessTotal(a[1..], b[1..]);
    }
  }

  lemma StrLessAsymmetric(a: string, b: string)
    requires StrLess(a, b)
    ensures !StrLess(b, a)
  {
    if StrLess(b, a) {
      StrLessTransitive(a, b, a);
      StrLessIrreflexive(a);
    }
  }

  /** Values `<` converts to numbers without a string conversion. */
  predicate NumberLike(v: JsValue) {
    v.JNull? || v.JBool? || v.JNum?
  }

  /** `Number(v)`; `None` stands for NaN. */
  function ToNumber(v: JsValue, fmt: Formatters): (r: Option<real>)
    ensures NumberLike(v) ==> r.Some?
    ensures v.JUndefined? ==> r.None?
  {
    match v
    case JNull => Some(0.0)
    case JUndefined => None
    case JBool(b) => Some(if b then 1.0 else 0.0)
    case JNum(n) => Some(n)
    case JStr(s) => fmt.stringToNumber(s)
  }

  /** `x < y`: two strings compare by character code; otherwise both sides
      become numbers and NaN compares false. */
  predicate JsLess(x: JsValue, y: JsValue, fmt: Formatters) {
    if x.JStr? && y.JStr? then StrLess(x.s, y.s)
    else
      var a, b := ToNumber(x, fmt), ToNumber(y, fmt);
      a.Some? && b.Some? && a.value < b.value
  }

  /** Two values of the same family: both strings, or both number-like. */
  predicate Comparable(x: JsValue, y: JsValue) {
    (x.JStr? && y.JStr?) || (NumberLike(x) && NumberLike(y))
  }

  lemma JsLessAsymmetric(x: JsValue, y: JsValue, fmt: Formatters)
    requires Comparable(x, y) && JsLess(x, y, fmt)
    ensures !JsLess(y, x, fmt)
  {
    if x.JStr? {
      StrLessAsymmetric(x.s, y.s);
    }
  }

  /** "Not less" is transitive within one family of values. */
  lemma JsNotLessTransitive(x: JsValue, y: JsValue, z: JsValue, fmt: Formatters)
    requires Comparable(x, y) && Comparable(y, z)
    requires !JsLess(x, y, fmt) && !JsLess(y, z, fmt)
    ensures !JsLess(x, z, fmt)
  {
    if x.JStr? {
      var a, b, c := x.s, y.s, z.s;
      if a != b && b != c {
        StrLessTotal(a, b);
        StrLessTotal(b, c);
        StrLessTransitive(c, b, a);
        StrLessAsymmetric(c, a);
      } else if a != b {
        StrLessTotal(a, b);
        StrLessAsymmetric(b, a);
      } else if b != c {
        StrLessTotal(b, c);
        StrLessAsymmetric(c, b);
      } else {
        StrLessIrreflexive(a);
      }
    }
  }

  // ---------------------------------------------------------------------
  // Sort state

  datatype Direction = Ascending | Descending

  /** `sortConfig`: no sort, or a key and a direction. */
  datatype SortConfig = NoSort | SortBy(key: string, direction: Direction)

  /** `requestSort(key)`: descending only when the table is already sorted
      ascending by that key; ascending by that key in every other case. */
  function RequestSort(config: SortConfig, key: string): (next: SortConfig)
    ensures next.SortBy? && next.key == key
    ensures next.direction == Descending <==> config == SortBy(key, Ascending)
  {
    if config.SortBy? && config.key == key && config.direction == Ascending
    then SortBy(key, Descending)
    else SortBy(key, Ascending)
  }

  /** Clicking the same header repeatedly alternates ascending and
      descending, starting from ascending unless it was already ascending. */
  lemma RequestSortToggles(config: SortConfig, key: string)
    ensures RequestSort(RequestSort(config, key), key).direction != RequestSort(config, key).direction
    ensures RequestSort(RequestSort(RequestSort(config, key), key), key) == RequestSort(config, key)
  {
  }

  // ---------------------------------------------------------------------
  // The comparator sort

  /** The comparator of `sortedData` on two key values. */
  function Compare(x: JsValue, y: JsValue, dir: Direction, fmt: Formatters): (c: int)
    ensures c in {-1, 0, 1}
    ensures c == 0 <==> !JsLess(x, y, fmt) && !JsLess(y, x, fmt)
  {
    if JsLess(x, y, fmt) then (if dir == Ascending then -1 else 1)
    else if JsLess(y, x, fmt) then (if dir == Ascending then 1 else -1)
    else 0
  }

  /** Row `a` goes strictly before row `b`: the comparator is negative. */
  function Before(key: string, dir: Direction, fmt: Formatters): (Row, Row) -> bool {
    (a: Row, b: Row) => Compare(Get(a, key), Get(b, key), dir, fmt) < 0
  }

  /** `sortedData`: the data itself without a sort state, otherwise a
      sorted copy. */
  function SortedData(data: seq<Row>, config: SortConfig, fmt: Formatters): (r: seq<Row>)
    ensures config.NoSort? ==> r == data
    ensures |r| == |data| && multiset(r) == multiset(data)
  {
    match config
    case NoSort => data
    case SortBy(key, dir) => Sorting.Sort(data, Before(key, dir, fmt))
  }

  /** All rows hold key values of one family. */
  predicate UniformKeys(data: seq<Row>, key: string) {
    (forall i :: 0 <= i < |data| ==> Get(data[i], key).JStr?) ||
    (forall i :: 0 <= i < |data| ==> NumberLike(Get(data[i], key)))
  }

  lemma BeforeAsymmetric(a: Row, b: Row, key: string, dir: Direction, fmt: Formatters)
    requires Comparable(Get(a, key), Get(b, key))
    requires Before(key, dir, fmt)(a, b)
    ensures !Before(key, dir, fmt)(b, a)
  {
    var x, y := Get(a, key), Get(b, key);
    if JsLess(x, y, fmt) {
      JsLessAsymmetric(x, y, fmt);
    } else {
      assert Comparable(y, x);
    }
  }

  lemma BeforeNegativelyTransitive(a: Row, b: Row, c: Row, key: string, dir: Direction, fmt: Formatters)
    requires Comparable(Get(a, key), Get(b, key)) && Comparable(Get(b, key), Get(c, key))
    requires !Before(key, dir, fmt)(a, b) && !Before(key, dir, fmt)(b, c)
    ensures !Before(key, dir, fmt)(a, c)
  {
    var x, y, z := Get(a, key), Get(b, key), Get(c, key);
    if dir == Ascending {
      JsNotLessTransitive(x, y, z, fmt);
    } else {
      if JsLess(y, x, fmt) {
        JsLessAsymmetric(y, x, fmt);
      }
      if JsLess(z, y, fmt) {
        JsLessAsymmetric(z, y, fmt);
      }
      assert Comparable(z, y) && Comparable(y, x);
      JsNotLessTransitive(z, y, x, fmt);
    }
  }

  /** With keys of one family the comparator is a strict weak order. */
  lemma BeforeStrictWeakOrder(data: seq<Row>, key: string, dir: Direction, fmt: Formatters)
    requires UniformKeys(data, key)
    ensures Sorting.StrictWeakOrder(Before(key, dir, fmt), data)
  {
    var before := Before(key, dir, fmt);
    forall i, j | 0 <= i < |data| && 0 <= j < |data| && before(data[i], data[j])
      ensures !before(data[j], data[i])
    {
      BeforeAsymmetric(data[i], data[j], key, dir, fmt);
    }
    forall i, j, k | 0 <= i < |data| && 0 <= j < |data| && 0 <= k < |data| &&
                     !before(data[i], data[j]) && !before(data[j], data[k])
      ensures !before(data[i], data[k])
    {
      BeforeNegativelyTransitive(data[i], data[j], data[k], key, dir, fmt);
    }
  }

  /** With keys of one family the sorted rows are ordered by `<` on the key:
      ascending, or descending. */
  lemma SortedDataOrdered(data: seq<Row>, key: string, dir: Direction, fmt: Formatters)
    requires UniformKeys(data, key)
    ensures var r := SortedData(data, SortBy(key, dir), fmt);
            forall i, j :: 0 <= i < j < |r| ==>
              if dir == Ascending then !JsLess(Get(r[j], key), Get(r[i], key), fmt)
              else !JsLess(Get(r[i], key), Get(r[j], key), fmt)
  {
    var before := Before(key, dir, fmt);
    var r := SortedData(data, SortBy(key, dir), fmt);
    BeforeStrictWeakOrder(data, key, dir, fmt);
    assert Sorting.Within(data, data);
    Sorting.SortSorted(data, before, data);
    forall i, j | 0 <= i < j < |r|
      ensures if dir == Ascending then !JsLess(Get(r[j], key), Get(r[i], key), fmt)
              else !JsLess(Get(r[i], key), Get(r[j], key), fmt)
    {
      assert !before(r[j], r[i]);
      if dir == Descending {
        UniformComparable(data, r, key, i, j);
        NotBeforeDescending(r[i], r[j], key, fmt);
      }
    }
  }

  /** Two rows of a rearrangement of rows with uniform keys have comparable keys. */
  lemma UniformComparable(data: seq<Row>, r: seq<Row>, key: string, i: nat, j: nat)
    requires UniformKeys(data, key) && multiset(r) == multiset(data)
    requires i < |r| && j < |r|
    ensures Comparable(Get(r[i], key), Get(r[j], key))
  {
    assert r[i] in multiset(data) && r[j] in multiset(data);
    var p :| 0 <= p < |data| && data[p] == r[i];
    var q :| 0 <= q < |data| && data[q] == r[j];
  }

  lemma NotBeforeDescending(a: Row, b: Row, key: string, fmt: Formatters)
    requires Comparable(Get(a, key), Get(b, key))
    requires !Before(key, Descending, fmt)(b, a)
    ensures !JsLess(Get(a, key), Get(b, key), fmt)
  {
    if JsLess(Get(a, key), Get(b, key), fmt) {
      JsLessAsymmetric(Get(a, key), Get(b, key), fmt);
    }
  }

  /** Rows whose keys compare equal keep their input order. */
  lemma SortedDataStable(data: seq<Row>, key: string, dir: Direction, fmt: Formatters, k: Row)
    requires UniformKeys(data, key) && k in data
    ensures var before := Before(key, dir, fmt);
            Sorting.TiedWith(SortedData(data, SortBy(key, dir), fmt), k, before)
            == Sorting.TiedWith(data, k, before)
  {
    BeforeStrictWeakOrder(data, key, dir, fmt);
    assert Sorting.Within(data, data);
    Sorting.SortStable(data, k, Before(key, dir, fmt), data);
  }

  // ---------------------------------------------------------------------
  // Header and body

  datatype Indicator = NoIndicator | Up | Down

  /** `renderSortIndicator(column)`. */
  function SortIndicator(config: SortConfig, column: string): (ind: Indicator)
    ensures ind != NoIndicator <==> config.SortBy? && config.key == column
    ensures ind == Up <==> config == SortBy(column, Ascending)
    ensures ind == Down <==> config == SortBy(column, Descending)
  {
    match config
    case SortBy(key, Ascending) => if key == column then Up else NoIndicator
    case SortBy(key, Descending) => if key == column then Down else NoIndicator
    case NoSort => NoIndicator
  }

  /** After a click on a header, that header alone shows an indicator: up,
      unless the table was already sorted ascending by it. */
  lemma IndicatorAfterClick(config: SortConfig, clicked: string, column: string)
    ensures var next := RequestSort(config, clicked);
            && (column != clicked ==> SortIndicator(next, column) == NoIndicator)
            && (column == clicked ==>
                  SortIndicator(next, column) == if config == SortBy(clicked, Ascending) then Down else Up)
  {
  }

  /** The width groups of `getColumnWidth`. */
  datatype WidthGroup = Description | DateLike | Email | NameLike | Short | Other

  function WidthGroupOf(accessor: string): WidthGroup {
    if accessor == "description" then Description
    else if accessor in {"date", "created", "lastLogin", "lastAccessReview", "completedDate", "resolvedDate"} then DateLike
    else if accessor == "email" then Email
    else if accessor in {"name", "user", "database", "source"} then NameLike
    else if accessor in {"role", "status", "severity", "size"} then Short
    else Other
  }

  function WidthClass(g: WidthGroup): string {
    match g
    case Description => "w-full min-w-[200px]"
    case DateLike => "w-32 min-w-[128px]"
    case Email => "w-48 min-w-[192px]"
    case NameLike => "w-40 min-w-[160px]"
    case Short => "w-28 min-w-[112px]"
    case Other => "w-36 min-w-[144px]"
  }

  /** `getColumnWidth(accessor)`. */
  function ColumnWidth(accessor: string): (cls: string)
    ensures accessor == "description" ==> cls == "w-full min-w-[200px]"
    ensures accessor == "email" ==> cls == "w-48 min-w-[192px]"
    ensures accessor in {"date", "created", "lastLogin", "lastAccessReview", "completedDate", "resolvedDate"} ==>
              cls == "w-32 min-w-[128px]"
    ensures accessor in {"name", "user", "database", "source"} ==> cls == "w-40 min-w-[160px]"
    ensures accessor in {"role", "status", "severity", "size"} ==> cls == "w-28 min-w-[112px]"
    ensures cls == "w-36 min-w-[144px]" <==> WidthGroupOf(accessor) == Other
  {
    WidthClass(WidthGroupOf(accessor))
  }

  /** Two columns get the same width class exactly when they are in the
      same group: every group has its own class. */
  lemma SameWidthSameGroup(a: string, b: string)
    ensures ColumnWidth(a) == ColumnWidth(b) <==> WidthGroupOf(a) == WidthGroupOf(b)
  {
  }

  /** A column whose accessor is listed nowhere gets the default width. */
  lemma UnlistedColumnWidth(accessor: string)
    requires accessor !in {"description", "date", "created", "lastLogin", "lastAccessReview",
                           "completedDate", "resolvedDate", "email", "name", "user",
                           "database", "source", "role", "status", "severity", "size"}
    ensures ColumnWidth(accessor) == "w-36 min-w-[144px]"
  {
  }

  /** A column: its header, the key it reads, and an optional renderer that
      receives the cell's value and the whole row. A rendered cell shows what
      the renderer returns; an unrendered cell shows the raw value. */
  datatype Column = Column(header: string, accessor: string, render: Option<(JsValue, Row) -> JsValue>)

  /** The table body: one row of cells per data row, or a single placeholder
      row spanning every column when there is no data. */
  datatype Body =
    | Placeholder(colSpan: nat, text: string)
    | Cells(rows: seq<seq<JsValue>>)

  /** The cells of one data row. */
  function RowCells(row: Row, columns: seq<Column>): (cells: seq<JsValue>)
    ensures |cells| == |columns|
    ensures forall c :: 0 <= c < |columns| && columns[c].render.None? ==>
              cells[c] == Get(row, columns[c].accessor)
    ensures forall c :: 0 <= c < |columns| && columns[c].render.Some? ==>
              cells[c] == columns[c].render.value(Get(row, columns[c].accessor), row)
  {
    seq(|columns|, c requires 0 <= c < |columns| =>
      match columns[c].render
      case Some(render) => render(Get(row, columns[c].accessor), row)
      case None => Get(row, columns[c].accessor))
  }

  function TableBody(columns: seq<Column>, data: seq<Row>): (body: Body)
    ensures body.Placeholder? <==> |data| == 0
    ensures body.Placeholder? ==> body.colSpan == |columns| && body.text == "No data available"
    ensures body.Cells? ==> |body.rows| == |data|
    ensures body.Cells? ==> forall i :: 0 <= i < |data| ==> body.rows[i] == RowCells(data[i], columns)
  {
    if |data| == 0 then Placeholder(|columns|, "No data available")
    else Cells(seq(|data|, i requires 0 <= i < |data| => RowCells(data[i], columns)))
  }
}
