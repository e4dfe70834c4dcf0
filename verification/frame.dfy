/** The loaded table: one row per month, and named columns of cells. */
module Frame {
  import opened Strings

  /** A column name contains this marker when its cells are currency amounts. */
  const DollarsMarker := "_Dollars"
  /** A column name contains this marker when its cells are award counts. */
  const AwardsMarker := "_Awards"

  /** A cell as the CSV reader leaves it: text, or a number it already recognised. */
  datatype Cell = Text(s: string) | Num(n: int)

  /** The months, the column names in file order, and each column's cells. */
  datatype Table = Table(months: seq<string>, header: seq<string>, columns: map<string, seq<Cell>>)

  /** Column names are unique and name exactly the columns, and every column has one
      cell per month. */
  ghost predicate WellFormed(t: Table) {
    && Distinct(t.header)
    && (forall name :: name in t.header <==> name in t.columns)
    && (forall name :: name in t.columns ==> |t.columns[name]| == |t.months|)
  }

  predicate AllNumeric(cells: seq<Cell>) {
    forall i :: 0 <= i < |cells| ==> cells[i].Num?
  }

  /** What aggregation relies on: a well-formed table whose award and dollar columns
      hold numbers only. */
  ghost predicate Loaded(t: Table) {
    && WellFormed(t)
    && (forall name :: name in t.columns && (Contains(name, AwardsMarker) || Contains(name, DollarsMarker))
          ==> AllNumeric(t.columns[name]))
  }

  /** Sector `s` has both of its paired columns, `<s>_Awards` and `<s>_Dollars`. */
  predicate PairedIn(header: seq<string>, s: string) {
    s + AwardsMarker in header && s + DollarsMarker in header
  }

  /** An unparseable currency cell: its column, its row and its text. */
  datatype FormatError = FormatError(column: string, row: nat, text: string)

  datatype Result<T> = Ok(value: T) | Err(error: FormatError)
}
