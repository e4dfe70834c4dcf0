/** Start-up cleanup of the loaded table: every column whose name contains "_Dollars"
    has its "$" and "," characters removed from each text cell, and the remainder is
    read as a number (app.py lines 17-19). */
module Loader {
  import opened Strings
  import opened Decimal
  import opened Frame

  /** The characters of the cleanup pattern `[\$,]`. */
  predicate IsCurrencyMark(c: char) { c == '$' || c == ',' }

  /** Removes every currency mark; every other character is kept, in order. */
  function StripCurrency(s: string): (r: string)
    ensures forall i :: 0 <= i < |r| ==> !IsCurrencyMark(r[i])
    ensures |r| <= |s|
  {
    if s == [] then []
    else (if IsCurrencyMark(s[0]) then [] else [s[0]]) + StripCurrency(s[1..])
  }

  /** Every character other than a currency mark is kept as often as it occurs. */
  lemma {:induction false} StripCurrencyKeeps(s: string, c: char)
    ensures multiset(StripCurrency(s))[c] == if IsCurrencyMark(c) then 0 else multiset(s)[c]
  {
    if s != [] {
      assert s == [s[0]] + s[1..];
      StripCurrencyKeeps(s[1..], c);
    }
  }

  /** Stripping works piece by piece, so the kept characters stay in their order. */
  lemma {:induction false} StripCurrencyConcat(a: string, b: string)
    ensures StripCurrency(a + b) == StripCurrency(a) + StripCurrency(b)
  {
    if a != [] {
      assert (a + b)[0] == a[0];
      assert (a + b)[1..] == a[1..] + b;
      StripCurrencyConcat(a[1..], b);
    } else {
      assert a + b == b;
    }
  }

  /** A string without currency marks is left as it is. */
  lemma {:induction false} StripCurrencyUnmarked(s: string)
    requires forall i :: 0 <= i < |s| ==> !IsCurrencyMark(s[i])
    ensures StripCurrency(s) == s
  {
    if s != [] {
      StripCurrencyUnmarked(s[1..]);
    }
  }

  /** Stripping twice is stripping once. */
  lemma StripCurrencyIdempotent(s: string)
    ensures StripCurrency(StripCurrency(s)) == StripCurrency(s)
  {
    StripCurrencyUnmarked(StripCurrency(s));
  }

  /** One cell of a dollar column after `replace(r'[\$,]', '')` and `astype(float)`:
      text is stripped and parsed, and a number the reader already recognised is kept. */
  function CleanCell(c: Cell, column: string, row: nat): (r: Result<Cell>)
    ensures r.Ok? ==> r.value.Num?
    ensures c.Num? ==> r == Ok(c)
    ensures c.Text? ==> (r.Ok? <==> ParseInt(StripCurrency(c.s)).Some?)
    ensures c.Text? && r.Ok? ==> Some(r.value.n) == ParseInt(StripCurrency(c.s))
    ensures r.Err? ==> r.error == FormatError(column, row, c.s)
  {
    match c
    case Num(_) => Ok(c)
    case Text(s) =>
      match ParseInt(StripCurrency(s))
      case Some(v) => Ok(Num(v))
      case None => Err(FormatError(column, row, s))
  }

  /** A whole dollar column: all cells cleaned, or the error of the first bad row. */
  function CleanColumn(column: string, cells: seq<Cell>): (r: Result<seq<Cell>>)
    ensures r.Ok? <==> forall i :: 0 <= i < |cells| ==> CleanCell(cells[i], column, i).Ok?
    ensures r.Ok? ==> |r.value| == |cells| && AllNumeric(r.value)
    ensures r.Ok? ==> forall i :: 0 <= i < |cells| ==> Ok(r.value[i]) == CleanCell(cells[i], column, i)
    ensures r.Err? ==> r.error.row < |cells| && Err(r.error) == CleanCell(cells[r.error.row], column, r.error.row)
    ensures r.Err? ==> forall i :: 0 <= i < r.error.row ==> CleanCell(cells[i], column, i).Ok?
  {
    if cells == [] then Ok([])
    else
      var last := |cells| - 1;
      match CleanColumn(column, cells[..last])
      case Err(e) => Err(e)
      case Ok(done) =>
        match CleanCell(cells[last], column, last)
        case Err(e) => Err(e)
        case Ok(c) => Ok(done + [c])
  }

  /** The cleanup loop applied to the first columns of `header`, in order; it stops at
      the first column that fails. */
  function CleanColumns(header: seq<string>, columns: map<string, seq<Cell>>): Result<map<string, seq<Cell>>>
  {
    if header == [] then Ok(columns)
    else
      match CleanColumns(header[..|header| - 1], columns)
      case Err(e) => Err(e)
      case Ok(done) =>
        var name := header[|header| - 1];
        if Contains(name, DollarsMarker) && name in done then
          match CleanColumn(name, done[name])
          case Err(e) => Err(e)
          case Ok(cleaned) => Ok(done[name := cleaned])
        else Ok(done)
  }

  /** Cleanup succeeds exactly when every dollar column cleans; it then replaces each
      dollar column by its cleaned cells and leaves every other column as it was. */
  lemma {:induction false} CleanColumnsOk(header: seq<string>, columns: map<string, seq<Cell>>)
    requires Distinct(header)
    requires forall name :: name in header ==> name in columns
    ensures CleanColumns(header, columns).Ok? <==>
              forall name :: name in header && Contains(name, DollarsMarker) ==> CleanColumn(name, columns[name]).Ok?
    ensures CleanColumns(header, columns).Ok? ==>
              var done := CleanColumns(header, columns).value;
              && done.Keys == columns.Keys
              && (forall name :: name in columns && name in header && Contains(name, DollarsMarker) ==>
                    CleanColumn(name, columns[name]) == Ok(done[name]))
              && (forall name :: name in columns && !(name in header && Contains(name, DollarsMarker)) ==>
                    done[name] == columns[name])
  {
    if header != [] {
      var init := header[..|header| - 1];
      var name := header[|header| - 1];
      assert header == init + [name];
      assert Distinct(init);
      assert name !in init;
      CleanColumnsOk(init, columns);
    }
  }

  /** The dollar column at index `k` of `header` is the first one that fails to clean,
      failing with `e`. */
  ghost predicate FirstFailure(header: seq<string>, columns: map<string, seq<Cell>>, k: int, e: FormatError) {
    && 0 <= k < |header|
    && Contains(header[k], DollarsMarker) && header[k] in columns
    && CleanColumn(header[k], columns[header[k]]) == Err(e)
    && forall j :: 0 <= j < k && Contains(header[j], DollarsMarker) && header[j] in columns ==>
         CleanColumn(header[j], columns[header[j]]).Ok?
  }

  /** A failure is the failure of the first dollar column, in header order, that does
      not clean. */
  lemma {:induction false} CleanColumnsFirstError(header: seq<string>, columns: map<string, seq<Cell>>)
    requires Distinct(header)
    requires forall name :: name in header ==> name in columns
    ensures CleanColumns(header, columns).Err? ==>
              exists k :: FirstFailure(header, columns, k, CleanColumns(header, columns).error)
  {
    if header != [] && CleanColumns(header, columns).Err? {
      var init := header[..|header| - 1];
      var name := header[|header| - 1];
      var e := CleanColumns(header, columns).error;
      assert header == init + [name];
      assert Distinct(init);
      CleanColumnsOk(init, columns);
      if CleanColumns(init, columns).Ok? {
        assert name !in init;
        assert FirstFailure(header, columns, |header| - 1, e);
      } else {
        CleanColumnsFirstError(init, columns);
        var k :| FirstFailure(init, columns, k, e);
        assert FirstFailure(header, columns, k, e);
      }
    }
  }

  /** Once a prefix of the header fails, the whole cleanup fails with that error. */
  lemma {:induction false} CleanColumnsErrorSticks(header: seq<string>, columns: map<string, seq<Cell>>, i: nat)
    requires i <= |header| && CleanColumns(header[..i], columns).Err?
    ensures CleanColumns(header, columns) == CleanColumns(header[..i], columns)
    decreases |header| - i
  {
    if i < |header| {
      assert header[..i + 1][..i] == header[..i];
      CleanColumnsErrorSticks(header, columns, i + 1);
    } else {
      assert header[..i] == header;
    }
  }

  /** A successful cleanup keeps the table well formed and leaves every dollar column
      holding numbers only, which is the half of `Loaded` the cleanup is for. */
  lemma CleanedDollarColumnsNumeric(t: Table)
    requires WellFormed(t) && CleanColumns(t.header, t.columns).Ok?
    ensures var cleaned := Table(t.months, t.header, CleanColumns(t.header, t.columns).value);
            && WellFormed(cleaned)
            && forall name :: name in cleaned.columns && Contains(name, DollarsMarker) ==> AllNumeric(cleaned.columns[name])
  {
    CleanColumnsOk(t.header, t.columns);
  }

  /** The data frame as the program holds it; the cleanup rewrites its dollar columns
      in place. */
  class DataFrame {
    var months: seq<string>
    var header: seq<string>
    var columns: map<string, seq<Cell>>

    function View(): Table
      reads this
    {
      Table(months, header, columns)
    }

    ghost predicate Valid()
      reads this
    {
      WellFormed(View())
    }

    constructor (t: Table)
      requires WellFormed(t)
      ensures Valid() && View() == t
    {
      months, header, columns := t.months, t.header, t.columns;
    }

    /** The loop over `df.columns` (app.py lines 17-19). It returns the first format
        error, with the columns before it already rewritten, or None when every dollar
        column was converted. */
    method CleanDollarColumns() returns (err: Option<FormatError>)
      requires Valid()
      modifies this
      ensures Valid()
      ensures months == old(months) && header == old(header)
      ensures err.None? <==> CleanColumns(header, old(columns)).Ok?
      ensures err.None? ==> columns == CleanColumns(header, old(columns)).value
      ensures err.Some? ==> CleanColumns(header, old(columns)) == Err(err.value)
    {
      var i := 0;
      while i < |header|
        invariant 0 <= i <= |header|
        invariant months == old(months) && header == old(header)
        invariant CleanColumns(header[..i], old(columns)) == Ok(columns)
        invariant Valid()
      {
        var name := header[i];
        assert header[..i + 1][..i] == header[..i];
        if Contains(name, DollarsMarker) {
          var cleaned := CleanColumn(name, columns[name]);
          if cleaned.Err? {
            CleanColumnsErrorSticks(header, old(columns), i + 1);
            return Some(cleaned.error);
          }
          columns := columns[name := cleaned.value];
        }
        i := i + 1;
      }
      assert header[..i] == header;
      return None;
    }
  }
}
