/** The rows of the CSV extracts the dashboard reads, and the two table
    operations every page uses on them: `df[df[col] == v]` and `df[col].unique()`. */
module Listings {
  import opened Sequences

  /** One listing row. It carries every column the modelled filters and
      aggregates read; a given CSV extract fills the ones it has. Prices and
      ratings are exact reals. */
  datatype Listing = Listing(
    country: string,
    city: string,
    suburb: string,
    roomType: string,
    propertyType: string,
    price: real,
    rating: real)

  /** The text columns the pages select and group by. */
  datatype Column = Country | City | Suburb | RoomType | PropertyType

  function Cell(row: Listing, col: Column): string {
    match col
    case Country => row.country
    case City => row.city
    case Suburb => row.suburb
    case RoomType => row.roomType
    case PropertyType => row.propertyType
  }

  /** The column `col` of the table, row by row (`df[col]`). */
  function ColumnValues(rows: seq<Listing>, col: Column): seq<string> {
    seq(|rows|, i requires 0 <= i < |rows| => Cell(rows[i], col))
  }

  lemma InColumn(rows: seq<Listing>, col: Column, v: string)
    ensures v in ColumnValues(rows, col) <==> exists i | 0 <= i < |rows| :: Cell(rows[i], col) == v
  {
    if exists i | 0 <= i < |rows| :: Cell(rows[i], col) == v {
      var i :| 0 <= i < |rows| && Cell(rows[i], col) == v;
      assert ColumnValues(rows, col)[i] == v;
    }
  }

  /** A value occurs in a column of a selection exactly when some row
      satisfying the mask carries it. */
  lemma InSelectedColumn(rows: seq<Listing>, p: Listing -> bool, col: Column, v: string)
    ensures v in ColumnValues(Where(rows, p), col)
            <==> exists i | 0 <= i < |rows| :: p(rows[i]) && Cell(rows[i], col) == v
  {
    var sel := Where(rows, p);
    InColumn(sel, col, v);
    if v in ColumnValues(sel, col) {
      var j :| 0 <= j < |sel| && Cell(sel[j], col) == v;
      WhereMembership(rows, p, sel[j]);
      var i :| 0 <= i < |rows| && rows[i] == sel[j];
    }
    if exists i | 0 <= i < |rows| :: p(rows[i]) && Cell(rows[i], col) == v {
      var i :| 0 <= i < |rows| && p(rows[i]) && Cell(rows[i], col) == v;
      WhereMembership(rows, p, rows[i]);
      var j :| 0 <= j < |sel| && sel[j] == rows[i];
    }
  }

  /** The `Price` column of the table. */
  function Prices(rows: seq<Listing>): seq<real> {
    seq(|rows|, i requires 0 <= i < |rows| => rows[i].price)
  }

  /** The rows whose `col` equals `v`, in table order: `df[df[col] == v]`. */
  function Select(rows: seq<Listing>, col: Column, v: string): (r: seq<Listing>)
    ensures forall row | row in r :: Cell(row, col) == v
  {
    Where(rows, row => Cell(row, col) == v)
  }

  /** `Select` keeps exactly the rows with that value, each as often as the
      table has it, in table order. */
  lemma SelectSpec(rows: seq<Listing>, col: Column, v: string)
    ensures forall row :: row in Select(rows, col, v) <==> row in rows && Cell(row, col) == v
    ensures forall row :: multiset(Select(rows, col, v))[row]
                          == if Cell(row, col) == v then multiset(rows)[row] else 0
    ensures SubsequenceOf(Select(rows, col, v), rows)
  {
    var p := row => Cell(row, col) == v;
    forall row ensures row in Select(rows, col, v) <==> row in rows && Cell(row, col) == v {
      WhereMembership(rows, p, row);
    }
    forall row ensures multiset(Select(rows, col, v))[row]
                       == if Cell(row, col) == v then multiset(rows)[row] else 0 {
      WhereCount(rows, p, row);
    }
    WhereIsSubsequence(rows, p);
  }

  /** A value that occurs in the column has a non-empty selection. */
  lemma SelectNonEmpty(rows: seq<Listing>, col: Column, v: string)
    requires v in ColumnValues(rows, col)
    ensures |Select(rows, col, v)| > 0
  {
    var i :| 0 <= i < |rows| && ColumnValues(rows, col)[i] == v;
    WhereMembership(rows, row => Cell(row, col) == v, rows[i]);
  }

  /** The options a selectbox or multiselect offers for `col`: `df[col].unique()`. */
  function Options(rows: seq<Listing>, col: Column): (r: seq<string>)
    ensures NoDuplicates(r)
    ensures forall v :: v in r <==> exists i | 0 <= i < |rows| :: Cell(rows[i], col) == v
  {
    var vs := ColumnValues(rows, col);
    assert forall v :: v in vs <==> exists i | 0 <= i < |rows| :: Cell(rows[i], col) == v by {
      forall v | exists i | 0 <= i < |rows| :: Cell(rows[i], col) == v
        ensures v in vs
      {
        var i :| 0 <= i < |rows| && Cell(rows[i], col) == v;
        assert vs[i] == v;
      }
    }
    Distinct(vs)
  }

  /** The options come in the order in which the values first occur in the table. */
  lemma OptionsInTableOrder(rows: seq<Listing>, col: Column)
    ensures forall i, j | 0 <= i < j < |Options(rows, col)| ::
      FirstIndex(ColumnValues(rows, col), Options(rows, col)[i])
        < FirstIndex(ColumnValues(rows, col), Options(rows, col)[j])
  {
    DistinctFirstAppearanceOrder(ColumnValues(rows, col));
  }
}
