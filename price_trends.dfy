/** The mean-price-by-country bars of the price page (`Price_Visualisation_page`):
    rows of one room type, or of one property type, grouped by country. */
module PriceTrends {
  import opened Sequences
  import opened Listings
  import opened Aggregates

  /** `Price_df[Price_df[col] == v].groupby('Country')['Price'].mean().reset_index()`,
      with `col` the room type (first chart) or the property type (third chart). */
  function MeanPriceByCountry(rows: seq<Listing>, col: Column, v: string): (r: seq<Group>)
    ensures Ascending(KeysOf(r))
    ensures forall k | k in KeysOf(r) :: k in ColumnValues(Select(rows, col, v), Country)
  {
    GroupMeans(Select(rows, col, v), Country)
  }

  /** The rows with `col` equal to `v` in country `k`. */
  function CountryRows(rows: seq<Listing>, col: Column, v: string, k: string): seq<Listing> {
    Where(rows, (row: Listing) => Cell(row, col) == v && row.country == k)
  }

  /** One bar per country that has a row of the chosen type, and no other
      bar; the bars are in ascending country order. */
  lemma MeanPriceByCountryKeys(rows: seq<Listing>, col: Column, v: string)
    ensures var r := MeanPriceByCountry(rows, col, v);
      && (forall k :: k in KeysOf(r) <==>
            exists i | 0 <= i < |rows| :: Cell(rows[i], col) == v && rows[i].country == k)
      && Ascending(KeysOf(r))
      && NoDuplicates(KeysOf(r))
  {
    var r := MeanPriceByCountry(rows, col, v);
    var p := (row: Listing) => Cell(row, col) == v;
    AscendingNoDuplicates(KeysOf(r));
    forall k ensures k in KeysOf(r) <==>
      exists i | 0 <= i < |rows| :: Cell(rows[i], col) == v && rows[i].country == k
    {
      InSelectedColumn(rows, p, Country, k);
    }
  }

  /** Each bar is the arithmetic mean of the prices of exactly that country's
      rows of the chosen type. */
  lemma MeanPriceByCountryMeans(rows: seq<Listing>, col: Column, v: string)
    ensures var r := MeanPriceByCountry(rows, col, v);
      forall i | 0 <= i < |r| ::
        |CountryRows(rows, col, v, r[i].key)| > 0
        && r[i].mean == Mean(Prices(CountryRows(rows, col, v, r[i].key)))
  {
    var sel := Select(rows, col, v);
    var r := MeanPriceByCountry(rows, col, v);
    forall i | 0 <= i < |r|
      ensures Select(sel, Country, r[i].key) == CountryRows(rows, col, v, r[i].key)
    {
      var k := r[i].key;
      WhereComposed(rows, (row: Listing) => Cell(row, col) == v, (row: Listing) => Cell(row, Country) == k,
                    (row: Listing) => Cell(row, col) == v && row.country == k);
    }
  }
}
