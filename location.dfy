/** The suburb price ranking of the location page (`Location_page`): a
    country dropdown, a city dropdown that depends on it, and the suburbs of
    that city ranked by mean price. */
module Location {
  import opened Sequences
  import opened Listings
  import opened Aggregates

  /** The second dropdown's options: `City_data['City'].unique()` where
      `City_data` holds the rows of the selected country. */
  function CitiesOffered(rows: seq<Listing>, country: string): (r: seq<string>)
    ensures NoDuplicates(r)
    ensures forall c | c in r :: c in ColumnValues(Select(rows, Country, country), City)
  {
    Options(Select(rows, Country, country), City)
  }

  /** The cities offered are exactly the distinct cities of the selected
      country's rows, each once. */
  lemma CitiesOfferedSpec(rows: seq<Listing>, country: string)
    ensures NoDuplicates(CitiesOffered(rows, country))
    ensures forall c :: c in CitiesOffered(rows, country) <==>
      exists i | 0 <= i < |rows| :: rows[i].country == country && rows[i].city == c
  {
    var p := (row: Listing) => Cell(row, Country) == country;
    forall c ensures c in CitiesOffered(rows, country) <==>
      exists i | 0 <= i < |rows| :: rows[i].country == country && rows[i].city == c
    {
      InColumn(Select(rows, Country, country), City, c);
      InSelectedColumn(rows, p, City, c);
    }
  }

  /** `Suburb_data`: the rows of the selected city within the selected country. */
  function SuburbRows(rows: seq<Listing>, country: string, city: string): (r: seq<Listing>)
    ensures |r| <= |rows|
    ensures forall row | row in r :: row.country == country && row.city == city
  {
    var inCountry := Select(rows, Country, country);
    SelectSpec(inCountry, City, city);
    Select(inCountry, City, city)
  }

  /** `Suburb_data` is the table's rows that match both selections, in table
      order, each as often as the table has it. */
  lemma SuburbRowsSpec(rows: seq<Listing>, country: string, city: string)
    ensures SuburbRows(rows, country, city)
            == Where(rows, (row: Listing) => row.country == country && row.city == city)
    ensures forall row :: row in SuburbRows(rows, country, city) <==>
      row in rows && row.country == country && row.city == city
    ensures SubsequenceOf(SuburbRows(rows, country, city), rows)
  {
    var both := (row: Listing) => row.country == country && row.city == city;
    WhereComposed(rows, (row: Listing) => Cell(row, Country) == country,
                  (row: Listing) => Cell(row, City) == city, both);
    forall row ensures row in SuburbRows(rows, country, city) <==>
      row in rows && row.country == country && row.city == city
    {
      WhereMembership(rows, both, row);
    }
    WhereIsSubsequence(rows, both);
  }

  /** `mean_suburb_prices` after `sort_values(by='Price', ascending=False)`. */
  function SuburbRanking(rows: seq<Listing>, country: string, city: string): (r: seq<Group>)
    ensures NonIncreasing(r)
  {
    RankByMean(GroupMeans(SuburbRows(rows, country, city), Suburb))
  }

  /** A suburb occurs in `Suburb_data` exactly when some row of the table
      lies in it and in the selected city and country. */
  lemma SuburbOccurs(rows: seq<Listing>, country: string, city: string, s: string)
    ensures s in ColumnValues(SuburbRows(rows, country, city), Suburb) <==>
      exists i | 0 <= i < |rows| ::
        rows[i].country == country && rows[i].city == city && rows[i].suburb == s
  {
    var both := (row: Listing) => row.country == country && row.city == city;
    WhereComposed(rows, (row: Listing) => Cell(row, Country) == country,
                  (row: Listing) => Cell(row, City) == city, both);
    InSelectedColumn(rows, both, Suburb, s);
    if s in ColumnValues(SuburbRows(rows, country, city), Suburb) {
      var i :| 0 <= i < |rows| && both(rows[i]) && Cell(rows[i], Suburb) == s;
      assert rows[i].country == country && rows[i].city == city && rows[i].suburb == s;
    }
    if exists i | 0 <= i < |rows| ::
         rows[i].country == country && rows[i].city == city && rows[i].suburb == s {
      var i :| 0 <= i < |rows| &&
        rows[i].country == country && rows[i].city == city && rows[i].suburb == s;
      assert both(rows[i]) && Cell(rows[i], Suburb) == s;
    }
  }

  /** The suburb means list each suburb of the selected rows once and no other. */
  lemma SuburbMeansKeys(rows: seq<Listing>, country: string, city: string)
    ensures var means := GroupMeans(SuburbRows(rows, country, city), Suburb);
      && NoDuplicates(KeysOf(means))
      && forall s :: s in KeysOf(means) <==>
           exists i | 0 <= i < |rows| ::
             rows[i].country == country && rows[i].city == city && rows[i].suburb == s
  {
    var means := GroupMeans(SuburbRows(rows, country, city), Suburb);
    AscendingNoDuplicates(KeysOf(means));
    forall s ensures s in KeysOf(means) <==>
      exists i | 0 <= i < |rows| ::
        rows[i].country == country && rows[i].city == city && rows[i].suburb == s
    {
      SuburbOccurs(rows, country, city, s);
    }
  }

  /** The ranking lists each suburb of the selected rows once and no other
      suburb, highest mean first. */
  lemma SuburbRankingKeys(rows: seq<Listing>, country: string, city: string)
    ensures var r := SuburbRanking(rows, country, city);
      && NonIncreasing(r)
      && NoDuplicates(KeysOf(r))
      && forall s :: s in KeysOf(r) <==>
           exists i | 0 <= i < |rows| ::
             rows[i].country == country && rows[i].city == city && rows[i].suburb == s
  {
    var means := GroupMeans(SuburbRows(rows, country, city), Suburb);
    SuburbMeansKeys(rows, country, city);
    RankByMeanKeys(means);
  }

  /** The table's rows of suburb `s` in the selected city and country. */
  function SuburbListings(rows: seq<Listing>, country: string, city: string, s: string): seq<Listing> {
    Where(rows, (row: Listing) => row.country == country && row.city == city && row.suburb == s)
  }

  /** The group of suburb `k` within `Suburb_data` is that suburb's rows of the table. */
  lemma SuburbGroup(rows: seq<Listing>, country: string, city: string, k: string)
    ensures Select(SuburbRows(rows, country, city), Suburb, k) == SuburbListings(rows, country, city, k)
  {
    SuburbRowsSpec(rows, country, city);
    WhereComposed(rows, (row: Listing) => row.country == country && row.city == city,
                  (row: Listing) => Cell(row, Suburb) == k,
                  (row: Listing) => row.country == country && row.city == city && row.suburb == k);
  }

  /** Each suburb mean is the mean price of that suburb's rows of the table. */
  lemma SuburbEntryMean(rows: seq<Listing>, country: string, city: string, e: Group)
    requires e in GroupMeans(SuburbRows(rows, country, city), Suburb)
    ensures var g := SuburbListings(rows, country, city, e.key);
      |g| > 0 && e.mean == Mean(Prices(g))
  {
    var means := GroupMeans(SuburbRows(rows, country, city), Suburb);
    var j :| 0 <= j < |means| && means[j] == e;
    SuburbGroup(rows, country, city, e.key);
  }

  /** Each ranking entry is the arithmetic mean of the prices of exactly the
      table's rows in that suburb of the selected city and country. */
  lemma SuburbRankingMeans(rows: seq<Listing>, country: string, city: string)
    ensures var r := SuburbRanking(rows, country, city);
      forall i | 0 <= i < |r| ::
        var g := SuburbListings(rows, country, city, r[i].key);
        |g| > 0 && r[i].mean == Mean(Prices(g))
  {
    var means := GroupMeans(SuburbRows(rows, country, city), Suburb);
    var r := SuburbRanking(rows, country, city);
    forall i | 0 <= i < |r|
      ensures var g := SuburbListings(rows, country, city, r[i].key);
        |g| > 0 && r[i].mean == Mean(Prices(g))
    {
      assert r[i] in multiset(means);
      SuburbEntryMean(rows, country, city, r[i]);
    }
  }
}
