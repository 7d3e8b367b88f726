# Airbnb analysis dashboard — a Dafny model of its logic

The dashboard (`Airbnb_stream.py`) is a Streamlit app over pre-computed
Airbnb listing extracts. Nearly all of it is rendering. The part with a
contract to check is small:

- **Page navigation** (`main`). The session value `current_page` starts at
  `'Introduction'` when absent. Five sidebar buttons overwrite it. An
  if/elif chain then runs the handler of the current page, if the value
  matches one. Modelled as the class `Navigation.Session`, whose method
  `Rerun` performs one run of `main`. It is specified by the functions
  `Step`, `Dispatch` and `PageAfter`, which cover a whole sequence of runs.
- **Geospatial listing filter** (`Geospatial_visualisation_page`). The two
  boolean masks over country, room type, price and rating are modelled as
  `Geospatial.GeoFilter`, over the generic mask selection
  `Sequences.Where` (`df[mask]`).
- **Dropdown options**. `df[col].unique()` is `Listings.Options`, built on
  `Sequences.Distinct`: distinct values in order of first appearance. The
  city dropdown that depends on the chosen country is
  `Location.CitiesOffered`.
- **Group-by mean and ranking**. `groupby(col)['Price'].mean()` is
  `Aggregates.GroupMeans`: one entry per key, keys in ascending Python
  string order (groupby sorts its keys), each entry the exact arithmetic
  mean of its group's prices. `sort_values(by='Price', ascending=False)` is
  `Aggregates.RankByMean`. The per-country means of the price page are
  `PriceTrends.MeanPriceByCountry`. The suburb ranking of the location page
  is `Location.SuburbRanking`.

A listing row is the datatype `Listings.Listing`. It has every column the
modelled filters and aggregates read; the map coordinates and the
correlation columns are not among them. Prices and ratings are exact `real`s. The widget bounds
(`number_input`, `slider`) are `int`s, as the code builds them with `int(...)`.

Two behaviours of the code are easy to misread:

- An empty country selection keeps no row, because `isin([])` is all-false.
  Only an empty room-type selection means "no restriction".
- A `current_page` value outside the five known names runs no handler.
  The code raises no error for it.

## Model

| member | source | states |
|---|---|---|
| `Navigation.Session.constructor` | Airbnb_stream.py:374 | a new session has no `current_page` |
| `Navigation.Session.Rerun` | Airbnb_stream.py:374-399 | the new `current_page` is the pressed button's page, else the old value, else `'Introduction'`; the handler returned is the dispatch of the new page; if the old value was absent or a known page, the new one is known and exactly one handler runs |
| `Navigation.Target` | Airbnb_stream.py:378-387 | the value each button writes into `current_page` is one of the five page names the dispatch tests |
| `Navigation.Dispatch` | Airbnb_stream.py:390-399 | the if/elif chain: a handler runs exactly when the page value is one some button stores |
| `Navigation.Step` | Airbnb_stream.py:374-387 | `current_page` after one run: a press always lands on a page with a handler, and with no press a page that had a handler, or an absent one, still ends on a page with a handler |
| `Navigation.StepCases` | Airbnb_stream.py:374-387 | a press sets the page whatever it was; with no press an existing page is kept and an absent one becomes `'Introduction'` |
| `Navigation.DispatchKnownPages` | Airbnb_stream.py:390-399 | a handler runs if and only if the page is one of the five stored names; any other value runs none |
| `Navigation.DispatchInjective` | Airbnb_stream.py:390-399 | two page values that run the same handler are the same value, so each name selects exactly one handler |
| `Navigation.ButtonsReachEveryHandler` | Airbnb_stream.py:378-399 | every button's page runs a handler, distinct buttons run distinct handlers, and every handler has a button |
| `Navigation.LastPressWins` | Airbnb_stream.py:378-387 | after any sequence of runs, the page is the target of the last press, whatever came before |
| `Navigation.NoPressKeepsPage` | Airbnb_stream.py:374-375 | runs without a press never reset an existing page; from an absent page they leave `'Introduction'` |
| `Navigation.ClickSequenceEndsOnGeospatial` | Airbnb_stream.py:378-393 | Introduction, Geospatial, Correlation, Geospatial ends on the geospatial page and runs its handler |
| `Sequences.Where` | Airbnb_stream.py:105-120 | a mask selection is no longer than its input and every kept row satisfies the mask |
| `Sequences.WhereMembership` | Airbnb_stream.py:105-120 | a row is kept if and only if it is an input row and the mask holds of it |
| `Sequences.WhereCount` | Airbnb_stream.py:105-120 | a kept row occurs exactly as often as in the input, a dropped row not at all |
| `Sequences.WhereIsSubsequence` | Airbnb_stream.py:105-120 | the selection is an order-preserving subsequence of the input |
| `Sequences.WhereIdempotent` | Airbnb_stream.py:105-120 | applying a mask to its own result changes nothing |
| `Sequences.Distinct` | Airbnb_stream.py:73 | `unique()` has exactly the values of its input, each once |
| `Sequences.DistinctFirstAppearanceOrder` | Airbnb_stream.py:73 | `unique()` lists values in the order of their first occurrence |
| `Geospatial.GeoFilter` | Airbnb_stream.py:104-120 | `filtered_df`: the country/price/rating mask when no room type is selected, the mask with room type otherwise; never longer than the table, and every kept row is admitted by the widget values |
| `Geospatial.GeoFilterSpec` | Airbnb_stream.py:104-120 | a row is kept if and only if its country is selected, its room type is selected (when any is), and its price and rating lie in the chosen closed ranges; kept rows keep their multiplicity and table order |
| `Geospatial.NoCountryKeepsNothing` | Airbnb_stream.py:106 | with no country selected the result is empty |
| `Geospatial.NoRoomTypeMeansEveryRoomType` | Airbnb_stream.py:104-111 | with no room type selected the result equals selecting every room type the table offers |
| `Geospatial.RoomTypeNarrows` | Airbnb_stream.py:104-120 | with room types selected the result is the country/price/rating result further restricted to those room types |
| `Geospatial.GeoFilterIdempotent` | Airbnb_stream.py:104-120 | filtering the filtered table again with the same widget values changes nothing |
| `Listings.Select` | Airbnb_stream.py:170 | every row of `df[df[col] == v]` has `v` in `col` |
| `Listings.SelectSpec` | Airbnb_stream.py:275 | `df[df[col] == v]` keeps exactly the rows with `v` in `col`, with their multiplicity and table order |
| `Listings.Options` | Airbnb_stream.py:73-77 | the options offered for a column are exactly its distinct values, each once |
| `Listings.OptionsInTableOrder` | Airbnb_stream.py:73-77 | options appear in the order their values first occur in the table |
| `Aggregates.SortKeys` | Airbnb_stream.py:173 | group keys come out as a permutation of the distinct keys, strictly ascending in Python string order |
| `Aggregates.GroupMeans` | Airbnb_stream.py:173 | one entry per value present in the column and no other, keys strictly ascending, each mean the sum of its group's prices divided by the group's non-zero size |
| `Aggregates.GroupMeanWithinPrices` | Airbnb_stream.py:284 | each group mean lies between any lower and upper bound of that group's prices |
| `Aggregates.RankByMean` | Airbnb_stream.py:287 | the ranking is a permutation of its input, sorted non-increasing by mean |
| `Aggregates.RankByMeanKeys` | Airbnb_stream.py:287 | ranking keeps the set of keys and keeps them free of duplicates |
| `PriceTrends.MeanPriceByCountry` | Airbnb_stream.py:170-173 | `mean_prices` for the chosen room type (and, the same way, for the chosen property type at :223-226): bars in strictly ascending country order, each a country of the selected rows |
| `PriceTrends.MeanPriceByCountryKeys` | Airbnb_stream.py:170-173 | one bar per country that has a row of the chosen room or property type, no other bar, bars in ascending country order |
| `PriceTrends.MeanPriceByCountryMeans` | Airbnb_stream.py:223-226 | each bar is the arithmetic mean of the prices of exactly that country's rows of the chosen type |
| `Location.CitiesOffered` | Airbnb_stream.py:275-278 | the city dropdown's options: no city twice, each a city of the chosen country's rows |
| `Location.CitiesOfferedSpec` | Airbnb_stream.py:273-278 | the cities offered are exactly the distinct cities among rows of the chosen country, each once |
| `Location.SuburbRows` | Airbnb_stream.py:275-281 | `Suburb_data`: never longer than the table, and every row in it has the chosen country and city |
| `Location.SuburbRowsSpec` | Airbnb_stream.py:275-281 | the suburb table uses exactly the rows matching both the chosen country and the chosen city, in table order |
| `Location.SuburbRanking` | Airbnb_stream.py:284-287 | `mean_suburb_prices` after sorting: entries in non-increasing order of mean price |
| `Location.SuburbRankingKeys` | Airbnb_stream.py:284-287 | the ranking lists each suburb of the selected rows once and no other, sorted non-increasing by mean |
| `Location.SuburbRankingMeans` | Airbnb_stream.py:281-284 | each ranking entry is the arithmetic mean of the prices of exactly that suburb's rows in the chosen city and country |

## Left out

- Styling and the introduction page (`set_gradient_bg`, `intro_page`, Airbnb_stream.py:10-67) are rendering only.
- Reading the CSV extracts (Airbnb_stream.py:71, 157, 269, 319) is file I/O. The rows are a parameter.
- Widget behaviour is Streamlit's and is not modelled. This covers the min/max clamping of the number inputs and the slider (Airbnb_stream.py:82-102), the default selection of a selectbox, and dropping a stale dependent selection. Widget values are parameters.
- The folium marker map, popups and heat map (Airbnb_stream.py:122-153) are rendering through a library. They use float coordinates.
- The seaborn and matplotlib charts are rendering (Airbnb_stream.py:175-191, 199-212, 228-265, 290-311). This includes the per-country room-type and property-type bars of Airbnb_stream.py:194-212 and 247-265. Their row selection is `Listings.Select`, but the averaging inside `sns.barplot` is the library's.
- `Correlation_page` (Airbnb_stream.py:313-366) computes floating-point Pearson matrices inside pandas.
- Means are exact real quotients. IEEE rounding of `mean()` is not modelled.
- Missing values (NaN) are not modelled. pandas drops NaN group keys and skips NaN prices; the model's rows have no missing cells.
- Aggregates.RankByMean: entries with equal means keep their key order (a stable sort). pandas' default `sort_values` quicksort promises no order among ties, so the contract states only the permutation and the non-increasing order.
- The "Display Map" and "Display the suburb prices" buttons only gate rendering, so they are not modelled.
