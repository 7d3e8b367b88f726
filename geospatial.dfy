/** The listing filter of the geospatial page (`Geospatial_visualisation_page`):
    the rows whose markers and heat points the maps would show. */
module Geospatial {
  import opened Sequences
  import opened Listings

  /** The widget values the filter reads: two multiselects, two integer
      number inputs and an integer range slider. */
  datatype Criteria = Criteria(
    countries: seq<string>,
    roomTypes: seq<string>,
    minPrice: int,
    maxPrice: int,
    minRating: int,
    maxRating: int)

  /** The mask used when no room type is selected. */
  function WindowMask(c: Criteria): Listing -> bool {
    (row: Listing) =>
      row.country in c.countries
      && row.price >= c.minPrice as real
      && row.price <= c.maxPrice as real
      && row.rating >= c.minRating as real
      && row.rating <= c.maxRating as real
  }

  /** The mask used when some room type is selected. */
  function RoomTypeMask(c: Criteria): Listing -> bool {
    (row: Listing) =>
      row.country in c.countries
      && row.roomType in c.roomTypes
      && row.price >= c.minPrice as real
      && row.price <= c.maxPrice as real
      && row.rating >= c.minRating as real
      && row.rating <= c.maxRating as real
  }

  /** `filtered_df`: an empty room-type selection leaves the room type unrestricted. */
  function GeoFilter(rows: seq<Listing>, c: Criteria): (r: seq<Listing>)
    ensures |r| <= |rows|
    ensures forall row | row in r :: Admits(c, row)
  {
    if |c.roomTypes| == 0 then Where(rows, WindowMask(c))
    else Where(rows, RoomTypeMask(c))
  }

  /** Whether the filter admits a row, stated condition by condition. */
  predicate Admits(c: Criteria, row: Listing) {
    && row.country in c.countries
    && (c.roomTypes != [] ==> row.roomType in c.roomTypes)
    && c.minPrice as real <= row.price <= c.maxPrice as real
    && c.minRating as real <= row.rating <= c.maxRating as real
  }

  lemma MaskIsAdmits(c: Criteria, row: Listing)
    ensures (if |c.roomTypes| == 0 then WindowMask(c) else RoomTypeMask(c))(row) == Admits(c, row)
  {
  }

  /** The filter keeps a row exactly when the row is admitted (so every kept
      row lies in the price and rating windows), keeps it as often as the
      table has it, and keeps the table order. */
  lemma GeoFilterSpec(rows: seq<Listing>, c: Criteria)
    ensures forall row :: row in GeoFilter(rows, c) <==> row in rows && Admits(c, row)
    ensures forall row :: multiset(GeoFilter(rows, c))[row]
                          == if Admits(c, row) then multiset(rows)[row] else 0
    ensures SubsequenceOf(GeoFilter(rows, c), rows)
  {
    var p := if |c.roomTypes| == 0 then WindowMask(c) else RoomTypeMask(c);
    assert GeoFilter(rows, c) == Where(rows, p);
    forall row ensures row in GeoFilter(rows, c) <==> row in rows && Admits(c, row) {
      WhereMembership(rows, p, row);
      MaskIsAdmits(c, row);
    }
    forall row ensures multiset(GeoFilter(rows, c))[row]
                       == if Admits(c, row) then multiset(rows)[row] else 0 {
      WhereCount(rows, p, row);
      MaskIsAdmits(c, row);
    }
    WhereIsSubsequence(rows, p);
  }

  /** No country selected: nothing is kept, whatever the other widgets say. */
  lemma NoCountryKeepsNothing(rows: seq<Listing>, c: Criteria)
    requires c.countries == []
    ensures GeoFilter(rows, c) == []
  {
    GeoFilterSpec(rows, c);
  }

  /** No room type selected is the same as selecting every room type the
      table offers. */
  lemma NoRoomTypeMeansEveryRoomType(rows: seq<Listing>, c: Criteria)
    requires c.roomTypes == []
    ensures GeoFilter(rows, c) == GeoFilter(rows, c.(roomTypes := Options(rows, RoomType)))
  {
    var all := c.(roomTypes := Options(rows, RoomType));
    if rows != [] {
      assert Cell(rows[0], RoomType) in Options(rows, RoomType);
      forall row | row in rows
        ensures WindowMask(c)(row) == RoomTypeMask(all)(row)
      {
        var i :| 0 <= i < |rows| && rows[i] == row;
        assert Cell(rows[i], RoomType) in Options(rows, RoomType);
      }
      WhereCongruent(rows, WindowMask(c), RoomTypeMask(all));
    }
  }

  /** The room-type condition on its own. */
  function RoomTypeSelected(c: Criteria): Listing -> bool {
    (row: Listing) => row.roomType in c.roomTypes
  }

  /** A room-type selection only narrows what the other conditions keep. */
  lemma RoomTypeNarrows(rows: seq<Listing>, c: Criteria)
    requires c.roomTypes != []
    ensures GeoFilter(rows, c) == Where(GeoFilter(rows, c.(roomTypes := [])), RoomTypeSelected(c))
  {
    var base := c.(roomTypes := []);
    var q := RoomTypeSelected(c);
    WhereComposed(rows, WindowMask(base), q, RoomTypeMask(c));
  }

  /** Filtering the filtered table again with the same widget values changes nothing. */
  lemma GeoFilterIdempotent(rows: seq<Listing>, c: Criteria)
    ensures GeoFilter(GeoFilter(rows, c), c) == GeoFilter(rows, c)
  {
    if |c.roomTypes| == 0 {
      WhereIdempotent(rows, WindowMask(c));
    } else {
      WhereIdempotent(rows, RoomTypeMask(c));
    }
  }
}
