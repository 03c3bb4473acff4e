/**
  The state of the locations page: the text in the filter box and the list
  of visible locations, and the change handler of the filter box.
 */
module LocationsPage {
  import opened JsString
  import opened LocationFilter

  class LocationPage {
    /** The text of the filter box, exactly as typed. */
    var filter: string
    /** The locations currently shown. */
    var locations: seq<Location>

    /** The shown list is the seeded catalog filtered by the current text. */
    ghost predicate Valid()
      reads this
    {
      locations == FilterLocations(filter)
    }

    /** The initial state: an empty filter and the whole catalog, which is
        what the empty filter selects. */
    constructor ()
      ensures filter == "" && locations == InitialLocations
      ensures Valid()
    {
      filter := "";
      locations := InitialLocations;
      new;
      EmptyQueryShowsAll();
    }

    /** A keystroke in the filter box: stores the raw input and recomputes the
        shown list from the seeded catalog, whatever was shown before. */
    method HandleFilterChange(input: string)
      modifies this
      ensures filter == input
      ensures locations == FilterLocations(input)
      ensures Valid()
    {
      filter := input;
      var filtered := Filter(InitialLocations, input);
      locations := filtered;
    }
  }

  /** Typing `q` and then deleting characters back to `q[..k]` shows again
      every entry that `q` hid, and keeps every entry `q` showed in order. */
  method TypeThenBackspace(page: LocationPage, q: string, k: nat)
    requires k <= |q|
    modifies page
    ensures page.filter == q[..k] && page.Valid()
    ensures IsSubsequence(FilterLocations(q), page.locations)
    ensures forall loc :: loc in InitialLocations && Matches(loc, q[..k]) ==> loc in page.locations
  {
    page.HandleFilterChange(q);
    page.HandleFilterChange(q[..k]);
    ShorterQueryRestores(InitialLocations, q, k);
  }

  /** A session on a fresh page: "zzz" shows nothing, clearing the box shows
      the whole catalog again, and "BERLIN" shows the Berlin entry alone. */
  method Session() returns (page: LocationPage)
    ensures page.filter == "BERLIN" && page.locations == [Berlin]
  {
    page := new LocationPage();
    page.HandleFilterChange("zzz");
    ZzzExample();
    assert page.locations == [];
    page.HandleFilterChange("");
    EmptyQueryShowsAll();
    assert page.locations == InitialLocations;
    page.HandleFilterChange("BERLIN");
    BerlinExample();
  }
}
