/**
  The locations catalog and the case-insensitive name filter of the
  locations page: the fixed list of six location records and the pure
  `.filter(...)` expression that selects the visible ones.
 */
module LocationFilter {
  import opened JsString

  /** One location record. Only `id` and `name` are ever computed on; the
      other fields are carried through the filter untouched and only shown. */
  datatype Location = Location(
    id: int,
    name: string,
    distance: int,
    isWelcoming: bool,
    image: string,
    languages: seq<string>,
    healthcareAccess: string,
    jobOpportunities: string)

  const Placeholder: string := "/placeholder.svg?height=200&width=300"

  const Berlin := Location(1, "Berlin, Germany", 0, true, Placeholder, ["German", "English"], "Excellent", "High")
  const Paris := Location(2, "Paris, France", 878, true, Placeholder, ["French", "English"], "Good", "Medium")
  const Warsaw := Location(3, "Warsaw, Poland", 524, false, Placeholder, ["Polish", "English"], "Moderate", "Low")
  const Vienna := Location(4, "Vienna, Austria", 524, true, Placeholder, ["German", "English"], "Excellent", "Medium")
  const Prague := Location(5, "Prague, Czech Republic", 280, true, Placeholder, ["Czech", "English"], "Good", "Medium")
  const Budapest := Location(6, "Budapest, Hungary", 689, false, Placeholder, ["Hungarian", "English"], "Moderate", "Low")

  /** The seeded catalog, in display order. */
  const InitialLocations: seq<Location> := [Berlin, Paris, Warsaw, Vienna, Prague, Budapest]

  /** The ids of `s` are pairwise distinct (they are the list keys when rendering). */
  predicate IdsDistinct(s: seq<Location>) {
    forall i, j :: 0 <= i < j < |s| ==> s[i].id != s[j].id
  }

  /** `r` can be obtained from `s` by deleting elements, keeping the order of the rest. */
  ghost predicate IsSubsequence<T>(r: seq<T>, s: seq<T>)
    decreases |s|
  {
    if r == [] then true
    else if s == [] then false
    else (r[0] == s[0] && IsSubsequence(r[1..], s[1..])) || IsSubsequence(r, s[1..])
  }

  /** The filter predicate: the lower-cased name includes the lower-cased query. */
  predicate Matches(loc: Location, query: string): (b: bool)
    ensures b <==> Contains(ToLower(loc.name), ToLower(query))
  {
    Includes(ToLower(loc.name), ToLower(query))
  }

  /** `r` holds each record that matches `query` exactly as often as `catalog`
      does, and no other record. */
  ghost predicate KeepsMatchingCounts(r: seq<Location>, catalog: seq<Location>, query: string) {
    forall loc :: multiset(r)[loc] == if Matches(loc, query) then multiset(catalog)[loc] else 0
  }

  /** `catalog.filter(loc => Matches(loc, query))`: the matching records, in
      catalog order. */
  function Filter(catalog: seq<Location>, query: string): (r: seq<Location>)
    ensures IsSubsequence(r, catalog)
    ensures forall loc :: loc in r <==> loc in catalog && Matches(loc, query)
  {
    if catalog == [] then []
    else
      var rest := Filter(catalog[1..], query);
      assert catalog == [catalog[0]] + catalog[1..];
      if Matches(catalog[0], query) then [catalog[0]] + rest else rest
  }

  /** The visible list the page derives from the seeded catalog for a query. */
  function FilterLocations(query: string): (r: seq<Location>)
    ensures IsSubsequence(r, InitialLocations)
    ensures forall loc :: loc in r <==> loc in InitialLocations && Matches(loc, query)
  {
    Filter(InitialLocations, query)
  }

  /** The empty query keeps every entry, in order: `"".toLowerCase()` is `""`
      and every name includes it. */
  lemma {:induction false} FilterEmptyQuery(catalog: seq<Location>)
    ensures Filter(catalog, "") == catalog
  {
    if catalog != [] {
      ContainsEmpty(ToLower(catalog[0].name));
      assert ToLower("") == "";
      FilterEmptyQuery(catalog[1..]);
    }
  }

  /** The empty query shows the whole seeded catalog, as the page does before
      any keystroke. */
  lemma EmptyQueryShowsAll()
    ensures FilterLocations("") == InitialLocations
  {
    FilterEmptyQuery(InitialLocations);
  }

  /** Two queries with the same lower-cased form select the same list. */
  lemma {:induction false} FilterSameLowerCase(catalog: seq<Location>, q1: string, q2: string)
    requires ToLower(q1) == ToLower(q2)
    ensures Filter(catalog, q1) == Filter(catalog, q2)
  {
    if catalog != [] {
      FilterSameLowerCase(catalog[1..], q1, q2);
    }
  }

  /** Matching ignores letter case: a query and its lower-cased form select the same list. */
  lemma FilterIgnoresCase(catalog: seq<Location>, query: string)
    ensures Filter(catalog, query) == Filter(catalog, ToLower(query))
  {
    ToLowerIdempotent(query);
    FilterSameLowerCase(catalog, query, ToLower(query));
  }

  /** Filtering an already filtered list with the same query changes nothing. */
  lemma {:induction false} FilterIdempotent(catalog: seq<Location>, query: string)
    ensures Filter(Filter(catalog, query), query) == Filter(catalog, query)
  {
    if catalog != [] {
      FilterIdempotent(catalog[1..], query);
    }
  }

  /** Filtering neither drops nor duplicates a matching record: each one is
      kept as often as it occurs in the catalog. */
  lemma {:induction false} FilterCounts(catalog: seq<Location>, query: string)
    ensures KeepsMatchingCounts(Filter(catalog, query), catalog, query)
  {
    if catalog != [] {
      FilterCounts(catalog[1..], query);
      assert catalog == [catalog[0]] + catalog[1..];
    }
  }

  /** A subsequence holds each element at most as often as the sequence does. */
  lemma {:induction false} SubsequenceMultiset<T>(r: seq<T>, s: seq<T>)
    requires IsSubsequence(r, s)
    ensures multiset(r) <= multiset(s)
    decreases |s|
  {
    if r != [] {
      assert s == [s[0]] + s[1..];
      if r[0] == s[0] && IsSubsequence(r[1..], s[1..]) {
        SubsequenceMultiset(r[1..], s[1..]);
        assert r == [r[0]] + r[1..];
      } else {
        SubsequenceMultiset(r, s[1..]);
      }
    }
  }

  /** The contract of `Filter` determines its result: the only subsequence of the
      catalog holding each matching record as often as the catalog and no other
      record is `Filter(catalog, query)`. */
  lemma {:induction false} FilterUnique(catalog: seq<Location>, query: string, r: seq<Location>)
    requires IsSubsequence(r, catalog) && KeepsMatchingCounts(r, catalog, query)
    ensures r == Filter(catalog, query)
    decreases |catalog|
  {
    if catalog == [] {
      assert r == [];
    } else {
      var head, tail := catalog[0], catalog[1..];
      assert catalog == [head] + tail;
      if r != [] && r[0] == head && IsSubsequence(r[1..], tail) {
        assert r == [head] + r[1..];
        if !Matches(head, query) {
          assert false;
        }
        FilterUnique(tail, query, r[1..]);
      } else {
        assert IsSubsequence(r, tail);
        SubsequenceMultiset(r, tail);
        if Matches(head, query) {
          assert false;
        }
        FilterUnique(tail, query, r);
      }
    }
  }

  /** A query that every match of `q1` also matches keeps at least the entries
      `q1` keeps, in the same order. */
  lemma {:induction false} FilterAntitone(catalog: seq<Location>, q1: string, q2: string)
    requires forall loc :: loc in catalog && Matches(loc, q1) ==> Matches(loc, q2)
    ensures IsSubsequence(Filter(catalog, q1), Filter(catalog, q2))
  {
    if catalog != [] {
      FilterAntitone(catalog[1..], q1, q2);
      var r1, r2 := Filter(catalog[1..], q1), Filter(catalog[1..], q2);
      if Matches(catalog[0], q1) {
        assert ([catalog[0]] + r1)[1..] == r1;
        assert ([catalog[0]] + r2)[1..] == r2;
      } else if Matches(catalog[0], q2) && r1 != [] {
        assert ([catalog[0]] + r2)[1..] == r2;
      }
    }
  }

  /** Narrowing the query to a part of itself (after lower-casing) never hides
      an entry: every entry visible for `q` stays visible, in the same order. */
  lemma NarrowerQuery(catalog: seq<Location>, q: string, part: string)
    requires Contains(ToLower(q), ToLower(part))
    ensures IsSubsequence(Filter(catalog, q), Filter(catalog, part))
  {
    forall loc | loc in catalog && Matches(loc, q) ensures Matches(loc, part) {
      ContainsTransitive(ToLower(loc.name), ToLower(q), ToLower(part));
    }
    FilterAntitone(catalog, q, part);
  }

  /** Deleting characters from the end of the query (backspacing) restores
      every entry the longer query had dropped, and hides none it showed. */
  lemma ShorterQueryRestores(catalog: seq<Location>, q: string, k: nat)
    requires k <= |q|
    ensures IsSubsequence(Filter(catalog, q), Filter(catalog, q[..k]))
    ensures forall loc :: loc in catalog && Matches(loc, q[..k]) ==> loc in Filter(catalog, q[..k])
  {
    ToLowerPrefix(q, k);
    ContainsPrefix(ToLower(q), k);
    NarrowerQuery(catalog, q, q[..k]);
  }

  /** A record can be put in front of a list with distinct ids exactly when
      its id differs from all of theirs. */
  lemma IdsDistinctCons(x: Location, s: seq<Location>)
    ensures IdsDistinct([x] + s) <==> IdsDistinct(s) && forall y :: y in s ==> y.id != x.id
  {
    var r := [x] + s;
    if IdsDistinct(r) {
      forall i, j | 0 <= i < j < |s| ensures s[i].id != s[j].id {
        assert r[i + 1] == s[i] && r[j + 1] == s[j];
      }
      forall y | y in s ensures y.id != x.id {
        var k :| 0 <= k < |s| && s[k] == y;
        assert r[0] == x && r[k + 1] == y;
      }
    }
    if IdsDistinct(s) && forall y :: y in s ==> y.id != x.id {
      forall i, j | 0 <= i < j < |r| ensures r[i].id != r[j].id {
        assert r[j] == s[j - 1] && s[j - 1] in s;
        if i > 0 {
          assert r[i] == s[i - 1];
        }
      }
    }
  }

  /** Filtering keeps the ids of a catalog pairwise distinct. */
  lemma {:induction false} FilterIdsDistinct(catalog: seq<Location>, query: string)
    requires IdsDistinct(catalog)
    ensures IdsDistinct(Filter(catalog, query))
  {
    if catalog != [] {
      var head, tail := catalog[0], catalog[1..];
      assert catalog == [head] + tail;
      IdsDistinctCons(head, tail);
      FilterIdsDistinct(tail, query);
      if Matches(head, query) {
        IdsDistinctCons(head, Filter(tail, query));
      }
    }
  }

  /** The seeded ids 1 to 6 are pairwise distinct. */
  lemma CatalogIdsDistinct()
    ensures IdsDistinct(InitialLocations)
    ensures forall i :: 0 <= i < |InitialLocations| ==> InitialLocations[i].id == i + 1
  {
  }

  /** Every visible list has pairwise distinct ids, so they can serve as list keys. */
  lemma VisibleIdsDistinct(query: string)
    ensures IdsDistinct(FilterLocations(query))
  {
    CatalogIdsDistinct();
    FilterIdsDistinct(InitialLocations, query);
  }

  /** The example queries are already in lower case. */
  lemma QueriesLowerCased()
    ensures ToLower("berlin") == ToLower("BERLIN") == "berlin"
    ensures ToLower("aris") == "aris" && ToLower("zzz") == "zzz"
  {
  }

  /* How each seeded entry answers the example queries "berlin", "aris" and
     "zzz": its lower-cased name, the three searches in that name, and the
     resulting matches. Most non-matches lack a character of the query; the
     other two are settled by running the search a few start positions at a
     time, from the end of the name towards its start. */

  lemma BerlinName()
    ensures ToLower(Berlin.name) == "berlin, germany"
  {
    assert Berlin.name == "Berlin, Germany";
  }

  lemma BerlinSearches()
    ensures Includes("berlin, germany", "berlin")
    ensures !Includes("berlin, germany", "aris")
    ensures !Includes("berlin, germany", "zzz")
  {
    var s := "berlin, germany";
    assert IncludesFrom(s, "berlin", 0);
    MissingChar(s, "aris", 's');
    MissingChar(s, "zzz", 'z');
  }

  lemma BerlinEntry()
    ensures Matches(Berlin, "berlin")
    ensures !Matches(Berlin, "aris")
    ensures !Matches(Berlin, "zzz")
  {
    BerlinName();
    BerlinSearches();
    QueriesLowerCased();
  }

  lemma ParisName()
    ensures ToLower(Paris.name) == "paris, france"
  {
    assert Paris.name == "Paris, France";
  }

  lemma ParisSearches()
    ensures !Includes("paris, france", "berlin")
    ensures Includes("paris, france", "aris")
    ensures !Includes("paris, france", "zzz")
  {
    var s := "paris, france";
    MissingChar(s, "berlin", 'b');
    assert IncludesFrom(s, "aris", 1);
    assert IncludesFrom(s, "aris", 0);
    MissingChar(s, "zzz", 'z');
  }

  lemma ParisEntry()
    ensures !Matches(Paris, "berlin")
    ensures Matches(Paris, "aris")
    ensures !Matches(Paris, "zzz")
  {
    ParisName();
    ParisSearches();
    QueriesLowerCased();
  }

  lemma WarsawName()
    ensures ToLower(Warsaw.name) == "warsaw, poland"
  {
    assert Warsaw.name == "Warsaw, Poland";
  }

  lemma WarsawSearches()
    ensures !Includes("warsaw, poland", "berlin")
    ensures !Includes("warsaw, poland", "aris")
    ensures !Includes("warsaw, poland", "zzz")
  {
    var s := "warsaw, poland";
    MissingChar(s, "berlin", 'b');
    MissingChar(s, "aris", 'i');
    MissingChar(s, "zzz", 'z');
  }

  lemma WarsawEntry()
    ensures !Matches(Warsaw, "berlin")
    ensures !Matches(Warsaw, "aris")
    ensures !Matches(Warsaw, "zzz")
  {
    WarsawName();
    WarsawSearches();
    QueriesLowerCased();
  }

  lemma ViennaName()
    ensures ToLower(Vienna.name) == "vienna, austria"
  {
    assert Vienna.name == "Vienna, Austria";
  }

  lemma ViennaSearches()
    ensures !Includes("vienna, austria", "berlin")
    ensures !Includes("vienna, austria", "aris")
    ensures !Includes("vienna, austria", "zzz")
  {
    var s := "vienna, austria";
    MissingChar(s, "berlin", 'b');
    assert !IncludesFrom(s, "aris", 0) by {
      assert !IncludesFrom(s, "aris", 8);
      assert !IncludesFrom(s, "aris", 4);
    }
    MissingChar(s, "zzz", 'z');
  }

  lemma ViennaEntry()
    ensures !Matches(Vienna, "berlin")
    ensures !Matches(Vienna, "aris")
    ensures !Matches(Vienna, "zzz")
  {
    ViennaName();
    ViennaSearches();
    QueriesLowerCased();
  }

  lemma PragueName()
    ensures ToLower(Prague.name) == "prague, czech republic"
  {
    assert Prague.name == "Prague, Czech Republic";
  }

  lemma PragueLacksZzz()
    ensures !Includes("prague, czech republic", "zzz")
  {
    var s := "prague, czech republic";
    assert !IncludesFrom(s, "zzz", 16);
    assert !IncludesFrom(s, "zzz", 12);
    assert !IncludesFrom(s, "zzz", 8);
    assert !IncludesFrom(s, "zzz", 4);
    assert !IncludesFrom(s, "zzz", 0);
  }

  lemma PragueSearches()
    ensures !Includes("prague, czech republic", "berlin")
    ensures !Includes("prague, czech republic", "aris")
    ensures !Includes("prague, czech republic", "zzz")
  {
    var s := "prague, czech republic";
    MissingChar(s, "berlin", 'n');
    MissingChar(s, "aris", 's');
    PragueLacksZzz();
  }

  lemma PragueEntry()
    ensures !Matches(Prague, "berlin")
    ensures !Matches(Prague, "aris")
    ensures !Matches(Prague, "zzz")
  {
    PragueName();
    PragueSearches();
    QueriesLowerCased();
  }

  lemma BudapestName()
    ensures ToLower(Budapest.name) == "budapest, hungary"
  {
    assert Budapest.name == "Budapest, Hungary";
  }

  lemma BudapestSearches()
    ensures !Includes("budapest, hungary", "berlin")
    ensures !Includes("budapest, hungary", "aris")
    ensures !Includes("budapest, hungary", "zzz")
  {
    var s := "budapest, hungary";
    MissingChar(s, "berlin", 'l');
    MissingChar(s, "aris", 'i');
    MissingChar(s, "zzz", 'z');
  }

  lemma BudapestEntry()
    ensures !Matches(Budapest, "berlin")
    ensures !Matches(Budapest, "aris")
    ensures !Matches(Budapest, "zzz")
  {
    BudapestName();
    BudapestSearches();
    QueriesLowerCased();
  }

  /** The query "aris" selects exactly the Paris entry, id 2. */
  lemma ArisExample()
    ensures FilterLocations("aris") == [Paris]
    ensures FilterLocations("aris")[0].id == 2 && FilterLocations("aris")[0].name == "Paris, France"
  {
    var q := "aris";
    BudapestEntry();
    assert Filter([Budapest], q) == [];
    PragueEntry();
    assert Filter([Prague, Budapest], q) == [];
    ViennaEntry();
    assert Filter([Vienna, Prague, Budapest], q) == [];
    WarsawEntry();
    assert Filter([Warsaw, Vienna, Prague, Budapest], q) == [];
    ParisEntry();
    assert Filter([Paris, Warsaw, Vienna, Prague, Budapest], q) == [Paris];
    BerlinEntry();
    assert Filter([Berlin, Paris, Warsaw, Vienna, Prague, Budapest], q) == [Paris];
  }

  /** A query no name contains gives the empty list, not an error. */
  lemma ZzzExample()
    ensures FilterLocations("zzz") == []
  {
    var q := "zzz";
    BudapestEntry();
    assert Filter([Budapest], q) == [];
    PragueEntry();
    assert Filter([Prague, Budapest], q) == [];
    ViennaEntry();
    assert Filter([Vienna, Prague, Budapest], q) == [];
    WarsawEntry();
    assert Filter([Warsaw, Vienna, Prague, Budapest], q) == [];
    ParisEntry();
    assert Filter([Paris, Warsaw, Vienna, Prague, Budapest], q) == [];
    BerlinEntry();
    assert Filter([Berlin, Paris, Warsaw, Vienna, Prague, Budapest], q) == [];
  }

  /** "BERLIN" and "berlin" both select exactly the Berlin entry. */
  lemma BerlinExample()
    ensures FilterLocations("BERLIN") == FilterLocations("berlin") == [Berlin]
  {
    var q := "berlin";
    BudapestEntry();
    assert Filter([Budapest], q) == [];
    PragueEntry();
    assert Filter([Prague, Budapest], q) == [];
    ViennaEntry();
    assert Filter([Vienna, Prague, Budapest], q) == [];
    WarsawEntry();
    assert Filter([Warsaw, Vienna, Prague, Budapest], q) == [];
    ParisEntry();
    assert Filter([Paris, Warsaw, Vienna, Prague, Budapest], q) == [];
    BerlinEntry();
    assert Filter([Berlin, Paris, Warsaw, Vienna, Prague, Budapest], q) == [Berlin];
    QueriesLowerCased();
    FilterSameLowerCase(InitialLocations, "BERLIN", q);
  }
}
