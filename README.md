# RefugeConnect locations filter, in Dafny

RefugeConnect is a front end for a refugee-assistance site. Its locations
page holds a fixed catalog of six location records (Berlin, Paris, Warsaw,
Vienna, Prague, Budapest). A text box filters the catalog: on every
keystroke the page stores the raw text as its filter and recomputes the
visible list from the full catalog. A location stays visible when its
lower-cased name contains the lower-cased text.

This project models that page and proves what the filter promises:

- `js_string.dfy` (module `JsString`) holds the two host string operations
  the filter calls. `ToLower` is `toLowerCase` on ASCII letters. `Includes`
  is `includes`: a left-to-right search that compares one character at a
  time. It is proved to decide the substring relation `Contains`.
- `location_filter.dfy` (module `LocationFilter`) holds the `Location`
  record, the seeded catalog `InitialLocations`, the predicate `Matches` and
  the pure filter `Filter` / `FilterLocations`. It also holds the lemmas:
  - order-preserving subsequence, exact membership and exact multiplicity;
  - the contract determines the result;
  - the empty query keeps everything;
  - letter case is ignored;
  - a shorter query hides nothing the longer one showed;
  - ids stay distinct;
  - the worked examples "aris", "zzz" and "BERLIN".
- `location_page.dfy` (module `LocationsPage`) holds the class
  `LocationPage`. Its two fields, `filter` and `locations`, are the two
  pieces of component state. Its constructor is the initial state and
  `HandleFilterChange` is the change handler. The invariant
  `locations == FilterLocations(filter)` holds after construction and after
  every call, whatever the earlier calls were.

## Model

| member | source | states |
|---|---|---|
| `JsString.ToLowerChar` | src/components/locations-page.tsx:85 | an ASCII capital becomes the small letter at the same alphabet position, every other character is kept, and no capital is left |
| `JsString.ToLower` | src/components/locations-page.tsx:85 | `toLowerCase` keeps the length, lower-cases each character in place and leaves no capital letter |
| `JsString.ToLowerIdempotent` | src/components/locations-page.tsx:85 | lower-casing a string twice gives the same string as lower-casing it once |
| `JsString.MatchAtCorrect` | src/components/locations-page.tsx:85 | comparing characters one by one from a start position succeeds exactly when the query is spelled out in the name at that position |
| `JsString.IncludesFromCorrect` | src/components/locations-page.tsx:85 | the search from start position `i` succeeds exactly when the query occurs at some position `j >= i` |
| `JsString.Includes` | src/components/locations-page.tsx:85 | `name.includes(query)` is true exactly when the query is a substring of the name |
| `JsString.ContainsTransitive` | src/components/locations-page.tsx:85 | a substring of a substring of the name is a substring of the name |
| `LocationFilter.Matches` | src/components/locations-page.tsx:85 | an entry matches exactly when its lower-cased name contains the lower-cased query |
| `LocationFilter.Filter` | src/components/locations-page.tsx:84-86 | the result is an order-preserving subsequence of the catalog, and a record is in it exactly when it is in the catalog and matches |
| `LocationFilter.FilterLocations` | src/components/locations-page.tsx:84-86 | the visible list is a subsequence of `initialLocations` holding exactly the matching entries |
| `LocationFilter.FilterCounts` | src/components/locations-page.tsx:84-86 | each matching record is kept as often as it occurs in the catalog, and no other record appears, so nothing is dropped or duplicated |
| `LocationFilter.FilterUnique` | src/components/locations-page.tsx:84-86 | any subsequence of the catalog with those counts equals `Filter`, so subsequence plus counts fully specify the filter |
| `LocationFilter.FilterEmptyQuery` | src/components/locations-page.tsx:84-86 | the empty query keeps every entry of any catalog, order for order |
| `LocationFilter.EmptyQueryShowsAll` | src/components/locations-page.tsx:79-86 | the empty query gives `initialLocations` itself, the same list the page starts with |
| `LocationFilter.FilterSameLowerCase` | src/components/locations-page.tsx:85 | two queries with the same lower-cased form give the same list |
| `LocationFilter.FilterIgnoresCase` | src/components/locations-page.tsx:85 | a query and its lower-cased form give the same list |
| `LocationFilter.FilterIdempotent` | src/components/locations-page.tsx:84-86 | filtering the filtered list again with the same query changes nothing |
| `LocationFilter.FilterAntitone` | src/components/locations-page.tsx:84-86 | if every match of `q1` also matches `q2`, then the list for `q1` is an ordered subsequence of the list for `q2` |
| `LocationFilter.NarrowerQuery` | src/components/locations-page.tsx:84-86 | a query whose lower-cased form is a substring of the lower-cased current query hides nothing the current query shows |
| `LocationFilter.ShorterQueryRestores` | src/components/locations-page.tsx:82-88 | after characters are deleted from the end of the query, every entry shown before is still shown in order, and every entry matching the shorter query is shown again |
| `LocationFilter.FilterIdsDistinct` | src/components/locations-page.tsx:84-86 | filtering a catalog with pairwise distinct ids yields a list with pairwise distinct ids |
| `LocationFilter.CatalogIdsDistinct` | src/components/locations-page.tsx:15-76 | the seeded ids are 1 to 6 in catalog order and pairwise distinct |
| `LocationFilter.VisibleIdsDistinct` | src/components/locations-page.tsx:125-126 | every visible list has pairwise distinct ids, so they are valid list keys |
| `LocationFilter.ArisExample` | src/components/locations-page.tsx:26-35 | the query "aris" yields exactly one entry, id 2, "Paris, France" |
| `LocationFilter.ZzzExample` | src/components/locations-page.tsx:84-86 | the query "zzz" yields the empty list, not an error |
| `LocationFilter.BerlinExample` | src/components/locations-page.tsx:16-25 | "BERLIN" and "berlin" both yield exactly the Berlin entry |
| `LocationsPage.LocationPage.constructor` | src/components/locations-page.tsx:79-80 | the page starts with filter `""` and the whole catalog shown, which is what the empty filter selects |
| `LocationsPage.LocationPage.HandleFilterChange` | src/components/locations-page.tsx:82-88 | the handler stores the raw input as the filter and shows the seeded catalog filtered by it, whatever was shown before |
| `LocationsPage.TypeThenBackspace` | src/components/locations-page.tsx:82-88 | typing a query and then backspacing shows again every entry the shorter text matches, and keeps every entry shown before |
| `LocationsPage.Session` | src/components/locations-page.tsx:79-88 | on a fresh page, "zzz" shows nothing, clearing the box shows the whole catalog, and "BERLIN" shows Berlin alone |

## Left out

- `JsString.ToLower`: lower-cases only ASCII `A`-`Z`. `String.prototype.toLowerCase` uses full Unicode case mapping, which can change a string's length. Every catalog name and every example query is ASCII.
- Strings are modelled as sequences of Dafny characters, not of UTF-16 code units. No name or query used here tells the two apart.
- React state updates: `setFilter` and `setLocations` are applied at the next render. `HandleFilterChange` applies both in one step, and no render happens in between.
- All JSX rendering: header, cards, badges, images, links and footer. The welcoming badge is only a display choice.
- The "Filter" submit button of the form. It has no handler, and what it does is browser form plumbing.
- The display-only fields `distance`, `isWelcoming`, `image`, `languages`, `healthcareAccess` and `jobOpportunities`. They are kept in `Location` with their seeded values, but the filter never inspects them.
- src/components/assistance-page.tsx is not part of this model. Its translation call is a timer-driven mock. Its one-request-at-a-time behaviour comes only from a disabled button. Its error branch cannot be reached. Its helper list is static and only rendered.
- src/components/landing-page.tsx is not part of this model. It is static markup, and its search form does nothing.
