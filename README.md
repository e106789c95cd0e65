# Parichay profile directory — a verified model of its page logic

The Parichay page fetches community member profiles, groups them by area and
renders one section per area with a card per profile. It also renders a
menu of areas with a count badge per area and a search box that hides
non-matching cards. This project models the parts of
`public/assets/js/script.js` that decide something without a browser.

- **Grouping (`groupProfilesByArea`).** The `reduce` into an object keyed
  by area becomes an imperative method over a `map`. When it succeeds it is
  proved equal to a specification, `Grouped`: the areas in first-seen order,
  each with its rows in input order. Partition, order and key properties are
  proved about `Grouped`. An area that names a property every object
  inherits (such as "constructor" or "toString") makes the `push` throw. The
  method returns `None` exactly when some row has such an area.
- **Search (`setupSearch`'s `input` handler).** The handler becomes a
  `SearchPage` class. Its fields hold each card's text and the visibility the
  handler writes. `OnInput` loops over the sections, and the per-section pass
  `FilterSection` loops over the cards with the `sectionHasVisibleCards` flag.
  `OnInput` is proved to leave exactly the visibility the query determines.
- **Rendering decisions.** These are:
  - the section id `area-` + `replace(/\s+/g, '-')`;
  - the menu count;
  - the `single-item` flag;
  - the `||` defaults ("Unknown", "Profile", "N/A", the placeholder image);
  - the card's text content;
  - `getElementById`, which resolves a menu click to a section.
- **Text primitives.** These are:
  - the ECMAScript whitespace class, shared by `trim` and `\s`;
  - `toLowerCase`;
  - `trim`;
  - `includes`;
  - the whitespace-run replacement.

Modules:
- `Wrappers` (wrappers.dfy) holds the `Option` type.
- `Strings` (strings.dfy) holds the text primitives.
- `Profiles` (profiles.dfy) holds rows, falsy fields and the area key.
- `Grouping` (grouping.dfy) holds the grouping.
- `Rendering` (rendering.dfy) holds cards, sections, the menu and the lookup.
- `Search` (search.dfy) holds the search handler.

A row's field is `Missing` (undefined or null) or `Present(text)`. It is
truthy when present and non-empty, as in JavaScript for string values. The
grouped object is modelled as the sequence of its `(area, rows)` entries in
key insertion order. That is the order `for…in` visits them at lines 10 and
134, provided no area name is a canonical array index such as `"12"`.

## Model

| member | source | states |
|---|---|---|
| Profiles.AreaOfDefaults | public/assets/js/script.js:104 | A row is filed under its `Area` when that is truthy, otherwise under "Uncategorized"; the key is never empty |
| Grouping.FirstSeen | public/assets/js/script.js:103-110 | The object's keys are distinct and are exactly the areas of the input rows |
| Grouping.Members | public/assets/js/script.js:105-108 | An area's array holds only rows of that area and no more rows than the input |
| Grouping.GroupProfilesByArea | public/assets/js/script.js:102-111 | The fold throws (`None`) exactly when some row's area names an inherited `Object.prototype` property; otherwise it yields exactly `Grouped(profiles)`: the areas in first-seen order, each with its rows in input order |
| Grouping.MembersEmptyIff | public/assets/js/script.js:105-107 | An area's array is non-empty exactly when the area is one of the keys |
| Grouping.GroupedKeys | public/assets/js/script.js:102-111 | Keys are distinct and cover every row's area; no entry is empty; the result is empty iff the input is |
| Grouping.ExactlyOneGroup | public/assets/js/script.js:104-108 | A row is in an entry iff the entry's key is the row's area, so every row is in exactly one entry |
| Grouping.MembersSplit | public/assets/js/script.js:108 | `push` keeps input order: an area's rows are its rows in any prefix followed by its rows in the rest |
| Grouping.FirstSeenOrder | public/assets/js/script.js:105-107 | A key created later has all its rows preceded by a row of every earlier key |
| Grouping.GroupingIsPartition | public/assets/js/script.js:102-111 | The entries together hold exactly the input rows, as a multiset, so the entry sizes add up to the input length |
| Rendering.CardDefaults | public/assets/js/script.js:158-180 | The fallbacks: a falsy image path gives the placeholder URL, a stored path gives the storage URL, no name gives "Unknown" and alt "Profile", no native place or phone gives "N/A"; no card text is empty |
| Rendering.SectionId | public/assets/js/script.js:137 | A section id starts with `area-` and contains no whitespace |
| Rendering.TwoWordId | public/assets/js/script.js:137 | Two whitespace-free words joined by any whitespace run give `area-` + first word + `-` + second word |
| Rendering.NorthZoneId | public/assets/js/script.js:137 | The area "North Zone" gets the id "area-North-Zone" |
| Rendering.FindById | public/assets/js/script.js:25 | The lookup returns the first section carrying the id, or none when no section does |
| Rendering.MenuClickFindsSection | public/assets/js/script.js:24-26 | The menu item's lookup lands on its own section iff no earlier area's name normalises to the same id |
| Rendering.SlugCollision | public/assets/js/script.js:25 | "North  Zone" and "North Zone" get the same id, and the second item's click resolves to the first section |
| Rendering.MenuMatchesSections | public/assets/js/script.js:147-151 | Menu and sections agree entry by entry: same area, count equals the number of cards (line 19), `single-item` iff that count is 1, id from the area |
| Rendering.MenuCountsCoverProfiles | public/assets/js/script.js:17-19 | When the grouping succeeds, the count badges add up to the number of rows and every badge is at least 1 |
| Rendering.TwoAreaScenario | public/assets/js/script.js:134-153 | When the grouping succeeds, rows p1, p2 in area A and p3 in area B give sections A (two cards) and B (one card, single-item), in that order, and menu counts 2 and 1 |
| Strings.LowerChar | public/assets/js/script.js:65 | `toLowerCase` maps each ASCII capital to its own small letter, leaves every other character unchanged, leaves no capital, and keeps whitespace as whitespace |
| Strings.LowerIgnoresCase | public/assets/js/script.js:81 | Two strings lower-case to the same string iff they differ only in the ASCII case of letters |
| Strings.LowerIdempotent | public/assets/js/script.js:81 | Lower-casing twice is lower-casing once |
| Strings.LeadingSpaces | public/assets/js/script.js:65 | The count of leading whitespace characters is followed by a non-space or by the end |
| Strings.TrailingSpaces | public/assets/js/script.js:65 | The count of trailing whitespace characters is preceded by a non-space or by the start |
| Strings.TrimIsInfix | public/assets/js/script.js:65 | `trim` yields an infix of its input with only whitespace cut off on each side |
| Strings.TrimEndsNonSpace | public/assets/js/script.js:65 | A non-empty `trim` result begins and ends with a non-space |
| Strings.TrimEmptyIff | public/assets/js/script.js:65 | `trim` is empty iff the input is all whitespace |
| Strings.Includes | public/assets/js/script.js:83 | `includes` is true iff the term occurs at some offset of the text |
| Strings.IncludesInConcat | public/assets/js/script.js:83 | An occurrence in either part of a concatenation is an occurrence in the whole |
| Strings.IncludesTransitive | public/assets/js/script.js:83 | A text containing `longer` contains everything `longer` contains |
| Strings.Slug | public/assets/js/script.js:137 | `replace(/\s+/g, '-')` leaves no whitespace and never lengthens the name |
| Strings.SlugKeepsSpaceFree | public/assets/js/script.js:137 | A name without whitespace is unchanged |
| Strings.SlugIdempotent | public/assets/js/script.js:137 | Replacing a second time changes nothing |
| Strings.SlugOfRun | public/assets/js/script.js:137 | A non-empty all-whitespace run becomes exactly one hyphen |
| Strings.SlugAppend | public/assets/js/script.js:137 | The replacement distributes over a concatenation that does not join two whitespace runs |
| Strings.SlugCollapsesRun | public/assets/js/script.js:137 | A maximal whitespace run between two parts becomes exactly one hyphen, whatever its length or kind |
| Search.FilterSection | public/assets/js/script.js:76-91 | One section's pass: card k is shown iff its lower-cased text includes the term, and the flag is set iff some card is shown |
| Search.SearchPage.OnInput | public/assets/js/script.js:64-93 | After an input event every section and card has exactly the visibility the query determines, whatever was visible before: all shown for a blank query, else a card iff it matches and a section iff one of its cards does |
| Search.SearchPage.constructor | public/assets/js/script.js:130-196 | A freshly rendered page shows every section and card |
| Search.BlankQueryShowsAll | public/assets/js/script.js:65-73 | The term is empty iff the query is empty or whitespace only, and then every card and section is shown, including a section without cards |
| Search.TermIsNormalised | public/assets/js/script.js:65 | The search term is already lower-case and has no whitespace at either end |
| Search.MatchIgnoresCase | public/assets/js/script.js:65-83 | Changing the ASCII case of letters in the card text or in the query changes neither the term nor whether the card is shown |
| Search.PageOfDirectory | public/assets/js/script.js:153-191 | The searched page is the rendered directory: one section per entry, exactly one card text per row of the entry, and card k's text is that of the entry's row k |
| Search.SearchDirectory | public/assets/js/script.js:64-93 | When the grouping throws, no section is rendered; otherwise an input event on the rendered directory leaves an area's section shown iff the query is blank or one of that area's own rows has a card whose text matches the term |
| Search.SectionFollowsCards | public/assets/js/script.js:91 | With a non-empty term a section is shown iff one of its cards matches, so a section without cards is hidden |
| Search.NarrowingOnlyHides | public/assets/js/script.js:83 | If the new term contains the old one, a card shown for the new term was shown for the old one |
| Search.FieldMatchShowsCard | public/assets/js/script.js:81-83 | A term found in the name, native place or phone of a card shows that card |
| Search.LabelMatchesEveryCard | public/assets/js/script.js:174 | The text searched includes the labels, so the term "मुळगाव" shows every card |

## Left out

- `getProfiles` (script.js:231-259) is the remote query with its loading and error messages. It is network I/O through a foreign client. The model starts from the fetched rows.
- `getImageUrl`'s non-null branch (script.js:120-124) calls the storage service. It is a caller-supplied function `publicUrl` in `Rendering.ImageUrl`.
- The DOM itself is not modelled: element creation, `innerHTML`, class names, `scrollIntoView` and closing the menu after a click. A section is modelled by its id, heading, `single-item` flag and cards; a card by its fields and its text content.
- The phone badge's link target `tel:` + number (script.js:180) is not modelled; the card keeps the number it shows.
- The image `onerror` fallback (script.js:163-165) is not modelled. It depends on a browser load failure.
- The phone and native-place values are interpolated into `innerHTML` without escaping (script.js:174, 180). The model assumes values without markup, so that the card text is name, label, space and value. What markup in a value would do is left open.
- `updateCurrentAreaIndicator` (script.js:202-226) is not modelled. It is driven by IntersectionObserver callbacks, viewport geometry and the event loop.
- `setupAreaMenuToggle` (script.js:39-55) is not modelled. It only toggles a CSS class on clicks.
- public/assets/js/sidebar.js is not part of this model. It is an injected HTML string plus hover and timer handlers.
- Strings.LowerChar: lower-cases the ASCII capitals only. Unicode case mapping, including characters whose lower case has a different length, is not modelled.
- Profiles.Truthy: fields are strings or absent. Non-string values such as the number 0, `NaN` or `false`, which are also falsy, are not modelled.
- Grouping.GroupProfilesByArea: assumes no area name is a canonical array index. JavaScript enumerates such keys first, in numeric order, which the model does not capture. The throw on an inherited key name is modelled as `None`. How `getProfiles` catches it and shows its error message (script.js:255-257) is not modelled.
- Rendering.FindById: searches only the area sections. An area whose id equals another element's id on the page (an area named "menu" gives "area-menu") is not modelled.
