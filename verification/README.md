# AricaGo core, modelled in Dafny

AricaGo is a one-page Streamlit tourism dashboard for the Arica y Parinacota
region. Apart from UI and HTTP glue, its page script `app.py` holds a few
small pure data operations, and this project models them:

- **Weather description** (`Weather`). The `weathercode` that Open-Meteo
  returns is a WMO weather-interpretation code. A chain of
  `if code in [...]: desc = ...` statements turns it into one of six Spanish
  texts, with "Despejado" as the default. Here the chain is a table of rules
  folded left to right, where each matching rule overwrites the result
  (`Overwrite`). The proofs show three things. The code sets are pairwise
  disjoint. Any reordering of the chain gives the same answer. The chain
  equals a first-match lookup (`Lookup`), so each class holds in both
  directions.
- **Point-of-interest table** (`Places`). One `Place` per CSV row, and the
  `dist_km` column (`RankedPlace`) that the proximity section adds.
- **Listings** (`Catalog`):
  - the featured places, `head(3)`;
  - the category radio options, `["Todas"] + sorted(unique(categoria))`;
  - the category filter. "Todas" keeps the whole table. Any other option
    keeps the rows of that category, in table order.
- **String order** (`Lexicographic`). Python's code-point order on `str`,
  which `sorted` uses for the options. It is proved a strict total order. The
  sorted distinct list is proved to be the unique strictly ascending list of
  the categories.
- **Proximity ranking** (`Ranking`). Each filtered row gets its distance to
  the user, and the rows are sorted by it. The result is proved to be a
  permutation of the annotated rows and non-decreasing in `dist_km`. Two such
  orderings list the same distances in the same order.
- **Card placement** (`Layout`). The i-th ranked place goes to column
  `i % 3`.

The distance itself (haversine) is a parameter `(lat1, lon1, lat2, lon2) -> real`
that the model does not look inside.

Behaviour of `app.py` the model keeps as written:

- `sort_values("dist_km")` uses pandas' default quicksort, which is not
  stable. So `Rank` promises ascending order and a permutation of the rows,
  and nothing about how rows at equal distance are ordered.
- The option that shows every category is the literal "Todas", compared
  before any row is looked at (app.py:159). If a row's category were itself
  "Todas", selecting it would still return the whole table, and "Todas"
  would appear twice among the options.
- Coordinates are not validated. Out-of-range latitudes and longitudes go
  straight to the distance function, so no validation is modelled.

## Model

| member | source | states |
|---|---|---|
| Weather.Overwrite | app.py:63-73 | running the overwrite chain yields the starting "Despejado" when no list contains the code, and otherwise the description of the last list that contains it |
| Weather.LastMatchExists | app.py:63-73 | when some list of the chain contains the code, one of them is the last to contain it |
| Weather.OverwriteDecidedByLastMatch | app.py:63-73 | when some list contains the code, the chain ends on the description of a list that contains it and that no later list overrides |
| Weather.RulesDisjoint | app.py:64-73 | the five code lists of the chain share no code |
| Weather.OverwriteDisjoint | app.py:63-73 | in a chain of disjoint lists, the one list containing the code decides the description, whatever its position |
| Weather.OrderIrrelevant | app.py:64-73 | any reordering of a disjoint chain gives the same description for every code, so the order of the checks does not matter |
| Weather.ChainIsLookup | app.py:63-73 | the chain as written agrees on every code, missing or not, with `Lookup`, the reference definition that stops at the first list containing the code |
| Weather.Classify | app.py:58-73 | the description `get_weather_arica` settles on for a code (`None` when the reply lacks `weathercode`) is the one the first-match reference lookup gives |
| Weather.Describe | app.py:63-73 | the `descripcion` text is one of the six Spanish texts, and "Despejado" when the code is missing |
| Weather.ClassifyPartlyCloudy | app.py:64-65 | a code is "Parcialmente nublado" exactly when it is 1, 2 or 3 |
| Weather.ClassifyFog | app.py:66-67 | a code is "Niebla" exactly when it is 45 or 48 |
| Weather.ClassifyRain | app.py:68-69 | a code is "Lluvia" exactly when it is 51, 53, 55, 61, 63 or 65 |
| Weather.ClassifySnow | app.py:70-71 | a code is "Nieve" exactly when it is 71, 73, 75 or 77 |
| Weather.ClassifyStorm | app.py:72-73 | a code is "Tormenta" exactly when it is 95, 96 or 99 |
| Weather.ClassifyClear | app.py:63-73 | a present code keeps the default "Despejado" exactly when it is in none of the five lists |
| Weather.UnlistedCodesAreClear | app.py:63-73 | codes 0, 56, 57 and 80 to 82 are reported as "Despejado" |
| Weather.TextInjective | app.py:63-73 | the six description texts are pairwise different |
| Weather.DescribeTexts | app.py:58-73 | the reported text is each description exactly for its own list, and "Despejado" exactly when the code is missing from the reply or in no list |
| Lexicographic.Less | app.py:29 | Python's `<` on `str`: `a` sorts before `b` exactly when `a` is a proper prefix of `b` or, at the first position where they differ, has the smaller code point |
| Lexicographic.LessIrreflexive | app.py:29 | no string sorts before itself |
| Lexicographic.LessTransitive | app.py:29 | string order is transitive |
| Lexicographic.LessTotal | app.py:29 | of two different strings one sorts before the other |
| Lexicographic.LessAsymmetric | app.py:29 | two strings never sort before each other both ways |
| Lexicographic.InsertUnique | app.py:29 | adding a string to a strictly ascending list keeps it strictly ascending, adds that string and nothing else, and grows it by at most one |
| Lexicographic.SortedUnique | app.py:29 | `sorted(unique(xs))` is strictly ascending, holds exactly the strings of `xs`, and is no longer than `xs` |
| Lexicographic.AscendingUnique | app.py:29 | two strictly ascending lists with the same elements are equal, so the sorted distinct list does not depend on row order |
| Lexicographic.AscendingOnce | app.py:29 | each string in a strictly ascending list occurs exactly once |
| Catalog.Featured | app.py:26 | the featured list is the prefix of the table of length min(3, number of rows) |
| Catalog.FeaturedOnlyHead | app.py:26 | rows after the third do not change the featured list, taking it twice changes nothing, and it is followed in the table by the remaining rows |
| Catalog.Categories | app.py:29 | the `categoria` column holds, at every position, the category of the row there |
| Catalog.CategoryOptions | app.py:155 | the options start with "Todas", then hold exactly the categories of the table, strictly ascending |
| Catalog.CategoryOptionsOnce | app.py:29 | each category present in the table is offered exactly once after "Todas" |
| Catalog.CategoryOptionsCanonical | app.py:29 | two tables with the same categories get the same option list, whatever the row order and repetition |
| Catalog.Matching | app.py:162 | the boolean-mask selection keeps only rows of the chosen category and is never longer than the table |
| Catalog.MatchingCounts | app.py:162 | every row of the chosen category is kept as often as the table holds it, and no other row is kept |
| Catalog.MatchingIsSubsequence | app.py:162 | the selected rows appear in the same relative order as in the table |
| Catalog.MatchingIsLongest | app.py:162 | every order-preserving selection of rows of that category is at most as long as the filter's, and one as long is the filter's result |
| Catalog.FilterByCategory | app.py:159-164 | "Todas" returns the table unchanged; any other option returns only rows of that category, each as often as in the table; an unknown category returns nothing; the result keeps table order; the count shown never exceeds the table |
| Catalog.OfferedCategoryNotEmpty | app.py:153-162 | every category the radio button offers selects at least one place, a row category spelled "Todas" included |
| Places.Annotate | app.py:177-180 | adding the `dist_km` column yields one row per filtered row, in the same order, each keeping its row and carrying the haversine distance from the user's position to that row |
| Ranking.Insert | app.py:181 | inserting a row into a list ascending by `dist_km` keeps it ascending and adds exactly that row |
| Ranking.Rank | app.py:177-181 | the ranked rows are non-decreasing in `dist_km`, are a permutation of the filtered rows with their distances, and are as many as the filtered rows, so an empty filter ranks nothing |
| Ranking.RankKeepsDistances | app.py:177-181 | every ranked row is one of the filtered rows and carries that row's own distance to the user |
| Ranking.AscendingDistancesDetermined | app.py:181 | any two ascending orderings of the same rows agree on the distance at every position; only rows at equal distance may trade places |
| Layout.ColumnOf | app.py:185 | the column index of the i-th card is one of the three columns and is congruent to i modulo 3 |
| Layout.PlaceCards | app.py:183-185 | card i lands in column i % 3 at row i / 3, each slot of each column holds the card placed there, and the three columns together hold every card once |

## Left out

- Haversine distance (app.py:34-45). It is floating-point trigonometry, so the model takes it as an opaque function parameter. Symmetry, zero distance and the 6371 km radius are not modelled.
- Ranking.Rank: distances are exact `real`s. A NaN distance, which pandas would sort last, cannot arise in the model. Ties are left unordered, as pandas' unstable default sort leaves them.
- Open-Meteo and currencyapi.com HTTP calls (app.py:48-62, 94-118). These are network I/O with timeouts and fallback values. Only the code-to-description table is modelled. The offline demo reply "Soleado (demo offline)" is not.
- Weather.DescribeTexts: a `weathercode` that is not an integer (a float such as 1.0, or a string) is not modelled. The code is taken to be absent or an integer.
- Currency conversion and amount parsing (app.py:114, 221). These are float arithmetic and library parsing.
- CSV loading and `@st.cache_data` (app.py:18-23). This is file I/O and framework caching. The table is an input sequence.
- Streamlit rendering and widgets (app.py:9-13, 124-232). The model keeps only the index arithmetic of the card columns and the option list given to the radio button. The search box and the random-destination button have no behaviour.
- The trailing lines app.py:234-236 are an over-indented duplicate of an earlier statement and a leftover caption. They make the file invalid as written and have no behaviour.
- Catalog.CategoryOptions: a missing (NaN) category in the table is not modelled. `sorted` would fail on it. Categories are strings.
